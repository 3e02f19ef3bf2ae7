# OpenCam control plane: a model in Dafny

The repository turns a phone into a camera for a Linux or a Windows computer. This project models the code
that carries control information between them, and the stateful code around the video, and proves what it
guarantees over all inputs, all cuts of a stream into reads and all interleavings of its threads.

| file | what it models |
|---|---|
| `Wire.dfy`, `SecureChannel.dfy`, `Hkdf.dfy`, `Protocol.dfy`, `Retries.dfy`, `Handshake.dfy` | OCAM v2: frames over a fragmenting stream, the AES-GCM channel, key derivation, the mutual proof, the pairing loop, and whole runs of many sessions against a hostile network |
| `ConnectionLifecycle.dfy` | the generation counter of the phone's `ConnectionManager` and the receiver threads, as interleaved lock sections |
| `Framing.dfy`, `ControllerPackets.dfy`, `LegacyCommands.dfy`, `ErrorReports.dfy` | reassembly of two unframed streams, and the commands and reports they carry |
| `Octets.dfy`, `Utf8.dfy`, `Cursor.dfy`, `Activation.dfy`, `Descriptors.dfy` | the codecs that one language writes and another reads |
| `TextLines.dfy`, `Redaction.dfy`, `Userinfo.dfy` | removal of RTSP credentials from diagnostic text, the line buffer in front of it, and what the output still shows |
| `Rasters.dfy`, `FrameScaling.dfy`, `YuvPacking.dfy` | the frame scaler with its cache and buffer, and the packed YUV frame |
| `MediaPipelines.dfy` | the owner and the worker of the media pipeline |
| `SettingsFile.dfy` | the settings file |

Objects and loops of the source are classes and methods here; each is proved against a function of values,
and the properties are lemmas about those functions. The step machines (`Protocol`, `ConnectionLifecycle`,
`MediaPipelines`) are tied to the methods. `Send` and `Receive` are specified by `SendEffect` and
`ReceiveEffect`, and `handleClient` and `authenticate` by `ServerRun` and `ClientRun`; the steps of the
protocol are proved to have exactly these effects. The connection manager shares `Superseded`, `Offered` and
`Disconnected` with its step machine. The finer steps of the media pipeline are proved to compose to `Started`, `StopRequested`,
`Joined` and `WithFailure`, which specify its methods.

Conventions and assumptions:

- HMAC, HKDF and AES-GCM are symbolic: keys are terms of their derivation, a proof verifies only if it was
  issued, and a ciphertext opens only if the log of sealings has it. Nonces are fresh.
- The network is a schedule of choices: how many octets each attempt moves, interruptions, time-outs and
  failures. Time is a number that never decreases. The random generator yields a new number each time.
- A run may send on a channel after a failed send. The theorems that need this not to happen say so. The
  cipher stays ideal even then, which is more than AES-GCM gives: once a nonce has covered two inputs it no
  longer authenticates (appendix A of NIST SP 800-38D). Results about runs with such sends are about the ideal
  cipher.
- `None` stands for an exception or an error return of the source.
- Strings on the wire are octets. Strings in diagnostic text and in the settings file are characters, each
  of which stands for one octet.

Where the code falls short of what its comments promise:

- The channel uses a nonce twice exactly when somebody sends after a failed send
  (`Protocol.NonceReuseExactly`). What is accepted can then fail to be what was sealed under the numbers in
  order, exactly when such a retry seals another frame under a number still to be accepted
  (`Retries.InOrderStaysExactly`); `Retries.RetryRunExists` gives runs in which both happen. A retry that seals
  the same frame keeps the order: it is accepted once (`Protocol.AcceptedInOrder`).
  `linux/src/main.cpp:212-222` does not send again. The phone can:
  `ConnectionManager.kt:93-116` reports the failure to `onDisconnected`, which drops the connection in a
  coroutine of its own (128-137), and until that has run another error report is sealed on the same channel
  under the same number (`ControlProtocol.kt:529-606`).
- `linux/src/diagnostic_redaction.hpp` promises the removal of RTSP userinfo. A URL nested in the authority
  of another one keeps it (`Userinfo.NestedUserinfoSurvives`), and so does userinfo with an apostrophe or a
  closing bracket in it (`Userinfo.PasswordWithParenthesisIsShown`). `Userinfo.NothingShownExactly` gives the
  exact condition.
- The settings file is not a round trip for keys with `=` or names with newlines
  (`SettingsFile.SavedIsLoadedExactly`), and it does not hold the zoom. While device states are not saved,
  preserved lines can override global settings (`SettingsFile.LoadedGlobalsSurviveExactly`).
- An error report with a string beyond the receiver's limits is not delivered
  (`ErrorReports.ReportsArriveExactly`).
- A rotation by -90 or 270 degrees is lost (`LegacyCommands.RotationsCarriedOutExactly`).

## Model

| member | source | states |
|---|---|---|
| `Protocol.AcceptedIsPrefixOfSealed` | linux/src/control_protocol.cpp:884-1050 | In every run against a network that drops, replays, reorders, edits or reflects, what an end with a channel has accepted (types and payloads, in order) is a prefix of what its one counterpart sealed, if the counterpart has not sent after a failed send |
| `Retries.InOrderStaysExactly` | linux/src/control_protocol.cpp:961-1050 | Whatever is delivered from any point of a run on, what the receiver accepts is what its counterpart sealed under the numbers from 0 on, one frame for each number (the first), if and only if it is so far and no retry has sealed another frame under a number still to be accepted |
| `Protocol.AcceptedInOrder` | linux/src/control_protocol.cpp:884-1050 | In every run, if the counterpart has sealed one frame for each number, however often, what is accepted is a prefix of what it sealed with the repeats of numbers dropped |
| `Protocol.FirstsAreFirst` | android/app/src/main/java/com/darusc/vcamdroid/networking/ControlProtocol.kt:529-606 | Dropping the repeats leaves, at the position of each number used, the frame sealed first under it, and nothing else |
| `Retries.OneFrameKeptExactly` | android/app/src/main/java/com/darusc/vcamdroid/networking/ControlProtocol.kt:529-606 | A send keeps one frame for each number if and only if everything sealed before under the next number is that frame |
| `Retries.SameRetryStaysInOrder` | android/app/src/main/java/com/darusc/vcamdroid/networking/ControlProtocol.kt:529-606 | For any two frames there is a run in which the phone sends the first in vain, sends it again and sends the second: the controller accepts both, once and in order, though the list of all that was sealed begins with the first frame twice |
| `Retries.PrefixStaysExactly` | linux/src/control_protocol.cpp:961-1050 | About the literal list of all sealings, repeats included: whatever is delivered, what is accepted stays a prefix of that list if and only if it is one now and every frame under a number still to be accepted equals the frame at the position of that number in the list, which after a failed send is more than sealing the same frame again |
| `Retries.DeliverUpTo` | linux/src/control_protocol.cpp:961-1050 | Whichever frame was sealed under a number not yet accepted, the network can make the receiver accept it under that number |
| `Retries.RetryRunExists` | android/app/src/main/java/com/darusc/vcamdroid/networking/ControlProtocol.kt:529-606 | For any two frames there is a run in which the phone sends the second after the first failed: one key and nonce seal both, and the controller accepts the second as its first frame, so that the prefix is lost unless they are equal |
| `Retries.OpeningOpens` | android/app/src/main/java/com/darusc/vcamdroid/networking/ControlProtocol.kt:702-830 | A handshake in which everything is delivered leaves both ends with channels, as counterparts |
| `Protocol.SendIsTheStep` | linux/src/control_protocol.cpp:884-959 | Whatever the method Send does to a channel and the log is what a Send step of the machine does; where it refuses, no such step is possible |
| `Protocol.SendStepIsTheMethod` | linux/src/control_protocol.cpp:884-959 | Whatever a Send step does, the method can do |
| `Protocol.ReceiveIsTheStep` | linux/src/control_protocol.cpp:961-1050 | A carrier that the method Receive accepts is accepted by a DeliverFrame step with the same result, and one that it refuses by none |
| `Handshake.HandshakeStepsAreTheMethods` | linux/src/main.cpp:45-137 | The proof and greeting steps of the machine take a run from where handleClient and authenticate start to where they leave it |
| `Handshake.ChannelsOfRuns` | linux/src/main.cpp:134-137 | The channel constructed from the session key that the methods return is the channel of the machine's run |
| `Protocol.AcceptedWereSealed` | linux/src/control_protocol.cpp:961-1050 | With the ideal cipher and without any such proviso, the frame accepted at each position was sealed by the counterpart under that sequence number |
| `Protocol.NoReflection` | linux/src/control_protocol.cpp:961-1050 | No end ever accepts what it, or an end of its own side, has sealed: whatever opens was sealed by its counterpart |
| `Protocol.NoNonceReuse` | linux/src/control_protocol.cpp:897-958 | Over a whole run of any number of sessions in which nobody sends after a failed send, no two encryptions under one key share a nonce (section 8.2.1 of NIST SP 800-38D) |
| `Protocol.NonceReuseExactly` | android/app/src/main/java/com/darusc/vcamdroid/networking/ControlProtocol.kt:529-606 | In a run some two encryptions under one key share a nonce if and only if somebody sends after a failed send |
| `Protocol.NoncesEqualExactly` | linux/src/control_protocol.cpp:948-958 | Two encryptions under one key have the same owner, and equal nonces if and only if every send from the one up to the other failed |
| `Protocol.EverySealingIsLogged` | linux/src/control_protocol.cpp:897-958 | Every frame that an end has sealed is an encryption in the log |
| `Protocol.SendKeysDistinct` | linux/src/control_protocol.cpp:844-882 | No two ends with channels, of any sessions and directions, ever seal under the same key |
| `Protocol.LimitsOfTheEnds` | android/app/src/main/java/com/darusc/vcamdroid/networking/ControlProtocol.kt:529-545 | The controller counts up to one short of 2^64 frames, the phone up to one short of 2^63 |
| `Protocol.HandshakeAgreement` | android/app/src/main/java/com/darusc/vcamdroid/networking/ControlProtocol.kt:702-830 | When authenticate returns a channel there is exactly one handleClient run that verified a proof for the same pair of nonces; both hold the same session key, and the send key of each is the receive key of the other |
| `Protocol.OneProofDecides` | linux/src/main.cpp:69-128 | The first proof of the other side that reaches a run is the last one it looks at: whatever follows, the run holds a channel from then on if the proof is one of its secret and nonces and, at the controller, in time and answered, and never otherwise |
| `Protocol.OpenExactly` | android/app/src/main/java/com/darusc/vcamdroid/networking/ControlProtocol.kt:702-830 | At the end of any run an end holds a channel if and only if such a proof has been delivered to it at some step |
| `Handshake.FramesOnTheWire` | android/app/src/main/java/com/darusc/vcamdroid/networking/ControlProtocol.kt:752-815 | The types of the three handshake frames, and the octets that each proof covers |
| `Protocol.SecretYieldsOneSession` | linux/src/main.cpp:131-137 | If no secret is handed to two handleClient runs, at most one phone obtains a channel from it |
| `Protocol.ProofInputInjective` | linux/src/control_protocol.cpp:797-831 | The two proof domains never give equal MAC inputs, and a MAC input determines both nonces |
| `Protocol.RunKeepsInv` | linux/src/main.cpp:45-137 | Every interleaving of handshake and channel steps keeps the system invariant |
| `Protocol.NextKeepsInv` | android/app/src/main/java/com/darusc/vcamdroid/networking/ControlProtocol.kt:529-694 | Each single step keeps the system invariant |
| `Protocol.ProofLinks` | android/app/src/main/java/com/darusc/vcamdroid/networking/ControlProtocol.kt:253-267 | A proof that verifies was issued by one run of the other side with the same secret and the same nonces |
| `Protocol.OpenedFromPeer` | linux/src/control_protocol.cpp:961-1050 | A frame that opens under the receive key is the frame that the counterpart sealed at exactly the expected position |
| `Protocol.CounterpartUnique` | linux/src/main.cpp:77-101 | A run has at most one counterpart |
| `SecureChannel.AuthenticatedChannel.Send` | linux/src/control_protocol.cpp:884-959 | Seals exactly the sendable frames, once each, with the right key, nonce and header; advances the counter only if the whole carrier went out; otherwise a proper prefix of the carrier went out; succeeds when the network lets it |
| `SecureChannel.AuthenticatedChannel.Receive` | linux/src/control_protocol.cpp:961-1050 | Accepts exactly when a frame can be read and a sealing in the log opens it at the expected sequence number, returns what was sealed, and advances the counter only then |
| `SecureChannel.AuthenticatedChannel.constructor` | linux/src/control_protocol.cpp:844-882 | Both counters start at zero; the key of each direction is derived from the session key with that direction's own info |
| `SecureChannel.FreshNoncesExactly` | linux/src/control_protocol.cpp:948-958 | The counter moves on success only, so a series of sends uses fresh nonces if and only if no send is tried after a failed one |
| `SecureChannel.SuccessesBetween` | linux/src/control_protocol.cpp:948-958 | The counter stands still exactly over failed sends |
| `SecureChannel.NonceInjective` | linux/src/control_protocol.cpp:223-241 | Role and sequence number determine the nonce, and the nonce determines both |
| `SecureChannel.KeysSeparate` | android/app/src/main/java/com/darusc/vcamdroid/networking/ControlProtocol.kt:228-243 | Keys of different directions, secrets or nonce pairs are different |
| `SecureChannel.DirectionsOnTheWire` | linux/src/control_protocol.cpp:28-41 | The texts from which each key is derived, and the prefix of the nonces of each direction |
| `SecureChannel.CarrierOpens` | android/app/src/main/java/com/darusc/vcamdroid/networking/ControlProtocol.kt:607-694 | An undisturbed carrier is accepted by the peer that waits for its number |
| `SecureChannel.OpenedIsSealed` | linux/src/control_protocol.cpp:961-1050 | A carrier that opens with a peer's sealing is the very carrier of that sealing, with its type, payload and position, whatever octets were delivered |
| `SecureChannel.SequenceBytes` | linux/src/control_protocol.cpp:173-188 | The shifting loop writes the big-endian number, of which SequenceFits and BigEndianInverse give the inverse |
| `SecureChannel.SequenceValue` | linux/src/control_protocol.cpp:988-995 | Reads a big-endian number back |
| `SecureChannel.SequenceFits` | android/app/src/main/java/com/darusc/vcamdroid/networking/ControlProtocol.kt:318-326 | Every permitted sequence number survives its eight octets |
| `Hkdf.HkdfExpand` | android/app/src/main/java/com/darusc/vcamdroid/networking/ControlProtocol.kt:143-187 | The block loop yields HKDF-Expand of section 2.3 of RFC 5869 for every permitted length |
| `Hkdf.ShorterIsPrefix` | android/app/src/main/java/com/darusc/vcamdroid/networking/ControlProtocol.kt:143-187 | A shorter output is a prefix of a longer one |
| `Hkdf.OneBlock` | android/app/src/main/java/com/darusc/vcamdroid/networking/ControlProtocol.kt:228-243 | A directional key is the MAC of its info followed by the octet 1 |
| `Wire.Transfer` | linux/src/control_protocol.cpp:97-151 | Moves octets in order and none twice over any schedule of short transfers, interruptions, time-outs and failures; succeeds if and only if all were moved |
| `Wire.SendFrame` | linux/src/control_protocol.cpp:666-698 | Puts exactly one frame on the wire, or a proper prefix of it, or nothing if it is too long; succeeds when the network lets it |
| `Wire.ReceiveFrame` | linux/src/control_protocol.cpp:700-753 | Success means that the stream began with exactly that frame and nothing more was consumed; a stream that begins with a frame is read when the network delivers it |
| `Wire.HeaderInjective` | linux/src/control_protocol.cpp:190-221 | A header determines the type and the size of its frame |
| `Wire.FrameOnTheWire` | linux/src/control_protocol.cpp:190-221 | The magic OCAM, version 2, the type, the size in four octets, then at most 65536 octets of payload |
| `Wire.FrameBytesPrefixFree` | android/app/src/main/java/com/darusc/vcamdroid/networking/ControlProtocol.kt:864-969 | A stream begins with at most one frame, however it goes on |
| `Handshake.HandleClient` | linux/src/main.cpp:34-137 | Returns a session only after a verified client proof, before the deadline and with its own proof fully written; otherwise nothing but a prefix of the expected frames was written; an answered greeting in time does yield the session |
| `Handshake.Authenticate` | android/app/src/main/java/com/darusc/vcamdroid/networking/ControlProtocol.kt:702-830 | Returns the session key only for a server proof over this very pair of nonces; consumes exactly the two server frames and writes exactly the client frame; a proper server is always recognised |
| `Handshake.PairingLoop` | linux/src/main.cpp:422-581 | The loop makes exactly the calls of the turns that serve a phone (`Handshake.ServedExactly`) |
| `Handshake.ServedExactly` | linux/src/main.cpp:422-581 | The calls of handleClient are those of the turns in which a phone is accepted before the deadline in force, which is ten minutes after the last time a secret expired or was used; each call has the secret of its turn |
| `Handshake.ServedWithinTenMinutes` | linux/src/main.cpp:466-481 | A phone that is accepted less than ten minutes after the last renewal is served, with that deadline |
| `Handshake.EachSecretYieldsOneSession` | linux/src/main.cpp:422-581 | When the server runs are those that the loop starts, each secret that it draws yields at most one channel on a phone |
| `Handshake.EverySecretOnceAndInTime` | linux/src/main.cpp:422-581 | Over every run of the loop each secret reaches at most one call, and each call's deadline is at most ten minutes after its secret was drawn |
| `ConnectionLifecycle.CurrentIsNewest` | android/app/src/main/java/com/darusc/vcamdroid/networking/ConnectionManager.kt:65-91 | In every interleaving the current connection belongs to the current generation |
| `ConnectionLifecycle.NoSocketLeaks` | android/app/src/main/java/com/darusc/vcamdroid/networking/ConnectionManager.kt:65-145 | Every open connection is the current one or in the hands of a pending step that will offer or close it |
| `ConnectionLifecycle.QuiescentMeansExactlyCurrent` | android/app/src/main/java/com/darusc/vcamdroid/networking/ConnectionManager.kt:65-145 | When nothing is left to do, the open connections are exactly the current one, and it is being received from |
| `ConnectionLifecycle.SupersededForever` | android/app/src/main/java/com/darusc/vcamdroid/networking/ConnectionManager.kt:74-84 | A connection of an older generation never becomes current again |
| `ConnectionLifecycle.OnlyItsOwnDisconnectClears` | android/app/src/main/java/com/darusc/vcamdroid/networking/ConnectionManager.kt:128-137 | A disconnect raised for one connection never clears another one |
| `ConnectionLifecycle.LostConnectionIsGivenUp` | android/app/src/main/java/com/darusc/vcamdroid/networking/ConnectionManager.kt:93-137 | A connection on which a send failed, or whose receive loop ended by itself, is given up once its notices have run, and is never current again |
| `ConnectionLifecycle.AttemptSucceeds` | android/app/src/main/java/com/darusc/vcamdroid/networking/ConnectionManager.kt:65-91 | From every state, an attempt that nothing interferes with ends with its own connection as the current one, running and received from |
| `ConnectionLifecycle.OfferDecides` | android/app/src/main/java/com/darusc/vcamdroid/networking/ConnectionManager.kt:75-88 | A connection that is offered becomes current if and only if its attempt is the newest, and is to be closed otherwise |
| `ConnectionLifecycle.SettlesDown` | android/app/src/main/java/com/darusc/vcamdroid/networking/connection/TCPConnection.kt:94-129 | Left alone the threads come to an end: each step that they take by themselves leaves less to do |
| `ConnectionLifecycle.NeverStuck` | android/app/src/main/java/com/darusc/vcamdroid/networking/connection/TCPConnection.kt:94-129 | and unless nothing is left but receive loops waiting for data, some step other than the end of such a loop can be taken |
| `ConnectionLifecycle.RunFromKeepsInv` | android/app/src/main/java/com/darusc/vcamdroid/networking/ConnectionManager.kt:65-145 | Every interleaving keeps the invariant that relates sockets, flags, receivers and generations |
| `ConnectionLifecycle.NextKeepsInv` | android/app/src/main/java/com/darusc/vcamdroid/networking/connection/TCPConnection.kt:94-129 | Every step of every thread keeps that invariant |
| `ConnectionLifecycle.ConnectionManager.Supersede` | android/app/src/main/java/com/darusc/vcamdroid/networking/ConnectionManager.kt:66-71 | Starts a new generation and closes the current connection |
| `ConnectionLifecycle.ConnectionManager.Offer` | android/app/src/main/java/com/darusc/vcamdroid/networking/ConnectionManager.kt:75-80 | Installs the new connection if and only if its generation is still current |
| `ConnectionLifecycle.ConnectionManager.Forget` | android/app/src/main/java/com/darusc/vcamdroid/networking/ConnectionManager.kt:129-133 | Clears the current connection if and only if it is the one that raised the disconnect |
| `ConnectionLifecycle.ConnectionManager.Release` | android/app/src/main/java/com/darusc/vcamdroid/networking/ConnectionManager.kt:139-145 | Starts a new generation without a connection and hands the old one over |
| `ConnectionLifecycle.ConnectionManager.Passes` | android/app/src/main/java/com/darusc/vcamdroid/networking/ConnectionManager.kt:118-126 | Passes on only what the current connection received |
| `ConnectionLifecycle.TCPConnection.Close` | android/app/src/main/java/com/darusc/vcamdroid/networking/connection/TCPConnection.kt:123-129 | Only the caller that wins the flag closes the socket |
| `Framing.ChunkingIsIrrelevant` | android/app/src/main/java/com/darusc/vcamdroid/StreamActivity.kt:81-98 | For a parser whose verdict is stable under extension, every cut of a stream gives the result of one greedy parse of all of it |
| `Framing.SentIsReceived` | android/app/src/main/java/com/darusc/vcamdroid/StreamActivity.kt:81-98 | Concatenated messages are delivered one by one, in order, whatever follows |
| `Framing.ReceivedWasSent` | windows/src/net/connection.cpp:34-57 | What was delivered and what is pending make up the stream: nothing is lost or invented |
| `Framing.PendingIsIncomplete` | windows/src/net/connection.cpp:47-50 | What stays pending is an incomplete message |
| `LegacyCommands.CommandsArrive` | windows/src/rtsp/manager.cpp:44-183 | Every list of in-range commands, concatenated and cut into reads in any way, is applied on the phone as the same commands with the same arguments in order |
| `LegacyCommands.AppliedIsTheStream` | android/app/src/main/java/com/darusc/vcamdroid/StreamActivity.kt:81-182 | Whatever octets arrive and in what pieces, every command that is applied is in range, and a stream that is not refused consists of exactly the encodings of the applied commands and the beginning of one more message |
| `LegacyCommands.DecodedWasEncoded` | android/app/src/main/java/com/darusc/vcamdroid/StreamActivity.kt:148-182 | A message that the phone takes is the encoding of a command in range |
| `LegacyCommands.MeansTheSameExactly` | android/app/src/main/java/com/darusc/vcamdroid/StreamActivity.kt:148-182 | A command is decoded as what was sent if and only if its arguments are in the phone's range |
| `LegacyCommands.RotationsCarriedOutExactly` | android/app/src/main/java/com/darusc/vcamdroid/rtsp/Streamer.kt:141-146 | A requested rotation is carried out as asked exactly for 0, 90 and 180 degrees |
| `LegacyCommands.ZoomInRangeExactly` | android/app/src/main/java/com/darusc/vcamdroid/StreamActivity.kt:178-178 | The 32 bits of a zoom factor are taken if and only if they are those of a finite single-precision number from 1.0 to 10.0 |
| `LegacyCommands.CommandCutterStable` | android/app/src/main/java/com/darusc/vcamdroid/StreamActivity.kt:100-141 | More octets never change the end of a message nor its rejection |
| `LegacyCommands.MessageEndExtends` | android/app/src/main/java/com/darusc/vcamdroid/StreamActivity.kt:100-141 | The end of a message is stable under extension, and an incomplete message is shorter than 17321 octets |
| `LegacyCommands.LegacyMessageLength` | android/app/src/main/java/com/darusc/vcamdroid/StreamActivity.kt:100-141 | The imperative length computation is the specified one, with its null and its exceptions |
| `LegacyCommands.ActivationLength` | android/app/src/main/java/com/darusc/vcamdroid/StreamActivity.kt:118-136 | The loop over the filters finds the specified end of an activation message |
| `LegacyCommands.HandlePacket` | android/app/src/main/java/com/darusc/vcamdroid/StreamActivity.kt:148-182 | Decodes and range-checks exactly as specified |
| `LegacyCommands.HandleFixed` | android/app/src/main/java/com/darusc/vcamdroid/StreamActivity.kt:152-180 | Each branch of a command of fixed size decodes, and refuses, as the function of tag and payload says |
| `LegacyCommands.StreamActivity.OnLegacyBytesReceived` | android/app/src/main/java/com/darusc/vcamdroid/StreamActivity.kt:81-98 | One read has the effect of a greedy parse of what was pending followed by the new octets; the limit of 65536 pending octets is never reached |
| `LegacyCommands.ActivationEndFound` | android/app/src/main/java/com/darusc/vcamdroid/StreamActivity.kt:118-136 | The end of an activation packet is found exactly, whatever follows it |
| `LegacyCommands.CommandEndFound` | windows/src/rtsp/manager.cpp:44-183 | The end of every in-range command is found exactly |
| `Activation.ActivationRoundTrip` | android/app/src/main/java/com/darusc/vcamdroid/rtsp/StreamOptions.kt:40-123 | Every field of acceptable options comes back from their packet |
| `Activation.ParsedWasWritten` | android/app/src/main/java/com/darusc/vcamdroid/rtsp/StreamOptions.kt:40-123 | What the phone accepts is within its ranges and is written as exactly the octets received |
| `Activation.Deserialize` | android/app/src/main/java/com/darusc/vcamdroid/rtsp/StreamOptions.kt:40-123 | The cursor-driven parser is the specified one on all inputs |
| `Activation.Required` | android/app/src/main/java/com/darusc/vcamdroid/rtsp/StreamOptions.kt:69-86 | The checks of the fixed fields hold exactly for the ranges that an accepted activation has |
| `Activation.WindowsActivationArrives` | windows/src/net/serializer.cpp:191-229 | Every valid device state whose filters the phone knows is serialised and fits, and what the phone parses has each setting under its own name: the back camera if and only if it is active, 1024 bit/s for each kbit/s, and frame rate, size, flags, focus, sliders and effect as set |
| `Activation.SerializeStreamOptions` | windows/src/net/serializer.cpp:191-229 | Writes the activation format behind one tag octet exactly for the valid states that fit |
| `Activation.BuildActivationPacket` | linux/src/stream_options.cpp:47-81 | Writes the activation format without filters in 40 octets |
| `Activation.LinuxDefaultArrives` | linux/src/stream_options.cpp:47-81 | The packet of the default settings is accepted by every phone: back camera, 640 x 480 at 30 fps, 4000 kbit/s between 500 and 25000, all switches off |
| `Activation.FixedInverse` | linux/src/stream_options.cpp:8-45 | The fixed fields, most significant octet first, are read back |
| `Activation.FixedWasWritten` | android/app/src/main/java/com/darusc/vcamdroid/rtsp/StreamOptions.kt:67-80 | Fixed fields with valid flags are re-encoded as the same octets |
| `Activation.CorrectionsInverse` | android/app/src/main/java/com/darusc/vcamdroid/rtsp/StreamOptions.kt:95-107 | Every list of valid correction filters is read back |
| `Activation.CorrectionsWereWritten` | android/app/src/main/java/com/darusc/vcamdroid/rtsp/StreamOptions.kt:95-107 | A list of filters that is read is valid and re-encoded as the same octets |
| `Utf8.ValidUtf8` | linux/src/device_descriptor.cpp:18-46 | True exactly for the octets that encode some sequence of Unicode scalar values (sections 3 and 4 of RFC 3629) |
| `Utf8.ValidCharacter` | windows/src/net/serializer.cpp:15-41 | One turn of the loop accepts exactly the well-formed characters and moves behind them |
| `Utf8.FirstCharacter` | windows/src/net/serializer.cpp:15-41 | A text is well formed if and only if it starts with a well-formed character and the remainder is well formed |
| `Utf8.EncodeInjective` | linux/src/device_descriptor.cpp:18-46 | Different texts have different encodings |
| `Cursor.Reader.Text` | windows/src/net/serializer.cpp:67-79 | Reads a length-prefixed string, or reports it short or bad, exactly as specified |
| `Cursor.Reader.U32` | windows/src/net/serializer.cpp:60-66 | The shifting loop reads four octets, most significant first |
| `Cursor.TakeWrittenText` | linux/src/device_descriptor.cpp:67-96 | A written string is read back, whatever follows it |
| `Cursor.FixedFields` | windows/src/net/serializer.cpp:47-66 | Fields of one and four octets are read back whatever follows; a field is too short exactly if it lacks octets |
| `Cursor.ControlsExactly` | windows/src/net/serializer.cpp:75-77 | The control characters that clean strings must not hold are the first 32 and DEL, wherever they stand |
| `Cursor.TakenTextWasWritten` | linux/src/device_descriptor.cpp:67-96 | A string that is read is allowed and was written as exactly those octets |
| `Cursor.TakeTextExtends` | windows/src/net/serializer.cpp:82-85 | Further octets change neither a string that was read nor one that was refused |
| `Cursor.WithoutControls` | linux/src/device_descriptor.cpp:91-93 | Detects control characters |
| `Descriptors.DescriptorRoundTrip` | linux/src/device_descriptor.cpp:171-206 | Every acceptable descriptor comes back from its octets, for both receivers |
| `Descriptors.ParsedWasWritten` | linux/src/device_descriptor.cpp:171-206 | What a receiver accepts is acceptable and is re-encoded as exactly the octets parsed |
| `Descriptors.DescriptorArrivesExactly` | android/app/src/main/java/com/darusc/vcamdroid/networking/DeviceDescriptor.kt:22-79 | What the phone serialises is understood if and only if its strings have no control characters and the receiver takes the URL |
| `Descriptors.ParseDeviceDescriptor` | linux/src/device_descriptor.cpp:171-206 | The cursor-driven parser is the specified one on all inputs |
| `Descriptors.ReadResolutions` | linux/src/device_descriptor.cpp:98-127 | The loop reads a list of resolutions as specified |
| `Descriptors.ReadFilters` | windows/src/net/serializer.cpp:176-186 | The loop reads a list of filters as specified |
| `Descriptors.Serialize` | android/app/src/main/java/com/darusc/vcamdroid/networking/DeviceDescriptor.kt:22-79 | Succeeds exactly on what its checks allow and fills a buffer of the computed size with the descriptor format |
| `Descriptors.Required` | android/app/src/main/java/com/darusc/vcamdroid/networking/DeviceDescriptor.kt:23-29 | The checks of serialize, with loops over sizes and filters, hold exactly for the descriptors that PhoneAccepts describes |
| `Descriptors.SizeIsExact` | android/app/src/main/java/com/darusc/vcamdroid/networking/DeviceDescriptor.kt:30-47 | The accumulated size is that of the format and never exceeds the payload limit |
| `ErrorReports.ReportsArrive` | windows/src/net/connection.cpp:16-60 | Acceptable reports written one after another and cut into reads in any way are delivered, all and in order |
| `ErrorReports.ReportsArriveExactly` | android/app/src/main/java/com/darusc/vcamdroid/networking/ErrorReport.kt:17-42 | What the phone writes, cut into reads in any way, is delivered as it was if and only if every report is within the limits of the receiver; strings whose 16-bit length wraps do not come through |
| `ErrorReports.Connection.OnRead` | windows/src/net/connection.cpp:16-60 | One read has the effect of a greedy parse of what was pending followed by the new octets; the branch for more than 4096 octets is never taken |
| `ErrorReports.IncompleteIsShort` | windows/src/net/connection.cpp:25-30 | An incomplete report is shorter than 3077 octets |
| `ErrorReports.CutReportStable` | windows/src/net/serializer.cpp:231-244 | More octets never change a report that was read or refused |
| `ErrorReports.WrittenIsTaken` | android/app/src/main/java/com/darusc/vcamdroid/networking/ErrorReport.kt:17-42 | Every acceptable report is read back, whatever follows it |
| `ErrorReports.TakenWasWritten` | windows/src/net/serializer.cpp:231-244 | What is read is acceptable and was written as exactly the octets consumed |
| `ErrorReports.Deserialize` | windows/src/net/serializer.cpp:231-244 | The cursor-driven parser is the specified one, including the number of octets consumed |
| `ErrorReports.Serialize` | android/app/src/main/java/com/darusc/vcamdroid/networking/ErrorReport.kt:17-42 | Fills a buffer of the computed size with the report format, for strings of any size, whose length fields keep 16 bits |
| `Redaction.RedactionHidesUserinfo` | linux/src/diagnostic_redaction.cpp:31-80 | Lines that differ only in the delimiter-free userinfo of the URLs found by the scan, any number of them, are redacted to the same text |
| `Redaction.EverythingElseIsKept` | linux/src/diagnostic_redaction.cpp:31-80 | The output is the line with nothing but userinfo replaced: putting the originals back restores the line |
| `Userinfo.NothingShownExactly` | linux/src/diagnostic_redaction.cpp:31-80 | No URL in the output shows userinfo other than the placeholder if and only if every URL of the line that has userinfo (by section 3.2 of RFC 3986, not by the scanner) is not nested in another one, and its userinfo holds none of the scanner's delimiters or is the placeholder already |
| `Userinfo.FoundUnlessNested` | linux/src/diagnostic_redaction.cpp:35-78 | Of the schemes of a line the scan finds exactly those that are not nested: in a chain of nested URLs every second one is passed over |
| `Userinfo.ExtraDelimiters` | linux/src/diagnostic_redaction.cpp:61-62 | Apostrophe, closing parenthesis, bracket and brace are the delimiters of the scanner that do not end an authority |
| `Userinfo.NestedUserinfoSurvives` | linux/src/diagnostic_redaction.cpp:61-78 | The inner userinfo of rtsp://u@rtsp://v@h is shown |
| `Userinfo.PasswordWithParenthesisIsShown` | linux/src/diagnostic_redaction.cpp:61-78 | rtsp://u:p)w@h, with userinfo u:p)w, is shown as it is |
| `Userinfo.LogShowsNothing` | linux/src/diagnostic_redaction.cpp:102-138 | The log of a text, cut into chunks in any way, shows no userinfo if and only if no complete line does where it is shown; it shows none if in every line short enough to be shown each URL meets that condition, and for lines of printable characters only then |
| `Userinfo.SanitizedShowsNothing` | linux/src/diagnostic_redaction.cpp:82-94 | Sanitising a text that shows no userinfo shows none |
| `Redaction.ScannedIsScan` | linux/src/diagnostic_redaction.cpp:31-80 | There is only one way in which the scan can split a line |
| `Redaction.ScanSplits` | linux/src/diagnostic_redaction.cpp:31-80 | The scan splits every line, into parts that the scan can find, without changing it |
| `Redaction.RedactCompleteLine` | linux/src/diagnostic_redaction.cpp:31-80 | The cursor loop computes the specified redaction and terminates |
| `Redaction.FindScheme` | linux/src/diagnostic_redaction.cpp:37-46 | Finds the first scheme of either kind, in any case of letters (`Redaction.CaseIsIrrelevant`) |
| `Redaction.StartsWithRtspScheme` | linux/src/diagnostic_redaction.cpp:8-29 | Comparing lower-case forms octet by octet finds exactly the places where one of the two words stands in capital or small letters |
| `Redaction.CaseIsIrrelevant` | linux/src/diagnostic_redaction.cpp:19-79 | Two lines that differ in the case of letters only have the same URLs at the same places, and the same userinfo is hidden in both |
| `Redaction.RedactAuthority` | linux/src/diagnostic_redaction.cpp:65-76 | Replaces what precedes the last '@' of the authority |
| `Redaction.Sanitize` | linux/src/diagnostic_redaction.cpp:82-94 | Maps every octet that is neither printable nor white space to a question mark |
| `Redaction.LogIsHarmless` | linux/src/diagnostic_redaction.cpp:82-138 | Whatever octets arrive and in what chunks, nothing but printable ASCII and plain white space reaches the log |
| `Redaction.RedactorShowsLines` | linux/src/diagnostic_redaction.cpp:102-138 | For every cut of a text into chunks each complete line is shown once and in order, sanitised and redacted or replaced by the notice, and nothing of the unfinished line |
| `Redaction.ChunksAreIrrelevant` | linux/src/diagnostic_redaction.cpp:102-130 | Any chunks of the same text show the same and leave the same line unfinished |
| `Redaction.LogContinues` | linux/src/diagnostic_redaction.cpp:102-130 | The log depends on earlier text only through the unfinished line |
| `Redaction.DiagnosticLineRedactor.Consume` | linux/src/diagnostic_redaction.cpp:102-130 | Shows the log of the lines that the chunk completes; never more than 8192 characters are pending |
| `Redaction.DiagnosticLineRedactor.Finish` | linux/src/diagnostic_redaction.cpp:132-138 | Drops the unfinished line |
| `FrameScaling.FrameScaler.Process` | windows/src/video/framescaler.cpp:16-51 | After any sequence of frames, the dimensions are those computed for this frame alone, the rectangle lies in the buffer and shows this frame, and where there is padding every byte outside it is zero; null is returned exactly when the frame, the context or the scaling fails |
| `FrameScaling.FrameScaler.PrepareContext` | windows/src/video/framescaler.cpp:53-109 | Prepares context, dimensions and buffer for this kind of frame, or reports that no context could be made |
| `FrameScaling.FrameScaler.Scale` | windows/src/video/framescaler.cpp:29-42 | Writing the rows of the rectangle stays inside the buffer and touches nothing outside the rectangle |
| `FrameScaling.FitInIntegers` | windows/src/video/directshowscaler.cpp:21-36 | The frame fills the box in one dimension and the other is the exact proportion rounded down; it never exceeds the box. In real arithmetic: with doubles the other side can be one pixel less |
| `FrameScaling.Centred` | windows/src/video/directshowscaler.cpp:38-43 | Opposite margins differ by one pixel at most, and the frame touches two edges |
| `FrameScaling.NotStretched` | windows/src/video/guipreviewscaler.cpp:1-40 | No scaler stretches a frame: the sides keep its proportion short of one pixel, or its very size for the one that does not scale, and only DirectShow adds margins |
| `FrameScaling.AlignedMeans` | windows/src/video/framescaler.cpp:84-90 | Rows are counted up to the next multiple of 32 octets, for which PrepareContext provides room and 64 octets more |
| `FrameScaling.AlwaysInside` | windows/src/video/guipreviewscaler.cpp:12-42 | For all three scalers the rectangle lies inside its container, and without padding it is the container |
| `FrameScaling.WithoutPaddingAllIsDrawn` | windows/src/video/framescaler.cpp:95-100 | Without padding every byte of the container is drawn, so clearing is not needed |
| `YuvPacking.WritePackedYuv420` | linux/src/media_pipeline.cpp:121-160 | Every byte of the packed frame is the pixel that belongs there, or zero padding |
| `YuvPacking.UnpackingRecovers` | linux/src/media_pipeline.cpp:121-160 | Every pixel of every plane is found again at its place |
| `YuvPacking.PlanesInOrder` | linux/src/media_pipeline.cpp:121-165 | All rows of Y, then all of U, then all of V, each row followed by zeros up to its stride |
| `YuvPacking.PlaceHasOneIndex` | linux/src/media_pipeline.cpp:127-130 | Different places of the three planes have different indices within the packed frame |
| `YuvPacking.IndexHasOnePlace` | linux/src/media_pipeline.cpp:127-130 | The planes cover the packed frame |
| `YuvPacking.Strides` | linux/src/media_pipeline.cpp:89-110 | Yields a consistent layout exactly for even strides of sufficient width and a sufficient image size |
| `MediaPipelines.OneWorkerAtMost` | linux/src/media_pipeline.cpp:204-221 | In every interleaving there is at most one worker, and none without a thread to join |
| `MediaPipelines.SilentEndIsFailure` | linux/src/media_pipeline.cpp:515-518 | A worker that ended without a stop request has left Failed and a message |
| `MediaPipelines.StopLeavesExactly` | linux/src/media_pipeline.cpp:222-232 | What stop leaves behind, in every interleaving: Failed if the pipeline had failed before the request, a worker was in setFailure by then, or opening fails where the request is not looked at, with the message of that failure; otherwise Stopped with the message left alone |
| `MediaPipelines.HealthyStop` | linux/src/media_pipeline.cpp:515-518 | A pipeline that is open and has not failed never fails once a stop is requested, and ends as Stopped |
| `MediaPipelines.UnrequestedEnd` | linux/src/media_pipeline.cpp:515-518 | Processing that ends without a request leaves Failed with its own message, or with one of the two default messages, in every interleaving |
| `MediaPipelines.UnrequestedOpeningFailure` | linux/src/media_pipeline.cpp:262-395 | Opening that fails without a request leaves Failed with the message of that failure |
| `MediaPipelines.StopAdvances` | linux/src/media_pipeline.cpp:222-232 | A stop is never stuck, and every step that is taken brings it nearer to its end |
| `MediaPipelines.StoppedOrFailedAfterStop` | linux/src/media_pipeline.cpp:223-232 | Between calls and without a thread object there is no worker and the state is Stopped or Failed |
| `MediaPipelines.StopReturns` | linux/src/media_pipeline.cpp:223-232 | When stop returns the worker is gone, and the state is Failed if and only if it had failed |
| `MediaPipelines.OnlyStartReplacesFailed` | linux/src/media_pipeline.cpp:204-221 | Only start replaces Failed |
| `MediaPipelines.FailureStays` | linux/src/media_pipeline.cpp:223-252 | Short of another start, a failure and its message stay whatever happens |
| `MediaPipelines.RunFromKeepsInv` | linux/src/media_pipeline.cpp:204-519 | Every interleaving of the owner and its workers keeps the invariant |
| `MediaPipelines.NextKeepsInv` | linux/src/media_pipeline.cpp:260-519 | Every step of the owner and of a worker keeps the invariant |
| `MediaPipelines.StartIsTheMethod` | linux/src/media_pipeline.cpp:204-221 | The owner's steps in a call of start compose to the method Start, and a refused call changes nothing |
| `MediaPipelines.StartIsUndisturbed` | linux/src/media_pipeline.cpp:204-221 | While start runs no other step is possible |
| `MediaPipelines.RequestStopIsTheMethod` | linux/src/media_pipeline.cpp:223-225 | The first step of stop is the method RequestStop |
| `MediaPipelines.JoinIsUndisturbed` | linux/src/media_pipeline.cpp:223-232 | Once the worker has ended, no other step is possible until stop returns |
| `MediaPipelines.JoinIsTheMethod` | linux/src/media_pipeline.cpp:223-232 | Once the worker has ended, the remaining steps of stop compose to the method Join |
| `MediaPipelines.SetFailureIsTheMethod` | linux/src/media_pipeline.cpp:245-252 | The two steps of a failing worker compose to the method SetFailure, also with a request to stop in between |
| `MediaPipelines.MediaPipeline.Start` | linux/src/media_pipeline.cpp:204-221 | Starts exactly when there is no thread and both arguments are given, and makes of the shared state what the steps of start make of it |
| `MediaPipelines.MediaPipeline.Join` | linux/src/media_pipeline.cpp:223-232 | Makes of the shared state what the steps at the end of stop make of it: no thread, and a failure kept |
| `MediaPipelines.MediaPipeline.SetFailure` | linux/src/media_pipeline.cpp:245-252 | Makes of the shared state what the two steps of a failing worker make of it |
| `SettingsFile.SavedIsLoadedExactly` | windows/src/settings.cpp:67-222 | Saving and loading give back the global map and every device state except the zoom, in whichever order maps are traversed, if and only if keys and filter names have no '=' and no name has a newline |
| `SettingsFile.SectionsSurviveExactly` | windows/src/settings.cpp:224-254 | While device states are not saved, the preserved device sections are written back and read back unchanged if and only if no global setting looks like a device header |
| `SettingsFile.LoadedSectionsSurviveExactly` | windows/src/settings.cpp:67-254 | The same for the text of any file that is loaded, saved and loaded again: its preserved lines are those of the new file if and only if no global setting looks like a device header |
| `SettingsFile.LoadedGlobalsSurviveExactly` | windows/src/settings.cpp:67-185 | While device states are not saved, the global settings of a loaded file survive saving and loading if and only if they agree with whatever the preserved lines assign by themselves |
| `SettingsFile.GlobalsSurviveExactly` | windows/src/settings.cpp:132-185 | The same for any global settings that the format can express and any preserved lines |
| `SettingsFile.DeviceSectionsAssignNothing` | windows/src/settings.cpp:78-118 | Preserved lines assign no global settings if each of them that begins with a bracket is a device header |
| `SettingsFile.OldHeaderOverrides` | windows/src/settings.cpp:224-254 | Behind a preserved header such as [Old DEVICE:x] a line fps=30 overrides a global setting |
| `SettingsFile.Settings.Load` | windows/src/settings.cpp:67-130 | Reads the file as the specified fold over its lines; preserves device lines only while device states are not saved |
| `SettingsFile.Settings.Save` | windows/src/settings.cpp:132-185 | Writes the specified file for some order of each map, or the globals and the preserved lines; changes nothing if the file cannot be opened |
| `SettingsFile.Settings.LoadLine` | windows/src/settings.cpp:81-118 | One line has the specified effect: header, entry or nothing |
| `SettingsFile.Settings.CachePreservedLines` | windows/src/settings.cpp:224-254 | Collects the lines of device sections |
| `SettingsFile.SectionParsed` | windows/src/settings.cpp:149-176 | A device section read after others adds that device with everything but its zoom |
| `SettingsFile.FileParsed` | windows/src/settings.cpp:132-185 | The lines of a whole file are read back as the maps that were printed |
| `SettingsFile.SectionInText` | windows/src/settings.cpp:148-173 | A device section as text, line by line |
| `SettingsFile.EntriesInText` | windows/src/settings.cpp:151-163 | The eleven fixed entries of a section: their keys, their order and the text of each value |
| `SettingsFile.SectionOpens` | windows/src/settings.cpp:83-93 | A device header opens that section; what an earlier section of the device has set is kept, and a new device starts with the default settings |
| `SettingsFile.OtherHeaderCloses` | windows/src/settings.cpp:94-98 | Any other line in brackets makes what follows global |
| `SettingsFile.HeaderExactly` | windows/src/settings.cpp:84-86 | A line is a header if and only if it is in brackets |
| `SettingsFile.UnknownKeyIgnored` | windows/src/settings.cpp:187-222 | A key that no setting has says nothing about a device |
| `SettingsFile.ResolutionRead` | windows/src/settings.cpp:196-205 | A resolution is two numbers around the first x; without one it is left alone |
| `SettingsFile.MentionsWherever` | windows/src/settings.cpp:235-243 | The second pass looks for the word DEVICE: anywhere in a line |
| `SettingsFile.ParsedIsClean` | windows/src/settings.cpp:67-118 | Nothing is ever read that the format cannot express |
| `SettingsFile.AtoiOfDecimal` | windows/src/settings.cpp:187-222 | Every integer survives printing and std::atoi |
| `SettingsFile.AtoiReads` | windows/src/settings.cpp:118-118 | White space before a number, a plus sign, and whatever follows its digits make no difference to its value |
| `SettingsFile.DecimalShape` | windows/src/settings.cpp:137-140 | Integers are printed with a sign exactly if negative, and without leading zeros |

## Left out

- Sockets, poll, real clocks and real time-outs: replaced by schedules, instants and failure flags.
- OpenSSL, javax.crypto and random generation: symbolic; failures inside these libraries are not modelled.
- Channel work after the handshake in `handleClient` (descriptor, activation, media start, error reports): a sequence of sends and receives on the channel proved here.
- The 60 second limit on the first frame and the single-activation rule of `TCPConnection.receiveLoop`: one local flag.
- `thread.join` in `TCPConnection.close`, and the callbacks of `ConnectionManager`: a success callback may fire for a superseded connection.
- ConnectionLifecycle.TCPConnection.Close: does not model the bounded wait for the receiver thread, which changes no state.
- The listeners of the Windows `Connection` and its `Close`: one exchanged flag.
- `ValidLoopbackMediaUrl` and `isAllowedRtspEndpoint`: single-pass checks; the Windows descriptor parser takes the check as a parameter.
- Descriptors.ParseDeviceDescriptor: keeps the list of filters as received, while the Windows receiver groups it by category afterwards.
- Descriptors.Serialize: takes the test for a blank name as a parameter, because the table of Unicode white space is not modelled.
- Activation.Deserialize: takes the table of filters as a parameter, and does not build filter objects.
- Hex encoding, the QR text, bit-rate clamping and `deriveMediaPassword`: only easy members.
- Writing the packed frame to the device, with its retries: no state beyond a stop flag.
- FFmpeg, libswscale, V4L2 ioctls, camera and OpenGL filters: the scaling library is represented by its contract that it writes rows of its target rectangle.
- FrameScaling.FrameScaler.Process: does not model 32-bit overflow of buffer sizes, nor writes of the library past the rectangle, nor the destructor.
- FrameScaling.FrameScaler.PrepareContext: does not model 32-bit overflow of buffer sizes.
- FrameScaling.FitInIntegers: uses real numbers where the source uses doubles, so rounding of the ratio is not modelled.
- Userinfo.LogShowsNothing: for lines with unprintable characters the condition on the line is sufficient only, because the question mark that replaces such a character ends an authority and so can hide more.
- SettingsFile.AtoiOfDecimal: does not model overflow of int, which printed integers never cause.
- SettingsFile.Settings.Load: does not model text mode, which translates line ends and ends the input at Ctrl-Z (0x1A), so that a name with that character meets `Clean` but is cut on Windows.
- MediaPipelines.MediaPipeline.Start: assumes that a thread can be created, and that one owner at a time calls start and stop.
- All user interface code, snapshots, logging, ADB and process calls.
