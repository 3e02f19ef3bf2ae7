/**
 The encrypted channel of OCAM v2: AES-256-GCM frames with an explicit sequence number.

 Keys are terms of the derivations that make them (HMAC and HKDF are symbolic and injective), and
 AES-GCM is ideal: opening succeeds only on what some holder of the key has sealed, as recorded in
 a log. Ciphertexts themselves are octets about which nothing but their length is known.
 */
module SecureChannel {
  import opened Octets
  import opened Wire

  const SERVER_NONCE_PREFIX: Bytes := [0x53, 0x52, 0x56, 0x52]
  const CLIENT_NONCE_PREFIX: Bytes := [0x43, 0x4C, 0x4E, 0x54]
  const SESSION_INFO: string := "OpenCam control v2 session"
  const SERVER_TO_CLIENT_INFO: string := "OpenCam control v2 server-to-client"
  const CLIENT_TO_SERVER_INFO: string := "OpenCam control v2 client-to-server"
  const SEQUENCE_SIZE: nat := 8
  const GCM_TAG_SIZE: nat := 16
  const ENCRYPTED_OVERHEAD: nat := SEQUENCE_SIZE + GCM_TAG_SIZE

  /** The controller stops one short of 2^64, the phone one short of 2^63. */
  const CONTROLLER_LIMIT: nat := 0xFFFF_FFFF_FFFF_FFFF
  const PHONE_LIMIT: nat := 0x7FFF_FFFF_FFFF_FFFF

  datatype Key =
    | PairingSecret(id: nat)
    | Extracted(salt: Bytes, material: Key)
    | Expanded(prk: Key, info: string)

  function SessionKey(secret: Key, serverNonce: Bytes, clientNonce: Bytes): Key {
    Expanded(Extracted(serverNonce + clientNonce, secret), SESSION_INFO)
  }

  function SendKey(session: Key, serverSide: bool): Key {
    Expanded(session, if serverSide then SERVER_TO_CLIENT_INFO else CLIENT_TO_SERVER_INFO)
  }

  function Nonce(serverSide: bool, sequence: nat): (n: Bytes)
    ensures |n| == 12
  {
    (if serverSide then SERVER_NONCE_PREFIX else CLIENT_NONCE_PREFIX) + BigEndian(sequence, SEQUENCE_SIZE)
  }

  /** One AES-GCM encryption: what the ideal cipher remembers. */
  datatype SealRecord = SealRecord(key: Key, nonce: Bytes, header: Bytes, plaintext: Bytes, ciphertext: Bytes)

  /** The counters and keys of one end. */
  datatype Channel = Channel(serverSide: bool, sendKey: Key, receiveKey: Key, sendSequence: nat, receiveSequence: nat)

  function NewChannel(session: Key, serverSide: bool): Channel {
    Channel(serverSide, SendKey(session, serverSide), SendKey(session, !serverSide), 0, 0)
  }

  predicate Sendable(c: Channel, limit: nat, f: Frame) {
    c.sendSequence != limit && |f.payload| + ENCRYPTED_OVERHEAD <= MAX_PAYLOAD
  }

  predicate IsSealOf(c: Channel, f: Frame, r: SealRecord)
    requires |f.payload| + ENCRYPTED_OVERHEAD <= MAX_PAYLOAD
  {
    && r.key == c.sendKey
    && r.nonce == Nonce(c.serverSide, c.sendSequence)
    && r.header == Header(f.kind, |f.payload| + ENCRYPTED_OVERHEAD)
    && r.plaintext == f.payload
    && |r.ciphertext| == |f.payload| + GCM_TAG_SIZE
  }

  /** The frame that carries a sealed message. */
  function Carrier(kind: byte, sequence: nat, ciphertext: Bytes): Frame {
    Frame(kind, BigEndian(sequence, SEQUENCE_SIZE) + ciphertext)
  }

  /** The channel c accepts the carrier frame w by means of record r. */
  predicate Opens(c: Channel, limit: nat, w: Frame, r: SealRecord) {
    && c.receiveSequence != limit
    && ENCRYPTED_OVERHEAD <= |w.payload| <= MAX_PAYLOAD
    && FromBigEndian(w.payload[..SEQUENCE_SIZE]) == c.receiveSequence
    && r.key == c.receiveKey
    && r.nonce == Nonce(!c.serverSide, c.receiveSequence)
    && r.header == Header(w.kind, |w.payload|)
    && r.ciphertext == w.payload[SEQUENCE_SIZE..]
  }

  lemma SequenceFits(n: nat)
    requires n <= CONTROLLER_LIMIT
    ensures n < Pow256(SEQUENCE_SIZE)
    ensures FromBigEndian(BigEndian(n, SEQUENCE_SIZE)) == n
  {
    assert Pow256(2) == 0x1_0000;
    assert Pow256(4) == 0x100 * (0x100 * Pow256(2)) == 0x1_0000_0000;
    assert Pow256(6) == 0x100 * (0x100 * Pow256(4)) == 0x1_0000_0000_0000;
    assert Pow256(8) == 0x100 * (0x100 * Pow256(6)) == 0x1_0000_0000_0000_0000;
    BigEndianInverse(n, SEQUENCE_SIZE);
  }

  /** Section 8.2.1 of NIST SP 800-38D: role and sequence number determine the nonce and conversely. */
  lemma NonceInjective(a: bool, m: nat, b: bool, n: nat)
    requires m <= CONTROLLER_LIMIT && n <= CONTROLLER_LIMIT && Nonce(a, m) == Nonce(b, n)
    ensures a == b && m == n
  {
    assert Nonce(a, m)[0] == (if a then 0x53 else 0x43);
    assert Nonce(b, n)[0] == (if b then 0x53 else 0x43);
    assert Nonce(a, m)[4..] == BigEndian(m, SEQUENCE_SIZE);
    assert Nonce(b, n)[4..] == BigEndian(n, SEQUENCE_SIZE);
    SequenceFits(m);
    SequenceFits(n);
  }

  /** The keys of the two directions, and those of two sessions, never coincide. */
  lemma KeysSeparate(s: nat, sn: Bytes, cn: Bytes, a: bool, t: nat, tn: Bytes, dn: Bytes, b: bool)
    requires |sn| == |tn|
    requires SendKey(SessionKey(PairingSecret(s), sn, cn), a) == SendKey(SessionKey(PairingSecret(t), tn, dn), b)
    ensures s == t && sn == tn && cn == dn && a == b
  {
    assert SERVER_TO_CLIENT_INFO[19] == 's' && CLIENT_TO_SERVER_INFO[19] == 'c';
    assert sn + cn == tn + dn;
    assert sn == (sn + cn)[..|sn|] && cn == (sn + cn)[|sn|..];
    assert tn == (tn + dn)[..|sn|] && dn == (tn + dn)[|sn|..];
  }

  /** What both languages must agree on: the purpose of each key and which nonces belong to which direction. */
  lemma DirectionsOnTheWire(secret: Key, serverNonce: Bytes, clientNonce: Bytes, n: nat)
    requires n <= CONTROLLER_LIMIT
    ensures var session := SessionKey(secret, serverNonce, clientNonce);
            var controller, phone := NewChannel(session, true), NewChannel(session, false);
            && session == Expanded(Extracted(serverNonce + clientNonce, secret), "OpenCam control v2 session")
            && controller.sendKey == phone.receiveKey == Expanded(session, "OpenCam control v2 server-to-client")
            && phone.sendKey == controller.receiveKey == Expanded(session, "OpenCam control v2 client-to-server")
    ensures Nonce(true, n)[..4] == Ascii("SRVR") && FromBigEndian(Nonce(true, n)[4..]) == n
    ensures Nonce(false, n)[..4] == Ascii("CLNT") && FromBigEndian(Nonce(false, n)[4..]) == n
  {
    SequenceFits(n);
    assert Nonce(true, n)[4..] == Nonce(false, n)[4..] == BigEndian(n, SEQUENCE_SIZE);
  }

  /** An undisturbed carrier is accepted by the peer that is waiting for that sequence number. */
  lemma CarrierOpens(sender: Channel, receiver: Channel, limit: nat, f: Frame, r: SealRecord)
    requires |f.payload| + ENCRYPTED_OVERHEAD <= MAX_PAYLOAD && IsSealOf(sender, f, r)
    requires sender.sendKey == receiver.receiveKey && sender.serverSide != receiver.serverSide
    requires sender.sendSequence == receiver.receiveSequence < limit <= CONTROLLER_LIMIT
    ensures Opens(receiver, limit, Carrier(f.kind, sender.sendSequence, r.ciphertext), r)
  {
    SequenceFits(sender.sendSequence);
    var w := Carrier(f.kind, sender.sendSequence, r.ciphertext);
    assert w.payload[..SEQUENCE_SIZE] == BigEndian(sender.sendSequence, SEQUENCE_SIZE);
    assert w.payload[SEQUENCE_SIZE..] == r.ciphertext;
  }

  /**
   Whatever octets are delivered, a frame that a channel opens with a record of its peer is the very
   frame that the peer sealed: same type, same payload, same position.
   */
  lemma OpenedIsSealed(sender: Channel, receiver: Channel, limit: nat, f: Frame, w: Frame, r: SealRecord)
    requires |f.payload| + ENCRYPTED_OVERHEAD <= MAX_PAYLOAD && IsSealOf(sender, f, r)
    requires Opens(receiver, limit, w, r)
    requires sender.sendSequence <= CONTROLLER_LIMIT && receiver.receiveSequence <= CONTROLLER_LIMIT
    ensures Frame(w.kind, r.plaintext) == f && w == Carrier(f.kind, sender.sendSequence, r.ciphertext)
    ensures sender.sendSequence == receiver.receiveSequence && sender.serverSide != receiver.serverSide
  {
    FromBigEndianInverse(w.payload[..SEQUENCE_SIZE]);
    assert w.payload == w.payload[..SEQUENCE_SIZE] + w.payload[SEQUENCE_SIZE..];
    HeaderInjective(f.kind, |f.payload| + ENCRYPTED_OVERHEAD, w.kind, |w.payload|);
    NonceInjective(sender.serverSide, sender.sendSequence, !receiver.serverSide, receiver.receiveSequence);
  }

  /** How many of a series of sends went out completely; the counter after them. */
  function Successes(sent: seq<bool>): nat {
    if sent == [] then 0 else Successes(sent[..|sent| - 1]) + if sent[|sent| - 1] then 1 else 0
  }

  lemma {:induction false} SuccessesBound(sent: seq<bool>)
    ensures Successes(sent) <= |sent|
    ensures (forall i | 0 <= i < |sent| :: sent[i]) ==> Successes(sent) == |sent|
  {
    if sent != [] {
      SuccessesBound(sent[..|sent| - 1]);
    }
  }

  /** The counter stands still exactly over failed sends. */
  lemma {:induction false} SuccessesBetween(sent: seq<bool>, i: nat, j: nat)
    requires i <= j <= |sent|
    ensures Successes(sent[..i]) <= Successes(sent[..j])
    ensures Successes(sent[..i]) == Successes(sent[..j]) <==> forall k | i <= k < j :: !sent[k]
    decreases j
  {
    if i < j {
      SuccessesBetween(sent, i, j - 1);
      assert sent[..j][..j - 1] == sent[..j - 1];
    }
  }

  /**
   The counter moves only when a send succeeds. So a series of sealing sends uses a fresh nonce each
   time exactly when no send is tried after a failed one.
   */
  lemma FreshNoncesExactly(serverSide: bool, sent: seq<bool>)
    requires |sent| <= CONTROLLER_LIMIT
    ensures (forall i, j | 0 <= i < j < |sent| ::
              Nonce(serverSide, Successes(sent[..i])) != Nonce(serverSide, Successes(sent[..j])))
       <==> (forall i | 0 <= i < |sent| - 1 :: sent[i])
  {
    forall i | 0 <= i <= |sent| ensures Successes(sent[..i]) <= i {
      SuccessesBound(sent[..i]);
    }
    if forall i | 0 <= i < |sent| - 1 :: sent[i] {
      forall i, j | 0 <= i < j < |sent|
        ensures Nonce(serverSide, Successes(sent[..i])) != Nonce(serverSide, Successes(sent[..j]))
      {
        SuccessesBound(sent[..i]);
        SuccessesBound(sent[..j]);
        if Nonce(serverSide, Successes(sent[..i])) == Nonce(serverSide, Successes(sent[..j])) {
          NonceInjective(serverSide, Successes(sent[..i]), serverSide, Successes(sent[..j]));
        }
      }
    } else {
      var i :| 0 <= i < |sent| - 1 && !sent[i];
      assert sent[..i + 1][..i] == sent[..i];
      assert Nonce(serverSide, Successes(sent[..i])) == Nonce(serverSide, Successes(sent[..i + 1]));
    }
  }

  // ---------------------------------------------------------------- the channel object

  /** AES-GCM as an ideal cipher: an unspecified length-preserving function and the log of its uses. */
  class IdealGcm {
    const cipher: (Key, Bytes, Bytes, Bytes) -> Bytes
    var log: seq<SealRecord>

    constructor (cipher: (Key, Bytes, Bytes, Bytes) -> Bytes)
      requires forall k, n, h, p :: |cipher(k, n, h, p)| == |p| + GCM_TAG_SIZE
      ensures this.cipher == cipher && log == [] && Valid()
    {
      this.cipher, log := cipher, [];
    }

    ghost predicate Valid()
      reads this
    {
      forall k, n, h, p :: |cipher(k, n, h, p)| == |p| + GCM_TAG_SIZE
    }

    method Encrypt(key: Key, nonce: Bytes, header: Bytes, plaintext: Bytes) returns (ciphertext: Bytes)
      requires Valid()
      modifies this`log
      ensures Valid()
      ensures |ciphertext| == |plaintext| + GCM_TAG_SIZE
      ensures log == old(log) + [SealRecord(key, nonce, header, plaintext, ciphertext)]
    {
      ciphertext := cipher(key, nonce, header, plaintext);
      log := log + [SealRecord(key, nonce, header, plaintext, ciphertext)];
    }

    method Decrypt(key: Key, nonce: Bytes, header: Bytes, ciphertext: Bytes) returns (plaintext: Option<Bytes>)
      ensures plaintext.Some? ==> SealRecord(key, nonce, header, plaintext.value, ciphertext) in log
      ensures plaintext.None? ==> forall p :: SealRecord(key, nonce, header, p, ciphertext) !in log
    {
      var i := 0;
      while i < |log|
        invariant 0 <= i <= |log|
        invariant forall p :: SealRecord(key, nonce, header, p, ciphertext) !in log[..i]
      {
        var r := log[i];
        if r.key == key && r.nonce == nonce && r.header == header && r.ciphertext == ciphertext {
          return Some(r.plaintext);
        }
        i := i + 1;
      }
      assert log[..i] == log;
      return None;
    }
  }

  method SequenceBytes(sequence: nat) returns (result: array<byte>)
    ensures fresh(result) && result[..] == BigEndian(sequence, SEQUENCE_SIZE)
  {
    hide BigEndian, LowOctet;
    result := new byte[8];
    var rest, i := sequence, 7;
    while i >= 0
      invariant -1 <= i <= 7
      invariant BigEndian(sequence, 8) == BigEndian(rest, i + 1) + result[i + 1..]
    {
      ghost var written := result[i + 1..];
      result[i] := LowOctet(rest);
      OneMoreOctet(rest, i + 1, written);
      assert result[i..] == [LowOctet(rest)] + written;
      rest := rest / 0x100;
      i := i - 1;
    }
    assert result[0..] == result[..];
    NoOctets(rest);
  }

  lemma NoOctets(v: nat)
    ensures BigEndian(v, 0) == []
  {
  }

  lemma OneMoreOctet(v: nat, n: nat, written: Bytes)
    requires n > 0
    ensures BigEndian(v, n) + written == BigEndian(v / 0x100, n - 1) + ([LowOctet(v)] + written)
  {
    hide LowOctet;
  }

  method SequenceValue(octets: Bytes) returns (value: nat)
    ensures value == FromBigEndian(octets)
  {
    value := 0;
    for i := 0 to |octets|
      invariant value == FromBigEndian(octets[..i])
    {
      assert octets[..i + 1][..i] == octets[..i];
      value := value * 0x100 + octets[i];
    }
    assert octets[..|octets|] == octets;
  }

  /** What sending f does to a channel and to the log of the cipher. */
  ghost predicate SendEffect(
    c: Channel, limit: nat, f: Frame, ok: bool, c': Channel, log: seq<SealRecord>, log': seq<SealRecord>)
  {
    if !Sendable(c, limit, f) then !ok && c' == c && log' == log
    else
      && |log'| == |log| + 1 && log'[..|log|] == log && IsSealOf(c, f, log'[|log|])
      && c' == c.(sendSequence := c.sendSequence + if ok then 1 else 0)
  }

  /** What receiving does to a channel: a carrier is accepted exactly if a record opens it. */
  ghost predicate ReceiveEffect(
    c: Channel, limit: nat, carrier: Option<Frame>, f: Option<Frame>, c': Channel, log: seq<SealRecord>)
  {
    && (f.Some? ==>
          && carrier.Some?
          && exists r :: r in log && Opens(c, limit, carrier.value, r)
                         && f.value == Frame(carrier.value.kind, r.plaintext))
    && (f.None? && carrier.Some? ==> forall r :: r in log ==> !Opens(c, limit, carrier.value, r))
    && c' == c.(receiveSequence := c.receiveSequence + if f.Some? then 1 else 0)
  }

  class AuthenticatedChannel {
    const socket: Socket
    const gcm: IdealGcm
    const limit: nat
    const serverSide: bool
    const sendKey: Key
    const receiveKey: Key
    var sendSequence: nat
    var receiveSequence: nat

    constructor (socket: Socket, gcm: IdealGcm, limit: nat, session: Key, serverSide: bool)
      ensures this.socket == socket && this.gcm == gcm && this.limit == limit
      ensures State() == NewChannel(session, serverSide)
    {
      this.socket, this.gcm, this.limit, this.serverSide := socket, gcm, limit, serverSide;
      sendKey, receiveKey := SendKey(session, serverSide), SendKey(session, !serverSide);
      sendSequence, receiveSequence := 0, 0;
    }

    function State(): Channel
      reads this
    {
      Channel(serverSide, sendKey, receiveKey, sendSequence, receiveSequence)
    }

    /**
     Sends one frame. Exactly the frames that are sendable are sealed, each once; the counter moves
     only when the whole carrier went out, and otherwise a proper prefix of it did.
     */
    method Send(kind: byte, payload: Bytes) returns (ok: bool)
      requires gcm.Valid()
      modifies this`sendSequence, socket, gcm`log
      ensures gcm.Valid() && socket.incoming == old(socket.incoming)
      ensures SendEffect(old(State()), limit, Frame(kind, payload), ok, State(), old(gcm.log), gcm.log)
      ensures !Sendable(old(State()), limit, Frame(kind, payload)) ==> socket.outgoing == old(socket.outgoing)
      ensures Sendable(old(State()), limit, Frame(kind, payload)) ==>
                && var wire := FrameBytes(Carrier(kind, old(sendSequence), gcm.log[|old(gcm.log)|].ciphertext));
                && (ok ==> socket.outgoing == old(socket.outgoing) + wire)
                && (!ok ==> exists n :: 0 <= n < |wire| && socket.outgoing == old(socket.outgoing) + wire[..n])
      ensures Sendable(old(State()), limit, Frame(kind, payload)) ==>
                Willing(old(socket.schedule), HEADER_SIZE + |payload| + ENCRYPTED_OVERHEAD) ==> ok
    {
      if sendSequence == limit || |payload| + ENCRYPTED_OVERHEAD > MAX_PAYLOAD {
        return false;
      }
      var sequence := SequenceBytes(sendSequence);
      var encryptedSize := |payload| + GCM_TAG_SIZE;
      var header := Header(kind, sequence.Length + encryptedSize);
      var nonce := (if serverSide then SERVER_NONCE_PREFIX else CLIENT_NONCE_PREFIX) + sequence[..];
      var encrypted := gcm.Encrypt(sendKey, nonce, header, payload);
      ok := SendFrame(socket, Frame(kind, sequence[..] + encrypted));
      if ok {
        sendSequence := sendSequence + 1;
      }
    }

    /**
     Receives one frame from a stream of arbitrary octets. It is accepted exactly when a frame could be
     read and some record opens it, and what is returned is what was sealed.
     */
    method Receive() returns (f: Option<Frame>, ghost carrier: Option<Frame>)
      modifies this`receiveSequence, socket
      ensures gcm.log == old(gcm.log) && socket.outgoing == old(socket.outgoing)
      ensures carrier.Some? ==>
                |carrier.value.payload| <= MAX_PAYLOAD &&
                    old(socket.incoming) == FrameBytes(carrier.value) + socket.incoming
      ensures carrier.None? && old(receiveSequence) != limit &&
                Willing(old(socket.schedule), HEADER_SIZE + MAX_PAYLOAD) ==>
                !StartsWithFrame(old(socket.incoming))
      ensures ReceiveEffect(old(State()), limit, carrier, f, State(), gcm.log)
    {
      carrier := None;
      if receiveSequence == limit {
        return None, None;
      }
      var received, wire := ReceiveFrame(socket);
      if !received {
        return None, None;
      }
      carrier := Some(wire);
      if |wire.payload| < ENCRYPTED_OVERHEAD {
        return None, carrier;
      }
      var sequence := wire.payload[..SEQUENCE_SIZE];
      var receivedSequence := SequenceValue(sequence);
      if receivedSequence != receiveSequence {
        return None, carrier;
      }
      FromBigEndianInverse(sequence);
      var header := Header(wire.kind, |wire.payload|);
      var nonce := (if serverSide then CLIENT_NONCE_PREFIX else SERVER_NONCE_PREFIX) + sequence;
      var plaintext := gcm.Decrypt(receiveKey, nonce, header, wire.payload[SEQUENCE_SIZE..]);
      if plaintext.None? {
        forall r | r in gcm.log ensures !Opens(State(), limit, wire, r) {
          assert SealRecord(receiveKey, nonce, header, r.plaintext, wire.payload[SEQUENCE_SIZE..]) !in gcm.log;
        }
        return None, carrier;
      }
      ghost var r := SealRecord(receiveKey, nonce, header, plaintext.value, wire.payload[SEQUENCE_SIZE..]);
      assert Opens(State(), limit, wire, r);
      receiveSequence := receiveSequence + 1;
      f := Some(Frame(wire.kind, plaintext.value));
    }
  }
}
