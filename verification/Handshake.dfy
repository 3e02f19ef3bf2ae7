/** The two ends of the pairing handshake as they read and write frames, and the controller's pairing loop. */
module Handshake {
  import opened Octets
  import opened Wire
  import opened SecureChannel
  import opened Protocol

  const PROOF_SIZE: nat := 32

  /** HMAC-SHA256 under a pairing secret, as a function of the secret and the octets it covers. */
  type Mac = (nat, Bytes) -> Bytes

  ghost predicate IsMac(mac: Mac) {
    forall k, m :: |mac(k, m)| == PROOF_SIZE
  }

  function Hello(serverNonce: Bytes): Frame {
    Frame(SERVER_HELLO, serverNonce)
  }

  function ClientAuth(mac: Mac, secret: nat, serverNonce: Bytes, clientNonce: Bytes): Frame {
    Frame(CLIENT_AUTH, clientNonce + mac(secret, ProofInput(false, serverNonce, clientNonce)))
  }

  function ServerAuth(mac: Mac, secret: nat, serverNonce: Bytes, clientNonce: Bytes): Frame {
    Frame(SERVER_AUTH, mac(secret, ProofInput(true, serverNonce, clientNonce)))
  }

  /** What the two languages agree on: the types of the three frames, and what each proof covers. */
  lemma FramesOnTheWire(mac: Mac, secret: nat, serverNonce: Bytes, clientNonce: Bytes)
    ensures Hello(serverNonce) == Frame(1, serverNonce)
    ensures ClientAuth(mac, secret, serverNonce, clientNonce) ==
              Frame(2, clientNonce + mac(secret, Ascii("OpenCam client proof v2") + serverNonce + clientNonce))
    ensures ServerAuth(mac, secret, serverNonce, clientNonce) ==
              Frame(3, mac(secret, Ascii("OpenCam server proof v2") + serverNonce + clientNonce))
  {
    ProofDomains();
  }

  /** b continues a by some beginning of c. */
  ghost predicate ContinuesInto(a: Bytes, b: Bytes, c: Bytes) {
    exists n :: 0 <= n <= |c| && b == a + c[..n]
  }

  const PROOF_FRAME_SIZE: nat := HEADER_SIZE + 32

  /** The peer's frames have arrived, followed by anything, with a proof of the secret for these nonces. */
  ghost predicate Answers(incoming: Bytes, mac: Mac, secret: nat, serverNonce: Bytes, clientNonce: Bytes)
    requires IsMac(mac)
  {
    |clientNonce| == NONCE_SIZE && FrameBytes(ClientAuth(mac, secret, serverNonce, clientNonce)) <= incoming
  }

  ghost predicate Answered(incoming: Bytes, mac: Mac, secret: nat, serverNonce: Bytes)
    requires IsMac(mac)
  {
    exists clientNonce :: Answers(incoming, mac, secret, serverNonce, clientNonce)
  }

  lemma FrameIsReceived(stream: Bytes, f: Frame, g: Frame, rest: Bytes)
    requires |f.payload| <= MAX_PAYLOAD && FrameBytes(f) <= stream
    ensures StartsWithFrame(stream)
    ensures |g.payload| <= MAX_PAYLOAD && stream == FrameBytes(g) + rest ==> f == g
  {
    hide Header;
    if |g.payload| <= MAX_PAYLOAD && stream == FrameBytes(g) + rest {
      assert stream == FrameBytes(f) + stream[|FrameBytes(f)|..];
      FrameBytesPrefixFree(f, g, stream[|FrameBytes(f)|..], rest);
    }
  }

  lemma AnsweredIsAccepted(stream: Bytes, mac: Mac, secret: nat, serverNonce: Bytes, g: Frame, rest: Bytes)
    requires IsMac(mac) && Answered(stream, mac, secret, serverNonce)
    ensures StartsWithFrame(stream)
    ensures |g.payload| <= MAX_PAYLOAD && stream == FrameBytes(g) + rest ==>
              && g.kind == CLIENT_AUTH && |g.payload| == NONCE_SIZE + PROOF_SIZE
              && g.payload[NONCE_SIZE..] == mac(secret, ProofInput(false, serverNonce, g.payload[..NONCE_SIZE]))
  {
    hide ProofInput, FrameBytes;
    var clientNonce :| Answers(stream, mac, secret, serverNonce, clientNonce);
    var f := ClientAuth(mac, secret, serverNonce, clientNonce);
    FrameIsReceived(stream, f, g, rest);
    assert f.payload[..NONCE_SIZE] == clientNonce;
    assert f.payload[NONCE_SIZE..] == mac(secret, ProofInput(false, serverNonce, clientNonce));
  }

  const FRAME_LIMIT: nat := HEADER_SIZE + MAX_PAYLOAD

  /** The server's greeting has arrived, followed by its proof for the greeting's nonce and this client nonce. */
  ghost predicate Greets(incoming: Bytes, mac: Mac, secret: nat, serverNonce: Bytes, clientNonce: Bytes)
    requires IsMac(mac)
  {
    && |serverNonce| == NONCE_SIZE
    && FrameBytes(Hello(serverNonce)) + FrameBytes(ServerAuth(mac, secret, serverNonce, clientNonce)) <= incoming
  }

  ghost predicate Greeted(incoming: Bytes, mac: Mac, secret: nat, clientNonce: Bytes)
    requires IsMac(mac)
  {
    exists serverNonce :: Greets(incoming, mac, secret, serverNonce, clientNonce)
  }

  lemma GreetedHello(stream: Bytes, mac: Mac, secret: nat, clientNonce: Bytes, g: Frame, rest: Bytes)
    requires IsMac(mac) && Greeted(stream, mac, secret, clientNonce)
    ensures StartsWithFrame(stream)
    ensures |g.payload| <= MAX_PAYLOAD && stream == FrameBytes(g) + rest ==>
              && g == Hello(g.payload) && |g.payload| == NONCE_SIZE
              && FrameBytes(ServerAuth(mac, secret, g.payload, clientNonce)) <= rest
  {
    hide ProofInput, FrameBytes;
    var serverNonce :| Greets(stream, mac, secret, serverNonce, clientNonce);
    var f, next := FrameBytes(Hello(serverNonce)), FrameBytes(ServerAuth(mac, secret, serverNonce, clientNonce));
    assert f <= f + next <= stream;
    FrameIsReceived(stream, Hello(serverNonce), g, rest);
    if |g.payload| <= MAX_PAYLOAD && stream == FrameBytes(g) + rest {
      assert stream[|f|..] == rest && (f + next)[|f|..] == next;
      assert next == stream[..|f| + |next|][|f|..] == rest[..|next|];
    }
  }

  /** The machine's run for one call of handleClient; sent says whether the reply went out. */
  function ServerRun(
    secret: nat, serverNonce: Bytes, verified: Option<Bytes>, peer: nat, expired: bool, sent: bool): Party
  {
    var p := NewParty(true, secret, serverNonce);
    match verified
    case None => AfterClientProof(p, [], None, expired, sent)
    case Some(clientNonce) => AfterClientProof(p, clientNonce, Some(peer), expired, sent)
  }

  /** The machine's run for one call of authenticate. */
  function ClientRun(secret: nat, serverNonce: Bytes, clientNonce: Bytes, peer: nat, proved: bool): Party {
    var p := AfterHello(NewParty(false, secret, []), serverNonce, clientNonce);
    AfterServerProof(p, if proved then Some(peer) else None)
  }

  /** Either way the channel that the source constructs from the session key is the channel of the run. */
  lemma ChannelsOfRuns(
    secret: nat, serverNonce: Bytes, clientNonce: Bytes, verified: Option<Bytes>, peer: nat, expired: bool, done: bool)
    ensures var p := ServerRun(secret, serverNonce, verified, peer, expired, done);
            SessionOf(p).Some? ==> p.channel == NewChannel(SessionOf(p).value, true)
    ensures var p := ClientRun(secret, serverNonce, clientNonce, peer, done);
            SessionOf(p).Some? ==> p.channel == NewChannel(SessionOf(p).value, false)
  {
  }

  /** The steps of the machine take the runs from where they start to where the methods leave them. */
  lemma HandshakeStepsAreTheMethods(
    s: System, i: nat, secret: nat, nonce: Bytes, other: Bytes, d: Delivered, expired: bool, sent: bool)
    requires i < |s.parties|
    ensures var step := DeliverClientProof(i, other, d, expired, sent);
            s.parties[i] == NewParty(true, secret, nonce) && Enabled(s, step) ==>
              var peer := Issuer(s, d, secret, ProofInput(false, nonce, other));
              Next(s, step).parties[i] ==
                if peer.Some? then ServerRun(secret, nonce, Some(other), peer.value, expired, sent)
                else ServerRun(secret, nonce, None, 0, expired, sent)
    ensures s.parties[i] == NewParty(false, secret, []) && Enabled(s, DeliverHello(i, other, nonce)) ==>
              Next(s, DeliverHello(i, other, nonce)).parties[i] == AfterHello(NewParty(false, secret, []), other, nonce)
    ensures s.parties[i] == AfterHello(NewParty(false, secret, []), other, nonce) ==>
              var peer := Issuer(s, d, secret, ProofInput(true, other, nonce));
              Next(s, DeliverServerProof(i, d)).parties[i] ==
                ClientRun(secret, other, nonce, if peer.Some? then peer.value else 0, peer.Some?)
    ensures s.parties[i] == NewParty(true, secret, nonce) ==>
              Next(s, Abort(i)).parties[i] == ServerRun(secret, nonce, None, 0, expired, sent)
    ensures s.parties[i] == AfterHello(NewParty(false, secret, []), other, nonce) ==>
              Next(s, Abort(i)).parties[i] == ClientRun(secret, other, nonce, 0, false)
  {
    hide ProofInput, Matches;
  }

  /**
   handleClient up to the channel. `verified` is the client nonce once the client's proof has been
   checked. The server's proof is written only after that and only before the deadline.
   */
  method HandleClient(socket: Socket, mac: Mac, secret: nat, serverNonce: Bytes, now: int, pairingExpires: int)
    returns (session: Option<Key>, ghost verified: Option<Bytes>)
    requires IsMac(mac) && |serverNonce| == NONCE_SIZE
    modifies socket
    ensures verified.Some? ==>
              && |verified.value| == NONCE_SIZE
              && old(socket.incoming) == FrameBytes(ClientAuth(mac, secret, serverNonce, verified.value)) +
                  socket.incoming
    ensures session.Some? ==>
              && verified.Some? && now < pairingExpires
              && session.value == SessionKey(PairingSecret(secret), serverNonce, verified.value)
              && socket.outgoing == old(socket.outgoing) + FrameBytes(Hello(serverNonce))
                                      + FrameBytes(ServerAuth(mac, secret, serverNonce, verified.value))
    ensures verified.None? || now >= pairingExpires ==>
              session.None? && ContinuesInto(old(socket.outgoing), socket.outgoing, FrameBytes(Hello(serverNonce)))
    ensures session.None? && verified.Some? && now < pairingExpires ==>
              ContinuesInto(old(socket.outgoing) + FrameBytes(Hello(serverNonce)), socket.outgoing,
                            FrameBytes(ServerAuth(mac, secret, serverNonce, verified.value)))
    ensures forall peer: nat, late: bool | late == (now >= pairingExpires) ::
              session == SessionOf(ServerRun(secret, serverNonce, verified, peer, late, session.Some?))
    ensures Answered(old(socket.incoming), mac, secret, serverNonce) && now < pairingExpires
            && Willing(old(socket.schedule), PROOF_FRAME_SIZE + (HEADER_SIZE + MAX_PAYLOAD + PROOF_FRAME_SIZE)) ==>
              session.Some?
  {
    hide Willing, Spent, StartsWithFrame, Header, ProofInput, FrameBytes, Answered;
    session, verified := None, None;
    ghost var stream, schedule := socket.incoming, socket.schedule;
    ghost var willing := Willing(schedule, PROOF_FRAME_SIZE + (HEADER_SIZE + MAX_PAYLOAD + PROOF_FRAME_SIZE));
    if willing { LessWilling(schedule, PROOF_FRAME_SIZE, HEADER_SIZE + MAX_PAYLOAD + PROOF_FRAME_SIZE); }
    var ok := SendFrame(socket, Hello(serverNonce));
    ghost var greeted := FrameBytes(Hello(serverNonce));
    assert greeted[..|greeted|] == greeted;
    if !ok {
      return;
    }
    if willing {
      StillWilling(schedule, socket.schedule, PROOF_FRAME_SIZE, HEADER_SIZE + MAX_PAYLOAD + PROOF_FRAME_SIZE);
      LessWilling(socket.schedule, HEADER_SIZE + MAX_PAYLOAD, PROOF_FRAME_SIZE);
    }
    ghost var schedule' := socket.schedule;
    var auth;
    ok, auth := ReceiveFrame(socket);
    if Answered(stream, mac, secret, serverNonce) {
      AnsweredIsAccepted(stream, mac, secret, serverNonce, auth, socket.incoming);
      if willing {
        StillWilling(schedule', socket.schedule, HEADER_SIZE + MAX_PAYLOAD, PROOF_FRAME_SIZE);
      }
    }
    if !ok || auth.kind != CLIENT_AUTH || |auth.payload| != NONCE_SIZE + PROOF_SIZE {
      return;
    }
    var clientNonce := auth.payload[..NONCE_SIZE];
    if auth.payload[NONCE_SIZE..] != mac(secret, ProofInput(false, serverNonce, clientNonce)) {
      return;
    }
    verified := Some(clientNonce);
    assert auth == ClientAuth(mac, secret, serverNonce, clientNonce);
    if now >= pairingExpires {
      return;
    }
    ok := SendFrame(socket, ServerAuth(mac, secret, serverNonce, clientNonce));
    if ok {
      session := Some(SessionKey(PairingSecret(secret), serverNonce, clientNonce));
    }
  }

  /** authenticate: returns the session key once the server's proof for this very pair of nonces has arrived. */
  method Authenticate(socket: Socket, mac: Mac, secret: nat, clientNonce: Bytes)
    returns (session: Option<Key>, ghost serverNonce: Bytes)
    requires IsMac(mac) && |clientNonce| == NONCE_SIZE
    modifies socket
    ensures session.Some? ==>
              && |serverNonce| == NONCE_SIZE
              && session.value == SessionKey(PairingSecret(secret), serverNonce, clientNonce)
              && old(socket.incoming) == FrameBytes(Hello(serverNonce))
                                           + FrameBytes(ServerAuth(mac, secret, serverNonce, clientNonce)) +
                                               socket.incoming
              && socket.outgoing == old(socket.outgoing) + FrameBytes(ClientAuth(mac, secret, serverNonce, clientNonce))
    ensures forall peer: nat :: session == SessionOf(ClientRun(secret, serverNonce, clientNonce, peer, session.Some?))
    ensures session.None? && |serverNonce| != NONCE_SIZE ==> socket.outgoing == old(socket.outgoing)
    ensures Greeted(old(socket.incoming), mac, secret, clientNonce)
            && Willing(old(socket.schedule), FRAME_LIMIT + (HEADER_SIZE + NONCE_SIZE + PROOF_SIZE + FRAME_LIMIT)) ==>
              session.Some?
    ensures session.None? && |serverNonce| == NONCE_SIZE ==>
              ContinuesInto(old(socket.outgoing), socket.outgoing,
                  FrameBytes(ClientAuth(mac, secret, serverNonce, clientNonce)))
  {
    hide Willing, Spent, StartsWithFrame, Header, ProofInput, FrameBytes, Greeted;
    session, serverNonce := None, [];
    ghost var stream, schedule := socket.incoming, socket.schedule;
    ghost var good := Greeted(stream, mac, secret, clientNonce)
                      && Willing(schedule, FRAME_LIMIT + (HEADER_SIZE + NONCE_SIZE + PROOF_SIZE + FRAME_LIMIT));
    if good { LessWilling(schedule, FRAME_LIMIT, HEADER_SIZE + NONCE_SIZE + PROOF_SIZE + FRAME_LIMIT); }
    var ok, hello := ReceiveFrame(socket);
    if good {
      GreetedHello(stream, mac, secret, clientNonce, hello, socket.incoming);
      StillWilling(schedule, socket.schedule, FRAME_LIMIT, HEADER_SIZE + NONCE_SIZE + PROOF_SIZE + FRAME_LIMIT);
      LessWilling(socket.schedule, HEADER_SIZE + NONCE_SIZE + PROOF_SIZE, FRAME_LIMIT);
    }
    ghost var schedule' := socket.schedule;
    if !ok || hello.kind != SERVER_HELLO || |hello.payload| != NONCE_SIZE {
      return;
    }
    serverNonce := hello.payload;
    var nonce := hello.payload;
    ghost var mine := FrameBytes(ClientAuth(mac, secret, nonce, clientNonce));
    assert mine[..|mine|] == mine;
    ok := SendFrame(socket, ClientAuth(mac, secret, nonce, clientNonce));
    if !ok {
      return;
    }
    ghost var afterHello := socket.incoming;
    if good { StillWilling(schedule', socket.schedule, HEADER_SIZE + NONCE_SIZE + PROOF_SIZE, FRAME_LIMIT); }
    var response;
    ok, response := ReceiveFrame(socket);
    if good { FrameIsReceived(afterHello, ServerAuth(mac, secret, nonce, clientNonce), response, socket.incoming); }
    if !ok || response.kind != SERVER_AUTH || |response.payload| != PROOF_SIZE {
      return;
    }
    if response.payload != mac(secret, ProofInput(true, nonce, clientNonce)) {
      return;
    }
    assert response == ServerAuth(mac, secret, nonce, clientNonce);
    session := Some(SessionKey(PairingSecret(secret), nonce, clientNonce));
  }

  // ---------------------------------------------------------------- the pairing loop

  const PAIRING_LIFETIME: int := 600_000  // ten minutes, in milliseconds

  datatype Polled = NothingInTime | PollFailed | Connected

  /**
   What one turn of the loop meets, with the instants at which it draws its secret, looks at the clock after
   the poll and after accepting, and sets a new deadline after drawing again.
   */
  datatype Round = Round(
    random: bool, drawnAt: int, qrShown: bool, polled: Polled, polledAt: int,
    accepted: bool, acceptedAt: int, authenticated: bool, redrawn: bool, renewedAt: int)

  /** One call of handleClient. */
  datatype Call = Call(secret: nat, drawnAt: int, startedAt: int, deadline: int, authenticated: bool)

  predicate Clocked(start: int, rounds: seq<Round>) {
    && (forall i | 0 <= i < |rounds| ::
          start <= rounds[i].drawnAt <= rounds[i].polledAt <= rounds[i].acceptedAt <= rounds[i].renewedAt)
    && (forall i, j | 0 <= i < j < |rounds| :: rounds[i].renewedAt <= rounds[j].drawnAt)
  }

  datatype Turn = Stop | Again | Renew | Serve(call: Call)

  /** What one turn decides, given the secret it drew and the deadline in force. */
  function TurnOf(r: Round, secret: nat, pairingExpires: int): Turn {
    if !r.random || !r.qrShown then Stop
    else if r.polled == NothingInTime || r.polledAt >= pairingExpires then if r.redrawn then Renew else Stop
    else if r.polled == PollFailed || !r.accepted then Again
    else if r.acceptedAt >= pairingExpires then if r.redrawn then Renew else Stop
    else Serve(Call(secret, r.drawnAt, r.acceptedAt, pairingExpires, r.authenticated))
  }

  /**
   All calls of handleClient. Secrets are numbered in the order in which they are drawn: every turn draws
   one, and a turn that renews the deadline draws a second one that the next turn overwrites.
   */
  function Calls(rounds: seq<Round>, next: nat, pairingExpires: int): seq<Call> {
    if rounds == [] then [] else
    var r, rest := rounds[0], rounds[1..];
    match TurnOf(r, next, pairingExpires)
    case Stop => []
    case Again => Calls(rest, next + 1, pairingExpires)
    case Renew => Calls(rest, next + 2, r.renewedAt + PAIRING_LIFETIME)
    case Serve(call) =>
      [call] + if !r.authenticated then Calls(rest, next + 1, pairingExpires)
               else if r.redrawn then Calls(rest, next + 2, r.renewedAt + PAIRING_LIFETIME)
               else []
  }

  /**
   The guarantee about one call: it starts, with its secret drawn at most ten minutes before the deadline, in
   time.
  */
  predicate CallInTime(c: Call) {
    c.drawnAt <= c.startedAt < c.deadline <= c.drawnAt + PAIRING_LIFETIME
  }

  /** Calls in time, whose secrets are all different because each was drawn later than the one before. */
  predicate OnceAndInTime(calls: seq<Call>, next: nat) {
    && (forall i | 0 <= i < |calls| :: CallInTime(calls[i]) && calls[i].secret >= next)
    && (forall i, j | 0 <= i < j < |calls| :: calls[i].secret < calls[j].secret)
  }

  lemma FirstInTime(call: Call, calls: seq<Call>, later: nat)
    requires CallInTime(call) && call.secret < later && OnceAndInTime(calls, later)
    ensures OnceAndInTime([call] + calls, call.secret) && OnceAndInTime([call], call.secret)
  {
  }

  /** Each secret reaches at most one call, and no deadline is later than ten minutes after its secret was drawn. */
  lemma {:induction false} EverySecretOnceAndInTime(start: int, rounds: seq<Round>, next: nat, pairingExpires: int)
    requires Clocked(start, rounds) && pairingExpires <= start + PAIRING_LIFETIME
    ensures OnceAndInTime(Calls(rounds, next, pairingExpires), next)
    decreases rounds
  {
    if rounds != [] {
      var r, rest := rounds[0], rounds[1..];
      LaterClocked(start, rounds);
      NoCalls(next);
      FirstTurn(rounds, 0, next, pairingExpires);
      TurnDecides(r, next, pairingExpires);
      assert rounds[0..] == rounds;
      hide Clocked, OnceAndInTime, Calls, TooLate;
      match TurnOf(r, next, pairingExpires)
      case Stop =>
      case Again =>
        EverySecretOnceAndInTime(r.drawnAt, rest, next + 1, pairingExpires);
        LaterSecrets(Calls(rest, next + 1, pairingExpires), next, next + 1);
      case Renew =>
        EverySecretOnceAndInTime(r.renewedAt, rest, next + 2, r.renewedAt + PAIRING_LIFETIME);
        LaterSecrets(Calls(rest, next + 2, r.renewedAt + PAIRING_LIFETIME), next, next + 2);
      case Serve(call) =>
        if !r.authenticated {
          EverySecretOnceAndInTime(r.drawnAt, rest, next + 1, pairingExpires);
          FirstInTime(call, Calls(rest, next + 1, pairingExpires), next + 1);
        } else {
          EverySecretOnceAndInTime(r.renewedAt, rest, next + 2, r.renewedAt + PAIRING_LIFETIME);
          FirstInTime(call, Calls(rest, next + 2, r.renewedAt + PAIRING_LIFETIME), next + 2);
        }
    } else {
      NoCalls(next);
    }
  }

  lemma NoCalls(next: nat)
    ensures OnceAndInTime([], next)
  {
  }

  lemma LaterSecrets(calls: seq<Call>, next: nat, later: nat)
    requires next <= later && OnceAndInTime(calls, later)
    ensures OnceAndInTime(calls, next)
  {
  }

  lemma LaterClocked(start: int, rounds: seq<Round>)
    requires rounds != [] && Clocked(start, rounds)
    ensures var r := rounds[0];
            && start <= r.drawnAt <= r.polledAt <= r.acceptedAt <= r.renewedAt
            && Clocked(r.drawnAt, rounds[1..]) && Clocked(r.renewedAt, rounds[1..])
  {
  }

  lemma FirstTurn(rounds: seq<Round>, i: nat, next: nat, pairingExpires: int)
    requires i < |rounds|
    ensures var r, turn := rounds[i], TurnOf(rounds[i], next, pairingExpires);
            var calls, rest := Calls(rounds[i..], next, pairingExpires), rounds[i + 1..];
            var renewed := r.renewedAt + PAIRING_LIFETIME;
            && (turn == Stop ==> calls == [])
            && (turn == Again ==> calls == Calls(rest, next + 1, pairingExpires))
            && (turn == Renew ==> calls == Calls(rest, next + 2, renewed))
            && (turn.Serve? && !r.authenticated ==> calls == [turn.call] + Calls(rest, next + 1, pairingExpires))
            && (turn.Serve? && r.authenticated && r.redrawn ==> calls == [turn.call] + Calls(rest, next + 2, renewed))
            && (turn.Serve? && r.authenticated && !r.redrawn ==> calls == [turn.call])
  {
    assert rounds[i..][1..] == rounds[i + 1..];
  }

  lemma NoRounds(rounds: seq<Round>, i: nat, next: nat, pairingExpires: int)
    ensures i == |rounds| ==> Calls(rounds[i..], next, pairingExpires) == []
  {
  }

  lemma OneMoreCall(calls: seq<Call>, call: Call, more: seq<Call>)
    ensures calls + ([call] + more) == calls + [call] + more
  {
  }

  method PairingLoop(start: int, rounds: seq<Round>) returns (calls: seq<Call>)
    ensures calls == Calls(rounds, 0, start + PAIRING_LIFETIME) == ServedCalls(start, rounds, 0)
  {
    hide Calls, Clocked;
    ghost var all := Calls(rounds, 0, start + PAIRING_LIFETIME);
    calls := [];
    var next := 0;
    var pairingExpires := start + PAIRING_LIFETIME;
    var i := 0;
    ServedExactly(start, rounds);
    assert rounds[0..] == rounds;
    while i < |rounds|
      invariant 0 <= i <= |rounds|
      invariant all == calls + Calls(rounds[i..], next, pairingExpires)
    {
      var r := rounds[i];
      FirstTurn(rounds, i, next, pairingExpires);
      assert calls + [] == calls;
      i := i + 1;
      if !r.random {
        break;
      }
      var pairingSecret := next;
      next := next + 1;
      if !r.qrShown {
        return;
      }
      if r.polled == NothingInTime || r.polledAt >= pairingExpires {
        if !r.redrawn {
          break;
        }
        pairingSecret, next := next, next + 1;
        pairingExpires := r.renewedAt + PAIRING_LIFETIME;
        continue;
      }
      if r.polled == PollFailed || !r.accepted {
        continue;
      }
      if r.acceptedAt >= pairingExpires {
        if !r.redrawn {
          break;
        }
        pairingSecret, next := next, next + 1;
        pairingExpires := r.renewedAt + PAIRING_LIFETIME;
        continue;
      }
      ghost var before := calls;
      calls := calls + [Call(pairingSecret, r.drawnAt, r.acceptedAt, pairingExpires, r.authenticated)];
      if r.authenticated {
        if !r.redrawn {
          break;
        }
        pairingSecret, next := next, next + 1;
        pairingExpires := r.renewedAt + PAIRING_LIFETIME;
      }
      OneMoreCall(before, calls[|before|], Calls(rounds[i..], next, pairingExpires));
    }
    NoRounds(rounds, i, next, pairingExpires);
  }

  // ---------------------------------------------------------------- which phones are served

  /** The phone was accepted before the deadline. */
  predicate InTime(r: Round, deadline: int) {
    r.polled == Connected && r.polledAt < deadline && r.accepted && r.acceptedAt < deadline
  }

  /** The poll or the phone came too late. */
  predicate TooLate(r: Round, deadline: int) {
    || r.polled == NothingInTime || r.polledAt >= deadline
    || (r.polled == Connected && r.accepted && r.acceptedAt >= deadline)
  }

  /** The secret is thrown away before its next turn: it has expired, or a phone has used it. */
  predicate ThrownAway(r: Round, deadline: int) {
    TooLate(r, deadline) || (InTime(r, deadline) && r.authenticated)
  }

  /** The deadline in force at turn i: ten minutes after the secret was last thrown away, or after the start. */
  function DeadlineAt(start: int, rounds: seq<Round>, i: nat): int
    requires i <= |rounds|
  {
    if i == 0 then start + PAIRING_LIFETIME
    else if ThrownAway(rounds[i - 1], DeadlineAt(start, rounds, i - 1)) then rounds[i - 1].renewedAt + PAIRING_LIFETIME
    else DeadlineAt(start, rounds, i - 1)
  }

  /** The secrets drawn before turn i: one in each turn, and one each time a secret is thrown away. */
  function DrawnBefore(start: int, rounds: seq<Round>, i: nat): nat
    requires i <= |rounds|
  {
    if i == 0 then 0
    else DrawnBefore(start, rounds, i - 1) +
         if ThrownAway(rounds[i - 1], DeadlineAt(start, rounds, i - 1)) then 2 else 1
  }

  /** The loop comes to turn i: so far every secret could be drawn, shown, and drawn again. */
  predicate Reaches(start: int, rounds: seq<Round>, i: nat)
    requires i <= |rounds|
  {
    forall k | 0 <= k < i ::
      && rounds[k].random && rounds[k].qrShown
      && (ThrownAway(rounds[k], DeadlineAt(start, rounds, k)) ==> rounds[k].redrawn)
  }

  /** Turn i serves a phone. */
  predicate Served(start: int, rounds: seq<Round>, i: nat)
    requires i < |rounds|
  {
    && Reaches(start, rounds, i) && rounds[i].random && rounds[i].qrShown
    && InTime(rounds[i], DeadlineAt(start, rounds, i))
  }

  /** What handleClient is called with in turn i. */
  function CallAt(start: int, rounds: seq<Round>, i: nat): Call
    requires i < |rounds|
  {
    var r := rounds[i];
    Call(DrawnBefore(start, rounds, i), r.drawnAt, r.acceptedAt, DeadlineAt(start, rounds, i), r.authenticated)
  }

  /** The calls of the turns from i on that serve a phone, in order. */
  function ServedCalls(start: int, rounds: seq<Round>, i: nat): seq<Call>
    requires i <= |rounds|
    decreases |rounds| - i
  {
    if i == |rounds| then []
    else (if Served(start, rounds, i) then [CallAt(start, rounds, i)] else []) + ServedCalls(start, rounds, i + 1)
  }

  lemma TurnDecides(r: Round, next: nat, deadline: int)
    ensures var turn, ready := TurnOf(r, next, deadline), r.random && r.qrShown;
            && (turn == Stop <==> !ready || (TooLate(r, deadline) && !r.redrawn))
            && (turn == Renew <==> ready && TooLate(r, deadline) && r.redrawn)
            && (turn.Serve? <==> ready && InTime(r, deadline))
            && (turn.Serve? ==> turn.call == Call(next, r.drawnAt, r.acceptedAt, deadline, r.authenticated))
  {
  }

  lemma ReachesNext(start: int, rounds: seq<Round>, i: nat)
    requires i < |rounds|
    ensures var r := rounds[i];
            Reaches(start, rounds, i + 1) <==>
              && Reaches(start, rounds, i) && r.random && r.qrShown
              && (ThrownAway(r, DeadlineAt(start, rounds, i)) ==> r.redrawn)
  {
    hide ThrownAway, DeadlineAt;
  }

  lemma NextDeadline(start: int, rounds: seq<Round>, i: nat)
    requires i < |rounds|
    ensures var r, d := rounds[i], DeadlineAt(start, rounds, i);
            var drawn := DrawnBefore(start, rounds, i);
            && DeadlineAt(start, rounds, i + 1) == (if ThrownAway(r, d) then r.renewedAt + PAIRING_LIFETIME else d)
            && DrawnBefore(start, rounds, i + 1) == drawn + (if ThrownAway(r, d) then 2 else 1)
            && ServedCalls(start, rounds, i) ==
                 (if Reaches(start, rounds, i) && r.random && r.qrShown && InTime(r, d) then
                    [Call(drawn, r.drawnAt, r.acceptedAt, d, r.authenticated)]
                  else []) + ServedCalls(start, rounds, i + 1)
  {
    hide ThrownAway, Reaches, InTime;
  }

  lemma {:induction false} ServedFrom(start: int, rounds: seq<Round>, i: nat)
    requires i <= |rounds|
    ensures Reaches(start, rounds, i) ==>
              ServedCalls(start, rounds, i) ==
                Calls(rounds[i..], DrawnBefore(start, rounds, i), DeadlineAt(start, rounds, i))
    ensures !Reaches(start, rounds, i) ==> ServedCalls(start, rounds, i) == []
    decreases |rounds| - i
  {
    if i < |rounds| {
      ServedFrom(start, rounds, i + 1);
      hide Calls, Reaches, TurnOf, TooLate, InTime, ServedCalls, DeadlineAt, DrawnBefore;
      var d, drawn := DeadlineAt(start, rounds, i), DrawnBefore(start, rounds, i);
      ReachesNext(start, rounds, i);
      NextDeadline(start, rounds, i);
      TurnDecides(rounds[i], drawn, d);
      FirstTurn(rounds, i, drawn, d);
    } else {
      assert rounds[i..] == [];
    }
  }

  /**
   The calls of handleClient are those of the turns in which a phone is accepted before the deadline in force,
   each with the secret that its turn has drawn and shown.
   */
  lemma ServedExactly(start: int, rounds: seq<Round>)
    ensures Calls(rounds, 0, start + PAIRING_LIFETIME) == ServedCalls(start, rounds, 0)
  {
    ServedFrom(start, rounds, 0);
    assert rounds[0..] == rounds;
  }

  lemma {:induction false} ServedIsCalled(start: int, rounds: seq<Round>, i: nat, j: nat)
    requires i <= j < |rounds| && Served(start, rounds, j)
    ensures CallAt(start, rounds, j) in ServedCalls(start, rounds, i)
    decreases j - i
  {
    hide Served, CallAt;
    if i < j {
      ServedIsCalled(start, rounds, i + 1, j);
    }
  }

  lemma {:induction false} DeadlineSince(start: int, rounds: seq<Round>, j: nat, i: nat)
    requires j < i <= |rounds| && ThrownAway(rounds[j], DeadlineAt(start, rounds, j))
    requires forall k | j < k < i :: !ThrownAway(rounds[k], DeadlineAt(start, rounds, k))
    ensures DeadlineAt(start, rounds, i) == rounds[j].renewedAt + PAIRING_LIFETIME
    decreases i
  {
    hide ThrownAway;
    if j < i - 1 {
      DeadlineSince(start, rounds, j, i - 1);
    }
  }

  /**
   Whoever is accepted within ten minutes of the last new secret is served: here turn j threw its secret away, no
   turn has since, and the loop comes to turn i.
   */
  lemma ServedWithinTenMinutes(start: int, rounds: seq<Round>, j: nat, i: nat)
    requires Clocked(start, rounds) && j < i < |rounds| && Reaches(start, rounds, i)
    requires ThrownAway(rounds[j], DeadlineAt(start, rounds, j))
    requires forall k | j < k < i :: !ThrownAway(rounds[k], DeadlineAt(start, rounds, k))
    requires var r := rounds[i]; r.random && r.qrShown && r.polled == Connected && r.accepted
    requires rounds[i].acceptedAt < rounds[j].renewedAt + 10 * 60 * 1000
    ensures exists c :: && c in Calls(rounds, 0, start + PAIRING_LIFETIME) && c.startedAt == rounds[i].acceptedAt
                        && c.drawnAt == rounds[i].drawnAt && c.deadline == rounds[j].renewedAt + 10 * 60 * 1000
  {
    DeadlineSince(start, rounds, j, i);
    ServedIsCalled(start, rounds, 0, i);
    ServedExactly(start, rounds);
    var c := CallAt(start, rounds, i);
    hide Calls, ServedCalls, DeadlineAt, Reaches, ThrownAway;
    assert c in Calls(rounds, 0, start + PAIRING_LIFETIME);
  }

  // ---------------------------------------------------------------- the loop and the protocol together

  /** The secrets of the server runs, in the order in which the runs began. */
  function ServerSecrets(ps: seq<Party>): seq<nat> {
    if ps == [] then []
    else
      var last := ps[|ps| - 1];
      ServerSecrets(ps[..|ps| - 1]) + if last.serverSide then [last.secret] else []
  }

  function CallSecrets(calls: seq<Call>): seq<nat> {
    seq(|calls|, i requires 0 <= i < |calls| => calls[i].secret)
  }

  predicate Increasing(s: seq<nat>) {
    forall i, j | 0 <= i < j < |s| :: s[i] < s[j]
  }

  lemma {:induction false} ServerSecretIn(ps: seq<Party>, i: nat)
    requires i < |ps| && ps[i].serverSide
    ensures ps[i].secret in ServerSecrets(ps)
  {
    if i < |ps| - 1 {
      ServerSecretIn(ps[..|ps| - 1], i);
    }
  }

  lemma {:induction false} ServersHaveOwnSecrets(ps: seq<Party>, i: nat, j: nat)
    requires Increasing(ServerSecrets(ps)) && i < j < |ps| && ps[i].serverSide && ps[j].serverSide
    ensures ps[i].secret != ps[j].secret
  {
    var init, last := ps[..|ps| - 1], ps[|ps| - 1];
    var s, t := ServerSecrets(init), ServerSecrets(ps);
    assert forall k | 0 <= k < |s| :: s[k] == t[k];
    if j < |ps| - 1 {
      ServersHaveOwnSecrets(init, i, j);
    } else {
      ServerSecretIn(init, i);
      assert t[|s|] == last.secret;
    }
  }

  /**
   Single use, over the pairing loop and all protocol runs together: when the server runs are those that the
   calls of the loop start, each secret that the loop draws yields at most one channel on a phone.
   */
  lemma EachSecretYieldsOneSession(start: int, rounds: seq<Round>, steps: seq<Step>, p: nat, q: nat)
    requires Clocked(start, rounds)
    requires ServerSecrets(Run(steps).parties) <= CallSecrets(Calls(rounds, 0, start + PAIRING_LIFETIME))
    requires HasChannel(Run(steps), p) && HasChannel(Run(steps), q)
    requires var ps := Run(steps).parties;
             !ps[p].serverSide && !ps[q].serverSide && ps[p].secret == ps[q].secret
    ensures p == q
  {
    hide Run, Calls;
    var ps := Run(steps).parties;
    EverySecretOnceAndInTime(start, rounds, 0, start + PAIRING_LIFETIME);
    assert Increasing(CallSecrets(Calls(rounds, 0, start + PAIRING_LIFETIME)));
    assert Increasing(ServerSecrets(ps));
    forall i, j | 0 <= i < j < |ps| && ps[i].serverSide && ps[j].serverSide ensures ps[i].secret != ps[j].secret {
      ServersHaveOwnSecrets(ps, i, j);
    }
    SecretYieldsOneSession(steps, p, q);
  }
}
