/**
 Whole runs of OCAM v2: any number of controllers' `handleClient` runs and phones' `authenticate` runs,
 interleaved, over a network that may drop, replay, reorder, edit or reflect everything and invent
 everything except a proof that nobody has issued under a pairing secret.
 */
module Protocol {
  import opened Octets
  import opened Wire
  import opened SecureChannel

  const CLIENT_PROOF_DOMAIN: Bytes :=  // "OpenCam client proof v2"
    [0x4F, 0x70, 0x65, 0x6E, 0x43, 0x61, 0x6D, 0x20, 0x63, 0x6C, 0x69, 0x65, 0x6E, 0x74, 0x20, 0x70, 0x72, 0x6F, 0x6F,
        0x66, 0x20, 0x76, 0x32]
  const SERVER_PROOF_DOMAIN: Bytes :=  // "OpenCam server proof v2"
    [0x4F, 0x70, 0x65, 0x6E, 0x43, 0x61, 0x6D, 0x20, 0x73, 0x65, 0x72, 0x76, 0x65, 0x72, 0x20, 0x70, 0x72, 0x6F, 0x6F,
        0x66, 0x20, 0x76, 0x32]
  const NONCE_SIZE: nat := 32

  /** The octets a proof authenticates. */
  function ProofInput(serverSide: bool, serverNonce: Bytes, clientNonce: Bytes): Bytes {
    (if serverSide then SERVER_PROOF_DOMAIN else CLIENT_PROOF_DOMAIN) + serverNonce + clientNonce
  }

  /** The two proof domains never give equal inputs, and an input determines both nonces. */
  lemma ProofInputInjective(a: bool, s: Bytes, c: Bytes, b: bool, t: Bytes, d: Bytes)
    requires |s| == |t| && ProofInput(a, s, c) == ProofInput(b, t, d)
    ensures a == b && s == t && c == d
  {
    var x, y := ProofInput(a, s, c), ProofInput(b, t, d);
    assert x[8] == (if a then 0x73 else 0x63) && y[8] == (if b then 0x73 else 0x63);
    assert x[23..23 + |s|] == s && y[23..23 + |t|] == t;
    assert x[23 + |s|..] == c && y[23 + |t|..] == d;
  }

  lemma ProofDomains()
    ensures CLIENT_PROOF_DOMAIN == Ascii("OpenCam client proof v2")
    ensures SERVER_PROOF_DOMAIN == Ascii("OpenCam server proof v2")
  {
  }

  // ---------------------------------------------------------------- state

  datatype Phase = Waiting | Proving | Open | Closed

  /** One `handleClient` run or one `authenticate` run, with what it has sealed and accepted so far. */
  datatype Party = Party(
    serverSide: bool, secret: nat, serverNonce: Bytes, clientNonce: Bytes, phase: Phase,
    proved: bool,        // it has put its own proof on the wire
    verified: bool,      // it has verified a proof of the other side
    peer: nat,           // whose proof that was
    channel: Channel, sealed: seq<Frame>, accepted: seq<Frame>,
    numbers: seq<nat>,   // the sequence number under which each frame was sealed
    outcomes: seq<bool>) // whether its carrier went out completely

  datatype Proof = Proof(owner: nat, secret: nat, input: Bytes)
  datatype Sealing = Sealing(owner: nat, number: nat, record: SealRecord)
  datatype System = System(parties: seq<Party>, proofs: seq<Proof>, log: seq<Sealing>)

  function Session(p: Party): Key {
    SessionKey(PairingSecret(p.secret), p.serverNonce, p.clientNonce)
  }

  function NewParty(serverSide: bool, secret: nat, serverNonce: Bytes): Party {
    Party(serverSide, secret, serverNonce, [], Waiting, false, false, 0,
          NewChannel(PairingSecret(secret), serverSide), [], [], [], [])
  }

  function Established(p: Party): Party {
    p.(phase := Open, channel := NewChannel(Session(p), p.serverSide))
  }

  // ---------------------------------------------------------------- steps

  /** A delivered proof is a copy of one that was issued, or octets that prove nothing. */
  datatype Delivered = Replay(index: nat) | Junk

  datatype Step =
    | StartServer(secret: nat, nonce: Bytes)
    | StartClient(secret: nat)
    | DeliverHello(p: nat, serverNonce: Bytes, clientNonce: Bytes)
    | DeliverClientProof(p: nat, clientNonce: Bytes, proof: Delivered, expired: bool, sent: bool)
    | DeliverServerProof(p: nat, proof: Delivered)
    | Abort(p: nat)
    | Send(p: nat, frame: Frame, ciphertext: Bytes, sent: bool)
    | DeliverFrame(p: nat, carrier: Frame, entry: nat)

  /** Nonces come from the system's generator: 32 octets that no run of the same side has drawn before. */
  predicate Fresh(s: System, serverSide: bool, nonce: Bytes) {
    && |nonce| == NONCE_SIZE
    && forall i | 0 <= i < |s.parties| && s.parties[i].serverSide == serverSide :: OwnNonce(s.parties[i]) != nonce
  }

  function OwnNonce(p: Party): Bytes {
    if p.serverSide then p.serverNonce else p.clientNonce
  }

  predicate Matches(s: System, d: Delivered, secret: nat, input: Bytes) {
    d.Replay? && d.index < |s.proofs| && s.proofs[d.index].secret == secret && s.proofs[d.index].input == input
  }

  function Limit(p: Party): nat {
    if p.serverSide then CONTROLLER_LIMIT else PHONE_LIMIT
  }

  function Update(s: System, i: nat, p: Party): System
    requires i < |s.parties|
  {
    s.(parties := s.parties[i := p])
  }

  function WithProof(s: System, i: nat): System
    requires i < |s.parties|
  {
    var p := s.parties[i];
    s.(proofs := s.proofs + [Proof(i, p.secret, ProofInput(p.serverSide, p.serverNonce, p.clientNonce))])
  }

  // What the methods of the two ends make of one run. peer is the run whose proof has been verified, if any.

  function AfterHello(p: Party, serverNonce: Bytes, clientNonce: Bytes): Party {
    p.(serverNonce := serverNonce, clientNonce := clientNonce, phase := Proving, proved := true)
  }

  function AfterClientProof(p: Party, clientNonce: Bytes, peer: Option<nat>, expired: bool, sent: bool): Party {
    match peer
    case None => p.(phase := Closed)
    case Some(j) =>
      var q := p.(clientNonce := clientNonce, verified := true, peer := j);
      if expired then q.(phase := Closed)
      else if sent then Established(q.(proved := true))
      else q.(proved := true, phase := Closed)
  }

  function AfterServerProof(p: Party, peer: Option<nat>): Party {
    match peer
    case None => p.(phase := Closed)
    case Some(j) => Established(p.(verified := true, peer := j))
  }

  /** The session key that a run hands to its channel. */
  function SessionOf(p: Party): Option<Key> {
    if p.phase == Open then Some(Session(p)) else None
  }

  /** The run that issued the delivered proof, if it is one of this secret and input. */
  function Issuer(s: System, d: Delivered, secret: nat, input: Bytes): Option<nat> {
    if Matches(s, d, secret, input) then Some(s.proofs[d.index].owner) else None
  }

  /** authenticate: the server's greeting arrives, the phone draws its nonce and answers with its proof. */
  function OnHello(s: System, i: nat, serverNonce: Bytes, clientNonce: Bytes): System
    requires i < |s.parties|
  {
    WithProof(Update(s, i, AfterHello(s.parties[i], serverNonce, clientNonce)), i)
  }

  /** handleClient: an answer arrives; the deadline is looked at after the proof, and the reply may fail to go out. */
  function OnClientProof(s: System, i: nat, clientNonce: Bytes, d: Delivered, expired: bool, sent: bool): System
    requires i < |s.parties|
  {
    var p := s.parties[i];
    var peer := Issuer(s, d, p.secret, ProofInput(false, p.serverNonce, clientNonce));
    var t := Update(s, i, AfterClientProof(p, clientNonce, peer, expired, sent));
    if peer.Some? && !expired then WithProof(t, i) else t
  }

  /** authenticate: the server's proof arrives. */
  function OnServerProof(s: System, i: nat, d: Delivered): System
    requires i < |s.parties|
  {
    var p := s.parties[i];
    Update(s, i, AfterServerProof(p, Issuer(s, d, p.secret, ProofInput(true, p.serverNonce, p.clientNonce))))
  }

  function SealedBy(p: Party, f: Frame, ciphertext: Bytes): SealRecord
    requires |f.payload| + ENCRYPTED_OVERHEAD <= MAX_PAYLOAD
  {
    SealRecord(p.channel.sendKey, Nonce(p.channel.serverSide, p.channel.sendSequence),
               Header(f.kind, |f.payload| + ENCRYPTED_OVERHEAD), f.payload, ciphertext)
  }

  function Sent(p: Party, f: Frame, sent: bool): Party {
    var c := p.channel;
    p.(sealed := p.sealed + [f], numbers := p.numbers + [c.sendSequence], outcomes := p.outcomes + [sent],
       channel := c.(sendSequence := c.sendSequence + if sent then 1 else 0))
  }

  function Received(p: Party, f: Frame): Party {
    var c := p.channel;
    p.(accepted := p.accepted + [f], channel := c.(receiveSequence := c.receiveSequence + 1))
  }

  function OnSend(s: System, i: nat, f: Frame, ciphertext: Bytes, sent: bool): System
    requires i < |s.parties| && |f.payload| + ENCRYPTED_OVERHEAD <= MAX_PAYLOAD
  {
    var p := s.parties[i];
    Update(s, i, Sent(p, f, sent)).(log := s.log + [Sealing(i, |p.sealed|, SealedBy(p, f, ciphertext))])
  }

  function OnFrame(s: System, i: nat, w: Frame, entry: nat): System
    requires i < |s.parties| && entry < |s.log|
  {
    Update(s, i, Received(s.parties[i], Frame(w.kind, s.log[entry].record.plaintext)))
  }

  /** p holds a channel. */
  predicate HasChannel(s: System, p: nat) {
    p < |s.parties| && s.parties[p].phase == Open
  }

  predicate InPhase(s: System, i: nat, serverSide: bool, phase: Phase) {
    i < |s.parties| && s.parties[i].serverSide == serverSide && s.parties[i].phase == phase
  }

  predicate Enabled(s: System, step: Step) {
    match step
    case StartServer(_, nonce) => Fresh(s, true, nonce)
    case StartClient(_) => true
    case DeliverHello(i, sn, cn) => InPhase(s, i, false, Waiting) && |sn| == NONCE_SIZE && Fresh(s, false, cn)
    case DeliverClientProof(i, cn, _, _, _) => InPhase(s, i, true, Waiting) && |cn| == NONCE_SIZE
    case DeliverServerProof(i, _) => InPhase(s, i, false, Proving)
    case Abort(i) => i < |s.parties| && s.parties[i].phase != Open
    // A send may also follow one that failed; it seals under the same number.
    case Send(i, f, ct, _) =>
      && i < |s.parties| && s.parties[i].phase == Open
      && Sendable(s.parties[i].channel, Limit(s.parties[i]), f) && |ct| == |f.payload| + GCM_TAG_SIZE
    // Any octets may be delivered; the cipher opens them only by a logged record.
    case DeliverFrame(i, w, e) =>
      && i < |s.parties| && s.parties[i].phase == Open && e < |s.log|
      && Opens(s.parties[i].channel, Limit(s.parties[i]), w, s.log[e].record)
  }

  function Next(s: System, step: Step): System {
    if !Enabled(s, step) then s else
    match step
    case StartServer(secret, nonce) => s.(parties := s.parties + [NewParty(true, secret, nonce)])
    case StartClient(secret) => s.(parties := s.parties + [NewParty(false, secret, [])])
    case DeliverHello(i, sn, cn) => OnHello(s, i, sn, cn)
    case DeliverClientProof(i, cn, d, expired, sent) => OnClientProof(s, i, cn, d, expired, sent)
    case DeliverServerProof(i, d) => OnServerProof(s, i, d)
    case Abort(i) => Update(s, i, s.parties[i].(phase := Closed))
    case Send(i, f, ct, sent) => OnSend(s, i, f, ct, sent)
    case DeliverFrame(i, w, e) => OnFrame(s, i, w, e)
  }

  function Run(steps: seq<Step>): System {
    if steps == [] then System([], [], [])
    else Next(Run(steps[..|steps| - 1]), steps[|steps| - 1])
  }

  // ---------------------------------------------------------------- the invariant

  /** What holds of one run by itself. */
  predicate Sane(p: Party) {
    && (p.serverSide ==> |p.serverNonce| == NONCE_SIZE)
    && (p.proved || p.verified ==> |p.serverNonce| == NONCE_SIZE && |p.clientNonce| == NONCE_SIZE)
    && (!p.proved && !p.verified ==> p.clientNonce == [])
    && (p.phase == Waiting ==> !p.proved && !p.verified)
    && (p.phase == Proving ==> p.proved && !p.verified)
    && (p.serverSide && p.proved ==> p.verified)
    && (p.phase == Open ==> p.proved && p.verified && ChannelSane(p))
    && (p.phase != Open ==> p.sealed == [] && p.accepted == [] && p.numbers == [] && p.outcomes == [])
  }

  predicate ChannelSane(p: Party) {
    && p.channel.serverSide == p.serverSide
    && p.channel.sendKey == SendKey(Session(p), p.serverSide)
    && p.channel.receiveKey == SendKey(Session(p), !p.serverSide)
    && p.channel.receiveSequence == |p.accepted| <= Limit(p)
    && p.channel.sendSequence <= Limit(p)
    && HistorySane(p)
  }

  /** Each frame is sealed under the number of complete sends before it. */
  predicate HistorySane(p: Party) {
    && |p.numbers| == |p.outcomes| == |p.sealed|
    && p.channel.sendSequence == Successes(p.outcomes)
    && (forall k | 0 <= k < |p.numbers| :: p.numbers[k] == Successes(p.outcomes[..k]) <= p.channel.sendSequence)
  }

  /** No send on this channel follows one that failed. */
  predicate Disciplined(p: Party) {
    forall i | 0 <= i < |p.outcomes| - 1 :: p.outcomes[i]
  }

  /** q is the run on the other side that p has verified. */
  predicate SamePair(p: Party, q: Party) {
    p.serverSide != q.serverSide && p.secret == q.secret && p.serverNonce == q.serverNonce &&
        p.clientNonce == q.clientNonce
  }

  /** q has sealed f under number n. */
  predicate SealedUnder(q: Party, n: nat, f: Frame) {
    exists k | 0 <= k < |q.sealed| && k < |q.numbers| :: q.numbers[k] == n && q.sealed[k] == f
  }

  predicate Linked(p: Party, q: Party) {
    && SamePair(p, q) && q.proved
    && forall i: nat | i < |p.accepted| :: SealedUnder(q, i, p.accepted[i])
  }

  predicate PartiesSane(ps: seq<Party>) {
    && (forall i | 0 <= i < |ps| :: Sane(ps[i]))
    && (forall i | 0 <= i < |ps| :: ps[i].verified ==> ps[i].peer < |ps| && Linked(ps[i], ps[ps[i].peer]))
    && (forall i, j | 0 <= i < j < |ps| && ps[i].serverSide == ps[j].serverSide ::
          |OwnNonce(ps[i])| == NONCE_SIZE ==> OwnNonce(ps[i]) != OwnNonce(ps[j]))
  }

  predicate ProofSane(ps: seq<Party>, e: Proof) {
    && e.owner < |ps|
    && var p := ps[e.owner];
    && p.proved && p.secret == e.secret && e.input == ProofInput(p.serverSide, p.serverNonce, p.clientNonce)
  }

  predicate SealingSane(ps: seq<Party>, e: Sealing) {
    && e.owner < |ps|
    && var p := ps[e.owner];
    && p.phase == Open && e.number < |p.sealed| == |p.numbers| && p.numbers[e.number] <= CONTROLLER_LIMIT
    && |p.sealed[e.number].payload| + ENCRYPTED_OVERHEAD <= MAX_PAYLOAD
    && IsSealOf(p.channel.(sendSequence := p.numbers[e.number]), p.sealed[e.number], e.record)
  }

  predicate Inv(s: System) {
    && PartiesSane(s.parties)
    && (forall k | 0 <= k < |s.proofs| :: ProofSane(s.parties, s.proofs[k]))
    && (forall k | 0 <= k < |s.log| :: SealingSane(s.parties, s.log[k]))
    && (forall j, k | 0 <= j < k < |s.log| && s.log[j].owner == s.log[k].owner :: s.log[j].number < s.log[k].number)
  }

  /** How one run may change while it stays the same run to everybody else. */
  predicate Evolves(p: Party, q: Party) {
    && q.serverSide == p.serverSide && q.secret == p.secret
    && (p.proved ==> q.proved && q.serverNonce == p.serverNonce && q.clientNonce == p.clientNonce)
    && p.sealed <= q.sealed && p.numbers <= q.numbers && (p.phase == Open ==> |q.sealed| == |q.numbers|)
    && (p.phase == Open ==> q.phase == Open && q.channel.(sendSequence := 0, receiveSequence := 0)
                                              == p.channel.(sendSequence := 0, receiveSequence := 0))
  }

  lemma PartySane(s: System, i: nat)
    requires Inv(s) && i < |s.parties|
    ensures Sane(s.parties[i])
  {
  }

  lemma LinkedEvolves(p: Party, q: Party, r: Party)
    requires Linked(p, q) && Evolves(q, r)
    ensures Linked(p, r)
  {
    forall i: nat | i < |p.accepted| ensures SealedUnder(r, i, p.accepted[i]) {
      assert SealedUnder(q, i, p.accepted[i]);
      var k :| 0 <= k < |q.sealed| && k < |q.numbers| && q.numbers[k] == i && q.sealed[k] == p.accepted[i];
      assert r.numbers[k] == i && r.sealed[k] == p.accepted[i];
    }
  }

  lemma PartyUpdateKeeps(ps: seq<Party>, i: nat, q: Party)
    requires PartiesSane(ps) && i < |ps| && Sane(q) && Evolves(ps[i], q)
    requires q.verified ==> q.peer < |ps| && q.peer != i && Linked(q, ps[q.peer])
    requires OwnNonce(q) == OwnNonce(ps[i]) ||
             forall j | 0 <= j < |ps| && ps[j].serverSide == q.serverSide :: OwnNonce(ps[j]) != OwnNonce(q)
    ensures PartiesSane(ps[i := q])
  {
    forall j | 0 <= j < |ps| && j != i && ps[j].verified && ps[j].peer == i ensures Linked(ps[j], q) {
      LinkedEvolves(ps[j], ps[i], q);
    }
    hide Linked, Sane, Evolves;
  }

  lemma PartyUpdateKeepsEntries(s: System, i: nat, q: Party)
    requires Inv(s) && i < |s.parties| && Evolves(s.parties[i], q)
    ensures forall k | 0 <= k < |s.proofs| :: ProofSane(s.parties[i := q], s.proofs[k])
    ensures forall k | 0 <= k < |s.log| :: SealingSane(s.parties[i := q], s.log[k])
  {
    hide PartiesSane, Header, Nonce, ProofInput;
    var ps := s.parties[i := q];
    forall k | 0 <= k < |s.proofs| ensures ProofSane(ps, s.proofs[k]) {
      assert ProofSane(s.parties, s.proofs[k]);
    }
    forall k | 0 <= k < |s.log| ensures SealingSane(ps, s.log[k]) {
      assert SealingSane(s.parties, s.log[k]);
    }
  }

  lemma UpdateKeepsInv(s: System, i: nat, q: Party)
    requires Inv(s) && i < |s.parties| && Sane(q) && Evolves(s.parties[i], q)
    requires q.verified ==> q.peer < |s.parties| && q.peer != i && Linked(q, s.parties[q.peer])
    requires OwnNonce(q) == OwnNonce(s.parties[i]) ||
             forall j | 0 <= j < |s.parties| && s.parties[j].serverSide == q.serverSide ::
                 OwnNonce(s.parties[j]) != OwnNonce(q)
    ensures Inv(Update(s, i, q))
  {
    PartyUpdateKeeps(s.parties, i, q);
    PartyUpdateKeepsEntries(s, i, q);
  }

  lemma ProofKeepsInv(s: System, i: nat)
    requires Inv(s) && i < |s.parties| && s.parties[i].proved
    ensures Inv(WithProof(s, i))
  {
  }

  lemma StartKeepsInv(s: System, p: Party)
    requires Inv(s) && Sane(p) && !p.verified
    requires forall j | 0 <= j < |s.parties| && s.parties[j].serverSide == p.serverSide ::
              OwnNonce(s.parties[j]) != OwnNonce(p) || OwnNonce(p) == []
    ensures Inv(s.(parties := s.parties + [p]))
  {
    var ps := s.parties + [p];
    forall k | 0 <= k < |s.proofs| ensures ProofSane(ps, s.proofs[k]) {
      assert ProofSane(s.parties, s.proofs[k]);
    }
    forall k | 0 <= k < |s.log| ensures SealingSane(ps, s.log[k]) {
      assert SealingSane(s.parties, s.log[k]);
    }
  }

  lemma HelloKeepsInv(s: System, i: nat, serverNonce: Bytes, clientNonce: Bytes)
    requires Inv(s) && Enabled(s, DeliverHello(i, serverNonce, clientNonce))
    ensures Inv(OnHello(s, i, serverNonce, clientNonce))
  {
    var q := AfterHello(s.parties[i], serverNonce, clientNonce);
    UpdateKeepsInv(s, i, q);
    ProofKeepsInv(Update(s, i, q), i);
  }

  /** Accepting a proof links the run to the one run that issued it. */
  lemma ProofLinks(s: System, p: Party, d: Delivered)
    requires Inv(s) && Matches(s, d, p.secret, ProofInput(!p.serverSide, p.serverNonce, p.clientNonce))
    requires |p.serverNonce| == NONCE_SIZE && |p.clientNonce| == NONCE_SIZE && p.accepted == []
    ensures s.proofs[d.index].owner < |s.parties| && Linked(p, s.parties[s.proofs[d.index].owner])
  {
    var e := s.proofs[d.index];
    assert ProofSane(s.parties, e);
    var q := s.parties[e.owner];
    assert Sane(q);
    ProofInputInjective(!p.serverSide, p.serverNonce, p.clientNonce, q.serverSide, q.serverNonce, q.clientNonce);
  }

  lemma ClientProofKeepsInv(s: System, i: nat, clientNonce: Bytes, d: Delivered, expired: bool, sent: bool)
    requires Inv(s) && Enabled(s, DeliverClientProof(i, clientNonce, d, expired, sent))
    ensures Inv(OnClientProof(s, i, clientNonce, d, expired, sent))
  {
    var p := s.parties[i];
    assert Sane(p);
    if !Matches(s, d, p.secret, ProofInput(false, p.serverNonce, clientNonce)) {
      UpdateKeepsInv(s, i, p.(phase := Closed));
    } else {
      var q := p.(clientNonce := clientNonce, verified := true, peer := s.proofs[d.index].owner);
      ProofLinks(s, q, d);
      if expired {
        UpdateKeepsInv(s, i, q.(phase := Closed));
      } else {
        var r := if sent then Established(q.(proved := true)) else q.(proved := true, phase := Closed);
        UpdateKeepsInv(s, i, r);
        ProofKeepsInv(Update(s, i, r), i);
      }
    }
  }

  lemma ServerProofKeepsInv(s: System, i: nat, d: Delivered)
    requires Inv(s) && Enabled(s, DeliverServerProof(i, d))
    ensures Inv(OnServerProof(s, i, d))
  {
    var p := s.parties[i];
    assert Sane(p);
    if !Matches(s, d, p.secret, ProofInput(true, p.serverNonce, p.clientNonce)) {
      UpdateKeepsInv(s, i, p.(phase := Closed));
    } else {
      var q := p.(verified := true, peer := s.proofs[d.index].owner);
      ProofLinks(s, q, d);
      UpdateKeepsInv(s, i, Established(q));
    }
  }

  lemma SentKeepsParty(s: System, i: nat, f: Frame, sent: bool)
    requires Inv(s) && HasChannel(s, i)
    requires Sendable(s.parties[i].channel, Limit(s.parties[i]), f)
    ensures Inv(Update(s, i, Sent(s.parties[i], f, sent)))
  {
    var p := s.parties[i];
    assert Sane(p) && Linked(p, s.parties[p.peer]);
    SentIsSane(p, s.parties[p.peer], f, sent);
    hide Linked, Sane, Evolves;
    UpdateKeepsInv(s, i, Sent(p, f, sent));
  }

  lemma SentIsSane(p: Party, q: Party, f: Frame, sent: bool)
    requires Sane(p) && p.phase == Open && Linked(p, q) && Sendable(p.channel, Limit(p), f)
    ensures Sane(Sent(p, f, sent)) && Evolves(p, Sent(p, f, sent)) && Linked(Sent(p, f, sent), q)
  {
    SentHistory(p, f, sent);
    hide HistorySane, SealedUnder;
    assert |p.sealed| == |p.numbers| by { assert HistorySane(p); HistorySizes(p); }
  }

  lemma HistorySizes(p: Party)
    requires HistorySane(p)
    ensures |p.numbers| == |p.outcomes| == |p.sealed|
  {
  }

  lemma SentHistory(p: Party, f: Frame, sent: bool)
    requires HistorySane(p)
    ensures HistorySane(Sent(p, f, sent))
  {
    var q := Sent(p, f, sent);
    assert q.outcomes[..|p.outcomes|] == p.outcomes;
    forall k | 0 <= k < |q.numbers| ensures q.numbers[k] == Successes(q.outcomes[..k]) <= q.channel.sendSequence {
      assert k < |p.outcomes| ==> q.outcomes[..k] == p.outcomes[..k];
    }
  }

  /** Adding a sealing with a number above all earlier ones of its owner. */
  lemma SealingKeepsInv(s: System, e: Sealing)
    requires Inv(s) && SealingSane(s.parties, e)
    requires forall j | 0 <= j < |s.log| && s.log[j].owner == e.owner :: s.log[j].number < e.number
    ensures Inv(s.(log := s.log + [e]))
  {
    hide SealingSane, ProofSane, PartiesSane;
  }

  lemma NumbersBelow(s: System, i: nat)
    requires Inv(s) && HasChannel(s, i)
    ensures forall j | 0 <= j < |s.log| && s.log[j].owner == i :: s.log[j].number < |s.parties[i].sealed|
  {
    forall j | 0 <= j < |s.log| && s.log[j].owner == i ensures s.log[j].number < |s.parties[i].sealed| {
      assert SealingSane(s.parties, s.log[j]);
    }
  }

  lemma NewSealingIsSane(s: System, i: nat, f: Frame, ciphertext: Bytes, sent: bool)
    requires Enabled(s, Send(i, f, ciphertext, sent)) && Sane(s.parties[i])
    ensures SealingSane(s.parties[i := Sent(s.parties[i], f, sent)],
                        Sealing(i, |s.parties[i].sealed|, SealedBy(s.parties[i], f, ciphertext)))
  {
    hide Header, Nonce;
  }

  lemma SendKeepsInv(s: System, i: nat, f: Frame, ciphertext: Bytes, sent: bool)
    requires Inv(s) && Enabled(s, Send(i, f, ciphertext, sent))
    ensures Inv(OnSend(s, i, f, ciphertext, sent))
  {
    hide Inv, Sane, SealingSane, SealedBy, Fresh;
    PartySane(s, i);
    NumbersBelow(s, i);
    SentKeepsParty(s, i, f, sent);
    NewSealingIsSane(s, i, f, ciphertext, sent);
    SealingKeepsInv(Update(s, i, Sent(s.parties[i], f, sent)),
                    Sealing(i, |s.parties[i].sealed|, SealedBy(s.parties[i], f, ciphertext)));
  }

  /** A run has at most one counterpart. */
  lemma CounterpartUnique(ps: seq<Party>, i: nat, j: nat, k: nat)
    requires PartiesSane(ps) && i < |ps| && j < |ps| && k < |ps|
    requires SamePair(ps[i], ps[j]) && SamePair(ps[i], ps[k])
    requires |ps[i].serverNonce| == NONCE_SIZE && |ps[i].clientNonce| == NONCE_SIZE
    ensures j == k
  {
  }

  /** What opens under a run's receive key is the frame its peer sealed next. */
  lemma OpenedFromPeer(s: System, i: nat, w: Frame, e: nat)
    requires Inv(s) && Enabled(s, DeliverFrame(i, w, e))
    ensures var p := s.parties[i];
            && p.peer < |s.parties|
            && SealedUnder(s.parties[p.peer], |p.accepted|, Frame(w.kind, s.log[e].record.plaintext))
  {
    hide PartiesSane, HistorySane;
    assert PartiesSane(s.parties);
    PartySane(s, i);
    PeerLinked(s, i);
    var p, g := s.parties[i], s.log[e];
    assert Sane(p) && SealingSane(s.parties, g);
    var q := s.parties[g.owner];
    PartySane(s, g.owner);
    KeysSeparate(p.secret, p.serverNonce, p.clientNonce, !p.serverSide, q.secret, q.serverNonce, q.clientNonce,
        q.serverSide);
    CounterpartUnique(s.parties, i, g.owner, p.peer);
    OpenedIsSealed(q.channel.(sendSequence := q.numbers[g.number]), p.channel, Limit(p), q.sealed[g.number], w,
        g.record);
  }

  lemma PeerLinked(s: System, i: nat)
    requires Inv(s) && i < |s.parties| && s.parties[i].verified
    ensures s.parties[i].peer < |s.parties| && Linked(s.parties[i], s.parties[s.parties[i].peer])
  {
  }

  lemma ReceivedIsSane(p: Party, q: Party, f: Frame)
    requires Sane(p) && p.phase == Open && p.channel.receiveSequence < Limit(p)
    requires Linked(p, q) && SealedUnder(q, |p.accepted|, f)
    ensures Sane(Received(p, f)) && Evolves(p, Received(p, f)) && Linked(Received(p, f), q)
  {
    assert HistorySane(Received(p, f)) by { hide Linked; }
    assert |p.sealed| == |p.numbers| by { HistorySizes(p); hide *; }
    ReceivedIsLinked(p, q, f);
    hide SealedUnder, HistorySane, Linked;
  }

  lemma ReceivedIsLinked(p: Party, q: Party, f: Frame)
    requires Linked(p, q) && SealedUnder(q, |p.accepted|, f)
    ensures Linked(Received(p, f), q)
  {
    hide SealedUnder;
  }

  lemma ReceivedKeepsParty(s: System, i: nat, f: Frame)
    requires Inv(s) && HasChannel(s, i)
    requires s.parties[i].channel.receiveSequence < Limit(s.parties[i])
    requires var p := s.parties[i];
             p.peer < |s.parties| && SealedUnder(s.parties[p.peer], |p.accepted|, f)
    ensures Inv(Update(s, i, Received(s.parties[i], f)))
  {
    var p := s.parties[i];
    assert Sane(p) && Linked(p, s.parties[p.peer]);
    ReceivedIsSane(p, s.parties[p.peer], f);
    UpdateKeepsInv(s, i, Received(p, f));
  }

  lemma FrameKeepsInv(s: System, i: nat, w: Frame, e: nat)
    requires Inv(s) && Enabled(s, DeliverFrame(i, w, e))
    ensures Inv(OnFrame(s, i, w, e))
  {
    OpenedFromPeer(s, i, w, e);
    assert Sane(s.parties[i]);
    ReceivedKeepsParty(s, i, Frame(w.kind, s.log[e].record.plaintext));
  }

  lemma NextKeepsInv(s: System, step: Step)
    requires Inv(s)
    ensures Inv(Next(s, step))
  {
    if Enabled(s, step) {
      match step
      case StartServer(secret, nonce) => StartKeepsInv(s, NewParty(true, secret, nonce));
      case StartClient(secret) => StartKeepsInv(s, NewParty(false, secret, []));
      case DeliverHello(i, sn, cn) => HelloKeepsInv(s, i, sn, cn);
      case DeliverClientProof(i, cn, d, expired, sent) => ClientProofKeepsInv(s, i, cn, d, expired, sent);
      case DeliverServerProof(i, d) => ServerProofKeepsInv(s, i, d);
      case Abort(i) => UpdateKeepsInv(s, i, s.parties[i].(phase := Closed));
      case Send(i, f, ct, sent) => SendKeepsInv(s, i, f, ct, sent);
      case DeliverFrame(i, w, e) => FrameKeepsInv(s, i, w, e);
    }
  }

  lemma {:induction false} RunKeepsInv(steps: seq<Step>)
    ensures Inv(Run(steps))
  {
    if steps != [] {
      RunKeepsInv(steps[..|steps| - 1]);
      NextKeepsInv(Run(steps[..|steps| - 1]), steps[|steps| - 1]);
    }
  }

  // ---------------------------------------------------------------- what every run guarantees

  predicate Counterpart(s: System, p: nat, q: nat) {
    p < |s.parties| && q < |s.parties| && SamePair(s.parties[p], s.parties[q])
  }

  /**
   Handshake agreement: whoever ends up with a channel for a pair of nonces has exactly one counterpart
   for that pair under the same pairing secret. The counterpart of a phone is a controller that has
   verified a client proof, and the counterpart of a controller is a phone that has issued it. If the counterpart also
   has a channel, each sends under the key the other receives under.
   */
  lemma HandshakeAgreement(steps: seq<Step>, p: nat) returns (q: nat)
    requires HasChannel(Run(steps), p)
    ensures var s := Run(steps);
            && Counterpart(s, p, q) && s.parties[q].proved && (s.parties[q].serverSide ==> s.parties[q].verified)
            && Session(s.parties[p]) == Session(s.parties[q])
            && (forall k :: Counterpart(s, p, k) ==> k == q)
            && (HasChannel(s, q) ==>
                  && s.parties[p].channel.sendKey == s.parties[q].channel.receiveKey
                  && s.parties[q].channel.sendKey == s.parties[p].channel.receiveKey)
  {
    var s := Run(steps);
    RunKeepsInv(steps);
    q := s.parties[p].peer;
    assert Sane(s.parties[p]) && Sane(s.parties[q]) && Linked(s.parties[p], s.parties[q]);
    forall k | Counterpart(s, p, k) ensures k == q {
      CounterpartUnique(s.parties, p, q, k);
    }
  }

  /** Sequence numbers are unsigned 64-bit numbers at the controller and signed ones on the phone. */
  lemma LimitsOfTheEnds(p: Party)
    ensures if p.serverSide then Limit(p) == Pow256(8) - 1 else 2 * (Limit(p) + 1) == Pow256(8)
  {
    assert Pow256(2) == 0x1_0000;
    assert Pow256(4) == 0x100 * (0x100 * Pow256(2)) == 0x1_0000_0000;
    assert Pow256(6) == 0x100 * (0x100 * Pow256(4)) == 0x1_0000_0000_0000;
    assert Pow256(8) == 0x100 * (0x100 * Pow256(6)) == 0x1_0000_0000_0000_0000;
  }

  // ---------------------------------------------------------------- one proof decides

  /** The step brings run i a proof of the other side, and the run is waiting for one. */
  predicate Examines(s: System, step: Step, i: nat) {
    (step.DeliverClientProof? || step.DeliverServerProof?) && step.p == i && Enabled(s, step)
  }

  /** That proof is one of this secret and these nonces; the controller's reply also goes out in time. */
  predicate Satisfies(s: System, step: Step, i: nat)
    requires Examines(s, step, i)
  {
    var p := s.parties[i];
    if step.DeliverClientProof? then
      && Matches(s, step.proof, p.secret, CLIENT_PROOF_DOMAIN + p.serverNonce + step.clientNonce)
      && !step.expired && step.sent
    else Matches(s, step.proof, p.secret, SERVER_PROOF_DOMAIN + p.serverNonce + p.clientNonce)
  }

  /** A run that is open or closed has settled. */
  predicate Settled(s: System, i: nat) {
    i < |s.parties| && s.parties[i].phase in {Open, Closed}
  }

  lemma SettledStays(s: System, step: Step, i: nat)
    requires Settled(s, i)
    ensures Settled(Next(s, step), i) && (HasChannel(Next(s, step), i) <==> HasChannel(s, i))
  {
    hide ProofInput, Opens, Sendable, Fresh;
  }

  lemma ExaminedIsSettled(s: System, step: Step, i: nat)
    requires Examines(s, step, i)
    ensures Settled(Next(s, step), i) && (HasChannel(Next(s, step), i) <==> Satisfies(s, step, i)) && !Settled(s, i)
  {
    hide Matches;
  }

  lemma {:induction false} SettledForever(steps: seq<Step>, more: seq<Step>, i: nat)
    requires Settled(Run(steps), i)
    ensures Settled(Run(steps + more), i) && (HasChannel(Run(steps + more), i) <==> HasChannel(Run(steps), i))
    decreases |more|
  {
    hide Next, Settled, HasChannel;
    if more == [] {
      assert steps + more == steps;
    } else {
      var init := more[..|more| - 1];
      SettledForever(steps, init, i);
      assert (steps + more)[..|steps + more| - 1] == steps + init;
      SettledStays(Run(steps + init), more[|more| - 1], i);
    }
  }

  /**
   One proof decides: the first proof of the other side that reaches a run is also the last one it looks at, and
   whatever follows, the run holds a channel from then on if that proof satisfies it, and never otherwise.
   */
  lemma OneProofDecides(steps: seq<Step>, step: Step, more: seq<Step>, i: nat)
    requires Examines(Run(steps), step, i)
    ensures HasChannel(Run(steps + [step] + more), i) <==> Satisfies(Run(steps), step, i)
    ensures forall later :: !Examines(Run(steps + [step] + more), later, i)
  {
    hide Satisfies, HasChannel, Next;
    assert (steps + [step])[..|steps|] == steps;
    ExaminedIsSettled(Run(steps), step, i);
    SettledForever(steps + [step], more, i);
    forall later | Examines(Run(steps + [step] + more), later, i) ensures false {
      ExaminedIsSettled(Run(steps + [step] + more), later, i);
    }
  }

  predicate SatisfiedAt(steps: seq<Step>, k: nat, i: nat)
    requires k < |steps|
  {
    Examines(Run(steps[..k]), steps[k], i) && Satisfies(Run(steps[..k]), steps[k], i)
  }

  lemma OnlyProofsOpen(s: System, step: Step, i: nat)
    requires HasChannel(Next(s, step), i) && !HasChannel(s, i)
    ensures Examines(s, step, i) && Satisfies(s, step, i)
  {
    hide Matches, Opens, Sendable, Fresh;
  }

  /** There is no other way to a channel than a proof that satisfies the run. */
  lemma {:induction false} OpenExactly(steps: seq<Step>, i: nat)
    ensures HasChannel(Run(steps), i) <==> exists k | 0 <= k < |steps| :: SatisfiedAt(steps, k, i)
    decreases |steps|
  {
    hide HasChannel, Next, Satisfies;
    if k :| 0 <= k < |steps| && SatisfiedAt(steps, k, i) {
      assert steps == steps[..k] + [steps[k]] + steps[k + 1..];
      OneProofDecides(steps[..k], steps[k], steps[k + 1..], i);
    }
    if HasChannel(Run(steps), i) {
      NoStepsNoChannel(i);
      var n := |steps| - 1;
      if HasChannel(Run(steps[..n]), i) {
        OpenExactly(steps[..n], i);
        var k :| 0 <= k < n && SatisfiedAt(steps[..n], k, i);
        assert steps[..n][..k] == steps[..k];
        assert SatisfiedAt(steps, k, i);
      } else {
        OnlyProofsOpen(Run(steps[..n]), steps[n], i);
        assert SatisfiedAt(steps, n, i);
      }
    }
  }

  lemma NoStepsNoChannel(i: nat)
    ensures !HasChannel(Run([]), i)
  {
  }

  // ---------------------------------------------------------------- what is accepted

  /** Whatever the ends do, the frame accepted at each position was sealed by the counterpart under that number. */
  lemma AcceptedWereSealed(steps: seq<Step>, p: nat, q: nat)
    requires HasChannel(Run(steps), p) && Counterpart(Run(steps), p, q)
    ensures var ps := Run(steps).parties;
            forall i: nat | i < |ps[p].accepted| :: SealedUnder(ps[q], i, ps[p].accepted[i])
  {
    var k := HandshakeAgreement(steps, p);
    RunKeepsInv(steps);
    var s := Run(steps);
    PartySane(s, p);
    hide Run, PartiesSane, HistorySane;
    PeerLinked(s, p);
    assert Counterpart(s, p, s.parties[p].peer);
  }

  /** No number covers two different frames: every retry has sealed the same frame again. */
  predicate OneFramePerNumber(q: Party) {
    forall j, k | 0 <= j < k < |q.sealed| && k < |q.numbers| && q.numbers[j] == q.numbers[k] ::
      q.sealed[j] == q.sealed[k]
  }

  /** The same for the numbers from one on and below another. */
  predicate OneFrameBetween(q: Party, from: nat, to: nat) {
    forall j, k | 0 <= j < k < |q.sealed| && k < |q.numbers| && from <= q.numbers[j] == q.numbers[k] < to ::
      q.sealed[j] == q.sealed[k]
  }

  /** What was sealed first under each number: the sealed frames with the repeats of numbers dropped. */
  function Firsts(sealed: seq<Frame>, numbers: seq<nat>): seq<Frame>
    requires |sealed| == |numbers|
  {
    if numbers == [] then []
    else
      var n := |numbers| - 1;
      Firsts(sealed[..n], numbers[..n]) + if numbers[n] in numbers[..n] then [] else [sealed[n]]
  }

  /** What q has sealed, one frame for each number. */
  function InOrder(q: Party): seq<Frame> {
    if |q.sealed| == |q.numbers| then Firsts(q.sealed, q.numbers) else []
  }

  /** Numbers begin at 0, and each is the one before it or the next. */
  predicate Dense(numbers: seq<nat>) {
    && (numbers != [] ==> numbers[0] == 0)
    && forall k | 0 < k < |numbers| :: numbers[k - 1] <= numbers[k] <= numbers[k - 1] + 1
  }

  lemma NumbersAreDense(q: Party)
    requires HistorySane(q)
    ensures Dense(q.numbers)
  {
    forall k | 0 < k < |q.numbers| ensures q.numbers[k - 1] <= q.numbers[k] <= q.numbers[k - 1] + 1 {
      assert q.outcomes[..k][..k - 1] == q.outcomes[..k - 1];
    }
  }

  lemma {:induction false} DenseBound(numbers: seq<nat>, k: nat, last: nat)
    requires Dense(numbers) && k <= last < |numbers|
    ensures numbers[k] <= numbers[last]
    decreases last
  {
    if k < last {
      DenseBound(numbers, k, last - 1);
    }
  }

  /** f holds, at the position of each number used, the frame that came first under it, and nothing else. */
  predicate FirstAtItsNumber(f: seq<Frame>, sealed: seq<Frame>, numbers: seq<nat>) {
    && |sealed| == |numbers| && |f| == (if numbers == [] then 0 else numbers[|numbers| - 1] + 1)
    && forall k | 0 <= k < |numbers| :: numbers[k] < |f| && (numbers[k] !in numbers[..k] ==> f[numbers[k]] == sealed[k])
  }

  lemma {:induction false} FirstsAreFirst(sealed: seq<Frame>, numbers: seq<nat>)
    requires |sealed| == |numbers| && Dense(numbers)
    ensures FirstAtItsNumber(Firsts(sealed, numbers), sealed, numbers)
    decreases |numbers|
  {
    if numbers != [] {
      var n := |numbers| - 1;
      FirstsAreFirst(sealed[..n], numbers[..n]) by { assert Dense(numbers[..n]); }
      LastIsNew(numbers);
      hide Dense, FirstAtItsNumber;
      OneMore(Firsts(sealed[..n], numbers[..n]), sealed, numbers);
    }
  }

  lemma LastIsNew(numbers: seq<nat>)
    requires numbers != [] && Dense(numbers)
    ensures var n := |numbers| - 1;
            numbers[n] !in numbers[..n] <==> numbers[n] == if n == 0 then 0 else numbers[n - 1] + 1
    ensures var n := |numbers| - 1; numbers[n] in numbers[..n] ==> n > 0 && numbers[n] == numbers[n - 1]
  {
    var n := |numbers| - 1;
    forall k | 0 <= k < n ensures numbers[k] <= numbers[n - 1] {
      DenseBound(numbers, k, n - 1);
    }
    assert n > 0 ==> numbers[..n][n - 1] == numbers[n - 1];
  }

  lemma OneMore(f: seq<Frame>, sealed: seq<Frame>, numbers: seq<nat>)
    requires numbers != [] && |sealed| == |numbers|
    requires var n := |numbers| - 1;
             && FirstAtItsNumber(f, sealed[..n], numbers[..n])
             && (numbers[n] !in numbers[..n] <==> numbers[n] == if n == 0 then 0 else numbers[n - 1] + 1)
             && (numbers[n] in numbers[..n] ==> n > 0 && numbers[n] == numbers[n - 1])
    ensures var n := |numbers| - 1;
            FirstAtItsNumber(f + if numbers[n] in numbers[..n] then [] else [sealed[n]], sealed, numbers)
  {
    var n := |numbers| - 1;
    var g := if numbers[n] in numbers[..n] then [] else [sealed[n]];
    assert n > 0 ==> numbers[..n][n - 1] == numbers[n - 1];
    forall k | 0 <= k < |numbers|
      ensures numbers[k] < |f + g| && (numbers[k] !in numbers[..k] ==> (f + g)[numbers[k]] == sealed[k])
    {
      if k < n {
        assert numbers[..n][k] == numbers[k] && numbers[..n][..k] == numbers[..k] && sealed[..n][k] == sealed[k];
      }
    }
  }

  lemma {:induction false} FirstIndex(numbers: seq<nat>, k: nat) returns (j: nat)
    requires k < |numbers|
    ensures j <= k && numbers[j] == numbers[k] && numbers[j] !in numbers[..j]
    decreases k
  {
    if numbers[k] in numbers[..k] {
      var i :| 0 <= i < k && numbers[..k][i] == numbers[k];
      j := FirstIndex(numbers, i);
    } else {
      j := k;
    }
  }

  /** At each number used, the frame sealed first under it; whichever frame was sealed, there is that one. */
  lemma InOrderAt(q: Party, k: nat) returns (j: nat)
    requires HistorySane(q) && k < |q.numbers|
    ensures |q.numbers| == |q.sealed| && q.numbers[k] < |InOrder(q)|
    ensures j <= k && q.numbers[j] == q.numbers[k] && InOrder(q)[q.numbers[k]] == q.sealed[j]
  {
    NumbersAreDense(q);
    FirstsAreFirst(q.sealed, q.numbers);
    j := FirstIndex(q.numbers, k);
  }

  /**
   Against any network, the frames a channel has accepted are a prefix, type and payload, of the frames
   its one counterpart has sealed under its numbers, each taken once, if the counterpart has sealed one frame
   per number.
   */
  lemma AcceptedInOrder(steps: seq<Step>, p: nat, q: nat)
    requires HasChannel(Run(steps), p) && Counterpart(Run(steps), p, q) && OneFramePerNumber(Run(steps).parties[q])
    ensures Run(steps).parties[p].accepted <= InOrder(Run(steps).parties[q])
  {
    AcceptedWereSealed(steps, p, q);
    RunKeepsInv(steps);
    var s := Run(steps);
    PartySane(s, q);
    hide Run, Inv, HistorySane, InOrder;
    if s.parties[q].phase == Open {
      SealedInOrder(s.parties[p].accepted, s.parties[q], 0);
    } else {
      assert s.parties[p].accepted == [] by { NothingSealed(s.parties[p].accepted, s.parties[q]); }
    }
  }

  lemma NothingSealed(accepted: seq<Frame>, q: Party)
    requires q.sealed == [] && forall i: nat | i < |accepted| :: SealedUnder(q, i, accepted[i])
    ensures accepted == []
  {
    assert accepted != [] ==> SealedUnder(q, 0, accepted[0]);
  }

  /** From one position on, under numbers with one frame each, what is accepted is what was sealed first. */
  lemma SealedInOrder(accepted: seq<Frame>, q: Party, from: nat)
    requires HistorySane(q) && from <= |accepted|
    requires accepted[..from] <= InOrder(q)
    requires forall i: nat | i < |accepted| :: SealedUnder(q, i, accepted[i])
    requires OneFrameBetween(q, from, |accepted|)
    ensures accepted <= InOrder(q)
  {
    hide HistorySane, InOrder, SealedUnder;
    forall i: nat | i < |accepted| ensures i < |InOrder(q)| && InOrder(q)[i] == accepted[i] {
      FirstUnderItsNumber(accepted, q, from, i);
    }
    if accepted != [] {
      FirstUnderItsNumber(accepted, q, from, |accepted| - 1);
    }
  }

  lemma FirstUnderItsNumber(accepted: seq<Frame>, q: Party, from: nat, i: nat)
    requires HistorySane(q) && from <= |accepted| && i < |accepted|
    requires accepted[..from] <= InOrder(q)
    requires SealedUnder(q, i, accepted[i])
    requires OneFrameBetween(q, from, |accepted|)
    ensures i < |InOrder(q)| && InOrder(q)[i] == accepted[i]
  {
    hide HistorySane, InOrder;
    var k :| 0 <= k < |q.sealed| && k < |q.numbers| && q.numbers[k] == i && q.sealed[k] == accepted[i];
    var j := InOrderAt(q, k);
    assert i < from ==> accepted[..from][i] == accepted[i];
  }

  /** In particular a prefix of all that was sealed, if the counterpart has not sent after a failed send. */
  lemma AcceptedIsPrefixOfSealed(steps: seq<Step>, p: nat, q: nat)
    requires HasChannel(Run(steps), p) && Counterpart(Run(steps), p, q) && Disciplined(Run(steps).parties[q])
    ensures Run(steps).parties[p].accepted <= Run(steps).parties[q].sealed
  {
    RunKeepsInv(steps);
    PartySane(Run(steps), q);
    NumbersArePositions(Run(steps).parties[q]);
    AcceptedInOrder(steps, p, q);
  }

  lemma NumbersArePositions(p: Party)
    requires Sane(p) && Disciplined(p)
    ensures OneFramePerNumber(p) && InOrder(p) == p.sealed
  {
    if p.phase == Open {
      forall k | 0 <= k < |p.numbers| ensures p.numbers[k] == k {
        SuccessesBound(p.outcomes[..k]);
      }
      AllFirst(p.sealed, p.numbers);
    }
  }

  lemma {:induction false} AllFirst(sealed: seq<Frame>, numbers: seq<nat>)
    requires |sealed| == |numbers| && forall k | 0 <= k < |numbers| :: numbers[k] == k
    ensures Firsts(sealed, numbers) == sealed
    decreases |numbers|
  {
    if numbers != [] {
      var n := |numbers| - 1;
      AllFirst(sealed[..n], numbers[..n]);
      assert sealed == sealed[..n] + [sealed[n]];
    }
  }

  /** Nothing a run has sealed can be delivered back to it, nor to a run of its own side. */
  lemma NoReflection(steps: seq<Step>, p: nat, w: Frame, e: nat)
    requires Enabled(Run(steps), DeliverFrame(p, w, e))
    ensures Counterpart(Run(steps), p, Run(steps).log[e].owner)
  {
    var s := Run(steps);
    RunKeepsInv(steps);
    assert Sane(s.parties[p]) && SealingSane(s.parties, s.log[e]);
    var x, y := s.parties[p], s.parties[s.log[e].owner];
    assert Sane(y);
    KeysSeparate(x.secret, x.serverNonce, x.clientNonce, !x.serverSide, y.secret, y.serverNonce, y.clientNonce,
        y.serverSide);
  }

  /** Two runs with channels never seal under the same key. */
  lemma SendKeysDistinct(s: System, p: nat, q: nat)
    requires Inv(s) && HasChannel(s, p) && HasChannel(s, q)
    requires s.parties[p].channel.sendKey == s.parties[q].channel.sendKey
    ensures p == q
  {
    var x, y := s.parties[p], s.parties[q];
    assert Sane(x) && Sane(y);
    KeysSeparate(x.secret, x.serverNonce, x.clientNonce, x.serverSide, y.secret, y.serverNonce, y.clientNonce,
        y.serverSide);
  }

  /** The nonces of two encryptions under one key are equal exactly when every send from the one to the other failed. */
  lemma NoncesEqualExactly(steps: seq<Step>, j: nat, k: nat)
    requires j < k < |Run(steps).log| && Run(steps).log[j].record.key == Run(steps).log[k].record.key
    ensures var x, y, ps := Run(steps).log[j], Run(steps).log[k], Run(steps).parties;
            && x.owner == y.owner < |ps| && x.number < y.number < |ps[x.owner].outcomes|
            && (x.record.nonce == y.record.nonce <==> forall i | x.number <= i < y.number :: !ps[x.owner].outcomes[i])
  {
    RunKeepsInv(steps);
    var s := Run(steps);
    hide *;
    LogNonces(s, j, k);
  }

  lemma LogNonces(s: System, j: nat, k: nat)
    requires Inv(s) && j < k < |s.log| && s.log[j].record.key == s.log[k].record.key
    ensures var x, y, ps := s.log[j], s.log[k], s.parties;
            && x.owner == y.owner < |ps| && x.number < y.number < |ps[x.owner].outcomes|
            && (x.record.nonce == y.record.nonce <==> forall i | x.number <= i < y.number :: !ps[x.owner].outcomes[i])
  {
    hide PartiesSane, HistorySane, ProofSane;
    var x, y := s.log[j], s.log[k];
    assert SealingSane(s.parties, x) && SealingSane(s.parties, y);
    SendKeysDistinct(s, x.owner, y.owner);
    var p := s.parties[x.owner];
    PartySane(s, x.owner);
    SealedNumbers(p, x.number, y.number);
    if x.record.nonce == y.record.nonce {
      NonceInjective(p.channel.serverSide, p.numbers[x.number], p.channel.serverSide, p.numbers[y.number]);
    }
  }

  lemma SealedNumbers(p: Party, i: nat, j: nat)
    requires HistorySane(p) && i < j < |p.sealed|
    ensures |p.numbers| == |p.outcomes| == |p.sealed|
    ensures p.numbers[i] == p.numbers[j] <==> forall k | i <= k < j :: !p.outcomes[k]
  {
    SuccessesBetween(p.outcomes, i, j);
  }

  /** A run in which some channel is sent on after a failed send. */
  predicate SomebodySendsAfterFailure(s: System) {
    exists p | 0 <= p < |s.parties| :: !Disciplined(s.parties[p])
  }

  predicate ReusesNonce(s: System, j: int, k: int) {
    && 0 <= j < k < |s.log|
    && s.log[j].record.key == s.log[k].record.key && s.log[j].record.nonce == s.log[k].record.nonce
  }

  /**
   Section 8.2.1 of NIST SP 800-38D over a whole run: no two encryptions under one key share a nonce, if
   nobody sends on a channel after a failed send.
   */
  lemma NoNonceReuse(steps: seq<Step>, j: nat, k: nat)
    requires j < k < |Run(steps).log|
    requires Run(steps).log[j].record.key == Run(steps).log[k].record.key
    requires !SomebodySendsAfterFailure(Run(steps))
    ensures Run(steps).log[j].record.nonce != Run(steps).log[k].record.nonce
  {
    NoncesEqualExactly(steps, j, k);
    hide Run;
    var x := Run(steps).log[j];
    assert Disciplined(Run(steps).parties[x.owner]);
    assert Run(steps).parties[x.owner].outcomes[x.number];
  }

  /** Some two encryptions under one key share a nonce exactly when somebody sends after a failed send. */
  lemma NonceReuseExactly(steps: seq<Step>)
    ensures (exists j, k :: ReusesNonce(Run(steps), j, k)) <==> SomebodySendsAfterFailure(Run(steps))
  {
    if SomebodySendsAfterFailure(Run(steps)) {
      var p :| 0 <= p < |Run(steps).parties| && !Disciplined(Run(steps).parties[p]);
      var j, k := RetryReusesNonce(steps, p);
    } else {
      forall j, k ensures !ReusesNonce(Run(steps), j, k) {
        if 0 <= j < k < |Run(steps).log| && Run(steps).log[j].record.key == Run(steps).log[k].record.key {
          NoNonceReuse(steps, j, k);
        }
      }
    }
  }

  lemma RetryReusesNonce(steps: seq<Step>, p: nat) returns (j: nat, k: nat)
    requires p < |Run(steps).parties| && !Disciplined(Run(steps).parties[p])
    ensures ReusesNonce(Run(steps), j, k)
  {
    var s := Run(steps);
    RunKeepsInv(steps);
    PartySane(s, p);
    var i :| 0 <= i < |s.parties[p].outcomes| - 1 && !s.parties[p].outcomes[i];
    assert |s.parties[p].sealed| == |s.parties[p].outcomes|;
    j := EverySealingIsLogged(steps, p, i);
    k := EverySealingIsLogged(steps, p, i + 1);
    RetryShares(s, p, i, j, k);
  }

  lemma RetryShares(s: System, p: nat, i: nat, j: nat, k: nat)
    requires Inv(s) && j < |s.log| && k < |s.log|
    requires s.log[j].owner == s.log[k].owner == p && s.log[j].number == i && s.log[k].number == i + 1
    requires p < |s.parties| && i + 1 < |s.parties[p].outcomes| && !s.parties[p].outcomes[i]
    ensures ReusesNonce(s, j, k)
  {
    hide Inv, HistorySane, Nonce;
    RecordOf(s, j);
    RecordOf(s, k);
    EntriesInOrder(s, j, k);
    SealedNumbers(s.parties[p], i, i + 1);
  }

  /** The key and the nonce of an entry of the log. */
  lemma RecordOf(s: System, j: nat)
    requires Inv(s) && j < |s.log|
    ensures var e := s.log[j];
            && e.owner < |s.parties|
            && var p := s.parties[e.owner];
            && HistorySane(p) && e.number < |p.sealed| == |p.numbers| && e.record.key == p.channel.sendKey
            && e.record.nonce == Nonce(p.channel.serverSide, p.numbers[e.number])
  {
    hide PartiesSane, ProofSane, HistorySane, Nonce, Header;
    assert SealingSane(s.parties, s.log[j]);
    PartySane(s, s.log[j].owner);
  }

  lemma EntriesInOrder(s: System, j: nat, k: nat)
    requires Inv(s) && j < |s.log| && k < |s.log| && s.log[j].owner == s.log[k].owner &&
              s.log[j].number < s.log[k].number
    ensures j < k
  {
    hide PartiesSane, ProofSane, SealingSane;
  }

  /** The log has an entry for every sealing. */
  lemma {:induction false} EverySealingIsLogged(steps: seq<Step>, p: nat, k: nat) returns (e: nat)
    requires p < |Run(steps).parties| && k < |Run(steps).parties[p].sealed|
    ensures e < |Run(steps).log| && Run(steps).log[e].owner == p && Run(steps).log[e].number == k
  {
    var before := Run(steps[..|steps| - 1]);
    var step := steps[|steps| - 1];
    SealedBefore(before, step, p, k);
    if p < |before.parties| && k < |before.parties[p].sealed| {
      e := EverySealingIsLogged(steps[..|steps| - 1], p, k);
    } else {
      e := |before.log|;
    }
  }

  lemma SealedBefore(s: System, step: Step, p: nat, k: nat)
    requires p < |Next(s, step).parties| && k < |Next(s, step).parties[p].sealed|
    ensures s.log <= Next(s, step).log
    ensures (p < |s.parties| && k < |s.parties[p].sealed|)
         || (|Next(s, step).log| == |s.log| + 1 && Next(s, step).log[|s.log|].owner == p &&
             Next(s, step).log[|s.log|].number == k)
  {
  }

  /**
   Pairing secrets are single-use: if no secret is handed to two `handleClient` runs, it yields at most one
   phone channel.
  */
  lemma SecretYieldsOneSession(steps: seq<Step>, p: nat, q: nat)
    requires HasChannel(Run(steps), p) && HasChannel(Run(steps), q)
    requires var ps := Run(steps).parties;
             !ps[p].serverSide && !ps[q].serverSide && ps[p].secret == ps[q].secret
    requires forall i, j {:trigger Run(steps).parties[i], Run(steps).parties[j]} | 0 <= i < j < |Run(steps).parties| ::
               Run(steps).parties[i].serverSide && Run(steps).parties[j].serverSide ==>
                 Run(steps).parties[i].secret != Run(steps).parties[j].secret
    ensures p == q
  {
    var i := HandshakeAgreement(steps, p);
    var j := HandshakeAgreement(steps, q);
    var ps := Run(steps).parties;
    assert i == j by {
      assert ps[i].secret == ps[j].secret && ps[i].serverSide && ps[j].serverSide;
    }
    RunKeepsInv(steps);
    assert Sane(ps[p]) && Sane(ps[q]) && Sane(ps[i]);
    CounterpartUnique(ps, i, p, q);
  }

  // ---------------------------------------------------------------- the steps and the methods

  function Records(log: seq<Sealing>): seq<SealRecord> {
    seq(|log|, k requires 0 <= k < |log| => log[k].record)
  }

  /** The two effects that Send can have on a channel and the log are exactly those of the machine's Send steps. */
  lemma SendIsTheStep(s: System, i: nat, f: Frame, ok: bool, c': Channel, log': seq<SealRecord>)
    requires HasChannel(s, i)
    requires SendEffect(s.parties[i].channel, Limit(s.parties[i]), f, ok, c', Records(s.log), log')
    ensures if Sendable(s.parties[i].channel, Limit(s.parties[i]), f) then
              var step := Send(i, f, log'[|s.log|].ciphertext, ok);
              var t := Next(s, step);
              Enabled(s, step) && t.parties[i].channel == c' && Records(t.log) == log'
            else
              && !ok && c' == s.parties[i].channel && log' == Records(s.log)
              && forall ct, sent :: !Enabled(s, Send(i, f, ct, sent))
  {
    hide Nonce, Header;
    var c := s.parties[i].channel;
    if Sendable(c, Limit(s.parties[i]), f) {
      var record := log'[|s.log|];
      assert record == SealedBy(s.parties[i], f, record.ciphertext);
      assert log' == Records(s.log) + [record];
    }
  }

  /** Whatever a Send step does, the method can do. */
  lemma SendStepIsTheMethod(s: System, i: nat, f: Frame, ciphertext: Bytes, sent: bool)
    requires Enabled(s, Send(i, f, ciphertext, sent))
    ensures var t := Next(s, Send(i, f, ciphertext, sent));
            SendEffect(s.parties[i].channel, Limit(s.parties[i]), f, sent,
                       t.parties[i].channel, Records(s.log), Records(t.log))
  {
    hide Nonce, Header;
    var t := Next(s, Send(i, f, ciphertext, sent));
    assert Records(t.log)[..|s.log|] == Records(s.log);
  }

  /** What Receive makes of a carrier is what some DeliverFrame step makes of it, or no such step is possible. */
  lemma ReceiveIsTheStep(s: System, i: nat, w: Frame, f: Option<Frame>, c': Channel)
    requires HasChannel(s, i)
    requires ReceiveEffect(s.parties[i].channel, Limit(s.parties[i]), Some(w), f, c', Records(s.log))
    ensures f.Some? ==>
              exists e: nat :: Enabled(s, DeliverFrame(i, w, e))
                               && Next(s, DeliverFrame(i, w, e)).parties[i] == Received(s.parties[i], f.value)
    ensures f.Some? ==> Received(s.parties[i], f.value).channel == c'
    ensures f.None? ==> c' == s.parties[i].channel && forall e :: !Enabled(s, DeliverFrame(i, w, e))
  {
    hide Opens;
    var c, limit := s.parties[i].channel, Limit(s.parties[i]);
    if f.Some? {
      var r :| r in Records(s.log) && Opens(c, limit, w, r) && f.value == Frame(w.kind, r.plaintext);
      var e: nat :| e < |s.log| && Records(s.log)[e] == r;
      assert Enabled(s, DeliverFrame(i, w, e));
    } else {
      forall e: nat ensures !Enabled(s, DeliverFrame(i, w, e)) {
        if e < |s.log| {
          assert Records(s.log)[e] == s.log[e].record;
          assert s.log[e].record in Records(s.log);
        }
      }
    }
  }
}
