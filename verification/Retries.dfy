/**
 Sending again after a failed send: runs in which it happens, and exactly when the receiver still accepts what
 was sealed, one frame for each number and in the order of the numbers.
 */
module Retries {
  import opened Octets
  import opened Wire
  import opened SecureChannel
  import opened Protocol

  lemma RunMore(steps: seq<Step>, step: Step)
    ensures Run(steps + [step]) == Next(Run(steps), step)
  {
    assert (steps + [step])[..|steps|] == steps;
  }

  // ---------------------------------------------------------------- delivering what was sealed

  /** Steps in which the network delivers frames to p, and nothing else happens. */
  predicate DeliveriesTo(p: nat, ds: seq<Step>) {
    forall i | 0 <= i < |ds| :: ds[i].DeliverFrame? && ds[i].p == p
  }

  /** What deliveries to p leave as it was, and that they only add to what p has accepted. */
  predicate Grown(s: System, t: System, p: nat, q: nat)
    requires p < |s.parties| && q < |s.parties|
  {
    && |t.parties| == |s.parties| && t.parties[q] == s.parties[q]
    && var x, y := s.parties[p], t.parties[p];
    && y.phase == x.phase && y.serverSide == x.serverSide && y.secret == x.secret
    && y.serverNonce == x.serverNonce && y.clientNonce == x.clientNonce && x.accepted <= y.accepted
  }

  lemma DeliveryGrows(s: System, p: nat, q: nat, step: Step)
    requires p < |s.parties| && q < |s.parties| && p != q && step.DeliverFrame? && step.p == p
    ensures Grown(s, Next(s, step), p, q)
  {
    hide Opens;
  }

  lemma {:induction false} DeliveriesGrow(steps: seq<Step>, ds: seq<Step>, p: nat, q: nat)
    requires p < |Run(steps).parties| && q < |Run(steps).parties| && p != q && DeliveriesTo(p, ds)
    ensures Grown(Run(steps), Run(steps + ds), p, q)
    decreases |ds|
  {
    hide Run, Next;
    if ds == [] {
      assert steps + ds == steps;
    } else {
      var init, last := ds[..|ds| - 1], ds[|ds| - 1];
      DeliveriesGrow(steps, init, p, q);
      assert steps + ds == steps + init + [last];
      RunMore(steps + init, last);
      DeliveryGrows(Run(steps + init), p, q, last);
    }
  }

  /** The frame that q sealed k-th can be delivered to p when p waits for its number. */
  lemma DeliverOne(steps: seq<Step>, p: nat, q: nat, k: nat) returns (step: Step)
    requires HasChannel(Run(steps), p) && HasChannel(Run(steps), q) && Counterpart(Run(steps), p, q)
    requires var x, y := Run(steps).parties[p], Run(steps).parties[q];
             k < |y.sealed| && k < |y.numbers| && y.numbers[k] == |x.accepted| < Limit(x)
    ensures step.DeliverFrame? && step.p == p && p < |Run(steps + [step]).parties|
    ensures var x, y := Run(steps).parties[p], Run(steps).parties[q];
            Run(steps + [step]).parties[p].accepted == x.accepted + [y.sealed[k]]
  {
    hide Run, Inv, Next, Sane, SealingSane;
    var s := Run(steps);
    var j := HandshakeAgreement(steps, p);
    RunKeepsInv(steps);
    var e := EverySealingIsLogged(steps, q, k);
    var w := CarrierOf(s.log[e].record, s.parties[q].sealed[k], s.parties[q].numbers[k]);
    step := DeliverFrame(p, w, e);
    EntrySane(s, p, q, e);
    CarrierIsAccepted(s.parties[p], s.parties[q], k, s.parties, s.log[e]);
    Delivered(s, p, w, e);
    RunMore(steps, step);
  }

  lemma EntrySane(s: System, p: nat, q: nat, e: nat)
    requires Inv(s) && p < |s.parties| && q < |s.parties| && e < |s.log|
    ensures Sane(s.parties[p]) && Sane(s.parties[q]) && SealingSane(s.parties, s.log[e])
  {
    hide Sane, SealingSane, ProofSane, Linked;
  }

  function CarrierOf(r: SealRecord, f: Frame, number: nat): Frame {
    Carrier(f.kind, number, r.ciphertext)
  }

  lemma CarrierIsAccepted(x: Party, y: Party, k: nat, ps: seq<Party>, entry: Sealing)
    requires Sane(x) && Sane(y) && x.phase == y.phase == Open && x.serverSide != y.serverSide
    requires y.channel.sendKey == x.channel.receiveKey
    requires k < |y.sealed| && k < |y.numbers| && y.numbers[k] == |x.accepted| < Limit(x)
    requires SealingSane(ps, entry) && ps[entry.owner] == y && entry.number == k
    ensures var w := CarrierOf(entry.record, y.sealed[k], y.numbers[k]);
            Opens(x.channel, Limit(x), w, entry.record) && Frame(w.kind, entry.record.plaintext) == y.sealed[k]
  {
    hide HistorySane, Header, Nonce;
    CarrierOpens(y.channel.(sendSequence := y.numbers[k]), x.channel, Limit(x), y.sealed[k], entry.record);
  }

  lemma Delivered(s: System, p: nat, w: Frame, e: nat)
    requires HasChannel(s, p) && e < |s.log| && Opens(s.parties[p].channel, Limit(s.parties[p]), w, s.log[e].record)
    ensures p < |Next(s, DeliverFrame(p, w, e)).parties|
    ensures Next(s, DeliverFrame(p, w, e)).parties[p].accepted
         == s.parties[p].accepted + [Frame(w.kind, s.log[e].record.plaintext)]
  {
    hide Opens;
  }

  /** Below each number that has been used, all numbers have been used before. */
  lemma {:induction false} EarlierNumber(q: Party, k: nat) returns (j: nat)
    requires HistorySane(q) && k < |q.numbers| && q.numbers[k] > 0
    ensures j < k && q.numbers[j] == q.numbers[k] - 1
    decreases k
  {
    assert k > 0 && q.outcomes[..k][..k - 1] == q.outcomes[..k - 1];
    if q.outcomes[k - 1] {
      j := k - 1;
    } else {
      j := EarlierNumber(q, k - 1);
    }
  }

  /** Whichever frame q sealed under a number not yet accepted, the network can make p accept it under that number. */
  lemma {:induction false} DeliverUpTo(steps: seq<Step>, p: nat, q: nat, k: nat) returns (ds: seq<Step>)
    requires HasChannel(Run(steps), p) && HasChannel(Run(steps), q) && Counterpart(Run(steps), p, q)
    requires var x, y := Run(steps).parties[p], Run(steps).parties[q];
             k < |y.sealed| && k < |y.numbers| && |x.accepted| <= y.numbers[k] < Limit(x)
    ensures DeliveriesTo(p, ds) && p < |Run(steps + ds).parties|
    ensures var y, accepted := Run(steps).parties[q], Run(steps + ds).parties[p].accepted;
            |accepted| == y.numbers[k] + 1 && accepted[y.numbers[k]] == y.sealed[k]
    decreases Run(steps).parties[q].numbers[k]
  {
    hide Run, HistorySane, Next, SamePair, Grown;
    var x, y := Run(steps).parties[p], Run(steps).parties[q];
    if |x.accepted| == y.numbers[k] {
      var step := DeliverOne(steps, p, q, k);
      ds := [step];
    } else {
      var j := PreviousNumber(steps, q, k);
      var before := DeliverUpTo(steps, p, q, j);
      CounterpartsDiffer(Run(steps), p, q);
      DeliveriesGrow(steps, before, p, q);
      GrownStays(Run(steps), Run(steps + before), p, q);
      var step := DeliverOne(steps + before, p, q, k);
      ds := before + [step];
      assert steps + ds == steps + before + [step];
    }
  }

  lemma CounterpartsDiffer(s: System, p: nat, q: nat)
    requires Counterpart(s, p, q)
    ensures p != q
  {
  }

  lemma PreviousNumber(steps: seq<Step>, q: nat, k: nat) returns (j: nat)
    requires HasChannel(Run(steps), q)
    requires var y := Run(steps).parties[q]; k < |y.numbers| && y.numbers[k] > 0
    ensures var y := Run(steps).parties[q];
            j < k && |y.numbers| == |y.sealed| && y.numbers[j] == y.numbers[k] - 1
  {
    hide Run, HistorySane, PartiesSane;
    RunKeepsInv(steps);
    PartySane(Run(steps), q);
    HistorySizes(Run(steps).parties[q]);
    j := EarlierNumber(Run(steps).parties[q], k);
  }

  lemma GrownStays(s: System, t: System, p: nat, q: nat)
    requires HasChannel(s, p) && HasChannel(s, q) && Counterpart(s, p, q) && Grown(s, t, p, q)
    ensures HasChannel(t, p) && HasChannel(t, q) && Counterpart(t, p, q)
    ensures t.parties[q] == s.parties[q] && Limit(t.parties[p]) == Limit(s.parties[p])
  {
  }

  // ---------------------------------------------------------------- the exact condition

  /** What p has accepted is what q has sealed under the numbers from 0 on, one frame for each number. */
  predicate IsInOrder(s: System, p: nat, q: nat) {
    p < |s.parties| && q < |s.parties| && s.parties[p].accepted <= InOrder(s.parties[q])
  }

  /** Under each number x still waits for, y has sealed one frame, however often. */
  predicate OneFrameAwaited(x: Party, y: Party) {
    OneFrameBetween(y, |x.accepted|, Limit(x))
  }

  /**
   Whatever is delivered to p from now on, p accepts what q has sealed, once for each number and in order:
   exactly if it has so far, and no retry has sealed another frame under a number p still waits for.
   */
  lemma InOrderStaysExactly(steps: seq<Step>, p: nat, q: nat)
    requires HasChannel(Run(steps), p) && Counterpart(Run(steps), p, q)
    ensures (forall ds | DeliveriesTo(p, ds) :: IsInOrder(Run(steps + ds), p, q))
       <==> IsInOrder(Run(steps), p, q) && OneFrameAwaited(Run(steps).parties[p], Run(steps).parties[q])
  {
    hide Run, DeliveriesTo, IsInOrder, OneFrameAwaited;
    assert steps + [] == steps && DeliveriesTo(p, []) by { NoDeliveries(p); }
    if !HasChannel(Run(steps), q) {
      forall ds | DeliveriesTo(p, ds)
        ensures IsInOrder(Run(steps + ds), p, q) && OneFrameAwaited(Run(steps).parties[p], Run(steps).parties[q])
      {
        NothingIsInOrder(steps, ds, p, q);
      }
      assert IsInOrder(Run(steps + []), p, q);
    } else {
      if IsInOrder(Run(steps), p, q) && OneFrameAwaited(Run(steps).parties[p], Run(steps).parties[q]) {
        forall ds | DeliveriesTo(p, ds) ensures IsInOrder(Run(steps + ds), p, q) {
          AwaitedStayInOrder(steps, ds, p, q);
        }
      }
      if forall ds | DeliveriesTo(p, ds) :: IsInOrder(Run(steps + ds), p, q) {
        assert IsInOrder(Run(steps + []), p, q);
        AlwaysInOrder(steps, p, q);
      }
    }
  }

  /** A counterpart without a channel has sealed nothing, and nothing is accepted. */
  lemma NothingIsInOrder(steps: seq<Step>, ds: seq<Step>, p: nat, q: nat)
    requires HasChannel(Run(steps), p) && !HasChannel(Run(steps), q) && Counterpart(Run(steps), p, q)
    requires DeliveriesTo(p, ds)
    ensures IsInOrder(Run(steps + ds), p, q) && OneFrameAwaited(Run(steps).parties[p], Run(steps).parties[q])
  {
    hide Run, DeliveriesTo, HistorySane, InOrder, SealedUnder, Inv;
    CounterpartsDiffer(Run(steps), p, q);
    DeliveriesGrow(steps, ds, p, q);
    AcceptedWereSealed(steps + ds, p, q);
    RunKeepsInv(steps);
    QuietParty(Run(steps), q);
    NothingSealed(Run(steps + ds).parties[p].accepted, Run(steps).parties[q]);
  }

  lemma QuietParty(s: System, q: nat)
    requires Inv(s) && q < |s.parties| && !HasChannel(s, q)
    ensures s.parties[q].sealed == []
  {
    hide HistorySane, SealingSane, ProofSane, Linked;
  }

  lemma AlwaysInOrder(steps: seq<Step>, p: nat, q: nat)
    requires HasChannel(Run(steps), p) && HasChannel(Run(steps), q) && Counterpart(Run(steps), p, q)
    requires forall ds | DeliveriesTo(p, ds) :: IsInOrder(Run(steps + ds), p, q)
    ensures OneFrameAwaited(Run(steps).parties[p], Run(steps).parties[q])
  {
    hide Run, DeliveriesTo, InOrder, HistorySane;
    var x, y := Run(steps).parties[p], Run(steps).parties[q];
    forall j, k
      | 0 <= j < k < |y.sealed| && k < |y.numbers| && |x.accepted| <= y.numbers[j] == y.numbers[k] < Limit(x)
      ensures y.sealed[j] == y.sealed[k]
    {
      AlwaysFirst(steps, p, q, j);
      AlwaysFirst(steps, p, q, k);
    }
  }

  lemma AlwaysFirst(steps: seq<Step>, p: nat, q: nat, k: nat)
    requires HasChannel(Run(steps), p) && HasChannel(Run(steps), q) && Counterpart(Run(steps), p, q)
    requires forall ds | DeliveriesTo(p, ds) :: IsInOrder(Run(steps + ds), p, q)
    requires var x, y := Run(steps).parties[p], Run(steps).parties[q];
             k < |y.sealed| && k < |y.numbers| && |x.accepted| <= y.numbers[k] < Limit(x)
    ensures var y := Run(steps).parties[q];
            y.numbers[k] < |InOrder(y)| && InOrder(y)[y.numbers[k]] == y.sealed[k]
  {
    hide Run, DeliveriesTo, InOrder, HasChannel, SamePair;
    var ds := DeliverUpTo(steps, p, q, k);
    CounterpartsDiffer(Run(steps), p, q);
    DeliveriesGrow(steps, ds, p, q);
    assert IsInOrder(Run(steps + ds), p, q);
  }

  lemma AwaitedStayInOrder(steps: seq<Step>, ds: seq<Step>, p: nat, q: nat)
    requires HasChannel(Run(steps), p) && HasChannel(Run(steps), q) && Counterpart(Run(steps), p, q)
    requires IsInOrder(Run(steps), p, q) && OneFrameAwaited(Run(steps).parties[p], Run(steps).parties[q])
    requires DeliveriesTo(p, ds)
    ensures IsInOrder(Run(steps + ds), p, q)
  {
    hide Run, DeliveriesTo, HistorySane, InOrder, SealedUnder, SamePair;
    CounterpartsDiffer(Run(steps), p, q);
    DeliveriesGrow(steps, ds, p, q);
    GrownStays(Run(steps), Run(steps + ds), p, q);
    AcceptedWereSealed(steps + ds, p, q);
    RunKeepsInv(steps + ds);
    PartySane(Run(steps + ds), p);
    PartySane(Run(steps + ds), q);
    var x, x' := Run(steps).parties[p], Run(steps + ds).parties[p];
    assert x'.accepted[..|x.accepted|] == x.accepted;
    SealedInOrder(x'.accepted, Run(steps).parties[q], |x.accepted|);
  }

  // ---------------------------------------------------------------- all that was sealed, with its repeats

  predicate IsPrefix(s: System, p: nat, q: nat) {
    p < |s.parties| && q < |s.parties| && s.parties[p].accepted <= s.parties[q].sealed
  }

  /** What x has accepted fits, and each frame under a number x waits for equals the one sealed at that position. */
  predicate PrefixSafe(x: Party, y: Party) {
    && x.accepted <= y.sealed
    && forall k | 0 <= k < |y.sealed| && k < |y.numbers| && |x.accepted| <= y.numbers[k] < Limit(x) ::
         y.numbers[k] <= k && y.sealed[k] == y.sealed[y.numbers[k]]
  }

  /**
   Whatever is delivered to p from now on, p accepts a prefix of all q has sealed, repeats included: exactly if
   it has so far, and every frame under a number still to come is the one sealed at the position of its number.
   After a repeat that asks more than sealing the same frame again, since the positions run ahead of the numbers.
   */
  lemma PrefixStaysExactly(steps: seq<Step>, p: nat, q: nat)
    requires HasChannel(Run(steps), p) && HasChannel(Run(steps), q) && Counterpart(Run(steps), p, q)
    ensures (forall ds | DeliveriesTo(p, ds) :: IsPrefix(Run(steps + ds), p, q))
       <==> PrefixSafe(Run(steps).parties[p], Run(steps).parties[q])
  {
    hide Run, DeliveriesTo, HistorySane;
    var x, y := Run(steps).parties[p], Run(steps).parties[q];
    if PrefixSafe(x, y) {
      forall ds | DeliveriesTo(p, ds) ensures IsPrefix(Run(steps + ds), p, q) {
        SafeStaysPrefix(steps, ds, p, q);
      }
    }
    if forall ds | DeliveriesTo(p, ds) :: IsPrefix(Run(steps + ds), p, q) {
      assert steps + [] == steps && DeliveriesTo(p, []) by { NoDeliveries(p); }
      assert IsPrefix(Run(steps + []), p, q);
      RunKeepsInv(steps);
      PartySane(Run(steps), q);
      forall k | 0 <= k < |y.sealed| && k < |y.numbers| && |x.accepted| <= y.numbers[k] < Limit(x)
        ensures y.numbers[k] <= k && y.sealed[k] == y.sealed[y.numbers[k]]
      {
        NumberBound(y, k);
        var ds := DeliverUpTo(steps, p, q, k);
        DeliveriesGrow(steps, ds, p, q);
        assert IsPrefix(Run(steps + ds), p, q);
      }
    }
  }

  lemma NoDeliveries(p: nat)
    ensures DeliveriesTo(p, [])
  {
  }

  lemma NumberBound(q: Party, k: nat)
    requires HistorySane(q) && k < |q.numbers|
    ensures q.numbers[k] <= k
  {
    SuccessesBound(q.outcomes[..k]);
  }

  lemma SafeStaysPrefix(steps: seq<Step>, ds: seq<Step>, p: nat, q: nat)
    requires HasChannel(Run(steps), p) && HasChannel(Run(steps), q) && Counterpart(Run(steps), p, q)
    requires DeliveriesTo(p, ds) && PrefixSafe(Run(steps).parties[p], Run(steps).parties[q])
    ensures IsPrefix(Run(steps + ds), p, q)
  {
    hide Run, DeliveriesTo, HistorySane, SealedUnder;
    DeliveriesGrow(steps, ds, p, q);
    AcceptedWereSealed(steps + ds, p, q);
    RunKeepsInv(steps + ds);
    PartySane(Run(steps + ds), p);
    StillPrefix(Run(steps).parties[p], Run(steps + ds).parties[p], Run(steps).parties[q]);
  }

  lemma StillPrefix(x: Party, x': Party, y: Party)
    requires PrefixSafe(x, y) && x.accepted <= x'.accepted && |x'.accepted| <= Limit(x)
    requires forall i: nat | i < |x'.accepted| :: SealedUnder(y, i, x'.accepted[i])
    ensures x'.accepted <= y.sealed
  {
    forall i: nat | i < |x'.accepted| ensures i < |y.sealed| && x'.accepted[i] == y.sealed[i] {
      assert SealedUnder(y, i, x'.accepted[i]);
      if i < |x.accepted| {
        assert x.accepted[i] == y.sealed[i];
      }
    }
    if x'.accepted != [] {
      assert SealedUnder(y, |x'.accepted| - 1, x'.accepted[|x'.accepted| - 1]);
    }
  }

  /** What a sender can see to before each send: all it has sealed under the next number must be that frame. */
  lemma OneFrameKeptExactly(q: Party, f: Frame, sent: bool)
    requires HistorySane(q) && OneFramePerNumber(q)
    ensures OneFramePerNumber(Sent(q, f, sent)) <==>
              forall k | 0 <= k < |q.sealed| && k < |q.numbers| && q.numbers[k] == q.channel.sendSequence ::
                q.sealed[k] == f
  {
    var r, n := Sent(q, f, sent), |q.sealed|;
    assert forall k | 0 <= k < n :: r.sealed[k] == q.sealed[k] && r.numbers[k] == q.numbers[k];
    assert r.sealed[n] == f && r.numbers[n] == q.channel.sendSequence;
  }

  // ---------------------------------------------------------------- runs in which it happens

  /** A handshake in which everything is delivered. */
  function Opening(secret: nat, serverNonce: Bytes, clientNonce: Bytes): seq<Step> {
    [StartServer(secret, serverNonce), StartClient(secret), DeliverHello(1, serverNonce, clientNonce),
     DeliverClientProof(0, clientNonce, Replay(0), false, true), DeliverServerProof(1, Replay(1))]
  }

  function OpenServer(secret: nat, serverNonce: Bytes, clientNonce: Bytes): Party {
    AfterClientProof(NewParty(true, secret, serverNonce), clientNonce, Some(1), false, true)
  }

  function OpenClient(secret: nat, serverNonce: Bytes, clientNonce: Bytes): Party {
    AfterServerProof(AfterHello(NewParty(false, secret, []), serverNonce, clientNonce), Some(0))
  }

  function Proofs(secret: nat, serverNonce: Bytes, clientNonce: Bytes): seq<Proof> {
    [Proof(1, secret, ProofInput(false, serverNonce, clientNonce)),
     Proof(0, secret, ProofInput(true, serverNonce, clientNonce))]
  }

  function Asked(secret: nat, serverNonce: Bytes, clientNonce: Bytes): Party {
    AfterHello(NewParty(false, secret, []), serverNonce, clientNonce)
  }

  lemma Starting(secret: nat, serverNonce: Bytes)
    requires |serverNonce| == NONCE_SIZE
    ensures Run([StartServer(secret, serverNonce), StartClient(secret)]) ==
              System([NewParty(true, secret, serverNonce), NewParty(false, secret, [])], [], [])
  {
    var first := StartServer(secret, serverNonce);
    assert [] + [first] == [first] && [first] + [StartClient(secret)] == [first, StartClient(secret)];
    RunMore([], first);
    RunMore([first], StartClient(secret));
  }

  lemma HelloArrives(secret: nat, serverNonce: Bytes, clientNonce: Bytes)
    requires |serverNonce| == |clientNonce| == NONCE_SIZE
    ensures Next(System([NewParty(true, secret, serverNonce), NewParty(false, secret, [])], [], []),
                 DeliverHello(1, serverNonce, clientNonce))
         == System([NewParty(true, secret, serverNonce), Asked(secret, serverNonce, clientNonce)],
                   Proofs(secret, serverNonce, clientNonce)[..1], [])
  {
    hide ProofInput;
  }

  lemma ClientProofArrives(secret: nat, serverNonce: Bytes, clientNonce: Bytes)
    requires |serverNonce| == |clientNonce| == NONCE_SIZE
    ensures Next(System([NewParty(true, secret, serverNonce), Asked(secret, serverNonce, clientNonce)],
                        Proofs(secret, serverNonce, clientNonce)[..1], []),
                 DeliverClientProof(0, clientNonce, Replay(0), false, true))
         == System([OpenServer(secret, serverNonce, clientNonce), Asked(secret, serverNonce, clientNonce)],
                   Proofs(secret, serverNonce, clientNonce), [])
  {
    hide ProofInput;
  }

  lemma ServerProofArrives(secret: nat, serverNonce: Bytes, clientNonce: Bytes)
    ensures Next(System([OpenServer(secret, serverNonce, clientNonce), Asked(secret, serverNonce, clientNonce)],
                        Proofs(secret, serverNonce, clientNonce), []),
                 DeliverServerProof(1, Replay(1)))
         == Opened(secret, serverNonce, clientNonce)
  {
    hide ProofInput;
  }

  function Opened(secret: nat, serverNonce: Bytes, clientNonce: Bytes): System {
    System([OpenServer(secret, serverNonce, clientNonce), OpenClient(secret, serverNonce, clientNonce)],
           Proofs(secret, serverNonce, clientNonce), [])
  }

  /** After the handshake both ends hold channels, and they are each other's counterpart. */
  lemma OpeningOpens(secret: nat, serverNonce: Bytes, clientNonce: Bytes)
    requires |serverNonce| == |clientNonce| == NONCE_SIZE
    ensures var s := Run(Opening(secret, serverNonce, clientNonce));
            && s == Opened(secret, serverNonce, clientNonce)
            && HasChannel(s, 0) && HasChannel(s, 1) && Counterpart(s, 0, 1) && Counterpart(s, 1, 0)
  {
    var steps := Opening(secret, serverNonce, clientNonce);
    Starting(secret, serverNonce);
    HelloArrives(secret, serverNonce, clientNonce);
    ClientProofArrives(secret, serverNonce, clientNonce);
    ServerProofArrives(secret, serverNonce, clientNonce);
    OpenedIsOpen(secret, serverNonce, clientNonce);
    hide *;
    assert steps[..5] == steps by { OpeningSize(secret, serverNonce, clientNonce); }
    OpeningSize(secret, serverNonce, clientNonce);
    assert steps[..3] == steps[..2] + [steps[2]] && steps[..4] == steps[..3] + [steps[3]];
    assert steps[..5] == steps[..4] + [steps[4]];
    RunMore(steps[..2], steps[2]);
    RunMore(steps[..3], steps[3]);
    RunMore(steps[..4], steps[4]);
  }

  lemma OpeningSize(secret: nat, serverNonce: Bytes, clientNonce: Bytes)
    ensures var steps := Opening(secret, serverNonce, clientNonce);
            && |steps| == 5 && steps[..2] == [StartServer(secret, serverNonce), StartClient(secret)]
            && steps[2] == DeliverHello(1, serverNonce, clientNonce)
            && steps[3] == DeliverClientProof(0, clientNonce, Replay(0), false, true)
            && steps[4] == DeliverServerProof(1, Replay(1))
  {
  }

  lemma OpenedIsOpen(secret: nat, serverNonce: Bytes, clientNonce: Bytes)
    ensures var s := Opened(secret, serverNonce, clientNonce);
            HasChannel(s, 0) && HasChannel(s, 1) && Counterpart(s, 0, 1) && Counterpart(s, 1, 0)
  {
  }

  /** A frame that can be sealed, and octets that can be its ciphertext. */
  predicate Fits(f: Frame, ciphertext: Bytes) {
    |f.payload| + ENCRYPTED_OVERHEAD <= MAX_PAYLOAD && |ciphertext| == |f.payload| + GCM_TAG_SIZE
  }

  /** The handshake, then the phone sends f in vain, then g, and g is delivered. */
  function RetryRun(
    secret: nat, serverNonce: Bytes, clientNonce: Bytes, f: Frame, c: Bytes, g: Frame, d: Bytes): seq<Step>
  {
    Opening(secret, serverNonce, clientNonce) + [Send(1, f, c, false)] + [Send(1, g, d, true)]
    + [DeliverFrame(0, Carrier(g.kind, 0, d), 1)]
  }

  lemma OneSend(s: System, f: Frame, c: Bytes, sent: bool)
    requires HasChannel(s, 1) && Fits(f, c) && s.parties[1].channel.sendSequence <= 1
    ensures var client := s.parties[1];
            Next(s, Send(1, f, c, sent)) ==
              System(s.parties[1 := Sent(client, f, sent)], s.proofs,
                     s.log + [Sealing(1, |client.sealed|, SealedBy(client, f, c))])
  {
    hide Nonce, Header;
    assert Sendable(s.parties[1].channel, Limit(s.parties[1]), f);
  }

  lemma TwoSends(s: System, f: Frame, c: Bytes, g: Frame, d: Bytes)
    requires HasChannel(s, 1) && Fits(f, c) && Fits(g, d) && s.log == []
    requires s.parties[1].channel.sendSequence == 0
    requires s.parties[1].sealed == [] && s.parties[1].numbers == [] && s.parties[1].outcomes == []
    ensures var client := s.parties[1];
            var t := Next(Next(s, Send(1, f, c, false)), Send(1, g, d, true));
            && |t.parties| == |s.parties| && t.parties[0] == s.parties[0]
            && t.parties[1] == client.(sealed := [f, g], numbers := [0, 0], outcomes := [false, true],
                                       channel := client.channel.(sendSequence := 1))
            && t.log == [Sealing(1, 0, SealedBy(client, f, c)), Sealing(1, 1, SealedBy(client, g, d))]
  {
    hide Next, SealedBy, Sent;
    var client := s.parties[1];
    var t := Next(s, Send(1, f, c, false));
    SentTwice(client, f, g);
    OneSend(s, f, c, false);
    OneSend(t, g, d, true);
    hide *;
    SealedTheSame(client, f, g, d);
    assert s.parties[1 := Sent(client, f, false)][1 := t.parties[1]] == s.parties[1 := t.parties[1]];
    assert [] + [Sealing(1, 0, SealedBy(client, f, c))] == [Sealing(1, 0, SealedBy(client, f, c))];
  }

  lemma SentTwice(client: Party, f: Frame, g: Frame)
    requires client.channel.sendSequence == 0
    requires client.sealed == [] && client.numbers == [] && client.outcomes == []
    ensures |Sent(client, f, false).sealed| == 1 && Sent(client, f, false).channel.sendSequence == 0
    ensures Sent(client, f, false).phase == client.phase
    ensures Sent(Sent(client, f, false), g, true) ==
              client.(sealed := [f, g], numbers := [0, 0], outcomes := [false, true],
                      channel := client.channel.(sendSequence := 1))
  {
  }

  lemma SealedTheSame(client: Party, f: Frame, g: Frame, d: Bytes)
    requires Fits(g, d)
    ensures SealedBy(Sent(client, f, false), g, d) == SealedBy(client, g, d)
  {
    hide Nonce, Header;
  }

  lemma RetryArrives(s: System, g: Frame, d: Bytes, e: nat, sender: Party)
    requires HasChannel(s, 0) && Fits(g, d) && e < |s.log| && s.log[e].record == SealedBy(sender, g, d)
    requires s.parties[0].serverSide && s.parties[0].channel.serverSide && !sender.channel.serverSide
    requires sender.channel.sendKey == s.parties[0].channel.receiveKey
    requires sender.channel.sendSequence == s.parties[0].channel.receiveSequence == 0
    ensures Next(s, DeliverFrame(0, Carrier(g.kind, 0, d), e)) == Update(s, 0, Received(s.parties[0], g))
  {
    hide Nonce, Header;
    CarrierOpens(sender.channel, s.parties[0].channel, Limit(s.parties[0]), g, SealedBy(sender, g, d));
    assert |Carrier(g.kind, 0, d).payload| == |g.payload| + ENCRYPTED_OVERHEAD;
  }

  /**
   For any two frames there is a run in which the phone sends after a failed send: both ends hold channels,
   the phone has sealed f and g under one key and nonce, and the controller has accepted g as its first frame.
   So what is accepted is a prefix of what is sealed only if g is f again.
   */
  lemma RetryRunExists(
    secret: nat, serverNonce: Bytes, clientNonce: Bytes, f: Frame, c: Bytes, g: Frame, d: Bytes)
    requires |serverNonce| == |clientNonce| == NONCE_SIZE && Fits(f, c) && Fits(g, d)
    ensures var s := Run(RetryRun(secret, serverNonce, clientNonce, f, c, g, d));
            && HasChannel(s, 0) && HasChannel(s, 1) && Counterpart(s, 0, 1)
            && SomebodySendsAfterFailure(s) && ReusesNonce(s, 0, 1)
            && s.parties[1].sealed == [f, g] && s.parties[0].accepted == [g]
            && (IsPrefix(s, 0, 1) <==> f == g)
  {
    var s := Opened(secret, serverNonce, clientNonce);
    OpeningOpens(secret, serverNonce, clientNonce);
    OpenedChannels(secret, serverNonce, clientNonce);
    TwoSends(s, f, c, g, d);
    var t := Next(Next(s, Send(1, f, c, false)), Send(1, g, d, true));
    RetryArrives(t, g, d, 1, s.parties[1]);
    RetryRunIs(secret, serverNonce, clientNonce, f, c, g, d);
    hide Run, Next, Opened, RetryRun, Nonce, Header;
    RetryShows(t, Update(t, 0, Received(t.parties[0], g)), f, g, s.parties[1], c, d);
  }

  lemma OpenedChannels(secret: nat, serverNonce: Bytes, clientNonce: Bytes)
    ensures var s := Opened(secret, serverNonce, clientNonce);
            var server, client := s.parties[0], s.parties[1];
            && server.serverSide && server.channel.serverSide && !client.channel.serverSide
            && client.channel.sendKey == server.channel.receiveKey
            && client.channel.sendSequence == server.channel.receiveSequence == 0
            && client.sealed == [] && client.numbers == [] && client.outcomes == []
            && server.accepted == [] && s.log == []
  {
  }

  lemma RetryRunIs(secret: nat, serverNonce: Bytes, clientNonce: Bytes, f: Frame, c: Bytes, g: Frame, d: Bytes)
    requires |serverNonce| == |clientNonce| == NONCE_SIZE
    ensures var t := Next(Next(Opened(secret, serverNonce, clientNonce), Send(1, f, c, false)), Send(1, g, d, true));
            Run(RetryRun(secret, serverNonce, clientNonce, f, c, g, d))
              == Next(t, DeliverFrame(0, Carrier(g.kind, 0, d), 1))
  {
    OpeningOpens(secret, serverNonce, clientNonce);
    hide Run, Next, Opening, Opened;
    var steps := Opening(secret, serverNonce, clientNonce);
    RunMore(steps, Send(1, f, c, false));
    RunMore(steps + [Send(1, f, c, false)], Send(1, g, d, true));
    RunMore(steps + [Send(1, f, c, false)] + [Send(1, g, d, true)], DeliverFrame(0, Carrier(g.kind, 0, d), 1));
  }

  lemma RetryShows(t: System, s: System, f: Frame, g: Frame, client: Party, c: Bytes, d: Bytes)
    requires HasChannel(t, 0) && HasChannel(t, 1) && Counterpart(t, 0, 1) && Fits(f, c) && Fits(g, d)
    requires t.parties[0].accepted == [] && t.parties[1].sealed == [f, g] && t.parties[1].outcomes == [false, true]
    requires t.log == [Sealing(1, 0, SealedBy(client, f, c)), Sealing(1, 1, SealedBy(client, g, d))]
    requires s == Update(t, 0, Received(t.parties[0], g))
    ensures HasChannel(s, 0) && HasChannel(s, 1) && Counterpart(s, 0, 1)
    ensures SomebodySendsAfterFailure(s) && ReusesNonce(s, 0, 1)
    ensures s.parties[1].sealed == [f, g] && s.parties[0].accepted == [g]
    ensures IsPrefix(s, 0, 1) <==> f == g
  {
    hide Nonce, Header;
    assert !s.parties[1].outcomes[0] && !Disciplined(s.parties[1]);
    assert s.parties[0].accepted == [g] && s.parties[1].sealed == [f, g];
    PrefixOfTwo(f, g);
  }

  lemma PrefixOfTwo(f: Frame, g: Frame)
    ensures [g] <= [f, g] <==> f == g
  {
    assert [f, g][..1] == [f] && [f][0] == f && [g][0] == g;
  }

  /** The handshake, then the phone sends f in vain, sends f again, and sends g. */
  function SameRetryRun(
    secret: nat, serverNonce: Bytes, clientNonce: Bytes, f: Frame, c: Bytes, g: Frame, d: Bytes): seq<Step>
  {
    Opening(secret, serverNonce, clientNonce) + [Send(1, f, c, false)] + [Send(1, f, c, true)] + [Send(1, g, d, true)]
  }

  /**
   A retry that seals the same frame again keeps the frames in order, though not the literal prefix: after f in
   vain, f and g the network can make the controller accept f and g, and the phone has sealed f, f and g.
   */
  lemma SameRetryStaysInOrder(
    secret: nat, serverNonce: Bytes, clientNonce: Bytes, f: Frame, c: Bytes, g: Frame, d: Bytes)
    returns (ds: seq<Step>)
    requires |serverNonce| == |clientNonce| == NONCE_SIZE && Fits(f, c) && Fits(g, d)
    ensures var steps := SameRetryRun(secret, serverNonce, clientNonce, f, c, g, d);
            var s := Run(steps + ds);
            && DeliveriesTo(0, ds) && HasChannel(s, 0) && HasChannel(s, 1) && Counterpart(s, 0, 1)
            && s.parties[1].sealed == [f, f, g] && OneFramePerNumber(s.parties[1]) && InOrder(s.parties[1]) == [f, g]
            && s.parties[0].accepted == [f, g]
            && (IsPrefix(s, 0, 1) <==> f == g)
  {
    var steps := SameRetryRun(secret, serverNonce, clientNonce, f, c, g, d);
    SameRetryRunSends(secret, serverNonce, clientNonce, f, c, g, d);
    hide Run, Opening, SameRetryRun, SamePair;
    ds := DeliverUpTo(steps, 0, 1, 2);
    DeliveriesGrow(steps, ds, 0, 1);
    GrownStays(Run(steps), Run(steps + ds), 0, 1);
    var y := Run(steps).parties[1];
    FramesOf(y, f, g);
    AcceptedInOrder(steps + ds, 0, 1);
    TwoInOrder(Run(steps + ds).parties[0].accepted, f, g);
  }

  lemma FramesOf(y: Party, f: Frame, g: Frame)
    requires y.sealed == [f, f, g] && y.numbers == [0, 0, 1]
    ensures OneFramePerNumber(y) && InOrder(y) == [f, g]
  {
    assert [f, f, g][..2] == [f, f] && [f, f][..1] == [f] && [f][..0] == [];
    assert [0, 0, 1][..2] == [0, 0] && [0, 0][..1] == [0] && [0][..0] == [];
    assert Firsts([f], [0]) == [f];
    assert Firsts([f, f], [0, 0]) == [f] by { assert [0, 0][1] in [0]; }
    assert Firsts([f, f, g], [0, 0, 1]) == [f, g];
  }

  lemma TwoInOrder(accepted: seq<Frame>, f: Frame, g: Frame)
    requires |accepted| == 2 && accepted <= [f, g]
    ensures accepted == [f, g] && (accepted <= [f, f, g] <==> f == g)
  {
    if accepted <= [f, f, g] {
      assert accepted[1] == [f, f, g][1];
    }
  }

  lemma SameRetryRunSends(
    secret: nat, serverNonce: Bytes, clientNonce: Bytes, f: Frame, c: Bytes, g: Frame, d: Bytes)
    requires |serverNonce| == |clientNonce| == NONCE_SIZE && Fits(f, c) && Fits(g, d)
    ensures var s := Run(SameRetryRun(secret, serverNonce, clientNonce, f, c, g, d));
            && HasChannel(s, 0) && HasChannel(s, 1) && Counterpart(s, 0, 1)
            && s.parties[1].sealed == [f, f, g] && s.parties[1].numbers == [0, 0, 1]
            && s.parties[0].accepted == []
  {
    OpeningOpens(secret, serverNonce, clientNonce);
    OpenedChannels(secret, serverNonce, clientNonce);
    SameRetryRunIs(secret, serverNonce, clientNonce, f, c, g, d);
    hide *;
    var s := Opened(secret, serverNonce, clientNonce);
    TwoSends(s, f, c, f, c);
    ThirdSend(s, Next(Next(s, Send(1, f, c, false)), Send(1, f, c, true)), f, g, d);
  }

  lemma SameRetryRunIs(secret: nat, serverNonce: Bytes, clientNonce: Bytes, f: Frame, c: Bytes, g: Frame, d: Bytes)
    requires |serverNonce| == |clientNonce| == NONCE_SIZE
    ensures var t := Next(Next(Opened(secret, serverNonce, clientNonce), Send(1, f, c, false)), Send(1, f, c, true));
            Run(SameRetryRun(secret, serverNonce, clientNonce, f, c, g, d)) == Next(t, Send(1, g, d, true))
  {
    OpeningOpens(secret, serverNonce, clientNonce);
    hide Run, Next, Opening, Opened;
    var steps := Opening(secret, serverNonce, clientNonce);
    RunMore(steps, Send(1, f, c, false));
    RunMore(steps + [Send(1, f, c, false)], Send(1, f, c, true));
    RunMore(steps + [Send(1, f, c, false)] + [Send(1, f, c, true)], Send(1, g, d, true));
  }

  lemma ThirdSend(s: System, t: System, f: Frame, g: Frame, d: Bytes)
    requires HasChannel(s, 0) && HasChannel(s, 1) && Counterpart(s, 0, 1) && Fits(g, d)
    requires |t.parties| == |s.parties| && t.parties[0] == s.parties[0]
    requires var x := s.parties[1];
             t.parties[1] == x.(sealed := [f, f], numbers := [0, 0], outcomes := [false, true],
                                channel := x.channel.(sendSequence := 1))
    ensures var u := Next(t, Send(1, g, d, true));
            && HasChannel(u, 0) && HasChannel(u, 1) && Counterpart(u, 0, 1) && u.parties[0] == s.parties[0]
            && u.parties[1].sealed == [f, f, g] && u.parties[1].numbers == [0, 0, 1]
  {
    OneSend(t, g, d, true);
    hide Next;
    assert [f, f] + [g] == [f, f, g] && [0, 0] + [1] == [0, 0, 1];
  }
}
