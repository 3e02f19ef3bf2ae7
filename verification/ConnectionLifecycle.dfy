/**
 Connecting, superseding, disconnecting and closing on the phone: `ConnectionManager` with its generation
 counter, and the running flag and receiver thread of each `TCPConnection`. Every lock section and every
 atomic exchange of a flag is one step; steps of all threads interleave freely.
 */
module ConnectionLifecycle {
  import opened Octets

  // ---------------------------------------------------------------- the lock sections of the manager

  /** What the manager's lock protects. Connections are named by the order of their construction. */
  datatype Guarded = Guarded(tcpConn: Option<nat>, connectGeneration: nat)

  function Superseded(c: Guarded): Guarded {
    Guarded(None, c.connectGeneration + 1)
  }

  function Offered(c: Guarded, generation: nat, id: nat): Guarded {
    if generation != c.connectGeneration then c else c.(tcpConn := Some(id))
  }

  function Disconnected(c: Guarded, id: nat): Guarded {
    if c.tcpConn != Some(id) then c else c.(tcpConn := None)
  }

  class TCPConnection {
    const id: nat
    var running: bool
    var socketOpen: bool

    constructor (id: nat)
      ensures this.id == id && running && socketOpen
    {
      this.id, running, socketOpen := id, true, true;
    }

    /** running.getAndSet(false) */
    method Claim() returns (was: bool)
      modifies this`running
      ensures was == old(running) && !running
    {
      was, running := running, false;
    }

    /** Only the caller that wins the flag closes the socket; losing it changes nothing. */
    method Close()
      modifies this
      ensures !running && socketOpen == (old(socketOpen) && !old(running))
    {
      var won := Claim();
      if won {
        socketOpen := false;
      }
    }
  }

  class ConnectionManager {
    var tcpConn: TCPConnection?
    var connectGeneration: nat

    constructor ()
      ensures State() == Guarded(None, 0)
    {
      tcpConn, connectGeneration := null, 0;
    }

    function State(): Guarded
      reads this
    {
      Guarded(if tcpConn == null then None else Some(tcpConn.id), connectGeneration)
    }

    /** First lock section of connectInternal. */
    method Supersede() returns (generation: nat)
      modifies this, tcpConn
      ensures State() == Superseded(old(State())) && generation == connectGeneration
      ensures old(tcpConn) != null ==> !old(tcpConn).running && (old(tcpConn.running) ==> !old(tcpConn).socketOpen)
    {
      connectGeneration := connectGeneration + 1;
      if tcpConn != null {
        tcpConn.Close();
      }
      tcpConn := null;
      generation := connectGeneration;
    }

    /** Second lock section of connectInternal. */
    method Offer(generation: nat, next: TCPConnection) returns (accepted: bool)
      modifies this
      ensures State() == Offered(old(State()), generation, next.id)
      ensures accepted == (generation == old(connectGeneration)) && (accepted ==> tcpConn == next)
    {
      if generation != connectGeneration {
        accepted := false;
      } else {
        tcpConn := next;
        accepted := true;
      }
    }

    /** Lock section of onDisconnected. */
    method Forget(connection: TCPConnection) returns (current: bool)
      requires tcpConn != null && tcpConn.id == connection.id ==> tcpConn == connection
      modifies this
      ensures State() == Disconnected(old(State()), connection.id)
      ensures current == (old(tcpConn) == connection)
    {
      if tcpConn != connection {
        current := false;
      } else {
        tcpConn := null;
        current := true;
      }
    }

    /** Lock section of close. */
    method Release() returns (released: TCPConnection?)
      modifies this
      ensures State() == Superseded(old(State())) && released == old(tcpConn)
    {
      connectGeneration := connectGeneration + 1;
      released := tcpConn;
      tcpConn := null;
    }

    /** onFrameReceived and onLegacyBytes pass on only what comes from the current connection. */
    method Passes(connection: TCPConnection) returns (pass: bool)
      requires tcpConn != null && tcpConn.id == connection.id ==> tcpConn == connection
      ensures pass <==> State().tcpConn == Some(connection.id)
    {
      pass := tcpConn == connection;
    }
  }

  // ---------------------------------------------------------------- all threads together

  datatype Receiver = NotStarted | Looping | Ending | Ended
  datatype Stage = Offering | Starting | Rejecting | Settled

  datatype Connection = Connection(
    generation: nat, running: bool, socketOpen: bool, receiver: Receiver, stage: Stage,
    closers: nat,    // calls of close() that have not exchanged the flag yet
    claimed: bool,   // a call of close() has won the flag and will close the socket
    notices: nat)    // disconnect coroutines that have not run yet

  datatype Phone = Phone(core: Guarded, connections: seq<Connection>, constructing: set<nat>)

  datatype Step =
    | Connect                  // connectInternal, up to launching the coroutine
    | ConstructionFails(g: nat)
    | Constructed(g: nat)
    | Offer(c: nat)
    | StartReceiver(c: nat)
    | Reject(c: nat)
    | ExchangeFlag(c: nat)     // the first line of close()
    | CloseSocket(c: nat)
    | LoopEnds(c: nat)         // the receive loop reaches its finally block
    | LoopCloses(c: nat)
    | SendFails                // a failed send reports whichever connection is current
    | Notice(c: nat)           // the coroutine launched by onDisconnected
    | CloseAll                 // ConnectionManager.close

  const START := Phone(Guarded(None, 0), [], {})

  function Set(s: Phone, c: nat, x: Connection): Phone
    requires c < |s.connections|
  {
    s.(connections := s.connections[c := x])
  }

  /** Drops the current connection, leaving one more close() call to run on it. */
  function Drop(s: Phone, core: Guarded): Phone
    requires s.core.tcpConn.Some? ==> s.core.tcpConn.value < |s.connections|
  {
    match s.core.tcpConn
    case None => s.(core := core)
    case Some(c) => Set(s, c, s.connections[c].(closers := s.connections[c].closers + 1)).(core := core)
  }

  predicate Enabled(s: Phone, step: Step) {
    match step
    case Connect => true
    case ConstructionFails(g) => g in s.constructing
    case Constructed(g) => g in s.constructing
    case Offer(c) => c < |s.connections| && s.connections[c].stage == Offering
    case StartReceiver(c) => c < |s.connections| && s.connections[c].stage == Starting
    case Reject(c) => c < |s.connections| && s.connections[c].stage == Rejecting
    case ExchangeFlag(c) => c < |s.connections| && s.connections[c].closers > 0
    case CloseSocket(c) => c < |s.connections| && s.connections[c].claimed
    case LoopEnds(c) => c < |s.connections| && s.connections[c].receiver == Looping
    case LoopCloses(c) => c < |s.connections| && s.connections[c].receiver == Ending
    case SendFails => s.core.tcpConn.Some?
    case Notice(c) => c < |s.connections| && s.connections[c].notices > 0
    case CloseAll => true
  }

  function Next(s: Phone, step: Step): Phone {
    if !Pointed(s) || !Enabled(s, step) then s else
    match step
    case Connect =>
      Drop(s, Superseded(s.core)).(constructing := s.constructing + {s.core.connectGeneration + 1})
    case ConstructionFails(g) =>
      s.(constructing := s.constructing - {g})
    case Constructed(g) =>
      s.(constructing := s.constructing - {g},
         connections := s.connections + [Connection(g, true, true, NotStarted, Offering, 0, false, 0)])
    case Offer(c) =>
      var x := s.connections[c];
      Set(s, c, x.(stage := if x.generation == s.core.connectGeneration then Starting else Rejecting))
        .(core := Offered(s.core, x.generation, c))
    case StartReceiver(c) =>
      Set(s, c, s.connections[c].(stage := Settled, receiver := Looping))
    case Reject(c) =>
      var x := s.connections[c];
      Set(s, c, x.(stage := Settled, closers := x.closers + 1))
    case ExchangeFlag(c) =>
      var x := s.connections[c];
      Set(s, c, x.(closers := x.closers - 1, running := false, claimed := x.claimed || x.running))
    case CloseSocket(c) =>
      Set(s, c, s.connections[c].(claimed := false, socketOpen := false))
    case LoopEnds(c) =>
      var x := s.connections[c];
      Set(s, c, x.(receiver := Ending, running := false, notices := x.notices + if x.running then 1 else 0))
    case LoopCloses(c) =>
      Set(s, c, s.connections[c].(receiver := Ended, socketOpen := false))
    case SendFails =>
      var c := s.core.tcpConn.value;
      Set(s, c, s.connections[c].(notices := s.connections[c].notices + 1))
    case Notice(c) =>
      var t := Set(s, c, s.connections[c].(notices := s.connections[c].notices - 1));
      if s.core.tcpConn == Some(c) then Drop(t, Disconnected(s.core, c)) else t.(core := Disconnected(s.core, c))
    case CloseAll =>
      Drop(s, Superseded(s.core))
  }

  predicate Pointed(s: Phone) {
    s.core.tcpConn.Some? ==> s.core.tcpConn.value < |s.connections|
  }

  // ---------------------------------------------------------------- the invariant

  predicate ConnectionSane(x: Connection, current: bool, generation: nat) {
    && x.generation <= generation
    && (current ==> x.generation == generation && x.stage in {Starting, Settled} && x.closers == 0 && !x.claimed)
    && (current && !x.running ==> x.notices > 0)
    && (x.stage == Offering ==> x.running && x.closers == 0 && !x.claimed)
    // Somebody will close an open socket that is not in use.
    && (x.socketOpen && !x.running ==> x.claimed || x.receiver == Ending)
    && (x.socketOpen && x.running && !current ==> x.stage in {Offering, Rejecting} || x.closers > 0)
    && (x.running ==> x.socketOpen && !x.claimed && x.receiver !in {Ending, Ended})
    && (x.stage == Settled ==> x.receiver != NotStarted || x.closers > 0 || !x.running)
    && (x.stage != Settled ==> x.receiver == NotStarted)
  }

  predicate Inv(s: Phone) {
    && Pointed(s)
    && (forall c | 0 <= c < |s.connections| ::
          ConnectionSane(s.connections[c], s.core.tcpConn == Some(c), s.core.connectGeneration))
    && (forall c, d | 0 <= c < d < |s.connections| :: s.connections[c].generation != s.connections[d].generation)
    && (forall c | 0 <= c < |s.connections| :: s.connections[c].generation !in s.constructing)
    && (forall g | g in s.constructing :: g <= s.core.connectGeneration)
  }

  /** A step that changes one connection and leaves the manager alone. */
  lemma SetKeepsInv(s: Phone, c: nat, x: Connection)
    requires Inv(s) && c < |s.connections| && x.generation == s.connections[c].generation
    requires ConnectionSane(x, s.core.tcpConn == Some(c), s.core.connectGeneration)
    ensures Inv(Set(s, c, x))
  {
  }

  lemma SupersedeKeepsInv(s: Phone)
    requires Inv(s)
    ensures Inv(Drop(s, Superseded(s.core)))
    ensures forall c | 0 <= c < |s.connections| ::
              Drop(s, Superseded(s.core)).connections[c].generation == s.connections[c].generation
  {
  }

  lemma OfferKeepsInv(s: Phone, c: nat)
    requires Inv(s) && Enabled(s, Offer(c))
    ensures Inv(Next(s, Offer(c)))
  {
    var x, t := s.connections[c], Next(s, Offer(c));
    forall d | 0 <= d < |t.connections|
      ensures ConnectionSane(t.connections[d], t.core.tcpConn == Some(d), t.core.connectGeneration)
    {
      assert ConnectionSane(s.connections[d], s.core.tcpConn == Some(d), s.core.connectGeneration);
    }
  }

  lemma NoticeKeepsInv(s: Phone, c: nat)
    requires Inv(s) && Enabled(s, Notice(c))
    ensures Inv(Next(s, Notice(c)))
  {
    var t := Next(s, Notice(c));
    forall d | 0 <= d < |t.connections|
      ensures ConnectionSane(t.connections[d], t.core.tcpConn == Some(d), t.core.connectGeneration)
    {
      assert ConnectionSane(s.connections[d], s.core.tcpConn == Some(d), s.core.connectGeneration);
    }
  }

  lemma ConstructionKeepsInv(s: Phone, g: nat)
    requires Inv(s) && g in s.constructing
    ensures Inv(Next(s, ConstructionFails(g))) && Inv(Next(s, Constructed(g)))
  {
  }

  /** The steps that threads take on one connection without the manager's lock. */
  lemma ConnectionStepKeepsInv(s: Phone, step: Step, c: nat)
    requires Inv(s) && Enabled(s, step)
    requires step in {StartReceiver(c), Reject(c), ExchangeFlag(c), CloseSocket(c), LoopEnds(c), LoopCloses(c)}
    ensures Inv(Next(s, step))
  {
    SetKeepsInv(s, c, Next(s, step).connections[c]);
  }

  lemma NextKeepsInv(s: Phone, step: Step)
    requires Inv(s)
    ensures Inv(Next(s, step))
  {
    if Enabled(s, step) {
      match step
      case Connect => SupersedeKeepsInv(s);
      case ConstructionFails(g) => ConstructionKeepsInv(s, g);
      case Constructed(g) => ConstructionKeepsInv(s, g);
      case Offer(c) => OfferKeepsInv(s, c);
      case StartReceiver(c) => ConnectionStepKeepsInv(s, step, c);
      case Reject(c) => ConnectionStepKeepsInv(s, step, c);
      case ExchangeFlag(c) => ConnectionStepKeepsInv(s, step, c);
      case CloseSocket(c) => ConnectionStepKeepsInv(s, step, c);
      case LoopEnds(c) => ConnectionStepKeepsInv(s, step, c);
      case LoopCloses(c) => ConnectionStepKeepsInv(s, step, c);
      case SendFails => SetKeepsInv(s, s.core.tcpConn.value, Next(s, step).connections[s.core.tcpConn.value]);
      case Notice(c) => NoticeKeepsInv(s, c);
      case CloseAll => SupersedeKeepsInv(s);
    }
  }

  // ---------------------------------------------------------------- what every interleaving guarantees

  function RunFrom(s: Phone, steps: seq<Step>): Phone
    decreases |steps|
  {
    if steps == [] then s else RunFrom(Next(s, steps[0]), steps[1..])
  }

  function Run(steps: seq<Step>): Phone {
    RunFrom(START, steps)
  }

  /** Every interleaving keeps the invariant. */
  lemma {:induction false} RunFromKeepsInv(s: Phone, steps: seq<Step>)
    requires Inv(s)
    ensures Inv(RunFrom(s, steps))
    decreases |steps|
  {
    hide Inv, Next;
    if steps != [] {
      NextKeepsInv(s, steps[0]);
      RunFromKeepsInv(Next(s, steps[0]), steps[1..]);
    }
  }

  /** The current connection always belongs to the current generation. */
  lemma CurrentIsNewest(steps: seq<Step>)
    ensures var s := Run(steps);
            s.core.tcpConn.Some? ==>
              && s.core.tcpConn.value < |s.connections|
              && s.connections[s.core.tcpConn.value].generation == s.core.connectGeneration
  {
    RunFromKeepsInv(START, steps);
  }

  /** A step is still to run that offers the connection or closes its socket. */
  predicate InHand(x: Connection) {
    x.stage in {Offering, Rejecting} || x.closers > 0 || x.claimed || x.receiver == Ending
  }

  /** No socket is leaked: an open connection is the current one or somebody has it in hand. */
  lemma NoSocketLeaks(steps: seq<Step>, c: nat)
    requires c < |Run(steps).connections| && Run(steps).connections[c].socketOpen
    ensures Run(steps).core.tcpConn == Some(c) || InHand(Run(steps).connections[c])
  {
    var s := Run(steps);
    RunFromKeepsInv(START, steps);
    assert ConnectionSane(s.connections[c], s.core.tcpConn == Some(c), s.core.connectGeneration);
  }

  /** Nothing is left to run except receive loops waiting for data. */
  predicate Quiescent(s: Phone) {
    && s.constructing == {}
    && forall c | 0 <= c < |s.connections| ::
         var x := s.connections[c];
         x.stage == Settled && x.closers == 0 && !x.claimed && x.notices == 0 && x.receiver != Ending
  }

  /** Once everything has settled, the open connections are exactly the current one, and it is being received from. */
  lemma QuiescentMeansExactlyCurrent(steps: seq<Step>, c: nat)
    requires Quiescent(Run(steps)) && c < |Run(steps).connections|
    ensures var s := Run(steps);
            && (s.connections[c].socketOpen <==> s.core.tcpConn == Some(c))
            && (s.core.tcpConn == Some(c) ==> s.connections[c].running && s.connections[c].receiver == Looping)
  {
    var s := Run(steps);
    RunFromKeepsInv(START, steps);
    assert ConnectionSane(s.connections[c], s.core.tcpConn == Some(c), s.core.connectGeneration);
  }

  lemma SupersededStays(s: Phone, step: Step, c: nat)
    requires Inv(s) && c < |s.connections| && s.connections[c].generation < s.core.connectGeneration
    ensures var t := Next(s, step);
            && c < |t.connections| && t.connections[c].generation < t.core.connectGeneration
  {
  }

  /** A connection of an older generation never becomes current again, whatever happens next. */
  lemma {:induction false} SupersededForever(s: Phone, steps: seq<Step>, c: nat)
    requires Inv(s) && c < |s.connections| && s.connections[c].generation < s.core.connectGeneration
    ensures RunFrom(s, steps).core.tcpConn != Some(c)
    decreases |steps|
  {
    if steps != [] {
      NextKeepsInv(s, steps[0]);
      SupersededStays(s, steps[0], c);
      SupersededForever(Next(s, steps[0]), steps[1..], c);
    }
  }

  /**
   Only connecting, closing or a disconnect raised for this very connection takes it away. In particular
   a disconnect raised by the receive loop of an older connection leaves a newer one in place.
   */
  lemma OnlyItsOwnDisconnectClears(steps: seq<Step>, step: Step, c: nat)
    requires Run(steps).core.tcpConn == Some(c)
    ensures Next(Run(steps), step).core.tcpConn == Some(c) <==>
              step != Connect && step != CloseAll && !(step == Notice(c) && Enabled(Run(steps), step))
  {
    var s := Run(steps);
    RunFromKeepsInv(START, steps);
    match step
    case Offer(d) =>
      if Enabled(s, step) {
        assert ConnectionSane(s.connections[c], true, s.core.connectGeneration);
      }
    case _ =>
  }

  /** How many steps the threads of one connection can still take, however they interleave. */
  function Work(x: Connection): nat {
    (match x.stage
     case Offering => 7
     case Starting => 6
     case Rejecting => 3
     case Settled => 0)
    + (match x.receiver
       case Looping => if x.running then 5 else 2
       case Ending => 1
       case _ => 0)
    + 2 * x.closers + (if x.claimed then 1 else 0) + 3 * x.notices
  }

  function TotalWork(xs: seq<Connection>): nat {
    if xs == [] then 0 else TotalWork(xs[..|xs| - 1]) + Work(xs[|xs| - 1])
  }

  function WorkLeft(s: Phone): nat {
    TotalWork(s.connections) + 8 * |s.constructing|
  }

  lemma {:induction false} TotalWorkAfter(xs: seq<Connection>, c: nat, x: Connection)
    requires c < |xs|
    ensures TotalWork(xs[c := x]) == TotalWork(xs) - Work(xs[c]) + Work(x)
    decreases |xs|
  {
    hide Work;
    var n := |xs| - 1;
    if c < n {
      TotalWorkAfter(xs[..n], c, x);
      assert xs[c := x][..n] == xs[..n][c := x];
    } else {
      assert xs[c := x][..n] == xs[..n];
    }
  }

  /** The steps that threads take by themselves; the others are calls from outside and failures of a send. */
  predicate Internal(step: Step) {
    !step.Connect? && !step.CloseAll? && !step.SendFails?
  }

  lemma StepOnOne(s: Phone, step: Step, c: nat)
    requires Inv(s) && Enabled(s, step) && c < |s.connections|
    requires step in {Offer(c), StartReceiver(c), Reject(c), ExchangeFlag(c), CloseSocket(c), LoopEnds(c),
                      LoopCloses(c), Notice(c)}
    ensures var t := Next(s, step);
            && |t.connections| == |s.connections| && t.constructing == s.constructing
            && t.connections == s.connections[c := t.connections[c]]
            && Work(t.connections[c]) < Work(s.connections[c])
  {
    assert ConnectionSane(s.connections[c], s.core.tcpConn == Some(c), s.core.connectGeneration);
  }

  lemma StepOnConstruction(s: Phone, step: Step)
    requires Inv(s) && Enabled(s, step) && (step.Constructed? || step.ConstructionFails?)
    ensures WorkLeft(Next(s, step)) < WorkLeft(s)
  {
    var t := Next(s, step);
    assert |t.constructing| == |s.constructing| - 1;
    if step.Constructed? {
      assert t.connections[..|t.connections| - 1] == s.connections;
    }
  }

  /** Left alone, the threads come to an end: each step they take leaves less to do, and while some is left they can. */
  lemma SettlesDown(s: Phone, step: Step)
    requires Inv(s)
    ensures Internal(step) && Enabled(s, step) ==> WorkLeft(Next(s, step)) < WorkLeft(s)
  {
    if Internal(step) && Enabled(s, step) {
      if step.Constructed? || step.ConstructionFails? {
        StepOnConstruction(s, step);
      } else {
        StepOnOne(s, step, step.c);
        TotalWorkAfter(s.connections, step.c, Next(s, step).connections[step.c]);
        hide *;
        WorkLeftMeans(s);
        WorkLeftMeans(Next(s, step));
      }
    }
  }

  lemma WorkLeftMeans(s: Phone)
    ensures WorkLeft(s) == TotalWork(s.connections) + 8 * |s.constructing|
  {
  }

  lemma NeverStuck(s: Phone) returns (step: Step)
    requires Inv(s) && !Quiescent(s)
    ensures Internal(step) && !step.LoopEnds? && Enabled(s, step)
  {
    if g :| g in s.constructing {
      step := ConstructionFails(g);
    } else {
      var c :| 0 <= c < |s.connections|
        && var x := s.connections[c];
           !(x.stage == Settled && x.closers == 0 && !x.claimed && x.notices == 0 && x.receiver != Ending);
      var x := s.connections[c];
      step := match x.stage
        case Offering => Offer(c)
        case Starting => StartReceiver(c)
        case Rejecting => Reject(c)
        case Settled =>
          if x.closers > 0 then ExchangeFlag(c)
          else if x.claimed then CloseSocket(c)
          else if x.notices > 0 then Notice(c)
          else LoopCloses(c);
    }
  }

  /** A connection that cannot be current any longer, or has a notice on its way that will take it away. */
  predicate OnItsWayOut(s: Phone, c: nat) {
    && c < |s.connections| && s.connections[c].stage != Offering
    && (s.connections[c].notices > 0 || s.core.tcpConn != Some(c))
  }

  lemma OnItsWayOutStays(s: Phone, step: Step, c: nat)
    requires Inv(s) && OnItsWayOut(s, c)
    ensures OnItsWayOut(Next(s, step), c)
  {
  }

  lemma {:induction false} OnItsWayOutForever(s: Phone, steps: seq<Step>, c: nat)
    requires Inv(s) && OnItsWayOut(s, c)
    ensures OnItsWayOut(RunFrom(s, steps), c)
    decreases |steps|
  {
    hide Inv, Next, OnItsWayOut;
    if steps != [] {
      NextKeepsInv(s, steps[0]);
      OnItsWayOutStays(s, steps[0], c);
      OnItsWayOutForever(Next(s, steps[0]), steps[1..], c);
    }
  }

  /**
   A connection on which a send has failed, or whose receive loop has ended while it was running, is given up: in
   every interleaving it stops being current at the latest when its notices have run, and it never is again.
   */
  lemma LostConnectionIsGivenUp(s: Phone, step: Step, steps: seq<Step>, c: nat)
    requires Inv(s) && s.core.tcpConn == Some(c)
    requires step == SendFails
             || (step == LoopEnds(c) && s.connections[c].receiver == Looping && s.connections[c].running)
    ensures var t := RunFrom(Next(s, step), steps);
            c < |t.connections| && (t.core.tcpConn == Some(c) ==> t.connections[c].notices > 0)
    ensures Quiescent(RunFrom(Next(s, step), steps)) ==> RunFrom(Next(s, step), steps).core.tcpConn != Some(c)
  {
    assert ConnectionSane(s.connections[c], true, s.core.connectGeneration);
    NextKeepsInv(s, step);
    OnItsWayOutForever(Next(s, step), steps, c);
  }

  /** From wherever the phone is, an attempt that nothing interferes with ends with its own connection in use. */
  lemma AttemptSucceeds(s: Phone)
    requires Inv(s)
    ensures var g, c := s.core.connectGeneration + 1, |s.connections|;
            var t := RunFrom(s, [Connect, Constructed(g), Offer(c), StartReceiver(c)]);
            && t.core == Guarded(Some(c), g) && |t.connections| == c + 1 && t.connections[c].generation == g
            && t.connections[c].running && t.connections[c].socketOpen && t.connections[c].receiver == Looping
  {
    var g, c := s.core.connectGeneration + 1, |s.connections|;
    var s1 := Next(s, Connect);
    SupersedeKeepsInv(s);
    var s2 := Next(s1, Constructed(g));
    var s3 := Next(s2, Offer(c));
    FourSteps(s, Connect, Constructed(g), Offer(c), StartReceiver(c));
  }

  lemma FourSteps(s: Phone, a: Step, b: Step, c: Step, d: Step)
    ensures RunFrom(s, [a, b, c, d]) == Next(Next(Next(Next(s, a), b), c), d)
  {
    hide Next;
    assert [a, b, c, d][1..] == [b, c, d] && [b, c, d][1..] == [c, d] && [c, d][1..] == [d] && [d][1..] == [];
    var s1, s2 := Next(s, a), Next(Next(s, a), b);
    assert RunFrom(s, [a, b, c, d]) == RunFrom(s1, [b, c, d]) && RunFrom(s1, [b, c, d]) == RunFrom(s2, [c, d]);
    assert RunFrom(s2, [c, d]) == RunFrom(Next(s2, c), [d]) && RunFrom(Next(s2, c), [d]) == Next(Next(s2, c), d);
  }

  /** Whatever else goes on, what is offered becomes current exactly if its attempt is still the newest. */
  lemma OfferDecides(s: Phone, c: nat)
    requires Inv(s) && Enabled(s, Offer(c))
    ensures Next(s, Offer(c)).core.tcpConn == Some(c) <==> s.connections[c].generation == s.core.connectGeneration
    ensures Next(s, Offer(c)).core.tcpConn != Some(c) ==> Enabled(Next(s, Offer(c)), Reject(c))
  {
    assert ConnectionSane(s.connections[c], s.core.tcpConn == Some(c), s.core.connectGeneration);
  }
}
