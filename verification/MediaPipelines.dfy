/**
 The media pipeline of the Linux receiver: one owner that calls start and stop, and the worker threads
 that it spawns. Every access to an atomic and every section under the error mutex is one step; the steps
 of the owner and of the workers interleave freely.
 */
module MediaPipelines {
  import opened Octets

  datatype PipelineState = Stopped | Starting | Running | Failed

  /** What owner and worker share. joinable says that worker_ holds a thread. */
  datatype Shared = Shared(stopRequested: bool, state: PipelineState, errorMessage: string, joinable: bool)

  // What start, the two halves of stop, and setFailure make of the shared state.

  function Started(s: Shared): Shared {
    Shared(false, Starting, "", true)
  }

  function StopRequested(s: Shared): Shared {
    s.(stopRequested := true)
  }

  function Joined(s: Shared): Shared {
    s.(joinable := false, state := if s.state == Failed then Failed else Stopped)
  }

  function WithFailure(s: Shared, message: string): Shared {
    s.(errorMessage := message, state := Failed)
  }

  class MediaPipeline {
    var stopRequested: bool
    var state: PipelineState
    var errorMessage: string
    var joinable: bool

    constructor ()
      ensures Value() == START.shared
    {
      stopRequested, state, errorMessage, joinable := false, Stopped, "", false;
    }

    function Value(): Shared
      reads this
    {
      Shared(stopRequested, state, errorMessage, joinable)
    }

    /** start; no worker runs meanwhile. */
    method Start(authenticatedRtspUrl: string, videoDevice: string) returns (started: bool)
      modifies this
      ensures started <==> CanStart(old(Value()), authenticatedRtspUrl, videoDevice)
      ensures Value() == if started then Started(old(Value())) else old(Value())
    {
      if joinable || authenticatedRtspUrl == "" || videoDevice == "" {
        return false;
      }
      stopRequested := false;
      errorMessage := "";
      state := Starting;
      joinable := true;
      started := true;
    }

    /** The beginning of stop, before it waits for the worker. */
    method RequestStop()
      modifies this`stopRequested
      ensures Value() == StopRequested(old(Value()))
    {
      stopRequested := true;
    }

    /** The end of stop, once the worker has ended. */
    method Join()
      modifies this
      ensures Value() == Joined(old(Value()))
    {
      joinable := false;
      var current := state;
      if current != Failed {
        state := Stopped;
      }
    }

    method SetFailure(message: string)
      modifies this
      ensures Value() == WithFailure(old(Value()), message)
    {
      errorMessage := message;
      state := Failed;
    }
  }

  predicate CanStart(s: Shared, url: string, device: string) {
    !s.joinable && url != "" && device != ""
  }

  // ---------------------------------------------------------------- owner and workers together

  /** Where the owner is: each value names the next thing it does. */
  datatype Owner =
    | Idle
    | ClearStop | ClearError | StoreStarting | Spawn        // in start
    | StoreStop | WaitForWorker | LoadState | StoreStopped  // in stop

  /** Where a worker is in run. Messages of setFailure are the source's, which are never empty. */
  datatype Worker =
    | Opening                                          // up to the point where Running is stored
    | CheckStop(message: string)                       // if (!stopRequested_) setFailure(message); return
    | StoreMessage(message: string)                    // in setFailure
    | StoreFailed
    | Processing
    | CheckError(successful: bool, message: string)    // the last lines of run
    | CheckUnexpected

  datatype System = System(shared: Shared, owner: Owner, workers: seq<Worker>)

  datatype Step =
    | CallStart(url: string, device: string)
    | CallStop
    | OwnerStep
    | OpeningFails(w: nat, message: string, unlessStopped: bool)
    | Opened(w: nat)
    | ProcessingEnds(w: nat, successful: bool, message: string)
    | WorkerStep(w: nat)

  const START := System(Shared(false, Stopped, "", false), Idle, [])

  predicate Enabled(s: System, step: Step) {
    match step
    case CallStart(_, _) => s.owner == Idle
    case CallStop => s.owner == Idle
    case OwnerStep => s.owner != Idle && (s.owner == WaitForWorker && s.shared.joinable ==> s.workers == [])
    case OpeningFails(w, message, _) => w < |s.workers| && s.workers[w] == Opening && message != ""
    case Opened(w) => w < |s.workers| && s.workers[w] == Opening
    case ProcessingEnds(w, _, _) => w < |s.workers| && s.workers[w] == Processing
    case WorkerStep(w) => w < |s.workers| && s.workers[w] != Opening && s.workers[w] != Processing
  }

  function Goto(s: System, w: nat, next: Worker): System
    requires w < |s.workers|
  {
    s.(workers := s.workers[w := next])
  }

  /** The worker returns from run. */
  function End(s: System, w: nat): System
    requires w < |s.workers|
  {
    s.(workers := s.workers[..w] + s.workers[w + 1..])
  }

  function OwnerNext(s: System): System {
    match s.owner
    case Idle => s
    case ClearStop => s.(shared := s.shared.(stopRequested := false), owner := ClearError)
    case ClearError => s.(shared := s.shared.(errorMessage := ""), owner := StoreStarting)
    case StoreStarting => s.(shared := s.shared.(state := Starting), owner := Spawn)
    case Spawn => s.(shared := s.shared.(joinable := true), owner := Idle, workers := s.workers + [Opening])
    case StoreStop => s.(shared := s.shared.(stopRequested := true), owner := WaitForWorker)
    case WaitForWorker => s.(shared := s.shared.(joinable := false), owner := LoadState)
    case LoadState => s.(owner := if s.shared.state != Failed then StoreStopped else Idle)
    case StoreStopped => s.(shared := s.shared.(state := Stopped), owner := Idle)
  }

  function WorkerNext(s: System, w: nat): System
    requires w < |s.workers|
  {
    match s.workers[w]
    case Opening => s
    case CheckStop(message) => if s.shared.stopRequested then End(s, w) else Goto(s, w, StoreMessage(message))
    case StoreMessage(message) => Goto(s, w, StoreFailed).(shared := s.shared.(errorMessage := message))
    case StoreFailed => End(s, w).(shared := s.shared.(state := Failed))
    case Processing => s
    case CheckError(successful, message) =>
      if !s.shared.stopRequested && !successful then
        Goto(s, w, StoreMessage(if message == "" then "Media pipeline failed" else message))
      else Goto(s, w, CheckUnexpected)
    case CheckUnexpected =>
      if s.shared.stopRequested then End(s, w) else Goto(s, w, StoreMessage("Media pipeline stopped unexpectedly"))
  }

  function Next(s: System, step: Step): System {
    if !Enabled(s, step) then s else
    match step
    case CallStart(url, device) =>
      if CanStart(s.shared, url, device) then s.(owner := ClearStop) else s
    case CallStop => s.(owner := StoreStop)
    case OwnerStep => OwnerNext(s)
    case OpeningFails(w, message, unlessStopped) =>
      Goto(s, w, if unlessStopped then CheckStop(message) else StoreMessage(message))
    case Opened(w) => Goto(s, w, Processing).(shared := s.shared.(state := Running))
    case ProcessingEnds(w, successful, message) => Goto(s, w, CheckError(successful, message))
    case WorkerStep(w) => WorkerNext(s, w)
  }

  // ---------------------------------------------------------------- the invariant

  predicate InStart(o: Owner) {
    o in {ClearStop, ClearError, StoreStarting, Spawn}
  }

  predicate OwnerSane(s: System) {
    && (s.shared.joinable ==> s.owner in {Idle, StoreStop, WaitForWorker})
    && (s.owner in {WaitForWorker, LoadState, StoreStopped} ==> s.shared.stopRequested)
    && (s.owner in {ClearError, StoreStarting, Spawn} ==> !s.shared.stopRequested)
    && (s.owner == StoreStopped ==> s.shared.state != Failed)
    && (s.owner in {StoreStarting, Spawn} ==> s.shared.errorMessage == "")
    && (s.owner == Spawn ==> s.shared.state == Starting)
  }

  predicate WorkerSane(s: System, w: Worker) {
    match w
    case Opening => s.shared.state == Starting
    case CheckStop(message) => s.shared.state == Starting && message != ""
    case StoreMessage(message) => s.shared.state in {Starting, Running} && message != ""
    case StoreFailed => s.shared.state in {Starting, Running} && s.shared.errorMessage != ""
    case Processing => s.shared.state == Running
    case CheckError(_, _) => s.shared.state == Running
    case CheckUnexpected => s.shared.state == Running
  }

  predicate Inv(s: System) {
    && OwnerSane(s)
    && |s.workers| <= 1
    && (s.workers != [] ==> s.shared.joinable && WorkerSane(s, s.workers[0]))
    && (s.shared.joinable && s.workers == [] ==> s.shared.stopRequested || s.shared.state == Failed)
    && (!s.shared.joinable && s.owner in {Idle, ClearStop, ClearError, StoreStarting, StoreStop} ==>
        s.shared.state in {Stopped, Failed})
    && (s.shared.state == Failed && s.owner != StoreStarting ==> s.shared.errorMessage != "")
  }

  lemma OwnerKeepsInv(s: System)
    requires Inv(s) && Enabled(s, OwnerStep)
    ensures Inv(Next(s, OwnerStep))
  {
  }

  lemma WorkerKeepsInv(s: System, w: nat)
    requires Inv(s) && Enabled(s, WorkerStep(w))
    ensures Inv(Next(s, WorkerStep(w)))
  {
    assert w == 0 && s.workers == [s.workers[0]] && WorkerSane(s, s.workers[0]);
    var t := Next(s, WorkerStep(w));
    assert t.workers == [] || (|t.workers| == 1 && WorkerSane(t, t.workers[0]));
    hide WorkerSane;
  }

  lemma NextKeepsInv(s: System, step: Step)
    requires Inv(s)
    ensures Inv(Next(s, step))
  {
    if Enabled(s, step) {
      match step
      case OwnerStep => OwnerKeepsInv(s);
      case WorkerStep(w) => WorkerKeepsInv(s, w);
      case _ =>
    }
  }

  // ---------------------------------------------------------------- what every interleaving guarantees

  function RunFrom(s: System, steps: seq<Step>): System
    decreases |steps|
  {
    if steps == [] then s else RunFrom(Next(s, steps[0]), steps[1..])
  }

  function Run(steps: seq<Step>): System {
    RunFrom(START, steps)
  }

  /** Every interleaving keeps the invariant. */
  lemma {:induction false} RunFromKeepsInv(s: System, steps: seq<Step>)
    requires Inv(s)
    ensures Inv(RunFrom(s, steps))
    decreases |steps|
  {
    hide Inv, Next;
    if steps != [] {
      NextKeepsInv(s, steps[0]);
      RunFromKeepsInv(Next(s, steps[0]), steps[1..]);
    }
  }

  /** There is never more than one worker, and none without a thread object to join. */
  lemma OneWorkerAtMost(steps: seq<Step>)
    ensures |Run(steps).workers| <= 1 && (Run(steps).workers != [] ==> Run(steps).shared.joinable)
  {
    RunFromKeepsInv(START, steps);
  }

  /** A worker that ends although nobody asked it to stop leaves a failure with a message. */
  lemma SilentEndIsFailure(steps: seq<Step>)
    requires var s := Run(steps); s.shared.joinable && s.workers == [] && !s.shared.stopRequested
    ensures Run(steps).shared.state == Failed && Run(steps).shared.errorMessage != ""
  {
    RunFromKeepsInv(START, steps);
  }

  /** Between calls and without a thread object there is no worker and the pipeline is stopped or failed. */
  lemma StoppedOrFailedAfterStop(steps: seq<Step>)
    requires Run(steps).owner == Idle && !Run(steps).shared.joinable
    ensures Run(steps).workers == [] && Run(steps).shared.state in {Stopped, Failed}
  {
    RunFromKeepsInv(START, steps);
  }

  /** When stop returns, the thread object is gone; a failure of the worker is kept. */
  lemma StopReturns(steps: seq<Step>, step: Step)
    requires var s := Run(steps); s.owner in {LoadState, StoreStopped} && Next(s, step).owner == Idle
    ensures var s, t := Run(steps), Next(Run(steps), step);
            && !t.shared.joinable && t.workers == []
            && t.shared.state == (if s.shared.state == Failed then Failed else Stopped)
  {
    RunFromKeepsInv(START, steps);
  }

  /** Only start replaces a failure. */
  lemma OnlyStartReplacesFailed(steps: seq<Step>, step: Step)
    requires Run(steps).shared.state == Failed && Next(Run(steps), step).shared.state != Failed
    ensures step == OwnerStep && Run(steps).owner == StoreStarting
  {
    RunFromKeepsInv(START, steps);
  }

  predicate Quiet(steps: seq<Step>) {
    forall i | 0 <= i < |steps| :: !steps[i].CallStart?
  }

  /** Whatever happens afterwards, short of another start, a failure stays, with its message. */
  lemma {:induction false} FailureStays(s: System, steps: seq<Step>)
    requires Inv(s) && s.shared.state == Failed && !InStart(s.owner) && Quiet(steps)
    ensures RunFrom(s, steps).shared.state == Failed && RunFrom(s, steps).shared.errorMessage == s.shared.errorMessage
    decreases |steps|
  {
    if steps != [] {
      NextKeepsInv(s, steps[0]);
      FailureStaysOneStep(s, steps[0]);
      FailureStays(Next(s, steps[0]), steps[1..]);
    }
  }

  lemma FailureStaysOneStep(s: System, step: Step)
    requires Inv(s) && s.shared.state == Failed && !InStart(s.owner) && !step.CallStart?
    ensures var t := Next(s, step);
            t.shared.state == Failed && t.shared.errorMessage == s.shared.errorMessage && !InStart(t.owner)
  {
  }

  // ---------------------------------------------------------------- what a request to stop leaves behind

  predicate Stopping(s: System) {
    s.shared.stopRequested && !InStart(s.owner)
  }

  /** The message of the failure that has happened, or that a worker in setFailure is about to store. */
  function Failing(s: System): Option<string> {
    if s.shared.state == Failed then Some(s.shared.errorMessage)
    else if s.workers == [] then None
    else
      match s.workers[0]
      case StoreMessage(message) => Some(message)
      case StoreFailed => Some(s.shared.errorMessage)
      case _ => None
  }

  /** A failure while the input is being opened that is reported whether or not a stop has been requested. */
  predicate FailsAnyway(s: System, step: Step) {
    step.OpeningFails? && !step.unlessStopped && Enabled(s, step)
  }

  function FirstFailure(s: System, steps: seq<Step>): Option<string>
    decreases |steps|
  {
    if steps == [] then None
    else if FailsAnyway(s, steps[0]) then Some(steps[0].message)
    else FirstFailure(Next(s, steps[0]), steps[1..])
  }

  function OrElse(a: Option<string>, b: Option<string>): Option<string> {
    if a.Some? then a else b
  }

  lemma StoppingStep(s: System, step: Step)
    requires Inv(s) && Stopping(s) && !step.CallStart?
    ensures var t := Next(s, step);
            && Stopping(t)
            && Failing(t) == OrElse(Failing(s), if FailsAnyway(s, step) then Some(step.message) else None)
            && (Failing(t).None? ==> t.shared.errorMessage == s.shared.errorMessage)
            && (t.workers != [] && t.workers[0] == Opening ==> s.workers != [] && s.workers[0] == Opening)
  {
  }

  /** Once a stop is requested, only a failure on its way and one that does not look at the request still count. */
  lemma {:induction false} StoppingRun(s: System, steps: seq<Step>)
    requires Inv(s) && Stopping(s) && Quiet(steps)
    ensures var t := RunFrom(s, steps);
            && Inv(t) && Stopping(t) && Failing(t) == OrElse(Failing(s), FirstFailure(s, steps))
            && (Failing(t).None? ==> t.shared.errorMessage == s.shared.errorMessage)
    decreases |steps|
  {
    hide Inv, Next, Failing, FailsAnyway, Stopping;
    if steps != [] {
      NextKeepsInv(s, steps[0]);
      StoppingStep(s, steps[0]);
      StoppingRun(Next(s, steps[0]), steps[1..]);
    }
  }

  /**
   What stop leaves behind: the pipeline has failed exactly if it had before the request, if a worker was in
   setFailure by then, or if the worker has since met a failure that does not look at the request. The message is
   that of the failure; otherwise it is left alone and the state is Stopped.
   */
  lemma StopLeavesExactly(s: System, steps: seq<Step>)
    requires Inv(s) && Stopping(s) && Quiet(steps)
    requires RunFrom(s, steps).owner == Idle && !RunFrom(s, steps).shared.joinable
    ensures var t, failure := RunFrom(s, steps), OrElse(Failing(s), FirstFailure(s, steps));
            && t.shared.state == (if failure.Some? then Failed else Stopped)
            && t.shared.errorMessage == (if failure.Some? then failure.value else s.shared.errorMessage)
  {
    StoppingRun(s, steps);
  }

  lemma {:induction false} NothingOpening(s: System, steps: seq<Step>)
    requires Inv(s) && Stopping(s) && Quiet(steps) && (s.workers == [] || s.workers[0] != Opening)
    ensures FirstFailure(s, steps) == None
    decreases |steps|
  {
    if steps != [] {
      NextKeepsInv(s, steps[0]);
      StoppingStep(s, steps[0]);
      hide Inv, Next;
      assert !FailsAnyway(s, steps[0]) by { AtMostOneWorker(s); }
      NothingOpening(Next(s, steps[0]), steps[1..]);
    }
  }

  lemma AtMostOneWorker(s: System)
    requires Inv(s)
    ensures |s.workers| <= 1
  {
  }

  /** A pipeline that is open and has not failed is stopped without a failure. */
  lemma HealthyStop(s: System, steps: seq<Step>)
    requires Inv(s) && Stopping(s) && Quiet(steps)
    requires s.shared.state != Failed
    requires s.workers == [] || s.workers[0].Processing? || s.workers[0].CheckError? || s.workers[0].CheckUnexpected?
             || s.workers[0].CheckStop?
    ensures var t := RunFrom(s, steps);
            && t.shared.state != Failed && t.shared.errorMessage == s.shared.errorMessage
            && (t.owner == Idle && !t.shared.joinable ==> t.shared.state == Stopped)
  {
    NothingOpening(s, steps);
    StoppingRun(s, steps);
  }

  /** What is left to do of a stop. */
  function Left(s: System): nat {
    (match s.owner
     case StoreStop => 4
     case WaitForWorker => 3
     case LoadState => 2
     case StoreStopped => 1
     case _ => 0)
    + if s.workers == [] then 0
      else
        match s.workers[0]
        case Opening => 6
        case Processing => 5
        case CheckError(_, _) => 4
        case CheckUnexpected => 3
        case CheckStop(_) => 3
        case StoreMessage(_) => 2
        case StoreFailed => 1
  }

  /** A stop is never stuck, and whatever is done brings it nearer to its end. */
  lemma StopAdvances(s: System, step: Step)
    requires Inv(s) && s.owner in {StoreStop, WaitForWorker, LoadState, StoreStopped}
    ensures Enabled(s, step) ==> Left(Next(s, step)) < Left(s)
    ensures Enabled(s, OwnerStep) || Enabled(s, WorkerStep(0)) || Enabled(s, ProcessingEnds(0, true, ""))
            || Enabled(s, Opened(0))
  {
  }

  // ---------------------------------------------------------------- a worker that ends by itself

  /** The message with which a worker fails if nobody asks it to stop. */
  function Fate(s: System): Option<string> {
    if s.workers == [] then if s.shared.state == Failed then Some(s.shared.errorMessage) else None
    else
      match s.workers[0]
      case CheckStop(message) => Some(message)
      case CheckError(successful, message) => Some(EndMessage(successful, message))
      case CheckUnexpected => Some("Media pipeline stopped unexpectedly")
      case StoreMessage(message) => Some(message)
      case StoreFailed => Some(s.shared.errorMessage)
      case _ => None
  }

  function EndMessage(successful: bool, message: string): string {
    if successful then "Media pipeline stopped unexpectedly"
    else if message == "" then "Media pipeline failed"
    else message
  }

  predicate Undisturbed(s: System) {
    s.owner == Idle && s.shared.joinable && !s.shared.stopRequested
  }

  lemma FateStep(s: System, step: Step)
    requires Inv(s) && Undisturbed(s) && Fate(s).Some? && !step.CallStop?
    ensures Undisturbed(Next(s, step)) && Fate(Next(s, step)) == Fate(s)
  {
  }

  lemma {:induction false} FateStays(s: System, steps: seq<Step>)
    requires Inv(s) && Undisturbed(s) && Fate(s).Some? && forall i | 0 <= i < |steps| :: !steps[i].CallStop?
    ensures Inv(RunFrom(s, steps)) && Undisturbed(RunFrom(s, steps)) && Fate(RunFrom(s, steps)) == Fate(s)
    decreases |steps|
  {
    hide Inv, Next, Fate, Undisturbed;
    if steps != [] {
      NextKeepsInv(s, steps[0]);
      FateStep(s, steps[0]);
      FateStays(Next(s, steps[0]), steps[1..]);
    }
  }

  /** A worker whose processing ends without a request to stop leaves a failure with its own message or these two. */
  lemma UnrequestedEnd(s: System, successful: bool, message: string, steps: seq<Step>)
    requires Inv(s) && Undisturbed(s) && s.workers == [Processing]
    requires forall i | 0 <= i < |steps| :: !steps[i].CallStop?
    ensures var t := RunFrom(Next(s, ProcessingEnds(0, successful, message)), steps);
            t.workers == [] ==>
              && t.shared.state == Failed
              && (successful ==> t.shared.errorMessage == "Media pipeline stopped unexpectedly")
              && (!successful ==>
                    t.shared.errorMessage == if message == "" then "Media pipeline failed" else message)
  {
    NextKeepsInv(s, ProcessingEnds(0, successful, message));
    FateStays(Next(s, ProcessingEnds(0, successful, message)), steps);
  }

  /** And a failure while the input is being opened is reported, with its message. */
  lemma UnrequestedOpeningFailure(s: System, message: string, unlessStopped: bool, steps: seq<Step>)
    requires Inv(s) && Undisturbed(s) && s.workers == [Opening] && message != ""
    requires forall i | 0 <= i < |steps| :: !steps[i].CallStop?
    ensures var t := RunFrom(Next(s, OpeningFails(0, message, unlessStopped)), steps);
            t.workers == [] ==> t.shared.state == Failed && t.shared.errorMessage == message
  {
    var t := Next(s, OpeningFails(0, message, unlessStopped));
    NextKeepsInv(s, OpeningFails(0, message, unlessStopped));
    FateStays(t, steps);
  }

  // ---------------------------------------------------------------- the steps and the methods

  function OwnerSteps(n: nat): seq<Step> {
    seq(n, i => OwnerStep)
  }

  /** The owner's steps in start are undisturbed: there is no worker. */
  lemma StartIsUndisturbed(s: System, step: Step)
    requires Inv(s) && InStart(s.owner) && step != OwnerStep
    ensures Next(s, step) == s
  {
  }

  /** A call of start takes four steps, which together are the method; a call that is refused changes nothing. */
  lemma StartIsTheMethod(s: System, url: string, device: string)
    requires Inv(s) && s.owner == Idle
    ensures RunFrom(s, [CallStart(url, device)] + OwnerSteps(4)) ==
              if CanStart(s.shared, url, device) then System(Started(s.shared), Idle, s.workers + [Opening]) else s
  {
    var t := Next(s, CallStart(url, device));
    RunFirst(s, CallStart(url, device), OwnerSteps(4));
    FourOwnerSteps(t);
  }

  lemma RunFirst(s: System, step: Step, steps: seq<Step>)
    ensures RunFrom(s, [step] + steps) == RunFrom(Next(s, step), steps)
  {
    assert ([step] + steps)[1..] == steps;
  }

  lemma OwnerStepFirst(s: System, n: nat)
    requires n > 0
    ensures RunFrom(s, OwnerSteps(n)) == RunFrom(Next(s, OwnerStep), OwnerSteps(n - 1))
  {
    RunFirst(s, OwnerStep, OwnerSteps(n - 1));
    assert [OwnerStep] + OwnerSteps(n - 1) == OwnerSteps(n);
  }

  lemma FourOwnerSteps(t: System)
    ensures RunFrom(t, OwnerSteps(4)) == Next(Next(Next(Next(t, OwnerStep), OwnerStep), OwnerStep), OwnerStep)
    ensures RunFrom(t, OwnerSteps(3)) == Next(Next(Next(t, OwnerStep), OwnerStep), OwnerStep)
  {
    hide Next;
    var t1 := Next(t, OwnerStep);
    var t2 := Next(t1, OwnerStep);
    var t3 := Next(t2, OwnerStep);
    OwnerStepFirst(t, 4);
    OwnerStepFirst(t, 3);
    OwnerStepFirst(t1, 3);
    OwnerStepFirst(t1, 2);
    OwnerStepFirst(t2, 2);
    OwnerStepFirst(t2, 1);
    OwnerStepFirst(t3, 1);
  }

  /** The first step of stop is the first half of the method. */
  lemma RequestStopIsTheMethod(s: System)
    requires s.owner == StoreStop
    ensures Next(s, OwnerStep) == System(StopRequested(s.shared), WaitForWorker, s.workers)
  {
  }

  /** Once the worker has ended, the remaining steps of stop are the second half; after a failure two are enough. */
  lemma JoinIsTheMethod(s: System)
    requires Inv(s) && s.owner == WaitForWorker && s.workers == []
    ensures RunFrom(s, OwnerSteps(3)) == System(Joined(s.shared), Idle, [])
  {
    FourOwnerSteps(s);
  }

  /** Once the worker has ended, nothing disturbs the end of stop. */
  lemma JoinIsUndisturbed(s: System, step: Step)
    requires Inv(s) && step != OwnerStep
    requires s.owner in {LoadState, StoreStopped} || (s.owner == WaitForWorker && s.workers == [])
    ensures Next(s, step) == s
  {
  }

  /** A worker that fails takes the two steps of setFailure and ends, whatever request to stop comes in between. */
  lemma SetFailureIsTheMethod(s: System, w: nat, message: string)
    requires w < |s.workers| && s.workers[w] == StoreMessage(message)
    ensures var t := Next(s, WorkerStep(w));
            && Next(t, WorkerStep(w)) == End(s, w).(shared := WithFailure(s.shared, message))
            && (s.owner == StoreStop ==>
                  Next(Next(t, OwnerStep), WorkerStep(w)).shared == WithFailure(StopRequested(s.shared), message))
  {
    assert s.workers[w := StoreFailed][..w] == s.workers[..w] &&
        s.workers[w := StoreFailed][w + 1..] == s.workers[w + 1..];
  }
}
