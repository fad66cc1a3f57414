/**
 The circuit breaker (network/circuit_breaker.go) as a step system: any number of
 dials and timer callbacks, a mutex channel, atomics that are read without it, and
 timers whose callbacks may run late.
 */
module CircuitBreaker {
  import opened Bytes
  import opened Counting

  datatype BState = Closed | HalfOpened | Opened

  datatype TimerKind = HalfOpenTimer | CleanupTimer

  /** The stages of switchState: timers and failure count, then the two atomic stores. */
  datatype Stage = Timers | Attempts | Store

  /** A goroutine inside the breaker, and where it stands. */
  datatype Job =
    | Loading                        // a dial about to load the state
    | DialClosed                     // in the base dialer, on the closed path
    | WaitClosed(ok: bool)           // at the select on the context and the mutex
    | InClosed(ok: bool)             // holds the mutex
    | TryCas                         // on the half-open path, about to compare and swap
    | DialHalf
    | WaitHalf(ok: bool)
    | InHalf(ok: bool)
    | WaitReset(timer: nat)          // resetFailures, called by that timer, wants the mutex
    | InReset
    | WaitTry(timer: nat)            // tryHalfOpen
    | InTry(timer: nat)
    | Switching(target: BState, stage: Stage)
    | Leaving                        // about to release the mutex

  /** What the critical sections record, oldest first. */
  datatype Event = Failure | Success | Switch(target: BState)

  /**
   What a job is: a dial, with the state it loaded and what the base dialer returned,
   or the callback of a timer.
   */
  datatype Origin =
    | Dial(loaded: Option<BState>, returned: Option<bool>)
    | Callback(kind: TimerKind)

  datatype State = State(
    threshold: u32,
    mutex: Option<nat>,
    state: BState,
    attempts: u32,
    failures: u32,
    halfRef: Option<nat>,
    cleanupRef: Option<nat>,
    armed: map<nat, TimerKind>,
    jobs: map<nat, Job>,
    nextTimer: nat,
    // history
    log: seq<Event>,
    casSinceReset: nat,
    origin: map<nat, Origin>
  )

  datatype Step =
    | NewDial(id: nat)
    | Go(id: nat)
    | DialReturns(id: nat, ok: bool)
    | ContextDone(id: nat)
    | Fire(timer: nat, id: nat)

  /** After the constructor: closed, with the cleanup timer armed. */
  function Init(threshold: u32): State {
    State(threshold, None, Closed, 0, 0, None, Some(0), map[0 := CleanupTimer], map[], 1, [Switch(Closed)], 0, map[])
  }

  predicate Waits(j: Job) {
    j.WaitClosed? || j.WaitHalf? || j.WaitReset? || j.WaitTry?
  }

  predicate Holds(j: Job) {
    j.InClosed? || j.InHalf? || j.InReset? || j.InTry? || j.Switching? || j.Leaving?
  }

  predicate Enabled(s: State, step: Step) {
    match step
    case NewDial(id) => id !in s.jobs
    case Go(id) =>
      && id in s.jobs && !s.jobs[id].DialClosed? && !s.jobs[id].DialHalf?
      && (Waits(s.jobs[id]) ==> s.mutex == None)
    case DialReturns(id, ok) => id in s.jobs && (s.jobs[id].DialClosed? || s.jobs[id].DialHalf?)
    case ContextDone(id) => id in s.jobs && (s.jobs[id].WaitClosed? || s.jobs[id].WaitHalf?)
    case Fire(t, id) => t in s.armed && id !in s.jobs
  }

  // ----- the pieces of the code

  /** `timer.Stop()` on a fired timer does nothing; its callback is on its way. */
  function StopTimers(s: State, half: bool, cleanup: bool): (s': State)
    ensures s' == s.(armed := s'.armed, halfRef := s'.halfRef, cleanupRef := s'.cleanupRef, nextTimer := s'.nextTimer)
  {
    var s1 := if half && s.halfRef.Some? then s.(armed := s.armed - {s.halfRef.value}, halfRef := None) else s;
    if cleanup && s1.cleanupRef.Some? then s1.(armed := s1.armed - {s1.cleanupRef.value}, cleanupRef := None) else s1
  }

  function EnsureCleanup(s: State): (s': State)
    ensures s' == s.(armed := s'.armed, halfRef := s'.halfRef, cleanupRef := s'.cleanupRef, nextTimer := s'.nextTimer)
  {
    if s.cleanupRef.Some? then s
    else s.(cleanupRef := Some(s.nextTimer), armed := s.armed[s.nextTimer := CleanupTimer],
            nextTimer := s.nextTimer + 1)
  }

  function EnsureHalf(s: State): (s': State)
    ensures s' == s.(armed := s'.armed, halfRef := s'.halfRef, cleanupRef := s'.cleanupRef, nextTimer := s'.nextTimer)
  {
    if s.halfRef.Some? then s
    else s.(halfRef := Some(s.nextTimer), armed := s.armed[s.nextTimer := HalfOpenTimer], nextTimer := s.nextTimer + 1)
  }

  function SwitchTimers(s: State, target: BState): (s': State)
    ensures s' == s.(armed := s'.armed, halfRef := s'.halfRef, cleanupRef := s'.cleanupRef, nextTimer := s'.nextTimer,
                     failures := 0, log := s.log + [Switch(target)])
  {
    var s1 := match target
              case Closed => EnsureCleanup(StopTimers(s, true, false))
              case HalfOpened => StopTimers(s, true, true)
              case Opened => EnsureHalf(StopTimers(s, false, true));
    s1.(failures := 0, log := s1.log + [Switch(target)])
  }

  function Become(s: State, id: nat, j: Job): State {
    s.(jobs := s.jobs[id := j])
  }

  function Lock(s: State, id: nat, j: Job): State {
    Become(s, id, j).(mutex := Some(id))
  }

  /** Unsigned 32-bit arithmetic. */
  function Wrapped(n: nat): (w: u32) {
    n % 0x1_0000_0000
  }

  lemma WrappedSuccessor(n: nat)
    ensures Wrapped(Wrapped(n) + 1) == Wrapped(n + 1)
    ensures n < 0x1_0000_0000 ==> Wrapped(n) == n
  {
  }

  /** A failed dial on the closed path is counted, in 32 bits, and may open the breaker. */
  function RecordFailure(s: State, id: nat): State {
    var s1 := s.(failures := Wrapped(s.failures + 1), log := s.log + [Failure]);
    if s1.state == Closed && s1.failures >= s1.threshold then Become(s1, id, Switching(Opened, Timers))
    else Become(s1, id, Leaving)
  }

  function GoStep(s: State, id: nat): (s': State)
    requires Enabled(s, Go(id))
  {
    match s.jobs[id]
    case Loading =>
      var s1 := s.(origin := s.origin[id := Dial(Some(s.state), None)]);
      (match s.state
       case Closed => Become(s1, id, DialClosed)
       case HalfOpened => Become(s1, id, TryCas)
       case Opened => s1.(jobs := s.jobs - {id}))
    case TryCas =>
      if s.attempts == 0 then Become(s, id, DialHalf).(attempts := 1, casSinceReset := s.casSinceReset + 1)
      else s.(jobs := s.jobs - {id})
    case WaitClosed(ok) => Lock(s, id, InClosed(ok))
    case WaitHalf(ok) => Lock(s, id, InHalf(ok))
    case WaitReset(t) => Lock(s, id, InReset)
    case WaitTry(t) => Lock(s, id, InTry(t))
    case InClosed(ok) =>
      if ok then Become(s, id, Switching(Closed, Timers)).(log := s.log + [Success]) else RecordFailure(s, id)
    case InHalf(ok) =>
      if s.state != HalfOpened then Become(s, id, Leaving)
      else Become(s, id, Switching(if ok then Closed else Opened, Timers))
    case InReset =>
      var s1 := StopTimers(s, false, true);
      Become(s1, id, if s1.state == Closed then Switching(Closed, Timers) else Leaving)
    case InTry(t) => Become(s, id, if s.state == Opened then Switching(HalfOpened, Timers) else Leaving)
    case Switching(target, stage) =>
      (match stage
       case Timers => Become(SwitchTimers(s, target), id, Switching(target, Attempts))
       case Attempts => Become(s, id, Switching(target, Store)).(attempts := 0, casSinceReset := 0)
       case Store => Become(s, id, Leaving).(state := target))
    case Leaving => s.(mutex := None, jobs := s.jobs - {id})
    case _ => s
  }

  function Perform(s: State, step: Step): (s': State)
    requires Enabled(s, step)
  {
    match step
    case NewDial(id) => Become(s, id, Loading).(origin := s.origin[id := Dial(None, None)])
    case Go(id) => GoStep(s, id)
    case DialReturns(id, ok) =>
      Become(s, id, if s.jobs[id].DialClosed? then WaitClosed(ok) else WaitHalf(ok))
      .(origin := Returned(s.origin, id, ok))
    case ContextDone(id) => s.(jobs := s.jobs - {id})
    case Fire(t, id) =>
      Become(s, id, if s.armed[t] == CleanupTimer then WaitReset(t) else WaitTry(t))
      .(armed := s.armed - {t}, origin := s.origin[id := Callback(s.armed[t])])
  }

  function Returned(origin: map<nat, Origin>, id: nat, ok: bool): map<nat, Origin> {
    if id in origin && origin[id].Dial? then origin[id := origin[id].(returned := Some(ok))] else origin
  }

  function Exec(s: State, steps: seq<Step>): (r: Option<State>) {
    if steps == [] then Some(s)
    else match Exec(s, steps[..|steps| - 1])
      case None => None
      case Some(m) =>
        var step := steps[|steps| - 1];
        if Enabled(m, step) then Some(Perform(m, step)) else None
  }

  // ----- invariants

  ghost predicate MutexInv(s: State) {
    && (forall id :: id in s.jobs && Holds(s.jobs[id]) ==> s.mutex == Some(id))
    && (s.mutex.Some? ==> s.mutex.value in s.jobs && Holds(s.jobs[s.mutex.value]))
  }

  /** Every armed timer is the one its field refers to, and timer numbers are fresh. */
  ghost predicate ArmedInv(s: State) {
    && (forall t :: t in s.armed ==> t < s.nextTimer)
    && (forall t :: t in s.armed ==> Some(t) == if s.armed[t] == HalfOpenTimer then s.halfRef else s.cleanupRef)
    && (s.halfRef.Some? ==> s.halfRef.value < s.nextTimer)
    && (s.cleanupRef.Some? ==> s.cleanupRef.value < s.nextTimer)
    && (s.halfRef.Some? && s.cleanupRef.Some? ==> s.halfRef != s.cleanupRef)
  }

  /** The cleanup timer is armed, or its callback has not run yet. */
  ghost predicate CleanupBacked(s: State) {
    && s.cleanupRef.Some?
    && (s.cleanupRef.value in s.armed || exists id :: id in s.jobs && s.jobs[id] == WaitReset(s.cleanupRef.value))
  }

  ghost predicate HalfBacked(s: State) {
    && s.halfRef.Some?
    && (s.halfRef.value in s.armed || exists id :: id in s.jobs && s.jobs[id] == WaitTry(s.halfRef.value))
  }

  /** The timers that belong to a state. */
  ghost predicate TimersMatch(s: State, b: BState) {
    match b
    case Closed => s.halfRef == None && CleanupBacked(s)
    case HalfOpened => s.halfRef == None && s.cleanupRef == None
    case Opened => s.cleanupRef == None && HalfBacked(s)
  }

  /** Who holds the mutex, if anybody. */
  function Holder(s: State): (j: Option<Job>) {
    if s.mutex.Some? && s.mutex.value in s.jobs then Some(s.jobs[s.mutex.value]) else None
  }

  ghost predicate TimerInv(s: State) {
    match Holder(s)
    case Some(InReset) => s.state != Closed ==> TimersMatch(s, s.state)
    case Some(InTry(t)) => s.state != Opened ==> TimersMatch(s, s.state)
    case Some(Switching(target, stage)) =>
      if stage == Timers then
        match target
        case Closed => s.cleanupRef == None || CleanupBacked(s)
        case HalfOpened => true
        case Opened => s.halfRef == None
      else TimersMatch(s, target)
    case _ => TimersMatch(s, s.state)
  }

  /** The events since the last switch. */
  function SinceSwitch(log: seq<Event>): (tail: seq<Event>) {
    if log == [] || log[|log| - 1].Switch? then [] else SinceSwitch(log[..|log| - 1]) + [log[|log| - 1]]
  }

  predicate AllFailures(events: seq<Event>) {
    forall i :: 0 <= i < |events| ==> events[i] == Failure
  }

  /** How many failures in a row open a closed breaker. */
  function Limit(s: State): (n: nat)
    ensures 0 < n < 0x1_0000_0000
  {
    Max(1, s.threshold)
  }

  /** Since the last switch there were exactly so many failures as open a breaker, and no success. */
  ghost predicate JustEnough(s: State, log: seq<Event>) {
    AllFailures(SinceSwitch(log)) && |SinceSwitch(log)| == Limit(s)
  }

  ghost predicate FailureInv(s: State) {
    match Holder(s)
    case Some(Switching(target, stage)) =>
      if stage == Timers then target == Opened && s.state == Closed ==> JustEnough(s, s.log)
      else
        && s.log != [] && s.log[|s.log| - 1] == Switch(target) && s.failures == 0
        && (target == Opened && s.state == Closed ==> JustEnough(s, s.log[..|s.log| - 1]))
    case _ =>
      var tail := SinceSwitch(s.log);
      && AllFailures(tail) && s.failures == Wrapped(|tail|)
      && (s.state == Closed ==> |tail| < Limit(s))
  }

  ghost predicate CasInv(s: State) {
    s.casSinceReset == s.attempts <= 1
  }

  /** Why the breaker goes from one state to another: what the job that switches it is. */
  predicate Cause(from: BState, to: BState, o: Origin) {
    match to
    case Closed =>
      || o == Dial(Some(Closed), Some(true))
      || (from == HalfOpened && o == Dial(Some(HalfOpened), Some(true)))
      || (from == Closed && o == Callback(CleanupTimer))
    case HalfOpened => from == Opened && o == Callback(HalfOpenTimer)
    case Opened => from != Opened && o == Dial(Some(from), Some(false))
  }

  /** What is known of a job where it stands. */
  predicate Known(b: BState, j: Job, o: Origin) {
    match j
    case Loading => o == Dial(None, None)
    case DialClosed => o == Dial(Some(Closed), None)
    case WaitClosed(ok) => o == Dial(Some(Closed), Some(ok))
    case InClosed(ok) => o == Dial(Some(Closed), Some(ok))
    case TryCas => o == Dial(Some(HalfOpened), None)
    case DialHalf => o == Dial(Some(HalfOpened), None)
    case WaitHalf(ok) => o == Dial(Some(HalfOpened), Some(ok))
    case InHalf(ok) => o == Dial(Some(HalfOpened), Some(ok))
    case WaitReset(t) => o == Callback(CleanupTimer)
    case InReset => o == Callback(CleanupTimer)
    case WaitTry(t) => o == Callback(HalfOpenTimer)
    case InTry(t) => o == Callback(HalfOpenTimer)
    case Switching(target, stage) => Cause(b, target, o)
    case Leaving => o.Callback? || (o.loaded.Some? && o.loaded != Some(Opened) && o.returned.Some?)
  }

  ghost predicate OriginInv(s: State) {
    forall id :: id in s.jobs ==> id in s.origin && Known(s.state, s.jobs[id], s.origin[id])
  }

  ghost predicate Inv(s: State) {
    MutexInv(s) && ArmedInv(s) && TimerInv(s) && FailureInv(s) && CasInv(s) && OriginInv(s)
  }

  lemma MutexKept(s: State, step: Step)
    requires MutexInv(s) && Enabled(s, step)
    ensures MutexInv(Perform(s, step))
  {
    hide GoStep;
    if step.Go? {
      GoMutex(s, step.id);
    }
  }

  predicate Holding(s: State, id: nat) {
    id in s.jobs && Holds(s.jobs[id])
  }

  lemma GoMutex(s: State, id: nat)
    requires MutexInv(s) && Enabled(s, Go(id))
    ensures MutexInv(GoStep(s, id))
  {
    hide GoStep;
    assert Holding(s, id) ==> s.mutex == Some(id);
    GoMovesOne(s, id);
    OneJob(s, GoStep(s, id), id);
  }

  /** One job takes the mutex, gives it back or leaves it alone, and nobody else moves. */
  ghost predicate MovesAlone(s: State, s': State, id: nat) {
    && (if Holding(s', id) == Holding(s, id) then s'.mutex == s.mutex
        else if Holding(s', id) then s.mutex == None && s'.mutex == Some(id)
        else s'.mutex == None)
    && forall i :: i != id ==> (i in s'.jobs <==> i in s.jobs) && (i in s.jobs ==> s'.jobs[i] == s.jobs[i])
  }

  lemma GoMovesOne(s: State, id: nat)
    requires Enabled(s, Go(id)) && (Holding(s, id) ==> s.mutex == Some(id))
    ensures MovesAlone(s, GoStep(s, id), id)
  {
    hide GoStep, MovesAlone;
    if Holds(s.jobs[id]) {
      HolderMovesOne(s, id);
    } else {
      OutsideMovesOne(s, id);
    }
  }

  lemma HolderMovesOne(s: State, id: nat)
    requires Enabled(s, Go(id)) && Holds(s.jobs[id]) && s.mutex == Some(id)
    ensures MovesAlone(s, GoStep(s, id), id)
  {
    hide StopTimers, SwitchTimers;
  }

  lemma OutsideMovesOne(s: State, id: nat)
    requires Enabled(s, Go(id)) && !Holds(s.jobs[id])
    ensures MovesAlone(s, GoStep(s, id), id)
  {
    hide StopTimers, SwitchTimers, RecordFailure;
  }

  lemma OneJob(s: State, s': State, id: nat)
    requires MutexInv(s) && MovesAlone(s, s', id)
    ensures MutexInv(s')
  {
    assert forall i: nat :: i != id ==> Holding(s', i) == Holding(s, i);
    assert forall i: nat :: Holding(s, i) ==> s.mutex == Some(i);
    forall i | i in s'.jobs && Holds(s'.jobs[i]) ensures s'.mutex == Some(i) {
      assert Holding(s', i);
    }
  }

  lemma StopArmed(s: State, half: bool, cleanup: bool)
    requires ArmedInv(s)
    ensures ArmedInv(StopTimers(s, half, cleanup))
  {
  }

  lemma EnsureArmed(s: State)
    requires ArmedInv(s)
    ensures ArmedInv(EnsureCleanup(s)) && ArmedInv(EnsureHalf(s))
  {
  }

  lemma SameArmed(s: State, s': State)
    requires ArmedInv(s) && s'.armed == s.armed && s'.nextTimer == s.nextTimer
    requires s'.halfRef == s.halfRef && s'.cleanupRef == s.cleanupRef
    ensures ArmedInv(s')
  {
  }

  lemma ArmedKept(s: State, step: Step)
    requires ArmedInv(s) && Enabled(s, step)
    ensures ArmedInv(Perform(s, step))
  {
    hide GoStep;
    if step.Go? {
      GoArmed(s, step.id);
    } else if !step.Fire? {
      SameArmed(s, Perform(s, step));
    }
  }

  lemma GoArmed(s: State, id: nat)
    requires ArmedInv(s) && Enabled(s, Go(id))
    ensures ArmedInv(GoStep(s, id))
  {
    hide ArmedInv, StopTimers, SwitchTimers;
    if s.jobs[id].InReset? {
      StopArmed(s, false, true);
      SameArmed(StopTimers(s, false, true), GoStep(s, id));
    } else if s.jobs[id].Switching? && s.jobs[id].stage == Timers {
      SwitchArmed(s, s.jobs[id].target);
      SameArmed(SwitchTimers(s, s.jobs[id].target), GoStep(s, id));
    } else {
      SameArmed(s, GoStep(s, id));
    }
  }

  lemma SwitchArmed(s: State, target: BState)
    requires ArmedInv(s)
    ensures ArmedInv(SwitchTimers(s, target))
  {
    hide ArmedInv, StopTimers, EnsureCleanup, EnsureHalf;
    StopArmed(s, true, false);
    StopArmed(s, true, true);
    StopArmed(s, false, true);
    EnsureArmed(StopTimers(s, true, false));
    EnsureArmed(StopTimers(s, false, true));
    var s1 := match target
              case Closed => EnsureCleanup(StopTimers(s, true, false))
              case HalfOpened => StopTimers(s, true, true)
              case Opened => EnsureHalf(StopTimers(s, false, true));
    SameArmed(s1, SwitchTimers(s, target));
  }

  lemma CasKept(s: State, step: Step)
    requires CasInv(s) && Enabled(s, step)
    ensures CasInv(Perform(s, step))
  {
  }

  // ----- origins

  /** Only a dial that loads the state changes an origin, and only a store changes the state. */
  lemma GoRecords(s: State, id: nat)
    requires Enabled(s, Go(id))
    ensures var s' := GoStep(s, id);
            && s'.origin == (if s.jobs[id].Loading? then s.origin[id := Dial(Some(s.state), None)] else s.origin)
            && s'.state == (if s.jobs[id].Switching? && s.jobs[id].stage == Store then s.jobs[id].target else s.state)
  {
    hide StopTimers, SwitchTimers;
    if s.jobs[id].Switching? {
      SwitchRecords(s, id);
    } else if s.jobs[id].InClosed? {
      FailureRecords(s, id);
    }
  }

  lemma SwitchRecords(s: State, id: nat)
    requires id in s.jobs && s.jobs[id].Switching?
    ensures var s' := GoStep(s, id);
            s'.origin == s.origin && s'.state == if s.jobs[id].stage == Store then s.jobs[id].target else s.state
  {
    hide SwitchTimers;
  }

  lemma FailureRecords(s: State, id: nat)
    ensures var s' := RecordFailure(s, id); s'.origin == s.origin && s'.state == s.state
  {
    hide Wrapped;
  }

  /** A job that does not move keeps what is known of it: only the holder of the mutex changes the state. */
  lemma OtherKnown(s: State, step: Step, id: nat)
    requires MutexInv(s) && OriginInv(s) && Enabled(s, step) && id in Perform(s, step).jobs && id != step.id
    ensures var s' := Perform(s, step); id in s'.origin && Known(s'.state, s'.jobs[id], s'.origin[id])
  {
    hide GoStep, Cause;
    var s' := Perform(s, step);
    if step.Go? {
      GoMovesOne(s, step.id);
      GoRecords(s, step.id);
    }
    assert id in s.jobs && s'.jobs[id] == s.jobs[id] && s'.origin[id] == s.origin[id];
    if s'.state != s.state {
      assert Holding(s, step.id) && s.mutex == Some(step.id);
      assert !Holding(s, id);
    }
  }

  lemma MoverKnown(s: State, step: Step)
    requires OriginInv(s) && Enabled(s, step) && step.id in Perform(s, step).jobs
    ensures var s' := Perform(s, step); step.id in s'.origin && Known(s'.state, s'.jobs[step.id], s'.origin[step.id])
  {
    hide GoStep, Cause;
    if step.Go? {
      GoKnown(s, step.id);
    }
  }

  lemma GoKnown(s: State, id: nat)
    requires Enabled(s, Go(id)) && id in s.origin && Known(s.state, s.jobs[id], s.origin[id])
    requires id in GoStep(s, id).jobs
    ensures var s' := GoStep(s, id); id in s'.origin && Known(s'.state, s'.jobs[id], s'.origin[id])
  {
    if Holds(s.jobs[id]) {
      HolderKnown(s, id);
    } else {
      OutsideKnown(s, id);
    }
  }

  lemma HolderKnown(s: State, id: nat)
    requires Enabled(s, Go(id)) && id in s.origin && Known(s.state, s.jobs[id], s.origin[id])
    requires Holds(s.jobs[id]) && !s.jobs[id].Leaving?
    ensures var s' := GoStep(s, id); id in s'.jobs && id in s'.origin && Known(s'.state, s'.jobs[id], s'.origin[id])
  {
    hide StopTimers, SwitchTimers;
  }

  lemma OutsideKnown(s: State, id: nat)
    requires Enabled(s, Go(id)) && id in s.origin && Known(s.state, s.jobs[id], s.origin[id])
    requires !Holds(s.jobs[id]) && id in GoStep(s, id).jobs
    ensures var s' := GoStep(s, id); id in s'.origin && Known(s'.state, s'.jobs[id], s'.origin[id])
  {
    hide StopTimers, SwitchTimers, RecordFailure, Cause;
  }

  lemma OriginKept(s: State, step: Step)
    requires MutexInv(s) && OriginInv(s) && Enabled(s, step)
    ensures OriginInv(Perform(s, step))
  {
    hide Known;
    var s' := Perform(s, step);
    forall id | id in s'.jobs ensures id in s'.origin && Known(s'.state, s'.jobs[id], s'.origin[id]) {
      if id == step.id {
        MoverKnown(s, step);
      } else {
        OtherKnown(s, step, id);
      }
    }
  }

  // ----- failures

  lemma SinceSwitchSnoc(log: seq<Event>, e: Event)
    ensures SinceSwitch(log + [e]) == if e.Switch? then [] else SinceSwitch(log) + [e]
  {
    assert (log + [e])[..|log|] == log;
  }

  /** Only the holder of the mutex touches what the failure invariant speaks of. */
  lemma FailureKept(s: State, step: Step)
    requires MutexInv(s) && FailureInv(s) && Enabled(s, step)
    ensures FailureInv(Perform(s, step))
  {
    hide SinceSwitch, AllFailures;
    if step.Go? && Holds(s.jobs[step.id]) {
      HolderFailures(s, step.id);
    } else {
      var s' := Perform(s, step);
      assert s'.log == s.log && s'.failures == s.failures && s'.state == s.state;
      if step.Go? && Waits(s.jobs[step.id]) {
        assert Holder(s) == None && Holder(s').Some? && !Holder(s').value.Switching?;
      } else {
        assert Holder(s') == Holder(s);
      }
    }
  }

  lemma HolderFailures(s: State, id: nat)
    requires MutexInv(s) && FailureInv(s) && id in s.jobs && Holds(s.jobs[id])
    ensures FailureInv(GoStep(s, id))
  {
    hide SinceSwitch, AllFailures, StopTimers, SwitchTimers;
    var s' := GoStep(s, id);
    assert Holder(s) == Some(s.jobs[id]);
    match s.jobs[id] {
      case InClosed(ok) =>
        if ok {
          assert Holder(s') == Some(Switching(Closed, Timers));
        } else {
          FailureRecorded(s, id);
        }
      case Switching(target, stage) =>
        if stage == Timers {
          assert s'.log[..|s'.log| - 1] == s.log;
        } else if stage == Store {
          EndsInSwitch(s.log);
        }
      case Leaving =>
        assert Holder(s') == None;
      case InReset =>
        assert Holder(s') == Some(s'.jobs[id]);
      case InHalf(ok) =>
        assert Holder(s') == Some(s'.jobs[id]);
      case InTry(t) =>
        assert Holder(s') == Some(s'.jobs[id]);
    }
  }

  lemma FailureRecorded(s: State, id: nat)
    requires s.mutex == Some(id) && FailureInv(s) && id in s.jobs && s.jobs[id] == InClosed(false)
    ensures FailureInv(RecordFailure(s, id))
  {
    hide SinceSwitch, Wrapped;
    var tail := SinceSwitch(s.log);
    SinceSwitchSnoc(s.log, Failure);
    WrappedSuccessor(|tail|);
    WrappedSuccessor(|tail| + 1);
    assert SinceSwitch(RecordFailure(s, id).log) == tail + [Failure];
  }

  lemma EndsInSwitch(log: seq<Event>)
    requires log != [] && log[|log| - 1].Switch?
    ensures SinceSwitch(log) == [] && AllFailures([])
  {
  }

  // ----- timers

  /** A callback still to come stays so while other jobs change. */
  lemma CleanupStays(s: State, s': State, id: nat)
    requires CleanupBacked(s) && s'.cleanupRef == s.cleanupRef
    requires s.cleanupRef.value in s.armed ==> s.cleanupRef.value in s'.armed
    requires forall j :: j in s.jobs && j != id ==> j in s'.jobs && s'.jobs[j] == s.jobs[j]
    requires id in s.jobs ==> !s.jobs[id].WaitReset?
    ensures CleanupBacked(s')
  {
    if s.cleanupRef.value !in s.armed {
      var j :| j in s.jobs && s.jobs[j] == WaitReset(s.cleanupRef.value);
      assert j in s'.jobs && s'.jobs[j] == WaitReset(s'.cleanupRef.value);
    }
  }

  lemma HalfStays(s: State, s': State, id: nat)
    requires HalfBacked(s) && s'.halfRef == s.halfRef
    requires s.halfRef.value in s.armed ==> s.halfRef.value in s'.armed
    requires forall j :: j in s.jobs && j != id ==> j in s'.jobs && s'.jobs[j] == s.jobs[j]
    requires id in s.jobs ==> !s.jobs[id].WaitTry?
    ensures HalfBacked(s')
  {
    if s.halfRef.value !in s.armed {
      var j :| j in s.jobs && s.jobs[j] == WaitTry(s.halfRef.value);
      assert j in s'.jobs && s'.jobs[j] == WaitTry(s'.halfRef.value);
    }
  }

  /** Whatever timers matched still match when no timer, reference or callback changes. */
  lemma MatchStays(s: State, s': State, id: nat, b: BState)
    requires TimersMatch(s, b) && s'.cleanupRef == s.cleanupRef && s'.halfRef == s.halfRef && s'.armed == s.armed
    requires forall j :: j in s.jobs && j != id ==> j in s'.jobs && s'.jobs[j] == s.jobs[j]
    requires id in s.jobs ==> (b == Closed ==> !s.jobs[id].WaitReset?) && (b == Opened ==> !s.jobs[id].WaitTry?)
    ensures TimersMatch(s', b)
  {
    hide CleanupBacked, HalfBacked;
    if b == Closed {
      CleanupStays(s, s', id);
    } else if b == Opened {
      HalfStays(s, s', id);
    }
  }

  /** A timer that fires leaves its callback behind. */
  lemma FireKeeps(s: State, t: nat, id: nat)
    requires ArmedInv(s) && Enabled(s, Fire(t, id))
    ensures var s' := Perform(s, Fire(t, id));
            && (CleanupBacked(s) ==> CleanupBacked(s'))
            && (HalfBacked(s) ==> HalfBacked(s'))
  {
    var s' := Perform(s, Fire(t, id));
    assert s'.jobs[id] == if s.armed[t] == CleanupTimer then WaitReset(t) else WaitTry(t);
    if CleanupBacked(s) && s.cleanupRef.value != t {
      CleanupStays(s, s', id);
    }
    if HalfBacked(s) && s.halfRef.value != t {
      HalfStays(s, s', id);
    }
  }

  lemma TimerKept(s: State, step: Step)
    requires MutexInv(s) && ArmedInv(s) && TimerInv(s) && Enabled(s, step)
    ensures TimerInv(Perform(s, step))
  {
    var s' := Perform(s, step);
    if step.Fire? {
      assert Holder(s') == Holder(s);
      FireKeeps(s, step.timer, step.id);
      hide CleanupBacked, HalfBacked, ArmedInv, MutexInv;
    } else if step.Go? && Holds(s.jobs[step.id]) {
      HolderTimers(s, step.id);
    } else if step.Go? && Waits(s.jobs[step.id]) {
      LockTimers(s, step.id);
    } else {
      OutsideTimers(s, step);
    }
  }

  /** A step that neither takes, holds nor needs the mutex. */
  predicate IsOutside(s: State, step: Step) {
    && Enabled(s, step) && !step.Fire?
    && (step.Go? ==> !Holds(s.jobs[step.id]) && !Waits(s.jobs[step.id]))
  }

  lemma OutsideChanges(s: State, step: Step)
    requires MutexInv(s) && IsOutside(s, step)
    ensures var s' := Perform(s, step);
            && Holder(s') == Holder(s) && s'.state == s.state
            && s'.cleanupRef == s.cleanupRef && s'.halfRef == s.halfRef && s'.armed == s.armed
            && forall i :: i in s.jobs && i != step.id ==> i in s'.jobs && s'.jobs[i] == s.jobs[i]
  {
    hide StopTimers, SwitchTimers, RecordFailure;
  }

  lemma OutsideTimers(s: State, step: Step)
    requires MutexInv(s) && TimerInv(s) && IsOutside(s, step)
    ensures TimerInv(Perform(s, step))
  {
    hide TimersMatch, CleanupBacked, HalfBacked, MutexInv, Perform;
    OutsideChanges(s, step);
    var s' := Perform(s, step);
    forall b | TimersMatch(s, b) ensures TimersMatch(s', b) {
      MatchStays(s, s', step.id, b);
    }
    if CleanupBacked(s) {
      CleanupStays(s, s', step.id);
    }
  }

  lemma LockTimers(s: State, id: nat)
    requires MutexInv(s) && TimerInv(s) && Enabled(s, Go(id)) && Waits(s.jobs[id])
    ensures TimerInv(GoStep(s, id))
  {
    hide CleanupBacked, HalfBacked, MutexInv;
    var s' := GoStep(s, id);
    assert Holder(s) == None && Holder(s') == Some(s'.jobs[id]);
    if (s.state == Closed ==> !s.jobs[id].WaitReset?) && (s.state == Opened ==> !s.jobs[id].WaitTry?) {
      MatchStays(s, s', id, s.state);
    }
  }

  lemma HolderTimers(s: State, id: nat)
    requires MutexInv(s) && ArmedInv(s) && TimerInv(s) && id in s.jobs && Holds(s.jobs[id])
    ensures TimerInv(GoStep(s, id))
  {
    assert s.mutex == Some(id);
    hide ArmedInv, MutexInv, TimerInv;
    if !s.jobs[id].Switching? {
      SectionTimers(s, id);
    } else if s.jobs[id].stage == Timers {
      SwitchingTimers(s, id);
    } else {
      StoringTimers(s, id);
    }
  }

  /** Before a switch the timers are those of the state still. */
  lemma SectionTimers(s: State, id: nat)
    requires TimerInv(s) && id in s.jobs && Holds(s.jobs[id]) && s.mutex == Some(id)
    requires !s.jobs[id].Switching?
    ensures TimerInv(GoStep(s, id))
  {
    hide CleanupBacked, HalfBacked;
    if s.jobs[id].InReset? {
      ResetTimers(s, id);
    } else if TimersMatch(s, s.state) {
      MatchStays(s, GoStep(s, id), id, s.state);
    }
  }

  /** resetFailures stops the timer that called it. */
  lemma ResetTimers(s: State, id: nat)
    requires TimerInv(s) && id in s.jobs && s.jobs[id].InReset? && s.mutex == Some(id)
    ensures TimerInv(GoStep(s, id))
  {
    hide CleanupBacked, HalfBacked;
    if s.state == Opened {
      HalfStays(s, GoStep(s, id), id);
    }
  }

  /** After the timers were switched nothing touches them any more. */
  lemma StoringTimers(s: State, id: nat)
    requires TimerInv(s) && id in s.jobs && s.mutex == Some(id)
    requires s.jobs[id].Switching? && s.jobs[id].stage != Timers
    ensures TimerInv(GoStep(s, id))
  {
    hide TimersMatch;
    MatchStays(s, GoStep(s, id), id, s.jobs[id].target);
  }

  /** After the first stage of switchState the timers are those of the target. */
  lemma SwitchingTimers(s: State, id: nat)
    requires MutexInv(s) && ArmedInv(s) && TimerInv(s) && id in s.jobs
    requires s.jobs[id].Switching? && s.jobs[id].stage == Timers
    ensures TimerInv(GoStep(s, id))
  {
    var s', target := GoStep(s, id), s.jobs[id].target;
    assert Holder(s) == Some(s.jobs[id]) && Holder(s') == Some(Switching(target, Attempts));
    if target == Closed && s.cleanupRef.Some? {
      CleanupStays(s, s', id);
    }
  }

  // ----- every run

  lemma InitInv(threshold: u32)
    ensures Inv(Init(threshold))
  {
  }

  lemma {:induction false} AlwaysInv(s: State, steps: seq<Step>)
    requires Inv(s) && Exec(s, steps).Some?
    ensures Inv(Exec(s, steps).value)
  {
    hide MutexInv, ArmedInv, TimerInv, FailureInv, CasInv, OriginInv, Perform, Enabled;
    if steps != [] {
      AlwaysInv(s, steps[..|steps| - 1]);
      var m, step := Exec(s, steps[..|steps| - 1]).value, steps[|steps| - 1];
      MutexKept(m, step);
      ArmedKept(m, step);
      TimerKept(m, step);
      FailureKept(m, step);
      CasKept(m, step);
      OriginKept(m, step);
    }
  }

  /**
   In every reachable state with the mutex free the armed timers are those of the
   state: the cleanup timer when closed, the half-open timer when opened, none when
   half-opened. A closed or opened breaker has its timer armed or that timer's
   callback still to run, so an opened breaker is always going to try again.
   */
  lemma TimersAlwaysMatch(threshold: u32, steps: seq<Step>, s: State)
    requires Exec(Init(threshold), steps) == Some(s) && s.mutex == None
    ensures TimersMatch(s, s.state)
    ensures forall t :: t in s.armed ==>
              match s.state
              case Closed => s.armed[t] == CleanupTimer && s.cleanupRef == Some(t)
              case HalfOpened => false
              case Opened => s.armed[t] == HalfOpenTimer && s.halfRef == Some(t)
  {
    hide Exec, FailureInv, CasInv, MutexInv;
    InitInv(threshold);
    AlwaysInv(Init(threshold), steps);
    assert Holder(s) == None;
  }

  /** At most one half-open trial is admitted between two resets of the attempt counter. */
  lemma OneTrialPerReset(threshold: u32, steps: seq<Step>, s: State)
    requires Exec(Init(threshold), steps) == Some(s)
    ensures s.casSinceReset <= 1
  {
    hide Exec, FailureInv, TimerInv, ArmedInv, MutexInv;
    InitInv(threshold);
    AlwaysInv(Init(threshold), steps);
  }

  /** While closed, the counter is the number of failures since the last switch, and below the limit. */
  lemma ClosedCountsFailures(threshold: u32, steps: seq<Step>, s: State)
    requires Exec(Init(threshold), steps) == Some(s) && s.mutex == None && s.state == Closed
    ensures AllFailures(SinceSwitch(s.log)) && s.failures == |SinceSwitch(s.log)| < Limit(s)
  {
    hide Exec, CasInv, TimerInv, ArmedInv, MutexInv;
    InitInv(threshold);
    AlwaysInv(Init(threshold), steps);
    assert Holder(s) == None;
    WrappedSuccessor(|SinceSwitch(s.log)|);
  }

  /**
   The step that turns a closed breaker into an opened one comes after exactly the
   limit of failed dials since the switch before, with no success among them.
   */
  lemma OpensAtTheLimit(threshold: u32, steps: seq<Step>, s: State, step: Step)
    requires Exec(Init(threshold), steps) == Some(s) && Enabled(s, step)
    requires s.state == Closed && Perform(s, step).state == Opened
    ensures |s.log| > 0 && s.log[|s.log| - 1] == Switch(Opened)
    ensures JustEnough(s, s.log[..|s.log| - 1])
  {
    hide Exec, CasInv, TimerInv, ArmedInv, OriginInv, GoStep, SinceSwitch;
    if step.Go? {
      GoRecords(s, step.id);
    }
    InitInv(threshold);
    AlwaysInv(Init(threshold), steps);
    assert Holder(s) == Some(s.jobs[step.id]);
  }

  /** And the failed dial that reaches the limit always opens it. */
  lemma LimitOpens(threshold: u32, steps: seq<Step>, s: State, id: nat)
    requires Exec(Init(threshold), steps) == Some(s) && id in s.jobs && s.jobs[id] == InClosed(false)
    requires s.state == Closed
    ensures Perform(s, Go(id)).jobs[id] == Switching(Opened, Timers) <==> |SinceSwitch(s.log)| + 1 == Limit(s)
  {
    hide Exec, CasInv, TimerInv, ArmedInv, SinceSwitch, Wrapped;
    InitInv(threshold);
    AlwaysInv(Init(threshold), steps);
    assert Holder(s) == Some(s.jobs[id]);
    WrappedSuccessor(|SinceSwitch(s.log)|);
    WrappedSuccessor(|SinceSwitch(s.log)| + 1);
  }

  /**
   Every change of the state has its cause: a closed breaker opens after a dial that
   began while it was closed and failed, a half-opened one after its trial failed; it
   is closed again by a trial that succeeded, or by a dial that began while it was
   closed and succeeded late; and an opened one becomes half-opened by its timer only.
   */
  lemma ChangesHaveCauses(threshold: u32, steps: seq<Step>, s: State, step: Step)
    requires Exec(Init(threshold), steps) == Some(s) && Enabled(s, step) && Perform(s, step).state != s.state
    ensures step.Go? && step.id in s.origin
    ensures match (s.state, Perform(s, step).state)
            case (Closed, Opened) => s.origin[step.id] == Dial(Some(Closed), Some(false))
            case (HalfOpened, Opened) => s.origin[step.id] == Dial(Some(HalfOpened), Some(false))
            case (HalfOpened, Closed) => s.origin[step.id] == Dial(Some(HalfOpened), Some(true))
                                         || s.origin[step.id] == Dial(Some(Closed), Some(true))
            case (Opened, HalfOpened) => s.origin[step.id] == Callback(HalfOpenTimer)
            case (Opened, Closed) => s.origin[step.id] == Dial(Some(Closed), Some(true))
            case (_, _) => false
  {
    hide Exec, MutexInv, FailureInv, CasInv, TimerInv, ArmedInv, GoStep;
    InitInv(threshold);
    AlwaysInv(Init(threshold), steps);
    if step.Go? {
      GoRecords(s, step.id);
    }
  }

  /** A dial is in the base dialer only if it found the breaker closed, or half-opened as the one trial. */
  lemma OpenedRefusesDials(threshold: u32, steps: seq<Step>, s: State, id: nat)
    requires Exec(Init(threshold), steps) == Some(s) && id in s.jobs
    ensures id in s.origin && (s.origin[id].Dial? ==> s.origin[id].loaded != Some(Opened))
    ensures s.jobs[id].DialClosed? ==> s.origin[id] == Dial(Some(Closed), None)
    ensures s.jobs[id].DialHalf? ==> s.origin[id] == Dial(Some(HalfOpened), None)
  {
    hide Exec, MutexInv, FailureInv, CasInv, TimerInv, ArmedInv;
    InitInv(threshold);
    AlwaysInv(Init(threshold), steps);
  }

  // ----- a critical section as a whole

  /** The state that a job with the mutex in its hands is going to switch to, if any. */
  function Decision(s: State, o: Origin): (target: Option<BState>) {
    match o
    case Dial(Some(Closed), Some(ok)) =>
      if ok then Some(Closed)
      else if s.state == Closed && |SinceSwitch(s.log)| + 1 == Limit(s) then Some(Opened)
      else None
    case Dial(Some(HalfOpened), Some(ok)) =>
      if s.state != HalfOpened then None else if ok then Some(Closed) else Some(Opened)
    case Callback(CleanupTimer) => if s.state == Closed then Some(Closed) else None
    case Callback(HalfOpenTimer) => if s.state == Opened then Some(HalfOpened) else None
    case _ => None
  }

  /** How often a job moves in a run. */
  function Moves(steps: seq<Step>, id: nat): (n: nat) {
    if steps == [] then 0
    else Moves(steps[..|steps| - 1], id) + if steps[|steps| - 1] == Go(id) then 1 else 0
  }

  /** Took the mutex and decides next. */
  predicate Entered(j: Job) {
    j.InClosed? || j.InHalf? || j.InReset? || j.InTry?
  }

  /** Where the job of a section stands after so many moves of its own, and what the state is then. */
  ghost predicate Progress(s: State, id: nat, target: Option<BState>, moves: nat, t: State) {
    && id in s.jobs && id in t.jobs && t.mutex == Some(id)
    && if moves == 0 then
         t.jobs[id] == s.jobs[id] && t.state == s.state && t.log == s.log && t.failures == s.failures
         && t.threshold == s.threshold
       else if target == None then moves == 1 && t.jobs[id] == Leaving && t.state == s.state
       else match moves
            case 1 => t.jobs[id] == Switching(target.value, Timers) && t.state == s.state
            case 2 => t.jobs[id] == Switching(target.value, Attempts) && t.state == s.state
            case 3 => t.jobs[id] == Switching(target.value, Store) && t.state == s.state
            case 4 => t.jobs[id] == Leaving && t.state == target.value
            case _ => false
  }

  /** Nobody else moves the holder of the mutex, or what it decides by. */
  lemma OthersDoNotDisturb(s: State, id: nat, target: Option<BState>, moves: nat, m: State, step: Step)
    requires MutexInv(m) && Progress(s, id, target, moves, m) && Enabled(m, step) && step != Go(id)
    ensures Progress(s, id, target, moves, Perform(m, step))
  {
    var t := Perform(m, step);
    if step.Go? {
      assert !Holding(m, step.id);
    }
    hide Progress;
    assert t.jobs[id] == m.jobs[id] && t.mutex == m.mutex && t.state == m.state;
    assert t.log == m.log && t.failures == m.failures && t.threshold == m.threshold;
    SameProgress(s, id, target, moves, m, t);
  }

  lemma SameProgress(s: State, id: nat, target: Option<BState>, moves: nat, m: State, t: State)
    requires Progress(s, id, target, moves, m) && id in t.jobs && t.jobs[id] == m.jobs[id] && t.mutex == m.mutex
    requires t.state == m.state && t.log == m.log && t.failures == m.failures && t.threshold == m.threshold
    ensures Progress(s, id, target, moves, t)
  {
  }

  /** The first move of the section follows the decision. */
  lemma Decides(s: State, id: nat, m: State)
    requires Inv(s) && id in s.jobs && Entered(s.jobs[id]) && s.mutex == Some(id)
    requires id in s.origin && Progress(s, id, Decision(s, s.origin[id]), 0, m)
    ensures Progress(s, id, Decision(s, s.origin[id]), 1, GoStep(m, id))
  {
    hide MutexInv, ArmedInv, TimerInv, CasInv, SinceSwitch, Wrapped, StopTimers, AllFailures;
    assert Known(s.state, s.jobs[id], s.origin[id]);
    assert Holder(s) == Some(s.jobs[id]);
    WrappedSuccessor(|SinceSwitch(s.log)|);
    WrappedSuccessor(|SinceSwitch(s.log)| + 1);
  }

  lemma Continues(s: State, id: nat, target: BState, moves: nat, m: State)
    requires 1 <= moves <= 3 && Progress(s, id, Some(target), moves, m)
    ensures Progress(s, id, Some(target), moves + 1, GoStep(m, id))
  {
    hide SwitchTimers;
  }

  /**
   A critical section is one step: however other jobs run in between, its job leaves
   it with the state that was decided when it took the mutex, or with the state
   unchanged if there is nothing to switch to.
   */
  lemma {:induction false} SectionVerdict(s: State, id: nat, more: seq<Step>)
    requires Inv(s) && id in s.jobs && Entered(s.jobs[id]) && id in s.origin && Exec(s, more).Some?
    requires Moves(more, id) <= if Decision(s, s.origin[id]).Some? then 4 else 1
    ensures Progress(s, id, Decision(s, s.origin[id]), Moves(more, id), Exec(s, more).value)
  {
    hide Inv, Perform, Enabled, Progress, Decision;
    var target := Decision(s, s.origin[id]);
    if more == [] {
      SectionStarts(s, id, target);
    } else {
      var fewer, step := more[..|more| - 1], more[|more| - 1];
      var m := Exec(s, fewer).value;
      SectionVerdict(s, id, fewer);
      AlwaysInv(s, fewer);
      SectionMoves(s, id, target, Moves(fewer, id), m, step);
    }
  }

  lemma SectionStarts(s: State, id: nat, target: Option<BState>)
    requires Inv(s) && id in s.jobs && Entered(s.jobs[id])
    ensures Progress(s, id, target, 0, s)
  {
  }

  lemma SectionMoves(s: State, id: nat, target: Option<BState>, moves: nat, m: State, step: Step)
    requires Inv(s) && Inv(m) && id in s.jobs && Entered(s.jobs[id]) && id in s.origin
    requires target == Decision(s, s.origin[id]) && Progress(s, id, target, moves, m) && Enabled(m, step)
    requires step == Go(id) ==> moves < if target.Some? then 4 else 1
    ensures Progress(s, id, target, if step == Go(id) then moves + 1 else moves, Perform(m, step))
  {
    hide GoStep, Decision, Progress, ArmedInv, TimerInv, CasInv, FailureInv, OriginInv;
    if step != Go(id) {
      OthersDoNotDisturb(s, id, target, moves, m, step);
    } else if moves == 0 {
      assert s.mutex == Some(id);
      Decides(s, id, m);
    } else {
      Continues(s, id, target.value, moves, m);
    }
  }

  /**
   A trial that takes the mutex of a half-opened breaker leaves it closed if and only
   if it succeeded, and opened otherwise, in every run.
   */
  lemma TrialDecides(threshold: u32, before: seq<Step>, s: State, id: nat, more: seq<Step>, t: State)
    requires Exec(Init(threshold), before) == Some(s) && s.state == HalfOpened
    requires id in s.jobs && s.jobs[id].InHalf?
    requires Exec(s, more) == Some(t) && Moves(more, id) == 4
    ensures id in s.origin && s.origin[id].Dial? && id in t.jobs && t.jobs[id] == Leaving
    ensures t.state == Closed <==> s.origin[id].returned == Some(true)
    ensures t.state == Opened <==> s.origin[id].returned == Some(false)
  {
    hide Exec, MutexInv, ArmedInv, TimerInv, CasInv, FailureInv;
    InitInv(threshold);
    AlwaysInv(Init(threshold), before);
    SectionVerdict(s, id, more);
  }

  // ----- a half-opened breaker that nobody can move

  /** A job that may still switch a half-opened breaker. */
  predicate CanMove(j: Job) {
    j.DialClosed? || j == WaitClosed(true) || j.DialHalf? || j.WaitHalf?
  }

  /** Half-opened, the only trial used up, and nobody under way who could change that. */
  ghost predicate Stuck(s: State) {
    && s.state == HalfOpened && s.attempts == 1 && s.armed == map[]
    && s.halfRef == None && s.cleanupRef == None
    && (forall id :: id in s.jobs ==> !CanMove(s.jobs[id]) && !s.jobs[id].Switching?
                                      && s.jobs[id] != InClosed(true) && !s.jobs[id].InHalf?)
  }

  lemma StuckKept(s: State, step: Step)
    requires Stuck(s) && Enabled(s, step)
    ensures Stuck(Perform(s, step))
  {
  }

  /** Then no run whatsoever leaves the state: every further dial is refused. */
  lemma {:induction false} StuckForever(s: State, steps: seq<Step>)
    requires Stuck(s) && Exec(s, steps).Some?
    ensures Stuck(Exec(s, steps).value)
  {
    hide Stuck, Perform, Enabled;
    if steps != [] {
      StuckForever(s, steps[..|steps| - 1]);
      StuckKept(Exec(s, steps[..|steps| - 1]).value, steps[|steps| - 1]);
    }
  }

  lemma {:induction false} StepThen(s: State, step: Step, more: seq<Step>)
    requires Enabled(s, step) && Exec(Perform(s, step), more).Some?
    ensures Exec(s, [step] + more) == Exec(Perform(s, step), more)
  {
    hide Perform, Enabled;
    if more == [] {
      assert [step] + more == [step] && [step][..0] == [];
    } else {
      var all, fewer := [step] + more, more[..|more| - 1];
      assert all[..|all| - 1] == [step] + fewer;
      StepThen(s, step, fewer);
    }
  }

  lemma {:induction false} ExecAppend(s: State, xs: seq<Step>, ys: seq<Step>)
    requires Exec(s, xs).Some?
    ensures Exec(s, xs + ys) == Exec(Exec(s, xs).value, ys)
    decreases |ys|
  {
    hide Perform, Enabled;
    if ys == [] {
      assert xs + ys == xs;
    } else {
      var fewer := ys[..|ys| - 1];
      assert (xs + ys)[..|xs + ys| - 1] == xs + fewer;
      ExecAppend(s, xs, fewer);
    }
  }

  /** The holder of the mutex can always carry a switch to its end. */
  lemma {:induction false} FinishSwitch(s: State, id: nat) returns (steps: seq<Step>)
    requires id in s.jobs && s.jobs[id].Switching?
    ensures Exec(s, steps).Some?
    ensures var t := Exec(s, steps).value;
            t.state == s.jobs[id].target && t.mutex == None && t.jobs == s.jobs - {id}
            && t.attempts == (if s.jobs[id].stage == Store then s.attempts else 0) && t.threshold == s.threshold
            && (s.jobs[id].stage != Timers ==>
                  t.halfRef == s.halfRef && t.cleanupRef == s.cleanupRef && t.armed == s.armed)
    decreases match s.jobs[id].stage case Timers => 2 case Attempts => 1 case Store => 0
  {
    var s1 := Perform(s, Go(id));
    if s.jobs[id].stage == Store {
      var s2 := Perform(s1, Go(id));
      assert Exec(s2, []) == Some(s2);
      StepThen(s1, Go(id), []);
      StepThen(s, Go(id), [Go(id)] + []);
      steps := [Go(id)] + ([Go(id)] + []);
      assert s2.jobs == s.jobs - {id};
    } else {
      var more := FinishSwitch(s1, id);
      StepThen(s, Go(id), more);
      steps := [Go(id)] + more;
      assert s1.jobs - {id} == s.jobs - {id};
    }
  }

  /** A trial that returned can still take the mutex and switch. */
  lemma TrialSwitches(s: State, id: nat) returns (steps: seq<Step>)
    requires s.state == HalfOpened && s.mutex == None && id in s.jobs && s.jobs[id].WaitHalf?
    ensures Exec(s, steps).Some? && Exec(s, steps).value.state != HalfOpened
  {
    hide Exec;
    var s1 := Perform(s, Go(id));
    var s2 := Perform(s1, Go(id));
    hide GoStep;
    var more := FinishSwitch(s2, id);
    StepThen(s1, Go(id), more);
    StepThen(s, Go(id), [Go(id)] + more);
    steps := [Go(id)] + ([Go(id)] + more);
  }

  lemma LateSuccessSwitches(s: State, id: nat) returns (steps: seq<Step>)
    requires s.state == HalfOpened && s.mutex == None && id in s.jobs && s.jobs[id] == WaitClosed(true)
    ensures Exec(s, steps).Some? && Exec(s, steps).value.state != HalfOpened
  {
    hide Exec;
    var s1 := Perform(s, Go(id));
    var s2 := Perform(s1, Go(id));
    hide GoStep;
    var more := FinishSwitch(s2, id);
    StepThen(s1, Go(id), more);
    StepThen(s, Go(id), [Go(id)] + more);
    steps := [Go(id)] + ([Go(id)] + more);
  }

  lemma MoverSwitches(s: State, id: nat) returns (steps: seq<Step>)
    requires s.state == HalfOpened && s.mutex == None && id in s.jobs && CanMove(s.jobs[id])
    ensures Exec(s, steps).Some? && Exec(s, steps).value.state != HalfOpened
  {
    hide Exec;
    if s.jobs[id].DialClosed? || s.jobs[id].DialHalf? {
      var s1 := Perform(s, DialReturns(id, true));
      var more;
      if s.jobs[id].DialClosed? {
        more := LateSuccessSwitches(s1, id);
      } else {
        more := TrialSwitches(s1, id);
      }
      StepThen(s, DialReturns(id, true), more);
      steps := [DialReturns(id, true)] + more;
    } else if s.jobs[id].WaitHalf? {
      steps := TrialSwitches(s, id);
    } else {
      steps := LateSuccessSwitches(s, id);
    }
  }

  /** A new dial becomes the trial while none was admitted. */
  lemma NewTrial(s: State) returns (id: nat, steps: seq<Step>)
    requires s.state == HalfOpened && s.attempts == 0
    ensures id !in s.jobs && Exec(s, steps).Some?
    ensures Exec(s, steps).value
         == s.(jobs := s.jobs[id := DialHalf], attempts := 1, casSinceReset := s.casSinceReset + 1,
               origin := s.origin[id := Dial(Some(HalfOpened), None)])
  {
    id := FreshId(s.jobs.Keys);
    var s1 := Perform(s, NewDial(id));
    var s2 := Perform(s1, Go(id));
    var s3 := Perform(s2, Go(id));
    assert s3.jobs == s.jobs[id := DialHalf];
    assert s3.origin == s.origin[id := Dial(Some(HalfOpened), None)];
    assert Exec(s3, []) == Some(s3);
    hide Exec, Perform;
    StepThen(s2, Go(id), []);
    StepThen(s1, Go(id), [Go(id)] + []);
    StepThen(s, NewDial(id), [Go(id)] + ([Go(id)] + []));
    steps := [NewDial(id)] + ([Go(id)] + ([Go(id)] + []));
  }

  ghost predicate CanLeave(s: State) {
    exists steps :: Exec(s, steps).Some? && Exec(s, steps).value.state != HalfOpened
  }

  /**
   A half-opened breaker with its mutex free can be left if and only if its trial is
   still to be given, or a trial, or a dial begun while closed that has not failed,
   is under way.
   */
  lemma HalfOpenedCanBeLeft(threshold: u32, before: seq<Step>, s: State)
    requires Exec(Init(threshold), before) == Some(s) && s.state == HalfOpened && s.mutex == None
    ensures CanLeave(s) <==> s.attempts == 0 || exists id :: id in s.jobs && CanMove(s.jobs[id])
  {
    hide TimerInv, FailureInv, Exec;
    InitInv(threshold);
    AlwaysInv(Init(threshold), before);
    TimersAlwaysMatch(threshold, before, s);
    if s.attempts == 0 {
      var id, first := NewTrial(s);
      var s1 := Exec(s, first).value;
      var more := MoverSwitches(s1, id);
      ExecAppend(s, first, more);
      assert Exec(s, first + more).value.state != HalfOpened;
    } else if exists id :: id in s.jobs && CanMove(s.jobs[id]) {
      var id :| id in s.jobs && CanMove(s.jobs[id]);
      var steps := MoverSwitches(s, id);
    } else {
      assert s.armed == map[];
      assert Stuck(s);
      forall steps | Exec(s, steps).Some? ensures Exec(s, steps).value.state == HalfOpened {
        StuckForever(s, steps);
      }
    }
  }

  // ----- such a state is reached

  /** Nobody is inside. */
  ghost predicate Quiet(s: State, b: BState) {
    s.state == b && s.mutex == None && s.jobs == map[]
  }

  /** One failed dial opens a breaker whose threshold is at most one. */
  lemma GetsOpened(s: State) returns (steps: seq<Step>)
    requires Quiet(s, Closed) && s.threshold <= 1 && s.failures == 0 && s.halfRef == None
    ensures Exec(s, steps).Some? && Quiet(Exec(s, steps).value, Opened)
    ensures var t := Exec(s, steps).value;
            t.halfRef.Some? && t.halfRef.value in t.armed && t.armed[t.halfRef.value] == HalfOpenTimer
  {
    var first := FailingDial(s);
    var s4 := Exec(s, first).value;
    var s5 := Perform(s4, Go(0));
    assert s5.jobs[0] == Switching(Opened, Timers);
    var s6 := Perform(s5, Go(0));
    assert s6.jobs.Keys == {0} && s6.jobs[0] == Switching(Opened, Attempts);
    assert s6.halfRef.Some? && s6.halfRef.value in s6.armed && s6.armed[s6.halfRef.value] == HalfOpenTimer;
    hide GoStep;
    var more := FinishSwitch(s6, 0);
    assert s6.jobs - {0} == map[];
    hide Exec, Perform;
    StepThen(s5, Go(0), more);
    more := [Go(0)] + more;
    StepThen(s4, Go(0), more);
    more := [Go(0)] + more;
    ExecAppend(s, first, more);
    steps := first + more;
  }

  /** A dial begun while closed fails and takes the mutex. */
  lemma FailingDial(s: State) returns (steps: seq<Step>)
    requires Quiet(s, Closed)
    ensures Exec(s, steps) == Some(s.(jobs := map[0 := InClosed(false)], mutex := Some(0),
                                      origin := s.origin[0 := Dial(Some(Closed), Some(false))]))
  {
    var s1 := Perform(s, NewDial(0));
    var s2 := Perform(s1, Go(0));
    var s3 := Perform(s2, DialReturns(0, false));
    var s4 := Perform(s3, Go(0));
    assert s4.origin == s.origin[0 := Dial(Some(Closed), Some(false))];
    assert s4.jobs == map[0 := InClosed(false)];
    assert Exec(s4, []) == Some(s4);
    hide Exec, Perform;
    StepThen(s3, Go(0), []);
    steps := [Go(0)] + [];
    StepThen(s2, DialReturns(0, false), steps);
    steps := [DialReturns(0, false)] + steps;
    StepThen(s1, Go(0), steps);
    steps := [Go(0)] + steps;
    StepThen(s, NewDial(0), steps);
    steps := [NewDial(0)] + steps;
  }

  lemma GetsHalfOpened(s: State) returns (steps: seq<Step>)
    requires Quiet(s, Opened) && s.halfRef.Some? && s.halfRef.value in s.armed
    requires s.armed[s.halfRef.value] == HalfOpenTimer
    ensures Exec(s, steps).Some? && Quiet(Exec(s, steps).value, HalfOpened) && Exec(s, steps).value.attempts == 0
  {
    var t := s.halfRef.value;
    var s1 := Perform(s, Fire(t, 0));
    var s2 := Perform(s1, Go(0));
    var s3 := Perform(s2, Go(0));
    assert s3.jobs.Keys == {0} && s3.jobs[0] == Switching(HalfOpened, Timers);
    var more := FinishSwitch(s3, 0);
    assert s3.jobs - {0} == map[];
    hide Exec, Perform, Enabled;
    StepThen(s2, Go(0), more);
    more := [Go(0)] + more;
    StepThen(s1, Go(0), more);
    more := [Go(0)] + more;
    StepThen(s, Fire(t, 0), more);
    steps := [Fire(t, 0)] + more;
  }

  /** A trial whose context is cancelled while it waits for the mutex leaves the breaker stuck. */
  lemma CancelledTrialStrands(s: State) returns (steps: seq<Step>)
    requires Quiet(s, HalfOpened) && s.attempts == 0
    requires s.armed == map[] && s.halfRef == None && s.cleanupRef == None
    ensures Exec(s, steps).Some? && Stuck(Exec(s, steps).value)
  {
    var id, first := NewTrial(s);
    var s1 := Exec(s, first).value;
    var s2 := Perform(s1, DialReturns(id, false));
    var s3 := Perform(s2, ContextDone(id));
    assert Stuck(s3);
    assert Exec(s3, []) == Some(s3);
    StepThen(s2, ContextDone(id), []);
    StepThen(s1, DialReturns(id, false), [ContextDone(id)] + []);
    steps := [DialReturns(id, false)] + ([ContextDone(id)] + []);
    ExecAppend(s, first, steps);
    steps := first + steps;
  }

  /** So a half-opened breaker is not always left: this run strands it for good. */
  lemma StrandedRun() returns (steps: seq<Step>)
    ensures Exec(Init(1), steps).Some? && Stuck(Exec(Init(1), steps).value)
  {
    hide Stuck, Enabled, Perform;
    var s := Init(1);
    var a := GetsOpened(s);
    var s1 := Exec(s, a).value;
    var b := GetsHalfOpened(s1);
    var s2 := Exec(s1, b).value;
    ExecAppend(s, a, b);
    TimersAlwaysMatch(1, a + b, s2);
    assert s2.armed == map[];
    var c := CancelledTrialStrands(s2);
    ExecAppend(s, a + b, c);
    steps := a + b + c;
  }
}
