/**
 The idle timer that the goroutines of a relay share (mtglib/conns.go,
 mtglib/internal/relay/relay.go) as a step system over a clock. A touch takes the time
 and stores it in two steps, a check loads the stored time and then looks at the clock,
 and every goroutine does one thing after another.
 */
module IdleTimeout {
  import opened Bytes

  /** A time of activity that was stored, and by whom. */
  datatype Stamp = Stamp(who: nat, at: int)

  /** Where a goroutine stands. The deadline of a read is one timeout after its round began. */
  datatype Proc =
    | Between                                           // outside of reads and touches
    | Reading(start: int, round: int)                   // in the underlying read
    | Expired(start: int, round: int)                   // which reported a timeout
    | Loaded(start: int, round: int, value: int, seen: nat) // about to look at the clock
    | Touching                                          // about to take the time
    | Stamped(at: int)                                  // about to store it

  /** A read that returned a timeout: when it was called, when it failed, and the stores it could have seen. */
  datatype Failure = Failure(who: nat, start: int, at: int, seen: nat)

  datatype State = State(
    timeout: nat,
    now: int,
    lastActive: int,
    procs: seq<Proc>,
    // history
    stored: seq<Stamp>,
    failures: seq<Failure>
  )

  datatype Step =
    | Pass(ns: nat)          // time passes
    | Begin(id: nat)         // a read is called and sets its deadline
    | Data(id: nat)          // it got data
    | Expire(id: nat)        // the network reports that its deadline has passed
    | Abort(id: nat)         // it returns another error
    | Load(id: nat)          // the last activity is loaded
    | Decide(id: nat)        // and compared with the clock
    | Wrote(id: nat)         // a write has sent at least one byte
    | Take(id: nat)          // a touch takes the time
    | Store(id: nat)         // and stores it

  /** A tracker is created touched, before its `n` goroutines do anything. */
  function Init(timeout: nat, now: int, n: nat): State {
    State(timeout, now, now, seq(n, i => Between), [Stamp(0, now)], [])
  }

  predicate Enabled(s: State, step: Step) {
    step.Pass? || (step.id < |s.procs| &&
                   var p := s.procs[step.id];
                   match step
                   case Begin(_) => p.Between?
                   case Data(_) => p.Reading?
                   case Expire(_) => p.Reading? && p.round + s.timeout <= s.now
                   case Abort(_) => p.Reading?
                   case Load(_) => p.Expired?
                   case Decide(_) => p.Loaded?
                   case Wrote(_) => p.Between?
                   case Take(_) => p.Touching?
                   case Store(_) => p.Stamped?)
  }

  function Become(s: State, id: nat, p: Proc): State
    requires id < |s.procs|
  {
    s.(procs := s.procs[id := p])
  }

  /** A read whose check finds recent activity begins another round with a new deadline. */
  function Perform(s: State, step: Step): State
    requires Enabled(s, step)
  {
    match step
    case Pass(ns) => s.(now := s.now + ns)
    case Begin(id) => Become(s, id, Reading(s.now, s.now))
    case Data(id) => Become(s, id, Touching)
    case Expire(id) => Become(s, id, Expired(s.procs[id].start, s.procs[id].round))
    case Abort(id) => Become(s, id, Between)
    case Load(id) =>
      Become(s, id, Loaded(s.procs[id].start, s.procs[id].round, s.lastActive, |s.stored|))
    case Decide(id) =>
      var p := s.procs[id];
      if s.now - p.value >= s.timeout
      then Become(s, id, Between).(failures := s.failures + [Failure(id, p.start, s.now, p.seen)])
      else Become(s, id, Reading(p.start, s.now))
    case Wrote(id) => Become(s, id, Touching)
    case Take(id) => Become(s, id, Stamped(s.now))
    case Store(id) =>
      Become(s, id, Between).(lastActive := s.procs[id].at, stored := s.stored + [Stamp(id, s.procs[id].at)])
  }

  function Run(s: State, steps: seq<Step>): (r: Option<State>) {
    if steps == [] then Some(s)
    else match Run(s, steps[..|steps| - 1])
      case None => None
      case Some(m) =>
        var step := steps[|steps| - 1];
        if Enabled(m, step) then Some(Perform(m, step)) else None
  }

  // ----- what every interleaving keeps

  predicate InRead(p: Proc) {
    p.Reading? || p.Expired? || p.Loaded?
  }

  ghost predicate TimesInv(s: State) {
    && |s.stored| > 0 && s.lastActive == s.stored[|s.stored| - 1].at
    && (forall i :: 0 <= i < |s.stored| ==> s.stored[i].at <= s.now)
    && (forall id :: 0 <= id < |s.procs| ==> ProcTimes(s, s.procs[id]))
    && (forall f :: 0 <= f < |s.failures| ==> s.failures[f].seen <= |s.stored|)
  }

  predicate ProcTimes(s: State, p: Proc) {
    match p
    case Reading(start, round) => start <= round <= s.now
    case Expired(start, round) => start <= round && round + s.timeout <= s.now
    case Loaded(start, round, value, seen) => start <= round && round + s.timeout <= s.now && seen <= |s.stored|
    case Stamped(at) => at <= s.now
    case _ => true
  }

  /** The program order of each goroutine: its stamps grow, and it stored them all before the round it is in. */
  ghost predicate OrderInv(s: State) {
    && (forall i :: 0 <= i < |s.stored| ==> s.stored[i].who < |s.procs| || s.stored[i].who == 0)
    && (forall i :: 0 <= i < |s.stored| && s.stored[i].who < |s.procs| ==>
          StoredBefore(s.stored[i].at, s.procs[s.stored[i].who]))
  }

  predicate StoredBefore(at: int, p: Proc) {
    && (InRead(p) ==> at <= p.round)
    && (p.Stamped? ==> at <= p.at)
  }

  /** Whatever was stored is no newer than the round, or no newer than what a check finds. */
  ghost predicate FreshInv(s: State) {
    forall id :: 0 <= id < |s.procs| && InRead(s.procs[id]) ==> Fresh(s, s.procs[id])
  }

  ghost predicate Fresh(s: State, p: Proc)
    requires InRead(p)
  {
    forall i :: 0 <= i < Seen(s, p) ==> s.stored[i].at <= Max(p.round, Found(s, p))
  }

  function Seen(s: State, p: Proc): nat
    requires InRead(p)
  {
    if p.Loaded? then Min(p.seen, |s.stored|) else |s.stored|
  }

  function Found(s: State, p: Proc): int
    requires InRead(p)
  {
    if p.Loaded? then p.value else s.lastActive
  }

  /** Every stamp that a failed read could have seen was a whole timeout old. */
  ghost predicate Silent(s: State) {
    forall f, i :: 0 <= f < |s.failures| && 0 <= i < s.failures[f].seen && i < |s.stored| ==>
      s.failures[f].at - s.stored[i].at >= s.timeout
  }

  lemma TimesKept(s: State, step: Step)
    requires TimesInv(s) && Enabled(s, step)
    ensures TimesInv(Perform(s, step))
  {
  }

  lemma OrderKept(s: State, step: Step)
    requires TimesInv(s) && OrderInv(s) && Enabled(s, step)
    ensures OrderInv(Perform(s, step))
  {
  }

  /** With two goroutines only the other one stores during a read, and its stamps grow. */
  lemma StoreKeepsFresh(s: State, who: nat, id: nat)
    requires TimesInv(s) && OrderInv(s) && |s.procs| <= 2 && Enabled(s, Store(who))
    requires id < |s.procs| && InRead(s.procs[id]) && Fresh(s, s.procs[id])
    ensures Fresh(Perform(s, Store(who)), s.procs[id])
  {
    var s', p := Perform(s, Store(who)), s.procs[id];
    forall i | 0 <= i < Seen(s', p) ensures s'.stored[i].at <= Max(p.round, Found(s', p)) {
      if i < |s.stored| {
        assert s'.stored[i] == s.stored[i];
        assert s.stored[i].who == who || s.stored[i].who == id;
      }
    }
  }

  lemma FreshKept(s: State, step: Step)
    requires TimesInv(s) && OrderInv(s) && FreshInv(s) && Enabled(s, step) && |s.procs| <= 2
    ensures FreshInv(Perform(s, step))
  {
    var s' := Perform(s, step);
    forall id | 0 <= id < |s'.procs| && InRead(s'.procs[id]) ensures Fresh(s', s'.procs[id]) {
      if step.Store? {
        StoreKeepsFresh(s, step.id, id);
      }
    }
  }

  lemma SilentKept(s: State, step: Step)
    requires TimesInv(s) && FreshInv(s) && Silent(s) && Enabled(s, step)
    ensures Silent(Perform(s, step))
  {
  }

  lemma {:induction false} AlwaysTimes(timeout: nat, now: int, n: nat, steps: seq<Step>, s: State)
    requires Run(Init(timeout, now, n), steps) == Some(s)
    ensures TimesInv(s) && OrderInv(s) && s.timeout == timeout && |s.procs| == n
  {
    hide TimesInv, OrderInv, Perform, Enabled;
    if steps == [] {
      InitInv(timeout, now, n);
    } else {
      var m, step := Run(Init(timeout, now, n), steps[..|steps| - 1]).value, steps[|steps| - 1];
      AlwaysTimes(timeout, now, n, steps[..|steps| - 1], m);
      TimesKept(m, step);
      OrderKept(m, step);
      SameSize(m, step);
    }
  }

  lemma InitInv(timeout: nat, now: int, n: nat)
    ensures var s := Init(timeout, now, n); TimesInv(s) && OrderInv(s) && FreshInv(s) && Silent(s)
  {
  }

  lemma SameSize(s: State, step: Step)
    requires Enabled(s, step)
    ensures Perform(s, step).timeout == s.timeout && |Perform(s, step).procs| == |s.procs|
  {
  }

  /** With at most two goroutines, the stamps a failed read could have seen were old, whichever was stored last. */
  lemma {:induction false} AlwaysSilent(timeout: nat, now: int, n: nat, steps: seq<Step>, s: State)
    requires n <= 2 && Run(Init(timeout, now, n), steps) == Some(s)
    ensures Silent(s) && FreshInv(s)
  {
    hide TimesInv, OrderInv, FreshInv, Silent, Perform, Enabled;
    if steps == [] {
      InitInv(timeout, now, n);
    } else {
      var fewer := steps[..|steps| - 1];
      var m, step := Run(Init(timeout, now, n), fewer).value, steps[|steps| - 1];
      AlwaysTimes(timeout, now, n, fewer, m);
      AlwaysSilent(timeout, now, n, fewer, m);
      FreshKept(m, step);
      SilentKept(m, step);
    }
  }

  // ----- activity and its touches

  /** When data came or bytes were sent in a run, and by whom; the creation of the tracker is the first. */
  function Activity(s: State, steps: seq<Step>): (acts: seq<Stamp>) {
    if steps == [] then [Stamp(0, s.now)]
    else
      var fewer, step := steps[..|steps| - 1], steps[|steps| - 1];
      Activity(s, fewer) + if Run(s, fewer).Some? then Acts(Run(s, fewer).value, step) else []
  }

  function Acts(s: State, step: Step): seq<Stamp> {
    if step.Data? || step.Wrote? then [Stamp(step.id, s.now)] else []
  }

  /** How many of the first `k` are by one goroutine. */
  function Count(ss: seq<Stamp>, k: nat, who: nat): (n: nat)
    requires k <= |ss|
  {
    if k == 0 then 0 else Count(ss, k - 1, who) + if ss[k - 1].who == who then 1 else 0
  }

  /** A goroutine touches after each activity, so the touch of its fifth activity is its fifth stamp. */
  predicate TouchStored(acts: seq<Stamp>, j: nat, stored: seq<Stamp>, k: nat)
    requires j < |acts| && k <= |stored|
  {
    Count(acts, j + 1, acts[j].who) <= Count(stored, k, acts[j].who)
  }

  predicate TouchPending(s: State, id: nat) {
    id < |s.procs| && (s.procs[id].Touching? || s.procs[id].Stamped?)
  }

  ghost predicate CountsInv(acts: seq<Stamp>, s: State) {
    forall id: nat ::
      Count(acts, |acts|, id) == Count(s.stored, |s.stored|, id) + if TouchPending(s, id) then 1 else 0
  }

  /** What a goroutine is about to store is no older than anything it did. */
  ghost predicate TakenInv(acts: seq<Stamp>, s: State) {
    && (forall j :: 0 <= j < |acts| ==> acts[j].at <= s.now)
    && (forall j :: 0 <= j < |acts| && acts[j].who < |s.procs| && s.procs[acts[j].who].Stamped? ==>
          acts[j].at <= s.procs[acts[j].who].at)
  }

  /** A stamp is no older than the activities whose touches were stored with it or before. */
  ghost predicate TouchInv(acts: seq<Stamp>, s: State) {
    forall i, j :: (0 <= i < |s.stored| && 0 <= j < |acts| && s.stored[i].who == acts[j].who
                    && TouchStored(acts, j, s.stored, i + 1)) ==>
      acts[j].at <= s.stored[i].at
  }

  lemma {:induction false} CountFront(ss: seq<Stamp>, more: seq<Stamp>, k: nat, who: nat)
    requires k <= |ss|
    ensures Count(ss + more, k, who) == Count(ss, k, who)
  {
    if k > 0 {
      CountFront(ss, more, k - 1, who);
    }
  }

  lemma CountSnoc(ss: seq<Stamp>, x: Stamp, who: nat)
    ensures Count(ss + [x], |ss| + 1, who) == Count(ss, |ss|, who) + if x.who == who then 1 else 0
  {
    CountFront(ss, [x], |ss|, who);
  }

  lemma {:induction false} CountMonotone(ss: seq<Stamp>, j: nat, k: nat, who: nat)
    requires j <= k <= |ss|
    ensures Count(ss, j, who) <= Count(ss, k, who)
  {
    if j < k {
      CountMonotone(ss, j, k - 1, who);
    }
  }

  lemma CountsKept(acts: seq<Stamp>, s: State, step: Step)
    requires CountsInv(acts, s) && Enabled(s, step)
    ensures CountsInv(acts + Acts(s, step), Perform(s, step))
  {
    hide Count;
    var s' := Perform(s, step);
    assert acts + [] == acts;
    forall id: nat
      ensures Count(acts + Acts(s, step), |acts + Acts(s, step)|, id)
           == Count(s'.stored, |s'.stored|, id) + if TouchPending(s', id) then 1 else 0
    {
      if step.Data? || step.Wrote? {
        CountSnoc(acts, Stamp(step.id, s.now), id);
      } else if step.Store? {
        CountSnoc(s.stored, Stamp(step.id, s.procs[step.id].at), id);
      }
    }
  }

  lemma TakenKept(acts: seq<Stamp>, s: State, step: Step)
    requires TakenInv(acts, s) && Enabled(s, step)
    ensures TakenInv(acts + Acts(s, step), Perform(s, step))
  {
  }

  lemma TouchKept(acts: seq<Stamp>, s: State, step: Step)
    requires CountsInv(acts, s) && TakenInv(acts, s) && TouchInv(acts, s) && Enabled(s, step)
    ensures TouchInv(acts + Acts(s, step), Perform(s, step))
  {
    hide Count, Perform;
    var acts', s' := acts + Acts(s, step), Perform(s, step);
    forall i, j | 0 <= i < |s'.stored| && 0 <= j < |acts'| && s'.stored[i].who == acts'[j].who
                  && TouchStored(acts', j, s'.stored, i + 1)
      ensures acts'[j].at <= s'.stored[i].at
    {
      TouchKeptAt(acts, s, step, i, j);
    }
  }

  lemma TouchKeptAt(acts: seq<Stamp>, s: State, step: Step, i: nat, j: nat)
    requires CountsInv(acts, s) && TakenInv(acts, s) && TouchInv(acts, s) && Enabled(s, step)
    requires var acts', s' := acts + Acts(s, step), Perform(s, step);
             i < |s'.stored| && j < |acts'| && s'.stored[i].who == acts'[j].who
             && TouchStored(acts', j, s'.stored, i + 1)
    ensures (acts + Acts(s, step))[j].at <= Perform(s, step).stored[i].at
  {
    hide Count;
    var acts', s' := acts + Acts(s, step), Perform(s, step);
    var who := acts'[j].who;
    if j < |acts| {
      CountFront(acts, Acts(s, step), j + 1, who);
      if i < |s.stored| {
        CountFront(s.stored, s'.stored[|s.stored|..], i + 1, who);
        assert s'.stored == s.stored + s'.stored[|s.stored|..];
        assert TouchStored(acts, j, s.stored, i + 1);
      }
    } else if i < |s.stored| {
      CountSnoc(acts, acts'[j], who);
      assert acts' == acts + [acts'[j]] && s'.stored == s.stored;
      CountMonotone(s.stored, i + 1, |s.stored|, who);
    }
  }

  lemma {:induction false} AlwaysTouched(timeout: nat, now: int, n: nat, steps: seq<Step>, s: State)
    requires Run(Init(timeout, now, n), steps) == Some(s)
    ensures var acts := Activity(Init(timeout, now, n), steps);
            CountsInv(acts, s) && TakenInv(acts, s) && TouchInv(acts, s)
  {
    hide CountsInv, TakenInv, TouchInv, Perform, Enabled, Acts;
    var s0 := Init(timeout, now, n);
    if steps == [] {
      InitTouched(timeout, now, n);
    } else {
      var fewer := steps[..|steps| - 1];
      var m, step := Run(s0, fewer).value, steps[|steps| - 1];
      AlwaysTouched(timeout, now, n, fewer, m);
      CountsKept(Activity(s0, fewer), m, step);
      TakenKept(Activity(s0, fewer), m, step);
      TouchKept(Activity(s0, fewer), m, step);
    }
  }

  lemma InitTouched(timeout: nat, now: int, n: nat)
    ensures var s := Init(timeout, now, n);
            CountsInv([Stamp(0, now)], s) && TakenInv([Stamp(0, now)], s) && TouchInv([Stamp(0, now)], s)
  {
  }

  /** The last of the first `k` by a goroutine. */
  lemma {:induction false} LastOf(ss: seq<Stamp>, k: nat, who: nat) returns (i: nat)
    requires k <= |ss| && Count(ss, k, who) > 0
    ensures i < k && ss[i].who == who && Count(ss, i + 1, who) == Count(ss, k, who)
  {
    if ss[k - 1].who == who {
      i := k - 1;
    } else {
      i := LastOf(ss, k - 1, who);
    }
  }

  lemma {:induction false} CountPositive(ss: seq<Stamp>, j: nat)
    requires j < |ss|
    ensures Count(ss, j + 1, ss[j].who) > 0
  {
  }

  /**
   With any number of goroutines: each activity is covered by a stamp of its goroutine
   that is no older, unless the goroutine is still at that very touch.
   */
  lemma EveryActivityIsTouched(timeout: nat, now: int, n: nat, steps: seq<Step>, s: State, j: nat)
    requires Run(Init(timeout, now, n), steps) == Some(s) && j < |Activity(Init(timeout, now, n), steps)|
    ensures var acts := Activity(Init(timeout, now, n), steps);
            var who := acts[j].who;
            || (exists i :: 0 <= i < |s.stored| && s.stored[i].who == who && s.stored[i].at >= acts[j].at)
            || (TouchPending(s, who) && forall k :: j < k < |acts| ==> acts[k].who != who)
  {
    hide Run, Activity, Count;
    AlwaysTouched(timeout, now, n, steps, s);
    var acts := Activity(Init(timeout, now, n), steps);
    var who := acts[j].who;
    if TouchStored(acts, j, s.stored, |s.stored|) {
      CountPositive(acts, j);
      var i := LastOf(s.stored, |s.stored|, who);
      assert TouchStored(acts, j, s.stored, i + 1);
    } else {
      CountMonotone(acts, j + 1, |acts|, who);
      forall k | j < k < |acts| ensures acts[k].who != who {
        if acts[k].who == who {
          CountMonotone(acts, j + 1, k, who);
          CountStep(acts, k);
          CountMonotone(acts, k + 1, |acts|, who);
        }
      }
    }
  }

  lemma CountStep(ss: seq<Stamp>, k: nat)
    requires k < |ss|
    ensures Count(ss, k + 1, ss[k].who) == Count(ss, k, ss[k].who) + 1
  {
  }

  /** And each stamp is the touch of one activity that was no later. */
  lemma EveryTouchIsActivity(timeout: nat, now: int, n: nat, steps: seq<Step>, s: State, i: nat)
    requires Run(Init(timeout, now, n), steps) == Some(s) && i < |s.stored|
    ensures var acts := Activity(Init(timeout, now, n), steps);
            var who := s.stored[i].who;
            exists j :: && 0 <= j < |acts| && acts[j].who == who && acts[j].at <= s.stored[i].at
                        && Count(acts, j + 1, who) == Count(s.stored, i + 1, who)
  {
    hide Run, Activity, Count;
    AlwaysTouched(timeout, now, n, steps, s);
    var acts := Activity(Init(timeout, now, n), steps);
    var who := s.stored[i].who;
    CountPositive(s.stored, i);
    CountMonotone(s.stored, i + 1, |s.stored|, who);
    var j := Nth(acts, |acts|, who, Count(s.stored, i + 1, who));
    assert TouchStored(acts, j, s.stored, i + 1);
  }

  lemma {:induction false} Nth(ss: seq<Stamp>, k: nat, who: nat, r: nat) returns (j: nat)
    requires k <= |ss| && 0 < r <= Count(ss, k, who)
    ensures j < k && ss[j].who == who && Count(ss, j + 1, who) == r
  {
    if Count(ss, k - 1, who) >= r {
      j := Nth(ss, k - 1, who, r);
    } else {
      j := k - 1;
    }
  }

  /** Every activity whose touch a failed read could have seen was a whole timeout old. */
  ghost predicate OnlyWhenIdle(acts: seq<Stamp>, s: State) {
    forall f, j :: 0 <= f < |s.failures| && 0 <= j < |acts| && s.failures[f].seen <= |s.stored|
                   && TouchStored(acts, j, s.stored, s.failures[f].seen) ==>
      s.failures[f].at - acts[j].at >= s.timeout
  }

  /**
   With at most two goroutines, a read fails with a timeout only if every activity of
   either of them whose touch was stored by its check was a whole timeout old, even
   where a late store had put an older stamp over a newer one.
   */
  lemma TimesOutOnlyWhenIdle(timeout: nat, now: int, n: nat, steps: seq<Step>, s: State)
    requires n <= 2 && Run(Init(timeout, now, n), steps) == Some(s)
    ensures OnlyWhenIdle(Activity(Init(timeout, now, n), steps), s)
    ensures forall f :: 0 <= f < |s.failures| ==> s.failures[f].seen <= |s.stored|
  {
    hide Run, Activity, Count;
    AlwaysTouched(timeout, now, n, steps, s);
    AlwaysTimes(timeout, now, n, steps, s);
    AlwaysSilent(timeout, now, n, steps, s);
    var acts := Activity(Init(timeout, now, n), steps);
    forall f, j | 0 <= f < |s.failures| && 0 <= j < |acts| && s.failures[f].seen <= |s.stored|
                  && TouchStored(acts, j, s.stored, s.failures[f].seen)
      ensures s.failures[f].at - acts[j].at >= s.timeout
    {
      CountPositive(acts, j);
      var i := LastOf(s.stored, s.failures[f].seen, acts[j].who);
      assert TouchStored(acts, j, s.stored, i + 1);
    }
  }

  // ----- single runs

  /** Time never passes a deadline, nor between a timeout and the decision about it. */
  predicate OnTime(s: State, ns: nat) {
    forall id :: 0 <= id < |s.procs| ==>
      match s.procs[id]
      case Reading(_, round) => s.now + ns <= round + s.timeout
      case Expired(_, _) => ns == 0
      case Loaded(_, _, _, _) => ns == 0
      case _ => true
  }

  /** Deadlines are met exactly, and checks take no time. */
  predicate Punctual(s: State, steps: seq<Step>) {
    steps == [] ||
    var fewer, step := steps[..|steps| - 1], steps[|steps| - 1];
    Punctual(s, fewer) && (step.Pass? && Run(s, fewer).Some? ==> OnTime(Run(s, fewer).value, step.ns))
  }

  /** One more step of a run. */
  lemma Then(s0: State, steps: seq<Step>, s: State, step: Step) returns (steps': seq<Step>, s': State)
    requires Run(s0, steps) == Some(s) && Enabled(s, step)
    ensures s' == Perform(s, step) && Run(s0, steps') == Some(s')
    ensures Punctual(s0, steps') <==> Punctual(s0, steps) && (step.Pass? ==> OnTime(s, step.ns))
    ensures Activity(s0, steps') == Activity(s0, steps) + Acts(s, step)
  {
    steps', s' := steps + [step], Perform(s, step);
    assert steps'[..|steps|] == steps;
  }

  lemma Start(s: State) returns (steps: seq<Step>)
    ensures Run(s, steps) == Some(s) && Punctual(s, steps) && Activity(s, steps) == [Stamp(0, s.now)]
  {
    steps := [];
  }

  /** A touch by goroutine `id`, which nothing interrupts. */
  lemma Touch(s0: State, steps: seq<Step>, s: State, id: nat) returns (steps': seq<Step>, s': State)
    requires Run(s0, steps) == Some(s) && id < |s.procs| && s.procs[id].Between?
    ensures s' == s.(lastActive := s.now, stored := s.stored + [Stamp(id, s.now)]) && Run(s0, steps') == Some(s')
    ensures Punctual(s0, steps') <==> Punctual(s0, steps)
    ensures Activity(s0, steps') == Activity(s0, steps) + [Stamp(id, s.now)]
  {
    hide Run, Punctual, Activity;
    var s1, s2;
    steps', s1 := Then(s0, steps, s, Wrote(id));
    steps', s2 := Then(s0, steps', s1, Take(id));
    steps', s' := Then(s0, steps', s2, Store(id));
    assert s'.procs == s.procs;
  }

  /** The end of a round that finds nothing newer than `s.lastActive`. */
  lemma Check(s0: State, steps: seq<Step>, s: State, id: nat) returns (steps': seq<Step>, s': State)
    requires Run(s0, steps) == Some(s) && Enabled(s, Expire(id))
    ensures var p := s.procs[id];
            s' == if s.now - s.lastActive >= s.timeout
                  then Become(s, id, Between).(failures := s.failures + [Failure(id, p.start, s.now, |s.stored|)])
                  else Become(s, id, Reading(p.start, s.now))
    ensures Run(s0, steps') == Some(s') && (Punctual(s0, steps') <==> Punctual(s0, steps))
    ensures Activity(s0, steps') == Activity(s0, steps)
  {
    hide Run, Punctual, Activity;
    var s1, s2;
    steps', s1 := Then(s0, steps, s, Expire(id));
    steps', s2 := Then(s0, steps', s1, Load(id));
    steps', s' := Then(s0, steps', s2, Decide(id));
    var p := if s.now - s.lastActive >= s.timeout then Between else Reading(s.procs[id].start, s.now);
    assert s'.procs == s.procs[id := p];
  }

  /**
   Three goroutines are too many: the second stores the present time, the third stores
   a stamp it had taken long before over it, and the read of the first fails at the
   very moment of the activity.
   */
  lemma StaleStoreHidesActivity(timeout: nat, n: nat) returns (steps: seq<Step>, s: State)
    requires timeout > 0 && n >= 3
    ensures Run(Init(timeout, 0, n), steps) == Some(s) && Punctual(Init(timeout, 0, n), steps)
    ensures s.failures == [Failure(0, 0, timeout, 3)]
    ensures s.stored == [Stamp(0, 0), Stamp(1, timeout), Stamp(2, 0)]
    ensures Activity(Init(timeout, 0, n), steps) == [Stamp(0, 0), Stamp(2, 0), Stamp(1, timeout)]
  {
    hide Run, Punctual, Activity;
    var s0 := Init(timeout, 0, n);
    steps := Start(s0);
    steps, s := Then(s0, steps, s0, Begin(0));
    steps, s := Then(s0, steps, s, Wrote(2));
    steps, s := Then(s0, steps, s, Take(2));
    steps, s := Then(s0, steps, s, Pass(timeout));
    steps, s := Touch(s0, steps, s, 1);
    steps, s := Then(s0, steps, s, Store(2));
    steps, s := Check(s0, steps, s, 0);
  }

  /** So two goroutines are exactly as many as the tracker can serve. */
  lemma TwoAreTheMost(timeout: nat, n: nat)
    requires timeout > 0
    ensures n <= 2 <==>
            forall now, steps :: Run(Init(timeout, now, n), steps).Some? ==>
              OnlyWhenIdle(Activity(Init(timeout, now, n), steps), Run(Init(timeout, now, n), steps).value)
  {
    hide Run, Activity, OnlyWhenIdle;
    if n <= 2 {
      forall now, steps | Run(Init(timeout, now, n), steps).Some?
        ensures OnlyWhenIdle(Activity(Init(timeout, now, n), steps), Run(Init(timeout, now, n), steps).value)
      {
        TimesOutOnlyWhenIdle(timeout, now, n, steps, Run(Init(timeout, now, n), steps).value);
      }
    } else {
      var steps, s := StaleStoreHidesActivity(timeout, n);
      AlwaysTimes(timeout, 0, n, steps, s);
      NotIdle(s, timeout);
    }
  }

  lemma NotIdle(s: State, timeout: nat)
    requires s.failures == [Failure(0, 0, timeout, 3)] && s.timeout == timeout > 0
    requires s.stored == [Stamp(0, 0), Stamp(1, timeout), Stamp(2, 0)]
    ensures !OnlyWhenIdle([Stamp(0, 0), Stamp(2, 0), Stamp(1, timeout)], s)
  {
    var acts := [Stamp(0, 0), Stamp(2, 0), Stamp(1, timeout)];
    assert Count(acts, 0, 1) == Count(acts, 1, 1) == Count(acts, 2, 1) == 0 && Count(acts, 3, 1) == 1;
    assert Count(s.stored, 0, 1) == Count(s.stored, 1, 1) == 0;
    assert Count(s.stored, 2, 1) == Count(s.stored, 3, 1) == 1;
    assert TouchStored(acts, 2, s.stored, s.failures[0].seen);
  }

  /** What is stored after the check has loaded the last activity is not seen, with two goroutines either. */
  lemma TouchAfterLoadIsMissed(timeout: nat) returns (steps: seq<Step>, s: State)
    ensures Run(Init(timeout, 0, 2), steps) == Some(s)
    ensures s.failures == [Failure(0, 0, timeout, 1)] && s.stored == [Stamp(0, 0), Stamp(1, timeout)]
  {
    hide Run, Punctual, Activity;
    var s0 := Init(timeout, 0, 2);
    steps := Start(s0);
    steps, s := Then(s0, steps, s0, Begin(0));
    steps, s := Then(s0, steps, s, Pass(timeout));
    steps, s := Then(s0, steps, s, Expire(0));
    steps, s := Then(s0, steps, s, Load(0));
    steps, s := Touch(s0, steps, s, 1);
    steps, s := Then(s0, steps, s, Decide(0));
  }

  // ----- how late a timeout can be

  /** The round began with the call, or less than a timeout after one of the first `k` stamps. */
  ghost predicate Recent(s: State, k: nat, start: int, round: int) {
    exists i :: 0 <= i < k && i < |s.stored| && round <= Max(start, s.stored[i].at + s.timeout)
  }

  ghost predicate BoundInv(s: State) {
    && |s.stored| > 0
    && (forall id :: 0 <= id < |s.procs| ==>
          match s.procs[id]
          case Reading(start, round) => s.now <= round + s.timeout && Recent(s, |s.stored|, start, round)
          case Expired(start, round) => s.now == round + s.timeout && Recent(s, |s.stored|, start, round)
          case Loaded(start, round, value, seen) =>
            && s.now == round + s.timeout && 0 < seen <= |s.stored| && value == s.stored[seen - 1].at
            && Recent(s, seen, start, round)
          case _ => true)
    && (forall f :: 0 <= f < |s.failures| ==> InTime(s, s.failures[f]))
  }

  /** No later than twice the timeout after the call or one of the stamps it could have seen. */
  ghost predicate InTime(s: State, f: Failure) {
    exists i :: 0 <= i < f.seen && i < |s.stored| && f.at <= Max(f.start, s.stored[i].at) + 2 * s.timeout
  }

  lemma BoundKept(s: State, step: Step)
    requires TimesInv(s) && BoundInv(s) && Enabled(s, step) && (step.Pass? ==> OnTime(s, step.ns))
    ensures BoundInv(Perform(s, step))
  {
    hide Recent, InTime;
    var s' := Perform(s, step);
    forall k, start, round | Recent(s, k, start, round) ensures Recent(s', k, start, round) {
      RecentStays(s, s', k, start, round);
    }
    forall f | 0 <= f < |s.failures| ensures InTime(s', s.failures[f]) {
      InTimeStays(s, s', s.failures[f]);
    }
    if step.Store? {
      forall start, round | Recent(s, |s.stored|, start, round) ensures Recent(s', |s'.stored|, start, round) {
        RecentStays(s, s', |s.stored|, start, round);
      }
    } else if step.Begin? {
      RecentCall(s', s.now);
    } else if step.Decide? {
      DecidedInTime(s, s.procs[step.id], step.id);
    }
  }

  lemma RecentStays(s: State, s': State, k: nat, start: int, round: int)
    requires Recent(s, k, start, round) && s'.timeout == s.timeout
    requires |s.stored| <= |s'.stored| && s'.stored[..|s.stored|] == s.stored
    ensures Recent(s', k, start, round) && (k == |s.stored| ==> Recent(s', |s'.stored|, start, round))
  {
    var i :| 0 <= i < k && i < |s.stored| && round <= Max(start, s.stored[i].at + s.timeout);
    assert s'.stored[i] == s'.stored[..|s.stored|][i];
  }

  lemma InTimeStays(s: State, s': State, f: Failure)
    requires InTime(s, f) && s'.timeout == s.timeout
    requires |s.stored| <= |s'.stored| && s'.stored[..|s.stored|] == s.stored
    ensures InTime(s', f)
  {
    var i :| 0 <= i < f.seen && i < |s.stored| && f.at <= Max(f.start, s.stored[i].at) + 2 * s.timeout;
    assert s'.stored[i] == s'.stored[..|s.stored|][i];
  }

  lemma RecentCall(s: State, start: int)
    requires |s.stored| > 0
    ensures Recent(s, |s.stored|, start, start)
  {
    assert start <= Max(start, s.stored[0].at + s.timeout);
  }

  lemma DecidedInTime(s: State, p: Proc, id: nat)
    requires p.Loaded? && s.now == p.round + s.timeout && 0 < p.seen <= |s.stored| && p.value == s.stored[p.seen - 1].at
    requires Recent(s, p.seen, p.start, p.round) && id < |s.procs|
    ensures var s' := Become(s, id, Between).(failures := s.failures + [Failure(id, p.start, s.now, p.seen)]);
            InTime(s', Failure(id, p.start, s.now, p.seen))
    ensures s.now - p.value < s.timeout ==>
            Recent(Become(s, id, Reading(p.start, s.now)), |s.stored|, p.start, s.now)
  {
    var i :| 0 <= i < p.seen && i < |s.stored| && p.round <= Max(p.start, s.stored[i].at + s.timeout);
    assert s.now <= Max(p.start, s.stored[i].at) + 2 * s.timeout;
    var last := p.seen - 1;
    assert s.now - p.value < s.timeout ==> s.now <= Max(p.start, s.stored[last].at + s.timeout);
  }

  lemma {:induction false} AlwaysBound(timeout: nat, now: int, n: nat, steps: seq<Step>, s: State)
    requires Run(Init(timeout, now, n), steps) == Some(s) && Punctual(Init(timeout, now, n), steps)
    ensures BoundInv(s)
  {
    hide TimesInv, OrderInv, BoundInv, Perform, Enabled, OnTime;
    if steps == [] {
      InitBound(timeout, now, n);
    } else {
      var fewer := steps[..|steps| - 1];
      var m, step := Run(Init(timeout, now, n), fewer).value, steps[|steps| - 1];
      AlwaysBound(timeout, now, n, fewer, m);
      AlwaysTimes(timeout, now, n, fewer, m);
      BoundKept(m, step);
    }
  }

  lemma InitBound(timeout: nat, now: int, n: nat)
    ensures BoundInv(Init(timeout, now, n))
  {
  }

  /**
   With any number of goroutines and punctual deadlines, a read fails no later than
   twice the timeout after the later of its call and a stamp that was stored by then.
   */
  lemma TimesOutInTime(timeout: nat, now: int, n: nat, steps: seq<Step>, s: State, f: Failure)
    requires Run(Init(timeout, now, n), steps) == Some(s) && Punctual(Init(timeout, now, n), steps) && f in s.failures
    ensures exists i :: 0 <= i < f.seen && i < |s.stored| && f.at <= Max(f.start, s.stored[i].at) + 2 * timeout
  {
    hide Run, Punctual;
    AlwaysBound(timeout, now, n, steps, s);
    AlwaysTimes(timeout, now, n, steps, s);
    var k :| 0 <= k < |s.failures| && s.failures[k] == f;
    assert InTime(s, s.failures[k]);
  }

  /** A pending read never outlives that bound either: time cannot pass it. */
  lemma PendingIsBounded(timeout: nat, now: int, n: nat, steps: seq<Step>, s: State, id: nat)
    requires Run(Init(timeout, now, n), steps) == Some(s) && Punctual(Init(timeout, now, n), steps)
    requires id < |s.procs| && s.procs[id].Reading?
    ensures exists i :: 0 <= i < |s.stored| && s.now <= Max(s.procs[id].start, s.stored[i].at) + 2 * timeout
  {
    hide Run, Punctual;
    AlwaysBound(timeout, now, n, steps, s);
    AlwaysTimes(timeout, now, n, steps, s);
    var p := s.procs[id];
    var i :| 0 <= i < |s.stored| && p.round <= Max(p.start, s.stored[i].at + s.timeout);
    assert s.now <= Max(p.start, s.stored[i].at) + 2 * timeout;
  }

  /** The bound is met up to one tick, whatever the timeout: a write right after the call costs two whole rounds. */
  lemma BoundIsTight(timeout: nat) returns (steps: seq<Step>, s: State)
    requires timeout > 0
    ensures Run(Init(timeout, 0, 2), steps) == Some(s) && Punctual(Init(timeout, 0, 2), steps)
    ensures s.failures == [Failure(0, 0, 2 * timeout, 2)] && s.stored == [Stamp(0, 0), Stamp(1, 1)]
  {
    hide Run, Punctual, Activity;
    var s0 := Init(timeout, 0, 2);
    steps := Start(s0);
    steps, s := Then(s0, steps, s0, Begin(0));
    steps, s := Then(s0, steps, s, Pass(1));
    steps, s := Touch(s0, steps, s, 1);
    steps, s := Then(s0, steps, s, Pass(timeout - 1));
    steps, s := Check(s0, steps, s, 0);
    steps, s := Then(s0, steps, s, Pass(timeout));
    steps, s := Check(s0, steps, s, 0);
  }
}
