/**
 The delayed writer (mtglib/internal/doppel/conn.go) as a step system: any number of
 callers of Write and Stop, one pump, a mutex, a condition variable and a context.
 Also the record sizes it asks for (mtglib/internal/doppel/stats.go).
 */
module DoppelConn {
  import opened Bytes
  import opened Records

  // ----- record sizes

  const TLS_RECORD_SIZE_START := 1450
  const TLS_RECORD_SIZE_ACCEL := 4096
  const TLS_RECORD_SIZE_MAX := 16384 - SIZE_HEADER
  const TLS_COUNTER_ACCEL_AFTER := 40
  const TLS_COUNTER_MAX_AFTER := TLS_COUNTER_ACCEL_AFTER + 20
  const RESET_AFTER := 1_000_000_000
  const DRS_NOISE := 100

  datatype Sizing = Sizing(drs: bool, lastRequested: int, counter: nat)

  /** The counter as a size request finds it at time `now`. */
  function Fresh(z: Sizing, now: int): (c: nat) {
    if now - z.lastRequested > RESET_AFTER then 0 else z.counter
  }

  function SizeAt(counter: nat, draw: nat): (size: nat)
    requires draw < DRS_NOISE
    ensures 1351 <= size <= TLS_RECORD_SIZE_MAX
  {
    if counter <= TLS_COUNTER_ACCEL_AFTER then TLS_RECORD_SIZE_START - draw
    else if counter <= TLS_COUNTER_MAX_AFTER then TLS_RECORD_SIZE_ACCEL - draw
    else TLS_RECORD_SIZE_MAX
  }

  function Requested(z: Sizing, now: int): (z': Sizing) {
    if z.drs then Sizing(true, now, Fresh(z, now) + 1) else z.(counter := Fresh(z, now))
  }

  function RequestedSize(z: Sizing, now: int, draw: nat): (size: nat)
    requires draw < DRS_NOISE
    ensures 1 <= size <= MAX_RECORD_PAYLOAD_SIZE
  {
    if z.drs then SizeAt(Fresh(z, now) + 1, draw) else TLS_RECORD_SIZE_MAX
  }

  class Stats {
    var sizeLastRequested: int
    var sizeCounter: nat
    const drs: bool

    ghost function Value(): Sizing
      reads this
    {
      Sizing(drs, sizeLastRequested, sizeCounter)
    }

    /** `draw` is the random drift. */
    method Size(now: int, draw: nat) returns (size: nat)
      requires draw < DRS_NOISE
      modifies this
      ensures Value() == Requested(old(Value()), now)
      ensures size == RequestedSize(old(Value()), now, draw)
    {
      if now - sizeLastRequested > RESET_AFTER {
        sizeCounter := 0;
      }
      if !drs {
        return TLS_RECORD_SIZE_MAX;
      }
      sizeLastRequested := now;
      sizeCounter := sizeCounter + 1;
      if sizeCounter <= TLS_COUNTER_ACCEL_AFTER {
        return TLS_RECORD_SIZE_START - draw;
      }
      if sizeCounter <= TLS_COUNTER_MAX_AFTER {
        return TLS_RECORD_SIZE_ACCEL - draw;
      }
      size := TLS_RECORD_SIZE_MAX;
    }
  }

  function After(z: Sizing, times: seq<int>): (z': Sizing) {
    if times == [] then z else Requested(After(z, times[..|times| - 1]), times[|times| - 1])
  }

  /**
   With dynamic sizing, a busy connection (no gap above a second) sends forty small
   records, then twenty of medium size, then full ones; the k-th request since the
   last gap has the size of phase k.
   */
  lemma {:induction false} SizePhases(z: Sizing, times: seq<int>, now: int, draw: nat)
    requires z.drs && draw < DRS_NOISE && times != []
    requires times[0] - z.lastRequested > 1_000_000_000
    requires forall i :: 0 < i < |times| ==> times[i] - times[i - 1] <= 1_000_000_000
    requires now - times[|times| - 1] <= 1_000_000_000
    ensures var size := RequestedSize(After(z, times), now, draw);
            size == if |times| < 40 then 1450 - draw else if |times| < 60 then 4096 - draw else 16379
  {
    Counted(z, times);
  }

  lemma {:induction false} Counted(z: Sizing, times: seq<int>)
    requires z.drs && times != []
    requires times[0] - z.lastRequested > RESET_AFTER
    requires forall i :: 0 < i < |times| ==> times[i] - times[i - 1] <= RESET_AFTER
    ensures After(z, times) == Sizing(true, times[|times| - 1], |times|)
  {
    if |times| == 1 {
      assert times[..0] == [];
    } else {
      Counted(z, times[..|times| - 1]);
    }
  }

  /** Without dynamic sizing every record is a full one. */
  lemma {:induction false} FixedSizes(z: Sizing, times: seq<int>, now: int, draw: nat)
    requires !z.drs && draw < DRS_NOISE
    ensures !After(z, times).drs && RequestedSize(After(z, times), now, draw) == 16379
  {
    if times != [] {
      FixedSizes(z, times[..|times| - 1], now, draw);
    }
  }

  // ----- one turn of the pump over its reused buffer

  /** Up to `size` bytes of the stream go into the buffer and out as one record. */
  method PumpOnce(buf: array<byte>, stream: seq<byte>, size: nat) returns (n: nat, wire: seq<byte>)
    requires buf.Length == MAX_RECORD_SIZE && 1 <= size <= MAX_RECORD_PAYLOAD_SIZE
    modifies buf
    ensures n == Min(size, |stream|)
    ensures wire == if n == 0 then [] else EncodeRecord(Record(TYPE_APPLICATION_DATA, stream[..n]))
  {
    n := Min(size, |stream|);
    for i := 0 to n
      invariant forall k :: 0 <= k < i ==> buf[SIZE_HEADER + k] == stream[k]
    {
      buf[SIZE_HEADER + i] := stream[i];
    }
    if n == 0 {
      return n, [];
    }
    assert buf[SIZE_HEADER..SIZE_HEADER + n] == stream[..n];
    var ok;
    wire, ok := WriteRecordInPlace(buf, n);
  }

  // ----- the step system

  /** A caller inside Write (W) or Stop (S): what it has done so far. */
  datatype Caller =
    | WStart(p: seq<byte>)   // about to lock
    | WLocked(p: seq<byte>)  // holds the mutex
    | WWrote                 // appended, still holds the mutex
    | WUnlocked              // about to signal
    | SCancelled             // context cancelled, about to lock
    | SLocked                // holds the mutex
    | SDone                  // done set, still holds the mutex
    | SUnlocked              // about to broadcast
    | SWaiting               // broadcast, waits for the pump to end

  datatype Pump =
    | Selecting               // waits for the timer or the context
    | WantsLock(size: nat)
    | Checking(size: nat)     // holds the mutex, about to test the loop condition
    | Parked(size: nat)       // on the condition variable's list
    | Woken(size: nat)        // notified, about to lock again
    | Took(size: nat, payload: seq<byte>) // holds the mutex
    | Writing(payload: seq<byte>)
    | Ended(lost: seq<byte>)  // a failed write loses what was in flight

  datatype Owner = Free | ByCaller(id: nat) | ByPump

  datatype State = State(
    mutex: Owner,
    buf: seq<byte>,
    done: bool,
    cancelled: bool,
    pump: Pump,
    callers: map<nat, Caller>,
    sizing: Sizing,
    // history
    written: seq<byte>,
    emitted: seq<seq<byte>>,
    torn: seq<byte>,
    broadcast: bool
  )

  datatype Step =
    | CallWrite(id: nat, p: seq<byte>)
    | CallStop(id: nat)
    | CallerGo(id: nat)
    | PumpGo
    | Tick(now: int, draw: nat)
    | SeeCancel
    | CancelOutside
    | FailWrite(sent: nat)

  function Init(drs: bool): State {
    State(Free, [], false, false, Selecting, map[], Sizing(drs, 0, 0), [], [], [], false)
  }

  predicate HoldsMutex(c: Caller) {
    c.WLocked? || c.WWrote? || c.SLocked? || c.SDone?
  }

  /** Whether a step can be taken. A caller that waits for the pump returns once it has ended. */
  predicate Enabled(s: State, step: Step) {
    match step
    case CallWrite(id, p) => id !in s.callers && p != []
    case CallStop(id) => id !in s.callers
    case CallerGo(id) =>
      && id in s.callers
      && (s.callers[id].WStart? || s.callers[id].SCancelled? ==> s.mutex == Free)
      && (s.callers[id].SWaiting? ==> s.pump.Ended?)
    case PumpGo =>
      if s.pump.WantsLock? || s.pump.Woken? then s.mutex == Free
      else s.pump.Checking? || s.pump.Took? || s.pump.Writing?
    case Tick(now, draw) => s.pump.Selecting? && draw < DRS_NOISE
    case SeeCancel => s.pump.Selecting? && s.cancelled
    case CancelOutside => true
    case FailWrite(sent) => s.pump.Writing? && sent < SIZE_HEADER + |s.pump.payload|
  }

  /** Signal and broadcast differ only in how many waiters they wake, and there is one. */
  function Notify(p: Pump): Pump {
    if p.Parked? then Woken(p.size) else p
  }

  /** Where a caller goes on; none if its call returns. */
  function NextCaller(c: Caller): (next: Option<Caller>) {
    match c
    case WStart(p) => Some(WLocked(p))
    case WLocked(_) => Some(WWrote)
    case WWrote => Some(WUnlocked)
    case WUnlocked => None
    case SCancelled => Some(SLocked)
    case SLocked => Some(SDone)
    case SDone => Some(SUnlocked)
    case SUnlocked => Some(SWaiting)
    case SWaiting => None
  }

  function Moved(callers: map<nat, Caller>, id: nat): (after: map<nat, Caller>)
    requires id in callers
  {
    match NextCaller(callers[id])
    case None => callers - {id}
    case Some(c) => callers[id := c]
  }

  function CallerStep(s: State, id: nat): (s': State)
    requires Enabled(s, CallerGo(id))
  {
    var t := s.(callers := Moved(s.callers, id));
    match s.callers[id]
    case WStart(_) => t.(mutex := ByCaller(id))
    case WLocked(p) => t.(buf := s.buf + p, written := s.written + p)
    case WWrote => t.(mutex := Free)
    case WUnlocked => t.(pump := Notify(s.pump))
    case SCancelled => t.(mutex := ByCaller(id))
    case SLocked => t.(done := true)
    case SDone => t.(mutex := Free)
    case SUnlocked => t.(pump := Notify(s.pump), broadcast := true)
    case SWaiting => t
  }

  function PumpStep(s: State): (s': State)
    requires Enabled(s, PumpGo)
  {
    match s.pump
    case WantsLock(size) => s.(mutex := ByPump, pump := Checking(size))
    case Woken(size) => s.(mutex := ByPump, pump := Checking(size))
    case Checking(size) =>
      if s.buf == [] && !s.done then s.(mutex := Free, pump := Parked(size))
      else
        var n := Min(size, |s.buf|);
        s.(buf := s.buf[n..], pump := Took(size, s.buf[..n]))
    case Took(_, payload) => s.(mutex := Free, pump := if payload == [] then Selecting else Writing(payload))
    case Writing(payload) => s.(emitted := s.emitted + [payload], pump := Selecting)
    case _ => s
  }

  function Perform(s: State, step: Step): (s': State)
    requires Enabled(s, step)
  {
    match step
    case CallWrite(id, p) => s.(callers := s.callers[id := WStart(p)])
    case CallStop(id) => s.(cancelled := true, callers := s.callers[id := SCancelled])
    case CallerGo(id) => CallerStep(s, id)
    case PumpGo => PumpStep(s)
    case Tick(now, draw) =>
      s.(sizing := Requested(s.sizing, now), pump := WantsLock(RequestedSize(s.sizing, now, draw)))
    case SeeCancel => s.(pump := Ended([]))
    case CancelOutside => s.(cancelled := true)
    case FailWrite(sent) =>
      s.(cancelled := true, pump := Ended(s.pump.payload), torn := TornRecord(s.pump.payload, sent))
  }

  /** The part of a record that a failed write had sent. */
  function TornRecord(payload: seq<byte>, sent: nat): (s: seq<byte>)
    requires sent < SIZE_HEADER + |payload|
  {
    if |payload| < 0x1_0000 then EncodeRecord(Record(TYPE_APPLICATION_DATA, payload))[..sent] else []
  }

  /** The state after a list of steps, if each of them could be taken in turn. */
  function Run(drs: bool, steps: seq<Step>): (r: Option<State>) {
    if steps == [] then Some(Init(drs))
    else match Run(drs, steps[..|steps| - 1])
      case None => None
      case Some(s) =>
        var step := steps[|steps| - 1];
        if Enabled(s, step) then Some(Perform(s, step)) else None
  }

  // ----- what every interleaving keeps

  function InFlight(p: Pump): seq<byte> {
    match p
    case Took(_, payload) => payload
    case Writing(payload) => payload
    case Ended(lost) => lost
    case _ => []
  }

  ghost predicate MutexInv(s: State) {
    && (forall id :: id in s.callers && HoldsMutex(s.callers[id]) ==> s.mutex == ByCaller(id))
    && (s.mutex.ByCaller? ==> s.mutex.id in s.callers && HoldsMutex(s.callers[s.mutex.id]))
    && (s.mutex == ByPump <==> s.pump.Checking? || s.pump.Took?)
  }

  /** A caller that is going to notify the pump and has already changed what it waits for. */
  predicate WillNotify(c: Caller) {
    c.WWrote? || c.WUnlocked? || c.SDone? || c.SUnlocked?
  }

  predicate Stopping(c: Caller) {
    c.SCancelled? || c.SLocked? || c.SDone? || c.SUnlocked? || c.SWaiting?
  }

  ghost predicate SomeoneNotifies(s: State) {
    exists id :: id in s.callers && WillNotify(s.callers[id])
  }

  ghost predicate ParkedInv(s: State) {
    s.pump.Parked? && (s.buf != [] || s.done) ==> SomeoneNotifies(s)
  }

  ghost predicate WakeupInv(s: State) {
    ParkedInv(s) && FlagsInv(s)
  }

  ghost predicate FlagsInv(s: State) {
    && (s.broadcast ==> s.done && s.cancelled && !s.pump.Parked?)
    && (forall id :: id in s.callers && (s.callers[id].SDone? || s.callers[id].SUnlocked?) ==> s.done)
    && (forall id :: id in s.callers && Stopping(s.callers[id]) ==> s.cancelled)
    && (forall id :: id in s.callers && s.callers[id].SWaiting? ==> s.broadcast)
    && (s.pump.Ended? ==> s.cancelled)
  }

  ghost predicate SizeInv(s: State) {
    && (s.pump.WantsLock? || s.pump.Checking? || s.pump.Parked? || s.pump.Woken? || s.pump.Took? ==>
          1 <= s.pump.size <= MAX_RECORD_PAYLOAD_SIZE)
    && |InFlight(s.pump)| <= MAX_RECORD_PAYLOAD_SIZE
    && (s.pump.Writing? ==> s.pump.payload != [])
    && (forall i :: 0 <= i < |s.emitted| ==> 1 <= |s.emitted[i]| <= MAX_RECORD_PAYLOAD_SIZE)
  }

  /** A record shorter than the size asked for has emptied the buffer. */
  ghost predicate FullInv(s: State) {
    s.pump.Took? ==> |s.pump.payload| == s.pump.size || (|s.pump.payload| < s.pump.size && s.buf == [])
  }

  ghost predicate BytesInv(s: State) {
    s.written == Concat(s.emitted) + InFlight(s.pump) + s.buf
  }

  /** Only a failed write leaves part of a record on the wire. */
  ghost predicate TornInv(s: State) {
    || s.torn == []
    || (s.pump.Ended?
        && exists sent: nat | sent < SIZE_HEADER + |s.pump.lost| :: s.torn == TornRecord(s.pump.lost, sent))
  }

  ghost predicate Inv(s: State) {
    MutexInv(s) && WakeupInv(s) && SizeInv(s) && FullInv(s) && BytesInv(s) && TornInv(s)
  }

  lemma MutexKept(s: State, step: Step)
    requires MutexInv(s) && Enabled(s, step)
    ensures MutexInv(Perform(s, step))
  {
    hide CallerStep, PumpStep;
    match step
    case CallerGo(id) => CallerMutex(s, id);
    case PumpGo => PumpMutex(s);
    case _ =>
  }

  lemma CallerMutex(s: State, id: nat)
    requires MutexInv(s) && Enabled(s, CallerGo(id))
    ensures MutexInv(CallerStep(s, id))
  {
    hide CallerStep;
    assert Holding(s, id) ==> s.mutex == ByCaller(id);
    CallerMovesAlone(s, id);
    OneCaller(s, CallerStep(s, id), id);
  }

  lemma CallerMovesAlone(s: State, id: nat)
    requires Enabled(s, CallerGo(id)) && (Holding(s, id) ==> s.mutex == ByCaller(id))
    ensures var s' := CallerStep(s, id);
            && (if Holding(s', id) == Holding(s, id) then s'.mutex == s.mutex
                else if Holding(s', id) then s.mutex == Free && s'.mutex == ByCaller(id)
                else s'.mutex == Free)
            && ((s'.pump.Checking? || s'.pump.Took?) == (s.pump.Checking? || s.pump.Took?))
            && s'.callers == Moved(s.callers, id)
            && forall i :: i != id ==>
                 (i in s'.callers <==> i in s.callers) && (i in s.callers ==> s'.callers[i] == s.callers[i])
  {
    hide Moved;
    MovedAlone(s.callers, id);
  }

  lemma MovedAlone(callers: map<nat, Caller>, id: nat)
    requires id in callers
    ensures var after, next := Moved(callers, id), NextCaller(callers[id]);
            && (id in after <==> next.Some?) && (next.Some? ==> after[id] == next.value)
            && forall i :: i != id ==> (i in after <==> i in callers) && (i in callers ==> after[i] == callers[i])
  {
  }

  predicate Holding(s: State, id: nat) {
    id in s.callers && HoldsMutex(s.callers[id])
  }

  /** One caller takes the mutex, gives it back or leaves it alone, and nobody else moves. */
  lemma OneCaller(s: State, s': State, id: nat)
    requires MutexInv(s)
    requires forall i :: i != id ==>
               (i in s'.callers <==> i in s.callers) && (i in s.callers ==> s'.callers[i] == s.callers[i])
    requires if Holding(s', id) == Holding(s, id) then s'.mutex == s.mutex
             else if Holding(s', id) then s.mutex == Free && s'.mutex == ByCaller(id)
             else s'.mutex == Free
    requires (s'.pump.Checking? || s'.pump.Took?) == (s.pump.Checking? || s.pump.Took?)
    ensures MutexInv(s')
  {
    assert forall i :: i != id ==> Holding(s', i) == Holding(s, i);
    assert forall i :: Holding(s, i) ==> s.mutex == ByCaller(i);
    forall i | i in s'.callers && HoldsMutex(s'.callers[i]) ensures s'.mutex == ByCaller(i) {
      assert Holding(s', i);
    }
  }

  lemma PumpMutex(s: State)
    requires MutexInv(s) && Enabled(s, PumpGo)
    ensures MutexInv(PumpStep(s))
  {
  }

  lemma WakeupKept(s: State, step: Step)
    requires MutexInv(s) && WakeupInv(s) && Enabled(s, step)
    ensures WakeupInv(Perform(s, step))
  {
    hide CallerStep, PumpStep;
    match step
    case CallerGo(id) => CallerParked(s, id); CallerFlags(s, id);
    case PumpGo => PumpWakeup(s);
    case CallWrite(id, p) =>
      assert forall i :: i in s.callers ==>
               i in Perform(s, step).callers && Perform(s, step).callers[i] == s.callers[i];
    case CallStop(id) =>
      assert forall i :: i in s.callers ==>
               i in Perform(s, step).callers && Perform(s, step).callers[i] == s.callers[i];
    case _ =>
  }

  lemma CallerParked(s: State, id: nat)
    requires ParkedInv(s) && Enabled(s, CallerGo(id))
    ensures ParkedInv(CallerStep(s, id))
  {
    MovedAlone(s.callers, id);
    hide Moved;
    var s' := CallerStep(s, id);
    if s'.pump.Parked? && (s'.buf != [] || s'.done) {
      if s.buf != [] || s.done {
        var i :| i in s.callers && WillNotify(s.callers[i]);
        assert i in s'.callers && WillNotify(s'.callers[i]);
      } else {
        assert id in s'.callers && WillNotify(s'.callers[id]);
      }
    }
  }

  lemma CallerFlags(s: State, id: nat)
    requires FlagsInv(s) && Enabled(s, CallerGo(id))
    ensures FlagsInv(CallerStep(s, id))
  {
    MovedAlone(s.callers, id);
    hide Moved;
  }

  lemma PumpWakeup(s: State)
    requires MutexInv(s) && WakeupInv(s) && Enabled(s, PumpGo)
    ensures WakeupInv(PumpStep(s))
  {
  }

  lemma SizesKept(s: State, step: Step)
    requires SizeInv(s) && Enabled(s, step)
    ensures SizeInv(Perform(s, step))
  {
    hide PumpStep;
    if step.PumpGo? {
      PumpSizes(s);
    }
  }

  lemma PumpSizes(s: State)
    requires SizeInv(s) && Enabled(s, PumpGo)
    ensures SizeInv(PumpStep(s))
  {
  }

  /** Nobody puts bytes into the buffer while the pump holds the mutex. */
  lemma FullKept(s: State, step: Step)
    requires MutexInv(s) && FullInv(s) && Enabled(s, step)
    ensures FullInv(Perform(s, step))
  {
    if step.CallerGo? && s.pump.Took? {
      assert !Holding(s, step.id);
    }
  }

  lemma TornKept(s: State, step: Step)
    requires TornInv(s) && Enabled(s, step)
    ensures TornInv(Perform(s, step))
  {
    hide TornRecord;
    if !step.FailWrite? && s.pump.Ended? {
      assert Perform(s, step).pump == s.pump && Perform(s, step).torn == s.torn;
    }
  }

  lemma BytesKept(s: State, step: Step)
    requires BytesInv(s) && Enabled(s, step)
    ensures BytesInv(Perform(s, step))
  {
    hide Concat;
    if step.CallerGo? {
      CallerBytes(s, step.id);
    } else if step.PumpGo? {
      PumpBytes(s);
    } else {
      assert InFlight(Perform(s, step).pump) == InFlight(s.pump);
    }
  }

  lemma CallerBytes(s: State, id: nat)
    requires BytesInv(s) && Enabled(s, CallerGo(id))
    ensures BytesInv(CallerStep(s, id))
  {
    hide Concat;
    if s.callers[id].WLocked? {
      var p, before := s.callers[id].p, Concat(s.emitted) + InFlight(s.pump);
      assert before + (s.buf + p) == (before + s.buf) + p;
    } else {
      assert InFlight(CallerStep(s, id).pump) == InFlight(s.pump);
    }
  }

  lemma PumpBytes(s: State)
    requires BytesInv(s) && Enabled(s, PumpGo)
    ensures BytesInv(PumpStep(s))
  {
    hide Concat;
    var out, fly := Concat(s.emitted), InFlight(s.pump);
    if s.pump.Checking? && (s.buf != [] || s.done) {
      var n := Min(s.pump.size, |s.buf|);
      assert out + [] + s.buf == out + s.buf[..n] + s.buf[n..];
    } else if s.pump.Writing? {
      ConcatSnoc(s.emitted, fly);
      assert (out + fly) + [] + s.buf == out + fly + s.buf;
    }
  }

  lemma {:induction false} AlwaysInv(drs: bool, steps: seq<Step>)
    requires Run(drs, steps).Some?
    ensures Inv(Run(drs, steps).value)
  {
    if steps == [] {
      assert Concat([]) + [] + [] == [];
    } else {
      AlwaysInv(drs, steps[..|steps| - 1]);
      var s, step := Run(drs, steps[..|steps| - 1]).value, steps[|steps| - 1];
      hide MutexInv, WakeupInv, SizeInv, FullInv, BytesInv, TornInv, Perform, Enabled;
      MutexKept(s, step);
      WakeupKept(s, step);
      SizesKept(s, step);
      BytesKept(s, step);
      TornKept(s, step);
      FullKept(s, step);
    }
  }

  /**
   No lost wakeup: with the mutex free, the pump is parked over a non-empty buffer or
   a set done flag only while some caller stands between its unlock and its
   notification; after a Stop has broadcast the pump is not parked at all.
   */
  lemma NoLostWakeup(drs: bool, steps: seq<Step>)
    requires Run(drs, steps).Some?
    ensures var s := Run(drs, steps).value;
            s.mutex == Free && s.pump.Parked? && (s.buf != [] || s.done) ==>
              exists id :: id in s.callers && (s.callers[id].WUnlocked? || s.callers[id].SUnlocked?)
    ensures var s := Run(drs, steps).value; s.broadcast ==> s.done && s.cancelled && !s.pump.Parked?
  {
    hide SizeInv, FullInv, BytesInv, TornInv, Run;
    AlwaysInv(drs, steps);
    var s := Run(drs, steps).value;
    if s.mutex == Free && s.pump.Parked? && (s.buf != [] || s.done) {
      var id :| id in s.callers && WillNotify(s.callers[id]);
      assert s.callers[id].WUnlocked? || s.callers[id].SUnlocked?;
    }
  }

  /** A broadcast is never taken back, so the pump never parks again after it. */
  lemma {:induction false} NeverParksAgain(drs: bool, steps: seq<Step>, more: seq<Step>)
    requires Run(drs, steps).Some? && Run(drs, steps).value.broadcast
    requires Run(drs, steps + more).Some?
    ensures Run(drs, steps + more).value.broadcast && !Run(drs, steps + more).value.pump.Parked?
    decreases |more|
  {
    hide MutexInv, SizeInv, FullInv, BytesInv, TornInv, Perform, Enabled;
    AlwaysInv(drs, steps + more);
    if more == [] {
      assert steps + more == steps;
    } else {
      var all, fewer := steps + more, more[..|more| - 1];
      assert all[..|all| - 1] == steps + fewer;
      NeverParksAgain(drs, steps, fewer);
      BroadcastKept(Run(drs, steps + fewer).value, all[|all| - 1]);
    }
  }

  lemma BroadcastKept(s: State, step: Step)
    requires s.broadcast && Enabled(s, step)
    ensures Perform(s, step).broadcast
  {
  }

  /** A step that somebody already inside takes, rather than a new call or a failure. */
  predicate Inside(step: Step) {
    step.CallerGo? || step.PumpGo? || step.Tick? || step.SeeCancel?
  }

  /** While bytes wait and the pump has not ended, or once done is set, somebody inside can go on. */
  lemma NeverStuck(drs: bool, steps: seq<Step>) returns (step: Step)
    requires Run(drs, steps).Some?
    requires var s := Run(drs, steps).value; !s.pump.Ended? && (s.buf != [] || s.done)
    ensures Inside(step) && Enabled(Run(drs, steps).value, step)
  {
    hide SizeInv, FullInv, BytesInv, TornInv, Run;
    AlwaysInv(drs, steps);
    var s := Run(drs, steps).value;
    if s.mutex.ByCaller? {
      step := CallerGo(s.mutex.id);
    } else if s.pump.Selecting? {
      step := Tick(0, 0);
    } else if s.pump.Parked? {
      var id :| id in s.callers && WillNotify(s.callers[id]);
      step := CallerGo(id);
    } else {
      step := PumpGo;
    }
  }

  /** How far the pump is from its end once it has been told to stop. */
  function PumpRank(p: Pump): nat {
    match p
    case Ended(_) => 0
    case Selecting => 1
    case Writing(_) => 2
    case Took(_, _) => 3
    case Checking(_) => 4
    case WantsLock(_) => 5
    case Woken(_) => 5
    case Parked(_) => 6
  }

  /** How far the holder of the mutex is from giving it back. */
  function HolderRank(s: State): nat {
    if !s.mutex.ByCaller? || s.mutex.id !in s.callers then 0
    else if s.callers[s.mutex.id].WLocked? || s.callers[s.mutex.id].SLocked? then 2 else 1
  }

  lemma TowardsEnd(s: State) returns (step: Step)
    requires MutexInv(s) && WakeupInv(s) && s.broadcast && !s.pump.Ended?
    ensures Inside(step) && Enabled(s, step) && Perform(s, step).broadcast
    ensures var s' := Perform(s, step);
            || PumpRank(s'.pump) < PumpRank(s.pump)
            || (PumpRank(s'.pump) == PumpRank(s.pump) && HolderRank(s') < HolderRank(s))
  {
    if s.pump.Selecting? {
      step := SeeCancel;
    } else if s.mutex.ByCaller? && (s.pump.WantsLock? || s.pump.Woken?) {
      step := CallerGo(s.mutex.id);
    } else {
      step := PumpGo;
    }
  }

  /** From wherever a Stop has broadcast, those already inside can bring the pump to its end. */
  lemma {:induction false} StopCanComplete(drs: bool, steps: seq<Step>, s: State) returns (more: seq<Step>)
    requires Run(drs, steps) == Some(s) && s.broadcast
    ensures forall i :: 0 <= i < |more| ==> Inside(more[i])
    ensures Run(drs, steps + more).Some? && Run(drs, steps + more).value.pump.Ended?
    decreases PumpRank(s.pump), HolderRank(s)
  {
    hide MutexInv, WakeupInv, SizeInv, FullInv, BytesInv, TornInv, Perform, Enabled, PumpRank, HolderRank;
    if s.pump.Ended? {
      more := [];
      assert steps + [] == steps;
    } else {
      AlwaysInv(drs, steps);
      var step := TowardsEnd(s);
      assert (steps + [step])[..|steps|] == steps;
      var rest := StopCanComplete(drs, steps + [step], Perform(s, step));
      more := [step] + rest;
      assert (steps + [step]) + rest == steps + more;
    }
  }

  // ----- a run and its calls

  /** A Write call that has not returned, and how often its caller has moved. */
  datatype Progress = Progress(p: seq<byte>, moves: nat)

  /** The Write calls begun and not finished; a call takes four moves. */
  function NextCalls(calls: map<nat, Progress>, step: Step): map<nat, Progress> {
    match step
    case CallWrite(id, p) => calls[id := Progress(p, 0)]
    case CallerGo(id) =>
      if id !in calls then calls
      else if calls[id].moves == 3 then calls - {id}
      else calls[id := Progress(calls[id].p, calls[id].moves + 1)]
    case _ => calls
  }

  function Calls(steps: seq<Step>): (calls: map<nat, Progress>) {
    if steps == [] then map[] else NextCalls(Calls(steps[..|steps| - 1]), steps[|steps| - 1])
  }

  /** What a step brings: the second move of a Write, with the mutex in hand, counts. */
  function Brought(calls: map<nat, Progress>, step: Step): seq<byte> {
    if step.CallerGo? && step.id in calls && calls[step.id].moves == 1 then calls[step.id].p else []
  }

  /** What the Write calls of a run have brought, in the order in which they held the mutex. */
  function Accepted(steps: seq<Step>): (s: seq<byte>) {
    if steps == [] then []
    else
      var fewer, step := steps[..|steps| - 1], steps[|steps| - 1];
      Accepted(fewer) + Brought(Calls(fewer), step)
  }

  predicate Stands(c: Caller, calls: map<nat, Progress>, id: nat) {
    match c
    case WStart(p) => id in calls && calls[id] == Progress(p, 0)
    case WLocked(p) => id in calls && calls[id] == Progress(p, 1)
    case WWrote => id in calls && calls[id].moves == 2
    case WUnlocked => id in calls && calls[id].moves == 3
    case _ => id !in calls
  }

  ghost predicate CallsInv(calls: map<nat, Progress>, s: State) {
    && (forall id :: id in calls ==> id in s.callers)
    && (forall id :: id in s.callers ==> Stands(s.callers[id], calls, id))
  }

  lemma CallsKept(calls: map<nat, Progress>, s: State, step: Step)
    requires CallsInv(calls, s) && Enabled(s, step)
    ensures CallsInv(NextCalls(calls, step), Perform(s, step))
    ensures Perform(s, step).written == s.written + Brought(calls, step)
  {
    hide CallerStep, PumpStep;
    if step.CallerGo? {
      CallerCalls(calls, s, step.id);
    } else if step.PumpGo? {
      PumpTouchesNoCall(s);
    }
  }

  lemma PumpTouchesNoCall(s: State)
    requires Enabled(s, PumpGo)
    ensures PumpStep(s).callers == s.callers && PumpStep(s).written == s.written
  {
  }

  lemma CallerCalls(calls: map<nat, Progress>, s: State, id: nat)
    requires CallsInv(calls, s) && Enabled(s, CallerGo(id))
    ensures CallsInv(NextCalls(calls, CallerGo(id)), CallerStep(s, id))
    ensures CallerStep(s, id).written == s.written + Brought(calls, CallerGo(id))
  {
    hide Moved, NextCalls, CallerStep, NextCaller, Stands, Brought;
    MovedAlone(s.callers, id);
    CallerWrites(calls, s, id);
    StandsNext(s.callers[id], calls, id);
    var calls', s' := NextCalls(calls, CallerGo(id)), CallerStep(s, id);
    forall i | i in s'.callers ensures Stands(s'.callers[i], calls', i) {
      if i != id {
        StandsStill(s.callers[i], calls, id, i);
      }
    }
    forall i | i in calls' ensures i in s'.callers {
      CallsOnly(calls, id, i);
    }
  }

  lemma CallerWrites(calls: map<nat, Progress>, s: State, id: nat)
    requires Enabled(s, CallerGo(id)) && Stands(s.callers[id], calls, id)
    ensures CallerStep(s, id).callers == Moved(s.callers, id)
    ensures CallerStep(s, id).written == s.written + Brought(calls, CallerGo(id))
  {
    hide Moved;
  }

  lemma StandsNext(c: Caller, calls: map<nat, Progress>, id: nat)
    requires Stands(c, calls, id)
    ensures match NextCaller(c)
            case Some(next) => Stands(next, NextCalls(calls, CallerGo(id)), id)
            case None => id !in NextCalls(calls, CallerGo(id))
  {
  }

  lemma StandsStill(c: Caller, calls: map<nat, Progress>, id: nat, i: nat)
    requires Stands(c, calls, i) && i != id
    ensures Stands(c, NextCalls(calls, CallerGo(id)), i)
  {
  }

  lemma CallsOnly(calls: map<nat, Progress>, id: nat, i: nat)
    requires i in NextCalls(calls, CallerGo(id))
    ensures i in calls
  {
  }

  lemma {:induction false} WritesAreAccepted(drs: bool, steps: seq<Step>, s: State)
    requires Run(drs, steps) == Some(s)
    ensures CallsInv(Calls(steps), s) && s.written == Accepted(steps)
  {
    hide CallsInv, Perform, Enabled, NextCalls, Brought;
    if steps == [] {
      NoCalls(drs);
    } else {
      var fewer, step := steps[..|steps| - 1], steps[|steps| - 1];
      WritesAreAccepted(drs, fewer, Run(drs, fewer).value);
      CallsKept(Calls(fewer), Run(drs, fewer).value, step);
    }
  }

  lemma NoCalls(drs: bool)
    ensures CallsInv(Calls([]), Init(drs)) && Accepted([]) == Init(drs).written
  {
  }

  // ----- a run and its ticks

  /** When the pump asked for a size. */
  function Ticks(steps: seq<Step>): (times: seq<int>) {
    if steps == [] then []
    else
      var step := steps[|steps| - 1];
      Ticks(steps[..|steps| - 1]) + if step.Tick? then [step.now] else []
  }

  function AskedFor(p: Pump): (size: Option<nat>) {
    if p.WantsLock? || p.Checking? || p.Parked? || p.Woken? || p.Took? then Some(p.size) else None
  }

  /** The size of a request at that time, for some draw. */
  ghost predicate Answers(z: Sizing, now: int, size: nat) {
    exists draw: nat :: draw < DRS_NOISE && size == RequestedSize(z, now, draw)
  }

  /** The size that the last of these requests was answered with. */
  ghost predicate Answered(z: Sizing, times: seq<int>, size: nat) {
    times != [] && Answers(After(z, times[..|times| - 1]), times[|times| - 1], size)
  }

  /**
   The pump takes as many bytes as there are, up to the size of its phase, which is
   settled by the times of its ticks.
   */
  lemma {:induction false} SizesFollowTicks(drs: bool, steps: seq<Step>, s: State)
    requires Run(drs, steps) == Some(s)
    ensures s.sizing == After(Sizing(drs, 0, 0), Ticks(steps))
    ensures AskedFor(s.pump).Some? ==> Answered(Sizing(drs, 0, 0), Ticks(steps), AskedFor(s.pump).value)
    ensures s.pump.Took? ==> |s.pump.payload| == Min(s.pump.size, |s.pump.payload| + |s.buf|)
  {
    hide MutexInv, WakeupInv, SizeInv, BytesInv, TornInv, RequestedSize, Requested, Answered;
    AlwaysInv(drs, steps);
    if steps != [] {
      var fewer, step := steps[..|steps| - 1], steps[|steps| - 1];
      var m := Run(drs, fewer).value;
      SizesFollowTicks(drs, fewer, m);
      TickKept(Sizing(drs, 0, 0), Ticks(fewer), m, step);
      assert Ticks(fewer) + [] == Ticks(fewer);
    }
  }

  lemma TickKept(z: Sizing, times: seq<int>, s: State, step: Step)
    requires Enabled(s, step) && s.sizing == After(z, times)
    requires AskedFor(s.pump).Some? ==> Answered(z, times, AskedFor(s.pump).value)
    ensures var times' := if step.Tick? then times + [step.now] else times;
            var s' := Perform(s, step);
            && s'.sizing == After(z, times')
            && (AskedFor(s'.pump).Some? ==> Answered(z, times', AskedFor(s'.pump).value))
  {
    hide RequestedSize, Requested;
    if step.Tick? {
      assert (times + [step.now])[..|times|] == times;
      assert Answers(s.sizing, step.now, RequestedSize(s.sizing, step.now, step.draw));
    } else {
      hide Answered;
      assert AskedFor(Perform(s, step).pump).Some? ==> AskedFor(Perform(s, step).pump) == AskedFor(s.pump);
    }
  }

  /** Bytes are conserved: what was written is what was emitted, is in flight, or waits. */
  lemma BytesConserved(drs: bool, steps: seq<Step>)
    requires Run(drs, steps).Some?
    ensures var s := Run(drs, steps).value;
            && Accepted(steps) == s.written == Concat(s.emitted) + InFlight(s.pump) + s.buf
            && forall i :: 0 <= i < |s.emitted| ==> 1 <= |s.emitted[i]| <= MAX_RECORD_PAYLOAD_SIZE
  {
    hide Run, Accepted, Concat;
    AlwaysInv(drs, steps);
    WritesAreAccepted(drs, steps, Run(drs, steps).value);
  }

  /** A failed write, like a Stop, leaves the context cancelled, so that later calls report it. */
  lemma EndedIsCancelled(drs: bool, steps: seq<Step>, s: State)
    requires Run(drs, steps) == Some(s) && s.pump.Ended?
    ensures s.cancelled
  {
    hide Run, MutexInv, SizeInv, FullInv, BytesInv, TornInv;
    AlwaysInv(drs, steps);
  }

  // ----- what the peer reads

  function AppRecords(rs: seq<Record>): (ps: seq<seq<byte>>) {
    if rs == [] then []
    else (if rs[0].kind == TYPE_APPLICATION_DATA then [rs[0].payload] else []) + AppRecords(rs[1..])
  }

  lemma {:induction false} AppPayloadsConcat(rs: seq<Record>)
    ensures AppPayloads(rs) == Concat(AppRecords(rs))
  {
    if rs != [] {
      AppPayloadsConcat(rs[1..]);
      if rs[0].kind == TYPE_APPLICATION_DATA {
        assert AppRecords(rs)[1..] == AppRecords(rs[1..]);
      } else {
        assert [] + AppRecords(rs[1..]) == AppRecords(rs[1..]);
        assert [] + AppPayloads(rs[1..]) == AppPayloads(rs[1..]);
      }
    }
  }

  lemma TornIsSilent(payload: seq<byte>, sent: nat)
    requires sent < SIZE_HEADER + |payload| && |payload| < 0x1_0000
    ensures AppData(TornRecord(payload, sent)) == []
  {
    hide PutU16, GetU16;
    var whole := EncodeRecord(Record(TYPE_APPLICATION_DATA, payload));
    var torn := whole[..sent];
    if sent >= SIZE_HEADER {
      NextOfEncoded(Record(TYPE_APPLICATION_DATA, payload), []);
      assert whole + [] == whole;
      U16Front(|payload|, payload);
      assert whole[3..] == PutU16(|payload|) + payload;
      assert torn[3] == whole[3..][0] && torn[4] == whole[3..][1];
    }
  }

  /**
   A peer that reads the wire through a TLS connection gets exactly the emitted
   payloads, in order, a prefix of what was written, whatever records of other types
   stand between them and wherever a failed write stopped.
   */
  lemma PeerReadsWhatWasWritten(drs: bool, steps: seq<Step>, s: State, rs: seq<Record>)
    requires Run(drs, steps) == Some(s)
    requires (forall i :: 0 <= i < |rs| ==> Fits(rs[i])) && AppRecords(rs) == s.emitted
    ensures AppData(EncodeRecords(rs) + s.torn) == Concat(s.emitted)
    ensures Concat(s.emitted) <= Accepted(steps)
  {
    hide AppData, AppPayloads, MutexInv, WakeupInv, TornInv, SizeInv, Run, Concat, EncodeRecords, AppRecords, Accepted;
    AlwaysInv(drs, steps);
    WritesAreAccepted(drs, steps, s);
    TornSilent(s);
    AppDataOfEncoded(rs, s.torn);
    AppPayloadsConcat(rs);
    var out := Concat(s.emitted);
    assert out + [] == out;
    assert s.written == out + (InFlight(s.pump) + s.buf);
  }

  lemma TornSilent(s: State)
    requires TornInv(s) && SizeInv(s)
    ensures AppData(s.torn) == []
  {
    if s.torn != [] {
      hide TornRecord, AppData;
      var sent: nat :| sent < SIZE_HEADER + |s.pump.lost| && s.torn == TornRecord(s.pump.lost, sent);
      TornIsSilent(s.pump.lost, sent);
    }
  }
}
