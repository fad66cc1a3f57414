/**
 Connection gauges kept from stream events (stats/statsd.go, stats/prometheus.go) and the
 records behind them, which all processors take from one pool (stats/stream_info.go,
 stats/pools.go). Metrics that are only ever incremented are not modelled.
 */
module Gauges {
  import opened Bytes
  import opened Counting

  const TAG_IP_FAMILY := "ip_family"
  const TAG_TELEGRAM_IP := "telegram_ip"
  const TAG_DC := "dc"
  const IPV4 := "ipv4"
  const IPV6 := "ipv6"

  /** What a record says of its stream. */
  datatype Info = Info(isDomainFronted: bool, tags: map<string, string>) {
    /** A missing tag reads as the empty string. */
    function T(key: string): string {
      if key in tags then tags[key] else ""
    }
  }

  const BLANK := Info(false, map[])

  /** A stream as one processor sees it: several processors are fed the same streams. */
  datatype Key = Key(processor: nat, stream: string)

  datatype Metric =
    | ClientConnections(family: string)
    | TelegramConnections(ip: string, dc: string)
    | DomainFrontingConnections(family: string)

  /** What one processor has contributed to a metric. */
  datatype Gauge = Gauge(processor: nat, metric: Metric)

  datatype Event =
    | Start(key: Key, isIPv4: bool)
    | ConnectedToDC(key: Key, ip: string, dc: string)
    | DomainFronting(key: Key)
    | Finish(key: Key)

  datatype State = State(streams: map<Key, Info>, gauges: map<Gauge, int>)

  function Value(gauges: map<Gauge, int>, g: Gauge): int {
    if g in gauges then gauges[g] else 0
  }

  function Plus(gauges: map<Gauge, int>, g: Gauge, d: int): map<Gauge, int> {
    gauges[g := Value(gauges, g) + d]
  }

  /** The gauge, next to the client one, that finishing a stream brings down. */
  function FinishingGauge(k: Key, i: Info): Option<Gauge> {
    if i.isDomainFronted then Some(Gauge(k.processor, DomainFrontingConnections(i.T(TAG_IP_FAMILY))))
    else if TAG_TELEGRAM_IP in i.tags
    then Some(Gauge(k.processor, TelegramConnections(i.T(TAG_TELEGRAM_IP), i.T(TAG_DC))))
    else None
  }

  function Apply(s: State, e: Event): State {
    match e
    case Start(k, isIPv4) =>
      var i := Info(false, map[TAG_IP_FAMILY := if isIPv4 then IPV4 else IPV6]);
      State(s.streams[k := i], Plus(s.gauges, Gauge(k.processor, ClientConnections(i.T(TAG_IP_FAMILY))), 1))
    case ConnectedToDC(k, ip, dc) =>
      if k !in s.streams then s
      else
        var i := s.streams[k].(tags := s.streams[k].tags[TAG_TELEGRAM_IP := ip][TAG_DC := dc]);
        State(s.streams[k := i], Plus(s.gauges, Gauge(k.processor, TelegramConnections(ip, dc)), 1))
    case DomainFronting(k) =>
      if k !in s.streams then s
      else
        var i := s.streams[k].(isDomainFronted := true);
        State(s.streams[k := i],
              Plus(s.gauges, Gauge(k.processor, DomainFrontingConnections(i.T(TAG_IP_FAMILY))), 1))
    case Finish(k) =>
      if k !in s.streams then s
      else
        var i := s.streams[k];
        var gauges := Plus(s.gauges, Gauge(k.processor, ClientConnections(i.T(TAG_IP_FAMILY))), -1);
        State(s.streams - {k}, match FinishingGauge(k, i) case None => gauges case Some(g) => Plus(gauges, g, -1))
  }

  function Replay(s: State, events: seq<Event>): State {
    if events == [] then s else Apply(Replay(s, events[..|events| - 1]), events[|events| - 1])
  }

  const EMPTY := State(map[], map[])

  // -------------------------------------------------------------------
  // What the gauges are worth
  // -------------------------------------------------------------------

  /** A stream is fronted, or else connected to Telegram, or else neither. */
  predicate Matches(k: Key, i: Info, g: Gauge) {
    && k.processor == g.processor
    && match g.metric
       case ClientConnections(f) => i.T(TAG_IP_FAMILY) == f
       case TelegramConnections(ip, dc) =>
         !i.isDomainFronted && TAG_TELEGRAM_IP in i.tags && i.T(TAG_TELEGRAM_IP) == ip && i.T(TAG_DC) == dc
       case DomainFrontingConnections(f) => i.isDomainFronted && i.T(TAG_IP_FAMILY) == f
  }

  ghost function Count(streams: map<Key, Info>, g: Gauge): (n: nat) {
    CountIf(streams, Matching(g))
  }

  function Matching(g: Gauge): (Key, Info) -> bool {
    (k, i) => Matches(k, i, g)
  }

  /** How much a gauge overstates the live streams. */
  ghost function Drift(s: State, g: Gauge): int {
    Value(s.gauges, g) - Count(s.streams, g)
  }

  /** A stream starts once, and then connects or is fronted at most once. */
  predicate InOrder(streams: map<Key, Info>, e: Event) {
    match e
    case Start(k, _) => k !in streams
    case ConnectedToDC(k, _, _) => k in streams ==> FinishingGauge(k, streams[k]) == None
    case DomainFronting(k) => k in streams ==> FinishingGauge(k, streams[k]) == None
    case Finish(_) => true
  }

  /** Whichever gauge a stream out of order leaves behind. */
  function Lost(s: State, e: Event): Gauge
    requires !InOrder(s.streams, e)
  {
    var k := e.key;
    match e
    case Start(_, _) => Gauge(k.processor, ClientConnections(s.streams[k].T(TAG_IP_FAMILY)))
    case ConnectedToDC(_, ip, dc) =>
      if s.streams[k].isDomainFronted then Gauge(k.processor, TelegramConnections(ip, dc))
      else FinishingGauge(k, s.streams[k]).value
    case _ => FinishingGauge(k, s.streams[k]).value
  }

  /** No event lowers a drift; the events in order are those that leave every drift alone. */
  lemma DriftOfStep(s: State, e: Event, g: Gauge)
    ensures Drift(Apply(s, e), g) >= Drift(s, g)
    ensures InOrder(s.streams, e) ==> Drift(Apply(s, e), g) == Drift(s, g)
    ensures !InOrder(s.streams, e) && g == Lost(s, e) ==> Drift(Apply(s, e), g) > Drift(s, g)
  {
    hide CountIf;
    var k := e.key;
    var t := Apply(s, e);
    if e.Finish? {
      CountWithout(s.streams, Matching(g), k);
      assert k !in s.streams ==> s.streams - {k} == s.streams;
    } else if e.Start? || k in s.streams {
      CountSet(s.streams, Matching(g), k, t.streams[k]);
    }
  }

  /**
   The life of a stream: its start raises the client gauge of its family, connecting
   the gauge of that server and data centre, each by one and no other gauge, and its
   end puts both back.
   */
  lemma LifeOfAStream(s: State, k: Key, isIPv4: bool, ip: string, dc: string, g: Gauge)
    requires k !in s.streams
    ensures var s1 := Apply(s, Start(k, isIPv4));
            var s2 := Apply(s1, ConnectedToDC(k, ip, dc));
            var s3 := Apply(s2, Finish(k));
            var family := if isIPv4 then "ipv4" else "ipv6";
            && Value(s1.gauges, g) == Value(s.gauges, g) + One(g == Gauge(k.processor, ClientConnections(family)))
            && Value(s2.gauges, g) == Value(s1.gauges, g) + One(g == Gauge(k.processor, TelegramConnections(ip, dc)))
            && Value(s3.gauges, g) == Value(s.gauges, g) && s3.streams == s.streams
  {
    var s2 := Apply(Apply(s, Start(k, isIPv4)), ConnectedToDC(k, ip, dc));
    assert s2.streams == s.streams[k := s2.streams[k]];
    assert s2.streams - {k} == s.streams;
    assert s2.streams[k].T(TAG_TELEGRAM_IP) == ip && s2.streams[k].T(TAG_DC) == dc;
    assert s2.streams[k].T(TAG_IP_FAMILY) == if isIPv4 then "ipv4" else "ipv6";
  }

  /** And of one that is handed to the fronting site. */
  lemma LifeOfAFrontedStream(s: State, k: Key, isIPv4: bool, g: Gauge)
    requires k !in s.streams
    ensures var s1 := Apply(s, Start(k, isIPv4));
            var s2 := Apply(s1, DomainFronting(k));
            var s3 := Apply(s2, Finish(k));
            var fronted := DomainFrontingConnections(if isIPv4 then "ipv4" else "ipv6");
            && Value(s2.gauges, g) == Value(s1.gauges, g) + One(g == Gauge(k.processor, fronted))
            && Value(s3.gauges, g) == Value(s.gauges, g) && s3.streams == s.streams
  {
    var s2 := Apply(Apply(s, Start(k, isIPv4)), DomainFronting(k));
    assert s2.streams == s.streams[k := s2.streams[k]];
    assert s2.streams - {k} == s.streams;
  }

  predicate Orderly(s: State, events: seq<Event>) {
    events == [] ||
    (Orderly(s, events[..|events| - 1]) && InOrder(Replay(s, events[..|events| - 1]).streams, events[|events| - 1]))
  }

  lemma {:induction false} DriftGrows(s: State, events: seq<Event>, g: Gauge)
    ensures Drift(Replay(s, events), g) >= Drift(s, g)
    ensures Orderly(s, events) ==> Drift(Replay(s, events), g) == Drift(s, g)
  {
    hide Drift, Apply;
    if events != [] {
      DriftGrows(s, events[..|events| - 1], g);
      DriftOfStep(Replay(s, events[..|events| - 1]), events[|events| - 1], g);
    }
  }

  /** A log that breaks the order leaves some gauge too high, for good. */
  lemma {:induction false} DisorderShows(s: State, events: seq<Event>) returns (g: Gauge)
    requires !Orderly(s, events)
    ensures Drift(Replay(s, events), g) > Drift(s, g)
  {
    hide Drift, Apply;
    var fewer, e := events[..|events| - 1], events[|events| - 1];
    var m := Replay(s, fewer);
    if Orderly(s, fewer) {
      g := Lost(m, e);
    } else {
      g := DisorderShows(s, fewer);
    }
    DriftGrows(s, fewer, g);
    DriftOfStep(m, e, g);
  }

  /** Every gauge is the number of live streams it speaks of. */
  ghost predicate Exact(s: State) {
    forall g :: Value(s.gauges, g) == Count(s.streams, g)
  }

  /** From the empty state the gauges are exact after exactly the logs that keep the order. */
  lemma ExactWhenOrderly(events: seq<Event>)
    ensures Exact(Replay(EMPTY, events)) <==> Orderly(EMPTY, events)
    ensures forall g :: Value(Replay(EMPTY, events).gauges, g) >= Count(Replay(EMPTY, events).streams, g)
  {
    var t := Replay(EMPTY, events);
    forall g
      ensures Value(t.gauges, g) >= Count(t.streams, g)
      ensures Orderly(EMPTY, events) ==> Value(t.gauges, g) == Count(t.streams, g)
    {
      NothingLive(EMPTY.streams, g);
      DriftGrows(EMPTY, events, g);
    }
    if !Orderly(EMPTY, events) {
      var g := DisorderShows(EMPTY, events);
      NothingLive(EMPTY.streams, g);
      assert Value(t.gauges, g) > Count(t.streams, g);
    }
  }

  lemma NothingLive(streams: map<Key, Info>, g: Gauge)
    requires forall k :: k in streams ==> k.processor != g.processor
    ensures Count(streams, g) == 0
  {
    CountNone(streams, Matching(g));
  }

  // -------------------------------------------------------------------
  // Shutdown
  // -------------------------------------------------------------------

  function Finishes(keys: seq<Key>): (events: seq<Event>)
    ensures |events| == |keys| && forall i :: 0 <= i < |keys| ==> events[i] == Finish(keys[i])
  {
    seq(|keys|, i requires 0 <= i < |keys| => Finish(keys[i]))
  }

  lemma {:induction false} AllFinished(s: State, keys: seq<Key>)
    ensures Orderly(s, Finishes(keys))
    ensures Replay(s, Finishes(keys)).streams == s.streams - (set k | k in keys)
  {
    if keys != [] {
      var fewer := keys[..|keys| - 1];
      assert Finishes(keys)[..|keys| - 1] == Finishes(fewer);
      AllFinished(s, fewer);
    }
  }

  /** The statsd processor takes back whatever its live streams stood for, and nothing else. */
  lemma StatsdShutdownTakesBack(s: State, processor: nat, keys: seq<Key>, g: Gauge)
    requires forall k :: k in keys <==> k in s.streams && k.processor == processor
    ensures g.processor == processor ==> Value(Replay(s, Finishes(keys)).gauges, g) == Drift(s, g)
    ensures g.processor != processor ==> Value(Replay(s, Finishes(keys)).gauges, g) == Value(s.gauges, g)
  {
    var t := Replay(s, Finishes(keys));
    AllFinished(s, keys);
    DriftGrows(s, Finishes(keys), g);
    if g.processor == processor {
      NothingLive(t.streams, g);
    } else {
      CountSame(s.streams, t.streams, Matching(g));
    }
  }

  /** The Prometheus processor only forgets its streams. */
  function Forget(s: State, processor: nat): State {
    s.(streams := map k | k in s.streams && k.processor != processor :: s.streams[k])
  }

  /** So after an orderly log its gauges go to zero if and only if it had no live stream. */
  lemma PrometheusShutdownKeeps(events: seq<Event>, processor: nat)
    requires Orderly(EMPTY, events)
    ensures var s := Replay(EMPTY, events);
            (forall g: Gauge :: g.processor == processor ==> Value(Forget(s, processor).gauges, g) == 0)
            <==> (forall k :: k in s.streams ==> k.processor != processor)
  {
    var s := Replay(EMPTY, events);
    ExactWhenOrderly(events);
    if k :| k in s.streams && k.processor == processor {
      var g := Gauge(processor, ClientConnections(s.streams[k].T(TAG_IP_FAMILY)));
      CountWithout(s.streams, Matching(g), k);
      assert Value(s.gauges, g) > 0;
    } else {
      forall g: Gauge | g.processor == processor
        ensures Value(s.gauges, g) == 0
      {
        NothingLive(s.streams, g);
      }
    }
  }

  // -------------------------------------------------------------------
  // The processors themselves
  // -------------------------------------------------------------------

  class StreamInfo {
    var isDomainFronted: bool
    var tags: map<string, string>

    constructor ()
      ensures Content() == BLANK
    {
      isDomainFronted, tags := false, map[];
    }

    function Content(): Info
      reads this
    {
      Info(isDomainFronted, tags)
    }

    method Reset()
      modifies this
      ensures Content() == BLANK
    {
      isDomainFronted := false;
      while tags != map[]
        invariant !isDomainFronted
        decreases tags.Keys
      {
        var k :| k in tags;
        tags := tags - {k};
      }
    }
  }

  class Processors {
    var streams: map<Key, StreamInfo>
    var pool: set<StreamInfo>
    var gauges: map<Gauge, int>

    // every record that was ever taken
    ghost var repr: set<StreamInfo>

    ghost predicate Owned()
      reads this
    {
      pool <= repr && forall k :: k in streams ==> streams[k] in repr
    }

    ghost function Contents(): State
      requires Owned()
      reads this, repr
    {
      State(map k | k in streams :: streams[k].Content(), gauges)
    }

    /** No two live streams share a record, none shares one with the pool, and pooled records are blank. */
    ghost predicate Valid()
      reads this, repr
    {
      && Owned()
      && (forall k :: k in streams ==> streams[k] !in pool)
      && (forall j, k :: j in streams && k in streams && j != k ==> streams[j] != streams[k])
      && (forall o :: o in pool ==> o.Content() == BLANK)
    }

    ghost predicate Unused(info: StreamInfo)
      reads this
    {
      info !in pool && forall k :: k in streams ==> streams[k] != info
    }

    constructor ()
      ensures Valid() && Contents() == EMPTY && repr == {}
    {
      streams, pool, gauges, repr := map[], {}, map[], {};
    }

    /** Any pooled record, or a new one. */
    method Acquire() returns (info: StreamInfo)
      requires Valid()
      modifies this`pool, this`repr
      ensures Valid() && Contents() == old(Contents())
      ensures info.Content() == BLANK && Unused(info)
      ensures repr == old(repr) + {info} && (info in old(repr) || fresh(info))
    {
      var reuse: bool := *;
      if reuse && pool != {} {
        info :| info in pool;
        pool := pool - {info};
      } else {
        info := new StreamInfo();
      }
      repr := repr + {info};
    }

    method EventStart(k: Key, isIPv4: bool)
      requires Valid()
      modifies this, repr
      ensures Valid() && fresh(repr - old(repr))
      ensures Contents() == Apply(old(Contents()), Start(k, isIPv4))
    {
      hide Plus, FinishingGauge;
      var info := Acquire();
      var i := TagFamily(info, isIPv4);
      Put(k, info);
      Add(Gauge(k.processor, ClientConnections(i.T(TAG_IP_FAMILY))), 1);
    }

    method Add(g: Gauge, d: int)
      requires Valid()
      modifies this`gauges
      ensures Valid() && Contents() == old(Contents()).(gauges := Plus(old(gauges), g, d))
    {
      gauges := Plus(gauges, g, d);
    }

    method TagFamily(info: StreamInfo, isIPv4: bool) returns (i: Info)
      requires Valid() && info in repr && Unused(info)
      modifies info
      ensures Valid() && Contents() == old(Contents()) && info.Content() == i
      ensures i == old(info.Content()).(tags := old(info.tags)[TAG_IP_FAMILY := if isIPv4 then IPV4 else IPV6])
    {
      info.tags := info.tags[TAG_IP_FAMILY := if isIPv4 then IPV4 else IPV6];
      i := info.Content();
      assert Contents().streams == old(Contents()).streams;
    }

    method Put(k: Key, info: StreamInfo)
      requires Valid() && info in repr && Unused(info)
      modifies this`streams
      ensures Valid()
      ensures Contents() == old(Contents()).(streams := old(Contents()).streams[k := info.Content()])
    {
      streams := streams[k := info];
      assert Contents().streams == old(Contents()).streams[k := info.Content()];
    }

    method EventConnectedToDC(k: Key, ip: string, dc: string)
      requires Valid()
      modifies this, repr
      ensures Valid() && repr == old(repr)
      ensures Contents() == Apply(old(Contents()), ConnectedToDC(k, ip, dc))
    {
      hide Plus, FinishingGauge;
      if k !in streams {
        return;
      }
      var info := streams[k];
      info.tags := info.tags[TAG_TELEGRAM_IP := ip];
      info.tags := info.tags[TAG_DC := dc];
      var i := info.Content();
      Add(Gauge(k.processor, TelegramConnections(i.T(TAG_TELEGRAM_IP), i.T(TAG_DC))), 1);
      assert Contents().streams == Apply(old(Contents()), ConnectedToDC(k, ip, dc)).streams;
    }

    method EventDomainFronting(k: Key)
      requires Valid()
      modifies this, repr
      ensures Valid() && repr == old(repr)
      ensures Contents() == Apply(old(Contents()), DomainFronting(k))
    {
      hide Plus, Info.T, FinishingGauge;
      if k !in streams {
        return;
      }
      var info := streams[k];
      info.isDomainFronted := true;
      Add(Gauge(k.processor, DomainFrontingConnections(info.Content().T(TAG_IP_FAMILY))), 1);
      assert Contents().streams == Apply(old(Contents()), DomainFronting(k)).streams;
    }

    method Release(k: Key)
      requires Valid() && k in streams
      modifies this, streams[k]
      ensures Valid() && repr == old(repr) && streams == old(streams) - {k}
      ensures Contents() == old(Contents()).(streams := old(Contents()).streams - {k})
      ensures pool == old(pool) + {old(streams[k])}
    {
      var info := streams[k];
      streams := streams - {k};
      info.Reset();
      pool := pool + {info};
      assert Contents().streams == old(Contents()).streams - {k};
    }

    method EventFinish(k: Key)
      requires Valid()
      modifies this, repr
      ensures Valid() && repr == old(repr) && streams == old(streams) - {k}
      ensures Contents() == Apply(old(Contents()), Finish(k))
      ensures k in old(streams) ==> old(streams[k]) in pool
    {
      hide Plus, Info.T;
      if k !in streams {
        return;
      }
      var i := streams[k].Content();
      Add(Gauge(k.processor, ClientConnections(i.T(TAG_IP_FAMILY))), -1);
      if i.isDomainFronted {
        Add(Gauge(k.processor, DomainFrontingConnections(i.T(TAG_IP_FAMILY))), -1);
      } else if TAG_TELEGRAM_IP in i.tags {
        Add(Gauge(k.processor, TelegramConnections(i.T(TAG_TELEGRAM_IP), i.T(TAG_DC))), -1);
      }
      assert old(Contents()).streams[k] == i;
      Release(k);
    }

    /** The keys of one processor, in some order. */
    method KeysOf(processor: nat) returns (keys: seq<Key>)
      ensures forall k :: k in keys <==> k in streams && k.processor == processor
    {
      var left := set k | k in streams && k.processor == processor;
      keys := [];
      while left != {}
        invariant forall k :: k in streams && k.processor == processor <==> k in keys || k in left
        decreases left
      {
        var k :| k in left;
        keys, left := keys + [k], left - {k};
      }
    }

    /** The statsd processor finishes every stream it still has. */
    method ShutdownStatsd(processor: nat) returns (keys: seq<Key>)
      requires Valid()
      modifies this, repr
      ensures Valid() && repr == old(repr)
      ensures forall k :: k in keys <==> k in old(streams) && k.processor == processor
      ensures Contents() == Replay(old(Contents()), Finishes(keys))
    {
      keys := KeysOf(processor);
      var i := 0;
      while i < |keys|
        invariant i <= |keys| && Valid() && repr == old(repr)
        invariant Contents() == Replay(old(Contents()), Finishes(keys[..i]))
      {
        EventFinish(keys[i]);
        assert Finishes(keys[..i + 1])[..i] == Finishes(keys[..i]);
        i := i + 1;
      }
      assert keys[..|keys|] == keys;
    }

    /** The Prometheus processor releases the records of its streams. */
    method ShutdownPrometheus(processor: nat)
      requires Valid()
      modifies this, repr
      ensures Valid() && repr == old(repr)
      ensures Contents() == Forget(old(Contents()), processor)
    {
      var left := set k | k in streams && k.processor == processor;
      while left != {}
        invariant Valid() && repr == old(repr)
        invariant left == set k | k in streams && k.processor == processor
        invariant Forget(Contents(), processor) == Forget(old(Contents()), processor)
        decreases left
      {
        hide Forget, Processors.Valid;
        var k :| k in left;
        ForgetLess(Contents(), processor, k);
        Release(k);
        left := left - {k};
      }
      assert forall k :: k in streams && k.processor == processor ==> k in left;
      assert Contents().streams == Forget(Contents(), processor).streams;
    }
  }

  lemma ForgetLess(s: State, processor: nat, k: Key)
    requires k.processor == processor
    ensures Forget(s.(streams := s.streams - {k}), processor) == Forget(s, processor)
  {
    assert Forget(s.(streams := s.streams - {k}), processor).streams == Forget(s, processor).streams;
  }
}
