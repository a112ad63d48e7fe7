/** Call metrics: counted per id, averaged, and handed to the topology sink in batches. */
module MetricAggregator {
  import opened AverageStep
  import opened RunningAverage

  const BATCH_SIZE: nat := 100

  /** Services are measured under the name of the callee; a service without a name is not counted. */
  datatype Kind = OfServices | OfRelations

  datatype Observation = Observation(id: nat, destName: string, labels: seq<string>, hasError: bool, latency: nat)

  datatype Metric = Metric(id: nat, destName: string, labels: seq<string>, requests: nat, errors: nat,
                           twiceAvg: nat)

  /** `keepsHalf` says whether the average field can hold a half. */
  datatype Setting = Setting(kind: Kind, maxSize: nat, keepsHalf: bool)

  type Cache = map<nat, Metric>

  // ----- counting -----

  predicate Counted(c: Setting, o: Observation) { o.id > 0 && !(c.kind == OfServices && o.destName == "") }

  function EntryOf(cache: Cache, id: nat): Metric {
    if id in cache then cache[id] else Metric(id, "", [], 0, 0, 0)
  }

  function Updated(c: Setting, m: Metric, o: Observation): Metric {
    if Counted(c, o)
    then Metric(o.id, o.destName, o.labels, m.requests + 1, m.errors + (if o.hasError then 1 else 0),
                Average(c.keepsHalf, m.twiceAvg, o.latency))
    else m.(id := o.id)
  }

  /** An unnamed service leaves its entry behind without counting. */
  function Accept(c: Setting, cache: Cache, o: Observation): Cache {
    if |cache| > c.maxSize || o.id == 0 then cache
    else cache[o.id := Updated(c, EntryOf(cache, o.id), o)]
  }

  /** What one observation does to the cache, field by field. */
  ghost predicate Observes(c: Setting, before: Cache, o: Observation, after: Cache) {
    if |before| > c.maxSize || o.id == 0 then after == before
    else
      var was := if o.id in before then before[o.id] else Metric(o.id, "", [], 0, 0, 0);
      && after.Keys == before.Keys + {o.id}
      && (forall id :: id in before && id != o.id ==> after[id] == before[id])
      && after[o.id].id == o.id
      && if c.kind == OfServices && o.destName == "" then
           && after[o.id].requests == was.requests && after[o.id].errors == was.errors
           && after[o.id].twiceAvg == was.twiceAvg
           && after[o.id].destName == was.destName && after[o.id].labels == was.labels
         else
           && after[o.id].requests == was.requests + 1
           && after[o.id].errors == was.errors + (if o.hasError then 1 else 0)
           && after[o.id].twiceAvg == Average(c.keepsHalf, was.twiceAvg, o.latency)
           && after[o.id].destName == o.destName && after[o.id].labels == o.labels
  }

  /** A named callee, and any relation, is counted; an unnamed callee leaves the numbers as they were. */
  lemma AcceptObserves(c: Setting, cache: Cache, o: Observation)
    ensures Observes(c, cache, o, Accept(c, cache, o))
  {
  }

  // ----- batches -----

  function Singles(ms: seq<Metric>): seq<seq<Metric>> {
    if ms == [] then [] else Singles(ms[..|ms| - 1]) + [[ms[|ms| - 1]]]
  }

  /** One batch of up to two more than the batch size, then one metric at a time. */
  function Batches(ms: seq<Metric>): seq<seq<Metric>> {
    if ms == [] then [] else if |ms| <= BATCH_SIZE + 2 then [ms]
    else [ms[..BATCH_SIZE + 2]] + Singles(ms[BATCH_SIZE + 2..])
  }

  function Flatten(batches: seq<seq<Metric>>): seq<Metric> {
    if batches == [] then [] else Flatten(batches[..|batches| - 1]) + batches[|batches| - 1]
  }

  lemma {:induction false} FlattenConcat(a: seq<seq<Metric>>, b: seq<seq<Metric>>)
    ensures Flatten(a + b) == Flatten(a) + Flatten(b)
  {
    if b == [] {
      assert a + b == a;
    } else {
      FlattenConcat(a, b[..|b| - 1]);
      assert (a + b)[..|a + b| - 1] == a + b[..|b| - 1];
      assert Flatten(a) + (Flatten(b[..|b| - 1]) + b[|b| - 1]) == Flatten(a) + Flatten(b[..|b| - 1]) + b[|b| - 1];
    }
  }

  lemma {:induction false} SinglesAre(ms: seq<Metric>)
    ensures Flatten(Singles(ms)) == ms && |Singles(ms)| == |ms|
    ensures forall i :: 0 <= i < |ms| ==> |Singles(ms)[i]| == 1
  {
    if ms != [] {
      SinglesAre(ms[..|ms| - 1]);
      assert ms == ms[..|ms| - 1] + [ms[|ms| - 1]];
      assert Singles(ms)[..|Singles(ms)| - 1] == Singles(ms[..|ms| - 1]);
    }
  }

  lemma FlattenOne(ms: seq<Metric>)
    ensures Flatten([ms]) == ms
  {
    assert [ms][..0] == [];
    assert Flatten([]) + ms == ms;
  }

  /** Nothing is lost, repeated or reordered; the first batch takes up to 102, every other one a single metric. */
  lemma BatchesExact(ms: seq<Metric>)
    ensures Flatten(Batches(ms)) == ms
    ensures |Batches(ms)| == if ms == [] then 0 else if |ms| <= 102 then 1 else |ms| - 101
    ensures ms != [] ==> |Batches(ms)[0]| == if |ms| <= 102 then |ms| else 102
    ensures forall i :: 1 <= i < |Batches(ms)| ==> |Batches(ms)[i]| == 1
  {
    if |ms| <= BATCH_SIZE + 2 {
      FlattenOne(ms);
    } else {
      var first, rest := ms[..BATCH_SIZE + 2], ms[BATCH_SIZE + 2..];
      SinglesAre(rest);
      FlattenOne(first);
      FlattenConcat([first], Singles(rest));
      assert ms == first + rest;
    }
  }

  lemma BatchesGrow(ms: seq<Metric>, m: Metric)
    requires |ms| >= BATCH_SIZE + 2
    ensures Batches(ms + [m]) == Batches(ms) + [[m]]
  {
    var l := ms + [m];
    assert l[..BATCH_SIZE + 2] == ms[..BATCH_SIZE + 2];
    assert l[BATCH_SIZE + 2..] == ms[BATCH_SIZE + 2..] + [m];
    var r := l[BATCH_SIZE + 2..];
    assert r[..|r| - 1] == ms[BATCH_SIZE + 2..] && r[|r| - 1] == m;
    assert Singles(r) == Singles(ms[BATCH_SIZE + 2..]) + [[m]];
    if |ms| == BATCH_SIZE + 2 {
      assert ms[..BATCH_SIZE + 2] == ms && ms[BATCH_SIZE + 2..] == [];
    }
  }

  // ----- key order -----

  predicate IsLeast(k: nat, keys: set<nat>) { k in keys && forall j :: j in keys ==> k <= j }

  lemma {:induction false} LeastExists(keys: set<nat>)
    requires keys != {}
    ensures exists k :: IsLeast(k, keys)
    decreases |keys|
  {
    var k :| k in keys;
    if !IsLeast(k, keys) {
      var i :| i in keys && i < k;
      assert i in keys - {k};
      LeastExists(keys - {k});
      var j :| IsLeast(j, keys - {k});
      forall x | x in keys
        ensures j <= x
      {
        assert j <= i && (x == k || x in keys - {k});
      }
      assert IsLeast(j, keys);
    }
  }

  function Least(keys: set<nat>): (k: nat)
    requires keys != {}
    ensures IsLeast(k, keys)
  {
    LeastExists(keys);
    var k :| IsLeast(k, keys);
    k
  }

  function InOrder(keys: set<nat>): (r: seq<nat>)
    ensures |r| == |keys|
    decreases |keys|
  {
    if keys == {} then [] else [Least(keys)] + InOrder(keys - {Least(keys)})
  }

  function MetricsOf(cache: Cache, ids: seq<nat>): (ms: seq<Metric>)
    requires forall id :: id in ids ==> id in cache
    ensures |ms| == |ids|
  {
    seq(|ids|, i requires 0 <= i < |ids| => cache[ids[i]])
  }

  ghost predicate Ascending(s: seq<nat>) { forall i, j :: 0 <= i < j < |s| ==> s[i] < s[j] }

  lemma AscendingPrepend(x: nat, s: seq<nat>)
    requires Ascending(s) && forall y :: y in s ==> x < y
    ensures Ascending([x] + s)
  {
    var r := [x] + s;
    forall i, j | 0 <= i < j < |r|
      ensures r[i] < r[j]
    {
      assert r[j] == s[j - 1] && s[j - 1] in s;
    }
  }

  /** The order of the map: every key once, from the smallest up. */
  lemma {:induction false} InOrderAscends(keys: set<nat>)
    ensures forall k :: k in InOrder(keys) <==> k in keys
    ensures Ascending(InOrder(keys))
    decreases |keys|
  {
    if keys != {} {
      var least := Least(keys);
      InOrderAscends(keys - {least});
      AscendingPrepend(least, InOrder(keys - {least}));
    }
  }

  /** The iteration goes on with the next key. */
  lemma NextKey(rest: set<nat>, keys: seq<nat>, i: nat)
    requires rest != {} && i <= |keys| && InOrder(rest) == keys[i..]
    ensures i < |keys| && keys[i] == Least(rest) && InOrder(rest - {Least(rest)}) == keys[i + 1..]
  {
    assert InOrder(rest)[1..] == keys[i + 1..];
  }

  // ----- the aggregator over its life -----

  datatype State = State(cache: Cache, sent: seq<seq<Metric>>)

  datatype Event = Stats(observation: Observation) | Send

  function Next(c: Setting, s: State, e: Event): State {
    match e
    case Stats(o) => State(Accept(c, s.cache, o), s.sent)
    case Send =>
      InOrderMembers(s.cache.Keys);
      State(map[], s.sent + Batches(MetricsOf(s.cache, InOrder(s.cache.Keys))))
  }

  lemma InOrderMembers(keys: set<nat>)
    ensures forall k :: k in InOrder(keys) ==> k in keys
  {
    InOrderAscends(keys);
  }

  function Run(c: Setting, events: seq<Event>): State {
    if events == [] then State(map[], []) else Next(c, Run(c, events[..|events| - 1]), events[|events| - 1])
  }

  datatype What = Requests | Errors

  function Amount(what: What, m: Metric): nat { if what == Requests then m.requests else m.errors }

  /** What a list of metrics reports for one id. */
  function Reported(what: What, ms: seq<Metric>, id: nat): nat {
    if ms == [] then 0
    else Reported(what, ms[..|ms| - 1], id) + (if ms[|ms| - 1].id == id then Amount(what, ms[|ms| - 1]) else 0)
  }

  function Cached(what: What, cache: Cache, id: nat): nat { if id in cache then Amount(what, cache[id]) else 0 }

  /** How many observations of an id (or how many failed ones) a run has counted: those made while the cache is not
      over its size, of an id other than zero, and with a name where names are needed. */
  function Observed(c: Setting, what: What, events: seq<Event>, id: nat): nat {
    if events == [] then 0
    else
      var before, e := events[..|events| - 1], events[|events| - 1];
      Observed(c, what, before, id)
        + (if e.Stats? && |Run(c, before).cache| <= c.maxSize && e.observation.id == id && id != 0
              && (c.kind == OfRelations || e.observation.destName != "") && (what == Requests || e.observation.hasError)
           then 1 else 0)
  }

  ghost predicate Keyed(cache: Cache) { forall id :: id in cache ==> cache[id].id == id }

  lemma {:induction false} ReportedConcat(what: What, a: seq<Metric>, b: seq<Metric>, id: nat)
    ensures Reported(what, a + b, id) == Reported(what, a, id) + Reported(what, b, id)
  {
    if b == [] {
      assert a + b == a;
    } else {
      assert (a + b)[..|a + b| - 1] == a + b[..|b| - 1];
      ReportedConcat(what, a, b[..|b| - 1], id);
    }
  }

  lemma FirstMetric(cache: Cache, id: nat, ids: seq<nat>)
    requires id in cache && forall k :: k in ids ==> k in cache
    ensures MetricsOf(cache, [id] + ids) == [cache[id]] + MetricsOf(cache, ids)
  {
  }

  /** Every cached metric is reported once. */
  lemma {:induction false} ReportedInOrder(what: What, cache: Cache, keys: set<nat>, id: nat)
    requires Keyed(cache) && keys <= cache.Keys && forall k :: k in InOrder(keys) ==> k in keys
    ensures Reported(what, MetricsOf(cache, InOrder(keys)), id) == if id in keys then Cached(what, cache, id) else 0
    decreases |keys|
  {
    if keys != {} {
      var least := Least(keys);
      var rest := keys - {least};
      InOrderMembers(rest);
      ReportedInOrder(what, cache, rest, id);
      FirstMetric(cache, least, InOrder(rest));
      ReportedConcat(what, [cache[least]], MetricsOf(cache, InOrder(rest)), id);
    }
  }

  lemma AcceptCounts(c: Setting, s: State, o: Observation, what: What, id: nat)
    requires Keyed(s.cache)
    ensures Keyed(Accept(c, s.cache, o))
    ensures Cached(what, Accept(c, s.cache, o), id) == Cached(what, s.cache, id)
              + (if |s.cache| <= c.maxSize && o.id == id && id != 0 && (c.kind == OfRelations || o.destName != "")
                    && (what == Requests || o.hasError) then 1 else 0)
  {
  }

  lemma SendCounts(c: Setting, s: State, what: What, id: nat)
    requires Keyed(s.cache)
    ensures Reported(what, Flatten(Next(c, s, Send).sent), id)
              == Reported(what, Flatten(s.sent), id) + Cached(what, s.cache, id)
  {
    InOrderMembers(s.cache.Keys);
    var ms := MetricsOf(s.cache, InOrder(s.cache.Keys));
    SentGrows(s.sent, ms);
    ReportedConcat(what, Flatten(s.sent), ms, id);
    ReportedInOrder(what, s.cache, s.cache.Keys, id);
  }

  /** Conservation, per id: what was handed over and what is still cached is what was counted. */
  lemma {:induction false} Conserved(c: Setting, what: What, events: seq<Event>, id: nat)
    ensures var s := Run(c, events);
            && Keyed(s.cache)
            && Reported(what, Flatten(s.sent), id) + Cached(what, s.cache, id) == Observed(c, what, events, id)
  {
    if events != [] {
      var before, e := events[..|events| - 1], events[|events| - 1];
      Conserved(c, what, before, id);
      match e {
        case Stats(o) => AcceptCounts(c, Run(c, before), o, what, id);
        case Send => SendCounts(c, Run(c, before), what, id);
      }
    }
  }

  /** Every cached metric once, in ascending order of the ids. */
  ghost predicate InAscendingOrder(cache: Cache, ms: seq<Metric>) {
    && |ms| == |cache|
    && (forall i :: 0 <= i < |ms| ==> ms[i].id in cache && cache[ms[i].id] == ms[i])
    && forall i, j :: 0 <= i < j < |ms| ==> ms[i].id < ms[j].id
  }

  lemma MetricsAscend(cache: Cache, ids: seq<nat>)
    requires Keyed(cache) && |ids| == |cache| && Ascending(ids) && forall id :: id in ids ==> id in cache
    ensures InAscendingOrder(cache, MetricsOf(cache, ids))
  {
    var ms := MetricsOf(cache, ids);
    forall i | 0 <= i < |ids|
      ensures ms[i] == cache[ids[i]] && ms[i].id == ids[i]
    {
      assert ids[i] in ids;
    }
  }

  /** Handing over, after any run: what is added to the batches is the whole cache, and the cache is emptied. */
  lemma SendExactly(c: Setting, events: seq<Event>)
    ensures var s, t := Run(c, events), Run(c, events + [Send]);
            && t.cache == map[] && s.sent <= t.sent
            && InAscendingOrder(s.cache, Flatten(t.sent[|s.sent|..]))
  {
    assert (events + [Send])[..|events|] == events;
    var s := Run(c, events);
    Conserved(c, Requests, events, 0);
    InOrderAscends(s.cache.Keys);
    var ms := MetricsOf(s.cache, InOrder(s.cache.Keys));
    MetricsAscend(s.cache, InOrder(s.cache.Keys));
    assert Run(c, events + [Send]).sent == s.sent + Batches(ms);
    assert (s.sent + Batches(ms))[|s.sent|..] == Batches(ms);
    BatchesExact(ms);
  }

  lemma {:induction false} CacheBounded(c: Setting, events: seq<Event>)
    ensures |Run(c, events).cache| <= c.maxSize + 1
  {
    if events != [] {
      var s := Run(c, events[..|events| - 1]);
      CacheBounded(c, events[..|events| - 1]);
      match events[|events| - 1] {
        case Stats(o) =>
          assert o.id !in s.cache ==> |s.cache[o.id := Updated(c, EntryOf(s.cache, o.id), o)]| == |s.cache| + 1;
        case Send =>
      }
    }
  }

  predicate ErrorsWithin(m: Metric) { m.errors <= m.requests }

  lemma SentGrows(sent: seq<seq<Metric>>, ms: seq<Metric>)
    ensures Flatten(sent + Batches(ms)) == Flatten(sent) + ms
  {
    FlattenConcat(sent, Batches(ms));
    BatchesExact(ms);
  }

  lemma MetricsWithin(cache: Cache, ids: seq<nat>, before: seq<Metric>, after: seq<Metric>)
    requires forall id :: id in ids ==> id in cache && ErrorsWithin(cache[id])
    requires forall m :: m in before ==> ErrorsWithin(m)
    requires after == before + MetricsOf(cache, ids)
    ensures forall m :: m in after ==> ErrorsWithin(m)
  {
    forall i | 0 <= i < |ids|
      ensures ErrorsWithin(MetricsOf(cache, ids)[i])
    {
      assert ids[i] in ids;
    }
  }

  lemma SendErrors(c: Setting, s: State)
    requires forall id :: id in s.cache ==> ErrorsWithin(s.cache[id])
    requires forall m :: m in Flatten(s.sent) ==> ErrorsWithin(m)
    ensures forall m :: m in Flatten(Next(c, s, Send).sent) ==> ErrorsWithin(m)
  {
    var ids := InOrder(s.cache.Keys);
    InOrderMembers(s.cache.Keys);
    SentGrows(s.sent, MetricsOf(s.cache, ids));
    MetricsWithin(s.cache, ids, Flatten(s.sent), Flatten(Next(c, s, Send).sent));
  }

  /** No metric, cached or handed over, reports more errors than requests. */
  lemma {:induction false} ErrorsNeverExceed(c: Setting, events: seq<Event>)
    ensures forall id :: id in Run(c, events).cache ==> ErrorsWithin(Run(c, events).cache[id])
    ensures forall m :: m in Flatten(Run(c, events).sent) ==> ErrorsWithin(m)
  {
    if events != [] {
      var s := Run(c, events[..|events| - 1]);
      ErrorsNeverExceed(c, events[..|events| - 1]);
      match events[|events| - 1] {
        case Stats(o) =>
          forall id | id in Accept(c, s.cache, o)
            ensures ErrorsWithin(Accept(c, s.cache, o)[id])
          {
          }
        case Send => SendErrors(c, s);
      }
    }
  }

  /** The latencies of an id counted since its cache entry was last handed over. */
  function Latencies(c: Setting, events: seq<Event>, id: nat): seq<nat> {
    if events == [] then []
    else
      var before := events[..|events| - 1];
      match events[|events| - 1]
      case Stats(o) =>
        if |Run(c, before).cache| <= c.maxSize && o.id == id && id != 0 && (c.kind == OfRelations || o.destName != "")
        then Latencies(c, before, id) + [o.latency] else Latencies(c, before, id)
      case Send => []
  }

  lemma AverageAfter(c: Setting, cache: Cache, o: Observation, id: nat)
    ensures EntryOf(Accept(c, cache, o), id).twiceAvg
            == if |cache| <= c.maxSize && o.id == id && id != 0 && (c.kind == OfRelations || o.destName != "")
               then Average(c.keepsHalf, EntryOf(cache, id).twiceAvg, o.latency) else EntryOf(cache, id).twiceAvg
  {
  }

  lemma AverageAppend(keepsHalf: bool, latencies: seq<nat>, last: nat)
    ensures AverageOf(keepsHalf, latencies + [last]) == Average(keepsHalf, AverageOf(keepsHalf, latencies), last)
  {
    var all := latencies + [last];
    assert all[..|all| - 1] == latencies && all[|all| - 1] == last;
  }

  /** The cached average is the running average of exactly those latencies. */
  lemma {:induction false} AverageInRun(c: Setting, events: seq<Event>, id: nat)
    ensures EntryOf(Run(c, events).cache, id).twiceAvg == AverageOf(c.keepsHalf, Latencies(c, events, id))
  {
    if events != [] {
      var before := events[..|events| - 1];
      AverageInRun(c, before, id);
      match events[|events| - 1] {
        case Stats(o) =>
          AverageAfter(c, Run(c, before).cache, o, id);
          AverageAppend(c.keepsHalf, Latencies(c, before, id), o.latency);
        case Send =>
      }
    }
  }

  lemma PrefixStep(all: seq<Metric>, i: nat)
    requires i < |all|
    ensures all[..i + 1] == all[..i] + [all[i]]
    ensures i >= BATCH_SIZE + 2 ==> Batches(all[..i + 1]) == Batches(all[..i]) + [[all[i]]]
    ensures i <= BATCH_SIZE + 1 ==> Batches(all[..i + 1]) == [all[..i + 1]]
    ensures i + 1 == |all| ==> all[..i + 1] == all
  {
    assert all[..i + 1] == all[..i] + [all[i]];
    if i >= BATCH_SIZE + 2 {
      BatchesGrow(all[..i], all[i]);
    }
  }

  /** The sink and the open request after `i` of the metrics. */
  ghost predicate Handed(all: seq<Metric>, before: seq<seq<Metric>>, i: nat, sent: seq<seq<Metric>>,
                         request: seq<Metric>)
    requires i <= |all|
  {
    if i == |all| then sent == before + Batches(all)
    else if i <= BATCH_SIZE + 1 then sent == before && request == all[..i]
    else sent == before + Batches(all[..i]) && request == []
  }

  lemma HandStep(all: seq<Metric>, before: seq<seq<Metric>>, i: nat, sent: seq<seq<Metric>>, request: seq<Metric>)
    requires i < |all| && Handed(all, before, i, sent, request)
    ensures var longer := request + [all[i]];
            if i > BATCH_SIZE then Handed(all, before, i + 1, sent + [longer], [])
            else Handed(all, before, i + 1, if i == |all| - 1 then sent + [longer] else sent, longer)
  {
    PrefixStep(all, i);
    if i >= BATCH_SIZE + 2 {
      assert before + Batches(all[..i]) + [[all[i]]] == before + Batches(all[..i + 1]);
      assert request + [all[i]] == [all[i]];
    }
  }

  // ----- the aggregator itself -----

  class Aggregator {
    const setting: Setting
    var metricCache: Cache
    /** The batches handed to the sink. */
    var sent: seq<seq<Metric>>

    function Now(): State
      reads this
    {
      State(metricCache, sent)
    }

    constructor (setting: Setting)
      ensures this.setting == setting && Now() == Run(setting, [])
    {
      this.setting := setting;
      metricCache, sent := map[], [];
    }

    method Stats(o: Observation)
      modifies this`metricCache
      ensures Observes(setting, old(metricCache), o, metricCache)
      ensures Now() == Next(setting, old(Now()), Event.Stats(o))
    {
      AcceptObserves(setting, metricCache, o);
      if |metricCache| > setting.maxSize {
        return;
      }
      if o.id > 0 {
        LoadMetric(o.id, o);
      }
    }

    method LoadMetric(id: nat, o: Observation)
      requires id == o.id > 0
      modifies this`metricCache
      ensures metricCache == old(metricCache)[id := Updated(setting, EntryOf(old(metricCache), id), o)]
    {
      if id !in metricCache {
        metricCache := metricCache[id := Metric(0, "", [], 0, 0, 0)];
      }
      var metric := metricCache[id].(id := id);
      if setting.kind == OfServices && o.destName == "" {
        metricCache := metricCache[id := metric];
        return;
      }
      metric := metric.(destName := o.destName, labels := o.labels);
      metric := metric.(requests := metric.requests + 1);
      if o.hasError {
        metric := metric.(errors := metric.errors + 1);
      }
      metric := metric.(twiceAvg := Average(setting.keepsHalf, metric.twiceAvg, o.latency));
      metricCache := metricCache[id := metric];
    }

    method Send()
      modifies this
      ensures Now() == Next(setting, old(Now()), Event.Send)
    {
      if metricCache == map[] {
        return;
      }
      InOrderMembers(metricCache.Keys);
      ghost var all := MetricsOf(metricCache, InOrder(metricCache.Keys));
      var request: seq<Metric>, sum, iter := [], 0, metricCache.Keys;
      while iter != {}
        invariant metricCache == old(metricCache) && iter <= metricCache.Keys
        invariant sum <= |all| && InOrder(iter) == InOrder(metricCache.Keys)[sum..]
        invariant Handed(all, old(sent), sum, sent, request)
        decreases iter
      {
        var id := Least(iter);
        NextKey(iter, InOrder(metricCache.Keys), sum);
        assert all[sum] == metricCache[id];
        HandStep(all, old(sent), sum, sent, request);
        request := request + [metricCache[id]];
        if sum > BATCH_SIZE {
          sent := sent + [request];
          request := [];
        } else {
          if sum == |metricCache| - 1 {
            sent := sent + [request];
          }
        }
        sum := sum + 1;
        iter := iter - {id};
      }
      metricCache := map[];
    }
  }
}
