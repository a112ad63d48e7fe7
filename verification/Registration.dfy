/** Which services and relations the traffic listener hands to the topology sink. */
module Registration {
  import opened Finite
  import opened LruCache
  import opened LruSpec

  const CACHE_SIZE := 500

  type Id = nat

  /** One observed call: the callee service, the caller-callee relation, and what decides whether it is measured.
      `room` says whether the sink takes the service when it is registered: it then takes the contents of the
      message too, and leaves one with id `NO_ID`. */
  datatype Call = Call(service: Id, relation: Id, plainLayer: bool, knownDestination: bool, room: bool)

  const NO_ID: Id := 0

  /** A call whose callee will not report it itself. */
  predicate Measured(call: Call) { !call.plainLayer || !call.knownDestination }

  // ----- what the listener does over its life, one call at a time -----

  datatype Event = CallIn(call: Call) | CallOut(call: Call) | Cleared

  /** What the sink and the metric aggregators were given, in order. */
  datatype Log = Log(services: seq<Id>, incoming: seq<Id>, outgoing: seq<Id>, observed: seq<Call>)

  /** The ids put into each cache since the last clear, newest first (services and relations share the incoming one),
      and what was handed over. */
  datatype State = State(inPast: seq<Id>, outPast: seq<Id>, log: Log)

  const FRESH: State := State([], [], Log([], [], [], []))

  /** The most recently used distinct ids, as many as a cache of `cap` places holds. */
  function Recent(past: seq<Id>, cap: nat): seq<Id> { Take(Distinct(past), cap) }

  /** The id in the service message when the look-up for the relation is made. */
  function LeftId(held: bool, call: Call): Id { if !held && call.room then NO_ID else call.service }

  function LogIn(log: Log, call: Call, held: bool, found: bool): Log {
    Log(log.services + (if held then [] else [call.service]), log.incoming + (if found then [] else [call.relation]),
        log.outgoing, log.observed + [call])
  }

  function LogOut(log: Log, call: Call, held: bool): Log {
    Log(log.services, log.incoming, log.outgoing + (if held then [] else [call.relation]),
        log.observed + (if Measured(call) then [call] else []))
  }

  function Next(s: State, e: Event): State {
    match e
    case CallIn(call) =>
      var held := call.service in Recent(s.inPast, CACHE_SIZE);
      var inPast := [call.relation, call.service] + s.inPast;
      var found := LeftId(held, call) in Recent(inPast, CACHE_SIZE);
      State(inPast, s.outPast, LogIn(s.log, call, held, found))
    case CallOut(call) =>
      State(s.inPast, [call.relation] + s.outPast, LogOut(s.log, call, call.relation in Recent(s.outPast, CACHE_SIZE)))
    case Cleared => State([], [], s.log)
  }

  function Steps(s: State, events: seq<Event>): State {
    if events == [] then s else Next(Steps(s, events[..|events| - 1]), events[|events| - 1])
  }

  // ----- what being recent means -----

  lemma WithoutKeyHead(y: Id, rest: seq<Id>, x: Id)
    ensures WithoutKey([y] + rest, x) == (if y == x then [] else [y]) + WithoutKey(rest, x)
  {
    assert ([y] + rest)[1..] == rest;
  }

  lemma Regroup(a: seq<Id>, b: seq<Id>, c: seq<Id>)
    ensures a + (b + c) == a + b + c
  {
  }

  lemma {:induction false} WithoutKeyConcat(a: seq<Id>, b: seq<Id>, x: Id)
    ensures WithoutKey(a + b, x) == WithoutKey(a, x) + WithoutKey(b, x)
  {
    if a == [] {
      assert a + b == b;
    } else {
      assert a == [a[0]] + a[1..] && a + b == [a[0]] + (a[1..] + b);
      WithoutKeyConcat(a[1..], b, x);
      WithoutKeyHead(a[0], a[1..] + b, x);
      WithoutKeyHead(a[0], a[1..], x);
      Regroup(if a[0] == x then [] else [a[0]], WithoutKey(a[1..], x), WithoutKey(b, x));
    }
  }

  /** The distinct ids used after the last use of `k`. */
  function Newer(past: seq<Id>, k: Id): set<Id> {
    if past == [] || past[0] == k then {} else {past[0]} + Newer(past[1..], k)
  }

  ghost predicate SameMembers(s: seq<Id>, m: set<Id>) { forall x :: x in s <==> x in m }

  lemma CountMembers(s: seq<Id>, m: set<Id>)
    requires NoRepeats(s) && SameMembers(s, m)
    ensures |m| == |s|
  {
    DistinctCount(s);
    assert m == (set x: Id | x in s);
  }

  /** Taking `x` out of the part before `k` and putting it in front. */
  lemma FrontPart(a: seq<Id>, k: Id, b: seq<Id>, x: Id)
    requires x != k
    ensures WithoutKey(a + [k] + b, x) == WithoutKey(a, x) + [k] + WithoutKey(b, x)
  {
    assert a + [k] + b == a + ([k] + b);
    WithoutKeyConcat(a, [k] + b, x);
    assert ([k] + b)[1..] == b;
    assert WithoutKey(a, x) + ([k] + WithoutKey(b, x)) == WithoutKey(a, x) + [k] + WithoutKey(b, x);
  }

  /** Splits the distinct ids of a past at `k`. */
  lemma {:induction false} SplitAt(past: seq<Id>, k: Id) returns (a: seq<Id>, b: seq<Id>)
    requires k in past
    ensures Distinct(past) == a + [k] + b && SameMembers(a, Newer(past, k))
  {
    if past[0] == k {
      a, b := [], WithoutKey(Distinct(past[1..]), k);
    } else {
      var x := past[0];
      var a', b' := SplitAt(past[1..], k);
      FrontPart(a', k, b', x);
      WithoutKeyMembers(a', x);
      a, b := [x] + WithoutKey(a', x), WithoutKey(b', x);
      assert Distinct(past) == [x] + (WithoutKey(a', x) + [k] + WithoutKey(b', x));
    }
  }

  lemma PlaceInTake(a: seq<Id>, k: Id, b: seq<Id>, cap: nat)
    requires NoRepeats(a + [k] + b)
    ensures k in Take(a + [k] + b, cap) <==> |a| < cap
    ensures NoRepeats(a)
  {
    var d := a + [k] + b;
    assert d[|a|] == k;
    assert forall i :: 0 <= i < |a| ==> d[i] == a[i];
    if |a| < cap {
      assert Take(d, cap)[|a|] == k;
    } else {
      assert forall i :: 0 <= i < |Take(d, cap)| ==> Take(d, cap)[i] == d[i];
    }
  }

  /** An id is held exactly when fewer distinct other ids than there are places were used after it. */
  lemma RecentMeans(past: seq<Id>, k: Id, cap: nat)
    ensures k in Recent(past, cap) <==> k in past && |Newer(past, k)| < cap
  {
    DistinctNoRepeats(past);
    if k in past {
      var a, b := SplitAt(past, k);
      PlaceInTake(a, k, b, cap);
      CountMembers(a, Newer(past, k));
    }
  }

  /** Used since the last clear, and not too long ago. */
  predicate UsedLately(past: seq<Id>, k: Id) { k in past && |Newer(past, k)| < 500 }

  /** An outgoing relation is handed over iff it was not used since the last clear, or too long ago; nothing else is. */
  lemma RelationSentIff(s: State, call: Call)
    ensures Next(s, CallOut(call)).log.services == s.log.services
    ensures Next(s, CallOut(call)).log.incoming == s.log.incoming
    ensures Next(s, CallOut(call)).log.outgoing
              == s.log.outgoing + (if UsedLately(s.outPast, call.relation) then [] else [call.relation])
  {
    RecentMeans(s.outPast, call.relation, CACHE_SIZE);
  }

  lemma ServiceSentIff(s: State, call: Call)
    ensures Next(s, CallIn(call)).log.outgoing == s.log.outgoing
    ensures Next(s, CallIn(call)).log.services
              == s.log.services + (if UsedLately(s.inPast, call.service) then [] else [call.service])
  {
    RecentMeans(s.inPast, call.service, CACHE_SIZE);
  }

  /** A service just put is still held after the relation is put, unless the cache has a single place. */
  lemma SecondLookup(past: seq<Id>, call: Call, cap: nat)
    ensures call.service in Recent([call.relation, call.service] + past, cap) <==>
            cap >= 2 || (cap == 1 && call.relation == call.service)
  {
    var r, k := call.relation, call.service;
    var now := [r, k] + past;
    RecentMeans(now, k, cap);
    assert now[0] == r && now[1..][0] == k;
    assert Newer(now, k) == if r == k then {} else {r};
  }

  /** The relation of an incoming call is registered only together with its service: exactly when the service is not
      held, the sink has room for it, and the id of an emptied message is not held either. */
  lemma IncomingRelationSentIff(s: State, call: Call)
    ensures var sent := !UsedLately(s.inPast, call.service) && call.room
                        && !UsedLately([call.relation, call.service] + s.inPast, 0);
            Next(s, CallIn(call)).log.incoming == s.log.incoming + (if sent then [call.relation] else [])
  {
    RecentMeans(s.inPast, call.service, CACHE_SIZE);
    RecentMeans([call.relation, call.service] + s.inPast, NO_ID, CACHE_SIZE);
    SecondLookup(s.inPast, call, CACHE_SIZE);
  }

  ghost predicate ProperIds(events: seq<Event>) {
    forall i :: 0 <= i < |events| && events[i].CallIn? ==>
      events[i].call.service != NO_ID && events[i].call.relation != NO_ID
  }

  lemma {:induction false} ProperPast(s: State, events: seq<Event>)
    requires ProperIds(events) && NO_ID !in s.inPast
    ensures NO_ID !in Steps(s, events).inPast
  {
    if events != [] {
      ProperPast(s, events[..|events| - 1]);
    }
  }

  /** With proper ids a call's relation is registered exactly when its service is and the sink has room for that. */
  lemma RelationFollowsService(events: seq<Event>, call: Call)
    requires ProperIds(events) && call.service != NO_ID && call.relation != NO_ID
    ensures var before := Steps(FRESH, events);
            var after := Next(before, CallIn(call));
            after.log.incoming != before.log.incoming <==> after.log.services != before.log.services && call.room
  {
    var before := Steps(FRESH, events);
    ProperPast(FRESH, events);
    IncomingRelationSentIff(before, call);
    ServiceSentIff(before, call);
  }

  // ----- one window between two clears -----

  ghost predicate NoClear(w: seq<Event>) { Cleared !in w }

  lemma NewerIsPast(past: seq<Id>, k: Id)
    ensures forall x :: x in Newer(past, k) ==> x in past && x != k
  {
  }

  lemma FewAreRecent(past: seq<Id>, all: set<Id>, k: Id, cap: nat)
    requires (forall x :: x in past ==> x in all) && |all| <= cap && k in all
    ensures k in Recent(past, cap) <==> k in past
  {
    RecentMeans(past, k, cap);
    NewerIsPast(past, k);
    if k in past {
      SubsetSize(Newer(past, k) + {k}, all);
    }
  }

  /** When a window uses at most as many relations as the cache holds, each is handed over exactly once. */
  lemma {:induction false} OncePerWindow(s: State, w: seq<Event>, all: set<Id>) returns (sent: seq<Id>)
    requires NoClear(w) && |all| <= CACHE_SIZE
    requires forall i :: 0 <= i < |w| && w[i].CallOut? ==> w[i].call.relation in all
    ensures var end := Steps(Next(s, Cleared), w);
            && end.log.outgoing == s.log.outgoing + sent
            && (forall x :: x in end.outPast ==> x in all)
            && NoRepeats(sent) && forall x :: x in sent <==> x in end.outPast
  {
    if w == [] {
      sent := [];
    } else {
      var before, e := w[..|w| - 1], w[|w| - 1];
      sent := OncePerWindow(s, before, all);
      if e.CallOut? {
        var past := Steps(Next(s, Cleared), before).outPast;
        FewAreRecent(past, all, e.call.relation, CACHE_SIZE);
        sent := if e.call.relation in past then sent else sent + [e.call.relation];
      }
    }
  }

  /** The relations a window uses are those of its outgoing calls. */
  lemma {:induction false} WindowUses(s: State, w: seq<Event>, x: Id)
    requires NoClear(w)
    ensures x in Steps(Next(s, Cleared), w).outPast <==>
            exists i :: 0 <= i < |w| && w[i].CallOut? && w[i].call.relation == x
  {
    if w != [] {
      WindowUses(s, w[..|w| - 1], x);
      assert w == w[..|w| - 1] + [w[|w| - 1]];
    }
  }

  /** The ids of a window in the order in which they are put: service and relation of an incoming call. */
  function InUses(w: seq<Event>): seq<Id> {
    if w == [] then []
    else if w[0].CallIn? then [w[0].call.service, w[0].call.relation] + InUses(w[1..]) else InUses(w[1..])
  }

  function OutUses(w: seq<Event>): seq<Id> {
    if w == [] then [] else if w[0].CallOut? then [w[0].call.relation] + OutUses(w[1..]) else OutUses(w[1..])
  }

  ghost predicate Backwards(a: seq<Id>, b: seq<Id>) {
    |a| == |b| && forall i :: 0 <= i < |a| ==> a[i] == b[|b| - 1 - i]
  }

  lemma {:induction false} UsesAtEnd(w: seq<Event>, e: Event)
    ensures InUses(w + [e]) == InUses(w) + if e.CallIn? then [e.call.service, e.call.relation] else []
    ensures OutUses(w + [e]) == OutUses(w) + if e.CallOut? then [e.call.relation] else []
  {
    if w == [] {
      assert [e][1..] == [];
      assert w + [e] == [e];
    } else {
      assert (w + [e])[1..] == w[1..] + [e];
      UsesAtEnd(w[1..], e);
    }
  }

  lemma BackwardsStep(a: seq<Id>, b: seq<Id>, x: Id)
    requires Backwards(a, b)
    ensures Backwards([x] + a, b + [x])
  {
  }

  /** What counts as recent: the ids put since the last clear, the newest first. */
  lemma {:induction false} PastsAreUses(s: State, w: seq<Event>)
    requires NoClear(w)
    ensures var end := Steps(Next(s, Cleared), w);
            Backwards(end.inPast, InUses(w)) && Backwards(end.outPast, OutUses(w))
  {
    if w != [] {
      var before, e := w[..|w| - 1], w[|w| - 1];
      PastsAreUses(s, before);
      UsesAtEnd(before, e);
      assert w == before + [e];
      var mid := Steps(Next(s, Cleared), before);
      match e {
        case CallIn(call) =>
          BackwardsStep(mid.inPast, InUses(before), call.service);
          BackwardsStep([call.service] + mid.inPast, InUses(before) + [call.service], call.relation);
          TwoPuts(mid.inPast, InUses(before), call.service, call.relation);
        case CallOut(call) => BackwardsStep(mid.outPast, OutUses(before), call.relation);
        case Cleared =>
      }
    }
  }

  lemma TwoPuts(a: seq<Id>, b: seq<Id>, x: Id, y: Id)
    ensures [y] + ([x] + a) == [y, x] + a && b + [x] + [y] == b + [x, y]
  {
  }

  // ----- the listener itself -----

  function Ins(calls: seq<Call>): (h: seq<Event>)
    ensures |h| == |calls|
  {
    seq(|calls|, i requires 0 <= i < |calls| => CallIn(calls[i]))
  }

  function Outs(calls: seq<Call>): (h: seq<Event>)
    ensures |h| == |calls|
  {
    seq(|calls|, i requires 0 <= i < |calls| => CallOut(calls[i]))
  }

  lemma InsStep(calls: seq<Call>, i: nat)
    requires i < |calls|
    ensures Ins(calls)[..i + 1] == Ins(calls)[..i] + [CallIn(calls[i])]
  {
  }

  lemma OutsStep(calls: seq<Call>, i: nat)
    requires i < |calls|
    ensures Outs(calls)[..i + 1] == Outs(calls)[..i] + [CallOut(calls[i])]
  {
  }

  lemma {:induction false} StepsConcat(s: State, a: seq<Event>, b: seq<Event>)
    ensures Steps(s, a + b) == Steps(Steps(s, a), b)
  {
    if b == [] {
      assert a + b == a;
    } else {
      StepsConcat(s, a, b[..|b| - 1]);
      assert (a + b)[..|a + b| - 1] == a + b[..|b| - 1];
    }
  }

  /** A put moves the id to the front of the recent ones. */
  lemma PutIsRecent(e: Entries<Id, bool>, past: seq<Id>, k: Id)
    requires Keys(e) == Recent(past, CACHE_SIZE)
    ensures Keys(PutEntry(e, CACHE_SIZE, k, true)) == Recent([k] + past, CACHE_SIZE)
  {
    DistinctNoRepeats(past);
    PutKeys(e, CACHE_SIZE, k, true, Distinct(past));
    assert ([k] + past)[1..] == past;
  }

  type Held = Entries<Id, bool>

  /** The caches hold what the state says, and the same was handed over. */
  ghost predicate Matches(ins: Held, outs: Held, log: Log, s: State) {
    Keys(ins) == Recent(s.inPast, CACHE_SIZE) && Keys(outs) == Recent(s.outPast, CACHE_SIZE) && log == s.log
  }

  /** Both puts of an incoming call. */
  lemma BothPuts(ins: Held, past: seq<Id>, call: Call)
    requires Keys(ins) == Recent(past, CACHE_SIZE)
    ensures Keys(PutEntry(PutEntry(ins, CACHE_SIZE, call.service, true), CACHE_SIZE, call.relation, true))
              == Recent([call.relation, call.service] + past, CACHE_SIZE)
  {
    var once := PutEntry(ins, CACHE_SIZE, call.service, true);
    PutIsRecent(ins, past, call.service);
    PutIsRecent(once, [call.service] + past, call.relation);
    assert [call.relation] + ([call.service] + past) == [call.relation, call.service] + past;
  }

  lemma MatchesIn(ins: Held, outs: Held, log: Log, s: State, call: Call)
    requires Matches(ins, outs, log, s)
    ensures var held := Lookup(ins, call.service).Some?;
            var twice := PutEntry(PutEntry(ins, CACHE_SIZE, call.service, true), CACHE_SIZE, call.relation, true);
            Matches(twice, outs, LogIn(log, call, held, Lookup(twice, LeftId(held, call)).Some?), Next(s, CallIn(call)))
  {
    var held := Lookup(ins, call.service).Some?;
    var twice := PutEntry(PutEntry(ins, CACHE_SIZE, call.service, true), CACHE_SIZE, call.relation, true);
    LookupIsMembership(ins, call.service);
    BothPuts(ins, s.inPast, call);
    LookupIsMembership(twice, LeftId(held, call));
  }

  lemma MatchesOut(ins: Held, outs: Held, log: Log, s: State, call: Call)
    requires Matches(ins, outs, log, s)
    ensures Matches(ins, PutEntry(outs, CACHE_SIZE, call.relation, true),
                    LogOut(log, call, Lookup(outs, call.relation).Some?), Next(s, CallOut(call)))
  {
    LookupIsMembership(outs, call.relation);
    PutIsRecent(outs, s.outPast, call.relation);
  }

  // ----- what is measured -----

  /** Which places of a list hold a call whose callee will not report it: a call to something other than a plain
      service, or to a destination that is not known. */
  ghost predicate Unreported(calls: seq<Call>, places: seq<nat>) {
    && (forall i :: 0 <= i < |places| ==> places[i] < |calls|)
    && (forall i, j :: 0 <= i < j < |places| ==> places[i] < places[j])
    && forall k: nat :: k in places <==> k < |calls| && !(calls[k].plainLayer && calls[k].knownDestination)
  }

  function Pick(calls: seq<Call>, places: seq<nat>): seq<Call>
    requires forall i :: 0 <= i < |places| ==> places[i] < |calls|
  {
    seq(|places|, i requires 0 <= i < |places| => calls[places[i]])
  }

  lemma {:induction false} IncomingMeasured(s: State, calls: seq<Call>, n: nat)
    requires n <= |calls|
    ensures Steps(s, Ins(calls)[..n]).log.observed == s.log.observed + calls[..n]
  {
    if n > 0 {
      IncomingMeasured(s, calls, n - 1);
      InsStep(calls, n - 1);
      assert calls[..n] == calls[..n - 1] + [calls[n - 1]];
      StepAtEnd(s, Ins(calls)[..n - 1], CallIn(calls[n - 1]));
    }
  }

  lemma StepAtEnd(s: State, events: seq<Event>, e: Event)
    ensures Steps(s, events + [e]) == Next(Steps(s, events), e)
  {
    assert (events + [e])[..|events|] == events;
  }

  lemma UnreportedStep(calls: seq<Call>, last: Call, places: seq<nat>) returns (more: seq<nat>)
    requires Unreported(calls, places)
    ensures Unreported(calls + [last], more)
    ensures Pick(calls + [last], more)
            == Pick(calls, places) + (if last.plainLayer && last.knownDestination then [] else [last])
  {
    var longer := calls + [last];
    assert forall k :: 0 <= k < |calls| ==> longer[k] == calls[k];
    if last.plainLayer && last.knownDestination {
      more := places;
    } else {
      more := places + [|calls|];
      assert forall k :: k in more <==> k in places || k == |calls|;
    }
  }

  lemma {:induction false} OutgoingMeasured(s: State, calls: seq<Call>) returns (places: seq<nat>)
    ensures Unreported(calls, places)
    ensures Steps(s, Outs(calls)).log.observed == s.log.observed + Pick(calls, places)
  {
    if calls == [] {
      places := [];
    } else {
      var before, last := calls[..|calls| - 1], calls[|calls| - 1];
      places := OutgoingMeasured(s, before);
      assert Outs(calls) == Outs(before) + [CallOut(last)];
      StepAtEnd(s, Outs(before), CallOut(last));
      places := UnreportedStep(before, last, places);
      assert calls == before + [last];
    }
  }

  /** Every incoming call is measured, and exactly the unreported outgoing ones, each once and in order. */
  lemma MeasuredExactly(s: State, incoming: seq<Call>, outgoing: seq<Call>) returns (places: seq<nat>)
    ensures Unreported(outgoing, places)
    ensures Steps(s, Ins(incoming) + Outs(outgoing)).log.observed
            == s.log.observed + incoming + Pick(outgoing, places)
  {
    IncomingMeasured(s, incoming, |incoming|);
    assert Ins(incoming)[..|incoming|] == Ins(incoming) && incoming[..|incoming|] == incoming;
    places := OutgoingMeasured(Steps(s, Ins(incoming)), outgoing);
    StepsConcat(s, Ins(incoming), Outs(outgoing));
  }

  /** After a clear every service and every outgoing relation is new again. */
  lemma ClearForgets(s: State, call: Call)
    ensures var c := Next(s, Cleared);
            && c.log == s.log
            && Next(c, CallIn(call)).log.services == s.log.services + [call.service]
            && Next(c, CallOut(call)).log.outgoing == s.log.outgoing + [call.relation]
  {
    ServiceSentIff(Next(s, Cleared), call);
    RelationSentIff(Next(s, Cleared), call);
  }

  class RpcAnalysisListener {
    const inLruCache: LruCache<Id, bool>
    const outLruCache: LruCache<Id, bool>
    var callingInTraffic: seq<Call>
    var callingOutTraffic: seq<Call>
    var log: Log
    /** The state the calls so far lead to. */
    ghost var state: State

    ghost predicate Valid()
      reads this, inLruCache, outLruCache
    {
      && inLruCache != outLruCache
      && inLruCache.Valid() && inLruCache.maxSize == CACHE_SIZE
      && outLruCache.Valid() && outLruCache.maxSize == CACHE_SIZE
      && Matches(inLruCache.Contents(), outLruCache.Contents(), log, state)
    }

    constructor ()
      ensures Valid() && fresh(inLruCache) && fresh(outLruCache) && state == FRESH
    {
      inLruCache := new LruCache(CACHE_SIZE);
      outLruCache := new LruCache(CACHE_SIZE);
      callingInTraffic, callingOutTraffic := [], [];
      log, state := Log([], [], [], []), FRESH;
    }

    /** Looks the service up, puts it, and registers it if it was not held; returns the id then in its message. */
    method TakeService(source: Call) returns (service: Id)
      requires inLruCache.Valid() && inLruCache.maxSize == CACHE_SIZE
      modifies this`log, inLruCache
      ensures var held := Lookup(old(inLruCache.Contents()), source.service).Some?;
              && service == LeftId(held, source)
              && log == old(log).(services := old(log).services + (if held then [] else [source.service]))
      ensures inLruCache.Valid()
              && inLruCache.Contents() == PutEntry(old(inLruCache.Contents()), CACHE_SIZE, source.service, true)
    {
      service := source.service;
      var exist := inLruCache.Exists(service);
      inLruCache.Put(service, true);
      if !exist {
        log := log.(services := log.services + [service]);
        if source.room {
          service := NO_ID;
        }
      }
    }

    method TakeIn(source: Call)
      requires Valid()
      modifies this`log, this`state, inLruCache
      ensures Valid() && state == Next(old(state), CallIn(source))
    {
      MatchesIn(inLruCache.Contents(), outLruCache.Contents(), log, state, source);
      var service := TakeService(source);
      inLruCache.Put(source.relation, true);
      var exist := inLruCache.Exists(service);
      if !exist {
        log := log.(incoming := log.incoming + [source.relation]);
      }
      log := log.(observed := log.observed + [source]);
      state := Next(state, CallIn(source));
    }

    method TakeOut(out: Call)
      requires Valid()
      modifies this`log, this`state, outLruCache
      ensures Valid() && state == Next(old(state), CallOut(out))
    {
      MatchesOut(inLruCache.Contents(), outLruCache.Contents(), log, state, out);
      state := Next(state, CallOut(out));
      if !out.plainLayer || !out.knownDestination {
        log := log.(observed := log.observed + [out]);
      }
      var exist := outLruCache.Exists(out.relation);
      outLruCache.Put(out.relation, true);
      if exist {
        return;
      }
      log := log.(outgoing := log.outgoing + [out.relation]);
    }

    method TakeAllIn(calls: seq<Call>)
      requires Valid()
      modifies this`log, this`state, inLruCache
      ensures Valid() && state == Steps(old(state), Ins(calls))
    {
      var i := 0;
      while i < |calls|
        invariant Valid() && i <= |calls|
        invariant state == Steps(old(state), Ins(calls)[..i])
      {
        InsStep(calls, i);
        TakeIn(calls[i]);
        i := i + 1;
      }
      assert Ins(calls)[..i] == Ins(calls);
    }

    method TakeAllOut(calls: seq<Call>)
      requires Valid()
      modifies this`log, this`state, outLruCache
      ensures Valid() && state == Steps(old(state), Outs(calls))
    {
      var i := 0;
      while i < |calls|
        invariant Valid() && i <= |calls|
        invariant state == Steps(old(state), Outs(calls)[..i])
      {
        OutsStep(calls, i);
        TakeOut(calls[i]);
        i := i + 1;
      }
      assert Outs(calls)[..i] == Outs(calls);
    }

    /** Works off both lists; the caches, the sink and the aggregators are then as the calls in order lead to. */
    method Build()
      requires Valid()
      modifies this, inLruCache, outLruCache
      ensures Valid() && callingInTraffic == [] && callingOutTraffic == []
      ensures state == Steps(old(state), Ins(old(callingInTraffic)) + Outs(old(callingOutTraffic)))
    {
      StepsConcat(state, Ins(callingInTraffic), Outs(callingOutTraffic));
      TakeAllIn(callingInTraffic);
      callingInTraffic := [];
      TakeAllOut(callingOutTraffic);
      callingOutTraffic := [];
    }

    method Clear()
      requires Valid()
      modifies this`state, inLruCache, outLruCache
      ensures Valid() && state == Next(old(state), Cleared)
    {
      inLruCache.Clear();
      outLruCache.Clear();
      state := Next(state, Cleared);
    }
  }
}
