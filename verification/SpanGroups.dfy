/** Building an export request: spans grouped by resource and, within it, by instrumentation scope. */
module SpanGroups {
  import opened Text

  /** A resource or scope is known by its address, which may be null. */
  type Key = Option<nat>

  datatype Span<T> = Span(resource: Key, scope: Key, body: T)

  datatype ScopeSpans<T> = ScopeSpans(scope: Key, spans: seq<Span<T>>)

  datatype ResourceSpans<T> = ResourceSpans(resource: Key, scopes: seq<ScopeSpans<T>>)

  type Index<T> = map<Key, map<Key, seq<Span<T>>>>

  /** The spans of one resource and scope, in input order. */
  function Of<T>(spans: seq<Span<T>>, r: Key, s: Key): seq<Span<T>> {
    if spans == [] then []
    else
      var last := spans[|spans| - 1];
      Of(spans[..|spans| - 1], r, s) + (if last.resource == r && last.scope == s then [last] else [])
  }

  predicate Used<T>(spans: seq<Span<T>>, r: Key, s: Key) {
    exists i :: 0 <= i < |spans| && spans[i].resource == r && spans[i].scope == s
  }

  lemma {:induction false} UsedIff<T>(spans: seq<Span<T>>, r: Key, s: Key)
    ensures Of(spans, r, s) != [] <==> Used(spans, r, s)
  {
    if spans != [] {
      var before := spans[..|spans| - 1];
      UsedIff(before, r, s);
      if Used(before, r, s) {
        var i :| 0 <= i < |before| && before[i].resource == r && before[i].scope == s;
        assert spans[i] == before[i];
      }
      if Used(spans, r, s) {
        var i :| 0 <= i < |spans| && spans[i].resource == r && spans[i].scope == s;
        if i < |before| {
          assert before[i] == spans[i];
        }
      }
    }
  }

  predicate InIndex<T>(index: Index<T>, r: Key, s: Key) { r in index && s in index[r] }

  /** The index holds exactly the groups that have spans. */
  ghost predicate Indexes<T>(index: Index<T>, spans: seq<Span<T>>) {
    && (forall r, s :: InIndex(index, r, s) ==> index[r][s] == Of(spans, r, s))
    && (forall r, s :: InIndex(index, r, s) <==> Used(spans, r, s))
    && forall r :: r in index ==> index[r] != map[]
  }

  function Added<T>(index: Index<T>, x: Span<T>): Index<T> {
    var scopes := if x.resource in index then index[x.resource] else map[];
    index[x.resource := scopes[x.scope := (if x.scope in scopes then scopes[x.scope] else []) + [x]]]
  }

  lemma UsedAppend<T>(spans: seq<Span<T>>, x: Span<T>, r: Key, s: Key)
    ensures Used(spans + [x], r, s) <==> Used(spans, r, s) || (x.resource == r && x.scope == s)
    ensures Of(spans + [x], r, s) == Of(spans, r, s) + (if x.resource == r && x.scope == s then [x] else [])
  {
    var longer := spans + [x];
    assert longer[..|spans|] == spans && longer[|spans|] == x;
    UsedIff(longer, r, s);
    UsedIff(spans, r, s);
  }

  lemma AddedIndexes<T>(index: Index<T>, spans: seq<Span<T>>, x: Span<T>)
    requires Indexes(index, spans)
    ensures Indexes(Added(index, x), spans + [x])
  {
    forall r, s
      ensures InIndex(Added(index, x), r, s) <==> Used(spans + [x], r, s)
      ensures InIndex(Added(index, x), r, s) ==> Added(index, x)[r][s] == Of(spans + [x], r, s)
    {
      UsedAppend(spans, x, r, s);
      UsedIff(spans, r, s);
    }
  }

  // ----- the result -----

  ghost predicate ScopesOf<T>(scopes: seq<ScopeSpans<T>>, groups: map<Key, seq<Span<T>>>) {
    && (forall i, j :: 0 <= i < j < |scopes| ==> scopes[i].scope != scopes[j].scope)
    && (forall i :: 0 <= i < |scopes| ==> scopes[i].scope in groups && scopes[i].spans == groups[scopes[i].scope])
    && forall s :: s in groups ==> exists i :: 0 <= i < |scopes| && scopes[i].scope == s
  }

  /** One entry a resource, one entry a scope within it, no empty ones, and the spans of each in input order. */
  ghost predicate Partition<T>(request: seq<ResourceSpans<T>>, spans: seq<Span<T>>) {
    && (forall i, j :: 0 <= i < j < |request| ==> request[i].resource != request[j].resource)
    && (forall i :: 0 <= i < |request| ==> request[i].scopes != [])
    && (forall i, j, k :: 0 <= i < |request| && 0 <= j < k < |request[i].scopes| ==>
          request[i].scopes[j].scope != request[i].scopes[k].scope)
    && (forall i, j :: 0 <= i < |request| && 0 <= j < |request[i].scopes| ==>
          request[i].scopes[j].spans == Of(spans, request[i].resource, request[i].scopes[j].scope) != [])
    && forall k :: 0 <= k < |spans| ==> HasGroup(request, spans[k].resource, spans[k].scope)
  }

  ghost predicate HasGroup<T>(request: seq<ResourceSpans<T>>, r: Key, s: Key) {
    exists i, j :: 0 <= i < |request| && 0 <= j < |request[i].scopes|
                   && request[i].resource == r && request[i].scopes[j].scope == s
  }

  ghost predicate Lists<T>(request: seq<ResourceSpans<T>>, index: Index<T>) {
    && (forall i, j :: 0 <= i < j < |request| ==> request[i].resource != request[j].resource)
    && (forall i :: 0 <= i < |request| ==>
          request[i].resource in index && ScopesOf(request[i].scopes, index[request[i].resource]))
    && forall r :: r in index ==> exists i :: 0 <= i < |request| && request[i].resource == r
  }

  lemma ListsPartition<T>(request: seq<ResourceSpans<T>>, index: Index<T>, spans: seq<Span<T>>)
    requires Indexes(index, spans) && Lists(request, index)
    ensures Partition(request, spans)
  {
    forall i | 0 <= i < |request|
      ensures request[i].scopes != []
      ensures forall j, k :: 0 <= j < k < |request[i].scopes| ==>
                request[i].scopes[j].scope != request[i].scopes[k].scope
    {
    }
    forall i, j | 0 <= i < |request| && 0 <= j < |request[i].scopes|
      ensures request[i].scopes[j].spans == Of(spans, request[i].resource, request[i].scopes[j].scope) != []
    {
      var r, s := request[i].resource, request[i].scopes[j].scope;
      assert ScopesOf(request[i].scopes, index[r]);
      assert InIndex(index, r, s);
      UsedIff(spans, r, s);
    }
    forall k | 0 <= k < |spans|
      ensures HasGroup(request, spans[k].resource, spans[k].scope)
    {
      assert Used(spans, spans[k].resource, spans[k].scope);
    }
  }

  // ----- the two loops -----

  method AddSpan<T>(index: Index<T>, x: Span<T>) returns (r: Index<T>)
    ensures r == Added(index, x)
  {
    r := index;
    if x.resource !in r {
      r := r[x.resource := map[]];
    }
    var scopes := r[x.resource];
    if x.scope !in scopes {
      scopes := scopes[x.scope := []];
    }
    scopes := scopes[x.scope := scopes[x.scope] + [x]];
    r := r[x.resource := scopes];
    ghost var was := if x.resource in index then index[x.resource] else map[];
    assert scopes == was[x.scope := (if x.scope in was then was[x.scope] else []) + [x]];
    assert r == index[x.resource := scopes];
  }

  method Collect<T>(spans: seq<Span<T>>) returns (index: Index<T>)
    ensures Indexes(index, spans)
  {
    index := map[];
    var i := 0;
    while i < |spans|
      invariant i <= |spans|
      invariant Indexes(index, spans[..i])
    {
      AddedIndexes(index, spans[..i], spans[i]);
      assert spans[..i] + [spans[i]] == spans[..i + 1];
      index := AddSpan(index, spans[i]);
      i := i + 1;
    }
    assert spans[..i] == spans;
  }

  /** The scope entries so far: those of the keys no longer to be visited. */
  ghost predicate ScopesSoFar<T>(scopes: seq<ScopeSpans<T>>, groups: map<Key, seq<Span<T>>>, rest: set<Key>) {
    && (forall i, j :: 0 <= i < j < |scopes| ==> scopes[i].scope != scopes[j].scope)
    && (forall i :: 0 <= i < |scopes| ==>
          scopes[i].scope in groups && scopes[i].scope !in rest && scopes[i].spans == groups[scopes[i].scope])
    && forall s :: s in groups && s !in rest ==> exists i :: 0 <= i < |scopes| && scopes[i].scope == s
  }

  lemma NextScope<T>(scopes: seq<ScopeSpans<T>>, groups: map<Key, seq<Span<T>>>, rest: set<Key>, s: Key)
    requires ScopesSoFar(scopes, groups, rest) && s in rest && rest <= groups.Keys
    ensures ScopesSoFar(scopes + [ScopeSpans(s, groups[s])], groups, rest - {s})
  {
    var longer := scopes + [ScopeSpans(s, groups[s])];
    assert longer[|scopes|].scope == s;
    forall t | t in groups && t !in rest - {s}
      ensures exists i :: 0 <= i < |longer| && longer[i].scope == t
    {
      if t != s {
        var i :| 0 <= i < |scopes| && scopes[i].scope == t;
        assert longer[i].scope == t;
      }
    }
  }

  /** Visits the groups of one resource in any order. */
  method AddScopes<T>(groups: map<Key, seq<Span<T>>>) returns (scopes: seq<ScopeSpans<T>>)
    ensures ScopesOf(scopes, groups)
  {
    scopes := [];
    var rest := groups.Keys;
    while rest != {}
      invariant rest <= groups.Keys && ScopesSoFar(scopes, groups, rest)
      decreases rest
    {
      var s :| s in rest;
      NextScope(scopes, groups, rest, s);
      scopes := scopes + [ScopeSpans(s, groups[s])];
      rest := rest - {s};
    }
  }

  ghost predicate ResourcesSoFar<T>(request: seq<ResourceSpans<T>>, index: Index<T>, rest: set<Key>) {
    && (forall i, j :: 0 <= i < j < |request| ==> request[i].resource != request[j].resource)
    && (forall i :: 0 <= i < |request| ==>
          && request[i].resource in index && request[i].resource !in rest
          && ScopesOf(request[i].scopes, index[request[i].resource]))
    && forall r :: r in index && r !in rest ==> exists i :: 0 <= i < |request| && request[i].resource == r
  }

  lemma NextResource<T>(request: seq<ResourceSpans<T>>, index: Index<T>, rest: set<Key>, r: Key,
                        scopes: seq<ScopeSpans<T>>)
    requires ResourcesSoFar(request, index, rest) && r in rest && rest <= index.Keys && ScopesOf(scopes, index[r])
    ensures ResourcesSoFar(request + [ResourceSpans(r, scopes)], index, rest - {r})
  {
    var longer := request + [ResourceSpans(r, scopes)];
    assert longer[|request|].resource == r;
    forall t | t in index && t !in rest - {r}
      ensures exists i :: 0 <= i < |longer| && longer[i].resource == t
    {
      if t != r {
        var i :| 0 <= i < |request| && request[i].resource == t;
        assert longer[i].resource == t;
      }
    }
  }

  /** Visits the resources in any order. */
  method AddResources<T>(index: Index<T>) returns (added: seq<ResourceSpans<T>>)
    ensures Lists(added, index)
  {
    added := [];
    var rest := index.Keys;
    while rest != {}
      invariant rest <= index.Keys && ResourcesSoFar(added, index, rest)
      decreases rest
    {
      var key :| key in rest;
      var scopes := AddScopes(index[key]);
      NextResource(added, index, rest, key, scopes);
      added := added + [ResourceSpans(key, scopes)];
      rest := rest - {key};
    }
  }

  /** What is appended to the request is the stable partition of the spans, whatever order the maps are visited in. */
  method PopulateRequest<T>(spans: seq<Span<T>>, request: seq<ResourceSpans<T>>) returns (r: seq<ResourceSpans<T>>)
    ensures request <= r && Partition(r[|request|..], spans)
  {
    var index := Collect(spans);
    var added := AddResources(index);
    ListsPartition(added, index, spans);
    r := request + added;
    assert r[|request|..] == added;
  }

  // ----- every span once -----

  function AllOfScopes<T>(scopes: seq<ScopeSpans<T>>): seq<Span<T>> {
    if scopes == [] then [] else AllOfScopes(scopes[..|scopes| - 1]) + scopes[|scopes| - 1].spans
  }

  function AllOf<T>(request: seq<ResourceSpans<T>>): seq<Span<T>> {
    if request == [] then [] else AllOf(request[..|request| - 1]) + AllOfScopes(request[|request| - 1].scopes)
  }

  function Times<T(==)>(spans: seq<Span<T>>, x: Span<T>): nat {
    if spans == [] then 0 else Times(spans[..|spans| - 1], x) + (if spans[|spans| - 1] == x then 1 else 0)
  }

  lemma {:induction false} TimesConcat<T>(a: seq<Span<T>>, b: seq<Span<T>>, x: Span<T>)
    ensures Times(a + b, x) == Times(a, x) + Times(b, x)
  {
    if b == [] {
      assert a + b == a;
    } else {
      assert (a + b)[..|a + b| - 1] == a + b[..|b| - 1];
      TimesConcat(a, b[..|b| - 1], x);
    }
  }

  /** A group holds a span as often as the input does, if it is the span's own group, and not at all otherwise. */
  lemma {:induction false} TimesOf<T>(spans: seq<Span<T>>, r: Key, s: Key, x: Span<T>)
    ensures Times(Of(spans, r, s), x) == if x.resource == r && x.scope == s then Times(spans, x) else 0
  {
    if spans != [] {
      var before, last := spans[..|spans| - 1], spans[|spans| - 1];
      TimesOf(before, r, s, x);
      TimesConcat(Of(before, r, s), if last.resource == r && last.scope == s then [last] else [], x);
    }
  }

  predicate HasScope<T>(scopes: seq<ScopeSpans<T>>, s: Key) { exists j :: 0 <= j < |scopes| && scopes[j].scope == s }

  lemma {:induction false} TimesInScopes<T>(scopes: seq<ScopeSpans<T>>, spans: seq<Span<T>>, r: Key, x: Span<T>)
    requires forall j :: 0 <= j < |scopes| ==> scopes[j].spans == Of(spans, r, scopes[j].scope)
    requires forall j, k :: 0 <= j < k < |scopes| ==> scopes[j].scope != scopes[k].scope
    ensures Times(AllOfScopes(scopes), x) == if x.resource == r && HasScope(scopes, x.scope) then Times(spans, x) else 0
  {
    if scopes != [] {
      var before, last := scopes[..|scopes| - 1], scopes[|scopes| - 1];
      TimesInScopes(before, spans, r, x);
      TimesConcat(AllOfScopes(before), last.spans, x);
      TimesOf(spans, r, last.scope, x);
    }
  }

  /** What a partition says of the groups it has; every initial part of it says the same. */
  ghost predicate Groups<T>(request: seq<ResourceSpans<T>>, spans: seq<Span<T>>) {
    && (forall i, j :: 0 <= i < j < |request| ==> request[i].resource != request[j].resource)
    && (forall i, j, k :: 0 <= i < |request| && 0 <= j < k < |request[i].scopes| ==>
          request[i].scopes[j].scope != request[i].scopes[k].scope)
    && (forall i, j :: 0 <= i < |request| && 0 <= j < |request[i].scopes| ==>
          request[i].scopes[j].spans == Of(spans, request[i].resource, request[i].scopes[j].scope))
  }

  lemma {:induction false} TimesInRequest<T>(request: seq<ResourceSpans<T>>, spans: seq<Span<T>>, x: Span<T>)
    requires Groups(request, spans)
    ensures Times(AllOf(request), x) == if HasGroup(request, x.resource, x.scope) then Times(spans, x) else 0
  {
    if request != [] {
      var before, last := request[..|request| - 1], request[|request| - 1];
      TimesInRequest(before, spans, x);
      TimesConcat(AllOf(before), AllOfScopes(last.scopes), x);
      TimesInScopes(last.scopes, spans, last.resource, x);
      assert HasGroup(before, x.resource, x.scope) ==> last.resource != x.resource;
    }
  }

  lemma {:induction false} TimesUsed<T>(spans: seq<Span<T>>, x: Span<T>)
    ensures Times(spans, x) > 0 <==> x in spans
  {
    if spans != [] {
      TimesUsed(spans[..|spans| - 1], x);
      assert spans == spans[..|spans| - 1] + [spans[|spans| - 1]];
    }
  }

  /** The request carries every span exactly as often as the input. */
  lemma EverySpanOnce<T>(request: seq<ResourceSpans<T>>, spans: seq<Span<T>>, x: Span<T>)
    requires Partition(request, spans)
    ensures Times(AllOf(request), x) == Times(spans, x)
  {
    TimesInRequest(request, spans, x);
    TimesUsed(spans, x);
    if x in spans {
      var k :| 0 <= k < |spans| && spans[k] == x;
      assert HasGroup(request, spans[k].resource, spans[k].scope);
    }
  }

  /** The order within a group is the input order: span `i` stands before every later span of its group. */
  lemma {:induction false} InputOrder<T>(spans: seq<Span<T>>, i: nat, r: Key, s: Key)
    requires i < |spans| && spans[i].resource == r && spans[i].scope == s
    ensures var p := |Of(spans[..i], r, s)|;
            p < |Of(spans, r, s)| && Of(spans, r, s)[p] == spans[i] && Of(spans, r, s)[..p] == Of(spans[..i], r, s)
  {
    var before, last := spans[..|spans| - 1], spans[|spans| - 1];
    if i == |before| {
      assert spans[..i] == before;
    } else {
      assert before[..i] == spans[..i] && before[i] == spans[i];
      InputOrder(before, i, r, s);
    }
  }
}
