/** Least recently used: what a bounded cache holds after any run. */
module LruSpec {
  import opened Finite
  import opened Text

  type Entries<K, V> = seq<(K, V)>

  function Keys<K, V>(e: Entries<K, V>): (r: seq<K>)
    ensures |r| == |e|
  {
    seq(|e|, i requires 0 <= i < |e| => e[i].0)
  }

  function WithoutKey<K(==)>(s: seq<K>, k: K): (r: seq<K>)
    ensures |r| <= |s|
  {
    if s == [] then []
    else if s[0] == k then WithoutKey(s[1..], k) else [s[0]] + WithoutKey(s[1..], k)
  }

  function Without<K(==), V>(e: Entries<K, V>, k: K): (r: Entries<K, V>)
    ensures |r| <= |e|
  {
    if e == [] then []
    else if e[0].0 == k then Without(e[1..], k) else [e[0]] + Without(e[1..], k)
  }

  function Lookup<K(==), V>(e: Entries<K, V>, k: K): Option<V> {
    if e == [] then None else if e[0].0 == k then Some(e[0].1) else Lookup(e[1..], k)
  }

  function Take<T>(s: seq<T>, n: nat): seq<T> { if |s| <= n then s else s[..n] }

  function PutEntry<K(==), V>(e: Entries<K, V>, cap: nat, k: K, v: V): Entries<K, V> {
    var f := [(k, v)] + Without(e, k);
    if |f| > cap then f[..|f| - 1] else f
  }

  function Touch<K(==), V>(e: Entries<K, V>, k: K): Entries<K, V> {
    match Lookup(e, k) case None => e case Some(v) => [(k, v)] + Without(e, k)
  }

  // ----- runs -----

  datatype Op<K, V> = Put(key: K, value: V) | Get(key: K) | Clear

  function Step<K(==), V>(e: Entries<K, V>, cap: nat, op: Op<K, V>): Entries<K, V> {
    match op
    case Put(k, v) => PutEntry(e, cap, k, v)
    case Get(k) => Touch(e, k)
    case Clear => []
  }

  function Run<K(==), V>(ops: seq<Op<K, V>>, cap: nat): Entries<K, V> {
    if ops == [] then [] else Step(Run(ops[..|ops| - 1], cap), cap, ops[|ops| - 1])
  }

  /** The uses since the last clear, newest first: every put, and every get that found its key. */
  function Uses<K(==), V>(ops: seq<Op<K, V>>, cap: nat): seq<K> {
    if ops == [] then []
    else
      var before := ops[..|ops| - 1];
      match ops[|ops| - 1]
      case Put(k, _) => [k] + Uses(before, cap)
      case Get(k) => if Lookup(Run(before, cap), k).Some? then [k] + Uses(before, cap) else Uses(before, cap)
      case Clear => []
  }

  /** Distinct elements in order of first occurrence. */
  function Distinct<K(==)>(s: seq<K>): seq<K> {
    if s == [] then [] else [s[0]] + WithoutKey(Distinct(s[1..]), s[0])
  }

  /** The value of the last put of `k` since the last clear. */
  function LastPut<K(==), V>(ops: seq<Op<K, V>>, k: K): Option<V> {
    if ops == [] then None
    else
      var before := ops[..|ops| - 1];
      match ops[|ops| - 1]
      case Put(k', v) => if k' == k then Some(v) else LastPut(before, k)
      case Get(_) => LastPut(before, k)
      case Clear => None
  }

  lemma {:induction false} WithoutKeyMembers<K>(s: seq<K>, k: K)
    ensures forall x :: x in WithoutKey(s, k) <==> x in s && x != k
    ensures k !in s ==> WithoutKey(s, k) == s
  {
    if s != [] {
      WithoutKeyMembers(s[1..], k);
    }
  }

  lemma {:induction false} WithoutKeyNoRepeats<K>(s: seq<K>, k: K)
    requires NoRepeats(s)
    ensures NoRepeats(WithoutKey(s, k)) && k !in WithoutKey(s, k)
    ensures |WithoutKey(s, k)| == if k in s then |s| - 1 else |s|
  {
    WithoutKeyMembers(s, k);
    if s != [] {
      WithoutKeyMembers(s[1..], k);
      WithoutKeyNoRepeats(s[1..], k);
      assert forall i :: 0 <= i < |s[1..]| ==> s[1..][i] == s[i + 1];
      PrependFresh(s[0], WithoutKey(s[1..], k));
    }
  }

  lemma PrependFresh<K>(x: K, s: seq<K>)
    requires NoRepeats(s) && x !in s
    ensures NoRepeats([x] + s)
  {
  }

  lemma {:induction false} DistinctNoRepeats<K>(s: seq<K>)
    ensures NoRepeats(Distinct(s))
    ensures forall x :: x in Distinct(s) <==> x in s
  {
    if s != [] {
      DistinctNoRepeats(s[1..]);
      WithoutKeyNoRepeats(Distinct(s[1..]), s[0]);
      WithoutKeyMembers(Distinct(s[1..]), s[0]);
    }
  }

  lemma {:induction false} KeysOfWithout<K, V>(e: Entries<K, V>, k: K)
    ensures Keys(Without(e, k)) == WithoutKey(Keys(e), k)
  {
    if e != [] {
      KeysOfWithout(e[1..], k);
      assert Keys(e)[1..] == Keys(e[1..]);
      assert Keys([e[0]] + Without(e[1..], k)) == [e[0].0] + Keys(Without(e[1..], k));
    }
  }

  lemma {:induction false} LookupIsMembership<K, V>(e: Entries<K, V>, k: K)
    ensures Lookup(e, k).Some? <==> k in Keys(e)
    ensures Lookup(e, k).Some? ==> (k, Lookup(e, k).value) in e
  {
    if e != [] {
      LookupIsMembership(e[1..], k);
      assert Keys(e) == [e[0].0] + Keys(e[1..]);
    }
  }

  /** Dropping a key and cutting to length commute, up to the one place the key may have taken. */
  lemma {:induction false} TakeWithout<K>(d: seq<K>, k: K, n: nat)
    requires NoRepeats(d)
    ensures Take(WithoutKey(Take(d, n + 1), k), n) == Take(WithoutKey(d, k), n)
  {
    if d != [] && n > 0 {
      var t := Take(d, n + 1);
      assert t[0] == d[0] && t[1..] == Take(d[1..], n);
      if d[0] == k {
        assert k !in d[1..];
        WithoutKeyMembers(d[1..], k);
        WithoutKeyMembers(t[1..], k);
      } else {
        TakeWithout(d[1..], k, n - 1);
        assert Take([d[0]] + WithoutKey(t[1..], k), n) == [d[0]] + Take(WithoutKey(t[1..], k), n - 1);
        assert Take([d[0]] + WithoutKey(d[1..], k), n) == [d[0]] + Take(WithoutKey(d[1..], k), n - 1);
      }
    }
  }

  /** Using a key moves it to the front of the most recent distinct keys. */
  lemma FrontAndRest<K>(d: seq<K>, k: K, cap: nat)
    requires NoRepeats(d) && cap >= 1
    ensures Take([k] + WithoutKey(Take(d, cap), k), cap) == Take([k] + WithoutKey(d, k), cap)
  {
    TakeWithout(d, k, cap - 1);
    assert Take([k] + WithoutKey(Take(d, cap), k), cap) == [k] + Take(WithoutKey(Take(d, cap), k), cap - 1);
    assert Take([k] + WithoutKey(d, k), cap) == [k] + Take(WithoutKey(d, k), cap - 1);
  }

  lemma PutKeys<K, V>(e: Entries<K, V>, cap: nat, k: K, v: V, d: seq<K>)
    requires NoRepeats(d) && Keys(e) == Take(d, cap)
    ensures Keys(PutEntry(e, cap, k, v)) == Take([k] + WithoutKey(d, k), cap)
  {
    var f := [(k, v)] + Without(e, k);
    KeysOfWithout(e, k);
    assert |f| <= cap + 1;
    assert Keys(PutEntry(e, cap, k, v)) == Take(Keys(f), cap);
    if cap >= 1 {
      FrontAndRest(d, k, cap);
    }
  }

  lemma TouchKeys<K, V>(e: Entries<K, V>, cap: nat, k: K, d: seq<K>)
    requires NoRepeats(d) && Keys(e) == Take(d, cap) && Lookup(e, k).Some?
    ensures Keys(Touch(e, k)) == Take([k] + WithoutKey(d, k), cap)
  {
    var v := Lookup(e, k).value;
    LookupIsMembership(e, k);
    KeysOfWithout(e, k);
    WithoutKeyNoRepeats(Keys(e), k);
    FrontAndRest(d, k, cap);
  }

  /** After any run the keys held are the most recently used distinct keys, as many as fit. */
  lemma {:induction false} KeysAreMostRecent<K, V>(ops: seq<Op<K, V>>, cap: nat)
    ensures Keys(Run(ops, cap)) == Take(Distinct(Uses(ops, cap)), cap)
    ensures |Run(ops, cap)| <= cap
  {
    if ops != [] {
      var before := ops[..|ops| - 1];
      KeysAreMostRecent(before, cap);
      var e, d := Run(before, cap), Distinct(Uses(before, cap));
      DistinctNoRepeats(Uses(before, cap));
      match ops[|ops| - 1] {
        case Put(k, v) =>
          PutKeys(e, cap, k, v, d);
          assert ([k] + Uses(before, cap))[1..] == Uses(before, cap);
        case Get(k) =>
          if Lookup(e, k).Some? {
            TouchKeys(e, cap, k, d);
            assert ([k] + Uses(before, cap))[1..] == Uses(before, cap);
          }
        case Clear =>
      }
    }
  }

  lemma {:induction false} WithoutEntries<K, V>(e: Entries<K, V>, k: K)
    ensures forall x :: x in Without(e, k) <==> x in e && x.0 != k
  {
    if e != [] {
      WithoutEntries(e[1..], k);
    }
  }

  /** An entry after a use is the new front or an old one of another key. */
  lemma FrontEntries<K, V>(e: Entries<K, V>, k: K, v: V, x: (K, V))
    requires x in [(k, v)] + Without(e, k)
    ensures x == (k, v) || (x in e && x.0 != k)
  {
    WithoutEntries(e, k);
  }

  lemma PutEntries<K, V>(e: Entries<K, V>, cap: nat, k: K, v: V, x: (K, V))
    requires x in PutEntry(e, cap, k, v)
    ensures x.0 == k ==> x.1 == v
    ensures x.0 != k ==> x in e
  {
    assert x in [(k, v)] + Without(e, k);
    FrontEntries(e, k, v, x);
  }

  lemma TouchEntries<K, V>(e: Entries<K, V>, k: K, x: (K, V))
    requires x in Touch(e, k)
    ensures x in e
  {
    LookupIsMembership(e, k);
    if Lookup(e, k).Some? {
      FrontEntries(e, k, Lookup(e, k).value, x);
    }
  }

  lemma LastPutStep<K, V>(ops: seq<Op<K, V>>, j: K)
    requires ops != []
    ensures var before, op := ops[..|ops| - 1], ops[|ops| - 1];
            LastPut(ops, j) == match op
                               case Put(k, v) => if k == j then Some(v) else LastPut(before, j)
                               case Get(_) => LastPut(before, j)
                               case Clear => None
  {
  }

  /** After any run every key held has the value of its last put. */
  lemma {:induction false} ValuesAreLastPut<K, V>(ops: seq<Op<K, V>>, cap: nat, x: (K, V))
    requires x in Run(ops, cap)
    ensures LastPut(ops, x.0) == Some(x.1)
  {
    if ops != [] {
      var before := ops[..|ops| - 1];
      var e := Run(before, cap);
      LastPutStep(ops, x.0);
      match ops[|ops| - 1] {
        case Put(k, v) =>
          PutEntries(e, cap, k, v, x);
          if x.0 != k {
            ValuesAreLastPut(before, cap, x);
          }
        case Get(k) =>
          TouchEntries(e, k, x);
          ValuesAreLastPut(before, cap, x);
        case Clear =>
      }
    }
  }

  // ----- single uses, by place -----

  lemma {:induction false} WithoutPlace<K, V>(e: Entries<K, V>, k: K, i: nat)
    requires NoRepeats(Keys(e)) && i < |e| && e[i].0 == k
    ensures Without(e, k) == e[..i] + e[i + 1..] && Lookup(e, k) == Some(e[i].1)
  {
    RestNoRepeats(e);
    if i == 0 {
      WithoutAbsent(e[1..], k);
    } else {
      assert Keys(e)[0] != Keys(e)[i];
      WithoutPlace(e[1..], k, i - 1);
      assert e[..i] == [e[0]] + e[1..][..i - 1] && e[1..][i..] == e[i + 1..];
    }
  }

  lemma RestNoRepeats<K, V>(e: Entries<K, V>)
    requires NoRepeats(Keys(e)) && e != []
    ensures NoRepeats(Keys(e[1..])) && e[0].0 !in Keys(e[1..])
  {
    assert forall j :: 0 <= j < |e| - 1 ==> Keys(e[1..])[j] == Keys(e)[j + 1];
    assert Keys(e)[0] == e[0].0;
  }

  lemma {:induction false} WithoutAbsent<K, V>(e: Entries<K, V>, k: K)
    requires k !in Keys(e)
    ensures Without(e, k) == e
  {
    if e != [] {
      assert Keys(e) == [e[0].0] + Keys(e[1..]);
      WithoutAbsent(e[1..], k);
    }
  }

  /** A get that finds its key moves the entry to the front and keeps the order of the others. */
  lemma HitMovesToFront<K, V>(e: Entries<K, V>, cap: nat, i: nat)
    requires NoRepeats(Keys(e)) && i < |e|
    ensures Step(e, cap, Get(e[i].0)) == [e[i]] + e[..i] + e[i + 1..]
  {
    WithoutPlace(e, e[i].0, i);
  }

  /** So does a put of a held key, with the new value. */
  lemma PutAgain<K, V>(e: Entries<K, V>, cap: nat, i: nat, v: V)
    requires NoRepeats(Keys(e)) && i < |e| <= cap
    ensures Step(e, cap, Put(e[i].0, v)) == [(e[i].0, v)] + e[..i] + e[i + 1..]
  {
    WithoutPlace(e, e[i].0, i);
  }

  /** A new key goes in front, and the last entry makes room in a full cache. */
  lemma PutNew<K, V>(e: Entries<K, V>, cap: nat, k: K, v: V)
    requires k !in Keys(e) && |e| <= cap
    ensures Step(e, cap, Put(k, v)) == if |e| < cap then [(k, v)] + e else ([(k, v)] + e)[..cap]
  {
    WithoutAbsent(e, k);
  }
}
