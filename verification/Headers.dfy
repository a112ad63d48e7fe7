/** Request headers from two environment variables: the list for the signal overrides the generic one. */
module Headers {
  import opened Text

  /** One item of a header list, as the tokenizer gives it. */
  datatype Token = Invalid | Header(key: string, value: string)

  /** The key with its letters made small. */
  function Fold(key: string): (r: string)
    ensures |r| == |key| && forall i :: 0 <= i < |key| ==> r[i] == Lower(key[i])
  {
    if key == "" then "" else [Lower(key[0])] + Fold(key[1..])
  }

  /** The comparison of the header map: lexicographic on the small letters. */
  predicate LessIgnoringCase(a: string, b: string) {
    if b == "" then false
    else if a == "" then true
    else if Lower(a[0]) < Lower(b[0]) then true
    else if Lower(b[0]) < Lower(a[0]) then false
    else LessIgnoringCase(a[1..], b[1..])
  }

  /** The map takes two keys for the same exactly when their folded forms are equal. */
  lemma {:induction false} SameKeyIff(a: string, b: string)
    ensures !LessIgnoringCase(a, b) && !LessIgnoringCase(b, a) <==> Fold(a) == Fold(b)
  {
    if a != "" && b != "" {
      SameKeyIff(a[1..], b[1..]);
      assert Fold(a)[1..] == Fold(a[1..]) && Fold(b)[1..] == Fold(b[1..]);
      assert Fold(a)[0] == Lower(a[0]) && Fold(b)[0] == Lower(b[0]);
    }
  }

  /** At the first place where the small letters differ `a` has the smaller one, or `a` ends there. */
  ghost predicate FoldsBefore(a: string, b: string) { exists k :: 0 <= k < |b| && FoldDiffersAt(a, b, k) }

  predicate FoldDiffersAt(a: string, b: string, k: nat)
    requires k < |b|
  {
    k <= |a| && (forall i :: 0 <= i < k ==> Lower(a[i]) == Lower(b[i])) && (k == |a| || Lower(a[k]) < Lower(b[k]))
  }

  lemma FoldDiffersShift(a: string, b: string, k: nat)
    requires a != "" && b != "" && Lower(a[0]) == Lower(b[0]) && k + 1 < |b|
    ensures FoldDiffersAt(a[1..], b[1..], k) <==> FoldDiffersAt(a, b, k + 1)
  {
    if k < |a| {
      assert forall i :: 0 <= i < k ==> a[1..][i] == a[i + 1] && b[1..][i] == b[i + 1];
      assert forall i :: 1 <= i < k + 1 ==> a[i] == a[1..][i - 1] && b[i] == b[1..][i - 1];
    }
  }

  /** The order of the header map is the lexicographic one on small letters. */
  lemma {:induction false} LessExactly(a: string, b: string)
    ensures LessIgnoringCase(a, b) <==> FoldsBefore(a, b)
  {
    if b != "" && (a == "" || Lower(a[0]) != Lower(b[0])) {
      assert FoldDiffersAt(a, b, 0) <==> a == "" || Lower(a[0]) < Lower(b[0]);
    } else if b != "" {
      LessExactly(a[1..], b[1..]);
      forall k | 0 <= k < |b| - 1
        ensures FoldDiffersAt(a[1..], b[1..], k) <==> FoldDiffersAt(a, b, k + 1)
      {
        FoldDiffersShift(a, b, k);
      }
      if FoldsBefore(a, b) {
        var k :| 0 <= k < |b| && FoldDiffersAt(a, b, k);
        assert FoldDiffersAt(a[1..], b[1..], k - 1);
      }
    }
  }

  predicate AlikeAt(c: char, d: char) {
    || c == d
    || ('A' <= c <= 'Z' && d as int == c as int + 32)
    || ('A' <= d <= 'Z' && c as int == d as int + 32)
  }

  /** Equal but for the case of letters A to Z. */
  predicate Alike(a: string, b: string) { |a| == |b| && forall i :: 0 <= i < |a| ==> AlikeAt(a[i], b[i]) }

  lemma AlikeLetters(c: char, d: char)
    ensures Lower(c) == Lower(d) <==> AlikeAt(c, d)
  {
  }

  lemma AlikeIff(a: string, b: string)
    ensures Fold(a) == Fold(b) <==> Alike(a, b)
  {
    forall i | 0 <= i < |a| && i < |b|
      ensures Fold(a)[i] == Fold(b)[i] <==> AlikeAt(a[i], b[i])
    {
      AlikeLetters(a[i], b[i]);
    }
  }

  /** The map with repeated keys: for each folded key the headers in the order they were put in. */
  type HeaderMap = map<string, seq<Token>>

  function ValuesOf(h: HeaderMap, f: string): seq<Token> { if f in h then h[f] else [] }

  predicate IsFor(t: Token, f: string) { t.Header? && Fold(t.key) == f }

  /** The headers of a key in a list. */
  function Listed(tokens: seq<Token>, f: string): seq<Token> {
    if tokens == [] then []
    else
      var last := tokens[|tokens| - 1];
      Listed(tokens[..|tokens| - 1], f) + (if IsFor(last, f) then [last] else [])
  }

  predicate Spelled(tokens: seq<Token>, key: string) {
    exists i :: 0 <= i < |tokens| && tokens[i].Header? && tokens[i].key == key
  }

  /** The item writes its key in a way no earlier item of the list does. */
  predicate NewlySpelled(tokens: seq<Token>, i: nat)
    requires i < |tokens|
  {
    tokens[i].Header? && !Spelled(tokens[..i], tokens[i].key)
  }

  predicate Mentions(tokens: seq<Token>, f: string) { exists i :: 0 <= i < |tokens| && IsFor(tokens[i], f) }

  /** A list mentions a key when one of its headers spells it in any way. */
  lemma MentionsExactly(tokens: seq<Token>, key: string)
    ensures Mentions(tokens, Fold(key)) <==>
            exists i :: 0 <= i < |tokens| && tokens[i].Header? && Alike(tokens[i].key, key)
  {
    forall i | 0 <= i < |tokens| && tokens[i].Header?
      ensures IsFor(tokens[i], Fold(key)) <==> Alike(tokens[i].key, key)
    {
      AlikeIff(tokens[i].key, key);
    }
  }

  /** What is left of a key after the list has been read in. */
  function Kept(tokens: seq<Token>, f: string, before: seq<Token>): seq<Token> {
    if tokens == [] then before
    else
      var i := |tokens| - 1;
      var earlier := Kept(tokens[..i], f, before);
      if !IsFor(tokens[i], f) then earlier
      else if NewlySpelled(tokens, i) then [tokens[i]]
      else earlier + [tokens[i]]
  }

  /** Item `i` is the last one for the key that is newly spelled. */
  ghost predicate LastNew(tokens: seq<Token>, f: string, i: nat) {
    && i < |tokens| && IsFor(tokens[i], f) && NewlySpelled(tokens, i)
    && forall j :: i < j < |tokens| && IsFor(tokens[j], f) ==> !NewlySpelled(tokens, j)
  }

  lemma {:induction false} ListedConcat(a: seq<Token>, b: seq<Token>, f: string)
    ensures Listed(a + b, f) == Listed(a, f) + Listed(b, f)
  {
    if b == [] {
      assert a + b == a;
    } else {
      assert (a + b)[..|a + b| - 1] == a + b[..|b| - 1];
      ListedConcat(a, b[..|b| - 1], f);
    }
  }

  lemma {:induction false} NotMentioned(tokens: seq<Token>, f: string, before: seq<Token>)
    requires !Mentions(tokens, f)
    ensures Kept(tokens, f, before) == before && Listed(tokens, f) == []
  {
    if tokens != [] {
      var i := |tokens| - 1;
      assert !IsFor(tokens[i], f);
      assert forall j :: 0 <= j < i ==> tokens[..i][j] == tokens[j];
      NotMentioned(tokens[..i], f, before);
    }
  }

  lemma Earlier(tokens: seq<Token>, n: nat, i: nat)
    requires i < n <= |tokens|
    ensures tokens[..n][i] == tokens[i] && (NewlySpelled(tokens[..n], i) <==> NewlySpelled(tokens, i))
  {
    assert tokens[..n][..i] == tokens[..i];
  }

  lemma EarlierLastNew(tokens: seq<Token>, f: string, i: nat)
    requires tokens != []
    requires LastNew(tokens[..|tokens| - 1], f, i)
    requires IsFor(tokens[|tokens| - 1], f) ==> !NewlySpelled(tokens, |tokens| - 1)
    ensures LastNew(tokens, f, i)
  {
    var n := |tokens| - 1;
    Earlier(tokens, n, i);
    forall j | i < j < |tokens| && IsFor(tokens[j], f)
      ensures !NewlySpelled(tokens, j)
    {
      if j < n {
        Earlier(tokens, n, j);
      }
    }
  }

  /** Of a key the list mentions, exactly the items from the last newly spelled one on are kept; nothing from before. */
  lemma {:induction false} KeptIsSuffix(tokens: seq<Token>, f: string, before: seq<Token>) returns (i: nat)
    requires Mentions(tokens, f)
    ensures LastNew(tokens, f, i) && Kept(tokens, f, before) == Listed(tokens[i..], f)
  {
    var n := |tokens| - 1;
    if IsFor(tokens[n], f) && NewlySpelled(tokens, n) {
      i := n;
      assert tokens[n..] == [tokens[n]];
    } else {
      i := KeptIsSuffix(tokens[..n], f, before);
      EarlierLastNew(tokens, f, i);
      assert tokens[i..] == tokens[..n][i..] + [tokens[n]];
      ListedConcat(tokens[..n][i..], [tokens[n]], f);
    }
  }

  /** All spellings of a key in the list are the same. */
  ghost predicate OneSpelling(tokens: seq<Token>, f: string) {
    forall i, j :: 0 <= i < j < |tokens| && IsFor(tokens[i], f) && IsFor(tokens[j], f) ==>
      tokens[i].key == tokens[j].key
  }

  lemma {:induction false} ListedCount(tokens: seq<Token>, f: string)
    ensures Listed(tokens, f) != [] <==> Mentions(tokens, f)
  {
    if tokens == [] {
    } else {
      var n := |tokens| - 1;
      ListedCount(tokens[..n], f);
      if Mentions(tokens[..n], f) {
        var i :| 0 <= i < n && IsFor(tokens[..n][i], f);
        assert IsFor(tokens[i], f);
      }
      if Mentions(tokens, f) {
        var i :| 0 <= i < |tokens| && IsFor(tokens[i], f);
        if i < n {
          assert IsFor(tokens[..n][i], f);
        }
      }
    }
  }

  lemma SplitListed(tokens: seq<Token>, f: string, i: nat)
    requires i <= |tokens|
    ensures Listed(tokens, f) == Listed(tokens[..i], f) + Listed(tokens[i..], f)
  {
    assert tokens == tokens[..i] + tokens[i..];
    ListedConcat(tokens[..i], tokens[i..], f);
  }

  /** A key with two spellings has a newly spelled item after its first one. */
  lemma LaterSpelling(tokens: seq<Token>, f: string, i: nat)
    requires LastNew(tokens, f, i) && !Mentions(tokens[..i], f)
    ensures OneSpelling(tokens, f)
  {
    forall j | 0 <= j < |tokens| && IsFor(tokens[j], f)
      ensures tokens[j].key == tokens[i].key
    {
      FirstSpelling(tokens, f, i, j);
    }
  }

  lemma {:induction false} FirstSpelling(tokens: seq<Token>, f: string, i: nat, j: nat)
    requires LastNew(tokens, f, i) && !Mentions(tokens[..i], f)
    requires j < |tokens| && IsFor(tokens[j], f)
    ensures tokens[j].key == tokens[i].key
    decreases j
  {
    if j > i {
      var k :| 0 <= k < j && tokens[..j][k].Header? && tokens[..j][k].key == tokens[j].key;
      assert tokens[..j][k] == tokens[k];
      FirstSpelling(tokens, f, i, k);
    }
  }

  /** All items of a key are kept exactly when the list spells it in one way only. */
  lemma AllKeptIff(tokens: seq<Token>, f: string, before: seq<Token>)
    requires Mentions(tokens, f)
    ensures Kept(tokens, f, before) == Listed(tokens, f) <==> OneSpelling(tokens, f)
  {
    var i := KeptIsSuffix(tokens, f, before);
    SplitListed(tokens, f, i);
    ListedCount(tokens[..i], f);
    if Mentions(tokens[..i], f) {
      var j :| 0 <= j < i && IsFor(tokens[..i][j], f);
      assert tokens[..i][j] == tokens[j];
    } else {
      LaterSpelling(tokens, f, i);
    }
  }

  lemma KeptStep(tokens: seq<Token>, i: nat, f: string, before: seq<Token>)
    requires i < |tokens|
    ensures Kept(tokens[..i + 1], f, before)
              == if !IsFor(tokens[i], f) then Kept(tokens[..i], f, before)
                 else if NewlySpelled(tokens, i) then [tokens[i]]
                 else Kept(tokens[..i], f, before) + [tokens[i]]
  {
    var next := tokens[..i + 1];
    assert next[..|next| - 1] == tokens[..i] && next[|next| - 1] == tokens[i];
  }

  /** The map after one header, dropping what its key had first if `anew`. */
  function PutHeader(h: HeaderMap, t: Token, anew: bool): HeaderMap
    requires t.Header?
  {
    h[Fold(t.key) := (if anew then [] else ValuesOf(h, Fold(t.key))) + [t]]
  }

  /** Reads one list into the map; `None` is a variable that is not set. */
  method DumpOtlpHeaders(output: HeaderMap, list: Option<seq<Token>>) returns (r: HeaderMap)
    ensures list.None? ==> r == output
    ensures list.Some? ==> forall f :: ValuesOf(r, f) == Kept(list.value, f, ValuesOf(output, f))
  {
    r := output;
    if list.None? {
      return;
    }
    var tokens := list.value;
    var removeCache: set<string>, i := {}, 0;
    while i < |tokens|
      invariant i <= |tokens|
      invariant forall key :: key in removeCache <==> Spelled(tokens[..i], key)
      invariant forall f :: ValuesOf(r, f) == Kept(tokens[..i], f, ValuesOf(output, f))
    {
      ghost var was := r;
      if tokens[i].Header? {
        var key := tokens[i].key;
        if key !in removeCache {
          r := r - {Fold(key)};
        }
        r := r[Fold(key) := ValuesOf(r, Fold(key)) + [tokens[i]]];
        assert r == PutHeader(was, tokens[i], key !in removeCache);
        removeCache := removeCache + {key};
      }
      forall f
        ensures ValuesOf(r, f) == Kept(tokens[..i + 1], f, ValuesOf(output, f))
      {
        KeptStep(tokens, i, f, ValuesOf(output, f));
        if tokens[i].Header? {
        }
      }
      forall key
        ensures key in removeCache <==> Spelled(tokens[..i + 1], key)
      {
      }
      i := i + 1;
    }
    assert tokens[..i] == tokens;
  }

  function ListOf(list: Option<seq<Token>>): seq<Token> { if list.Some? then list.value else [] }

  /** A key the signal's list mentions has values from that list only; any other key is as the generic list left it. */
  method GetHeaders(signal: Option<seq<Token>>, generic: Option<seq<Token>>) returns (r: HeaderMap)
    ensures forall f :: ValuesOf(r, f)
              == if Mentions(ListOf(signal), f) then Kept(ListOf(signal), f, []) else Kept(ListOf(generic), f, [])
  {
    var first := DumpOtlpHeaders(map[], generic);
    r := DumpOtlpHeaders(first, signal);
    forall f
      ensures ValuesOf(r, f)
              == if Mentions(ListOf(signal), f) then Kept(ListOf(signal), f, []) else Kept(ListOf(generic), f, [])
    {
      Overrides(ListOf(signal), f, ValuesOf(first, f));
    }
  }

  /** What was there before plays no part for a key the list mentions. */
  lemma Overrides(tokens: seq<Token>, f: string, before: seq<Token>)
    ensures Kept(tokens, f, before) == if Mentions(tokens, f) then Kept(tokens, f, []) else before
  {
    if Mentions(tokens, f) {
      var i := KeptIsSuffix(tokens, f, before);
      var j := KeptIsSuffix(tokens, f, []);
      assert i == j;
    } else {
      NotMentioned(tokens, f, before);
    }
  }
}
