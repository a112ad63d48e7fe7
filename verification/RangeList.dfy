/** Lists of values and ranges ("0,2-5,10-") turned into a bitmap, and counting its bits. */
module RangeList {
  import opened Arithmetic
  import opened Bytes
  import opened Numeration
  import opened Text

  // ----- bits -----

  predicate Bit(b: nat, k: nat)
    decreases k
  {
    if k == 0 then b % 2 == 1 else Bit(b / 2, k - 1)
  }

  /** Bit `k` is worth 2^k. */
  lemma {:induction false} BitMeans(b: nat, k: nat)
    ensures Bit(b, k) <==> b / Power2(k) % 2 == 1
    decreases k
  {
    if k > 0 {
      BitMeans(b / 2, k - 1);
      HalveThenDivide(b, Power2(k - 1));
    }
  }

  lemma HalveThenDivide(b: nat, m: nat)
    requires m >= 1
    ensures b / 2 / m == b / (2 * m)
  {
    var q, r := b / 2 / m, b / 2 % m;
    DivisionFacts(b / 2, m);
    assert b == 2 * (m * q) + (2 * r + b % 2);
    assert 2 * (m * q) == 2 * m * q;
    DivisionUnique(b, 2 * m, q, 2 * r + b % 2);
  }

  lemma {:induction false} BitOfOr(a: nat, b: nat, n: nat, k: nat)
    requires k < n
    ensures Bit(OrBits(a, b, n), k) <==> Bit(a, k) || Bit(b, k)
    decreases n
  {
    if k > 0 {
      BitOfOr(a / 2, b / 2, n - 1, k - 1);
    }
  }

  lemma {:induction false} BitOfZero(k: nat)
    ensures !Bit(0, k)
  {
    if k > 0 {
      BitOfZero(k - 1);
    }
  }

  lemma {:induction false} BitOfMask(j: nat, k: nat)
    ensures Bit(ShiftLeft(1, j), k) <==> j == k
  {
    if k > 0 && j > 0 {
      assert ShiftLeft(1, j) / 2 == ShiftLeft(1, j - 1);
      BitOfMask(j - 1, k - 1);
    } else if k > 0 {
      BitOfZero(k - 1);
    }
  }

  lemma {:induction false} MaskFits(j: nat, n: nat)
    requires j < n
    ensures ShiftLeft(1, j) < Power2(n)
  {
    if j > 0 {
      MaskFits(j - 1, n - 1);
    } else if n > 1 {
      MaskFits(0, n - 1);
    }
  }

  function Mask(k: nat): Byte
    requires k < 8
  {
    PowersOfTwo();
    MaskFits(k, 8);
    ShiftLeft(1, k)
  }

  predicate BitAt(b: Text8, p: nat) { p / 8 < |b| && Bit(b[p / 8], p % 8) }

  lemma OneBitSet(b: Text8, p: nat, q: nat)
    requires p / 8 < |b|
    ensures BitAt(b[p / 8 := OrByte(b[p / 8], Mask(p % 8))], q) <==> BitAt(b, q) || q == p
  {
    if q / 8 == p / 8 {
      BitOfOr(b[p / 8], Mask(p % 8), 8, q % 8);
      BitOfMask(p % 8, q % 8);
    }
  }

  /** The positions of the bits that are set. */
  ghost function BitSet(b: Text8): set<nat> {
    set p | 0 <= p < 8 * |b| && BitAt(b, p)
  }

  /** Positions of byte `i` at or above `k`, and everything before the byte: what has been counted. */
  ghost function Counted(b: Text8, i: nat, k: nat): set<nat>
    requires k <= 8
  {
    set p | 0 <= p < 8 * (i + 1) && BitAt(b, p) && (p < 8 * i || 8 * i + k <= p)
  }

  lemma CountOne(b: Text8, i: nat, k: nat)
    requires i < |b| && 1 <= k <= 8
    ensures Counted(b, i, k - 1) == Counted(b, i, k) + (if Bit(b[i], k - 1) then {8 * i + k - 1} else {})
    ensures |Counted(b, i, k - 1)| == |Counted(b, i, k)| + if Bit(b[i], k - 1) then 1 else 0
  {
    var p := 8 * i + k - 1;
    assert p / 8 == i && p % 8 == k - 1;
    assert BitAt(b, p) <==> Bit(b[i], k - 1);
    forall q: nat
      ensures q in Counted(b, i, k - 1) <==> q in Counted(b, i, k) || (q == p && BitAt(b, p))
    {
    }
    assert p !in Counted(b, i, k);
  }

  lemma NextByte(b: Text8, i: nat)
    ensures Counted(b, i, 0) == Counted(b, i + 1, 8)
  {
  }

  method CountBits(bitmap: array<Byte>) returns (nr: nat)
    ensures nr == |BitSet(bitmap[..])|
  {
    nr := 0;
    ghost var b := bitmap[..];
    assert Counted(b, 0, 8) == {};
    for i := 0 to bitmap.Length
      invariant nr == |Counted(b, i, 8)|
    {
      var k := 8;
      while k > 0
        invariant 0 <= k <= 8 && nr == |Counted(b, i, k)|
      {
        CountOne(b, i, k);
        if Bit(bitmap[i], k - 1) {
          nr := nr + 1;
        }
        k := k - 1;
      }
      NextByte(b, i);
    }
    assert Counted(b, |b|, 8) == BitSet(b);
  }

  // ----- numbers -----

  /** `atoi`: `strtol` clamped to 64 bits, then cut to 32. */
  function Atoi(s: string): int
    requires AllDigits(s)
  {
    var v := DecimalValue(s);
    var clamped := if v > 0x7FFF_FFFF_FFFF_FFFF then 0x7FFF_FFFF_FFFF_FFFF else v;
    var low := clamped % TWO32;
    if low >= 0x8000_0000 then low - TWO32 else low
  }

  /** Texts that are numbers stand for numbers an int can hold. */
  predicate FitsInt(s: string) { AllDigits(s) ==> DecimalValue(s) < 0x8000_0000 }

  /** Numbers up to 2^63 - 1 are cut to a signed 32-bit one, larger ones all read as -1. */
  lemma AtoiMeans(s: string)
    requires AllDigits(s)
    ensures -0x8000_0000 <= Atoi(s) < 0x8000_0000
    ensures DecimalValue(s) < 0x8000_0000_0000_0000 ==> (DecimalValue(s) - Atoi(s)) % 0x1_0000_0000 == 0
    ensures DecimalValue(s) >= 0x8000_0000_0000_0000 ==> Atoi(s) == -1
  {
  }

  lemma AtoiReads(s: string)
    requires AllDigits(s) && DecimalValue(s) < 0x8000_0000
    ensures Atoi(s) == DecimalValue(s)
  {
  }

  /** A single value: `None` is the error return, -1 the value of an empty text. */
  function ParseValstr(s: string, maxVal: nat): (r: Option<int>)
    ensures r.Some? ==> -1 <= r.value < maxVal && (r.value == -1 <==> s == "")
    ensures s != "" && FitsInt(s) ==> (r.Some? <==> AllDigits(s) && DecimalValue(s) < maxVal)
    ensures s != "" && FitsInt(s) && r.Some? ==> r.value == DecimalValue(s)
  {
    if s == "" then Some(-1)
    else if !AllDigits(s) then None
    else if Atoi(s) < 0 || Atoi(s) >= maxVal then None
    else Some(Atoi(s))
  }

  /** A value or a range, read from a copy of at most 15 characters when there is a dash. */
  function ParseRange(t: string, maxVal: nat): (r: Option<(nat, nat)>)
    ensures r.Some? ==> r.value.0 <= r.value.1 < maxVal
  {
    var range := if |t| < 16 then t else t[..15];
    var dash := IndexOf(range, '-');
    IndexOfFirst(range, '-');
    if dash.None? then
      var v := ParseValstr(t, maxVal);
      if v.None? || v.value < 0 then None else Some((v.value, v.value))
    else
      var low, high := ParseValstr(range[..dash.value], maxVal), ParseValstr(range[dash.value + 1..], maxVal);
      if low.None? || low.value < 0 || high.None? then None
      else
        var top := if high.value < 0 then maxVal - 1 else high.value;
        if top < low.value then None else Some((low.value, top))
  }

  predicate IsValue(t: string, maxVal: nat, v: nat) {
    t != "" && AllDigits(t) && DecimalValue(t) == v < maxVal
  }

  /** `t` is a range from `low` to `high`; an open end reaches up to the last value. */
  ghost predicate IsRange(t: string, maxVal: nat, low: nat, high: nat) {
    exists k :: 0 <= k < |t| && IsRangeAt(t, k, maxVal, low, high)
  }

  ghost predicate IsRangeAt(t: string, k: nat, maxVal: nat, low: nat, high: nat)
    requires k < |t|
  {
    && t[k] == '-' && IsValue(t[..k], maxVal, low) && low <= high
    && if t[k + 1..] == "" then high + 1 == maxVal else IsValue(t[k + 1..], maxVal, high)
  }

  /** What a token of ordinary length means: a value, or a range with an optional end. */
  lemma RangeMeaning(t: string, maxVal: nat, low: nat, high: nat)
    requires |t| <= 15 && FitsInt(t) && forall k :: 0 <= k < |t| ==> FitsInt(t[..k]) && FitsInt(t[k + 1..])
    ensures ParseRange(t, maxVal) == Some((low, high))
            <==> (IsValue(t, maxVal, low) && low == high) || IsRange(t, maxVal, low, high)
  {
    var dash := IndexOf(t, '-');
    IndexOfFirst(t, '-');
    if dash.None? {
      if AllDigits(t) {
        AtoiReads(t);
      }
    } else {
      var k := dash.value;
      assert !AllDigits(t);
      forall j | 0 <= j < |t| && IsRangeAt(t, j, maxVal, low, high)
        ensures j == k
      {
      }
      RangeAtMeaning(t, k, maxVal, low, high);
    }
  }

  lemma RangeAtMeaning(t: string, k: nat, maxVal: nat, low: nat, high: nat)
    requires |t| <= 15 && k < |t| && IndexOf(t, '-') == Some(k) && FitsInt(t[..k]) && FitsInt(t[k + 1..])
    ensures ParseRange(t, maxVal) == Some((low, high)) <==> IsRangeAt(t, k, maxVal, low, high)
  {
    IndexOfFirst(t, '-');
    if AllDigits(t[..k]) {
      AtoiReads(t[..k]);
    }
    if AllDigits(t[k + 1..]) {
      AtoiReads(t[k + 1..]);
    }
  }

  /** A token of more than 15 characters is cut to 15 if there is a dash among those, and is a value otherwise. */
  lemma LongTokens(t: string, maxVal: nat)
    requires |t| > 15
    ensures (exists i :: 0 <= i < 15 && t[i] == '-') ==> ParseRange(t, maxVal) == ParseRange(t[..15], maxVal)
    ensures (forall i :: 0 <= i < 15 ==> t[i] != '-') ==>
              ParseRange(t, maxVal)
              == if AllDigits(t) && 0 <= Atoi(t) < maxVal then Some((Atoi(t), Atoi(t))) else None
  {
    var range := t[..15];
    IndexOfFirst(range, '-');
    assert forall i :: 0 <= i < 15 ==> range[i] == t[i];
  }

  // ----- tokens -----

  function UpTo(s: string, c: char): (r: string)
    ensures |r| <= |s|
  {
    if s == "" || s[0] == c then "" else [s[0]] + UpTo(s[1..], c)
  }

  /** `strtok`: the non-empty pieces between commas. */
  function Tokens(s: string): seq<string> {
    if s == "" then []
    else if s[0] == ',' then Tokens(s[1..])
    else [UpTo(s, ',')] + Tokens(s[|UpTo(s, ',')|..])
  }

  predicate CommaFree(s: string) { forall i :: 0 <= i < |s| ==> s[i] != ',' }

  /** Commas between the tokens. */
  function JoinCommas(ts: seq<string>): string {
    if ts == [] then "" else if |ts| == 1 then ts[0] else ts[0] + "," + JoinCommas(ts[1..])
  }

  lemma {:induction false} UpToComma(t: string, rest: string)
    requires CommaFree(t)
    ensures UpTo(t + "," + rest, ',') == t && UpTo(t, ',') == t
  {
    if t != "" {
      assert (t + "," + rest)[1..] == t[1..] + "," + rest;
      UpToComma(t[1..], rest);
    }
  }

  lemma OneToken(t: string)
    requires t != "" && CommaFree(t)
    ensures Tokens(t) == [t]
  {
    UpToComma(t, "");
    assert t[|t|..] == "";
  }

  lemma FirstToken(t: string, rest: string)
    requires t != "" && CommaFree(t)
    ensures Tokens(t + "," + rest) == [t] + Tokens(rest)
  {
    var s := t + "," + rest;
    UpToComma(t, rest);
    assert s[0] == t[0];
    assert s[|t|..] == "," + rest;
    assert ("," + rest)[1..] == rest;
  }

  /** Tokens written with commas between them are found again. */
  lemma {:induction false} TokensOfJoined(ts: seq<string>)
    requires forall i :: 0 <= i < |ts| ==> ts[i] != "" && CommaFree(ts[i])
    ensures Tokens(JoinCommas(ts)) == ts
  {
    if |ts| == 1 {
      OneToken(ts[0]);
    } else if ts != [] {
      FirstToken(ts[0], JoinCommas(ts[1..]));
      TokensOfJoined(ts[1..]);
    }
  }

  /** Whether a token sets bit `p`: bit 0 belongs to the keyword, value v to bit v + 1. */
  predicate Selects(t: string, maxVal: nat, keyword: string, p: nat) {
    if t == keyword then p == 0
    else ParseRange(t, maxVal).Some? && ParseRange(t, maxVal).value.0 < p <= ParseRange(t, maxVal).value.1 + 1
  }

  predicate Accepted(t: string, maxVal: nat, keyword: string) {
    t == keyword || ParseRange(t, maxVal).Some?
  }

  ghost predicate AnySelects(ts: seq<string>, maxVal: nat, keyword: string, p: nat) {
    exists i :: 0 <= i < |ts| && Selects(ts[i], maxVal, keyword, p)
  }

  function BitmapSize(maxVal: nat): nat { (maxVal + 1) / 8 + 1 }

  /** `b` is `a` with the bits of `ts` added. */
  ghost predicate Added(a: Text8, b: Text8, ts: seq<string>, maxVal: nat, keyword: string) {
    |a| == |b| && forall p: nat :: BitAt(b, p) <==> BitAt(a, p) || AnySelects(ts, maxVal, keyword, p)
  }

  method SetBit(bitmap: array<Byte>, p: nat)
    requires p / 8 < bitmap.Length
    modifies bitmap
    ensures forall q: nat :: BitAt(bitmap[..], q) <==> BitAt(old(bitmap[..]), q) || q == p
  {
    ghost var before := bitmap[..];
    bitmap[p / 8] := OrByte(bitmap[p / 8], Mask(p % 8));
    forall q: nat
      ensures BitAt(bitmap[..], q) <==> BitAt(before, q) || q == p
    {
      OneBitSet(before, p, q);
    }
  }

  /** Sets the bits of one token, unless it is malformed. */
  method SetToken(bitmap: array<Byte>, t: string, maxVal: nat, keyword: string) returns (ok: bool)
    requires bitmap.Length >= BitmapSize(maxVal)
    modifies bitmap
    ensures ok == Accepted(t, maxVal, keyword)
    ensures !ok ==> bitmap[..] == old(bitmap[..])
    ensures ok ==> forall q: nat ::
                     BitAt(bitmap[..], q) <==> BitAt(old(bitmap[..]), q) || Selects(t, maxVal, keyword, q)
  {
    if t == keyword {
      SetBit(bitmap, 0);
      return true;
    }
    var range := ParseRange(t, maxVal);
    if range.None? {
      return false;
    }
    var i := range.value.0;
    while i <= range.value.1
      invariant range.value.0 <= i <= range.value.1 + 1
      invariant forall q: nat ::
                  BitAt(bitmap[..], q) <==> BitAt(old(bitmap[..]), q) || range.value.0 < q <= i
    {
      assert (i + 1) / 8 < BitmapSize(maxVal);
      SetBit(bitmap, i + 1);
      i := i + 1;
    }
    return true;
  }

  /** Sets the bits of a list. `done` tokens took effect: all of them on success, those in front of the first
      malformed one otherwise. */
  method ParseValues(arg: string, bitmap: array<Byte>, maxVal: nat, keyword: string) returns (rc: int, ghost done: nat)
    requires bitmap.Length >= BitmapSize(maxVal)
    modifies bitmap
    ensures arg == "ALL" ==>
              && rc == 0 && (forall p: nat :: p / 8 < (maxVal + 1) / 8 + 1 ==> BitAt(bitmap[..], p))
              && bitmap[(maxVal + 1) / 8 + 1..] == old(bitmap[(maxVal + 1) / 8 + 1..])
    ensures arg != "ALL" ==>
              && done <= |Tokens(arg)|
              && Added(old(bitmap[..]), bitmap[..], Tokens(arg)[..done], maxVal, keyword)
              && (forall i :: 0 <= i < done ==> Accepted(Tokens(arg)[i], maxVal, keyword))
              && rc == (if done == |Tokens(arg)| then 0 else 1)
              && (done < |Tokens(arg)| ==> !Accepted(Tokens(arg)[done], maxVal, keyword))
  {
    done := 0;
    if arg == "ALL" {
      FillBitmap(bitmap, BitmapSize(maxVal));
      return 0, done;
    }
    var ts := Tokens(arg);
    var n := 0;
    while n < |ts|
      invariant 0 <= n <= |ts|
      invariant Added(old(bitmap[..]), bitmap[..], ts[..n], maxVal, keyword)
      invariant forall i :: 0 <= i < n ==> Accepted(ts[i], maxVal, keyword)
    {
      ghost var before := bitmap[..];
      var ok := SetToken(bitmap, ts[n], maxVal, keyword);
      if !ok {
        return 1, n;
      }
      AddOne(old(bitmap[..]), before, bitmap[..], ts, n, maxVal, keyword);
      n := n + 1;
    }
    return 0, n;
  }

  lemma AddOne(a: Text8, b: Text8, c: Text8, ts: seq<string>, n: nat, maxVal: nat, keyword: string)
    requires n < |ts| && Added(a, b, ts[..n], maxVal, keyword) && |c| == |b|
    requires forall q: nat :: BitAt(c, q) <==> BitAt(b, q) || Selects(ts[n], maxVal, keyword, q)
    ensures Added(a, c, ts[..n + 1], maxVal, keyword)
  {
    forall p: nat
      ensures AnySelects(ts[..n + 1], maxVal, keyword, p)
              <==> AnySelects(ts[..n], maxVal, keyword, p) || Selects(ts[n], maxVal, keyword, p)
    {
      assert ts[..n + 1] == ts[..n] + [ts[n]];
      if AnySelects(ts[..n], maxVal, keyword, p) {
        var i :| 0 <= i < n && Selects(ts[..n][i], maxVal, keyword, p);
        assert Selects(ts[..n + 1][i], maxVal, keyword, p);
      }
      if Selects(ts[n], maxVal, keyword, p) {
        assert Selects(ts[..n + 1][n], maxVal, keyword, p);
      }
      if AnySelects(ts[..n + 1], maxVal, keyword, p) {
        var i :| 0 <= i < n + 1 && Selects(ts[..n + 1][i], maxVal, keyword, p);
        assert i < n ==> Selects(ts[..n][i], maxVal, keyword, p);
      }
    }
  }

  lemma {:induction false} AllOnes(k: nat, n: nat)
    requires k < n
    ensures Bit(Power2(n) - 1, k)
    decreases n
  {
    if k > 0 {
      assert (Power2(n) - 1) / 2 == Power2(n - 1) - 1;
      AllOnes(k - 1, n - 1);
    }
  }

  /** `memset` with ones. */
  method FillBitmap(bitmap: array<Byte>, n: nat)
    requires n <= bitmap.Length
    modifies bitmap
    ensures forall p: nat :: p / 8 < n ==> BitAt(bitmap[..], p)
    ensures bitmap[n..] == old(bitmap[n..])
  {
    for i := 0 to n
      invariant bitmap[n..] == old(bitmap[n..])
      invariant forall k :: 0 <= k < i ==> bitmap[k] == 255
    {
      bitmap[i] := 255;
    }
    forall p: nat | p / 8 < n
      ensures BitAt(bitmap[..], p)
    {
      PowersOfTwo();
      AllOnes(p % 8, 8);
    }
  }

  // ----- what the list selects, and how much of it -----

  /** The bits the tokens name. */
  ghost function Selection(ts: seq<string>, maxVal: nat, keyword: string): set<nat> {
    set p | 0 <= p <= maxVal && AnySelects(ts, maxVal, keyword, p)
  }

  lemma {:induction false} ZeroBits(a: Text8, p: nat)
    requires forall i :: 0 <= i < |a| ==> a[i] == 0
    ensures !BitAt(a, p)
  {
    BitOfZero(p % 8);
  }

  /** Starting from an empty bitmap, the bits set are the selection, so counting them gives its size. */
  lemma SelectionCounted(a: Text8, b: Text8, ts: seq<string>, maxVal: nat, keyword: string)
    requires forall i :: 0 <= i < |a| ==> a[i] == 0
    requires |a| >= BitmapSize(maxVal) && Added(a, b, ts, maxVal, keyword)
    ensures BitSet(b) == Selection(ts, maxVal, keyword)
    ensures |BitSet(b)| == |Selection(ts, maxVal, keyword)|
  {
    forall p: nat
      ensures p in BitSet(b) <==> p in Selection(ts, maxVal, keyword)
    {
      ZeroBits(a, p);
      if AnySelects(ts, maxVal, keyword, p) {
        assert p <= maxVal;
        assert p / 8 < |b|;
      }
    }
  }

  // ----- a list as it is written -----

  /** What a list is made of; an open range reaches up to the last value. */
  datatype Item = Keyword | Value(value: nat) | Closed(low: nat, high: nat) | Open(low: nat)

  function Written(i: Item, keyword: string): string {
    match i
    case Keyword => keyword
    case Value(v) => Ito10(v)
    case Closed(low, high) => Ito10(low) + "-" + Ito10(high)
    case Open(low) => Ito10(low) + "-"
  }

  function WrittenAll(items: seq<Item>, keyword: string): (ts: seq<string>)
    ensures |ts| == |items|
  {
    seq(|items|, i requires 0 <= i < |items| => Written(items[i], keyword))
  }

  /** The numbers are below the limit, in order, and the text fits the parser's copy. */
  predicate Fits(i: Item, maxVal: nat, keyword: string) {
    match i
    case Keyword => true
    case Value(v) => v < maxVal
    case Closed(low, high) => low <= high < maxVal && |Written(i, keyword)| <= 15
    case Open(low) => low < maxVal
  }

  /** Bit 0 is the keyword's, bit v + 1 that of value v. */
  predicate Picks(i: Item, maxVal: nat, p: nat) {
    match i
    case Keyword => p == 0
    case Value(v) => p == v + 1
    case Closed(low, high) => low < p <= high + 1
    case Open(low) => low < p <= maxVal
  }

  ghost predicate AnyPicks(items: seq<Item>, maxVal: nat, p: nat) {
    exists i :: 0 <= i < |items| && Picks(items[i], maxVal, p)
  }

  /** A keyword that cannot be taken for a number, for several tokens, or for the word for everything. */
  predicate KeywordLike(keyword: string) {
    keyword != "" && !IsDigit(keyword[0]) && CommaFree(keyword) && keyword != "ALL"
  }

  lemma NumberText(v: nat)
    requires v < 0x8000_0000
    ensures AllDigits(Ito10(v)) && Ito10(v) != "" && DecimalValue(Ito10(v)) == v && |Ito10(v)| <= 10
    ensures Atoi(Ito10(v)) == v && IndexOf(Ito10(v), '-') == None && CommaFree(Ito10(v))
  {
    Ito10Exact(v, Ito10(v));
    AtoiReads(Ito10(v));
    AtMostTenDigits(Ito10(v));
    NoDashIn(Ito10(v));
    forall i | 0 <= i < |Ito10(v)|
      ensures Ito10(v)[i] != ','
    {
      assert IsDigit(Ito10(v)[i]);
    }
  }

  lemma {:induction false} LongIsLarge(s: string)
    requires AllDigits(s) && s != "" && s[0] != '0'
    ensures Power10(|s| - 1) <= DecimalValue(s)
  {
    if |s| > 1 {
      LongIsLarge(s[..|s| - 1]);
    }
  }

  lemma AtMostTenDigits(s: string)
    requires Canonical(s) && DecimalValue(s) < 0x8000_0000
    ensures |s| <= 10
  {
    if |s| > 10 {
      LongIsLarge(s);
      TenDigitsHoldAWord();
      PowersGrow(10, |s| - 1);
    }
  }

  lemma {:induction false} PowersGrow(m: nat, n: nat)
    requires m <= n
    ensures Power10(m) <= Power10(n)
    decreases n
  {
    if m < n {
      PowersGrow(m, n - 1);
    }
  }

  lemma NoDashIn(s: string)
    requires AllDigits(s)
    ensures IndexOf(s, '-') == None
  {
    IndexOfFirst(s, '-');
    if IndexOf(s, '-').Some? {
    }
  }

  lemma DashAt(d: string, e: string)
    requires AllDigits(d)
    ensures IndexOf(d + "-" + e, '-') == Some(|d|)
  {
    var s := d + "-" + e;
    IndexOfFirst(s, '-');
    assert s[|d|] == '-';
    forall i | 0 <= i < |d|
      ensures s[i] != '-'
    {
      assert IsDigit(d[i]);
    }
  }

  lemma ValueParsed(v: nat, maxVal: nat)
    requires v < maxVal <= 0x8000_0000
    ensures ParseRange(Ito10(v), maxVal) == Some((v, v))
  {
    NumberText(v);
  }

  lemma RangeParsed(low: nat, e: string, high: nat, maxVal: nat)
    requires low <= high < maxVal <= 0x8000_0000 && |Ito10(low) + "-" + e| <= 15
    requires if e == "" then high + 1 == maxVal else e == Ito10(high)
    ensures ParseRange(Ito10(low) + "-" + e, maxVal) == Some((low, high))
  {
    var d := Ito10(low);
    var t := d + "-" + e;
    NumberText(low);
    NumberText(high);
    DashAt(d, e);
    assert t[..|d|] == d && t[|d| + 1..] == e;
    assert IsRangeAt(t, |d|, maxVal, low, high);
    RangeAtMeaning(t, |d|, maxVal, low, high);
  }

  /** A written item is a token that is accepted and selects what the item picks. */
  lemma ItemSelects(i: Item, maxVal: nat, keyword: string, p: nat)
    requires Fits(i, maxVal, keyword) && maxVal <= 0x8000_0000 && KeywordLike(keyword)
    ensures Accepted(Written(i, keyword), maxVal, keyword)
    ensures Selects(Written(i, keyword), maxVal, keyword, p) <==> Picks(i, maxVal, p)
  {
    ItemText(i, maxVal, keyword);
    match i {
      case Keyword =>
      case Value(v) => ValueParsed(v, maxVal);
      case Closed(low, high) =>
        NumberText(high);
        RangeParsed(low, Ito10(high), high, maxVal);
      case Open(low) =>
        NumberText(low);
        assert Ito10(low) + "-" + "" == Ito10(low) + "-";
        RangeParsed(low, "", maxVal - 1, maxVal);
    }
  }

  /** What every token of a list looks like: the keyword, or something that starts with a digit. */
  predicate TokenLike(t: string, keyword: string, isKeyword: bool) {
    t != "" && CommaFree(t) && t != "ALL" && (t == keyword <==> isKeyword)
  }

  lemma NumberToken(v: nat, e: string, keyword: string)
    requires v < 0x8000_0000 && CommaFree(e) && KeywordLike(keyword)
    ensures TokenLike(Ito10(v) + e, keyword, false)
  {
    NumberText(v);
    assert (Ito10(v) + e)[0] == Ito10(v)[0];
    assert IsDigit(Ito10(v)[0]);
    assert "ALL"[0] == 'A';
  }

  lemma DashThen(v: nat)
    requires v < 0x8000_0000
    ensures CommaFree("-" + Ito10(v))
  {
    NumberText(v);
  }

  lemma ItemText(i: Item, maxVal: nat, keyword: string)
    requires Fits(i, maxVal, keyword) && maxVal <= 0x8000_0000 && KeywordLike(keyword)
    ensures TokenLike(Written(i, keyword), keyword, i.Keyword?)
  {
    match i {
      case Keyword =>
      case Value(v) =>
        assert Ito10(v) + "" == Ito10(v);
        NumberToken(v, "", keyword);
      case Closed(low, high) =>
        assert Ito10(low) + "-" + Ito10(high) == Ito10(low) + ("-" + Ito10(high));
        DashThen(high);
        NumberToken(low, "-" + Ito10(high), keyword);
      case Open(low) => NumberToken(low, "-", keyword);
    }
  }

  lemma WrittenTokens(items: seq<Item>, maxVal: nat, keyword: string)
    requires (forall i :: 0 <= i < |items| ==> Fits(items[i], maxVal, keyword))
    requires maxVal <= 0x8000_0000 && KeywordLike(keyword)
    ensures var arg := JoinCommas(WrittenAll(items, keyword));
            Tokens(arg) == WrittenAll(items, keyword) && arg != "ALL"
  {
    var ts := WrittenAll(items, keyword);
    forall i | 0 <= i < |ts|
      ensures ts[i] != "" && CommaFree(ts[i]) && ts[i] != "ALL"
    {
      ItemText(items[i], maxVal, keyword);
    }
    TokensOfJoined(ts);
    assert CommaFree("ALL");
    OneToken("ALL");
  }

  lemma WrittenSelects(items: seq<Item>, maxVal: nat, keyword: string, p: nat)
    requires (forall i :: 0 <= i < |items| ==> Fits(items[i], maxVal, keyword))
    requires maxVal <= 0x8000_0000 && KeywordLike(keyword)
    ensures AnySelects(WrittenAll(items, keyword), maxVal, keyword, p) <==> AnyPicks(items, maxVal, p)
  {
    var ts := WrittenAll(items, keyword);
    forall i | 0 <= i < |items|
      ensures Selects(ts[i], maxVal, keyword, p) <==> Picks(items[i], maxVal, p)
    {
      ItemSelects(items[i], maxVal, keyword, p);
    }
  }

  ghost function Chosen(items: seq<Item>, maxVal: nat): set<nat> {
    set p | 0 <= p <= maxVal && AnyPicks(items, maxVal, p)
  }

  /** A list written from a keyword, values and ranges, read into an empty bitmap: exactly the bits of its items are
      set, and counting them gives their number. */
  method ReadWritten(ghost items: seq<Item>, arg: string, bitmap: array<Byte>, maxVal: nat, keyword: string)
    returns (rc: int, nr: nat)
    requires bitmap.Length >= BitmapSize(maxVal) && forall i :: 0 <= i < bitmap.Length ==> bitmap[i] == 0
    requires (forall i :: 0 <= i < |items| ==> Fits(items[i], maxVal, keyword))
    requires maxVal <= 0x8000_0000 && KeywordLike(keyword) && arg == JoinCommas(WrittenAll(items, keyword))
    modifies bitmap
    ensures rc == 0 && BitSet(bitmap[..]) == Chosen(items, maxVal) && nr == |Chosen(items, maxVal)|
  {
    ghost var zeros, ts := bitmap[..], WrittenAll(items, keyword);
    WrittenTokens(items, maxVal, keyword);
    ghost var done;
    rc, done := ParseValues(arg, bitmap, maxVal, keyword);
    forall i | 0 <= i < |ts|
      ensures Accepted(ts[i], maxVal, keyword)
    {
      ItemSelects(items[i], maxVal, keyword, 0);
    }
    assert ts[..|ts|] == ts;
    SelectionCounted(zeros, bitmap[..], ts, maxVal, keyword);
    forall p: nat
      ensures AnySelects(ts, maxVal, keyword, p) <==> AnyPicks(items, maxVal, p)
    {
      WrittenSelects(items, maxVal, keyword, p);
    }
    assert Selection(ts, maxVal, keyword) == Chosen(items, maxVal);
    nr := CountBits(bitmap);
  }
}
