/** Natural order of interface names: text, then trailing number, then numeric alias. */
module NaturalOrder {
  import opened Text
  import RangeList

  predicate IsCString(buf: seq<char>, s: string) {
    |s| < |buf| && buf[..|s|] == s && buf[|s|] == '\0' && forall i :: 0 <= i < |s| ==> s[i] != '\0'
  }

  /** A colon at `k` with nothing but digits, at least one, behind it. */
  predicate AliasAt(s: string, k: nat) {
    k + 1 < |s| && s[k] == ':' && AllDigits(s[k + 1..])
  }

  /** Where the alias starts, looking from the end; `None` when there is none. */
  function FindAlias(s: string, pos: nat): (r: Option<nat>)
    requires pos <= |s| && AllDigits(s[pos..])
    ensures r.Some? ==> AliasAt(s, r.value)
    ensures r.None? ==> forall k: nat :: !AliasAt(s, k)
  {
    if pos == 0 then None
    else if s[pos - 1] == ':' && pos < |s| then Some(pos - 1)
    else if !IsDigit(s[pos - 1]) then
      None
    else
      FindAlias(s, pos - 1)
  }

  /** Finds the alias and cuts it off by writing a terminator over the colon. */
  method CutAlias(name: array<char>, s: string) returns (alias: Option<nat>)
    requires IsCString(name[..], s)
    modifies name
    ensures FindAlias(s, |s|).None? ==> alias.None? && name[..] == old(name[..])
    ensures FindAlias(s, |s|).Some? ==>
              var k := FindAlias(s, |s|).value;
              alias == Some(k + 1) && name[..] == old(name[..])[k := '\0']
  {
    var digit := false;
    var pos := |s|;
    while pos > 0
      invariant 0 <= pos <= |s| && AllDigits(s[pos..]) && (digit <==> pos < |s|)
      invariant name[..] == old(name[..])
      invariant FindAlias(s, |s|) == FindAlias(s, pos)
    {
      assert name[pos - 1] == name[..|s|][pos - 1] == s[pos - 1];
      if name[pos - 1] == ':' && digit {
        name[pos - 1] := '\0';
        return Some(pos);
      }
      if !IsDigit(name[pos - 1]) {
        break;
      }
      digit := true;
      pos := pos - 1;
    }
    return None;
  }

  /** Where the trailing digits start. */
  function DigitsStart(s: string, pos: nat): (r: nat)
    requires pos <= |s| && AllDigits(s[pos..])
    ensures r <= pos && AllDigits(s[r..]) && (r == 0 || !IsDigit(s[r - 1]))
  {
    if pos == 0 || !IsDigit(s[pos - 1]) then pos
    else
      DigitsStart(s, pos - 1)
  }

  method RindexNondigit(name: array<char>, s: string) returns (r: nat)
    requires IsCString(name[..], s)
    ensures r == DigitsStart(s, |s|)
  {
    var pos := |s|;
    while pos > 0
      invariant 0 <= pos <= |s| && AllDigits(s[pos..]) && DigitsStart(s, |s|) == DigitsStart(s, pos)
    {
      assert name[pos - 1] == name[..|s|][pos - 1] == s[pos - 1];
      if !IsDigit(name[pos - 1]) {
        return pos;
      }
      pos := pos - 1;
    }
    return 0;
  }

  // ----- sort keys -----

  datatype Key = Key(text: string, number: int, alias: int)

  function Stem(s: string): string {
    match FindAlias(s, |s|) case None => s case Some(k) => s[..k]
  }

  /** The text in front of the trailing digits, and the digits. */
  function Split(stem: string): (string, string) {
    var at := DigitsStart(stem, |stem|);
    (stem[..at], stem[at..])
  }

  function AliasOf(s: string): int {
    match FindAlias(s, |s|) case None => -1 case Some(k) => RangeList.Atoi(s[k + 1..])
  }

  function NumberOf(stem: string): int {
    RangeList.Atoi(Split(stem).1)
  }

  function KeyOf(s: string): Key {
    Key(Split(Stem(s)).0, NumberOf(Stem(s)), AliasOf(s))
  }

  function Sign(x: int): int { if x < 0 then -1 else if x > 0 then 1 else 0 }

  /** Lexicographic comparison of texts by character codes. */
  function CompareText(a: string, b: string): int {
    if a == "" then (if b == "" then 0 else -1)
    else if b == "" then 1
    else if a[0] != b[0] then (if a[0] < b[0] then -1 else 1)
    else CompareText(a[1..], b[1..])
  }

  function CompareKeys(x: Key, y: Key): int {
    var t := CompareText(x.text, y.text);
    if t != 0 then t
    else if x.number != y.number then Sign(x.number - y.number)
    else Sign(x.alias - y.alias)
  }

  lemma {:induction false} CompareTextLaws(a: string, b: string)
    ensures CompareText(a, b) == -CompareText(b, a)
    ensures CompareText(a, b) == 0 <==> a == b
  {
    if a != "" && b != "" && a[0] == b[0] {
      CompareTextLaws(a[1..], b[1..]);
      assert a == [a[0]] + a[1..] && b == [b[0]] + b[1..];
    }
  }

  lemma {:induction false} CompareTextTransitive(a: string, b: string, c: string)
    requires CompareText(a, b) <= 0 && CompareText(b, c) <= 0
    ensures CompareText(a, c) <= 0
    ensures CompareText(a, c) == 0 ==> CompareText(a, b) == 0 && CompareText(b, c) == 0
  {
    if a != "" && b != "" && c != "" && a[0] == b[0] == c[0] {
      CompareTextTransitive(a[1..], b[1..], c[1..]);
    }
  }

  /** The comparison of keys is a total order on keys. */
  lemma KeysOrdered(x: Key, y: Key, z: Key)
    ensures CompareKeys(x, y) == -CompareKeys(y, x)
    ensures CompareKeys(x, y) == 0 <==> x == y
    ensures CompareKeys(x, y) <= 0 && CompareKeys(y, z) <= 0 ==> CompareKeys(x, z) <= 0
  {
    CompareTextLaws(x.text, y.text);
    CompareTextLaws(y.text, z.text);
    CompareTextLaws(x.text, z.text);
    if CompareText(x.text, y.text) <= 0 && CompareText(y.text, z.text) <= 0 {
      CompareTextTransitive(x.text, y.text, z.text);
    }
  }

  /** The order of names: a total preorder in which two names are equal exactly when their keys are. */
  lemma NamesOrdered(a: string, b: string, c: string)
    ensures CompareKeys(KeyOf(a), KeyOf(b)) == -CompareKeys(KeyOf(b), KeyOf(a))
    ensures CompareKeys(KeyOf(a), KeyOf(b)) == 0 <==> KeyOf(a) == KeyOf(b)
    ensures CompareKeys(KeyOf(a), KeyOf(b)) <= 0 && CompareKeys(KeyOf(b), KeyOf(c)) <= 0 ==>
              CompareKeys(KeyOf(a), KeyOf(c)) <= 0
  {
    KeysOrdered(KeyOf(a), KeyOf(b), KeyOf(c));
  }

  // ----- which of two names comes first -----

  /** The first difference is a smaller character, or `x` ends first. */
  ghost predicate TextBefore(x: string, y: string) {
    exists k :: 0 <= k < |y| && DiffersAt(x, y, k)
  }

  predicate DiffersAt(x: string, y: string, k: nat)
    requires k < |y|
  {
    k <= |x| && x[..k] == y[..k] && (k == |x| || x[k] < y[k])
  }

  ghost predicate KeyBefore(x: Key, y: Key) {
    || TextBefore(x.text, y.text)
    || (x.text == y.text && x.number < y.number)
    || (x.text == y.text && x.number == y.number && x.alias < y.alias)
  }

  lemma DiffersShift(x: string, y: string, k: nat)
    requires x != "" && y != "" && x[0] == y[0] && k + 1 < |y|
    ensures DiffersAt(x[1..], y[1..], k) <==> DiffersAt(x, y, k + 1)
  {
    if k + 1 <= |x| {
      assert x[..k + 1] == [x[0]] + x[1..][..k] && y[..k + 1] == [y[0]] + y[1..][..k];
      assert x[..k + 1][1..] == x[1..][..k] && y[..k + 1][1..] == y[1..][..k];
    }
  }

  lemma {:induction false} CompareTextIs(x: string, y: string)
    ensures CompareText(x, y) < 0 <==> TextBefore(x, y)
  {
    if y == "" {
    } else if x == "" || x[0] != y[0] {
      assert DiffersAt(x, y, 0) <==> x == "" || x[0] < y[0];
      assert forall k :: 1 <= k < |y| && k <= |x| ==> x[..k][0] == x[0] && y[..k][0] == y[0];
    } else {
      CompareTextIs(x[1..], y[1..]);
      forall k | 0 <= k < |y| - 1
        ensures DiffersAt(x[1..], y[1..], k) <==> DiffersAt(x, y, k + 1)
      {
        DiffersShift(x, y, k);
      }
      if TextBefore(x, y) {
        var k :| 0 <= k < |y| && DiffersAt(x, y, k);
        assert DiffersAt(x[1..], y[1..], k - 1);
      }
    }
  }

  /** Text first, then number, then alias; text in the order of the character codes. */
  lemma CompareKeysIs(x: Key, y: Key)
    ensures CompareKeys(x, y) < 0 <==> KeyBefore(x, y)
    ensures CompareKeys(x, y) > 0 <==> KeyBefore(y, x)
  {
    CompareTextIs(x.text, y.text);
    CompareTextIs(y.text, x.text);
    CompareTextLaws(x.text, y.text);
  }

  /** A name put together from its parts: the alias is absent or a number. */
  function Assemble(text: string, number: string, alias: Option<string>): string {
    text + number + match alias case None => "" case Some(x) => ":" + x
  }

  ghost predicate Parts(text: string, number: string, alias: Option<string>) {
    && AllDigits(number) && (text != "" ==> !IsDigit(text[|text| - 1]))
    && match alias
       case None => !exists k: nat :: AliasAt(text + number, k)
       case Some(x) => x != "" && AllDigits(x)
  }

  lemma AliasOfParts(base: string, alias: Option<string>, s: string)
    requires s == base + match alias case None => "" case Some(x) => ":" + x
    requires match alias
             case None => !exists k: nat :: AliasAt(base, k)
             case Some(x) => x != "" && AllDigits(x)
    ensures FindAlias(s, |s|) == if alias.None? then None else Some(|base|)
    ensures Stem(s) == base && (alias.Some? ==> AliasOf(s) == RangeList.Atoi(alias.value))
  {
    match alias {
      case None =>
        assert s == base;
      case Some(x) =>
        assert s[|base| + 1..] == x && s[..|base|] == base;
        assert AliasAt(s, |base|);
    }
  }

  lemma SplitOfParts(text: string, number: string)
    requires AllDigits(number) && (text != "" ==> !IsDigit(text[|text| - 1]))
    ensures Split(text + number) == (text, number)
  {
    var base := text + number;
    var at := DigitsStart(base, |base|);
    assert base == base[..at] + base[at..];
    TrailingDigitsUnique(base[..at], base[at..], text, number);
  }

  /** The key of an assembled name is made of its parts. */
  lemma KeyOfParts(text: string, number: string, alias: Option<string>)
    requires Parts(text, number, alias)
    requires RangeList.FitsInt(number) && (alias.Some? ==> RangeList.FitsInt(alias.value))
    ensures KeyOf(Assemble(text, number, alias))
            == Key(text, DecimalValue(number), if alias.None? then -1 else DecimalValue(alias.value))
  {
    var s := Assemble(text, number, alias);
    AliasOfParts(text + number, alias, s);
    SplitOfParts(text, number);
    assert KeyOf(s) == Key(text, RangeList.Atoi(number), AliasOf(s));
    RangeList.AtoiReads(number);
    if alias.Some? {
      RangeList.AtoiReads(alias.value);
    }
  }

  lemma NoAliasIn(text: string, number: string, k: nat)
    requires text != "" && !IsDigit(text[|text| - 1]) && text[|text| - 1] != ':' && AllDigits(number)
    ensures !AliasAt(text + number, k)
  {
    var s := text + number;
    assert s[|text| - 1] == text[|text| - 1];
    assert forall j :: |text| <= j < |s| ==> s[j] == number[j - |text|];
    assert k + 1 < |text| ==> s[k + 1..][|text| - 2 - k] == s[|text| - 1];
  }

  /** A missing number counts as zero: the two names are equal for the comparator. */
  lemma MissingNumberIsZero(text: string)
    requires text != "" && !IsDigit(text[|text| - 1]) && text[|text| - 1] != ':'
    ensures KeyOf(text) == KeyOf(text + "0") && CompareKeys(KeyOf(text), KeyOf(text + "0")) == 0
  {
    assert DecimalValue("") == 0 && DecimalValue("0") == 0;
    PlainKey(text, "");
    PlainKey(text, "0");
    assert text + "" == text;
    KeysOrdered(KeyOf(text), KeyOf(text + "0"), KeyOf(text));
  }

  lemma PlainKey(text: string, number: string)
    requires text != "" && !IsDigit(text[|text| - 1]) && text[|text| - 1] != ':'
    requires AllDigits(number) && DecimalValue(number) < 0x8000_0000
    ensures KeyOf(text + number) == Key(text, DecimalValue(number), -1)
  {
    forall k: nat
      ensures !AliasAt(text + number, k)
    {
      NoAliasIn(text, number, k);
    }
    KeyOfParts(text, number, None);
    assert Assemble(text, number, None) == text + number;
  }

  /** Names that differ in the trailing number only are in the order of the numbers, not of the digits. */
  lemma NumbersInOrder(text: string, m: string, n: string)
    requires text != "" && !IsDigit(text[|text| - 1]) && text[|text| - 1] != ':'
    requires AllDigits(m) && DecimalValue(m) < 0x8000_0000 && AllDigits(n) && DecimalValue(n) < 0x8000_0000
    ensures KeyBefore(KeyOf(text + m), KeyOf(text + n)) <==> DecimalValue(m) < DecimalValue(n)
  {
    PlainKey(text, m);
    PlainKey(text, n);
    CompareTextIs(text, text);
    CompareTextLaws(text, text);
  }

  lemma BridgesFirst()
    ensures KeyBefore(KeyOf("br0"), KeyOf("eth0"))
  {
    PlainKey("br", "0");
    PlainKey("eth", "0");
    assert "br" + "0" == "br0" && "eth" + "0" == "eth0";
    assert DiffersAt("br", "eth", 0);
  }

  lemma EthIsEth0()
    ensures KeyOf("eth") == KeyOf("eth0")
  {
    assert "eth" + "0" == "eth0";
    MissingNumberIsZero("eth");
  }

  /** The split point is the end of the name exactly when no digit is last. */
  lemma NoTrailingNumber(s: string)
    ensures DigitsStart(s, |s|) == |s| <==> s == "" || !IsDigit(s[|s| - 1])
  {
  }

  // ----- the comparison itself -----

  /** `strncmp`: the sign of the first difference within `n` characters. */
  method StrNCmp(a: array<char>, b: array<char>, n: nat, x: string, y: string) returns (r: int)
    requires n <= |x| && n <= |y| && |x| <= a.Length && |y| <= b.Length && a[..|x|] == x && b[..|y|] == y
    requires forall i :: 0 <= i < n ==> x[i] != '\0' && y[i] != '\0'
    ensures Sign(r) == CompareText(x[..n], y[..n])
  {
    var i := 0;
    while i < n
      invariant 0 <= i <= n && CompareText(x[..n], y[..n]) == CompareText(x[i..n], y[i..n])
    {
      assert a[i] == a[..|x|][i] && b[i] == b[..|y|][i];
      if a[i] != b[i] {
        return a[i] as int - b[i] as int;
      }
      assert x[i..n][1..] == x[i + 1..n] && y[i..n][1..] == y[i + 1..n];
      i := i + 1;
    }
    return 0;
  }

  /** Comparing up to the shorter length and then the lengths is comparing the texts. */
  lemma {:induction false} ShorterFirst(x: string, y: string)
    ensures var n := if |x| < |y| then |x| else |y|;
            CompareText(x, y) == if CompareText(x[..n], y[..n]) != 0 then CompareText(x[..n], y[..n])
                                 else Sign(|x| - |y|)
  {
    var n := if |x| < |y| then |x| else |y|;
    if x != "" && y != "" {
      ShorterFirst(x[1..], y[1..]);
      assert x[..n][1..] == x[1..][..n - 1] && y[..n][1..] == y[1..][..n - 1];
    }
  }

  method Duplicate(s: string) returns (buf: array<char>)
    requires forall i :: 0 <= i < |s| ==> s[i] != '\0'
    ensures fresh(buf) && buf.Length == |s| + 1 && IsCString(buf[..], s)
  {
    buf := new char[|s| + 1](i => if 0 <= i < |s| then s[i] else '\0');
    assert buf[..|s|] == s;
  }

  /** After the alias is cut off the buffer holds the stem; the alias stands untouched behind it. */
  lemma StemLeft(before: seq<char>, after: seq<char>, s: string)
    requires IsCString(before, s) && |before| == |s| + 1
    requires match FindAlias(s, |s|) case None => after == before case Some(k) => after == before[k := '\0']
    ensures IsCString(after, Stem(s)) && |Stem(s)| <= |s|
  {
    assert forall i :: 0 <= i < |s| ==> before[i] == before[..|s|][i] == s[i];
  }

  /** `atoi` on the alias, or -1. */
  method AliasNumber(s: string, alias: Option<nat>) returns (v: int)
    requires alias == match FindAlias(s, |s|) case None => None case Some(k) => Some(k + 1)
    ensures v == AliasOf(s)
  {
    v := -1;
    if alias.Some? {
      v := RangeList.Atoi(s[alias.value..]);
    }
  }

  /** Both stems and their split points: text first, then number. */
  method CompareStems(a: array<char>, b: array<char>, x: string, y: string) returns (res: int)
    requires IsCString(a[..], x) && IsCString(b[..], y)
    ensures Sign(res) == (if CompareText(Split(x).0, Split(y).0) != 0 then CompareText(Split(x).0, Split(y).0)
                          else Sign(NumberOf(x) - NumberOf(y)))
  {
    var aindex := RindexNondigit(a, x);
    var bindex := RindexNondigit(b, y);
    var complen := if aindex < bindex then aindex else bindex;
    res := StrNCmp(a, b, complen, x, y);
    ShorterFirst(x[..aindex], y[..bindex]);
    assert x[..aindex][..complen] == x[..complen] && y[..bindex][..complen] == y[..complen];
    if res != 0 {
      return res;
    }
    if aindex > bindex {
      return 1;
    }
    if aindex < bindex {
      return -1;
    }
    var av, bv := RangeList.Atoi(x[aindex..]), RangeList.Atoi(y[bindex..]);
    return if av < bv then -1 else if av > bv then 1 else 0;
  }

  method CompareAliases(ap: string, bp: string, aalias: Option<nat>, balias: Option<nat>) returns (res: int)
    requires aalias == match FindAlias(ap, |ap|) case None => None case Some(k) => Some(k + 1)
    requires balias == match FindAlias(bp, |bp|) case None => None case Some(k) => Some(k + 1)
    ensures Sign(res) == Sign(AliasOf(ap) - AliasOf(bp))
  {
    var av := AliasNumber(ap, aalias);
    var bv := AliasNumber(bp, balias);
    return if av < bv then -1 else if av > bv then 1 else 0;
  }

  lemma SignMeans(res: int, x: Key, y: Key)
    requires Sign(res) == CompareKeys(x, y)
    ensures res < 0 <==> KeyBefore(x, y)
    ensures res == 0 <==> x == y
  {
    CompareKeysIs(x, y);
    KeysOrdered(x, y, x);
  }

  /** The comparator sorts by key. */
  method NStrCmp(ap: string, bp: string) returns (res: int)
    requires forall i :: 0 <= i < |ap| ==> ap[i] != '\0'
    requires forall i :: 0 <= i < |bp| ==> bp[i] != '\0'
    ensures res < 0 <==> KeyBefore(KeyOf(ap), KeyOf(bp))
    ensures res == 0 <==> KeyOf(ap) == KeyOf(bp)
    ensures Sign(res) == CompareKeys(KeyOf(ap), KeyOf(bp))
  {
    var a := Duplicate(ap);
    var b := Duplicate(bp);
    ghost var a0, b0 := a[..], b[..];
    var aalias := CutAlias(a, ap);
    var balias := CutAlias(b, bp);
    var x, y := Stem(ap), Stem(bp);
    StemLeft(a0, a[..], ap);
    StemLeft(b0, b[..], bp);
    res := CompareStems(a, b, x, y);
    if res == 0 {
      res := CompareAliases(ap, bp, aalias, balias);
    }
    SignMeans(res, KeyOf(ap), KeyOf(bp));
  }
}
