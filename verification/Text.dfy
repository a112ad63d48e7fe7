/** Characters, decimal numerals and small sequence facts used by several components. */
module Text {
  datatype Option<+T> = None | Some(value: T)

  const TWO32: nat := 0x1_0000_0000
  const TWO64: nat := 0x1_0000_0000_0000_0000

  predicate IsDigit(c: char) {
    '0' <= c <= '9'
  }

  function DigitValue(c: char): (d: nat)
    requires IsDigit(c)
    ensures d < 10
  {
    c as int - '0' as int
  }

  predicate AllDigits(s: string) {
    forall i :: 0 <= i < |s| ==> IsDigit(s[i])
  }

  predicate DigitFree(s: string) {
    forall i :: 0 <= i < |s| ==> !IsDigit(s[i])
  }

  /** The number a string of decimal digits denotes, most significant digit first. */
  function DecimalValue(s: string): nat
    requires AllDigits(s)
  {
    if s == [] then 0 else 10 * DecimalValue(s[..|s| - 1]) + DigitValue(s[|s| - 1])
  }

  /** Two splits of one string, each a digit-free part followed by digits, are the same split. */
  lemma TrailingDigitsUnique(a: string, d: string, b: string, e: string)
    requires a + d == b + e
    requires AllDigits(d) && AllDigits(e)
    requires a == [] || !IsDigit(a[|a| - 1])
    requires b == [] || !IsDigit(b[|b| - 1])
    ensures a == b && d == e
  {
    var s := a + d;
    assert forall k :: |a| <= k < |s| ==> s[k] == d[k - |a|];
    assert forall k :: |b| <= k < |s| ==> s[k] == e[k - |b|];
    assert a != [] ==> s[|a| - 1] == a[|a| - 1];
    assert b != [] ==> s[|b| - 1] == b[|b| - 1];
    assert |a| == |b|;
    assert a == s[..|a|] && b == s[..|b|];
    assert d == s[|a|..] && e == s[|b|..];
  }

  /** Two splits of one string, each digits followed by a part that does not start with a digit, are the same split. */
  lemma LeadingDigitsUnique(a: string, r: string, b: string, q: string)
    requires a + r == b + q
    requires AllDigits(a) && AllDigits(b)
    requires r == [] || !IsDigit(r[0])
    requires q == [] || !IsDigit(q[0])
    ensures a == b && r == q
  {
    var s := a + r;
    assert forall k :: 0 <= k < |a| ==> s[k] == a[k];
    assert forall k :: 0 <= k < |b| ==> s[k] == b[k];
    assert r != [] ==> s[|a|] == r[0];
    assert q != [] ==> s[|b|] == q[0];
    assert |a| == |b|;
    assert a == s[..|a|] && b == s[..|b|];
    assert r == s[|a|..] && q == s[|b|..];
  }

  /** The place of the first `c`. */
  function IndexOf(s: string, c: char): Option<nat> {
    if s == "" then None
    else if s[0] == c then Some(0)
    else match IndexOf(s[1..], c) case None => None case Some(k) => Some(k + 1)
  }

  lemma {:induction false} IndexOfFirst(s: string, c: char)
    ensures IndexOf(s, c).None? ==> forall i :: 0 <= i < |s| ==> s[i] != c
    ensures IndexOf(s, c).Some? ==>
              && IndexOf(s, c).value < |s| && s[IndexOf(s, c).value] == c
              && forall i :: 0 <= i < IndexOf(s, c).value ==> s[i] != c
  {
    if s != "" && s[0] != c {
      IndexOfFirst(s[1..], c);
      assert forall i :: 1 <= i < |s| ==> s[i] == s[1..][i - 1];
    }
  }

  predicate IsUpper(c: char) { 'A' <= c <= 'Z' }

  /** `tolower` in the "C" locale. */
  function Lower(c: char): (r: char)
    ensures !IsUpper(r)
  {
    if IsUpper(c) then c + 32 as char else c
  }

  /** The digits a text starts with. */
  function DigitPrefix(s: string): (r: string)
    ensures AllDigits(r)
  {
    if s != "" && IsDigit(s[0]) then [s[0]] + DigitPrefix(s[1..]) else ""
  }

  /** They are followed by a non-digit, if anything follows. */
  lemma {:induction false} DigitPrefixSplits(s: string) returns (rest: string)
    ensures s == DigitPrefix(s) + rest
    ensures rest != "" ==> !IsDigit(rest[0])
  {
    if s != "" && IsDigit(s[0]) {
      rest := DigitPrefixSplits(s[1..]);
      assert s == [s[0]] + s[1..];
    } else {
      rest := s;
    }
  }
}
