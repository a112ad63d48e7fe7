/** The unit numbers in device names: decimal, and the zero-less ("bijective") radix 26 of disk letters. */
module Numeration {
  import opened Text

  const SYMBOLS10 := "0123456789"
  const SYMBOLS26 := "zabcdefghijklmnopqrstuvwxy"

  lemma DivisionShrinks(v: nat, radix: nat)
    requires 2 <= radix && 0 < v
    ensures 0 <= v / radix < v && 0 <= v % radix < radix
    ensures v % radix == 0 ==> 1 <= v / radix
  {
    var q := v / radix;
    assert v == radix * q + v % radix;
    if q > 0 {
      assert 2 * q <= radix * q;
    }
  }

  /** The number left over when the last symbol of `v` is taken off. */
  function Rest(radix: nat, nozero: bool, v: nat): (q: nat)
    requires 2 <= radix && 0 < v
    ensures q < v
  {
    DivisionShrinks(v, radix);
    if nozero && v % radix == 0 then v / radix - 1 else v / radix
  }

  /** The text of `v`; its last symbol is the least significant one. */
  function Digits(radix: nat, nozero: bool, syms: string, v: nat): string
    requires 2 <= radix == |syms|
    decreases v
  {
    if v == 0 then ""
    else
      DivisionShrinks(v, radix);
      Digits(radix, nozero, syms, Rest(radix, nozero, v)) + [syms[v % radix]]
  }

  /** The text for `val`: 32-bit, so the increment of the zero-less form can wrap. */
  function Numeral(radix: nat, nozero: bool, syms: string, val: nat): string
    requires 2 <= radix == |syms|
  {
    var v := (val + if nozero then 1 else 0) % TWO32;
    if v == 0 then (if nozero then "" else "0") else Digits(radix, nozero, syms, v)
  }

  function Power10(k: nat): nat {
    if k == 0 then 1 else 10 * Power10(k - 1)
  }

  lemma {:induction false} TenDigitsHoldAWord()
    ensures TWO32 <= Power10(10)
  {
    assert Power10(5) == 100_000 by {
      assert Power10(2) == 100;
      assert Power10(3) == 1_000;
      assert Power10(4) == 10_000;
    }
    assert Power10(6) == 1_000_000;
    assert Power10(7) == 10_000_000;
    assert Power10(8) == 100_000_000;
    assert Power10(9) == 1_000_000_000;
  }

  lemma TenTimesQuotient(v: nat, radix: nat)
    requires radix >= 10
    ensures 10 * (v / radix) <= v
  {
    var q := v / radix;
    assert radix * q <= v;
    assert (radix - 10) * q >= 0;
  }

  lemma QuotientFits(v: nat, radix: nat, room: nat)
    requires radix >= 10 && room >= 1 && v < Power10(room)
    ensures v / radix < Power10(room - 1)
  {
    TenTimesQuotient(v, radix);
  }

  lemma MoveSymbol(radix: nat, nozero: bool, syms: string, v: nat, written: string)
    requires 2 <= radix == |syms| && 0 < v
    ensures 0 <= v % radix < radix
    ensures Digits(radix, nozero, syms, v) + written
            == Digits(radix, nozero, syms, Rest(radix, nozero, v)) + ([syms[v % radix]] + written)
  {
    DivisionShrinks(v, radix);
  }

  lemma CellInFront(cells: seq<char>, p: nat, written: string)
    requires p < 16 < |cells| && cells[p + 1..16] == written
    ensures cells[p..16] == [cells[p]] + written
  {
  }

  /** Writes the text backwards into the 17 cells of `out`; cell 16 keeps the terminator. */
  method IocConv(out: array<char>, radix: nat, nozero: bool, syms: string, val: nat) returns (p: nat)
    requires out.Length == 17 && 10 <= radix == |syms| && val < TWO32
    modifies out
    ensures 6 <= p <= 16 && out[16] == '\0'
    ensures out[p..16] == Numeral(radix, nozero, syms, val)
  {
    out[16] := '\0';
    p := 16;
    var v: nat := (val + if nozero then 1 else 0) % TWO32;
    if v == 0 {
      if !nozero {
        p := p - 1;
        out[p] := '0';
      }
      return;
    }
    ghost var all := Digits(radix, nozero, syms, v);
    assert all == all + out[16..16];
    TenDigitsHoldAWord();
    while v > 0
      invariant 6 <= p <= 16 && v < Power10(p - 6)
      invariant out[16] == '\0'
      invariant all == Digits(radix, nozero, syms, v) + out[p..16]
    {
      ghost var u, before := v, out[p..16];
      QuotientFits(v, radix, p - 6);
      DivisionShrinks(v, radix);
      p := p - 1;
      var j := v % radix;
      out[p] := syms[j];
      v := v / radix;
      if nozero && j == 0 {
        v := v - 1;
      }
      CellInFront(out[..], p, before);
      MoveSymbol(radix, nozero, syms, u, before);
    }
    assert Digits(radix, nozero, syms, 0) == "";
  }

  // ----- decimal -----

  function Ito10(n: nat): string { Numeral(10, false, SYMBOLS10, n) }

  /** The decimal digits of `v`, without the special case for zero. */
  function Decimal(v: nat): string {
    if v == 0 then "" else Decimal(v / 10) + [('0' as int + v % 10) as char]
  }

  /** Decimal numerals as people write them: no leading zero except in "0" itself. */
  predicate Canonical(s: string) {
    AllDigits(s) && s != "" && (|s| > 1 ==> s[0] != '0')
  }

  lemma {:induction false} DigitsAreDecimal(radix: nat, syms: string, v: nat)
    requires radix == 10 == |syms|
    requires forall d :: 0 <= d < 10 ==> syms[d] as int == '0' as int + d
    ensures Digits(radix, false, syms, v) == Decimal(v)
  {
    if v > 0 {
      assert v / radix == v / 10 && v % radix == v % 10;
      DigitsAreDecimal(radix, syms, v / 10);
    }
  }

  lemma NumeralIsDecimal(radix: nat, syms: string, n: nat)
    requires n < TWO32 && radix == 10 == |syms|
    requires forall d :: 0 <= d < 10 ==> syms[d] as int == '0' as int + d
    ensures Numeral(radix, false, syms, n) == if n == 0 then "0" else Decimal(n)
  {
    assert (n + 0) % TWO32 == n;
    DigitsAreDecimal(radix, syms, n);
  }

  lemma Ito10Is(n: nat)
    requires n < TWO32
    ensures Ito10(n) == if n == 0 then "0" else Decimal(n)
  {
    NumeralIsDecimal(10, SYMBOLS10, n);
  }

  lemma ShiftIn(s: string, c: char)
    requires AllDigits(s) && IsDigit(c)
    ensures AllDigits(s + [c]) && DecimalValue(s + [c]) == 10 * DecimalValue(s) + DigitValue(c)
  {
    assert (s + [c])[..|s|] == s;
  }

  lemma {:induction false} DecimalReads(v: nat)
    ensures AllDigits(Decimal(v)) && DecimalValue(Decimal(v)) == v
    ensures v > 0 ==> Decimal(v) != "" && Decimal(v)[0] != '0'
  {
    if v > 0 {
      DecimalReads(v / 10);
      ShiftIn(Decimal(v / 10), ('0' as int + v % 10) as char);
    }
  }

  /** Without leading zeros a value has only one numeral. */
  lemma {:induction false} DecimalValueInjective(s: string, t: string)
    requires AllDigits(s) && AllDigits(t)
    requires (s != "" ==> s[0] != '0') && (t != "" ==> t[0] != '0')
    requires DecimalValue(s) == DecimalValue(t)
    ensures s == t
  {
    LeadingDigitCounts(s);
    LeadingDigitCounts(t);
    if s != "" && t != "" {
      var s', t' := s[..|s| - 1], t[..|t| - 1];
      assert s' != "" ==> s'[0] == s[0];
      assert t' != "" ==> t'[0] == t[0];
      DecimalValueInjective(s', t');
      assert s == s' + [s[|s| - 1]] && t == t' + [t[|t| - 1]];
    }
  }

  lemma {:induction false} LeadingDigitCounts(s: string)
    requires AllDigits(s) && (s != "" ==> s[0] != '0')
    ensures s != "" ==> DecimalValue(s) > 0
  {
    if |s| > 1 {
      LeadingDigitCounts(s[..|s| - 1]);
    }
  }

  /** Writing and reading decimal numerals undo each other. */
  lemma Ito10Exact(n: nat, s: string)
    requires n < TWO32
    ensures Ito10(n) == s <==> Canonical(s) && DecimalValue(s) == n
  {
    Ito10Is(n);
    DecimalReads(n);
    ShiftIn("", '0');
    assert "" + ['0'] == "0";
    if Canonical(s) && DecimalValue(s) == n {
      if s[0] == '0' {
        assert s == "0";
      } else {
        LeadingDigitCounts(s);
        DecimalValueInjective(s, Decimal(n));
      }
    }
  }

  // ----- letters -----

  function Ito26(n: nat): string { Numeral(26, true, SYMBOLS26, n) }

  /** The zero-less radix 26 text of `v`, a = 1 up to z = 26. */
  function Alpha(v: nat): string {
    if v == 0 then "" else Alpha((v - 1) / 26) + [('a' as int + (v - 1) % 26) as char]
  }

  predicate Letters(s: string) {
    forall i :: 0 <= i < |s| ==> 'a' <= s[i] <= 'z'
  }

  function LetterValue(c: char): (d: nat)
    requires 'a' <= c <= 'z'
    ensures 1 <= d <= 26
  {
    c as int - 'a' as int + 1
  }

  /** Reading letters as a zero-less radix 26 number. */
  function LettersValue(s: string): nat
    requires Letters(s)
  {
    if s == "" then 0 else 26 * LettersValue(s[..|s| - 1]) + LetterValue(s[|s| - 1])
  }

  lemma RestOfLetters(radix: nat, v: nat)
    requires radix == 26 && v > 0
    ensures Rest(radix, true, v) == (v - 1) / 26
    ensures v % radix == if (v - 1) % 26 == 25 then 0 else (v - 1) % 26 + 1
  {
    var w, q, r := v - 1, (v - 1) / 26, (v - 1) % 26;
    assert v == 26 * q + r + 1;
    if r == 25 {
      assert v / 26 == q + 1 && v % 26 == 0;
    } else {
      assert v / 26 == q && v % 26 == r + 1;
    }
  }

  predicate LetterSymbols(syms: string) {
    |syms| == 26 && syms[0] == 'z' && forall d :: 1 <= d < 26 ==> syms[d] as int == 'a' as int + d - 1
  }

  lemma {:induction false} DigitsAreAlpha(radix: nat, syms: string, v: nat)
    requires radix == 26 && LetterSymbols(syms)
    ensures Digits(radix, true, syms, v) == Alpha(v)
  {
    if v > 0 {
      RestOfLetters(radix, v);
      DigitsAreAlpha(radix, syms, (v - 1) / 26);
    }
  }

  lemma NumeralIsAlpha(radix: nat, syms: string, n: nat)
    requires n < TWO32 && radix == 26 && LetterSymbols(syms)
    ensures Numeral(radix, true, syms, n) == if n == TWO32 - 1 then "" else Alpha(n + 1)
  {
    if n < TWO32 - 1 {
      assert (n + 1) % TWO32 == n + 1;
      DigitsAreAlpha(radix, syms, n + 1);
    }
  }

  lemma Ito26Is(n: nat)
    requires n < TWO32
    ensures Ito26(n) == if n == TWO32 - 1 then "" else Alpha(n + 1)
  {
    NumeralIsAlpha(26, SYMBOLS26, n);
  }

  lemma {:induction false} AlphaReads(v: nat)
    ensures Letters(Alpha(v)) && LettersValue(Alpha(v)) == v
  {
    if v > 0 {
      var t, s := Alpha((v - 1) / 26), Alpha(v);
      AlphaReads((v - 1) / 26);
      assert s[..|s| - 1] == t;
    }
  }

  lemma {:induction false} LettersValueInjective(s: string, t: string)
    requires Letters(s) && Letters(t) && LettersValue(s) == LettersValue(t)
    ensures s == t
  {
    if s != "" && t != "" {
      var s', t' := s[..|s| - 1], t[..|t| - 1];
      LettersValueInjective(s', t');
      assert s == s' + [s[|s| - 1]] && t == t' + [t[|t| - 1]];
    }
  }

  /** A unit number and a non-empty word over a..z belong together exactly when the word reads as the
      number plus one. */
  lemma Ito26Exact(n: nat, s: string)
    requires n < TWO32 - 1
    ensures Ito26(n) == s <==> s != "" && Letters(s) && LettersValue(s) == n + 1
  {
    Ito26Is(n);
    AlphaReads(n + 1);
    if s != "" && Letters(s) && LettersValue(s) == n + 1 {
      LettersValueInjective(s, Alpha(n + 1));
    }
  }

  /** The only number without letters of its own is the largest one: the increment wraps to zero. */
  lemma Ito26Empty(n: nat)
    requires n < TWO32
    ensures Ito26(n) == "" <==> n == TWO32 - 1
  {
    Ito26Is(n);
    AlphaReads(n + 1);
  }

  /** Shorter first, then alphabetical: the order in which a listing of sda..sdz, sdaa.. is expected. */
  ghost predicate ShortLexLess(s: string, t: string) {
    |s| < |t| || (|s| == |t| && exists k :: 0 <= k < |s| && s[..k] == t[..k] && s[k] < t[k])
  }

  function Ones(len: nat): nat {
    if len == 0 then 0 else 26 * Ones(len - 1) + 1
  }

  lemma {:induction false} LengthBounds(s: string)
    requires Letters(s)
    ensures Ones(|s|) <= LettersValue(s) <= 26 * Ones(|s|)
  {
    if s != "" {
      LengthBounds(s[..|s| - 1]);
    }
  }

  lemma {:induction false} OnesGrow(m: nat, n: nat)
    requires m < n
    ensures 26 * Ones(m) < Ones(n)
  {
    if m + 1 < n {
      OnesGrow(m, n - 1);
    }
  }

  lemma {:induction false} SameLengthOrder(s: string, t: string)
    requires Letters(s) && Letters(t) && |s| == |t|
    decreases |s|
    ensures LettersValue(s) < LettersValue(t) ==> ShortLexLess(s, t)
    ensures LettersValue(s) == LettersValue(t) ==> s == t
  {
    if s != "" {
      var n := |s| - 1;
      var s', t' := s[..n], t[..n];
      SameLengthOrder(s', t');
      assert s == s' + [s[n]] && t == t' + [t[n]];
      if LettersValue(s) < LettersValue(t) {
        if LettersValue(s') < LettersValue(t') {
          var k :| 0 <= k < n && s'[..k] == t'[..k] && s'[k] < t'[k];
          assert s[..k] == s'[..k] && t[..k] == t'[..k];
          assert s[k] < t[k];
        } else {
          assert LettersValue(s') == LettersValue(t');
          assert s[..n] == t[..n] && s[n] < t[n];
        }
      }
    }
  }

  lemma PrefixesAgree(s: string, t: string, j: nat, k: nat)
    requires k < j <= |s| && j <= |t| && s[..j] == t[..j]
    ensures s[k] == t[k]
  {
    assert s[k] == s[..j][k];
  }

  lemma ShortLexAsymmetric(s: string, t: string)
    requires ShortLexLess(s, t)
    ensures !ShortLexLess(t, s) && s != t
  {
    if |s| == |t| {
      var k :| 0 <= k < |s| && s[..k] == t[..k] && s[k] < t[k];
      forall j | 0 <= j < |s| && t[..j] == s[..j]
        ensures !(t[j] < s[j])
      {
        if j < k {
          assert s[j] == s[..k][j] == t[..k][j] == t[j];
        } else if k < j {
          PrefixesAgree(s, t, j, k);
          assert false;
        }
      }
    }
  }

  /** Letters keep the numeric order. */
  lemma Ito26Monotone(m: nat, n: nat)
    requires m < TWO32 - 1 && n < TWO32 - 1
    ensures m < n <==> ShortLexLess(Ito26(m), Ito26(n))
  {
    var s, t := Ito26(m), Ito26(n);
    Ito26Exact(m, s);
    Ito26Exact(n, t);
    if m < n {
      Ito26Less(s, t);
    } else if n < m {
      Ito26Less(t, s);
      ShortLexAsymmetric(t, s);
    } else if ShortLexLess(s, t) {
      ShortLexAsymmetric(s, t);
    }
  }

  lemma Ito26Less(s: string, t: string)
    requires Letters(s) && Letters(t) && LettersValue(s) < LettersValue(t)
    ensures ShortLexLess(s, t)
  {
    LengthBounds(s);
    LengthBounds(t);
    if |t| < |s| {
      OnesGrow(|t|, |s|);
    } else if |s| == |t| {
      SameLengthOrder(s, t);
    }
  }
}
