/** Which span id the text of a segment id stands for, stated on the text itself. */
module SegmentIds {
  import opened Bytes
  import opened Hex
  import opened SpanIds
  import opened SpanTree
  import opened Text

  // ----- numbers in the text -----

  /** White space, a sign or none, digits, and what follows them. */
  datatype Numeral = Numeral(blanks: string, sign: string, digits: string, tail: string)

  ghost predicate Reads(s: string, n: Numeral) {
    && s == n.blanks + n.sign + n.digits + n.tail
    && (forall i :: 0 <= i < |n.blanks| ==> n.blanks[i] == ' ' || 9 <= n.blanks[i] as int <= 13)
    && (n.sign == "" || n.sign == "+" || n.sign == "-")
    && n.digits != "" && AllDigits(n.digits) && (n.tail != "" ==> !IsDigit(n.tail[0]))
  }

  function Value(n: Numeral): int
    requires AllDigits(n.digits)
  {
    if n.sign == "-" then 0 - DecimalValue(n.digits) else DecimalValue(n.digits)
  }

  predicate FitsLong(v: int) { -0x8000_0000_0000_0000 <= v <= 0x7FFF_FFFF_FFFF_FFFF }

  lemma {:induction false} SkipsBlanks(blanks: string, t: string)
    requires forall i :: 0 <= i < |blanks| ==> IsSpace(blanks[i])
    requires t != "" ==> !IsSpace(t[0])
    ensures SkipSpaces(blanks + t) == t
  {
    if blanks == "" {
      assert blanks + t == t;
    } else {
      assert (blanks + t)[1..] == blanks[1..] + t;
      SkipsBlanks(blanks[1..], t);
    }
  }

  lemma {:induction false} TakesDigits(digits: string, tail: string)
    requires AllDigits(digits) && (tail != "" ==> !IsDigit(tail[0]))
    ensures DigitPrefix(digits + tail) == digits
  {
    if digits == "" {
      assert digits + tail == tail;
    } else {
      assert (digits + tail)[1..] == digits[1..] + tail;
      TakesDigits(digits[1..], tail);
    }
  }

  /** What is left behind the white space. */
  lemma SignedStart(n: Numeral, t: string)
    requires Reads(n.blanks + t, n) && t == n.sign + n.digits + n.tail
    ensures t != "" && !IsSpace(t[0])
    ensures (t[0] == '-' || t[0] == '+') <==> n.sign != ""
    ensures (if n.sign != "" then t[1..] else t) == n.digits + n.tail
    ensures t[0] == '-' <==> n.sign == "-"
  {
    assert t[0] == (n.sign + n.digits)[0];
    assert n.sign + n.digits + n.tail == n.sign + (n.digits + n.tail);
  }

  /** A number that is there is read, unless it does not fit 64 bits. */
  lemma NumeralRead(s: string, n: Numeral)
    requires Reads(s, n)
    ensures StoL(s) == if FitsLong(Value(n)) then Some(Value(n)) else None
  {
    var t := n.sign + n.digits + n.tail;
    assert s == n.blanks + t;
    SignedStart(n, t);
    SkipsBlanks(n.blanks, t);
    TakesDigits(n.digits, n.tail);
  }

  lemma {:induction false} BlanksInFront(s: string) returns (blanks: string)
    ensures s == blanks + SkipSpaces(s)
    ensures forall i :: 0 <= i < |blanks| ==> IsSpace(blanks[i])
  {
    if s != "" && IsSpace(s[0]) {
      blanks := BlanksInFront(s[1..]);
      assert s == [s[0]] + s[1..];
      blanks := [s[0]] + blanks;
    } else {
      blanks := "";
    }
  }

  lemma SignInFront(t: string) returns (sign: string, rest: string)
    requires t != ""
    ensures t == sign + rest
    ensures t[0] == '-' || t[0] == '+' ==> sign == [t[0]] && rest == t[1..]
    ensures t[0] != '-' && t[0] != '+' ==> sign == "" && rest == t
  {
    if t[0] == '-' || t[0] == '+' {
      sign, rest := [t[0]], t[1..];
    } else {
      sign, rest := "", t;
    }
  }

  lemma SomethingRead(s: string) returns (n: Numeral)
    requires StoL(s).Some?
    ensures Reads(s, n)
  {
    var blanks := BlanksInFront(s);
    var t := SkipSpaces(s);
    var sign, rest := SignInFront(t);
    var tail := DigitPrefixSplits(rest);
    var digits := DigitPrefix(rest);
    assert digits != "";
    n := Numeral(blanks, sign, digits, tail);
    Joined(s, t, rest, n);
  }

  lemma Joined(s: string, t: string, rest: string, n: Numeral)
    requires s == n.blanks + t && t == n.sign + rest && rest == n.digits + n.tail
    ensures s == n.blanks + n.sign + n.digits + n.tail
  {
  }

  /** `stol` returns v exactly when the text starts, behind white space, with a signed number v that fits a long. */
  lemma StoLExactly(s: string, v: int)
    ensures StoL(s) == Some(v) <==> FitsLong(v) && exists n :: Reads(s, n) && Value(n) == v
  {
    if StoL(s) == Some(v) {
      var n := SomethingRead(s);
      NumeralRead(s, n);
    }
    if exists n :: Reads(s, n) && Value(n) == v {
      var n :| Reads(s, n) && Value(n) == v;
      NumeralRead(s, n);
    }
  }

  // ----- the dots -----

  predicate DotFree(s: string) { forall i :: 0 <= i < |s| ==> s[i] != '.' }

  lemma {:induction false} FirstDot(x: string, y: string)
    requires DotFree(x)
    ensures IndexOf(x + "." + y, '.') == Some(|x|)
  {
    if x != "" {
      assert (x + "." + y)[1..] == x[1..] + "." + y;
      FirstDot(x[1..], y);
    }
  }

  lemma {:induction false} LastDot(x: string, y: string)
    requires DotFree(y)
    ensures RFind(x + "." + y, '.') == Some(|x|)
  {
    var s := x + "." + y;
    if y != "" {
      assert s[..|s| - 1] == x + "." + y[..|y| - 1];
      LastDot(x, y[..|y| - 1]);
    }
  }

  lemma DottedIsNoNumber(x: string, y: string)
    ensures !IsUint128(x + "." + y)
  {
    assert (x + "." + y)[|x|] == '.';
  }

  lemma SameLow(x: int)
    ensures Le(x % 0x1_0000_0000, 4) == Le(x, 4)
  {
    FourBytes(x % 0x1_0000_0000, x);
  }

  lemma TwoDots(x: string, a: string, b: string)
    requires DotFree(x) && DotFree(b)
    ensures var s := x + "." + a + "." + b;
            && s == x + "." + (a + "." + b)
            && IndexOf(s, '.') == Some(|x|) && RFind(s, '.') == Some(|x| + 1 + |a|)
  {
    var s := x + "." + a + "." + b;
    assert s == x + "." + (a + "." + b);
    FirstDot(x, a + "." + b);
    LastDot(x + "." + a, b);
  }

  /** The two texts `stol` is given. */
  lemma TwoTexts(start: string, a: string, b: string)
    requires |start| == 32 && DotFree(start) && DotFree(b)
    ensures var s := start + "." + a + "." + b;
            && !IsUint128(s) && s[..32] == start
            && ParseTail(s) == (if StoL(a).None? || StoL(b).None? then Throws
                                else Triple(StoL(a).value, StoL(b).value))
  {
    var s := start + "." + a + "." + b;
    TwoDots(start, a, b);
    DottedIsNoNumber(start, a + "." + b);
    assert s[33..33 + |a|] == a && s[34 + |a|..] == b;
  }

  // ----- every kind of id -----

  /** A start, a number and a number: the first goes to bytes 4 to 7, the second to bytes 8 to 15. */
  lemma ThreePartId(start: string, a: string, m: Numeral, b: string, l: Numeral, span: int)
    requires |start| == 32 && DotFree(start) && DotFree(b)
    requires Reads(a, m) && FitsLong(Value(m)) && Reads(b, l) && FitsLong(Value(l))
    ensures var u := Xor(HexBytes(start), Le(span, 4) + Le(Value(m), 4) + Le(Value(l), 8));
            SpanId(start + "." + a + "." + b, span) == Id(Xor(u[..8], u[8..]))
  {
    TwoTexts(start, a, b);
    NumeralRead(a, m);
    NumeralRead(b, l);
    SameLow(span);
  }

  lemma PlainDigits(a: string)
    requires a != "" && AllDigits(a)
    ensures Reads(a, Numeral("", "", a, ""))
  {
    assert "" + "" + a + "" == a;
  }

  /** The form agents write: digits between and behind the dots. */
  lemma AgentId(start: string, a: string, b: string, span: int)
    requires |start| == 32 && DotFree(start) && a != "" && AllDigits(a) && b != "" && AllDigits(b)
    requires DecimalValue(a) < 0x8000_0000_0000_0000 && DecimalValue(b) < 0x8000_0000_0000_0000
    ensures var u := Xor(HexBytes(start), Le(span, 4) + Le(DecimalValue(a), 4) + Le(DecimalValue(b), 8));
            SpanId(start + "." + a + "." + b, span) == Id(Xor(u[..8], u[8..]))
  {
    PlainDigits(a);
    PlainDigits(b);
    ThreePartId(start, a, Numeral("", "", a, ""), b, Numeral("", "", b, ""), span);
  }

  /** If one of the two is no number that fits a long, an exception leaves the call. */
  lemma UnreadableId(start: string, a: string, b: string, span: int)
    requires |start| == 32 && DotFree(start) && DotFree(b)
    ensures SpanId(start + "." + a + "." + b, span) == Exception
            <==> !((exists m :: Reads(a, m) && FitsLong(Value(m))) && (exists l :: Reads(b, l) && FitsLong(Value(l))))
  {
    TwoTexts(start, a, b);
    ReadableIff(a);
    ReadableIff(b);
  }

  lemma ReadableIff(s: string)
    ensures StoL(s).Some? <==> exists n :: Reads(s, n) && FitsLong(Value(n))
  {
    if StoL(s).Some? {
      StoLExactly(s, StoL(s).value);
    } else if exists n :: Reads(s, n) && FitsLong(Value(n)) {
      var n :| Reads(s, n) && FitsLong(Value(n));
      NumeralRead(s, n);
    }
  }

  /** With a single dot the text between the dots is empty, which is no number. */
  lemma OneDotId(start: string, b: string, span: int)
    requires |start| == 32 && DotFree(start) && DotFree(b)
    ensures SpanId(start + "." + b, span) == Exception
  {
    DottedIsNoNumber(start, b);
    OneDotTail(start, b);
  }

  lemma OneDotTail(start: string, b: string)
    requires |start| == 32 && DotFree(start) && DotFree(b)
    ensures ParseTail(start + "." + b) == Throws
  {
    var s := start + "." + b;
    FirstDot(start, b);
    LastDot(start, b);
    assert s[33..33] == "";
    EmptyIsNoNumber();
  }

  lemma EmptyIsNoNumber()
    ensures StoL("") == None
  {
  }

  /** The first 32 characters alone. */
  lemma PlainId(s: string, span: int)
    requires |s| == 32 && !AllDigits(s)
    ensures var u := Xor(HexBytes(s), Le(span, 4) + seq(12, _ => 0));
            SpanId(s, span) == Id(Xor(u[..8], u[8..]))
  {
    assert s[..32] == s;
    SameLow(span);
    ZeroLe(4);
    ZeroLe(8);
    assert Le(span, 4) + Le(0, 4) + Le(0, 8) == Le(span, 4) + seq(12, _ => 0);
  }

  lemma ZeroLe(n: nat)
    ensures Le(0, n) == seq(n, _ => 0)
  {
    forall k | 0 <= k < n
      ensures ByteAt(0, k) == 0
    {
      ZeroBytes(k);
    }
  }

  /** Up to 40 digits are one number, cut to 128 bits: its low half goes to bytes 4 to 7, its high half to 8 to 15. */
  lemma NumberId(s: string, span: int)
    requires 32 <= |s| <= 40 && AllDigits(s)
    ensures var v := DecimalValue(s) % 0x1_0000_0000_0000_0000_0000_0000_0000_0000;
            var u := Le(span, 4) + Le(v, 4) + Le(v / 0x1_0000_0000_0000_0000, 8);
            SpanId(s, span) == Id(Xor(u[..8], u[8..]))
  {
    var v := DecimalValue(s) % 0x1_0000_0000_0000_0000_0000_0000_0000_0000;
    var o := Overlay(span % TWO32, v % TWO64, v / TWO64);
    SameLow(span);
    FourBytes(v % TWO64, v);
    LowOfHalf(v);
    XorWithZeros(o);
    assert ShapeOf(s) == Number(v);
  }

  lemma LowOfHalf(v: nat)
    ensures v % TWO64 % 0x1_0000_0000 == v % 0x1_0000_0000
  {
    assert v == TWO64 * (v / TWO64) + v % TWO64;
  }

  lemma XorWithZeros(o: Text8)
    requires |o| == 16
    ensures Xor(seq(16, _ => 0), o) == o
  {
    forall k | 0 <= k < 16
      ensures XorByte(0, o[k]) == o[k]
    {
      XorZero(o[k]);
    }
  }

  /** Anything else of more than 32 characters must have its first dot right behind them. */
  lemma MalformedId(s: string, span: int)
    requires |s| > 32 && !(|s| <= 40 && AllDigits(s)) && (s[32] != '.' || !DotFree(s[..32]))
    ensures SpanId(s, span) == Id([0, 0, 0, 0, 0, 0, 0, 0])
  {
    IndexOfFirst(s, '.');
    if !DotFree(s[..32]) {
      var i :| 0 <= i < 32 && s[..32][i] == '.';
      assert s[i] == '.';
    }
  }

  lemma ShortId(s: string, span: int)
    requires |s| < 32
    ensures SpanId(s, span) == NullSpan
  {
  }

  // ----- one id in figures -----

  predicate SmallStart(s: string) {
    |s| == 32 && s[0] == 'a' && s[1] == 'b' && forall i :: 2 <= i < 32 ==> s[i] == '0'
  }

  lemma SmallNumbers()
    ensures AllDigits("12") && DecimalValue("12") == 12
    ensures AllDigits("258") && DecimalValue("258") == 258
  {
  }

  lemma SmallLe(k: nat)
    requires k < 8
    ensures ByteAt(1, k) == (if k == 0 then 1 else 0) && ByteAt(12, k) == (if k == 0 then 12 else 0)
    ensures ByteAt(258, k) == if k == 0 then 2 else if k == 1 then 1 else 0
  {
    if k > 0 {
      ZeroBytes(k - 1);
    }
    if k > 1 {
      ZeroBytes(k - 2);
    }
  }

  lemma LastBit()
    ensures XorByte(0xab, 1) == 0xaa
  {
    assert Power2(7) == 128;
    XorBitsSymmetric(0x55, 0, 7);
    XorBitsZero(0x55, 7);
    assert XorBits(0xab, 1, 8) == 2 * XorBits(0x55, 0, 7);
  }

  lemma SecondBit()
    ensures XorByte(0xaa, 2) == 0xa8
  {
    assert Power2(6) == 64;
    XorBitsSymmetric(0x2a, 0, 6);
    XorBitsZero(0x2a, 6);
    assert XorBits(0x55, 1, 7) == 2 * XorBits(0x2a, 0, 6);
    assert XorBits(0xaa, 2, 8) == 2 * XorBits(0x55, 1, 7);
  }

  lemma SmallXor()
    ensures XorByte(0xab, 1) == 0xaa && XorByte(0, 2) == 2 && XorByte(0xaa, 2) == 0xa8
    ensures XorByte(0, 0) == 0 && XorByte(0, 1) == 1 && XorByte(12, 0) == 12 && XorByte(0, 12) == 12
  {
    LastBit();
    SecondBit();
    XorZero(0);
    XorZero(1);
    XorZero(2);
    XorZero(12);
    XorZeroRight(12);
  }

  lemma FoldedFrom(u: Text8, e: int, m: int, l: int, k: nat, a: Byte, low: Byte, b: Byte, high: Byte)
    requires |u| == 16 && k < 8 && u[k] == a && u[k + 8] == b && ByteAt(l, k) == high
    requires low == if k < 4 then ByteAt(e, k) else ByteAt(m, k - 4)
    ensures Fold(Xor(u, Overlay(e, m, l)))[k] == XorByte(XorByte(a, low), XorByte(b, high))
  {
    FoldedAt(u, e, m, l, k);
  }

  lemma SmallByte(u: Text8, k: nat)
    requires |u| == 16 && u[0] == 0xab && (forall j :: 1 <= j < 16 ==> u[j] == 0) && k < 8
    ensures Fold(Xor(u, Overlay(1, 12, 258)))[k]
            == if k == 0 then 0xa8 else if k == 1 then 1 else if k == 4 then 12 else 0
  {
    SmallLe(k);
    SmallLe(if k < 4 then k else k - 4);
    SmallXor();
    var low := if k == 0 then 1 else if k == 4 then 12 else 0;
    var high := if k == 0 then 2 else if k == 1 then 1 else 0;
    FoldedFrom(u, 1, 12, 258, k, if k == 0 then 0xab else 0, low, 0, high);
  }

  lemma SmallFold(u: Text8)
    requires |u| == 16 && u[0] == 0xab && forall j :: 1 <= j < 16 ==> u[j] == 0
    ensures Fold(Xor(u, Overlay(1, 12, 258))) == [0xa8, 1, 0, 0, 12, 0, 0, 0]
  {
    forall k | 0 <= k < 8
      ensures Fold(Xor(u, Overlay(1, 12, 258)))[k]
              == if k == 0 then 0xa8 else if k == 1 then 1 else if k == 4 then 12 else 0
    {
      SmallByte(u, k);
    }
  }

  lemma SmallBytes(s: string)
    requires SmallStart(s)
    ensures HexBytes(s)[0] == 0xab && forall j :: 1 <= j < 16 ==> HexBytes(s)[j] == 0
  {
    HexBytesRead(s, 0);
    forall j | 1 <= j < 16
      ensures HexBytes(s)[j] == 0
    {
      HexBytesRead(s, j);
    }
  }

  /** Byte 0 holds start, span number and last number together, byte 4 the middle number. */
  lemma SmallId(s: string)
    requires SmallStart(s)
    ensures SpanId(s + "." + "12" + "." + "258", 1) == Id([0xa8, 1, 0, 0, 12, 0, 0, 0])
  {
    SmallNumbers();
    SmallBytes(s);
    AgentId(s, "12", "258", 1);
    SmallFold(HexBytes(s));
  }
}
