/** Hexadecimal digits and bytes. */
module Hex {
  import opened Bytes
  import opened Text

  predicate IsHex(c: char) {
    '0' <= c <= '9' || 'A' <= c <= 'F' || 'a' <= c <= 'f'
  }

  function FromHex(c: char): int {
    if '0' <= c <= '9' then c as int - '0' as int
    else if 'A' <= c <= 'F' then c as int - 'A' as int + 10
    else if 'a' <= c <= 'f' then c as int - 'a' as int + 10
    else -1
  }

  /** The branch-free digit decoder: a signed char is widened to 32 bits and the sum cut to one byte. */
  function ChexFromXDigit(c: char): Byte
  {
    var code := c as int % 256;
    var h := if code < 128 then code else TWO32 - 256 + code;
    (h % 16 + h / 64 * 9) % 256
  }

  lemma DecodersAgreeBelow128(c: char)
    requires c as int < 128
    ensures IsHex(c) <==> FromHex(c) == ChexFromXDigit(c)
  {
    var n := c as int;
    ChexOfCode(n);
    assert ChexFromXDigit(c) == (n % 16 + n / 64 * 9) % 256;
  }

  /** The two decoders agree exactly on hexadecimal digits. */
  lemma DecodersAgree(c: char)
    ensures IsHex(c) <==> FromHex(c) == ChexFromXDigit(c)
  {
    if c as int < 128 {
      DecodersAgreeBelow128(c);
    }
  }

  /** What any character is decoded to, hexadecimal or not: the shift by six copies the sign of the signed character. */
  lemma AnyDigitDecoded(c: char)
    ensures var code := c as int % 256;
            ChexFromXDigit(c) == (code % 16 + 9 * (code / 64 - if code < 128 then 0 else 4)) % 256
  {
    var code := c as int % 256;
    if code >= 128 {
      WideCode(code, code / 64);
    }
  }

  lemma WideCode(code: nat, q: nat)
    requires 128 <= code < 256 && q == code / 64
    ensures ((TWO32 - 256 + code) % 16 + (TWO32 - 256 + code) / 64 * 9) % 256 == (code % 16 + 9 * (q - 4)) % 256
  {
    var h := TWO32 - 256 + code;
    WideParts(code);
    SameByte(h % 16 + h / 64 * 9, code % 16 + 9 * (q - 4));
  }

  lemma WideParts(code: nat)
    requires 128 <= code < 256
    ensures (0x1_0000_0000 - 256 + code) % 16 == code % 16
    ensures (0x1_0000_0000 - 256 + code) / 64 == code / 64 + 0x3FF_FFFC
  {
  }

  lemma SameByte(x: int, y: int)
    requires x == y + 0x2400_0000
    ensures x % 256 == y % 256
  {
  }

  lemma ChexOfCode(n: nat)
    requires n < 128
    ensures 48 <= n <= 57 ==> (n % 16 + n / 64 * 9) % 256 == n - 48
    ensures 65 <= n <= 70 ==> (n % 16 + n / 64 * 9) % 256 == n - 55
    ensures 97 <= n <= 102 ==> (n % 16 + n / 64 * 9) % 256 == n - 87
  {
    var q, r := n / 16, n % 16;
    assert n == 16 * q + r && 0 <= q < 8;
    assert n / 64 == q / 4;
  }

  function ToHexLower(v: nat): char {
    var d := v % 16;
    if d < 10 then ('0' as int + d) as char else ('a' as int + d - 10) as char
  }

  /** `(hi << 4) | lo`, cut to one byte. */
  function PairByte(hi: Byte, lo: Byte): Byte {
    OrByte(hi * 16 % 256, lo)
  }

  lemma ShiftLeft4(h: nat)
    ensures ShiftLeft(h, 4) == 16 * h
  {
    assert ShiftLeft(h, 1) == 2 * h;
    assert ShiftLeft(h, 2) == 4 * h;
    assert ShiftLeft(h, 3) == 8 * h;
  }

  lemma OrNibbles(hi: nat, lo: nat)
    requires hi < 16 && lo < 16
    ensures OrBits(16 * hi, lo, 8) == 16 * hi + lo
  {
    assert Power2(4) == 16;
    ShiftLeft4(hi);
    OrFillsLowBits(hi, lo, 4, 8);
  }

  lemma PairByteDigits(hi: Byte, lo: Byte)
    requires hi < 16 && lo < 16
    ensures PairByte(hi, lo) == 16 * hi + lo
  {
    var a := 16 * hi;
    assert hi * 16 % 256 == a by { assert hi * 16 == a && a < 256; }
    OrNibbles(hi, lo);
  }

  /** The bytes written for a text of hexadecimal digits, two characters each. */
  function HexBytes(s: string): (r: Text8)
    requires |s| % 2 == 0
    ensures |r| == |s| / 2
  {
    seq(|s| / 2, i requires 0 <= i < |s| / 2 =>
      PairByte(ChexFromXDigit(s[2 * i]), ChexFromXDigit(s[2 * i + 1])))
  }

  function HexText(b: Text8): (s: string)
    ensures |s| == 2 * |b|
  {
    seq(2 * |b|, k requires 0 <= k < 2 * |b| => ToHexLower(if k % 2 == 0 then b[k / 2] / 16 else b[k / 2]))
  }

  lemma DigitWritten(c: char)
    requires IsHex(c)
    ensures 0 <= FromHex(c) < 16 && ToHexLower(FromHex(c)) == Lower(c)
  {
    var d := FromHex(c);
    assert 'a' <= c <= 'f' ==> d == c as int - 'a' as int + 10;
    assert 'A' <= c <= 'F' ==> d == c as int - 'A' as int + 10;
  }

  lemma DigitRoundTrip(c: char)
    requires IsHex(c)
    ensures ChexFromXDigit(c) < 16 && ToHexLower(ChexFromXDigit(c)) == Lower(c)
  {
    DecodersAgree(c);
    DigitWritten(c);
  }

  lemma ByteRoundTrip(c: char, d: char)
    requires IsHex(c) && IsHex(d)
    ensures var b := PairByte(ChexFromXDigit(c), ChexFromXDigit(d));
            ToHexLower(b / 16) == Lower(c) && ToHexLower(b) == Lower(d)
  {
    DigitRoundTrip(c);
    DigitRoundTrip(d);
    var hi, lo := ChexFromXDigit(c), ChexFromXDigit(d);
    PairByteDigits(hi, lo);
    TwoDigits(hi, lo, PairByte(hi, lo));
  }

  lemma TwoDigits(hi: nat, lo: nat, b: nat)
    requires hi < 16 && lo < 16 && b == 16 * hi + lo
    ensures ToHexLower(b / 16) == ToHexLower(hi) && ToHexLower(b) == ToHexLower(lo)
  {
    assert b / 16 == hi && b % 16 == lo;
  }

  lemma HexByteAt(s: string, k: nat)
    requires |s| % 2 == 0 && k < |s|
    ensures k % 2 == 0 ==> HexBytes(s)[k / 2] == PairByte(ChexFromXDigit(s[k]), ChexFromXDigit(s[k + 1]))
    ensures k % 2 == 1 ==> HexBytes(s)[k / 2] == PairByte(ChexFromXDigit(s[k - 1]), ChexFromXDigit(s[k]))
  {
    HexPairAt(s, k / 2);
    assert k == 2 * (k / 2) + k % 2;
  }

  lemma PairInside(n: nat, j: nat)
    requires n % 2 == 0 && 2 * j < n
    ensures j < n / 2 && 2 * j + 1 < n
  {
  }

  lemma HexPairAt(s: string, j: nat)
    requires |s| % 2 == 0 && 2 * j < |s|
    ensures j < |HexBytes(s)| && 2 * j + 1 < |s|
    ensures HexBytes(s)[j] == PairByte(ChexFromXDigit(s[2 * j]), ChexFromXDigit(s[2 * j + 1]))
  {
    PairInside(|s|, j);
  }

  /** Each byte is what its two digits stand for, the first digit the high half. */
  lemma HexBytesRead(s: string, j: nat)
    requires |s| % 2 == 0 && 2 * j < |s| && IsHex(s[2 * j]) && IsHex(s[2 * j + 1])
    ensures j < |s| / 2 && HexBytes(s)[j] == 16 * FromHex(s[2 * j]) + FromHex(s[2 * j + 1])
  {
    HexPairAt(s, j);
    DigitRoundTrip(s[2 * j]);
    DigitRoundTrip(s[2 * j + 1]);
    DecodersAgree(s[2 * j]);
    DecodersAgree(s[2 * j + 1]);
    PairByteDigits(ChexFromXDigit(s[2 * j]), ChexFromXDigit(s[2 * j + 1]));
  }

  lemma HexTextAt(b: Text8, k: nat)
    requires k < 2 * |b|
    ensures HexText(b)[k] == ToHexLower(if k % 2 == 0 then b[k / 2] / 16 else b[k / 2])
  {
  }

  /** Decoding an even number of hexadecimal digits and writing the bytes again gives the text in lower case. */
  lemma HexRoundTrip(s: string)
    requires |s| % 2 == 0 && forall i :: 0 <= i < |s| ==> IsHex(s[i])
    ensures HexText(HexBytes(s)) == seq(|s|, i requires 0 <= i < |s| => Lower(s[i]))
  {
    forall k | 0 <= k < |s|
      ensures HexText(HexBytes(s))[k] == Lower(s[k])
    {
      HexByteAt(s, k);
      HexTextAt(HexBytes(s), k);
      if k % 2 == 0 {
        ByteRoundTrip(s[k], s[k + 1]);
      } else {
        ByteRoundTrip(s[k - 1], s[k]);
      }
    }
  }

  /** Overwrites the 16 bytes of `res` with the decoding of 32 characters. */
  method HexDecode(hex: string, res: array<Byte>)
    requires |hex| == 32 && res.Length == 16
    modifies res
    ensures res[..] == HexBytes(hex)
  {
    var count := 0;
    var i := 0;
    while i < |hex|
      invariant i == 2 * count && 0 <= count <= 16
      invariant forall k :: 0 <= k < count ==> res[k] == HexBytes(hex)[k]
    {
      var hi := ChexFromXDigit(hex[i]);
      var lo := ChexFromXDigit(hex[i + 1]);
      res[count] := PairByte(hi, lo);
      count := count + 1;
      i := i + 2;
    }
  }
}
