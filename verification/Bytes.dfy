/** Bytes as numbers, exclusive or bit by bit, and the little-endian bytes of machine integers. */
module Bytes {
  type Byte = x: int | 0 <= x < 256

  type Text8 = seq<Byte>

  function Power2(n: nat): (r: nat)
    ensures r >= 1
  {
    if n == 0 then 1 else 2 * Power2(n - 1)
  }

  function XorBits(a: nat, b: nat, n: nat): (r: nat)
    ensures r < Power2(n)
  {
    if n == 0 then 0 else (if a % 2 == b % 2 then 0 else 1) + 2 * XorBits(a / 2, b / 2, n - 1)
  }

  lemma PowersOfTwo()
    ensures Power2(8) == 256
  {
    assert Power2(4) == 16;
  }

  function XorByte(a: Byte, b: Byte): Byte {
    PowersOfTwo();
    XorBits(a, b, 8)
  }

  lemma {:induction false} XorBitsSymmetric(a: nat, b: nat, n: nat)
    ensures XorBits(a, b, n) == XorBits(b, a, n)
  {
    if n > 0 {
      XorBitsSymmetric(a / 2, b / 2, n - 1);
    }
  }

  lemma {:induction false} XorBitsCancel(a: nat, b: nat, c: nat, n: nat)
    requires b < Power2(n) && c < Power2(n) && XorBits(a, b, n) == XorBits(a, c, n)
    ensures b == c
  {
    if n > 0 {
      XorBitsCancel(a / 2, b / 2, c / 2, n - 1);
    }
  }

  lemma {:induction false} XorBitsZero(b: nat, n: nat)
    requires b < Power2(n)
    ensures XorBits(0, b, n) == b
  {
    if n > 0 {
      XorBitsZero(b / 2, n - 1);
    }
  }

  function OrBits(a: nat, b: nat, n: nat): (r: nat)
    ensures r < Power2(n)
  {
    if n == 0 then 0 else (if a % 2 == 1 || b % 2 == 1 then 1 else 0) + 2 * OrBits(a / 2, b / 2, n - 1)
  }

  function OrByte(a: Byte, b: Byte): Byte {
    PowersOfTwo();
    OrBits(a, b, 8)
  }

  function ShiftLeft(h: nat, k: nat): nat {
    if k == 0 then h else 2 * ShiftLeft(h, k - 1)
  }

  /** Or-ing into cleared low bits adds. */
  lemma {:induction false} OrFillsLowBits(h: nat, low: nat, k: nat, n: nat)
    requires k <= n && low < Power2(k) && h < Power2(n - k)
    ensures OrBits(ShiftLeft(h, k), low, n) == ShiftLeft(h, k) + low
    decreases n
  {
    if k > 0 {
      assert ShiftLeft(h, k) / 2 == ShiftLeft(h, k - 1) && ShiftLeft(h, k) % 2 == 0;
      OrFillsLowBits(h, low / 2, k - 1, n - 1);
    } else if n > 0 {
      assert low == 0;
      OrFillsLowBits(h / 2, 0, 0, n - 1);
    }
  }

  lemma XorCancelLeft(a: Byte, b: Byte, c: Byte)
    ensures XorByte(a, b) == XorByte(a, c) <==> b == c
  {
    PowersOfTwo();
    if XorByte(a, b) == XorByte(a, c) {
      XorBitsCancel(a, b, c, 8);
    }
  }

  lemma XorCancelRight(a: Byte, b: Byte, c: Byte)
    ensures XorByte(b, a) == XorByte(c, a) <==> b == c
  {
    XorBitsSymmetric(a, b, 8);
    XorBitsSymmetric(a, c, 8);
    XorCancelLeft(a, b, c);
  }

  lemma {:induction false} XorBitsAssociative(a: nat, b: nat, c: nat, n: nat)
    ensures XorBits(XorBits(a, b, n), c, n) == XorBits(a, XorBits(b, c, n), n)
  {
    if n > 0 {
      XorBitsAssociative(a / 2, b / 2, c / 2, n - 1);
    }
  }

  lemma {:induction false} XorBitsSelf(a: nat, n: nat)
    ensures XorBits(a, a, n) == 0
  {
    if n > 0 {
      XorBitsSelf(a / 2, n - 1);
    }
  }

  /** A byte XORed into one side of a fold can be XORed in last; the result is zero when it equals the rest. */
  lemma XorLast(a: Byte, b: Byte, w: Byte)
    ensures XorByte(XorByte(a, b), w) == XorByte(XorByte(a, w), b)
    ensures XorByte(XorByte(a, b), w) == 0 <==> b == XorByte(a, w)
  {
    XorBitsAssociative(a, b, w, 8);
    XorBitsAssociative(a, w, b, 8);
    XorBitsSymmetric(b, w, 8);
    XorBitsSelf(XorByte(a, w), 8);
    XorCancelLeft(XorByte(a, w), b, XorByte(a, w));
  }

  lemma XorZero(b: Byte)
    ensures XorByte(0, b) == b
  {
    PowersOfTwo();
    XorBitsZero(b, 8);
  }

  function Xor(a: Text8, b: Text8): (r: Text8)
    requires |a| == |b|
    ensures |r| == |a|
  {
    seq(|a|, i requires 0 <= i < |a| => XorByte(a[i], b[i]))
  }

  lemma XorInjective(a: Text8, b: Text8, c: Text8)
    requires |a| == |b| == |c|
    ensures Xor(a, b) == Xor(a, c) <==> b == c
  {
    if Xor(a, b) == Xor(a, c) {
      forall k | 0 <= k < |a|
        ensures b[k] == c[k]
      {
        assert Xor(a, b)[k] == XorByte(a[k], b[k]);
        assert Xor(a, c)[k] == XorByte(a[k], c[k]);
        XorCancelLeft(a[k], b[k], c[k]);
      }
    }
  }

  // ----- little-endian bytes; `/` rounds down, as shifting a signed number right does -----

  function ByteAt(x: int, k: nat): Byte
    decreases k
  {
    if k == 0 then x % 256 else ByteAt(x / 256, k - 1)
  }

  /** The `n` lowest bytes of `x`, lowest first. */
  function Le(x: int, n: nat): (r: Text8)
    ensures |r| == n
  {
    seq(n, k requires 0 <= k < n => ByteAt(x, k))
  }

  /** `x` modulo 256^n. */
  function LowPart(x: int, n: nat): nat
    decreases n
  {
    if n == 0 then 0 else x % 256 + 256 * LowPart(x / 256, n - 1)
  }

  ghost predicate SameBytes(x: int, y: int, n: nat) {
    forall k :: 0 <= k < n ==> ByteAt(x, k) == ByteAt(y, k)
  }

  lemma {:induction false} SameBytesSamePart(x: int, y: int, n: nat)
    ensures SameBytes(x, y, n) <==> LowPart(x, n) == LowPart(y, n)
    decreases n
  {
    if n > 0 {
      SameBytesSamePart(x / 256, y / 256, n - 1);
      if SameBytes(x, y, n) {
        assert ByteAt(x, 0) == ByteAt(y, 0);
        forall k | 0 <= k < n - 1
          ensures ByteAt(x / 256, k) == ByteAt(y / 256, k)
        {
          assert ByteAt(x, k + 1) == ByteAt(y, k + 1);
        }
      } else if LowPart(x, n) == LowPart(y, n) {
        assert x % 256 == y % 256;
        forall k | 0 <= k < n
          ensures ByteAt(x, k) == ByteAt(y, k)
        {
          if k > 0 {
            assert ByteAt(x / 256, k - 1) == ByteAt(y / 256, k - 1);
          }
        }
        assert false;
      }
    }
  }

  lemma LowPart4(x: int)
    ensures LowPart(x, 4) == x % 0x1_0000_0000
  {
    var a := x / 256;
    var b := a / 256;
    var c := b / 256;
    var d := c / 256;
    assert LowPart(c, 1) == c % 256 by { assert LowPart(d, 0) == 0; }
    assert LowPart(b, 2) == b % 256 + 256 * LowPart(c, 1);
    assert LowPart(a, 3) == a % 256 + 256 * LowPart(b, 2);
    assert LowPart(x, 4) == x % 256 + 256 * LowPart(a, 3);
    FourDigits(x, a, b, c, d);
  }

  lemma FourDigits(x: int, a: int, b: int, c: int, d: int)
    requires a == x / 256 && b == a / 256 && c == b / 256 && d == c / 256
    ensures x % 256 + 256 * (a % 256 + 256 * (b % 256 + 256 * (c % 256))) == x % 0x1_0000_0000
  {
    var r := x % 256 + 256 * (a % 256 + 256 * (b % 256 + 256 * (c % 256)));
    assert 0 <= r < 0x1_0000_0000;
    assert x == 0x1_0000_0000 * d + r;
  }

  lemma LowPart8(x: int)
    ensures LowPart(x, 8) == x % 0x1_0000_0000_0000_0000
  {
    LowPart4(x);
    LowPart4(x / 0x1_0000_0000);
    TwoWords(x, x / 0x1_0000_0000, x / 0x1_0000_0000 / 0x1_0000_0000);
  }

  lemma TwoWords(x: int, q: int, p: int)
    requires q == x / 0x1_0000_0000 && p == q / 0x1_0000_0000
    ensures x % 0x1_0000_0000 + 0x1_0000_0000 * (q % 0x1_0000_0000) == x % 0x1_0000_0000_0000_0000
  {
    var r := x % 0x1_0000_0000 + 0x1_0000_0000 * (q % 0x1_0000_0000);
    assert 0 <= r < 0x1_0000_0000_0000_0000;
    assert x == 0x1_0000_0000_0000_0000 * p + r;
  }

  lemma FourBytes(x: int, y: int)
    ensures SameBytes(x, y, 4) <==> x % 0x1_0000_0000 == y % 0x1_0000_0000
  {
    SameBytesSamePart(x, y, 4);
    LowPart4(x);
    LowPart4(y);
  }

  lemma EightBytes(x: int, y: int)
    ensures SameBytes(x, y, 8) <==> x % 0x1_0000_0000_0000_0000 == y % 0x1_0000_0000_0000_0000
  {
    SameBytesSamePart(x, y, 8);
    LowPart8(x);
    LowPart8(y);
  }
}
