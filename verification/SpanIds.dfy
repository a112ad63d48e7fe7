/** Span and trace ids of the exported format, computed from SkyWalking segment ids. */
module SpanIds {
  import opened Bytes
  import opened Hex
  import opened Text

  const ZERO8: Text8 := [0, 0, 0, 0, 0, 0, 0, 0]

  // ----- reading numbers out of a segment id -----

  predicate IsSpace(c: char) { c as int == 32 || 9 <= c as int <= 13 }

  function SkipSpaces(s: string): string {
    if s != "" && IsSpace(s[0]) then SkipSpaces(s[1..]) else s
  }

  /** `stol`: blanks, an optional sign, digits; anything after them is ignored. `None` is an exception. */
  function StoL(s: string): Option<int> {
    var t := SkipSpaces(s);
    var signed := t != "" && (t[0] == '-' || t[0] == '+');
    var digits := DigitPrefix(if signed then t[1..] else t);
    var magnitude: int := DecimalValue(digits);
    var v := if signed && t[0] == '-' then 0 - magnitude else magnitude;
    if digits == "" || v < -0x8000_0000_0000_0000 || v > 0x7FFF_FFFF_FFFF_FFFF then None else Some(v)
  }

  function RFind(s: string, c: char): (r: Option<nat>)
    ensures r.Some? ==> r.value < |s|
  {
    if s == "" then None
    else if s[|s| - 1] == c then Some(|s| - 1)
    else RFind(s[..|s| - 1], c)
  }

  lemma {:induction false} FirstIsBeforeLast(s: string, c: char)
    ensures IndexOf(s, c).Some? ==> RFind(s, c).Some? && IndexOf(s, c).value <= RFind(s, c).value
  {
    if s != "" && s[|s| - 1] != c {
      IndexInPrefix(s, c);
      FirstIsBeforeLast(s[..|s| - 1], c);
    } else if s != "" {
      IndexOfFirst(s, c);
    }
  }

  lemma {:induction false} IndexInPrefix(s: string, c: char)
    requires s != "" && s[|s| - 1] != c
    ensures IndexOf(s[..|s| - 1], c) == IndexOf(s, c)
  {
    if s[0] != c && |s| > 1 {
      IndexInPrefix(s[1..], c);
      assert s[1..][..|s| - 2] == s[..|s| - 1][1..];
    }
  }

  /** The shapes a segment id of at least 32 characters can have. */
  datatype Shape =
    | Number(value: nat)
    | Plain
    | Triple(mid: int, last: int)
    | Malformed
    | Throws

  function IsUint128(s: string): bool { s != "" && |s| <= 40 && AllDigits(s) }

  function ParseTail(s: string): (r: Shape)
    requires |s| >= 32
    ensures !r.Number?
  {
    if |s| == 32 then Plain
    else
      var first, last := IndexOf(s, '.'), RFind(s, '.');
      if first != Some(32) || last.None? then Malformed
      else
        FirstIsBeforeLast(s, '.');
        var size := if last.value - 32 > 0 then last.value - 33 else 0;
        var m, l := StoL(s[33..33 + size]), StoL(s[last.value + 1..]);
        if m.None? || l.None? then Throws else Triple(m.value, l.value)
  }

  function ShapeOf(s: string): Shape
    requires |s| >= 32
  {
    if IsUint128(s) then Number(DecimalValue(s) % (TWO64 * TWO64)) else ParseTail(s)
  }

  /** What is XORed onto the bytes of the first 32 characters: le32(extra), le32(mid), le64(last). */
  function Overlay(extra: int, mid: int, last: int): (r: Text8)
    ensures |r| == 16
  {
    Le(extra, 4) + Le(mid, 4) + Le(last, 8)
  }

  predicate Decodable(shape: Shape) { shape.Number? || shape.Plain? || shape.Triple? }

  function Mid(shape: Shape): int
    requires Decodable(shape)
  {
    match shape
    case Number(v) => v % TWO64
    case Triple(mid, _) => mid
    case _ => 0
  }

  function Last(shape: Shape): int
    requires Decodable(shape)
  {
    match shape
    case Number(v) => v / TWO64
    case Triple(_, last) => last
    case _ => 0
  }

  /** The bytes the first 32 characters stand for; a decimal number has none. */
  function Start(s: string): (r: Text8)
    requires |s| >= 32
    ensures |r| == 16
  {
    if IsUint128(s) then seq(16, _ => 0) else HexBytes(s[..32])
  }

  /** The 16 bytes for a decodable id: UUID(start) XOR (le32(extra), le32(mid), le64(last)). */
  function Uuid(s: string, extra: int): (r: Text8)
    requires |s| >= 32 && Decodable(ShapeOf(s))
    ensures |r| == 16
  {
    Xor(Start(s), Overlay(extra, Mid(ShapeOf(s)), Last(ShapeOf(s))))
  }

  /** The 16-to-8 fold. */
  function Fold(u: Text8): (r: Text8)
    requires |u| == 16
    ensures |r| == 8
  {
    Xor(u[..8], u[8..])
  }

  /** A computed span id, or the two ways the computation does not return one. */
  datatype IdResult = Id(bytes: Text8) | NullSpan | Exception

  /** The id of span number `span`, a 32-bit number that is widened as unsigned. */
  function SpanId(segment: string, span: int): IdResult {
    if |segment| < 32 then NullSpan
    else
      var shape := ShapeOf(segment);
      if shape.Throws? then Exception
      else if shape.Malformed? then Id(ZERO8)
      else Id(Fold(Uuid(segment, span % TWO32)))
  }

  // ----- the loops over bytes -----

  /** `after` is `before` with the low bytes of `x` XORed onto positions lo..hi. */
  ghost predicate Xored(before: Text8, after: Text8, lo: nat, hi: nat, x: int)
    requires lo <= hi <= |before|
  {
    && |after| == |before|
    && (forall k :: lo <= k < hi ==> after[k] == XorByte(before[k], ByteAt(x, k - lo)))
    && forall k :: 0 <= k < lo || hi <= k < |before| ==> after[k] == before[k]
  }

  function Shifted(x: int, k: nat): int {
    if k == 0 then x else Shifted(x, k - 1) / 256
  }

  lemma {:induction false} ShiftedLowByte(x: int, k: nat)
    ensures Shifted(x, k) % 256 == ByteAt(x, k)
  {
    ShiftedTail(x, k, 0);
  }

  lemma {:induction false} ShiftedTail(x: int, k: nat, j: nat)
    ensures ByteAt(Shifted(x, k), j) == ByteAt(x, k + j)
    decreases k
  {
    if k > 0 {
      ShiftedTail(x, k - 1, j + 1);
    }
  }

  /** XORs the low bytes of `x` onto `uid[lo..hi]`, lowest first; the shift by eight rounds down, which
      for a signed number is what copying the sign bit does. */
  method XorBytes(uid: array<Byte>, lo: nat, hi: nat, x: int)
    requires lo <= hi <= uid.Length
    modifies uid
    ensures Xored(old(uid[..]), uid[..], lo, hi, x)
  {
    var v, i := x, lo;
    while i < hi
      invariant lo <= i <= hi && v == Shifted(x, i - lo)
      invariant forall k :: lo <= k < i ==> uid[k] == XorByte(old(uid[k]), ByteAt(x, k - lo))
      invariant forall k :: 0 <= k < lo || i <= k < uid.Length ==> uid[k] == old(uid[k])
    {
      ShiftedLowByte(x, i - lo);
      uid[i] := XorByte(uid[i], v % 256);
      v := v / 256;
      i := i + 1;
    }
  }

  lemma OverlayAt(extra: int, mid: int, last: int, k: nat)
    requires k < 16
    ensures Overlay(extra, mid, last)[k]
            == if k < 4 then ByteAt(extra, k) else if k < 8 then ByteAt(mid, k - 4) else ByteAt(last, k - 8)
  {
  }

  lemma OnePart(a: Text8, b: Text8, extra: int)
    requires |a| == 16 && Xored(a, b, 0, 4, extra)
    ensures b == Xor(a, Overlay(extra, 0, 0))
  {
    forall k, y: Byte | 0 <= k < 8
      ensures XorByte(y, ByteAt(0, k)) == y
    {
      ZeroBytes(k);
      XorZeroRight(y);
    }
  }

  lemma XorZeroRight(y: Byte)
    ensures XorByte(y, 0) == y
  {
    XorBitsSymmetric(y, 0, 8);
    XorZero(y);
  }

  lemma {:induction false} ZeroBytes(k: nat)
    ensures ByteAt(0, k) == 0
  {
    if k > 0 {
      ZeroBytes(k - 1);
    }
  }

  /** The string form. The result says whether the id was accepted, `None` that an exception left the call. */
  method SwStringToUUID(s: string, extra: int, uid: array<Byte>) returns (ok: Option<bool>)
    requires uid.Length == 16
    modifies uid
    ensures |s| < 32 ==> ok == Some(false) && uid[..] == old(uid[..])
    ensures |s| >= 32 && ParseTail(s).Malformed? ==> ok == Some(false)
    ensures |s| >= 32 && ParseTail(s).Throws? ==> ok == None
    ensures |s| >= 32 && Decodable(ParseTail(s)) ==>
              ok == Some(true)
              && uid[..] == Xor(HexBytes(s[..32]), Overlay(extra, Mid(ParseTail(s)), Last(ParseTail(s))))
  {
    if |s| < 32 {
      return Some(false);
    }
    HexDecode(s[..32], uid);
    ghost var start := uid[..];
    XorBytes(uid, 0, 4, extra);
    if |s| == 32 {
      OnePart(start, uid[..], extra);
      return Some(true);
    }
    ok := XorTail(s, uid, start, extra);
  }

  /** The second half: the two numbers after the dots. */
  method XorTail(s: string, uid: array<Byte>, ghost start: Text8, ghost extra: int) returns (ok: Option<bool>)
    requires uid.Length == 16 && |s| > 32 && |start| == 16 && Xored(start, uid[..], 0, 4, extra)
    modifies uid
    ensures ParseTail(s).Malformed? ==> ok == Some(false)
    ensures ParseTail(s).Throws? ==> ok == None
    ensures Decodable(ParseTail(s)) ==>
              ok == Some(true) && uid[..] == Xor(start, Overlay(extra, Mid(ParseTail(s)), Last(ParseTail(s))))
  {
    var index1, index2 := IndexOf(s, '.'), RFind(s, '.');
    if index1 != Some(32) || index2.None? {
      return Some(false);
    }
    FirstIsBeforeLast(s, '.');
    var size := index2.value - index1.value;
    if size > 0 {
      size := size - 1;
    }
    var mid := StoL(s[index1.value + 1..index1.value + 1 + size]);
    if mid.None? {
      return None;
    }
    var last := StoL(s[index2.value + 1..]);
    if last.None? {
      return None;
    }
    assert ParseTail(s) == Triple(mid.value, last.value);
    XorNumbers(uid, start, extra, mid.value, last.value);
    return Some(true);
  }

  method XorNumbers(uid: array<Byte>, ghost start: Text8, ghost extra: int, mid: int, last: int)
    requires uid.Length == 16 && |start| == 16 && Xored(start, uid[..], 0, 4, extra)
    modifies uid
    ensures uid[..] == Xor(start, Overlay(extra, mid, last))
  {
    XorBytes(uid, 4, 8, mid);
    ghost var c := uid[..];
    XorBytes(uid, 8, 16, last);
  }

  method SwUint128ToUUID(value: nat, extra: int, uid: array<Byte>)
    requires uid.Length == 16
    modifies uid
    ensures uid[..] == Xor(old(uid[..]), Overlay(extra, value % TWO64, value / TWO64))
  {
    var low, high := value % TWO64, value / TWO64;
    XorBytes(uid, 0, 4, extra);
    ghost var b := uid[..];
    XorBytes(uid, 4, 8, low);
    ghost var c := uid[..];
    XorBytes(uid, 8, 16, high);
  }

  method UuidTo8Bytes(uuid: array<Byte>, dst: array<Byte>)
    requires uuid.Length == 16 && dst.Length == 8 && uuid != dst
    modifies dst
    ensures dst[..] == Fold(uuid[..])
  {
    for i := 0 to 8
      invariant forall k :: 0 <= k < i ==> dst[k] == XorByte(uuid[k], uuid[k + 8])
    {
      dst[i] := XorByte(uuid[i], uuid[i + 8]);
    }
    ghost var f := Fold(uuid[..]);
    assert forall k :: 0 <= k < 8 ==> f[k] == XorByte(uuid[..][..8][k], uuid[..][8..][k]);
  }

  /** Fills the zeroed 16 bytes of a segment id of at least 32 characters. */
  method FillUuid(segment: string, span: int, uuid: array<Byte>) returns (ok: Option<bool>)
    requires |segment| >= 32 && uuid[..] == seq(16, _ => 0)
    modifies uuid
    ensures ShapeOf(segment).Malformed? ==> ok == Some(false)
    ensures ShapeOf(segment).Throws? ==> ok == None
    ensures Decodable(ShapeOf(segment)) ==> ok == Some(true) && uuid[..] == Uuid(segment, span)
  {
    assert |uuid[..]| == 16;
    if IsUint128(segment) {
      SwUint128ToUUID(DecimalValue(segment) % (TWO64 * TWO64), span, uuid);
      return Some(true);
    }
    ok := SwStringToUUID(segment, span, uuid);
  }

  method SegmentIDToSpanID(segment: string, span: int) returns (r: IdResult)
    ensures r == SpanId(segment, span)
  {
    if |segment| < 32 {
      return NullSpan;
    }
    var ret := new Byte[8](_ => 0);
    var uuid := new Byte[16](_ => 0);
    assert uuid[..] == seq(16, _ => 0);
    assert ret[..] == ZERO8;
    var ok := FillUuid(segment, span % TWO32, uuid);
    if ok.None? {
      return Exception;
    }
    if !ok.value {
      return Id(ret[..]);
    }
    UuidTo8Bytes(uuid, ret);
    return Id(ret[..]);
  }
}
