/** The exported parent/child relation is the original one. */
module SpanTree {
  import opened Bytes
  import opened Hex
  import opened SpanIds
  import opened Text

  /** A segment id every span number of which gets an id of its own. */
  predicate DecodableId(s: string) { |s| >= 32 && Decodable(ShapeOf(s)) }

  lemma OverlaysDiffer(e: int, m: int, l: int, e': int, m': int, l': int)
    ensures Overlay(e, m, l) == Overlay(e', m', l')
            <==> e % TWO32 == e' % TWO32 && m % TWO32 == m' % TWO32 && l % TWO64 == l' % TWO64
  {
    OverlayBytes(e, m, l, e', m', l');
    FourBytes(e, e');
    FourBytes(m, m');
    EightBytes(l, l');
  }

  lemma OverlayBytes(e: int, m: int, l: int, e': int, m': int, l': int)
    ensures Overlay(e, m, l) == Overlay(e', m', l')
            <==> SameBytes(e, e', 4) && SameBytes(m, m', 4) && SameBytes(l, l', 8)
  {
    var o, o' := Overlay(e, m, l), Overlay(e', m', l');
    if o == o' {
      forall k | 0 <= k < 8
        ensures ByteAt(l, k) == ByteAt(l', k)
        ensures k < 4 ==> ByteAt(e, k) == ByteAt(e', k) && ByteAt(m, k) == ByteAt(m', k)
      {
        OverlayAt(e, m, l, k + 8);
        OverlayAt(e', m', l', k + 8);
        if k < 4 {
          OverlayAt(e, m, l, k);
          OverlayAt(e', m', l', k);
          OverlayAt(e, m, l, k + 4);
          OverlayAt(e', m', l', k + 4);
        }
      }
    }
    if SameBytes(e, e', 4) && SameBytes(m, m', 4) && SameBytes(l, l', 8) {
      forall k | 0 <= k < 16
        ensures o[k] == o'[k]
      {
        OverlayAt(e, m, l, k);
        OverlayAt(e', m', l', k);
      }
    }
  }

  /** For a fixed start, three-part ids give the same bytes exactly when the first number agrees modulo 2^32
      and the second one modulo 2^64. */
  lemma TripleInjective(start: Text8, e: int, m: int, l: int, e': int, m': int, l': int)
    requires |start| == 16
    ensures Xor(start, Overlay(e, m, l)) == Xor(start, Overlay(e', m', l'))
            <==> e % TWO32 == e' % TWO32 && m % TWO32 == m' % TWO32 && l % TWO64 == l' % TWO64
  {
    XorInjective(start, Overlay(e, m, l), Overlay(e', m', l'));
    OverlaysDiffer(e, m, l, e', m', l');
  }

  // ----- folded ids -----

  lemma FoldedAt(u: Text8, e: int, m: int, l: int, k: nat)
    requires |u| == 16 && k < 8
    ensures Fold(Xor(u, Overlay(e, m, l)))[k]
            == XorByte(XorByte(u[k], if k < 4 then ByteAt(e, k) else ByteAt(m, k - 4)), XorByte(u[k + 8], ByteAt(l, k)))
  {
    var x := Xor(u, Overlay(e, m, l));
    OverlayAt(e, m, l, k);
    OverlayAt(e, m, l, k + 8);
    assert x[..8][k] == x[k] && x[8..][k] == x[k + 8];
  }

  lemma FoldedSame(u: Text8, e: int, e': int, m: int, l: int)
    requires |u| == 16
    ensures Fold(Xor(u, Overlay(e, m, l))) == Fold(Xor(u, Overlay(e', m, l))) <==> SameBytes(e, e', 4)
  {
    var f, f' := Fold(Xor(u, Overlay(e, m, l))), Fold(Xor(u, Overlay(e', m, l)));
    forall k | 0 <= k < 8
      ensures f[k] == f'[k] <==> k >= 4 || ByteAt(e, k) == ByteAt(e', k)
    {
      FoldedAt(u, e, m, l, k);
      FoldedAt(u, e', m, l, k);
      if k < 4 {
        XorCancelRight(XorByte(u[k + 8], ByteAt(l, k)), XorByte(u[k], ByteAt(e, k)), XorByte(u[k], ByteAt(e', k)));
        XorCancelLeft(u[k], ByteAt(e, k), ByteAt(e', k));
      }
    }
    if f == f' {
      assert forall k :: 0 <= k < 4 ==> f[k] == f'[k] ==> ByteAt(e, k) == ByteAt(e', k);
    }
    if SameBytes(e, e', 4) {
      assert forall k :: 0 <= k < 8 ==> f[k] == f'[k];
    }
  }

  /** Within one decodable segment, ids are equal exactly when span numbers are (as 32-bit numbers). */
  lemma FoldInjective(s: string, n: int, n': int)
    requires DecodableId(s)
    ensures SpanId(s, n) == SpanId(s, n') <==> n % TWO32 == n' % TWO32
  {
    FoldedSame(Start(s), n % TWO32, n' % TWO32, Mid(ShapeOf(s)), Last(ShapeOf(s)));
    FourBytes(n % TWO32, n' % TWO32);
  }

  /** Numbers a 32-bit signed field can hold. */
  predicate IsInt32(n: int) { -0x8000_0000 <= n < 0x8000_0000 }

  /** Span ids tell spans apart exactly in decodable segments; a malformed id gives every span the zero id. */
  lemma SpanIdsDistinct(s: string, n: int, n': int)
    requires |s| >= 32 && !ShapeOf(s).Throws? && IsInt32(n) && IsInt32(n')
    ensures SpanId(s, n) == SpanId(s, n') <==> n == n' || ShapeOf(s).Malformed?
  {
    Int32Distinct(n, n');
    if !ShapeOf(s).Malformed? {
      FoldInjective(s, n, n');
    }
  }

  lemma Int32Distinct(n: int, n': int)
    requires IsInt32(n) && IsInt32(n')
    ensures n % TWO32 == n' % TWO32 <==> n == n'
  {
  }

  // ----- exporting the spans of a segment -----

  const NO_PARENT: int := -1

  datatype Ref = Ref(segment: string, span: Int32)

  type Int32 = n: int | IsInt32(n)

  datatype Span = Span(number: Int32, parent: Int32, refs: seq<Ref>)

  datatype Exported = Exported(id: Text8, parent: Text8)

  /** Where the parent of a span is to be found, if it has one the exporter looks at. */
  function ParentOf(segment: string, span: Span): Option<Ref> {
    if span.parent != NO_PARENT then Some(Ref(segment, span.parent))
    else if |span.refs| == 1 then Some(span.refs[0])
    else None
  }

  /** The ids of one span, `None` when a segment id cannot be used at all. */
  function ExportOf(segment: string, span: Span): Option<Exported> {
    match SpanId(segment, span.number)
    case Id(id) =>
      (match ParentOf(segment, span)
       case None => Some(Exported(id, ZERO8))
       case Some(ref) =>
         match SpanId(ref.segment, ref.span)
         case Id(parent) => Some(Exported(id, parent))
         case _ => None)
    case _ => None
  }

  /** The body of the exporter's loop over spans. */
  method ExportSpan(segment: string, span: Span) returns (r: Option<Exported>)
    ensures r == ExportOf(segment, span)
  {
    var id := SegmentIDToSpanID(segment, span.number);
    if !id.Id? {
      return None;
    }
    var p;
    if span.parent != NO_PARENT {
      p := SegmentIDToSpanID(segment, span.parent);
    } else if |span.refs| == 1 {
      p := SegmentIDToSpanID(span.refs[0].segment, span.refs[0].span);
    } else {
      p := Id(ZERO8);
    }
    return if p.Id? then Some(Exported(id.bytes, p.bytes)) else None;
  }

  function ExportAll(segment: string, spans: seq<Span>): Option<seq<Exported>> {
    if spans == [] then Some([])
    else match ExportOf(segment, spans[0])
      case None => None
      case Some(first) =>
        match ExportAll(segment, spans[1..])
        case None => None
        case Some(rest) => Some([first] + rest)
  }

  function After(out: seq<Exported>, rest: Option<seq<Exported>>): Option<seq<Exported>> {
    if rest.None? then None else Some(out + rest.value)
  }

  lemma AfterNothing(rest: Option<seq<Exported>>)
    ensures After([], rest) == rest
  {
    if rest.Some? {
      assert [] + rest.value == rest.value;
    }
  }

  lemma AfterOne(out: seq<Exported>, e: Exported, rest: Option<seq<Exported>>)
    ensures After(out, After([e], rest)) == After(out + [e], rest)
  {
    if rest.Some? {
      assert out + ([e] + rest.value) == out + [e] + rest.value;
    }
  }

  lemma ExportStep(segment: string, spans: seq<Span>, count: nat)
    requires count < |spans|
    ensures var e := ExportOf(segment, spans[count]);
            ExportAll(segment, spans[count..])
              == if e.None? then None else After([e.value], ExportAll(segment, spans[count + 1..]))
  {
    var left := spans[count..];
    assert left[0] == spans[count] && left[1..] == spans[count + 1..];
  }

  method Process(segment: string, spans: seq<Span>) returns (r: Option<seq<Exported>>)
    ensures r == ExportAll(segment, spans)
  {
    var out := [];
    AfterNothing(ExportAll(segment, spans));
    assert spans[0..] == spans;
    for count := 0 to |spans|
      invariant ExportAll(segment, spans) == After(out, ExportAll(segment, spans[count..]))
    {
      ExportStep(segment, spans, count);
      var e := ExportSpan(segment, spans[count]);
      if e.None? {
        return None;
      }
      AfterOne(out, e.value, ExportAll(segment, spans[count + 1..]));
      out := out + [e.value];
    }
    assert spans[|spans|..] == [] && out + [] == out;
    return Some(out);
  }

  /** Either every span is exported, in order, or some span needs a segment id that cannot be used. */
  lemma {:induction false} ExportAllMeans(segment: string, spans: seq<Span>)
    ensures var r := ExportAll(segment, spans);
            && (r.None? <==> exists i :: 0 <= i < |spans| && ExportOf(segment, spans[i]).None?)
            && (r.Some? ==> |r.value| == |spans|
                            && forall i :: 0 <= i < |spans| ==> ExportOf(segment, spans[i]) == Some(r.value[i]))
  {
    if spans != [] {
      ExportAllMeans(segment, spans[1..]);
      assert forall i :: 0 <= i < |spans[1..]| ==> spans[1..][i] == spans[i + 1];
      assert forall i :: 1 <= i < |spans| ==> spans[i] == spans[1..][i - 1];
    }
  }

  lemma ExportParts(segment: string, span: Span, e: Exported)
    requires ExportOf(segment, span) == Some(e)
    ensures SpanId(segment, span.number) == Id(e.id)
    ensures ParentOf(segment, span).None? ==> e.parent == ZERO8
    ensures ParentOf(segment, span).Some? ==>
              SpanId(ParentOf(segment, span).value.segment, ParentOf(segment, span).value.span) == Id(e.parent)
  {
  }

  /** What is exported, on the span itself: its own id, and for the parent the span of that number in the segment, the
      single reference, or nothing; not exported is a span one of whose ids cannot be computed. */
  lemma ExportExactly(segment: string, span: Span, e: Exported)
    ensures ExportOf(segment, span) == Some(e)
            <==> && SpanId(segment, span.number) == Id(e.id)
                 && if span.parent != -1 then SpanId(segment, span.parent) == Id(e.parent)
                    else if |span.refs| == 1 then SpanId(span.refs[0].segment, span.refs[0].span) == Id(e.parent)
                    else e.parent == [0, 0, 0, 0, 0, 0, 0, 0]
  {
  }

  /** Exported ids are equal exactly when the span numbers are. */
  lemma IdsKept(segment: string, span: Span, other: Span, e: Exported, o: Exported)
    requires DecodableId(segment)
    requires ExportOf(segment, span) == Some(e) && ExportOf(segment, other) == Some(o)
    ensures e.id == o.id <==> span.number == other.number
  {
    ExportParts(segment, span, e);
    ExportParts(segment, other, o);
    SpanIdsDistinct(segment, span.number, other.number);
  }

  /** A span with a local parent points at exactly the spans that carry the parent's number. */
  lemma LocalParentKept(segment: string, child: Span, other: Span, c: Exported, o: Exported)
    requires DecodableId(segment) && child.parent != -1
    requires ExportOf(segment, child) == Some(c) && ExportOf(segment, other) == Some(o)
    ensures c.parent == o.id <==> child.parent == other.number
  {
    ExportParts(segment, child, c);
    ExportParts(segment, other, o);
    SpanIdsDistinct(segment, child.parent, other.number);
  }

  /** A span with a single cross-segment reference points at exactly the referenced span of that segment,
      as that segment's own export names it. */
  lemma RemoteParentKept(segment: string, child: Span, c: Exported, remote: string, other: Span, o: Exported)
    requires child.parent == -1 && |child.refs| == 1 && child.refs[0].segment == remote && DecodableId(remote)
    requires ExportOf(segment, child) == Some(c) && ExportOf(remote, other) == Some(o)
    ensures c.parent == o.id <==> child.refs[0].span == other.number
  {
    ExportParts(segment, child, c);
    ExportParts(remote, other, o);
    SpanIdsDistinct(remote, child.refs[0].span, other.number);
  }

  /** A segment id that reaches the exporter malformed collapses the tree: every span is its own parent's twin. */
  lemma MalformedCollapses(segment: string, span: Span, e: Exported)
    requires |segment| >= 32 && ShapeOf(segment).Malformed? && span.parent != NO_PARENT
    requires ExportOf(segment, span) == Some(e)
    ensures e.id == e.parent == ZERO8
  {
    ExportParts(segment, span, e);
  }

  /** The span number, at most one per segment, whose id is all zero and so reads as "no parent". */
  ghost predicate Vanishes(ref: Ref) { SpanId(ref.segment, ref.span) == Id(ZERO8) }

  /** A span without a parent in its segment, and with no or several references, is exported as a root; any other span
      is a root exactly when the id of its parent vanishes. */
  lemma RootExactly(segment: string, span: Span, e: Exported)
    requires ExportOf(segment, span) == Some(e)
    ensures e.parent == [0, 0, 0, 0, 0, 0, 0, 0]
            <==> if span.parent != -1 then Vanishes(Ref(segment, span.parent))
                 else |span.refs| == 1 ==> Vanishes(span.refs[0])
  {
    ExportParts(segment, span, e);
  }

  /** At most one span number of a decodable segment vanishes. */
  lemma VanishingIsRare(segment: string, n: Int32, n': Int32)
    requires DecodableId(segment) && Vanishes(Ref(segment, n))
    ensures Vanishes(Ref(segment, n')) <==> n' == n
  {
    SpanIdsDistinct(segment, n, n');
  }

  /** The first half of the bytes, XORed with the second half and `last`, is the span number followed by `mid`. */
  predicate HalvesMeet(start: Text8, mid: int, last: int, n: int)
    requires |start| == 16
  {
    forall k :: 0 <= k < 8 ==>
      XorByte(start[k], XorByte(start[k + 8], ByteAt(last, k))) == if k < 4 then ByteAt(n, k) else ByteAt(mid, k - 4)
  }

  lemma FoldVanishes(u: Text8, e: int, m: int, l: int)
    requires |u| == 16
    ensures Fold(Xor(u, Overlay(e, m, l))) == ZERO8 <==> HalvesMeet(u, m, l, e)
  {
    var f := Fold(Xor(u, Overlay(e, m, l)));
    forall k | 0 <= k < 8
      ensures f[k] == 0 <==> XorByte(u[k], XorByte(u[k + 8], ByteAt(l, k)))
                             == if k < 4 then ByteAt(e, k) else ByteAt(m, k - 4)
    {
      FoldedAt(u, e, m, l, k);
      XorLast(u[k], if k < 4 then ByteAt(e, k) else ByteAt(m, k - 4), XorByte(u[k + 8], ByteAt(l, k)));
    }
    AllZero(f);
  }

  lemma AllZero(f: Text8)
    requires |f| == 8
    ensures f == ZERO8 <==> forall k :: 0 <= k < 8 ==> f[k] == 0
  {
  }

  /** Which one vanishes can be read off the parsed segment id. */
  lemma VanishesExactly(segment: string, n: Int32)
    requires DecodableId(segment)
    ensures Vanishes(Ref(segment, n))
            <==> HalvesMeet(Start(segment), Mid(ShapeOf(segment)), Last(ShapeOf(segment)), n % TWO32)
  {
    FoldVanishes(Start(segment), n % TWO32, Mid(ShapeOf(segment)), Last(ShapeOf(segment)));
  }

  lemma EqualHalvesMeet(start: Text8)
    requires |start| == 16 && forall k :: 0 <= k < 8 ==> start[k] == start[k + 8]
    ensures HalvesMeet(start, 0, 0, 0)
  {
    forall k | 0 <= k < 8
      ensures XorByte(start[k], XorByte(start[k + 8], ByteAt(0, k))) == if k < 4 then ByteAt(0, k) else ByteAt(0, k - 4)
    {
      SameXorZero(start[k], k);
      ZeroBytes(if k < 4 then k else k - 4);
    }
  }

  lemma RepeatedBytes(half: string, k: nat)
    requires |half| == 16 && k < 8
    ensures HexBytes(half + half)[k] == HexBytes(half + half)[k + 8]
  {
    var s := half + half;
    HexPairAt(s, k);
    HexPairAt(s, k + 8);
    assert s[2 * k] == s[2 * (k + 8)] && s[2 * k + 1] == s[2 * (k + 8) + 1];
  }

  /** Span 0 of a segment whose id is one half twice vanishes, so its children are exported as roots. */
  lemma EqualHalvesVanish(half: string)
    requires |half| == 16 && !AllDigits(half)
    ensures DecodableId(half + half) && Vanishes(Ref(half + half, 0))
  {
    var s := half + half;
    NotANumber(half);
    assert s[..32] == s;
    assert Start(s) == HexBytes(s) && ShapeOf(s) == Plain;
    forall k | 0 <= k < 8
      ensures HexBytes(s)[k] == HexBytes(s)[k + 8]
    {
      RepeatedBytes(half, k);
    }
    EqualHalvesMeet(HexBytes(s));
    VanishesExactly(s, 0);
  }

  lemma NotANumber(half: string)
    requires !AllDigits(half)
    ensures !AllDigits(half + half)
  {
    var i :| 0 <= i < |half| && !IsDigit(half[i]);
    assert !IsDigit((half + half)[i]);
  }

  lemma SameXorZero(b: Byte, k: nat)
    ensures XorByte(b, XorByte(b, ByteAt(0, k))) == 0
  {
    ZeroBytes(k);
    XorZeroRight(b);
    XorBitsSelf(b, 8);
  }

  /** One such id: sixteen times the byte 0xAB. */
  lemma VanishingSpan()
    ensures SpanId("abababababababab" + "abababababababab", 0) == Id(ZERO8)
  {
    var half := "abababababababab";
    assert !IsDigit(half[0]);
    EqualHalvesVanish(half);
  }
}
