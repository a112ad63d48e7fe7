/** The text of a mount table line: octal escapes and the splitting into fields. */
module MountText {
  import opened Bytes
  import opened Text

  const BLANK: Byte := 32
  const DASH: Byte := 45
  const BACKSLASH: Byte := 92

  predicate NulFree(s: Text8) { forall i :: 0 <= i < |s| ==> s[i] != 0 }

  predicate BlankFree(s: Text8) { forall i :: 0 <= i < |s| ==> s[i] != BLANK }

  // ----- octal escapes -----

  predicate Octal(b: Byte, top: Byte) { 48 <= b <= top }

  /** An escape starts here: a backslash and three octal digits, the first at most 3. */
  predicate StartsEscape(s: Text8) {
    |s| >= 4 && s[0] == BACKSLASH && Octal(s[1], 51) && Octal(s[2], 55) && Octal(s[3], 55)
  }

  function EscapedByte(s: Text8): Byte
    requires StartsEscape(s)
  {
    (s[1] - 48) * 64 + (s[2] - 48) * 8 + (s[3] - 48)
  }

  function Unescape(s: Text8): (r: Text8)
    ensures |r| <= |s|
  {
    if s == [] then []
    else if StartsEscape(s) then [EscapedByte(s)] + Unescape(s[4..])
    else [s[0]] + Unescape(s[1..])
  }

  function EscapeByte(b: Byte, special: set<Byte>): Text8 {
    if b in special then [BACKSLASH, 48 + b / 64, 48 + b / 8 % 8, 48 + b % 8] else [b]
  }

  /** What the kernel prints for a name: the bytes of `special` as octal escapes. */
  function Escape(s: Text8, special: set<Byte>): Text8 {
    if s == [] then [] else EscapeByte(s[0], special) + Escape(s[1..], special)
  }

  /** Unescaping undoes escaping as soon as backslashes themselves are escaped. */
  lemma {:induction false} UnescapeEscape(s: Text8, special: set<Byte>)
    requires BACKSLASH in special
    ensures Unescape(Escape(s, special)) == s
  {
    if s != [] {
      UnescapeEscape(s[1..], special);
    }
  }

  lemma {:induction false} EscapeClean(s: Text8, special: set<Byte>)
    requires BLANK in special && NulFree(s)
    ensures BlankFree(Escape(s, special)) && NulFree(Escape(s, special))
  {
    if s != [] {
      EscapeClean(s[1..], special);
    }
  }

  // ----- splitting -----

  predicate IsSpaceByte(b: Byte) { b == BLANK || 9 <= b <= 13 }

  /** A blank in a scanf format skips any white space. */
  function SkipSpace(s: Text8): Text8 {
    if s != [] && IsSpaceByte(s[0]) then SkipSpace(s[1..]) else s
  }

  function FirstBlank(s: Text8): (r: Option<nat>)
    ensures r.Some? ==> r.value < |s| && s[r.value] == BLANK && BlankFree(s[..r.value])
    ensures r.None? ==> BlankFree(s)
  {
    if s == [] then None
    else if s[0] == BLANK then Some(0)
    else match FirstBlank(s[1..]) case None => None case Some(k) => Some(k + 1)
  }

  predicate DashHere(s: Text8) { |s| >= 3 && s[0] == BLANK && s[1] == DASH && s[2] == BLANK }

  /** The first " - ". */
  function FindDash(s: Text8): (r: Option<nat>)
    ensures r.Some? ==> r.value + 3 <= |s|
  {
    if s == [] then None
    else if DashHere(s) then Some(0)
    else match FindDash(s[1..]) case None => None case Some(k) => Some(k + 1)
  }

  function UpToNul(s: Text8): (r: Text8)
    ensures NulFree(r)
  {
    if s == [] || s[0] == 0 then [] else [s[0]] + UpToNul(s[1..])
  }

  /** The C string an unescaped field reads as. */
  function Decode(s: Text8): Text8 { UpToNul(Unescape(s)) }

  datatype Mount = Mount(root: Text8, target: Text8, fstype: Text8, source: Text8)

  /** The text before and after the first blank. */
  function Cut(s: Text8): Option<(Text8, Text8)> {
    var k := FirstBlank(s);
    if k.None? then None else Some((s[..k.value], s[k.value + 1..]))
  }

  /** The text after the first " - ". */
  function AfterDash(s: Text8): Option<Text8> {
    var d := FindDash(s);
    if d.None? then None else Some(s[d.value + 3..])
  }

  /** Type and source, from what follows the separator. */
  function TypeAndSource(s: Text8): Option<(Text8, Text8)> {
    match Cut(s)
    case None => None
    case Some(t) => match Cut(t.1) case None => None case Some(u) => Some((t.0, u.0))
  }

  /** Target, type and source, from what follows the root. */
  function FromTarget(s: Text8): Option<(Text8, Text8, Text8)> {
    match Cut(s)
    case None => None
    case Some(t) =>
      match AfterDash(t.1)
      case None => None
      case Some(u) =>
        match TypeAndSource(u) case None => None case Some(v) => Some((t.0, v.0, v.1))
  }

  /** The fields once white space is skipped. */
  function FieldsFrom(s: Text8): Option<Mount> {
    match Cut(s)
    case None => None
    case Some(r) =>
      match FromTarget(r.1) case None => None case Some(t) => Some(Mount(r.0, t.0, t.1, t.2))
  }

  /** The undecoded fields of a line, given what follows the device numbers. */
  function Fields(s: Text8): Option<Mount> { FieldsFrom(SkipSpace(s)) }

  function DecodeAll(m: Mount): Mount {
    Mount(Decode(m.root), Decode(m.target), Decode(m.fstype), Decode(m.source))
  }

  function ParseLine(s: Text8): Option<Mount> {
    match Fields(s) case None => None case Some(m) => Some(DecodeAll(m))
  }

  // ----- printing, as proc(5) describes the line -----

  function Optionals(fields: seq<Text8>): Text8 {
    if fields == [] then [] else [BLANK] + fields[0] + Optionals(fields[1..])
  }

  function Then(x: Text8, y: Text8): Text8 { x + [BLANK] + y }

  /** Undecoded fields, joined as the line joins them. */
  function Join(m: Mount, options: Text8, optional: seq<Text8>, rest: Text8): Text8 {
    Then(m.root, Then(m.target,
      options + Optionals(optional) + ([BLANK, DASH, BLANK] + Then(m.fstype, Then(m.source, rest)))))
  }

  function EscapeAll(m: Mount, special: set<Byte>): Mount {
    Mount(Escape(m.root, special), Escape(m.target, special), Escape(m.fstype, special), Escape(m.source, special))
  }

  /** The part of the line that follows the device numbers. */
  function PrintLine(m: Mount, options: Text8, optional: seq<Text8>, rest: Text8, special: set<Byte>): Text8 {
    [BLANK] + Join(EscapeAll(m, special), options, optional, rest)
  }

  lemma {:induction false} FirstBlankAfter(x: Text8, y: Text8)
    requires BlankFree(x)
    ensures FirstBlank(x + [BLANK] + y) == Some(|x|)
  {
    if x != [] {
      FirstBlankAfter(x[1..], y);
      assert (x + [BLANK] + y)[1..] == x[1..] + [BLANK] + y;
    }
  }

  lemma CutThen(x: Text8, y: Text8)
    requires BlankFree(x)
    ensures Cut(Then(x, y)) == Some((x, y))
  {
    FirstBlankAfter(x, y);
    assert Then(x, y)[..|x|] == x && Then(x, y)[|x| + 1..] == y;
  }

  lemma {:induction false} DashBehind(x: Text8, tail: Text8)
    requires BlankFree(x) && FindDash(tail).Some?
    ensures FindDash(x + tail) == Some(|x| + FindDash(tail).value)
  {
    if x == [] {
      assert x + tail == tail;
    } else {
      assert (x + tail)[1..] == x[1..] + tail;
      DashBehind(x[1..], tail);
    }
  }

  lemma FieldSkipped(f: Text8, after: Text8, d: nat)
    requires BlankFree(f) && f != [DASH] && after != [] && after[0] == BLANK && FindDash(after) == Some(d)
    ensures FindDash([BLANK] + (f + after)) == Some(1 + |f| + d)
  {
    DashBehind(f, after);
    assert ([BLANK] + (f + after))[1..] == f + after;
  }

  lemma FieldFirst(f: Text8, rest: Text8, end: Text8)
    ensures [BLANK] + f + rest + end == [BLANK] + (f + (rest + end))
  {
  }

  /** Optional fields other than a lone dash do not hide the separator. */
  lemma {:induction false} DashAfterOptionals(fields: seq<Text8>, y: Text8)
    requires forall i :: 0 <= i < |fields| ==> BlankFree(fields[i]) && fields[i] != [DASH]
    ensures FindDash(Optionals(fields) + ([BLANK, DASH, BLANK] + y)) == Some(|Optionals(fields)|)
  {
    var end := [BLANK, DASH, BLANK] + y;
    if fields == [] {
      assert Optionals(fields) + end == end;
    } else {
      var rest := Optionals(fields[1..]);
      DashAfterOptionals(fields[1..], y);
      FieldFirst(fields[0], rest, end);
      assert (rest + end)[0] == BLANK;
      FieldSkipped(fields[0], rest + end, |rest|);
    }
  }

  /** White space the kernel does not escape but the scan in front of the root skips. */
  predicate VerticalSpace(b: Byte) { 11 <= b <= 13 }

  /** The root survives the scan: it does not start with something that is skipped, and it is not empty. */
  predicate RootVisible(root: Text8) { root != [] && !VerticalSpace(root[0]) }

  lemma VisibleStart(root: Text8, special: set<Byte>, y: Text8)
    requires RootVisible(root) && {9, 10, BLANK, BACKSLASH} <= special
    ensures SkipSpace([BLANK] + (Escape(root, special) + y)) == Escape(root, special) + y
  {
    var t := Escape(root, special) + y;
    assert t[0] == EscapeByte(root[0], special)[0];
    assert !IsSpaceByte(t[0]);
    assert ([BLANK] + t)[1..] == t;
  }

  lemma {:induction false} UpToNulIdentity(s: Text8)
    requires NulFree(s)
    ensures UpToNul(s) == s
  {
    if s != [] {
      UpToNulIdentity(s[1..]);
    }
  }

  lemma DecodeEscape(s: Text8, special: set<Byte>)
    requires BACKSLASH in special && NulFree(s)
    ensures Decode(Escape(s, special)) == s
  {
    UnescapeEscape(s, special);
    UpToNulIdentity(s);
  }

  ghost predicate Printable(m: Mount, options: Text8, optional: seq<Text8>) {
    && NulFree(m.root) && NulFree(m.target) && NulFree(m.fstype) && NulFree(m.source)
    && BlankFree(options) && NulFree(options)
    && forall i :: 0 <= i < |optional| ==> BlankFree(optional[i]) && NulFree(optional[i]) && optional[i] != [DASH]
  }

  lemma {:induction false} EscapeNulFree(s: Text8, special: set<Byte>)
    requires NulFree(s)
    ensures NulFree(Escape(s, special))
  {
    if s != [] {
      EscapeNulFree(s[1..], special);
    }
  }

  lemma {:induction false} OptionalsNulFree(fields: seq<Text8>)
    requires forall i :: 0 <= i < |fields| ==> NulFree(fields[i])
    ensures NulFree(Optionals(fields))
  {
    if fields != [] {
      OptionalsNulFree(fields[1..]);
    }
  }

  lemma ThenNulFree(x: Text8, y: Text8)
    requires NulFree(x) && NulFree(y)
    ensures NulFree(Then(x, y))
  {
  }

  /** A printed line is a C string. */
  lemma PrintedNulFree(m: Mount, options: Text8, optional: seq<Text8>, rest: Text8, special: set<Byte>)
    requires Printable(m, options, optional) && NulFree(rest)
    ensures NulFree(PrintLine(m, options, optional, rest, special))
  {
    var e := EscapeAll(m, special);
    EscapeNulFree(m.root, special);
    EscapeNulFree(m.target, special);
    EscapeNulFree(m.fstype, special);
    EscapeNulFree(m.source, special);
    OptionalsNulFree(optional);
    var end := Then(e.fstype, Then(e.source, rest));
    ThenNulFree(e.source, rest);
    ThenNulFree(e.fstype, Then(e.source, rest));
    var tail := options + Optionals(optional) + ([BLANK, DASH, BLANK] + end);
    ThenNulFree(e.target, tail);
    ThenNulFree(e.root, Then(e.target, tail));
  }

  lemma AfterDashJoined(options: Text8, optional: seq<Text8>, y: Text8)
    requires BlankFree(options)
    requires forall i :: 0 <= i < |optional| ==> BlankFree(optional[i]) && optional[i] != [DASH]
    ensures AfterDash(options + Optionals(optional) + ([BLANK, DASH, BLANK] + y)) == Some(y)
  {
    DashAfterOptionals(optional, y);
    FoundBehind(options, Optionals(optional), [BLANK, DASH, BLANK] + y);
    AfterFound(options + Optionals(optional), [BLANK, DASH, BLANK], y);
  }

  lemma FoundBehind(x: Text8, o: Text8, tail: Text8)
    requires BlankFree(x) && FindDash(o + tail) == Some(|o|)
    ensures FindDash(x + o + tail) == Some(|x + o|)
  {
    DashBehind(x, o + tail);
    assert x + o + tail == x + (o + tail);
  }

  lemma AfterFound(x: Text8, d: Text8, y: Text8)
    requires |d| == 3 && FindDash(x + (d + y)) == Some(|x|)
    ensures AfterDash(x + (d + y)) == Some(y)
  {
    DropTwo(x, d, y);
  }

  lemma DropTwo(x: Text8, d: Text8, y: Text8)
    ensures (x + (d + y))[|x| + |d|..] == y
  {
  }

  /** Joined fields are found again. */
  lemma FieldsOfJoined(m: Mount, options: Text8, optional: seq<Text8>, rest: Text8)
    requires BlankFree(m.root) && BlankFree(m.target) && BlankFree(m.fstype) && BlankFree(m.source)
    requires BlankFree(options)
    requires forall i :: 0 <= i < |optional| ==> BlankFree(optional[i]) && optional[i] != [DASH]
    ensures FieldsFrom(Join(m, options, optional, rest)) == Some(m)
  {
    var t3 := Then(m.fstype, Then(m.source, rest));
    var t2 := options + Optionals(optional) + ([BLANK, DASH, BLANK] + t3);
    AfterDashJoined(options, optional, t3);
    EndJoined(m.fstype, m.source, rest);
    TargetJoined(m.target, t2, t3, (m.fstype, m.source));
    CutThen(m.root, Then(m.target, t2));
  }

  lemma EndJoined(fstype: Text8, source: Text8, rest: Text8)
    requires BlankFree(fstype) && BlankFree(source)
    ensures TypeAndSource(Then(fstype, Then(source, rest))) == Some((fstype, source))
  {
    CutThen(fstype, Then(source, rest));
    CutThen(source, rest);
  }

  lemma TargetJoined(target: Text8, t2: Text8, t3: Text8, ends: (Text8, Text8))
    requires BlankFree(target) && AfterDash(t2) == Some(t3) && TypeAndSource(t3) == Some(ends)
    ensures FromTarget(Then(target, t2)) == Some((target, ends.0, ends.1))
  {
    CutThen(target, t2);
  }

  lemma EscapedFieldsClean(m: Mount, special: set<Byte>)
    requires BLANK in special
    requires NulFree(m.root) && NulFree(m.target) && NulFree(m.fstype) && NulFree(m.source)
    ensures var e := EscapeAll(m, special);
            BlankFree(e.root) && BlankFree(e.target) && BlankFree(e.fstype) && BlankFree(e.source)
  {
    EscapeClean(m.root, special);
    EscapeClean(m.target, special);
    EscapeClean(m.fstype, special);
    EscapeClean(m.source, special);
  }

  lemma DecodeEscaped(m: Mount, special: set<Byte>)
    requires BACKSLASH in special
    requires NulFree(m.root) && NulFree(m.target) && NulFree(m.fstype) && NulFree(m.source)
    ensures DecodeAll(EscapeAll(m, special)) == m
  {
    DecodeEscape(m.root, special);
    DecodeEscape(m.target, special);
    DecodeEscape(m.fstype, special);
    DecodeEscape(m.source, special);
  }

  /** Printing a mount and reading the line back gives the four names, whatever the options and optional fields,
      provided the root is visible to the scan. */
  lemma MountRoundTrip(m: Mount, options: Text8, optional: seq<Text8>, rest: Text8, special: set<Byte>)
    requires {9, 10, BLANK, BACKSLASH} <= special && Printable(m, options, optional) && RootVisible(m.root)
    ensures ParseLine(PrintLine(m, options, optional, rest, special)) == Some(m)
  {
    var e := EscapeAll(m, special);
    EscapedFieldsClean(m, special);
    FieldsOfJoined(e, options, optional, rest);
    VisibleJoin(m, options, optional, rest, special);
    DecodeEscaped(m, special);
  }

  lemma VisibleJoin(m: Mount, options: Text8, optional: seq<Text8>, rest: Text8, special: set<Byte>)
    requires {9, 10, BLANK, BACKSLASH} <= special && RootVisible(m.root)
    ensures SkipSpace(PrintLine(m, options, optional, rest, special))
            == Join(EscapeAll(m, special), options, optional, rest)
  {
    var e := EscapeAll(m, special);
    var end := Then(e.fstype, Then(e.source, rest));
    var y := Then(e.target, options + Optionals(optional) + ([BLANK, DASH, BLANK] + end));
    assert Then(e.root, y) == e.root + ([BLANK] + y);
    VisibleStart(m.root, special, [BLANK] + y);
  }

  // ----- roots the scan eats -----

  /** What is left of a name once leading vertical white space is gone. */
  function Stripped(s: Text8): (r: Text8)
    ensures |r| <= |s| && (r != [] ==> !VerticalSpace(r[0]))
    ensures r == s <==> s == [] || !VerticalSpace(s[0])
  {
    if s != [] && VerticalSpace(s[0]) then Stripped(s[1..]) else s
  }

  lemma {:induction false} StrippedClean(s: Text8)
    requires NulFree(s)
    ensures NulFree(Stripped(s))
  {
    if s != [] && VerticalSpace(s[0]) {
      StrippedClean(s[1..]);
    }
  }

  lemma {:induction false} SkipEscaped(s: Text8, special: set<Byte>, y: Text8)
    requires {9, 10, BLANK, BACKSLASH} <= special && special !! {11, 12, 13}
    ensures SkipSpace(Escape(s, special) + y)
            == if Stripped(s) == [] then SkipSpace(y) else Escape(Stripped(s), special) + y
  {
    var t := Escape(s, special) + y;
    if s == [] {
      assert t == y;
    } else if VerticalSpace(s[0]) {
      assert t[1..] == Escape(s[1..], special) + y;
      SkipEscaped(s[1..], special, y);
    } else {
      assert t[0] == EscapeByte(s[0], special)[0];
    }
  }

  const RW: Text8 := [114, 119]

  lemma RootOf(raw: Text8, y: Text8)
    requires BlankFree(raw)
    ensures FieldsFrom(raw + ([BLANK] + y)).Some? ==> FieldsFrom(raw + ([BLANK] + y)).value.root == raw
  {
    assert raw + ([BLANK] + y) == Then(raw, y);
    CutThen(raw, y);
  }

  lemma ShownName(x: Text8, special: set<Byte>, y: Text8)
    requires {BLANK, BACKSLASH} <= special && NulFree(x)
    ensures var f := FieldsFrom(Escape(x, special) + ([BLANK] + y)); f.Some? ==> Decode(f.value.root) == x
  {
    EscapeClean(x, special);
    RootOf(Escape(x, special), y);
    DecodeEscape(x, special);
  }

  lemma ShownOptions(y: Text8)
    ensures SkipSpace([BLANK] + (RW + ([BLANK] + y))) == RW + ([BLANK] + y)
    ensures var f := FieldsFrom(RW + ([BLANK] + y)); f.Some? ==> Decode(f.value.root) == RW
  {
    assert ([BLANK] + (RW + ([BLANK] + y)))[1..] == RW + ([BLANK] + y);
    assert RW[1..] == [119] && [119][1..] == [];
    RootOf(RW, y);
    UpToNulIdentity(RW);
  }

  lemma BehindBlank(s: Text8, special: set<Byte>, y: Text8)
    requires {9, 10, BLANK, BACKSLASH} <= special && special !! {11, 12, 13}
    ensures SkipSpace([BLANK] + (Escape(s, special) + y))
            == if Stripped(s) == [] then SkipSpace(y) else Escape(Stripped(s), special) + y
  {
    assert ([BLANK] + (Escape(s, special) + y))[1..] == Escape(s, special) + y;
    SkipEscaped(s, special, y);
  }

  lemma ThenIs(x: Text8, y: Text8)
    ensures Then(x, y) == x + ([BLANK] + y)
  {
  }

  lemma NoOptionals(options: Text8, t: Text8)
    ensures options + Optionals([]) + ([BLANK, DASH, BLANK] + t) == options + ([BLANK] + ([DASH, BLANK] + t))
  {
    assert [BLANK, DASH, BLANK] + t == [BLANK] + ([DASH, BLANK] + t);
  }

  lemma PrintedShape(m: Mount, rest: Text8, special: set<Byte>) returns (y: Text8)
    ensures PrintLine(m, RW, [], rest, special)
            == [BLANK] + (Escape(m.root, special)
                          + ([BLANK] + (Escape(m.target, special) + ([BLANK] + (RW + ([BLANK] + y))))))
  {
    var e := EscapeAll(m, special);
    var t3 := Then(e.fstype, Then(e.source, rest));
    y := [DASH, BLANK] + t3;
    ThenIs(e.target, RW + ([BLANK] + y));
    ThenIs(e.root, Then(e.target, RW + ([BLANK] + y)));
    NoOptionals(RW, t3);
  }

  /** For a root the scan cannot see, some other text takes its place. */
  lemma EatenRoot(m: Mount, rest: Text8, special: set<Byte>)
    requires {9, 10, BLANK, BACKSLASH} <= special && special !! {11, 12, 13}
    requires Printable(m, RW, []) && !RootVisible(m.root)
    ensures ParseLine(PrintLine(m, RW, [], rest, special)) != Some(m)
  {
    var y := PrintedShape(m, rest, special);
    var t2 := RW + ([BLANK] + y);
    var t1 := Escape(m.target, special) + ([BLANK] + t2);
    BehindBlank(m.root, special, [BLANK] + t1);
    BehindBlank(m.target, special, [BLANK] + t2);
    StrippedClean(m.root);
    StrippedClean(m.target);
    ShownName(Stripped(m.root), special, t1);
    ShownName(Stripped(m.target), special, t2);
    ShownOptions(y);
  }

  /** A mount can be read back whatever its options and optional fields exactly when the scan sees its root. */
  lemma MountRoundTripExact(m: Mount, rest: Text8, special: set<Byte>)
    requires {9, 10, BLANK, BACKSLASH} <= special && special !! {11, 12, 13} && Printable(m, [], [])
    ensures RootVisible(m.root)
            <==> forall options, optional :: Printable(m, options, optional) ==>
                   ParseLine(PrintLine(m, options, optional, rest, special)) == Some(m)
  {
    if RootVisible(m.root) {
      forall options, optional | Printable(m, options, optional)
        ensures ParseLine(PrintLine(m, options, optional, rest, special)) == Some(m)
      {
        MountRoundTrip(m, options, optional, rest, special);
      }
    } else {
      assert Printable(m, RW, []);
      EatenRoot(m, rest, special);
    }
  }
}
