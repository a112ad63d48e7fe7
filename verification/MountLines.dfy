/** What the reader of mount lines accepts, for every line and not only a printed one. */
module MountLines {
  import opened Bytes
  import opened MountText
  import opened Text

  predicate SeparatorAt(s: Text8, i: nat) { i + 2 < |s| && s[i] == 32 && s[i + 1] == 45 && s[i + 2] == 32 }

  /** The separator does not start within the text in front of it. */
  ghost predicate NoDash(mid: Text8) {
    forall i :: 0 <= i < |mid| ==> !SeparatorAt(mid + [32, 45, 32], i)
  }

  /** Root, target, anything, " - ", type, source and anything, with single blanks between them. */
  ghost predicate Line(s: Text8, m: Mount, mid: Text8, rest: Text8) {
    && s == m.root + [32] + (m.target + [32] + (mid + ([32, 45, 32] + (m.fstype + [32] + (m.source + [32] + rest)))))
    && BlankFree(m.root) && BlankFree(m.target) && NoDash(mid) && BlankFree(m.fstype) && BlankFree(m.source)
  }

  lemma CutParts(s: Text8)
    requires Cut(s).Some?
    ensures var (x, y) := Cut(s).value; s == x + [32] + y && BlankFree(x)
  {
  }

  lemma {:induction false} DashFirst(mid: Text8, y: Text8)
    requires NoDash(mid)
    ensures FindDash(mid + ([32, 45, 32] + y)) == Some(|mid|)
  {
    var s := mid + ([32, 45, 32] + y);
    if mid == [] {
      assert s == [32, 45, 32] + y;
    } else {
      var end := mid + [32, 45, 32];
      assert !SeparatorAt(end, 0);
      assert s[0] == end[0] && s[1] == end[1] && s[2] == end[2];
      assert s[1..] == mid[1..] + ([32, 45, 32] + y);
      assert mid[1..] + [32, 45, 32] == end[1..];
      forall i | 0 <= i < |mid[1..]|
        ensures !SeparatorAt(mid[1..] + [32, 45, 32], i)
      {
        assert !SeparatorAt(end, i + 1);
      }
      DashFirst(mid[1..], y);
    }
  }

  lemma {:induction false} DashFound(s: Text8)
    requires FindDash(s).Some?
    ensures SeparatorAt(s, FindDash(s).value) && forall i :: 0 <= i < FindDash(s).value ==> !SeparatorAt(s, i)
  {
    if !DashHere(s) {
      DashFound(s[1..]);
      forall i | 0 <= i < FindDash(s).value
        ensures !SeparatorAt(s, i)
      {
        assert i > 0 ==> !SeparatorAt(s[1..], i - 1);
      }
    }
  }

  lemma DashParts(s: Text8) returns (mid: Text8)
    requires AfterDash(s).Some?
    ensures s == mid + ([32, 45, 32] + AfterDash(s).value) && NoDash(mid)
  {
    var d := FindDash(s).value;
    DashFound(s);
    mid := s[..d];
    assert s == s[..d] + (s[d..d + 3] + s[d + 3..]);
    assert s[d..d + 3] == [32, 45, 32];
    forall i | 0 <= i < |mid|
      ensures !SeparatorAt(mid + [32, 45, 32], i)
    {
      assert !SeparatorAt(s, i);
    }
  }

  lemma LineFound(s: Text8, m: Mount) returns (mid: Text8, rest: Text8)
    requires FieldsFrom(s) == Some(m)
    ensures Line(s, m, mid, rest)
  {
    var r := Cut(s).value;
    CutParts(s);
    var t := Cut(r.1).value;
    CutParts(r.1);
    mid := DashParts(t.1);
    var u := AfterDash(t.1).value;
    CutParts(u);
    CutParts(Cut(u).value.1);
    rest := Cut(Cut(u).value.1).value.1;
  }

  lemma LineCut(s: Text8, m: Mount, mid: Text8, rest: Text8)
    requires Line(s, m, mid, rest)
    ensures FieldsFrom(s) == Some(m)
  {
    var u := Then(m.fstype, Then(m.source, rest));
    EndJoined(m.fstype, m.source, rest);
    DashFirst(mid, u);
    AfterFound(mid, [32, 45, 32], u);
    var t2 := mid + ([32, 45, 32] + u);
    TargetJoined(m.target, t2, u, (m.fstype, m.source));
    CutThen(m.root, Then(m.target, t2));
  }

  lemma {:induction false} SpaceSkipped(space: Text8, t: Text8)
    requires forall i :: 0 <= i < |space| ==> space[i] == 32 || 9 <= space[i] <= 13
    requires t != [] ==> t[0] != 32 && !(9 <= t[0] <= 13)
    ensures SkipSpace(space + t) == t
  {
    if space == [] {
      assert space + t == t;
    } else {
      assert (space + t)[1..] == space[1..] + t;
      SpaceSkipped(space[1..], t);
    }
  }

  /** A line is accepted exactly when it has the shape, whatever white space comes first, and its fields are decoded. */
  lemma ParsedExactly(space: Text8, t: Text8, d: Mount)
    requires forall i :: 0 <= i < |space| ==> space[i] == 32 || 9 <= space[i] <= 13
    requires t != [] ==> t[0] != 32 && !(9 <= t[0] <= 13)
    ensures ParseLine(space + t) == Some(d)
            <==> exists m, mid, rest :: Line(t, m, mid, rest)
                   && d == Mount(Decode(m.root), Decode(m.target), Decode(m.fstype), Decode(m.source))
  {
    SpaceSkipped(space, t);
    if ParseLine(space + t) == Some(d) {
      var m := FieldsFrom(t).value;
      var mid, rest := LineFound(t, m);
    }
    if exists m, mid, rest :: Line(t, m, mid, rest)
         && d == Mount(Decode(m.root), Decode(m.target), Decode(m.fstype), Decode(m.source)) {
      var m, mid, rest :| Line(t, m, mid, rest)
        && d == Mount(Decode(m.root), Decode(m.target), Decode(m.fstype), Decode(m.source));
      LineCut(t, m, mid, rest);
    }
  }

  // ----- what is unescaped and what is not -----

  /** A backslash and three octal digits, together at most 377. */
  predicate EscapeAt(s: Text8, i: nat) {
    i + 3 < |s| && s[i] == 92 && 48 <= s[i + 1] <= 51 && 48 <= s[i + 2] <= 55 && 48 <= s[i + 3] <= 55
  }

  /** Text without an escape is left alone. */
  lemma {:induction false} NothingEscaped(s: Text8)
    requires forall i: nat :: !EscapeAt(s, i)
    ensures Unescape(s) == s
  {
    if s != [] {
      assert !EscapeAt(s, 0);
      forall i: nat
        ensures !EscapeAt(s[1..], i)
      {
        assert !EscapeAt(s, i + 1);
      }
      NothingEscaped(s[1..]);
    }
  }

  /** The first escape is replaced by its byte, and the rest is read on its own. */
  lemma {:induction false} FirstEscape(s: Text8, k: nat)
    requires EscapeAt(s, k) && forall i: nat :: i < k ==> !EscapeAt(s, i)
    ensures Unescape(s)
            == s[..k] + [64 * (s[k + 1] - 48) + 8 * (s[k + 2] - 48) + (s[k + 3] - 48)] + Unescape(s[k + 4..])
  {
    if k > 0 {
      assert !EscapeAt(s, 0);
      forall i: nat | i < k - 1
        ensures !EscapeAt(s[1..], i)
      {
        assert !EscapeAt(s, i + 1);
      }
      FirstEscape(s[1..], k - 1);
      assert s[1..][k - 1 + 4..] == s[k + 4..];
      assert s[..k] == [s[0]] + s[1..][..k - 1];
    }
  }
}
