/** Splitting and unescaping a mount table line inside its own buffer. */
module MountBuffer {
  import opened Bytes
  import opened MountText
  import opened Text

  /** From `p` on the buffer holds `tail` and its terminator, up to its end. */
  ghost predicate Holds(b: Text8, p: nat, tail: Text8) {
    p <= |b| && NulFree(tail) && b[p..] == tail + [0]
  }

  /** `s` with its terminator stands at `p`. */
  ghost predicate StringAt(b: Text8, p: nat, s: Text8) {
    && NulFree(s) && p + |s| < |b| && b[p + |s|] == 0
    && forall k :: 0 <= k < |s| ==> b[p + k] == s[k]
  }

  /** `u` and a terminator stand at `p`; `u` may hold terminators of its own. */
  ghost predicate BytesAt(b: Text8, p: nat, u: Text8) {
    p + |u| < |b| && b[p + |u|] == 0 && forall k :: 0 <= k < |u| ==> b[p + k] == u[k]
  }

  ghost predicate OutsideSame(b: Text8, c: Text8, lo: nat, hi: nat) {
    |b| == |c| && forall k :: 0 <= k < |b| && (k < lo || hi < k) ==> c[k] == b[k]
  }

  /** Stops where the scan of the device numbers stops. */
  method SkipBlanks(buf: array<Byte>, p: nat, ghost tail: Text8) returns (q: nat)
    requires Holds(buf[..], p, tail)
    ensures Holds(buf[..], q, SkipSpace(tail))
  {
    q := p;
    ghost var rest := tail;
    while IsSpaceByte(buf[q])
      invariant Holds(buf[..], q, rest) && SkipSpace(rest) == SkipSpace(tail)
      decreases |rest|
    {
      assert buf[q] == buf[..][q..][0];
      assert rest != [];
      assert buf[..][q + 1..] == buf[..][q..][1..];
      q := q + 1;
      rest := rest[1..];
    }
    assert buf[q] == buf[..][q..][0];
  }

  /** Puts a terminator over the first blank at or after `p`. */
  method TerminateAtBlank(buf: array<Byte>, p: nat, ghost tail: Text8) returns (r: Option<nat>)
    requires Holds(buf[..], p, tail)
    modifies buf
    ensures Cut(tail).None? ==> r.None? && buf[..] == old(buf[..])
    ensures Cut(tail).Some? ==>
              && r == Some(p + |Cut(tail).value.0|) && r.value < buf.Length
              && buf[..] == old(buf[..])[r.value := 0]
              && StringAt(buf[..], p, Cut(tail).value.0) && Holds(buf[..], r.value + 1, Cut(tail).value.1)
  {
    var i := p;
    ghost var rest, k := tail, 0;
    while buf[i] != 0 && buf[i] != BLANK
      invariant i == p + k && k <= |tail| && rest == tail[k..] && Holds(buf[..], i, rest)
      invariant BlankFree(tail[..k])
      decreases |rest|
    {
      assert buf[i] == buf[..][i..][0];
      assert buf[..][i + 1..] == buf[..][i..][1..];
      i := i + 1;
      rest := rest[1..];
      k := k + 1;
    }
    assert buf[i] == buf[..][i..][0];
    if buf[i] == 0 {
      assert rest == [];
      return None;
    }
    buf[i] := 0;
    return Some(i);
  }

  /** `strstr` for the separator. */
  method FindSeparator(buf: array<Byte>, p: nat, ghost tail: Text8) returns (r: Option<nat>)
    requires Holds(buf[..], p, tail)
    ensures r == match FindDash(tail) case None => None case Some(d) => Some(p + d)
  {
    var i := p;
    ghost var rest, k := tail, 0;
    while buf[i] != 0
      invariant i == p + k && k <= |tail| && rest == tail[k..] && Holds(buf[..], i, rest)
      invariant FindDash(tail) == match FindDash(rest) case None => None case Some(d) => Some(k + d)
      decreases |rest|
    {
      if buf[i] == BLANK && buf[i + 1] == DASH && buf[i + 2] == BLANK {
        return Some(i);
      }
      assert buf[..][i + 1..] == buf[..][i..][1..];
      i := i + 1;
      rest := rest[1..];
      k := k + 1;
    }
    assert buf[i] == buf[..][i..][0];
    assert rest == [];
    return None;
  }

  method StrLen(buf: array<Byte>, p: nat, ghost s: Text8) returns (n: nat)
    requires StringAt(buf[..], p, s)
    ensures n == |s|
  {
    n := 0;
    while buf[p + n] != 0
      invariant n <= |s| && (n < |s| ==> buf[p + n] == s[n])
      decreases |s| - n
    {
      n := n + 1;
    }
  }

  /** The byte to copy from position `q`, where `left` characters remain, and whether it was escaped. */
  method ReadByte(buf: array<Byte>, q: nat, left: nat, ghost t: Text8) returns (escaped: bool, b: Byte)
    requires 0 < left == |t| && q + left <= buf.Length && forall k :: 0 <= k < left ==> buf[q + k] == t[k]
    ensures escaped == StartsEscape(t)
    ensures b == if escaped then EscapedByte(t) else t[0]
  {
    assert buf[q] == t[0] && buf[q + (left - 1)] == t[left - 1];
    assert left >= 4 ==> buf[q + 1] == t[1] && buf[q + 2] == t[2] && buf[q + 3] == t[3];
    escaped := buf[q] == BACKSLASH && left >= 4
               && Octal(buf[q + 1], 51) && Octal(buf[q + 2], 55) && Octal(buf[q + 3], 55);
    b := if escaped then (buf[q + 1] - 48) * 64 + (buf[q + 2] - 48) * 8 + (buf[q + 3] - 48) else buf[q];
  }

  /** Unescapes the string at `p` in place. Nothing in front of it or behind the new terminator changes. */
  method UnescapeTab(buf: array<Byte>, p: nat, ghost s: Text8)
    requires StringAt(buf[..], p, s)
    modifies buf
    ensures BytesAt(buf[..], p, Unescape(s)) && OutsideSame(old(buf[..]), buf[..], p, p + |Unescape(s)|)
  {
    var n := StrLen(buf, p, s);
    var i, j := 0, 0;
    ghost var u := Unescape(s);
    while i < n
      invariant j <= i <= n && Remaining(s, i, u, j)
      invariant forall k :: 0 <= k < j ==> buf[p + k] == u[k]
      invariant forall k :: 0 <= k < p || p + j <= k < buf.Length ==> buf[k] == old(buf[k])
    {
      UnescapeStep(s, i, u, j);
      var escaped, b := ReadByte(buf, p + i, n - i, s[i..]);
      buf[p + j] := b;
      j := j + 1;
      if escaped {
        i := i + 3;
      }
      i := i + 1;
    }
    // The last round copies the terminator.
    assert s[n..] == [];
    buf[p + j] := buf[p + n];
  }

  /** What is left to write of `u` is what is left to read of `s`. */
  ghost predicate Remaining(s: Text8, i: nat, u: Text8, j: nat) {
    i <= |s| && j <= |u| && u[j..] == Unescape(s[i..])
  }

  lemma UnescapeStep(s: Text8, i: nat, u: Text8, j: nat)
    requires i < |s| && Remaining(s, i, u, j)
    ensures j < |u|
    ensures StartsEscape(s[i..]) ==> u[j] == EscapedByte(s[i..]) && Remaining(s, i + 4, u, j + 1)
    ensures !StartsEscape(s[i..]) ==> u[j] == s[i] && Remaining(s, i + 1, u, j + 1)
  {
    var t := s[i..];
    assert t[0] == s[i] && t[1..] == s[i + 1..];
    assert u[j] == u[j..][0];
    assert u[j + 1..] == u[j..][1..];
    if StartsEscape(t) {
      assert t[4..] == s[i + 4..];
    }
  }

  // ----- the whole line -----

  /** The starts of the four fields. */
  datatype Places = Places(root: nat, target: nat, fstype: nat, source: nat)

  /** The undecoded fields stand in the buffer one behind the other. */
  ghost predicate FieldsAt(b: Text8, at: Places, m: Mount) {
    && StringAt(b, at.root, m.root) && StringAt(b, at.target, m.target)
    && StringAt(b, at.fstype, m.fstype) && StringAt(b, at.source, m.source)
    && at.root + |m.root| < at.target && at.target + |m.target| < at.fstype && at.fstype + |m.fstype| < at.source
  }

  lemma BytesKept(b: Text8, c: Text8, lo: nat, hi: nat, p: nat, u: Text8)
    requires BytesAt(b, p, u) && OutsideSame(b, c, lo, hi) && (p + |u| < lo || hi < p)
    ensures BytesAt(c, p, u)
  {
  }

  /** Type and source: the two fields behind the separator. */
  method SplitEnd(buf: array<Byte>, p: nat, ghost tail: Text8) returns (r: Option<(nat, nat)>)
    requires Holds(buf[..], p, tail)
    modifies buf
    ensures r.None? <==> TypeAndSource(tail).None?
    ensures r.Some? ==>
              && StringAt(buf[..], r.value.0, TypeAndSource(tail).value.0)
              && StringAt(buf[..], r.value.1, TypeAndSource(tail).value.1)
              && p == r.value.0 && r.value.0 + |TypeAndSource(tail).value.0| < r.value.1
    ensures OutsideSame(old(buf[..]), buf[..], p, buf.Length)
  {
    var e := TerminateAtBlank(buf, p, tail);
    if e.None? {
      return None;
    }
    var source := e.value + 1;
    ghost var before, fstype := buf[..], Cut(tail).value.0;
    var f := TerminateAtBlank(buf, source, Cut(tail).value.1);
    if f.None? {
      return None;
    }
    return Some((p, source));
  }

  /** From the target on: target, type and source. */
  method SplitFromTarget(buf: array<Byte>, target: nat, ghost t1: Text8) returns (r: Option<(nat, nat)>)
    requires Holds(buf[..], target, t1)
    modifies buf
    ensures r.None? <==> FromTarget(t1).None?
    ensures r.Some? ==>
              var m := FromTarget(t1).value;
              && StringAt(buf[..], target, m.0) && StringAt(buf[..], r.value.0, m.1)
              && StringAt(buf[..], r.value.1, m.2)
              && target + |m.0| < r.value.0 && r.value.0 + |m.1| < r.value.1
    ensures OutsideSame(old(buf[..]), buf[..], target, buf.Length)
  {
    var e := TerminateAtBlank(buf, target, t1);
    if e.None? {
      return None;
    }
    ghost var c1, b1 := Cut(t1).value, buf[..];
    var dash := FindSeparator(buf, e.value + 1, c1.1);
    if dash.None? {
      return None;
    }
    DashSkipped(buf[..], e.value + 1, c1.1);
    r := SplitEnd(buf, dash.value + 3, AfterDash(c1.1).value);
    if r.Some? {
    }
  }

  /** Cuts the line at its blanks and its separator. */
  method SplitLine(buf: array<Byte>, p: nat, ghost tail: Text8) returns (r: Option<Places>)
    requires Holds(buf[..], p, tail)
    modifies buf
    ensures r.None? <==> Fields(tail).None?
    ensures r.Some? ==> FieldsAt(buf[..], r.value, Fields(tail).value)
  {
    var root := SkipBlanks(buf, p, tail);
    ghost var t0 := SkipSpace(tail);
    var e := TerminateAtBlank(buf, root, t0);
    if e.None? {
      return None;
    }
    var target := e.value + 1;
    ghost var c0, b0 := Cut(t0).value, buf[..];
    var ends := SplitFromTarget(buf, target, c0.1);
    if ends.None? {
      return None;
    }
    return Some(Places(root, target, ends.value.0, ends.value.1));
  }

  lemma DashSkipped(b: Text8, p: nat, tail: Text8)
    requires Holds(b, p, tail) && FindDash(tail).Some?
    ensures Holds(b, p + FindDash(tail).value + 3, AfterDash(tail).value)
  {
    var d := FindDash(tail).value + 3;
    assert b[p + d..] == b[p..][d..];
    assert (tail + [0])[d..] == tail[d..] + [0];
  }

  /** Copies the C string at `p`. */
  method ReadString(buf: array<Byte>, p: nat, ghost u: Text8) returns (s: Text8)
    requires BytesAt(buf[..], p, u)
    ensures s == UpToNul(u)
  {
    s := [];
    var n := 0;
    assert u[0..] == u;
    while buf[p + n] != 0
      invariant n <= |u| && (n < |u| ==> buf[p + n] == u[n]) && s + UpToNul(u[n..]) == UpToNul(u)
      decreases |u| - n
    {
      assert UpToNul(u[n..]) == [u[n]] + UpToNul(u[n + 1..]) by {
        assert u[n..][1..] == u[n + 1..];
      }
      s := s + [buf[p + n]];
      n := n + 1;
    }
    assert UpToNul(u[n..]) == [];
  }

  method UnescapeFields(buf: array<Byte>, at: Places, ghost m: Mount)
    requires FieldsAt(buf[..], at, m)
    modifies buf
    ensures BytesAt(buf[..], at.root, Unescape(m.root)) && BytesAt(buf[..], at.target, Unescape(m.target))
    ensures BytesAt(buf[..], at.fstype, Unescape(m.fstype)) && BytesAt(buf[..], at.source, Unescape(m.source))
  {
    ghost var b0 := buf[..];
    UnescapeTab(buf, at.source, m.source);
    ghost var b1, us := buf[..], Unescape(m.source);
    UnescapeTab(buf, at.target, m.target);
    ghost var b2, ut := buf[..], Unescape(m.target);
    BytesKept(b1, b2, at.target, at.target + |ut|, at.source, us);
    UnescapeTab(buf, at.root, m.root);
    ghost var b3, ur := buf[..], Unescape(m.root);
    BytesKept(b2, b3, at.root, at.root + |ur|, at.source, us);
    BytesKept(b2, b3, at.root, at.root + |ur|, at.target, ut);
    UnescapeTab(buf, at.fstype, m.fstype);
    ghost var b4, uf := buf[..], Unescape(m.fstype);
    BytesKept(b3, b4, at.fstype, at.fstype + |uf|, at.source, us);
    BytesKept(b3, b4, at.fstype, at.fstype + |uf|, at.target, ut);
    BytesKept(b3, b4, at.fstype, at.fstype + |uf|, at.root, ur);
  }

  /** One line of the table: the fields, decoded in place. `p` is where the scan of the device numbers stopped. */
  method ParseMountLine(buf: array<Byte>, p: nat, ghost tail: Text8) returns (r: Option<Mount>)
    requires Holds(buf[..], p, tail)
    modifies buf
    ensures r == ParseLine(tail)
  {
    var at := SplitLine(buf, p, tail);
    if at.None? {
      return None;
    }
    ghost var m := Fields(tail).value;
    UnescapeFields(buf, at.value, m);
    var root := ReadString(buf, at.value.root, Unescape(m.root));
    var target := ReadString(buf, at.value.target, Unescape(m.target));
    var fstype := ReadString(buf, at.value.fstype, Unescape(m.fstype));
    var source := ReadString(buf, at.value.source, Unescape(m.source));
    return Some(Mount(root, target, fstype, source));
  }

  /** The round trip in the buffer: a printed line, parsed and unescaped in place, gives the mount back exactly as the
      text does, so it does for every root the scan can see. */
  method ReadBack(buf: array<Byte>, p: nat, ghost m: Mount, ghost options: Text8, ghost optional: seq<Text8>,
                  ghost rest: Text8, ghost special: set<Byte>)
    returns (r: Option<Mount>)
    requires Printable(m, options, optional) && NulFree(rest) && {9, 10, BLANK, BACKSLASH} <= special
    requires p <= buf.Length && buf[p..] == PrintLine(m, options, optional, rest, special) + [0]
    modifies buf
    ensures RootVisible(m.root) ==> r == Some(m)
    ensures r == ParseLine(PrintLine(m, options, optional, rest, special))
  {
    PrintedNulFree(m, options, optional, rest, special);
    r := ParseMountLine(buf, p, PrintLine(m, options, optional, rest, special));
    if RootVisible(m.root) {
      MountRoundTrip(m, options, optional, rest, special);
    }
  }
}
