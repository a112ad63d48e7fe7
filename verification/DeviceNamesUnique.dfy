/** Different devices of one driver get different names. */
module DeviceNamesUnique {
  import opened Arithmetic
  import opened Text
  import opened Numeration
  import opened DeviceNames

  // ----- mixed radix -----

  /** Minors that agree above bit 8, on the disk and on the partition are the same. */
  lemma MinorDetermined(pcount: nat, m: nat, n: nat)
    requires pcount > 0
    requires m / 256 == n / 256 && m % 256 / pcount == n % 256 / pcount && m % pcount == n % pcount
    ensures m == n
  {
    DivisionFacts(m % 256, pcount);
    DivisionFacts(n % 256, pcount);
    assert m - n == m % 256 - n % 256;
    if m <= n {
      CongruentNeighbours(pcount, m, n);
    } else {
      CongruentNeighbours(pcount, n, m);
    }
  }

  /** Unit numbers that do not wrap: disk, controller and high minor bits can be read off. */
  lemma UnitDetermines(b: BlkConfig, refs: nat, c: nat, m: nat, c': nat, m': nat)
    requires b.pcount > 0 && b.ctrl.None? && c <= refs && c' <= refs
    requires Disk(b, m) < b.dcount && Disk(b, m') < b.dcount
    requires Unit(b, c, refs, m) == Unit(b, c', refs, m')
    ensures c == c' && m / 256 == m' / 256 && Disk(b, m) == Disk(b, m')
  {
    ThreeDigitsUnique(b.dcount, refs + 1, Disk(b, m), c, m / 256, Disk(b, m'), c', m' / 256);
  }

  lemma DiskInRange(b: BlkConfig, minor: nat)
    requires b.pcount > 0 && minor % 256 < b.dcount * b.pcount
    ensures Disk(b, minor) < b.dcount
  {
    DivisionFacts(minor % 256, b.pcount);
    if Disk(b, minor) >= b.dcount {
      MulMono(b.pcount, b.dcount, Disk(b, minor));
    }
  }

  lemma ProductFits(d: nat, disk: nat, r: nat, c: nat, h: nat)
    requires disk < d && c < r && h <= 4095 && d * r < 0x10_0000
    ensures disk + d * (c + r * h) < TWO32 - 1
  {
    MulMono(r, h, 4095);
    var y := c + r * h;
    assert y + 1 <= r * 4096;
    MulMono(d, y + 1, r * 4096);
    MulStep(d, y);
    assert d * (r * 4096) == 4096 * (d * r);
  }

  lemma UnitFits(b: BlkConfig, refs: nat, c: nat, m: nat)
    requires b.pcount > 0 && b.ctrl.None? && c <= refs && m <= MAX_MINOR
    requires Disk(b, m) < b.dcount && b.dcount * (refs + 1) < 0x10_0000
    ensures Unit(b, c, refs, m) < TWO32 - 1
  {
    ProductFits(b.dcount, Disk(b, m), refs + 1, c, m / 256);
  }

  // ----- decoding the text -----

  /** A description whose names can be read back: the partition text must not run into the disk number. */
  predicate Readable(b: BlkConfig) {
    && b.style != Unset && b.pcount > 0 && b.dcount * b.pcount < TWO32
    && DigitFree(b.partPrefix) && (b.style == ByNumber ==> b.partPrefix != "")
  }

  lemma PartitionDetermined(b: BlkConfig, m: nat, n: nat)
    requires b.pcount > 0 && m <= MAX_MINOR && n <= MAX_MINOR
    requires Partition(b, m) == Partition(b, n)
    ensures m % b.pcount == n % b.pcount
  {
    var p, q := m % b.pcount, n % b.pcount;
    RemainderBelow(m, b.pcount);
    RemainderBelow(n, b.pcount);
    PartTextInjective(b.partPrefix, p, q);
  }

  lemma PartTextInjective(prefix: string, p: nat, q: nat)
    requires p < TWO32 && q < TWO32
    requires (if p == 0 then "" else prefix + Ito10(p)) == (if q == 0 then "" else prefix + Ito10(q))
    ensures p == q
  {
    Ito10Exact(p, Ito10(p));
    Ito10Exact(q, Ito10(q));
    if p != 0 && q != 0 {
      SamePrefix(prefix, Ito10(p), Ito10(q));
    }
  }

  lemma NumberedDecodes(b: BlkConfig, u: nat, m: nat, v: nat, n: nat)
    requires Readable(b) && b.style == ByNumber && u < TWO32 && v < TWO32
    requires Ito10(u) + Partition(b, m) == Ito10(v) + Partition(b, n)
    ensures u == v && Partition(b, m) == Partition(b, n)
  {
    Ito10Exact(u, Ito10(u));
    Ito10Exact(v, Ito10(v));
    LeadingDigitsUnique(Ito10(u), Partition(b, m), Ito10(v), Partition(b, n));
  }

  /** Letters, an optional digit-free prefix and digits: the trailing digits separate. */
  lemma LetteredDecodes(prefix: string, s: string, d: string, t: string, e: string)
    requires DigitFree(prefix) && AllDigits(d) && AllDigits(e)
    requires Letters(s) && s != "" && Letters(t) && t != ""
    requires s + (if d == "" then "" else prefix + d) == t + (if e == "" then "" else prefix + e)
    ensures s == t && d == e
  {
    var x, y := if d == "" then "" else prefix, if e == "" then "" else prefix;
    assert s + (if d == "" then "" else prefix + d) == s + x + d;
    assert t + (if e == "" then "" else prefix + e) == t + y + e;
    TrailingDigitsUnique(s + x, d, t + y, e);
    SameSuffix(s, t, x);
  }

  function PartDigits(p: nat): string { if p == 0 then "" else Ito10(p) }

  lemma PartitionText(b: BlkConfig, m: nat)
    requires b.pcount > 0 && m <= MAX_MINOR
    ensures AllDigits(PartDigits(m % b.pcount))
    ensures Partition(b, m)
            == var d := PartDigits(m % b.pcount); if d == "" then "" else b.partPrefix + d
  {
    var p := m % b.pcount;
    RemainderBelow(m, b.pcount);
    Ito10Exact(p, Ito10(p));
  }

  lemma SameSuffix(s: string, t: string, x: string)
    requires s + x == t + x
    ensures s == t
  {
    assert |s + x| == |s| + |x| && |t + x| == |t| + |x|;
    assert s == (s + x)[..|s|] && t == (t + x)[..|t|];
  }

  lemma SamePrefix(x: string, s: string, t: string)
    requires x + s == x + t
    ensures s == t
  {
    assert s == (x + s)[|x|..] && t == (x + t)[|x|..];
  }

  /** Disk text and partition text can be separated again. */
  lemma UnitAndPartitionDecode(b: BlkConfig, u: nat, m: nat, v: nat, n: nat)
    requires Readable(b) && u < TWO32 - 1 && v < TWO32 - 1 && m <= MAX_MINOR && n <= MAX_MINOR
    requires Convert(b.style, u) + Partition(b, m) == Convert(b.style, v) + Partition(b, n)
    ensures u == v && m % b.pcount == n % b.pcount
  {
    if b.style == ByNumber {
      NumberedDecodes(b, u, m, v, n);
    } else {
      Ito26Exact(u, Ito26(u));
      Ito26Exact(v, Ito26(v));
      PartitionText(b, m);
      PartitionText(b, n);
      LetteredDecodes(b.partPrefix, Ito26(u), PartDigits(m % b.pcount), Ito26(v), PartDigits(n % b.pcount));
    }
    PartitionDetermined(b, m, n);
  }

  // ----- one family of majors -----

  /** `major` is served through the description of the direct entry `base`. */
  predicate Serves(t: Table, base: nat, major: nat)
    requires WellFormed(t)
  {
    && base <= MAX_BLKDEV && major <= MAX_BLKDEV && t.conf[base].Some? && t.conf[major].Some?
    && t.conf[major].value.basemajor == base
    && t.conf[base].value.blk.Some? && t.conf[major].value.blk == t.conf[base].value.blk
  }

  function Config(t: Table, base: nat): BlkConfig
    requires WellFormed(t) && Serves(t, base, base)
  {
    t.blks[t.conf[base].value.blk.value]
  }

  /** The controllers of a family are numbered 0..refnr without repetition. */
  ghost predicate Family(t: Table, base: nat)
    requires WellFormed(t)
  {
    && Serves(t, base, base)
    && (forall m :: 0 <= m <= MAX_BLKDEV && Serves(t, base, m) ==> t.conf[m].value.ctrlno <= t.refnr[base])
    && forall m, n :: 0 <= m < n <= MAX_BLKDEV && Serves(t, base, m) && Serves(t, base, n) ==>
         t.conf[m].value.ctrlno != t.conf[n].value.ctrlno
  }

  /** A minor of the family that is named by its position, not by the exception record. */
  predicate Regular(t: Table, base: nat, minor: nat)
    requires WellFormed(t) && Serves(t, base, base)
  {
    var b := Config(t, base);
    minor <= MAX_MINOR && minor % 256 < b.dcount * b.pcount && !(b.ext.Some? && b.ext.value.minor == minor)
  }

  lemma RegularName(t: Table, base: nat, major: nat, minor: nat)
    requires WellFormed(t) && Serves(t, base, base) && Serves(t, base, major) && Regular(t, base, minor)
    requires Readable(Config(t, base))
    ensures var b, c := Config(t, base), t.conf[major].value.ctrlno;
            NameOf(t, major, minor)
            == Name(Prefix(b, c) + Convert(b.style, Unit(b, c, t.refnr[base], minor) % TWO32) + Partition(b, minor))
  {
  }

  lemma TextDecodes(b: BlkConfig, c: nat, u: nat, m: nat, c': nat, u': nat, m': nat)
    requires Readable(b) && b.ctrl.None? && u < TWO32 - 1 && u' < TWO32 - 1 && m <= MAX_MINOR && m' <= MAX_MINOR
    requires Prefix(b, c) + Convert(b.style, u) + Partition(b, m)
             == Prefix(b, c') + Convert(b.style, u') + Partition(b, m')
    ensures u == u' && m % b.pcount == m' % b.pcount
  {
    assert Prefix(b, c) == Prefix(b, c');
    SamePrefix3(Prefix(b, c), Convert(b.style, u), Partition(b, m), Convert(b.style, u'), Partition(b, m'));
    UnitAndPartitionDecode(b, u, m, u', m');
  }

  lemma RegularUnitFits(b: BlkConfig, refs: nat, c: nat, m: nat)
    requires b.pcount > 0 && b.ctrl.None? && c <= refs && m <= MAX_MINOR
    requires m % 256 < b.dcount * b.pcount && b.dcount * (refs + 1) < 0x10_0000
    ensures Unit(b, c, refs, m) % TWO32 == Unit(b, c, refs, m) < TWO32 - 1
  {
    DiskInRange(b, m);
    UnitFits(b, refs, c, m);
  }

  /** Implicit controllers: the name determines the device. */
  lemma NamesInjective(t: Table, base: nat, major: nat, minor: nat, major': nat, minor': nat)
    requires WellFormed(t) && Family(t, base) && Readable(Config(t, base)) && Config(t, base).ctrl.None?
    requires Config(t, base).dcount * (t.refnr[base] + 1) < 0x10_0000
    requires Serves(t, base, major) && Regular(t, base, minor)
    requires Serves(t, base, major') && Regular(t, base, minor')
    ensures NameOf(t, major, minor) == NameOf(t, major', minor') <==> major == major' && minor == minor'
  {
    var b, refs := Config(t, base), t.refnr[base];
    var c, c' := t.conf[major].value.ctrlno, t.conf[major'].value.ctrlno;
    RegularName(t, base, major, minor);
    RegularName(t, base, major', minor');
    RegularUnitFits(b, refs, c, minor);
    RegularUnitFits(b, refs, c', minor');
    if NameOf(t, major, minor) == NameOf(t, major', minor') {
      TextDecodes(b, c, Unit(b, c, refs, minor), minor, c', Unit(b, c', refs, minor'), minor');
      DiskInRange(b, minor);
      DiskInRange(b, minor');
      UnitDetermines(b, refs, c, minor, c', minor');
      MinorDetermined(b.pcount, minor, minor');
    }
  }

  lemma SamePrefix3(x: string, s: string, p: string, t: string, q: string)
    requires x + s + p == x + t + q
    ensures s + p == t + q
  {
    assert x + s + p == x + (s + p) && x + t + q == x + (t + q);
    SamePrefix(x, s + p, t + q);
  }

  /** Text after the controller number cannot be mistaken for part of it: a letter or another non-digit follows before
      the digits of the disk do. */
  predicate Separated(b: BlkConfig) { b.style == ByLetter || !AllDigits(b.diskPrefix) }

  lemma ControllerDigits(c: nat)
    requires c < TWO32
    ensures FormatD(c) == (if c < 0x8000_0000 then Ito10(c) else "-" + Ito10(TWO32 - c))
    ensures c < 0x8000_0000 ==> AllDigits(Ito10(c)) && Ito10(c) != "" && FormatD(c)[0] != '-'
    ensures c >= 0x8000_0000 ==> AllDigits(Ito10(TWO32 - c)) && FormatD(c)[0] == '-'
  {
    Ito10Exact(c, Ito10(c));
    if c >= 0x8000_0000 {
      Ito10Exact(TWO32 - c, Ito10(TWO32 - c));
    }
  }

  lemma Reassociate(d: string, p: string, rest: string, r: string)
    ensures d + (p + rest + r) == d + p + (rest + r)
  {
  }

  lemma MoreDigits(d: string, p: string)
    requires AllDigits(d) && AllDigits(p)
    ensures AllDigits(d + p)
  {
  }

  /** Digits, a fixed text and what follows: the digits can be read back if a non-digit comes in time. */
  lemma DigitsDecode(d: string, e: string, fixed: string, r: string, q: string)
    requires AllDigits(d) && AllDigits(e) && d + (fixed + r) == e + (fixed + q)
    requires AllDigits(fixed) ==> r != "" && q != "" && !IsDigit(r[0]) && !IsDigit(q[0])
    ensures d == e && r == q
  {
    var p := DigitPrefix(fixed);
    var rest := DigitPrefixSplits(fixed);
    if rest == "" {
      assert p + rest == p;
    }
    Reassociate(d, p, rest, r);
    Reassociate(e, p, rest, q);
    MoreDigits(d, p);
    MoreDigits(e, p);
    LeadingDigitsUnique(d + p, rest + r, e + p, rest + q);
    SameSuffix(d, e, p);
    SamePrefix(rest, r, q);
  }

  lemma NumbersDecode(c: nat, c': nat, fixed: string, r: string, q: string)
    requires c < TWO32 && c' < TWO32 && Ito10(c) + (fixed + r) == Ito10(c') + (fixed + q)
    requires AllDigits(fixed) ==> r != "" && q != "" && !IsDigit(r[0]) && !IsDigit(q[0])
    ensures c == c' && r == q
  {
    Ito10Exact(c, Ito10(c));
    Ito10Exact(c', Ito10(c'));
    DigitsDecode(Ito10(c), Ito10(c'), fixed, r, q);
  }

  lemma SameSign(c: nat, c': nat, x: string, y: string)
    requires c < TWO32 && c' < TWO32 && FormatD(c) + x == FormatD(c') + y
    ensures c < 0x8000_0000 <==> c' < 0x8000_0000
  {
    ControllerDigits(c);
    ControllerDigits(c');
    assert (FormatD(c) + x)[0] == FormatD(c)[0] && (FormatD(c') + y)[0] == FormatD(c')[0];
  }

  lemma ControllerDecodes(c: nat, c': nat, fixed: string, r: string, q: string)
    requires c < TWO32 && c' < TWO32 && FormatD(c) + (fixed + r) == FormatD(c') + (fixed + q)
    requires AllDigits(fixed) ==> r != "" && q != "" && !IsDigit(r[0]) && !IsDigit(q[0])
    ensures c == c' && r == q
  {
    SameSign(c, c', fixed + r, fixed + q);
    if c < 0x8000_0000 {
      NumbersDecode(c, c', fixed, r, q);
    } else {
      MinusAside(Ito10(TWO32 - c), fixed + r);
      MinusAside(Ito10(TWO32 - c'), fixed + q);
      NumbersDecode(TWO32 - c, TWO32 - c', fixed, r, q);
    }
  }

  lemma MinusAside(d: string, r: string)
    ensures ("-" + d + r)[1..] == d + r
  {
  }

  lemma DiskTextStart(b: BlkConfig, u: nat, m: nat)
    requires b.style == ByLetter && b.pcount > 0 && u < TWO32 - 1
    ensures var r := Convert(b.style, u) + Partition(b, m); r != "" && !IsDigit(r[0])
  {
    Ito26Exact(u, Ito26(u));
  }

  lemma ExplicitTextDetermines(b: BlkConfig, c: nat, u: nat, m: nat, c': nat, u': nat, m': nat)
    requires Readable(b) && b.ctrl.Some? && Separated(b) && m <= MAX_MINOR && m' <= MAX_MINOR
    requires c < TWO32 && c' < TWO32 && u < 256 && u' < 256
    requires Prefix(b, c) + Convert(b.style, u) + Partition(b, m)
             == Prefix(b, c') + Convert(b.style, u') + Partition(b, m')
    ensures c == c' && u == u' && m % b.pcount == m' % b.pcount
  {
    var r, r' := Convert(b.style, u) + Partition(b, m), Convert(b.style, u') + Partition(b, m');
    ExplicitText(b, c, u, m);
    ExplicitText(b, c', u', m');
    SamePrefix(b.name + b.ctrl.value, FormatD(c) + (b.diskPrefix + r), FormatD(c') + (b.diskPrefix + r'));
    if b.style == ByLetter {
      DiskTextStart(b, u, m);
      DiskTextStart(b, u', m');
    }
    ControllerDecodes(c, c', b.diskPrefix, r, r');
    UnitAndPartitionDecode(b, u, m, u', m');
  }

  /** Without a separator names do run together: disk 11 of controller 1 is disk 1 of controller 11. */
  lemma UnseparatedCollision(b: BlkConfig, m: nat)
    requires b.ctrl.Some? && b.style == ByNumber && b.diskPrefix == "" && b.pcount > 0
    ensures Prefix(b, 1) + Convert(b.style, 11) + Partition(b, m)
            == Prefix(b, 11) + Convert(b.style, 1) + Partition(b, m)
  {
    var x := b.name + b.ctrl.value;
    assert Prefix(b, 1) + Convert(b.style, 11) == x + ("1" + "11");
    assert Prefix(b, 11) + Convert(b.style, 1) == x + ("11" + "1");
    assert "1" + "11" == "11" + "1";
  }

  lemma ExplicitName(t: Table, base: nat, major: nat, minor: nat)
    requires WellFormed(t) && Serves(t, base, base) && Serves(t, base, major) && Regular(t, base, minor)
    requires Readable(Config(t, base)) && Config(t, base).ctrl.Some?
    ensures var b := Config(t, base);
            NameOf(t, major, minor)
            == Name(Prefix(b, t.conf[major].value.ctrlno) + Convert(b.style, Disk(b, minor)) + Partition(b, minor))
  {
    RegularName(t, base, major, minor);
    NoWrap(Disk(Config(t, base), minor));
  }

  lemma NoWrap(n: nat)
    requires n < TWO32
    ensures n % TWO32 == n
  {
  }

  /** Explicit controllers: the high minor bits are dropped, so a name fixes exactly controller, disk and partition. */
  lemma ExplicitControllerNames(t: Table, base: nat, major: nat, minor: nat, major': nat, minor': nat)
    requires WellFormed(t) && Family(t, base) && Readable(Config(t, base)) && Config(t, base).ctrl.Some?
    requires Separated(Config(t, base))
    requires Serves(t, base, major) && Regular(t, base, minor) && t.conf[major].value.ctrlno < TWO32
    requires Serves(t, base, major') && Regular(t, base, minor') && t.conf[major'].value.ctrlno < TWO32
    ensures NameOf(t, major, minor) == NameOf(t, major', minor')
            <==> major == major'
                 && Disk(Config(t, base), minor) == Disk(Config(t, base), minor')
                 && minor % Config(t, base).pcount == minor' % Config(t, base).pcount
  {
    var b := Config(t, base);
    var u, u' := Disk(b, minor), Disk(b, minor');
    ExplicitName(t, base, major, minor);
    ExplicitName(t, base, major', minor');
    if NameOf(t, major, minor) == NameOf(t, major', minor') {
      ExplicitTextDetermines(b, t.conf[major].value.ctrlno, u, minor, t.conf[major'].value.ctrlno, u', minor');
    }
  }

  lemma ExplicitText(b: BlkConfig, c: nat, u: nat, minor: nat)
    requires b.ctrl.Some? && b.style != Unset && b.pcount > 0 && c < TWO32
    ensures Prefix(b, c) + Convert(b.style, u) + Partition(b, minor)
            == b.name + b.ctrl.value + (FormatD(c) + (b.diskPrefix + (Convert(b.style, u) + Partition(b, minor))))
  {
    Regroup(b.name, b.ctrl.value, FormatD(c), b.diskPrefix, Convert(b.style, u), Partition(b, minor));
  }

  lemma Regroup(n: string, x: string, c: string, d: string, u: string, p: string)
    ensures n + (x + c) + d + u + p == n + x + (c + (d + (u + p)))
  {
  }

  /** The collision this leaves: minors 256 apart share a name exactly when partitions divide 256 evenly. */
  lemma ExplicitControllerCollision(t: Table, base: nat, major: nat, minor: nat)
    requires WellFormed(t) && Serves(t, base, base) && Readable(Config(t, base)) && Config(t, base).ctrl.Some?
    requires Serves(t, base, major) && Regular(t, base, minor) && Regular(t, base, minor + 256)
    ensures 256 % Config(t, base).pcount == 0 <==> NameOf(t, major, minor) == NameOf(t, major, minor + 256)
  {
    var b := Config(t, base);
    var u := Disk(b, minor);
    assert (minor + 256) % 256 == minor % 256;
    ExplicitName(t, base, major, minor);
    ExplicitName(t, base, major, minor + 256);
    ShiftKeepsRemainder(minor, 256, b.pcount);
    if NameOf(t, major, minor) == NameOf(t, major, minor + 256) {
      var x := Prefix(b, t.conf[major].value.ctrlno) + Convert(b.style, u);
      SamePrefix(x, Partition(b, minor), Partition(b, minor + 256));
      PartitionDetermined(b, minor, minor + 256);
    }
  }
}
