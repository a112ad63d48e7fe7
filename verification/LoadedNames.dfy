/** The names a configuration leads to, read off the fields of its records. */
module LoadedNames {
  import opened DeviceConfig
  import opened DeviceNames
  import opened DeviceNamesUnique
  import opened Numeration
  import opened Text

  /** `major` belongs to the driver and carries controller number `c`. */
  ghost predicate Carries(base: Record, shorts: seq<Record>, major: nat, c: nat)
    requires Lines(base, shorts)
  {
    (major == base.major && c == base.ctrlno)
    || exists i :: 0 <= i < |shorts| && shorts[i].major == major && shorts[i].ctrlno == c
  }

  lemma EntryLoaded(t: Table, base: Record, shorts: seq<Record>, major: nat, c: nat)
    requires Lines(base, shorts) && t == ApplyAll(Empty(), [base] + shorts) && Carries(base, shorts, major, c)
    ensures WellFormed(t) && major <= MAX_BLKDEV && t.conf[major].Some? && t.blks == [Describe(base)]
    ensures t.conf[major].value.ctrlno == c && t.conf[major].value.basemajor == base.major
    ensures t.conf[major].value.blk == Some(0) && t.refnr[base.major] == |shorts|
  {
    assert shorts[..|shorts|] == shorts;
    LoadPrefix(base, shorts, |shorts|);
  }

  /** Disks are counted from 0: within a controller, and over controllers and high minor bits if `cfmt` starts with
      a star. */
  function DiskNumber(base: Record, others: nat, c: nat, minor: nat): nat
    requires base.Direct? && base.pcount > 0
  {
    minor % 256 / base.pcount
    + if base.cfmt != "" && base.cfmt[0] == '*' then base.dcount * (c + (others + 1) * (minor / 256)) else 0
  }

  lemma ControllerOf(base: Record, c: nat)
    requires base.Direct? && c < 0x1_0000_0000
    ensures Prefix(Describe(base), c)
            == base.name
               + (if base.cfmt != "" && base.cfmt[0] == '*' then ""
                  else base.cfmt + (if c < 0x8000_0000 then Ito10(c) else "-" + Ito10(0x1_0000_0000 - c)))
               + Describe(base).diskPrefix
  {
    NoWrap(c);
  }

  lemma DiskOf(base: Record, u: nat)
    requires base.Direct? && base.dfmt != ""
    requires base.dfmt[0] == 'a' || base.dfmt[0] == '%' || base.dfmt[0] == 'd'
    ensures Describe(base).style != Unset
    ensures Describe(base).diskPrefix + Convert(Describe(base).style, u)
            == if base.dfmt[0] == 'a' then Ito26(u)
               else (if base.dfmt[0] == '%' then base.dfmt[1..] else "") + Ito10(u)
  {
    Nothing(Ito26(u));
  }

  lemma TextsOf(base: Record, c: nat, u: nat, minor: nat)
    requires base.Direct? && base.pcount > 0 && c < 0x1_0000_0000
    requires base.dfmt != "" && (base.dfmt[0] == 'a' || base.dfmt[0] == '%' || base.dfmt[0] == 'd')
    ensures var d := Describe(base);
            Prefix(d, c) + Convert(d.style, u) + Partition(d, minor)
            == base.name
               + (if base.cfmt != "" && base.cfmt[0] == '*' then ""
                  else base.cfmt + (if c < 0x8000_0000 then Ito10(c) else "-" + Ito10(0x1_0000_0000 - c)))
               + (if base.dfmt[0] == 'a' then Ito26(u)
                  else (if base.dfmt[0] == '%' then base.dfmt[1..] else "") + Ito10(u))
               + PartitionText(base, minor)
  {
    var d := Describe(base);
    var front := base.name + if base.cfmt != "" && base.cfmt[0] == '*' then ""
                             else base.cfmt + (if c < 0x8000_0000 then Ito10(c) else "-" + Ito10(0x1_0000_0000 - c));
    PartitionOf(base, minor);
    ControllerOf(base, c);
    DiskOf(base, u);
    Shift(front, d.diskPrefix, Convert(d.style, u), Partition(d, minor));
  }

  lemma Nothing(x: string)
    ensures "" + x == x
  {
  }

  lemma Shift(x: string, d: string, u: string, p: string)
    ensures x + d + u + p == x + (d + u) + p
  {
  }

  function PartitionText(base: Record, minor: nat): string
    requires base.Direct? && base.pcount > 0
  {
    var part := minor % base.pcount;
    if part == 0 then "" else (if base.pfmt != "" && base.pfmt[0] == '*' then "" else base.pfmt) + Ito10(part)
  }

  lemma PartitionOf(base: Record, minor: nat)
    requires base.Direct? && base.pcount > 0
    ensures Partition(Describe(base), minor) == PartitionText(base, minor)
  {
  }

  lemma UnitOf(base: Record, others: nat, c: nat, minor: nat)
    requires base.Direct? && base.pcount > 0
    ensures Unit(Describe(base), c, others, minor) == DiskNumber(base, others, c, minor)
  {
  }

  /** The name routine on an entry whose description has no exception. */
  lemma NameInParts(t: Table, d: BlkConfig, others: nat, major: nat, c: nat, minor: nat)
    requires WellFormed(t) && major <= MAX_BLKDEV && t.blks == [d] && d.ext.None?
    requires t.conf[major].Some? && t.conf[major].value.blk == Some(0) && t.conf[major].value.ctrlno == c
    requires t.refnr[t.conf[major].value.basemajor] == others
    ensures NameOf(t, major, minor)
            == if minor > MAX_MINOR then OutOfRange
               else if minor % 256 >= (d.dcount * d.pcount) % TWO32 then Name(NODEV)
               else if d.style == Unset || d.pcount == 0 then NullPointer
               else Name(Prefix(d, c) + Convert(d.style, Unit(d, c, others, minor) % TWO32) + Partition(d, minor))
  {
  }

  lemma NoPartitions(base: Record)
    requires base.Direct? && base.pcount == 0
    ensures base.dcount * base.pcount % TWO32 == 0
  {
  }

  /** The name of every minor of a loaded driver, from the fields of its full record. */
  lemma LoadedName(t: Table, base: Record, shorts: seq<Record>, major: nat, c: nat, minor: nat)
    requires Lines(base, shorts) && t == ApplyAll(Empty(), [base] + shorts) && Carries(base, shorts, major, c)
    requires c < 0x1_0000_0000
    ensures NameOf(t, major, minor)
            == if minor > 0xF_FFFF then OutOfRange
               else if minor % 256 >= base.dcount * base.pcount % 0x1_0000_0000 then Name("nodev")
               else if base.dfmt == "" || (base.dfmt[0] != 'a' && base.dfmt[0] != '%' && base.dfmt[0] != 'd')
               then NullPointer
               else
                 var unit := DiskNumber(base, |shorts|, c, minor) % 0x1_0000_0000;
                 Name(base.name
                      + (if base.cfmt != "" && base.cfmt[0] == '*' then ""
                         else base.cfmt + (if c < 0x8000_0000 then Ito10(c) else "-" + Ito10(0x1_0000_0000 - c)))
                      + (if base.dfmt[0] == 'a' then Ito26(unit)
                         else (if base.dfmt[0] == '%' then base.dfmt[1..] else "") + Ito10(unit))
                      + PartitionText(base, minor))
  {
    EntryLoaded(t, base, shorts, major, c);
    NameInParts(t, Describe(base), |shorts|, major, c, minor);
    if base.pcount == 0 {
      NoPartitions(base);
    } else {
      UnitOf(base, |shorts|, c, minor);
      if base.dfmt != "" && (base.dfmt[0] == 'a' || base.dfmt[0] == '%' || base.dfmt[0] == 'd') {
        TextsOf(base, c, DiskNumber(base, |shorts|, c, minor) % TWO32, minor);
      }
    }
  }

  /** Majors no record mentions have no device; numbers beyond the table have no name. */
  lemma OtherMajors(t: Table, base: Record, shorts: seq<Record>, major: nat, minor: nat)
    requires Lines(base, shorts) && t == ApplyAll(Empty(), [base] + shorts)
    requires major != base.major && forall i :: 0 <= i < |shorts| ==> shorts[i].major != major
    ensures NameOf(t, major, minor) == if major > 511 || minor > 0xF_FFFF then OutOfRange else Name("nodev")
  {
    NoEntry(t, base, shorts, major);
  }

  lemma NoEntry(t: Table, base: Record, shorts: seq<Record>, major: nat)
    requires Lines(base, shorts) && t == ApplyAll(Empty(), [base] + shorts)
    requires major != base.major && forall i :: 0 <= i < |shorts| ==> shorts[i].major != major
    ensures WellFormed(t) && (major <= MAX_BLKDEV ==> t.conf[major].None?)
  {
    assert shorts[..|shorts|] == shorts;
    LoadPrefix(base, shorts, |shorts|);
  }

  // ----- single records -----

  /** Which records are passed over. */
  lemma DroppedExactly(t: Table, r: Record)
    requires WellFormed(t)
    ensures Apply(t, r) == t <==>
            match r
            case Indirect(major, indirect, _) =>
              indirect == 0 || indirect > 511 || major > 511 || t.conf[indirect] == None
            case Direct(major, _, cfmt, _, _, _, _, _) =>
              major == 0 || major >= 511
              || (cfmt != "" && cfmt[0] == 'x'
                  && (t.conf[major] == None || t.conf[major].value.blk == None
                      || t.blks[t.conf[major].value.blk.value].ext.Some?))
            case Ignored => true
  {
    match r {
      case Indirect(major, indirect, _) =>
        if indirect <= 511 && t.conf[indirect].Some? && Apply(t, r) == t {
          assert Apply(t, r).refnr[indirect] == t.refnr[indirect];
        }
      case Direct(major, _, cfmt, _, _, _, _, _) =>
        if 0 < major < 511 && !(cfmt != "" && cfmt[0] == 'x') {
          assert |Apply(t, r).blks| == |t.blks| + 1;
        } else if 0 < major < 511 && t.conf[major].Some? && t.conf[major].value.blk.Some? {
          var k := t.conf[major].value.blk.value;
          assert t.blks[k].ext.None? ==> Apply(t, r).blks[k].ext.Some?;
        }
      case Ignored =>
    }
  }

  /** A short record that names itself as its referent leaves a major whose names cannot be made. */
  lemma SelfReference(t: Table, major: nat, c: nat, minor: nat)
    requires WellFormed(t) && 0 < major <= 511 && t.conf[major].Some? && minor <= 0xF_FFFF
    ensures NameOf(Apply(t, Indirect(major, major, c)), major, minor) == NullPointer
  {
  }

  /** An exception record names exactly its minor, for every major that shares the description, and no other name
      changes. */
  lemma ExceptionNamed(t: Table, x: Record, major: nat, minor: nat)
    requires WellFormed(t) && x.Direct? && 0 < x.major < 511 && x.cfmt != "" && x.cfmt[0] == 'x'
    requires t.conf[x.major].Some? && t.conf[x.major].value.blk.Some?
    requires t.blks[t.conf[x.major].value.blk.value].ext.None?
    ensures var k := t.conf[x.major].value.blk;
            var d := t.blks[k.value];
            NameOf(Apply(t, x), major, minor)
            == if major <= 511 && t.conf[major].Some? && t.conf[major].value.blk == k && minor == x.ctrlno
                  && minor <= 0xF_FFFF && minor % 256 < d.dcount * d.pcount % 0x1_0000_0000
               then Name(x.name) else NameOf(t, major, minor)
  {
    var k := t.conf[x.major].value.blk.value;
    var u := Apply(t, x);
    assert u.conf == t.conf && u.refnr == t.refnr;
    assert forall j :: 0 <= j < |t.blks| && j != k ==> u.blks[j] == t.blks[j];
    assert u.blks[k] == t.blks[k].(ext := Some(Exception(x.name, x.ctrlno)));
    if major <= MAX_BLKDEV && minor <= MAX_MINOR && t.conf[major].Some? && t.conf[major].value.blk == Some(k) {
      SameButException(t.blks[k], Exception(x.name, x.ctrlno), t.conf[major].value.ctrlno,
                       t.refnr[t.conf[major].value.basemajor], minor);
    }
  }

  lemma SameButException(b: BlkConfig, e: Exception, c: nat, refs: nat, minor: nat)
    ensures var d := b.(ext := Some(e));
            && Prefix(d, c) == Prefix(b, c)
            && (b.pcount > 0 ==> Unit(d, c, refs, minor) == Unit(b, c, refs, minor)
                                 && Partition(d, minor) == Partition(b, minor))
  {
  }

  // ----- SCSI disks -----

  lemma OneLetter(n: nat, c: char)
    requires n < 26 && c as int == 97 + n
    ensures Ito26(n) == [c]
  {
    assert [c][..0] == "";
    Ito26Exact(n, [c]);
  }

  lemma OneDigit(n: nat, c: char)
    requires n < 10 && c as int == 48 + n
    ensures Ito10(n) == [c]
  {
    assert [c][..0] == "";
    Ito10Exact(n, [c]);
  }

  lemma TwoDigits(n: nat, c: char, d: char)
    requires 1 <= n / 10 < 10 && c as int == 48 + n / 10 && d as int == 48 + n % 10
    ensures Ito10(n) == [c, d]
  {
    assert [c, d][..1] == [c] && [c][..0] == "";
    assert DecimalValue([c]) == n / 10;
    Ito10Exact(n, [c, d]);
  }

  /** One controller with letters for disks and bare numbers for partitions, 16 of each. */
  predicate LetteredDisks(r: Record) {
    r.Direct? && r.cfmt == "*" && r.dfmt == "a" && r.pfmt == "*" && r.dcount == r.pcount == 16
  }

  lemma LetteredUnit(base: Record, c: nat, minor: nat)
    requires LetteredDisks(base) && c < 100 && minor < 256
    ensures DiskNumber(base, 1, c, minor) % 0x1_0000_0000 == minor / 16 + 16 * c
    ensures PartitionText(base, minor) == if minor % 16 == 0 then "" else Ito10(minor % 16)
  {
    assert minor / 256 == 0 && minor % 256 == minor;
    Nothing(Ito10(minor % 16));
  }

  lemma NoController(x: string, u: string, p: string)
    ensures x + "" + u + p == x + u + p
  {
    assert x + "" == x;
  }

  /** Names of letters and numbers behind the driver's name. */
  lemma LetteredName(t: Table, base: Record, short: Record, major: nat, c: nat, minor: nat)
    requires Lines(base, [short]) && t == ApplyAll(Empty(), [base] + [short])
    requires LetteredDisks(base) && Carries(base, [short], major, c) && c < 100 && minor < 256
    ensures NameOf(t, major, minor)
            == Name(base.name + Ito26(minor / 16 + 16 * c) + if minor % 16 == 0 then "" else Ito10(minor % 16))
  {
    LetteredUnit(base, c, minor);
    var p := if minor % 16 == 0 then "" else Ito10(minor % 16);
    LoadedName(t, base, [short], major, c, minor);
    NoController(base.name, Ito26(minor / 16 + 16 * c), p);
  }

  lemma ScsiTexts()
    ensures "sd" + Ito26(0) + Ito10(1) == "sda1"
    ensures "sd" + Ito26(1) + "" == "sdb"
    ensures "sd" + Ito26(16) + Ito10(10) == "sdq10"
  {
    OneLetter(0, 'a');
    OneLetter(1, 'b');
    OneLetter(16, 'q');
    OneDigit(1, '1');
    TwoDigits(10, '1', '0');
  }

  lemma ScsiLines(base: Record, short: Record)
    requires base == Direct(8, "sd", "*", 0, "a", 16, "*", 16) && short == Indirect(65, 8, 1)
    ensures Lines(base, [short]) && LetteredDisks(base) && base.name == "sd"
    ensures Carries(base, [short], 8, 0) && Carries(base, [short], 65, 1)
  {
    assert [short][0].major == 65 && [short][0].ctrlno == 1;
  }

  lemma ScsiName(t: Table, base: Record, short: Record, major: nat, c: nat, minor: nat)
    requires Lines(base, [short]) && LetteredDisks(base) && base.name == "sd" && Carries(base, [short], major, c)
    requires t == ApplyAll(Empty(), [base] + [short]) && c < 2 && minor < 256
    ensures NameOf(t, major, minor)
            == Name("sd" + Ito26(minor / 16 + 16 * c) + if minor % 16 == 0 then "" else Ito10(minor % 16))
  {
    LetteredName(t, base, short, major, c, minor);
  }

  /** The SCSI disks of two majors, 16 each with up to 15 partitions. */
  ghost predicate ScsiTable(t: Table, base: Record, short: Record) {
    && base == Direct(8, "sd", "*", 0, "a", 16, "*", 16) && short == Indirect(65, 8, 1)
    && t == ApplyAll(Empty(), [base] + [short])
  }

  lemma FirstPartition(t: Table, base: Record, short: Record)
    requires ScsiTable(t, base, short)
    ensures NameOf(t, 8, 1) == Name("sda1")
  {
    ScsiLines(base, short);
    ScsiTexts();
    ScsiName(t, base, short, 8, 0, 1);
  }

  lemma SecondDisk(t: Table, base: Record, short: Record)
    requires ScsiTable(t, base, short)
    ensures NameOf(t, 8, 16) == Name("sdb")
  {
    ScsiLines(base, short);
    ScsiTexts();
    ScsiName(t, base, short, 8, 0, 16);
  }

  lemma OtherMajorDisk(t: Table, base: Record, short: Record)
    requires ScsiTable(t, base, short)
    ensures NameOf(t, 65, 10) == Name("sdq10")
  {
    ScsiLines(base, short);
    ScsiTexts();
    ScsiName(t, base, short, 65, 1, 10);
  }

  lemma ScsiNames(t: Table, base: Record, short: Record)
    requires ScsiTable(t, base, short)
    ensures NameOf(t, 8, 1) == Name("sda1") && NameOf(t, 8, 16) == Name("sdb") && NameOf(t, 65, 10) == Name("sdq10")
  {
    FirstPartition(t, base, short);
    SecondDisk(t, base, short);
    OtherMajorDisk(t, base, short);
  }
}
