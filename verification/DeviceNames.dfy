/** The table of block devices and the names made from (major, minor) pairs. */
module DeviceNames {
  import opened Arithmetic
  import opened Text
  import opened Numeration

  const MAX_BLKDEV: nat := 511
  const MAX_MINOR: nat := 0xF_FFFF
  const NODEV := "nodev"

  /** How disk numbers are written; `Unset` leaves the conversion pointer null. */
  datatype DiskStyle = ByLetter | ByNumber | Unset

  datatype Exception = Exception(name: string, minor: nat)

  /** A device description. `ctrl` is the text before an explicit controller number. */
  datatype BlkConfig = BlkConfig(name: string, ctrl: Option<string>, diskPrefix: string, style: DiskStyle,
                                 partPrefix: string, dcount: nat, pcount: nat, ext: Option<Exception>)

  /** What the table holds for a major; `blk` is the shared description, absent when the pointer is null. */
  datatype Entry = Entry(live: bool, ctrlno: nat, basemajor: nat, blk: Option<nat>)

  datatype Table = Table(conf: seq<Option<Entry>>, refnr: seq<nat>, blks: seq<BlkConfig>)

  ghost predicate WellFormed(t: Table) {
    && |t.conf| == |t.refnr| == MAX_BLKDEV + 1
    && forall m :: 0 <= m <= MAX_BLKDEV && t.conf[m].Some? ==>
         t.conf[m].value.basemajor <= MAX_BLKDEV
         && (t.conf[m].value.blk.Some? ==> t.conf[m].value.blk.value < |t.blks|)
  }

  // ----- one line of the configuration file -----

  datatype Record =
    | Indirect(major: nat, indirect: nat, ctrlno: nat)
    | Direct(major: nat, name: string, cfmt: string, ctrlno: nat, dfmt: string, dcount: nat,
             pfmt: string, pcount: nat)
    | Ignored

  function Starts(s: string, c: char): bool { s != "" && s[0] == c }

  /** The description a full record sets up. */
  function Describe(r: Record): BlkConfig
    requires r.Direct?
  {
    BlkConfig(r.name,
              if Starts(r.cfmt, '*') then None else Some(r.cfmt),
              if Starts(r.dfmt, '%') then r.dfmt[1..] else "",
              if Starts(r.dfmt, 'a') then ByLetter
              else if Starts(r.dfmt, '%') || Starts(r.dfmt, 'd') then ByNumber else Unset,
              if Starts(r.pfmt, '*') then "" else r.pfmt,
              r.dcount, r.pcount, None)
  }

  /** The table after one record. An indirect record that names itself ends with a null description,
      because its entry is stored before the description of its referent is looked up. */
  function Apply(t: Table, r: Record): (u: Table)
    requires WellFormed(t)
    ensures WellFormed(u)
  {
    match r
    case Indirect(major, indirect, ctrlno) =>
      if indirect == 0 || indirect > MAX_BLKDEV || major > MAX_BLKDEV || t.conf[indirect].None? then t
      else
        var blk := if major == indirect then None else t.conf[indirect].value.blk;
        t.(refnr := t.refnr[indirect := t.refnr[indirect] + 1],
           conf := t.conf[major := Some(Entry(false, ctrlno, indirect, blk))])
    case Direct(major, _, cfmt, ctrlno, _, _, _, _) =>
      if major == 0 || major >= MAX_BLKDEV then t
      else if Starts(cfmt, 'x') then
        if t.conf[major].None? || t.conf[major].value.blk.None? then t
        else
          var k := t.conf[major].value.blk.value;
          if t.blks[k].ext.Some? then t
          else t.(blks := t.blks[k := t.blks[k].(ext := Some(Exception(r.name, ctrlno)))])
      else
        t.(conf := t.conf[major := Some(Entry(true, ctrlno, major, Some(|t.blks|)))],
           blks := t.blks + [Describe(r)])
    case Ignored => t
  }

  function ApplyAll(t: Table, records: seq<Record>): (u: Table)
    requires WellFormed(t)
    ensures WellFormed(u)
  {
    if records == [] then t
    else Apply(ApplyAll(t, records[..|records| - 1]), records[|records| - 1])
  }

  function Empty(): (t: Table)
    ensures WellFormed(t)
  {
    Table(seq(MAX_BLKDEV + 1, _ => None), seq(MAX_BLKDEV + 1, _ => 0), [])
  }

  // ----- names -----

  datatype NameResult = OutOfRange | Name(text: string) | NullPointer

  /** "%d" applied to an unsigned number. */
  function FormatD(n: nat): string
    requires n < TWO32
  {
    if n < 0x8000_0000 then Ito10(n) else "-" + Ito10(TWO32 - n)
  }

  function Disk(b: BlkConfig, minor: nat): (disk: nat)
    requires b.pcount > 0
    ensures disk < 256
  {
    SmallQuotient(minor % 256, b.pcount);
    minor % 256 / b.pcount
  }

  /** The unit number of a minor: disks are the lowest digit, then controllers, then minor bits above 8. */
  function Unit(b: BlkConfig, ctrlno: nat, refs: nat, minor: nat): nat
    requires b.pcount > 0
  {
    if b.ctrl.Some? then Disk(b, minor) else Disk(b, minor) + b.dcount * (ctrlno + (refs + 1) * (minor / 256))
  }

  function Convert(style: DiskStyle, n: nat): string
    requires style != Unset
  {
    if style == ByLetter then Ito26(n) else Ito10(n)
  }

  function Partition(b: BlkConfig, minor: nat): string
    requires b.pcount > 0
  {
    var p := minor % b.pcount;
    if p == 0 then "" else b.partPrefix + Ito10(p)
  }

  function Prefix(b: BlkConfig, ctrlno: nat): string {
    b.name + (if b.ctrl.Some? then b.ctrl.value + FormatD(ctrlno % TWO32) else "") + b.diskPrefix
  }

  /** The name of (major, minor) under a loaded table. */
  function NameOf(t: Table, major: nat, minor: nat): NameResult
    requires WellFormed(t)
  {
    if major > MAX_BLKDEV || minor > MAX_MINOR then OutOfRange
    else if t.conf[major].None? then Name(NODEV)
    else
      var e := t.conf[major].value;
      if e.blk.None? then NullPointer
      else
        var b := t.blks[e.blk.value];
        if minor % 256 >= (b.dcount * b.pcount) % TWO32 then Name(NODEV)
        else if b.ext.Some? && b.ext.value.minor == minor then Name(b.ext.value.name)
        else if b.style == Unset || b.pcount == 0 then NullPointer
        else Name(Prefix(b, e.ctrlno)
                  + Convert(b.style, Unit(b, e.ctrlno, t.refnr[e.basemajor], minor) % TWO32)
                  + Partition(b, minor))
  }

  /** What controller and high minor bits contribute. */
  function Base(dcount: nat, ctrlno: nat, refs: nat, high: nat): nat {
    ctrlno * dcount + dcount * (refs + 1) * high
  }

  lemma UnitParts(b: BlkConfig, ctrlno: nat, refs: nat, minor: nat)
    requires b.pcount > 0 && b.ctrl.None?
    ensures Unit(b, ctrlno, refs, minor) == Base(b.dcount, ctrlno, refs, minor / 256) + Disk(b, minor)
  {
    Distribute(b.dcount, ctrlno, refs + 1, minor / 256);
  }

  /** The unit number as the program adds it up, in 32 bits. */
  method UnitNumber(b: BlkConfig, ctrlno: nat, refs: nat, minor: nat) returns (offset: nat)
    requires b.pcount > 0
    ensures offset == Unit(b, ctrlno, refs, minor) % TWO32
  {
    offset := Disk(b, minor);
    if b.ctrl.None? {
      var base := MachineBase(b.dcount, ctrlno, refs, minor / 256);
      UnitParts(b, ctrlno, refs, minor);
      offset := AddWrapped(base, offset, Base(b.dcount, ctrlno, refs, minor / 256));
    }
  }

  /** 32-bit addition to a number `x` that has been cut to `low`. */
  method AddWrapped(low: nat, y: nat, ghost x: nat) returns (r: nat)
    requires low == x % TWO32
    ensures r == (x + y) % TWO32
  {
    WrapAdd(x, y);
    r := (low + y) % TWO32;
  }

  method MachineBase(dcount: nat, ctrlno: nat, refs: nat, high: nat) returns (base: nat)
    ensures base == Base(dcount, ctrlno, refs, high) % TWO32
  {
    base := ctrlno * dcount % TWO32;
    if high > 0 {
      base := AddWrapped(base, dcount * (refs + 1) * high, ctrlno * dcount);
    }
  }

  /** The table as the program keeps it, with 32-bit arithmetic in the name routine. */
  class DeviceTable {
    const conf: array<Option<Entry>>
    const refnr: array<nat>
    var blks: seq<BlkConfig>

    ghost predicate Valid()
      reads this, conf, refnr
    {
      WellFormed(State())
    }

    ghost function State(): Table
      reads this, conf, refnr
    {
      Table(conf[..], refnr[..], blks)
    }

    constructor ()
      ensures Valid() && State() == Empty() && fresh(conf) && fresh(refnr)
    {
      conf := new Option<Entry>[MAX_BLKDEV + 1](_ => None);
      refnr := new nat[MAX_BLKDEV + 1](_ => 0);
      blks := [];
      new;
      assert State() == Empty();
    }

    method ApplyIndirect(major: nat, indirect: nat, ctrlno: nat)
      requires Valid()
      modifies this, conf, refnr
      ensures Valid() && State() == Apply(old(State()), Indirect(major, indirect, ctrlno))
    {
      if indirect == 0 || indirect > MAX_BLKDEV || major > MAX_BLKDEV {
        return;
      }
      if conf[indirect].None? {
        return;
      }
      refnr[indirect] := refnr[indirect] + 1;
      conf[major] := Some(Entry(false, ctrlno, indirect, None));
      conf[major] := Some(Entry(false, ctrlno, indirect, conf[indirect].value.blk));
    }

    method ApplyDirect(r: Record)
      requires Valid() && r.Direct?
      modifies this, conf
      ensures Valid() && State() == Apply(old(State()), r)
    {
      if r.major == 0 || r.major >= MAX_BLKDEV {
        return;
      }
      if Starts(r.cfmt, 'x') {
        if conf[r.major].None? || conf[r.major].value.blk.None? {
          return;
        }
        var k := conf[r.major].value.blk.value;
        if blks[k].ext.None? {
          blks := blks[k := blks[k].(ext := Some(Exception(r.name, r.ctrlno)))];
        }
        return;
      }
      conf[r.major] := Some(Entry(true, r.ctrlno, r.major, Some(|blks|)));
      blks := blks + [Describe(r)];
    }

    method IocInit(records: seq<Record>)
      requires Valid()
      modifies this, conf, refnr
      ensures Valid() && State() == ApplyAll(old(State()), records)
    {
      for i := 0 to |records|
        invariant Valid() && State() == ApplyAll(old(State()), records[..i])
      {
        match records[i] {
          case Indirect(major, indirect, ctrlno) => ApplyIndirect(major, indirect, ctrlno);
          case Direct(_, _, _, _, _, _, _, _) => ApplyDirect(records[i]);
          case Ignored =>
        }
        assert records[..i + 1][..i] == records[..i];
      }
      assert records[..|records|] == records;
    }

    method IocName(major: nat, minor: nat) returns (r: NameResult)
      requires Valid()
      ensures r == NameOf(State(), major, minor)
    {
      if major > MAX_BLKDEV || minor > MAX_MINOR {
        return OutOfRange;
      }
      if conf[major].None? {
        return Name(NODEV);
      }
      var e := conf[major].value;
      if e.blk.None? {
        return NullPointer;
      }
      var b := blks[e.blk.value];
      if minor % 256 >= (b.dcount * b.pcount) % TWO32 {
        return Name(NODEV);
      }
      if b.ext.Some? && b.ext.value.minor == minor {
        return Name(b.ext.value.name);
      }
      if b.style == Unset || b.pcount == 0 {
        return NullPointer;
      }
      var offset := UnitNumber(b, e.ctrlno, refnr[e.basemajor], minor);
      var text := Prefix(b, e.ctrlno);
      text := text + Convert(b.style, offset);
      text := text + Partition(b, minor);
      return Name(text);
    }
  }
}
