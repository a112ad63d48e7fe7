/** Loading the lines of one driver yields a family of majors whose names are unique. */
module DeviceConfig {
  import opened Finite
  import opened Text
  import opened DeviceNames
  import opened DeviceNamesUnique

  /** One full record followed by short records of other majors that refer to it. */
  ghost predicate Lines(base: Record, shorts: seq<Record>) {
    && base.Direct? && 1 <= base.major < MAX_BLKDEV && !Starts(base.cfmt, 'x')
    && (forall i :: 0 <= i < |shorts| ==>
          && shorts[i].Indirect? && shorts[i].indirect == base.major
          && shorts[i].major <= MAX_BLKDEV && shorts[i].major != base.major)
    && forall i, j :: 0 <= i < j < |shorts| ==> shorts[i].major != shorts[j].major
  }

  /** Such lines with the controllers numbered 0..|shorts|. */
  ghost predicate DriverLines(base: Record, shorts: seq<Record>) {
    && Lines(base, shorts) && base.ctrlno <= |shorts|
    && (forall i :: 0 <= i < |shorts| ==> shorts[i].ctrlno <= |shorts| && shorts[i].ctrlno != base.ctrlno)
    && forall i, j :: 0 <= i < j < |shorts| ==> shorts[i].ctrlno != shorts[j].ctrlno
  }

  /** The table once the full record and the first `k` short ones are read. */
  ghost predicate Loaded(t: Table, base: Record, shorts: seq<Record>, k: nat)
    requires Lines(base, shorts) && k <= |shorts|
  {
    && WellFormed(t) && t.blks == [Describe(base)] && t.refnr[base.major] == k
    && t.conf[base.major] == Some(Entry(true, base.ctrlno, base.major, Some(0)))
    && (forall i :: 0 <= i < k ==>
          t.conf[shorts[i].major] == Some(Entry(false, shorts[i].ctrlno, base.major, Some(0))))
    && forall m :: 0 <= m <= MAX_BLKDEV && t.conf[m].Some? ==>
         m == base.major || exists i :: 0 <= i < k && shorts[i].major == m
  }

  lemma LoadFirst(base: Record, shorts: seq<Record>)
    requires Lines(base, shorts)
    ensures Loaded(Apply(Empty(), base), base, shorts, 0)
  {
  }

  lemma ApplyLast(records: seq<Record>, r: Record)
    ensures ApplyAll(Empty(), records + [r]) == Apply(ApplyAll(Empty(), records), r)
  {
    assert (records + [r])[..|records|] == records;
  }

  lemma {:induction false} LoadPrefix(base: Record, shorts: seq<Record>, k: nat)
    requires Lines(base, shorts) && k <= |shorts|
    ensures Loaded(ApplyAll(Empty(), [base] + shorts[..k]), base, shorts, k)
  {
    if k == 0 {
      LoadFirst(base, shorts);
      ApplyLast([], base);
      assert [base] + shorts[..0] == [] + [base];
    } else {
      LoadPrefix(base, shorts, k - 1);
      var before := [base] + shorts[..k - 1];
      ApplyLast(before, shorts[k - 1]);
      assert [base] + shorts[..k] == before + [shorts[k - 1]];
      LoadOneMore(ApplyAll(Empty(), before), base, shorts, k - 1);
    }
  }

  lemma LoadOneMore(t: Table, base: Record, shorts: seq<Record>, k: nat)
    requires Lines(base, shorts) && k < |shorts| && Loaded(t, base, shorts, k)
    ensures Loaded(Apply(t, shorts[k]), base, shorts, k + 1)
  {
    var u := Apply(t, shorts[k]);
    forall m | 0 <= m <= MAX_BLKDEV && u.conf[m].Some? && m != base.major
      ensures exists i :: 0 <= i < k + 1 && shorts[i].major == m
    {
      if m == shorts[k].major {
        assert 0 <= k < k + 1;
      } else {
        assert t.conf[m].Some?;
      }
    }
  }

  lemma LoadedIsFamily(t: Table, base: Record, shorts: seq<Record>)
    requires DriverLines(base, shorts) && Loaded(t, base, shorts, |shorts|)
    ensures Family(t, base.major) && Config(t, base.major) == Describe(base)
  {
    forall m | 0 <= m <= MAX_BLKDEV && Serves(t, base.major, m)
      ensures m == base.major || exists i :: 0 <= i < |shorts| && shorts[i].major == m
    {
    }
  }

  lemma FewShortRecords(base: Record, shorts: seq<Record>)
    requires Lines(base, shorts)
    ensures |shorts| <= MAX_BLKDEV + 1
  {
    DistinctBelow(seq(|shorts|, i requires 0 <= i < |shorts| => shorts[i].major), MAX_BLKDEV + 1);
  }

  ghost predicate OfDriver(base: Record, shorts: seq<Record>, major: nat)
    requires Lines(base, shorts)
  {
    major == base.major || exists i :: 0 <= i < |shorts| && shorts[i].major == major
  }

  lemma LoadDriver(t: Table, base: Record, shorts: seq<Record>)
    requires DriverLines(base, shorts) && t == ApplyAll(Empty(), [base] + shorts)
    ensures Family(t, base.major) && Config(t, base.major) == Describe(base) && t.refnr[base.major] == |shorts|
    ensures forall m :: 0 <= m <= MAX_BLKDEV && OfDriver(base, shorts, m) ==> Serves(t, base.major, m)
  {
    assert shorts[..|shorts|] == shorts;
    LoadPrefix(base, shorts, |shorts|);
    LoadedIsFamily(t, base, shorts);
  }

  /** What the configuration file promises: after loading the lines of a driver whose disks fit in a byte of
      minors, two regular minors of its majors are named alike only if they are the same device. */
  lemma LoadedNamesInjective(t: Table, base: Record, shorts: seq<Record>,
                             major: nat, minor: nat, major': nat, minor': nat)
    requires DriverLines(base, shorts) && t == ApplyAll(Empty(), [base] + shorts)
    requires Readable(Describe(base)) && Describe(base).ctrl.None? && base.dcount * base.pcount <= 256
    requires OfDriver(base, shorts, major) && OfDriver(base, shorts, major')
    requires minor <= MAX_MINOR && minor % 256 < base.dcount * base.pcount
    requires minor' <= MAX_MINOR && minor' % 256 < base.dcount * base.pcount
    ensures NameOf(t, major, minor) == NameOf(t, major', minor') <==> major == major' && minor == minor'
  {
    LoadDriver(t, base, shorts);
    FewShortRecords(base, shorts);
    DisksFit(base.dcount, base.pcount, |shorts| + 1);
    NamesInjective(t, base.major, major, minor, major', minor');
  }

  lemma DisksFit(dcount: nat, pcount: nat, majors: nat)
    requires 0 < pcount && dcount * pcount <= 256 && majors <= 513
    ensures dcount * majors < 0x10_0000
  {
    assert dcount <= 256 by {
      assert dcount * (pcount - 1) >= 0;
    }
    assert dcount * majors <= 256 * majors;
  }

  /** A line with an explicit controller, in the style of the array controllers: 16 disks of 16 partitions. */
  const ARRAY_CONTROLLER := Direct(104, "cciss/", "c", 0, "%d", 16, "p", 16)

  /** Its minors 0 and 256 are different devices with one name. */
  lemma ArrayControllerCollides(t: Table)
    requires t == ApplyAll(Empty(), [ARRAY_CONTROLLER])
    ensures WellFormed(t) && NameOf(t, 104, 0) == NameOf(t, 104, 256) && NameOf(t, 104, 0).Name?
  {
    var r := ARRAY_CONTROLLER;
    assert [r] + [] == [r];
    LoadDriver(t, r, []);
    assert OfDriver(r, [], 104);
    assert Describe(r) == BlkConfig("cciss/", Some("c"), "d", ByNumber, "p", 16, 16, None);
    ExplicitControllerCollision(t, 104, 104, 0);
    RegularName(t, 104, 104, 0);
  }
}
