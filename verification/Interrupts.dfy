/** The interrupt matrix: one cell per CPU and interrupt, with totals per interrupt, per CPU and overall. */
module Interrupts {
  import opened Arithmetic
  import opened Finite
  import opened Text

  function Counter(row: seq<nat>, i: nat): nat {
    if i < |row| then row[i] else 0
  }

  /** Sum of the first `k` counters of a row. */
  function RowSum(row: seq<nat>, k: nat): nat {
    if k == 0 then 0 else RowSum(row, k - 1) + Counter(row, k - 1)
  }

  /** Sum of counter `i` over the first `r` rows. */
  function ColumnSum(rows: seq<seq<nat>>, i: nat, r: nat): nat
    requires r <= |rows|
  {
    if r == 0 then 0 else ColumnSum(rows, i, r - 1) + Counter(rows[r - 1], i)
  }

  /** Sum of the row sums. */
  function RowTotal(rows: seq<seq<nat>>, k: nat, r: nat): nat
    requires r <= |rows|
  {
    if r == 0 then 0 else RowTotal(rows, k, r - 1) + RowSum(rows[r - 1], k)
  }

  /** Sum of the column sums. */
  function ColumnTotal(rows: seq<seq<nat>>, k: nat, r: nat): nat
    requires r <= |rows|
  {
    if k == 0 then 0 else ColumnTotal(rows, k - 1, r) + ColumnSum(rows, k - 1, r)
  }

  lemma {:induction false} ColumnTotalOneMoreRow(rows: seq<seq<nat>>, k: nat, r: nat)
    requires 1 <= r <= |rows|
    ensures ColumnTotal(rows, k, r) == ColumnTotal(rows, k, r - 1) + RowSum(rows[r - 1], k)
  {
    if k > 0 {
      ColumnTotalOneMoreRow(rows, k - 1, r);
    }
  }

  /** Adding up by rows or by columns gives the same total. */
  lemma {:induction false} TotalsAgree(rows: seq<seq<nat>>, k: nat, r: nat)
    requires r <= |rows|
    ensures RowTotal(rows, k, r) == ColumnTotal(rows, k, r)
  {
    if r > 0 {
      TotalsAgree(rows, k, r - 1);
      ColumnTotalOneMoreRow(rows, k, r);
    } else {
      NoRows(rows, k);
    }
  }

  lemma {:induction false} NoRows(rows: seq<seq<nat>>, k: nat)
    ensures ColumnTotal(rows, k, 0) == 0
  {
    if k > 0 {
      NoRows(rows, k - 1);
    }
  }

  function At(cpu: nat, irq: nat, nrInt: nat): nat { (cpu + 1) * nrInt + irq }

  lemma RowBefore(a: nat, b: nat, n: nat)
    requires a < b
    ensures (a + 1) * n + n <= (b + 1) * n
  {
    assert (b - a - 1) * n >= 0;
    assert (b + 1) * n == (a + 1) * n + n + (b - a - 1) * n;
  }

  /** Cells of different CPUs or interrupts are different, and none is a cell of "all". */
  lemma CellsDistinct(a: nat, i: nat, b: nat, j: nat, n: nat)
    requires i < n && j < n
    ensures At(a, i, n) == At(b, j, n) <==> a == b && i == j
    ensures At(a, i, n) >= n
  {
    if a < b {
      RowBefore(a, b, n);
    } else if b < a {
      RowBefore(b, a, n);
    }
    assert (a + 1) * n >= n by { assert a * n >= 0; }
  }

  lemma CellInside(cpu: nat, irq: nat, nrAlloc: nat, nrInt: nat)
    requires cpu + 2 <= nrAlloc && irq < nrInt
    ensures At(cpu, irq, nrInt) < nrAlloc * nrInt
  {
    assert (nrAlloc - cpu - 2) * nrInt >= 0;
    assert nrAlloc * nrInt == (cpu + 2) * nrInt + (nrAlloc - cpu - 2) * nrInt;
  }

  /** The buffer while line `r` is read, `k` CPUs of it done: complete lines are 1..r, every cell holds its
      counter, every total holds the sum of what it has seen, and all else is zero. */
  ghost predicate Filled(b: seq<nat>, cpus: seq<nat>, rows: seq<seq<nat>>, r: nat, k: nat, nrInt: nat)
    requires k <= |cpus| && r <= |rows| && (k > 0 ==> r < |rows|)
  {
    OthersZero(b, cpus, nrInt) && CpuCells(b, cpus, rows, r, k, nrInt) && AllCells(b, |cpus|, rows, r, k, nrInt)
  }

  ghost predicate OthersZero(b: seq<nat>, cpus: seq<nat>, nrInt: nat) {
    forall c: nat, j :: 0 <= j < nrInt && At(c, j, nrInt) < |b| && c !in cpus ==> b[At(c, j, nrInt)] == 0
  }

  ghost predicate CpuCells(b: seq<nat>, cpus: seq<nat>, rows: seq<seq<nat>>, r: nat, k: nat, nrInt: nat)
    requires k <= |cpus| && r <= |rows| && (k > 0 ==> r < |rows|)
  {
    forall i, j :: 0 <= i < |cpus| && 0 <= j < nrInt ==>
      At(cpus[i], j, nrInt) < |b|
      && b[At(cpus[i], j, nrInt)] == CpuCell(rows, i, j, if i < k then r + 1 else r) % TWO32
  }

  ghost predicate AllCells(b: seq<nat>, n: nat, rows: seq<seq<nat>>, r: nat, k: nat, nrInt: nat)
    requires r <= |rows| && (k > 0 ==> r < |rows|)
  {
    nrInt <= |b| && forall j :: 0 <= j < nrInt ==> b[j] == AllCell(rows, n, j, r, k) % TWO32
  }

  /** What the cell of CPU `i` and interrupt `j` holds after `r` lines; interrupt 0 is the CPU's own total. */
  function CpuCell(rows: seq<seq<nat>>, i: nat, j: nat, r: nat): nat
    requires r <= |rows|
  {
    if j == 0 then ColumnSum(rows, i, r) else if j <= r then Counter(rows[j - 1], i) else 0
  }

  /** What the cell of "all" and interrupt `j` holds; interrupt 0 is the grand total of complete lines. */
  function AllCell(rows: seq<seq<nat>>, n: nat, j: nat, r: nat, k: nat): nat
    requires r <= |rows| && (k > 0 ==> r < |rows|)
  {
    if j == 0 then RowTotal(rows, n, r)
    else if j <= r then RowSum(rows[j - 1], n)
    else if j == r + 1 && k > 0 then RowSum(rows[r], k) else 0
  }

  lemma CpuCellStep(rows: seq<seq<nat>>, i: nat, j: nat, r: nat, k: nat)
    requires r < |rows|
    ensures i == k && j == 0 ==>
              CpuCell(rows, i, j, r + 1) % TWO32
              == (CpuCell(rows, i, j, r) % TWO32 + Counter(rows[r], k) % TWO32) % TWO32
    ensures i == k && j == r + 1 ==> CpuCell(rows, i, j, r + 1) == Counter(rows[r], k)
    ensures j != 0 && j != r + 1 ==> CpuCell(rows, i, j, r + 1) == CpuCell(rows, i, j, r)
  {
    WrapAdd(ColumnSum(rows, k, r), Counter(rows[r], k));
  }

  lemma AllCellStep(rows: seq<seq<nat>>, n: nat, j: nat, r: nat, k: nat)
    requires r < |rows|
    ensures j == r + 1 ==>
              AllCell(rows, n, j, r, k + 1) % TWO32
              == (AllCell(rows, n, j, r, k) % TWO32 + Counter(rows[r], k) % TWO32) % TWO32
    ensures j != r + 1 ==> AllCell(rows, n, j, r, k + 1) == AllCell(rows, n, j, r, k)
  {
    WrapAdd(RowSum(rows[r], k), Counter(rows[r], k));
  }

  /** The buffer after one counter: its own cell, the total of the interrupt and the total of the CPU. */
  function Stored(b: seq<nat>, cpu: nat, irq: nat, nrInt: nat, value: nat): seq<nat>
    requires At(cpu, irq, nrInt) < |b| && At(cpu, 0, nrInt) < |b| && irq < |b|
  {
    var v := value % TWO32;
    b[At(cpu, irq, nrInt) := v][irq := (b[irq] + v) % TWO32][At(cpu, 0, nrInt) := (b[At(cpu, 0, nrInt)] + v) % TWO32]
  }

  lemma StoredAt(b: seq<nat>, cpu: nat, irq: nat, nrInt: nat, value: nat, c: nat, j: nat)
    requires At(cpu, irq, nrInt) < |b| && At(cpu, 0, nrInt) < |b| && irq < |b|
    requires 0 < irq < nrInt && j < nrInt && At(c, j, nrInt) < |b|
    ensures Stored(b, cpu, irq, nrInt, value)[At(c, j, nrInt)]
            == if c == cpu && j == irq then value % TWO32
               else if c == cpu && j == 0 then (b[At(cpu, 0, nrInt)] + value % TWO32) % TWO32
               else b[At(c, j, nrInt)]
  {
    CellsDistinct(c, j, cpu, irq, nrInt);
    CellsDistinct(c, j, cpu, 0, nrInt);
  }

  lemma OneCounter(b: seq<nat>, cpus: seq<nat>, rows: seq<seq<nat>>, r: nat, k: nat, nrInt: nat)
    requires r < |rows| && r + 1 < nrInt && k < |cpus| && NoRepeats(cpus) && Filled(b, cpus, rows, r, k, nrInt)
    requires At(cpus[k], r + 1, nrInt) < |b| && At(cpus[k], 0, nrInt) < |b|
    ensures Filled(Stored(b, cpus[k], r + 1, nrInt, Counter(rows[r], k)), cpus, rows, r, k + 1, nrInt)
  {
    var v := Counter(rows[r], k);
    var b' := Stored(b, cpus[k], r + 1, nrInt, v);
    forall c: nat, j | 0 <= j < nrInt && At(c, j, nrInt) < |b'| && c !in cpus
      ensures b'[At(c, j, nrInt)] == 0
    {
      StoredAt(b, cpus[k], r + 1, nrInt, v, c, j);
    }
    assert OthersZero(b', cpus, nrInt);
    OneCounterCpus(b, cpus, rows, r, k, nrInt);
    forall j | 0 <= j < nrInt
      ensures b'[j] == AllCell(rows, |cpus|, j, r, k + 1) % TWO32
    {
      AllCellStep(rows, |cpus|, j, r, k);
    }
    assert AllCells(b', |cpus|, rows, r, k + 1, nrInt);
  }

  lemma OneCounterCpus(b: seq<nat>, cpus: seq<nat>, rows: seq<seq<nat>>, r: nat, k: nat, nrInt: nat)
    requires r < |rows| && r + 1 < nrInt <= |b| && k < |cpus| && NoRepeats(cpus) && CpuCells(b, cpus, rows, r, k, nrInt)
    requires At(cpus[k], r + 1, nrInt) < |b| && At(cpus[k], 0, nrInt) < |b|
    ensures CpuCells(Stored(b, cpus[k], r + 1, nrInt, Counter(rows[r], k)), cpus, rows, r, k + 1, nrInt)
  {
    var v := Counter(rows[r], k);
    var b' := Stored(b, cpus[k], r + 1, nrInt, v);
    forall i, j | 0 <= i < |cpus| && 0 <= j < nrInt
      ensures At(cpus[i], j, nrInt) < |b'|
      ensures b'[At(cpus[i], j, nrInt)] == CpuCell(rows, i, j, if i < k + 1 then r + 1 else r) % TWO32
    {
      StoredAt(b, cpus[k], r + 1, nrInt, v, cpus[i], j);
      CpuCellStep(rows, i, j, r, k);
      assert cpus[i] == cpus[k] <==> i == k;
    }
  }

  /** The end of a line: the grand total takes in the total of the interrupt. */
  lemma EndOfLine(b: seq<nat>, cpus: seq<nat>, rows: seq<seq<nat>>, r: nat, nrInt: nat, b': seq<nat>)
    requires r < |rows| && r + 1 < nrInt && Filled(b, cpus, rows, r, |cpus|, nrInt)
    requires b' == b[0 := (b[0] + b[r + 1]) % TWO32]
    ensures Filled(b', cpus, rows, r + 1, 0, nrInt)
  {
    WrapAdd(RowTotal(rows, |cpus|, r), RowSum(rows[r], |cpus|));
    forall i, j | 0 <= i < |cpus| && 0 <= j < nrInt
      ensures b'[At(cpus[i], j, nrInt)] == CpuCell(rows, i, j, r + 1) % TWO32
    {
      CellsDistinct(cpus[i], j, cpus[i], j, nrInt);
    }
    forall c: nat, j | 0 <= j < nrInt && At(c, j, nrInt) < |b| && c !in cpus
      ensures b'[At(c, j, nrInt)] == 0
    {
      CellsDistinct(c, j, c, j, nrInt);
    }
  }

  lemma EmptyBuffer(b: seq<nat>, cpus: seq<nat>, rows: seq<seq<nat>>, nrInt: nat)
    requires SlotsExist(|b|, cpus, nrInt) && Zeroed(b)
    ensures Filled(b, cpus, rows, 0, 0, nrInt)
  {
  }

  // ----- the buffer in terms of the lines themselves -----

  function Sum(s: seq<nat>): nat {
    if s == [] then 0 else Sum(s[..|s| - 1]) + s[|s| - 1]
  }

  /** The first `n` counters of a line, or all there are. */
  function FirstOf(row: seq<nat>, n: nat): seq<nat> { if n < |row| then row[..n] else row }

  /** The counters at place `i` of the first `r` lines; a line that is too short counts zero. */
  function ColumnOf(rows: seq<seq<nat>>, i: nat, r: nat): seq<nat>
    requires r <= |rows|
  {
    seq(r, l requires 0 <= l < r => if i < |rows[l]| then rows[l][i] else 0)
  }

  function LineSums(rows: seq<seq<nat>>, n: nat, r: nat): seq<nat>
    requires r <= |rows|
  {
    seq(r, l requires 0 <= l < r => Sum(FirstOf(rows[l], n)))
  }

  /** What place `j` of a processor's block holds after `r` lines; place 0 is for all interrupts. */
  function OneProcessor(rows: seq<seq<nat>>, i: nat, j: nat, r: nat): nat
    requires r <= |rows|
  {
    if j == 0 then Sum(ColumnOf(rows, i, r)) else if j <= r && i < |rows[j - 1]| then rows[j - 1][i] else 0
  }

  /** What place `j` of the block for all `n` processors holds. */
  function AllProcessors(rows: seq<seq<nat>>, n: nat, j: nat, r: nat): nat
    requires r <= |rows|
  {
    if j == 0 then Sum(LineSums(rows, n, r)) else if j <= r then Sum(FirstOf(rows[j - 1], n)) else 0
  }

  predicate Holds(b: seq<nat>, block: nat, j: nat, nrInt: nat, v: nat) {
    block * nrInt + j < |b| && b[block * nrInt + j] == v % 0x1_0000_0000
  }

  /** The matrix of `r` lines: block 0 is for all processors, block c + 1 for processor c. */
  ghost predicate Matrix(b: seq<nat>, cpus: seq<nat>, rows: seq<seq<nat>>, r: nat, nrInt: nat)
    requires r <= |rows|
  {
    && (forall i, j :: 0 <= i < |cpus| && 0 <= j < nrInt ==>
          Holds(b, cpus[i] + 1, j, nrInt, OneProcessor(rows, i, j, r)))
    && (forall j :: 0 <= j < nrInt ==> Holds(b, 0, j, nrInt, AllProcessors(rows, |cpus|, j, r)))
    && forall c: nat, j :: c !in cpus && 0 <= j < nrInt ==> Untouched(b, c, j, nrInt)
  }

  predicate Untouched(b: seq<nat>, c: nat, j: nat, nrInt: nat) {
    (c + 1) * nrInt + j < |b| ==> b[(c + 1) * nrInt + j] == 0
  }

  lemma {:induction false} RowSumIs(row: seq<nat>, k: nat)
    ensures RowSum(row, k) == Sum(FirstOf(row, k))
  {
    if k > 0 {
      RowSumIs(row, k - 1);
      if k <= |row| {
        assert FirstOf(row, k)[..k - 1] == FirstOf(row, k - 1);
      }
    }
  }

  lemma {:induction false} ColumnSumIs(rows: seq<seq<nat>>, i: nat, r: nat)
    requires r <= |rows|
    ensures ColumnSum(rows, i, r) == Sum(ColumnOf(rows, i, r))
  {
    if r > 0 {
      ColumnSumIs(rows, i, r - 1);
      assert ColumnOf(rows, i, r)[..r - 1] == ColumnOf(rows, i, r - 1);
    }
  }

  lemma {:induction false} RowTotalIs(rows: seq<seq<nat>>, n: nat, r: nat)
    requires r <= |rows|
    ensures RowTotal(rows, n, r) == Sum(LineSums(rows, n, r))
  {
    if r > 0 {
      RowTotalIs(rows, n, r - 1);
      RowSumIs(rows[r - 1], n);
      assert LineSums(rows, n, r)[..r - 1] == LineSums(rows, n, r - 1);
    }
  }

  lemma CellOf(b: seq<nat>, cpus: seq<nat>, rows: seq<seq<nat>>, r: nat, nrInt: nat, i: nat, j: nat)
    requires r <= |rows| && Filled(b, cpus, rows, r, 0, nrInt) && i < |cpus| && j < nrInt
    ensures Holds(b, cpus[i] + 1, j, nrInt, OneProcessor(rows, i, j, r))
  {
    assert At(cpus[i], j, nrInt) == (cpus[i] + 1) * nrInt + j;
    ColumnSumIs(rows, i, r);
  }

  lemma AllCellOf(b: seq<nat>, cpus: seq<nat>, rows: seq<seq<nat>>, r: nat, nrInt: nat, j: nat)
    requires r <= |rows| && Filled(b, cpus, rows, r, 0, nrInt) && j < nrInt
    ensures Holds(b, 0, j, nrInt, AllProcessors(rows, |cpus|, j, r))
  {
    assert 0 * nrInt + j == j;
    RowTotalIs(rows, |cpus|, r);
    if 1 <= j <= r {
      RowSumIs(rows[j - 1], |cpus|);
    }
  }

  /** A buffer filled line by line is the matrix of the lines. */
  lemma FilledIsMatrix(b: seq<nat>, cpus: seq<nat>, rows: seq<seq<nat>>, r: nat, nrInt: nat)
    requires r <= |rows| && Filled(b, cpus, rows, r, 0, nrInt)
    ensures Matrix(b, cpus, rows, r, nrInt)
  {
    forall i, j | 0 <= i < |cpus| && 0 <= j < nrInt
      ensures Holds(b, cpus[i] + 1, j, nrInt, OneProcessor(rows, i, j, r))
    {
      CellOf(b, cpus, rows, r, nrInt, i, j);
    }
    forall j | 0 <= j < nrInt
      ensures Holds(b, 0, j, nrInt, AllProcessors(rows, |cpus|, j, r))
    {
      AllCellOf(b, cpus, rows, r, nrInt, j);
    }
    forall c: nat, j | c !in cpus && 0 <= j < nrInt
      ensures Untouched(b, c, j, nrInt)
    {
      assert At(c, j, nrInt) == (c + 1) * nrInt + j;
    }
  }

  /** Two processors and one line. */
  lemma SmallMatrix(b: seq<nat>)
    requires |b| == 6 && Matrix(b, [0, 1], [[7, 3]], 1, 2)
    ensures b == [10, 10, 7, 7, 3, 3]
  {
    var cpus, rows := [0, 1], [[7, 3]];
    assert Holds(b, 0, 0, 2, AllProcessors(rows, 2, 0, 1)) && Holds(b, 0, 1, 2, AllProcessors(rows, 2, 1, 1));
    assert Holds(b, cpus[0] + 1, 0, 2, OneProcessor(rows, 0, 0, 1));
    assert Holds(b, cpus[0] + 1, 1, 2, OneProcessor(rows, 0, 1, 1));
    assert Holds(b, cpus[1] + 1, 0, 2, OneProcessor(rows, 1, 0, 1));
    assert Holds(b, cpus[1] + 1, 1, 2, OneProcessor(rows, 1, 1, 1));
    assert Sum([7]) == 7 && Sum([3]) == 3 && Sum([7, 3]) == 10 && Sum([10]) == 10;
    assert ColumnOf(rows, 0, 1) == [7] && ColumnOf(rows, 1, 1) == [3] && LineSums(rows, 2, 1) == [10];
  }

  /** The CPUs taken from the header: at most `limit`, and none if one does not fit the buffer. */
  method ReadHeader(header: seq<nat>, nrAlloc: nat) returns (rc: int, cpus: seq<nat>)
    requires nrAlloc >= 1
    ensures var limit := if nrAlloc == 1 then 1 else nrAlloc - 1;
            var n := if |header| < limit then |header| else limit;
            && (rc == 0 <==> forall i :: 0 <= i < n ==> header[i] + 2 <= nrAlloc)
            && (rc == 0 ==> cpus == header[..n])
            && (rc != 0 ==> rc == -1)
  {
    var cpuNr := nrAlloc - 1;
    if cpuNr == 0 {
      cpuNr := 1;
    }
    cpus := [];
    var index := 0;
    while index < |header| && index < cpuNr
      invariant index <= |header| && index <= cpuNr && cpus == header[..index]
      invariant forall i :: 0 <= i < index ==> header[i] + 2 <= nrAlloc
    {
      var cpu := header[index];
      if cpu + 2 > nrAlloc {
        return -1, cpus;
      }
      cpus := cpus + [cpu];
      index := index + 1;
    }
    return 0, cpus;
  }

  predicate Zeroed(b: seq<nat>) {
    forall p :: 0 <= p < |b| ==> b[p] == 0
  }

  /** Reads the header and the lines into the buffer. Memory stays inside `nrAlloc * nrInt` cells whatever the
      input; from a zeroed buffer and distinct CPU numbers every cell and total is exact modulo 2^32. */
  method ReadStatIrq(st: array<nat>, nrAlloc: nat, nrInt: nat, header: seq<nat>, rows: seq<seq<nat>>)
    returns (rc: int, ghost cpus: seq<nat>, ghost read: nat)
    requires nrAlloc >= 1 && nrInt >= 1 && st.Length == nrAlloc * nrInt
    modifies st
    ensures var limit := if nrAlloc == 1 then 1 else nrAlloc - 1;
            cpus == FirstOf(header, limit)
    ensures rc == -1 <==> exists i :: 0 <= i < |cpus| && cpus[i] + 2 > nrAlloc
    ensures rc == -1 ==> st[..] == old(st[..])
    ensures read == (if |rows| < nrInt - 1 then |rows| else nrInt - 1)
    ensures rc != -1 ==>
              && rc == (if cpus == [] then 0 else cpus[|cpus| - 1] + 2)
              && (Zeroed(old(st[..])) && NoRepeats(cpus) ==>
                    Matrix(st[..], cpus, rows, read, nrInt) && Filled(st[..], cpus, rows, read, 0, nrInt))
  {
    var index: seq<nat>;
    rc, index := ReadHeader(header, nrAlloc);
    cpus := FirstOf(header, if nrAlloc == 1 then 1 else nrAlloc - 1);
    read := if |rows| < nrInt - 1 then |rows| else nrInt - 1;
    if rc != 0 {
      return;
    }
    SlotsFit(nrAlloc, index, nrInt);
    ReadLines(st, nrInt, index, rows);
    if index != [] {
      rc := index[|index| - 1] + 2;
    }
  }

  /** All lines there are places for. */
  method ReadLines(st: array<nat>, nrInt: nat, cpus: seq<nat>, rows: seq<seq<nat>>)
    requires nrInt >= 1 && SlotsExist(st.Length, cpus, nrInt)
    modifies st
    ensures Zeroed(old(st[..])) && NoRepeats(cpus) ==>
              var r := if |rows| < nrInt - 1 then |rows| else nrInt - 1;
              Filled(st[..], cpus, rows, r, 0, nrInt) && Matrix(st[..], cpus, rows, r, nrInt)
  {
    ghost var clean := Zeroed(st[..]) && NoRepeats(cpus);
    if clean {
      EmptyBuffer(st[..], cpus, rows, nrInt);
    }
    var irqRead := 0;
    while irqRead < |rows| && irqRead < nrInt - 1
      invariant irqRead <= |rows| && irqRead <= nrInt - 1
      invariant clean ==> Filled(st[..], cpus, rows, irqRead, 0, nrInt)
    {
      ReadLine(st, nrInt, cpus, rows, irqRead, clean);
      irqRead := irqRead + 1;
    }
    if clean {
      FilledIsMatrix(st[..], cpus, rows, irqRead, nrInt);
    }
  }

  ghost predicate SlotsExist(length: nat, cpus: seq<nat>, nrInt: nat) {
    nrInt <= length && forall i, j :: 0 <= i < |cpus| && 0 <= j < nrInt ==> At(cpus[i], j, nrInt) < length
  }

  lemma SlotsFit(nrAlloc: nat, cpus: seq<nat>, nrInt: nat)
    requires nrAlloc >= 1 && forall i :: 0 <= i < |cpus| ==> cpus[i] + 2 <= nrAlloc
    ensures SlotsExist(nrAlloc * nrInt, cpus, nrInt)
  {
    forall i, j | 0 <= i < |cpus| && 0 <= j < nrInt
      ensures At(cpus[i], j, nrInt) < nrAlloc * nrInt
    {
      CellInside(cpus[i], j, nrAlloc, nrInt);
    }
    assert (nrAlloc - 1) * nrInt >= 0;
  }

  /** Stores one counter and adds it to the totals of its interrupt and its CPU. */
  method Accumulate(st: array<nat>, cpu: nat, irq: nat, nrInt: nat, value: nat)
    requires At(cpu, irq, nrInt) < st.Length && At(cpu, 0, nrInt) < st.Length && 0 < irq < nrInt <= st.Length
    modifies st
    ensures st[..] == Stored(old(st[..]), cpu, irq, nrInt, value)
  {
    var cpuSum, cpuIrq := At(cpu, 0, nrInt), At(cpu, irq, nrInt);
    CellsDistinct(cpu, irq, cpu, 0, nrInt);
    st[cpuIrq] := value % TWO32;
    st[irq] := (st[irq] + st[cpuIrq]) % TWO32;
    st[cpuSum] := (st[cpuSum] + st[cpuIrq]) % TWO32;
  }

  /** One line of counters. */
  method ReadLine(st: array<nat>, nrInt: nat, cpus: seq<nat>, rows: seq<seq<nat>>, r: nat, ghost clean: bool)
    requires SlotsExist(st.Length, cpus, nrInt) && r < |rows| && r + 1 < nrInt
    requires clean ==> NoRepeats(cpus) && Filled(st[..], cpus, rows, r, 0, nrInt)
    modifies st
    ensures clean ==> Filled(st[..], cpus, rows, r + 1, 0, nrInt)
  {
    var irq := r + 1;
    var cpu := 0;
    while cpu < |cpus|
      invariant cpu <= |cpus|
      invariant clean ==> Filled(st[..], cpus, rows, r, cpu, nrInt)
    {
      assert At(cpus[cpu], irq, nrInt) < st.Length && At(cpus[cpu], 0, nrInt) < st.Length;
      if clean {
        OneCounter(st[..], cpus, rows, r, cpu, nrInt);
      }
      Accumulate(st, cpus[cpu], irq, nrInt, Counter(rows[r], cpu));
      cpu := cpu + 1;
    }
    ghost var before := st[..];
    st[0] := (st[0] + st[irq]) % TWO32;
    if clean {
      EndOfLine(before, cpus, rows, r, nrInt, st[..]);
    }
  }

  // ----- what a filled buffer says -----

  /** Sum of the cells b[At(cpus[i], j)] for i < k. */
  function CpuCellSum(b: seq<nat>, cpus: seq<nat>, j: nat, nrInt: nat, k: nat): nat
    requires k <= |cpus| && forall i :: 0 <= i < k ==> At(cpus[i], j, nrInt) < |b|
  {
    if k == 0 then 0 else CpuCellSum(b, cpus, j, nrInt, k - 1) + b[At(cpus[k - 1], j, nrInt)]
  }

  /** Sum of the cells b[base + 1] .. b[base + r]. */
  function LineCellSum(b: seq<nat>, base: nat, r: nat): nat
    requires base + r < |b|
  {
    if r == 0 then 0 else LineCellSum(b, base, r - 1) + b[base + r]
  }

  lemma SumStep(s: nat, x: nat, c: nat, y: nat)
    requires s % TWO32 == x % TWO32 && c == y % TWO32
    ensures (s + c) % TWO32 == (x + y) % TWO32
  {
    WrapAdd(s, c);
    WrapAdd(x, y);
  }

  lemma {:induction false} CpuCellsSum(b: seq<nat>, cpus: seq<nat>, rows: seq<seq<nat>>, r: nat,
                                           nrInt: nat, j: nat, k: nat)
    requires r <= |rows| && Filled(b, cpus, rows, r, 0, nrInt) && j < nrInt && k <= |cpus|
    ensures j == 0 ==> CpuCellSum(b, cpus, 0, nrInt, k) % TWO32 == ColumnTotal(rows, k, r) % TWO32
    ensures 1 <= j <= r ==> CpuCellSum(b, cpus, j, nrInt, k) % TWO32 == RowSum(rows[j - 1], k) % TWO32
  {
    if k > 0 {
      CpuCellsSum(b, cpus, rows, r, nrInt, j, k - 1);
      var c := b[At(cpus[k - 1], j, nrInt)];
      if j == 0 {
        SumStep(CpuCellSum(b, cpus, 0, nrInt, k - 1), ColumnTotal(rows, k - 1, r), c, ColumnSum(rows, k - 1, r));
      } else if j <= r {
        SumStep(CpuCellSum(b, cpus, j, nrInt, k - 1), RowSum(rows[j - 1], k - 1), c, Counter(rows[j - 1], k - 1));
      }
    }
  }

  lemma {:induction false} AllCellsSum(b: seq<nat>, cpus: seq<nat>, rows: seq<seq<nat>>, r: nat, nrInt: nat, m: nat)
    requires r <= |rows| && r < nrInt && Filled(b, cpus, rows, r, 0, nrInt) && m <= r
    ensures LineCellSum(b, 0, m) % TWO32 == RowTotal(rows, |cpus|, m) % TWO32
  {
    if m > 0 {
      AllCellsSum(b, cpus, rows, r, nrInt, m - 1);
      SumStep(LineCellSum(b, 0, m - 1), RowTotal(rows, |cpus|, m - 1), b[m], RowSum(rows[m - 1], |cpus|));
    }
  }

  lemma {:induction false} OneCpuSum(b: seq<nat>, cpus: seq<nat>, rows: seq<seq<nat>>, r: nat,
                                         nrInt: nat, i: nat, m: nat)
    requires r <= |rows| && r < nrInt && Filled(b, cpus, rows, r, 0, nrInt) && m <= r && i < |cpus|
    ensures At(cpus[i], 0, nrInt) + m < |b|
    ensures LineCellSum(b, At(cpus[i], 0, nrInt), m) % TWO32 == ColumnSum(rows, i, m) % TWO32
  {
    assert At(cpus[i], m, nrInt) == At(cpus[i], 0, nrInt) + m;
    if m > 0 {
      OneCpuSum(b, cpus, rows, r, nrInt, i, m - 1);
      SumStep(LineCellSum(b, At(cpus[i], 0, nrInt), m - 1), ColumnSum(rows, i, m - 1),
              b[At(cpus[i], m, nrInt)], Counter(rows[m - 1], i));
    }
  }

  /** Conservation, modulo 2^32: "all" cells are sums over CPUs, CPU totals are sums over interrupts, and the
      grand total is both the sum of the interrupt totals and the sum of the CPU totals. */
  lemma TotalsConserved(b: seq<nat>, cpus: seq<nat>, rows: seq<seq<nat>>, r: nat, nrInt: nat)
    requires r <= |rows| && r < nrInt && Filled(b, cpus, rows, r, 0, nrInt)
    ensures forall j :: 0 <= j <= r ==> b[j] == CpuCellSum(b, cpus, j, nrInt, |cpus|) % TWO32
    ensures forall i :: 0 <= i < |cpus| ==>
              At(cpus[i], 0, nrInt) + r < |b|
              && b[At(cpus[i], 0, nrInt)] == LineCellSum(b, At(cpus[i], 0, nrInt), r) % TWO32
    ensures b[0] == LineCellSum(b, 0, r) % TWO32
  {
    forall j | 0 <= j <= r
      ensures b[j] == CpuCellSum(b, cpus, j, nrInt, |cpus|) % TWO32
    {
      CpuCellsSum(b, cpus, rows, r, nrInt, j, |cpus|);
      TotalsAgree(rows, |cpus|, r);
    }
    forall i | 0 <= i < |cpus|
      ensures At(cpus[i], 0, nrInt) + r < |b|
      ensures b[At(cpus[i], 0, nrInt)] == LineCellSum(b, At(cpus[i], 0, nrInt), r) % TWO32
    {
      OneCpuSum(b, cpus, rows, r, nrInt, i, r);
    }
    AllCellsSum(b, cpus, rows, r, nrInt, r);
  }
}
