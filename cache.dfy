/** The digit table: a flat 256×256 table of single-digit products, its
    cache-warming scan, and the simulated worker that scans its first rows. */
module Cache {
  import opened Digits

  const TableSize: nat := Base * Base
  /** u16 entries per 64-byte cache line. */
  const Stride: nat := 32
  const U64Modulus: nat := 0x1_0000_0000_0000_0000

  /** The product that the flat index k stands for: row k / 256, column k % 256. */
  function Entry(k: nat): nat
  {
    (k / Base) * (k % Base)
  }

  lemma EntryAt(i: nat, j: nat)
    requires i < Base && j < Base
    ensures i * Base + j < TableSize
    ensures Entry(i * Base + j) == i * j
  {
    DivModOf(i, j, Base);
    MulLe(i, Base - 1, Base);
  }

  /** Every single-digit product fits in 16 bits. */
  lemma ProductFits(i: nat, j: nat)
    requires i < Base && j < Base
    ensures i * j <= 65025
  {
    MulLe(i, 255, j);
    MulLe(j, 255, 255);
  }

  /** The wrapping_add of two u64 values: addition modulo 2^64. */
  function WrappingAdd(x: u64, y: u64): u64
  {
    (x + y) % U64Modulus
  }

  lemma ModAdd(x: nat, y: nat, m: nat)
    requires m > 0
    ensures (x % m + y) % m == (x + y) % m
  {
    var q, z := x / m, x % m + y;
    DivModEq(x, m);
    DivModEq(z, m);
    assert x + y == m * (q + z / m) + z % m;
    DivModOf(q + z / m, z % m, m);
    DivModOf(z / m, z % m, m);
  }

  /** 0 + 1 + … + (x − 1) */
  function SumBelow(x: nat): nat
  {
    if x == 0 then 0 else SumBelow(x - 1) + (x - 1)
  }

  lemma {:induction false} SumBelowClosed(x: nat)
    ensures 2 * SumBelow(x) == x * (x - 1)
  {
    if x > 0 {
      SumBelowClosed(x - 1);
    }
  }

  class AlignedTable {
    const data: array<u16>

    ghost predicate Valid()
      reads data
    {
      data.Length == TableSize &&
      forall k :: 0 <= k < TableSize ==> data[k] == Entry(k)
    }

    /** Fills row i with i·0, i·1, …, i·255, one row after the other. */
    constructor ()
      ensures Valid() && fresh(data)
    {
      var table := new u16[TableSize](_ => 0);
      for i := 0 to Base
        invariant forall k :: 0 <= k < i * Base ==> table[k] == Entry(k)
      {
        var rowStart := i * Base;
        for j := 0 to Base
          invariant forall k :: 0 <= k < rowStart + j ==> table[k] == Entry(k)
        {
          EntryAt(i, j);
          ProductFits(i, j);
          table[rowStart + j] := i * j;
        }
      }
      data := table;
    }

    /** The lookup `data[a * 256 + b]` the multiplier performs. */
    function Lookup(a: nat, b: nat): (p: u16)
      reads data
      requires Valid() && a < Base && b < Base
      ensures p == a * b
    {
      EntryAt(a, b);
      data[a * Base + b]
    }
  }

  // ---------------------------------------------------------------------------
  // Cache warming

  /** The sum of the first c entries read at the cache-line stride. */
  ghost function StridedSum(c: nat): nat
  {
    if c == 0 then 0 else StridedSum(c - 1) + Entry((c - 1) * Stride)
  }

  lemma EntryOnStride(r: nat, s: nat)
    requires s < 8
    ensures Entry((8 * r + s) * Stride) == 32 * (r * s)
  {
    assert (8 * r + s) * Stride == Base * r + s * Stride;
    DivModOf(r, s * Stride, Base);
    assert r * (s * Stride) == 32 * (r * s);
  }

  lemma Distrib(a: nat, x: nat, y: nat)
    ensures a * x + a * y == a * (x + y)
  {
  }

  /** The strided read number 8·r + s adds r·(32·s). */
  lemma StridedStep(r: nat, s: nat)
    requires s < 8
    ensures StridedSum(8 * r + s + 1) == StridedSum(8 * r + s) + 32 * (r * s)
  {
    EntryOnStride(r, s);
  }

  /** Read c = 8·r + s visits row r at column 32·s, so the first 8·r + s
      strided reads sum to 896·(0 + … + (r−1)) + 32·r·(0 + … + (s−1)). */
  lemma {:induction false} StridedSumClosed(r: nat, s: nat)
    requires s < 8
    ensures StridedSum(8 * r + s) == 896 * SumBelow(r) + 32 * (r * SumBelow(s))
    decreases r, s
  {
    if s > 0 {
      StridedSumClosed(r, s - 1);
      StridedStep(r, s - 1);
      WithinRow(StridedSum(8 * r + s - 1), StridedSum(8 * r + s), SumBelow(r), r, SumBelow(s - 1), s - 1, SumBelow(s));
    } else if r > 0 {
      StridedSumClosed(r - 1, 7);
      StridedStep(r - 1, 7);
      SumBelowClosed(7);
      NextRow(StridedSum(8 * (r - 1) + 7), StridedSum(8 * r), SumBelow(r - 1), r - 1, SumBelow(r), SumBelow(0));
    }
  }

  lemma WithinRow(prev: nat, next: nat, rows: nat, r: nat, cols: nat, s: nat, cols': nat)
    requires prev == 896 * rows + 32 * (r * cols) && next == prev + 32 * (r * s)
    requires cols' == cols + s
    ensures next == 896 * rows + 32 * (r * cols')
  {
    Distrib(r, cols, s);
  }

  lemma NextRow(prev: nat, next: nat, rows: nat, q: nat, rows': nat, cols: nat)
    requires prev == 896 * rows + 32 * (q * 21) && next == prev + 32 * (q * 7)
    requires rows' == rows + q && cols == 0
    ensures next == 896 * rows' + 32 * ((q + 1) * cols)
  {
  }

  /** The 2048 strided reads add up to 29,245,440, well below 2^64. */
  lemma StridedChecksum()
    ensures StridedSum(TableSize / Stride) % U64Modulus == 29_245_440
  {
    assert TableSize / Stride == 8 * 256 + 0;
    StridedSumClosed(256, 0);
    SumBelowClosed(256);
    assert SumBelow(256) == 32640;
    assert StridedSum(2048) == 29_245_440;
  }

  /** Once the scan has passed the end of the table it has made every
      strided read. */
  lemma ScanComplete(count: nat, acc: nat)
    requires count * Stride == TableSize && acc == StridedSum(count) % U64Modulus
    ensures count == TableSize / Stride && acc == 29_245_440
  {
    StridedChecksum();
  }

  /** A read below the end of the table leaves room for a whole line. */
  lemma NextLine(count: nat)
    requires count * Stride < TableSize
    ensures (count + 1) * Stride <= TableSize
  {
    assert count * 32 < 2048 * 32;
  }

  lemma TouchStep(count: nat, acc: u64, v: u64)
    requires acc == StridedSum(count) % U64Modulus && v == Entry(count * Stride)
    ensures WrappingAdd(acc, v) == StridedSum(count + 1) % U64Modulus
  {
    ModAdd(StridedSum(count), v, U64Modulus);
  }

  /** The warm-up scan: reads one entry per 64-byte line, entries 0, 32, …,
      65504, and sums them with wrapping addition. `weird` says whether the
      diagnostic line guarded by `acc == 0xFFFF_FFFF` would be printed. */
  method TouchCache(table: AlignedTable) returns (checksum: u64, weird: bool, ghost touched: seq<nat>)
    requires table.Valid()
    ensures |touched| == TableSize / Stride
    ensures forall k :: 0 <= k < |touched| ==> touched[k] == k * Stride && touched[k] < TableSize
    ensures checksum == 29_245_440
    ensures !weird
  {
    var acc: u64 := 0;
    var idx: nat := 0;
    ghost var count: nat := 0;
    touched := [];
    while idx < TableSize
      invariant idx == count * Stride && idx <= TableSize
      invariant |touched| == count
      invariant forall k :: 0 <= k < count ==> touched[k] == k * Stride && touched[k] < TableSize
      invariant acc == StridedSum(count) % U64Modulus
    {
      var v := table.data[idx];
      NextLine(count);
      TouchStep(count, acc, v);
      acc := WrappingAdd(acc, v);
      touched := touched + [idx];
      idx := idx + Stride;
      count := count + 1;
    }
    ScanComplete(count, acc);
    checksum := acc;
    weird := acc == 0xFFFF_FFFF;
  }

  // ---------------------------------------------------------------------------
  // Simulated worker

  /** What the simulated worker has added up after `it` full scans of row
      a and the first b entries of the next one, given `iterations` scans of
      each of the rows before a. */
  ghost function Scanned(iterations: nat, a: nat, it: nat, b: nat): nat
  {
    iterations * 32640 * SumBelow(a) + it * 32640 * a + a * SumBelow(b)
  }

  lemma ScannedStep(iterations: nat, a: nat, it: nat, b: nat)
    ensures Scanned(iterations, a, it, b) + a * b == Scanned(iterations, a, it, b + 1)
  {
    var sb := SumBelow(b);
    assert a * (sb + b) == a * sb + a * b;
  }

  lemma ScannedRow(iterations: nat, a: nat, it: nat)
    ensures Scanned(iterations, a, it, Base) == Scanned(iterations, a, it + 1, 0)
  {
    SumBelowClosed(Base);
    assert (it + 1) * 32640 * a == it * 32640 * a + a * 32640;
  }

  lemma ScannedRows(iterations: nat, a: nat)
    ensures Scanned(iterations, a, iterations, 0) == Scanned(iterations, a + 1, 0, 0)
  {
    var sa := SumBelow(a);
    assert iterations * 32640 * (sa + a) == iterations * 32640 * sa + iterations * 32640 * a;
  }

  lemma WorkerStep(iterations: nat, a: nat, it: nat, b: nat, acc: u64, prod: u64)
    requires acc == Scanned(iterations, a, it, b) % U64Modulus && prod == a * b
    ensures WrappingAdd(acc, prod) == Scanned(iterations, a, it, b + 1) % U64Modulus
  {
    ModAdd(Scanned(iterations, a, it, b), prod, U64Modulus);
    ScannedStep(iterations, a, it, b);
  }

  /** The indices lo, lo + 1, …, hi − 1. */
  ghost function Between(lo: nat, hi: nat): (r: set<nat>)
    ensures forall k :: k in r <==> lo <= k < hi
    decreases hi
  {
    if hi <= lo then {} else Between(lo, hi - 1) + {hi - 1}
  }

  /** Two adjacent ranges make up their union; a sub-range adds nothing. */
  lemma BetweenJoin(lo: nat, mid: nat, hi: nat)
    requires lo <= mid <= hi
    ensures Between(lo, mid) + Between(mid, hi) == Between(lo, hi)
    ensures Between(lo, hi) + Between(mid, hi) == Between(lo, hi)
  {
    assert forall k :: k in Between(lo, hi) ==> k in Between(lo, mid) || k in Between(mid, hi);
  }

  /** One scan of row a: adds its 256 entries to acc with wrapping addition
      and reports the indices it read. */
  method ScanRow(table: AlignedTable, iterations: nat, a: nat, it: nat, acc0: u64)
    returns (acc: u64, ghost row: set<nat>)
    requires table.Valid() && a < Base
    requires acc0 == Scanned(iterations, a, it, 0) % U64Modulus
    ensures acc == Scanned(iterations, a, it + 1, 0) % U64Modulus
    ensures row == Between(a * Base, a * Base + Base)
  {
    acc := acc0;
    row := {};
    var rowStart := a * Base;
    for b := 0 to Base
      invariant acc == Scanned(iterations, a, it, b) % U64Modulus
      invariant row == Between(rowStart, rowStart + b)
    {
      EntryAt(a, b);
      var prod := table.data[rowStart + b];
      WorkerStep(iterations, a, it, b, acc, prod);
      acc := WrappingAdd(acc, prod);
      row := row + {rowStart + b};
    }
    ScannedRow(iterations, a, it);
  }

  /** Scans rows 0..7 of the table `iterations` times each, summing every
      entry with wrapping addition: the result is iterations · 28 · 32640
      modulo 2^64, and the entries read are exactly those of rows 0..7 (none
      when there are no iterations). */
  method WorkerSimulatedMultiply(table: AlignedTable, iterations: nat)
    returns (acc: u64, ghost touched: set<nat>)
    requires table.Valid()
    ensures acc == iterations * 913_920 % U64Modulus
    ensures touched == if iterations > 0 then Between(0, 8 * Base) else {}
  {
    acc := 0;
    touched := {};
    for a := 0 to 8
      invariant acc == Scanned(iterations, a, 0, 0) % U64Modulus
      invariant touched == if iterations > 0 then Between(0, a * Base) else {}
    {
      var rowStart := a * Base;
      for it := 0 to iterations
        invariant acc == Scanned(iterations, a, it, 0) % U64Modulus
        invariant it > 0 ==> touched == Between(0, rowStart + Base)
        invariant it == 0 ==> touched == if iterations > 0 then Between(0, rowStart) else {}
      {
        ghost var row;
        acc, row := ScanRow(table, iterations, a, it, acc);
        BetweenJoin(0, rowStart, rowStart + Base);
        touched := touched + row;
      }
      assert rowStart + Base == (a + 1) * Base;
      ScannedRows(iterations, a);
    }
    SumBelowClosed(8);
  }
}
