/** Arbitrary-size non-negative integers held as little-endian base-256 digit
    vectors, their construction from a 128-bit integer, and the parallel
    schoolbook multiplication that looks single-digit products up in the
    digit table. */
module SymbolicNumbers {
  import opened Digits
  import opened Schoolbook
  import Cache

  /** digits[0] is the least significant base-256 digit. */
  datatype SymbolicNumber = SymbolicNumber(digits: seq<u8>)

  /** The integer a symbolic number stands for. */
  function Value(x: SymbolicNumber): nat
  {
    ValueLE(x.digits, Base)
  }

  /** Base-256 digits of n by repeated remainder and division; zero has no
      digits at all and no other number has a most significant zero. */
  method FromU128(n: u128) returns (r: SymbolicNumber)
    ensures r.digits == ExpandOrEmpty(n, Base)
    ensures Value(r) == n
    ensures |r.digits| <= 16
  {
    var digits: seq<u8> := [];
    var rest: nat := n;
    while rest > 0
      invariant digits + ExpandOrEmpty(rest, Base) == ExpandOrEmpty(n, Base)
      decreases rest
    {
      ExpandOrEmptyStep(rest, Base);
      var d: u8 := rest % 256;
      assert (digits + [d]) + ExpandOrEmpty(rest / 256, Base) == digits + ExpandOrEmpty(rest, Base);
      digits := digits + [d];
      rest := rest / 256;
    }
    assert digits + [] == digits;
    r := SymbolicNumber(digits);
    FromU128Value(n);
  }

  lemma FromU128Value(n: u128)
    ensures ValueLE(ExpandOrEmpty(n, Base), Base) == n
    ensures |ExpandOrEmpty(n, Base)| <= 16
  {
    if n > 0 {
      ExpandValue(n, Base);
    }
    Pow256To16();
    ExpandOrEmptyLength(n, Base, 16);
  }

  lemma Pow256To16()
    ensures Pow(Base, 16) == 0x1_0000_0000_0000_0000_0000_0000_0000_0000
  {
    assert Pow(Base, 2) == 0x1_0000;
    PowAdd(Base, 2, 2);
    PowAdd(Base, 4, 4);
    PowAdd(Base, 8, 8);
  }

  // ---------------------------------------------------------------------------
  // Multiplication

  /** One worker: adds a[i]·b[j], read from the table, into column i + j for
      every row i in start..end−1 and every j. */
  method AccumulateBlock(a: seq<u8>, b: seq<u8>, table: Cache.AlignedTable, start: nat, end: nat)
    returns (partial: seq<nat>)
    requires table.Valid()
    requires start <= end <= |a|
    ensures partial == Block(a, b, start, end)
  {
    var n, m := |a|, |b|;
    partial := seq(n + m, _ => 0);
    for i := start to end
      invariant |partial| == n + m
      invariant forall k :: 0 <= k < n + m ==> partial[k] == ColumnSum(a, b, k, start, i)
    {
      var x := a[i];
      for j := 0 to m
        invariant |partial| == n + m
        invariant forall k :: 0 <= k < n + m ==>
          partial[k] == ColumnSum(a, b, k, start, i) + (if i <= k < i + j then (x as nat) * (b[k - i] as nat) else 0)
      {
        var prod := table.Lookup(x, b[j]);
        partial := partial[i + j := partial[i + j] + prod];
      }
    }
  }

  /** The results of the workers that were spawned, in spawn order: handle h
      holds the column sums of the non-empty row block h. */
  predicate Spawned(a: seq<u8>, b: seq<u8>, size: nat, handles: seq<seq<nat>>)
  {
    forall h :: 0 <= h < |handles| ==>
      BlockStart(h, size) < |a| &&
      handles[h] == Block(a, b, BlockStart(h, size), BlockEnd(h, size, |a|))
  }

  lemma SpawnedAppend(a: seq<u8>, b: seq<u8>, size: nat, handles: seq<seq<nat>>, partial: seq<nat>)
    requires Spawned(a, b, size, handles)
    requires BlockStart(|handles|, size) < |a|
    requires partial == Block(a, b, BlockStart(|handles|, size), BlockEnd(|handles|, size, |a|))
    ensures Spawned(a, b, size, handles + [partial])
  {
    var hs := handles + [partial];
    assert forall h :: 0 <= h < |handles| ==> hs[h] == handles[h];
  }

  /** Splits the rows of a into `workers` blocks of ceil(n / workers) rows and
      runs one worker per non-empty block; the empty trailing blocks are
      skipped. Between them the spawned blocks cover every row. */
  method SpawnWorkers(a: seq<u8>, b: seq<u8>, table: Cache.AlignedTable, workers: nat)
    returns (handles: seq<seq<nat>>, size: nat)
    requires table.Valid() && workers >= 1
    ensures size == BlockSize(|a|, workers)
    ensures Spawned(a, b, size, handles)
    ensures |handles| <= workers && |handles| * size >= |a|
  {
    var n := |a|;
    size := (n + workers - 1) / workers;
    BlockSizeCovers(n, workers);
    handles := [];
    for t := 0 to workers
      invariant |handles| <= t
      invariant Spawned(a, b, size, handles)
      invariant |handles| < t ==> |handles| * size >= n
    {
      var start := t * size;
      var end := Min((t + 1) * size, n);
      assert (t + 1) * size == start + size;
      if start >= end {
        continue;
      }
      if |handles| < t {
        MulLe(|handles|, t, size);
      }
      assert |handles| == t && end == BlockEnd(t, size, n);
      var partial := AccumulateBlock(a, b, table, start, end);
      SpawnedAppend(a, b, size, handles, partial);
      handles := handles + [partial];
    }
    if |handles| == workers {
      assert workers * size >= n;
    }
  }

  /** Adds the partial results into one accumulator of n + m columns. */
  method CombinePartials(a: seq<u8>, b: seq<u8>, size: nat, handles: seq<seq<nat>>)
    returns (result: seq<nat>)
    requires Spawned(a, b, size, handles)
    requires |handles| * size >= |a|
    ensures result == Block(a, b, 0, |a|)
  {
    var n, m := |a|, |b|;
    result := seq(n + m, _ => 0);
    for h := 0 to |handles|
      invariant |result| == n + m
      invariant forall k :: 0 <= k < n + m ==> result[k] == ColumnSum(a, b, k, 0, Min(h * size, n))
    {
      var lo, hi := BlockStart(h, size), BlockEnd(h, size, n);
      var partial := handles[h];
      ghost var before := result;
      for i := 0 to |result|
        invariant |result| == n + m
        invariant forall k :: 0 <= k < i ==> result[k] == ColumnSum(a, b, k, 0, hi)
        invariant forall k :: i <= k < n + m ==> result[k] == before[k]
      {
        ColumnSumSplit(a, b, i, 0, lo, hi);
        result := result[i := result[i] + partial[i]];
      }
      assert (h + 1) * size == hi || hi == n <= (h + 1) * size;
    }
    assert Min(|handles| * size, n) == n;
  }

  lemma CarryStep(low: nat, carry: nat, x: nat, p: nat)
    ensures var total := x + carry;
      low + (total % 256) * p + (total / 256) * (256 * p) == low + carry * p + x * p
  {
    DivModScaled(x + carry, 256, p);
  }

  /** Digit i of the accumulator and the incoming carry settle into one digit
      and a carry into the next column. */
  lemma CarryColumn(acc: seq<nat>, i: nat, digits: seq<nat>, carry: nat)
    requires i < |acc| && |digits| == i
    requires ValueLE(digits, Base) + carry * Pow(Base, i) == ValueLE(acc[..i], Base)
    ensures var total := acc[i] + carry;
      ValueLE(digits + [total % 256], Base) + (total / 256) * Pow(Base, i + 1) == ValueLE(acc[..i + 1], Base)
  {
    var total := acc[i] + carry;
    var p := Pow(Base, i);
    assert (digits + [total % 256])[..i] == digits;
    assert acc[..i + 1][..i] == acc[..i];
    CarryStep(ValueLE(digits, Base), carry, acc[i], p);
  }

  /** The leftover carry settles one more digit. */
  lemma SpillStep(digits: seq<nat>, carry: nat, v: nat)
    requires ValueLE(digits, Base) + carry * Pow(Base, |digits|) == v
    ensures ValueLE(digits + [carry % 256], Base) + (carry / 256) * Pow(Base, |digits| + 1) == v
  {
    var next := digits + [carry % 256];
    assert next[..|digits|] == digits;
    CarryStep(ValueLE(digits, Base), 0, carry, Pow(Base, |digits|));
  }

  /** A value that fits below p leaves nothing over once its low part is
      below p. */
  lemma NoSpill(low: nat, spill: nat, p: nat, v: nat)
    requires low + spill * p == v && v < p
    ensures spill == 0
  {
    if spill > 0 {
      MulLe(1, spill, p);
      assert false;
    }
  }

  /** Reduces every column to one base-256 digit, carrying the excess into the
      next column, and writes out whatever carry is left as further digits. */
  method PropagateCarry(acc: seq<nat>) returns (digits: seq<u8>)
    ensures ValueLE(digits, Base) == ValueLE(acc, Base)
    ensures |digits| >= |acc|
    ensures ValueLE(acc, Base) < Pow(Base, |acc|) ==> |digits| == |acc|
  {
    var carry: nat := 0;
    digits := [];
    for i := 0 to |acc|
      invariant |digits| == i
      invariant ValueLE(digits, Base) + carry * Pow(Base, i) == ValueLE(acc[..i], Base)
    {
      CarryColumn(acc, i, digits, carry);
      var total := acc[i] + carry;
      digits := digits + [total % 256];
      carry := total / 256;
    }
    assert acc[..|acc|] == acc;
    ghost var low, spill := ValueLE(digits, Base), carry;
    while carry > 0
      invariant |digits| >= |acc|
      invariant ValueLE(digits, Base) + carry * Pow(Base, |digits|) == ValueLE(acc, Base)
      invariant spill == 0 ==> carry == 0 && |digits| == |acc|
      decreases carry
    {
      SpillStep(digits, carry, ValueLE(acc, Base));
      digits := digits + [carry % 256];
      carry := carry / 256;
    }
    if ValueLE(acc, Base) < Pow(Base, |acc|) {
      NoSpill(low, spill, Pow(Base, |acc|), ValueLE(acc, Base));
    }
  }

  /** The product of two symbolic numbers: the rows of self are split among
      `workers` workers, their partial column sums are added up, and the
      carries are propagated. The result has exactly n + m digits. */
  method MultiplyParallel(x: SymbolicNumber, y: SymbolicNumber, table: Cache.AlignedTable, workers: nat)
    returns (r: SymbolicNumber)
    requires table.Valid() && workers >= 1
    ensures Value(r) == Value(x) * Value(y)
    ensures |r.digits| == |x.digits| + |y.digits|
  {
    var a, b := x.digits, y.digits;
    var handles, size := SpawnWorkers(a, b, table, workers);
    var result := CombinePartials(a, b, size, handles);
    ConvolutionValue(a, b);
    ProductBound(a, b);
    var digits := PropagateCarry(result);
    r := SymbolicNumber(digits);
  }

  /** Whatever the number of workers, and in whichever order the operands are
      given, multiplication yields the same digit vector. */
  method MultiplyIsDeterministic(x: SymbolicNumber, y: SymbolicNumber, table: Cache.AlignedTable, p: nat, q: nat)
    returns (xy: SymbolicNumber, yx: SymbolicNumber)
    requires table.Valid() && p >= 1 && q >= 1
    ensures Value(xy) == Value(x) * Value(y)
    ensures xy == yx
  {
    xy := MultiplyParallel(x, y, table, p);
    yx := MultiplyParallel(y, x, table, q);
    ValueLEInjective(xy.digits, yx.digits, Base);
  }
}
