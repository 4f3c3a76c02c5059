/** The mathematics of schoolbook multiplication on little-endian base-256
    digit vectors: the unreduced column sums, their bound, the fact that they
    read as the product, and the way the multiplier splits the rows among its
    workers. */
module Schoolbook {
  import opened Digits


  function Min(x: nat, y: nat): nat
  {
    if x <= y then x else y
  }

  /** a[i]·b[k − i] when digit i of a meets a digit of b at position k. */
  function Term(a: seq<u8>, b: seq<u8>, i: nat, k: int): nat
    requires i < |a|
  {
    if i <= k < i + |b| then (a[i] as nat) * (b[k - i] as nat) else 0
  }

  /** Σ_{lo <= i < hi} a[i]·b[k − i]: the share of column k that rows lo..hi−1 of
      a contribute. */
  function ColumnSum(a: seq<u8>, b: seq<u8>, k: int, lo: nat, hi: nat): nat
    requires lo <= hi <= |a|
    decreases hi - lo
  {
    if hi == lo then 0 else ColumnSum(a, b, k, lo, hi - 1) + Term(a, b, hi - 1, k)
  }

  /** Σ_{i + j == k} a[i]·b[j] */
  function Coefficient(a: seq<u8>, b: seq<u8>, k: int): nat
  {
    ColumnSum(a, b, k, 0, |a|)
  }

  /** The accumulator of width |a| + |b| holding the column sums of rows lo..hi−1. */
  function Block(a: seq<u8>, b: seq<u8>, lo: nat, hi: nat): (acc: seq<nat>)
    requires lo <= hi <= |a|
    ensures |acc| == |a| + |b|
  {
    seq(|a| + |b|, k => ColumnSum(a, b, k, lo, hi))
  }

  /** Column sums over adjacent row ranges add up. */
  lemma {:induction false} ColumnSumSplit(a: seq<u8>, b: seq<u8>, k: nat, lo: nat, mid: nat, hi: nat)
    requires lo <= mid <= hi <= |a|
    ensures ColumnSum(a, b, k, lo, mid) + ColumnSum(a, b, k, mid, hi) == ColumnSum(a, b, k, lo, hi)
    decreases hi - mid
  {
    if hi > mid {
      ColumnSumSplit(a, b, k, lo, mid, hi - 1);
    }
  }

  // ---------------------------------------------------------------------------
  // Bounds

  /** A product of two digits is at most 255·255. */
  lemma TermBound(a: seq<u8>, b: seq<u8>, i: nat, k: nat)
    requires i < |a|
    ensures Term(a, b, i, k) <= 65025
  {
    if i <= k < i + |b| {
      MulLe(a[i], 255, b[k - i]);
      MulLe(b[k - i], 255, 255);
    }
  }

  lemma {:induction false} ColumnSumBound(a: seq<u8>, b: seq<u8>, k: nat, lo: nat, hi: nat)
    requires lo <= hi <= |a|
    ensures ColumnSum(a, b, k, lo, hi) <= (hi - lo) * 65025
    decreases hi - lo
  {
    if hi > lo {
      ColumnSumBound(a, b, k, lo, hi - 1);
      TermBound(a, b, hi - 1, k);
    }
  }

  /** Rows that cannot reach column k contribute nothing to it. */
  lemma {:induction false} ColumnSumOutside(a: seq<u8>, b: seq<u8>, k: nat, lo: nat, hi: nat)
    requires lo <= hi <= |a|
    requires forall i :: lo <= i < hi ==> Term(a, b, i, k) == 0
    ensures ColumnSum(a, b, k, lo, hi) == 0
    decreases hi - lo
  {
    if hi > lo {
      ColumnSumOutside(a, b, k, lo, hi - 1);
    }
  }

  /** Column k receives at most min(|a|, |b|) products, so its unreduced sum is
      at most min(|a|, |b|)·65025. */
  lemma CoefficientBound(a: seq<u8>, b: seq<u8>, k: nat)
    ensures Coefficient(a, b, k) <= Min(|a|, |b|) * 65025
  {
    var n, m := |a|, |b|;
    // only rows i with k − m < i <= k reach column k
    var lo := Min(if k + 1 >= m then k + 1 - m else 0, n);
    var hi := Min(k + 1, n);
    ColumnSumSplit(a, b, k, 0, lo, n);
    ColumnSumSplit(a, b, k, lo, hi, n);
    ColumnSumOutside(a, b, k, 0, lo);
    ColumnSumOutside(a, b, k, hi, n);
    ColumnSumBound(a, b, k, lo, hi);
    assert hi - lo <= Min(n, m);
    MulLe(hi - lo, Min(n, m), 65025);
  }

  // ---------------------------------------------------------------------------
  // The column sums read as the product

  function Zeros(z: nat): (s: seq<nat>)
    ensures |s| == z
  {
    seq(z, _ => 0)
  }

  function Scale(c: nat, s: seq<u8>): (r: seq<nat>)
    ensures |r| == |s|
  {
    seq(|s|, j requires 0 <= j < |s| => c * s[j])
  }

  function Add(x: seq<nat>, y: seq<nat>): (r: seq<nat>)
    requires |x| == |y|
    ensures |r| == |x|
  {
    seq(|x|, k requires 0 <= k < |x| => x[k] + y[k])
  }

  lemma {:induction false} ValueTrailingZeros(s: seq<nat>, z: nat)
    ensures ValueLE(s + Zeros(z), Base) == ValueLE(s, Base)
    decreases z
  {
    var t := s + Zeros(z);
    if z > 0 {
      ValueTrailingZeros(s, z - 1);
      assert t[..|t| - 1] == s + Zeros(z - 1);
      assert t[|t| - 1] == 0;
      assert ValueLE(t, Base) == ValueLE(t[..|t| - 1], Base) + 0 * Pow(Base, |t| - 1);
    } else {
      assert t == s;
    }
  }

  lemma ShiftStep(pi: nat, pl: nat, v: nat, last: nat)
    ensures pi * v + last * (pi * pl) == pi * (v + last * pl)
  {
  }

  lemma {:induction false} ValueShift(i: nat, s: seq<nat>)
    ensures ValueLE(Zeros(i) + s, Base) == Pow(Base, i) * ValueLE(s, Base)
    decreases |s|
  {
    var t := Zeros(i) + s;
    if |s| > 0 {
      var L := |s|;
      var front, last := s[..L - 1], s[L - 1];
      ValueShift(i, front);
      assert t[..|t| - 1] == Zeros(i) + front;
      PowAdd(Base, i, L - 1);
      var pi, pl := Pow(Base, i), Pow(Base, L - 1);
      assert ValueLE(t, Base) == ValueLE(Zeros(i) + front, Base) + last * Pow(Base, i + (L - 1));
      ShiftStep(pi, pl, ValueLE(front, Base), last);
    } else {
      assert t == Zeros(i) + [];
      ValueTrailingZeros([], i);
      assert [] + Zeros(i) == t;
    }
  }

  lemma ScaleStep(c: nat, v: nat, d: nat, p: nat)
    ensures c * v + (c * d) * p == c * (v + d * p)
  {
  }

  lemma {:induction false} ValueScale(c: nat, s: seq<u8>)
    ensures ValueLE(Scale(c, s), Base) == c * ValueLE(s, Base)
    decreases |s|
  {
    if |s| > 0 {
      var L := |s|;
      var front := s[..L - 1];
      var t := Scale(c, s);
      ValueScale(c, front);
      assert t[..L - 1] == Scale(c, front);
      var p := Pow(Base, L - 1);
      assert ValueLE(t, Base) == ValueLE(Scale(c, front), Base) + (c * s[L - 1]) * p;
      ScaleStep(c, ValueLE(front, Base), s[L - 1], p);
    } else {
      assert Scale(c, s) == [];
    }
  }

  lemma {:induction false} ValueAdd(x: seq<nat>, y: seq<nat>)
    requires |x| == |y|
    ensures ValueLE(Add(x, y), Base) == ValueLE(x, Base) + ValueLE(y, Base)
    decreases |x|
  {
    if |x| > 0 {
      var L := |x|;
      ValueAdd(x[..L - 1], y[..L - 1]);
      assert Add(x, y)[..L - 1] == Add(x[..L - 1], y[..L - 1]);
      var p := Pow(Base, L - 1);
      assert (x[L - 1] + y[L - 1]) * p == x[L - 1] * p + y[L - 1] * p;
    }
  }

  lemma RowStep(d: nat, p: nat, v: nat)
    ensures p * (d * v) == d * p * v
  {
  }

  /** Row i of the schoolbook layout is b scaled by a[i] and shifted by i places. */
  lemma RowValue(a: seq<u8>, b: seq<u8>, i: nat)
    requires i < |a|
    ensures ValueLE(seq(|a| + |b|, k => Term(a, b, i, k)), Base)
         == a[i] * Pow(Base, i) * ValueLE(b, Base)
  {
    var row := seq(|a| + |b|, k => Term(a, b, i, k));
    var scaled := Scale(a[i], b);
    var shifted := Zeros(i) + scaled;
    var laidOut := shifted + Zeros(|a| - i);
    forall k | 0 <= k < |row|
      ensures row[k] == laidOut[k]
    {
      if k < i {
        assert laidOut[k] == shifted[k] == 0;
      } else if k < i + |b| {
        assert laidOut[k] == shifted[k] == scaled[k - i];
      } else {
        assert laidOut[k] == 0;
      }
    }
    assert row == laidOut;
    ValueTrailingZeros(shifted, |a| - i);
    ValueShift(i, scaled);
    ValueScale(a[i], b);
    RowStep(a[i], Pow(Base, i), ValueLE(b, Base));
  }

  lemma BlockStep(va: nat, vb: nat, d: nat, p: nat)
    ensures va * vb + d * p * vb == (va + d * p) * vb
  {
  }

  /** The column sums of rows 0..hi−1 read as a[..hi]·b. */
  lemma {:induction false} BlockValue(a: seq<u8>, b: seq<u8>, hi: nat)
    requires hi <= |a|
    ensures ValueLE(Block(a, b, 0, hi), Base) == ValueLE(a[..hi], Base) * ValueLE(b, Base)
    decreases hi
  {
    if hi == 0 {
      BlockValueEmpty(a, b);
    } else {
      BlockValue(a, b, hi - 1);
      BlockValueStep(a, b, hi);
    }
  }

  lemma BlockValueEmpty(a: seq<u8>, b: seq<u8>)
    ensures ValueLE(Block(a, b, 0, 0), Base) == 0
  {
    assert Block(a, b, 0, 0) == [] + Zeros(|a| + |b|);
    ValueTrailingZeros([], |a| + |b|);
  }

  /** Adding row hi−1 to the column sums of the rows before it. */
  lemma BlockValueStep(a: seq<u8>, b: seq<u8>, hi: nat)
    requires 0 < hi <= |a|
    requires ValueLE(Block(a, b, 0, hi - 1), Base) == ValueLE(a[..hi - 1], Base) * ValueLE(b, Base)
    ensures ValueLE(Block(a, b, 0, hi), Base) == ValueLE(a[..hi], Base) * ValueLE(b, Base)
  {
    var i := hi - 1;
    var row := seq(|a| + |b|, k => Term(a, b, i, k));
    assert Block(a, b, 0, hi) == Add(Block(a, b, 0, i), row);
    ValueAdd(Block(a, b, 0, i), row);
    RowValue(a, b, i);
    var prefix := a[..hi];
    assert prefix[..i] == a[..i];
    var va, vb, p := ValueLE(a[..i], Base), ValueLE(b, Base), Pow(Base, i);
    var d: nat := a[i];
    assert ValueLE(prefix, Base) == va + d * p;
    BlockStep(va, vb, d, p);
  }

  /** The unreduced accumulator reads as the product of the two operands. */
  lemma ConvolutionValue(a: seq<u8>, b: seq<u8>)
    ensures ValueLE(Block(a, b, 0, |a|), Base) == ValueLE(a, Base) * ValueLE(b, Base)
  {
    BlockValue(a, b, |a|);
    assert a[..|a|] == a;
  }

  lemma MulStrict(x: nat, X: nat, y: nat, Y: nat)
    requires x < X && y < Y
    ensures x * y < X * Y
  {
    MulLe(x, X - 1, y);
    MulLe(y, Y - 1, X - 1);
    assert (X - 1) * (Y - 1) < X * Y;
  }

  /** The product of an n-digit and an m-digit number has at most n + m digits. */
  lemma ProductBound(a: seq<u8>, b: seq<u8>)
    ensures ValueLE(a, Base) * ValueLE(b, Base) < Pow(Base, |a| + |b|)
  {
    ValueLEBound(a, Base);
    ValueLEBound(b, Base);
    PowAdd(Base, |a|, |b|);
    MulStrict(ValueLE(a, Base), Pow(Base, |a|), ValueLE(b, Base), Pow(Base, |b|));
  }

  // ---------------------------------------------------------------------------
  // Splitting the rows among the workers

  /** ceil(n / workers) */
  function BlockSize(n: nat, workers: nat): nat
    requires workers >= 1
  {
    (n + workers - 1) / workers
  }

  function BlockStart(t: nat, size: nat): nat
  {
    t * size
  }

  function BlockEnd(t: nat, size: nat, n: nat): nat
  {
    Min(t * size + size, n)
  }

  lemma BlockSizeCovers(n: nat, workers: nat)
    requires workers >= 1
    ensures workers * BlockSize(n, workers) >= n
    ensures n > 0 ==> BlockSize(n, workers) >= 1
  {
    var size := BlockSize(n, workers);
    DivModEq(n + workers - 1, workers);
  }

  /** i lies in block i / size. */
  lemma InOwnBlock(i: nat, size: nat)
    requires size >= 1
    ensures BlockStart(i / size, size) <= i < BlockStart(i / size, size) + size
  {
    DivModEq(i, size);
  }

  /** Blocks of equal size do not overlap. */
  lemma BlocksDisjoint(t: nat, u: nat, size: nat, i: nat)
    requires BlockStart(t, size) <= i < BlockStart(t, size) + size
    requires BlockStart(u, size) <= i < BlockStart(u, size) + size
    ensures t == u
  {
    if u < t {
      MulLe(u + 1, t, size);
    } else if u > t {
      MulLe(t + 1, u, size);
    }
  }

  /** The blocks [t·size, min((t+1)·size, n)) of the workers t < workers cover
      every row index of a exactly once; when n is 0 every block is empty. */
  lemma BlocksPartition(n: nat, workers: nat, i: nat)
    requires workers >= 1 && i < n
    ensures var size := BlockSize(n, workers);
      var t := i / size;
      size >= 1 && t < workers && BlockStart(t, size) <= i < BlockEnd(t, size, n) &&
      forall u :: 0 <= u < workers && BlockStart(u, size) <= i < BlockEnd(u, size, n) ==> u == t
  {
    var size := BlockSize(n, workers);
    BlockSizeCovers(n, workers);
    var t := i / size;
    InOwnBlock(i, size);
    if t >= workers {
      MulLe(workers, t, size);
      assert false;
    }
    forall u | 0 <= u < workers && BlockStart(u, size) <= i < BlockEnd(u, size, n)
      ensures u == t
    {
      BlocksDisjoint(t, u, size, i);
    }
  }

  lemma EmptyOperandSkipsEveryBlock(workers: nat, t: nat)
    requires workers >= 1
    ensures var size := BlockSize(0, workers);
      BlockStart(t, size) >= BlockEnd(t, size, 0)
  {
  }
}
