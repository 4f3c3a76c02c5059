/** Positional notation shared by the base-256 symbolic numbers and the decimal
    codec: machine integer ranges, powers, little- and big-endian readings of a
    digit sequence, the canonical expansion of a number, and sequence reversal. */
module Digits {

  type u8 = x: int | 0 <= x < 0x100
  type u16 = x: int | 0 <= x < 0x1_0000
  type u64 = x: int | 0 <= x < 0x1_0000_0000_0000_0000
  type u128 = x: int | 0 <= x < 0x1_0000_0000_0000_0000_0000_0000_0000_0000

  /** The radix of a symbolic number's digits. */
  const Base: nat := 256

  /** base^k */
  function Pow(base: nat, k: nat): (p: nat)
    ensures base >= 1 ==> p >= 1
  {
    if k == 0 then 1 else base * Pow(base, k - 1)
  }

  /** Every element of ds is a digit of the given base. */
  predicate IsDigits(ds: seq<nat>, base: nat)
  {
    forall i :: 0 <= i < |ds| ==> ds[i] < base
  }

  /** Little-endian reading: ds[0] is the least significant digit. */
  function ValueLE(ds: seq<nat>, base: nat): nat
  {
    if |ds| == 0 then 0
    else ValueLE(ds[..|ds| - 1], base) + ds[|ds| - 1] * Pow(base, |ds| - 1)
  }

  /** Big-endian reading: ds[0] is the most significant digit. */
  function ValueBE(ds: seq<nat>, base: nat): nat
  {
    if |ds| == 0 then 0
    else ValueBE(ds[..|ds| - 1], base) * base + ds[|ds| - 1]
  }

  /** The canonical little-endian expansion of v: no most-significant zero
      digit, except that zero itself is the single digit 0. */
  function Expand(v: nat, base: nat): (ds: seq<nat>)
    requires base >= 2
    ensures |ds| >= 1 && IsDigits(ds, base)
    ensures ds[|ds| - 1] != 0 || ds == [0]
    ensures v == 0 <==> ds == [0]
    decreases v
  {
    if v < base then [v]
    else
      DivStep(v, base);
      [v % base] + Expand(v / base, base)
  }

  /** Dividing a number of at least two digits. */
  lemma DivStep(v: nat, base: nat)
    requires base >= 2 && v >= base
    ensures v % base < base && 1 <= v / base < v
  {
    DivModEq(v, base);
    MulLe(2, base, v / base);
  }

  function Reverse<T>(s: seq<T>): (r: seq<T>)
    ensures |r| == |s|
    ensures forall i :: 0 <= i < |s| ==> r[i] == s[|s| - 1 - i]
  {
    if |s| == 0 then [] else [s[|s| - 1]] + Reverse(s[..|s| - 1])
  }

  lemma ReverseReverse<T>(s: seq<T>)
    ensures Reverse(Reverse(s)) == s
  {
    var r := Reverse(Reverse(s));
    assert forall i :: 0 <= i < |s| ==> r[i] == s[i];
  }

  lemma AppendDigit(ds: seq<nat>, d: nat, base: nat)
    requires IsDigits(ds, base) && d < base
    ensures IsDigits(ds + [d], base)
  {
  }

  lemma ReverseDigits(ds: seq<nat>, base: nat)
    requires IsDigits(ds, base)
    ensures IsDigits(Reverse(ds), base)
  {
  }

  // ---------------------------------------------------------------------------
  // Arithmetic helpers

  lemma PowAdd(base: nat, i: nat, j: nat)
    ensures Pow(base, i + j) == Pow(base, i) * Pow(base, j)
    decreases j
  {
    if j > 0 {
      PowAdd(base, i, j - 1);
      MulSwap(base, Pow(base, i), Pow(base, j - 1));
    }
  }

  /** Splitting x into quotient and remainder by d and rescaling both by p. */
  lemma DivModScaled(x: nat, d: nat, p: nat)
    requires d > 0
    ensures (x % d) * p + (x / d) * (d * p) == x * p
  {
    assert x == (x / d) * d + x % d;
    calc {
      x * p;
      ((x / d) * d + x % d) * p;
      (x / d) * d * p + (x % d) * p;
    }
  }

  lemma MulSwap(a: nat, b: nat, c: nat)
    ensures a * (b * c) == b * (a * c)
  {
  }

  /** (d·p + v)·b = d·(b·p) + v·b */
  lemma ShiftSum(d: nat, p: nat, v: nat, b: nat)
    ensures (d * p + v) * b == d * (b * p) + v * b
  {
    MulSwap(d, p, b);
  }

  lemma MulLe(a: nat, b: nat, p: nat)
    requires a <= b
    ensures a * p <= b * p
  {
  }

  /** A number written as q·p + r with r < p has exactly one such form. */
  lemma UniqueSplit(q1: nat, r1: nat, q2: nat, r2: nat, p: nat)
    requires r1 < p && r2 < p
    requires q1 * p + r1 == q2 * p + r2
    ensures q1 == q2 && r1 == r2
  {
    if q1 != q2 {
      var lo, hi := if q1 < q2 then q1 else q2, if q1 < q2 then q2 else q1;
      MulLe(lo + 1, hi, p);
      assert false;
    }
  }

  lemma DivModEq(v: nat, b: nat)
    requires b > 0
    ensures v == b * (v / b) + v % b
  {
  }

  lemma DivDecreases(v: nat, b: nat)
    requires b >= 2 && v >= 1
    ensures v / b < v
  {
  }

  /** Euclidean division of q·b + r by b. */
  lemma DivModOf(q: nat, r: nat, b: nat)
    requires r < b
    ensures (b * q + r) / b == q && (b * q + r) % b == r
  {
    var v := b * q + r;
    assert v == (v / b) * b + v % b;
    UniqueSplit(q, r, v / b, v % b, b);
  }

  // ---------------------------------------------------------------------------
  // Readings of a digit sequence

  /** Prepending a least-significant digit. */
  lemma {:induction false} ValueLECons(d: nat, rest: seq<nat>, base: nat)
    ensures ValueLE([d] + rest, base) == d + base * ValueLE(rest, base)
    decreases |rest|
  {
    var s := [d] + rest;
    if |rest| > 0 {
      var front := rest[..|rest| - 1];
      var last := rest[|rest| - 1];
      assert s[..|s| - 1] == [d] + front;
      ValueLECons(d, front, base);
      calc {
        ValueLE(s, base);
        ValueLE([d] + front, base) + last * Pow(base, |rest|);
        d + base * ValueLE(front, base) + last * (base * Pow(base, |rest| - 1));
        d + base * (ValueLE(front, base) + last * Pow(base, |rest| - 1));
        d + base * ValueLE(rest, base);
      }
    } else {
      assert s[..|s| - 1] == [];
    }
  }

  /** Prepending a most-significant digit. */
  lemma {:induction false} ValueBECons(d: nat, rest: seq<nat>, base: nat)
    ensures ValueBE([d] + rest, base) == d * Pow(base, |rest|) + ValueBE(rest, base)
    decreases |rest|
  {
    var s := [d] + rest;
    if |rest| > 0 {
      var front := rest[..|rest| - 1];
      var last := rest[|rest| - 1];
      assert s[..|s| - 1] == [d] + front;
      ValueBECons(d, front, base);
      assert ValueBE(s, base) == ValueBE([d] + front, base) * base + last;
      ShiftSum(d, Pow(base, |front|), ValueBE(front, base), base);
      assert Pow(base, |rest|) == base * Pow(base, |front|);
    } else {
      assert s[..|s| - 1] == [];
    }
  }

  /** Reading a sequence little-endian is reading its reverse big-endian. */
  lemma {:induction false} ValueLEReverse(ds: seq<nat>, base: nat)
    ensures ValueLE(ds, base) == ValueBE(Reverse(ds), base)
    decreases |ds|
  {
    if |ds| > 0 {
      var front := ds[..|ds| - 1];
      ValueLEReverse(front, base);
      ValueBECons(ds[|ds| - 1], Reverse(front), base);
    }
  }

  /** A digit sequence of length L reads as a number below base^L. */
  lemma {:induction false} ValueLEBound(ds: seq<nat>, base: nat)
    requires IsDigits(ds, base)
    ensures ValueLE(ds, base) < Pow(base, |ds|)
    decreases |ds|
  {
    if |ds| > 0 {
      var L := |ds|;
      var front, d := ds[..L - 1], ds[L - 1];
      var p := Pow(base, L - 1);
      ValueLEBound(front, base);
      assert ValueLE(ds, base) == ValueLE(front, base) + d * p;
      MulLe(d, base - 1, p);
      assert (base - 1) * p + p == base * p;
    }
  }

  /** Two digit sequences of equal length with the same value are identical. */
  lemma {:induction false} ValueLEInjective(x: seq<nat>, y: seq<nat>, base: nat)
    requires |x| == |y|
    requires IsDigits(x, base) && IsDigits(y, base)
    requires ValueLE(x, base) == ValueLE(y, base)
    ensures x == y
    decreases |x|
  {
    if |x| > 0 {
      var L := |x|;
      var xf, yf := x[..L - 1], y[..L - 1];
      ValueLEBound(xf, base);
      ValueLEBound(yf, base);
      UniqueSplit(x[L - 1], ValueLE(xf, base), y[L - 1], ValueLE(yf, base), Pow(base, L - 1));
      ValueLEInjective(xf, yf, base);
      assert x == xf + [x[L - 1]] && y == yf + [y[L - 1]];
    }
  }

  /** A big-endian sequence whose leading digit is non-zero reads as a
      positive number. */
  lemma {:induction false} ValueBELeading(ds: seq<nat>, base: nat)
    requires base >= 1 && |ds| > 0
    ensures ValueBE(ds, base) >= ds[0]
    decreases |ds|
  {
    if |ds| > 1 {
      ValueBELeading(ds[..|ds| - 1], base);
    }
  }

  lemma ValueLESingle(d: nat, base: nat)
    ensures ValueLE([d], base) == d
  {
    assert [d][..0] == [];
  }

  /** Expand is the inverse of the little-endian reading. */
  lemma {:induction false} ExpandValue(v: nat, base: nat)
    requires base >= 2
    ensures ValueLE(Expand(v, base), base) == v
    decreases v
  {
    if v >= base {
      var q := v / base;
      DivDecreases(v, base);
      ExpandValue(q, base);
      ExpandValueStep(v, base);
    } else {
      ValueLESingle(v, base);
    }
  }

  lemma ExpandValueStep(v: nat, base: nat)
    requires base >= 2 && v >= base
    requires ValueLE(Expand(v / base, base), base) == v / base
    ensures ValueLE(Expand(v, base), base) == v
  {
    var q, r := v / base, v % base;
    var rest := Expand(q, base);
    assert Expand(v, base) == [r] + rest;
    ValueLECons(r, rest, base);
    DivModEq(v, base);
  }

  /** Expand is the only canonical digit sequence with value v. */
  lemma {:induction false} ExpandUnique(ds: seq<nat>, base: nat)
    requires base >= 2 && |ds| >= 1 && IsDigits(ds, base)
    requires ds[|ds| - 1] != 0 || ds == [0]
    ensures ds == Expand(ValueLE(ds, base), base)
    decreases |ds|
  {
    if |ds| == 1 {
      ValueLESingle(ds[0], base);
      assert ds == [ds[0]];
    } else {
      ExpandUnique(ds[1..], base);
      ExpandUniqueStep(ds, base);
    }
  }

  lemma ExpandUniqueStep(ds: seq<nat>, base: nat)
    requires base >= 2 && |ds| >= 2 && IsDigits(ds, base)
    requires ds[|ds| - 1] != 0
    requires ds[1..] == Expand(ValueLE(ds[1..], base), base)
    ensures ds == Expand(ValueLE(ds, base), base)
  {
    var v := ValueLE(ds, base);
    var rest := ds[1..];
    var w := ValueLE(rest, base);
    ValueLECons(ds[0], rest, base);
    assert ds == [ds[0]] + rest;
    assert w != 0;
    assert v == base * w + ds[0];
    MulLe(1, w, base);
    DivModOf(w, ds[0], base);
    assert v / base == w && v % base == ds[0];
    assert Expand(v, base) == [ds[0]] + Expand(w, base);
  }

  /** The canonical expansion of a positive number, with zero written as no
      digits at all. */
  function ExpandOrEmpty(v: nat, base: nat): (ds: seq<nat>)
    requires base >= 2
    ensures ds == [] <==> v == 0
  {
    if v == 0 then [] else Expand(v, base)
  }

  /** Peeling off the least significant digit of a positive number. */
  lemma ExpandOrEmptyStep(v: nat, base: nat)
    requires base >= 2 && v > 0
    ensures ExpandOrEmpty(v, base) == [v % base] + ExpandOrEmpty(v / base, base)
  {
    if v < base {
      assert v / base == 0 && v % base == v;
    } else {
      DivModEq(v, base);
      assert v / base != 0;
    }
  }

  lemma QuotientBound(v: nat, base: nat, p: nat)
    requires base > 0 && v < base * p
    ensures v / base < p
  {
    DivModEq(v, base);
    if v / base >= p {
      MulLe(p, v / base, base);
      assert false;
    }
  }

  /** A number below base^k has at most k digits. */
  lemma {:induction false} ExpandOrEmptyLength(v: nat, base: nat, k: nat)
    requires base >= 2 && v < Pow(base, k)
    ensures |ExpandOrEmpty(v, base)| <= k
    decreases k
  {
    if v > 0 {
      assert k >= 1;
      var q := v / base;
      QuotientBelowPow(v, base, k);
      ExpandOrEmptyStep(v, base);
      assert |ExpandOrEmpty(v, base)| == 1 + |ExpandOrEmpty(q, base)|;
      ExpandOrEmptyLength(q, base, k - 1);
    }
  }

  lemma QuotientBelowPow(v: nat, base: nat, k: nat)
    requires base >= 2 && k >= 1 && v < Pow(base, k)
    ensures v / base < Pow(base, k - 1)
  {
    var p := Pow(base, k - 1);
    assert Pow(base, k) == base * p;
    QuotientBound(v, base, p);
  }
}
