/** Linear expressions as the models build them with gp.quicksum: plain sums and
    zip-style dot products. A dot product stops at the shorter of its operands,
    as Python's zip does. */
module Quicksum {

  datatype Option<+T> = None | Some(value: T)

  function Sum(xs: seq<int>): int
  {
    if |xs| == 0 then 0 else xs[0] + Sum(xs[1..])
  }

  function RealSum(xs: seq<real>): real
  {
    if |xs| == 0 then 0.0 else xs[0] + RealSum(xs[1..])
  }

  /** Σ_j a[j] * y[j] over the common prefix of a and y. */
  function Dot(a: seq<int>, y: seq<int>): int
  {
    if |a| == 0 || |y| == 0 then 0 else a[0] * y[0] + Dot(a[1..], y[1..])
  }

  /** Σ_i d[i] * x[i] over the common prefix of d and x. */
  function WeightedSum(d: seq<real>, x: seq<int>): real
  {
    if |d| == 0 || |x| == 0 then 0.0 else d[0] * (x[0] as real) + WeightedSum(d[1..], x[1..])
  }

  predicate Binary(xs: seq<int>)
  {
    forall i :: 0 <= i < |xs| ==> xs[i] == 0 || xs[i] == 1
  }

  predicate NonNegative(xs: seq<int>)
  {
    forall i :: 0 <= i < |xs| ==> xs[i] >= 0
  }

  predicate NonNegativeReals(xs: seq<real>)
  {
    forall i :: 0 <= i < |xs| ==> xs[i] >= 0.0
  }

  // ---------------------------------------------------------------------
  // Facts about sums used by the models' lemmas.

  /** Scaling by a non-negative factor keeps the order. */
  lemma MulMonotone(a1: real, a2: real, s: real)
    requires a1 <= a2 && s >= 0.0
    ensures a1 * s <= a2 * s
  {
    assert (a2 - a1) * s >= 0.0;
  }

  lemma {:induction false} RealSumNonNegative(xs: seq<real>)
    requires NonNegativeReals(xs)
    ensures RealSum(xs) >= 0.0
  {
    if |xs| > 0 {
      RealSumNonNegative(xs[1..]);
    }
  }

  /** Pointwise smaller vectors have a smaller sum. */
  lemma {:induction false} SumPointwiseLe(xs: seq<int>, ys: seq<int>)
    requires |xs| == |ys|
    requires forall i :: 0 <= i < |xs| ==> xs[i] <= ys[i]
    ensures Sum(xs) <= Sum(ys)
  {
    if |xs| > 0 {
      SumPointwiseLe(xs[1..], ys[1..]);
    }
  }

  /** A sum of non-negative terms that is zero has every term zero. */
  lemma {:induction false} SumZero(xs: seq<int>)
    requires NonNegative(xs) && Sum(xs) == 0
    ensures forall i :: 0 <= i < |xs| ==> xs[i] == 0
  {
    if |xs| > 0 {
      SumNonNegative(xs[1..]);
      SumZero(xs[1..]);
      forall i | 0 <= i < |xs| ensures xs[i] == 0 {
        if i > 0 { assert xs[i] == xs[1..][i - 1]; }
      }
    }
  }

  lemma {:induction false} SumNonNegative(xs: seq<int>)
    requires NonNegative(xs)
    ensures Sum(xs) >= 0
  {
    if |xs| > 0 {
      SumNonNegative(xs[1..]);
    }
  }

  /** A positive sum has a positive term. */
  lemma {:induction false} SumPositive(xs: seq<int>) returns (j: nat)
    requires Sum(xs) > 0
    ensures j < |xs| && xs[j] > 0
  {
    if xs[0] > 0 {
      j := 0;
    } else {
      var k := SumPositive(xs[1..]);
      j := k + 1;
    }
  }

  /** Raising one entry by one raises the sum by one. */
  lemma {:induction false} SumIncrement(xs: seq<int>, j: nat)
    requires j < |xs|
    ensures Sum(xs[j := xs[j] + 1]) == Sum(xs) + 1
  {
    if j > 0 {
      SumIncrement(xs[1..], j - 1);
      assert xs[j := xs[j] + 1][1..] == xs[1..][j - 1 := xs[j] + 1];
    }
  }

  /** Raising y[j] by one raises the dot product by a[j]. */
  lemma {:induction false} DotIncrement(a: seq<int>, y: seq<int>, j: nat)
    requires |a| == |y| && j < |y|
    ensures Dot(a, y[j := y[j] + 1]) == Dot(a, y) + a[j]
  {
    if j > 0 {
      DotIncrement(a[1..], y[1..], j - 1);
      assert y[j := y[j] + 1][1..] == y[1..][j - 1 := y[j] + 1];
    }
  }

  /** A positive dot product has a term where both factors are non-zero. */
  lemma {:induction false} DotPositive(a: seq<int>, y: seq<int>) returns (j: nat)
    requires Dot(a, y) > 0
    ensures j < |a| && j < |y| && a[j] * y[j] > 0
  {
    if a[0] * y[0] > 0 {
      j := 0;
    } else {
      var k := DotPositive(a[1..], y[1..]);
      j := k + 1;
    }
  }

  /** Σ d[i]·x[i] <= Σ d[i]·x'[i] when the weights are non-negative and x <= x'. */
  lemma {:induction false} WeightedSumPointwiseLe(d: seq<real>, x: seq<int>, x': seq<int>)
    requires |x| == |x'| && NonNegativeReals(d)
    requires forall i :: 0 <= i < |x| ==> x[i] <= x'[i]
    ensures WeightedSum(d, x) <= WeightedSum(d, x')
  {
    if |d| > 0 && |x| > 0 {
      WeightedSumPointwiseLe(d[1..], x[1..], x'[1..]);
      assert d[0] * (x[0] as real) <= d[0] * (x'[0] as real) by {
        assert d[0] >= 0.0 && (x[0] as real) <= (x'[0] as real);
      }
    }
  }

  /** Summing a 0/1 vector counts at most its length. */
  lemma {:induction false} BinarySumAtMostLength(xs: seq<int>)
    requires Binary(xs)
    ensures 0 <= Sum(xs) <= |xs|
  {
    if |xs| > 0 {
      BinarySumAtMostLength(xs[1..]);
    }
  }

  /** When y sums to less than its bounds, some entry is below its bound. */
  lemma SlackEntry(y: seq<int>, bound: seq<int>) returns (j: nat)
    requires |y| == |bound| && Sum(y) < Sum(bound)
    ensures j < |y| && y[j] < bound[j]
  {
    if forall k :: 0 <= k < |y| ==> bound[k] <= y[k] {
      SumPointwiseLe(bound, y);
      assert false;
    }
    j :| 0 <= j < |y| && y[j] < bound[j];
  }

  /** A dot product against an all-zero vector is zero. */
  lemma {:induction false} DotZero(a: seq<int>, y: seq<int>)
    requires forall j :: 0 <= j < |y| ==> y[j] == 0
    ensures Dot(a, y) == 0
  {
    if |a| > 0 && |y| > 0 {
      DotZero(a[1..], y[1..]);
    }
  }

  /** Raising one entry of y never lowers a dot product with non-negative weights. */
  lemma DotIncrementGrows(a: seq<int>, y: seq<int>, j: nat)
    requires |a| == |y| && j < |y| && NonNegative(a)
    ensures Dot(a, y[j := y[j] + 1]) >= Dot(a, y)
  {
    DotIncrement(a, y, j);
  }
}
