/** models/model_best_couple.py: the best coupling between customers and stops.
    A 0/1 matrix x assigns each customer (row) to exactly one stop (column);
    each stop takes at most gamma * customers of them; the total distance
    Σ x_ij · d_ij is minimised. The solver is not modelled: the constraint
    system is a predicate on matrices, and the optimum is characterised
    directly. */
module BestCoupling {
  import opened Quicksum

  /** `get_gamma_param(customer, stops)`: `np.ceil(customer / stops)`. Python's
      true division by zero stops raises ZeroDivisionError, here None. */
  function GammaParam(customers: nat, stops: nat): (g: Option<int>)
    ensures g.None? <==> stops == 0
    ensures g.Some? ==> g.value * stops >= customers && (g.value - 1) * stops < customers
  {
    if stops == 0 then None
    else
      var q := (customers as real) / (stops as real);
      CeilingIsIntDiv(customers, stops);
      IntCeilingBounds(customers, stops);
      Some(-((-q).Floor))
  }

  /** The integer ceiling (c + s - 1) / s is bracketed by multiples of s. */
  lemma IntCeilingBounds(c: nat, s: nat)
    requires s > 0
    ensures var g := (c + s - 1) / s; g * s >= c && (g - 1) * s < c
  {
    var g, r := (c + s - 1) / s, (c + s - 1) % s;
    assert c + s - 1 == g * s + r && 0 <= r < s;
    assert (g - 1) * s == g * s - s;
  }

  /** The real ceiling of c / s is the integer ceiling (c + s - 1) / s. */
  lemma CeilingIsIntDiv(c: nat, s: nat)
    requires s > 0
    ensures -((-((c as real) / (s as real))).Floor) == (c + s - 1) / s
  {
    IntCeilingBounds(c, s);
    var g := (c + s - 1) / s;
    var q, sr := (c as real) / (s as real), s as real;
    assert q * sr == c as real;
    var hi, lo := g * s, (g - 1) * s;
    assert (g as real) * sr == hi as real;
    assert ((g - 1) as real) * sr == lo as real;
    assert ((g as real) - q) * sr >= 0.0;
    assert (q - ((g - 1) as real)) * sr > 0.0;
    PositiveFactor((g as real) - q, sr);
    PositiveFactorStrict(q - ((g - 1) as real), sr);
    FloorIs(-q, -g);
  }

  lemma PositiveFactor(a: real, b: real)
    requires b > 0.0 && a * b >= 0.0
    ensures a >= 0.0
  {
  }

  lemma PositiveFactorStrict(a: real, b: real)
    requires b > 0.0 && a * b > 0.0
    ensures a > 0.0
  {
  }

  /** k is the floor of x when k <= x < k + 1. */
  lemma FloorIs(x: real, k: int)
    requires k as real <= x < (k as real) + 1.0
    ensures x.Floor == k
  {
  }

  /** The problem `build_model` sets up from an instance whose distance matrix
      has shape (customers, stops). */
  datatype Problem = Problem(distances: seq<seq<real>>, customers: nat, stops: nat, gamma: int)

  /** `build_model`: the shape gives `customers, stops`; the cap gamma comes
      from `get_gamma_param`, so no problem is built without stops. */
  function BuildProblem(distances: seq<seq<real>>, stops: nat): (p: Option<Problem>)
    ensures p.None? <==> stops == 0
    ensures p.Some? ==>
      && p.value.distances == distances && p.value.customers == |distances| && p.value.stops == stops
      && p.value.gamma * stops >= |distances| && (p.value.gamma - 1) * stops < |distances|
  {
    match GammaParam(|distances|, stops)
    case None => None
    case Some(g) => Some(Problem(distances, |distances|, stops, g))
  }

  /** The model object: the distance matrix (with its column count) is fixed
      at construction and `build_model` replaces the problem. */
  class FindBestCoupling {
    const distances: seq<seq<real>>
    const stops: nat
    var model: Option<Problem>

    /** `stops` is the column count of the distance matrix, which the source
        reads from its shape. */
    constructor (distances: seq<seq<real>>, stops: nat)
      requires forall i :: 0 <= i < |distances| ==> |distances[i]| == stops
      ensures this.distances == distances && this.stops == stops && model == None
    {
      this.distances := distances;
      this.stops := stops;
      model := None;
    }

    method BuildModel()
      modifies this
      ensures model == BuildProblem(distances, stops)
    {
      model := BuildProblem(distances, stops);
    }
  }

  /** Column j of a matrix: `coupling[:, j]`. */
  function Column(x: seq<seq<int>>, j: nat): (col: seq<int>)
    ensures |col| == |x|
    ensures forall i :: 0 <= i < |x| && j < |x[i]| ==> col[i] == x[i][j]
  {
    seq(|x|, i requires 0 <= i < |x| => if j < |x[i]| then x[i][j] else 0)
  }

  predicate Shaped(p: Problem, x: seq<seq<int>>)
  {
    && |p.distances| == p.customers && |x| == p.customers
    && forall i :: 0 <= i < p.customers ==> |p.distances[i]| == p.stops && |x[i]| == p.stops
  }

  predicate BinaryMatrix(x: seq<seq<int>>)
  {
    forall i :: 0 <= i < |x| ==> Binary(x[i])
  }

  /** Constraint 1: each customer row sums to exactly 1. */
  predicate EachCustomerOnce(x: seq<seq<int>>)
  {
    forall i :: 0 <= i < |x| ==> Sum(x[i]) == 1
  }

  /** Constraint 2: each stop column sums to at most gamma * customers. */
  predicate StopCapacity(p: Problem, x: seq<seq<int>>)
  {
    forall j :: 0 <= j < p.stops ==> Sum(Column(x, j)) <= p.gamma * p.customers
  }

  predicate Feasible(p: Problem, x: seq<seq<int>>)
  {
    Shaped(p, x) && BinaryMatrix(x) && EachCustomerOnce(x) && StopCapacity(p, x)
  }

  /** The objective, minimised: Σ_i Σ_j x_ij · d_ij. */
  function Cost(d: seq<seq<real>>, x: seq<seq<int>>): real
  {
    if |d| == 0 || |x| == 0 then 0.0 else WeightedSum(d[0], x[0]) + Cost(d[1..], x[1..])
  }

  /** A stop nearest to the customer of a distance row. */
  function NearestStop(row: seq<real>): (k: nat)
    requires |row| > 0
    ensures k < |row|
    ensures forall m :: 0 <= m < |row| ==> row[k] <= row[m]
  {
    if |row| == 1 then 0
    else
      var k := NearestStop(row[1..]);
      if row[0] <= row[k + 1] then 0 else k + 1
  }

  predicate RowsNonEmpty(d: seq<seq<real>>)
  {
    forall i :: 0 <= i < |d| ==> |d[i]| > 0
  }

  /** Σ_i min_j d_ij: the sum of the row minima. */
  function MinCost(d: seq<seq<real>>): real
    requires RowsNonEmpty(d)
  {
    if |d| == 0 then 0.0 else d[0][NearestStop(d[0])] + MinCost(d[1..])
  }

  /** The row of a customer assigned to stop k alone. */
  function OneHot(n: nat, k: nat): (r: seq<int>)
    ensures |r| == n && forall j :: 0 <= j < n ==> (r[j] == 1 <==> j == k) && (r[j] == 0 <==> j != k)
  {
    seq(n, j => if j == k then 1 else 0)
  }

  /** Every customer at a nearest stop. */
  function NearestCoupling(d: seq<seq<real>>): (x: seq<seq<int>>)
    requires RowsNonEmpty(d)
    ensures |x| == |d|
    ensures forall i :: 0 <= i < |d| ==> x[i] == OneHot(|d[i]|, NearestStop(d[i]))
  {
    seq(|d|, i requires 0 <= i < |d| => OneHot(|d[i]|, NearestStop(d[i])))
  }

  // -----------------------------------------------------------------------
  // Properties.

  /** A column of a 0/1 matrix is a 0/1 vector of length `customers`. */
  lemma ColumnBinary(x: seq<seq<int>>, j: nat)
    requires BinaryMatrix(x) && forall i :: 0 <= i < |x| ==> j < |x[i]|
    ensures Binary(Column(x, j))
  {
    var col := Column(x, j);
    forall i | 0 <= i < |col| ensures col[i] == 0 || col[i] == 1 {
      assert col[i] == x[i][j];
    }
  }

  /** The cap never binds: for every problem that is built, constraint 2 holds
      for each matrix that meets the shape, the 0/1 domain and constraint 1.
      A column counts at most `customers` ones, and gamma >= 1 once there is a
      customer. */
  lemma CapNeverBinds(distances: seq<seq<real>>, stops: nat, x: seq<seq<int>>)
    requires BuildProblem(distances, stops).Some?
    ensures var p := BuildProblem(distances, stops).value;
      Feasible(p, x) <==> Shaped(p, x) && BinaryMatrix(x) && EachCustomerOnce(x)
  {
    var p := BuildProblem(distances, stops).value;
    if Shaped(p, x) && BinaryMatrix(x) {
      forall j | 0 <= j < p.stops ensures Sum(Column(x, j)) <= p.gamma * p.customers {
        ColumnBinary(x, j);
        BinarySumAtMostLength(Column(x, j));
        if p.customers > 0 {
          assert p.gamma >= 1;
          assert p.gamma * p.customers >= p.customers;
        }
      }
    }
  }

  lemma {:induction false} WeightedSumZero(d: seq<real>, x: seq<int>)
    requires forall j :: 0 <= j < |x| ==> x[j] == 0
    ensures WeightedSum(d, x) == 0.0
  {
    if |d| > 0 && |x| > 0 {
      WeightedSumZero(d[1..], x[1..]);
    }
  }

  /** Assigning to stop k alone costs d_k. */
  lemma {:induction false} WeightedSumOneHot(d: seq<real>, k: nat)
    requires k < |d|
    ensures WeightedSum(d, OneHot(|d|, k)) == d[k]
  {
    var r := OneHot(|d|, k);
    if k == 0 {
      WeightedSumZero(d[1..], r[1..]);
    } else {
      assert r[1..] == OneHot(|d| - 1, k - 1);
      WeightedSumOneHot(d[1..], k - 1);
    }
  }

  /** A 0/1 row summing to 1 assigns its customer to exactly one stop. */
  lemma {:induction false} AssignedStop(row: seq<int>) returns (k: nat)
    requires Binary(row) && Sum(row) == 1
    ensures k < |row| && row == OneHot(|row|, k)
  {
    if row[0] == 1 {
      assert NonNegative(row[1..]);
      SumZero(row[1..]);
      k := 0;
      assert forall j :: 1 <= j < |row| ==> row[j] == row[1..][j - 1];
    } else {
      var k' := AssignedStop(row[1..]);
      k := k' + 1;
      assert forall j :: 1 <= j < |row| ==> row[j] == row[1..][j - 1];
    }
  }

  /** For a feasible matrix each customer's share of the objective is the
      distance to the stop assigned. */
  lemma FeasibleRowCost(p: Problem, x: seq<seq<int>>, i: nat) returns (k: nat)
    requires Feasible(p, x) && i < p.customers
    ensures k < p.stops && x[i] == OneHot(p.stops, k)
    ensures WeightedSum(p.distances[i], x[i]) == p.distances[i][k]
  {
    k := AssignedStop(x[i]);
    WeightedSumOneHot(p.distances[i], k);
  }

  /** Any assignment of each customer to one stop costs at least the sum of the
      row minima. */
  lemma {:induction false} CostAtLeastMin(d: seq<seq<real>>, x: seq<seq<int>>)
    requires |d| == |x| && RowsNonEmpty(d)
    requires forall i :: 0 <= i < |x| ==> |x[i]| == |d[i]| && Binary(x[i]) && Sum(x[i]) == 1
    ensures Cost(d, x) >= MinCost(d)
  {
    if |d| > 0 {
      var k := AssignedStop(x[0]);
      WeightedSumOneHot(d[0], k);
      CostAtLeastMin(d[1..], x[1..]);
    }
  }

  /** The matrix of nearest stops costs exactly the sum of the row minima. */
  lemma {:induction false} NearestCouplingCost(d: seq<seq<real>>)
    requires RowsNonEmpty(d)
    ensures Cost(d, NearestCoupling(d)) == MinCost(d)
  {
    if |d| > 0 {
      var x := NearestCoupling(d);
      WeightedSumOneHot(d[0], NearestStop(d[0]));
      assert x[1..] == NearestCoupling(d[1..]);
      NearestCouplingCost(d[1..]);
    }
  }

  /** The optimum of the built problem is the sum of the row minima: every
      feasible matrix costs at least that, and the nearest-stop matrix is
      feasible and attains it. */
  lemma OptimalCost(distances: seq<seq<real>>, stops: nat, x: seq<seq<int>>)
    requires BuildProblem(distances, stops).Some?
    requires forall i :: 0 <= i < |distances| ==> |distances[i]| == stops
    ensures RowsNonEmpty(distances)
    ensures Feasible(BuildProblem(distances, stops).value, NearestCoupling(distances))
    ensures Cost(distances, NearestCoupling(distances)) == MinCost(distances)
    ensures Feasible(BuildProblem(distances, stops).value, x) ==> Cost(distances, x) >= MinCost(distances)
  {
    var p := BuildProblem(distances, stops).value;
    var best := NearestCoupling(distances);
    forall i | 0 <= i < |best| ensures Binary(best[i]) && Sum(best[i]) == 1 {
      OneHotSum(|distances[i]|, NearestStop(distances[i]));
    }
    CapNeverBinds(distances, stops, best);
    NearestCouplingCost(distances);
    if Feasible(p, x) {
      CostAtLeastMin(distances, x);
    }
  }

  lemma {:induction false} OneHotSum(n: nat, k: nat)
    requires k < n
    ensures Sum(OneHot(n, k)) == 1
  {
    var r := OneHot(n, k);
    if k == 0 {
      assert forall j :: 0 <= j < |r[1..]| ==> r[1..][j] == 0;
      assert NonNegative(r[1..]);
      SumZeroes(r[1..]);
    } else {
      assert r[1..] == OneHot(n - 1, k - 1);
      OneHotSum(n - 1, k - 1);
    }
  }

  lemma {:induction false} SumZeroes(xs: seq<int>)
    requires forall j :: 0 <= j < |xs| ==> xs[j] == 0
    ensures Sum(xs) == 0
  {
    if |xs| > 0 {
      SumZeroes(xs[1..]);
    }
  }
}
