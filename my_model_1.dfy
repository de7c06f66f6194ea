/** models/my_model_1.py: the site-opening and assignment model. Sites j are
    opened (y_j), customers i are marked served (z_i) and assigned to sites
    (x_ij); a served fraction alpha of the customers is demanded. The
    constraint system is stated as a predicate on candidate vectors, as the
    comments and variable types of the source describe it. */
module ModelOne {
  import opened Quicksum

  /** lambda weighs the sites in the objective; delta is the customer-by-site
      reach matrix and sites its number of columns. A numpy matrix keeps its
      column count when it has no rows, so the count is carried on its own. */
  datatype Coefficients = Coefficients(lambda: seq<real>, delta: seq<seq<int>>, sites: nat)

  /** Values for y (one per site), z (one per customer) and x (customer by site),
      all BINARY. */
  datatype Candidate = Candidate(y: seq<int>, z: seq<int>, x: seq<seq<int>>)

  /** The problem `build_model(aps_count, alpha)` creates. The thread count
      is stored by the model object but never passed to the solver. */
  datatype Problem = Problem(coeffs: Coefficients, apsCount: int, alpha: real)

  /** The variables take the shape of delta: rows are customers, columns sites. */
  predicate Shaped(c: Coefficients, cand: Candidate)
  {
    && |cand.y| == c.sites
    && |cand.z| == |c.delta| && |cand.x| == |c.delta|
    && forall i :: 0 <= i < |c.delta| ==> |c.delta[i]| == c.sites && |cand.x[i]| == c.sites
  }

  predicate VariableDomains(cand: Candidate)
  {
    && Binary(cand.y) && Binary(cand.z)
    && forall i :: 0 <= i < |cand.x| ==> Binary(cand.x[i])
  }

  /** Constraint 1: exactly aps_count sites are opened. */
  predicate OpenedCount(apsCount: int, cand: Candidate)
  {
    Sum(cand.y) == apsCount
  }

  /** Constraint 2: a customer is served only if assigned to some site. */
  predicate ServedAssigned(cand: Candidate)
  {
    forall i :: 0 <= i < |cand.z| && i < |cand.x| ==> cand.z[i] <= Sum(cand.x[i])
  }

  /** Constraint 3: at least the fraction alpha of the customers is served. */
  predicate ServedFraction(alpha: real, cand: Candidate)
  {
    (Sum(cand.z) as real) >= alpha * (|cand.z| as real)
  }

  /** Constraint 4: assignment only to an opened site within reach. */
  predicate AssignReachable(c: Coefficients, cand: Candidate)
  {
    forall i, j :: 0 <= i < |cand.x| && i < |c.delta| && 0 <= j < |cand.x[i]| && j < |c.delta[i]| && j < |cand.y| ==>
      cand.x[i][j] <= c.delta[i][j] * cand.y[j]
  }

  predicate Feasible(c: Coefficients, apsCount: int, alpha: real, cand: Candidate)
  {
    && Shaped(c, cand)
    && VariableDomains(cand)
    && OpenedCount(apsCount, cand)
    && ServedAssigned(cand)
    && ServedFraction(alpha, cand)
    && AssignReachable(c, cand)
  }

  ghost predicate Solvable(c: Coefficients, apsCount: int, alpha: real)
  {
    exists cand :: Feasible(c, apsCount, alpha, cand)
  }

  /** The objective, maximised: Σ lambda_j · y_j over the sites. */
  function Objective(c: Coefficients, cand: Candidate): real
  {
    WeightedSum(c.lambda, cand.y)
  }

  /** The model object: the coefficients are fixed at construction and
      `build_model` replaces the problem. */
  class MyModelOne {
    const lambdaCoeff: seq<real>
    const deltaCoeff: seq<seq<int>>
    /** The column count of `delta_coeff`. */
    const siteCount: nat
    const threads: int
    var model: Option<Problem>

    constructor (lambdaCoeff: seq<real>, deltaCoeff: seq<seq<int>>, siteCount: nat, threads: int)
      ensures this.lambdaCoeff == lambdaCoeff && this.deltaCoeff == deltaCoeff
      ensures this.siteCount == siteCount && this.threads == threads && model == None
    {
      this.lambdaCoeff := lambdaCoeff;
      this.deltaCoeff := deltaCoeff;
      this.siteCount := siteCount;
      this.threads := threads;
      model := None;
    }

    /** `build_model(aps_count, alpha)`: a fresh problem; nothing of the
        previously built one survives. */
    method BuildModel(apsCount: int, alpha: real)
      modifies this
      ensures model == Some(Problem(Coefficients(lambdaCoeff, deltaCoeff, siteCount), apsCount, alpha))
    {
      model := Some(Problem(Coefficients(lambdaCoeff, deltaCoeff, siteCount), apsCount, alpha));
    }
  }

  // -----------------------------------------------------------------------
  // Properties of the constraint system.

  /** Only constraint 3 mentions alpha: a candidate feasible at alpha stays
      feasible at every smaller alpha. */
  lemma FeasibleAlphaMonotone(c: Coefficients, apsCount: int, a1: real, a2: real, cand: Candidate)
    requires a1 <= a2 && Feasible(c, apsCount, a2, cand)
    ensures Feasible(c, apsCount, a1, cand)
  {
    MulMonotone(a1, a2, |cand.z| as real);
  }

  lemma SolvableAlphaMonotone(c: Coefficients, apsCount: int, a1: real, a2: real)
    requires a1 <= a2 && Solvable(c, apsCount, a2)
    ensures Solvable(c, apsCount, a1)
  {
    var cand :| Feasible(c, apsCount, a2, cand);
    FeasibleAlphaMonotone(c, apsCount, a1, a2, cand);
  }

  /** Constraints 2 and 4 together: a served customer has an opened site
      within reach. */
  lemma ServedHasOpenReachableSite(c: Coefficients, apsCount: int, alpha: real, cand: Candidate, i: nat)
    returns (j: nat)
    requires Feasible(c, apsCount, alpha, cand)
    requires i < |c.delta| && cand.z[i] == 1
    ensures j < |cand.y| && j < |c.delta[i]|
    ensures c.delta[i][j] >= 1 && cand.y[j] == 1 && cand.x[i][j] == 1
  {
    j := SumPositive(cand.x[i]);
    assert cand.x[i][j] == 1;
    assert cand.y[j] == 0 || cand.y[j] == 1;
  }

  /** Constraint 3 cannot be met for alpha above 1 once there is a customer. */
  lemma AlphaAboveOneInfeasible(c: Coefficients, apsCount: int, alpha: real)
    requires alpha > 1.0 && |c.delta| >= 1
    ensures !Solvable(c, apsCount, alpha)
  {
    forall cand | Feasible(c, apsCount, alpha, cand)
      ensures false
    {
      MulAboveOne(alpha, |cand.z| as real);
      BinarySumAtMostLength(cand.z);
    }
  }

  lemma MulAboveOne(a: real, n: real)
    requires a > 1.0 && n >= 1.0
    ensures a * n > n
  {
    assert a * n - n == (a - 1.0) * n;
  }

  /** Constraint 1 with binary y: more sites to open than exist is infeasible,
      with or without customers. */
  lemma TooManySitesInfeasible(c: Coefficients, apsCount: int, alpha: real)
    requires apsCount > c.sites
    ensures !Solvable(c, apsCount, alpha)
  {
    forall cand | Feasible(c, apsCount, alpha, cand)
      ensures false
    {
      BinarySumAtMostLength(cand.y);
    }
  }

  /** With non-negative site weights the objective never exceeds the total
      weight of all sites. */
  lemma ObjectiveAtMostTotal(c: Coefficients, apsCount: int, alpha: real, cand: Candidate)
    requires NonNegativeReals(c.lambda) && |c.lambda| == c.sites
    requires Feasible(c, apsCount, alpha, cand)
    ensures 0.0 <= Objective(c, cand) <= RealSum(c.lambda)
  {
    WeightedSumBinaryBounds(c.lambda, cand.y);
  }

  lemma {:induction false} WeightedSumBinaryBounds(d: seq<real>, x: seq<int>)
    requires NonNegativeReals(d) && Binary(x) && |d| == |x|
    ensures 0.0 <= WeightedSum(d, x) <= RealSum(d)
  {
    if |d| > 0 {
      WeightedSumBinaryBounds(d[1..], x[1..]);
    }
  }

  /** Without customers only constraint 1 is left: exactly the counts from 0
      to the number of sites are solvable, whatever alpha. */
  lemma NoCustomersSolvable(c: Coefficients, apsCount: int, alpha: real)
    requires c.delta == []
    ensures Solvable(c, apsCount, alpha) <==> 0 <= apsCount <= c.sites
  {
    if 0 <= apsCount <= c.sites {
      var cand := Candidate(Opening(apsCount, c.sites), [], []);
      assert Feasible(c, apsCount, alpha, cand);
    } else if apsCount > c.sites {
      TooManySitesInfeasible(c, apsCount, alpha);
    } else {
      forall cand | Feasible(c, apsCount, alpha, cand)
        ensures false
      {
        BinarySumAtMostLength(cand.y);
      }
    }
  }

  /** y opening the first k of n sites. */
  function Opening(k: nat, n: nat): (y: seq<int>)
    requires k <= n
    ensures |y| == n && Binary(y) && Sum(y) == k
  {
    if n == 0 then []
    else
      var rest := Opening(if k == 0 then 0 else k - 1, n - 1);
      var y := [if k == 0 then 0 else 1] + rest;
      assert y[1..] == rest;
      y
  }
}
