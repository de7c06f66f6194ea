/** models/find_max_alpha.py: the alpha bisection driven through the package's
    `Model.is_fesible`, and the sweep over facility counts that the package
    runs on a process pool (modelled as a sequential, order-preserving map). */
module FindMaxAlpha {
  import opened Quicksum
  import opened SolverStatus
  import opened AlphaSearch
  import Gls

  /** `find_max_alpha(model, facilities, tol)`: narrow [min_alpha, max_alpha]
      around the midpoint the model accepts, and return the last midpoint
      tested. None stands for the UnboundLocalError raised when the loop never
      runs (tol >= 1). A tol <= 0 would never stop on exact reals. */
  method FindMaxAlpha(model: Solver, facilities: int, tol: real) returns (alpha: Option<real>)
    requires tol > 0.0
    ensures alpha == SearchSpec(PackageOracle(model), facilities, tol)
  {
    ghost var feasible := PackageOracle(model);
    var minAlpha, maxAlpha := 0.0, 1.0;
    alpha := None;
    ghost var k: nat := 0;
    while Abs(minAlpha - maxAlpha) > tol
      invariant Bracket(minAlpha, maxAlpha) == Run(feasible, facilities, Initial, k)
      invariant 0.0 <= minAlpha < maxAlpha <= 1.0 && maxAlpha - minAlpha == Width(k)
      invariant IterationsFrom(k, tol) == Iterations(tol)
      invariant alpha == if k == 0 then None else Some(Mid(Run(feasible, facilities, Initial, k - 1)))
      decreases (1.0 / tol).Floor - PowerOfTwo(k)
    {
      WidthAboveTol(k, tol);
      var mid := (maxAlpha + minAlpha) / 2.0;
      alpha := Some(mid);
      // model.build_model(facilities, alpha); model.is_fesible()
      if IsFesible(model(facilities, mid)) {
        minAlpha := mid;
      } else {
        maxAlpha := mid;
      }
      k := k + 1;
      RunInvariant(feasible, facilities, k);
    }
  }

  /** `PoolCallback`: the bound callback each worker runs, one facility count
      per task, with the default tolerance. */
  datatype PoolCallback = PoolCallback(model: Solver)
  {
    method Callback(i: int) returns (alpha: real)
      ensures SearchSpec(PackageOracle(model), i, DefaultTol) == Some(alpha)
      ensures 0.0 < alpha < 1.0
    {
      var r := FindMaxAlpha(model, i, DefaultTol);
      SearchResultIsEndpoint(PackageOracle(model), i, DefaultTol);
      alpha := r.value;
    }
  }

  /** `find_max_alpha_by_facilities(model, facility_max_count, jobs)` as
      written: `pool.map(cb.callback, range(facility_max_count))`, so entry k is
      the search for facility count k, starting from 0. `Pool(jobs)` refuses a
      worker count below 1 (ValueError, here None). */
  method FindMaxAlphaByFacilities(model: Solver, facilityMaxCount: int, jobs: int)
    returns (output: Option<seq<real>>)
    ensures output.None? <==> jobs < 1
    ensures output.Some? ==>
      && |output.value| == (if facilityMaxCount < 0 then 0 else facilityMaxCount)
      && forall k :: 0 <= k < |output.value| ==>
           SearchSpec(PackageOracle(model), k, DefaultTol) == Some(output.value[k])
  {
    if jobs < 1 {
      return None;
    }
    var cb := PoolCallback(model);
    var n := if facilityMaxCount < 0 then 0 else facilityMaxCount;
    var results: seq<real> := [];
    for i := 0 to n
      invariant |results| == i
      invariant forall k :: 0 <= k < i ==> SearchSpec(PackageOracle(model), k, DefaultTol) == Some(results[k])
    {
      var alpha := cb.Callback(i);
      results := results + [alpha];
    }
    output := Some(results);
  }

  /** The sweep the docstring describes ("from 1 to facility_max_count"):
      entry k is the search for facility count k + 1. */
  method FindMaxAlphaByFacilitiesFromOne(model: Solver, facilityMaxCount: int, jobs: int)
    returns (output: Option<seq<real>>)
    ensures output.None? <==> jobs < 1
    ensures output.Some? ==>
      && |output.value| == (if facilityMaxCount < 0 then 0 else facilityMaxCount)
      && forall k :: 0 <= k < |output.value| ==>
           SearchSpec(PackageOracle(model), k + 1, DefaultTol) == Some(output.value[k])
  {
    if jobs < 1 {
      return None;
    }
    var cb := PoolCallback(model);
    var n := if facilityMaxCount < 0 then 0 else facilityMaxCount;
    var results: seq<real> := [];
    for i := 0 to n
      invariant |results| == i
      invariant forall k :: 0 <= k < i ==> SearchSpec(PackageOracle(model), k + 1, DefaultTol) == Some(results[k])
    {
      var alpha := cb.Callback(i + 1);
      results := results + [alpha];
    }
    output := Some(results);
  }

  // -----------------------------------------------------------------------
  // The sweep against the double-standard model with an exact solver.

  /** The solver reports feasible exactly when the GLS constraint system for
      (count, alpha) has a solution. */
  ghost predicate ExactFor(model: Solver, c: Gls.Coefficients)
  {
    forall count, alpha :: IsFesible(model(count, alpha)) <==> Gls.Solvable(c, count, alpha)
  }

  /** With an exact solver and non-negative demand the oracle is downward closed
      in alpha, the assumption the bisection rests on. */
  lemma ExactOracleDownwardClosed(model: Solver, c: Gls.Coefficients, count: int)
    requires ExactFor(model, c) && NonNegativeReals(c.demand)
    ensures DownwardClosed(PackageOracle(model), count)
  {
    forall a1: real, a2: real | 0.0 <= a1 <= a2 <= 1.0 && PackageOracle(model)(count, a2)
      ensures PackageOracle(model)(count, a1)
    {
      var cand :| Gls.Feasible(c, count, a2, cand);
      Gls.FeasibleAlphaMonotone(c, count, a1, a2, cand);
    }
  }

  /** As written, entry 0 of the sweep is the search for zero facilities, which
      no instance with demand can satisfy: it reports at most 1e-6 whatever the
      instance. */
  lemma SweepEntryZeroIsCountZero(model: Solver, c: Gls.Coefficients)
    requires ExactFor(model, c) && |c.demand| >= 1
    ensures SearchSpec(PackageOracle(model), 0, DefaultTol).Some?
    ensures SearchSpec(PackageOracle(model), 0, DefaultTol).value <= DefaultTol
  {
    forall a ensures !PackageOracle(model)(0, a) {
      Gls.ZeroFacilitiesInfeasible(c, a);
    }
    SearchAllInfeasible(PackageOracle(model), 0, DefaultTol);
  }

  /** Corrected sweep: with an exact solver, more facilities never lower the
      maximal alpha, for counts 1 .. facility_max_count up to the total capacity;
      entry k of the corrected sweep is the search for count k + 1. */
  lemma SweepFromOneNonDecreasing(model: Solver, c: Gls.Coefficients, facilityMaxCount: int)
    requires ExactFor(model, c) && Gls.ZeroOne(c)
    requires facilityMaxCount <= Sum(c.locations)
    ensures forall c1, c2 :: 1 <= c1 <= c2 <= facilityMaxCount ==>
      && SearchSpec(PackageOracle(model), c1, DefaultTol).Some?
      && SearchSpec(PackageOracle(model), c2, DefaultTol).Some?
      && SearchSpec(PackageOracle(model), c1, DefaultTol).value
           <= SearchSpec(PackageOracle(model), c2, DefaultTol).value
  {
    forall c1, c2 | 1 <= c1 <= c2 <= facilityMaxCount
      ensures SearchSpec(PackageOracle(model), c1, DefaultTol).Some?
      ensures SearchSpec(PackageOracle(model), c2, DefaultTol).Some?
      ensures SearchSpec(PackageOracle(model), c1, DefaultTol).value
        <= SearchSpec(PackageOracle(model), c2, DefaultTol).value
    {
      forall cnt, a | c1 <= cnt < c2 && PackageOracle(model)(cnt, a)
        ensures PackageOracle(model)(cnt + 1, a)
      {
        Gls.SolvableMoreFacilities(c, cnt, a);
      }
      SearchMonotoneInCount(PackageOracle(model), c1, c2, DefaultTol);
    }
  }
}
