/** aps_loc.py: the stand-alone script. Its `Model` builds the same constraint
    system as models/model_GLS.py (module Gls); what differs is how it reads the
    solver's answer, its own copy of the bisection and of the sweep, and the
    small instance `main` solves. */
module ApsLoc {
  import opened Quicksum
  import opened SolverStatus
  import opened AlphaSearch
  import Gls

  /** `try_solve`: only a proven optimum counts as feasible. */
  function TrySolve(s: Status): (r: bool)
    ensures r ==> IsFesible(s)
  {
    s == Optimal
  }

  /** The script accepts strictly fewer statuses than the package's
      `is_fesible`: the two disagree exactly on SOLUTION_LIMIT. */
  lemma TrySolveStricter(s: Status)
    ensures TrySolve(s) ==> IsFesible(s)
    ensures (IsFesible(s) && !TrySolve(s)) <==> s == SolutionLimit
  {
  }

  /** The oracle the script's bisection consults. */
  function ScriptOracle(model: Solver): Oracle
  {
    (count, alpha) => TrySolve(model(count, alpha))
  }

  /** `find_max_alpha(model, facilities, tol)` of the script: the same loop as
      the package's, consulting `try_solve`. */
  method FindMaxAlpha(model: Solver, facilities: int, tol: real) returns (alpha: Option<real>)
    requires tol > 0.0
    ensures alpha == SearchSpec(ScriptOracle(model), facilities, tol)
  {
    ghost var feasible := ScriptOracle(model);
    var minAlpha, maxAlpha := 0.0, 1.0;
    alpha := None;
    ghost var k: nat := 0;
    while Abs(minAlpha - maxAlpha) > tol
      invariant Bracket(minAlpha, maxAlpha) == Run(feasible, facilities, Initial, k)
      invariant 0.0 <= minAlpha < maxAlpha <= 1.0 && maxAlpha - minAlpha == Width(k)
      invariant IterationsFrom(k, tol) == Iterations(tol)
      invariant alpha == if k == 0 then None else Some(Mid(Run(feasible, facilities, Initial, k - 1)))
      decreases (1.0 / tol).Floor - PowerOfTwo(k)
    {
      WidthAboveTol(k, tol);
      var mid := (maxAlpha + minAlpha) / 2.0;
      alpha := Some(mid);
      // model.build_model(facilities, alpha); model.try_solve()
      if TrySolve(model(facilities, mid)) {
        minAlpha := mid;
      } else {
        maxAlpha := mid;
      }
      k := k + 1;
      RunInvariant(feasible, facilities, k);
    }
  }

  /** Given the same solver, the script never reports a larger alpha than the
      package, since it accepts fewer statuses. */
  lemma ScriptBelowPackage(model: Solver, facilities: int, tol: real)
    requires 0.0 < tol < 1.0
    ensures SearchSpec(ScriptOracle(model), facilities, tol).Some?
    ensures SearchSpec(PackageOracle(model), facilities, tol).Some?
    ensures SearchSpec(ScriptOracle(model), facilities, tol).value
      <= SearchSpec(PackageOracle(model), facilities, tol).value
  {
    forall a | ScriptOracle(model)(facilities, a) ensures PackageOracle(model)(facilities, a) {
      TrySolveStricter(model(facilities, a));
    }
    SearchOrdered(ScriptOracle(model), facilities, PackageOracle(model), facilities, tol);
  }

  /** `find_max_alpha_by_facilities(model, facility_max_count)`: one search per
      facility count 1 .. facility_max_count, in order, with the default
      tolerance. */
  method FindMaxAlphaByFacilities(model: Solver, facilityMaxCount: int) returns (alphas: seq<real>)
    ensures |alphas| == (if facilityMaxCount < 0 then 0 else facilityMaxCount)
    ensures forall k :: 0 <= k < |alphas| ==>
      SearchSpec(ScriptOracle(model), k + 1, DefaultTol) == Some(alphas[k])
  {
    alphas := [];
    var n := if facilityMaxCount < 0 then 0 else facilityMaxCount;
    for f := 0 to n
      invariant |alphas| == f
      invariant forall k :: 0 <= k < f ==> SearchSpec(ScriptOracle(model), k + 1, DefaultTol) == Some(alphas[k])
    {
      var alpha := FindMaxAlpha(model, f + 1, DefaultTol);
      assert alpha.Some? by {
        SearchResultIsEndpoint(ScriptOracle(model), f + 1, DefaultTol);
      }
      alphas := alphas + [alpha.value];
    }
  }

  // -----------------------------------------------------------------------
  // An exact solver: OPTIMAL exactly when the constraint system has a solution.
  // The integer program is bounded, so a solvable one has an optimum.

  ghost predicate ExactFor(model: Solver, c: Gls.Coefficients)
  {
    forall count, alpha :: TrySolve(model(count, alpha)) <==> Gls.Solvable(c, count, alpha)
  }

  /** With an exact solver the script's sweep never decreases for counts up to
      the total capacity. */
  lemma SweepNonDecreasing(model: Solver, c: Gls.Coefficients, facilityMaxCount: int)
    requires ExactFor(model, c) && Gls.ZeroOne(c)
    requires facilityMaxCount <= Sum(c.locations)
    ensures forall c1, c2 :: 1 <= c1 <= c2 <= facilityMaxCount ==>
      && SearchSpec(ScriptOracle(model), c1, DefaultTol).Some?
      && SearchSpec(ScriptOracle(model), c2, DefaultTol).Some?
      && SearchSpec(ScriptOracle(model), c1, DefaultTol).value
           <= SearchSpec(ScriptOracle(model), c2, DefaultTol).value
  {
    forall c1, c2 | 1 <= c1 <= c2 <= facilityMaxCount
      ensures SearchSpec(ScriptOracle(model), c1, DefaultTol).Some?
      ensures SearchSpec(ScriptOracle(model), c2, DefaultTol).Some?
      ensures SearchSpec(ScriptOracle(model), c1, DefaultTol).value
        <= SearchSpec(ScriptOracle(model), c2, DefaultTol).value
    {
      forall cnt, a | c1 <= cnt < c2 && ScriptOracle(model)(cnt, a)
        ensures ScriptOracle(model)(cnt + 1, a)
      {
        Gls.SolvableMoreFacilities(c, cnt, a);
      }
      SearchMonotoneInCount(ScriptOracle(model), c1, c2, DefaultTol);
    }
  }

  // -----------------------------------------------------------------------
  // The instance `main` solves: three demand points with demand 1, 2, 3, two
  // sites of capacity 2, radii 10 and 20.

  function ScenarioCoefficients(): Gls.Coefficients
  {
    Gls.SetupCoefficients([1.0, 2.0, 3.0], Gls.ModelConfig(10.0, 20.0),
      [[13.0, 21.0], [7.0, 8.0], [17.0, 10.0]], [2, 2])
  }

  /** The coefficients `setup` derives: gamma (radius 10) and delta (radius 20). */
  const Scenario: Gls.Coefficients :=
    Gls.Coefficients([1.0, 2.0, 3.0], [[0, 0], [1, 1], [0, 1]], [[1, 0], [1, 1], [1, 1]], [2, 2])

  lemma ScenarioReach()
    ensures ScenarioCoefficients() == Scenario
  {
    var c := ScenarioCoefficients();
    assert c.gamma[0] == [0, 0] && c.gamma[1] == [1, 1] && c.gamma[2] == [0, 1];
    assert c.delta[0] == [1, 0] && c.delta[1] == [1, 1] && c.delta[2] == [1, 1];
  }

  lemma Sum2(y: seq<int>)
    requires |y| == 2
    ensures Sum(y) == y[0] + y[1]
  {
    assert y[1..][0] == y[1] && y[1..][1..] == [];
    assert Sum(y[1..]) == y[1] + Sum(y[1..][1..]);
  }

  lemma Dot2(a: seq<int>, y: seq<int>)
    requires |a| == 2 && |y| == 2
    ensures Dot(a, y) == a[0] * y[0] + a[1] * y[1]
  {
    assert a[1..][0] == a[1] && y[1..][0] == y[1] && y[1..][1..] == [];
    assert Dot(a[1..], y[1..]) == a[1] * y[1] + Dot(a[1..][1..], y[1..][1..]);
  }

  lemma WeightedSum3(d: seq<real>, x: seq<int>)
    requires |d| == 3 && |x| == 3
    ensures WeightedSum(d, x) == d[0] * (x[0] as real) + d[1] * (x[1] as real) + d[2] * (x[2] as real)
  {
    var d1, x1 := d[1..], x[1..];
    var d2, x2 := d1[1..], x1[1..];
    assert d1[0] == d[1] && x1[0] == x[1] && d2[0] == d[2] && x2[0] == x[2] && x2[1..] == [];
    assert WeightedSum(d2, x2) == d2[0] * (x2[0] as real) + WeightedSum(d2[1..], x2[1..]);
    assert WeightedSum(d1, x1) == d1[0] * (x1[0] as real) + WeightedSum(d2, x2);
  }

  /** Any solution of the scenario with `count` units covers at most
      2 (one unit) or 5 (two units) of the total demand 6 once. */
  lemma ScenarioCoverBound(count: int, alpha: real, cand: Gls.Candidate)
    requires count == 1 || count == 2
    requires Gls.Feasible(Scenario, count, alpha, cand)
    ensures WeightedSum(Scenario.demand, cand.x1) <= if count == 1 then 2.0 else 5.0
  {
    var c := Scenario;
    var y, x1 := cand.y, cand.x1;
    Sum2(y);
    Dot2(c.delta[0], y);
    Dot2(c.gamma[0], y);
    Dot2(c.gamma[2], y);
    WeightedSum3(c.demand, x1);
    assert y[0] >= 1 && x1[0] == 0;
    if count == 1 {
      assert y[1] == 0 && x1[2] == 0;
    }
  }

  /** The demand covered once by the best placement of `count` units. */
  function ScenarioThreshold(count: int): real
  {
    if count == 1 then 1.0 / 3.0 else 5.0 / 6.0
  }

  /** One unit at site 0 covers demand point 1 (demand 2) once. */
  lemma ScenarioWitnessOne(alpha: real)
    requires alpha <= 1.0 / 3.0
    ensures Gls.Feasible(Scenario, 1, alpha, Gls.Candidate([1, 0], [0, 1, 0], [0, 0, 0]))
  {
    assert RealSum(Scenario.demand) == 6.0;
    assert Gls.AlphaCover(Scenario, alpha, Gls.Candidate([1, 0], [0, 1, 0], [0, 0, 0]));
  }

  /** One unit at each site covers points 1 and 2 (demand 5) once. */
  lemma ScenarioWitnessTwo(alpha: real)
    requires alpha <= 5.0 / 6.0
    ensures Gls.Feasible(Scenario, 2, alpha, Gls.Candidate([1, 1], [0, 1, 1], [0, 0, 0]))
  {
    assert RealSum(Scenario.demand) == 6.0;
    assert Gls.AlphaCover(Scenario, alpha, Gls.Candidate([1, 1], [0, 1, 1], [0, 0, 0]));
  }

  lemma ScenarioSolvable(count: int, alpha: real)
    requires count == 1 || count == 2
    ensures Gls.Solvable(ScenarioCoefficients(), count, alpha) <==> alpha <= ScenarioThreshold(count)
  {
    ScenarioReach();
    if alpha <= ScenarioThreshold(count) {
      if count == 1 {
        ScenarioWitnessOne(alpha);
      } else {
        ScenarioWitnessTwo(alpha);
      }
    } else if Gls.Solvable(Scenario, count, alpha) {
      var cand :| Gls.Feasible(Scenario, count, alpha, cand);
      ScenarioCoverBound(count, alpha, cand);
      assert false;
    }
  }

  /** What `main` computes, given an exact solver: the sweep over counts 1 and 2
      returns 1/3 and 5/6, each to within the default tolerance. */
  lemma MainScenario(model: Solver)
    requires ExactFor(model, ScenarioCoefficients())
    ensures forall count :: 1 <= count <= 2 ==>
      && SearchSpec(ScriptOracle(model), count, DefaultTol).Some?
      && ScenarioThreshold(count) - DefaultTol
           <= SearchSpec(ScriptOracle(model), count, DefaultTol).value
           <= ScenarioThreshold(count) + DefaultTol
  {
    forall count | 1 <= count <= 2
      ensures SearchSpec(ScriptOracle(model), count, DefaultTol).Some?
      ensures ScenarioThreshold(count) - DefaultTol
           <= SearchSpec(ScriptOracle(model), count, DefaultTol).value
           <= ScenarioThreshold(count) + DefaultTol
    {
      forall a ensures ScriptOracle(model)(count, a) <==> a <= ScenarioThreshold(count) {
        ScenarioSolvable(count, a);
      }
      SearchNearThreshold(ScriptOracle(model), count, DefaultTol, ScenarioThreshold(count));
    }
  }

  // -----------------------------------------------------------------------
  // The same instance under the constraint system the code posts as written
  // (Gls.FeasibleAsWritten): the key sum of the two site variables is 1, so
  // only the count 1 is ever feasible, with no limit on the units placed.

  /** As written, any solution covers at most demand 5 once: demand point 0
      has no site within the small radius. */
  lemma ScenarioAsWrittenCoverBound(count: int, alpha: real, cand: Gls.Candidate)
    requires Gls.FeasibleAsWritten(Scenario, count, alpha, cand)
    ensures WeightedSum(Scenario.demand, cand.x1) <= 5.0
  {
    var c := Scenario;
    Dot2(c.gamma[0], cand.y);
    WeightedSum3(c.demand, cand.x1);
    assert cand.x1[0] == 0;
  }

  /** As written, one unit at each site covers points 1 and 2 once while
      constraint (6) asks for one facility. */
  lemma ScenarioAsWrittenWitness(alpha: real)
    requires alpha <= 5.0 / 6.0
    ensures Gls.FeasibleAsWritten(Scenario, 1, alpha, Gls.Candidate([1, 1], [0, 1, 1], [0, 0, 0]))
  {
    assert RealSum(Scenario.demand) == 6.0;
    assert Gls.KeySum(2) == 1;
    assert Gls.AlphaCover(Scenario, alpha, Gls.Candidate([1, 1], [0, 1, 1], [0, 0, 0]));
  }

  /** As written, a point may count as covered twice without being covered
      once: constraint (5) is not posted. */
  lemma ScenarioAsWrittenDoubleWithoutSingle()
    ensures var cand := Gls.Candidate([1, 1], [0, 0, 1], [0, 1, 0]);
      Gls.FeasibleAsWritten(Scenario, 1, 0.5, cand) && !Gls.DoubleImpliesSingle(cand)
  {
    var cand := Gls.Candidate([1, 1], [0, 0, 1], [0, 1, 0]);
    assert RealSum(Scenario.demand) == 6.0;
    assert Gls.KeySum(2) == 1;
    assert Gls.AlphaCover(Scenario, 0.5, cand);
    assert cand.x2[1] > cand.x1[1];
  }

  /** As written, the instance is solvable with count 1 exactly up to alpha
      5/6, and never with count 2. */
  lemma ScenarioSolvableAsWritten(alpha: real)
    ensures Gls.SolvableAsWritten(ScenarioCoefficients(), 1, alpha) <==> alpha <= 5.0 / 6.0
    ensures !Gls.SolvableAsWritten(ScenarioCoefficients(), 2, alpha)
  {
    ScenarioReach();
    Gls.AsWrittenSingleCount(Scenario, 2, alpha);
    if alpha <= 5.0 / 6.0 {
      ScenarioAsWrittenWitness(alpha);
    } else if Gls.SolvableAsWritten(Scenario, 1, alpha) {
      var cand :| Gls.FeasibleAsWritten(Scenario, 1, alpha, cand);
      ScenarioAsWrittenCoverBound(1, alpha, cand);
      assert false;
    }
  }

  /** The solver reports OPTIMAL exactly when the system posted as written has
      a solution. */
  ghost predicate ExactForAsWritten(model: Solver, c: Gls.Coefficients)
  {
    forall count, alpha :: TrySolve(model(count, alpha)) <==> Gls.SolvableAsWritten(c, count, alpha)
  }

  /** What `main` computes as written, given an exact solver: about 5/6 for
      one facility and at most 1e-6 for two. */
  lemma MainScenarioAsWritten(model: Solver)
    requires ExactForAsWritten(model, ScenarioCoefficients())
    ensures SearchSpec(ScriptOracle(model), 1, DefaultTol).Some?
    ensures 5.0 / 6.0 - DefaultTol <= SearchSpec(ScriptOracle(model), 1, DefaultTol).value <= 5.0 / 6.0 + DefaultTol
    ensures SearchSpec(ScriptOracle(model), 2, DefaultTol).Some?
    ensures 0.0 < SearchSpec(ScriptOracle(model), 2, DefaultTol).value <= DefaultTol
  {
    forall a ensures ScriptOracle(model)(1, a) <==> a <= 5.0 / 6.0 {
      ScenarioSolvableAsWritten(a);
    }
    SearchNearThreshold(ScriptOracle(model), 1, DefaultTol, 5.0 / 6.0);
    forall a ensures !ScriptOracle(model)(2, a) {
      ScenarioSolvableAsWritten(a);
    }
    SearchAllInfeasible(ScriptOracle(model), 2, DefaultTol);
  }
}
