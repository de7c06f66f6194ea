/** models/model_GLS.py: the double-standard coverage model of Gendreau,
    Laporte and Semet ("Solving an Ambulance Location Model by Tabu Search"),
    constraints (2)-(7) and objective (1). The solver is not modelled: the
    constraint system is stated as a predicate saying which candidate vectors
    (y, x1, x2) are feasible. */
module Gls {
  import opened Quicksum
  import MathUtils

  datatype ModelConfig = ModelConfig(radiusSmall: real, radiusLarge: real)

  /** The data a built problem is made of: demand weights d, the small-radius
      reach matrix gamma, the large-radius reach matrix delta and the per-site
      capacities (rows are demand points, columns are sites). */
  datatype Coefficients = Coefficients(
    demand: seq<real>,
    gamma: seq<seq<int>>,
    delta: seq<seq<int>>,
    locations: seq<int>)

  /** Values for the variables y (INTEGER, lower bound 0), x_1 and x_2 (BINARY). */
  datatype Candidate = Candidate(y: seq<int>, x1: seq<int>, x2: seq<int>)

  /** The problem `build_model(facilities, alpha)` creates. */
  datatype Problem = Problem(coeffs: Coefficients, facilities: int, alpha: real, threads: int)

  /** Matrices have one row per demand point and one column per site; the
      candidate has one y per site and one x_1, x_2 per demand point. */
  predicate Shaped(c: Coefficients, cand: Candidate)
  {
    && |c.gamma| == |c.demand| && |c.delta| == |c.demand|
    && (forall i :: 0 <= i < |c.demand| ==> |c.gamma[i]| == |c.locations| && |c.delta[i]| == |c.locations|)
    && |cand.y| == |c.locations| && |cand.x1| == |c.demand| && |cand.x2| == |c.demand|
  }

  predicate VariableDomains(cand: Candidate)
  {
    NonNegative(cand.y) && Binary(cand.x1) && Binary(cand.x2)
  }

  /** (2) every demand point has a facility unit within the large radius. */
  predicate LargeRadiusCover(c: Coefficients, cand: Candidate)
  {
    forall i :: 0 <= i < |c.demand| && i < |c.delta| ==> Dot(c.delta[i], cand.y) >= 1
  }

  /** (3) the single-covered demand reaches the fraction alpha of all demand. */
  predicate AlphaCover(c: Coefficients, alpha: real, cand: Candidate)
  {
    WeightedSum(c.demand, cand.x1) >= alpha * RealSum(c.demand)
  }

  /** (4) a point counts as covered once and twice only with that many units
      within the small radius. */
  predicate SmallRadiusCover(c: Coefficients, cand: Candidate)
  {
    forall i :: 0 <= i < |c.gamma| && i < |cand.x1| && i < |cand.x2| ==>
      Dot(c.gamma[i], cand.y) >= cand.x1[i] + cand.x2[i]
  }

  /** (5) double coverage implies single coverage. */
  predicate DoubleImpliesSingle(cand: Candidate)
  {
    forall i :: 0 <= i < |cand.x1| && i < |cand.x2| ==> cand.x2[i] <= cand.x1[i]
  }

  /** (6) exactly `facilities` units are opened. */
  predicate TotalFacilities(facilities: int, cand: Candidate)
  {
    Sum(cand.y) == facilities
  }

  /** (7) no site holds more units than its capacity. */
  predicate SiteCapacity(c: Coefficients, cand: Candidate)
  {
    forall j :: 0 <= j < |cand.y| && j < |c.locations| ==> cand.y[j] <= c.locations[j]
  }

  /** The constraint system `add_constraints(facilities, alpha)` builds. */
  predicate Feasible(c: Coefficients, facilities: int, alpha: real, cand: Candidate)
  {
    && Shaped(c, cand)
    && VariableDomains(cand)
    && LargeRadiusCover(c, cand)
    && AlphaCover(c, alpha, cand)
    && SmallRadiusCover(c, cand)
    && DoubleImpliesSingle(cand)
    && TotalFacilities(facilities, cand)
    && SiteCapacity(c, cand)
  }

  /** Objective (1), maximised: the demand covered twice. */
  function Objective(c: Coefficients, cand: Candidate): real
  {
    WeightedSum(c.demand, cand.x2)
  }

  /** Some candidate satisfies every constraint: what a sound and complete
      solver reports as feasible. */
  ghost predicate Solvable(c: Coefficients, facilities: int, alpha: real)
  {
    exists cand :: Feasible(c, facilities, alpha, cand)
  }

  // -----------------------------------------------------------------------
  // The constraint system as the code posts it. Iterating a gurobipy
  // tupledict yields its keys, not its variables. So constraint (5) compares
  // key i of the single-cover variables with key i of the double-cover ones,
  // and hands the Python bool `True` to `addConstrs` for each point. The
  // members below read that as a constraint that holds and restricts nothing;
  // if gurobipy rejects a bool instead, `build_model` raises before (6) is
  // posted and no problem exists. Constraint (6) sums the keys 0 .. n-1 of the
  // n site variables, giving a constant equation that holds for one facility
  // count only. Constraints (2), (3), (4) and (7) index the tupledicts by
  // their keys and are posted as commented.

  /** 0 + 1 + ... + (n - 1): the sum of the keys of n variables. */
  function KeySum(n: nat): (r: nat)
    ensures 2 * r == n * (n - 1)
  {
    if n == 0 then 0 else KeySum(n - 1) + (n - 1)
  }

  /** Constraint (6) as written: the key sum of the site variables equals
      `facilities`; y does not occur in it. */
  predicate KeyCountAsWritten(c: Coefficients, facilities: int)
  {
    KeySum(|c.locations|) == facilities
  }

  /** What `add_constraints(facilities, alpha)` posts as written: (6) is the
      key-sum equation and (5) is missing. */
  predicate FeasibleAsWritten(c: Coefficients, facilities: int, alpha: real, cand: Candidate)
  {
    && Shaped(c, cand)
    && VariableDomains(cand)
    && LargeRadiusCover(c, cand)
    && AlphaCover(c, alpha, cand)
    && SmallRadiusCover(c, cand)
    && KeyCountAsWritten(c, facilities)
    && SiteCapacity(c, cand)
  }

  ghost predicate SolvableAsWritten(c: Coefficients, facilities: int, alpha: real)
  {
    exists cand :: FeasibleAsWritten(c, facilities, alpha, cand)
  }

  /** As written, every facility count but one is infeasible at every alpha,
      and which one depends only on the number of sites. */
  lemma AsWrittenSingleCount(c: Coefficients, facilities: int, alpha: real)
    ensures SolvableAsWritten(c, facilities, alpha) ==>
      2 * facilities == |c.locations| * (|c.locations| - 1)
  {
    if SolvableAsWritten(c, facilities, alpha) {
      var cand :| FeasibleAsWritten(c, facilities, alpha, cand);
      assert KeySum(|c.locations|) == facilities;
    }
  }

  /** Every intended solution with the key-sum count is an as-written one: the
      code as written only drops restrictions for that count. */
  lemma IntendedImpliesAsWritten(c: Coefficients, alpha: real, cand: Candidate)
    requires Feasible(c, KeySum(|c.locations|), alpha, cand)
    ensures FeasibleAsWritten(c, KeySum(|c.locations|), alpha, cand)
  {
  }

  /** As written, only constraint (3) mentions alpha, as in the intended
      system: feasibility is downward closed in alpha. */
  lemma FeasibleAsWrittenAlphaMonotone(c: Coefficients, facilities: int, a1: real, a2: real, cand: Candidate)
    requires NonNegativeReals(c.demand) && a1 <= a2
    requires FeasibleAsWritten(c, facilities, a2, cand)
    ensures FeasibleAsWritten(c, facilities, a1, cand)
  {
    RealSumNonNegative(c.demand);
    MulMonotone(a1, a2, RealSum(c.demand));
  }

  /** With one site the key sum is 0, so as written the count 0 is the one
      count accepted, at every alpha up to 1, where the intended system accepts
      no solution with zero units. */
  lemma AsWrittenOneSiteCountZero(alpha: real)
    requires alpha <= 1.0
    ensures SolvableAsWritten(Coefficients([1.0], [[1]], [[1]], [3]), 0, alpha)
    ensures !Solvable(Coefficients([1.0], [[1]], [[1]], [3]), 0, alpha)
  {
    var c := Coefficients([1.0], [[1]], [[1]], [3]);
    var cand := Candidate([3], [1], [1]);
    assert Dot(c.delta[0], cand.y) == 3;
    assert WeightedSum(c.demand, cand.x1) == 1.0;
    assert FeasibleAsWritten(c, 0, alpha, cand);
    ZeroFacilitiesInfeasible(c, alpha);
  }

  /** Reach matrices hold only 0 and 1. */
  predicate ZeroOne(c: Coefficients)
  {
    && (forall i :: 0 <= i < |c.gamma| ==> Binary(c.gamma[i]))
    && (forall i :: 0 <= i < |c.delta| ==> Binary(c.delta[i]))
  }

  /** The coefficients `setup` derives from an instance and a configuration. */
  function SetupCoefficients(demand: seq<real>, config: ModelConfig, distances: seq<seq<real>>,
                             locations: seq<int>): (c: Coefficients)
    ensures c.demand == demand && c.locations == locations
    ensures c.gamma == MathUtils.ReachCoefficient(distances, config.radiusSmall)
    ensures c.delta == MathUtils.ReachCoefficient(distances, config.radiusLarge)
    ensures ZeroOne(c)
    ensures config.radiusSmall <= config.radiusLarge ==>
      forall i, j :: 0 <= i < |c.gamma| && 0 <= j < |c.gamma[i]| ==> c.gamma[i][j] <= c.delta[i][j]
  {
    var c := Coefficients(demand,
      MathUtils.ReachCoefficient(distances, config.radiusSmall),
      MathUtils.ReachCoefficient(distances, config.radiusLarge),
      locations);
    if config.radiusSmall <= config.radiusLarge then
      MathUtils.ReachMonotone(distances, config.radiusSmall, config.radiusLarge);
      c
    else
      c
  }

  /** The model object: the instance is fixed at construction; `setup` fills in
      the reach matrices and `build_model` replaces the problem. */
  class GendreauLaporteSemetModel {
    const demand: seq<real>
    const config: ModelConfig
    const distances: seq<seq<real>>
    const locations: seq<int>
    const threadCount: int
    var isSetUp: bool
    var gammaCoeff: seq<seq<int>>
    var deltaCoeff: seq<seq<int>>
    var model: Option<Problem>

    constructor (demand: seq<real>, config: ModelConfig, distances: seq<seq<real>>,
                 locations: seq<int>, threadCount: int)
      ensures this.demand == demand && this.config == config && this.distances == distances
      ensures this.locations == locations && this.threadCount == threadCount
      ensures !isSetUp && model == None
    {
      this.demand := demand;
      this.config := config;
      this.distances := distances;
      this.locations := locations;
      this.threadCount := threadCount;
      isSetUp := false;
      gammaCoeff := [];
      deltaCoeff := [];
      model := None;
    }

    /** `setup`: gamma from radius_small, delta from radius_large; returns self. */
    method Setup() returns (self: GendreauLaporteSemetModel)
      modifies this
      ensures self == this && isSetUp
      ensures gammaCoeff == MathUtils.ReachCoefficient(distances, config.radiusSmall)
      ensures deltaCoeff == MathUtils.ReachCoefficient(distances, config.radiusLarge)
      ensures model == old(model)
    {
      gammaCoeff := MathUtils.ReachCoefficient(distances, config.radiusSmall);
      deltaCoeff := MathUtils.ReachCoefficient(distances, config.radiusLarge);
      isSetUp := true;
      self := this;
    }

    /** `build_model`: a fresh problem for (facilities, alpha); nothing of the
        previously built problem survives. */
    method BuildModel(facilities: int, alpha: real)
      requires isSetUp
      modifies this
      ensures model == Some(Problem(Coefficients(demand, gammaCoeff, deltaCoeff, locations),
                                    facilities, alpha, threadCount))
      ensures isSetUp && gammaCoeff == old(gammaCoeff) && deltaCoeff == old(deltaCoeff)
    {
      model := Some(Problem(Coefficients(demand, gammaCoeff, deltaCoeff, locations),
                            facilities, alpha, threadCount));
    }
  }

  // -----------------------------------------------------------------------
  // Properties of the constraint system.

  /** Only constraint (3) mentions alpha: with non-negative demand a candidate
      feasible at alpha stays feasible at every smaller alpha. */
  lemma FeasibleAlphaMonotone(c: Coefficients, facilities: int, a1: real, a2: real, cand: Candidate)
    requires NonNegativeReals(c.demand) && a1 <= a2
    requires Feasible(c, facilities, a2, cand)
    ensures Feasible(c, facilities, a1, cand)
  {
    RealSumNonNegative(c.demand);
    MulMonotone(a1, a2, RealSum(c.demand));
  }

  /** Constraints (4) and (5): a point covered twice is covered once and has at
      least two facility units within the small radius. */
  lemma DoubleCoverage(c: Coefficients, facilities: int, alpha: real, cand: Candidate, i: nat)
    requires Feasible(c, facilities, alpha, cand)
    requires i < |c.demand| && cand.x2[i] == 1
    ensures cand.x1[i] == 1
    ensures Dot(c.gamma[i], cand.y) >= 2
  {
  }

  /** Constraint (2): every demand point has an opened site within the large
      radius. */
  lemma CoveredWithinLargeRadius(c: Coefficients, facilities: int, alpha: real, cand: Candidate, i: nat)
    returns (j: nat)
    requires ZeroOne(c) && Feasible(c, facilities, alpha, cand)
    requires i < |c.demand|
    ensures j < |c.locations| && c.delta[i][j] == 1 && cand.y[j] >= 1
  {
    j := DotPositive(c.delta[i], cand.y);
    assert c.delta[i][j] == 0 || c.delta[i][j] == 1;
  }

  /** Constraints (6) and (7): with less total capacity than the requested
      number of units, no candidate is feasible at any alpha. */
  lemma CapacityInfeasible(c: Coefficients, facilities: int, alpha: real)
    requires Sum(c.locations) < facilities
    ensures !Solvable(c, facilities, alpha)
  {
    forall cand | Feasible(c, facilities, alpha, cand)
      ensures false
    {
      SumPointwiseLe(cand.y, c.locations);
    }
  }

  /** With at least one demand point, zero facility units satisfy nothing:
      constraint (2) fails for the first point. */
  lemma ZeroFacilitiesInfeasible(c: Coefficients, alpha: real)
    requires |c.demand| >= 1
    ensures !Solvable(c, 0, alpha)
  {
    forall cand | Feasible(c, 0, alpha, cand)
      ensures false
    {
      SumZero(cand.y);
      DotZero(c.delta[0], cand.y);
    }
  }

  /** Objective (1) never exceeds the single-covered demand of constraint (3). */
  lemma ObjectiveAtMostSingleCover(c: Coefficients, facilities: int, alpha: real, cand: Candidate)
    requires NonNegativeReals(c.demand) && Feasible(c, facilities, alpha, cand)
    ensures Objective(c, cand) <= WeightedSum(c.demand, cand.x1)
  {
    WeightedSumPointwiseLe(c.demand, cand.x2, cand.x1);
  }

  /** One more unit at a site with spare capacity keeps every constraint: a
      feasible problem stays feasible with one more facility, up to the total
      capacity. */
  lemma MoreFacilities(c: Coefficients, facilities: int, alpha: real, cand: Candidate)
    returns (cand': Candidate)
    requires ZeroOne(c) && Feasible(c, facilities, alpha, cand)
    requires facilities < Sum(c.locations)
    ensures Feasible(c, facilities + 1, alpha, cand')
    ensures cand'.x1 == cand.x1 && cand'.x2 == cand.x2
  {
    var j := SlackEntry(cand.y, c.locations);
    var y' := cand.y[j := cand.y[j] + 1];
    cand' := cand.(y := y');
    SumIncrement(cand.y, j);
    forall i | 0 <= i < |c.demand|
      ensures Dot(c.delta[i], y') >= Dot(c.delta[i], cand.y)
      ensures Dot(c.gamma[i], y') >= Dot(c.gamma[i], cand.y)
    {
      DotIncrementGrows(c.delta[i], cand.y, j);
      DotIncrementGrows(c.gamma[i], cand.y, j);
    }
  }

  /** Solvability, rather than a single candidate, is monotone in the number of
      units up to the total capacity. */
  lemma SolvableMoreFacilities(c: Coefficients, facilities: int, alpha: real)
    requires ZeroOne(c) && Solvable(c, facilities, alpha)
    requires facilities < Sum(c.locations)
    ensures Solvable(c, facilities + 1, alpha)
  {
    var cand :| Feasible(c, facilities, alpha, cand);
    var cand' := MoreFacilities(c, facilities, alpha, cand);
  }
}
