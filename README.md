# aps_location in Dafny

A model of the core of `aps_location`. The repository places ambulance
facilities ("APS") on candidate sites with integer programs solved by
Gurobi. It asks how large a fraction alpha of the demand can be covered with
a given number of facilities, and finds that fraction by bisection.

What the model covers:

- The reach matrices: a distance within a radius gives 1, otherwise 0
  (`MathUtils`).
- The solver boundary, as the status the solver reports for the problem built
  with (count, alpha) (`SolverStatus`). The package's `is_fesible` accepts
  OPTIMAL or SOLUTION_LIMIT; the script's `try_solve` accepts OPTIMAL only.
- The bisection on alpha, specified by pure functions (`AlphaSearch`):
  the bracket after k steps, the number of steps for a tolerance, and the
  value returned. It is proved for any oracle. Under a downward-closed oracle
  the result is proved to lie within tol of the feasibility boundary.
- The package's search loop and its sweep over facility counts
  (`FindMaxAlpha`), and the script's own copies of both (`ApsLoc`). Each loop
  is proved to compute the specification.
- The double-standard coverage model of Gendreau, Laporte and Semet
  (`Gls`): constraints (2)-(7) as a predicate on candidate vectors, the
  objective (1), and the model object's `setup` / `build_model` state.
  The code does not post two of these constraints as commented. Constraint
  (5) compares the variables' keys, so it hands Python bools to
  `addConstrs` instead of constraints, and constraint (6) sums the keys
  instead of the variables (see "## Findings"). Both systems are modelled:
  `Gls.FeasibleAsWritten` is the one posted as written, on the reading that
  gurobipy accepts a constant `True` as a constraint that restricts nothing,
  and `Gls.Feasible` is the intended one. If gurobipy rejects a bool instead,
  `build_model` raises before (6) is posted, on every instance with a demand
  point. The lemmas about the search and the sweep are stated for
  the intended system.
  Proved for the intended system: feasibility is monotone in alpha and, up to
  the total capacity, in the number of facilities. These two facts make the
  sweep non-decreasing for an exact solver.
- The site-opening model `MyModelOne` (`ModelOne`): constraints 1-4 and the
  objective.
- The best-coupling model (`BestCoupling`), including `get_gamma_param` as a
  ceiling. Proved: the stop cap never binds, and the optimum is the sum of
  the row minima.
- `round_distance` and the radius list of `make_radius`
  (`InstanceGenerator`). The histogram is an imperative loop over a map. The
  list is proved strictly increasing and to hold exactly the distinct
  non-zero rounded distances. The frequency sort is proved to have no effect
  on the result.
- The experiment log (`Logging`).
- The instance in `main` of `aps_loc.py`, for an exact solver. As written,
  and if gurobipy accepts the constant constraints of (5), the sweep over 1
  and 2 facilities is proved to return about 5/6 and at most 1e-6; if
  gurobipy rejects them, `build_model` raises and `main` prints nothing.
  Under the intended constraints it would return 1/3 and 5/6, each to within
  the default tolerance.

## Model

| member | source | states |
|---|---|---|
| MathUtils.ReachCoefficient | utils/math_utils.py:6-8 | the result has the shape of the distance matrix; every entry is 0 or 1, and it is 1 exactly when the distance is at most the threshold |
| MathUtils.ReachBoundary | utils/math_utils.py:7 | a distance equal to the threshold counts as reachable (the test is `<=`, not `<`) |
| MathUtils.ReachMonotone | utils/math_utils.py:6-8 | a larger threshold reaches at least as much, entry by entry |
| SolverStatus.IsFesible | models/abstract_model.py:16-24 | feasible exactly on OPTIMAL or SOLUTION_LIMIT; every other status counts as infeasible |
| AlphaSearch.Step | models/find_max_alpha.py:21-26 | a definition (no contract): one iteration; the midpoint becomes the new min_alpha when the oracle accepts it and the new max_alpha otherwise |
| AlphaSearch.Run | models/find_max_alpha.py:18-26 | a definition (no contract): the bracket after k iterations from [0, 1] |
| AlphaSearch.SearchSpec | models/find_max_alpha.py:18-27 | a definition (no contract): the last midpoint tested, or None when the loop never runs; its properties are the AlphaSearch lemmas below |
| AlphaSearch.RunInvariant | models/find_max_alpha.py:18-26 | after k iterations 0 <= min_alpha < max_alpha <= 1 and the width is exactly 2^-k; min_alpha is 0 or a midpoint the oracle accepted; max_alpha is 1 or a midpoint it rejected |
| AlphaSearch.IterationsSpec | models/find_max_alpha.py:20 | the loop runs the least number of iterations k with 2^-k <= tol, and it runs none exactly when tol >= 1 |
| AlphaSearch.IterationsExact | models/find_max_alpha.py:20 | the loop stops after exactly n iterations when 2^-n <= tol < 2^-(n-1) |
| AlphaSearch.DefaultTolIterations | models/find_max_alpha.py:10 | the default tolerance 1e-6 gives exactly 20 iterations |
| AlphaSearch.SearchResultIsEndpoint | models/find_max_alpha.py:18-27 | a value is returned exactly when tol < 1; it lies strictly inside (0, 1) and is an endpoint of a final bracket narrower than tol |
| AlphaSearch.BracketEnclosesBoundary | models/find_max_alpha.py:20-26 | under a downward-closed oracle, everything up to min_alpha (once moved off 0) is feasible and everything from max_alpha (once moved off 1) is infeasible |
| AlphaSearch.SearchWithinTol | models/find_max_alpha.py:10-27 | under a downward-closed oracle, no feasible alpha exceeds the result plus tol and no infeasible alpha lies below the result minus tol |
| AlphaSearch.SearchNearThreshold | models/find_max_alpha.py:10-27 | when exactly the fractions up to a threshold t in [0, 1] are feasible, the result is within tol of t; t = 1 covers an oracle that accepts everything |
| AlphaSearch.SearchAllInfeasible | models/find_max_alpha.py:10-27 | when nothing is feasible, the result is in (0, tol]: a value is returned even though no fraction is feasible |
| AlphaSearch.SearchOrdered | models/find_max_alpha.py:20-26 | a search against an oracle that accepts at least as much never returns a smaller alpha |
| AlphaSearch.SearchMonotoneInCount | models/find_max_alpha.py:10-27 | if one more facility never loses feasibility between counts c1 and c2, the result at c2 is at least the result at c1 |
| FindMaxAlpha.FindMaxAlpha | models/find_max_alpha.py:10-27 | the loop returns the specified search result against `is_fesible`, or None when it never runs and `alpha` is unbound |
| FindMaxAlpha.PoolCallback.Callback | models/find_max_alpha.py:30-35 | the callback returns the default-tolerance search result for the count it is given, a value strictly inside (0, 1) |
| FindMaxAlpha.FindMaxAlphaByFacilities | models/find_max_alpha.py:38-48 | as written: fails exactly when jobs < 1; otherwise returns facility_max_count entries, and entry k is the search for k facilities, counting from 0 |
| FindMaxAlpha.FindMaxAlphaByFacilitiesFromOne | models/find_max_alpha.py:38-42 | as the docstring describes it: entry k is the search for k + 1 facilities; same length and same failure on jobs < 1 |
| FindMaxAlpha.ExactOracleDownwardClosed | models/model_GLS.py:78-85 | with a solver exact for the intended constraints and non-negative demand, the package oracle is downward closed in alpha, which is what the bisection relies on |
| FindMaxAlpha.SweepEntryZeroIsCountZero | models/find_max_alpha.py:45-46 | with a solver exact for the intended constraints and any demand point, entry 0 of the as-written sweep is at most 1e-6, whatever the instance |
| FindMaxAlpha.SweepFromOneNonDecreasing | models/find_max_alpha.py:38-48 | with a solver exact for the intended constraints, the corrected sweep never decreases over counts 1..facility_max_count, up to the total capacity |
| ApsLoc.TrySolve | aps_loc.py:55-57 | a status the script accepts is one the package accepts too |
| ApsLoc.TrySolveStricter | aps_loc.py:55-57 | the script and the package disagree on exactly one status, SOLUTION_LIMIT |
| ApsLoc.FindMaxAlpha | aps_loc.py:126-143 | the script's loop returns the specified search result against `try_solve` |
| ApsLoc.ScriptBelowPackage | aps_loc.py:134-143 | given the same status function, the script's result is never larger than the package's |
| ApsLoc.FindMaxAlphaByFacilities | aps_loc.py:146-151 | facility_max_count entries (none for a negative count), and entry k is the search for k + 1 facilities |
| ApsLoc.SweepNonDecreasing | aps_loc.py:146-151 | with a solver exact for the intended constraints, the script's sweep never decreases, up to the total capacity |
| ApsLoc.ScenarioReach | aps_loc.py:161-165 | `setup` on the `main` instance gives gamma [[0,0],[1,1],[0,1]] and delta [[1,0],[1,1],[1,1]] |
| ApsLoc.ScenarioCoverBound | aps_loc.py:73-113 | under the intended constraints, on the `main` instance, any solution covers at most demand 2 once with one facility and at most demand 5 with two |
| ApsLoc.ScenarioWitnessOne | aps_loc.py:73-113 | one facility at site 0 meets the intended constraints for every alpha up to 1/3 |
| ApsLoc.ScenarioWitnessTwo | aps_loc.py:73-113 | one facility at each site meets the intended constraints for every alpha up to 5/6 |
| ApsLoc.ScenarioSolvable | aps_loc.py:161-166 | under the intended constraints, the `main` instance with 1 or 2 facilities is solvable exactly when alpha <= 1/3 or alpha <= 5/6 respectively |
| ApsLoc.MainScenario | aps_loc.py:161-167 | with a solver exact for the intended constraints (5) and (6), `main` would compute 1/3 and 5/6 to within 1e-6; this is the corrected half of the constraint finding |
| ApsLoc.ScenarioAsWrittenCoverBound | aps_loc.py:73-113 | under the constraints as written, any solution on the `main` instance covers at most demand 5 once, for any count |
| ApsLoc.ScenarioAsWrittenWitness | aps_loc.py:101-113 | as written, if gurobipy accepts the constant constraints of (5), one unit at each site is accepted with facilities = 1 for every alpha up to 5/6, because constraint (6) does not mention y |
| ApsLoc.ScenarioAsWrittenDoubleWithoutSingle | aps_loc.py:101-105 | as written, if gurobipy accepts the constant constraints of (5), a candidate that covers point 1 twice but not once is accepted: a constant `True` restricts nothing |
| ApsLoc.ScenarioSolvableAsWritten | aps_loc.py:101-113 | as written, if gurobipy accepts the constant constraints of (5), the `main` instance is solvable with 1 facility exactly when alpha <= 5/6, and never with 2 |
| ApsLoc.MainScenarioAsWritten | aps_loc.py:161-167 | if gurobipy accepts the constant constraints of (5), and with a solver exact for the constraints as written, `main` computes about 5/6 (within 1e-6) for one facility and a value in (0, 1e-6] for two |
| Gls.SetupCoefficients | models/model_GLS.py:38-45 | gamma comes from radius_small and delta from radius_large; both are 0/1 matrices; gamma <= delta entry by entry when radius_small <= radius_large |
| Gls.Feasible | models/model_GLS.py:68-108 | a definition (no contract): constraints (2)-(7) as the comments describe them, with (5) x2 <= x1 per point and (6) Σ y = facilities. The code posts (5) and (6) differently; see Gls.FeasibleAsWritten |
| Gls.Objective | models/model_GLS.py:110-118 | a definition (no contract): the demand covered twice, Σ d_i · x2_i |
| Gls.KeySum | models/model_GLS.py:103 | the sum 0 + 1 + ... + (n-1) of the keys of n variables is n(n-1)/2 |
| Gls.FeasibleAsWritten | models/model_GLS.py:68-108 | a definition (no contract): the system as posted, on the reading that gurobipy accepts the bool `True` that each comparison of keys in (5) produces as a constraint that restricts nothing; (5) is therefore dropped, and (6) is the constant equation KeySum(number of sites) = facilities |
| Gls.AsWrittenSingleCount | models/model_GLS.py:103 | as written, a facility count other than n(n-1)/2, for n sites, is infeasible at every alpha |
| Gls.IntendedImpliesAsWritten | models/model_GLS.py:96-103 | for the count n(n-1)/2, every intended solution is also a solution as written: the code only drops restrictions |
| Gls.AsWrittenOneSiteCountZero | models/model_GLS.py:96-108 | as written, if gurobipy accepts the constant constraints of (5), an instance with one site accepts zero facilities at every alpha up to 1, because the key sum of one site is 0; the intended system rejects zero facilities there |
| Gls.FeasibleAsWrittenAlphaMonotone | models/model_GLS.py:78-85 | as written too, with non-negative demand, a solution at alpha is a solution at every smaller alpha |
| Gls.GendreauLaporteSemetModel.constructor | models/model_GLS.py:26-36 | the instance fields are stored; no reach matrix and no problem exist yet |
| Gls.GendreauLaporteSemetModel.Setup | models/model_GLS.py:38-45 | fills in gamma and delta from the two radii, returns the object itself, and leaves the built problem alone |
| Gls.GendreauLaporteSemetModel.BuildModel | models/model_GLS.py:47-52 | replaces the problem with a fresh one for (facilities, alpha) that carries the thread count; the reach matrices are unchanged |
| Gls.FeasibleAlphaMonotone | models/model_GLS.py:78-85 | only constraint (3) mentions alpha: with non-negative demand, a solution at alpha is a solution at every smaller alpha |
| Gls.DoubleCoverage | models/model_GLS.py:87-100 | under the intended constraints (4) and (5): a point covered twice is covered once and has at least two units within the small radius |
| Gls.CoveredWithinLargeRadius | models/model_GLS.py:69-76 | constraint (2): every demand point has an opened site within the large radius |
| Gls.CapacityInfeasible | models/model_GLS.py:102-108 | under the intended constraints (6) and (7): asking for more units than the total capacity is infeasible at every alpha |
| Gls.ZeroFacilitiesInfeasible | models/model_GLS.py:69-76 | with any demand point, zero units are infeasible at every alpha |
| Gls.ObjectiveAtMostSingleCover | models/model_GLS.py:110-118 | the objective (demand covered twice) never exceeds the demand covered once |
| Gls.MoreFacilities | models/model_GLS.py:68-108 | one more unit at a site with spare capacity keeps every intended constraint, with the coverage variables unchanged |
| Gls.SolvableMoreFacilities | models/model_GLS.py:68-108 | under the intended constraints, below the total capacity, a solvable problem stays solvable with one more facility |
| ModelOne.MyModelOne.constructor | models/my_model_1.py:15-20 | stores lambda, delta with its column count, and the thread count; no problem built yet |
| ModelOne.MyModelOne.BuildModel | models/my_model_1.py:22-26 | replaces the problem with one for (aps_count, alpha) over the stored coefficients |
| ModelOne.Feasible | models/my_model_1.py:22-67 | a definition (no contract): constraints 1-4 as the comments describe them over variables shaped by delta, with one y per column of delta even when delta has no rows (see "## Left out" for the code as written) |
| ModelOne.Objective | models/my_model_1.py:69-75 | a definition (no contract): Σ lambda_j · y_j over the sites |
| ModelOne.FeasibleAlphaMonotone | models/my_model_1.py:55-58 | a solution at alpha is a solution at every smaller alpha |
| ModelOne.SolvableAlphaMonotone | models/my_model_1.py:55-58 | solvability is downward closed in alpha |
| ModelOne.ServedHasOpenReachableSite | models/my_model_1.py:49-67 | constraints 2 and 4: a served customer is assigned to an opened site within reach |
| ModelOne.AlphaAboveOneInfeasible | models/my_model_1.py:55-58 | with any customer, alpha above 1 is infeasible |
| ModelOne.TooManySitesInfeasible | models/my_model_1.py:28-47 | opening more sites than delta has columns is infeasible, with or without customers |
| ModelOne.NoCustomersSolvable | models/my_model_1.py:28-58 | without customers, exactly the counts from 0 to the number of sites are solvable, at every alpha |
| ModelOne.ObjectiveAtMostTotal | models/my_model_1.py:69-75 | with non-negative weights, one per site, the objective lies between 0 and the total site weight |
| ModelOne.WeightedSumBinaryBounds | models/my_model_1.py:69-75 | a 0/1 selection of non-negative weights sums to between 0 and the total weight |
| BestCoupling.GammaParam | models/model_best_couple.py:61-64 | fails exactly when there are no stops; otherwise it returns the ceiling g of customers / stops: g·stops >= customers > (g-1)·stops |
| BestCoupling.BuildProblem | models/model_best_couple.py:24-29 | the problem takes its shape from the distance matrix and gamma from `get_gamma_param`; none is built without stops |
| BestCoupling.FindBestCoupling.constructor | models/model_best_couple.py:19-22 | stores the distance matrix; no problem built yet |
| BestCoupling.FindBestCoupling.BuildModel | models/model_best_couple.py:24-29 | replaces the problem with the one built from the stored distances |
| BestCoupling.Feasible | models/model_best_couple.py:39-48 | a definition (no contract): a 0/1 matrix of the problem's shape meeting constraints 1 and 2 |
| BestCoupling.Cost | models/model_best_couple.py:50-58 | a definition (no contract): Σ_i Σ_j x_ij · d_ij |
| BestCoupling.AssignedStop | models/model_best_couple.py:42-43 | a 0/1 row that sums to 1 assigns its customer to exactly one stop |
| BestCoupling.CapNeverBinds | models/model_best_couple.py:46-48 | for every built problem, constraint 2 adds nothing: feasible exactly when shaped, 0/1 and constraint 1 hold |
| BestCoupling.FeasibleRowCost | models/model_best_couple.py:50-58 | in a feasible matrix, each customer adds the distance to its one assigned stop to the objective |
| BestCoupling.CostAtLeastMin | models/model_best_couple.py:50-58 | any one-stop-per-customer assignment costs at least the sum of the row minima |
| BestCoupling.NearestCouplingCost | models/model_best_couple.py:50-58 | assigning every customer to a nearest stop costs exactly the sum of the row minima |
| BestCoupling.OptimalCost | models/model_best_couple.py:39-58 | the nearest-stop matrix is feasible and attains the sum of the row minima; every feasible matrix costs at least that |
| InstanceGenerator.FloorDiv | aps_instance_generator.py:44 | floored division, as numpy's `%` uses it: q·b <= a < q·b + b for b > 0, q·b + b < a <= q·b for b < 0, and 0 for b = 0 |
| InstanceGenerator.PyMod | aps_instance_generator.py:44 | numpy's `%`: the remainder takes the sign of the divisor (in [0, b) for b > 0, in (b, 0] for b < 0), and a zero divisor gives 0 |
| InstanceGenerator.RoundDown | aps_instance_generator.py:42-45 | the entry becomes the multiple of order given by floor division; for a positive order it is the largest multiple not above the entry, for a negative one the smallest not below; order 0 changes nothing |
| InstanceGenerator.RoundDownIdempotent | aps_instance_generator.py:42-45 | a rounded entry is left unchanged by rounding again |
| InstanceGenerator.RoundDistance | aps_instance_generator.py:42-45 | same shape as the input, with every entry rounded |
| InstanceGenerator.RoundDistanceIdempotent | aps_instance_generator.py:42-45 | rounding an already rounded matrix changes nothing |
| InstanceGenerator.Histogram | aps_instance_generator.py:50-56 | the keys are distinct; they are exactly the values of the matrix and exactly the map's keys; each count is the number of occurrences of its value |
| InstanceGenerator.Items | aps_instance_generator.py:57 | one (value, count) pair per key, in key order |
| InstanceGenerator.SortByCountDesc | aps_instance_generator.py:58 | the frequency sort is a permutation of the pairs |
| InstanceGenerator.SortByCountDescOrdered | aps_instance_generator.py:58 | after the frequency sort, the counts do not increase along the list |
| InstanceGenerator.NonZeroKeys | aps_instance_generator.py:59 | a value is kept exactly when it is a key and not 0 |
| InstanceGenerator.SortAscending | aps_instance_generator.py:60 | the final sort is a permutation |
| InstanceGenerator.SortAscendingSorted | aps_instance_generator.py:60 | the final sort is in non-decreasing order |
| InstanceGenerator.FrequencySortIrrelevant | aps_instance_generator.py:58-60 | the radius list is the same with or without the frequency sort |
| InstanceGenerator.RadiusList | aps_instance_generator.py:59-60 | from distinct keys, the list increases strictly and holds exactly the non-zero keys |
| InstanceGenerator.RadiusFromHistogram | aps_instance_generator.py:57-60 | the list built from the histogram increases strictly and holds exactly its non-zero keys |
| InstanceGenerator.MakeRadius | aps_instance_generator.py:48-61 | the radius list increases strictly and holds exactly the distinct non-zero values of the rounded matrix |
| Logging.Log.constructor | utils/log.py:7-10 | a new log stores its file name and starts with no entries |
| Logging.Log.WithEntries | utils/log.py:7-10 | a log built with an explicit entry list starts with exactly those entries |
| Logging.Log.AddEntry | utils/log.py:12-13 | the (configuration, alphas) pair is appended at the end; earlier entries and the file name are unchanged |

## Left out

- The solver is not modelled. A built model is known only by the status
  it reports for (count, alpha). Claims that need more assume an "exact"
  solver: one that accepts exactly when the constraint system has a solution.
- The process pool is not modelled concurrently. `pool.map` is modelled as a
  sequential map that keeps its order, and `jobs` only decides the
  `ValueError` raised for fewer than one worker.
- Floating point is not modelled. alpha, demand and distances are exact
  reals, so the bisection's midpoints are exact.
- `np.round` and the int32 cast in `round_distance` are not modelled. The
  model starts from integer distances and uses unbounded integers.
- Gls.Feasible: states constraints (5) and (6) as the comments intend, not
  as models/model_GLS.py:96-103 and aps_loc.py:101-108 post them. As
  written, (5) compares tupledict keys, so each comparison is the Python bool
  `True` handed to `addConstrs`, and (6) is the constant equation "sum of
  the site keys = facilities".
  Gls.FeasibleAsWritten models the code as written. The lemmas about the
  search, the sweep and `main` that use Gls.Solvable hold for the intended
  system only; for the code as written see ApsLoc.MainScenarioAsWritten.
- Gls.FeasibleAsWritten: assumes that gurobipy accepts the bool `True` as a
  constraint and that it restricts nothing. Whether `addConstrs` does so, or
  raises a `GurobiError` for an argument that is not a constraint, is a
  property of gurobipy that is not part of this model. If it raises,
  `build_model` fails on every instance with a demand point, before (6) is
  posted, and ApsLoc.ScenarioAsWrittenWitness,
  ApsLoc.ScenarioAsWrittenDoubleWithoutSingle, ApsLoc.ScenarioSolvableAsWritten
  and ApsLoc.MainScenarioAsWritten describe no run of the code: `main` then
  prints nothing.
- ApsLoc.ScenarioSolvableAsWritten: holds only if gurobipy accepts the
  constant constraints of (5); see the Gls.FeasibleAsWritten line.
- ApsLoc.MainScenarioAsWritten: holds only if gurobipy accepts the constant
  constraints of (5); otherwise `main` raises inside `build_model`.
- ApsLoc.ScriptBelowPackage: compares the two searches for one status
  function. The package's `is_fesible` sets `SolutionLimit` to 1, and the
  script's `try_solve` does not. So one built problem can report different
  statuses to the two searches, and the lemma does not cover that case.
- FindMaxAlpha.FindMaxAlpha: requires tol > 0, because on exact reals the
  loop never stops for tol <= 0. ApsLoc.FindMaxAlpha has the same
  requirement.
- An unbound `alpha` at the return (UnboundLocalError when tol >= 1) is
  modelled as None. So are division by zero in `get_gamma_param` and
  `Pool(jobs)` with jobs < 1.
- The Gurobi variable plumbing (`add_variables`, `setParam`, variable names,
  `model.update`) is not modelled. A built problem is the data that decides
  its constraint system.
- `Model` in `aps_loc.py` (lines 29-123) is not modelled separately. It
  builds the same constraint system as models/model_GLS.py without the
  thread count, so `ApsLoc` reuses `Gls`.
- ModelOne.MyModelOne.BuildModel: models the constraint system the comments
  and variable types describe, not the code as written. As written,
  `build_model` cannot run: `*self.delta_coeff.size` (line 24) unpacks an
  integer, and constraint 4 (lines 61-67) reads `x_row` before any loop binds
  it. Constraint 2 (lines 50-53), as written, pairs customers with the
  per-site variable lists. Constraints 1 and 3 (lines 47 and 57) `quicksum` a
  tupledict, so they sum its keys instead of the variables.
- The in-place list sorts of `make_radius` are modelled on values, as
  insertion-sort functions. The stable key sort is an insertion that keeps
  ties in order.
- The JSON output of `make_radius`, `make_instance` and `make_location`,
  `Log.save`, file and console I/O, plotting, random instance generation,
  the command-line drivers and `main` of `aps_instance_generator.py` are not
  modelled. They are I/O or call code outside the core.
- `Model.solve` and `get_vars` of models/abstract_model.py are not
  modelled; they only hand the solver object back.

## Findings

| source | as written | input that shows it | evidently intended | confidence | as-written member | corrected member |
|---|---|---|---|---|---|---|
| models/find_max_alpha.py:45-46 | `pool.map(cb.callback, range(facility_max_count))` searches facility counts 0 .. n-1 | any instance with a demand point and facility_max_count >= 1: entry 0 is the search for zero facilities, which the intended constraints never accept, so it reports at most 1e-6; and the count n is never searched. Under the GLS constraints as written (Gls.FeasibleAsWritten) the symptom differs: an instance with one site has KeySum(1) = 0, so count 0 is the one count accepted there, at every alpha up to 1 (Gls.AsWrittenOneSiteCountZero) | counts 1 .. n, as the docstring (lines 40-41) and `aps_loc.py:151` (`f + 1`) say | not executed | FindMaxAlpha.FindMaxAlphaByFacilities (with FindMaxAlpha.SweepEntryZeroIsCountZero) | FindMaxAlpha.FindMaxAlphaByFacilitiesFromOne (with FindMaxAlpha.SweepFromOneNonDecreasing) |
| models/model_GLS.py:96-103 | iterating a tupledict yields its keys. So constraint (5) compares key i with key i and hands the Python bool `True` to `addConstrs` for each point; read as a constraint that holds, it restricts nothing, and if gurobipy rejects a bool, `build_model` raises instead on every instance with a demand point. Constraint (6) posts `0 + 1 + ... + (n-1) == facilities` for n sites, without y. The same code is at aps_loc.py:101-108 | the instance of `main` in aps_loc.py (two sites), if gurobipy accepts the bools of (5): count 1 is accepted up to alpha 5/6 with one unit at each site, count 2 is never accepted, and a point may be covered twice without being covered once | x2_i <= x1_i for each point, and Σ y_j = facilities, as the comments "(5)" and "(6)" and the variable names describe | not executed | Gls.FeasibleAsWritten (with ApsLoc.ScenarioSolvableAsWritten, ApsLoc.ScenarioAsWrittenDoubleWithoutSingle and ApsLoc.MainScenarioAsWritten) | Gls.Feasible (with Gls.SolvableMoreFacilities and ApsLoc.MainScenario) |
