/** The specification of the alpha bisection shared by models/find_max_alpha.py
    and aps_loc.py. The bracket [min_alpha, max_alpha] starts at [0, 1]; each
    iteration asks the feasibility oracle about the midpoint and keeps the half
    the answer points to. Real arithmetic stands for the source's floats. */
module AlphaSearch {
  import opened Quicksum

  /** A feasibility oracle: is the model built for (count, alpha) feasible? */
  type Oracle = (int, real) -> bool

  /** The bracket [min_alpha, max_alpha]. */
  datatype Bracket = Bracket(lo: real, hi: real)

  const Initial: Bracket := Bracket(0.0, 1.0)

  /** The default `tol=1e-6` of find_max_alpha. */
  const DefaultTol: real := 0.000001

  function Abs(x: real): real
  {
    if x < 0.0 then -x else x
  }

  function Mid(b: Bracket): real
  {
    (b.hi + b.lo) / 2.0
  }

  /** One iteration of the loop body: test the midpoint, keep one half. */
  function Step(feasible: Oracle, count: int, b: Bracket): Bracket
  {
    var alpha := Mid(b);
    if feasible(count, alpha) then Bracket(alpha, b.hi) else Bracket(b.lo, alpha)
  }

  /** The bracket after k iterations from `start`. */
  function Run(feasible: Oracle, count: int, start: Bracket, k: nat): Bracket
    decreases k
  {
    if k == 0 then start else Step(feasible, count, Run(feasible, count, start, k - 1))
  }

  /** 2^-k, the width of the bracket after k iterations. */
  function Width(k: nat): real
  {
    if k == 0 then 1.0 else Width(k - 1) / 2.0
  }

  function PowerOfTwo(k: nat): nat
  {
    if k == 0 then 1 else 2 * PowerOfTwo(k - 1)
  }

  lemma {:induction false} WidthTimesPower(k: nat)
    ensures Width(k) * (PowerOfTwo(k) as real) == 1.0
    ensures PowerOfTwo(k) >= 1
  {
    if k > 0 {
      WidthTimesPower(k - 1);
      calc {
        Width(k) * (PowerOfTwo(k) as real);
        (Width(k - 1) / 2.0) * (2.0 * (PowerOfTwo(k - 1) as real));
        Width(k - 1) * (PowerOfTwo(k - 1) as real);
      }
    }
  }

  /** While the loop still runs (width > tol), 2^k stays below 1/tol. */
  lemma WidthAboveTol(k: nat, tol: real)
    requires tol > 0.0 && Width(k) > tol
    ensures 1 <= PowerOfTwo(k) <= (1.0 / tol).Floor
  {
    WidthTimesPower(k);
    var p := PowerOfTwo(k) as real;
    var w := Width(k);
    var wp, tp := w * p, tol * p;
    assert tp < wp by { MulLess(tol, w, p); }
    assert wp == 1.0;
    var pt := p * tol;
    assert pt == tp;
    FloorBound(p, tol);
  }

  lemma MulLess(a: real, b: real, c: real)
    requires a < b && c > 0.0
    ensures a * c < b * c
  {
  }

  lemma FloorBound(p: real, t: real)
    requires t > 0.0 && p * t < 1.0
    ensures p.Floor <= (1.0 / t).Floor
  {
    var q := 1.0 / t;
    var qt, pt := q * t, p * t;
    assert qt == 1.0;
    assert pt < qt;
    MulCancel(p, q, t);
  }

  lemma MulCancel(a: real, b: real, c: real)
    requires c > 0.0 && a * c < b * c
    ensures a < b
  {
  }

  /** The number of iterations left once k have run: the loop stops at the
      first k with width <= tol. */
  function IterationsFrom(k: nat, tol: real): nat
    requires tol > 0.0
    decreases (1.0 / tol).Floor - PowerOfTwo(k)
  {
    if Width(k) <= tol then k
    else
      WidthAboveTol(k, tol);
      IterationsFrom(k + 1, tol)
  }

  /** The number of iterations the loop makes for a given tolerance. */
  function Iterations(tol: real): nat
    requires tol > 0.0
  {
    IterationsFrom(0, tol)
  }

  /** The value find_max_alpha returns: the last midpoint tested, or None when
      the loop never runs and `alpha` is unbound at the return (Python raises
      UnboundLocalError). */
  function SearchSpec(feasible: Oracle, count: int, tol: real): Option<real>
    requires tol > 0.0
  {
    var n := Iterations(tol);
    if n == 0 then None else Some(Mid(Run(feasible, count, Initial, n - 1)))
  }

  /** The oracle's answers are closed downward in alpha at this count. */
  ghost predicate DownwardClosed(feasible: Oracle, count: int)
  {
    forall a1: real, a2: real :: 0.0 <= a1 <= a2 <= 1.0 && feasible(count, a2) ==> feasible(count, a1)
  }

  // -----------------------------------------------------------------------
  // The loop's invariants, stated on the specification.

  lemma {:induction false} WidthPositive(k: nat)
    ensures Width(k) > 0.0
  {
    if k > 0 { WidthPositive(k - 1); }
  }

  /** After k iterations: 0 <= min_alpha < max_alpha <= 1; the width is exactly
      2^-k; min_alpha is 0 or a midpoint the oracle accepted; max_alpha is 1 or a
      midpoint the oracle rejected. */
  lemma {:induction false} RunInvariant(feasible: Oracle, count: int, k: nat)
    ensures var b := Run(feasible, count, Initial, k);
      && 0.0 <= b.lo < b.hi <= 1.0
      && b.hi - b.lo == Width(k)
      && (b.lo == 0.0 || feasible(count, b.lo))
      && (b.hi == 1.0 || !feasible(count, b.hi))
  {
    if k > 0 {
      RunInvariant(feasible, count, k - 1);
      WidthPositive(k - 1);
    }
  }

  /** The iteration count is the least k with 2^-k <= tol; it is zero exactly
      when tol >= 1. */
  lemma {:induction false} IterationsFromSpec(k: nat, tol: real)
    requires tol > 0.0
    ensures IterationsFrom(k, tol) >= k
    ensures Width(IterationsFrom(k, tol)) <= tol
    ensures forall j :: k <= j < IterationsFrom(k, tol) ==> Width(j) > tol
    decreases (1.0 / tol).Floor - PowerOfTwo(k)
  {
    if Width(k) > tol {
      WidthAboveTol(k, tol);
      IterationsFromSpec(k + 1, tol);
    }
  }

  lemma IterationsSpec(tol: real)
    requires tol > 0.0
    ensures Width(Iterations(tol)) <= tol
    ensures forall j :: 0 <= j < Iterations(tol) ==> Width(j) > tol
    ensures Iterations(tol) == 0 <==> tol >= 1.0
  {
    IterationsFromSpec(0, tol);
    if tol < 1.0 {
      assert Width(0) > tol;
    }
  }

  /** The loop makes 20 iterations for the default tolerance 1e-6. */
  lemma DefaultTolIterations()
    ensures Iterations(DefaultTol) == 20
  {
    PowerOfTwoAdd(9, 10);
    PowerOfTwoAdd(10, 10);
    assert PowerOfTwo(9) == 512 && PowerOfTwo(10) == 1024;
    WidthAt(19, 524288);
    WidthAt(20, 1048576);
    IterationsExact(DefaultTol, 20);
  }

  /** The loop stops after n iterations when 2^-n <= tol < 2^-(n-1). */
  lemma IterationsExact(tol: real, n: nat)
    requires n >= 1 && tol > 0.0
    requires Width(n) <= tol < Width(n - 1)
    ensures Iterations(tol) == n
  {
    IterationsFromSpec(0, tol);
    var m := Iterations(tol);
    if m < n {
      WidthOrder(m, n - 1);
      assert false;
    }
  }

  /** Width(k) as an exact fraction, for a known power of two. */
  lemma WidthAt(k: nat, p: nat)
    requires p == PowerOfTwo(k) && p > 0
    ensures Width(k) == 1.0 / (p as real)
  {
    WidthTimesPower(k);
    var w := Width(k);
    var wp := w * (p as real);
    assert wp == 1.0;
  }

  lemma {:induction false} PowerOfTwoAdd(a: nat, b: nat)
    ensures PowerOfTwo(a + b) == PowerOfTwo(a) * PowerOfTwo(b)
  {
    if a > 0 {
      PowerOfTwoAdd(a - 1, b);
    }
  }

  lemma {:induction false} WidthOrder(i: nat, j: nat)
    requires i <= j
    ensures Width(j) <= Width(i)
    decreases j - i
  {
    if i < j {
      WidthOrder(i, j - 1);
      WidthPositive(j - 1);
    }
  }

  // -----------------------------------------------------------------------
  // What the search returns.

  /** The result is defined iff tol < 1, lies strictly inside (0, 1), and is an
      endpoint of the final bracket (not necessarily min_alpha); the final
      bracket is narrower than tol. */
  lemma SearchResultIsEndpoint(feasible: Oracle, count: int, tol: real)
    requires tol > 0.0
    ensures SearchSpec(feasible, count, tol).Some? <==> tol < 1.0
    ensures SearchSpec(feasible, count, tol).Some? ==>
      var alpha := SearchSpec(feasible, count, tol).value;
      var b := Run(feasible, count, Initial, Iterations(tol));
      && 0.0 < alpha < 1.0
      && (alpha == b.lo || alpha == b.hi)
      && b.hi - b.lo <= tol
  {
    IterationsSpec(tol);
    var n := Iterations(tol);
    if n > 0 {
      RunInvariant(feasible, count, n - 1);
      RunInvariant(feasible, count, n);
    }
  }

  /** Under a downward-closed oracle the final bracket encloses the boundary:
      everything up to min_alpha (when it moved off 0) is feasible, everything
      from max_alpha (when it moved off 1) is infeasible. */
  lemma BracketEnclosesBoundary(feasible: Oracle, count: int, k: nat)
    requires DownwardClosed(feasible, count)
    ensures var b := Run(feasible, count, Initial, k);
      && (b.lo > 0.0 ==> forall a :: 0.0 <= a <= b.lo ==> feasible(count, a))
      && (b.hi < 1.0 ==> forall a :: b.hi <= a <= 1.0 ==> !feasible(count, a))
  {
    RunInvariant(feasible, count, k);
  }

  /** Under a downward-closed oracle the returned alpha is within tol of the
      boundary between feasible and infeasible fractions: no feasible fraction
      exceeds alpha + tol and no infeasible one lies below alpha - tol. */
  lemma SearchWithinTol(feasible: Oracle, count: int, tol: real)
    requires 0.0 < tol < 1.0
    requires DownwardClosed(feasible, count)
    ensures SearchSpec(feasible, count, tol).Some?
    ensures var alpha := SearchSpec(feasible, count, tol).value;
      && (forall a :: 0.0 <= a <= 1.0 && feasible(count, a) ==> a <= alpha + tol)
      && (forall a :: 0.0 <= a <= 1.0 && !feasible(count, a) ==> a >= alpha - tol)
  {
    SearchResultIsEndpoint(feasible, count, tol);
    var n := Iterations(tol);
    RunInvariant(feasible, count, n);
    BracketEnclosesBoundary(feasible, count, n);
  }

  /** When the feasible fractions are exactly those up to a threshold t, the
      search returns t to within tol; t = 1 is the oracle that accepts every
      fraction. */
  lemma SearchNearThreshold(feasible: Oracle, count: int, tol: real, t: real)
    requires 0.0 < tol < 1.0 && 0.0 <= t <= 1.0
    requires forall a :: 0.0 <= a <= t ==> feasible(count, a)
    requires forall a :: t < a <= 1.0 ==> !feasible(count, a)
    ensures SearchSpec(feasible, count, tol).Some?
    ensures t - tol <= SearchSpec(feasible, count, tol).value <= t + tol
  {
    SearchResultIsEndpoint(feasible, count, tol);
    RunInvariant(feasible, count, Iterations(tol));
    var b := Run(feasible, count, Initial, Iterations(tol));
    assert b.lo <= t <= b.hi;
  }

  /** When the oracle rejects every fraction, the result is at most tol. */
  lemma SearchAllInfeasible(feasible: Oracle, count: int, tol: real)
    requires 0.0 < tol < 1.0
    requires forall a :: !feasible(count, a)
    ensures SearchSpec(feasible, count, tol).Some?
    ensures 0.0 < SearchSpec(feasible, count, tol).value <= tol
  {
    SearchResultIsEndpoint(feasible, count, tol);
    RunInvariant(feasible, count, Iterations(tol));
  }

  // -----------------------------------------------------------------------
  // Comparing two searches.

  lemma {:induction false} RunShift(feasible: Oracle, count: int, b: Bracket, k: nat)
    ensures Run(feasible, count, b, k + 1) == Run(feasible, count, Step(feasible, count, b), k)
  {
    if k > 0 {
      RunShift(feasible, count, b, k - 1);
    }
  }

  lemma {:induction false} RunWithin(feasible: Oracle, count: int, b: Bracket, k: nat)
    requires b.lo < b.hi
    ensures var r := Run(feasible, count, b, k); b.lo <= r.lo < r.hi <= b.hi
  {
    if k > 0 {
      RunWithin(feasible, count, b, k - 1);
    }
  }

  /** If every fraction f accepts at count c1 is accepted by g at count c2, the
      midpoint f tests at each iteration is no larger than the one g tests. */
  lemma {:induction false} MidpointOrdered(f: Oracle, c1: int, g: Oracle, c2: int, b: Bracket, k: nat)
    requires b.lo < b.hi
    requires forall a :: f(c1, a) ==> g(c2, a)
    ensures Mid(Run(f, c1, b, k)) <= Mid(Run(g, c2, b, k))
    decreases k
  {
    if k > 0 {
      RunShift(f, c1, b, k - 1);
      RunShift(g, c2, b, k - 1);
      var m := Mid(b);
      var bf, bg := Step(f, c1, b), Step(g, c2, b);
      if f(c1, m) == g(c2, m) {
        MidpointOrdered(f, c1, g, c2, bf, k - 1);
      } else {
        assert !f(c1, m) && g(c2, m);
        RunWithin(f, c1, bf, k - 1);
        RunWithin(g, c2, bg, k - 1);
      }
    }
  }

  /** A search against a more permissive oracle never returns a smaller alpha. */
  lemma SearchOrdered(f: Oracle, c1: int, g: Oracle, c2: int, tol: real)
    requires 0.0 < tol < 1.0
    requires forall a :: f(c1, a) ==> g(c2, a)
    ensures SearchSpec(f, c1, tol).Some? && SearchSpec(g, c2, tol).Some?
    ensures SearchSpec(f, c1, tol).value <= SearchSpec(g, c2, tol).value
  {
    SearchResultIsEndpoint(f, c1, tol);
    SearchResultIsEndpoint(g, c2, tol);
    MidpointOrdered(f, c1, g, c2, Initial, Iterations(tol) - 1);
  }

  /** If raising the count by one never loses feasibility between c1 and c2,
      the search at c2 returns at least the alpha found at c1. */
  lemma {:induction false} SearchMonotoneInCount(feasible: Oracle, c1: int, c2: int, tol: real)
    requires 0.0 < tol < 1.0 && c1 <= c2
    requires forall c, a :: c1 <= c < c2 && feasible(c, a) ==> feasible(c + 1, a)
    ensures SearchSpec(feasible, c1, tol).Some? && SearchSpec(feasible, c2, tol).Some?
    ensures SearchSpec(feasible, c1, tol).value <= SearchSpec(feasible, c2, tol).value
    decreases c2 - c1
  {
    SearchResultIsEndpoint(feasible, c1, tol);
    if c1 < c2 {
      SearchOrdered(feasible, c1, feasible, c1 + 1, tol);
      SearchMonotoneInCount(feasible, c1 + 1, c2, tol);
    }
  }
}
