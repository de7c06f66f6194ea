/** utils/math_utils.py: the reach matrix every coverage model is built from.
    aps_loc.py carries a verbatim copy of the same function. */
module MathUtils {

  /** `compute_reach_coefficent(distances, time)`: an element-wise `<=` test cast
      to int8, giving a 0/1 matrix of exactly the shape of `distances`. */
  function ReachCoefficient(distances: seq<seq<real>>, time: real): (r: seq<seq<int>>)
    ensures |r| == |distances|
    ensures forall i :: 0 <= i < |r| ==> |r[i]| == |distances[i]|
    ensures forall i, j :: 0 <= i < |r| && 0 <= j < |r[i]| ==>
      (r[i][j] == 0 || r[i][j] == 1) && (r[i][j] == 1 <==> distances[i][j] <= time)
  {
    seq(|distances|, i requires 0 <= i < |distances| =>
      seq(|distances[i]|, j requires 0 <= j < |distances[i]| =>
        if distances[i][j] <= time then 1 else 0))
  }

  /** A distance equal to the threshold is reachable: the test is `<=`. */
  lemma ReachBoundary(distances: seq<seq<real>>, time: real, i: nat, j: nat)
    requires i < |distances| && j < |distances[i]| && distances[i][j] == time
    ensures ReachCoefficient(distances, time)[i][j] == 1
  {
  }

  /** A larger threshold reaches at least as much, entry by entry. */
  lemma ReachMonotone(distances: seq<seq<real>>, t1: real, t2: real)
    requires t1 <= t2
    ensures forall i, j :: 0 <= i < |distances| && 0 <= j < |distances[i]| ==>
      ReachCoefficient(distances, t1)[i][j] <= ReachCoefficient(distances, t2)[i][j]
  {
  }
}
