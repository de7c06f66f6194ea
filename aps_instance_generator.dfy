/** aps_instance_generator.py: `round_distance` and the radius list of
    `make_radius` (before it is turned into JSON). Distances start as integers:
    the float rounding and the int32 cast that precede the integer arithmetic
    are not modelled. */
module InstanceGenerator {

  /** numpy's `//` on integers: floored division; a zero divisor gives 0
      (numpy warns instead of raising). Dafny's own `/` is Euclidean, which
      agrees with flooring for a positive divisor only. */
  function FloorDiv(a: int, b: int): (q: int)
    ensures b > 0 ==> q * b <= a < q * b + b
    ensures b < 0 ==> q * b + b < a <= q * b
    ensures b == 0 ==> q == 0
  {
    if b == 0 then 0
    else if b > 0 then
      assert a == b * (a / b) + a % b;
      a / b
    else
      assert -a == (-b) * ((-a) / (-b)) + (-a) % (-b);
      (-a) / (-b)
  }

  /** numpy's `%` on integers: the remainder of the floored division, with the
      sign of the divisor; a zero divisor gives 0. */
  function PyMod(a: int, b: int): (r: int)
    ensures b > 0 ==> 0 <= r < b
    ensures b < 0 ==> b < r <= 0
    ensures b == 0 ==> r == 0
  {
    if b == 0 then 0 else a - b * FloorDiv(a, b)
  }

  /** `val -= val % order` on one entry. The result is a multiple of order
      (with quotient `v // order`): the largest one not above v for a positive
      order (v - order < r <= v), the smallest one not below v for a negative
      order; a zero order leaves v as it is. */
  function RoundDown(v: int, order: int): (r: int)
    ensures order != 0 ==> r == order * FloorDiv(v, order)
    ensures order > 0 ==> v - order < r <= v
    ensures order < 0 ==> v <= r < v - order
    ensures order == 0 ==> r == v
  {
    v - PyMod(v, order)
  }

  /** Euclidean division undoes a multiplication by a positive divisor. */
  lemma DivMulCancel(b: int, q: int)
    requires b > 0
    ensures (b * q) / b == q
  {
    var a := b * q;
    var d := q - a / b;
    assert b * d == a % b by {
      assert a == b * (a / b) + a % b;
      assert b * q - b * (a / b) == b * (q - a / b);
    }
    if d >= 1 {
      assert false;
    } else if d <= -1 {
      assert false;
    }
  }

  /** A multiple of a non-zero order is its own rounding. */
  lemma RoundDownMultiple(order: int, q: int)
    requires order != 0
    ensures RoundDown(order * q, order) == order * q
  {
    if order > 0 {
      DivMulCancel(order, q);
    } else {
      assert -(order * q) == (-order) * q;
      DivMulCancel(-order, q);
    }
  }

  /** An entry already rounded is left unchanged: rounding is idempotent. */
  lemma RoundDownIdempotent(v: int, order: int)
    ensures RoundDown(RoundDown(v, order), order) == RoundDown(v, order)
  {
    if order != 0 {
      RoundDownMultiple(order, FloorDiv(v, order));
    }
  }

  /** `round_distance(val, order)`, entry by entry. */
  function RoundDistance(m: seq<seq<int>>, order: int): (r: seq<seq<int>>)
    ensures |r| == |m| && forall i :: 0 <= i < |m| ==> |r[i]| == |m[i]|
    ensures forall i, j :: 0 <= i < |m| && 0 <= j < |m[i]| ==> r[i][j] == RoundDown(m[i][j], order)
  {
    seq(|m|, i requires 0 <= i < |m| =>
      seq(|m[i]|, j requires 0 <= j < |m[i]| => RoundDown(m[i][j], order)))
  }

  /** Rounding a rounded matrix changes nothing. */
  lemma RoundDistanceIdempotent(m: seq<seq<int>>, order: int)
    ensures RoundDistance(RoundDistance(m, order), order) == RoundDistance(m, order)
  {
    var r := RoundDistance(m, order);
    var rr := RoundDistance(r, order);
    forall i | 0 <= i < |m| ensures rr[i] == r[i] {
      forall j | 0 <= j < |m[i]| ensures rr[i][j] == r[i][j] {
        RoundDownIdempotent(m[i][j], order);
      }
    }
  }

  // -----------------------------------------------------------------------
  // The histogram.

  /** The entries of a matrix, row after row. */
  function Flatten(m: seq<seq<int>>): seq<int>
  {
    if |m| == 0 then [] else Flatten(m[..|m| - 1]) + m[|m| - 1]
  }

  predicate Distinct(s: seq<int>)
  {
    forall i, j :: 0 <= i < j < |s| ==> s[i] != s[j]
  }

  /** `count` and its keys in insertion order record the values of `seen`:
      each key once, counted as often as it occurs. */
  ghost predicate Tally(count: map<int, nat>, keys: seq<int>, seen: seq<int>)
  {
    && Distinct(keys)
    && (forall d :: d in count <==> d in keys)
    && (forall d :: d in keys <==> d in seen)
    && (forall d :: d in count ==> count[d] == multiset(seen)[d])
  }

  /** One pass of the inner loop body: `count[d] += 1`, or on KeyError
      `count[d] = 1` (which appends d to the keys). */
  lemma TallyStep(count: map<int, nat>, keys: seq<int>, seen: seq<int>, d: int)
    requires Tally(count, keys, seen)
    ensures d in count ==> Tally(count[d := count[d] + 1], keys, seen + [d])
    ensures d !in count ==> Tally(count[d := 1], keys + [d], seen + [d])
  {
    assert multiset(seen + [d]) == multiset(seen) + multiset{d};
  }

  /** The nested loop that fills `count`: every value of the matrix becomes a
      key, once, counted as often as it occurs. The order of the keys is not
      specified; the radius list does not depend on it. */
  method Histogram(m: seq<seq<int>>) returns (count: map<int, nat>, keys: seq<int>)
    ensures Distinct(keys)
    ensures forall d :: d in count <==> d in keys
    ensures forall d :: d in keys <==> d in Flatten(m)
    ensures forall d :: d in count ==> count[d] == multiset(Flatten(m))[d]
  {
    count := map[];
    keys := [];
    ghost var seen: seq<int> := [];
    for r := 0 to |m|
      invariant seen == Flatten(m[..r])
      invariant Tally(count, keys, seen)
    {
      var row := m[r];
      for c := 0 to |row|
        invariant seen == Flatten(m[..r]) + row[..c]
        invariant Tally(count, keys, seen)
      {
        var d := row[c];
        TallyStep(count, keys, seen, d);
        if d in count {
          count := count[d := count[d] + 1];
        } else {
          count := count[d := 1];
          keys := keys + [d];
        }
        seen := seen + [d];
        assert row[..c + 1] == row[..c] + [d];
      }
      assert row[..|row|] == row;
      assert m[..r + 1][..r] == m[..r];
    }
    assert m[..|m|] == m;
  }

  /** `list(count.items())`: the pairs in key order. */
  function Items(count: map<int, nat>, keys: seq<int>): (items: seq<(int, nat)>)
    requires forall i :: 0 <= i < |keys| ==> keys[i] in count
    ensures |items| == |keys|
    ensures forall i :: 0 <= i < |keys| ==> items[i] == (keys[i], count[keys[i]])
  {
    seq(|keys|, i requires 0 <= i < |keys| => (keys[i], count[keys[i]]))
  }

  // -----------------------------------------------------------------------
  // The two sorts (Python's stable list.sort) and the filter.

  predicate CountsNonIncreasing(s: seq<(int, nat)>)
  {
    forall i, j :: 0 <= i < j < |s| ==> s[i].1 >= s[j].1
  }

  /** Insert before the first pair whose count is at most p's. The sort below
      inserts each pair into the sorted rest of the list, so a pair goes ahead
      of the later pairs with the same count: ties keep their input order, as
      in a stable sort. */
  function InsertByCount(p: (int, nat), s: seq<(int, nat)>): (r: seq<(int, nat)>)
    ensures multiset(r) == multiset(s) + multiset{p}
  {
    if |s| == 0 then [p]
    else if p.1 >= s[0].1 then [p] + s
    else
      assert s == [s[0]] + s[1..];
      [s[0]] + InsertByCount(p, s[1..])
  }

  /** `count_list.sort(key=lambda x: -x[1])`: a permutation of the pairs. */
  function SortByCountDesc(s: seq<(int, nat)>): (r: seq<(int, nat)>)
    ensures multiset(r) == multiset(s)
  {
    if |s| == 0 then []
    else
      assert s == [s[0]] + s[1..];
      InsertByCount(s[0], SortByCountDesc(s[1..]))
  }

  lemma {:induction false} InsertByCountOrdered(p: (int, nat), s: seq<(int, nat)>)
    requires CountsNonIncreasing(s)
    ensures CountsNonIncreasing(InsertByCount(p, s))
  {
    if |s| > 0 && p.1 < s[0].1 {
      var t := InsertByCount(p, s[1..]);
      InsertByCountOrdered(p, s[1..]);
      forall q | q in t ensures q.1 <= s[0].1 {
        assert q in multiset(t);
        if q != p {
          assert q in s[1..];
        }
      }
    }
  }

  /** The frequency sort orders the pairs by non-increasing count. */
  lemma {:induction false} SortByCountDescOrdered(s: seq<(int, nat)>)
    ensures CountsNonIncreasing(SortByCountDesc(s))
  {
    if |s| > 0 {
      SortByCountDescOrdered(s[1..]);
      InsertByCountOrdered(s[0], SortByCountDesc(s[1..]));
    }
  }

  /** The first components of the pairs. */
  function KeysOf(items: seq<(int, nat)>): (r: seq<int>)
    ensures |r| == |items| && forall i :: 0 <= i < |items| ==> r[i] == items[i].0
  {
    seq(|items|, i requires 0 <= i < |items| => items[i].0)
  }

  /** `[int(x) for x, _ in count_list if x]`. */
  function NonZeroKeys(items: seq<(int, nat)>): (r: seq<int>)
    ensures forall v :: v in r <==> v != 0 && v in KeysOf(items)
  {
    if |items| == 0 then []
    else
      assert KeysOf(items) == [items[0].0] + KeysOf(items[1..]);
      (if items[0].0 != 0 then [items[0].0] else []) + NonZeroKeys(items[1..])
  }

  predicate Sorted(s: seq<int>)
  {
    forall i, j :: 0 <= i < j < |s| ==> s[i] <= s[j]
  }

  predicate StrictlyIncreasing(s: seq<int>)
  {
    forall i, j :: 0 <= i < j < |s| ==> s[i] < s[j]
  }

  predicate AllAtLeast(s: seq<int>, b: int)
  {
    forall i :: 0 <= i < |s| ==> b <= s[i]
  }

  function InsertAscending(x: int, s: seq<int>): (r: seq<int>)
    ensures multiset(r) == multiset(s) + multiset{x}
  {
    if |s| == 0 then [x]
    else if x <= s[0] then [x] + s
    else
      assert s == [s[0]] + s[1..];
      [s[0]] + InsertAscending(x, s[1..])
  }

  /** `radius_list.sort()`: a permutation (proved sorted below). */
  function SortAscending(s: seq<int>): (r: seq<int>)
    ensures multiset(r) == multiset(s)
  {
    if |s| == 0 then []
    else
      assert s == [s[0]] + s[1..];
      InsertAscending(s[0], SortAscending(s[1..]))
  }

  lemma {:induction false} InsertAscendingAtLeast(x: int, s: seq<int>, b: int)
    requires AllAtLeast(s, b) && b <= x
    ensures AllAtLeast(InsertAscending(x, s), b)
  {
    if |s| > 0 && x > s[0] {
      InsertAscendingAtLeast(x, s[1..], b);
    }
  }

  lemma {:induction false} InsertAscendingSorted(x: int, s: seq<int>)
    requires Sorted(s)
    ensures Sorted(InsertAscending(x, s))
  {
    if |s| > 0 && x > s[0] {
      var t := InsertAscending(x, s[1..]);
      InsertAscendingSorted(x, s[1..]);
      InsertAscendingAtLeast(x, s[1..], s[0]);
      var r := [s[0]] + t;
      forall i, j | 0 <= i < j < |r| ensures r[i] <= r[j] {
        assert r[j] == t[j - 1];
        if i > 0 {
          assert r[i] == t[i - 1];
        }
      }
    }
  }

  lemma {:induction false} SortAscendingSorted(s: seq<int>)
    ensures Sorted(SortAscending(s))
  {
    if |s| > 0 {
      SortAscendingSorted(s[1..]);
      InsertAscendingSorted(s[0], SortAscending(s[1..]));
    }
  }

  /** Every value occurs at most once. */
  ghost predicate AtMostOnce(s: seq<int>)
  {
    forall v :: multiset(s)[v] <= 1
  }

  lemma TwoOccurrences(s: seq<int>, i: nat, j: nat)
    requires i < j < |s| && s[i] == s[j]
    ensures multiset(s)[s[i]] >= 2
  {
    var a, b := s[..j], s[j..];
    assert s == a + b;
    assert s[i] == a[i] && s[j] == b[0];
    assert multiset(a)[s[i]] >= 1 && multiset(b)[s[i]] >= 1;
  }

  /** A sorted sequence whose values occur at most once increases strictly. */
  lemma SortedOnceIncreasing(s: seq<int>)
    requires Sorted(s) && AtMostOnce(s)
    ensures StrictlyIncreasing(s)
  {
    forall i, j | 0 <= i < j < |s| ensures s[i] < s[j] {
      if s[i] == s[j] {
        TwoOccurrences(s, i, j);
        assert false;
      }
    }
  }

  lemma {:induction false} DistinctAtMostOnce(s: seq<int>)
    requires Distinct(s)
    ensures AtMostOnce(s)
  {
    if |s| > 0 {
      DistinctAtMostOnce(s[1..]);
      assert s == [s[0]] + s[1..];
      assert s[0] !in s[1..];
    }
  }

  // -----------------------------------------------------------------------
  // Why the frequency sort does not matter.

  lemma SortedHeadIsLeast(a: seq<int>, v: int)
    requires Sorted(a) && v in multiset(a)
    ensures |a| > 0 && a[0] <= v
  {
    var k :| 0 <= k < |a| && a[k] == v;
  }

  lemma MultisetTail<T>(a: seq<T>)
    requires |a| > 0
    ensures multiset(a[1..]) == multiset(a) - multiset{a[0]}
  {
    assert a == [a[0]] + a[1..];
  }

  lemma SortedTail(a: seq<int>)
    requires Sorted(a) && |a| > 0
    ensures Sorted(a[1..])
  {
  }

  lemma ConsEqual(a: seq<int>, b: seq<int>)
    requires |a| > 0 && |b| > 0 && a[0] == b[0] && a[1..] == b[1..]
    ensures a == b
  {
    assert a == [a[0]] + a[1..] && b == [b[0]] + b[1..];
  }

  /** Two sorted sequences with the same elements are equal. */
  lemma {:induction false} SortedUnique(a: seq<int>, b: seq<int>)
    requires Sorted(a) && Sorted(b) && multiset(a) == multiset(b)
    ensures a == b
  {
    if |a| == 0 {
      assert |b| == |multiset(b)|;
    } else {
      assert a[0] in multiset(a);
      SortedHeadIsLeast(b, a[0]);
      assert b[0] in multiset(b);
      SortedHeadIsLeast(a, b[0]);
      MultisetTail(a);
      MultisetTail(b);
      SortedTail(a);
      SortedTail(b);
      SortedUnique(a[1..], b[1..]);
      ConsEqual(a, b);
    }
  }

  lemma {:induction false} NonZeroKeysAppend(s: seq<(int, nat)>, t: seq<(int, nat)>)
    ensures NonZeroKeys(s + t) == NonZeroKeys(s) + NonZeroKeys(t)
  {
    if |s| > 0 {
      assert (s + t)[1..] == s[1..] + t;
      NonZeroKeysAppend(s[1..], t);
    } else {
      assert s + t == t;
    }
  }

  /** Taking the pair at k out of t leaves the rest of its multiset; the
      filtered keys of t split around that pair. */
  lemma RemoveAt<T>(t: seq<T>, k: nat)
    requires k < |t|
    ensures t == t[..k] + ([t[k]] + t[k + 1..])
    ensures multiset(t[..k] + t[k + 1..]) == multiset(t) - multiset{t[k]}
  {
    assert t == t[..k] + ([t[k]] + t[k + 1..]);
  }

  lemma RemoveAtKeys(t1: seq<(int, nat)>, p: (int, nat), t2: seq<(int, nat)>)
    ensures multiset(NonZeroKeys(t1 + ([p] + t2)))
      == multiset(NonZeroKeys([p])) + multiset(NonZeroKeys(t1 + t2))
  {
    NonZeroKeysAppend(t1, [p] + t2);
    NonZeroKeysAppend([p], t2);
    NonZeroKeysAppend(t1, t2);
  }

  /** Reordering the pairs reorders the filtered keys and nothing more. */
  lemma {:induction false} NonZeroKeysPermutation(s: seq<(int, nat)>, t: seq<(int, nat)>)
    requires multiset(s) == multiset(t)
    ensures multiset(NonZeroKeys(s)) == multiset(NonZeroKeys(t))
    decreases |s|
  {
    if |s| == 0 {
      assert |t| == |multiset(t)|;
    } else {
      var p := s[0];
      assert p in multiset(t);
      var k :| 0 <= k < |t| && t[k] == p;
      RemoveAt(t, k);
      RemoveAtKeys(t[..k], p, t[k + 1..]);
      MultisetTail(s);
      NonZeroKeysPermutation(s[1..], t[..k] + t[k + 1..]);
      NonZeroKeysAppend([p], s[1..]);
      assert s == [p] + s[1..];
    }
  }

  /** The radius list is the same whether or not the pairs are first sorted by
      frequency: the final ascending sort decides the order alone. */
  lemma FrequencySortIrrelevant(items: seq<(int, nat)>)
    ensures SortAscending(NonZeroKeys(SortByCountDesc(items))) == SortAscending(NonZeroKeys(items))
  {
    NonZeroKeysPermutation(SortByCountDesc(items), items);
    SortAscendingSorted(NonZeroKeys(SortByCountDesc(items)));
    SortAscendingSorted(NonZeroKeys(items));
    SortedUnique(SortAscending(NonZeroKeys(SortByCountDesc(items))), SortAscending(NonZeroKeys(items)));
  }

  lemma {:induction false} NonZeroKeysDistinct(items: seq<(int, nat)>)
    requires Distinct(KeysOf(items))
    ensures Distinct(NonZeroKeys(items))
  {
    if |items| > 0 {
      var keys, rest := KeysOf(items), KeysOf(items[1..]);
      assert keys == [items[0].0] + rest;
      assert Distinct(rest);
      assert items[0].0 !in rest;
      NonZeroKeysDistinct(items[1..]);
    }
  }

  /** From distinct keys, the filtered and sorted list increases strictly and
      holds exactly the non-zero keys. */
  lemma RadiusList(items: seq<(int, nat)>)
    requires Distinct(KeysOf(items))
    ensures StrictlyIncreasing(SortAscending(NonZeroKeys(items)))
    ensures forall v :: v in SortAscending(NonZeroKeys(items)) <==> v != 0 && v in KeysOf(items)
  {
    var r := SortAscending(NonZeroKeys(items));
    NonZeroKeysDistinct(items);
    DistinctAtMostOnce(NonZeroKeys(items));
    SortAscendingSorted(NonZeroKeys(items));
    SortedOnceIncreasing(r);
    forall v ensures v in r <==> v in NonZeroKeys(items) {
      assert v in r <==> v in multiset(r);
    }
  }

  /** Every key the histogram lists is in its map. */
  lemma KeysInCount(count: map<int, nat>, keys: seq<int>)
    requires forall d :: d in count <==> d in keys
    ensures forall i :: 0 <= i < |keys| ==> keys[i] in count
  {
    forall i | 0 <= i < |keys| ensures keys[i] in count {
      var d := keys[i];
      assert d in keys;
      assert d in count <==> d in keys;
    }
  }

  /** The pipeline after the histogram: items, frequency sort, filter, sort. */
  lemma RadiusFromHistogram(count: map<int, nat>, keys: seq<int>)
    requires Distinct(keys) && forall i :: 0 <= i < |keys| ==> keys[i] in count
    ensures var r := SortAscending(NonZeroKeys(SortByCountDesc(Items(count, keys))));
      && StrictlyIncreasing(r)
      && forall v :: v in r <==> v != 0 && v in keys
  {
    var items := Items(count, keys);
    FrequencySortIrrelevant(items);
    assert KeysOf(items) == keys;
    RadiusList(items);
  }

  /** `make_radius(distances, order)` without the final `json.dumps`: the
      distinct non-zero values of the rounded matrix, in increasing order. */
  method MakeRadius(distances: seq<seq<int>>, order: int) returns (radius: seq<int>)
    ensures StrictlyIncreasing(radius)
    ensures forall v :: v in radius <==> v != 0 && v in Flatten(RoundDistance(distances, order))
  {
    var rounded := RoundDistance(distances, order);
    var count, keys := Histogram(rounded);
    KeysInCount(count, keys);
    RadiusFromHistogram(count, keys);
    var countList := Items(count, keys);
    countList := SortByCountDesc(countList);
    var radiusList := NonZeroKeys(countList);
    radiusList := SortAscending(radiusList);
    radius := radiusList;
  }
}
