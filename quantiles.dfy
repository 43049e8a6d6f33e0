/** Sorting and the closest-observation sample quantile: definition 3 of Hyndman and
    Fan, "Sample Quantiles in Statistical Packages" (1996), which always returns one of
    the observed values. */
module Quantiles {

  ghost predicate Sorted(s: seq<real>) {
    forall i, j :: 0 <= i <= j < |s| ==> s[i] <= s[j]
  }

  /** Inserts x into a sorted sequence before its first element that is not below x. */
  function Insert(x: real, s: seq<real>): (r: seq<real>)
    requires Sorted(s)
    ensures Sorted(r)
    ensures multiset(r) == multiset(s) + multiset{x}
  {
    if s == [] || x <= s[0] then [x] + s
    else
      var rest := Insert(x, s[1..]);
      assert s == [s[0]] + s[1..];
      assert forall k :: 0 <= k < |rest| ==> s[0] <= rest[k] by {
        forall k | 0 <= k < |rest|
          ensures s[0] <= rest[k]
        {
          assert rest[k] in multiset(rest);
          if rest[k] != x {
            assert rest[k] in multiset(s[1..]);
            var m :| 0 <= m < |s[1..]| && s[1..][m] == rest[k];
            assert s[m + 1] == rest[k];
          }
        }
      }
      [s[0]] + rest
  }

  /** The values of s in ascending order. */
  function Sort(s: seq<real>): (r: seq<real>)
    ensures Sorted(r)
    ensures multiset(r) == multiset(s)
    ensures |r| == |s|
  {
    if s == [] then []
    else
      assert s == [s[0]] + s[1..];
      Insert(s[0], Sort(s[1..]))
  }

  /** The 0-based position, among n sorted values, of the order statistic whose 1-based
      rank is x / 100 rounded to the nearest integer, a half rounded to the even
      neighbour, and raised to 1 when it would be 0. */
  function NearestRankIndex(n: nat, x: int): (k: nat)
    requires n > 0 && 0 <= x <= 100 * n
    ensures k < n
    ensures x < 50 ==> k == 0
    ensures x >= 50 ==> -50 <= 100 * (k + 1) - x <= 50
    ensures x > 50 && (100 * (k + 1) - x == 50 || 100 * (k + 1) - x == -50) ==> (k + 1) % 2 == 0
  {
    var whole, frac := x / 100, x % 100;
    var rank :=
      if frac < 50 then whole
      else if frac > 50 then whole + 1
      else if whole % 2 == 0 then whole
      else whole + 1;
    if rank < 1 then 0 else rank - 1
  }

  /** Scaling by a natural number keeps the order of non-negative numbers. */
  lemma {:induction false} ScaleMonotone(n: nat, a: int, b: int)
    requires 0 <= a <= b
    ensures 0 <= n * a <= n * b
    ensures n * b == b * n
  {
    if n > 0 {
      ScaleMonotone(n - 1, a, b);
      assert n * a == (n - 1) * a + a && n * b == (n - 1) * b + b;
    }
  }

  /** The 0-based position, among n sorted values, of the order statistic that the
      closest-observation method picks for the q-th percentile: the rank nearest to
      n * q / 100. */
  function ClosestObservationIndex(n: nat, q: int): (k: nat)
    requires n > 0 && 0 <= q <= 100
    ensures k < n
    ensures n * q < 50 ==> k == 0
    ensures n * q >= 50 ==> -50 <= 100 * (k + 1) - n * q <= 50
    ensures n * q > 50 && (100 * (k + 1) - n * q == 50 || 100 * (k + 1) - n * q == -50) ==> (k + 1) % 2 == 0
  {
    ScaleMonotone(n, q, 100);
    NearestRankIndex(n, n * q)
  }

  /** The q-th percentile of a non-empty sample by the closest-observation method. */
  function ClosestObservation(values: seq<real>, q: int): (v: real)
    requires |values| > 0 && 0 <= q <= 100
    ensures v in values
  {
    var sorted := Sort(values);
    var v := sorted[ClosestObservationIndex(|values|, q)];
    assert v in multiset(sorted);
    v
  }

  lemma NearestRankIndexMonotone(n: nat, x1: int, x2: int)
    requires n > 0 && 0 <= x1 <= x2 <= 100 * n
    ensures NearestRankIndex(n, x1) <= NearestRankIndex(n, x2)
  {
    var w1, w2 := x1 / 100, x2 / 100;
    assert w1 <= w2;
    if w1 == w2 {
      assert x1 % 100 <= x2 % 100;
    }
  }

  lemma ClosestObservationIndexMonotone(n: nat, q1: int, q2: int)
    requires n > 0 && 0 <= q1 <= q2 <= 100
    ensures ClosestObservationIndex(n, q1) <= ClosestObservationIndex(n, q2)
  {
    ScaleMonotone(n, q1, q2);
    ScaleMonotone(n, q2, 100);
    NearestRankIndexMonotone(n, n * q1, n * q2);
  }

  /** A lower percentile never exceeds a higher one. */
  lemma ClosestObservationMonotone(values: seq<real>, q1: int, q2: int)
    requires |values| > 0 && 0 <= q1 <= 100 && 0 <= q2 <= 100
    ensures q1 <= q2 ==> ClosestObservation(values, q1) <= ClosestObservation(values, q2)
  {
    if q1 <= q2 {
      ClosestObservationIndexMonotone(|values|, q1, q2);
    }
  }

  /** The 0th percentile is the smallest value and the 100th the largest. */
  lemma ClosestObservationExtremes(values: seq<real>, v: real)
    requires v in values
    ensures ClosestObservation(values, 0) <= v <= ClosestObservation(values, 100)
  {
    var sorted := Sort(values);
    assert v in multiset(sorted);
    var k :| 0 <= k < |sorted| && sorted[k] == v;
    assert ClosestObservationIndex(|values|, 0) == 0;
    assert ClosestObservationIndex(|values|, 100) == |values| - 1;
  }

  /** Sorting an already sorted sequence leaves it unchanged. */
  lemma {:induction false} SortSortedIsIdentity(s: seq<real>)
    requires Sorted(s)
    ensures Sort(s) == s
  {
    if s != [] {
      assert Sorted(s[1..]);
      SortSortedIsIdentity(s[1..]);
      assert s == [s[0]] + s[1..];
    }
  }

  lemma FiveSampleIndexes()
    ensures ClosestObservationIndex(5, 50) == 1
    ensures ClosestObservationIndex(5, 80) == 3
    ensures ClosestObservationIndex(5, 95) == 4
  {
    assert NearestRankIndex(5, 250) == 1;
    assert NearestRankIndex(5, 400) == 3;
    assert NearestRankIndex(5, 475) == 4;
  }

  /** Five travel times 10, 10, 10, 10, 20: the 50th and the 80th percentiles are 10 and
      the 95th is 20. */
  lemma FiveSampleExample()
    ensures ClosestObservation([10.0, 10.0, 10.0, 10.0, 20.0], 50) == 10.0
    ensures ClosestObservation([10.0, 10.0, 10.0, 10.0, 20.0], 80) == 10.0
    ensures ClosestObservation([10.0, 10.0, 10.0, 10.0, 20.0], 95) == 20.0
  {
    var s := [10.0, 10.0, 10.0, 10.0, 20.0];
    assert Sorted(s) by {
      forall i, j | 0 <= i <= j < 5 ensures s[i] <= s[j] {}
    }
    SortSortedIsIdentity(s);
    FiveSampleIndexes();
    assert Sort(s)[1] == 10.0 && Sort(s)[3] == 10.0 && Sort(s)[4] == 20.0;
  }
}
