/**
 * The descriptive statistics both statistics panels show: minimum, the
 * quartiles read off the sorted values at index floor(n·p), maximum and
 * arithmetic mean, plus the number of distinct values.
 */
module OrderStats {
  import opened Sums

  predicate Ascending(s: seq<real>) {
    forall i, j :: 0 <= i < j < |s| ==> s[i] <= s[j]
  }

  /** `x` put into its place in an ascending sequence. */
  function Insert(x: real, s: seq<real>): (r: seq<real>)
    requires Ascending(s)
    ensures |r| == |s| + 1
    ensures r[0] == if |s| == 0 || x <= s[0] then x else s[0]
    ensures Ascending(r)
    ensures multiset(r) == multiset(s) + multiset{x}
  {
    if |s| == 0 then [x]
    else if x <= s[0] then
      var r := [x] + s;
      assert Ascending(r) by {
        forall i, j | 0 <= i < j < |r| ensures r[i] <= r[j] {
          if i == 0 {
            assert s[0] <= s[j - 1];
          }
        }
      }
      r
    else
      assert s == [s[0]] + s[1..];
      var rest := Insert(x, s[1..]);
      var r := [s[0]] + rest;
      assert Ascending(r) by {
        forall i, j | 0 <= i < j < |r| ensures r[i] <= r[j] {
          if i == 0 {
            assert s[0] <= rest[0] <= rest[j - 1];
          } else {
            assert r[i] == rest[i - 1] && r[j] == rest[j - 1];
          }
        }
      }
      r
  }

  /** `[...values].sort((a, b) => a - b)`: the values in ascending numeric order. */
  function SortAscending(s: seq<real>): (r: seq<real>)
    ensures Ascending(r)
    ensures multiset(r) == multiset(s)
  {
    if |s| == 0 then []
    else
      assert s == s[..|s| - 1] + [s[|s| - 1]];
      Insert(s[|s| - 1], SortAscending(s[..|s| - 1]))
  }

  /** The head of an ascending sequence is at most every value of the same multiset. */
  lemma AscendingHeadIsLeast(a: seq<real>, b: seq<real>)
    requires Ascending(b) && |a| > 0 && |b| > 0
    requires multiset(a) == multiset(b)
    ensures b[0] <= a[0]
  {
    assert a[0] in multiset(b);
    var j :| 0 <= j < |b| && b[j] == a[0];
  }

  /** Removing equal heads from equal multisets leaves equal multisets. */
  lemma TailsAgree(a: seq<real>, b: seq<real>)
    requires |a| > 0 && |b| > 0 && a[0] == b[0]
    requires multiset(a) == multiset(b)
    ensures multiset(a[1..]) == multiset(b[1..])
  {
    assert a == [a[0]] + a[1..] && b == [b[0]] + b[1..];
    assert multiset(a) == multiset{a[0]} + multiset(a[1..]);
    assert multiset(b) == multiset{b[0]} + multiset(b[1..]);
    forall y ensures multiset(a[1..])[y] == multiset(b[1..])[y] {
      assert multiset(a)[y] == multiset{a[0]}[y] + multiset(a[1..])[y];
      assert multiset(b)[y] == multiset{b[0]}[y] + multiset(b[1..])[y];
    }
  }

  /** Two ascending arrangements of the same values are the same sequence: any correct sort gives the same quantiles. */
  lemma {:induction false} AscendingPermutationsAgree(a: seq<real>, b: seq<real>)
    requires Ascending(a) && Ascending(b)
    requires multiset(a) == multiset(b)
    ensures a == b
  {
    assert |a| == |multiset(a)| == |multiset(b)| == |b|;
    if |a| > 0 {
      AscendingHeadIsLeast(a, b);
      AscendingHeadIsLeast(b, a);
      TailsAgree(a, b);
      AscendingPermutationsAgree(a[1..], b[1..]);
      assert a == [a[0]] + a[1..] && b == [b[0]] + b[1..];
    }
  }

  /** Every value of `s` is at least `lo`. */
  predicate LowerBound(s: seq<real>, lo: real) {
    forall i :: 0 <= i < |s| ==> lo <= s[i]
  }

  /** Every value of `s` is at most `hi`. */
  predicate UpperBound(s: seq<real>, hi: real) {
    forall i :: 0 <= i < |s| ==> s[i] <= hi
  }

  /** `Math.min(...s)`. */
  function Min(s: seq<real>): (r: real)
    requires |s| > 0
    ensures r in s
    ensures LowerBound(s, r)
  {
    if |s| == 1 then s[0]
    else
      var m := Min(s[1..]);
      assert m in s;
      if s[0] < m then s[0] else m
  }

  /** `Math.max(...s)`. */
  function Max(s: seq<real>): (r: real)
    requires |s| > 0
    ensures r in s
    ensures UpperBound(s, r)
  {
    if |s| == 1 then s[0]
    else
      var m := Max(s[1..]);
      assert m in s;
      if s[0] > m then s[0] else m
  }

  /** The first of an ascending arrangement of `s` is the minimum of `s`. */
  lemma AscendingHeadIsMin(s: seq<real>, t: seq<real>)
    requires |s| > 0 && Ascending(t) && multiset(t) == multiset(s)
    ensures |t| == |s| && t[0] == Min(s)
  {
    assert |t| == |multiset(t)| == |multiset(s)| == |s|;
    assert t[0] in multiset(s);
    var i :| 0 <= i < |s| && s[i] == t[0];
    assert Min(s) <= s[i];
    assert Min(s) in multiset(t);
    var j :| 0 <= j < |t| && t[j] == Min(s);
    assert t[0] <= t[j];
  }

  /** The last of an ascending arrangement of `s` is the maximum of `s`. */
  lemma AscendingLastIsMax(s: seq<real>, t: seq<real>)
    requires |s| > 0 && Ascending(t) && multiset(t) == multiset(s)
    ensures |t| == |s| && t[|t| - 1] == Max(s)
  {
    assert |t| == |multiset(t)| == |multiset(s)| == |s|;
    assert t[|t| - 1] in multiset(s);
    var i :| 0 <= i < |s| && s[i] == t[|t| - 1];
    assert s[i] <= Max(s);
    assert Max(s) in multiset(t);
    var j :| 0 <= j < |t| && t[j] == Max(s);
    assert t[j] <= t[|t| - 1];
  }

  /** The sorted values start at the minimum and end at the maximum. */
  lemma SortedEnds(s: seq<real>)
    requires |s| > 0
    ensures |SortAscending(s)| == |s|
    ensures SortAscending(s)[0] == Min(s)
    ensures SortAscending(s)[|s| - 1] == Max(s)
  {
    AscendingHeadIsMin(s, SortAscending(s));
    AscendingLastIsMax(s, SortAscending(s));
  }

  /** `Math.floor(n * p)`, the index a quantile is read at; for 0 <= p < 1 it is a valid index. */
  function QuantileIndex(n: nat, p: real): (r: nat)
    requires n > 0 && 0.0 <= p < 1.0
    ensures r < n
    ensures r as real <= n as real * p < r as real + 1.0
  {
    assert 0.0 <= n as real * p < n as real by {
      assert n as real * (1.0 - p) > 0.0;
    }
    (n as real * p).Floor
  }

  /** A larger fraction never reads an earlier index. */
  lemma QuantileIndexMonotone(n: nat, p: real, q: real)
    requires n > 0 && 0.0 <= p <= q < 1.0
    ensures QuantileIndex(n, p) <= QuantileIndex(n, q)
  {
    assert n as real * p <= n as real * q by {
      assert n as real * (q - p) >= 0.0;
    }
  }

  const Q1 := 0.25
  const Median := 0.5
  const Q3 := 0.75

  /** `sorted[Math.floor(sorted.length * p)]`. */
  function Quantile(sorted: seq<real>, p: real): real
    requires |sorted| > 0 && 0.0 <= p < 1.0
  {
    sorted[QuantileIndex(|sorted|, p)]
  }

  /** `reduce((a, b) => a + b, 0) / length`. */
  function Mean(s: seq<real>): real
    requires |s| > 0
  {
    Sum(s) / |s| as real
  }

  /** The mean lies between the minimum and the maximum. */
  lemma MeanBounds(s: seq<real>)
    requires |s| > 0
    ensures Min(s) <= Mean(s) <= Max(s)
  {
    MeanBetween(s, Min(s), Max(s));
  }

  /** Values in [lo, hi] have their mean in [lo, hi]. */
  lemma MeanBetween(s: seq<real>, lo: real, hi: real)
    requires |s| > 0 && LowerBound(s, lo) && UpperBound(s, hi)
    ensures lo <= Mean(s) <= hi
  {
    var n, t := |s| as real, Sum(s);
    assert lo * n <= t <= hi * n by {
      SumBounds(s, lo, hi);
    }
    QuotientBounds(t, n, lo, hi);
  }

  datatype Stats = Stats(min: real, q1: real, median: real, q3: real, max: real, mean: real)

  /**
   * The statistics of a non-empty list. The five order statistics are values
   * of the list, they are in order, and the minimum and maximum bound every
   * value and the mean.
   */
  function Describe(nums: seq<real>): (r: Stats)
    requires |nums| > 0
    ensures r.min <= r.q1 <= r.median <= r.q3 <= r.max
    ensures r.min in nums && r.q1 in nums && r.median in nums && r.q3 in nums && r.max in nums
    ensures forall x :: x in nums ==> r.min <= x <= r.max
    ensures r.min <= r.mean <= r.max
  {
    var sorted := SortAscending(nums);
    SortedEnds(nums);
    MeanBounds(nums);
    var n := |nums|;
    var i1, i2, i3 := QuantileIndex(n, Q1), QuantileIndex(n, Median), QuantileIndex(n, Q3);
    QuantileIndexMonotone(n, Q1, Median);
    QuantileIndexMonotone(n, Median, Q3);
    assert multiset(sorted) == multiset(nums);
    assert sorted[i1] in multiset(nums) && sorted[i2] in multiset(nums) && sorted[i3] in multiset(nums);
    assert sorted[0] <= sorted[i1] <= sorted[i2] <= sorted[i3] <= sorted[n - 1];
    Stats(Min(nums), Quantile(sorted, Q1), Quantile(sorted, Median), Quantile(sorted, Q3), Max(nums), Mean(nums))
  }

  /**
   * The quartiles are read off the sorted list, not interpolated: for the
   * values 3, 1, 4, 2 they are 2, 3 and 4, so the median is the upper of the
   * two middle values rather than their average 2.5.
   */
  lemma QuartilesOfFourValues()
    ensures var r := Describe([3.0, 1.0, 4.0, 2.0]);
      r.min == 1.0 && r.q1 == 2.0 && r.median == 3.0 && r.q3 == 4.0 && r.max == 4.0
  {
    var s := [3.0, 1.0, 4.0, 2.0];
    var sorted := [1.0, 2.0, 3.0, 4.0];
    assert multiset(s) == multiset(sorted);
    assert Ascending(sorted);
    AscendingPermutationsAgree(SortAscending(s), sorted);
    SortedEnds(s);
    assert QuantileIndex(4, Q1) == 1 && QuantileIndex(4, Median) == 2 && QuantileIndex(4, Q3) == 3;
  }

  /** For the sorted input 1..8 the quartiles sit at indices 2, 4 and 6: the values 3, 5 and 7. */
  lemma QuartilesOfOneToEight()
    ensures var r := Describe([1.0, 2.0, 3.0, 4.0, 5.0, 6.0, 7.0, 8.0]);
      r.q1 == 3.0 && r.median == 5.0 && r.q3 == 7.0
  {
    var s := [1.0, 2.0, 3.0, 4.0, 5.0, 6.0, 7.0, 8.0];
    assert forall i :: 0 <= i < 8 ==> s[i] == (i + 1) as real;
    assert Ascending(s);
    AscendingPermutationsAgree(SortAscending(s), s);
    assert QuantileIndex(8, Q1) == 2 && QuantileIndex(8, Median) == 4 && QuantileIndex(8, Q3) == 6;
  }

  /** `new Set(values).size`. */
  function DistinctCount<T(==)>(s: seq<T>): nat {
    |set x | x in s|
  }

  /** There are at most as many distinct values as values, at least one if any, and exactly as many when no value repeats. */
  lemma {:induction false} DistinctCountBounds<T>(s: seq<T>)
    ensures DistinctCount(s) <= |s|
    ensures |s| > 0 ==> DistinctCount(s) >= 1
    ensures (forall i, j :: 0 <= i < j < |s| ==> s[i] != s[j]) ==> DistinctCount(s) == |s|
  {
    if |s| > 0 {
      var init := s[..|s| - 1];
      var last := s[|s| - 1];
      DistinctCountBounds(init);
      assert s == init + [last];
      assert (set x | x in s) == (set x | x in init) + {last};
      assert s[0] in (set x | x in s);
      if forall i, j :: 0 <= i < j < |s| ==> s[i] != s[j] {
        assert last !in (set x | x in init);
      }
    }
  }
}
