/** `percentile_95`: the 95th percentile by linear interpolation between
    the two closest ranks of the sorted values. The factor 0.95 is taken as
    the exact rational 19/20. */
module Percentile {
  import opened Sorting
  import opened Statistics

  /** The zero-based real rank `k = (n - 1) * 0.95`. */
  function Rank(n: nat): real
    requires n >= 1
  {
    (n - 1) as real * (19.0 / 20.0)
  }

  /** The floor of the rank: the largest index not above it. */
  function FloorRank(n: nat): int
    requires n >= 1
  {
    Rank(n).Floor
  }

  /** The ceiling of the rank: the floor, plus one unless the rank is a
      whole number. */
  function CeilRank(n: nat): int
    requires n >= 1
  {
    var f := Rank(n).Floor;
    if f as real == Rank(n) then f else f + 1
  }

  /** Both ranks are valid indices of a list of `n` values and at most one
      apart. In integer terms, with `19 * (n - 1) == 20 * q + r`: the floor
      is `q`, the ceiling is `q` when `r == 0` and `q + 1` otherwise, and
      the interpolation weight `k - floor(k)` is exactly `r / 20`. */
  lemma RankIndices(n: nat)
    requires n >= 1
    ensures 0 <= FloorRank(n) <= CeilRank(n) <= n - 1
    ensures CeilRank(n) - FloorRank(n) <= 1
    ensures FloorRank(n) == (19 * (n - 1)) / 20
    ensures FloorRank(n) == CeilRank(n) <==> (19 * (n - 1)) % 20 == 0
    ensures (19 * (n - 1)) % 20 != 0 ==> CeilRank(n) == FloorRank(n) + 1
    ensures Rank(n) - FloorRank(n) as real == ((19 * (n - 1)) % 20) as real / 20.0
  {
    var q := (19 * (n - 1)) / 20;
    var r := (19 * (n - 1)) % 20;
    assert 19 * (n - 1) == 20 * q + r && 0 <= r < 20;
    assert Rank(n) == q as real + r as real / 20.0;
    assert Rank(n).Floor == q;
    assert r != 0 ==> q + 1 <= n - 1;
  }

  /** The interpolated value read off an already sorted, non-empty list. It
      lies between the two neighbouring sorted values at the floor and
      ceiling ranks, and is exactly the value fixed by the integer form of
      the rank: writing `19 * (n - 1) == 20 * q + r`, the value at `q` when
      `r == 0`, and otherwise the point `r / 20` of the way from the value at
      `q` to the value at `q + 1`. */
  function Interpolate(vals: seq<real>): (p: real)
    requires Sorted(vals)
    requires |vals| > 0
    ensures 0 <= FloorRank(|vals|) <= CeilRank(|vals|) < |vals|
    ensures vals[FloorRank(|vals|)] <= p <= vals[CeilRank(|vals|)]
    ensures InterpolatedAtRank(vals, p)
  {
    var n := |vals|;
    RankIndices(n);
    var k := Rank(n);
    var f := FloorRank(n);
    var c := CeilRank(n);
    if f == c then vals[k.Floor]
    else
      var d := k - f as real;
      assert 0.0 < d < 1.0;
      assert d == ((19 * (n - 1)) % 20) as real / 20.0;
      Between(vals[f], vals[c], d);
      Lerp(vals[f], vals[c], d)
  }

  /** The point a fraction `w` of the way from `lo` to `hi`. */
  function Lerp(lo: real, hi: real, w: real): real {
    lo + (hi - lo) * w
  }

  /** `p` is the linear interpolation at rank `19 * (n - 1) / 20` of the
      non-empty list `vals`, stated with integer quotient `q` and remainder
      `r` of `19 * (n - 1)` by 20. */
  ghost predicate InterpolatedAtRank(vals: seq<real>, p: real) {
    var q := (19 * (|vals| - 1)) / 20;
    var r := (19 * (|vals| - 1)) % 20;
    && 0 <= q < |vals|
    && (r != 0 ==> q + 1 < |vals|)
    && p == if r == 0 then vals[q] else Lerp(vals[q], vals[q + 1], r as real / 20.0)
  }

  /** Linear interpolation with a weight in [0, 1] stays between its ends. */
  lemma Between(lo: real, hi: real, d: real)
    requires lo <= hi
    requires 0.0 <= d <= 1.0
    ensures lo <= Lerp(lo, hi, d) <= hi
  {
    var m := (hi - lo) * d;
    ScaledDown(hi - lo, d);
    assert Lerp(lo, hi, d) == lo + m;
  }

  /** A non-negative amount scaled by a weight in [0, 1] stays within
      [0, amount]. */
  lemma ScaledDown(a: real, d: real)
    requires 0.0 <= a
    requires 0.0 <= d <= 1.0
    ensures 0.0 <= a * d <= a
  {
    assert a * d <= a * 1.0;
  }

  /** `percentile_95(values)`: 0.0 for an empty list, otherwise the
      interpolated value of the sorted list. A non-empty result lies between
      the least and the greatest input value. */
  function Percentile95(values: seq<real>): (p: real)
    ensures |values| == 0 ==> p == 0.0
    ensures |values| > 0 ==> InRange(values, p)
  {
    if |values| == 0 then 0.0
    else
      var vals := Sort(values);
      var p := Interpolate(vals);
      assert vals[FloorRank(|vals|)] in multiset(values);
      assert vals[CeilRank(|vals|)] in multiset(values);
      p
  }

  /** Against any sorted arrangement `vals` of the input, the result lies
      between the values at the floor and the ceiling rank, equals the value
      at the floor rank when the rank is a whole number, and otherwise is the
      interpolation with weight `(19 * (n - 1)) % 20 / 20` between the
      values at `19 * (n - 1) / 20` and the next index. */
  lemma Percentile95Bracket(values: seq<real>, vals: seq<real>)
    requires |values| > 0
    requires Sorted(vals) && multiset(vals) == multiset(values)
    ensures |vals| == |values|
    ensures 0 <= FloorRank(|vals|) <= CeilRank(|vals|) < |vals|
    ensures vals[FloorRank(|vals|)] <= Percentile95(values) <= vals[CeilRank(|vals|)]
    ensures (19 * (|vals| - 1)) % 20 == 0 ==> Percentile95(values) == vals[FloorRank(|vals|)]
    ensures InterpolatedAtRank(vals, Percentile95(values))
  {
    assert |vals| == |multiset(vals)| == |multiset(values)| == |values|;
    SortedUnique(Sort(values), vals);
    RankIndices(|vals|);
  }

  /** A single value is its own 95th percentile. */
  lemma Percentile95Singleton(x: real)
    ensures Percentile95([x]) == x
  {
    assert Sort([x]) == [x];
    assert Rank(1) == 0.0;
  }

  /** The result depends only on the multiset of values, not their order. */
  lemma Percentile95OrderIndependent(a: seq<real>, b: seq<real>)
    requires multiset(a) == multiset(b)
    ensures Percentile95(a) == Percentile95(b)
  {
    assert |a| == |multiset(a)| == |multiset(b)| == |b|;
    SortOrderIndependent(a, b);
  }
}
