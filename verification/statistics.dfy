/** Sums, arithmetic means and strict threshold counts over sequences of
    reals, and the fact that none of them depends on the order of the
    values. */
module Statistics {

  /** Left-to-right sum, as Python's `sum` adds a list starting from 0. */
  function Sum(s: seq<real>): real
    decreases |s|
  {
    if |s| == 0 then 0.0 else Sum(s[..|s| - 1]) + s[|s| - 1]
  }

  /** The sum of a concatenation is the sum of its parts. */
  lemma {:induction false} SumAppend(a: seq<real>, b: seq<real>)
    ensures Sum(a + b) == Sum(a) + Sum(b)
    decreases |b|
  {
    if |b| > 0 {
      assert (a + b)[..|a + b| - 1] == a + b[..|b| - 1];
      SumAppend(a, b[..|b| - 1]);
    } else {
      assert a + b == a;
    }
  }

  /** If every value exceeds `m`, the sum exceeds `|s| * m`; if every value
      is below `m`, the sum is below it. */
  lemma {:induction false} SumBounds(s: seq<real>, m: real)
    ensures (forall i :: 0 <= i < |s| ==> m < s[i]) && |s| > 0 ==> (|s| as real) * m < Sum(s)
    ensures (forall i :: 0 <= i < |s| ==> s[i] < m) && |s| > 0 ==> Sum(s) < (|s| as real) * m
    decreases |s|
  {
    if |s| > 1 {
      var p := s[..|s| - 1];
      SumBounds(p, m);
      assert forall i :: 0 <= i < |p| ==> p[i] == s[i];
    }
  }

  /** `v` lies between the least and the greatest value of `s`: some value
      is at most `v` and some value is at least `v`. */
  ghost predicate InRange(s: seq<real>, v: real) {
    (exists i :: 0 <= i < |s| && s[i] <= v) && (exists j :: 0 <= j < |s| && v <= s[j])
  }

  /** Arithmetic mean, `sum(s) / len(s)`. It lies between the least and the
      greatest value. */
  function Mean(s: seq<real>): (m: real)
    requires |s| > 0
    ensures InRange(s, m)
  {
    var n := |s| as real;
    var m := Sum(s) / n;
    assert n * m == Sum(s);
    SumBounds(s, m);
    m
  }

  /** Number of values strictly greater than `t`. */
  function CountAbove(s: seq<real>, t: real): (c: nat)
    ensures c <= |s|
    decreases |s|
  {
    if |s| == 0 then 0
    else CountAbove(s[..|s| - 1], t) + (if s[|s| - 1] > t then 1 else 0)
  }

  /** The positions of `s` holding a value strictly above `t`. */
  ghost function PositionsAbove(s: seq<real>, t: real): set<int> {
    set i | 0 <= i < |s| && s[i] > t
  }

  /** Appending a value adds its position exactly when it is above `t`. */
  lemma PositionsAboveStep(s: seq<real>, t: real)
    requires |s| > 0
    ensures var T := PositionsAbove(s[..|s| - 1], t);
            PositionsAbove(s, t) == if s[|s| - 1] > t then T + {|s| - 1} else T
  {
  }

  /** The strict count equals the number of positions holding a value above
      the threshold, so a value equal to the threshold is never counted. */
  lemma {:induction false} CountAboveIsIndexCount(s: seq<real>, t: real)
    ensures CountAbove(s, t) == |PositionsAbove(s, t)|
    decreases |s|
  {
    if |s| == 0 {
      assert PositionsAbove(s, t) == {};
    } else {
      var p := s[..|s| - 1];
      CountAboveIsIndexCount(p, t);
      PositionsAboveStep(s, t);
      assert |p| !in PositionsAbove(p, t);
    }
  }

  /** The strict count of a concatenation is the count of its parts. */
  lemma {:induction false} CountAboveAppend(a: seq<real>, b: seq<real>, t: real)
    ensures CountAbove(a + b, t) == CountAbove(a, t) + CountAbove(b, t)
    decreases |b|
  {
    if |b| > 0 {
      assert (a + b)[..|a + b| - 1] == a + b[..|b| - 1];
      CountAboveAppend(a, b[..|b| - 1], t);
    } else {
      assert a + b == a;
    }
  }

  /** Removing the element at `j` leaves a sequence whose multiset is the
      original one minus that element. */
  lemma RemoveAt<T>(b: seq<T>, j: nat)
    requires j < |b|
    ensures b == b[..j] + [b[j]] + b[j + 1..]
    ensures multiset(b[..j] + b[j + 1..]) == multiset(b) - multiset{b[j]}
  {
    assert b == b[..j] + [b[j]] + b[j + 1..];
  }

  /** For two arrangements of the same multiset, the last element of the
      first occurs in the second at some position `j`, and what remains on
      both sides is again one multiset. */
  lemma MatchLast<T>(a: seq<T>, b: seq<T>) returns (j: nat)
    requires multiset(a) == multiset(b)
    requires |a| > 0
    ensures j < |b| && b[j] == a[|a| - 1]
    ensures multiset(a[..|a| - 1]) == multiset(b[..j] + b[j + 1..])
  {
    var x := a[|a| - 1];
    assert a == a[..|a| - 1] + [x];
    assert x in multiset(b);
    j :| 0 <= j < |b| && b[j] == x;
    RemoveAt(b, j);
  }

  /** The sum does not depend on the order of the values. */
  lemma {:induction false} SumPermutation(a: seq<real>, b: seq<real>)
    requires multiset(a) == multiset(b)
    ensures Sum(a) == Sum(b)
    decreases |a|
  {
    if |a| == 0 {
      assert |b| == |multiset(b)| == 0;
    } else {
      var j := MatchLast(a, b);
      var rest := b[..j] + b[j + 1..];
      SumPermutation(a[..|a| - 1], rest);
      RemoveAt(b, j);
      SumAppend(b[..j] + [b[j]], b[j + 1..]);
      SumAppend(b[..j], [b[j]]);
      SumAppend(b[..j], b[j + 1..]);
    }
  }

  /** The strict count does not depend on the order of the values. */
  lemma {:induction false} CountAbovePermutation(a: seq<real>, b: seq<real>, t: real)
    requires multiset(a) == multiset(b)
    ensures CountAbove(a, t) == CountAbove(b, t)
    decreases |a|
  {
    if |a| == 0 {
      assert |b| == |multiset(b)| == 0;
    } else {
      var j := MatchLast(a, b);
      var rest := b[..j] + b[j + 1..];
      CountAbovePermutation(a[..|a| - 1], rest, t);
      RemoveAt(b, j);
      CountAboveAppend(b[..j] + [b[j]], b[j + 1..], t);
      CountAboveAppend(b[..j], [b[j]], t);
      CountAboveAppend(b[..j], b[j + 1..], t);
    }
  }

  /** The mean does not depend on the order of the values. */
  lemma MeanPermutation(a: seq<real>, b: seq<real>)
    requires |a| > 0
    requires multiset(a) == multiset(b)
    ensures |b| == |a| && Mean(a) == Mean(b)
  {
    assert |a| == |multiset(a)| == |multiset(b)| == |b|;
    SumPermutation(a, b);
  }

  /** The values `f(s[0]), ..., f(s[|s|-1])`: a field read off every record. */
  function Project<T>(s: seq<T>, f: T -> real): (r: seq<real>)
    ensures |r| == |s|
    ensures forall i :: 0 <= i < |s| ==> r[i] == f(s[i])
  {
    seq(|s|, i requires 0 <= i < |s| => f(s[i]))
  }

  /** Projecting two arrangements of the same multiset gives two
      arrangements of the same multiset of values. */
  lemma {:induction false} ProjectPermutation<T>(a: seq<T>, b: seq<T>, f: T -> real)
    requires multiset(a) == multiset(b)
    ensures multiset(Project(a, f)) == multiset(Project(b, f))
    decreases |a|
  {
    if |a| == 0 {
      assert |b| == |multiset(b)| == 0;
    } else {
      var j := MatchLast(a, b);
      var rest := b[..j] + b[j + 1..];
      ProjectPermutation(a[..|a| - 1], rest, f);
      assert Project(a, f) == Project(a[..|a| - 1], f) + [f(a[|a| - 1])];
      assert Project(b, f) == Project(b[..j], f) + [f(b[j])] + Project(b[j + 1..], f);
      assert Project(rest, f) == Project(b[..j], f) + Project(b[j + 1..], f);
    }
  }
}
