/** Ascending sort of a sequence of reals, as done by `sorted(values)`
    before the percentile is read off. */
module Sorting {

  /** Every element is at most every later element. */
  ghost predicate Sorted(s: seq<real>) {
    forall i, j :: 0 <= i < j < |s| ==> s[i] <= s[j]
  }

  /** `y` is a lower bound of every element of `s`. */
  ghost predicate AtMostAll(y: real, s: seq<real>) {
    forall k :: 0 <= k < |s| ==> y <= s[k]
  }

  /** A lower bound of a sorted sequence can be put in front of it. */
  lemma PrependSorted(y: real, s: seq<real>)
    requires Sorted(s) && AtMostAll(y, s)
    ensures Sorted([y] + s)
  {
  }

  /** A lower bound of `s` and of `x` bounds any arrangement of them. */
  lemma LowerBoundCarries(y: real, s: seq<real>, x: real, r: seq<real>)
    requires AtMostAll(y, s) && y <= x
    requires multiset(r) == multiset(s) + multiset{x}
    ensures AtMostAll(y, r)
  {
    forall k | 0 <= k < |r|
      ensures y <= r[k]
    {
      assert r[k] in multiset(r);
      assert r[k] in multiset(s) || r[k] == x;
    }
  }

  /** Inserts `x` into the sorted sequence `s`, keeping it sorted. */
  function Insert(x: real, s: seq<real>): (r: seq<real>)
    requires Sorted(s)
    ensures Sorted(r)
    ensures multiset(r) == multiset(s) + multiset{x}
    ensures |r| == |s| + 1
    decreases |s|
  {
    if |s| == 0 then [x]
    else if x <= s[0] then
      assert AtMostAll(x, s);
      [x] + s
    else
      var rest := Insert(x, s[1..]);
      assert s == [s[0]] + s[1..];
      assert AtMostAll(s[0], s[1..]);
      LowerBoundCarries(s[0], s[1..], x, rest);
      PrependSorted(s[0], rest);
      [s[0]] + rest
  }

  /** Sorts `s` ascending: the result is sorted and holds exactly the
      elements of `s`, with their multiplicities. */
  function Sort(s: seq<real>): (r: seq<real>)
    ensures Sorted(r)
    ensures multiset(r) == multiset(s)
    ensures |r| == |s|
  {
    if |s| == 0 then []
    else
      assert s == [s[0]] + s[1..];
      Insert(s[0], Sort(s[1..]))
  }

  /** The first element of a sorted sequence is its least element. */
  lemma LeastIsFirst(s: seq<real>, y: real)
    requires Sorted(s)
    requires y in multiset(s)
    ensures |s| > 0 && s[0] <= y
  {
    assert y in s;
  }

  /** Two sorted arrangements of one multiset start with the same value. */
  lemma SameHead(a: seq<real>, b: seq<real>)
    requires Sorted(a) && Sorted(b)
    requires multiset(a) == multiset(b)
    requires |a| > 0
    ensures |b| > 0 && a[0] == b[0]
  {
    assert a[0] in multiset(b);
    LeastIsFirst(b, a[0]);
    assert b[0] in multiset(a);
    LeastIsFirst(a, b[0]);
  }

  /** Removing a common first element leaves one multiset on both sides. */
  lemma SameTail(a: seq<real>, b: seq<real>)
    requires |a| > 0 && |b| > 0 && a[0] == b[0]
    requires multiset(a) == multiset(b)
    ensures multiset(a[1..]) == multiset(b[1..])
  {
    assert a == [a[0]] + a[1..];
    assert b == [b[0]] + b[1..];
    assert multiset(a[1..]) == multiset(a) - multiset{a[0]};
    assert multiset(b[1..]) == multiset(b) - multiset{b[0]};
  }

  /** Dropping the first element keeps a sequence sorted. */
  lemma SortedTail(s: seq<real>)
    requires Sorted(s) && |s| > 0
    ensures Sorted(s[1..])
  {
  }

  /** A sorted sequence is determined by its multiset of elements: two
      sorted arrangements of the same values are identical. */
  lemma {:induction false} SortedUnique(a: seq<real>, b: seq<real>)
    requires Sorted(a) && Sorted(b)
    requires multiset(a) == multiset(b)
    ensures a == b
    decreases |a|
  {
    assert |a| == |multiset(a)| == |multiset(b)| == |b|;
    if |a| > 0 {
      SameHead(a, b);
      SameTail(a, b);
      SortedTail(a);
      SortedTail(b);
      SortedUnique(a[1..], b[1..]);
      assert a == [a[0]] + a[1..];
      assert b == [b[0]] + b[1..];
    }
  }

  /** Sorting does not depend on the order of its input. */
  lemma SortOrderIndependent(a: seq<real>, b: seq<real>)
    requires multiset(a) == multiset(b)
    ensures Sort(a) == Sort(b)
  {
    SortedUnique(Sort(a), Sort(b));
  }
}
