/**
 The contract of Go's sort.SliceStable: the result is the input read through a
 permutation, ordered by `less`, and elements that `less` does not separate keep their
 original relative order.
 */
module StableSort {

  /** `less` is a strict weak order, as sort.SliceStable demands of its caller. */
  ghost predicate StrictWeak<T(!new)>(less: (T, T) -> bool) {
    && (forall x :: !less(x, x))
    && (forall x, y, z :: less(x, y) && less(y, z) ==> less(x, z))
    && (forall x, y, z :: less(x, z) ==> less(x, y) || less(y, z))
  }

  /** Every index below n occurs in p exactly once. */
  ghost predicate IsPermutation(p: seq<nat>, n: nat) {
    && |p| == n
    && (forall i :: 0 <= i < n ==> p[i] < n)
    && (forall i, j :: 0 <= i < j < n ==> p[i] != p[j])
    && (forall k :: 0 <= k < n ==> k in p)
  }

  ghost predicate IsStableSort<T(!new)>(less: (T, T) -> bool, s: seq<T>, r: seq<T>, p: seq<nat>) {
    && IsPermutation(p, |s|)
    && |r| == |s|
    && (forall i :: 0 <= i < |r| ==> r[i] == s[p[i]])
    && (forall i, j :: 0 <= i < j < |r| ==> !less(r[j], r[i]) && (less(r[i], r[j]) || p[i] < p[j]))
  }

  /** Inserts index k behind every index whose element is not greater. */
  function InsertIndex<T>(less: (T, T) -> bool, s: seq<T>, p: seq<nat>, k: nat): seq<nat>
    requires k < |s| && forall i :: 0 <= i < |p| ==> p[i] < |s|
  {
    if p == [] || !less(s[k], s[p[|p| - 1]]) then p + [k]
    else InsertIndex(less, s, p[..|p| - 1], k) + [p[|p| - 1]]
  }

  function SortIndices<T>(less: (T, T) -> bool, s: seq<T>, n: nat): (p: seq<nat>)
    requires n <= |s|
    ensures |p| == n && forall i :: 0 <= i < |p| ==> p[i] < n
  {
    if n == 0 then [] else
    var q := SortIndices(less, s, n - 1);
    InsertIndexBounds(less, s, q, n - 1, n);
    InsertIndex(less, s, q, n - 1)
  }

  lemma {:induction false} InsertIndexBounds<T>(less: (T, T) -> bool, s: seq<T>, p: seq<nat>, k: nat, n: nat)
    requires k < n <= |s| && forall i :: 0 <= i < |p| ==> p[i] < n
    ensures |InsertIndex(less, s, p, k)| == |p| + 1
    ensures forall i :: 0 <= i < |p| + 1 ==> InsertIndex(less, s, p, k)[i] < n
  {
    if p != [] && less(s[k], s[p[|p| - 1]]) {
      InsertIndexBounds(less, s, p[..|p| - 1], k, n);
    }
  }

  /** The stably sorted sequence. */
  function SortBy<T>(less: (T, T) -> bool, s: seq<T>): seq<T> {
    var p := SortIndices(less, s, |s|);
    seq(|s|, i requires 0 <= i < |s| => s[p[i]])
  }

  /** Indices in p are ordered by their elements, ties by the index itself. */
  ghost predicate Ordered<T(!new)>(less: (T, T) -> bool, s: seq<T>, p: seq<nat>)
    requires forall i :: 0 <= i < |p| ==> p[i] < |s|
  {
    forall i, j :: 0 <= i < j < |p| ==>
      !less(s[p[j]], s[p[i]]) && (less(s[p[i]], s[p[j]]) || p[i] < p[j])
  }

  lemma {:induction false} InsertIndexMembers<T>(less: (T, T) -> bool, s: seq<T>, p: seq<nat>, k: nat)
    requires k < |s| && forall i :: 0 <= i < |p| ==> p[i] < |s|
    ensures forall x :: x in InsertIndex(less, s, p, k) <==> x in p || x == k
  {
    if p != [] && less(s[k], s[p[|p| - 1]]) {
      var front := p[..|p| - 1];
      InsertIndexMembers(less, s, front, k);
      assert p == front + [p[|p| - 1]];
    }
  }

  lemma AppendKeepsOrder<T(!new)>(less: (T, T) -> bool, s: seq<T>, p: seq<nat>, k: nat)
    requires k < |s| && (forall i :: 0 <= i < |p| ==> p[i] < |s|) && Ordered(less, s, p)
    requires forall x :: x in p ==> !less(s[k], s[x]) && (less(s[x], s[k]) || x < k)
    ensures Ordered(less, s, p + [k])
  {
    assert forall i :: 0 <= i < |p| ==> p[i] in p;
  }

  lemma FrontAndLast<T(!new)>(less: (T, T) -> bool, s: seq<T>, p: seq<nat>, front: seq<nat>, last: nat)
    requires last < |s| && (forall i :: 0 <= i < |p| ==> p[i] < |s|) && Ordered(less, s, p) && p == front + [last]
    ensures (forall i :: 0 <= i < |front| ==> front[i] == p[i]) && Ordered(less, s, front)
    ensures forall x :: x in front ==> x < |s| && !less(s[last], s[x]) && (less(s[x], s[last]) || x < last)
    ensures forall x :: x in p <==> x in front || x == last
  {
    forall x | x in front
      ensures x < |s| && !less(s[last], s[x]) && (less(s[x], s[last]) || x < last)
    {
      var i :| 0 <= i < |front| && front[i] == x;
      assert p[i] == x && p[|p| - 1] == last;
    }
    assert forall i :: 0 <= i < |front| ==> front[i] == p[i];
    assert p[|p| - 1] == last;
  }

  lemma {:induction false} InsertIndexOrdered<T(!new)>(less: (T, T) -> bool, s: seq<T>, p: seq<nat>, k: nat)
    requires StrictWeak(less) && k < |s| && (forall i :: 0 <= i < |p| ==> p[i] < k)
    requires Ordered(less, s, p)
    ensures (forall i :: 0 <= i < |InsertIndex(less, s, p, k)| ==> InsertIndex(less, s, p, k)[i] < |s|)
    ensures Ordered(less, s, InsertIndex(less, s, p, k))
  {
    InsertIndexBounds(less, s, p, k, k + 1);
    if p != [] {
      var front, last := p[..|p| - 1], p[|p| - 1];
      FrontAndLast(less, s, p, front, last);
      if less(s[k], s[last]) {
        InsertIndexOrdered(less, s, front, k);
        InsertIndexMembers(less, s, front, k);
        InsertIndexBounds(less, s, front, k, k + 1);
        AppendKeepsOrder(less, s, InsertIndex(less, s, front, k), last);
      } else {
        AppendKeepsOrder(less, s, p, k);
      }
    }
  }

  lemma SortIndicesStep<T>(less: (T, T) -> bool, s: seq<T>, n: nat, k: nat, q: seq<nat>)
    requires n == k + 1 <= |s| && q == SortIndices(less, s, k)
    ensures SortIndices(less, s, n) == InsertIndex(less, s, q, k)
  {
  }

  lemma {:induction false} SortIndicesComplete<T>(less: (T, T) -> bool, s: seq<T>, n: nat)
    requires n <= |s|
    ensures forall k :: 0 <= k < n ==> k in SortIndices(less, s, n)
  {
    if n > 0 {
      var k := n - 1;
      var q := SortIndices(less, s, k);
      SortIndicesComplete(less, s, k);
      SortIndicesStep(less, s, n, k, q);
      InsertIndexMembers(less, s, q, k);
    }
  }

  lemma {:induction false} SortIndicesOrdered<T(!new)>(less: (T, T) -> bool, s: seq<T>, n: nat)
    requires StrictWeak(less) && n <= |s|
    ensures Ordered(less, s, SortIndices(less, s, n))
  {
    if n > 0 {
      var k := n - 1;
      var q := SortIndices(less, s, k);
      SortIndicesOrdered(less, s, k);
      SortIndicesStep(less, s, n, k, q);
      InsertIndexOrdered(less, s, q, k);
    }
  }

  /** SortBy meets the documented contract of sort.SliceStable. */
  lemma SortByIsStable<T(!new)>(less: (T, T) -> bool, s: seq<T>)
    requires StrictWeak(less)
    ensures IsStableSort(less, s, SortBy(less, s), SortIndices(less, s, |s|))
  {
    SortIndicesOrdered(less, s, |s|);
    SortIndicesComplete(less, s, |s|);
  }

  /** Orders by `major`, and by `minor` where `major` does not separate. */
  function Lexicographic<T>(major: (T, T) -> bool, minor: (T, T) -> bool): (T, T) -> bool {
    (x, y) => major(x, y) || (!major(y, x) && minor(x, y))
  }

  /** Sorting by the minor key and then stably by the major key sorts lexicographically. */
  lemma StableSortsCompose<T(!new)>(
    major: (T, T) -> bool, minor: (T, T) -> bool,
    s: seq<T>, r1: seq<T>, p1: seq<nat>, r2: seq<T>, p2: seq<nat>)
    requires IsStableSort(minor, s, r1, p1) && IsStableSort(major, r1, r2, p2)
    ensures var p := seq(|s|, i requires 0 <= i < |s| => p1[p2[i]]);
      IsStableSort(Lexicographic(major, minor), s, r2, p)
  {
    var p := seq(|s|, i requires 0 <= i < |s| => p1[p2[i]]);
    forall k | 0 <= k < |s|
      ensures k in p
    {
      assert k in p1;
      var i :| 0 <= i < |s| && p1[i] == k;
      assert i in p2;
      var j :| 0 <= j < |s| && p2[j] == i;
      assert p[j] == k;
    }
  }

  /** Two stable sorts of one sequence are equal: the result does not depend on the algorithm. */
  lemma {:induction false} StableSortIsUnique<T(!new)>(
    less: (T, T) -> bool, s: seq<T>, r: seq<T>, p: seq<nat>, r': seq<T>, p': seq<nat>)
    requires StrictWeak(less)
    requires IsStableSort(less, s, r, p) && IsStableSort(less, s, r', p')
    ensures p == p' && r == r'
  {
    forall i | 0 <= i < |s|
      ensures p[i] == p'[i]
    {
      SamePosition(less, s, r, p, r', p', i);
    }
  }

  lemma {:induction false} SamePosition<T(!new)>(
    less: (T, T) -> bool, s: seq<T>, r: seq<T>, p: seq<nat>, r': seq<T>, p': seq<nat>, i: nat)
    requires StrictWeak(less) && i < |s|
    requires IsStableSort(less, s, r, p) && IsStableSort(less, s, r', p')
    ensures p[i] == p'[i]
  {
    forall k | 0 <= k < i
      ensures p[k] == p'[k]
    {
      SamePosition(less, s, r, p, r', p', k);
    }
    assert p'[i] in p && p[i] in p';
    var a :| 0 <= a < |s| && p[a] == p'[i];
    var b :| 0 <= b < |s| && p'[b] == p[i];
    assert a >= i && b >= i;
    assert r[a] == r'[i] && r[i] == r'[b];
  }

  // ---------------------------------------------------------------- Sums

  /** The total weight of a sequence. */
  function SumOf<T>(s: seq<T>, weight: T -> nat): nat {
    if s == [] then 0 else SumOf(s[..|s| - 1], weight) + weight(s[|s| - 1])
  }

  lemma SumOfFew<T>(x: T, y: T, weight: T -> nat)
    ensures SumOf([x], weight) == weight(x) && SumOf([x, y], weight) == weight(x) + weight(y)
  {
    assert [x][..0] == [] && [x, y][..1] == [x];
  }

  function SumAt<T>(s: seq<T>, p: seq<nat>, weight: T -> nat): nat
    requires forall i :: 0 <= i < |p| ==> p[i] < |s|
  {
    if p == [] then 0 else SumAt(s, p[..|p| - 1], weight) + weight(s[p[|p| - 1]])
  }

  lemma {:induction false} InsertAddsWeight<T>(
    less: (T, T) -> bool, s: seq<T>, p: seq<nat>, k: nat, weight: T -> nat)
    requires k < |s| && forall i :: 0 <= i < |p| ==> p[i] < |s|
    ensures forall i :: 0 <= i < |InsertIndex(less, s, p, k)| ==> InsertIndex(less, s, p, k)[i] < |s|
    ensures SumAt(s, InsertIndex(less, s, p, k), weight) == SumAt(s, p, weight) + weight(s[k])
  {
    InsertIndexBounds(less, s, p, k, |s|);
    var q := InsertIndex(less, s, p, k);
    if p == [] || !less(s[k], s[p[|p| - 1]]) {
      assert q[..|q| - 1] == p;
    } else {
      InsertAddsWeight(less, s, p[..|p| - 1], k, weight);
      assert q[..|q| - 1] == InsertIndex(less, s, p[..|p| - 1], k);
    }
  }

  lemma {:induction false} SortedIndicesSum<T>(less: (T, T) -> bool, s: seq<T>, n: nat, weight: T -> nat)
    requires n <= |s|
    ensures SumAt(s, SortIndices(less, s, n), weight) == SumOf(s[..n], weight)
  {
    if n > 0 {
      var k := n - 1;
      var q := SortIndices(less, s, k);
      SortedIndicesSum(less, s, k, weight);
      SortIndicesStep(less, s, n, k, q);
      InsertAddsWeight(less, s, q, k, weight);
      assert s[..n][..n - 1] == s[..n - 1];
    }
  }

  lemma {:induction false} SumThroughIndices<T>(s: seq<T>, p: seq<nat>, r: seq<T>, weight: T -> nat)
    requires |r| == |p| && forall i :: 0 <= i < |p| ==> p[i] < |s| && r[i] == s[p[i]]
    ensures SumOf(r, weight) == SumAt(s, p, weight)
  {
    if p != [] {
      SumThroughIndices(s, p[..|p| - 1], r[..|r| - 1], weight);
    }
  }

  /** Sorting conserves every total. */
  lemma SortKeepsSum<T>(less: (T, T) -> bool, s: seq<T>, weight: T -> nat)
    ensures SumOf(SortBy(less, s), weight) == SumOf(s, weight)
  {
    SortedIndicesSum(less, s, |s|, weight);
    SumThroughIndices(s, SortIndices(less, s, |s|), SortBy(less, s), weight);
    assert s[..|s|] == s;
  }
}
