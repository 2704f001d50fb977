/**
 * The removals of a minimal edit script between two sequences, the part of
 * Swift's `CollectionDifference` (`b.difference(from: a).removals`) that the
 * scanner uses: ascending offsets into `a` whose deletion leaves a longest
 * common subsequence of `a` and `b`.
 */
module SequenceDiff {

  predicate StrictlyIncreasing(xs: seq<nat>) {
    forall i, j | 0 <= i < j < |xs| :: xs[i] < xs[j]
  }

  /** A strictly increasing sequence of offsets inside [lo, hi) has at most hi - lo elements. */
  lemma {:induction false} StrictlyIncreasingLength(xs: seq<nat>, lo: int, hi: int)
    requires StrictlyIncreasing(xs)
    requires forall k | 0 <= k < |xs| :: lo <= xs[k] < hi
    ensures xs == [] || lo + |xs| <= hi
  {
    if xs != [] {
      StrictlyIncreasingLength(xs[1..], xs[0] + 1, hi);
    }
  }

  /** `x` can be obtained from `y` by deleting elements. */
  predicate IsSubsequence<T(==)>(x: seq<T>, y: seq<T>) {
    if x == [] then true
    else if y == [] then false
    else (x[0] == y[0] && IsSubsequence(x[1..], y[1..])) || IsSubsequence(x, y[1..])
  }

  /** The elements a[p], i <= p < |a|, whose offset p is not in `removed`, in order. */
  function KeptFrom<T>(a: seq<T>, removed: seq<nat>, i: nat): seq<T>
    decreases |a| - i
  {
    if i >= |a| then [] else (if i in removed then [] else [a[i]]) + KeptFrom(a, removed, i + 1)
  }

  /** What is left of `a` once the elements at the offsets in `removed` are deleted. */
  function Kept<T>(a: seq<T>, removed: seq<nat>): seq<T> {
    KeptFrom(a, removed, 0)
  }

  /** The offsets i, i+1, ..., n-1. */
  function Interval(i: nat, n: nat): (r: seq<nat>)
    requires i <= n
    ensures |r| == n - i && StrictlyIncreasing(r)
    ensures forall k | 0 <= k < |r| :: r[k] == i + k
  {
    seq(n - i, k => i + k)
  }

  /**
   * Removals that turn a[i..] into a longest common subsequence of a[i..] and
   * b[j..], found by the classic LCS recursion.
   */
  function RemovalsFrom<T(==)>(a: seq<T>, b: seq<T>, i: nat, j: nat): (r: seq<nat>)
    requires i <= |a| && j <= |b|
    ensures StrictlyIncreasing(r)
    ensures forall k | 0 <= k < |r| :: i <= r[k] < |a|
    ensures |r| <= |a| - i
    decreases |a| - i + |b| - j
  {
    if i == |a| then []
    else if j == |b| then Interval(i, |a|)
    else if a[i] == b[j] then RemovalsFrom(a, b, i + 1, j + 1)
    else
      var drop := [i] + RemovalsFrom(a, b, i + 1, j);
      var skip := RemovalsFrom(a, b, i, j + 1);
      if |drop| <= |skip| then drop else skip
  }

  /** Deleting the removals from a[i..] leaves a subsequence of b[j..]. */
  lemma {:induction false} RemovalsFromKeepCommon<T>(a: seq<T>, b: seq<T>, i: nat, j: nat)
    requires i <= |a| && j <= |b|
    ensures IsSubsequence(KeptFrom(a, RemovalsFrom(a, b, i, j), i), b[j..])
    decreases |a| - i + |b| - j
  {
    var r := RemovalsFrom(a, b, i, j);
    if i == |a| {
    } else if j == |b| {
      forall p | i <= p < |a| ensures p in r {
        assert r[p - i] == p;
      }
      KeptFromAllRemoved(a, r, i);
    } else if a[i] == b[j] {
      RemovalsFromKeepCommon(a, b, i + 1, j + 1);
      assert b[j..][1..] == b[j + 1..];
    } else {
      var rest := RemovalsFrom(a, b, i + 1, j);
      var drop := [i] + rest;
      if r == drop {
        RemovalsFromKeepCommon(a, b, i + 1, j);
        KeptFromIgnoresBelow(a, drop, rest, i + 1);
        assert i in drop;
        assert KeptFrom(a, drop, i) == KeptFrom(a, rest, i + 1);
      } else {
        RemovalsFromKeepCommon(a, b, i, j + 1);
        assert b[j..][1..] == b[j + 1..];
        SubsequenceOfTail(KeptFrom(a, r, i), b[j..]);
      }
    }
  }

  /** The removal offsets of `b.difference(from: a)`. */
  function Removals<T(==)>(a: seq<T>, b: seq<T>): (r: seq<nat>)
    ensures StrictlyIncreasing(r)
    ensures forall k | 0 <= k < |r| :: r[k] < |a|
    ensures IsSubsequence(Kept(a, r), b)
  {
    RemovalsFromKeepCommon(a, b, 0, 0);
    assert b[0..] == b;
    RemovalsFrom(a, b, 0, 0)
  }

  lemma {:induction false} KeptFromAllRemoved<T>(a: seq<T>, r: seq<nat>, i: nat)
    requires forall p | i <= p < |a| :: p in r
    ensures KeptFrom(a, r, i) == []
    decreases |a| - i
  {
    if i < |a| {
      KeptFromAllRemoved(a, r, i + 1);
    }
  }

  /** KeptFrom(a, r, i) depends only on the offsets of r that are at least i. */
  lemma {:induction false} KeptFromIgnoresBelow<T>(a: seq<T>, r1: seq<nat>, r2: seq<nat>, i: nat)
    requires forall p | i <= p :: (p in r1 <==> p in r2)
    ensures KeptFrom(a, r1, i) == KeptFrom(a, r2, i)
    decreases |a| - i
  {
    if i < |a| {
      KeptFromIgnoresBelow(a, r1, r2, i + 1);
    }
  }

  lemma SubsequenceOfTail<T>(x: seq<T>, y: seq<T>)
    requires y != [] && IsSubsequence(x, y[1..])
    ensures IsSubsequence(x, y)
  {
  }

  /** Dropping the head of both sequences keeps the subsequence relation. */
  lemma {:induction false} SubsequenceTails<T>(x: seq<T>, y: seq<T>)
    requires x != [] && IsSubsequence(x, y)
    ensures y != [] && IsSubsequence(x[1..], y[1..])
    decreases |y|
  {
    if !(x[0] == y[0] && IsSubsequence(x[1..], y[1..])) {
      SubsequenceTails(x, y[1..]);
      assert y[1..][1..] == y[2..];
      if x[1..] != [] {
        SubsequenceOfTail(x[1..], y[1..]);
      }
    }
  }

  lemma {:induction false} SubsequenceReflexive<T>(x: seq<T>)
    ensures IsSubsequence(x, x)
  {
    if x != [] {
      SubsequenceReflexive(x[1..]);
    }
  }

  /**
   * Minimality: no common subsequence of a[i..] and b[j..] is longer than
   * what the removals leave.
   */
  lemma {:induction false} RemovalsFromMinimal<T>(a: seq<T>, b: seq<T>, i: nat, j: nat, c: seq<T>)
    requires i <= |a| && j <= |b|
    requires IsSubsequence(c, a[i..]) && IsSubsequence(c, b[j..])
    ensures |RemovalsFrom(a, b, i, j)| + |c| <= |a| - i
    decreases |a| - i + |b| - j
  {
    if c == [] || i == |a| || j == |b| {
    } else if a[i] == b[j] {
      SubsequenceTails(c, a[i..]);
      SubsequenceTails(c, b[j..]);
      assert a[i..][1..] == a[i + 1..];
      assert b[j..][1..] == b[j + 1..];
      RemovalsFromMinimal(a, b, i + 1, j + 1, c[1..]);
    } else if c[0] != a[i] {
      assert a[i..][1..] == a[i + 1..];
      RemovalsFromMinimal(a, b, i + 1, j, c);
    } else {
      assert b[j..][1..] == b[j + 1..];
      RemovalsFromMinimal(a, b, i, j + 1, c);
    }
  }

  /** The removals are as few as possible: every common subsequence is at most as long as what is kept. */
  lemma RemovalsMinimal<T>(a: seq<T>, b: seq<T>, c: seq<T>)
    requires IsSubsequence(c, a) && IsSubsequence(c, b)
    ensures |Removals(a, b)| + |c| <= |a|
  {
    assert a[0..] == a && b[0..] == b;
    RemovalsFromMinimal(a, b, 0, 0, c);
  }

  /** Comparing a sequence with itself removes nothing. */
  lemma RemovalsOfIdentical<T>(a: seq<T>)
    ensures Removals(a, a) == []
  {
    SubsequenceReflexive(a);
    RemovalsMinimal(a, a, a);
  }
}
