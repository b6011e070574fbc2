/**
 * Python's `random.shuffle`: for i from n - 1 down to 1, draw j in 0..i and
 * swap positions i and j. The draws are a parameter: `swaps[k]` is the j
 * drawn at the k-th step, when i == n - 1 - k.
 */
module Shuffling {
  import opened Sequences

  /**
   * The draws a shuffle of `n` elements makes: none when n <= 1, otherwise
   * one draw j <= n - 1 for position n - 1 followed by the draws of a
   * shuffle of the first n - 1 elements.
   */
  predicate ValidSwaps(swaps: seq<nat>, n: nat) {
    if n <= 1 then swaps == []
    else |swaps| == n - 1 && swaps[0] <= n - 1 && ValidSwaps(swaps[1..], n - 1)
  }

  lemma ValidSwapsTail(swaps: seq<nat>, n: nat)
    requires n > 1 && ValidSwaps(swaps, n)
    ensures ValidSwaps(swaps[1..], n - 1)
  {
  }

  lemma ValidSwapsCons(j: nat, rest: seq<nat>, n: nat)
    requires n > 1 && j < n && ValidSwaps(rest, n - 1)
    ensures ValidSwaps([j] + rest, n)
  {
    assert ([j] + rest)[1..] == rest;
  }

  function Swap<T>(s: seq<T>, i: nat, j: nat): (r: seq<T>)
    requires i < |s| && j < |s|
    ensures |r| == |s|
  {
    s[i := s[j]][j := s[i]]
  }

  lemma SwapPermutes<T>(s: seq<T>, i: nat, j: nat)
    requires i < |s| && j < |s|
    ensures multiset(Swap(s, i, j)) == multiset(s)
  {
  }

  /**
   * The shuffle as a function: after the first swap the last position is
   * final and the rest of the shuffle works on the prefix before it.
   */
  function FisherYates<T>(s: seq<T>, swaps: seq<nat>): (r: seq<T>)
    requires ValidSwaps(swaps, |s|)
    ensures |r| == |s|
    decreases |s|
  {
    if |s| <= 1 then s
    else
      var last := |s| - 1;
      var t := Swap(s, last, swaps[0]);
      ValidSwapsTail(swaps, |s|);
      FisherYates(t[..last], swaps[1..]) + [t[last]]
  }

  /** The shuffle only reorders: same length, same multiset of elements. */
  lemma {:induction false} FisherYatesPermutes<T>(s: seq<T>, swaps: seq<nat>)
    requires ValidSwaps(swaps, |s|)
    ensures |FisherYates(s, swaps)| == |s|
    ensures multiset(FisherYates(s, swaps)) == multiset(s)
    decreases |s|
  {
    if |s| > 1 {
      var last := |s| - 1;
      var t := Swap(s, last, swaps[0]);
      FisherYatesPermutes(t[..last], swaps[1..]);
      assert t == t[..last] + [t[last]];
      SwapPermutes(s, last, swaps[0]);
    }
  }

  /** The element in the last position is the one the first draw picked. */
  lemma FisherYatesLast<T>(s: seq<T>, swaps: seq<nat>)
    requires |s| > 1 && ValidSwaps(swaps, |s|)
    ensures FisherYates(s, swaps)[|s| - 1] == s[swaps[0]]
  {
    var last := |s| - 1;
    var t := Swap(s, last, swaps[0]);
    FisherYatesPermutes(t[..last], swaps[1..]);
  }

  /**
   * Putting the last element of `target` last leaves a prefix with the same
   * multiset as the rest of `target`.
   */
  lemma PlaceLast<T>(s: seq<T>, target: seq<T>, j: nat)
    requires multiset(target) == multiset(s) && |target| == |s| > 1
    requires j < |s| && s[j] == target[|s| - 1]
    ensures multiset(Swap(s, |s| - 1, j)[..|s| - 1]) == multiset(target[..|s| - 1])
  {
    var last, x := |s| - 1, s[j];
    var t := Swap(s, last, j);
    SwapPermutes(s, last, j);
    assert t == t[..last] + [x];
    assert target == target[..last] + [x];
    assert multiset(t[..last]) == multiset(t) - multiset{x};
    assert multiset(target[..last]) == multiset(target) - multiset{x};
  }

  lemma ShortPermutation<T>(s: seq<T>, target: seq<T>)
    requires multiset(target) == multiset(s) && |s| <= 1
    ensures target == s
  {
    assert |target| == |multiset(target)| == |multiset(s)| == |s|;
    if |s| == 1 {
      assert target[0] in multiset(s);
    }
  }

  /** A first draw that puts the right element last, followed by draws that arrange the rest. */
  lemma ReachStep<T>(s: seq<T>, target: seq<T>, j: nat, rest: seq<nat>)
    requires |target| == |s| > 1 && j < |s| && s[j] == target[|s| - 1]
    requires ValidSwaps(rest, |s| - 1)
    requires FisherYates(Swap(s, |s| - 1, j)[..|s| - 1], rest) == target[..|s| - 1]
    ensures ValidSwaps([j] + rest, |s|) && FisherYates(s, [j] + rest) == target
  {
    var last, swaps := |s| - 1, [j] + rest;
    ValidSwapsCons(j, rest, |s|);
    assert swaps[0] == j && swaps[1..] == rest;
    assert FisherYates(s, swaps) == target[..last] + [target[last]];
    assert target[..last] + [target[last]] == target;
  }

  /**
   * Every rearrangement of `s` is produced by some sequence of draws: the
   * shuffle can reach every permutation.
   */
  lemma {:induction false} FisherYatesReachesAll<T>(s: seq<T>, target: seq<T>)
    requires multiset(target) == multiset(s)
    ensures exists swaps :: ValidSwaps(swaps, |s|) && FisherYates(s, swaps) == target
    decreases |s|
  {
    var n := |s|;
    assert |target| == |multiset(target)| == |multiset(s)| == n;
    if n <= 1 {
      ShortPermutation(s, target);
      assert ValidSwaps([], n) && FisherYates(s, []) == target;
    } else {
      var last := n - 1;
      assert target[last] in multiset(s);
      var j :| 0 <= j < n && s[j] == target[last];
      PlaceLast(s, target, j);
      var prefix := Swap(s, last, j)[..last];
      FisherYatesReachesAll(prefix, target[..last]);
      var rest :| ValidSwaps(rest, last) && FisherYates(prefix, rest) == target[..last];
      ReachStep(s, target, j, rest);
    }
  }

  /**
   * On duplicate-free input, different draws give different results; with
   * FisherYatesReachesAll, the draws and the arrangements correspond one to
   * one, so uniform draws give a uniform permutation.
   */
  lemma {:induction false} FisherYatesInjective<T>(s: seq<T>, swaps1: seq<nat>, swaps2: seq<nat>)
    requires Distinct(s)
    requires ValidSwaps(swaps1, |s|) && ValidSwaps(swaps2, |s|)
    requires FisherYates(s, swaps1) == FisherYates(s, swaps2)
    ensures swaps1 == swaps2
    decreases |s|
  {
    if |s| > 1 {
      var last := |s| - 1;
      FisherYatesLast(s, swaps1);
      FisherYatesLast(s, swaps2);
      assert swaps1[0] == swaps2[0];
      var t := Swap(s, last, swaps1[0]);
      SwapPermutes(s, last, swaps1[0]);
      PermutationKeepsDistinct(s, t);
      assert Distinct(t[..last]);
      var r1, r2 := FisherYates(t[..last], swaps1[1..]), FisherYates(t[..last], swaps2[1..]);
      assert r1 == FisherYates(s, swaps1)[..last];
      assert r2 == FisherYates(s, swaps2)[..last];
      FisherYatesInjective(t[..last], swaps1[1..], swaps2[1..]);
      assert swaps1 == [swaps1[0]] + swaps1[1..];
      assert swaps2 == [swaps2[0]] + swaps2[1..];
    }
  }

  /**
   * The loop of the in-place shuffle, from the point where positions m..
   * are final: swap position m - 1 with the drawn one and go on with m - 1.
   */
  function ShuffleLoop<T>(s: seq<T>, m: nat, swaps: seq<nat>): seq<T>
    requires m <= |s| && ValidSwaps(swaps, m)
    decreases m
  {
    if m <= 1 then s
    else
      ValidSwapsTail(swaps, m);
      ShuffleLoop(Swap(s, m - 1, swaps[0]), m - 1, swaps[1..])
  }

  /** Running the loop from m shuffles the first m positions and leaves the rest. */
  lemma {:induction false} ShuffleLoopIsFisherYates<T>(s: seq<T>, m: nat, swaps: seq<nat>)
    requires m <= |s| && ValidSwaps(swaps, m)
    ensures ShuffleLoop(s, m, swaps) == FisherYates(s[..m], swaps) + s[m..]
    decreases m
  {
    if m <= 1 {
      assert s[..m] + s[m..] == s;
    } else {
      ValidSwapsTail(swaps, m);
      var after, t := Swap(s, m - 1, swaps[0]), Swap(s[..m], m - 1, swaps[0]);
      ShuffleLoopIsFisherYates(after, m - 1, swaps[1..]);
      SwapWithinPrefix(s, m, swaps[0]);
      assert ShuffleLoop(s, m, swaps) == FisherYates(after[..m - 1], swaps[1..]) + after[m - 1..];
      var front := FisherYates(t[..m - 1], swaps[1..]);
      assert FisherYates(s[..m], swaps) == front + [t[m - 1]];
      assert front + ([t[m - 1]] + s[m..]) == front + [t[m - 1]] + s[m..];
    }
  }

  /** A swap inside the first m positions touches only the prefix of length m. */
  lemma SwapWithinPrefix<T>(s: seq<T>, m: nat, j: nat)
    requires j < m <= |s|
    ensures Swap(s, m - 1, j)[..m - 1] == Swap(s[..m], m - 1, j)[..m - 1]
    ensures Swap(s, m - 1, j)[m - 1..] == [Swap(s[..m], m - 1, j)[m - 1]] + s[m..]
  {
  }

  /** One step of the loop: swap position m - 1, then go on with m - 1 and the remaining draws. */
  lemma ShuffleLoopStep<T>(s: seq<T>, m: nat, swaps: seq<nat>)
    requires 1 < m <= |s| && ValidSwaps(swaps, m)
    ensures ValidSwaps(swaps[1..], m - 1)
    ensures ShuffleLoop(Swap(s, m - 1, swaps[0]), m - 1, swaps[1..]) == ShuffleLoop(s, m, swaps)
  {
    ValidSwapsTail(swaps, m);
  }

  /** `x[i], x[j] = x[j], x[i]` */
  method SwapElements<T>(a: array<T>, i: nat, j: nat)
    requires i < a.Length && j < a.Length
    modifies a
    ensures a[..] == Swap(old(a[..]), i, j)
  {
    a[i], a[j] := a[j], a[i];
  }

  /** `random.shuffle(a)`: Fisher-Yates in place on an array. */
  method Shuffle<T>(a: array<T>, swaps: seq<nat>)
    requires ValidSwaps(swaps, a.Length)
    modifies a
    ensures a[..] == FisherYates(old(a[..]), swaps)
  {
    ghost var original := a[..];
    var m := a.Length;
    var draws := swaps;
    while m > 1
      invariant 0 <= m <= a.Length
      invariant ValidSwaps(draws, m)
      invariant ShuffleLoop(a[..], m, draws) == ShuffleLoop(original, a.Length, swaps)
    {
      ghost var before := a[..];
      ShuffleLoopStep(before, m, draws);
      SwapElements(a, m - 1, draws[0]);
      draws := draws[1..];
      m := m - 1;
    }
    ShuffleLoopIsFisherYates(original, a.Length, swaps);
    assert original[..a.Length] == original;
  }
}
