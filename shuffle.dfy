/**
 * The Fisher-Yates shuffle of jeopardy.js (and of its earlier copy in
 * jeopardy/jeopardy.js).  The loop runs `i` from the last index down to 1 and
 * swaps cell `i` with cell `j`, where `j` is drawn with `0 <= j <= i`.
 *
 * The random draw is an input here: `draws[i]` is the `j` taken when the loop
 * is at `i` (entry 0 is never used, since the loop stops at 1).
 */
module Shuffle {
  import opened Seqs

  /** Every draw lies in the range `Math.floor(Math.random() * (i + 1))` can produce. */
  predicate DrawsInRange(draws: seq<nat>) {
    forall i :: 0 <= i < |draws| ==> draws[i] <= i
  }

  /** One draw per index of an array of length `n`. */
  predicate ValidDraws(draws: seq<nat>, n: nat) {
    |draws| == n && DrawsInRange(draws)
  }

  /** The destructuring swap `[array[i], array[j]] = [array[j], array[i]]`. */
  function Swap<T>(s: seq<T>, i: nat, j: nat): (r: seq<T>)
    requires i < |s| && j < |s|
    ensures |r| == |s|
  {
    s[i := s[j]][j := s[i]]
  }

  /** What the loop leaves behind when it still has to run from `i` down to 1. */
  function ShuffleDown<T>(s: seq<T>, draws: seq<nat>, i: nat): (r: seq<T>)
    requires i < |s| && i < |draws| && DrawsInRange(draws)
    ensures |r| == |s|
    decreases i
  {
    if i == 0 then s else ShuffleDown(Swap(s, i, draws[i]), draws, i - 1)
  }

  /** The array `fisherYatesShuffle` returns, as a function of its input and the draws. */
  function Shuffled<T>(s: seq<T>, draws: seq<nat>): (r: seq<T>)
    requires ValidDraws(draws, |s|)
    ensures |r| == |s|
    ensures |s| <= 1 ==> r == s
  {
    if |s| == 0 then s else ShuffleDown(s, draws, |s| - 1)
  }

  lemma SwapIsPermutation<T>(s: seq<T>, i: nat, j: nat)
    requires i < |s| && j < |s|
    ensures multiset(Swap(s, i, j)) == multiset(s)
  {
  }

  lemma {:induction false} ShuffleDownIsPermutation<T>(s: seq<T>, draws: seq<nat>, i: nat)
    requires i < |s| && i < |draws| && DrawsInRange(draws)
    ensures multiset(ShuffleDown(s, draws, i)) == multiset(s)
    decreases i
  {
    if i > 0 {
      SwapIsPermutation(s, i, draws[i]);
      ShuffleDownIsPermutation(Swap(s, i, draws[i]), draws, i - 1);
    }
  }

  /** The shuffle is a permutation: the output holds exactly the input's elements, as often as the input does. */
  lemma ShuffledIsPermutation<T>(s: seq<T>, draws: seq<nat>)
    requires ValidDraws(draws, |s|)
    ensures multiset(Shuffled(s, draws)) == multiset(s)
  {
    if |s| > 0 {
      ShuffleDownIsPermutation(s, draws, |s| - 1);
    }
  }

  /**
   * fisherYatesShuffle: permutes `a` in place and returns that same array.
   */
  method FisherYatesShuffle<T>(a: array<T>, draws: seq<nat>) returns (r: array<T>)
    requires ValidDraws(draws, a.Length)
    modifies a
    ensures r == a
    ensures a[..] == Shuffled(old(a[..]), draws)
    ensures multiset(a[..]) == multiset(old(a[..]))
  {
    var i := a.Length - 1;
    while i > 0
      invariant -1 <= i < a.Length
      invariant a.Length > 0 ==> 0 <= i && Shuffled(old(a[..]), draws) == ShuffleDown(a[..], draws, i)
    {
      var j := draws[i];
      ghost var before := a[..];
      a[i], a[j] := a[j], a[i];
      assert a[..] == Swap(before, i, j);
      i := i - 1;
    }
    ShuffledIsPermutation(old(a[..]), draws);
    r := a;
  }

  /** Cells above `i` are never touched again: once the loop has left index `k`, `k` is final. */
  lemma {:induction false} ShuffleDownKeepsAbove<T>(s: seq<T>, draws: seq<nat>, i: nat, k: nat)
    requires i < |s| && i < |draws| && DrawsInRange(draws)
    requires i < k < |s|
    ensures ShuffleDown(s, draws, i)[k] == s[k]
    decreases i
  {
    if i > 0 {
      ShuffleDownKeepsAbove(Swap(s, i, draws[i]), draws, i - 1, k);
    }
  }

  /** The run from `i` down reads only the draws at indices `0..i`. */
  lemma {:induction false} ShuffleDownUsesPrefix<T>(s: seq<T>, d1: seq<nat>, d2: seq<nat>, i: nat)
    requires i < |s| && i < |d1| && i < |d2| && DrawsInRange(d1) && DrawsInRange(d2)
    requires d1[..i + 1] == d2[..i + 1]
    ensures ShuffleDown(s, d1, i) == ShuffleDown(s, d2, i)
    decreases i
  {
    if i > 0 {
      assert d1[i] == d1[..i + 1][i] == d2[..i + 1][i] == d2[i];
      assert d1[..i] == d1[..i + 1][..i] == d2[..i + 1][..i] == d2[..i];
      ShuffleDownUsesPrefix(Swap(s, i, d1[i]), d1, d2, i - 1);
    }
  }

  lemma SwapKeepsDistinct<T>(s: seq<T>, i: nat, j: nat)
    requires i < |s| && j < |s| && Distinct(s)
    ensures Distinct(Swap(s, i, j))
  {
  }

  lemma {:induction false} ShuffleDownKeepsDistinct<T>(s: seq<T>, draws: seq<nat>, i: nat)
    requires i < |s| && i < |draws| && DrawsInRange(draws) && Distinct(s)
    ensures Distinct(ShuffleDown(s, draws, i))
    decreases i
  {
    if i > 0 {
      SwapKeepsDistinct(s, i, draws[i]);
      ShuffleDownKeepsDistinct(Swap(s, i, draws[i]), draws, i - 1);
    }
  }

  /** Shuffling an input without repeated values gives an output without repeated values. */
  lemma ShuffledKeepsDistinct<T>(s: seq<T>, draws: seq<nat>)
    requires ValidDraws(draws, |s|) && Distinct(s)
    ensures Distinct(Shuffled(s, draws))
  {
    if |s| > 0 {
      ShuffleDownKeepsDistinct(s, draws, |s| - 1);
    }
  }

  /**
   * Different draws give different orders: on an input without repeated values
   * the result determines every draw.
   */
  lemma {:induction false} ShuffleDownInjective<T>(s: seq<T>, d1: seq<nat>, d2: seq<nat>, i: nat)
    requires i < |s| && i < |d1| && i < |d2| && DrawsInRange(d1) && DrawsInRange(d2)
    requires Distinct(s)
    requires ShuffleDown(s, d1, i) == ShuffleDown(s, d2, i)
    ensures forall k :: 0 <= k <= i ==> d1[k] == d2[k]
    decreases i
  {
    if i > 0 {
      var s1, s2 := Swap(s, i, d1[i]), Swap(s, i, d2[i]);
      ShuffleDownKeepsAbove(s1, d1, i - 1, i);
      ShuffleDownKeepsAbove(s2, d2, i - 1, i);
      assert s[d1[i]] == s1[i] == s2[i] == s[d2[i]];
      SameValueSameIndex(s, d1[i], d2[i]);
      assert s1 == s2;
      SwapKeepsDistinct(s, i, d1[i]);
      ShuffleDownInjective(s1, d1, d2, i - 1);
    }
  }

  /** In a sequence without repeated values, a value sits at one position only. */
  lemma SameValueSameIndex<T>(s: seq<T>, a: nat, b: nat)
    requires Distinct(s) && a < |s| && b < |s| && s[a] == s[b]
    ensures a == b
  {
  }

  /** On an input without repeated values, two valid draw sequences that give the same order are equal. */
  lemma ShuffledInjective<T>(s: seq<T>, d1: seq<nat>, d2: seq<nat>)
    requires ValidDraws(d1, |s|) && ValidDraws(d2, |s|) && Distinct(s)
    requires Shuffled(s, d1) == Shuffled(s, d2)
    ensures d1 == d2
  {
    if |s| > 0 {
      ShuffleDownInjective(s, d1, d2, |s| - 1);
    }
  }

  /**
   * The draws that lead from `s` to `t` when only the cells `0..i` are still
   * to be placed and they hold the same values in both.
   */
  ghost function DrawsFor<T>(s: seq<T>, t: seq<T>, i: nat): (d: seq<nat>)
    requires i < |s| == |t|
    requires multiset(s[..i + 1]) == multiset(t[..i + 1])
    requires s[i + 1..] == t[i + 1..]
    ensures |d| == i + 1 && DrawsInRange(d)
    ensures s[d[i]] == t[i]
    decreases i
  {
    assert t[i] in multiset(t[..i + 1]);
    assert t[i] in s[..i + 1];
    var j :| 0 <= j <= i && s[j] == t[i];
    if i == 0 then [j]
    else
      var s' := Swap(s, i, j);
      PrefixAfterSwap(s, t, i, j);
      DrawsFor(s', t, i - 1) + [j]
  }

  /** Taking one more cell of a prefix adds that cell's value to its multiset. */
  lemma MultisetOfLongerPrefix<T>(s: seq<T>, i: nat)
    requires i < |s|
    ensures multiset(s[..i + 1]) == multiset(s[..i]) + multiset{s[i]}
  {
    assert s[..i + 1] == s[..i] + [s[i]];
  }

  /** Removing the same value from two equal multisets leaves equal multisets. */
  lemma MultisetCancel<T>(a: multiset<T>, b: multiset<T>, x: T)
    requires a + multiset{x} == b + multiset{x}
    ensures a == b
  {
    forall y ensures a[y] == b[y] {
      assert (a + multiset{x})[y] == (b + multiset{x})[y];
    }
  }

  /** Two sequences that agree at `i` and after it agree on the suffix from `i`. */
  lemma SuffixFrom<T>(a: seq<T>, b: seq<T>, i: nat)
    requires i < |a| == |b| && a[i] == b[i] && a[i + 1..] == b[i + 1..]
    ensures a[i..] == b[i..]
  {
  }

  /** A swap inside the prefix `0..i` changes that prefix as a swap and leaves the rest alone. */
  lemma SwapInPrefix<T>(s: seq<T>, i: nat, j: nat)
    requires j <= i < |s|
    ensures Swap(s, i, j)[..i + 1] == Swap(s[..i + 1], i, j)
    ensures Swap(s, i, j)[i + 1..] == s[i + 1..]
  {
  }

  /** The step of DrawsFor: placing `t[i]` at `i` leaves a smaller instance of the same problem. */
  lemma PrefixAfterSwap<T>(s: seq<T>, t: seq<T>, i: nat, j: nat)
    requires 0 < i < |s| == |t| && j <= i && s[j] == t[i]
    requires multiset(s[..i + 1]) == multiset(t[..i + 1])
    requires s[i + 1..] == t[i + 1..]
    ensures multiset(Swap(s, i, j)[..i]) == multiset(t[..i])
    ensures Swap(s, i, j)[i..] == t[i..]
  {
    var s' := Swap(s, i, j);
    SwapInPrefix(s, i, j);
    SwapIsPermutation(s[..i + 1], i, j);
    MultisetOfLongerPrefix(s', i);
    MultisetOfLongerPrefix(t, i);
    MultisetCancel(multiset(s'[..i]), multiset(t[..i]), t[i]);
    SuffixFrom(s', t, i);
  }

  lemma {:induction false} DrawsForReaches<T>(s: seq<T>, t: seq<T>, i: nat)
    requires i < |s| == |t|
    requires multiset(s[..i + 1]) == multiset(t[..i + 1])
    requires s[i + 1..] == t[i + 1..]
    ensures ShuffleDown(s, DrawsFor(s, t, i), i) == t
    decreases i
  {
    var d := DrawsFor(s, t, i);
    if i == 0 {
      assert s == [s[0]] + s[1..] && t == [t[0]] + t[1..];
    } else {
      var j := d[i];
      var s' := Swap(s, i, j);
      PrefixAfterSwap(s, t, i, j);
      var d' := DrawsFor(s', t, i - 1);
      assert d == d' + [j];
      assert s'[i..] == t[i..];
      DrawsForReaches(s', t, i - 1);
      assert d[..i] == d' == d'[..i];
      ShuffleDownUsesPrefix(s', d, d', i - 1);
    }
  }

  /** Every ordering of the input is produced by some valid sequence of draws. */
  lemma EveryPermutationReachable<T>(s: seq<T>, t: seq<T>)
    requires multiset(s) == multiset(t)
    ensures exists d :: ValidDraws(d, |s|) && Shuffled(s, d) == t
  {
    assert |s| == |multiset(s)| == |multiset(t)| == |t|;
    if |s| == 0 {
      assert ValidDraws([], 0) && Shuffled(s, []) == t;
    } else {
      var n := |s|;
      assert s[..n] == s && t[..n] == t;
      assert s[n..] == [] == t[n..];
      var d := DrawsFor(s, t, n - 1);
      DrawsForReaches(s, t, n - 1);
      assert ValidDraws(d, n) && Shuffled(s, d) == t;
    }
  }
}
