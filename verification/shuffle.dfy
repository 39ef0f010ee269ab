/**
 * The in-place Fisher–Yates (Durstenfeld) shuffle of script.js.
 *
 * The source draws `j = floor(random() * (i + 1))` at every step `i` from the
 * last index down to 1. Here the draws are an input: `choices[i]` is the draw
 * made at step `i` (`choices[0]` is never read, as the loop stops at `i > 0`).
 */
module Shuffling {

  /** `choices` holds a draw for every step `i` below `n`, and that draw lies in [0, i]. */
  predicate ValidChoices(choices: seq<nat>, n: nat) {
    n <= |choices| && forall i :: 0 < i < n ==> choices[i] <= i
  }

  /** Exchanges the elements at positions `i` and `j`. */
  function Swap<T>(s: seq<T>, i: nat, j: nat): (r: seq<T>)
    requires i < |s| && j < |s|
    ensures |r| == |s|
  {
    s[i := s[j]][j := s[i]]
  }

  /** A swap exchanges the two elements and leaves every other position alone. */
  lemma SwapExchanges<T>(s: seq<T>, i: nat, j: nat)
    requires i < |s| && j < |s|
    ensures Swap(s, i, j)[i] == s[j] && Swap(s, i, j)[j] == s[i]
    ensures forall k :: 0 <= k < |s| && k != i && k != j ==> Swap(s, i, j)[k] == s[k]
  {
  }

  /** A swap only rearranges: the multiset of elements is unchanged. */
  lemma SwapIsPermutation<T>(s: seq<T>, i: nat, j: nat)
    requires i < |s| && j < |s|
    ensures multiset(Swap(s, i, j)) == multiset(s)
  {
  }

  /**
   * Reference definition of the shuffle, by prefixes: the last slot is swapped
   * with the drawn one and then stays fixed; the prefix before it is shuffled
   * with the draws of the lower steps.
   */
  function Shuffled<T>(s: seq<T>, choices: seq<nat>): (r: seq<T>)
    requires ValidChoices(choices, |s|)
    ensures |r| == |s|
    decreases |s|
  {
    if |s| <= 1 then s
    else
      var n := |s| - 1;
      var t := Swap(s, n, choices[n]);
      Shuffled(t[..n], choices) + [t[n]]
  }

  /** Whatever the draws, the shuffle rearranges its input: same elements, same multiplicities. */
  lemma {:induction false} ShuffledIsPermutation<T>(s: seq<T>, choices: seq<nat>)
    requires ValidChoices(choices, |s|)
    ensures multiset(Shuffled(s, choices)) == multiset(s)
    decreases |s|
  {
    if |s| > 1 {
      var n := |s| - 1;
      var t := Swap(s, n, choices[n]);
      ShuffledStep(s, choices);
      SwapIsPermutation(s, n, choices[n]);
      ShuffledIsPermutation(t[..n], choices);
      AppendLastPermutation(Shuffled(t[..n], choices), t);
    }
  }

  /** Appending the last element of `b` to a rearrangement of the rest of `b` rearranges `b`. */
  lemma AppendLastPermutation<T>(a: seq<T>, b: seq<T>)
    requires |b| > 0 && multiset(a) == multiset(b[..|b| - 1])
    ensures multiset(a + [b[|b| - 1]]) == multiset(b)
  {
    assert b == b[..|b| - 1] + [b[|b| - 1]];
  }

  /**
   * When every step draws its own index, each swap is a no-op and the input
   * comes back unchanged. Inputs of length 0 or 1 make no draw at all, so the
   * shuffle always returns them unchanged.
   */
  lemma {:induction false} ShuffledIdentityDraws<T>(s: seq<T>, choices: seq<nat>)
    requires ValidChoices(choices, |s|)
    requires forall i :: 0 < i < |s| ==> choices[i] == i
    ensures Shuffled(s, choices) == s
    decreases |s|
  {
    if |s| > 1 {
      var n := |s| - 1;
      ShuffledStep(s, choices);
      assert Swap(s, n, choices[n]) == s;
      ShuffledIdentityDraws(s[..n], choices);
      SplitLast(s);
    }
  }

  /** Swapping inside a prefix agrees with swapping in the whole sequence. */
  lemma {:induction false} SwapInPrefix<T>(r: seq<T>, i: nat, j: nat)
    requires j <= i < |r|
    ensures Swap(r[..i + 1], i, j)[..i] == Swap(r, i, j)[..i]
    ensures Swap(r, i, j)[i..] == [Swap(r[..i + 1], i, j)[i]] + r[i + 1..]
  {
  }

  /**
   * One step of the loop in terms of `Shuffled`: swapping slot `i` with its draw
   * and moving the boundary down leaves "shuffle the prefix, keep the suffix" unchanged.
   */
  lemma {:induction false} ShuffleLoopStep<T>(r: seq<T>, choices: seq<nat>, i: nat)
    requires 0 < i < |r| && ValidChoices(choices, |r|)
    ensures choices[i] <= i
    ensures Shuffled(r[..i + 1], choices) + r[i + 1..]
         == Shuffled(Swap(r, i, choices[i])[..i], choices) + Swap(r, i, choices[i])[i..]
  {
    SwapInPrefix(r, i, choices[i]);
  }

  /** The loop of `shuffle`: walks `i` from the last index down to 1, swapping in the draw. */
  method Shuffle<T>(a: seq<T>, choices: seq<nat>) returns (r: seq<T>)
    requires ValidChoices(choices, |a|)
    ensures multiset(r) == multiset(a)
    ensures r == Shuffled(a, choices)
  {
    r := a;
    var i := |a| - 1;
    assert r[..i + 1] == a;
    while i > 0
      invariant -1 <= i < |a|
      invariant |r| == |a|
      invariant multiset(r) == multiset(a)
      invariant Shuffled(r[..i + 1], choices) + r[i + 1..] == Shuffled(a, choices)
    {
      var j := choices[i];
      ShuffleLoopStep(r, choices, i);
      SwapIsPermutation(r, i, j);
      r := Swap(r, i, j);
      i := i - 1;
    }
    assert r[..i + 1] + r[i + 1..] == r;
  }

  /** The shuffle of `s` reads only the draws of steps below `|s|`. */
  lemma {:induction false} ShuffledReadsOnlyItsSteps<T>(s: seq<T>, c1: seq<nat>, c2: seq<nat>)
    requires ValidChoices(c1, |s|) && ValidChoices(c2, |s|)
    requires forall i :: 0 < i < |s| ==> c1[i] == c2[i]
    ensures Shuffled(s, c1) == Shuffled(s, c2)
    decreases |s|
  {
    if |s| > 1 {
      var n := |s| - 1;
      var t := Swap(s, n, c1[n]);
      ShuffledReadsOnlyItsSteps(t[..n], c1, c2);
    }
  }

  /** One unfolding of `Shuffled` on a sequence of at least two elements. */
  lemma {:induction false} ShuffledStep<T>(s: seq<T>, choices: seq<nat>)
    requires ValidChoices(choices, |s|) && |s| >= 2
    ensures var n := |s| - 1;
            Shuffled(s, choices) == Shuffled(Swap(s, n, choices[n])[..n], choices) + [Swap(s, n, choices[n])[n]]
  {
  }

  /** Removing the same last element from two permutations of each other leaves permutations. */
  lemma DropLastPermutation<T>(t: seq<T>, b: seq<T>)
    requires multiset(t) == multiset(b) && |t| == |b| > 0 && t[|t| - 1] == b[|b| - 1]
    ensures multiset(t[..|t| - 1]) == multiset(b[..|b| - 1])
  {
    var n := |t| - 1;
    assert t == t[..n] + [t[n]];
    assert b == b[..n] + [b[n]];
    assert multiset(t) == multiset(t[..n]) + multiset{t[n]};
    assert multiset(b) == multiset(b[..n]) + multiset{b[n]};
    assert multiset(t[..n]) == multiset(t) - multiset{t[n]};
    assert multiset(b[..n]) == multiset(b) - multiset{b[n]};
  }

  /** A non-empty sequence is its prefix followed by its last element. */
  lemma SplitLast<T>(b: seq<T>)
    requires |b| > 0
    ensures b == b[..|b| - 1] + [b[|b| - 1]]
  {
  }

  /** Appending a draw in [0, n] to the draws of the steps below `n` gives draws valid below `n + 1`. */
  lemma ValidChoicesExtend(c: seq<nat>, n: nat, j: nat)
    requires ValidChoices(c, n) && |c| == n && j <= n
    ensures ValidChoices(c + [j], n + 1)
    ensures forall i :: 0 <= i < n ==> (c + [j])[i] == c[i]
  {
  }

  /** Position of the first occurrence of `x` in `s`. */
  function IndexOf<T(==)>(s: seq<T>, x: T): (k: nat)
    requires x in s
    ensures k < |s| && s[k] == x
    ensures forall i :: 0 <= i < k ==> s[i] != x
  {
    if s[0] == x then 0 else 1 + IndexOf(s[1..], x)
  }

  /**
   * The draws that make the shuffle of `a` come out as `b`: at each step, the
   * draw picks the position currently holding the element `b` wants in the last slot.
   */
  function DrawsFor<T(==)>(a: seq<T>, b: seq<T>): (c: seq<nat>)
    requires multiset(a) == multiset(b)
    ensures |c| == |a| && ValidChoices(c, |a|)
    decreases |a|
  {
    assert |a| == |multiset(a)| == |multiset(b)| == |b|;
    if |a| <= 1 then seq(|a|, _ => 0)
    else
      var n := |a| - 1;
      assert b[n] in multiset(a);
      var j := IndexOf(a, b[n]);
      var t := Swap(a, n, j);
      SwapIsPermutation(a, n, j);
      DropLastPermutation(t, b);
      DrawsFor(t[..n], b[..n]) + [j]
  }

  /**
   * If the prefix left after the last swap is reached with draws `c`, the whole
   * ordering is reached with `c` followed by the last swap's draw.
   */
  lemma {:induction false} ReachableByLastDraw<T>(a: seq<T>, b: seq<T>, j: nat, c: seq<nat>)
    requires |a| == |b| >= 2 && j < |a| && |c| == |a| - 1
    requires ValidChoices(c, |a| - 1)
    requires Swap(a, |a| - 1, j)[|a| - 1] == b[|b| - 1]
    requires Shuffled(Swap(a, |a| - 1, j)[..|a| - 1], c) == b[..|b| - 1]
    ensures ValidChoices(c + [j], |a|)
    ensures Shuffled(a, c + [j]) == b
  {
    var n := |a| - 1;
    var t := Swap(a, n, j);
    ValidChoicesExtend(c, n, j);
    var choices := c + [j];
    ShuffledReadsOnlyItsSteps(t[..n], choices, c);
    ShuffledStep(a, choices);
    SplitLast(b);
  }

  /** The draws computed by `DrawsFor` do produce the requested ordering. */
  lemma {:induction false} ShuffledDrawsFor<T>(a: seq<T>, b: seq<T>)
    requires multiset(a) == multiset(b)
    ensures Shuffled(a, DrawsFor(a, b)) == b
    decreases |a|
  {
    assert |a| == |multiset(a)| == |multiset(b)| == |b|;
    if |a| == 1 {
      assert b[0] in multiset(a);
    } else if |a| > 1 {
      var n := |a| - 1;
      assert b[n] in multiset(a);
      var j := IndexOf(a, b[n]);
      var t := Swap(a, n, j);
      SwapIsPermutation(a, n, j);
      DropLastPermutation(t, b);
      ShuffledDrawsFor(t[..n], b[..n]);
      ReachableByLastDraw(a, b, j, DrawsFor(t[..n], b[..n]));
    }
  }

  /**
   * Every ordering of `a` is produced by some admissible sequence of draws: the
   * shuffle can reach every permutation.
   */
  lemma EveryPermutationReachable<T>(a: seq<T>, b: seq<T>)
    requires multiset(a) == multiset(b)
    ensures exists choices :: ValidChoices(choices, |a|) && Shuffled(a, choices) == b
  {
    ShuffledDrawsFor(a, b);
  }
}
