/**
 * java.util.Collections.shuffle, which both engines call: once on the
 * freshly built list of icon pairs and once on the icons still on the board
 * when the player asks for a reshuffle.
 *
 * On an ArrayList the library runs Fisher-Yates: for i from the list's size
 * down to 2 it swaps the element at index i - 1 with the one at index
 * rnd.nextInt(i).  The random generator is not modelled: rnd(t) stands for
 * the t-th number it hands out during one call, reduced here to [0, i) as
 * nextInt(i) would.  Whatever the generator returns, the result is a
 * permutation of the input; nothing is said about uniformity.
 */
module Shuffle {

  /** Swapping two entries of a sequence keeps its multiset of elements. */
  lemma SwapKeepsMultiset(s: seq<int>, a: nat, b: nat)
    requires a < |s| && b < |s|
    ensures multiset(s[a := s[b]][b := s[a]]) == multiset(s)
  {
    if a != b {
      var t := s[a := s[b]];
      assert multiset(t) == multiset(s) - multiset{s[a]} + multiset{s[b]};
      assert multiset(t[b := s[a]]) == multiset(t) - multiset{t[b]} + multiset{s[a]};
    }
  }

  /**
   * The Fisher-Yates steps for bounds i, i - 1, ..., 2, drawing the t-th
   * random number for bound i.
   */
  function SwapDown(s: seq<int>, i: nat, t: nat, rnd: nat -> nat): (r: seq<int>)
    requires i <= |s|
    ensures |r| == |s|
    decreases i
  {
    if i <= 1 then s
    else
      var j := rnd(t) % i;
      SwapDown(s[i - 1 := s[j]][j := s[i - 1]], i - 1, t + 1, rnd)
  }

  /** Every Fisher-Yates step is a swap, so the steps together permute s. */
  lemma {:induction false} SwapDownPermutes(s: seq<int>, i: nat, t: nat, rnd: nat -> nat)
    requires i <= |s|
    ensures multiset(SwapDown(s, i, t, rnd)) == multiset(s)
    decreases i
  {
    if i > 1 {
      var j := rnd(t) % i;
      SwapKeepsMultiset(s, i - 1, j);
      SwapDownPermutes(s[i - 1 := s[j]][j := s[i - 1]], i - 1, t + 1, rnd);
    }
  }

  /** The list Collections.shuffle leaves behind. */
  function Shuffled(s: seq<int>, rnd: nat -> nat): (r: seq<int>)
    ensures |r| == |s|
  {
    SwapDown(s, |s|, 0, rnd)
  }

  /** Whatever numbers the generator hands out, the shuffled list is a permutation of the original. */
  lemma ShuffledPermutes(s: seq<int>, rnd: nat -> nat)
    ensures multiset(Shuffled(s, rnd)) == multiset(s)
  {
    SwapDownPermutes(s, |s|, 0, rnd);
  }
}
