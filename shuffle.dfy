/** The in-place Fisher–Yates shuffle (build/server/services/shuffleArray.js). The
    random index drawn at step `i` is given as `picks[i]`, any index in `[0, i]`. */
module Shuffle {

  /** The sequence with positions `i` and `j` exchanged. */
  function Swap<T>(s: seq<T>, i: nat, j: nat): (r: seq<T>)
    requires i < |s| && j < |s|
    ensures |r| == |s|
  {
    seq(|s|, p requires 0 <= p < |s| => if p == j then s[i] else if p == i then s[j] else s[p])
  }

  /** A swap exchanges positions `i` and `j` and leaves every other position alone. */
  lemma SwapAt<T>(s: seq<T>, i: nat, j: nat, p: nat)
    requires i < |s| && j < |s| && p < |s|
    ensures Swap(s, i, j)[p] == if p == j then s[i] else if p == i then s[j] else s[p]
  {
  }

  /** A swap keeps the multiset of the elements. */
  lemma SwapPermutes<T>(s: seq<T>, i: nat, j: nat)
    requires i < |s| && j < |s|
    ensures multiset(Swap(s, i, j)) == multiset(s)
  {
    assert Swap(s, i, j) == s[i := s[j]][j := s[i]];
  }

  /** Every pick is a valid swap partner: `picks[i]` lies in `[0, i]`. */
  predicate ValidPicks(picks: seq<nat>, n: nat) {
    |picks| == n && forall i :: 0 <= i < n ==> picks[i] <= i
  }

  /** The sequence once the steps for indices `|s| - 1` down to `k` have run. */
  function Steps<T>(s: seq<T>, picks: seq<nat>, k: nat): (r: seq<T>)
    requires ValidPicks(picks, |s|) && k <= |s|
    ensures |r| == |s|
    decreases |s| - k
  {
    if k == |s| then s else Swap(Steps(s, picks, k + 1), k, picks[k])
  }

  /** The result of the whole shuffle: the steps for `|s| - 1` down to 1. */
  function Shuffled<T>(s: seq<T>, picks: seq<nat>): seq<T>
    requires ValidPicks(picks, |s|)
  {
    if |s| == 0 then s else Steps(s, picks, 1)
  }

  /** Every step is a swap, so every stage of the shuffle is a permutation. */
  lemma {:induction false} StepsPermutes<T>(s: seq<T>, picks: seq<nat>, k: nat)
    requires ValidPicks(picks, |s|) && k <= |s|
    ensures multiset(Steps(s, picks, k)) == multiset(s)
    decreases |s| - k
  {
    if k < |s| {
      StepsPermutes(s, picks, k + 1);
      StepPermutes(s, picks, k);
    }
  }

  /** One step is a permutation. */
  lemma StepPermutes<T>(s: seq<T>, picks: seq<nat>, k: nat)
    requires ValidPicks(picks, |s|) && k < |s|
    ensures multiset(Steps(s, picks, k)) == multiset(Steps(s, picks, k + 1))
  {
    SwapPermutes(Steps(s, picks, k + 1), k, picks[k]);
  }

  /** The shuffle keeps the length and the multiset of the elements. */
  lemma ShuffledPermutes<T>(s: seq<T>, picks: seq<nat>)
    requires ValidPicks(picks, |s|)
    ensures |Shuffled(s, picks)| == |s|
    ensures multiset(Shuffled(s, picks)) == multiset(s)
  {
    if |s| > 0 {
      StepsPermutes(s, picks, 1);
    }
  }

  /** Sequences of length 0 or 1 are left as they are. */
  lemma ShortUnchanged<T>(s: seq<T>, picks: seq<nat>)
    requires ValidPicks(picks, |s|) && |s| <= 1
    ensures Shuffled(s, picks) == s
  {
  }

  /** The step for index `k` only writes positions `k` and `picks[k] <= k`. */
  lemma StepKeepsAbove<T>(s: seq<T>, picks: seq<nat>, k: nat, p: nat)
    requires ValidPicks(picks, |s|) && k < p < |s|
    ensures Steps(s, picks, k)[p] == Steps(s, picks, k + 1)[p]
  {
    assert picks[k] <= k;
    SwapAt(Steps(s, picks, k + 1), k, picks[k], p);
  }

  /** Once the step for index `k` has run, positions `k` and above are never written
      again: every later step `k' < k` leaves them as they were. */
  lemma {:induction false} StepsSettle<T>(s: seq<T>, picks: seq<nat>, k': nat, k: nat, p: nat)
    requires ValidPicks(picks, |s|) && k' <= k <= p < |s|
    ensures Steps(s, picks, k')[p] == Steps(s, picks, k)[p]
    decreases k - k'
  {
    if k' < k {
      StepsSettle(s, picks, k' + 1, k, p);
      StepKeepsAbove(s, picks, k', p);
    }
  }

  /** `shuffleArray(array)`, with `array[j]` drawn at step `i` being `picks[i]`. */
  method ShuffleArray<T>(a: array<T>, picks: seq<nat>)
    requires ValidPicks(picks, a.Length)
    modifies a
    ensures a[..] == Shuffled(old(a[..]), picks)
    ensures multiset(a[..]) == multiset(old(a[..]))
  {
    if a.Length == 0 {
      return;
    }
    ghost var s := a[..];
    var i := a.Length - 1;
    while i > 0
      invariant 0 <= i < a.Length
      invariant a[..] == Steps(s, picks, i + 1)
    {
      ghost var before := a[..];
      var j := picks[i];
      var temp := a[i];
      a[i] := a[j];
      a[j] := temp;
      assert a[..] == before[i := before[j]][j := before[i]];
      i := i - 1;
    }
    ShuffledPermutes(s, picks);
  }
}
