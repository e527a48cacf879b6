/**
 * The Fisher-Yates shuffle applied at the start of a study session.
 *
 * The random draw `Math.floor(Math.random() * (i + 1))` made for position `i`
 * is supplied by the caller as `js[i]`; the only thing assumed of it is the
 * range `0 <= js[i] <= i` that the draw guarantees.
 */
module Shuffle {

  /**
   * One draw per position, each within `[0, i]`; position 0 is never drawn
   * for, so `js[0]` is unconstrained and unused.
   */
  predicate ValidChoices<T>(s: seq<T>, js: seq<nat>) {
    |js| == |s| && forall i :: 1 <= i < |s| ==> js[i] <= i
  }

  /** `s` with the elements at `i` and `j` exchanged. */
  function Swap<T>(s: seq<T>, i: nat, j: nat): (r: seq<T>)
    requires i < |s| && j < |s|
    ensures |r| == |s| && r[i] == s[j] && r[j] == s[i]
    ensures forall k :: 0 <= k < |s| && k != i && k != j ==> r[k] == s[k]
  {
    s[i := s[j]][j := s[i]]
  }

  /** An exchange neither adds nor drops an element. */
  lemma SwapPermutes<T>(s: seq<T>, i: nat, j: nat)
    requires i < |s| && j < |s|
    ensures multiset(Swap(s, i, j)) == multiset(s)
  {
  }

  /**
   * The rest of the shuffle loop, run from position `i` down to 1 on `s`:
   * the loop's remaining iterations as a function of its current state.
   */
  function ShuffleDown<T>(s: seq<T>, js: seq<nat>, i: int): (r: seq<T>)
    requires ValidChoices(s, js) && -1 <= i < |s|
    ensures |r| == |s|
    decreases i + 1
  {
    if i <= 0 then s else ShuffleDown(Swap(s, i, js[i]), js, i - 1)
  }

  /** The remaining iterations rearrange the elements and do nothing else. */
  lemma {:induction false} ShuffleDownPermutes<T>(s: seq<T>, js: seq<nat>, i: int)
    requires ValidChoices(s, js) && -1 <= i < |s|
    ensures multiset(ShuffleDown(s, js, i)) == multiset(s)
    decreases i + 1
  {
    if i > 0 {
      SwapPermutes(s, i, js[i]);
      ShuffleDownPermutes(Swap(s, i, js[i]), js, i - 1);
    }
  }

  /** The order the whole shuffle produces from `s` under the draws `js`. */
  function Shuffled<T>(s: seq<T>, js: seq<nat>): (r: seq<T>)
    requires ValidChoices(s, js)
    ensures |r| == |s| && multiset(r) == multiset(s)
  {
    ShuffleDownPermutes(s, js, |s| - 1);
    ShuffleDown(s, js, |s| - 1)
  }

  /** Iterations below `i` never touch the positions above `i`. */
  lemma {:induction false} ShuffleDownKeepsSuffix<T>(s: seq<T>, js: seq<nat>, i: int, k: int)
    requires ValidChoices(s, js) && -1 <= i < |s| && i < k < |s|
    ensures ShuffleDown(s, js, i)[k] == s[k]
    decreases i + 1
  {
    if i > 0 {
      var t := Swap(s, i, js[i]);
      assert t[k] == s[k];
      ShuffleDownKeepsSuffix(t, js, i - 1, k);
    }
  }

  /** The first draw decides the last element of the shuffled order, for good. */
  lemma LastElementIsFirstDraw<T>(s: seq<T>, js: seq<nat>)
    requires ValidChoices(s, js) && |s| >= 2
    ensures Shuffled(s, js)[|s| - 1] == s[js[|s| - 1]]
  {
    var n := |s|;
    var t := Swap(s, n - 1, js[n - 1]);
    ShuffleDownKeepsSuffix(t, js, n - 2, n - 1);
  }

  /** Draws that always pick the current position leave the order as it was. */
  lemma {:induction false} IdentityDrawsKeepOrder<T>(s: seq<T>, js: seq<nat>, i: int)
    requires ValidChoices(s, js) && -1 <= i < |s|
    requires forall k :: 0 <= k < |s| ==> js[k] == k
    ensures ShuffleDown(s, js, i) == s
    decreases i + 1
  {
    if i > 0 {
      assert Swap(s, i, js[i]) == s;
      IdentityDrawsKeepOrder(s, js, i - 1);
    }
  }

  /** The destructuring exchange `[a[i], a[j]] = [a[j], a[i]]`. */
  method SwapAt<T>(a: array<T>, i: nat, j: nat)
    requires i < a.Length && j < a.Length
    modifies a
    ensures a[..] == Swap(old(a[..]), i, j)
  {
    a[i], a[j] := a[j], a[i];
  }

  /**
   * `shuffleArray`: copies the input into a fresh array and swaps, for `i` from
   * the last index down to 1, the element at `i` with the one at the draw `js[i]`.
   * The input, a value, is left as it was; the result is a permutation of it.
   */
  method ShuffleArray<T>(items: seq<T>, js: seq<nat>) returns (r: seq<T>)
    requires ValidChoices(items, js)
    ensures r == Shuffled(items, js)
    ensures |r| == |items| && multiset(r) == multiset(items)
  {
    var newArr := new T[|items|](k requires 0 <= k < |items| => items[k]);
    assert newArr[..] == items;
    var i := newArr.Length - 1;
    assert ShuffleDown(newArr[..], js, i) == Shuffled(items, js);
    while i > 0
      invariant -1 <= i < newArr.Length
      invariant ValidChoices(newArr[..], js)
      invariant ShuffleDown(newArr[..], js, i) == Shuffled(items, js)
    {
      ghost var before := newArr[..];
      SwapAt(newArr, i, js[i]);
      assert ShuffleDown(before, js, i) == ShuffleDown(newArr[..], js, i - 1);
      i := i - 1;
    }
    r := newArr[..];
  }
}
