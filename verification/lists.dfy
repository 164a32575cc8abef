/** Index-based list edits shared by the quiz builder and the session content lists. */
module Lists {

  /** `xs.filter((_, k) => k !== i)` and `splice(i, 1)`: drop the element at `i`; an index past
      the end removes nothing. */
  function RemoveAt<T>(xs: seq<T>, i: nat): (r: seq<T>)
    ensures i < |xs| ==> |r| == |xs| - 1 && r[..i] == xs[..i] && r[i..] == xs[i + 1..]
    ensures i >= |xs| ==> r == xs
  {
    if i < |xs| then xs[..i] + xs[i + 1..] else xs
  }

  /** `xs.map((y, k) => k === i ? x : y)`: replace the element at `i`; an index past the end
      replaces nothing. */
  function ReplaceAt<T>(xs: seq<T>, i: nat, x: T): (r: seq<T>)
    ensures |r| == |xs|
    ensures forall k :: 0 <= k < |xs| && k != i ==> r[k] == xs[k]
    ensures i < |xs| ==> r[i] == x
  {
    if i < |xs| then xs[i := x] else xs
  }

  /** Putting the removed element back where it was restores the list. */
  lemma RemoveAtThenReinsert<T>(xs: seq<T>, i: nat)
    requires i < |xs|
    ensures RemoveAt(xs, i)[..i] + [xs[i]] + RemoveAt(xs, i)[i..] == xs
  {
    assert xs == xs[..i] + [xs[i]] + xs[i + 1..];
  }

  /** Removal takes exactly one copy of the removed element out of the list's contents. */
  lemma RemoveAtContents<T>(xs: seq<T>, i: nat)
    requires i < |xs|
    ensures multiset(RemoveAt(xs, i)) + multiset{xs[i]} == multiset(xs)
  {
    assert xs == xs[..i] + [xs[i]] + xs[i + 1..];
  }

  /** Removal keeps every other element, in order: the element now at `k` was at `k` before
      the removed index and at `k + 1` after it. */
  lemma RemoveAtShifts<T>(xs: seq<T>, i: nat, k: nat)
    requires i < |xs|
    requires k < |xs| - 1
    ensures RemoveAt(xs, i)[k] == if k < i then xs[k] else xs[k + 1]
  {
    var r := RemoveAt(xs, i);
    if k < i {
      assert r[k] == r[..i][k];
    } else {
      assert r[k] == r[i..][k - i];
    }
  }

  /** Replacing an element with itself changes nothing, and a second replacement at the same
      index overrides the first. */
  lemma ReplaceAtLastWins<T>(xs: seq<T>, i: nat, x: T, y: T)
    ensures ReplaceAt(ReplaceAt(xs, i, x), i, y) == ReplaceAt(xs, i, y)
    ensures i < |xs| ==> ReplaceAt(xs, i, xs[i]) == xs
  {
  }
}
