/** Small facts about sequences, proved once in a context of their own. */
module Seqs {
  /** A non-empty sequence is its front followed by its last element. */
  lemma SplitLast<T>(s: seq<T>)
    requires |s| >= 1
    ensures s == s[..|s| - 1] + [s[|s| - 1]]
  {
  }

  lemma Assoc<T>(a: seq<T>, b: seq<T>, c: seq<T>)
    ensures a + b + c == a + (b + c)
  {
  }

  /** A common suffix cancels. */
  lemma CancelRight<T>(a: seq<T>, b: seq<T>, u: seq<T>)
    requires a + u == b + u
    ensures a == b
  {
    assert |a| == |b|;
    forall i | 0 <= i < |a|
      ensures a[i] == b[i]
    {
      assert (a + u)[i] == a[i];
      assert (b + u)[i] == b[i];
    }
  }

  /** A slice of the middle part of a concatenation. */
  lemma SliceMiddle<T>(a: seq<T>, b: seq<T>, c: seq<T>, x: nat, y: nat)
    requires x <= y <= |b|
    ensures (a + b + c)[|a| + x..|a| + y] == b[x..y]
  {
    var s := a + b + c;
    forall i | 0 <= i < y - x
      ensures s[|a| + x..|a| + y][i] == b[x..y][i]
    {
      assert s[|a| + x + i] == b[x + i];
    }
  }
}
