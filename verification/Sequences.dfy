/** Sequence operations that several modules share. */
module Sequences {
  /** `s` with `x` put in at index `k`. */
  function Inserted<T>(s: seq<T>, k: nat, x: T): (r: seq<T>)
    requires k <= |s|
    ensures |r| == |s| + 1 && r[k] == x
    ensures forall i {:trigger r[i]} :: 0 <= i < k ==> r[i] == s[i]
    ensures forall i {:trigger r[i]} :: k < i < |r| ==> r[i] == s[i - 1]
  {
    seq(|s| + 1, i requires 0 <= i <= |s| => if i < k then s[i] else if i == k then x else s[i - 1])
  }

  /** `s` without the element at index `k`. */
  function Removed<T>(s: seq<T>, k: nat): (r: seq<T>)
    requires k < |s|
    ensures |r| == |s| - 1
    ensures forall i {:trigger r[i]} :: 0 <= i < k ==> r[i] == s[i]
    ensures forall i {:trigger r[i]} :: k <= i < |r| ==> r[i] == s[i + 1]
  {
    seq(|s| - 1, i requires 0 <= i < |s| - 1 => if i < k then s[i] else s[i + 1])
  }

  /** The element at index `i`, or `end` for what comes after the last. */
  function At<T>(s: seq<T>, i: nat, end: T): (x: T)
  {
    if i < |s| then s[i] else end
  }

  lemma AppendAssociative<T>(a: seq<T>, b: seq<T>, c: seq<T>)
    ensures a + (b + c) == a + b + c
  {
  }

  lemma CancelTail<T>(a: seq<T>, b: seq<T>, c: seq<T>)
    requires a + c == b + c
    ensures a == b
  {
    assert |a| == |b|;
    assert a == (a + c)[..|a|] && b == (b + c)[..|b|];
  }

  lemma TakeDrop<T>(s: seq<T>, k: nat)
    requires k <= |s|
    ensures s[..k] + s[k..] == s
  {
  }

  lemma TakeMore<T>(s: seq<T>, a: nat, b: nat, n: nat)
    requires a + n <= b <= |s|
    ensures s[..a] + s[a..b][..n] == s[..a + n]
  {
  }

  lemma SliceWithin<T>(s: seq<T>, lo: nat, hi: nat, i: nat, j: nat)
    requires i <= j && lo + j <= hi <= |s|
    ensures s[lo..hi][i..j] == s[lo + i..lo + j]
  {
    var part, slice := s[lo..hi], s[lo + i..lo + j];
    forall k: nat | k < j - i
      ensures part[i..j][k] == slice[k]
    {
      assert part[i..j][k] == part[i + k] && slice[k] == s[lo + i + k];
    }
  }

  lemma SliceTwice<T>(s: seq<T>, i: nat, j: nat)
    requires i + j <= |s|
    ensures s[i..][j..] == s[i + j..]
  {
  }

  lemma SliceFirst<T>(s: seq<T>, k: nat)
    requires k < |s|
    ensures s[k..][0] == s[k] && s[k..][1..] == s[k + 1..]
  {
  }

  lemma RemovedFirst<T>(s: seq<T>)
    requires s != []
    ensures Removed(s, 0) == s[1..]
  {
  }

  lemma SliceTail<T>(s: seq<T>, k: nat)
    requires 0 < k <= |s|
    ensures s[..k][1..] == s[1..][..k - 1] && s[1..][k - 1..] == s[k..]
  {
  }

  lemma AppendSlice<T>(t: seq<T>, s: seq<T>, k: nat, n: nat)
    requires k + n <= |s|
    ensures t + s[..k] + s[k..k + n] == t + s[..k + n]
  {
  }

  lemma SplitAppend<T>(s: seq<T>, t: seq<T>, k: nat)
    requires k <= |s|
    ensures s + t == s[..k] + (s[k..] + t)
  {
  }
}
