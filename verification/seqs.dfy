/**
 * Facts about slicing and concatenating sequences, stated once so that the
 * proofs about child lists and path strings can cite them instead of
 * re-deriving them by extensionality in a crowded context.
 */
module Seqs {

  /** Taking from or dropping into the first part of a concatenation only touches that part. */
  lemma SliceConcat<T>(a: seq<T>, b: seq<T>, k: nat)
    requires k <= |a|
    ensures (a + b)[..k] == a[..k]
    ensures (a + b)[k..] == a[k..] + b
  {
  }

  lemma ConcatAssoc<T>(a: seq<T>, b: seq<T>, c: seq<T>)
    ensures a + b + c == a + (b + c)
  {
  }

  /** The head and tail of a concatenation whose first part is not empty come from that part. */
  lemma ConsConcat<T>(a: seq<T>, b: seq<T>)
    requires a != []
    ensures (a + b)[0] == a[0] && (a + b)[1..] == a[1..] + b
  {
  }

  /** `s` with `x` inserted at `pos`: what sits where, and that deleting `x` again gives `s`. */
  lemma Inserted<T>(s: seq<T>, pos: nat, x: T)
    requires pos <= |s|
    ensures var d := s[..pos] + [x] + s[pos..];
      && |d| == |s| + 1 && d[pos] == x
      && (forall i :: 0 <= i < pos ==> d[i] == s[i])
      && (forall i :: pos < i < |d| ==> d[i] == s[i - 1])
      && d[..pos] + d[pos + 1..] == s
  {
    var d := s[..pos] + [x] + s[pos..];
    assert d[..pos] == s[..pos];
    assert d[pos + 1..] == s[pos..];
  }

  /** `s` with position `k` deleted: what sits where, and that putting `s[k]` back gives `s`. */
  lemma Removed<T>(s: seq<T>, k: nat)
    requires k < |s|
    ensures var d := s[..k] + s[k + 1..];
      && |d| == |s| - 1
      && (forall i :: 0 <= i < k ==> d[i] == s[i])
      && (forall i :: k <= i < |d| ==> d[i] == s[i + 1])
      && d[..k] + [s[k]] + d[k..] == s
  {
    var d := s[..k] + s[k + 1..];
    assert d[..k] == s[..k];
    assert d[k..] == s[k + 1..];
  }

  /** An insertion past the head leaves the head and inserts into the tail. */
  lemma InsertedTail<T>(s: seq<T>, pos: nat, x: T)
    requires 0 < pos <= |s|
    ensures var d := s[..pos] + [x] + s[pos..];
      d[0] == s[0] && d[1..] == s[1..][..pos - 1] + [x] + s[1..][pos - 1..]
  {
  }

  /** A deletion past the head leaves the head and deletes from the tail. */
  lemma RemovedTail<T>(s: seq<T>, k: nat)
    requires 0 < k < |s|
    ensures var d := s[..k] + s[k + 1..];
      d[0] == s[0] && d[1..] == s[1..][..k - 1] + s[1..][k..]
  {
  }
}
