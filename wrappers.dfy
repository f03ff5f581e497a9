/** Failure-carrying result types, and facts about sequences, shared by every module of the model. */
module Wrappers {

  datatype Option<+T> = None | Some(value: T)

  /** A value or an error, the model of Go's `(T, error)` return pair. */
  datatype Result<+T, +E> = Ok(value: T) | Err(error: E)

  /** Success or an error, the model of a Go function that returns only `error`. */
  datatype Outcome<+E> = Pass | Fail(error: E)

  /** A prefix one longer is the prefix and the next element. */
  lemma PrefixSnoc<T>(s: seq<T>, k: nat)
    requires k < |s|
    ensures s[..k + 1] == s[..k] + [s[k]]
  {
  }

  /** A prefix followed by the next element is the prefix one longer. */
  lemma PrefixGrows<T>(c: seq<T>, s: seq<T>, k: nat)
    requires k < |s| && c == s[..k] + [s[k]]
    ensures c == s[..k + 1]
  {
    PrefixSnoc(s, k);
  }

  /**
   * q is the subsequence of xs at the strictly increasing positions idx,
   * which are exactly the positions whose element satisfies keep.
   */
  ghost predicate KeptInOrder<T>(q: seq<T>, xs: seq<T>, idx: seq<nat>, keep: T -> bool)
  {
    |idx| == |q| &&
    (forall k | 0 <= k < |idx| :: idx[k] < |xs| && q[k] == xs[idx[k]]) &&
    (forall k, l | 0 <= k < l < |idx| :: idx[k] < idx[l]) &&
    (forall j | 0 <= j < |xs| :: j in idx <==> keep(xs[j]))
  }

  /** Appending one element keeps the subsequence relation. */
  lemma KeptInOrderSnoc<T>(q: seq<T>, xs: seq<T>, idx: seq<nat>, keep: T -> bool, x: T)
    requires KeptInOrder(q, xs, idx, keep)
    ensures KeptInOrder(q + (if keep(x) then [x] else []), xs + [x],
                        idx + (if keep(x) then [|xs|] else []), keep)
  {
  }

  /** A slice that lies within u is the same slice of u + t. */
  lemma SliceOfPrefix<T>(u: seq<T>, t: seq<T>, i: nat, j: nat)
    requires i <= j <= |u|
    ensures (u + t)[i..j] == u[i..j]
  {
  }

  /** The parts joined in order. */
  ghost function Concat<T>(parts: seq<seq<T>>): seq<T>
  {
    if |parts| == 0 then [] else Concat(parts[..|parts| - 1]) + parts[|parts| - 1]
  }

  /** Joining one part more appends it. */
  lemma ConcatSnoc<T>(parts: seq<seq<T>>, p: seq<T>)
    ensures Concat(parts + [p]) == Concat(parts) + p
  {
    assert (parts + [p])[..|parts|] == parts;
  }

  /** Parts of at most one element each join to no more elements than there are parts. */
  lemma {:induction false} ConcatBound<T>(parts: seq<seq<T>>)
    requires forall j | 0 <= j < |parts| :: |parts[j]| <= 1
    ensures |Concat(parts)| <= |parts|
  {
    if |parts| > 0 {
      ConcatBound(parts[..|parts| - 1]);
    }
  }

  /** An element of the join lies in one of the parts, and every part's elements are in the join. */
  lemma {:induction false} ConcatMembers<T>(parts: seq<seq<T>>, x: T)
    ensures x in Concat(parts) <==> exists j | 0 <= j < |parts| :: x in parts[j]
  {
    if |parts| > 0 {
      var front := parts[..|parts| - 1];
      ConcatMembers(front, x);
      if exists j | 0 <= j < |front| :: x in front[j] {
        var j :| 0 <= j < |front| && x in front[j];
        assert x in parts[j];
      }
      if exists j | 0 <= j < |parts| :: x in parts[j] {
        var j :| 0 <= j < |parts| && x in parts[j];
        if j < |front| {
          assert x in front[j];
        }
      }
    }
  }
}
