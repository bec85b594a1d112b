/*
 * Facts about sequences that the queue's ghost state relies on: distinct
 * elements (a node is linked into a ring at most once) and reversal (what
 * `q_reverse` does to the order of the ring).
 */
module Sequences {

  /** No element occurs twice. */
  ghost predicate Distinct<T>(s: seq<T>)
  {
    s == [] || (s[0] !in s[1..] && Distinct(s[1..]))
  }

  lemma {:induction false} DistinctAt<T>(s: seq<T>, i: nat, j: nat)
    requires Distinct(s) && i < j < |s|
    ensures s[i] != s[j]
  {
    if i == 0 {
      assert s[j] == s[1..][j - 1];
    } else {
      DistinctAt(s[1..], i - 1, j - 1);
    }
  }

  /** The element at `k` of a distinct sequence occurs nowhere else in it. */
  lemma OccursOnce<T>(s: seq<T>, k: nat)
    requires Distinct(s) && k < |s|
    ensures forall j :: 0 <= j < |s| && j != k ==> s[j] != s[k]
  {
    forall j | 0 <= j < |s| && j != k
      ensures s[j] != s[k]
    {
      if j < k {
        DistinctAt(s, j, k);
      } else {
        DistinctAt(s, k, j);
      }
    }
  }

  /** Pairwise distinct elements make a distinct sequence. */
  lemma {:induction false} DistinctFromPairs<T>(s: seq<T>)
    requires forall i, j :: 0 <= i < j < |s| ==> s[i] != s[j]
    ensures Distinct(s)
  {
    if s != [] {
      var t := s[1..];
      forall i, j | 0 <= i < j < |t|
        ensures t[i] != t[j]
      {
        assert t[i] == s[i + 1] && t[j] == s[j + 1];
      }
      DistinctFromPairs(t);
    }
  }

  lemma {:induction false} DistinctSnoc<T>(s: seq<T>, x: T)
    requires Distinct(s) && x !in s
    ensures Distinct(s + [x])
  {
    if s != [] {
      assert (s + [x])[1..] == s[1..] + [x];
      DistinctSnoc(s[1..], x);
    }
  }

  /** The elements of `s` in the opposite order. */
  function Reversed<T>(s: seq<T>): seq<T>
  {
    if s == [] then [] else Reversed(s[1..]) + [s[0]]
  }

  lemma {:induction false} ReversedLength<T>(s: seq<T>)
    ensures |Reversed(s)| == |s|
  {
    if s != [] {
      ReversedLength(s[1..]);
    }
  }

  /** Position `k` of the reversal holds the element `k` places from the end. */
  lemma {:induction false} ReversedAt<T>(s: seq<T>, k: nat)
    requires k < |s|
    ensures |Reversed(s)| == |s| && Reversed(s)[k] == s[|s| - 1 - k]
  {
    ReversedLength(s);
    ReversedLength(s[1..]);
    if k < |s| - 1 {
      ReversedAt(s[1..], k);
    }
  }

  /** Reversing twice gives back the original order. */
  lemma ReversedTwice<T>(s: seq<T>)
    ensures Reversed(Reversed(s)) == s
  {
    var r := Reversed(s);
    ReversedLength(s);
    ReversedLength(r);
    forall k | 0 <= k < |s|
      ensures Reversed(r)[k] == s[k]
    {
      ReversedAt(r, k);
      ReversedAt(s, |s| - 1 - k);
    }
  }

  /** Reversal keeps a sequence free of repetitions. */
  lemma ReversedDistinct<T>(s: seq<T>)
    requires Distinct(s)
    ensures Distinct(Reversed(s))
  {
    var r := Reversed(s);
    ReversedLength(s);
    forall i, j | 0 <= i < j < |r|
      ensures r[i] != r[j]
    {
      ReversedAt(s, i);
      ReversedAt(s, j);
      DistinctAt(s, |s| - 1 - j, |s| - 1 - i);
    }
    DistinctFromPairs(r);
  }

  /** In a distinct sequence every element occurs exactly once. */
  lemma {:induction false} DistinctOnce<T>(s: seq<T>, x: T)
    requires Distinct(s) && x in s
    ensures multiset(s)[x] == 1
  {
    assert s == [s[0]] + s[1..];
    if s[0] == x {
      assert x !in multiset(s[1..]);
    } else {
      DistinctOnce(s[1..], x);
    }
  }
}
