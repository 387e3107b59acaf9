/**
 * `Array.prototype.sort` with a comparator, as the client uses it: the
 * comparator is read as a relation `le(x, y)` ("x may come before y"),
 * which a consistent comparator makes a total preorder. The sort is an
 * in-place insertion sort; what is proved of it is that it orders the
 * array and permutes its elements.
 */
module Sorting {
  import Snapshot

  /** `le` is total and transitive (hence reflexive): what a consistent comparator gives. */
  ghost predicate TotalPreorder<T(!new)>(le: (T, T) -> bool) {
    && (forall x, y :: le(x, y) || le(y, x))
    && (forall x, y, z :: le(x, y) && le(y, z) ==> le(x, z))
  }

  /** Every element may come before every later one. */
  ghost predicate Sorted<T>(s: seq<T>, le: (T, T) -> bool) {
    forall i, j :: 0 <= i < j < |s| ==> le(s[i], s[j])
  }

  /** Swaps `a[i]` and `a[j]`; nothing else changes. */
  method Swap<T>(a: array<T>, i: int, j: int)
    requires 0 <= i < a.Length && 0 <= j < a.Length
    modifies a
    ensures a[i] == old(a[j]) && a[j] == old(a[i])
    ensures forall k :: 0 <= k < a.Length && k != i && k != j ==> a[k] == old(a[k])
    ensures multiset(a[..]) == old(multiset(a[..]))
  {
    a[i], a[j] := a[j], a[i];
  }

  /** Sorts `a` in place: the result is ordered by `le` and a permutation of the input. */
  method SortInPlace<T(!new)>(a: array<T>, le: (T, T) -> bool)
    requires TotalPreorder(le)
    modifies a
    ensures Sorted(a[..], le)
    ensures multiset(a[..]) == old(multiset(a[..]))
  {
    var i := 0;
    while i < a.Length
      invariant 0 <= i <= a.Length
      invariant Sorted(a[..i], le)
      invariant multiset(a[..]) == old(multiset(a[..]))
    {
      var j := i;
      // a[..i+1] is sorted everywhere except around position j, and a[j]
      // may come before everything to its right.
      while j > 0 && !le(a[j - 1], a[j])
        invariant 0 <= j <= i
        invariant forall k, l :: 0 <= k < l <= i && k != j && l != j ==> le(a[k], a[l])
        invariant forall k, l :: 0 <= k < j < l <= i ==> le(a[k], a[l])
        invariant forall l :: j < l <= i ==> le(a[j], a[l])
        invariant multiset(a[..]) == old(multiset(a[..]))
      {
        Swap(a, j - 1, j);
        j := j - 1;
      }
      i := i + 1;
    }
    assert a[..a.Length] == a[..];
  }

  /** An element that may come before everything in a sorted list may head it. */
  lemma SortedCons<T>(x: T, s: seq<T>, le: (T, T) -> bool)
    requires Sorted(s, le)
    requires forall y :: y in s ==> le(x, y)
    ensures Sorted([x] + s, le)
  {
    var t := [x] + s;
    forall i, j | 0 <= i < j < |t| ensures le(t[i], t[j]) {
      assert t[j] == s[j - 1];
      if i > 0 {
        assert t[i] == s[i - 1];
      }
    }
  }

  /** Filtering a sorted list leaves it sorted: what is kept keeps its relative order. */
  lemma {:induction false} FilterKeepsSorted<T(!new)>(s: seq<T>, keep: T -> bool, le: (T, T) -> bool)
    requires Sorted(s, le)
    ensures Sorted(Snapshot.Keep(s, keep), le)
  {
    if s != [] {
      var rest := Snapshot.Keep(s[1..], keep);
      assert Sorted(s[1..], le) by {
        forall i, j | 0 <= i < j < |s[1..]| ensures le(s[1..][i], s[1..][j]) {
          assert s[1..][i] == s[i + 1] && s[1..][j] == s[j + 1];
        }
      }
      FilterKeepsSorted(s[1..], keep, le);
      var head := if keep(s[0]) then [s[0]] else [];
      assert Snapshot.Keep(s, keep) == head + rest;
      forall y | y in rest ensures le(s[0], y) {
        var j :| 0 <= j < |s[1..]| && s[1..][j] == y;
        assert y == s[j + 1];
      }
      if keep(s[0]) {
        SortedCons(s[0], rest, le);
      }
    }
  }
}
