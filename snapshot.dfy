/**
 * The two list updates every realtime handler is built from: a `filter`
 * that drops the deleted rows, and a `map` that swaps in the updated row
 * wherever the key matches. Each table's reducers instantiate them with
 * the table's own key.
 */
module Snapshot {

  /** `s.filter(keep)`: the elements satisfying `keep`, in their original order. */
  function Keep<T(!new)>(s: seq<T>, keep: T -> bool): (r: seq<T>)
    ensures |r| <= |s|
    ensures forall x :: x in r <==> x in s && keep(x)
  {
    if s == [] then []
    else (if keep(s[0]) then [s[0]] else []) + Keep(s[1..], keep)
  }

  /** A filter keeps every passing element as often as it occurs, and no failing one. */
  lemma {:induction false} KeepCounts<T(!new)>(s: seq<T>, keep: T -> bool)
    ensures forall x :: keep(x) ==> multiset(Keep(s, keep))[x] == multiset(s)[x]
    ensures forall x :: !keep(x) ==> multiset(Keep(s, keep))[x] == 0
  {
    if s != [] {
      assert s == [s[0]] + s[1..];
      KeepCounts(s[1..], keep);
    }
  }

  /** Filtering distributes over concatenation, so it keeps the relative order of what it keeps. */
  lemma {:induction false} KeepAppend<T(!new)>(a: seq<T>, b: seq<T>, keep: T -> bool)
    ensures Keep(a + b, keep) == Keep(a, keep) + Keep(b, keep)
  {
    if a == [] {
      assert a + b == b;
    } else {
      assert (a + b)[1..] == a[1..] + b;
      KeepAppend(a[1..], b, keep);
    }
  }

  /** A filter that keeps every element changes nothing. */
  lemma {:induction false} KeepAll<T(!new)>(s: seq<T>, keep: T -> bool)
    requires forall x :: x in s ==> keep(x)
    ensures Keep(s, keep) == s
  {
    if s != [] {
      KeepAll(s[1..], keep);
    }
  }

  /** `s.map(x => hit(x) ? v : x)`: every hit replaced by `v`, everything else left in place. */
  function Replace<T>(s: seq<T>, hit: T -> bool, v: T): (r: seq<T>)
    ensures |r| == |s|
    ensures forall i :: 0 <= i < |s| && hit(s[i]) ==> r[i] == v
    ensures forall i :: 0 <= i < |s| && !hit(s[i]) ==> r[i] == s[i]
  {
    if s == [] then []
    else [if hit(s[0]) then v else s[0]] + Replace(s[1..], hit, v)
  }

  /** Replacing the hits by `v` twice is replacing them once, provided `v` is itself a hit. */
  lemma ReplaceIdempotent<T>(s: seq<T>, hit: T -> bool, v: T)
    requires hit(v)
    ensures Replace(Replace(s, hit, v), hit, v) == Replace(s, hit, v)
  {
  }

  /**
   * Filtering out every hit after a replacement gives the same list as
   * filtering before it: an update never resurrects or disturbs what a
   * later delete of the same key removes or keeps.
   */
  lemma {:induction false} KeepAfterReplace<T(!new)>(s: seq<T>, hit: T -> bool, v: T, keep: T -> bool)
    requires !keep(v)
    requires forall x :: hit(x) ==> !keep(x)
    ensures Keep(Replace(s, hit, v), keep) == Keep(s, keep)
  {
    if s != [] {
      var r := Replace(s, hit, v);
      assert r[1..] == Replace(s[1..], hit, v);
      KeepAfterReplace(s[1..], hit, v, keep);
    }
  }
}
