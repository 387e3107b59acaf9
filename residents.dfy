/**
 * The residents screen: the list sorted by nickname, the realtime handlers
 * that keep the client's copy sorted, the "add resident" guard and the
 * "delete resident" guard.
 *
 * `localeCompare(…, { sensitivity: "base" })` is the relation `le` ("may
 * come before"), taken as any total preorder on strings; `toLowerCase` is
 * the function `lower`, taken as any function on strings.
 */
module Residents {
  import opened Records
  import Snapshot
  import Sorting
  import Text

  /** The comparator on residents: by nickname under `le`. */
  function ByNickname(le: (string, string) -> bool): (order: (Resident, Resident) -> bool)
    ensures forall x, y :: order(x, y) == le(x.nickname, y.nickname)
  {
    (x: Resident, y: Resident) => le(x.nickname, y.nickname)
  }

  /** Comparing nicknames by a total preorder orders residents by a total preorder. */
  lemma ByNicknameIsTotalPreorder(le: (string, string) -> bool)
    requires Sorting.TotalPreorder(le)
    ensures Sorting.TotalPreorder(ByNickname(le))
  {
    var order := ByNickname(le);
    forall x: Resident, y: Resident, z: Resident | order(x, y) && order(y, z) ensures order(x, z) {
      assert le(x.nickname, y.nickname) && le(y.nickname, z.nickname);
    }
    forall x: Resident, y: Resident ensures order(x, y) || order(y, x) {
      assert le(x.nickname, y.nickname) || le(y.nickname, x.nickname);
    }
  }

  /**
   * `sortedResidents`: a copy of the residents in a fresh array, sorted
   * there by nickname; the same residents, each as often as before.
   */
  method SortedResidents(residents: seq<Resident>, le: (string, string) -> bool) returns (sorted: seq<Resident>)
    requires Sorting.TotalPreorder(le)
    ensures Sorting.Sorted(sorted, ByNickname(le))
    ensures multiset(sorted) == multiset(residents)
  {
    var a := new Resident[|residents|](i requires 0 <= i < |residents| => residents[i]);
    assert a[..] == residents;
    ByNicknameIsTotalPreorder(le);
    Sorting.SortInPlace(a, ByNickname(le));
    sorted := a[..];
  }

  /** INSERT: every earlier resident and the new one, in nickname order. */
  method InsertResident(prev: seq<Resident>, r: Resident, le: (string, string) -> bool) returns (next: seq<Resident>)
    requires Sorting.TotalPreorder(le)
    ensures Sorting.Sorted(next, ByNickname(le))
    ensures multiset(next) == multiset(prev) + multiset{r}
    ensures forall x :: x in next <==> x in prev || x == r
  {
    next := SortedResidents(prev + [r], le);
    assert multiset(prev + [r]) == multiset(prev) + multiset{r};
    assert forall x :: x in next <==> x in multiset(next);
  }

  /** DELETE: every resident with the deleted id goes; the others stay, in their order. */
  function DeleteResident(prev: seq<Resident>, id: int): (next: seq<Resident>)
    ensures forall x :: x in next <==> x in prev && x.id != id
    ensures forall x: Resident :: x.id != id ==> multiset(next)[x] == multiset(prev)[x]
  {
    var keep := (x: Resident) => x.id != id;
    Snapshot.KeepCounts(prev, keep);
    Snapshot.Keep(prev, keep)
  }

  /**
   * UPDATE: every resident with the updated id becomes the new record,
   * the others stay, and the list is sorted again by nickname.
   */
  method UpdateResident(prev: seq<Resident>, r: Resident, le: (string, string) -> bool) returns (next: seq<Resident>)
    requires Sorting.TotalPreorder(le)
    ensures Sorting.Sorted(next, ByNickname(le))
    ensures multiset(next) == multiset(Snapshot.Replace(prev, (x: Resident) => x.id == r.id, r))
    ensures |next| == |prev|
    ensures forall x :: x in next ==> x == r || (x in prev && x.id != r.id)
  {
    var replaced := Snapshot.Replace(prev, (x: Resident) => x.id == r.id, r);
    next := SortedResidents(replaced, le);
    assert |next| == |multiset(next)|;
    forall x | x in next ensures x == r || (x in prev && x.id != r.id) {
      assert x in multiset(next);
      assert x in replaced;
      var i :| 0 <= i < |replaced| && replaced[i] == x;
      if prev[i].id != r.id {
        assert x == prev[i];
      }
    }
  }

  /**
   * A sorted list of residents stays sorted when a resident leaves: a
   * DELETE needs no re-sort.
   */
  lemma DeleteKeepsSorted(prev: seq<Resident>, id: int, le: (string, string) -> bool)
    requires Sorting.Sorted(prev, ByNickname(le))
    ensures Sorting.Sorted(DeleteResident(prev, id), ByNickname(le))
  {
    Sorting.FilterKeepsSorted(prev, (x: Resident) => x.id != id, ByNickname(le));
  }

  // ---------------------------------------------------------------------------
  // The "add resident" and "delete resident" guards
  // ---------------------------------------------------------------------------

  /** What "add resident" does with the typed nickname. */
  datatype AddOutcome =
    | Ignored                      // blank input: nothing happens
    | Rejected(message: string)    // a duplicate: the message is shown, nothing is sent
    | Submitted(nickname: string)  // the insert is sent with this nickname

  /** The message shown for a duplicate nickname. */
  const DuplicateMessage: string := "That nickname already exists."

  /** Some resident's nickname, trimmed and lowered, is the lowered `trimmed`. */
  predicate Taken(trimmed: string, residents: seq<Resident>, lower: string -> string) {
    exists r :: r in residents && lower(Text.Trim(r.nickname)) == lower(trimmed)
  }

  /**
   * `addResident`: blank input (once trimmed) is ignored; a nickname that,
   * trimmed and lowered, matches an existing one trimmed and lowered is
   * rejected with the duplicate message; anything else is sent, trimmed.
   */
  function AddResident(input: string, residents: seq<Resident>, lower: string -> string): (r: AddOutcome)
    ensures r.Ignored? <==> Text.Trim(input) == []
    ensures r.Rejected? <==> Text.Trim(input) != [] && Taken(Text.Trim(input), residents, lower)
    ensures r.Rejected? ==> r.message == "That nickname already exists."
    ensures r.Submitted? ==> r.nickname == Text.Trim(input)
  {
    var trimmed := Text.Trim(input);
    if trimmed == [] then Ignored
    else if Taken(trimmed, residents, lower) then Rejected(DuplicateMessage)
    else Submitted(trimmed)
  }

  /**
   * A submitted nickname is already in its trimmed form and is not blank:
   * it has a first and a last character, neither of them white space.
   */
  lemma SubmittedIsTrimmed(input: string, residents: seq<Resident>, lower: string -> string)
    ensures AddResident(input, residents, lower).Submitted? ==>
      var n := AddResident(input, residents, lower).nickname;
      && n != [] && Text.Trim(n) == n
      && !Text.IsTrimmable(n[0]) && !Text.IsTrimmable(n[|n| - 1])
  {
    Text.TrimIdempotent(input);
    Text.TrimIsCore(input);
  }

  /**
   * Once the submitted resident is in the list, typing the same input
   * again (or the same nickname with other outer white space) is rejected
   * as a duplicate.
   */
  lemma SubmittingTwiceIsRejected(input: string, other: string, residents: seq<Resident>, lower: string -> string,
                                  id: int, createdAt: string)
    requires AddResident(input, residents, lower).Submitted?
    requires Text.Trim(other) == Text.Trim(input)
    ensures AddResident(other, residents + [Resident(id, Text.Trim(input), createdAt)], lower)
         == Rejected("That nickname already exists.")
  {
    var added := Resident(id, Text.Trim(input), createdAt);
    Text.TrimIdempotent(input);
    assert added in residents + [added];
    assert lower(Text.Trim(added.nickname)) == lower(Text.Trim(other));
  }

  /**
   * `handleDelete`: `!deleteId` stops on no selection and also on id 0,
   * which is falsy; any other id is deleted.
   */
  function HandleDelete(deleteId: Option<int>): (r: Option<int>)
    ensures r.Some? <==> deleteId.Some? && deleteId.value != 0
    ensures r.Some? ==> r.value == deleteId.value
  {
    match deleteId
    case None => None
    case Some(id) => if id == 0 then None else Some(id)
  }
}
