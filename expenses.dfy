/**
 * The expenses screen: how the realtime handlers fold an `expenses` or a
 * `contributors` change into the client's copy of the table, and the guard
 * that decides whether "add expense" sends anything at all.
 */
module Expenses {
  import opened Records
  import Snapshot
  import Text

  // ---------------------------------------------------------------------------
  // `expenses` realtime events: keyed by `id`
  // ---------------------------------------------------------------------------

  /** INSERT: the new expense goes first; the earlier ones follow, unchanged and in order. */
  function InsertExpense(prev: seq<Expense>, e: Expense): (next: seq<Expense>)
    ensures |next| == |prev| + 1 && next[0] == e && next[1..] == prev
  {
    [e] + prev
  }

  /** DELETE: every expense with the deleted id goes; the others stay. */
  function DeleteExpense(prev: seq<Expense>, id: int): (next: seq<Expense>)
    ensures forall x :: x in next <==> x in prev && x.id != id
    ensures forall x: Expense :: x.id != id ==> multiset(next)[x] == multiset(prev)[x]
  {
    var keep := (x: Expense) => x.id != id;
    Snapshot.KeepCounts(prev, keep);
    Snapshot.Keep(prev, keep)
  }

  /** UPDATE: every expense with the updated id becomes the new record; the others stay where they are. */
  function UpdateExpense(prev: seq<Expense>, e: Expense): (next: seq<Expense>)
    ensures |next| == |prev|
    ensures forall i :: 0 <= i < |prev| ==> next[i] == if prev[i].id == e.id then e else prev[i]
  {
    Snapshot.Replace(prev, (x: Expense) => x.id == e.id, e)
  }

  /** A delete keeps the order of what it keeps: deleting from a concatenation deletes from each part. */
  lemma DeleteExpenseKeepsOrder(a: seq<Expense>, b: seq<Expense>, id: int)
    ensures DeleteExpense(a + b, id) == DeleteExpense(a, id) + DeleteExpense(b, id)
  {
    Snapshot.KeepAppend(a, b, (x: Expense) => x.id != id);
  }

  /** Deleting an id no expense has changes nothing. */
  lemma DeleteAbsentExpense(prev: seq<Expense>, id: int)
    requires forall x :: x in prev ==> x.id != id
    ensures DeleteExpense(prev, id) == prev
  {
    Snapshot.KeepAll(prev, (x: Expense) => x.id != id);
  }

  /** Deleting an expense just inserted leaves the list as it was, when the id was new. */
  lemma DeleteUndoesInsertExpense(prev: seq<Expense>, e: Expense)
    requires forall x :: x in prev ==> x.id != e.id
    ensures DeleteExpense(InsertExpense(prev, e), e.id) == prev
  {
    DeleteExpenseKeepsOrder([e], prev, e.id);
    DeleteAbsentExpense(prev, e.id);
  }

  /** A delete after an update of the same id is the delete alone: the update leaves nothing behind. */
  lemma DeleteAfterUpdateExpense(prev: seq<Expense>, e: Expense)
    ensures DeleteExpense(UpdateExpense(prev, e), e.id) == DeleteExpense(prev, e.id)
  {
    Snapshot.KeepAfterReplace(prev, (x: Expense) => x.id == e.id, e, (x: Expense) => x.id != e.id);
  }

  /** Replaying the same UPDATE event changes nothing. */
  lemma UpdateExpenseIdempotent(prev: seq<Expense>, e: Expense)
    ensures UpdateExpense(UpdateExpense(prev, e), e) == UpdateExpense(prev, e)
  {
    Snapshot.ReplaceIdempotent(prev, (x: Expense) => x.id == e.id, e);
  }

  // ---------------------------------------------------------------------------
  // `contributors` realtime events: keyed by (expense_id, resident_id)
  // ---------------------------------------------------------------------------

  /** Both halves of the composite key match. */
  predicate SameContributorKey(x: Contributor, y: Contributor) {
    x.expenseId == y.expenseId && x.residentId == y.residentId
  }

  /** INSERT: the new row goes last. */
  function InsertContributor(prev: seq<Contributor>, c: Contributor): (next: seq<Contributor>)
    ensures |next| == |prev| + 1 && next[|prev|] == c && next[..|prev|] == prev
  {
    prev + [c]
  }

  /**
   * DELETE: the rows matching both keys go; a row matching only the
   * expense or only the resident stays.
   */
  function DeleteContributor(prev: seq<Contributor>, c: Contributor): (next: seq<Contributor>)
    ensures forall x :: x in next <==> x in prev && (x.expenseId != c.expenseId || x.residentId != c.residentId)
    ensures forall x: Contributor :: !SameContributorKey(x, c) ==> multiset(next)[x] == multiset(prev)[x]
  {
    var keep := (x: Contributor) => x.expenseId != c.expenseId || x.residentId != c.residentId;
    Snapshot.KeepCounts(prev, keep);
    Snapshot.Keep(prev, keep)
  }

  /** UPDATE: the rows matching both keys become the new row; the others stay where they are. */
  function UpdateContributor(prev: seq<Contributor>, c: Contributor): (next: seq<Contributor>)
    ensures |next| == |prev|
    ensures forall i :: 0 <= i < |prev| ==> next[i] == if SameContributorKey(prev[i], c) then c else prev[i]
  {
    Snapshot.Replace(prev, (x: Contributor) => x.expenseId == c.expenseId && x.residentId == c.residentId, c)
  }

  /**
   * A contributor row is nothing but its key, so an UPDATE replaces each
   * matching row by an equal one: the list is unchanged.
   */
  lemma {:induction false} UpdateContributorChangesNothing(prev: seq<Contributor>, c: Contributor)
    ensures UpdateContributor(prev, c) == prev
  {
    var next := UpdateContributor(prev, c);
    forall i | 0 <= i < |prev| ensures next[i] == prev[i] {
      if SameContributorKey(prev[i], c) {
        assert prev[i] == c;
      }
    }
  }

  /** Deleting a row just appended, when no row had its key, leaves the list as it was. */
  lemma DeleteUndoesInsertContributor(prev: seq<Contributor>, c: Contributor)
    requires c !in prev
    ensures DeleteContributor(InsertContributor(prev, c), c) == prev
  {
    var keep := (x: Contributor) => x.expenseId != c.expenseId || x.residentId != c.residentId;
    Snapshot.KeepAppend(prev, [c], keep);
    Snapshot.KeepAll(prev, keep);
    assert Snapshot.Keep([c], keep) == [];
  }

  // ---------------------------------------------------------------------------
  // The "add expense" guard
  // ---------------------------------------------------------------------------

  /** The expense row the client asks the database to insert; the database assigns `id` and `created_at`. */
  datatype NewExpense = NewExpense(item: string, price: real, careOf: int, notes: string)

  /**
   * `addExpense`: nothing is sent when the item is blank once trimmed, the
   * price is not positive, or no `care_of` or no contributor is selected.
   * Otherwise the expense is sent with the item as typed (untrimmed) and the
   * first selected `care_of`.
   */
  function AddExpense(item: string, price: real, careOf: seq<Resident>, contributors: seq<Resident>, notes: string)
    : (r: Option<NewExpense>)
    ensures r.None? <==> Text.Trim(item) == [] || price <= 0.0 || careOf == [] || contributors == []
    ensures r.Some? ==> r.value.item == item && r.value.price == price && r.value.notes == notes
    ensures r.Some? ==> r.value.careOf == careOf[0].id
  {
    if Text.Trim(item) == [] || price <= 0.0 || |careOf| == 0 || |contributors| == 0 then None
    else Some(NewExpense(item, price, careOf[0].id, notes))
  }

  /**
   * What the guard lets through: a positive price, and an item with at least
   * one character that is not white space; an item of white space alone is
   * never sent, whatever else is filled in.
   */
  lemma AddExpenseSendsOnlyRealItems(item: string, price: real, careOf: seq<Resident>, contributors: seq<Resident>, notes: string)
    ensures AddExpense(item, price, careOf, contributors, notes).Some? ==>
      price > 0.0 && exists k :: 0 <= k < |item| && !Text.IsTrimmable(item[k])
    ensures (forall k :: 0 <= k < |item| ==> Text.IsTrimmable(item[k])) ==>
      AddExpense(item, price, careOf, contributors, notes).None?
  {
    Text.TrimEmpty(item);
  }
}
