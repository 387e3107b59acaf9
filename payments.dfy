/**
 * The payments screen: how the realtime handlers fold a `payments` or a
 * `payment_for` change into the client's copy of the table, the guard on
 * "add payment", and the two filters that decide which options the
 * "received by" and "payment for" pickers offer.
 */
module Payments {
  import opened Records
  import Snapshot

  // ---------------------------------------------------------------------------
  // `payments` realtime events: keyed by `id`
  // ---------------------------------------------------------------------------

  /** INSERT: the new payment goes first; the earlier ones follow, unchanged and in order. */
  function InsertPayment(prev: seq<Payment>, p: Payment): (next: seq<Payment>)
    ensures |next| == |prev| + 1 && next[0] == p && next[1..] == prev
  {
    [p] + prev
  }

  /** DELETE: every payment with the deleted id goes; the others stay. */
  function DeletePayment(prev: seq<Payment>, id: int): (next: seq<Payment>)
    ensures forall x :: x in next <==> x in prev && x.id != id
    ensures forall x: Payment :: x.id != id ==> multiset(next)[x] == multiset(prev)[x]
  {
    var keep := (x: Payment) => x.id != id;
    Snapshot.KeepCounts(prev, keep);
    Snapshot.Keep(prev, keep)
  }

  /** UPDATE: every payment with the updated id becomes the new record; the others stay where they are. */
  function UpdatePayment(prev: seq<Payment>, p: Payment): (next: seq<Payment>)
    ensures |next| == |prev|
    ensures forall i :: 0 <= i < |prev| ==> next[i] == if prev[i].id == p.id then p else prev[i]
  {
    Snapshot.Replace(prev, (x: Payment) => x.id == p.id, p)
  }

  /** A delete keeps the order of what it keeps: deleting from a concatenation deletes from each part. */
  lemma DeletePaymentKeepsOrder(a: seq<Payment>, b: seq<Payment>, id: int)
    ensures DeletePayment(a + b, id) == DeletePayment(a, id) + DeletePayment(b, id)
  {
    Snapshot.KeepAppend(a, b, (x: Payment) => x.id != id);
  }

  /** Deleting a payment just inserted leaves the list as it was, when the id was new. */
  lemma DeleteUndoesInsertPayment(prev: seq<Payment>, p: Payment)
    requires forall x :: x in prev ==> x.id != p.id
    ensures DeletePayment(InsertPayment(prev, p), p.id) == prev
  {
    DeletePaymentKeepsOrder([p], prev, p.id);
    Snapshot.KeepAll(prev, (x: Payment) => x.id != p.id);
  }

  /** A delete after an update of the same id is the delete alone. */
  lemma DeleteAfterUpdatePayment(prev: seq<Payment>, p: Payment)
    ensures DeletePayment(UpdatePayment(prev, p), p.id) == DeletePayment(prev, p.id)
  {
    Snapshot.KeepAfterReplace(prev, (x: Payment) => x.id == p.id, p, (x: Payment) => x.id != p.id);
  }

  // ---------------------------------------------------------------------------
  // `payment_for` realtime events: keyed by (expense_id, payment_id)
  // ---------------------------------------------------------------------------

  /** Both halves of the composite key match. */
  predicate SamePaymentForKey(x: PaymentFor, y: PaymentFor) {
    x.expenseId == y.expenseId && x.paymentId == y.paymentId
  }

  /** INSERT: the new link goes last. */
  function InsertPaymentFor(prev: seq<PaymentFor>, f: PaymentFor): (next: seq<PaymentFor>)
    ensures |next| == |prev| + 1 && next[|prev|] == f && next[..|prev|] == prev
  {
    prev + [f]
  }

  /**
   * DELETE: the links matching both keys go; a link matching only the
   * expense or only the payment stays.
   */
  function DeletePaymentFor(prev: seq<PaymentFor>, f: PaymentFor): (next: seq<PaymentFor>)
    ensures forall x :: x in next <==> x in prev && (x.expenseId != f.expenseId || x.paymentId != f.paymentId)
    ensures forall x: PaymentFor :: !SamePaymentForKey(x, f) ==> multiset(next)[x] == multiset(prev)[x]
  {
    var keep := (x: PaymentFor) => x.expenseId != f.expenseId || x.paymentId != f.paymentId;
    Snapshot.KeepCounts(prev, keep);
    Snapshot.Keep(prev, keep)
  }

  /** UPDATE: the links matching both keys become the new link; the others stay where they are. */
  function UpdatePaymentFor(prev: seq<PaymentFor>, f: PaymentFor): (next: seq<PaymentFor>)
    ensures |next| == |prev|
    ensures forall i :: 0 <= i < |prev| ==> next[i] == if SamePaymentForKey(prev[i], f) then f else prev[i]
  {
    Snapshot.Replace(prev, (x: PaymentFor) => x.expenseId == f.expenseId && x.paymentId == f.paymentId, f)
  }

  /**
   * A link is nothing but its key, so an UPDATE replaces each matching link
   * by an equal one: the list is unchanged.
   */
  lemma {:induction false} UpdatePaymentForChangesNothing(prev: seq<PaymentFor>, f: PaymentFor)
    ensures UpdatePaymentFor(prev, f) == prev
  {
    var next := UpdatePaymentFor(prev, f);
    forall i | 0 <= i < |prev| ensures next[i] == prev[i] {
      if SamePaymentForKey(prev[i], f) {
        assert prev[i] == f;
      }
    }
  }

  /** Deleting a link just appended, when no link had its key, leaves the list as it was. */
  lemma DeleteUndoesInsertPaymentFor(prev: seq<PaymentFor>, f: PaymentFor)
    requires f !in prev
    ensures DeletePaymentFor(InsertPaymentFor(prev, f), f) == prev
  {
    var keep := (x: PaymentFor) => x.expenseId != f.expenseId || x.paymentId != f.paymentId;
    Snapshot.KeepAppend(prev, [f], keep);
    Snapshot.KeepAll(prev, keep);
    assert Snapshot.Keep([f], keep) == [];
  }

  // ---------------------------------------------------------------------------
  // The "add payment" guard and the pickers' filters
  // ---------------------------------------------------------------------------

  /** The payment row the client asks the database to insert; the database assigns `id` and `created_at`. */
  datatype NewPayment = NewPayment(paidBy: int, receivedBy: int, amount: real, notes: string)

  /**
   * `addPayment`: nothing is sent when the amount is not positive or any of
   * the "payment for", "paid by" and "received by" pickers is empty.
   * Otherwise the payment is sent between the first selected payer and the
   * first selected receiver. The guard does not itself compare the two.
   */
  function AddPayment(amount: real, paymentFor: seq<Expense>, paidBy: seq<Resident>, receivedBy: seq<Resident>, notes: string)
    : (r: Option<NewPayment>)
    ensures r.None? <==> amount <= 0.0 || paymentFor == [] || paidBy == [] || receivedBy == []
    ensures r.Some? ==> r.value.paidBy == paidBy[0].id && r.value.receivedBy == receivedBy[0].id
    ensures r.Some? ==> r.value.amount == amount && r.value.amount > 0.0 && r.value.notes == notes
  {
    if amount <= 0.0 || |paymentFor| == 0 || |paidBy| == 0 || |receivedBy| == 0 then None
    else Some(NewPayment(paidBy[0].id, receivedBy[0].id, amount, notes))
  }

  /**
   * The "received by" filter: a resident is offered unless it is the
   * selected payer. With no payer selected, `paidBy[0]?.id` is undefined and
   * every resident is offered.
   */
  predicate ReceiverOffered(option: Resident, paidBy: seq<Resident>) {
    paidBy == [] || option.id != paidBy[0].id
  }

  /** The residents the "received by" picker offers. */
  function ReceiverOptions(residents: seq<Resident>, paidBy: seq<Resident>): (options: seq<Resident>)
    ensures forall r :: r in options <==> r in residents && (paidBy == [] || r.id != paidBy[0].id)
    ensures paidBy != [] ==> forall r :: r in options ==> r.id != paidBy[0].id
  {
    Snapshot.Keep(residents, (r: Resident) => ReceiverOffered(r, paidBy))
  }

  /** With no payer selected, the picker offers every resident, in order. */
  lemma ReceiverOptionsWithoutPayer(residents: seq<Resident>)
    ensures ReceiverOptions(residents, []) == residents
  {
    Snapshot.KeepAll(residents, (r: Resident) => ReceiverOffered(r, []));
  }

  /**
   * The "payment for" filter: an expense is offered exactly when the
   * selected payer has a contributor row for it and its `care_of` is the
   * selected receiver. With either picker empty the comparison is against
   * undefined and nothing is offered.
   */
  predicate ExpenseOffered(option: Expense, contributors: seq<Contributor>, paidBy: seq<Resident>, receivedBy: seq<Resident>) {
    && paidBy != [] && receivedBy != []
    && (exists c :: c in contributors && c.expenseId == option.id && c.residentId == paidBy[0].id)
    && option.careOf == receivedBy[0].id
  }

  /** The expenses the "payment for" picker offers. */
  function ExpenseOptions(expenses: seq<Expense>, contributors: seq<Contributor>, paidBy: seq<Resident>, receivedBy: seq<Resident>)
    : (options: seq<Expense>)
    ensures forall e :: e in options <==>
      && e in expenses && paidBy != [] && receivedBy != []
      && Contributor(e.id, paidBy[0].id) in contributors
      && e.careOf == receivedBy[0].id
  {
    Snapshot.Keep(expenses, (e: Expense) => ExpenseOffered(e, contributors, paidBy, receivedBy))
  }

  /**
   * Paying for an offered expense settles the payer's own share of it: the
   * payer is one of its contributors, and the receiver is the resident that
   * expense is owed to. So a payment picked through the filters always
   * runs against the debt the expense created, never the other way.
   */
  lemma OfferedExpenseMatchesPayment(expenses: seq<Expense>, contributors: seq<Contributor>,
                                      paidBy: seq<Resident>, receivedBy: seq<Resident>, amount: real, notes: string)
    requires amount > 0.0
    ensures forall e :: e in ExpenseOptions(expenses, contributors, paidBy, receivedBy) ==>
      && AddPayment(amount, [e], paidBy, receivedBy, notes).Some?
      && Contributor(e.id, AddPayment(amount, [e], paidBy, receivedBy, notes).value.paidBy) in contributors
      && e.careOf == AddPayment(amount, [e], paidBy, receivedBy, notes).value.receivedBy
  {
  }
}
