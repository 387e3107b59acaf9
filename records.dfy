/**
 * The records the household budget keeps in its four (five) tables, as the
 * client sees them: one row of `residents`, `expenses`, `contributors`,
 * `payments` and `payment_for` each. Timestamps are kept as the opaque
 * strings the client receives; amounts are exact reals.
 */
module Records {

  datatype Option<T> = None | Some(value: T)

  /** A member of the household. */
  datatype Resident = Resident(id: int, nickname: string, createdAt: string)

  /** A purchase fronted by `careOf`, who is owed for it. */
  datatype Expense = Expense(id: int, createdAt: string, item: string, price: real, careOf: int, notes: string)

  /** "Resident `residentId` shares the cost of expense `expenseId`"; the pair is the key. */
  datatype Contributor = Contributor(expenseId: int, residentId: int)

  /** A settlement: `paidBy` handed `amount` to `receivedBy`. */
  datatype Payment = Payment(id: int, paidBy: int, receivedBy: int, amount: real, notes: string, createdAt: string)

  /** Links a payment to an expense it settles; the pair is the key. */
  datatype PaymentFor = PaymentFor(paymentId: int, expenseId: int)

  /** The ids of a list of residents, collected in list order. */
  function Ids(residents: seq<Resident>): set<int> {
    if residents == [] then {}
    else Ids(residents[..|residents| - 1]) + {residents[|residents| - 1].id}
  }

  /** An id is collected exactly when some resident of the list has it. */
  lemma {:induction false} IdsMembership(residents: seq<Resident>, id: int)
    ensures id in Ids(residents) <==> exists r :: r in residents && r.id == id
  {
    if residents != [] {
      var init := residents[..|residents| - 1];
      var last := residents[|residents| - 1];
      assert residents == init + [last];
      IdsMembership(init, id);
      if id in Ids(init) {
        var r :| r in init && r.id == id;
        assert r in residents;
      }
    }
  }
}
