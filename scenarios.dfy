/**
 * Worked examples of the owe table on a household of three: Alice (1),
 * Bob (2) and Cara (3). Alice fronts a 300 expense that all three share;
 * then Bob pays her 100, then 50 more.
 */
module Scenarios {
  import opened Records
  import opened Ledger
  import Snapshot

  /** The household, the expense, its three contributor rows. */
  predicate Groceries(ids: set<int>, e: Expense, rows: seq<Contributor>) {
    && ids == {1, 2, 3}
    && e == Expense(1, "", "groceries", 300.0, 1, "")
    && rows == [Contributor(1, 1), Contributor(1, 2), Contributor(1, 3)]
  }

  /** Each of the three rows is worth a third of the price. */
  lemma GroceriesShare(ids: set<int>, e: Expense, rows: seq<Contributor>)
    requires Groceries(ids, e, rows)
    ensures ContributorsOf(1, rows) == rows
    ensures Share(e, rows) == 100.0
  {
    Snapshot.KeepAll(rows, (c: Contributor) => c.expenseId == 1);
  }

  /** Visiting the three rows: each resident, Alice included, is counted one share towards Alice. */
  lemma GroceriesOwing(ids: set<int>, e: Expense, rows: seq<Contributor>, a: int, b: int)
    requires Groceries(ids, e, rows)
    ensures Owing(a, b, e, rows, 100.0) == if b == 1 && 1 <= a <= 3 then 100.0 else 0.0
  {
    var one, two := rows[..1], rows[..2];
    assert two[..1] == one && one[..0] == [];
    assert Owing(a, b, e, one, 100.0) == if b == 1 && a == 1 then 100.0 else 0.0;
    assert Owing(a, b, e, two, 100.0) == if b == 1 && 1 <= a <= 2 then 100.0 else 0.0;
  }

  /** What each owes each other through the groceries, before any payment. */
  lemma GroceriesNet(ids: set<int>, e: Expense, rows: seq<Contributor>, a: int, b: int)
    requires Groceries(ids, e, rows)
    requires a in ids && b in ids && a != b
    ensures Net(a, b, [e], rows, []) == if b == 1 then 100.0 else if a == 1 then -100.0 else 0.0
  {
    GroceriesShare(ids, e, rows);
    GroceriesOwing(ids, e, rows, a, b);
    GroceriesOwing(ids, e, rows, b, a);
    assert [e][..0] == [];
    assert Owed(a, b, [e], rows) == Owing(a, b, e, rows, 100.0);
    assert Owed(b, a, [e], rows) == Owing(b, a, e, rows, 100.0);
  }

  /** The unpruned table after the groceries: Bob and Cara each owe Alice 100, Bob and Cara are even. */
  lemma GroceriesTable(ids: set<int>, e: Expense, rows: seq<Contributor>)
    requires Groceries(ids, e, rows)
    ensures var t := Balances(ids, [e], rows, []);
      && t[2][1] == 100.0 && t[3][1] == 100.0
      && t[1][2] == -100.0 && t[1][3] == -100.0
      && t[2][3] == 0.0 && t[3][2] == 0.0
  {
    GroceriesNet(ids, e, rows, 2, 1);
    GroceriesNet(ids, e, rows, 3, 1);
    GroceriesNet(ids, e, rows, 1, 2);
    GroceriesNet(ids, e, rows, 1, 3);
    GroceriesNet(ids, e, rows, 2, 3);
    GroceriesNet(ids, e, rows, 3, 2);
  }

  /**
   * An equal three-way split, as the summary shows it: Bob and Cara each
   * owe Alice 100; Alice's own row counts in the divisor but adds nothing,
   * she has no self-entry, and the even Bob–Cara pair is pruned away.
   */
  lemma EqualSplit(ids: set<int>, e: Expense, rows: seq<Contributor>)
    requires Groceries(ids, e, rows)
    ensures var t := Pruned(Balances(ids, [e], rows, []));
      && 2 in t && 1 in t[2] && t[2][1] == 100.0
      && 3 in t && 1 in t[3] && t[3][1] == 100.0
      && 1 in t && 2 in t[1] && 3 in t[1] && t[1][2] == -100.0 && t[1][3] == -100.0
      && 1 !in t[1]
      && (2 !in t || 3 !in t[2]) && (3 !in t || 2 !in t[3])
  {
    GroceriesTable(ids, e, rows);
    RoundsToZeroIff(100.0);
    RoundsToZeroIff(-100.0);
    RoundsToZeroIff(0.0);
  }

  /** Bob paying his 100 settles his debt: the pair drops out of the pruned table, Cara's debt stays. */
  lemma PaymentSettles(ids: set<int>, e: Expense, rows: seq<Contributor>, p: Payment)
    requires Groceries(ids, e, rows)
    requires p.paidBy == 2 && p.receivedBy == 1 && p.amount == 100.0
    ensures var t := Pruned(Balances(ids, [e], rows, [p]));
      && (2 !in t || 1 !in t[2]) && (1 !in t || 2 !in t[1])
      && 3 in t && 1 in t[3] && t[3][1] == 100.0
  {
    GroceriesTable(ids, e, rows);
    PaymentStep(ids, [e], rows, [], p);
    assert [] + [p] == [p];
  }

  /** Bob paying 50 more than he owed turns the debt around: Alice now owes Bob 50. */
  lemma OverpaymentFlipsSign(ids: set<int>, e: Expense, rows: seq<Contributor>, p: Payment, q: Payment)
    requires Groceries(ids, e, rows)
    requires p.paidBy == 2 && p.receivedBy == 1 && p.amount == 100.0
    requires q.paidBy == 2 && q.receivedBy == 1 && q.amount == 50.0
    ensures var t := Pruned(Balances(ids, [e], rows, [p, q]));
      && 1 in t && 2 in t[1] && t[1][2] == 50.0
      && 2 in t && 1 in t[2] && t[2][1] == -50.0
  {
    var t := Balances(ids, [e], rows, [p, q]);
    GroceriesNet(ids, e, rows, 1, 2);
    GroceriesNet(ids, e, rows, 2, 1);
    PaidAfterPayment(2, 1, [p], q);
    PaidAfterPayment(1, 2, [p], q);
    PaidAfterPayment(2, 1, [], p);
    PaidAfterPayment(1, 2, [], p);
    assert [] + [p] == [p] && [p] + [q] == [p, q];
    assert Paid(2, 1, [p, q]) == 150.0 && Paid(1, 2, [p, q]) == 0.0;
    assert t[1][2] == Net(1, 2, [e], rows, [p, q]) == 50.0;
    assert t[2][1] == Net(2, 1, [e], rows, [p, q]) == -50.0;
  }
}
