/**
 * What the owe table of the summary screen holds, as functions of the four
 * snapshots: the table is indexed by ordered pairs of distinct resident
 * ids, and the entry for (a, b) is what a owes b (negative: what b owes a).
 * The imperative computation in module Summary is proved equal to these
 * definitions; the lemmas here state what the definitions promise.
 */
module Ledger {
  import opened Records
  import Snapshot

  /** The owe table: `tally[a][b]` is what resident `a` owes resident `b`. */
  type Tally = map<int, map<int, real>>

  // ---------------------------------------------------------------------------
  // Expense shares and payments, summed in the order the computation visits them
  // ---------------------------------------------------------------------------

  /** The contributor rows of one expense: `contributorsData.filter(c => c.expense_id === expenseId)`. */
  function ContributorsOf(expenseId: int, contributors: seq<Contributor>): (rows: seq<Contributor>)
    ensures forall c :: c in rows <==> c in contributors && c.expenseId == expenseId
    ensures forall r :: multiset(rows)[Contributor(expenseId, r)] == multiset(contributors)[Contributor(expenseId, r)]
  {
    var keep := (c: Contributor) => c.expenseId == expenseId;
    Snapshot.KeepCounts(contributors, keep);
    Snapshot.Keep(contributors, keep)
  }

  /**
   * One contributor's part of an expense: the price over the number of its
   * contributor rows, with 1 standing in for an expense that has none.
   */
  function Share(e: Expense, contributors: seq<Contributor>): real {
    var n := |ContributorsOf(e.id, contributors)|;
    e.price / (if n == 0 then 1 else n) as real
  }

  /** What `a` comes to owe `b` from the contributor rows `rows` of expense `e`, each worth `share`. */
  function Owing(a: int, b: int, e: Expense, rows: seq<Contributor>, share: real): real {
    if rows == [] then 0.0
    else
      Owing(a, b, e, rows[..|rows| - 1], share)
      + (if rows[|rows| - 1].residentId == a && e.careOf == b then share else 0.0)
  }

  /** What `a` comes to owe `b` from all of `expenses`. */
  function Owed(a: int, b: int, expenses: seq<Expense>, contributors: seq<Contributor>): real {
    if expenses == [] then 0.0
    else
      var e := expenses[|expenses| - 1];
      Owed(a, b, expenses[..|expenses| - 1], contributors)
      + Owing(a, b, e, ContributorsOf(e.id, contributors), Share(e, contributors))
  }

  /** The total `a` has paid `b`. */
  function Paid(a: int, b: int, payments: seq<Payment>): real {
    if payments == [] then 0.0
    else
      var p := payments[|payments| - 1];
      Paid(a, b, payments[..|payments| - 1]) + (if p.paidBy == a && p.receivedBy == b then p.amount else 0.0)
  }

  /** The net amount `a` owes `b`. */
  function Net(a: int, b: int, expenses: seq<Expense>, contributors: seq<Contributor>, payments: seq<Payment>): real {
    Owed(a, b, expenses, contributors) - Owed(b, a, expenses, contributors)
    - Paid(a, b, payments) + Paid(b, a, payments)
  }

  /** The unpruned table over the residents `ids`: one entry per ordered pair of distinct ids. */
  function Balances(ids: set<int>, expenses: seq<Expense>, contributors: seq<Contributor>, payments: seq<Payment>): (t: Tally)
    ensures Shaped(t, ids)
  {
    map a | a in ids :: map b | b in ids && b != a :: Net(a, b, expenses, contributors, payments)
  }

  // ---------------------------------------------------------------------------
  // Shape of a table
  // ---------------------------------------------------------------------------

  /** Every id of `ids` has a row, holding an entry for every other id of `ids`. */
  ghost predicate Shaped(t: Tally, ids: set<int>) {
    && t.Keys == ids
    && forall a :: a in t ==> t[a].Keys == ids - {a}
  }

  /** No resident has an entry against themselves. */
  ghost predicate NoSelfEntries(t: Tally) {
    forall a :: a in t ==> a !in t[a]
  }

  /** Every entry has its mirror, of opposite sign. */
  ghost predicate Antisymmetric(t: Tally) {
    forall a, b :: a in t && b in t[a] ==> b in t && a in t[b] && t[b][a] == -t[a][b]
  }

  /**
   * The contributor references the computation dereferences, and so the
   * only ones that must name residents: both ends of a contributor row of an
   * existing expense, unless the row is the expense's own `care_of`.
   */
  ghost predicate ContributionsResolved(ids: set<int>, expenses: seq<Expense>, contributors: seq<Contributor>) {
    forall e, c :: e in expenses && c in contributors && c.expenseId == e.id && c.residentId != e.careOf
      ==> c.residentId in ids && e.careOf in ids
  }

  /** Likewise for payments: both ends of a payment between two different residents. */
  ghost predicate PaymentsResolved(ids: set<int>, payments: seq<Payment>) {
    forall p :: p in payments && p.paidBy != p.receivedBy ==> p.paidBy in ids && p.receivedBy in ids
  }

  /** A table of the right shape whose every entry is the net amount is the unpruned table. */
  lemma TableIsBalances(t: Tally, ids: set<int>, expenses: seq<Expense>, contributors: seq<Contributor>, payments: seq<Payment>)
    requires Shaped(t, ids)
    requires forall a, b :: a in t && b in t[a] ==> t[a][b] == Net(a, b, expenses, contributors, payments)
    ensures t == Balances(ids, expenses, contributors, payments)
  {
    var u := Balances(ids, expenses, contributors, payments);
    forall a | a in ids ensures t[a] == u[a] {
      assert forall b :: b in t[a] ==> t[a][b] == u[a][b];
    }
  }

  // ---------------------------------------------------------------------------
  // One update step: `tally[x][y] += v; tally[y][x] -= v`
  // ---------------------------------------------------------------------------

  /** `x` comes to owe `y` another `v`, and `y`'s entry for `x` moves the other way; nothing else changes. */
  function Credit(t: Tally, x: int, y: int, v: real): (r: Tally)
    requires x in t && y in t[x] && y in t && x in t[y] && x != y
    ensures r.Keys == t.Keys && forall a :: a in r ==> r[a].Keys == t[a].Keys
    ensures forall a, b :: a in r && b in r[a] ==>
      r[a][b] == t[a][b] + (if a == x && b == y then v else if a == y && b == x then -v else 0.0)
  {
    var t1 := t[x := t[x][y := t[x][y] + v]];
    t1[y := t1[y][x := t1[y][x] - v]]
  }

  /** A credit between two distinct residents keeps the table's shape and its antisymmetry. */
  lemma CreditKeepsAntisymmetry(t: Tally, ids: set<int>, x: int, y: int, v: real)
    requires Shaped(t, ids) && Antisymmetric(t)
    requires x in ids && y in ids && x != y
    ensures Shaped(Credit(t, x, y, v), ids) && Antisymmetric(Credit(t, x, y, v))
  {
    var r := Credit(t, x, y, v);
    forall a, b | a in r && b in r[a]
      ensures b in r && a in r[b] && r[b][a] == -r[a][b]
    {
      if (a == x && b == y) || (a == y && b == x) {
        assert r[x][y] == t[x][y] + v && r[y][x] == t[y][x] - v;
      } else {
        assert r[a][b] == t[a][b] && r[b][a] == t[b][a];
      }
    }
  }

  /** Two tables with the same rows, columns and entries are the same table. */
  lemma TablesEqual(t: Tally, u: Tally)
    requires t.Keys == u.Keys
    requires forall a :: a in t ==> t[a].Keys == u[a].Keys
    requires forall a, b :: a in t && b in t[a] ==> t[a][b] == u[a][b]
    ensures t == u
  {
    forall a | a in t ensures t[a] == u[a] {
      assert t[a].Keys == u[a].Keys;
      assert forall b :: b in t[a] ==> t[a][b] == u[a][b];
    }
  }

  /** A table that differs from `t` exactly by a credit of `v` from `x` to `y` is that credit. */
  lemma IsCredit(t: Tally, u: Tally, ids: set<int>, x: int, y: int, v: real)
    requires Shaped(t, ids) && Shaped(u, ids)
    requires x in ids && y in ids && x != y
    requires forall a, b :: a in ids && b in ids && a != b ==>
      u[a][b] == t[a][b] + (if a == x && b == y then v else 0.0) - (if a == y && b == x then v else 0.0)
    ensures u == Credit(t, x, y, v)
  {
    TablesEqual(u, Credit(t, x, y, v));
  }

  /** A table that agrees with `t` on every entry is `t`. */
  lemma IsSame(t: Tally, u: Tally, ids: set<int>)
    requires Shaped(t, ids) && Shaped(u, ids)
    requires forall a, b :: a in ids && b in ids && a != b ==> u[a][b] == t[a][b]
    ensures u == t
  {
    TablesEqual(u, t);
  }

  /** The table part-way through expense `e`, after its contributor rows `rows`. */
  function ExpenseInProgress(ids: set<int>, expenses: seq<Expense>, contributors: seq<Contributor>,
                             e: Expense, rows: seq<Contributor>, share: real): (t: Tally)
    ensures Shaped(t, ids)
  {
    map a | a in ids :: map b | b in ids && b != a ::
      Net(a, b, expenses, contributors, []) + Owing(a, b, e, rows, share) - Owing(b, a, e, rows, share)
  }

  /** Before any row of `e`, the table is that of the earlier expenses. */
  lemma ExpenseStart(ids: set<int>, expenses: seq<Expense>, contributors: seq<Contributor>, e: Expense, share: real)
    ensures ExpenseInProgress(ids, expenses, contributors, e, [], share) == Balances(ids, expenses, contributors, [])
  {
    TablesEqual(ExpenseInProgress(ids, expenses, contributors, e, [], share), Balances(ids, expenses, contributors, []));
  }

  /** One more row `c` of expense `e` adds one share to what `c`'s resident owes `care_of`. */
  lemma OwingAfterRow(a: int, b: int, e: Expense, rows: seq<Contributor>, share: real, c: Contributor)
    ensures Owing(a, b, e, rows + [c], share)
         == Owing(a, b, e, rows, share) + (if c.residentId == a && e.careOf == b then share else 0.0)
  {
    assert (rows + [c])[..|rows|] == rows;
  }

  /**
   * One contributor row: a row of `care_of` itself changes nothing, any
   * other row credits `care_of` one share against the contributor.
   */
  lemma ContributorStep(ids: set<int>, expenses: seq<Expense>, contributors: seq<Contributor>,
                        e: Expense, rows: seq<Contributor>, share: real, c: Contributor)
    requires c.residentId != e.careOf ==> c.residentId in ids && e.careOf in ids
    ensures ExpenseInProgress(ids, expenses, contributors, e, rows + [c], share)
         == if c.residentId == e.careOf then ExpenseInProgress(ids, expenses, contributors, e, rows, share)
            else Credit(ExpenseInProgress(ids, expenses, contributors, e, rows, share), c.residentId, e.careOf, share)
  {
    var before := ExpenseInProgress(ids, expenses, contributors, e, rows, share);
    var after := ExpenseInProgress(ids, expenses, contributors, e, rows + [c], share);
    forall a, b | a in ids && b in ids && a != b
      ensures after[a][b] == before[a][b]
                             + (if c.residentId == a && e.careOf == b then share else 0.0)
                             - (if c.residentId == b && e.careOf == a then share else 0.0)
    {
      OwingAfterRow(a, b, e, rows, share, c);
      OwingAfterRow(b, a, e, rows, share, c);
    }
    if c.residentId == e.careOf {
      IsSame(before, after, ids);
    } else {
      IsCredit(before, after, ids, c.residentId, e.careOf, share);
    }
  }

  /** After all its rows, each worth one share, the expense is fully added. */
  lemma ExpenseDone(ids: set<int>, expenses: seq<Expense>, contributors: seq<Contributor>, e: Expense)
    ensures ExpenseInProgress(ids, expenses, contributors, e, ContributorsOf(e.id, contributors), Share(e, contributors))
         == Balances(ids, expenses + [e], contributors, [])
  {
    assert (expenses + [e])[..|expenses|] == expenses;
    TablesEqual(ExpenseInProgress(ids, expenses, contributors, e, ContributorsOf(e.id, contributors), Share(e, contributors)),
                Balances(ids, expenses + [e], contributors, []));
  }

  /** One more payment lowers the payer's total paid to the receiver by nothing else than its amount. */
  lemma PaidAfterPayment(a: int, b: int, payments: seq<Payment>, p: Payment)
    ensures Paid(a, b, payments + [p]) == Paid(a, b, payments) + (if p.paidBy == a && p.receivedBy == b then p.amount else 0.0)
  {
    assert (payments + [p])[..|payments|] == payments;
  }

  /** One more payment changes the net amount between two residents by its amount, if it is between them. */
  lemma NetAfterPayment(a: int, b: int, expenses: seq<Expense>, contributors: seq<Contributor>, payments: seq<Payment>, p: Payment)
    ensures Net(a, b, expenses, contributors, payments + [p])
         == Net(a, b, expenses, contributors, payments)
            - (if p.paidBy == a && p.receivedBy == b then p.amount else 0.0)
            + (if p.paidBy == b && p.receivedBy == a then p.amount else 0.0)
  {
    PaidAfterPayment(a, b, payments, p);
    PaidAfterPayment(b, a, payments, p);
  }

  /** Entry by entry, one more payment moves only the two entries between its payer and its receiver. */
  lemma PaymentEntries(ids: set<int>, expenses: seq<Expense>, contributors: seq<Contributor>, payments: seq<Payment>, p: Payment)
    ensures forall a, b :: a in ids && b in ids && a != b ==>
      Balances(ids, expenses, contributors, payments + [p])[a][b]
      == Balances(ids, expenses, contributors, payments)[a][b]
         - (if p.paidBy == a && p.receivedBy == b then p.amount else 0.0)
         + (if p.paidBy == b && p.receivedBy == a then p.amount else 0.0)
  {
    forall a, b | a in ids && b in ids && a != b
      ensures Balances(ids, expenses, contributors, payments + [p])[a][b]
           == Balances(ids, expenses, contributors, payments)[a][b]
              - (if p.paidBy == a && p.receivedBy == b then p.amount else 0.0)
              + (if p.paidBy == b && p.receivedBy == a then p.amount else 0.0)
    {
      NetAfterPayment(a, b, expenses, contributors, payments, p);
    }
  }

  /** A payment between two different residents is one credit of minus its amount. */
  lemma PaymentCredit(ids: set<int>, expenses: seq<Expense>, contributors: seq<Contributor>, payments: seq<Payment>, p: Payment)
    requires p.paidBy != p.receivedBy && p.paidBy in ids && p.receivedBy in ids
    ensures Balances(ids, expenses, contributors, payments + [p])
         == Credit(Balances(ids, expenses, contributors, payments), p.paidBy, p.receivedBy, -p.amount)
  {
    var before := Balances(ids, expenses, contributors, payments);
    var after := Balances(ids, expenses, contributors, payments + [p]);
    PaymentEntries(ids, expenses, contributors, payments, p);
    IsCredit(before, after, ids, p.paidBy, p.receivedBy, -p.amount);
  }

  /**
   * One payment: a payment to oneself changes nothing, any other lowers
   * what the payer owes the receiver by its amount.
   */
  lemma PaymentStep(ids: set<int>, expenses: seq<Expense>, contributors: seq<Contributor>, payments: seq<Payment>, p: Payment)
    requires p.paidBy != p.receivedBy ==> p.paidBy in ids && p.receivedBy in ids
    ensures p.paidBy == p.receivedBy ==>
      Balances(ids, expenses, contributors, payments + [p]) == Balances(ids, expenses, contributors, payments)
    ensures p.paidBy != p.receivedBy ==>
      Balances(ids, expenses, contributors, payments + [p])
      == Credit(Balances(ids, expenses, contributors, payments), p.paidBy, p.receivedBy, -p.amount)
  {
    if p.paidBy == p.receivedBy {
      PaymentEntries(ids, expenses, contributors, payments, p);
      IsSame(Balances(ids, expenses, contributors, payments), Balances(ids, expenses, contributors, payments + [p]), ids);
    } else {
      PaymentCredit(ids, expenses, contributors, payments, p);
    }
  }

  // ---------------------------------------------------------------------------
  // Properties of the unpruned table
  // ---------------------------------------------------------------------------

  /** The unpruned table has no self-entries and is antisymmetric. */
  lemma BalancesAntisymmetric(ids: set<int>, expenses: seq<Expense>, contributors: seq<Contributor>, payments: seq<Payment>)
    ensures NoSelfEntries(Balances(ids, expenses, contributors, payments))
    ensures Antisymmetric(Balances(ids, expenses, contributors, payments))
  {
  }

  /** With nothing recorded, every entry is 0. */
  lemma BalancesStartAtZero(ids: set<int>, contributors: seq<Contributor>)
    ensures forall a, b :: a in ids && b in ids && a != b ==> Balances(ids, [], contributors, [])[a][b] == 0.0
  {
  }

  /** The number of rows `(expenseId, r)` in the contributor table. */
  function RowCount(expenseId: int, r: int, contributors: seq<Contributor>): nat {
    multiset(contributors)[Contributor(expenseId, r)]
  }

  /**
   * What `a` owes `b` through the expenses, in closed form: for every
   * expense fronted by `b`, the price over its number of contributor rows,
   * once per row of `a`.
   */
  function DebtThroughExpenses(a: int, b: int, expenses: seq<Expense>, contributors: seq<Contributor>): real {
    if expenses == [] then 0.0
    else
      var e := expenses[|expenses| - 1];
      var n := |ContributorsOf(e.id, contributors)|;
      DebtThroughExpenses(a, b, expenses[..|expenses| - 1], contributors)
      + (if e.careOf == b && n > 0 then Times(RowCount(e.id, a, contributors), e.price / n as real) else 0.0)
  }

  /** Visiting the rows one at a time adds up to the share times the number of rows of `a`. */
  lemma {:induction false} OwingCountsRows(a: int, b: int, e: Expense, rows: seq<Contributor>, share: real)
    requires forall c :: c in rows ==> c.expenseId == e.id
    ensures Owing(a, b, e, rows, share)
         == if e.careOf == b then Times(multiset(rows)[Contributor(e.id, a)], share) else 0.0
  {
    if rows != [] {
      var init, last := rows[..|rows| - 1], rows[|rows| - 1];
      assert rows == init + [last];
      assert forall c :: c in init ==> c in rows;
      OwingCountsRows(a, b, e, init, share);
      var m := multiset(init)[Contributor(e.id, a)];
      assert multiset(rows) == multiset(init) + multiset{last};
      assert Owing(a, b, e, rows, share)
          == Owing(a, b, e, init, share) + (if last.residentId == a && e.careOf == b then share else 0.0);
      if last.residentId == a {
        assert last == Contributor(e.id, a);
        assert multiset(rows)[Contributor(e.id, a)] == m + 1;
      } else {
        assert multiset(rows)[Contributor(e.id, a)] == m;
      }
    }
  }

  /** `n * x`, as n additions of x. */
  function Times(n: nat, x: real): (r: real)
    ensures r == n as real * x
  {
    if n == 0 then 0.0 else Times(n - 1, x) + x
  }

  /**
   * The shares of an expense add back up to its price: one share per
   * contributor row, or the whole price when it has no rows.
   */
  lemma SharesAddUp(e: Expense, contributors: seq<Contributor>)
    ensures |ContributorsOf(e.id, contributors)| == 0 ==> Share(e, contributors) == e.price
    ensures |ContributorsOf(e.id, contributors)| > 0 ==>
      Times(|ContributorsOf(e.id, contributors)|, Share(e, contributors)) == e.price
  {
    var n := |ContributorsOf(e.id, contributors)|;
    if n > 0 {
      assert (n as real) * (e.price / n as real) == e.price;
    }
  }

  /** The closed form of the expense part of every entry. */
  lemma {:induction false} OwedClosedForm(a: int, b: int, expenses: seq<Expense>, contributors: seq<Contributor>)
    ensures Owed(a, b, expenses, contributors) == DebtThroughExpenses(a, b, expenses, contributors)
  {
    if expenses != [] {
      var e := expenses[|expenses| - 1];
      var rows := ContributorsOf(e.id, contributors);
      OwedClosedForm(a, b, expenses[..|expenses| - 1], contributors);
      OwingCountsRows(a, b, e, rows, Share(e, contributors));
      if |rows| == 0 {
        assert multiset(rows)[Contributor(e.id, a)] == 0;
      }
    }
  }

  /**
   * Closed form of every entry before pruning: for a != b, what a owes b
   * through expenses fronted by b, less what b owes a through expenses
   * fronted by a, less what a has paid b, plus what b has paid a.
   */
  lemma BalanceClosedForm(ids: set<int>, expenses: seq<Expense>, contributors: seq<Contributor>, payments: seq<Payment>, a: int, b: int)
    requires a in ids && b in ids && a != b
    ensures Balances(ids, expenses, contributors, payments)[a][b]
         == DebtThroughExpenses(a, b, expenses, contributors) - DebtThroughExpenses(b, a, expenses, contributors)
            - Paid(a, b, payments) + Paid(b, a, payments)
  {
    OwedClosedForm(a, b, expenses, contributors);
    OwedClosedForm(b, a, expenses, contributors);
  }

  /** Two tables over the same residents are equal when their entries are. */
  lemma BalancesEqual(ids: set<int>,
                      es1: seq<Expense>, cs1: seq<Contributor>, ps1: seq<Payment>,
                      es2: seq<Expense>, cs2: seq<Contributor>, ps2: seq<Payment>)
    requires forall a, b :: a in ids && b in ids && a != b ==> Net(a, b, es1, cs1, ps1) == Net(a, b, es2, cs2, ps2)
    ensures Balances(ids, es1, cs1, ps1) == Balances(ids, es2, cs2, ps2)
  {
    var t1, t2 := Balances(ids, es1, cs1, ps1), Balances(ids, es2, cs2, ps2);
    forall a | a in ids ensures t1[a] == t2[a] {
      assert forall b :: b in t1[a] ==> t1[a][b] == t2[a][b];
    }
  }

  /** An expense without contributor rows changes no entry. */
  lemma ExpenseWithoutContributors(ids: set<int>, expenses: seq<Expense>, e: Expense, contributors: seq<Contributor>, payments: seq<Payment>)
    requires ContributorsOf(e.id, contributors) == []
    ensures Balances(ids, expenses + [e], contributors, payments) == Balances(ids, expenses, contributors, payments)
  {
    assert (expenses + [e])[..|expenses|] == expenses;
    BalancesEqual(ids, expenses + [e], contributors, payments, expenses, contributors, payments);
  }

  /** A contributor row whose expense does not exist changes no entry. */
  lemma DanglingContributor(ids: set<int>, expenses: seq<Expense>, contributors: seq<Contributor>, c: Contributor, payments: seq<Payment>)
    requires forall e :: e in expenses ==> e.id != c.expenseId
    ensures Balances(ids, expenses, contributors + [c], payments) == Balances(ids, expenses, contributors, payments)
  {
    forall a, b ensures Owed(a, b, expenses, contributors + [c]) == Owed(a, b, expenses, contributors) {
      DanglingContributorOwed(a, b, expenses, contributors, c);
    }
    BalancesEqual(ids, expenses, contributors + [c], payments, expenses, contributors, payments);
  }

  lemma {:induction false} DanglingContributorOwed(a: int, b: int, expenses: seq<Expense>, contributors: seq<Contributor>, c: Contributor)
    requires forall e :: e in expenses ==> e.id != c.expenseId
    ensures Owed(a, b, expenses, contributors + [c]) == Owed(a, b, expenses, contributors)
  {
    if expenses != [] {
      var init, e := expenses[..|expenses| - 1], expenses[|expenses| - 1];
      assert forall x :: x in init ==> x in expenses;
      DanglingContributorOwed(a, b, init, contributors, c);
      Snapshot.KeepAppend(contributors, [c], (x: Contributor) => x.expenseId == e.id);
      assert ContributorsOf(e.id, contributors + [c]) == ContributorsOf(e.id, contributors);
    }
  }

  /** A payment from a resident to themselves changes no entry. */
  lemma SelfPayment(ids: set<int>, expenses: seq<Expense>, contributors: seq<Contributor>, payments: seq<Payment>, p: Payment)
    requires p.paidBy == p.receivedBy
    ensures Balances(ids, expenses, contributors, payments + [p]) == Balances(ids, expenses, contributors, payments)
  {
    assert (payments + [p])[..|payments|] == payments;
    BalancesEqual(ids, expenses, contributors, payments + [p], expenses, contributors, payments);
  }

  // ---------------------------------------------------------------------------
  // Zero sum
  // ---------------------------------------------------------------------------

  /** The entry for (a, b), 0 where the table has none. */
  function Entry(t: Tally, a: int, b: int): real {
    if a in t && b in t[a] then t[a][b] else 0.0
  }

  /** The entries of row `a` at the columns `cols`. */
  function RowSum(t: Tally, a: int, cols: seq<int>): real {
    if cols == [] then 0.0 else RowSum(t, a, cols[..|cols| - 1]) + Entry(t, a, cols[|cols| - 1])
  }

  /** The entries of column `b` at the rows `rows`. */
  function ColumnSum(t: Tally, rows: seq<int>, b: int): real {
    if rows == [] then 0.0 else ColumnSum(t, rows[..|rows| - 1], b) + Entry(t, rows[|rows| - 1], b)
  }

  /** The entries at every (row, column) of `rows` x `cols`. */
  function TableSum(t: Tally, rows: seq<int>, cols: seq<int>): real {
    if rows == [] then 0.0 else TableSum(t, rows[..|rows| - 1], cols) + RowSum(t, rows[|rows| - 1], cols)
  }

  lemma {:induction false} TableSumExtendColumns(t: Tally, rows: seq<int>, cols: seq<int>, z: int)
    ensures TableSum(t, rows, cols + [z]) == TableSum(t, rows, cols) + ColumnSum(t, rows, z)
  {
    assert (cols + [z])[..|cols|] == cols;
    if rows != [] {
      TableSumExtendColumns(t, rows[..|rows| - 1], cols, z);
    }
  }

  lemma {:induction false} ColumnIsMinusRow(t: Tally, rows: seq<int>, z: int)
    requires Antisymmetric(t)
    ensures ColumnSum(t, rows, z) == -RowSum(t, z, rows)
  {
    if rows != [] {
      var a := rows[|rows| - 1];
      ColumnIsMinusRow(t, rows[..|rows| - 1], z);
      assert Entry(t, a, z) == -Entry(t, z, a);
    }
  }

  /**
   * Zero sum: in an antisymmetric table, the entries over any list of
   * residents (each pair seen from both sides) add up to 0; every debt is
   * somebody's credit.
   */
  lemma {:induction false} ZeroSum(t: Tally, ids: seq<int>)
    requires Antisymmetric(t)
    ensures TableSum(t, ids, ids) == 0.0
  {
    if ids != [] {
      var init, z := ids[..|ids| - 1], ids[|ids| - 1];
      assert ids == init + [z];
      ZeroSum(t, init);
      TableSumExtendColumns(t, init, init, z);
      ColumnIsMinusRow(t, init, z);
      assert Entry(t, z, z) == 0.0;
      assert RowSum(t, z, ids) == RowSum(t, z, init) + Entry(t, z, z);
    }
  }

  // ---------------------------------------------------------------------------
  // Pruning
  // ---------------------------------------------------------------------------

  /**
   * `Number(x.toFixed(2))` as a whole number of hundredths: the nearest
   * integer to 100 |x|, halves going up, with the sign of x.
   */
  function Cents(x: real): int {
    if x >= 0.0 then (x * 100.0 + 0.5).Floor else -((-x) * 100.0 + 0.5).Floor
  }

  /**
   * `Cents(x)` is the whole number of hundredths nearest to `x`, a half
   * going away from zero.
   */
  lemma CentsIsNearest(x: real)
    ensures x >= 0.0 ==> 0 <= Cents(x) && Cents(x) as real - 0.5 <= x * 100.0 < Cents(x) as real + 0.5
    ensures x < 0.0 ==> Cents(x) <= 0 && Cents(x) as real - 0.5 < x * 100.0 <= Cents(x) as real + 0.5
  {
  }

  /** `Number(x.toFixed(2)) === 0`. */
  predicate RoundsToZero(x: real) {
    Cents(x) == 0
  }

  /** An amount rounds to 0.00 exactly when it is less than half a cent either way. */
  lemma RoundsToZeroIff(x: real)
    ensures RoundsToZero(x) <==> -0.005 < x < 0.005
  {
  }

  /** Rounding is symmetric about 0, so an entry and its mirror are pruned together. */
  lemma CentsOdd(x: real)
    ensures Cents(-x) == -Cents(x)
  {
  }

  /** A row without the entries that round to 0.00. */
  function PruneRow(row: map<int, real>): (r: map<int, real>)
    ensures forall b :: b in r <==> b in row && !RoundsToZero(row[b])
    ensures forall b :: b in r ==> r[b] == row[b]
  {
    map b | b in row && !RoundsToZero(row[b]) :: row[b]
  }

  /**
   * The pruned table: no entry rounds to 0.00, no row is empty, and every
   * entry that survives keeps its exact value; an entry is dropped only if
   * it rounds to 0.00, a row only if all its entries do.
   */
  function Pruned(t: Tally): (p: Tally)
    ensures forall a :: a in p ==> a in t && p[a] != map[]
    ensures forall a, b :: a in p && b in p[a] ==> b in t[a] && !RoundsToZero(p[a][b]) && p[a][b] == t[a][b]
    ensures forall a, b :: a in t && b in t[a] && !RoundsToZero(t[a][b]) ==> a in p && b in p[a]
  {
    map a | a in t && PruneRow(t[a]) != map[] :: PruneRow(t[a])
  }

  /** Pruning keeps a table free of self-entries and antisymmetric. */
  lemma PrunedAntisymmetric(t: Tally)
    requires NoSelfEntries(t) && Antisymmetric(t)
    ensures NoSelfEntries(Pruned(t)) && Antisymmetric(Pruned(t))
  {
    var p := Pruned(t);
    forall a, b | a in p && b in p[a]
      ensures b in p && a in p[b] && p[b][a] == -p[a][b]
    {
      CentsOdd(t[a][b]);
      assert t[b][a] == -t[a][b];
    }
  }
}
