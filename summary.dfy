/**
 * The summary screen's computation, step by step as the component runs
 * it: build a zero table over the residents, split every expense among its
 * contributor rows, apply every payment, prune what rounds to 0.00; then
 * flatten the positive entries into rows sorted by amount. Each step is a
 * loop over a local table, proved to produce the table Ledger defines.
 */
module Summary {
  import opened Records
  import opened Ledger
  import Sorting

  /** A non-empty set has an element to pick. */
  lemma SomeElement(s: set<int>)
    requires s != {}
    ensures exists x :: x in s
  {
    if forall x :: x !in s {
      assert false;
    }
  }

  /** A loop's prefix grows by the element it visits. */
  lemma PrefixStep<T>(s: seq<T>, j: int)
    requires 0 <= j < |s|
    ensures s[..j + 1] == s[..j] + [s[j]]
  {
  }

  /** The ids of one more resident are the ids so far and that resident's. */
  lemma IdsExtend(residents: seq<Resident>, i: int)
    requires 0 <= i < |residents|
    ensures Ids(residents[..i + 1]) == Ids(residents[..i]) + {residents[i].id}
  {
    assert residents[..i + 1][..i] == residents[..i];
  }

  /** Every entry of the table is zero. */
  ghost predicate AllZero(t: Tally) {
    forall a, b :: a in t && b in t[a] ==> t[a][b] == 0.0
  }

  /** A zero entry of row `a` for every id of `cols` other than `a`. */
  ghost function Zeros(cols: set<int>, a: int): map<int, real> {
    map b | b in cols && b != a :: 0.0
  }

  /** A zero row for every id of `rows`, over the columns `cols`. */
  ghost function ZeroTable(rows: set<int>, cols: set<int>): (t: Tally)
    ensures t.Keys == rows
  {
    map a | a in rows :: Zeros(cols, a)
  }

  /** One more column in a zero row. */
  lemma ZerosExtend(cols: set<int>, a: int, b: int)
    ensures Zeros(cols + {b}, a) == if b == a then Zeros(cols, a) else Zeros(cols, a)[b := 0.0]
  {
  }

  /** Writing one more zero into row `a` of a table whose row `a` is a zero row. */
  lemma ZeroRowStep(t: Tally, a: int, cols: set<int>, b: int)
    requires a in t && t[a] == Zeros(cols, a)
    ensures b != a ==> t[a := t[a][b := 0.0]] == t[a := Zeros(cols + {b}, a)]
    ensures b == a ==> t == t[a := Zeros(cols + {b}, a)]
  {
    ZerosExtend(cols, a, b);
  }

  /** One more zero row in a zero table. */
  lemma ZeroTableExtend(rows: set<int>, cols: set<int>, a: int)
    ensures ZeroTable(rows + {a}, cols) == ZeroTable(rows, cols)[a := Zeros(cols, a)]
  {
  }

  /** The full zero table has the owe table's shape. */
  lemma ZeroTableShaped(ids: set<int>)
    ensures Shaped(ZeroTable(ids, ids), ids) && AllZero(ZeroTable(ids, ids))
  {
  }

  /** Initialises the table: a zero entry for every ordered pair of distinct residents, no self-entries. */
  method ZeroTally(residents: seq<Resident>) returns (tally: Tally)
    ensures Shaped(tally, Ids(residents))
    ensures AllZero(tally)
  {
    ghost var ids := Ids(residents);
    tally := map[];
    var i := 0;
    ghost var seen: set<int> := {};
    assert Ids(residents[..0]) == {};
    while i < |residents|
      invariant 0 <= i <= |residents|
      invariant seen == Ids(residents[..i])
      invariant tally == ZeroTable(seen, ids)
    {
      var id := residents[i].id;
      IdsExtend(residents, i);
      ZeroTableExtend(seen, ids, id);
      ghost var done := tally;
      tally := tally[id := map[]];
      ghost var cols: set<int> := {};
      var j := 0;
      while j < |residents|
        invariant 0 <= j <= |residents|
        invariant cols == Ids(residents[..j])
        invariant tally == done[id := Zeros(cols, id)]
      {
        var other := residents[j].id;
        IdsExtend(residents, j);
        ZeroRowStep(tally, id, cols, other);
        if other != id {
          tally := tally[id := tally[id][other := 0.0]];
        }
        cols := cols + {other};
        j := j + 1;
      }
      assert residents[..j] == residents;
      seen := seen + {id};
      i := i + 1;
    }
    assert residents[..i] == residents;
    ZeroTableShaped(ids);
  }

  /**
   * Adds one expense to the table: each of its contributor rows other than
   * its `care_of` comes to owe `care_of` one share, the price over the
   * number of rows (or the whole price when it has none).
   */
  method SplitExpense(before: Tally, ghost ids: set<int>, ghost done: seq<Expense>, contributors: seq<Contributor>, e: Expense)
    returns (tally: Tally)
    requires before == Balances(ids, done, contributors, [])
    requires ContributionsResolved(ids, [e], contributors)
    ensures tally == Balances(ids, done + [e], contributors, [])
  {
    var rows := ContributorsOf(e.id, contributors);
    var n := if |rows| == 0 then 1 else |rows|;
    var share := e.price / n as real;
    ExpenseStart(ids, done, contributors, e, share);
    tally := before;
    var j := 0;
    ghost var visited: seq<Contributor> := [];
    while j < |rows|
      invariant 0 <= j <= |rows|
      invariant visited == rows[..j]
      invariant tally == ExpenseInProgress(ids, done, contributors, e, visited, share)
    {
      var c := rows[j];
      assert e in [e] && c in contributors;
      ContributorStep(ids, done, contributors, e, visited, share, c);
      if c.residentId != e.careOf {
        tally := Credit(tally, c.residentId, e.careOf, share);
      }
      PrefixStep(rows, j);
      visited := visited + [c];
      j := j + 1;
    }
    assert visited == rows;
    ExpenseDone(ids, done, contributors, e);
  }

  /** A zero table over `ids` is the table of no expenses and no payments. */
  lemma ZeroIsBalances(zero: Tally, ids: set<int>, contributors: seq<Contributor>)
    requires Shaped(zero, ids) && AllZero(zero)
    ensures zero == Balances(ids, [], contributors, [])
  {
    TableIsBalances(zero, ids, [], contributors, []);
  }

  /** What holds of the references of all expenses holds of those of one of them. */
  lemma ResolvedOne(ids: set<int>, expenses: seq<Expense>, contributors: seq<Contributor>, e: Expense)
    requires ContributionsResolved(ids, expenses, contributors) && e in expenses
    ensures ContributionsResolved(ids, [e], contributors)
  {
  }

  /** What holds of the references of all payments holds of those of one of them. */
  lemma PaymentResolvedOne(ids: set<int>, payments: seq<Payment>, k: int)
    requires PaymentsResolved(ids, payments) && 0 <= k < |payments|
    ensures payments[k].paidBy != payments[k].receivedBy ==> payments[k].paidBy in ids && payments[k].receivedBy in ids
  {
    assert payments[k] in payments;
  }

  /** Adds the expenses, one after the other, to a zero table. */
  method AddExpenses(zero: Tally, ghost ids: set<int>, expenses: seq<Expense>, contributors: seq<Contributor>)
    returns (tally: Tally)
    requires Shaped(zero, ids)
    requires AllZero(zero)
    requires ContributionsResolved(ids, expenses, contributors)
    ensures tally == Balances(ids, expenses, contributors, [])
  {
    ZeroIsBalances(zero, ids, contributors);
    tally := zero;
    var i := 0;
    ghost var done: seq<Expense> := [];
    while i < |expenses|
      invariant 0 <= i <= |expenses|
      invariant done == expenses[..i]
      invariant tally == Balances(ids, done, contributors, [])
    {
      var e := expenses[i];
      ResolvedOne(ids, expenses, contributors, e);
      tally := SplitExpense(tally, ids, done, contributors, e);
      PrefixStep(expenses, i);
      done := done + [e];
      i := i + 1;
    }
    assert done == expenses;
  }

  /** Applies one payment: unless it is to oneself, it lowers what the payer owes the receiver by its amount. */
  method ApplyPayment(before: Tally, ghost ids: set<int>, ghost expenses: seq<Expense>, ghost contributors: seq<Contributor>,
                      ghost done: seq<Payment>, p: Payment)
    returns (tally: Tally)
    requires before == Balances(ids, expenses, contributors, done)
    requires p.paidBy != p.receivedBy ==> p.paidBy in ids && p.receivedBy in ids
    ensures tally == Balances(ids, expenses, contributors, done + [p])
  {
    PaymentStep(ids, expenses, contributors, done, p);
    tally := before;
    if p.paidBy != p.receivedBy {
      tally := Credit(tally, p.paidBy, p.receivedBy, -p.amount);
    }
  }

  /** Applies the payments: each payment between two residents lowers what the payer owes the receiver. */
  method ApplyPayments(before: Tally, ghost ids: set<int>, expenses: seq<Expense>, contributors: seq<Contributor>, payments: seq<Payment>)
    returns (tally: Tally)
    requires before == Balances(ids, expenses, contributors, [])
    requires PaymentsResolved(ids, payments)
    ensures tally == Balances(ids, expenses, contributors, payments)
  {
    tally := before;
    var k := 0;
    ghost var done: seq<Payment> := [];
    while k < |payments|
      invariant 0 <= k <= |payments|
      invariant done == payments[..k]
      invariant tally == Balances(ids, expenses, contributors, done)
    {
      var p := payments[k];
      PaymentResolvedOne(ids, payments, k);
      tally := ApplyPayment(tally, ids, expenses, contributors, done, p);
      PrefixStep(payments, k);
      done := done + [p];
      k := k + 1;
    }
    assert done == payments;
  }

  /** Strips from one row the entries that round to 0.00, visiting them in an arbitrary order. */
  method PruneEntries(before: map<int, real>) returns (row: map<int, real>)
    ensures row == PruneRow(before)
  {
    row := before;
    var cols := row.Keys;
    while cols != {}
      invariant cols <= before.Keys
      invariant forall b :: b in row ==> b in before && row[b] == before[b]
      invariant forall b :: b in cols ==> b in row
      invariant forall b :: b in before && b !in cols ==> (b in row <==> !RoundsToZero(before[b]))
      decreases cols
    {
      SomeElement(cols);
      var b :| b in cols;
      if Cents(row[b]) == 0 {
        row := row - {b};
      }
      cols := cols - {b};
    }
    assert forall b :: b in row <==> b in PruneRow(before);
    assert forall b :: b in row ==> row[b] == PruneRow(before)[b];
  }

  /**
   * Strips the entries that round to 0.00, then every row left empty.
   * Rows are visited in an arbitrary order, as the result does not depend
   * on it.
   */
  method Prune(before: Tally) returns (tally: Tally)
    ensures tally == Pruned(before)
  {
    tally := before;
    var keys := tally.Keys;
    while keys != {}
      invariant keys <= before.Keys
      invariant forall a :: a in tally ==> a in before
      invariant forall a :: a in keys ==> a in tally && tally[a] == before[a]
      invariant forall a :: a in before && a !in keys ==>
        (a in tally <==> PruneRow(before[a]) != map[]) && (a in tally ==> tally[a] == PruneRow(before[a]))
      decreases keys
    {
      SomeElement(keys);
      var a :| a in keys;
      var row := PruneEntries(tally[a]);
      tally := tally[a := row];
      if |tally[a]| == 0 {
        tally := tally - {a};
      }
      keys := keys - {a};
    }
    assert forall a :: a in tally <==> a in Pruned(before);
    assert forall a :: a in tally ==> tally[a] == Pruned(before)[a];
  }

  /**
   * The owe table of the summary screen. With no residents it is empty;
   * otherwise it is the pruned table of net balances: antisymmetric, free
   * of self-entries, with no entry rounding to 0.00 and no empty row.
   * Every id the computation dereferences must be a resident's (a dangling
   * one makes the component throw).
   */
  method ComputeOweTable(residents: seq<Resident>, expenses: seq<Expense>, contributors: seq<Contributor>, payments: seq<Payment>)
    returns (table: Tally)
    requires residents != [] ==> ContributionsResolved(Ids(residents), expenses, contributors)
    requires residents != [] ==> PaymentsResolved(Ids(residents), payments)
    ensures residents == [] ==> table == map[]
    ensures residents != [] ==> table == Pruned(Balances(Ids(residents), expenses, contributors, payments))
    ensures NoSelfEntries(table) && Antisymmetric(table)
    ensures forall a :: a in table ==> table[a] != map[]
    ensures forall a, b :: a in table && b in table[a] ==> !RoundsToZero(table[a][b])
  {
    if |residents| == 0 {
      return map[];
    }
    ghost var ids := Ids(residents);
    var tally := ZeroTally(residents);
    tally := AddExpenses(tally, ids, expenses, contributors);
    tally := ApplyPayments(tally, ids, expenses, contributors, payments);
    BalancesAntisymmetric(ids, expenses, contributors, payments);
    PrunedAntisymmetric(tally);
    table := Prune(tally);
  }

  // ---------------------------------------------------------------------------
  // The rows of the desktop table
  // ---------------------------------------------------------------------------

  /** One line of the desktop table: `fromId` owes `toId` `amount`. */
  datatype Row = Row(fromId: int, toId: int, amount: real)

  /** The table holds `row`'s amount for its pair, and that amount is above 0.009. */
  predicate Listed(table: Tally, row: Row) {
    row.fromId in table && row.toId in table[row.fromId]
    && row.amount == table[row.fromId][row.toId] && row.amount > 0.009
  }

  /** The rows the desktop table shows: every entry above 0.009, once. */
  ghost function ListedRows(table: Tally): set<Row> {
    set a, b | a in table && b in table[a] && table[a][b] > 0.009 :: Row(a, b, table[a][b])
  }

  /** `(a, b) => b.amount - a.amount` as an ordering: larger amounts first. */
  predicate AmountFirst(x: Row, y: Row) {
    x.amount >= y.amount
  }

  lemma AmountFirstIsTotalPreorder()
    ensures Sorting.TotalPreorder(AmountFirst)
  {
  }

  /**
   * `tableRows`: the entries above 0.009, each exactly once, as
   * (from, to, amount), sorted by amount from largest to smallest.
   */
  method TableRows(table: Tally) returns (rows: seq<Row>)
    ensures multiset(rows) == multiset(ListedRows(table))
    ensures forall r :: r in rows <==> Listed(table, r)
    ensures Sorting.Sorted(rows, AmountFirst)
  {
    var acc: seq<Row> := [];
    ghost var seen: set<Row> := {};
    var froms := table.Keys;
    while froms != {}
      invariant froms <= table.Keys
      invariant multiset(acc) == multiset(seen)
      invariant forall r :: r in seen <==> Listed(table, r) && r.fromId !in froms
      decreases froms
    {
      SomeElement(froms);
      var a :| a in froms;
      var tos := table[a].Keys;
      while tos != {}
        invariant tos <= table[a].Keys
        invariant multiset(acc) == multiset(seen)
        invariant forall r :: r in seen <==>
          Listed(table, r) && (r.fromId !in froms || (r.fromId == a && r.toId !in tos))
        decreases tos
      {
        SomeElement(tos);
        var b :| b in tos;
        var amount := table[a][b];
        if amount > 0.009 {
          var row := Row(a, b, amount);
          assert row !in seen;
          acc := acc + [row];
          seen := seen + {row};
        }
        tos := tos - {b};
      }
      froms := froms - {a};
    }
    assert seen == ListedRows(table);
    var sorted := new Row[|acc|](i requires 0 <= i < |acc| => acc[i]);
    assert sorted[..] == acc;
    AmountFirstIsTotalPreorder();
    Sorting.SortInPlace(sorted, AmountFirst);
    rows := sorted[..];
    assert forall r :: r in rows <==> r in multiset(rows);
  }
}
