# Household budget: owe table and snapshot updates, in Dafny

This project models the client-side logic of a household budget app. The
app keeps four tables — residents, expenses, contributors (who shares which
expense) and payments — plus `payment_for`, which links payments to
expenses. The model covers five parts of that logic:

- **The owe table** of the summary screen (`Summary`, specified by `Ledger`).
  - Start from a zero entry for every ordered pair of distinct residents.
  - Split each expense's price equally among its contributor rows. The
    resident the expense is owed to (`care_of`) counts in the divisor, but
    that resident's own row adds nothing.
  - Apply each payment to both sides of the pair.
  - Drop the entries that round to 0.00, then the rows left empty.
  - Flatten the entries above 0.009 into rows sorted by amount, largest
    first.

  Each step is a method with loops over a local table, as in the component.
  Each method is proved to compute the table that `Ledger` defines as
  functions of the four snapshots. The lemmas about that definition cover:
  - antisymmetry and the zero sum;
  - a closed form for every entry;
  - the inputs that change nothing;
  - what pruning keeps.
- **The realtime reducers**: how an INSERT, DELETE or UPDATE event on each
  table is folded into the client's copy of it.
  - They are built from a generic filter and a generic replace-by-key
    (`Snapshot`).
  - Residents are re-sorted by nickname with an in-place sort on an array
    (`Sorting`).
- **The input guards** of "add expense", "add payment", "add resident" and
  "delete resident".
- **The filters** of the "received by" and "payment for" pickers.
- **`String.prototype.trim`** (`Text`).

Amounts are exact reals. `toFixed(2)` is modelled explicitly as rounding to
whole cents, with halves going away from zero (`Ledger.Cents`). Two browser
functions are left abstract:
- `localeCompare(…, { sensitivity: "base" })` is any total preorder on strings;
- `toLowerCase` is any function on strings.

Two kinds of dangling references:
- **Resident ids that no resident has.** The component indexes the table
  without a guard, so such an id throws. `Summary.ComputeOweTable`
  therefore requires that every resident id the computation actually
  dereferences is a resident's. These are:
  - both ends of a contributor row of an existing expense, unless the row
    is `care_of`'s own;
  - both ends of a payment between two different residents.
- **Contributor rows of an expense that does not exist.** The computation
  never visits them, so they are harmless (`Ledger.DanglingContributor`).

## Model

| member | source | states |
|---|---|---|
| `Summary.ComputeOweTable` | src/components/Summary.tsx:43-100 | With no residents the table is empty. Otherwise it is the pruned net-balance table of the four snapshots. It is antisymmetric, has no self-entries, no empty rows and no entry that rounds to 0.00. |
| `Summary.ZeroTally` | src/components/Summary.tsx:49-59 | Every resident id gets a row. Each row has a 0 entry for every other resident id and none for itself. |
| `Summary.AddExpenses` | src/components/Summary.tsx:61-76 | Splitting every expense into the zero table gives exactly the expense part of the net-balance table. |
| `Summary.SplitExpense` | src/components/Summary.tsx:63-75 | One expense's callback: splitting it over its contributor rows, at price over row count (0 read as 1), turns the table of the earlier expenses into the table with this one added. |
| `Summary.ApplyPayment` | src/components/Summary.tsx:80-87 | One payment's callback: it turns the table of the earlier payments into the table with this payment applied. |
| `Summary.ApplyPayments` | src/components/Summary.tsx:78-88 | Applying every payment to the expense table gives exactly the net-balance table. |
| `Summary.PruneEntries` | src/components/Summary.tsx:92-95 | A row loses exactly the entries whose 2-decimal rounding is 0. Survivors keep their exact value. |
| `Summary.Prune` | src/components/Summary.tsx:90-97 | The table loses the entries that round to 0.00 and the rows left empty, in any visiting order. |
| `Summary.TableRows` | src/components/Summary.tsx:103-116 | The rows are exactly the entries above 0.009, each once, as (from, to, amount), in non-increasing amount order. |
| `Summary.AmountFirstIsTotalPreorder` | src/components/Summary.tsx:114 | The comparator `b.amount - a.amount` orders rows consistently: total and transitive. |
| `Ledger.ContributorsOf` | src/components/Summary.tsx:63-65 | An expense's contributor rows are exactly the rows carrying its id, each as often as in the table. |
| `Ledger.Balances` | src/components/Summary.tsx:52-59 | The unpruned table has one row per resident id, holding an entry for every other resident id. |
| `Ledger.Credit` | src/components/Summary.tsx:72-73 | One update: `x` owes `y` `v` more and `y`'s mirror entry moves by `-v`. Every other entry is unchanged. |
| `Ledger.CreditKeepsAntisymmetry` | src/components/Summary.tsx:72-86 | Every expense-share and payment update keeps the table's shape and `t[a][b] == -t[b][a]`. |
| `Ledger.SharesAddUp` | src/components/Summary.tsx:66-68 | `Share` (price over the row count, 1 for no rows): the shares, one per contributor row, add back up to the price, and an expense without rows has the whole price as its share. |
| `Ledger.ContributorStep` | src/components/Summary.tsx:70-75 | A contributor row of `care_of` itself changes nothing. Any other row credits `care_of` one share. |
| `Ledger.ExpenseDone` | src/components/Summary.tsx:62-76 | Visiting all of an expense's rows, at price over row count (count 0 read as 1), adds exactly that expense. |
| `Ledger.NetAfterPayment` | src/components/Summary.tsx:84-86 | One more payment moves the net amount between two residents by its amount, and only when it is between them, in the direction paid. |
| `Ledger.PaymentEntries` | src/components/Summary.tsx:84-86 | Entry by entry, one more payment moves only the two entries between its payer and its receiver. |
| `Ledger.PaymentCredit` | src/components/Summary.tsx:84-86 | A payment between two different residents turns the table into exactly one credit of minus its amount from payer to receiver. |
| `Ledger.PaymentStep` | src/components/Summary.tsx:79-88 | A payment to oneself changes nothing. Any other payment lowers what the payer owes the receiver by its amount, and raises the mirror entry. |
| `Ledger.BalancesAntisymmetric` | src/components/Summary.tsx:61-88 | The unpruned table is antisymmetric. |
| `Ledger.BalancesStartAtZero` | src/components/Summary.tsx:52-59 | With no expenses and no payments every entry is 0. |
| `Ledger.OwingCountsRows` | src/components/Summary.tsx:63-75 | What one expense adds to `a`'s debt to `b` is one share per row of `a`, and only when `b` is `care_of`. |
| `Ledger.OwedClosedForm` | src/components/Summary.tsx:61-76 | The expense part of an entry equals the sum, over expenses fronted by `b`, of price/n once per row of `a`. |
| `Ledger.BalanceClosedForm` | src/components/Summary.tsx:61-88 | Closed form of `tally[a][b]`: the debt of `a` to `b` through expenses, less the debt of `b` to `a`, less `a`'s payments to `b`, plus `b`'s payments to `a`. |
| `Ledger.ExpenseWithoutContributors` | src/components/Summary.tsx:62-70 | An expense without contributor rows changes no entry. |
| `Ledger.DanglingContributor` | src/components/Summary.tsx:62-65 | A contributor row whose expense does not exist changes no entry. |
| `Ledger.SelfPayment` | src/components/Summary.tsx:84 | A payment with `paid_by == received_by` changes no entry. |
| `Ledger.ZeroSum` | src/components/Summary.tsx:72-86 | In an antisymmetric table, the entries over any list of residents sum to 0. |
| `Ledger.CentsIsNearest` | src/components/Summary.tsx:93 | `Cents` (`toFixed(2)` in hundredths) is the whole number of hundredths nearest the amount, halves going away from zero. |
| `Ledger.RoundsToZeroIff` | src/components/Summary.tsx:93-94 | An amount rounds to 0.00 exactly when it is strictly between -0.005 and 0.005. |
| `Ledger.CentsOdd` | src/components/Summary.tsx:93 | Rounding to cents is symmetric about 0, so an entry and its mirror are pruned together. |
| `Ledger.PruneRow` | src/components/Summary.tsx:92-95 | An entry is kept exactly when it does not round to 0.00, and keeps its unrounded value. |
| `Ledger.Pruned` | src/components/Summary.tsx:91-97 | No surviving entry rounds to 0.00, no row is empty, and survivors keep their exact value. Every entry that does not round to 0.00 survives. |
| `Ledger.PrunedAntisymmetric` | src/components/Summary.tsx:91-97 | Pruning keeps the table antisymmetric and free of self-entries. |
| `Scenarios.GroceriesTable` | src/components/Summary.tsx:61-76 | 300 fronted by Alice and shared by Alice, Bob and Cara: in the unpruned table Bob and Cara each owe Alice 100, and Bob and Cara are even. |
| `Scenarios.EqualSplit` | src/components/Summary.tsx:61-97 | The same split as the summary shows it: Bob and Cara each owe Alice 100 (mirrors at -100), Alice has no self-entry, and the even Bob–Cara pair is pruned away. |
| `Scenarios.PaymentSettles` | src/components/Summary.tsx:78-97 | After Bob pays Alice 100, the Alice–Bob pair is pruned away and Cara still owes 100. |
| `Scenarios.OverpaymentFlipsSign` | src/components/Summary.tsx:78-97 | After Bob pays 50 more, Alice owes Bob 50. |
| `Records.IdsMembership` | src/components/Summary.tsx:52-53 | An id is in `Ids(residents)` exactly when some resident carries it. (`Shaped` makes these ids the table's row keys.) |
| `Snapshot.Keep` | src/components/Expense.tsx:114-118 | `filter` keeps exactly the elements passing the test and is never longer than its input. |
| `Snapshot.KeepCounts` | src/components/Expense.tsx:114-118 | Every element passing the test is kept as often as it occurred, and every other element is dropped entirely. |
| `Snapshot.KeepAppend` | src/components/Expense.tsx:114-118 | Filtering keeps relative order: it distributes over concatenation. |
| `Snapshot.Replace` | src/components/Expense.tsx:122-128 | `map` by key keeps the length, puts the new record at every hit, and leaves every other element in place. |
| `Snapshot.KeepAfterReplace` | src/components/Expense.tsx:114-128 | A delete after an update of the same key gives the same list as the delete alone. |
| `Sorting.SortInPlace` | src/components/Resident.tsx:57-61 | Sorting in place leaves a permutation of the input, ordered by the comparator. |
| `Sorting.FilterKeepsSorted` | src/components/Resident.tsx:66-68 | Filtering a sorted list leaves it sorted. |
| `Text.Trim` | src/components/Resident.tsx:116 | `trim` never lengthens its input, and its result neither starts nor ends with white space. |
| `Text.TrimIsCore` | src/components/Resident.tsx:116 | `trim` returns a contiguous piece of its input. Only white space is cut on either side, and the result neither starts nor ends with white space. |
| `Text.TrimEmpty` | src/components/Expense.tsx:204 | A string trims to "" exactly when all its characters are white space. |
| `Text.TrimIdempotent` | src/components/Resident.tsx:116 | Trimming twice is trimming once. |
| `Expenses.InsertExpense` | src/components/Expense.tsx:110 | INSERT puts the new expense first. The rest follow, unchanged and in order. |
| `Expenses.DeleteExpense` | src/components/Expense.tsx:114-118 | DELETE removes every expense with the deleted id. Every other expense stays, as often as before. |
| `Expenses.UpdateExpense` | src/components/Expense.tsx:122-128 | UPDATE keeps the length, replaces the expenses with the updated id, and leaves the others in place. |
| `Expenses.DeleteExpenseKeepsOrder` | src/components/Expense.tsx:114-118 | DELETE keeps the order of the expenses it keeps. |
| `Expenses.DeleteAbsentExpense` | src/components/Expense.tsx:114-118 | Deleting an id no expense has changes nothing. |
| `Expenses.DeleteUndoesInsertExpense` | src/components/Expense.tsx:110-118 | DELETE of a freshly inserted id restores the list. |
| `Expenses.DeleteAfterUpdateExpense` | src/components/Expense.tsx:114-128 | DELETE after UPDATE of the same id equals DELETE alone. |
| `Expenses.UpdateExpenseIdempotent` | src/components/Expense.tsx:122-128 | Replaying an UPDATE changes nothing. |
| `Expenses.InsertContributor` | src/components/Expense.tsx:145-148 | INSERT appends the new row. |
| `Expenses.DeleteContributor` | src/components/Expense.tsx:152-160 | DELETE removes exactly the rows matching both `expense_id` and `resident_id`. A row matching one key only stays. |
| `Expenses.UpdateContributor` | src/components/Expense.tsx:164-173 | UPDATE keeps the length and replaces only rows matching the composite key. |
| `Expenses.UpdateContributorChangesNothing` | src/components/Expense.tsx:164-173 | A contributor row is nothing but its key, so UPDATE leaves the list unchanged. |
| `Expenses.DeleteUndoesInsertContributor` | src/components/Expense.tsx:145-160 | DELETE of a freshly appended row restores the list. |
| `Expenses.AddExpense` | src/components/Expense.tsx:203-216 | Nothing is sent exactly when the trimmed item is empty, the price is ≤ 0, or `care_of` or the contributors are unselected. Otherwise the untrimmed item, the price, the notes and the first `care_of` are sent. |
| `Expenses.AddExpenseSendsOnlyRealItems` | src/components/Expense.tsx:203-209 | A sent expense has a positive price and an item with a non-white-space character. An all-white-space item is never sent. |
| `Payments.InsertPayment` | src/components/Payment.tsx:79 | INSERT puts the new payment first. The rest follow, unchanged and in order. |
| `Payments.DeletePayment` | src/components/Payment.tsx:83-88 | DELETE removes every payment with the deleted id and keeps the others. |
| `Payments.UpdatePayment` | src/components/Payment.tsx:91-97 | UPDATE keeps the length and replaces by id. |
| `Payments.DeletePaymentKeepsOrder` | src/components/Payment.tsx:83-88 | DELETE keeps the order of the payments it keeps. |
| `Payments.DeleteUndoesInsertPayment` | src/components/Payment.tsx:79-88 | DELETE of a freshly inserted id restores the list. |
| `Payments.DeleteAfterUpdatePayment` | src/components/Payment.tsx:83-97 | DELETE after UPDATE of the same id equals DELETE alone. |
| `Payments.InsertPaymentFor` | src/components/Payment.tsx:114-117 | INSERT appends the new link. |
| `Payments.DeletePaymentFor` | src/components/Payment.tsx:121-129 | DELETE removes exactly the links matching both `expense_id` and `payment_id`. |
| `Payments.UpdatePaymentFor` | src/components/Payment.tsx:133-142 | UPDATE keeps the length and replaces only links matching the composite key. |
| `Payments.UpdatePaymentForChangesNothing` | src/components/Payment.tsx:133-142 | A link is nothing but its key, so UPDATE leaves the list unchanged. |
| `Payments.DeleteUndoesInsertPaymentFor` | src/components/Payment.tsx:114-129 | DELETE of a freshly appended link restores the list. |
| `Payments.AddPayment` | src/components/Payment.tsx:160-173 | Nothing is sent exactly when the amount is ≤ 0 or a picker is empty. Otherwise the first payer, the first receiver, the amount and the notes are sent. |
| `Payments.ReceiverOptions` | src/components/Payment.tsx:262-267 | The receivers offered are the residents other than the selected payer, or all residents when no payer is selected. |
| `Payments.ReceiverOptionsWithoutPayer` | src/components/Payment.tsx:262-267 | With no payer selected, every resident is offered, in order. |
| `Payments.ExpenseOptions` | src/components/Payment.tsx:289-299 | An expense is offered exactly when the payer has a contributor row for it and its `care_of` is the receiver. Nothing is offered with either picker empty. |
| `Payments.OfferedExpenseMatchesPayment` | src/components/Payment.tsx:160-299 | A payment made for an offered expense goes from one of its contributors to its `care_of`. |
| `Residents.ByNickname` | src/components/Resident.tsx:25-26 | Residents are compared by nickname. |
| `Residents.ByNicknameIsTotalPreorder` | src/components/Resident.tsx:25-26 | A total preorder on nicknames orders residents by a total preorder. |
| `Residents.SortedResidents` | src/components/Resident.tsx:23-29 | `sortedResidents` is a permutation of the residents, ordered by nickname. The INSERT and UPDATE handlers sort the same way. |
| `Residents.InsertResident` | src/components/Resident.tsx:56-62 | INSERT gives every earlier resident plus the new one, ordered by nickname. |
| `Residents.DeleteResident` | src/components/Resident.tsx:66-68 | DELETE removes every resident with the deleted id and keeps the others. |
| `Residents.UpdateResident` | src/components/Resident.tsx:72-82 | UPDATE replaces by id, keeps the length, and re-sorts by nickname. |
| `Residents.DeleteKeepsSorted` | src/components/Resident.tsx:66-68 | DELETE on a sorted list leaves it sorted. |
| `Residents.AddResident` | src/components/Resident.tsx:116-130 | Blank input is ignored. A trimmed, lowered match with a trimmed, lowered nickname is rejected with "That nickname already exists.". Anything else is sent trimmed. |
| `Residents.SubmittedIsTrimmed` | src/components/Resident.tsx:116-130 | A submitted nickname is non-empty, trims to itself, and neither starts nor ends with white space. |
| `Residents.SubmittingTwiceIsRejected` | src/components/Resident.tsx:116-126 | Once the submitted nickname is in the list, the same input (with any outer white space) is rejected as a duplicate. |
| `Residents.HandleDelete` | src/components/Resident.tsx:103 | A delete goes ahead exactly for a selected, non-zero id. Id 0 is falsy and stops it, like no selection. |

## Left out

- Database and realtime I/O is not modelled: the fetches, subscriptions, inserts, deletes and sign-in. A realtime handler is modelled as a function from the old list and the event's record to the new list.
- The contributor and `payment_for` rows are inserted by asynchronous, unordered writes after "add expense" / "add payment". These are not modelled: they are concurrent I/O. So is the confirmation dialog before an expense is deleted.
- React state, effects, memoisation and rendering are not modelled. The owe table is computed from the snapshots passed in as arguments.
- A picker's reference is always mounted in the model. Its selection is the list of chosen options. An unmounted picker, where `current?.` yields undefined, is not modelled.
- Currency formatting (`formatPHP`) and the mobile and desktop layouts are not modelled.
- `src/App.tsx` and `src/components/Login.tsx` are not part of this model: they are UI, DOM events and a sign-in call.
- Floating-point residue is not modelled: amounts are exact reals. `Number(x || 0)` is read as the amount itself.
- `localeCompare` with `sensitivity: "base"` and `toLowerCase` are parameters (any total preorder, any function), not Unicode collation and case mapping.
- `Summary.TableRows`: the relative order of rows with equal amounts is not pinned. It depends on the engine's key order and the stable sort, and the model leaves it open.
- `Residents.SortedResidents`: stability of the sort (the order of residents whose nicknames compare equal) is not stated. Only "permutation" and "ordered" are.
- `Residents.UpdateResident`: besides the exact multiset of the result, only "every element is the new record or an unchanged earlier one with another id" is stated. Positions are not, because the list is re-sorted.
