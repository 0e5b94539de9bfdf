# Ledger balance rule — a Dafny model

This project models the business logic of a personal-finance ledger backend:
the two services that record transactions.

- `CreateTransactionService.execute` records one transaction. An outcome
  whose value exceeds the current balance total is refused. Otherwise the
  category is looked up by title, created when missing, and one transaction
  referencing it is saved and returned.
- `ImportTransactionsService.execute` records a batch of already-parsed rows.
  It folds the rows into a net value: income rows add, every other row
  subtracts. The whole batch is refused when the total plus that net value is
  negative. Otherwise every distinct category title is found or created, and
  one transaction is saved per row; the saved transactions are returned in
  row order.

The repositories are replaced by an in-memory `Store.Ledger` class. It holds
the stored transactions and categories as sequences, plus a counter that
hands out fresh ids. The unseen `getBalance()` is replaced by the pure fold
`Balance.Total`: income values minus outcome values.

Files:

- `records.dfy` (module `Records`): transactions, categories, import rows,
  the error, `Option` and `Result`.
- `balance.dfy` (module `Balance`): the balance total and its lemmas.
- `store.dfy` (module `Store`): `Ledger`, the title look-up `FindByTitle`
  (`findOne`), and the find-or-create step that both services perform.
- `create_transaction.dfy` (module `CreateTransactionService`): the single
  create.
- `import_transactions.dfy` (module `ImportTransactionsService`): the net-value
  fold, the distinct titles, the category pass, the insert pass and the
  import.
- `scenarios.dfy` (module `Scenarios`): client methods that derive example
  runs from the service contracts alone. Examples: an outcome of 150 refused
  at total 100; "Food" used twice giving one category; a batch with net −30
  refused at total 0; five "Rent" rows accepted into an empty store giving
  exactly one category, linked from all five transactions.

Choices the code leaves open, and how the model settles them:

- Values are integers with no sign check, because the code validates no sign.
  So "total stays ≥ 0" is proved for an accepted single create only when the
  old total and the value are non-negative. An outcome that passes the gate
  always leaves total ≥ 0. An accepted import always leaves total ≥ 0.
- Category titles are matched exactly, with no case or whitespace folding.
- Unique titles are not part of the store's invariant (`Ledger.Valid`). The
  services preserve them: if the titles were unique before a call, they are
  unique after it.
- The insert pass reads `transCategory?.id`
  (src/services/ImportTransactionsService.ts:75), which would leave a
  transaction unlinked if the second look-up found nothing. The model proves
  the look-up always succeeds after the category pass, so
  `Transaction.categoryId` is a plain id, not an optional one.

## Model

| member | source | states |
|---|---|---|
| `Balance.Total` | src/services/CreateTransactionService.ts:27 | definition standing in for `getBalance().total`: the signed fold of the stored values; its meaning is given by `Balance.TotalIsIncomeMinusOutcome` |
| `Store.Ledger.CurrentTotal` | src/services/ImportTransactionsService.ts:41 | definition of `getBalance().total` on the ledger: `Balance.Total` of the stored transactions; its meaning is given by `Balance.TotalIsIncomeMinusOutcome` |
| `CreateTransactionService.Rejects` | src/services/CreateTransactionService.ts:25-27 | definition of the balance gate of a single create; its meaning is given by `CreateTransactionService.GateMeaning` |
| `ImportTransactionsService.Reduce` | src/services/ImportTransactionsService.ts:33-39 | definition of the `reduce` callback folded from an accumulator; its meaning is given by `ImportTransactionsService.ReduceSnoc` and `ImportTransactionsService.NetValueIsTotal` |
| `ImportTransactionsService.NetValue` | src/services/ImportTransactionsService.ts:33-39 | definition of the `reduce` started at 0; its meaning is given by `ImportTransactionsService.NetValueIsTotal` |
| `ImportTransactionsService.RowCategories` | src/services/ImportTransactionsService.ts:48 | definition of the `.map` to the rows' category titles; its meaning is given by `ImportTransactionsService.CategoryTitles` |
| `Balance.TotalIsIncomeMinusOutcome` | src/services/CreateTransactionService.ts:27 | the balance total used by the gates is the income sum minus the outcome sum |
| `Balance.TotalSnoc` | src/services/CreateTransactionService.ts:48 | saving one transaction moves the total by exactly its signed value (+value for income, −value for outcome) |
| `Balance.TotalAppend` | src/services/ImportTransactionsService.ts:64-83 | the total after saving a batch is the old total plus the batch's own total |
| `Store.FindByTitle` | src/services/CreateTransactionService.ts:32-34 | a found category is stored and carries the title; nothing is found exactly when no stored category has the title |
| `Store.FindUnique` | src/services/ImportTransactionsService.ts:67-69 | with unique titles, the look-up returns the one category that carries the title |
| `Store.FindAfterAppend` | src/services/CreateTransactionService.ts:36-39 | a category created for a missing title is then the one found for it, and unique titles stay unique |
| `Store.Ledger.SaveCategory` | src/services/CreateTransactionService.ts:37-38 | appends exactly one category with the title and a fresh id; transactions unchanged |
| `Store.Ledger.SaveTransaction` | src/services/CreateTransactionService.ts:41-48 | appends exactly one transaction with the given fields and a fresh id; categories unchanged; total moves by its signed value |
| `Store.FindOrCreateCategory` | src/services/CreateTransactionService.ts:32-39 | an existing category is reused and nothing is added; otherwise exactly one category with that title is appended; the result is what the look-up then finds; unique titles are preserved |
| `CreateTransactionService.GateMeaning` | src/services/CreateTransactionService.ts:25-30 | an income is never refused; a transaction passes exactly when it is an income or leaves a non-negative total |
| `CreateTransactionService.Execute` | src/services/CreateTransactionService.ts:15-51 | refused exactly when an outcome exceeds the total, and then nothing changes; otherwise exactly one transaction with the given title, type, value and the resolved category's id is appended and returned; existing transactions untouched; category reused or created once; total moves by the signed value and stays ≥ 0 |
| `ImportTransactionsService.ReduceSnoc` | src/services/ImportTransactionsService.ts:33-39 | folding one more row moves the net value by that row's signed value |
| `ImportTransactionsService.NetValueIsTotal` | src/services/ImportTransactionsService.ts:33-43 | the net value the gate tests is exactly the balance total of the transactions the batch saves |
| `ImportTransactionsService.AddNew` | src/services/ImportTransactionsService.ts:47-49 | adding titles to a duplicate-free list keeps it duplicate-free, keeps its prefix, and gives exactly the old titles plus the new ones |
| `ImportTransactionsService.CategoryTitles` | src/services/ImportTransactionsService.ts:47-49 | the title list has no duplicates, holds exactly the rows' category titles, and is no longer than the rows |
| `ImportTransactionsService.PassStep` | src/services/ImportTransactionsService.ts:51-60 | one find-or-create keeps the category-pass invariant with one more title handled |
| `ImportTransactionsService.ResolveCategories` | src/services/ImportTransactionsService.ts:51-62 | existing categories are kept; every title ends with a category; each new category is for a title that had none, and none is created twice; transactions unchanged |
| `ImportTransactionsService.InsertRow` | src/services/ImportTransactionsService.ts:64-81 | the row's category is found again, and one transaction carrying the row's fields and that category's id is appended |
| `ImportTransactionsService.InsertRows` | src/services/ImportTransactionsService.ts:64-83 | exactly one transaction per row is appended, in row order, each with its row's fields and linked to its row's category; categories unchanged |
| `ImportTransactionsService.Execute` | src/services/ImportTransactionsService.ts:24-84 | refused exactly when total + net < 0, and then nothing changes; otherwise one transaction per row is appended and returned in row order with its row's title, type, value and category id; old categories kept; new ones only for missing titles, one per title; titles stay unique; new total = old total + net ≥ 0 |

## Left out

- FindByTitle: the store's `findOne` has no ordering, so when several stored categories share a title the source does not say which one it returns. The model returns the first stored one. The category links promised by `CreateTransactionService.Execute`, `ImportTransactionsService.InsertRow`, `ImportTransactionsService.InsertRows` and `ImportTransactionsService.Execute` name that choice. When titles are unique, which both services preserve, `Store.FindUnique` shows the choice is the only category with the title.
- Parsing the uploaded file (`csvParse` over the `csv-parse` library, src/services/ImportTransactionsService.ts:11-21, 28-31) is a foreign call. The model takes already-parsed rows.
- Run-time coercion: without a `cast` option the CSV fields arrive as strings, so `value + transaction.value` can concatenate strings. The model follows the declared numeric type.
- The type of a row is `Income` or `Outcome`. The fold's "any other type subtracts" therefore reduces to `Outcome`. Strings other than the two declared ones are not modelled.
- HTTP routing, the multipart upload, status codes, JSON serialisation and the delete route (src/routes/transactions.routes.ts) are plumbing around the services and are not part of this model.
- The repositories' own code and `getBalance()` are not available. They are replaced by the `Ledger` sequences and the pure fold `Balance.Total`.
- Concurrency: the two `Promise.all` fan-outs are modelled as sequential loops. For the category pass this is equivalent, because the titles are distinct. For the insert pass the returned sequence is in row order, as in the source, but the order in which the store receives the saves is not modelled.
- The check-then-act race between reading the balance and saving is not modelled. The same goes for the look-up-then-insert race on categories.
- Floating-point `number` arithmetic is modelled as unbounded integers.
- Ids are modelled as one increasing counter shared by both stores. Generated identifiers, `createdAt` and `updatedAt` are not modelled.
- A store failure partway through an import, which would leave a partial batch, is not modelled: saves always succeed.
