# Cash-drawer ledger engine of `springBootPokladna`, in Dafny

This project models the bookkeeping core of a cash-drawer ("pokladna") service: the
`TransactionService` and `SaleService` Spring services, the queries of
`TransactionRepositoryInterface`, and the `Transaction` and `Sale` entities.

Every money movement appends a ledger entry. Each entry carries `balanceBefore`,
`amount` and `balanceAfter`. The current balance is the `balanceAfter` of the entry
with the highest id, whether or not that entry is deleted. No entry is ever removed.
To "delete" an entry, the original is flagged `deleted`, its description gets a prefix,
and a compensating entry with the negated amount is appended. The compensating entry
is itself flagged `deleted`. A sale is stored in its own table, together with one
ledger entry that points to it.

The model is functional:

- The database is a `State`:
  - the ledger is a `seq<Entry>`, and an entry's id is its position;
  - the sale table is a `map<SaleId, Sale>`;
  - the next value of the sale identity generator.
- Each state-changing service method is a pure function from a state to a `Result`
  holding the new state, and for `deleteAllSales` and `deleteAllTransactions` also the
  count they return. `addSaleWithTransaction` returns the new state and the new sale's id.
- The read-only queries `CurrentBalance` and `First20` return plain values.
- A Java exception becomes `Err` with one of `NotFound`, `InvalidAmount`,
  `InsufficientFunds` or `AlreadyDeleted`.
- Every state-changing operation except `addSaleWithTransaction` is `@Transactional`, so a failure leaves the state as it was. `addSaleWithTransaction` never fails in the model (see `SaleService.AddSale` under "Left out").
- The read-only queries `getCurrentStatusBalance`, `calculateBalanceBefore` and `getFirst20Transactions` are not `@Transactional`. The model does not need them to be, because they change nothing.
- The acting user is a parameter, as an optional opaque user id.

Files:

- `entity.dfy` (module `Entity`): the records, the identifiers, the error kinds, and the empty database.
- `repository.dfy` (module `Repository`): the repository queries as pure functions over the ledger, and the current-balance rule.
- `text.dfy` (module `Text`): the Czech description texts and the two reversal prefixes.
- `chain.dfy` (module `Chain`): the one way an entry is appended, and the one way an entry is reversed. Also the chaining property and the sums.
- `sale_service.dfy` (module `SaleService`): `addSaleWithTransaction`, `deleteSaleById` and `deleteAllSales`.
- `transaction_service.dfy` (module `TransactionService`):
  - the balance query, the newest-twenty page, deposit and withdrawal;
  - `deleteTransactionById` and `deleteAllTransactions`.
- `invariants.dfy` (module `Invariants`):
  - the state invariant `WellFormed`, and its preservation by every single-step operation;
  - the balance-equals-active-sum theorem.
- `bulk.dfy` (module `Bulk`): the two bulk deletions.
  - `deleteAllSales` is compared with `deleteSaleById` applied sale by sale.
  - `deleteAllTransactions` succeeds or fails only as stated, empties the sale table, and leaves a zero balance.
- `scenarios.dfy` (module `Scenarios`): small concrete runs from an empty database.

`WellFormed` is the state invariant. It has five parts:

1. The balances chain: every entry closes at its opening balance plus its amount, and each entry opens where the previous one closed.
2. The amounts of the deleted entries sum to zero.
3. No two entries carry the same sale reference.
4. Every stored sale has exactly one linked entry. That entry is active and carries the sale's amount.
5. Sale ids are fresh.

From `WellFormed` it follows that the current balance equals the sum of the active
amounts, whatever order they are listed in. So the up-front funds check of
`deleteAllTransactions` never fires.

`findByDeletedFalse` is a derived query with no ordering, so the order in which
`deleteAllTransactions` visits the active entries is not fixed by the code.
`DeleteAllEntries` therefore takes that list as an argument. It must satisfy
`ListsActive`: every active id exactly once, in any order. The order can decide the
outcome (`Scenarios.DeleteAllOrderDecides`).

### Behaviour worth knowing

- Two writes can leave the balance negative:
  - `addSaleWithTransaction` validates nothing (`NegativeSaleAccepted`).
  - The plain-entry loop of `deleteAllTransactions` has no per-step check. After a deposit of 100 and a withdrawal of 50, visiting the deposit first commits a reversal closing at -50 before the run ends at 0 (`DeleteAllPassesThroughNegative`).
- The sale-entry loop of `deleteAllTransactions` does check each step, so the visiting order can turn success into failure. After a sale of 100 and a sale of -50, oldest first fails with `InsufficientFunds` and newest first succeeds (`DeleteAllOrderDecides`).
- `deleteTransactionById` tests funds before it tests the deleted flag.
  - A second delete of an entry with amount `a` fails with `InsufficientFunds` exactly when `balance - 2a < 0`, where `balance` is the balance before the first delete. Otherwise it fails with `AlreadyDeleted` (`DeleteEntryTwice`).
  - A single deposit of 100 deleted twice reports `InsufficientFunds` (`SecondDeleteReportsFunds`).
- The loop of `deleteAllSales` does its own reversal, not a call of `deleteSaleById`. It does not test whether the sale's entry is already deleted.
  - For such an entry, `deleteSaleById` only drops the sale. The loop appends a second reversal and lowers the balance again (`AlreadyDeletedReversedAgain`).
  - On a well-formed state every linked entry is active, and the two agree (`DeleteAllSalesIsSequential`).

## Model

| member | source | states |
|---|---|---|
| Repository.LastId | src/main/java/pavlik/pokladna/repository/TransactionRepositoryInterface.java:24-25 | The newest entry is the one with the highest id, deleted or not. There is none exactly when the ledger is empty. |
| Repository.FindBySaleId | src/main/java/pavlik/pokladna/repository/TransactionRepositoryInterface.java:33-34 | A found entry carries the asked sale reference, and no lower id does. Not found means no entry carries it, so a cleared reference is no longer found. |
| Repository.ActiveIds | src/main/java/pavlik/pokladna/repository/TransactionRepositoryInterface.java:41 | One answer of the query: exactly the ids of the entries not flagged deleted, each once. Ascending is one of the orders the query may return. |
| Repository.ActiveIdsListsActive | src/main/java/pavlik/pokladna/repository/TransactionRepositoryInterface.java:41 | The ascending list meets `ListsActive`, so the query always has an admissible answer. |
| Repository.Recent | src/main/java/pavlik/pokladna/repository/TransactionRepositoryInterface.java:65-66 | At most `n` entries, and never more than the ledger holds. Position k holds the k-th newest entry. |
| Repository.Partition | src/main/java/pavlik/pokladna/service/TransactionService.java:210-220 | The ids whose entry has, or lacks, a sale reference. Every such id of the input is kept, and a list without repeats gives parts without repeats. Order is kept: see `Repository.PartitionKeepsOrder`. |
| Repository.PartitionSnoc | src/main/java/pavlik/pokladna/service/TransactionService.java:210-220 | Extending the input by one id extends the matching part by that id, at its end, and leaves the other part as it was. |
| Repository.PartitionKeepsOrder | src/main/java/pavlik/pokladna/service/TransactionService.java:210-220 | The split keeps the input's order: any two ids of a part appear in the input in the same order. |
| TransactionService.CurrentBalance | src/main/java/pavlik/pokladna/service/TransactionService.java:45-53 | 0 on an empty ledger. Otherwise the closing balance of the entry with the highest id. |
| TransactionService.First20 | src/main/java/pavlik/pokladna/service/TransactionService.java:333-338 | min(20, size) entries, the newest first. |
| TransactionService.Deposit | src/main/java/pavlik/pokladna/service/TransactionService.java:62-84 | Fails with InvalidAmount exactly when amount <= 0. Otherwise appends one active, sale-less entry by the user, opening at the old balance. The prefix and the sales are unchanged, and the balance rises by the amount. |
| TransactionService.Withdraw | src/main/java/pavlik/pokladna/service/TransactionService.java:95-123 | InvalidAmount for amount <= 0. InsufficientFunds exactly when amount > balance. On success appends one active entry of -amount, and the balance drops by the amount and stays >= 0. |
| TransactionService.DeleteEntry | src/main/java/pavlik/pokladna/service/TransactionService.java:135-177 | Unknown id: NotFound. The funds check comes before the deleted check. A linked entry is handed to the sale deletion of its sale. A plain entry is flagged, gets the "(smazáno) - " prefix, and is reversed by one deleted entry of -amount carrying the actor. |
| TransactionService.EntryPass | src/main/java/pavlik/pokladna/service/TransactionService.java:224-258 | One loop body of the bulk delete. A linked entry is the sale deletion of its sale. A plain entry is reversed with no balance check and no prefix, and the reversal carries the entry's own user. |
| TransactionService.ProcessEntries | src/main/java/pavlik/pokladna/service/TransactionService.java:224-258 | One loop of the bulk delete. It fails only with NotFound or InsufficientFunds, never shrinks the ledger, and never touches the sale identity. |
| TransactionService.RunLoops | src/main/java/pavlik/pokladna/service/TransactionService.java:223-295 | The plain-entry loop, then the sale-entry loop. Same failure kinds, and the ledger only grows. |
| TransactionService.DeleteAllEntries | src/main/java/pavlik/pokladna/service/TransactionService.java:187-298 | Takes the active ids in any order the query may return. The up-front check fails with InsufficientFunds when the active amounts exceed the balance. Any failure is NotFound or InsufficientFunds. On success the count is the number of initially active entries, and the sale identity is untouched. |
| SaleService.AddSale | src/main/java/pavlik/pokladna/service/SaleService.java:46-78 | The sale is stored under the next identity value, unvalidated. One active entry linked to it is appended, carrying its amount and user and opening at the old balance. The balance moves by the sale amount. |
| SaleService.DeleteSale | src/main/java/pavlik/pokladna/service/SaleService.java:86-141 | NotFound exactly for an unknown sale. A successful delete always removes the sale. An already-deleted entry leaves the ledger alone. Otherwise it fails exactly when balance - amount < 0, or reverses the entry with the "(smazáno) " prefix. |
| SaleService.DeleteSaleKeepsLinked | src/main/java/pavlik/pokladna/service/SaleService.java:89-92 | After a sale deletion every remaining sale still has its ledger entry, so the lookup in the next deletion finds one. |
| SaleService.DeleteSalesInOrder | src/main/java/pavlik/pokladna/service/SaleService.java:86-141 | `deleteSaleById` applied to each listed sale in turn. On success exactly the listed sales are gone and every other sale stays linked. |
| SaleService.CompensateSale | src/main/java/pavlik/pokladna/service/SaleService.java:170-214 | One loop body of `deleteAllSales`. It fails exactly when balance - amount < 0. On success the sale's entry is flagged deleted and unlinked, keeping its amount, balances and user, and gets the "(smazáno) " prefix. This happens even if the entry was already deleted. A deleted, sale-less entry of -amount closing >= 0 is appended, other sales' entries stay where they were, and the chain is kept. |
| SaleService.CompensateSales | src/main/java/pavlik/pokladna/service/SaleService.java:170-215 | It fails only with InsufficientFunds. On success it appends one deleted, non-negative entry per sale, and leaves unlinked entries alone. |
| SaleService.CompensateSalesBalance | src/main/java/pavlik/pokladna/service/SaleService.java:170-215 | After the loop the balance has dropped by the sum of the sale amounts, and the chain holds. |
| SaleService.CompensateSalesFlags | src/main/java/pavlik/pokladna/service/SaleService.java:172-198 | After the loop, every listed sale's entry is flagged deleted, unlinked and prefixed with "(smazáno) ", and keeps its amount. |
| SaleService.DeleteAllSales | src/main/java/pavlik/pokladna/service/SaleService.java:149-220 | The up-front check fails when the sale amounts exceed the balance. On success the sale table is empty, and the count is the number of sales. One reversal per sale is appended, and the balance drops by the sale sum. Entries without a sale are left unchanged. |
| SaleService.DeleteAllSalesFlagsEntries | src/main/java/pavlik/pokladna/service/SaleService.java:172-214 | On success every stored sale's entry is flagged deleted, unlinked and prefixed with "(smazáno) ". |
| SaleService.AlreadyDeletedReversedAgain | src/main/java/pavlik/pokladna/service/SaleService.java:93-141 | For a sale whose entry is already deleted, `deleteSaleById` only drops the sale. One pass of the `deleteAllSales` loop still appends a reversal and lowers the balance by the sale amount. |
| SaleService.EnumerationSize | src/main/java/pavlik/pokladna/service/SaleService.java:151-172 | The loop visits each sale once, so the returned count equals the number of stored sales. |
| Chain.Append | src/main/java/pavlik/pokladna/service/TransactionService.java:68-83 | A new entry opens at the previous tail's closing balance, closes at opening plus amount, and becomes the tail. |
| Chain.Compensate | src/main/java/pavlik/pokladna/service/TransactionService.java:157-176 | The reversal: the original is flagged and unlinked, keeping its amount, balances and user. One deleted entry is chained onto the tail, and the chain is kept. |
| Chain.BalanceIsTotal | src/main/java/pavlik/pokladna/service/TransactionService.java:68-83 | On a chained ledger the current balance is the sum of all amounts. |
| Chain.AppendKeepsChained | src/main/java/pavlik/pokladna/service/TransactionService.java:68-79 | Appending keeps every entry closing at opening plus amount. |
| Chain.ReversedKeepsChained | src/main/java/pavlik/pokladna/service/TransactionService.java:157-170 | Flagging and appending a reversal keeps the chain. |
| Chain.ReversedKeepsDeletedSum | src/main/java/pavlik/pokladna/service/TransactionService.java:157-173 | Reversing an active entry by its negation leaves the deleted sum unchanged, and lowers the active sum by its amount. |
| Chain.ReversedKeepsOtherFinds | src/main/java/pavlik/pokladna/repository/TransactionRepositoryInterface.java:33-34 | A reversal changes no sale lookup except that of the reversed entry's own sale. |
| Invariants.BalanceIsActiveSum | src/main/java/pavlik/pokladna/service/TransactionService.java:45-53 | On a well-formed state the current balance is the sum of the active amounts. |
| Invariants.ListedAmountIsActiveSum | src/main/java/pavlik/pokladna/service/TransactionService.java:190-194 | In whatever order the query lists the active entries, the stream sum of their amounts is the active sum of the ledger. |
| Invariants.PrecheckNeverFires | src/main/java/pavlik/pokladna/service/TransactionService.java:190-207 | On a well-formed state the summed active amounts equal the balance, in any listing order, so the up-front check cannot fail. |
| Invariants.DepositKeepsWellFormed | src/main/java/pavlik/pokladna/service/TransactionService.java:62-84 | A deposit keeps the invariant. |
| Invariants.WithdrawKeepsWellFormed | src/main/java/pavlik/pokladna/service/TransactionService.java:95-123 | A withdrawal keeps the invariant. |
| Invariants.AddSaleKeepsWellFormed | src/main/java/pavlik/pokladna/service/SaleService.java:46-78 | Adding a sale keeps the invariant, and the new sale's lookup finds the new entry. |
| Invariants.NoLinkToFreshId | src/main/java/pavlik/pokladna/entity/Sale.java:12-15 | No entry points to the next generated sale id. |
| Invariants.DeleteSaleKeepsWellFormed | src/main/java/pavlik/pokladna/service/SaleService.java:86-141 | A sale deletion keeps the invariant, and appends exactly one entry for a known sale. |
| Invariants.DeleteEntryKeepsWellFormed | src/main/java/pavlik/pokladna/service/TransactionService.java:135-177 | An entry deletion keeps the invariant. |
| Invariants.ReversalKeepsWellFormed | src/main/java/pavlik/pokladna/service/SaleService.java:117-134 | Any reversal of an active entry by its negation, dropping the entry's sale if it has one, keeps the invariant. |
| Invariants.DeleteEntryTwice | src/main/java/pavlik/pokladna/service/TransactionService.java:141-148 | A second delete of the same entry always fails. It fails with InsufficientFunds exactly when the original balance minus twice the amount is negative, and with AlreadyDeleted otherwise. |
| Bulk.DeleteSalesInOrderKeepsWellFormed | src/main/java/pavlik/pokladna/service/SaleService.java:86-141 | Deleting sales one by one keeps the invariant. |
| Bulk.CompensateSalesAsDeletes | src/main/java/pavlik/pokladna/service/SaleService.java:170-215 | When every linked entry is active, the `deleteAllSales` loop writes the same ledger as `deleteSaleById` applied in the same order, including on failure. |
| Bulk.DeleteAllSalesIsSequential | src/main/java/pavlik/pokladna/service/SaleService.java:149-220 | When every linked entry is active, `deleteAllSales` succeeds iff the sale sum fits the balance and the sequential deletes succeed. It then yields their state. |
| Bulk.DeleteAllSalesKeepsWellFormed | src/main/java/pavlik/pokladna/service/SaleService.java:149-220 | Deleting all sales keeps the invariant. |
| Bulk.EntryPassReverses | src/main/java/pavlik/pokladna/service/TransactionService.java:224-258 | One loop body reverses its entry by the negated amount, keeping the other active entries reversible. A plain entry never fails and leaves the sales alone. A failure can only be InsufficientFunds. |
| Bulk.EntryPassKeepsWellFormed | src/main/java/pavlik/pokladna/service/TransactionService.java:224-258 | One loop body keeps the invariant. |
| Bulk.ActivePass | src/main/java/pavlik/pokladna/service/TransactionService.java:224-295 | A loop over distinct reversible entries appends one deleted entry per listed id, flags exactly those entries, and leaves the rest unchanged and reversible. A failure can only be InsufficientFunds. Which appended entry reverses which entry is `Bulk.ActivePassPairs`. |
| Bulk.ActivePassPairs | src/main/java/pavlik/pokladna/service/TransactionService.java:224-295 | On success the k-th appended entry reverses the k-th listed entry: it is deleted, carries no sale, and its amount is the negated amount of that entry. |
| Bulk.PlainPass | src/main/java/pavlik/pokladna/service/TransactionService.java:230-256 | The loop over sale-less entries never fails, because it has no balance check, and leaves the sales alone. |
| Bulk.ProcessEntriesKeepsWellFormed | src/main/java/pavlik/pokladna/service/TransactionService.java:224-295 | A loop over distinct active entries keeps the invariant. |
| Bulk.PartitionSizes | src/main/java/pavlik/pokladna/service/TransactionService.java:210-220 | The two lists together are as long as the active list. |
| Bulk.PartitionFacts | src/main/java/pavlik/pokladna/service/TransactionService.java:210-220 | The split puts every active entry in exactly one list: sale-less ones first, linked ones second, with no repeats. |
| Bulk.FirstLoop | src/main/java/pavlik/pokladna/service/TransactionService.java:223-258 | The plain loop succeeds, keeps the invariant and flags exactly its entries. It appends their reversals in list order, and leaves the linked entries reversible. |
| Bulk.SecondLoop | src/main/java/pavlik/pokladna/service/TransactionService.java:260-295 | The sale loop fails only with InsufficientFunds. On success it keeps the invariant, flags exactly its entries and appends their reversals in list order. |
| Bulk.RunLoopsFacts | src/main/java/pavlik/pokladna/service/TransactionService.java:223-295 | Both loops fail only with InsufficientFunds. On success every entry is deleted, the ledger has grown by one entry per active entry, and the invariant holds. |
| Bulk.RunLoopsPairs | src/main/java/pavlik/pokladna/service/TransactionService.java:223-295 | On success the appended entries are the reversals of the plain entries, in list order, followed by the reversals of the linked entries, in list order. |
| Bulk.DeadBranches | src/main/java/pavlik/pokladna/service/TransactionService.java:224-267 | The linked branch of the plain loop is dead, the plain loop always succeeds, and every entry of the sale loop still has its sale when that loop starts. |
| Bulk.SaleLoopEachPass | src/main/java/pavlik/pokladna/service/TransactionService.java:260-295 | At every pass of the sale loop, the entry about to be visited still has its sale: the earlier passes of that loop did not unlink it. |
| Bulk.DeleteAllEntriesFailsOnlyOnFunds | src/main/java/pavlik/pokladna/service/TransactionService.java:187-298 | On a well-formed state a failure of `deleteAllTransactions` can only be InsufficientFunds, from a sale reversal. |
| Bulk.DeleteAllEntriesFlagsAll | src/main/java/pavlik/pokladna/service/TransactionService.java:187-298 | On success every entry is deleted and the invariant holds. The appended entries reverse the plain active entries first, in the order of the `findByDeletedFalse` answer, and then the linked ones, in the same order. Each appended entry negates its entry's amount. |
| Bulk.DeleteAllEntriesReverses | src/main/java/pavlik/pokladna/service/TransactionService.java:223-295 | On success, the k-th appended entry reverses the k-th plain active entry, and the entries after those reverse the linked active entries in turn. Every one is deleted, has no sale, and carries the negated amount. |
| Bulk.DeleteAllEntriesClears | src/main/java/pavlik/pokladna/service/TransactionService.java:187-298 | On success no sale remains and the balance is 0. |
| Scenarios.SaleRemovedRestoresBalance | src/main/java/pavlik/pokladna/service/SaleService.java:86-141 | Deposit 500, then a sale of 300 (balance 800), then the sale deleted. The result is balance 500, three entries, and an empty sale table. |
| Scenarios.OverdraftRefused | src/main/java/pavlik/pokladna/service/TransactionService.java:108-110 | Withdrawing 200 from a balance of 100 fails with InsufficientFunds. |
| Scenarios.NegativeSaleAccepted | src/test/java/pavlik/pokladna/PokladnaApplicationTests.java:41-51 | A sale of -1000 is stored as -1000 and takes the balance to -1000. |
| Scenarios.DeleteAllPassesThroughNegative | src/main/java/pavlik/pokladna/service/TransactionService.java:224-258 | Deposit 100, then withdraw 50, then delete all. Both orders succeed with count 2 and end at 0. Oldest first commits a reversal closing at -50. Newest first closes its first reversal at 100. |
| Scenarios.DeleteAllOrderDecides | src/main/java/pavlik/pokladna/service/TransactionService.java:260-295 | A sale of 100, then a sale of -50, then delete all. Oldest first fails with InsufficientFunds, and newest first succeeds. |
| Scenarios.SecondDeleteReportsFunds | src/main/java/pavlik/pokladna/service/TransactionService.java:141-148 | Deleting a deposit of 100 twice: the second attempt fails with InsufficientFunds, not AlreadyDeleted. |

## Left out

- Users and security: the acting user is an optional opaque id given as a parameter. `userService.getCurrentUser()` is not part of this model.
- `removeUserIdFromTransactions` and `removeUserIdFromSales` are left out. They only null out user references and touch no amount, balance, flag or sale link.
- `getFirst20TransactionsAscending` is left out. Its query fixes a descending order and the pageable adds an ascending sort. The combined order depends on how Spring Data merges the two, which is outside this model.
- Concurrency: each operation is atomic. The race between reading the tail and appending is not modelled.
- Java `int` overflow is not modelled. Amounts and balances are unbounded integers.
- The `NullPointerException` on a sale with no linked entry (`SaleService.java:92-93`, `175-176`) is modelled as a precondition, not as an error outcome:
  - `DeleteSale` requires that a stored sale has a linked entry;
  - the bulk operations require `Linked`.
- `findBySaleId` over duplicate references: JPA would throw on duplicates. The model returns the lowest id. On a well-formed state references are unique.
- Entry ids are positions in the ledger, in id order. The database's identity values start at 1 and can skip values (for example after a rolled-back insert). The model does not keep them. Every id in the model is a position: the argument of `DeleteEntry`, the ids in the reversal descriptions, and the ids listed for `DeleteAllEntries`.
- `findAll` order is unspecified, so `DeleteAllSales` takes the order in which sales are visited as an argument (`Enumerates`).
- `findByDeletedFalse` order is unspecified too, so `DeleteAllEntries` takes the listed active ids as an argument (`ListsActive`). The model does not say which order a given database returns.
- Entity constructors and setters are not separate members. Records are immutable datatypes updated with `.(field := value)`. Both `Transaction` constructors start with `deleted` false: every new entry is appended as active, except compensations, which are set deleted.
- TransactionService.ProcessEntries: its own contract states only the failure kinds and that the ledger grows. What a loop does is stated by `Bulk.ActivePass`, `Bulk.FirstLoop` and `Bulk.SecondLoop`.
- TransactionService.RunLoops: its own contract is as weak as `ProcessEntries`. Its effect on a well-formed state is `Bulk.RunLoopsFacts`.
- TransactionService.DeleteAllEntries: its own contract does not state the final ledger. For well-formed states, `Bulk.DeleteAllEntriesFlagsAll` states that every entry ends deleted and which appended entry reverses which active entry, with plain ones first. `Bulk.DeleteAllEntriesClears` states that no sale remains and the balance is 0. The appended entries' descriptions, users and intermediate balances are not stated.
- SaleService.CompensateSales: does not state which entries are flagged. On a state whose linked entries are active, `Bulk.CompensateSalesAsDeletes` equates it with sequential sale deletion.
- SaleService.AddSale: it never fails. In the code `addSaleWithTransaction` is not `@Transactional`. It saves the sale (`SaleService.java:48`) before it reads `sale.getAmount()` into an `int` (`SaleService.java:59`). A sale with a null `Integer` amount therefore stays stored with no ledger entry, and an exception thrown between the two saves leaves the same half-done state. The model's amounts are never null, and the operation is atomic.
- Description texts follow the code's Czech texts exactly (`text.dfy`), with the numbers written in decimal. Apart from the two reversal prefixes, no ledger rule reads a description.
