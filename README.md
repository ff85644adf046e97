# Wallet payment API — a verified model of its core

This project models, in Dafny, the three services at the heart of a wallet
and payments backend:

- **The wallet store** (`WalletService`). It holds a users table and a
  wallets table. It creates at most one wallet per user and currency, each
  starting at balance 0. It overwrites a wallet's balance, and it reads
  wallets back by id, by user, or as a balance response.
- **The ledger engine** (`TransactionService`). It runs top-up, payment and
  transfer over the wallets and a transactions table whose rows are only
  ever inserted, with their status updated in place:
  - a request whose idempotency key is already stored replays the stored
    outcome;
  - every check runs before any write;
  - rows are inserted as PENDING, the balances are written, and then the
    rows are marked COMPLETED.

  It also answers lookups by id and by idempotency key, and the per-wallet
  history query, which has optional day bounds and is ordered newest first.
- **The reconciliation engine** (`ReconciliationService`). It does five things:
  - selects the day's COMPLETED rows into a report of all-string records;
  - summarises the report by currency total, type count and status count;
  - renders the report as CSV;
  - matches the report against an external list by transaction id, giving
    matched, missing-in-external and missing-in-database lists plus
    field-level discrepancies;
  - builds the mock external file, which drops one record, raises one
    amount by 10.00 and adds a phantom record.

Amounts and balances are whole cents (`int`). The clock reading and the
generated ids are parameters of each operation. The transactions table is
a sequence of rows in insertion order, and the wallets table is a map from
wallet id to row. Each service class keeps a `Valid()` invariant:
- `Wallets.WalletService.Valid`: every wallet is stored under its own id,
  every wallet's user exists, and at most one wallet exists per (user,
  currency);
- `Transactions.TransactionService.Valid`: its wallet store is valid, the
  primary key and the unique index on the idempotency key hold, every row's
  wallet exists, and no balance is negative.

Two behaviours of the code are modelled as written, not corrected:

- **Self-transfer is accepted.** Both balances are read first. The source
  is written to `balance - amount`, and that write is then overwritten by
  `balance + amount`, so the wallet gains the amount.
  `Transactions.SelfTransferCredits` proves that the total of all balances
  grows by the amount. `Transactions.SelfTransferBreaksBacking` proves that
  the ledger no longer accounts for that wallet's balance. Conservation,
  `Transactions.TransferConservesTotal`, is proved for distinct wallets
  only.
- **The derived inbound key.** A transfer's TRANSFER_IN row carries the
  request key with `_in` appended. When that key is already stored, the
  unique index rejects the insert, and the database transaction discards
  the outbound row. The model returns `DuplicateIdempotencyKey` and
  changes nothing.
- **Column widths.** The idempotency key and the reference are stored in
  `varchar(100)` columns. A longer value makes the insert fail before any
  status is written, and the database transaction discards the operation's
  writes. The model returns `ValueTooLong` and changes nothing. A transfer
  key of 98 to 100 characters fits, but its inbound key does not
  (`Transactions.InboundKeyWidth`), so such a transfer is rejected while a
  top-up or payment with the same key is accepted.

Modules, one per file:
- `Wrappers`: `Option`, `Result`.
- `Models`: the tables' rows, the enums, the requests and the responses.
- `DecimalText`: the text of a two-decimal amount, and its parser.
- `MapSums`: the sum of a finite map's values.
- `Wallets`: the wallet store.
- `Ledger`: the queries over the transactions table.
- `Transactions`: the ledger engine.
- `Records`: the report records, the day's selection and the summary specification.
- `Summary`: the summary loop and the daily report.
- `Csv`: the CSV rendering.
- `Reconcile`: matching and discrepancies.
- `MockExternal`: the mock external file.

## Model

| member | source | states |
|---|---|---|
| Wallets.WalletService.CreateWallet | src/main/kotlin/services/WalletService.kt:31-67 | unknown user gives UserNotFound, an existing (user, currency) wallet gives WalletAlreadyExists, both with no change; otherwise exactly one new wallet with that user and currency and balance 0 is added, others unchanged; at most one wallet per (user, currency) is kept |
| Wallets.WalletService.UpdateWalletBalance | src/main/kotlin/services/WalletService.kt:94-99 | sets the named wallet's balance and updatedAt only, every other wallet unchanged; an unknown id changes nothing; the store invariant is kept |
| Wallets.WalletService.GetWallet | src/main/kotlin/services/WalletService.kt:101-113 | present exactly when the id is stored, and then the stored wallet, carrying that id |
| Wallets.WalletService.GetUserWallets | src/main/kotlin/services/WalletService.kt:81-92 | exactly the stored wallets of that user, at most one per currency |
| Wallets.WalletService.GetWalletBalance | src/main/kotlin/services/WalletService.kt:69-79 | present exactly when the id is stored, with that id and the stored currency and balance |
| Ledger.WithKey | src/main/kotlin/services/TransactionService.kt:272-289 | the rows carrying the key, all of them and only them; at most one under the unique index |
| Ledger.FindTransactionByIdempotencyKey | src/main/kotlin/services/TransactionService.kt:272-289 | a result is a stored row with that key; under the unique index the result is absent exactly when no row carries the key |
| Ledger.WithId | src/main/kotlin/services/TransactionService.kt:253-270 | the rows with that id, all of them and only them; at most one under the primary key |
| Ledger.GetTransactionStatus | src/main/kotlin/services/TransactionService.kt:253-270 | a result is the stored row with that id; under the primary key absent exactly when no row has that id |
| Ledger.InsertNewestFirst | src/main/kotlin/services/TransactionService.kt:237 | inserting into a newest-first list keeps it newest first and adds exactly that row |
| Ledger.SortNewestFirst | src/main/kotlin/services/TransactionService.kt:237 | the result is newest first and a permutation of the input |
| Transactions.TransactionService.GetTransactionsByWallet | src/main/kotlin/services/TransactionService.kt:214-251 | the result holds exactly the rows of that wallet with createdAt at or after the start of fromDate and at or before the start of the day after toDate (each bound only if given), no row more often than stored, newest first |
| Transactions.TransactionService.UpdateTransactionStatus | src/main/kotlin/services/TransactionService.kt:291-298 | every row with that id gets the status, every other row is unchanged, the length is kept |
| Transactions.TransactionService.TopUp | src/main/kotlin/services/TransactionService.kt:23-75 | a stored key replays that row's id and status with no change; else unknown wallet, then amount ≤ 0, are rejected with no change; else a key or reference longer than 100 characters gives ValueTooLong with no change; else one COMPLETED TOP_UP row with that amount and key is appended, the wallet's balance rises by the amount, other wallets are unchanged, the response is COMPLETED with the new id; the invariant and ledger backing are kept |
| Transactions.TransactionService.Payment | src/main/kotlin/services/TransactionService.kt:77-131 | as TopUp, with a third rejection when balance < amount (balance == amount is accepted) before the width check; success appends one COMPLETED PAYMENT row and lowers the balance by exactly the amount, which stays ≥ 0 |
| Transactions.TransactionService.CommitEntry | src/main/kotlin/services/TransactionService.kt:46-69 | insert PENDING, balance write, status update: the ledger gains exactly the completed row, only that wallet's balance changes, the invariant and backing are kept |
| Transactions.TransactionService.Transfer | src/main/kotlin/services/TransactionService.kt:133-212 | replay on a stored key; then source missing, target missing, currency mismatch, amount ≤ 0, source balance < amount, each with no change; a key, inbound key or reference longer than 100 characters gives ValueTooLong with no change; an inbound key already stored gives DuplicateIdempotencyKey with no change; else a COMPLETED TRANSFER_OUT (key, target = to) and TRANSFER_IN (key + "_in", target = from) are appended, balances become the two writes, the outbound id is returned; backing kept for distinct wallets |
| Transactions.TransactionService.CommitTransfer | src/main/kotlin/services/TransactionService.kt:168-206 | the two rows, the two balance writes (the second over the first when the ids coincide) and both completions; invariant kept, backing kept for distinct wallets |
| Transactions.InboundKeyWidth | src/main/kotlin/services/TransactionService.kt:189 | a key fits its 100-character column while key + "_in" does not exactly when its length is 98 to 100 |
| Transactions.CreateKeepsBacking | src/main/kotlin/services/WalletService.kt:51-56 | adding a fresh wallet with balance 0 keeps keys, foreign key, non-negative balances, and every balance equal to its rows' net effect |
| Ledger.NetFresh | src/main/kotlin/services/WalletService.kt:51-56 | a wallet that no row names has net effect 0, matching the new wallet's balance of 0 |
| Transactions.TransferConservesTotal | src/main/kotlin/services/TransactionService.kt:195-196 | between distinct wallets: source down by amount, target up by amount, other wallets unchanged, total of balances unchanged |
| Transactions.SelfTransferCredits | src/main/kotlin/services/TransactionService.kt:195-196 | a self-transfer raises that wallet's balance and the total by the amount |
| Transactions.SelfTransferBreaksBacking | src/main/kotlin/services/TransactionService.kt:181-196 | after a positive self-transfer the ledger no longer accounts for the balances |
| Transactions.OneEntryKeepsBacking | src/main/kotlin/services/TransactionService.kt:46-69 | one completed row plus its balance write keeps every balance equal to its rows' net effect |
| Transactions.TransferKeepsBacking | src/main/kotlin/services/TransactionService.kt:168-206 | a transfer between distinct wallets keeps every balance equal to its rows' net effect |
| Transactions.AppendKeepsUnique | src/main/kotlin/models/Transaction.kt:24-33 | a row with a fresh id and fresh key keeps the primary key and the unique idempotency index |
| Transactions.OneEntryKeepsConsistent | src/main/kotlin/services/TransactionService.kt:46-69 | a fresh completed row on an existing wallet with non-negative result keeps keys, foreign key and non-negative balances |
| Transactions.TransferKeepsConsistent | src/main/kotlin/services/TransactionService.kt:168-196 | an accepted transfer keeps keys, foreign key and non-negative balances, self-transfer included |
| Transactions.CompleteLast | src/main/kotlin/services/TransactionService.kt:63-69 | marking the fresh row completed by id changes that row alone |
| Transactions.CompleteLastTwo | src/main/kotlin/services/TransactionService.kt:199-206 | marking the two fresh transfer rows completed changes those two rows alone |
| Records.DailyEntries | src/main/kotlin/services/ReconciliationService.kt:61-66 | exactly the COMPLETED rows joined to a wallet whose createdAt lies between the start of the day and the start of the next, both inclusive |
| Records.DailyRecords | src/main/kotlin/services/ReconciliationService.kt:64-78 | one record per selected row |
| Records.DailyRecordsFaithful | src/main/kotlin/services/ReconciliationService.kt:67-78 | each record carries its row's id, wallet, type and status names, the wallet's currency, the reference, the text of its createdAt as timestamp, and an amount text reading back as the row's amount |
| Records.DailyAmountsParse | src/main/kotlin/services/ReconciliationService.kt:72 | every report amount reads back as a decimal |
| Records.DailyEntriesUnique | src/main/kotlin/services/ReconciliationService.kt:64-66 | the selection keeps the primary key |
| Records.DailyRecordIdsDistinct | src/main/kotlin/services/ReconciliationService.kt:64-78 | report records have distinct transaction ids |
| Records.Add | src/main/kotlin/services/ReconciliationService.kt:172-178 | getOrDefault-plus-put: the key is added, its value grows by v from 0 or its old value, other keys unchanged |
| Records.CountMapCounts | src/main/kotlin/services/ReconciliationService.kt:175-178 | the accumulated counts have one key per occurring value, counting its records |
| Records.CountMapTotal | src/main/kotlin/services/ReconciliationService.kt:175-178 | the counts of a column add up to the number of records |
| Records.CountMapIsCounts | src/main/kotlin/services/ReconciliationService.kt:175-185 | the accumulated type or status map is that column's counts, summing to the total |
| Records.TotalMapKeys | src/main/kotlin/services/ReconciliationService.kt:169-172 | the totals have one key per occurring currency |
| Records.TotalMapAt | src/main/kotlin/services/ReconciliationService.kt:169-172 | each currency's total is the sum of the amounts in that currency |
| Records.TotalMapSums | src/main/kotlin/services/ReconciliationService.kt:169-172 | keys are the currencies that occur and each holds its currency's sum |
| Records.RenderedTotals | src/main/kotlin/services/ReconciliationService.kt:183 | the rendered totals are the canonical text of the per-currency sums and read back as them |
| DecimalText.RenderCentsRoundTrip | src/main/kotlin/services/ReconciliationService.kt:72 | a rendered amount parses back to the same cents |
| DecimalText.RenderCentsInjective | src/main/kotlin/services/ReconciliationService.kt:72 | distinct amounts render to distinct text |
| DecimalText.RenderCentsPlain | src/main/kotlin/services/ReconciliationService.kt:192 | an amount's text holds no comma and no line break |
| Summary.CalculateSummary | src/main/kotlin/services/ReconciliationService.kt:164-187 | totalTransactions is the record count; totals per occurring currency are the canonical text of that currency's sum and read back as it; type and status counts count their records and sum to the total |
| Summary.GenerateDailyReport | src/main/kotlin/services/ReconciliationService.kt:60-87 | the report has the date, exactly the day's records, and their summary |
| Csv.Fields | src/main/kotlin/services/ReconciliationService.kt:192 | a record has eight columns, the seventh being the reference, or "" when it is missing |
| Csv.ConvertToCsv | src/main/kotlin/services/ReconciliationService.kt:189-195 | the text starts with the header line; an empty report is the header alone |
| Csv.CsvLayout | src/main/kotlin/services/ReconciliationService.kt:189-195 | with plain columns the rest splits at newlines into one line per record in order, each splitting back into its eight columns |
| Csv.CommaInReferenceAddsColumn | src/main/kotlin/services/ReconciliationService.kt:192 | a reference holding a comma makes the line split into nine columns |
| Reconcile.Index | src/main/kotlin/services/ReconciliationService.kt:96-97 | keys are exactly the records' ids, each mapped to a record carrying it; which record is `Reconcile.IndexKeepsLast` |
| Reconcile.IndexKeepsLast | src/main/kotlin/services/ReconciliationService.kt:96-97 | each id maps to the last record carrying it |
| Reconcile.KeyOrder | src/main/kotlin/services/ReconciliationService.kt:96-103 | each id once, exactly the records' ids; their order is `Reconcile.KeyOrderFirst` |
| Reconcile.First | src/main/kotlin/services/ReconciliationService.kt:96-103 | the position of an id's first occurrence: it carries the id and no earlier record does |
| Reconcile.KeyOrderFirst | src/main/kotlin/services/ReconciliationService.kt:96-103 | the ids are listed in the order of their first occurrences in the records |
| Reconcile.DistinctIndex | src/main/kotlin/services/ReconciliationService.kt:96-103 | with distinct ids the index order is the list order and each id maps to its own record |
| Reconcile.SelectIdSet | src/main/kotlin/services/ReconciliationService.kt:103-116 | a selection carries exactly the ids present (or absent) on the other side, each as indexed |
| Reconcile.SelectDistinct | src/main/kotlin/services/ReconciliationService.kt:103-116 | a selection repeats no id |
| Reconcile.SelectSizes | src/main/kotlin/services/ReconciliationService.kt:103-115 | present and absent selections together have one record per id |
| Reconcile.SideIds | src/main/kotlin/services/ReconciliationService.kt:103-116 | one side's ids are the intersection or the difference of the id sets, without repeats |
| Reconcile.PartitionIds | src/main/kotlin/services/ReconciliationService.kt:96-116 | matched ids = both sides' ids, missingInExternal = report minus external, missingInDb = external minus report; no list repeats an id; distinct report ids are all matched or missing externally |
| Reconcile.PartitionCovers | src/main/kotlin/services/ReconciliationService.kt:96-116 | the three id sets are pairwise disjoint and their union is the union of both sides' ids |
| Reconcile.AreTransactionsEqual | src/main/kotlin/services/ReconciliationService.kt:197-203 | true exactly when the records agree on every compared field (wallet, type, amount, currency, status) |
| Reconcile.FieldsAgree | src/main/kotlin/services/ReconciliationService.kt:197-203 | agreeing on every compared field is agreeing on wallet, type, amount, currency and status, and nothing else |
| Reconcile.DiscrepanciesExact | src/main/kotlin/services/ReconciliationService.kt:205-225 | a field is reported, with database and external value, exactly when it differs; nothing else is reported; at most five |
| Reconcile.EqualIffNoDiscrepancies | src/main/kotlin/services/ReconciliationService.kt:197-225 | records are equal exactly when no discrepancy is found |
| Reconcile.ReferenceAndTimestampIgnored | src/main/kotlin/services/ReconciliationService.kt:197-225 | changing reference or timestamp changes neither equality nor discrepancies |
| Reconcile.OnlyAmountDiffers | src/main/kotlin/services/ReconciliationService.kt:214-216 | records differing in amount alone yield the single amount discrepancy |
| Reconcile.AllDiscrepanciesNone | src/main/kotlin/services/ReconciliationService.kt:103-114 | when no matched pair differs, no discrepancy is collected |
| Reconcile.AllDiscrepanciesAt | src/main/kotlin/services/ReconciliationService.kt:103-114 | when only one matched pair differs, its discrepancies are all that is collected |
| Reconcile.FindDiscrepancies | src/main/kotlin/services/ReconciliationService.kt:205-225 | the five checks in order wallet, type, amount, currency, status give the specified discrepancy list |
| Reconcile.MatchRecords | src/main/kotlin/services/ReconciliationService.kt:96-124 | matched and missingInExternal are the report's records present and absent externally, missingInDb the external records absent from the report, discrepancies those of every matched id, in index order |
| Reconcile.ReconcileTransactions | src/main/kotlin/services/ReconciliationService.kt:94-125 | the same, for the day's report records |
| MockExternal.RaisedAmount | src/main/kotlin/services/ReconciliationService.kt:139-144 | the raised amount reads back as 10.00 more, differs from the original, and no other column changes |
| MockExternal.Tamper | src/main/kotlin/services/ReconciliationService.kt:129-161 | empty stays empty; one record becomes that record raised plus the phantom; n ≥ 2 become n: the first dropped, the new first raised, the phantom last |
| MockExternal.GenerateMockExternalFile | src/main/kotlin/services/ReconciliationService.kt:127-162 | the same shapes over the day's report records |
| MockExternal.MockIds | src/main/kotlin/services/ReconciliationService.kt:134-158 | the mock's ids are the report's without the dropped first, plus the phantom's |
| MockExternal.MockDistinct | src/main/kotlin/services/ReconciliationService.kt:134-158 | with a fresh phantom id the mock repeats no id |
| MockExternal.MockReconciliation | src/main/kotlin/services/ReconciliationService.kt:96-158 | reconciling a report against its mock: only the dropped record is missing externally, only the phantom is missing in the database, and the raised record has the single amount discrepancy, which is the whole discrepancy list |
| MockExternal.MockDiscrepancies | src/main/kotlin/services/ReconciliationService.kt:103-114 | against the mock of at least two records, the discrepancy list is the raised record's amount entry alone |
| MockExternal.MockReconciliationSingle | src/main/kotlin/services/ReconciliationService.kt:96-158 | for a one-record report: nothing is missing externally, only the phantom is missing in the database, and the discrepancy list is the single amount entry |

## Left out

- HTTP routing, controllers, JSON and the report's `format` switch (JSON text or CSV) are not modelled. `GenerateDailyReport` returns the report value, and `Csv.ConvertToCsv` renders it.
- The JSON encode and decode round-trip inside reconciliation and the mock file is taken as identity on the record list.
- The database layer's transactions, rollback and concurrency are not modelled. This covers the read-modify-write race on balances and racing idempotency keys.
- The `catch` branches that mark rows FAILED see only exceptions from the balance and status writes inside the `try`, such as a `decimal(18, 2)` overflow, which this model does not bound; they are not modelled. The inbound key collision and the `varchar(100)` width violation are raised by the inserts before the `try`, so no FAILED row is written for them: the database transaction rolls back, and the model returns `DuplicateIdempotencyKey` or `ValueTooLong` and changes nothing.
- Request amounts are whole cents, so a sub-cent amount such as `0.001` cannot be expressed. In the code it passes the `amount <= 0` check of top-up, payment and transfer, and the `decimal(18, 2)` column then rounds it, possibly to a COMPLETED row of 0.00. `Transactions.TransactionService.TopUp`, `Payment` and `Transfer` do not model that rounding.
- `createUser` and the logging calls are not modelled; the users table is a set of ids.
- `Instant.now()` and the UUID generator are parameters. One clock reading serves a whole operation, where the code reads the clock separately for the insert and the balance write.
- Timestamps are microseconds since the epoch, and days are day numbers. The ISO-8601 text of an instant is an injective stand-in (`Records.InstantText`). The report's date is the day number, not its ISO text. The phantom's timestamp uses the same stand-in at the start of the day.
- Amount text is read as an optional `-`, one or more digits, `.` and exactly two digits. `DecimalText.ParseCents` also accepts leading zeros (`007.00`) and `-0.00`, but rejects other decimal forms that `BigDecimal` would read (no fraction, one or three fraction digits, exponents, a `+` sign). `Summary.CalculateSummary` therefore requires every amount to parse (`Records.AmountsParse`). Amounts rendered from the ledger by `DecimalText.RenderCents` are always in the canonical form and always parse (`Records.DailyAmountsParse`).
- The `decimal(18, 2)` column range and the 32-bit `Int` counters are not bounded; amounts and counts are unbounded integers. The `varchar(100)` width of the idempotency key and the reference is modelled.
- Rows come back from the database in insertion order, and `associateBy` keeps first-insertion key order. The model fixes both orders, where the database leaves query order unspecified.
- Wallets.WalletService.GetUserWallets: returns a set of wallets rather than a list, so it does not fix the order of the list.
- CSV fields are written without quoting or escaping. `Csv.CsvLayout` states the layout only for records whose columns hold no comma or line break, and `Csv.CommaInReferenceAddsColumn` shows what happens otherwise.
