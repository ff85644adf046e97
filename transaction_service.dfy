/**
 * The ledger engine: top-up, payment and transfer with idempotent replay,
 * validation before any write, PENDING rows that are completed after the
 * balance writes; and the per-wallet history query.
 */
module Transactions {
  import opened Wrappers
  import opened Models
  import opened Ledger
  import Wallets

  /**
   * The two balance writes of a transfer: the source is set to its balance
   * minus `amount`, then the target to its balance plus `amount`, both
   * balances having been read before either write.
   */
  function AfterTransfer(wallets: map<Uuid, Wallet>, from: Uuid, to: Uuid, amount: Cents, now: Instant): map<Uuid, Wallet>
    requires from in wallets && to in wallets
  {
    var source, target := wallets[from], wallets[to];
    wallets[from := source.(balance := source.balance - amount, updatedAt := now)]
           [to := target.(balance := target.balance + amount, updatedAt := now)]
  }

  /** Between two distinct wallets a transfer moves `amount` and conserves the total of all balances. */
  lemma {:induction false} TransferConservesTotal(wallets: map<Uuid, Wallet>, from: Uuid, to: Uuid, amount: Cents, now: Instant)
    requires from in wallets && to in wallets && from != to
    ensures var after := AfterTransfer(wallets, from, to, amount, now);
      && after.Keys == wallets.Keys
      && after[from].balance == wallets[from].balance - amount
      && after[to].balance == wallets[to].balance + amount
      && (forall id | id in wallets && id != from && id != to :: after[id] == wallets[id])
      && TotalBalance(after) == TotalBalance(wallets)
  {
    var source, target := wallets[from], wallets[to];
    var mid := wallets[from := source.(balance := source.balance - amount, updatedAt := now)];
    TotalAfterWrite(wallets, from, source.(balance := source.balance - amount, updatedAt := now));
    TotalAfterWrite(mid, to, target.(balance := target.balance + amount, updatedAt := now));
  }

  /**
   * A transfer from a wallet to itself is not rejected: the second write
   * overwrites the first, so the wallet gains `amount` and so does the total.
   */
  lemma {:induction false} SelfTransferCredits(wallets: map<Uuid, Wallet>, id: Uuid, amount: Cents, now: Instant)
    requires id in wallets
    ensures var after := AfterTransfer(wallets, id, id, amount, now);
      && after.Keys == wallets.Keys
      && after[id].balance == wallets[id].balance + amount
      && TotalBalance(after) == TotalBalance(wallets) + amount
  {
    var w := wallets[id];
    var mid := wallets[id := w.(balance := w.balance - amount, updatedAt := now)];
    assert AfterTransfer(wallets, id, id, amount, now) == wallets[id := w.(balance := w.balance + amount, updatedAt := now)];
    TotalAfterWrite(wallets, id, w.(balance := w.balance + amount, updatedAt := now));
  }

  /** Appending one completed row and moving its wallet's balance by the row's effect keeps ledger and balances in agreement. */
  lemma {:induction false} OneEntryKeepsBacking(ledger: seq<Transaction>, wallets: map<Uuid, Wallet>, e: Transaction, now: Instant)
    requires LedgerBacksBalances(ledger, wallets)
    requires e.walletId in wallets
    ensures var w := wallets[e.walletId];
      LedgerBacksBalances(ledger + [e], wallets[e.walletId := w.(balance := w.balance + Effect(e, e.walletId), updatedAt := now)])
  {
    var w := wallets[e.walletId];
    var after := wallets[e.walletId := w.(balance := w.balance + Effect(e, e.walletId), updatedAt := now)];
    forall id | id in after ensures Net(ledger + [e], id) == after[id].balance {
      NetAppend(ledger, e, id);
    }
  }

  /** A transfer between distinct wallets keeps ledger and balances in agreement. */
  lemma {:induction false} TransferKeepsBacking(ledger: seq<Transaction>, wallets: map<Uuid, Wallet>, outRow: Transaction, inRow: Transaction, now: Instant)
    requires LedgerBacksBalances(ledger, wallets)
    requires outRow.walletId in wallets && inRow.walletId in wallets && outRow.walletId != inRow.walletId
    requires outRow.status == Completed && outRow.kind == TransferOut
    requires inRow.status == Completed && inRow.kind == TransferIn && inRow.amount == outRow.amount
    ensures LedgerBacksBalances(ledger + [outRow, inRow], AfterTransfer(wallets, outRow.walletId, inRow.walletId, outRow.amount, now))
  {
    var after := AfterTransfer(wallets, outRow.walletId, inRow.walletId, outRow.amount, now);
    assert ledger + [outRow] + [inRow] == ledger + [outRow, inRow];
    forall id | id in after ensures Net(ledger + [outRow, inRow], id) == after[id].balance {
      NetAppend(ledger, outRow, id);
      NetAppend(ledger + [outRow], inRow, id);
    }
  }

  /**
   * After a self-transfer the wallet's two rows cancel out in the ledger but
   * its balance has grown: ledger and balances no longer agree.
   */
  lemma {:induction false} SelfTransferBreaksBacking(ledger: seq<Transaction>, wallets: map<Uuid, Wallet>, outRow: Transaction, inRow: Transaction, now: Instant)
    requires LedgerBacksBalances(ledger, wallets)
    requires outRow.walletId in wallets && inRow.walletId == outRow.walletId && outRow.amount > 0
    requires outRow.status == Completed && outRow.kind == TransferOut
    requires inRow.status == Completed && inRow.kind == TransferIn && inRow.amount == outRow.amount
    ensures !LedgerBacksBalances(ledger + [outRow, inRow], AfterTransfer(wallets, outRow.walletId, outRow.walletId, outRow.amount, now))
  {
    var id := outRow.walletId;
    NetAppend(ledger, outRow, id);
    NetAppend(ledger + [outRow], inRow, id);
    assert ledger + [outRow] + [inRow] == ledger + [outRow, inRow];
    SelfTransferCredits(wallets, id, outRow.amount, now);
  }

  /** Appending rows with fresh ids and fresh keys keeps the primary key and the unique index. */
  lemma AppendKeepsUnique(ledger: seq<Transaction>, e: Transaction)
    requires UniqueIds(ledger) && UniqueKeys(ledger)
    requires e.id !in Ids(ledger)
    requires e.idempotencyKey.Some? ==> !HasKey(ledger, e.idempotencyKey.value)
    ensures UniqueIds(ledger + [e]) && UniqueKeys(ledger + [e])
    ensures Ids(ledger + [e]) == Ids(ledger) + {e.id}
  {
    var l := ledger + [e];
    forall i | 0 <= i < |ledger| ensures l[i] == ledger[i] && ledger[i].id in Ids(ledger) {
    }
    assert l[|ledger|] == e;
  }

  /**
   * What the schema and the service keep true of the two tables: primary
   * key, unique idempotency index, the foreign key to wallets, and no
   * negative balance.
   */
  ghost predicate Consistent(ledger: seq<Transaction>, wallets: map<Uuid, Wallet>) {
    && UniqueIds(ledger)
    && UniqueKeys(ledger)
    && (forall i | 0 <= i < |ledger| :: ledger[i].walletId in wallets)
    && (forall id | id in wallets :: wallets[id].balance >= 0)
  }

  /**
   * A key of 98 to 100 characters fits its column but its inbound key does
   * not: top-up and payment accept such a key, transfer rejects it.
   */
  lemma InboundKeyWidth(key: string)
    ensures Fits(key) && !Fits(key + "_in") <==> VarcharWidth - 3 < |key| <= VarcharWidth
  {
  }

  /**
   * Creating a wallet, at balance 0 under an id no wallet has, keeps the
   * tables consistent and the ledger in agreement with the balances.
   */
  lemma CreateKeepsBacking(ledger: seq<Transaction>, wallets: map<Uuid, Wallet>, w: Wallet)
    requires Consistent(ledger, wallets)
    requires w.id !in wallets && w.balance == 0
    ensures Consistent(ledger, wallets[w.id := w])
    ensures LedgerBacksBalances(ledger, wallets) ==> LedgerBacksBalances(ledger, wallets[w.id := w])
  {
    NetFresh(ledger, w.id);
  }

  /** Completing the freshly appended row by id touches that row alone. */
  lemma {:induction false} CompleteLast(ledger0: seq<Transaction>, entry: Transaction, ledger: seq<Transaction>)
    requires entry.id !in Ids(ledger0)
    requires |ledger| == |ledger0| + 1
    requires forall i | 0 <= i < |ledger| ::
      ledger[i] == if (ledger0 + [entry])[i].id == entry.id then (ledger0 + [entry])[i].(status := Completed) else (ledger0 + [entry])[i]
    ensures ledger == ledger0 + [entry.(status := Completed)]
  {
    forall i | 0 <= i < |ledger0| ensures ledger[i] == ledger0[i] {
      assert ledger0[i].id in Ids(ledger0);
      assert (ledger0 + [entry])[i] == ledger0[i];
    }
    assert (ledger0 + [entry])[|ledger0|] == entry;
  }

  /** A completed row with fresh id and key, on an existing wallet, whose effect leaves the balance non-negative, keeps the tables consistent. */
  lemma {:induction false} OneEntryKeepsConsistent(ledger: seq<Transaction>, wallets: map<Uuid, Wallet>, e: Transaction, now: Instant)
    requires Consistent(ledger, wallets)
    requires e.id !in Ids(ledger) && e.idempotencyKey.Some? && !HasKey(ledger, e.idempotencyKey.value)
    requires e.walletId in wallets && wallets[e.walletId].balance + Effect(e, e.walletId) >= 0
    ensures var w := wallets[e.walletId];
      Consistent(ledger + [e], wallets[e.walletId := w.(balance := w.balance + Effect(e, e.walletId), updatedAt := now)])
  {
    AppendKeepsUnique(ledger, e);
    var l := ledger + [e];
    forall i | 0 <= i < |l| ensures l[i].walletId in wallets {
      if i < |ledger| {
        assert l[i] == ledger[i];
      }
    }
  }

  /** Completing the two freshly appended rows of a transfer, one id after the other, touches those rows alone. */
  lemma {:induction false} CompleteLastTwo(ledger0: seq<Transaction>, outRow: Transaction, inRow: Transaction,
                                           ledger1: seq<Transaction>, ledger2: seq<Transaction>)
    requires outRow.id !in Ids(ledger0) && inRow.id !in Ids(ledger0) && outRow.id != inRow.id
    requires |ledger1| == |ledger0| + 2
    requires forall i | 0 <= i < |ledger1| ::
      ledger1[i] == if (ledger0 + [outRow, inRow])[i].id == outRow.id
                    then (ledger0 + [outRow, inRow])[i].(status := Completed) else (ledger0 + [outRow, inRow])[i]
    requires |ledger2| == |ledger1|
    requires forall i | 0 <= i < |ledger2| ::
      ledger2[i] == if ledger1[i].id == inRow.id then ledger1[i].(status := Completed) else ledger1[i]
    ensures ledger2 == ledger0 + [outRow.(status := Completed), inRow.(status := Completed)]
  {
    var l := ledger0 + [outRow, inRow];
    forall i | 0 <= i < |ledger0| ensures ledger2[i] == ledger0[i] {
      assert ledger0[i].id in Ids(ledger0);
      assert l[i] == ledger0[i];
    }
    assert l[|ledger0|] == outRow && l[|ledger0| + 1] == inRow;
  }

  /**
   * The rows and balance writes of an accepted transfer keep the tables
   * consistent, whether or not source and target are the same wallet.
   */
  lemma {:induction false} TransferKeepsConsistent(ledger: seq<Transaction>, wallets: map<Uuid, Wallet>,
                                                   outRow: Transaction, inRow: Transaction, now: Instant)
    requires Consistent(ledger, wallets)
    requires outRow.id !in Ids(ledger) && inRow.id !in Ids(ledger) && outRow.id != inRow.id
    requires outRow.idempotencyKey.Some? && !HasKey(ledger, outRow.idempotencyKey.value)
    requires inRow.idempotencyKey.Some? && !HasKey(ledger, inRow.idempotencyKey.value)
    requires outRow.idempotencyKey != inRow.idempotencyKey
    requires outRow.walletId in wallets && inRow.walletId in wallets
    requires 0 <= outRow.amount <= wallets[outRow.walletId].balance
    ensures Consistent(ledger + [outRow, inRow], AfterTransfer(wallets, outRow.walletId, inRow.walletId, outRow.amount, now))
  {
    var after := AfterTransfer(wallets, outRow.walletId, inRow.walletId, outRow.amount, now);
    AppendKeepsUnique(ledger, outRow);
    var mid := ledger + [outRow];
    assert !HasKey(mid, inRow.idempotencyKey.value) by {
      forall i | 0 <= i < |mid| ensures mid[i].idempotencyKey != inRow.idempotencyKey {
        if i < |ledger| {
          assert mid[i] == ledger[i];
        }
      }
    }
    AppendKeepsUnique(mid, inRow);
    var l := ledger + [outRow, inRow];
    assert mid + [inRow] == l;
    forall i | 0 <= i < |l| ensures l[i].walletId in after {
      if i < |ledger| {
        assert l[i] == ledger[i];
      }
    }
  }

  class TransactionService {
    const walletService: Wallets.WalletService
    /** The transactions table, in insertion order. */
    var ledger: seq<Transaction>

    ghost predicate Valid()
      reads this, walletService
    {
      && walletService.Valid()
      && Consistent(ledger, walletService.wallets)
    }

    constructor (walletService: Wallets.WalletService)
      requires walletService.Valid()
      requires forall id | id in walletService.wallets :: walletService.wallets[id].balance >= 0
      ensures Valid() && this.walletService == walletService && ledger == []
    {
      this.walletService := walletService;
      ledger := [];
    }

    /** `UPDATE transactions SET status = status WHERE id = transactionId` */
    method UpdateTransactionStatus(transactionId: Uuid, status: TransactionStatus)
      modifies this
      ensures |ledger| == |old(ledger)|
      ensures forall i | 0 <= i < |ledger| ::
        ledger[i] == if old(ledger)[i].id == transactionId then old(ledger)[i].(status := status) else old(ledger)[i]
    {
      var i := 0;
      while i < |ledger|
        invariant 0 <= i <= |ledger| == |old(ledger)|
        invariant forall k | 0 <= k < i ::
          ledger[k] == if old(ledger)[k].id == transactionId then old(ledger)[k].(status := status) else old(ledger)[k]
        invariant forall k | i <= k < |ledger| :: ledger[k] == old(ledger)[k]
      {
        if ledger[i].id == transactionId {
          ledger := ledger[i := ledger[i].(status := status)];
        }
        i := i + 1;
      }
    }

    /**
     * Credits `request.amount` to a wallet. A known idempotency key replays
     * the earlier outcome; otherwise an unknown wallet, then a non-positive
     * amount, is rejected before anything is written.
     */
    method TopUp(request: TopUpRequest, newId: Uuid, now: Instant) returns (r: Result<TransactionResponse, Error>)
      requires Valid()
      requires newId !in Ids(ledger)
      modifies this, walletService
      ensures Valid() && walletService.users == old(walletService.users)
      ensures old(LedgerBacksBalances(ledger, walletService.wallets)) ==> LedgerBacksBalances(ledger, walletService.wallets)
      ensures var prior := FindTransactionByIdempotencyKey(old(ledger), request.idempotencyKey);
        prior.Some? ==>
          && r == Ok(TransactionResponse(prior.value.id, prior.value.status, AlreadyProcessed))
          && ledger == old(ledger) && walletService.wallets == old(walletService.wallets)
      ensures !HasKey(old(ledger), request.idempotencyKey) && request.walletId !in old(walletService.wallets) ==>
        r == Err(WalletNotFound) && ledger == old(ledger) && walletService.wallets == old(walletService.wallets)
      ensures !HasKey(old(ledger), request.idempotencyKey) && request.walletId in old(walletService.wallets) && request.amount <= 0 ==>
        r == Err(AmountNotPositive) && ledger == old(ledger) && walletService.wallets == old(walletService.wallets)
      ensures !HasKey(old(ledger), request.idempotencyKey) && request.walletId in old(walletService.wallets) && request.amount > 0
              && !(Fits(request.idempotencyKey) && FitsOpt(request.referenceId)) ==>
        r == Err(ValueTooLong) && ledger == old(ledger) && walletService.wallets == old(walletService.wallets)
      ensures !HasKey(old(ledger), request.idempotencyKey) && request.walletId in old(walletService.wallets) && request.amount > 0
              && Fits(request.idempotencyKey) && FitsOpt(request.referenceId) ==>
        var w := old(walletService.wallets)[request.walletId];
        && r == Ok(TransactionResponse(newId, Completed, "Top-up successful"))
        && ledger == old(ledger) + [Transaction(newId, request.walletId, TransactionType.TopUp, request.amount, request.referenceId,
                                                Completed, None, Some(request.idempotencyKey), now)]
        && walletService.wallets == old(walletService.wallets)[request.walletId := w.(balance := w.balance + request.amount, updatedAt := now)]
    {
      var existing := FindTransactionByIdempotencyKey(ledger, request.idempotencyKey);
      if existing.Some? {
        return Ok(TransactionResponse(existing.value.id, existing.value.status, AlreadyProcessed));
      }
      var wallet := walletService.GetWallet(request.walletId);
      if wallet.None? {
        return Err(WalletNotFound);
      }
      if request.amount <= 0 {
        return Err(AmountNotPositive);
      }
      // The insert fails on text too long for its column, and the database
      // transaction is rolled back.
      if !Fits(request.idempotencyKey) || !FitsOpt(request.referenceId) {
        return Err(ValueTooLong);
      }
      var entry := Transaction(newId, request.walletId, TransactionType.TopUp, request.amount, request.referenceId,
                               Pending, None, Some(request.idempotencyKey), now);
      assert Effect(entry.(status := Completed), entry.walletId) == request.amount;
      CommitEntry(entry, wallet.value.balance + request.amount, now);
      r := Ok(TransactionResponse(newId, Completed, "Top-up successful"));
    }

    /**
     * Debits `request.amount` from a wallet. A known idempotency key replays
     * the earlier outcome; otherwise an unknown wallet, a non-positive amount
     * and then a balance below the amount are rejected before anything is
     * written. A balance equal to the amount is accepted.
     */
    method Payment(request: PaymentRequest, newId: Uuid, now: Instant) returns (r: Result<TransactionResponse, Error>)
      requires Valid()
      requires newId !in Ids(ledger)
      modifies this, walletService
      ensures Valid() && walletService.users == old(walletService.users)
      ensures old(LedgerBacksBalances(ledger, walletService.wallets)) ==> LedgerBacksBalances(ledger, walletService.wallets)
      ensures var prior := FindTransactionByIdempotencyKey(old(ledger), request.idempotencyKey);
        prior.Some? ==>
          && r == Ok(TransactionResponse(prior.value.id, prior.value.status, AlreadyProcessed))
          && ledger == old(ledger) && walletService.wallets == old(walletService.wallets)
      ensures !HasKey(old(ledger), request.idempotencyKey) && request.walletId !in old(walletService.wallets) ==>
        r == Err(WalletNotFound) && ledger == old(ledger) && walletService.wallets == old(walletService.wallets)
      ensures !HasKey(old(ledger), request.idempotencyKey) && request.walletId in old(walletService.wallets) && request.amount <= 0 ==>
        r == Err(AmountNotPositive) && ledger == old(ledger) && walletService.wallets == old(walletService.wallets)
      ensures !HasKey(old(ledger), request.idempotencyKey) && request.walletId in old(walletService.wallets) && request.amount > 0
              && old(walletService.wallets)[request.walletId].balance < request.amount ==>
        r == Err(InsufficientBalance) && ledger == old(ledger) && walletService.wallets == old(walletService.wallets)
      ensures !HasKey(old(ledger), request.idempotencyKey) && request.walletId in old(walletService.wallets) && request.amount > 0
              && old(walletService.wallets)[request.walletId].balance >= request.amount
              && !(Fits(request.idempotencyKey) && FitsOpt(request.referenceId)) ==>
        r == Err(ValueTooLong) && ledger == old(ledger) && walletService.wallets == old(walletService.wallets)
      ensures !HasKey(old(ledger), request.idempotencyKey) && request.walletId in old(walletService.wallets) && request.amount > 0
              && old(walletService.wallets)[request.walletId].balance >= request.amount
              && Fits(request.idempotencyKey) && FitsOpt(request.referenceId) ==>
        var w := old(walletService.wallets)[request.walletId];
        && r == Ok(TransactionResponse(newId, Completed, "Payment successful"))
        && ledger == old(ledger) + [Transaction(newId, request.walletId, TransactionType.Payment, request.amount, request.referenceId,
                                                Completed, None, Some(request.idempotencyKey), now)]
        && walletService.wallets == old(walletService.wallets)[request.walletId := w.(balance := w.balance - request.amount, updatedAt := now)]
        && walletService.wallets[request.walletId].balance >= 0
    {
      var existing := FindTransactionByIdempotencyKey(ledger, request.idempotencyKey);
      if existing.Some? {
        return Ok(TransactionResponse(existing.value.id, existing.value.status, AlreadyProcessed));
      }
      var wallet := walletService.GetWallet(request.walletId);
      if wallet.None? {
        return Err(WalletNotFound);
      }
      if request.amount <= 0 {
        return Err(AmountNotPositive);
      }
      if wallet.value.balance < request.amount {
        return Err(InsufficientBalance);
      }
      if !Fits(request.idempotencyKey) || !FitsOpt(request.referenceId) {
        return Err(ValueTooLong);
      }
      var entry := Transaction(newId, request.walletId, TransactionType.Payment, request.amount, request.referenceId,
                               Pending, None, Some(request.idempotencyKey), now);
      assert Effect(entry.(status := Completed), entry.walletId) == -request.amount;
      CommitEntry(entry, wallet.value.balance - request.amount, now);
      assert walletService.wallets[request.walletId].balance == wallet.value.balance - request.amount;
      r := Ok(TransactionResponse(newId, Completed, "Payment successful"));
    }

    /**
     * The writes of a top-up or a payment, in one database transaction:
     * insert `entry` as PENDING, set its wallet's balance to `newBalance`,
     * then mark the row COMPLETED.
     */
    method CommitEntry(entry: Transaction, newBalance: Cents, now: Instant)
      requires Valid()
      requires entry.status == Pending && entry.id !in Ids(ledger)
      requires entry.idempotencyKey.Some? && !HasKey(ledger, entry.idempotencyKey.value)
      requires entry.walletId in walletService.wallets
      requires newBalance == walletService.wallets[entry.walletId].balance + Effect(entry.(status := Completed), entry.walletId)
      requires newBalance >= 0
      modifies this, walletService
      ensures Valid() && walletService.users == old(walletService.users)
      ensures ledger == old(ledger) + [entry.(status := Completed)]
      ensures var w := old(walletService.wallets)[entry.walletId];
        walletService.wallets == old(walletService.wallets)[entry.walletId := w.(balance := newBalance, updatedAt := now)]
      ensures old(LedgerBacksBalances(ledger, walletService.wallets)) ==> LedgerBacksBalances(ledger, walletService.wallets)
    {
      ghost var ledger0, wallets0 := ledger, walletService.wallets;
      ledger := ledger + [entry];
      walletService.UpdateWalletBalance(entry.walletId, newBalance, now);
      UpdateTransactionStatus(entry.id, Completed);
      var done := entry.(status := Completed);
      CompleteLast(ledger0, entry, ledger);
      OneEntryKeepsConsistent(ledger0, wallets0, done, now);
      if LedgerBacksBalances(ledger0, wallets0) {
        OneEntryKeepsBacking(ledger0, wallets0, done, now);
      }
    }

    /**
     * Moves `request.amount` between two wallets of one currency as a
     * TRANSFER_OUT row under the request's key and a TRANSFER_IN row under
     * the key with "_in" appended. A known key replays the earlier outcome;
     * otherwise the source, the target, the currencies, the amount and the
     * source balance are checked in that order. An inbound key already in
     * use fails the unique index and nothing is kept. Source and target are
     * not required to differ.
     */
    method Transfer(request: TransferRequest, outId: Uuid, inId: Uuid, now: Instant) returns (r: Result<TransactionResponse, Error>)
      requires Valid()
      requires outId !in Ids(ledger) && inId !in Ids(ledger) && outId != inId
      modifies this, walletService
      ensures Valid() && walletService.users == old(walletService.users)
      ensures var prior := FindTransactionByIdempotencyKey(old(ledger), request.idempotencyKey);
        prior.Some? ==>
          && r == Ok(TransactionResponse(prior.value.id, prior.value.status, AlreadyProcessed))
          && ledger == old(ledger) && walletService.wallets == old(walletService.wallets)
      ensures !HasKey(old(ledger), request.idempotencyKey) && request.fromWalletId !in old(walletService.wallets) ==>
        r == Err(SourceWalletNotFound) && ledger == old(ledger) && walletService.wallets == old(walletService.wallets)
      ensures !HasKey(old(ledger), request.idempotencyKey) && request.fromWalletId in old(walletService.wallets)
              && request.toWalletId !in old(walletService.wallets) ==>
        r == Err(TargetWalletNotFound) && ledger == old(ledger) && walletService.wallets == old(walletService.wallets)
      ensures !HasKey(old(ledger), request.idempotencyKey) && request.fromWalletId in old(walletService.wallets)
              && request.toWalletId in old(walletService.wallets)
              && old(walletService.wallets)[request.fromWalletId].currency != old(walletService.wallets)[request.toWalletId].currency ==>
        r == Err(CurrencyMismatch) && ledger == old(ledger) && walletService.wallets == old(walletService.wallets)
      ensures !HasKey(old(ledger), request.idempotencyKey) && request.fromWalletId in old(walletService.wallets)
              && request.toWalletId in old(walletService.wallets)
              && old(walletService.wallets)[request.fromWalletId].currency == old(walletService.wallets)[request.toWalletId].currency
              && request.amount <= 0 ==>
        r == Err(AmountNotPositive) && ledger == old(ledger) && walletService.wallets == old(walletService.wallets)
      ensures !HasKey(old(ledger), request.idempotencyKey) && request.fromWalletId in old(walletService.wallets)
              && request.toWalletId in old(walletService.wallets)
              && old(walletService.wallets)[request.fromWalletId].currency == old(walletService.wallets)[request.toWalletId].currency
              && 0 < request.amount && old(walletService.wallets)[request.fromWalletId].balance < request.amount ==>
        r == Err(InsufficientBalance) && ledger == old(ledger) && walletService.wallets == old(walletService.wallets)
      ensures !HasKey(old(ledger), request.idempotencyKey) && request.fromWalletId in old(walletService.wallets)
              && request.toWalletId in old(walletService.wallets)
              && old(walletService.wallets)[request.fromWalletId].currency == old(walletService.wallets)[request.toWalletId].currency
              && 0 < request.amount <= old(walletService.wallets)[request.fromWalletId].balance
              && !(Fits(request.idempotencyKey + "_in") && FitsOpt(request.referenceId)) ==>
        r == Err(ValueTooLong) && ledger == old(ledger) && walletService.wallets == old(walletService.wallets)
      ensures !HasKey(old(ledger), request.idempotencyKey) && request.fromWalletId in old(walletService.wallets)
              && request.toWalletId in old(walletService.wallets)
              && old(walletService.wallets)[request.fromWalletId].currency == old(walletService.wallets)[request.toWalletId].currency
              && 0 < request.amount <= old(walletService.wallets)[request.fromWalletId].balance
              && Fits(request.idempotencyKey + "_in") && FitsOpt(request.referenceId)
              && HasKey(old(ledger), request.idempotencyKey + "_in") ==>
        r == Err(DuplicateIdempotencyKey) && ledger == old(ledger) && walletService.wallets == old(walletService.wallets)
      ensures !HasKey(old(ledger), request.idempotencyKey) && request.fromWalletId in old(walletService.wallets)
              && request.toWalletId in old(walletService.wallets)
              && old(walletService.wallets)[request.fromWalletId].currency == old(walletService.wallets)[request.toWalletId].currency
              && 0 < request.amount <= old(walletService.wallets)[request.fromWalletId].balance
              && Fits(request.idempotencyKey + "_in") && FitsOpt(request.referenceId)
              && !HasKey(old(ledger), request.idempotencyKey + "_in") ==>
        && r == Ok(TransactionResponse(outId, Completed, "Transfer successful"))
        && ledger == old(ledger) + [
             Transaction(outId, request.fromWalletId, TransferOut, request.amount, request.referenceId,
                         Completed, Some(request.toWalletId), Some(request.idempotencyKey), now),
             Transaction(inId, request.toWalletId, TransferIn, request.amount, request.referenceId,
                         Completed, Some(request.fromWalletId), Some(request.idempotencyKey + "_in"), now)]
        && walletService.wallets == AfterTransfer(old(walletService.wallets), request.fromWalletId, request.toWalletId, request.amount, now)
      ensures r.Ok? && request.fromWalletId != request.toWalletId && old(LedgerBacksBalances(ledger, walletService.wallets)) ==>
        LedgerBacksBalances(ledger, walletService.wallets)
    {
      var existing := FindTransactionByIdempotencyKey(ledger, request.idempotencyKey);
      if existing.Some? {
        return Ok(TransactionResponse(existing.value.id, existing.value.status, AlreadyProcessed));
      }
      var fromWallet := walletService.GetWallet(request.fromWalletId);
      if fromWallet.None? {
        return Err(SourceWalletNotFound);
      }
      var toWallet := walletService.GetWallet(request.toWalletId);
      if toWallet.None? {
        return Err(TargetWalletNotFound);
      }
      if fromWallet.value.currency != toWallet.value.currency {
        return Err(CurrencyMismatch);
      }
      if request.amount <= 0 {
        return Err(AmountNotPositive);
      }
      if fromWallet.value.balance < request.amount {
        return Err(InsufficientBalance);
      }
      var inKey := request.idempotencyKey + "_in";
      // The outbound insert fails on a key or reference too long for its
      // column, the inbound insert on a key that "_in" makes too long; the
      // database transaction is rolled back either way.
      if !Fits(request.idempotencyKey) || !FitsOpt(request.referenceId) || !Fits(inKey) {
        return Err(ValueTooLong);
      }
      // The unique index rejects the inbound row and the enclosing database
      // transaction discards the outbound one.
      if HasKey(ledger, inKey) {
        return Err(DuplicateIdempotencyKey);
      }
      CommitTransfer(request, outId, inId, now);
      r := Ok(TransactionResponse(outId, Completed, "Transfer successful"));
    }

    /** The writes of an accepted transfer: both rows, both balances, then both statuses. */
    method CommitTransfer(request: TransferRequest, outId: Uuid, inId: Uuid, now: Instant)
      requires Valid()
      requires outId !in Ids(ledger) && inId !in Ids(ledger) && outId != inId
      requires !HasKey(ledger, request.idempotencyKey) && !HasKey(ledger, request.idempotencyKey + "_in")
      requires request.fromWalletId in walletService.wallets && request.toWalletId in walletService.wallets
      requires 0 < request.amount <= walletService.wallets[request.fromWalletId].balance
      modifies this, walletService
      ensures Valid() && walletService.users == old(walletService.users)
      ensures ledger == old(ledger) + [
             Transaction(outId, request.fromWalletId, TransferOut, request.amount, request.referenceId,
                         Completed, Some(request.toWalletId), Some(request.idempotencyKey), now),
             Transaction(inId, request.toWalletId, TransferIn, request.amount, request.referenceId,
                         Completed, Some(request.fromWalletId), Some(request.idempotencyKey + "_in"), now)]
      ensures walletService.wallets == AfterTransfer(old(walletService.wallets), request.fromWalletId, request.toWalletId, request.amount, now)
      ensures request.fromWalletId != request.toWalletId && old(LedgerBacksBalances(ledger, walletService.wallets)) ==>
        LedgerBacksBalances(ledger, walletService.wallets)
    {
      var inKey := request.idempotencyKey + "_in";
      var fromBalance := walletService.wallets[request.fromWalletId].balance;
      var toBalance := walletService.wallets[request.toWalletId].balance;
      ghost var ledger0, wallets0 := ledger, walletService.wallets;
      var outRow := Transaction(outId, request.fromWalletId, TransferOut, request.amount, request.referenceId,
                                Pending, Some(request.toWalletId), Some(request.idempotencyKey), now);
      ledger := ledger + [outRow];
      var inRow := Transaction(inId, request.toWalletId, TransferIn, request.amount, request.referenceId,
                               Pending, Some(request.fromWalletId), Some(inKey), now);
      ledger := ledger + [inRow];
      assert ledger == ledger0 + [outRow, inRow];
      walletService.UpdateWalletBalance(request.fromWalletId, fromBalance - request.amount, now);
      walletService.UpdateWalletBalance(request.toWalletId, toBalance + request.amount, now);
      assert walletService.wallets == AfterTransfer(wallets0, request.fromWalletId, request.toWalletId, request.amount, now);
      UpdateTransactionStatus(outId, Completed);
      ghost var ledger2 := ledger;
      UpdateTransactionStatus(inId, Completed);
      CompleteLastTwo(ledger0, outRow, inRow, ledger2, ledger);
      var outDone, inDone := outRow.(status := Completed), inRow.(status := Completed);
      assert |inKey| == |request.idempotencyKey| + 3;
      TransferKeepsConsistent(ledger0, wallets0, outDone, inDone, now);
      if request.fromWalletId != request.toWalletId && LedgerBacksBalances(ledger0, wallets0) {
        TransferKeepsBacking(ledger0, wallets0, outDone, inDone, now);
      }
    }

    /** The rows of `walletId` within the optional day bounds (both inclusive), newest first. */
    method GetTransactionsByWallet(walletId: Uuid, fromDate: Option<Day>, toDate: Option<Day>) returns (r: seq<Transaction>)
      ensures forall e :: e in r <==> e in ledger && MatchesQuery(e, walletId, fromDate, toDate)
      ensures multiset(r) <= multiset(ledger)
      ensures NewestFirst(r)
    {
      var selected: seq<Transaction> := [];
      for i := 0 to |ledger|
        invariant forall e :: e in selected <==> e in ledger[..i] && MatchesQuery(e, walletId, fromDate, toDate)
        invariant multiset(selected) <= multiset(ledger[..i])
      {
        assert ledger[..i + 1] == ledger[..i] + [ledger[i]];
        if MatchesQuery(ledger[i], walletId, fromDate, toDate) {
          selected := selected + [ledger[i]];
        }
      }
      assert ledger[..|ledger|] == ledger;
      r := SortNewestFirst(selected);
      forall e ensures e in r <==> e in selected {
        assert e in r <==> e in multiset(r);
        assert e in selected <==> e in multiset(selected);
      }
    }
  }
}
