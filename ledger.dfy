/**
 * The transactions table as a sequence of rows in insertion order, and the
 * read-only queries over it: lookup by idempotency key and by id, the
 * per-wallet history filter and its newest-first ordering, and the signed
 * effect of completed entries on balances.
 */
module Ledger {
  import opened Wrappers
  import opened Models
  import MapSums

  /** The primary key: no two rows share an id. */
  predicate UniqueIds(ledger: seq<Transaction>) {
    forall i, j | 0 <= i < j < |ledger| :: ledger[i].id != ledger[j].id
  }

  /** The unique index on idempotency_key: a present key occurs in one row only. */
  predicate UniqueKeys(ledger: seq<Transaction>) {
    forall i, j | 0 <= i < j < |ledger| ::
      ledger[i].idempotencyKey.Some? ==> ledger[i].idempotencyKey != ledger[j].idempotencyKey
  }

  function Ids(ledger: seq<Transaction>): set<Uuid> {
    set i | 0 <= i < |ledger| :: ledger[i].id
  }

  predicate HasKey(ledger: seq<Transaction>, key: string) {
    exists i | 0 <= i < |ledger| :: ledger[i].idempotencyKey == Some(key)
  }

  /** The rows `WHERE idempotency_key = key`, in table order. */
  function WithKey(ledger: seq<Transaction>, key: string): (rows: seq<Transaction>)
    ensures forall e :: e in rows <==> e in ledger && e.idempotencyKey == Some(key)
    ensures rows != [] ==> rows[0] in ledger && rows[0].idempotencyKey == Some(key)
    ensures UniqueKeys(ledger) ==> |rows| <= 1
  {
    if ledger == [] then []
    else
      var init, last := ledger[..|ledger| - 1], ledger[|ledger| - 1];
      assert ledger == init + [last];
      assert UniqueKeys(ledger) ==> UniqueKeys(init);
      var rest := WithKey(init, key);
      assert UniqueKeys(ledger) && last.idempotencyKey == Some(key) ==> rest == [] by {
        if UniqueKeys(ledger) && last.idempotencyKey == Some(key) {
          forall k | 0 <= k < |init| ensures init[k].idempotencyKey != Some(key) {
            assert init[k] == ledger[k];
          }
        }
      }
      rest + (if last.idempotencyKey == Some(key) then [last] else [])
  }

  /**
   * `singleOrNull()` on the rows carrying idempotency key `key`: the one such
   * row, or `None` when there is none (or, outside the unique index, several).
   */
  function FindTransactionByIdempotencyKey(ledger: seq<Transaction>, key: string): (r: Option<Transaction>)
    ensures r.Some? ==> r.value in ledger && r.value.idempotencyKey == Some(key)
    ensures UniqueKeys(ledger) ==> (r.None? <==> !HasKey(ledger, key))
  {
    var rows := WithKey(ledger, key);
    assert HasKey(ledger, key) ==> |rows| >= 1 by {
      if HasKey(ledger, key) {
        var i :| 0 <= i < |ledger| && ledger[i].idempotencyKey == Some(key);
        assert ledger[i] in rows;
      }
    }
    assert |rows| >= 1 ==> HasKey(ledger, key) by {
      if |rows| >= 1 {
        assert rows[0] in ledger;
        var i :| 0 <= i < |ledger| && ledger[i] == rows[0];
      }
    }
    if |rows| == 1 then Some(rows[0]) else None
  }

  /** The rows `WHERE id = transactionId`, in table order. */
  function WithId(ledger: seq<Transaction>, transactionId: Uuid): (rows: seq<Transaction>)
    ensures forall e :: e in rows <==> e in ledger && e.id == transactionId
    ensures rows != [] ==> rows[0] in ledger && rows[0].id == transactionId
    ensures UniqueIds(ledger) ==> |rows| <= 1
  {
    if ledger == [] then []
    else
      var init, last := ledger[..|ledger| - 1], ledger[|ledger| - 1];
      assert ledger == init + [last];
      assert UniqueIds(ledger) ==> UniqueIds(init);
      var rest := WithId(init, transactionId);
      assert UniqueIds(ledger) && last.id == transactionId ==> rest == [] by {
        if UniqueIds(ledger) && last.id == transactionId {
          forall k | 0 <= k < |init| ensures init[k].id != transactionId {
            assert init[k] == ledger[k];
          }
        }
      }
      rest + (if last.id == transactionId then [last] else [])
  }

  /** The row with id `transactionId`, or `None` when there is none. */
  function GetTransactionStatus(ledger: seq<Transaction>, transactionId: Uuid): (r: Option<Transaction>)
    ensures r.Some? ==> r.value in ledger && r.value.id == transactionId
    ensures UniqueIds(ledger) ==> (r.None? <==> transactionId !in Ids(ledger))
  {
    var rows := WithId(ledger, transactionId);
    assert transactionId in Ids(ledger) ==> |rows| >= 1 by {
      if transactionId in Ids(ledger) {
        var i :| 0 <= i < |ledger| && ledger[i].id == transactionId;
        assert ledger[i] in rows;
      }
    }
    assert |rows| >= 1 ==> transactionId in Ids(ledger) by {
      if |rows| >= 1 {
        assert rows[0] in ledger;
        var i :| 0 <= i < |ledger| && ledger[i] == rows[0];
      }
    }
    if |rows| == 1 then Some(rows[0]) else None
  }

  /** The WHERE clause of `getTransactionsByWallet`: the wallet, and each given day bound, both inclusive. */
  predicate MatchesQuery(e: Transaction, walletId: Uuid, fromDate: Option<Day>, toDate: Option<Day>) {
    && e.walletId == walletId
    && (fromDate.Some? ==> e.createdAt >= StartOfDay(fromDate.value))
    && (toDate.Some? ==> e.createdAt <= StartOfDay(toDate.value + 1))
  }

  /** `ORDER BY created_at DESC` holds of `s`. */
  predicate NewestFirst(s: seq<Transaction>) {
    forall i, j | 0 <= i < j < |s| :: s[i].createdAt >= s[j].createdAt
  }

  function InsertNewestFirst(e: Transaction, s: seq<Transaction>): (r: seq<Transaction>)
    requires NewestFirst(s)
    ensures NewestFirst(r)
    ensures multiset(r) == multiset(s) + multiset{e}
    ensures |r| == |s| + 1
    ensures r[0] == e || (s != [] && r[0] == s[0])
  {
    if s == [] || e.createdAt >= s[0].createdAt then [e] + s
    else
      var rest := InsertNewestFirst(e, s[1..]);
      assert s == [s[0]] + s[1..];
      ConsMultiset(s[0], s[1..], rest, e);
      ConsNewestFirst(s[0], rest);
      [s[0]] + rest
  }

  lemma ConsMultiset<T>(x: T, s: seq<T>, rest: seq<T>, e: T)
    requires multiset(rest) == multiset(s) + multiset{e}
    ensures multiset([x] + rest) == multiset([x] + s) + multiset{e}
  {
  }

  lemma ConsNewestFirst(x: Transaction, rest: seq<Transaction>)
    requires NewestFirst(rest)
    requires rest != [] ==> rest[0].createdAt <= x.createdAt
    ensures NewestFirst([x] + rest)
  {
  }

  /** The rows of `s` ordered newest first. */
  function SortNewestFirst(s: seq<Transaction>): (r: seq<Transaction>)
    ensures NewestFirst(r)
    ensures multiset(r) == multiset(s)
  {
    if s == [] then []
    else
      assert s == [s[0]] + s[1..];
      InsertNewestFirst(s[0], SortNewestFirst(s[1..]))
  }

  /** The signed effect of one row on the balance of `walletId`: only COMPLETED rows of that wallet count. */
  function Effect(e: Transaction, walletId: Uuid): int {
    if e.status != Completed || e.walletId != walletId then 0
    else
      match e.kind
      case TopUp => e.amount
      case TransferIn => e.amount
      case Payment => -e.amount
      case TransferOut => -e.amount
  }

  /** What the ledger says the balance of `walletId` is. */
  function Net(ledger: seq<Transaction>, walletId: Uuid): int {
    if ledger == [] then 0
    else Net(ledger[..|ledger| - 1], walletId) + Effect(ledger[|ledger| - 1], walletId)
  }

  /** Every wallet (created at balance 0) holds exactly what its completed entries add up to. */
  predicate LedgerBacksBalances(ledger: seq<Transaction>, wallets: map<Uuid, Wallet>) {
    forall id | id in wallets :: wallets[id].balance == Net(ledger, id)
  }

  lemma NetAppend(ledger: seq<Transaction>, e: Transaction, walletId: Uuid)
    ensures Net(ledger + [e], walletId) == Net(ledger, walletId) + Effect(e, walletId)
  {
    assert (ledger + [e])[..|ledger|] == ledger;
  }

  /** A wallet that no row refers to has nothing on the ledger. */
  lemma {:induction false} NetFresh(ledger: seq<Transaction>, walletId: Uuid)
    requires forall i | 0 <= i < |ledger| :: ledger[i].walletId != walletId
    ensures Net(ledger, walletId) == 0
    decreases |ledger|
  {
    if ledger != [] {
      var init := ledger[..|ledger| - 1];
      assert forall i | 0 <= i < |init| :: init[i] == ledger[i];
      NetFresh(init, walletId);
    }
  }

  /** The balances of all wallets, keyed by wallet id. */
  function Balances(wallets: map<Uuid, Wallet>): map<Uuid, int> {
    map id | id in wallets :: wallets[id].balance
  }

  ghost function TotalBalance(wallets: map<Uuid, Wallet>): int {
    MapSums.Sum(Balances(wallets))
  }

  /** Overwriting one wallet's balance changes the total by the difference. */
  lemma {:induction false} TotalAfterWrite(wallets: map<Uuid, Wallet>, id: Uuid, w: Wallet)
    requires id in wallets
    ensures TotalBalance(wallets[id := w]) == TotalBalance(wallets) - wallets[id].balance + w.balance
  {
    assert Balances(wallets[id := w]) == Balances(wallets)[id := w.balance];
    MapSums.SumUpdate(Balances(wallets), id, w.balance);
  }
}
