/**
 * The wallet store: the users and wallets tables and the operations that
 * create a wallet, overwrite a balance and read wallets back.
 */
module Wallets {
  import opened Wrappers
  import opened Models

  class WalletService {
    /** Ids of the rows of the users table (users are created elsewhere). */
    var users: set<Uuid>
    /** The wallets table, keyed by wallet id. */
    var wallets: map<Uuid, Wallet>

    /** Every row is stored under its own id and belongs to an existing user. */
    ghost predicate RowsWellFormed()
      reads this
    {
      forall id | id in wallets :: wallets[id].id == id && wallets[id].userId in users
    }

    /** At most one wallet per (user, currency) pair. */
    ghost predicate OneWalletPerCurrency()
      reads this
    {
      forall a, b | a in wallets && b in wallets ::
        wallets[a].userId == wallets[b].userId && wallets[a].currency == wallets[b].currency ==> a == b
    }

    ghost predicate Valid()
      reads this
    {
      RowsWellFormed() && OneWalletPerCurrency()
    }

    constructor (users: set<Uuid>)
      ensures Valid() && this.users == users && wallets == map[]
    {
      this.users := users;
      wallets := map[];
    }

    /** Whether `userId` already holds a wallet in `currency`. */
    predicate HasWallet(userId: Uuid, currency: Currency)
      reads this
    {
      exists id | id in wallets :: wallets[id].userId == userId && wallets[id].currency == currency
    }

    /**
     * Creates an empty wallet for an existing user who has none in that
     * currency; `walletId` and `now` are the id the database generates and
     * the clock reading.
     */
    method CreateWallet(userId: Uuid, currency: Currency, walletId: Uuid, now: Instant) returns (r: Result<Wallet, Error>)
      requires Valid()
      requires walletId !in wallets
      modifies this
      ensures Valid() && users == old(users)
      ensures userId !in users ==> r == Err(UserNotFound) && wallets == old(wallets)
      ensures userId in users && old(HasWallet(userId, currency)) ==>
        r == Err(WalletAlreadyExists) && wallets == old(wallets)
      ensures userId in users && !old(HasWallet(userId, currency)) ==>
        && r == Ok(Wallet(walletId, userId, currency, 0, now))
        && wallets == old(wallets)[walletId := r.value]
    {
      if userId !in users {
        return Err(UserNotFound);
      }
      // `singleOrNull()` over the rows of this user in this currency
      var existing := set id | id in wallets && wallets[id].userId == userId && wallets[id].currency == currency;
      if HasWallet(userId, currency) {
        var id0 :| id0 in wallets && wallets[id0].userId == userId && wallets[id0].currency == currency;
        assert existing == {id0};
      }
      if |existing| == 1 {
        return Err(WalletAlreadyExists);
      }
      var wallet := Wallet(walletId, userId, currency, 0, now);
      wallets := wallets[walletId := wallet];
      r := Ok(wallet);
    }

    /** Overwrites the balance (and `updatedAt`) of the wallet `walletId`; no row matches an unknown id. */
    method UpdateWalletBalance(walletId: Uuid, newBalance: Cents, now: Instant)
      modifies this
      ensures users == old(users)
      ensures wallets ==
        if walletId in old(wallets)
        then old(wallets)[walletId := old(wallets)[walletId].(balance := newBalance, updatedAt := now)]
        else old(wallets)
      ensures old(Valid()) ==> Valid()
      ensures forall id | id in old(wallets) && id != walletId :: id in wallets && wallets[id] == old(wallets)[id]
    {
      if walletId in wallets {
        wallets := wallets[walletId := wallets[walletId].(balance := newBalance, updatedAt := now)];
      }
    }

    /** The wallet with id `walletId`, or `None` (null) when there is none. */
    function GetWallet(walletId: Uuid): (r: Option<Wallet>)
      reads this
      ensures r.Some? <==> walletId in wallets
      ensures r.Some? ==> r.value == wallets[walletId]
      ensures Valid() && r.Some? ==> r.value.id == walletId
    {
      if walletId in wallets then Some(wallets[walletId]) else None
    }

    /** The wallets of `userId`: all of them, and at most one per currency. */
    function GetUserWallets(userId: Uuid): (r: set<Wallet>)
      reads this
      ensures forall id | id in wallets && wallets[id].userId == userId :: wallets[id] in r
      ensures forall w | w in r :: w.userId == userId && w in wallets.Values
      ensures Valid() ==> forall w | w in r :: w.id in wallets && wallets[w.id] == w
      ensures Valid() ==> forall v, w | v in r && w in r && v.currency == w.currency :: v == w
    {
      set id | id in wallets && wallets[id].userId == userId :: wallets[id]
    }

    /** The id, currency and balance of the wallet `walletId`, or `None`. */
    function GetWalletBalance(walletId: Uuid): (r: Option<WalletBalanceResponse>)
      reads this
      ensures r.Some? <==> walletId in wallets
      ensures r.Some? ==> r.value.walletId == walletId
      ensures r.Some? ==> r.value.currency == wallets[walletId].currency && r.value.balance == wallets[walletId].balance
    {
      if walletId in wallets
      then Some(WalletBalanceResponse(walletId, wallets[walletId].currency, wallets[walletId].balance))
      else None
    }
  }
}
