/**
 * The reconciliation engine's data: the flat, all-string TransactionRecord
 * that the daily report is made of, the report and its summary, and the
 * selection of the ledger rows that a day's report contains.
 */
module Records {
  import opened Wrappers
  import opened Models
  import opened DecimalText
  import Ledger
  import MapSums

  datatype TransactionRecord = TransactionRecord(
    transactionId: string,
    walletId: string,
    kind: string,
    amount: string,
    currency: string,
    status: string,
    referenceId: Option<string>,
    timestamp: string)

  datatype TransactionSummary = TransactionSummary(
    totalTransactions: int,
    totalAmount: map<string, string>,
    transactionsByType: map<string, int>,
    transactionsByStatus: map<string, int>)

  datatype DailyTransactionReport = DailyTransactionReport(
    date: Day,
    transactions: seq<TransactionRecord>,
    summary: TransactionSummary)

  /** An injective stand-in for the ISO-8601 text of an instant. */
  function InstantText(t: Instant): string {
    IntText(t)
  }

  /** One joined (transaction, wallet) row as the report renders it. */
  function ToRecord(e: Transaction, w: Wallet): TransactionRecord {
    TransactionRecord(e.id, e.walletId, e.kind.Name(), RenderCents(e.amount), w.currency.Name(),
                      e.status.Name(), e.referenceId, InstantText(e.createdAt))
  }

  /**
   * The report's filter: COMPLETED, created between the start of `date` and
   * the start of the next day with both ends included, and joined to an
   * existing wallet.
   */
  predicate InReport(e: Transaction, date: Day, wallets: map<Uuid, Wallet>) {
    && e.status == Completed
    && StartOfDay(date) <= e.createdAt <= StartOfDay(date + 1)
    && e.walletId in wallets
  }

  /** The rows of the day's report, in table order. */
  function DailyEntries(date: Day, ledger: seq<Transaction>, wallets: map<Uuid, Wallet>): (sel: seq<Transaction>)
    ensures forall e :: e in sel <==> e in ledger && InReport(e, date, wallets)
    ensures forall i | 0 <= i < |sel| :: InReport(sel[i], date, wallets)
    ensures |sel| <= |ledger|
    decreases |ledger|
  {
    if ledger == [] then []
    else
      var init, last := ledger[..|ledger| - 1], ledger[|ledger| - 1];
      assert ledger == init + [last];
      var rest := DailyEntries(date, init, wallets);
      if InReport(last, date, wallets) then rest + [last] else rest
  }

  /** The day's report rows rendered as records. */
  function DailyRecords(date: Day, ledger: seq<Transaction>, wallets: map<Uuid, Wallet>): (rs: seq<TransactionRecord>)
    ensures |rs| == |DailyEntries(date, ledger, wallets)|
  {
    var sel := DailyEntries(date, ledger, wallets);
    seq(|sel|, i requires 0 <= i < |sel| => ToRecord(sel[i], wallets[sel[i].walletId]))
  }

  /**
   * Each record carries its row's id, wallet, type and status names, the
   * wallet's currency, the row's reference and creation time, and an amount
   * text that reads back as the row's amount.
   */
  lemma DailyRecordsFaithful(date: Day, ledger: seq<Transaction>, wallets: map<Uuid, Wallet>)
    ensures var sel, rs := DailyEntries(date, ledger, wallets), DailyRecords(date, ledger, wallets);
      forall i | 0 <= i < |rs| ::
        && sel[i].walletId in wallets
        && rs[i].transactionId == sel[i].id
        && rs[i].walletId == sel[i].walletId
        && rs[i].kind == sel[i].kind.Name()
        && ParseCents(rs[i].amount) == Some(sel[i].amount)
        && rs[i].currency == wallets[sel[i].walletId].currency.Name()
        && rs[i].status == "COMPLETED"
        && rs[i].referenceId == sel[i].referenceId
        && rs[i].timestamp == InstantText(sel[i].createdAt)
  {
    var sel := DailyEntries(date, ledger, wallets);
    forall i | 0 <= i < |sel| ensures ParseCents(RenderCents(sel[i].amount)) == Some(sel[i].amount) {
      RenderCentsRoundTrip(sel[i].amount);
    }
  }

  /** Every amount in the day's report can be read back as a decimal. */
  lemma DailyAmountsParse(date: Day, ledger: seq<Transaction>, wallets: map<Uuid, Wallet>)
    ensures AmountsParse(DailyRecords(date, ledger, wallets))
  {
    DailyRecordsFaithful(date, ledger, wallets);
  }

  /** Every amount text reads as a decimal. */
  predicate AmountsParse(rs: seq<TransactionRecord>) {
    forall i | 0 <= i < |rs| :: ParseCents(rs[i].amount).Some?
  }

  /** No two records share a transaction id. */
  predicate DistinctIds(rs: seq<TransactionRecord>) {
    forall i, j | 0 <= i < j < |rs| :: rs[i].transactionId != rs[j].transactionId
  }

  /** The report keeps the table's primary key. */
  lemma {:induction false} DailyEntriesUnique(date: Day, ledger: seq<Transaction>, wallets: map<Uuid, Wallet>)
    requires Ledger.UniqueIds(ledger)
    ensures Ledger.UniqueIds(DailyEntries(date, ledger, wallets))
    decreases |ledger|
  {
    if ledger != [] {
      var init, last := ledger[..|ledger| - 1], ledger[|ledger| - 1];
      assert ledger == init + [last];
      DailyEntriesUnique(date, init, wallets);
      var rest := DailyEntries(date, init, wallets);
      forall k | 0 <= k < |rest| ensures rest[k].id != last.id {
        assert rest[k] in rest;
        var j :| 0 <= j < |init| && init[j] == rest[k];
        assert ledger[j] == init[j];
      }
    }
  }

  /** A ledger with unique ids yields a report with unique transaction ids. */
  lemma DailyRecordIdsDistinct(date: Day, ledger: seq<Transaction>, wallets: map<Uuid, Wallet>)
    requires Ledger.UniqueIds(ledger)
    ensures DistinctIds(DailyRecords(date, ledger, wallets))
  {
    DailyEntriesUnique(date, ledger, wallets);
  }

  /** The record columns that are summarised or compared. */
  datatype Field = WalletIdField | TypeField | AmountField | CurrencyField | StatusField {
    /** The field's name as a discrepancy reports it. */
    function Name(): string {
      match this
      case WalletIdField => "walletId"
      case TypeField => "type"
      case AmountField => "amount"
      case CurrencyField => "currency"
      case StatusField => "status"
    }

    function Of(r: TransactionRecord): string {
      match this
      case WalletIdField => r.walletId
      case TypeField => r.kind
      case AmountField => r.amount
      case CurrencyField => r.currency
      case StatusField => r.status
    }
  }

  /** The values that `f` takes over `rs`. */
  function Values(rs: seq<TransactionRecord>, f: Field): set<string> {
    set r | r in rs :: f.Of(r)
  }

  /** How many records have `v` in column `f`. */
  function Count(rs: seq<TransactionRecord>, f: Field, v: string): (n: nat)
    ensures n <= |rs|
    decreases |rs|
  {
    if rs == [] then 0
    else
      var init, last := rs[..|rs| - 1], rs[|rs| - 1];
      assert rs == init + [last];
      Count(init, f, v) + (if f.Of(last) == v then 1 else 0)
  }

  lemma ValuesSnoc(rs: seq<TransactionRecord>, r: TransactionRecord, f: Field)
    ensures Values(rs + [r], f) == Values(rs, f) + {f.Of(r)}
  {
    var s := rs + [r];
    forall v | v in Values(s, f) ensures v in Values(rs, f) + {f.Of(r)} {
      var x :| x in s && f.Of(x) == v;
      if x != r {
        assert x in rs;
      }
    }
    forall v | v in Values(rs, f) + {f.Of(r)} ensures v in Values(s, f) {
      if v == f.Of(r) {
        assert r in s;
      } else {
        var x :| x in rs && f.Of(x) == v;
        assert x in s;
      }
    }
  }

  lemma CountSnoc(rs: seq<TransactionRecord>, r: TransactionRecord, f: Field, v: string)
    ensures Count(rs + [r], f, v) == Count(rs, f, v) + (if f.Of(r) == v then 1 else 0)
  {
    var s := rs + [r];
    assert s[..|s| - 1] == rs;
  }

  /** A value that does not occur is counted zero times. */
  lemma {:induction false} CountAbsent(rs: seq<TransactionRecord>, f: Field, v: string)
    requires v !in Values(rs, f)
    ensures Count(rs, f, v) == 0
    decreases |rs|
  {
    if rs != [] {
      var init, last := rs[..|rs| - 1], rs[|rs| - 1];
      assert rs == init + [last];
      ValuesSnoc(init, last, f);
      CountAbsent(init, f, v);
    }
  }

  /** `m[k] = m.getOrDefault(k, 0) + v` */
  function Add(m: map<string, int>, k: string, v: int): (r: map<string, int>)
    ensures r.Keys == m.Keys + {k}
    ensures r[k] == (if k in m then m[k] else 0) + v
    ensures forall j | j in m && j != k :: r[j] == m[j]
  {
    m[k := (if k in m then m[k] else 0) + v]
  }

  /** Adding `v` under one key adds `v` to the sum of the map. */
  lemma SumAdd(m: map<string, int>, k: string, v: int)
    ensures MapSums.Sum(Add(m, k, v)) == MapSums.Sum(m) + v
  {
    MapSums.SumUpdate(m, k, (if k in m then m[k] else 0) + v);
  }

  /** The per-value counts of column `f`, built up record by record as the summary loop does. */
  function CountMap(rs: seq<TransactionRecord>, f: Field): map<string, int>
    decreases |rs|
  {
    if rs == [] then map[]
    else
      Add(CountMap(rs[..|rs| - 1], f), f.Of(rs[|rs| - 1]), 1)
  }

  /** One step of the summary loop on the counts of one column. */
  lemma CountMapStep(rs: seq<TransactionRecord>, i: nat, f: Field)
    requires i < |rs|
    ensures CountMap(rs[..i + 1], f) == Add(CountMap(rs[..i], f), f.Of(rs[i]), 1)
  {
    assert rs[..i + 1][..i] == rs[..i];
  }

  /** The counts have one key per value that occurs, and count its records. */
  lemma {:induction false} CountMapCounts(rs: seq<TransactionRecord>, f: Field)
    ensures CountMap(rs, f).Keys == Values(rs, f)
    ensures forall v | v in CountMap(rs, f) :: CountMap(rs, f)[v] == Count(rs, f, v)
    decreases |rs|
  {
    if rs == [] {
      assert Values(rs, f) == {};
    } else {
      var init, last := rs[..|rs| - 1], rs[|rs| - 1];
      assert rs == init + [last];
      CountMapCounts(init, f);
      ValuesSnoc(init, last, f);
      forall v | v in CountMap(rs, f) ensures CountMap(rs, f)[v] == Count(rs, f, v) {
        CountSnoc(init, last, f, v);
        if v !in Values(init, f) {
          CountAbsent(init, f, v);
        }
      }
    }
  }

  /** The per-value counts of any column add up to the number of records. */
  lemma {:induction false} CountMapTotal(rs: seq<TransactionRecord>, f: Field)
    ensures MapSums.Sum(CountMap(rs, f)) == |rs|
    decreases |rs|
  {
    if rs != [] {
      var init := rs[..|rs| - 1];
      CountMapTotal(init, f);
      SumAdd(CountMap(init, f), f.Of(rs[|rs| - 1]), 1);
    }
  }

  /** The sum, in cents, of the amounts of the records in `currency`. */
  function SumIn(rs: seq<TransactionRecord>, currency: string): int
    requires AmountsParse(rs)
    decreases |rs|
  {
    if rs == [] then 0
    else
      var init, last := rs[..|rs| - 1], rs[|rs| - 1];
      assert rs == init + [last];
      SumIn(init, currency) + (if last.currency == currency then ParseCents(last.amount).value else 0)
  }

  /** Per-currency totals in cents, built up record by record as the summary loop does. */
  function TotalMap(rs: seq<TransactionRecord>): map<string, int>
    requires AmountsParse(rs)
    decreases |rs|
  {
    if rs == [] then map[]
    else
      var init, last := rs[..|rs| - 1], rs[|rs| - 1];
      assert rs == init + [last];
      Add(TotalMap(init), last.currency, ParseCents(last.amount).value)
  }

  /** One step of the summary loop on the totals. */
  lemma TotalMapStep(rs: seq<TransactionRecord>, i: nat)
    requires i < |rs|
    requires AmountsParse(rs)
    ensures AmountsParse(rs[..i]) && AmountsParse(rs[..i + 1])
    ensures TotalMap(rs[..i + 1]) == Add(TotalMap(rs[..i]), rs[i].currency, ParseCents(rs[i].amount).value)
  {
    assert rs[..i + 1][..i] == rs[..i];
  }

  /** The totals have one key per currency that occurs. */
  lemma {:induction false} TotalMapKeys(rs: seq<TransactionRecord>)
    requires AmountsParse(rs)
    ensures TotalMap(rs).Keys == Values(rs, CurrencyField)
    decreases |rs|
  {
    if rs == [] {
      assert Values(rs, CurrencyField) == {};
    } else {
      var init, last := rs[..|rs| - 1], rs[|rs| - 1];
      assert rs == init + [last];
      assert AmountsParse(init);
      TotalMapKeys(init);
      ValuesSnoc(init, last, CurrencyField);
    }
  }

  /** The total kept for currency `c` is the sum of that currency's amounts. */
  lemma {:induction false} TotalMapAt(rs: seq<TransactionRecord>, c: string)
    requires AmountsParse(rs)
    ensures c in TotalMap(rs) ==> TotalMap(rs)[c] == SumIn(rs, c)
    decreases |rs|
  {
    if rs != [] {
      var init, last := rs[..|rs| - 1], rs[|rs| - 1];
      assert rs == init + [last];
      assert AmountsParse(init) && ParseCents(last.amount).Some?;
      var m := TotalMap(init);
      assert TotalMap(rs) == Add(m, last.currency, ParseCents(last.amount).value);
      TotalMapAt(init, c);
      SumInSnoc(init, last, c);
      if c == last.currency && c !in m {
        TotalMapKeys(init);
        SumInAbsent(init, c);
      }
    }
  }

  /** The totals have one key per currency that occurs, holding the sum of that currency's amounts. */
  lemma TotalMapSums(rs: seq<TransactionRecord>)
    requires AmountsParse(rs)
    ensures TotalMap(rs).Keys == Values(rs, CurrencyField)
    ensures forall c | c in TotalMap(rs) :: TotalMap(rs)[c] == SumIn(rs, c)
  {
    TotalMapKeys(rs);
    forall c | c in TotalMap(rs) ensures TotalMap(rs)[c] == SumIn(rs, c) {
      TotalMapAt(rs, c);
    }
  }

  lemma SumInSnoc(rs: seq<TransactionRecord>, r: TransactionRecord, c: string)
    requires AmountsParse(rs) && ParseCents(r.amount).Some?
    ensures AmountsParse(rs + [r])
    ensures SumIn(rs + [r], c) == SumIn(rs, c) + (if r.currency == c then ParseCents(r.amount).value else 0)
  {
    var s := rs + [r];
    assert s[..|s| - 1] == rs;
  }

  lemma {:induction false} SumInAbsent(rs: seq<TransactionRecord>, c: string)
    requires AmountsParse(rs)
    requires c !in Values(rs, CurrencyField)
    ensures SumIn(rs, c) == 0
    decreases |rs|
  {
    if rs != [] {
      var init := rs[..|rs| - 1];
      assert rs == init + [rs[|rs| - 1]];
      ValuesSnoc(init, rs[|rs| - 1], CurrencyField);
      SumInAbsent(init, c);
    }
  }

  /**
   * `m` counts column `f` of `rs`: one key per value that occurs, holding
   * the number of records with that value, so the counts add up to `|rs|`.
   */
  ghost predicate CountsOf(rs: seq<TransactionRecord>, f: Field, m: map<string, int>) {
    && m.Keys == Values(rs, f)
    && (forall v | v in m :: m[v] == Count(rs, f, v))
    && MapSums.Sum(m) == |rs|
  }

  /**
   * `totals` has one key per currency that occurs, holding the canonical
   * text of that currency's sum, which reads back as the sum.
   */
  ghost predicate TotalsOf(rs: seq<TransactionRecord>, totals: map<string, string>)
    requires AmountsParse(rs)
  {
    && totals.Keys == Values(rs, CurrencyField)
    && (forall c | c in totals :: totals[c] == RenderCents(SumIn(rs, c)))
    && (forall c | c in totals :: ParseCents(totals[c]) == Some(SumIn(rs, c)))
  }

  /** What `calculateSummary` promises about a summary of `rs`. */
  ghost predicate SummaryOf(rs: seq<TransactionRecord>, s: TransactionSummary)
    requires AmountsParse(rs)
  {
    && s.totalTransactions == |rs|
    && TotalsOf(rs, s.totalAmount)
    && CountsOf(rs, TypeField, s.transactionsByType)
    && CountsOf(rs, StatusField, s.transactionsByStatus)
  }

  /** The accumulated counts of a column are its counts. */
  lemma CountMapIsCounts(rs: seq<TransactionRecord>, f: Field)
    ensures CountsOf(rs, f, CountMap(rs, f))
  {
    CountMapCounts(rs, f);
    CountMapTotal(rs, f);
  }

  /** The accumulated totals, rendered as decimals, are the per-currency totals. */
  lemma RenderedTotals(rs: seq<TransactionRecord>)
    requires AmountsParse(rs)
    ensures var totals := TotalMap(rs);
      TotalsOf(rs, map c | c in totals :: RenderCents(totals[c]))
  {
    var totals := TotalMap(rs);
    TotalMapSums(rs);
    forall c | c in totals ensures ParseCents(RenderCents(totals[c])) == Some(SumIn(rs, c)) {
      RenderCentsRoundTrip(totals[c]);
    }
  }
}
