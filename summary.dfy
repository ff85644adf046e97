/** The daily report: its row selection and the summary accumulated over its records. */
module Summary {
  import opened Models
  import opened DecimalText
  import opened Records

  /**
   * One pass over the records, accumulating per-currency totals and
   * per-type and per-status counts in three maps.
   */
  method CalculateSummary(transactions: seq<TransactionRecord>) returns (summary: TransactionSummary)
    requires AmountsParse(transactions)
    ensures SummaryOf(transactions, summary)
  {
    var totals: map<string, int> := map[];
    var byType: map<string, int> := map[];
    var byStatus: map<string, int> := map[];
    for i := 0 to |transactions|
      invariant totals == TotalMap(transactions[..i])
      invariant byType == CountMap(transactions[..i], TypeField)
      invariant byStatus == CountMap(transactions[..i], StatusField)
    {
      var tx := transactions[i];
      TotalMapStep(transactions, i);
      CountMapStep(transactions, i, TypeField);
      CountMapStep(transactions, i, StatusField);
      var amount := ParseCents(tx.amount).value;
      totals := Add(totals, tx.currency, amount);
      byType := Add(byType, tx.kind, 1);
      byStatus := Add(byStatus, tx.status, 1);
    }
    assert transactions[..|transactions|] == transactions;
    RenderedTotals(transactions);
    CountMapIsCounts(transactions, TypeField);
    CountMapIsCounts(transactions, StatusField);
    summary := TransactionSummary(|transactions|, map c | c in totals :: RenderCents(totals[c]), byType, byStatus);
  }

  /**
   * The day's report: the COMPLETED rows created from the start of `date`
   * to the start of the next day inclusive, joined to their wallets, and
   * their summary.
   */
  method GenerateDailyReport(date: Day, ledger: seq<Transaction>, wallets: map<Uuid, Wallet>) returns (report: DailyTransactionReport)
    ensures report.date == date
    ensures report.transactions == DailyRecords(date, ledger, wallets)
    ensures AmountsParse(report.transactions)
    ensures SummaryOf(report.transactions, report.summary)
  {
    var records := DailyRecords(date, ledger, wallets);
    DailyAmountsParse(date, ledger, wallets);
    var summary := CalculateSummary(records);
    report := DailyTransactionReport(date, records, summary);
  }
}
