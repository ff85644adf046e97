/**
 * The simulated external file: the day's report with its first record
 * dropped (when there are at least two), the new first record's amount
 * raised by 10.00, and a phantom payment appended.
 */
module MockExternal {
  import opened Wrappers
  import opened Models
  import opened DecimalText
  import opened Records
  import Summary
  import Reconcile

  /** The record with its amount raised by 10.00 (1000 cents). */
  function Raised(r: TransactionRecord): TransactionRecord
    requires ParseCents(r.amount).Some?
  {
    r.(amount := RenderCents(ParseCents(r.amount).value + 1000))
  }

  /** The raised amount reads back as 10.00 more, so it differs; no other column changes. */
  lemma RaisedAmount(r: TransactionRecord)
    requires ParseCents(r.amount).Some?
    ensures ParseCents(Raised(r).amount) == Some(ParseCents(r.amount).value + 1000)
    ensures Raised(r).amount != r.amount
    ensures Raised(r) == r.(amount := Raised(r).amount)
  {
    RenderCentsRoundTrip(ParseCents(r.amount).value + 1000);
  }

  /**
   * The phantom: a fixed USD 50.00 completed payment under fresh ids, with
   * reference PHANTOM_REF, stamped at the start of the day.
   */
  function Phantom(date: Day, phantomId: string, phantomWalletId: string): TransactionRecord {
    TransactionRecord(phantomId, phantomWalletId, "PAYMENT", "50.00", "USD", "COMPLETED", Some("PHANTOM_REF"),
                      InstantText(StartOfDay(date)))
  }

  /** The shape of the tampered list, whatever its elements. */
  lemma TamperShape<T>(records: seq<T>, kept: seq<T>, mock: seq<T>, modified: T, phantom: T)
    requires |records| > 0 && kept == (if |records| > 1 then records[1..] else records)
    requires mock == kept[0 := modified] + [phantom]
    ensures |records| == 1 ==> mock == [modified, phantom]
    ensures |records| >= 2 ==> mock == [modified] + records[2..] + [phantom] && |mock| == |records|
  {
    if |records| >= 2 {
      assert kept[0 := modified] == [modified] + records[2..];
    }
  }

  /**
   * The tampering applied to the day's records: drop the first of at least
   * two, raise the amount of the (new) first, append the phantom.
   */
  method Tamper(records: seq<TransactionRecord>, phantom: TransactionRecord) returns (mock: seq<TransactionRecord>)
    requires AmountsParse(records)
    ensures records == [] ==> mock == []
    ensures |records| == 1 ==> mock == [Raised(records[0]), phantom]
    ensures |records| >= 2 ==> mock == [Raised(records[1])] + records[2..] + [phantom] && |mock| == |records|
  {
    mock := records;
    if |mock| > 0 {
      if |mock| > 1 {
        mock := mock[1..];
      }
      ghost var kept := mock;
      ghost var first := if |records| > 1 then 1 else 0;
      assert mock[0] == records[first];
      var modified := Raised(mock[0]);
      mock := mock[0 := modified];
      mock := mock + [phantom];
      TamperShape(records, kept, mock, modified, phantom);
    }
  }

  /** The mock external file for a day: the day's report records, tampered. */
  method GenerateMockExternalFile(date: Day, ledger: seq<Transaction>, wallets: map<Uuid, Wallet>,
                                  phantomId: string, phantomWalletId: string) returns (mock: seq<TransactionRecord>)
    ensures var internal, phantom := DailyRecords(date, ledger, wallets), Phantom(date, phantomId, phantomWalletId);
      && AmountsParse(internal)
      && (internal == [] ==> mock == [])
      && (|internal| == 1 ==> mock == [Raised(internal[0]), phantom])
      && (|internal| >= 2 ==> mock == [Raised(internal[1])] + internal[2..] + [phantom] && |mock| == |internal|)
  {
    var dbReport := Summary.GenerateDailyReport(date, ledger, wallets);
    mock := Tamper(dbReport.transactions, Phantom(date, phantomId, phantomWalletId));
  }

  /** The mock's ids: the report's, less the dropped first, plus the phantom's. */
  lemma MockIds(internal: seq<TransactionRecord>, first: TransactionRecord, phantom: TransactionRecord)
    requires |internal| >= 2 && DistinctIds(internal) && first.transactionId == internal[1].transactionId
    requires phantom.transactionId !in Reconcile.RecordIds(internal)
    ensures var mock := [first] + internal[2..] + [phantom];
      && Reconcile.RecordIds(internal) - Reconcile.RecordIds(mock) == {internal[0].transactionId}
      && Reconcile.RecordIds(mock) - Reconcile.RecordIds(internal) == {phantom.transactionId}
  {
    var mock := [first] + internal[2..] + [phantom];
    var id0 := internal[0].transactionId;
    assert forall i | 0 <= i < |mock| - 1 :: mock[i].transactionId == internal[i + 1].transactionId;
    assert mock[|mock| - 1] == phantom;
    forall x ensures x in Reconcile.RecordIds(mock) <==> (x in Reconcile.RecordIds(internal) && x != id0) || x == phantom.transactionId {
      if x in Reconcile.RecordIds(mock) {
        var i :| 0 <= i < |mock| && mock[i].transactionId == x;
        if i < |mock| - 1 {
          assert internal[i + 1].transactionId == x;
        }
      }
      if x in Reconcile.RecordIds(internal) && x != id0 {
        var i :| 0 <= i < |internal| && internal[i].transactionId == x;
        assert mock[i - 1].transactionId == x;
      }
      if x == phantom.transactionId {
        assert mock[|mock| - 1].transactionId == x;
      }
    }
    assert id0 in Reconcile.RecordIds(internal) by {
      assert internal[0].transactionId == id0;
    }
  }

  /** The mock keeps ids distinct when the phantom's id is fresh. */
  lemma MockDistinct(internal: seq<TransactionRecord>, first: TransactionRecord, phantom: TransactionRecord)
    requires |internal| >= 2 && DistinctIds(internal) && first.transactionId == internal[1].transactionId
    requires phantom.transactionId !in Reconcile.RecordIds(internal)
    ensures DistinctIds([first] + internal[2..] + [phantom])
  {
    var mock := [first] + internal[2..] + [phantom];
    assert forall i | 0 <= i < |mock| - 1 :: mock[i].transactionId == internal[i + 1].transactionId;
    forall i, j | 0 <= i < j < |mock| ensures mock[i].transactionId != mock[j].transactionId {
      if j == |mock| - 1 {
        assert mock[i].transactionId == internal[i + 1].transactionId;
        assert internal[i + 1].transactionId in Reconcile.RecordIds(internal);
      }
    }
  }

  /**
   * Against a mock of at least two records, the raised record is the only
   * one present on both sides that differs, so the whole discrepancy list
   * is its amount entry.
   */
  lemma {:induction false} MockDiscrepancies(internal: seq<TransactionRecord>, phantom: TransactionRecord)
    requires |internal| >= 2 && AmountsParse(internal) && DistinctIds(internal)
    requires phantom.transactionId !in Reconcile.RecordIds(internal)
    ensures var mock := [Raised(internal[1])] + internal[2..] + [phantom];
      var id := internal[1].transactionId;
      Reconcile.AllDiscrepancies(Reconcile.KeyOrder(internal), Reconcile.Index(internal), Reconcile.Index(mock))
      == [Reconcile.TransactionDiscrepancy(id, "amount", internal[1].amount, Raised(internal[1]).amount)]
  {
    var mock := [Raised(internal[1])] + internal[2..] + [phantom];
    var ids, db, ext := Reconcile.KeyOrder(internal), Reconcile.Index(internal), Reconcile.Index(mock);
    RaisedAmount(internal[1]);
    MockIds(internal, mock[0], phantom);
    MockDistinct(internal, mock[0], phantom);
    Reconcile.DistinctIndex(internal);
    Reconcile.DistinctIndex(mock);
    forall i | 0 <= i < |ids| && i != 1 && ids[i] in ext
      ensures Reconcile.Discrepancies(ids[i], db[ids[i]], ext[ids[i]]) == []
    {
      assert i != 0;
      assert mock[i - 1] == internal[i];
      assert ext[ids[i]] == internal[i];
      Reconcile.EqualIffNoDiscrepancies(ids[i], internal[i], internal[i]);
    }
    Reconcile.AllDiscrepanciesAt(ids, db, ext, 1);
    Reconcile.OnlyAmountDiffers(ids[1], internal[1], mock[0]);
  }

  /**
   * Reconciling a report of at least two records with distinct ids against
   * its mock: the dropped first record is the only one missing externally,
   * the phantom the only one missing in the database, and the raised record
   * differs in its amount alone.
   */
  lemma MockReconciliation(internal: seq<TransactionRecord>, phantom: TransactionRecord)
    requires |internal| >= 2 && AmountsParse(internal) && DistinctIds(internal)
    requires phantom.transactionId !in Reconcile.RecordIds(internal)
    ensures var mock := [Raised(internal[1])] + internal[2..] + [phantom];
      var id := internal[1].transactionId;
      && Reconcile.RecordIds(internal) - Reconcile.RecordIds(mock) == {internal[0].transactionId}
      && Reconcile.RecordIds(mock) - Reconcile.RecordIds(internal) == {phantom.transactionId}
      && id in Reconcile.Index(mock)
      && Reconcile.Discrepancies(id, internal[1], Reconcile.Index(mock)[id])
         == [Reconcile.TransactionDiscrepancy(id, "amount", internal[1].amount, Raised(internal[1]).amount)]
      && Reconcile.AllDiscrepancies(Reconcile.KeyOrder(internal), Reconcile.Index(internal), Reconcile.Index(mock))
         == [Reconcile.TransactionDiscrepancy(id, "amount", internal[1].amount, Raised(internal[1]).amount)]
  {
    var mock := [Raised(internal[1])] + internal[2..] + [phantom];
    var id := internal[1].transactionId;
    RaisedAmount(internal[1]);
    MockIds(internal, mock[0], phantom);
    MockDistinct(internal, mock[0], phantom);
    Reconcile.DistinctIndex(mock);
    assert mock[0] == Raised(internal[1]);
    assert Reconcile.Index(mock)[id] == mock[0];
    Reconcile.OnlyAmountDiffers(id, internal[1], mock[0]);
    MockDiscrepancies(internal, phantom);
  }

  /** The ids of a one-record report and of its mock. */
  lemma SingleIds(r: TransactionRecord, first: TransactionRecord, phantom: TransactionRecord)
    requires first.transactionId == r.transactionId && phantom.transactionId != r.transactionId
    ensures Reconcile.RecordIds([r]) - Reconcile.RecordIds([first, phantom]) == {}
    ensures Reconcile.RecordIds([first, phantom]) - Reconcile.RecordIds([r]) == {phantom.transactionId}
  {
    assert Reconcile.RecordIds([r]) == {r.transactionId} by {
      assert [r][0] == r;
    }
    assert Reconcile.RecordIds([first, phantom]) == {r.transactionId, phantom.transactionId} by {
      assert [first, phantom][0] == first && [first, phantom][1] == phantom;
    }
  }

  /** Against the mock of a one-record report, the raised amount is the only discrepancy. */
  lemma {:induction false} SingleDiscrepancies(r: TransactionRecord, phantom: TransactionRecord)
    requires ParseCents(r.amount).Some? && phantom.transactionId != r.transactionId
    ensures Reconcile.AllDiscrepancies(Reconcile.KeyOrder([r]), Reconcile.Index([r]), Reconcile.Index([Raised(r), phantom]))
         == [Reconcile.TransactionDiscrepancy(r.transactionId, "amount", r.amount, Raised(r).amount)]
  {
    var mock := [Raised(r), phantom];
    RaisedAmount(r);
    Reconcile.DistinctIndex([r]);
    Reconcile.DistinctIndex(mock);
    Reconcile.AllDiscrepanciesAt(Reconcile.KeyOrder([r]), Reconcile.Index([r]), Reconcile.Index(mock), 0);
    Reconcile.OnlyAmountDiffers(r.transactionId, r, mock[0]);
  }

  /**
   * Reconciling a one-record report against its mock: nothing is missing
   * externally, the phantom is the only record missing in the database, and
   * the raised record differs in its amount alone.
   */
  lemma {:induction false} MockReconciliationSingle(internal: seq<TransactionRecord>, phantom: TransactionRecord)
    requires |internal| == 1 && AmountsParse(internal)
    requires phantom.transactionId != internal[0].transactionId
    ensures var mock := [Raised(internal[0]), phantom];
      var id := internal[0].transactionId;
      && Reconcile.RecordIds(internal) - Reconcile.RecordIds(mock) == {}
      && Reconcile.RecordIds(mock) - Reconcile.RecordIds(internal) == {phantom.transactionId}
      && Reconcile.AllDiscrepancies(Reconcile.KeyOrder(internal), Reconcile.Index(internal), Reconcile.Index(mock))
         == [Reconcile.TransactionDiscrepancy(id, "amount", internal[0].amount, Raised(internal[0]).amount)]
  {
    assert internal == [internal[0]];
    SingleIds(internal[0], Raised(internal[0]), phantom);
    SingleDiscrepancies(internal[0], phantom);
  }
}
