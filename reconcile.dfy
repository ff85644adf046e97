/**
 * Reconciliation of the day's report against an external list of records:
 * both sides are indexed by transaction id, ids on both sides are matched
 * and compared field by field, and ids on one side only are reported as
 * missing from the other.
 */
module Reconcile {
  import opened Wrappers
  import opened Models
  import opened Records
  import Summary

  datatype TransactionDiscrepancy = TransactionDiscrepancy(
    transactionId: string,
    field: string,
    dbValue: string,
    externalValue: string)

  datatype ReconciliationResult = ReconciliationResult(
    date: Day,
    matched: seq<TransactionRecord>,
    missingInDb: seq<TransactionRecord>,
    missingInExternal: seq<TransactionRecord>,
    discrepancies: seq<TransactionDiscrepancy>)

  function RecordIds(rs: seq<TransactionRecord>): set<string> {
    set i | 0 <= i < |rs| :: rs[i].transactionId
  }

  lemma RecordIdsSnoc(rs: seq<TransactionRecord>, r: TransactionRecord)
    ensures RecordIds(rs + [r]) == RecordIds(rs) + {r.transactionId}
  {
    var s := rs + [r];
    forall id | id in RecordIds(rs) ensures id in RecordIds(s) {
      var i :| 0 <= i < |rs| && rs[i].transactionId == id;
      assert s[i] == rs[i];
    }
    assert s[|rs|] == r;
  }

  predicate Distinct(ids: seq<string>) {
    forall i, j | 0 <= i < j < |ids| :: ids[i] != ids[j]
  }

  /** No record after position `i` carries the id of record `i`. */
  predicate LastWithId(rs: seq<TransactionRecord>, i: nat)
    requires i < |rs|
  {
    forall j | i < j < |rs| :: rs[j].transactionId != rs[i].transactionId
  }

  /** `associateBy { it.transactionId }`: each id maps to the last record that carries it. */
  function Index(rs: seq<TransactionRecord>): (m: map<string, TransactionRecord>)
    ensures m.Keys == RecordIds(rs)
    ensures forall id | id in m :: m[id] in rs && m[id].transactionId == id
    decreases |rs|
  {
    if rs == [] then map[]
    else
      var init, last := rs[..|rs| - 1], rs[|rs| - 1];
      assert rs == init + [last];
      RecordIdsSnoc(init, last);
      Index(init)[last.transactionId := last]
  }

  /** The index keeps, for each id, the last record that carries it. */
  lemma {:induction false} IndexKeepsLast(rs: seq<TransactionRecord>)
    ensures forall i | 0 <= i < |rs| && LastWithId(rs, i) :: Index(rs)[rs[i].transactionId] == rs[i]
    decreases |rs|
  {
    if rs != [] {
      var init, last := rs[..|rs| - 1], rs[|rs| - 1];
      assert rs == init + [last];
      IndexKeepsLast(init);
      forall i | 0 <= i < |init| && LastWithId(rs, i) ensures LastWithId(init, i) && last.transactionId != rs[i].transactionId {
        assert rs[|rs| - 1] == last;
      }
    }
  }

  /** Position `p` holds the first record carrying `id`. */
  predicate FirstAt(rs: seq<TransactionRecord>, id: string, p: nat) {
    p < |rs| && rs[p].transactionId == id && forall q | 0 <= q < p :: rs[q].transactionId != id
  }

  lemma {:induction false} FirstExists(rs: seq<TransactionRecord>, id: string)
    requires id in RecordIds(rs)
    ensures exists p: nat :: FirstAt(rs, id, p)
    decreases |rs|
  {
    if rs[0].transactionId == id {
      assert FirstAt(rs, id, 0);
    } else {
      var i :| 0 <= i < |rs| && rs[i].transactionId == id;
      assert rs[1..][i - 1].transactionId == id;
      FirstExists(rs[1..], id);
      var p: nat :| FirstAt(rs[1..], id, p);
      assert FirstAt(rs, id, p + 1);
    }
  }

  /** The first position holding `id` is the only position with that property. */
  lemma FirstUnique(rs: seq<TransactionRecord>, id: string, p: nat, p': nat)
    requires FirstAt(rs, id, p) && FirstAt(rs, id, p')
    ensures p == p'
  {
  }

  /** The position of the first record carrying `id`. */
  function First(rs: seq<TransactionRecord>, id: string): (p: nat)
    requires id in RecordIds(rs)
    ensures FirstAt(rs, id, p)
  {
    FirstExists(rs, id);
    var p: nat :| FirstAt(rs, id, p); p
  }

  /** A record appended at the end does not move the first occurrence of an id already present. */
  lemma FirstSnoc(rs: seq<TransactionRecord>, r: TransactionRecord, id: string)
    requires id in RecordIds(rs)
    ensures id in RecordIds(rs + [r]) && First(rs + [r], id) == First(rs, id)
  {
    RecordIdsSnoc(rs, r);
    var p, p0 := First(rs + [r], id), First(rs, id);
    assert FirstAt(rs + [r], id, p0) by {
      assert (rs + [r])[p0] == rs[p0];
      assert forall q | 0 <= q < p0 :: (rs + [r])[q] == rs[q];
    }
    FirstUnique(rs + [r], id, p, p0);
  }

  /**
   * The iteration order of that index (a `LinkedHashMap`): every id once, in
   * the order of the ids' first occurrences (`KeyOrderFirst`).
   */
  function KeyOrder(rs: seq<TransactionRecord>): (ids: seq<string>)
    ensures Distinct(ids)
    ensures forall id :: id in ids <==> id in RecordIds(rs)
    decreases |rs|
  {
    if rs == [] then []
    else
      var init, last := rs[..|rs| - 1], rs[|rs| - 1];
      assert rs == init + [last];
      RecordIdsSnoc(init, last);
      var ids := KeyOrder(init);
      if last.transactionId in ids then ids else ids + [last.transactionId]
  }

  /** The index order lists the ids by their first occurrence. */
  lemma {:induction false} KeyOrderFirst(rs: seq<TransactionRecord>)
    ensures forall i, j | 0 <= i < j < |KeyOrder(rs)| :: First(rs, KeyOrder(rs)[i]) < First(rs, KeyOrder(rs)[j])
    decreases |rs|
  {
    if rs != [] {
      var init, last := rs[..|rs| - 1], rs[|rs| - 1];
      assert rs == init + [last];
      KeyOrderFirst(init);
      var ids := KeyOrder(init);
      var ks := KeyOrder(rs);
      assert ks == if last.transactionId in ids then ids else ids + [last.transactionId];
      forall i, j | 0 <= i < j < |ks| ensures First(rs, ks[i]) < First(rs, ks[j]) {
        assert ks[i] == ids[i] && ids[i] in RecordIds(init);
        FirstSnoc(init, last, ids[i]);
        var a := First(init, ids[i]);
        assert First(rs, ks[i]) == a < |init|;
        if j < |ids| {
          assert ks[j] == ids[j] && ids[j] in RecordIds(init);
          FirstSnoc(init, last, ids[j]);
          assert First(rs, ks[j]) == First(init, ids[j]);
        } else {
          assert ks[j] == last.transactionId && last.transactionId !in RecordIds(init);
          FirstOfNew(init, last);
          assert First(rs, ks[j]) == |init|;
        }
      }
    }
  }

  /** An id that first appears in the appended record first occurs there. */
  lemma FirstOfNew(rs: seq<TransactionRecord>, r: TransactionRecord)
    requires r.transactionId !in RecordIds(rs)
    ensures r.transactionId in RecordIds(rs + [r]) && First(rs + [r], r.transactionId) == |rs|
  {
    RecordIdsSnoc(rs, r);
    var p := First(rs + [r], r.transactionId);
    assert FirstAt(rs + [r], r.transactionId, |rs|) by {
      forall q | 0 <= q < |rs| ensures (rs + [r])[q].transactionId != r.transactionId {
        assert (rs + [r])[q] == rs[q];
      }
    }
    FirstUnique(rs + [r], r.transactionId, p, |rs|);
  }

  /** With distinct ids, the index order is the list order and each id maps to its own record. */
  lemma {:induction false} DistinctIndex(rs: seq<TransactionRecord>)
    requires DistinctIds(rs)
    ensures |KeyOrder(rs)| == |rs|
    ensures forall i | 0 <= i < |rs| :: KeyOrder(rs)[i] == rs[i].transactionId && Index(rs)[rs[i].transactionId] == rs[i]
    decreases |rs|
  {
    if rs != [] {
      var init, last := rs[..|rs| - 1], rs[|rs| - 1];
      assert rs == init + [last];
      DistinctIndex(init);
      assert last.transactionId !in RecordIds(init) by {
        forall i | 0 <= i < |init| ensures init[i].transactionId != last.transactionId {
          assert init[i] == rs[i];
        }
      }
    }
  }

  /**
   * The records of `from` under the ids, in order, whose id is present in
   * `other` (`present`) or absent from it (`!present`).
   */
  function Select(ids: seq<string>, from: map<string, TransactionRecord>, other: map<string, TransactionRecord>, present: bool): (rs: seq<TransactionRecord>)
    requires forall id | id in ids :: id in from
    ensures |rs| <= |ids|
    decreases |ids|
  {
    if ids == [] then []
    else
      var init, id := ids[..|ids| - 1], ids[|ids| - 1];
      assert ids == init + [id];
      Select(init, from, other, present) + (if (id in other) == present then [from[id]] else [])
  }

  /** The last of distinct ids does not occur before it. */
  lemma DistinctLast(ids: seq<string>)
    requires ids != [] && Distinct(ids)
    ensures ids[|ids| - 1] !in ids[..|ids| - 1]
  {
    var init := ids[..|ids| - 1];
    forall k | 0 <= k < |init| ensures init[k] != ids[|ids| - 1] {
      assert ids[k] == init[k];
    }
  }

  /** The selected records carry exactly the selected ids, each the indexed record for its id. */
  lemma {:induction false} SelectIdSet(ids: seq<string>, from: map<string, TransactionRecord>, other: map<string, TransactionRecord>, present: bool)
    requires forall id | id in ids :: id in from && from[id].transactionId == id
    ensures var rs := Select(ids, from, other, present);
      && RecordIds(rs) == (set id | id in ids && (id in other) == present)
      && (forall i | 0 <= i < |rs| :: rs[i].transactionId in from && from[rs[i].transactionId] == rs[i])
    decreases |ids|
  {
    if ids != [] {
      var init, id := ids[..|ids| - 1], ids[|ids| - 1];
      assert ids == init + [id];
      SelectIdSet(init, from, other, present);
      var prev := Select(init, from, other, present);
      assert forall x :: x in ids <==> x in init || x == id;
      assert (set x | x in ids && (x in other) == present) ==
        (set x | x in init && (x in other) == present) + (if (id in other) == present then {id} else {});
      if (id in other) == present {
        assert Select(ids, from, other, present) == prev + [from[id]];
        RecordIdsSnoc(prev, from[id]);
      } else {
        assert Select(ids, from, other, present) == prev;
      }
    }
  }

  /** Selecting from an index by distinct ids gives records with distinct ids. */
  lemma {:induction false} SelectDistinct(ids: seq<string>, from: map<string, TransactionRecord>, other: map<string, TransactionRecord>, present: bool)
    requires forall id | id in ids :: id in from && from[id].transactionId == id
    requires Distinct(ids)
    ensures DistinctIds(Select(ids, from, other, present))
    decreases |ids|
  {
    if ids != [] {
      var init, id := ids[..|ids| - 1], ids[|ids| - 1];
      assert ids == init + [id];
      SelectDistinct(init, from, other, present);
      var prev := Select(init, from, other, present);
      if (id in other) == present {
        assert Select(ids, from, other, present) == prev + [from[id]];
        SelectIdSet(init, from, other, present);
        DistinctLast(ids);
        forall i | 0 <= i < |prev| ensures prev[i].transactionId != id {
          assert prev[i].transactionId in RecordIds(prev);
        }
      } else {
        assert Select(ids, from, other, present) == prev;
      }
    }
  }

  /** Every id lands on exactly one side of the present/absent split. */
  lemma {:induction false} SelectSizes(ids: seq<string>, from: map<string, TransactionRecord>, other: map<string, TransactionRecord>)
    requires forall id | id in ids :: id in from
    ensures |Select(ids, from, other, true)| + |Select(ids, from, other, false)| == |ids|
    decreases |ids|
  {
    if ids != [] {
      var init := ids[..|ids| - 1];
      assert ids == init + [ids[|ids| - 1]];
      SelectSizes(init, from, other);
    }
  }

  /** The discrepancy that reports column `f` with the database value and the external value. */
  function Report(id: string, f: Field, db: TransactionRecord, ext: TransactionRecord): TransactionDiscrepancy {
    TransactionDiscrepancy(id, f.Name(), f.Of(db), f.Of(ext))
  }

  /** The discrepancy on one column: one entry when the records differ there, none otherwise. */
  function Check(id: string, f: Field, db: TransactionRecord, ext: TransactionRecord): seq<TransactionDiscrepancy> {
    if f.Of(db) != f.Of(ext) then [Report(id, f, db, ext)] else []
  }

  /**
   * The discrepancies between two records carrying id `id`: one per compared
   * column on which they differ, in the order wallet, type, amount,
   * currency, status.
   */
  function Discrepancies(id: string, db: TransactionRecord, ext: TransactionRecord): seq<TransactionDiscrepancy> {
    Check(id, WalletIdField, db, ext) + Check(id, TypeField, db, ext) + Check(id, AmountField, db, ext)
    + Check(id, CurrencyField, db, ext) + Check(id, StatusField, db, ext)
  }

  /**
   * A column is reported exactly when the records differ on it, with the
   * database value and the external value, and nothing else is reported.
   */
  lemma DiscrepanciesExact(id: string, db: TransactionRecord, ext: TransactionRecord)
    ensures var ds := Discrepancies(id, db, ext);
      && (forall f: Field :: Report(id, f, db, ext) in ds <==> f.Of(db) != f.Of(ext))
      && (forall d | d in ds :: exists f: Field :: f.Of(db) != f.Of(ext) && d == Report(id, f, db, ext))
      && |ds| <= 5
  {
    var ds := Discrepancies(id, db, ext);
    var c0, c1, c2 := Check(id, WalletIdField, db, ext), Check(id, TypeField, db, ext), Check(id, AmountField, db, ext);
    var c3, c4 := Check(id, CurrencyField, db, ext), Check(id, StatusField, db, ext);
    assert ds == c0 + c1 + c2 + c3 + c4;
    forall f: Field ensures Report(id, f, db, ext) in ds <==> f.Of(db) != f.Of(ext) {
      var r := Report(id, f, db, ext);
      assert r in c0 ==> f == WalletIdField;
      assert r in c1 ==> f == TypeField;
      assert r in c2 ==> f == AmountField;
      assert r in c3 ==> f == CurrencyField;
      assert r in c4 ==> f == StatusField;
      assert r in ds <==> r in c0 || r in c1 || r in c2 || r in c3 || r in c4;
    }
    forall d | d in ds ensures exists f: Field :: f.Of(db) != f.Of(ext) && d == Report(id, f, db, ext) {
      assert d in c0 || d in c1 || d in c2 || d in c3 || d in c4;
      if d in c0 {
        assert d == Report(id, WalletIdField, db, ext);
      } else if d in c1 {
        assert d == Report(id, TypeField, db, ext);
      } else if d in c2 {
        assert d == Report(id, AmountField, db, ext);
      } else if d in c3 {
        assert d == Report(id, CurrencyField, db, ext);
      } else {
        assert d == Report(id, StatusField, db, ext);
      }
    }
  }

  /** `areTransactionsEqual`: equal wallet, type, amount, currency and status. */
  function AreTransactionsEqual(a: TransactionRecord, b: TransactionRecord): (equal: bool)
    ensures equal <==> forall f: Field :: f.Of(a) == f.Of(b)
  {
    FieldsAgree(a, b);
    && a.walletId == b.walletId
    && a.kind == b.kind
    && a.amount == b.amount
    && a.currency == b.currency
    && a.status == b.status
  }

  /** Two records agree on every compared column exactly when they agree on each of the five. */
  lemma FieldsAgree(a: TransactionRecord, b: TransactionRecord)
    ensures (forall f: Field :: f.Of(a) == f.Of(b)) <==>
      (a.walletId == b.walletId && a.kind == b.kind && a.amount == b.amount && a.currency == b.currency && a.status == b.status)
  {
    if forall f: Field :: f.Of(a) == f.Of(b) {
      assert WalletIdField.Of(a) == WalletIdField.Of(b) && TypeField.Of(a) == TypeField.Of(b);
      assert AmountField.Of(a) == AmountField.Of(b) && CurrencyField.Of(a) == CurrencyField.Of(b);
      assert StatusField.Of(a) == StatusField.Of(b);
    }
  }

  /** Records are equal exactly when comparing them finds no discrepancy. */
  lemma EqualIffNoDiscrepancies(id: string, a: TransactionRecord, b: TransactionRecord)
    ensures AreTransactionsEqual(a, b) <==> Discrepancies(id, a, b) == []
  {
    DiscrepanciesExact(id, a, b);
    if Discrepancies(id, a, b) == [] {
      assert WalletIdField.Of(a) == WalletIdField.Of(b);
      assert TypeField.Of(a) == TypeField.Of(b);
      assert AmountField.Of(a) == AmountField.Of(b);
      assert CurrencyField.Of(a) == CurrencyField.Of(b);
      assert StatusField.Of(a) == StatusField.Of(b);
    }
  }

  /** Neither the reference nor the timestamp is ever compared. */
  lemma ReferenceAndTimestampIgnored(id: string, a: TransactionRecord, b: TransactionRecord,
                                     ref1: Option<string>, ts1: string, ref2: Option<string>, ts2: string)
    ensures var a', b' := a.(referenceId := ref1, timestamp := ts1), b.(referenceId := ref2, timestamp := ts2);
      && (AreTransactionsEqual(a', b') <==> AreTransactionsEqual(a, b))
      && Discrepancies(id, a', b') == Discrepancies(id, a, b)
  {
  }

  /** Records that differ in amount only yield exactly one discrepancy, on the amount. */
  lemma OnlyAmountDiffers(id: string, a: TransactionRecord, b: TransactionRecord)
    requires a.walletId == b.walletId && a.kind == b.kind && a.currency == b.currency && a.status == b.status
    requires a.amount != b.amount
    ensures Discrepancies(id, a, b) == [TransactionDiscrepancy(id, "amount", a.amount, b.amount)]
  {
  }

  /** `findDiscrepancies`: five checks in column order, each appending when the column differs. */
  method FindDiscrepancies(id: string, dbTx: TransactionRecord, extTx: TransactionRecord) returns (discrepancies: seq<TransactionDiscrepancy>)
    ensures discrepancies == Discrepancies(id, dbTx, extTx)
  {
    discrepancies := [];
    if dbTx.walletId != extTx.walletId {
      discrepancies := discrepancies + [TransactionDiscrepancy(id, "walletId", dbTx.walletId, extTx.walletId)];
    }
    assert discrepancies == Check(id, WalletIdField, dbTx, extTx);
    if dbTx.kind != extTx.kind {
      discrepancies := discrepancies + [TransactionDiscrepancy(id, "type", dbTx.kind, extTx.kind)];
    }
    assert discrepancies == Check(id, WalletIdField, dbTx, extTx) + Check(id, TypeField, dbTx, extTx);
    if dbTx.amount != extTx.amount {
      discrepancies := discrepancies + [TransactionDiscrepancy(id, "amount", dbTx.amount, extTx.amount)];
    }
    assert discrepancies == Check(id, WalletIdField, dbTx, extTx) + Check(id, TypeField, dbTx, extTx)
                            + Check(id, AmountField, dbTx, extTx);
    if dbTx.currency != extTx.currency {
      discrepancies := discrepancies + [TransactionDiscrepancy(id, "currency", dbTx.currency, extTx.currency)];
    }
    assert discrepancies == Check(id, WalletIdField, dbTx, extTx) + Check(id, TypeField, dbTx, extTx)
                            + Check(id, AmountField, dbTx, extTx) + Check(id, CurrencyField, dbTx, extTx);
    if dbTx.status != extTx.status {
      discrepancies := discrepancies + [TransactionDiscrepancy(id, "status", dbTx.status, extTx.status)];
    }
  }

  /** The discrepancies of every id in `ids` that `ext` also holds, in order. */
  function AllDiscrepancies(ids: seq<string>, db: map<string, TransactionRecord>, ext: map<string, TransactionRecord>): seq<TransactionDiscrepancy>
    requires forall id | id in ids :: id in db
    decreases |ids|
  {
    if ids == [] then []
    else
      var init, id := ids[..|ids| - 1], ids[|ids| - 1];
      assert ids == init + [id];
      AllDiscrepancies(init, db, ext) + (if id in ext then Discrepancies(id, db[id], ext[id]) else [])
  }

  /** Ids whose records agree on both sides contribute no discrepancy. */
  lemma {:induction false} AllDiscrepanciesNone(ids: seq<string>, db: map<string, TransactionRecord>, ext: map<string, TransactionRecord>)
    requires forall id | id in ids :: id in db
    requires forall i | 0 <= i < |ids| && ids[i] in ext :: Discrepancies(ids[i], db[ids[i]], ext[ids[i]]) == []
    ensures AllDiscrepancies(ids, db, ext) == []
    decreases |ids|
  {
    if ids != [] {
      var init := ids[..|ids| - 1];
      assert forall i | 0 <= i < |init| :: init[i] == ids[i];
      AllDiscrepanciesNone(init, db, ext);
    }
  }

  /** When only the id at position `j` differs, its discrepancies are all there are. */
  lemma {:induction false} AllDiscrepanciesAt(ids: seq<string>, db: map<string, TransactionRecord>, ext: map<string, TransactionRecord>, j: nat)
    requires forall id | id in ids :: id in db
    requires j < |ids| && ids[j] in ext
    requires forall i | 0 <= i < |ids| && i != j && ids[i] in ext :: Discrepancies(ids[i], db[ids[i]], ext[ids[i]]) == []
    ensures AllDiscrepancies(ids, db, ext) == Discrepancies(ids[j], db[ids[j]], ext[ids[j]])
    decreases |ids|
  {
    var init := ids[..|ids| - 1];
    assert forall i | 0 <= i < |init| :: init[i] == ids[i];
    if j == |ids| - 1 {
      AllDiscrepanciesNone(init, db, ext);
    } else {
      AllDiscrepanciesAt(init, db, ext, j);
    }
  }

  lemma SelectStep(ids: seq<string>, i: nat, from: map<string, TransactionRecord>, other: map<string, TransactionRecord>, present: bool)
    requires i < |ids|
    requires forall id | id in ids :: id in from
    ensures forall id | id in ids[..i + 1] :: id in from
    ensures Select(ids[..i + 1], from, other, present) ==
      Select(ids[..i], from, other, present) + (if (ids[i] in other) == present then [from[ids[i]]] else [])
    ensures AllDiscrepancies(ids[..i + 1], from, other) ==
      AllDiscrepancies(ids[..i], from, other) + (if ids[i] in other then Discrepancies(ids[i], from[ids[i]], other[ids[i]]) else [])
  {
    assert ids[..i + 1][..i] == ids[..i];
  }

  /**
   * The id sets of the three lists: the common ids, the report's own ids
   * and the external list's own ids, each list without repeated ids; and
   * with distinct report ids, every report record is either matched or
   * missing externally.
   */
  lemma PartitionIds(internal: seq<TransactionRecord>, external: seq<TransactionRecord>)
    ensures var db, ext := Index(internal), Index(external);
      var matched := Select(KeyOrder(internal), db, ext, true);
      var missingInExternal := Select(KeyOrder(internal), db, ext, false);
      var missingInDb := Select(KeyOrder(external), ext, db, false);
      && RecordIds(matched) == RecordIds(internal) * RecordIds(external)
      && RecordIds(missingInExternal) == RecordIds(internal) - RecordIds(external)
      && RecordIds(missingInDb) == RecordIds(external) - RecordIds(internal)
      && DistinctIds(matched) && DistinctIds(missingInExternal) && DistinctIds(missingInDb)
      && (DistinctIds(internal) ==> |matched| + |missingInExternal| == |internal|)
  {
    SideIds(internal, external, true);
    SideIds(internal, external, false);
    SideIds(external, internal, false);
    SelectSizes(KeyOrder(internal), Index(internal), Index(external));
    if DistinctIds(internal) {
      DistinctIndex(internal);
    }
  }

  /**
   * The three lists' id sets are pairwise disjoint and together cover the
   * ids of both inputs.
   */
  lemma PartitionCovers(internal: seq<TransactionRecord>, external: seq<TransactionRecord>)
    ensures var db, ext := Index(internal), Index(external);
      var m := RecordIds(Select(KeyOrder(internal), db, ext, true));
      var mx := RecordIds(Select(KeyOrder(internal), db, ext, false));
      var md := RecordIds(Select(KeyOrder(external), ext, db, false));
      && m * mx == {} && m * md == {} && mx * md == {}
      && m + mx + md == RecordIds(internal) + RecordIds(external)
  {
    PartitionIds(internal, external);
    var db, ext := Index(internal), Index(external);
    ThreeWay(RecordIds(internal), RecordIds(external),
             RecordIds(Select(KeyOrder(internal), db, ext, true)),
             RecordIds(Select(KeyOrder(internal), db, ext, false)),
             RecordIds(Select(KeyOrder(external), ext, db, false)));
  }

  /** Intersection and the two differences split a union three ways. */
  lemma ThreeWay<K>(a: set<K>, b: set<K>, m: set<K>, mx: set<K>, md: set<K>)
    requires m == a * b && mx == a - b && md == b - a
    ensures m * mx == {} && m * md == {} && mx * md == {} && m + mx + md == a + b
  {
  }

  /** One side of the split: the ids of `rs` that `others` has too (`present`) or lacks. */
  lemma SideIds(rs: seq<TransactionRecord>, others: seq<TransactionRecord>, present: bool)
    ensures var from, other := Index(rs), Index(others);
      var side := Select(KeyOrder(rs), from, other, present);
      && RecordIds(side) == (if present then RecordIds(rs) * RecordIds(others) else RecordIds(rs) - RecordIds(others))
      && DistinctIds(side)
  {
    var from, other := Index(rs), Index(others);
    var order := KeyOrder(rs);
    SelectIdSet(order, from, other, present);
    SelectDistinct(order, from, other, present);
    assert (set id | id in order && (id in other) == present)
        == (if present then RecordIds(rs) * RecordIds(others) else RecordIds(rs) - RecordIds(others));
  }

  /**
   * Matches the report records `internal` against `externalTransactions` by
   * id. Each report id also in the external list is matched and its
   * differing fields reported; report ids absent externally are missing in
   * the external list, external ids absent from the report missing in the
   * database.
   */
  method MatchRecords(date: Day, internal: seq<TransactionRecord>, externalTransactions: seq<TransactionRecord>)
    returns (result: ReconciliationResult)
    ensures var db, ext := Index(internal), Index(externalTransactions);
      && result.date == date
      && result.matched == Select(KeyOrder(internal), db, ext, true)
      && result.missingInExternal == Select(KeyOrder(internal), db, ext, false)
      && result.missingInDb == Select(KeyOrder(externalTransactions), ext, db, false)
      && result.discrepancies == AllDiscrepancies(KeyOrder(internal), db, ext)
  {
    var dbTransactions := Index(internal);
    var extTransactions := Index(externalTransactions);
    var order := KeyOrder(internal);
    var matched: seq<TransactionRecord> := [];
    var discrepancies: seq<TransactionDiscrepancy> := [];
    for i := 0 to |order|
      invariant matched == Select(order[..i], dbTransactions, extTransactions, true)
      invariant discrepancies == AllDiscrepancies(order[..i], dbTransactions, extTransactions)
    {
      var id := order[i];
      var dbTx := dbTransactions[id];
      SelectStep(order, i, dbTransactions, extTransactions, true);
      if id in extTransactions {
        var extTx := extTransactions[id];
        if AreTransactionsEqual(dbTx, extTx) {
          EqualIffNoDiscrepancies(id, dbTx, extTx);
          matched := matched + [dbTx];
        } else {
          matched := matched + [dbTx];
          var found := FindDiscrepancies(id, dbTx, extTx);
          discrepancies := discrepancies + found;
        }
      }
    }
    assert order[..|order|] == order;
    var missingInExternal := Select(order, dbTransactions, extTransactions, false);
    var missingInDb := Select(KeyOrder(externalTransactions), extTransactions, dbTransactions, false);
    result := ReconciliationResult(date, matched, missingInDb, missingInExternal, discrepancies);
  }

  /** Reconciles the day's report, as `GenerateDailyReport` builds it, against `externalTransactions`. */
  method ReconcileTransactions(date: Day, ledger: seq<Transaction>, wallets: map<Uuid, Wallet>,
                               externalTransactions: seq<TransactionRecord>) returns (result: ReconciliationResult)
    ensures var internal := DailyRecords(date, ledger, wallets);
      var db, ext := Index(internal), Index(externalTransactions);
      && result.date == date
      && result.matched == Select(KeyOrder(internal), db, ext, true)
      && result.missingInExternal == Select(KeyOrder(internal), db, ext, false)
      && result.missingInDb == Select(KeyOrder(externalTransactions), ext, db, false)
      && result.discrepancies == AllDiscrepancies(KeyOrder(internal), db, ext)
  {
    var dbReport := Summary.GenerateDailyReport(date, ledger, wallets);
    result := MatchRecords(date, dbReport.transactions, externalTransactions);
  }
}
