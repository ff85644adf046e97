/**
 * The CSV form of a daily report: a fixed header line, then one
 * comma-separated line per record, lines separated by a newline with none
 * after the last. Fields are written as they are, without quoting.
 */
module Csv {
  import opened Wrappers
  import opened Records

  const Header: string := "TransactionId,WalletId,Type,Amount,Currency,Status,ReferenceId,Timestamp\n"

  /** The eight columns of a record, a missing reference as the empty string. */
  function Fields(r: TransactionRecord): (fs: seq<string>)
    ensures |fs| == 8
    ensures r.referenceId.None? ==> fs[6] == ""
    ensures r.referenceId.Some? ==> fs[6] == r.referenceId.value
  {
    [r.transactionId, r.walletId, r.kind, r.amount, r.currency, r.status, r.referenceId.GetOr(""), r.timestamp]
  }

  /** `joinToString(sep)` */
  function Join(sep: char, parts: seq<string>): string
    decreases |parts|
  {
    if parts == [] then ""
    else if |parts| == 1 then parts[0]
    else parts[0] + [sep] + Join(sep, parts[1..])
  }

  /** Cuts `s` at every `sep`; the text without any `sep` is one part. */
  function Split(sep: char, s: string): (parts: seq<string>)
    ensures |parts| >= 1
    decreases |s|
  {
    if s == [] then [""]
    else
      var rest := Split(sep, s[1..]);
      if s[0] == sep then [""] + rest else [[s[0]] + rest[0]] + rest[1..]
  }

  lemma {:induction false} SplitPlain(sep: char, a: string)
    requires sep !in a
    ensures Split(sep, a) == [a]
    decreases |a|
  {
    if a != [] {
      SplitPlain(sep, a[1..]);
      assert [a[0]] + a[1..] == a;
    }
  }

  lemma {:induction false} SplitAfterPlain(sep: char, a: string, t: string)
    requires sep !in a
    ensures Split(sep, a + [sep] + t) == [a] + Split(sep, t)
    decreases |a|
  {
    if a == [] {
      assert a + [sep] + t == [sep] + t;
      assert ([sep] + t)[1..] == t;
    } else {
      var s := a + [sep] + t;
      assert s[1..] == a[1..] + [sep] + t;
      SplitAfterPlain(sep, a[1..], t);
      assert [a[0]] + a[1..] == a;
    }
  }

  /** Joining parts that do not contain the separator and splitting again gives the parts back. */
  lemma {:induction false} SplitJoin(sep: char, parts: seq<string>)
    requires |parts| >= 1
    requires forall i | 0 <= i < |parts| :: sep !in parts[i]
    ensures Split(sep, Join(sep, parts)) == parts
    decreases |parts|
  {
    if |parts| == 1 {
      SplitPlain(sep, parts[0]);
    } else {
      SplitJoin(sep, parts[1..]);
      SplitAfterPlain(sep, parts[0], Join(sep, parts[1..]));
      assert [parts[0]] + parts[1..] == parts;
    }
  }

  function Line(r: TransactionRecord): string {
    Join(',', Fields(r))
  }

  function Lines(rs: seq<TransactionRecord>): (ls: seq<string>)
    ensures |ls| == |rs|
  {
    seq(|rs|, i requires 0 <= i < |rs| => Line(rs[i]))
  }

  /** The header line, then the records' lines joined by newlines. */
  function ConvertToCsv(report: DailyTransactionReport): (csv: string)
    ensures |csv| >= |Header| && csv[..|Header|] == Header
    ensures report.transactions == [] ==> csv == Header
  {
    Header + Join('\n', Lines(report.transactions))
  }

  /** No column of the record contains a comma or a line break. */
  predicate Plain(r: TransactionRecord) {
    forall i | 0 <= i < 8 :: ',' !in Fields(r)[i] && '\n' !in Fields(r)[i]
  }

  lemma {:induction false} JoinWithout(sep: char, c: char, parts: seq<string>)
    requires c != sep
    requires forall i | 0 <= i < |parts| :: c !in parts[i]
    ensures c !in Join(sep, parts)
    decreases |parts|
  {
    if |parts| > 1 {
      JoinWithout(sep, c, parts[1..]);
    }
  }

  /**
   * When no column holds a comma or a line break, the text after the header
   * splits into one line per record, in order, and each line splits back
   * into that record's eight columns.
   */
  lemma CsvLayout(report: DailyTransactionReport)
    ensures report.transactions != [] && (forall i | 0 <= i < |report.transactions| :: Plain(report.transactions[i])) ==>
      var rows := Split('\n', ConvertToCsv(report)[|Header|..]);
      && |rows| == |report.transactions|
      && forall i | 0 <= i < |rows| :: Split(',', rows[i]) == Fields(report.transactions[i])
  {
    var rs := report.transactions;
    var csv := ConvertToCsv(report);
    assert csv[|Header|..] == Join('\n', Lines(rs));
    if rs != [] && (forall i | 0 <= i < |rs| :: Plain(rs[i])) {
      forall i | 0 <= i < |rs| ensures '\n' !in Lines(rs)[i] && Split(',', Lines(rs)[i]) == Fields(rs[i]) {
        JoinWithout(',', '\n', Fields(rs[i]));
        SplitJoin(',', Fields(rs[i]));
      }
      SplitJoin('\n', Lines(rs));
    }
  }

  /** A part holding the separator joins to the same text as its two halves. */
  lemma {:induction false} JoinSplice(sep: char, p: seq<string>, x: string, y: string, q: seq<string>)
    requires q != []
    ensures Join(sep, p + [x + [sep] + y] + q) == Join(sep, p + [x, y] + q)
    decreases |p|
  {
    if p == [] {
      assert p + [x + [sep] + y] + q == [x + [sep] + y] + q;
      assert p + [x, y] + q == [x] + ([y] + q);
      assert ([x] + ([y] + q))[1..] == [y] + q;
      assert ([y] + q)[1..] == q;
      assert ([x + [sep] + y] + q)[1..] == q;
    } else {
      JoinSplice(sep, p[1..], x, y, q);
      assert (p + [x + [sep] + y] + q)[1..] == p[1..] + [x + [sep] + y] + q;
      assert (p + [x, y] + q)[1..] == p[1..] + [x, y] + q;
    }
  }

  /**
   * Columns are not quoted: a reference holding a comma spreads one record
   * over nine columns.
   */
  lemma CommaInReferenceAddsColumn(r: TransactionRecord, a: string, b: string)
    requires Plain(r.(referenceId := None))
    requires ',' !in a && ',' !in b
    requires r.referenceId == Some(a + "," + b)
    ensures |Split(',', Line(r))| == 9
  {
    var fs := [r.transactionId, r.walletId, r.kind, r.amount, r.currency, r.status, a, b, r.timestamp];
    assert Fields(r.(referenceId := None))[6] == "";
    JoinSplice(',', Fields(r)[..6], a, b, [r.timestamp]);
    assert Fields(r) == Fields(r)[..6] + [a + [','] + b] + [r.timestamp];
    assert fs == Fields(r)[..6] + [a, b] + [r.timestamp];
    forall i | 0 <= i < 9 ensures ',' !in fs[i] {
      assert i < 6 ==> fs[i] == Fields(r.(referenceId := None))[i];
      assert i == 8 ==> fs[i] == Fields(r.(referenceId := None))[7];
    }
    SplitJoin(',', fs);
  }
}
