/**
 * The persisted state the pipeline shares: the three SQLite tables
 * `clickstream_raw`, `ingest_audit` and `dq_monthly` (as one object whose
 * fields the steps update), the row filters the scripts run against
 * `clickstream_raw`, and the `*.tsv` pattern used on the raw directory.
 */
module Storage {
  import opened Wrappers
  import opened Text

  /** A row of `clickstream_raw`. */
  datatype RawRow = RawRow(prev: string, curr: string, kind: string, n: int, loadMonth: string)

  datatype Status = Success | Failed

  /** A row of `ingest_audit`; `id` is the auto-incremented key. */
  datatype AuditEntry = AuditEntry(
    id: nat,
    loadMonth: string,
    sourceFile: string,
    insertedRows: nat,
    skippedLines: nat,
    startedAt: string,
    endedAt: string,
    status: Status)

  /**
   * A row of `dq_monthly` without its key. Rates are exact ratios; a NaN
   * null rate (the mean over no rows) is `None`.
   */
  datatype Summary = Summary(
    rowCount: nat,
    nullRate: Option<real>,
    duplicateRate: real,
    rangeErrorRate: real,
    schemaValid: bool)

  /** `SELECT ... FROM clickstream_raw WHERE load_month = month`, in stored order. */
  function MonthRows(raw: seq<RawRow>, month: string): (r: seq<RawRow>)
    ensures |r| <= |raw|
    ensures forall x :: x in r <==> x in raw && x.loadMonth == month
  {
    if raw == [] then []
    else (if raw[0].loadMonth == month then [raw[0]] else []) + MonthRows(raw[1..], month)
  }

  /** `DELETE FROM clickstream_raw WHERE load_month = month`: the survivors keep their order. */
  function DeleteMonth(raw: seq<RawRow>, month: string): (r: seq<RawRow>)
    ensures |r| <= |raw|
    ensures forall x :: x in r <==> x in raw && x.loadMonth != month
  {
    if raw == [] then []
    else (if raw[0].loadMonth != month then [raw[0]] else []) + DeleteMonth(raw[1..], month)
  }

  /** `SELECT COUNT(*) FROM clickstream_raw WHERE load_month = month`. */
  function CountMonth(raw: seq<RawRow>, month: string): nat {
    |MonthRows(raw, month)|
  }

  lemma {:induction false} MonthRowsAppend(a: seq<RawRow>, b: seq<RawRow>, month: string)
    ensures MonthRows(a + b, month) == MonthRows(a, month) + MonthRows(b, month)
  {
    if a != [] {
      assert (a + b)[1..] == a[1..] + b;
      MonthRowsAppend(a[1..], b, month);
    } else {
      assert a + b == b;
    }
  }

  lemma {:induction false} DeleteMonthAppend(a: seq<RawRow>, b: seq<RawRow>, month: string)
    ensures DeleteMonth(a + b, month) == DeleteMonth(a, month) + DeleteMonth(b, month)
  {
    if a != [] {
      assert (a + b)[1..] == a[1..] + b;
      DeleteMonthAppend(a[1..], b, month);
    } else {
      assert a + b == b;
    }
  }

  /** After the delete nothing of that month is left, and every other month reads as before. */
  lemma {:induction false} MonthRowsAfterDelete(raw: seq<RawRow>, deleted: string, month: string)
    ensures MonthRows(DeleteMonth(raw, deleted), month)
         == if month == deleted then [] else MonthRows(raw, month)
  {
    if raw != [] {
      MonthRowsAfterDelete(raw[1..], deleted, month);
      var head := if raw[0].loadMonth != deleted then [raw[0]] else [];
      MonthRowsAppend(head, DeleteMonth(raw[1..], deleted), month);
    }
  }

  /** Rows that all carry one month: selecting it gives them all, deleting it removes them all. */
  lemma {:induction false} SingleMonthRows(rows: seq<RawRow>, month: string, other: string)
    requires forall i | 0 <= i < |rows| :: rows[i].loadMonth == month
    requires other != month
    ensures MonthRows(rows, month) == rows
    ensures MonthRows(rows, other) == []
    ensures DeleteMonth(rows, month) == []
  {
    if rows != [] {
      SingleMonthRows(rows[1..], month, other);
      assert rows == [rows[0]] + rows[1..];
    }
  }

  /** Deleting a month twice is deleting it once. */
  lemma {:induction false} DeleteMonthIdempotent(raw: seq<RawRow>, month: string)
    ensures DeleteMonth(DeleteMonth(raw, month), month) == DeleteMonth(raw, month)
  {
    if raw != [] {
      DeleteMonthIdempotent(raw[1..], month);
      var head := if raw[0].loadMonth != month then [raw[0]] else [];
      DeleteMonthAppend(head, DeleteMonth(raw[1..], month), month);
    }
  }

  /** `RAW_DIR.glob("*.tsv")` keeps the names ending in ".tsv". */
  predicate IsTsv(name: string) {
    EndsWith(name, ".tsv")
  }

  /** The autoincrement ids of an audit table: 1, 2, 3, ... in insertion order. */
  predicate Numbered(audit: seq<AuditEntry>) {
    forall i | 0 <= i < |audit| :: audit[i].id == i + 1
  }

  /** The SQLite database: raw facts, the audit trail and the monthly summaries. */
  class Db {
    var raw: seq<RawRow>
    var audit: seq<AuditEntry>
    var dq: map<string, Summary>

    /** Audit ids are handed out 1, 2, 3, ... in insertion order. */
    ghost predicate Valid()
      reads this
    {
      Numbered(audit)
    }

    constructor ()
      ensures Valid()
      ensures raw == [] && audit == [] && dq == map[]
    {
      raw := [];
      audit := [];
      dq := map[];
    }
  }
}
