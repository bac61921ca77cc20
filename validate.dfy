/**
 * `pipeline/validate.py`: read one month back from the raw table, turn blank
 * text cells into missing values, compute the data-quality summary and
 * upsert it into `dq_monthly` under the month's key.
 */
module Validate {
  import opened Wrappers
  import opened Text
  import opened Storage

  // ---------------------------------------------------------------------------
  // Frames
  // ---------------------------------------------------------------------------

  datatype Column = Prev | Curr | Type | N

  /** The columns `compute_quality` requires. */
  const CoreColumns: set<Column> := {Prev, Curr, Type, N}

  /** The text columns `inject_null_for_demo` rewrites, in its order. */
  const TextColumns: seq<Column> := [Prev, Curr, Type]

  /** One row of a frame; a missing cell (NA) is None. */
  datatype Obs = Obs(prev: Option<string>, curr: Option<string>, kind: Option<string>, n: Option<int>)

  /**
   * A data frame: the columns it has and its rows. A cell of a column the
   * frame does not have is never read.
   */
  datatype Frame = Frame(columns: set<Column>, rows: seq<Obs>)

  function TextCell(r: Obs, c: Column): Option<string>
    requires c != N
  {
    match c
    case Prev => r.prev
    case Curr => r.curr
    case Type => r.kind
  }

  function WithTextCell(r: Obs, c: Column, v: Option<string>): (r': Obs)
    requires c != N
    ensures TextCell(r', c) == v && r'.n == r.n
    ensures forall d | d != N && d != c :: TextCell(r', d) == TextCell(r, d)
  {
    match c
    case Prev => r.(prev := v)
    case Curr => r.(curr := v)
    case Type => r.(kind := v)
  }

  /** `read_month`: the month's rows with the four core columns, in stored order. */
  function ReadMonth(raw: seq<RawRow>, month: string): (f: Frame)
    ensures f.columns == CoreColumns
    ensures |f.rows| == |MonthRows(raw, month)|
    ensures forall i | 0 <= i < |f.rows| ::
      var x := MonthRows(raw, month)[i];
      f.rows[i] == Obs(Some(x.prev), Some(x.curr), Some(x.kind), Some(x.n))
  {
    var rows := MonthRows(raw, month);
    Frame(CoreColumns, seq(|rows|, i requires 0 <= i < |rows| =>
      Obs(Some(rows[i].prev), Some(rows[i].curr), Some(rows[i].kind), Some(rows[i].n))))
  }

  // ---------------------------------------------------------------------------
  // Blank text becomes missing
  // ---------------------------------------------------------------------------

  /** `.str.strip()` then `.replace("", pd.NA)` on one cell. */
  function NormalizeCell(v: Option<string>): (w: Option<string>)
    ensures w.Some? ==> v.Some? && w.value != "" && IsStripped(w.value) && w.value == Strip(v.value)
    ensures w.None? <==> v.None? || Strip(v.value) == ""
  {
    match v
    case None => None
    case Some(s) => if Strip(s) == "" then None else Some(Strip(s))
  }

  /** A text column `inject_null_for_demo` has processed. */
  predicate CleanText(v: Option<string>) {
    v.Some? ==> v.value != "" && IsStripped(v.value)
  }

  /** The row after `inject_null_for_demo`: each text column the frame has is normalised. */
  function NormalizeObs(r: Obs, columns: set<Column>): Obs {
    Obs(if Prev in columns then NormalizeCell(r.prev) else r.prev,
        if Curr in columns then NormalizeCell(r.curr) else r.curr,
        if Type in columns then NormalizeCell(r.kind) else r.kind,
        r.n)
  }

  /** The frame after `inject_null_for_demo`. */
  function Normalized(f: Frame): (g: Frame)
    ensures g.columns == f.columns && |g.rows| == |f.rows|
  {
    Frame(f.columns, seq(|f.rows|, i requires 0 <= i < |f.rows| => NormalizeObs(f.rows[i], f.columns)))
  }

  /** A row once the first k text columns (those the frame has) are normalised. */
  function NormalizeUpTo(r: Obs, columns: set<Column>, k: nat): Obs {
    Obs(if 0 < k && Prev in columns then NormalizeCell(r.prev) else r.prev,
        if 1 < k && Curr in columns then NormalizeCell(r.curr) else r.curr,
        if 2 < k && Type in columns then NormalizeCell(r.kind) else r.kind,
        r.n)
  }

  /** Normalising column k of a row normalised up to k normalises it up to k + 1. */
  lemma NormalizeStep(r: Obs, columns: set<Column>, k: nat)
    requires k < |TextColumns|
    ensures var col := TextColumns[k];
      var s := NormalizeUpTo(r, columns, k);
      NormalizeUpTo(r, columns, k + 1)
        == if col in columns then WithTextCell(s, col, NormalizeCell(TextCell(s, col))) else s
  {
  }

  /** `inject_null_for_demo`: the three text columns, one after the other. */
  method InjectNullForDemo(f: Frame) returns (g: Frame)
    ensures g == Normalized(f)
  {
    var rows := f.rows;
    for k := 0 to |TextColumns|
      invariant |rows| == |f.rows|
      invariant forall i | 0 <= i < |rows| :: rows[i] == NormalizeUpTo(f.rows[i], f.columns, k)
    {
      var col := TextColumns[k];
      if col in f.columns {
        rows := seq(|rows|, i requires 0 <= i < |rows| =>
          WithTextCell(rows[i], col, NormalizeCell(TextCell(rows[i], col))));
      }
      forall i | 0 <= i < |rows| ensures rows[i] == NormalizeUpTo(f.rows[i], f.columns, k + 1) {
        NormalizeStep(f.rows[i], f.columns, k);
      }
    }
    g := Frame(f.columns, rows);
  }

  /**
   * After normalising, every text column the frame has holds the normalised
   * cell of the original row (its stripped text, or missing when blank), every
   * present text cell is trimmed and non-empty, and the counts are untouched.
   */
  lemma NormalizedCleansText(f: Frame)
    ensures var g := Normalized(f);
      forall i | 0 <= i < |g.rows| ::
        && g.rows[i].prev == (if Prev in f.columns then NormalizeCell(f.rows[i].prev) else f.rows[i].prev)
        && g.rows[i].curr == (if Curr in f.columns then NormalizeCell(f.rows[i].curr) else f.rows[i].curr)
        && g.rows[i].kind == (if Type in f.columns then NormalizeCell(f.rows[i].kind) else f.rows[i].kind)
        && (Prev in f.columns ==> CleanText(g.rows[i].prev))
        && (Curr in f.columns ==> CleanText(g.rows[i].curr))
        && (Type in f.columns ==> CleanText(g.rows[i].kind))
        && g.rows[i].n == f.rows[i].n
  {
  }

  /** A cell of only whitespace, the empty cell included, becomes missing; any other keeps its stripped text. */
  lemma BlankCellBecomesMissing(s: string)
    ensures NormalizeCell(Some(s)) == None <==> forall i | 0 <= i < |s| :: IsSpace(s[i])
    ensures NormalizeCell(Some(s)).Some? ==> NormalizeCell(Some(s)).value == Strip(s)
  {
    StripBlank(s);
  }

  /** Normalising twice changes nothing more. */
  lemma NormalizedIdempotent(f: Frame)
    ensures Normalized(Normalized(f)) == Normalized(f)
  {
    var g := Normalized(f);
    forall v: Option<string> ensures NormalizeCell(NormalizeCell(v)) == NormalizeCell(v) {
      if NormalizeCell(v).Some? {
        StripKeepsStripped(NormalizeCell(v).value);
      }
    }
    assert Normalized(g).rows == g.rows;
  }

  // ---------------------------------------------------------------------------
  // Quality metrics
  // ---------------------------------------------------------------------------

  function Missing<T>(v: Option<T>): nat {
    if v.None? then 1 else 0
  }

  /** Missing cells among the four core columns. */
  function NullCells(rows: seq<Obs>): (k: nat)
    ensures k <= 4 * |rows|
  {
    if rows == [] then 0
    else
      var r := rows[|rows| - 1];
      NullCells(rows[..|rows| - 1]) + Missing(r.prev) + Missing(r.curr) + Missing(r.kind) + Missing(r.n)
  }

  /** The subset `duplicated` compares: missing values compare equal. */
  function Key(r: Obs): (Option<string>, Option<string>, Option<string>) {
    (r.prev, r.curr, r.kind)
  }

  function Keys(rows: seq<Obs>): set<(Option<string>, Option<string>, Option<string>)> {
    set r | r in rows :: Key(r)
  }

  /** `duplicated(keep="first")` at index i: the key occurs at an earlier index. */
  predicate IsDuplicateAt(rows: seq<Obs>, i: int)
    requires 0 <= i < |rows|
  {
    exists j | 0 <= j < i :: Key(rows[j]) == Key(rows[i])
  }

  /** How many rows `duplicated` marks. */
  function DuplicateCount(rows: seq<Obs>): (k: nat)
    ensures k <= |rows|
  {
    if rows == [] then 0
    else
      var init := rows[..|rows| - 1];
      DuplicateCount(init) + (if Key(rows[|rows| - 1]) in Keys(init) then 1 else 0)
  }

  /** Rows whose `n` is present and negative; a missing `n` is not an error. */
  function NegativeCount(rows: seq<Obs>): (k: nat)
    ensures k <= |rows|
  {
    if rows == [] then 0
    else
      var r := rows[|rows| - 1];
      NegativeCount(rows[..|rows| - 1]) + (if r.n.Some? && r.n.value < 0 then 1 else 0)
  }

  /** A count over a positive total is a ratio in [0, 1]. */
  lemma RatioBounded(k: nat, total: nat)
    requires 0 < total && k <= total
    ensures 0.0 <= k as real / total as real <= 1.0
    ensures k as real / total as real == 0.0 <==> k == 0
  {
  }

  /** `compute_quality`. */
  function ComputeQuality(f: Frame): (m: Summary)
    ensures m.rowCount == |f.rows|
    ensures m.schemaValid <==> CoreColumns <= f.columns
    ensures m.nullRate.None? <==> m.schemaValid && f.rows == []
    ensures !m.schemaValid ==> m.nullRate == Some(1.0)
    ensures m.nullRate.Some? ==> 0.0 <= m.nullRate.value <= 1.0
    ensures 0.0 <= m.duplicateRate <= 1.0 && 0.0 <= m.rangeErrorRate <= 1.0
    ensures f.rows == [] || !m.schemaValid ==> m.duplicateRate == 0.0 && m.rangeErrorRate == 0.0
    ensures m.schemaValid ==> (m.duplicateRate == 0.0 <==> DuplicateCount(f.rows) == 0)
    ensures m.schemaValid ==> (m.rangeErrorRate == 0.0 <==> NegativeCount(f.rows) == 0)
    ensures m.schemaValid ==> (m.nullRate == Some(0.0) <==> f.rows != [] && NullCells(f.rows) == 0)
    ensures m.schemaValid && f.rows != [] ==>
      m.nullRate == Some(NullCells(f.rows) as real / (4 * |f.rows|) as real) &&
      m.duplicateRate == DuplicateCount(f.rows) as real / |f.rows| as real &&
      m.rangeErrorRate == NegativeCount(f.rows) as real / |f.rows| as real
  {
    var colsOk := CoreColumns <= f.columns;
    var count := |f.rows|;
    if !colsOk || f.rows == [] then
      Summary(count, if !colsOk then Some(1.0) else None, 0.0, 0.0, colsOk)
    else
      var nulls, dups, negatives := NullCells(f.rows), DuplicateCount(f.rows), NegativeCount(f.rows);
      RatioBounded(nulls, 4 * count);
      RatioBounded(dups, count);
      RatioBounded(negatives, count);
      Summary(count,
              Some(nulls as real / (4 * count) as real),
              dups as real / count as real,
              negatives as real / count as real,
              true)
  }

  // ---------------------------------------------------------------------------
  // What the metrics mean
  // ---------------------------------------------------------------------------

  lemma KeysSnoc(rows: seq<Obs>)
    requires rows != []
    ensures Keys(rows) == Keys(rows[..|rows| - 1]) + {Key(rows[|rows| - 1])}
  {
    var init := rows[..|rows| - 1];
    assert rows == init + [rows[|rows| - 1]];
    forall k | k in Keys(rows) ensures k in Keys(init) + {Key(rows[|rows| - 1])} {
      var r :| r in rows && Key(r) == k;
      var i :| 0 <= i < |rows| && rows[i] == r;
      if i < |rows| - 1 {
        assert init[i] == r;
      }
    }
  }

  /** Every row is either the first with its key or a duplicate: duplicates plus distinct keys is the row count. */
  lemma {:induction false} DuplicatesPlusDistinct(rows: seq<Obs>)
    ensures DuplicateCount(rows) + |Keys(rows)| == |rows|
  {
    if rows != [] {
      var init := rows[..|rows| - 1];
      DuplicatesPlusDistinct(init);
      KeysSnoc(rows);
    }
  }

  /** The recursive count marks the last row exactly when an earlier row shares its key. */
  lemma LastIsDuplicate(rows: seq<Obs>)
    requires rows != []
    ensures Key(rows[|rows| - 1]) in Keys(rows[..|rows| - 1]) <==> IsDuplicateAt(rows, |rows| - 1)
  {
    var init := rows[..|rows| - 1];
    var last := |rows| - 1;
    if Key(rows[last]) in Keys(init) {
      var r :| r in init && Key(r) == Key(rows[last]);
      var j :| 0 <= j < |init| && init[j] == r;
      assert Key(rows[j]) == Key(rows[last]);
    }
    if IsDuplicateAt(rows, last) {
      var j :| 0 <= j < last && Key(rows[j]) == Key(rows[last]);
      assert init[j] in init;
    }
  }

  /** No row is a duplicate exactly when all keys are distinct. */
  lemma {:induction false} NoDuplicatesIffDistinct(rows: seq<Obs>)
    ensures DuplicateCount(rows) == 0 <==>
      forall i, j | 0 <= i < j < |rows| :: Key(rows[i]) != Key(rows[j])
  {
    if rows != [] {
      var init := rows[..|rows| - 1];
      var last := |rows| - 1;
      NoDuplicatesIffDistinct(init);
      LastIsDuplicate(rows);
      if DuplicateCount(rows) == 0 {
        forall i, j | 0 <= i < j < |rows| ensures Key(rows[i]) != Key(rows[j]) {
          if j < last {
            assert init[i] == rows[i] && init[j] == rows[j];
          }
        }
      } else if DuplicateCount(init) > 0 {
        var i, j :| 0 <= i < j < |init| && Key(init[i]) == Key(init[j]);
        assert rows[i] == init[i] && rows[j] == init[j];
      }
    }
  }

  /** The spelled-out check of three rows: the second repeats the first. */
  lemma ScenarioDuplicate()
    ensures var f := Frame(CoreColumns, [Obs(Some("A"), Some("B"), Some("link"), Some(10)),
                                         Obs(Some("A"), Some("B"), Some("link"), Some(10)),
                                         Obs(Some("C"), Some("D"), Some("external"), Some(5))]);
      ComputeQuality(f) == Summary(3, Some(0.0), 1.0 / 3.0, 0.0, true)
  {
    var rows := [Obs(Some("A"), Some("B"), Some("link"), Some(10)),
                 Obs(Some("A"), Some("B"), Some("link"), Some(10)),
                 Obs(Some("C"), Some("D"), Some("external"), Some(5))];
    assert rows[..2][..1] == [rows[0]] && rows[..1][..0] == [];
    assert rows[..2] == [rows[0], rows[1]];
    assert Keys([rows[0]]) == {Key(rows[0])};
    assert Keys([rows[0], rows[1]]) == {Key(rows[0])} by {
      KeysSnoc([rows[0], rows[1]]);
    }
    assert DuplicateCount(rows) == 1;
    assert NegativeCount(rows) == 0;
    assert NullCells(rows) == 0;
  }

  /** What ingest stores always has a whole, non-negative count, so the range error rate is zero. */
  lemma {:induction false} CleanMonthHasNoRangeErrors(raw: seq<RawRow>, month: string)
    requires forall r | r in raw :: r.n >= 0
    ensures var m := ComputeQuality(Normalized(ReadMonth(raw, month)));
      m.schemaValid && m.rangeErrorRate == 0.0
  {
    var stored := MonthRows(raw, month);
    var f := ReadMonth(raw, month);
    var rows := Normalized(f).rows;
    forall i | 0 <= i < |rows| ensures rows[i].n.Some? && rows[i].n.value >= 0 {
      assert rows[i].n == f.rows[i].n;
      assert f.rows[i].n == Some(stored[i].n);
      assert stored[i] in raw;
    }
    NoNegatives(rows);
  }

  lemma {:induction false} NoNegatives(rows: seq<Obs>)
    requires forall i | 0 <= i < |rows| :: rows[i].n.Some? && rows[i].n.value >= 0
    ensures NegativeCount(rows) == 0
  {
    if rows != [] {
      NoNegatives(rows[..|rows| - 1]);
    }
  }

  // ---------------------------------------------------------------------------
  // Storing the summary
  // ---------------------------------------------------------------------------

  /** `upsert_monthly`: insert, or overwrite the row with the same month key. */
  method UpsertMonthly(db: Db, month: string, m: Summary)
    modifies db
    ensures db.dq == old(db.dq)[month := m]
    ensures db.raw == old(db.raw) && db.audit == old(db.audit)
  {
    db.dq := db.dq[month := m];
  }

  /** The summary of a month after a validation run. */
  function MonthSummary(raw: seq<RawRow>, month: string): Summary {
    ComputeQuality(Normalized(ReadMonth(raw, month)))
  }

  /**
   * `main`: nothing when the database file is missing; otherwise read,
   * normalise, compute and upsert, also for a month without rows.
   */
  method Run(db: Db, month: string, dbExists: bool)
    modifies db
    ensures dbExists ==> db.dq == old(db.dq)[month := MonthSummary(old(db.raw), month)]
    ensures !dbExists ==> db.dq == old(db.dq)
    ensures db.raw == old(db.raw) && db.audit == old(db.audit)
  {
    if !dbExists {
      return;
    }
    var df := ReadMonth(db.raw, month);
    df := InjectNullForDemo(df);
    var metrics := ComputeQuality(df);
    UpsertMonthly(db, month, metrics);
  }

  /**
   * Validating a month a second time leaves every table as the first run
   * left it: the run reads only the raw table, which it does not change,
   * and the upsert overwrites the month's own summary.
   */
  method RevalidateIdempotent(db: Db, month: string)
    modifies db
    ensures db.dq == old(db.dq)[month := MonthSummary(old(db.raw), month)]
    ensures db.raw == old(db.raw) && db.audit == old(db.audit)
  {
    Run(db, month, true);
    ghost var once := db.dq;
    Run(db, month, true);
    assert db.dq == once;
  }

  /** A month without rows is summarised as valid, empty, with no null rate. */
  lemma EmptyMonthSummary(raw: seq<RawRow>, month: string)
    requires MonthRows(raw, month) == []
    ensures MonthSummary(raw, month) == Summary(0, None, 0.0, 0.0, true)
  {
  }
}
