/**
 * `pipeline/sla_check.py`: for one month, the arrival check (a raw file
 * names the month), the row floor, and the volume drop against the
 * previous month. The script only logs; here the same decisions come back
 * as a verdict.
 */
module SlaCheck {
  import opened Wrappers
  import opened Text
  import opened Storage
  import opened Months

  /** `file_present`: some `*.tsv` name in the raw directory contains the month as a substring. */
  predicate FilePresent(month: string, names: seq<string>) {
    exists name | name in names :: IsTsv(name) && Contains(name, month)
  }

  /** `month_rows`: the rows stored under exactly this key. */
  function MonthRowCount(raw: seq<RawRow>, month: string): nat {
    CountMonth(raw, month)
  }

  /** `prev_month`; None stands for the ValueError `strptime` raises. */
  function PrevMonth(month: string): (r: Option<string>)
    ensures r.None? <==> Parse(month).None?
  {
    match Parse(month)
    case None => None
    case Some(ym) => Some(Format(Pred(ym)))
  }

  /** The row floor: only a count strictly below the minimum fails. */
  predicate RowFloorOk(rows: int, minRows: int) {
    !(rows < minRows)
  }

  datatype DropOutcome = NoPreviousData | Stable | VolumeDrop

  /** The volume-drop rule: skipped without previous rows, else the relative drop against the threshold. */
  function DropCheck(rows: nat, prevRows: nat, threshold: real): DropOutcome {
    if prevRows > 0 then
      (if 1.0 - rows as real / prevRows as real > threshold then VolumeDrop else Stable)
    else NoPreviousData
  }

  datatype DropReport = DropReport(prevMonth: string, prevRows: nat, outcome: DropOutcome)

  /**
   * What `main` concludes. `drop` is None when `prev_month` raised, which
   * happens after the row floor has been checked.
   */
  datatype Verdict =
    | NotArrived
    | NoDatabase
    | Checked(rows: nat, floorOk: bool, drop: Option<DropReport>)

  /** `main`: arrival first, then the database, then the two volume checks. */
  function Evaluate(month: string, names: seq<string>, dbExists: bool, raw: seq<RawRow>,
                    minRows: int, dropThreshold: real): (v: Verdict)
    ensures !FilePresent(month, names) <==> v == NotArrived
    ensures FilePresent(month, names) && !dbExists <==> v == NoDatabase
    ensures v.Checked? ==> v.rows == CountMonth(raw, month) && (v.floorOk <==> v.rows >= minRows)
    ensures v.Checked? ==> (v.drop.None? <==> Parse(month).None?)
    ensures v.Checked? && v.drop.Some? ==>
      && Some(v.drop.value.prevMonth) == PrevMonth(month)
      && v.drop.value.prevRows == CountMonth(raw, v.drop.value.prevMonth)
      && (v.drop.value.outcome == NoPreviousData <==> v.drop.value.prevRows == 0)
      && v.drop.value.outcome == DropCheck(v.rows, v.drop.value.prevRows, dropThreshold)
  {
    if !FilePresent(month, names) then NotArrived
    else if !dbExists then NoDatabase
    else
      var rows := MonthRowCount(raw, month);
      var floorOk := RowFloorOk(rows, minRows);
      match PrevMonth(month)
      case None => Checked(rows, floorOk, None)
      case Some(pm) =>
        var prevRows := MonthRowCount(raw, pm);
        Checked(rows, floorOk, Some(DropReport(pm, prevRows, DropCheck(rows, prevRows, dropThreshold))))
  }

  // ---------------------------------------------------------------------------
  // The previous month
  // ---------------------------------------------------------------------------

  /** A rendered month's predecessor is the rendering of the month before it. */
  lemma PrevMonthOfFormat(ym: YearMonth)
    requires Valid(ym)
    ensures PrevMonth(Format(ym)) == Some(Format(Pred(ym)))
  {
    ParseFormat(ym);
  }

  /** January steps back to December of the year before, every other month to the month before it. */
  lemma PrevMonthWraps(ym: YearMonth)
    requires Valid(ym)
    ensures ym.month == 1 ==> PrevMonth(Format(ym)) == Some(Format(YearMonth(ym.year - 1, 12)))
    ensures ym.month > 1 ==> PrevMonth(Format(ym)) == Some(Format(YearMonth(ym.year, ym.month - 1)))
  {
    PrevMonthOfFormat(ym);
  }

  /** `prev_month` undoes the step the month loops take. */
  lemma PrevMonthUndoesSucc(ym: YearMonth)
    requires Valid(ym) && Valid(Succ(ym))
    ensures PrevMonth(Format(Succ(ym))) == Some(Format(ym))
  {
    PrevMonthOfFormat(Succ(ym));
    PredSuccInverse(ym);
  }

  /** From 0001-02 on, the previous month is again a well-formed `YYYY-MM` key. */
  lemma PrevMonthWellFormed(ym: YearMonth)
    requires Valid(ym) && Valid(Pred(ym))
    ensures PrevMonth(Format(ym)).Some?
    ensures Parse(PrevMonth(Format(ym)).value) == Some(Pred(ym))
    ensures |PrevMonth(Format(ym)).value| == 7
  {
    PrevMonthOfFormat(ym);
    ParseFormat(Pred(ym));
    FormatShape(Pred(ym));
  }

  // ---------------------------------------------------------------------------
  // The decisions
  // ---------------------------------------------------------------------------

  /** The drop rule in whole numbers: a drop is flagged iff rows < prevRows * (1 - threshold). */
  lemma DropRuleInProducts(rows: nat, prevRows: nat, threshold: real)
    requires prevRows > 0
    ensures DropCheck(rows, prevRows, threshold) == VolumeDrop
        <==> (rows as real) < (prevRows as real) * (1.0 - threshold)
  {
    var p := prevRows as real;
    var r := rows as real;
    var q := r / p;
    assert q * p == r;
    assert (1.0 - q) * p == p - r && p * (1.0 - threshold) == p - threshold * p
                    && (1.0 - threshold) * p == p - threshold * p;
    if 1.0 - q > threshold {
      ScaleStrict(threshold, 1.0 - q, p);
      assert r < p * (1.0 - threshold);
    }
    if r < p * (1.0 - threshold) {
      if q >= 1.0 - threshold {
        ScaleWeak(1.0 - threshold, q, p);
        assert false;
      }
      assert 1.0 - q > threshold;
    }
  }

  lemma ScaleStrict(a: real, b: real, p: real)
    requires a < b && p > 0.0
    ensures a * p < b * p
  {
    assert (b - a) * p > 0.0;
  }

  lemma ScaleWeak(a: real, b: real, p: real)
    requires a <= b && p > 0.0
    ensures a * p <= b * p
  {
    assert (b - a) * p >= 0.0;
  }

  /** Raising the drop threshold never turns a passing drop check into a failing one. */
  lemma DropThresholdMonotone(rows: nat, prevRows: nat, t1: real, t2: real)
    requires t1 <= t2
    requires DropCheck(rows, prevRows, t1) != VolumeDrop
    ensures DropCheck(rows, prevRows, t2) != VolumeDrop
  {
  }

  /** Lowering the minimum never turns a passing row floor into a failing one. */
  lemma RowFloorMonotone(rows: int, m1: int, m2: int)
    requires m2 <= m1 && RowFloorOk(rows, m1)
    ensures RowFloorOk(rows, m2)
  {
  }

  /** 800 rows against a minimum of 1000 fails the floor; exactly the minimum passes. */
  lemma ScenarioBelowFloor()
    ensures !RowFloorOk(800, 1000)
    ensures RowFloorOk(1000, 1000)
  {
  }

  /** 750 rows after 1000 is a drop of 0.25, above a threshold of 0.20. */
  lemma ScenarioVolumeDrop()
    ensures DropCheck(750, 1000, 0.20) == VolumeDrop
    ensures DropCheck(750, 1000, 0.25) == Stable
  {
  }

  /** Without rows in the previous month the drop check is skipped, whatever the counts and threshold. */
  lemma ScenarioNoPreviousData(rows: nat, threshold: real)
    ensures DropCheck(rows, 0, threshold) == NoPreviousData
  {
  }

  /** The counts look at the exact key only: a row stored under any other key changes nothing. */
  lemma OnlyExactKeyCounts(raw: seq<RawRow>, month: string, r: RawRow)
    requires r.loadMonth != month
    ensures MonthRowCount(raw + [r], month) == MonthRowCount(raw, month)
  {
    MonthRowsAppend(raw, [r], month);
    assert MonthRows([r], month) == [];
  }
}
