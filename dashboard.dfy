/**
 * The two table transformations of `app/dashboard.py`: the month-over-month
 * volume change of the trend table (`compute_trend_metrics`) and the SLA
 * flags the dashboard shows for each month (`add_sla_flags`). Pandas'
 * float64 columns are modelled exactly: a missing value is NaN, a change
 * against a zero count is +inf or NaN, every other value is an exact real.
 */
module Dashboard {
  import opened Wrappers
  import opened Sorting
  import SlaCheck

  /** One row of the trend table, as `dq_monthly` holds it. */
  datatype TrendRow = TrendRow(
    loadMonth: string,
    rowCount: nat,
    nullRate: Option<real>,
    duplicateRate: real,
    rangeErrorRate: real)

  /** A float64 value of a computed column. */
  datatype Float = NaN | PosInf | Finite(value: real)

  /** A trend row with `row_count_prev` and `row_count_delta_pct` added. */
  datatype Metric = Metric(row: TrendRow, prevCount: Option<nat>, deltaPct: Float)

  function LoadMonthOf(r: TrendRow): string {
    r.loadMonth
  }

  /**
   * `(row_count / row_count_prev - 1.0) * 100.0`: the percentage change
   * against the previous count; NaN without a previous row or for 0/0, +inf
   * for growth from zero.
   */
  function DeltaPct(rows: nat, prev: Option<nat>): (d: Float)
    ensures d.Finite? <==> prev.Some? && prev.value > 0
    ensures d == PosInf <==> prev == Some(0) && rows > 0
    ensures d.Finite? ==> d.value * prev.value as real == (rows as real - prev.value as real) * 100.0
    ensures d.Finite? ==> (d.value < 0.0 <==> rows < prev.value) && (d.value == 0.0 <==> rows == prev.value)
  {
    match prev
    case None => NaN
    case Some(p) =>
      if p > 0 then
        var q := rows as real / p as real;
        assert q * p as real == rows as real;
        Finite((q - 1.0) * 100.0)
      else if rows > 0 then PosInf
      else NaN
  }

  /** The metrics of rows already in month order: each row against the row before it. */
  function Annotate(sorted: seq<TrendRow>): (r: seq<Metric>)
    ensures |r| == |sorted|
  {
    seq(|sorted|, i requires 0 <= i < |sorted| =>
      var prev := if i == 0 then None else Some(sorted[i - 1].rowCount);
      Metric(sorted[i], prev, DeltaPct(sorted[i].rowCount, prev)))
  }

  /**
   * `compute_trend_metrics`: sort by `load_month`, then compare each row
   * with the previous row in that order. An empty table stays empty.
   */
  function ComputeTrendMetrics(rows: seq<TrendRow>): (r: seq<Metric>)
    ensures |r| == |rows|
  {
    Annotate(SortBy(rows, LoadMonthOf))
  }

  /** The trend rows a metric table carries, in its order. */
  function RowsOf(ms: seq<Metric>): (r: seq<TrendRow>)
    ensures |r| == |ms|
  {
    seq(|ms|, i requires 0 <= i < |ms| => ms[i].row)
  }

  /**
   * The metric table holds the input rows, each exactly once, in ascending
   * month order; the previous count is the count of the row before in that
   * order (not the calendar predecessor), and the first row has none.
   */
  lemma TrendMetricsShape(rows: seq<TrendRow>)
    ensures var r := ComputeTrendMetrics(rows);
      && multiset(RowsOf(r)) == multiset(rows)
      && SortedBy(RowsOf(r), LoadMonthOf)
      && (|r| > 0 ==> r[0].prevCount.None?)
      && (forall i | 0 < i < |r| :: r[i].prevCount == Some(r[i - 1].row.rowCount))
      && (forall i | 0 <= i < |r| :: r[i].deltaPct == DeltaPct(r[i].row.rowCount, r[i].prevCount))
  {
    var s := SortBy(rows, LoadMonthOf);
    SortBySorted(rows, LoadMonthOf);
    assert RowsOf(ComputeTrendMetrics(rows)) == s;
  }

  // ---------------------------------------------------------------------------
  // SLA flags
  // ---------------------------------------------------------------------------

  datatype Thresholds = Thresholds(drop: real, nullMax: real, dupMax: real, rangeErrMax: real)

  /** The defaults the dashboard starts from. */
  const DefaultThresholds: Thresholds := Thresholds(0.20, 0.001, 0.001, 0.0)

  datatype Flags = Flags(
    metric: Metric,
    dropViolation: bool,
    nullOk: bool,
    dupOk: bool,
    rangeOk: bool,
    deltaOk: bool,
    overallOk: bool)

  /** `row_count_delta_pct < -(drop_threshold * 100.0)`: false for NaN and +inf. */
  predicate DropViolation(d: Float, threshold: real) {
    d.Finite? && d.value < -(threshold * 100.0)
  }

  /** An inclusive `rate <= max`; a NaN rate compares false. */
  predicate RateOk(rate: Option<real>, max: real) {
    rate.Some? && rate.value <= max
  }

  /** The flags of one month. */
  function FlagsOf(m: Metric, t: Thresholds): (f: Flags)
    ensures f.metric == m
    ensures f.overallOk <==> f.deltaOk && f.nullOk && f.dupOk && f.rangeOk
    ensures f.deltaOk <==> !f.dropViolation || m.prevCount.None?
    ensures f.dropViolation <==> m.deltaPct.Finite? && m.deltaPct.value < -(t.drop * 100.0)
    ensures f.nullOk <==> m.row.nullRate.Some? && m.row.nullRate.value <= t.nullMax
    ensures f.dupOk <==> m.row.duplicateRate <= t.dupMax
    ensures f.rangeOk <==> m.row.rangeErrorRate <= t.rangeErrMax
  {
    var drop := DropViolation(m.deltaPct, t.drop);
    var nullOk := RateOk(m.row.nullRate, t.nullMax);
    var dupOk := m.row.duplicateRate <= t.dupMax;
    var rangeOk := m.row.rangeErrorRate <= t.rangeErrMax;
    var deltaOk := !drop || m.prevCount.None?;
    Flags(m, drop, nullOk, dupOk, rangeOk, deltaOk, deltaOk && nullOk && dupOk && rangeOk)
  }

  /** `add_sla_flags`: the flags of every month, in table order. An empty table stays empty. */
  function AddSlaFlags(ms: seq<Metric>, t: Thresholds): (r: seq<Flags>)
    ensures |r| == |ms|
    ensures forall i | 0 <= i < |r| :: r[i] == FlagsOf(ms[i], t) && r[i].metric == ms[i]
  {
    seq(|ms|, i requires 0 <= i < |ms| => FlagsOf(ms[i], t))
  }

  /**
   * Against a positive previous count the dashboard's drop flag is the SLA
   * check's volume-drop rule: `delta% < -100 t` exactly when `1 - rows/prev > t`.
   */
  lemma DropFlagIsSlaRule(rows: nat, prev: nat, threshold: real)
    requires prev > 0
    ensures DropViolation(DeltaPct(rows, Some(prev)), threshold)
        <==> SlaCheck.DropCheck(rows, prev, threshold) == SlaCheck.VolumeDrop
  {
    var q := rows as real / prev as real;
    assert DeltaPct(rows, Some(prev)) == Finite((q - 1.0) * 100.0);
  }

  /** A previous month without rows never raises the drop flag, whatever the threshold. */
  lemma ZeroPreviousNeverDrops(rows: nat, threshold: real)
    ensures !DropViolation(DeltaPct(rows, Some(0)), threshold)
  {
  }

  /** A month whose null rate is missing fails the null check and so the overall check. */
  lemma MissingNullRateFails(m: Metric, t: Thresholds)
    requires m.row.nullRate.None?
    ensures !FlagsOf(m, t).nullOk && !FlagsOf(m, t).overallOk
  {
  }

  /** The first month of the table has nothing to drop from, so its volume check passes. */
  lemma FirstMonthDeltaOk(rows: seq<TrendRow>, t: Thresholds)
    requires rows != []
    ensures AddSlaFlags(ComputeTrendMetrics(rows), t)[0].deltaOk
  {
    TrendMetricsShape(rows);
  }

  /** Looser thresholds: every one at least as large as before. */
  predicate AtLeastAsLoose(t1: Thresholds, t2: Thresholds) {
    t1.drop <= t2.drop && t1.nullMax <= t2.nullMax && t1.dupMax <= t2.dupMax && t1.rangeErrMax <= t2.rangeErrMax
  }

  /** Raising thresholds never turns a passing check, or the overall verdict, into a failing one. */
  lemma FlagsMonotone(m: Metric, t1: Thresholds, t2: Thresholds)
    requires AtLeastAsLoose(t1, t2)
    ensures var f1, f2 := FlagsOf(m, t1), FlagsOf(m, t2);
      && (f2.dropViolation ==> f1.dropViolation)
      && (f1.nullOk ==> f2.nullOk) && (f1.dupOk ==> f2.dupOk) && (f1.rangeOk ==> f2.rangeOk)
      && (f1.deltaOk ==> f2.deltaOk) && (f1.overallOk ==> f2.overallOk)
  {
  }

  /** With the default maximum of 0.0, a month passes the range check only with no range errors at all. */
  lemma DefaultRangeMaxAllowsNoErrors(m: Metric)
    requires m.row.rangeErrorRate >= 0.0
    ensures FlagsOf(m, DefaultThresholds).rangeOk <==> m.row.rangeErrorRate == 0.0
  {
  }
}
