/**
 * Month keys: `datetime.strptime(s, "%Y-%m")`, the `"%04d-%02d"` rendering
 * and the one-month step of the month loops.
 */
module Months {
  import opened Wrappers
  import opened Text

  datatype YearMonth = YearMonth(year: int, month: int)

  /** The year-months a `datetime` can hold. */
  predicate Valid(ym: YearMonth) {
    1 <= ym.year <= 9999 && 1 <= ym.month <= 12
  }

  /** Months counted from January of year 0; Python's tuple order `(y, m)` is the order on it. */
  function Index(ym: YearMonth): int {
    ym.year * 12 + ym.month - 1
  }

  function FromIndex(k: nat): (ym: YearMonth)
    ensures Index(ym) == k && 1 <= ym.month <= 12 && ym.year >= 0
  {
    YearMonth(k / 12, k % 12 + 1)
  }

  lemma IndexInjective(a: YearMonth, b: YearMonth)
    requires 1 <= a.month <= 12 && 1 <= b.month <= 12
    requires Index(a) == Index(b)
    ensures a == b
  {
  }

  /** `(a.year, a.month) <= (b.year, b.month)` in Python is `Index(a) <= Index(b)`. */
  lemma TupleOrderIsIndexOrder(a: YearMonth, b: YearMonth)
    requires 1 <= a.month <= 12 && 1 <= b.month <= 12
    ensures (a.year < b.year || (a.year == b.year && a.month <= b.month)) <==> Index(a) <= Index(b)
  {
  }

  /** One step of the month loops: December wraps to January of the next year. */
  function Succ(ym: YearMonth): (r: YearMonth)
    requires 1 <= ym.month <= 12
    ensures 1 <= r.month <= 12
    ensures Index(r) == Index(ym) + 1
  {
    if ym.month == 12 then YearMonth(ym.year + 1, 1) else YearMonth(ym.year, ym.month + 1)
  }

  /** The step back `prev_month` takes: January goes to December of the year before. */
  function Pred(ym: YearMonth): (r: YearMonth)
    requires 1 <= ym.month <= 12
    ensures 1 <= r.month <= 12
    ensures Index(r) == Index(ym) - 1
  {
    if ym.month == 1 then YearMonth(ym.year - 1, 12) else YearMonth(ym.year, ym.month - 1)
  }

  /** One step forward then one step back, or back then forward, is no step at all. */
  lemma PredSuccInverse(ym: YearMonth)
    requires 1 <= ym.month <= 12
    ensures Pred(Succ(ym)) == ym && Succ(Pred(ym)) == ym
  {
    IndexInjective(Pred(Succ(ym)), ym);
    IndexInjective(Succ(Pred(ym)), ym);
  }

  /** `f"{year:04d}-{month:02d}"`. */
  function Format(ym: YearMonth): string {
    FormatInt(ym.year, 4) + "-" + FormatInt(ym.month, 2)
  }

  /** What `%m` accepts: `1[0-2]|0[1-9]|[1-9]`, and nothing may follow it. */
  function MonthToken(t: string): (m: Option<int>)
    ensures m.Some? ==> 1 <= m.value <= 12
  {
    if |t| == 1 && '1' <= t[0] <= '9' then Some(DigitValue(t[0]))
    else if |t| == 2 && AllDigits(t) && 1 <= ParseDigits(t) <= 12 then Some(ParseDigits(t))
    else None
  }

  /**
   * `datetime.strptime(s, "%Y-%m")`: four digits, a dash, a month token;
   * year 0 is rejected by `datetime`. None stands for the ValueError.
   */
  function Parse(s: string): (r: Option<YearMonth>)
    ensures r.Some? ==> Valid(r.value)
  {
    if |s| < 6 || s[4] != '-' || !AllDigits(s[..4]) then None
    else
      var year := ParseDigits(s[..4]);
      match MonthToken(s[5..])
      case None => None
      case Some(month) =>
        assert year < 10000 by { ParseDigitsBound(s[..4]); }
        if year == 0 then None else Some(YearMonth(year, month))
  }

  lemma {:induction false} ParseDigitsBound(s: string)
    requires AllDigits(s)
    ensures ParseDigits(s) < Pow10(|s|)
  {
    if s != [] {
      ParseDigitsBound(s[..|s| - 1]);
    }
  }

  /** Every valid year-month is rendered as seven characters `YYYY-MM`. */
  lemma FormatShape(ym: YearMonth)
    requires Valid(ym)
    ensures |Format(ym)| == 7 && Format(ym)[4] == '-'
    ensures Format(ym)[..4] == Pad(ym.year, 4) && Format(ym)[5..] == Pad(ym.month, 2)
    ensures AllDigits(Format(ym)[..4]) && AllDigits(Format(ym)[5..])
  {
    assert Pow10(4) == 10000 && Pow10(2) == 100;
    PadWidth(ym.year, 4);
    PadWidth(ym.month, 2);
  }

  /** Reading a rendered month back gives the same year and month. */
  lemma ParseFormat(ym: YearMonth)
    requires Valid(ym)
    ensures Parse(Format(ym)) == Some(ym)
  {
    var s := Format(ym);
    FormatShape(ym);
    ParsePad(ym.year, 4);
    ParsePad(ym.month, 2);
  }

  /** Two valid year-months render alike only when they are equal. */
  lemma FormatInjective(a: YearMonth, b: YearMonth)
    requires Valid(a) && Valid(b) && Format(a) == Format(b)
    ensures a == b
  {
    ParseFormat(a);
    ParseFormat(b);
  }

  /** A rendered month holds no comma and no whitespace, and is never empty. */
  lemma FormatIsPlainToken(ym: YearMonth)
    requires Valid(ym)
    ensures ',' !in Format(ym) && Format(ym) != [] && IsStripped(Format(ym))
  {
    var s := Format(ym);
    FormatShape(ym);
    forall i | 0 <= i < |s| ensures s[i] != ',' {
      if i < 4 {
        assert s[i] == s[..4][i];
      } else if i > 4 {
        assert s[i] == s[5..][i - 5];
      }
    }
    assert s[0] == s[..4][0];
    assert s[6] == s[5..][1];
  }
}
