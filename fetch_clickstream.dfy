/**
 * `pipeline/fetch_clickstream.py`: which months to fetch, the download URL
 * of each month's Wikimedia Clickstream dump and the file names it is saved
 * under. The HTTP download and the gunzip are not part of this model; a
 * fetch is described by the job it would carry out.
 */
module FetchClickstream {
  import opened Wrappers
  import opened Text
  import opened Months
  import Ingest
  import opened Seqs

  const Base: string := "https://dumps.wikimedia.org/other/clickstream"

  // ---------------------------------------------------------------------------
  // Month strings and URLs
  // ---------------------------------------------------------------------------

  /**
   * `month_parts`: exactly two dash-separated fields, each read by `int`.
   * None stands for the ValueError of the unpacking or of `int`.
   */
  function MonthParts(ym: string): (r: Option<(int, int)>)
    ensures r.Some? ==> |Split(ym, '-')| == 2
  {
    var parts := Split(ym, '-');
    if |parts| != 2 then None
    else
      match (ParseInt(parts[0]), ParseInt(parts[1]))
      case (Some(y), Some(m)) => Some((y, m))
      case _ => None
  }

  /** The dump of one month: `<Base>/<key>/clickstream-<lang>-<key>.tsv.gz`. */
  function DumpUrl(key: string, lang: string): string {
    Base + "/" + key + "/clickstream-" + lang + "-" + key + ".tsv.gz"
  }

  /** `url_for`: the year is written as `int` prints it, the month padded to two digits. */
  function UrlFor(month: string, lang: string): (r: Option<string>)
    ensures r.None? <==> MonthParts(month).None?
  {
    match MonthParts(month)
    case None => None
    case Some((y, m)) => Some(DumpUrl(FormatInt(y, 0) + "-" + FormatInt(m, 2), lang))
  }

  /** A rendered month splits at its dash into the year and the month digits. */
  lemma SplitFormat(ym: YearMonth)
    requires Valid(ym)
    ensures Split(Format(ym), '-') == [Format(ym)[..4], Format(ym)[5..]]
  {
    var s := Format(ym);
    FormatShape(ym);
    var y, m := s[..4], s[5..];
    assert s == y + "-" + m;
    assert '-' !in y by {
      forall i | 0 <= i < |y| ensures y[i] != '-' { assert IsDigit(y[i]); }
    }
    assert '-' !in m by {
      forall i | 0 <= i < |m| ensures m[i] != '-' { assert IsDigit(m[i]); }
    }
    assert [y, m][1..] == [m];
    assert Join([y, m], '-') == s;
    SplitJoin([y, m], '-');
  }

  /** `month_parts` reads back the year and month of a rendered month. */
  lemma MonthPartsOfFormat(ym: YearMonth)
    requires Valid(ym)
    ensures MonthParts(Format(ym)) == Some((ym.year, ym.month))
  {
    var s := Format(ym);
    SplitFormat(ym);
    FormatShape(ym);
    ParsePad(ym.year, 4);
    ParsePad(ym.month, 2);
  }

  /** A string with more than one dash, such as a full date, is refused. */
  lemma MonthPartsRejectsExtraDash(a: string, b: string, c: string)
    requires '-' !in a && '-' !in b && '-' !in c
    ensures MonthParts(a + "-" + b + "-" + c) == None
  {
    assert [a, b, c][1..] == [b, c] && [b, c][1..] == [c];
    assert Join([b, c], '-') == b + "-" + c;
    assert Join([a, b, c], '-') == a + "-" + (b + "-" + c);
    assert a + "-" + (b + "-" + c) == a + "-" + b + "-" + c;
    SplitJoin([a, b, c], '-');
  }

  /**
   * For a four-digit year the URL embeds the month key itself twice: as the
   * dump directory and inside the dump's file name.
   */
  lemma UrlForCanonical(ym: YearMonth, lang: string)
    requires Valid(ym) && ym.year >= 1000
    ensures UrlFor(Format(ym), lang) == Some(DumpUrl(Format(ym), lang))
  {
    MonthPartsOfFormat(ym);
    assert Pow10(3) == 1000;
    PadNoLeadingZero(ym.year, 4);
  }

  // ---------------------------------------------------------------------------
  // Fetch jobs
  // ---------------------------------------------------------------------------

  /** What `fetch_month` does for one month: the URL it downloads and the two files it writes. */
  datatype FetchJob = FetchJob(month: string, url: string, gzName: string, tsvName: string)

  /** `fetch_month`; None when `url_for` raises, before any file is written. */
  function Job(month: string, lang: string): (r: Option<FetchJob>)
    ensures r.None? <==> MonthParts(month).None?
    ensures r.Some? ==> r.value.month == month && Some(r.value.url) == UrlFor(month, lang)
  {
    match UrlFor(month, lang)
    case None => None
    case Some(u) =>
      Some(FetchJob(month, u, FileName(lang, month, "tsv.gz"), FileName(lang, month, "tsv")))
  }

  /** `clickstream-<lang>-<month>.<ext>` under the raw directory. */
  function FileName(lang: string, month: string, ext: string): string {
    "clickstream-" + lang + "-" + month + "." + ext
  }

  /** The results up to the first missing one: a loop that stops at the first exception. */
  function UntilNone<T>(os: seq<Option<T>>): (r: seq<T>)
    ensures |r| <= |os|
    ensures forall i | 0 <= i < |r| :: os[i] == Some(r[i])
    ensures |r| < |os| ==> os[|r|].None?
  {
    if os == [] then []
    else
      match os[0]
      case None => []
      case Some(x) => [x] + UntilNone(os[1..])
  }

  /** What `fetch_month` would do for each month on its own. */
  function Outcomes(months: seq<string>, lang: string): (os: seq<Option<FetchJob>>)
    ensures |os| == |months|
  {
    seq(|months|, i requires 0 <= i < |months| => Job(months[i], lang))
  }

  /** The jobs a loop over `months` carries out: one per month, up to the first that raises. */
  function Jobs(months: seq<string>, lang: string): seq<FetchJob> {
    UntilNone(Outcomes(months, lang))
  }

  /** The `for m in months: run_for_month(m, lang)` loop of `run_for_months` and `run_for_range`. */
  method FetchAll(months: seq<string>, lang: string) returns (jobs: seq<FetchJob>)
    ensures jobs == Jobs(months, lang)
  {
    ghost var os := Outcomes(months, lang);
    ghost var all := UntilNone(os);
    jobs := [];
    var i := 0;
    while i < |months|
      invariant i <= |all| && jobs == all[..i]
    {
      var j := Job(months[i], lang);
      assert j == os[i];
      if j.None? {
        PrefixWhole(all, i);
        return;
      }
      assert i < |all| && os[i] == Some(all[i]);
      PrefixStep(all, i);
      jobs := jobs + [j.value];
      i := i + 1;
    }
    PrefixWhole(all, i);
  }


  /** Nothing is cut off exactly when no result is missing. */
  lemma UntilNoneFull<T>(os: seq<Option<T>>)
    ensures |UntilNone(os)| == |os| <==> forall i | 0 <= i < |os| :: os[i].Some?
  {
  }

  /** Every month is fetched when every month is well formed, and only then. */
  lemma JobsComplete(months: seq<string>, lang: string)
    ensures |Jobs(months, lang)| == |months|
        <==> forall i | 0 <= i < |months| :: MonthParts(months[i]).Some?
  {
    var os := Outcomes(months, lang);
    UntilNoneFull(os);
    assert forall i | 0 <= i < |months| :: os[i] == Job(months[i], lang);
  }

  lemma FileNameSplit(pre: string, lang: string, y: string, m: string, ext: string)
    ensures pre + lang + "-" + (y + "-" + m) + "." + ext == pre + lang + "-" + y + "-" + m + "." + ext
  {
  }

  /** The `.tsv` a job writes is read back by the ingest as the job's own month. */
  lemma FetchedFileCarriesMonth(ym: YearMonth, lang: string)
    requires Valid(ym)
    requires lang != [] && '-' !in lang && !Ingest.IsYearToken(lang)
    ensures Job(Format(ym), lang).Some?
    ensures Ingest.MonthOfName(Job(Format(ym), lang).value.tsvName) == Format(ym)
  {
    MonthPartsOfFormat(ym);
    var s := Format(ym);
    FormatShape(ym);
    var y, m := s[..4], s[5..];
    assert s == y + "-" + m;
    assert '-' !in m by {
      forall i | 0 <= i < |m| ensures m[i] != '-' { assert IsDigit(m[i]); }
    }
    FileNameSplit("clickstream-", lang, y, m, "tsv");
    Ingest.DetectDownloadedName(lang, y, m, "tsv");
  }

  // ---------------------------------------------------------------------------
  // Month lists and ranges
  // ---------------------------------------------------------------------------

  /** `[s.strip() for s in parts if s.strip()]`. */
  function NonBlank(parts: seq<string>): (r: seq<string>)
    ensures |r| <= |parts|
    ensures forall i | 0 <= i < |r| :: r[i] != [] && IsStripped(r[i])
  {
    if parts == [] then []
    else Kept(parts[0]) + NonBlank(parts[1..])
  }

  /** One entry of the comprehension: its stripped text, unless that is empty. */
  function Kept(p: string): (r: seq<string>)
    ensures |r| <= 1
    ensures forall i | 0 <= i < |r| :: r[i] != [] && IsStripped(r[i])
  {
    if Strip(p) != [] then [Strip(p)] else []
  }

  /** The comprehension works entry by entry: the kept entries of a concatenation concatenate, in order. */
  lemma {:induction false} NonBlankAppend(a: seq<string>, b: seq<string>)
    ensures NonBlank(a + b) == NonBlank(a) + NonBlank(b)
  {
    if a == [] {
      assert a + b == b;
    } else {
      assert (a + b)[0] == a[0] && (a + b)[1..] == a[1..] + b;
      assert NonBlank(a + b) == Kept(a[0]) + NonBlank(a[1..] + b);
      NonBlankAppend(a[1..], b);
      assert Kept(a[0]) + (NonBlank(a[1..]) + NonBlank(b)) == (Kept(a[0]) + NonBlank(a[1..])) + NonBlank(b);
    }
  }

  /** One entry is kept as its stripped text exactly when that text is non-empty. */
  lemma NonBlankOne(p: string)
    ensures NonBlank([p]) == if Strip(p) == "" then [] else [Strip(p)]
  {
    assert [p][1..] == [];
  }

  /** The months of a `--months` list: comma-separated, stripped, blanks dropped. */
  function MonthList(csv: string): seq<string> {
    NonBlank(Split(csv, ','))
  }

  lemma StripAvoids(s: string, c: char)
    requires c !in s
    ensures c !in Strip(s)
  {
    var t := TrimStart(s);
    assert t == s[|s| - |t|..];
    assert Strip(s) == t[..|Strip(s)|];
  }

  lemma {:induction false} NonBlankAvoids(parts: seq<string>, c: char)
    requires forall j | 0 <= j < |parts| :: c !in parts[j]
    ensures forall i | 0 <= i < |NonBlank(parts)| :: c !in NonBlank(parts)[i]
  {
    if parts != [] {
      StripAvoids(parts[0], c);
      NonBlankAvoids(parts[1..], c);
    }
  }

  /** Every listed month is a non-empty token without whitespace at its ends and without a comma. */
  lemma MonthListTokens(csv: string)
    ensures forall i | 0 <= i < |MonthList(csv)| ::
      MonthList(csv)[i] != [] && IsStripped(MonthList(csv)[i]) && ',' !in MonthList(csv)[i]
  {
    SplitAvoidsSep(csv, ',');
    NonBlankAvoids(Split(csv, ','), ',');
  }

  lemma {:induction false} NonBlankKeeps(parts: seq<string>)
    requires forall i | 0 <= i < |parts| :: parts[i] != [] && IsStripped(parts[i])
    ensures NonBlank(parts) == parts
  {
    if parts != [] {
      StripKeepsStripped(parts[0]);
      NonBlankKeeps(parts[1..]);
      assert [parts[0]] + parts[1..] == parts;
    }
  }

  /** Joining clean months with commas and reading the list back gives the same months. */
  lemma MonthListJoin(months: seq<string>)
    requires forall i | 0 <= i < |months| :: months[i] != [] && IsStripped(months[i]) && ',' !in months[i]
    ensures MonthList(Join(months, ',')) == months
  {
    if months == [] {
      assert Split("", ',') == [""];
      assert Strip("") == "";
    } else {
      SplitJoin(months, ',');
      NonBlankKeeps(months);
    }
  }

  /** Reading a list, joining it and reading it again changes nothing. */
  lemma MonthListIdempotent(csv: string)
    ensures MonthList(Join(MonthList(csv), ',')) == MonthList(csv)
  {
    MonthListTokens(csv);
    MonthListJoin(MonthList(csv));
  }

  /** The n months from lo on, rendered. */
  function Span(lo: YearMonth, n: nat): (r: seq<string>)
    requires Index(lo) >= 0
    ensures |r| == n
  {
    seq(n, i requires 0 <= i < n => Format(FromIndex(Index(lo) + i)))
  }

  function Earlier(a: YearMonth, b: YearMonth): YearMonth {
    if Index(a) > Index(b) then b else a
  }

  function Later(a: YearMonth, b: YearMonth): YearMonth {
    if Index(a) > Index(b) then a else b
  }

  /**
   * `iter_months_inclusive`: the months between the two bounds, both
   * included, in increasing order whichever bound comes first. None stands
   * for the ValueError of `strptime`.
   */
  function MonthRange(start: string, end: string): (r: Option<seq<string>>)
    ensures r.None? <==> Parse(start).None? || Parse(end).None?
    ensures r.Some? ==> |r.value| >= 1
  {
    match (Parse(start), Parse(end))
    case (Some(a), Some(b)) =>
      var lo, hi := Earlier(a, b), Later(a, b);
      Some(Span(lo, Index(hi) - Index(lo) + 1))
    case _ => None
  }

  /** Extending the span by one month appends that month's rendering. */
  lemma SpanSnoc(lo: YearMonth, cur: YearMonth)
    requires Index(lo) >= 0 && Index(lo) <= Index(cur) && 1 <= cur.month <= 12
    ensures Span(lo, Index(cur) - Index(lo) + 1) == Span(lo, Index(cur) - Index(lo)) + [Format(cur)]
  {
    IndexInjective(FromIndex(Index(cur)), cur);
  }

  /** The generator of `iter_months_inclusive`, drained into a list. */
  method IterMonthsInclusive(start: string, end: string) returns (r: Option<seq<string>>)
    ensures r == MonthRange(start, end)
  {
    var sd := Parse(start);
    var ed := Parse(end);
    if sd.None? || ed.None? {
      return None;
    }
    var lo, hi := sd.value, ed.value;
    if Index(lo) > Index(hi) {
      lo, hi := hi, lo;
    }
    var out := StepMonths(lo, hi);
    r := Some(out);
  }

  /** The `while (y, m) <= (ed.year, ed.month)` loop: one rendered month per step, December wrapping to January. */
  method StepMonths(lo: YearMonth, hi: YearMonth) returns (out: seq<string>)
    requires Valid(lo) && Valid(hi) && Index(lo) <= Index(hi)
    ensures out == Span(lo, Index(hi) - Index(lo) + 1)
  {
    var y, m := lo.year, lo.month;
    out := [];
    TupleOrderIsIndexOrder(YearMonth(y, m), hi);
    while y < hi.year || (y == hi.year && m <= hi.month)
      invariant 1 <= m <= 12
      invariant Index(lo) <= Index(YearMonth(y, m)) <= Index(hi) + 1
      invariant out == Span(lo, Index(YearMonth(y, m)) - Index(lo))
      invariant (y < hi.year || (y == hi.year && m <= hi.month)) <==> Index(YearMonth(y, m)) <= Index(hi)
      decreases Index(hi) - Index(YearMonth(y, m))
    {
      var cur := YearMonth(y, m);
      SpanSnoc(lo, cur);
      out := out + [Format(cur)];
      if m == 12 {
        y, m := y + 1, 1;
      } else {
        m := m + 1;
      }
      assert YearMonth(y, m) == Succ(cur);
      TupleOrderIsIndexOrder(YearMonth(y, m), hi);
    }
  }

  /** Entry i of the span from lo to hi is the rendering of the valid month i steps after lo. */
  lemma SpanEntry(lo: YearMonth, hi: YearMonth, i: nat)
    requires Valid(lo) && Valid(hi) && i <= Index(hi) - Index(lo)
    ensures Valid(FromIndex(Index(lo) + i))
    ensures Span(lo, Index(hi) - Index(lo) + 1)[i] == Format(FromIndex(Index(lo) + i))
  {
  }

  /** The bounds may be given in either order. */
  lemma MonthRangeSymmetric(start: string, end: string)
    ensures MonthRange(start, end) == MonthRange(end, start)
  {
    if Parse(start).Some? && Parse(end).Some? {
      var a, b := Parse(start).value, Parse(end).value;
      if Index(a) == Index(b) {
        IndexInjective(a, b);
      }
    }
  }

  /**
   * The range runs from the earlier bound to the later one, one month at a
   * time: entry i parses to the month i steps after the first.
   */
  lemma MonthRangeShape(start: string, end: string)
    requires Parse(start).Some? && Parse(end).Some?
    ensures var lo := Earlier(Parse(start).value, Parse(end).value);
      var hi := Later(Parse(start).value, Parse(end).value);
      var r := MonthRange(start, end).value;
      && |r| == Index(hi) - Index(lo) + 1
      && r[0] == Format(lo)
      && r[|r| - 1] == Format(hi)
      && (forall i | 0 <= i < |r| :: Parse(r[i]).Some? && Index(Parse(r[i]).value) == Index(lo) + i)
  {
    var lo := Earlier(Parse(start).value, Parse(end).value);
    var hi := Later(Parse(start).value, Parse(end).value);
    SpanFirst(lo, hi);
    SpanLast(lo, hi);
    SpanEntries(lo, hi);
  }

  lemma SpanFirst(lo: YearMonth, hi: YearMonth)
    requires Valid(lo) && Valid(hi) && Index(lo) <= Index(hi)
    ensures Span(lo, Index(hi) - Index(lo) + 1)[0] == Format(lo)
  {
    SpanAt(lo, Index(hi) - Index(lo) + 1, 0, lo);
  }

  lemma SpanLast(lo: YearMonth, hi: YearMonth)
    requires Valid(lo) && Valid(hi) && Index(lo) <= Index(hi)
    ensures Span(lo, Index(hi) - Index(lo) + 1)[Index(hi) - Index(lo)] == Format(hi)
  {
    SpanAt(lo, Index(hi) - Index(lo) + 1, Index(hi) - Index(lo), hi);
  }

  /** The entry of the span that lies i months after lo renders the month with that index. */
  lemma SpanAt(lo: YearMonth, n: nat, i: nat, ym: YearMonth)
    requires Index(lo) >= 0 && i < n && 1 <= ym.month <= 12 && Index(ym) == Index(lo) + i
    ensures Span(lo, n)[i] == Format(ym)
  {
    var k: nat := Index(lo) + i;
    assert Span(lo, n)[i] == Format(FromIndex(k));
    IndexInjective(FromIndex(k), ym);
  }

  lemma SpanEntries(lo: YearMonth, hi: YearMonth)
    requires Valid(lo) && Valid(hi) && Index(lo) <= Index(hi)
    ensures var r := Span(lo, Index(hi) - Index(lo) + 1);
      forall i | 0 <= i < |r| :: Parse(r[i]).Some? && Index(Parse(r[i]).value) == Index(lo) + i
  {
    var r := Span(lo, Index(hi) - Index(lo) + 1);
    forall i | 0 <= i < |r| ensures Parse(r[i]).Some? && Index(Parse(r[i]).value) == Index(lo) + i {
      SpanEntry(lo, hi, i);
      ParseFormat(FromIndex(Index(lo) + i));
    }
  }

  /** Consecutive entries of a range are consecutive months, and no month is listed twice. */
  lemma MonthRangeSteps(start: string, end: string)
    requires Parse(start).Some? && Parse(end).Some?
    ensures var r := MonthRange(start, end).value;
      && (forall i | 0 <= i < |r| - 1 :: Parse(r[i]).Some? && Parse(r[i + 1]) == Some(Succ(Parse(r[i]).value)))
      && (forall i, j | 0 <= i < j < |r| :: r[i] != r[j])
  {
    MonthRangeShape(start, end);
    var r := MonthRange(start, end).value;
    forall i | 0 <= i < |r| - 1 ensures Parse(r[i]).Some? && Parse(r[i + 1]) == Some(Succ(Parse(r[i]).value)) {
      IndexInjective(Parse(r[i + 1]).value, Succ(Parse(r[i]).value));
    }
  }

  /** Every month of a range is a rendered `YYYY-MM` key, so the list survives a comma join. */
  lemma MonthRangeTokens(start: string, end: string)
    requires Parse(start).Some? && Parse(end).Some?
    ensures var r := MonthRange(start, end).value;
      forall i | 0 <= i < |r| :: r[i] != [] && IsStripped(r[i]) && ',' !in r[i] && MonthParts(r[i]).Some?
  {
    var lo := Earlier(Parse(start).value, Parse(end).value);
    var hi := Later(Parse(start).value, Parse(end).value);
    var r := MonthRange(start, end).value;
    forall i | 0 <= i < |r| ensures r[i] != [] && IsStripped(r[i]) && ',' !in r[i] && MonthParts(r[i]).Some? {
      SpanEntry(lo, hi, i);
      FormatIsPlainToken(FromIndex(Index(lo) + i));
      MonthPartsOfFormat(FromIndex(Index(lo) + i));
    }
  }

  // ---------------------------------------------------------------------------
  // The command line
  // ---------------------------------------------------------------------------

  /** The mutually exclusive `--month`, `--months` and `--range` options, and `--lang`. */
  datatype FetchArgs = FetchArgs(
    month: Option<string>,
    months: Option<string>,
    range: Option<(string, string)>,
    lang: string)

  /** Python truthiness of an optional string option. */
  predicate Given(o: Option<string>) {
    o.Some? && o.value != ""
  }

  /**
   * `main`: the months it fetches. An empty `--months` list and a missing
   * action log an error and fetch nothing; a bad `--range` bound raises.
   */
  function MonthsToFetch(args: FetchArgs): (r: Result<seq<string>>)
    ensures Given(args.month) ==> r == Ok([args.month.value])
    ensures !Given(args.month) && Given(args.months) ==> r == Ok(MonthList(args.months.value))
    ensures r.Err? <==>
      !Given(args.month) && !Given(args.months) && args.range.Some?
      && MonthRange(args.range.value.0, args.range.value.1).None?
    ensures !Given(args.month) && !Given(args.months) && args.range.Some? && r.Ok? ==>
      r.value == MonthRange(args.range.value.0, args.range.value.1).value
    ensures !Given(args.month) && !Given(args.months) && args.range.None? ==> r == Ok([])
  {
    if Given(args.month) then Ok([args.month.value])
    else if Given(args.months) then Ok(MonthList(args.months.value))
    else if args.range.Some? then
      match MonthRange(args.range.value.0, args.range.value.1)
      case None => Err("time data does not match format '%Y-%m'")
      case Some(ms) => Ok(ms)
    else Ok([])
  }

  /** A well-formed range fetches every month in it, each into a file the ingest attributes to that month. */
  lemma RangeFetchesEveryMonth(start: string, end: string, lang: string)
    requires Parse(start).Some? && Parse(end).Some?
    requires lang != [] && '-' !in lang && !Ingest.IsYearToken(lang)
    ensures var ms := MonthRange(start, end).value;
      var jobs := Jobs(ms, lang);
      && |jobs| == |ms|
      && forall i | 0 <= i < |jobs| :: Ingest.MonthOfName(jobs[i].tsvName) == ms[i]
  {
    var lo := Earlier(Parse(start).value, Parse(end).value);
    var hi := Later(Parse(start).value, Parse(end).value);
    var ms := MonthRange(start, end).value;
    MonthRangeTokens(start, end);
    JobsComplete(ms, lang);
    var jobs := Jobs(ms, lang);
    forall i | 0 <= i < |jobs| ensures Ingest.MonthOfName(jobs[i].tsvName) == ms[i] {
      SpanJobMonth(lo, hi, i, lang, jobs[i]);
    }
  }

  lemma SpanJobMonth(lo: YearMonth, hi: YearMonth, i: nat, lang: string, job: FetchJob)
    requires Valid(lo) && Valid(hi) && i <= Index(hi) - Index(lo)
    requires lang != [] && '-' !in lang && !Ingest.IsYearToken(lang)
    requires Job(Span(lo, Index(hi) - Index(lo) + 1)[i], lang) == Some(job)
    ensures Ingest.MonthOfName(job.tsvName) == Span(lo, Index(hi) - Index(lo) + 1)[i]
  {
    SpanEntry(lo, hi, i);
    FetchedFileCarriesMonth(FromIndex(Index(lo) + i), lang);
  }
}
