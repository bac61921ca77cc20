/**
 * `pipeline/seed_demo.py`: turns `--months` or `--range` into a list of
 * months and runs the pipeline over them, one fetch for all months and
 * then ingest, validate and SLA check for each month in turn. The
 * subprocesses are described by their argument vectors; running them is
 * not part of this model.
 */
module SeedDemo {
  import opened Wrappers
  import opened Text
  import opened FetchClickstream
  import opened Seqs

  /** The mutually exclusive `--months` and `--range` options, `--lang` and `--chunksize`. */
  datatype SeedArgs = SeedArgs(
    months: Option<string>,
    range: Option<(string, string)>,
    lang: string,
    chunksize: int)

  const NoValidMonths: string := "No valid months in --months."
  const NoMonthsProvided: string := "No months provided."
  const BadMonth: string := "time data does not match format '%Y-%m'"

  /**
   * `expand_months`: the `--months` list (an empty list exits), else the
   * `--range` months, else exit. The range uses the same month iteration
   * as `fetch_clickstream.py`, which the script carries a copy of.
   */
  function ExpandMonths(args: SeedArgs): (r: Result<seq<string>>)
    ensures r.Ok? ==> r.value != []
    ensures Given(args.months) ==>
      r == (if MonthList(args.months.value) == [] then Err(NoValidMonths) else Ok(MonthList(args.months.value)))
    ensures !Given(args.months) && args.range.None? ==> r == Err(NoMonthsProvided)
    ensures !Given(args.months) && args.range.Some? ==>
      (r.Ok? <==> MonthRange(args.range.value.0, args.range.value.1).Some?)
    ensures !Given(args.months) && args.range.Some? && r.Ok? ==>
      r.value == MonthRange(args.range.value.0, args.range.value.1).value
  {
    if Given(args.months) then
      var ms := MonthList(args.months.value);
      if ms == [] then Err(NoValidMonths) else Ok(ms)
    else if args.range.Some? then
      match MonthRange(args.range.value.0, args.range.value.1)
      case None => Err(BadMonth)
      case Some(ms) => Ok(ms)
    else Err(NoMonthsProvided)
  }

  /** The argument vector of one `run(...)` call. */
  type Command = seq<string>

  /** Step 1: one fetch for all months, passed on as a comma-joined `--months` list. */
  function FetchCommand(months: seq<string>, lang: string): Command {
    ["python", "pipeline/fetch_clickstream.py", "--months", Join(months, ','), "--lang", lang]
  }

  /** Step 2, for one month: ingest, validate and SLA check, in that order. */
  function MonthCommands(month: string, chunksize: int): seq<Command> {
    [ ["python", "pipeline/ingest.py", "--month", month, "--chunksize", FormatInt(chunksize, 0)],
      ["python", "pipeline/validate.py", "--month", month],
      ["python", "pipeline/sla_check.py", "--month", month] ]
  }

  /** The per-month commands for a list of months, month by month. */
  function PerMonth(months: seq<string>, chunksize: int): seq<Command> {
    if months == [] then []
    else PerMonth(months[..|months| - 1], chunksize) + MonthCommands(months[|months| - 1], chunksize)
  }

  lemma PerMonthSnoc(months: seq<string>, k: nat, chunksize: int)
    requires k < |months|
    ensures PerMonth(months[..k + 1], chunksize) == PerMonth(months[..k], chunksize) + MonthCommands(months[k], chunksize)
  {
    assert months[..k + 1][..k] == months[..k];
  }

  /**
   * `main`: the commands it runs, in order. An exit in `expand_months` runs
   * nothing. A failing command (`check=True`) would stop the run early;
   * that is not modelled here.
   */
  method Seed(args: SeedArgs) returns (r: Result<seq<Command>>)
    ensures ExpandMonths(args).Err? ==> r == Err(ExpandMonths(args).message)
    ensures ExpandMonths(args).Ok? ==>
      r == Ok([FetchCommand(ExpandMonths(args).value, args.lang)]
              + PerMonth(ExpandMonths(args).value, args.chunksize))
  {
    var expanded := ExpandMonths(args);
    if expanded.Err? {
      return Err(expanded.message);
    }
    var ms := expanded.value;
    var cmds: seq<Command> := [FetchCommand(ms, args.lang)];
    for k := 0 to |ms|
      invariant cmds == [FetchCommand(ms, args.lang)] + PerMonth(ms[..k], args.chunksize)
    {
      PerMonthSnoc(ms, k, args.chunksize);
      AppendAssoc([FetchCommand(ms, args.lang)], PerMonth(ms[..k], args.chunksize), MonthCommands(ms[k], args.chunksize));
      cmds := cmds + MonthCommands(ms[k], args.chunksize);
    }
    PrefixWhole(ms, |ms|);
    r := Ok(cmds);
  }

  /**
   * The run is the fetch followed by three commands per month: for month i,
   * ingest, validate and SLA check sit at positions 1 + 3i to 3 + 3i.
   */
  lemma {:induction false} PerMonthLayout(months: seq<string>, chunksize: int)
    ensures |PerMonth(months, chunksize)| == 3 * |months|
    ensures forall i | 0 <= i < |months| ::
      PerMonth(months, chunksize)[3 * i .. 3 * i + 3] == MonthCommands(months[i], chunksize)
  {
    if months != [] {
      var init := months[..|months| - 1];
      PerMonthLayout(init, chunksize);
      var p := PerMonth(months, chunksize);
      forall i | 0 <= i < |months|
        ensures p[3 * i .. 3 * i + 3] == MonthCommands(months[i], chunksize)
      {
        if i < |init| {
          assert p[3 * i .. 3 * i + 3] == PerMonth(init, chunksize)[3 * i .. 3 * i + 3];
          assert months[i] == init[i];
        }
      }
    }
  }

  /** Every expanded month is a non-empty token without a comma or outer whitespace. */
  lemma ExpandedMonthsAreTokens(args: SeedArgs)
    requires ExpandMonths(args).Ok?
    ensures forall i | 0 <= i < |ExpandMonths(args).value| ::
      var m := ExpandMonths(args).value[i];
      m != [] && IsStripped(m) && ',' !in m
  {
    if Given(args.months) {
      MonthListTokens(args.months.value);
    } else {
      MonthRangeTokens(args.range.value.0, args.range.value.1);
    }
  }

  lemma JoinStartsWithFirst(parts: seq<string>, sep: char)
    requires parts != []
    ensures |Join(parts, sep)| >= |parts[0]|
  {
  }

  /**
   * The fetch step receives exactly the expanded months: the comma-joined
   * list it is given is read back by `fetch_clickstream.py` as the same
   * months in the same order.
   */
  lemma FetchSeesExpandedMonths(args: SeedArgs)
    requires ExpandMonths(args).Ok?
    ensures var ms := ExpandMonths(args).value;
      MonthsToFetch(FetchArgs(None, Some(Join(ms, ',')), None, args.lang)) == Ok(ms)
  {
    var ms := ExpandMonths(args).value;
    ExpandedMonthsAreTokens(args);
    JoinStartsWithFirst(ms, ',');
    MonthListJoin(ms);
  }
}
