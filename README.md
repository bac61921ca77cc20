# Event-log quality monitor: a Dafny model of the batch pipeline

The event-log quality monitor downloads the monthly Wikimedia Clickstream
dumps, loads each month into a SQLite table, computes data-quality (DQ)
metrics per month and checks service-level agreements (SLAs) on them. A
dashboard shows the month-over-month trend with pass/fail flags.

This project models the pipeline in Dafny and proves what it guarantees:

- **Ingest** (`ingest.dfy`, `pipeline/ingest.py`).
  - The month is found in the file name (`detect_month_from_filename`).
  - Each parsed chunk is cleaned (`clean_chunk`).
  - `load_tsv_to_sqlite` deletes the month's rows and appends the cleaned chunks. It then writes one `ingest_audit` row describing the attempt.
  - `run_for_month` and `run_for_all` repeat this over the `*.tsv` files in name order.
  - The database is the class `Storage.Db`. Its fields `raw`, `audit` and `dq` are the tables `clickstream_raw`, `ingest_audit` and `dq_monthly`. The methods update them in place.
  - A file arrives as the chunks its parser yields. The environment's failures arrive as a `Fault`: a failure before the delete, or a failure at chunk k.
  - Each `to_sql` call commits, and the pending delete is committed with it. If an attempt raises before any row was written, the connection block rolls the delete back and the month keeps its old rows. `Ingest.Loaded` and `Ingest.LoadTsv` model this, and `Ingest.FailedAttemptEffect` states it.
- **Validate** (`validate.dfy`, `pipeline/validate.py`).
  - `read_month`, then `inject_null_for_demo`: blank text cells become missing.
  - `compute_quality` gives the null, keep-first duplicate and negative-count rates as exact ratios. The NaN null rate of an empty month is `None`.
  - `upsert_monthly` writes into the `dq` map.
- **SLA check** (`sla_check.dfy`, `pipeline/sla_check.py`).
  - `prev_month`, with the year wrap.
  - The arrival, row-floor and volume-drop decisions of `main`. The script only logs them; here they are returned as a `Verdict`.
- **Fetch** (`fetch_clickstream.dfy`, `pipeline/fetch_clickstream.py`).
  - `month_parts` and `url_for`.
  - The `--months` list parsing and the inclusive month iteration `iter_months_inclusive`.
  - The job each month gives: the URL it downloads and the two file names it writes.
- **Seed** (`seed_demo.dfy`, `pipeline/seed_demo.py`).
  - `expand_months`.
  - The command sequence of `main`: one fetch, then ingest, validate and SLA check for each month.
- **Dashboard** (`dashboard.dfy`, `app/dashboard.py`).
  - `compute_trend_metrics`: sort by month, then compare each row with the previous row.
  - `add_sla_flags`: the strict drop comparison, the inclusive rate comparisons and the AND of the flags.

Shared modules:

- `text.dfy`: the Python string operations the scripts use: `split`, `join`, `strip`, `isdigit`, `int`, zero-padded formatting, `in`, `endswith` and code-point order.
- `months.dfy`: `strptime(s, "%Y-%m")`, the `%04d-%02d` rendering and the one-month step.
- `sorting.dfy`: ordering by a string key, as `sorted` and `sort_values` do.
- `storage.dfy`: the tables and the row filters run against them.
- `seqs.dfy`: sequence identities and a left fold.
- `wrappers.dfy`: `Option` and `Result`.

Four behaviours of the code that a reader might not expect; the model follows the code:

- `sla_check.py` checks only arrival, the row floor and the volume drop. It gives no overall verdict. The null, duplicate and range-error thresholds are compared only by the dashboard.
- `skipped_lines` counts only the lines the cleaner drops. Lines the parser skips are not counted.
- Thresholds are never checked for range.
- In `load_tsv_to_sqlite`, the rows of chunks written before a failure remain. A failure before the first write rolls back the delete as well.

Years below 1000 are written unpadded in a download URL (`f"{y}"`), while
month keys pad them to four digits. `FetchClickstream.UrlForCanonical`
therefore holds from year 1000 on.

## Model

| member | source | states |
|---|---|---|
| Storage.Db.constructor | pipeline/ingest.py:42-45 | a fresh database has empty raw, audit and summary tables and satisfies the audit numbering |
| Storage.MonthRows | pipeline/validate.py:41-46 | selecting by `load_month` yields exactly the stored rows carrying that key, never more rows than stored |
| Storage.DeleteMonth | pipeline/ingest.py:118 | the delete keeps exactly the rows of other months |
| Storage.MonthRowsAfterDelete | pipeline/ingest.py:118 | after deleting a month, that month reads empty and every other month reads exactly as before |
| Storage.DeleteMonthIdempotent | pipeline/ingest.py:118 | deleting a month twice is deleting it once |
| Storage.MonthRowsAppend | pipeline/ingest.py:127 | appending rows extends each month's selection by the appended rows of that month, in order |
| Storage.DeleteMonthAppend | pipeline/ingest.py:118 | the delete distributes over appended rows |
| Storage.SingleMonthRows | pipeline/ingest.py:66 | rows all tagged with one month are that month's whole selection, belong to no other month, and vanish when it is deleted |
| Ingest.SearchMonth | pipeline/ingest.py:35-39 | "unknown" exactly when no token from index 1 on, with a token after it, is four digits; otherwise the leftmost such year token, a dash and the next token, whatever that token is |
| Ingest.DetectMonth | pipeline/ingest.py:30-39 | the search loop with its early return finds the month of the specification function |
| Ingest.StemDropsLastSuffix | pipeline/ingest.py:35 | the stem removes only the last suffix |
| Ingest.MonthOfJoined | pipeline/ingest.py:35 | a name made of dash-joined tokens and one suffix is searched over exactly those tokens |
| Ingest.SearchFindsThirdToken | pipeline/ingest.py:36-38 | a non-year second token is skipped and a year third token is taken with its successor |
| Ingest.DetectDownloadedName | pipeline/ingest.py:30-39 | `clickstream-<lang>-<YYYY>-<MM>.<ext>` is attributed to `YYYY-MM` |
| Ingest.DetectSampleName | pipeline/ingest.py:30-39 | `clickstream-<lang>-<YYYY>-<MM>-sample.tsv` is attributed to `YYYY-MM` |
| Ingest.DetectSkipsFirstToken | pipeline/ingest.py:36-37 | token 0 is never the year: `2025-09.tsv` is "unknown" |
| Ingest.Kept | pipeline/ingest.py:60-62 | a record is kept iff it has all four cells, `n >= 0` and a known type; never more records than given |
| Ingest.KeptAppend | pipeline/ingest.py:60-62 | the filters act record by record: the kept records of a concatenation are the kept records of each part, in input order |
| Ingest.KeptAll | pipeline/ingest.py:60-62 | a chunk whose every record passes the filters is kept whole, in order |
| Ingest.Dropped | pipeline/ingest.py:60-62 | a record is dropped iff it fails one of the filters |
| Ingest.KeptDroppedPartition | pipeline/ingest.py:60-62 | kept and dropped records together are exactly the chunk, counted with multiplicity |
| Ingest.CleanerSoundAndComplete | pipeline/ingest.py:54-62 | every kept record passes the filters, every dropped one fails one, and no record is lost |
| Ingest.ToRow | pipeline/ingest.py:54-66 | a kept record becomes a clean row tagged with the month that carries the record's `prev`, `curr` and `type`, and its count as an integer whenever the cast accepts it |
| Ingest.Rows | pipeline/ingest.py:65-66 | row i is the row of kept record i: one clean row per kept record, in order, each tagged with the month |
| Ingest.CleanChunk | pipeline/ingest.py:48-67 | the cast raises iff a kept record has a fractional count or one of 2^63 or more; otherwise the result is the rows of the kept records in input order |
| Ingest.StopFrom | pipeline/ingest.py:120-130 | the loop runs up to the first chunk whose read or cast raises: every earlier chunk went through, and the stopping chunk raises |
| Ingest.CleanRows | pipeline/ingest.py:120-127 | every row appended by the chunk loop is clean and carries the load month |
| Ingest.ChunkStep | pipeline/ingest.py:126-130 | one more chunk extends the stored rows by its kept rows and the skipped total by its dropped lines |
| Ingest.StoreChunk | pipeline/ingest.py:121-130 | a raising cast stores nothing; otherwise the kept rows are appended and kept and skipped are the chunk's kept and dropped counts; the audit and summaries are untouched |
| Ingest.AppendChunks | pipeline/ingest.py:120-134 | the loop appends the rows of the chunks before the first failure; the totals are the kept and dropped counts of those chunks; it raises iff a read or cast failed |
| Ingest.SchemaFaultCounts | pipeline/ingest.py:113-115 | a failure before the delete processes no chunk: zero inserted, zero skipped, FAILED |
| Ingest.WriteAudit | pipeline/ingest.py:136-162 | the finally block appends exactly one audit row under the next id, unless that write fails, which is swallowed; the ids stay 1, 2, 3, ... |
| Ingest.LoadTsv | pipeline/ingest.py:98-170 | the raw table becomes the specified outcome of the attempt, the audit table gains its row under the next id, the summaries are untouched, and the ids stay numbered |
| Ingest.SuccessProcessesAll | pipeline/ingest.py:120-134 | a SUCCESS attempt processed every chunk |
| Ingest.CountsCoverRecords | pipeline/ingest.py:121-130 | inserted plus skipped equals the number of records the processed chunks held |
| Ingest.CleanRowsAppend | pipeline/ingest.py:120-127 | the rows of two runs of chunks are the rows of the first followed by those of the second |
| Ingest.OtherMonthsUntouched | pipeline/ingest.py:118 | whatever the outcome, every month other than the file's reads exactly as before |
| Ingest.ReplacedMonth | pipeline/ingest.py:118-127 | deleting a month and appending rows of that month leaves the month holding exactly those rows |
| Ingest.SuccessReplacesMonth | pipeline/ingest.py:117-127 | after a SUCCESS the month holds exactly the cleaned rows of the file in order: replaced, not appended to |
| Ingest.FailedAttemptEffect | pipeline/ingest.py:113-134 | a FAILED attempt that inserted nothing leaves the raw table as it was; one that inserted rows leaves the month holding exactly the rows of the chunks before the failure |
| Ingest.LoadIdempotent | pipeline/ingest.py:98-130 | ingesting the same file twice leaves the same raw table as ingesting it once |
| Ingest.NegativeCountKept | pipeline/ingest.py:60-62 | of four lines, the three valid ones are kept in order |
| Ingest.NegativeCountDropped | pipeline/ingest.py:61 | the line with a negative count is dropped |
| Ingest.NegativeCountCasts | pipeline/ingest.py:65 | whole counts make the cast succeed |
| Ingest.NegativeCountRows | pipeline/ingest.py:65-66 | the kept lines become the three expected rows of 2025-09 |
| Ingest.SingleChunkLoad | pipeline/ingest.py:120-130 | a one-chunk file without faults succeeds, the month holds that chunk's kept rows, and the audit counts its kept and dropped lines |
| Ingest.ScenarioNegativeCount | pipeline/ingest.py:98-162 | that file stores the three rows under 2025-09 and audits 3 inserted, 1 skipped, SUCCESS |
| Ingest.Matching | pipeline/ingest.py:174 | exactly the `*.tsv` files whose detected month is the requested one |
| Ingest.TsvFiles | pipeline/ingest.py:183 | exactly the files whose name ends in `.tsv` |
| Ingest.LoadAll | pipeline/ingest.py:178-179 | loading files in order leaves the tables of the files' attempts one after another, keeps the ids numbered and leaves the summaries alone |
| Ingest.LoadNext | pipeline/ingest.py:178-179 | one more file extends the fold of attempts by that file's attempt |
| Ingest.AuditedAllNumbered | pipeline/ingest.py:143-159 | whatever the attempts, the audit ids stay 1, 2, 3, ... in insertion order |
| Ingest.LoadedAllOtherMonths | pipeline/ingest.py:178-179 | a month no file carries reads the same after all of them |
| Ingest.LoadedAllLastWins | pipeline/ingest.py:178-179 | when the last file succeeds, its month holds exactly that file's rows |
| Ingest.RunForMonth | pipeline/ingest.py:173-179 | the month's files are loaded in name order, and nothing happens when there is none |
| Ingest.RunForMonthFiles | pipeline/ingest.py:174-178 | the files loaded are the month's `*.tsv` files, each exactly once, in ascending name order |
| Ingest.RunForMonthEffect | pipeline/ingest.py:173-179 | other months are untouched and, when the last file in name order succeeds, the month holds exactly its rows |
| Ingest.RunForAll | pipeline/ingest.py:182-188 | every `*.tsv` file is loaded in name order |
| Ingest.RunForAllOtherMonths | pipeline/ingest.py:182-188 | a month no `*.tsv` file carries is left as it was |
| Validate.ReadMonth | pipeline/validate.py:39-46 | the frame has the four core columns and one row per stored row of the month, in stored order |
| Validate.WithTextCell | pipeline/validate.py:29-31 | rewriting one text column changes that cell only |
| Validate.NormalizeCell | pipeline/validate.py:29-31 | a cell becomes missing iff it is missing or blank after stripping; a present result is exactly the stripped original text, and non-empty |
| Validate.BlankCellBecomesMissing | pipeline/validate.py:29-31 | a present cell becomes missing exactly when every character is whitespace; otherwise it becomes its stripped text |
| Validate.Normalized | pipeline/validate.py:26-33 | normalising keeps the columns and the row count |
| Validate.NormalizeStep | pipeline/validate.py:27-31 | rewriting the next text column advances the per-row state by that column |
| Validate.InjectNullForDemo | pipeline/validate.py:26-33 | the column loop produces the normalised frame |
| Validate.NormalizedCleansText | pipeline/validate.py:26-33 | each text cell of a column the frame has becomes the normalisation of the original cell (stripped, blank to missing), cells of absent columns and `n` are untouched |
| Validate.NormalizedIdempotent | pipeline/validate.py:26-33 | normalising twice is normalising once |
| Validate.NullCells | pipeline/validate.py:65 | at most four missing cells per row |
| Validate.DuplicateCount | pipeline/validate.py:66 | never more duplicates than rows |
| Validate.NegativeCount | pipeline/validate.py:67 | never more negative counts than rows |
| Validate.RatioBounded | pipeline/validate.py:65-67 | each rate lies in [0, 1] and is 0 iff its count is 0 |
| Validate.ComputeQuality | pipeline/validate.py:49-75 | the row count; schema valid iff the four columns are there; null rate 1.0 without them and no value for an empty valid frame; all rates in [0, 1]; rates 0 for degenerate frames; each rate 0 iff its count is 0; for a valid non-empty frame the null rate is the missing cells over four cells per row, the duplicate rate the rows repeating an earlier `(prev, curr, type)` over the rows, and the range error rate the negative counts over the rows |
| Validate.KeysSnoc | pipeline/validate.py:66 | one more row adds its triple to the set of seen triples |
| Validate.DuplicatesPlusDistinct | pipeline/validate.py:66 | duplicates plus distinct triples equals the row count: each row is a first occurrence or a repeat |
| Validate.LastIsDuplicate | pipeline/validate.py:66 | the last row counts as a duplicate iff an earlier row has its triple |
| Validate.NoDuplicatesIffDistinct | pipeline/validate.py:66 | the duplicate rate is zero iff all triples are distinct |
| Validate.ScenarioDuplicate | pipeline/validate.py:65-75 | three rows, the second repeating the first: 3 rows, null rate 0, duplicate rate 1/3, range error rate 0, valid |
| Validate.NoNegatives | pipeline/validate.py:67 | rows whose counts are all present and non-negative have no range errors |
| Validate.CleanMonthHasNoRangeErrors | pipeline/validate.py:67 | a month read back from rows with non-negative counts is valid and has range error rate 0 |
| Validate.UpsertMonthly | pipeline/validate.py:78-101 | the month's summary becomes the new one, every other month's is unchanged, and the raw and audit tables are untouched |
| Validate.Run | pipeline/validate.py:113-128 | without the database nothing changes; otherwise the month's summary is that of its normalised rows, also for a month without rows |
| Validate.RevalidateIdempotent | pipeline/validate.py:80-92 | validating a month twice leaves the tables as validating it once: the month's summary of the unchanged raw rows, everything else as before |
| Validate.EmptyMonthSummary | pipeline/validate.py:55-63 | a month without rows is summarised as 0 rows, no null rate, zero rates, valid |
| SlaCheck.PrevMonth | pipeline/sla_check.py:39-44 | fails iff the month does not parse as `%Y-%m` |
| SlaCheck.Evaluate | pipeline/sla_check.py:63-99 | not arrived iff no `*.tsv` name contains the month; no database iff arrived without it; otherwise the exact-key row count, the floor passing iff rows >= minimum, and the drop check against the previous month's count, skipped iff that count is 0 and otherwise a volume drop iff `1 - rows/prev` exceeds the threshold |
| SlaCheck.PrevMonthOfFormat | pipeline/sla_check.py:39-44 | a rendered month's predecessor is the rendering of the month before it |
| SlaCheck.PrevMonthWraps | pipeline/sla_check.py:42-43 | January goes to December of the year before, any other month to the month before in the same year |
| SlaCheck.PrevMonthUndoesSucc | pipeline/sla_check.py:39-44 | the predecessor of the month loops' successor is the month itself |
| SlaCheck.PrevMonthWellFormed | pipeline/sla_check.py:44 | the predecessor is again a seven-character `YYYY-MM` key that parses back |
| SlaCheck.DropRuleInProducts | pipeline/sla_check.py:86-88 | the drop is flagged iff rows < previous rows * (1 - threshold) |
| SlaCheck.DropThresholdMonotone | pipeline/sla_check.py:88 | raising the threshold never turns a passing drop check into a failing one |
| SlaCheck.RowFloorMonotone | pipeline/sla_check.py:78 | lowering the minimum never turns a passing floor into a failing one |
| SlaCheck.ScenarioBelowFloor | pipeline/sla_check.py:78-81 | 800 rows fail a floor of 1000, and exactly 1000 pass |
| SlaCheck.ScenarioVolumeDrop | pipeline/sla_check.py:86-88 | 750 after 1000 is a drop above 0.20 and not above 0.25 |
| SlaCheck.ScenarioNoPreviousData | pipeline/sla_check.py:86-99 | without previous rows the drop check is skipped |
| SlaCheck.OnlyExactKeyCounts | pipeline/sla_check.py:31-36 | a row stored under any other key does not change the count |
| Months.FromIndex | pipeline/fetch_clickstream.py:85-92 | every month index names exactly one year-month |
| Months.IndexInjective | pipeline/fetch_clickstream.py:86 | two year-months with the same index are equal |
| Months.TupleOrderIsIndexOrder | pipeline/fetch_clickstream.py:86 | the tuple order `(y, m) <= (y', m')` is the order of month indices |
| Months.Succ | pipeline/fetch_clickstream.py:88-92 | the loop step moves exactly one month on, December wrapping to January |
| Months.Pred | pipeline/sla_check.py:42-43 | the step back moves exactly one month back, January wrapping to December |
| Months.PredSuccInverse | pipeline/sla_check.py:42-43 | one step forward then back, or back then forward, is no step |
| Months.MonthToken | pipeline/sla_check.py:41 | an accepted `%m` token is a month from 1 to 12 |
| Months.Parse | pipeline/sla_check.py:41 | a parsed key is a year from 1 to 9999 and a month from 1 to 12 |
| Months.ParseDigitsBound | pipeline/sla_check.py:41 | four digits make a year below 10000 |
| Months.FormatShape | pipeline/sla_check.py:44 | a valid month renders as seven characters: four digits, a dash, two digits |
| Months.ParseFormat | pipeline/sla_check.py:41-44 | parsing a rendered month gives the month back |
| Months.FormatInjective | pipeline/fetch_clickstream.py:87 | different months render differently |
| Months.FormatIsPlainToken | pipeline/fetch_clickstream.py:87 | a rendered month is non-empty, without a comma and without outer whitespace |
| Text.ParseInt | pipeline/fetch_clickstream.py:31 | `int` accepts every non-empty plain digit string, with its decimal value |
| Text.ParseIntPadded | pipeline/fetch_clickstream.py:31 | `int` accepts a digit string surrounded by any whitespace, with its decimal value |
| Text.SignedDigits | pipeline/fetch_clickstream.py:31 | a digit string with one `-` or `+` in front is read as the negated or the plain value, and has no outer whitespace |
| Text.StrippedBeforeParse | pipeline/fetch_clickstream.py:31 | whitespace around the text does not change what `int` reads |
| Text.StripSurrounded | pipeline/fetch_clickstream.py:103 | `strip` removes exactly the whitespace around a core that starts and ends with a non-space character |
| Text.Pad | pipeline/sla_check.py:44 | zero-padded formatting gives at least the width in digits |
| Text.ParsePad | pipeline/sla_check.py:44 | reading a zero-padded number gives the number back |
| Text.PadWidth | pipeline/sla_check.py:44 | a number below 10^width is written in exactly width digits |
| Text.PadParse | pipeline/sla_check.py:44 | padding the value of a digit string to its own length gives the string back |
| Text.PadNoLeadingZero | pipeline/fetch_clickstream.py:36 | a number with at least as many digits as the width is written the same padded or not |
| Text.Strip | pipeline/fetch_clickstream.py:103 | the result has no outer whitespace and is never longer |
| Text.StripBlank | pipeline/fetch_clickstream.py:103 | stripping gives the empty string exactly when every character is whitespace |
| Text.StripKeepsStripped | pipeline/fetch_clickstream.py:103 | stripping a stripped string changes nothing |
| Text.Split | pipeline/ingest.py:35 | a split always has at least one field |
| Text.SplitAvoidsSep | pipeline/fetch_clickstream.py:103 | no field of a split holds the separator |
| Text.SplitJoin | pipeline/seed_demo.py:70 | joining separator-free fields and splitting again gives the fields back |
| Text.LastIndexOf | pipeline/ingest.py:35 | the last position of the character, or -1 iff it does not occur |
| Text.LexLeTotal | pipeline/ingest.py:178 | any two names are ordered one way or the other |
| Text.LexLeTransitive | pipeline/ingest.py:178 | the name order is transitive |
| Text.LexLeAntisymmetric | pipeline/ingest.py:178 | names ordered both ways are equal |
| Sorting.Insert | pipeline/ingest.py:178 | inserting adds exactly that element |
| Sorting.InsertSorted | pipeline/ingest.py:178 | inserting into a sorted sequence keeps it sorted |
| Sorting.SortBy | pipeline/ingest.py:178 | sorting keeps exactly the same elements |
| Sorting.SortBySorted | pipeline/ingest.py:178 | the result is in ascending key order |
| FetchClickstream.MonthParts | pipeline/fetch_clickstream.py:29-31 | accepted only when the month splits into exactly two dash-separated fields |
| FetchClickstream.UrlFor | pipeline/fetch_clickstream.py:34-36 | fails exactly when `month_parts` fails |
| FetchClickstream.SplitFormat | pipeline/fetch_clickstream.py:30 | a rendered month splits at its dash into year and month digits |
| FetchClickstream.MonthPartsOfFormat | pipeline/fetch_clickstream.py:29-31 | `month_parts` reads back the year and month of a rendered month |
| FetchClickstream.MonthPartsRejectsExtraDash | pipeline/fetch_clickstream.py:30 | a string with two dashes, such as a full date, is refused |
| FetchClickstream.UrlForCanonical | pipeline/fetch_clickstream.py:34-36 | from year 1000 on the URL embeds the `YYYY-MM` key, month zero-padded, in the directory and in the file name |
| FetchClickstream.Job | pipeline/fetch_clickstream.py:71-76 | a month fails iff `month_parts` fails; otherwise its job downloads the URL of `url_for` |
| FetchClickstream.UntilNone | pipeline/fetch_clickstream.py:107-108 | the results before the first failure, and the entry after them is that failure |
| FetchClickstream.Outcomes | pipeline/fetch_clickstream.py:107-108 | one outcome per month |
| FetchClickstream.FetchAll | pipeline/fetch_clickstream.py:107-108 | the month loop carries out one job per month up to the first month that raises |
| FetchClickstream.UntilNoneFull | pipeline/fetch_clickstream.py:107-108 | nothing is cut off iff no month fails |
| FetchClickstream.JobsComplete | pipeline/fetch_clickstream.py:107-108 | every month is fetched iff every month is well formed |
| FetchClickstream.FetchedFileCarriesMonth | pipeline/fetch_clickstream.py:73-74 | the `.tsv` a job writes is attributed by the ingest to the job's own month |
| FetchClickstream.NonBlank | pipeline/fetch_clickstream.py:103 | every kept entry is non-empty and stripped, and there are never more than the inputs |
| FetchClickstream.NonBlankAppend | pipeline/fetch_clickstream.py:103 | the comprehension works entry by entry: filtering a concatenation concatenates the filtered parts, in order |
| FetchClickstream.NonBlankOne | pipeline/fetch_clickstream.py:103 | a single entry is kept as its stripped text exactly when that text is non-empty, and dropped otherwise |
| FetchClickstream.NonBlankKeeps | pipeline/fetch_clickstream.py:103 | non-empty stripped entries are all kept, in order |
| FetchClickstream.MonthListTokens | pipeline/fetch_clickstream.py:103 | every listed month is non-empty, stripped and comma-free |
| FetchClickstream.MonthListJoin | pipeline/fetch_clickstream.py:103 | reading back a comma-join of clean months gives the same months in order |
| FetchClickstream.MonthListIdempotent | pipeline/fetch_clickstream.py:103 | reading, joining and reading again changes nothing |
| FetchClickstream.Span | pipeline/fetch_clickstream.py:85-92 | exactly n entries, one per month counted from the start |
| FetchClickstream.SpanSnoc | pipeline/fetch_clickstream.py:86-92 | one more loop turn appends the current month's rendering |
| FetchClickstream.MonthRange | pipeline/fetch_clickstream.py:79-92 | fails iff a bound does not parse; otherwise at least one month |
| FetchClickstream.IterMonthsInclusive | pipeline/fetch_clickstream.py:79-92 | the generator drained yields the specified range |
| FetchClickstream.StepMonths | pipeline/fetch_clickstream.py:85-92 | the `(y, m)` loop yields every month from the lower bound to the upper bound |
| FetchClickstream.SpanEntries | pipeline/fetch_clickstream.py:87 | entry i parses to the month i steps after the start |
| FetchClickstream.MonthRangeSymmetric | pipeline/fetch_clickstream.py:83-84 | the bounds may be given in either order |
| FetchClickstream.MonthRangeShape | pipeline/fetch_clickstream.py:83-92 | from the earlier bound to the later, both included, the length being the index difference plus one, entry i being i months after the first |
| FetchClickstream.MonthRangeSteps | pipeline/fetch_clickstream.py:86-92 | consecutive entries are calendar successors, and no month repeats |
| FetchClickstream.MonthRangeTokens | pipeline/fetch_clickstream.py:87 | every entry is a clean token that `month_parts` accepts |
| FetchClickstream.MonthsToFetch | pipeline/fetch_clickstream.py:129-139 | `--month` wins, then `--months`, then `--range`, whose bad bound is the only error and whose months are exactly those of the inclusive month range; without an action nothing is fetched |
| FetchClickstream.RangeFetchesEveryMonth | pipeline/fetch_clickstream.py:111-113 | a well-formed range fetches every month in it, each into a file the ingest attributes to that month |
| SeedDemo.ExpandMonths | pipeline/seed_demo.py:38-49 | `--months` gives its clean entries or exits when none remain; otherwise `--range` gives exactly the months of the inclusive month range or fails on a bad bound; without either it exits; a success is never empty |
| SeedDemo.Seed | pipeline/seed_demo.py:65-76 | an exit runs nothing; otherwise one fetch of all months, then each month's three commands in list order |
| SeedDemo.PerMonthLayout | pipeline/seed_demo.py:73-76 | three commands per month, month i's ingest, validate and SLA check sitting at positions 3i to 3i + 2 |
| SeedDemo.ExpandedMonthsAreTokens | pipeline/seed_demo.py:40-47 | every expanded month is non-empty, stripped and comma-free |
| SeedDemo.FetchSeesExpandedMonths | pipeline/seed_demo.py:70 | the fetch step reads back exactly the expanded months, in order |
| Dashboard.DeltaPct | app/dashboard.py:47 | finite iff there is a positive previous count, then equal to the percentage change, negative iff the count fell and zero iff unchanged; +inf for growth from zero |
| Dashboard.Annotate | app/dashboard.py:45-47 | one metric per row |
| Dashboard.ComputeTrendMetrics | app/dashboard.py:39-48 | one metric per row, so an empty table stays empty |
| Dashboard.TrendMetricsShape | app/dashboard.py:43-47 | the input rows, each once, in ascending month order; the previous count is the previous row's and the first row has none |
| Dashboard.FlagsOf | app/dashboard.py:57-63 | a drop violation iff the delta is finite and strictly below `-(drop * 100)`; each rate check passes iff the rate is present and at most its maximum; overall iff all four checks; the delta check passes iff there is no drop violation or no previous row |
| Dashboard.AddSlaFlags | app/dashboard.py:51-64 | row i carries the flags of metric i, one row per metric, in table order |
| Dashboard.DropFlagIsSlaRule | app/dashboard.py:57 | against a positive previous count, the drop flag is the SLA check's volume-drop rule |
| Dashboard.ZeroPreviousNeverDrops | app/dashboard.py:57 | a previous month without rows never raises the drop flag |
| Dashboard.MissingNullRateFails | app/dashboard.py:59 | a missing null rate fails the null check and the overall check |
| Dashboard.FirstMonthDeltaOk | app/dashboard.py:62 | the first month's delta check passes |
| Dashboard.FlagsMonotone | app/dashboard.py:57-63 | raising any threshold never turns a passing flag, or the overall flag, into a failing one |
| Dashboard.DefaultRangeMaxAllowsNoErrors | app/dashboard.py:16 | with the default maximum 0.0 the range check passes only without range errors |

## Left out

- Parsing: the pandas TSV reader (`read_tsv`, quoting, bad-line skipping, chunking) is not modelled; a file is given as the chunks it yields. Cells are already strings or missing, and `n` is an exact number or missing.
- `apply_schema` and `db/schema.sql` are not part of this model; a failure to connect or apply the schema is the fault before the delete. Column constraints of the tables are not modelled.
- Timestamps from `utcnow()` are opaque strings carried by the input; the log lines and `DB_PATH.parent.mkdir` are not modelled.
- Ingest.WriteAudit: opening the audit connection happens outside the `try`, so its failure would propagate; only a failing insert or commit (swallowed) is modelled.
- Ingest.DetectMonth: `str.isdigit` also accepts non-ASCII digits; only ASCII digits are modelled.
- SQLite returns rows without `ORDER BY` in an unspecified order; the model reads them in insertion order.
- Floating point: rates, drops and percentages are exact reals. The only NaN that can reach a stored summary, the null rate of an empty month, is `None`; the dashboard's 0/0 is `NaN` and growth from zero `PosInf`.
- Ingest.CleanChunk: `pd.to_numeric` turns `inf` or `1e400` into an infinite count, which passes `n >= 0` and makes the `Int64` cast raise, failing the attempt. An infinite count is not representable here. Finite counts of 2^63 or more, which make the cast raise the same way, are modelled.
- Text.ParseInt: Python's `int` also accepts underscores between digits and non-ASCII digits; those are refused here. `strptime`'s `\d` likewise matches only ASCII digits here.
- Command lines: `argparse` (defaults such as `--min_rows 1000`, `--drop_threshold 0.20`, `--chunksize 500000`, and the mutually exclusive groups) is not modelled; the parsed options are the inputs.
- The file system: the listing of the raw directory and the existence of the database file are inputs.
- Fetching: `download` (HTTP, retries, user agent, skipping existing files) and `gunzip` are not modelled; a job records what they would be given.
- FetchClickstream.FetchAll: a download that still fails after its retries raises `RuntimeError` and stops the loop; only the `ValueError` of `url_for` is modelled as stopping it.
- `seed_demo.py` carries its own copy of `iter_months_inclusive`; it is the same code and is modelled once, in `FetchClickstream`.
- SeedDemo.Seed: the commands are returned, not run; a failing command (`check=True`) would stop the sequence early.
- Validate.Run: a database file without the `clickstream_raw` table would make `read_month` raise; that is not modelled.
- SlaCheck.Evaluate: ingest creates the database file before applying the schema, so a failed schema leaves a file without `clickstream_raw`. `month_rows` then raises, while the model counts 0 rows.
- Dashboard: the Streamlit and Altair rendering, `fetch_json` and the environment overrides of the default thresholds are not modelled. `sort_values` is not stable, but `load_month` is the key of `dq_monthly`, so no two rows tie.
- `pipeline/inject_anomaly.py`, `app/api.py`, the tests and `create_sample_data.py` are not part of this model.
