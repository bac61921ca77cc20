/**
 * `pipeline/ingest.py`: load one month's clickstream TSV into the raw table.
 *
 * The month comes from the file name; the month's old rows are deleted; the
 * parsed chunks are cleaned and appended one by one; whatever happens, one
 * audit row describing the attempt is written at the end (unless writing
 * that row itself fails, which is swallowed).
 *
 * The TSV parser is not modelled: a file arrives as the chunks it yields.
 * The environment's failures arrive as a `Fault`.
 */
module Ingest {
  import opened Wrappers
  import opened Text
  import opened Storage
  import Sorting
  import opened Seqs

  const Unknown: string := "unknown"

  /** The values of `type` the cleaner keeps. */
  const KnownTypes: set<string> := {"link", "external", "other"}

  // ---------------------------------------------------------------------------
  // Month detection
  // ---------------------------------------------------------------------------

  /** `Path(name).stem`: the name without its last suffix. */
  function Stem(name: string): string {
    var i := LastIndexOf(name, '.');
    if 0 < i < |name| - 1 then name[..i] else name
  }

  predicate IsYearToken(t: string) {
    |t| == 4 && AllDigits(t)
  }

  /**
   * The dash-separated tokens from index j on: the first four-digit token
   * that has a token after it gives the month `year-next`; none gives "unknown".
   */
  function SearchMonth(parts: seq<string>, j: nat): (r: string)
    requires j >= 1
    decreases |parts| - j
    ensures r == Unknown <==> forall t | j <= t < |parts| - 1 :: !IsYearToken(parts[t])
    ensures r != Unknown ==>
      exists t | j <= t < |parts| - 1 ::
        && IsYearToken(parts[t])
        && (forall u | j <= u < t :: !IsYearToken(parts[u]))
        && r == parts[t] + "-" + parts[t + 1]
  {
    if j + 1 >= |parts| then Unknown
    else if IsYearToken(parts[j]) then
      var r := parts[j] + "-" + parts[j + 1];
      assert r[4] == '-' && Unknown[4] == 'o';
      r
    else SearchMonth(parts, j + 1)
  }

  /** The month `detect_month_from_filename` finds in a file name. */
  function MonthOfName(name: string): string {
    SearchMonth(Split(Stem(name), '-'), 1)
  }

  /** `detect_month_from_filename`: a search over the tokens with an early return. */
  method DetectMonth(name: string) returns (month: string)
    ensures month == MonthOfName(name)
  {
    var parts := Split(Stem(name), '-');
    var i := 0;
    while i + 2 < |parts|
      invariant SearchMonth(parts, i + 1) == SearchMonth(parts, 1)
      decreases |parts| - i
    {
      if |parts[i + 1]| == 4 && AllDigits(parts[i + 1]) {
        return parts[i + 1] + "-" + parts[i + 2];
      }
      i := i + 1;
    }
    return Unknown;
  }

  lemma {:induction false} LastIndexOfBeforeTail(a: string, c: char, b: string)
    requires c !in b
    ensures LastIndexOf(a + [c] + b, c) == |a|
  {
    if b != [] {
      var s := a + [c] + b;
      assert s[..|s| - 1] == a + [c] + b[..|b| - 1];
      LastIndexOfBeforeTail(a, c, b[..|b| - 1]);
    }
  }

  /** Only the last suffix is removed: "x.tsv.gz" has stem "x.tsv". */
  lemma StemDropsLastSuffix(base: string, ext: string)
    requires base != [] && ext != [] && '.' !in ext
    ensures Stem(base + "." + ext) == base
  {
    LastIndexOfBeforeTail(base, '.', ext);
    assert (base + "." + ext)[..|base|] == base;
  }

  /** A name built from dash-joined tokens and one suffix is searched token by token. */
  lemma MonthOfJoined(base: string, parts: seq<string>, ext: string)
    requires |parts| >= 1 && forall i | 0 <= i < |parts| :: '-' !in parts[i]
    requires base == Join(parts, '-') && base != [] && ext != [] && '.' !in ext
    ensures MonthOfName(base + "." + ext) == SearchMonth(parts, 1)
  {
    StemDropsLastSuffix(base, ext);
    SplitJoin(parts, '-');
  }

  /** The search skips a non-year second token and takes a year in the third. */
  lemma SearchFindsThirdToken(parts: seq<string>)
    requires |parts| >= 4 && !IsYearToken(parts[1]) && IsYearToken(parts[2])
    ensures SearchMonth(parts, 1) == parts[2] + "-" + parts[3]
  {
  }

  /**
   * The names `fetch_clickstream` writes, `clickstream-<lang>-<YYYY>-<MM>.tsv`,
   * carry their month; the same holds for any last suffix, so a compressed
   * `....tsv.gz` yields a month token that still ends in ".tsv".
   */
  lemma DetectDownloadedName(lang: string, year: string, mm: string, ext: string)
    requires lang != [] && '-' !in lang && !IsYearToken(lang)
    requires IsYearToken(year) && '-' !in mm
    requires ext != [] && '.' !in ext
    ensures MonthOfName("clickstream-" + lang + "-" + year + "-" + mm + "." + ext) == year + "-" + mm
  {
    var parts := ["clickstream", lang, year, mm];
    assert '-' !in year by {
      forall i | 0 <= i < |year| ensures year[i] != '-' {
        assert IsDigit(year[i]);
      }
    }
    var base := "clickstream-" + lang + "-" + year + "-" + mm;
    assert Join(parts[3..], '-') == mm;
    assert Join(parts[2..], '-') == year + "-" + mm;
    assert Join(parts[1..], '-') == lang + "-" + year + "-" + mm;
    assert base == Join(parts, '-');
    assert "clickstream-" + lang + "-" + year + "-" + mm + "." + ext == base + "." + ext;
    MonthOfJoined(base, parts, ext);
    SearchFindsThirdToken(parts);
  }

  /** The bundled sample file `clickstream-<lang>-<YYYY>-<MM>-sample.tsv`: tokens after the month are ignored. */
  lemma DetectSampleName(lang: string, year: string, mm: string)
    requires lang != [] && '-' !in lang && !IsYearToken(lang)
    requires IsYearToken(year) && '-' !in mm
    ensures MonthOfName("clickstream-" + lang + "-" + year + "-" + mm + "-sample.tsv") == year + "-" + mm
  {
    var parts := ["clickstream", lang, year, mm, "sample"];
    assert '-' !in year by {
      forall i | 0 <= i < |year| ensures year[i] != '-' {
        assert IsDigit(year[i]);
      }
    }
    var base := "clickstream-" + lang + "-" + year + "-" + mm + "-sample";
    assert Join(parts[4..], '-') == "sample";
    assert Join(parts[3..], '-') == mm + "-sample";
    assert Join(parts[2..], '-') == year + "-" + mm + "-sample";
    assert Join(parts[1..], '-') == lang + "-" + year + "-" + mm + "-sample";
    assert base == Join(parts, '-');
    assert "clickstream-" + lang + "-" + year + "-" + mm + "-sample.tsv" == base + "." + "tsv";
    MonthOfJoined(base, parts, "tsv");
    SearchFindsThirdToken(parts);
  }

  /** The first token is never taken as the year. */
  lemma DetectSkipsFirstToken()
    ensures MonthOfName("2025-09.tsv") == Unknown
  {
    var parts := ["2025", "09"];
    assert "2025-09.tsv" == "2025-09" + "." + "tsv";
    assert "2025-09" == Join(parts, '-');
    MonthOfJoined("2025-09", parts, "tsv");
  }

  // ---------------------------------------------------------------------------
  // Row cleaner
  // ---------------------------------------------------------------------------

  /**
   * One parsed line after the dtype coercions of `clean_chunk`: missing
   * cells are None, and `n` is what `pd.to_numeric(..., errors="coerce")`
   * made of it (None for NaN).
   */
  datatype Record = Record(prev: Option<string>, curr: Option<string>, kind: Option<string>, n: Option<real>)

  /** The three filters of `clean_chunk`: no missing cell, `n >= 0`, a known `type`. */
  predicate Keeps(r: Record) {
    && r.prev.Some? && r.curr.Some? && r.kind.Some? && r.n.Some?
    && r.n.value >= 0.0
    && r.kind.value in KnownTypes
  }

  /** The records that pass the filters, in input order. */
  function Kept(chunk: seq<Record>): (k: seq<Record>)
    ensures |k| <= |chunk|
    ensures forall x :: x in k <==> x in chunk && Keeps(x)
  {
    if chunk == [] then []
    else (if Keeps(chunk[0]) then [chunk[0]] else []) + Kept(chunk[1..])
  }

  /** The records the filters drop, in input order. */
  function Dropped(chunk: seq<Record>): (d: seq<Record>)
    ensures forall x :: x in d <==> x in chunk && !Keeps(x)
  {
    if chunk == [] then []
    else (if Keeps(chunk[0]) then [] else [chunk[0]]) + Dropped(chunk[1..])
  }

  /** Every record is either kept or dropped, never both and never lost. */
  lemma {:induction false} KeptDroppedPartition(chunk: seq<Record>)
    ensures |Kept(chunk)| + |Dropped(chunk)| == |chunk|
    ensures multiset(Kept(chunk)) + multiset(Dropped(chunk)) == multiset(chunk)
  {
    if chunk != [] {
      KeptDroppedPartition(chunk[1..]);
      assert chunk == [chunk[0]] + chunk[1..];
    }
  }

  /** The filters act record by record: the kept records of two runs concatenate, so input order is kept. */
  lemma {:induction false} KeptAppend(a: seq<Record>, b: seq<Record>)
    ensures Kept(a + b) == Kept(a) + Kept(b)
  {
    if a == [] {
      assert a + b == b;
    } else {
      assert (a + b)[1..] == a[1..] + b;
      KeptAppend(a[1..], b);
    }
  }

  /** A chunk whose every record passes the filters is kept whole. */
  lemma {:induction false} KeptAll(chunk: seq<Record>)
    requires forall x | x in chunk :: Keeps(x)
    ensures Kept(chunk) == chunk
  {
    if chunk != [] {
      KeptAll(chunk[1..]);
    }
  }

  predicate IsIntegral(x: real) {
    x.Floor as real == x
  }

  /** A stored row is clean: non-negative count, known type, the load month. */
  predicate RowIsClean(r: RawRow, month: string) {
    r.n >= 0 && r.kind in KnownTypes && r.loadMonth == month
  }

  /** What `clean_chunk` makes of a kept record: `n` as an integer, tagged with the month. */
  function ToRow(r: Record, month: string): (row: RawRow)
    requires Keeps(r)
    ensures RowIsClean(row, month)
    ensures row.prev == r.prev.value && row.curr == r.curr.value && row.kind == r.kind.value
    ensures !CastRefuses(r) ==> row.n as real == r.n.value
  {
    RawRow(r.prev.value, r.curr.value, r.kind.value, r.n.value.Floor, month)
  }

  /** The rows of the kept records, in order. */
  function Rows(kept: seq<Record>, month: string): (rows: seq<RawRow>)
    requires forall x | x in kept :: Keeps(x)
    ensures |rows| == |kept|
    ensures forall i | 0 <= i < |rows| :: rows[i] == ToRow(kept[i], month)
    ensures forall i | 0 <= i < |rows| :: RowIsClean(rows[i], month)
  {
    if kept == [] then [] else [ToRow(kept[0], month)] + Rows(kept[1..], month)
  }

  /** One more than the largest value of the signed 64-bit integers behind `Int64`. */
  const Int64Bound: int := 0x8000_0000_0000_0000

  /** A count `astype("Int64")` refuses: one with a fraction, or one beyond the 64-bit range. */
  predicate CastRefuses(r: Record) {
    r.n.Some? && (!IsIntegral(r.n.value) || r.n.value >= Int64Bound as real)
  }

  /** A kept record whose `n` the cast refuses makes the final cast raise. */
  predicate CastRaises(chunk: seq<Record>) {
    exists x | x in Kept(chunk) :: CastRefuses(x)
  }

  /** `clean_chunk`: None stands for the TypeError of the final cast. */
  function CleanChunk(chunk: seq<Record>, month: string): (r: Option<seq<RawRow>>)
    ensures r.None? <==> CastRaises(chunk)
    ensures r.Some? ==> r.value == Rows(Kept(chunk), month)
  {
    if CastRaises(chunk) then None else Some(Rows(Kept(chunk), month))
  }

  // ---------------------------------------------------------------------------
  // Loading one file
  // ---------------------------------------------------------------------------

  /**
   * Where an ingestion attempt raises: never; while connecting or applying
   * the schema (before the delete); or, after k chunks, while reading or
   * storing chunk k (a failing delete counts as k = 0; k equal to the number
   * of chunks is the read after the last one; a larger k never fires).
   */
  datatype Fault = NoFault | SchemaFault | ReadFault(chunk: nat)

  /**
   * Everything one call of `load_tsv_to_sqlite` sees from the outside: the
   * file name, the chunks the parser yields, the fault, whether writing the
   * audit row fails, and the two clock readings.
   */
  datatype Source = Source(
    name: string,
    chunks: seq<seq<Record>>,
    fault: Fault,
    auditWriteFails: bool,
    startedAt: string,
    endedAt: string)

  function Month(src: Source): string {
    MonthOfName(src.name)
  }

  /** The chunk loop from step i on: the index of the step that raises, or the end. */
  function StopFrom(chunks: seq<seq<Record>>, month: string, fault: Fault, i: nat): (k: nat)
    requires i <= |chunks|
    decreases |chunks| - i
    ensures i <= k <= |chunks|
    ensures forall j | i <= j < k :: fault != ReadFault(j) && !CastRaises(chunks[j])
    ensures k < |chunks| ==> fault == ReadFault(k) || CastRaises(chunks[k])
  {
    if i == |chunks| || fault == ReadFault(i) || CastRaises(chunks[i]) then i
    else StopFrom(chunks, month, fault, i + 1)
  }

  /** How many chunks were fully processed. */
  function Stop(src: Source): nat {
    if src.fault == SchemaFault then 0 else StopFrom(src.chunks, Month(src), src.fault, 0)
  }

  /** Whether the `try` block raised, which makes the status FAILED. */
  predicate Raises(src: Source) {
    || src.fault == SchemaFault
    || Stop(src) < |src.chunks|
    || src.fault == ReadFault(Stop(src))
  }

  /** The cleaned rows of a run of chunks, concatenated in order. */
  function CleanRows(chunks: seq<seq<Record>>, month: string): (rows: seq<RawRow>)
    ensures forall i | 0 <= i < |rows| :: RowIsClean(rows[i], month)
  {
    if chunks == [] then []
    else CleanRows(chunks[..|chunks| - 1], month) + Rows(Kept(chunks[|chunks| - 1]), month)
  }

  /** The records the cleaner dropped from a run of chunks. */
  function DroppedCount(chunks: seq<seq<Record>>): nat {
    if chunks == [] then 0
    else DroppedCount(chunks[..|chunks| - 1]) + |Dropped(chunks[|chunks| - 1])|
  }

  /** The records the parser yielded in a run of chunks. */
  function RecordCount(chunks: seq<seq<Record>>): nat {
    if chunks == [] then 0
    else RecordCount(chunks[..|chunks| - 1]) + |chunks[|chunks| - 1]|
  }

  function Inserted(src: Source): nat {
    |CleanRows(src.chunks[..Stop(src)], Month(src))|
  }

  function Skipped(src: Source): nat {
    DroppedCount(src.chunks[..Stop(src)])
  }

  /**
   * The raw table after the attempt: the month deleted, the processed chunks'
   * rows appended. Each `to_sql` commits, taking the pending delete with it;
   * an attempt that raises before any row was written leaves the connection
   * block with the delete uncommitted, and it is rolled back.
   */
  function Loaded(raw: seq<RawRow>, src: Source): seq<RawRow> {
    var rows := CleanRows(src.chunks[..Stop(src)], Month(src));
    if src.fault == SchemaFault || (Raises(src) && rows == []) then raw
    else DeleteMonth(raw, Month(src)) + rows
  }

  /** The audit row the attempt writes. */
  function AuditFor(src: Source, id: nat): AuditEntry {
    AuditEntry(id, Month(src), src.name, Inserted(src), Skipped(src),
               src.startedAt, src.endedAt, if Raises(src) then Failed else Success)
  }

  /** What the attempt adds to the audit table: its row, unless writing it fails (the failure is swallowed). */
  function Audited(src: Source, id: nat): seq<AuditEntry> {
    if src.auditWriteFails then [] else [AuditFor(src, id)]
  }

  /** The audit table after one attempt: its row appended under the next id. */
  function WithAudit(audit: seq<AuditEntry>, src: Source): seq<AuditEntry> {
    audit + Audited(src, |audit| + 1)
  }

  /** Processing one more chunk extends the rows and the dropped count by that chunk's. */
  lemma ChunkStep(chunks: seq<seq<Record>>, i: nat, month: string)
    requires i < |chunks|
    ensures CleanRows(chunks[..i + 1], month) == CleanRows(chunks[..i], month) + Rows(Kept(chunks[i]), month)
    ensures DroppedCount(chunks[..i + 1]) == DroppedCount(chunks[..i]) + |Dropped(chunks[i])|
  {
    assert chunks[..i + 1][..i] == chunks[..i];
  }

  /**
   * One pass of the chunk loop: clean the chunk, append the kept rows when
   * there are any, and count kept and skipped lines (`max(skipped, 0)`).
   * A raising cast appends nothing.
   */
  method StoreChunk(db: Db, chunk: seq<Record>, month: string) returns (kept: nat, skipped: nat, raised: bool)
    modifies db
    ensures raised <==> CastRaises(chunk)
    ensures raised ==> db.raw == old(db.raw)
    ensures !raised ==> db.raw == old(db.raw) + Rows(Kept(chunk), month)
    ensures !raised ==> kept == |Kept(chunk)| && skipped == |Dropped(chunk)|
    ensures db.audit == old(db.audit) && db.dq == old(db.dq)
  {
    var cleaned := CleanChunk(chunk, month);
    if cleaned.None? {
      return 0, 0, true;
    }
    kept := |cleaned.value|;
    var before := |chunk|;
    var dropped := before - kept;
    if kept > 0 {
      db.raw := db.raw + cleaned.value;
    } else {
      AppendEmpty(db.raw);
    }
    KeptDroppedPartition(chunk);
    skipped := if dropped > 0 then dropped else 0;
    raised := false;
  }

  /**
   * The chunk loop of `load_tsv_to_sqlite`: clean and append each chunk
   * until the end of the file or the first step that raises.
   */
  method AppendChunks(db: Db, src: Source, month: string) returns (inserted: nat, skipped: nat, raised: bool)
    requires src.fault != SchemaFault && month == Month(src)
    modifies db
    ensures db.raw == old(db.raw) + CleanRows(src.chunks[..Stop(src)], month)
    ensures inserted == Inserted(src) && skipped == Skipped(src) && raised == Raises(src)
    ensures db.audit == old(db.audit) && db.dq == old(db.dq)
  {
    inserted, skipped := 0, 0;
    var i := 0;
    raised := false;
    while i < |src.chunks| && !raised
      invariant 0 <= i <= |src.chunks|
      invariant raised ==> i < |src.chunks| && Stop(src) == i
      invariant !raised ==> Stop(src) == StopFrom(src.chunks, month, src.fault, i)
      invariant db.raw == old(db.raw) + CleanRows(src.chunks[..i], month)
      invariant inserted == |CleanRows(src.chunks[..i], month)|
      invariant skipped == DroppedCount(src.chunks[..i])
      invariant db.audit == old(db.audit) && db.dq == old(db.dq)
      decreases |src.chunks| - i + (if raised then 0 else 1)
    {
      if src.fault == ReadFault(i) {
        raised := true;
      } else {
        var kept, dropped, castRaised := StoreChunk(db, src.chunks[i], month);
        if castRaised {
          raised := true;
        } else {
          ChunkStep(src.chunks, i, month);
          AppendAssoc(old(db.raw), CleanRows(src.chunks[..i], month), Rows(Kept(src.chunks[i]), month));
          inserted := inserted + kept;
          skipped := skipped + dropped;
          i := i + 1;
        }
      }
    }
    // The read after the last chunk can still fail.
    if !raised && src.fault == ReadFault(|src.chunks|) {
      raised := true;
    }
  }

  /** An attempt that fails on the schema processes no chunk. */
  lemma SchemaFaultCounts(src: Source)
    requires src.fault == SchemaFault
    ensures Inserted(src) == 0 && Skipped(src) == 0 && Raises(src)
  {
    assert src.chunks[..Stop(src)] == [];
  }

  /**
   * The `finally` block: one audit row with the month, the file name, the
   * counts, the two clock readings and the status, under the next id. A
   * failure to write it is swallowed.
   */
  method WriteAudit(db: Db, src: Source, month: string, inserted: nat, skipped: nat, status: Status)
    requires db.Valid()
    requires month == Month(src) && inserted == Inserted(src) && skipped == Skipped(src)
    requires status == (if Raises(src) then Failed else Success)
    modifies db
    ensures db.Valid()
    ensures db.audit == WithAudit(old(db.audit), src)
    ensures db.raw == old(db.raw) && db.dq == old(db.dq)
  {
    var entry := AuditEntry(|db.audit| + 1, month, src.name, inserted, skipped,
                            src.startedAt, src.endedAt, status);
    if !src.auditWriteFails {
      db.audit := db.audit + [entry];
    }
  }

  /** `load_tsv_to_sqlite`. */
  method LoadTsv(db: Db, src: Source)
    requires db.Valid()
    modifies db
    ensures db.Valid()
    ensures db.raw == Loaded(old(db.raw), src)
    ensures db.audit == WithAudit(old(db.audit), src)
    ensures db.dq == old(db.dq)
  {
    var month := DetectMonth(src.name);
    var inserted, skipped := 0, 0;
    var status := Success;
    if src.fault == SchemaFault {
      SchemaFaultCounts(src);
      status := Failed;
    } else {
      var before := db.raw;
      // Idempotency: replace the existing month.
      db.raw := DeleteMonth(db.raw, month);
      var raised;
      inserted, skipped, raised := AppendChunks(db, src, month);
      if raised {
        status := Failed;
        if inserted == 0 {
          // Nothing was committed: leaving the connection block rolls the delete back.
          db.raw := before;
        }
      }
    }
    WriteAudit(db, src, month, inserted, skipped, status);
  }

  // ---------------------------------------------------------------------------
  // What one load guarantees
  // ---------------------------------------------------------------------------

  /**
   * Every record the cleaner drops violates a filter, every kept one passes
   * them all, and together they are exactly the chunk.
   */
  lemma CleanerSoundAndComplete(chunk: seq<Record>)
    ensures forall x | x in Kept(chunk) :: Keeps(x)
    ensures forall x | x in Dropped(chunk) :: !Keeps(x)
    ensures forall x | x in chunk :: x in Kept(chunk) || x in Dropped(chunk)
    ensures |Kept(chunk)| + |Dropped(chunk)| == |chunk|
  {
    KeptDroppedPartition(chunk);
  }

  /** A successful attempt processed every chunk. */
  lemma SuccessProcessesAll(src: Source)
    requires !Raises(src)
    ensures Stop(src) == |src.chunks|
    ensures src.chunks[..Stop(src)] == src.chunks
  {
  }

  /** The audit counts: kept plus dropped covers exactly the records of the processed chunks. */
  lemma {:induction false} CountsCoverRecords(chunks: seq<seq<Record>>, month: string)
    ensures |CleanRows(chunks, month)| + DroppedCount(chunks) == RecordCount(chunks)
  {
    if chunks != [] {
      CountsCoverRecords(chunks[..|chunks| - 1], month);
      KeptDroppedPartition(chunks[|chunks| - 1]);
    }
  }

  lemma {:induction false} CleanRowsAppend(a: seq<seq<Record>>, b: seq<seq<Record>>, month: string)
    ensures CleanRows(a + b, month) == CleanRows(a, month) + CleanRows(b, month)
    decreases |b|
  {
    if b != [] {
      assert (a + b)[..|a + b| - 1] == a + b[..|b| - 1];
      CleanRowsAppend(a, b[..|b| - 1], month);
    } else {
      assert a + b == a;
    }
  }

  /** After any attempt, every month other than the file's reads exactly as before. */
  lemma OtherMonthsUntouched(raw: seq<RawRow>, src: Source, other: string)
    requires other != Month(src)
    ensures MonthRows(Loaded(raw, src), other) == MonthRows(raw, other)
  {
    if src.fault != SchemaFault {
      var month := Month(src);
      var rows := CleanRows(src.chunks[..Stop(src)], month);
      MonthRowsAppend(DeleteMonth(raw, month), rows, other);
      MonthRowsAfterDelete(raw, month, other);
      SingleMonthRows(rows, month, other);
    }
  }

  /**
   * After a successful attempt the month holds exactly the cleaned rows of
   * the file, in order: old rows are replaced, not appended to.
   */
  lemma SuccessReplacesMonth(raw: seq<RawRow>, src: Source)
    requires !Raises(src)
    ensures MonthRows(Loaded(raw, src), Month(src)) == CleanRows(src.chunks, Month(src))
  {
    var month := Month(src);
    assert src.chunks[..Stop(src)] == src.chunks;
    ReplacedMonth(raw, month, CleanRows(src.chunks, month));
  }

  /** Deleting a month and appending rows of that month leaves the month holding exactly those rows. */
  lemma ReplacedMonth(raw: seq<RawRow>, month: string, rows: seq<RawRow>)
    requires forall i | 0 <= i < |rows| :: RowIsClean(rows[i], month)
    ensures MonthRows(DeleteMonth(raw, month) + rows, month) == rows
  {
    MonthRowsAppend(DeleteMonth(raw, month), rows, month);
    MonthRowsAfterDelete(raw, month, month);
    SingleMonthRows(rows, month, month + "x");
  }

  /**
   * A failed attempt either wrote nothing, and the whole raw table is as it
   * was (the month's old rows included), or it committed the rows of the
   * chunks before the failure, and the month holds exactly those.
   */
  lemma FailedAttemptEffect(raw: seq<RawRow>, src: Source)
    requires Raises(src)
    ensures Inserted(src) == 0 ==> Loaded(raw, src) == raw
    ensures Inserted(src) > 0 ==>
      MonthRows(Loaded(raw, src), Month(src)) == CleanRows(src.chunks[..Stop(src)], Month(src))
  {
    var month := Month(src);
    var rows := CleanRows(src.chunks[..Stop(src)], month);
    if rows != [] && src.fault != SchemaFault {
      ReplacedMonth(raw, month, rows);
    }
  }

  /** Ingesting the same file twice leaves the same raw table as ingesting it once. */
  lemma LoadIdempotent(raw: seq<RawRow>, src: Source)
    ensures Loaded(Loaded(raw, src), src) == Loaded(raw, src)
  {
    var month := Month(src);
    var rows := CleanRows(src.chunks[..Stop(src)], month);
    if src.fault != SchemaFault && !(Raises(src) && rows == []) {
      var once := DeleteMonth(raw, month) + rows;
      assert Loaded(raw, src) == once;
      assert Loaded(once, src) == DeleteMonth(once, month) + rows;
      DeleteMonthAppend(DeleteMonth(raw, month), rows, month);
      DeleteMonthIdempotent(raw, month);
      assert forall i | 0 <= i < |rows| :: rows[i].loadMonth == month;
      SingleMonthRows(rows, month, month + "x");
      assert DeleteMonth(once, month) == DeleteMonth(raw, month);
    }
  }

  /** Four lines of 2025-09, the third with a negative count. */
  const NegativeCountChunk: seq<Record> :=
    [Record(Some("A"), Some("B"), Some("link"), Some(10.0)),
     Record(Some("A"), Some("C"), Some("link"), Some(3.0)),
     Record(Some("B"), Some("C"), Some("external"), Some(-5.0)),
     Record(Some("C"), Some("D"), Some("other"), Some(7.0))]

  /** The cleaner keeps the three valid lines... */
  lemma NegativeCountKept()
    ensures Kept(NegativeCountChunk) == [NegativeCountChunk[0], NegativeCountChunk[1], NegativeCountChunk[3]]
  {
  }

  /** ...drops the negative one... */
  lemma NegativeCountDropped()
    ensures Dropped(NegativeCountChunk) == [NegativeCountChunk[2]]
  {
  }

  /** ...and the cast to integers succeeds... */
  lemma NegativeCountCasts()
    ensures !CastRaises(NegativeCountChunk)
  {
    NegativeCountKept();
    assert (10.0).Floor == 10 && (3.0).Floor == 3 && (7.0).Floor == 7;
  }

  /** ...giving these rows. */
  lemma NegativeCountRows()
    ensures Rows(Kept(NegativeCountChunk), "2025-09")
         == [RawRow("A", "B", "link", 10, "2025-09"),
             RawRow("A", "C", "link", 3, "2025-09"),
             RawRow("C", "D", "other", 7, "2025-09")]
  {
    NegativeCountKept();
    var k := [NegativeCountChunk[0], NegativeCountChunk[1], NegativeCountChunk[3]];
    assert (10.0).Floor == 10 && (3.0).Floor == 3 && (7.0).Floor == 7;
    assert Rows(k, "2025-09") == [ToRow(k[0], "2025-09")] + Rows(k[1..], "2025-09");
    assert Rows(k[1..], "2025-09") == [ToRow(k[1], "2025-09")] + Rows(k[2..], "2025-09");
    assert Rows(k[2..], "2025-09") == [ToRow(k[2], "2025-09")] + Rows(k[3..], "2025-09");
    assert k[3..] == [];
    assert ToRow(k[0], "2025-09") == RawRow("A", "B", "link", 10, "2025-09");
    assert ToRow(k[1], "2025-09") == RawRow("A", "C", "link", 3, "2025-09");
    assert ToRow(k[2], "2025-09") == RawRow("C", "D", "other", 7, "2025-09");
    ConsThree(ToRow(k[0], "2025-09"), ToRow(k[1], "2025-09"), ToRow(k[2], "2025-09"));
  }

  /** A file of one chunk that reads and casts cleanly succeeds and counts that chunk's lines. */
  lemma SingleChunkLoad(raw: seq<RawRow>, src: Source)
    requires |src.chunks| == 1 && src.fault == NoFault && !CastRaises(src.chunks[0])
    ensures !Raises(src)
    ensures MonthRows(Loaded(raw, src), Month(src)) == Rows(Kept(src.chunks[0]), Month(src))
    ensures Inserted(src) == |Kept(src.chunks[0])| && Skipped(src) == |Dropped(src.chunks[0])|
  {
    assert Stop(src) == 1;
    assert src.chunks[..1] == src.chunks && src.chunks[..0] == [];
    assert CleanRows(src.chunks, Month(src)) == CleanRows([], Month(src)) + Rows(Kept(src.chunks[0]), Month(src));
    assert DroppedCount(src.chunks) == DroppedCount([]) + |Dropped(src.chunks[0])|;
    SuccessReplacesMonth(raw, src);
  }

  /**
   * Ingesting that chunk under a name of month 2025-09: the month then holds
   * the three rows, and the audit row counts three inserted rows, one
   * skipped line and SUCCESS.
   */
  lemma ScenarioNegativeCount(name: string, raw: seq<RawRow>)
    requires MonthOfName(name) == "2025-09"
    ensures var src := Source(name, [NegativeCountChunk], NoFault, false, "t0", "t1");
            && MonthRows(Loaded(raw, src), "2025-09")
               == [RawRow("A", "B", "link", 10, "2025-09"),
                   RawRow("A", "C", "link", 3, "2025-09"),
                   RawRow("C", "D", "other", 7, "2025-09")]
            && AuditFor(src, 1) == AuditEntry(1, "2025-09", name, 3, 1, "t0", "t1", Success)
  {
    var src := Source(name, [NegativeCountChunk], NoFault, false, "t0", "t1");
    NegativeCountKept();
    NegativeCountDropped();
    NegativeCountCasts();
    NegativeCountRows();
    SingleChunkLoad(raw, src);
  }

  // ---------------------------------------------------------------------------
  // Loading a directory
  // ---------------------------------------------------------------------------

  function NameOf(src: Source): string {
    src.name
  }

  /** `[p for p in RAW_DIR.glob("*.tsv") if detect_month_from_filename(p) == month]`. */
  function Matching(dir: seq<Source>, month: string): (r: seq<Source>)
    ensures forall s :: s in r <==> s in dir && IsTsv(s.name) && Month(s) == month
  {
    if dir == [] then []
    else (if IsTsv(dir[0].name) && Month(dir[0]) == month then [dir[0]] else []) + Matching(dir[1..], month)
  }

  /** `RAW_DIR.glob("*.tsv")`. */
  function TsvFiles(dir: seq<Source>): (r: seq<Source>)
    ensures forall s :: s in r <==> s in dir && IsTsv(s.name)
  {
    if dir == [] then []
    else (if IsTsv(dir[0].name) then [dir[0]] else []) + TsvFiles(dir[1..])
  }

  /** The raw table after ingesting these files one after the other. */
  function LoadedAll(raw: seq<RawRow>, files: seq<Source>): seq<RawRow> {
    Fold(raw, files, Loaded)
  }

  /** The audit table after these attempts, one after the other. */
  function AuditedAll(audit: seq<AuditEntry>, files: seq<Source>): seq<AuditEntry> {
    Fold(audit, files, WithAudit)
  }

  /** Ingesting the files in order, one `load_tsv_to_sqlite` call each. */
  method LoadAll(db: Db, files: seq<Source>)
    requires db.Valid()
    modifies db
    ensures db.Valid()
    ensures db.raw == LoadedAll(old(db.raw), files)
    ensures db.audit == AuditedAll(old(db.audit), files)
    ensures db.dq == old(db.dq)
  {
    for i := 0 to |files|
      invariant db.Valid()
      invariant db.raw == LoadedAll(old(db.raw), files[..i])
      invariant db.audit == AuditedAll(old(db.audit), files[..i])
      invariant db.dq == old(db.dq)
    {
      LoadNext(db, old(db.raw), old(db.audit), files, i);
    }
    PrefixWhole(files, |files|);
  }

  /** One turn of LoadAll's loop: the next file extends both tables by what it contributes. */
  method LoadNext(db: Db, ghost raw0: seq<RawRow>, ghost audit0: seq<AuditEntry>, files: seq<Source>, i: nat)
    requires i < |files| && db.Valid()
    requires db.raw == LoadedAll(raw0, files[..i])
    requires db.audit == AuditedAll(audit0, files[..i])
    modifies db
    ensures db.Valid()
    ensures db.raw == LoadedAll(raw0, files[..i + 1])
    ensures db.audit == AuditedAll(audit0, files[..i + 1])
    ensures db.dq == old(db.dq)
  {
    FoldNext(raw0, db.raw, files, Loaded, i);
    FoldNext(audit0, db.audit, files, WithAudit, i);
    LoadTsv(db, files[i]);
  }

  /** Whatever the attempts, the audit ids stay 1, 2, 3, ... in insertion order. */
  lemma {:induction false} AuditedAllNumbered(audit: seq<AuditEntry>, files: seq<Source>)
    requires Numbered(audit)
    ensures Numbered(AuditedAll(audit, files))
  {
    if files != [] {
      var init := files[..|files| - 1];
      AuditedAllNumbered(audit, init);
      var earlier := AuditedAll(audit, init);
      assert AuditedAll(audit, files) == WithAudit(earlier, files[|files| - 1]);
    }
  }

  /** A month no file carries reads the same after all of them. */
  lemma {:induction false} LoadedAllOtherMonths(raw: seq<RawRow>, files: seq<Source>, month: string)
    requires forall f | f in files :: Month(f) != month
    ensures MonthRows(LoadedAll(raw, files), month) == MonthRows(raw, month)
  {
    if files != [] {
      var init := files[..|files| - 1];
      assert forall f | f in init :: f in files;
      LoadedAllOtherMonths(raw, init, month);
      OtherMonthsUntouched(LoadedAll(raw, init), files[|files| - 1], month);
    }
  }

  /** When the last file succeeds, its month holds exactly that file's rows. */
  lemma LoadedAllLastWins(raw: seq<RawRow>, files: seq<Source>)
    requires files != [] && !Raises(files[|files| - 1])
    ensures var last := files[|files| - 1];
      MonthRows(LoadedAll(raw, files), Month(last)) == CleanRows(last.chunks, Month(last))
  {
    SuccessReplacesMonth(LoadedAll(raw, files[..|files| - 1]), files[|files| - 1]);
  }

  /**
   * `run_for_month`: every `*.tsv` file of the month, in name order; nothing
   * happens when there is none.
   */
  method RunForMonth(db: Db, month: string, dir: seq<Source>)
    requires db.Valid()
    modifies db
    ensures var files := Sorting.SortBy(Matching(dir, month), NameOf);
      && db.raw == LoadedAll(old(db.raw), files)
      && db.audit == AuditedAll(old(db.audit), files)
    ensures db.Valid() && db.dq == old(db.dq)
  {
    var files := Matching(dir, month);
    if files == [] {
      return;
    }
    LoadAll(db, Sorting.SortBy(files, NameOf));
  }

  /** Every file `run_for_month` loads carries the month, in ascending name order. */
  lemma RunForMonthFiles(dir: seq<Source>, month: string)
    ensures var files := Sorting.SortBy(Matching(dir, month), NameOf);
      && Sorting.SortedBy(files, NameOf)
      && multiset(files) == multiset(Matching(dir, month))
      && forall f | f in files :: f in dir && IsTsv(f.name) && Month(f) == month
  {
    var files := Sorting.SortBy(Matching(dir, month), NameOf);
    Sorting.SortBySorted(Matching(dir, month), NameOf);
    forall f | f in files ensures f in dir && IsTsv(f.name) && Month(f) == month {
      assert f in multiset(files);
    }
  }

  /**
   * After `run_for_month`, the other months are untouched and, when the
   * last file in name order succeeded, the month holds exactly its rows:
   * each file replaced what the previous one stored.
   */
  lemma RunForMonthEffect(raw: seq<RawRow>, dir: seq<Source>, month: string)
    ensures var files := Sorting.SortBy(Matching(dir, month), NameOf);
      && (forall other | other != month :: MonthRows(LoadedAll(raw, files), other) == MonthRows(raw, other))
      && (files != [] && !Raises(files[|files| - 1]) ==>
            MonthRows(LoadedAll(raw, files), month) == CleanRows(files[|files| - 1].chunks, month))
  {
    var files := Sorting.SortBy(Matching(dir, month), NameOf);
    RunForMonthFiles(dir, month);
    forall other | other != month
      ensures MonthRows(LoadedAll(raw, files), other) == MonthRows(raw, other)
    {
      LoadedAllOtherMonths(raw, files, other);
    }
    if files != [] && !Raises(files[|files| - 1]) {
      assert files[|files| - 1] in files;
      LoadedAllLastWins(raw, files);
    }
  }

  /** `run_for_all`: every `*.tsv` file in name order, each under its own month. */
  method RunForAll(db: Db, dir: seq<Source>)
    requires db.Valid()
    modifies db
    ensures var files := Sorting.SortBy(TsvFiles(dir), NameOf);
      && db.raw == LoadedAll(old(db.raw), files)
      && db.audit == AuditedAll(old(db.audit), files)
    ensures db.Valid() && db.dq == old(db.dq)
  {
    var files := Sorting.SortBy(TsvFiles(dir), NameOf);
    if files == [] {
      return;
    }
    LoadAll(db, files);
  }

  /** A month that no `*.tsv` file of the directory carries is left as it was by `run_for_all`. */
  lemma RunForAllOtherMonths(raw: seq<RawRow>, dir: seq<Source>, month: string)
    requires forall s | s in dir && IsTsv(s.name) :: Month(s) != month
    ensures MonthRows(LoadedAll(raw, Sorting.SortBy(TsvFiles(dir), NameOf)), month) == MonthRows(raw, month)
  {
    var files := Sorting.SortBy(TsvFiles(dir), NameOf);
    forall f | f in files ensures Month(f) != month {
      assert f in multiset(files);
    }
    LoadedAllOtherMonths(raw, files, month);
  }
}
