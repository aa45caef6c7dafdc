/** lambda_handler (lambda_function.py:158-216): computes the cutoff, reads the catalog, runs
    the extract / stage / delete cycle table by table, checks that something was staged,
    bundles the staging area into the vault, cleans it, and reports the outcome by e-mail and
    status code. */
module Handler {
  import opened Wrappers
  import opened Text
  import opened Calendar
  import opened Db
  import opened Catalog
  import opened Staging

  /** The settings config.py reads from the environment. */
  datatype Config = Config(bucket: string, archivePrefix: string, settingsPrefix: string, deltaDays: int)

  /** config.py's defaults: S3_BUCKET, S3_ARCHIVE, S3_SETTINGS and DELTA_DAYS. The model takes
      the configuration as a parameter; this constant only records the deployed values. */
  const DEFAULT_CONFIG := Config("cu-qa-events", "archive/", "config", DEFAULT_DELTA_DAYS)

  /** The message of the NoConfigException raised when the catalog is empty. */
  function NoConfigMessage(cfg: Config): string {
    "No config files found in " + cfg.settingsPrefix + " on S3 bucket " + cfg.bucket
  }

  /** str() of the AttributeError raised when the filename is built from a non-date. */
  const LIST_HAS_NO_STRFTIME := "'list' object has no attribute 'strftime'"
  const NONE_HAS_NO_STRFTIME := "'NoneType' object has no attribute 'strftime'"

  /** The skip test as written: `date_to and (is_date_gt_date_from or is_datetime_gt_date_from)`.
      A datetime is also an instance of date, so for it both comparisons are made, the first
      on its midnight. */
  predicate SkipAsWritten(oldest: Oldest, cutoff: Moment) {
    var isDateGt := oldest.Found? && Earlier(cutoff, Midnight(oldest.stamp.Day()));
    var isDatetimeGt := oldest.Found? && oldest.stamp.At? && Earlier(cutoff, oldest.stamp.moment);
    oldest.Truthy() && (isDateGt || isDatetimeGt)
  }

  /** A table is skipped exactly when its oldest value is a date or datetime strictly after the
      cutoff (a plain date taken at midnight). */
  lemma SkipMeansNothingEligible(oldest: Oldest, cutoff: Moment)
    ensures SkipAsWritten(oldest, cutoff) <==> oldest.Found? && Earlier(cutoff, oldest.stamp.Instant())
  {
    if oldest.Found? && oldest.stamp.At? {
      var m := oldest.stamp.moment;
      if Earlier(cutoff, Midnight(m.date)) && m != Midnight(m.date) {
        EarlierTransitive(cutoff, Midnight(m.date), m);
      }
    }
  }

  /** The database and the staging bucket, the two stores a cycle changes. */
  datatype World = World(tables: map<string, Table>, objects: map<string, Blob>)

  /** The name a processed table's CSV object gets: the oldest value's date first, the cutoff's
      date second. */
  function StagedName(spec: TableSpec, oldest: Stamp, cutoff: Moment): ArchiveName {
    ArchiveName(spec.table, oldest.Day(), cutoff.date)
  }

  /** One iteration of the loop over the catalog (lines 178-202): the oldest value, the skip
      test, get_data, put_data_to_s3 (which fails on a non-date before writing) and then
      delete_data. */
  function TableCycle(version: GetDataVersion, w: World, cfg: Config, spec: TableSpec, cutoff: Moment): Result<World> {
    var oldest := OldestDate(w.tables, spec.table, spec.column);
    if SkipAsWritten(oldest, cutoff) then Ok(w)
    else
      var extracted := Extract(version, w.tables, spec.table, spec.column, cutoff);
      match oldest
      case Sentinel => Err(LIST_HAS_NO_STRFTIME)
      case NoValue => Err(NONE_HAS_NO_STRFTIME)
      case Found(stamp) =>
        var key := ArchiveKey(cfg.archivePrefix, StagedName(spec, stamp, cutoff));
        Ok(World(AfterDelete(w.tables, spec.table, spec.column, cutoff),
                 w.objects[key := CsvOf(extracted.columns, extracted.rows)]))
  }

  /** A cycle fails exactly when the oldest-date lookup gave no date: an empty table, a failed
      query or a column of NULLs. Nothing is written or deleted then. */
  lemma CycleFailsIff(version: GetDataVersion, w: World, cfg: Config, spec: TableSpec, cutoff: Moment)
    ensures var oldest := OldestDate(w.tables, spec.table, spec.column);
            TableCycle(version, w, cfg, spec, cutoff).Err? <==> !oldest.Found?
    ensures TableCycle(version, w, cfg, spec, cutoff).Err? ==>
              TableCycle(version, w, cfg, spec, cutoff).error ==
                if OldestDate(w.tables, spec.table, spec.column).Sentinel?
                then LIST_HAS_NO_STRFTIME else NONE_HAS_NO_STRFTIME
  {
  }

  /** With the corrected get_data, a processed table: the CSV staged under its key reads back
      as exactly the rows the DELETE removed; together with the rows left they are the table's
      old rows; no other table and no other object changes. */
  lemma CycleLosesNoRows(w: World, cfg: Config, spec: TableSpec, cutoff: Moment)
    requires OldestDate(w.tables, spec.table, spec.column).Found?
    requires !SkipAsWritten(OldestDate(w.tables, spec.table, spec.column), cutoff)
    ensures var oldest := OldestDate(w.tables, spec.table, spec.column).stamp;
            var key := ArchiveKey(cfg.archivePrefix, StagedName(spec, oldest, cutoff));
            var w' := TableCycle(Corrected, w, cfg, spec, cutoff).value;
            && TableCycle(Corrected, w, cfg, spec, cutoff).Ok?
            && key in w'.objects
            && ReadCsv(w'.objects[key]).Some?
            && ReadCsv(w'.objects[key]).value.columns == w.tables[spec.table].columns
            && multiset(ReadCsv(w'.objects[key]).value.rows) + multiset(w'.tables[spec.table].rows)
                 == multiset(w.tables[spec.table].rows)
            && (forall n :: n in w.tables && n != spec.table ==> n in w'.tables && w'.tables[n] == w.tables[n])
            && (forall k :: k in w.objects && k != key ==> k in w'.objects && w'.objects[k] == w.objects[k])
  {
    var oldest := OldestDate(w.tables, spec.table, spec.column).stamp;
    var key := ArchiveKey(cfg.archivePrefix, StagedName(spec, oldest, cutoff));
    var extracted := GetData(w.tables, spec.table, spec.column, cutoff);
    assert TableCycle(Corrected, w, cfg, spec, cutoff) ==
           Ok(World(AfterDelete(w.tables, spec.table, spec.column, cutoff),
                    w.objects[key := CsvOf(extracted.columns, extracted.rows)]));
    CsvOfReadsBack(extracted.columns, extracted.rows);
    ExtractMatchesPurge(w.tables, spec.table, spec.column, cutoff);
  }

  /** A table that is not skipped and has a dated row has at least one eligible row: the one
      holding its oldest value. */
  lemma ProcessedTableHasEligibleRows(tables: map<string, Table>, spec: TableSpec, cutoff: Moment)
    requires OldestDate(tables, spec.table, spec.column).Found?
    requires !SkipAsWritten(OldestDate(tables, spec.table, spec.column), cutoff)
    ensures GetData(tables, spec.table, spec.column, cutoff).rows != []
  {
    var oldest := OldestDate(tables, spec.table, spec.column);
    SkipMeansNothingEligible(oldest, cutoff);
    var i := DateIndex(tables, spec.table, spec.column);
    var x :| x in tables[spec.table].rows && i < |x| && x[i] == When(oldest.stamp);
    assert Eligible(x, i, cutoff);
    assert multiset(GetData(tables, spec.table, spec.column, cutoff).rows)[x] > 0;
  }

  /** With get_data as written, a processed table loses rows: the object staged under its key
      reads back as no column and no row, while the DELETE removes every eligible row, and
      there is at least one. */
  lemma AsWrittenCycleLosesRows(w: World, cfg: Config, spec: TableSpec, cutoff: Moment)
    requires OldestDate(w.tables, spec.table, spec.column).Found?
    requires !SkipAsWritten(OldestDate(w.tables, spec.table, spec.column), cutoff)
    ensures var oldest := OldestDate(w.tables, spec.table, spec.column).stamp;
            var key := ArchiveKey(cfg.archivePrefix, StagedName(spec, oldest, cutoff));
            var w' := TableCycle(AsWritten, w, cfg, spec, cutoff).value;
            var removed := GetData(w.tables, spec.table, spec.column, cutoff).rows;
            && TableCycle(AsWritten, w, cfg, spec, cutoff).Ok?
            && key in w'.objects
            && ReadCsv(w'.objects[key]) == Some(Extraction([], []))
            && removed != []
            && multiset(removed) + multiset(w'.tables[spec.table].rows) == multiset(w.tables[spec.table].rows)
  {
    var oldest := OldestDate(w.tables, spec.table, spec.column).stamp;
    var key := ArchiveKey(cfg.archivePrefix, StagedName(spec, oldest, cutoff));
    assert TableCycle(AsWritten, w, cfg, spec, cutoff) ==
           Ok(World(AfterDelete(w.tables, spec.table, spec.column, cutoff),
                    w.objects[key := CsvOf([], [])]));
    CsvOfReadsBack([], []);
    ExtractMatchesPurge(w.tables, spec.table, spec.column, cutoff);
    ProcessedTableHasEligibleRows(w.tables, spec, cutoff);
  }

  /** Running the same table again with the same cutoff after it was processed changes
      nothing: either its oldest remaining value is after the cutoff and it is skipped, or it
      has no dated row left and the cycle fails before writing. */
  lemma SecondCycleChangesNothing(version: GetDataVersion, w: World, cfg: Config, spec: TableSpec, cutoff: Moment)
    requires OldestDate(w.tables, spec.table, spec.column).Found?
    requires !SkipAsWritten(OldestDate(w.tables, spec.table, spec.column), cutoff)
    ensures var w' := TableCycle(version, w, cfg, spec, cutoff).value;
            TableCycle(version, w', cfg, spec, cutoff) == Ok(w') || TableCycle(version, w', cfg, spec, cutoff).Err?
  {
    var w' := TableCycle(version, w, cfg, spec, cutoff).value;
    assert w'.tables == AfterDelete(w.tables, spec.table, spec.column, cutoff);
    DeleteIsFinal(w.tables, spec.table, spec.column, cutoff);
    CycleAfterPurge(version, w', cfg, spec, cutoff);
  }

  /** A table whose dated rows all lie after the cutoff is skipped, and one without a dated
      row fails; neither changes anything. */
  lemma CycleAfterPurge(version: GetDataVersion, w: World, cfg: Config, spec: TableSpec, cutoff: Moment)
    requires var oldest := OldestDate(w.tables, spec.table, spec.column);
             oldest.Found? ==> Earlier(cutoff, oldest.stamp.Instant())
    ensures TableCycle(version, w, cfg, spec, cutoff) == Ok(w) || TableCycle(version, w, cfg, spec, cutoff).Err?
  {
    SkipMeansNothingEligible(OldestDate(w.tables, spec.table, spec.column), cutoff);
  }

  /** The loop over the catalog's tables in insertion order, stopping at the first failure. */
  datatype Progress = Progress(world: World, failure: Option<string>)

  function ProcessTables(version: GetDataVersion, w: World, cfg: Config, specs: seq<TableSpec>, cutoff: Moment): Progress
    decreases |specs|
  {
    if specs == [] then Progress(w, None)
    else
      match TableCycle(version, w, cfg, specs[0], cutoff)
      case Err(e) => Progress(w, Some(e))
      case Ok(w') => ProcessTables(version, w', cfg, specs[1..], cutoff)
  }

  /** A cycle never removes an object from the bucket. */
  lemma CycleKeepsObjects(version: GetDataVersion, w: World, cfg: Config, spec: TableSpec, cutoff: Moment)
    requires TableCycle(version, w, cfg, spec, cutoff).Ok?
    ensures w.objects.Keys <= TableCycle(version, w, cfg, spec, cutoff).value.objects.Keys
  {
  }

  /** Once something is staged it stays staged for the rest of the loop. */
  lemma {:induction false} StagedFilesPersist(version: GetDataVersion, w: World, cfg: Config, specs: seq<TableSpec>, cutoff: Moment)
    requires HasFiles(w.objects, cfg.archivePrefix)
    ensures HasFiles(ProcessTables(version, w, cfg, specs, cutoff).world.objects, cfg.archivePrefix)
    decreases |specs|
  {
    if specs != [] {
      var r := TableCycle(version, w, cfg, specs[0], cutoff);
      if r.Ok? {
        CycleKeepsObjects(version, w, cfg, specs[0], cutoff);
        var k :| k in w.objects && IsFileUnder(k, cfg.archivePrefix);
        assert k in r.value.objects;
        StagedFilesPersist(version, r.value, cfg, specs[1..], cutoff);
      }
    }
  }

  /** A table the loop processes leaves a staged file, so the no-files check then passes. */
  lemma ProcessedTableStagesFile(version: GetDataVersion, w: World, cfg: Config, specs: seq<TableSpec>, cutoff: Moment)
    requires specs != []
    requires OldestDate(w.tables, specs[0].table, specs[0].column).Found?
    requires !SkipAsWritten(OldestDate(w.tables, specs[0].table, specs[0].column), cutoff)
    ensures HasFiles(ProcessTables(version, w, cfg, specs, cutoff).world.objects, cfg.archivePrefix)
  {
    var spec := specs[0];
    var oldest := OldestDate(w.tables, spec.table, spec.column).stamp;
    var key := ArchiveKey(cfg.archivePrefix, StagedName(spec, oldest, cutoff));
    ArchiveKeyShape(cfg.archivePrefix, StagedName(spec, oldest, cutoff));
    var w' := TableCycle(version, w, cfg, spec, cutoff).value;
    assert key in w'.objects && IsFileUnder(key, cfg.archivePrefix);
    StagedFilesPersist(version, w', cfg, specs[1..], cutoff);
  }

  /** A loop in which every table is skipped changes nothing. */
  lemma {:induction false} AllSkippedChangesNothing(version: GetDataVersion, w: World, cfg: Config, specs: seq<TableSpec>, cutoff: Moment)
    requires forall i :: 0 <= i < |specs| ==>
               SkipAsWritten(OldestDate(w.tables, specs[i].table, specs[i].column), cutoff)
    ensures ProcessTables(version, w, cfg, specs, cutoff) == Progress(w, None)
    decreases |specs|
  {
    if specs != [] {
      assert SkipAsWritten(OldestDate(w.tables, specs[0].table, specs[0].column), cutoff);
      forall i | 0 <= i < |specs[1..]|
        ensures SkipAsWritten(OldestDate(w.tables, specs[1..][i].table, specs[1..][i].column), cutoff)
      {
        assert specs[1..][i] == specs[i + 1];
      }
      AllSkippedChangesNothing(version, w, cfg, specs[1..], cutoff);
    }
  }

  /** The state of every store after a run, and the exception that ended it, if any. */
  datatype Outcome = Outcome(world: World, archives: seq<Archive>, failure: Option<string>)

  /** lambda_handler's `try` block. The event's date never takes effect: `datetime.strptime` is
      looked up on the datetime module, which has no such attribute, and the AttributeError is
      caught, so the cutoff always comes from get_archive_date. */
  function Run(version: GetDataVersion, cfg: Config, now: Moment, fetched: Option<string>, w: World, archives: seq<Archive>): Outcome {
    match ArchiveDate(now, cfg.deltaDays)
    case Err(e) => Outcome(w, archives, Some(e))
    case Ok(cutoff) =>
      match TableList(fetched)
      case Err(e) => Outcome(w, archives, Some(e))
      case Ok(catalog) =>
        if catalog == [] then Outcome(w, archives, Some(NoConfigMessage(cfg)))
        else Finish(cfg, ProcessTables(version, w, cfg, catalog, cutoff), archives)
  }

  /** What follows the loop (lines 203-208): the no-files check, the upload of the bundle,
      the VACUUM (which changes no row) and the clean-up of the staging prefix. */
  function Finish(cfg: Config, p: Progress, archives: seq<Archive>): Outcome {
    if p.failure.Some? then Outcome(p.world, archives, p.failure)
    else if !HasFiles(p.world.objects, cfg.archivePrefix) then
      Outcome(p.world, archives, Some(NoFilesMessage(cfg.archivePrefix, cfg.bucket)))
    else
      var bundle := Archive(VAULT_DESCRIPTION, Bundle(p.world.objects, cfg.archivePrefix));
      Outcome(World(p.world.tables, Cleaned(p.world.objects, cfg.archivePrefix)), archives + [bundle], None)
  }

  /** A missing or blank catalog ends the run with NoConfigException before anything changes. */
  lemma NoCatalogChangesNothing(version: GetDataVersion, cfg: Config, now: Moment, fetched: Option<string>, w: World, archives: seq<Archive>)
    requires ArchiveDate(now, cfg.deltaDays).Ok?
    requires fetched.None? || AllSpace(fetched.value)
    ensures Run(version, cfg, now, fetched, w, archives) == Outcome(w, archives, Some(NoConfigMessage(cfg)))
  {
    EmptyCatalogIff(fetched);
  }

  /** After the loop: a failure uploads nothing; a success uploads exactly one archive,
      holding the files staged under the prefix (there was at least one), and leaves no file
      under the prefix. */
  lemma FinishArchivesStaging(cfg: Config, p: Progress, archives: seq<Archive>)
    ensures Finish(cfg, p, archives).failure.Some? ==> Finish(cfg, p, archives).archives == archives
    ensures Finish(cfg, p, archives).failure.None? ==>
              && HasFiles(p.world.objects, cfg.archivePrefix)
              && Finish(cfg, p, archives).archives ==
                   archives + [Archive(VAULT_DESCRIPTION, Bundle(p.world.objects, cfg.archivePrefix))]
              && !HasFiles(Finish(cfg, p, archives).world.objects, cfg.archivePrefix)
    ensures Finish(cfg, p, archives).world.tables == p.world.tables
  {
    CleanedLeavesNoFiles(p.world.objects, cfg.archivePrefix);
  }

  /** A run uploads an archive only when it succeeds, and a successful run leaves no file
      under the staging prefix. */
  lemma {:induction false} RunArchivesOnSuccessOnly(version: GetDataVersion, cfg: Config, now: Moment, fetched: Option<string>, w: World, archives: seq<Archive>)
    ensures var o := Run(version, cfg, now, fetched, w, archives);
            o.failure.Some? <==> o.archives == archives
    ensures var o := Run(version, cfg, now, fetched, w, archives);
            o.failure.None? ==> !HasFiles(o.world.objects, cfg.archivePrefix)
  {
    match ArchiveDate(now, cfg.deltaDays)
    case Err(_) =>
    case Ok(cutoff) =>
      match TableList(fetched)
      case Err(_) =>
      case Ok(catalog) =>
        if catalog != [] {
          var p := ProcessTables(version, w, cfg, catalog, cutoff);
          assert Run(version, cfg, now, fetched, w, archives) == Finish(cfg, p, archives);
          FinishArchivesStaging(cfg, p, archives);
        }
  }

  /** When every table of a non-empty catalog is skipped and nothing was staged before, the run
      ends with NoFilesException and changes nothing. */
  lemma NothingOldEnoughFails(version: GetDataVersion, cfg: Config, now: Moment, fetched: Option<string>, w: World, archives: seq<Archive>)
    requires ArchiveDate(now, cfg.deltaDays).Ok?
    requires TableList(fetched).Ok? && TableList(fetched).value != []
    requires forall i :: 0 <= i < |TableList(fetched).value| ==>
               var spec := TableList(fetched).value[i];
               SkipAsWritten(OldestDate(w.tables, spec.table, spec.column), ArchiveDate(now, cfg.deltaDays).value)
    requires !HasFiles(w.objects, cfg.archivePrefix)
    ensures Run(version, cfg, now, fetched, w, archives) ==
              Outcome(w, archives, Some(NoFilesMessage(cfg.archivePrefix, cfg.bucket)))
  {
    AllSkippedChangesNothing(version, w, cfg, TableList(fetched).value, ArchiveDate(now, cfg.deltaDays).value);
  }

  /** The body lambda_handler returns. */
  datatype Response = Response(statusCode: int, body: string)

  function ResponseFor(failure: Option<string>): Response {
    if failure.None? then Response(200, "OK") else Response(400, "ERROR")
  }

  /** The message send_email composes (the SES call itself is not modelled). */
  datatype Email = Email(subject: string, body: string)

  const SUCCESS_SUBJECT := "events archiver problem"
  const FAILURE_SUBJECT := "events archiver"
  const SUCCESS_BODY :=
    "Hello everyone,\n pleased to inform you that the operation to archive outdated data from our "
    + "database to S3 Glacier has been successfully completed. "
  const FAILURE_PREAMBLE :=
    "Hello everyone,\n" + "regret to inform you that the outdated data archiving operation from "
    + "our database to S3 Glacier was unsuccessful.\n\n" + "Error message: '"

  /** send_email(error, msg): the subject and body of the message. */
  function SendEmail(error: bool, msg: string): Email {
    if !error then Email(SUCCESS_SUBJECT, SUCCESS_BODY)
    else Email(FAILURE_SUBJECT, FAILURE_PREAMBLE + msg + "'")
  }

  /** The e-mail lambda_handler sends for an outcome. */
  function EmailFor(failure: Option<string>): Email {
    match failure
    case None => SendEmail(false, "")
    case Some(msg) => SendEmail(true, msg)
  }

  /** Reads the error message back out of a failure e-mail. */
  function ReportedError(mail: Email): Option<string> {
    var b := mail.body;
    if mail.subject == FAILURE_SUBJECT && |b| > |FAILURE_PREAMBLE| && b[..|FAILURE_PREAMBLE|] == FAILURE_PREAMBLE
       && b[|b| - 1] == '\''
    then Some(b[|FAILURE_PREAMBLE|..|b| - 1])
    else None
  }

  /** The e-mail tells the outcome apart, carries the exception's message verbatim, and agrees
      with the status code. */
  lemma EmailReportsOutcome(failure: Option<string>)
    ensures ReportedError(EmailFor(failure)) == failure
    ensures ResponseFor(failure).statusCode == 200 <==> EmailFor(failure).subject == SUCCESS_SUBJECT
  {
    if failure.Some? {
      var b := EmailFor(failure).body;
      assert b == FAILURE_PREAMBLE + (failure.value + "'");
      assert b[..|FAILURE_PREAMBLE|] == FAILURE_PREAMBLE;
      assert b[|FAILURE_PREAMBLE|..|b| - 1] == failure.value;
    }
  }

  /** The loop body over the live stores: the oldest value, the skip test, get_data,
      put_data_to_s3 and delete_data (write_old_data_to_s3, lines 50-65). */
  method ArchiveTable(version: GetDataVersion, cfg: Config, spec: TableSpec, cutoff: Moment, db: Database, bucket: Bucket)
    returns (failure: Option<string>)
    modifies db, bucket
    ensures var r := TableCycle(version, World(old(db.tables), old(bucket.objects)), cfg, spec, cutoff);
            && (r.Err? ==> failure == Some(r.error) && db.tables == old(db.tables) && bucket.objects == old(bucket.objects))
            && (r.Ok? ==> failure.None? && World(db.tables, bucket.objects) == r.value)
  {
    var oldest := OldestDate(db.tables, spec.table, spec.column);
    if SkipAsWritten(oldest, cutoff) {
      return None;
    }
    var extracted := Extract(version, db.tables, spec.table, spec.column, cutoff);
    if !oldest.Found? {
      // put_data_to_s3 raises while formatting the file name, before anything is written.
      return Some(if oldest.Sentinel? then LIST_HAS_NO_STRFTIME else NONE_HAS_NO_STRFTIME);
    }
    var key := ArchiveKey(cfg.archivePrefix, StagedName(spec, oldest.stamp, cutoff));
    var csv := WriteCsv(extracted.columns, extracted.rows);
    bucket.Put(key, csv);
    db.DeleteData(spec.table, spec.column, cutoff);
    failure := None;
  }

  /** The loop over the catalog (lines 178-202), in insertion order; an exception ends it. */
  method ArchiveTables(version: GetDataVersion, cfg: Config, catalog: Catalog, cutoff: Moment, db: Database, bucket: Bucket)
    returns (failure: Option<string>)
    modifies db, bucket
    ensures var p := ProcessTables(version, World(old(db.tables), old(bucket.objects)), cfg, catalog, cutoff);
            World(db.tables, bucket.objects) == p.world && failure == p.failure
  {
    var i := 0;
    while i < |catalog|
      invariant 0 <= i <= |catalog|
      invariant ProcessTables(version, World(db.tables, bucket.objects), cfg, catalog[i..], cutoff) ==
                ProcessTables(version, World(old(db.tables), old(bucket.objects)), cfg, catalog, cutoff)
    {
      assert catalog[i..][0] == catalog[i] && catalog[i..][1..] == catalog[i + 1..];
      failure := ArchiveTable(version, cfg, catalog[i], cutoff, db, bucket);
      if failure.Some? {
        return;
      }
      i := i + 1;
    }
    failure := None;
  }

  /** What follows the loop over the live stores (lines 203-208): the no-files check, the
      upload of the bundle, and the clean-up of the staging prefix. */
  method FinishSteps(cfg: Config, loopFailure: Option<string>, db: Database, bucket: Bucket, vault: Vault)
    returns (failure: Option<string>)
    modifies bucket, vault
    ensures var o := Finish(cfg, Progress(World(db.tables, old(bucket.objects)), loopFailure), old(vault.archives));
            && World(db.tables, bucket.objects) == o.world
            && vault.archives == o.archives
            && failure == o.failure
  {
    if loopFailure.Some? {
      return loopFailure;
    }
    failure := bucket.RaiseIfNoFilesFound(cfg.archivePrefix, cfg.bucket);
    if failure.Some? {
      return;
    }
    var _ := ArchiveOldData(bucket, vault, cfg.archivePrefix);
    // vacuum_db reclaims space and changes no row.
    bucket.CleanArchive(cfg.archivePrefix);
  }

  /** lambda_handler's `try` block over the live stores. */
  method RunSteps(version: GetDataVersion, cfg: Config, now: Moment, fetched: Option<string>, db: Database, bucket: Bucket, vault: Vault)
    returns (failure: Option<string>)
    modifies db, bucket, vault
    ensures var o := Run(version, cfg, now, fetched, World(old(db.tables), old(bucket.objects)), old(vault.archives));
            && World(db.tables, bucket.objects) == o.world
            && vault.archives == o.archives
            && failure == o.failure
  {
    var date := ArchiveDate(now, cfg.deltaDays);
    if date.Err? {
      return Some(date.error);
    }
    var cutoff := date.value;
    var tables := GetTableList(fetched);
    if tables.Err? {
      return Some(tables.error);
    }
    var catalog := tables.value;
    if catalog == [] {
      return Some(NoConfigMessage(cfg));
    }
    ghost var p := ProcessTables(version, World(db.tables, bucket.objects), cfg, catalog, cutoff);
    assert Run(version, cfg, now, fetched, World(db.tables, bucket.objects), vault.archives) == Finish(cfg, p, vault.archives);
    failure := ArchiveTables(version, cfg, catalog, cutoff, db, bucket);
    assert p == Progress(World(db.tables, bucket.objects), failure);
    failure := FinishSteps(cfg, failure, db, bucket, vault);
  }

  /** lambda_handler: runs the steps, then sends the e-mail and returns the status for the
      outcome. The event's date is ignored (see Run). */
  method LambdaHandler(version: GetDataVersion, cfg: Config, eventDate: Option<string>, now: Moment, fetched: Option<string>,
                       db: Database, bucket: Bucket, vault: Vault)
    returns (response: Response, mail: Email)
    modifies db, bucket, vault
    ensures var o := Run(version, cfg, now, fetched, World(old(db.tables), old(bucket.objects)), old(vault.archives));
            && World(db.tables, bucket.objects) == o.world
            && vault.archives == o.archives
            && response == ResponseFor(o.failure)
            && mail == EmailFor(o.failure)
  {
    var failure := RunSteps(version, cfg, now, fetched, db, bucket, vault);
    response := ResponseFor(failure);
    mail := EmailFor(failure);
  }
}
