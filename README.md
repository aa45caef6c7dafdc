# Data-retention archiver, modelled in Dafny

The archiver is a scheduled job. Each run it computes a cutoff: 23:59:59 on the day
`DELTA_DAYS + 1` days before "now" (`DELTA_DAYS` is 1460 by default), with now's microseconds
kept. It reads a catalog of `table;date_column`
lines from S3. For every catalogued table whose oldest dated row is not after the cutoff, it:

- calls `get_data` to select the rows dated at or before the cutoff;
- writes what `get_data` returned, with a header, as one CSV object under the S3 staging prefix;
- deletes the rows dated at or before the cutoff from the database.

As the code is written, `get_data` reads the cursor's column names before it runs the query.
On a fresh cursor that raises, `get_data`'s own `except` swallows the error, and it returns no
columns and no rows. So every staged object holds only an empty header record, and the deleted
rows are archived nowhere (see
"## Findings"). The handler is modelled for both versions of `get_data`: `AsWritten`, which is
the code, and `Corrected`, which runs the query first.

It then checks that the staging prefix holds at least one file. It bundles every staged file
into one ZIP archive, uploads that to a Glacier vault, runs VACUUM and deletes every
staged file under the staging prefix, leaving folder markers (keys ending in `/`) in place. The outcome goes out as an e-mail and as the status code `{200, "OK"}` or
`{400, "ERROR"}`.

The model has seven modules:

- `Wrappers`: `Option` and `Result`.
- `Text`: Python's `str.split` with one separator, `str.strip`, `posixpath.join` and
  `key.split("/")[-1]`.
- `Calendar`: proleptic Gregorian dates over years 1..9999, the day ordinal, shifting by days
  with `OverflowError` at the range's ends, datetimes, and `strftime('%m.%d.%Y')` with a
  parser for it.
- `Db` (`db.py`): the cutoff, the oldest-date query, the extract and the delete. The database
  is an in-memory map from table names to tables, and the delete runs in place on a
  `Database` object.
- `Catalog` (`get_table_list`): the parser, as a function and as the loop that builds the
  dict.
- `Staging`: the CSV object, its key, S3's listing order, the no-files check, the ZIP bundle
  and the clean-up. These work on a `Bucket` object; the upload works on a `Vault` object.
- `Handler` (`lambda_handler`): the per-table cycle, the whole run as a function (`Run`), the
  e-mail and the status code. The method `LambdaHandler` drives the three stores and is
  proved equal to `Run`. Each of these takes a `GetDataVersion`. `LambdaHandler(AsWritten, …)`
  is the handler as written; `Corrected` gives the handler with `get_data` fixed.

Behaviour kept exactly as the code has it:

- The event's `date` never takes effect. Line 165 calls `strptime` on the `datetime` module,
  which has no such attribute. The `AttributeError` is caught, so the cutoff always comes from
  `get_archive_date`.
- When `get_oldest_date` fails or finds an empty table it returns `[]`. A column of NULLs gives
  `None`. Both are falsy, so the table is not skipped. The run then fails inside
  `put_data_to_s3`, before anything is written, with an `AttributeError` about `strftime`.
- The file name puts the oldest value's date first and the cutoff's date second.
- On success the e-mail subject is "events archiver problem"; on failure it is
  "events archiver".
- A datetime is also a `date`, so the skip test compares both its midnight and itself with the
  cutoff. `Handler.SkipMeansNothingEligible` shows that the two together mean "the oldest value
  is strictly after the cutoff".

More details of the code that the model keeps:

- The cutoff is computed before the catalog is read (lines 169 and 172).
- Only empty lines of the catalog are skipped. A line of spaces in a non-blank catalog raises
  `ValueError`.
- A line with two `;` raises `ValueError` too; it is not split on the first one.
- The catalog keeps the order of the lines. A later line for the same table replaces the
  column but keeps the table's place.

## Model

| member | source | states |
|---|---|---|
| Text.Split | lambda_function.py:27 | `str.split(sep)` gives one more piece than there are separators, and no piece contains the separator |
| Text.JoinSplit | lambda_function.py:27 | joining the pieces of a split with the separator gives back the text |
| Text.SplitJoin | lambda_function.py:27 | splitting pieces that were joined gives back the pieces |
| Text.Strip | lambda_function.py:25 | `strip()` is empty exactly when the text is all whitespace; otherwise it starts and ends with a non-space |
| Text.StripCutsBothEnds | lambda_function.py:25 | `strip()` is a slice of the text with only whitespace before and after it; with `Strip`'s own contract this fixes the result |
| Text.PathJoin | lambda_function.py:40 | `posixpath.join(directory, name)`: an absolute name replaces the directory, and a `/` is inserted unless the directory is empty or ends with one; its properties are `PathJoinParts`, `PathJoinUnder` and `PathJoinInjective` |
| Text.Basename | lambda_function.py:95 | `key.split("/")[-1]`: the last `/` segment; `PathJoinParts` shows it gives back a joined name |
| Text.PathJoinParts | lambda_function.py:40 | `os.path.join(prefix, name)` starts with the prefix, ends with the name, and its last `/` segment is the name |
| Text.PathJoinUnder | lambda_function.py:40 | a relative name that does not end in `/` joins into a key under the prefix that is not a folder marker |
| Text.PathJoinInjective | lambda_function.py:40 | under one prefix, different relative names give different keys |
| Calendar.DaysBeforeYearClosedForm | db.py:10-12 | the day count before a year, defined year by year, equals the closed form `365*x + x//4 - x//100 + x//400` with `x = year - 1` that Python's `datetime` uses |
| Calendar.FormatDate | lambda_function.py:39 | `strftime('%m.%d.%Y')`: ten characters, two digits of month, a dot, two of day, a dot, four of year; `ParseFormattedDate` reads it back |
| Calendar.NaturalDecimal | db.py:10 | `'%d' % n` for `n >= 0`: decimal digits without a leading zero that denote `n` |
| Calendar.ShiftDays | db.py:10-12 | a `timedelta` shift succeeds exactly when the target ordinal is between 0001-01-01 and 9999-12-31, and moves the ordinal by exactly that many days |
| Calendar.ParseFormattedDate | lambda_function.py:39 | a date written with `%m.%d.%Y` reads back as the same date |
| Calendar.FormatDateInjective | lambda_function.py:39 | different dates are written differently |
| Db.Timedelta | db.py:10 | `timedelta(days=n)` succeeds exactly when `|n| <= 999999999`; otherwise it raises `OverflowError` with `days=n; must have magnitude <= 999999999`, or with the C-int message beyond the C int range |
| Db.ArchiveDate | db.py:8-12 | the cutoff is 23:59:59 of the day `deltaDays + 1` days before now, keeping now's microsecond; it fails exactly when the window exceeds a `timedelta`'s range (with that message) or a shifted day leaves the date range (`date value out of range`) |
| Db.TimedeltaMessageDiffers | db.py:10 | documents `ArchiveDate`'s two errors: a window beyond a `timedelta`'s range fails, and its message is not the date-range one |
| Db.CutoffBeforeNow | db.py:8-12 | with a non-negative window the cutoff is on an earlier day than now |
| Db.OldestDate | db.py:26-41 | gives `[]` exactly when the query fails or the table is empty; gives `None` only for a column of NULLs; otherwise gives a value present in the column and not later than any other (NULLs sort last) |
| Db.GetData | db.py:44-60 | with the query executed first: `([], [])` when the query fails; otherwise the table's columns and exactly the rows whose date is not after the cutoff, each as many times as in the table |
| Db.GetDataAsWritten | db.py:44-60 | reading `cursor.description` before executing: on a fresh cursor `([], [])` whatever the table holds; on a cursor that already has a description, those names, with the eligible rows when the query runs and none when it raises |
| Db.Extract | db.py:44-60 | the handler's call to `get_data`: as written (on the fresh cursor it opens) it gives `([], [])`; corrected it gives `GetData` |
| Db.Eligible | db.py:50 | the WHERE clause `column <= cutoff` shared by the SELECT and the DELETE: a NULL never matches and the bound is inclusive; `ExtractMatchesPurge` and `Purged` state the split it makes |
| Db.ExecuteSelect | db.py:50-53 | `cursor.execute(query)` then `fetchall()`: succeeds exactly when the table and column can be queried, sets the description to the table's columns, and fetches exactly the eligible rows |
| Db.Purged | db.py:66-68 | the table after the DELETE keeps its columns and exactly the rows whose date is after the cutoff or NULL, each as often as before |
| Db.AfterDelete | db.py:63-74 | the database after `delete_data`: only the named table changes, to `Purged`; a DELETE that raises changes nothing |
| Db.Database.DeleteData | db.py:63-74 | the table loses exactly the rows whose date is not after the cutoff, other tables are untouched, and a failing DELETE changes nothing |
| Db.ExtractMatchesPurge | db.py:44-74 | the extracted rows and the rows the DELETE keeps make up the table exactly; the first are all eligible, the second none |
| Db.DeleteIsFinal | db.py:63-74 | after the DELETE, extracting with the same cutoff finds nothing, and any remaining oldest date is after the cutoff |
| Db.CutoffSplitsExample | db.py:50 | rows dated 2019-01-01 and 2022-01-01 under a 2020-01-01 cutoff: the first is extracted and deleted, the second stays |
| Db.AsWrittenExtractLosesRows | db.py:49-53 | as written, a 2019 row under a 2020 cutoff is extracted as nothing and still deleted; the corrected extract returns it |
| Catalog.AddLine | lambda_function.py:28-30 | the loop body: an empty line changes nothing; any other line is parsed, and stored, or raises (`AddLineFails`) |
| Catalog.ParseLines | lambda_function.py:27-30 | the dict after the loop, line by line, or the first error; `ParseFailsIff` and `ParsedCatalog` state what it holds |
| Catalog.TableList | lambda_function.py:15-32 | `get_table_list` as a function: `{}` for a failed read or a blank object, otherwise `ParseLines` of its lines; `EmptyCatalogIff` and `TableListFailsIff` state when it is empty or fails |
| Catalog.Put | lambda_function.py:30 | `tables[table] = column`: the key set grows by the table, the table maps to the new column, other tables keep theirs, and keys stay unique |
| Catalog.PutNew | lambda_function.py:30 | a table not yet in the dict is appended at the end |
| Catalog.ParseLine | lambda_function.py:29-30 | a line parses exactly when it has one `;`: the table is the text before it, unstripped, and the column is the stripped text after it; otherwise the two `ValueError` messages |
| Catalog.ErrorStops | lambda_function.py:27-30 | once a line has raised, the lines after it are not read |
| Catalog.ParseAll | lambda_function.py:27-30 | the loop over the lines builds the dict the line-by-line definition gives |
| Catalog.GetTableList | lambda_function.py:15-32 | `{}` when the object cannot be read or is blank, otherwise the parse of its lines |
| Catalog.ParsedCatalog | lambda_function.py:27-30 | a parsed catalog holds each table once, with the column of the last non-empty line that names it |
| Catalog.ParseFailsIff | lambda_function.py:27-30 | parsing fails exactly when some non-empty line does not hold exactly one `;` |
| Catalog.TableListFailsIff | lambda_function.py:24-30 | `get_table_list` raises exactly when the object is not blank and has such a line |
| Catalog.EmptyCatalogIff | lambda_function.py:19-26 | the catalog is empty exactly when the object cannot be read or is all whitespace |
| Catalog.TwoTables | tests.py:14-27 | two well-formed lines naming different tables give those two tables in order, as for `table1;date_column1\ntable2;date_column2` |
| Catalog.BlankExamples | tests.py:30-49 | a failed read, `""`, `"\n"`, `"\n\n"` and `" "` all give an empty catalog |
| Staging.HeaderRoundTrip | lambda_function.py:43 | the header record reads back as the column names |
| Staging.WriteCsv | lambda_function.py:41-46 | the object is the header and then every row in order, and it reads back as those columns and rows |
| Staging.CsvOfReadsBack | lambda_function.py:41-46 | the staged object reads back as the columns and rows it was written from |
| Staging.ArchiveFilename | lambda_function.py:39 | `events_{table}_{oldest}_{cutoff}.csv` with both dates as `%m.%d.%Y`; `ArchiveFilenameRoundTrip` parses it back |
| Staging.ArchiveKey | lambda_function.py:40 | `os.path.join(S3_ARCHIVE, filename)`; `ArchiveKeyShape` and `ArchiveKeyInjective` state its shape and injectivity |
| Staging.CsvOf | lambda_function.py:41-46 | the staged object: the header record of the column names, then every row in order; `CsvOfReadsBack` reads it back |
| Staging.Bundle | lambda_function.py:84-96 | the ZIP members: each file under the prefix, in listing order, named by its last segment; `BundleHoldsStagedFiles` states what it holds |
| Staging.Cleaned | lambda_function.py:68-77 | the bucket after `clean_s3`: the files under the prefix are gone; `CleanedLeavesNoFiles` states it |
| Staging.ArchiveFilenameRoundTrip | lambda_function.py:39 | the file name can be parsed back into the table, the oldest date and the cutoff date |
| Staging.ArchiveFilenameInjective | lambda_function.py:39 | different tables or dates never share a file name |
| Staging.ArchiveKeyShape | lambda_function.py:39-40 | the key lies under the staging prefix and is not a folder marker; its last segment is the file name when the table name has no `/` |
| Staging.ArchiveKeyInjective | lambda_function.py:39-40 | different tables or dates never share a key |
| Staging.SortedKeys | lambda_function.py:84 | the listing holds each key once, in strictly ascending code-point order |
| Staging.Listing | lambda_function.py:84 | `objects.filter(Prefix=prefix)` lists exactly the keys that start with the prefix |
| Staging.FileKeys | lambda_function.py:91-93 | the loop keeps exactly the listed keys that do not end with `/` |
| Staging.CollectFiles | lambda_function.py:91-96 | the loop collects each non-marker object under its last path segment, in listing order |
| Staging.Bucket.CollectBundle | lambda_function.py:80-96 | the ZIP members are the files under the prefix, in listing order |
| Staging.BundleHoldsStagedFiles | lambda_function.py:84-96 | every file under the prefix is in the bundle under its last segment, and nothing else is |
| Staging.NoFilesMessage | lambda_function.py:153-155 | the text of the NoFilesException; `RaiseIfNoFilesFound` and `NothingOldEnoughFails` state when it is raised |
| Staging.Bucket.RaiseIfNoFilesFound | lambda_function.py:146-155 | no error exactly when some key under the prefix is not a folder marker; otherwise the `NoFilesException` message |
| Staging.Bucket.CleanArchive | lambda_function.py:68-77 | deletes every file under the prefix and keeps folder markers and all other objects |
| Staging.CleanedLeavesNoFiles | lambda_function.py:68-77 | after cleaning no file is left under the prefix, everything else is kept, and cleaning again changes nothing |
| Staging.Bucket.Put | lambda_function.py:46 | the object is created or replaced under its key |
| Staging.Vault.UploadArchive | lambda_function.py:100-106 | the vault gains exactly one archive at the end, with the given description and members |
| Staging.ArchiveOldData | lambda_function.py:80-106 | the vault gains one archive described "events archive from rds" holding the bundle of the staging prefix |
| Handler.SkipAsWritten | lambda_function.py:180-189 | the skip test as written, with both `isinstance` checks and the truthiness of the oldest value; `SkipMeansNothingEligible` says what it means |
| Handler.TableCycle | lambda_function.py:178-202 | one loop iteration over the two stores for a `get_data` version: skip, or fail on a non-date, or stage `Extract`'s result and delete; `CycleFailsIff`, `CycleLosesNoRows` and `AsWrittenCycleLosesRows` state its outcomes |
| Handler.ProcessTables | lambda_function.py:178-202 | the loop over the catalog in order, stopping at the first exception; `StagedFilesPersist`, `ProcessedTableStagesFile` and `AllSkippedChangesNothing` state its properties |
| Handler.Finish | lambda_function.py:203-208 | the steps after the loop; `FinishArchivesStaging` states them |
| Handler.Run | lambda_function.py:160-216 | the whole `try` block over the three stores; `RunArchivesOnSuccessOnly`, `NoCatalogChangesNothing` and `NothingOldEnoughFails` state its outcomes |
| Handler.ResponseFor | lambda_function.py:210-216 | `{400, "ERROR"}` after an exception, otherwise `{200, "OK"}`; `EmailReportsOutcome` ties it to the e-mail |
| Handler.EmailFor | lambda_function.py:210-215 | `send_email(error=True, msg=str(e))` after an exception, otherwise `send_email()`; `EmailReportsOutcome` shows the message is carried verbatim |
| Handler.SendEmail | lambda_function.py:109-125 | the subject and body `send_email` composes; `EmailReportsOutcome` shows the message is carried verbatim |
| Handler.SkipMeansNothingEligible | lambda_function.py:180-189 | a table is skipped exactly when its oldest value is a date or datetime strictly after the cutoff |
| Handler.CycleFailsIff | lambda_function.py:180-202 | a table's cycle fails exactly when the oldest-date lookup gave `[]` or `None`, with the matching `strftime` message |
| Handler.CycleLosesNoRows | lambda_function.py:191-202 | with the corrected `get_data`: the staged CSV reads back as the table's columns, and its rows plus the rows left make up the old table exactly; no other table or object changes |
| Handler.ProcessedTableHasEligibleRows | lambda_function.py:180-193 | a table that is not skipped and has a dated row has at least one row at or before the cutoff |
| Handler.AsWrittenCycleLosesRows | lambda_function.py:191-202 | with `get_data` as written: the staged object reads back as no column and no row, while the DELETE removes every eligible row, and there is at least one |
| Handler.CycleAfterPurge | lambda_function.py:178-202 | a table whose dated rows all lie after the cutoff is skipped, and one without a dated row fails, so the stores do not change |
| Handler.SecondCycleChangesNothing | lambda_function.py:178-202 | running a processed table again with the same cutoff either skips it or fails before writing |
| Handler.CycleKeepsObjects | lambda_function.py:195-202 | a cycle never removes an object from the bucket |
| Handler.StagedFilesPersist | lambda_function.py:178-203 | once a file is staged it is still there when the loop ends |
| Handler.ProcessedTableStagesFile | lambda_function.py:178-203 | a processed table leaves a staged file, so the no-files check passes |
| Handler.AllSkippedChangesNothing | lambda_function.py:178-189 | if every table is skipped, the loop changes nothing |
| Handler.FinishArchivesStaging | lambda_function.py:203-208 | after the loop a failure uploads nothing; success uploads one archive of the staged files and leaves no file under the prefix; no table changes |
| Handler.RunArchivesOnSuccessOnly | lambda_function.py:160-216 | the vault grows exactly when the run succeeds, and a successful run leaves the staging prefix without files |
| Handler.NoCatalogChangesNothing | lambda_function.py:172-176 | a missing or blank catalog ends the run with `NoConfigException` before any store changes |
| Handler.NothingOldEnoughFails | lambda_function.py:178-203 | when every table is skipped and nothing was staged before, the run ends with `NoFilesException` and changes nothing |
| Handler.EmailReportsOutcome | lambda_function.py:109-125 | the failure e-mail carries the exception's message verbatim, the success e-mail carries none, and the success subject goes with status 200 |
| Handler.ArchiveTable | lambda_function.py:178-202 | one loop iteration on the live database and bucket does what the table cycle says for the given `get_data` version; on failure both are unchanged |
| Handler.ArchiveTables | lambda_function.py:178-202 | the loop over the catalog leaves the stores and the failure that the table-by-table definition gives |
| Handler.FinishSteps | lambda_function.py:203-208 | after the loop the live bucket and vault end as `Finish` says: a failure changes nothing, and otherwise the no-files check, the upload and the clean-up run in order |
| Handler.RunSteps | lambda_function.py:160-209 | the `try` block leaves the database, the bucket and the vault as `Run` says, and reports its failure |
| Handler.LambdaHandler | lambda_function.py:158-216 | the stores end as `Run` says for the given `get_data` version (`AsWritten` is the code); the status code and the e-mail follow the outcome |

## Left out

- Network and connection failures are not modelled. This covers psycopg2 `connect`, S3
  reads and writes, Glacier and SES. The failures the code itself turns into values are
  modelled, except a DELETE that fails on its own (next line).
- Db.AfterDelete, Db.ExtractMatchesPurge, Handler.CycleLosesNoRows and
  Handler.SecondCycleChangesNothing assume two things the code does not guarantee. First, the
  DELETE fails only when the oldest-date SELECT and `get_data`'s SELECT fail too: all three share
  the predicate `Queryable`. So the handler never reaches `delete_data`'s swallowing `except`
  (db.py:71-72). A DELETE that alone raises (a foreign-key violation, a missing privilege, a lock
  timeout) stages the CSV, keeps the rows and returns 200 in the code. Second, `get_data` and
  `delete_data` open separate connections (db.py:48, db.py:64), and the model assumes no other
  writer changes the table in between. A row with an old date written there is deleted but never
  staged.
- Deletes in `clean_s3` that raise are swallowed by the code. The model's deletes always
  succeed.
- `vacuum_db` (db.py:77-91) is not modelled: VACUUM changes no row.
- The ZIP format and DEFLATE compression are not modelled. The archive is its list of members.
- CSV text is not modelled: quoting, line endings, and how dates, NULLs and other values
  become text. A CSV object is its list of records.
- The UTF-8 decoding of the catalog object is not modelled. The catalog arrives as text, or
  as `None` when `get_object` raised.
- The catalog object's key (`config/tables.csv`) is not modelled: its content is a parameter.
- Timestamps with a time zone are not modelled, and neither are date columns of other types.
- Only date and timestamp columns are modelled. For any other column the model treats every
  query as failing. In the code, a SELECT on a text column succeeds. The run then fails in
  `put_data_to_s3` with "'str' object has no attribute 'strftime'", a path the model does not
  take.
- Glacier's archive id is modelled as the archive's position in the vault.
- The `send_email` result is not modelled: the SES call and its `ClientError` are outside the
  model. The model returns the composed message.
- Logging, `os.environ["AWS_REGION"]` and the SSH tunnel in config.py are left out.
- Calendar.FormatDate: years below 1000 are written with four digits. The platform's
  `strftime` may not pad them.
- Handler.CycleLosesNoRows: states the cycle with the corrected `get_data` only. As written,
  the cycle stages only an empty header record and deletes the rows (`Handler.AsWrittenCycleLosesRows`).
- Db.Timedelta: the error messages follow CPython's C `_datetime` module. The pure-Python
  implementation reports "timedelta # of days is too large: N" for a day count out of range,
  and "result out of range" where the C module reports "date value out of range".
- SQL identifier resolution is not modelled: names are matched verbatim, whereas PostgreSQL
  folds unquoted names to lower case and ignores surrounding whitespace. A catalog line such as
  `Events ;created` archives the table `events` in the code, while in the model the queries on
  it fail.
- Handler.LambdaHandler: the event's date is taken as a parameter and ignored, as the code
  effectively does. Python's `strptime` formats are not modelled.

## Findings

| source | as written | input that shows it | evidently intended | confidence | as-written member | corrected member |
|---|---|---|---|---|---|---|
| db.py:51-52 | `cursor.description` is read before `cursor.execute(query)`. On a fresh psycopg2 cursor it is `None`, so `map` raises `TypeError`. `get_data`'s `except` swallows it and returns `([], [])` for every table. The handler then stages a header-only CSV and `delete_data` removes the rows, so they are lost. | table `events(id, created)` holding one row dated 2019-01-01, cutoff 2020-01-01 | execute the query, then read the column names, so the staged CSV holds exactly the rows the DELETE removes | high; not executed | Handler.AsWrittenCycleLosesRows | Handler.CycleLosesNoRows |
