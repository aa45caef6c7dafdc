/** db.py: the retention cutoff and the three queries the archiver runs against one table
    (oldest date, extract, delete), over an in-memory database that maps table names to tables. */
module Db {
  import opened Wrappers
  import opened Calendar

  /** DELTA_DAYS when the environment does not set it (config.py:48). */
  const DEFAULT_DELTA_DAYS := 365 * 4
  /** str() of the OverflowError datetime arithmetic raises outside years 1..9999. */
  const OVERFLOW_MESSAGE := "date value out of range"
  /** The largest number of days a timedelta holds. */
  const MAX_DELTA_DAYS := 999999999
  /** The range of a C int, which CPython's timedelta converts its day count to first. */
  const C_INT_MIN := -0x8000_0000
  const C_INT_MAX := 0x7FFF_FFFF

  /** str() of the OverflowError timedelta(days=n) raises when n is out of range. */
  function TimedeltaMessage(days: int): string {
    if days < C_INT_MIN || days > C_INT_MAX then "Python int too large to convert to C int"
    else "days=" + Decimal(days) + "; must have magnitude <= 999999999"
  }

  /** timedelta(days=n): the day count, or the OverflowError raised for a count beyond
      999999999 days either way. */
  function Timedelta(days: int): (r: Result<int>)
    ensures r.Ok? <==> -MAX_DELTA_DAYS <= days <= MAX_DELTA_DAYS
    ensures r.Ok? ==> r.value == days
    ensures r.Err? ==> r.error == TimedeltaMessage(days)
  {
    if days < -MAX_DELTA_DAYS || days > MAX_DELTA_DAYS then Err(TimedeltaMessage(days)) else Ok(days)
  }

  /** get_archive_date with "now" passed in: build timedelta(days=deltaDays), step back that
      many days, set the clock to 23:59:59 keeping the microsecond, then step back one more
      day. The cutoff is the last second of the day deltaDays + 1 days before now. */
  function ArchiveDate(now: Moment, deltaDays: int): (r: Result<Moment>)
    ensures r.Ok? <==> && -MAX_DELTA_DAYS <= deltaDays <= MAX_DELTA_DAYS
                       && 2 <= Ordinal(now.date) - deltaDays <= Ordinal(LAST_DATE)
    ensures r.Ok? ==> Ordinal(r.value.date) == Ordinal(now.date) - (deltaDays + 1)
    ensures r.Ok? ==> r.value.second == LAST_SECOND && r.value.micro == now.micro
    ensures r.Err? ==> r.error == if -MAX_DELTA_DAYS <= deltaDays <= MAX_DELTA_DAYS
                                  then OVERFLOW_MESSAGE else TimedeltaMessage(deltaDays)
  {
    match Timedelta(deltaDays)
    case Err(e) => Err(e)
    case Ok(days) =>
      match ShiftDays(now.date, -days)
      case None => Err(OVERFLOW_MESSAGE)
      case Some(day) =>
        match ShiftDays(day, -1)
        case None => Err(OVERFLOW_MESSAGE)
        case Some(previous) => Ok(Moment(previous, LAST_SECOND, now.micro))
  }

  /** A window beyond a timedelta's range fails with its own message, which reads differently
      from the date-range one. */
  lemma TimedeltaMessageDiffers(days: int)
    requires days < -MAX_DELTA_DAYS || days > MAX_DELTA_DAYS
    ensures ArchiveDate(Moment(FIRST_DATE, 0, 0), days).Err?
    ensures TimedeltaMessage(days) != OVERFLOW_MESSAGE
  {
    if days < C_INT_MIN || days > C_INT_MAX {
      assert TimedeltaMessage(days)[0] != OVERFLOW_MESSAGE[0];
    } else {
      assert TimedeltaMessage(days)[2] != OVERFLOW_MESSAGE[2];
    }
  }

  /** With a non-negative window the cutoff falls on an earlier day than now. */
  lemma CutoffBeforeNow(now: Moment, deltaDays: int)
    requires deltaDays >= 0 && ArchiveDate(now, deltaDays).Ok?
    ensures DateBefore(ArchiveDate(now, deltaDays).value.date, now.date)
    ensures Earlier(ArchiveDate(now, deltaDays).value, now)
  {
    var cutoff := ArchiveDate(now, deltaDays).value;
    if !DateBefore(cutoff.date, now.date) {
      if cutoff.date != now.date {
        OrdinalMonotonic(now.date, cutoff.date);
      }
      assert false;
    }
  }

  /** A cell of a row. A date or timestamp column holds NULL or a Stamp. */
  datatype Cell = Null | Str(text: string) | When(stamp: Stamp)

  type Row = seq<Cell>

  datatype Table = Table(columns: seq<string>, rows: seq<Row>)

  /** Position of the first column with the given name. */
  function ColumnIndex(columns: seq<string>, column: string): (i: nat)
    requires column in columns
    ensures i < |columns| && columns[i] == column
  {
    if columns[0] == column then 0 else 1 + ColumnIndex(columns[1..], column)
  }

  /** `column` names a date or timestamp column of t: every row holds NULL or a date there. */
  predicate IsDateColumn(t: Table, column: string) {
    && column in t.columns
    && forall r: Row :: r in t.rows ==>
         ColumnIndex(t.columns, column) < |r| && !r[ColumnIndex(t.columns, column)].Str?
  }

  /** The queries on (name, column) run: the table exists and the column is a date column.
      Any other query raises in the database driver. */
  predicate Queryable(tables: map<string, Table>, name: string, column: string) {
    name in tables && IsDateColumn(tables[name], column)
  }

  /** Position of the queried date column in the rows of the named table. */
  function DateIndex(tables: map<string, Table>, name: string, column: string): nat
    requires name in tables && column in tables[name].columns
  {
    ColumnIndex(tables[name].columns, column)
  }

  /** The WHERE clause `column <= cutoff` shared by get_data and delete_data: NULL never
      qualifies and the boundary is inclusive. */
  predicate Eligible(r: Row, i: nat, cutoff: Moment) {
    i < |r| && r[i].When? && NotLater(r[i].stamp.Instant(), cutoff)
  }

  /** rows holds, as a multiset, exactly the rows of source whose eligibility is `eligible`. */
  ghost predicate Picks(rows: seq<Row>, source: seq<Row>, i: nat, cutoff: Moment, eligible: bool) {
    forall x: Row :: multiset(rows)[x] == (if Eligible(x, i, cutoff) == eligible then multiset(source)[x] else 0)
  }

  /** The rows whose eligibility is `eligible`, in table order. */
  function Filter(rows: seq<Row>, i: nat, cutoff: Moment, eligible: bool): (r: seq<Row>)
    ensures forall x: Row :: x in r ==> Eligible(x, i, cutoff) == eligible
    ensures Picks(r, rows, i, cutoff, eligible)
  {
    if rows == [] then []
    else
      var rest := Filter(rows[1..], i, cutoff, eligible);
      assert rows == [rows[0]] + rows[1..];
      if Eligible(rows[0], i, cutoff) == eligible then [rows[0]] + rest else rest
  }

  /** HasValue(rows, i, s): some row holds s at position i. */
  predicate HasValue(rows: seq<Row>, i: nat, s: Stamp) {
    exists x: Row :: x in rows && i < |x| && x[i] == When(s)
  }

  /** The earliest non-NULL value at position i (the first one among equals). */
  function EarliestIn(rows: seq<Row>, i: nat): (r: Option<Stamp>)
    ensures r.None? <==> forall x: Row :: x in rows ==> !(i < |x| && x[i].When?)
    ensures r.Some? ==> HasValue(rows, i, r.value)
    ensures r.Some? ==> forall x: Row :: x in rows && i < |x| && x[i].When? ==>
                          NotLater(r.value.Instant(), x[i].stamp.Instant())
  {
    if rows == [] then None
    else
      var rest := EarliestIn(rows[1..], i);
      assert forall x: Row :: x in rows ==> x == rows[0] || x in rows[1..];
      if !(i < |rows[0]| && rows[0][i].When?) then
        assert rest.Some? ==> HasValue(rows, i, rest.value) by {
          if rest.Some? {
            var x :| x in rows[1..] && i < |x| && x[i] == When(rest.value);
            assert x in rows;
          }
        }
        rest
      else if rest.None? || NotLater(rows[0][i].stamp.Instant(), rest.value.Instant()) then
        assert rows[0] in rows;
        Some(rows[0][i].stamp)
      else
        assert HasValue(rows, i, rest.value) by {
          var x :| x in rows[1..] && i < |x| && x[i] == When(rest.value);
          assert x in rows;
        }
        rest
  }

  /** What get_oldest_date hands back, as the handler sees it. */
  datatype Oldest =
    | Found(stamp: Stamp)  // the earliest value of the column
    | NoValue              // the column holds only NULLs: the query returns None
    | Sentinel             // the query raised, or fetchone() found no row: [] is returned
  {
    /** Python truthiness of the returned value: only a date is truthy. */
    predicate Truthy() {
      Found?
    }
  }

  /** get_oldest_date: `SELECT column FROM name ORDER BY column ASC LIMIT 1`. NULLs sort last
      in ascending order, so a NULL comes back only when every value is NULL. */
  function OldestDate(tables: map<string, Table>, name: string, column: string): (r: Oldest)
    ensures r.Sentinel? <==> !Queryable(tables, name, column) || tables[name].rows == []
    ensures r.NoValue? ==> forall x: Row :: x in tables[name].rows ==> x[DateIndex(tables, name, column)].Null?
    ensures r.Found? ==> Queryable(tables, name, column)
    ensures r.Found? ==> HasValue(tables[name].rows, DateIndex(tables, name, column), r.stamp)
    ensures r.Found? ==> forall x: Row :: x in tables[name].rows && x[DateIndex(tables, name, column)].When? ==>
                           NotLater(r.stamp.Instant(), x[DateIndex(tables, name, column)].stamp.Instant())
  {
    if !Queryable(tables, name, column) then Sentinel
    else
      var t := tables[name];
      if t.rows == [] then Sentinel
      else
        match EarliestIn(t.rows, ColumnIndex(t.columns, column))
        case None => NoValue
        case Some(s) => Found(s)
  }

  /** The column names and rows get_data returns. */
  datatype Extraction = Extraction(columns: seq<string>, rows: seq<Row>)

  /** The state of a database cursor that matters to get_data: cursor.description stays None
      until a query has been executed on the cursor; then it lists the result's column names. */
  datatype Cursor = Cursor(description: Option<seq<string>>, fetched: seq<Row>)

  /** A cursor just returned by connection.cursor(). */
  const FRESH_CURSOR := Cursor(None, [])

  /** Executes `SELECT * FROM name w WHERE w.column <= 'cutoff'`; None when the query raises. */
  function ExecuteSelect(tables: map<string, Table>, name: string, column: string, cutoff: Moment): (r: Option<Cursor>)
    ensures r.Some? <==> Queryable(tables, name, column)
    ensures r.Some? ==> r.value.description == Some(tables[name].columns)
    ensures r.Some? ==> forall x: Row :: x in r.value.fetched ==> Eligible(x, DateIndex(tables, name, column), cutoff)
    ensures r.Some? ==> Picks(r.value.fetched, tables[name].rows, DateIndex(tables, name, column), cutoff, true)
  {
    if !Queryable(tables, name, column) then None
    else
      var t := tables[name];
      Some(Cursor(Some(t.columns), Filter(t.rows, ColumnIndex(t.columns, column), cutoff, true)))
  }

  /** get_data as written: line 51 reads cursor.description before line 52 executes the query.
      On a fresh cursor the description is None, map() over it raises TypeError, and the handler
      at line 55 swallows it, so ([], []) comes back whatever the table holds. A cursor that
      already has a description keeps its column names even when the query then raises. */
  function GetDataAsWritten(cursor: Cursor, tables: map<string, Table>, name: string, column: string, cutoff: Moment): (r: Extraction)
    ensures cursor.description.None? ==> r == Extraction([], [])
    ensures cursor.description.Some? ==> r.columns == cursor.description.value
    ensures cursor.description.Some? ==> r.rows == GetData(tables, name, column, cutoff).rows
  {
    match cursor.description
    case None => Extraction([], [])
    case Some(names) =>
      match ExecuteSelect(tables, name, column, cutoff)
      case None => Extraction(names, [])
      case Some(executed) => Extraction(names, executed.fetched)
  }

  /** get_data with the query executed before the description is read: the table's columns and
      exactly its eligible rows, or ([], []) when the query raises. */
  function GetData(tables: map<string, Table>, name: string, column: string, cutoff: Moment): (r: Extraction)
    ensures !Queryable(tables, name, column) ==> r == Extraction([], [])
    ensures Queryable(tables, name, column) ==> r.columns == tables[name].columns
    ensures Queryable(tables, name, column) ==>
              forall x: Row :: x in r.rows ==> Eligible(x, DateIndex(tables, name, column), cutoff)
    ensures Queryable(tables, name, column) ==>
              Picks(r.rows, tables[name].rows, DateIndex(tables, name, column), cutoff, true)
  {
    match ExecuteSelect(tables, name, column, cutoff)
    case None => Extraction([], [])
    case Some(executed) => Extraction(executed.description.value, executed.fetched)
  }

  /** Which get_data the handler calls: the one as written, on the fresh cursor it opens, or the
      corrected one. */
  datatype GetDataVersion = AsWritten | Corrected

  function Extract(version: GetDataVersion, tables: map<string, Table>, name: string, column: string, cutoff: Moment): (r: Extraction)
    ensures version.AsWritten? ==> r == Extraction([], [])
    ensures version.Corrected? ==> r == GetData(tables, name, column, cutoff)
  {
    match version
    case AsWritten => GetDataAsWritten(FRESH_CURSOR, tables, name, column, cutoff)
    case Corrected => GetData(tables, name, column, cutoff)
  }

  /** The table after `DELETE FROM name w WHERE w.column <= 'cutoff'`. */
  function Purged(t: Table, column: string, cutoff: Moment): (r: Table)
    requires column in t.columns
    ensures r.columns == t.columns
    ensures forall x: Row :: x in r.rows ==> !Eligible(x, ColumnIndex(t.columns, column), cutoff)
    ensures Picks(r.rows, t.rows, ColumnIndex(t.columns, column), cutoff, false)
  {
    Table(t.columns, Filter(t.rows, ColumnIndex(t.columns, column), cutoff, false))
  }

  /** The database after delete_data: the DELETE is committed when it runs; when it raises, the
      error is logged, nothing is committed and every table stays as it was. */
  function AfterDelete(tables: map<string, Table>, name: string, column: string, cutoff: Moment): (r: map<string, Table>)
    ensures r.Keys == tables.Keys
    ensures forall n :: n in r && n != name ==> r[n] == tables[n]
    ensures !Queryable(tables, name, column) ==> r == tables
    ensures Queryable(tables, name, column) ==> r[name] == Purged(tables[name], column, cutoff)
  {
    if Queryable(tables, name, column) then tables[name := Purged(tables[name], column, cutoff)] else tables
  }

  /** The relational database the archiver reads and deletes from. */
  class Database {
    var tables: map<string, Table>

    constructor (tables: map<string, Table>)
      ensures this.tables == tables
    {
      this.tables := tables;
    }

    /** delete_data: removes the eligible rows of one table in place and commits. */
    method DeleteData(name: string, column: string, cutoff: Moment)
      modifies this
      ensures tables == AfterDelete(old(tables), name, column, cutoff)
      ensures Queryable(old(tables), name, column) ==>
                multiset(old(tables)[name].rows) ==
                  multiset(tables[name].rows) + multiset(GetData(old(tables), name, column, cutoff).rows)
    {
      tables := AfterDelete(tables, name, column, cutoff);
    }
  }

  /** The extract and the delete use one predicate: the rows get_data returns and the rows the
      DELETE leaves make up the table exactly, the first all eligible, the second none. */
  lemma ExtractMatchesPurge(tables: map<string, Table>, name: string, column: string, cutoff: Moment)
    requires Queryable(tables, name, column)
    ensures multiset(GetData(tables, name, column, cutoff).rows) +
            multiset(AfterDelete(tables, name, column, cutoff)[name].rows) == multiset(tables[name].rows)
    ensures forall x: Row :: x in GetData(tables, name, column, cutoff).rows ==>
              Eligible(x, ColumnIndex(tables[name].columns, column), cutoff)
    ensures forall x: Row :: x in AfterDelete(tables, name, column, cutoff)[name].rows ==>
              !Eligible(x, ColumnIndex(tables[name].columns, column), cutoff)
  {
    var extracted := multiset(GetData(tables, name, column, cutoff).rows);
    var kept := multiset(AfterDelete(tables, name, column, cutoff)[name].rows);
    assert forall x: Row :: (extracted + kept)[x] == multiset(tables[name].rows)[x];
  }

  /** The rows the DELETE leaves are rows of the table, none of them eligible. */
  lemma PurgedRowsRemain(t: Table, column: string, cutoff: Moment)
    requires column in t.columns
    ensures forall r: Row :: r in Purged(t, column, cutoff).rows ==>
              r in t.rows && !Eligible(r, ColumnIndex(t.columns, column), cutoff)
  {
    var kept := Purged(t, column, cutoff).rows;
    forall r: Row | r in kept ensures r in t.rows {
      assert multiset(kept)[r] > 0;
    }
  }

  /** Rows none of which is eligible have nothing to extract. */
  lemma {:induction false} FilterNoneEligible(rows: seq<Row>, i: nat, cutoff: Moment)
    requires forall x: Row :: x in rows ==> !Eligible(x, i, cutoff)
    ensures Filter(rows, i, cutoff, true) == []
  {
    if rows != [] {
      assert rows[0] in rows;
      FilterNoneEligible(rows[1..], i, cutoff);
    }
  }

  /** Once the DELETE ran with a cutoff, extracting with the same cutoff finds nothing, and the
      oldest remaining date (if any row has one) is strictly later than the cutoff. */
  lemma DeleteIsFinal(tables: map<string, Table>, name: string, column: string, cutoff: Moment)
    requires Queryable(tables, name, column)
    ensures var after := AfterDelete(tables, name, column, cutoff);
      && Queryable(after, name, column)
      && GetData(after, name, column, cutoff).rows == []
      && (OldestDate(after, name, column).Found? ==>
            Earlier(cutoff, OldestDate(after, name, column).stamp.Instant()))
  {
    var after := AfterDelete(tables, name, column, cutoff);
    var t := tables[name];
    var i := ColumnIndex(t.columns, column);
    var kept := after[name];
    assert kept == Purged(t, column, cutoff);
    PurgedRowsRemain(t, column, cutoff);
    assert Queryable(after, name, column);
    FilterNoneEligible(kept.rows, i, cutoff);
    assert GetData(after, name, column, cutoff).rows == Filter(kept.rows, i, cutoff, true);
    var oldest := OldestDate(after, name, column);
    if oldest.Found? {
      var x :| x in kept.rows && i < |x| && x[i] == When(oldest.stamp);
      assert !Eligible(x, i, cutoff);
    }
  }

  /** Of two rows dated 2019-01-01 and 2022-01-01, a cutoff of 2020-01-01 extracts and deletes
      only the first; the second remains. */
  lemma CutoffSplitsExample(older: Row, newer: Row)
    requires older == [Str("a"), When(OnDate(CivilDate(2019, 1, 1)))]
    requires newer == [Str("b"), When(OnDate(CivilDate(2022, 1, 1)))]
    ensures var tables := map["events" := Table(["id", "created"], [older, newer])];
      var cutoff := Midnight(CivilDate(2020, 1, 1));
      && GetData(tables, "events", "created", cutoff) == Extraction(["id", "created"], [older])
      && AfterDelete(tables, "events", "created", cutoff)["events"].rows == [newer]
  {
    var tables := map["events" := Table(["id", "created"], [older, newer])];
    var cutoff := Midnight(CivilDate(2020, 1, 1));
    assert ColumnIndex(["id", "created"], "created") == 1;
    assert Eligible(older, 1, cutoff) && !Eligible(newer, 1, cutoff);
    assert Queryable(tables, "events", "created");
    FilterTwo(older, newer, 1, cutoff);
  }

  /** Of an eligible row followed by an ineligible one, the extract takes the first and the
      DELETE keeps the second. */
  lemma FilterTwo(older: Row, newer: Row, i: nat, cutoff: Moment)
    requires Eligible(older, i, cutoff) && !Eligible(newer, i, cutoff)
    ensures Filter([older, newer], i, cutoff, true) == [older]
    ensures Filter([older, newer], i, cutoff, false) == [newer]
  {
    assert [older, newer][1..] == [newer];
  }

  /** The as-written get_data extracts nothing from a table whose rows the DELETE then removes:
      a row dated 2019-01-01 under a 2020-01-01 cutoff is deleted without being staged. */
  lemma AsWrittenExtractLosesRows(row: Row)
    requires row == [Str("a"), When(OnDate(CivilDate(2019, 1, 1)))]
    ensures var tables := map["events" := Table(["id", "created"], [row])];
      var cutoff := Midnight(CivilDate(2020, 1, 1));
      && GetDataAsWritten(FRESH_CURSOR, tables, "events", "created", cutoff).rows == []
      && AfterDelete(tables, "events", "created", cutoff)["events"].rows == []
      && GetData(tables, "events", "created", cutoff).rows == [row]
  {
    var tables := map["events" := Table(["id", "created"], [row])];
    var cutoff := Midnight(CivilDate(2020, 1, 1));
    assert ColumnIndex(["id", "created"], "created") == 1;
    assert Eligible(row, 1, cutoff);
    assert Queryable(tables, "events", "created");
    FilterOne(row, 1, cutoff);
  }

  /** A single eligible row is extracted and deleted. */
  lemma FilterOne(row: Row, i: nat, cutoff: Moment)
    requires Eligible(row, i, cutoff)
    ensures Filter([row], i, cutoff, true) == [row]
    ensures Filter([row], i, cutoff, false) == []
  {
    assert [row][1..] == [];
  }
}
