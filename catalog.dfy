/** get_table_list (lambda_function.py:15-32): the catalog of tables to archive, read from a
    text object of `table;column` lines. */
module Catalog {
  import opened Wrappers
  import opened Text

  /** One catalog entry: a table and the column that dates its rows. */
  datatype TableSpec = TableSpec(table: string, column: string)

  /** A Python dict from table name to date column, in insertion order. */
  type Catalog = seq<TableSpec>

  function Names(c: Catalog): (r: set<string>)
    ensures r == {} <==> c == []
  {
    if c == [] then {} else {c[0].table} + Names(c[1..])
  }

  predicate UniqueNames(c: Catalog) {
    c == [] || (c[0].table !in Names(c[1..]) && UniqueNames(c[1..]))
  }

  /** dict.get(table). */
  function Lookup(c: Catalog, table: string): (r: Option<string>)
    ensures r.Some? <==> table in Names(c)
  {
    if c == [] then None
    else if c[0].table == table then Some(c[0].column)
    else Lookup(c[1..], table)
  }

  /** dict[table] = column: a new name goes last, an existing name keeps its place and takes the
      new column. */
  function Put(c: Catalog, table: string, column: string): (r: Catalog)
    ensures Names(r) == Names(c) + {table}
    ensures UniqueNames(c) ==> UniqueNames(r)
    ensures Lookup(r, table) == Some(column)
    ensures forall t :: t != table ==> Lookup(r, t) == Lookup(c, t)
  {
    if c == [] then [TableSpec(table, column)]
    else if c[0].table == table then [TableSpec(table, column)] + c[1..]
    else [c[0]] + Put(c[1..], table, column)
  }

  /** A table not yet in the dict is appended at the end. */
  lemma {:induction false} PutNew(c: Catalog, table: string, column: string)
    requires table !in Names(c)
    ensures Put(c, table, column) == c + [TableSpec(table, column)]
  {
    if c != [] {
      PutNew(c[1..], table, column);
      assert c == [c[0]] + c[1..];
    }
  }

  /** str() of the ValueError raised by `table, column = row.split(";")`. */
  const NOT_ENOUGH_VALUES := "not enough values to unpack (expected 2, got 1)"
  const TOO_MANY_VALUES := "too many values to unpack (expected 2)"

  /** `table, column = row.split(";")` and `column.strip()`: a row with exactly one ';' gives the
      text before it, unstripped, and the text after it, stripped; any other row raises. */
  function ParseLine(row: string): (r: Result<TableSpec>)
    ensures r.Ok? <==> Count(row, ';') == 1
    ensures r.Ok? ==> && ';' !in r.value.table
                      && |r.value.table| < |row|
                      && row[..|r.value.table| + 1] == r.value.table + [';']
                      && r.value.column == Strip(row[|r.value.table| + 1..])
    ensures Count(row, ';') == 0 ==> r == Err(NOT_ENOUGH_VALUES)
    ensures Count(row, ';') >= 2 ==> r == Err(TOO_MANY_VALUES)
  {
    var parts := Split(row, ';');
    if |parts| < 2 then Err(NOT_ENOUGH_VALUES)
    else if |parts| > 2 then Err(TOO_MANY_VALUES)
    else
      JoinSplit(row, ';');
      assert row == parts[0] + [';'] + parts[1];
      assert row[|parts[0]| + 1..] == parts[1];
      Ok(TableSpec(parts[0], Strip(parts[1])))
  }

  /** A non-empty line that does not hold exactly one ';'. */
  predicate Malformed(row: string) {
    row != [] && Count(row, ';') != 1
  }

  /** Some line of the object is malformed. */
  predicate AnyMalformed(lines: seq<string>) {
    exists k :: 0 <= k < |lines| && Malformed(lines[k])
  }

  /** The loop body of get_table_list for one line: empty lines are skipped (a line of spaces
      is not empty). */
  function AddLine(c: Catalog, row: string): Result<Catalog> {
    if row == [] then Ok(c)
    else
      match ParseLine(row)
      case Err(e) => Err(e)
      case Ok(spec) => Ok(Put(c, spec.table, spec.column))
  }

  /** The dict after the loop has run over `lines`, or the error the first malformed line raises. */
  function ParseLines(lines: seq<string>): Result<Catalog>
    decreases |lines|
  {
    if lines == [] then Ok([])
    else
      match ParseLines(lines[..|lines| - 1])
      case Err(e) => Err(e)
      case Ok(c) => AddLine(c, lines[|lines| - 1])
  }

  /** get_table_list, given what reading the catalog object returned (None when get_object
      raised): {} for a missing or blank object, otherwise the dict built line by line. */
  function TableList(fetched: Option<string>): Result<Catalog> {
    match fetched
    case None => Ok([])
    case Some(text) => if Strip(text) == [] then Ok([]) else ParseLines(Split(text, '\n'))
  }

  /** One more line: the loop body applied to the dict built so far. */
  lemma ParseStep(lines: seq<string>, i: nat)
    requires i < |lines|
    ensures ParseLines(lines[..i + 1]) ==
              match ParseLines(lines[..i])
              case Err(e) => Err(e)
              case Ok(c) => AddLine(c, lines[i])
  {
    assert lines[..i + 1][..i] == lines[..i];
  }

  /** Once a prefix of the lines has raised, the rest of the lines are never read. */
  lemma {:induction false} ErrorStops(lines: seq<string>, k: nat)
    requires k <= |lines| && ParseLines(lines[..k]).Err?
    ensures ParseLines(lines) == ParseLines(lines[..k])
    decreases |lines|
  {
    if k < |lines| {
      var init := lines[..|lines| - 1];
      assert init[..k] == lines[..k];
      ErrorStops(init, k);
    } else {
      assert lines[..k] == lines;
    }
  }

  /** get_table_list's loop over the lines of the object. */
  method ParseAll(lines: seq<string>) returns (r: Result<Catalog>)
    ensures r == ParseLines(lines)
  {
    var tables: Catalog := [];
    var i := 0;
    while i < |lines|
      invariant 0 <= i <= |lines|
      invariant ParseLines(lines[..i]) == Ok(tables)
    {
      var row := lines[i];
      ParseStep(lines, i);
      if row != [] {
        var parsed := ParseLine(row);
        if parsed.Err? {
          ErrorStops(lines, i + 1);
          return Err(parsed.error);
        }
        tables := Put(tables, parsed.value.table, parsed.value.column);
      }
      i := i + 1;
    }
    assert lines[..i] == lines;
    r := Ok(tables);
  }

  /** get_table_list. */
  method GetTableList(fetched: Option<string>) returns (r: Result<Catalog>)
    ensures r == TableList(fetched)
  {
    if fetched.None? {
      return Ok([]);
    }
    var text := fetched.value;
    if Strip(text) == [] {
      return Ok([]);
    }
    r := ParseAll(Split(text, '\n'));
  }

  /** The reference reading of the catalog: the column of the LAST non-empty line that names
      the table. */
  function LastColumn(lines: seq<string>, table: string): Option<string> {
    if lines == [] then None
    else
      var row := lines[|lines| - 1];
      if row != [] && ParseLine(row).Ok? && ParseLine(row).value.table == table
      then Some(ParseLine(row).value.column)
      else LastColumn(lines[..|lines| - 1], table)
  }

  /** A successful parse holds each table once, with the column of the last line naming it. */
  lemma {:induction false} ParsedCatalog(lines: seq<string>, c: Catalog)
    requires ParseLines(lines) == Ok(c)
    ensures UniqueNames(c)
    ensures forall t :: Lookup(c, t) == LastColumn(lines, t)
    decreases |lines|
  {
    if lines != [] {
      var init := lines[..|lines| - 1];
      var c0 := ParseLines(init).value;
      ParsedCatalog(init, c0);
    }
  }

  /** The loop body raises exactly on a malformed line. */
  lemma AddLineFails(c: Catalog, row: string)
    ensures AddLine(c, row).Err? <==> Malformed(row)
  {
  }

  /** Some line is malformed exactly when one before the last is or the last one is. */
  lemma AnyMalformedLast(lines: seq<string>)
    requires lines != []
    ensures AnyMalformed(lines) <==>
              AnyMalformed(lines[..|lines| - 1]) || Malformed(lines[|lines| - 1])
  {
    var init := lines[..|lines| - 1];
    if AnyMalformed(init) {
      var k :| 0 <= k < |init| && Malformed(init[k]);
      assert lines[k] == init[k];
    }
    if AnyMalformed(lines) {
      var k :| 0 <= k < |lines| && Malformed(lines[k]);
      if k < |init| {
        assert init[k] == lines[k];
      }
    }
  }

  /** Parsing fails exactly when some non-empty line is malformed. */
  lemma {:induction false} ParseFailsIff(lines: seq<string>)
    ensures ParseLines(lines).Err? <==> AnyMalformed(lines)
    decreases |lines|
  {
    if lines != [] {
      var init := lines[..|lines| - 1];
      ParseFailsIff(init);
      AnyMalformedLast(lines);
      if ParseLines(init).Ok? {
        AddLineFails(ParseLines(init).value, lines[|lines| - 1]);
      }
    }
  }

  /** Lines that are all empty join into a string of newlines only. */
  lemma {:induction false} EmptyLinesAreBlank(lines: seq<string>)
    requires forall k :: 0 <= k < |lines| ==> lines[k] == []
    ensures AllSpace(Join(lines, '\n'))
  {
    if |lines| > 1 {
      EmptyLinesAreBlank(lines[1..]);
      assert Join(lines, '\n') == [] + ['\n'] + Join(lines[1..], '\n');
    }
  }

  /** A parse that names no table came from lines that are all empty. */
  lemma {:induction false} EmptyParse(lines: seq<string>)
    requires ParseLines(lines) == Ok([])
    ensures forall k :: 0 <= k < |lines| ==> lines[k] == []
    decreases |lines|
  {
    if lines != [] {
      var n := |lines| - 1;
      var init := lines[..n];
      ParseStep(lines, n);
      assert lines[..n + 1] == lines;
      var c0 := ParseLines(init).value;
      assert AddLine(c0, lines[n]) == Ok([]);
      assert lines[n] == [] && c0 == [];
      EmptyParse(init);
      forall k | 0 <= k < |lines|
        ensures lines[k] == []
      {
        if k < n {
          assert lines[k] == init[k];
        }
      }
    }
  }

  /** The catalog is empty, and the run will stop with NoConfigException, exactly when the
      object could not be read or is blank. */
  lemma EmptyCatalogIff(fetched: Option<string>)
    ensures TableList(fetched) == Ok([]) <==> fetched.None? || AllSpace(fetched.value)
  {
    if fetched.Some? && !AllSpace(fetched.value) && TableList(fetched) == Ok([]) {
      var lines := Split(fetched.value, '\n');
      EmptyParse(lines);
      EmptyLinesAreBlank(lines);
      JoinSplit(fetched.value, '\n');
    }
  }

  /** get_table_list fails exactly when the object is not blank and some non-empty line does
      not hold exactly one ';'. */
  lemma TableListFailsIff(text: string)
    ensures TableList(Some(text)).Err? <==> !AllSpace(text) && AnyMalformed(Split(text, '\n'))
  {
    ParseFailsIff(Split(text, '\n'));
  }

  /** A well-formed line: the table, ';', and a column with no surrounding whitespace. */
  lemma ParseWellFormed(table: string, column: string)
    requires ';' !in table && ';' !in column
    requires column != [] && !IsSpace(column[0]) && !IsSpace(column[|column| - 1])
    ensures ParseLine(table + ";" + column) == Ok(TableSpec(table, column))
  {
    assert table + ";" + column == table + ([';'] + column);
    SplitAround(table, column, ';');
    SplitFree(table, ';');
    SplitFree(column, ';');
    StripTrimmed(column);
  }

  /** An object that is not blank is parsed line by line. */
  lemma TableListOfText(text: string)
    requires !AllSpace(text)
    ensures TableList(Some(text)) == ParseLines(Split(text, '\n'))
  {
  }

  /** A two-line object splits into its two lines and is not blank. */
  lemma TwoLines(t1: string, c1: string, t2: string, c2: string)
    requires '\n' !in t1 && '\n' !in t2 && '\n' !in c1 && '\n' !in c2
    requires c1 != [] && !IsSpace(c1[0])
    ensures Split(t1 + ";" + c1 + "\n" + t2 + ";" + c2, '\n') == [t1 + ";" + c1, t2 + ";" + c2]
    ensures !AllSpace(t1 + ";" + c1 + "\n" + t2 + ";" + c2)
  {
    var a, b := t1 + ";" + c1, t2 + ";" + c2;
    var text := t1 + ";" + c1 + "\n" + t2 + ";" + c2;
    assert text == a + (['\n'] + b);
    assert '\n' !in a && '\n' !in b;
    SplitAround(a, b, '\n');
    SplitFree(a, '\n');
    SplitFree(b, '\n');
    assert text[|t1| + 1] == c1[0];
  }

  /** Two lines: the second line is added to what the first one gave. */
  lemma ParseTwoLines(a: string, b: string)
    ensures ParseLines([a, b]) ==
              match ParseLines([a])
              case Err(e) => Err(e)
              case Ok(c) => AddLine(c, b)
    ensures ParseLines([a]) == AddLine([], a)
  {
    assert [a, b][..1] == [a];
    assert [a][..0] == [];
  }

  /** Two different tables put into an empty dict come out in the order they were put. */
  lemma PutTwo(first: TableSpec, second: TableSpec)
    requires first.table != second.table
    ensures Put(Put([], first.table, first.column), second.table, second.column) == [first, second]
  {
    PutNew([first], second.table, second.column);
  }

  /** Two lines that parse and name different tables give those two tables, in order. */
  lemma TwoRows(a: string, b: string, first: TableSpec, second: TableSpec)
    requires a != [] && b != [] && ParseLine(a) == Ok(first) && ParseLine(b) == Ok(second)
    requires first.table != second.table
    ensures ParseLines([a, b]) == Ok([first, second])
  {
    ParseTwoLines(a, b);
    PutTwo(first, second);
  }

  /** A catalog object of two well-formed lines naming different tables gives those two
      tables, in order. */
  lemma TwoTables(t1: string, c1: string, t2: string, c2: string)
    requires ';' !in t1 && '\n' !in t1 && ';' !in t2 && '\n' !in t2 && t1 != t2
    requires ';' !in c1 && '\n' !in c1 && c1 != [] && !IsSpace(c1[0]) && !IsSpace(c1[|c1| - 1])
    requires ';' !in c2 && '\n' !in c2 && c2 != [] && !IsSpace(c2[0]) && !IsSpace(c2[|c2| - 1])
    ensures TableList(Some(t1 + ";" + c1 + "\n" + t2 + ";" + c2)) ==
              Ok([TableSpec(t1, c1), TableSpec(t2, c2)])
  {
    var a, b := t1 + ";" + c1, t2 + ";" + c2;
    TwoLines(t1, c1, t2, c2);
    TableListOfText(t1 + ";" + c1 + "\n" + t2 + ";" + c2);
    ParseWellFormed(t1, c1);
    ParseWellFormed(t2, c2);
    TwoRows(a, b, TableSpec(t1, c1), TableSpec(t2, c2));
  }

  /** The blank objects of the repository's test give an empty catalog. */
  lemma BlankExamples()
    ensures TableList(Some("")) == Ok([])
    ensures TableList(Some("\n")) == Ok([])
    ensures TableList(Some("\n\n")) == Ok([])
    ensures TableList(Some(" ")) == Ok([])
    ensures TableList(None) == Ok([])
  {
    EmptyCatalogIff(Some("\n\n"));
  }
}
