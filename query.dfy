/** The `SELECT` and `COUNT(*)` commands of src/main.rs: `read_columns`
    (198-245) and `count_rows_in_table` (282-299).

    The query text is not parsed here: a `Query` is what the source's
    regular expressions take out of it, the selected column names, the
    table name and an optional `WHERE column = value` pair.  Each printed
    line is one element of the result.
 */
module Queries {
  import opened Bytes
  import opened Failures
  import opened Strings
  import opened Record
  import opened Schemas
  import Header
  import opened Pages
  import opened Columns
  import opened Catalog

  /** The descriptor `read_column_and_table` returns.  Its strings follow the
      convention of `Strings.Chars`, one character per byte of their UTF-8
      text, so that a table name or a `WHERE` literal compares with the text
      stored in the file byte by byte. */
  datatype Query = Query(columns: seq<string>, table: string, filter: Option<(string, string)>)

  /** `schemas.iter().find(|schema| schema.table_name == table).unwrap()`:
      the first catalog entry for the table. */
  function FindTable(schemas: seq<Schema>, table: string): (r: Result<Schema>)
    ensures r.Err? <==> forall i :: 0 <= i < |schemas| ==> schemas[i].tableName != table
    ensures r.Err? ==> r.error == UnknownTable
    ensures r.Ok? ==> r.value.tableName == table
    ensures r.Ok? ==> exists i :: 0 <= i < |schemas| && schemas[i] == r.value && FirstFor(schemas, table, i)
    decreases |schemas|
  {
    if schemas == [] then Err(UnknownTable)
    else if schemas[0].tableName == table then
      assert FirstFor(schemas, table, 0);
      Ok(schemas[0])
    else
      var r := FindTable(schemas[1..], table);
      if r.Ok? then
        var i :| 0 <= i < |schemas| - 1 && schemas[1..][i] == r.value && FirstFor(schemas[1..], table, i);
        assert FirstFor(schemas, table, i + 1);
        r
      else r
  }

  /** Entry i is the first one for `table`. */
  predicate FirstFor(schemas: seq<Schema>, table: string, i: nat) {
    i < |schemas| && schemas[i].tableName == table &&
    forall j :: 0 <= j < i ==> schemas[j].tableName != table
  }

  // ---------------------------------------------------------------------
  // One row

  /** The text printed for one selected column: the rowid for "id",
      otherwise the column's value; a column the table does not declare
      is an `unwrap` of `None`, and a position past the record's values an
      index out of bounds. */
  function Field(column: string, positions: map<string, nat>, row: Row): Result<string> {
    if column == "id" then Ok(Decimal(row.rowid))
    else if column !in positions then Err(UnknownColumn)
    else if positions[column] >= |row.values| then Err(OutOfBounds)
    else Ok(Display(row.values[positions[column]]))
  }

  /** The `output` the inner loop builds: each selected column's text
      followed by '|', or the first failing column's error. */
  function Fields(columns: seq<string>, positions: map<string, nat>, row: Row): (r: Result<string>)
    decreases |columns|
  {
    if columns == [] then Ok("")
    else
      var init :- Fields(columns[..|columns| - 1], positions, row);
      var field :- Field(columns[|columns| - 1], positions, row);
      Ok(init + field + "|")
  }

  /** Whether the `WHERE` clause keeps the row: its column's value, read as
      `read_string`, must equal the literal.  `read_string` is taken to be the
      value's `Display` text. */
  function Keeps(filter: Option<(string, string)>, positions: map<string, nat>, row: Row): Result<bool> {
    match filter
    case None => Ok(true)
    case Some((column, literal)) =>
      if column !in positions then Err(UnknownColumn)
      else if positions[column] >= |row.values| then Err(OutOfBounds)
      else Ok(Display(row.values[positions[column]]) == literal)
  }

  /** The characters `trim_end_matches` removes from a line. */
  const Bar: set<char> := {'|'}

  /** The line printed for one row, or `None` when the filter drops it. */
  function Line(query: Query, positions: map<string, nat>, row: Row): (r: Result<Option<string>>)
    ensures r.Ok? && r.value.Some? ==> EndsClean(r.value.value)
  {
    var keep :- Keeps(query.filter, positions, row);
    if !keep then Ok(None)
    else
      var text :- Fields(query.columns, positions, row);
      Ok(Some(TrimEnd(text, Bar)))
  }

  /** A printed line never ends in '|'. */
  predicate EndsClean(line: string) {
    line == [] || line[|line| - 1] != '|'
  }

  /** The lines printed for `rows`, in order, or the error of the first row
      that fails. */
  function Lines(query: Query, positions: map<string, nat>, rows: seq<Row>): (r: Result<seq<string>>)
    ensures r.Ok? ==> |r.value| <= |rows|
    ensures r.Ok? ==> forall i :: 0 <= i < |r.value| ==> EndsClean(r.value[i])
    decreases |rows|
  {
    if rows == [] then Ok([])
    else
      var init :- Lines(query, positions, rows[..|rows| - 1]);
      var line :- Line(query, positions, rows[|rows| - 1]);
      Ok(init + (if line.Some? then [line.value] else []))
  }

  /** What `read_columns` prints: the lines of the rows of the table's
      B-tree, each record decoded into as many columns as the column map
      has entries.  The walk is bounded by the size of the file. */
  function Select(db: seq<Byte>, header: DbHeader, query: Query): (r: Result<seq<string>>)
    ensures FindTable(header.schemas, query.table).Err? ==> r == Err(UnknownTable)
    ensures r.Ok? ==> forall i :: 0 <= i < |r.value| ==> EndsClean(r.value[i])
  {
    var schema :- FindTable(header.schemas, query.table);
    var positions := FindColumnPositions(schema.sql);
    var rows :- SubtreeRows(db, header.pageSize, |positions|, schema.rootPage, |db|);
    Lines(query, positions, rows)
  }

  // ---------------------------------------------------------------------
  // `read_columns`

  /** `read_columns`: the loop over the rows, which skips the rows the filter
      drops and builds each line column by column. */
  method ReadColumns(db: seq<Byte>, header: DbHeader, query: Query) returns (r: Result<seq<string>>)
    ensures r == Select(db, header, query)
  {
    var found := FindTable(header.schemas, query.table);
    if found.Err? {
      return Err(found.error);
    }
    var schema := found.value;
    var positions := FindColumnPositions(schema.sql);
    var walked := SubtreeRows(db, header.pageSize, |positions|, schema.rootPage, |db|);
    if walked.Err? {
      return Err(walked.error);
    }
    r := PrintLines(query, positions, walked.value);
  }

  /** The loop over the rows of `read_columns`. */
  method PrintLines(query: Query, positions: map<string, nat>, rows: seq<Row>) returns (r: Result<seq<string>>)
    ensures r == Lines(query, positions, rows)
  {
    var out: seq<string> := [];
    var i := 0;
    while i < |rows|
      invariant 0 <= i <= |rows|
      invariant Lines(query, positions, rows[..i]) == Ok(out)
    {
      var line := PrintRow(query, positions, rows[i]);
      LinesNext(query, positions, rows, i, out, line);
      if line.Err? {
        LinesStop(query, positions, rows, i + 1);
        return Err(line.error);
      }
      if line.value.Some? {
        out := out + [line.value.value];
      }
      i := i + 1;
    }
    assert rows[..i] == rows;
    return Ok(out);
  }

  /** One turn of the loop over the rows: the lines of the first i + 1 rows
      are those of the first i, then row i's own, or row i's failure. */
  lemma LinesNext(query: Query, positions: map<string, nat>, rows: seq<Row>, i: nat, out: seq<string>,
                  line: Result<Option<string>>)
    requires i < |rows| && Lines(query, positions, rows[..i]) == Ok(out)
    requires line == Line(query, positions, rows[i])
    ensures line.Err? ==> Lines(query, positions, rows[..i + 1]) == Err(line.error)
    ensures line.Ok? && line.value.None? ==> Lines(query, positions, rows[..i + 1]) == Ok(out)
    ensures line.Ok? && line.value.Some? ==> Lines(query, positions, rows[..i + 1]) == Ok(out + [line.value.value])
  {
    assert rows[..i + 1] == rows[..i] + [rows[i]];
    LinesSnoc(query, positions, rows[..i], rows[i]);
    assert out + [] == out;
  }

  /** The body of the loop over the rows: the filter, then the line. */
  method PrintRow(query: Query, positions: map<string, nat>, row: Row) returns (r: Result<Option<string>>)
    ensures r == Line(query, positions, row)
  {
    if query.filter.Some? {
      var (column, literal) := query.filter.value;
      if column !in positions {
        return Err(UnknownColumn);
      }
      var colidx := positions[column];
      if colidx >= |row.values| {
        return Err(OutOfBounds);
      }
      if Display(row.values[colidx]) != literal {
        return Ok(None);
      }
    }
    var output := BuildOutput(query.columns, positions, row);
    if output.Err? {
      return Err(output.error);
    }
    return Ok(Some(TrimEnd(output.value, Bar)));
  }

  /** The inner loop of `read_columns`: the selected columns' texts, each
      followed by '|'. */
  method BuildOutput(columns: seq<string>, positions: map<string, nat>, row: Row) returns (r: Result<string>)
    ensures r == Fields(columns, positions, row)
  {
    var output := "";
    var j := 0;
    while j < |columns|
      invariant 0 <= j <= |columns|
      invariant Fields(columns[..j], positions, row) == Ok(output)
    {
      var column := columns[j];
      assert columns[..j + 1][..j] == columns[..j];
      if column == "id" {
        output := output + Decimal(row.rowid);
      } else {
        if column !in positions {
          FieldsStop(columns, positions, row, j + 1);
          return Err(UnknownColumn);
        }
        var cpos := positions[column];
        if cpos >= |row.values| {
          FieldsStop(columns, positions, row, j + 1);
          return Err(OutOfBounds);
        }
        output := output + Display(row.values[cpos]);
      }
      output := output + "|";
      j := j + 1;
    }
    assert columns[..j] == columns;
    return Ok(output);
  }

  /** A failure among the first k rows ends the run with that failure. */
  lemma {:induction false} LinesStop(query: Query, positions: map<string, nat>, rows: seq<Row>, k: nat)
    requires k <= |rows| && Lines(query, positions, rows[..k]).Err?
    ensures Lines(query, positions, rows) == Lines(query, positions, rows[..k])
    decreases |rows| - k
  {
    if k < |rows| {
      var init := rows[..|rows| - 1];
      assert init[..k] == rows[..k];
      LinesStop(query, positions, init, k);
    } else {
      assert rows[..k] == rows;
    }
  }

  /** A failure among the first k columns ends the line with that failure. */
  lemma {:induction false} FieldsStop(columns: seq<string>, positions: map<string, nat>, row: Row, k: nat)
    requires k <= |columns| && Fields(columns[..k], positions, row).Err?
    ensures Fields(columns, positions, row) == Fields(columns[..k], positions, row)
    decreases |columns| - k
  {
    if k < |columns| {
      var init := columns[..|columns| - 1];
      assert init[..k] == columns[..k];
      FieldsStop(init, positions, row, k);
    } else {
      assert columns[..k] == columns;
    }
  }

  // ---------------------------------------------------------------------
  // What the lines are

  /** Without a filter every row prints a line. */
  lemma {:induction false} EveryRowPrinted(query: Query, positions: map<string, nat>, rows: seq<Row>)
    requires query.filter.None?
    ensures Lines(query, positions, rows).Ok? ==> |Lines(query, positions, rows).value| == |rows|
    decreases |rows|
  {
    if rows != [] {
      EveryRowPrinted(query, positions, rows[..|rows| - 1]);
    }
  }

  /** The rows whose value at position `index` reads as `literal`, in order. */
  function Matching(rows: seq<Row>, index: nat, literal: string): (r: seq<Row>)
    requires forall i :: 0 <= i < |rows| ==> index < |rows[i].values|
    ensures |r| <= |rows|
    ensures forall i :: 0 <= i < |r| ==> index < |r[i].values|
    decreases |rows|
  {
    if rows == [] then []
    else
      var last := rows[|rows| - 1];
      Matching(rows[..|rows| - 1], index, literal) +
        (if Display(last.values[index]) == literal then [last] else [])
  }

  /** A row is among the matching rows exactly when it is one of the rows and
      its value reads as the literal. */
  lemma {:induction false} MatchingMembers(rows: seq<Row>, index: nat, literal: string, row: Row)
    requires forall i :: 0 <= i < |rows| ==> index < |rows[i].values|
    ensures row in Matching(rows, index, literal) <==>
      row in rows && Display(row.values[index]) == literal
    decreases |rows|
  {
    if rows != [] {
      var init := rows[..|rows| - 1];
      MatchingMembers(init, index, literal, row);
      assert rows == init + [rows[|rows| - 1]];
    }
  }

  /** Filtering while printing is filtering first and then printing every
      row: the `WHERE` clause keeps exactly the rows whose column reads as
      the literal, and the lines are theirs, in order. */
  lemma {:induction false} FilterThenPrint(query: Query, positions: map<string, nat>, rows: seq<Row>)
    requires query.filter.Some? && query.filter.value.0 in positions
    requires forall i :: 0 <= i < |rows| ==> positions[query.filter.value.0] < |rows[i].values|
    ensures Lines(query, positions, rows) ==
      Lines(query.(filter := None), positions, Matching(rows, positions[query.filter.value.0], query.filter.value.1))
    decreases |rows|
  {
    var index, literal := positions[query.filter.value.0], query.filter.value.1;
    if rows != [] {
      var init := rows[..|rows| - 1];
      var last := rows[|rows| - 1];
      assert rows == init + [last];
      FilterThenPrint(query, positions, init);
      assert Matching(rows, index, literal) ==
        Matching(init, index, literal) + (if Display(last.values[index]) == literal then [last] else []);
      var column := query.filter.value.0;
      if Display(last.values[index]) == literal {
        FilterKeeps(query, positions, init, last, column, index, literal);
      } else {
        assert Matching(rows, index, literal) == Matching(init, index, literal);
        FilterDrops(query, positions, init, last, column, index, literal);
      }
    }
  }

  /** A row the filter keeps adds its line on both sides. */
  lemma FilterKeeps(query: Query, positions: map<string, nat>, init: seq<Row>, last: Row,
                    column: string, index: nat, literal: string)
    requires query.filter == Some((column, literal)) && column in positions
    requires index == positions[column] && index < |last.values|
    requires forall i :: 0 <= i < |init| ==> index < |init[i].values|
    requires Display(last.values[index]) == literal
    requires Lines(query, positions, init) == Lines(query.(filter := None), positions, Matching(init, index, literal))
    ensures Lines(query, positions, init + [last]) ==
      Lines(query.(filter := None), positions, Matching(init, index, literal) + [last])
  {
    var all := query.(filter := None);
    LinesSnoc(query, positions, init, last);
    LinesSnoc(all, positions, Matching(init, index, literal), last);
    assert Line(query, positions, last) == Line(all, positions, last);
  }

  /** A row the filter drops adds nothing. */
  lemma FilterDrops(query: Query, positions: map<string, nat>, init: seq<Row>, last: Row,
                    column: string, index: nat, literal: string)
    requires query.filter == Some((column, literal)) && column in positions
    requires index == positions[column] && index < |last.values|
    requires Display(last.values[index]) != literal
    ensures Lines(query, positions, init + [last]) == Lines(query, positions, init)
  {
    LinesSnoc(query, positions, init, last);
    assert Line(query, positions, last) == Ok(None);
    if Lines(query, positions, init).Ok? {
      var v := Lines(query, positions, init).value;
      assert v + [] == v;
    }
  }

  /** The lines of one more row: those of the rows before it, then its own. */
  lemma LinesSnoc(query: Query, positions: map<string, nat>, init: seq<Row>, last: Row)
    ensures var before := Lines(query, positions, init);
      var line := Line(query, positions, last);
      Lines(query, positions, init + [last]) ==
        if before.Err? then before
        else if line.Err? then Err(line.error)
        else Ok(before.value + (if line.value.Some? then [line.value.value] else []))
  {
    var rows := init + [last];
    assert rows[..|rows| - 1] == init;
  }

  /** Every row prints a line when every selected column is "id" or
      declared, the filter's column is declared, and no declared position
      lies past the rows' values. */
  lemma {:induction false} LinesSucceed(query: Query, positions: map<string, nat>, rows: seq<Row>, width: nat)
    requires forall c :: c in query.columns ==> c == "id" || c in positions
    requires query.filter.Some? ==> query.filter.value.0 in positions
    requires forall k :: k in positions ==> positions[k] < width
    requires HasWidth(rows, width)
    ensures Lines(query, positions, rows).Ok?
    decreases |rows|
  {
    if rows != [] {
      var init := rows[..|rows| - 1];
      assert HasWidth(init, width);
      LinesSucceed(query, positions, init, width);
      FieldsSucceed(query.columns, positions, rows[|rows| - 1]);
    }
  }

  lemma {:induction false} FieldsSucceed(columns: seq<string>, positions: map<string, nat>, row: Row)
    requires forall c :: c in columns ==> c == "id" || (c in positions && positions[c] < |row.values|)
    ensures Fields(columns, positions, row).Ok?
    decreases |columns|
  {
    if columns != [] {
      var init := columns[..|columns| - 1];
      assert forall c :: c in init ==> c in columns;
      FieldsSucceed(init, positions, row);
      assert columns[|columns| - 1] in columns;
    }
  }

  /** For a table whose `CREATE TABLE` text declares each name once, a query
      naming only "id" and declared columns fails only where the catalog
      lookup or the walk fails: no record is ever read past its values. */
  lemma SelectSucceeds(db: seq<Byte>, header: DbHeader, query: Query)
    requires FindTable(header.schemas, query.table).Ok?
    requires var sql := FindTable(header.schemas, query.table).value.sql;
      Distinct(ColumnNames(sql)) &&
      (forall c :: c in query.columns ==> c == "id" || c in ColumnNames(sql)) &&
      (query.filter.Some? ==> query.filter.value.0 in ColumnNames(sql))
    ensures var schema := FindTable(header.schemas, query.table).value;
      Select(db, header, query).Ok? <==>
        SubtreeRows(db, header.pageSize, |FindColumnPositions(schema.sql)|, schema.rootPage, |db|).Ok?
  {
    var schema := FindTable(header.schemas, query.table).value;
    var positions := FindColumnPositions(schema.sql);
    DistinctPositions(ColumnNames(schema.sql));
    var walked := SubtreeRows(db, header.pageSize, |positions|, schema.rootPage, |db|);
    if walked.Ok? {
      LinesSucceed(query, positions, walked.value, |positions|);
    }
  }

  /** The texts of the selected columns, when none of them fails. */
  function Texts(columns: seq<string>, positions: map<string, nat>, row: Row): (r: seq<string>)
    requires forall i :: 0 <= i < |columns| ==> Field(columns[i], positions, row).Ok?
    ensures |r| == |columns|
    ensures forall i :: 0 <= i < |columns| ==> r[i] == Field(columns[i], positions, row).value
  {
    seq(|columns|, i requires 0 <= i < |columns| => Field(columns[i], positions, row).value)
  }

  /** The line of a kept row is its column texts joined with '|', when the
      last of them is not empty and does not itself end in '|'. */
  lemma LineJoins(query: Query, positions: map<string, nat>, row: Row)
    requires Keeps(query.filter, positions, row) == Ok(true) && |query.columns| >= 1
    requires forall i :: 0 <= i < |query.columns| ==> Field(query.columns[i], positions, row).Ok?
    requires var last := Field(query.columns[|query.columns| - 1], positions, row).value;
      last != [] && last[|last| - 1] != '|'
    ensures Line(query, positions, row) == Ok(Some(Join(Texts(query.columns, positions, row), '|')))
  {
    var texts := Texts(query.columns, positions, row);
    FieldsJoin(query.columns, positions, row);
    DropFinalBar(Join(texts, '|'), texts);
  }

  /** With every column's text present, the built output is the texts
      joined with '|', and one '|' more. */
  lemma {:induction false} FieldsJoin(columns: seq<string>, positions: map<string, nat>, row: Row)
    requires |columns| >= 1
    requires forall i :: 0 <= i < |columns| ==> Field(columns[i], positions, row).Ok?
    ensures Fields(columns, positions, row) == Ok(Join(Texts(columns, positions, row), '|') + "|")
    decreases |columns|
  {
    var texts := Texts(columns, positions, row);
    var init := columns[..|columns| - 1];
    if |columns| == 1 {
      assert Fields(init, positions, row) == Ok("");
      assert texts == [texts[0]];
      assert "" + texts[0] == texts[0];
    } else {
      FieldsJoin(init, positions, row);
      var initTexts := Texts(init, positions, row);
      assert initTexts == texts[..|texts| - 1];
      JoinSnoc(initTexts, texts[|texts| - 1], '|');
      assert initTexts + [texts[|texts| - 1]] == texts;
    }
  }

  /** Joining one more piece puts a separator before it. */
  lemma {:induction false} JoinSnoc(parts: seq<string>, last: string, c: char)
    requires |parts| >= 1
    ensures Join(parts + [last], c) == Join(parts, c) + [c] + last
    decreases |parts|
  {
    if |parts| > 1 {
      assert (parts + [last])[1..] == parts[1..] + [last];
      JoinSnoc(parts[1..], last, c);
    }
  }

  /** Trimming the '|' after a text that does not end in '|' gives the text. */
  lemma DropFinalBar(text: string, texts: seq<string>)
    requires |texts| >= 1 && text == Join(texts, '|')
    requires var last := texts[|texts| - 1]; last != [] && last[|last| - 1] != '|'
    ensures TrimEnd(text + "|", Bar) == text
  {
    JoinEnds(texts, '|');
    var s := text + "|";
    assert s[..|s| - 1] == text;
  }

  /** A join ends with the end of its last piece. */
  lemma {:induction false} JoinEnds(parts: seq<string>, c: char)
    requires |parts| >= 1 && parts[|parts| - 1] != []
    ensures var j := Join(parts, c); var last := parts[|parts| - 1];
      |j| >= |last| && j[|j| - 1] == last[|last| - 1]
    decreases |parts|
  {
    if |parts| > 1 {
      JoinEnds(parts[1..], c);
    }
  }

  // ---------------------------------------------------------------------
  // `count_rows_in_table`

  /** `count_rows_in_table`: the `number_of_cells` of the table's root page,
      whose header is parsed from an 8-byte window. */
  function CountRowsInTable(db: seq<Byte>, header: DbHeader, table: string): (r: Result<Uint16>)
    ensures FindTable(header.schemas, table).Err? ==> r == Err(UnknownTable)
    ensures FindTable(header.schemas, table).Ok? && FindTable(header.schemas, table).value.rootPage == 0 ==>
      r == Err(PageNumberZero)
  {
    var schema :- FindTable(header.schemas, table);
    var offset :- PageOffset(header.pageSize, schema.rootPage);
    if offset + 8 > |db| then Err(OutOfBounds)
    else
      var window := db[offset..offset + 8];
      if !Header.Readable(window) then Err(OutOfBounds)
      else
        var parsed :- Header.Parse(window);
        Ok(parsed.1.numberOfCells)
  }

  /** What the count is: for a leaf root page, its `number_of_cells`; an
      interior root page's 12-byte header does not fit the window; any
      other tag is rejected. */
  lemma CountMeaning(db: seq<Byte>, header: DbHeader, table: string)
    requires FindTable(header.schemas, table).Ok?
    requires var schema := FindTable(header.schemas, table).value;
      schema.rootPage > 0 && PageOffset(header.pageSize, schema.rootPage).value + 8 <= |db|
    ensures var offset := PageOffset(header.pageSize, FindTable(header.schemas, table).value.rootPage).value;
      var r := CountRowsInTable(db, header, table);
      (db[offset] == 10 || db[offset] == 13 ==> r == Ok(U16At(db, offset + 3))) &&
      (db[offset] == 2 || db[offset] == 5 ==> r == Err(OutOfBounds)) &&
      (db[offset] !in {2, 5, 10, 13} ==> r == Err(InvalidPageType(db[offset])))
  {
    var offset := PageOffset(header.pageSize, FindTable(header.schemas, table).value.rootPage).value;
    SliceOfSlice(db, offset, offset + 8, 3, 5);
  }

  /** On a leaf root page whose cell-pointer array lies inside the file, the
      count is the number of rows the walk yields. */
  lemma CountIsRows(db: seq<Byte>, header: DbHeader, table: string, columnCount: nat)
    requires FindTable(header.schemas, table).Ok?
    requires var schema := FindTable(header.schemas, table).value;
      schema.rootPage > 0 &&
      var offset := PageOffset(header.pageSize, schema.rootPage).value;
      offset + 12 <= |db| && db[offset] == 13 && offset + 8 + 2 * U16At(db, offset + 3) <= |db|
    ensures var schema := FindTable(header.schemas, table).value;
      var rows := SubtreeRows(db, header.pageSize, columnCount, schema.rootPage, |db|);
      var count := CountRowsInTable(db, header, table);
      rows.Ok? ==> count.Ok? && count.value == |rows.value|
  {
    var schema := FindTable(header.schemas, table).value;
    var offset := PageOffset(header.pageSize, schema.rootPage).value;
    assert SubtreeRows(db, header.pageSize, columnCount, schema.rootPage, |db|) ==
      ParsePage(db, header.pageSize, columnCount, offset, |db|);
    CountMeaning(db, header, table);
    LeafRowCount(db, header.pageSize, columnCount, offset, |db|);
  }

  /** A leaf-table page whose cell pointers all lie inside the file yields
      one row per cell. */
  lemma LeafRowCount(db: seq<Byte>, pageSize: Uint16, columnCount: nat, pageOffset: nat, fuel: nat)
    requires pageOffset + 12 <= |db| && db[pageOffset] == 13
    requires pageOffset + 8 + 2 * U16At(db, pageOffset + 3) <= |db|
    ensures var rows := ParsePage(db, pageSize, columnCount, pageOffset, fuel);
      rows.Ok? ==> |rows.value| == U16At(db, pageOffset + 3)
  {
    LeafPage(db, pageSize, columnCount, pageOffset, fuel);
    var pointers := CellPointers(db, pageOffset + 8, U16At(db, pageOffset + 3));
    CollectRows(LeafCells(db, pageOffset, pointers, columnCount));
  }
}
