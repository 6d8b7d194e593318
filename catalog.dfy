/** The catalog (`sqlite_schema`) on page 1 and the database header around
    it, as `read_db_header` and the `.tables` command of src/main.rs read
    them (section 1.3, "The Database Header", of the SQLite file format).

    Page 1 starts at byte 0 of the file, but its B-tree header follows the
    100-byte database header: the header is read from bytes 100 to 107 and
    the cell pointers start at byte 108.  Catalog cells are read with their
    pointers taken from the start of the file, and their records are decoded
    with five columns from the bytes after the payload-size and rowid
    varints up to the end of the file.
 */
module Catalog {
  import opened Bytes
  import opened Failures
  import opened Record
  import opened Schemas
  import Header
  import Varint
  import Pages

  /** `DBHeader`: the page size and the catalog's entries. */
  datatype DbHeader = DbHeader(pageSize: Uint16, schemas: seq<Schema>)

  /** The record bytes of the catalog cell at `pointer`: everything after its
      payload-size and rowid varints.  The payload size is read and ignored,
      so the slice runs to the end of the file. */
  function CellRecord(db: seq<Byte>, pointer: Uint16): (r: Option<seq<Byte>>)
    ensures r.Some? ==> pointer + |r.value| <= |db| && r.value == db[|db| - |r.value|..]
  {
    if pointer > |db| || !Varint.Fits(db[pointer..]) then None
    else
      var stream := db[pointer..];
      var offset := Varint.Parse(stream).1;
      if !Varint.Fits(stream[offset..]) then None
      else
        var read := Varint.Parse(stream[offset..]).1;
        assert stream[offset + read..] == db[pointer + offset + read..];
        Some(stream[offset + read..])
  }

  /** A cell made of two whole varints and then a record is read as that
      record, whatever the two varints hold. */
  lemma CellRecordOfCell(db: seq<Byte>, pointer: Uint16, size: seq<Byte>, id: seq<Byte>, body: seq<Byte>)
    requires Varint.Fits(size) && Varint.Parse(size).1 == |size|
    requires Varint.Fits(id) && Varint.Parse(id).1 == |id|
    requires pointer <= |db| && db[pointer..] == size + id + body
    ensures CellRecord(db, pointer) == Some(body)
  {
    var stream := db[pointer..];
    assert stream == size + (id + body);
    Varint.ParseOnPrefix(size, id + body);
    assert stream[|size|..] == id + body;
    Varint.ParseOnPrefix(id, body);
    assert stream[|size| + |id|..] == body;
  }

  /** One catalog entry (the closure of src/main.rs:266-274): the cell's
      record decoded with five columns and read as a `Schema`.  A record
      whose fourth column is not a small integer reaches `unreachable!()` in
      `read_u32`.  A cell fails only by running past the file, by an unknown
      serial type or by a root page that is not a small integer. */
  function SchemaCell(db: seq<Byte>, pointer: Uint16): (r: Result<Schema>)
    ensures r.Err? ==> r.error == OutOfBounds || r.error == NotSmallInteger || r.error.InvalidSerialType?
  {
    match CellRecord(db, pointer)
    case None => Err(OutOfBounds)
    case Some(body) =>
      if !RecordFits(body, 5) then Err(OutOfBounds)
      else
        var decoded := DecodeRecord(body, 5);
        if decoded.Err? then
          DecodeRecordErrorKind(body, 5);
          Err(decoded.error)
        else
          var record := decoded.value;
          if !IsSmallInteger(record[3]) then Err(NotSmallInteger)
          else Ok(Schemas.Parse(record).value)
  }

  /** A catalog cell is read as the `Schema` of its five-column record, and
      fails exactly when the record does not fit, does not decode or has no
      page number in its fourth column. */
  lemma SchemaCellMeaning(db: seq<Byte>, pointer: Uint16)
    ensures var body := CellRecord(db, pointer);
      SchemaCell(db, pointer).Ok? <==>
        body.Some? && RecordFits(body.value, 5) && DecodeRecord(body.value, 5).Ok? &&
        IsSmallInteger(DecodeRecord(body.value, 5).value[3])
    ensures var body := CellRecord(db, pointer);
      SchemaCell(db, pointer).Ok? ==>
        var record := DecodeRecord(body.value, 5).value;
        var s := SchemaCell(db, pointer).value;
        s.kind == Display(record[0]) && s.name == Display(record[1]) &&
        s.tableName == Display(record[2]) && s.rootPage == ReadU32(record[3]) &&
        s.sql == Display(record[4])
    ensures var body := CellRecord(db, pointer);
      body.Some? && RecordFits(body.value, 5) && DecodeRecord(body.value, 5).Err? ==>
        SchemaCell(db, pointer) == Err(DecodeRecord(body.value, 5).error)
  {
  }

  /** The entries of a run of cells, in order, or the first failure. */
  function Entries(cells: seq<Result<Schema>>): (r: Result<seq<Schema>>)
    ensures r.Ok? ==> |r.value| == |cells|
    decreases |cells|
  {
    if cells == [] then Ok([])
    else
      var first :- cells[0];
      var rest :- Entries(cells[1..]);
      Ok([first] + rest)
  }

  /** Entries succeed exactly when every cell does, hold every cell's entry,
      and otherwise fail with the error of the first cell that fails. */
  lemma {:induction false} EntriesMeaning(cells: seq<Result<Schema>>)
    ensures Entries(cells).Ok? <==> forall i :: 0 <= i < |cells| ==> cells[i].Ok?
    ensures Entries(cells).Ok? ==> forall i :: 0 <= i < |cells| ==> Entries(cells).value[i] == cells[i].value
    ensures Entries(cells).Err? ==>
      exists i :: 0 <= i < |cells| && (forall j :: 0 <= j < i ==> cells[j].Ok?) && cells[i] == Err(Entries(cells).error)
    decreases |cells|
  {
    if cells != [] {
      var tail := cells[1..];
      EntriesMeaning(tail);
      assert forall i :: 1 <= i < |cells| ==> cells[i] == tail[i - 1];
      if cells[0].Ok? && Entries(cells).Err? {
        var i :| 0 <= i < |tail| && (forall j :: 0 <= j < i ==> tail[j].Ok?) && tail[i] == Err(Entries(cells).error);
        assert cells[i + 1] == tail[i];
      }
    }
  }

  /** What each of the catalog's cells reads as, in pointer order. */
  function Cells(db: seq<Byte>, pointers: seq<Uint16>): (r: seq<Result<Schema>>)
    ensures |r| == |pointers|
    ensures forall i :: 0 <= i < |pointers| ==> r[i] == SchemaCell(db, pointers[i])
  {
    seq(|pointers|, i requires 0 <= i < |pointers| => SchemaCell(db, pointers[i]))
  }

  /** The entries of the catalog's cells, in pointer order, or the first
      failure (see `EntriesMeaning`). */
  function SchemaCells(db: seq<Byte>, pointers: seq<Uint16>): (r: Result<seq<Schema>>)
    ensures r.Ok? ==> |r.value| == |pointers|
  {
    Entries(Cells(db, pointers))
  }

  /** The catalog of page 1 (src/main.rs:256-274, and again at 82-101 for
      `.tables`).  The header is parsed from an 8-byte window, so an interior
      tag makes `PageHeader::parse` read past it, so the catalog is read only
      from a page 1 with a leaf tag. */
  function CatalogPage(db: seq<Byte>): (r: Result<seq<Schema>>)
    ensures r.Ok? ==> |db| >= 108 && (db[100] == 10 || db[100] == 13)
  {
    if |db| < 108 then Err(OutOfBounds)
    else
      var window := db[100..108];
      if !Header.Readable(window) then Err(OutOfBounds)
      else
        var parsed :- Header.Parse(window);
        SchemaCells(db, Pages.CellPointers(db, 108, parsed.1.numberOfCells))
  }

  /** What the catalog page's tag byte (byte 100) decides: a leaf tag gives
      one entry per cell pointer, the pointers being the `number_of_cells`
      (bytes 103-104) big-endian u16 values from byte 108; an interior tag
      does not fit the window, and any other tag is rejected. */
  lemma CatalogPageMeaning(db: seq<Byte>)
    requires |db| >= 108
    ensures db[100] == 10 || db[100] == 13 ==>
      CatalogPage(db) == SchemaCells(db, Pages.CellPointers(db, 108, U16At(db, 103)))
    ensures db[100] == 2 || db[100] == 5 ==> CatalogPage(db) == Err(OutOfBounds)
    ensures db[100] !in {2, 5, 10, 13} ==> CatalogPage(db) == Err(InvalidPageType(db[100]))
  {
    SliceOfSlice(db, 100, 108, 3, 5);
  }

  /** `read_db_header`: the page size (the big-endian u16 at bytes 16-17) and
      the catalog. */
  function ReadDbHeader(db: seq<Byte>): (r: Result<DbHeader>)
    ensures r.Ok? <==> |db| >= 108 && CatalogPage(db).Ok?
    ensures r.Ok? ==> r.value.pageSize == BigEndian(db[16..18]) && r.value.schemas == CatalogPage(db).value
    ensures r.Err? && |db| >= 108 ==> r.error == CatalogPage(db).error
  {
    if |db| < 18 then Err(OutOfBounds)
    else
      var schemas :- CatalogPage(db);
      Ok(DbHeader(U16At(db, 16), schemas))
  }

  // ---------------------------------------------------------------------
  // `.tables`

  /** The entries `.tables` lists: tables whose table name does not start
      with "sqlite". */
  predicate IsUserTable(s: Schema) {
    s.kind == "table" && !("sqlite" <= s.tableName)
  }

  /** The names `.tables` prints, in catalog order (src/main.rs:103-109). */
  function TableNames(schemas: seq<Schema>): (r: seq<string>)
    ensures |r| <= |schemas|
    decreases |schemas|
  {
    if schemas == [] then []
    else (if IsUserTable(schemas[0]) then [schemas[0].name] else []) + TableNames(schemas[1..])
  }

  /** A name is listed exactly when some user table carries it. */
  lemma {:induction false} TableNamesMembership(schemas: seq<Schema>, n: string)
    ensures n in TableNames(schemas) <==> exists i :: 0 <= i < |schemas| && IsUserTable(schemas[i]) && schemas[i].name == n
    decreases |schemas|
  {
    if schemas != [] {
      var tail := schemas[1..];
      TableNamesMembership(tail, n);
      assert forall i :: 1 <= i < |schemas| ==> schemas[i] == tail[i - 1];
      if n in TableNames(tail) {
        var i :| 0 <= i < |tail| && IsUserTable(tail[i]) && tail[i].name == n;
        assert schemas[i + 1] == tail[i];
      }
    }
  }

  /** The filter keeps catalog order: listing two parts of a catalog lists
      the first part's names and then the second's. */
  lemma {:induction false} TableNamesAppend(a: seq<Schema>, b: seq<Schema>)
    ensures TableNames(a + b) == TableNames(a) + TableNames(b)
    decreases |a|
  {
    if a == [] {
      assert a + b == b;
    } else {
      var tail := a[1..];
      var head := if IsUserTable(a[0]) then [a[0].name] else [];
      assert (a + b)[0] == a[0];
      assert (a + b)[1..] == tail + b;
      TableNamesAppend(tail, b);
      assert TableNames(a + b) == head + (TableNames(tail) + TableNames(b));
      assert TableNames(a) == head + TableNames(tail);
      assert head + (TableNames(tail) + TableNames(b)) == (head + TableNames(tail)) + TableNames(b);
    }
  }

  /** `.tables`: the names of the user tables in the catalog. */
  function Tables(db: seq<Byte>): (r: Result<seq<string>>)
    ensures r.Ok? <==> CatalogPage(db).Ok?
    ensures r.Ok? ==> forall n :: n in r.value <==>
      exists i :: 0 <= i < |CatalogPage(db).value| && IsUserTable(CatalogPage(db).value[i]) &&
        CatalogPage(db).value[i].name == n
    ensures r.Ok? ==> r.value == TableNames(CatalogPage(db).value)
  {
    var schemas :- CatalogPage(db);
    forall n ensures n in TableNames(schemas) <==>
      exists i :: 0 <= i < |schemas| && IsUserTable(schemas[i]) && schemas[i].name == n
    {
      TableNamesMembership(schemas, n);
    }
    Ok(TableNames(schemas))
  }
}
