# A model of a small SQLite file reader

This project models the core of a command-line reader for SQLite database
files. The reader handles three requests:

- `.tables` lists the user tables named in the catalog;
- `SELECT a, b FROM t [WHERE c = 'v']` prints one `|`-separated line per row;
- `SELECT COUNT(*) FROM t` prints how many cells the table's root page has.

Each part of the reader is modelled in Dafny, and the model's contracts state what each part computes:

- the database header and the catalog (`sqlite_schema`) on page 1;
- the B-tree page header;
- the record format with its serial types;
- the walk over a table B-tree;
- the column map taken from a table's `CREATE TABLE` text;
- the request loops.

Modules (one per file), following the source's structure:

- `Bytes` (bytes.dfy): bytes, fixed-width integers, big-endian reads
- `Failures` (failures.dfy): `Option`, `Result` and the ways a run ends
- `Strings` (strings.dfy): decimal text, split/join, trimming, as the reader uses them
- `Varint` (varint.dfy): the SQLite varint, with an encoder as its partner
- `Record` (record.dfy): src/record.rs: `ColumnValue`, `parse_column_value`, `parse_record`
- `Header` (header.dfy): src/header.rs: `BTreePage`, `PageHeader::parse`, with a writer as its partner
- `Schemas` (schema.dfy): src/schema.rs: `Schema::parse`
- `Pages` (pages.dfy): `parse_page` of src/main.rs for table pages
- `Catalog` (catalog.dfy): `read_db_header` and `.tables` of src/main.rs
- `Columns` (columns.dfy): `find_column_positions` of src/main.rs
- `Queries` (query.dfy): `read_columns` and `count_rows_in_table` of src/main.rs

Where the source returns an error (`bail!`, `?`) or aborts (an index past the end of a buffer, `unwrap` of `None`, `todo!()`, `unreachable!()`, `page - 1` on page 0), the composed operations return an `Err` naming the situation. The leaf decoders (`Varint.Parse`, `Header.Parse`, `Record.ParseColumnValue`, `Record.ParseRecord`, `Record.ReadU32`) state the bound the source relies on as a precondition. The callers check that bound first and report `OutOfBounds` or `NotSmallInteger`.

The loops of `parse_record` and `read_columns` are written as methods, each proved equal to a recursive specification function. Properties of the reader are proved as lemmas about those functions.

## Model

| member | source | states |
|---|---|---|
| Bytes.U16At | src/main.rs:254 | two bytes read as a u16 are their big-endian value |
| Bytes.U32At | src/main.rs:145-146 | four bytes read as a u32 are their big-endian value |
| Bytes.BigEndianRoundTrip | src/header.rs:32-34 | reading back a w-byte big-endian encoding gives the number |
| Varint.Parse | src/record.rs:9 | a varint is 1 to 9 bytes long, all inside the buffer, and its value fits in 64 bits |
| Varint.ParseMeaning | src/record.rs:14 | every byte of a varint but the last has its high bit set, and a last byte before the ninth has it clear |
| Varint.RoundTrip | src/record.rs:14 | parsing the shortest encoding of v gives v and the encoding's whole length |
| Varint.ParseOnPrefix | src/main.rs:180-181 | bytes after a whole varint do not change what is read |
| Record.ParseColumnValue | src/record.rs:115-144 | serial types 0-4, 8, 9 and 12 on are decoded and every other code is an `InvalidSerialType` error; each value's length is its serial type's size; integers are the big-endian value of their bytes; a blob or text is exactly its (n-12)/2 or (n-13)/2 bytes |
| Record.Length | src/record.rs:48-63 | the number of bytes a value takes; with `ParseColumnValue` and `DecodeRecordMeaning`, a decoded value takes exactly its serial type's size, so each column starts where the previous one ends |
| Record.SmallIntegerBound | src/record.rs:119-126 | an integer of serial type k (1 to 4) is below 256^k, so a `U24` is below 2^24 |
| Record.ReadU32 | src/record.rs:65-77 | defined only on the 1- to 4-byte integer variants (every other one is `unreachable!()`); `ParseColumnValue` states that it reads the big-endian value of the stored bytes |
| Record.ReadUsize | src/record.rs:79-93 | on the variants `read_u32` accepts, `read_usize` agrees with it |
| Record.Display | src/record.rs:96-113 | an integer shows as a non-empty run of decimal digits and a text as one character per byte; `DisplayForms` gives each form exactly |
| Record.DisplayForms | src/record.rs:96-113 | Null shows as "", False as "false", True as "true", a text as its bytes, and an integer as decimal digits that read back as the integer |
| Record.DisplayInjective | src/record.rs:100-110 | two integers, or two texts, that display the same are equal |
| Record.ScanTypesPrefix | src/record.rs:12-17 | a buffer holding n serial-type varints holds the first k of them |
| Record.ReadSerialTypes | src/record.rs:12-17 | the serial-type loop reads exactly the n varints that follow the header-size varint, back to back |
| Record.ReadValues | src/record.rs:19-26 | the value loop returns the values decoded back to back, or the error of the first refused serial type |
| Record.ParseRecord | src/record.rs:7-29 | `parse_record` returns `DecodeRecord`: the serial types come right after the header-size varint and the values start at the header size |
| Record.DecodeRecordMeaning | src/record.rs:7-29 | success exactly when every serial type is accepted; then there are `columnCount` values, value i decoded at the header size plus the sizes of the values before it; or else the error names the first refused serial type |
| Record.DecodeColumnsSucceeds | src/record.rs:22-26 | decoding succeeds exactly when every serial type is accepted |
| Record.DecodeColumnsValues | src/record.rs:22-26 | value i is decoded at the start offset plus the sizes of values 0..i-1, inside the buffer |
| Record.DecodeColumnsError | src/record.rs:23 | a failed decoding reports the first refused serial type |
| Record.DecodeRecordErrorKind | src/record.rs:19-26 | a record fails to decode only through an unknown serial type |
| Record.ColumnStartStep | src/record.rs:24 | each column starts where the previous one ends |
| Header.PageTypeOf | src/header.rs:25-31 | a tag byte names a page kind exactly when it is 2, 5, 10 or 13, and the kind's tag is that byte |
| Header.TagRoundTrip | src/header.rs:4-10 | every page kind is recognised from its own tag |
| Header.Parse | src/header.rs:24-64 | an unknown tag is `InvalidPageType`; otherwise the length is 12 for interior and 8 for leaf pages, the fields are the big-endian values at bytes 1-2, 3-4, 5-6 and the byte at 7, and interior pages alone have a right-most pointer (bytes 8-11) |
| Header.LengthOnlyFromTag | src/header.rs:37-63 | the header length depends on the tag byte alone |
| Header.ParseIgnoresRest | src/header.rs:24-64 | a header is read from its own bytes only |
| Header.RoundTrip | src/header.rs:24-64 | parsing a written well-formed header gives back the header and its length |
| Schemas.Parse | src/schema.rs:14-31 | a record of at least five values gives a `Schema` of the displayed first, second, third and fifth values and the fourth read as a u32; fewer values give `None` |
| Schemas.ParseIgnoresExtra | src/schema.rs:14-31 | values after the fifth are never looked at |
| Schemas.ParseCatalogRow | src/schema.rs:14-31 | a catalog row of texts and an integer root page gives back those texts and that page |
| Pages.CellPointers | src/main.rs:133-136 | the cell-pointer array has min(count, remaining bytes / 2) entries |
| Pages.CellPointerAt | src/main.rs:133-136 | pointer i is the big-endian u16 at start + 2i |
| Pages.PageOffset | src/main.rs:154 | page p starts at page_size * (p - 1), and page 0 is an error |
| Pages.PagesDoNotOverlap | src/main.rs:154 | a page ends where or before any later page starts |
| Pages.LeafPayloadOfCell | src/main.rs:178-186 | a leaf cell of payload-size varint, rowid varint and payload is read as that rowid and exactly that payload |
| Pages.LeafCellOfEncoding | src/main.rs:178-191 | a cell as the format writes it is read back as its rowid and its payload's record |
| Pages.Then | src/main.rs:162 | chaining two row streams keeps the first failure or joins the rows in order |
| Pages.CollectSucceeds | src/main.rs:141-158 | the rows of several cells are collected exactly when every cell succeeds; otherwise the first failing cell's error is returned |
| Pages.CollectAppend | src/main.rs:141-158 | collecting two runs of cells is collecting each and joining them |
| Pages.CollectRows | src/main.rs:178-193 | a leaf gives one row per cell, in cell order, or the first failing cell's error |
| Pages.LeafCell | src/main.rs:178-191 | a leaf cell reads as a row of exactly `column_map.len()` values; `LeafCellOfEncoding` gives its rowid and record |
| Pages.ReadPage | src/main.rs:130-136 | a page header is read only when the 12 bytes the source slices lie inside the file; otherwise `OutOfBounds` |
| Pages.ParsePage | src/main.rs:124-196 | every row has as many values as the column map has entries |
| Pages.LeafPage | src/main.rs:177-194 | a tag-13 page yields its cells' rows through the pointers after its 8-byte header |
| Pages.InteriorPage | src/main.rs:140-175 | a tag-5 page yields its left children's rows in pointer order and then the right-most child's |
| Pages.InteriorRows | src/main.rs:140-175 | every row of an interior page's subtrees has `column_map.len()` values; `InteriorPage` gives their order |
| Pages.ChildRows | src/main.rs:143-155 | every row of the left child a cell names has `column_map.len()` values |
| Pages.SubtreeRows | src/main.rs:150-155 | every row of the subtree at a page number has `column_map.len()` values; page 0 is `PageNumberZero` (`PageOffset`) |
| Pages.OtherPages | src/main.rs:138-139 | index pages are `Unimplemented` and other tags are `InvalidPageType` |
| Pages.ChildrenInOrder | src/main.rs:141-158 | children are visited in cell-pointer order |
| Pages.ParsePageFuel | src/main.rs:150-168 | a walk that did not hit the depth bound gives the same rows under any larger bound |
| Catalog.CellRecordOfCell | src/main.rs:266-271 | a catalog cell of two whole varints and a record is read as that record |
| Catalog.SchemaCell | src/main.rs:266-274 | a catalog cell fails only by running past the file, by an unknown serial type or by a fourth column that is not a small integer |
| Catalog.SchemaCellMeaning | src/main.rs:266-274 | a catalog cell reads as the `Schema` of its five-column record; it fails exactly when the record does not fit, does not decode or has no small integer in its fourth column; a decoding error is passed on |
| Catalog.EntriesMeaning | src/main.rs:266-278 | the catalog succeeds exactly when every cell does, holds each cell's entry in order, and otherwise has the first failing cell's error |
| Catalog.CatalogPage | src/main.rs:256-262 | the catalog is read only from a file of at least 108 bytes whose byte 100 is a leaf tag |
| Catalog.CatalogPageMeaning | src/main.rs:256-262 | a leaf tag at byte 100 gives one entry per pointer from byte 108; an interior tag overruns the 8-byte window; other tags are rejected |
| Catalog.ReadDbHeader | src/main.rs:253-280 | the page size is the big-endian u16 at bytes 16-17 and the schemas are the catalog's; otherwise the catalog's error |
| Catalog.TableNamesMembership | src/main.rs:103-109 | a name is listed exactly when a catalog entry of kind "table", whose table name does not start with "sqlite", carries it |
| Catalog.TableNamesAppend | src/main.rs:103-109 | the listing keeps catalog order |
| Catalog.Tables | src/main.rs:80-111 | `.tables` succeeds exactly when the catalog is read, lists exactly the user tables' names, and lists them in catalog order with their repeats (`TableNames`, `TableNamesAppend`) |
| Columns.Positions | src/main.rs:309-313 | the map's keys are exactly the names; each maps to a position holding that name and no later position does (the last occurrence wins) |
| Columns.ColumnName | src/main.rs:305-307 | a column name is a single word, no longer than its definition |
| Columns.ColumnNames | src/main.rs:302-307 | a `CREATE TABLE` text declares at least one name, one per comma-separated piece after its first '('; `ColumnNamesOfTable` gives them |
| Columns.FindColumnPositions | src/main.rs:301-314 | the column map holds exactly the declared names, each at a position declaring it, and no later position declares it (the last occurrence wins) |
| Columns.DistinctPositions | src/main.rs:309-313 | with distinct names, name i maps to i and the map has one entry per name |
| Columns.ColumnNameOf | src/main.rs:305-307 | a column definition's punctuation, indentation, name and tail are reduced to the name |
| Columns.ColumnNamesOfTable | src/main.rs:301-307 | a `CREATE TABLE` text whose parenthesised part is comma-separated column definitions declares exactly their names, in order |
| Queries.FindTable | src/main.rs:201-205 | the first catalog entry whose table name matches, or `UnknownTable` exactly when none does |
| Queries.Line | src/main.rs:239 | a printed line never ends in a bar |
| Queries.ReadColumns | src/main.rs:198-245 | `read_columns` prints `Select`: the lines of the table's rows, with each record decoded into as many columns as the column map has entries |
| Queries.Select | src/main.rs:198-245 | an unknown table is `UnknownTable` and no printed line ends in a bar; `FilterThenPrint` and `EveryRowPrinted` give the lines |
| Queries.PrintLines | src/main.rs:216-242 | the row loop prints the lines of the rows in order, or stops at the first failing row |
| Queries.PrintRow | src/main.rs:217-241 | one row is dropped by the filter or printed as its line |
| Queries.BuildOutput | src/main.rs:229-237 | the column loop builds each selected column's text followed by a bar, or stops at the first failing column |
| Queries.EveryRowPrinted | src/main.rs:216-242 | without a `WHERE` clause every row prints a line |
| Queries.MatchingMembers | src/main.rs:219-227 | a row is kept exactly when its filtered column reads as the literal |
| Queries.FilterThenPrint | src/main.rs:216-242 | filtering while printing equals filtering the rows first and printing every kept row, in order |
| Queries.SelectSucceeds | src/main.rs:198-245 | for a table declaring each name once, a query naming only "id" and declared columns fails only where the walk of the table fails |
| Queries.LineJoins | src/main.rs:229-239 | a kept row's line is its column texts joined with a bar (when the last text ends in something other than a bar) |
| Queries.CountMeaning | src/main.rs:282-299 | the count is the root page's `number_of_cells` for a leaf page; an interior root overruns the 8-byte window; other tags are rejected |
| Queries.CountRowsInTable | src/main.rs:282-299 | an unknown table is `UnknownTable` and a root page of 0 is `PageNumberZero`; `CountMeaning` gives the count |
| Queries.CountIsRows | src/main.rs:282-299 | on a leaf root page whose pointers lie inside the file, the count equals the number of rows the walk yields |
| Strings.DecimalRoundTrip | src/main.rs:231 | a number's decimal text reads back as the number |
| Strings.JoinSplit | src/main.rs:304 | joining the pieces of a split gives back the text |
| Strings.SplitJoin | src/main.rs:304 | splitting pieces that have no separator, once joined, gives the pieces |
| Strings.TrimStart | src/main.rs:305 | trimming removes a leading run of trimmed characters and leaves a suffix starting with another character |
| Strings.TrimEnd | src/main.rs:239 | trimming removes a trailing run of trimmed characters and leaves a prefix ending with another character |
| Strings.Prefix | src/main.rs:306 | the first piece of a split at c is a prefix without c, followed by c when it is shorter than the text |
| Strings.DropUntil | src/main.rs:302 | the suffix from the first c on, and none of the dropped characters is c |

## Left out

- Reading the file and its command-line arguments, and printing, are outside the model. The database is a byte sequence given as input, and each printed line is one element of a result.
- The regular expressions that take the column names, table and `WHERE` pair out of the query text are left out. The `Query` descriptor is an input.
- src/varint.rs is not part of this model. `Varint.Parse` is the SQLite file format's own varint definition.
- The `.dbinfo` command is left out.
- Index pages are not walked (the source has `todo!()` there); the model returns `Unimplemented`. Overflow pages are not followed, and neither does the source follow them.
- Record.ColumnValue: `FP64` holds the text it displays as rather than a float. Floating-point formatting is outside the model, and the decoder never produces this variant.
- Record.Display: a text is shown as its bytes, one character per byte. UTF-8 decoding and its failure (an `unwrap` panic) are not modelled. The `{:?}` form of a blob is modelled as decimal bytes separated by ", ", without Rust's formatter in full.
- Columns.ColumnName: `trim()` removes ASCII whitespace only, not every Unicode whitespace character.
- Columns.ColumnNamesOfTable: the indentation before a name is limited to tab, carriage return, vertical tab and form feed, which are whitespace that the punctuation trim keeps.
- Pages.ParsePage: the walk carries a depth bound, and `Queries.Select` sets it to the size of the file. A file whose pages point back at each other makes the source recurse without end; the model returns `DepthExhausted` instead. `Pages.ParsePageFuel` shows that a larger bound never changes a result that finished.
- Pages.ChildRows: a rowid varint running past the end of the database is treated as out of bounds. The source's `parse_varint` behaviour there is not part of this model.
- Laziness and error order are left out. The source produces rows through lazy iterators and prints each line before it decodes the next row. The model returns either all the lines or the first failure, so lines printed before a later panic are not represented. Where several panics could happen, the model reports the one its evaluation order reaches first.
- Queries.Keeps: `read_string` (src/main.rs:222) is not defined in src/record.rs, which is the file that defines `ColumnValue`. The model takes it to be the value's `Display` text. If `read_string` accepts only texts, a `WHERE` on an integer column behaves differently from the model.
- Queries.Select: a `WHERE` clause on the column "id" compares the stored column value, as the source does, and not the rowid.
- Queries.ReadColumns: the source's one function is split into the methods `ReadColumns`, `PrintLines`, `PrintRow` and `BuildOutput`, one per loop.
- A page size field of 1, which SQLite uses to mean 65536, is read as the raw value, as the source reads it.
