/** A row of the `sqlite_schema` catalog table read as a `Schema`: the
    catalog's five columns are, in order, the kind of object, its name, the
    table it belongs to, its root page and its SQL text.  Models
    src/schema.rs.
 */
module Schemas {
  import opened Bytes
  import opened Failures
  import opened Strings
  import opened Record

  /** `Schema`: one catalog entry, its text columns in their displayed form. */
  datatype Schema = Schema(kind: string, name: string, tableName: string, rootPage: Uint32, sql: string)

  /** `Schema::parse`: takes the record's values one after another; the first
      missing value ends it with `None`.  The fourth value is read with
      `read_u32` as soon as it is taken, before the fifth is looked for, so a
      four-value record whose fourth value is not a small integer is outside
      what the source can handle. */
  function Parse(record: seq<ColumnValue>): (r: Option<Schema>)
    requires |record| >= 4 ==> IsSmallInteger(record[3])
    ensures r.Some? <==> |record| >= 5
    ensures r.Some? ==>
      r.value.kind == Display(record[0]) &&
      r.value.name == Display(record[1]) &&
      r.value.tableName == Display(record[2]) &&
      r.value.rootPage == ReadU32(record[3]) &&
      r.value.sql == Display(record[4])
  {
    if |record| < 5 then None
    else Some(Schema(Display(record[0]), Display(record[1]), Display(record[2]),
                     ReadU32(record[3]), Display(record[4])))
  }

  /** Values after the fifth are never looked at. */
  lemma ParseIgnoresExtra(record: seq<ColumnValue>, extra: seq<ColumnValue>)
    requires |record| == 5 && IsSmallInteger(record[3])
    ensures Parse(record + extra) == Parse(record)
  {
    assert (record + extra)[..5] == record;
  }

  /** A catalog row written the way SQLite writes one (text columns and an
      integer root page) gives back its texts and its root page. */
  lemma ParseCatalogRow(kind: seq<Byte>, name: seq<Byte>, tableName: seq<Byte>, root: Uint32, sql: seq<Byte>)
    ensures Parse([Text(kind), Text(name), Text(tableName), U32(root), Text(sql)]) ==
      Some(Schema(Chars(kind), Chars(name), Chars(tableName), root, Chars(sql)))
  {
  }
}
