/** The record format of the SQLite file format (section 2.1, "Record
    Format"): a header-size varint, one serial-type varint per column, then the
    column values back to back.  Models src/record.rs.
 */
module Record {
  import opened Bytes
  import opened Failures
  import opened Strings
  import Varint

  /** One decoded column.  The reader assembles integers unsigned, so the
      variants are named by width, as in the source.  `FP64` is never produced
      by the decoder; the model keeps the float opaque and stores only the text
      it displays as. */
  datatype ColumnValue =
    | Null
    | U8(u8: Byte)
    | U16(u16: Uint16)
    | U24(u24: Uint32)
    | U32(u32: Uint32)
    | U48(u48: Uint64)
    | U64(u64: Uint64)
    | FP64(shown: string)
    | False
    | True
    | Blob(blob: seq<Byte>)
    | Text(text: seq<Byte>)

  /** `ColumnValue::length`: the number of payload bytes the value occupies
      (`ParseColumnValue` shows it is the size of the value's serial type). */
  function Length(v: ColumnValue): nat {
    match v
    case Null => 0
    case U8(_) => 1
    case U16(_) => 2
    case U24(_) => 3
    case U32(_) => 4
    case U48(_) => 6
    case U64(_) => 8
    case FP64(_) => 8
    case False => 0
    case True => 0
    case Blob(b) => |b|
    case Text(b) => |b|
  }

  /** The variants `read_u32` accepts. */
  predicate IsSmallInteger(v: ColumnValue) {
    v.U8? || v.U16? || v.U24? || v.U32?
  }

  /** The variants `read_usize` accepts. */
  predicate IsInteger(v: ColumnValue) {
    IsSmallInteger(v) || v.U48? || v.U64?
  }

  /** `ColumnValue::read_u32`; every other variant is `unreachable!()`. */
  function ReadU32(v: ColumnValue): (r: Uint32)
    requires IsSmallInteger(v)
  {
    match v
    case U8(n) => n
    case U16(n) => n
    case U24(n) => n
    case U32(n) => n
  }

  /** `ColumnValue::read_usize` on a 64-bit target; every other variant is
      `unreachable!()`. */
  function ReadUsize(v: ColumnValue): (r: Uint64)
    requires IsInteger(v)
    ensures IsSmallInteger(v) ==> r == ReadU32(v)
  {
    match v
    case U8(n) => n
    case U16(n) => n
    case U24(n) => n
    case U32(n) => n
    case U48(n) => n
    case U64(n) => n
  }

  /** `Display::fmt`: integers in decimal, text as its bytes, a blob as Rust's
      `{:?}` list of its bytes.  A number shows as a non-empty run of digits
      and a text as one character per byte. */
  function Display(v: ColumnValue): (r: string)
    ensures IsInteger(v) ==> |r| >= 1 && forall i :: 0 <= i < |r| ==> IsDigit(r[i])
    ensures v.Text? ==> |r| == |v.text|
  {
    match v
    case Null => ""
    case U8(n) => Decimal(n)
    case U16(n) => Decimal(n)
    case U24(n) => Decimal(n)
    case U32(n) => Decimal(n)
    case U48(n) => Decimal(n)
    case U64(n) => Decimal(n)
    case FP64(shown) => shown
    case False => "false"
    case True => "true"
    case Blob(b) => "[" + DebugItems(b) + "]"
    case Text(b) => Chars(b)
  }

  /** The bytes of a blob in decimal, separated by ", ". */
  function DebugItems(b: seq<Byte>): string {
    if b == [] then ""
    else if |b| == 1 then Decimal(b[0])
    else Decimal(b[0]) + ", " + DebugItems(b[1..])
  }

  /** What `Display` writes for each kind of value; an integer's text reads
      back as the integer, so distinct integers display differently. */
  lemma DisplayForms(v: ColumnValue)
    ensures v.Null? ==> Display(v) == ""
    ensures v.False? ==> Display(v) == "false"
    ensures v.True? ==> Display(v) == "true"
    ensures v.Text? ==> Display(v) == Chars(v.text)
    ensures IsInteger(v) ==> Display(v) == Decimal(ReadUsize(v))
    ensures IsInteger(v) ==>
      (forall i :: 0 <= i < |Display(v)| ==> IsDigit(Display(v)[i])) &&
      DecimalValue(Display(v)) == ReadUsize(v)
  {
    if IsInteger(v) {
      DecimalRoundTrip(ReadUsize(v));
    }
  }

  /** Two integers, or two texts, with the same display are the same value. */
  lemma DisplayInjective(a: ColumnValue, b: ColumnValue)
    requires (IsInteger(a) && IsInteger(b)) || (a.Text? && b.Text?)
    requires Display(a) == Display(b)
    ensures IsInteger(a) ==> ReadUsize(a) == ReadUsize(b)
    ensures a.Text? ==> a.text == b.text
  {
    if IsInteger(a) {
      DecimalInjective(ReadUsize(a), ReadUsize(b));
    } else {
      CharsInjective(a.text, b.text);
    }
  }

  // ---------------------------------------------------------------------
  // Serial types

  /** The serial types `parse_column_value` decodes: 0..4, 8, 9 and every
      code from 12 on.  5, 6, 7, 10 and 11 are refused. */
  predicate IsAccepted(serialType: nat) {
    serialType <= 4 || serialType == 8 || serialType == 9 || serialType >= 12
  }

  /** The number of bytes a serial type's value occupies, as the format
      defines it; a refused code reads nothing. */
  function ValueSize(serialType: nat): nat {
    if 1 <= serialType <= 4 then serialType
    else if serialType >= 12 && serialType % 2 == 0 then (serialType - 12) / 2
    else if serialType >= 13 && serialType % 2 == 1 then (serialType - 13) / 2
    else 0
  }

  /** `parse_column_value`: the value of the given serial type at the front of
      `s`.  The source indexes `s` without a check, so the value's bytes must
      be there. */
  function ParseColumnValue(s: seq<Byte>, serialType: nat): (r: Result<ColumnValue>)
    requires ValueSize(serialType) <= |s|
    ensures r.Ok? <==> IsAccepted(serialType)
    ensures r.Err? ==> r.error == InvalidSerialType(serialType)
    ensures r.Ok? ==> Length(r.value) == ValueSize(serialType)
    ensures 1 <= serialType <= 4 ==>
      r.Ok? && IsSmallInteger(r.value) && ReadU32(r.value) == BigEndian(s[..serialType])
    ensures serialType == 0 ==> r == Ok(Null)
    ensures serialType == 8 ==> r == Ok(False)
    ensures serialType == 9 ==> r == Ok(True)
    ensures serialType >= 12 && serialType % 2 == 0 ==> r == Ok(Blob(s[..ValueSize(serialType)]))
    ensures serialType >= 13 && serialType % 2 == 1 ==> r == Ok(Text(s[..ValueSize(serialType)]))
  {
    match serialType
    case 0 => Ok(Null)
    case 1 =>
      assert s[..1][..0] == [];
      Ok(U8(s[0]))
    case 2 =>
      BigEndian2(s[..2]);
      Ok(U16(s[0] as int * 0x100 + s[1]))
    case 3 =>
      BigEndian3(s[..3]);
      Ok(U24(s[0] as int * 0x1_0000 + s[1] as int * 0x100 + s[2]))
    case 4 =>
      BigEndian4(s[..4]);
      Ok(U32(s[0] as int * 0x100_0000 + s[1] as int * 0x1_0000 + s[2] as int * 0x100 + s[3]))
    case 8 => Ok(False)
    case 9 => Ok(True)
    case _ =>
      if serialType >= 12 && serialType % 2 == 0 then Ok(Blob(s[..(serialType - 12) / 2]))
      else if serialType >= 13 && serialType % 2 == 1 then Ok(Text(s[..(serialType - 13) / 2]))
      else Err(InvalidSerialType(serialType))
  }

  /** An integer of serial type 1..4 is below 256 to the power of its width;
      in particular a `U24` is below 2^24. */
  lemma SmallIntegerBound(s: seq<Byte>, serialType: nat)
    requires 1 <= serialType <= 4 && serialType <= |s|
    ensures ReadU32(ParseColumnValue(s, serialType).value) < Pow256(serialType)
  {
    BigEndianBound(s[..serialType]);
  }

  // ---------------------------------------------------------------------
  // The record header

  /** Serial types read so far, and the offset of the next varint. */
  datatype TypeScan = TypeScan(types: seq<nat>, next: nat)

  /** The first n serial-type varints read back to back from `off` on, with
      the offset just after them; `None` when one of them runs past the end
      of the buffer. */
  function ScanTypes(s: seq<Byte>, off: nat, n: nat): (r: Option<TypeScan>)
    ensures r.Some? ==> |r.value.types| == n && off <= r.value.next
    ensures r.Some? && n > 0 ==> r.value.next <= |s|
    decreases n
  {
    if n == 0 then Some(TypeScan([], off))
    else
      var before := ScanTypes(s, off, n - 1);
      if before.None? then None
      else
        var next := before.value.next;
        if next <= |s| && Varint.Fits(s[next..]) then
          var varint := Varint.Parse(s[next..]);
          Some(TypeScan(before.value.types + [varint.0], next + varint.1))
        else None
  }

  /** The buffer holds n serial-type varints from `off` on. */
  predicate SerialTypesFit(s: seq<Byte>, off: nat, n: nat) {
    ScanTypes(s, off, n).Some?
  }

  /** The n serial types read back to back from `off` on. */
  function SerialTypes(s: seq<Byte>, off: nat, n: nat): (r: seq<nat>)
    requires SerialTypesFit(s, off, n)
    ensures |r| == n
  {
    ScanTypes(s, off, n).value.types
  }

  /** A buffer that holds n serial types holds the first k of them. */
  lemma {:induction false} ScanTypesPrefix(s: seq<Byte>, off: nat, k: nat, n: nat)
    requires k <= n && ScanTypes(s, off, n).Some?
    ensures ScanTypes(s, off, k).Some?
    decreases n
  {
    if k < n {
      ScanTypesPrefix(s, off, k, n - 1);
    }
  }

  /** The number of value bytes of a run of serial types. */
  function SizeSum(types: seq<nat>): nat {
    if types == [] then 0 else ValueSize(types[0]) + SizeSum(types[1..])
  }

  /** Where column i's value starts when the values start at `off`. */
  function ColumnStart(off: nat, types: seq<nat>, i: nat): nat
    requires i <= |types|
  {
    off + SizeSum(types[..i])
  }

  lemma {:induction false} SizeSumAppend(types: seq<nat>, t: nat)
    ensures SizeSum(types + [t]) == SizeSum(types) + ValueSize(t)
  {
    if types != [] {
      assert (types + [t])[1..] == types[1..] + [t];
      SizeSumAppend(types[1..], t);
    }
  }

  /** Each column starts where the previous one ends. */
  lemma ColumnStartStep(off: nat, types: seq<nat>, i: nat)
    requires i < |types|
    ensures ColumnStart(off, types, i + 1) == ColumnStart(off, types, i) + ValueSize(types[i])
  {
    assert types[..i + 1] == types[..i] + [types[i]];
    SizeSumAppend(types[..i], types[i]);
  }

  /** Every value up to the first refused serial type lies inside the buffer;
      otherwise the source slices past its end. */
  predicate ColumnsFit(s: seq<Byte>, off: nat, types: seq<nat>)
    decreases |types|
  {
    types == [] ||
    (off + ValueSize(types[0]) <= |s| &&
     (IsAccepted(types[0]) ==> ColumnsFit(s, off + ValueSize(types[0]), types[1..])))
  }

  /** k is the first refused serial type. */
  predicate FirstRejected(types: seq<nat>, k: nat) {
    k < |types| && !IsAccepted(types[k]) && forall j :: 0 <= j < k ==> IsAccepted(types[j])
  }

  /** The values of `types`, decoded back to back from `off` on. */
  function DecodeColumns(s: seq<Byte>, off: nat, types: seq<nat>): (r: Result<seq<ColumnValue>>)
    requires ColumnsFit(s, off, types)
    ensures r.Ok? ==> |r.value| == |types|
    decreases |types|
  {
    if types == [] then Ok([])
    else
      var column :- ParseColumnValue(s[off..], types[0]);
      var rest :- DecodeColumns(s, off + Length(column), types[1..]);
      Ok([column] + rest)
  }

  /** Decoding succeeds exactly when every serial type is accepted. */
  lemma {:induction false} DecodeColumnsSucceeds(s: seq<Byte>, off: nat, types: seq<nat>)
    requires ColumnsFit(s, off, types)
    ensures DecodeColumns(s, off, types).Ok? <==> forall i :: 0 <= i < |types| ==> IsAccepted(types[i])
    decreases |types|
  {
    if types != [] && IsAccepted(types[0]) {
      var rest := types[1..];
      DecodeColumnsSucceeds(s, off + ValueSize(types[0]), rest);
      if forall i :: 0 <= i < |rest| ==> IsAccepted(rest[i]) {
        forall i | 0 <= i < |types| ensures IsAccepted(types[i]) {
          if i > 0 { assert types[i] == rest[i - 1]; }
        }
      } else {
        var i :| 0 <= i < |rest| && !IsAccepted(rest[i]);
        assert types[i + 1] == rest[i];
      }
    }
  }

  /** On success value i is the value of serial type i at
      `ColumnStart(off, types, i)`. */
  lemma {:induction false} DecodeColumnsValues(s: seq<Byte>, off: nat, types: seq<nat>)
    requires ColumnsFit(s, off, types)
    requires DecodeColumns(s, off, types).Ok?
    ensures forall i :: 0 <= i < |types| ==>
      ColumnStart(off, types, i) + ValueSize(types[i]) <= |s| && IsAccepted(types[i]) &&
      DecodeColumns(s, off, types).value[i] ==
        ParseColumnValue(s[ColumnStart(off, types, i)..], types[i]).value
    decreases |types|
  {
    if types != [] {
      var size := ValueSize(types[0]);
      var rest := types[1..];
      var r := DecodeColumns(s, off, types);
      var column := ParseColumnValue(s[off..], types[0]).value;
      var tail := DecodeColumns(s, off + size, rest);
      assert r.value == [column] + tail.value;
      DecodeColumnsValues(s, off + size, rest);
      forall i | 0 <= i < |types|
        ensures ColumnStart(off, types, i) + ValueSize(types[i]) <= |s| && IsAccepted(types[i])
        ensures r.value[i] == ParseColumnValue(s[ColumnStart(off, types, i)..], types[i]).value
      {
        if i > 0 {
          assert types[..i][1..] == rest[..i - 1];
          assert ColumnStart(off, types, i) == ColumnStart(off + size, rest, i - 1);
          assert r.value[i] == tail.value[i - 1];
        } else {
          assert types[..0] == [];
        }
      }
    }
  }

  /** On failure the error names the first refused serial type. */
  lemma {:induction false} DecodeColumnsError(s: seq<Byte>, off: nat, types: seq<nat>)
    requires ColumnsFit(s, off, types)
    requires DecodeColumns(s, off, types).Err?
    ensures exists k: nat ::
      FirstRejected(types, k) && DecodeColumns(s, off, types).error == InvalidSerialType(types[k])
    decreases |types|
  {
    if IsAccepted(types[0]) {
      var rest := types[1..];
      DecodeColumnsError(s, off + ValueSize(types[0]), rest);
      var k: nat :| FirstRejected(rest, k) &&
        DecodeColumns(s, off + ValueSize(types[0]), rest).error == InvalidSerialType(rest[k]);
      assert FirstRejected(types, k + 1);
    } else {
      assert FirstRejected(types, 0);
    }
  }

  /** The buffer holds the whole record: the header-size varint, the serial
      types, and the values up to the first refused serial type.  This is
      exactly when `parse_record` does not slice past the end of `s`. */
  predicate RecordFits(s: seq<Byte>, columnCount: nat) {
    Varint.Fits(s) &&
    SerialTypesFit(s, Varint.Parse(s).1, columnCount) &&
    ColumnsFit(s, Varint.Parse(s).0, SerialTypes(s, Varint.Parse(s).1, columnCount))
  }

  /** The serial types of the record's first `columnCount` columns. */
  function RecordSerialTypes(s: seq<Byte>, columnCount: nat): (r: seq<nat>)
    requires RecordFits(s, columnCount)
    ensures |r| == columnCount
  {
    SerialTypes(s, Varint.Parse(s).1, columnCount)
  }

  /** The record's values: its serial types are read right after the
      header-size varint, its values start at the header size. */
  function DecodeRecord(s: seq<Byte>, columnCount: nat): (r: Result<seq<ColumnValue>>)
    requires RecordFits(s, columnCount)
    ensures r.Ok? ==> |r.value| == columnCount
  {
    DecodeColumns(s, Varint.Parse(s).0, RecordSerialTypes(s, columnCount))
  }

  /** A record fails to decode only through an unknown serial type. */
  lemma DecodeRecordErrorKind(s: seq<Byte>, columnCount: nat)
    requires RecordFits(s, columnCount)
    requires DecodeRecord(s, columnCount).Err?
    ensures DecodeRecord(s, columnCount).error.InvalidSerialType?
  {
    DecodeColumnsError(s, Varint.Parse(s).0, RecordSerialTypes(s, columnCount));
  }

  /** What a successful or failed decoding of a record says: exactly
      `columnCount` values, one per serial type and in header order, value i
      decoded at the header size plus the sizes of the values before it; or
      the first refused serial type. */
  lemma DecodeRecordMeaning(s: seq<Byte>, columnCount: nat)
    requires RecordFits(s, columnCount)
    ensures var types := RecordSerialTypes(s, columnCount);
      var headerSize := Varint.Parse(s).0;
      var r := DecodeRecord(s, columnCount);
      (r.Ok? <==> forall i :: 0 <= i < columnCount ==> IsAccepted(types[i])) &&
      (r.Ok? ==>
        |r.value| == columnCount &&
        (forall i :: 0 <= i < columnCount ==>
          ColumnStart(headerSize, types, i) + ValueSize(types[i]) <= |s| &&
          r.value[i] == ParseColumnValue(s[ColumnStart(headerSize, types, i)..], types[i]).value &&
          Length(r.value[i]) == ValueSize(types[i]))) &&
      (r.Err? ==> exists k: nat :: FirstRejected(types, k) && r.error == InvalidSerialType(types[k]))
  {
    var types := RecordSerialTypes(s, columnCount);
    var headerSize := Varint.Parse(s).0;
    DecodeColumnsSucceeds(s, headerSize, types);
    if DecodeRecord(s, columnCount).Ok? {
      DecodeColumnsValues(s, headerSize, types);
    } else {
      DecodeColumnsError(s, headerSize, types);
    }
  }

  /** One step of `DecodeColumns`, at serial type i. */
  lemma DecodeColumnsAt(s: seq<Byte>, off: nat, types: seq<nat>, i: nat)
    requires i < |types| && ColumnsFit(s, off, types[i..])
    ensures off + ValueSize(types[i]) <= |s|
    ensures ParseColumnValue(s[off..], types[i]).Err? ==>
      DecodeColumns(s, off, types[i..]) == Err(ParseColumnValue(s[off..], types[i]).error)
    ensures ParseColumnValue(s[off..], types[i]).Ok? ==>
      ColumnsFit(s, off + ValueSize(types[i]), types[i + 1..]) &&
      DecodeColumns(s, off, types[i..]) ==
        Prepend([ParseColumnValue(s[off..], types[i]).value],
                DecodeColumns(s, off + ValueSize(types[i]), types[i + 1..]))
  {
    assert types[i..][0] == types[i];
    assert types[i..][1..] == types[i + 1..];
  }

  lemma PrependNothing(r: Result<seq<ColumnValue>>)
    ensures Prepend([], r) == r
  {
    if r.Ok? {
      assert [] + r.value == r.value;
    }
  }

  lemma PrependTwice(a: seq<ColumnValue>, b: seq<ColumnValue>, r: Result<seq<ColumnValue>>)
    ensures Prepend(a, Prepend(b, r)) == Prepend(a + b, r)
  {
    if r.Ok? {
      assert a + (b + r.value) == (a + b) + r.value;
    }
  }

  /** Joins a decoded prefix to the outcome of decoding the rest. */
  function Prepend(done: seq<ColumnValue>, r: Result<seq<ColumnValue>>): Result<seq<ColumnValue>> {
    match r
    case Ok(rest) => Ok(done + rest)
    case Err(e) => Err(e)
  }

  /** The (k+1)-th serial type is the varint right after the first k. */
  lemma ScanTypesStep(s: seq<Byte>, start: nat, k: nat, types: seq<nat>, offset: nat)
    requires ScanTypes(s, start, k + 1).Some?
    requires ScanTypes(s, start, k) == Some(TypeScan(types, offset))
    ensures offset <= |s| && Varint.Fits(s[offset..])
    ensures ScanTypes(s, start, k + 1) ==
      Some(TypeScan(types + [Varint.Parse(s[offset..]).0], offset + Varint.Parse(s[offset..]).1))
  {
  }

  /** While fewer than `count` serial types have been read of a buffer that
      holds `count`, the next one is a whole varint inside the buffer. */
  lemma ScanTypesFits(s: seq<Byte>, start: nat, k: nat, count: nat, types: seq<nat>, offset: nat)
    requires k < count && SerialTypesFit(s, start, count)
    requires ScanTypes(s, start, k) == Some(TypeScan(types, offset))
    ensures offset <= |s| && Varint.Fits(s[offset..])
  {
    ScanTypesPrefix(s, start, k + 1, count);
    ScanTypesStep(s, start, k, types, offset);
  }

  /** The varint read there is the next serial type. */
  lemma ScanTypesNext(s: seq<Byte>, start: nat, k: nat, count: nat, types: seq<nat>, offset: nat,
                      serialType: nat, read: nat)
    requires k < count && SerialTypesFit(s, start, count)
    requires ScanTypes(s, start, k) == Some(TypeScan(types, offset))
    requires offset <= |s| && Varint.Fits(s[offset..]) && Varint.Parse(s[offset..]) == (serialType, read)
    ensures ScanTypes(s, start, k + 1) == Some(TypeScan(types + [serialType], offset + read))
  {
    ScanTypesPrefix(s, start, k + 1, count);
    ScanTypesStep(s, start, k, types, offset);
  }

  /** The first loop of `parse_record`: reads `count` serial-type varints
      from `offset` on. */
  method ReadSerialTypes(s: seq<Byte>, start: nat, count: nat) returns (serialTypes: seq<nat>)
    requires SerialTypesFit(s, start, count)
    ensures serialTypes == SerialTypes(s, start, count)
  {
    var offset: nat := start;
    serialTypes := [];
    var k := 0;
    while k < count
      invariant k <= count && ScanTypes(s, start, k) == Some(TypeScan(serialTypes, offset))
    {
      ScanTypesFits(s, start, k, count, serialTypes, offset);
      var (varint, read) := Varint.Parse(s[offset..]);
      ScanTypesNext(s, start, k, count, serialTypes, offset, varint, read);
      offset := offset + read;
      serialTypes := serialTypes + [varint];
      k := k + 1;
    }
  }

  /** The value at `off` lies inside the buffer. */
  lemma ColumnFits(s: seq<Byte>, off: nat, types: seq<nat>, i: nat)
    requires i < |types| && ColumnsFit(s, off, types[i..])
    ensures off + ValueSize(types[i]) <= |s|
  {
    assert types[i..][0] == types[i];
  }

  /** One turn of the loop of `ReadValues`: the value at `off` is refused and
      ends the decoding, or is accepted and joins the decoded prefix. */
  lemma ReadValuesStep(s: seq<Byte>, start: nat, types: seq<nat>, i: nat, off: nat,
                       record: seq<ColumnValue>, parsed: Result<ColumnValue>)
    requires i < |types| && ColumnsFit(s, off, types[i..])
    requires ColumnsFit(s, start, types)
    requires DecodeColumns(s, start, types) == Prepend(record, DecodeColumns(s, off, types[i..]))
    requires off + ValueSize(types[i]) <= |s| && parsed == ParseColumnValue(s[off..], types[i])
    ensures parsed.Err? ==> DecodeColumns(s, start, types) == Err(parsed.error)
    ensures parsed.Ok? ==>
      ColumnsFit(s, off + Length(parsed.value), types[i + 1..]) &&
      DecodeColumns(s, start, types) ==
        Prepend(record + [parsed.value], DecodeColumns(s, off + Length(parsed.value), types[i + 1..]))
  {
    DecodeColumnsAt(s, off, types, i);
    if parsed.Ok? {
      PrependTwice(record, [parsed.value], DecodeColumns(s, off + Length(parsed.value), types[i + 1..]));
    }
  }

  /** The second loop of `parse_record`: decodes one value per serial type
      from `start` on, advancing by each value's length; the first refused
      serial type ends it with an error. */
  method ReadValues(s: seq<Byte>, start: nat, serialTypes: seq<nat>) returns (r: Result<seq<ColumnValue>>)
    requires ColumnsFit(s, start, serialTypes)
    ensures r == DecodeColumns(s, start, serialTypes)
  {
    var offset: nat := start;
    var record: seq<ColumnValue> := [];
    assert serialTypes[0..] == serialTypes;
    PrependNothing(DecodeColumns(s, start, serialTypes));
    var i := 0;
    while i < |serialTypes|
      invariant i <= |serialTypes|
      invariant ColumnsFit(s, offset, serialTypes[i..])
      invariant DecodeColumns(s, start, serialTypes) ==
        Prepend(record, DecodeColumns(s, offset, serialTypes[i..]))
    {
      ColumnFits(s, offset, serialTypes, i);
      var parsed := ParseColumnValue(s[offset..], serialTypes[i]);
      ReadValuesStep(s, start, serialTypes, i, offset, record, parsed);
      if parsed.Err? {
        return Err(parsed.error);
      }
      var column := parsed.value;
      offset := offset + Length(column);
      record := record + [column];
      i := i + 1;
    }
    assert record + [] == record;
    r := Ok(record);
  }

  /** `parse_record`: reads the header-size varint, then `columnCount`
      serial-type varints right after it, then the values from the header
      size on. */
  method ParseRecord(s: seq<Byte>, columnCount: nat) returns (r: Result<seq<ColumnValue>>)
    requires RecordFits(s, columnCount)
    ensures r == DecodeRecord(s, columnCount)
  {
    var (headerSize, read) := Varint.Parse(s);
    var serialTypes := ReadSerialTypes(s, read, columnCount);
    r := ReadValues(s, headerSize, serialTypes);
  }
}
