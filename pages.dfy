/** The walk over a table B-tree that `parse_page` in src/main.rs performs:
    an interior-table page contributes the rows of each left child, in
    cell-pointer order, and then those of its right-most child; a leaf-table
    page contributes one `(rowid, record)` pair per cell.

    The source panics on a slice past the end of the database, on a page
    number of 0 and on `todo!()` for index pages, and `unwrap`s the errors of
    the header and record decoders; every such end of the run is an `Err`
    here.  The recursion carries a depth bound (`fuel`): a file whose pages
    point back at each other makes the source recurse without end, and the
    bound turns that into `DepthExhausted`.
 */
module Pages {
  import opened Bytes
  import opened Failures
  import opened Record
  import Header
  import Varint

  function Min(a: nat, b: nat): nat {
    if a <= b then a else b
  }

  /** `s[start..].chunks_exact(2).take(count)`, each chunk read as a big-endian
      u16: the cell-pointer array.  An odd byte left at the end is dropped, and
      a buffer that ends early yields fewer than `count` pointers. */
  function CellPointers(s: seq<Byte>, start: nat, count: nat): (r: seq<Uint16>)
    requires start <= |s|
    ensures |r| == Min(count, (|s| - start) / 2)
    decreases count
  {
    if count == 0 || |s| - start < 2 then []
    else [U16At(s, start)] + CellPointers(s, start + 2, count - 1)
  }

  /** Pointer i is the big-endian u16 at `start + 2 * i`. */
  lemma {:induction false} CellPointerAt(s: seq<Byte>, start: nat, count: nat, i: nat)
    requires start <= |s| && i < |CellPointers(s, start, count)|
    ensures start + 2 * i + 2 <= |s|
    ensures CellPointers(s, start, count)[i] == BigEndian(s[start + 2 * i..start + 2 * i + 2])
    decreases i
  {
    if i > 0 {
      CellPointerAt(s, start + 2, count - 1, i - 1);
    }
  }

  /** Where page `page` (numbered from 1) starts: `page_size * (page - 1)`.
      Page 0 makes the subtraction underflow. */
  function PageOffset(pageSize: Uint16, page: Uint32): (r: Result<nat>)
    ensures r.Err? <==> page == 0
    ensures r.Err? ==> r.error == PageNumberZero
    ensures r.Ok? ==> r.value + pageSize == pageSize * page
  {
    if page == 0 then Err(PageNumberZero)
    else
      MultiplyNext(pageSize, page - 1);
      Ok(pageSize * (page - 1))
  }

  /** Pages follow one another without overlapping: page p ends where or
      before page q starts whenever p < q. */
  lemma PagesDoNotOverlap(pageSize: Uint16, p: Uint32, q: Uint32)
    requires 0 < p < q
    ensures PageOffset(pageSize, p).value + pageSize <= PageOffset(pageSize, q).value
  {
    MultiplyMonotone(pageSize, p, q - 1);
  }

  lemma MultiplyNext(a: nat, b: nat)
    ensures a * b >= 0 && a * b + a == a * (b + 1)
  {
  }

  lemma MultiplyMonotone(a: nat, b: nat, c: nat)
    requires b <= c
    ensures a * b <= a * c
  {
  }

  /** One produced row: the rowid and the record's values. */
  datatype Row = Row(rowid: Uint64, values: seq<ColumnValue>)

  /** The bytes of the leaf cell at `pointer`: the payload-size varint, the
      rowid varint and exactly `total` payload bytes, or `None` when they run
      past the end of the database. */
  function LeafPayload(db: seq<Byte>, pageOffset: nat, pointer: Uint16): (r: Option<(Uint64, seq<Byte>)>)
  {
    var start := pageOffset + pointer;
    if start > |db| || !Varint.Fits(db[start..]) then None
    else
      var stream := db[start..];
      var (total, offset) := Varint.Parse(stream);
      if !Varint.Fits(stream[offset..]) then None
      else
        var (rowid, read) := Varint.Parse(stream[offset..]);
        if offset + read + total > |stream| then None
        else Some((rowid, stream[offset + read..offset + read + total]))
  }

  /** One cell of a leaf-table page (the closure of src/main.rs:178-191): the
      rowid and the record decoded from the payload with `columnCount`
      columns. */
  function LeafCell(db: seq<Byte>, pageOffset: nat, pointer: Uint16, columnCount: nat): (r: Result<Row>)
    ensures r.Ok? ==> |r.value.values| == columnCount
  {
    match LeafPayload(db, pageOffset, pointer)
    case None => Err(OutOfBounds)
    case Some((rowid, payload)) =>
      if !RecordFits(payload, columnCount) then Err(OutOfBounds)
      else
        var values :- DecodeRecord(payload, columnCount);
        Ok(Row(rowid, values))
  }

  /** A cell made of a payload-size varint, a rowid varint, the payload and
      anything after it is read back as that rowid and exactly that payload. */
  lemma LeafPayloadOfCell(db: seq<Byte>, pageOffset: nat, pointer: Uint16,
                           size: seq<Byte>, id: seq<Byte>, payload: seq<Byte>, rest: seq<Byte>)
    requires Varint.Fits(size) && Varint.Parse(size) == (|payload|, |size|)
    requires Varint.Fits(id) && Varint.Parse(id).1 == |id|
    requires pageOffset + pointer <= |db|
    requires db[pageOffset + pointer..] == size + id + payload + rest
    ensures LeafPayload(db, pageOffset, pointer) == Some((Varint.Parse(id).0, payload))
  {
    var stream := db[pageOffset + pointer..];
    assert stream == size + (id + payload + rest);
    Varint.ParseOnPrefix(size, id + payload + rest);
    assert stream[|size|..] == id + (payload + rest);
    Varint.ParseOnPrefix(id, payload + rest);
    assert stream[|size| + |id|..|size| + |id| + |payload|] == payload;
    LeafPayloadFrom(db, pageOffset, pointer, |size|, |id|);
  }

  /** A cell laid down as the format does it (payload size, rowid, payload)
      is read back as that rowid and the payload's record. */
  lemma LeafCellOfEncoding(db: seq<Byte>, pageOffset: nat, pointer: Uint16, rowid: Uint64,
                            payload: seq<Byte>, rest: seq<Byte>, columnCount: nat)
    requires |payload| < 0x1_0000_0000_0000_0000
    requires pageOffset + pointer <= |db|
    requires db[pageOffset + pointer..] == Varint.Encode(|payload|) + Varint.Encode(rowid) + payload + rest
    ensures LeafPayload(db, pageOffset, pointer) == Some((rowid, payload))
    ensures RecordFits(payload, columnCount) ==>
      LeafCell(db, pageOffset, pointer, columnCount) ==
        match DecodeRecord(payload, columnCount)
        case Ok(values) => Ok(Row(rowid, values))
        case Err(e) => Err(e)
  {
    Varint.RoundTrip(|payload|);
    Varint.RoundTrip(rowid);
    LeafPayloadOfCell(db, pageOffset, pointer, Varint.Encode(|payload|), Varint.Encode(rowid), payload, rest);
  }

  /** `LeafPayload` once the two varints of the cell are known. */
  lemma LeafPayloadFrom(db: seq<Byte>, pageOffset: nat, pointer: Uint16, offset: nat, read: nat)
    requires pageOffset + pointer <= |db|
    requires var stream := db[pageOffset + pointer..];
      Varint.Fits(stream) && Varint.Parse(stream).1 == offset &&
      Varint.Fits(stream[offset..]) && Varint.Parse(stream[offset..]).1 == read &&
      offset + read + Varint.Parse(stream).0 <= |stream|
    ensures var stream := db[pageOffset + pointer..];
      LeafPayload(db, pageOffset, pointer) ==
        Some((Varint.Parse(stream[offset..]).0,
              stream[offset + read..offset + read + Varint.Parse(stream).0]))
  {
  }

  // ---------------------------------------------------------------------
  // Gathering rows: the first failure, or everything in order

  /** The first failure of two computations run one after the other, or both
      results joined. */
  function Then(a: Result<seq<Row>>, b: Result<seq<Row>>): (r: Result<seq<Row>>)
    ensures r.Ok? <==> a.Ok? && b.Ok?
    ensures r.Ok? ==> r.value == a.value + b.value
    ensures a.Err? ==> r == Err(a.error)
    ensures a.Ok? && b.Err? ==> r == Err(b.error)
  {
    match a
    case Err(e) => Err(e)
    case Ok(x) =>
      match b
      case Err(e) => Err(e)
      case Ok(y) => Ok(x + y)
  }

  /** The rows of several cells, in order, or the first cell's failure: what
      draining the source's chained iterators yields before the first panic. */
  function Collect(results: seq<Result<seq<Row>>>): (r: Result<seq<Row>>)
    decreases |results|
  {
    if results == [] then Ok([]) else Then(results[0], Collect(results[1..]))
  }

  lemma {:induction false} CollectAppend(a: seq<Result<seq<Row>>>, b: seq<Result<seq<Row>>>)
    ensures Collect(a + b) == Then(Collect(a), Collect(b))
    decreases |a|
  {
    if a == [] {
      assert a + b == b;
      if Collect(b).Ok? {
        assert [] + Collect(b).value == Collect(b).value;
      }
    } else {
      assert (a + b)[0] == a[0];
      assert (a + b)[1..] == a[1..] + b;
      CollectAppend(a[1..], b);
      ThenAssociative(a[0], Collect(a[1..]), Collect(b));
    }
  }

  lemma ThenAssociative(a: Result<seq<Row>>, b: Result<seq<Row>>, c: Result<seq<Row>>)
    ensures Then(a, Then(b, c)) == Then(Then(a, b), c)
  {
    if a.Ok? && b.Ok? && c.Ok? {
      assert a.value + (b.value + c.value) == (a.value + b.value) + c.value;
    }
  }

  /** Two joins agree when their parts agree wherever the first join's parts
      did not run out of depth, unless that join did. */
  lemma ThenAgree(a: Result<seq<Row>>, b: Result<seq<Row>>, a2: Result<seq<Row>>, b2: Result<seq<Row>>)
    requires Then(a, b) != Err(DepthExhausted)
    requires a != Err(DepthExhausted) ==> a2 == a
    requires b != Err(DepthExhausted) ==> b2 == b
    ensures Then(a2, b2) == Then(a, b)
  {
  }

  /** Children followed by a right-most subtree agree when their parts do. */
  lemma JoinAgree(a: seq<Result<seq<Row>>>, b: seq<Result<seq<Row>>>, r: Result<seq<Row>>, r2: Result<seq<Row>>)
    requires AgreeUnlessExhausted(a, b)
    requires Then(Collect(a), r) != Err(DepthExhausted)
    requires r != Err(DepthExhausted) ==> r2 == r
    ensures Then(Collect(b), r2) == Then(Collect(a), r)
  {
    CollectAgree(a, b);
    ThenAgree(Collect(a), r, Collect(b), r2);
  }

  /** `Collect` succeeds exactly when every cell does; otherwise its error is
      that of the first cell that fails. */
  lemma {:induction false} CollectSucceeds(a: seq<Result<seq<Row>>>)
    ensures Collect(a).Ok? <==> forall i :: 0 <= i < |a| ==> a[i].Ok?
    ensures Collect(a).Err? ==>
      exists i :: 0 <= i < |a| && a[i].Err? && Collect(a).error == a[i].error &&
        forall j :: 0 <= j < i ==> a[j].Ok?
    decreases |a|
  {
    if a != [] {
      var tail := a[1..];
      CollectSucceeds(tail);
      assert forall i :: 1 <= i < |a| ==> a[i] == tail[i - 1];
      if a[0].Ok? && Collect(tail).Err? {
        var k :| 0 <= k < |tail| && tail[k].Err? && Collect(tail).error == tail[k].error &&
          forall j :: 0 <= j < k ==> tail[j].Ok?;
        assert a[k + 1] == tail[k];
        forall j | 0 <= j < k + 1
          ensures a[j].Ok?
        {
          if j > 0 {
            assert a[j] == tail[j - 1];
          }
        }
      }
    }
  }

  /** Cells that each give one row give one row apiece, in order. */
  lemma {:induction false} CollectSingletons(a: seq<Result<seq<Row>>>)
    requires forall i :: 0 <= i < |a| ==> a[i].Ok? && |a[i].value| == 1
    ensures Collect(a).Ok? && |Collect(a).value| == |a|
    ensures forall i :: 0 <= i < |a| ==> Collect(a).value[i] == a[i].value[0]
    decreases |a|
  {
    if a != [] {
      var tail := a[1..];
      assert forall i :: 0 <= i < |tail| ==> tail[i] == a[i + 1];
      CollectSingletons(tail);
      forall i | 0 <= i < |a|
        ensures Collect(a).value[i] == a[i].value[0]
      {
        if i > 0 {
          assert a[i] == tail[i - 1];
        }
      }
    }
  }

  /** Every row has `columnCount` values: `column_map.len()` fixes how many
      columns each record is decoded into. */
  predicate HasWidth(rows: seq<Row>, columnCount: nat) {
    forall i :: 0 <= i < |rows| ==> |rows[i].values| == columnCount
  }

  lemma WidthAppend(a: seq<Row>, b: seq<Row>, columnCount: nat)
    requires HasWidth(a, columnCount) && HasWidth(b, columnCount)
    ensures HasWidth(a + b, columnCount)
  {
    assert forall i :: |a| <= i < |a + b| ==> (a + b)[i] == b[i - |a|];
  }

  lemma {:induction false} CollectWidth(a: seq<Result<seq<Row>>>, columnCount: nat)
    requires Collect(a).Ok?
    requires forall i :: 0 <= i < |a| && a[i].Ok? ==> HasWidth(a[i].value, columnCount)
    ensures HasWidth(Collect(a).value, columnCount)
    decreases |a|
  {
    if a != [] {
      var tail := a[1..];
      assert forall i :: 0 <= i < |tail| ==> tail[i] == a[i + 1];
      CollectWidth(tail, columnCount);
    }
  }

  /** b agrees with a wherever a's cell did not run out of depth. */
  predicate AgreeUnlessExhausted(a: seq<Result<seq<Row>>>, b: seq<Result<seq<Row>>>) {
    |a| == |b| && forall i :: 0 <= i < |a| && a[i] != Err(DepthExhausted) ==> b[i] == a[i]
  }

  /** Two lists of cells that agree wherever the first one's cell did not run
      out of depth give the same result, unless the first one's result did. */
  lemma {:induction false} CollectAgree(a: seq<Result<seq<Row>>>, b: seq<Result<seq<Row>>>)
    requires AgreeUnlessExhausted(a, b) && Collect(a) != Err(DepthExhausted)
    ensures Collect(b) == Collect(a)
    decreases |a|
  {
    if a != [] {
      assert b[0] == a[0];
      if a[0].Ok? {
        assert forall i :: 0 <= i < |a| - 1 ==> a[1..][i] == a[i + 1] && b[1..][i] == b[i + 1];
        CollectAgree(a[1..], b[1..]);
      }
    }
  }

  // ---------------------------------------------------------------------
  // The walk

  /** A decoded cell as a one-row result. */
  function OneRow(r: Result<Row>): (rows: Result<seq<Row>>)
    ensures rows.Ok? <==> r.Ok?
    ensures rows.Ok? ==> rows.value == [r.value]
    ensures rows.Err? ==> rows.error == r.error
  {
    match r
    case Ok(row) => Ok([row])
    case Err(e) => Err(e)
  }

  /** Decoded cells as one-row results. */
  function RowsOf(cells: seq<Result<Row>>): (r: seq<Result<seq<Row>>>)
    ensures |r| == |cells|
  {
    seq(|cells|, i requires 0 <= i < |cells| => OneRow(cells[i]))
  }

  /** The rows of decoded cells: one per cell, in order, when every cell
      decoded; otherwise the first failing cell's error. */
  lemma CollectRows(cells: seq<Result<Row>>)
    ensures var r := Collect(RowsOf(cells));
      (r.Ok? <==> forall i :: 0 <= i < |cells| ==> cells[i].Ok?) &&
      (r.Ok? ==> |r.value| == |cells| && forall i :: 0 <= i < |cells| ==> cells[i] == Ok(r.value[i])) &&
      (r.Err? ==> exists i :: 0 <= i < |cells| && cells[i].Err? && r.error == cells[i].error &&
                             forall j :: 0 <= j < i ==> cells[j].Ok?)
  {
    var a := RowsOf(cells);
    assert forall i :: 0 <= i < |a| ==> a[i] == OneRow(cells[i]);
    CollectSucceeds(a);
    if Collect(a).Ok? {
      CollectSingletons(a);
    } else {
      var k :| 0 <= k < |a| && a[k].Err? && Collect(a).error == a[k].error &&
        forall j :: 0 <= j < k ==> a[j].Ok?;
      assert cells[k].Err? && Collect(a).error == cells[k].error;
    }
  }

  /** The decoded cells of a leaf-table page, one per cell pointer. */
  function LeafCells(db: seq<Byte>, pageOffset: nat, pointers: seq<Uint16>, columnCount: nat): (r: seq<Result<Row>>)
    ensures |r| == |pointers|
    ensures forall i :: 0 <= i < |r| && r[i].Ok? ==> |r[i].value.values| == columnCount
  {
    seq(|pointers|, i requires 0 <= i < |pointers| => LeafCell(db, pageOffset, pointers[i], columnCount))
  }

  /** The header of the page at `pageOffset` and its cell pointers, read from
      a 12-byte window whatever the page type (src/main.rs:130-136). */
  function ReadPage(db: seq<Byte>, pageOffset: nat): (r: Result<(Header.PageHeader, seq<Uint16>)>)
    ensures r.Ok? ==> pageOffset + 12 <= |db|
  {
    if pageOffset + 12 > |db| then Err(OutOfBounds)
    else
      var parsed :- Header.Parse(db[pageOffset..pageOffset + 12]);
      var (read, header) := parsed;
      Ok((header, CellPointers(db, pageOffset + read, header.numberOfCells)))
  }

  /** `parse_page`: the rows of the table B-tree whose root page starts at
      `pageOffset`. */
  function ParsePage(db: seq<Byte>, pageSize: Uint16, columnCount: nat, pageOffset: nat, fuel: nat): (r: Result<seq<Row>>)
    ensures r.Ok? ==> HasWidth(r.value, columnCount)
    decreases fuel, 0
  {
    var page :- ReadPage(db, pageOffset);
    var (header, pointers) := page;
    match header.pageType
    case InteriorIndex => Err(Unimplemented)
    case LeafIndex => Err(Unimplemented)
    case LeafTable =>
      var cells := LeafCells(db, pageOffset, pointers, columnCount);
      CollectRows(cells);
      Collect(RowsOf(cells))
    case InteriorTable =>
      if fuel == 0 then Err(DepthExhausted)
      else InteriorRows(db, pageSize, columnCount, pageOffset, pointers, header.rightMostPointer.value, fuel - 1)
  }

  /** An interior page's rows: those of the children its cell pointers name,
      in order, and then those of its right-most child
      (src/main.rs:141-174). */
  function InteriorRows(db: seq<Byte>, pageSize: Uint16, columnCount: nat, pageOffset: nat,
                        pointers: seq<Uint16>, rightMost: Uint32, fuel: nat): (r: Result<seq<Row>>)
    ensures r.Ok? ==> HasWidth(r.value, columnCount)
    decreases fuel, 4
  {
    var children := ChildResults(db, pageSize, columnCount, pageOffset, pointers, fuel);
    var right := SubtreeRows(db, pageSize, columnCount, rightMost, fuel);
    if Collect(children).Ok? && right.Ok? then
      CollectWidth(children, columnCount);
      WidthAppend(Collect(children).value, right.value, columnCount);
      Then(Collect(children), right)
    else Then(Collect(children), right)
  }

  /** The rows of the subtree rooted at page number `page` (numbered from 1). */
  function SubtreeRows(db: seq<Byte>, pageSize: Uint16, columnCount: nat, page: Uint32, fuel: nat): (r: Result<seq<Row>>)
    ensures r.Ok? ==> HasWidth(r.value, columnCount)
    decreases fuel, 1
  {
    var offset :- PageOffset(pageSize, page);
    ParsePage(db, pageSize, columnCount, offset, fuel)
  }

  /** The rows of the child one interior cell names (src/main.rs:144-155): the
      big-endian left-child page number comes first and a rowid varint after
      it, which is read and then ignored. */
  function ChildRows(db: seq<Byte>, pageSize: Uint16, columnCount: nat, pageOffset: nat,
                     pointer: Uint16, fuel: nat): (r: Result<seq<Row>>)
    ensures r.Ok? ==> HasWidth(r.value, columnCount)
    decreases fuel, 2
  {
    var start := pageOffset + pointer;
    if start + 4 > |db| || !Varint.Fits(db[start + 4..]) then Err(OutOfBounds)
    else SubtreeRows(db, pageSize, columnCount, U32At(db, start), fuel)
  }

  /** The per-cell results of an interior page, one child per cell pointer
      (the `map`/`flatten` of src/main.rs:141-158). */
  function ChildResults(db: seq<Byte>, pageSize: Uint16, columnCount: nat, pageOffset: nat,
                        pointers: seq<Uint16>, fuel: nat): (r: seq<Result<seq<Row>>>)
    ensures |r| == |pointers|
    ensures forall i :: 0 <= i < |r| && r[i].Ok? ==> HasWidth(r[i].value, columnCount)
    decreases fuel, 3
  {
    seq(|pointers|, i requires 0 <= i < |pointers| => ChildRows(db, pageSize, columnCount, pageOffset, pointers[i], fuel))
  }

  lemma ChildResultsAt(db: seq<Byte>, pageSize: Uint16, columnCount: nat, pageOffset: nat,
                       pointers: seq<Uint16>, fuel: nat, i: nat)
    requires i < |pointers|
    ensures ChildResults(db, pageSize, columnCount, pageOffset, pointers, fuel)[i] ==
      ChildRows(db, pageSize, columnCount, pageOffset, pointers[i], fuel)
  {
  }

  // ---------------------------------------------------------------------
  // What the walk produces

  /** A leaf-table page (tag 13) yields its cells' rows, read through the cell
      pointers that follow its 8-byte header; the depth bound plays no part. */
  lemma LeafPage(db: seq<Byte>, pageSize: Uint16, columnCount: nat, pageOffset: nat, fuel: nat)
    requires pageOffset + 12 <= |db| && db[pageOffset] == 13
    ensures ParsePage(db, pageSize, columnCount, pageOffset, fuel) ==
      Collect(RowsOf(LeafCells(db, pageOffset, CellPointers(db, pageOffset + 8, U16At(db, pageOffset + 3)), columnCount)))
  {
    WindowFields(db, pageOffset);
  }

  /** An interior-table page (tag 5) yields the rows of the children its
      cell pointers name, which follow its 12-byte header, and then those of
      the child that bytes 8 to 11 name. */
  lemma InteriorPage(db: seq<Byte>, pageSize: Uint16, columnCount: nat, pageOffset: nat, fuel: nat)
    requires pageOffset + 12 <= |db| && db[pageOffset] == 5 && fuel > 0
    ensures ParsePage(db, pageSize, columnCount, pageOffset, fuel) ==
      InteriorRows(db, pageSize, columnCount, pageOffset,
                   CellPointers(db, pageOffset + 12, U16At(db, pageOffset + 3)), U32At(db, pageOffset + 8), fuel - 1)
  {
    WindowFields(db, pageOffset);
  }

  /** The header window's fields are the database's own bytes. */
  lemma WindowFields(db: seq<Byte>, pageOffset: nat)
    requires pageOffset + 12 <= |db|
    ensures var s := db[pageOffset..pageOffset + 12];
      s[0] == db[pageOffset] &&
      BigEndian(s[3..5]) == U16At(db, pageOffset + 3) &&
      BigEndian(s[8..12]) == U32At(db, pageOffset + 8)
  {
    SliceOfSlice(db, pageOffset, pageOffset + 12, 3, 5);
    SliceOfSlice(db, pageOffset, pageOffset + 12, 8, 12);
  }

  /** Index pages are not walked, and any other tag is rejected. */
  lemma OtherPages(db: seq<Byte>, pageSize: Uint16, columnCount: nat, pageOffset: nat, fuel: nat)
    requires pageOffset + 12 <= |db| && db[pageOffset] != 5 && db[pageOffset] != 13
    ensures db[pageOffset] == 2 || db[pageOffset] == 10 ==>
      ParsePage(db, pageSize, columnCount, pageOffset, fuel) == Err(Unimplemented)
    ensures db[pageOffset] != 2 && db[pageOffset] != 10 ==>
      ParsePage(db, pageSize, columnCount, pageOffset, fuel) == Err(InvalidPageType(db[pageOffset]))
  {
    WindowFields(db, pageOffset);
  }

  /** Children are visited in cell-pointer order: the rows of a list of
      children are those of its first part followed by those of the rest. */
  lemma ChildrenInOrder(db: seq<Byte>, pageSize: Uint16, columnCount: nat, pageOffset: nat,
                        p: seq<Uint16>, q: seq<Uint16>, fuel: nat)
    ensures Collect(ChildResults(db, pageSize, columnCount, pageOffset, p + q, fuel)) ==
      Then(Collect(ChildResults(db, pageSize, columnCount, pageOffset, p, fuel)),
           Collect(ChildResults(db, pageSize, columnCount, pageOffset, q, fuel)))
  {
    var a := ChildResults(db, pageSize, columnCount, pageOffset, p, fuel);
    var b := ChildResults(db, pageSize, columnCount, pageOffset, q, fuel);
    assert ChildResults(db, pageSize, columnCount, pageOffset, p + q, fuel) == a + b;
    CollectAppend(a, b);
  }

  /** A walk that did not run out of depth gives the same result with any
      larger bound: the bound only cuts off trees deeper than it. */
  lemma {:induction false} ParsePageFuel(db: seq<Byte>, pageSize: Uint16, columnCount: nat, pageOffset: nat,
                                          fuel: nat, more: nat)
    requires fuel <= more
    requires ParsePage(db, pageSize, columnCount, pageOffset, fuel) != Err(DepthExhausted)
    ensures ParsePage(db, pageSize, columnCount, pageOffset, more) ==
      ParsePage(db, pageSize, columnCount, pageOffset, fuel)
    decreases fuel, 1
  {
    var page := ReadPage(db, pageOffset);
    if page.Ok? && page.value.0.pageType.InteriorTable? {
      var (header, pointers) := page.value;
      InteriorFuel(db, pageSize, columnCount, pageOffset, pointers, header.rightMostPointer.value, fuel - 1, more - 1);
    }
  }

  /** The interior case: the children and the right-most subtree agree. */
  lemma {:induction false} InteriorFuel(db: seq<Byte>, pageSize: Uint16, columnCount: nat, pageOffset: nat,
                                         pointers: seq<Uint16>, rightMost: Uint32, fuel: nat, more: nat)
    requires fuel <= more
    requires InteriorRows(db, pageSize, columnCount, pageOffset, pointers, rightMost, fuel) != Err(DepthExhausted)
    ensures InteriorRows(db, pageSize, columnCount, pageOffset, pointers, rightMost, more) ==
      InteriorRows(db, pageSize, columnCount, pageOffset, pointers, rightMost, fuel)
    decreases fuel, 5
  {
    var a := ChildResults(db, pageSize, columnCount, pageOffset, pointers, fuel);
    var b := ChildResults(db, pageSize, columnCount, pageOffset, pointers, more);
    ChildResultsFuel(db, pageSize, columnCount, pageOffset, pointers, fuel, more);
    SubtreeRowsFuel(db, pageSize, columnCount, rightMost, fuel, more);
    JoinAgree(a, b, SubtreeRows(db, pageSize, columnCount, rightMost, fuel),
              SubtreeRows(db, pageSize, columnCount, rightMost, more));
  }

  lemma {:induction false} SubtreeRowsFuel(db: seq<Byte>, pageSize: Uint16, columnCount: nat, page: Uint32,
                                            fuel: nat, more: nat)
    requires fuel <= more
    ensures SubtreeRows(db, pageSize, columnCount, page, fuel) != Err(DepthExhausted) ==>
      SubtreeRows(db, pageSize, columnCount, page, more) == SubtreeRows(db, pageSize, columnCount, page, fuel)
    decreases fuel, 2
  {
    var offset := PageOffset(pageSize, page);
    if offset.Ok? && ParsePage(db, pageSize, columnCount, offset.value, fuel) != Err(DepthExhausted) {
      ParsePageFuel(db, pageSize, columnCount, offset.value, fuel, more);
    }
  }

  lemma {:induction false} ChildRowsFuel(db: seq<Byte>, pageSize: Uint16, columnCount: nat, pageOffset: nat,
                                          pointer: Uint16, fuel: nat, more: nat)
    requires fuel <= more
    requires ChildRows(db, pageSize, columnCount, pageOffset, pointer, fuel) != Err(DepthExhausted)
    ensures ChildRows(db, pageSize, columnCount, pageOffset, pointer, more) ==
      ChildRows(db, pageSize, columnCount, pageOffset, pointer, fuel)
    decreases fuel, 3
  {
    var start := pageOffset + pointer;
    if !(start + 4 > |db| || !Varint.Fits(db[start + 4..])) {
      SubtreeRowsFuel(db, pageSize, columnCount, U32At(db, start), fuel, more);
    }
  }

  lemma {:induction false} ChildResultsFuel(db: seq<Byte>, pageSize: Uint16, columnCount: nat, pageOffset: nat,
                                             pointers: seq<Uint16>, fuel: nat, more: nat)
    requires fuel <= more
    ensures var a := ChildResults(db, pageSize, columnCount, pageOffset, pointers, fuel);
      var b := ChildResults(db, pageSize, columnCount, pageOffset, pointers, more);
      AgreeUnlessExhausted(a, b)
    decreases fuel, 4
  {
    var a := ChildResults(db, pageSize, columnCount, pageOffset, pointers, fuel);
    var b := ChildResults(db, pageSize, columnCount, pageOffset, pointers, more);
    forall i | 0 <= i < |a| && a[i] != Err(DepthExhausted)
      ensures b[i] == a[i]
    {
      ChildResultsAt(db, pageSize, columnCount, pageOffset, pointers, fuel, i);
      ChildResultsAt(db, pageSize, columnCount, pageOffset, pointers, more, i);
      ChildRowsFuel(db, pageSize, columnCount, pageOffset, pointers[i], fuel, more);
    }
  }
}
