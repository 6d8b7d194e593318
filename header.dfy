/** The B-tree page header of the SQLite file format (section 1.6, "B-tree
    Pages"): a type tag, three big-endian 16-bit fields, a byte of
    fragmented free space and, on interior pages only, the big-endian page
    number of the right-most child.  Models src/header.rs.
 */
module Header {
  import opened Bytes
  import opened Failures

  /** `BTreePage`: the four kinds of B-tree page. */
  datatype BTreePage = InteriorIndex | InteriorTable | LeafIndex | LeafTable

  /** The tag byte that stands for each kind (the enum's discriminants). */
  function Tag(p: BTreePage): (r: Byte)
    ensures r == 2 || r == 5 || r == 10 || r == 13
  {
    match p
    case InteriorIndex => 2
    case InteriorTable => 5
    case LeafIndex => 10
    case LeafTable => 13
  }

  /** The `match stream[0]` of `PageHeader::parse`: the kind a tag byte names,
      if any. */
  function PageTypeOf(tag: Byte): (r: Option<BTreePage>)
    ensures r.Some? <==> tag == 2 || tag == 5 || tag == 10 || tag == 13
    ensures r.Some? ==> Tag(r.value) == tag
  {
    if tag == 2 then Some(InteriorIndex)
    else if tag == 5 then Some(InteriorTable)
    else if tag == 10 then Some(LeafIndex)
    else if tag == 13 then Some(LeafTable)
    else None
  }

  /** Every kind is recognised from its own tag, so the tags are distinct. */
  lemma TagRoundTrip(p: BTreePage)
    ensures PageTypeOf(Tag(p)) == Some(p)
  {
  }

  predicate IsInterior(p: BTreePage) {
    p.InteriorIndex? || p.InteriorTable?
  }

  /** The length of the header of a page of kind p. */
  function HeaderLength(p: BTreePage): (n: nat)
    ensures n == 8 || n == 12
  {
    if IsInterior(p) then 12 else 8
  }

  /** `PageHeader`. */
  datatype PageHeader = PageHeader(
    pageType: BTreePage,
    firstFreeBlockStart: Uint16,
    numberOfCells: Uint16,
    startOfContentArea: Uint16,
    fragmentedFreeBytes: Byte,
    rightMostPointer: Option<Uint32>)

  /** The buffer holds what `PageHeader::parse` reads: the tag byte, and for a
      recognised tag the whole header.  Otherwise the source indexes past the
      end of the buffer. */
  predicate Readable(s: seq<Byte>) {
    |s| >= 1 && (PageTypeOf(s[0]).Some? ==> HeaderLength(PageTypeOf(s[0]).value) <= |s|)
  }

  /** `PageHeader::parse`: the header's length and its fields. */
  function Parse(s: seq<Byte>): (r: Result<(nat, PageHeader)>)
    requires Readable(s)
    ensures r.Ok? <==> s[0] == 2 || s[0] == 5 || s[0] == 10 || s[0] == 13
    ensures r.Err? ==> r.error == InvalidPageType(s[0])
    ensures r.Ok? ==>
      var (length, h) := r.value;
      Tag(h.pageType) == s[0] &&
      length == HeaderLength(h.pageType) && length <= |s| &&
      h.firstFreeBlockStart == BigEndian(s[1..3]) &&
      h.numberOfCells == BigEndian(s[3..5]) &&
      h.startOfContentArea == BigEndian(s[5..7]) &&
      h.fragmentedFreeBytes == s[7] &&
      (h.rightMostPointer.Some? <==> IsInterior(h.pageType)) &&
      (h.rightMostPointer.Some? ==> h.rightMostPointer.value == BigEndian(s[8..12]))
  {
    match PageTypeOf(s[0])
    case None => Err(InvalidPageType(s[0]))
    case Some(pageType) =>
      var firstFreeBlockStart := U16At(s, 1);
      var numberOfCells := U16At(s, 3);
      var startOfContentArea := U16At(s, 5);
      var fragmentedFreeBytes := s[7];
      if IsInterior(pageType) then
        Ok((12, PageHeader(pageType, firstFreeBlockStart, numberOfCells, startOfContentArea,
                           fragmentedFreeBytes, Some(U32At(s, 8)))))
      else
        Ok((8, PageHeader(pageType, firstFreeBlockStart, numberOfCells, startOfContentArea,
                          fragmentedFreeBytes, None)))
  }

  /** Two buffers with the same tag byte give headers of the same length:
      the length depends on the page type alone. */
  lemma LengthOnlyFromTag(s: seq<Byte>, t: seq<Byte>)
    requires Readable(s) && Readable(t) && s[0] == t[0]
    requires Parse(s).Ok?
    ensures Parse(t).Ok? && Parse(t).value.0 == Parse(s).value.0
  {
  }

  /** The header depends on its own bytes only: whatever follows them does
      not change it. */
  lemma ParseIgnoresRest(s: seq<Byte>, rest: seq<Byte>)
    requires Readable(s) && Parse(s).Ok?
    ensures Readable(s[..Parse(s).value.0] + rest)
    ensures Parse(s[..Parse(s).value.0] + rest) == Parse(s)
  {
    var n := Parse(s).value.0;
    var t := s[..n] + rest;
    assert t[..n] == s[..n];
    assert t[1..3] == s[1..3] && t[3..5] == s[3..5] && t[5..7] == s[5..7];
    if n == 12 {
      assert t[8..12] == s[8..12];
    }
  }

  // ---------------------------------------------------------------------
  // Writing a header, as the partner of `Parse`

  /** A header as the format lays it down: the right-most pointer is present
      exactly on interior pages. */
  predicate WellFormed(h: PageHeader) {
    h.rightMostPointer.Some? <==> IsInterior(h.pageType)
  }

  /** The bytes of a header. */
  function Write(h: PageHeader): (r: seq<Byte>)
    requires WellFormed(h)
    ensures |r| == HeaderLength(h.pageType)
  {
    [Tag(h.pageType)] + ToBigEndian(h.firstFreeBlockStart, 2) + ToBigEndian(h.numberOfCells, 2) +
    ToBigEndian(h.startOfContentArea, 2) + [h.fragmentedFreeBytes] +
    (if h.rightMostPointer.Some? then ToBigEndian(h.rightMostPointer.value, 4) else [])
  }

  /** Reading back a written header gives the header and its length. */
  lemma RoundTrip(h: PageHeader)
    requires WellFormed(h)
    ensures Readable(Write(h))
    ensures Parse(Write(h)) == Ok((HeaderLength(h.pageType), h))
  {
    var s := Write(h);
    TagRoundTrip(h.pageType);
    WrittenFields(h);
    BigEndianRoundTrip(h.firstFreeBlockStart, 2);
    BigEndianRoundTrip(h.numberOfCells, 2);
    BigEndianRoundTrip(h.startOfContentArea, 2);
    if h.rightMostPointer.Some? {
      BigEndianRoundTrip(h.rightMostPointer.value, 4);
    }
  }

  /** Where each field lands in the written bytes. */
  lemma WrittenFields(h: PageHeader)
    requires WellFormed(h)
    ensures var s := Write(h);
      s[0] == Tag(h.pageType) &&
      s[1..3] == ToBigEndian(h.firstFreeBlockStart, 2) &&
      s[3..5] == ToBigEndian(h.numberOfCells, 2) &&
      s[5..7] == ToBigEndian(h.startOfContentArea, 2) &&
      s[7] == h.fragmentedFreeBytes &&
      (h.rightMostPointer.Some? ==> s[8..12] == ToBigEndian(h.rightMostPointer.value, 4))
  {
    var b, c, d := ToBigEndian(h.firstFreeBlockStart, 2), ToBigEndian(h.numberOfCells, 2),
      ToBigEndian(h.startOfContentArea, 2);
    var fixed := [Tag(h.pageType)] + b + c + d + [h.fragmentedFreeBytes];
    var s := Write(h);
    assert s[..8] == fixed;
    assert fixed[1..3] == b && fixed[3..5] == c && fixed[5..7] == d;
  }
}
