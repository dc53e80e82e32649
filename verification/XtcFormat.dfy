/**
 * The XTC container: little-endian fields, packed one-bit pages, and the file that a
 * list of pages and its metadata make.
 */
module XtcFormat {
  import opened Bits

  const MAGIC_XTG: int := 0x00475458
  const MAGIC_XTC: int := 0x00435458
  const MAGIC_XTCH: int := 0x48435458

  const XTG_HEADER_SIZE: nat := 22
  const XTC_HEADER_SIZE: nat := 56
  const METADATA_SIZE: nat := 256
  const INDEX_ENTRY_SIZE: nat := 16

  // ----- Little-endian numbers -----

  function Pow256(n: nat): (p: nat)
    ensures p >= 1
  {
    if n == 0 then 1 else 256 * Pow256(n - 1)
  }

  /** The n low bytes of v, least significant first. */
  function LE(v: nat, n: nat): (s: seq<byte>)
    ensures |s| == n
  {
    if n == 0 then [] else [v % 256] + LE(v / 256, n - 1)
  }

  function ReadLE(s: seq<byte>): nat {
    if s == [] then 0 else s[0] + 256 * ReadLE(s[1..])
  }

  lemma {:induction false} ReadWritten(v: nat, n: nat)
    requires v < Pow256(n)
    ensures ReadLE(LE(v, n)) == v
  {
    if n > 0 {
      assert v / 256 < Pow256(n - 1);
      ReadWritten(v / 256, n - 1);
      assert LE(v, n)[1..] == LE(v / 256, n - 1);
    }
  }

  lemma FieldSizes()
    ensures Pow256(2) == 65536 && Pow256(4) == 0x1_0000_0000 && Pow256(8) == 0x1_0000_0000_0000_0000
  {
    assert Pow256(1) == 256 && Pow256(3) == 0x100_0000 && Pow256(5) == 0x100_0000_0000;
    assert Pow256(6) == 0x1_0000_0000_0000 && Pow256(7) == 0x100_0000_0000_0000;
  }

  // ----- Pages -----

  /** A one-bit page: true is white. */
  datatype Bitmap = Bitmap(width: nat, height: nat, rows: seq<seq<bool>>)

  predicate ValidBitmap(b: Bitmap) {
    && 0 < b.width < 65536 && 0 < b.height < 65536
    && |b.rows| == b.height && (forall y :: 0 <= y < b.height ==> |b.rows[y]| == b.width)
  }

  function RowBytes(width: nat): nat {
    (width + 7) / 8
  }

  /** Eight pixels of a row from column 8 * i on, black beyond its end. */
  function RowBits(row: seq<bool>, i: nat): Eight {
    seq(8, k requires 0 <= k < 8 => 8 * i + k < |row| && row[8 * i + k])
  }

  function PackedRow(row: seq<bool>): (s: seq<byte>)
    ensures |s| == RowBytes(|row|)
    ensures forall i :: 0 <= i < |s| ==> s[i] == FromBits(RowBits(row, i))
  {
    seq(RowBytes(|row|), i requires 0 <= i < RowBytes(|row|) => FromBits(RowBits(row, i)))
  }

  function PackedRows(rows: seq<seq<bool>>): seq<byte> {
    if rows == [] then [] else PackedRow(rows[0]) + PackedRows(rows[1..])
  }

  /** A whole XTG page: its header and its packed rows. */
  function XtgPage(b: Bitmap): seq<byte> {
    LE(MAGIC_XTG, 4) + LE(b.width, 2) + LE(b.height, 2) + [0, 0]
    + LE(RowBytes(b.width) * b.height, 4) + LE(0, 8) + PackedRows(b.rows)
  }

  // ----- Containers -----

  datatype Metadata = Metadata(title: seq<byte>, author: seq<byte>, createTime: nat, language: seq<byte>)

  function Zeros(n: nat): (s: seq<byte>)
    ensures |s| == n && forall i :: 0 <= i < n ==> s[i] == 0
  {
    seq(n, i => 0)
  }

  /** As much of the text as fits with a closing NUL, padded with NULs. */
  function FixedString(value: seq<byte>, size: nat): (s: seq<byte>)
    requires size > 0
    ensures |s| == size
  {
    var kept := if |value| < size then value else value[..size - 1];
    kept + Zeros(size - |kept|)
  }

  /** "focusink" */
  const PUBLISHER: seq<byte> := [0x66, 0x6F, 0x63, 0x75, 0x73, 0x69, 0x6E, 0x6B]

  function MetadataBlock(m: Metadata): (s: seq<byte>)
    ensures |s| == METADATA_SIZE
  {
    FixedString(m.title, 128) + FixedString(m.author, 64) + FixedString(PUBLISHER, 32)
    + FixedString(m.language, 16) + LE(m.createTime, 4) + LE(0xFFFF, 2) + LE(0, 2) + Zeros(8)
  }

  function IndexOffset(): nat {
    XTC_HEADER_SIZE + METADATA_SIZE
  }

  function DataOffset(pageCount: nat): nat {
    IndexOffset() + pageCount * INDEX_ENTRY_SIZE
  }

  function ContainerHeader(pageCount: nat): (s: seq<byte>)
    ensures |s| == XTC_HEADER_SIZE
  {
    LE(MAGIC_XTC, 4) + LE(0x0100, 2) + LE(pageCount, 2) + [0, 1, 0, 0] + LE(0, 4)
    + LE(XTC_HEADER_SIZE, 8) + LE(IndexOffset(), 8) + LE(DataOffset(pageCount), 8) + LE(0, 8) + LE(0, 8)
  }

  function IndexEntry(offset: nat, b: Bitmap): (s: seq<byte>)
    ensures |s| == INDEX_ENTRY_SIZE
  {
    LE(offset, 8) + LE(|XtgPage(b)|, 4) + LE(b.width, 2) + LE(b.height, 2)
  }

  /** The index of the pages, the first of which starts at the offset. */
  function Index(pages: seq<Bitmap>, offset: nat): (s: seq<byte>)
    ensures |s| == |pages| * INDEX_ENTRY_SIZE
    decreases |pages|
  {
    if pages == [] then [] else IndexEntry(offset, pages[0]) + Index(pages[1..], offset + |XtgPage(pages[0])|)
  }

  function PageData(pages: seq<Bitmap>): seq<byte> {
    if pages == [] then [] else XtgPage(pages[0]) + PageData(pages[1..])
  }

  /** The file of the pages with their metadata. */
  function XtcFile(pages: seq<Bitmap>, m: Metadata): seq<byte> {
    ContainerHeader(|pages|) + MetadataBlock(m) + Index(pages, DataOffset(|pages|)) + PageData(pages)
  }

  // ----- Parsing -----

  /** n bytes from the offset on. */
  function Field(s: seq<byte>, offset: nat, n: nat): nat
    requires offset + n <= |s|
  {
    ReadLE(s[offset..offset + n])
  }

  datatype Found = NotFound | Found(width: nat, height: nat, data: nat)

  /**
   * Where the packed rows of a page are, if the file is sound: container magic, page number,
   * index entry, page magic, data size and non-zero dimensions are all checked.
   */
  function FindPage(file: seq<byte>, page: nat): Found {
    if |file| < XTC_HEADER_SIZE then NotFound
    else if Field(file, 0, 4) != MAGIC_XTC && Field(file, 0, 4) != MAGIC_XTCH then NotFound
    else if page >= Field(file, 6, 2) then NotFound
    else
      var entry := Field(file, 0x18, 8) + page * INDEX_ENTRY_SIZE;
      if entry + INDEX_ENTRY_SIZE > |file| then NotFound
      else
        var offset := Field(file, entry, 8);
        if offset + XTG_HEADER_SIZE > |file| then NotFound
        else if Field(file, offset, 4) != MAGIC_XTG then NotFound
        else
          var w, h := Field(file, offset + 4, 2), Field(file, offset + 6, 2);
          var size := Field(file, offset + 0x0A, 4);
          if size != RowBytes(w) * h then NotFound
          else if offset + XTG_HEADER_SIZE + size > |file| then NotFound
          else if w == 0 || h == 0 then NotFound
          else Found(w, h, offset + XTG_HEADER_SIZE)
  }
}
