/**
 * Reading back what the writers write: every page of an encoded file decodes to the
 * same pixels.
 */
module XtcCodec {
  import opened CArith
  import opened Bits
  import opened XtcFormat

  // ----- Fields inside concatenations -----

  lemma FieldLeft(a: seq<byte>, b: seq<byte>, offset: nat, n: nat)
    requires offset + n <= |a|
    ensures Field(a + b, offset, n) == Field(a, offset, n)
  {
    assert (a + b)[offset..offset + n] == a[offset..offset + n];
  }

  lemma FieldRight(a: seq<byte>, b: seq<byte>, offset: nat, n: nat)
    requires offset + n <= |b|
    ensures Field(a + b, |a| + offset, n) == Field(b, offset, n)
  {
    assert (a + b)[|a| + offset..|a| + offset + n] == b[offset..offset + n];
  }

  lemma FieldIs(s: seq<byte>, offset: nat, v: nat, n: nat)
    requires offset + n <= |s| && s[offset..offset + n] == LE(v, n) && v < Pow256(n)
    ensures Field(s, offset, n) == v
  {
    ReadWritten(v, n);
  }

  lemma HeaderFields(pageCount: nat)
    requires pageCount < 65536
    ensures var h := ContainerHeader(pageCount);
            && Field(h, 0, 4) == MAGIC_XTC && Field(h, 6, 2) == pageCount && Field(h, 0x18, 8) == IndexOffset()
  {
    FieldSizes();
    var h := ContainerHeader(pageCount);
    hide LE, ReadLE, Pow256;
    assert h[0..4] == LE(MAGIC_XTC, 4);
    assert h[6..8] == LE(pageCount, 2);
    assert h[0x18..0x20] == LE(IndexOffset(), 8);
    hide ContainerHeader;
    FieldIs(h, 0, MAGIC_XTC, 4);
    FieldIs(h, 6, pageCount, 2);
    FieldIs(h, 0x18, IndexOffset(), 8);
  }

  lemma PageFields(b: Bitmap)
    requires ValidBitmap(b) && RowBytes(b.width) * b.height < 0x1_0000_0000
    ensures var p := XtgPage(b);
            && |p| >= XTG_HEADER_SIZE
            && Field(p, 0, 4) == MAGIC_XTG && Field(p, 4, 2) == b.width && Field(p, 6, 2) == b.height
            && Field(p, 0x0A, 4) == RowBytes(b.width) * b.height
            && p[XTG_HEADER_SIZE..] == PackedRows(b.rows)
  {
    FieldSizes();
    var p := XtgPage(b);
    var size := RowBytes(b.width) * b.height;
    hide LE, ReadLE, Pow256, PackedRows, RowBytes;
    assert p[0..4] == LE(MAGIC_XTG, 4);
    assert p[4..6] == LE(b.width, 2);
    assert p[6..8] == LE(b.height, 2);
    assert p[0x0A..0x0E] == LE(size, 4);
    hide XtgPage;
    FieldIs(p, 0, MAGIC_XTG, 4);
    FieldIs(p, 4, b.width, 2);
    FieldIs(p, 6, b.height, 2);
    FieldIs(p, 0x0A, size, 4);
  }

  // ----- Packed rows -----

  lemma {:induction false} PackedRowsAt(width: nat, rows: seq<seq<bool>>, y: nat, i: nat)
    requires forall r :: 0 <= r < |rows| ==> |rows[r]| == width
    requires y < |rows| && i < RowBytes(width)
    ensures |PackedRows(rows)| == |rows| * RowBytes(width)
    ensures y * RowBytes(width) + i < |PackedRows(rows)|
    ensures PackedRows(rows)[y * RowBytes(width) + i] == FromBits(RowBits(rows[y], i))
    decreases |rows|
  {
    hide RowBytes, FromBits, RowBits;
    var rb := RowBytes(width);
    PackedRowsSize(width, rows);
    PackedRowsSize(width, rows[1..]);
    RowsTimes(|rows|, y, rb, i);
    if y > 0 {
      PackedRowsAt(width, rows[1..], y - 1, i);
      Distribute(y, rb, 0);
      assert PackedRows(rows)[y * rb + i] == PackedRows(rows[1..])[(y - 1) * rb + i];
    }
  }

  lemma RowsTimes(n: nat, y: nat, rb: nat, i: nat)
    requires y < n && i < rb
    ensures y * rb + i < n * rb && 0 <= y * rb
  {
    MulMono(y + 1, n, rb);
    Distribute(y + 1, rb, 0);
    MulMono(0, y, rb);
  }

  lemma {:induction false} PackedRowsSize(width: nat, rows: seq<seq<bool>>)
    requires forall r :: 0 <= r < |rows| ==> |rows[r]| == width
    ensures |PackedRows(rows)| == |rows| * RowBytes(width)
  {
    hide RowBytes, FromBits, RowBits;
    if rows != [] {
      PackedRowsSize(width, rows[1..]);
      Distribute(|rows|, RowBytes(width), 0);
    }
  }

  lemma PageSize(b: Bitmap)
    requires ValidBitmap(b)
    ensures |XtgPage(b)| == XTG_HEADER_SIZE + RowBytes(b.width) * b.height
    ensures 0 < RowBytes(b.width) * b.height < 0x1_0000_0000 - 400
  {
    PackedRowsSize(b.width, b.rows);
    RowBytesRange(b.width);
    hide RowBytes, PackedRows, LE;
    MulMono(1, b.height, RowBytes(b.width));
    MulMono(b.height, 65535, RowBytes(b.width));
  }

  lemma RowBytesRange(width: nat)
    requires 0 < width < 65536
    ensures 1 <= RowBytes(width) <= 8192
  {
  }

  /** Unpacking a packed row gives its pixels back. */
  lemma UnpackPacked(row: seq<bool>, x: nat)
    requires x < |row|
    ensures x / 8 < RowBytes(|row|) && BitAt(PackedRow(row)[x / 8], x % 8) == row[x]
  {
    BitOfFromBits(RowBits(row, x / 8), x % 8);
  }

  // ----- Index and data -----

  /** How many bytes the pages before page i take. */
  function PageStart(pages: seq<Bitmap>, i: nat): (n: nat)
    requires i <= |pages|
  {
    if i == 0 then 0 else |XtgPage(pages[0])| + PageStart(pages[1..], i - 1)
  }

  lemma {:induction false} IndexHolds(pages: seq<Bitmap>, offset: nat, i: nat)
    requires i < |pages|
    requires offset + PageStart(pages, i) < Pow256(8)
    ensures INDEX_ENTRY_SIZE * i + 8 <= |Index(pages, offset)|
    ensures Field(Index(pages, offset), INDEX_ENTRY_SIZE * i, 8) == offset + PageStart(pages, i)
    decreases i
  {
    hide Pow256, XtgPage, LE, ReadLE;
    var first := IndexEntry(offset, pages[0]);
    var next := offset + |XtgPage(pages[0])|;
    var rest := Index(pages[1..], next);
    assert Index(pages, offset) == first + rest;
    if i == 0 {
      assert first[0..8] == LE(offset, 8);
      FieldIs(first, 0, offset, 8);
      FieldLeft(first, rest, 0, 8);
    } else {
      IndexHolds(pages[1..], next, i - 1);
      FieldRight(first, rest, INDEX_ENTRY_SIZE * (i - 1), 8);
    }
  }

  lemma {:induction false} DataHolds(pages: seq<Bitmap>, i: nat)
    requires i < |pages|
    ensures PageStart(pages, i) + |XtgPage(pages[i])| <= |PageData(pages)|
    ensures PageData(pages)[PageStart(pages, i)..PageStart(pages, i) + |XtgPage(pages[i])|] == XtgPage(pages[i])
    decreases i
  {
    hide XtgPage;
    if i > 0 {
      DataHolds(pages[1..], i - 1);
      var first, rest, at := XtgPage(pages[0]), PageData(pages[1..]), PageStart(pages[1..], i - 1);
      var size := |XtgPage(pages[i])|;
      assert PageData(pages) == first + rest;
      assert (first + rest)[|first| + at..|first| + at + size] == rest[at..at + size];
    }
  }

  // ----- The round trip -----

  predicate ValidPages(pages: seq<Bitmap>) {
    0 < |pages| < 65536 && forall i :: 0 <= i < |pages| ==> ValidBitmap(pages[i])
  }

  lemma FoundFits(file: seq<byte>, page: nat, y: nat, x: nat)
    requires FindPage(file, page).Found?
    requires y < FindPage(file, page).height && x < FindPage(file, page).width
    ensures var f := FindPage(file, page);
            f.data + (y * RowBytes(f.width) + x / 8) < |file| && 0 <= y * RowBytes(f.width)
  {
    var f := FindPage(file, page);
    assert f.data + RowBytes(f.width) * f.height <= |file|;
    assert x / 8 < RowBytes(f.width);
    hide FindPage, RowBytes;
    RowsTimes(f.height, y, RowBytes(f.width), x / 8);
  }

  /** A pixel of a page of the file: white is true. */
  function DecodedPixel(file: seq<byte>, page: nat, y: nat, x: nat): bool
    requires FindPage(file, page).Found?
    requires y < FindPage(file, page).height && x < FindPage(file, page).width
  {
    FoundFits(file, page, y, x);
    var f := FindPage(file, page);
    BitAt(file[f.data + (y * RowBytes(f.width) + x / 8)], x % 8)
  }

  // Where the parts of the file that matter for page i are.
  predicate LaidOut(file: seq<byte>, n: nat, i: nat, start: nat, b: Bitmap) {
    && i < n
    && |file| >= start + |XtgPage(b)|
    && start >= IndexOffset() + i * INDEX_ENTRY_SIZE + INDEX_ENTRY_SIZE
    && Field(file, 0, 4) == MAGIC_XTC && Field(file, 6, 2) == n && Field(file, 0x18, 8) == IndexOffset()
    && Field(file, IndexOffset() + i * INDEX_ENTRY_SIZE, 8) == start
    && file[start..start + |XtgPage(b)|] == XtgPage(b)
  }

  function FileStart(pages: seq<Bitmap>, i: nat): nat
    requires i <= |pages|
  {
    DataOffset(|pages|) + PageStart(pages, i)
  }

  lemma FileLayout(pages: seq<Bitmap>, m: Metadata, i: nat)
    requires ValidPages(pages) && i < |pages| && |XtcFile(pages, m)| < Pow256(8)
    ensures LaidOut(XtcFile(pages, m), |pages|, i, FileStart(pages, i), pages[i])
  {
    var n := |pages|;
    hide XtgPage, ContainerHeader, MetadataBlock, Index, PageData, PageStart, Field, Pow256, ValidPages;
    assert n < 65536 by { PagesFew(pages); }
    HeaderFields(n);
    DataHolds(pages, i);
    var h, b, x, d := ContainerHeader(n), MetadataBlock(m), Index(pages, DataOffset(n)), PageData(pages);
    var file := XtcFile(pages, m);
    assert file == h + (b + x + d);
    FieldLeft(h, b + x + d, 0, 4);
    FieldLeft(h, b + x + d, 6, 2);
    FieldLeft(h, b + x + d, 0x18, 8);
    IndexHolds(pages, DataOffset(n), i);
    assert file == (h + b) + (x + d);
    FieldRight(h + b, x + d, INDEX_ENTRY_SIZE * i, 8);
    FieldLeft(x, d, INDEX_ENTRY_SIZE * i, 8);
    var start, size := PageStart(pages, i), |XtgPage(pages[i])|;
    assert file == (h + b + x) + d;
    assert file[|h + b + x| + start..|h + b + x| + start + size] == d[start..start + size];
  }

  lemma PagesFew(pages: seq<Bitmap>)
    requires ValidPages(pages)
    ensures |pages| < 65536
  {
  }

  // Fields of the page, read in the file.
  lemma FieldInside(file: seq<byte>, start: nat, part: seq<byte>, offset: nat, n: nat)
    requires start + |part| <= |file| && file[start..start + |part|] == part && offset + n <= |part|
    ensures Field(file, start + offset, n) == Field(part, offset, n)
  {
    var a, b := file[start + offset..start + offset + n], part[offset..offset + n];
    forall k | 0 <= k < n ensures a[k] == b[k] {
      assert file[start..start + |part|][offset + k] == file[start + offset + k];
    }
    assert a == b;
  }

  lemma PageFieldsInFile(file: seq<byte>, start: nat, b: Bitmap)
    requires ValidBitmap(b)
    requires start + |XtgPage(b)| <= |file| && file[start..start + |XtgPage(b)|] == XtgPage(b)
    ensures |file| >= start + XTG_HEADER_SIZE + RowBytes(b.width) * b.height
    ensures Field(file, start, 4) == MAGIC_XTG
    ensures Field(file, start + 4, 2) == b.width && Field(file, start + 6, 2) == b.height
    ensures Field(file, start + 0x0A, 4) == RowBytes(b.width) * b.height
  {
    hide XtgPage, Field, RowBytes;
    PageSize(b);
    PageFields(b);
    var page := XtgPage(b);
    FieldInside(file, start, page, 0, 4);
    FieldInside(file, start, page, 4, 2);
    FieldInside(file, start, page, 6, 2);
    FieldInside(file, start, page, 0x0A, 4);
  }

  // A file laid out as the writer does passes every check of the reader.
  lemma LaidOutFound(file: seq<byte>, n: nat, i: nat, start: nat, b: Bitmap)
    requires ValidBitmap(b) && LaidOut(file, n, i, start, b)
    ensures FindPage(file, i) == Found(b.width, b.height, start + XTG_HEADER_SIZE)
  {
    hide Field, RowBytes, XtgPage;
    PageFieldsInFile(file, start, b);
  }

  lemma PixelInFile(file: seq<byte>, n: nat, i: nat, start: nat, b: Bitmap, y: nat, x: nat)
    requires ValidBitmap(b) && LaidOut(file, n, i, start, b) && y < b.height && x < b.width
    ensures 0 <= y * RowBytes(b.width)
    ensures start + XTG_HEADER_SIZE + (y * RowBytes(b.width) + x / 8) < |file|
    ensures BitAt(file[start + XTG_HEADER_SIZE + (y * RowBytes(b.width) + x / 8)], x % 8) == b.rows[y][x]
  {
    hide XtgPage, RowBytes, PackedRows, BitAt, FromBits, RowBits, Field;
    PageSize(b);
    PageFields(b);
    PixelInPage(b, y, x);
    var page, k := XtgPage(b), XTG_HEADER_SIZE + (y * RowBytes(b.width) + x / 8);
    assert file[start..start + |page|][k] == file[start + k];
  }

  lemma PixelInPage(b: Bitmap, y: nat, x: nat)
    requires ValidBitmap(b) && y < b.height && x < b.width
    ensures 0 <= y * RowBytes(b.width)
    ensures XTG_HEADER_SIZE + (y * RowBytes(b.width) + x / 8) < |XtgPage(b)|
    ensures BitAt(XtgPage(b)[XTG_HEADER_SIZE + (y * RowBytes(b.width) + x / 8)], x % 8) == b.rows[y][x]
  {
    hide XtgPage, PackedRows, BitAt, FromBits, RowBits, Field;
    UnpackPacked(b.rows[y], x);
    PageSize(b);
    PageFields(b);
    PackedRowsAt(b.width, b.rows, y, x / 8);
    hide RowBytes;
    var k := y * RowBytes(b.width) + x / 8;
    assert XtgPage(b)[XTG_HEADER_SIZE..][k] == XtgPage(b)[XTG_HEADER_SIZE + k];
  }

  /** Decoding page i of an encoded file gives page i back, pixel for pixel. */
  lemma DecodesBack(pages: seq<Bitmap>, m: Metadata, i: nat, y: nat, x: nat)
    requires ValidPages(pages) && i < |pages| && |XtcFile(pages, m)| < Pow256(4)
    requires y < pages[i].height && x < pages[i].width
    ensures var f := FindPage(XtcFile(pages, m), i);
            && f.Found? && f.width == pages[i].width && f.height == pages[i].height
            && DecodedPixel(XtcFile(pages, m), i, y, x) == pages[i].rows[y][x]
  {
    FieldSizes();
    assert ValidBitmap(pages[i]);
    hide Pow256, XtcFile, FindPage, ValidPages, ValidBitmap, RowBytes, FileStart, LaidOut, BitAt;
    FileLayout(pages, m, i);
    LaidOutFound(XtcFile(pages, m), |pages|, i, FileStart(pages, i), pages[i]);
    PixelInFile(XtcFile(pages, m), |pages|, i, FileStart(pages, i), pages[i], y, x);
  }
}
