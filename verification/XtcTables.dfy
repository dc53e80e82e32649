/**
 * The layout of an encoded file as a table of offsets, sizes and values, which is what any other
 * reader of the format relies on.
 */
module XtcTables {
  import opened Bits
  import opened XtcFormat
  import opened XtcCodec

  // ----- Text fields -----

  /** The bytes before the first NUL. */
  function UpToNul(s: seq<byte>): seq<byte> {
    if s == [] || s[0] == 0 then [] else [s[0]] + UpToNul(s[1..])
  }

  lemma {:induction false} UpToNulOf(text: seq<byte>, rest: seq<byte>)
    requires 0 !in text && rest != [] && rest[0] == 0
    ensures UpToNul(text + rest) == text
    decreases |text|
  {
    if text == [] {
      assert text + rest == rest;
    } else {
      assert (text + rest)[0] == text[0] && (text + rest)[1..] == text[1..] + rest;
      UpToNulOf(text[1..], rest);
    }
  }

  function Cut(text: seq<byte>, most: nat): seq<byte> {
    if |text| <= most then text else text[..most]
  }

  /** A text field holds the text, or as much of it as leaves room for a NUL. */
  lemma FixedStringReads(text: seq<byte>, size: nat)
    requires size > 0 && 0 !in text
    ensures UpToNul(FixedString(text, size)) == Cut(text, size - 1)
  {
    var kept := Cut(text, size - 1);
    UpToNulOf(kept, Zeros(size - |kept|));
  }

  // ----- The container's header -----

  lemma HeaderIs(n: nat)
    requires n < 65536
    ensures var h := ContainerHeader(n);
            && Field(h, 0, 4) == 0x00435458 && Field(h, 4, 2) == 0x0100 && Field(h, 6, 2) == n
            && h[8..12] == [0, 1, 0, 0] && Field(h, 12, 4) == 0
  {
    FieldSizes();
    var h := ContainerHeader(n);
    hide LE, ReadLE, Pow256;
    assert h[0..4] == LE(MAGIC_XTC, 4) && h[4..6] == LE(0x0100, 2) && h[6..8] == LE(n, 2);
    assert h[8..12] == [0, 1, 0, 0] && h[12..16] == LE(0, 4);
    hide ContainerHeader;
    FieldIs(h, 0, MAGIC_XTC, 4);
    FieldIs(h, 4, 0x0100, 2);
    FieldIs(h, 6, n, 2);
    FieldIs(h, 12, 0, 4);
  }

  lemma HeaderOffsets(n: nat)
    requires n < 65536
    ensures var h := ContainerHeader(n);
            && Field(h, 16, 8) == 56 && Field(h, 24, 8) == 312 && Field(h, 32, 8) == 312 + 16 * n
            && Field(h, 40, 8) == 0 && Field(h, 48, 8) == 0
  {
    FieldSizes();
    var h := ContainerHeader(n);
    hide LE, ReadLE, Pow256;
    assert h[16..24] == LE(56, 8) && h[24..32] == LE(312, 8) && h[32..40] == LE(312 + n * 16, 8);
    assert h[40..48] == LE(0, 8);
    assert h[48..] == LE(0, 8) && h[48..] == h[48..56];
    hide ContainerHeader;
    FieldIs(h, 16, 56, 8);
    FieldIs(h, 24, 312, 8);
    FieldIs(h, 32, 312 + n * 16, 8);
    FieldIs(h, 40, 0, 8);
    FieldIs(h, 48, 0, 8);
  }

  /** The header: magic, version 1.0, page count, flags, and where metadata, index and data begin. */
  lemma HeaderTable(pages: seq<Bitmap>, m: Metadata)
    requires ValidPages(pages)
    ensures var file, n := XtcFile(pages, m), |pages|;
            && |file| >= 312 + 16 * n
            && Field(file, 0, 4) == 0x00435458 && Field(file, 4, 2) == 0x0100 && Field(file, 6, 2) == n
            && file[8..12] == [0, 1, 0, 0] && Field(file, 12, 4) == 0
            && Field(file, 16, 8) == 56 && Field(file, 24, 8) == 312 && Field(file, 32, 8) == 312 + 16 * n
            && Field(file, 40, 8) == 0 && Field(file, 48, 8) == 0
  {
    hide XtcFile, Field;
    HeaderStart(pages, m);
    HeaderRest(pages, m);
  }

  lemma HeaderStart(pages: seq<Bitmap>, m: Metadata)
    requires ValidPages(pages)
    ensures var file := XtcFile(pages, m);
            && |file| >= 312 + 16 * |pages|
            && Field(file, 0, 4) == 0x00435458 && Field(file, 4, 2) == 0x0100 && Field(file, 6, 2) == |pages|
            && file[8..12] == [0, 1, 0, 0] && Field(file, 12, 4) == 0
  {
    var file, n, h := XtcFile(pages, m), |pages|, ContainerHeader(|pages|);
    hide XtcFile, ContainerHeader, Field, ValidPages;
    PagesFew(pages);
    HeaderInFile(pages, m);
    HeaderIs(n);
    FieldInside(file, 0, h, 0, 4);
    FieldInside(file, 0, h, 4, 2);
    FieldInside(file, 0, h, 6, 2);
    FieldInside(file, 0, h, 12, 4);
    Slices(file, 0, h, 8, 12);
  }

  lemma HeaderRest(pages: seq<Bitmap>, m: Metadata)
    requires ValidPages(pages)
    ensures var file := XtcFile(pages, m);
            && |file| >= 312 + 16 * |pages|
            && Field(file, 16, 8) == 56 && Field(file, 24, 8) == 312 && Field(file, 32, 8) == 312 + 16 * |pages|
            && Field(file, 40, 8) == 0 && Field(file, 48, 8) == 0
  {
    var file, n, h := XtcFile(pages, m), |pages|, ContainerHeader(|pages|);
    hide XtcFile, ContainerHeader, Field, ValidPages;
    PagesFew(pages);
    HeaderInFile(pages, m);
    HeaderOffsets(n);
    FieldInside(file, 0, h, 16, 8);
    FieldInside(file, 0, h, 24, 8);
    FieldInside(file, 0, h, 32, 8);
    FieldInside(file, 0, h, 40, 8);
    FieldInside(file, 0, h, 48, 8);
  }

  lemma HeaderInFile(pages: seq<Bitmap>, m: Metadata)
    ensures |XtcFile(pages, m)| >= 312 + 16 * |pages| && XtcFile(pages, m)[0..56] == ContainerHeader(|pages|)
  {
    hide Index, PageData, ContainerHeader, MetadataBlock;
  }

  // ----- The metadata -----

  lemma MetadataIs(m: Metadata)
    requires m.createTime < 0x1_0000_0000
    ensures var b := MetadataBlock(m);
            && b[0..128] == FixedString(m.title, 128) && b[128..192] == FixedString(m.author, 64)
            && b[192..224] == FixedString([102, 111, 99, 117, 115, 105, 110, 107], 32) && b[224..240] == FixedString(m.language, 16)
            && Field(b, 240, 4) == m.createTime && Field(b, 244, 2) == 0xFFFF && Field(b, 246, 2) == 0
            && b[248..256] == [0, 0, 0, 0, 0, 0, 0, 0]
  {
    FieldSizes();
    hide LE, ReadLE, Pow256, FixedString;
    var b := MetadataBlock(m);
    assert b[0..128] == FixedString(m.title, 128) && b[128..192] == FixedString(m.author, 64);
    assert b[192..224] == FixedString(PUBLISHER, 32) && b[224..240] == FixedString(m.language, 16);
    assert b[240..244] == LE(m.createTime, 4) && b[244..246] == LE(0xFFFF, 2) && b[246..248] == LE(0, 2);
    assert b[248..] == Zeros(8) && b[248..] == b[248..256];
    hide MetadataBlock;
    FieldIs(b, 240, m.createTime, 4);
    FieldIs(b, 244, 0xFFFF, 2);
    FieldIs(b, 246, 0, 2);
  }

  /** The metadata: title, author, publisher and language read back, cut to the room they have, and the time of creation. */
  lemma MetadataTable(pages: seq<Bitmap>, m: Metadata)
    requires m.createTime < 0x1_0000_0000
    requires 0 !in m.title && 0 !in m.author && 0 !in m.language
    ensures var file := XtcFile(pages, m);
            && |file| >= 312
            && UpToNul(file[56..184]) == Cut(m.title, 127) && UpToNul(file[184..248]) == Cut(m.author, 63)
            && UpToNul(file[248..280]) == [102, 111, 99, 117, 115, 105, 110, 107] && UpToNul(file[280..296]) == Cut(m.language, 15)
            && Field(file, 296, 4) == m.createTime && Field(file, 300, 2) == 0xFFFF && Field(file, 302, 2) == 0
            && file[304..312] == [0, 0, 0, 0, 0, 0, 0, 0]
  {
    var file, b := XtcFile(pages, m), MetadataBlock(m);
    hide XtcFile, MetadataBlock, Field, UpToNul, Cut;
    MetadataInFile(pages, m);
    MetadataTexts(m);
    MetadataIs(m);
    Slices(file, 56, b, 0, 128);
    Slices(file, 56, b, 128, 192);
    Slices(file, 56, b, 192, 224);
    Slices(file, 56, b, 224, 240);
    Slices(file, 56, b, 248, 256);
    FieldInside(file, 56, b, 240, 4);
    FieldInside(file, 56, b, 244, 2);
    FieldInside(file, 56, b, 246, 2);
  }

  lemma CreateTimeReads(pages: seq<Bitmap>, m: Metadata)
    requires m.createTime < 0x1_0000_0000
    ensures |XtcFile(pages, m)| >= 312 && Field(XtcFile(pages, m), 296, 4) == m.createTime
  {
    hide XtcFile, MetadataBlock, Field;
    MetadataInFile(pages, m);
    MetadataIs(m);
    FieldInside(XtcFile(pages, m), 56, MetadataBlock(m), 240, 4);
  }

  lemma MetadataInFile(pages: seq<Bitmap>, m: Metadata)
    ensures |XtcFile(pages, m)| >= 312 && XtcFile(pages, m)[56..312] == MetadataBlock(m)
  {
    hide Index, PageData, ContainerHeader, MetadataBlock;
  }

  lemma MetadataTexts(m: Metadata)
    requires m.createTime < 0x1_0000_0000
    requires 0 !in m.title && 0 !in m.author && 0 !in m.language
    ensures var b := MetadataBlock(m);
            && UpToNul(b[0..128]) == Cut(m.title, 127) && UpToNul(b[128..192]) == Cut(m.author, 63)
            && UpToNul(b[192..224]) == [102, 111, 99, 117, 115, 105, 110, 107] && UpToNul(b[224..240]) == Cut(m.language, 15)
  {
    MetadataIs(m);
    hide MetadataBlock, FixedString, UpToNul;
    FixedStringReads(m.title, 128);
    FixedStringReads(m.author, 64);
    FixedStringReads([102, 111, 99, 117, 115, 105, 110, 107], 32);
    FixedStringReads(m.language, 16);
  }

  lemma Slices(file: seq<byte>, start: nat, part: seq<byte>, from: nat, to: nat)
    requires start + |part| <= |file| && file[start..start + |part|] == part && from <= to <= |part|
    ensures file[start + from..start + to] == part[from..to]
  {
    var a, b := file[start + from..start + to], part[from..to];
    forall k | 0 <= k < to - from ensures a[k] == b[k] {
      assert file[start..start + |part|][from + k] == file[start + from + k];
    }
    assert a == b;
  }

  // ----- Index and pages -----

  lemma {:induction false} EntryAt(pages: seq<Bitmap>, offset: nat, i: nat)
    requires i < |pages|
    ensures 16 * i + 16 <= |Index(pages, offset)|
    ensures Index(pages, offset)[16 * i..16 * i + 16] == IndexEntry(offset + PageStart(pages, i), pages[i])
    decreases i
  {
    hide XtgPage, IndexEntry;
    var first := IndexEntry(offset, pages[0]);
    var next := offset + |XtgPage(pages[0])|;
    var rest := Index(pages[1..], next);
    assert Index(pages, offset) == first + rest;
    if i > 0 {
      EntryAt(pages[1..], next, i - 1);
      assert (first + rest)[16 * i..16 * i + 16] == rest[16 * (i - 1)..16 * (i - 1) + 16];
    }
  }

  lemma EntryFields(offset: nat, b: Bitmap)
    requires ValidBitmap(b)
    ensures var e := IndexEntry(offset, b);
            Field(e, 8, 4) == 22 + RowBytes(b.width) * b.height && Field(e, 12, 2) == b.width && Field(e, 14, 2) == b.height
  {
    FieldSizes();
    PageSize(b);
    hide LE, ReadLE, Pow256, XtgPage, RowBytes;
    var e, size := IndexEntry(offset, b), |XtgPage(b)|;
    assert e[8..12] == LE(size, 4) && e[12..14] == LE(b.width, 2) && e[14..16] == LE(b.height, 2);
    hide IndexEntry;
    FieldIs(e, 8, size, 4);
    FieldIs(e, 12, b.width, 2);
    FieldIs(e, 14, b.height, 2);
  }

  /** The index entry at the offset gives a page's place, size and dimensions; its header repeats them. */
  predicate PageListed(file: seq<byte>, entry: nat, start: nat, b: Bitmap) {
    var size := RowBytes(b.width) * b.height;
    && entry + 16 <= |file| && start + 22 <= |file|
    && Field(file, entry, 8) == start && Field(file, entry + 8, 4) == 22 + size
    && Field(file, entry + 12, 2) == b.width && Field(file, entry + 14, 2) == b.height
    && Field(file, start, 4) == 0x00475458 && Field(file, start + 4, 2) == b.width && Field(file, start + 6, 2) == b.height
    && file[start + 8] == 0 && file[start + 9] == 0
    && Field(file, start + 10, 4) == size && Field(file, start + 14, 8) == 0
  }

  /** The i-th page is listed in the i-th entry of the index, which starts at byte 312. */
  lemma PageTable(pages: seq<Bitmap>, m: Metadata, i: nat)
    requires ValidPages(pages) && i < |pages| && |XtcFile(pages, m)| < Pow256(8)
    ensures PageListed(XtcFile(pages, m), 312 + 16 * i, FileStart(pages, i), pages[i])
  {
    hide XtcFile, Field, RowBytes, XtgPage, Pow256, FileStart, ValidBitmap, LaidOut;
    var file, start := XtcFile(pages, m), FileStart(pages, i);
    FileLayout(pages, m, i);
    LaidOutPage(file, |pages|, i, start, pages[i]);
    EntryInFile(pages, m, i);
    PageHeaderInFile(file, start, pages[i]);
  }

  lemma LaidOutPage(file: seq<byte>, n: nat, i: nat, start: nat, b: Bitmap)
    requires LaidOut(file, n, i, start, b)
    ensures start + |XtgPage(b)| <= |file| && file[start..start + |XtgPage(b)|] == XtgPage(b)
    ensures 312 + 16 * i + 16 <= |file| && Field(file, 312 + 16 * i, 8) == start
  {
    hide Field, XtgPage;
  }

  lemma EntryInFile(pages: seq<Bitmap>, m: Metadata, i: nat)
    requires i < |pages| && ValidBitmap(pages[i])
    ensures var file, entry, b := XtcFile(pages, m), 312 + 16 * i, pages[i];
            && entry + 16 <= |file|
            && Field(file, entry + 8, 4) == 22 + RowBytes(b.width) * b.height
            && Field(file, entry + 12, 2) == b.width && Field(file, entry + 14, 2) == b.height
  {
    hide Index, PageData, ContainerHeader, MetadataBlock, Field, RowBytes, PageStart, IndexEntry, ValidBitmap;
    var file, n, start := XtcFile(pages, m), |pages|, FileStart(pages, i);
    EntryAt(pages, DataOffset(n), i);
    EntryFields(start, pages[i]);
    var x, e := Index(pages, DataOffset(n)), IndexEntry(start, pages[i]);
    assert file[312..312 + |x|] == x;
    FieldInside(x, 16 * i, e, 8, 4);
    FieldInside(x, 16 * i, e, 12, 2);
    FieldInside(x, 16 * i, e, 14, 2);
    FieldInside(file, 312, x, 16 * i + 8, 4);
    FieldInside(file, 312, x, 16 * i + 12, 2);
    FieldInside(file, 312, x, 16 * i + 14, 2);
  }

  lemma PageHeaderInFile(file: seq<byte>, start: nat, b: Bitmap)
    requires ValidBitmap(b)
    requires start + |XtgPage(b)| <= |file| && file[start..start + |XtgPage(b)|] == XtgPage(b)
    ensures start + 22 <= |file|
    ensures Field(file, start, 4) == 0x00475458 && Field(file, start + 4, 2) == b.width && Field(file, start + 6, 2) == b.height
    ensures file[start + 8] == 0 && file[start + 9] == 0
    ensures Field(file, start + 10, 4) == RowBytes(b.width) * b.height && Field(file, start + 14, 8) == 0
  {
    hide Field, RowBytes, XtgPage, ValidBitmap;
    PageFieldsInFile(file, start, b);
    PageRest(b);
    FieldInside(file, start, XtgPage(b), 14, 8);
    Slices(file, start, XtgPage(b), 8, 10);
    assert file[start + 8..start + 10][0] == file[start + 8] && file[start + 8..start + 10][1] == file[start + 9];
  }

  lemma PageRest(b: Bitmap)
    ensures var p := XtgPage(b);
            |p| >= 22 && p[8..10] == [0, 0] && Field(p, 14, 8) == 0
  {
    FieldSizes();
    hide LE, ReadLE, Pow256, PackedRows, RowBytes;
    var p := XtgPage(b);
    assert p[8..10] == [0, 0] && p[14..22] == LE(0, 8);
    hide XtgPage;
    FieldIs(p, 14, 0, 8);
  }

  // ----- What a reader accepts -----

  /** The table entry and page header that a reader checks before it shows a page. */
  predicate Sound(file: seq<byte>, page: nat, width: nat, height: nat, data: nat) {
    && |file| >= 56 && Field(file, 0, 4) in {0x00435458, 0x48435458} && page < Field(file, 6, 2)
    && var entry, size := Field(file, 24, 8) + 16 * page, (width + 7) / 8 * height;
       && entry + 16 <= |file| && data == Field(file, entry, 8) + 22 && data + size <= |file|
       && Field(file, data - 22, 4) == 0x00475458 && Field(file, data - 18, 2) == width && Field(file, data - 16, 2) == height
       && Field(file, data - 12, 4) == size && width > 0 && height > 0
  }

  /** A page is found exactly where every one of those checks holds. */
  lemma FoundExactly(file: seq<byte>, page: nat, width: nat, height: nat, data: nat)
    ensures FindPage(file, page) == Found(width, height, data) <==> Sound(file, page, width, height, data)
  {
    hide Field;
  }
}
