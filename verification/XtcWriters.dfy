/**
 * The two writers and the reader: the server's encoder builds the file from lists, the
 * browser's writes one dithered page into a buffer in place, and the preview unpacks.
 */
module XtcWriters {
  import opened CArith
  import opened Bits
  import opened Dither
  import opened XtcFormat
  import opened XtcCodec
  import opened XtcTables
  import opened DitherRows

  // ----- The server's encoder -----

  /** A one-bit image of any size: what the encoder is given. */
  predicate IsImage(b: Bitmap) {
    0 < b.width && 0 < b.height && |b.rows| == b.height && forall y :: 0 <= y < b.height ==> |b.rows[y]| == b.width
  }

  /** Every number fits its field. */
  predicate Encodable(pages: seq<Bitmap>, m: Metadata) {
    && 0 < |pages| < 65536 && m.createTime < 0x1_0000_0000
    && forall i :: 0 <= i < |pages| ==> pages[i].width < 65536 && pages[i].height < 65536
  }

  lemma {:induction false} PageDataConcat(a: seq<Bitmap>, b: seq<Bitmap>)
    ensures PageData(a + b) == PageData(a) + PageData(b)
  {
    hide XtgPage;
    if a == [] {
      assert a + b == b;
    } else {
      assert (a + b)[0] == a[0] && (a + b)[1..] == a[1..] + b;
      PageDataConcat(a[1..], b);
    }
  }

  lemma {:induction false} IndexConcat(a: seq<Bitmap>, b: seq<Bitmap>, offset: nat)
    ensures Index(a + b, offset) == Index(a, offset) + Index(b, offset + |PageData(a)|)
    decreases |a|
  {
    hide XtgPage, IndexEntry;
    if a == [] {
      assert a + b == b;
    } else {
      assert (a + b)[0] == a[0] && (a + b)[1..] == a[1..] + b;
      IndexConcat(a[1..], b, offset + |XtgPage(a[0])|);
    }
  }

  lemma OnePage(b: Bitmap, offset: nat)
    ensures PageData([b]) == XtgPage(b) && Index([b], offset) == IndexEntry(offset, b)
  {
    assert [b][1..] == [];
  }

  /** Encodes every page; fails when a dimension does not fit its field. */
  method EncodePages(pages: seq<Bitmap>) returns (ok: bool, xtgPages: seq<seq<byte>>)
    ensures ok <==> forall i :: 0 <= i < |pages| ==> pages[i].width < 65536 && pages[i].height < 65536
    ensures ok ==> |xtgPages| == |pages| && forall k :: 0 <= k < |pages| ==> xtgPages[k] == XtgPage(pages[k])
  {
    hide XtgPage;
    xtgPages := [];
    for i := 0 to |pages|
      invariant |xtgPages| == i && forall k :: 0 <= k < i ==> xtgPages[k] == XtgPage(pages[k])
      invariant forall k :: 0 <= k < i ==> pages[k].width < 65536 && pages[k].height < 65536
    {
      if pages[i].width >= 65536 || pages[i].height >= 65536 {
        return false, [];
      }
      xtgPages := xtgPages + [XtgPage(pages[i])];
    }
    ok := true;
  }

  lemma PrefixData(pages: seq<Bitmap>, i: nat)
    requires i < |pages|
    ensures PageData(pages[..i + 1]) == PageData(pages[..i]) + XtgPage(pages[i])
  {
    assert pages[..i + 1] == pages[..i] + [pages[i]];
    PageDataConcat(pages[..i], [pages[i]]);
    OnePage(pages[i], 0);
  }

  /** Where each page starts, counting up the sizes of the ones before it. */
  method PageOffsets(pages: seq<Bitmap>, xtgPages: seq<seq<byte>>, dataOffset: nat) returns (offsets: seq<nat>)
    requires |xtgPages| == |pages| && forall k :: 0 <= k < |pages| ==> xtgPages[k] == XtgPage(pages[k])
    ensures |offsets| == |pages|
    ensures forall k :: 0 <= k < |pages| ==> offsets[k] == dataOffset + |PageData(pages[..k])|
  {
    hide XtgPage;
    offsets := [];
    var pos := dataOffset;
    for i := 0 to |pages|
      invariant |offsets| == i && pos == dataOffset + |PageData(pages[..i])|
      invariant forall k :: 0 <= k < i ==> offsets[k] == dataOffset + |PageData(pages[..k])|
    {
      offsets := offsets + [pos];
      pos := pos + |xtgPages[i]|;
      PrefixData(pages, i);
    }
  }

  method BuildIndex(pages: seq<Bitmap>, xtgPages: seq<seq<byte>>, offsets: seq<nat>, dataOffset: nat)
    returns (index: seq<byte>)
    requires |xtgPages| == |offsets| == |pages|
    requires forall k :: 0 <= k < |pages| ==> ValidBitmap(pages[k]) && xtgPages[k] == XtgPage(pages[k])
    requires forall k :: 0 <= k < |pages| ==> offsets[k] == dataOffset + |PageData(pages[..k])|
    ensures index == Index(pages, dataOffset)
  {
    hide XtgPage, IndexEntry, ValidBitmap;
    index := [];
    for i := 0 to |pages|
      invariant index == Index(pages[..i], dataOffset)
    {
      var entry := IndexOfPage(pages[i], xtgPages[i], offsets[i]);
      index := index + entry;
      assert pages[..i + 1] == pages[..i] + [pages[i]];
      IndexConcat(pages[..i], [pages[i]], dataOffset);
      OnePage(pages[i], offsets[i]);
    }
    assert pages[..|pages|] == pages;
  }

  /** A creation time that is missing or 0 is replaced by the clock. */
  function Stamped(given: Metadata, now: nat): Metadata {
    if given.createTime == 0 then given.(createTime := now) else given
  }

  /** Encodes the pages with their metadata, or refuses what does not fit the format. */
  method EncodeXtc(pages: seq<Bitmap>, given: Metadata, now: nat) returns (ok: bool, out: seq<byte>)
    requires forall i :: 0 <= i < |pages| ==> IsImage(pages[i])
    ensures ok <==> Encodable(pages, Stamped(given, now))
    ensures ok ==> ValidPages(pages) && out == XtcFile(pages, Stamped(given, now))
    ensures ok ==> |out| >= 312 && Field(out, 296, 4) == if given.createTime == 0 then now else given.createTime
  {
    var m := if given.createTime == 0 then given.(createTime := now) else given;
    hide XtgPage, ContainerHeader, MetadataBlock, DataOffset, Index;
    if |pages| == 0 {
      return false, [];
    }
    var xtgPages;
    ok, xtgPages := EncodePages(pages);
    if !ok || |pages| >= 65536 || m.createTime >= 0x1_0000_0000 {
      return false, [];
    }
    var dataOffset := DataOffset(|pages|);
    var offsets := PageOffsets(pages, xtgPages, dataOffset);
    var index := BuildIndex(pages, xtgPages, offsets, dataOffset);
    ghost var front := ContainerHeader(|pages|) + MetadataBlock(m) + index;
    out := ContainerHeader(|pages|) + MetadataBlock(m) + index;
    for i := 0 to |pages|
      invariant out == front + PageData(pages[..i])
    {
      out := out + xtgPages[i];
      PrefixData(pages, i);
    }
    assert pages[..|pages|] == pages;
    CreateTimeReads(pages, m);
  }

  /** The index entry of a page, with its dimensions read back from the encoded page. */
  method IndexOfPage(b: Bitmap, xtg: seq<byte>, offset: nat) returns (entry: seq<byte>)
    requires ValidBitmap(b) && xtg == XtgPage(b)
    ensures entry == IndexEntry(offset, b)
  {
    hide XtgPage, Field;
    PageSize(b);
    PageFields(b);
    var width, height := Field(xtg, 4, 2), Field(xtg, 6, 2);
    entry := LE(offset, 8) + LE(|xtg|, 4) + LE(width, 2) + LE(height, 2);
  }

  // ----- Writing into a zeroed buffer from front to back -----

  /** The first bytes are written and all the others are still zero. */
  ghost predicate Written(buf: seq<byte>, done: seq<byte>) {
    |done| <= |buf| && buf == done + Zeros(|buf| - |done|)
  }

  /** Copies bytes to the place the writing has reached. */
  method Put(buf: array<byte>, ghost done: seq<byte>, at: nat, s: seq<byte>)
    requires at == |done| && at + |s| <= buf.Length && Written(buf[..], done)
    modifies buf
    ensures Written(buf[..], done + s)
  {
    for i := 0 to |s|
      invariant buf[..at] == done && buf[at..at + i] == s[..i]
      invariant forall k :: at + i <= k < buf.Length ==> buf[k] == 0
    {
      buf[at + i] := s[i];
      assert buf[at..at + i + 1] == buf[at..at + i] + [s[i]];
    }
    assert buf[..] == buf[..at] + buf[at..at + |s|] + buf[at + |s|..];
    assert buf[at + |s|..] == Zeros(buf.Length - at - |s|);
  }

  /** Passes over bytes that stay zero. */
  lemma Skip(buf: seq<byte>, done: seq<byte>, n: nat)
    requires Written(buf, done) && |done| + n <= |buf|
    ensures Written(buf, done + Zeros(n))
  {
    assert Zeros(|buf| - |done|) == Zeros(n) + Zeros(|buf| - |done| - n);
  }

  lemma ZeroField(n: nat)
    ensures LE(0, n) == Zeros(n)
  {
    if n > 0 {
      ZeroField(n - 1);
    }
  }

  /** The first bytes of the text that fit, into a field that is zero already. */
  method PutFixedString(buf: array<byte>, ghost done: seq<byte>, at: nat, value: seq<byte>, size: nat)
    requires size > 0 && at == |done| && at + size <= buf.Length && Written(buf[..], done)
    modifies buf
    ensures Written(buf[..], done + FixedString(value, size))
  {
    var len := if |value| > size - 1 then size - 1 else |value|;
    var kept := value[..len];
    Put(buf, done, at, kept);
    Skip(buf[..], done + kept, size - len);
    assert done + FixedString(value, size) == done + kept + Zeros(size - len);
  }

  // ----- The browser's encoder -----

  /** "en-US" */
  const LANGUAGE: seq<byte> := [0x65, 0x6E, 0x2D, 0x55, 0x53]

  function PageMetadata(title: seq<byte>, createTime: nat): Metadata {
    Metadata(title, [], createTime, LANGUAGE)
  }

  // What comes before the packed rows in a file of one page.
  function OnePagePrefix(w: nat, h: nat, title: seq<byte>, createTime: nat): seq<byte> {
    var size := RowBytes(w) * h;
    ContainerHeader(1) + MetadataBlock(PageMetadata(title, createTime))
    + (LE(DataOffset(1), 8) + LE(XTG_HEADER_SIZE + size, 4) + LE(w, 2) + LE(h, 2))
    + (LE(MAGIC_XTG, 4) + LE(w, 2) + LE(h, 2) + [0, 0] + LE(size, 4) + LE(0, 8))
  }

  lemma OnePageFile(b: Bitmap, title: seq<byte>, createTime: nat)
    requires ValidBitmap(b)
    ensures XtcFile([b], PageMetadata(title, createTime))
         == OnePagePrefix(b.width, b.height, title, createTime) + PackedRows(b.rows)
    ensures |XtcFile([b], PageMetadata(title, createTime))|
         == DataOffset(1) + XTG_HEADER_SIZE + RowBytes(b.width) * b.height
  {
    OnePage(b, DataOffset(1));
    PageSize(b);
    PackedRowsSize(b.width, b.rows);
    hide RowBytes, PackedRows, LE, ContainerHeader, MetadataBlock;
  }

  method PutContainerHeader(buf: array<byte>)
    requires buf.Length >= XTC_HEADER_SIZE && Written(buf[..], [])
    modifies buf
    ensures Written(buf[..], ContainerHeader(1))
  {
    hide LE, Written;
    ghost var done: seq<byte> := [];
    Put(buf, done, 0x00, LE(MAGIC_XTC, 4));
    done := done + LE(MAGIC_XTC, 4);
    Put(buf, done, 0x04, LE(0x0100, 2));
    done := done + LE(0x0100, 2);
    Put(buf, done, 0x06, LE(1, 2));
    done := done + LE(1, 2);
    Put(buf, done, 0x08, [0, 1, 0, 0]);
    done := done + [0, 1, 0, 0];
    Put(buf, done, 0x0C, LE(0, 4));
    done := done + LE(0, 4);
    Put(buf, done, 0x10, LE(XTC_HEADER_SIZE, 8));
    done := done + LE(XTC_HEADER_SIZE, 8);
    Put(buf, done, 0x18, LE(IndexOffset(), 8));
    done := done + LE(IndexOffset(), 8);
    Put(buf, done, 0x20, LE(DataOffset(1), 8));
    done := done + LE(DataOffset(1), 8);
    Put(buf, done, 0x28, LE(0, 8));
    done := done + LE(0, 8);
    Put(buf, done, 0x30, LE(0, 8));
    assert [] + LE(MAGIC_XTC, 4) == LE(MAGIC_XTC, 4);
  }

  method PutMetadata(buf: array<byte>, ghost done: seq<byte>, title: seq<byte>, createTime: nat)
    requires |done| == XTC_HEADER_SIZE && buf.Length >= IndexOffset() && Written(buf[..], done)
    modifies buf
    ensures Written(buf[..], done + MetadataBlock(PageMetadata(title, createTime)))
  {
    hide LE, Written, FixedString, Zeros;
    ghost var d := done;
    PutFixedString(buf, d, XTC_HEADER_SIZE, title, 128);
    d := d + FixedString(title, 128);
    PutFixedString(buf, d, XTC_HEADER_SIZE + 0x80, [], 64);
    d := d + FixedString([], 64);
    PutFixedString(buf, d, XTC_HEADER_SIZE + 0xC0, PUBLISHER, 32);
    d := d + FixedString(PUBLISHER, 32);
    PutFixedString(buf, d, XTC_HEADER_SIZE + 0xE0, LANGUAGE, 16);
    d := d + FixedString(LANGUAGE, 16);
    Put(buf, d, XTC_HEADER_SIZE + 0xF0, LE(createTime, 4));
    d := d + LE(createTime, 4);
    Put(buf, d, XTC_HEADER_SIZE + 0xF4, LE(0xFFFF, 2));
    d := d + LE(0xFFFF, 2);
    Put(buf, d, XTC_HEADER_SIZE + 0xF6, LE(0, 2));
    d := d + LE(0, 2);
    Skip(buf[..], d, 8);
    assert d + Zeros(8) == done + MetadataBlock(PageMetadata(title, createTime));
  }

  // The index entry of the only page, and the header of that page.
  method PutPageHeaders(buf: array<byte>, ghost done: seq<byte>, w: nat, h: nat, size: nat)
    requires |done| == IndexOffset() && buf.Length >= DataOffset(1) + XTG_HEADER_SIZE && Written(buf[..], done)
    modifies buf
    ensures Written(buf[..], done + (LE(DataOffset(1), 8) + LE(XTG_HEADER_SIZE + size, 4) + LE(w, 2) + LE(h, 2))
                             + (LE(MAGIC_XTG, 4) + LE(w, 2) + LE(h, 2) + [0, 0] + LE(size, 4) + LE(0, 8)))
  {
    hide LE, Written, Zeros;
    ghost var d := done;
    Put(buf, d, IndexOffset(), LE(DataOffset(1), 8));
    d := d + LE(DataOffset(1), 8);
    Put(buf, d, IndexOffset() + 0x08, LE(XTG_HEADER_SIZE + size, 4));
    d := d + LE(XTG_HEADER_SIZE + size, 4);
    Put(buf, d, IndexOffset() + 0x0C, LE(w, 2));
    d := d + LE(w, 2);
    Put(buf, d, IndexOffset() + 0x0E, LE(h, 2));
    d := d + LE(h, 2);
    Put(buf, d, DataOffset(1), LE(MAGIC_XTG, 4));
    d := d + LE(MAGIC_XTG, 4);
    Put(buf, d, DataOffset(1) + 0x04, LE(w, 2));
    d := d + LE(w, 2);
    Put(buf, d, DataOffset(1) + 0x06, LE(h, 2));
    d := d + LE(h, 2);
    Put(buf, d, DataOffset(1) + 0x08, [0, 0]);
    d := d + [0, 0];
    Put(buf, d, DataOffset(1) + 0x0A, LE(size, 4));
    d := d + LE(size, 4);
    Skip(buf[..], d, 8);
    ZeroField(8);
    assert d + LE(0, 8) == done + (LE(DataOffset(1), 8) + LE(XTG_HEADER_SIZE + size, 4) + LE(w, 2) + LE(h, 2))
                             + (LE(MAGIC_XTG, 4) + LE(w, 2) + LE(h, 2) + [0, 0] + LE(size, 4) + LE(0, 8));
  }

  // ----- The rows of the only page -----

  lemma FirstCarry(img: Image)
    requires ValidImage(img)
    ensures forall x :: 0 <= x < img.width ==> Carry(img, 0, x) == 0.0
  {
  }

  lemma RowRoom(length: nat, at: nat, y: nat, h: nat, rb: nat)
    requires length == at + rb * h && y < h
    ensures 0 <= y * rb && at + y * rb + rb <= length && (y + 1) * rb == y * rb + rb
  {
    MulMono(y + 1, h, rb);
    Distribute(y + 1, rb, 0);
    MulMono(0, y, rb);
  }

  lemma ZeroTail(buf: seq<byte>, done: seq<byte>, n: nat)
    requires Written(buf, done) && |done| + n <= |buf|
    ensures buf[..|done|] == done && buf[|done|..|done| + n] == Zeros(n)
    ensures buf[|done| + n..] == Zeros(|buf| - |done| - n)
  {
  }

  lemma RowDone(buf: seq<byte>, done: seq<byte>, r: seq<byte>)
    requires |done| + |r| <= |buf|
    requires buf[..|done|] == done && buf[|done|..|done| + |r|] == r
    requires buf[|done| + |r|..] == Zeros(|buf| - |done| - |r|)
    ensures Written(buf, done + r)
  {
    assert buf == buf[..|done|] + buf[|done|..|done| + |r|] + buf[|done| + |r|..];
  }

  lemma {:induction false} PackedRowsConcat(a: seq<seq<bool>>, b: seq<seq<bool>>)
    ensures PackedRows(a + b) == PackedRows(a) + PackedRows(b)
  {
    hide PackedRow;
    if a == [] {
      assert a + b == b;
    } else {
      assert (a + b)[0] == a[0] && (a + b)[1..] == a[1..] + b;
      PackedRowsConcat(a[1..], b);
    }
  }

  lemma PackedRowsSnoc(rows: seq<seq<bool>>, y: nat)
    requires y < |rows|
    ensures PackedRows(rows[..y + 1]) == PackedRows(rows[..y]) + PackedRow(rows[y])
  {
    hide PackedRow;
    assert rows[..y + 1] == rows[..y] + [rows[y]];
    PackedRowsConcat(rows[..y], [rows[y]]);
    assert [rows[y]][1..] == [];
  }

  // One row, right behind what is written.
  method PutRow(img: Image, y: nat, row: array<real>, carry: array<real>, next: array<real>,
                buf: array<byte>, ghost done: seq<byte>, at: nat)
    requires ValidImage(img) && y < img.height
    requires row.Length == carry.Length == next.Length == img.width
    requires row != carry && row != next && carry != next
    requires at == |done| && at + RowBytes(img.width) <= buf.Length && Written(buf[..], done)
    requires forall x :: 0 <= x < img.width ==> carry[x] == Carry(img, y, x)
    modifies row, next, buf
    ensures Written(buf[..], done + PackedRow(WhiteRow(img, y)))
    ensures y + 1 < img.height ==> forall x :: 0 <= x < img.width ==> next[x] == Carry(img, y + 1, x)
  {
    hide RowBytes, PackedRow, Carry, WhiteRow, Written;
    ghost var rb := RowBytes(img.width);
    ZeroTail(buf[..], done, rb);
    assert buf[at..at + rb] == buf[..][at..at + rb] && buf[..at] == buf[..][..at];
    DitherRow(img, y, row, carry, next, buf, at);
    assert buf[at..at + rb] == buf[..][at..at + rb] && buf[..at] == buf[..][..at];
    RowDone(buf[..], done, PackedRow(WhiteRow(img, y)));
  }

  /** Dithers the whole image into the rest of the buffer. */
  method PutDithered(buf: array<byte>, ghost done: seq<byte>, at: nat, img: Image)
    requires ValidImage(img) && at == |done| && Written(buf[..], done)
    requires buf.Length == at + RowBytes(img.width) * img.height
    modifies buf
    ensures buf[..] == done + PackedRows(WhiteRows(img, 0))
  {
    hide RowBytes, PackedRow, PackedRows, Carry, WhiteRow, WhiteRows, Written;
    var w, h := img.width, img.height;
    var rowBytes := RowBytes(w);
    var row, carry, next := new real[w], new real[w](i => 0.0), new real[w];
    FirstCarry(img);
    ghost var rows := WhiteRows(img, 0);
    ghost var before := done;
    NoRows(done);
    assert rows[..0] == [];
    for y := 0 to h
      invariant fresh(row) && fresh(carry) && fresh(next)
      invariant row != carry && row != next && carry != next
      invariant row.Length == carry.Length == next.Length == w
      invariant y < h ==> forall x :: 0 <= x < w ==> carry[x] == Carry(img, y, x)
      invariant before == done + PackedRows(rows[..y]) && |before| == at + y * rowBytes
      invariant Written(buf[..], before)
    {
      RowRoom(buf.Length, at, y, h, rowBytes);
      PutRow(img, y, row, carry, next, buf, before, at + y * rowBytes);
      PackedRowsSnoc(rows, y);
      assert rows[y] == WhiteRow(img, y);
      before := before + PackedRow(rows[y]);
      carry, next := next, carry;
    }
    assert rows[..h] == rows;
    FullyWritten(buf[..], before);
  }

  lemma NoRows(done: seq<byte>)
    ensures done + PackedRows([]) == done
  {
  }

  lemma FullyWritten(buf: seq<byte>, done: seq<byte>)
    requires Written(buf, done) && |buf| == |done|
    ensures buf == done
  {
  }

  /**
   * Dithers a grey image into a whole file of one page: byte for byte the file that the
   * server's encoder makes of the dithered page. There is none for an image without pixels.
   */
  method EncodeSinglePage(img: Image, title: seq<byte>, createTime: nat) returns (buf: array?<byte>)
    requires img.width < 65536 && img.height < 65536 && |img.pixels| == img.height * img.width
    requires createTime < 0x1_0000_0000 && 0 !in title
    ensures buf == null <==> img.width == 0 || img.height == 0
    ensures buf != null ==> fresh(buf) && ValidImage(img)
    ensures buf != null ==> buf[..] == XtcFile([Dithered(img)], Metadata(title, [], createTime, [0x65, 0x6E, 0x2D, 0x55, 0x53]))
  {
    hide ContainerHeader, MetadataBlock, Written, RowBytes, LE, XtcFile, PackedRows, WhiteRows;
    if img.width == 0 || img.height == 0 {
      return null;
    }
    var w, h := img.width, img.height;
    var size := RowBytes(w) * h;
    MulMono(0, h, RowBytes(w));
    buf := new byte[DataOffset(1) + XTG_HEADER_SIZE + size](i => 0);
    AllZero(buf[..]);
    PutContainerHeader(buf);
    PutMetadata(buf, ContainerHeader(1), title, createTime);
    PutPageHeaders(buf, ContainerHeader(1) + MetadataBlock(PageMetadata(title, createTime)), w, h, size);
    PutDithered(buf, OnePagePrefix(w, h, title, createTime), DataOffset(1) + XTG_HEADER_SIZE, img);
    OnePageFile(Dithered(img), title, createTime);
  }

  lemma AllZero(buf: seq<byte>)
    requires forall i :: 0 <= i < |buf| ==> buf[i] == 0
    ensures Written(buf, [])
  {
    assert buf == [] + Zeros(|buf|);
  }

  // ----- The preview's decoder -----

  /** The first n pixels of a row of the page, one byte each. */
  function UnpackedRow(file: seq<byte>, page: nat, y: nat, n: nat): (s: seq<byte>)
    requires FindPage(file, page).Found?
    requires y < FindPage(file, page).height && n <= FindPage(file, page).width
    ensures |s| == n
  {
    if n == 0 then []
    else UnpackedRow(file, page, y, n - 1) + [if DecodedPixel(file, page, y, n - 1) then 255 else 0]
  }

  function UnpackedRows(file: seq<byte>, page: nat, n: nat): (s: seq<byte>)
    requires FindPage(file, page).Found? && n <= FindPage(file, page).height
    ensures |s| == n * FindPage(file, page).width
  {
    if n == 0 then []
    else
      Distribute(n, FindPage(file, page).width, 0);
      UnpackedRows(file, page, n - 1) + UnpackedRow(file, page, n - 1, FindPage(file, page).width)
  }

  /** Unpacks a page into one byte per pixel, 255 for white; null when the file is not sound. */
  method DecodePage(file: seq<byte>, page: nat) returns (pixels: array?<byte>, width: nat, height: nat)
    ensures pixels == null <==> FindPage(file, page).NotFound?
    ensures pixels != null ==> (fresh(pixels) && width == FindPage(file, page).width
                                && height == FindPage(file, page).height)
    ensures pixels != null ==> pixels[..] == UnpackedRows(file, page, height)
  {
    hide FindPage, DecodedPixel;
    var f := FindPage(file, page);
    if f.NotFound? {
      return null, 0, 0;
    }
    width, height := f.width, f.height;
    MulMono(0, height, width);
    pixels := new byte[height * width];
    for y := 0 to height
      invariant fresh(pixels) && pixels.Length == height * width && 0 <= y * width <= pixels.Length
      invariant pixels[..y * width] == UnpackedRows(file, page, y)
    {
      RowRoom(height * width, 0, y, height, width);
      var at := y * width;
      for x := 0 to width
        invariant fresh(pixels) && pixels.Length == height * width && at + width <= pixels.Length
        invariant pixels[..at + x] == UnpackedRows(file, page, y) + UnpackedRow(file, page, y, x)
      {
        var bit := ReadPixel(file, page, y, x);
        pixels[at + x] := if bit then 255 else 0;
        assert pixels[..at + x + 1] == pixels[..at + x] + [pixels[at + x]];
      }
    }
    assert pixels[..height * width] == pixels[..];
  }

  /** One bit of the packed rows. */
  method ReadPixel(file: seq<byte>, page: nat, y: nat, x: nat) returns (bit: bool)
    requires FindPage(file, page).Found?
    requires y < FindPage(file, page).height && x < FindPage(file, page).width
    ensures bit == DecodedPixel(file, page, y, x)
  {
    FoundFits(file, page, y, x);
    var f := FindPage(file, page);
    hide FindPage;
    var srcRow := f.data + y * RowBytes(f.width);
    var b := file[srcRow + x / 8];
    bit := (b / Mask(x % 8)) % 2 == 1;
  }

  /** A page as the preview shows it: 255 for white, 0 for black. */
  function Shown(row: seq<bool>): (s: seq<byte>)
    ensures |s| == |row|
  {
    if row == [] then [] else Shown(row[..|row| - 1]) + [if row[|row| - 1] then 255 else 0]
  }

  function ShownRows(rows: seq<seq<bool>>): seq<byte> {
    if rows == [] then [] else ShownRows(rows[..|rows| - 1]) + Shown(rows[|rows| - 1])
  }

  /** The decoder reads exactly these pixels. */
  ghost predicate Decodes(file: seq<byte>, page: nat, b: Bitmap) {
    && ValidBitmap(b)
    && FindPage(file, page).Found?
    && FindPage(file, page).width == b.width && FindPage(file, page).height == b.height
    && forall y, x :: 0 <= y < b.height && 0 <= x < b.width ==> DecodedPixel(file, page, y, x) == b.rows[y][x]
  }

  lemma {:induction false} RowShown(file: seq<byte>, page: nat, b: Bitmap, y: nat, n: nat)
    requires Decodes(file, page, b) && y < b.height && n <= b.width
    ensures UnpackedRow(file, page, y, n) == Shown(b.rows[y][..n])
  {
    hide FindPage, DecodedPixel;
    if n > 0 {
      RowShown(file, page, b, y, n - 1);
      var row := b.rows[y];
      assert row[..n][..n - 1] == row[..n - 1] && row[..n][n - 1] == row[n - 1];
    }
  }

  lemma {:induction false} RowsShown(file: seq<byte>, page: nat, b: Bitmap, n: nat)
    requires Decodes(file, page, b) && n <= b.height
    ensures UnpackedRows(file, page, n) == ShownRows(b.rows[..n])
  {
    hide FindPage, DecodedPixel, UnpackedRow, Shown;
    if n > 0 {
      RowsShown(file, page, b, n - 1);
      RowShown(file, page, b, n - 1, b.width);
      var rows := b.rows;
      assert rows[..n][..n - 1] == rows[..n - 1] && rows[..n][n - 1] == rows[n - 1];
      assert rows[n - 1][..b.width] == rows[n - 1];
    }
  }

  /** The preview of page i of an encoded file is that page, and it has the page's size. */
  lemma PreviewShowsPage(pages: seq<Bitmap>, m: Metadata, i: nat)
    requires ValidPages(pages) && i < |pages| && |XtcFile(pages, m)| < Pow256(4)
    ensures var f := FindPage(XtcFile(pages, m), i);
            && f.Found? && f.width == pages[i].width && f.height == pages[i].height
            && UnpackedRows(XtcFile(pages, m), i, f.height) == ShownRows(pages[i].rows)
  {
    var file, b := XtcFile(pages, m), pages[i];
    assert ValidBitmap(b);
    hide FindPage, XtcFile, ValidPages, Pow256, DecodedPixel, ShownRows, UnpackedRows;
    DecodesBack(pages, m, i, 0, 0);
    forall y, x | 0 <= y < b.height && 0 <= x < b.width ensures DecodedPixel(file, i, y, x) == b.rows[y][x] {
      DecodesBack(pages, m, i, y, x);
    }
    RowsShown(file, i, b, b.height);
    assert b.rows[..b.height] == b.rows;
  }
}
