/**
 * Drawing a page into the panel's framebuffer: the bulk copy for a page of panel size,
 * and the row path that centres and clips any other page by whole bytes.
 */
module Render {
  import opened CArith
  import opened Bits
  import opened XtcFormat

  const BULK_CHUNK_BYTES: nat := 2048
  const MAX_ROW_BYTES: nat := 128

  datatype RenderResult = Ok | IoError | UnsupportedFormat | SizeMismatch

  /** A page's dimensions with the file's bytes from its packed rows on. */
  datatype Page = Page(width: nat, height: nat, data: seq<byte>)

  datatype Panel = Panel(width: nat, height: nat)

  function DataSize(p: Page): nat {
    RowBytes(p.width) * p.height
  }

  function FrameSize(panel: Panel): nat {
    RowBytes(panel.width) * panel.height
  }

  // ----- What the row path shows -----

  function YOffset(p: Page, panel: Panel): int {
    TruncDiv(panel.height - p.height, 2)
  }

  function XOffset(p: Page, panel: Panel): int {
    TruncDiv(panel.width - p.width, 2)
  }

  function ByteOffset(p: Page, panel: Panel): int {
    TruncDiv(XOffset(p, panel), 8)
  }

  function RowAt(s: seq<byte>, rb: nat, y: nat): (r: seq<byte>)
    requires 0 <= y * rb && y * rb + rb <= |s|
    ensures |r| == rb
  {
    s[y * rb..y * rb + rb]
  }

  function WhiteBytes(n: nat): (s: seq<byte>)
    ensures |s| == n && forall i :: 0 <= i < n ==> s[i] == 0xFF
  {
    seq(n, i => 0xFF)
  }

  /** A panel row that a source row is laid over, shifted by whole bytes; white elsewhere. */
  function Shifted(src: seq<byte>, n: nat, shift: int): (row: seq<byte>)
    ensures |row| == n
    ensures forall b :: 0 <= b < n ==> row[b] == (if 0 <= b - shift < |src| then src[b - shift] else 0xFF)
  {
    seq(n, b requires 0 <= b < n => if 0 <= b - shift < |src| then src[b - shift] else 0xFF)
  }

  lemma SourceRowFits(p: Page, y: int)
    requires |p.data| >= DataSize(p) && 0 <= y < p.height
    ensures 0 <= y * RowBytes(p.width) && y * RowBytes(p.width) + RowBytes(p.width) <= |p.data|
  {
    MulMono(y + 1, p.height, RowBytes(p.width));
    Distribute(y + 1, RowBytes(p.width), 0);
    MulMono(0, y, RowBytes(p.width));
  }

  /** The file still has a source row's bytes. */
  predicate RowThere(p: Page, srcY: int) {
    0 <= srcY * RowBytes(p.width) && srcY * RowBytes(p.width) + RowBytes(p.width) <= |p.data|
  }

  /** Every source row that falls on the panel is there. */
  ghost predicate VisibleThere(p: Page, panel: Panel) {
    forall srcY :: 0 <= srcY < p.height && 0 <= YOffset(p, panel) + srcY < panel.height ==> RowThere(p, srcY)
  }

  lemma AllThere(p: Page, panel: Panel)
    requires |p.data| >= DataSize(p)
    ensures VisibleThere(p, panel)
  {
    hide YOffset, DataSize, RowBytes;
    forall srcY | 0 <= srcY < p.height ensures RowThere(p, srcY) {
      SourceRowFits(p, srcY);
    }
  }

  /** Row y of the panel. */
  function PanelRow(p: Page, panel: Panel, y: int): (row: seq<byte>)
    ensures |row| == RowBytes(panel.width)
  {
    var srcY := y - YOffset(p, panel);
    if 0 <= srcY < p.height && RowThere(p, srcY) then
      Shifted(RowAt(p.data, RowBytes(p.width), srcY), RowBytes(panel.width), ByteOffset(p, panel))
    else WhiteBytes(RowBytes(panel.width))
  }

  /** The framebuffer shows the page: all that is visible is there, and every panel row is as it should be. */
  ghost predicate ShowsPage(fb: seq<byte>, p: Page, panel: Panel) {
    && |fb| >= FrameSize(panel) && VisibleThere(p, panel)
    && forall y :: 0 <= y < panel.height ==> RowIs(fb, RowBytes(panel.width), y, PanelRow(p, panel, y))
  }

  predicate RowIs(fb: seq<byte>, rb: nat, y: nat, row: seq<byte>) {
    0 <= y * rb && y * rb + rb <= |fb| && RowAt(fb, rb, y) == row
  }

  lemma FrameRowFits(rb: nat, h: nat, y: nat, size: nat)
    requires y < h && size >= rb * h
    ensures 0 <= y * rb && y * rb + rb <= size
  {
    MulMono(y + 1, h, rb);
    Distribute(y + 1, rb, 0);
    MulMono(0, y, rb);
  }

  /** Only row y may differ. */
  ghost predicate RowChanged(s: seq<byte>, s': seq<byte>, rb: nat, y: nat) {
    && |s'| == |s| && 0 <= y * rb && y * rb + rb <= |s|
    && s'[..y * rb] == s[..y * rb] && s'[y * rb + rb..] == s[y * rb + rb..]
  }

  // Replacing one row leaves the others.
  lemma RowSpliced(s: seq<byte>, s': seq<byte>, rb: nat, y: nat, z: nat, row: seq<byte>)
    requires y != z && RowChanged(s, s', rb, y) && RowIs(s, rb, z, row)
    ensures RowIs(s', rb, z, row)
  {
    if z < y {
      MulMono(z + 1, y, rb);
      Distribute(z + 1, rb, 0);
      assert RowAt(s', rb, z) == s'[..y * rb][z * rb..z * rb + rb];
      assert RowAt(s, rb, z) == s[..y * rb][z * rb..z * rb + rb];
    } else {
      MulMono(y + 1, z, rb);
      Distribute(y + 1, rb, 0);
      var k := z * rb - (y * rb + rb);
      SliceOfRest(s', y * rb + rb, k, rb);
      SliceOfRest(s, y * rb + rb, k, rb);
    }
  }

  lemma SliceOfRest(s: seq<byte>, from: nat, k: nat, n: nat)
    requires from + k + n <= |s|
    ensures s[from..][k..k + n] == s[from + k..from + k + n]
  {
  }

  // ----- The two paths -----

  /** Copies a page of panel size in chunks. */
  method FastPath(p: Page, fb: array<byte>) returns (r: RenderResult)
    requires fb.Length >= DataSize(p)
    modifies fb
    ensures r == if |p.data| >= DataSize(p) then Ok else IoError
    ensures r.Ok? ==> fb[..DataSize(p)] == p.data[..DataSize(p)]
    ensures fb[DataSize(p)..] == old(fb[DataSize(p)..])
  {
    var size := DataSize(p);
    hide DataSize;
    var dst := 0;
    while dst < size
      invariant 0 <= dst <= size && dst <= |p.data|
      invariant fb[..dst] == p.data[..dst]
      invariant fb[size..] == old(fb[size..])
    {
      var chunk := if size - dst < BULK_CHUNK_BYTES then size - dst else BULK_CHUNK_BYTES;
      if dst + chunk > |p.data| {
        return IoError;
      }
      forall i | 0 <= i < chunk {
        fb[dst + i] := p.data[dst + i];
      }
      assert fb[..dst + chunk] == fb[..dst] + p.data[dst..dst + chunk];
      dst := dst + chunk;
    }
    r := Ok;
  }

  lemma Overlaid(before: seq<byte>, now: seq<byte>, src: seq<byte>, at: nat, n: nat, len: nat)
    requires at + n <= |before| && before[at..at + n] == WhiteBytes(n)
    requires len == (if |src| < n then |src| else n)
    requires now == before[..at] + src[..len] + before[at + len..]
    ensures now[at..at + n] == Shifted(src, n, 0)
    ensures now[..at] == before[..at] && now[at + n..] == before[at + n..]
  {
    assert now[at..at + n] == src[..len] + before[at..at + n][len..];
  }

  /** Lays one source row over a panel row that is still white. */
  method LayRow(src: seq<byte>, fb: array<byte>, at: nat, n: nat, xOffset: int)
    requires at + n <= fb.Length && fb[at..at + n] == WhiteBytes(n)
    modifies fb
    ensures fb[at..at + n] == Shifted(src, n, TruncDiv(xOffset, 8))
    ensures fb[..at] == old(fb[..at]) && fb[at + n..] == old(fb[at + n..])
  {
    if xOffset == 0 {
      ghost var before := fb[..];
      var len := if |src| < n then |src| else n;
      forall i | 0 <= i < len {
        fb[at + i] := src[i];
      }
      assert fb[..] == before[..at] + src[..len] + before[at + len..];
      Overlaid(before, fb[..], src, at, n, len);
    } else {
      var byteOffset := TruncDiv(xOffset, 8);
      hide TruncDiv;
      for srcByte := 0 to |src|
        invariant fb[at..at + n] == Shifted(src[..srcByte], n, byteOffset)
        invariant fb[..at] == old(fb[..at]) && fb[at + n..] == old(fb[at + n..])
      {
        var dstByte := srcByte + byteOffset;
        if dstByte < 0 || dstByte >= n {
          continue;
        }
        fb[at + dstByte] := src[srcByte];
      }
    }
  }

  // ----- What the loop of the row path keeps -----

  lemma ProductNonNegative(a: int, b: int)
    requires a >= 0 && b >= 0
    ensures a * b >= 0
  {
  }

  ghost predicate AllWhiteBelow(fb: seq<byte>, size: nat) {
    size <= |fb| && forall i :: 0 <= i < size ==> fb[i] == 0xFF
  }

  lemma WhiteRow(fb: seq<byte>, panel: Panel, y: nat)
    requires AllWhiteBelow(fb, FrameSize(panel)) && y < panel.height
    ensures RowIs(fb, RowBytes(panel.width), y, WhiteBytes(RowBytes(panel.width)))
  {
    hide RowBytes;
    FrameRowFits(RowBytes(panel.width), panel.height, y, FrameSize(panel));
    assert RowAt(fb, RowBytes(panel.width), y) == WhiteBytes(RowBytes(panel.width));
  }

  /** After the first n source rows: the panel rows they fall on are drawn, the others white. */
  ghost predicate Drawn(fb: seq<byte>, p: Page, panel: Panel, n: int) {
    && (forall y :: 0 <= y < panel.height && !(0 <= y - YOffset(p, panel) < n) ==>
          RowIs(fb, RowBytes(panel.width), y, WhiteBytes(RowBytes(panel.width))))
    && (forall y :: 0 <= y < panel.height && 0 <= y - YOffset(p, panel) < n ==>
          RowIs(fb, RowBytes(panel.width), y, PanelRow(p, panel, y)))
  }

  lemma NothingDrawn(fb: seq<byte>, p: Page, panel: Panel)
    requires AllWhiteBelow(fb, FrameSize(panel))
    ensures Drawn(fb, p, panel, 0)
  {
    hide RowBytes, FrameSize, YOffset, RowIs, PanelRow;
    forall y | 0 <= y < panel.height
      ensures RowIs(fb, RowBytes(panel.width), y, WhiteBytes(RowBytes(panel.width)))
    {
      WhiteRow(fb, panel, y);
    }
  }

  lemma RowOutside(fb: seq<byte>, p: Page, panel: Panel, srcY: nat)
    requires Drawn(fb, p, panel, srcY)
    requires !(0 <= YOffset(p, panel) + srcY < panel.height)
    ensures Drawn(fb, p, panel, srcY + 1)
  {
    hide RowBytes, YOffset, RowIs, PanelRow;
  }

  /** One more row laid down. */
  lemma RowDrawn(before: seq<byte>, now: seq<byte>, p: Page, panel: Panel, srcY: nat)
    requires Drawn(before, p, panel, srcY) && srcY < p.height
    requires 0 <= YOffset(p, panel) + srcY < panel.height
    requires RowChanged(before, now, RowBytes(panel.width), YOffset(p, panel) + srcY)
    requires RowIs(now, RowBytes(panel.width), YOffset(p, panel) + srcY, PanelRow(p, panel, YOffset(p, panel) + srcY))
    ensures Drawn(now, p, panel, srcY + 1)
  {
    hide RowBytes, YOffset, RowIs, PanelRow, RowChanged;
    var rb, at := RowBytes(panel.width), YOffset(p, panel) + srcY;
    forall y | 0 <= y < panel.height && !(0 <= y - YOffset(p, panel) < srcY + 1)
      ensures RowIs(now, rb, y, WhiteBytes(rb))
    {
      RowSpliced(before, now, rb, at, y, WhiteBytes(rb));
    }
    forall y | 0 <= y < panel.height && 0 <= y - YOffset(p, panel) < srcY + 1
      ensures RowIs(now, rb, y, PanelRow(p, panel, y))
    {
      if y != at {
        RowSpliced(before, now, rb, at, y, PanelRow(p, panel, y));
      }
    }
  }

  lemma ShownAtEnd(fb: seq<byte>, p: Page, panel: Panel)
    requires Drawn(fb, p, panel, p.height) && VisibleThere(p, panel) && |fb| >= FrameSize(panel)
    ensures ShowsPage(fb, p, panel)
  {
    hide RowBytes, YOffset, RowIs, FrameSize, RowAt, Shifted, RowThere, VisibleThere;
    forall y | 0 <= y < panel.height
      ensures RowIs(fb, RowBytes(panel.width), y, PanelRow(p, panel, y))
    {
      if !(0 <= y - YOffset(p, panel) < p.height) {
        assert PanelRow(p, panel, y) == WhiteBytes(RowBytes(panel.width));
      }
    }
  }

  lemma StillWhite(fb: seq<byte>, p: Page, panel: Panel, srcY: nat, dstY: nat)
    requires Drawn(fb, p, panel, srcY) && dstY == YOffset(p, panel) + srcY && dstY < panel.height
    ensures RowIs(fb, RowBytes(panel.width), dstY, WhiteBytes(RowBytes(panel.width)))
  {
    hide RowBytes, YOffset, RowIs, PanelRow;
  }

  lemma LaidRow(before: seq<byte>, now: seq<byte>, p: Page, panel: Panel, srcY: nat, dstY: nat)
    requires Drawn(before, p, panel, srcY) && srcY < p.height
    requires dstY == YOffset(p, panel) + srcY && dstY < panel.height
    requires RowChanged(before, now, RowBytes(panel.width), dstY)
    requires RowThere(p, srcY)
    requires RowIs(now, RowBytes(panel.width), dstY,
                   Shifted(RowAt(p.data, RowBytes(p.width), srcY), RowBytes(panel.width), ByteOffset(p, panel)))
    ensures Drawn(now, p, panel, srcY + 1)
  {
    hide RowBytes, YOffset, RowIs, RowChanged, Drawn, RowAt, Shifted, ByteOffset;
    RowDrawn(before, now, p, panel, srcY);
  }

  /** Lays source row srcY on the panel row dstY, which is still white. */
  method DrawRow(p: Page, panel: Panel, fb: array<byte>, srcY: nat, dstY: nat)
    requires fb.Length >= FrameSize(panel)
    requires srcY < p.height && dstY == YOffset(p, panel) + srcY && dstY < panel.height
    requires RowThere(p, srcY)
    requires Drawn(fb[..], p, panel, srcY)
    modifies fb
    ensures Drawn(fb[..], p, panel, srcY + 1)
    ensures fb[FrameSize(panel)..] == old(fb[FrameSize(panel)..])
  {
    hide RowBytes, YOffset, XOffset, TruncDiv, Drawn, PanelRow, Shifted;
    var srcRowBytes, rb := RowBytes(p.width), RowBytes(panel.width);
    FrameRowFits(rb, panel.height, dstY, FrameSize(panel));
    ghost var before, size := fb[..], FrameSize(panel);
    hide FrameSize;
    StillWhite(before, p, panel, srcY, dstY);
    assert fb[dstY * rb..dstY * rb + rb] == RowAt(before, rb, dstY);
    LayRow(RowAt(p.data, srcRowBytes, srcY), fb, dstY * rb, rb, XOffset(p, panel));
    assert fb[size..] == fb[dstY * rb + rb..][size - (dstY * rb + rb)..];
    assert before[size..] == before[dstY * rb + rb..][size - (dstY * rb + rb)..];
    LaidRow(before, fb[..], p, panel, srcY, dstY);
  }

  /** Centres and clips the page, one source row at a time. */
  method RowPath(p: Page, panel: Panel, fb: array<byte>) returns (r: RenderResult)
    requires fb.Length >= FrameSize(panel)
    modifies fb
    ensures r == if RowBytes(p.width) > MAX_ROW_BYTES then UnsupportedFormat
                 else if VisibleThere(p, panel) then Ok else IoError
    ensures r.UnsupportedFormat? ==> fb[..] == old(fb[..])
    ensures r.Ok? ==> ShowsPage(fb[..], p, panel)
    ensures fb[FrameSize(panel)..] == old(fb[FrameSize(panel)..])
  {
    hide RowBytes, YOffset, TruncDiv, FrameSize, Drawn, ShowsPage;
    var srcRowBytes := RowBytes(p.width);
    if srcRowBytes > MAX_ROW_BYTES {
      return UnsupportedFormat;
    }
    var size := FrameSize(panel);
    forall i | 0 <= i < size {
      fb[i] := 0xFF;
    }
    assert fb[size..] == old(fb[size..]);
    NothingDrawn(fb[..], p, panel);
    for srcY := 0 to p.height
      invariant fb[size..] == old(fb[size..])
      invariant Drawn(fb[..], p, panel, srcY)
      invariant forall k :: 0 <= k < srcY && 0 <= YOffset(p, panel) + k < panel.height ==> RowThere(p, k)
    {
      var dstY := YOffset(p, panel) + srcY;
      if dstY < 0 || dstY >= panel.height {
        RowOutside(fb[..], p, panel, srcY);
        continue;
      }
      ProductNonNegative(srcY, srcRowBytes);
      if srcY * srcRowBytes + srcRowBytes > |p.data| {
        assert !RowThere(p, srcY);
        return IoError;
      }
      DrawRow(p, panel, fb, srcY, dstY);
    }
    ShownAtEnd(fb[..], p, panel);
    r := Ok;
  }

  // A page of panel size, copied, is centred on the panel.
  lemma CopyShows(fb: seq<byte>, p: Page, panel: Panel)
    requires p.width == panel.width && p.height == panel.height
    requires |p.data| >= DataSize(p) && |fb| >= DataSize(p) && fb[..DataSize(p)] == p.data[..DataSize(p)]
    ensures ShowsPage(fb, p, panel)
  {
    hide RowBytes, PanelRow, RowIs, RowAt, VisibleThere;
    var rb, size := RowBytes(p.width), DataSize(p);
    AllThere(p, panel);
    forall y | 0 <= y < panel.height ensures RowIs(fb, rb, y, PanelRow(p, panel, y)) {
      FrameRowFits(rb, panel.height, y, size);
      CopiedRow(fb, p.data, size, rb, y);
      CentredCopy(p, panel, y);
      IsThatRow(fb, rb, y);
    }
  }

  lemma IsThatRow(fb: seq<byte>, rb: nat, y: nat)
    requires 0 <= y * rb && y * rb + rb <= |fb|
    ensures RowIs(fb, rb, y, RowAt(fb, rb, y))
  {
  }

  lemma CentredCopy(p: Page, panel: Panel, y: nat)
    requires p.width == panel.width && p.height == panel.height && y < panel.height && |p.data| >= DataSize(p)
    requires 0 <= y * RowBytes(p.width) && y * RowBytes(p.width) + RowBytes(p.width) <= |p.data|
    ensures PanelRow(p, panel, y) == RowAt(p.data, RowBytes(p.width), y)
  {
    hide RowBytes, DataSize, RowAt;
    assert YOffset(p, panel) == 0 && ByteOffset(p, panel) == 0;
    var row := RowAt(p.data, RowBytes(p.width), y);
    assert Shifted(row, |row|, 0) == row;
  }

  lemma CopiedRow(s: seq<byte>, t: seq<byte>, size: nat, rb: nat, y: nat)
    requires size <= |s| && size <= |t| && s[..size] == t[..size]
    requires 0 <= y * rb && y * rb + rb <= size
    ensures RowAt(s, rb, y) == RowAt(t, rb, y)
  {
    assert RowAt(s, rb, y) == s[..size][y * rb..y * rb + rb];
    assert RowAt(t, rb, y) == t[..size][y * rb..y * rb + rb];
  }

  /** A page of the panel's own size is copied; any other has rows that fit the row buffer. */
  predicate Drawable(width: nat, height: nat, panel: Panel) {
    Panel(width, height) == panel || width <= 1024
  }

  lemma RowsThatFit(width: nat)
    ensures RowBytes(width) <= MAX_ROW_BYTES <==> width <= 1024
  {
  }

  /**
   * Draws a page, or says why not. Whichever path was taken, the framebuffer then shows the page
   * by the one definition of ShowsPage.
   */
  method RenderPage(p: Page, dataSize: nat, panel: Panel, fb: array<byte>) returns (r: RenderResult)
    modifies fb
    ensures r.SizeMismatch? <==> dataSize != DataSize(p) || fb.Length < FrameSize(panel)
    ensures r.UnsupportedFormat? <==> !r.SizeMismatch? && !Drawable(p.width, p.height, panel)
    ensures r.Ok? <==> !r.SizeMismatch? && !r.UnsupportedFormat?
                       && if Panel(p.width, p.height) == panel then |p.data| >= DataSize(p) else VisibleThere(p, panel)
    ensures r.Ok? ==> ShowsPage(fb[..], p, panel)
    ensures r.SizeMismatch? || r.UnsupportedFormat? ==> fb[..] == old(fb[..])
    ensures fb.Length >= FrameSize(panel) ==> fb[FrameSize(panel)..] == old(fb[FrameSize(panel)..])
  {
    RowsThatFit(p.width);
    hide ShowsPage, RowBytes, VisibleThere;
    if dataSize != DataSize(p) {
      return SizeMismatch;
    }
    if fb.Length < FrameSize(panel) {
      return SizeMismatch;
    }
    if p.width == panel.width && p.height == panel.height {
      r := FastPath(p, fb);
      if r.Ok? {
        assert fb[..][..DataSize(p)] == fb[..DataSize(p)];
        CopyShows(fb[..], p, panel);
      }
      return;
    }
    r := RowPath(p, panel, fb);
  }

  // ----- What a shown page looks like -----

  /** The pixel in column x of row y: true is white. */
  predicate PixelAt(s: seq<byte>, rb: nat, x: nat, y: nat)
    requires 0 <= y * rb && y * rb + rb <= |s| && x < 8 * rb
  {
    BitAt(RowAt(s, rb, y)[x / 8], x % 8)
  }

  predicate Readable(s: seq<byte>, width: nat, height: nat) {
    |s| >= RowBytes(width) * height
  }

  /** A bit of the page's rows, the padding of their last bytes included; white beyond. */
  predicate DataPixel(p: Page, sx: int, sy: int)
    requires Readable(p.data, p.width, p.height)
  {
    if 0 <= sx < 8 * RowBytes(p.width) && 0 <= sy < p.height then
      SourceRowFits(p, sy);
      PixelAt(p.data, RowBytes(p.width), sx, sy)
    else true
  }

  /** The page's pixel in a column and row, white beyond its edges. */
  predicate SourcePixel(p: Page, sx: int, sy: int)
    requires Readable(p.data, p.width, p.height)
  {
    if 0 <= sx < p.width && 0 <= sy < p.height then DataPixel(p, sx, sy) else true
  }

  predicate PanelPixel(fb: seq<byte>, panel: Panel, x: nat, y: nat)
    requires Readable(fb, panel.width, panel.height) && x < panel.width && y < panel.height
  {
    FrameRowFits(RowBytes(panel.width), panel.height, y, |fb|);
    PixelAt(fb, RowBytes(panel.width), x, y)
  }

  /** The page centred and clipped to the pixel, white around it. */
  ghost predicate ShowsCentred(fb: seq<byte>, p: Page, panel: Panel) {
    && Readable(p.data, p.width, p.height) && Readable(fb, panel.width, panel.height)
    && forall x: nat, y: nat :: x < panel.width && y < panel.height ==>
      PanelPixel(fb, panel, x, y) == SourcePixel(p, x - XOffset(p, panel), y - YOffset(p, panel))
  }

  lemma WhiteBits()
    ensures forall k :: 0 <= k < 8 ==> BitAt(0xFF, k)
  {
    forall k | 0 <= k < 8 ensures BitAt(0xFF, k) {
      assert k in {0, 1, 2, 3, 4, 5, 6, 7};
    }
  }

  // Shifting by whole bytes moves pixels by multiples of eight.
  lemma ColumnShift(x: nat, k: int, n: nat)
    ensures 0 <= x - 8 * k < 8 * n <==> 0 <= x / 8 - k < n
    ensures x - 8 * k >= 0 ==> (x - 8 * k) / 8 == x / 8 - k && (x - 8 * k) % 8 == x % 8
  {
  }

  lemma ShiftedPixel(src: seq<byte>, n: nat, k: int, x: nat)
    requires x < 8 * n
    ensures (BitAt(Shifted(src, n, k)[x / 8], x % 8)
             == if 0 <= x - 8 * k < 8 * |src| then BitAt(src[(x - 8 * k) / 8], (x - 8 * k) % 8) else true)
  {
    hide BitAt;
    ColumnShift(x, k, |src|);
    WhiteBits();
  }

  lemma ShownRow(fb: seq<byte>, p: Page, panel: Panel, y: nat)
    requires ShowsPage(fb, p, panel) && y < panel.height
    ensures RowIs(fb, RowBytes(panel.width), y, PanelRow(p, panel, y))
  {
    hide PanelRow, RowBytes, RowIs, FrameSize, VisibleThere;
  }

  lemma WholeBytes(width: nat)
    ensures width <= 8 * RowBytes(width) < width + 8
    ensures width % 8 == 0 <==> width == 8 * RowBytes(width)
  {
  }

  lemma PanelRowPixel(p: Page, panel: Panel, x: nat, y: nat)
    requires |p.data| >= DataSize(p) && x < 8 * RowBytes(panel.width)
    ensures (BitAt(PanelRow(p, panel, y)[x / 8], x % 8)
             == DataPixel(p, x - 8 * ByteOffset(p, panel), y - YOffset(p, panel)))
  {
    var rb, k, sy := RowBytes(panel.width), ByteOffset(p, panel), y - YOffset(p, panel);
    hide RowBytes, ByteOffset, YOffset, BitAt, RowAt;
    WhiteBits();
    if 0 <= sy < p.height {
      SourceRowFits(p, sy);
      ShiftedPixel(RowAt(p.data, RowBytes(p.width), sy), rb, k, x);
    }
  }

  lemma IsReadable(fb: seq<byte>, p: Page, panel: Panel)
    requires ShowsPage(fb, p, panel)
    ensures Readable(fb, panel.width, panel.height)
    ensures |p.data| >= DataSize(p) <==> Readable(p.data, p.width, p.height)
  {
    hide RowBytes, RowIs, PanelRow, VisibleThere;
  }

  /** Where each pixel of a shown page is taken from, for any widths. */
  lemma PixelShown(fb: seq<byte>, p: Page, panel: Panel, x: nat, y: nat)
    requires |p.data| >= DataSize(p) && ShowsPage(fb, p, panel) && x < panel.width && y < panel.height
    ensures Readable(fb, panel.width, panel.height)
    ensures PanelPixel(fb, panel, x, y) == DataPixel(p, x - 8 * ByteOffset(p, panel), y - YOffset(p, panel))
  {
    ShownRow(fb, p, panel, y);
    WholeBytes(panel.width);
    IsReadable(fb, p, panel);
    hide RowBytes, ByteOffset, YOffset, BitAt, PanelRow, DataPixel, RowAt;
    PanelRowPixel(p, panel, x, y);
  }

  // ----- Which widths are centred to the pixel -----

  /** Centred: opposite margins differ by a pixel at most, and the odd one is at the right and at the bottom. */
  lemma MarginsBalance(p: Page, panel: Panel)
    ensures var left, top := XOffset(p, panel), YOffset(p, panel);
            var right, bottom := panel.width - p.width - left, panel.height - p.height - top;
            && (if p.width <= panel.width then 0 <= left <= right <= left + 1 else left - 1 <= right <= left <= 0)
            && (if p.height <= panel.height then 0 <= top <= bottom <= top + 1 else top - 1 <= bottom <= top <= 0)
  {
  }

  /**
   * The page's offset is a whole number of bytes, and the padding of its rows, if they have any,
   * lies beyond the panel's edge.
   */
  predicate Aligned(width: nat, panel: Panel) {
    var offset := TruncDiv(panel.width - width, 2);
    offset % 8 == 0 && (width % 8 == 0 || offset + width >= panel.width)
  }

  lemma WholeByteOffset(offset: int)
    ensures offset % 8 == 0 <==> offset == 8 * TruncDiv(offset, 8)
    ensures -8 < offset - 8 * TruncDiv(offset, 8) < 8
  {
    TruncModRange(offset, 8);
    if offset % 8 == 0 {
      assert offset == 8 * (offset / 8);
    }
  }

  /** Aligned pages are shown pixel for pixel. */
  lemma AlignedIsCentred(fb: seq<byte>, p: Page, panel: Panel)
    requires Aligned(p.width, panel) && |p.data| >= DataSize(p) && ShowsPage(fb, p, panel)
    ensures ShowsCentred(fb, p, panel)
  {
    hide TruncDiv, YOffset, ShowsPage, PanelPixel, DataPixel, Readable, RowBytes;
    WholeByteOffset(XOffset(p, panel));
    IsReadable(fb, p, panel);
    WholeBytes(p.width);
    forall x: nat, y: nat | x < panel.width && y < panel.height
      ensures PanelPixel(fb, panel, x, y) == SourcePixel(p, x - XOffset(p, panel), y - YOffset(p, panel))
    {
      PixelShown(fb, p, panel, x, y);
      BeyondData(p, x - XOffset(p, panel), y - YOffset(p, panel));
    }
  }

  lemma BeyondData(p: Page, sx: int, sy: int)
    requires Readable(p.data, p.width, p.height)
    ensures !(0 <= sx < 8 * RowBytes(p.width) && 0 <= sy < p.height) ==> DataPixel(p, sx, sy)
  {
    hide PixelAt, RowBytes;
  }

  /** A page with the same bits in every byte. */
  function Uniform(width: nat, height: nat, v: byte): (p: Page)
    ensures p.width == width && p.height == height && |p.data| == DataSize(p)
    ensures forall i :: 0 <= i < |p.data| ==> p.data[i] == v
  {
    ProductNonNegative(RowBytes(width), height);
    Page(width, height, seq(RowBytes(width) * height, i => v))
  }

  lemma UniformPixel(p: Page, v: byte, sx: nat, sy: nat)
    requires p == Uniform(p.width, p.height, v) && sx < 8 * RowBytes(p.width) && sy < p.height
    ensures DataPixel(p, sx, sy) == BitAt(v, sx % 8)
  {
    hide BitAt, RowBytes;
    SourceRowFits(p, sy);
    assert RowAt(p.data, RowBytes(p.width), sy)[sx / 8] == v;
  }

  lemma ZeroBit(j: nat)
    requires j < 8
    ensures !BitAt(0, j)
  {
  }

  lemma OneBit(k: nat, j: nat)
    requires k < 8 && j < 8
    ensures BitAt(SetBit(0, k), j) == (j == k)
  {
    ZeroBit(j);
    hide BitAt, SetBit;
    assert BitAt(SetBit(0, k), j) == ToBits(SetBit(0, k))[j] == ToBits(0)[k := true][j];
  }

  // The first n rows of the panel, one after the other.
  function Frame(p: Page, panel: Panel, n: nat): (fb: seq<byte>)
    ensures |fb| == n * RowBytes(panel.width)
  {
    if n == 0 then [] else
      Distribute(n, RowBytes(panel.width), 0);
      Frame(p, panel, n - 1) + PanelRow(p, panel, n - 1)
  }

  lemma {:induction false} FrameRow(p: Page, panel: Panel, n: nat, y: nat)
    requires y < n
    ensures RowIs(Frame(p, panel, n), RowBytes(panel.width), y, PanelRow(p, panel, y))
  {
    hide PanelRow, RowBytes;
    var rb, last := RowBytes(panel.width), PanelRow(p, panel, n - 1);
    Distribute(n, rb, 0);
    if y < n - 1 {
      FrameRow(p, panel, n - 1, y);
      RowAppended(Frame(p, panel, n - 1), last, rb, y);
    } else {
      assert RowAt(Frame(p, panel, n), rb, y) == last;
    }
  }

  lemma RowAppended(s: seq<byte>, t: seq<byte>, rb: nat, y: nat)
    requires 0 <= y * rb && y * rb + rb <= |s|
    ensures RowAt(s + t, rb, y) == RowAt(s, rb, y)
  {
  }

  lemma FrameShows(p: Page, panel: Panel)
    requires |p.data| >= DataSize(p)
    ensures ShowsPage(Frame(p, panel, panel.height), p, panel)
  {
    hide PanelRow, RowBytes, RowIs, VisibleThere;
    AllThere(p, panel);
    forall y | 0 <= y < panel.height
      ensures RowIs(Frame(p, panel, panel.height), RowBytes(panel.width), y, PanelRow(p, panel, y))
    {
      FrameRow(p, panel, panel.height, y);
    }
  }

  // Some pixel of the page is visible: the middle row and the first column shown.
  lemma MiddleVisible(size: int, space: int)
    requires size > 0 && space > 0
    ensures TruncDiv(space - size, 2) < space && -TruncDiv(space - size, 2) < size
    ensures size < space ==> TruncDiv(space - size, 2) >= 0
    ensures size > space ==> TruncDiv(space - size, 2) <= 0
  {
  }

  /** The bits that give an unaligned page away, with a column where they do. */
  function Telltale(width: nat, panel: Panel): (vx: (byte, nat))
    requires width > 0 && panel.width > 0 && !Aligned(width, panel)
    ensures vx.1 < panel.width
  {
    MiddleVisible(width, panel.width);
    var xo := TruncDiv(panel.width - width, 2);
    if xo % 8 == 0 then (0, xo + width)
    else
      var x := if xo > 0 then xo else 0;
      var shown := x - 8 * TruncDiv(xo, 8);
      (if 0 <= shown < 8 * RowBytes(width) then SetBit(0, (x - xo) % 8) else 0, x)
  }

  // The two ways a pixel gives the page away: padding shown, or another pixel in its place.
  lemma PaddingShows(p: Page, sx: nat, sy: nat)
    requires p == Uniform(p.width, p.height, 0) && p.width <= sx < 8 * RowBytes(p.width) && sy < p.height
    ensures Readable(p.data, p.width, p.height) && DataPixel(p, sx, sy) != SourcePixel(p, sx, sy)
  {
    hide Uniform, DataPixel, BitAt, RowBytes;
    UniformPixel(p, 0, sx, sy);
    ZeroBit(sx % 8);
  }

  lemma AnotherShows(p: Page, wanted: nat, shown: int, sy: nat)
    requires wanted < p.width && sy < p.height && shown != wanted && -8 < shown - wanted < 8
    requires p == Uniform(p.width, p.height, if 0 <= shown < 8 * RowBytes(p.width) then SetBit(0, wanted % 8) else 0)
    ensures Readable(p.data, p.width, p.height) && DataPixel(p, shown, sy) != SourcePixel(p, wanted, sy)
  {
    hide Uniform, DataPixel, BitAt, RowBytes, SetBit;
    WholeBytes(p.width);
    if 0 <= shown < 8 * RowBytes(p.width) {
      UniformPixel(p, SetBit(0, wanted % 8), wanted, sy);
      UniformPixel(p, SetBit(0, wanted % 8), shown, sy);
      OneBit(wanted % 8, wanted % 8);
      OneBit(wanted % 8, shown % 8);
      ApartModEight(wanted, shown);
    } else {
      UniformPixel(p, 0, wanted, sy);
      ZeroBit(wanted % 8);
      BeyondData(p, shown, sy);
    }
  }

  // The pixel the page should show there, and the one that is taken.
  lemma TelltaleShows(p: Page, panel: Panel, sy: nat)
    requires p.width > 0 && panel.width > 0 && !Aligned(p.width, panel) && sy < p.height
    requires p == Uniform(p.width, p.height, Telltale(p.width, panel).0)
    ensures Readable(p.data, p.width, p.height)
    ensures (var x := Telltale(p.width, panel).1;
             DataPixel(p, x - 8 * ByteOffset(p, panel), sy) != SourcePixel(p, x - XOffset(p, panel), sy))
  {
    hide Uniform, DataPixel, SourcePixel, BitAt, SetBit, RowBytes, TruncDiv, Readable;
    var xo, bo := XOffset(p, panel), ByteOffset(p, panel);
    var x := Telltale(p.width, panel).1;
    MiddleVisible(p.width, panel.width);
    WholeByteOffset(xo);
    WholeBytes(p.width);
    if xo % 8 == 0 {
      PaddingShows(p, p.width, sy);
    } else {
      AnotherShows(p, x - xo, x - 8 * bo, sy);
    }
  }

  lemma ApartModEight(a: nat, b: nat)
    requires a != b && -8 < a - b < 8
    ensures a % 8 != b % 8
  {
  }

  /** Every page of this size with all its data, wherever it is drawn, is centred to the pixel. */
  ghost predicate AlwaysCentred(width: nat, height: nat, panel: Panel) {
    Drawable(width, height, panel) ==>
      forall p: Page, fb :: p.width == width && p.height == height && |p.data| >= DataSize(p) && ShowsPage(fb, p, panel)
        ==> ShowsCentred(fb, p, panel)
  }

  /** An unaligned page that is drawn off its place. */
  lemma UnalignedIsOff(width: nat, height: nat, panel: Panel)
    requires width > 0 && height > 0 && panel.width > 0 && panel.height > 0 && !Aligned(width, panel)
    requires Drawable(width, height, panel)
    ensures !AlwaysCentred(width, height, panel)
  {
    hide ShowsPage, Aligned, Telltale, Frame, Uniform, PanelPixel, DataPixel, SourcePixel, Readable, XOffset, ByteOffset, RowBytes, Drawable;
    var (v, x) := Telltale(width, panel);
    var p := Uniform(width, height, v);
    var fb := Frame(p, panel, panel.height);
    FrameShows(p, panel);
    var y := VisibleRow(p, panel);
    hide YOffset;
    PixelShown(fb, p, panel, x, y);
    TelltaleShows(p, panel, y - YOffset(p, panel));
    assert PanelPixel(fb, panel, x, y) != SourcePixel(p, x - XOffset(p, panel), y - YOffset(p, panel));
    assert !ShowsCentred(fb, p, panel);
  }

  function VisibleRow(p: Page, panel: Panel): (y: nat)
    requires p.height > 0 && panel.height > 0
    ensures y < panel.height && 0 <= y - YOffset(p, panel) < p.height
  {
    hide TruncDiv;
    MiddleVisible(p.height, panel.height);
    if YOffset(p, panel) > 0 then YOffset(p, panel) else 0
  }

  /** Exactly which of the sizes that are drawn at all are shown pixel for pixel whatever the page holds. */
  lemma CentredExactlyWhenAligned(width: nat, height: nat, panel: Panel)
    requires width > 0 && height > 0 && panel.width > 0 && panel.height > 0
    ensures AlwaysCentred(width, height, panel) <==> (Drawable(width, height, panel) ==> Aligned(width, panel))
  {
    hide ShowsPage, ShowsCentred, Aligned, Drawable;
    if Aligned(width, panel) {
      forall p: Page, fb | p.width == width && p.height == height && |p.data| >= DataSize(p) && ShowsPage(fb, p, panel)
        ensures ShowsCentred(fb, p, panel)
      {
        AlignedIsCentred(fb, p, panel);
      }
    } else if Drawable(width, height, panel) {
      UnalignedIsOff(width, height, panel);
    }
  }

  /** For whole-byte widths: they differ by a multiple of 16. */
  lemma WholeByteWidthsAligned(width: nat, panel: Panel)
    requires width % 8 == 0 && panel.width % 8 == 0
    ensures Aligned(width, panel) <==> (panel.width - width) % 16 == 0
  {
    HalfOfMultiple((panel.width - width) / 8);
    assert panel.width - width == 8 * ((panel.width - width) / 8);
  }

  lemma HalfOfMultiple(k: int)
    ensures TruncDiv(8 * k, 2) == 4 * k
    ensures (4 * k) % 8 == 0 <==> (8 * k) % 16 == 0
  {
  }
}
