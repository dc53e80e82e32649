/**
 * From the server's encoder to the device's panel: what a drawn page of an encoded file shows.
 */
module PanelPages {
  import opened Bits
  import opened XtcFormat
  import opened XtcCodec
  import opened Render

  /** The page as the reader hands it to drawing: its size, and the file from its rows on. */
  function PageInFile(file: seq<byte>, page: nat): (p: Page)
    requires FindPage(file, page).Found?
    ensures |p.data| >= DataSize(p)
  {
    var f := FindPage(file, page);
    Page(f.width, f.height, file[f.data..])
  }

  // The reader's pixel and the preview's pixel are the same bit of the file.
  lemma SameBit(file: seq<byte>, page: nat, y: nat, x: nat)
    requires FindPage(file, page).Found?
    requires y < FindPage(file, page).height && x < FindPage(file, page).width
    ensures SourcePixel(PageInFile(file, page), x, y) == DecodedPixel(file, page, y, x)
  {
    var p, f := PageInFile(file, page), FindPage(file, page);
    FoundFits(file, page, y, x);
    SourceRowFits(p, y);
    WholeBytes(f.width);
    hide FindPage, BitAt;
    var rb := RowBytes(f.width);
    assert RowAt(p.data, rb, y)[x / 8] == file[f.data + (y * rb + x / 8)];
  }

  /** The pixel of an encoded page in a column and row, white beyond its edges. */
  predicate PagePixel(b: Bitmap, x: int, y: int)
    requires ValidBitmap(b)
  {
    if 0 <= x < b.width && 0 <= y < b.height then b.rows[y][x] else true
  }

  /**
   * Page i of an encoded file, drawn on a panel it is aligned on: every panel pixel is the encoded
   * pixel at its centred place, or white.
   */
  lemma EncodedPageOnPanel(pages: seq<Bitmap>, m: Metadata, i: nat, panel: Panel, fb: seq<byte>, x: nat, y: nat)
    requires ValidPages(pages) && i < |pages| && |XtcFile(pages, m)| < Pow256(4)
    requires Aligned(pages[i].width, panel)
    requires x < panel.width && y < panel.height
    requires FindPage(XtcFile(pages, m), i).Found? ==> ShowsPage(fb, PageInFile(XtcFile(pages, m), i), panel)
    ensures FindPage(XtcFile(pages, m), i).Found? && Readable(fb, panel.width, panel.height)
    ensures ValidBitmap(pages[i])
    ensures (var p := PageInFile(XtcFile(pages, m), i);
             PanelPixel(fb, panel, x, y) == PagePixel(pages[i], x - XOffset(p, panel), y - YOffset(p, panel)))
  {
    hide FindPage, XtcFile, Pow256, DecodedPixel, ShowsPage, SourcePixel, PanelPixel, XOffset, YOffset, Readable, PageInFile, Aligned;
    var file := XtcFile(pages, m);
    PageAt(pages, i);
    hide ValidPages;
    DecodesBack(pages, m, i, 0, 0);
    var p := PageInFile(file, i);
    SizeInFile(file, i);
    IsReadable(fb, p, panel);
    AlignedIsCentred(fb, p, panel);
    var sx, sy := x - XOffset(p, panel), y - YOffset(p, panel);
    if 0 <= sx < p.width && 0 <= sy < p.height {
      SameBit(file, i, sy, sx);
      DecodesBack(pages, m, i, sy, sx);
    } else {
      BeyondEdges(p, sx, sy);
    }
  }

  lemma PageAt(pages: seq<Bitmap>, i: nat)
    requires ValidPages(pages) && i < |pages|
    ensures ValidBitmap(pages[i]) && pages[i].width > 0 && pages[i].height > 0
  {
  }

  lemma SizeInFile(file: seq<byte>, page: nat)
    requires FindPage(file, page).Found?
    ensures PageInFile(file, page).width == FindPage(file, page).width
    ensures PageInFile(file, page).height == FindPage(file, page).height
  {
    hide FindPage;
  }

  lemma BeyondEdges(p: Page, sx: int, sy: int)
    requires Readable(p.data, p.width, p.height) && !(0 <= sx < p.width && 0 <= sy < p.height)
    ensures SourcePixel(p, sx, sy)
  {
    hide PixelAt;
  }
}
