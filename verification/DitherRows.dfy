/**
 * The encoder's dithering loop: one row buffer and two error buffers that are swapped,
 * packing white pixels straight into the file buffer.
 */
module DitherRows {
  import opened Bits
  import opened Dither
  import opened XtcFormat

  function WhiteRow(img: Image, y: nat): (row: seq<bool>)
    requires ValidImage(img) && y < img.height
    ensures |row| == img.width && forall x :: 0 <= x < img.width ==> row[x] == White(img, y, x)
  {
    seq(img.width, x requires 0 <= x < img.width => White(img, y, x))
  }

  function WhiteRows(img: Image, from: nat): (rows: seq<seq<bool>>)
    requires ValidImage(img) && from <= img.height
    ensures |rows| == img.height - from
    ensures forall y :: 0 <= y < |rows| ==> rows[y] == WhiteRow(img, from + y)
    decreases img.height - from
  {
    if from == img.height then [] else [WhiteRow(img, from)] + WhiteRows(img, from + 1)
  }

  /** The dithered page. */
  function Dithered(img: Image): (b: Bitmap)
    requires ValidImage(img)
    ensures ValidBitmap(b)
  {
    Bitmap(img.width, img.height, WhiteRows(img, 0))
  }

  // ----- Error shares collected for the next row -----

  /** What pixel j of the next row has received once the first x pixels of row y are done. */
  function Collected(img: Image, y: nat, j: int, x: int): real
    requires ValidImage(img) && y < img.height
  {
    (if j - 1 < x then Err(img, y, j - 1) * 0.0625 else 0.0)
    + (if j < x then Err(img, y, j) * 0.3125 else 0.0)
    + (if j + 1 < x then Err(img, y, j + 1) * 0.1875 else 0.0)
  }

  lemma NothingCollected(img: Image, y: nat, j: nat)
    requires ValidImage(img) && y < img.height
    ensures Collected(img, y, j, 0) == 0.0
  {
  }

  lemma AllCollected(img: Image, y: nat, j: nat)
    requires ValidImage(img) && y + 1 < img.height && j < img.width
    ensures Collected(img, y, j, img.width) == Carry(img, y + 1, j)
  {
    hide Work, White;
  }

  lemma CollectStep(img: Image, y: nat, j: nat, x: nat)
    requires ValidImage(img) && y < img.height && x < img.width
    ensures Collected(img, y, j, x + 1) == Collected(img, y, j, x)
            + (if j + 1 == x then Err(img, y, x) * 0.1875
               else if j == x then Err(img, y, x) * 0.3125
               else if j == x + 1 then Err(img, y, x) * 0.0625
               else 0.0)
  {
    hide Err;
  }

  // ----- Packing -----

  lemma EmptyByte()
    ensures forall k :: 0 <= k < 8 ==> !ToBits(0)[k]
  {
  }

  lemma NextBit(row: seq<bool>, x: nat, i: nat)
    requires x < |row|
    ensures RowBits(row[..x + 1], i) == if i == x / 8 then RowBits(row[..x], i)[x % 8 := row[x]] else RowBits(row[..x], i)
  {
    assert x == 8 * (x / 8) + x % 8;
    var a, b := RowBits(row[..x + 1], i), RowBits(row[..x], i);
    forall k | 0 <= k < 8 && !(i == x / 8 && k == x % 8) ensures a[k] == b[k] {
      assert 8 * i + k != x;
    }
  }

  lemma UnsetBit(row: seq<bool>, x: nat)
    requires x < |row|
    ensures !RowBits(row[..x], x / 8)[x % 8]
  {
    assert x == 8 * (x / 8) + x % 8;
  }

  /** The bits of the row are in place for its first x pixels. */
  ghost predicate PackedTo(s: seq<byte>, row: seq<bool>, x: nat) {
    && |s| == RowBytes(|row|) && x <= |row|
    && forall i :: 0 <= i < |s| ==> ToBits(s[i]) == RowBits(row[..x], i)
  }

  lemma PackedNone(row: seq<bool>)
    ensures PackedTo(Zeros(RowBytes(|row|)), row, 0)
  {
    EmptyByte();
    hide RowBytes, BitAt;
    var s := Zeros(RowBytes(|row|));
    forall i | 0 <= i < |s| ensures ToBits(s[i]) == RowBits(row[..0], i) {
    }
  }

  lemma PackedMore(s: seq<byte>, row: seq<bool>, x: nat)
    requires PackedTo(s, row, x) && x < |row| && x / 8 < |s|
    ensures PackedTo(if row[x] then s[x / 8 := SetBit(s[x / 8], x % 8)] else s, row, x + 1)
  {
    hide RowBytes, BitAt, SetBit, RowBits, ToBits;
    UnsetBit(row, x);
    var s' := if row[x] then s[x / 8 := SetBit(s[x / 8], x % 8)] else s;
    forall i | 0 <= i < |s| ensures ToBits(s'[i]) == RowBits(row[..x + 1], i) {
      NextBit(row, x, i);
    }
  }

  lemma PackedAll(s: seq<byte>, row: seq<bool>)
    requires PackedTo(s, row, |row|)
    ensures s == PackedRow(row)
  {
    hide RowBytes, BitAt, RowBits, ToBits;
    assert row[..|row|] == row;
    forall i | 0 <= i < |s| ensures s[i] == PackedRow(row)[i] {
      FromToBits(s[i]);
    }
  }

  // ----- One row -----

  /** Grey plus carry for every pixel from j on. */
  method LoadRow(img: Image, y: nat, row: array<real>, carry: array<real>)
    requires ValidImage(img) && y < img.height
    requires row.Length == img.width && carry.Length == img.width && row != carry
    requires forall x :: 0 <= x < img.width ==> carry[x] == Carry(img, y, x)
    modifies row
    ensures forall x :: 0 <= x < img.width ==> row[x] == Gray(img, y, x) + Carry(img, y, x)
  {
    hide Carry;
    for x := 0 to img.width
      invariant forall j :: 0 <= j < x ==> row[j] == Gray(img, y, j) + Carry(img, y, j)
    {
      RowFits(img, y, x);
      row[x] := img.pixels[y * img.width + x] as real + carry[x];
    }
  }

  /** Hands the error of pixel x on: right in the row, and down into the next row's buffer. */
  method Spread(img: Image, y: nat, x: nat, err: real, row: array<real>, next: array<real>)
    requires ValidImage(img) && y < img.height && x < img.width && err == Err(img, y, x)
    requires row.Length == img.width && next.Length == img.width && row != next
    requires forall j :: x < j < img.width ==> row[j] == Gray(img, y, j) + Carry(img, y, j)
    requires y + 1 < img.height ==> forall j :: 0 <= j < img.width ==> next[j] == Collected(img, y, j, x)
    modifies row, next
    ensures x + 1 < img.width ==> row[x + 1] == Work(img, y, x + 1)
    ensures forall j :: x + 1 < j < img.width ==> row[j] == Gray(img, y, j) + Carry(img, y, j)
    ensures y + 1 < img.height ==> forall j :: 0 <= j < img.width ==> next[j] == Collected(img, y, j, x + 1)
  {
    hide Err, Carry, Gray, Collected;
    if x + 1 < img.width {
      row[x + 1] := row[x + 1] + err * 0.4375;
    }
    if y + 1 < img.height {
      forall j | 0 <= j < img.width
        ensures Collected(img, y, j, x + 1) == next[j]
                + (if j + 1 == x then err * 0.1875 else if j == x then err * 0.3125
                   else if j == x + 1 then err * 0.0625 else 0.0)
      {
        CollectStep(img, y, j, x);
      }
      if x > 0 {
        next[x - 1] := next[x - 1] + err * 0.1875;
      }
      next[x] := next[x] + err * 0.3125;
      if x + 1 < img.width {
        next[x + 1] := next[x + 1] + err * 0.0625;
      }
    }
  }

  /** Dithers row y: packs its white pixels and leaves the next row's carry in next. */
  method DitherRow(img: Image, y: nat, row: array<real>, carry: array<real>, next: array<real>, buf: array<byte>, at: nat)
    requires ValidImage(img) && y < img.height
    requires row.Length == carry.Length == next.Length == img.width
    requires row != carry && row != next && carry != next
    requires at + RowBytes(img.width) <= buf.Length
    requires buf[at..at + RowBytes(img.width)] == Zeros(RowBytes(img.width))
    requires forall x :: 0 <= x < img.width ==> carry[x] == Carry(img, y, x)
    modifies row, next, buf
    ensures buf[..at] == old(buf[..at])
    ensures buf[at..at + RowBytes(img.width)] == PackedRow(WhiteRow(img, y))
    ensures buf[at + RowBytes(img.width)..] == old(buf[at + RowBytes(img.width)..])
    ensures y + 1 < img.height ==> forall x :: 0 <= x < img.width ==> next[x] == Carry(img, y + 1, x)
  {
    hide Err, Carry, Gray, Collected, RowBytes, PackedRow, PackedTo, SetBit, Work, White;
    var w := img.width;
    ghost var white := WhiteRow(img, y);
    LoadRow(img, y, row, carry);
    forall j | 0 <= j < w {
      next[j] := 0.0;
    }
    forall j | 0 <= j < w ensures Collected(img, y, j, 0) == 0.0 {
      NothingCollected(img, y, j);
    }
    FirstWork(img, y);
    PackedNone(white);
    assert buf[at..at + RowBytes(w)] == Zeros(RowBytes(|white|));
    for x := 0 to w
      invariant x < w ==> row[x] == Work(img, y, x)
      invariant forall j :: x < j < w ==> row[j] == Gray(img, y, j) + Carry(img, y, j)
      invariant y + 1 < img.height ==> forall j :: 0 <= j < w ==> next[j] == Collected(img, y, j, x)
      invariant PackedTo(buf[at..at + RowBytes(w)], white, x)
      invariant buf[..at] == old(buf[..at])
      invariant buf[at + RowBytes(w)..] == old(buf[at + RowBytes(w)..])
    {
      ghost var before := buf[at..at + RowBytes(w)];
      var src := row[x];
      PixelWhite(img, y, x);
      ColumnByte(w, x);
      if src >= 128.0 {
        buf[at + x / 8] := SetBit(buf[at + x / 8], x % 8);
      }
      PackedMore(before, white, x);
      assert buf[at..at + RowBytes(w)]
          == if white[x] then before[x / 8 := SetBit(before[x / 8], x % 8)] else before;
      var err := src - (if src >= 128.0 then 255.0 else 0.0);
      Spread(img, y, x, err, row, next);
    }
    PackedAll(buf[at..at + RowBytes(w)], white);
    if y + 1 < img.height {
      forall j | 0 <= j < w ensures next[j] == Carry(img, y + 1, j) {
        AllCollected(img, y, j);
      }
    }
  }

  lemma FirstWork(img: Image, y: nat)
    requires ValidImage(img) && y < img.height
    ensures Work(img, y, 0) == Gray(img, y, 0) + Carry(img, y, 0)
  {
  }

  lemma PixelWhite(img: Image, y: nat, x: nat)
    requires ValidImage(img) && y < img.height && x < img.width
    ensures WhiteRow(img, y)[x] == (Work(img, y, x) >= 128.0)
    ensures Err(img, y, x) == Work(img, y, x) - (if Work(img, y, x) >= 128.0 then 255.0 else 0.0)
  {
  }

  lemma ColumnByte(w: nat, x: nat)
    requires x < w
    ensures x / 8 < RowBytes(w)
  {
  }
}
