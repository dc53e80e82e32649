/**
 * Floyd-Steinberg dithering in exact arithmetic: what each pixel receives from its
 * neighbours, how far errors can grow, and what the whole image conserves.
 */
module Dither {
  import opened Bits
  import opened CArith

  /** One byte of grey per pixel, row by row. */
  datatype Image = Image(width: nat, height: nat, pixels: seq<byte>)

  predicate ValidImage(img: Image) {
    0 < img.width < 65536 && 0 < img.height < 65536 && |img.pixels| == img.height * img.width
  }

  lemma RowFits(img: Image, y: int, x: int)
    requires ValidImage(img) && 0 <= y < img.height && 0 <= x < img.width
    ensures 0 <= y * img.width + x < |img.pixels|
    ensures 0 <= y * img.width && (y + 1) * img.width == y * img.width + img.width <= |img.pixels|
  {
    RowInside(img.width, img.height, y);
  }

  lemma RowInside(w: nat, h: nat, y: int)
    requires 0 <= y < h
    ensures 0 <= y * w && (y + 1) * w == y * w + w <= h * w
  {
    MulMono(0, y, w);
    MulMono(y + 1, h, w);
    Distribute(y + 1, w, 0);
  }

  function Gray(img: Image, y: int, x: int): real
    requires ValidImage(img) && 0 <= y < img.height && 0 <= x < img.width
  {
    RowFits(img, y, x);
    img.pixels[y * img.width + x] as real
  }

  predicate InImage(img: Image, y: int, x: int) {
    0 <= y < img.height && 0 <= x < img.width
  }

  // ----- What each pixel receives -----

  /** The shares of the row above: 1/16 from the left, 5/16 from above, 3/16 from the right. */
  function Carry(img: Image, y: int, x: int): real
    requires ValidImage(img) && InImage(img, y, x)
    decreases y, 0, 0
  {
    if y == 0 then 0.0
    else Err(img, y - 1, x - 1) * 0.0625 + Err(img, y - 1, x) * 0.3125 + Err(img, y - 1, x + 1) * 0.1875
  }

  /** The grey a pixel is judged by: its own, the carry, and 7/16 from its left neighbour. */
  function Work(img: Image, y: int, x: int): real
    requires ValidImage(img) && InImage(img, y, x)
    decreases y, x + 1, 0
  {
    Gray(img, y, x) + Carry(img, y, x) + Err(img, y, x - 1) * 0.4375
  }

  predicate White(img: Image, y: int, x: int)
    requires ValidImage(img) && InImage(img, y, x)
    decreases y, x + 1, 1
  {
    Work(img, y, x) >= 128.0
  }

  /** What is left over at a pixel; nothing outside the row. */
  function Err(img: Image, y: int, x: int): real
    requires ValidImage(img) && 0 <= y < img.height
    decreases y, if InImage(img, y, x) then x + 1 else 0, 2
  {
    if !InImage(img, y, x) then 0.0
    else Work(img, y, x) - (if White(img, y, x) then 255.0 else 0.0)
  }

  // ----- Errors stay bounded -----

  lemma WorkRange(gray: real, left: real, a: real, b: real, c: real)
    requires 0.0 <= gray <= 255.0
    requires -128.0 <= left <= 128.0 && -128.0 <= a <= 128.0 && -128.0 <= b <= 128.0 && -128.0 <= c <= 128.0
    ensures -128.0 <= gray + (a * 0.0625 + b * 0.3125 + c * 0.1875) + left * 0.4375 <= 383.0
    ensures -128.0 <= gray + 0.0 + left * 0.4375 <= 383.0
  {
  }

  /** Every working value lies in [-128, 383] and every error in [-128, 128]. */
  lemma {:induction false} ErrorsBounded(img: Image, y: int, x: int)
    requires ValidImage(img) && 0 <= y < img.height
    ensures -128.0 <= Err(img, y, x) <= 128.0
    ensures InImage(img, y, x) ==> -128.0 <= Work(img, y, x) <= 383.0
    decreases y, if InImage(img, y, x) then x + 1 else 0
  {
    if InImage(img, y, x) {
      ErrorsBounded(img, y, x - 1);
      if y > 0 {
        ErrorsBounded(img, y - 1, x - 1);
        ErrorsBounded(img, y - 1, x);
        ErrorsBounded(img, y - 1, x + 1);
      }
      WorkBounded(img, y, x);
      ErrOf(img, y, x);
      hide Err, Work;
    }
  }

  lemma ErrOf(img: Image, y: int, x: int)
    requires ValidImage(img) && 0 <= y < img.height
    ensures Err(img, y, x) == if !InImage(img, y, x) then 0.0
                              else if Work(img, y, x) >= 128.0 then Work(img, y, x) - 255.0 else Work(img, y, x)
  {
    hide Carry, Gray;
  }

  lemma WorkBounded(img: Image, y: int, x: int)
    requires ValidImage(img) && InImage(img, y, x)
    requires -128.0 <= Err(img, y, x - 1) <= 128.0
    requires y > 0 ==> -128.0 <= Err(img, y - 1, x - 1) <= 128.0
                       && -128.0 <= Err(img, y - 1, x) <= 128.0 && -128.0 <= Err(img, y - 1, x + 1) <= 128.0
    ensures -128.0 <= Work(img, y, x) <= 383.0
  {
    hide Err;
    RowFits(img, y, x);
    if y > 0 {
      WorkRange(Gray(img, y, x), Err(img, y, x - 1), Err(img, y - 1, x - 1), Err(img, y - 1, x), Err(img, y - 1, x + 1));
    } else {
      WorkRange(Gray(img, y, x), Err(img, y, x - 1), 0.0, 0.0, 0.0);
    }
  }

  // ----- What the image conserves -----

  function GraySum(img: Image, y: int, n: nat): real
    requires ValidImage(img) && 0 <= y < img.height && n <= img.width
  {
    if n == 0 then 0.0 else GraySum(img, y, n - 1) + Gray(img, y, n - 1)
  }

  function OutSum(img: Image, y: int, n: nat): real
    requires ValidImage(img) && 0 <= y < img.height && n <= img.width
  {
    if n == 0 then 0.0 else OutSum(img, y, n - 1) + (if White(img, y, n - 1) then 255.0 else 0.0)
  }

  function ErrSum(img: Image, y: int, n: nat): real
    requires ValidImage(img) && 0 <= y < img.height && n <= img.width
  {
    if n == 0 then 0.0 else ErrSum(img, y, n - 1) + Err(img, y, n - 1)
  }

  function CarrySum(img: Image, y: int, n: nat): real
    requires ValidImage(img) && 0 <= y < img.height && n <= img.width
  {
    if n == 0 then 0.0 else CarrySum(img, y, n - 1) + Carry(img, y, n - 1)
  }

  // Inside a row: grey and carry go to output and error, but for 7/16 of the last error.
  lemma {:induction false} RowBalance(img: Image, y: int, n: nat)
    requires ValidImage(img) && 0 <= y < img.height && n <= img.width
    ensures GraySum(img, y, n) + CarrySum(img, y, n) + (ErrSum(img, y, n) - Err(img, y, n - 1)) * 0.4375
         == OutSum(img, y, n) + ErrSum(img, y, n)
  {
    hide Carry, Gray;
    if n > 0 {
      RowBalance(img, y, n - 1);
      assert Err(img, y, n - 1) == Work(img, y, n - 1) - (if White(img, y, n - 1) then 255.0 else 0.0);
    }
  }

  // The shares of a row's errors that the next row receives.
  lemma {:induction false} CarryTotal(img: Image, y: int, n: nat)
    requires ValidImage(img) && 0 < y < img.height && n <= img.width
    ensures CarrySum(img, y, n)
         == (ErrSum(img, y - 1, n) - Err(img, y - 1, n - 1)) * 0.0625
            + ErrSum(img, y - 1, n) * 0.3125
            + (ErrSum(img, y - 1, n) - (if n > 0 then Err(img, y - 1, 0) else 0.0) + Err(img, y - 1, n)
               - (if n == 0 then Err(img, y - 1, 0) else 0.0)) * 0.1875
  {
    hide Work, Gray, White;
    if n > 0 {
      CarryTotal(img, y, n - 1);
    }
  }

  /** The error shares that leave the image at row y: over the side edges, or below the last row. */
  function Dropped(img: Image, y: int): real
    requires ValidImage(img) && 0 <= y < img.height
  {
    if y == img.height - 1 then
      ErrSum(img, y, img.width) * 0.5625 + Err(img, y, img.width - 1) * 0.4375
    else
      Err(img, y, 0) * 0.1875 + Err(img, y, img.width - 1) * 0.5
  }

  function TotalGray(img: Image, rows: nat): real
    requires ValidImage(img) && rows <= img.height
  {
    if rows == 0 then 0.0 else TotalGray(img, rows - 1) + GraySum(img, rows - 1, img.width)
  }

  function TotalOut(img: Image, rows: nat): real
    requires ValidImage(img) && rows <= img.height
  {
    if rows == 0 then 0.0 else TotalOut(img, rows - 1) + OutSum(img, rows - 1, img.width)
  }

  function TotalDropped(img: Image, rows: nat): real
    requires ValidImage(img) && rows <= img.height
  {
    if rows == 0 then 0.0 else TotalDropped(img, rows - 1) + Dropped(img, rows - 1)
  }

  // One row: what came in from above and was not passed on below is output or dropped.
  lemma RowConserves(img: Image, y: int)
    requires ValidImage(img) && 0 <= y < img.height
    ensures GraySum(img, y, img.width) - OutSum(img, y, img.width)
         == Dropped(img, y)
            + (if y < img.height - 1 then CarrySum(img, y + 1, img.width) else 0.0)
            - CarrySum(img, y, img.width)
  {
    var w := img.width;
    RowBalance(img, y, w);
    if y < img.height - 1 {
      CarryTotal(img, y + 1, w);
      assert Err(img, y, w) == 0.0;
    }
    hide Err;
  }

  lemma {:induction false} NoCarryIntoFirstRow(img: Image, n: nat)
    requires ValidImage(img) && n <= img.width
    ensures CarrySum(img, 0, n) == 0.0
  {
    if n > 0 {
      NoCarryIntoFirstRow(img, n - 1);
    }
  }

  lemma {:induction false} RowsConserve(img: Image, rows: nat)
    requires ValidImage(img) && rows <= img.height
    ensures TotalGray(img, rows) - TotalOut(img, rows)
         == TotalDropped(img, rows) + (if rows < img.height then CarrySum(img, rows, img.width) else 0.0)
  {
    hide Dropped, GraySum, OutSum, CarrySum;
    if rows == 0 {
      NoCarryIntoFirstRow(img, img.width);
    } else {
      RowsConserve(img, rows - 1);
      RowConserves(img, rows - 1);
    }
  }

  /** Summed grey minus summed output is exactly what the edges dropped. */
  lemma ImageConserves(img: Image)
    requires ValidImage(img)
    ensures TotalGray(img, img.height) - TotalOut(img, img.height) == TotalDropped(img, img.height)
  {
    RowsConserve(img, img.height);
  }

  lemma {:induction false} ErrSumBounded(img: Image, y: int, n: nat)
    requires ValidImage(img) && 0 <= y < img.height && n <= img.width
    ensures -128.0 * (n as real) <= ErrSum(img, y, n) <= 128.0 * (n as real)
  {
    if n > 0 {
      ErrSumBounded(img, y, n - 1);
      ErrorsBounded(img, y, n - 1);
      hide Err;
    }
  }

  lemma DroppedBounded(img: Image, y: int)
    requires ValidImage(img) && 0 <= y < img.height
    ensures var most := if y == img.height - 1 then (72 * img.width + 56) as real else 88.0;
            -most <= Dropped(img, y) <= most
  {
    ErrSumBounded(img, y, img.width);
    ErrorsBounded(img, y, 0);
    ErrorsBounded(img, y, img.width - 1);
    hide Err, ErrSum;
  }

  lemma {:induction false} TotalDroppedBounded(img: Image, rows: nat)
    requires ValidImage(img) && rows <= img.height
    ensures var most := (88 * rows + (if rows == img.height then 72 * img.width + 56 - 88 else 0)) as real;
            -most <= TotalDropped(img, rows) <= most
  {
    hide Dropped;
    if rows > 0 {
      TotalDroppedBounded(img, rows - 1);
      DroppedBounded(img, rows - 1);
    }
  }

  /** The totals differ by at most 8 * (11 * (h - 1) + 9 * w + 7). */
  lemma TotalsClose(img: Image)
    requires ValidImage(img)
    ensures var most := (8 * (11 * (img.height - 1) + 9 * img.width + 7)) as real;
            -most <= TotalGray(img, img.height) - TotalOut(img, img.height) <= most
  {
    hide TotalGray, TotalOut, TotalDropped;
    ImageConserves(img);
    TotalDroppedBounded(img, img.height);
  }
}
