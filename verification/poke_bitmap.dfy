/**
 * The bitmap drawing of poke_handler.cpp: `drawBitmapToBuffer` ORs a
 * page-packed bitmap (byte `page * width + x`, bit `row`, LSB at the top)
 * into the 1024-byte display buffer at a vertical offset, scrolling
 * horizontally; a bitmap wider than the screen repeats with a 64-pixel gap.
 *
 * The loops are modelled pixel by pixel: one pixel set at a time, one source
 * column at a time, one screen column at a time, in the source's order; the
 * lemmas say which display pixels the whole draw leaves set.
 */
module PokeBitmap {
  import opened Wrappers
  import opened GifTypes
  import opened FrameRenderer

  /** The blank gap between repeats of a wrapped bitmap. */
  const WRAP_GAP: nat := 64

  // -----------------------------------------------------------------------
  // C integer conversions
  // -----------------------------------------------------------------------

  /** Conversion to `uint8_t`. */
  function U8(v: int): (r: nat)
    ensures r < 0x100
    ensures 0 <= v < 0x100 ==> r == v
  {
    v % 0x100
  }

  /** Conversion to `uint16_t`. */
  function U16(v: int): (r: nat)
    ensures r < 0x1_0000
    ensures 0 <= v < 0x1_0000 ==> r == v
  {
    v % 0x1_0000
  }

  /** Conversion to `int16_t` (two's complement wrap-around). */
  function I16(v: int): (r: int)
    ensures -0x8000 <= r < 0x8000
    ensures -0x8000 <= v < 0x8000 ==> r == v
  {
    (v + 0x8000) % 0x1_0000 - 0x8000
  }

  /** C's `%` for a positive divisor: truncates toward zero, so the remainder takes the dividend's sign. */
  function CRem(a: int, b: int): (r: int)
    requires b > 0
    ensures -b < r < b
    ensures a >= 0 ==> 0 <= r && r == a % b
    ensures a < 0 ==> r <= 0 && -r == (-a) % b
  {
    if a >= 0 then a % b else -((-a) % b)
  }

  /** `((x % m) + m) % m` in C arithmetic is the mathematical (never negative) remainder. */
  lemma WrapIsMod(x: int, m: int)
    requires m > 0
    ensures CRem(CRem(x, m) + m, m) == x % m
  {
    var r := CRem(x, m);
    if x >= 0 {
      ModUnique(r + m, m, 1, r);
    } else {
      var q, s := (-x) / m, (-x) % m;
      assert -x == q * m + s;
      if s == 0 {
        ModUnique(m, m, 1, 0);
        ModUnique(x, m, -q, 0);
      } else {
        ModUnique(m - s, m, 0, m - s);
        ModUnique(x, m, -q - 1, m - s);
      }
    }
  }

  /** The remainder is the unique `r` in `[0, d)` with `v == q * d + r`. */
  lemma ModUnique(v: int, d: int, q: int, r: int)
    requires d > 0 && 0 <= r < d && v == q * d + r
    ensures v % d == r
  {
    var q0, r0 := v / d, v % d;
    var k := q0 - q;
    assert k * d == r - r0 by {
      assert v == q0 * d + r0;
      assert q0 * d - q * d == k * d;
    }
    if k >= 1 {
      MulAtLeast(k, d);
    } else if k <= -1 {
      MulAtLeast(-k, d);
    }
  }

  lemma MulAtLeast(k: int, d: int)
    requires k >= 1 && d > 0
    ensures k * d >= d
  {
  }

  // -----------------------------------------------------------------------
  // Setting one pixel
  // -----------------------------------------------------------------------

  /** `buf[(y / 8) * 128 + x] |= (1 << (y % 8))`. */
  function SetPixel(buf: seq<byte>, x: nat, y: nat): (out: seq<byte>)
    requires |buf| == BUFFER_SIZE && x < COLUMNS && y < 64
    ensures |out| == BUFFER_SIZE
  {
    var i := (y / 8) * COLUMNS + x;
    buf[i := buf[i] | Mask(y % 8)]
  }

  /** OR-ing in bit `k` sets bit `k` and leaves every other bit alone. */
  lemma OrMaskBit(b: byte, k: nat, k': nat)
    requires k < 8 && k' < 8
    ensures Bit(b | Mask(k), k') <==> Bit(b, k') || k == k'
  {
    if k == 0 {} else if k == 1 {} else if k == 2 {} else if k == 3 {}
    else if k == 4 {} else if k == 5 {} else if k == 6 {} else {}
  }

  /** Distinct pixels live in distinct (byte, bit) places. */
  lemma PixelPlace(x: nat, y: nat, x': nat, y': nat)
    requires x < COLUMNS && y < 64 && x' < COLUMNS && y' < 64
    ensures (y / 8) * COLUMNS + x == (y' / 8) * COLUMNS + x' ==> x == x' && y / 8 == y' / 8
  {
    if (y / 8) * COLUMNS + x == (y' / 8) * COLUMNS + x' {
      Split128(y / 8, x);
      Split128(y' / 8, x');
    }
  }

  /** Setting a pixel sets exactly that pixel. */
  lemma SetPixelSpec(buf: seq<byte>, x: nat, y: nat, x': nat, y': nat)
    requires |buf| == BUFFER_SIZE && x < COLUMNS && y < 64 && x' < COLUMNS && y' < 64
    ensures DisplayPixel(SetPixel(buf, x, y), x', y') <==> DisplayPixel(buf, x', y') || (x' == x && y' == y)
  {
    var i, i' := (y / 8) * COLUMNS + x, (y' / 8) * COLUMNS + x';
    PixelPlace(x, y, x', y');
    if i == i' {
      OrMaskBit(buf[i], y % 8, y' % 8);
      assert y == (y / 8) * 8 + y % 8 && y' == (y' / 8) * 8 + y' % 8;
    }
  }

  // -----------------------------------------------------------------------
  // The source bitmap
  // -----------------------------------------------------------------------

  /** Pages read for a bitmap `height` rows tall: `(height + 7) / 8`, kept in a `uint8_t`. */
  function BmpPages(height: nat): (pages: nat)
    ensures pages < 0x100
    ensures height <= 0xFF * 8 ==> pages * 8 >= height
  {
    var p := (height + 7) / 8;
    assert p * 8 + (height + 7) % 8 == height + 7;
    U8(p)
  }

  /** Bitmap pixel at column `sx`, row `v`: bit `v % 8` of byte `(v / 8) * width + sx`. */
  predicate BmpPixel(bmp: seq<byte>, width: nat, pages: nat, sx: nat, v: nat)
    requires sx < width && v < pages * 8 && pages * width <= |bmp|
  {
    BmpIndexFits(width, pages, sx, v);
    Bit(bmp[(v / 8) * width + sx], v % 8)
  }

  lemma BmpIndexFits(width: nat, pages: nat, sx: nat, v: nat)
    requires sx < width && v < pages * 8
    ensures (v / 8) * width + sx < pages * width
  {
    MulMono(width, v / 8 + 1, pages);
  }

  /**
   * The bitmap column drawn at screen column `screenX`, if any. `srcX` is
   * the `int16_t` sum; without wrap the column is `srcX` when inside the
   * bitmap; with wrap `srcX` is reduced with C's `%`, first by
   * `(int16_t)virtualWidth` and then by the `uint16_t` `virtualWidth`, and
   * the result must lie in `[0, (int16_t)bmpWidth)`. A `virtualWidth` of 0
   * as an `int16_t` (width 65472) would divide by zero; no column is drawn.
   */
  function SrcColumn(screenX: nat, scrollX: int, width: nat): (r: Option<nat>)
    ensures r.Some? ==> r.value < width
    ensures var x := screenX + scrollX; -0x8000 <= x < 0x8000 && width <= COLUMNS ==>
              (r.Some? <==> 0 <= x < width) && (r.Some? ==> r.value == x)
    ensures var x := screenX + scrollX; -0x8000 <= x < 0x8000 && COLUMNS < width && width + WRAP_GAP < 0x8000 ==>
              (r.Some? <==> x % (width + WRAP_GAP) < width) && (r.Some? ==> r.value == x % (width + WRAP_GAP))
    ensures 0x8000 <= width < 0x1_0000 ==> r.None?
  {
    var srcX := I16(screenX + scrollX);
    if width > COLUMNS then WrapColumn(srcX, width)
    else if srcX < 0 || srcX >= I16(width) then None
    else Some(srcX)
  }

  /** The wrap branch of `SrcColumn` for the `int16_t` position `srcX` of a bitmap wider than the screen. */
  function WrapColumn(srcX: int, width: nat): (r: Option<nat>)
    requires width > COLUMNS
    ensures r.Some? ==> r.value < width
    ensures -0x8000 <= srcX < 0x8000 && width + WRAP_GAP < 0x8000 ==>
              (r.Some? <==> srcX % (width + WRAP_GAP) < width) && (r.Some? ==> r.value == srcX % (width + WRAP_GAP))
    ensures 0x8000 <= width < 0x1_0000 ==> r.None?
  {
    var vw := U16(width + WRAP_GAP);
    var d := I16(vw);
    if d == 0 then None
    else
      var wrapped := I16(CRem(CRem(srcX, if d < 0 then -d else d) + vw, vw));
      WrapIsMod(srcX, vw);
      if wrapped >= I16(width) || wrapped < 0 then None
      else Some(wrapped)
  }

  // -----------------------------------------------------------------------
  // The drawing loops
  // -----------------------------------------------------------------------

  /**
   * The two inner loops for one screen column: bitmap rows `v` from `k` on
   * (page `v / 8`, bit `v % 8`), each set bit landing on row `yOffset + v`
   * when that row is on screen.
   */
  function DrawColumn(buf: seq<byte>, bmp: seq<byte>, width: nat, pages: nat, yOffset: int,
                      x: nat, sx: nat, k: nat): (out: seq<byte>)
    requires |buf| == BUFFER_SIZE && x < COLUMNS && sx < width
    requires pages * width <= |bmp| && k <= pages * 8
    ensures |out| == BUFFER_SIZE
    decreases pages * 8 - k
  {
    if k == pages * 8 then buf
    else
      var y := yOffset + k;
      var next := if BmpPixel(bmp, width, pages, sx, k) && 0 <= y < 64 then SetPixel(buf, x, y) else buf;
      DrawColumn(next, bmp, width, pages, yOffset, x, sx, k + 1)
  }

  /** Rows `k` on of bitmap column `sx` are ORed into screen column `x` and nothing else changes. */
  lemma {:induction false} DrawColumnPixel(buf: seq<byte>, bmp: seq<byte>, width: nat, pages: nat, yOffset: int,
                                           x: nat, sx: nat, k: nat, x': nat, y': nat)
    requires |buf| == BUFFER_SIZE && x < COLUMNS && sx < width
    requires pages * width <= |bmp| && k <= pages * 8
    requires x' < COLUMNS && y' < 64
    ensures DisplayPixel(DrawColumn(buf, bmp, width, pages, yOffset, x, sx, k), x', y')
            <==> DisplayPixel(buf, x', y')
                 || (x' == x && k <= y' - yOffset < pages * 8 && BmpPixel(bmp, width, pages, sx, y' - yOffset))
    decreases pages * 8 - k
  {
    if k < pages * 8 {
      var y := yOffset + k;
      var next := if BmpPixel(bmp, width, pages, sx, k) && 0 <= y < 64 then SetPixel(buf, x, y) else buf;
      if BmpPixel(bmp, width, pages, sx, k) && 0 <= y < 64 {
        SetPixelSpec(buf, x, y, x', y');
      }
      DrawColumnPixel(next, bmp, width, pages, yOffset, x, sx, k + 1, x', y');
    }
  }

  /** The outer loop from screen column `x` on. */
  function DrawFrom(buf: seq<byte>, bmp: seq<byte>, width: nat, pages: nat, yOffset: int,
                    scrollX: int, x: nat): (out: seq<byte>)
    requires |buf| == BUFFER_SIZE && pages * width <= |bmp| && x <= COLUMNS
    ensures |out| == BUFFER_SIZE
    decreases COLUMNS - x
  {
    if x == COLUMNS then buf
    else
      var col := SrcColumn(x, scrollX, width);
      var next := if col.Some? then DrawColumn(buf, bmp, width, pages, yOffset, x, col.value, 0) else buf;
      DrawFrom(next, bmp, width, pages, yOffset, scrollX, x + 1)
  }

  /**
   * Screen pixel `(x, y)` receives a bitmap pixel: column `x` shows a bitmap
   * column and row `y` is a bitmap row shifted by `yOffset`.
   */
  predicate Drawn(bmp: seq<byte>, width: nat, pages: nat, yOffset: int, scrollX: int, x: nat, y: nat)
    requires pages * width <= |bmp|
  {
    var col := SrcColumn(x, scrollX, width);
    && col.Some?
    && 0 <= y - yOffset < pages * 8
    && BmpPixel(bmp, width, pages, col.value, y - yOffset)
  }

  lemma {:induction false} DrawFromPixel(buf: seq<byte>, bmp: seq<byte>, width: nat, pages: nat, yOffset: int,
                                         scrollX: int, x: nat, x': nat, y': nat)
    requires |buf| == BUFFER_SIZE && pages * width <= |bmp| && x <= COLUMNS
    requires x' < COLUMNS && y' < 64
    ensures DisplayPixel(DrawFrom(buf, bmp, width, pages, yOffset, scrollX, x), x', y')
            <==> DisplayPixel(buf, x', y') || (x <= x' && Drawn(bmp, width, pages, yOffset, scrollX, x', y'))
    decreases COLUMNS - x
  {
    if x < COLUMNS {
      var col := SrcColumn(x, scrollX, width);
      var next := if col.Some? then DrawColumn(buf, bmp, width, pages, yOffset, x, col.value, 0) else buf;
      DrawStepPixel(buf, bmp, width, pages, yOffset, x, col, x', y');
      DrawFromPixel(next, bmp, width, pages, yOffset, scrollX, x + 1, x', y');
    }
  }

  /** One pass of the outer loop: column `x` receives bitmap column `col`, if any. */
  lemma DrawStepPixel(buf: seq<byte>, bmp: seq<byte>, width: nat, pages: nat, yOffset: int,
                      x: nat, col: Option<nat>, x': nat, y': nat)
    requires |buf| == BUFFER_SIZE && pages * width <= |bmp| && x < COLUMNS
    requires col.Some? ==> col.value < width
    requires x' < COLUMNS && y' < 64
    ensures var next := if col.Some? then DrawColumn(buf, bmp, width, pages, yOffset, x, col.value, 0) else buf;
            DisplayPixel(next, x', y')
            <==> DisplayPixel(buf, x', y')
                 || (x' == x && col.Some? && 0 <= y' - yOffset < pages * 8
                     && BmpPixel(bmp, width, pages, col.value, y' - yOffset))
  {
    if col.Some? {
      DrawColumnPixel(buf, bmp, width, pages, yOffset, x, col.value, 0, x', y');
    }
  }

  /**
   * `drawBitmapToBuffer`: every bitmap byte it reads lies inside the bitmap,
   * so the bitmap must hold `pages * width` bytes.
   */
  function DrawBitmapToBuffer(buf: seq<byte>, bmp: seq<byte>, width: nat, height: nat,
                              yOffset: int, scrollX: int): (out: seq<byte>)
    requires |buf| == BUFFER_SIZE && BmpPages(height) * width <= |bmp|
    ensures |out| == BUFFER_SIZE
  {
    DrawFrom(buf, bmp, width, BmpPages(height), yOffset, scrollX, 0)
  }

  /**
   * The draw only ORs bits in: a pixel is set afterwards exactly when it was
   * set before or a bitmap pixel lands on it.
   */
  lemma DrawBitmapPixel(buf: seq<byte>, bmp: seq<byte>, width: nat, height: nat,
                        yOffset: int, scrollX: int, x: nat, y: nat)
    requires |buf| == BUFFER_SIZE && BmpPages(height) * width <= |bmp|
    requires x < COLUMNS && y < 64
    ensures DisplayPixel(DrawBitmapToBuffer(buf, bmp, width, height, yOffset, scrollX), x, y)
            <==> DisplayPixel(buf, x, y) || Drawn(bmp, width, BmpPages(height), yOffset, scrollX, x, y)
  {
    DrawFromPixel(buf, bmp, width, BmpPages(height), yOffset, scrollX, 0, x, y);
  }

  /**
   * Rows outside the bitmap's band, in wrap mode the screen columns that
   * fall in the 64-pixel gap, and every column of a bitmap 32768 or more
   * wide (negative as an `int16_t`) keep exactly what they had; no pixel is
   * ever cleared.
   */
  lemma DrawLeavesRest(buf: seq<byte>, bmp: seq<byte>, width: nat, height: nat,
                       yOffset: int, scrollX: int, x: nat, y: nat)
    requires |buf| == BUFFER_SIZE && BmpPages(height) * width <= |bmp|
    requires x < COLUMNS && y < 64
    ensures var out := DrawBitmapToBuffer(buf, bmp, width, height, yOffset, scrollX);
            && (DisplayPixel(buf, x, y) ==> DisplayPixel(out, x, y))
            && (y < yOffset || y >= yOffset + BmpPages(height) * 8 ==> DisplayPixel(out, x, y) == DisplayPixel(buf, x, y))
            && (COLUMNS < width && width + WRAP_GAP < 0x8000 && -0x8000 <= x + scrollX < 0x8000
                && (x + scrollX) % (width + WRAP_GAP) >= width ==>
                  DisplayPixel(out, x, y) == DisplayPixel(buf, x, y))
            && (0x8000 <= width < 0x1_0000 ==> DisplayPixel(out, x, y) == DisplayPixel(buf, x, y))
  {
    DrawBitmapPixel(buf, bmp, width, height, yOffset, scrollX, x, y);
    var col := SrcColumn(x, scrollX, width);
    assert Drawn(bmp, width, BmpPages(height), yOffset, scrollX, x, y)
           ==> col.Some? && 0 <= y - yOffset < BmpPages(height) * 8;
  }
}
