/**
 * `gifRenderFrame` (gif_player.cpp): turns a row-major, MSB-first 1-bit
 * frame into the SSD1306 page buffer — 8 pages of 128 column bytes, bit `k`
 * of a column byte being row `8 * page + k` — by transposing 8x8 blocks,
 * inverting every pixel and rotating the picture by 180 degrees, then
 * blacking out the first and last column of every page that was drawn.
 */
module FrameRenderer {
  import opened GifTypes

  const BUFFER_SIZE: nat := 1024
  const COLUMNS: nat := 128

  /** Bit `k` (0 = least significant) of a byte. */
  predicate Bit(b: byte, k: nat)
    requires k < 8
  {
    b & Mask(k) != 0
  }

  /** The byte with only bit `k` set. */
  function Mask(k: nat): byte
    requires k < 8
  {
    if k == 0 then 0x01 else if k == 1 then 0x02 else if k == 2 then 0x04 else if k == 3 then 0x08
    else if k == 4 then 0x10 else if k == 5 then 0x20 else if k == 6 then 0x40 else 0x80
  }

  lemma NotFlipsBits(b: byte, k: nat)
    requires k < 8
    ensures Bit(!b, k) <==> !Bit(b, k)
  {
  }

  /** Bytes per source row. */
  function Bpr(width: nat): nat { (width + 7) / 8 }

  /** Whole pages covered by the frame's height. */
  function Pages(height: nat): nat { height / 8 }

  /** Byte `bc` of source row `y` in a frame with `bpr` bytes per row. */
  function SrcIndex(bpr: nat, y: nat, bc: nat): (k: nat)
    requires bpr <= 16 && y < 64 && bc < bpr
    ensures k < FRAME_SIZE
  {
    SrcIndexFits(bpr, y, bc);
    y * bpr + bc
  }

  lemma SrcIndexFits(bpr: nat, y: nat, bc: nat)
    requires bpr <= 16 && y < 64 && bc < bpr
    ensures y * bpr + bc < FRAME_SIZE
  {
    MulMono(bpr, y + 1, 64);
    assert (y + 1) * bpr == y * bpr + bpr;
  }

  lemma MulMono(x: nat, a: nat, b: nat)
    requires a <= b
    ensures a * x <= b * x
  {
    assert b * x == a * x + (b - a) * x;
  }

  /** Pixel `(x, y)` of a source frame with `bpr` bytes per row: MSB-first within a byte. */
  predicate SourcePixel(frame: Frame, bpr: nat, x: nat, y: nat)
    requires bpr <= 16 && y < 64 && x / 8 < bpr
  {
    Bit(frame[SrcIndex(bpr, y, x / 8)], 7 - x % 8)
  }

  /** Pixel `(x, y)` of the display buffer: column `x` of page `y / 8`, bit `y % 8`. */
  predicate DisplayPixel(buf: seq<byte>, x: nat, y: nat)
    requires |buf| == BUFFER_SIZE && x < COLUMNS && y < 64
  {
    Bit(buf[(y / 8) * COLUMNS + x], y % 8)
  }

  /** The eight inverted source bytes of block `(sp, sbc)`: `r[row]` in the source. */
  function Block(frame: Frame, bpr: nat, sp: nat, sbc: nat): (r: seq<byte>)
    requires bpr <= 16 && sp < 8 && sbc < bpr
    ensures |r| == 8
    ensures forall row :: 0 <= row < 8 ==> r[row] == !frame[SrcIndex(bpr, sp * 8 + row, sbc)]
  {
    seq(8, row requires 0 <= row < 8 => !frame[SrcIndex(bpr, sp * 8 + row, sbc)])
  }

  /** Eight flags packed MSB-first: flag `k` becomes bit `7 - k`, as the transpose's eight `if`s do. */
  function Pack(b0: bool, b1: bool, b2: bool, b3: bool, b4: bool, b5: bool, b6: bool, b7: bool): byte {
    (if b0 then 0x80 else 0) | (if b1 then 0x40 else 0) | (if b2 then 0x20 else 0) | (if b3 then 0x10 else 0) |
    (if b4 then 0x08 else 0) | (if b5 then 0x04 else 0) | (if b6 then 0x02 else 0) | (if b7 then 0x01 else 0)
  }

  lemma PackBits(b0: bool, b1: bool, b2: bool, b3: bool, b4: bool, b5: bool, b6: bool, b7: bool)
    ensures var v := Pack(b0, b1, b2, b3, b4, b5, b6, b7);
            && (Bit(v, 7) <==> b0) && (Bit(v, 6) <==> b1) && (Bit(v, 5) <==> b2) && (Bit(v, 4) <==> b3)
            && (Bit(v, 3) <==> b4) && (Bit(v, 2) <==> b5) && (Bit(v, 1) <==> b6) && (Bit(v, 0) <==> b7)
  {
  }

  /**
   * The transpose tests each row byte against `0x80 >> col`: that is the
   * mask of bit `7 - col`, so the test reads `Bit(b, 7 - col)`.
   */
  lemma ColumnMaskIsShift(col: nat)
    requires col < 8
    ensures Mask(7 - col) == (0x80 as byte) >> col
  {
    if col == 0 {} else if col == 1 {} else if col == 2 {} else if col == 3 {}
    else if col == 4 {} else if col == 5 {} else if col == 6 {} else {}
  }

  /**
   * The transpose step: output column `col` of a block gathers bit `7 - col`
   * of each row byte, row 0 landing in the most significant bit.
   */
  function Column(r: seq<byte>, col: nat): byte
    requires |r| == 8 && col < 8
  {
    var k := 7 - col;
    Pack(Bit(r[0], k), Bit(r[1], k), Bit(r[2], k), Bit(r[3], k),
         Bit(r[4], k), Bit(r[5], k), Bit(r[6], k), Bit(r[7], k))
  }

  /** The transpose law of one column: bit `7 - row` of the output is bit `7 - col` of row `row`. */
  lemma ColumnBit(r: seq<byte>, col: nat, row: nat)
    requires |r| == 8 && col < 8 && row < 8
    ensures Bit(Column(r, col), 7 - row) <==> Bit(r[row], 7 - col)
  {
    if row == 0 { ColumnRow0(r, col); }
    else if row == 1 { ColumnRow1(r, col); }
    else if row == 2 { ColumnRow2(r, col); }
    else if row == 3 { ColumnRow3(r, col); }
    else if row == 4 { ColumnRow4(r, col); }
    else if row == 5 { ColumnRow5(r, col); }
    else if row == 6 { ColumnRow6(r, col); }
    else { ColumnRow7(r, col); }
  }

  lemma ColumnRow0(r: seq<byte>, col: nat)
    requires |r| == 8 && col < 8
    ensures Bit(Column(r, col), 7) <==> Bit(r[0], 7 - col)
  {
    var k := 7 - col;
    PackBits(Bit(r[0], k), Bit(r[1], k), Bit(r[2], k), Bit(r[3], k),
             Bit(r[4], k), Bit(r[5], k), Bit(r[6], k), Bit(r[7], k));
  }

  lemma ColumnRow1(r: seq<byte>, col: nat)
    requires |r| == 8 && col < 8
    ensures Bit(Column(r, col), 6) <==> Bit(r[1], 7 - col)
  {
    var k := 7 - col;
    PackBits(Bit(r[0], k), Bit(r[1], k), Bit(r[2], k), Bit(r[3], k),
             Bit(r[4], k), Bit(r[5], k), Bit(r[6], k), Bit(r[7], k));
  }

  lemma ColumnRow2(r: seq<byte>, col: nat)
    requires |r| == 8 && col < 8
    ensures Bit(Column(r, col), 5) <==> Bit(r[2], 7 - col)
  {
    var k := 7 - col;
    PackBits(Bit(r[0], k), Bit(r[1], k), Bit(r[2], k), Bit(r[3], k),
             Bit(r[4], k), Bit(r[5], k), Bit(r[6], k), Bit(r[7], k));
  }

  lemma ColumnRow3(r: seq<byte>, col: nat)
    requires |r| == 8 && col < 8
    ensures Bit(Column(r, col), 4) <==> Bit(r[3], 7 - col)
  {
    var k := 7 - col;
    PackBits(Bit(r[0], k), Bit(r[1], k), Bit(r[2], k), Bit(r[3], k),
             Bit(r[4], k), Bit(r[5], k), Bit(r[6], k), Bit(r[7], k));
  }

  lemma ColumnRow4(r: seq<byte>, col: nat)
    requires |r| == 8 && col < 8
    ensures Bit(Column(r, col), 3) <==> Bit(r[4], 7 - col)
  {
    var k := 7 - col;
    PackBits(Bit(r[0], k), Bit(r[1], k), Bit(r[2], k), Bit(r[3], k),
             Bit(r[4], k), Bit(r[5], k), Bit(r[6], k), Bit(r[7], k));
  }

  lemma ColumnRow5(r: seq<byte>, col: nat)
    requires |r| == 8 && col < 8
    ensures Bit(Column(r, col), 2) <==> Bit(r[5], 7 - col)
  {
    var k := 7 - col;
    PackBits(Bit(r[0], k), Bit(r[1], k), Bit(r[2], k), Bit(r[3], k),
             Bit(r[4], k), Bit(r[5], k), Bit(r[6], k), Bit(r[7], k));
  }

  lemma ColumnRow6(r: seq<byte>, col: nat)
    requires |r| == 8 && col < 8
    ensures Bit(Column(r, col), 1) <==> Bit(r[6], 7 - col)
  {
    var k := 7 - col;
    PackBits(Bit(r[0], k), Bit(r[1], k), Bit(r[2], k), Bit(r[3], k),
             Bit(r[4], k), Bit(r[5], k), Bit(r[6], k), Bit(r[7], k));
  }

  lemma ColumnRow7(r: seq<byte>, col: nat)
    requires |r| == 8 && col < 8
    ensures Bit(Column(r, col), 0) <==> Bit(r[7], 7 - col)
  {
    var k := 7 - col;
    PackBits(Bit(r[0], k), Bit(r[1], k), Bit(r[2], k), Bit(r[3], k),
             Bit(r[4], k), Bit(r[5], k), Bit(r[6], k), Bit(r[7], k));
  }

  /**
   * Byte `i` of the display buffer after drawing `pages` pages of `bpr`
   * byte columns over `buf`.
   */
  function RenderedByte(buf: seq<byte>, frame: Frame, bpr: nat, pages: nat, i: nat): byte
    requires |buf| == BUFFER_SIZE && i < BUFFER_SIZE
    requires bpr <= 16 && pages <= 8
  {
    var p := i / COLUMNS;
    var c := i % COLUMNS;
    if p < pages && (c == 0 || c == COLUMNS - 1) then 0
    else if p < pages && c / 8 < bpr then
      Column(Block(frame, bpr, pages - 1 - p, bpr - 1 - c / 8), 7 - c % 8)
    else buf[i]
  }

  /** `gifRenderFrame` on the display buffer `buf`; see `RenderPixel` and `RenderBorders`. */
  function RenderFrame(buf: seq<byte>, frame: Frame, width: nat, height: nat): (out: seq<byte>)
    requires |buf| == BUFFER_SIZE
    requires width <= FRAME_WIDTH && height <= FRAME_HEIGHT
    ensures |out| == BUFFER_SIZE
  {
    var bpr, pages := Bpr(width), Pages(height);
    seq(BUFFER_SIZE, i requires 0 <= i < BUFFER_SIZE => RenderedByte(buf, frame, bpr, pages, i))
  }

  /** Row `row` of a block holding the complement of `b`: column `col` carries `b`'s bit `7 - col`, inverted. */
  lemma TransposedBit(r: seq<byte>, b: byte, row: nat, col: nat)
    requires |r| == 8 && row < 8 && col < 8 && r[row] == !b
    ensures Bit(Column(r, col), 7 - row) <==> !Bit(b, 7 - col)
  {
    ColumnBit(r, col, row);
    NotFlipsBits(b, 7 - col);
  }

  lemma Split8(q: nat, r: nat)
    requires r < 8
    ensures (q * 8 + r) / 8 == q && (q * 8 + r) % 8 == r
  {
  }

  lemma Split128(q: nat, r: nat)
    requires r < COLUMNS
    ensures (q * COLUMNS + r) / COLUMNS == q && (q * COLUMNS + r) % COLUMNS == r
  {
  }

  /** Where block `(sp, sbc)`, column `col` lands: its page and its display column. */
  function DestIndex(bpr: nat, pages: nat, sp: nat, sbc: nat, col: nat): (i: nat)
    requires bpr <= 16 && pages <= 8 && sp < pages && sbc < bpr && col < 8
    ensures i < BUFFER_SIZE
  {
    (pages - 1 - sp) * COLUMNS + (bpr - 1 - sbc) * 8 + 7 - col
  }

  /** The byte at `DestIndex` is column `col` of block `(sp, sbc)`, unless it is an edge column. */
  lemma RenderedAt(buf: seq<byte>, frame: Frame, bpr: nat, pages: nat, sp: nat, sbc: nat, col: nat)
    requires |buf| == BUFFER_SIZE && bpr <= 16 && pages <= 8
    requires sp < pages && sbc < bpr && col < 8
    requires var c := (bpr - 1 - sbc) * 8 + 7 - col; c != 0 && c != COLUMNS - 1
    ensures RenderedByte(buf, frame, bpr, pages, DestIndex(bpr, pages, sp, sbc, col))
            == Column(Block(frame, bpr, sp, sbc), col)
  {
    var i := DestIndex(bpr, pages, sp, sbc, col);
    DestSplit(bpr, pages, sp, sbc, col);
    assert pages - 1 - i / COLUMNS == sp && bpr - 1 - (i % COLUMNS) / 8 == sbc && 7 - (i % COLUMNS) % 8 == col;
  }

  /** `DestIndex` decomposed into page, byte column and bit column. */
  lemma DestSplit(bpr: nat, pages: nat, sp: nat, sbc: nat, col: nat)
    requires bpr <= 16 && pages <= 8 && sp < pages && sbc < bpr && col < 8
    ensures var i, c := DestIndex(bpr, pages, sp, sbc, col), (bpr - 1 - sbc) * 8 + 7 - col;
            && i / COLUMNS == pages - 1 - sp && i % COLUMNS == c
            && c / 8 == bpr - 1 - sbc && 7 - c % 8 == col
  {
    var c := (bpr - 1 - sbc) * 8 + 7 - col;
    Split8(bpr - 1 - sbc, 7 - col);
    Split128(pages - 1 - sp, c);
  }

  /**
   * The transpose law on the drawn bytes: bit `row` of byte column `sbc` in
   * source page-row `sp`, pixel column `col`, is stored inverted as bit
   * `7 - row` of the byte at `DestIndex` — unless that byte is one of the
   * blacked-out edge columns.
   */
  lemma BlockPixel(buf: seq<byte>, frame: Frame, bpr: nat, pages: nat, sp: nat, row: nat, sbc: nat, col: nat)
    requires |buf| == BUFFER_SIZE && bpr <= 16 && pages <= 8
    requires sp < pages && row < 8 && sbc < bpr && col < 8
    requires var c := (bpr - 1 - sbc) * 8 + 7 - col; c != 0 && c != COLUMNS - 1
    ensures Bit(RenderedByte(buf, frame, bpr, pages, DestIndex(bpr, pages, sp, sbc, col)), 7 - row)
            <==> !Bit(frame[SrcIndex(bpr, sp * 8 + row, sbc)], 7 - col)
  {
    RenderedAt(buf, frame, bpr, pages, sp, sbc, col);
    TransposedBit(Block(frame, bpr, sp, sbc), frame[SrcIndex(bpr, sp * 8 + row, sbc)], row, col);
  }

  /**
   * The pixel law of `gifRenderFrame`: writing source pixel `(x, y)` as
   * `x = sbc * 8 + col`, `y = sp * 8 + row` in a frame of `W = Bpr(width) * 8`
   * columns and `H = Pages(height) * 8` rows, display pixel
   * `(W - 1 - x, H - 1 - y)` is lit exactly when the source pixel is dark:
   * the picture is inverted and turned by 180 degrees, except on the two
   * blacked-out columns.
   */
  lemma RenderPixel(buf: seq<byte>, frame: Frame, width: nat, height: nat, sp: nat, row: nat, sbc: nat, col: nat)
    requires |buf| == BUFFER_SIZE
    requires width <= FRAME_WIDTH && height <= FRAME_HEIGHT
    requires sp < Pages(height) && row < 8 && sbc < Bpr(width) && col < 8
    requires var c := (Bpr(width) - 1 - sbc) * 8 + 7 - col; c != 0 && c != COLUMNS - 1
    ensures var out, bpr, pages := RenderFrame(buf, frame, width, height), Bpr(width), Pages(height);
            var x, y := sbc * 8 + col, sp * 8 + row;
            DisplayPixel(out, bpr * 8 - 1 - x, pages * 8 - 1 - y) <==> !SourcePixel(frame, bpr, x, y)
  {
    var bpr, pages := Bpr(width), Pages(height);
    BlockPixel(buf, frame, bpr, pages, sp, row, sbc, col);
    RenderedPixel(buf, frame, width, height, sp, row, sbc, col);
    SourceAt(frame, bpr, sp, row, sbc, col);
  }

  /**
   * The pixel law for a full 128x64 frame in plain coordinates: display
   * pixel `(127 - x, 63 - y)` is lit exactly when source pixel `(x, y)` is
   * dark, for every column but the two blacked-out edges.
   */
  lemma FullFramePixel(buf: seq<byte>, frame: Frame, x: nat, y: nat)
    requires |buf| == BUFFER_SIZE
    requires 0 < x < FRAME_WIDTH - 1 && y < FRAME_HEIGHT
    ensures DisplayPixel(RenderFrame(buf, frame, FRAME_WIDTH, FRAME_HEIGHT), FRAME_WIDTH - 1 - x, FRAME_HEIGHT - 1 - y)
            <==> !SourcePixel(frame, 16, x, y)
  {
    InnerColumn(x);
    FullFramePixelAt(buf, frame, x, y, y / 8, y % 8, x / 8, x % 8);
  }

  /** `FullFramePixel` with `y` split into page and row and `x` into byte column and bit column. */
  lemma FullFramePixelAt(buf: seq<byte>, frame: Frame, x: nat, y: nat, sp: nat, row: nat, sbc: nat, col: nat)
    requires |buf| == BUFFER_SIZE
    requires 0 < x < FRAME_WIDTH - 1 && y < FRAME_HEIGHT
    requires sp == y / 8 && row == y % 8 && sbc == x / 8 && col == x % 8
    requires var c := (16 - 1 - sbc) * 8 + 7 - col; c != 0 && c != COLUMNS - 1
    ensures DisplayPixel(RenderFrame(buf, frame, FRAME_WIDTH, FRAME_HEIGHT), FRAME_WIDTH - 1 - x, FRAME_HEIGHT - 1 - y)
            <==> !SourcePixel(frame, 16, x, y)
  {
    FullFrameByte(buf, frame, sp, row, sbc, col);
    PixelFromByte(RenderFrame(buf, frame, FRAME_WIDTH, FRAME_HEIGHT), frame, x, y);
  }

  /** A display buffer whose byte at `DestIndex` carries the inverted source bit shows the inverted source pixel. */
  lemma PixelFromByte(out: seq<byte>, frame: Frame, x: nat, y: nat)
    requires |out| == BUFFER_SIZE
    requires 0 < x < FRAME_WIDTH - 1 && y < FRAME_HEIGHT
    requires Bit(out[DestIndex(16, 8, y / 8, x / 8, x % 8)], 7 - y % 8)
             <==> !Bit(frame[SrcIndex(16, (y / 8) * 8 + y % 8, x / 8)], 7 - x % 8)
    ensures DisplayPixel(out, FRAME_WIDTH - 1 - x, FRAME_HEIGHT - 1 - y) <==> !SourcePixel(frame, 16, x, y)
  {
    DisplaySplit(out, x, y);
    SourceSplit(frame, x, y);
  }

  /** The transpose law of `BlockPixel` on the rendered full frame. */
  lemma FullFrameByte(buf: seq<byte>, frame: Frame, sp: nat, row: nat, sbc: nat, col: nat)
    requires |buf| == BUFFER_SIZE
    requires sp < 8 && row < 8 && sbc < 16 && col < 8
    requires var c := (16 - 1 - sbc) * 8 + 7 - col; c != 0 && c != COLUMNS - 1
    ensures Bit(RenderFrame(buf, frame, FRAME_WIDTH, FRAME_HEIGHT)[DestIndex(16, 8, sp, sbc, col)], 7 - row)
            <==> !Bit(frame[SrcIndex(16, sp * 8 + row, sbc)], 7 - col)
  {
    BlockPixel(buf, frame, 16, 8, sp, row, sbc, col);
    FullFrameAt(buf, frame, DestIndex(16, 8, sp, sbc, col));
  }

  lemma FullFrameAt(buf: seq<byte>, frame: Frame, i: nat)
    requires |buf| == BUFFER_SIZE && i < BUFFER_SIZE
    ensures RenderFrame(buf, frame, FRAME_WIDTH, FRAME_HEIGHT)[i] == RenderedByte(buf, frame, 16, 8, i)
  {
    RenderFrameAt(buf, frame, FRAME_WIDTH, FRAME_HEIGHT, i);
    assert Bpr(FRAME_WIDTH) == 16 && Pages(FRAME_HEIGHT) == 8;
  }

  /** Display pixel `(127 - x, 63 - y)` is a bit of the byte `DestIndex` names for `(x, y)`. */
  lemma DisplaySplit(out: seq<byte>, x: nat, y: nat)
    requires |out| == BUFFER_SIZE
    requires 0 < x < FRAME_WIDTH - 1 && y < FRAME_HEIGHT
    ensures DisplayPixel(out, FRAME_WIDTH - 1 - x, FRAME_HEIGHT - 1 - y)
            == Bit(out[DestIndex(16, 8, y / 8, x / 8, x % 8)], 7 - y % 8)
  {
    FullFrameIndices(x, y);
  }

  /** Source pixel `(x, y)` of a 16-byte-wide frame, with `y` split into page and row. */
  lemma SourceSplit(frame: Frame, x: nat, y: nat)
    requires x < FRAME_WIDTH && y < FRAME_HEIGHT
    ensures SourcePixel(frame, 16, x, y) == Bit(frame[SrcIndex(16, (y / 8) * 8 + y % 8, x / 8)], 7 - x % 8)
  {
    assert (y / 8) * 8 + y % 8 == y;
  }

  /** Columns `1 .. 126` are not blacked out. */
  lemma InnerColumn(x: nat)
    requires 0 < x < FRAME_WIDTH - 1
    ensures var c := (16 - 1 - x / 8) * 8 + 7 - x % 8; c != 0 && c != COLUMNS - 1
  {
  }

  /** The index arithmetic behind `FullFramePixel`. */
  lemma FullFrameIndices(x: nat, y: nat)
    requires 0 < x < FRAME_WIDTH - 1 && y < FRAME_HEIGHT
    ensures Bpr(FRAME_WIDTH) == 16 && Pages(FRAME_HEIGHT) == 8
    ensures var c := (16 - 1 - x / 8) * 8 + 7 - x % 8; c == FRAME_WIDTH - 1 - x && c != 0 && c != COLUMNS - 1
    ensures DestIndex(16, 8, y / 8, x / 8, x % 8) == ((FRAME_HEIGHT - 1 - y) / 8) * COLUMNS + (FRAME_WIDTH - 1 - x)
    ensures (FRAME_HEIGHT - 1 - y) % 8 == 7 - y % 8
    ensures y / 8 * 8 + y % 8 == y && x / 8 * 8 + x % 8 == x
  {
  }

  /** The display pixel mirrored from `(sbc * 8 + col, sp * 8 + row)` is bit `7 - row` of the rendered byte at `DestIndex`. */
  lemma RenderedPixel(buf: seq<byte>, frame: Frame, width: nat, height: nat, sp: nat, row: nat, sbc: nat, col: nat)
    requires |buf| == BUFFER_SIZE
    requires width <= FRAME_WIDTH && height <= FRAME_HEIGHT
    requires sp < Pages(height) && row < 8 && sbc < Bpr(width) && col < 8
    ensures Bpr(width) <= 16 && Pages(height) <= 8
    ensures var out, bpr, pages := RenderFrame(buf, frame, width, height), Bpr(width), Pages(height);
            var x, y := sbc * 8 + col, sp * 8 + row;
            DisplayPixel(out, bpr * 8 - 1 - x, pages * 8 - 1 - y)
            == Bit(RenderedByte(buf, frame, bpr, pages, DestIndex(bpr, pages, sp, sbc, col)), 7 - row)
  {
    var bpr, pages := Bpr(width), Pages(height);
    RenderFrameAt(buf, frame, width, height, DestIndex(bpr, pages, sp, sbc, col));
    DisplayAt(RenderFrame(buf, frame, width, height), bpr, pages, sp, row, sbc, col);
  }

  lemma RenderFrameAt(buf: seq<byte>, frame: Frame, width: nat, height: nat, i: nat)
    requires |buf| == BUFFER_SIZE && i < BUFFER_SIZE
    requires width <= FRAME_WIDTH && height <= FRAME_HEIGHT
    ensures Bpr(width) <= 16 && Pages(height) <= 8
    ensures RenderFrame(buf, frame, width, height)[i] == RenderedByte(buf, frame, Bpr(width), Pages(height), i)
  {
  }

  /** The display pixel mirrored from `(sbc * 8 + col, sp * 8 + row)` is bit `7 - row` of the byte at `DestIndex`. */
  lemma DisplayAt(out: seq<byte>, bpr: nat, pages: nat, sp: nat, row: nat, sbc: nat, col: nat)
    requires |out| == BUFFER_SIZE && bpr <= 16 && pages <= 8
    requires sp < pages && row < 8 && sbc < bpr && col < 8
    ensures var x, y := sbc * 8 + col, sp * 8 + row;
            DisplayPixel(out, bpr * 8 - 1 - x, pages * 8 - 1 - y) == Bit(out[DestIndex(bpr, pages, sp, sbc, col)], 7 - row)
  {
    Split8(pages - 1 - sp, 7 - row);
  }

  /** Source pixel `(sbc * 8 + col, sp * 8 + row)` is bit `7 - col` of byte `sbc` of row `sp * 8 + row`. */
  lemma SourceAt(frame: Frame, bpr: nat, sp: nat, row: nat, sbc: nat, col: nat)
    requires bpr <= 16 && sp < 8 && row < 8 && sbc < bpr && col < 8
    ensures SourcePixel(frame, bpr, sbc * 8 + col, sp * 8 + row) == Bit(frame[SrcIndex(bpr, sp * 8 + row, sbc)], 7 - col)
  {
    Split8(sbc, col);
  }

  /**
   * Outside the drawing: the first and last column of every drawn page are
   * black, while pages below the frame's height and columns right of its
   * width keep the buffer's old contents.
   */
  lemma RenderBorders(buf: seq<byte>, frame: Frame, width: nat, height: nat, i: nat)
    requires |buf| == BUFFER_SIZE && i < BUFFER_SIZE
    requires width <= FRAME_WIDTH && height <= FRAME_HEIGHT
    ensures var out, p, c := RenderFrame(buf, frame, width, height), i / COLUMNS, i % COLUMNS;
            && (p < Pages(height) && (c == 0 || c == COLUMNS - 1) ==> out[i] == 0)
            && (p >= Pages(height) ==> out[i] == buf[i])
            && (c / 8 >= Bpr(width) && c != 0 && c != COLUMNS - 1 ==> out[i] == buf[i])
  {
    RenderFrameAt(buf, frame, width, height, i);
  }

  /** A full 128x64 frame overwrites every byte, so the previous buffer does not matter. */
  lemma FullFrameIgnoresBuffer(buf1: seq<byte>, buf2: seq<byte>, frame: Frame)
    requires |buf1| == BUFFER_SIZE && |buf2| == BUFFER_SIZE
    ensures RenderFrame(buf1, frame, FRAME_WIDTH, FRAME_HEIGHT) == RenderFrame(buf2, frame, FRAME_WIDTH, FRAME_HEIGHT)
  {
    var o1 := RenderFrame(buf1, frame, FRAME_WIDTH, FRAME_HEIGHT);
    var o2 := RenderFrame(buf2, frame, FRAME_WIDTH, FRAME_HEIGHT);
    forall i | 0 <= i < BUFFER_SIZE ensures o1[i] == o2[i] {
      RenderFrameAt(buf1, frame, FRAME_WIDTH, FRAME_HEIGHT, i);
      RenderFrameAt(buf2, frame, FRAME_WIDTH, FRAME_HEIGHT, i);
      assert i / COLUMNS < 8 && i % COLUMNS / 8 < 16;
    }
  }
}
