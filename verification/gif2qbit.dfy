/**
 * The host-side `.qgif` writer (gif2qbit.py): thresholding a resized
 * grayscale frame into the 1-bit MSB-first bitmap, normalising frame
 * delays, and laying out count, width, height, delays and frames.
 *
 * Decoding the GIF and resizing its frames with PIL are outside the model:
 * the input is the sequence of already resized 128x64 grayscale frames
 * with the duration each one declared, if any.
 */
module Gif2Qbit {
  import opened Wrappers
  import opened GifTypes
  import FrameRenderer
  import GifPlayer

  /** A resized grayscale frame: `pixels[x, y]`. */
  type Gray = (nat, nat) -> int

  /** One decoded GIF frame: its `duration` entry, if present, and its pixels. */
  datatype SourceFrame = SourceFrame(duration: Option<int>, pixels: Gray)

  datatype ConvertError =
    | NoFrames          // "no frames found"
    | DelayOutOfRange   // `struct.pack("<H", d)` refuses a delay above 65535

  const DEFAULT_DELAY: nat := 100

  /** A dark pixel is a set bit, unless the colours are inverted. */
  predicate PixelOn(g: Gray, x: nat, y: nat, threshold: int, invert: bool) {
    (g(x, y) < threshold) != invert
  }

  /** Byte `i` of the bitmap: the eight pixels `x0 .. x0 + 7` of row `y`, leftmost in the top bit. */
  function PackRow(g: Gray, threshold: int, invert: bool, y: nat, x0: nat): byte {
    FrameRenderer.Pack(
      PixelOn(g, x0, y, threshold, invert), PixelOn(g, x0 + 1, y, threshold, invert),
      PixelOn(g, x0 + 2, y, threshold, invert), PixelOn(g, x0 + 3, y, threshold, invert),
      PixelOn(g, x0 + 4, y, threshold, invert), PixelOn(g, x0 + 5, y, threshold, invert),
      PixelOn(g, x0 + 6, y, threshold, invert), PixelOn(g, x0 + 7, y, threshold, invert))
  }

  /** `frame_to_bitmap`: 16 bytes per row, 64 rows. */
  function FrameToBitmap(g: Gray, threshold: int, invert: bool): (bm: Frame)
  {
    seq(FRAME_SIZE, i requires 0 <= i < FRAME_SIZE => PackRow(g, threshold, invert, i / 16, (i % 16) * 8))
  }

  /** Bit `7 - k` of a packed byte is pixel `x0 + k`. */
  lemma PackRowBit(g: Gray, threshold: int, invert: bool, y: nat, x0: nat, k: nat)
    requires k < 8
    ensures FrameRenderer.Bit(PackRow(g, threshold, invert, y, x0), 7 - k) <==> PixelOn(g, x0 + k, y, threshold, invert)
  {
    FrameRenderer.PackBits(
      PixelOn(g, x0, y, threshold, invert), PixelOn(g, x0 + 1, y, threshold, invert),
      PixelOn(g, x0 + 2, y, threshold, invert), PixelOn(g, x0 + 3, y, threshold, invert),
      PixelOn(g, x0 + 4, y, threshold, invert), PixelOn(g, x0 + 5, y, threshold, invert),
      PixelOn(g, x0 + 6, y, threshold, invert), PixelOn(g, x0 + 7, y, threshold, invert));
    if k == 0 {} else if k == 1 {} else if k == 2 {} else if k == 3 {}
    else if k == 4 {} else if k == 5 {} else if k == 6 {} else {}
  }

  /** Byte `b` of row `y` packs pixels `8 * b .. 8 * b + 7` of that row. */
  lemma BitmapByte(g: Gray, threshold: int, invert: bool, y: nat, b: nat)
    requires y < FRAME_HEIGHT && b < 16
    ensures y * 16 + b < FRAME_SIZE
    ensures FrameToBitmap(g, threshold, invert)[y * 16 + b] == PackRow(g, threshold, invert, y, b * 8)
  {
    var i := y * 16 + b;
    assert i / 16 == y && i % 16 == b;
  }

  /**
   * The bit layout of `frame_to_bitmap`: pixel `(x, y)` is bit `7 - x % 8`
   * of byte `y * 16 + x / 8`, which is how the firmware's renderer reads a
   * source pixel of a 16-byte-wide frame.
   */
  lemma BitmapPixel(g: Gray, threshold: int, invert: bool, x: nat, y: nat)
    requires x < FRAME_WIDTH && y < FRAME_HEIGHT
    ensures FrameRenderer.SourcePixel(FrameToBitmap(g, threshold, invert), 16, x, y)
            <==> PixelOn(g, x, y, threshold, invert)
  {
    var bm := FrameToBitmap(g, threshold, invert);
    var packed := PackRow(g, threshold, invert, y, (x / 8) * 8);
    assert bm[FrameRenderer.SrcIndex(16, y, x / 8)] == packed by {
      BitmapByte(g, threshold, invert, y, x / 8);
    }
    assert FrameRenderer.Bit(packed, 7 - x % 8) <==> PixelOn(g, x, y, threshold, invert) by {
      PackRowBit(g, threshold, invert, y, (x / 8) * 8, x % 8);
      assert (x / 8) * 8 + x % 8 == x;
    }
  }

  /**
   * End to end, converter and renderer agree on polarity: away from the two
   * blacked-out edge columns, the display pixel that pixel `(x, y)` is turned
   * to is lit exactly when the pixel was not converted to a set bit — with
   * the default polarity, when it was at least as bright as the threshold.
   */
  lemma ShownPixel(buf: seq<byte>, g: Gray, threshold: int, invert: bool, x: nat, y: nat)
    requires |buf| == FrameRenderer.BUFFER_SIZE
    requires 0 < x < FRAME_WIDTH - 1 && y < FRAME_HEIGHT
    ensures FrameRenderer.DisplayPixel(
              FrameRenderer.RenderFrame(buf, FrameToBitmap(g, threshold, invert), FRAME_WIDTH, FRAME_HEIGHT),
              FRAME_WIDTH - 1 - x, FRAME_HEIGHT - 1 - y)
            <==> (g(x, y) >= threshold) != invert
  {
    FrameRenderer.FullFramePixel(buf, FrameToBitmap(g, threshold, invert), x, y);
    BitmapPixel(g, threshold, invert, x, y);
  }

  /** A missing or non-positive duration becomes 100 ms. */
  function NormaliseDelay(duration: Option<int>): (d: int)
    ensures d > 0
    ensures duration.Some? && duration.value > 0 ==> d == duration.value
    ensures duration.None? || duration.value <= 0 ==> d == DEFAULT_DELAY
  {
    match duration
    case None => DEFAULT_DELAY
    case Some(v) => if v <= 0 then DEFAULT_DELAY else v
  }

  /** The kept frames: at most the first 255. */
  function Kept(frames: seq<SourceFrame>): (r: seq<SourceFrame>)
    ensures |r| <= MAX_FRAMES
    ensures |frames| <= MAX_FRAMES ==> r == frames
    ensures |frames| > MAX_FRAMES ==> |r| == MAX_FRAMES
    ensures forall i :: 0 <= i < |r| ==> r[i] == frames[i]
  {
    if |frames| > MAX_FRAMES then frames[..MAX_FRAMES] else frames
  }

  /** The delay table bytes: each delay as `<H`. */
  function DelayBytes(ds: seq<int>): (r: seq<byte>)
    requires AllFit(ds)
    ensures |r| == 2 * |ds|
  {
    if |ds| == 0 then [] else U16Le(ds[0]) + DelayBytes(ds[1..])
  }

  lemma {:induction false} DelayBytesAt(ds: seq<int>, i: nat)
    requires AllFit(ds)
    requires i < |ds|
    ensures ReadU16(DelayBytes(ds)[2 * i], DelayBytes(ds)[2 * i + 1]) == ds[i]
  {
    if i > 0 {
      DelayBytesAt(ds[1..], i - 1);
      assert DelayBytes(ds)[2 * i] == DelayBytes(ds[1..])[2 * (i - 1)];
      assert DelayBytes(ds)[2 * i + 1] == DelayBytes(ds[1..])[2 * (i - 1) + 1];
    }
  }

  /** The frame area: the bitmaps back to back. */
  function FrameBytes(fs: seq<Frame>): (r: seq<byte>)
    ensures |r| == FRAME_SIZE * |fs|
  {
    if |fs| == 0 then [] else fs[0] + FrameBytes(fs[1..])
  }

  lemma {:induction false} FrameBytesAt(fs: seq<Frame>, i: nat)
    requires i < |fs|
    ensures FrameBytes(fs)[i * FRAME_SIZE..i * FRAME_SIZE + FRAME_SIZE] == fs[i]
  {
    if i > 0 {
      FrameBytesAt(fs[1..], i - 1);
      var rest := FrameBytes(fs[1..]);
      assert FrameBytes(fs) == fs[0] + rest;
      assert i * FRAME_SIZE == FRAME_SIZE + (i - 1) * FRAME_SIZE;
      assert FrameBytes(fs)[i * FRAME_SIZE..i * FRAME_SIZE + FRAME_SIZE]
          == rest[(i - 1) * FRAME_SIZE..(i - 1) * FRAME_SIZE + FRAME_SIZE];
    } else {
      assert FrameBytes(fs) == fs[0] + FrameBytes(fs[1..]);
    }
  }

  /** The five header bytes: count, width 128, height 64. */
  function Head(n: nat): (r: seq<byte>)
    requires n < 256
    ensures |r| == HEADER_SIZE
    ensures r[0] as nat == n && U16At(r, 1) == FRAME_WIDTH && U16At(r, 3) == FRAME_HEIGHT
  {
    HeadFields(n, FRAME_WIDTH, FRAME_HEIGHT, []);
    [ToByte(n)] + U16Le(FRAME_WIDTH) + U16Le(FRAME_HEIGHT) + []
  }

  /** The file image: count, width 128, height 64, delays, frames. */
  function Encode(ds: seq<int>, fs: seq<Frame>): (out: seq<byte>)
    requires |ds| == |fs| <= MAX_FRAMES
    requires AllFit(ds)
    ensures |out| == QgifSize(|fs|)
  {
    Head(|fs|) + DelayBytes(ds) + FrameBytes(fs)
  }

  /** The normalised delay of every kept frame. */
  function KeptDelays(frames: seq<SourceFrame>): (ds: seq<int>)
    ensures |ds| == |Kept(frames)|
    ensures forall i :: 0 <= i < |ds| ==> ds[i] == NormaliseDelay(frames[i].duration)
  {
    var kept := Kept(frames);
    seq(|kept|, i requires 0 <= i < |kept| => NormaliseDelay(kept[i].duration))
  }

  /** Every delay fits the unsigned 16-bit field. */
  predicate AllFit(ds: seq<int>) {
    forall i :: 0 <= i < |ds| ==> 0 <= ds[i] < 0x1_0000
  }

  /** The bitmap of every kept frame. */
  function KeptBitmaps(frames: seq<SourceFrame>, threshold: int, invert: bool): (fs: seq<Frame>)
    ensures |fs| == |Kept(frames)|
    ensures forall i :: 0 <= i < |fs| ==> fs[i] == FrameToBitmap(frames[i].pixels, threshold, invert)
  {
    var kept := Kept(frames);
    seq(|kept|, i requires 0 <= i < |kept| => FrameToBitmap(kept[i].pixels, threshold, invert))
  }

  /**
   * `convert_gif` after decoding: no frames is an error, more than 255 are
   * cut to 255, delays are normalised and must fit the 16-bit field.
   */
  function Convert(frames: seq<SourceFrame>, threshold: int, invert: bool): (r: Result<seq<byte>, ConvertError>)
    ensures r == Err(NoFrames) <==> |frames| == 0
    ensures r == Err(DelayOutOfRange) <==> |frames| > 0 && !AllFit(KeptDelays(frames))
    ensures r.Ok? ==> |r.value| == QgifSize(|Kept(frames)|)
  {
    var ds := KeptDelays(frames);
    if |frames| == 0 then Err(NoFrames)
    else if !AllFit(ds) then Err(DelayOutOfRange)
    else Ok(Encode(ds, KeptBitmaps(frames, threshold, invert)))
  }

  /**
   * Every file the converter writes passes the firmware's header check, and
   * the player reads back exactly the normalised delays and the converted
   * frames.
   */
  lemma ConvertedFilePlays(frames: seq<SourceFrame>, threshold: int, invert: bool, i: nat)
    requires Convert(frames, threshold, invert).Ok?
    requires i < |Kept(frames)|
    ensures var out, n := Convert(frames, threshold, invert).value, |Kept(frames)|;
            && GifPlayer.ParseHeader(out) == Ok(GifPlayer.Header(n, FRAME_WIDTH, FRAME_HEIGHT, KeptDelays(frames)))
            && GifPlayer.ReadFrame(out, DataOffset(n), i) == Some(FrameToBitmap(frames[i].pixels, threshold, invert))
  {
    EncodeParses(KeptDelays(frames), KeptBitmaps(frames, threshold, invert), i);
  }

  /** The round trip of the layout: the player parses what `Encode` wrote. */
  lemma EncodeParses(ds: seq<int>, fs: seq<Frame>, i: nat)
    requires 0 < |ds| == |fs| <= MAX_FRAMES && AllFit(ds)
    requires i < |fs|
    ensures var out := Encode(ds, fs);
            && GifPlayer.ParseHeader(out) == Ok(GifPlayer.Header(|fs|, FRAME_WIDTH, FRAME_HEIGHT, ds))
            && GifPlayer.ReadFrame(out, DataOffset(|fs|), i) == Some(fs[i])
  {
    EncodeHeader(ds, fs);
    EncodeDelays(ds, fs);
    EncodeFrame(ds, fs, i);
  }

  /** Bytes 0 to 4 of an encoded file: the count, then 128 and 64. */
  lemma EncodeHeader(ds: seq<int>, fs: seq<Frame>)
    requires |ds| == |fs| <= MAX_FRAMES && AllFit(ds)
    ensures var out := Encode(ds, fs);
            out[0] as nat == |fs| && U16At(out, 1) == FRAME_WIDTH && U16At(out, 3) == FRAME_HEIGHT
  {
    var out, head := Encode(ds, fs), Head(|fs|);
    assert out == head + (DelayBytes(ds) + FrameBytes(fs));
    assert out[0] == head[0] && out[1] == head[1] && out[2] == head[2] && out[3] == head[3] && out[4] == head[4];
  }

  /** A count byte followed by two `<H` fields reads back as the three values. */
  lemma HeadFields(n: nat, w: nat, h: nat, rest: seq<byte>)
    requires n < 256 && w < 0x1_0000 && h < 0x1_0000
    ensures var out := [ToByte(n)] + U16Le(w) + U16Le(h) + rest;
            out[0] as nat == n && U16At(out, 1) == w && U16At(out, 3) == h
  {
    var a, b := U16Le(w), U16Le(h);
    var out := [ToByte(n)] + a + b + rest;
    assert out[1] == a[0] && out[2] == a[1] && out[3] == b[0] && out[4] == b[1];
  }

  /** The delay table of an encoded file reads back as `ds`. */
  lemma EncodeDelays(ds: seq<int>, fs: seq<Frame>)
    requires |ds| == |fs| <= MAX_FRAMES && AllFit(ds)
    ensures DataOffset(|fs|) <= |Encode(ds, fs)|
    ensures GifPlayer.Delays(Encode(ds, fs), |fs|) == ds
  {
    var n := |fs|;
    var out := Encode(ds, fs);
    var delays, rest := DelayBytes(ds), FrameBytes(fs);
    assert out == Head(n) + delays + rest;
    var got := GifPlayer.Delays(out, n);
    forall k | 0 <= k < n
      ensures got[k] == ds[k]
    {
      DelayBytesAt(ds, k);
      PairAfterHead(Head(n), delays, rest, 2 * k);
    }
  }

  /** Bytes `j` and `j + 1` of the delay area sit `HEADER_SIZE` further on in the file. */
  lemma PairAfterHead(head: seq<byte>, delays: seq<byte>, rest: seq<byte>, j: nat)
    requires |head| == HEADER_SIZE && j + 1 < |delays|
    ensures var out := head + delays + rest;
            out[HEADER_SIZE + j] == delays[j] && out[HEADER_SIZE + j + 1] == delays[j + 1]
  {
  }

  /** Frame `i` of an encoded file is `fs[i]`. */
  lemma EncodeFrame(ds: seq<int>, fs: seq<Frame>, i: nat)
    requires |ds| == |fs| <= MAX_FRAMES && AllFit(ds)
    requires i < |fs|
    ensures GifPlayer.ReadFrame(Encode(ds, fs), DataOffset(|fs|), i) == Some(fs[i])
  {
    var n := |fs|;
    var out := Encode(ds, fs);
    var prefix := Head(n) + DelayBytes(ds);
    assert out == prefix + FrameBytes(fs);
    assert |prefix| == DataOffset(n);
    FrameBytesAt(fs, i);
    var off := DataOffset(n) + i * FRAME_SIZE;
    assert out[off..off + FRAME_SIZE] == FrameBytes(fs)[i * FRAME_SIZE..i * FRAME_SIZE + FRAME_SIZE];
  }
}
