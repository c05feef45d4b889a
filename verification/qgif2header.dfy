/**
 * The `.qgif` reader of the header generator (qgif2header.py): it decodes
 * count, width, height and the delay table, then slices `count` frames of
 * `(width // 8) * height` bytes, stopping with an error at the first
 * truncated frame. It performs no dimension check. The C text it emits is
 * not modelled.
 *
 * Python's `data[0]` on an empty file and `struct.unpack_from` past the end
 * raise; both become `Err` values here.
 */
module Qgif2Header {
  import opened Wrappers
  import opened GifTypes
  import FrameRenderer
  import GifPlayer

  datatype ReadError =
    | MissingCount       // `data[0]` raises IndexError
    | ShortField         // `struct.unpack_from` raises struct.error
    | Truncated(frame: nat)

  datatype Parsed = Parsed(frameCount: nat, width: nat, height: nat, delays: seq<nat>, frames: seq<seq<byte>>)

  /** Python's `data[a:b]` for `0 <= a <= b`: both ends are clamped to the length. */
  function Slice(data: seq<byte>, a: nat, b: nat): (r: seq<byte>)
    requires a <= b
    ensures b <= |data| ==> r == data[a..b]
    ensures |r| == b - a <==> b <= |data| || a == b
  {
    var lo := if a < |data| then a else |data|;
    var hi := if b < |data| then b else |data|;
    data[lo..hi]
  }

  /** Bytes per frame as the script computes it: `(width // 8) * height`. */
  function FrameSizeAsWritten(width: nat, height: nat): nat {
    (width / 8) * height
  }

  /** Bytes per frame as the firmware's renderer reads an embedded frame: whole bytes per row. */
  function FrameSize(width: nat, height: nat): (size: nat)
    ensures size == FrameRenderer.Bpr(width) * height
  {
    ((width + 7) / 8) * height
  }

  /** The two formulas agree exactly when the rows are whole bytes, or there are no rows. */
  lemma FrameSizesAgree(width: nat, height: nat)
    ensures FrameSizeAsWritten(width, height) == FrameSize(width, height) <==> width % 8 == 0 || height == 0
  {
    if height > 0 {
      var q, r := width / 8, (width + 7) / 8;
      assert width % 8 == 0 <==> q == r;
      if q != r {
        assert q < r;
        assert q * height < r * height by { FrameRenderer.MulMono(height, q + 1, r); }
      }
    }
  }

  /** A 12-pixel-wide, 8-row frame: the script slices 8 bytes, the renderer reads 16. */
  lemma FrameSizeCounterexample()
    ensures FrameSizeAsWritten(12, 8) == 8
    ensures FrameSize(12, 8) == 16
  {
  }

  /** Which frame size formula a reader uses. */
  datatype SizeRule = AsWritten | Corrected

  function SizeOf(rule: SizeRule, width: nat, height: nat): nat {
    match rule
    case AsWritten => FrameSizeAsWritten(width, height)
    case Corrected => FrameSize(width, height)
  }

  /** The frame loop: `count` slices of `size` bytes from `offset`, numbered from `first`. */
  function ReadFrames(data: seq<byte>, offset: nat, count: nat, size: nat, first: nat): (r: Result<seq<seq<byte>>, ReadError>)
    ensures r.Ok? ==> |r.value| == count
    ensures r.Ok? ==> forall k :: 0 <= k < count ==> |r.value[k]| == size
    ensures r.Err? ==> r.error.Truncated? && first <= r.error.frame < first + count
    decreases count
  {
    if count == 0 then Ok([])
    else
      var frame := Slice(data, offset, offset + size);
      if |frame| != size then Err(Truncated(first))
      else
        match ReadFrames(data, offset + size, count - 1, size, first + 1)
        case Ok(rest) => Ok([frame] + rest)
        case Err(e) => Err(e)
  }

  /** The loop succeeds exactly when the last frame ends inside the file. */
  lemma {:induction false} ReadFramesOk(data: seq<byte>, offset: nat, count: nat, size: nat, first: nat)
    requires offset <= |data|
    ensures ReadFrames(data, offset, count, size, first).Ok? <==> count == 0 || offset + count * size <= |data|
    decreases count
  {
    if count > 0 {
      if offset + size > |data| {
        assert offset + count * size >= offset + size by {
          FrameRenderer.MulMono(size, 1, count);
        }
      } else {
        ReadFramesOk(data, offset + size, count - 1, size, first + 1);
        assert offset + count * size == (offset + size) + (count - 1) * size;
      }
    }
  }

  /** Frame `i` of a successful loop is the slice at `offset + i * size`. */
  lemma {:induction false} ReadFramesAt(data: seq<byte>, offset: nat, count: nat, size: nat, first: nat, i: nat)
    requires offset <= |data|
    requires ReadFrames(data, offset, count, size, first).Ok?
    requires i < count
    ensures offset + i * size + size <= |data|
    ensures ReadFrames(data, offset, count, size, first).value[i] == data[offset + i * size..offset + i * size + size]
    decreases count
  {
    var frame := Slice(data, offset, offset + size);
    assert |frame| == size;
    if i > 0 {
      ReadFramesAt(data, offset + size, count - 1, size, first + 1, i - 1);
      assert offset + i * size == (offset + size) + (i - 1) * size;
    }
  }

  /** The delays as the script reads them: `n` fields from offset 5. */
  function DelayTable(data: seq<byte>, n: nat): (ds: seq<nat>)
    requires HEADER_SIZE + 2 * n <= |data|
    ensures |ds| == n
    ensures forall i :: 0 <= i < n ==> ds[i] == U16At(data, HEADER_SIZE + 2 * i)
  {
    seq(n, i requires 0 <= i < n => U16At(data, HEADER_SIZE + 2 * i))
  }

  /** `main` up to the header text, with a frame size formula. */
  function ParseWith(data: seq<byte>, rule: SizeRule): (r: Result<Parsed, ReadError>)
    ensures r == Err(MissingCount) <==> |data| == 0
    ensures r == Err(ShortField) <==> 0 < |data| && (|data| < HEADER_SIZE || |data| < DataOffset(data[0] as nat))
    ensures r.Ok? ==>
              && r.value.frameCount == data[0] as nat
              && r.value.width == U16At(data, 1) && r.value.height == U16At(data, 3)
              && r.value.delays == DelayTable(data, data[0] as nat)
              && |r.value.frames| == r.value.frameCount
  {
    if |data| == 0 then Err(MissingCount)
    else if |data| < HEADER_SIZE then Err(ShortField)
    else
      var n := data[0] as nat;
      var w, h := U16At(data, 1), U16At(data, 3);
      if |data| < DataOffset(n) then Err(ShortField)
      else
        match ReadFrames(data, DataOffset(n), n, SizeOf(rule, w, h), 0)
        case Ok(frames) => Ok(Parsed(n, w, h, DelayTable(data, n), frames))
        case Err(e) => Err(e)
  }

  /** Where the script looks for frame `i` of `n` frames of `size` bytes. */
  function SlotOffset(n: nat, i: nat, size: nat): nat {
    DataOffset(n) + i * size
  }

  /**
   * Frame `i` of a successful parse is the `size`-byte block at
   * `5 + 2 * count + i * size`, and the parse fails with `Truncated` exactly
   * when the delay table is complete but the last frame overruns the file.
   */
  lemma ParsedFrame(data: seq<byte>, rule: SizeRule, i: nat)
    requires ParseWith(data, rule).Ok?
    requires i < data[0] as nat
    ensures var n, size := data[0] as nat, SizeOf(rule, U16At(data, 1), U16At(data, 3));
            var off := SlotOffset(n, i, size);
            && off + size <= |data|
            && ParseWith(data, rule).value.frames[i] == data[off..off + size]
  {
    var n, size := data[0] as nat, SizeOf(rule, U16At(data, 1), U16At(data, 3));
    ReadFramesAt(data, DataOffset(n), n, size, 0, i);
  }

  lemma TruncatedWhenShort(data: seq<byte>, rule: SizeRule)
    requires |data| >= HEADER_SIZE && |data| >= DataOffset(data[0] as nat)
    ensures var n, size := data[0] as nat, SizeOf(rule, U16At(data, 1), U16At(data, 3));
            ParseWith(data, rule).Err? <==> n > 0 && DataOffset(n) + n * size > |data|
  {
    var n, size := data[0] as nat, SizeOf(rule, U16At(data, 1), U16At(data, 3));
    ReadFramesOk(data, DataOffset(n), n, size, 0);
  }

  /** The script as written. */
  function Parse(data: seq<byte>): Result<Parsed, ReadError> {
    ParseWith(data, AsWritten)
  }

  /** The script with the renderer's frame size. */
  function ParseCorrected(data: seq<byte>): Result<Parsed, ReadError> {
    ParseWith(data, Corrected)
  }

  /**
   * The corrected reader slices every frame to exactly the bytes the
   * firmware's renderer reads for it: `Bpr(width)` bytes for each of the
   * `height` rows.
   */
  lemma CorrectedFramesFitRenderer(data: seq<byte>, i: nat)
    requires ParseCorrected(data).Ok?
    requires i < data[0] as nat
    ensures var p := ParseCorrected(data).value;
            |p.frames[i]| == FrameRenderer.Bpr(p.width) * p.height
  {
    ParsedFrame(data, Corrected, i);
  }

  /**
   * As written, a file whose header says 12x8 is sliced into 8-byte frames,
   * half of what the renderer reads per frame.
   */
  lemma AsWrittenFramesTooShort(data: seq<byte>, i: nat)
    requires Parse(data).Ok?
    requires i < data[0] as nat
    requires U16At(data, 1) == 12 && U16At(data, 3) == 8
    ensures |Parse(data).value.frames[i]| == 8
    ensures FrameRenderer.Bpr(Parse(data).value.width) * Parse(data).value.height == 16
  {
    ParsedFrame(data, AsWritten, i);
  }

  /**
   * On every file the firmware accepts, the script succeeds exactly when the
   * file holds all the frames it declares, and reads the same header and
   * delays as the player.
   */
  lemma AgreesWithPlayer(data: seq<byte>)
    requires GifPlayer.ParseHeader(data).Ok?
    ensures Parse(data).Ok? <==> |data| >= QgifSize(data[0] as nat)
    ensures Parse(data).Ok? ==>
              var h := GifPlayer.ParseHeader(data).value;
              && Parse(data).value.frameCount == h.frameCount
              && Parse(data).value.width == h.width && Parse(data).value.height == h.height
              && Parse(data).value.delays == h.delays
  {
    var n := data[0] as nat;
    FullFrameSize(data);
    ReadFramesOk(data, DataOffset(n), n, FRAME_SIZE, 0);
    assert DataOffset(n) + n * FRAME_SIZE == QgifSize(n);
  }

  /** ... and frame `i` is the block the player's `_readFrame` returns. */
  lemma FramesAgreeWithPlayer(data: seq<byte>, i: nat)
    requires GifPlayer.ParseHeader(data).Ok?
    requires Parse(data).Ok?
    requires i < data[0] as nat
    ensures Some(Parse(data).value.frames[i]) == GifPlayer.ReadFrame(data, DataOffset(data[0] as nat), i)
  {
    FullFrameSize(data);
    ParsedFrame(data, AsWritten, i);
    SlotIsReadFrame(data, data[0] as nat, i, Parse(data).value.frames[i]);
  }

  /** The script's slot for frame `i`, at 1024 bytes a frame, is the block the player reads. */
  lemma SlotIsReadFrame(data: seq<byte>, n: nat, i: nat, frame: seq<byte>)
    requires SlotOffset(n, i, FRAME_SIZE) + FRAME_SIZE <= |data|
    requires frame == data[SlotOffset(n, i, FRAME_SIZE)..SlotOffset(n, i, FRAME_SIZE) + FRAME_SIZE]
    ensures Some(frame) == GifPlayer.ReadFrame(data, DataOffset(n), i)
  {
  }

  /** Both formulas give 1024 bytes for the 128x64 files the firmware accepts. */
  lemma FullFrameSize(data: seq<byte>)
    requires GifPlayer.ParseHeader(data).Ok?
    ensures SizeOf(AsWritten, U16At(data, 1), U16At(data, 3)) == FRAME_SIZE
    ensures SizeOf(Corrected, U16At(data, 1), U16At(data, 3)) == FRAME_SIZE
  {
    var w, h := U16At(data, 1), U16At(data, 3);
    assert w == FRAME_WIDTH && h == FRAME_HEIGHT;
    assert SizeOf(AsWritten, FRAME_WIDTH, FRAME_HEIGHT) == FRAME_SIZE;
    assert SizeOf(Corrected, FRAME_WIDTH, FRAME_HEIGHT) == FRAME_SIZE;
  }
}
