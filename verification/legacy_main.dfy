/**
 * `playGIF` of the stand-alone sketch (main.cpp): the same 8x8 block
 * transpose with inversion and 180-degree rotation as `gifRenderFrame`, but
 * only the first column of each drawn page is blacked out, every frame waits
 * its delay halved (`GIF_SPEED`), and the whole animation plays `loopCount`
 * times in a row.
 *
 * Sending the buffer to the panel and `delay()` are modelled as the list of
 * (buffer, wait) pairs the sketch hands over, in order.
 */
module LegacyMain {
  import opened GifTypes
  import opened FrameRenderer
  import GifPlayer

  const GIF_SPEED: nat := 2

  /** Byte `i` of the buffer after `playGIF` draws one frame over `buf`. */
  function LegacyByte(buf: seq<byte>, frame: Frame, bpr: nat, pages: nat, i: nat): byte
    requires |buf| == BUFFER_SIZE && i < BUFFER_SIZE
    requires bpr <= 16 && pages <= 8
  {
    var p := i / COLUMNS;
    var c := i % COLUMNS;
    if p < pages && c == 0 then 0
    else if p < pages && c / 8 < bpr then
      Column(Block(frame, bpr, pages - 1 - p, bpr - 1 - c / 8), 7 - c % 8)
    else buf[i]
  }

  /** One frame of `playGIF` on the display buffer. */
  function LegacyFrame(buf: seq<byte>, frame: Frame, width: nat, height: nat): (out: seq<byte>)
    requires |buf| == BUFFER_SIZE
    requires width <= FRAME_WIDTH && height <= FRAME_HEIGHT
    ensures |out| == BUFFER_SIZE
  {
    var bpr, pages := Bpr(width), Pages(height);
    seq(BUFFER_SIZE, i requires 0 <= i < BUFFER_SIZE => LegacyByte(buf, frame, bpr, pages, i))
  }

  lemma LegacyFrameAt(buf: seq<byte>, frame: Frame, width: nat, height: nat, i: nat)
    requires |buf| == BUFFER_SIZE && i < BUFFER_SIZE
    requires width <= FRAME_WIDTH && height <= FRAME_HEIGHT
    ensures Bpr(width) <= 16 && Pages(height) <= 8
    ensures LegacyFrame(buf, frame, width, height)[i] == LegacyByte(buf, frame, Bpr(width), Pages(height), i)
  {
  }

  /**
   * `playGIF` and `gifRenderFrame` leave the same buffer except on the last
   * column of the drawn pages: there `gifRenderFrame` writes black while
   * `playGIF` keeps the transposed byte (or the old one when the frame is
   * too narrow to reach that column).
   */
  lemma LegacyDiffersOnlyInLastColumn(buf: seq<byte>, frame: Frame, width: nat, height: nat, i: nat)
    requires |buf| == BUFFER_SIZE && i < BUFFER_SIZE
    requires width <= FRAME_WIDTH && height <= FRAME_HEIGHT
    ensures var legacy, current := LegacyFrame(buf, frame, width, height), RenderFrame(buf, frame, width, height);
            var p, c := i / COLUMNS, i % COLUMNS;
            && (!(p < Pages(height) && c == COLUMNS - 1) ==> legacy[i] == current[i])
            && (p < Pages(height) && c == COLUMNS - 1 ==> current[i] == 0)
  {
    LegacyFrameAt(buf, frame, width, height, i);
    RenderFrameAt(buf, frame, width, height, i);
  }

  /**
   * The legacy transpose: on a full 128x64 frame, the last display column
   * shows source column 0 inverted, where `gifRenderFrame` shows black.
   */
  lemma LegacyLastColumn(buf: seq<byte>, frame: Frame, y: nat)
    requires |buf| == BUFFER_SIZE && y < FRAME_HEIGHT
    ensures DisplayPixel(LegacyFrame(buf, frame, FRAME_WIDTH, FRAME_HEIGHT), FRAME_WIDTH - 1, FRAME_HEIGHT - 1 - y)
            <==> !SourcePixel(frame, 16, 0, y)
    ensures !DisplayPixel(RenderFrame(buf, frame, FRAME_WIDTH, FRAME_HEIGHT), FRAME_WIDTH - 1, FRAME_HEIGHT - 1 - y)
  {
    var legacy := LegacyFrame(buf, frame, FRAME_WIDTH, FRAME_HEIGHT);
    var current := RenderFrame(buf, frame, FRAME_WIDTH, FRAME_HEIGHT);
    var i := DestIndex(16, 8, y / 8, 0, 0);
    var b := Bit(legacy[i], 7 - y % 8);
    var s := Bit(frame[SrcIndex(16, (y / 8) * 8 + y % 8, 0)], 7);
    assert b <==> !s by {
      LegacyColumnByte(buf, frame, y / 8, y % 8);
    }
    assert DisplayPixel(legacy, FRAME_WIDTH - 1, FRAME_HEIGHT - 1 - y) == b by {
      LastColumnSplit(legacy, y);
    }
    assert SourcePixel(frame, 16, 0, y) == s by {
      SourceSplit(frame, 0, y);
    }
    assert DisplayPixel(current, FRAME_WIDTH - 1, FRAME_HEIGHT - 1 - y) == Bit(current[i], 7 - y % 8) by {
      LastColumnSplit(current, y);
    }
    assert current[i] == 0 by {
      LastColumnIndices(y);
      RenderFrameAt(buf, frame, FRAME_WIDTH, FRAME_HEIGHT, i);
    }
  }

  /** The legacy byte of the last column holds source column 0 of block `(sp, 0)`, inverted. */
  lemma LegacyColumnByte(buf: seq<byte>, frame: Frame, sp: nat, row: nat)
    requires |buf| == BUFFER_SIZE && sp < 8 && row < 8
    ensures Bit(LegacyFrame(buf, frame, FRAME_WIDTH, FRAME_HEIGHT)[DestIndex(16, 8, sp, 0, 0)], 7 - row)
            <==> !Bit(frame[SrcIndex(16, sp * 8 + row, 0)], 7)
  {
    var i := DestIndex(16, 8, sp, 0, 0);
    assert LegacyFrame(buf, frame, FRAME_WIDTH, FRAME_HEIGHT)[i] == Column(Block(frame, 16, sp, 0), 0) by {
      LegacyFrameAt(buf, frame, FRAME_WIDTH, FRAME_HEIGHT, i);
      DestSplit(16, 8, sp, 0, 0);
    }
    var r, b := Block(frame, 16, sp, 0), frame[SrcIndex(16, sp * 8 + row, 0)];
    assert r[row] == !b;
    TransposedBit(r, b, row, 0);
  }

  /** Display pixel `(127, 63 - y)` is bit `7 - y % 8` of the byte `DestIndex` names for column 0. */
  lemma LastColumnSplit(out: seq<byte>, y: nat)
    requires |out| == BUFFER_SIZE && y < FRAME_HEIGHT
    ensures DisplayPixel(out, FRAME_WIDTH - 1, FRAME_HEIGHT - 1 - y) == Bit(out[DestIndex(16, 8, y / 8, 0, 0)], 7 - y % 8)
  {
    LastColumnIndices(y);
  }

  /** The index arithmetic of the last display column. */
  lemma LastColumnIndices(y: nat)
    requires y < FRAME_HEIGHT
    ensures Bpr(FRAME_WIDTH) == 16 && Pages(FRAME_HEIGHT) == 8
    ensures var i := DestIndex(16, 8, y / 8, 0, 0);
            && i == ((FRAME_HEIGHT - 1 - y) / 8) * COLUMNS + (FRAME_WIDTH - 1)
            && i / COLUMNS == 7 - y / 8 && i % COLUMNS == COLUMNS - 1
    ensures (FRAME_HEIGHT - 1 - y) % 8 == 7 - y % 8
  {
  }

  /** The sketch's wait after a frame: the delay halved, at least 1 ms. */
  function LegacyDelay(delay: nat): (w: nat)
    ensures w >= 1
    ensures w == GifPlayer.FrameWait(delay, GIF_SPEED)
  {
    var d := delay / GIF_SPEED;
    if d > 0 then d else 1
  }

  /** Halving the delay: the wait is the rounded-down half, or 1 ms for delays below 2 ms. */
  lemma LegacyDelayHalves(delay: nat)
    ensures delay >= 2 ==> 2 * LegacyDelay(delay) <= delay <= 2 * LegacyDelay(delay) + 1
    ensures delay < 2 ==> LegacyDelay(delay) == 1
  {
  }

  /** What `sendBuffer` and `delay` hand over for one frame. */
  datatype Sent = Sent(buffer: seq<byte>, wait: nat)

  /** Frame `k`, `k + 1`, ... of `loops` passes over `n` frames: `k mod n` for each step. */
  function Schedule(n: nat, loops: nat): (order: seq<nat>)
    ensures forall k :: 0 <= k < |order| ==> order[k] < n
    decreases loops
  {
    if loops == 0 then [] else Schedule(n, loops - 1) + Range(n, 0)
  }

  /** `lo, lo + 1, ..., n - 1`. */
  function Range(n: nat, lo: nat): (r: seq<nat>)
    ensures |r| == if lo <= n then n - lo else 0
    ensures forall k :: 0 <= k < |r| ==> r[k] == lo + k
    decreases n - lo
  {
    if lo >= n then [] else [lo] + Range(n, lo + 1)
  }

  /** The schedule is `loops` full passes: its length is `loops * n` and pass `l`, step `f` is frame `f`. */
  lemma {:induction false} ScheduleIsLoops(n: nat, loops: nat, l: nat, f: nat)
    ensures |Schedule(n, loops)| == loops * n
    ensures l < loops && f < n ==> l * n + f < |Schedule(n, loops)| && Schedule(n, loops)[l * n + f] == f
    decreases loops
  {
    if loops > 0 {
      ScheduleIsLoops(n, loops - 1, l, f);
      assert (loops - 1) * n + n == loops * n;
      if l < loops && f < n {
        if l < loops - 1 {
          GifPlayer.MulMono(n, l + 1, loops - 1);
          assert l * n + f < (loops - 1) * n;
        } else {
          assert l * n + f == (loops - 1) * n + f;
        }
      }
    }
  }

  /**
   * `playGIF`: the buffers sent and waits taken, frame by frame in the
   * given order; each frame is drawn over the buffer the previous one left.
   */
  function PlayFrames(buf: seq<byte>, gif: AnimatedGif, order: seq<nat>): (sent: seq<Sent>)
    requires |buf| == BUFFER_SIZE
    requires gif.width <= FRAME_WIDTH && gif.height <= FRAME_HEIGHT
    requires |gif.delays| == gif.frameCount && |gif.frames| == gif.frameCount
    requires forall k :: 0 <= k < |order| ==> order[k] < gif.frameCount
    ensures |sent| == |order|
    ensures forall k :: 0 <= k < |sent| ==> |sent[k].buffer| == BUFFER_SIZE
    ensures forall k :: 0 <= k < |sent| ==> sent[k].wait == LegacyDelay(gif.delays[order[k]])
    ensures |order| > 0 ==> sent[0].buffer == LegacyFrame(buf, gif.frames[order[0]], gif.width, gif.height)
    ensures forall k :: 0 < k < |sent| ==>
              sent[k].buffer == LegacyFrame(sent[k - 1].buffer, gif.frames[order[k]], gif.width, gif.height)
    decreases |order|
  {
    if |order| == 0 then []
    else
      var f := order[0];
      var out := LegacyFrame(buf, gif.frames[f], gif.width, gif.height);
      [Sent(out, LegacyDelay(gif.delays[f]))] + PlayFrames(out, gif, order[1..])
  }

  /** `playGIF(gif, loopCount)` on the buffer `buf`. */
  function PlayGif(buf: seq<byte>, gif: AnimatedGif, loopCount: nat): (sent: seq<Sent>)
    requires |buf| == BUFFER_SIZE
    requires gif.width <= FRAME_WIDTH && gif.height <= FRAME_HEIGHT
    requires |gif.delays| == gif.frameCount && |gif.frames| == gif.frameCount
    ensures |sent| == |Schedule(gif.frameCount, loopCount)|
  {
    PlayFrames(buf, gif, Schedule(gif.frameCount, loopCount))
  }

  /**
   * `loopCount` passes: `loopCount * frameCount` frames are sent, and step
   * `l * frameCount + f` shows frame `f` and waits its halved delay.
   */
  lemma PlayGifLoops(buf: seq<byte>, gif: AnimatedGif, loopCount: nat, l: nat, f: nat)
    requires |buf| == BUFFER_SIZE
    requires gif.width <= FRAME_WIDTH && gif.height <= FRAME_HEIGHT
    requires |gif.delays| == gif.frameCount && |gif.frames| == gif.frameCount
    requires l < loopCount && f < gif.frameCount
    ensures var sent, k := PlayGif(buf, gif, loopCount), l * gif.frameCount + f;
            && |sent| == loopCount * gif.frameCount
            && k < |sent|
            && sent[k].wait == LegacyDelay(gif.delays[f])
            && (k > 0 ==> sent[k].buffer == LegacyFrame(sent[k - 1].buffer, gif.frames[f], gif.width, gif.height))
  {
    ScheduleIsLoops(gif.frameCount, loopCount, l, f);
  }
}
