/**
 * `rotateBuffer180` (display_helpers.cpp): turns the 1024-byte SSD1306
 * page buffer upside down in place, first reversing the byte order and
 * then reversing the bits of every byte.
 */
module DisplayHelpers {
  import opened GifTypes
  import opened FrameRenderer

  /** The three mask-and-shift steps: swap nibbles, then bit pairs, then neighbouring bits. */
  function BitReverse(b: byte): byte {
    var b1 := ((b & 0xF0) >> 4) | ((b & 0x0F) << 4);
    var b2 := ((b1 & 0xCC) >> 2) | ((b1 & 0x33) << 2);
    ((b2 & 0xAA) >> 1) | ((b2 & 0x55) << 1)
  }

  /** Bit `k` of the result is bit `7 - k` of the input. */
  lemma BitReverseBit(b: byte, k: nat)
    requires k < 8
    ensures Bit(BitReverse(b), 7 - k) <==> Bit(b, k)
  {
    if k == 0 {} else if k == 1 {} else if k == 2 {} else if k == 3 {}
    else if k == 4 {} else if k == 5 {} else if k == 6 {} else {}
  }

  lemma BitReverseInvolution(b: byte)
    ensures BitReverse(BitReverse(b)) == b
  {
  }

  /** The rotated buffer, as a reference: byte `i` is the bit-reversed byte `1023 - i`. */
  function Rotate180(buf: seq<byte>): (out: seq<byte>)
    requires |buf| == BUFFER_SIZE
    ensures |out| == BUFFER_SIZE
  {
    seq(BUFFER_SIZE, i requires 0 <= i < BUFFER_SIZE => BitReverse(buf[BUFFER_SIZE - 1 - i]))
  }

  /** `rotateBuffer180`: the swap loop over the first half, then the bit-reversal loop. */
  method RotateBuffer180(buf: seq<byte>) returns (out: seq<byte>)
    requires |buf| == BUFFER_SIZE
    ensures |out| == BUFFER_SIZE
    ensures forall i :: 0 <= i < BUFFER_SIZE ==> out[i] == BitReverse(buf[BUFFER_SIZE - 1 - i])
    ensures out == Rotate180(buf)
  {
    var len := BUFFER_SIZE;
    var a := buf;
    for i := 0 to len / 2
      invariant |a| == len
      invariant forall k :: 0 <= k < i ==> a[k] == buf[len - 1 - k] && a[len - 1 - k] == buf[k]
      invariant forall k :: i <= k < len - i ==> a[k] == buf[k]
    {
      var tmp := a[i];
      a := a[i := a[len - 1 - i]];
      a := a[len - 1 - i := tmp];
    }
    assert forall k :: 0 <= k < len ==> a[k] == buf[len - 1 - k] by {
      forall k | 0 <= k < len ensures a[k] == buf[len - 1 - k] {
        if k >= len / 2 {
          assert a[len - 1 - (len - 1 - k)] == buf[len - 1 - k];
        }
      }
    }
    for i := 0 to len
      invariant |a| == len
      invariant forall k :: 0 <= k < i ==> a[k] == BitReverse(buf[len - 1 - k])
      invariant forall k :: i <= k < len ==> a[k] == buf[len - 1 - k]
    {
      a := a[i := BitReverse(a[i])];
    }
    out := a;
  }

  /** Rotating twice gives the original buffer back. */
  lemma Rotate180Involution(buf: seq<byte>)
    requires |buf| == BUFFER_SIZE
    ensures Rotate180(Rotate180(buf)) == buf
  {
    var once := Rotate180(buf);
    var twice := Rotate180(once);
    forall i | 0 <= i < BUFFER_SIZE ensures twice[i] == buf[i] {
      BitReverseInvolution(buf[i]);
    }
  }

  /** Pixel `(x, y)` — page `y / 8`, column `x`, bit `y % 8` — ends at `(127 - x, 63 - y)`. */
  lemma Rotate180Pixel(buf: seq<byte>, x: nat, y: nat)
    requires |buf| == BUFFER_SIZE && x < COLUMNS && y < 64
    ensures DisplayPixel(Rotate180(buf), COLUMNS - 1 - x, 63 - y) <==> DisplayPixel(buf, x, y)
  {
    var p, b := y / 8, y % 8;
    assert (63 - y) / 8 == 7 - p && (63 - y) % 8 == 7 - b;
    var i := p * COLUMNS + x;
    var j := (7 - p) * COLUMNS + (COLUMNS - 1 - x);
    assert j == BUFFER_SIZE - 1 - i;
    BitReverseBit(buf[i], b);
  }
}
