/**
 * The `.qgif` container: layout constants, little-endian 16-bit fields and the
 * record used for animations embedded in read-only storage.
 */
module GifTypes {

  type byte = bv8

  const HEADER_SIZE: nat := 5
  const MAX_FRAMES: nat := 255
  const FRAME_WIDTH: nat := 128
  const FRAME_HEIGHT: nat := 64
  /** Bytes per frame: `(FRAME_WIDTH / 8) * FRAME_HEIGHT`, see `LayoutFits`. */
  const FRAME_SIZE: nat := 1024

  /** One 128x64 frame: exactly FRAME_SIZE bytes, one bit per pixel. */
  type Frame = f: seq<byte> | |f| == 1024 witness seq(1024, _ => 0 as bv8)

  /** The 16-bit field read as `lo | (hi << 8)`, as the firmware parser does. */
  function ReadU16(lo: byte, hi: byte): (v: nat)
    ensures v < 0x1_0000
    ensures v == lo as nat + 256 * hi as nat
  {
    ((lo as bv16) | ((hi as bv16) << 8)) as nat
  }

  /** The 16-bit little-endian field stored at offset `k` of `s`. */
  function U16At(s: seq<byte>, k: nat): (v: nat)
    requires k + 1 < |s|
    ensures v < 0x1_0000
  {
    ReadU16(s[k], s[k + 1])
  }

  /** `struct.pack("<H", v)`: low byte first. */
  function U16Le(v: nat): (r: seq<byte>)
    requires v < 0x1_0000
    ensures |r| == 2
    ensures ReadU16(r[0], r[1]) == v
  {
    [ToByte(v % 256), ToByte(v / 256)]
  }

  /** The byte whose value is `n`, built bit by bit so that only byte-to-number conversions are needed. */
  function ToByte(n: nat): (b: byte)
    requires n < 256
    ensures b as nat == n
  {
    if n == 0 then 0
    else
      var p := ToByte(n / 2);
      var c: byte := if n % 2 == 0 then 0 else 1;
      ByteStep(p, c);
      p * 2 + c
  }

  /** Shifting a byte below 128 left and adding a bit doubles its value and adds the bit. */
  lemma ByteStep(p: byte, c: byte)
    requires p as nat < 128 && c as nat < 2
    ensures (p * 2 + c) as nat == 2 * p as nat + c as nat
  {
  }

  /** Byte offset of the first frame once `n` delays follow the header. */
  function DataOffset(n: nat): (off: nat)
    ensures off == HEADER_SIZE + 2 * n
  {
    HEADER_SIZE + 2 * n
  }

  /** Byte offset of frame `idx` in a file holding `n` frames. */
  function FrameOffset(n: nat, idx: nat): nat
  {
    DataOffset(n) + idx * FRAME_SIZE
  }

  /** Total size of a file with `n` frames. */
  function QgifSize(n: nat): nat
  {
    HEADER_SIZE + 2 * n + FRAME_SIZE * n
  }

  /**
   * An animation compiled into flash: the frame arrays are fixed 1024-byte
   * rows and the count field is one byte.
   */
  datatype AnimatedGif = AnimatedGif(
    frameCount: nat,
    width: nat,
    height: nat,
    delays: seq<nat>,
    frames: seq<Frame>)
  {
    ghost predicate Valid() {
      && frameCount <= MAX_FRAMES
      && |delays| == frameCount
      && |frames| == frameCount
      && width < 0x1_0000 && height < 0x1_0000
      && forall i :: 0 <= i < |delays| ==> delays[i] < 0x1_0000
    }
  }

  /**
   * The layout constants agree with each other: a frame of the fixed
   * resolution fills FRAME_SIZE bytes, the largest count fits the one-byte
   * count field, and the frame of index `idx < n` ends inside the file.
   */
  lemma LayoutFits(n: nat, idx: nat)
    requires idx < n <= MAX_FRAMES
    ensures FRAME_SIZE == (FRAME_WIDTH / 8) * FRAME_HEIGHT
    ensures MAX_FRAMES < 256
    ensures DataOffset(n) <= FrameOffset(n, idx)
    ensures FrameOffset(n, idx) + FRAME_SIZE <= QgifSize(n)
  {
    assert FrameOffset(n, idx) + FRAME_SIZE == DataOffset(n) + (idx + 1) * FRAME_SIZE;
    assert (idx + 1) * FRAME_SIZE <= n * FRAME_SIZE;
  }
}
