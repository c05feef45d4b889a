/**
 * The `.qgif` animation player (gif_player.cpp): opening and validating a
 * file, streaming one frame per tick, speed control, loop counting with
 * auto-advance through the shuffle bag, and the embedded idle animation
 * played between two files.
 *
 * The player's static variables become the `Player` record; every public
 * entry point is a function from the old record to the new one. The flash
 * filesystem is a `Storage.Fs`, `millis()` is a parameter, `random()` is a
 * `ShuffleBag.Draws`, and drawing is returned as a `Render` effect whose
 * pixels are produced by `FrameRenderer.RenderFrame`.
 */
module GifPlayer {
  import opened Wrappers
  import opened GifTypes
  import Storage
  import GifFiles
  import ShuffleBag
  import Clock

  /** Why `_openFile` gave up. */
  datatype OpenError = CannotOpen | ShortHeader | BadHeader | ShortDelays

  /** The parsed header and delay table of a `.qgif` file. */
  datatype Header = Header(frameCount: nat, width: nat, height: nat, delays: seq<nat>)

  /** A frame handed to the renderer together with the dimensions it is drawn with. */
  datatype Render = Render(frame: seq<byte>, width: nat, height: nat)

  datatype Player = Player(
    attached: bool,                // `_display` has been set by init
    playing: bool,
    file: Option<seq<byte>>,       // contents of the open file handle
    frameCount: nat,
    width: nat,
    height: nat,
    delays: seq<nat>,
    currentFrame: nat,
    lastFrameMs: Clock.Millis,
    dataOffset: nat,
    currentFile: string,
    requestedFile: string,
    fileChanged: bool,
    speedDivisor: nat,
    bag: ShuffleBag.Bag,
    loopCount: nat,
    loopsPerGif: nat,
    idleAnim: Option<AnimatedGif>,
    idlePlaying: bool,
    idleFrame: nat,
    idleLastFrameMs: Clock.Millis)

  /** The static initialisers of gif_player.cpp. */
  const INITIAL: Player := Player(
    false, false, None, 0, 0, 0, [], 0, 0, 0, "", "", false, 1,
    ShuffleBag.Bag([], 0), 0, 0, None, false, 0, 0)

  /** The idle animation the firmware may embed: well-formed with at least one frame. */
  ghost predicate IdleOk(idle: AnimatedGif) {
    idle.Valid() && idle.frameCount >= 1
  }

  /**
   * What every entry point keeps true: the divisor is never zero, a playing
   * player holds a validated file and a frame cursor inside it, the idle
   * cursor stays inside the idle animation, and the one-byte counters fit.
   */
  ghost predicate Wf(p: Player) {
    && p.speedDivisor >= 1
    && (p.playing ==>
          && p.file.Some?
          && 1 <= p.frameCount <= MAX_FRAMES
          && |p.delays| == p.frameCount
          && p.currentFrame < p.frameCount
          && p.dataOffset == DataOffset(p.frameCount)
          && p.width == FRAME_WIDTH && p.height == FRAME_HEIGHT)
    && (p.idleAnim.Some? ==> IdleOk(p.idleAnim.value))
    && (p.idlePlaying && p.idleAnim.Some? ==> p.idleFrame < p.idleAnim.value.frameCount)
    && p.loopCount < 256
    && p.loopsPerGif < 256
  }

  lemma InitialOk()
    ensures Wf(INITIAL)
    ensures !INITIAL.playing && INITIAL.currentFile == "" && INITIAL.speedDivisor == 1
  {
  }

  // ---------------------------------------------------------------------
  // Opening a file
  // ---------------------------------------------------------------------

  /** The delay table: `n` little-endian 16-bit values after the header. */
  function Delays(data: seq<byte>, n: nat): (ds: seq<nat>)
    requires DataOffset(n) <= |data|
    ensures |ds| == n
    ensures forall i :: 0 <= i < n ==>
              ds[i] == data[HEADER_SIZE + 2 * i] as nat + 256 * data[HEADER_SIZE + 2 * i + 1] as nat
    ensures forall i :: 0 <= i < n ==> ds[i] < 0x1_0000
  {
    seq(n, i requires 0 <= i < n => U16At(data, HEADER_SIZE + 2 * i))
  }

  /**
   * Header and delay validation of `_openFile`: at least five bytes, a
   * non-zero frame count, exactly 128x64, and a complete delay table.
   */
  function ParseHeader(data: seq<byte>): (r: Result<Header, OpenError>)
    ensures r == Err(ShortHeader) <==> |data| < HEADER_SIZE
    ensures r == Err(BadHeader) <==>
              |data| >= HEADER_SIZE
              && (data[0] == 0 || U16At(data, 1) != FRAME_WIDTH || U16At(data, 3) != FRAME_HEIGHT)
    ensures r.Ok? <==>
              && |data| >= HEADER_SIZE
              && data[0] != 0
              && U16At(data, 1) == FRAME_WIDTH && U16At(data, 3) == FRAME_HEIGHT
              && |data| >= DataOffset(data[0] as nat)
    ensures r.Ok? ==>
              && r.value.frameCount == data[0] as nat
              && 1 <= r.value.frameCount <= MAX_FRAMES
              && r.value.width == FRAME_WIDTH && r.value.height == FRAME_HEIGHT
              && r.value.delays == Delays(data, r.value.frameCount)
    ensures r != Err(CannotOpen)
  {
    if |data| < HEADER_SIZE then Err(ShortHeader)
    else
      var fc := data[0] as nat;
      var w := U16At(data, 1);
      var h := U16At(data, 3);
      if fc == 0 || w != FRAME_WIDTH || h != FRAME_HEIGHT then Err(BadHeader)
      else if |data| < DataOffset(fc) then Err(ShortDelays)
      else Ok(Header(fc, w, h, Delays(data, fc)))
  }

  /** `_openFile` reading a file whose contents are `contents` (None: cannot open). */
  function Open(contents: Option<seq<byte>>): (r: Result<Header, OpenError>)
    ensures r == Err(CannotOpen) <==> contents.None?
    ensures contents.Some? ==> r == ParseHeader(contents.value)
  {
    if contents.None? then Err(CannotOpen) else ParseHeader(contents.value)
  }

  /**
   * `_openFile`: closes the previous file and stops playback, then on
   * success starts the new file at frame 0 with the frame due at once. A
   * header that was read is stored even when validation rejects it; a failed
   * open leaves the current file name untouched.
   */
  function OpenFile(p: Player, fs: Storage.Fs, name: string): (r: (Player, bool))
    requires Wf(p)
    ensures Wf(r.0)
    ensures r.1 <==> Open(Storage.Lookup(fs, name)).Ok?
    ensures r.1 ==>
              && r.0.playing
              && r.0.file == Storage.Lookup(fs, name)
              && r.0.currentFile == name
              && r.0.currentFrame == 0 && r.0.lastFrameMs == 0 && r.0.loopCount == 0
              && var h := Open(Storage.Lookup(fs, name)).value;
                 r.0.frameCount == h.frameCount && r.0.delays == h.delays
    ensures !r.1 ==> !r.0.playing && r.0.file.None? && r.0.currentFile == p.currentFile
    ensures r.0.requestedFile == p.requestedFile && r.0.fileChanged == p.fileChanged
    ensures r.0.speedDivisor == p.speedDivisor && r.0.bag == p.bag
    ensures r.0.idleAnim == p.idleAnim && r.0.idlePlaying == p.idlePlaying && r.0.idleFrame == p.idleFrame
    ensures r.0.loopsPerGif == p.loopsPerGif && r.0.attached == p.attached
  {
    var closed := p.(file := None, playing := false);
    var contents := Storage.Lookup(fs, name);
    match Open(contents)
    case Ok(h) =>
      (closed.(file := contents, frameCount := h.frameCount, width := h.width, height := h.height,
               delays := h.delays, dataOffset := DataOffset(h.frameCount), currentFrame := 0,
               lastFrameMs := 0, loopCount := 0, currentFile := name, playing := true), true)
    case Err(e) =>
      if e == BadHeader || e == ShortDelays then
        var data := contents.value;
        (closed.(frameCount := data[0] as nat, width := U16At(data, 1), height := U16At(data, 3)), false)
      else (closed, false)
  }

  // ---------------------------------------------------------------------
  // Frames and timing
  // ---------------------------------------------------------------------

  /**
   * `_readFrame`: the 1024 bytes of frame `idx`, or None when the seek or the
   * read falls short of the file's end.
   */
  function ReadFrame(data: seq<byte>, dataOffset: nat, idx: nat): (r: Option<seq<byte>>)
    ensures r.Some? <==> dataOffset + idx * FRAME_SIZE + FRAME_SIZE <= |data|
    ensures r.Some? ==>
              |r.value| == FRAME_SIZE
              && forall k :: 0 <= k < FRAME_SIZE ==> r.value[k] == data[dataOffset + idx * FRAME_SIZE + k]
  {
    var off := dataOffset + idx * FRAME_SIZE;
    if off + FRAME_SIZE <= |data| then Some(data[off..off + FRAME_SIZE]) else None
  }

  /**
   * A file holding its whole frame area — `QgifSize(n)` bytes for `n`
   * frames — yields every frame it declares, and each one is the block its
   * offset names.
   */
  lemma CompleteFileReadsEveryFrame(data: seq<byte>, idx: nat)
    requires ParseHeader(data).Ok?
    requires |data| >= QgifSize(data[0] as nat)
    requires idx < data[0] as nat
    ensures ReadFrame(data, DataOffset(data[0] as nat), idx) ==
              Some(data[FrameOffset(data[0] as nat, idx)..FrameOffset(data[0] as nat, idx) + FRAME_SIZE])
  {
    LayoutFits(data[0] as nat, idx);
  }

  /** `gifPlayerSetSpeed`: a zero divisor is replaced by 1. */
  function SetSpeed(p: Player, divisor: nat): (r: Player)
    ensures r.speedDivisor >= 1
    ensures divisor > 0 ==> r.speedDivisor == divisor
    ensures divisor == 0 ==> r.speedDivisor == 1
    ensures r.(speedDivisor := p.speedDivisor) == p
  {
    p.(speedDivisor := if divisor > 0 then divisor else 1)
  }

  /** The frame's delay divided by the speed divisor, never below 1 ms. */
  function FrameWait(delay: nat, divisor: nat): (w: nat)
    requires divisor >= 1
    ensures w >= 1
    ensures w <= delay || delay == 0
    ensures (w - 1) * divisor <= delay
    ensures delay >= divisor ==> w * divisor <= delay < (w + 1) * divisor
  {
    QuotientBounds(delay, divisor);
    var d := delay / divisor;
    if d < 1 then 1 else d
  }

  /** The quotient `n / d` brackets `n` and lies between 1 and `n` once `n` reaches `d`. */
  lemma QuotientBounds(n: nat, d: nat)
    requires d >= 1
    ensures (n / d) * d <= n < (n / d) * d + d
    ensures n / d <= n
    ensures n >= d ==> n / d >= 1
    ensures (n / d - 1) * d == (n / d) * d - d
    ensures (n / d + 1) * d == (n / d) * d + d
  {
    var q := n / d;
    assert n == q * d + n % d && n % d < d;
    MulMono(q, 1, d);
  }

  /** A larger divisor never makes a frame wait longer. */
  lemma FasterNeverSlower(delay: nat, slow: nat, fast: nat)
    requires 1 <= slow <= fast
    ensures FrameWait(delay, fast) <= FrameWait(delay, slow)
  {
    var a := delay / fast;
    MulMono(a, slow, fast);
    assert a * fast <= delay;
    MulLeDiv(a, delay, slow);
  }

  lemma MulMono(x: nat, a: nat, b: nat)
    requires a <= b
    ensures x * a <= x * b
  {
    assert x * b == x * a + x * (b - a);
  }

  /** A multiple of `d` that fits in `n` is at most `n / d` times `d`. */
  lemma MulLeDiv(x: nat, n: nat, d: nat)
    requires d >= 1 && x * d <= n
    ensures x <= n / d
  {
    var q := n / d;
    assert n == q * d + n % d && n % d < d;
    if x > q {
      MulMono(d, q + 1, x);
    }
  }

  // ---------------------------------------------------------------------
  // Configuration entry points
  // ---------------------------------------------------------------------

  /** `gifPlayerInit`: remembers the display; the result is whether the filesystem mounted. */
  function Init(p: Player, mounted: bool): (r: (Player, bool))
    ensures r.0.attached && r.1 == mounted
    ensures r.0.(attached := p.attached) == p
  {
    (p.(attached := true), mounted)
  }

  /** `gifPlayerSetFile`: a request that takes effect on the next tick. */
  function SetFile(p: Player, name: string): (r: Player)
    ensures r.requestedFile == name && r.fileChanged
    ensures r.(requestedFile := p.requestedFile, fileChanged := p.fileChanged) == p
  {
    p.(requestedFile := name, fileChanged := true)
  }

  /** `gifPlayerSetAutoAdvance`: 0 disables auto-advance. */
  function SetAutoAdvance(p: Player, loopsPerGif: nat): (r: Player)
    requires loopsPerGif < 256
    ensures r.loopsPerGif == loopsPerGif
    ensures r.(loopsPerGif := p.loopsPerGif) == p
  {
    p.(loopsPerGif := loopsPerGif)
  }

  /** `gifPlayerSetIdleAnimation`. */
  function SetIdleAnimation(p: Player, idle: Option<AnimatedGif>): (r: Player)
    requires Wf(p)
    requires idle.Some? ==> IdleOk(idle.value)
    requires p.idlePlaying && idle.Some? ==> p.idleFrame < idle.value.frameCount
    ensures Wf(r)
    ensures r.idleAnim == idle
    ensures r.(idleAnim := p.idleAnim) == p
  {
    p.(idleAnim := idle)
  }

  /** The directory listing the shuffle bag scans. */
  function Listing(fs: Storage.Fs): (files: seq<string>)
    ensures |files| <= MAX_FRAMES
  {
    GifFiles.QgifNames(Storage.Names(fs))
  }

  /** `gifPlayerBuildShuffleBag`. */
  function BuildShuffleBag(p: Player, fs: Storage.Fs, draws: ShuffleBag.Draws): (r: Player)
    ensures r.bag.pos == 0
    ensures multiset(r.bag.items) == multiset(Listing(fs))
    ensures r.(bag := p.bag) == p
  {
    p.(bag := ShuffleBag.Build(Listing(fs), draws))
  }

  /**
   * Move on to the next shuffled animation: the name becomes the pending
   * request unless the bag came back empty.
   */
  function Advance(p: Player, fs: Storage.Fs, draws: ShuffleBag.Draws): (r: Player)
    ensures var (next, bag') := ShuffleBag.NextShuffle(p.bag, Listing(fs), draws);
            && r.bag == bag'
            && (next != "" ==> r.requestedFile == next && r.fileChanged)
            && (next == "" ==> r.requestedFile == p.requestedFile && r.fileChanged == p.fileChanged)
    ensures r.(bag := p.bag, requestedFile := p.requestedFile, fileChanged := p.fileChanged) == p
  {
    var (next, bag') := ShuffleBag.NextShuffle(p.bag, Listing(fs), draws);
    var q := p.(bag := bag');
    if |next| > 0 then q.(requestedFile := next, fileChanged := true) else q
  }

  // ---------------------------------------------------------------------
  // The tick
  // ---------------------------------------------------------------------

  /** The idle-animation branch of `gifPlayerTick`. */
  function IdleTick(p: Player, fs: Storage.Fs, now: Clock.Millis, draws: ShuffleBag.Draws): (r: (Player, Option<Render>))
    requires Wf(p) && p.idlePlaying && p.idleAnim.Some?
    ensures Wf(r.0)
  {
    var idle := p.idleAnim.value;
    if Clock.Elapsed(now, p.idleLastFrameMs) < FrameWait(idle.delays[p.idleFrame], p.speedDivisor) then (p, None)
    else
      var shown := Some(Render(idle.frames[p.idleFrame], idle.width, idle.height));
      var q := p.(idleLastFrameMs := now, idleFrame := p.idleFrame + 1);
      if q.idleFrame >= idle.frameCount then (Advance(q.(idlePlaying := false, idleFrame := 0), fs, draws), shown)
      else (q, shown)
  }

  /** The pending file-change request of `gifPlayerTick`: open the file, or stop on an empty name. */
  function ApplyRequest(p: Player, fs: Storage.Fs): (r: Player)
    requires Wf(p)
    ensures Wf(r)
    ensures !r.fileChanged
    ensures p.fileChanged && p.requestedFile == "" ==> !r.playing && r.currentFile == ""
    ensures p.fileChanged && p.requestedFile != "" ==> r == OpenFile(p.(fileChanged := false), fs, p.requestedFile).0
    ensures !p.fileChanged ==> r == p
  {
    if !p.fileChanged then p
    else if |p.requestedFile| > 0 then OpenFile(p.(fileChanged := false), fs, p.requestedFile).0
    else p.(fileChanged := false, file := None, playing := false, currentFile := "")
  }

  /** What a due tick draws: the frame at the cursor, unless the file is too short to hold it. */
  function Shown(p: Player): (r: Option<Render>)
    requires p.file.Some?
    ensures r.Some? <==> ReadFrame(p.file.value, p.dataOffset, p.currentFrame).Some?
    ensures r.Some? ==>
              r.value == Render(ReadFrame(p.file.value, p.dataOffset, p.currentFrame).value, p.width, p.height)
  {
    match ReadFrame(p.file.value, p.dataOffset, p.currentFrame)
    case Some(f) => Some(Render(f, p.width, p.height))
    case None => None
  }

  /** The frame-timing branch of `gifPlayerTick` for a playing file. */
  function FrameTick(p: Player, fs: Storage.Fs, now: Clock.Millis, draws: ShuffleBag.Draws): (r: (Player, Option<Render>))
    requires Wf(p) && p.playing
    ensures Wf(r.0)
    ensures !Due(p, now) ==> r == (p, None)
    ensures Due(p, now) ==>
              && r.0.lastFrameMs == now
              && (p.currentFrame + 1 < p.frameCount ==> r.0.currentFrame == p.currentFrame + 1)
              && (p.currentFrame + 1 == p.frameCount ==> r.0.currentFrame == 0)
              && r.0.currentFile == p.currentFile
              && r.0.playing
              && r.1 == Shown(p)
  {
    if !Due(p, now) then (p, None)
    else if p.currentFrame + 1 < p.frameCount then (p.(lastFrameMs := now, currentFrame := p.currentFrame + 1), Shown(p))
    else (EndOfPass(p.(lastFrameMs := now, currentFrame := 0), fs, draws), Shown(p))
  }

  /**
   * The end of a pass: the one-byte loop counter is bumped, and after
   * `loopsPerGif` passes it is reset and either the idle animation starts
   * from its first frame, due at once, or the next shuffled file is requested.
   */
  function EndOfPass(p: Player, fs: Storage.Fs, draws: ShuffleBag.Draws): (r: Player)
    requires Wf(p)
    ensures Wf(r)
    ensures r.currentFrame == p.currentFrame && r.lastFrameMs == p.lastFrameMs
    ensures r.currentFile == p.currentFile && r.playing == p.playing && r.file == p.file
    ensures var loops := (p.loopCount + 1) % 256;
            && (p.loopsPerGif == 0 || loops < p.loopsPerGif ==> r == p.(loopCount := loops))
            && (p.loopsPerGif > 0 && loops >= p.loopsPerGif ==>
                  && r.loopCount == 0
                  && (p.idleAnim.Some? ==>
                        r == p.(loopCount := 0, idlePlaying := true, idleFrame := 0, idleLastFrameMs := 0))
                  && (p.idleAnim.None? ==> r == Advance(p.(loopCount := 0), fs, draws)))
  {
    var loops := (p.loopCount + 1) % 256;
    if p.loopsPerGif > 0 && loops >= p.loopsPerGif then
      var reset := p.(loopCount := 0);
      if p.idleAnim.Some? then reset.(idlePlaying := true, idleFrame := 0, idleLastFrameMs := 0)
      else Advance(reset, fs, draws)
    else p.(loopCount := loops)
  }

  /** `gifPlayerTick`: at most one frame is drawn per call. */
  function Tick(p: Player, fs: Storage.Fs, now: Clock.Millis, draws: ShuffleBag.Draws): (r: (Player, Option<Render>))
    requires Wf(p)
    ensures Wf(r.0)
    ensures !p.attached ==> r == (p, None)
  {
    if !p.attached then (p, None)
    else if p.idlePlaying && p.idleAnim.Some? then IdleTick(p, fs, now, draws)
    else
      var q := ApplyRequest(p, fs);
      if !q.playing then (q, None) else FrameTick(q, fs, now, draws)
  }

  // ---------------------------------------------------------------------
  // Properties of the tick
  // ---------------------------------------------------------------------

  /** A playing player whose frame is due draws the frame at the cursor from the open file. */
  predicate Due(p: Player, now: Clock.Millis)
    requires p.speedDivisor >= 1 && p.currentFrame < |p.delays|
  {
    Clock.Elapsed(now, p.lastFrameMs) >= FrameWait(p.delays[p.currentFrame], p.speedDivisor)
  }

  /** Before the frame's delay has passed, a tick on a playing file changes nothing and draws nothing. */
  lemma TickWaits(p: Player, fs: Storage.Fs, now: Clock.Millis, draws: ShuffleBag.Draws)
    requires Wf(p) && p.attached && !p.idlePlaying && !p.fileChanged && p.playing
    requires !Due(p, now)
    ensures Tick(p, fs, now, draws) == (p, None)
  {
    assert ApplyRequest(p, fs) == p;
  }

  /**
   * A due tick on a playing file with no pending request reads the frame at
   * the cursor from the file and draws it (skipped but still counted when
   * the file is short), moves the timestamp to `now`, advances the cursor
   * cyclically, and bumps the one-byte loop counter at the end of a pass.
   */
  lemma TickAdvancesFrame(p: Player, fs: Storage.Fs, now: Clock.Millis, draws: ShuffleBag.Draws)
    requires Wf(p) && p.attached && !p.idlePlaying && !p.fileChanged && p.playing
    requires Due(p, now)
    ensures var (q, shown) := Tick(p, fs, now, draws);
            && q.lastFrameMs == now
            && (p.currentFrame + 1 < p.frameCount ==> q.currentFrame == p.currentFrame + 1)
            && (p.currentFrame + 1 == p.frameCount ==> q.currentFrame == 0)
            && q.currentFile == p.currentFile
            && q.playing
            && (shown.Some? <==> ReadFrame(p.file.value, p.dataOffset, p.currentFrame).Some?)
            && (shown.Some? ==> shown.value.frame == ReadFrame(p.file.value, p.dataOffset, p.currentFrame).value)
            && (shown.Some? ==> shown.value.width == FRAME_WIDTH && shown.value.height == FRAME_HEIGHT)
            && (p.currentFrame + 1 < p.frameCount ==> q.loopCount == p.loopCount && !q.fileChanged)
            && (p.currentFrame + 1 == p.frameCount && (p.loopsPerGif == 0 || (p.loopCount + 1) % 256 < p.loopsPerGif) ==>
                  q.loopCount == (p.loopCount + 1) % 256 && !q.fileChanged)
  {
    assert ApplyRequest(p, fs) == p;
    assert Tick(p, fs, now, draws) == FrameTick(p, fs, now, draws);
  }

  /**
   * Auto-advance: the pass that completes the `loopsPerGif`-th loop resets
   * the counter and either starts the idle animation from its first frame or,
   * without one, requests the next shuffled file.
   */
  lemma AutoAdvanceAfterLoops(p: Player, fs: Storage.Fs, now: Clock.Millis, draws: ShuffleBag.Draws)
    requires Wf(p) && p.attached && !p.idlePlaying && !p.fileChanged && p.playing
    requires Due(p, now)
    requires p.currentFrame + 1 == p.frameCount
    requires p.loopsPerGif > 0 && p.loopCount + 1 == p.loopsPerGif
    ensures var (q, _) := Tick(p, fs, now, draws);
            && q.loopCount == 0
            && q.currentFrame == 0
            && (p.idleAnim.Some? ==> q.idlePlaying && q.idleFrame == 0 && q.idleLastFrameMs == 0 && !q.fileChanged)
            && (p.idleAnim.None? ==>
                  var (next, _) := ShuffleBag.NextShuffle(p.bag, Listing(fs), draws);
                  next != "" ==> q.requestedFile == next && q.fileChanged)
  {
  }

  /**
   * While the idle animation plays, the file player is frozen: only the idle
   * cursor, its timestamp and (when the animation ends) the bag and the
   * request change; the animation's last frame hands over to the next
   * shuffled file.
   */
  lemma IdleFreezesFile(p: Player, fs: Storage.Fs, now: Clock.Millis, draws: ShuffleBag.Draws)
    requires Wf(p) && p.attached && p.idlePlaying && p.idleAnim.Some?
    ensures var (q, shown) := Tick(p, fs, now, draws);
            && q.playing == p.playing && q.currentFrame == p.currentFrame
            && q.currentFile == p.currentFile && q.lastFrameMs == p.lastFrameMs
            && q.loopCount == p.loopCount
            && (shown.Some? ==> shown.value.frame == p.idleAnim.value.frames[p.idleFrame])
            && (shown.Some? && p.idleFrame + 1 == p.idleAnim.value.frameCount ==> !q.idlePlaying && q.idleFrame == 0)
            && (shown.Some? && p.idleFrame + 1 < p.idleAnim.value.frameCount ==> q.idlePlaying && q.idleFrame == p.idleFrame + 1)
  {
  }

  /**
   * A request is honoured on the next tick outside the idle animation: an
   * empty name stops playback and clears the current file; a name that opens
   * becomes the current file, playing from frame 0; a name that fails to
   * open stops playback and keeps the previous name.
   */
  lemma RequestTakesEffect(p: Player, fs: Storage.Fs, name: string, now: Clock.Millis, draws: ShuffleBag.Draws)
    requires Wf(p) && p.attached && !(p.idlePlaying && p.idleAnim.Some?)
    ensures var (q, _) := Tick(SetFile(p, name), fs, now, draws);
            && (name == "" ==> !q.playing && q.currentFile == "")
            && (name != "" && Open(Storage.Lookup(fs, name)).Ok? ==> q.playing && q.currentFile == name)
            && (name != "" && !Open(Storage.Lookup(fs, name)).Ok? ==> !q.playing && q.currentFile == p.currentFile)
  {
    var p1 := SetFile(p, name);
    var q := ApplyRequest(p1, fs);
    if q.playing {
      var (r, _) := FrameTick(q, fs, now, draws);
      assert r.playing && r.currentFile == q.currentFile;
    }
  }
}
