/**
 * Poke state and history (poke_handler.cpp): the live poke with its two
 * optional bitmaps, the circular scroll offset for bitmaps wider than the
 * screen, and the three-slot history ring whose records own copies of the
 * bitmaps.
 *
 * Every `malloc` is an `Alloc` on an explicit `Heap` and its success is a
 * parameter; every `free` is a `Free` that demands a live buffer. The
 * ownership lemmas show that each operation keeps the heap's live buffers
 * equal to the buffers the poke state owns plus those owned elsewhere.
 * `millis()` and `time(nullptr)` are parameters.
 */
module PokeHandler {
  import opened Wrappers
  import opened GifTypes
  import opened AppState
  import opened PokeBitmap
  import Clock
  import FrameRenderer
  import DisplayHelpers

  const POKE_HISTORY_SIZE: nat := 3
  const POKE_DISPLAY_MS: nat := 5000
  const POKE_SCROLL_DISPLAY_MS: nat := 8000
  const POKE_SCROLL_INTERVAL_MS: nat := 30
  const POKE_SCROLL_PX: nat := 2
  /** Top row of the sender bitmap. */
  const SENDER_Y: int := 15
  /** Height assumed for a bitmap whose height is 0. */
  const DEFAULT_BMP_HEIGHT: nat := 16
  const SCREEN_WIDTH: nat := 128

  /** The poke handler's static variables. */
  datatype PokeState = PokeState(
    active: bool,
    startMs: Clock.Millis,
    senderBmp: Option<Buf>,
    senderWidth: nat,
    senderHeight: nat,
    textBmp: Option<Buf>,
    textWidth: nat,
    textHeight: nat,
    bitmapMode: bool,
    scrollOffset: int,
    lastScrollMs: Clock.Millis,
    history: seq<PokeRecord>,
    count: nat,
    head: nat)
  {
    /** The ring has its three slots; head and count are in range. */
    predicate Shape() {
      |history| == POKE_HISTORY_SIZE && head < POKE_HISTORY_SIZE && count <= POKE_HISTORY_SIZE
    }
  }

  /** The static initialisers. */
  const INITIAL: PokeState :=
    PokeState(false, 0, None, 0, 0, None, 0, 0, false, 0, 0, [FRESH_RECORD, FRESH_RECORD, FRESH_RECORD], 0, 0)

  /** `pokeHandlerInit`: inactive, no bitmap mode, empty history (the slots themselves are not touched). */
  function Init(p: PokeState): (r: PokeState)
    ensures !r.active && !r.bitmapMode && r.count == 0 && r.head == 0
    ensures r.history == p.history
  {
    p.(active := false, bitmapMode := false, count := 0, head := 0)
  }

  /** `pokeMaxWidth`. */
  function MaxWidth(p: PokeState): (w: nat)
    ensures w >= p.senderWidth && w >= p.textWidth
    ensures w == p.senderWidth || w == p.textWidth
  {
    if p.senderWidth >= p.textWidth then p.senderWidth else p.textWidth
  }

  // -----------------------------------------------------------------------
  // Ownership
  // -----------------------------------------------------------------------

  /** The copies the history records own, counted. */
  function RecordsMs(rs: seq<PokeRecord>): multiset<nat>
  {
    if |rs| == 0 then multiset{} else rs[0].OwnedMs() + RecordsMs(rs[1..])
  }

  /** Replacing one record exchanges its copies in the count and nothing else. */
  lemma {:induction false} RecordsMsUpdate(rs: seq<PokeRecord>, k: nat, rec: PokeRecord)
    requires k < |rs|
    ensures rs[k].OwnedMs() <= RecordsMs(rs)
    ensures RecordsMs(rs[k := rec]) + rs[k].OwnedMs() == RecordsMs(rs) + rec.OwnedMs()
    decreases |rs|
  {
    var rs' := rs[k := rec];
    var first, rest, rest' := rs[0].OwnedMs(), RecordsMs(rs[1..]), RecordsMs(rs'[1..]);
    assert RecordsMs(rs) == first + rest;
    if k == 0 {
      assert RecordsMs(rs') == rec.OwnedMs() + rest by {
        assert rs'[1..] == rs[1..];
      }
      MsSwap(first, rest, rec.OwnedMs());
    } else {
      var tail := rs[1..];
      assert rs[k].OwnedMs() <= rest && rest' + rs[k].OwnedMs() == rest + rec.OwnedMs() by {
        RecordsMsUpdate(tail, k - 1, rec);
        assert tail[k - 1] == rs[k];
        assert rs'[1..] == tail[k - 1 := rec];
      }
      assert RecordsMs(rs') == first + rest';
      MsChain(first, rest, rest', rs[k].OwnedMs(), rec.OwnedMs());
      MsWithin(first, rest, rs[k].OwnedMs());
    }
  }

  /** Every buffer the poke state owns: the live bitmaps and the history copies. */
  function OwnedMs(p: PokeState): multiset<nat> {
    Ms(p.senderBmp) + Ms(p.textBmp) + RecordsMs(p.history)
  }

  /**
   * What the poke state owns is live, each buffer once: `multiset(live)`
   * counts every identity at most once, so one owner per buffer.
   */
  predicate Held(p: PokeState, h: Heap) {
    p.Shape() && OwnedMs(p) <= multiset(h.live)
  }

  /**
   * The heap's live buffers are exactly the poke state's plus `other`
   * (buffers owned elsewhere, such as events in flight): nothing leaks and
   * no buffer has two owners.
   */
  ghost predicate Owns(p: PokeState, h: Heap, other: multiset<nat>) {
    p.Shape() && OwnedMs(p) + other == multiset(h.live) && h.Wf()
  }

  /** A record held by the heap: its copies are live and distinct; so are the live bitmaps. */
  lemma HeldRecord(p: PokeState, h: Heap, k: nat)
    requires Held(p, h) && k < POKE_HISTORY_SIZE
    ensures p.history[k].Owned() <= h.live && p.history[k].Separate()
    ensures Ids(p.senderBmp) + Ids(p.textBmp) <= h.live && Ids(p.senderBmp) !! Ids(p.textBmp)
  {
    var rec := p.history[k];
    PairHeld(p.senderBmp, p.textBmp, RecordsMs(p.history), h.live);
    RecordsMsUpdate(p.history, k, rec);
    PairHeld(rec.senderBmp, rec.textBmp, multiset{}, h.live);
  }

  /** Ownership as an inclusion is ownership as an equation, with the rest of the heap owned elsewhere. */
  lemma HeldIsOwns(p: PokeState, h: Heap)
    requires Held(p, h) && h.Wf()
    ensures Owns(p, h, multiset(h.live) - OwnedMs(p))
  {
    MsRest(OwnedMs(p), multiset(h.live));
  }

  /** Ownership as an equation implies ownership as an inclusion. */
  lemma OwnsHeld(p: PokeState, h: Heap, other: multiset<nat>)
    requires Owns(p, h, other)
    ensures Held(p, h)
  {
  }

  // -----------------------------------------------------------------------
  // Live bitmaps
  // -----------------------------------------------------------------------

  /** `freePokeBitmaps`: frees both live bitmaps and forgets their dimensions. */
  function FreePokeBitmaps(p: PokeState, h: Heap): (r: (PokeState, Heap))
    requires Ids(p.senderBmp) + Ids(p.textBmp) <= h.live && Ids(p.senderBmp) !! Ids(p.textBmp)
    ensures var (p', h') := r;
            && p'.senderBmp.None? && p'.textBmp.None?
            && p'.senderWidth == 0 && p'.senderHeight == 0 && p'.textWidth == 0 && p'.textHeight == 0
            && !p'.bitmapMode
            && h'.live == h.live - Ids(p.senderBmp) - Ids(p.textBmp)
            && multiset(h'.live) == multiset(h.live) - Ms(p.senderBmp) - Ms(p.textBmp)
            && h'.next == h.next
            && p'.(senderBmp := p.senderBmp, textBmp := p.textBmp, senderWidth := p.senderWidth,
                   senderHeight := p.senderHeight, textWidth := p.textWidth, textHeight := p.textHeight,
                   bitmapMode := p.bitmapMode) == p
  {
    var h1 := Free(h, p.senderBmp);
    var h2 := Free(h1, p.textBmp);
    (p.(senderBmp := None, textBmp := None, senderWidth := 0, senderHeight := 0,
        textWidth := 0, textHeight := 0, bitmapMode := false), h2)
  }

  /** A second `freePokeBitmaps` frees nothing and changes nothing. */
  lemma FreePokeBitmapsIdempotent(p: PokeState, h: Heap)
    requires Ids(p.senderBmp) + Ids(p.textBmp) <= h.live && Ids(p.senderBmp) !! Ids(p.textBmp)
    ensures var (p1, h1) := FreePokeBitmaps(p, h); FreePokeBitmaps(p1, h1) == (p1, h1)
  {
    var (p1, h1) := FreePokeBitmaps(p, h);
    assert h1.live - Ids(p1.senderBmp) - Ids(p1.textBmp) == h1.live;
  }

  /** `freePokeBitmaps` keeps the ownership invariant: what it frees is exactly what the live poke owned. */
  lemma FreePokeBitmapsOwns(p: PokeState, h: Heap, other: multiset<nat>)
    requires Owns(p, h, other)
    ensures Ids(p.senderBmp) + Ids(p.textBmp) <= h.live && Ids(p.senderBmp) !! Ids(p.textBmp)
    ensures var (p', h') := FreePokeBitmaps(p, h); Owns(p', h', other)
  {
    assert Ids(p.senderBmp) + Ids(p.textBmp) <= h.live && Ids(p.senderBmp) !! Ids(p.textBmp) by {
      HeldRecord(p, h, 0);
    }
    var (p', h') := FreePokeBitmaps(p, h);
    assert OwnedMs(p') == RecordsMs(p.history) by {
      assert forall x :: OwnedMs(p')[x] == RecordsMs(p.history)[x];
    }
    MsFreeTwo(Ms(p.senderBmp), Ms(p.textBmp), RecordsMs(p.history), other, multiset(h.live), multiset(h'.live));
  }

  /** A bitmap of width `w` and height `ht` holds every page the renderer reads from it. */
  predicate BmpFits(b: Option<Buf>, w: nat, ht: nat) {
    b.Some? && w > 0 && ht > 0 ==> BmpPages(ht) * w <= |b.value.data|
  }

  /** The live bitmaps hold every byte the renderer reads from them. */
  predicate LiveFits(p: PokeState) {
    BmpFits(p.senderBmp, p.senderWidth, p.senderHeight) && BmpFits(p.textBmp, p.textWidth, p.textHeight)
  }

  // -----------------------------------------------------------------------
  // Scrolling
  // -----------------------------------------------------------------------

  /**
   * One step of a circular scroll in the source's integer types: the
   * `int16_t` offset moves on by 2 and wraps at the `uint16_t` virtual width
   * `width + 64`.
   */
  function ScrollStep(offset: int, width: nat): (o: int)
  {
    var moved := I16(offset + POKE_SCROLL_PX);
    var virtualWidth := U16(width + WRAP_GAP);
    if moved >= I16(virtualWidth) then I16(moved - I16(virtualWidth)) else moved
  }

  /**
   * While the offset is in `[0, width + 64)` and that range fits the
   * `int16_t` the source keeps it in, a step moves it to
   * `(offset + 2) mod (width + 64)`, which is again in range.
   */
  lemma ScrollStepWraps(offset: int, width: nat)
    requires width + WRAP_GAP + POKE_SCROLL_PX < 0x8000
    requires 0 <= offset < width + WRAP_GAP
    ensures ScrollStep(offset, width) == (offset + POKE_SCROLL_PX) % (width + WRAP_GAP)
    ensures 0 <= ScrollStep(offset, width) < width + WRAP_GAP
  {
    var vw := width + WRAP_GAP;
    if offset + POKE_SCROLL_PX >= vw {
      ModUnique(offset + POKE_SCROLL_PX, vw, 1, offset + POKE_SCROLL_PX - vw);
    } else {
      ModUnique(offset + POKE_SCROLL_PX, vw, 0, offset + POKE_SCROLL_PX);
    }
  }

  /**
   * `pokeAdvanceScroll`: at most every 30 ms, and only for a bitmap wider
   * than the screen, moves the offset one scroll step on. The second
   * component says whether the frame is redrawn. The 30 ms timestamp is
   * taken even when nothing scrolls.
   */
  function AdvanceScroll(p: PokeState, now: Clock.Millis): (r: (PokeState, bool))
    ensures Clock.Elapsed(now, p.lastScrollMs) < POKE_SCROLL_INTERVAL_MS ==> r == (p, false)
    ensures Clock.Elapsed(now, p.lastScrollMs) >= POKE_SCROLL_INTERVAL_MS ==> r.0.lastScrollMs == now
    ensures MaxWidth(p) <= SCREEN_WIDTH ==> !r.1 && r.0.scrollOffset == p.scrollOffset
    ensures r.0.(lastScrollMs := p.lastScrollMs, scrollOffset := p.scrollOffset) == p
  {
    if Clock.Elapsed(now, p.lastScrollMs) < POKE_SCROLL_INTERVAL_MS then (p, false)
    else
      var p1 := p.(lastScrollMs := now);
      var maxWidth := U16(MaxWidth(p));
      if maxWidth <= SCREEN_WIDTH then (p1, false)
      else (p1.(scrollOffset := ScrollStep(p.scrollOffset, maxWidth)), true)
  }

  /**
   * The live poke's offset stays in `[0, width + 64)`: a scroll step moves
   * it to `(offset + 2) mod (width + 64)`, and it moves exactly when 30 ms
   * have passed and the bitmap is wider than the screen.
   */
  lemma ScrollStaysInRange(p: PokeState, now: Clock.Millis)
    requires MaxWidth(p) + WRAP_GAP + POKE_SCROLL_PX < 0x8000
    requires 0 <= p.scrollOffset < MaxWidth(p) + WRAP_GAP
    ensures var (p', redraw) := AdvanceScroll(p, now);
            && 0 <= p'.scrollOffset < MaxWidth(p) + WRAP_GAP
            && (redraw <==> Clock.Elapsed(now, p.lastScrollMs) >= POKE_SCROLL_INTERVAL_MS && MaxWidth(p) > SCREEN_WIDTH)
            && (redraw ==> p'.scrollOffset == (p.scrollOffset + POKE_SCROLL_PX) % (MaxWidth(p) + WRAP_GAP))
  {
    ScrollStepWraps(p.scrollOffset, MaxWidth(p));
  }

  // -----------------------------------------------------------------------
  // History ring
  // -----------------------------------------------------------------------

  /** The slot of the `i`-th most recent record: `head - 1 - i`, plus 3 when negative. */
  function Slot(head: nat, i: nat): (s: nat)
    requires head < POKE_HISTORY_SIZE && i < POKE_HISTORY_SIZE
    ensures s < POKE_HISTORY_SIZE
    ensures s == (head + 2 * POKE_HISTORY_SIZE - 1 - i) % POKE_HISTORY_SIZE
  {
    var pos := head as int - 1 - i as int;
    if pos < 0 then pos + POKE_HISTORY_SIZE else pos
  }

  /** `pokeGetHistory(i)`: null past the count, otherwise the `i`-th most recent record. */
  function GetHistory(p: PokeState, i: nat): (r: Option<PokeRecord>)
    requires p.Shape()
    ensures r.None? <==> i >= p.count
  {
    if i >= p.count then None else Some(p.history[Slot(p.head, i)])
  }

  /** The history as a list, most recent first. */
  function Recent(p: PokeState): (rs: seq<PokeRecord>)
    requires p.Shape()
    ensures |rs| == p.count
  {
    seq(p.count, i requires 0 <= i < p.count => p.history[Slot(p.head, i)])
  }

  /** Advances head modulo 3 and counts up to 3. */
  function Push(p: PokeState, rec: PokeRecord): (r: PokeState)
    requires p.Shape()
    ensures r.Shape()
  {
    p.(history := p.history[p.head := rec],
       head := (p.head + 1) % POKE_HISTORY_SIZE,
       count := if p.count < POKE_HISTORY_SIZE then p.count + 1 else p.count)
  }

  /**
   * After a push the new record is the most recent one, the older records
   * move down one place, and the oldest drops out once three are kept.
   */
  lemma PushRecent(p: PokeState, rec: PokeRecord)
    requires p.Shape()
    ensures Recent(Push(p, rec)) == ([rec] + Recent(p))[..Push(p, rec).count]
    ensures GetHistory(Push(p, rec), 0) == Some(rec)
    ensures forall i :: 0 <= i < POKE_HISTORY_SIZE - 1 ==> GetHistory(Push(p, rec), i + 1) == GetHistory(p, i)
  {
    var q := Push(p, rec);
    forall i | 0 <= i < POKE_HISTORY_SIZE - 1 ensures Slot(q.head, i + 1) == Slot(p.head, i) {
    }
    forall j | 1 <= j < POKE_HISTORY_SIZE ensures Slot(q.head, j) != p.head {
    }
  }

  /** The bytes copied for a bitmap of width `w` and height `h`: `(h / 8) * w`, at least `w`. */
  function CopySize(w: nat, h: nat): nat
  {
    var n := (h / 8) * w;
    if n == 0 then w else n
  }

  /** A record's copies hold every byte its bitmaps are drawn from. */
  predicate RecordFits(rec: PokeRecord) {
    && (rec.senderBmp.Some? ==> rec.senderBmpW > 0 && rec.senderBmpH > 0)
    && (rec.textBmp.Some? ==> rec.textBmpW > 0 && rec.textBmpH > 0)
    && BmpFits(rec.senderBmp, rec.senderBmpW, rec.senderBmpH)
    && BmpFits(rec.textBmp, rec.textBmpW, rec.textBmpH)
  }

  /** `pokeAddToHistory`: frees the slot's old copies and stores a text-only record. */
  function AddToHistory(p: PokeState, h: Heap, sender: string, text: string, timestamp: int): (r: (PokeState, Heap))
    requires p.Shape() && p.history[p.head].Owned() <= h.live && p.history[p.head].Separate()
    ensures |r.0.history| == POKE_HISTORY_SIZE
    ensures var (p', h') := r;
            && p' == Push(p, p'.history[p.head])
            && var rec := p'.history[p.head];
            && rec.sender == sender && rec.text == text && rec.timestamp == timestamp && rec.Bare()
            && multiset(h'.live) == multiset(h.live) - p.history[p.head].OwnedMs()
            && h'.next == h.next
  {
    var (cleared, h1) := FreeBitmaps(p.history[p.head], h);
    var rec := cleared.(sender := sender, text := text, timestamp := timestamp, hasBitmaps := false);
    (Push(p, rec), h1)
  }

  /** One bitmap copy: made when the pointer is set, both dimensions are positive and `malloc` succeeds. */
  function CopyBitmap(h: Heap, src: Option<Buf>, w: nat, ht: nat, mallocOk: bool): (r: (Heap, Option<Buf>))
    requires h.Wf()
    requires src.Some? && w > 0 && ht > 0 ==> CopySize(w, ht) <= |src.value.data|
    ensures r.0.Wf()
    ensures r.1.Some? <==> src.Some? && w > 0 && ht > 0 && mallocOk
    ensures r.1.Some? ==> r.1.value.data == src.value.data[..CopySize(w, ht)]
    ensures multiset(r.0.live) == multiset(h.live) + Ms(r.1)
  {
    if src.Some? && w > 0 && ht > 0 && mallocOk then
      var (h1, b) := Alloc(h, src.value.data[..CopySize(w, ht)]);
      (h1, Some(b))
    else (h, None)
  }

  /** The record `pokeAddToHistoryWithBitmaps` stores, given the copies it made. */
  function BitmapRecord(sender: string, text: string, timestamp: int,
                        sCopy: Option<Buf>, sW: nat, sH: nat, tCopy: Option<Buf>, tW: nat, tH: nat): (rec: PokeRecord)
    ensures rec.sender == sender && rec.text == text && rec.timestamp == timestamp
    ensures rec.senderBmp == sCopy && rec.textBmp == tCopy
    ensures rec.hasBitmaps <==> rec.senderBmp.Some? || rec.textBmp.Some?
    ensures rec.senderBmp.None? ==> rec.senderBmpW == 0 && rec.senderBmpH == 0
    ensures rec.textBmp.None? ==> rec.textBmpW == 0 && rec.textBmpH == 0
  {
    PokeRecord(sender, text, timestamp,
               sCopy, if sCopy.Some? then sW else 0, if sCopy.Some? then sH else 0,
               tCopy, if tCopy.Some? then tW else 0, if tCopy.Some? then tH else 0,
               sCopy.Some? || tCopy.Some?)
  }

  /**
   * The copying half of `pokeAddToHistoryWithBitmaps`: a copy of each bitmap
   * that has a pointer, a width and a height, and the record holding them.
   */
  function CopyRecord(h: Heap, sender: string, text: string, timestamp: int,
                      sBmp: Option<Buf>, sW: nat, sH: nat,
                      tBmp: Option<Buf>, tW: nat, tH: nat,
                      sMallocOk: bool, tMallocOk: bool): (r: (Heap, PokeRecord))
    requires h.Wf()
    requires sBmp.Some? && sW > 0 && sH > 0 ==> CopySize(sW, sH) <= |sBmp.value.data|
    requires tBmp.Some? && tW > 0 && tH > 0 ==> CopySize(tW, tH) <= |tBmp.value.data|
    ensures r.1 == BitmapRecord(sender, text, timestamp, r.1.senderBmp, sW, sH, r.1.textBmp, tW, tH)
    ensures r.1.senderBmp.Some? <==> sBmp.Some? && sW > 0 && sH > 0 && sMallocOk
    ensures r.1.senderBmp.Some? ==> r.1.senderBmp.value.data == sBmp.value.data[..CopySize(sW, sH)]
    ensures r.1.textBmp.Some? <==> tBmp.Some? && tW > 0 && tH > 0 && tMallocOk
    ensures r.1.textBmp.Some? ==> r.1.textBmp.value.data == tBmp.value.data[..CopySize(tW, tH)]
    ensures multiset(r.0.live) == multiset(h.live) + r.1.OwnedMs()
    ensures r.0.Wf()
  {
    var s := CopyBitmap(h, sBmp, sW, sH, sMallocOk);
    var t := CopyBitmap(s.0, tBmp, tW, tH, tMallocOk);
    var rec := BitmapRecord(sender, text, timestamp, s.1, sW, sH, t.1, tW, tH);
    MsAddTwice(multiset(h.live), multiset(s.0.live), multiset(t.0.live), Ms(s.1), Ms(t.1));
    (t.0, rec)
  }

  /** When both heights are whole pages, the copies hold every page the renderer reads. */
  lemma CopyRecordFits(h: Heap, sender: string, text: string, timestamp: int,
                       sBmp: Option<Buf>, sW: nat, sH: nat,
                       tBmp: Option<Buf>, tW: nat, tH: nat,
                       sMallocOk: bool, tMallocOk: bool)
    requires h.Wf()
    requires sBmp.Some? && sW > 0 && sH > 0 ==> CopySize(sW, sH) <= |sBmp.value.data|
    requires tBmp.Some? && tW > 0 && tH > 0 ==> CopySize(tW, tH) <= |tBmp.value.data|
    ensures sH % 8 == 0 && tH % 8 == 0 ==>
              RecordFits(CopyRecord(h, sender, text, timestamp, sBmp, sW, sH, tBmp, tW, tH, sMallocOk, tMallocOk).1)
  {
    if sH % 8 == 0 && tH % 8 == 0 {
      var rec := CopyRecord(h, sender, text, timestamp, sBmp, sW, sH, tBmp, tW, tH, sMallocOk, tMallocOk).1;
      CopyFits(sBmp, rec.senderBmp, sW, sH);
      CopyFits(tBmp, rec.textBmp, tW, tH);
    }
  }

  /**
   * `pokeAddToHistoryWithBitmaps`: frees the slot's old copies and stores a
   * record with a copy of each bitmap that has a pointer, a width and a
   * height; `hasBitmaps` says whether any copy was made.
   */
  function AddToHistoryWithBitmaps(p: PokeState, h: Heap, sender: string, text: string, timestamp: int,
                                   sBmp: Option<Buf>, sW: nat, sH: nat,
                                   tBmp: Option<Buf>, tW: nat, tH: nat,
                                   sMallocOk: bool, tMallocOk: bool): (r: (PokeState, Heap))
    requires p.Shape() && p.history[p.head].Owned() <= h.live && p.history[p.head].Separate() && h.Wf()
    requires sBmp.Some? && sW > 0 && sH > 0 ==> CopySize(sW, sH) <= |sBmp.value.data|
    requires tBmp.Some? && tW > 0 && tH > 0 ==> CopySize(tW, tH) <= |tBmp.value.data|
    ensures |r.0.history| == POKE_HISTORY_SIZE
    ensures var (p', h') := r;
            var rec := p'.history[p.head];
            && p' == Push(p, rec)
            && (h', rec) == CopyRecord(Free(Free(h, p.history[p.head].senderBmp), p.history[p.head].textBmp),
                                       sender, text, timestamp, sBmp, sW, sH, tBmp, tW, tH, sMallocOk, tMallocOk)
            && multiset(h'.live) == multiset(h.live) - p.history[p.head].OwnedMs() + rec.OwnedMs()
            && h'.Wf()
  {
    var (_, h1) := FreeBitmaps(p.history[p.head], h);
    var (h2, rec) := CopyRecord(h1, sender, text, timestamp, sBmp, sW, sH, tBmp, tW, tH, sMallocOk, tMallocOk);
    (Push(p, rec), h2)
  }

  /** Records stored with whole-page heights fit their copies. */
  lemma AddToHistoryWithBitmapsFits(p: PokeState, h: Heap, sender: string, text: string, timestamp: int,
                                    sBmp: Option<Buf>, sW: nat, sH: nat,
                                    tBmp: Option<Buf>, tW: nat, tH: nat,
                                    sMallocOk: bool, tMallocOk: bool)
    requires p.Shape() && p.history[p.head].Owned() <= h.live && p.history[p.head].Separate() && h.Wf()
    requires sBmp.Some? && sW > 0 && sH > 0 ==> CopySize(sW, sH) <= |sBmp.value.data|
    requires tBmp.Some? && tW > 0 && tH > 0 ==> CopySize(tW, tH) <= |tBmp.value.data|
    ensures sH % 8 == 0 && tH % 8 == 0 ==>
              RecordFits(AddToHistoryWithBitmaps(p, h, sender, text, timestamp, sBmp, sW, sH, tBmp, tW, tH,
                                                 sMallocOk, tMallocOk).0.history[p.head])
  {
    var h2 := Free(Free(h, p.history[p.head].senderBmp), p.history[p.head].textBmp);
    CopyRecordFits(h2, sender, text, timestamp, sBmp, sW, sH, tBmp, tW, tH, sMallocOk, tMallocOk);
  }

  /** For a height that is a whole number of pages, a copy holds every page the renderer reads. */
  lemma CopyFits(src: Option<Buf>, copy: Option<Buf>, w: nat, ht: nat)
    requires ht % 8 == 0
    requires copy.Some? ==> src.Some? && CopySize(w, ht) <= |src.value.data|
                            && copy.value.data == src.value.data[..CopySize(w, ht)]
    ensures BmpFits(copy, w, ht)
  {
    if copy.Some? && w > 0 && ht > 0 {
      assert (ht + 7) / 8 == ht / 8;
      MulMono(w, BmpPages(ht), ht / 8);
    }
  }

  lemma MulMono(x: nat, a: nat, b: nat)
    requires a <= b
    ensures a * x <= b * x
  {
    assert b * x == a * x + (b - a) * x;
  }

  /** A push exchanges the overwritten record's copies for the new record's in the owned count. */
  lemma PushOwned(p: PokeState, rec: PokeRecord)
    requires p.Shape()
    ensures p.history[p.head].OwnedMs() <= OwnedMs(p)
    ensures OwnedMs(Push(p, rec)) + p.history[p.head].OwnedMs() == OwnedMs(p) + rec.OwnedMs()
  {
    var q := Push(p, rec);
    RecordsMsUpdate(p.history, p.head, rec);
    MsChain(Ms(p.senderBmp) + Ms(p.textBmp), RecordsMs(p.history), RecordsMs(q.history),
            p.history[p.head].OwnedMs(), rec.OwnedMs());
  }

  /** Adding a text-only record keeps the ownership invariant: the overwritten copies are freed. */
  lemma AddToHistoryOwns(p: PokeState, h: Heap, other: multiset<nat>, sender: string, text: string, timestamp: int)
    requires Owns(p, h, other)
    ensures p.history[p.head].Owned() <= h.live && p.history[p.head].Separate()
    ensures var (p', h') := AddToHistory(p, h, sender, text, timestamp); Owns(p', h', other)
  {
    HeldRecord(p, h, p.head);
    var (p', h') := AddToHistory(p, h, sender, text, timestamp);
    var gone := p.history[p.head].OwnedMs();
    PushOwned(p, p'.history[p.head]);
    assert multiset(h'.live) == multiset(h.live) - gone + multiset{} by {
      assert forall x :: multiset(h'.live)[x] == (multiset(h.live) - gone + multiset{})[x];
    }
    MsExchange(OwnedMs(p), OwnedMs(p'), gone, multiset{}, other, multiset(h.live), multiset(h'.live));
  }

  /**
   * Adding a record with copies keeps the ownership invariant: the
   * overwritten record's copies are freed and the new copies are owned by the
   * slot.
   */
  lemma AddToHistoryWithBitmapsOwns(p: PokeState, h: Heap, other: multiset<nat>, sender: string, text: string, timestamp: int,
                                    sBmp: Option<Buf>, sW: nat, sH: nat,
                                    tBmp: Option<Buf>, tW: nat, tH: nat,
                                    sMallocOk: bool, tMallocOk: bool)
    requires Owns(p, h, other)
    requires sBmp.Some? && sW > 0 && sH > 0 ==> CopySize(sW, sH) <= |sBmp.value.data|
    requires tBmp.Some? && tW > 0 && tH > 0 ==> CopySize(tW, tH) <= |tBmp.value.data|
    ensures p.history[p.head].Owned() <= h.live && p.history[p.head].Separate()
    ensures var (p', h') := AddToHistoryWithBitmaps(p, h, sender, text, timestamp, sBmp, sW, sH, tBmp, tW, tH, sMallocOk, tMallocOk);
            Owns(p', h', other)
  {
    HeldRecord(p, h, p.head);
    var (p', h') := AddToHistoryWithBitmaps(p, h, sender, text, timestamp, sBmp, sW, sH, tBmp, tW, tH, sMallocOk, tMallocOk);
    var rec := p'.history[p.head];
    PushOwned(p, rec);
    MsExchange(OwnedMs(p), OwnedMs(p'), p.history[p.head].OwnedMs(), rec.OwnedMs(), other,
               multiset(h.live), multiset(h'.live));
  }

  /** Every history slot's copies hold every page the renderer reads from them. */
  predicate HistoryFits(p: PokeState) {
    forall k :: 0 <= k < |p.history| ==> RecordFits(p.history[k])
  }

  // -----------------------------------------------------------------------
  // Rendering
  // -----------------------------------------------------------------------

  /** The height a bitmap row is laid out with: its own, or 16 when it is 0. */
  function RowHeight(ht: nat): (r: nat)
    ensures r > 0
    ensures ht > 0 ==> r == ht
  {
    if ht > 0 then ht else DEFAULT_BMP_HEIGHT
  }

  /**
   * Whether a bitmap row is drawn: it has a pointer, a width and a height.
   * The firmware also draws a row of height 0, as 16 rows, which reads past
   * a buffer shorter than two pages (`AsWrittenReadExtent`, `LiveOverRead`);
   * this is the corrected rule that skips such a row.
   */
  predicate Drawable(b: Option<Buf>, w: nat, ht: nat) {
    b.Some? && w > 0 && ht > 0
  }

  /**
   * One bitmap row: `drawBitmapToBuffer` at row `y`, scrolled by `scroll`
   * only when wider than the screen.
   */
  function DrawRow(buf: seq<byte>, b: Option<Buf>, w: nat, ht: nat, y: int, scroll: int): (out: seq<byte>)
    requires |buf| == FrameRenderer.BUFFER_SIZE && BmpFits(b, w, ht)
    ensures |out| == FrameRenderer.BUFFER_SIZE
    ensures !Drawable(b, w, ht) ==> out == buf
  {
    if Drawable(b, w, ht) then
      DrawBitmapToBuffer(buf, b.value.data, w, ht, y, if w > FrameRenderer.COLUMNS then scroll else 0)
    else buf
  }

  /** A pixel of a drawn row is set exactly when it was set before or the bitmap lands on it. */
  lemma DrawRowPixel(buf: seq<byte>, b: Option<Buf>, w: nat, ht: nat, y: int, scroll: int, x': nat, y': nat)
    requires |buf| == FrameRenderer.BUFFER_SIZE && BmpFits(b, w, ht)
    requires x' < FrameRenderer.COLUMNS && y' < 64
    ensures FrameRenderer.DisplayPixel(DrawRow(buf, b, w, ht, y, scroll), x', y')
            <==> FrameRenderer.DisplayPixel(buf, x', y')
                 || (Drawable(b, w, ht)
                     && Drawn(b.value.data, w, BmpPages(ht), y, if w > FrameRenderer.COLUMNS then scroll else 0, x', y'))
  {
    if Drawable(b, w, ht) {
      DrawBitmapPixel(buf, b.value.data, w, ht, y, if w > FrameRenderer.COLUMNS then scroll else 0, x', y');
    }
  }

  /** The top row of the text bitmap: one pixel below the sender row, as an `int16_t`. */
  function TextY(senderH: nat): (y: int)
    ensures senderH < 0x8000 - SENDER_Y - 1 ==> y == SENDER_Y + senderH + 1
  {
    I16(SENDER_Y + senderH + 1)
  }

  /**
   * The frame `showPokeBitmap` and `showPokeHistoryBitmap` send: the header
   * buffer `base` (the font drawing is not modelled), the sender row at row
   * 15, the text row below it, then the 180-degree rotation. Rows are drawn
   * by the corrected rule `Drawable`: a row of height 0 is skipped here,
   * where the firmware draws it as 16 rows.
   */
  function ShowBitmaps(base: seq<byte>, sb: Option<Buf>, sW: nat, sH: nat,
                       tb: Option<Buf>, tW: nat, tH: nat, scroll: int): (frame: seq<byte>)
    requires |base| == FrameRenderer.BUFFER_SIZE && BmpFits(sb, sW, sH) && BmpFits(tb, tW, tH)
    ensures |frame| == FrameRenderer.BUFFER_SIZE
  {
    var withSender := DrawRow(base, sb, sW, sH, SENDER_Y, scroll);
    var withText := DrawRow(withSender, tb, tW, tH, TextY(RowHeight(sH)), scroll);
    DisplayHelpers.Rotate180(withText)
  }

  /**
   * Pixel (x, y) of the composed picture appears at (127 - x, 63 - y) of the
   * frame, and is set exactly when the header had it or one of the two rows
   * draws it.
   */
  lemma ShowBitmapsPixel(base: seq<byte>, sb: Option<Buf>, sW: nat, sH: nat,
                         tb: Option<Buf>, tW: nat, tH: nat, scroll: int, x: nat, y: nat)
    requires |base| == FrameRenderer.BUFFER_SIZE && BmpFits(sb, sW, sH) && BmpFits(tb, tW, tH)
    requires x < FrameRenderer.COLUMNS && y < 64
    ensures FrameRenderer.DisplayPixel(ShowBitmaps(base, sb, sW, sH, tb, tW, tH, scroll),
                                       FrameRenderer.COLUMNS - 1 - x, 63 - y)
            <==> || FrameRenderer.DisplayPixel(base, x, y)
                 || (Drawable(sb, sW, sH)
                     && Drawn(sb.value.data, sW, BmpPages(sH), SENDER_Y, if sW > FrameRenderer.COLUMNS then scroll else 0, x, y))
                 || (Drawable(tb, tW, tH)
                     && Drawn(tb.value.data, tW, BmpPages(tH), TextY(RowHeight(sH)),
                              if tW > FrameRenderer.COLUMNS then scroll else 0, x, y))
  {
    var withSender := DrawRow(base, sb, sW, sH, SENDER_Y, scroll);
    var withText := DrawRow(withSender, tb, tW, tH, TextY(RowHeight(sH)), scroll);
    DrawRowPixel(base, sb, sW, sH, SENDER_Y, scroll, x, y);
    DrawRowPixel(withSender, tb, tW, tH, TextY(RowHeight(sH)), scroll, x, y);
    DisplayHelpers.Rotate180Pixel(withText, x, y);
  }

  /** `showPokeBitmap`: the live poke's two rows, both scrolled by the shared offset. */
  function ShowPokeBitmap(p: PokeState, base: seq<byte>): (frame: seq<byte>)
    requires |base| == FrameRenderer.BUFFER_SIZE && LiveFits(p)
    ensures |frame| == FrameRenderer.BUFFER_SIZE
    ensures !Drawable(p.senderBmp, p.senderWidth, p.senderHeight) && !Drawable(p.textBmp, p.textWidth, p.textHeight)
            ==> frame == DisplayHelpers.Rotate180(base)
  {
    ShowBitmaps(base, p.senderBmp, p.senderWidth, p.senderHeight, p.textBmp, p.textWidth, p.textHeight, p.scrollOffset)
  }

  /** `showPokeHistoryBitmap`: a history record's two rows, scrolled by the caller's offset. */
  function ShowPokeHistoryBitmap(rec: PokeRecord, base: seq<byte>, scrollX: int): (frame: seq<byte>)
    requires |base| == FrameRenderer.BUFFER_SIZE && RecordFits(rec)
    ensures |frame| == FrameRenderer.BUFFER_SIZE
    ensures rec.Bare() ==> frame == DisplayHelpers.Rotate180(base)
  {
    ShowBitmaps(base, rec.senderBmp, rec.senderBmpW, rec.senderBmpH, rec.textBmp, rec.textBmpW, rec.textBmpH, scrollX)
  }

  /**
   * The bytes `showPokeBitmap` as written reads from one row: it substitutes
   * height 16 for a zero height before testing only the pointer and the
   * width, so a row of height 0 is still drawn, over 16 rows.
   */
  function AsWrittenReadExtent(b: Option<Buf>, w: nat, ht: nat): (n: nat)
    ensures !(b.Some? && w > 0) ==> n == 0
    ensures b.Some? && w > 0 && ht == 0 ==> n == 2 * w
    ensures b.Some? && w > 0 && ht > 0 ==> n == BmpPages(ht) * w
  {
    if b.Some? && w > 0 then BmpPages(RowHeight(ht)) * w else 0
  }

  /** Whether the as-written renderer stays inside a row's buffer. */
  predicate AsWrittenReadsInBounds(b: Option<Buf>, w: nat, ht: nat) {
    b.Some? ==> AsWrittenReadExtent(b, w, ht) <= |b.value.data|
  }

  /**
   * Where the two renderers agree: on a row with a positive height, the
   * as-written read stays in bounds exactly when the row fits, which the
   * corrected renderer relies on.
   */
  lemma AsWrittenAgreesWhenDrawable(b: Option<Buf>, w: nat, ht: nat)
    requires ht > 0
    ensures AsWrittenReadsInBounds(b, w, ht) <==> BmpFits(b, w, ht)
  {
  }

  /**
   * A bitmap poke whose sender buffer holds 7 bytes at width 128 gets height
   * 0 (7 / 128 * 8); the live poke still fits, yet `showPokeBitmap` as
   * written reads 256 bytes from it.
   */
  lemma LiveOverRead()
    ensures OwnedMs(INITIAL) == multiset{}
    ensures var sb := Some(Buf(7, seq(7, _ => 0 as byte)));
            var r := HandlePokeBitmapFromPtrs(INITIAL, Heap({7}, 8), "a", "b", sb, 128, 7, None, 0, 0,
                                              0, 0, true, true);
            && r.0.senderBmp == sb && r.0.senderWidth == 128 && r.0.senderHeight == 0
            && LiveFits(r.0)
            && !AsWrittenReadsInBounds(r.0.senderBmp, r.0.senderWidth, r.0.senderHeight)
  {
    var sb := Some(Buf(7, seq(7, _ => 0 as byte)));
    assert RecordsMs(INITIAL.history) == multiset{} by {
      var hs := INITIAL.history;
      assert FRESH_RECORD.OwnedMs() == multiset{};
      assert hs[1..][1..][1..] == [];
      assert RecordsMs(hs[1..][1..]) == multiset{};
      assert RecordsMs(hs[1..]) == multiset{};
    }
    assert Ms(sb) + Ms(None) + OwnedMs(INITIAL) == multiset{7} == multiset({7});
    var r := HandlePokeBitmapFromPtrs(INITIAL, Heap({7}, 8), "a", "b", sb, 128, 7, None, 0, 0, 0, 0, true, true);
    assert PtrDims(sb, 128, 7) == (128, 0);
    HandlePokeBitmapFromPtrsFits(INITIAL, Heap({7}, 8), "a", "b", sb, 128, 7, None, 0, 0, 0, 0, true, true);
  }

  // -----------------------------------------------------------------------
  // Handlers
  // -----------------------------------------------------------------------

  /** `handlePoke`: drops the live bitmaps, starts a text poke at `now` and records it in history. */
  function HandlePoke(p: PokeState, h: Heap, sender: string, text: string, now: Clock.Millis, timestamp: int)
    : (r: (PokeState, Heap))
    requires Held(p, h)
    ensures r.0.Shape()
    ensures r.0.count == if p.count < POKE_HISTORY_SIZE then p.count + 1 else p.count
    ensures var (p', h') := r;
            && p'.active && !p'.bitmapMode && p'.startMs == now && p'.lastScrollMs == now && p'.scrollOffset == 0
            && p'.senderBmp.None? && p'.textBmp.None? && MaxWidth(p') == 0
            && GetHistory(p', 0).Some?
            && var rec := GetHistory(p', 0).value;
            && rec.sender == sender && rec.text == text && rec.timestamp == timestamp && rec.Bare()
            && Recent(p') == ([rec] + Recent(p))[..p'.count]
  {
    HeldAfterFree(p, h);
    var (p1, h1) := FreePokeBitmaps(p, h);
    var p2 := p1.(active := true, startMs := now, scrollOffset := 0, lastScrollMs := now);
    var (p3, h3) := AddToHistory(p2, h1, sender, text, timestamp);
    PushRecent(p2, p3.history[p2.head]);
    assert Recent(p2) == Recent(p);
    (p3, h3)
  }

  /** `handlePoke` keeps the ownership invariant: the live bitmaps and the overwritten copies are freed. */
  lemma HandlePokeOwns(p: PokeState, h: Heap, other: multiset<nat>, sender: string, text: string,
                       now: Clock.Millis, timestamp: int)
    requires Owns(p, h, other)
    ensures Held(p, h)
    ensures var (p', h') := HandlePoke(p, h, sender, text, now, timestamp); Owns(p', h', other)
  {
    FreePokeBitmapsOwns(p, h, other);
    var (p1, h1) := FreePokeBitmaps(p, h);
    var p2 := p1.(active := true, startMs := now, scrollOffset := 0, lastScrollMs := now);
    assert OwnedMs(p2) == OwnedMs(p1);
    AddToHistoryOwns(p2, h1, other, sender, text, timestamp);
  }

  /** The height `handlePokeBitmapFromPtrs` gives a bitmap of `len` bytes and width `w`. */
  function PtrHeight(len: nat, w: nat): (ht: nat)
    requires w > 0
    ensures ht < 0x1_0000
    ensures len / w * 8 < 0x1_0000 ==> ht == len / w * 8
  {
    U16(len / w * 8)
  }

  /**
   * Whole pages, never more than the buffer: the height is a multiple of 8,
   * and both the history copy and the renderer's read stay within `len`.
   */
  lemma PtrHeightFits(len: nat, w: nat)
    requires w > 0
    ensures PtrHeight(len, w) % 8 == 0
    ensures PtrHeight(len, w) / 8 * w <= len
    ensures PtrHeight(len, w) > 0 ==> CopySize(w, PtrHeight(len, w)) <= len
    ensures PtrHeight(len, w) > 0 ==> BmpPages(PtrHeight(len, w)) * w <= len
  {
    var q := len / w;
    var v := q * 8;
    var ht := PtrHeight(len, w);
    var k := v / 0x1_0000;
    assert ht == v - k * 0x1_0000;
    assert ht == 8 * (q - k * 0x2000);
    assert ht / 8 == q - k * 0x2000 <= q;
    MulMono(w, ht / 8, q);
    assert q * w <= len;
    if ht > 0 {
      assert (ht + 7) / 8 == ht / 8;
      MulMono(w, 1, ht / 8);
      MulMono(w, BmpPages(ht), ht / 8);
    }
  }

  /** The dimensions `handlePokeBitmapFromPtrs` records for one bitmap: `(w, (len / w) * 8)`, or zeroes. */
  function PtrDims(b: Option<Buf>, w: nat, len: nat): (d: (nat, nat))
    ensures b.Some? && w > 0 ==> d == (w, PtrHeight(len, w))
    ensures !(b.Some? && w > 0) ==> d == (0, 0)
  {
    if b.Some? && w > 0 then (w, PtrHeight(len, w)) else (0, 0)
  }

  /** The recorded dimensions fit the buffer: for the renderer and for the history copy. */
  lemma PtrDimsFit(b: Option<Buf>, w: nat, len: nat)
    requires b.Some? ==> len <= |b.value.data|
    ensures var (w', ht) := PtrDims(b, w, len);
            && ht % 8 == 0
            && BmpFits(b, w', ht)
            && (Drawable(b, w', ht) ==> CopySize(w', ht) <= |b.value.data|)
  {
    if b.Some? && w > 0 {
      PtrHeightFits(len, w);
    }
  }

  /** The live poke a bitmap poke installs, before the history copy. */
  function Install(p: PokeState, sb: Option<Buf>, sW: nat, sLen: nat, tb: Option<Buf>, tW: nat, tLen: nat,
                   now: Clock.Millis): (q: PokeState)
  {
    var (sw, sh) := PtrDims(sb, sW, sLen);
    var (tw, th) := PtrDims(tb, tW, tLen);
    p.(senderBmp := sb, senderWidth := sw, senderHeight := sh, textBmp := tb, textWidth := tw, textHeight := th,
       bitmapMode := true, active := true, startMs := now, scrollOffset := 0, lastScrollMs := now)
  }

  /**
   * The first half of `handlePokeBitmapFromPtrs`: frees the previous live
   * bitmaps and takes over the two decoded buffers (of `sLen` and `tLen`
   * bytes) as a bitmap poke started at `now`.
   */
  function TakeBitmaps(p: PokeState, h: Heap, sb: Option<Buf>, sW: nat, sLen: nat,
                       tb: Option<Buf>, tW: nat, tLen: nat, now: Clock.Millis): (r: (PokeState, Heap))
    requires p.Shape() && (Ms(sb) + Ms(tb)) + OwnedMs(p) <= multiset(h.live)
    requires sb.Some? ==> sLen <= |sb.value.data|
    requires tb.Some? ==> tLen <= |tb.value.data|
    ensures var (p', h') := r;
            && p'.Shape() && p'.history == p.history && p'.head == p.head && p'.count == p.count
            && p'.active && p'.bitmapMode && p'.startMs == now && p'.lastScrollMs == now && p'.scrollOffset == 0
            && p'.senderBmp == sb && p'.textBmp == tb
            && (p'.senderWidth, p'.senderHeight) == PtrDims(sb, sW, sLen)
            && (p'.textWidth, p'.textHeight) == PtrDims(tb, tW, tLen)
            && p'.senderHeight % 8 == 0 && p'.textHeight % 8 == 0
            && LiveFits(p')
            && (Drawable(sb, p'.senderWidth, p'.senderHeight) ==> CopySize(p'.senderWidth, p'.senderHeight) <= |sb.value.data|)
            && (Drawable(tb, p'.textWidth, p'.textHeight) ==> CopySize(p'.textWidth, p'.textHeight) <= |tb.value.data|)
            && p.history[p.head].Owned() <= h'.live && p.history[p.head].Separate()
            && multiset(h'.live) == multiset(h.live) - Ms(p.senderBmp) - Ms(p.textBmp)
            && (h.Wf() ==> h'.Wf())
  {
    MsWithin(Ms(sb) + Ms(tb), OwnedMs(p), OwnedMs(p));
    HeldAfterFree(p, h);
    var (p1, h1) := FreePokeBitmaps(p, h);
    PtrDimsFit(sb, sW, sLen);
    PtrDimsFit(tb, tW, tLen);
    (Install(p1, sb, sW, sLen, tb, tW, tLen, now), h1)
  }

  /**
   * `handlePokeBitmapFromPtrs`: takes over the two buffers as the live poke
   * (see `TakeBitmaps`) and stores copies in history.
   */
  function HandlePokeBitmapFromPtrs(p: PokeState, h: Heap, sender: string, text: string,
                                    sb: Option<Buf>, sW: nat, sLen: nat,
                                    tb: Option<Buf>, tW: nat, tLen: nat,
                                    now: Clock.Millis, timestamp: int,
                                    sMallocOk: bool, tMallocOk: bool): (r: (PokeState, Heap))
    requires p.Shape() && (Ms(sb) + Ms(tb)) + OwnedMs(p) <= multiset(h.live) && h.Wf()
    requires sb.Some? ==> sLen <= |sb.value.data|
    requires tb.Some? ==> tLen <= |tb.value.data|
    ensures r.0.Shape() && r.1.Wf()
    ensures var p' := r.0;
            && p'.active && p'.bitmapMode && p'.startMs == now && p'.lastScrollMs == now && p'.scrollOffset == 0
            && p'.senderBmp == sb && p'.textBmp == tb
            && (p'.senderWidth, p'.senderHeight) == PtrDims(sb, sW, sLen)
            && (p'.textWidth, p'.textHeight) == PtrDims(tb, tW, tLen)
  {
    var (p2, h1) := TakeBitmaps(p, h, sb, sW, sLen, tb, tW, tLen, now);
    AddToHistoryWithBitmaps(p2, h1, sender, text, timestamp,
                            p2.senderBmp, p2.senderWidth, p2.senderHeight,
                            p2.textBmp, p2.textWidth, p2.textHeight, sMallocOk, tMallocOk)
  }

  /**
   * After a bitmap poke the most recent history record holds a copy of each
   * drawable bitmap whose `malloc` succeeded.
   */
  lemma HandlePokeBitmapFromPtrsRecord(p: PokeState, h: Heap, sender: string, text: string,
                                     sb: Option<Buf>, sW: nat, sLen: nat,
                                     tb: Option<Buf>, tW: nat, tLen: nat,
                                     now: Clock.Millis, timestamp: int,
                                     sMallocOk: bool, tMallocOk: bool)
    requires p.Shape() && (Ms(sb) + Ms(tb)) + OwnedMs(p) <= multiset(h.live) && h.Wf()
    requires sb.Some? ==> sLen <= |sb.value.data|
    requires tb.Some? ==> tLen <= |tb.value.data|
    ensures var p' := HandlePokeBitmapFromPtrs(p, h, sender, text, sb, sW, sLen, tb, tW, tLen, now, timestamp,
                                               sMallocOk, tMallocOk).0;
            && GetHistory(p', 0).Some?
            && var rec := GetHistory(p', 0).value;
            && rec.sender == sender && rec.text == text && rec.timestamp == timestamp
            && (rec.senderBmp.Some? <==> Drawable(sb, p'.senderWidth, p'.senderHeight) && sMallocOk)
            && (rec.textBmp.Some? <==> Drawable(tb, p'.textWidth, p'.textHeight) && tMallocOk)
            && (rec.hasBitmaps <==> rec.senderBmp.Some? || rec.textBmp.Some?)
  {
    var (p2, h1) := TakeBitmaps(p, h, sb, sW, sLen, tb, tW, tLen, now);
    var (p3, h3) := AddToHistoryWithBitmaps(p2, h1, sender, text, timestamp,
                                            p2.senderBmp, p2.senderWidth, p2.senderHeight,
                                            p2.textBmp, p2.textWidth, p2.textHeight, sMallocOk, tMallocOk);
    assert HandlePokeBitmapFromPtrs(p, h, sender, text, sb, sW, sLen, tb, tW, tLen, now, timestamp,
                                    sMallocOk, tMallocOk) == (p3, h3);
    var rec := p3.history[p2.head];
    assert GetHistory(p3, 0) == Some(rec) by {
      PushRecent(p2, rec);
    }
  }

  /**
   * A bitmap poke keeps every buffer large enough for what is read from it:
   * the live bitmaps' recorded dimensions fit them, and so do all history
   * copies, old and new.
   */
  lemma HandlePokeBitmapFromPtrsFits(p: PokeState, h: Heap, sender: string, text: string,
                                     sb: Option<Buf>, sW: nat, sLen: nat,
                                     tb: Option<Buf>, tW: nat, tLen: nat,
                                     now: Clock.Millis, timestamp: int,
                                     sMallocOk: bool, tMallocOk: bool)
    requires p.Shape() && (Ms(sb) + Ms(tb)) + OwnedMs(p) <= multiset(h.live) && h.Wf()
    requires sb.Some? ==> sLen <= |sb.value.data|
    requires tb.Some? ==> tLen <= |tb.value.data|
    requires HistoryFits(p)
    ensures var p' := HandlePokeBitmapFromPtrs(p, h, sender, text, sb, sW, sLen, tb, tW, tLen, now, timestamp,
                                               sMallocOk, tMallocOk).0;
            LiveFits(p') && HistoryFits(p')
  {
    var (p2, h1) := TakeBitmaps(p, h, sb, sW, sLen, tb, tW, tLen, now);
    var (p3, h3) := AddToHistoryWithBitmaps(p2, h1, sender, text, timestamp,
                                            p2.senderBmp, p2.senderWidth, p2.senderHeight,
                                            p2.textBmp, p2.textWidth, p2.textHeight, sMallocOk, tMallocOk);
    assert HandlePokeBitmapFromPtrs(p, h, sender, text, sb, sW, sLen, tb, tW, tLen, now, timestamp,
                                    sMallocOk, tMallocOk) == (p3, h3);
    AddToHistoryWithBitmapsFits(p2, h1, sender, text, timestamp,
                                p2.senderBmp, p2.senderWidth, p2.senderHeight,
                                p2.textBmp, p2.textWidth, p2.textHeight, sMallocOk, tMallocOk);
    PushFits(p2, p3.history[p.head]);
  }

  /**
   * A bitmap poke keeps the ownership invariant: the two buffers pass from
   * the caller (part of `other` before) to the live poke, the previous live
   * bitmaps and the overwritten history copies are freed, and the new copies
   * are owned by their slot.
   */
  lemma HandlePokeBitmapFromPtrsOwns(p: PokeState, h: Heap, other: multiset<nat>, sender: string, text: string,
                                     sb: Option<Buf>, sW: nat, sLen: nat,
                                     tb: Option<Buf>, tW: nat, tLen: nat,
                                     now: Clock.Millis, timestamp: int,
                                     sMallocOk: bool, tMallocOk: bool)
    requires Owns(p, h, other + (Ms(sb) + Ms(tb)))
    requires sb.Some? ==> sLen <= |sb.value.data|
    requires tb.Some? ==> tLen <= |tb.value.data|
    ensures (Ms(sb) + Ms(tb)) + OwnedMs(p) <= multiset(h.live)
    ensures var (p', h') := HandlePokeBitmapFromPtrs(p, h, sender, text, sb, sW, sLen, tb, tW, tLen, now, timestamp,
                                                     sMallocOk, tMallocOk);
            Owns(p', h', other)
  {
    var x := Ms(sb) + Ms(tb);
    MsTakeOver(Ms(p.senderBmp), Ms(p.textBmp), RecordsMs(p.history), x, other, multiset(h.live), multiset(h.live) - Ms(p.senderBmp) - Ms(p.textBmp));
    var (p2, h1) := TakeBitmaps(p, h, sb, sW, sLen, tb, tW, tLen, now);
    assert Owns(p2, h1, other);
    AddToHistoryWithBitmapsOwns(p2, h1, other, sender, text, timestamp,
                                p2.senderBmp, p2.senderWidth, p2.senderHeight,
                                p2.textBmp, p2.textWidth, p2.textHeight, sMallocOk, tMallocOk);
  }

  /** A text poke keeps every history copy fitting; it leaves no live bitmap. */
  lemma HandlePokeFits(p: PokeState, h: Heap, sender: string, text: string, now: Clock.Millis, timestamp: int)
    requires Held(p, h) && HistoryFits(p)
    ensures LiveFits(HandlePoke(p, h, sender, text, now, timestamp).0)
    ensures HistoryFits(HandlePoke(p, h, sender, text, now, timestamp).0)
  {
    HeldAfterFree(p, h);
    var (p1, h1) := FreePokeBitmaps(p, h);
    var p2 := p1.(active := true, startMs := now, scrollOffset := 0, lastScrollMs := now);
    var (p3, h3) := AddToHistory(p2, h1, sender, text, timestamp);
    PushFits(p2, p3.history[p2.head]);
  }

  /** Pushing a record that fits keeps every history copy fitting. */
  lemma PushFits(p: PokeState, rec: PokeRecord)
    requires p.Shape() && HistoryFits(p) && RecordFits(rec)
    ensures HistoryFits(Push(p, rec))
  {
    var q := Push(p, rec);
    forall k | 0 <= k < |q.history| ensures RecordFits(q.history[k]) {
      if k != p.head {
        assert q.history[k] == p.history[k];
      }
    }
  }

  /**
   * Freeing the live bitmaps of a held poke state leaves it held, so the
   * history slot the next push overwrites is live and separate.
   */
  lemma HeldAfterFree(p: PokeState, h: Heap)
    requires Held(p, h)
    ensures Ids(p.senderBmp) + Ids(p.textBmp) <= h.live && Ids(p.senderBmp) !! Ids(p.textBmp)
    ensures var (p1, h1) := FreePokeBitmaps(p, h);
            && Held(p1, h1)
            && p1.history[p1.head].Owned() <= h1.live && p1.history[p1.head].Separate()
  {
    HeldRecord(p, h, 0);
    var (p1, h1) := FreePokeBitmaps(p, h);
    assert OwnedMs(p1) == RecordsMs(p.history) by {
      assert forall x :: OwnedMs(p1)[x] == RecordsMs(p.history)[x];
    }
    MsFreeTwoWithin(Ms(p.senderBmp), Ms(p.textBmp), RecordsMs(p.history), multiset(h.live), multiset(h1.live));
    HeldRecord(p1, h1, p1.head);
  }
}
