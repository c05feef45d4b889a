/**
 * What holds across passes of the display task's loop: no bitmap buffer
 * leaks or gains a second owner whatever the display does with an event,
 * the bitmaps it keeps always cover their dimensions, and the states the
 * task can return to are the ones it came from.
 */
module DisplayInvariants {
  import opened Wrappers
  import opened AppState
  import Clock
  import PokeHandler
  import NetworkTask
  import opened DisplayTask
  import opened PokeBitmap

  // -----------------------------------------------------------------------
  // Buffer ownership
  // -----------------------------------------------------------------------

  /** A POKE carries no buffer: recording it frees only the previous live poke's. */
  lemma PokeOwns(s: System, e: NetworkEvent, env: Env, now: Clock.Millis, other: multiset<nat>)
    requires Fine(s) && PokeHandler.Owns(s.poke, s.heap, other)
    ensures var r := OnPoke(s, e, env, now); PokeHandler.Owns(r.poke, r.heap, other)
  {
    if TakesPokes(s.d.state) && !KeepsCustomMessage(s, e, env) {
      PokeHandler.HandlePokeOwns(s.poke, s.heap, other, e.sender, e.text, now, env.timestamp);
    }
  }

  /** A taken POKE_BITMAP: the event's buffers become the poke state's. */
  lemma TakeOwns(s: System, e: NetworkEvent, env: Env, now: Clock.Millis, other: multiset<nat>)
    requires Fine(s) && Accepts(s, e)
    requires PokeHandler.Owns(s.poke, s.heap, other + e.OwnedMs())
    ensures var r := TakePokeBitmap(s, e, env, now); PokeHandler.Owns(r.poke, r.heap, other)
  {
    PokeHandler.HandlePokeBitmapFromPtrsOwns(s.poke, s.heap, other, e.sender, e.text,
      e.senderBmp, e.senderBmpWidth, e.senderBmpLen, e.textBmp, e.textBmpWidth, e.textBmpLen,
      now, env.timestamp, env.mallocOk.0, env.mallocOk.1);
  }

  /** A dropped POKE_BITMAP: the event's buffers are freed. */
  lemma DropOwns(s: System, e: NetworkEvent, other: multiset<nat>)
    requires Fine(s) && Accepts(s, e)
    requires PokeHandler.Owns(s.poke, s.heap, other + e.OwnedMs())
    ensures var r := DropPokeBitmap(s, e); PokeHandler.Owns(r.poke, r.heap, other)
  {
    var r := DropPokeBitmap(s, e);
    var o, x, live := PokeHandler.OwnedMs(s.poke), e.OwnedMs(), multiset(s.heap.live);
    assert multiset(r.heap.live) == live - x;
    assert forall y :: (o + other)[y] == (live - x)[y];
  }

  /**
   * A network event hands its buffers over: whatever the display does with
   * it, the live heap afterwards is the poke state's buffers plus exactly
   * what was live outside the poke state and the event before.
   */
  lemma NetEventOwns(s: System, e: NetworkEvent, env: Env, now: Clock.Millis, other: multiset<nat>)
    requires Fine(s) && Accepts(s, e)
    requires PokeHandler.Owns(s.poke, s.heap, other + e.OwnedMs())
    ensures var r := OnNetEvent(s, e, env, now).0; PokeHandler.Owns(r.poke, r.heap, other)
  {
    if e.kind == PokeBitmap {
      if TakesPokes(s.d.state) {
        TakeOwns(s, e, env, now, other);
      } else {
        DropOwns(s, e, other);
      }
    } else {
      assert other + e.OwnedMs() == other;
      if e.kind == Poke {
        PokeOwns(s, e, env, now, other);
      }
    }
  }

  /** A gesture frees the live poke's buffers or touches no buffer at all. */
  lemma GestureOwns(s: System, g: GestureType, env: Env, now: Clock.Millis, other: multiset<nat>)
    requires Fine(s) && PokeHandler.Owns(s.poke, s.heap, other)
    ensures var r := OnGesture(s, g, env, now).0; PokeHandler.Owns(r.poke, r.heap, other)
  {
    if s.d.state == PokeDisplay && g == SingleTap {
      CloseOwns(s, now, other);
    }
  }

  /** The poke tick closes the poke, freeing its buffers, or only moves its scroll. */
  lemma PokeTickOwns(s: System, now: Clock.Millis, other: multiset<nat>)
    requires Fine(s) && PokeHandler.Owns(s.poke, s.heap, other)
    ensures var r := PokeTick(s, now).0; PokeHandler.Owns(r.poke, r.heap, other)
  {
    var timeout := if U16(PokeHandler.MaxWidth(s.poke)) > PokeHandler.SCREEN_WIDTH
                   then PokeHandler.POKE_SCROLL_DISPLAY_MS else PokeHandler.POKE_DISPLAY_MS;
    if Clock.Elapsed(now, s.d.entryMs) > timeout {
      CloseOwns(s, now, other);
    } else {
      var p' := PokeHandler.AdvanceScroll(s.poke, now).0;
      assert PokeHandler.OwnedMs(p') == PokeHandler.OwnedMs(s.poke);
    }
  }

  /** Closing the live poke frees its buffers and keeps everything else. */
  lemma CloseOwns(s: System, now: Clock.Millis, other: multiset<nat>)
    requires Fine(s) && PokeHandler.Owns(s.poke, s.heap, other)
    ensures var r := ClosePoke(s, now); PokeHandler.Owns(r.poke, r.heap, other)
  {
    PokeHandler.FreePokeBitmapsOwns(s.poke.(active := false), s.heap, other);
  }

  /** A tick frees the live poke's buffers, moves its scroll, or touches no buffer at all. */
  lemma TickOwns(s: System, env: Env, now: Clock.Millis, other: multiset<nat>)
    requires Fine(s) && PokeHandler.Owns(s.poke, s.heap, other)
    ensures var r := Tick(s, env, now).0; PokeHandler.Owns(r.poke, r.heap, other)
  {
    if s.d.state == PokeDisplay {
      PokeTickOwns(s, now, other);
    }
  }

  /**
   * A whole pass of the loop: with the event's buffers counted as the
   * display's to dispose of, the heap afterwards holds the poke state's
   * buffers and the rest, and nothing else.
   */
  lemma StepOwns(s: System, ev: Option<NetworkEvent>, g: Option<GestureType>, env: Env,
                 now: Clock.Millis, gestureNow: Clock.Millis, tickNow: Clock.Millis, other: multiset<nat>)
    requires Fine(s) && (ev.Some? ==> Accepts(s, ev.value))
    requires PokeHandler.Owns(s.poke, s.heap, other + (if ev.Some? then ev.value.OwnedMs() else multiset{}))
    ensures var r := Step(s, ev, g, env, now, gestureNow, tickNow).0; PokeHandler.Owns(r.poke, r.heap, other)
  {
    var s1 := if ev.Some? then OnNetEvent(s, ev.value, env, now).0 else s;
    if ev.Some? {
      NetEventOwns(s, ev.value, env, now, other);
    } else {
      assert other + multiset{} == other;
    }
    var s2 := if g.Some? then OnGesture(s1, g.value, env, gestureNow).0 else s1;
    if g.Some? {
      GestureOwns(s1, g.value, env, gestureNow, other);
    }
    TickOwns(s2, env, tickNow, other);
  }

  // -----------------------------------------------------------------------
  // Bitmap dimensions
  // -----------------------------------------------------------------------

  /** Every bitmap the poke state keeps, live or in history, covers the bytes its dimensions say. */
  predicate Fits(s: System) {
    PokeHandler.LiveFits(s.poke) && PokeHandler.HistoryFits(s.poke)
  }

  lemma NetEventFits(s: System, e: NetworkEvent, env: Env, now: Clock.Millis)
    requires Fine(s) && Accepts(s, e) && Fits(s)
    ensures Fits(OnNetEvent(s, e, env, now).0)
  {
    if e.kind == Poke && TakesPokes(s.d.state) && !KeepsCustomMessage(s, e, env) {
      PokeHandler.HandlePokeFits(s.poke, s.heap, e.sender, e.text, now, env.timestamp);
    } else if e.kind == PokeBitmap && TakesPokes(s.d.state) {
      PokeHandler.HandlePokeBitmapFromPtrsFits(s.poke, s.heap, e.sender, e.text,
        e.senderBmp, e.senderBmpWidth, e.senderBmpLen, e.textBmp, e.textBmpWidth, e.textBmpLen,
        now, env.timestamp, env.mallocOk.0, env.mallocOk.1);
    }
  }

  lemma GestureFits(s: System, g: GestureType, env: Env, now: Clock.Millis)
    requires Fine(s) && Fits(s)
    ensures Fits(OnGesture(s, g, env, now).0)
  {
  }

  lemma TickFits(s: System, env: Env, now: Clock.Millis)
    requires Fine(s) && Fits(s)
    ensures Fits(Tick(s, env, now).0)
  {
  }

  /** A pass of the loop keeps every kept bitmap covering its dimensions. */
  lemma StepFits(s: System, ev: Option<NetworkEvent>, g: Option<GestureType>, env: Env,
                 now: Clock.Millis, gestureNow: Clock.Millis, tickNow: Clock.Millis)
    requires Fine(s) && (ev.Some? ==> Accepts(s, ev.value)) && Fits(s)
    ensures Fits(Step(s, ev, g, env, now, gestureNow, tickNow).0)
  {
    var s1 := if ev.Some? then OnNetEvent(s, ev.value, env, now).0 else s;
    if ev.Some? {
      NetEventFits(s, ev.value, env, now);
    }
    var s2 := if g.Some? then OnGesture(s1, g.value, env, gestureNow).0 else s1;
    if g.Some? {
      GestureFits(s1, g.value, env, gestureNow);
    }
    TickFits(s2, env, tickNow);
  }

  // -----------------------------------------------------------------------
  // Where the task can return to
  // -----------------------------------------------------------------------

  /** The states a mute toggle is started from. */
  predicate MuteOrigin(st: DisplayState) {
    st == GifPlayback || st == HistoryTime || st == HistoryPoke
  }

  /** Showing a history entry, or muting on top of one. */
  predicate Browsing(d: Display) {
    d.state == HistoryPoke || (d.state == MuteFeedback && d.prevState == HistoryPoke)
  }

  /**
   * The task's own consistency: mute feedback always has a state to go back
   * to, the overlay flag and its message go together, and a browsed history
   * index lies within the ring and within the records kept (the first,
   * which shows "No Pokes" when there are none, excepted).
   */
  predicate Sane(s: System) {
    && (s.d.state == MuteFeedback ==> MuteOrigin(s.d.prevState))
    && (s.d.offlineShown <==> s.d.offlineMsg.Some?)
    && (Browsing(s.d) ==>
          s.d.historyIndex < PokeHandler.POKE_HISTORY_SIZE && (s.d.historyIndex == 0 || s.d.historyIndex < s.poke.count))
  }

  lemma BootSane(s: System, env: Env, now: Clock.Millis)
    requires Fine(s) && (s.d.offlineShown <==> s.d.offlineMsg.Some?)
    ensures Sane(Boot(s, env, now).0)
  {
  }

  lemma PokeEventSane(s: System, e: NetworkEvent, env: Env, now: Clock.Millis)
    requires Fine(s) && Accepts(s, e) && Sane(s) && (e.kind == Poke || e.kind == PokeBitmap)
    ensures Sane(OnNetEvent(s, e, env, now).0)
  {
    var r := OnNetEvent(s, e, env, now).0;
    if TakesPokes(s.d.state) && (e.kind == PokeBitmap || !KeepsCustomMessage(s, e, env)) {
      assert r.d == EnterState(s.d, PokeDisplay, now);
    } else {
      assert r.d == s.d && r.poke == s.poke;
    }
  }

  lemma OtherEventSane(s: System, e: NetworkEvent, env: Env, now: Clock.Millis)
    requires Fine(s) && Accepts(s, e) && Sane(s) && e.kind != Poke && e.kind != PokeBitmap
    ensures Sane(OnNetEvent(s, e, env, now).0)
  {
  }

  lemma NetEventSane(s: System, e: NetworkEvent, env: Env, now: Clock.Millis)
    requires Fine(s) && Accepts(s, e) && Sane(s)
    ensures Sane(OnNetEvent(s, e, env, now).0)
  {
    if e.kind == Poke || e.kind == PokeBitmap {
      PokeEventSane(s, e, env, now);
    } else {
      OtherEventSane(s, e, env, now);
    }
  }

  /** In playback a gesture is handled by the playback switch. */
  lemma PlaybackDispatch(s: System, g: GestureType, env: Env, now: Clock.Millis)
    requires Fine(s) && s.d.state == GifPlayback
    ensures OnGesture(s, g, env, now).0 == PlaybackGesture(s, g, env, now).0
  {
  }

  /** On the clock screen a gesture is handled by the clock screen's switch. */
  lemma HistoryTimeDispatch(s: System, g: GestureType, env: Env, now: Clock.Millis)
    requires Fine(s) && s.d.state == HistoryTime
    ensures OnGesture(s, g, env, now).0 == HistoryTimeGesture(s, g, env, now).0
  {
  }

  /** On a history entry a gesture is handled by the history switch. */
  lemma HistoryPokeDispatch(s: System, g: GestureType, env: Env, now: Clock.Millis)
    requires Fine(s) && s.d.state == HistoryPoke
    ensures OnGesture(s, g, env, now).0 == HistoryPokeGesture(s, g, env, now).0
  {
  }

  lemma PlaybackGestureSane(s: System, g: GestureType, env: Env, now: Clock.Millis)
    requires Fine(s) && Sane(s) && s.d.state == GifPlayback
    ensures Sane(OnGesture(s, g, env, now).0)
  {
    PlaybackDispatch(s, g, env, now);
    var r := PlaybackGesture(s, g, env, now).0;
    assert Sane(r) by {
      assert r.d.offlineShown == s.d.offlineShown && r.d.offlineMsg == s.d.offlineMsg;
      assert r.d.state == MuteFeedback ==> r.d.prevState == GifPlayback;
      assert r.d.state != HistoryPoke;
    }
  }

  lemma HistoryTimeGestureSane(s: System, g: GestureType, env: Env, now: Clock.Millis)
    requires Fine(s) && Sane(s) && s.d.state == HistoryTime
    ensures Sane(OnGesture(s, g, env, now).0)
  {
    HistoryTimeDispatch(s, g, env, now);
    var r := HistoryTimeGesture(s, g, env, now).0;
    assert Sane(r) by {
      assert r.d.offlineShown == s.d.offlineShown && r.d.offlineMsg == s.d.offlineMsg;
      assert r.d.state == MuteFeedback ==> r.d.prevState == HistoryTime;
      assert r.d.state == HistoryPoke ==> r.d.historyIndex == 0;
    }
  }

  lemma HistoryPokeGestureSane(s: System, g: GestureType, env: Env, now: Clock.Millis)
    requires Fine(s) && Sane(s) && s.d.state == HistoryPoke
    ensures Sane(OnGesture(s, g, env, now).0)
  {
    HistoryPokeDispatch(s, g, env, now);
    var r := HistoryPokeGesture(s, g, env, now).0;
    assert Sane(r) by {
      assert r.d.offlineShown == s.d.offlineShown && r.d.offlineMsg == s.d.offlineMsg;
      assert r.d.state == MuteFeedback ==> r.d.prevState == HistoryPoke && r.d.historyIndex == s.d.historyIndex;
    }
  }

  /**
   * Outside playback and history a gesture either leaves the display as it
   * is or returns to playback (Wi-Fi setup only flips its own QR flag).
   */
  lemma OtherGestureStays(s: System, g: GestureType, env: Env, now: Clock.Millis)
    requires Fine(s) && !MuteOrigin(s.d.state)
    ensures var r := OnGesture(s, g, env, now).0;
            || r.d == s.d.(showQr := r.d.showQr)
            || r.d == EnterState(s.d, GifPlayback, now)
  {
    if s.d.state == WifiSetup {
      assert OnGesture(s, g, env, now).0.d == WifiSetupGesture(s.d, g, env).0;
    }
  }

  lemma OtherGestureSane(s: System, g: GestureType, env: Env, now: Clock.Millis)
    requires Fine(s) && Sane(s) && !MuteOrigin(s.d.state)
    ensures Sane(OnGesture(s, g, env, now).0)
  {
    OtherGestureStays(s, g, env, now);
    var r := OnGesture(s, g, env, now).0;
    assert Sane(r) by {
      assert r.d.offlineShown == s.d.offlineShown && r.d.offlineMsg == s.d.offlineMsg;
      assert r.d.state == s.d.state || r.d.state == GifPlayback;
      assert r.d.state == MuteFeedback ==> r.d.prevState == s.d.prevState;
    }
  }

  lemma GestureSane(s: System, g: GestureType, env: Env, now: Clock.Millis)
    requires Fine(s) && Sane(s)
    ensures Sane(OnGesture(s, g, env, now).0)
  {
    match s.d.state
    case HistoryTime => HistoryTimeGestureSane(s, g, env, now);
    case HistoryPoke => HistoryPokeGestureSane(s, g, env, now);
    case GifPlayback => PlaybackGestureSane(s, g, env, now);
    case _ => OtherGestureSane(s, g, env, now);
  }

  lemma PlaybackTickSane(s: System, env: Env, now: Clock.Millis)
    requires Fine(s) && Sane(s) && s.d.state == GifPlayback
    ensures Sane(Tick(s, env, now).0)
  {
    assert Tick(s, env, now).0 == PlaybackTick(s, env, now).0;
  }

  lemma HistoryScrollSane(s: System, now: Clock.Millis)
    requires Fine(s) && Sane(s) && s.d.state == HistoryPoke
    ensures Sane(HistoryPokeTick(s, now).0)
  {
    var r := HistoryPokeTick(s, now).0;
    assert r.d.state == HistoryPoke ==> r.d.historyIndex == s.d.historyIndex && r.poke == s.poke;
    assert r.d.offlineShown == s.d.offlineShown && r.d.offlineMsg == s.d.offlineMsg;
  }

  lemma HistoryPokeTickSane(s: System, env: Env, now: Clock.Millis)
    requires Fine(s) && Sane(s) && s.d.state == HistoryPoke
    ensures Sane(Tick(s, env, now).0)
  {
    assert Tick(s, env, now).0 == HistoryPokeTick(s, now).0;
    HistoryScrollSane(s, now);
  }

  lemma MuteTickSane(s: System, env: Env, now: Clock.Millis)
    requires Fine(s) && Sane(s) && s.d.state == MuteFeedback
    ensures Sane(Tick(s, env, now).0)
  {
    var r := Tick(s, env, now).0;
    assert r.d.state == HistoryPoke ==> r.d.historyIndex == s.d.historyIndex && r.poke == s.poke;
  }

  lemma OtherTickSane(s: System, env: Env, now: Clock.Millis)
    requires Fine(s) && Sane(s) && s.d.state != GifPlayback && s.d.state != HistoryPoke && s.d.state != MuteFeedback
    ensures Sane(Tick(s, env, now).0)
  {
    if s.d.state == WifiSetup {
      WifiSetupTickSane(s, env, now);
    } else if s.d.state == PokeDisplay {
      PokeTickSane(s, env, now);
    } else if s.d.state == ConnectedInfo {
      ConnectedInfoTickSane(s, env, now);
    } else {
      TimedTickSane(s, env, now);
    }
  }

  lemma WifiSetupTickSane(s: System, env: Env, now: Clock.Millis)
    requires Fine(s) && Sane(s) && s.d.state == WifiSetup
    ensures Sane(Tick(s, env, now).0)
  {
    assert Tick(s, env, now).0 == s.(d := WifiSetupTick(s.d, env, now).0);
  }

  lemma PokeTickSane(s: System, env: Env, now: Clock.Millis)
    requires Fine(s) && Sane(s) && s.d.state == PokeDisplay
    ensures Sane(Tick(s, env, now).0)
  {
    var t := Tick(s, env, now).0;
    assert t.d == s.d || t.d == EnterState(s.d, GifPlayback, now) by {
      assert t == PokeTick(s, now).0;
    }
    SaneOutsideHistory(s, t);
  }

  /** A state that is neither a history entry nor mute feedback is consistent when it keeps the overlay. */
  lemma SaneOutsideHistory(s: System, t: System)
    requires Sane(s)
    requires t.d.state != HistoryPoke && t.d.state != MuteFeedback
    requires t.d.offlineShown == s.d.offlineShown && t.d.offlineMsg == s.d.offlineMsg
    ensures Sane(t)
  {
  }

  lemma ConnectedInfoTickSane(s: System, env: Env, now: Clock.Millis)
    requires Fine(s) && Sane(s) && s.d.state == ConnectedInfo
    ensures Sane(Tick(s, env, now).0)
  {
    assert Tick(s, env, now).0 == ConnectedInfoTick(s, env, now);
  }

  /** The remaining states either stay put or return to playback. */
  lemma TimedTickSane(s: System, env: Env, now: Clock.Millis)
    requires Fine(s) && Sane(s)
    requires s.d.state in {BootAnim, ClaimPrompt, HistoryTime, OfflineStatus}
    ensures Sane(Tick(s, env, now).0)
  {
    var r := Tick(s, env, now).0;
    assert r == s || r == s.(d := EnterState(s.d, GifPlayback, now));
  }

  lemma TickSane(s: System, env: Env, now: Clock.Millis)
    requires Fine(s) && Sane(s)
    ensures Sane(Tick(s, env, now).0)
  {
    match s.d.state
    case GifPlayback => PlaybackTickSane(s, env, now);
    case HistoryPoke => HistoryPokeTickSane(s, env, now);
    case MuteFeedback => MuteTickSane(s, env, now);
    case _ => OtherTickSane(s, env, now);
  }

  /** A pass of the loop keeps the task consistent. */
  lemma StepSane(s: System, ev: Option<NetworkEvent>, g: Option<GestureType>, env: Env,
                 now: Clock.Millis, gestureNow: Clock.Millis, tickNow: Clock.Millis)
    requires Fine(s) && (ev.Some? ==> Accepts(s, ev.value)) && Sane(s)
    ensures Sane(Step(s, ev, g, env, now, gestureNow, tickNow).0)
  {
    var s1 := if ev.Some? then OnNetEvent(s, ev.value, env, now).0 else s;
    if ev.Some? {
      NetEventSane(s, ev.value, env, now);
    }
    var s2 := if g.Some? then OnGesture(s1, g.value, env, gestureNow).0 else s1;
    if g.Some? {
      GestureSane(s1, g.value, env, gestureNow);
    }
    TickSane(s2, env, tickNow);
  }

  /**
   * Mute feedback goes back to the state it was entered from; the fallback
   * to playback for a feedback entered from itself is never taken.
   */
  lemma MuteFeedbackReturns(s: System, env: Env, now: Clock.Millis)
    requires Fine(s) && Sane(s) && s.d.state == MuteFeedback
    requires Clock.Elapsed(now, s.d.entryMs) >= MUTE_FEEDBACK_MS
    ensures s.d.prevState != MuteFeedback
    ensures Tick(s, env, now).0.d.state == s.d.prevState
  {
  }

  /**
   * A long press in playback or history mutes or unmutes, and two seconds
   * later the task is back where the press happened, with the new volume.
   */
  lemma MuteRoundTrip(s: System, env: Env, pressed: Clock.Millis, now: Clock.Millis)
    requires Fine(s) && MuteOrigin(s.d.state)
    requires Clock.Elapsed(now, pressed) >= MUTE_FEEDBACK_MS
    ensures var m := OnGesture(s, LongPress, env, pressed).0;
            && m.d.state == MuteFeedback
            && Tick(m, env, now).0.d.state == s.d.state
            && Tick(m, env, now).0.settings == ToggleMute(s.settings).0
  {
    LongPressMutes(s, env, pressed);
    MuteExpires(s, env, pressed, now);
  }

  /** In each state a mute toggle is started from, a long press is exactly the toggle. */
  lemma LongPressMutes(s: System, env: Env, pressed: Clock.Millis)
    requires Fine(s) && MuteOrigin(s.d.state)
    ensures OnGesture(s, LongPress, env, pressed).0 == MuteToggle(s, pressed).0
  {
    if s.d.state == GifPlayback {
      PlaybackDispatch(s, LongPress, env, pressed);
    } else if s.d.state == HistoryTime {
      HistoryTimeDispatch(s, LongPress, env, pressed);
      MuteToggleIgnoresEntry(s, pressed);
    } else {
      HistoryPokeDispatch(s, LongPress, env, pressed);
      MuteToggleIgnoresEntry(s, pressed);
    }
  }

  /** The toggle restarts the entry time, so one restarted just before makes no difference. */
  lemma MuteToggleIgnoresEntry(s: System, now: Clock.Millis)
    requires Fine(s)
    ensures MuteToggle(s.(d := s.d.(entryMs := now)), now).0 == MuteToggle(s, now).0
  {
    var d0 := s.d.(entryMs := now);
    assert EnterState(d0, MuteFeedback, now) == EnterState(s.d, MuteFeedback, now);
  }

  /** The feedback of a toggle ends two seconds later in the state it was started from. */
  lemma MuteExpires(s: System, env: Env, pressed: Clock.Millis, now: Clock.Millis)
    requires Fine(s) && MuteOrigin(s.d.state)
    requires Clock.Elapsed(now, pressed) >= MUTE_FEEDBACK_MS
    ensures var m := MuteToggle(s, pressed).0;
            Tick(m, env, now).0 == m.(d := EnterState(m.d, s.d.state, now))
  {
  }

  /**
   * A claim request is settled either way back in playback: a long press
   * confirms it, and without one the first tick after 30 s rejects it.
   */
  lemma ClaimSettles(s: System, e: NetworkEvent, env: Env, asked: Clock.Millis, now: Clock.Millis)
    requires Fine(s) && Accepts(s, e) && e.kind == ClaimRequest
    ensures var c := OnNetEvent(s, e, env, asked).0;
            && c.d.state == ClaimPrompt
            && OnGesture(c, LongPress, env, now).0.d.state == GifPlayback
            && SendClaimConfirm in OnGesture(c, LongPress, env, now).1
            && (Clock.Elapsed(now, asked) > CLAIM_TIMEOUT_MS ==>
                  Tick(c, env, now).0.d.state == GifPlayback && SendClaimReject in Tick(c, env, now).1)
            && (Clock.Elapsed(now, asked) <= CLAIM_TIMEOUT_MS ==> Tick(c, env, now) == (c, []))
  {
  }
}
