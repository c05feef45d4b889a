/**
 * The display task (display_task.cpp): the state machine that owns the
 * screen. Each pass of its loop takes at most one network event, then at
 * most one gesture, then runs the tick of the current state.
 *
 * The task's static variables are the `Display` record; together with the
 * poke handler, the heap, the settings and the animation player they form
 * the `System` each step maps to a new one. What the task reads from other
 * tasks during a pass (the connectivity bits, the outage start kept by the
 * network task, the filesystem, `random()` draws, `time()`) is the `Env`
 * parameter, and each phase takes the `millis()` reading it uses. Drawing,
 * sound and MQTT publishing are returned as `Out` effects.
 */
module DisplayTask {
  import opened Wrappers
  import opened AppState
  import opened PokeBitmap
  import Clock
  import Storage
  import ShuffleBag
  import GifFiles
  import GifPlayer
  import Settings
  import PokeHandler
  import NetworkTask

  const CONNECTED_INFO_MS: nat := 3000
  const CLAIM_TIMEOUT_MS: nat := 30000
  const HISTORY_IDLE_MS: nat := 3000
  const MUTE_FEEDBACK_MS: nat := 2000
  const OFFLINE_OVERLAY_MS: nat := 2000
  const UPDATE_PROMPT_MS: nat := 8000
  /** The countdown length the source uses; see `AP_TIMEOUT_MS`. */
  const WIFI_AP_TIMEOUT_MS: nat := 15000
  const WIFI_AP_PROGRESS_LEN: nat := 18
  /** The `uint8_t` marker for "nothing drawn yet" of the progress throttle. */
  const UNSET: nat := 0xFF

  /**
   * The countdown length this model uses: the network task's outage length
   * after which the access-point portal starts, which the source's constant
   * is meant to match.
   */
  const AP_TIMEOUT_MS: nat := NetworkTask.WIFI_RECONNECT_TIMEOUT_MS

  /** The display task's static variables. */
  datatype Display = Display(
    state: DisplayState,
    prevState: DisplayState,
    entryMs: Clock.Millis,
    historyIndex: nat,               // uint8_t
    historyScroll: int,              // int16_t
    historyLastScrollMs: Clock.Millis,
    textSenderWidth: nat,            // uint16_t
    textMessageWidth: nat,           // uint16_t
    textSenderScroll: int,           // int16_t
    textMessageScroll: int,          // int16_t
    offlineShown: bool,
    offlineStartMs: Clock.Millis,
    offlineMsg: Option<string>,
    serverOfflineNotified: bool,
    showQr: bool,
    portalDrawn: bool,
    lastBar: nat,                    // uint8_t
    lastSec: nat,                    // uint8_t
    updatePromptStartMs: Clock.Millis)

  /** The static initialisers. */
  const INITIAL: Display :=
    Display(BootAnim, GifPlayback, 0, 0, 0, 0, 0, 0, 0, 0, false, 0, None, false, true, false, UNSET, UNSET, 0)

  /** Everything a display step reads and writes. */
  datatype System = System(
    d: Display,
    poke: PokeHandler.PokeState,
    heap: Heap,
    settings: Settings.Settings,
    player: GifPlayer.Player,
    updateAvailable: bool)

  /**
   * What one pass reads from the rest of the firmware: the connectivity
   * bits and the portal flag, the outage start the network task recorded,
   * the live poke's message, the text widths of a history entry, the
   * filesystem, the `random()` draws of the shuffle bag and of the player,
   * the wall-clock timestamp a poke is recorded with, and whether the two
   * history copies of a bitmap poke could be allocated.
   */
  datatype Env = Env(
    bits: bv32,
    portalActive: bool,
    wifiLostMs: Clock.Millis,
    currentMessage: Option<string>,
    historyTextWidths: (nat, nat),
    fs: Storage.Fs,
    bagDraws: ShuffleBag.Draws,
    pickDraws: ShuffleBag.Draws,
    tickDraws: ShuffleBag.Draws,
    timestamp: int,
    mallocOk: (bool, bool))

  predicate WifiUp(env: Env) {
    env.bits & WIFI_CONNECTED_BIT != 0
  }

  /** The screens the task draws. */
  datatype View =
    | ConnectedView
    | WifiQr
    | WifiCredentials
    | Connecting
    | CountdownView(sec: nat, filled: nat)
    | OfflineView(msg: string)
    | ClaimView(sender: string)
    | ClaimedView
    | ClaimTimeoutView
    | MutedView
    | UnmutedView
    | ClockView
    | NoPokesView
    | HistoryBitmapView(index: nat, scroll: int)
    | HistoryTextView(index: nat, senderScroll: int, messageScroll: int)
    | PokeScrollView
    | UpdatePromptView

  /** The effects of a step besides the new state. */
  datatype Out =
    | Show(view: View)
    | DrawFrame(frame: GifPlayer.Render)
    | SendClaimConfirm
    | SendClaimReject
    | PublishMute(muted: bool)
    | PublishAnimation(name: string)
    | PublishTouch(gesture: GestureType)

  /** The volumes are `uint8_t` values. */
  predicate VolumesFit(st: Settings.Settings) {
    st.buzzerVolume < 0x100 && st.savedVolume < 0x100
  }

  /**
   * What every step keeps and needs: the poke state's buffers are live,
   * each once; the allocator is consistent; the volumes fit their type;
   * the player is well formed.
   */
  ghost predicate Fine(s: System) {
    && PokeHandler.Held(s.poke, s.heap) && s.heap.Wf()
    && VolumesFit(s.settings)
    && GifPlayer.Wf(s.player)
  }

  // -----------------------------------------------------------------------
  // State changes
  // -----------------------------------------------------------------------

  /** `enterState`: the old state becomes the previous one and the entry time restarts. */
  function EnterState(d: Display, next: DisplayState, now: Clock.Millis): (r: Display)
    ensures r.state == next && r.prevState == d.state && r.entryMs == now
    ensures r.(state := d.state, prevState := d.prevState, entryMs := d.entryMs) == d
  {
    d.(prevState := d.state, state := next, entryMs := now)
  }

  // -----------------------------------------------------------------------
  // Wi-Fi setup countdown
  // -----------------------------------------------------------------------

  /** The seconds shown for `remaining` ms: `(remaining + 500) / 1000`, rounding to the nearest second. */
  function Seconds(remaining: nat): (sec: nat)
    ensures sec * 1000 <= remaining + 500 < sec * 1000 + 1000
  {
    DivBracket(remaining + 500, 1000);
    (remaining + 500) / 1000
  }

  /**
   * The cells filled after `elapsed` ms of a `timeout` ms countdown:
   * `elapsed * 19 / timeout` in `unsigned long` arithmetic, at most 18.
   * Until the product wraps, the bar is full from 18/19 of the timeout on
   * and otherwise shows how many 19ths have passed.
   */
  function Cells(elapsed: nat, timeout: nat): (c: nat)
    requires timeout > 0
    ensures c <= WIFI_AP_PROGRESS_LEN
    ensures elapsed * (WIFI_AP_PROGRESS_LEN + 1) < Clock.WRAP ==>
              || (c == WIFI_AP_PROGRESS_LEN && WIFI_AP_PROGRESS_LEN * timeout <= elapsed * (WIFI_AP_PROGRESS_LEN + 1))
              || (c * timeout <= elapsed * (WIFI_AP_PROGRESS_LEN + 1) < c * timeout + timeout)
  {
    var x := elapsed * (WIFI_AP_PROGRESS_LEN + 1);
    var y := x % Clock.WRAP;
    var q := y / timeout;
    DivBracket(y, timeout);
    assert x < Clock.WRAP ==> y == x;
    if q > WIFI_AP_PROGRESS_LEN then
      MulLe(WIFI_AP_PROGRESS_LEN, q, timeout);
      WIFI_AP_PROGRESS_LEN
    else q
  }

  /**
   * `showWifiConnectingProgress` for an outage of `elapsed` ms against a
   * countdown of `timeout` ms: the seconds left and the cells filled.
   */
  function Countdown(elapsed: nat, timeout: nat): (c: (nat, nat))
    requires timeout > 0
  {
    var remaining := if elapsed >= timeout then 0 else timeout - elapsed;
    (Seconds(remaining), Cells(elapsed, timeout))
  }

  /** `q = a / d` brackets `a` between `q * d` and `q * d + d`. */
  lemma DivBracket(a: nat, d: nat)
    requires d > 0
    ensures (a / d) * d <= a < (a / d) * d + d
  {
  }

  /** Division by a positive number is monotone. */
  lemma DivMono(a: nat, b: nat, d: nat)
    requires a <= b && d > 0
    ensures a / d <= b / d
  {
    DivBracket(a, d);
    DivBracket(b, d);
    if a / d > b / d {
      MulLe(b / d + 1, a / d, d);
    }
  }

  lemma MulLe(x: nat, y: nat, d: nat)
    requires x <= y
    ensures x * d <= y * d
  {
  }

  /** The Wi-Fi setup text: "Connecting" before an outage is recorded, the countdown after. */
  function Progress(lostMs: Clock.Millis, now: Clock.Millis, timeout: nat): (v: View)
    requires timeout > 0
    ensures lostMs == 0 <==> v == Connecting
  {
    if lostMs == 0 then Connecting
    else
      var (sec, filled) := Countdown(Clock.Elapsed(now, lostMs), timeout);
      CountdownView(sec, filled)
  }

  /** At the start of an outage the countdown shows the whole timeout and an empty bar. */
  lemma CountdownStarts(timeout: nat)
    requires timeout > 0
    ensures Countdown(0, timeout) == ((timeout + 500) / 1000, 0)
  {
  }

  /** Once the timeout has passed, the countdown shows 0 s and a full bar (until `elapsed * 19` wraps). */
  lemma CountdownEnds(elapsed: nat, timeout: nat)
    requires timeout > 0 && timeout <= elapsed
    requires elapsed * (WIFI_AP_PROGRESS_LEN + 1) < Clock.WRAP
    ensures Countdown(elapsed, timeout) == (0, WIFI_AP_PROGRESS_LEN)
  {
    MulLe(timeout, elapsed, WIFI_AP_PROGRESS_LEN);
    CellsFull(elapsed, timeout);
  }

  /** From 18/19 of the timeout on, until the product wraps, all 18 cells are filled. */
  lemma CellsFull(elapsed: nat, timeout: nat)
    requires timeout > 0
    requires WIFI_AP_PROGRESS_LEN * timeout <= elapsed * (WIFI_AP_PROGRESS_LEN + 1) < Clock.WRAP
    ensures Cells(elapsed, timeout) == WIFI_AP_PROGRESS_LEN
  {
    var x := elapsed * (WIFI_AP_PROGRESS_LEN + 1);
    assert x % Clock.WRAP == x;
    GifPlayer.MulLeDiv(WIFI_AP_PROGRESS_LEN, x, timeout);
  }

  /** As the outage goes on, the seconds never go up and the bar never shrinks. */
  lemma CountdownMonotone(e1: nat, e2: nat, timeout: nat)
    requires timeout > 0 && e1 <= e2
    requires e2 * (WIFI_AP_PROGRESS_LEN + 1) < Clock.WRAP
    ensures Countdown(e2, timeout).0 <= Countdown(e1, timeout).0
    ensures Countdown(e1, timeout).1 <= Countdown(e2, timeout).1
  {
    var r1 := if e1 >= timeout then 0 else timeout - e1;
    var r2 := if e2 >= timeout then 0 else timeout - e2;
    DivMono(r2 + 500, r1 + 500, 1000);
    CellsMonotone(e1, e2, timeout);
  }

  lemma CellsMonotone(e1: nat, e2: nat, timeout: nat)
    requires timeout > 0 && e1 <= e2
    requires e2 * (WIFI_AP_PROGRESS_LEN + 1) < Clock.WRAP
    ensures Cells(e1, timeout) <= Cells(e2, timeout)
  {
    var x1, x2 := e1 * (WIFI_AP_PROGRESS_LEN + 1), e2 * (WIFI_AP_PROGRESS_LEN + 1);
    assert x1 % Clock.WRAP == x1 && x2 % Clock.WRAP == x2;
    DivMono(x1, x2, timeout);
  }

  /** The countdown shows 0 s only in the last half second before the timeout, or after it. */
  lemma CountdownZeroLate(elapsed: nat, timeout: nat)
    requires timeout > 0
    ensures Countdown(elapsed, timeout).0 == 0 ==> elapsed + 500 > timeout
  {
  }

  /**
   * The countdown as the source computes it, against 15 s: after an outage
   * of 20 s it already shows "AP in 0s" and a full bar, while the network
   * task, which starts the portal only after 30 s, does not start it.
   */
  lemma CountdownEndsBeforePortal()
    ensures Countdown(20000, WIFI_AP_TIMEOUT_MS) == (0, WIFI_AP_PROGRESS_LEN)
    ensures var n := NetworkTask.Net(false, 1000, false, false, false, 0, 0, 0);
            && NetworkTask.Consistent(n)
            && NetworkTask.WifiMonitor(n, false, 21000, false, true).1.portal == NetworkTask.PortalUnchanged
  {
    CountdownEnds(20000, WIFI_AP_TIMEOUT_MS);
  }

  /**
   * With the countdown measured against the network task's timeout, the
   * pass that starts the portal finds the countdown at 0 s with a full bar.
   */
  lemma CountdownEndsAtPortal(n: NetworkTask.Net, now: Clock.Millis, storedZoneEmpty: bool, queued: bool)
    requires NetworkTask.WifiMonitor(n, false, now, storedZoneEmpty, queued).1.portal == NetworkTask.StartPortal
    requires var lost := NetworkTask.WifiMonitor(n, false, now, storedZoneEmpty, queued).0.wifiLostMs;
             Clock.Elapsed(now, lost) * (WIFI_AP_PROGRESS_LEN + 1) < Clock.WRAP
    ensures var lost := NetworkTask.WifiMonitor(n, false, now, storedZoneEmpty, queued).0.wifiLostMs;
            Progress(lost, now, AP_TIMEOUT_MS) == CountdownView(0, WIFI_AP_PROGRESS_LEN)
  {
    var lost := NetworkTask.WifiMonitor(n, false, now, storedZoneEmpty, queued).0.wifiLostMs;
    CountdownEnds(Clock.Elapsed(now, lost), AP_TIMEOUT_MS);
  }

  /**
   * The throttle key of the Wi-Fi setup tick: the seconds and cells cast
   * to `uint8_t` (the cast comes before the clamp to 18), or 0xFF for both
   * while no outage is recorded.
   */
  function ProgressKey(lostMs: Clock.Millis, now: Clock.Millis, timeout: nat): (k: (nat, nat))
    requires timeout > 0
    ensures k.0 < 0x100 && k.1 < 0x100
    ensures lostMs == 0 ==> k == (UNSET, UNSET)
  {
    if lostMs > 0 then
      var elapsed := Clock.Elapsed(now, lostMs);
      var remaining := if elapsed >= timeout then 0 else timeout - elapsed;
      var bar := U8((elapsed * (WIFI_AP_PROGRESS_LEN + 1)) % Clock.WRAP / timeout);
      (U8((remaining + 500) / 1000), if bar > WIFI_AP_PROGRESS_LEN then WIFI_AP_PROGRESS_LEN else bar)
    else (UNSET, UNSET)
  }

  /**
   * For the first 6.7 minutes of an outage the throttle key is exactly what
   * the countdown shows, so the screen is redrawn exactly when the text or
   * the bar changes.
   */
  lemma ProgressKeyIsCountdown(lostMs: Clock.Millis, now: Clock.Millis, timeout: nat)
    requires lostMs > 0
    requires timeout == WIFI_AP_TIMEOUT_MS || timeout == AP_TIMEOUT_MS
    requires Clock.Elapsed(now, lostMs) * (WIFI_AP_PROGRESS_LEN + 1) < 0x100 * timeout
    ensures ProgressKey(lostMs, now, timeout) == Countdown(Clock.Elapsed(now, lostMs), timeout)
  {
    var e := Clock.Elapsed(now, lostMs);
    var x := e * (WIFI_AP_PROGRESS_LEN + 1);
    DivBracket(x, timeout);
  }

  // -----------------------------------------------------------------------
  // Volume
  // -----------------------------------------------------------------------

  /**
   * `doMuteToggle`'s volume change. A sounding buzzer is muted and its
   * volume saved; a muted one gets the saved volume back, or 100 when none
   * was saved. The flag is the new mute state.
   */
  function ToggleMute(st: Settings.Settings): (r: (Settings.Settings, bool))
    requires VolumesFit(st)
    ensures VolumesFit(r.0) && r.0.buzzerVolume <= Settings.MAX_VOLUME
    ensures r.1 <==> st.buzzerVolume != 0
    ensures r.1 ==> r.0.buzzerVolume == 0 && r.0.savedVolume == st.buzzerVolume
    ensures !r.1 ==> r.0.buzzerVolume != 0 && r.0.savedVolume == st.savedVolume
    ensures r.0.(buzzerVolume := st.buzzerVolume, savedVolume := st.savedVolume) == st
  {
    if st.buzzerVolume == 0 then
      (Settings.SetBuzzerVolume(st, if st.savedVolume > 0 then st.savedVolume else Settings.MAX_VOLUME), false)
    else
      (Settings.SetBuzzerVolume(Settings.SetSavedVolume(st, st.buzzerVolume), 0), true)
  }

  /** Muting and unmuting by long presses brings the volume back; the saved volume is the one muted. */
  lemma ToggleMuteTwice(st: Settings.Settings)
    requires VolumesFit(st) && 0 < st.buzzerVolume <= Settings.MAX_VOLUME
    ensures var (st1, muted1) := ToggleMute(st);
            var (st2, muted2) := ToggleMute(st1);
            muted1 && !muted2 && st2 == st.(savedVolume := st.buzzerVolume)
  {
  }

  /** Unmuting with no saved volume gives full volume. */
  lemma UnmuteWithoutSaved(st: Settings.Settings)
    requires VolumesFit(st) && st.buzzerVolume == 0 && st.savedVolume == 0
    ensures ToggleMute(st) == (st.(buzzerVolume := Settings.MAX_VOLUME), false)
  {
  }

  /**
   * The MQTT "mute" command: "ON" mutes, saving the volume only when the
   * buzzer was sounding; anything else unmutes to the saved volume, or 100.
   */
  function MqttMute(st: Settings.Settings, mute: bool): (r: Settings.Settings)
    requires VolumesFit(st)
    ensures VolumesFit(r)
    ensures mute ==> r.buzzerVolume == 0
    ensures mute ==> r.savedVolume == if st.buzzerVolume > 0 then st.buzzerVolume else st.savedVolume
    ensures !mute ==> r.buzzerVolume != 0 && r.savedVolume == st.savedVolume
    ensures r.(buzzerVolume := st.buzzerVolume, savedVolume := st.savedVolume) == st
  {
    if mute then
      var saved := if st.buzzerVolume > 0 then Settings.SetSavedVolume(st, st.buzzerVolume) else st;
      Settings.SetBuzzerVolume(saved, 0)
    else
      Settings.SetBuzzerVolume(st, if st.savedVolume > 0 then st.savedVolume else Settings.MAX_VOLUME)
  }

  /** A repeated "ON" keeps the volume saved by the first one. */
  lemma MqttMuteIdempotent(st: Settings.Settings)
    requires VolumesFit(st)
    ensures MqttMute(MqttMute(st, true), true) == MqttMute(st, true)
  {
  }

  /** "ON" then "OFF" brings the volume back. */
  lemma MqttMuteRestores(st: Settings.Settings)
    requires VolumesFit(st) && 0 < st.buzzerVolume <= Settings.MAX_VOLUME
    ensures MqttMute(MqttMute(st, true), false) == st.(savedVolume := st.buzzerVolume)
  {
  }
  // -----------------------------------------------------------------------
  // Network events
  // -----------------------------------------------------------------------

  /** Pokes are taken in every state but the claim prompt and the mute feedback. */
  predicate TakesPokes(state: DisplayState) {
    state != ClaimPrompt && state != MuteFeedback
  }

  /** A generic "Poke!" arriving while a poke with a message of its own is on screen. */
  predicate KeepsCustomMessage(s: System, e: NetworkEvent, env: Env) {
    && env.currentMessage.Some? && s.d.state == PokeDisplay
    && e.text == "Poke!" && env.currentMessage.value != "Poke!"
  }

  /**
   * An event the display can take: as the network task queues them, and
   * with its buffers live and not already held by the poke state.
   */
  ghost predicate Accepts(s: System, e: NetworkEvent) {
    NetworkTask.Deliverable(e) && e.OwnedMs() + PokeHandler.OwnedMs(s.poke) <= multiset(s.heap.live)
  }

  /** The heap outside the poke state and the event. */
  ghost function Rest(s: System, e: NetworkEvent): multiset<nat> {
    multiset(s.heap.live) - (e.OwnedMs() + PokeHandler.OwnedMs(s.poke))
  }

  lemma AcceptsOwns(s: System, e: NetworkEvent)
    requires Fine(s) && Accepts(s, e)
    ensures PokeHandler.Owns(s.poke, s.heap, Rest(s, e) + e.OwnedMs())
  {
    var x, o, live := e.OwnedMs(), PokeHandler.OwnedMs(s.poke), multiset(s.heap.live);
    assert forall y :: (o + ((live - (x + o)) + x))[y] == live[y];
  }

  /** The POKE event: ignored in two states and by the custom-message guard, otherwise shown and recorded. */
  function OnPoke(s: System, e: NetworkEvent, env: Env, now: Clock.Millis): (r: System)
    requires Fine(s)
    ensures Fine(r)
    ensures !TakesPokes(s.d.state) || KeepsCustomMessage(s, e, env) ==> r == s
    ensures TakesPokes(s.d.state) && !KeepsCustomMessage(s, e, env) ==>
              && r.d == EnterState(s.d, PokeDisplay, now)
              && (r.poke, r.heap) == PokeHandler.HandlePoke(s.poke, s.heap, e.sender, e.text, now, env.timestamp)
              && r.settings == s.settings && r.player == s.player && r.updateAvailable == s.updateAvailable
  {
    if !TakesPokes(s.d.state) || KeepsCustomMessage(s, e, env) then s
    else
      var (p', h') := PokeHandler.HandlePoke(s.poke, s.heap, e.sender, e.text, now, env.timestamp);
      PokeHandler.HeldIsOwns(s.poke, s.heap);
      PokeHandler.HandlePokeOwns(s.poke, s.heap, multiset(s.heap.live) - PokeHandler.OwnedMs(s.poke),
                                 e.sender, e.text, now, env.timestamp);
      s.(d := EnterState(s.d, PokeDisplay, now), poke := p', heap := h')
  }

  /** A taken POKE_BITMAP: the event's two buffers become the live poke's. */
  function TakePokeBitmap(s: System, e: NetworkEvent, env: Env, now: Clock.Millis): (r: System)
    requires Fine(s) && Accepts(s, e)
    ensures Fine(r)
    ensures && r.d == EnterState(s.d, PokeDisplay, now)
            && r.poke.active && r.poke.bitmapMode
            && r.poke.senderBmp == e.senderBmp && r.poke.textBmp == e.textBmp
            && r.settings == s.settings && r.player == s.player && r.updateAvailable == s.updateAvailable
  {
    TakenBitmapHeld(s, e, env, now);
    var (p', h') := PokeHandler.HandlePokeBitmapFromPtrs(s.poke, s.heap, e.sender, e.text,
      e.senderBmp, e.senderBmpWidth, e.senderBmpLen, e.textBmp, e.textBmpWidth, e.textBmpLen,
      now, env.timestamp, env.mallocOk.0, env.mallocOk.1);
    s.(d := EnterState(s.d, PokeDisplay, now), poke := p', heap := h')
  }

  /** A taken POKE_BITMAP meets `handlePokeBitmapFromPtrs`'s demands and leaves the heap holding the new poke state. */
  lemma TakenBitmapHeld(s: System, e: NetworkEvent, env: Env, now: Clock.Millis)
    requires Fine(s) && Accepts(s, e)
    ensures var x := Ms(e.senderBmp) + Ms(e.textBmp);
            && s.poke.Shape() && x + PokeHandler.OwnedMs(s.poke) <= multiset(s.heap.live) && s.heap.Wf()
            && (e.senderBmp.Some? ==> e.senderBmpLen <= |e.senderBmp.value.data|)
            && (e.textBmp.Some? ==> e.textBmpLen <= |e.textBmp.value.data|)
    ensures var (p', h') := PokeHandler.HandlePokeBitmapFromPtrs(s.poke, s.heap, e.sender, e.text,
              e.senderBmp, e.senderBmpWidth, e.senderBmpLen, e.textBmp, e.textBmpWidth, e.textBmpLen,
              now, env.timestamp, env.mallocOk.0, env.mallocOk.1);
            PokeHandler.Held(p', h') && h'.Wf()
  {
    AcceptsOwns(s, e);
    PokeHandler.HandlePokeBitmapFromPtrsOwns(s.poke, s.heap, Rest(s, e), e.sender, e.text,
      e.senderBmp, e.senderBmpWidth, e.senderBmpLen, e.textBmp, e.textBmpWidth, e.textBmpLen,
      now, env.timestamp, env.mallocOk.0, env.mallocOk.1);
  }

  /** An ignored POKE_BITMAP: both buffers are freed and nothing else changes. */
  function DropPokeBitmap(s: System, e: NetworkEvent): (r: System)
    requires Fine(s) && Accepts(s, e)
    ensures Fine(r)
    ensures r == s.(heap := r.heap)
    ensures r.heap.live == s.heap.live - e.Owned()
    ensures multiset(r.heap.live) == multiset(s.heap.live) - e.OwnedMs()
  {
    var h, sb, tb := s.heap, e.senderBmp, e.textBmp;
    PairHeld(sb, tb, PokeHandler.OwnedMs(s.poke), h.live);
    var h' := Free(Free(h, sb), tb);
    MsFreeTwoWithin(Ms(sb), Ms(tb), PokeHandler.OwnedMs(s.poke), multiset(h.live), multiset(h'.live));
    s.(heap := h')
  }

  /** The POKE_BITMAP event: taken or dropped as a POKE would be, without the custom-message guard. */
  function OnPokeBitmap(s: System, e: NetworkEvent, env: Env, now: Clock.Millis): (r: System)
    requires Fine(s) && Accepts(s, e)
    ensures Fine(r)
    ensures TakesPokes(s.d.state) ==>
              && r.d.state == PokeDisplay && r.poke.active && r.poke.bitmapMode
              && r.poke.senderBmp == e.senderBmp && r.poke.textBmp == e.textBmp
    ensures !TakesPokes(s.d.state) ==>
              r == s.(heap := r.heap) && r.heap.live == s.heap.live - e.Owned()
  {
    if TakesPokes(s.d.state) then TakePokeBitmap(s, e, env, now) else DropPokeBitmap(s, e)
  }

  /** The WIFI_STATUS event: a connection ends the setup screen; a loss shows the offline overlay during playback. */
  function OnWifiStatus(d: Display, connected: bool, now: Clock.Millis): (r: (Display, seq<Out>))
    ensures connected && d.state == WifiSetup ==> r == (EnterState(d, ConnectedInfo, now), [Show(ConnectedView)])
    ensures !connected && d.state == GifPlayback && !d.offlineShown ==>
              r == (d.(offlineShown := true, offlineStartMs := now, offlineMsg := Some("WiFi Offline")),
                    [Show(OfflineView("WiFi Offline"))])
    ensures !(connected && d.state == WifiSetup) && !(!connected && d.state == GifPlayback && !d.offlineShown) ==>
              r == (d, [])
  {
    if connected then
      if d.state == WifiSetup then (EnterState(d, ConnectedInfo, now), [Show(ConnectedView)]) else (d, [])
    else if d.state == GifPlayback && !d.offlineShown then
      (d.(offlineShown := true, offlineStartMs := now, offlineMsg := Some("WiFi Offline")),
       [Show(OfflineView("WiFi Offline"))])
    else (d, [])
  }

  /**
   * The WS_STATUS event: the first server loss during playback shows the
   * offline overlay, once until the server is back.
   */
  function OnWsStatus(d: Display, connected: bool, now: Clock.Millis): (r: (Display, seq<Out>))
    ensures r.0.state == d.state && r.0.prevState == d.prevState && r.0.entryMs == d.entryMs
    ensures connected ==> r == (d.(serverOfflineNotified := false), [])
    ensures !connected && d.state == GifPlayback && !d.serverOfflineNotified ==>
              && r.0.serverOfflineNotified && r.0.offlineShown && r.0.offlineMsg == Some("Server Offline")
              && r.1 == [Show(OfflineView("Server Offline"))]
    ensures !connected && (d.state != GifPlayback || d.serverOfflineNotified) ==> r == (d, [])
  {
    if !connected && d.state == GifPlayback && !d.serverOfflineNotified then
      (d.(serverOfflineNotified := true, offlineShown := true, offlineStartMs := now,
          offlineMsg := Some("Server Offline")),
       [Show(OfflineView("Server Offline"))])
    else if connected then (d.(serverOfflineNotified := false), [])
    else (d, [])
  }

  /** `gifPlayerNextShuffle`: the name handed out and the player with its bag moved on. */
  function NextShuffle(pl: GifPlayer.Player, env: Env): (r: (string, GifPlayer.Player))
    ensures r.1 == pl.(bag := r.1.bag)
    ensures (r.0, r.1.bag) == ShuffleBag.NextShuffle(pl.bag, GifPlayer.Listing(env.fs), env.pickDraws)
  {
    var (next, bag') := ShuffleBag.NextShuffle(pl.bag, GifPlayer.Listing(env.fs), env.pickDraws);
    (next, pl.(bag := bag'))
  }

  /**
   * The next shuffled animation, as on a tap or the MQTT "animation_next"
   * command: requested and published when the bag yields a name. It is the
   * player's own `Advance`.
   */
  function PlayNext(pl: GifPlayer.Player, env: Env): (r: (GifPlayer.Player, seq<Out>))
    requires GifPlayer.Wf(pl)
    ensures GifPlayer.Wf(r.0)
    ensures r.0 == GifPlayer.Advance(pl, env.fs, env.pickDraws)
    ensures var next := ShuffleBag.NextShuffle(pl.bag, GifPlayer.Listing(env.fs), env.pickDraws).0;
            r.1 == if next == "" then [] else [PublishAnimation(next)]
  {
    var (next, q) := NextShuffle(pl, env);
    if |next| > 0 then (GifPlayer.SetFile(q, next), [PublishAnimation(next)]) else (q, [])
  }

  /** The MQTT_COMMAND event: "mute" sets the mute state from the payload, "animation_next" moves on. */
  function OnMqttCommand(s: System, e: NetworkEvent, env: Env): (r: (System, seq<Out>))
    requires Fine(s)
    ensures Fine(r.0)
    ensures r.0 == s.(settings := r.0.settings, player := r.0.player)
    ensures e.sender == "mute" ==>
              r == (s.(settings := MqttMute(s.settings, e.text == "ON")), [PublishMute(e.text == "ON")])
    ensures e.sender == "animation_next" ==> r.0.player == GifPlayer.Advance(s.player, env.fs, env.pickDraws)
    ensures e.sender != "mute" && e.sender != "animation_next" ==> r == (s, [])
  {
    if e.sender == "mute" then
      var mute := e.text == "ON";
      (s.(settings := MqttMute(s.settings, mute)), [PublishMute(mute)])
    else if e.sender == "animation_next" then
      var (pl, outs) := PlayNext(s.player, env);
      (s.(player := pl), outs)
    else (s, [])
  }

  /** The network-event switch of the task loop. */
  function OnNetEvent(s: System, e: NetworkEvent, env: Env, now: Clock.Millis): (r: (System, seq<Out>))
    requires Fine(s) && Accepts(s, e)
    ensures Fine(r.0)
    ensures e.kind == ClaimRequest ==>
              r == (s.(d := EnterState(s.d, ClaimPrompt, now)), [Show(ClaimView(e.sender))])
    ensures e.kind != Poke && e.kind != PokeBitmap ==> r.0.poke == s.poke && r.0.heap == s.heap
    ensures e.kind == Poke || e.kind == PokeBitmap ==> r.1 == []
  {
    match e.kind
    case Poke => (OnPoke(s, e, env, now), [])
    case PokeBitmap => (OnPokeBitmap(s, e, env, now), [])
    case ClaimRequest => (s.(d := EnterState(s.d, ClaimPrompt, now)), [Show(ClaimView(e.sender))])
    case WifiStatus =>
      var (d', outs) := OnWifiStatus(s.d, e.connected, now);
      (s.(d := d'), outs)
    case WsStatus =>
      var (d', outs) := OnWsStatus(s.d, e.connected, now);
      (s.(d := d'), outs)
    case MqttCommand => OnMqttCommand(s, e, env)
  }

  // -----------------------------------------------------------------------
  // Gestures
  // -----------------------------------------------------------------------

  /** `doMuteToggle`: enters the mute feedback, toggles the volume, shows and publishes the new state. */
  function MuteToggle(s: System, now: Clock.Millis): (r: (System, seq<Out>))
    requires Fine(s)
    ensures Fine(r.0)
    ensures var (st, muted) := ToggleMute(s.settings);
            && r.0 == s.(d := EnterState(s.d, MuteFeedback, now), settings := st)
            && r.1 == [Show(if muted then MutedView else UnmutedView), PublishMute(muted)]
  {
    var (st, muted) := ToggleMute(s.settings);
    (s.(d := EnterState(s.d, MuteFeedback, now), settings := st),
     [Show(if muted then MutedView else UnmutedView), PublishMute(muted)])
  }

  /** `pokeSetActive(false)`, `freePokeBitmaps()` and the return to playback. */
  function ClosePoke(s: System, now: Clock.Millis): (r: System)
    requires Fine(s)
    ensures Fine(r)
    ensures r.d == EnterState(s.d, GifPlayback, now)
    ensures !r.poke.active && r.poke.senderBmp.None? && r.poke.textBmp.None?
    ensures r.heap.live == s.heap.live - Ids(s.poke.senderBmp) - Ids(s.poke.textBmp)
    ensures r.settings == s.settings && r.player == s.player && r.updateAvailable == s.updateAvailable
  {
    var p := s.poke.(active := false);
    PokeHandler.HeldAfterFree(p, s.heap);
    var (p', h') := PokeHandler.FreePokeBitmaps(p, s.heap);
    s.(d := EnterState(s.d, GifPlayback, now), poke := p', heap := h')
  }

  /**
   * `showPokeHistoryEntry(index)`: without a record only "No Pokes" is
   * shown; otherwise the bitmap scroll restarts, and for a text entry the
   * text widths are taken and both text scrolls restart.
   */
  function ShowHistoryEntry(d: Display, p: PokeHandler.PokeState, index: nat, now: Clock.Millis, widths: (nat, nat))
    : (r: (Display, View))
    requires p.Shape()
    ensures PokeHandler.GetHistory(p, index).None? ==> r == (d, NoPokesView)
    ensures PokeHandler.GetHistory(p, index).Some? ==>
              && r.0.historyScroll == 0 && r.0.historyLastScrollMs == now
              && (PokeHandler.GetHistory(p, index).value.hasBitmaps <==> r.1 == HistoryBitmapView(index, 0))
              && (!PokeHandler.GetHistory(p, index).value.hasBitmaps ==>
                    r.1 == HistoryTextView(index, 0, 0) && r.0.textSenderScroll == 0 && r.0.textMessageScroll == 0)
    ensures r.0.state == d.state && r.0.prevState == d.prevState && r.0.entryMs == d.entryMs
    ensures r.0.historyIndex == d.historyIndex && r.0.offlineShown == d.offlineShown && r.0.offlineMsg == d.offlineMsg
  {
    match PokeHandler.GetHistory(p, index)
    case None => (d, NoPokesView)
    case Some(rec) =>
      var d1 := d.(historyScroll := 0, historyLastScrollMs := now);
      if rec.hasBitmaps then (d1, HistoryBitmapView(index, 0))
      else
        (d1.(textSenderWidth := U16(widths.0), textMessageWidth := U16(widths.1),
             textSenderScroll := 0, textMessageScroll := 0),
         HistoryTextView(index, 0, 0))
  }

  /** WIFI_SETUP: a tap while the portal runs switches between the QR code and the credentials. */
  function WifiSetupGesture(d: Display, g: GestureType, env: Env): (r: (Display, seq<Out>))
    ensures g == SingleTap && env.portalActive ==>
              r == (d.(showQr := !d.showQr), [Show(if d.showQr then WifiCredentials else WifiQr)])
    ensures !(g == SingleTap && env.portalActive) ==> r == (d, [])
  {
    if g == SingleTap && env.portalActive then
      (d.(showQr := !d.showQr), [Show(if !d.showQr then WifiQr else WifiCredentials)])
    else (d, [])
  }

  /** GIF_PLAYBACK: a tap plays the next animation, a double tap shows the clock, a long press toggles mute. */
  function PlaybackGesture(s: System, g: GestureType, env: Env, now: Clock.Millis): (r: (System, seq<Out>))
    requires Fine(s)
    ensures Fine(r.0)
    ensures g == SingleTap ==> r.0 == s.(player := GifPlayer.Advance(s.player, env.fs, env.pickDraws))
    ensures g == DoubleTap ==> r == (s.(d := EnterState(s.d, HistoryTime, now)), [Show(ClockView)])
    ensures g == LongPress ==> r == MuteToggle(s, now)
    ensures g == TouchDown || g == GestureNone ==> r == (s, [])
  {
    match g
    case SingleTap =>
      var (pl, outs) := PlayNext(s.player, env);
      (s.(player := pl), outs)
    case DoubleTap => (s.(d := EnterState(s.d, HistoryTime, now)), [Show(ClockView)])
    case LongPress => MuteToggle(s, now)
    case _ => (s, [])
  }

  /**
   * HISTORY_TIME: any gesture restarts the idle timer; a tap opens the most
   * recent poke, a double tap returns to playback, a long press toggles mute.
   */
  function HistoryTimeGesture(s: System, g: GestureType, env: Env, now: Clock.Millis): (r: (System, seq<Out>))
    requires Fine(s) && s.d.state == HistoryTime
    ensures Fine(r.0)
    ensures r.0.poke == s.poke && r.0.heap == s.heap
    ensures g == SingleTap ==>
              && r.0.d.state == HistoryPoke && r.0.d.prevState == HistoryTime && r.0.d.historyIndex == 0
              && r.0.d.entryMs == now
    ensures g == DoubleTap ==> r.0.d.state == GifPlayback && r.1 == []
    ensures g == LongPress ==> r == MuteToggle(s.(d := s.d.(entryMs := now)), now)
    ensures g == TouchDown || g == GestureNone ==> r == (s.(d := s.d.(entryMs := now)), [])
  {
    var s0 := s.(d := s.d.(entryMs := now));
    match g
    case SingleTap =>
      var d1 := EnterState(s0.d.(historyIndex := 0), HistoryPoke, now);
      var (d2, v) := ShowHistoryEntry(d1, s.poke, 0, now, env.historyTextWidths);
      (s.(d := d2), [Show(v)])
    case DoubleTap => (s.(d := EnterState(s0.d, GifPlayback, now)), [])
    case LongPress => MuteToggle(s0, now)
    case _ => (s0, [])
  }

  /**
   * HISTORY_POKE: any gesture restarts the idle timer; a tap moves to the
   * next older poke and leaves once the index reaches the count or 3, a
   * double tap leaves, a long press toggles mute.
   */
  function HistoryPokeGesture(s: System, g: GestureType, env: Env, now: Clock.Millis): (r: (System, seq<Out>))
    requires Fine(s) && s.d.state == HistoryPoke
    ensures Fine(r.0)
    ensures r.0.poke == s.poke && r.0.heap == s.heap
    ensures g == SingleTap ==>
              var next := U8(s.d.historyIndex + 1);
              && r.0.d.historyIndex == next
              && (next >= s.poke.count || next >= PokeHandler.POKE_HISTORY_SIZE ==>
                    r == (s.(d := EnterState(s.d.(entryMs := now, historyIndex := next), GifPlayback, now)), []))
              && (next < s.poke.count && next < PokeHandler.POKE_HISTORY_SIZE ==>
                    r.0.d.state == HistoryPoke && r.0.d.entryMs == now
                    && r.1 == [Show(ShowHistoryEntry(s.d.(entryMs := now, historyIndex := next), s.poke, next, now,
                                                     env.historyTextWidths).1)])
    ensures g == DoubleTap ==> r == (s.(d := EnterState(s.d.(entryMs := now), GifPlayback, now)), [])
    ensures g == LongPress ==> r == MuteToggle(s.(d := s.d.(entryMs := now)), now)
    ensures g == TouchDown || g == GestureNone ==> r == (s.(d := s.d.(entryMs := now)), [])
  {
    var s0 := s.(d := s.d.(entryMs := now));
    match g
    case SingleTap =>
      var next := U8(s.d.historyIndex + 1);
      var d1 := s0.d.(historyIndex := next);
      if next >= s.poke.count || next >= PokeHandler.POKE_HISTORY_SIZE then
        (s.(d := EnterState(d1, GifPlayback, now)), [])
      else
        var (d2, v) := ShowHistoryEntry(d1, s.poke, next, now, env.historyTextWidths);
        (s.(d := d2), [Show(v)])
    case DoubleTap => (s.(d := EnterState(s0.d, GifPlayback, now)), [])
    case LongPress => MuteToggle(s0, now)
    case _ => (s0, [])
  }

  /** The gesture switch of the task loop, per state. */
  function GestureIn(s: System, g: GestureType, env: Env, now: Clock.Millis): (r: (System, seq<Out>))
    requires Fine(s)
    ensures Fine(r.0)
    ensures s.d.state == PokeDisplay ==> r == if g == SingleTap then (ClosePoke(s, now), []) else (s, [])
    ensures s.d.state == ClaimPrompt && g == LongPress ==>
              r == (s.(d := EnterState(s.d, GifPlayback, now)), [SendClaimConfirm, Show(ClaimedView)])
    ensures s.d.state == ClaimPrompt && g != LongPress ==> r == (s, [])
    ensures s.d.state != PokeDisplay ==> r.0.poke == s.poke && r.0.heap == s.heap
  {
    match s.d.state
    case WifiSetup =>
      var (d', outs) := WifiSetupGesture(s.d, g, env);
      (s.(d := d'), outs)
    case GifPlayback => PlaybackGesture(s, g, env, now)
    case PokeDisplay => if g == SingleTap then (ClosePoke(s, now), []) else (s, [])
    case ClaimPrompt =>
      if g == LongPress then (s.(d := EnterState(s.d, GifPlayback, now)), [SendClaimConfirm, Show(ClaimedView)])
      else (s, [])
    case HistoryTime => HistoryTimeGesture(s, g, env, now)
    case HistoryPoke => HistoryPokeGesture(s, g, env, now)
    case _ => (s, [])
  }

  /**
   * A gesture: every gesture but TOUCH_DOWN is published over MQTT first,
   * then the current state handles it.
   */
  function OnGesture(s: System, g: GestureType, env: Env, now: Clock.Millis): (r: (System, seq<Out>))
    requires Fine(s)
    ensures Fine(r.0)
    ensures r.0 == GestureIn(s, g, env, now).0
    ensures g != TouchDown ==> r.1 == [PublishTouch(g)] + GestureIn(s, g, env, now).1
    ensures g == TouchDown ==> r.1 == GestureIn(s, g, env, now).1
  {
    var (s', outs) := GestureIn(s, g, env, now);
    (s', if g != TouchDown then [PublishTouch(g)] + outs else outs)
  }

  // -----------------------------------------------------------------------
  // Per-state tick
  // -----------------------------------------------------------------------

  /**
   * WIFI_SETUP: without the portal the progress is redrawn whenever its
   * throttle key changes; the first pass that sees the portal draws its QR
   * code; a connection moves on to the connected screen.
   */
  function WifiSetupTick(d: Display, env: Env, now: Clock.Millis): (r: (Display, seq<Out>))
    requires d.state == WifiSetup
    ensures !env.portalActive ==>
              && !r.0.portalDrawn
              && (r.0.lastSec, r.0.lastBar) == ProgressKey(env.wifiLostMs, now, AP_TIMEOUT_MS)
              && (Show(Progress(env.wifiLostMs, now, AP_TIMEOUT_MS)) in r.1 <==>
                    ProgressKey(env.wifiLostMs, now, AP_TIMEOUT_MS) != (d.lastSec, d.lastBar))
    ensures env.portalActive ==> r.0.portalDrawn && (Show(WifiQr) in r.1 <==> !d.portalDrawn)
    ensures env.portalActive && !d.portalDrawn ==> r.0.showQr
    ensures WifiUp(env) <==> r.0.state == ConnectedInfo
    ensures WifiUp(env) ==> |r.1| > 0 && r.1[|r.1| - 1] == Show(ConnectedView) && r.0.entryMs == now
    ensures !WifiUp(env) ==> r.0.state == d.state && r.0.entryMs == d.entryMs
    ensures r.0.offlineShown == d.offlineShown && r.0.offlineMsg == d.offlineMsg && r.0.historyIndex == d.historyIndex
  {
    var (d1, outs) :=
      if !env.portalActive then
        var key := ProgressKey(env.wifiLostMs, now, AP_TIMEOUT_MS);
        var d0 := d.(portalDrawn := false);
        if key != (d.lastSec, d.lastBar) then
          (d0.(lastSec := key.0, lastBar := key.1), [Show(Progress(env.wifiLostMs, now, AP_TIMEOUT_MS))])
        else (d0, [])
      else if !d.portalDrawn then (d.(portalDrawn := true, showQr := true), [Show(WifiQr)])
      else (d, []);
    if WifiUp(env) then (EnterState(d1, ConnectedInfo, now), outs + [Show(ConnectedView)])
    else (d1.(state := d.state), outs)
  }

  /**
   * CONNECTED_INFO: after 3 s playback starts; with animations on flash the
   * bag is rebuilt, auto-advance set to every loop and the first shuffled
   * name requested.
   */
  function ConnectedInfoTick(s: System, env: Env, now: Clock.Millis): (r: System)
    requires Fine(s)
    ensures Fine(r)
    ensures Clock.Elapsed(now, s.d.entryMs) < CONNECTED_INFO_MS ==> r == s
    ensures Clock.Elapsed(now, s.d.entryMs) >= CONNECTED_INFO_MS ==> r.d == EnterState(s.d, GifPlayback, now)
    ensures !GifFiles.HasFiles(Storage.Names(env.fs)) ==> r.player == s.player
    ensures r.poke == s.poke && r.heap == s.heap && r.settings == s.settings
  {
    if Clock.Elapsed(now, s.d.entryMs) < CONNECTED_INFO_MS then s
    else
      var d' := EnterState(s.d, GifPlayback, now);
      if GifFiles.HasFiles(Storage.Names(env.fs)) then
        var pl := GifPlayer.SetAutoAdvance(GifPlayer.BuildShuffleBag(s.player, env.fs, env.bagDraws), 1);
        var (next, pl') := NextShuffle(pl, env);
        s.(d := d', player := GifPlayer.SetFile(pl', next))
      else s.(d := d')
  }

  /**
   * Starting playback with animations on flash requests one of them and
   * leaves each one on screen for a single loop.
   */
  lemma StartsPlayingAFile(s: System, env: Env, now: Clock.Millis)
    requires Fine(s) && Clock.Elapsed(now, s.d.entryMs) >= CONNECTED_INFO_MS
    requires GifFiles.HasFiles(Storage.Names(env.fs))
    ensures var r := ConnectedInfoTick(s, env, now);
            && r.player.requestedFile in GifPlayer.Listing(env.fs)
            && r.player.fileChanged
            && r.player.loopsPerGif == 1
  {
    var fs := env.fs;
    var pl := GifPlayer.SetAutoAdvance(GifPlayer.BuildShuffleBag(s.player, fs, env.bagDraws), 1);
    var files := GifPlayer.Listing(fs);
    assert |files| > 0;
    assert |pl.bag.items| > 0 by {
      assert |multiset(pl.bag.items)| == |multiset(files)|;
    }
    var (next, bag') := ShuffleBag.NextShuffle(pl.bag, files, env.pickDraws);
    assert next == pl.bag.items[0];
    assert next in multiset(pl.bag.items);
  }

  /**
   * GIF_PLAYBACK: the offline overlay goes after 2 s; the update prompt is
   * shown for 8 s from its first pass and then never again; otherwise,
   * while no overlay is up, the player ticks.
   */
  function PlaybackTick(s: System, env: Env, now: Clock.Millis): (r: (System, seq<Out>))
    requires Fine(s)
    ensures Fine(r.0)
    ensures r.0.poke == s.poke && r.0.heap == s.heap && r.0.settings == s.settings
    ensures r.0.d.state == s.d.state && r.0.d.entryMs == s.d.entryMs
    ensures r.0.d.offlineShown <==> s.d.offlineShown && Clock.Elapsed(now, s.d.offlineStartMs) < OFFLINE_OVERLAY_MS
    ensures !r.0.d.offlineShown ==> r.0.d.offlineMsg.None? || r.0.d.offlineMsg == s.d.offlineMsg
    ensures r.0.d.offlineShown ==> r.0.d.offlineMsg == s.d.offlineMsg
    ensures s.updateAvailable ==> r.0.player == s.player && r.1 == [Show(UpdatePromptView)]
    ensures s.updateAvailable ==>
              var start := if s.d.updatePromptStartMs == 0 then now else s.d.updatePromptStartMs;
              !r.0.updateAvailable <==> Clock.Elapsed(now, start) >= UPDATE_PROMPT_MS
    ensures !s.updateAvailable ==> !r.0.updateAvailable
    ensures !s.updateAvailable && !r.0.d.offlineShown ==>
              r.0.player == GifPlayer.Tick(s.player, env.fs, now, env.tickDraws).0
    ensures s.updateAvailable || r.0.d.offlineShown ==> r.0.player == s.player
  {
    var d1 :=
      if s.d.offlineShown && Clock.Elapsed(now, s.d.offlineStartMs) >= OFFLINE_OVERLAY_MS then
        s.d.(offlineShown := false, offlineMsg := None)
      else s.d;
    if s.updateAvailable then
      var start := if d1.updatePromptStartMs == 0 then now else d1.updatePromptStartMs;
      if Clock.Elapsed(now, start) >= UPDATE_PROMPT_MS then
        (s.(d := d1.(updatePromptStartMs := 0), updateAvailable := false), [Show(UpdatePromptView)])
      else (s.(d := d1.(updatePromptStartMs := start)), [Show(UpdatePromptView)])
    else if !d1.offlineShown then
      var (pl, frame) := GifPlayer.Tick(s.player, env.fs, now, env.tickDraws);
      (s.(d := d1, player := pl), if frame.Some? then [DrawFrame(frame.value)] else [])
    else (s.(d := d1), [])
  }

  /**
   * POKE_DISPLAY: the poke closes once it has been up longer than 5 s, or
   * 8 s when it is wider than the screen; until then it scrolls.
   */
  function PokeTick(s: System, now: Clock.Millis): (r: (System, seq<Out>))
    requires Fine(s)
    ensures Fine(r.0)
    ensures var timeout := if U16(PokeHandler.MaxWidth(s.poke)) > PokeHandler.SCREEN_WIDTH
                           then PokeHandler.POKE_SCROLL_DISPLAY_MS else PokeHandler.POKE_DISPLAY_MS;
            && (Clock.Elapsed(now, s.d.entryMs) > timeout ==> r == (ClosePoke(s, now), []))
            && (Clock.Elapsed(now, s.d.entryMs) <= timeout ==>
                  var (p', redraw) := PokeHandler.AdvanceScroll(s.poke, now);
                  && r.0 == s.(poke := p')
                  && (r.1 == [Show(PokeScrollView)] <==> redraw))
  {
    var timeout := if U16(PokeHandler.MaxWidth(s.poke)) > PokeHandler.SCREEN_WIDTH
                   then PokeHandler.POKE_SCROLL_DISPLAY_MS else PokeHandler.POKE_DISPLAY_MS;
    if Clock.Elapsed(now, s.d.entryMs) > timeout then (ClosePoke(s, now), [])
    else
      var (p', redraw) := PokeHandler.AdvanceScroll(s.poke, now);
      (s.(poke := p'), if redraw then [Show(PokeScrollView)] else [])
  }

  /** The `uint16_t` width a bitmap history entry scrolls over: the wider of its two bitmaps. */
  function RecordWidth(rec: PokeRecord): (w: nat)
    ensures w < 0x1_0000
    ensures rec.senderBmpW < 0x1_0000 && rec.textBmpW < 0x1_0000 ==>
              w >= rec.senderBmpW && w >= rec.textBmpW && (w == rec.senderBmpW || w == rec.textBmpW)
  {
    U16(if rec.senderBmpW >= rec.textBmpW then rec.senderBmpW else rec.textBmpW)
  }

  /** Whether the shown history entry is wider than the screen, which gives it 8 s and scrolling. */
  predicate NeedsScroll(d: Display, rec: Option<PokeRecord>) {
    match rec
    case None => false
    case Some(r) =>
      if r.hasBitmaps then RecordWidth(r) > PokeHandler.SCREEN_WIDTH
      else d.textSenderWidth > PokeHandler.SCREEN_WIDTH || d.textMessageWidth > PokeHandler.SCREEN_WIDTH
  }

  /**
   * One scroll step of a history entry: a bitmap entry moves its one
   * offset; a text entry moves each line that is wider than the screen
   * and shows the others unscrolled.
   */
  function HistoryScroll(d: Display, rec: PokeRecord, now: Clock.Millis): (r: (Display, View))
    ensures r.0.historyLastScrollMs == now
    ensures rec.hasBitmaps ==>
              && r.0 == d.(historyLastScrollMs := now, historyScroll := PokeHandler.ScrollStep(d.historyScroll, RecordWidth(rec)))
              && r.1 == HistoryBitmapView(d.historyIndex, r.0.historyScroll)
    ensures !rec.hasBitmaps ==>
              && r.0.historyScroll == d.historyScroll
              && r.1.HistoryTextView? && r.1.index == d.historyIndex
              && (d.textSenderWidth <= PokeHandler.SCREEN_WIDTH ==>
                    r.0.textSenderScroll == d.textSenderScroll && r.1.senderScroll == 0)
              && (d.textMessageWidth <= PokeHandler.SCREEN_WIDTH ==>
                    r.0.textMessageScroll == d.textMessageScroll && r.1.messageScroll == 0)
              && (d.textSenderWidth > PokeHandler.SCREEN_WIDTH ==> r.1.senderScroll == r.0.textSenderScroll)
              && (d.textMessageWidth > PokeHandler.SCREEN_WIDTH ==> r.1.messageScroll == r.0.textMessageScroll)
    ensures r.0.state == d.state && r.0.entryMs == d.entryMs && r.0.historyIndex == d.historyIndex
  {
    var d1 := d.(historyLastScrollMs := now);
    if rec.hasBitmaps then
      var off := PokeHandler.ScrollStep(d.historyScroll, RecordWidth(rec));
      (d1.(historyScroll := off), HistoryBitmapView(d.historyIndex, off))
    else
      var sender := if d.textSenderWidth > PokeHandler.SCREEN_WIDTH
                    then PokeHandler.ScrollStep(d.textSenderScroll, d.textSenderWidth) else d.textSenderScroll;
      var message := if d.textMessageWidth > PokeHandler.SCREEN_WIDTH
                     then PokeHandler.ScrollStep(d.textMessageScroll, d.textMessageWidth) else d.textMessageScroll;
      (d1.(textSenderScroll := sender, textMessageScroll := message),
       HistoryTextView(d.historyIndex,
                       if d.textSenderWidth > PokeHandler.SCREEN_WIDTH then sender else 0,
                       if d.textMessageWidth > PokeHandler.SCREEN_WIDTH then message else 0))
  }

  /**
   * Each offset the history scroll moves stays within its line's virtual
   * width (its width plus the 64-pixel gap) and advances by 2 pixels
   * modulo it, as long as that width fits an `int16_t`.
   */
  lemma HistoryScrollWraps(d: Display, rec: PokeRecord, now: Clock.Millis)
    requires rec.hasBitmaps ==>
               RecordWidth(rec) + WRAP_GAP + PokeHandler.POKE_SCROLL_PX < 0x8000 && 0 <= d.historyScroll < RecordWidth(rec) + WRAP_GAP
    requires !rec.hasBitmaps ==>
               && d.textSenderWidth + WRAP_GAP + PokeHandler.POKE_SCROLL_PX < 0x8000
               && d.textMessageWidth + WRAP_GAP + PokeHandler.POKE_SCROLL_PX < 0x8000
               && 0 <= d.textSenderScroll < d.textSenderWidth + WRAP_GAP
               && 0 <= d.textMessageScroll < d.textMessageWidth + WRAP_GAP
    ensures var d' := HistoryScroll(d, rec, now).0;
            && (rec.hasBitmaps ==>
                  && 0 <= d'.historyScroll < RecordWidth(rec) + WRAP_GAP
                  && d'.historyScroll == (d.historyScroll + PokeHandler.POKE_SCROLL_PX) % (RecordWidth(rec) + WRAP_GAP))
            && (!rec.hasBitmaps ==>
                  && 0 <= d'.textSenderScroll < d.textSenderWidth + WRAP_GAP
                  && 0 <= d'.textMessageScroll < d.textMessageWidth + WRAP_GAP
                  && (d.textSenderWidth > PokeHandler.SCREEN_WIDTH ==>
                        d'.textSenderScroll == (d.textSenderScroll + PokeHandler.POKE_SCROLL_PX) % (d.textSenderWidth + WRAP_GAP))
                  && (d.textMessageWidth > PokeHandler.SCREEN_WIDTH ==>
                        d'.textMessageScroll == (d.textMessageScroll + PokeHandler.POKE_SCROLL_PX) % (d.textMessageWidth + WRAP_GAP)))
  {
    if rec.hasBitmaps {
      PokeHandler.ScrollStepWraps(d.historyScroll, RecordWidth(rec));
    } else {
      PokeHandler.ScrollStepWraps(d.textSenderScroll, d.textSenderWidth);
      PokeHandler.ScrollStepWraps(d.textMessageScroll, d.textMessageWidth);
    }
  }

  /**
   * HISTORY_POKE: the entry stays for 3 s, or 8 s when it is wider than the
   * screen, measured from the last gesture; a wide entry scrolls every 30 ms.
   */
  function HistoryPokeTick(s: System, now: Clock.Millis): (r: (System, seq<Out>))
    requires Fine(s)
    ensures Fine(r.0)
    ensures r.0.poke == s.poke && r.0.heap == s.heap && r.0.settings == s.settings && r.0.player == s.player
    ensures var rec := PokeHandler.GetHistory(s.poke, s.d.historyIndex);
            var timeout := if NeedsScroll(s.d, rec) then PokeHandler.POKE_SCROLL_DISPLAY_MS else HISTORY_IDLE_MS;
            && (Clock.Elapsed(now, s.d.entryMs) >= timeout ==> r == (s.(d := EnterState(s.d, GifPlayback, now)), []))
            && (Clock.Elapsed(now, s.d.entryMs) < timeout ==>
                  && r.0.d.state == s.d.state && r.0.d.entryMs == s.d.entryMs
                  && (r.1 != [] <==>
                        NeedsScroll(s.d, rec) && Clock.Elapsed(now, s.d.historyLastScrollMs) >= PokeHandler.POKE_SCROLL_INTERVAL_MS)
                  && (r.1 != [] ==> r.0.d == HistoryScroll(s.d, rec.value, now).0)
                  && (r.1 == [] ==> r.0 == s))
  {
    var rec := PokeHandler.GetHistory(s.poke, s.d.historyIndex);
    var needs := NeedsScroll(s.d, rec);
    var timeout := if needs then PokeHandler.POKE_SCROLL_DISPLAY_MS else HISTORY_IDLE_MS;
    if Clock.Elapsed(now, s.d.entryMs) >= timeout then (s.(d := EnterState(s.d, GifPlayback, now)), [])
    else if needs && Clock.Elapsed(now, s.d.historyLastScrollMs) >= PokeHandler.POKE_SCROLL_INTERVAL_MS then
      var (d', v) := HistoryScroll(s.d, rec.value, now);
      (s.(d := d'), [Show(v)])
    else (s, [])
  }

  /** The tick of the current state. */
  function Tick(s: System, env: Env, now: Clock.Millis): (r: (System, seq<Out>))
    requires Fine(s)
    ensures Fine(r.0)
    ensures s.d.state == ClaimPrompt ==>
              (Clock.Elapsed(now, s.d.entryMs) > CLAIM_TIMEOUT_MS <==>
                 r == (s.(d := EnterState(s.d, GifPlayback, now)), [SendClaimReject, Show(ClaimTimeoutView)]))
    ensures s.d.state == ClaimPrompt && Clock.Elapsed(now, s.d.entryMs) <= CLAIM_TIMEOUT_MS ==> r == (s, [])
    ensures s.d.state == HistoryTime ==>
              r.1 == [] && (r.0.d.state == GifPlayback <==> Clock.Elapsed(now, s.d.entryMs) >= HISTORY_IDLE_MS)
    ensures s.d.state == MuteFeedback && Clock.Elapsed(now, s.d.entryMs) >= MUTE_FEEDBACK_MS ==>
              r.0.d.state == (if s.d.prevState == MuteFeedback then GifPlayback else s.d.prevState)
    ensures s.d.state == MuteFeedback && Clock.Elapsed(now, s.d.entryMs) < MUTE_FEEDBACK_MS ==> r == (s, [])
    ensures s.d.state in {BootAnim, ConnectedInfo, HistoryTime, MuteFeedback} ==> r.1 == []
    ensures s.d.state != PokeDisplay ==> r.0.poke == s.poke && r.0.heap == s.heap
  {
    var elapsed := Clock.Elapsed(now, s.d.entryMs);
    match s.d.state
    case WifiSetup =>
      var (d', outs) := WifiSetupTick(s.d, env, now);
      (s.(d := d'), outs)
    case ConnectedInfo => (ConnectedInfoTick(s, env, now), [])
    case GifPlayback => PlaybackTick(s, env, now)
    case PokeDisplay => PokeTick(s, now)
    case ClaimPrompt =>
      if elapsed > CLAIM_TIMEOUT_MS then
        (s.(d := EnterState(s.d, GifPlayback, now)), [SendClaimReject, Show(ClaimTimeoutView)])
      else (s, [])
    case HistoryTime =>
      if elapsed >= HISTORY_IDLE_MS then (s.(d := EnterState(s.d, GifPlayback, now)), []) else (s, [])
    case HistoryPoke => HistoryPokeTick(s, now)
    case MuteFeedback =>
      if elapsed >= MUTE_FEEDBACK_MS then
        (s.(d := EnterState(s.d, if s.d.prevState == MuteFeedback then GifPlayback else s.d.prevState, now)), [])
      else (s, [])
    case _ => (s, [])
  }

  // -----------------------------------------------------------------------
  // Boot and the task loop
  // -----------------------------------------------------------------------

  /**
   * The start of the task after the boot animation: the poke handler is
   * reset, then a connected device shows its address and a disconnected one
   * enters Wi-Fi setup with either the portal's QR code or the progress.
   */
  function Boot(s: System, env: Env, now: Clock.Millis): (r: (System, seq<Out>))
    requires Fine(s)
    ensures Fine(r.0)
    ensures r.0.poke == PokeHandler.Init(s.poke) && r.0.heap == s.heap
    ensures r.0.d.entryMs == now && r.0.d.prevState == s.d.state
    ensures WifiUp(env) ==> r.0.d.state == ConnectedInfo && r.1 == [Show(ConnectedView)]
    ensures !WifiUp(env) ==>
              && r.0.d.state == WifiSetup && r.0.d.showQr
              && (env.portalActive ==> r.0.d.portalDrawn && r.1 == [Show(WifiQr)])
              && (!env.portalActive ==>
                    && !r.0.d.portalDrawn && (r.0.d.lastSec, r.0.d.lastBar) == (UNSET, UNSET)
                    && r.1 == [Show(Progress(env.wifiLostMs, now, AP_TIMEOUT_MS))])
  {
    var s0 := s.(poke := PokeHandler.Init(s.poke));
    if WifiUp(env) then (s0.(d := EnterState(s.d, ConnectedInfo, now)), [Show(ConnectedView)])
    else
      var d1 := EnterState(s.d, WifiSetup, now).(showQr := true, portalDrawn := false);
      if env.portalActive then (s0.(d := d1.(portalDrawn := true)), [Show(WifiQr)])
      else (s0.(d := d1.(lastBar := UNSET, lastSec := UNSET)), [Show(Progress(env.wifiLostMs, now, AP_TIMEOUT_MS))])
  }

  /**
   * One pass of the task loop: at most one network event, then at most one
   * gesture, then the tick; each phase reads its own clock.
   */
  function Step(s: System, ev: Option<NetworkEvent>, g: Option<GestureType>, env: Env,
                now: Clock.Millis, gestureNow: Clock.Millis, tickNow: Clock.Millis): (r: (System, seq<Out>))
    requires Fine(s)
    requires ev.Some? ==> Accepts(s, ev.value)
    ensures Fine(r.0)
  {
    var (s1, o1) := if ev.Some? then OnNetEvent(s, ev.value, env, now) else (s, []);
    var (s2, o2) := if g.Some? then OnGesture(s1, g.value, env, gestureNow) else (s1, []);
    var (s3, o3) := Tick(s2, env, tickNow);
    (s3, o1 + o2 + o3)
  }
}
