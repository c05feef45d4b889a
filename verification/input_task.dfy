/**
 * The touch gesture recogniser (input_task.cpp): one poll of the touch pin
 * every 10 ms drives a three-state timing machine that reports TOUCH_DOWN at
 * once and then exactly one of SINGLE_TAP, DOUBLE_TAP or LONG_PRESS.
 *
 * The source blocks in a polling loop until the pin is released after a long
 * press or a second tap; that loop is the explicit state `WaitRelease` here,
 * left on the first poll that reads the pin low. Each poll is a `Step` from
 * the pin level and the `millis()` reading.
 */
module InputTask {
  import opened Wrappers
  import opened AppState
  import Clock

  const LONG_PRESS_MS: nat := 1500
  const DOUBLE_TAP_WINDOW: nat := 300
  const POLL_INTERVAL_MS: nat := 10

  datatype TouchState = Idle | Touched | WaitSecondTap | WaitRelease

  datatype Input = Input(state: TouchState, touchDownMs: Clock.Millis, releaseMs: Clock.Millis)

  const INITIAL: Input := Input(Idle, 0, 0)

  /** A press is under way: TOUCH_DOWN was reported and its outcome not yet. */
  predicate Pending(s: Input) {
    s.state == Touched || s.state == WaitSecondTap
  }

  /** The gestures that close a press. */
  predicate Final(g: GestureType) {
    g == SingleTap || g == DoubleTap || g == LongPress
  }

  /** One poll: the new state and the event queued, if any. */
  function Step(s: Input, pinHigh: bool, now: Clock.Millis): (r: (Input, Option<GestureEvent>))
    ensures r.1.Some? ==> r.1.value.timestamp == now
    // From Idle a touch is reported at once and timed from now.
    ensures s.state == Idle && pinHigh ==> r == (s.(state := Touched, touchDownMs := now), Some(GestureEvent(TouchDown, now)))
    ensures s.state == Idle && !pinHigh ==> r == (s, None)
    // Holding for LONG_PRESS_MS reports one long press and waits for release.
    ensures s.state == Touched && pinHigh ==>
              if Clock.Elapsed(now, s.touchDownMs) >= LONG_PRESS_MS
              then r == (s.(state := WaitRelease), Some(GestureEvent(LongPress, now)))
              else r == (s, None)
    // A short release waits for a second tap; a longer one is a single tap.
    ensures s.state == Touched && !pinHigh ==>
              if Clock.Elapsed(now, s.touchDownMs) < DOUBLE_TAP_WINDOW
              then r == (s.(state := WaitSecondTap, releaseMs := now), None)
              else r == (s.(state := Idle), Some(GestureEvent(SingleTap, now)))
    // A second touch is a double tap (no second TOUCH_DOWN); a quiet window is a single tap.
    ensures s.state == WaitSecondTap && pinHigh ==> r == (s.(state := WaitRelease), Some(GestureEvent(DoubleTap, now)))
    ensures s.state == WaitSecondTap && !pinHigh ==>
              if Clock.Elapsed(now, s.releaseMs) >= DOUBLE_TAP_WINDOW
              then r == (s.(state := Idle), Some(GestureEvent(SingleTap, now)))
              else r == (s, None)
    ensures s.state == WaitRelease ==> r.1.None? && r.0 == (if pinHigh then s else s.(state := Idle))
  {
    match s.state
    case Idle =>
      if pinHigh then (s.(state := Touched, touchDownMs := now), Some(GestureEvent(TouchDown, now)))
      else (s, None)
    case Touched =>
      if pinHigh then
        if Clock.Elapsed(now, s.touchDownMs) >= LONG_PRESS_MS then
          (s.(state := WaitRelease), Some(GestureEvent(LongPress, now)))
        else (s, None)
      else
        var held := Clock.Elapsed(now, s.touchDownMs);
        if held < DOUBLE_TAP_WINDOW then (s.(state := WaitSecondTap, releaseMs := now), None)
        else (s.(state := Idle), Some(GestureEvent(SingleTap, now)))
    case WaitSecondTap =>
      if pinHigh then (s.(state := WaitRelease), Some(GestureEvent(DoubleTap, now)))
      else if Clock.Elapsed(now, s.releaseMs) >= DOUBLE_TAP_WINDOW then
        (s.(state := Idle), Some(GestureEvent(SingleTap, now)))
      else (s, None)
    case WaitRelease =>
      if pinHigh then (s, None) else (s.(state := Idle), None)
  }

  /** One poll either reports nothing, opens a press, or closes the pending one. */
  lemma StepEvent(s: Input, pinHigh: bool, now: Clock.Millis)
    ensures var (s', e) := Step(s, pinHigh, now);
            && (e.None? ==> Pending(s') == Pending(s))
            && (e.Some? && e.value.kind == TouchDown ==> !Pending(s) && Pending(s'))
            && (e.Some? && e.value.kind != TouchDown ==> Final(e.value.kind) && Pending(s) && !Pending(s'))
  {
  }

  /** The polls' readings: pin level and `millis()`. */
  datatype Sample = Sample(pinHigh: bool, now: Clock.Millis)

  /** The gesture kinds queued over a run of polls, in order, and the final state. */
  function Run(s: Input, samples: seq<Sample>): (r: (Input, seq<GestureType>))
    decreases |samples|
  {
    if |samples| == 0 then (s, [])
    else
      var (s', e) := Step(s, samples[0].pinHigh, samples[0].now);
      var (last, rest) := Run(s', samples[1..]);
      (last, if e.Some? then [e.value.kind] + rest else rest)
  }

  /**
   * Events alternate between TOUCH_DOWN and a final gesture, starting with
   * TOUCH_DOWN unless a press is already pending.
   */
  predicate Alternates(evs: seq<GestureType>, pending: bool) {
    forall k :: 0 <= k < |evs| ==>
      if (k % 2 == 0) != pending then evs[k] == TouchDown else Final(evs[k])
  }

  /**
   * Between two consecutive TOUCH_DOWN events exactly one of SINGLE_TAP,
   * DOUBLE_TAP and LONG_PRESS is reported, whatever the pin does and
   * whenever it is polled; the state is pending exactly when the number of
   * events is odd.
   */
  lemma {:induction false} RunAlternates(s: Input, samples: seq<Sample>)
    ensures var (last, evs) := Run(s, samples);
            && Alternates(evs, Pending(s))
            && Pending(last) == (Pending(s) != (|evs| % 2 == 1))
    decreases |samples|
  {
    if |samples| > 0 {
      var (s', e) := Step(s, samples[0].pinHigh, samples[0].now);
      StepEvent(s, samples[0].pinHigh, samples[0].now);
      RunAlternates(s', samples[1..]);
      var (last, rest) := Run(s', samples[1..]);
      if e.Some? {
        var evs := [e.value.kind] + rest;
        forall k | 0 <= k < |evs|
          ensures if (k % 2 == 0) != Pending(s) then evs[k] == TouchDown else Final(evs[k])
        {
          if k > 0 {
            assert evs[k] == rest[k - 1];
            assert ((k - 1) % 2 == 0) == (k % 2 != 0);
          }
        }
      }
    }
  }

  /** From power-on the event stream is TOUCH_DOWN, final, TOUCH_DOWN, final, ... */
  lemma FromPowerOn(samples: seq<Sample>)
    ensures Alternates(Run(INITIAL, samples).1, false)
  {
    RunAlternates(INITIAL, samples);
  }

  /** However long the pin stays high after a long press or double tap, nothing more is reported. */
  lemma {:induction false} HoldingReportsNothing(s: Input, samples: seq<Sample>)
    requires s.state == WaitRelease
    requires forall k :: 0 <= k < |samples| ==> samples[k].pinHigh
    ensures Run(s, samples) == (s, [])
    decreases |samples|
  {
    if |samples| > 0 {
      HoldingReportsNothing(s, samples[1..]);
    }
  }
}
