/**
 * The network task (network_task.cpp): the Wi-Fi link monitor that reports
 * outages and reconnections and restarts the setup portal after a long
 * outage, the reconnect throttles for the WebSocket and MQTT clients, and
 * the translation of WebSocket messages and MQTT publications into the
 * network events queued for the display task.
 *
 * JSON parsing is not modelled: a message arrives already parsed, as a
 * record of the fields the firmware looks up, each `None` when absent or of
 * the wrong type. Base64 decoding is a parameter (`None` when `malloc` or
 * the decoder fails); the result is allocated on the shared `Heap`, so the
 * event carries real ownership. Whether `xQueueSend` succeeds is a
 * parameter. The `millis()` readings of one loop pass are one `now`.
 */
module NetworkTask {
  import opened Wrappers
  import opened GifTypes
  import opened AppState
  import Clock

  const WS_RECONNECT_MS: nat := 5000
  const MQTT_RECONNECT_MS: nat := 5000
  const WIFI_RECONNECT_TIMEOUT_MS: nat := 30000

  /** The task's static variables and the connectivity event group. */
  datatype Net = Net(
    wifiConnected: bool,
    wifiLostMs: Clock.Millis,     // 0 while the link is up
    portalRestarted: bool,        // `_portalRestartedForReconnect`
    tzDetected: bool,             // the function-static `tzDetected`
    wsConnected: bool,
    wsLastReconnect: Clock.Millis,
    mqttLastReconnect: Clock.Millis,
    bits: bv32)

  /** The static initialisers; the event group starts cleared. */
  const INITIAL: Net := Net(false, 0, false, false, false, 0, 0, 0)

  // -----------------------------------------------------------------------
  // Wi-Fi monitor
  // -----------------------------------------------------------------------

  /** What one pass of the monitor asks of the captive portal. */
  datatype PortalAction = PortalUnchanged | StartPortal | StopPortal

  /**
   * The effects of one monitor pass besides the state: the events queued
   * (the status events are sent without waiting; a full queue drops them),
   * the portal action, and whether timezone detection runs.
   */
  datatype MonitorOut = MonitorOut(events: seq<NetworkEvent>, portal: PortalAction, detectTz: bool)

  /** `NetworkEvent{WIFI_STATUS, connected}`. */
  function WifiStatusEvent(connected: bool): (e: NetworkEvent)
    ensures e.kind == WifiStatus && e.connected == connected && e.OwnedMs() == multiset{}
  {
    Blank(WifiStatus).(connected := connected)
  }

  /** The link-down branch: records the outage once, then starts the portal once it has lasted over 30 s. */
  function LinkDown(n: Net, now: Clock.Millis, queued: bool): (r: (Net, MonitorOut))
  {
    var (n1, events) :=
      if n.wifiLostMs == 0 then
        (n.(wifiLostMs := if now == 0 then 1 else now, wifiConnected := false, wsConnected := false,
            bits := n.bits & !(WIFI_CONNECTED_BIT | WS_CONNECTED_BIT)),
         if queued then [WifiStatusEvent(false)] else [])
      else (n, []);
    if !n1.portalRestarted && Clock.Elapsed(now, n1.wifiLostMs) > WIFI_RECONNECT_TIMEOUT_MS then
      (n1.(portalRestarted := true), MonitorOut(events, StartPortal, false))
    else (n1, MonitorOut(events, PortalUnchanged, false))
  }

  /**
   * The link-up branch: after an outage or at the first connection, reports
   * the connection once, stops a portal the monitor restarted, and clears
   * the outage. Timezone detection runs on the first connection only, and
   * only when no zone is stored.
   */
  function LinkUp(n: Net, storedZoneEmpty: bool, queued: bool): (r: (Net, MonitorOut))
  {
    if n.wifiLostMs > 0 || !n.wifiConnected then
      var (n1, events, detect) :=
        if !n.wifiConnected then
          (n.(wifiConnected := true, bits := n.bits | WIFI_CONNECTED_BIT, tzDetected := true),
           if queued then [WifiStatusEvent(true)] else [],
           !n.tzDetected && storedZoneEmpty)
        else (n, [], false);
      var (n2, portal) :=
        if n1.portalRestarted then (n1.(portalRestarted := false), StopPortal) else (n1, PortalUnchanged);
      (n2.(wifiLostMs := 0), MonitorOut(events, portal, detect))
    else (n, MonitorOut([], PortalUnchanged, false))
  }

  /**
   * What the monitor keeps true of its flags: a restarted portal belongs to
   * an outage, and a connected link has none.
   */
  predicate Consistent(n: Net) {
    && (n.portalRestarted ==> n.wifiLostMs != 0)
    && (n.wifiConnected ==> n.wifiLostMs == 0)
  }

  /** The Wi-Fi monitoring block of the task loop. */
  function WifiMonitor(n: Net, linkUp: bool, now: Clock.Millis, storedZoneEmpty: bool, queued: bool)
    : (r: (Net, MonitorOut))
    ensures Consistent(n) ==> Consistent(r.0)
    ensures !linkUp ==> r.0.wifiLostMs != 0 && (Consistent(n) ==> !r.0.wifiConnected)
    ensures linkUp ==> r.0.wifiLostMs == 0 && r.0.wifiConnected && (Consistent(n) ==> !r.0.portalRestarted)
    ensures r.1.portal == StartPortal ==>
              && !linkUp && !n.portalRestarted && r.0.portalRestarted
              && Clock.Elapsed(now, r.0.wifiLostMs) > WIFI_RECONNECT_TIMEOUT_MS
    ensures r.1.portal == StopPortal ==> linkUp && n.portalRestarted
    ensures Consistent(n) && linkUp && n.portalRestarted ==> r.1.portal == StopPortal
    ensures forall e :: e in r.1.events ==> e.kind == WifiStatus && e.connected == linkUp && e.OwnedMs() == multiset{}
    ensures |r.1.events| <= 1
  {
    if linkUp then LinkUp(n, storedZoneEmpty, queued) else LinkDown(n, now, queued)
  }

  /** On the first pass without a link: the outage time is recorded (0 becomes 1), both flags drop, and one status event is queued. */
  lemma LinkLost(n: Net, now: Clock.Millis, storedZoneEmpty: bool)
    requires n.wifiLostMs == 0
    ensures var (n', out) := WifiMonitor(n, false, now, storedZoneEmpty, true);
            && n'.wifiLostMs == (if now == 0 then 1 else now)
            && !n'.wsConnected
            && n'.bits & WIFI_CONNECTED_BIT == 0 && n'.bits & WS_CONNECTED_BIT == 0
            && out.events == [WifiStatusEvent(false)]
  {
  }

  /** Without a link, the passes after the first of an outage queue nothing and keep the outage time. */
  lemma OutageRecordedOnce(n: Net, now: Clock.Millis, storedZoneEmpty: bool, queued: bool)
    requires n.wifiLostMs != 0
    ensures var (n', out) := WifiMonitor(n, false, now, storedZoneEmpty, queued);
            && n'.wifiLostMs == n.wifiLostMs && out.events == []
  {
  }

  /** A run of monitor passes without a link, at the given clock readings. */
  function RunDown(n: Net, times: seq<Clock.Millis>): (r: (Net, seq<NetworkEvent>, nat))
    decreases |times|
  {
    if |times| == 0 then (n, [], 0)
    else
      var (n1, out) := WifiMonitor(n, false, times[0], false, true);
      var (n2, events, starts) := RunDown(n1, times[1..]);
      (n2, out.events + events, (if out.portal == StartPortal then 1 else 0) + starts)
  }

  /** Inside an outage: no further status event, and the portal starts at most once, never again once restarted. */
  lemma {:induction false} RunDownInside(n: Net, times: seq<Clock.Millis>)
    requires n.wifiLostMs != 0
    ensures var (n', events, starts) := RunDown(n, times);
            && events == [] && n'.wifiLostMs == n.wifiLostMs
            && starts <= (if n.portalRestarted then 0 else 1)
            && (n.portalRestarted ==> n'.portalRestarted)
    decreases |times|
  {
    if |times| > 0 {
      var (n1, out) := WifiMonitor(n, false, times[0], false, true);
      RunDownInside(n1, times[1..]);
    }
  }

  /**
   * A whole outage seen from a connected link: exactly one `WIFI_STATUS{false}`
   * event, and at most one portal restart.
   */
  lemma {:induction false} OutageReportsOnce(n: Net, times: seq<Clock.Millis>)
    requires n.wifiLostMs == 0 && !n.portalRestarted && |times| > 0
    ensures var (n', events, starts) := RunDown(n, times);
            && events == [WifiStatusEvent(false)] && starts <= 1 && n'.wifiLostMs != 0
  {
    var (n1, out) := WifiMonitor(n, false, times[0], false, true);
    RunDownInside(n1, times[1..]);
  }

  /**
   * The first pass with the link back: one `WIFI_STATUS{true}` event when
   * the link had been reported down, the restarted portal is stopped, and a
   * second pass does nothing.
   */
  lemma Reconnect(n: Net, now: Clock.Millis, now': Clock.Millis, storedZoneEmpty: bool)
    requires !n.wifiConnected
    ensures var (n1, out) := WifiMonitor(n, true, now, storedZoneEmpty, true);
            && out.events == [WifiStatusEvent(true)]
            && n1.bits & WIFI_CONNECTED_BIT != 0
            && (out.portal == StopPortal <==> n.portalRestarted)
            && (out.detectTz <==> !n.tzDetected && storedZoneEmpty)
            && WifiMonitor(n1, true, now', storedZoneEmpty, true) == (n1, MonitorOut([], PortalUnchanged, false))
  {
  }

  // -----------------------------------------------------------------------
  // Reconnect throttles
  // -----------------------------------------------------------------------

  /**
   * The WebSocket block of the loop: a connected client is polled; an
   * unconnected one is retried while Wi-Fi is up, at most every 5 s. The
   * second component says whether `wsConnect` runs.
   */
  function WsStep(n: Net, now: Clock.Millis): (r: (Net, bool))
    ensures r.1 ==> n.wifiConnected && !n.wsConnected && r.0 == n.(wsLastReconnect := now)
    ensures r.1 ==> Clock.Elapsed(now, n.wsLastReconnect) >= WS_RECONNECT_MS
    ensures !r.1 ==> r.0 == n
    ensures !n.wsConnected && n.wifiConnected && Clock.Elapsed(now, n.wsLastReconnect) >= WS_RECONNECT_MS ==> r.1
  {
    if n.wsConnected then (n, false)
    else if n.wifiConnected && Clock.Elapsed(now, n.wsLastReconnect) >= WS_RECONNECT_MS then
      (n.(wsLastReconnect := now), true)
    else (n, false)
  }

  /** Two connection attempts are at least 5 s apart, however the first one ended. */
  lemma WsAttemptsSpaced(n: Net, t1: Clock.Millis, t2: Clock.Millis, isOpen: bool)
    requires WsStep(n, t1).1
    ensures var n1 := WsEvent(WsStep(n, t1).0, isOpen).0;
            WsStep(n1, t2).1 ==> Clock.Elapsed(t2, t1) >= WS_RECONNECT_MS
  {
  }

  /**
   * `wsEvent`: an opened connection sets the flag and the bit; a closed one
   * clears them and queues `WS_STATUS{false}`.
   */
  function WsEvent(n: Net, isOpen: bool): (r: (Net, Option<NetworkEvent>))
    ensures r.0.wsConnected == isOpen
    ensures (r.0.bits & WS_CONNECTED_BIT != 0) == isOpen
    ensures r.0.(wsConnected := n.wsConnected, bits := n.bits) == n
    ensures r.1.Some? <==> !isOpen
    ensures r.1.Some? ==> r.1.value.kind == WsStatus && !r.1.value.connected && r.1.value.OwnedMs() == multiset{}
  {
    if isOpen then (n.(wsConnected := true, bits := n.bits | WS_CONNECTED_BIT), None)
    else (n.(wsConnected := false, bits := n.bits & !WS_CONNECTED_BIT), Some(Blank(WsStatus)))
  }

  /**
   * `mqttReconnect`: nothing when MQTT is disabled, has no host or is
   * connected; otherwise one attempt at most every 5 s.
   */
  function MqttReconnect(n: Net, enabled: bool, hostEmpty: bool, connected: bool, now: Clock.Millis)
    : (r: (Net, bool))
    ensures r.1 <==> enabled && !hostEmpty && !connected && Clock.Elapsed(now, n.mqttLastReconnect) >= MQTT_RECONNECT_MS
    ensures r.1 ==> r.0 == n.(mqttLastReconnect := now)
    ensures !r.1 ==> r.0 == n
  {
    if !enabled || hostEmpty then (n, false)
    else if connected then (n, false)
    else if Clock.Elapsed(now, n.mqttLastReconnect) < MQTT_RECONNECT_MS then (n, false)
    else (n.(mqttLastReconnect := now), true)
  }

  // -----------------------------------------------------------------------
  // WebSocket messages
  // -----------------------------------------------------------------------

  /**
   * The fields of a parsed WebSocket message. A string field is `Some` when
   * present and a string; a width is `Some` when present and an integer
   * that fits an `int`.
   */
  datatype WsDoc = WsDoc(
    msgType: Option<string>,
    sender: Option<string>,
    text: Option<string>,
    senderBitmap: Option<string>,
    senderBitmapWidth: Option<int>,
    textBitmap: Option<string>,
    textBitmapWidth: Option<int>,
    userName: Option<string>)

  /** A WebSocket message: text that parsed as JSON, text that did not, or binary. */
  datatype WsMsg = Parsed(doc: WsDoc) | Unparsable | Binary

  /** ArduinoJson's `doc[key] | fallback` on a string field. */
  function Or(v: Option<string>, fallback: string): (s: string)
    ensures v.None? ==> s == fallback
    ensures v.Some? ==> s == v.value
  {
    if v.Some? then v.value else fallback
  }

  /** `uint16_t w = doc[key] | 0`: the integer converted to 16 bits, 0 when absent. */
  function Width(v: Option<int>): (w: nat)
    ensures w < 0x1_0000
    ensures v.Some? && 0 <= v.value < 0x1_0000 ==> w == v.value
    ensures v.None? ==> w == 0
  {
    if v.Some? then v.value % 0x1_0000 else 0
  }

  /** Whether a "poke" message is a bitmap poke: both bitmap strings and both widths are there. */
  predicate IsBitmapPoke(doc: WsDoc) {
    doc.senderBitmap.Some? && doc.textBitmap.Some?
    && Width(doc.senderBitmapWidth) > 0 && Width(doc.textBitmapWidth) > 0
  }

  /** `decodeBase64Alloc`: a fresh buffer holding the decoded bytes, or null. */
  function DecodeAlloc(h: Heap, decoded: Option<seq<byte>>): (r: (Heap, Option<Buf>, nat))
    requires h.Wf()
    ensures r.0.Wf() && r.0.next >= h.next
    ensures decoded.None? ==> r == (h, None, 0)
    ensures decoded.Some? ==>
              && r.1.Some? && r.1.value.data == decoded.value && r.2 == |decoded.value|
              && r.1.value.id !in h.live
              && multiset(r.0.live) == multiset(h.live) + multiset{r.1.value.id}
  {
    if decoded.None? then (h, None, 0)
    else
      var (h', b) := Alloc(h, decoded.value);
      (h', Some(b), |decoded.value|)
  }

  /** The text fields of a poke event: at most 32 and 64 characters, defaults "Someone" and "Poke!". */
  function PokeEvent(kind: NetKind, sender: string, text: string): (e: NetworkEvent)
    ensures e.Fits() && e.OwnedMs() == multiset{} && e.kind == kind
  {
    Blank(kind).(sender := CStrCopy(sender, SENDER_CAP), text := CStrCopy(text, TEXT_CAP))
  }

  /** What handling one message produced: the heap, the event that reached the queue, the poke published to MQTT. */
  datatype WsOut = WsOut(heap: Heap, queued: Option<NetworkEvent>, published: Option<(string, string)>)

  /**
   * The event a message asks to queue, with the bitmaps it decoded: the
   * heap after decoding and the event, before `xQueueSend`.
   */
  function WsEventFor(h: Heap, doc: WsDoc, decoded: (Option<seq<byte>>, Option<seq<byte>>))
    : (r: (Heap, Option<NetworkEvent>))
    requires h.Wf()
    ensures r.0.Wf()
    ensures r.1.None? ==> r.0 == h
    ensures r.1.Some? ==> && multiset(r.0.live) == multiset(h.live) + r.1.value.OwnedMs()
                          && r.1.value.OwnedMs() <= multiset(r.0.live)
                          && r.1.value.Fits()
                          && (r.1.value.kind != PokeBitmap ==> r.1.value.OwnedMs() == multiset{})
                          && (r.1.value.senderBmp.Some? ==> r.1.value.senderBmpLen <= |r.1.value.senderBmp.value.data|)
                          && (r.1.value.textBmp.Some? ==> r.1.value.textBmpLen <= |r.1.value.textBmp.value.data|)
  {
    if doc.msgType == Some("poke") then
      var sender, text := Or(doc.sender, "Someone"), Or(doc.text, "Poke!");
      if IsBitmapPoke(doc) then
        var (h1, sb, sLen) := DecodeAlloc(h, decoded.0);
        var (h2, tb, tLen) := DecodeAlloc(h1, decoded.1);
        var e := PokeEvent(PokeBitmap, sender, text).(
                   senderBmp := sb, senderBmpWidth := Width(doc.senderBitmapWidth), senderBmpLen := sLen,
                   textBmp := tb, textBmpWidth := Width(doc.textBitmapWidth), textBmpLen := tLen);
        assert multiset(h2.live) == multiset(h.live) + e.OwnedMs() by {
          MsAddTwice(multiset(h.live), multiset(h1.live), multiset(h2.live), Ms(sb), Ms(tb));
        }
        assert e.OwnedMs() <= multiset(h2.live) by {
          MsWithin(multiset(h.live), e.OwnedMs(), e.OwnedMs());
        }
        (h2, Some(e))
      else (h, Some(PokeEvent(Poke, sender, text)))
    else if doc.msgType == Some("claim_request") then
      (h, Some(PokeEvent(ClaimRequest, Or(doc.userName, "Unknown"), "")))
    else (h, None)
  }

  /**
   * `wsMessage` as written: when `xQueueSend` fails (the queue stays full for
   * 100 ms) the event is dropped, and with it the only pointers to the
   * decoded bitmaps.
   */
  function WsMessageAsWritten(h: Heap, msg: WsMsg, decoded: (Option<seq<byte>>, Option<seq<byte>>), sent: bool)
    : (r: WsOut)
    requires h.Wf()
    ensures r.heap.Wf()
  {
    if !msg.Parsed? then WsOut(h, None, None)
    else
      var (h', e) := WsEventFor(h, msg.doc, decoded);
      WsOut(h', if sent then e else None, Published(msg.doc))
  }

  /** The poke `wsMessage` publishes to MQTT, with the untruncated sender and text. */
  function Published(doc: WsDoc): (p: Option<(string, string)>)
    ensures p.Some? <==> doc.msgType == Some("poke")
  {
    if doc.msgType == Some("poke") then Some((Or(doc.sender, "Someone"), Or(doc.text, "Poke!"))) else None
  }

  /**
   * `wsMessage` with the leak closed: when the event cannot be queued, the
   * decoded bitmaps are freed.
   */
  function WsMessage(h: Heap, msg: WsMsg, decoded: (Option<seq<byte>>, Option<seq<byte>>), sent: bool)
    : (r: WsOut)
    requires h.Wf()
    ensures r.heap.Wf()
    ensures r.queued.Some? ==> sent && msg.Parsed?
    ensures r.published == (if msg.Parsed? then Published(msg.doc) else None)
  {
    if !msg.Parsed? then WsOut(h, None, None)
    else
      var (h', e) := WsEventFor(h, msg.doc, decoded);
      if sent || e.None? then WsOut(h', e, Published(msg.doc))
      else
        PairHeld(e.value.senderBmp, e.value.textBmp, multiset{}, h'.live);
        WsOut(Free(Free(h', e.value.senderBmp), e.value.textBmp), None, Published(msg.doc))
  }

  /**
   * Ownership across the producer: after a message, the heap holds exactly
   * what it held before plus the buffers of the event that reached the
   * queue; only a bitmap poke carries buffers, and its lengths fit them.
   */
  lemma WsMessageOwns(h: Heap, msg: WsMsg, decoded: (Option<seq<byte>>, Option<seq<byte>>), sent: bool)
    requires h.Wf()
    ensures var r := WsMessage(h, msg, decoded, sent);
            && multiset(r.heap.live) == multiset(h.live) + (if r.queued.Some? then r.queued.value.OwnedMs() else multiset{})
            && (r.queued.Some? ==> Deliverable(r.queued.value))
  {
    if msg.Parsed? {
      var (h', e) := WsEventFor(h, msg.doc, decoded);
      if !sent && e.Some? {
        PairHeld(e.value.senderBmp, e.value.textBmp, multiset{}, h'.live);
        var h2 := Free(Free(h', e.value.senderBmp), e.value.textBmp);
        assert multiset(h2.live) == multiset(h.live) by {
          var x, live, live2 := e.value.OwnedMs(), multiset(h'.live), multiset(h2.live);
          assert forall o :: live2[o] == (live - Ms(e.value.senderBmp) - Ms(e.value.textBmp))[o];
          assert forall o :: live[o] == multiset(h.live)[o] + x[o];
        }
      }
    }
  }

  /**
   * What the display side may assume of a queued event: its strings fit,
   * only a bitmap poke carries buffers, and each length fits its buffer.
   */
  predicate Deliverable(e: NetworkEvent) {
    && e.Fits()
    && (e.kind != PokeBitmap ==> e.OwnedMs() == multiset{})
    && (e.senderBmp.Some? ==> e.senderBmpLen <= |e.senderBmp.value.data|)
    && (e.textBmp.Some? ==> e.textBmpLen <= |e.textBmp.value.data|)
  }

  /**
   * The classification of a parsed message: "poke" becomes a bitmap poke
   * exactly when both bitmap strings and both widths are there, a text poke
   * otherwise, with "Someone" and "Poke!" for missing fields;
   * "claim_request" becomes a claim with the user name, "Unknown" by
   * default, cut to 32 characters; anything else queues nothing.
   */
  lemma WsClassification(h: Heap, doc: WsDoc, decoded: (Option<seq<byte>>, Option<seq<byte>>))
    requires h.Wf()
    ensures var r := WsMessage(h, Parsed(doc), decoded, true);
            && (r.queued.Some? <==> doc.msgType == Some("poke") || doc.msgType == Some("claim_request"))
            && (doc.msgType == Some("poke") ==>
                  && r.queued.value.kind == (if IsBitmapPoke(doc) then PokeBitmap else Poke)
                  && r.queued.value.sender == CStrCopy(Or(doc.sender, "Someone"), SENDER_CAP)
                  && r.queued.value.text == CStrCopy(Or(doc.text, "Poke!"), TEXT_CAP))
            && (doc.msgType == Some("poke") && IsBitmapPoke(doc) ==>
                  && r.queued.value.senderBmpWidth == Width(doc.senderBitmapWidth)
                  && r.queued.value.textBmpWidth == Width(doc.textBitmapWidth)
                  && (r.queued.value.senderBmp.Some? <==> decoded.0.Some?)
                  && (r.queued.value.textBmp.Some? <==> decoded.1.Some?))
            && (doc.msgType == Some("claim_request") ==>
                  r.queued.value.kind == ClaimRequest
                  && r.queued.value.sender == CStrCopy(Or(doc.userName, "Unknown"), SENDER_CAP))
  {
  }

  /**
   * The leak, exhibited: a bitmap poke whose two bitmaps decode, arriving
   * while the queue is full, leaves two live buffers that no event holds.
   */
  lemma ProducerLeaks()
    ensures var doc := WsDoc(Some("poke"), None, None, Some("AA=="), Some(8), Some("AA=="), Some(8), None);
            var r := WsMessageAsWritten(Heap({}, 0), Parsed(doc), (Some([0]), Some([0])), false);
            r.queued.None? && r.heap.live == {0, 1}
  {
  }

  // -----------------------------------------------------------------------
  // MQTT publications
  // -----------------------------------------------------------------------

  /** The parsed payload of a command publication: `None` when it is not JSON. */
  datatype MqttDoc = MqttDoc(command: Option<string>, sender: Option<string>, text: Option<string>)

  /** `<prefix>/<id><suffix>`. */
  function Topic(prefix: string, id: string, suffix: string): (t: string)
    ensures |t| == |prefix| + 1 + |id| + |suffix|
    ensures t[..|prefix|] == prefix && t[|prefix|] == '/'
    ensures t[|prefix| + 1..|prefix| + 1 + |id|] == id
    ensures t[|prefix| + 1 + |id|..] == suffix
  {
    prefix + "/" + id + suffix
  }

  /** With the prefix and the device ID fixed, the topic names its suffix and nothing else. */
  lemma TopicInjective(prefix: string, id: string, a: string, b: string)
    ensures Topic(prefix, id, a) == Topic(prefix, id, b) <==> a == b
  {
    var ta, tb := Topic(prefix, id, a), Topic(prefix, id, b);
    if ta == tb {
      assert a == ta[|prefix| + 1 + |id|..] == tb[|prefix| + 1 + |id|..] == b;
    }
  }

  const COMMAND: string := "/command"
  const MUTE_SET: string := "/mute/set"
  const ANIMATION_NEXT: string := "/animation/next"

  /** The three subscribed topics of one device are different strings. */
  lemma TopicsDistinct(prefix: string, id: string)
    ensures Topic(prefix, id, COMMAND) != Topic(prefix, id, MUTE_SET)
    ensures Topic(prefix, id, COMMAND) != Topic(prefix, id, ANIMATION_NEXT)
    ensures Topic(prefix, id, MUTE_SET) != Topic(prefix, id, ANIMATION_NEXT)
  {
  }

  /**
   * An `MQTT_COMMAND` event: the command name (a literal shorter than the
   * sender field, so `strncpy` copies it whole) and the payload, cut to 64
   * characters.
   */
  function CommandEvent(command: string, payload: string): (e: NetworkEvent)
    requires |command| <= SENDER_CAP
    ensures e.kind == MqttCommand && e.sender == command && e.text == CStrCopy(payload, TEXT_CAP)
    ensures e.Fits() && e.OwnedMs() == multiset{}
  {
    Blank(MqttCommand).(sender := command, text := CStrCopy(payload, TEXT_CAP))
  }

  /**
   * `mqttCallback`: the event to queue (when `xQueueSend` succeeds) and the
   * poke to publish back. A command topic with a "poke" command becomes a
   * text poke (defaults "MQTT" and "Poke!"); the mute topic becomes the
   * "mute" command with the raw payload; the animation topic becomes the
   * "animation_next" command. Anything else queues nothing.
   */
  function MqttCallback(topic: string, prefix: string, id: string, payload: string, json: Option<MqttDoc>, sent: bool)
    : (r: (Option<NetworkEvent>, Option<(string, string)>))
    ensures r.0.Some? ==> sent && r.0.value.Fits() && r.0.value.OwnedMs() == multiset{}
  {
    if topic == Topic(prefix, id, COMMAND) then
      if json.None? || json.value.command.None? || json.value.command.value != "poke" then (None, None)
      else
        var sender, text := Or(json.value.sender, "MQTT"), Or(json.value.text, "Poke!");
        (if sent then Some(PokeEvent(Poke, sender, text)) else None, Some((sender, text)))
    else if topic == Topic(prefix, id, MUTE_SET) then
      (if sent then Some(CommandEvent("mute", payload)) else None, None)
    else if topic == Topic(prefix, id, ANIMATION_NEXT) then
      (if sent then Some(CommandEvent("animation_next", "")) else None, None)
    else (None, None)
  }

  /** A command topic queues a text poke exactly for a JSON "poke" command, and publishes it back. */
  lemma MqttCommandTopic(prefix: string, id: string, payload: string, json: Option<MqttDoc>)
    ensures var (e, pub) := MqttCallback(Topic(prefix, id, COMMAND), prefix, id, payload, json, true);
            && (e.Some? <==> json.Some? && json.value.command == Some("poke"))
            && (e.Some? ==> e.value.kind == Poke
                            && e.value.sender == CStrCopy(Or(json.value.sender, "MQTT"), SENDER_CAP)
                            && e.value.text == CStrCopy(Or(json.value.text, "Poke!"), TEXT_CAP)
                            && pub == Some((Or(json.value.sender, "MQTT"), Or(json.value.text, "Poke!"))))
  {
  }

  /** The mute topic queues the "mute" command with the payload as its text. */
  lemma MqttMuteTopic(prefix: string, id: string, payload: string, json: Option<MqttDoc>)
    ensures var (e, pub) := MqttCallback(Topic(prefix, id, MUTE_SET), prefix, id, payload, json, true);
            e.Some? && e.value.kind == MqttCommand && e.value.sender == "mute"
            && e.value.text == CStrCopy(payload, TEXT_CAP) && pub.None?
  {
    TopicsDistinct(prefix, id);
  }

  /** The animation topic queues the "animation_next" command. */
  lemma MqttAnimationTopic(prefix: string, id: string, payload: string, json: Option<MqttDoc>)
    ensures var (e, pub) := MqttCallback(Topic(prefix, id, ANIMATION_NEXT), prefix, id, payload, json, true);
            e.Some? && e.value.kind == MqttCommand && e.value.sender == "animation_next" && pub.None?
  {
    TopicsDistinct(prefix, id);
  }
}
