/**
 * The shared vocabulary of the firmware tasks (app_state.h): display states,
 * gesture and network events, the poke history record, and the connectivity
 * event-group bits.
 *
 * Heap buffers are modelled explicitly: a `Buf` is an allocation with an
 * identity, a `Heap` is the set of identities currently allocated, and a
 * nullable `uint8_t *` is an `Option<Buf>`. `free` demands a live buffer,
 * so every model that frees must know who owns what.
 */
module AppState {
  import opened Wrappers
  import opened GifTypes
  import Clock

  datatype DisplayState =
    | BootAnim | WifiSetup | ConnectedInfo | GifPlayback | PokeDisplay
    | ClaimPrompt | HistoryTime | HistoryPoke | MuteFeedback | OfflineStatus

  datatype GestureType = GestureNone | TouchDown | SingleTap | DoubleTap | LongPress

  datatype GestureEvent = GestureEvent(kind: GestureType, timestamp: Clock.Millis)

  // -----------------------------------------------------------------------
  // Heap buffers
  // -----------------------------------------------------------------------

  /** A `malloc`ed buffer: its identity and its contents. */
  datatype Buf = Buf(id: nat, data: seq<byte>)

  /** The allocator: the live identities and the next fresh one. */
  datatype Heap = Heap(live: set<nat>, next: nat) {
    ghost predicate Wf() {
      forall id :: id in live ==> id < next
    }
  }

  /** The identities a nullable pointer holds. */
  function Ids(b: Option<Buf>): (r: set<nat>)
    ensures b.None? <==> r == {}
    ensures b.Some? ==> r == {b.value.id}
  {
    if b.Some? then {b.value.id} else {}
  }

  /**
   * The identities a nullable pointer holds, counted: ownership is accounted
   * with multisets so that a buffer held twice shows up as held twice.
   */
  function Ms(b: Option<Buf>): (m: multiset<nat>)
    ensures b.None? ==> m == multiset{}
    ensures b.Some? ==> m == multiset{b.value.id}
  {
    if b.Some? then multiset{b.value.id} else multiset{}
  }

  /** A successful `malloc` of a buffer holding `data`. */
  function Alloc(h: Heap, data: seq<byte>): (r: (Heap, Buf))
    requires h.Wf()
    ensures r.0.Wf()
    ensures r.1.id !in h.live && r.1.data == data
    ensures r.0.live == h.live + {r.1.id}
    ensures multiset(r.0.live) == multiset(h.live) + multiset{r.1.id}
    ensures r.0.next > h.next
  {
    (Heap(h.live + {h.next}, h.next + 1), Buf(h.next, data))
  }

  /** `if (p) free(p);`: the buffer must be live. */
  function Free(h: Heap, b: Option<Buf>): (r: Heap)
    requires Ids(b) <= h.live
    ensures r.live == h.live - Ids(b)
    ensures multiset(r.live) == multiset(h.live) - Ms(b)
    ensures r.next == h.next
    ensures h.Wf() ==> r.Wf()
  {
    h.(live := h.live - Ids(b))
  }

  /**
   * Multiset identities used by the ownership proofs. The solver proves
   * multiset equalities pointwise, so each lemma spells out the count at an
   * arbitrary identity.
   */
  lemma MsChain(a: multiset<nat>, r: multiset<nat>, r2: multiset<nat>, b: multiset<nat>, x: multiset<nat>)
    requires r2 + b == r + x
    ensures (a + r2) + b == (a + r) + x
  {
    assert forall o :: r2[o] + b[o] == (r2 + b)[o] == (r + x)[o] == r[o] + x[o];
  }

  lemma MsSwap(a: multiset<nat>, r: multiset<nat>, x: multiset<nat>)
    ensures (x + r) + a == (a + r) + x
    ensures a <= a + r
  {
    assert forall o :: ((x + r) + a)[o] == ((a + r) + x)[o];
  }

  lemma MsAddTwice(m: multiset<nat>, m2: multiset<nat>, m3: multiset<nat>, a: multiset<nat>, b: multiset<nat>)
    requires m2 == m + a && m3 == m2 + b
    ensures m3 == m + (a + b)
  {
    assert forall o :: m3[o] == m2[o] + b[o] == m[o] + a[o] + b[o];
  }

  /** An owner of `a`, `b` and `r` that frees `a` and `b` still accounts for the heap exactly with `r`. */
  lemma MsFreeTwo(a: multiset<nat>, b: multiset<nat>, r: multiset<nat>, other: multiset<nat>,
                  live: multiset<nat>, live2: multiset<nat>)
    requires ((a + b) + r) + other == live
    requires live2 == live - a - b
    ensures r + other == live2
  {
    assert forall x :: a[x] + b[x] + r[x] + other[x] == (((a + b) + r) + other)[x] == live[x];
    assert forall x :: live2[x] == (live - a - b)[x];
  }

  /** What an owner of `a`, `b` and `r` keeps after freeing `a` and `b` is still live. */
  lemma MsFreeTwoWithin(a: multiset<nat>, b: multiset<nat>, r: multiset<nat>, live: multiset<nat>, live2: multiset<nat>)
    requires (a + b) + r <= live
    requires live2 == live - a - b
    ensures r <= live2
  {
    assert forall x :: a[x] + b[x] + r[x] == ((a + b) + r)[x] <= live[x];
    assert forall x :: live2[x] == (live - a - b)[x];
  }

  /**
   * An owner of `a`, `b` and `r` that frees `a` and `b` and takes over `x`
   * from `other` accounts for the heap exactly with `x` and `r`.
   */
  lemma MsTakeOver(a: multiset<nat>, b: multiset<nat>, r: multiset<nat>, x: multiset<nat>, other: multiset<nat>,
                   live: multiset<nat>, live2: multiset<nat>)
    requires ((a + b) + r) + (other + x) == live
    requires live2 == live - a - b
    ensures (x + r) + other == live2
    ensures x + ((a + b) + r) <= live
  {
    assert forall y :: a[y] + b[y] + r[y] + other[y] + x[y] == (((a + b) + r) + (other + x))[y] == live[y];
    assert forall y :: live2[y] == (live - a - b)[y];
  }

  lemma MsWithin(a: multiset<nat>, r: multiset<nat>, b: multiset<nat>)
    requires b <= r
    ensures b <= a + r
  {
    assert forall o :: b[o] <= r[o] <= (a + r)[o];
  }

  /**
   * An owner that gives up `gone` and takes on `added`, on a heap that frees
   * `gone` and allocates `added`, still accounts for the heap exactly.
   */
  lemma MsExchange(o: multiset<nat>, o2: multiset<nat>, gone: multiset<nat>, added: multiset<nat>,
                   other: multiset<nat>, live: multiset<nat>, live2: multiset<nat>)
    requires o2 + gone == o + added && gone <= o
    requires o + other == live
    requires live2 == live - gone + added
    ensures o2 + other == live2
  {
    assert forall x :: o2[x] + gone[x] == (o2 + gone)[x] == (o + added)[x] == o[x] + added[x];
    assert forall x :: o[x] + other[x] == (o + other)[x] == live[x];
    assert forall x :: gone[x] <= o[x];
    assert forall x :: live2[x] == (live - gone + added)[x];
  }

  /** An owner of part of the heap accounts for all of it together with the rest. */
  lemma MsRest(o: multiset<nat>, live: multiset<nat>)
    requires o <= live
    ensures o + (live - o) == live
  {
    assert forall x :: (o + (live - o))[x] == o[x] + (live[x] - o[x]) == live[x];
  }

  /** Freeing two buffers that another party held leaves the owner exact with the remaining parties. */
  lemma MsDropPair(a: multiset<nat>, b: multiset<nat>, o: multiset<nat>, other: multiset<nat>,
                   live: multiset<nat>, live2: multiset<nat>)
    requires o + (other + (a + b)) == live
    requires live2 == live - a - b
    ensures o + other == live2
  {
    assert forall x :: o[x] + other[x] + a[x] + b[x] == (o + (other + (a + b)))[x] == live[x];
    assert forall x :: live2[x] == (live - a - b)[x];
  }

  /** Two pointers counted within a set's multiset are live and are different buffers. */
  lemma {:induction false} PairHeld(a: Option<Buf>, b: Option<Buf>, rest: multiset<nat>, live: set<nat>)
    requires Ms(a) + Ms(b) + rest <= multiset(live)
    ensures Ids(a) + Ids(b) <= live && Ids(a) !! Ids(b)
    ensures rest <= multiset(live)
  {
    var m := Ms(a) + Ms(b) + rest;
    assert forall o :: rest[o] <= m[o];
    if a.Some? {
      assert m[a.value.id] >= 1;
    }
    if b.Some? {
      assert m[b.value.id] >= 1;
    }
    if a.Some? && b.Some? {
      var id := a.value.id;
      assert m[id] >= 1 + Ms(b)[id];
      assert multiset(live)[id] <= 1;
    }
  }

  // -----------------------------------------------------------------------
  // Network events
  // -----------------------------------------------------------------------

  datatype NetKind = Poke | PokeBitmap | ClaimRequest | WifiStatus | WsStatus | MqttCommand

  const SENDER_CAP: nat := 32
  const TEXT_CAP: nat := 64

  /**
   * A queued network event. The bitmap pointers belong to whoever holds the
   * event: the receiver must either keep or free them.
   */
  datatype NetworkEvent = NetworkEvent(
    kind: NetKind,
    sender: string,
    text: string,
    senderBmp: Option<Buf>,
    senderBmpWidth: nat,
    senderBmpLen: nat,
    textBmp: Option<Buf>,
    textBmpWidth: nat,
    textBmpLen: nat,
    connected: bool)
  {
    /** The buffers the event carries. */
    function Owned(): set<nat> {
      Ids(senderBmp) + Ids(textBmp)
    }

    function OwnedMs(): multiset<nat> {
      Ms(senderBmp) + Ms(textBmp)
    }

    /** Text fields fit their `char[33]` / `char[65]` arrays. */
    predicate Fits() {
      |sender| <= SENDER_CAP && |text| <= TEXT_CAP
    }
  }

  /** `NetworkEvent evt = {}` with the given kind: empty strings, null pointers, zeroes. */
  function Blank(kind: NetKind): (e: NetworkEvent)
    ensures e.kind == kind && e.Owned() == {} && e.Fits()
    ensures e.sender == "" && e.text == "" && !e.connected
  {
    NetworkEvent(kind, "", "", None, 0, 0, None, 0, 0, false)
  }

  /**
   * `strncpy(dst, src, cap)` into a zeroed `char[cap + 1]`, read back as a C
   * string: the characters of `src` up to its first NUL, at most `cap` of them.
   * Each character stands for one byte, as for ASCII text; a UTF-8 string is
   * cut by `strncpy` at a byte count, which this does not model.
   */
  function CStrCopy(src: string, cap: nat): (r: string)
    ensures |r| <= cap && |r| <= |src|
    ensures r == src[..|r|]
    ensures forall k :: 0 <= k < |r| ==> r[k] != '\0'
    ensures |r| < cap ==> |r| == |src| || src[|r|] == '\0'
    decreases cap
  {
    if cap == 0 || |src| == 0 || src[0] == '\0' then ""
    else [src[0]] + CStrCopy(src[1..], cap - 1)
  }

  /** The characterisation of `CStrCopy` pins it down: any string with those properties is the copy. */
  lemma {:induction false} CStrCopyUnique(src: string, cap: nat, r: string)
    requires |r| <= cap && |r| <= |src| && r == src[..|r|]
    requires forall k :: 0 <= k < |r| ==> r[k] != '\0'
    requires |r| < cap ==> |r| == |src| || src[|r|] == '\0'
    ensures r == CStrCopy(src, cap)
    decreases cap
  {
    if cap == 0 || |src| == 0 || src[0] == '\0' {
    } else {
      assert |r| > 0;
      var r' := r[1..];
      assert r' == src[1..][..|r'|];
      if |r'| < cap - 1 {
        assert |r| < cap;
      }
      CStrCopyUnique(src[1..], cap - 1, r');
      assert r == [src[0]] + r';
    }
  }

  /** A C string that fits is copied whole; a copy of a copy changes nothing. */
  lemma CStrCopyFits(src: string, cap: nat)
    ensures (forall k :: 0 <= k < |src| ==> src[k] != '\0') && |src| <= cap ==> CStrCopy(src, cap) == src
    ensures CStrCopy(CStrCopy(src, cap), cap) == CStrCopy(src, cap)
  {
    var r := CStrCopy(src, cap);
    if (forall k :: 0 <= k < |src| ==> src[k] != '\0') && |src| <= cap {
      CStrCopyUnique(src, cap, src);
    }
    CStrCopyUnique(r, cap, r);
  }

  // -----------------------------------------------------------------------
  // Poke history record
  // -----------------------------------------------------------------------

  /** `PokeRecord`: a poke kept in history, with optional owned bitmap copies. */
  datatype PokeRecord = PokeRecord(
    sender: string,
    text: string,
    timestamp: int,
    senderBmp: Option<Buf>,
    senderBmpW: nat,
    senderBmpH: nat,
    textBmp: Option<Buf>,
    textBmpW: nat,
    textBmpH: nat,
    hasBitmaps: bool)
  {
    function Owned(): set<nat> {
      Ids(senderBmp) + Ids(textBmp)
    }

    function OwnedMs(): multiset<nat> {
      Ms(senderBmp) + Ms(textBmp)
    }

    /** The two copies are separate allocations. */
    predicate Separate() {
      Ids(senderBmp) !! Ids(textBmp)
    }

    /** No pointers, no dimensions, no bitmap flag. */
    predicate Bare() {
      && senderBmp.None? && textBmp.None?
      && senderBmpW == 0 && senderBmpH == 0 && textBmpW == 0 && textBmpH == 0
      && !hasBitmaps
    }
  }

  /** A default-constructed `PokeRecord`. */
  const FRESH_RECORD: PokeRecord := PokeRecord("", "", 0, None, 0, 0, None, 0, 0, false)

  lemma FreshRecordIsBare()
    ensures FRESH_RECORD.Bare() && FRESH_RECORD.Owned() == {}
  {
  }

  /** `PokeRecord::freeBitmaps`: frees what the record owns and resets the bitmap fields. */
  function FreeBitmaps(rec: PokeRecord, h: Heap): (r: (PokeRecord, Heap))
    requires rec.Owned() <= h.live && rec.Separate()
    ensures r.0.Bare() && r.0.Owned() == {}
    ensures r.1.live == h.live - rec.Owned()
    ensures multiset(r.1.live) == multiset(h.live) - rec.OwnedMs()
    ensures r.1.next == h.next
    ensures r.0.sender == rec.sender && r.0.text == rec.text && r.0.timestamp == rec.timestamp
    ensures h.Wf() ==> r.1.Wf()
  {
    var h1 := Free(h, rec.senderBmp);
    var h2 := Free(h1, rec.textBmp);
    (rec.(senderBmp := None, textBmp := None, hasBitmaps := false,
          senderBmpW := 0, senderBmpH := 0, textBmpW := 0, textBmpH := 0), h2)
  }

  /** A second `freeBitmaps` frees nothing and changes nothing. */
  lemma FreeBitmapsIdempotent(rec: PokeRecord, h: Heap, h': Heap)
    requires rec.Owned() <= h.live && rec.Separate()
    ensures var (rec1, _) := FreeBitmaps(rec, h); FreeBitmaps(rec1, h') == (rec1, h')
  {
    var (rec1, _) := FreeBitmaps(rec, h);
    assert h'.live - Ids(rec1.senderBmp) - Ids(rec1.textBmp) == h'.live;
  }

  // -----------------------------------------------------------------------
  // Connectivity event group
  // -----------------------------------------------------------------------

  const WIFI_CONNECTED_BIT: bv32 := 1 << 0
  const WS_CONNECTED_BIT: bv32 := 1 << 1
  const MQTT_CONNECTED_BIT: bv32 := 1 << 2

  /** The event-group value for the three connection flags. */
  function Connectivity(wifi: bool, ws: bool, mqtt: bool): (bits: bv32)
    ensures (bits & WIFI_CONNECTED_BIT != 0) == wifi
    ensures (bits & WS_CONNECTED_BIT != 0) == ws
    ensures (bits & MQTT_CONNECTED_BIT != 0) == mqtt
  {
    (if wifi then WIFI_CONNECTED_BIT else 0) | (if ws then WS_CONNECTED_BIT else 0)
      | (if mqtt then MQTT_CONNECTED_BIT else 0)
  }

  /** The three flags are distinct single bits, so each can be set and cleared alone. */
  lemma ConnectivityBitsDistinct()
    ensures WIFI_CONNECTED_BIT & WS_CONNECTED_BIT == 0
    ensures WIFI_CONNECTED_BIT & MQTT_CONNECTED_BIT == 0
    ensures WS_CONNECTED_BIT & MQTT_CONNECTED_BIT == 0
    ensures SingleBit(WIFI_CONNECTED_BIT) && SingleBit(WS_CONNECTED_BIT) && SingleBit(MQTT_CONNECTED_BIT)
  {
  }

  /** Exactly one bit is set. */
  predicate SingleBit(b: bv32) {
    b != 0 && b & (b - 1) == 0
  }
}
