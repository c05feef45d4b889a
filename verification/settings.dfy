/**
 * Device settings (settings.cpp): the buzzer volume and the volume saved
 * across a mute, the identity strings derived from the factory MAC address,
 * and the part of `loadSettings` that derives values from what is stored.
 *
 * The NVS store is a record of optional stored values (absent keys fall
 * back to the defaults of the `get` calls); the MAC address is a parameter.
 */
module Settings {
  import opened Wrappers
  import GifPlayer

  const MAX_VOLUME: nat := 100
  const DEFAULT_BRIGHTNESS: nat := 0x80
  const DEFAULT_VOLUME: nat := 100
  /** The speed divisor applied at boot when none is stored. */
  const DEFAULT_SPEED: nat := 5
  const NAME_PREFIX: string := "QBIT-"

  /** The settings' static variables that this model follows. */
  datatype Settings = Settings(
    brightness: nat,
    buzzerVolume: nat,
    savedVolume: nat,
    deviceId: string,     // "" until first computed, then cached
    deviceName: string)

  /** The static initialisers. */
  const INITIAL: Settings := Settings(DEFAULT_BRIGHTNESS, DEFAULT_VOLUME, DEFAULT_VOLUME, "", "")

  // -----------------------------------------------------------------------
  // Volume
  // -----------------------------------------------------------------------

  /** `setBuzzerVolume(pct)`: a `uint8_t` percentage, clamped to 100. */
  function SetBuzzerVolume(s: Settings, pct: nat): (r: Settings)
    requires pct < 256
    ensures r.buzzerVolume <= MAX_VOLUME
    ensures pct <= MAX_VOLUME ==> r.buzzerVolume == pct
    ensures pct > MAX_VOLUME ==> r.buzzerVolume == MAX_VOLUME
    ensures r.(buzzerVolume := s.buzzerVolume) == s
  {
    s.(buzzerVolume := if pct > MAX_VOLUME then MAX_VOLUME else pct)
  }

  /** Setting a volume twice is setting it once, and setting the current volume changes nothing. */
  lemma SetBuzzerVolumeIdempotent(s: Settings, pct: nat)
    requires pct < 256
    ensures SetBuzzerVolume(SetBuzzerVolume(s, pct), pct) == SetBuzzerVolume(s, pct)
    ensures s.buzzerVolume <= MAX_VOLUME ==> SetBuzzerVolume(s, s.buzzerVolume) == s
  {
  }

  /** `setSavedVolume`. */
  function SetSavedVolume(s: Settings, vol: nat): (r: Settings)
    ensures r.savedVolume == vol
    ensures r.(savedVolume := s.savedVolume) == s
  {
    s.(savedVolume := vol)
  }

  // -----------------------------------------------------------------------
  // Hexadecimal formatting
  // -----------------------------------------------------------------------

  const HEX_DIGITS: string := "0123456789ABCDEF"

  predicate IsHexDigit(c: char) {
    c in HEX_DIGITS
  }

  function Pow16(n: nat): (p: nat)
    ensures p >= 1
  {
    if n == 0 then 1 else 16 * Pow16(n - 1)
  }

  /** `%0<n>X`: the low `n` hexadecimal digits of `v`, upper case, most significant first. */
  function Hex(v: nat, n: nat): (s: string)
    ensures |s| == n
    ensures forall k :: 0 <= k < |s| ==> IsHexDigit(s[k])
  {
    if n == 0 then "" else Hex(v / 16, n - 1) + [HEX_DIGITS[v % 16]]
  }

  function DigitValue(c: char): (d: nat)
    ensures d < 16
    ensures IsHexDigit(c) ==> HEX_DIGITS[d] == c
  {
    if '0' <= c <= '9' then (c - '0') as nat
    else if 'A' <= c <= 'F' then (c - 'A') as nat + 10
    else 0
  }

  /** Reading hexadecimal digits back, most significant first. */
  function ParseHex(s: string): (v: nat)
    ensures v < Pow16(|s|)
  {
    if |s| == 0 then 0 else ParseHex(s[..|s| - 1]) * 16 + DigitValue(s[|s| - 1])
  }

  /** Formatting then reading back recovers the value modulo 16^n: nothing but the dropped high digits is lost. */
  lemma {:induction false} HexRoundTrip(v: nat, n: nat)
    ensures ParseHex(Hex(v, n)) == v % Pow16(n)
  {
    if n > 0 {
      var s := Hex(v, n);
      assert s[..|s| - 1] == Hex(v / 16, n - 1);
      HexRoundTrip(v / 16, n - 1);
      assert DigitValue(s[|s| - 1]) == v % 16 by {
        DigitsDistinct(v % 16);
      }
      ModPow16(v, n);
    }
  }

  /** A value that fits in `n` digits is read back exactly. */
  lemma HexRoundTripBelow(v: nat, n: nat)
    requires v < Pow16(n)
    ensures ParseHex(Hex(v, n)) == v
  {
    HexRoundTrip(v, n);
    ModBelow(v, Pow16(n));
  }

  lemma ModBelow(v: nat, m: nat)
    requires v < m
    ensures v % m == v
  {
  }

  lemma Pow16Values()
    ensures Pow16(4) == 0x1_0000 && Pow16(8) == 0x1_0000_0000
  {
  }

  /** `HEX_DIGITS[d]` reads back as `d`. */
  lemma DigitsDistinct(d: nat)
    requires d < 16
    ensures DigitValue(HEX_DIGITS[d]) == d
  {
  }

  /** `v mod 16^n` in terms of `v / 16`. */
  lemma ModPow16(v: nat, n: nat)
    requires n > 0
    ensures v % Pow16(n) == (v / 16) % Pow16(n - 1) * 16 + v % 16
  {
    var p := Pow16(n - 1);
    var q := v / 16;
    var a := q / p;
    var b := q % p;
    assert v == a * (16 * p) + (b * 16 + v % 16) by {
      assert q == a * p + b;
      assert v == q * 16 + v % 16;
    }
    assert b * 16 + v % 16 < 16 * p by {
      assert b + 1 <= p;
      assert (b + 1) * 16 <= p * 16;
    }
    DivModUnique(v, 16 * p, a, b * 16 + v % 16);
  }

  lemma DivModUnique(v: nat, d: nat, q: nat, r: nat)
    requires d > 0 && r < d && v == q * d + r
    ensures v % d == r
  {
    var q0, r0 := v / d, v % d;
    var k := q0 - q;
    assert k * d == r - r0 by {
      assert v == q0 * d + r0;
      assert q0 * d - q * d == k * d;
    }
    if k >= 1 {
      MulAtLeast(k, d);
    } else if k <= -1 {
      MulAtLeast(-k, d);
    }
  }

  lemma MulAtLeast(k: int, d: nat)
    requires k >= 1
    ensures k * d >= d
  {
  }

  // -----------------------------------------------------------------------
  // Identity
  // -----------------------------------------------------------------------

  const MAC_LIMIT: nat := 0x1_0000_0000_0000_0000

  /** `%04X%08X` of the MAC's bits 32..47 and 0..31. */
  function FormatDeviceId(mac: nat): (id: string)
    requires mac < MAC_LIMIT
    ensures |id| == 12
    ensures forall k :: 0 <= k < |id| ==> IsHexDigit(id[k])
  {
    Hex((mac / 0x1_0000_0000) % 0x1_0000, 4) + Hex(mac % 0x1_0000_0000, 8)
  }

  /** `getDeviceId`: computed on first use, then cached and returned unchanged. */
  function GetDeviceId(s: Settings, mac: nat): (r: (Settings, string))
    requires mac < MAC_LIMIT
    ensures r.1 == r.0.deviceId && r.1 != ""
    ensures s.deviceId != "" ==> r == (s, s.deviceId)
    ensures s.deviceId == "" ==> r.1 == FormatDeviceId(mac)
    ensures r.0.(deviceId := s.deviceId) == s
  {
    if |s.deviceId| == 0 then
      var id := FormatDeviceId(mac);
      (s.(deviceId := id), id)
    else (s, s.deviceId)
  }

  /** A second call returns the first call's ID whatever MAC it is given. */
  lemma DeviceIdCached(s: Settings, mac: nat, mac': nat)
    requires mac < MAC_LIMIT && mac' < MAC_LIMIT
    ensures var (s1, id1) := GetDeviceId(s, mac); GetDeviceId(s1, mac') == (s1, id1)
  {
  }

  /** `getApPassword`: `%08X` of the MAC's low 32 bits. */
  function ApPassword(mac: nat): (pwd: string)
    ensures |pwd| == 8
    ensures forall k :: 0 <= k < |pwd| ==> IsHexDigit(pwd[k])
  {
    Hex(mac % 0x1_0000_0000, 8)
  }

  /**
   * The device ID spells the MAC's bits 32..47 and then its low 32 bits in
   * hexadecimal, and the AP password is the ID's last 8 characters.
   */
  lemma DeviceIdSpellsMac(mac: nat)
    requires mac < MAC_LIMIT
    ensures var id := FormatDeviceId(mac);
            && ParseHex(id[..4]) == (mac / 0x1_0000_0000) % 0x1_0000
            && ParseHex(id[4..]) == mac % 0x1_0000_0000
            && id[4..] == ApPassword(mac)
  {
    var id := FormatDeviceId(mac);
    var hi, lo := (mac / 0x1_0000_0000) % 0x1_0000, mac % 0x1_0000_0000;
    assert id[..4] == Hex(hi, 4) && id[4..] == Hex(lo, 8);
    Pow16Values();
    HexRoundTripBelow(hi, 4);
    HexRoundTripBelow(lo, 8);
  }

  /** Arduino `String::substring(0, n)`: at most the first `n` characters. */
  function Prefix(s: string, n: nat): (r: string)
    ensures |r| == if |s| < n then |s| else n
    ensures r == s[..|r|]
  {
    if |s| < n then s else s[..n]
  }

  /** The name used when none is stored: "QBIT-" and the first four ID characters. */
  function DefaultName(id: string): (name: string)
    ensures |name| == |NAME_PREFIX| + |Prefix(id, 4)|
    ensures name[..|NAME_PREFIX|] == NAME_PREFIX
    ensures name[|NAME_PREFIX|..] == Prefix(id, 4)
  {
    NAME_PREFIX + Prefix(id, 4)
  }

  // -----------------------------------------------------------------------
  // Loading
  // -----------------------------------------------------------------------

  /** The NVS keys this model reads; `None` is a missing key. */
  datatype Stored = Stored(bright: Option<nat>, volume: Option<nat>, speed: Option<nat>, devname: Option<string>)

  function OrElse<T>(o: Option<T>, d: T): (r: T)
    ensures o.Some? ==> r == o.value
    ensures o.None? ==> r == d
  {
    if o.Some? then o.value else d
  }

  /**
   * `loadSettings`: stored values or defaults; the saved volume is the
   * loaded volume unless that is 0 (muted), in which case it is 100. The
   * stored speed (5 when missing) is handed to the player's `setSpeed`.
   */
  function Load(s: Settings, p: GifPlayer.Player, stored: Stored, mac: nat): (r: (Settings, GifPlayer.Player))
    requires mac < MAC_LIMIT
    ensures r.0.brightness == OrElse(stored.bright, DEFAULT_BRIGHTNESS)
    ensures r.0.buzzerVolume == OrElse(stored.volume, DEFAULT_VOLUME)
    ensures r.0.savedVolume > 0
    ensures r.0.buzzerVolume > 0 ==> r.0.savedVolume == r.0.buzzerVolume
    ensures r.0.buzzerVolume == 0 ==> r.0.savedVolume == DEFAULT_VOLUME
    ensures stored.devname.None? ==> r.0.deviceName == DefaultName(r.0.deviceId)
    ensures stored.devname.Some? ==> r.0.deviceName == stored.devname.value
    ensures s.deviceId != "" ==> r.0.deviceId == s.deviceId
    ensures stored.speed.None? ==> r.1.speedDivisor == DEFAULT_SPEED
    ensures stored.speed.Some? && stored.speed.value > 0 ==> r.1.speedDivisor == stored.speed.value
    ensures stored.speed == Some(0) ==> r.1.speedDivisor == 1
    ensures r.1.(speedDivisor := p.speedDivisor) == p
  {
    var volume := OrElse(stored.volume, DEFAULT_VOLUME);
    var (s1, id) := GetDeviceId(s, mac);
    var s2 := s1.(brightness := OrElse(stored.bright, DEFAULT_BRIGHTNESS),
                  buzzerVolume := volume,
                  savedVolume := if volume > 0 then volume else DEFAULT_VOLUME,
                  deviceName := OrElse(stored.devname, DefaultName(id)));
    (s2, GifPlayer.SetSpeed(p, OrElse(stored.speed, DEFAULT_SPEED)))
  }

  /**
   * After a boot with no speed stored the player plays five times faster
   * than the file's delays: a frame of `delay` ms waits `delay / 5` ms, at
   * least 1.
   */
  lemma BootSpeedDefault(stored: Stored, mac: nat, delay: nat)
    requires mac < MAC_LIMIT && stored.speed.None?
    ensures var p := Load(INITIAL, GifPlayer.INITIAL, stored, mac).1;
            && GifPlayer.Wf(p) && !p.playing
            && GifPlayer.FrameWait(delay, p.speedDivisor) == if delay / DEFAULT_SPEED >= 1 then delay / DEFAULT_SPEED else 1
  {
    GifPlayer.InitialOk();
    var p := Load(INITIAL, GifPlayer.INITIAL, stored, mac).1;
    assert p.speedDivisor == DEFAULT_SPEED;
  }

  /** With no name stored, the name is "QBIT-" and the first four hex digits of the MAC's bits 32..47. */
  lemma DefaultNameFromMac(stored: Stored, mac: nat)
    requires mac < MAC_LIMIT && stored.devname.None?
    ensures var name := Load(INITIAL, GifPlayer.INITIAL, stored, mac).0.deviceName;
            |name| == 9 && name[..5] == NAME_PREFIX && ParseHex(name[5..]) == (mac / 0x1_0000_0000) % 0x1_0000
  {
    var id := FormatDeviceId(mac);
    DeviceIdSpellsMac(mac);
    assert Load(INITIAL, GifPlayer.INITIAL, stored, mac).0.deviceName == NAME_PREFIX + id[..4];
    assert (NAME_PREFIX + id[..4])[5..] == id[..4];
  }
}
