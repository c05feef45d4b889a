/**
 * Timezone handling (time_manager.cpp): the fixed table from IANA zone names
 * to POSIX TZ strings, the lookup over it, setting a timezone, and the test
 * for a synchronised clock.
 *
 * The process environment is the `tz` field (`None` while TZ was never set);
 * the RAM copy `_tzIANA` of the zone name is the `storedIana` field. NVS
 * holds the name only once `saveSettings` has written it, and a reboot
 * starts from that persisted name with TZ unset (`Reboot`).
 */
module TimeManager {
  import opened Wrappers

  datatype TzEntry = TzEntry(iana: string, posix: string)

  /** `TZ_TABLE`, without its null terminator. */
  const TZ_TABLE: seq<TzEntry> := [
    TzEntry("Pacific/Midway", "SST11"),
    TzEntry("Pacific/Honolulu", "HST10"),
    TzEntry("America/Anchorage", "AKST9AKDT,M3.2.0,M11.1.0"),
    TzEntry("America/Los_Angeles", "PST8PDT,M3.2.0,M11.1.0"),
    TzEntry("America/Denver", "MST7MDT,M3.2.0,M11.1.0"),
    TzEntry("America/Phoenix", "MST7"),
    TzEntry("America/Chicago", "CST6CDT,M3.2.0,M11.1.0"),
    TzEntry("America/New_York", "EST5EDT,M3.2.0,M11.1.0"),
    TzEntry("America/Sao_Paulo", "<-03>3"),
    TzEntry("Atlantic/Reykjavik", "GMT0"),
    TzEntry("Europe/London", "GMT0BST,M3.5.0/1,M10.5.0"),
    TzEntry("Europe/Paris", "CET-1CEST,M3.5.0,M10.5.0/3"),
    TzEntry("Europe/Berlin", "CET-1CEST,M3.5.0,M10.5.0/3"),
    TzEntry("Europe/Helsinki", "EET-2EEST,M3.5.0/3,M10.5.0/4"),
    TzEntry("Europe/Moscow", "MSK-3"),
    TzEntry("Asia/Dubai", "<+04>-4"),
    TzEntry("Asia/Kolkata", "IST-5:30"),
    TzEntry("Asia/Bangkok", "<+07>-7"),
    TzEntry("Asia/Shanghai", "CST-8"),
    TzEntry("Asia/Taipei", "CST-8"),
    TzEntry("Asia/Hong_Kong", "HKT-8"),
    TzEntry("Asia/Singapore", "<+08>-8"),
    TzEntry("Asia/Tokyo", "JST-9"),
    TzEntry("Asia/Seoul", "KST-9"),
    TzEntry("Australia/Sydney", "AEST-10AEDT,M10.1.0,M4.1.0/3"),
    TzEntry("Australia/Perth", "AWST-8"),
    TzEntry("Pacific/Auckland", "NZST-12NZDT,M9.5.0,M4.1.0/3"),
    TzEntry("Etc/UTC", "UTC0")
  ]

  /** The table's zone names. */
  function Zones(table: seq<TzEntry>): (names: set<string>)
    ensures forall i :: 0 <= i < |table| ==> table[i].iana in names
    ensures forall n :: n in names ==> exists i :: 0 <= i < |table| && table[i].iana == n
  {
    set i | 0 <= i < |table| :: table[i].iana
  }

  /** The scan of `ianaToPosix` from entry `i` on: the first entry named `iana`. */
  function Scan(table: seq<TzEntry>, iana: string, i: nat): (r: Option<nat>)
    requires i <= |table|
    ensures r.Some? ==> i <= r.value < |table| && table[r.value].iana == iana
    ensures r.Some? ==> forall j :: i <= j < r.value ==> table[j].iana != iana
    ensures r.None? ==> forall j :: i <= j < |table| ==> table[j].iana != iana
    decreases |table| - i
  {
    if i == |table| then None
    else if table[i].iana == iana then Some(i)
    else Scan(table, iana, i + 1)
  }

  /** `ianaToPosix`: the POSIX string of the first matching entry, or null. */
  function IanaToPosix(iana: string): (r: Option<string>)
  {
    var i := Scan(TZ_TABLE, iana, 0);
    if i.Some? then Some(TZ_TABLE[i.value].posix) else None
  }

  /** The table names each zone once, so "first matching entry" is "the entry". */
  lemma ZonesDistinct()
    ensures forall i, j :: 0 <= i < j < |TZ_TABLE| ==> TZ_TABLE[i].iana != TZ_TABLE[j].iana
  {
  }

  /**
   * The lookup knows exactly the table's zones: a name in the table yields
   * its entry's POSIX string, any other name yields null.
   */
  lemma {:induction false} IanaToPosixSpec(iana: string)
    ensures IanaToPosix(iana).Some? <==> iana in Zones(TZ_TABLE)
    ensures forall i :: 0 <= i < |TZ_TABLE| && TZ_TABLE[i].iana == iana ==>
              IanaToPosix(iana) == Some(TZ_TABLE[i].posix)
  {
    var r := Scan(TZ_TABLE, iana, 0);
    ZonesDistinct();
    if iana in Zones(TZ_TABLE) {
      var i :| 0 <= i < |TZ_TABLE| && TZ_TABLE[i].iana == iana;
      assert r.Some?;
    }
  }

  /** No zone has an empty name, so an empty name is unknown. */
  lemma EmptyNameUnknown()
    ensures IanaToPosix("") == None
  {
    assert forall i :: 0 <= i < |TZ_TABLE| ==> |TZ_TABLE[i].iana| > 0;
  }

  /** The stored zone name and the process's TZ variable. */
  datatype TimeState = TimeState(storedIana: string, tz: Option<string>)

  /**
   * `timeManagerSetTimezone`: the name is stored whatever it is; TZ changes
   * only when the name is a known zone.
   */
  function SetTimezone(s: TimeState, iana: string): (r: TimeState)
    ensures r.storedIana == iana
    ensures IanaToPosix(iana).Some? ==> r.tz == IanaToPosix(iana)
    ensures IanaToPosix(iana).None? ==> r.tz == s.tz
  {
    var posix := IanaToPosix(iana);
    TimeState(iana, if posix.Some? then posix else s.tz)
  }

  /** `timeManagerInit`: applies the stored zone, when it is non-empty and known, and stores nothing. */
  function Init(s: TimeState): (r: TimeState)
    ensures r.storedIana == s.storedIana
    ensures IanaToPosix(s.storedIana).Some? ==> r.tz == IanaToPosix(s.storedIana)
    ensures IanaToPosix(s.storedIana).None? ==> r == s
  {
    EmptyNameUnknown();
    if |s.storedIana| > 0 then
      var posix := IanaToPosix(s.storedIana);
      if posix.Some? then s.(tz := posix) else s
    else s
  }

  /**
   * Running `timeManagerInit` again within one boot after a zone was set
   * changes nothing: what it applies is what the set already applied.
   */
  lemma SetThenInit(s: TimeState, iana: string)
    ensures Init(SetTimezone(s, iana)) == SetTimezone(s, iana)
  {
  }

  /**
   * A boot from the name persisted in NVS: `loadSettings` reads it into the
   * RAM copy, TZ starts unset, and `timeManagerInit` applies the name when
   * it is a known zone.
   */
  function Reboot(persisted: string): (r: TimeState)
    ensures r.storedIana == persisted
    ensures r.tz == IanaToPosix(persisted)
  {
    Init(TimeState(persisted, None))
  }

  /**
   * A zone set and then saved (`timeManagerDetectTimezone` calls
   * `saveSettings` right after the set) survives a reboot when it is known:
   * the TZ after the boot is the TZ the set applied. An unknown zone leaves
   * TZ unset after the boot, whatever TZ the set kept.
   */
  lemma SavedZoneSurvivesReboot(s: TimeState, iana: string)
    ensures Reboot(SetTimezone(s, iana).storedIana).storedIana == iana
    ensures IanaToPosix(iana).Some? ==> Reboot(SetTimezone(s, iana).storedIana).tz == SetTimezone(s, iana).tz
    ensures IanaToPosix(iana).None? ==> Reboot(SetTimezone(s, iana).storedIana).tz == None
  {
  }

  /**
   * Setting an unknown zone while a zone is applied keeps that zone for the
   * rest of the boot, but after a reboot TZ is unset: a reboot is not a
   * second `timeManagerInit`.
   */
  lemma UnknownZoneLostOnReboot(s: TimeState, iana: string)
    requires s.tz.Some? && iana !in Zones(TZ_TABLE)
    ensures SetTimezone(s, iana).tz == s.tz
    ensures Reboot(SetTimezone(s, iana).storedIana).tz == None
  {
    IanaToPosixSpec(iana);
  }

  /** Setting a zone outside the table stores its name and leaves the clock's zone as it was. */
  lemma UnknownZoneKeepsTz(s: TimeState, iana: string)
    requires iana !in Zones(TZ_TABLE)
    ensures SetTimezone(s, iana) == s.(storedIana := iana)
  {
    IanaToPosixSpec(iana);
  }

  /** Setting a zone twice is setting it once. */
  lemma SetTimezoneIdempotent(s: TimeState, iana: string)
    ensures SetTimezone(SetTimezone(s, iana), iana) == SetTimezone(s, iana)
  {
  }

  const SECONDS_PER_DAY: int := 24 * 3600

  /** `timeManagerSynced`: the epoch clock is past its first day. */
  predicate Synced(now: int) {
    now > SECONDS_PER_DAY
  }

  /** A clock before NTP sync starts at 0; once it is past day one, later readings stay synced. */
  lemma SyncedIsStable(t: int, t': int)
    ensures !Synced(0) && !Synced(86400) && Synced(86401)
    ensures Synced(t) && t <= t' ==> Synced(t')
  {
  }
}
