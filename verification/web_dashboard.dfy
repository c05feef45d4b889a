/**
 * The web dashboard's request handlers that change state
 * (web_dashboard.cpp): the chunked `.qgif` upload with its acceptance
 * checks, deleting an animation, and the settings form.
 *
 * A file at path "/" + name is the filesystem entry `name`. What the flash
 * reports during an upload (the free space, whether the file could be
 * created, how many bytes a write took) is the `Flash` parameter of each
 * chunk. HTTP responses are returned as a status code.
 */
module WebDashboard {
  import opened Wrappers
  import opened GifTypes
  import Storage
  import GifFiles
  import GifPlayer
  import Settings

  /** The free space below which an upload is refused at its first chunk. */
  const MIN_FREE_BYTES: nat := 2048

  /** `_uploadError`, as the reason it names. */
  datatype UploadError =
    | NotQgif
    | NoSpace
    | CreateFailed
    | WriteFailed
    | CannotReopen
    | TooSmall
    | BadQgifHeader

  /**
   * The upload's static variables: the name the upload handle is open on
   * (None while it is closed or could not be opened), `_uploadOk` and
   * `_uploadError`.
   */
  datatype Upload = Upload(file: Option<string>, ok: bool, error: Option<UploadError>)

  const IDLE: Upload := Upload(None, false, None)

  /** One call of the upload callback. */
  datatype Chunk = Chunk(filename: string, index: nat, data: seq<byte>, final: bool)

  /** What the flash reports during a chunk: free bytes, whether the create succeeded, bytes written. */
  datatype Flash = Flash(freeBytes: nat, created: bool, written: nat)

  /** The five header bytes the upload validates: a frame count, then 128 and 64 little-endian. */
  predicate HeaderOk(data: seq<byte>) {
    |data| >= HEADER_SIZE && data[0] != 0 && U16At(data, 1) == FRAME_WIDTH && U16At(data, 3) == FRAME_HEIGHT
  }

  /** The stored contents of an entry, empty when it is missing. */
  function Contents(fs: Storage.Fs, name: string): seq<byte> {
    match Storage.Lookup(fs, name)
    case Some(d) => d
    case None => []
  }

  // -----------------------------------------------------------------------
  // Upload
  // -----------------------------------------------------------------------

  /**
   * The first chunk's checks. The flag says whether the callback goes on
   * to the write and the end-of-upload steps: it returns early on the two
   * rejections, but not when the file cannot be created.
   */
  function StartUpload(u: Upload, fs: Storage.Fs, c: Chunk, io: Flash): (r: (Upload, Storage.Fs, bool))
    ensures c.index != 0 ==> r == (u, fs, true)
    ensures c.index == 0 ==>
              && (!GifFiles.EndsWithQgif(c.filename) ==> r == (u.(ok := false, error := Some(NotQgif)), fs, false))
              && (GifFiles.EndsWithQgif(c.filename) && io.freeBytes < MIN_FREE_BYTES ==>
                    r == (u.(ok := false, error := Some(NoSpace)), fs, false))
              && (r.0.ok <==> GifFiles.EndsWithQgif(c.filename) && io.freeBytes >= MIN_FREE_BYTES && io.created)
              && (r.0.ok ==> r.0.file == Some(c.filename) && Storage.Lookup(r.1, c.filename) == Some([]))
              && (!r.0.ok ==> r.1 == fs)
  {
    if c.index != 0 then (u, fs, true)
    else if !GifFiles.EndsWithQgif(c.filename) then (u.(ok := false, error := Some(NotQgif)), fs, false)
    else if io.freeBytes < MIN_FREE_BYTES then (u.(ok := false, error := Some(NoSpace)), fs, false)
    else if !io.created then (Upload(None, false, Some(CreateFailed)), fs, true)
    else (Upload(Some(c.filename), true, None), Storage.Store(fs, c.filename, []), true)
  }

  /** The write step: the bytes the flash took are appended; a short write fails the upload. */
  function WriteChunk(u: Upload, fs: Storage.Fs, c: Chunk, io: Flash): (r: (Upload, Storage.Fs))
    requires io.written <= |c.data|
    ensures !(u.ok && u.file.Some? && |c.data| > 0) ==> r == (u, fs)
    ensures u.ok && u.file.Some? && |c.data| > 0 ==>
              && Storage.Lookup(r.1, u.file.value) == Some(Contents(fs, u.file.value) + c.data[..io.written])
              && (r.0.ok <==> io.written == |c.data|)
              && r.0.file == u.file
  {
    if u.ok && u.file.Some? && |c.data| > 0 then
      var name := u.file.value;
      var fs' := Storage.Store(fs, name, Contents(fs, name) + c.data[..io.written]);
      if io.written != |c.data| then (u.(ok := false, error := Some(WriteFailed)), fs') else (u, fs')
    else (u, fs)
  }

  /** The header validation of the last chunk: the error it finds in the stored file, if any. */
  function Validate(stored: Option<seq<byte>>): (r: Option<UploadError>)
    ensures r.None? <==> stored.Some? && HeaderOk(stored.value)
  {
    match stored
    case None => Some(CannotReopen)
    case Some(d) =>
      if |d| < HEADER_SIZE then Some(TooSmall)
      else if d[0] == 0 || U16At(d, 1) != FRAME_WIDTH || U16At(d, 3) != FRAME_HEIGHT then Some(BadQgifHeader)
      else None
  }

  /**
   * The last chunk as written: the handle is closed; a failed upload, or
   * one whose stored file fails the header check, has its file name
   * removed; a good one is played when nothing is playing.
   */
  function FinishAsWritten(u: Upload, fs: Storage.Fs, pl: GifPlayer.Player, c: Chunk)
    : (r: (Upload, Storage.Fs, GifPlayer.Player))
    ensures r.0.file.None?
    ensures !r.0.ok ==> r.1 == Storage.Remove(fs, c.filename) && r.2 == pl
  {
    var u1 := u.(file := None);
    if !u.ok then (u1, Storage.Remove(fs, c.filename), pl)
    else
      match Validate(Storage.Lookup(fs, c.filename))
      case Some(err) => (u1.(ok := false, error := Some(err)), Storage.Remove(fs, c.filename), pl)
      case None =>
        (u1, fs, if pl.currentFile == "" then GifPlayer.SetFile(pl, GifFiles.StripSlash(c.filename)) else pl)
  }

  /**
   * `handleUploadData` as written: the last chunk of an upload that has
   * already failed removes whatever file bears its name.
   */
  function OnChunkAsWritten(u: Upload, fs: Storage.Fs, pl: GifPlayer.Player, c: Chunk, io: Flash)
    : (r: (Upload, Storage.Fs, GifPlayer.Player))
    requires io.written <= |c.data|
    ensures c.final && c.index > 0 && !u.ok ==> !Storage.Exists(r.1, c.filename)
    ensures !c.final ==> r.2 == pl
  {
    var (u1, fs1, goOn) := StartUpload(u, fs, c, io);
    if !goOn then (u1, fs1, pl)
    else
      var (u2, fs2) := WriteChunk(u1, fs1, c, io);
      if c.final then FinishAsWritten(u2, fs2, pl, c) else (u2, fs2, pl)
  }

  /**
   * The last chunk with the cleanup limited to what the comment describes,
   * the partial or invalid file this upload wrote: a file is removed only
   * when the upload's handle was open on it.
   */
  function Finish(u: Upload, fs: Storage.Fs, pl: GifPlayer.Player, c: Chunk)
    : (r: (Upload, Storage.Fs, GifPlayer.Player))
    ensures r.0.file.None?
    ensures r.0.ok ==> u.ok && HeaderOk(Contents(fs, c.filename)) && r.1 == fs
    ensures r.0.ok ==> r.2 == if pl.currentFile == "" then GifPlayer.SetFile(pl, GifFiles.StripSlash(c.filename)) else pl
    ensures !r.0.ok ==> r.2 == pl
    ensures !r.0.ok && (u.ok || u.file == Some(c.filename)) ==> !Storage.Exists(r.1, c.filename)
    ensures !u.ok && u.file != Some(c.filename) ==> r.1 == fs
  {
    var u1 := u.(file := None);
    Storage.LookupRemove(fs, c.filename, c.filename);
    if !u.ok then (u1, if u.file == Some(c.filename) then Storage.Remove(fs, c.filename) else fs, pl)
    else
      match Validate(Storage.Lookup(fs, c.filename))
      case Some(err) => (u1.(ok := false, error := Some(err)), Storage.Remove(fs, c.filename), pl)
      case None =>
        (u1, fs, if pl.currentFile == "" then GifPlayer.SetFile(pl, GifFiles.StripSlash(c.filename)) else pl)
  }

  /** `handleUploadData` with the corrected cleanup. */
  function OnChunk(u: Upload, fs: Storage.Fs, pl: GifPlayer.Player, c: Chunk, io: Flash)
    : (r: (Upload, Storage.Fs, GifPlayer.Player))
    requires io.written <= |c.data|
    ensures c.final && r.0.ok ==> HeaderOk(Contents(r.1, c.filename))
    ensures !c.final || !r.0.ok ==> r.2 == pl
  {
    var (u1, fs1, goOn) := StartUpload(u, fs, c, io);
    if !goOn then (u1, fs1, pl)
    else
      var (u2, fs2) := WriteChunk(u1, fs1, c, io);
      if c.final then Finish(u2, fs2, pl, c) else (u2, fs2, pl)
  }

  /**
   * An upload only ever touches the file its handle is open on and the
   * file it creates: every other entry of the filesystem is unchanged.
   */
  lemma OnChunkKeepsOthers(u: Upload, fs: Storage.Fs, pl: GifPlayer.Player, c: Chunk, io: Flash, other: string)
    requires io.written <= |c.data|
    requires other != c.filename && Some(other) != u.file
    ensures Storage.Lookup(OnChunk(u, fs, pl, c, io).1, other) == Storage.Lookup(fs, other)
  {
    var (u1, fs1, goOn) := StartUpload(u, fs, c, io);
    StartKeepsOthers(u, fs, c, io, other);
    if goOn {
      var (u2, fs2) := WriteChunk(u1, fs1, c, io);
      WriteKeepsOthers(u1, fs1, c, io, other);
      if c.final {
        FinishKeepsOthers(u2, fs2, pl, c, other);
      }
    }
  }

  lemma StartKeepsOthers(u: Upload, fs: Storage.Fs, c: Chunk, io: Flash, other: string)
    requires other != c.filename
    ensures var r := StartUpload(u, fs, c, io);
            && Storage.Lookup(r.1, other) == Storage.Lookup(fs, other)
            && (r.0.file == u.file || r.0.file == Some(c.filename) || r.0.file.None?)
  {
    if c.index == 0 && GifFiles.EndsWithQgif(c.filename) && io.freeBytes >= MIN_FREE_BYTES && io.created {
      Storage.LookupStore(fs, c.filename, [], other);
    }
  }

  lemma WriteKeepsOthers(u: Upload, fs: Storage.Fs, c: Chunk, io: Flash, other: string)
    requires io.written <= |c.data| && Some(other) != u.file
    ensures Storage.Lookup(WriteChunk(u, fs, c, io).1, other) == Storage.Lookup(fs, other)
  {
    if u.ok && u.file.Some? && |c.data| > 0 {
      Storage.LookupStore(fs, u.file.value, Contents(fs, u.file.value) + c.data[..io.written], other);
    }
  }

  lemma FinishKeepsOthers(u: Upload, fs: Storage.Fs, pl: GifPlayer.Player, c: Chunk, other: string)
    requires other != c.filename
    ensures Storage.Lookup(Finish(u, fs, pl, c).1, other) == Storage.Lookup(fs, other)
  {
    Storage.LookupRemove(fs, c.filename, other);
  }

  /**
   * An upload refused at its first chunk leaves the filesystem as it was
   * through all its later chunks, including an existing file of its name.
   */
  lemma RefusedUploadKeepsFiles(u: Upload, fs: Storage.Fs, pl: GifPlayer.Player, c: Chunk, io: Flash)
    requires io.written <= |c.data|
    requires !u.ok && u.file != Some(c.filename) && c.index > 0
    ensures OnChunk(u, fs, pl, c, io).1 == fs
    ensures !OnChunk(u, fs, pl, c, io).0.ok
  {
  }

  /**
   * As written, the same refused upload deletes the existing file: a
   * stored animation "cat.qgif", an upload of "cat.qgif" refused for lack
   * of space, and its second and last chunk removes the stored file.
   */
  lemma RefusedUploadRemovesExisting()
    ensures var fs := [Storage.File("cat.qgif", [1, 128, 0, 64, 0, 100, 0])];
            var u := StartUpload(IDLE, fs, Chunk("cat.qgif", 0, [1], false), Flash(1000, true, 1)).0;
            && u == IDLE.(error := Some(NoSpace))
            && Storage.Exists(fs, "cat.qgif")
            && !Storage.Exists(OnChunkAsWritten(u, fs, GifPlayer.INITIAL, Chunk("cat.qgif", 1, [2], true), Flash(1000, true, 1)).1,
                               "cat.qgif")
            && OnChunk(u, fs, GifPlayer.INITIAL, Chunk("cat.qgif", 1, [2], true), Flash(1000, true, 1)).1 == fs
  {
    var fs := [Storage.File("cat.qgif", [1, 128, 0, 64, 0, 100, 0])];
    Storage.LookupRemove(fs, "cat.qgif", "cat.qgif");
  }

  /**
   * A one-chunk upload of a file with a good header, with room on flash and
   * every byte written, is stored as sent and played when nothing plays.
   */
  lemma SingleChunkUpload(u: Upload, fs: Storage.Fs, pl: GifPlayer.Player, name: string, data: seq<byte>, free: nat)
    requires GifFiles.EndsWithQgif(name) && free >= MIN_FREE_BYTES && HeaderOk(data)
    ensures var (u', fs', pl') := OnChunk(u, fs, pl, Chunk(name, 0, data, true), Flash(free, true, |data|));
            && u'.ok && u'.error.None?
            && Storage.Lookup(fs', name) == Some(data)
            && (pl.currentFile == "" ==> pl'.requestedFile == GifFiles.StripSlash(name) && pl'.fileChanged)
            && (pl.currentFile != "" ==> pl' == pl)
  {
    var c := Chunk(name, 0, data, true);
    var io := Flash(free, true, |data|);
    var (u1, fs1, _) := StartUpload(u, fs, c, io);
    assert Contents(fs1, name) == [];
    assert [] + data[..|data|] == data;
    var (u2, fs2) := WriteChunk(u1, fs1, c, io);
    assert Storage.Lookup(fs2, name) == Some(data);
  }

  /**
   * The upload's header check is weaker than the player's: a file the
   * upload accepts can still be refused for a short delay table.
   */
  lemma UploadCheckWeakerThanPlayer(data: seq<byte>)
    ensures GifPlayer.ParseHeader(data).Ok? ==> HeaderOk(data)
    ensures HeaderOk([1, 128, 0, 64, 0]) && GifPlayer.ParseHeader([1, 128, 0, 64, 0]) == Err(GifPlayer.ShortDelays)
  {
    assert U16At([1, 128, 0, 64, 0], 1) == 128 && U16At([1, 128, 0, 64, 0], 3) == 64;
  }

  // -----------------------------------------------------------------------
  // Delete
  // -----------------------------------------------------------------------

  /**
   * `handleDelete`: 400 without a name, 404 for a missing file, otherwise
   * the file is removed, and when it was playing the first remaining
   * animation is requested, or "" to stop.
   */
  function Delete(fs: Storage.Fs, pl: GifPlayer.Player, name: Option<string>): (r: (nat, Storage.Fs, GifPlayer.Player))
    ensures name.None? ==> r == (400, fs, pl)
    ensures name.Some? && !Storage.Exists(fs, name.value) ==> r == (404, fs, pl)
    ensures name.Some? && Storage.Exists(fs, name.value) ==>
              && r.0 == 200 && !Storage.Exists(r.1, name.value)
              && (forall n :: n != name.value ==> Storage.Lookup(r.1, n) == Storage.Lookup(fs, n))
              && (pl.currentFile != name.value ==> r.2 == pl)
  {
    match name
    case None => (400, fs, pl)
    case Some(n) =>
      if !Storage.Exists(fs, n) then (404, fs, pl)
      else
        var fs' := Storage.Remove(fs, n);
        Storage.LookupRemove(fs, n, n);
        assert forall m :: m != n ==> Storage.Lookup(fs', m) == Storage.Lookup(fs, m) by {
          forall m | m != n { Storage.LookupRemove(fs, n, m); }
        }
        (200, fs', if pl.currentFile == n then GifPlayer.SetFile(pl, GifFiles.FirstFile(Storage.Names(fs'))) else pl)
  }

  /**
   * Deleting the animation that plays switches to the first animation
   * left, a different one, or stops playback when none is left.
   */
  lemma DeletePlayingSwitches(fs: Storage.Fs, pl: GifPlayer.Player, name: string)
    requires Storage.Exists(fs, name) && pl.currentFile == name
    ensures var (_, fs', pl') := Delete(fs, pl, Some(name));
            && pl'.fileChanged
            && (pl'.requestedFile == "" <==> !GifFiles.HasFiles(Storage.Names(fs')))
            && (pl'.requestedFile != "" ==>
                  pl'.requestedFile == GifFiles.Matching(Storage.Names(fs'))[0]
                  && GifFiles.EndsWithQgif(pl'.requestedFile))
  {
  }

  // -----------------------------------------------------------------------
  // Settings form
  // -----------------------------------------------------------------------

  /**
   * `handlePostSettings`: each value given (as `toInt` read it) is applied
   * only inside its range: speed 1 to 10, brightness 0 to 255, volume 0 to
   * 100. Saving to NVS is left out.
   */
  function PostSettings(st: Settings.Settings, pl: GifPlayer.Player, speed: Option<int>, brightness: Option<int>,
                        volume: Option<int>): (r: (Settings.Settings, GifPlayer.Player))
    ensures speed.Some? && 1 <= speed.value <= 10 ==> r.1 == GifPlayer.SetSpeed(pl, speed.value)
    ensures !(speed.Some? && 1 <= speed.value <= 10) ==> r.1 == pl
    ensures brightness.Some? && 0 <= brightness.value <= 255 ==> r.0.brightness == brightness.value
    ensures !(brightness.Some? && 0 <= brightness.value <= 255) ==> r.0.brightness == st.brightness
    ensures volume.Some? && 0 <= volume.value <= 100 ==> r.0.buzzerVolume == volume.value
    ensures !(volume.Some? && 0 <= volume.value <= 100) ==> r.0.buzzerVolume == st.buzzerVolume
    ensures r.0.(brightness := st.brightness, buzzerVolume := st.buzzerVolume) == st
  {
    var pl' := if speed.Some? && 1 <= speed.value <= 10 then GifPlayer.SetSpeed(pl, speed.value) else pl;
    var st1 := if brightness.Some? && 0 <= brightness.value <= 255 then st.(brightness := brightness.value) else st;
    var st2 := if volume.Some? && 0 <= volume.value <= 100 then Settings.SetBuzzerVolume(st1, volume.value) else st1;
    (st2, pl')
  }

  /** Posting back the values the form was filled with changes nothing. */
  lemma PostCurrentSettings(st: Settings.Settings, pl: GifPlayer.Player)
    requires 1 <= pl.speedDivisor <= 10 && st.brightness <= 255 && st.buzzerVolume <= 100
    ensures PostSettings(st, pl, Some(pl.speedDivisor), Some(st.brightness), Some(st.buzzerVolume)) == (st, pl)
  {
  }
}
