# QBIT firmware — a Dafny model of the display, playback and networking core

QBIT is a small desk companion. It is an ESP32 with a 128x64 SSD1306 OLED, a
touch pad and a buzzer. It plays `.qgif` animations from its LittleFS flash,
shows "pokes" sent by friends over a WebSocket server or MQTT, and keeps a
three-entry poke history. This project models the logic under the firmware's
FreeRTOS tasks as pure Dafny functions over explicit state, and proves what
that logic promises:

- **The `.qgif` container** (`GifTypes`, `GifPlayer`, `Gif2Qbit`, `Qgif2Header`).
  The firmware parser, the host-side writer and the header generator's reader.
  `Gif2Qbit.EncodeParses` proves that whatever the writer produces, the
  firmware opens and plays back frame for frame.
- **The frame renderers** (`FrameRenderer`, `LegacyMain`, `DisplayHelpers`).
  These cover the 8x8 block transpose with inversion and 180-degree rotation,
  its legacy twin in the stand-alone sketch, and the buffer rotation. All are
  proved pixel by pixel.
- **The playback engine** (`GifPlayer`, `ShuffleBag`, `GifFiles`). This covers
  the speed clamp, frame timing, loop counting and auto-advance. It also covers
  the idle animation and the Fisher-Yates shuffle bag with its
  no-repeat-at-the-boundary guard. `random()` is an explicit draw parameter.
- **The touch gesture recogniser** (`InputTask`). It is proved to send
  exactly one of single tap, double tap and long press between two touch-downs.
- **The display orchestrator** (`DisplayTask`, `DisplayInvariants`). It is a
  transition function over the display state and a network event, gesture or
  tick. Its key invariant is ownership of heap bitmaps: every bitmap the
  display task holds is live and owned exactly once, on every path
  (`DisplayInvariants.StepOwns`).
- **The poke handler** (`PokeHandler`, `PokeBitmap`, `AppState`). This covers
  the three-slot history ring, the owned bitmap copies, scroll arithmetic and
  bitmap drawing.
- **The smaller pieces.** These are the Wi-Fi monitor and the message
  classification (`NetworkTask`), the web dashboard's upload, delete and
  settings handlers (`WebDashboard`), settings (`Settings`) and the timezone
  table (`TimeManager`).

Conventions:

- Bytes are `bv8`.
- `millis()` is a value below 2^32, and elapsed times are subtracted modulo
  2^32 (`Clock.Elapsed`).
- The C heap is a set of live buffer ids (`AppState.Heap`). Ownership is
  counted with multisets, so a double free or a leak breaks an equation.
- LittleFS is a sequence of named files in directory order (`Storage`).
- Every source of nondeterminism is a parameter:
  - `random()` is `ShuffleBag.Draws`.
  - The touch pin and the clock are arguments of each step.
  - Radio state and the portal flag are in `DisplayTask.Env`.

## Model

| member | source | states |
|---|---|---|
| GifTypes.ReadU16 | firmware/lib/gif_player/gif_player.cpp:63-64 | the `lo \| hi << 8` decoding of a 16-bit field equals lo + 256·hi and is below 65536 |
| GifTypes.ToByte | tools/gif2qbit.py:140 | `struct.pack("<B", n)` for `n` below 256 gives the byte whose value is `n` |
| GifTypes.U16Le | tools/gif2qbit.py:141-146 | the writer's little-endian `<H` packing gives two bytes that the firmware decodes back to the same value |
| GifTypes.LayoutFits | firmware/include/gif_types.h:25-36 | frame size 1024 = (128/8)·64, the maximum count 255 fits the one-byte count, and frame idx < n lies between the data offset and the end of a 5 + 2n + 1024n byte file |
| GifFiles.Matching | firmware/lib/gif_player/gif_player.cpp:151-163 | the directory scan keeps only names ending in ".qgif", with a leading "/" stripped |
| GifFiles.StripKeepsExt | firmware/lib/gif_player/gif_player.cpp:158-160 | stripping the leading slash keeps the ".qgif" suffix |
| GifFiles.QgifNames | firmware/lib/gif_player/gif_player.cpp:151-164 | the collected list is the prefix of the matches capped at 255 entries |
| GifFiles.HasFiles | firmware/lib/gif_player/gif_player.cpp:115-127 | true iff some directory entry ends in ".qgif" |
| GifFiles.FirstFile | firmware/lib/gif_player/gif_player.cpp:129-145 | "" iff no entry matches; otherwise the first matching entry, slash stripped |
| GifFiles.IndexOf | firmware/lib/gif_player/gif_player.cpp:170-175 | the first position holding the current name, or none iff it is absent |
| GifFiles.NextFile | firmware/lib/gif_player/gif_player.cpp:147-176 | "" iff no file; always one of the files; the first file when the current one is not listed |
| GifFiles.NextFileSteps | firmware/lib/gif_player/gif_player.cpp:170-173 | the file after the one at index i is the one at (i + 1) mod count |
| ShuffleBag.Swap | firmware/lib/gif_player/gif_player.cpp:202-204 | exchanges two entries and keeps the multiset of names |
| ShuffleBag.FisherYates | firmware/lib/gif_player/gif_player.cpp:199-205 | the shuffle with arbitrary `random(i+1)` draws is a permutation |
| ShuffleBag.PermutationKeepsDistinct | firmware/lib/gif_player/gif_player.cpp:199-205 | a permutation of distinct names is distinct |
| ShuffleBag.Build | firmware/lib/gif_player/gif_player.cpp:182-207 | the rebuilt bag holds exactly the scanned names and deals from position 0 |
| ShuffleBag.Rebuild | firmware/lib/gif_player/gif_player.cpp:213-227 | a boundary rebuild still holds exactly the scanned names from position 0 |
| ShuffleBag.RebuildAvoids | firmware/lib/gif_player/gif_player.cpp:213-227 | with at least two distinct files, the rebuilt bag does not start with the file that ended the previous pass |
| ShuffleBag.NextShuffle | firmware/lib/gif_player/gif_player.cpp:209-231 | an empty bag gives "", a one-file bag always gives that file, and inside a pass the entry at the cursor is dealt and the cursor advances |
| ShuffleBag.NoImmediateRepeat | firmware/lib/gif_player/gif_player.cpp:209-231 | with at least two distinct files, the dealt name differs from the previously dealt one, also across a rebuild |
| ShuffleBag.DealWithinPass | firmware/lib/gif_player/gif_player.cpp:230 | k deals inside a pass hand out the next k entries in order |
| ShuffleBag.OnePassIsPermutation | firmware/lib/gif_player/gif_player.cpp:182-231 | a freshly built bag deals every scanned file exactly once in one pass |
| ShuffleBag.NeverTwiceInARow | firmware/lib/gif_player/gif_player.cpp:209-231 | across any number of deals and rebuilds, no file is dealt twice in a row |
| GifPlayer.InitialOk | firmware/lib/gif_player/gif_player.cpp:7-37 | the static initial state is well formed, not playing, with no current file and speed divisor 1 |
| GifPlayer.Delays | firmware/lib/gif_player/gif_player.cpp:74-83 | delay i is the little-endian pair at 5 + 2i |
| GifPlayer.ParseHeader | firmware/lib/gif_player/gif_player.cpp:55-83 | fewer than 5 bytes fail as a short header; the header is rejected iff the count is 0 or the size is not 128x64; success iff, besides, the whole delay table is present, and then the count is 1..255 and the delays are the decoded table |
| GifPlayer.Open | firmware/lib/gif_player/gif_player.cpp:44-53 | a missing file cannot be opened; an existing one is parsed |
| GifPlayer.OpenFile | firmware/lib/gif_player/gif_player.cpp:44-92 | success iff the file parses; on success the cursor, timestamp and loop count are 0, the file becomes current and plays; on failure playback stops and the current name is kept |
| GifPlayer.ReadFrame | firmware/lib/gif_player/gif_player.cpp:95-99 | frame idx is the 1024 bytes at dataOffset + idx·1024, and the read fails iff they are not all in the file |
| GifPlayer.CompleteFileReadsEveryFrame | firmware/lib/gif_player/gif_player.cpp:85-99 | in a file of full size, every frame index below the count reads its slice |
| GifPlayer.SetSpeed | firmware/lib/gif_player/gif_player.cpp:250-252 | divisor 0 is stored as 1, any other divisor as is |
| GifPlayer.FrameWait | firmware/lib/gif_player/gif_player.cpp:300-302 | the wait is at least 1 ms and never longer than the delay; when the delay is at least the divisor it is exactly delay / divisor, rounded down |
| GifPlayer.FasterNeverSlower | firmware/lib/gif_player/gif_player.cpp:300-302 | a larger divisor never lengthens the wait |
| GifPlayer.Init | firmware/lib/gif_player/gif_player.cpp:105-113 | attaching the display reports whether the file system mounted and changes nothing else |
| GifPlayer.SetFile | firmware/lib/gif_player/gif_player.cpp:241-244 | records the request and raises the change flag, nothing else |
| GifPlayer.SetAutoAdvance | firmware/lib/gif_player/gif_player.cpp:233-235 | stores loopsPerGif, nothing else |
| GifPlayer.SetIdleAnimation | firmware/lib/gif_player/gif_player.cpp:237-239 | stores the idle animation, nothing else |
| GifPlayer.BuildShuffleBag | firmware/lib/gif_player/gif_player.cpp:182-207 | the player's bag becomes a permutation of the listed files at position 0, nothing else changes |
| GifPlayer.Advance | firmware/lib/gif_player/gif_player.cpp:209-231 | requests the next shuffled file when there is one; only the bag and the request change |
| GifPlayer.ApplyRequest | firmware/lib/gif_player/gif_player.cpp:285-295 | consumes the change flag; an empty request stops playback and clears the current file |
| GifPlayer.Shown | firmware/lib/gif_player/gif_player.cpp:304-307 | a frame is drawn iff its read succeeds, and then it is that frame at 128x64 |
| GifPlayer.FrameTick | firmware/lib/gif_player/gif_player.cpp:299-333 | before the wait has passed nothing changes; a due tick moves the timestamp and the cursor |
| GifPlayer.EndOfPass | firmware/lib/gif_player/gif_player.cpp:311-333 | the loop bookkeeping leaves cursor, timestamp, file and playing flag alone |
| GifPlayer.Tick | firmware/lib/gif_player/gif_player.cpp:258-334 | keeps the player well formed; without a display it does nothing |
| GifPlayer.TickWaits | firmware/lib/gif_player/gif_player.cpp:299-302 | before the frame's wait has passed a tick changes nothing and draws nothing |
| GifPlayer.TickAdvancesFrame | firmware/lib/gif_player/gif_player.cpp:304-314 | a due tick draws the frame at the cursor if it reads (a short read is skipped but counted), advances the cursor cyclically and bumps the one-byte loop counter at the end of a pass |
| GifPlayer.AutoAdvanceAfterLoops | firmware/lib/gif_player/gif_player.cpp:315-332 | the pass that reaches loopsPerGif resets the counter and starts the idle animation, or else requests the next shuffled file |
| GifPlayer.IdleFreezesFile | firmware/lib/gif_player/gif_player.cpp:261-283 | while the idle animation plays the file player is frozen; the idle cursor advances, and its last frame ends idle mode |
| GifPlayer.RequestTakesEffect | firmware/lib/gif_player/gif_player.cpp:285-297 | after SetFile, the next tick stops and clears on "", plays a file that opens, and stops but keeps the old name when opening fails |
| FrameRenderer.ColumnBit | firmware/lib/gif_player/gif_player.cpp:360-371 | bit 7-row of transposed column col is bit 7-col of block row row |
| FrameRenderer.TransposedBit | firmware/lib/gif_player/gif_player.cpp:353-371 | through inversion and transposition, a column bit is the negation of the source bit |
| FrameRenderer.BlockPixel | firmware/lib/gif_player/gif_player.cpp:348-371 | the rendered byte at (pages-1-sp)·128 + (bpr-1-sbc)·8 + 7-col has bit 7-row equal to NOT bit 7-col of source byte (sp·8+row)·bpr + sbc, off the edge columns |
| FrameRenderer.FullFrameByte | firmware/lib/gif_player/gif_player.cpp:345-380 | the same bit mapping on the actual output buffer of a 128x64 render |
| FrameRenderer.RenderedPixel | firmware/lib/gif_player/gif_player.cpp:348-371 | the display pixel mirrored from source (x, y) is bit 7-row of the rendered destination byte |
| FrameRenderer.RenderPixel | firmware/lib/gif_player/gif_player.cpp:342-380 | for any frame size, display pixel (8·bpr-1-x, 8·pages-1-y) is lit iff source pixel (x, y) is dark, off the edge columns |
| FrameRenderer.FullFramePixel | firmware/lib/gif_player/gif_player.cpp:342-380 | for a 128x64 frame, pixel (127-x, 63-y) is lit iff source pixel (x, y) is dark, for 0 < x < 127 |
| FrameRenderer.RenderBorders | firmware/lib/gif_player/gif_player.cpp:376-380 | bytes p·128 and p·128+127 are 0 on every page drawn; pages and columns outside the frame keep the old buffer |
| FrameRenderer.FullFrameIgnoresBuffer | firmware/lib/gif_player/gif_player.cpp:342-380 | a 128x64 render overwrites the whole buffer, so its result does not depend on what was there |
| Gif2Qbit.PackRowBit | tools/gif2qbit.py:49-52 | bit 7-k of a packed byte is pixel x0+k of the row, MSB first |
| Gif2Qbit.BitmapByte | tools/gif2qbit.py:42-54 | byte y·16 + b of the bitmap packs pixels 8b..8b+7 of row y, and lies inside the 1024-byte frame |
| Gif2Qbit.BitmapPixel | tools/gif2qbit.py:44-52 | pixel (x, y) is bit 7 - x%8 of byte y·16 + x//8, and that bit is set iff the pixel is on |
| Gif2Qbit.ShownPixel | tools/gif2qbit.py:36-54 | converter and firmware renderer agree on polarity: off the edge columns, the display pixel for (x, y) is lit iff the grey value is at least the threshold, XOR the invert flag |
| Gif2Qbit.NormaliseDelay | tools/gif2qbit.py:114-116 | a missing or non-positive duration becomes 100 ms; a positive one is kept |
| Gif2Qbit.Kept | tools/gif2qbit.py:131-136 | more than 255 frames are cut to the first 255; fewer are kept unchanged |
| Gif2Qbit.DelayBytesAt | tools/gif2qbit.py:143-144 | the i-th `<H` pair of the delay table decodes back to delay i |
| Gif2Qbit.FrameBytesAt | tools/gif2qbit.py:145-146 | the i-th 1024-byte block of the frame area is bitmap i |
| Gif2Qbit.Encode | tools/gif2qbit.py:139-148 | the written file has 5 + 2n + 1024n bytes |
| Gif2Qbit.Convert | tools/gif2qbit.py:109-151 | no frames is an error iff the GIF has none; a delay above 65535 makes `struct.pack` fail; otherwise the file has 5 + 2n + 1024n bytes |
| Gif2Qbit.Head | tools/gif2qbit.py:140-142 | the five header bytes hold the frame count as one byte, then 128 and 64 as `<H`, each reading back as written |
| Gif2Qbit.EncodeHeader | tools/gif2qbit.py:140-142 | bytes 0-4 of the output read back as the count, 128 and 64 |
| Gif2Qbit.EncodeDelays | tools/gif2qbit.py:143-144 | the firmware's delay table of the output is exactly the written delays |
| Gif2Qbit.EncodeFrame | tools/gif2qbit.py:145-146 | the firmware's `_readFrame(i)` on the output yields bitmap i |
| Gif2Qbit.EncodeParses | tools/gif2qbit.py:139-146 | round trip: the firmware parser accepts every written file with its count, 128x64 and delays, and reads back every frame |
| Gif2Qbit.ConvertedFilePlays | tools/gif2qbit.py:94-151 | every successful conversion opens in the firmware with the normalised delays, and frame i plays the bitmap converted from GIF frame i |
| Qgif2Header.Slice | tools/qgif2header.py:44 | Python's clamped slice: the exact slice when in range, and full length iff the end is inside the data |
| Qgif2Header.FrameSize | firmware/lib/gif_player/gif_player.cpp:345 | the renderer reads ceil(width/8)·height bytes per frame |
| Qgif2Header.FrameSizesAgree | tools/qgif2header.py:41 | `(width // 8) * height` equals the renderer's frame size iff the width is a multiple of 8 or the height is 0 |
| Qgif2Header.FrameSizeCounterexample | tools/qgif2header.py:41 | a 12x8 header makes the script slice 8 bytes where the renderer reads 16 |
| Qgif2Header.ReadFramesOk | tools/qgif2header.py:43-49 | the frame loop succeeds iff there are no frames or the last one ends inside the file |
| Qgif2Header.ReadFramesAt | tools/qgif2header.py:43-49 | frame i of a successful loop is the slice at offset + i·size |
| Qgif2Header.ParseWith | tools/qgif2header.py:22-49 | an empty file has no count byte; a header or delay table cut short makes `unpack_from` fail; success gives the header fields, the delays and one frame per count |
| Qgif2Header.ParsedFrame | tools/qgif2header.py:40-49 | frame i of a successful parse is the size-byte block at 5 + 2n + i·size |
| Qgif2Header.TruncatedWhenShort | tools/qgif2header.py:43-47 | with a complete delay table, the parse fails iff some frame overruns the file |
| Qgif2Header.CorrectedFramesFitRenderer | firmware/lib/gif_player/gif_player.cpp:345-356 | with the renderer's frame size, every sliced frame holds exactly the bytes the renderer reads |
| Qgif2Header.AsWrittenFramesTooShort | tools/qgif2header.py:41-44 | as written, a 12x8 file's frames are 8 bytes while the renderer reads 16 |
| Qgif2Header.AgreesWithPlayer | tools/qgif2header.py:26-49 | on every file the firmware accepts, the script succeeds iff all declared frames are present, with the player's count, size and delays |
| Qgif2Header.FramesAgreeWithPlayer | tools/qgif2header.py:40-49 | on such files, frame i is the block the firmware's `_readFrame(i)` returns |
| Qgif2Header.FullFrameSize | tools/qgif2header.py:41 | for the 128x64 files the firmware accepts, both formulas give 1024 |
| DisplayHelpers.BitReverseBit | firmware/src/display_helpers.cpp:91-97 | the three mask-and-shift steps move bit k of a byte to bit 7-k |
| DisplayHelpers.BitReverseInvolution | firmware/src/display_helpers.cpp:91-97 | reversing the bits twice gives the byte back |
| DisplayHelpers.RotateBuffer180 | firmware/src/display_helpers.cpp:81-98 | the in-place swap loop and the bit-reversal loop leave byte i equal to the bit-reversed old byte 1023-i |
| DisplayHelpers.Rotate180Involution | firmware/src/display_helpers.cpp:81-98 | rotating the buffer twice leaves it unchanged |
| DisplayHelpers.Rotate180Pixel | firmware/src/display_helpers.cpp:81-98 | the pixel at (x, y) moves to (127-x, 63-y), i.e. page p, column c, bit b go to 7-p, 127-c, 7-b |
| LegacyMain.LegacyDiffersOnlyInLastColumn | firmware/src/main.cpp:116-117 | `playGIF` and `gifRenderFrame` produce the same buffer except in column 127 of the drawn pages, which only `gifRenderFrame` blacks out |
| LegacyMain.LegacyLastColumn | firmware/src/main.cpp:116-117 | on a 128x64 frame the legacy column 127 shows source column 0 inverted, where `gifRenderFrame` shows black |
| LegacyMain.LegacyDelay | firmware/src/main.cpp:121-122 | the wait is delay / 2, at least 1 ms, the same as the player's wait at speed 2 |
| LegacyMain.LegacyDelayHalves | firmware/src/main.cpp:121-122 | for delays of 2 ms and more the wait is half the delay, rounded down |
| LegacyMain.ScheduleIsLoops | firmware/src/main.cpp:81-82 | loopCount passes send loopCount·frameCount frames, and step l·n + f shows frame f |
| LegacyMain.PlayFrames | firmware/src/main.cpp:82-123 | one sent buffer per scheduled frame; each is drawn over the previous buffer and waits that frame's halved delay |
| LegacyMain.PlayGifLoops | firmware/src/main.cpp:76-125 | step l·frameCount + f of `playGIF` draws frame f over the previous buffer and waits its halved delay |
| InputTask.Step | firmware/src/input_task.cpp:20-87 | one poll: from Idle a touch reports TOUCH_DOWN and starts timing; holding ≥ 1500 ms reports LONG_PRESS and waits for release; a release before 300 ms waits for a second tap, a later one reports SINGLE_TAP; a second touch reports DOUBLE_TAP and waits for release; a quiet 300 ms window reports SINGLE_TAP |
| InputTask.StepEvent | firmware/src/input_task.cpp:32-86 | a poll either reports nothing and keeps the press pending or not, or TOUCH_DOWN opens a press, or a final gesture closes the pending one |
| InputTask.RunAlternates | firmware/src/input_task.cpp:27-90 | over any sequence of polls the events sent alternate TOUCH_DOWN / one final gesture, so exactly one of SINGLE_TAP, DOUBLE_TAP, LONG_PRESS is sent between two TOUCH_DOWNs |
| InputTask.FromPowerOn | firmware/src/input_task.cpp:23-31 | from power-on the stream of events sent starts with TOUCH_DOWN and alternates |
| InputTask.HoldingReportsNothing | firmware/src/input_task.cpp:49-51 | however long the pin stays high after a long press or double tap, nothing more is reported |
| AppState.Alloc | firmware/src/poke_handler.cpp:352-354 | a successful `malloc` returns a fresh buffer, not live before, holding the copied data, and adds exactly it to the live set |
| AppState.Free | firmware/src/app_state.h:93-94 | `if (p) free(p)` removes exactly the pointer's buffer from the live set, and nothing for a null pointer |
| AppState.PairHeld | firmware/src/app_state.h:83-90 | when a pair of pointers is counted within the live set, both buffers are live and distinct |
| AppState.Blank | firmware/src/network_task.cpp:138 | `NetworkEvent evt = {}` has empty strings, null pointers, no flag, and owns nothing |
| AppState.CStrCopy | firmware/src/network_task.cpp:179-180 | `strncpy` into a zeroed `char[cap+1]` keeps the longest NUL-free prefix of at most cap characters, each taken as one byte |
| AppState.CStrCopyUnique | firmware/src/app_state.h:60-61 | those properties determine the copy: any string meeting them equals it |
| AppState.CStrCopyFits | firmware/src/app_state.h:60-61 | a NUL-free string of at most cap characters (one byte each) is copied whole, and copying a copy changes nothing |
| AppState.FreshRecordIsBare | firmware/src/app_state.h:84-90 | a fresh `PokeRecord` has null pointers, zero dimensions, `hasBitmaps` false and owns nothing |
| AppState.FreeBitmaps | firmware/src/app_state.h:92-98 | frees exactly the record's buffers, nulls both pointers, zeroes all four dimensions and clears `hasBitmaps`, keeping sender, text and time |
| AppState.FreeBitmapsIdempotent | firmware/src/app_state.h:93-97 | a second `freeBitmaps` frees nothing and changes nothing |
| AppState.Connectivity | firmware/src/app_state.h:104-106 | each connection flag can be read back from its own bit of the event group |
| AppState.ConnectivityBitsDistinct | firmware/src/app_state.h:104-106 | the three connectivity flags are distinct single bits |
| Clock.Elapsed | firmware/src/input_task.cpp:45 | `now - since` on `unsigned long` is the elapsed time modulo 2^32, also across a wrap of `millis()` |
| PokeBitmap.U8 | firmware/src/poke_handler.cpp:100 | conversion to `uint8_t` is below 256 and keeps values that fit |
| PokeBitmap.U16 | firmware/src/poke_handler.cpp:54-56 | conversion to `uint16_t` is below 65536 and keeps values that fit |
| PokeBitmap.I16 | firmware/src/poke_handler.cpp:25 | conversion to `int16_t` wraps into [-32768, 32768) and keeps values that fit |
| PokeBitmap.CRem | firmware/src/poke_handler.cpp:108 | C's `%` truncates toward zero: the remainder has the dividend's sign and magnitude below the divisor |
| PokeBitmap.WrapIsMod | firmware/src/poke_handler.cpp:108 | `((x % m) + m) % m` in C arithmetic is the non-negative remainder of x by m |
| PokeBitmap.SetPixelSpec | firmware/src/poke_handler.cpp:123-125 | `buf[page·128 + x] \|= 1 << bit` sets exactly pixel (x, y) and nothing else |
| PokeBitmap.BmpPages | firmware/src/poke_handler.cpp:100 | `(height + 7) / 8` pages, stored in a `uint8_t`, cover the bitmap's rows |
| PokeBitmap.SrcColumn | firmware/src/poke_handler.cpp:102-112 | with `srcX = screenX + scrollX` inside `int16_t`: a narrow bitmap shows column srcX when it is inside; a wide one (> 128, with width + 64 inside `int16_t`) shows column srcX mod (width + 64), blank in the 64-pixel gap; a width of 32768 or more, negative as `int16_t`, shows no column |
| PokeBitmap.WrapColumn | firmware/src/poke_handler.cpp:103-110 | the wrap arithmetic with `int16_t` casts and C's truncating `%` gives the Euclidean remainder for in-range values, any result is a column of the bitmap, and a width the `int16_t` cast makes negative shows nothing |
| PokeBitmap.DrawColumnPixel | firmware/src/poke_handler.cpp:114-127 | the inner loops OR bitmap column sx into screen column x, row v landing on yOffset + v when on screen, and change nothing else |
| PokeBitmap.DrawFromPixel | firmware/src/poke_handler.cpp:105-129 | the outer loop ORs in the bitmap pixel of every remaining screen column and changes nothing else |
| PokeBitmap.DrawBitmapPixel | firmware/src/poke_handler.cpp:97-130 | after `drawBitmapToBuffer`, a pixel is set iff it was set before or a bitmap pixel lands on it |
| PokeBitmap.DrawLeavesRest | firmware/src/poke_handler.cpp:97-130 | the draw never clears a pixel, leaves rows outside the bitmap's band alone, in wrap mode leaves gap columns blank of bitmap data, and changes nothing for a width of 32768 or more |
| PokeHandler.Init | firmware/src/poke_handler.cpp:38-43 | initialisation clears the active and bitmap flags and empties the history count and head, without touching the slots |
| PokeHandler.MaxWidth | firmware/src/poke_handler.cpp:54-56 | the result is one of the two widths and no smaller than either |
| PokeHandler.RecordsMsUpdate | firmware/src/poke_handler.cpp:28-31 | overwriting one history slot exchanges that slot's copies for the new record's in the owned count |
| PokeHandler.HeldRecord | firmware/src/poke_handler.cpp:14-31 | in a held poke state every slot's copies and the live bitmaps are live heap buffers, pairwise distinct |
| PokeHandler.HeldIsOwns | firmware/src/poke_handler.cpp:14-31 | ownership as an inclusion in the heap is ownership as an exact count, with the rest owned elsewhere |
| PokeHandler.OwnsHeld | firmware/src/poke_handler.cpp:14-31 | ownership as an exact count implies ownership as an inclusion |
| PokeHandler.FreePokeBitmaps | firmware/src/poke_handler.cpp:83-91 | frees exactly the two live bitmaps, zeroes their dimensions, leaves bitmap mode, and changes no other field |
| PokeHandler.FreePokeBitmapsIdempotent | firmware/src/poke_handler.cpp:83-91 | a second free frees nothing and changes nothing |
| PokeHandler.FreePokeBitmapsOwns | firmware/src/poke_handler.cpp:83-91 | freeing the live bitmaps keeps the ownership count exact: what is freed is what the live poke owned |
| PokeHandler.ScrollStepWraps | firmware/src/poke_handler.cpp:182-187 | while the virtual width fits `int16_t`, a step in the source's integer types is `(offset + 2) mod (width + 64)` |
| PokeHandler.AdvanceScroll | firmware/src/poke_handler.cpp:173-191 | nothing happens within 30 ms; after that the timestamp is taken; a bitmap no wider than the screen never scrolls or redraws; only the timestamp and offset change |
| PokeHandler.ScrollStaysInRange | firmware/src/poke_handler.cpp:173-191 | the offset stays in `[0, width + 64)`, and a redraw happens iff 30 ms passed and the bitmap is wider than the screen, moving the offset by 2 modulo the virtual width |
| PokeHandler.Slot | firmware/src/poke_handler.cpp:383-386 | the slot of the i-th most recent record is `(head - 1 - i) mod 3` |
| PokeHandler.GetHistory | firmware/src/poke_handler.cpp:380-387 | no record exactly when the index is at or past the count |
| PokeHandler.Recent | firmware/src/poke_handler.cpp:380-391 | the history listed most recent first has exactly `count` records |
| PokeHandler.Push | firmware/src/poke_handler.cpp:333-336 | the head advances modulo 3 and the count saturates at 3, so the ring stays well-formed |
| PokeHandler.PushRecent | firmware/src/poke_handler.cpp:325-337 | after a push the new record is the most recent, each older record moves down one place, and the oldest drops out once three are kept |
| PokeHandler.AddToHistory | firmware/src/poke_handler.cpp:325-337 | stores a bare record with the given sender, text and timestamp at the head, frees exactly the overwritten slot's copies, and pushes |
| PokeHandler.CopyBitmap | firmware/src/poke_handler.cpp:350-359 | a copy is made iff the pointer is set, both dimensions are positive and malloc succeeds; it holds the first `(h / 8) * w` bytes (at least `w`) and is the only new heap buffer |
| PokeHandler.BitmapRecord | firmware/src/poke_handler.cpp:339-372 | the stored record carries the sender, text, timestamp and copies, `hasBitmaps` iff some copy exists, and zero dimensions for a missing copy |
| PokeHandler.CopyRecord | firmware/src/poke_handler.cpp:348-372 | each copy exists iff its pointer, width, height and malloc allow it, holds the leading bytes of its source, and the heap grows by exactly the record's copies |
| PokeHandler.CopyRecordFits | firmware/src/poke_handler.cpp:348-372 | with whole-page heights the copies hold every page the renderer later reads from them |
| PokeHandler.CopyFits | firmware/src/poke_handler.cpp:350-352 | for a whole-page height, the `(h / 8) * w` copy holds every byte the renderer reads |
| PokeHandler.AddToHistoryWithBitmaps | firmware/src/poke_handler.cpp:339-378 | frees the overwritten slot's copies, stores the copied record at the head and pushes; the heap changes by exactly the freed and the new copies |
| PokeHandler.AddToHistoryWithBitmapsFits | firmware/src/poke_handler.cpp:339-378 | a record stored with whole-page heights fits its copies |
| PokeHandler.PushOwned | firmware/src/poke_handler.cpp:333-336 | a push exchanges the overwritten record's copies for the new record's in the owned count |
| PokeHandler.AddToHistoryOwns | firmware/src/poke_handler.cpp:325-337 | adding a text-only record keeps the ownership count exact |
| PokeHandler.AddToHistoryWithBitmapsOwns | firmware/src/poke_handler.cpp:339-378 | adding a record with copies keeps the ownership count exact: old copies freed, new copies owned by the slot |
| PokeHandler.RowHeight | firmware/src/poke_handler.cpp:144-156 | a row is laid out with its own height, or with 16 when that is 0 |
| PokeHandler.DrawRow | firmware/src/poke_handler.cpp:146-163 | corrected rule: a row without pointer or width leaves the frame unchanged, as in the firmware; a row of height 0 is skipped too, where the firmware draws it as 16 rows |
| PokeHandler.DrawRowPixel | firmware/src/poke_handler.cpp:146-163 | a pixel is set after drawing a row iff it was set before or the bitmap, scrolled only when wider than the screen, lands on it |
| PokeHandler.TextY | firmware/src/poke_handler.cpp:155 | the text row starts one pixel below the sender row whenever that sum fits `int16_t` |
| PokeHandler.ShowBitmaps | firmware/src/poke_handler.cpp:136-167 | the composed frame is a full display buffer |
| PokeHandler.ShowBitmapsPixel | firmware/src/poke_handler.cpp:136-167 | pixel (x, y) of the picture shows at (127 - x, 63 - y) and is set iff the header had it or the sender or text row draws it |
| PokeHandler.ShowPokeBitmap | firmware/src/poke_handler.cpp:136-167 | with no drawable row the frame is the rotated header alone |
| PokeHandler.ShowPokeHistoryBitmap | firmware/src/poke_handler.cpp:197-222 | a record without copies shows just the rotated header |
| PokeHandler.AsWrittenReadExtent | firmware/src/poke_handler.cpp:143-163 | as written, a row with pointer and width is read over `pages * w` bytes, and over 2 pages when its height is 0 |
| PokeHandler.AsWrittenAgreesWhenDrawable | firmware/src/poke_handler.cpp:143-163 | for a positive height the as-written read stays in bounds iff the row fits |
| PokeHandler.LiveOverRead | firmware/src/poke_handler.cpp:143-163 | a 7-byte sender bitmap of width 128 gets height 0, still fits, yet is read over 256 bytes as written |
| PokeHandler.HandlePoke | firmware/src/poke_handler.cpp:228-241 | a text poke becomes active now with no bitmaps and a zero offset, and its bare record becomes the most recent history entry, the rest moving down |
| PokeHandler.HandlePokeOwns | firmware/src/poke_handler.cpp:228-241 | a text poke keeps the ownership count exact |
| PokeHandler.HandlePokeFits | firmware/src/poke_handler.cpp:228-241 | a text poke leaves no live bitmap and keeps every history copy fitting |
| PokeHandler.PtrHeight | firmware/src/poke_handler.cpp:294-301 | the height is `(len / w) * 8` truncated to `uint16_t` |
| PokeHandler.PtrHeightFits | firmware/src/poke_handler.cpp:294-301 | the height is whole pages, and both the history copy and the renderer's read stay within `len` bytes |
| PokeHandler.PtrDims | firmware/src/poke_handler.cpp:294-304 | with a pointer and positive width the dimensions are `(w, (len / w) * 8)`, otherwise both zero |
| PokeHandler.PtrDimsFit | firmware/src/poke_handler.cpp:294-304 | the recorded dimensions fit the buffer, for the renderer and for the history copy |
| PokeHandler.TakeBitmaps | firmware/src/poke_handler.cpp:291-310 | the previous live bitmaps are freed and exactly those; the two buffers become the live bitmap poke, started now with offset 0; the history is untouched |
| PokeHandler.HandlePokeBitmapFromPtrs | firmware/src/poke_handler.cpp:288-319 | the live poke is the bitmap poke of the two buffers, with the dimensions they yield |
| PokeHandler.HandlePokeBitmapFromPtrsRecord | firmware/src/poke_handler.cpp:288-319 | the most recent record carries the sender, text and timestamp and a copy of each drawable bitmap whose malloc succeeded |
| PokeHandler.HandlePokeBitmapFromPtrsFits | firmware/src/poke_handler.cpp:288-319 | after a bitmap poke the live bitmaps and every history copy hold what is read from them |
| PokeHandler.HandlePokeBitmapFromPtrsOwns | firmware/src/poke_handler.cpp:288-319 | the two buffers pass from the caller to the live poke and the ownership count stays exact |
| PokeHandler.PushFits | firmware/src/poke_handler.cpp:333-336 | pushing a fitting record keeps every history copy fitting |
| PokeHandler.HeldAfterFree | firmware/src/poke_handler.cpp:83-91 | after freeing the live bitmaps the state is still held and the slot the next push overwrites is live and separate |
| DisplayTask.EnterState | firmware/src/display_task.cpp:81-85 | the new state is entered now, the old one becomes the previous state, and nothing else changes |
| DisplayTask.Seconds | firmware/src/display_task.cpp:103 | the seconds shown are the remaining milliseconds rounded to the nearest second |
| DisplayTask.Cells | firmware/src/display_task.cpp:104-105 | at most 18 cells; until `elapsed * 19` wraps, the count is the number of whole 19ths of the timeout that have passed, capped at 18 |
| DisplayTask.Progress | firmware/src/display_task.cpp:89-115 | "Connecting" is shown exactly when no outage is recorded; otherwise the countdown |
| DisplayTask.CountdownStarts | firmware/src/display_task.cpp:101-105 | at the start of an outage the whole timeout is shown, with an empty bar |
| DisplayTask.CountdownEnds | firmware/src/display_task.cpp:101-105 | once the timeout has passed the countdown shows 0 s and a full bar |
| DisplayTask.CountdownMonotone | firmware/src/display_task.cpp:101-105 | as the outage goes on the seconds never go up and the bar never shrinks |
| DisplayTask.CellsMonotone | firmware/src/display_task.cpp:104-105 | the number of filled cells never decreases as the outage goes on |
| DisplayTask.CountdownZeroLate | firmware/src/display_task.cpp:102-103 | "0 s" is shown only in the last half second before the timeout or after it |
| DisplayTask.CountdownEndsBeforePortal | firmware/src/display_task.cpp:36-37 | with the source's 15 s the countdown reads 0 s with a full bar after 20 s, while the network task has not yet started the portal |
| DisplayTask.CountdownEndsAtPortal | firmware/src/network_task.cpp:33 | measured against the network task's 30 s, the countdown reads 0 s and a full bar on the pass that starts the portal |
| DisplayTask.ProgressKey | firmware/src/display_task.cpp:488-497 | the redraw throttle key is two `uint8_t` values, both 0xFF while no outage is recorded |
| DisplayTask.ProgressKeyIsCountdown | firmware/src/display_task.cpp:488-502 | for the first minutes of an outage the throttle key equals the countdown shown, so a redraw happens exactly when the text or bar changes; this holds for the firmware's 15 s timeout and for the corrected 30 s one |
| DisplayTask.ToggleMute | firmware/src/display_task.cpp:121-146 | reports muted iff the buzzer was sounding; muting saves the old volume, unmuting restores a non-zero volume and keeps the saved one; nothing else changes |
| DisplayTask.ToggleMuteTwice | firmware/src/display_task.cpp:121-146 | two long presses mute and then restore the volume, with the muted volume saved |
| DisplayTask.UnmuteWithoutSaved | firmware/src/display_task.cpp:124-126 | unmuting with no saved volume gives volume 100 |
| DisplayTask.MqttMute | firmware/src/display_task.cpp:338-349 | "ON" mutes, saving the volume only if the buzzer was sounding; anything else unmutes to a non-zero volume; nothing else changes |
| DisplayTask.MqttMuteIdempotent | firmware/src/display_task.cpp:338-349 | a repeated "ON" keeps the volume saved by the first |
| DisplayTask.MqttMuteRestores | firmware/src/display_task.cpp:338-349 | "ON" then "OFF" brings the volume back |
| DisplayTask.AcceptsOwns | firmware/src/display_task.cpp:257-259 | a queued event's buffers and the poke state's buffers together account exactly for the heap outside the rest |
| DisplayTask.OnPoke | firmware/src/display_task.cpp:260-274 | a POKE is ignored in the claim prompt, the mute feedback, or when a generic "Poke!" would hide a custom message; otherwise the text poke is handled and the poke screen entered, and settings and player are untouched; the invariant is kept |
| DisplayTask.TakePokeBitmap | firmware/src/display_task.cpp:277-288 | a taken bitmap poke enters the poke screen with the event's two buffers as the live bitmaps, keeping the invariant |
| DisplayTask.DropPokeBitmap | firmware/src/display_task.cpp:289-292 | an ignored bitmap poke frees exactly the event's two buffers and changes nothing else |
| DisplayTask.OnPokeBitmap | firmware/src/display_task.cpp:276-293 | a bitmap poke is taken in every state that takes pokes, otherwise its buffers are freed; the invariant is kept |
| DisplayTask.OnWifiStatus | firmware/src/display_task.cpp:304-322 | a connection ends Wi-Fi setup with the connected screen; a loss during playback shows "WiFi Offline" once; anything else changes nothing |
| DisplayTask.OnWsStatus | firmware/src/display_task.cpp:324-334 | the first server loss during playback shows "Server Offline" until the server is back; a connection clears the flag; the state is never changed |
| DisplayTask.PlayNext | firmware/src/display_task.cpp:395-402 | a tap requests the player's next shuffled animation and publishes it only when there is one |
| DisplayTask.OnMqttCommand | firmware/src/display_task.cpp:336-357 | "mute" sets the mute state from the payload and publishes it; "animation_next" advances the player; other commands change nothing |
| DisplayTask.OnNetEvent | firmware/src/display_task.cpp:256-359 | a claim request enters the claim prompt and shows the claimer; only pokes touch the poke state and heap; the invariant is kept |
| DisplayTask.MuteToggle | firmware/src/display_task.cpp:121-146 | the mute feedback is entered now, the volume toggled, and the new state shown and published |
| DisplayTask.ClosePoke | firmware/src/display_task.cpp:428-432 | closing a poke returns to playback, deactivates the poke and frees exactly its live bitmaps |
| DisplayTask.ShowHistoryEntry | firmware/src/display_task.cpp:152-177 | no record shows "No Pokes"; a record restarts the scroll, and a text entry also restarts both text scrolls; the state is untouched |
| DisplayTask.WifiSetupGesture | firmware/src/display_task.cpp:370-384 | a tap while the portal runs switches between QR code and credentials; anything else changes nothing |
| DisplayTask.PlaybackGesture | firmware/src/display_task.cpp:386-425 | in playback a tap advances, a double tap shows the clock, a long press toggles mute, and a touch-down changes nothing |
| DisplayTask.HistoryTimeGesture | firmware/src/display_task.cpp:444-455 | every gesture restarts the idle timer; a tap opens the newest poke, a double tap returns to playback, a long press toggles mute |
| DisplayTask.HistoryPokeGesture | firmware/src/display_task.cpp:457-471 | a tap moves to the next older poke and leaves once the index reaches the count or 3; double tap leaves; long press toggles mute; the idle timer restarts |
| DisplayTask.GestureIn | firmware/src/display_task.cpp:369-475 | a tap closes a poke; a long press confirms a claim; other gestures in those states do nothing; only closing a poke touches the poke state |
| DisplayTask.OnGesture | firmware/src/display_task.cpp:363-476 | every gesture except a touch-down is published before the state handles it |
| DisplayTask.WifiSetupTick | firmware/src/display_task.cpp:484-518 | with the corrected 30 s countdown: without the portal the progress is redrawn iff its throttle key changed; the first pass seeing the portal draws the QR code; the connected screen is entered iff Wi-Fi is up |
| DisplayTask.ConnectedInfoTick | firmware/src/display_task.cpp:520-529 | after 3 s playback starts; without animations on flash the player is untouched |
| DisplayTask.StartsPlayingAFile | firmware/src/display_task.cpp:520-529 | with animations on flash, starting playback requests one of them and sets auto-advance to every loop |
| DisplayTask.PlaybackTick | firmware/src/display_task.cpp:531-553 | the overlay stays iff it is younger than 2 s; the update prompt is shown and ends iff 8 s have passed since its first pass; otherwise the player ticks only while no overlay is up |
| DisplayTask.PokeTick | firmware/src/display_task.cpp:555-567 | a poke closes once it has been up longer than 5 s, or 8 s when wider than the screen; before that it scrolls and redraws iff the scroll moved |
| DisplayTask.RecordWidth | firmware/src/display_task.cpp:603 | the scroll width of a bitmap entry is the wider of its two bitmaps |
| DisplayTask.HistoryScroll | firmware/src/display_task.cpp:598-636 | a bitmap entry moves its one offset; a text entry moves each line wider than the screen and shows the others unscrolled |
| DisplayTask.HistoryScrollWraps | firmware/src/display_task.cpp:602-627 | each moved offset stays within its virtual width and advances by 2 modulo it |
| DisplayTask.HistoryPokeTick | firmware/src/display_task.cpp:584-639 | an entry stays 3 s, or 8 s when wider than the screen, since the last gesture; a wide entry redraws iff 30 ms have passed since its last scroll |
| DisplayTask.Tick | firmware/src/display_task.cpp:478-649 | the claim prompt times out after 30 s with a reject; the clock leaves after 3 s; the mute feedback returns to the previous state after 2 s; only the poke screen touches the poke state |
| DisplayTask.Boot | firmware/src/display_task.cpp:210-240 | with the corrected 30 s countdown: after the poke reset a connected device shows its address; otherwise Wi-Fi setup shows the QR code when the portal runs, or the progress with the throttle key reset |
| DisplayTask.Step | firmware/src/display_task.cpp:243-653 | one pass of the loop keeps the heap-ownership invariant |
| DisplayInvariants.PokeOwns | firmware/src/display_task.cpp:260-274 | a POKE keeps the heap-ownership count exact: only the previous live poke's buffers are freed |
| DisplayInvariants.TakeOwns | firmware/src/display_task.cpp:277-288 | a taken bitmap poke passes the event's buffers to the poke state and keeps the count exact |
| DisplayInvariants.DropOwns | firmware/src/display_task.cpp:289-292 | a dropped bitmap poke frees the event's buffers and keeps the count exact |
| DisplayInvariants.NetEventOwns | firmware/src/display_task.cpp:256-359 | whatever the display does with an event, the live heap afterwards is the poke state's buffers plus exactly the rest |
| DisplayInvariants.GestureOwns | firmware/src/display_task.cpp:361-476 | a gesture frees the live poke's buffers or touches none, keeping the count exact |
| DisplayInvariants.PokeTickOwns | firmware/src/display_task.cpp:555-567 | the poke tick closes the poke or scrolls it, keeping the count exact |
| DisplayInvariants.CloseOwns | firmware/src/display_task.cpp:428-432 | closing a poke keeps the count exact |
| DisplayInvariants.TickOwns | firmware/src/display_task.cpp:478-649 | every state's tick keeps the count exact |
| DisplayInvariants.StepOwns | firmware/src/display_task.cpp:243-653 | a whole pass of the loop neither leaks a buffer nor gives one a second owner |
| DisplayInvariants.NetEventFits | firmware/src/display_task.cpp:256-359 | after an event every kept bitmap still covers the bytes its dimensions say |
| DisplayInvariants.GestureFits | firmware/src/display_task.cpp:361-476 | after a gesture every kept bitmap still covers its dimensions |
| DisplayInvariants.TickFits | firmware/src/display_task.cpp:478-649 | after a tick every kept bitmap still covers its dimensions |
| DisplayInvariants.StepFits | firmware/src/display_task.cpp:243-653 | a pass of the loop keeps every kept bitmap covering its dimensions |
| DisplayInvariants.BootSane | firmware/src/display_task.cpp:210-240 | the task starts consistent: overlay flag and message agree, and no mute feedback or browsing is under way |
| DisplayInvariants.PokeEventSane | firmware/src/display_task.cpp:260-293 | a poke event keeps the task consistent |
| DisplayInvariants.OtherEventSane | firmware/src/display_task.cpp:295-357 | every other event keeps the task consistent |
| DisplayInvariants.NetEventSane | firmware/src/display_task.cpp:256-359 | every network event keeps the task consistent |
| DisplayInvariants.PlaybackGestureSane | firmware/src/display_task.cpp:386-425 | a gesture in playback keeps the task consistent |
| DisplayInvariants.HistoryTimeGestureSane | firmware/src/display_task.cpp:444-455 | a gesture on the clock screen keeps the task consistent, with the history index in range |
| DisplayInvariants.HistoryPokeGestureSane | firmware/src/display_task.cpp:457-471 | a gesture while browsing keeps the history index within the ring and the records kept |
| DisplayInvariants.OtherGestureSane | firmware/src/display_task.cpp:369-475 | a gesture in any other state keeps the task consistent |
| DisplayInvariants.GestureSane | firmware/src/display_task.cpp:361-476 | every gesture keeps the task consistent |
| DisplayInvariants.PlaybackTickSane | firmware/src/display_task.cpp:531-553 | the playback tick keeps the overlay flag and message together |
| DisplayInvariants.HistoryScrollSane | firmware/src/display_task.cpp:584-639 | the history tick keeps the task consistent |
| DisplayInvariants.HistoryPokeTickSane | firmware/src/display_task.cpp:584-639 | the history state's tick keeps the task consistent |
| DisplayInvariants.MuteTickSane | firmware/src/display_task.cpp:641-645 | the mute feedback's tick keeps the task consistent |
| DisplayInvariants.OtherTickSane | firmware/src/display_task.cpp:484-582 | every other state's tick keeps the task consistent |
| DisplayInvariants.TickSane | firmware/src/display_task.cpp:478-649 | every tick keeps the task consistent |
| DisplayInvariants.StepSane | firmware/src/display_task.cpp:243-653 | a pass of the loop keeps the task consistent |
| DisplayInvariants.MuteFeedbackReturns | firmware/src/display_task.cpp:641-645 | the feedback returns to the state it was entered from; the fallback to playback is never taken |
| DisplayInvariants.MuteRoundTrip | firmware/src/display_task.cpp:419-421 | a long press in playback or history toggles mute, and 2 s later the task is back where the press happened with the new volume |
| DisplayInvariants.LongPressMutes | firmware/src/display_task.cpp:419-421 | in each state a toggle starts from, a long press is exactly the toggle |
| DisplayInvariants.MuteExpires | firmware/src/display_task.cpp:641-645 | the feedback of a toggle ends 2 s later in the state it started from |
| DisplayInvariants.ClaimSettles | firmware/src/display_task.cpp:295-302 | a claim request ends back in playback either way: a long press confirms it, and the first tick after 30 s rejects it |
| NetworkTask.WifiStatusEvent | firmware/src/network_task.cpp:357-360 | a Wi-Fi status event carries the link state and no buffer |
| NetworkTask.WifiMonitor | firmware/src/network_task.cpp:347-396 | the monitor keeps its flags consistent; without a link an outage is recorded and the link marked down; with a link the outage clears; the portal starts only after 30 s of outage and only once; it is stopped exactly when the link returns after a restart; at most one buffer-free status event is queued, carrying the link state |
| NetworkTask.LinkLost | firmware/src/network_task.cpp:348-361 | the first pass without a link records the time (0 becomes 1), drops both flags and bits, and queues one `WIFI_STATUS{false}` |
| NetworkTask.OutageRecordedOnce | firmware/src/network_task.cpp:349 | later passes of the same outage keep its start time and queue nothing |
| NetworkTask.RunDownInside | firmware/src/network_task.cpp:348-367 | within an outage any run of passes queues nothing, keeps the start time, and starts the portal at most once |
| NetworkTask.OutageReportsOnce | firmware/src/network_task.cpp:348-367 | a whole outage from a connected link reports exactly one `WIFI_STATUS{false}` and restarts the portal at most once |
| NetworkTask.Reconnect | firmware/src/network_task.cpp:368-395 | the first pass with the link back queues one `WIFI_STATUS{true}`, stops the portal iff it was restarted, runs timezone detection iff it never ran and no zone is stored; a second pass does nothing |
| NetworkTask.WsStep | firmware/src/network_task.cpp:398-407 | a connect is attempted exactly when Wi-Fi is up, the socket is down and 5 s have passed since the last attempt, whose time is then taken; otherwise nothing changes |
| NetworkTask.WsAttemptsSpaced | firmware/src/network_task.cpp:398-407 | two connection attempts are at least 5 s apart however the first one ended |
| NetworkTask.WsEvent | firmware/src/network_task.cpp:123-148 | open and close set the flag and bit to match; only a close sends an event, `WS_STATUS{false}` with no buffer; nothing else changes |
| NetworkTask.MqttReconnect | firmware/src/network_task.cpp:269-275 | an attempt is made exactly when MQTT is enabled with a host, is not connected, and 5 s have passed; its time is then taken |
| NetworkTask.Width | firmware/src/network_task.cpp:167-169 | a width is 16 bits, equal to the field when it fits and 0 when missing |
| NetworkTask.DecodeAlloc | firmware/src/poke_handler.cpp:62-77 | a failed decode allocates nothing; a successful one returns a fresh buffer holding the decoded bytes and their count, the only new heap buffer |
| NetworkTask.PokeEvent | firmware/src/network_task.cpp:189-193 | a poke event's strings fit their fields and it carries no buffer |
| NetworkTask.WsEventFor | firmware/src/network_task.cpp:161-213 | the heap grows by exactly the event's buffers; only a bitmap poke carries any, and each length fits its buffer |
| NetworkTask.WsMessageAsWritten | firmware/src/network_task.cpp:150-214 | as written the heap stays well-formed, but an event the queue refuses keeps its buffers live |
| NetworkTask.Published | firmware/src/network_task.cpp:203-204 | a poke is published to MQTT exactly for a "poke" message |
| NetworkTask.WsMessage | firmware/src/network_task.cpp:150-214 | an event is queued only for parsed text that the queue accepts; the MQTT publication does not depend on the queue |
| NetworkTask.WsMessageOwns | firmware/src/network_task.cpp:150-214 | with the leak closed, the heap afterwards is the heap before plus exactly the queued event's buffers, and the event is deliverable |
| NetworkTask.WsClassification | firmware/src/network_task.cpp:158-213 | "poke" queues a bitmap poke exactly when both bitmaps and widths are there, else a text poke, with defaults and truncation; "claim_request" queues a claim with the user name; nothing else queues |
| NetworkTask.ProducerLeaks | firmware/src/network_task.cpp:174-187 | a bitmap poke whose bitmaps decode, arriving at a full queue, leaves two live buffers no event holds |
| NetworkTask.Topic | firmware/src/network_task.cpp:230 | a topic is prefix, slash, id and suffix, each found at its place in the string |
| NetworkTask.TopicInjective | firmware/src/network_task.cpp:312-314 | for one prefix and device id, two topics are equal iff their suffixes are |
| NetworkTask.TopicsDistinct | firmware/src/network_task.cpp:312-314 | the three subscribed topics of one device differ |
| NetworkTask.CommandEvent | firmware/src/network_task.cpp:251-255 | a command event carries the command name whole and the payload cut to 64 characters (one byte each), with no buffer |
| NetworkTask.MqttCallback | firmware/src/network_task.cpp:220-267 | an event is queued only when the queue accepts it, and it fits and carries no buffer |
| NetworkTask.MqttCommandTopic | firmware/src/network_task.cpp:230-247 | the command topic queues a text poke exactly for a JSON "poke" command, with defaults "MQTT" and "Poke!", and publishes it back |
| NetworkTask.MqttMuteTopic | firmware/src/network_task.cpp:250-257 | the mute topic queues the "mute" command with the raw payload and publishes nothing |
| NetworkTask.MqttAnimationTopic | firmware/src/network_task.cpp:260-266 | the animation topic queues the "animation_next" command |
| Settings.SetBuzzerVolume | firmware/src/settings.cpp:191-193 | the volume is the percentage clamped to 100, and nothing else changes |
| Settings.SetBuzzerVolumeIdempotent | firmware/src/settings.cpp:191-193 | setting a volume twice is setting it once, and setting the current volume changes nothing |
| Settings.SetSavedVolume | firmware/src/settings.cpp:197-198 | the saved volume is set and nothing else changes |
| Settings.Hex | firmware/src/settings.cpp:52-53 | `%0nX` gives exactly n upper-case hexadecimal digits |
| Settings.ParseHex | firmware/src/settings.cpp:52-53 | n hexadecimal digits read back as a value below 16^n |
| Settings.HexRoundTrip | firmware/src/settings.cpp:52-53 | formatting then reading back gives the value modulo 16^n: only the dropped high digits are lost |
| Settings.HexRoundTripBelow | firmware/src/settings.cpp:52-53 | a value that fits n digits is read back exactly |
| Settings.DigitsDistinct | firmware/src/settings.cpp:52-53 | each hexadecimal digit reads back as its own value |
| Settings.FormatDeviceId | firmware/src/settings.cpp:50-54 | the device ID is 12 upper-case hexadecimal digits |
| Settings.GetDeviceId | firmware/src/settings.cpp:48-57 | the ID is computed from the MAC on first use, cached, and returned unchanged afterwards; it is never empty and nothing else changes |
| Settings.DeviceIdCached | firmware/src/settings.cpp:48-57 | a second call returns the first call's ID whatever MAC it is given |
| Settings.ApPassword | firmware/src/settings.cpp:71-76 | the AP password is 8 upper-case hexadecimal digits |
| Settings.DeviceIdSpellsMac | firmware/src/settings.cpp:48-76 | the ID spells MAC bits 32..47 and then its low 32 bits, and the AP password is the ID's last 8 characters |
| Settings.Prefix | firmware/src/settings.cpp:107 | `substring(0, n)` is the first n characters, or the whole string when shorter |
| Settings.DefaultName | firmware/src/settings.cpp:107 | the default name is "QBIT-" followed by the first four ID characters |
| Settings.Load | firmware/src/settings.cpp:96-124 | brightness, volume and name are the stored values or their defaults; the saved volume is the loaded volume, or 100 when that is 0; a cached ID is kept; the player's speed divisor becomes the stored speed (default 5, 0 clamped to 1) and nothing else of the player changes |
| Settings.BootSpeedDefault | firmware/src/settings.cpp:104-123 | with no stored speed the booted player is well formed, stopped, and waits a fifth of each frame delay, at least 1 ms |
| Settings.DefaultNameFromMac | firmware/src/settings.cpp:48-108 | with no name stored, the name is "QBIT-" and the four hexadecimal digits of MAC bits 32..47 |
| TimeManager.Scan | firmware/src/time_manager.cpp:53-58 | the scan finds the first entry of the name from its start index, or reports that none has it |
| TimeManager.ZonesDistinct | firmware/src/time_manager.cpp:20-50 | the table names each zone once |
| TimeManager.IanaToPosixSpec | firmware/src/time_manager.cpp:52-59 | a name is found iff it is in the table, and then its entry's POSIX string is returned |
| TimeManager.EmptyNameUnknown | firmware/src/time_manager.cpp:52-59 | the empty name is not a zone |
| TimeManager.SetTimezone | firmware/src/time_manager.cpp:83-93 | the name is stored whatever it is; TZ becomes the zone's POSIX string when known and is otherwise unchanged |
| TimeManager.Init | firmware/src/time_manager.cpp:65-77 | at boot the stored zone is applied when known, and nothing is stored |
| TimeManager.SetThenInit | firmware/src/time_manager.cpp:65-93 | running `timeManagerInit` again within one boot after a zone was set changes nothing |
| TimeManager.Reboot | firmware/src/settings.cpp:119 | a boot reads the persisted name into the RAM copy, and TZ becomes that name's POSIX string when it is a known zone, unset otherwise |
| TimeManager.SavedZoneSurvivesReboot | firmware/src/time_manager.cpp:112-114 | a known zone set and then saved gives the same TZ after a reboot as right after the set; an unknown one leaves TZ unset after the reboot |
| TimeManager.UnknownZoneLostOnReboot | firmware/src/time_manager.cpp:83-93 | setting an unknown zone keeps the applied TZ for the rest of the boot, yet once saved the next boot has TZ unset |
| TimeManager.UnknownZoneKeepsTz | firmware/src/time_manager.cpp:83-93 | an unknown zone is stored and leaves TZ as it was |
| TimeManager.SetTimezoneIdempotent | firmware/src/time_manager.cpp:83-93 | setting a zone twice is setting it once |
| TimeManager.SyncedIsStable | firmware/src/time_manager.cpp:79-81 | the clock counts as synchronised only after its first day, and stays so as time goes on |
| Storage.Names | firmware/lib/gif_player/gif_player.cpp:148-164 | the directory scan lists each entry's name in order |
| Storage.Lookup | firmware/lib/web_dashboard/web_dashboard.cpp:152 | opening a name finds an entry of that name with its data, and fails exactly when there is none |
| Storage.Remove | firmware/lib/web_dashboard/web_dashboard.cpp:200 | removing a name drops every entry of that name and keeps all other entries |
| Storage.Store | firmware/lib/web_dashboard/web_dashboard.cpp:124-136 | after a write the name reads back as the data written |
| Storage.LookupRemove | firmware/lib/web_dashboard/web_dashboard.cpp:195-200 | a removed name is absent, and every other name reads as before |
| Storage.LookupStore | firmware/lib/web_dashboard/web_dashboard.cpp:124-136 | writing one name leaves every other name as it was |
| WebDashboard.StartUpload | firmware/lib/web_dashboard/web_dashboard.cpp:105-129 | later chunks skip the checks; the first refuses a non-".qgif" name or less than 2048 free bytes and stops there; the upload is ok iff the name, the space and the create all pass, and then the file exists empty; a refused upload leaves the filesystem alone |
| WebDashboard.WriteChunk | firmware/lib/web_dashboard/web_dashboard.cpp:131-137 | only an ok upload with an open file and data writes; the bytes the flash took are appended, and a short write fails the upload |
| WebDashboard.Validate | firmware/lib/web_dashboard/web_dashboard.cpp:151-171 | the stored file passes iff it exists and has count > 0, width 128 and height 64 in its first five bytes |
| WebDashboard.FinishAsWritten | firmware/lib/web_dashboard/web_dashboard.cpp:139-184 | the last chunk closes the handle, and a failed upload removes the file of its name and plays nothing |
| WebDashboard.OnChunkAsWritten | firmware/lib/web_dashboard/web_dashboard.cpp:101-185 | as written, the last chunk of an upload that failed earlier removes whatever file has its name; only a last chunk can change the player |
| WebDashboard.Finish | firmware/lib/web_dashboard/web_dashboard.cpp:139-184 | a good upload leaves a valid file and plays it when nothing plays; a failed one removes only a file this upload wrote, and plays nothing |
| WebDashboard.OnChunk | firmware/lib/web_dashboard/web_dashboard.cpp:101-185 | an upload that ends ok has a valid header stored; only a good last chunk can change the player |
| WebDashboard.OnChunkKeepsOthers | firmware/lib/web_dashboard/web_dashboard.cpp:101-185 | an upload changes only the file it is open on and the file it creates |
| WebDashboard.RefusedUploadKeepsFiles | firmware/lib/web_dashboard/web_dashboard.cpp:139-148 | an upload refused at its first chunk leaves the filesystem as it was through its later chunks |
| WebDashboard.RefusedUploadRemovesExisting | firmware/lib/web_dashboard/web_dashboard.cpp:139-148 | as written, an upload of "cat.qgif" refused for space deletes the stored "cat.qgif" at its last chunk |
| WebDashboard.SingleChunkUpload | firmware/lib/web_dashboard/web_dashboard.cpp:101-185 | a one-chunk upload with a good header, room and a full write is stored as sent and played when nothing plays |
| WebDashboard.UploadCheckWeakerThanPlayer | firmware/lib/web_dashboard/web_dashboard.cpp:157-169 | every file the player opens passes the upload check, but a 5-byte header with no delay table passes it too |
| WebDashboard.Delete | firmware/lib/web_dashboard/web_dashboard.cpp:187-209 | 400 without a name, 404 for a missing file, else 200 with the file removed, every other file kept, and the player untouched unless it was playing that file |
| WebDashboard.DeletePlayingSwitches | firmware/lib/web_dashboard/web_dashboard.cpp:202-206 | deleting the playing animation requests the first one left, or "" to stop when none is left |
| WebDashboard.PostSettings | firmware/lib/web_dashboard/web_dashboard.cpp:223-243 | each given value is applied only inside its range (speed 1-10, brightness 0-255, volume 0-100); nothing else changes |
| WebDashboard.PostCurrentSettings | firmware/lib/web_dashboard/web_dashboard.cpp:223-243 | posting back the current values changes nothing |
| ShuffleBag.ShuffleDown | firmware/lib/gif_player/gif_player.cpp:200-205 | the downward swap loop keeps the length and the multiset of names, whatever `random` returns |
| Qgif2Header.ReadFrames | tools/qgif2header.py:43-49 | a successful loop yields `count` slices of `size` bytes; a failure names a truncated frame within the range read |
| LegacyMain.Schedule | firmware/src/main.cpp:81-82 | every scheduled step names a frame below the frame count |

### Where the code and its own description part ways

The model follows the code in each of these cases. Each difference is stated as a lemma:

- `tools/qgif2header.py` sizes a frame as `(width // 8) * height`. The firmware uses `((width + 7) / 8) * height`. The two agree at the only accepted size, 128x64. For a width that is not a multiple of 8, the header tool cuts frames short (`Qgif2Header.AsWrittenFramesTooShort`). With the firmware's formula, every frame fits the renderer (`Qgif2Header.CorrectedFramesFitRenderer`).
- The legacy `playGIF` in `firmware/src/main.cpp` blacks out only column 0 of each page. `gifRenderFrame` blacks out columns 0 and 127 (`LegacyMain.LegacyDiffersOnlyInLastColumn`).
- The upload path checks only the frame count and the dimensions. The player also checks that the file is long enough, so an upload that is accepted can still fail to open (`WebDashboard.UploadCheckWeakerThanPlayer`).
- Entering MUTE_FEEDBACK from MUTE_FEEDBACK is impossible: `doMuteToggle` runs only on a long press in GIF_PLAYBACK, HISTORY_TIME or HISTORY_POKE. The fallback to GIF_PLAYBACK therefore never fires (`DisplayInvariants.MuteFeedbackReturns`).
- `firmware/src/time_manager.h` says `timeManagerSetTimezone` also saves the name to NVS. The code only sets the RAM copy (firmware/src/settings.cpp:234); the name reaches NVS when `saveSettings` runs, which the detection path does right after the set (time_manager.cpp:114). The model keeps the two apart (`TimeManager.Reboot`, `TimeManager.UnknownZoneLostOnReboot`).
- When `_openFile` fails, playback stops but the old `_currentFile` is kept; only an empty request clears it (`GifPlayer.RequestTakesEffect`). A short frame read skips the draw but still advances the cursor (`GifPlayer.TickAdvancesFrame`).

## Left out

- Base64 decoding (mbedtls): the decoded buffer, or its absence, is a parameter of the network step. Nothing is modelled beyond "may fail".
- JSON parsing and serialisation (ArduinoJson): messages arrive as pre-parsed records of optional fields (`NetworkTask.WsDoc`). Numeric settings arrive as `Option<int>` in place of `toInt()` parsing.
- Display I/O: I2C commands (`clearFullGDDRAM`, brightness, invert), u8g2 font drawing and `sendBuffer`, `showText`, the Wi-Fi QR code and the boot-animation screens. The display is the 1024-byte buffer only.
- Audio: the buzzer, RTTTL melodies and tone playback. Only the volume values are modelled.
- FreeRTOS: the queues, event groups, mutexes, `vTaskDelay` and preemption. Each task is a step function handling one event or one tick per call. Where the firmware checks a queue send, or where its failure matters to ownership, the send is a boolean parameter that says whether it succeeded.
- InputTask.Step, InputTask.StepEvent, InputTask.RunAlternates, InputTask.FromPowerOn, NetworkTask.WsEvent: each event is sent, and the properties are about the events sent. The firmware sends gestures (firmware/src/input_task.cpp:38, 47, 64, 74, 83) and `WS_STATUS{false}` (firmware/src/network_task.cpp:141) with timeout 0, so a full queue drops them. The display task may then receive a stream that does not alternate. Dropped sends are not modelled.
- Readings from code not shown or from hardware are parameters of the step that uses them: `pokeGetCurrentMessage`, `networkGetWifiLostMs`, `PORTAL_ACTIVE_BIT`, `pokeGetHistoryTextWidths`, `WiFi.status()` and `digitalRead`. Several `millis()` readings within one pass are collapsed into one `now`.
- LittleFS is a sequence of named files in directory order. Mounting, open/read/seek failures other than a missing or short file, and the "/" path prefix are not modelled.
- Web handlers other than upload, delete and settings: `handlePlay`, `handleList`, `handleStorage` and static assets. Persisting settings to NVS (`saveSettings`, `Preferences`) is also left out; the values are kept in memory.
- MQTT publishing (`mqttPublish*`), Home Assistant discovery (`mqtt_ha.cpp`), NTP `configTime`, `strftime`/`localtime_r` and HTTP timezone detection. These are transport and formatting glue.
- In `gif2qbit.py`, PIL decoding, resizing and greyscale conversion become a grey value per pixel. The C source emission of `qgif2header.py` is left out, and so are `tools/simulate-devices.py` and `firmware/scripts/patch_arduinowebsockets.py`.
- `random()` is an arbitrary draw (`ShuffleBag.Draws`). The properties hold for every draw; no distribution is claimed.
- Gif2Qbit.Encode: its contract gives only the file length. What the bytes mean is proved by `Gif2Qbit.EncodeHeader`, `Gif2Qbit.EncodeDelays`, `Gif2Qbit.EncodeFrame` and `Gif2Qbit.EncodeParses`.
- Gif2Qbit.Convert: a delay above 65535 is an error with nothing written. The script raises `struct.error` inside `with open` after writing the header and the earlier delays (tools/gif2qbit.py:139-144), which leaves a partial .qgif behind and aborts the rest of the batch (tools/gif2qbit.py:190-194). Partial files and the batch abort are not modelled.
- AppState.CStrCopy, AppState.CStrCopyFits, NetworkTask.CommandEvent: `cap` counts characters, while `strncpy` counts bytes. The two agree for ASCII text only. For UTF-8 text the firmware cuts at a different place, possibly inside a character; that cut is not modelled.
- DisplayTask.WifiSetupTick, DisplayTask.Boot: both compute the countdown and its throttle key with the corrected timeout of 30000 ms (`AP_TIMEOUT_MS`), not the firmware's 15000 ms (`WIFI_AP_TIMEOUT_MS`, firmware/src/display_task.cpp:37, used at 237 and 492-497). The firmware's countdown with 15000 is stated by `DisplayTask.CountdownEndsBeforePortal` and `DisplayTask.ProgressKeyIsCountdown`.
- PokeHandler.DrawRow, PokeHandler.DrawRowPixel, PokeHandler.ShowBitmaps, PokeHandler.ShowBitmapsPixel, PokeHandler.ShowPokeBitmap: these follow the corrected rule and skip a row that has a pointer and a width but height 0. The firmware draws that row as 16 rows and reads past its buffer (firmware/src/poke_handler.cpp:145-151, 156-162); that read is stated by `PokeHandler.AsWrittenReadExtent` and `PokeHandler.LiveOverRead`, and the pixels it would draw are not modelled.
- GifPlayer.Tick: its contract gives only well-formedness and the no-display case. Frame timing, loop counting and auto-advance are stated by `GifPlayer.TickWaits`, `GifPlayer.TickAdvancesFrame`, `GifPlayer.AutoAdvanceAfterLoops` and `GifPlayer.IdleFreezesFile`.

## Findings

| source | as written | input that shows it | evidently intended | confidence | as-written member | corrected member |
|---|---|---|---|---|---|---|
| firmware/src/display_task.cpp:36-37 | `WIFI_AP_TIMEOUT_MS` is 15000, but its comment says it matches `WIFI_RECONNECT_TIMEOUT_MS`, which is 30000 (firmware/src/network_task.cpp:33) | a Wi-Fi outage of 20 s: the countdown reaches 0 at 15 s, but the portal only starts after 30 s | the countdown ends when the portal starts (30000) | medium, not executed | DisplayTask.CountdownEndsBeforePortal | DisplayTask.CountdownEndsAtPortal |
| firmware/src/network_task.cpp:174-187 | when `xQueueSend` fails for a POKE_BITMAP event, the decoded bitmaps are never freed | doc `WsDoc(Some("poke"), None, None, Some("AA=="), Some(8), Some("AA=="), Some(8), None)` arriving at a full queue | free both buffers when the send fails | high, not executed | NetworkTask.ProducerLeaks | NetworkTask.WsMessageOwns |
| firmware/lib/web_dashboard/web_dashboard.cpp:139-148 | the final chunk of an upload already refused removes whatever file has its name | "cat.qgif" exists; an upload of "cat.qgif" is refused for space at chunk 0; its final chunk (index 1) removes the existing file | remove only a file this upload wrote | medium, not executed | WebDashboard.RefusedUploadRemovesExisting | WebDashboard.RefusedUploadKeepsFiles |
| firmware/src/poke_handler.cpp:143-163 | a zero bitmap height is drawn as height 16, so a buffer shorter than its width is read over two pages | a 7-byte sender bitmap of width 128 gets height 0 and is read over 256 bytes | draw a row only when its height is positive; every bitmap poke then leaves each drawn row inside its buffer | medium, not executed | PokeHandler.LiveOverRead | PokeHandler.HandlePokeBitmapFromPtrsFits |
