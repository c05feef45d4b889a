/**
 * Directory scans of the animation player (gif_player.cpp): which entries
 * count as animations, the first one, and the alphabetical successor used
 * for manual stepping.
 */
module GifFiles {
  import opened Wrappers
  import GifTypes

  const EXT: string := ".qgif"

  predicate EndsWithQgif(s: string) {
    |s| >= |EXT| && s[|s| - |EXT|..] == EXT
  }

  /** A listed name loses one leading '/', as with `name.substring(1)`. */
  function StripSlash(s: string): string {
    if |s| > 0 && s[0] == '/' then s[1..] else s
  }

  /** Every `.qgif` entry of the directory, slash-stripped, in iteration order. */
  function Matching(dir: seq<string>): (r: seq<string>)
    ensures |r| <= |dir|
    ensures forall i :: 0 <= i < |r| ==> EndsWithQgif(r[i])
  {
    if |dir| == 0 then []
    else if EndsWithQgif(dir[0]) then
      StripKeepsExt(dir[0]);
      [StripSlash(dir[0])] + Matching(dir[1..])
    else Matching(dir[1..])
  }

  lemma StripKeepsExt(s: string)
    requires EndsWithQgif(s)
    ensures EndsWithQgif(StripSlash(s))
  {
    if |s| > 0 && s[0] == '/' {
      assert s != EXT;
      assert StripSlash(s)[|StripSlash(s)| - |EXT|..] == s[|s| - |EXT|..];
    }
  }

  /** The scan of the shuffle bag and of `gifPlayerGetNextFile`: at most MAX_FRAMES names. */
  function QgifNames(dir: seq<string>): (r: seq<string>)
    ensures |r| <= GifTypes.MAX_FRAMES && |r| <= |Matching(dir)|
    ensures r == Matching(dir)[..|r|]
    ensures |r| == if |Matching(dir)| <= GifTypes.MAX_FRAMES then |Matching(dir)| else GifTypes.MAX_FRAMES
  {
    var m := Matching(dir);
    if |m| <= GifTypes.MAX_FRAMES then m else m[..GifTypes.MAX_FRAMES]
  }

  /** `gifPlayerHasFiles`: stops at the first `.qgif` entry. */
  function HasFiles(dir: seq<string>): (r: bool)
    ensures r <==> |Matching(dir)| > 0
    ensures r <==> exists i :: 0 <= i < |dir| && EndsWithQgif(dir[i])
  {
    if |dir| == 0 then false
    else EndsWithQgif(dir[0]) || HasFiles(dir[1..])
  }

  /** `gifPlayerGetFirstFile`: the first `.qgif` name, or "" when there is none. */
  function FirstFile(dir: seq<string>): (r: string)
    ensures r == "" <==> !HasFiles(dir)
    ensures HasFiles(dir) ==> r == Matching(dir)[0]
  {
    if |dir| == 0 then ""
    else if EndsWithQgif(dir[0]) then StripKeepsExt(dir[0]); StripSlash(dir[0])
    else FirstFile(dir[1..])
  }

  /** The first index of `x` in `s`. */
  function IndexOf(s: seq<string>, x: string): (r: Option<nat>)
    ensures r.None? <==> x !in s
    ensures r.Some? ==> r.value < |s| && s[r.value] == x && forall k :: 0 <= k < r.value ==> s[k] != x
  {
    if |s| == 0 then None
    else if s[0] == x then Some(0)
    else match IndexOf(s[1..], x)
      case None => None
      case Some(k) => Some(k + 1)
  }

  /**
   * `gifPlayerGetNextFile`: the name after `current` in scan order, wrapping
   * around; the first name when `current` is not listed; "" when nothing is.
   */
  function NextFile(dir: seq<string>, current: string): (r: string)
    ensures r == "" <==> |QgifNames(dir)| == 0
    ensures |QgifNames(dir)| > 0 ==> r in QgifNames(dir)
    ensures current !in QgifNames(dir) && |QgifNames(dir)| > 0 ==> r == QgifNames(dir)[0]
  {
    var files := QgifNames(dir);
    if |files| == 0 then ""
    else
      assert EndsWithQgif(files[0]);
      if |files| == 1 then files[0]
      else match IndexOf(files, current)
        case Some(i) => assert EndsWithQgif(files[(i + 1) % |files|]); files[(i + 1) % |files|]
        case None => files[0]
  }

  /** When `current` is listed (first at index `i`), the successor is the next listed name, cyclically. */
  lemma NextFileSteps(dir: seq<string>, current: string, i: nat)
    requires i < |QgifNames(dir)| && QgifNames(dir)[i] == current
    requires forall k :: 0 <= k < i ==> QgifNames(dir)[k] != current
    ensures NextFile(dir, current) == QgifNames(dir)[(i + 1) % |QgifNames(dir)|]
  {
    var files := QgifNames(dir);
    if |files| > 1 {
      assert IndexOf(files, current) == Some(i);
    }
  }
}
