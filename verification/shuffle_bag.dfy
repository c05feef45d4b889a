/**
 * The fair-random shuffle bag of the animation player (gif_player.cpp):
 * a Fisher-Yates shuffle of the listed animations, handed out in order,
 * rebuilt when exhausted so that the next pass never starts with the
 * animation that ended the previous one.
 *
 * `random(n)` is not modelled as a distribution: every draw is an arbitrary
 * natural number reduced modulo `n`, and every property below holds for all
 * draws.
 */
module ShuffleBag {
  /** The values `random()` returns: one per Fisher-Yates step (by loop index) and one for the boundary swap. */
  datatype Draws = Draws(fisherYates: nat -> nat, swap: nat)

  /** `_shuffleBag[0.._shuffleTotal)` and `_shufflePos`. */
  datatype Bag = Bag(items: seq<string>, pos: nat)

  predicate Distinct(s: seq<string>) {
    forall i, j :: 0 <= i < j < |s| ==> s[i] != s[j]
  }

  function Swap(a: seq<string>, i: nat, j: nat): (r: seq<string>)
    requires i < |a| && j < |a|
    ensures |r| == |a| && r[i] == a[j] && r[j] == a[i]
    ensures forall k :: 0 <= k < |a| && k != i && k != j ==> r[k] == a[k]
    ensures multiset(r) == multiset(a)
  {
    a[i := a[j]][j := a[i]]
  }

  /** The shuffle loop from index `i` down to 1: swap position `i` with `random(i + 1)`. */
  function ShuffleDown(a: seq<string>, i: nat, draws: nat -> nat): (r: seq<string>)
    requires i < |a|
    ensures |r| == |a|
    ensures multiset(r) == multiset(a)
    decreases i
  {
    if i == 0 then a
    else ShuffleDown(Swap(a, i, draws(i) % (i + 1)), i - 1, draws)
  }

  function FisherYates(a: seq<string>, draws: nat -> nat): (r: seq<string>)
    ensures |r| == |a|
    ensures multiset(r) == multiset(a)
  {
    if |a| == 0 then a else ShuffleDown(a, |a| - 1, draws)
  }

  /** A permutation of a duplicate-free sequence is duplicate-free. */
  lemma {:induction false} PermutationKeepsDistinct(a: seq<string>, b: seq<string>)
    requires multiset(a) == multiset(b)
    requires Distinct(a)
    ensures Distinct(b)
  {
    forall i, j | 0 <= i < j < |b|
      ensures b[i] != b[j]
    {
      if b[i] == b[j] {
        var x := b[i];
        assert multiset(b)[x] >= 2 by {
          var rest := b[..i] + b[i + 1..];
          assert b == b[..i] + [x] + b[i + 1..];
          assert x in rest by { assert rest[j - 1] == b[j]; }
          assert multiset(b) == multiset(b[..i]) + multiset{x} + multiset(b[i + 1..]);
          assert multiset(rest) == multiset(b[..i]) + multiset(b[i + 1..]);
        }
        DistinctCountsOne(a, x);
      }
    }
  }

  lemma {:induction false} DistinctCountsOne(a: seq<string>, x: string)
    requires Distinct(a)
    ensures multiset(a)[x] <= 1
  {
    if |a| > 0 {
      assert a == [a[0]] + a[1..];
      assert Distinct(a[1..]) by {
        forall i, j | 0 <= i < j < |a[1..]| ensures a[1..][i] != a[1..][j] {
          assert a[1..][i] == a[i + 1] && a[1..][j] == a[j + 1];
        }
      }
      DistinctCountsOne(a[1..], x);
      if a[0] == x {
        assert x !in a[1..] by {
          forall k | 0 <= k < |a[1..]| ensures a[1..][k] != x {
            assert a[1..][k] == a[k + 1];
          }
        }
      }
    }
  }

  /**
   * `gifPlayerBuildShuffleBag`: shuffle the scanned listing and rewind.
   * The listing itself is `GifFiles.QgifNames` of the directory.
   */
  function Build(files: seq<string>, draws: Draws): (b: Bag)
    ensures b.pos == 0
    ensures multiset(b.items) == multiset(files)
  {
    Bag(FisherYates(files, draws.fisherYates), 0)
  }

  /**
   * The rebuild inside `gifPlayerNextShuffle`: when the new first entry is the
   * one that ended the previous pass, it trades places with a random other entry.
   */
  function Rebuild(last: string, files: seq<string>, draws: Draws): (b: Bag)
    ensures b.pos == 0
    ensures multiset(b.items) == multiset(files)
  {
    var built := Build(files, draws);
    if |built.items| > 1 && built.items[0] == last then
      var sw := 1 + draws.swap % (|built.items| - 1);
      built.(items := Swap(built.items, 0, sw))
    else built
  }

  /**
   * `gifPlayerNextShuffle`: the animation to play next and the updated bag.
   * An empty bag yields "", a one-entry bag always yields its entry, and a
   * larger bag hands out its entries in order, rebuilding once exhausted.
   */
  function NextShuffle(bag: Bag, files: seq<string>, draws: Draws): (r: (string, Bag))
    ensures |bag.items| == 0 ==> r == ("", bag)
    ensures |bag.items| == 1 ==> r == (bag.items[0], bag)
    ensures |bag.items| >= 2 && bag.pos < |bag.items| ==>
              r == (bag.items[bag.pos], bag.(pos := bag.pos + 1))
    ensures |bag.items| >= 2 && bag.pos >= |bag.items| ==>
              && multiset(r.1.items) == multiset(files)
              && (|r.1.items| == 0 ==> r.0 == "" && r.1.pos == 0)
              && (|r.1.items| > 0 ==> r.0 == r.1.items[0] && r.1.pos == 1)
  {
    if |bag.items| == 0 then ("", bag)
    else if |bag.items| == 1 then (bag.items[0], bag)
    else
      var b := if bag.pos >= |bag.items| then Rebuild(bag.items[|bag.items| - 1], files, draws) else bag;
      if |b.items| == 0 then ("", b)
      else (b.items[b.pos], b.(pos := b.pos + 1))
  }

  /** The bag state between two calls once at least one entry has been handed out. */
  predicate Dealing(bag: Bag) {
    && Distinct(bag.items)
    && |bag.items| >= 2
    && 1 <= bag.pos <= |bag.items|
  }

  /**
   * No animation plays twice in a row: with a duplicate-free listing of at
   * least two animations, the next name differs from the one handed out last
   * (`items[pos - 1]`), also across a rebuild, and the bag keeps dealing.
   */
  lemma NoImmediateRepeat(bag: Bag, files: seq<string>, draws: Draws)
    requires Dealing(bag)
    requires Distinct(files) && |files| >= 2
    ensures NextShuffle(bag, files, draws).0 != bag.items[bag.pos - 1]
    ensures Dealing(NextShuffle(bag, files, draws).1)
    ensures var (name, bag') := NextShuffle(bag, files, draws); bag'.items[bag'.pos - 1] == name
  {
    if bag.pos >= |bag.items| {
      NextAfterRebuild(bag, files, draws);
    } else {
      NextWithinPass(bag, files, draws);
    }
  }

  lemma NextWithinPass(bag: Bag, files: seq<string>, draws: Draws)
    requires Dealing(bag) && bag.pos < |bag.items|
    ensures NextShuffle(bag, files, draws) == (bag.items[bag.pos], bag.(pos := bag.pos + 1))
    ensures bag.items[bag.pos] != bag.items[bag.pos - 1]
  {
  }

  lemma NextAfterRebuild(bag: Bag, files: seq<string>, draws: Draws)
    requires Dealing(bag) && bag.pos >= |bag.items|
    requires Distinct(files) && |files| >= 2
    ensures var b := Rebuild(bag.items[|bag.items| - 1], files, draws);
            && NextShuffle(bag, files, draws) == (b.items[0], b.(pos := 1))
            && Distinct(b.items) && |b.items| == |files|
            && b.items[0] != bag.items[bag.pos - 1]
  {
    var b := Rebuild(bag.items[|bag.items| - 1], files, draws);
    RebuildAvoids(bag.items[|bag.items| - 1], files, draws);
    assert b.pos == 0 && |b.items| > 0;
  }

  /** A rebuilt bag is duplicate-free and never starts with `last`. */
  lemma RebuildAvoids(last: string, files: seq<string>, draws: Draws)
    requires Distinct(files) && |files| >= 2
    ensures |Rebuild(last, files, draws).items| == |files|
    ensures Distinct(Rebuild(last, files, draws).items)
    ensures Rebuild(last, files, draws).items[0] != last
  {
    var built := Build(files, draws);
    var b := Rebuild(last, files, draws);
    PermutationKeepsDistinct(files, built.items);
    PermutationKeepsDistinct(files, b.items);
    if built.items[0] == last {
      var sw := 1 + draws.swap % (|built.items| - 1);
      assert b.items[0] == built.items[sw];
    }
  }

  /** The names handed out by `k` consecutive calls with an unchanged listing. */
  function Deal(bag: Bag, files: seq<string>, draws: Draws, k: nat): (r: (seq<string>, Bag))
    ensures |r.0| == k
    decreases k
  {
    if k == 0 then ([], bag)
    else
      var (name, bag') := NextShuffle(bag, files, draws);
      var (rest, last) := Deal(bag', files, draws, k - 1);
      ([name] + rest, last)
  }

  /** Within one pass the bag hands out exactly its remaining entries, in order. */
  lemma {:induction false} DealWithinPass(bag: Bag, files: seq<string>, draws: Draws, k: nat)
    requires |bag.items| >= 2 && bag.pos + k <= |bag.items|
    ensures Deal(bag, files, draws, k).0 == bag.items[bag.pos..bag.pos + k]
    ensures Deal(bag, files, draws, k).1 == bag.(pos := bag.pos + k)
    decreases k
  {
    if k > 0 {
      var bag' := bag.(pos := bag.pos + 1);
      assert NextShuffle(bag, files, draws) == (bag.items[bag.pos], bag');
      DealWithinPass(bag', files, draws, k - 1);
      assert bag.items[bag.pos..bag.pos + k] == [bag.items[bag.pos]] + bag'.items[bag'.pos..bag'.pos + (k - 1)];
    }
  }

  /**
   * A freshly built bag of at least two animations hands every listed
   * animation out exactly once in its first pass.
   */
  lemma OnePassIsPermutation(files: seq<string>, draws: Draws)
    requires |files| >= 2
    ensures var n := |files|;
            multiset(Deal(Build(files, draws), files, draws, n).0) == multiset(files)
  {
    var b := Build(files, draws);
    DealWithinPass(b, files, draws, |b.items|);
    assert b.items[0..|b.items|] == b.items;
  }

  /**
   * Any run of calls, each with its own directory listing and draws, never
   * yields the same name twice in a row while every listing is duplicate-free
   * and holds at least two animations.
   */
  function DealEach(bag: Bag, steps: seq<(seq<string>, Draws)>): (r: seq<string>)
    ensures |r| == |steps|
    decreases |steps|
  {
    if |steps| == 0 then []
    else
      var (name, bag') := NextShuffle(bag, steps[0].0, steps[0].1);
      [name] + DealEach(bag', steps[1..])
  }

  lemma {:induction false} NeverTwiceInARow(bag: Bag, steps: seq<(seq<string>, Draws)>)
    requires Dealing(bag)
    requires forall k :: 0 <= k < |steps| ==>
               Distinct(steps[k].0) && |steps[k].0| >= 2
    ensures var out := DealEach(bag, steps);
            (|out| > 0 ==> out[0] != bag.items[bag.pos - 1])
            && forall k :: 0 <= k < |out| - 1 ==> out[k] != out[k + 1]
    decreases |steps|
  {
    if |steps| > 0 {
      NoImmediateRepeat(bag, steps[0].0, steps[0].1);
      var (name, bag') := NextShuffle(bag, steps[0].0, steps[0].1);
      var tail := steps[1..];
      assert forall k :: 0 <= k < |tail| ==> tail[k] == steps[k + 1];
      NeverTwiceInARow(bag', tail);
      var rest := DealEach(bag', tail);
      var out := DealEach(bag, steps);
      assert out == [name] + rest;
      forall k | 0 <= k < |out| - 1 ensures out[k] != out[k + 1] {
        assert out[k + 1] == rest[k];
        if k > 0 {
          assert out[k] == rest[k - 1];
        }
      }
    }
  }
}
