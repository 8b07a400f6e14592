/**
 What the best block at a line is, said of the lines alone: which blocks repeat
 there, what collapsing them saves, and which one is to be taken. The exact
 search finds exactly that one.
 */
module BlockMeaning {
  import opened Bytes
  import opened Lines
  import opened BlockHash
  import opened BlockSearch
  import opened Wrappers

  /** From line `i` to line `end`, terminated lines repeat every `k` lines, `r` times in all. */
  ghost predicate Tiled(lines: seq<Text>, i: nat, k: nat, r: nat, end: nat) {
    && i + k <= end == i + k * r <= |lines|
    && (forall m :: i <= m < end ==> Complete(lines[m]))
    && (forall m :: i <= m < end - k ==> lines[m] == lines[m + k])
  }

  /** The bytes saved by writing the `k` lines once with a marker in place of the lines up to `end`. */
  ghost function Saved(lines: seq<Text>, i: nat, k: nat, r: nat, end: nat): (n: int)
    requires i + k <= end <= |lines|
  {
    |Concat(lines[i..end])| - |Concat(lines[i..i + k])| - |BlockMarker(r, k)|
  }

  /** A block of 2 to 32 lines that can be collapsed here with profit. */
  ghost predicate Collapsible(lines: seq<Text>, i: nat, k: nat, r: nat, end: nat) {
    2 <= k <= 32 && 2 <= r < 0x1_0000_0000 && Tiled(lines, i, k, r, end) && Saved(lines, i, k, r, end) > 0
  }

  /** This block saves most; among equals it is the smallest. */
  ghost predicate Best(lines: seq<Text>, i: nat, k: nat, r: nat, end: nat) {
    && Collapsible(lines, i, k, r, end)
    && forall k': nat, r': nat, end': nat :: Collapsible(lines, i, k', r', end') ==>
      || Saved(lines, i, k', r', end') < Saved(lines, i, k, r, end)
      || (Saved(lines, i, k', r', end') == Saved(lines, i, k, r, end) && (k < k' || (k == k' && r == r')))
  }

  /** Nothing can be collapsed here with profit. */
  ghost predicate NoneHere(lines: seq<Text>, i: nat) {
    forall k: nat, r: nat, end: nat :: !Collapsible(lines, i, k, r, end)
  }

  // ---- Repetition of lines and repetition of spans ----

  /** Block `j` of a tiling holds the lines of block 0. */
  lemma {:induction false} TileIsFirst(lines: seq<Text>, i: nat, k: nat, r: nat, end: nat, j: nat, at: nat, o: nat)
    requires Tiled(lines, i, k, r, end) && at == i + k * j && at + k <= end && o < k
    ensures lines[at + o] == lines[i + o]
    decreases j
  {
    if j == 0 {
      assert k * j == 0;
    } else {
      assert k * j == k * (j - 1) + k;
      TileIsFirst(lines, i, k, r, end, j - 1, at - k, o);
      assert lines[at - k + o] == lines[at - k + o + k];
    }
  }

  lemma TileMatches(layout: LineLayout, i: nat, k: nat, r: nat, end: nat, j: nat)
    requires layout.Valid() && k >= 1 && Tiled(Split(layout.text), i, k, r, end) && end <= layout.completeLines && 1 <= j < r
    ensures BlockMatches(layout, i, k, j)
  {
    BlockInside(k, j, r);
    TileMatchesAt(layout, i, k, r, end, j, i + k * j);
  }

  lemma TileMatchesAt(layout: LineLayout, i: nat, k: nat, r: nat, end: nat, j: nat, at: nat)
    requires layout.Valid() && k >= 1 && Tiled(Split(layout.text), i, k, r, end) && end <= layout.completeLines
    requires at == i + k * j && at + k <= end
    ensures BlockMatches(layout, i, k, j)
  {
    var lines := Split(layout.text);
    var a, b := lines[i..i + k], lines[at..at + k];
    forall o | 0 <= o < k ensures a[o] == b[o] {
      TileIsFirst(lines, i, k, r, end, j, at, o);
    }
    assert a == b;
    SpansAreLines(layout, i, at, k);
  }

  /** Tiles lie within the terminated lines. */
  lemma TilesComplete(layout: LineLayout, i: nat, k: nat, r: nat, end: nat)
    requires layout.Valid() && k >= 1 && Tiled(Split(layout.text), i, k, r, end)
    ensures end <= layout.completeLines
  {
    var lines := Split(layout.text);
    assert Complete(lines[end - 1]);
  }

  /** A tiling is a repetition as the search sees it. */
  lemma TiledRepeats(layout: LineLayout, i: nat, k: nat, r: nat, end: nat)
    requires layout.Valid() && k >= 1 && Tiled(Split(layout.text), i, k, r, end)
    ensures end <= layout.completeLines && Repeats(layout, i, k, r)
  {
    TilesComplete(layout, i, k, r, end);
    forall j | 1 <= j < r ensures BlockMatches(layout, i, k, j) {
      TileMatches(layout, i, k, r, end, j);
    }
  }

  /** ... and the other way round. */
  lemma RepeatsTiled(layout: LineLayout, i: nat, k: nat, r: nat, end: nat)
    requires layout.Valid() && k >= 1 && r >= 1 && Repeats(layout, i, k, r) && end == i + k * r
    ensures Tiled(Split(layout.text), i, k, r, end)
  {
    MulLe(k, 1, r);
    RepeatShift(layout, i, k, r, end - i - k);
    ShiftedLines(layout, i, k, end);
  }

  lemma ShiftedLines(layout: LineLayout, i: nat, k: nat, end: nat)
    requires layout.Valid() && i + k <= end <= layout.completeLines && Periodic(layout, i, k, end - i - k)
    ensures forall m :: i <= m < end ==> Complete(Split(layout.text)[m])
    ensures forall m :: i <= m < end - k ==> Split(layout.text)[m] == Split(layout.text)[m + k]
  {
    var lines, n := Split(layout.text), end - i - k;
    forall m | i <= m < end ensures Complete(lines[m]) {
      CompleteAt(lines, layout.completeLines, m);
    }
    forall m | i <= m < end - k ensures lines[m] == lines[m + k] {
      assert lines[i..i + n][m - i] == lines[i + k..i + k + n][m - i];
    }
  }

  // ---- What the exact search finds ----

  /** A collapsible block is a candidate, and its savings are the bytes saved. */
  lemma CollapsibleIsCandidate(layout: LineLayout, i: nat, k: nat, r: nat, end: nat)
    requires layout.Valid() && Tiled(Split(layout.text), i, k, r, end) && 2 <= k <= 32 && 2 <= r < 0x1_0000_0000
    ensures Candidate(layout, i, k, r).Some? <==> Saved(Split(layout.text), i, k, r, end) > 0
    ensures Candidate(layout, i, k, r).Some? ==>
      Candidate(layout, i, k, r).value == BlockCandidate(k, r, Saved(Split(layout.text), i, k, r, end))
  {
    TilesComplete(layout, i, k, r, end);
    CandidateSaves(layout, i, k, r, end);
  }

  /** Its size is among those searched. */
  lemma SizeSearched(layout: LineLayout, i: nat, k: nat, r: nat, end: nat)
    requires layout.Valid() && Tiled(Split(layout.text), i, k, r, end) && 2 <= k <= 32 && 2 <= r
    ensures i <= layout.completeLines && k <= MaxBlock(layout, i)
  {
    TilesComplete(layout, i, k, r, end);
    MulLe(k, 2, r);
  }

  /** The exact candidate of its size saves at least as much, and more unless it is the same. */
  lemma CollapsibleExact(layout: LineLayout, i: nat, k: nat, r: nat, end: nat)
    requires layout.Valid() && Countable(layout) && Collapsible(Split(layout.text), i, k, r, end)
    ensures i <= layout.completeLines && k <= MaxBlock(layout, i) && ExactFor(layout, i, k).Some?
    ensures var c := ExactFor(layout, i, k).value;
      && c.savings >= Saved(Split(layout.text), i, k, r, end)
      && (c.savings == Saved(Split(layout.text), i, k, r, end) ==> c.repetitions == r)
  {
    SizeSearched(layout, i, k, r, end);
    CollapsibleIsCandidate(layout, i, k, r, end);
    TiledRepeats(layout, i, k, r, end);
    CountMaximal(layout, i, k, r);
    ExactCountFits(layout, i, k);
    if r < ExactCount(layout, i, k) {
      SavingsGrow(layout, i, k, r, ExactCount(layout, i, k));
    }
  }

  lemma ExactCountFits(layout: LineLayout, i: nat, k: nat)
    requires layout.Valid() && Countable(layout) && k >= 2 && i + k <= layout.completeLines
    ensures ExactCount(layout, i, k) < U32_LIMIT
    ensures i + k * ExactCount(layout, i, k) <= layout.completeLines
  {
    var e := ExactCount(layout, i, k);
    MulLe(e, 2, k);
    assert e * k == k * e;
  }

  /** What is not beaten saves no less, and is no larger if it saves the same. */
  lemma NotBeaten(c: BlockCandidate, best: BlockCandidate)
    requires best.Present() && !Beats(c, best)
    ensures c.savings <= best.savings
    ensures c.savings == best.savings ==> best.blockLines <= c.blockLines
  {
  }

  /** Where the exact search finds nothing, nothing can be collapsed with profit. */
  lemma ExactNone(layout: LineLayout, i: nat)
    requires layout.Valid() && Countable(layout) && i <= layout.completeLines && !ExactBest(layout, i).Present()
    ensures NoneHere(Split(layout.text), i)
  {
    BestIsBest(layout, i, MaxBlock(layout, i));
    forall k: nat, r: nat, end: nat | Collapsible(Split(layout.text), i, k, r, end) ensures false {
      CollapsibleExact(layout, i, k, r, end);
    }
  }

  /** What the exact search finds is the best block there is. */
  lemma ExactIsTheBest(layout: LineLayout, i: nat, end: nat)
    requires layout.Valid() && Countable(layout) && i <= layout.completeLines && ExactBest(layout, i).Present()
    requires end == i + ExactBest(layout, i).blockLines * ExactBest(layout, i).repetitions
    ensures Best(Split(layout.text), i, ExactBest(layout, i).blockLines, ExactBest(layout, i).repetitions, end)
  {
    var c, lines := ExactBest(layout, i), Split(layout.text);
    BestIsBest(layout, i, MaxBlock(layout, i));
    ExactCountFits(layout, i, c.blockLines);
    RepeatsTiled(layout, i, c.blockLines, c.repetitions, end);
    CollapsibleIsCandidate(layout, i, c.blockLines, c.repetitions, end);
    forall k: nat, r: nat, last: nat | Collapsible(lines, i, k, r, last)
      ensures Saved(lines, i, k, r, last) < c.savings
        || (Saved(lines, i, k, r, last) == c.savings && (c.blockLines < k || (c.blockLines == k && c.repetitions == r)))
    {
      CollapsibleExact(layout, i, k, r, last);
      NotBeaten(ExactFor(layout, i, k).value, c);
    }
  }

  /** Past the terminated lines nothing repeats. */
  lemma TailNone(layout: LineLayout, i: nat)
    requires layout.Valid() && layout.completeLines <= i
    ensures NoneHere(Split(layout.text), i)
  {
    forall k: nat, r: nat, end: nat | Collapsible(Split(layout.text), i, k, r, end) ensures false {
      TilesComplete(layout, i, k, r, end);
    }
  }

  /** With fewer than four terminated lines nothing can be collapsed. */
  lemma ShortNone(layout: LineLayout, i: nat)
    requires layout.Valid() && layout.completeLines < 4
    ensures NoneHere(Split(layout.text), i)
  {
    forall k: nat, r: nat, end: nat | Collapsible(Split(layout.text), i, k, r, end) ensures false {
      TilesComplete(layout, i, k, r, end);
      MulLe(k, 2, r);
    }
  }
}
