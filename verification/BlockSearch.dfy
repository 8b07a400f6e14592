/**
 The search for the best repeated block at one line, exactly and through
 hashes, and the proof that hash collisions can never change its answer.
 */
module BlockSearch {
  import opened Bytes
  import opened Lines
  import opened BlockHash
  import opened Wrappers

  const MAX_BLOCK_LINES: nat := 32
  const U32_LIMIT: nat := 0x1_0000_0000

  datatype BlockCandidate = BlockCandidate(blockLines: nat, repetitions: nat, savings: nat) {
    predicate Present() { blockLines != 0 }
  }

  const NONE := BlockCandidate(0, 0, 0)

  /** `×N#K` and LF, with `×` the two bytes C3 97. */
  function BlockMarker(repetitions: nat, blockLines: nat): (r: Text)
    ensures |r| == 2 + |Decimal(repetitions)| + |Decimal(blockLines)| + 2
  {
    [0xC3, 0x97] + Decimal(repetitions) + [35] + Decimal(blockLines) + [LF]
  }

  /** Where the `#` of a marker stands. */
  function HashAt(marker: Text): (p: nat)
    ensures p <= |marker| && (p < |marker| ==> marker[p] == 35) && forall i :: 0 <= i < p ==> marker[i] != 35
  {
    if marker == [] || marker[0] == 35 then 0 else 1 + HashAt(marker[1..])
  }

  /** The repetition count and the block size a marker shows. */
  function MarkerRead(marker: Text): (r: (int, int)) {
    var p := HashAt(marker);
    if p < 2 || p + 2 > |marker| then (0, 0)
    else (Value(marker[2..p]), Value(marker[p + 1..|marker| - 1]))
  }

  /** A marker is `×`, the repetition count, `#`, the block size, and LF; both numbers can be read back. */
  lemma MarkerShows(repetitions: nat, blockLines: nat)
    ensures var m := BlockMarker(repetitions, blockLines);
      && m[..2] == [0xC3, 0x97] && m[|m| - 1] == 10
      && MarkerRead(m) == (repetitions, blockLines)
  {
    var m, n := BlockMarker(repetitions, blockLines), Decimal(repetitions);
    DecimalDigitsOnly(repetitions);
    DecimalValue(repetitions);
    DecimalValue(blockLines);
    assert m[2..2 + |n|] == n && m[2 + |n|] == 35;
    forall i | 0 <= i < 2 + |n| ensures m[i] != 35 {
      assert i >= 2 ==> m[i] == n[i - 2];
    }
    assert HashAt(m) == 2 + |n|;
    assert m[2 + |n| + 1..|m| - 1] == Decimal(blockLines);
  }

  /** `block_marker_len`. */
  method BlockMarkerLen(repetitions: nat, blockLines: nat) returns (n: nat)
    ensures n == |BlockMarker(repetitions, blockLines)|
  {
    var a := DecimalDigits(repetitions);
    var b := DecimalDigits(blockLines);
    n := 2 + a + b + 2;
  }

  /** The largest block size considered at `start`. */
  function MaxBlock(layout: LineLayout, start: nat): (r: nat)
    requires start <= layout.completeLines
  {
    var half := (layout.completeLines - start) / 2;
    if half < MAX_BLOCK_LINES then half else MAX_BLOCK_LINES
  }

  /** `block_candidate`: `repetitions` blocks of `k` lines, if collapsing them saves bytes. */
  function Candidate(layout: LineLayout, start: nat, k: nat, repetitions: nat): (r: Option<BlockCandidate>)
    requires layout.Valid()
    ensures r.Some? ==> r.value.blockLines == k >= 1 && r.value.repetitions == repetitions >= 2
  {
    if repetitions < 2 || k == 0 || start + k * repetitions > layout.completeLines then None
    else
      BlockFits(start, k, repetitions, layout.completeLines);
      var omitted := layout.SpanLen(start + k, k * repetitions - k);
      var marker := |BlockMarker(repetitions, k)|;
      if marker >= omitted || k >= 0x1_0000 || repetitions >= U32_LIMIT then None
      else Some(BlockCandidate(k, repetitions, omitted - marker))
  }

  lemma BlockFits(start: nat, k: nat, r: nat, limit: nat)
    requires k >= 1 && r >= 2 && start + k * r <= limit
    ensures k * r - k >= 1 && start + k + (k * r - k) <= limit
  {
    assert k * r == k * 2 + k * (r - 2);
  }

  /** `candidate` replaces `current`: more savings, then fewer lines, then more repetitions. */
  predicate Beats(candidate: BlockCandidate, current: BlockCandidate) {
    || !current.Present()
    || candidate.savings > current.savings
    || (candidate.savings == current.savings
        && (candidate.blockLines < current.blockLines
            || (candidate.blockLines == current.blockLines && candidate.repetitions > current.repetitions)))
  }

  function Preferred(current: BlockCandidate, candidate: BlockCandidate): (r: BlockCandidate) {
    if Beats(candidate, current) then candidate else current
  }

  /** `r` whole blocks of `k` lines fit, and each equals the first. */
  ghost predicate Repeats(layout: LineLayout, start: nat, k: nat, r: nat)
    requires layout.Valid() && k >= 1
  {
    && start + k * r <= layout.completeLines
    && forall j :: 1 <= j < r ==> BlockMatches(layout, start, k, j)
  }

  /** Block `j` after `start` fits and holds the same bytes as block 0. */
  predicate BlockMatches(layout: LineLayout, start: nat, k: nat, j: nat)
    requires layout.Valid() && k >= 1
  {
    start + k * j + k <= layout.completeLines && start + k <= layout.completeLines
    && layout.Span(start, k) == layout.Span(start + k * j, k)
  }

  /** The most repetitions of the `k` lines at `start`. */
  ghost predicate IsExactCount(layout: LineLayout, start: nat, k: nat, r: nat)
    requires layout.Valid() && k >= 1
  {
    r >= 1 && Repeats(layout, start, k, r) && !BlockMatches(layout, start, k, r)
  }

  function CountFrom(layout: LineLayout, start: nat, k: nat, r: nat): (n: nat)
    requires layout.Valid() && k >= 1 && r >= 1
    requires start + k * r <= layout.completeLines
    ensures Repeats(layout, start, k, r) ==> IsExactCount(layout, start, k, n)
    ensures r <= n
    decreases layout.completeLines - k * r
  {
    if BlockMatches(layout, start, k, r) then
      MoreRepeats(layout, start, k, r);
      CountFrom(layout, start, k, r + 1)
    else r
  }

  lemma MoreRepeats(layout: LineLayout, start: nat, k: nat, r: nat)
    requires layout.Valid() && k >= 1 && BlockMatches(layout, start, k, r)
    ensures k * (r + 1) == k * r + k && start + k * (r + 1) <= layout.completeLines
    ensures Repeats(layout, start, k, r) ==> Repeats(layout, start, k, r + 1)
  {
    assert k * (r + 1) == k * r + k;
  }

  /** How often the `k` lines at `start` repeat. */
  function ExactCount(layout: LineLayout, start: nat, k: nat): (n: nat)
    requires layout.Valid() && k >= 1 && start + k <= layout.completeLines
    ensures IsExactCount(layout, start, k, n)
  {
    CountFrom(layout, start, k, 1)
  }

  /** The best candidate among block sizes 2 to `k`. */
  function BestUpTo(layout: LineLayout, start: nat, k: nat): (r: BlockCandidate)
    requires layout.Valid() && start <= layout.completeLines && k <= MaxBlock(layout, start)
    decreases k
  {
    if k < 2 then NONE
    else
      var best := BestUpTo(layout, start, k - 1);
      match Candidate(layout, start, k, ExactCount(layout, start, k))
      case None => best
      case Some(c) => Preferred(best, c)
  }

  /** The candidate the exact search picks at `start`. */
  function ExactBest(layout: LineLayout, start: nat): (r: BlockCandidate)
    requires layout.Valid() && start <= layout.completeLines
  {
    BestUpTo(layout, start, MaxBlock(layout, start))
  }

  /** The exact candidate for one block size. */
  function ExactFor(layout: LineLayout, start: nat, k: nat): (r: Option<BlockCandidate>)
    requires layout.Valid() && start <= layout.completeLines && 2 <= k <= MaxBlock(layout, start)
  {
    Candidate(layout, start, k, ExactCount(layout, start, k))
  }

  /** `best` is one of the per-size exact candidates and none of them beats it. */
  ghost predicate IsBest(layout: LineLayout, start: nat, k: nat, best: BlockCandidate)
    requires layout.Valid() && start <= layout.completeLines && k <= MaxBlock(layout, start)
  {
    && (best.Present() ==> 2 <= best.blockLines <= k && ExactFor(layout, start, best.blockLines) == Some(best))
    && (!best.Present() ==> best == NONE)
    && (forall j :: 2 <= j <= k && ExactFor(layout, start, j).Some? ==>
          best.Present() && !Beats(ExactFor(layout, start, j).value, best))
  }

  /** The greedy fold over block sizes computes the maximum. */
  lemma {:induction false} BestIsBest(layout: LineLayout, start: nat, k: nat)
    requires layout.Valid() && start <= layout.completeLines && k <= MaxBlock(layout, start)
    ensures IsBest(layout, start, k, BestUpTo(layout, start, k))
  {
    if k >= 2 {
      BestIsBest(layout, start, k - 1);
      BestStep(layout, start, k, BestUpTo(layout, start, k - 1));
    }
  }

  lemma BestStep(layout: LineLayout, start: nat, k: nat, previous: BlockCandidate)
    requires layout.Valid() && start <= layout.completeLines && 2 <= k <= MaxBlock(layout, start)
    requires IsBest(layout, start, k - 1, previous)
    ensures var here := ExactFor(layout, start, k);
      IsBest(layout, start, k, if here.Some? then Preferred(previous, here.value) else previous)
  {
    var here := ExactFor(layout, start, k);
    var best := if here.Some? then Preferred(previous, here.value) else previous;
    forall j | 2 <= j <= k && ExactFor(layout, start, j).Some?
      ensures best.Present() && !Beats(ExactFor(layout, start, j).value, best)
    {
      if j < k {
        BestOf(ExactFor(layout, start, j).value, previous, here);
      }
    }
  }

  lemma BestOf(other: BlockCandidate, previous: BlockCandidate, here: Option<BlockCandidate>)
    requires previous.Present() && !Beats(other, previous) && (here.Some? ==> here.value.Present())
    ensures var best := if here.Some? then Preferred(previous, here.value) else previous;
      best.Present() && !Beats(other, best)
  {
    if here.Some? {
      BeatsOrder(other, previous, here.value);
    }
  }

  /** What does not beat `current` does not beat its replacement either. */
  lemma BeatsOrder(other: BlockCandidate, current: BlockCandidate, candidate: BlockCandidate)
    requires current.Present() && candidate.Present() && !Beats(other, current)
    ensures !Beats(other, Preferred(current, candidate))
  {
  }

  /** Block sizes, repetitions and savings leave no two distinct maxima. */
  lemma BestUnique(layout: LineLayout, start: nat, k: nat, a: BlockCandidate, b: BlockCandidate)
    requires layout.Valid() && start <= layout.completeLines && k <= MaxBlock(layout, start)
    requires IsBest(layout, start, k, a) && IsBest(layout, start, k, b)
    ensures a == b
  {
    if a.Present() {
      assert ExactFor(layout, start, a.blockLines).Some?;
    }
    if b.Present() {
      assert ExactFor(layout, start, b.blockLines).Some?;
    }
  }

  /** The inner loop of `best_exact_candidate`: compare block after block with the first. */
  method CountRepetitions(layout: LineLayout, start: nat, k: nat) returns (r: nat)
    requires layout.Valid() && k >= 1 && start + k <= layout.completeLines
    ensures r == ExactCount(layout, start, k)
  {
    r := 1;
    var more := NextBlockMatches(layout, start, k, 1);
    while more
      invariant CountReaches(layout, start, k, r) && (more <==> BlockMatches(layout, start, k, r))
      decreases layout.completeLines - r
    {
      CountGoesOn(layout, start, k, r);
      r := r + 1;
      more := NextBlockMatches(layout, start, k, r);
    }
  }

  /** The loop condition: one more block fits, and it equals the first. */
  method NextBlockMatches(layout: LineLayout, start: nat, k: nat, r: nat) returns (more: bool)
    requires layout.Valid() && k >= 1 && start + k <= layout.completeLines
    ensures more <==> BlockMatches(layout, start, k, r)
  {
    assert r * k == k * r && (r + 1) * k == k * r + k;
    more := start + (r + 1) * k <= layout.completeLines
      && layout.Span(start, k) == layout.Span(start + r * k, k);
  }

  /** The first `r` blocks are counted, and the count goes on from there. */
  ghost predicate CountReaches(layout: LineLayout, start: nat, k: nat, r: nat)
    requires layout.Valid() && k >= 1 && start + k <= layout.completeLines
  {
    && 1 <= r <= layout.completeLines && start + k * r <= layout.completeLines
    && ExactCount(layout, start, k) == CountFrom(layout, start, k, r)
  }

  lemma CountGoesOn(layout: LineLayout, start: nat, k: nat, r: nat)
    requires layout.Valid() && k >= 1 && start + k <= layout.completeLines
    requires CountReaches(layout, start, k, r) && BlockMatches(layout, start, k, r)
    ensures CountReaches(layout, start, k, r + 1)
  {
    MoreRepeats(layout, start, k, r);
    NoFewer(k, r + 1);
  }

  lemma NoFewer(k: nat, r: nat)
    requires k >= 1
    ensures k * r >= r
  {
  }

  /** `best_exact_candidate`: the quadratic search over bytes. */
  method BestExactCandidate(layout: LineLayout, start: nat) returns (best: BlockCandidate)
    requires layout.Valid() && start <= layout.completeLines
    ensures best == ExactBest(layout, start)
  {
    var maxBlock := MaxBlock(layout, start);
    best := NONE;
    var k := 2;
    while k <= maxBlock
      invariant k == 2 || 2 <= k <= maxBlock + 1
      invariant best == BestUpTo(layout, start, if k - 1 <= maxBlock then k - 1 else maxBlock)
    {
      var r := CountRepetitions(layout, start, k);
      var c := BlockCandidateOf(layout, start, k, r);
      if c.Some? {
        best := Preferred(best, c.value);
      }
      k := k + 1;
    }
  }

  method BlockCandidateOf(layout: LineLayout, start: nat, k: nat, repetitions: nat) returns (r: Option<BlockCandidate>)
    requires layout.Valid() && k >= 1
    ensures r == Candidate(layout, start, k, repetitions)
  {
    if repetitions < 2 {
      return None;
    }
    var consumed := k * repetitions;
    if start + consumed > layout.completeLines {
      return None;
    }
    BlockFits(start, k, repetitions, layout.completeLines);
    var omitted := layout.SpanLen(start + k, consumed - k);
    var marker := BlockMarkerLen(repetitions, k);
    if marker >= omitted || k >= 0x1_0000 || repetitions >= U32_LIMIT {
      return None;
    }
    r := Some(BlockCandidate(k, repetitions, omitted - marker));
  }

  /** The first `completeLines` lines are terminated. */
  lemma CompletePrefix(layout: LineLayout, i: nat, j: nat)
    requires layout.Valid() && i <= j <= layout.completeLines
    ensures AllComplete(Split(layout.text)[i..j])
  {
    var lines := Split(layout.text);
    forall p | 0 <= p < j - i ensures Complete(lines[i..j][p]) {
      CompleteAt(lines, layout.completeLines, i + p);
    }
  }

  /** Blocks equal as bytes are equal line by line. */
  lemma MatchIsSameLines(layout: LineLayout, start: nat, k: nat, j: nat, at: nat)
    requires layout.Valid() && k >= 1 && BlockMatches(layout, start, k, j) && at == start + k * j
    ensures Split(layout.text)[start..start + k] == Split(layout.text)[at..at + k]
  {
    SpansAreLines(layout, start, at, k);
  }

  lemma SpansAreLines(layout: LineLayout, a: nat, b: nat, k: nat)
    requires layout.Valid() && k >= 1 && a + k <= layout.completeLines && b + k <= layout.completeLines
    ensures layout.Span(a, k) == layout.Span(b, k) <==> Split(layout.text)[a..a + k] == Split(layout.text)[b..b + k]
  {
    CompletePrefix(layout, a, a + k);
    CompletePrefix(layout, b, b + k);
    ConcatInjective(Split(layout.text)[a..a + k], Split(layout.text)[b..b + k]);
  }

  lemma MulLe(k: nat, a: nat, b: nat)
    ensures a <= b ==> k * a <= k * b
  {
  }

  /** `x` splits into whole blocks and an offset; shifted by a block it stays within `r` blocks. */
  lemma BlockOffset(x: nat, k: nat, r: nat)
    requires k >= 1 && x + k < k * r
    ensures x == k * (x / k) + x % k && x / k + 1 < r
    ensures k * (x / k + 1) == k * (x / k) + k
  {
    var q := x / k;
    assert x == k * q + x % k;
    assert k * (q + 1) == k * q + k;
    MulLe(k, r, q + 1);
  }

  /** Blocks 0 and `j` of the `k` lines from `start` are the same lines. */
  ghost predicate BlockAt(lines: seq<Text>, start: nat, k: nat, j: nat) {
    && start + k <= |lines| && start + k * j + k <= |lines|
    && lines[start..start + k] == lines[start + k * j..start + k * j + k]
  }

  /** In repeated blocks, every line equals the one a block later. */
  lemma LineShift(lines: seq<Text>, start: nat, k: nat, r: nat, x: nat)
    requires k >= 1 && start + k * r <= |lines| && x + k < k * r
    requires forall j :: 1 <= j < r ==> BlockAt(lines, start, k, j)
    ensures lines[start + x] == lines[start + k + x]
  {
    var q, o := x / k, x % k;
    BlockOffset(x, k, r);
    if q == 0 {
      assert k * q == 0;
    }
    LineShiftAt(lines, start, k, q, o, x - o);
  }

  lemma LineShiftAt(lines: seq<Text>, start: nat, k: nat, q: nat, o: nat, base: nat)
    requires o < k && base == k * q && k * (q + 1) == base + k
    requires BlockAt(lines, start, k, q + 1) && (if q == 0 then base == 0 else BlockAt(lines, start, k, q))
    ensures start + k + base + o < |lines| && lines[start + base + o] == lines[start + k + base + o]
  {
    LineInBlock(lines, start, k, q + 1, o, start + k + base);
    if q > 0 {
      LineInBlock(lines, start, k, q, o, start + base);
    }
  }

  lemma LineInBlock(lines: seq<Text>, start: nat, k: nat, j: nat, o: nat, at: nat)
    requires BlockAt(lines, start, k, j) && o < k && at == start + k * j
    ensures lines[start + o] == lines[at + o]
  {
    assert lines[start..start + k][o] == lines[at..at + k][o];
  }

  /** The text agrees with itself shifted by `k` lines, for `m` lines from `start`. */
  ghost predicate Periodic(layout: LineLayout, start: nat, k: nat, m: nat) {
    SameLines(layout, start, start + k, m)
  }

  /** Repetition makes the text agree with itself shifted by one block. */
  lemma RepeatShift(layout: LineLayout, start: nat, k: nat, r: nat, m: nat)
    requires layout.Valid() && k >= 1 && Repeats(layout, start, k, r) && m + k <= k * r
    ensures Periodic(layout, start, k, m)
  {
    var lines := Split(layout.text);
    forall j | 1 <= j < r ensures BlockAt(lines, start, k, j) {
      MatchIsBlock(layout, start, k, j);
    }
    ShiftedSlices(lines, start, k, r, m);
  }

  lemma MatchIsBlock(layout: LineLayout, start: nat, k: nat, j: nat)
    requires layout.Valid() && k >= 1 && BlockMatches(layout, start, k, j)
    ensures BlockAt(Split(layout.text), start, k, j)
  {
    MulLe(k, 0, j);
    assert k * 0 == 0;
    MatchIsSameLines(layout, start, k, j, start + k * j);
  }

  lemma ShiftedSlices(lines: seq<Text>, start: nat, k: nat, r: nat, m: nat)
    requires k >= 1 && start + k * r <= |lines| && m + k <= k * r
    requires forall j :: 1 <= j < r ==> BlockAt(lines, start, k, j)
    ensures lines[start..start + m] == lines[start + k..start + k + m]
  {
    var a, b := lines[start..start + m], lines[start + k..start + k + m];
    forall x | 0 <= x < m ensures a[x] == b[x] {
      LineShift(lines, start, k, r, x);
    }
  }

  lemma {:induction false} ConcatLength(lines: seq<Text>)
    requires forall i :: 0 <= i < |lines| ==> lines[i] != []
    ensures |Concat(lines)| >= |lines|
  {
    if lines != [] {
      ConcatLength(lines[1..]);
    }
  }

  /** Every further line makes a span at least one byte longer. */
  lemma SpanGrows(layout: LineLayout, a: nat, n: nat, m: nat)
    requires layout.Valid() && 1 <= n <= m && a + m <= layout.completeLines
    ensures layout.SpanLen(a, m) >= layout.SpanLen(a, n) + (m - n)
  {
    CompletePrefix(layout, a + n, a + m);
    SliceGrows(Split(layout.text), a, a + n, a + m);
  }

  lemma SliceGrows(lines: seq<Text>, a: nat, b: nat, c: nat)
    requires a <= b <= c <= |lines| && AllComplete(lines[b..c])
    ensures |Concat(lines[a..c])| >= |Concat(lines[a..b])| + (c - b)
  {
    ConcatLength(lines[b..c]);
    assert lines[a..c] == lines[a..b] + lines[b..c];
    ConcatAppend(lines[a..b], lines[b..c]);
  }

  /** What `Candidate` computes when the block fits. */
  lemma CandidateValue(layout: LineLayout, start: nat, k: nat, r: nat)
    requires layout.Valid() && 1 <= k < 0x1_0000 && 2 <= r < U32_LIMIT && start + k * r <= layout.completeLines
    ensures k * r - k >= 1 && start + k * r <= |layout.ends|
    ensures var omitted, marker := layout.SpanLen(start + k, k * r - k), |BlockMarker(r, k)|;
      Candidate(layout, start, k, r)
        == if marker >= omitted then None else Some(BlockCandidate(k, r, omitted - marker))
  {
    BlockFits(start, k, r, layout.completeLines);
  }

  /**
   A candidate exists exactly when writing the block once with its marker is
   shorter than the lines it stands for, both counts within their widths; its
   savings are the bytes saved.
   */
  lemma CandidateSaves(layout: LineLayout, start: nat, k: nat, r: nat, end: nat)
    requires layout.Valid() && 1 <= k && 2 <= r && end == start + k * r <= layout.completeLines
    ensures start + k <= end <= |Split(layout.text)|
    ensures var before, after := |Concat(Split(layout.text)[start..end])|, |layout.Span(start, k) + BlockMarker(r, k)|;
      && (Candidate(layout, start, k, r).Some? <==> after < before && k < 0x1_0000 && r < U32_LIMIT)
      && (Candidate(layout, start, k, r).Some? ==> Candidate(layout, start, k, r).value.savings == before - after)
  {
    BlockFits(start, k, r, layout.completeLines);
    TwoParts(Split(layout.text), start, start + k, end);
    OmittedIs(layout, start, k, r, end);
  }

  lemma OmittedIs(layout: LineLayout, start: nat, k: nat, r: nat, end: nat)
    requires layout.Valid() && 1 <= k && 2 <= r && end == start + k * r <= layout.completeLines
    ensures start + k < end
    ensures var omitted, marker := |Concat(Split(layout.text)[start + k..end])|, |BlockMarker(r, k)|;
      Candidate(layout, start, k, r) == if marker >= omitted || k >= 0x1_0000 || r >= U32_LIMIT then None
        else Some(BlockCandidate(k, r, omitted - marker))
  {
    BlockFits(start, k, r, layout.completeLines);
    assert start + k + (k * r - k) == end;
  }

  lemma TwoParts(lines: seq<Text>, a: nat, b: nat, c: nat)
    requires a <= b <= c <= |lines|
    ensures |Concat(lines[a..c])| == |Concat(lines[a..b])| + |Concat(lines[b..c])|
  {
    assert lines[a..c] == lines[a..b] + lines[b..c];
    ConcatAppend(lines[a..b], lines[b..c]);
  }

  lemma BlockGrowth(k: nat, r: nat, more: nat)
    requires k >= 2 && 2 <= r < more
    ensures 1 <= k * r - k && (k * r - k) + 2 * (more - r) <= k * more - k
  {
    assert k * more == k * r + k * (more - r);
    assert k * (more - r) >= 2 * (more - r);
    assert k * r >= k * 2;
  }

  /** More repetitions of the same block always save strictly more. */
  lemma SavingsGrow(layout: LineLayout, start: nat, k: nat, r: nat, more: nat)
    requires layout.Valid() && k >= 2 && r < more < U32_LIMIT && start + k * more <= layout.completeLines
    requires Candidate(layout, start, k, r).Some?
    ensures Candidate(layout, start, k, more).Some?
    ensures Candidate(layout, start, k, more).value.savings > Candidate(layout, start, k, r).value.savings
  {
    BlockGrowth(k, r, more);
    CandidateValue(layout, start, k, r);
    CandidateValue(layout, start, k, more);
    SpanGrows(layout, start + k, k * r - k, k * more - k);
    DecimalGrowth(r, more);
  }

  /** `hashed_longest_common_prefix`: binary search on range hashes. */
  method HashedLongestCommonPrefix(layout: LineLayout, oracle: HashOracle, start: nat, k: nat) returns (lcp: nat)
    requires Sound(oracle, layout) && k >= 1 && start + 2 * k <= layout.completeLines
    requires oracle(start, start + k, k)
    ensures k <= lcp <= layout.completeLines - start - k
    ensures oracle(start, start + k, lcp)
    ensures lcp == layout.completeLines - start - k || !oracle(start, start + k, lcp + 1)
    ensures PeriodsEnd(layout, start, k, lcp)
  {
    var limit := layout.completeLines - start - k;
    var low, high := k, limit;
    while low < high
      invariant k <= low <= high <= limit
      invariant oracle(start, start + k, low)
      invariant high == limit || !oracle(start, start + k, high + 1)
      invariant PeriodsEnd(layout, start, k, high)
    {
      var middle := low + (high - low + 1) / 2;
      if oracle(start, start + k, middle) {
        low := middle;
      } else {
        PeriodsEndBefore(layout, oracle, start, k, middle);
        high := middle - 1;
      }
    }
    lcp := low;
  }

  ghost predicate PeriodsEnd(layout: LineLayout, start: nat, k: nat, most: nat) {
    forall m: nat :: Periodic(layout, start, k, m) ==> m <= most
  }

  lemma PeriodsEndBefore(layout: LineLayout, oracle: HashOracle, start: nat, k: nat, middle: nat)
    requires Sound(oracle, layout) && middle >= 1 && start + k + middle <= layout.completeLines
    requires !oracle(start, start + k, middle)
    ensures PeriodsEnd(layout, start, k, middle - 1)
  {
    forall m: nat | Periodic(layout, start, k, m) ensures m <= middle - 1 {
      if m >= middle {
        SamePrefix(layout, start, start + k, m, middle);
      }
    }
  }

  lemma SamePrefix(layout: LineLayout, left: nat, right: nat, m: nat, n: nat)
    requires SameLines(layout, left, right, m) && n <= m
    ensures SameLines(layout, left, right, n)
  {
    var lines := Split(layout.text);
    assert lines[left..left + n] == lines[left..left + m][..n];
    assert lines[right..right + n] == lines[right..right + m][..n];
  }

  /** `c` comes from some block size, counted at least as often as it really repeats. */
  ghost predicate Overcount(layout: LineLayout, start: nat, c: BlockCandidate)
    requires layout.Valid() && start <= layout.completeLines
  {
    && 2 <= c.blockLines <= MaxBlock(layout, start)
    && Candidate(layout, start, c.blockLines, c.repetitions) == Some(c)
    && ExactCount(layout, start, c.blockLines) <= c.repetitions
  }

  /** `c` is at least as good as every exact candidate of size 2 to `k`. */
  ghost predicate Covers(layout: LineLayout, start: nat, k: nat, c: BlockCandidate)
    requires layout.Valid() && start <= layout.completeLines && k <= MaxBlock(layout, start)
  {
    forall j :: 2 <= j <= k && ExactFor(layout, start, j).Some? ==>
      c.Present() && !Beats(ExactFor(layout, start, j).value, c)
  }

  /** An overcounted candidate is at least as good as the exact one of its size. */
  lemma OvercountCovers(layout: LineLayout, start: nat, k: nat, r: nat)
    requires layout.Valid() && start <= layout.completeLines && 2 <= k <= MaxBlock(layout, start)
    requires r < U32_LIMIT && start + k * r <= layout.completeLines && ExactCount(layout, start, k) <= r
    requires ExactFor(layout, start, k).Some?
    ensures Candidate(layout, start, k, r).Some?
    ensures !Beats(ExactFor(layout, start, k).value, Candidate(layout, start, k, r).value)
  {
    if ExactCount(layout, start, k) < r {
      SavingsGrow(layout, start, k, ExactCount(layout, start, k), r);
    }
  }

  /** `1 + lcp / k` counts at least the real repetitions and stays inside the text. */
  lemma HashedCount(layout: LineLayout, start: nat, k: nat, lcp: nat)
    requires layout.Valid() && k >= 2 && start + k <= layout.completeLines
    requires k <= lcp <= layout.completeLines - start - k
    requires forall m: nat :: Periodic(layout, start, k, m) ==> m <= lcp
    ensures ExactCount(layout, start, k) <= 1 + lcp / k
    ensures start + k * (1 + lcp / k) <= layout.completeLines
    ensures 2 * (1 + lcp / k) <= layout.completeLines
  {
    ShiftBound(layout, start, k, ExactCount(layout, start, k), lcp);
    CountBound(k, ExactCount(layout, start, k), lcp);
  }

  lemma ShiftBound(layout: LineLayout, start: nat, k: nat, e: nat, lcp: nat)
    requires layout.Valid() && k >= 1 && e >= 1 && Repeats(layout, start, k, e)
    requires forall m: nat :: Periodic(layout, start, k, m) ==> m <= lcp
    ensures k * e <= lcp + k
  {
    MulLe(k, 1, e);
    RepeatShift(layout, start, k, e, k * e - k);
  }

  lemma CountBound(k: nat, e: nat, lcp: nat)
    requires k >= 2 && k * e <= lcp + k
    ensures e <= 1 + lcp / k && k * (1 + lcp / k) <= k + lcp && 2 * (1 + lcp / k) <= k + lcp
  {
    var q := lcp / k;
    assert lcp == k * q + lcp % k;
    MulLe(k, q + 2, e);
    assert k * (1 + q) == k + k * q && k * (q + 2) == k + k + k * q;
    MulLe(1 + q, 2, k);
    assert (1 + q) * k == k + k * q;
  }

  /** Repetition counts of this text fit 32 bits. */
  predicate Countable(layout: LineLayout) {
    layout.completeLines < 2 * U32_LIMIT
  }

  /** What hashes may propose at `start`: possibly wrong, and never worse than the exact answer if counts fit. */
  ghost predicate Proposal(layout: LineLayout, start: nat, c: BlockCandidate)
    requires layout.Valid() && start <= layout.completeLines
  {
    && (c == NONE || Overcount(layout, start, c))
    && (Countable(layout) ==> Covers(layout, start, MaxBlock(layout, start), c))
  }

  ghost predicate AlwaysEqual(oracle: HashOracle, left: nat, right: nat) {
    forall m: nat :: oracle(left, right, m)
  }

  /** Block size `k` is not proposed: its hashes differ, or they always agree and the count does not fit. */
  ghost predicate Overlooked(layout: LineLayout, oracle: HashOracle, start: nat, k: nat)
    requires 1 <= k && start + k <= layout.completeLines
  {
    || !oracle(start, start + k, k)
    || (AlwaysEqual(oracle, start, start + k) && 1 + (layout.completeLines - start - k) / k >= U32_LIMIT)
  }

  /** `best_hashed_candidate`: the proposal made from hashes alone. */
  method BestHashedCandidate(layout: LineLayout, oracle: HashOracle, start: nat) returns (best: BlockCandidate)
    requires layout.Valid() && Sound(oracle, layout) && start <= layout.completeLines
    ensures Proposal(layout, start, best)
    ensures (forall k :: 2 <= k <= MaxBlock(layout, start) ==> Overlooked(layout, oracle, start, k)) ==> best == NONE
  {
    var maxBlock := MaxBlock(layout, start);
    best := NONE;
    var k := 2;
    while k <= maxBlock
      invariant k == 2 || 2 <= k <= maxBlock + 1
      invariant best == NONE || Overcount(layout, start, best)
      invariant Countable(layout) ==> Covers(layout, start, if k - 1 <= maxBlock then k - 1 else maxBlock, best)
      invariant (forall j :: 2 <= j <= maxBlock ==> Overlooked(layout, oracle, start, j)) ==> best == NONE
    {
      best := Propose(layout, oracle, start, k, best);
      k := k + 1;
    }
  }

  /** One turn of its loop: block size `k`. */
  method Propose(layout: LineLayout, oracle: HashOracle, start: nat, k: nat, best: BlockCandidate)
    returns (next: BlockCandidate)
    requires layout.Valid() && Sound(oracle, layout) && start <= layout.completeLines
    requires 2 <= k <= MaxBlock(layout, start)
    requires best == NONE || Overcount(layout, start, best)
    requires Countable(layout) ==> Covers(layout, start, k - 1, best)
    ensures next == NONE || Overcount(layout, start, next)
    ensures Countable(layout) ==> Covers(layout, start, k, next)
    ensures Overlooked(layout, oracle, start, k) ==> next == best
  {
    if !oracle(start, start + k, k) {
      NoRepeat(layout, oracle, start, k);
      CoverNone(layout, start, k, best);
      return best;
    }
    var r := HashedRepetitions(layout, oracle, start, k);
    CoverStep(layout, start, k, best, r);
    OvercountNext(layout, start, k, best, r);
    var c := BlockCandidateOf(layout, start, k, r);
    next := if c.Some? then Preferred(best, c.value) else best;
  }

  /** `1 + lcp / k`: never fewer than the real repetitions. */
  method HashedRepetitions(layout: LineLayout, oracle: HashOracle, start: nat, k: nat) returns (r: nat)
    requires layout.Valid() && Sound(oracle, layout) && start <= layout.completeLines
    requires 2 <= k <= MaxBlock(layout, start) && oracle(start, start + k, k)
    ensures start + k * r <= layout.completeLines && ExactCount(layout, start, k) <= r
    ensures Countable(layout) ==> r < U32_LIMIT
    ensures Overlooked(layout, oracle, start, k) ==> r >= U32_LIMIT
  {
    var lcp := HashedLongestCommonPrefix(layout, oracle, start, k);
    HashedCount(layout, start, k, lcp);
    r := 1 + lcp / k;
  }

  lemma CoverNone(layout: LineLayout, start: nat, k: nat, best: BlockCandidate)
    requires layout.Valid() && start <= layout.completeLines && 2 <= k <= MaxBlock(layout, start)
    requires ExactFor(layout, start, k) == None
    ensures Covers(layout, start, k - 1, best) ==> Covers(layout, start, k, best)
  {
  }

  lemma OvercountNext(layout: LineLayout, start: nat, k: nat, best: BlockCandidate, r: nat)
    requires layout.Valid() && start <= layout.completeLines && 2 <= k <= MaxBlock(layout, start)
    requires best == NONE || Overcount(layout, start, best)
    requires ExactCount(layout, start, k) <= r
    ensures var c := Candidate(layout, start, k, r);
      var next := if c.Some? then Preferred(best, c.value) else best;
      next == NONE || Overcount(layout, start, next)
  {
  }

  lemma CoverStep(layout: LineLayout, start: nat, k: nat, best: BlockCandidate, r: nat)
    requires layout.Valid() && start <= layout.completeLines && 2 <= k <= MaxBlock(layout, start)
    requires Countable(layout) ==> Covers(layout, start, k - 1, best) && r < U32_LIMIT
    requires start + k * r <= layout.completeLines && ExactCount(layout, start, k) <= r
    ensures var c := Candidate(layout, start, k, r);
      Countable(layout) ==> Covers(layout, start, k, if c.Some? then Preferred(best, c.value) else best)
  {
    var c := Candidate(layout, start, k, r);
    var next := if c.Some? then Preferred(best, c.value) else best;
    forall j | Countable(layout) && 2 <= j <= k && ExactFor(layout, start, j).Some?
      ensures next.Present() && !Beats(ExactFor(layout, start, j).value, next)
    {
      var exact := ExactFor(layout, start, j).value;
      if j < k {
        if c.Some? {
          BeatsOrder(exact, best, c.value);
        }
      } else {
        OvercountCovers(layout, start, k, r);
        if best.Present() {
          BeatsOther(exact, best, c.value);
        }
      }
    }
  }

  lemma BeatsOther(other: BlockCandidate, current: BlockCandidate, candidate: BlockCandidate)
    requires current.Present() && candidate.Present() && !Beats(other, candidate)
    ensures !Beats(other, Preferred(current, candidate))
  {
  }

  /** A block whose hashes differ does not repeat, so it has no exact candidate. */
  lemma NoRepeat(layout: LineLayout, oracle: HashOracle, start: nat, k: nat)
    requires layout.Valid() && Sound(oracle, layout)
    requires start <= layout.completeLines && 2 <= k <= MaxBlock(layout, start)
    requires !oracle(start, start + k, k)
    ensures ExactFor(layout, start, k) == None
  {
    if BlockMatches(layout, start, k, 1) {
      MatchIsSameLines(layout, start, k, 1, start + k);
    }
  }

  lemma BlockInside(k: nat, j: nat, r: nat)
    requires 1 <= j < r
    ensures k * j + k <= k * r && k <= k * r && j * k == k * j
  {
    MulLe(k, j + 1, r);
    MulLe(k, 1, r);
    assert k * (j + 1) == k * j + k;
  }

  /** Whether block `j` holds the bytes of block 0. */
  method SameBlock(layout: LineLayout, start: nat, k: nat, j: nat) returns (same: bool)
    requires layout.Valid() && k >= 1 && start + k <= layout.completeLines && start + k * j + k <= layout.completeLines
    ensures same <==> BlockMatches(layout, start, k, j)
  {
    assert j * k == k * j && k * j >= 0;
    var first, other := layout.Span(start, k), layout.Span(start + j * k, k);
    same := first == other;
  }

  /** `candidate_is_exact`: every proposed repetition really equals the block. */
  method CandidateIsExact(layout: LineLayout, start: nat, c: BlockCandidate) returns (exact: bool)
    requires layout.Valid() && c.blockLines >= 1 && start + c.blockLines * c.repetitions <= layout.completeLines
    ensures exact <==> Repeats(layout, start, c.blockLines, c.repetitions)
  {
    var k := c.blockLines;
    var j := 1;
    while j < c.repetitions
      invariant 1 <= j && (j <= c.repetitions || c.repetitions == 0)
      invariant forall i :: 1 <= i < j ==> BlockMatches(layout, start, k, i)
    {
      BlockInside(k, j, c.repetitions);
      var same := SameBlock(layout, start, k, j);
      if !same {
        return false;
      }
      j := j + 1;
    }
    exact := true;
  }

  /** Really repeating `r` times bounds `r` by the exact count. */
  lemma CountMaximal(layout: LineLayout, start: nat, k: nat, r: nat)
    requires layout.Valid() && k >= 1 && start + k <= layout.completeLines && Repeats(layout, start, k, r)
    ensures r <= ExactCount(layout, start, k)
  {
    assert !BlockMatches(layout, start, k, ExactCount(layout, start, k));
  }

  /** Nothing, or blocks that really repeat and really save bytes. */
  ghost predicate Sure(layout: LineLayout, start: nat, c: BlockCandidate)
    requires layout.Valid() && start <= layout.completeLines
  {
    c == NONE ||
    (2 <= c.blockLines && Repeats(layout, start, c.blockLines, c.repetitions)
     && Candidate(layout, start, c.blockLines, c.repetitions) == Some(c))
  }

  /**
   `verified_candidate`: whatever is emitted has been checked byte by byte; and
   for a proposal no worse than the exact answer, checking it, and searching
   exactly only when the check fails, yields the exact search's answer.
   */
  method VerifiedCandidate(layout: LineLayout, start: nat, c: BlockCandidate) returns (r: BlockCandidate)
    requires layout.Valid() && start <= layout.completeLines && (c == NONE || Overcount(layout, start, c))
    ensures Sure(layout, start, r)
    ensures Covers(layout, start, MaxBlock(layout, start), c) ==> r == ExactBest(layout, start)
    ensures c == NONE ==> r == NONE
  {
    BestIsBest(layout, start, MaxBlock(layout, start));
    if c.Present() {
      var exact := CandidateIsExact(layout, start, c);
      if exact {
        ExactIsBest(layout, start, c);
        return c;
      }
      r := BestExactCandidate(layout, start);
    } else {
      NoneIsBest(layout, start);
      r := NONE;
    }
  }

  lemma ExactIsBest(layout: LineLayout, start: nat, c: BlockCandidate)
    requires layout.Valid() && start <= layout.completeLines && Overcount(layout, start, c)
    requires Repeats(layout, start, c.blockLines, c.repetitions)
    ensures Covers(layout, start, MaxBlock(layout, start), c) ==> c == ExactBest(layout, start)
  {
    if Covers(layout, start, MaxBlock(layout, start), c) {
      CountMaximal(layout, start, c.blockLines, c.repetitions);
      BestIsBest(layout, start, MaxBlock(layout, start));
      BestUnique(layout, start, MaxBlock(layout, start), c, ExactBest(layout, start));
    }
  }

  lemma NoneIsBest(layout: LineLayout, start: nat)
    requires layout.Valid() && start <= layout.completeLines
    ensures Covers(layout, start, MaxBlock(layout, start), NONE) ==> ExactBest(layout, start) == NONE
  {
    if Covers(layout, start, MaxBlock(layout, start), NONE) {
      BestIsBest(layout, start, MaxBlock(layout, start));
      BestUnique(layout, start, MaxBlock(layout, start), NONE, ExactBest(layout, start));
    }
  }
}
