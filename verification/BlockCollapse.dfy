/** `collapse_repeated_blocks`: the greedy projection and what it preserves. */
module BlockCollapse {
  import opened Bytes
  import opened Lines
  import opened BlockHash
  import opened BlockSearch
  import opened BlockMeaning
  import opened Wrappers

  /** `k * n`, by addition. */
  function Times(k: nat, n: nat): (r: nat) {
    if n == 0 then 0 else Times(k, n - 1) + k
  }

  lemma {:induction false} TimesIs(k: nat, n: nat)
    ensures Times(k, n) == k * n
  {
    if n > 0 {
      TimesIs(k, n - 1);
      assert k * n == k * (n - 1) + k;
    }
  }

  /** One emitted piece: a line as it stands, or a block kept once with its count. */
  datatype Segment = Literal(line: Text) | Repeated(block: Text, blockLines: nat, repetitions: nat) {
    /** The bytes written to the projection. */
    function Encoded(): (r: Text) {
      match this
      case Literal(line) => line
      case Repeated(block, k, n) => block + BlockMarker(n, k)
    }

    /** The bytes it stands for. */
    function Expanded(): (r: Text) {
      match this
      case Literal(line) => line
      case Repeated(block, _, n) => Repeat(block, n)
    }

    function SourceLines(): (r: nat) {
      match this
      case Literal(_) => 1
      case Repeated(_, k, n) => Times(k, n)
    }

    function KeptLines(): (r: nat) {
      match this
      case Literal(_) => 1
      case Repeated(_, k, _) => k
    }

    /** Repetitions beyond the first. */
    function Extra(): (r: int) {
      match this
      case Literal(_) => 0
      case Repeated(_, _, n) => n - 1
    }

    function OmittedLines(): (r: int) {
      match this
      case Literal(_) => 0
      case Repeated(_, k, n) => Times(k, n) - k
    }
  }

  function EncodedAll(segments: seq<Segment>): (r: Text) {
    if segments == [] then []
    else EncodedAll(segments[..|segments| - 1]) + segments[|segments| - 1].Encoded()
  }

  function ExpandedAll(segments: seq<Segment>): (r: Text) {
    if segments == [] then []
    else ExpandedAll(segments[..|segments| - 1]) + segments[|segments| - 1].Expanded()
  }

  function KeptLines(segments: seq<Segment>): (r: nat) {
    if segments == [] then 0
    else KeptLines(segments[..|segments| - 1]) + segments[|segments| - 1].KeptLines()
  }

  function CollapsedCount(segments: seq<Segment>): (r: nat) {
    if segments == [] then 0
    else CollapsedCount(segments[..|segments| - 1]) + if segments[|segments| - 1].Repeated? then 1 else 0
  }

  function ExtraRepetitions(segments: seq<Segment>): (r: int) {
    if segments == [] then 0
    else ExtraRepetitions(segments[..|segments| - 1]) + segments[|segments| - 1].Extra()
  }

  function OmittedLines(segments: seq<Segment>): (r: int) {
    if segments == [] then 0
    else OmittedLines(segments[..|segments| - 1]) + segments[|segments| - 1].OmittedLines()
  }

  datatype RepeatedBlockReduction = RepeatedBlockReduction(
    text: Text, collapsedBlocks: nat, omittedRepetitions: int, omittedLines: int)

  /** What a reduction made of these segments reports. */
  function Reported(segments: seq<Segment>): (r: RepeatedBlockReduction) {
    RepeatedBlockReduction(EncodedAll(segments), CollapsedCount(segments), ExtraRepetitions(segments),
      OmittedLines(segments))
  }

  lemma BestShape(layout: LineLayout, start: nat)
    requires layout.Valid() && start <= layout.completeLines
    ensures var c := ExactBest(layout, start); c.Present() ==>
      && 2 <= c.blockLines && 2 <= c.repetitions
      && start + c.blockLines * c.repetitions <= layout.completeLines
      && c.blockLines <= c.blockLines * c.repetitions
      && Repeats(layout, start, c.blockLines, c.repetitions)
      && Candidate(layout, start, c.blockLines, c.repetitions) == Some(c)
  {
    var c := ExactBest(layout, start);
    BestIsBest(layout, start, MaxBlock(layout, start));
    if c.Present() {
      MulLe(c.blockLines, 1, c.repetitions);
    }
  }

  /** The block of a candidate, or the line when there is no candidate. */
  function SegmentFor(layout: LineLayout, index: nat, c: BlockCandidate): (s: Segment)
    requires layout.Valid() && index < |layout.ends|
    requires c.Present() ==> index + c.blockLines <= |layout.ends|
  {
    if c.Present() then Repeated(layout.Span(index, c.blockLines), c.blockLines, c.repetitions)
    else Literal(layout.Line(index))
  }

  /** The segment at one line: the exact search's block if there is one, else the line. */
  function SegmentAt(layout: LineLayout, index: nat): (s: Segment)
    requires layout.Valid() && index < |layout.ends|
    ensures 1 <= s.SourceLines() && index + s.SourceLines() <= |layout.ends|
  {
    if index >= layout.completeLines then SegmentFor(layout, index, NONE)
    else
      BestShape(layout, index);
      TimesIs(ExactBest(layout, index).blockLines, ExactBest(layout, index).repetitions);
      SegmentFor(layout, index, ExactBest(layout, index))
  }

  /** Chooses the segment that starts at a line. */
  type Chooser = nat -> Segment

  /** Every choice takes at least one line and stays within `total`. */
  ghost predicate Advances(total: nat, choose: Chooser) {
    forall i: nat :: i < total ==> 1 <= choose(i).SourceLines() <= total - i
  }

  /** The one-line-at-a-time scan from `index`. */
  ghost function Scan(total: nat, choose: Chooser, index: nat): (r: seq<Segment>)
    requires index <= total && Advances(total, choose)
    decreases total - index
  {
    if index == total then []
    else [choose(index)] + Scan(total, choose, index + choose(index).SourceLines())
  }

  /** The exact search as a chooser. */
  ghost function ExactChoice(layout: LineLayout): (r: Chooser)
    requires layout.Valid()
    ensures forall i: nat :: i < |layout.ends| ==> r(i) == SegmentAt(layout, i)
    ensures Advances(|layout.ends|, r)
  {
    (i: nat) => if i < |layout.ends| then SegmentAt(layout, i) else Literal([])
  }

  /** The greedy scan of a whole text with the exact candidate. */
  ghost function Greedy(layout: LineLayout): (r: seq<Segment>)
    requires layout.Valid()
  {
    Scan(|layout.ends|, ExactChoice(layout), 0)
  }

  /** The lines from `start` to `end` are `r` times `k` lines with the bytes of `block`. */
  ghost predicate Tiles(lines: seq<Text>, block: Text, start: nat, k: nat, r: nat, end: nat)
    decreases r
  {
    && r >= 1 && start + k <= end <= |lines|
    && Concat(lines[end - k..end]) == block
    && if r == 1 then end == start + k else Tiles(lines, block, start, k, r - 1, end - k)
  }

  lemma {:induction false} TilesBytes(lines: seq<Text>, block: Text, start: nat, k: nat, r: nat, end: nat)
    requires Tiles(lines, block, start, k, r, end)
    ensures Concat(lines[start..end]) == Repeat(block, r)
    decreases r
  {
    if r == 1 {
      OneBlock(block);
    } else {
      TilesBytes(lines, block, start, k, r - 1, end - k);
      OneMoreBlock(lines, block, start, end - k, k, r - 1);
    }
  }

  /** The line where block `j` after `start` begins. */
  function At(start: nat, k: nat, j: nat): (r: nat) {
    if j == 0 then start else At(start, k, j - 1) + k
  }

  lemma {:induction false} AtIs(start: nat, k: nat, j: nat)
    ensures At(start, k, j) == start + k * j
  {
    if j > 0 {
      AtIs(start, k, j - 1);
      assert k * j == k * (j - 1) + k;
    }
  }

  /** Block `j` lies within the lines and has the bytes of `block`. */
  ghost predicate HoldsBlock(lines: seq<Text>, block: Text, start: nat, k: nat, j: nat) {
    At(start, k, j) + k <= |lines| && Concat(lines[At(start, k, j)..At(start, k, j) + k]) == block
  }

  lemma {:induction false} BlocksTile(lines: seq<Text>, block: Text, start: nat, k: nat, r: nat)
    requires r >= 1 && forall j: nat :: j < r ==> HoldsBlock(lines, block, start, k, j)
    ensures Tiles(lines, block, start, k, r, At(start, k, r))
  {
    assert HoldsBlock(lines, block, start, k, r - 1);
    if r > 1 {
      BlocksTile(lines, block, start, k, r - 1);
    }
  }

  lemma RepeatHolds(layout: LineLayout, start: nat, k: nat, r: nat, j: nat)
    requires layout.Valid() && k >= 1 && j < r && Repeats(layout, start, k, r) && start + k <= layout.completeLines
    ensures HoldsBlock(Split(layout.text), layout.Span(start, k), start, k, j)
  {
    AtIs(start, k, j);
    if j > 0 {
      assert BlockMatches(layout, start, k, j);
    }
  }

  /** Whole repeated blocks, as lines, are the block's bytes over and over. */
  lemma RepeatedBytes(layout: LineLayout, start: nat, k: nat, r: nat, end: nat)
    requires layout.Valid() && k >= 1 && r >= 1 && Repeats(layout, start, k, r)
    requires start + k <= layout.completeLines && end == start + k * r
    ensures start <= end && Concat(Split(layout.text)[start..end]) == Repeat(layout.Span(start, k), r)
  {
    var lines, block := Split(layout.text), layout.Span(start, k);
    forall j: nat | j < r ensures HoldsBlock(lines, block, start, k, j) {
      RepeatHolds(layout, start, k, r, j);
    }
    BlocksTile(lines, block, start, k, r);
    AtIs(start, k, r);
    TilesBytes(lines, block, start, k, r, end);
  }

  lemma OneBlock(block: Text)
    ensures Repeat(block, 1) == block
  {
    assert Repeat(block, 0) == [];
  }

  lemma OneMoreBlock(lines: seq<Text>, block: Text, start: nat, middle: nat, k: nat, r: nat)
    requires start <= middle && middle + k <= |lines|
    requires Concat(lines[start..middle]) == Repeat(block, r) && Concat(lines[middle..middle + k]) == block
    ensures Concat(lines[start..middle + k]) == Repeat(block, r + 1)
  {
    assert lines[start..middle + k] == lines[start..middle] + lines[middle..middle + k];
    ConcatAppend(lines[start..middle], lines[middle..middle + k]);
    RepeatAppend(block, r, 1);
    OneBlock(block);
  }

  /** A segment stands for exactly its source lines, in fewer bytes if it is a block, and shows lines as they are. */
  ghost predicate Faithful(lines: seq<Text>, index: nat, s: Segment) {
    && 1 <= s.SourceLines() && index + s.SourceLines() <= |lines|
    && s.Expanded() == Concat(lines[index..index + s.SourceLines()])
    && |s.Encoded()| + (if s.Repeated? then 1 else 0) <= |s.Expanded()|
    && match s
       case Literal(line) => line == lines[index]
       case Repeated(block, k, _) => index + k <= |lines| && block == Concat(lines[index..index + k])
  }

  lemma RepeatedFaithful(layout: LineLayout, index: nat, k: nat, r: nat)
    requires layout.Valid() && 2 <= k && index + k <= layout.completeLines
    requires Repeats(layout, index, k, r) && Candidate(layout, index, k, r).Some?
    ensures Faithful(Split(layout.text), index, Repeated(layout.Span(index, k), k, r))
  {
    TimesIs(k, r);
    var end := index + Times(k, r);
    RepeatedBytes(layout, index, k, r, end);
    RepeatedShorter(layout, index, k, r, end);
    BlockFaithful(Split(layout.text), index, layout.Span(index, k), k, r);
  }

  lemma BlockFaithful(lines: seq<Text>, index: nat, block: Text, k: nat, r: nat)
    requires 1 <= Times(k, r) && index + Times(k, r) <= |lines|
    requires index + k <= |lines| && block == Concat(lines[index..index + k])
    requires Concat(lines[index..index + Times(k, r)]) == Repeat(block, r)
    requires |block| + |BlockMarker(r, k)| < |Concat(lines[index..index + Times(k, r)])|
    ensures Faithful(lines, index, Repeated(block, k, r))
  {
  }

  lemma RepeatedShorter(layout: LineLayout, index: nat, k: nat, r: nat, end: nat)
    requires layout.Valid() && 2 <= k && index + k <= layout.completeLines && Candidate(layout, index, k, r).Some?
    requires end == index + k * r
    ensures index + k <= end <= layout.completeLines
    ensures |layout.Span(index, k)| + |BlockMarker(r, k)| < |Concat(Split(layout.text)[index..end])|
  {
    CandidateSaves(layout, index, k, r, end);
  }

  /** Whatever candidate is sure, its segment is faithful. */
  lemma SureFaithful(layout: LineLayout, index: nat, c: BlockCandidate)
    requires layout.Valid() && index < |layout.ends|
    requires c == NONE || (index < layout.completeLines && Sure(layout, index, c))
    ensures c.Present() ==> index + c.blockLines <= |layout.ends|
    ensures Faithful(Split(layout.text), index, SegmentFor(layout, index, c))
  {
    if c.Present() {
      SureFits(layout, index, c);
      RepeatedFaithful(layout, index, c.blockLines, c.repetitions);
    } else {
      LiteralFaithful(Split(layout.text), index);
    }
  }

  lemma SureFits(layout: LineLayout, index: nat, c: BlockCandidate)
    requires layout.Valid() && index < layout.completeLines && c.Present() && Sure(layout, index, c)
    ensures index + c.blockLines <= layout.completeLines
  {
    MulLe(c.blockLines, 1, c.repetitions);
  }

  lemma LiteralFaithful(lines: seq<Text>, index: nat)
    requires index < |lines|
    ensures Faithful(lines, index, Literal(lines[index]))
  {
    assert lines[index..index + 1] == [lines[index]];
    ConcatOne(lines[index]);
  }

  /** The segments follow each other from line 0 up to `index`, each fitting its place. */
  ghost predicate Chain(fits: (nat, Segment) -> bool, segments: seq<Segment>, index: nat)
    decreases |segments|
  {
    if segments == [] then index == 0
    else
      var last := segments[|segments| - 1];
      && last.SourceLines() <= index
      && fits(index - last.SourceLines(), last)
      && Chain(fits, segments[..|segments| - 1], index - last.SourceLines())
  }

  /** The segments walk the lines from the first up to `index`, each standing for the lines at its place. */
  ghost predicate Walk(lines: seq<Text>, segments: seq<Segment>, index: nat) {
    Chain(FaithfulIn(lines), segments, index)
  }

  ghost function FaithfulIn(lines: seq<Text>): (r: (nat, Segment) -> bool)
    ensures forall index: nat, s: Segment :: r(index, s) <==> Faithful(lines, index, s)
  {
    (index: nat, s: Segment) => Faithful(lines, index, s)
  }

  lemma ChainSnoc(
    fits: (nat, Segment) -> bool, segments: seq<Segment>, more: seq<Segment>, index: nat, after: nat, s: Segment)
    requires Chain(fits, segments, index) && fits(index, s)
    requires more == segments + [s] && after == index + s.SourceLines()
    ensures Chain(fits, more, after)
  {
    assert more[|more| - 1] == s && more[..|more| - 1] == segments;
  }

  lemma WalkSnoc(lines: seq<Text>, segments: seq<Segment>, index: nat, s: Segment)
      returns (more: seq<Segment>, after: nat)
    requires Walk(lines, segments, index) && Faithful(lines, index, s)
    ensures more == segments + [s] && index < after == index + s.SourceLines() <= |lines|
    ensures Walk(lines, more, after)
  {
    more, after := segments + [s], index + s.SourceLines();
    ChainSnoc(FaithfulIn(lines), segments, more, index, after, s);
  }

  /**
   `s` is the right choice at `index`: a line only where no block of 2 to 32 lines
   repeats with profit, and otherwise the block that saves most.
   */
  ghost predicate RightlyChosen(lines: seq<Text>, index: nat, s: Segment) {
    match s
    case Literal(_) => NoneHere(lines, index)
    case Repeated(_, k, n) => Best(lines, index, k, n, index + s.SourceLines())
  }

  ghost function RightIn(lines: seq<Text>): (r: (nat, Segment) -> bool)
    ensures forall index: nat, s: Segment :: r(index, s) <==> RightlyChosen(lines, index, s)
  {
    (index: nat, s: Segment) => RightlyChosen(lines, index, s)
  }

  /** Every segment is the right choice at its place. */
  ghost predicate Greedily(lines: seq<Text>, segments: seq<Segment>, index: nat) {
    Chain(RightIn(lines), segments, index)
  }

  /** The exact search chooses rightly at every line. */
  lemma ExactChoosesRightly(layout: LineLayout, index: nat)
    requires layout.Valid() && Countable(layout) && index < |layout.ends|
    ensures RightlyChosen(Split(layout.text), index, SegmentAt(layout, index))
  {
    if index >= layout.completeLines {
      TailNone(layout, index);
    } else {
      ChoiceIs(layout, index, ExactBest(layout, index));
      BestIsRight(layout, index, ExactBest(layout, index));
    }
  }

  lemma RepeatedRight(lines: seq<Text>, index: nat, s: Segment, end: nat)
    requires s.Repeated? && Best(lines, index, s.blockLines, s.repetitions, end) && end == index + s.SourceLines()
    ensures RightlyChosen(lines, index, s)
  {
  }

  lemma BestIsRight(layout: LineLayout, index: nat, c: BlockCandidate)
    requires layout.Valid() && Countable(layout) && index < layout.completeLines && c == ExactBest(layout, index)
    requires c.Present() ==> index + c.blockLines <= |layout.ends|
    ensures RightlyChosen(Split(layout.text), index, SegmentFor(layout, index, c))
  {
    if c.Present() {
      TimesIs(c.blockLines, c.repetitions);
      var end := index + Times(c.blockLines, c.repetitions);
      ExactIsTheBest(layout, index, end);
      RepeatedRight(Split(layout.text), index, SegmentFor(layout, index, c), end);
    } else {
      ExactNone(layout, index);
    }
  }

  lemma ShortRightly(layout: LineLayout)
    requires layout.Valid() && layout.completeLines < 4
    ensures Greedily(Split(layout.text), Literals(Split(layout.text)), |Split(layout.text)|)
  {
    var lines := Split(layout.text);
    forall i: nat | i < |lines| ensures RightIn(lines)(i, Literal(lines[i])) {
      ShortNone(layout, i);
    }
    LiteralsChain(RightIn(lines), lines, |lines|);
    assert lines[..|lines|] == lines;
  }

  /** A walk expands to its lines and saves a byte per block; omitted and kept lines add up to them. */
  lemma {:induction false} WalkTotals(lines: seq<Text>, segments: seq<Segment>, index: nat)
    requires Walk(lines, segments, index)
    ensures index <= |lines| && ExpandedAll(segments) == Concat(lines[..index])
    ensures |EncodedAll(segments)| + CollapsedCount(segments) <= |ExpandedAll(segments)|
    ensures OmittedLines(segments) + KeptLines(segments) == index
    decreases |segments|
  {
    if segments == [] {
      assert lines[..0] == [];
    } else {
      var last := segments[|segments| - 1];
      var before := index - last.SourceLines();
      WalkTotals(lines, segments[..|segments| - 1], before);
      ConcatSlice(lines, before, index);
      OmittedAndKept(last);
    }
  }

  lemma OmittedAndKept(s: Segment)
    ensures s.OmittedLines() + s.KeptLines() == s.SourceLines()
  {
  }

  /**
   Nothing is lost and nothing grows: a walk over all lines expands to the input
   byte for byte, its text is shorter by at least one byte per collapsed block,
   and the omissions it reports are the source lines that were not kept.
   */
  lemma CollapseIsFaithful(text: Text, segments: seq<Segment>)
    requires Walk(Split(text), segments, |Split(text)|)
    ensures ExpandedAll(segments) == text
    ensures |Reported(segments).text| + Reported(segments).collapsedBlocks <= |text|
    ensures Reported(segments).omittedLines == |Split(text)| - KeptLines(segments)
  {
    var lines := Split(text);
    WalkTotals(lines, segments, |lines|);
    SplitLines(text);
    assert lines[..|lines|] == lines;
  }

  /** The lines as they are. */
  ghost function Literals(lines: seq<Text>): (r: seq<Segment>) {
    if lines == [] then [] else Literals(lines[..|lines| - 1]) + [Literal(lines[|lines| - 1])]
  }

  lemma {:induction false} LiteralsCons(line: Text, lines: seq<Text>)
    ensures Literals([line] + lines) == [Literal(line)] + Literals(lines)
    decreases |lines|
  {
    var all := [line] + lines;
    if lines == [] {
      assert all[..0] == [];
    } else {
      var n := |lines| - 1;
      LiteralsCons(line, lines[..n]);
      assert all[..n + 1] == [line] + lines[..n];
    }
  }

  lemma {:induction false} LiteralsChain(fits: (nat, Segment) -> bool, lines: seq<Text>, n: nat)
    requires n <= |lines| && forall i: nat :: i < |lines| ==> fits(i, Literal(lines[i]))
    ensures Chain(fits, Literals(lines[..n]), n)
  {
    if n > 0 {
      LiteralsChain(fits, lines, n - 1);
      assert lines[..n][..n - 1] == lines[..n - 1];
      ChainSnoc(fits, Literals(lines[..n - 1]), Literals(lines[..n]), n - 1, n, Literal(lines[n - 1]));
    }
  }

  lemma LiteralsWalk(lines: seq<Text>)
    ensures Walk(lines, Literals(lines), |lines|)
  {
    forall i: nat | i < |lines| ensures FaithfulIn(lines)(i, Literal(lines[i])) {
      LiteralFaithful(lines, i);
    }
    LiteralsChain(FaithfulIn(lines), lines, |lines|);
    assert lines[..|lines|] == lines;
  }

  lemma {:induction false} LiteralsReported(lines: seq<Text>)
    ensures Reported(Literals(lines)) == RepeatedBlockReduction(Concat(lines), 0, 0, 0)
  {
    if lines != [] {
      var n := |lines| - 1;
      LiteralsReported(lines[..n]);
      AddedSnoc(Literals(lines[..n]), Literal(lines[n]));
      assert lines == lines[..n] + [lines[n]];
      ConcatAppend(lines[..n], [lines[n]]);
      ConcatOne(lines[n]);
    }
  }

  /** A scan that never finds a block writes the text unchanged. */
  lemma {:induction false} ScanLiterals(lines: seq<Text>, choose: Chooser, index: nat)
    requires index <= |lines| && Advances(|lines|, choose)
    requires forall i: nat :: i < |lines| ==> choose(i) == Literal(lines[i])
    ensures Scan(|lines|, choose, index) == Literals(lines[index..])
    decreases |lines| - index
  {
    if index == |lines| {
      assert lines[index..] == [];
    } else {
      ScanLiterals(lines, choose, index + 1);
      ScanOne(|lines|, choose, index, lines[index]);
      assert lines[index..] == [lines[index]] + lines[index + 1..];
      LiteralsCons(lines[index], lines[index + 1..]);
    }
  }

  lemma ScanOne(total: nat, choose: Chooser, index: nat, line: Text)
    requires index < total && Advances(total, choose) && choose(index) == Literal(line)
    ensures Scan(total, choose, index) == [Literal(line)] + Scan(total, choose, index + 1)
  {
  }

  /** The greedy scan of a whole text, whatever layout describes it. */
  ghost function GreedyOf(text: Text): (r: seq<Segment>)
    ensures forall layout: LineLayout :: layout.Valid() && layout.text == text ==> r == Greedy(layout)
  {
    LayoutExists(text);
    var layout: LineLayout :| layout.Valid() && layout.text == text;
    forall other: LineLayout | other.Valid() && other.text == text ensures other == layout {
      LayoutUnique(other, layout);
    }
    Greedy(layout)
  }

  lemma {:induction false} LayoutExists(text: Text)
    ensures exists layout: LineLayout :: layout.Valid() && layout.text == text
  {
    var lines := Split(text);
    SplitLines(text);
    var complete := if lines != [] && Tail(lines[|lines| - 1]) then |lines| - 1 else |lines|;
    FrontComplete(lines, complete);
    CompleteFrom(lines, complete);
    assert LineLayout(text, EndsFor(lines), complete).Valid();
  }

  lemma FrontComplete(lines: seq<Text>, n: nat)
    requires LineList(lines) && n <= |lines| && (n == |lines| > 0 ==> !Tail(lines[n - 1]))
    ensures AllComplete(lines[..n])
  {
    var front := lines[..n];
    forall i | 0 <= i < |front| ensures Complete(front[i]) {
      assert front[i] == lines[i];
    }
  }

  ghost function EndsFor(lines: seq<Text>): (ends: seq<nat>)
    ensures EndsOf(lines, ends)
  {
    if lines == [] then []
    else
      var before := lines[..|lines| - 1];
      EndsAppend(before, EndsFor(before), lines[|lines| - 1]);
      assert before + [lines[|lines| - 1]] == lines;
      EndsFor(before) + [|Concat(lines)|]
  }

  /** With fewer than four complete lines no block can repeat. */
  lemma ShortText(layout: LineLayout)
    requires layout.Valid() && layout.completeLines < 4
    ensures Greedy(layout) == Literals(Split(layout.text))
  {
    var lines := Split(layout.text);
    forall i: nat | i < |lines| ensures ExactChoice(layout)(i) == Literal(lines[i]) {
      ShortLiteral(layout, i);
    }
    ScanLiterals(lines, ExactChoice(layout), 0);
    assert lines[0..] == lines;
  }

  lemma ShortLiteral(layout: LineLayout, i: nat)
    requires layout.Valid() && layout.completeLines < 4 && i < |layout.ends|
    ensures SegmentAt(layout, i) == Literal(Split(layout.text)[i])
  {
    if i < layout.completeLines {
      assert MaxBlock(layout, i) < 2;
    }
  }

  /** The totals with one more segment. */
  function Added(a: RepeatedBlockReduction, s: Segment): (r: RepeatedBlockReduction) {
    RepeatedBlockReduction(a.text + s.Encoded(), a.collapsedBlocks + (if s.Repeated? then 1 else 0),
      a.omittedRepetitions + s.Extra(), a.omittedLines + s.OmittedLines())
  }

  lemma AddedSnoc(segments: seq<Segment>, s: Segment)
    ensures Reported(segments + [s]) == Added(Reported(segments), s)
  {
    assert (segments + [s])[..|segments|] == segments;
  }

  /**
   `collapse_repeated_blocks`, for any candidate batch size: for every text the
   segments restore it, never grow it and are counted exactly; with fewer than
   2^33 lines they are those of the greedy scan with the exact candidate.
   */
  method CollapseRepeatedBlocks(text: Text, batchLines: nat)
    returns (r: RepeatedBlockReduction, ghost segments: seq<Segment>)
    requires batchLines >= 1
    ensures Walk(Split(text), segments, |Split(text)|) && r == Reported(segments)
    ensures ExpandedAll(segments) == text && |r.text| + r.collapsedBlocks <= |text|
    ensures r.omittedLines == |Split(text)| - KeptLines(segments)
    ensures |Split(text)| < 0x2_0000_0000 ==> segments == GreedyOf(text)
    ensures |Split(text)| < 0x2_0000_0000 ==> Greedily(Split(text), segments, |Split(text)|)
  {
    var layout := NewLayout(text);
    if layout.completeLines < 4 {
      segments := Literals(Split(text));
      r := RepeatedBlockReduction(text, 0, 0, 0);
      ShortText(layout);
      ShortRightly(layout);
      Unchanged(text);
    } else {
      var hashes := NewHashes(layout);
      r, segments := CollapseWith(layout, hashes.Oracle(), batchLines, ExactChoice(layout));
    }
    CollapseIsFaithful(text, segments);
  }

  lemma Unchanged(text: Text)
    ensures Walk(Split(text), Literals(Split(text)), |Split(text)|)
    ensures Reported(Literals(Split(text))) == RepeatedBlockReduction(text, 0, 0, 0)
  {
    var lines := Split(text);
    LiteralsWalk(lines);
    LiteralsReported(lines);
    SplitLines(text);
  }

  /** `choose` is the exact search over this layout. */
  ghost predicate Chooses(layout: LineLayout, choose: Chooser)
    requires layout.Valid()
  {
    && Advances(|layout.ends|, choose)
    && forall i: nat :: i < |layout.ends| ==> choose(i) == SegmentAt(layout, i)
  }

  /** What is written so far, up to line `index`; where counts fit, the greedy scan goes on from there. */
  ghost predicate Written(layout: LineLayout, choose: Chooser, r: RepeatedBlockReduction, segments: seq<Segment>, index: nat)
    requires layout.Valid() && Advances(|layout.ends|, choose)
  {
    && index <= |layout.ends|
    && Walk(Split(layout.text), segments, index) && r == Reported(segments)
    && (Countable(layout) ==> segments + Scan(|layout.ends|, choose, index) == Scan(|layout.ends|, choose, 0))
    && (Countable(layout) ==> Greedily(Split(layout.text), segments, index))
  }

  /** Its loop, for any sound hash comparison. */
  method CollapseWith(layout: LineLayout, oracle: HashOracle, batchLines: nat, ghost choose: Chooser)
    returns (r: RepeatedBlockReduction, ghost segments: seq<Segment>)
    requires batchLines >= 1 && layout.Valid() && Sound(oracle, layout) && Chooses(layout, choose)
    ensures Walk(Split(layout.text), segments, |layout.ends|) && r == Reported(segments)
    ensures Countable(layout) ==> segments == Scan(|layout.ends|, choose, 0)
    ensures Countable(layout) ==> Greedily(Split(layout.text), segments, |layout.ends|)
  {
    r, segments := RepeatedBlockReduction([], 0, 0, 0), [];
    var index := 0;
    while index < |layout.ends|
      invariant Written(layout, choose, r, segments, index)
      decreases |layout.ends| - index
    {
      if index >= layout.completeLines {
        r, index, segments := EmitTail(layout, r, index, choose, segments);
      } else {
        var batchEnd := if index + batchLines < layout.completeLines then index + batchLines else layout.completeLines;
        r, index, segments := CollapseBatch(layout, oracle, index, batchEnd, r, choose, segments);
      }
    }
  }

  /** One batch: propose for all its lines, then verify and emit from the first. */
  method CollapseBatch(layout: LineLayout, oracle: HashOracle, batchStart: nat, batchEnd: nat,
      a: RepeatedBlockReduction, ghost choose: Chooser, ghost done: seq<Segment>)
    returns (r: RepeatedBlockReduction, index: nat, ghost segments: seq<Segment>)
    requires layout.Valid() && Sound(oracle, layout) && Chooses(layout, choose)
    requires batchStart < batchEnd <= layout.completeLines && Written(layout, choose, a, done, batchStart)
    ensures batchStart < index && Written(layout, choose, r, segments, index)
  {
    var candidates := ProposeBatch(layout, oracle, batchStart, batchEnd);
    r, index, segments := a, batchStart, done;
    while index < batchEnd
      invariant batchStart <= index && Written(layout, choose, r, segments, index)
      decreases |layout.ends| - index
    {
      assert Proposal(layout, batchStart + (index - batchStart), candidates[index - batchStart]);
      var candidate := VerifiedChoice(layout, index, candidates[index - batchStart], choose);
      r, index, segments := EmitChoice(layout, r, index, candidate, choose, segments);
    }
  }

  /** `candidate` may be emitted at `index`, and is the exact search's choice where counts fit. */
  ghost predicate Emittable(layout: LineLayout, index: nat, candidate: BlockCandidate, choose: Chooser)
    requires layout.Valid() && index < |layout.ends|
  {
    && (candidate.Present() ==> index + candidate.blockLines <= |layout.ends|)
    && Faithful(Split(layout.text), index, SegmentFor(layout, index, candidate))
    && (Countable(layout) ==> choose(index) == SegmentFor(layout, index, candidate))
    && (Countable(layout) ==> RightlyChosen(Split(layout.text), index, SegmentFor(layout, index, candidate)))
  }

  method VerifiedChoice(layout: LineLayout, index: nat, proposal: BlockCandidate, ghost choose: Chooser)
    returns (candidate: BlockCandidate)
    requires layout.Valid() && index < layout.completeLines && Chooses(layout, choose)
    requires Proposal(layout, index, proposal)
    ensures Emittable(layout, index, candidate, choose)
  {
    candidate := VerifiedCandidate(layout, index, proposal);
    SureFaithful(layout, index, candidate);
    if Countable(layout) {
      ChoiceIs(layout, index, candidate);
      ExactChoosesRightly(layout, index);
    }
  }

  /** The line without an end is copied as it is. */
  method EmitTail(layout: LineLayout, a: RepeatedBlockReduction, index: nat, ghost choose: Chooser, ghost done: seq<Segment>)
    returns (r: RepeatedBlockReduction, next: nat, ghost segments: seq<Segment>)
    requires layout.Valid() && layout.completeLines <= index < |layout.ends| && Chooses(layout, choose)
    requires Written(layout, choose, a, done, index)
    ensures index < next && Written(layout, choose, r, segments, next)
  {
    ChoiceIs(layout, index, NONE);
    SureFaithful(layout, index, NONE);
    TailNone(layout, index);
    r, next, segments := EmitChoice(layout, a, index, NONE, choose, done);
  }

  method EmitChoice(layout: LineLayout, a: RepeatedBlockReduction, index: nat, candidate: BlockCandidate,
      ghost choose: Chooser, ghost done: seq<Segment>)
    returns (r: RepeatedBlockReduction, next: nat, ghost segments: seq<Segment>)
    requires layout.Valid() && index < |layout.ends| && Advances(|layout.ends|, choose)
    requires Emittable(layout, index, candidate, choose) && Written(layout, choose, a, done, index)
    ensures index < next && Written(layout, choose, r, segments, next)
  {
    ghost var s := SegmentFor(layout, index, candidate);
    ghost var added, after;
    added, after, segments := WrittenNext(layout, choose, a, done, index, s);
    r, next := Emit(layout, a, index, candidate);
    assert r == added && next == after;
  }

  lemma WrittenNext(layout: LineLayout, choose: Chooser, a: RepeatedBlockReduction, done: seq<Segment>, index: nat, s: Segment)
      returns (added: RepeatedBlockReduction, after: nat, more: seq<Segment>)
    requires layout.Valid() && index < |layout.ends| && Advances(|layout.ends|, choose)
    requires Written(layout, choose, a, done, index) && Faithful(Split(layout.text), index, s)
    requires Countable(layout) ==> choose(index) == s && RightlyChosen(Split(layout.text), index, s)
    ensures added == Added(a, s) && index < after == index + s.SourceLines()
    ensures more == done + [s] && Written(layout, choose, added, more, after)
  {
    more, after := WalkSnoc(Split(layout.text), done, index, s);
    AddedSnoc(done, s);
    added := Reported(more);
    if Countable(layout) {
      ChainSnoc(RightIn(Split(layout.text)), done, more, index, after, s);
    }
    ScanOn(layout, choose, done, more, index, after, s);
  }

  /** The scan from `index` begins with its segment there. */
  lemma ScanOn(
    layout: LineLayout, choose: Chooser, done: seq<Segment>, more: seq<Segment>, index: nat, after: nat, s: Segment)
    requires index < |layout.ends| && Advances(|layout.ends|, choose) && after <= |layout.ends|
    requires more == done + [s] && after == index + s.SourceLines()
    ensures choose(index) == s ==>
      more + Scan(|layout.ends|, choose, after) == done + Scan(|layout.ends|, choose, index)
  {
  }

  /** Emits the verified candidate at `index`, or the line when there is none. */
  method Emit(layout: LineLayout, a: RepeatedBlockReduction, index: nat, candidate: BlockCandidate)
    returns (r: RepeatedBlockReduction, next: nat)
    requires layout.Valid() && index < |layout.ends|
    requires candidate.Present() ==> index + candidate.blockLines <= |layout.ends|
    ensures r == Added(a, SegmentFor(layout, index, candidate))
    ensures next == index + SegmentFor(layout, index, candidate).SourceLines()
  {
    if candidate.Present() {
      var k: int, n: int := candidate.blockLines, candidate.repetitions;
      TimesIs(k, n);
      assert k * (n - 1) == k * n - k;
      r := RepeatedBlockReduction(a.text + (layout.Span(index, k) + BlockMarker(n, k)),
        a.collapsedBlocks + 1, a.omittedRepetitions + (n - 1), a.omittedLines + k * (n - 1));
      next := index + k * n;
    } else {
      r := RepeatedBlockReduction(a.text + layout.Line(index), a.collapsedBlocks, a.omittedRepetitions, a.omittedLines);
      next := index + 1;
    }
  }

  lemma ChoiceIs(layout: LineLayout, index: nat, c: BlockCandidate)
    requires layout.Valid() && index < |layout.ends|
    requires c == if index < layout.completeLines then ExactBest(layout, index) else NONE
    ensures c.Present() ==> c.blockLines >= 1 && index + c.blockLines <= |layout.ends|
    ensures SegmentAt(layout, index) == SegmentFor(layout, index, c)
  {
    if index < layout.completeLines {
      BestShape(layout, index);
    }
  }

  /** The proposals for one batch of lines. */
  method ProposeBatch(layout: LineLayout, oracle: HashOracle, from: nat, to: nat) returns (candidates: seq<BlockCandidate>)
    requires layout.Valid() && Sound(oracle, layout)
    requires from <= to <= layout.completeLines
    ensures |candidates| == to - from
    ensures forall i :: 0 <= i < |candidates| ==> Proposal(layout, from + i, candidates[i])
  {
    candidates := [];
    for start := from to to
      invariant |candidates| == start - from
      invariant forall i :: 0 <= i < |candidates| ==> Proposal(layout, from + i, candidates[i])
    {
      var c := BestHashedCandidate(layout, oracle, start);
      candidates := candidates + [c];
    }
  }
}
