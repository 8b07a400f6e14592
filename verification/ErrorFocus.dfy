/** `focus_error_output`: keeps windows around diagnostic lines and replaces byte-saving gaps. */
module ErrorFocus {
  import opened Bytes
  import opened Lines

  const CONTEXT_BEFORE: nat := 2
  const CONTEXT_AFTER: nat := 6
  const EDGE_LINES: nat := 2

  /** Line `i` lies in the window of anchor line `a`. */
  predicate InWindow(a: int, i: int) {
    a - 2 <= i <= a + 6
  }

  /** Line `i` must be kept: near an edge, or in the window of an anchor. */
  ghost predicate Keep(anchors: seq<bool>, i: nat) {
    i < 2 || i + 2 >= |anchors| || exists a :: 0 <= a < |anchors| && anchors[a] && InWindow(a, i)
  }

  /** `retained[from..to].fill(true)`. */
  method Fill(retained: seq<bool>, from: nat, to: nat) returns (r: seq<bool>)
    requires from <= to <= |retained|
    ensures |r| == |retained|
    ensures forall i :: 0 <= i < |r| ==> r[i] == (retained[i] || from <= i < to)
  {
    r := retained;
    for i := from to to
      invariant |r| == |retained|
      invariant forall k :: 0 <= k < |r| ==> r[k] == (retained[k] || from <= k < i)
    {
      r := r[i := true];
    }
  }

  /** The marking loop: exactly the lines that must be kept. */
  method MarkRetained(anchors: seq<bool>) returns (retained: seq<bool>)
    ensures |retained| == |anchors|
    ensures forall i :: 0 <= i < |anchors| ==> (retained[i] <==> Keep(anchors, i))
  {
    var total := |anchors|;
    var edge := if EDGE_LINES < total then EDGE_LINES else total;
    retained := seq(total, _ => false);
    retained := Fill(retained, 0, edge);
    retained := Fill(retained, total - edge, total);
    for line := 0 to total
      invariant |retained| == total
      invariant forall i :: 0 <= i < total ==> (retained[i] <==>
        i < 2 || i + 2 >= total || exists a :: 0 <= a < line && anchors[a] && InWindow(a, i))
    {
      if anchors[line] {
        var start := if line < CONTEXT_BEFORE then 0 else line - CONTEXT_BEFORE;
        var end := if line + CONTEXT_AFTER + 1 < total then line + CONTEXT_AFTER + 1 else total;
        retained := Fill(retained, start, end);
      }
    }
  }

  // ---- What is emitted ----

  datatype Segment = Line(bytes: Text) | Marker(count: nat)

  /** `⋯N` and LF, with `⋯` the three bytes E2 8B AF. */
  function OmissionMarker(count: nat): (r: Text) {
    [0xE2, 0x8B, 0xAF] + Decimal(count) + [LF]
  }

  /** `omission_marker_len`. */
  method OmissionMarkerLen(count: nat) returns (n: nat)
    ensures n == |OmissionMarker(count)|
  {
    var digits := DecimalDigits(count);
    n := 3 + digits + 1;
  }

  /** The count a marker shows. */
  function OmissionRead(marker: Text): (r: int)
    requires |marker| >= 4
  {
    Value(marker[3..|marker| - 1])
  }

  /** A marker is `⋯`, the number of lines it stands for, and LF. */
  lemma OmissionShows(count: nat)
    ensures var m := OmissionMarker(count);
      |m| >= 4 && m[..3] == [0xE2, 0x8B, 0xAF] && m[|m| - 1] == 10 && OmissionRead(m) == count
  {
    var m := OmissionMarker(count);
    assert m[3..|m| - 1] == Decimal(count);
    DecimalValue(count);
  }

  function Encoded(s: Segment): (r: Text) {
    match s
    case Line(bytes) => bytes
    case Marker(count) => OmissionMarker(count)
  }

  function EncodedAll(segments: seq<Segment>): (r: Text) {
    if segments == [] then [] else Encoded(segments[0]) + EncodedAll(segments[1..])
  }

  function MarkerCount(segments: seq<Segment>): (r: nat) {
    if segments == [] then 0 else (if segments[0].Marker? then 1 else 0) + MarkerCount(segments[1..])
  }

  function OmittedCount(segments: seq<Segment>): (r: nat) {
    if segments == [] then 0 else (if segments[0].Marker? then segments[0].count else 0) + OmittedCount(segments[1..])
  }

  function AsLines(lines: seq<Text>): (r: seq<Segment>) {
    if lines == [] then [] else [Line(lines[0])] + AsLines(lines[1..])
  }

  /** Where the gap that starts at `i` ends. */
  function GapEnd(retained: seq<bool>, i: nat): (j: nat)
    requires i <= |retained|
    ensures i <= j <= |retained|
    ensures forall k :: i <= k < j ==> !retained[k]
    ensures j < |retained| ==> retained[j]
    decreases |retained| - i
  {
    if i == |retained| || retained[i] then i else GapEnd(retained, i + 1)
  }

  /** The marker is shorter than the lines it stands for. */
  predicate Saves(lines: seq<Text>, i: nat, j: nat)
    requires i <= j <= |lines|
  {
    |OmissionMarker(j - i)| < |Concat(lines[i..j])|
  }

  /** The segments from line `i` on. */
  function FocusFrom(lines: seq<Text>, retained: seq<bool>, i: nat): (r: seq<Segment>)
    requires |retained| == |lines| && i <= |lines|
    decreases |lines| - i
  {
    if i == |lines| then []
    else if retained[i] then [Line(lines[i])] + FocusFrom(lines, retained, i + 1)
    else
      var j := GapEnd(retained, i);
      GapSegments(lines, i, j) + FocusFrom(lines, retained, j)
  }

  /** A gap becomes its marker when that is shorter, and stays verbatim otherwise. */
  function GapSegments(lines: seq<Text>, i: nat, j: nat): (r: seq<Segment>)
    requires i <= j <= |lines|
  {
    if Saves(lines, i, j) then [Marker(j - i)] else AsLines(lines[i..j])
  }

  /**
   The segments walk the source lines from `i`: every line stands verbatim and
   in order, every marker stands for exactly one whole gap of lines not kept.
   */
  ghost predicate Aligned(lines: seq<Text>, retained: seq<bool>, segments: seq<Segment>, i: nat)
    requires |retained| == |lines|
    decreases |segments|
  {
    if segments == [] then i == |lines|
    else match segments[0]
      case Line(bytes) => i < |lines| && bytes == lines[i] && Aligned(lines, retained, segments[1..], i + 1)
      case Marker(count) =>
        && count >= 1 && i + count <= |lines|
        && (forall k :: i <= k < i + count ==> !retained[k])
        && (i == 0 || retained[i - 1]) && (i + count == |lines| || retained[i + count])
        && Saves(lines, i, i + count)
        && Aligned(lines, retained, segments[1..], i + count)
  }

  /** Putting the omitted source lines back where the markers stand. */
  ghost function Refill(lines: seq<Text>, segments: seq<Segment>, i: nat): (r: Text)
    decreases |segments|
  {
    if segments == [] then []
    else match segments[0]
      case Line(bytes) => bytes + Refill(lines, segments[1..], i + 1)
      case Marker(count) =>
        (if i + count <= |lines| then Concat(lines[i..i + count]) else []) + Refill(lines, segments[1..], i + count)
  }

  lemma {:induction false} LinesAligned(lines: seq<Text>, retained: seq<bool>, i: nat, j: nat, rest: seq<Segment>)
    requires |retained| == |lines| && i <= j <= |lines| && Aligned(lines, retained, rest, j)
    ensures Aligned(lines, retained, AsLines(lines[i..j]) + rest, i)
    decreases j - i
  {
    var gap := lines[i..j];
    if i == j {
      assert AsLines(gap) + rest == rest;
    } else {
      LinesAligned(lines, retained, i + 1, j, rest);
      assert gap[1..] == lines[i + 1..j];
      assert (AsLines(gap) + rest)[1..] == AsLines(gap[1..]) + rest;
    }
  }

  /** The emitted segments are aligned with the source. */
  lemma {:induction false} FocusAligned(lines: seq<Text>, retained: seq<bool>, i: nat)
    requires |retained| == |lines| && i <= |lines| && (i == 0 || i == |lines| || retained[i - 1] || retained[i])
    ensures Aligned(lines, retained, FocusFrom(lines, retained, i), i)
    decreases |lines| - i
  {
    if i < |lines| {
      if retained[i] {
        FocusAligned(lines, retained, i + 1);
        var rest := FocusFrom(lines, retained, i + 1);
        assert ([Line(lines[i])] + rest)[1..] == rest;
      } else {
        var j := GapEnd(retained, i);
        FocusAligned(lines, retained, j);
        var rest := FocusFrom(lines, retained, j);
        assert j > i;
        if Saves(lines, i, j) {
          assert ([Marker(j - i)] + rest)[1..] == rest;
        } else {
          LinesAligned(lines, retained, i, j, rest);
        }
      }
    }
  }

  /** Aligned segments refill to the source and never take more bytes than it. */
  lemma {:induction false} AlignedFaithful(lines: seq<Text>, retained: seq<bool>, segments: seq<Segment>, i: nat)
    requires |retained| == |lines| && i <= |lines| && Aligned(lines, retained, segments, i)
    ensures Refill(lines, segments, i) == Concat(lines[i..])
    ensures |EncodedAll(segments)| + MarkerCount(segments) <= |Concat(lines[i..])|
    ensures OmittedCount(segments) + |segments| - MarkerCount(segments) == |lines| - i
    decreases |segments|
  {
    if segments == [] {
      assert lines[i..] == [];
    } else {
      var next := i + match segments[0] case Line(_) => 1 case Marker(count) => count;
      AlignedFaithful(lines, retained, segments[1..], next);
      Onward(lines, i, next);
      if segments[0].Line? {
        assert lines[i..next] == [lines[i]];
        ConcatOne(lines[i]);
      }
    }
  }

  lemma Onward(lines: seq<Text>, i: nat, next: nat)
    requires i <= next <= |lines|
    ensures Concat(lines[i..]) == Concat(lines[i..next]) + Concat(lines[next..])
  {
    assert lines[i..] == lines[i..next] + lines[next..];
    ConcatAppend(lines[i..next], lines[next..]);
  }

  /** A kept line appears verbatim: the segment that reaches it is that line. */
  lemma {:induction false} KeptVerbatim(lines: seq<Text>, retained: seq<bool>, segments: seq<Segment>, i: nat, k: nat)
      returns (s: nat)
    requires |retained| == |lines| && i <= k < |lines| && Aligned(lines, retained, segments, i) && retained[k]
    ensures s < |segments| && segments[s] == Line(lines[k])
    ensures Aligned(lines, retained, segments[s..], k) && i + Covered(segments[..s]) == k
    decreases |segments|
  {
    if i == k && segments[0].Line? {
      s := 0;
    } else {
      var next := i + Covers(segments[0]);
      var rest := KeptVerbatim(lines, retained, segments[1..], next, k);
      s := rest + 1;
      assert segments[1..][rest..] == segments[s..];
      assert segments[..s][1..] == segments[1..][..rest];
    }
  }

  /** How many source lines a segment stands for. */
  function Covers(segment: Segment): (r: nat) {
    match segment
    case Line(_) => 1
    case Marker(count) => count
  }

  function Covered(segments: seq<Segment>): (r: nat) {
    if segments == [] then 0 else Covers(segments[0]) + Covered(segments[1..])
  }

  /** Line `k` is shown verbatim, and at its place: the segments before it stand for the `k` lines before it. */
  ghost predicate ShownAt(lines: seq<Text>, segments: seq<Segment>, k: nat)
    requires k < |lines|
  {
    exists s :: 0 <= s < |segments| && segments[s] == Line(lines[k]) && Covered(segments[..s]) == k
  }

  // ---- The loop ----

  datatype ErrorFocusedReduction = ErrorFocusedReduction(
    text: Text, diagnosticLines: nat, omittedSpans: nat, omittedLines: nat)

  /** The totals of a reduction once these segments are appended. */
  function Plus(r: ErrorFocusedReduction, segments: seq<Segment>): (t: ErrorFocusedReduction) {
    ErrorFocusedReduction(r.text + EncodedAll(segments), r.diagnosticLines,
      r.omittedSpans + MarkerCount(segments), r.omittedLines + OmittedCount(segments))
  }

  lemma {:induction false} TotalsAppend(a: seq<Segment>, b: seq<Segment>)
    ensures EncodedAll(a + b) == EncodedAll(a) + EncodedAll(b)
    ensures MarkerCount(a + b) == MarkerCount(a) + MarkerCount(b)
    ensures OmittedCount(a + b) == OmittedCount(a) + OmittedCount(b)
  {
    if a == [] {
      assert a + b == b;
    } else {
      assert (a + b)[1..] == a[1..] + b;
      TotalsAppend(a[1..], b);
    }
  }

  lemma {:induction false} LinesTotals(lines: seq<Text>)
    ensures EncodedAll(AsLines(lines)) == Concat(lines)
    ensures MarkerCount(AsLines(lines)) == 0 && OmittedCount(AsLines(lines)) == 0
  {
    if lines != [] {
      assert AsLines(lines)[1..] == AsLines(lines[1..]);
      LinesTotals(lines[1..]);
    }
  }

  lemma PlusAppend(r: ErrorFocusedReduction, a: seq<Segment>, b: seq<Segment>)
    ensures Plus(r, a + b) == Plus(Plus(r, a), b)
  {
    TotalsAppend(a, b);
    TextsAppend(r.text, EncodedAll(a), EncodedAll(b));
  }

  lemma TextsAppend(a: Text, b: Text, c: Text)
    ensures a + (b + c) == a + b + c
  {
  }

  /** What a gap adds to the totals. */
  lemma PlusGap(a: ErrorFocusedReduction, lines: seq<Text>, i: nat, j: nat, count: nat, span: Text)
    requires i <= j <= |lines| && count == j - i && span == Concat(lines[i..j])
    ensures Plus(a, GapSegments(lines, i, j)) ==
      if |OmissionMarker(count)| < |span| then
        ErrorFocusedReduction(a.text + OmissionMarker(count), a.diagnosticLines, a.omittedSpans + 1, a.omittedLines + count)
      else a.(text := a.text + span)
  {
    if Saves(lines, i, j) {
      OneSegment(Marker(j - i));
    } else {
      LinesTotals(lines[i..j]);
    }
  }

  lemma OneSegment(s: Segment)
    ensures EncodedAll([s]) == Encoded(s) && MarkerCount([s]) == (if s.Marker? then 1 else 0)
    ensures OmittedCount([s]) == (if s.Marker? then s.count else 0)
  {
    assert [s][1..] == [];
    assert Encoded(s) + [] == Encoded(s);
  }

  /** The encoding loop. */
  method EmitFocused(layout: LineLayout, retained: seq<bool>, diagnosticLines: nat) returns (r: ErrorFocusedReduction)
    requires layout.Valid() && |retained| == |layout.ends|
    ensures r == Plus(ErrorFocusedReduction([], diagnosticLines, 0, 0), FocusFrom(Split(layout.text), retained, 0))
  {
    ghost var lines := Split(layout.text);
    r := ErrorFocusedReduction([], diagnosticLines, 0, 0);
    ghost var whole := Plus(r, FocusFrom(lines, retained, 0));
    var line := 0;
    while line < |retained|
      invariant line <= |retained| == |lines|
      invariant Plus(r, FocusFrom(lines, retained, line)) == whole
    {
      if retained[line] {
        PlusLine(lines, retained, r, line);
        r := r.(text := r.text + layout.Line(line));
        line := line + 1;
      } else {
        var start := line;
        line := SkipGap(retained, start);
        PlusAppend(r, GapSegments(lines, start, line), FocusFrom(lines, retained, line));
        r := EmitGap(layout, r, start, line);
      }
    }
    PlusNothing(r);
  }

  lemma PlusLine(lines: seq<Text>, retained: seq<bool>, r: ErrorFocusedReduction, i: nat)
    requires i < |lines| == |retained| && retained[i]
    ensures Plus(r.(text := r.text + lines[i]), FocusFrom(lines, retained, i + 1)) == Plus(r, FocusFrom(lines, retained, i))
  {
    PlusAppend(r, [Line(lines[i])], FocusFrom(lines, retained, i + 1));
    OneSegment(Line(lines[i]));
  }

  lemma PlusNothing(r: ErrorFocusedReduction)
    ensures Plus(r, []) == r
  {
    assert r.text + [] == r.text;
  }

  method SkipGap(retained: seq<bool>, start: nat) returns (line: nat)
    requires start < |retained| && !retained[start]
    ensures line == GapEnd(retained, start) && start < line
  {
    line := start;
    while line < |retained| && !retained[line]
      invariant start <= line <= |retained| && GapEnd(retained, start) == GapEnd(retained, line)
    {
      line := line + 1;
    }
  }

  lemma SpanIs(layout: LineLayout, start: nat, end: nat)
    requires layout.Valid() && start < end <= |layout.ends|
    ensures layout.SpanLen(start, end - start) == |Concat(Split(layout.text)[start..end])|
    ensures layout.Span(start, end - start) == Concat(Split(layout.text)[start..end])
  {
    assert start + (end - start) == end;
  }

  method EmitGap(layout: LineLayout, a: ErrorFocusedReduction, start: nat, end: nat) returns (r: ErrorFocusedReduction)
    requires layout.Valid() && start < end <= |layout.ends|
    ensures r == Plus(a, GapSegments(Split(layout.text), start, end))
  {
    var count := end - start;
    var marker := OmissionMarkerLen(count);
    SpanIs(layout, start, end);
    PlusGap(a, Split(layout.text), start, end, count, layout.Span(start, count));
    var size := layout.SpanLen(start, count);
    if marker < size {
      r := ErrorFocusedReduction(a.text + OmissionMarker(count), a.diagnosticLines, a.omittedSpans + 1, a.omittedLines + count);
    } else {
      r := a.(text := a.text + layout.Span(start, count));
    }
  }

  ghost function Anchors(lines: seq<Text>, isAnchor: Text -> bool): (r: seq<bool>)
    ensures |r| == |lines| && forall i :: 0 <= i < |lines| ==> r[i] == isAnchor(lines[i])
  {
    seq(|lines|, i requires 0 <= i < |lines| => isAnchor(lines[i]))
  }

  function CountTrue(s: seq<bool>): (n: nat)
    ensures n == 0 <==> forall i :: 0 <= i < |s| ==> !s[i]
  {
    if s == [] then 0 else CountTrue(s[..|s| - 1]) + if s[|s| - 1] then 1 else 0
  }

  lemma CountTrueSnoc(s: seq<bool>, b: bool)
    ensures CountTrue(s + [b]) == CountTrue(s) + if b then 1 else 0
  {
    assert (s + [b])[..|s|] == s;
  }

  method FindAnchors(layout: LineLayout, isAnchor: Text -> bool) returns (anchors: seq<bool>, count: nat)
    requires layout.Valid()
    ensures anchors == Anchors(Split(layout.text), isAnchor) && count == CountTrue(anchors)
  {
    anchors, count := [], 0;
    for i := 0 to |layout.ends|
      invariant |anchors| == i && forall k :: 0 <= k < i ==> anchors[k] == isAnchor(Split(layout.text)[k])
      invariant count == CountTrue(anchors)
    {
      var anchor := isAnchor(layout.Line(i));
      CountTrueSnoc(anchors, anchor);
      anchors, count := anchors + [anchor], count + if anchor then 1 else 0;
    }
  }

  /** `focus_error_output`, for any way of recognizing diagnostic lines. */
  method FocusErrorOutput(text: Text, isAnchor: Text -> bool) returns (r: ErrorFocusedReduction, ghost segments: seq<Segment>)
    ensures var lines := Split(text);
      var anchors := Anchors(lines, isAnchor);
      && r.diagnosticLines == CountTrue(anchors)
      && (r.diagnosticLines == 0 ==> r == ErrorFocusedReduction(text, 0, 0, 0))
      && (r.diagnosticLines > 0 ==> Focuses(lines, anchors, segments) && r == Plus(ErrorFocusedReduction([], r.diagnosticLines, 0, 0), segments))
    ensures |r.text| + r.omittedSpans <= |text|
  {
    var layout := NewLayout(text);
    SplitLines(text);
    segments := [];
    var anchors, count := FindAnchors(layout, isAnchor);
    if count == 0 {
      return ErrorFocusedReduction(text, 0, 0, 0), [];
    }
    var retained := MarkRetained(anchors);
    segments := FocusFrom(Split(text), retained, 0);
    FocusSaves(Split(text), retained);
    r := EmitFocused(layout, retained, count);
  }

  lemma FocusSaves(lines: seq<Text>, retained: seq<bool>)
    requires |retained| == |lines|
    ensures var segments := FocusFrom(lines, retained, 0);
      |EncodedAll(segments)| + MarkerCount(segments) <= |Concat(lines)|
  {
    FocusAligned(lines, retained, 0);
    AlignedFaithful(lines, retained, FocusFrom(lines, retained, 0), 0);
    assert lines[0..] == lines;
  }

  /** The segments stand for these lines, with markers only where no line must be kept. */
  ghost predicate Focuses(lines: seq<Text>, anchors: seq<bool>, segments: seq<Segment>) {
    |anchors| == |lines| && exists retained: seq<bool> ::
      && |retained| == |lines|
      && (forall i :: 0 <= i < |lines| ==> (retained[i] <==> Keep(anchors, i)))
      && segments == FocusFrom(lines, retained, 0)
  }

  /** Everything the reduction promises about the lines of a diagnosed output. */
  lemma FocusIsFaithful(lines: seq<Text>, anchors: seq<bool>, segments: seq<Segment>, k: nat)
    requires Focuses(lines, anchors, segments) && k < |lines|
    ensures Refill(lines, segments, 0) == Concat(lines)
    ensures |EncodedAll(segments)| + MarkerCount(segments) <= |Concat(lines)|
    ensures OmittedCount(segments) + (|segments| - MarkerCount(segments)) == |lines|
    ensures Keep(anchors, k) ==> ShownAt(lines, segments, k)
  {
    var retained: seq<bool> :| |retained| == |lines|
      && (forall i :: 0 <= i < |lines| ==> (retained[i] <==> Keep(anchors, i)))
      && segments == FocusFrom(lines, retained, 0);
    FocusAligned(lines, retained, 0);
    AlignedFaithful(lines, retained, segments, 0);
    assert lines[0..] == lines;
    if Keep(anchors, k) {
      var s := KeptVerbatim(lines, retained, segments, 0, k);
    }
  }
}
