/**
 `project` and `project_sampled`: turning captured bytes into a bounded text
 excerpt through normalization, the three reducers and boundary-safe cutting.
 */
module Projection {
  import opened Bytes
  import opened Utf8
  import opened StreamTracking
  import opened Wrappers
  import Lines
  import LineRuns
  import BlockCollapse
  import BlockSearch
  import ErrorFocus

  datatype Projected = Projected(text: Option<Text>, reduced: bool, normalized: bool)

  /** `text.replace("\r\n", "\n")`. */
  function ReplaceCrLf(s: Text): (r: Text)
    ensures |r| <= |s|
  {
    if s == [] then []
    else if |s| >= 2 && s[0] == CR && s[1] == LF then [LF] + ReplaceCrLf(s[2..])
    else [s[0]] + ReplaceCrLf(s[1..])
  }

  /** Parts put together with `sep` between them. */
  function Join(parts: seq<Text>, sep: Text): (r: Text) {
    if parts == [] then []
    else if |parts| == 1 then parts[0]
    else parts[0] + sep + Join(parts[1..], sep)
  }

  /** Replacement takes the text apart at every CR LF and puts it together with LF. */
  lemma {:induction false} ReplaceMeans(s: Text) returns (parts: seq<Text>)
    ensures parts != [] && forall i :: 0 <= i < |parts| ==> !HasCrLf(parts[i])
    ensures Join(parts, [13, 10]) == s && Join(parts, [10]) == ReplaceCrLf(s)
    decreases |s|
  {
    if s == [] {
      parts := [[]];
    } else if |s| >= 2 && s[0] == CR && s[1] == LF {
      var rest := ReplaceMeans(s[2..]);
      parts := [[]] + rest;
      assert parts[1..] == rest;
      assert s == [] + [13, 10] + s[2..];
    } else {
      var rest := ReplaceMeans(s[1..]);
      parts := ConsPart(s[0], rest, s[1..], ReplaceCrLf(s[1..]));
      assert s == [s[0]] + s[1..];
    }
  }

  lemma ConsPart(b: byte, parts: seq<Text>, s: Text, r: Text) returns (more: seq<Text>)
    requires parts != [] && forall i :: 0 <= i < |parts| ==> !HasCrLf(parts[i])
    requires Join(parts, [13, 10]) == s && Join(parts, [10]) == r
    requires b == CR && s != [] ==> s[0] != LF
    ensures more != [] && forall i :: 0 <= i < |more| ==> !HasCrLf(more[i])
    ensures Join(more, [13, 10]) == [b] + s && Join(more, [10]) == [b] + r
  {
    var first := [b] + parts[0];
    more := [first] + parts[1..];
    assert more[1..] == parts[1..];
    JoinStarts(parts, [13, 10]);
    JoinCons(b, parts, more, [13, 10]);
    JoinCons(b, parts, more, [10]);
    assert !HasCrLf(first) by {
      forall i | 0 < i < |first| && first[i - 1] == CR ensures first[i] != LF {
        if i > 1 {
          assert first[i - 1] == parts[0][i - 2] && first[i] == parts[0][i - 1];
          assert !HasCrLf(parts[0]);
        }
      }
    }
    forall i | 0 <= i < |more| ensures !HasCrLf(more[i]) {
      if i > 0 {
        assert more[i] == parts[i];
      }
    }
  }

  lemma JoinStarts(parts: seq<Text>, sep: Text)
    requires parts != []
    ensures parts[0] <= Join(parts, sep)
  {
  }

  lemma JoinCons(b: byte, parts: seq<Text>, more: seq<Text>, sep: Text)
    requires parts != [] && more == [[b] + parts[0]] + parts[1..]
    ensures Join(more, sep) == [b] + Join(parts, sep)
  {
    assert more[1..] == parts[1..];
    if |parts| > 1 {
      assert [b] + parts[0] + sep + Join(parts[1..], sep) == [b] + (parts[0] + sep + Join(parts[1..], sep));
    }
  }

  // ---- Valid text stays valid ----

  lemma AsciiFront(b: byte, rest: Text)
    requires b <= 0x7F
    ensures ValidUtf8([b] + rest) <==> ValidUtf8(rest)
  {
    OneChar([b]);
    ValidCancel([b], rest);
  }

  /** Bytes that are not CR are copied. */
  lemma {:induction false} ReplaceCopies(c: Text, rest: Text)
    requires forall i :: 0 <= i < |c| ==> c[i] != CR
    ensures ReplaceCrLf(c + rest) == c + ReplaceCrLf(rest)
  {
    if c == [] {
      assert c + rest == rest;
    } else {
      assert (c + rest)[1..] == c[1..] + rest;
      ReplaceCopies(c[1..], rest);
      assert [c[0]] + (c[1..] + ReplaceCrLf(rest)) == c + ReplaceCrLf(rest);
    }
  }

  lemma {:induction false} ReplaceKeepsValid(s: Text)
    requires ValidUtf8(s)
    ensures ValidUtf8(ReplaceCrLf(s))
    decreases |s|
  {
    ValidUnfold(s);
    if s != [] {
      if s[0] == CR {
        assert s == [CR] + s[1..];
        AsciiFront(CR, s[1..]);
        if |s| >= 2 && s[1] == LF {
          assert s[1..] == [LF] + s[2..];
          AsciiFront(LF, s[2..]);
          ReplaceKeepsValid(s[2..]);
          AsciiFront(LF, ReplaceCrLf(s[2..]));
        } else {
          ReplaceKeepsValid(s[1..]);
          AsciiFront(CR, ReplaceCrLf(s[1..]));
        }
      } else {
        var c := s[..CharLen(s)];
        assert s == c + s[CharLen(s)..];
        ReplaceCopies(c, s[CharLen(s)..]);
        ReplaceKeepsValid(s[CharLen(s)..]);
        OneChar(c);
        ValidAppend(c, ReplaceCrLf(s[CharLen(s)..]));
      }
    }
  }

  ghost predicate AllUtf8(parts: seq<Text>) {
    forall i :: 0 <= i < |parts| ==> ValidUtf8(parts[i])
  }

  lemma {:induction false} ConcatValid(parts: seq<Text>)
    requires AllUtf8(parts)
    ensures ValidUtf8(Concat(parts))
  {
    if parts == [] {
      ValidUnfold([]);
    } else {
      ConcatValid(parts[1..]);
      ValidAppend(parts[0], Concat(parts[1..]));
    }
  }

  lemma {:induction false} RepeatValid(p: Text, n: nat)
    requires ValidUtf8(p)
    ensures ValidUtf8(Repeat(p, n))
  {
    ValidUnfold([]);
    if n > 0 {
      RepeatValid(p, n - 1);
      ValidAppend(p, Repeat(p, n - 1));
    }
  }

  /** Text can be cut after an LF. */
  lemma CutAfterLf(s: Text, k: nat)
    requires ValidUtf8(s) && 1 <= k <= |s| && s[k - 1] == LF
    ensures ValidUtf8(s[..k]) && ValidUtf8(s[k..])
  {
    BoundarySplits(s, k - 1);
    assert s[k - 1..] == [LF] + s[k..];
    AsciiFront(LF, s[k..]);
    OneChar([LF]);
    ValidAppend(s[..k - 1], [LF]);
    assert s[..k] == s[..k - 1] + [LF];
  }

  lemma {:induction false} LinesValid(text: Text)
    requires ValidUtf8(text)
    ensures AllUtf8(Lines.Split(text))
    decreases |text|
  {
    if text != [] {
      var k := Lines.FirstLine(text);
      if k < |text| {
        CutAfterLf(text, k);
      } else {
        assert text[..k] == text && text[k..] == [];
        ValidUnfold([]);
      }
      LinesValid(text[k..]);
    }
  }

  lemma {:induction false} DecimalValid(n: nat)
    ensures ValidUtf8(Decimal(n))
  {
    if n < 10 {
      OneChar(Decimal(n));
    } else {
      DecimalValid(n / 10);
      OneChar([(48 + n % 10) as byte]);
      ValidAppend(Decimal(n / 10), [(48 + n % 10) as byte]);
    }
  }

  lemma MarkersValid(n: nat, k: nat)
    ensures ValidUtf8(LineRuns.RunMarker(n)) && ValidUtf8(BlockSearch.BlockMarker(n, k)) && ValidUtf8(ErrorFocus.OmissionMarker(n))
  {
    OneChar([0xC3, 0x97]);
    OneChar([0xE2, 0x8B, 0xAF]);
    OneChar([35]);
    OneChar([LF]);
    DecimalValid(n);
    DecimalValid(k);
    ValidAppend([0xC3, 0x97], Decimal(n));
    ValidAppend([0xE2, 0x8B, 0xAF], Decimal(n));
    ValidAppend([0xC3, 0x97] + Decimal(n), [LF]);
    ValidAppend([0xE2, 0x8B, 0xAF] + Decimal(n), [LF]);
    ValidAppend([0xC3, 0x97] + Decimal(n), [35]);
    ValidAppend([0xC3, 0x97] + Decimal(n) + [35], Decimal(k));
    ValidAppend([0xC3, 0x97] + Decimal(n) + [35] + Decimal(k), [LF]);
  }

  lemma {:induction false} RunsStayValid(lines: seq<Text>, runs: seq<LineRuns.Run>)
    requires AllUtf8(lines) && LineRuns.Inside(lines, runs)
    ensures ValidUtf8(LineRuns.Reported(lines, runs).text)
  {
    if runs == [] {
      ValidUnfold([]);
    } else {
      var last := runs[|runs| - 1];
      RunsStayValid(lines, runs[..|runs| - 1]);
      MarkersValid(last.count, 0);
      RepeatValid(lines[last.line], last.count);
      ValidAppend(lines[last.line], LineRuns.RunMarker(last.count));
      ValidAppend(LineRuns.Reported(lines, runs[..|runs| - 1]).text, LineRuns.EncodedRun(lines, last));
    }
  }

  /** No run collapsed: the projection is the text. */
  lemma {:induction false} RunsUnchanged(lines: seq<Text>, runs: seq<LineRuns.Run>)
    requires LineRuns.Inside(lines, runs) && LineRuns.Reported(lines, runs).collapsedRuns == 0
    ensures LineRuns.Reported(lines, runs).text == LineRuns.Expanded(lines, runs)
  {
    if runs != [] {
      RunsUnchanged(lines, runs[..|runs| - 1]);
    }
  }

  lemma {:induction false} BlocksUnchanged(segments: seq<BlockCollapse.Segment>)
    requires BlockCollapse.CollapsedCount(segments) == 0
    ensures BlockCollapse.EncodedAll(segments) == BlockCollapse.ExpandedAll(segments)
  {
    if segments != [] {
      BlocksUnchanged(segments[..|segments| - 1]);
    }
  }

  lemma SliceValid(lines: seq<Text>, i: nat, j: nat)
    requires AllUtf8(lines) && i <= j <= |lines|
    ensures ValidUtf8(Concat(lines[i..j]))
  {
    ConcatValid(lines[i..j]);
  }

  lemma MarkedValid(block: Text, n: nat, k: nat)
    requires ValidUtf8(block)
    ensures ValidUtf8(block + BlockSearch.BlockMarker(n, k))
  {
    MarkersValid(n, k);
    ValidAppend(block, BlockSearch.BlockMarker(n, k));
  }

  lemma SegmentStaysValid(lines: seq<Text>, index: nat, s: BlockCollapse.Segment)
    requires AllUtf8(lines) && BlockCollapse.Faithful(lines, index, s)
    ensures ValidUtf8(s.Encoded())
  {
    if s.Repeated? {
      SliceValid(lines, index, index + s.blockLines);
      MarkedValid(s.block, s.repetitions, s.blockLines);
    }
  }

  /** Block collapsing keeps text valid. */
  lemma {:induction false} BlocksStayValid(lines: seq<Text>, segments: seq<BlockCollapse.Segment>, index: nat)
    requires AllUtf8(lines) && BlockCollapse.Walk(lines, segments, index)
    ensures ValidUtf8(BlockCollapse.EncodedAll(segments))
    decreases |segments|
  {
    if segments == [] {
      ValidUnfold([]);
    } else {
      var n := |segments| - 1;
      var before := index - segments[n].SourceLines();
      BlocksStayValid(lines, segments[..n], before);
      SegmentStaysValid(lines, before, segments[n]);
      ValidAppend(BlockCollapse.EncodedAll(segments[..n]), segments[n].Encoded());
    }
  }

  lemma {:induction false} FocusStaysValid(lines: seq<Text>, retained: seq<bool>, segments: seq<ErrorFocus.Segment>, i: nat)
    requires |retained| == |lines| && AllUtf8(lines) && ErrorFocus.Aligned(lines, retained, segments, i)
    ensures ValidUtf8(ErrorFocus.EncodedAll(segments))
    ensures ErrorFocus.MarkerCount(segments) == 0 && i <= |lines| ==> ErrorFocus.EncodedAll(segments) == Concat(lines[i..])
    decreases |segments|
  {
    if segments == [] {
      ValidUnfold([]);
      assert i <= |lines| ==> lines[i..] == [];
    } else {
      var first := segments[0];
      var next := i + match first case Line(_) => 1 case Marker(count) => count;
      FocusStaysValid(lines, retained, segments[1..], next);
      if first.Marker? {
        MarkersValid(first.count, 0);
      } else {
        assert lines[i..] == [lines[i]] + lines[i + 1..];
      }
      ValidAppend(ErrorFocus.Encoded(first), ErrorFocus.EncodedAll(segments[1..]));
    }
  }

  // ---- Excerpts ----

  const SEPARATOR: Text := [LF, 46, 46, 46, LF]

  /** `r` is `head` up to `i`, the separator, and `tail` from `j`: the cuts nearest to half the room and to the rest of it. */
  ghost predicate CutAt(r: Text, head: Text, tail: Text, limit: nat, i: nat, j: nat) {
    && limit >= 8 && i <= |head| && j <= |tail|
    && r == head[..i] + [10, 46, 46, 46, 10] + tail[j..] && |r| <= limit
    && LastBoundary(head, (limit - 5) / 2, i)
    && FirstBoundary(tail, if |tail| + i <= limit - 5 then 0 else |tail| - (limit - 5 - i), j)
  }

  /** `saturating_sub`. */
  function Less(a: nat, b: nat): (r: nat) {
    if a <= b then 0 else a - b
  }

  /** The beginning of `head` and the end of `tail` that fit into `limit` bytes. */
  ghost predicate Excerpt(r: Text, head: Text, tail: Text, limit: nat) {
    exists i: nat, j: nat :: CutAt(r, head, tail, limit, i, j)
  }

  lemma ExcerptValid(r: Text, head: Text, tail: Text, limit: nat, i: nat, j: nat)
    requires ValidUtf8(head) && ValidUtf8(tail) && CutAt(r, head, tail, limit, i, j)
    ensures ValidUtf8(r)
  {
    BoundarySplits(head, i);
    BoundarySplits(tail, j);
    OneChar([LF]);
    AsciiFront(46, [LF]);
    AsciiFront(46, [46] + [LF]);
    AsciiFront(46, [46] + ([46] + [LF]));
    AsciiFront(LF, [46] + ([46] + ([46] + [LF])));
    assert SEPARATOR == [LF] + ([46] + ([46] + ([46] + [LF])));
    ValidAppend(head[..i], SEPARATOR);
    ValidAppend(head[..i] + SEPARATOR, tail[j..]);
  }

  /** Cuts a head and a tail at character boundaries so that both and the separator fit. */
  method CutExcerpt(head: Text, tail: Text, limit: nat) returns (r: Text)
    requires ValidUtf8(head) && ValidUtf8(tail) && limit >= 8
    ensures Excerpt(r, head, tail, limit) && ValidUtf8(r) && |r| <= limit
  {
    var contentLimit := Less(limit, |SEPARATOR|);
    var headEnd := FloorBoundary(head, contentLimit / 2);
    var tailBytes := Less(contentLimit, headEnd);
    var tailStart := CeilBoundary(tail, Less(|tail|, tailBytes));
    r := head[..headEnd] + SEPARATOR + tail[tailStart..];
    assert CutAt(r, head, tail, limit, headEnd, tailStart);
    ExcerptValid(r, head, tail, limit, headEnd, tailStart);
  }

  // ---- The reducers in a row ----

  /** `r` is `text` with its repeated lines collapsed. */
  ghost predicate LinesCollapsed(text: Text, r: Text) {
    exists runs: seq<LineRuns.Run> :: RunsWritten(text, runs, r)
  }

  ghost predicate RunsWritten(text: Text, runs: seq<LineRuns.Run>, r: Text) {
    var lines := Lines.Split(text);
    && LineRuns.Encodes(lines, runs, 0, |lines|) && LineRuns.Inside(lines, runs)
    && r == LineRuns.Reported(lines, runs).text
  }

  /** `r` is `text` focused on its diagnostics, or `text` itself when it has none. */
  ghost predicate Focused(text: Text, isAnchor: Text -> bool, r: Text) {
    var lines := Lines.Split(text);
    var anchors := ErrorFocus.Anchors(lines, isAnchor);
    if ErrorFocus.CountTrue(anchors) == 0 then r == text
    else exists segments :: ErrorFocus.Focuses(lines, anchors, segments) && r == ErrorFocus.EncodedAll(segments)
  }

  /** `r` is what the reducers make of `text`: lines, then blocks, then, if asked, the error focus. */
  ghost predicate Reduced(text: Text, focusErrors: bool, isAnchor: Text -> bool, r: Text) {
    exists byLine: Text, byBlock: Text ::
      LinesCollapsed(text, byLine) && BlocksCollapsed(byLine, byBlock) && MaybeFocused(byBlock, focusErrors, isAnchor, r)
  }

  ghost predicate MaybeFocused(text: Text, focusErrors: bool, isAnchor: Text -> bool, r: Text) {
    if focusErrors then Focused(text, isAnchor, r) else r == text
  }

  /** `r` is `text` with repeated blocks collapsed: by the greedy scan if the text has fewer than 2^33 lines. */
  ghost predicate BlocksCollapsed(text: Text, r: Text) {
    exists segments: seq<BlockCollapse.Segment> :: BlocksWritten(text, segments, r)
  }

  ghost predicate BlocksWritten(text: Text, segments: seq<BlockCollapse.Segment>, r: Text) {
    var lines := Lines.Split(text);
    && BlockCollapse.Walk(lines, segments, |lines|) && r == BlockCollapse.EncodedAll(segments)
    && (|lines| < 2 * BlockSearch.U32_LIMIT ==> segments == BlockCollapse.GreedyOf(text))
  }

  /** The result of the three reducers on normalized text. */
  method Reduce(text: Text, focusErrors: bool, isAnchor: Text -> bool) returns (r: Text, reduced: bool)
    requires ValidUtf8(text)
    ensures Reduced(text, focusErrors, isAnchor, r)
    ensures ValidUtf8(r) && |r| <= |text|
    ensures !reduced ==> r == text
    ensures reduced ==> |r| < |text|
  {
    var byLine, runs := LineRuns.CollapseRepeatedLines(text, 2048, 1024);
    assert RunsWritten(text, runs, byLine.text);
    LinesValid(text);
    RunsStayValid(Lines.Split(text), runs);
    if byLine.collapsedRuns == 0 {
      RunsUnchanged(Lines.Split(text), runs);
    }
    var byBlock, segments := BlockCollapse.CollapseRepeatedBlocks(byLine.text, 4096);
    assert BlocksWritten(byLine.text, segments, byBlock.text);
    LinesValid(byLine.text);
    BlocksStayValid(Lines.Split(byLine.text), segments, |Lines.Split(byLine.text)|);
    if byBlock.collapsedBlocks == 0 {
      BlocksUnchanged(segments);
    }
    r, reduced := byBlock.text, byLine.collapsedRuns != 0 || byBlock.collapsedBlocks != 0;
    if focusErrors {
      var focused := Focus(byBlock.text, isAnchor);
      r, reduced := focused.text, reduced || focused.omittedSpans != 0;
    }
    assert LinesCollapsed(text, byLine.text) && BlocksCollapsed(byLine.text, byBlock.text);
    assert MaybeFocused(byBlock.text, focusErrors, isAnchor, r);
  }

  /** The error focus on valid text: valid again, and unchanged when nothing was omitted. */
  method Focus(text: Text, isAnchor: Text -> bool) returns (r: ErrorFocus.ErrorFocusedReduction)
    requires ValidUtf8(text)
    ensures Focused(text, isAnchor, r.text)
    ensures ValidUtf8(r.text) && |r.text| + r.omittedSpans <= |text|
    ensures r.omittedSpans == 0 ==> r.text == text
  {
    ghost var segments;
    r, segments := ErrorFocus.FocusErrorOutput(text, isAnchor);
    ghost var lines := Lines.Split(text);
    if r.diagnosticLines > 0 {
      ghost var retained: seq<bool> :| |retained| == |lines|
        && (forall i :: 0 <= i < |lines| ==>
              (retained[i] <==> ErrorFocus.Keep(ErrorFocus.Anchors(lines, isAnchor), i)))
        && segments == ErrorFocus.FocusFrom(lines, retained, 0);
      LinesValid(text);
      ErrorFocus.FocusAligned(lines, retained, 0);
      FocusStaysValid(lines, retained, segments, 0);
      Lines.SplitLines(text);
      assert lines[0..] == lines;
      assert [] + ErrorFocus.EncodedAll(segments) == ErrorFocus.EncodedAll(segments);
    }
  }

  /** How the reduced text `whole` is presented within the limit. */
  ghost predicate Presented(p: Projected, text: Text, whole: Text, limit: nat) {
    if |whole| <= limit then
      p.text == (if whole == [] then None else Some(whole)) && (p.reduced <==> whole != text)
    else if limit < 8 then p.text == None && p.reduced
    else p.text.Some? && Excerpt(p.text.value, whole, whole, limit) && p.reduced
  }

  /**
   `project`: bytes that are not UTF-8 give no text; otherwise the normalized
   text goes through the reducers, and what they leave is given whole when it
   fits and as a valid excerpt when it does not.
   */
  method Project(bytes: Text, limit: nat, focusErrors: bool, isAnchor: Text -> bool)
    returns (p: Projected, ghost whole: Text)
    ensures p.text.Some? ==> ValidUtf8(p.text.value) && p.text.value != [] && |p.text.value| <= limit
    ensures !ValidUtf8(bytes) ==> p == Projected(None, true, false)
    ensures ValidUtf8(bytes) ==> (p.normalized <==> HasCrLf(bytes))
    ensures ValidUtf8(bytes) ==>
      var text := if p.normalized then ReplaceCrLf(bytes) else bytes;
      Reduced(text, focusErrors, isAnchor, whole) && Presented(p, text, whole, limit)
  {
    whole := [];
    FromUtf8Meaning(bytes);
    ValidUnfold([]);
    if !FromUtf8(bytes).Valid? {
      return Projected(None, bytes != [], false), [];
    }
    var normalized := HasCrLf(bytes);
    var text := if normalized then ReplaceCrLf(bytes) else bytes;
    ReplaceKeepsValid(bytes);
    var result, reduced := Reduce(text, focusErrors, isAnchor);
    whole := result;
    if |result| <= limit {
      p := Projected(if result == [] then None else Some(result), reduced, normalized);
    } else if limit < 8 {
      p := Projected(None, true, normalized);
    } else {
      var excerpt := CutExcerpt(result, result, limit);
      p := Projected(Some(excerpt), true, normalized);
    }
  }

  /** `normalize_head`: a CR at the cut becomes LF when LF follows it in the stream. */
  function NormalizeHead(text: Text, next: Option<byte>, normalized: bool): (r: Text) {
    var s := if normalized then ReplaceCrLf(text) else text;
    if normalized && s != [] && s[|s| - 1] == CR && next == Some(LF) then s[..|s| - 1] + [LF] else s
  }

  lemma NormalizeHeadValid(text: Text, next: Option<byte>, normalized: bool)
    requires ValidUtf8(text)
    ensures ValidUtf8(NormalizeHead(text, next, normalized))
  {
    ReplaceKeepsValid(text);
    var s := if normalized then ReplaceCrLf(text) else text;
    if s != [] && s[|s| - 1] == CR {
      BoundarySplits(s, |s| - 1);
      OneChar([LF]);
      ValidAppend(s[..|s| - 1], [LF]);
    }
  }

  /** `r` is the excerpt of the two samples, each trimmed to whole characters and normalized. */
  ghost predicate SampleExcerpt(r: Text, head: Text, next: Option<byte>, tail: Text, limit: nat, normalized: bool) {
    exists h: Text, t: Text :: SampleCut(r, head, next, tail, limit, normalized, h, t)
  }

  ghost predicate SampleCut(
    r: Text, head: Text, next: Option<byte>, tail: Text, limit: nat, normalized: bool, h: Text, t: Text)
  {
    && LongestHead(head, h) && NearTail(tail, t)
    && Excerpt(r, NormalizeHead(h, next, normalized), Normal(t, normalized), limit)
  }

  /** Text as it is shown. */
  function Normal(text: Text, normalized: bool): (r: Text) {
    if normalized then ReplaceCrLf(text) else text
  }

  /** `project_sampled`: an excerpt from the two kept samples of a stream judged to be text. */
  method ProjectSampled(head: Text, next: Option<byte>, tail: Text, limit: nat, isText: bool, normalized: bool)
    returns (p: Projected)
    ensures p.text.Some? <==> isText && limit >= 8
    ensures p.text.Some? ==> ValidUtf8(p.text.value) && |p.text.value| <= limit
    ensures p.text.Some? ==> SampleExcerpt(p.text.value, head, next, tail, limit, normalized)
    ensures p.reduced && (p.normalized <==> isText && normalized)
  {
    if !isText {
      return Projected(None, true, false);
    }
    if limit < 8 {
      return Projected(None, true, normalized);
    }
    var wholeHead := CompleteHead(head);
    var wholeTail := CompleteTail(tail);
    NormalizeHeadValid(wholeHead, next, normalized);
    ReplaceKeepsValid(wholeTail);
    var excerpt := CutExcerpt(NormalizeHead(wholeHead, next, normalized), Normal(wholeTail, normalized), limit);
    assert SampleCut(excerpt, head, next, tail, limit, normalized, wholeHead, wholeTail);
    p := Projected(Some(excerpt), true, normalized);
  }

  // ---- Samples of a stream ----

  /** Replacement works part by part, unless a CR LF lies across the seam. */
  lemma {:induction false} ReplaceAppend(a: Text, b: Text)
    requires !(EndsInCr(a) && b != [] && b[0] == LF)
    ensures ReplaceCrLf(a + b) == ReplaceCrLf(a) + ReplaceCrLf(b)
    decreases |a|
  {
    if a == [] {
      assert a + b == b;
    } else {
      var k := if |a| >= 2 && a[0] == CR && a[1] == LF then 2 else 1;
      assert (a + b)[k..] == a[k..] + b;
      ReplaceAppend(a[k..], b);
      ConsAppend(if k == 2 then LF else a[0], ReplaceCrLf(a[k..]), ReplaceCrLf(b));
    }
  }

  lemma ConsAppend(x: byte, p: Text, q: Text)
    ensures [x] + (p + q) == ([x] + p) + q
  {
  }

  /** Across the seam the CR LF becomes one LF. */
  lemma ReplaceSeam(a: Text, b: Text)
    requires EndsInCr(a) && b != [] && b[0] == LF
    ensures ReplaceCrLf(a + b) == ReplaceCrLf(a[..|a| - 1]) + ReplaceCrLf(b)
  {
    var front := a[..|a| - 1];
    assert a + b == front + ([CR] + b);
    ReplaceAppend(front, [CR] + b);
    assert ([CR] + b)[2..] == b[1..];
  }

  /** A last byte stays last, and only an LF can take a CR with it. */
  lemma ReplaceSnoc(front: Text, last: byte)
    ensures last != LF ==> ReplaceCrLf(front + [last]) == ReplaceCrLf(front) + [last]
    ensures var r := ReplaceCrLf(front + [last]); r != [] && r[|r| - 1] == last
  {
    assert ReplaceCrLf([last]) == [last] + ReplaceCrLf([]);
    if EndsInCr(front) && last == LF {
      ReplaceSeam(front, [last]);
    } else {
      ReplaceAppend(front, [last]);
    }
  }

  /** `next` tells rightly whether an LF follows the CR the head ends in. */
  predicate TellsNext(stream: Text, n: nat, next: Option<byte>)
    requires n <= |stream|
  {
    EndsInCr(stream[..n]) ==> (next == Some(LF) <==> n < |stream| && stream[n] == LF)
  }

  lemma HeadIsPrefix(stream: Text, n: nat, next: Option<byte>, normalized: bool)
    requires n <= |stream| && TellsNext(stream, n, next)
    ensures NormalizeHead(stream[..n], next, normalized) <= Normal(stream, normalized)
  {
    var head, rest := stream[..n], stream[n..];
    assert stream == head + rest;
    if normalized && head != [] {
      NormalizedHead(head, rest, next);
    }
  }

  lemma NormalizedHead(head: Text, rest: Text, next: Option<byte>)
    requires head != [] && (EndsInCr(head) ==> (next == Some(LF) <==> rest != [] && rest[0] == LF))
    ensures NormalizeHead(head, next, true) <= ReplaceCrLf(head + rest)
  {
    var front, last := head[..|head| - 1], head[|head| - 1];
    assert head == front + [last];
    ReplaceSnoc(front, last);
    if last == CR && rest != [] && rest[0] == LF {
      ReplaceSeam(head, rest);
      HeadAtSeam(ReplaceCrLf(front), ReplaceCrLf(head), ReplaceCrLf(rest), rest);
    } else {
      ReplaceAppend(head, rest);
    }
  }

  lemma HeadAtSeam(front: Text, head: Text, after: Text, rest: Text)
    requires head == front + [CR] && rest != [] && rest[0] == LF && after == ReplaceCrLf(rest)
    ensures head[..|head| - 1] + [LF] <= front + after
  {
    assert after == [LF] + ReplaceCrLf(rest[1..]);
    assert head[..|head| - 1] == front;
  }

  /** The normalized head is the normalized stream up to the cut, or up to the LF that completes its last CR. */
  lemma HeadIsNormal(stream: Text, n: nat, next: Option<byte>, normalized: bool) returns (cut: nat)
    requires n <= |stream| && TellsNext(stream, n, next)
    ensures n <= cut <= n + 1 && cut <= |stream|
    ensures NormalizeHead(stream[..n], next, normalized) == Normal(stream[..cut], normalized)
  {
    cut := n;
    if normalized && n > 0 {
      var front, last := stream[..n - 1], stream[n - 1];
      assert stream[..n] == front + [last];
      ReplaceSnoc(front, last);
      if last == CR && n < |stream| && stream[n] == LF {
        cut := n + 1;
        assert stream[..cut] == stream[..n] + [LF] && stream[..n][..n - 1] == front;
        ReplaceSeam(stream[..n], [LF]);
        assert ReplaceCrLf([LF]) == [LF] + ReplaceCrLf([]);
      }
    }
  }

  /** `t` ends `s`. */
  predicate Suffix(t: Text, s: Text) {
    |t| <= |s| && t == s[|s| - |t|..]
  }

  lemma TailIsSuffix(stream: Text, n: nat, normalized: bool)
    requires n <= |stream|
    ensures Suffix(Normal(stream[n..], normalized), Normal(stream, normalized))
  {
    var head, rest := stream[..n], stream[n..];
    assert stream == head + rest;
    if normalized {
      if EndsInCr(head) && rest != [] && rest[0] == LF {
        ReplaceSeam(head, rest);
      } else {
        ReplaceAppend(head, rest);
      }
    }
  }

  /** `head` and `tail` are the two ends of `stream`, and `next` is the byte after `head`. */
  ghost predicate Samples(stream: Text, head: Text, next: Option<byte>, tail: Text) {
    && head <= stream && Suffix(tail, stream)
    && next == if |head| < |stream| then Some(stream[|head|]) else None
  }

  /** Trimming a valid stream's head to whole characters does not mislead about the byte that follows. */
  lemma TrimmedTellsNext(stream: Text, head: Text, next: Option<byte>, tail: Text, h: Text)
    requires ValidUtf8(stream) && Samples(stream, head, next, tail) && LongestHead(head, h)
    ensures h <= stream && TellsNext(stream, |h|, next)
  {
    assert h == stream[..|h|];
    if |h| < |head| {
      LongestStops(head, h);
      BoundarySplits(stream, |head|);
      assert head == head[..|head|] == stream[..|head|];
    }
  }

  /** What stops the longest head is no LF. */
  lemma LongestStops(head: Text, h: Text)
    requires LongestHead(head, h) && |h| < |head|
    ensures head[|h|] != LF
  {
    OneChar([LF]);
    ValidAppend(h, [LF]);
    assert head[..|h| + 1] == h + [head[|h|]];
  }

  /**
   From the samples of a valid stream the excerpt shows a beginning and an end
   of the normalized stream; trimming the samples to whole characters costs at
   most three bytes each.
   */
  lemma SampledFromStream(
    stream: Text, head: Text, next: Option<byte>, tail: Text, limit: nat, normalized: bool, r: Text)
    returns (a: Text, b: Text, h: Text, t: Text, cut: nat)
    requires ValidUtf8(stream) && Samples(stream, head, next, tail)
    requires SampleExcerpt(r, head, next, tail, limit, normalized)
    ensures r == a + SEPARATOR + b && a <= Normal(stream, normalized) && Suffix(b, Normal(stream, normalized))
    ensures h <= head && |head| - |h| <= 3 && Suffix(t, tail) && |tail| - |t| <= 3
    ensures a <= NormalizeHead(h, next, normalized) && Suffix(b, Normal(t, normalized))
    ensures |h| <= cut <= |h| + 1 && cut <= |stream| && NormalizeHead(h, next, normalized) == Normal(stream[..cut], normalized)
  {
    h, t :| SampleCut(r, head, next, tail, limit, normalized, h, t);
    TrimmedNear(stream, head, next, tail, h, t);
    a, b := ShownParts(stream, head, next, tail, limit, normalized, r, h, t);
    TrimmedTellsNext(stream, head, next, tail, h);
    cut := HeadIsNormal(stream, |h|, next, normalized);
  }

  lemma ShownParts(stream: Text, head: Text, next: Option<byte>, tail: Text, limit: nat, normalized: bool, r: Text,
      h: Text, t: Text) returns (a: Text, b: Text)
    requires ValidUtf8(stream) && Samples(stream, head, next, tail)
    requires SampleCut(r, head, next, tail, limit, normalized, h, t)
    ensures r == a + SEPARATOR + b && a <= Normal(stream, normalized) && Suffix(b, Normal(stream, normalized))
    ensures a <= NormalizeHead(h, next, normalized) && Suffix(b, Normal(t, normalized))
  {
    TrimmedShown(stream, head, next, tail, h, t, normalized);
    a, b := ExcerptParts(
      r, NormalizeHead(h, next, normalized), Normal(t, normalized), limit, Normal(stream, normalized));
  }

  lemma TrimmedShown(
    stream: Text, head: Text, next: Option<byte>, tail: Text, h: Text, t: Text, normalized: bool)
    requires ValidUtf8(stream) && Samples(stream, head, next, tail) && LongestHead(head, h) && NearTail(tail, t)
    ensures NormalizeHead(h, next, normalized) <= Normal(stream, normalized)
    ensures Suffix(Normal(t, normalized), Normal(stream, normalized))
  {
    HeadShown(stream, head, next, tail, h, normalized);
    TailShown(stream, tail, t, normalized);
  }

  lemma HeadShown(stream: Text, head: Text, next: Option<byte>, tail: Text, h: Text, normalized: bool)
    requires ValidUtf8(stream) && Samples(stream, head, next, tail) && LongestHead(head, h)
    ensures NormalizeHead(h, next, normalized) <= Normal(stream, normalized)
  {
    TrimmedTellsNext(stream, head, next, tail, h);
    assert h == stream[..|h|];
    HeadIsPrefix(stream, |h|, next, normalized);
  }

  lemma TailShown(stream: Text, tail: Text, t: Text, normalized: bool)
    requires Suffix(tail, stream) && Suffix(t, tail)
    ensures Suffix(Normal(t, normalized), Normal(stream, normalized))
  {
    assert t == stream[|stream| - |t|..];
    TailIsSuffix(stream, |stream| - |t|, normalized);
  }

  /** The two parts of an excerpt, from what its ends are parts of. */
  lemma ExcerptParts(r: Text, head: Text, tail: Text, limit: nat, whole: Text) returns (a: Text, b: Text)
    requires Excerpt(r, head, tail, limit) && head <= whole && Suffix(tail, whole)
    ensures r == a + SEPARATOR + b && a <= whole && Suffix(b, whole) && a <= head && Suffix(b, tail)
  {
    var i: nat, j: nat :| CutAt(r, head, tail, limit, i, j);
    a, b := head[..i], tail[j..];
    CutsOf(whole, head, tail, i, j);
  }

  lemma CutsOf(whole: Text, head: Text, tail: Text, i: nat, j: nat)
    requires head <= whole && Suffix(tail, whole) && i <= |head| && j <= |tail|
    ensures head[..i] <= whole && Suffix(tail[j..], whole) && Suffix(tail[j..], tail)
  {
  }

  lemma TrimmedNear(stream: Text, head: Text, next: Option<byte>, tail: Text, h: Text, t: Text)
    requires ValidUtf8(stream) && Samples(stream, head, next, tail) && LongestHead(head, h) && NearTail(tail, t)
    ensures |head| - |h| <= 3 && |tail| - |t| <= 3 && Suffix(t, stream)
    ensures h == stream[..|h|] && t == stream[|stream| - |t|..]
  {
    assert stream == head + stream[|head|..];
    HeadIsNear(head, |h|);
    assert stream == stream[..|stream| - |tail|] + tail;
    if t == [] {
      TailIsNear(tail);
    }
    assert t == stream[|stream| - |t|..];
  }
}
