/**
 Line selection, twice: the streaming selector over retained results and the
 index-table selector over files. Offsets count lines from one; offset zero
 reads like one. Lengths and offsets are unsigned 64-bit numbers.
 */
module LineSelect {
  import opened Bytes
  import opened Lines
  import opened Wrappers

  function Min(a: nat, b: nat): (r: nat) {
    if a <= b then a else b
  }

  /** Line `offset`, counted from one, as an index. */
  function Target(offset: nat): (r: nat) {
    if offset == 0 then 0 else offset - 1
  }

  /** The bytes of at most `length` lines from line index `target` on. */
  function Selection(text: Text, target: nat, length: nat): (r: Text) {
    var lines := Split(text);
    if target >= |lines| then [] else Concat(lines[target..Min(target + length, |lines|)])
  }

  /** `bytes` are at most `length` lines of the text, from line number `first`, counted from one. */
  ghost predicate LinesFrom(text: Text, first: nat, length: nat, bytes: Text)
    requires first >= 1
  {
    var lines := Split(text);
    if first > |lines| then bytes == []
    else bytes == Concat(lines[first - 1..if first - 1 + length < |lines| then first - 1 + length else |lines|])
  }

  lemma SelectionIs(text: Text, offset: nat, length: nat)
    ensures LinesFrom(text, if offset == 0 then 1 else offset, length, Selection(text, Target(offset), length))
  {
  }

  // ---- The streaming selector ----

  datatype Slice = Slice(offset: nat, bytes: Text)

  datatype Result = Selected(slice: Slice) | Cancelled

  /** After `index` lines with nothing missed: where the cursor, the start and the count stand. */
  ghost predicate Streamed(
    lines: seq<Text>, target: nat, length: nat, index: nat, cursor: nat, start: int, selected: nat)
  {
    && index <= |lines|
    && cursor == |Concat(lines[..index])|
    && start == (if index <= target then -1 else |Concat(lines[..target])|)
    && selected == (if index <= target then 0 else Min(index - target, length))
  }

  lemma StreamStep(lines: seq<Text>, target: nat, length: nat, index: nat, cursor: nat, start: int, selected: nat)
    requires Streamed(lines, target, length, index, cursor, start, selected) && index < |lines|
    ensures Streamed(
      lines, target, length, index + 1, cursor + |lines[index]|,
      if index == target then cursor else start,
      if index >= target && selected < length then selected + 1 else selected)
  {
    ConcatSlice(lines, index, index + 1);
    assert lines[index..index + 1] == [lines[index]];
    ConcatOne(lines[index]);
  }

  /** Where the walk stops, what lies between start and cursor is the selection. */
  lemma StreamEnd(text: Text, target: nat, length: nat, index: nat, cursor: nat, start: int, selected: nat)
    requires Streamed(Split(text), target, length, index, cursor, start, selected) && length >= 1
    requires index <= target + length && (index == |Split(text)| || selected == length)
    ensures start < 0 ==> Selection(text, target, length) == []
    ensures start >= 0 ==> start <= cursor <= |text| && text[start..cursor] == Selection(text, target, length)
  {
    var lines := Split(text);
    CursorInText(text, index);
    if target < index {
      assert index == Min(target + length, |lines|);
      StreamBytes(text, target, index);
    }
  }

  lemma CursorInText(text: Text, index: nat)
    requires index <= |Split(text)|
    ensures |Concat(Split(text)[..index])| <= |text|
  {
    var lines := Split(text);
    SplitLines(text);
    ConcatSlice(lines, index, |lines|);
    assert lines[..|lines|] == lines;
  }

  lemma StreamBytes(text: Text, i: nat, j: nat)
    requires i <= j <= |Split(text)|
    ensures var lines := Split(text);
      && |Concat(lines[..i])| <= |Concat(lines[..j])| <= |text|
      && text[|Concat(lines[..i])|..|Concat(lines[..j])|] == Concat(lines[i..j])
  {
    var lines := Split(text);
    SplitLines(text);
    ConcatSlice(lines, i, j);
    ConcatSlice(lines, j, |lines|);
    assert lines[..|lines|] == lines;
  }

  /** No lines at all are asked for, from the first line of a nonempty text. */
  predicate AsksForNone(text: Text, offset: nat, length: nat) {
    length == 0 && offset <= 1 && text != []
  }

  /**
   Walks the lines until enough are selected. `cancelled(k)` answers the look at
   the cancellation token before line `k`, for every 4096th line.
   */
  method SelectStreaming(text: Text, offset: nat, length: nat, cancelled: nat -> bool) returns (r: Result)
    ensures r.Selected? ==> r.slice.offset == offset
    ensures r.Selected? && length >= 1 ==> LinesFrom(text, if offset == 0 then 1 else offset, length, r.slice.bytes)
    ensures r.Selected? ==>
      r.slice.bytes == if AsksForNone(text, offset, length) then Split(text)[0] else Selection(text, Target(offset), length)
    ensures r.Cancelled? ==> exists k :: 0 <= k < |Split(text)| && k % 4096 == 0 && cancelled(k)
  {
    SelectionIs(text, offset, length);
    if text == [] {
      return Selected(Slice(offset, []));
    }
    var bytes := Stream(text, Target(offset), length, cancelled);
    r := if bytes.Some? then Selected(Slice(offset, bytes.value)) else Cancelled;
  }

  /** The walk itself, over a nonempty text. */
  method Stream(text: Text, target: nat, length: nat, cancelled: nat -> bool) returns (r: Option<Text>)
    requires text != []
    ensures r.Some? ==>
      r.value == if length == 0 && target == 0 then Split(text)[0] else Selection(text, target, length)
    ensures r.None? ==> exists k :: 0 <= k < |Split(text)| && k % 4096 == 0 && cancelled(k)
  {
    var lines := Split(text);
    var cursor: nat, start, selected: nat := 0, -1, 0;
    var index := 0;
    while index < |lines| && (index == 0 || selected < length)
      invariant Streamed(lines, target, length, index, cursor, start, selected)
      invariant if length == 0 then index <= 1 else index <= target + length
    {
      if index % 4096 == 0 && cancelled(index) {
        return None;
      }
      StreamStep(lines, target, length, index, cursor, start, selected);
      if index == target {
        start := cursor;
      }
      if index >= target && selected < length {
        selected := selected + 1;
      }
      cursor := cursor + |lines[index]|;
      index := index + 1;
    }
    if length >= 1 {
      StreamEnd(text, target, length, index, cursor, start, selected);
    } else {
      FirstOnly(text, target, cursor, start, selected);
    }
    if start < 0 {
      return Some([]);
    }
    return Some(text[start..cursor]);
  }

  /** Asked for no lines, the walk still passes the first line before it stops. */
  lemma FirstOnly(text: Text, target: nat, cursor: nat, start: int, selected: nat)
    requires text != [] && Streamed(Split(text), target, 0, 1, cursor, start, selected)
    ensures start < 0 <==> target > 0
    ensures target == 0 ==> start == 0 && cursor <= |text| && text[..cursor] == Split(text)[0]
    ensures Selection(text, target, 0) == []
  {
    StreamBytes(text, 0, 1);
    FirstBytes(Split(text));
    NoneSelected(text, target);
  }

  lemma FirstBytes(lines: seq<Text>)
    requires lines != []
    ensures Concat(lines[..0]) == [] && Concat(lines[0..1]) == lines[0]
  {
    assert lines[..0] == [] && lines[0..1] == [lines[0]];
    ConcatOne(lines[0]);
  }

  lemma NoneSelected(text: Text, target: nat)
    ensures Selection(text, target, 0) == []
  {
    var lines := Split(text);
    if target < |lines| {
      assert lines[target..Min(target + 0, |lines|)] == [];
    }
  }

  // ---- The index-table selector ----

  /** `starts` holds the first byte of every line. */
  ghost predicate StartsOf(text: Text, starts: seq<nat>) {
    var lines := Split(text);
    |starts| == |lines| && forall i :: 0 <= i < |starts| ==> starts[i] == |Concat(lines[..i])|
  }

  /** The start table against the line ends: shifted by one, the last end dropped. */
  lemma StartsFromEnds(text: Text, ends: seq<nat>, starts: seq<nat>)
    requires text != [] && EndsOf(Split(text), ends) && ends != [] && starts == [0] + ends[..|ends| - 1]
    ensures StartsOf(text, starts)
  {
    var lines := Split(text);
    assert lines[..0] == [];
    forall i | 0 <= i < |starts| ensures starts[i] == |Concat(lines[..i])| {
      if i > 0 {
        EndsAt(lines, ends, i - 1);
      }
    }
  }

  method LineStarts(text: Text) returns (starts: seq<nat>)
    requires text != []
    ensures StartsOf(text, starts)
  {
    starts := [0];
    ghost var ends: seq<nat> := [];
    ghost var e := 0;
    for p := 0 to |text|
      invariant StartsUpTo(text, p, ends, e, starts)
    {
      if text[p] == LF {
        StartsNext(text, ends, e, starts, p);
        if p + 1 < |text| {
          starts := starts + [p + 1];
        }
        ends, e := ends + [p + 1], p + 1;
      }
    }
    StartsDone(text, ends, e, starts);
  }

  /** The first `p` bytes are scanned: the last LF among them ends at `e`. */
  ghost predicate StartsUpTo(text: Text, p: nat, ends: seq<nat>, e: nat, starts: seq<nat>) {
    && e <= p <= |text| && Scanned(text, ends, e) && StartsSoFar(text, ends, e, starts)
    && forall q :: e <= q < p ==> text[q] != LF
  }

  lemma StartsDone(text: Text, ends: seq<nat>, e: nat, starts: seq<nat>)
    requires text != [] && StartsUpTo(text, |text|, ends, e, starts)
    ensures StartsOf(text, starts)
  {
    ScanEnd(text, ends, e);
    StartsFromEnds(text, if e == |text| then ends else ends + [|text|], starts);
  }

  /** Each line end so far starts a line, unless it is the end of the text. */
  ghost predicate StartsSoFar(text: Text, ends: seq<nat>, e: nat, starts: seq<nat>) {
    (e == |text| ==> ends != []) && starts == [0] + if e == |text| then ends[..|ends| - 1] else ends
  }

  lemma StartsNext(text: Text, ends: seq<nat>, e: nat, starts: seq<nat>, p: nat)
    requires p < |text| && StartsUpTo(text, p, ends, e, starts) && text[p] == LF
    ensures StartsUpTo(text, p + 1, ends + [p + 1], p + 1, if p + 1 < |text| then starts + [p + 1] else starts)
  {
    ScanLine(text, ends, e, p);
    assert (ends + [p + 1])[..|ends|] == ends;
  }

  /** Selects by index arithmetic; also reports the first line, from one, and how many lines. */
  method SelectIndexed(text: Text, offset: nat, length: nat) returns (bytes: Text, first: nat, count: nat)
    requires |text| <= U64_MAX && offset <= U64_MAX && length <= U64_MAX
    ensures bytes == Selection(text, Target(offset), length)
    ensures LinesFrom(text, if offset == 0 then 1 else offset, length, bytes)
    ensures first == if offset == 0 && text != [] then 1 else offset
    ensures first == 0 || first > |Split(text)| ==> count == 0
    ensures 1 <= first <= |Split(text)| ==>
      count == if length < |Split(text)| - first + 1 then length else |Split(text)| - first + 1
  {
    SelectionIs(text, offset, length);
    if text == [] {
      assert Split(text) == [];
      return [], offset, 0;
    }
    var starts := LineStarts(text);
    var target := Target(offset);
    if target >= |starts| {
      return [], offset, 0;
    }
    LinesFit(text);
    var endLine := Min(Min(target + length, U64_MAX), |starts|);
    var startByte := starts[target];
    StreamBytes(text, target, endLine);
    WholeText(text);
    var endByte := if endLine < |starts| then starts[endLine] else |text|;
    bytes, first, count := text[startByte..endByte], target + 1, endLine - target;
  }

  lemma WholeText(text: Text)
    ensures |Concat(Split(text)[..|Split(text)|])| == |text|
  {
    SplitLines(text);
    assert Split(text)[..|Split(text)|] == Split(text);
  }

  /** A text has no more lines than bytes. */
  lemma {:induction false} LinesFit(text: Text)
    ensures |Split(text)| <= |text|
    decreases |text|
  {
    if text != [] {
      LinesFit(text[FirstLine(text)..]);
    }
  }

  // ---- Both ----

  /** What a request for lines of a retained result may ask. */
  predicate Accepted(offset: nat, length: nat) {
    offset >= 1 && 1 <= length <= 1_000_000
  }

  /**
   Both selectors on the same request: the same bytes, except exactly when no
   lines at all are asked for from the first line of a nonempty text. Validated
   requests for retained results always ask for some.
   */
  method SelectBoth(text: Text, offset: nat, length: nat) returns (streamed: Text, indexed: Text)
    requires |text| <= U64_MAX && offset <= U64_MAX && length <= U64_MAX
    ensures streamed == indexed <==> !AsksForNone(text, offset, length)
    ensures Accepted(offset, length) ==> streamed == indexed && LinesFrom(text, offset, length, streamed)
  {
    var r := SelectStreaming(text, offset, length, k => false);
    assert r.Selected?;
    streamed := r.slice.bytes;
    var first, count;
    indexed, first, count := SelectIndexed(text, offset, length);
    if AsksForNone(text, offset, length) {
      NoLines(text);
    }
  }

  lemma NoLines(text: Text)
    requires text != []
    ensures Split(text)[0] != [] && Selection(text, 0, 0) == []
  {
    NoneSelected(text, 0);
  }
}
