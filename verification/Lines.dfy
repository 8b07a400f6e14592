/**
 LF-terminated lines: the `split_inclusive('\n')` view of a text, and the
 byte-offset table (`LineLayout`) the reducers index it with.
 */
module Lines {
  import opened Bytes

  /** Length of the first line of `text`, its LF included. */
  function FirstLine(text: Text): (k: nat)
    requires text != []
    ensures 1 <= k <= |text|
    ensures forall p :: 0 <= p < k - 1 ==> text[p] != LF
    ensures k < |text| ==> text[k - 1] == LF
  {
    if text[0] == LF || |text| == 1 then 1 else 1 + FirstLine(text[1..])
  }

  /** The lines of `text`, each with its LF; only the last may lack one. */
  function Split(text: Text): (lines: seq<Text>)
    decreases |text|
  {
    if text == [] then []
    else var k := FirstLine(text); [text[..k]] + Split(text[k..])
  }

  /** A nonempty line whose only LF is its last byte. */
  predicate Complete(line: Text) {
    line != [] && line[|line| - 1] == LF && forall p :: 0 <= p < |line| - 1 ==> line[p] != LF
  }

  /** A nonempty line without LF: an unterminated tail. */
  predicate Tail(line: Text) {
    line != [] && forall p :: 0 <= p < |line| ==> line[p] != LF
  }

  predicate AllComplete(lines: seq<Text>) {
    forall i :: 0 <= i < |lines| ==> Complete(lines[i])
  }

  /** What a list of lines split from a text looks like. */
  predicate LineList(lines: seq<Text>) {
    forall i :: 0 <= i < |lines| ==> Complete(lines[i]) || (i == |lines| - 1 && Tail(lines[i]))
  }

  lemma FirstLineShape(text: Text)
    requires text != []
    ensures var k := FirstLine(text); Complete(text[..k]) || (k == |text| && Tail(text[..k]))
  {
    LineShape(text, FirstLine(text));
  }

  lemma LineShape(text: Text, k: nat)
    requires 1 <= k <= |text| && (forall p :: 0 <= p < k - 1 ==> text[p] != LF) && (k < |text| ==> text[k - 1] == LF)
    ensures Complete(text[..k]) || (k == |text| && Tail(text[..k]))
  {
    var line := text[..k];
    if text[k - 1] == LF {
      assert Complete(line);
    } else {
      assert Tail(line);
    }
  }

  lemma {:induction false} SplitLines(text: Text)
    ensures LineList(Split(text))
    ensures Concat(Split(text)) == text
    decreases |text|
  {
    if text != [] {
      var k := FirstLine(text);
      FirstLineShape(text);
      SplitLines(text[k..]);
      ConsLine(text, k, Split(text[k..]));
    }
  }

  lemma ConsLine(text: Text, k: nat, rest: seq<Text>)
    requires 1 <= k <= |text| && (Complete(text[..k]) || (k == |text| && Tail(text[..k])))
    requires LineList(rest) && Concat(rest) == text[k..] && (k == |text| ==> rest == [])
    ensures LineList([text[..k]] + rest) && Concat([text[..k]] + rest) == text
  {
    var lines := [text[..k]] + rest;
    assert lines[1..] == rest;
    assert text == text[..k] + text[k..];
    forall i | 0 <= i < |lines| ensures Complete(lines[i]) || (i == |lines| - 1 && Tail(lines[i])) {
      if i > 0 {
        assert lines[i] == rest[i - 1];
      }
    }
  }

  lemma {:induction false} FirstLineOf(line: Text, rest: Text)
    requires Complete(line) || (Tail(line) && rest == [])
    ensures FirstLine(line + rest) == |line|
  {
    if |line| > 1 {
      assert (line + rest)[1..] == line[1..] + rest;
      FirstLineOf(line[1..], rest);
    }
  }

  /** A text has only one division into lines: splitting undoes concatenation. */
  lemma {:induction false} SplitConcat(lines: seq<Text>)
    requires LineList(lines)
    ensures Split(Concat(lines)) == lines
  {
    if lines != [] {
      var rest := Concat(lines[1..]);
      assert |lines| == 1 ==> rest == [];
      FirstLineOf(lines[0], rest);
      assert (lines[0] + rest)[..|lines[0]|] == lines[0];
      assert (lines[0] + rest)[|lines[0]|..] == rest;
      SplitConcat(lines[1..]);
    }
  }

  /** Blocks of complete lines are equal as bytes exactly when equal line by line. */
  lemma ConcatInjective(a: seq<Text>, b: seq<Text>)
    requires AllComplete(a) && AllComplete(b)
    ensures Concat(a) == Concat(b) <==> a == b
  {
    SplitConcat(a);
    SplitConcat(b);
  }

  /** Splitting distributes over a cut that falls right after an LF. */
  lemma SplitAppend(a: Text, b: Text)
    requires a == [] || a[|a| - 1] == LF
    ensures Split(a + b) == Split(a) + Split(b)
    ensures AllComplete(Split(a))
  {
    SplitLines(a);
    SplitLines(b);
    if a != [] {
      LastByte(Split(a));
    }
    ConcatAppend(Split(a), Split(b));
    SplitConcat(Split(a) + Split(b));
  }

  lemma {:induction false} LastByte(lines: seq<Text>)
    requires LineList(lines) && lines != []
    ensures Concat(lines) != []
    ensures Concat(lines)[|Concat(lines)| - 1] == lines[|lines| - 1][|lines[|lines| - 1]| - 1]
  {
    if |lines| == 1 {
      ConcatOne(lines[0]);
      assert lines == [lines[0]];
    } else {
      LastByte(lines[1..]);
    }
  }

  /** Each entry of `ends` is the byte offset just past that line. */
  predicate EndsOf(lines: seq<Text>, ends: seq<nat>) {
    |ends| == |lines| &&
    (lines == [] ||
      (var n := |lines| - 1; ends[n] == |Concat(lines)| && EndsOf(lines[..n], ends[..n])))
  }

  lemma {:induction false} EndsAt(lines: seq<Text>, ends: seq<nat>, i: nat)
    requires EndsOf(lines, ends) && i < |lines|
    ensures ends[i] == |Concat(lines[..i + 1])|
    decreases |lines|
  {
    var n := |lines| - 1;
    if i < n {
      EndsAt(lines[..n], ends[..n], i);
      assert lines[..n][..i + 1] == lines[..i + 1];
    } else {
      assert lines[..i + 1] == lines;
    }
  }

  lemma EndsAppend(lines: seq<Text>, ends: seq<nat>, line: Text)
    requires EndsOf(lines, ends)
    ensures EndsOf(lines + [line], ends + [|Concat(lines + [line])|])
  {
    var more, offsets := lines + [line], ends + [|Concat(lines + [line])|];
    assert more[..|lines|] == lines && offsets[..|lines|] == ends;
  }

  /** The first `n` lines are terminated. */
  predicate CompleteUpTo(lines: seq<Text>, n: nat)
    requires n <= |lines|
  {
    n == 0 || (Complete(lines[n - 1]) && CompleteUpTo(lines, n - 1))
  }

  lemma {:induction false} CompleteAt(lines: seq<Text>, n: nat, i: nat)
    requires n <= |lines| && CompleteUpTo(lines, n) && i < n
    ensures Complete(lines[i])
  {
    if i < n - 1 {
      CompleteAt(lines, n - 1, i);
    }
  }

  lemma {:induction false} CompleteFrom(lines: seq<Text>, n: nat)
    requires n <= |lines| && AllComplete(lines[..n])
    ensures CompleteUpTo(lines, n)
  {
    if n > 0 {
      var all, fewer := lines[..n], lines[..n - 1];
      assert lines[n - 1] == all[n - 1];
      forall i | 0 <= i < |fewer| ensures Complete(fewer[i]) {
        assert fewer[i] == all[i];
      }
      CompleteFrom(lines, n - 1);
    }
  }

  /** Byte offsets of line ends, with the count of LF-terminated lines first. */
  datatype LineLayout = LineLayout(text: Text, ends: seq<nat>, completeLines: nat) {
    /** The offsets describe exactly the lines of the text. */
    ghost predicate Valid() {
      var lines := Split(text);
      && completeLines <= |lines| <= completeLines + 1
      && CompleteUpTo(lines, completeLines)
      && (completeLines < |lines| ==> !Complete(lines[completeLines]))
      && EndsOf(lines, ends)
    }

    function LineStart(line: nat): (r: nat)
      requires line <= |ends|
    {
      if line == 0 then 0 else ends[line - 1]
    }

    lemma StartIs(line: nat)
      requires Valid() && line <= |ends|
      ensures LineStart(line) == |Concat(Split(text)[..line])|
    {
      if line > 0 {
        EndsAt(Split(text), ends, line - 1);
      } else {
        assert Split(text)[..0] == [];
      }
    }

    lemma SpanBounds(start: nat, lines: nat)
      requires Valid() && start + lines <= |ends|
      ensures LineStart(start) <= LineStart(start + lines) <= |text|
      ensures text[LineStart(start)..LineStart(start + lines)] == Concat(Split(text)[start..start + lines])
    {
      var all := Split(text);
      StartIs(start);
      StartIs(start + lines);
      ConcatSlice(all, start, start + lines);
      ConcatSlice(all, start + lines, |all|);
      SplitLines(text);
      assert all[..|all|] == all;
    }

    /** `span`: the bytes of `lines` consecutive lines. */
    function Span(start: nat, lines: nat): (r: Text)
      requires Valid() && lines >= 1 && start + lines <= |ends|
      ensures r == Concat(Split(text)[start..start + lines])
    {
      SpanBounds(start, lines);
      text[LineStart(start)..ends[start + lines - 1]]
    }

    /** `span_len`: their length, without touching the bytes. */
    function SpanLen(start: nat, lines: nat): (r: nat)
      requires Valid() && lines >= 1 && start + lines <= |ends|
      ensures r == |Concat(Split(text)[start..start + lines])|
    {
      SpanBounds(start, lines);
      ends[start + lines - 1] - LineStart(start)
    }

    /** `line`: one line. */
    function Line(i: nat): (r: Text)
      requires Valid() && i < |ends|
      ensures r == Split(text)[i]
    {
      ConcatOne(Split(text)[i]);
      assert Split(text)[i..i + 1] == [Split(text)[i]];
      Span(i, 1)
    }
  }

  /** Two valid layouts of one text are the same layout. */
  lemma LayoutUnique(a: LineLayout, b: LineLayout)
    requires a.Valid() && b.Valid() && a.text == b.text
    ensures a == b
  {
    var lines := Split(a.text);
    forall i | 0 <= i < |lines| ensures a.ends[i] == b.ends[i] {
      EndsAt(lines, a.ends, i);
      EndsAt(lines, b.ends, i);
    }
    if a.completeLines < b.completeLines {
      CompleteAt(lines, b.completeLines, a.completeLines);
    } else if b.completeLines < a.completeLines {
      CompleteAt(lines, a.completeLines, b.completeLines);
    }
  }

  /** One more terminated line after a text that ends in LF (or is empty). */
  lemma SplitSnoc(before: Text, line: Text)
    requires before == [] || before[|before| - 1] == LF
    requires Complete(line) || Tail(line)
    ensures Split(before + line) == Split(before) + [line]
    ensures AllComplete(Split(before))
    ensures Concat(Split(before) + [line]) == before + line
  {
    SplitAppend(before, line);
    ConcatOne(line);
    SplitConcat([line]);
    SplitLines(before + line);
  }

  /** `ends` holds the line ends of `text[..e]`, whose last byte, if any, is an LF. */
  ghost predicate Scanned(text: Text, ends: seq<nat>, e: nat) {
    && e <= |text|
    && (e > 0 ==> text[e - 1] == LF)
    && e == (if ends == [] then 0 else ends[|ends| - 1])
    && EndsOf(Split(text[..e]), ends)
  }

  lemma ScanLine(text: Text, ends: seq<nat>, e: nat, p: nat)
    requires Scanned(text, ends, e) && e <= p < |text| && text[p] == LF
    requires forall q :: e <= q < p ==> text[q] != LF
    ensures Scanned(text, ends + [p + 1], p + 1)
  {
    NextLine(text, e, p);
    EndsAppend(Split(text[..e]), ends, text[e..p + 1]);
  }

  lemma NextLine(text: Text, e: nat, p: nat)
    requires e <= p < |text| && text[p] == LF && (e > 0 ==> text[e - 1] == LF)
    requires forall q :: e <= q < p ==> text[q] != LF
    ensures Split(text[..p + 1]) == Split(text[..e]) + [text[e..p + 1]]
    ensures |Concat(Split(text[..e]) + [text[e..p + 1]])| == p + 1
  {
    LineBetween(text, e, p);
    SnocLine(text[..e], text[e..p + 1]);
    assert text[..p + 1] == text[..e] + text[e..p + 1];
  }

  lemma SnocLine(before: Text, line: Text)
    requires (before == [] || before[|before| - 1] == LF) && Complete(line)
    ensures Split(before + line) == Split(before) + [line]
    ensures |Concat(Split(before) + [line])| == |before| + |line|
  {
    SplitSnoc(before, line);
  }

  lemma LineBetween(text: Text, e: nat, p: nat)
    requires e <= p < |text| && text[p] == LF
    requires forall q :: e <= q < p ==> text[q] != LF
    ensures Complete(text[e..p + 1])
  {
    var line := text[e..p + 1];
    assert line[|line| - 1] == LF;
  }

  lemma ScanEnd(text: Text, ends: seq<nat>, e: nat)
    requires Scanned(text, ends, e)
    requires forall q :: e <= q < |text| ==> text[q] != LF
    ensures e == |text| ==> LineLayout(text, ends, |ends|).Valid()
    ensures e < |text| ==> LineLayout(text, ends + [|text|], |ends|).Valid()
  {
    assert text == text[..e] + text[e..];
    var before := Split(text[..e]);
    SplitAppend(text[..e], []);
    assert text[..e] + [] == text[..e] && before[..|before|] == before;
    CompleteFrom(before, |before|);
    if e == |text| {
      assert text[..e] == text;
    } else {
      SplitSnoc(text[..e], text[e..]);
      EndsAppend(before, ends, text[e..]);
      assert (before + [text[e..]])[..|before|] == before;
      CompleteFrom(before + [text[e..]], |before|);
      assert !Complete(text[e..]);
    }
  }

  /** `LineLayout::new`: one pass over the text. */
  method NewLayout(text: Text) returns (layout: LineLayout)
    ensures layout.Valid() && layout.text == text
  {
    var ends: seq<nat> := [];
    var p := 0;
    ghost var e := 0;
    while p < |text|
      invariant e <= p <= |text|
      invariant forall q :: e <= q < p ==> text[q] != LF
      invariant Scanned(text, ends, e)
    {
      if text[p] == LF {
        ScanLine(text, ends, e, p);
        ends := ends + [p + 1];
        e := p + 1;
      }
      p := p + 1;
    }
    var complete := |ends|;
    ScanEnd(text, ends, e);
    if text != [] && (ends == [] || ends[|ends| - 1] != |text|) {
      ends := ends + [|text|];
    }
    layout := LineLayout(text, ends, complete);
  }
}
