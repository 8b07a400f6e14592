/** `collapse_repeated_lines`: run-length encoding of lines, computed in partitions and merged. */
module LineRuns {
  import opened Bytes
  import opened Lines

  /** `count` equal lines from line `line` on. */
  datatype Run = Run(line: nat, count: nat) {
    function End(): (r: nat) { line + count }
  }

  ghost predicate Uniform(lines: seq<Text>, run: Run) {
    && run.count >= 1 && run.End() <= |lines|
    && forall k :: run.line <= k < run.End() ==> lines[k] == lines[run.line]
  }

  /** The runs follow each other from line `a` to line `b`. */
  ghost predicate Chained(runs: seq<Run>, a: nat, b: nat) {
    && (runs == [] ==> a == b)
    && (runs != [] ==> runs[0].line == a && runs[|runs| - 1].End() == b)
    && (forall i :: 0 < i < |runs| ==> runs[i].line == runs[i - 1].End())
  }

  /** The run-length encoding of lines `a` to `b`: equal lines within runs, a change between them. */
  ghost predicate Encodes(lines: seq<Text>, runs: seq<Run>, a: nat, b: nat) {
    && Chained(runs, a, b)
    && (forall i :: 0 <= i < |runs| ==> Uniform(lines, runs[i]))
    && (forall i :: 0 < i < |runs| ==> lines[runs[i].line] != lines[runs[i - 1].line])
  }

  /** A run ends where its lines stop being equal, or at the end. */
  lemma RunMaximal(lines: seq<Text>, runs: seq<Run>, a: nat, b: nat, i: nat)
    requires Encodes(lines, runs, a, b) && i < |runs|
    ensures runs[i].End() <= b
    ensures runs[i].End() < b ==> i + 1 < |runs| && lines[runs[i].End()] != lines[runs[i].line]
    ensures runs[i].End() == b ==> i + 1 == |runs|
  {
    EndsGrow(lines, runs, a, b, i);
    assert i + 1 < |runs| ==> lines[runs[i + 1].line] != lines[runs[(i + 1) - 1].line];
  }

  lemma {:induction false} EndsGrow(lines: seq<Text>, runs: seq<Run>, a: nat, b: nat, i: nat)
    requires Encodes(lines, runs, a, b) && i < |runs|
    ensures runs[i].End() <= b && (i + 1 < |runs| ==> runs[i].End() < b)
    decreases |runs| - i
  {
    if i + 1 < |runs| {
      EndsGrow(lines, runs, a, b, i + 1);
      assert Uniform(lines, runs[i + 1]);
    }
  }

  /** Two encodings of the same lines agree run by run. */
  lemma {:induction false} RunsAgree(lines: seq<Text>, r: seq<Run>, s: seq<Run>, a: nat, b: nat, i: nat)
    requires Encodes(lines, r, a, b) && Encodes(lines, s, a, b) && i < |r|
    ensures i < |s| && r[i] == s[i]
  {
    if i > 0 {
      RunsAgree(lines, r, s, a, b, i - 1);
      RunMaximal(lines, r, a, b, i - 1);
      RunMaximal(lines, s, a, b, i - 1);
    } else {
      EndsGrow(lines, r, a, b, 0);
      assert Uniform(lines, r[0]);
    }
    assert r[i].line == s[i].line;
    RunMaximal(lines, r, a, b, i);
    RunMaximal(lines, s, a, b, i);
    assert Uniform(lines, r[i]) && Uniform(lines, s[i]);
  }

  /** The encoding is unique. */
  lemma EncodingUnique(lines: seq<Text>, r: seq<Run>, s: seq<Run>, a: nat, b: nat)
    requires Encodes(lines, r, a, b) && Encodes(lines, s, a, b)
    ensures r == s
  {
    if |s| < |r| {
      RunsAgree(lines, r, s, a, b, |s|);
    } else if |r| < |s| {
      RunsAgree(lines, s, r, a, b, |r|);
    } else {
      forall i | 0 <= i < |r| ensures r[i] == s[i] {
        RunsAgree(lines, r, s, a, b, i);
      }
    }
  }

  /** Adds a run: equal to the last line, it lengthens the last run; otherwise it starts a new one. */
  function Push(lines: seq<Text>, runs: seq<Run>, run: Run): (r: seq<Run>)
    requires run.line < |lines| && forall i :: 0 <= i < |runs| ==> runs[i].line < |lines|
  {
    if runs != [] && lines[runs[|runs| - 1].line] == lines[run.line] then
      var last := runs[|runs| - 1];
      runs[|runs| - 1 := Run(last.line, last.count + run.count)]
    else runs + [run]
  }

  lemma PushEncodes(lines: seq<Text>, runs: seq<Run>, a: nat, run: Run)
    requires Encodes(lines, runs, a, run.line) && Uniform(lines, run)
    ensures forall i :: 0 <= i < |runs| ==> runs[i].line < |lines|
    ensures Encodes(lines, Push(lines, runs, run), a, run.End())
  {
    forall i | 0 <= i < |runs| ensures runs[i].line < |lines| {
      assert Uniform(lines, runs[i]);
    }
    if runs != [] && lines[runs[|runs| - 1].line] == lines[run.line] {
      ExtendEncodes(lines, runs, a, run);
    } else {
      AppendEncodes(lines, runs, a, run);
    }
  }

  lemma ExtendEncodes(lines: seq<Text>, runs: seq<Run>, a: nat, run: Run)
    requires Encodes(lines, runs, a, run.line) && Uniform(lines, run) && runs != []
    requires var last := runs[|runs| - 1]; last.line < |lines| && lines[last.line] == lines[run.line]
    ensures var last := runs[|runs| - 1];
      Encodes(lines, runs[|runs| - 1 := Run(last.line, last.count + run.count)], a, run.End())
  {
    var last := runs[|runs| - 1];
    var next := runs[|runs| - 1 := Run(last.line, last.count + run.count)];
    assert Uniform(lines, last);
    forall i | 0 <= i < |next| ensures Uniform(lines, next[i]) {
      assert Uniform(lines, runs[i]);
    }
  }

  lemma AppendEncodes(lines: seq<Text>, runs: seq<Run>, a: nat, run: Run)
    requires Encodes(lines, runs, a, run.line) && Uniform(lines, run)
    requires forall i :: 0 <= i < |runs| ==> runs[i].line < |lines|
    requires runs != [] ==> lines[runs[|runs| - 1].line] != lines[run.line]
    ensures Encodes(lines, runs + [run], a, run.End())
  {
  }

  /** `local_runs`: one partition, line by line. */
  method LocalRuns(lines: seq<Text>, a: nat, b: nat) returns (runs: seq<Run>)
    requires a <= b <= |lines|
    ensures Encodes(lines, runs, a, b)
  {
    runs := [];
    for i := a to b
      invariant Encodes(lines, runs, a, i)
    {
      PushEncodes(lines, runs, a, Run(i, 1));
      runs := Push(lines, runs, Run(i, 1));
    }
  }

  /** `merge_runs`: for any contiguous partitions, merging gives the encoding of the whole. */
  method MergeRuns(lines: seq<Text>, partitions: seq<seq<Run>>, ghost cuts: seq<nat>) returns (merged: seq<Run>)
    requires |cuts| == |partitions| + 1
    requires forall p :: 0 <= p < |partitions| ==> Encodes(lines, partitions[p], cuts[p], cuts[p + 1])
    ensures Encodes(lines, merged, cuts[0], cuts[|partitions|])
  {
    merged := [];
    for p := 0 to |partitions|
      invariant Encodes(lines, merged, cuts[0], cuts[p])
    {
      var part := partitions[p];
      for i := 0 to |part|
        invariant Encodes(lines, merged, cuts[0], if i == 0 then cuts[p] else part[i - 1].End())
      {
        assert Encodes(lines, part, cuts[p], cuts[p + 1]);
        assert Uniform(lines, part[i]);
        PushEncodes(lines, merged, cuts[0], part[i]);
        merged := Push(lines, merged, part[i]);
      }
      assert Encodes(lines, part, cuts[p], cuts[p + 1]);
    }
  }

  // ---- The projection ----

  datatype RepeatedLineReduction = RepeatedLineReduction(text: Text, collapsedRuns: nat, omittedLines: int)

  /** `×N` and LF, with `×` the two bytes C3 97. */
  function RunMarker(count: nat): (r: Text) {
    [0xC3, 0x97] + Decimal(count) + [LF]
  }

  /** The count a marker shows. */
  function RunRead(marker: Text): (r: int)
    requires |marker| >= 3
  {
    Value(marker[2..|marker| - 1])
  }

  /** A marker is `×`, the number of lines in the run, and LF. */
  lemma RunShows(count: nat)
    ensures var m := RunMarker(count);
      |m| >= 3 && m[..2] == [0xC3, 0x97] && m[|m| - 1] == 10 && RunRead(m) == count
  {
    var m := RunMarker(count);
    assert m[2..|m| - 1] == Decimal(count);
    DecimalValue(count);
  }

  /** The run is written as one line and a marker. */
  predicate Collapses(lines: seq<Text>, run: Run)
    requires run.line < |lines|
  {
    var line := lines[run.line];
    run.count > 1 && line != [] && line[|line| - 1] == LF && |RunMarker(run.count)| < |line| * (run.count - 1)
  }

  function EncodedRun(lines: seq<Text>, run: Run): (r: Text)
    requires run.line < |lines|
  {
    if Collapses(lines, run) then lines[run.line] + RunMarker(run.count) else Repeat(lines[run.line], run.count)
  }

  ghost predicate Inside(lines: seq<Text>, runs: seq<Run>) {
    forall i :: 0 <= i < |runs| ==> runs[i].line < |lines|
  }

  /** What the reducer reports for these runs. */
  ghost function Reported(lines: seq<Text>, runs: seq<Run>): (r: RepeatedLineReduction)
    requires Inside(lines, runs)
  {
    if runs == [] then RepeatedLineReduction([], 0, 0)
    else
      var front, last := runs[..|runs| - 1], runs[|runs| - 1];
      var r := Reported(lines, front);
      RepeatedLineReduction(r.text + EncodedRun(lines, last),
        r.collapsedRuns + (if Collapses(lines, last) then 1 else 0),
        r.omittedLines + (if Collapses(lines, last) then last.count - 1 else 0))
  }

  /** The lines that remain visible. */
  ghost function KeptLines(lines: seq<Text>, runs: seq<Run>): (r: nat)
    requires Inside(lines, runs)
  {
    if runs == [] then 0
    else
      var last := runs[|runs| - 1];
      KeptLines(lines, runs[..|runs| - 1]) + (if Collapses(lines, last) then 1 else last.count)
  }

  /** Writing every run out in full. */
  ghost function Expanded(lines: seq<Text>, runs: seq<Run>): (r: Text)
    requires Inside(lines, runs)
  {
    if runs == [] then []
    else Expanded(lines, runs[..|runs| - 1]) + Repeat(lines[runs[|runs| - 1].line], runs[|runs| - 1].count)
  }

  lemma RunSavesBytes(lines: seq<Text>, run: Run)
    requires Uniform(lines, run)
    ensures |EncodedRun(lines, run)| + (if Collapses(lines, run) then 1 else 0) <= |Repeat(lines[run.line], run.count)|
  {
    var line := lines[run.line];
    RepeatLength(line, run.count);
    assert run.count * |line| == |line| + |line| * (run.count - 1);
  }

  lemma UniformBytes(lines: seq<Text>, run: Run)
    requires Uniform(lines, run)
    ensures Concat(lines[run.line..run.End()]) == Repeat(lines[run.line], run.count)
  {
    RepeatConcat(lines[run.line..run.End()], lines[run.line]);
  }

  lemma FrontEncodes(lines: seq<Text>, runs: seq<Run>, a: nat, b: nat)
    requires Encodes(lines, runs, a, b) && runs != []
    ensures var last := runs[|runs| - 1];
      a <= last.line && last.End() == b && Uniform(lines, last) && Encodes(lines, runs[..|runs| - 1], a, last.line)
    ensures Inside(lines, runs)
  {
    forall i | 0 <= i < |runs| ensures runs[i].line < |lines| {
      assert Uniform(lines, runs[i]);
    }
    StartsGrow(lines, runs, a, b, |runs| - 1);
  }

  lemma {:induction false} StartsGrow(lines: seq<Text>, runs: seq<Run>, a: nat, b: nat, i: nat)
    requires Encodes(lines, runs, a, b) && i < |runs|
    ensures a <= runs[i].line
  {
    if i > 0 {
      StartsGrow(lines, runs, a, b, i - 1);
    }
  }

  /**
   Expanding the runs restores the lines; the projection is shorter by at least
   a byte per collapsed run; omitted and kept lines add up to the source lines.
   */
  lemma {:induction false} RunsAreFaithful(lines: seq<Text>, runs: seq<Run>, a: nat, b: nat)
    requires a <= |lines| && Encodes(lines, runs, a, b)
    ensures Inside(lines, runs) && a <= b <= |lines|
    ensures Expanded(lines, runs) == Concat(lines[a..b])
    ensures |Reported(lines, runs).text| + Reported(lines, runs).collapsedRuns <= |Expanded(lines, runs)|
    ensures Reported(lines, runs).omittedLines + KeptLines(lines, runs) == b - a
  {
    if runs == [] {
      assert lines[a..b] == [];
    } else {
      var last := runs[|runs| - 1];
      FrontEncodes(lines, runs, a, b);
      RunsAreFaithful(lines, runs[..|runs| - 1], a, last.line);
      RunSavesBytes(lines, last);
      UniformBytes(lines, last);
      SliceBytes(lines, a, last.line, b);
    }
  }

  lemma SliceBytes(lines: seq<Text>, a: nat, m: nat, b: nat)
    requires a <= m <= b <= |lines|
    ensures Concat(lines[a..b]) == Concat(lines[a..m]) + Concat(lines[m..b])
  {
    assert lines[a..b] == lines[a..m] + lines[m..b];
    ConcatAppend(lines[a..m], lines[m..b]);
  }

  /** `encode_runs`. */
  method EncodeRuns(lines: seq<Text>, runs: seq<Run>) returns (r: RepeatedLineReduction)
    requires Inside(lines, runs)
    ensures r == Reported(lines, runs)
  {
    var output: Text, collapsed: nat, omitted: int := [], 0, 0;
    for i := 0 to |runs|
      invariant RepeatedLineReduction(output, collapsed, omitted) == Reported(lines, runs[..i])
    {
      assert runs[..i + 1][..i] == runs[..i];
      var run := runs[i];
      var line := lines[run.line];
      var marker := RunMarker(run.count);
      if run.count == 1 {
        assert Repeat(line, 1) == line + Repeat(line, 0);
        output := output + line;
      } else if line != [] && line[|line| - 1] == LF && run.count > 1 && |marker| < |line| * (run.count - 1) {
        output := output + (line + marker);
        collapsed, omitted := collapsed + 1, omitted + (run.count - 1);
      } else {
        var copies := WriteCopies(line, run.count);
        output := output + copies;
      }
    }
    assert runs[..|runs|] == runs;
    r := RepeatedLineReduction(output, collapsed, omitted);
  }

  method WriteCopies(line: Text, count: nat) returns (r: Text)
    ensures r == Repeat(line, count)
  {
    r := [];
    for i := 0 to count
      invariant r == Repeat(line, i)
    {
      RepeatAppend(line, i, 1);
      assert Repeat(line, 1) == line + Repeat(line, 0);
      r := r + line;
    }
  }

  /** `collapse_repeated_lines`, for any partition size and parallel threshold. */
  method CollapseRepeatedLines(text: Text, threshold: nat, partitionLines: nat)
    returns (r: RepeatedLineReduction, ghost runs: seq<Run>)
    requires partitionLines >= 1
    ensures Encodes(Split(text), runs, 0, |Split(text)|) && Inside(Split(text), runs)
    ensures r == Reported(Split(text), runs)
    ensures |r.text| + r.collapsedRuns <= |text| && Expanded(Split(text), runs) == text
    ensures r.omittedLines == |Split(text)| - KeptLines(Split(text), runs)
  {
    var lines := Split(text);
    SplitLines(text);
    var whole: seq<Run>;
    if |lines| < 2 {
      whole := LocalRuns(lines, 0, |lines|);
      runs := whole;
      ShortRuns(lines, runs);
      r := RepeatedLineReduction(text, 0, 0);
    } else {
      whole := PartitionedRuns(lines, threshold, partitionLines);
      runs := whole;
      RunsAreFaithful(lines, whole, 0, |lines|);
      r := EncodeRuns(lines, whole);
    }
    RunsAreFaithful(lines, runs, 0, |lines|);
    assert lines[0..|lines|] == lines;
  }

  method PartitionedRuns(lines: seq<Text>, threshold: nat, partitionLines: nat) returns (runs: seq<Run>)
    requires partitionLines >= 1
    ensures Encodes(lines, runs, 0, |lines|)
  {
    var partitions: seq<seq<Run>> := [];
    ghost var cuts: seq<nat> := [0];
    if |lines| >= threshold {
      var start := 0;
      while start < |lines|
        invariant start <= |lines| && |cuts| == |partitions| + 1 && cuts[0] == 0 && cuts[|partitions|] == start
        invariant forall p :: 0 <= p < |partitions| ==> Encodes(lines, partitions[p], cuts[p], cuts[p + 1])
      {
        var end := if start + partitionLines < |lines| then start + partitionLines else |lines|;
        var part := LocalRuns(lines, start, end);
        partitions, cuts, start := partitions + [part], cuts + [end], end;
      }
    } else {
      var part := LocalRuns(lines, 0, |lines|);
      partitions, cuts := [part], [0, |lines|];
    }
    runs := MergeRuns(lines, partitions, cuts);
  }

  lemma ShortRuns(lines: seq<Text>, runs: seq<Run>)
    requires |lines| < 2 && Encodes(lines, runs, 0, |lines|)
    ensures Inside(lines, runs) && Reported(lines, runs) == RepeatedLineReduction(Concat(lines), 0, 0)
  {
    RunsAreFaithful(lines, runs, 0, |lines|);
    if |lines| == 1 {
      var whole := [Run(0, 1)];
      assert Uniform(lines, whole[0]);
      EncodingUnique(lines, runs, whole, 0, 1);
      assert whole[..0] == [];
      assert Reported(lines, whole).text == Reported(lines, []).text + EncodedRun(lines, Run(0, 1));
      assert Repeat(lines[0], 1) == lines[0] + Repeat(lines[0], 0);
      ConcatOne(lines[0]);
      assert lines == [lines[0]];
    }
  }
}
