/**
 Snapshot deltas: a two-cursor walk over two manifests, each strictly sorted
 by the bytes of its paths.
 */
module Snapshot {
  import opened Bytes
  import opened Wrappers

  type Path = Text

  datatype FileKind = File | Directory | Symlink | Other

  datatype Entry = Entry(path: Path, kind: FileKind, size: nat, digest: Option<Text>)

  datatype ChangeKind = Added | Removed | Modified

  datatype Change = Change(kind: ChangeKind, entry: Entry)

  // ---- The order of paths ----

  predicate Less(a: Path, b: Path) {
    b != [] && (a == [] || a[0] < b[0] || (a[0] == b[0] && Less(a[1..], b[1..])))
  }

  /** `a` comes first: at the first difference it has the smaller byte, or it has ended. */
  ghost predicate DiffersAt(a: Path, b: Path, i: nat) {
    && i <= |a| && i < |b| && a[..i] == b[..i]
    && (i == |a| || a[i] < b[i])
  }

  /** The order is that of byte strings. */
  lemma {:induction false} LessMeans(a: Path, b: Path)
    ensures Less(a, b) <==> exists i: nat :: DiffersAt(a, b, i)
    decreases |a|
  {
    if Less(a, b) {
      var i := LessWitness(a, b);
    }
    if i: nat :| DiffersAt(a, b, i) {
      WitnessLess(a, b, i);
    }
  }

  lemma {:induction false} LessWitness(a: Path, b: Path) returns (i: nat)
    requires Less(a, b)
    ensures DiffersAt(a, b, i)
  {
    if a == [] || a[0] < b[0] {
      i := 0;
    } else {
      var j := LessWitness(a[1..], b[1..]);
      i := j + 1;
      assert a[..i] == [a[0]] + a[1..][..j] && b[..i] == [b[0]] + b[1..][..j];
    }
  }

  lemma {:induction false} WitnessLess(a: Path, b: Path, i: nat)
    requires DiffersAt(a, b, i)
    ensures Less(a, b)
    decreases i
  {
    if i > 0 {
      assert a[..i][0] == b[..i][0];
      assert a[1..][..i - 1] == a[..i][1..] && b[1..][..i - 1] == b[..i][1..];
      WitnessLess(a[1..], b[1..], i - 1);
    }
  }

  lemma {:induction false} LessIrreflexive(a: Path)
    ensures !Less(a, a)
  {
    if a != [] {
      LessIrreflexive(a[1..]);
    }
  }

  lemma {:induction false} LessTransitive(a: Path, b: Path, c: Path)
    requires Less(a, b) && Less(b, c)
    ensures Less(a, c)
  {
    if a != [] && a[0] == b[0] && b[0] == c[0] {
      LessTransitive(a[1..], b[1..], c[1..]);
    }
  }

  lemma {:induction false} LessTotal(a: Path, b: Path)
    ensures Less(a, b) || Less(b, a) || a == b
  {
    if a != [] && b != [] && a[0] == b[0] {
      LessTotal(a[1..], b[1..]);
      assert a == [a[0]] + a[1..] && b == [b[0]] + b[1..];
    }
  }

  /** Strictly increasing paths. */
  ghost predicate Sorted(entries: seq<Entry>) {
    forall i, j :: 0 <= i < j < |entries| ==> Less(entries[i].path, entries[j].path)
  }

  ghost predicate SortedChanges(changes: seq<Change>) {
    forall i, j :: 0 <= i < j < |changes| ==> Less(changes[i].entry.path, changes[j].entry.path)
  }

  // ---- What a delta is ----

  ghost predicate HasPath(entries: seq<Entry>, path: Path) {
    exists e :: e in entries && e.path == path
  }

  /** `c` says rightly how its path differs between the two manifests. */
  ghost predicate Differs(c: Change, baseline: seq<Entry>, current: seq<Entry>) {
    match c.kind
    case Added => c.entry in current && !HasPath(baseline, c.entry.path)
    case Removed => c.entry in baseline && !HasPath(current, c.entry.path)
    case Modified => c.entry in current && HasPath(baseline, c.entry.path) && c.entry !in baseline
  }

  /** The changes are exactly the differences. */
  ghost predicate Exact(changes: seq<Change>, baseline: seq<Entry>, current: seq<Entry>) {
    forall c :: c in changes <==> Differs(c, baseline, current)
  }

  /** Every path comes before `path`. */
  ghost predicate Before(entries: seq<Entry>, path: Path) {
    forall e :: e in entries ==> Less(e.path, path)
  }

  lemma BeforeAbsent(entries: seq<Entry>, path: Path)
    requires Before(entries, path)
    ensures !HasPath(entries, path)
  {
    LessIrreflexive(path);
  }

  lemma HasPathSnoc(entries: seq<Entry>, e: Entry, path: Path)
    ensures HasPath(entries + [e], path) <==> HasPath(entries, path) || e.path == path
  {
    assert e in entries + [e];
    if HasPath(entries, path) {
      var x :| x in entries && x.path == path;
      assert x in entries + [e];
    }
  }

  lemma AddStep(changes: seq<Change>, b: seq<Entry>, c: seq<Entry>, e: Entry)
    requires Exact(changes, b, c) && Before(b, e.path) && Before(c, e.path)
    ensures Exact(changes + [Change(Added, e)], b, c + [e])
  {
    BeforeAbsent(b, e.path);
    forall x: Change ensures x in changes + [Change(Added, e)] <==> Differs(x, b, c + [e]) {
      HasPathSnoc(c, e, x.entry.path);
      LessIrreflexive(e.path);
      assert x in changes <==> Differs(x, b, c);
    }
  }

  lemma RemoveStep(changes: seq<Change>, b: seq<Entry>, c: seq<Entry>, e: Entry)
    requires Exact(changes, b, c) && Before(b, e.path) && Before(c, e.path)
    ensures Exact(changes + [Change(Removed, e)], b + [e], c)
  {
    BeforeAbsent(c, e.path);
    forall x: Change ensures x in changes + [Change(Removed, e)] <==> Differs(x, b + [e], c) {
      HasPathSnoc(b, e, x.entry.path);
      LessIrreflexive(e.path);
      assert x in changes <==> Differs(x, b, c);
    }
  }

  lemma MeetStep(changes: seq<Change>, b: seq<Entry>, c: seq<Entry>, l: Entry, r: Entry)
    requires Exact(changes, b, c) && Before(b, r.path) && Before(c, r.path) && l.path == r.path
    ensures Exact(if l == r then changes else changes + [Change(Modified, r)], b + [l], c + [r])
  {
    var now := if l == r then changes else changes + [Change(Modified, r)];
    BeforeAbsent(b, r.path);
    BeforeAbsent(c, r.path);
    forall x: Change ensures x in now <==> Differs(x, b + [l], c + [r]) {
      HasPathSnoc(b, l, x.entry.path);
      HasPathSnoc(c, r, x.entry.path);
      assert x in changes <==> Differs(x, b, c);
      if x.entry.path == r.path {
        AtMeeting(changes, b, c, x);
      }
    }
  }

  /** Nothing is said yet about a path behind both prefixes. */
  lemma AtMeeting(changes: seq<Change>, b: seq<Entry>, c: seq<Entry>, x: Change)
    requires Exact(changes, b, c) && !HasPath(b, x.entry.path) && !HasPath(c, x.entry.path)
    ensures x !in changes && x.entry !in b && x.entry !in c
  {
    assert x in changes <==> Differs(x, b, c);
  }

  /** Changes found so far lie before any path that both prefixes lie before. */
  lemma ChangesBefore(changes: seq<Change>, b: seq<Entry>, c: seq<Entry>, path: Path, x: Change)
    requires SortedChanges(changes) && Exact(changes, b, c) && Before(b, path) && Before(c, path) && x.entry.path == path
    ensures SortedChanges(changes + [x])
  {
    forall i | 0 <= i < |changes| ensures Less(changes[i].entry.path, path) {
      assert changes[i] in changes;
      assert Differs(changes[i], b, c);
    }
  }

  // ---- The walk ----

  /** What is behind either cursor comes before what is ahead of either. */
  ghost predicate Frontier(baseline: seq<Entry>, current: seq<Entry>, before: nat, after: nat) {
    && before <= |baseline| && after <= |current|
    && (forall i, j :: 0 <= i < before && after <= j < |current| ==> Less(baseline[i].path, current[j].path))
    && (forall i, j :: 0 <= i < after && before <= j < |baseline| ==> Less(current[i].path, baseline[j].path))
  }

  lemma FrontierBefore(baseline: seq<Entry>, current: seq<Entry>, before: nat, after: nat)
    requires Sorted(baseline) && Sorted(current) && Frontier(baseline, current, before, after)
    ensures before < |baseline| ==>
      Before(baseline[..before], baseline[before].path) && Before(current[..after], baseline[before].path)
    ensures after < |current| ==>
      Before(baseline[..before], current[after].path) && Before(current[..after], current[after].path)
  {
  }

  /** The cursor at the lesser path moves. */
  lemma AdvanceBaseline(baseline: seq<Entry>, current: seq<Entry>, before: nat, after: nat)
    requires Sorted(baseline) && Sorted(current) && Frontier(baseline, current, before, after) && before < |baseline|
    requires after < |current| ==> Less(baseline[before].path, current[after].path)
    ensures Frontier(baseline, current, before + 1, after)
  {
    forall j | after < j < |current| ensures Less(baseline[before].path, current[j].path) {
      LessTransitive(baseline[before].path, current[after].path, current[j].path);
    }
  }

  lemma AdvanceCurrent(baseline: seq<Entry>, current: seq<Entry>, before: nat, after: nat)
    requires Sorted(baseline) && Sorted(current) && Frontier(baseline, current, before, after) && after < |current|
    requires before < |baseline| ==> Less(current[after].path, baseline[before].path)
    ensures Frontier(baseline, current, before, after + 1)
  {
    forall j | before < j < |baseline| ensures Less(current[after].path, baseline[j].path) {
      LessTransitive(current[after].path, baseline[before].path, baseline[j].path);
    }
  }

  lemma AdvanceBoth(baseline: seq<Entry>, current: seq<Entry>, before: nat, after: nat)
    requires Sorted(baseline) && Sorted(current) && Frontier(baseline, current, before, after)
    requires before < |baseline| && after < |current| && baseline[before].path == current[after].path
    ensures Frontier(baseline, current, before + 1, after + 1)
  {
  }

  /** Walks both manifests once; the result is exactly the differences, sorted by path. */
  method Delta(baseline: seq<Entry>, current: seq<Entry>) returns (changes: seq<Change>)
    requires Sorted(baseline) && Sorted(current)
    ensures SortedChanges(changes) && Exact(changes, baseline, current)
  {
    changes := [];
    var before, after := 0, 0;
    while before < |baseline| || after < |current|
      invariant Frontier(baseline, current, before, after)
      invariant SortedChanges(changes) && Exact(changes, baseline[..before], current[..after])
      decreases |baseline| - before + |current| - after
    {
      FrontierBefore(baseline, current, before, after);
      if before < |baseline| && (after == |current| || Less(baseline[before].path, current[after].path)) {
        changes := Note(changes, Change(Removed, baseline[before]), baseline[..before], current[..after]);
        AdvanceBaseline(baseline, current, before, after);
        assert baseline[..before + 1] == baseline[..before] + [baseline[before]];
        before := before + 1;
      } else if before == |baseline| || Less(current[after].path, baseline[before].path) {
        changes := Note(changes, Change(Added, current[after]), baseline[..before], current[..after]);
        AdvanceCurrent(baseline, current, before, after);
        assert current[..after + 1] == current[..after] + [current[after]];
        after := after + 1;
      } else {
        LessTotal(baseline[before].path, current[after].path);
        changes := Meet(changes, baseline[before], current[after], baseline[..before], current[..after]);
        AdvanceBoth(baseline, current, before, after);
        assert baseline[..before + 1] == baseline[..before] + [baseline[before]];
        assert current[..after + 1] == current[..after] + [current[after]];
        before, after := before + 1, after + 1;
      }
    }
    assert baseline[..before] == baseline && current[..after] == current;
  }

  method Note(changes: seq<Change>, x: Change, ghost b: seq<Entry>, ghost c: seq<Entry>) returns (r: seq<Change>)
    requires SortedChanges(changes) && Exact(changes, b, c) && !x.kind.Modified?
    requires Before(b, x.entry.path) && Before(c, x.entry.path)
    ensures SortedChanges(r)
    ensures if x.kind.Added? then Exact(r, b, c + [x.entry]) else Exact(r, b + [x.entry], c)
  {
    ChangesBefore(changes, b, c, x.entry.path, x);
    if x.kind.Added? {
      AddStep(changes, b, c, x.entry);
    } else {
      RemoveStep(changes, b, c, x.entry);
    }
    r := changes + [x];
  }

  method Meet(changes: seq<Change>, l: Entry, r: Entry, ghost b: seq<Entry>, ghost c: seq<Entry>)
    returns (now: seq<Change>)
    requires SortedChanges(changes) && Exact(changes, b, c)
    requires Before(b, r.path) && Before(c, r.path) && l.path == r.path
    ensures SortedChanges(now) && Exact(now, b + [l], c + [r])
  {
    ChangesBefore(changes, b, c, r.path, Change(Modified, r));
    MeetStep(changes, b, c, l, r);
    now := if l != r then changes + [Change(Modified, r)] else changes;
  }

  // ---- What the delta is good for ----

  /** The manifest as a table. */
  ghost function Table(entries: seq<Entry>): (r: map<Path, Entry>) {
    if entries == [] then map[]
    else
      var last := entries[|entries| - 1];
      Table(entries[..|entries| - 1])[last.path := last]
  }

  lemma {:induction false} TableLookup(entries: seq<Entry>, e: Entry)
    requires Sorted(entries)
    ensures e in entries <==> e.path in Table(entries) && Table(entries)[e.path] == e
    ensures e.path in Table(entries) <==> HasPath(entries, e.path)
  {
    if entries != [] {
      var n := |entries| - 1;
      var rest, last := entries[..n], entries[n];
      assert entries == rest + [last];
      TableLookup(rest, e);
      HasPathSnoc(rest, last, e.path);
      if e in rest {
        assert Less(e.path, last.path);
        LessIrreflexive(last.path);
      }
    }
  }

  /** Applies one change to a table. */
  ghost function ApplyChange(table: map<Path, Entry>, c: Change): (r: map<Path, Entry>) {
    if c.kind.Removed? then table - {c.entry.path} else table[c.entry.path := c.entry]
  }

  ghost function ApplyChanges(table: map<Path, Entry>, changes: seq<Change>): (r: map<Path, Entry>) {
    if changes == [] then table
    else ApplyChange(ApplyChanges(table, changes[..|changes| - 1]), changes[|changes| - 1])
  }

  /** Some change is about this path. */
  ghost predicate Touches(changes: seq<Change>, path: Path) {
    exists c :: c in changes && c.entry.path == path
  }

  lemma {:induction false} Untouched(table: map<Path, Entry>, changes: seq<Change>, path: Path)
    requires !Touches(changes, path)
    ensures path in ApplyChanges(table, changes) <==> path in table
    ensures path in table ==> ApplyChanges(table, changes)[path] == table[path]
  {
    if changes != [] {
      var n := |changes| - 1;
      assert changes == changes[..n] + [changes[n]];
      assert changes[n] in changes;
      Untouched(table, changes[..n], path);
    }
  }

  lemma {:induction false} Touched(table: map<Path, Entry>, changes: seq<Change>, c: Change)
    requires SortedChanges(changes) && c in changes
    ensures c.kind.Removed? ==> c.entry.path !in ApplyChanges(table, changes)
    ensures !c.kind.Removed? ==>
      c.entry.path in ApplyChanges(table, changes) && ApplyChanges(table, changes)[c.entry.path] == c.entry
  {
    var n := |changes| - 1;
    var rest := changes[..n];
    assert changes == rest + [changes[n]];
    if c != changes[n] {
      Touched(table, rest, c);
      var i :| 0 <= i < n && changes[i] == c;
      LessIrreflexive(c.entry.path);
    }
  }

  /** Looking up a path after applying the delta is looking it up in the current manifest. */
  lemma AppliedLookup(changes: seq<Change>, baseline: seq<Entry>, current: seq<Entry>, e: Entry)
    requires Sorted(baseline) && Sorted(current) && SortedChanges(changes) && Exact(changes, baseline, current)
    ensures var t := ApplyChanges(Table(baseline), changes);
      (e.path in t && t[e.path] == e) <==> e in current
  {
    TableLookup(baseline, e);
    if Touches(changes, e.path) {
      var c :| c in changes && c.entry.path == e.path;
      Touched(Table(baseline), changes, c);
      assert Differs(c, baseline, current);
      OneEntry(current, c.entry, e);
    } else {
      Untouched(Table(baseline), changes, e.path);
      SameEverywhere(changes, baseline, current, e);
    }
  }

  /** A path names one entry. */
  lemma OneEntry(entries: seq<Entry>, x: Entry, y: Entry)
    requires Sorted(entries) && x.path == y.path
    ensures x in entries && y in entries ==> x == y
    ensures y in entries ==> HasPath(entries, x.path)
  {
    LessIrreflexive(x.path);
  }

  lemma SameEverywhere(changes: seq<Change>, baseline: seq<Entry>, current: seq<Entry>, e: Entry)
    requires Exact(changes, baseline, current) && !Touches(changes, e.path)
    ensures e in baseline ==> e in current || exists x :: x in current && x.path == e.path && x != e
    ensures Sorted(baseline) && Sorted(current) ==> (e in baseline <==> e in current)
  {
    assert !Differs(Change(Added, e), baseline, current);
    assert !Differs(Change(Removed, e), baseline, current);
    assert !Differs(Change(Modified, e), baseline, current);
    if e in baseline && e !in current {
      var x :| x in current && x.path == e.path;
      assert HasPath(baseline, x.path);
      assert !Differs(Change(Modified, x), baseline, current);
      if Sorted(baseline) {
        OneEntry(baseline, x, e);
      }
    }
  }

  /** Two strictly sorted manifests with the same entries are the same manifest. */
  lemma {:induction false} SortedUnique(a: seq<Entry>, b: seq<Entry>)
    requires Sorted(a) && Sorted(b) && forall e :: e in a <==> e in b
    ensures a == b
    decreases |a|
  {
    assert (a != [] ==> a[0] in a) && (b != [] ==> b[0] in b);
    if a != [] {
      var m, n := |a| - 1, |b| - 1;
      LastIsLast(a, b);
      forall e ensures e in a[..m] <==> e in b[..n] {
        NotLast(a, e);
        NotLast(b, e);
      }
      SortedUnique(a[..m], b[..n]);
      assert a == a[..m] + [a[m]] && b == b[..n] + [b[n]];
    }
  }

  lemma NotLast(a: seq<Entry>, e: Entry)
    requires Sorted(a) && a != []
    ensures e in a[..|a| - 1] <==> e in a && e != a[|a| - 1]
  {
    var m := |a| - 1;
    assert a == a[..m] + [a[m]];
    LessIrreflexive(a[m].path);
    if e in a[..m] {
      var i :| 0 <= i < m && a[i] == e;
    }
  }

  lemma LastIsLast(a: seq<Entry>, b: seq<Entry>)
    requires Sorted(a) && Sorted(b) && a != [] && b != [] && forall e :: e in a <==> e in b
    ensures a[|a| - 1] == b[|b| - 1]
  {
    var x, y := a[|a| - 1], b[|b| - 1];
    assert x in a && y in b;
    assert x in b && y in a;
    if x != y {
      assert Less(x.path, y.path) && Less(y.path, x.path);
      LessTransitive(x.path, y.path, x.path);
      LessIrreflexive(x.path);
    }
  }

  /** Applying the delta to the baseline gives the current manifest, and nothing else has that table. */
  lemma DeltaApplies(changes: seq<Change>, baseline: seq<Entry>, current: seq<Entry>)
    requires Sorted(baseline) && Sorted(current) && SortedChanges(changes) && Exact(changes, baseline, current)
    ensures ApplyChanges(Table(baseline), changes) == Table(current)
  {
    var t, u := ApplyChanges(Table(baseline), changes), Table(current);
    forall p | p in t ensures p in u && t[p] == u[p] {
      ApplyKeysOk(baseline, changes, p);
      AppliedLookup(changes, baseline, current, t[p]);
      TableLookup(current, t[p]);
    }
    forall p | p in u ensures p in t {
      TableKeysOk(current, p);
      TableLookup(current, u[p]);
      AppliedLookup(changes, baseline, current, u[p]);
    }
  }

  lemma {:induction false} TableKeysOk(entries: seq<Entry>, p: Path)
    requires p in Table(entries)
    ensures Table(entries)[p].path == p
  {
    if entries != [] && p != entries[|entries| - 1].path {
      TableKeysOk(entries[..|entries| - 1], p);
    }
  }

  lemma {:induction false} ApplyKeysOk(baseline: seq<Entry>, changes: seq<Change>, p: Path)
    requires p in ApplyChanges(Table(baseline), changes)
    ensures ApplyChanges(Table(baseline), changes)[p].path == p
    decreases |changes|
  {
    if changes == [] {
      TableKeysOk(baseline, p);
    } else if p != changes[|changes| - 1].entry.path {
      ApplyKeysOk(baseline, changes[..|changes| - 1], p);
    }
  }

  lemma TableDecides(a: seq<Entry>, b: seq<Entry>)
    requires Sorted(a) && Sorted(b) && Table(a) == Table(b)
    ensures a == b
  {
    forall e ensures e in a <==> e in b {
      TableLookup(a, e);
      TableLookup(b, e);
    }
    SortedUnique(a, b);
  }

  /** Nothing changed exactly when the delta is empty. */
  lemma EmptyMeansEqual(changes: seq<Change>, baseline: seq<Entry>, current: seq<Entry>)
    requires Sorted(baseline) && Sorted(current) && SortedChanges(changes) && Exact(changes, baseline, current)
    ensures changes == [] <==> baseline == current
  {
    DeltaApplies(changes, baseline, current);
    if changes == [] {
      TableDecides(baseline, current);
    } else if baseline == current {
      assert changes[0] in changes;
      assert Differs(changes[0], baseline, current);
      assert changes[0].entry in current ==> HasPath(current, changes[0].entry.path);
      assert false;
    }
  }
}
