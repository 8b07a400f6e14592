/**
 The pipe graph of native processes: every named pipe must have one reader and
 one writer among children, closed ends and parent ends, and data must not flow
 in a circle. Accepted graphs are spawned consumers first.
 */
module ProcessGraph {
  import opened Graphs
  import opened Wrappers

  type PipeId = nat

  datatype Stdio = Inherit | Null | Piped | Pipe(id: PipeId) | File(file: nat) | Capture(capture: nat)

  datatype Spec = Spec(stdin: Stdio, stdout: Stdio, stderr: Stdio)

  /** One end of a named pipe, closed by the parent or kept by it. */
  datatype PipeEnd = Reader(id: PipeId) | Writer(id: PipeId)

  predicate Reads(spec: Spec, p: PipeId) {
    spec.stdin == Pipe(p)
  }

  predicate Writes(spec: Spec, p: PipeId) {
    spec.stdout == Pipe(p) || spec.stderr == Pipe(p)
  }

  function Readers(specs: seq<Spec>, p: PipeId): (r: set<nat>) {
    set i: nat | i < |specs| && Reads(specs[i], p)
  }

  /** A child that writes through both stdout and stderr is one writer. */
  function Writers(specs: seq<Spec>, p: PipeId): (r: set<nat>) {
    set i: nat | i < |specs| && Writes(specs[i], p)
  }

  ghost function ReaderOwners(specs: seq<Spec>, closed: seq<PipeEnd>, parent: seq<PipeEnd>, p: PipeId): (r: nat) {
    |Readers(specs, p)| + multiset(closed)[Reader(p)] + multiset(parent)[Reader(p)]
  }

  ghost function WriterOwners(specs: seq<Spec>, closed: seq<PipeEnd>, parent: seq<PipeEnd>, p: PipeId): (r: nat) {
    |Writers(specs, p)| + multiset(closed)[Writer(p)] + multiset(parent)[Writer(p)]
  }

  /** Every pipe named anywhere has exactly one owner of each end. */
  ghost predicate WellOwned(specs: seq<Spec>, closed: seq<PipeEnd>, parent: seq<PipeEnd>) {
    forall p: PipeId ::
      ReaderOwners(specs, closed, parent, p) > 0 || WriterOwners(specs, closed, parent, p) > 0 ==>
        ReaderOwners(specs, closed, parent, p) == 1 && WriterOwners(specs, closed, parent, p) == 1
  }

  /** Child `i` writes into the pipe child `j` reads. */
  predicate Feeds(specs: seq<Spec>, i: nat, j: nat)
    requires i < |specs| && j < |specs|
  {
    specs[j].stdin.Pipe? && Writes(specs[i], specs[j].stdin.id)
  }

  /** Children passing data round in a circle. */
  ghost predicate PipeCycle(specs: seq<Spec>, p: seq<nat>) {
    && |p| >= 2 && p[0] == p[|p| - 1]
    && (forall i :: 0 <= i < |p| ==> p[i] < |specs|)
    && (forall i :: 0 < i < |p| ==> Feeds(specs, p[i - 1], p[i]))
  }

  ghost predicate ValidPipes(specs: seq<Spec>, closed: seq<PipeEnd>, parent: seq<PipeEnd>) {
    WellOwned(specs, closed, parent) && forall p :: !PipeCycle(specs, p)
  }

  // ---- Claiming pipe ends ----

  datatype PipeUsage = PipeUsage(
    reader: Option<nat>, writer: Option<nat>,
    readerClosed: bool, writerClosed: bool, readerParent: bool, writerParent: bool)
  {
    function ReaderCount(): (r: nat) {
      (if reader.Some? then 1 else 0) + (if readerClosed then 1 else 0) + (if readerParent then 1 else 0)
    }

    function WriterCount(): (r: nat) {
      (if writer.Some? then 1 else 0) + (if writerClosed then 1 else 0) + (if writerParent then 1 else 0)
    }
  }

  const UNUSED := PipeUsage(None, None, false, false, false, false)

  type Usages = map<PipeId, PipeUsage>

  /** `usages.entry(id).or_default()`. */
  function Entry(usages: Usages, p: PipeId): (r: PipeUsage) {
    if p in usages then usages[p] else UNUSED
  }

  function AsSet(o: Option<nat>): (r: set<nat>) {
    match o
    case None => {}
    case Some(x) => {x}
  }

  /** What has been claimed so far: children `children`, `closed` ends, `parent` ends. */
  ghost predicate Claimed(u: PipeUsage, readers: set<nat>, writers: set<nat>, closed: multiset<PipeEnd>,
      parent: multiset<PipeEnd>, p: PipeId)
  {
    && AsSet(u.reader) == readers && AsSet(u.writer) == writers
    && closed[Reader(p)] == (if u.readerClosed then 1 else 0)
    && closed[Writer(p)] == (if u.writerClosed then 1 else 0)
    && parent[Reader(p)] == (if u.readerParent then 1 else 0)
    && parent[Writer(p)] == (if u.writerParent then 1 else 0)
  }

  /** The map records, for every pipe, the claims of these children and ends; named pipes are its keys. */
  ghost predicate Records(usages: Usages, specs: seq<Spec>, closed: seq<PipeEnd>, parent: seq<PipeEnd>) {
    forall p: PipeId :: RecordAt(usages, specs, closed, parent, p)
  }

  ghost predicate RecordAt(usages: Usages, specs: seq<Spec>, closed: seq<PipeEnd>, parent: seq<PipeEnd>, p: PipeId) {
    && Claimed(Entry(usages, p), Readers(specs, p), Writers(specs, p), multiset(closed), multiset(parent), p)
    && (p in usages <==> Entry(usages, p).ReaderCount() > 0 || Entry(usages, p).WriterCount() > 0)
    && Entry(usages, p).ReaderCount() <= 1 && Entry(usages, p).WriterCount() <= 1
  }

  function ClaimReader(usages: Usages, p: PipeId, index: nat): (r: Option<Usages>) {
    if Entry(usages, p).reader.Some? then None
    else Some(usages[p := Entry(usages, p).(reader := Some(index))])
  }

  function ClaimWriter(usages: Usages, p: PipeId, index: nat): (r: Option<Usages>) {
    if Entry(usages, p).writer.Some? && Entry(usages, p).writer.value != index then None
    else Some(usages[p := Entry(usages, p).(writer := Some(index))])
  }

  /** Adding a child, one endpoint at a time. */
  lemma ChildSets(base: seq<Spec>, s: Spec, p: PipeId)
    ensures Readers(base + [s], p) == Readers(base, p) + (if Reads(s, p) then {|base|} else {})
    ensures Writers(base + [s], p) == Writers(base, p) + (if Writes(s, p) then {|base|} else {})
  {
    var all := base + [s];
    forall i: nat ensures i in Readers(all, p) <==> i in Readers(base, p) || (i == |base| && Reads(s, p)) {
    }
    forall i: nat ensures i in Writers(all, p) <==> i in Writers(base, p) || (i == |base| && Writes(s, p)) {
    }
  }

  /** Two specs that name the same pipes leave the same records. */
  lemma SameRecords(usages: Usages, base: seq<Spec>, s: Spec, t: Spec)
    requires Records(usages, base + [s], [], [])
    requires forall p: PipeId :: (Reads(s, p) <==> Reads(t, p)) && (Writes(s, p) <==> Writes(t, p))
    ensures Records(usages, base + [t], [], [])
  {
    forall p: PipeId ensures RecordAt(usages, base + [t], [], [], p) {
      assert RecordAt(usages, base + [s], [], [], p);
      ChildSets(base, s, p);
      ChildSets(base, t, p);
    }
  }

  lemma NewChild(usages: Usages, base: seq<Spec>, s: Spec)
    requires Records(usages, base, [], [])
    requires forall p: PipeId :: !Reads(s, p) && !Writes(s, p)
    ensures Records(usages, base + [s], [], [])
  {
    forall p: PipeId ensures RecordAt(usages, base + [s], [], [], p) {
      assert RecordAt(usages, base, [], [], p);
      ChildSets(base, s, p);
    }
  }

  lemma ReaderStep(usages: Usages, base: seq<Spec>, s: Spec, id: PipeId)
    requires Records(usages, base + [s], [], []) && !s.stdin.Pipe?
    ensures var r := ClaimReader(usages, id, |base|);
      && (r.Some? ==> Records(r.value, base + [s.(stdin := Pipe(id))], [], []))
      && (r.None? ==> Readers(base, id) != {})
  {
    ChildSets(base, s, id);
    assert RecordAt(usages, base + [s], [], [], id);
    var r := ClaimReader(usages, id, |base|);
    if r.Some? {
      var t := s.(stdin := Pipe(id));
      forall p: PipeId ensures RecordAt(r.value, base + [t], [], [], p) {
        ChildSets(base, s, p);
        ChildSets(base, t, p);
        assert RecordAt(usages, base + [s], [], [], p);
      }
    }
  }

  /** `t` also writes `id`, and otherwise names what `s` names. */
  ghost predicate AlsoWrites(s: Spec, t: Spec, id: PipeId) {
    forall p: PipeId :: (Reads(t, p) <==> Reads(s, p)) && (Writes(t, p) <==> Writes(s, p) || p == id)
  }

  lemma WriterStep(usages: Usages, base: seq<Spec>, s: Spec, t: Spec, id: PipeId)
    requires Records(usages, base + [s], [], []) && AlsoWrites(s, t, id)
    ensures var r := ClaimWriter(usages, id, |base|);
      && (r.Some? ==> Records(r.value, base + [t], [], []))
      && (r.None? ==> Writers(base, id) != {})
  {
    ChildSets(base, s, id);
    var r := ClaimWriter(usages, id, |base|);
    assert RecordAt(usages, base + [s], [], [], id);
    assert Entry(usages, id).writer.Some? ==> Entry(usages, id).writer.value in Writers(base + [s], id);
    if r.Some? {
      forall p: PipeId ensures RecordAt(r.value, base + [t], [], [], p) {
        ChildSets(base, s, p);
        ChildSets(base, t, p);
        assert RecordAt(usages, base + [s], [], [], p);
      }
    }
  }

  /** Claims the pipe ends of one child; `None` when an end already has another owner. */
  method ClaimChild(usages: Usages, ghost base: seq<Spec>, s: Spec, index: nat) returns (r: Option<Usages>)
    requires Records(usages, base, [], []) && index == |base|
    ensures r.Some? ==> Records(r.value, base + [s], [], [])
    ensures r.None? ==> exists p: PipeId ::
      (Reads(s, p) && Readers(base, p) != {}) || (Writes(s, p) && Writers(base, p) != {})
  {
    ghost var none := Spec(Null, Null, Null);
    NewChild(usages, base, none);
    r := Some(usages);
    if s.stdin.Pipe? {
      ReaderStep(usages, base, none, s.stdin.id);
      r := ClaimReader(usages, s.stdin.id, index);
      if r.None? {
        assert Reads(s, s.stdin.id);
        return;
      }
    } else {
      SameRecords(usages, base, none, Spec(s.stdin, Null, Null));
    }
    ghost var half := Spec(s.stdin, s.stdout, Null);
    if s.stdout.Pipe? {
      WriterStep(r.value, base, Spec(s.stdin, Null, Null), half, s.stdout.id);
      r := ClaimWriter(r.value, s.stdout.id, index);
      if r.None? {
        assert Writes(s, s.stdout.id);
        return;
      }
    } else {
      SameRecords(r.value, base, Spec(s.stdin, Null, Null), half);
    }
    if s.stderr.Pipe? {
      WriterStep(r.value, base, half, s, s.stderr.id);
      r := ClaimWriter(r.value, s.stderr.id, index);
      if r.None? {
        assert Writes(s, s.stderr.id);
      }
    } else {
      SameRecords(r.value, base, half, s);
    }
  }

  lemma TwoReaders(specs: seq<Spec>, closed: seq<PipeEnd>, parent: seq<PipeEnd>, i: nat, p: PipeId)
    requires i < |specs|
    requires (Reads(specs[i], p) && Readers(specs[..i], p) != {}) || (Writes(specs[i], p) && Writers(specs[..i], p) != {})
    ensures !WellOwned(specs, closed, parent)
  {
    if Reads(specs[i], p) && Readers(specs[..i], p) != {} {
      var j :| j in Readers(specs[..i], p);
      SubsetSize({i, j}, Readers(specs, p));
      assert ReaderOwners(specs, closed, parent, p) > 1;
    } else {
      var j :| j in Writers(specs[..i], p);
      SubsetSize({i, j}, Writers(specs, p));
      assert WriterOwners(specs, closed, parent, p) > 1;
    }
  }

  /** The first loop: all children in order. */
  method ClaimChildren(specs: seq<Spec>) returns (r: Option<Usages>)
    ensures r.Some? ==> Records(r.value, specs, [], [])
    ensures r.None? ==> forall closed, parent :: !WellOwned(specs, closed, parent)
  {
    r := Some(map[]);
    for i := 0 to |specs|
      invariant r.Some? && Records(r.value, specs[..i], [], [])
    {
      assert specs[..i + 1] == specs[..i] + [specs[i]];
      r := ClaimChild(r.value, specs[..i], specs[i], i);
      if r.None? {
        ghost var p: PipeId :| (Reads(specs[i], p) && Readers(specs[..i], p) != {})
          || (Writes(specs[i], p) && Writers(specs[..i], p) != {});
        forall closed, parent ensures !WellOwned(specs, closed, parent) {
          TwoReaders(specs, closed, parent, i, p);
        }
        return;
      }
    }
    assert specs[..|specs|] == specs;
  }

  // ---- Ends kept or closed by the parent ----

  function ClaimClosed(usages: Usages, end: PipeEnd): (r: Option<Usages>) {
    var u := Entry(usages, end.id);
    match end
    case Reader(p) => if u.reader.Some? || u.readerClosed then None else Some(usages[p := u.(readerClosed := true)])
    case Writer(p) => if u.writer.Some? || u.writerClosed then None else Some(usages[p := u.(writerClosed := true)])
  }

  function ClaimParent(usages: Usages, end: PipeEnd): (r: Option<Usages>) {
    var u := Entry(usages, end.id);
    match end
    case Reader(p) =>
      if u.reader.Some? || u.readerClosed || u.readerParent then None else Some(usages[p := u.(readerParent := true)])
    case Writer(p) =>
      if u.writer.Some? || u.writerClosed || u.writerParent then None else Some(usages[p := u.(writerParent := true)])
  }

  /** Owners of one end among children and ends. */
  ghost function Owners(specs: seq<Spec>, closed: seq<PipeEnd>, parent: seq<PipeEnd>, end: PipeEnd): (r: nat) {
    match end
    case Reader(p) => ReaderOwners(specs, closed, parent, p)
    case Writer(p) => WriterOwners(specs, closed, parent, p)
  }

  lemma CountsMatch(usages: Usages, specs: seq<Spec>, closed: seq<PipeEnd>, parent: seq<PipeEnd>, p: PipeId)
    requires RecordAt(usages, specs, closed, parent, p)
    ensures Entry(usages, p).ReaderCount() == ReaderOwners(specs, closed, parent, p)
    ensures Entry(usages, p).WriterCount() == WriterOwners(specs, closed, parent, p)
  {
    var u := Entry(usages, p);
    assert |AsSet(u.reader)| == (if u.reader.Some? then 1 else 0);
    assert |AsSet(u.writer)| == (if u.writer.Some? then 1 else 0);
  }

  lemma ClosedStep(usages: Usages, specs: seq<Spec>, closed: seq<PipeEnd>, end: PipeEnd)
    requires Records(usages, specs, closed, [])
    ensures var r := ClaimClosed(usages, end);
      && (r.Some? ==> Records(r.value, specs, closed + [end], []))
      && (r.None? ==> Owners(specs, closed, [], end) >= 1)
  {
    var r := ClaimClosed(usages, end);
    assert RecordAt(usages, specs, closed, [], end.id);
    CountsMatch(usages, specs, closed, [], end.id);
    assert multiset(closed + [end]) == multiset(closed) + multiset{end};
    if r.Some? {
      forall p: PipeId ensures RecordAt(r.value, specs, closed + [end], [], p) {
        assert RecordAt(usages, specs, closed, [], p);
      }
    }
  }

  lemma ParentStep(usages: Usages, specs: seq<Spec>, closed: seq<PipeEnd>, parent: seq<PipeEnd>, end: PipeEnd)
    requires Records(usages, specs, closed, parent)
    ensures var r := ClaimParent(usages, end);
      && (r.Some? ==> Records(r.value, specs, closed, parent + [end]))
      && (r.None? ==> Owners(specs, closed, parent, end) >= 1)
  {
    var r := ClaimParent(usages, end);
    assert RecordAt(usages, specs, closed, parent, end.id);
    CountsMatch(usages, specs, closed, parent, end.id);
    assert multiset(parent + [end]) == multiset(parent) + multiset{end};
    if r.Some? {
      forall p: PipeId ensures RecordAt(r.value, specs, closed, parent + [end], p) {
        assert RecordAt(usages, specs, closed, parent, p);
      }
    }
  }

  /** A further claim on an owned end can never become well owned. */
  lemma OwnedTwice(specs: seq<Spec>, closed: seq<PipeEnd>, parent: seq<PipeEnd>, i: nat, j: nat, end: PipeEnd)
    requires i <= |closed| && j <= |parent| && Owners(specs, closed[..i], parent[..j], end) >= 1
    requires (i < |closed| && closed[i] == end) || (j < |parent| && parent[j] == end)
    ensures !WellOwned(specs, closed, parent)
  {
    assert closed == closed[..i] + closed[i..] && parent == parent[..j] + parent[j..];
    assert multiset(closed) == multiset(closed[..i]) + multiset(closed[i..]);
    assert multiset(parent) == multiset(parent[..j]) + multiset(parent[j..]);
    if i < |closed| && closed[i] == end {
      assert closed[i..][0] == end;
      assert end in multiset(closed[i..]);
    } else {
      assert parent[j..][0] == end;
      assert end in multiset(parent[j..]);
    }
    assert Owners(specs, closed, parent, end) >= 2;
  }

  /** The second and third loops. */
  method ClaimEnds(specs: seq<Spec>, closed: seq<PipeEnd>, parent: seq<PipeEnd>, children: Usages) returns (r: Option<Usages>)
    requires Records(children, specs, [], [])
    ensures r.Some? ==> Records(r.value, specs, closed, parent)
    ensures r.None? ==> !WellOwned(specs, closed, parent)
  {
    r := Some(children);
    for i := 0 to |closed|
      invariant r.Some? && Records(r.value, specs, closed[..i], [])
    {
      ClosedStep(r.value, specs, closed[..i], closed[i]);
      assert closed[..i + 1] == closed[..i] + [closed[i]];
      r := ClaimClosed(r.value, closed[i]);
      if r.None? {
        assert parent[..0] == [];
        OwnedTwice(specs, closed, parent, i, 0, closed[i]);
        return;
      }
    }
    assert closed[..|closed|] == closed;
    for j := 0 to |parent|
      invariant r.Some? && Records(r.value, specs, closed, parent[..j])
    {
      ParentStep(r.value, specs, closed, parent[..j], parent[j]);
      assert parent[..j + 1] == parent[..j] + [parent[j]];
      r := ClaimParent(r.value, parent[j]);
      if r.None? {
        OwnedTwice(specs, closed, parent, |closed|, j, parent[j]);
        return;
      }
    }
    assert parent[..|parent|] == parent;
  }

  // ---- Edges between children ----

  /** `succ` lists who feeds whom through the pipes in `pipes`; `incoming` counts it. */
  ghost predicate EdgesOf(specs: seq<Spec>, pipes: set<PipeId>, succ: Successors, incoming: seq<nat>) {
    && |succ| == |specs| && Simple(succ)
    && (forall w: nat, r: nat :: w < |specs| && r < |specs| ==>
          (r in succ[w] <==> Feeds(specs, w, r) && specs[r].stdin.id in pipes))
    && Counts(succ, incoming, {})
  }

  /** The first edge into `r`. */
  lemma AddEdge(succ: Successors, incoming: seq<nat>, w: nat, r: nat)
    requires Simple(succ) && Counts(succ, incoming, {}) && w < |succ| && r < |succ| && Preds(succ, r) == {}
    ensures Simple(succ[w := succ[w] + [r]])
    ensures Counts(succ[w := succ[w] + [r]], incoming[r := incoming[r] + 1], {})
  {
    var next := succ[w := succ[w] + [r]];
    assert r !in succ[w] by {
      assert r in succ[w] ==> w in Preds(succ, r);
    }
    forall v | 0 <= v < |next| ensures incoming[r := incoming[r] + 1][v] == |Preds(next, v) - {}| {
      AddEdgePreds(succ, w, r, v);
      assert Preds(succ, v) - {} == Preds(succ, v) && {w} - {} == {w};
    }
  }

  lemma AddEdgePreds(succ: Successors, w: nat, r: nat, v: nat)
    requires w < |succ| && Preds(succ, r) == {}
    ensures Preds(succ[w := succ[w] + [r]], v) == if v == r then {w} else Preds(succ, v)
  {
    var next := succ[w := succ[w] + [r]];
    forall u: nat | u < |succ| ensures v in next[u] <==> v in succ[u] || (u == w && v == r) {
    }
    assert v == r ==> forall u: nat :: u < |succ| && r in succ[u] ==> u in Preds(succ, r);
  }

  /** A pipe between two children adds one edge. */
  lemma EdgeStep(specs: seq<Spec>, pipes: set<PipeId>, succ: Successors, incoming: seq<nat>, p: PipeId, w: nat, r: nat)
    requires EdgesOf(specs, pipes, succ, incoming) && p !in pipes
    requires Readers(specs, p) == {r} && Writers(specs, p) == {w}
    ensures w < |specs| && r < |specs|
    ensures EdgesOf(specs, pipes + {p}, succ[w := succ[w] + [r]], incoming[r := incoming[r] + 1])
  {
    assert r in Readers(specs, p) && w in Writers(specs, p);
    assert Preds(succ, r) == {};
    AddEdge(succ, incoming, w, r);
    var next := succ[w := succ[w] + [r]];
    forall u: nat, v: nat | u < |specs| && v < |specs|
      ensures v in next[u] <==> Feeds(specs, u, v) && specs[v].stdin.id in pipes + {p}
    {
      assert v in next[u] <==> v in succ[u] || (u == w && v == r);
      if specs[v].stdin == Pipe(p) {
        assert v in Readers(specs, p);
        assert Writes(specs[u], p) <==> u in Writers(specs, p);
      }
    }
  }

  /** A pipe with a parent or closed end joins no two children. */
  lemma NoEdgeStep(specs: seq<Spec>, pipes: set<PipeId>, succ: Successors, incoming: seq<nat>, p: PipeId)
    requires EdgesOf(specs, pipes, succ, incoming) && (Readers(specs, p) == {} || Writers(specs, p) == {})
    ensures EdgesOf(specs, pipes + {p}, succ, incoming)
  {
    forall u: nat, v: nat | u < |specs| && v < |specs|
      ensures v in succ[u] <==> Feeds(specs, u, v) && specs[v].stdin.id in pipes + {p}
    {
      if specs[v].stdin == Pipe(p) {
        assert v in Readers(specs, p);
        assert Writes(specs[u], p) ==> u in Writers(specs, p);
      }
    }
  }

  lemma FeedsItself(specs: seq<Spec>, p: PipeId, r: nat)
    requires Readers(specs, p) == Writers(specs, p) == {r}
    ensures PipeCycle(specs, [r, r])
  {
    assert r in Readers(specs, p) && r in Writers(specs, p);
  }

  /** The fourth loop: check every pipe, in any order, and collect the edges. */
  method CollectEdges(specs: seq<Spec>, ghost closed: seq<PipeEnd>, ghost parent: seq<PipeEnd>, usages: Usages)
    returns (ok: bool, outgoing: Successors, incoming: seq<nat>)
    requires Records(usages, specs, closed, parent)
    ensures ok ==> WellOwned(specs, closed, parent) && EdgesOf(specs, usages.Keys, outgoing, incoming)
    ensures ok ==> forall p :: p in usages ==> usages[p].ReaderCount() == 1 && usages[p].WriterCount() == 1
    ensures !ok ==> !ValidPipes(specs, closed, parent)
  {
    outgoing, incoming := seq(|specs|, _ => []), seq(|specs|, _ => 0);
    assert forall v :: 0 <= v < |specs| ==> Preds(outgoing, v) - {} == {};
    var left := usages.Keys;
    while left != {}
      invariant left <= usages.Keys
      invariant EdgesOf(specs, usages.Keys - left, outgoing, incoming)
      invariant forall p :: p in usages.Keys - left ==> usages[p].ReaderCount() == 1 && usages[p].WriterCount() == 1
    {
      var p :| p in left;
      var usage := usages[p];
      assert RecordAt(usages, specs, closed, parent, p);
      CountsMatch(usages, specs, closed, parent, p);
      if usage.ReaderCount() != 1 || usage.WriterCount() != 1 {
        return false, outgoing, incoming;
      }
      if usage.writer.Some? && usage.reader.Some? {
        var w, r := usage.writer.value, usage.reader.value;
        EdgeStep(specs, usages.Keys - left, outgoing, incoming, p, w, r);
        if w == r {
          FeedsItself(specs, p, r);
          return false, outgoing, incoming;
        }
        outgoing := outgoing[w := outgoing[w] + [r]];
        incoming := incoming[r := incoming[r] + 1];
      } else {
        NoEdgeStep(specs, usages.Keys - left, outgoing, incoming, p);
      }
      assert usages.Keys - (left - {p}) == usages.Keys - left + {p};
      left := left - {p};
    }
    assert usages.Keys - {} == usages.Keys;
    AllOwned(usages, specs, closed, parent);
    ok := true;
  }

  lemma AllOwned(usages: Usages, specs: seq<Spec>, closed: seq<PipeEnd>, parent: seq<PipeEnd>)
    requires Records(usages, specs, closed, parent)
    requires forall p :: p in usages ==> usages[p].ReaderCount() == 1 && usages[p].WriterCount() == 1
    ensures WellOwned(specs, closed, parent)
  {
    forall p: PipeId | ReaderOwners(specs, closed, parent, p) > 0 || WriterOwners(specs, closed, parent, p) > 0
      ensures ReaderOwners(specs, closed, parent, p) == 1 && WriterOwners(specs, closed, parent, p) == 1
    {
      assert RecordAt(usages, specs, closed, parent, p);
      CountsMatch(usages, specs, closed, parent, p);
    }
  }

  /** With all pipes collected, the edges are exactly the feeding relation. */
  lemma EdgesAreFeeds(usages: Usages, specs: seq<Spec>, closed: seq<PipeEnd>, parent: seq<PipeEnd>,
      succ: Successors, incoming: seq<nat>)
    requires Records(usages, specs, closed, parent) && EdgesOf(specs, usages.Keys, succ, incoming)
    ensures forall w: nat, r: nat :: w < |specs| && r < |specs| ==> (w in Preds(succ, r) <==> Feeds(specs, w, r))
    ensures Acyclic(succ) <==> forall p :: !PipeCycle(specs, p)
  {
    forall w: nat, r: nat | w < |specs| && r < |specs| ensures w in Preds(succ, r) <==> Feeds(specs, w, r) {
      if specs[r].stdin.Pipe? {
        var p := specs[r].stdin.id;
        assert RecordAt(usages, specs, closed, parent, p);
        assert r in Readers(specs, p);
      }
    }
    forall p ensures Cycle(succ, p) <==> PipeCycle(specs, p) {
    }
    if Acyclic(succ) {
      forall p ensures !PipeCycle(specs, p) {
        assert !Cycle(succ, p);
      }
    }
  }

  datatype Plan = Plan(pipeIds: set<PipeId>, parentReaders: set<PipeId>, parentWriters: set<PipeId>, spawnOrder: seq<nat>)

  predicate FeedsAt(specs: seq<Spec>, i: nat, j: nat) {
    i < |specs| && j < |specs| && Feeds(specs, i, j)
  }

  /** A permutation of the children in which whoever feeds another comes first. */
  ghost predicate GoodOrder(specs: seq<Spec>, order: seq<nat>) {
    && Distinct(order) && Elements(order) == Nodes(|specs|)
    && forall i, j :: 0 <= i < |order| && 0 <= j < |order| && FeedsAt(specs, order[i], order[j]) ==> i < j
  }

  lemma TopologicalIsGood(specs: seq<Spec>, succ: Successors, order: seq<nat>)
    requires |succ| == |specs| && Topological(succ, order) && Elements(order) == Nodes(|specs|)
    requires forall w: nat, r: nat :: w < |specs| && r < |specs| ==> (w in Preds(succ, r) <==> Feeds(specs, w, r))
    ensures GoodOrder(specs, order)
  {
    forall i, j | 0 <= i < |order| && 0 <= j < |order| && FeedsAt(specs, order[i], order[j])
      ensures i < j
    {
      assert order[i] in Preds(succ, order[j]);
      assert order[i] in Elements(order[..j]);
      var k :| 0 <= k < j && order[k] == order[i];
    }
  }

  /** `validate_process_graph_with_parent_pipe_ends`: accepts exactly the valid pipe graphs. */
  method ValidateProcessGraph(specs: seq<Spec>, closed: seq<PipeEnd>, parent: seq<PipeEnd>) returns (r: Option<Plan>)
    ensures r.Some? <==> ValidPipes(specs, closed, parent)
    ensures r.Some? ==> GoodOrder(specs, r.value.spawnOrder)
    ensures r.Some? ==> forall p: PipeId :: p in r.value.pipeIds <==> ReaderOwners(specs, closed, parent, p) == 1
    ensures r.Some? ==> forall p: PipeId :: p in r.value.parentReaders <==> Reader(p) in parent
    ensures r.Some? ==> forall p: PipeId :: p in r.value.parentWriters <==> Writer(p) in parent
  {
    var children := ClaimChildren(specs);
    if children.None? {
      return None;
    }
    var claimed := ClaimEnds(specs, closed, parent, children.value);
    if claimed.None? {
      return None;
    }
    var usages := claimed.value;
    var ok, outgoing, incoming := CollectEdges(specs, closed, parent, usages);
    if !ok {
      return None;
    }
    EdgesAreFeeds(usages, specs, closed, parent, outgoing, incoming);
    var ready := InitialReady(outgoing, incoming);
    var order := Drain(outgoing, incoming, ready);
    StuckDecides(outgoing, order);
    if |order| != |specs| {
      return None;
    }
    TopologicalIsGood(specs, outgoing, order);
    PlanIsRight(usages, specs, closed, parent);
    var parentReaders := set p | p in usages && usages[p].readerParent;
    var parentWriters := set p | p in usages && usages[p].writerParent;
    r := Some(Plan(usages.Keys, parentReaders, parentWriters, order));
  }

  lemma PlanIsRight(usages: Usages, specs: seq<Spec>, closed: seq<PipeEnd>, parent: seq<PipeEnd>)
    requires Records(usages, specs, closed, parent)
    requires forall p :: p in usages ==> usages[p].ReaderCount() == 1
    ensures forall p: PipeId :: p in usages <==> ReaderOwners(specs, closed, parent, p) == 1
    ensures forall p: PipeId :: p in usages && usages[p].readerParent <==> Reader(p) in parent
    ensures forall p: PipeId :: p in usages && usages[p].writerParent <==> Writer(p) in parent
  {
    forall p: PipeId ensures
      && (p in usages <==> ReaderOwners(specs, closed, parent, p) == 1)
      && (p in usages && usages[p].readerParent <==> Reader(p) in parent)
      && (p in usages && usages[p].writerParent <==> Writer(p) in parent)
    {
      assert RecordAt(usages, specs, closed, parent, p);
      CountsMatch(usages, specs, closed, parent, p);
      assert Reader(p) in parent <==> Reader(p) in multiset(parent);
      assert Writer(p) in parent <==> Writer(p) in multiset(parent);
    }
  }

  // ---- Spawning ----

  datatype SpawnOutcome =
    | InvalidProcessGraph
    | SpawnFailed
    | Spawned(processes: seq<nat>, pipeReaders: set<PipeId>, pipeWriters: set<PipeId>)

  /** The pipe this endpoint names, if any, is there to be taken. */
  predicate Found(endpoint: Stdio, pipes: set<PipeId>) {
    endpoint.Pipe? ==> endpoint.id in pipes
  }

  predicate AllFound(spec: Spec, pipes: set<PipeId>) {
    Found(spec.stdin, pipes) && Found(spec.stdout, pipes) && Found(spec.stderr, pipes)
  }

  /** Every pipe a child names was created. */
  lemma PipesCreated(specs: seq<Spec>, closed: seq<PipeEnd>, parent: seq<PipeEnd>, pipes: set<PipeId>, i: nat)
    requires WellOwned(specs, closed, parent) && i < |specs|
    requires forall p: PipeId :: p in pipes <==> ReaderOwners(specs, closed, parent, p) == 1
    ensures AllFound(specs[i], pipes)
  {
    forall p: PipeId | Reads(specs[i], p) || Writes(specs[i], p) ensures p in pipes {
      NamedIsOwned(specs, closed, parent, i, p);
    }
    assert specs[i].stdin.Pipe? ==> Reads(specs[i], specs[i].stdin.id);
    assert specs[i].stdout.Pipe? ==> Writes(specs[i], specs[i].stdout.id);
    assert specs[i].stderr.Pipe? ==> Writes(specs[i], specs[i].stderr.id);
  }

  lemma NamedIsOwned(specs: seq<Spec>, closed: seq<PipeEnd>, parent: seq<PipeEnd>, i: nat, p: PipeId)
    requires WellOwned(specs, closed, parent) && i < |specs| && (Reads(specs[i], p) || Writes(specs[i], p))
    ensures ReaderOwners(specs, closed, parent, p) == 1
  {
    assert i in Readers(specs, p) || i in Writers(specs, p);
  }

  /** Whoever a spawned child feeds was spawned before it. */
  ghost predicate ConsumersFirst(specs: seq<Spec>, spawned: seq<nat>) {
    forall i, b: nat :: 0 <= i < |spawned| && FeedsAt(specs, spawned[i], b) ==> b in spawned[..i]
  }

  /** In a good order, what `order[k]` feeds comes later. */
  lemma FedLater(specs: seq<Spec>, order: seq<nat>, k: nat, b: nat)
    requires GoodOrder(specs, order) && k < |order| && FeedsAt(specs, order[k], b)
    ensures exists j :: k < j < |order| && order[j] == b
  {
    assert b in Elements(order);
    var j :| 0 <= j < |order| && order[j] == b;
  }

  /** How the spawn loop ended. */
  datatype Stop = Finished | MissingPipe | CannotSpawn

  /**
   The spawn loop: from the back of the order, taking the ends of the child's
   pipes and filling the handle slots by index.
   */
  method SpawnAll(specs: seq<Spec>, order: seq<nat>, pipes: set<PipeId>, canSpawn: nat -> bool)
    returns (stop: Stop, processes: seq<Option<nat>>, spawned: seq<nat>)
    requires Elements(order) == Nodes(|specs|)
    ensures |spawned| <= |order| && Backwards(order, spawned, |order| - |spawned|)
    ensures stop == MissingPipe ==> exists i: nat :: i < |specs| && !AllFound(specs[i], pipes)
    ensures stop == CannotSpawn ==> exists i: nat :: i < |specs| && !canSpawn(i)
    ensures stop == Finished ==> forall i: nat :: i < |specs| ==> AllFound(specs[i], pipes) && canSpawn(i)
    ensures stop == Finished ==> |processes| == |specs| && forall i :: 0 <= i < |specs| ==> processes[i] == Some(i)
  {
    processes, spawned := seq(|specs|, _ => None), [];
    var k := |order|;
    while k > 0
      invariant 0 <= k <= |order| && |processes| == |specs| && Backwards(order, spawned, k)
      invariant forall i: nat :: i < |specs| && i in order[k..] ==>
        AllFound(specs[i], pipes) && canSpawn(i) && processes[i] == Some(i)
    {
      var index := order[k - 1];
      assert index in Elements(order);
      var spec := specs[index];
      if !Found(spec.stdin, pipes) {
        return MissingPipe, processes, spawned;
      }
      if !Found(spec.stdout, pipes) {
        return MissingPipe, processes, spawned;
      }
      if !Found(spec.stderr, pipes) {
        return MissingPipe, processes, spawned;
      }
      if !canSpawn(index) {
        return CannotSpawn, processes, spawned;
      }
      assert order[k - 1..] == [index] + order[k..];
      processes := processes[index := Some(index)];
      spawned := spawned + [index];
      k := k - 1;
    }
    forall i: nat | i < |specs| ensures AllFound(specs[i], pipes) && canSpawn(i) && processes[i] == Some(i) {
      assert i in Elements(order);
    }
    stop := Finished;
  }

  /** `spawned` is `order[k..]`, last first. */
  ghost predicate Backwards(order: seq<nat>, spawned: seq<nat>, k: nat) {
    && k <= |order| && |spawned| == |order| - k
    && forall i :: 0 <= i < |spawned| ==> spawned[i] == order[|order| - 1 - i]
  }

  lemma BackwardsConsumersFirst(specs: seq<Spec>, order: seq<nat>, spawned: seq<nat>, k: nat)
    requires GoodOrder(specs, order) && Backwards(order, spawned, k)
    ensures ConsumersFirst(specs, spawned)
  {
    forall i, b: nat | 0 <= i < |spawned| && FeedsAt(specs, spawned[i], b) ensures b in spawned[..i] {
      FedLater(specs, order, |order| - 1 - i, b);
      var j :| |order| - 1 - i < j < |order| && order[j] == b;
      assert spawned[..i][|order| - 1 - j] == b;
    }
  }

  /** The handles in order, or nothing when a slot is empty. */
  method FilledSlots(slots: seq<Option<nat>>) returns (processes: Option<seq<nat>>)
    ensures processes.Some? <==> forall i :: 0 <= i < |slots| ==> slots[i].Some?
    ensures processes.Some? ==>
      |processes.value| == |slots| && forall i :: 0 <= i < |slots| ==> slots[i] == Some(processes.value[i])
  {
    var filled := [];
    for i := 0 to |slots|
      invariant |filled| == i && forall j :: 0 <= j < i ==> slots[j] == Some(filled[j])
    {
      if slots[i].None? {
        return None;
      }
      filled := filled + [slots[i].value];
    }
    processes := Some(filled);
  }

  /** The plan's order, taken backwards as far as it got; every way the code can fail, and which of them can happen. */
  method SpawnPlan(specs: seq<Spec>, plan: Plan, canSpawn: nat -> bool) returns (r: SpawnOutcome, spawned: seq<nat>)
    requires GoodOrder(specs, plan.spawnOrder)
    ensures ConsumersFirst(specs, spawned)
    ensures r == InvalidProcessGraph ==> exists i: nat :: i < |specs| && !AllFound(specs[i], plan.pipeIds)
    ensures r == SpawnFailed ==> exists i: nat :: i < |specs| && !canSpawn(i)
    ensures r.Spawned? ==> forall i: nat :: i < |specs| ==> canSpawn(i)
    ensures r.Spawned? ==> |r.processes| == |specs| && forall i :: 0 <= i < |specs| ==> r.processes[i] == i
    ensures r.Spawned? ==> r.pipeReaders == plan.parentReaders && r.pipeWriters == plan.parentWriters
  {
    var stop, slots;
    stop, slots, spawned := SpawnAll(specs, plan.spawnOrder, plan.pipeIds, canSpawn);
    BackwardsConsumersFirst(specs, plan.spawnOrder, spawned, |plan.spawnOrder| - |spawned|);
    match stop
    case MissingPipe => r := InvalidProcessGraph;
    case CannotSpawn => r := SpawnFailed;
    case Finished =>
      var processes := FilledSlots(slots);
      r := if processes.None? then InvalidProcessGraph
        else Spawned(processes.value, plan.parentReaders, plan.parentWriters);
  }

  /**
   The graph bookkeeping of `spawn_native_graph_with_parent_io`. Nothing is
   spawned for an invalid graph; in a valid one no pipe and no process is ever
   missing, consumers come first, and the parent keeps exactly the ends it asked for.
   */
  method SpawnGraph(specs: seq<Spec>, closed: seq<PipeEnd>, parent: seq<PipeEnd>, canSpawn: nat -> bool)
    returns (r: SpawnOutcome, spawned: seq<nat>)
    ensures r == InvalidProcessGraph <==> !ValidPipes(specs, closed, parent)
    ensures r == InvalidProcessGraph ==> spawned == []
    ensures ConsumersFirst(specs, spawned)
    ensures r.Spawned? <==> ValidPipes(specs, closed, parent) && forall i: nat :: i < |specs| ==> canSpawn(i)
    ensures r.Spawned? ==> |r.processes| == |specs| && forall i :: 0 <= i < |specs| ==> r.processes[i] == i
    ensures r.Spawned? ==> forall p: PipeId :: p in r.pipeReaders <==> Reader(p) in parent
    ensures r.Spawned? ==> forall p: PipeId :: p in r.pipeWriters <==> Writer(p) in parent
  {
    var plan := ValidateProcessGraph(specs, closed, parent);
    if plan.None? {
      return InvalidProcessGraph, [];
    }
    r, spawned := SpawnPlan(specs, plan.value, canSpawn);
    forall i: nat | i < |specs| ensures AllFound(specs[i], plan.value.pipeIds) {
      PipesCreated(specs, closed, parent, plan.value.pipeIds, i);
    }
  }
}
