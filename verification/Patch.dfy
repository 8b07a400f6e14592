/**
 Patching files: the size arithmetic that turns edits into tasks, and the
 splice loop that prepares the new contents. Offsets and sizes are unsigned
 64-bit numbers with checked arithmetic.
 */
module Patch {
  import opened Bytes
  import opened Wrappers

  const MAX_PATCH_FILE_BYTES: nat := 128 * 1024 * 1024
  const MAX_PATCH_TOTAL_BYTES: nat := 128 * 1024 * 1024

  type Digest = nat

  datatype Edit = Edit(offset: nat, delete: nat, replacement: Text)

  /** What is asked of one file: its expected digest, if it parses, its edits and the size observed for it. */
  datatype Plan = Plan(digest: Option<Digest>, edits: seq<Edit>, observed: nat)

  datatype Task = Task(digest: Digest, observed: nat, result: nat, edits: seq<Edit>)

  datatype Error = InvalidArgument | WorkLimit | Cancelled

  datatype Result<T> = Ok(value: T) | Err(error: Error)

  datatype Preparation = Ready(replacement: Text) | Conflict(actual: Digest)

  // ---- What edits mean ----

  function End(e: Edit): (r: nat) {
    e.offset + e.delete
  }

  function Apply(text: Text, e: Edit): (r: Text)
    requires End(e) <= |text|
    ensures |r| == |text| - e.delete + |e.replacement|
  {
    text[..e.offset] + e.replacement + text[End(e)..]
  }

  /** In order and not overlapping. */
  ghost predicate Ordered(edits: seq<Edit>) {
    forall i, j :: 0 <= i < j < |edits| ==> End(edits[i]) <= edits[j].offset
  }

  predicate Within(edits: seq<Edit>, size: nat) {
    forall i :: 0 <= i < |edits| ==> End(edits[i]) <= size
  }

  /** The edits applied one at a time, from the last to the first. */
  ghost function ApplyBackwards(text: Text, edits: seq<Edit>): (r: Text)
    requires Ordered(edits) && Within(edits, |text|)
    decreases |edits|
  {
    if edits == [] then text
    else
      var last := |edits| - 1;
      ApplyBackwards(Apply(text, edits[last]), edits[..last])
  }

  function Deleted(edits: seq<Edit>): (r: nat) {
    if edits == [] then 0 else Deleted(edits[..|edits| - 1]) + edits[|edits| - 1].delete
  }

  function Inserted(edits: seq<Edit>): (r: nat) {
    if edits == [] then 0 else Inserted(edits[..|edits| - 1]) + |edits[|edits| - 1].replacement|
  }

  /** The length of the patched text follows from the totals alone. */
  lemma {:induction false} PatchedLength(text: Text, edits: seq<Edit>)
    requires Ordered(edits) && Within(edits, |text|)
    ensures |ApplyBackwards(text, edits)| == |text| - Deleted(edits) + Inserted(edits)
    decreases |edits|
  {
    if edits != [] {
      var last := |edits| - 1;
      PatchedLength(Apply(text, edits[last]), edits[..last]);
    }
  }

  /** What lies behind the edits is carried along unchanged. */
  lemma {:induction false} TailKept(head: Text, tail: Text, edits: seq<Edit>)
    requires Ordered(edits) && Within(edits, |head|)
    ensures ApplyBackwards(head + tail, edits) == ApplyBackwards(head, edits) + tail
    decreases |edits|
  {
    if edits != [] {
      var last := |edits| - 1;
      var e := edits[last];
      assert Apply(head + tail, e) == Apply(head, e) + tail;
      TailKept(Apply(head, e), tail, edits[..last]);
    }
  }

  /** One turn of the splice loop: copy up to the edit, then put in its replacement. */
  lemma SpliceStep(text: Text, edits: seq<Edit>, k: nat, cursor: nat)
    requires k < |edits| && Ordered(edits[..k + 1]) && Within(edits[..k], cursor)
    requires cursor <= edits[k].offset && End(edits[k]) <= |text|
    ensures Ordered(edits[..k]) && Within(edits[..k + 1], End(edits[k]))
    ensures ApplyBackwards(text[..End(edits[k])], edits[..k + 1])
         == ApplyBackwards(text[..cursor], edits[..k]) + text[cursor..edits[k].offset] + edits[k].replacement
  {
    var e := edits[k];
    var done := edits[..k];
    assert edits[..k + 1][..k] == done;
    assert Ordered(done) by {
      forall i, j | 0 <= i < j < |done| ensures End(done[i]) <= done[j].offset {
        assert edits[..k + 1][i] == done[i] && edits[..k + 1][j] == done[j];
      }
    }
    SpliceText(text, done, e, cursor);
  }

  lemma SpliceText(text: Text, done: seq<Edit>, e: Edit, cursor: nat)
    requires Ordered(done) && Within(done, cursor) && cursor <= e.offset && End(e) <= |text|
    ensures ApplyBackwards(Apply(text[..End(e)], e), done)
         == ApplyBackwards(text[..cursor], done) + text[cursor..e.offset] + e.replacement
  {
    var upTo := text[..e.offset];
    assert Apply(text[..End(e)], e) == upTo + e.replacement;
    TailKept(upTo, e.replacement, done);
    assert upTo == text[..cursor] + text[cursor..e.offset];
    TailKept(text[..cursor], text[cursor..e.offset], done);
  }

  // ---- Sizes ----

  function ResultSize(plan: Plan): (r: int) {
    plan.observed - Deleted(plan.edits) + Inserted(plan.edits)
  }

  /** This file can be patched within the limits. */
  predicate Fits(plan: Plan) {
    && plan.digest.Some?
    && Within(plan.edits, plan.observed)
    && Deleted(plan.edits) <= plan.observed
    && ResultSize(plan) <= 0x800_0000
  }

  function TotalSize(plans: seq<Plan>): (r: int) {
    if plans == [] then 0 else TotalSize(plans[..|plans| - 1]) + ResultSize(plans[|plans| - 1])
  }

  /** The task a plan becomes. */
  function TaskOf(plan: Plan): (r: Task)
    requires Fits(plan)
  {
    Task(plan.digest.value, plan.observed, ResultSize(plan), plan.edits)
  }

  lemma {:induction false} DeletedGrows(edits: seq<Edit>, k: nat)
    requires k <= |edits|
    ensures Deleted(edits[..k]) <= Deleted(edits) && Inserted(edits[..k]) <= Inserted(edits)
    decreases |edits|
  {
    if k < |edits| {
      var last := |edits| - 1;
      assert edits[..last][..k] == edits[..k];
      DeletedGrows(edits[..last], k);
    } else {
      assert edits[..k] == edits;
    }
  }

  /** Adds up the deleted bytes, checking every range against the observed size. */
  method SumDeleted(edits: seq<Edit>, observed: nat) returns (r: Result<nat>)
    requires observed <= U64_MAX
    ensures r.Ok? <==> Within(edits, observed) && Deleted(edits) <= U64_MAX
    ensures r.Ok? ==> r.value == Deleted(edits)
    ensures r == Err(InvalidArgument) ==> !Within(edits, observed)
    ensures r == Err(WorkLimit) ==> Deleted(edits) > U64_MAX
    ensures r != Err(Cancelled)
  {
    var total := 0;
    for k := 0 to |edits|
      invariant Within(edits[..k], observed) && total == Deleted(edits[..k]) <= U64_MAX
    {
      var end := End(edits[k]);
      if end > U64_MAX {
        return Err(InvalidArgument);
      }
      if end > observed {
        return Err(InvalidArgument);
      }
      assert edits[..k + 1][..k] == edits[..k];
      DeletedGrows(edits, k + 1);
      if total + edits[k].delete > U64_MAX {
        return Err(WorkLimit);
      }
      total := total + edits[k].delete;
    }
    assert edits[..|edits|] == edits;
    return Ok(total);
  }

  method SumInserted(edits: seq<Edit>) returns (r: Result<nat>)
    ensures r.Ok? <==> Inserted(edits) <= U64_MAX
    ensures r == if Inserted(edits) <= U64_MAX then Ok(Inserted(edits)) else Err(WorkLimit)
  {
    var total := 0;
    for k := 0 to |edits|
      invariant total == Inserted(edits[..k]) <= U64_MAX
    {
      assert edits[..k + 1][..k] == edits[..k];
      DeletedGrows(edits, k + 1);
      if total + |edits[k].replacement| > U64_MAX {
        return Err(WorkLimit);
      }
      total := total + |edits[k].replacement|;
    }
    assert edits[..|edits|] == edits;
    return Ok(total);
  }

  /** The size one patched file will have. */
  method PlanSize(plan: Plan) returns (r: Result<nat>)
    requires plan.observed <= U64_MAX
    ensures r.Ok? <==> Fits(plan.(digest := Some(0)))
    ensures r.Ok? ==> r.value == ResultSize(plan)
    ensures r == Err(InvalidArgument) ==> !Within(plan.edits, plan.observed)
    ensures r == Err(WorkLimit) ==> Deleted(plan.edits) > plan.observed || ResultSize(plan) > 0x800_0000
    ensures r != Err(Cancelled)
  {
    var deleted := SumDeleted(plan.edits, plan.observed);
    if deleted.Err? {
      return deleted;
    }
    var inserted := SumInserted(plan.edits);
    if inserted.Err? {
      return inserted;
    }
    if deleted.value > plan.observed || plan.observed - deleted.value + inserted.value > U64_MAX {
      return Err(WorkLimit);
    }
    var size := plan.observed - deleted.value + inserted.value;
    if size > MAX_PATCH_FILE_BYTES {
      return Err(WorkLimit);
    }
    return Ok(size);
  }

  /** Every file fits, and so do all together. */
  ghost predicate AllFit(plans: seq<Plan>) {
    && (forall i :: 0 <= i < |plans| ==> Fits(plans[i]))
    && TotalSize(plans) <= 0x800_0000
  }

  lemma {:induction false} TotalGrows(plans: seq<Plan>, k: nat)
    requires k <= |plans| && forall i :: 0 <= i < |plans| ==> Fits(plans[i])
    ensures 0 <= TotalSize(plans[..k]) <= TotalSize(plans)
    decreases |plans|
  {
    if k < |plans| {
      var last := |plans| - 1;
      assert plans[..last][..k] == plans[..k];
      TotalGrows(plans[..last], k);
    } else if k > 0 {
      assert plans[..k] == plans;
      TotalGrows(plans[..k - 1], k - 1);
      assert plans[..k - 1][..k - 1] == plans[..k - 1];
    }
  }

  /** If the first `k + 1` plans do not all fit, neither do all the plans. */
  lemma PrefixFits(plans: seq<Plan>, k: nat)
    requires k < |plans| && AllFit(plans)
    ensures AllFit(plans[..k + 1]) && TotalSize(plans[..k + 1]) == TotalSize(plans[..k]) + ResultSize(plans[k])
  {
    TotalGrows(plans, k + 1);
    assert plans[..k + 1][..k] == plans[..k];
  }

  predicate Malformed(plan: Plan) {
    !Within(plan.edits, plan.observed) || plan.digest.None?
  }

  /** File `i` deletes more than there is, or it or the files up to it pass a limit. */
  predicate TooLarge(plans: seq<Plan>, i: int)
    requires 0 <= i < |plans|
  {
    || Deleted(plans[i].edits) > plans[i].observed
    || ResultSize(plans[i]) > 0x800_0000
    || TotalSize(plans[..i + 1]) > 0x800_0000
  }

  /** Builds every task, in order, or fails at the first file that does not fit. */
  method BuildTasks(plans: seq<Plan>) returns (r: Result<seq<Task>>)
    requires forall i :: 0 <= i < |plans| ==> plans[i].observed <= U64_MAX
    ensures r.Ok? <==> AllFit(plans)
    ensures r.Ok? ==> |r.value| == |plans| && forall i :: 0 <= i < |plans| ==> r.value[i] == TaskOf(plans[i])
    ensures r.Ok? ==> forall i :: 0 <= i < |plans| ==>
      && Some(r.value[i].digest) == plans[i].digest && r.value[i].observed == plans[i].observed
      && r.value[i].edits == plans[i].edits && r.value[i].result == ResultSize(plans[i])
    ensures r == Err(InvalidArgument) ==> exists i :: 0 <= i < |plans| && Malformed(plans[i])
    ensures r == Err(WorkLimit) ==> exists i :: 0 <= i < |plans| && TooLarge(plans, i)
    ensures r != Err(Cancelled)
  {
    var total, tasks := 0, [];
    for k := 0 to |plans|
      invariant AllFit(plans[..k]) && total == TotalSize(plans[..k])
      invariant |tasks| == k && forall i :: 0 <= i < k ==> Fits(plans[i]) && tasks[i] == TaskOf(plans[i])
    {
      var task;
      task, total := BuildTask(plans, k, total);
      if task.Err? {
        return Err(task.error);
      }
      tasks := tasks + [task.value];
    }
    assert plans[..|plans|] == plans;
    return Ok(tasks);
  }

  /** One task, and the size of all results up to it. */
  method BuildTask(plans: seq<Plan>, k: nat, total: int) returns (r: Result<Task>, next: int)
    requires k < |plans| && plans[k].observed <= U64_MAX
    requires AllFit(plans[..k]) && total == TotalSize(plans[..k])
    ensures r.Ok? <==> AllFit(plans[..k + 1])
    ensures r.Ok? ==> Fits(plans[k]) && r.value == TaskOf(plans[k]) && next == TotalSize(plans[..k + 1])
    ensures r.Err? ==> !AllFit(plans) && !r.error.Cancelled?
    ensures r == Err(InvalidArgument) ==> Malformed(plans[k])
    ensures r == Err(WorkLimit) ==> TooLarge(plans, k)
  {
    NextFits(plans, k);
    next := total;
    var size := PlanSize(plans[k]);
    if size.Err? {
      return Err(size.error), next;
    }
    if total + size.value > U64_MAX {
      return Err(WorkLimit), next;
    }
    next := total + size.value;
    if next > MAX_PATCH_TOTAL_BYTES {
      return Err(WorkLimit), next;
    }
    if plans[k].digest.None? {
      return Err(InvalidArgument), next;
    }
    return Ok(TaskOf(plans[k])), next;
  }

  lemma NextFits(plans: seq<Plan>, k: nat)
    requires k < |plans| && AllFit(plans[..k])
    ensures AllFit(plans) ==> AllFit(plans[..k + 1])
    ensures AllFit(plans[..k + 1]) <==>
      Fits(plans[k]) && TotalSize(plans[..k]) + ResultSize(plans[k]) <= 0x800_0000
    ensures TotalSize(plans[..k + 1]) == TotalSize(plans[..k]) + ResultSize(plans[k])
    ensures TotalSize(plans[..k]) >= 0
  {
    if AllFit(plans) {
      PrefixFits(plans, k);
    }
    var upTo := plans[..k + 1];
    assert upTo[..k] == plans[..k] && upTo[k] == plans[k];
    assert forall i :: 0 <= i < k ==> upTo[i] == plans[..k][i];
    TotalGrows(plans[..k], 0);
  }

  // ---- Preparation ----

  /**
   Splices the edits into the original. `cancelled(k)` is the answer of the
   k-th look at the cancellation token, `hash` the content digest.
   */
  method PrepareFile(task: Task, original: Text, hash: Text -> Digest, cancelled: nat -> bool)
    returns (r: Result<Preparation>)
    requires |original| <= U64_MAX
    ensures r.Ok? && r.value.Conflict? ==> hash(original) == r.value.actual != task.digest
    ensures r.Ok? && r.value.Ready? <==>
      && (forall k :: 0 <= k <= |task.edits| ==> !cancelled(k))
      && hash(original) == task.digest
      && Ordered(task.edits) && Within(task.edits, |original|)
      && |ApplyBackwards(original, task.edits)| == task.result
    ensures r.Ok? && r.value.Ready? ==> r.value.replacement == ApplyBackwards(original, task.edits)
    ensures r == Err(Cancelled) ==> exists k :: 0 <= k <= |task.edits| && cancelled(k)
    ensures r != Err(WorkLimit)
  {
    if cancelled(0) {
      return Err(Cancelled);
    }
    if hash(original) != task.digest {
      return Ok(Conflict(hash(original)));
    }
    var spliced := Splice(task.edits, original, cancelled);
    if spliced.Err? {
      return Err(spliced.error);
    }
    if |spliced.value| != task.result {
      return Err(InvalidArgument);
    }
    return Ok(Ready(spliced.value));
  }

  method Splice(edits: seq<Edit>, original: Text, cancelled: nat -> bool) returns (r: Result<Text>)
    requires |original| <= U64_MAX && !cancelled(0)
    ensures r.Ok? <==>
      && (forall k :: 0 <= k <= |edits| ==> !cancelled(k))
      && Ordered(edits) && Within(edits, |original|)
    ensures r.Ok? ==> r.value == ApplyBackwards(original, edits)
    ensures r == Err(Cancelled) ==> exists k :: 0 <= k <= |edits| && cancelled(k)
    ensures r != Err(WorkLimit)
  {
    var replacement: Text := [];
    var cursor: nat := 0;
    for k := 0 to |edits|
      invariant forall i :: 0 <= i <= k ==> !cancelled(i)
      invariant Spliced(original, edits, k, cursor, replacement)
    {
      if cancelled(k + 1) {
        return Err(Cancelled);
      }
      var start, end := edits[k].offset, End(edits[k]);
      if end > U64_MAX {
        return Err(InvalidArgument);
      }
      if cursor > start || start > |original| {
        return Err(InvalidArgument);
      }
      SplicedNext(original, edits, k, cursor, replacement);
      replacement := replacement + original[cursor..start] + edits[k].replacement;
      cursor := end;
    }
    if cursor > |original| {
      return Err(InvalidArgument);
    }
    SplicedAll(original, edits, cursor, replacement);
    return Ok(replacement + original[cursor..]);
  }

  /** The first `k` edits are spliced in, up to `cursor`, where the last of them ends. */
  ghost predicate Spliced(original: Text, edits: seq<Edit>, k: nat, cursor: nat, replacement: Text)
    requires k <= |edits|
  {
    && Ordered(edits[..k]) && Within(edits[..k], cursor)
    && cursor == (if k == 0 then 0 else End(edits[k - 1]))
    && (cursor <= |original| ==> replacement == ApplyBackwards(original[..cursor], edits[..k]))
  }

  lemma SplicedNext(original: Text, edits: seq<Edit>, k: nat, cursor: nat, replacement: Text)
    requires k < |edits| && Spliced(original, edits, k, cursor, replacement)
    requires cursor <= edits[k].offset <= |original|
    ensures Spliced(original, edits, k + 1, End(edits[k]),
      replacement + original[cursor..edits[k].offset] + edits[k].replacement)
  {
    OrderedNext(edits, k, cursor);
    if End(edits[k]) <= |original| {
      SpliceStep(original, edits, k, cursor);
    }
  }

  lemma SplicedAll(original: Text, edits: seq<Edit>, cursor: nat, replacement: Text)
    requires Spliced(original, edits, |edits|, cursor, replacement) && cursor <= |original|
    ensures Ordered(edits) && Within(edits, |original|)
    ensures replacement + original[cursor..] == ApplyBackwards(original, edits)
  {
    assert edits[..|edits|] == edits;
    assert original == original[..cursor] + original[cursor..];
    TailKept(original[..cursor], original[cursor..], edits);
  }

  lemma OrderedNext(edits: seq<Edit>, k: nat, cursor: nat)
    requires k < |edits| && Ordered(edits[..k]) && Within(edits[..k], cursor) && cursor <= edits[k].offset
    ensures Ordered(edits[..k + 1]) && Within(edits[..k + 1], End(edits[k]))
  {
    var upTo := edits[..k + 1];
    forall i, j | 0 <= i < j < |upTo| ensures End(upTo[i]) <= upTo[j].offset {
      assert upTo[i] == edits[..k][i];
      if j < k {
        assert upTo[j] == edits[..k][j];
      }
    }
    forall i | 0 <= i < |upTo| ensures End(upTo[i]) <= End(edits[k]) {
      if i < k {
        assert upTo[i] == edits[..k][i];
      }
    }
  }

  /**
   For a task that was built from a plan, preparation needs no more than edits
   in order, without overlap, and a file of the observed size; and then the
   patched text has the size computed beforehand.
   */
  lemma BuiltTaskPrepares(plan: Plan, original: Text)
    requires Fits(plan)
    ensures var task := TaskOf(plan);
      (Ordered(task.edits) && Within(task.edits, |original|) && |ApplyBackwards(original, task.edits)| == task.result)
      <==> (Ordered(plan.edits) && |original| == plan.observed)
  {
    if Ordered(plan.edits) && Within(plan.edits, |original|) {
      PatchedLength(original, plan.edits);
    }
  }

  // ---- Requests ----

  const MAX_ARGUMENT_ITEMS: nat := 1024
  const MAX_PATCH_INLINE_BYTES: nat := 8 * 1024 * 1024

  /** Replacement bytes, given in the request or retained in the result store. */
  datatype Content = Inline(bytes: Text) | Reference(id: nat)

  /** One edit of a request, with the index of the file it is for. */
  datatype FileEdit = FileEdit(file: nat, offset: nat, delete: nat, content: Content)

  datatype Refusal = BadIndex | BadRange | BadOrder | BadCount | TooMuchInline

  function InlineBytes(edits: seq<FileEdit>): (r: nat) {
    if edits == [] then 0
    else InlineBytes(edits[..|edits| - 1]) + InlineSize(edits[|edits| - 1])
  }

  function InlineSize(e: FileEdit): (r: nat) {
    if e.content.Inline? then |e.content.bytes| else 0
  }

  /** The next edit is for a later file, or further on in the same file and not inside what was deleted. */
  predicate Follows(before: FileEdit, e: FileEdit) {
    || before.file < e.file
    || (before.file == e.file && before.offset < e.offset && before.offset + before.delete <= e.offset)
  }

  ghost predicate InSequence(edits: seq<FileEdit>) {
    forall i :: 0 < i < |edits| ==> Follows(edits[i - 1], edits[i])
  }

  ghost predicate Names(edits: seq<FileEdit>, f: nat) {
    exists i :: 0 <= i < |edits| && edits[i].file == f
  }

  predicate Addressed(edits: seq<FileEdit>, files: nat) {
    forall i :: 0 <= i < |edits| ==> edits[i].file < files && edits[i].offset + edits[i].delete <= U64_MAX
  }

  /** What a patch request may ask: edits for every file, in order, without overlap. */
  ghost predicate Acceptable(files: nat, edits: seq<FileEdit>) {
    && 1 <= |edits| <= 1024
    && Addressed(edits, files) && InSequence(edits)
    && (forall f: nat :: f < files ==> Names(edits, f))
    && InlineBytes(edits) <= 0x80_0000
  }

  /** The edits of a request as it is validated when decoded. */
  method ValidateEdits(files: nat, edits: seq<FileEdit>) returns (r: Option<Refusal>)
    ensures r.None? <==> Acceptable(files, edits)
    ensures r == Some(BadOrder) ==> !InSequence(edits)
    ensures r == Some(BadIndex) || r == Some(BadRange) ==> !Addressed(edits, files)
  {
    if edits == [] || |edits| > MAX_ARGUMENT_ITEMS {
      return Some(BadCount);
    }
    var seen: seq<bool> := seq(files, _ => false);
    var inlineBytes := 0;
    for k := 0 to |edits|
      invariant Addressed(edits[..k], files) && InSequence(edits[..k])
      invariant |seen| == files && forall f: nat :: f < files ==> (seen[f] <==> Names(edits[..k], f))
      invariant inlineBytes == InlineBytes(edits[..k])
    {
      var e := edits[k];
      if e.file >= files {
        return Some(BadIndex);
      }
      SeenNext(edits, k, seen);
      seen := seen[e.file := true];
      if e.offset + e.delete > U64_MAX {
        return Some(BadRange);
      }
      assert edits[..k + 1][..k] == edits[..k];
      if e.content.Inline? {
        inlineBytes := inlineBytes + |e.content.bytes|;
      }
      if k > 0 && (e.file < edits[k - 1].file
         || (e.file == edits[k - 1].file
             && (e.offset <= edits[k - 1].offset || e.offset < edits[k - 1].offset + edits[k - 1].delete)))
      {
        return Some(BadOrder);
      }
      SequenceNext(edits, k);
    }
    assert edits[..|edits|] == edits;
    if f: nat :| f < files && !seen[f] {
      return Some(BadCount);
    }
    if inlineBytes > MAX_PATCH_INLINE_BYTES {
      return Some(TooMuchInline);
    }
    return None;
  }

  lemma SequenceNext(edits: seq<FileEdit>, k: nat)
    requires k < |edits| && InSequence(edits[..k]) && (k == 0 || Follows(edits[k - 1], edits[k]))
    ensures InSequence(edits[..k + 1])
  {
    var upTo, before := edits[..k + 1], edits[..k];
    forall i | 0 < i < |upTo| ensures Follows(upTo[i - 1], upTo[i]) {
      if i < k {
        assert Follows(before[i - 1], before[i]);
      }
    }
  }

  lemma SeenNext(edits: seq<FileEdit>, k: nat, seen: seq<bool>)
    requires k < |edits| && edits[k].file < |seen|
    requires forall f: nat :: f < |seen| ==> (seen[f] <==> Names(edits[..k], f))
    ensures var now := seen[edits[k].file := true];
      forall f: nat :: f < |seen| ==> (now[f] <==> Names(edits[..k + 1], f))
  {
    var now := seen[edits[k].file := true];
    forall f: nat | f < |seen| ensures now[f] <==> Names(edits[..k + 1], f) {
      NamesNext(edits, k, f);
    }
  }

  lemma NamesNext(edits: seq<FileEdit>, k: nat, f: nat)
    requires k < |edits|
    ensures Names(edits[..k + 1], f) <==> Names(edits[..k], f) || edits[k].file == f
  {
    var upTo, before := edits[..k + 1], edits[..k];
    assert upTo[k] == edits[k];
    if Names(before, f) {
      var i :| 0 <= i < |before| && before[i].file == f;
      assert upTo[i].file == f;
    }
    if Names(upTo, f) && edits[k].file != f {
      var i :| 0 <= i < |upTo| && upTo[i].file == f;
      assert before[i].file == f;
    }
  }

  /** The bytes an edit puts in; `stored` are the retained results. */
  function Replacement(content: Content, stored: nat -> Text): (r: Text) {
    match content
    case Inline(bytes) => bytes
    case Reference(id) => stored(id)
  }

  function Resolved(e: FileEdit, stored: nat -> Text): (r: Edit) {
    Edit(e.offset, e.delete, Replacement(e.content, stored))
  }

  /** The edits for file `f`, in request order. */
  function EditsOf(edits: seq<FileEdit>, f: nat, stored: nat -> Text): (r: seq<Edit>) {
    if edits == [] then []
    else
      var last := edits[|edits| - 1];
      EditsOf(edits[..|edits| - 1], f, stored) + if last.file == f then [Resolved(last, stored)] else []
  }

  function ReplacementBytes(edits: seq<FileEdit>, stored: nat -> Text): (r: nat) {
    if edits == [] then 0
    else ReplacementBytes(edits[..|edits| - 1], stored) + |Replacement(edits[|edits| - 1].content, stored)|
  }

  lemma {:induction false} ReplacementGrows(edits: seq<FileEdit>, stored: nat -> Text, k: nat)
    requires k <= |edits|
    ensures ReplacementBytes(edits[..k], stored) <= ReplacementBytes(edits, stored)
    decreases |edits|
  {
    if k < |edits| {
      var last := |edits| - 1;
      assert edits[..last][..k] == edits[..k];
      ReplacementGrows(edits[..last], stored, k);
    } else {
      assert edits[..k] == edits;
    }
  }

  /** This edit names a file, and what it retains is not larger than a file may be. */
  predicate Resolvable(e: FileEdit, files: nat, stored: nat -> Text) {
    e.file < files && (e.content.Reference? ==> |Replacement(e.content, stored)| <= 0x800_0000)
  }

  /** Sorts the edits of a request by file. */
  method ResolveEdits(files: nat, edits: seq<FileEdit>, stored: nat -> Text) returns (r: Result<seq<seq<Edit>>>)
    ensures r.Ok? ==> |r.value| == files && forall f: nat :: f < files ==> r.value[f] == EditsOf(edits, f, stored)
    ensures r.Ok? <==>
      && (forall i :: 0 <= i < |edits| ==> Resolvable(edits[i], files, stored))
      && ReplacementBytes(edits, stored) <= 0x800_0000
    ensures r == Err(InvalidArgument) ==> exists i :: 0 <= i < |edits| && edits[i].file >= files
    ensures r != Err(Cancelled)
  {
    var byFile: seq<seq<Edit>> := seq(files, _ => []);
    var total := 0;
    for k := 0 to |edits|
      invariant SortedByFile(files, edits[..k], stored, byFile)
      invariant forall i :: 0 <= i < k ==> Resolvable(edits[i], files, stored)
      invariant total == ReplacementBytes(edits[..k], stored) <= MAX_PATCH_TOTAL_BYTES
    {
      var e := edits[k];
      var bytes := if e.content.Inline? then e.content.bytes else stored(e.content.id);
      var size := |bytes|;
      if e.content.Reference? && size > MAX_PATCH_FILE_BYTES {
        return Err(WorkLimit);
      }
      ReplacementNext(edits, stored, k);
      total := total + size;
      if total > MAX_PATCH_TOTAL_BYTES {
        return Err(WorkLimit);
      }
      if e.file >= files {
        return Err(InvalidArgument);
      }
      SortedNext(files, edits, stored, byFile, k, Edit(e.offset, e.delete, bytes));
      byFile := byFile[e.file := byFile[e.file] + [Edit(e.offset, e.delete, bytes)]];
    }
    assert edits[..|edits|] == edits;
    return Ok(byFile);
  }

  ghost predicate SortedByFile(files: nat, edits: seq<FileEdit>, stored: nat -> Text, byFile: seq<seq<Edit>>) {
    |byFile| == files && forall f: nat :: f < files ==> byFile[f] == EditsOf(edits, f, stored)
  }

  lemma SortedNext(files: nat, edits: seq<FileEdit>, stored: nat -> Text, byFile: seq<seq<Edit>>, k: nat, e: Edit)
    requires k < |edits| && edits[k].file < files && SortedByFile(files, edits[..k], stored, byFile)
    requires e == Resolved(edits[k], stored)
    ensures SortedByFile(files, edits[..k + 1], stored, byFile[edits[k].file := byFile[edits[k].file] + [e]])
  {
    assert edits[..k + 1][..k] == edits[..k];
  }

  lemma ReplacementNext(edits: seq<FileEdit>, stored: nat -> Text, k: nat)
    requires k < |edits|
    ensures ReplacementBytes(edits[..k + 1], stored)
         == ReplacementBytes(edits[..k], stored) + |Replacement(edits[k].content, stored)|
    ensures ReplacementBytes(edits[..k + 1], stored) <= ReplacementBytes(edits, stored)
  {
    assert edits[..k + 1][..k] == edits[..k];
    ReplacementGrows(edits, stored, k + 1);
  }

  /** In a sequence, edits of one file are apart. */
  lemma {:induction false} Apart(edits: seq<FileEdit>, i: nat, j: nat)
    requires InSequence(edits) && i < j < |edits|
    ensures edits[i].file <= edits[j].file
    ensures edits[i].file == edits[j].file ==> edits[i].offset + edits[i].delete <= edits[j].offset
    decreases j
  {
    assert Follows(edits[j - 1], edits[j]);
    if i < j - 1 {
      Apart(edits, i, j - 1);
    }
  }

  lemma {:induction false} EditsWithin(edits: seq<FileEdit>, n: nat, f: nat, stored: nat -> Text, bound: nat)
    requires n <= |edits| && forall i :: 0 <= i < n && edits[i].file == f ==> edits[i].offset + edits[i].delete <= bound
    ensures Within(EditsOf(edits[..n], f, stored), bound)
  {
    if n > 0 {
      EditsWithin(edits, n - 1, f, stored, bound);
      assert edits[..n][..n - 1] == edits[..n - 1];
    }
  }

  /** What is validated when decoded reaches the splice in order and without overlap. */
  lemma {:induction false} EditsAreOrdered(edits: seq<FileEdit>, n: nat, f: nat, stored: nat -> Text)
    requires InSequence(edits) && n <= |edits|
    ensures Ordered(EditsOf(edits[..n], f, stored))
  {
    if n > 0 {
      EditsAreOrdered(edits, n - 1, f, stored);
      assert edits[..n][..n - 1] == edits[..n - 1];
      if edits[n - 1].file == f {
        forall i | 0 <= i < n - 1 && edits[i].file == f ensures edits[i].offset + edits[i].delete <= edits[n - 1].offset {
          Apart(edits, i, n - 1);
        }
        EditsWithin(edits, n - 1, f, stored, edits[n - 1].offset);
      }
    }
  }

  /** For a validated request, the only way a file that fits can fail to splice is that its size has changed. */
  lemma ValidatedPrepares(
    files: nat, edits: seq<FileEdit>, stored: nat -> Text, f: nat, digest: Digest, observed: nat, original: Text)
    requires Acceptable(files, edits) && f < files && Fits(Plan(Some(digest), EditsOf(edits, f, stored), observed))
    ensures var task := TaskOf(Plan(Some(digest), EditsOf(edits, f, stored), observed));
      (Ordered(task.edits) && Within(task.edits, |original|) && |ApplyBackwards(original, task.edits)| == task.result)
      <==> |original| == observed
  {
    EditsAreOrdered(edits, |edits|, f, stored);
    assert edits[..|edits|] == edits;
    BuiltTaskPrepares(Plan(Some(digest), EditsOf(edits, f, stored), observed), original);
  }
}
