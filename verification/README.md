# Ash machine core: a verified model

A Dafny model of the parts of the ash shell whose promises reach over whole
texts, whole runs or all interleavings, with proofs of those promises.

| module | what it models |
|---|---|
| `Wrappers`, `Bytes`, `Lines` | optional values, byte strings, decimal counts, LF-ended lines and the line-offset table |
| `Fingerprint`, `BlockHash`, `BlockSearch`, `BlockMeaning`, `BlockCollapse`, `BlockBound` | the repeated-block reducer: rotate-and-xor prefix hashes, the hashed search, the exact search, what the best block is in terms of the lines alone, the greedy projection, and where the two searches part |
| `LineRuns`, `ErrorFocus` | the repeated-line reducer and the error-focused reducer |
| `Utf8`, `StreamTracking`, `Projection` | UTF-8 as section 4 of RFC 3629 defines it, chunked stream tracking, and the projection of captured output |
| `Graphs`, `Dag`, `ProcessGraph` | Kahn's algorithm, the DAG executor, the pipe-graph validator and spawn order |
| `Rpc` | the RPC server loop |
| `Session`, `Cancellation`, `Budget`, `Permits` | the session registry, the cancellation wake-up protocol, budget counters, the permit authority |
| `Patch`, `Snapshot`, `LineSelect` | the patch splice, the snapshot delta, the two line selectors |

Modelling choices:

- Text is a sequence of bytes. Machine widths are written out where they can
  be reached: 32-bit repetition counts, 16-bit block sizes, checked 64-bit
  sums, sequence numbers and counters.
- Loops of the source are methods with loops, and `StreamText` and
  `PermitAuthority` are classes. Each is proved against a specification that
  does not mention the loop.
- Concurrency is a step relation over states, one step per lock, flag, compare
  and exchange, select or await; theorems are about the last state of every
  run, or about any two states of it. In `Dag` and `Rpc` the order in which
  work completes is an arbitrary choice or an arbitrary schedule.
- Keyed and content hashes are function values. Where distinct nonces matter,
  that different numbers give different nonces is a stated hypothesis.
- Clocks, write failures, spawn failures and cancellation polls are arguments.

Where a function does not meet what one would expect of it, it is modelled as it
is and the exact condition is proved:

- The hashed block search agrees with the exact search on every text of fewer
  than 2^33 lines. From there on its 32-bit repetition count can make it
  overlook a block: for every larger number of lines there are a text and a
  comparison that never separates equal ranges for which it does
  (`BlockBound.CountsMustFit`). That nothing is lost and nothing grows holds for
  texts of any size.
- `Session::close` promises cancelled programs only to the caller that won the
  swap; another caller can return while a program is still uncancelled
  (`Session.LoserMayReturnEarly`, `Session.ClosedCancelsAll`).
- A patch task that was built can fail to splice exactly when its edits are out
  of order or overlap, or the file has changed size (`Patch.BuiltTaskPrepares`).
  Requests are validated first, and validated edits are always in order
  (`Patch.EditsAreOrdered`), so only the changed size remains
  (`Patch.ValidatedPrepares`).
- The two line selectors differ exactly when zero lines are asked for from the
  first line of a nonempty text. Validation refuses zero lines, so requests
  that reach them select alike (`LineSelect.SelectBoth`).

## Model

| member | source | states |
|---|---|---|
| `Bytes.DecimalDigits` | crates/ash-ops/src/reducer.rs:590-597 | counts the digits of the decimal spelling without spelling it |
| `Bytes.DecimalValue` | crates/ash-ops/src/reducer.rs:582-584 | reading a decimal spelling gives the number back |
| `Bytes.DecimalGrowth` | crates/ash-ops/src/reducer.rs:582-597 | a larger count costs at most as many more digits as it is larger |
| `Lines.NewLayout` | crates/ash-ops/src/reducer.rs:355-369 | one pass yields the end offset of every line and the number of LF-ended lines |
| `Lines.LayoutUnique` | crates/ash-ops/src/reducer.rs:348-369 | a text has only one valid offset table |
| `Lines.LineLayout.Span` | crates/ash-ops/src/reducer.rs:383-387 | the slice between two table entries is the concatenation of those lines |
| `Lines.LineLayout.SpanLen` | crates/ash-ops/src/reducer.rs:389-391 | the offset difference is the length of those lines |
| `Lines.LineLayout.Line` | crates/ash-ops/src/reducer.rs:379-381 | the slice is that one line of the text |
| `Lines.SplitLines` | crates/ash-ops/src/reducer.rs:155-155 | splitting loses no byte, and only the last line may lack its LF |
| `Lines.SplitConcat` | crates/ash-ops/src/reducer.rs:155-155 | a text has only one division into lines |
| `Lines.ConcatInjective` | crates/ash-ops/src/reducer.rs:539-551 | blocks of complete lines are equal as bytes exactly when equal line by line |
| `BlockHash.RangeStep` | crates/ash-ops/src/reducer.rs:567-570 | extending a range by one line rotates its hash and xors that line's fingerprint, for every rotation |
| `BlockHash.EqualPrintsHashEqually` | crates/ash-ops/src/reducer.rs:567-570 | a range hash depends only on the fingerprints inside the range, not on what precedes it |
| `BlockHash.PrefixSound` | crates/ash-ops/src/reducer.rs:400-419 | equal line ranges hash equally |
| `BlockHash.NewHashes` | crates/ash-ops/src/reducer.rs:400-413 | the two tables built from the fingerprint loop give a comparison that never separates equal line ranges |
| `BlockHash.TablesSound` | crates/ash-ops/src/reducer.rs:400-419 | that holds whatever the fingerprints are |
| `BlockSearch.BlockMarkerLen` | crates/ash-ops/src/reducer.rs:586-588 | equals the length of the marker text it does not build |
| `BlockSearch.MarkerShows` | crates/ash-ops/src/reducer.rs:582-584 | a marker is the multiplication sign, the repetition count, a number sign, the block size and LF, and both numbers can be read back from it |
| `BlockSearch.CandidateSaves` | crates/ash-ops/src/reducer.rs:500-523 | blocks that fit make a candidate exactly when writing the block once with its marker is shorter than the lines it stands for and both counts fit their widths; the savings are the bytes saved |
| `BlockSearch.CountRepetitions` | crates/ash-ops/src/reducer.rs:486-492 | finds the largest number of consecutive equal blocks |
| `BlockSearch.ExactCount` | crates/ash-ops/src/reducer.rs:486-492 | that many blocks equal the first and the next one does not |
| `BlockSearch.BestExactCandidate` | crates/ash-ops/src/reducer.rs:481-498 | computes the fold over block sizes that `BestIsBest` and `BlockMeaning.ExactIsTheBest` characterize |
| `BlockSearch.BestIsBest` | crates/ash-ops/src/reducer.rs:481-537 | the exact search returns a candidate that no other block size up to the largest tried beats under savings, then size, then repetitions, or none if there is none |
| `BlockSearch.BestUnique` | crates/ash-ops/src/reducer.rs:525-537 | the preference order leaves only one best candidate |
| `BlockSearch.SavingsGrow` | crates/ash-ops/src/reducer.rs:500-523 | more repetitions of a block save strictly more, although the marker may grow |
| `BlockSearch.RepeatShift` | crates/ash-ops/src/reducer.rs:441-479 | real repetition makes the text agree with itself shifted by one block |
| `BlockMeaning.TiledRepeats` | crates/ash-ops/src/reducer.rs:486-492 | LF-ended lines that recur every `k` lines are blocks the byte comparison finds equal |
| `BlockMeaning.RepeatsTiled` | crates/ash-ops/src/reducer.rs:486-492 | blocks the byte comparison finds equal are LF-ended lines that recur every `k` lines |
| `BlockMeaning.ExactIsTheBest` | crates/ash-ops/src/reducer.rs:481-537 | below 2^33 lines the candidate found is, among all blocks of 2 to 32 lines that repeat here and save bytes, the one that saves most, and of those the smallest |
| `BlockMeaning.ExactNone` | crates/ash-ops/src/reducer.rs:481-537 | below 2^33 lines, where no candidate is found no block of 2 to 32 lines repeats and saves bytes |
| `BlockSearch.HashedLongestCommonPrefix` | crates/ash-ops/src/reducer.rs:462-479 | the binary search never undershoots the true common prefix, however hashes collide |
| `BlockSearch.HashedCount` | crates/ash-ops/src/reducer.rs:441-460 | the repetitions derived from the common prefix are at least the real ones and stay inside the text |
| `BlockSearch.NoRepeat` | crates/ash-ops/src/reducer.rs:450-452 | a block size skipped because hashes differ has no exact candidate |
| `BlockSearch.Propose` | crates/ash-ops/src/reducer.rs:449-458 | one block size keeps that, and changes nothing when its hashes differ or its count does not fit |
| `BlockSearch.BestHashedCandidate` | crates/ash-ops/src/reducer.rs:441-460 | the proposal is an overcount of some block size or nothing; below 2^33 lines no exact candidate beats it |
| `BlockSearch.CandidateIsExact` | crates/ash-ops/src/reducer.rs:539-551 | decides whether every proposed repetition equals the block |
| `BlockSearch.VerifiedCandidate` | crates/ash-ops/src/reducer.rs:553-565 | what is returned really repeats and really saves bytes, for any text; for a proposal no exact candidate beats, under any collisions, it is exactly the answer of the exact search |
| `BlockBound.CountsMustFit` | crates/ash-ops/src/reducer.rs:441-565 | for every number of lines from 2^33 on: a text and a sound comparison for which the verified proposal is nothing although the exact search finds a block |
| `BlockCollapse.CollapseRepeatedBlocks` | crates/ash-ops/src/reducer.rs:180-236 | for every text and batch size the segments restore the input byte for byte, each block saves a byte, the counters are exact; below 2^33 lines they are those of the one-line-at-a-time greedy scan with the exact candidate: each block is the one of 2 to 32 lines that saves most at its place, and a line stands alone only where no block that repeats there saves bytes |
| `BlockCollapse.CollapseBatch` | crates/ash-ops/src/reducer.rs:198-227 | one batch goes on walking the source faithfully, along the greedy scan where counts fit |
| `BlockCollapse.ExactChoosesRightly` | crates/ash-ops/src/reducer.rs:211-227 | below 2^33 lines the exact search writes at every line the block that saves most there, or the line itself where none saves |
| `BlockCollapse.CollapseIsFaithful` | crates/ash-ops/src/reducer.rs:180-236 | any walk over all lines expands to the text, is shorter by at least a byte per block, and omits exactly the lines it does not keep |
| `BlockCollapse.WalkTotals` | crates/ash-ops/src/reducer.rs:214-223 | at every point omitted plus kept lines are the lines walked, and the text written is shorter than them by a byte per block |
| `BlockCollapse.SureFaithful` | crates/ash-ops/src/reducer.rs:211-227 | the segment of any checked candidate stands for exactly its source lines, in fewer bytes if it is a block |
| `BlockCollapse.ShortText` | crates/ash-ops/src/reducer.rs:182-184 | returning texts of fewer than four complete lines unchanged agrees with the greedy scan |
| `LineRuns.LocalRuns` | crates/ash-ops/src/reducer.rs:605-617 | one partition becomes its run-length encoding with a change between runs |
| `LineRuns.RunShows` | crates/ash-ops/src/reducer.rs:644-644 | a run marker is the multiplication sign, the number of lines and LF, and the number can be read back |
| `LineRuns.MergeRuns` | crates/ash-ops/src/reducer.rs:619-632 | merging the encodings of any contiguous partitions gives the encoding of the whole |
| `LineRuns.EncodingUnique` | crates/ash-ops/src/reducer.rs:605-632 | lines have only one maximal run-length encoding, so partitioning cannot show |
| `LineRuns.EncodeRuns` | crates/ash-ops/src/reducer.rs:634-662 | writes each run once with its marker where that is shorter and in full otherwise, with matching counters |
| `LineRuns.RunsAreFaithful` | crates/ash-ops/src/reducer.rs:634-662 | expanding the runs restores the lines, the text shrinks by at least a byte per collapsed run, omitted plus kept lines are the source lines |
| `LineRuns.CollapseRepeatedLines` | crates/ash-ops/src/reducer.rs:154-171 | for every partition size and parallel threshold: unique maximal runs, restorable, never longer, exact omission count |
| `LineRuns.ShortRuns` | crates/ash-ops/src/reducer.rs:155-158 | returning texts of fewer than two lines unchanged agrees with encoding them |
| `ErrorFocus.MarkRetained` | crates/ash-ops/src/reducer.rs:267-280 | a line is kept exactly when it is among the first or last two or within two before to six after an anchor |
| `ErrorFocus.OmissionMarkerLen` | crates/ash-ops/src/reducer.rs:344-346 | equals the length of the marker text |
| `ErrorFocus.OmissionShows` | crates/ash-ops/src/reducer.rs:340-342 | an omission marker is an ellipsis, the number of lines and LF, and the number can be read back |
| `ErrorFocus.EmitFocused` | crates/ash-ops/src/reducer.rs:282-305 | the loop writes exactly the segments of the specification and counts them |
| `ErrorFocus.FocusAligned` | crates/ash-ops/src/reducer.rs:282-305 | segments walk the source in order; each marker stands for one maximal gap of unkept lines with its exact count, and only where it is shorter |
| `ErrorFocus.AlignedFaithful` | crates/ash-ops/src/reducer.rs:282-313 | refilling the gaps restores the source; a byte is saved per marker; omitted plus shown lines are the source lines |
| `ErrorFocus.KeptVerbatim` | crates/ash-ops/src/reducer.rs:282-305 | every kept line appears verbatim at its place: the segments before it stand for the lines before it |
| `ErrorFocus.FocusErrorOutput` | crates/ash-ops/src/reducer.rs:246-313 | no diagnostics: unchanged; otherwise the focused segments with exact counters; never longer than the input |
| `ErrorFocus.FocusIsFaithful` | crates/ash-ops/src/reducer.rs:246-313 | for every diagnosed text: refill restores it, it never grows, lines add up, and every line to be kept is shown at its place |
| `Utf8.FromUtf8Meaning` | crates/ash-ops/src/exec.rs:529-546 | the decoder stops where valid text ends, and its two errors are opposites: unfinished exactly when some continuation makes the stream valid, final exactly when none does |
| `Utf8.BoundarySplits` | crates/ash-ops/src/exec.rs:553-567 | in valid text character boundaries are exactly where a cut leaves valid text on both sides |
| `Utf8.NearBoundary` | crates/ash-ops/src/exec.rs:553-567 | a boundary lies at most three bytes before and after any position |
| `Utf8.FloorBoundary` | crates/ash-ops/src/exec.rs:553-559 | the last boundary at or before the index, at most three bytes back, both halves valid |
| `Utf8.CeilBoundary` | crates/ash-ops/src/exec.rs:561-567 | the first boundary at or after the index, at most three bytes on, both halves valid |
| `Utf8.CompleteHead` | crates/ash-ops/src/exec.rs:453-462 | the longest valid prefix; from the head of a valid stream it drops at most three bytes |
| `Utf8.CompleteTail` | crates/ash-ops/src/exec.rs:464-471 | the longest valid suffix within three bytes of the whole, else nothing; for the tail of a valid stream three bytes always suffice |
| `StreamTracking.DecodeContinues` | crates/ash-ops/src/exec.rs:529-546 | decoding the pending bytes with the new chunk judges the whole stream so far |
| `StreamTracking.CrLfAppend` | crates/ash-ops/src/exec.rs:509-527 | CR LF in a concatenation lies in one part or across the seam |
| `StreamTracking.StreamText.Observe` | crates/ash-ops/src/exec.rs:509-527 | after any chunk the fields describe the whole stream so far: open or hopeless, CR LF seen, last byte CR |
| `StreamTracking.StreamText.Validate` | crates/ash-ops/src/exec.rs:529-546 | the stream stays open with its unfinished character pending, or is hopeless |
| `StreamTracking.StreamText.IsText` | crates/ash-ops/src/exec.rs:548-550 | true exactly when the whole stream is valid UTF-8, with at most three pending bytes |
| `StreamTracking.Track` | crates/ash-ops/src/exec.rs:490-551 | for every way of cutting a stream into chunks the verdicts are those of the whole stream |
| `Projection.ReplaceKeepsValid` | crates/ash-ops/src/exec.rs:473-479 | replacing CR LF by LF keeps text valid |
| `Projection.ReplaceMeans` | crates/ash-ops/src/exec.rs:473-479 | replacement takes the text apart at its CR LF pairs, leaving none in the parts, and joins the parts with LF |
| `Projection.CutExcerpt` | crates/ash-ops/src/exec.rs:387-405 | the excerpt consists of the longest boundary-safe head within half the room and the tail that fills the rest; it is valid and within the limit |
| `Projection.Reduce` | crates/ash-ops/src/exec.rs:361-372 | the result is line collapsing, then block collapsing, then, if asked, error focus; valid, and shorter exactly when reported as reduced |
| `Projection.Project` | crates/ash-ops/src/exec.rs:347-406 | not UTF-8: no text; otherwise the reducers' result of the normalized text, whole if it fits and excerpted if not, always valid and within the limit, with exact flags |
| `Projection.NormalizeHeadValid` | crates/ash-ops/src/exec.rs:481-488 | turning a cut CR LF into LF keeps the head valid |
| `Projection.HeadIsNormal` | crates/ash-ops/src/exec.rs:481-488 | the normalized head of a stream is the normalization of the stream up to the cut, or up to the LF that completes a cut CR LF |
| `Projection.BlocksStayValid` | crates/ash-ops/src/exec.rs:363-364 | block collapsing keeps text valid, for texts of any size |
| `Projection.ProjectSampled` | crates/ash-ops/src/exec.rs:408-451 | text is given exactly for text streams with a limit of at least eight; it is the valid excerpt of the two samples, trimmed to whole characters and normalized |
| `Projection.SampledFromStream` | crates/ash-ops/src/exec.rs:408-451 | for samples of a valid stream the excerpt is a beginning and an end of the normalized stream: the head is the stream, normalized, up to the cut or to the LF just behind it; trimming to whole characters costs at most three bytes on each side |
| `Graphs.StuckDecides` | crates/ash-engine/src/dag.rs:174-193 | when the queue is empty, all nodes were visited exactly if there is no cycle |
| `Graphs.Drain` | crates/ash-engine/src/dag.rs:179-188 | the queue loop leaves a topological order that no remaining node can extend |
| `Graphs.NoTrap` | crates/ash-engine/src/dag.rs:189-193 | nodes that all wait for each other contain a cycle |
| `Dag.Validate` | crates/ash-engine/src/dag.rs:154-194 | accepts exactly the nonempty graphs with strictly increasing, in-range, non-self dependencies and no cycle |
| `Dag.Progress` | crates/ash-engine/src/dag.rs:106-109 | an unsettled valid graph always has a job running, so the loop cannot stall |
| `Dag.Settle` | crates/ash-engine/src/dag.rs:110-141 | recording one completion and telling all dependents, skipped ones included, keeps the books exact |
| `Dag.Execute` | crates/ash-engine/src/dag.rs:71-152 | invalid graphs start nothing; for valid ones and every completion order: a job runs exactly when every job it waits for ran and finished successfully; lowest-index error or exact outcomes; each job at most once and only after its dependencies finished successfully; every started job ended |
| `Dag.RanMeans` | crates/ash-engine/src/dag.rs:110-141 | which nodes ran: exactly those whose dependencies all ran, finished and reported success |
| `Dag.RanSetUnique` | crates/ash-engine/src/dag.rs:64-70 | the graph and the job results determine which nodes run |
| `Dag.AnswerUnique` | crates/ash-engine/src/dag.rs:64-70 | two runs of one graph with the same job results return the same value |
| `ProcessGraph.ClaimChildren` | crates/ash-platform/src/process.rs:907-923 | the usage map records every child's ends; refusal means no choice of other ends makes the graph well owned |
| `ProcessGraph.ClaimEnds` | crates/ash-platform/src/process.rs:925-963 | closed and parent ends are recorded; refusal means some end is owned twice |
| `ProcessGraph.CollectEdges` | crates/ash-platform/src/process.rs:965-986 | every pipe has one owner per end, and the edges are the child-to-child pipes with their counts |
| `ProcessGraph.EdgesAreFeeds` | crates/ash-platform/src/process.rs:965-986 | the collected edges are exactly who writes into whose pipe, so cycles agree |
| `ProcessGraph.ValidateProcessGraph` | crates/ash-platform/src/process.rs:901-1024 | accepts exactly when every named pipe has one reader and one writer owner and children do not feed each other in a circle; the order is a permutation with writers before readers; pipes and parent ends are exact |
| `ProcessGraph.PipesCreated` | crates/ash-platform/src/process.rs:725-767 | in a well-owned graph every pipe a child names was created, so taking its ends cannot fail |
| `ProcessGraph.BackwardsConsumersFirst` | crates/ash-platform/src/process.rs:543-574 | taking the order from the back spawns every reader before its writer |
| `ProcessGraph.SpawnAll` | crates/ash-platform/src/process.rs:543-554 | the loop goes backwards; it stops early only for a pipe that was not created or a spawn that fails, and otherwise fills every slot |
| `ProcessGraph.SpawnGraph` | crates/ash-platform/src/process.rs:491-584 | invalid graphs spawn nothing; in valid ones the later errors for missing pipes and missing processes never occur, consumers are spawned first, and the parent keeps exactly the ends it asked for |
| `Rpc.FlushReady` | crates/ash-cli/src/rpc.rs:171-192 | writes the contiguous prefix in order and leaves the next response unbuffered; it fails only for a response that exists and cannot be written, and then leaves an in-order prefix |
| `Rpc.ReceiveStep` | crates/ash-cli/src/rpc.rs:88-138 | reading a frame keeps the invariant, back-pressure bound included, whether it runs, is answered at once or is fatal |
| `Rpc.JoinStep` | crates/ash-cli/src/rpc.rs:140-145 | a finished task moves from running to buffered |
| `Rpc.HandleStep` | crates/ash-cli/src/rpc.rs:86-159 | every enabled event keeps: responses in request order, buffered and running numbers partition the open range, at most the allowed number pending; only a fatal event ends the service, and a finished task's response is buffered under its number |
| `Rpc.MadeStep` | crates/ash-cli/src/rpc.rs:86-159 | whatever the events so far: the requests are the frames received, the service is over exactly after a fatal event, the running tasks are the executed frames whose task has not ended, and a number is answered exactly by the answer given at once or by its task |
| `Rpc.NeverStuck` | crates/ash-cli/src/rpc.rs:75-86 | the select is never reached with both branches disabled |
| `Rpc.AllAnswered` | crates/ash-cli/src/rpc.rs:162-168 | with the input ended and no task left, every accepted request is answered |
| `Rpc.Serve` | crates/ash-cli/src/rpc.rs:65-168 | for every schedule and write behaviour: responses 0, 1, 2, ... in order without gap or repeat, each the answer its frame or its task gave; a clean end means no fatal event, the input ended and every request answered; failure only after a fatal event and with no task left; an early stop only for a write that fails, a response that cannot be built or sequence numbers that run out |
| `Budget.StepKeepsInv` | crates/ash-engine/src/budget.rs:106-134 | every load, failed or successful exchange keeps the counter exact, within the limit and non-decreasing |
| `Budget.RunsAreExact` | crates/ash-engine/src/budget.rs:106-134 | in every interleaving the counter is the sum of accepted amounts, and every rejected amount still would not fit, with a reported total over the limit or overflowing |
| `Budget.RejectedMovesNothing` | crates/ash-engine/src/budget.rs:106-134 | in every interleaving a reservation that is rejected in the end changed the counter in none of its steps |
| `Cancellation.RunsKeepInv` | crates/ash-engine/src/cancellation.rs:20-43 | in every interleaving a waiter asleep on a set flag has its wake-up coming |
| `Cancellation.NoLostWakeup` | crates/ash-engine/src/cancellation.rs:20-43 | in every interleaving, from any notified state on, no step of anyone takes a waiter further from returning and each own step brings it nearer; after three own steps it has returned |
| `Cancellation.OnlyFirstWins` | crates/ash-engine/src/cancellation.rs:20-26 | at most one caller is told it cancelled the token |
| `Cancellation.ReturnMeansCancelled` | crates/ash-engine/src/cancellation.rs:33-43 | a wait returns only from a cancelled token |
| `Session.StepKeepsInv` | crates/ash-engine/src/runtime.rs:129-241 | every step of register, close, cancel, start, child and the drops keeps the ownership, lock, token and close invariants |
| `Session.RunsKeepInv` | crates/ash-engine/src/runtime.rs:129-241 | they hold in every reachable state of every interleaving |
| `Session.OwnerKeepsOwners` | crates/ash-engine/src/runtime.rs:203-235 | making the lease, clearing the flag, dropping the value before or after that, sharing and dropping the lease leave each registration with one pending or past removal or a live object |
| `Session.ActiveHasOneOwner` | crates/ash-engine/src/runtime.rs:129-347 | over all runs each active id has exactly one owner, from registration through start and shared leases to the end of its drop, and its token is the stored one |
| `Session.UnregisteredOnce` | crates/ash-engine/src/runtime.rs:229-347 | a registration is unregistered at most once, and exactly once when none of its objects is left |
| `Session.NoStaleRemoval` | crates/ash-engine/src/runtime.rs:343-347 | unregistering by id always removes the registration that asked for it, never a later one of the same id |
| `Session.ClosedCancelsAll` | crates/ash-engine/src/runtime.rs:164-171 | once the close call that won the swap has returned, every live token is cancelled |
| `Session.NoLaterRegistration` | crates/ash-engine/src/runtime.rs:129-171 | from the moment the winner holds the lock, no registration succeeds for the rest of the run |
| `Session.RefusedRightly` | crates/ash-engine/src/runtime.rs:129-155 | a registration is refused only in a closed session or while its id has an owner |
| `Session.RegisteredRightly` | crates/ash-engine/src/runtime.rs:129-155 | a registration that succeeds owns its id, which nobody owned before |
| `Session.CancelReachesOwner` | crates/ash-engine/src/runtime.rs:157-162 | in every reachable state cancelling an id cancels the token of the registration that owns it and no other, and answers true exactly if there is one that was not cancelled yet |
| `Session.LoserMayReturnEarly` | crates/ash-engine/src/runtime.rs:164-171 | a run in which a close call that lost the swap returns while a program is not cancelled |
| `Permits.NewAuthority` | crates/ash-ops/src/authorization.rs:138-156 | succeeds exactly for a well-formed policy name and a key and binding that are not all zero, and then starts empty |
| `Permits.PermitAuthority.Purge` | crates/ash-ops/src/authorization.rs:391-396 | entry by entry: each table keeps its entry exactly if that expires after now, and gains nothing |
| `Permits.PermitAuthority.Begin` | crates/ash-ops/src/authorization.rs:192-208 | fails exactly on clock overflow or exhausted numbers and then changes nothing; otherwise the call holds a number nobody else holds |
| `Permits.PermitAuthority.Admit` | crates/ash-ops/src/authorization.rs:209-244 | stores the challenge exactly unless it is malformed, the table is full or the nonce is pending; the last needs colliding nonces |
| `Permits.PermitAuthority.Issue` | crates/ash-ops/src/authorization.rs:160-186 | signs exactly the unexpired challenges pending here |
| `Permits.PermitAuthority.Verify` | crates/ash-ops/src/authorization.rs:246-291 | accepts exactly an unexpired pending challenge with the right mac, session, capabilities and action whose nonce has no unexpired used entry while fewer than 4096 are in use, and spends it; every refusal is classified |
| `Permits.OncePerNonce` | crates/ash-ops/src/authorization.rs:246-291 | unless two stored challenges share a nonce, no nonce is accepted twice |
| `Permits.TablesDisjoint` | crates/ash-ops/src/authorization.rs:246-291 | unless two stored challenges share a nonce, none is both pending and used |
| `Permits.InjectiveMeansNoCollision` | crates/ash-ops/src/authorization.rs:192-244 | a nonce hash injective in the 64-bit counter never lets two stored challenges share a nonce |
| `Permits.SixteenBytesSuffice` | crates/ash-ops/src/authorization.rs:209-220 | nonces of sixteen bytes can be injective in the counter, so the hypothesis can be met |
| `Permits.NoClash` | crates/ash-ops/src/authorization.rs:239-241 | a challenge meeting its own nonce in the table means nonces collide |
| `Permits.Serve` | crates/ash-ops/src/authorization.rs:160-291 | for every script of interleaved calls and every clock: accepted requests match a stored challenge in nonce, session, capabilities and action, carry its mac and come before its expiry; unless stored challenges share a nonce each is accepted at most once |
| `Permits.IssueThenVerify` | crates/ash-ops/src/authorization.rs:160-291 | a live challenge is signed and accepted while there is room; a second time it is a replay while it lives and invalid after |
| `Patch.SumDeleted` | crates/ash-ops/src/patch.rs:278-289 | totals the deletions exactly if every range lies within the observed size and the sum fits |
| `Patch.PlanSize` | crates/ash-ops/src/patch.rs:278-301 | the size is observed minus deleted plus inserted, and fails exactly when a range, the subtraction or the file limit does |
| `Patch.BuildTasks` | crates/ash-ops/src/patch.rs:265-317 | succeeds exactly when every file fits and all results together do; tasks in order with their sizes; errors blamed on a file that deserves them |
| `Patch.PatchedLength` | crates/ash-ops/src/patch.rs:295-298 | applying ordered edits changes the length by exactly the two totals |
| `Patch.TailKept` | crates/ash-ops/src/patch.rs:334-357 | edits leave what lies behind them unchanged |
| `Patch.Splice` | crates/ash-ops/src/patch.rs:332-357 | the left-to-right splice succeeds exactly for edits in order, without overlap and inside the file, and equals applying them one at a time from last to first |
| `Patch.PrepareFile` | crates/ash-ops/src/patch.rs:319-366 | conflict on a digest mismatch; otherwise ready exactly for ordered edits inside the file whose result has the planned size |
| `Patch.BuiltTaskPrepares` | crates/ash-ops/src/patch.rs:265-366 | for a built task: exactly when the edits are ordered and the file has the observed size, and then the size computed beforehand is met |
| `Patch.ValidateEdits` | crates/ash-protocol/src/request.rs:931-970 | accepts exactly edits for every file, addressed to existing files, in order and without overlap, within the limits |
| `Patch.ResolveEdits` | crates/ash-ops/src/patch.rs:191-228 | gives each file its edits in request order, exactly when every edit names a file and the replacements fit the limits |
| `Patch.EditsAreOrdered` | crates/ash-protocol/src/request.rs:952-960 | the edits a validated request leaves for one file are in order and do not overlap |
| `Patch.ValidatedPrepares` | crates/ash-ops/src/patch.rs:319-366 | for a validated request a file that fits splices exactly when it still has the observed size |
| `Snapshot.Delta` | crates/ash-ops/src/snapshot.rs:232-282 | strictly sorted by path and exactly the added, removed and modified entries that set comparison finds |
| `Snapshot.DeltaApplies` | crates/ash-ops/src/snapshot.rs:232-282 | applying the delta to the baseline gives the current manifest |
| `Snapshot.TableDecides` | crates/ash-ops/src/snapshot.rs:232-282 | a strictly sorted manifest is determined by its table |
| `Snapshot.EmptyMeansEqual` | crates/ash-ops/src/snapshot.rs:232-282 | the delta is empty exactly when the manifests are equal |
| `Snapshot.LessTotal` | crates/ash-ops/src/snapshot.rs:238-253 | the byte order of paths leaves no two different paths unordered |
| `Snapshot.LessMeans` | crates/ash-ops/src/snapshot.rs:238-253 | a path is less exactly if it is a proper prefix or smaller at the first byte that differs |
| `LineSelect.SelectStreaming` | crates/ash-ops/src/reference.rs:220-253 | for one line or more: the text from the start of line `offset`, counting from one and taking zero as one, to the end of the last line asked for, and nothing beyond the end; for zero lines the first line or nothing |
| `LineSelect.LineStarts` | crates/ash-ops/src/semantic.rs:978-983 | the table holds the first byte of every line |
| `LineSelect.SelectIndexed` | crates/ash-ops/src/semantic.rs:974-997 | the same lines, with the number of the first and how many there are, nothing beyond the end, despite saturating arithmetic |
| `LineSelect.SelectBoth` | crates/ash-ops/src/reference.rs:220-253 | both selectors return the same bytes for every text, offset and length, except exactly for zero lines from the first line; every request that passes validation selects the lines asked for with both |

## Left out

- The diagnostic classifier of the error focus (`is_diagnostic_anchor`): the reducer is proved for every classifier.
- The parallel maps inside the reducers and the patch preparation: modelled as the same map in sequence.
- BlockBound.CountsMustFit: gives a comparison that never separates equal ranges, not two line fingerprints that collide in that way.
- Rpc.Serve: assumes a frame is delivered whole; a read abandoned by the select losing partial bytes is not modelled, and neither are task slots, codec and handshake. Which frames execute, are answered at once or are fatal is given by the schedule.
- Cancellation.NoLostWakeup: assumes that notifying wakes every enabled waiter, and says that waiters advance with their own steps, not that the scheduler runs them.
- Session.RunsKeepInv: does not model mutex poisoning or a panic between making the lease and clearing the flag.
- Permits.Serve: does not model mutex poisoning, a failing clock read, or the layout of the signed bytes; the mac is a function of the whole challenge.
- ProcessGraph.ValidateProcessGraph: takes pipes in any order, not the key order of the map; environment, files, captures and handles of the operating system are not modelled.
- Patch.ValidateEdits: does not model the checks of paths, digests, flags and replacement text.
- Patch.PrepareFile: takes the file's bytes as an argument; path handling, the write transaction and its journal are not modelled.
- The snapshot walk, manifest encoding and scope checks: only the comparison of two sorted manifests is modelled.
- Authorization policies and capability masks, budget deadlines, error classification, handshake negotiation: each is decided by a single comparison or table lookup, with no state or loop behind it.
- The ASON codec, result store, update verification and shell parser are not part of this model.
