/**
 The RPC server loop: requests are numbered as they are read, run as
 concurrent tasks, and answered strictly in request order. Finished responses
 wait in `buffered` until every earlier one has been written.
 */
module Rpc {
  import opened Wrappers

  /**
   How one whole frame turns out. `None` in place of a response means that
   building it failed, which ends the server at once.
   */
  datatype Frame<R> =
    | Cancel(response: Option<R>)
    | Execute(registered: bool)
    | OverCapacity(response: Option<R>)
    | Malformed(response: Option<R>)
    | Unattributable

  /** What the environment may deliver to `select!`. */
  datatype Event<R> =
    | Received(frame: Frame<R>)
    | EndOfInput
    | ReadFailed
    | Joined(sequence: nat, response: Option<R>)
    | JoinFailed(sequence: nat)

  /** The sequence numbers from `a` up to but not including `b`. */
  function Range(a: nat, b: nat): (r: set<nat>)
    ensures forall i: nat :: i in r <==> a <= i < b
    decreases b - a
  {
    if a >= b then {} else {a} + Range(a + 1, b)
  }

  /**
   The loop's variables. `written`, `requests` and `answers` are its history:
   what was written, the frame behind each sequence number, and the response
   produced for each sequence number that has one.
   */
  datatype Loop<R> = Loop(
    tasks: set<nat>, buffered: map<nat, R>, nextSequence: nat, nextOutput: nat, inputOpen: bool, fatal: bool,
    written: seq<R>, requests: seq<Frame<R>>, answers: map<nat, R>)

  /** `response` is what this frame is answered with, if its answer is fixed when it is read. */
  predicate Answers<R(==)>(frame: Frame<R>, response: R) {
    match frame
    case Cancel(r) => r == Some(response)
    case OverCapacity(r) => r == Some(response)
    case Malformed(r) => r == Some(response)
    case Execute(_) => true
    case Unattributable => false
  }

  /** Responses 0, 1, 2, ... have been written, without gap or repeat, each for its own request. */
  ghost predicate InOrder<R>(s: Loop<R>) {
    && |s.written| == s.nextOutput
    && (forall i :: 0 <= i < s.nextOutput ==> i in s.answers && s.written[i] == s.answers[i])
    && (forall i :: i in s.answers ==> i < |s.requests| && Answers(s.requests[i], s.answers[i]))
  }

  /** Open sequence numbers are finished and waiting, or still running, never both. */
  ghost predicate Partition<R>(s: Loop<R>) {
    && s.buffered.Keys !! s.tasks
    && s.buffered.Keys + s.tasks <= Range(s.nextOutput, s.nextSequence)
    && (!s.fatal ==> s.buffered.Keys + s.tasks == Range(s.nextOutput, s.nextSequence))
    && (forall i :: i in s.buffered ==> i in s.answers && s.answers[i] == s.buffered[i])
  }

  /** The invariant of the loop. */
  ghost predicate Valid<R>(s: Loop<R>, maxPending: nat) {
    && s.nextOutput <= s.nextSequence <= U64_MAX
    && s.nextSequence <= s.nextOutput + maxPending
    && |s.requests| == s.nextSequence
    && (s.fatal ==> !s.inputOpen)
    && (forall i :: i in s.tasks ==> i !in s.answers && i < |s.requests| && s.requests[i].Execute?)
    && InOrder(s) && Partition(s)
  }

  // ---- flush_ready ----

  function WriteOne<R>(s: Loop<R>): (r: Loop<R>)
    requires s.nextOutput in s.buffered
  {
    s.(buffered := s.buffered - {s.nextOutput}, written := s.written + [s.buffered[s.nextOutput]], nextOutput := s.nextOutput + 1)
  }

  lemma WriteInOrder<R>(s: Loop<R>)
    requires InOrder(s) && s.nextOutput in s.buffered
    requires s.nextOutput in s.answers && s.answers[s.nextOutput] == s.buffered[s.nextOutput]
    ensures InOrder(WriteOne(s)) && InOrder(s.(buffered := s.buffered - {s.nextOutput}))
  {
  }

  lemma WriteStep<R>(s: Loop<R>, maxPending: nat)
    requires Valid(s, maxPending) && s.nextOutput in s.buffered
    ensures Valid(WriteOne(s), maxPending)
  {
    WritePartition(s);
    WriteInOrder(s);
    RangeCons(s.nextOutput, s.nextSequence);
    assert s.nextOutput in s.buffered.Keys + s.tasks;
  }

  lemma WritePartition<R>(s: Loop<R>)
    requires Partition(s) && s.nextOutput in s.buffered
    ensures Partition(WriteOne(s))
  {
    var n, t := s.nextOutput, WriteOne(s);
    RangeCons(n, s.nextSequence);
    assert n in s.buffered.Keys + s.tasks;
    assert t.buffered.Keys + t.tasks == (s.buffered.Keys + s.tasks) - {n};
  }

  lemma RangeCons(a: nat, b: nat)
    ensures Range(a + 1, b) == Range(a, b) - {a}
    ensures a < b <==> a in Range(a, b)
  {
  }

  /** Writes the contiguous prefix of finished responses; `ok` is false when a write failed. */
  method FlushReady<R>(state: Loop<R>, ghost maxPending: nat, canWrite: nat -> bool) returns (ok: bool, s: Loop<R>)
    requires Valid(state, maxPending)
    ensures InOrder(s) && state.written <= s.written
    ensures s == state.(buffered := s.buffered, written := s.written, nextOutput := s.nextOutput)
    ensures ok ==> Valid(s, maxPending) && s.nextOutput !in s.buffered
    ensures !ok ==> |s.written| in s.answers && !canWrite(|s.written|)
  {
    s := state;
    while s.nextOutput in s.buffered
      invariant Valid(s, maxPending) && state.written <= s.written
      invariant s == state.(buffered := s.buffered, written := s.written, nextOutput := s.nextOutput)
      decreases s.nextSequence - s.nextOutput
    {
      WriteInOrder(s);
      WriteStep(s, maxPending);
      if !canWrite(s.nextOutput) {
        return false, s.(buffered := s.buffered - {s.nextOutput});
      }
      s := WriteOne(s);
    }
    ok := true;
  }

  // ---- select! ----

  predicate CanRead<R>(s: Loop<R>, maxPending: nat) {
    s.inputOpen && s.nextSequence - s.nextOutput < maxPending
  }

  /** The branch this event belongs to is enabled. */
  predicate Enabled<R>(s: Loop<R>, maxPending: nat, e: Event<R>) {
    match e
    case Received(_) => CanRead(s, maxPending)
    case EndOfInput => CanRead(s, maxPending)
    case ReadFailed => CanRead(s, maxPending)
    case Joined(i, _) => i in s.tasks
    case JoinFailed(i) => i in s.tasks
  }

  function Close<R>(s: Loop<R>): (r: Loop<R>) {
    s.(fatal := true, inputOpen := false)
  }

  /** A response is ready at once: it is buffered under the new sequence number. */
  function Buffer<R>(s: Loop<R>, i: nat, response: R): (r: Loop<R>) {
    s.(buffered := s.buffered[i := response], answers := s.answers[i := response])
  }

  /** The read branch: `None` when the server returns early with an error. */
  function Receive<R>(s: Loop<R>, frame: Frame<R>): (r: Option<Loop<R>>) {
    if s.nextSequence == U64_MAX then None
    else
      var i := s.nextSequence;
      var t := Admit(s, frame);
      match frame
      case Cancel(None) => None
      case Cancel(Some(response)) => Some(Buffer(t, i, response))
      case Execute(registered) =>
        var spawned := t.(tasks := t.tasks + {i});
        Some(if registered then spawned else Close(spawned))
      case OverCapacity(None) => None
      case OverCapacity(Some(response)) => Some(Buffer(t, i, response))
      case Malformed(None) => None
      case Malformed(Some(response)) => Some(Buffer(t, i, response))
      case Unattributable => Some(Close(t))
  }

  /** One event handled; `None` when the server returns early with an error. */
  function Handle<R>(s: Loop<R>, e: Event<R>): (r: Option<Loop<R>>) {
    match e
    case Received(frame) => Receive(s, frame)
    case EndOfInput => Some(s.(inputOpen := false))
    case ReadFailed => Some(Close(s))
    case Joined(i, Some(response)) =>
      var t := s.(tasks := s.tasks - {i});
      Some(if s.fatal then t else Buffer(t, i, response))
    case Joined(i, None) => Some(Close(s.(tasks := s.tasks - {i})))
    case JoinFailed(i) => Some(Close(s.(tasks := s.tasks - {i})))
  }

  lemma RangeSnoc(a: nat, b: nat)
    requires a <= b
    ensures Range(a, b + 1) == Range(a, b) + {b}
  {
  }

  /** The next sequence number goes to this frame. */
  function Admit<R>(s: Loop<R>, frame: Frame<R>): (r: Loop<R>) {
    s.(nextSequence := s.nextSequence + 1, requests := s.requests + [frame])
  }

  /** What holds of a freshly admitted frame, whatever becomes of it. */
  lemma Admitted<R>(s: Loop<R>, maxPending: nat, frame: Frame<R>)
    requires Valid(s, maxPending) && CanRead(s, maxPending)
    ensures s.nextSequence !in s.buffered.Keys + s.tasks && s.nextSequence !in s.answers
    ensures Range(s.nextOutput, s.nextSequence + 1) == s.buffered.Keys + s.tasks + {s.nextSequence}
    ensures InOrder(Admit(s, frame))
    ensures forall i :: i in s.tasks ==> i < |s.requests| && Admit(s, frame).requests[i].Execute?
  {
    RangeSnoc(s.nextOutput, s.nextSequence);
    assert s.nextSequence !in Range(s.nextOutput, s.nextSequence);
  }

  lemma ReceiveBuffer<R>(s: Loop<R>, maxPending: nat, frame: Frame<R>, response: R)
    requires Valid(s, maxPending) && CanRead(s, maxPending) && s.nextSequence < U64_MAX && Answers(frame, response)
    ensures Valid(Buffer(Admit(s, frame), s.nextSequence, response), maxPending)
  {
    Admitted(s, maxPending, frame);
    var t := Buffer(Admit(s, frame), s.nextSequence, response);
    assert t.buffered.Keys == s.buffered.Keys + {s.nextSequence};
    assert t.buffered.Keys + t.tasks == s.buffered.Keys + s.tasks + {s.nextSequence};
  }

  lemma ReceiveTask<R>(s: Loop<R>, maxPending: nat, frame: Frame<R>)
    requires Valid(s, maxPending) && CanRead(s, maxPending) && s.nextSequence < U64_MAX && frame.Execute?
    ensures Valid(Admit(s, frame).(tasks := s.tasks + {s.nextSequence}), maxPending)
  {
    Admitted(s, maxPending, frame);
    assert s.buffered.Keys + (s.tasks + {s.nextSequence}) == s.buffered.Keys + s.tasks + {s.nextSequence};
  }

  lemma ReceiveStep<R>(s: Loop<R>, maxPending: nat, frame: Frame<R>)
    requires Valid(s, maxPending) && CanRead(s, maxPending) && Receive(s, frame).Some?
    ensures Valid(Receive(s, frame).value, maxPending)
  {
    match frame
    case Execute(_) => ReceiveTask(s, maxPending, frame);
    case Unattributable => Admitted(s, maxPending, frame);
    case Cancel(response) => ReceiveBuffer(s, maxPending, frame, response.value);
    case OverCapacity(response) => ReceiveBuffer(s, maxPending, frame, response.value);
    case Malformed(response) => ReceiveBuffer(s, maxPending, frame, response.value);
  }

  lemma JoinStep<R>(s: Loop<R>, maxPending: nat, i: nat, response: R)
    requires Valid(s, maxPending) && i in s.tasks && !s.fatal
    ensures Valid(Buffer(s.(tasks := s.tasks - {i}), i, response), maxPending)
  {
    var t := Buffer(s.(tasks := s.tasks - {i}), i, response);
    assert t.buffered.Keys + t.tasks == s.buffered.Keys + s.tasks;
    assert i in Range(s.nextOutput, s.nextSequence);
  }

  /** Every event keeps the invariant; only a fatal one ends the service, and a good answer is buffered. */
  lemma HandleStep<R>(s: Loop<R>, maxPending: nat, e: Event<R>)
    requires Valid(s, maxPending) && Enabled(s, maxPending, e) && Handle(s, e).Some?
    ensures Valid(Handle(s, e).value, maxPending)
    ensures var t := Handle(s, e).value;
      && (t.fatal <==> s.fatal || FatalEvent(e))
      && (t.inputOpen <==> s.inputOpen && !FatalEvent(e) && e != EndOfInput)
      && (e.Joined? && e.response.Some? && !s.fatal ==>
            t.tasks == s.tasks - {e.sequence} && t.buffered == s.buffered[e.sequence := e.response.value])
  {
    FlagsHandled(s, maxPending, e);
    match e
    case Received(frame) => ReceiveStep(s, maxPending, frame);
    case Joined(i, Some(response)) =>
      if !s.fatal {
        JoinStep(s, maxPending, i, response);
      }
    case _ =>
  }

  /** After a flush, a loop that goes on always has an enabled branch to wait on. */
  lemma NeverStuck<R>(s: Loop<R>, maxPending: nat)
    requires Valid(s, maxPending) && maxPending >= 1
    requires !s.fatal ==> s.nextOutput !in s.buffered
    requires s.inputOpen || s.tasks != {}
    ensures CanRead(s, maxPending) || s.tasks != {}
  {
    RangeCons(s.nextOutput, s.nextSequence);
  }

  /** With the input ended, no task left and the prefix flushed, every request is answered. */
  lemma AllAnswered<R>(s: Loop<R>, maxPending: nat)
    requires Valid(s, maxPending) && !s.fatal && s.tasks == {} && s.nextOutput !in s.buffered
    ensures s.nextOutput == s.nextSequence == |s.requests| == |s.written| && s.buffered == map[]
  {
    RangeCons(s.nextOutput, s.nextSequence);
    assert s.buffered.Keys == {};
  }

  // ---- What a schedule of events makes of the loop ----

  /** The events that end the service: nothing is answered after one of them. */
  predicate FatalEvent<R>(e: Event<R>) {
    match e
    case Received(frame) => frame == Unattributable || frame == Execute(false)
    case EndOfInput => false
    case ReadFailed => true
    case Joined(_, response) => response.None?
    case JoinFailed(_) => true
  }

  ghost predicate Fatal<R>(events: seq<Event<R>>) {
    exists k :: 0 <= k < |events| && FatalEvent(events[k])
  }

  /** The frames received, in order: frame `i` has sequence number `i`. */
  ghost function Frames<R>(events: seq<Event<R>>): (r: seq<Frame<R>>) {
    if events == [] then []
    else
      var last := events[|events| - 1];
      Frames(events[..|events| - 1]) + if last.Received? then [last.frame] else []
  }

  /** Task `i` ended with this response while the service was not yet over. */
  ghost predicate TaskAnswered<R>(events: seq<Event<R>>, i: nat, response: R) {
    exists k :: 0 <= k < |events| && events[k] == Joined(i, Some(response)) && !Fatal(events[..k])
  }

  /** Task `i` ended, one way or another. */
  ghost predicate TaskEnded<R>(events: seq<Event<R>>, i: nat) {
    exists k :: 0 <= k < |events| && ((events[k].Joined? || events[k].JoinFailed?) && events[k].sequence == i)
  }

  /** The response that is fixed when this frame is read. */
  function AtOnce<R>(frame: Frame<R>): (r: Option<R>) {
    match frame
    case Cancel(response) => response
    case OverCapacity(response) => response
    case Malformed(response) => response
    case Execute(_) => None
    case Unattributable => None
  }

  /** The response to request `i` is `response`: fixed when it was read, or the result of its task. */
  ghost predicate AnswerIs<R>(events: seq<Event<R>>, i: nat, response: R) {
    || (i < |Frames(events)| && AtOnce(Frames(events)[i]) == Some(response))
    || TaskAnswered(events, i, response)
  }

  /** The loop's variables are those these events make. */
  ghost predicate Made<R(!new)>(s: Loop<R>, events: seq<Event<R>>) {
    && s.requests == Frames(events)
    && (s.fatal <==> Fatal(events))
    && (s.inputOpen <==> !Fatal(events) && EndOfInput !in events)
    && (forall i: nat :: i in s.tasks <==> i < |Frames(events)| && Frames(events)[i].Execute? && !TaskEnded(events, i))
    && (forall i: nat, r: R :: (i in s.answers && s.answers[i] == r) <==> AnswerIs(events, i, r))
  }

  lemma FatalSnoc<R>(events: seq<Event<R>>, e: Event<R>)
    ensures Fatal(events + [e]) <==> Fatal(events) || FatalEvent(e)
  {
    var more := events + [e];
    assert more[|events|] == e;
    if Fatal(events) {
      var k :| 0 <= k < |events| && FatalEvent(events[k]);
      assert FatalEvent(more[k]);
    }
  }

  lemma TaskAnsweredSnoc<R>(events: seq<Event<R>>, e: Event<R>, i: nat, response: R)
    ensures TaskAnswered(events + [e], i, response) <==>
      TaskAnswered(events, i, response) || (e == Joined(i, Some(response)) && !Fatal(events))
  {
    var more := events + [e];
    assert more[|events|] == e && more[..|events|] == events;
    if TaskAnswered(events, i, response) {
      var k :| 0 <= k < |events| && events[k] == Joined(i, Some(response)) && !Fatal(events[..k]);
      assert more[k] == events[k] && more[..k] == events[..k];
    }
    if TaskAnswered(more, i, response) {
      var k :| 0 <= k < |more| && more[k] == Joined(i, Some(response)) && !Fatal(more[..k]);
      if k < |events| {
        assert events[k] == more[k] && events[..k] == more[..k];
      }
    }
  }

  lemma TaskEndedSnoc<R>(events: seq<Event<R>>, e: Event<R>, i: nat)
    ensures TaskEnded(events + [e], i) <==>
      TaskEnded(events, i) || ((e.Joined? || e.JoinFailed?) && e.sequence == i)
  {
    var more := events + [e];
    assert more[|events|] == e;
    if TaskEnded(events, i) {
      var k :| 0 <= k < |events| && ((events[k].Joined? || events[k].JoinFailed?) && events[k].sequence == i);
      assert more[k] == events[k];
    }
  }

  lemma FramesSnoc<R>(events: seq<Event<R>>, e: Event<R>)
    ensures Frames(events + [e]) == Frames(events) + if e.Received? then [e.frame] else []
  {
    assert (events + [e])[..|events|] == events;
  }

  /** Only requests that were received have ended tasks. */
  ghost predicate EndedKnown<R>(events: seq<Event<R>>) {
    forall i: nat :: TaskEnded(events, i) ==> i < |Frames(events)|
  }

  lemma EndedStep<R(!new)>(s: Loop<R>, maxPending: nat, events: seq<Event<R>>, e: Event<R>)
    requires Made(s, events) && Enabled(s, maxPending, e) && EndedKnown(events)
    ensures EndedKnown(events + [e])
  {
    FramesSnoc(events, e);
    forall i: nat | TaskEnded(events + [e], i) ensures i < |Frames(events + [e])| {
      TaskEndedSnoc(events, e, i);
    }
  }

  /** The flags after one more event. */
  lemma FlagsMade<R>(s: Loop<R>, maxPending: nat, events: seq<Event<R>>, e: Event<R>)
    requires (s.fatal <==> Fatal(events)) && (s.inputOpen <==> !Fatal(events) && EndOfInput !in events)
    requires Enabled(s, maxPending, e) && Handle(s, e).Some?
    ensures var t := Handle(s, e).value;
      (t.fatal <==> Fatal(events + [e])) && (t.inputOpen <==> !Fatal(events + [e]) && EndOfInput !in events + [e])
  {
    FatalSnoc(events, e);
    FlagsHandled(s, maxPending, e);
    assert EndOfInput in events + [e] <==> EndOfInput in events || e == EndOfInput;
  }

  lemma FlagsHandled<R>(s: Loop<R>, maxPending: nat, e: Event<R>)
    requires Enabled(s, maxPending, e) && Handle(s, e).Some?
    ensures var t := Handle(s, e).value;
      && (t.fatal <==> s.fatal || FatalEvent(e))
      && (t.inputOpen <==> s.inputOpen && !FatalEvent(e) && e != EndOfInput)
      && t.requests == s.requests + if e.Received? then [e.frame] else []
  {
  }

  lemma TasksMade<R(!new)>(s: Loop<R>, maxPending: nat, events: seq<Event<R>>, e: Event<R>, i: nat)
    requires Valid(s, maxPending) && Made(s, events) && EndedKnown(events)
    requires Enabled(s, maxPending, e) && Handle(s, e).Some?
    ensures i in Handle(s, e).value.tasks <==>
      i < |Frames(events + [e])| && Frames(events + [e])[i].Execute? && !TaskEnded(events + [e], i)
  {
    FramesSnoc(events, e);
    TaskEndedSnoc(events, e, i);
    assert i in s.tasks <==> i < |Frames(events)| && Frames(events)[i].Execute? && !TaskEnded(events, i);
  }

  lemma AnswersMade<R(!new)>(s: Loop<R>, maxPending: nat, events: seq<Event<R>>, e: Event<R>, i: nat, r: R)
    requires Valid(s, maxPending) && Made(s, events) && Enabled(s, maxPending, e) && Handle(s, e).Some?
    ensures var t := Handle(s, e).value; (i in t.answers && t.answers[i] == r) <==> AnswerIs(events + [e], i, r)
  {
    FramesSnoc(events, e);
    TaskAnsweredSnoc(events, e, i, r);
    assert (i in s.answers && s.answers[i] == r) <==> AnswerIs(events, i, r);
    match e
    case Received(frame) => ReceiveAnswers(s, maxPending, events, frame, i, r);
    case Joined(j, response) => JoinAnswers(s, maxPending, events, j, response, i, r);
    case _ =>
  }

  lemma ReceiveAnswers<R(!new)>(s: Loop<R>, maxPending: nat, events: seq<Event<R>>, frame: Frame<R>, i: nat, r: R)
    requires Valid(s, maxPending) && Made(s, events) && CanRead(s, maxPending) && Receive(s, frame).Some?
    requires (i in s.answers && s.answers[i] == r) <==> AnswerIs(events, i, r)
    ensures var t := Receive(s, frame).value;
      (i in t.answers && t.answers[i] == r) <==>
        AnswerIs(events, i, r) || (i == |Frames(events)| && AtOnce(frame) == Some(r))
  {
    Admitted(s, maxPending, frame);
  }

  lemma JoinAnswers<R(!new)>(
    s: Loop<R>, maxPending: nat, events: seq<Event<R>>, j: nat, response: Option<R>, i: nat, r: R)
    requires Valid(s, maxPending) && Made(s, events) && j in s.tasks
    requires (i in s.answers && s.answers[i] == r) <==> AnswerIs(events, i, r)
    ensures var t := Handle(s, Joined(j, response)).value;
      (i in t.answers && t.answers[i] == r) <==>
        AnswerIs(events, i, r) || (i == j && response == Some(r) && !Fatal(events))
  {
  }

  /** Every event makes of the loop what it should. */
  lemma MadeStep<R(!new)>(s: Loop<R>, maxPending: nat, events: seq<Event<R>>, e: Event<R>)
    requires Valid(s, maxPending) && Made(s, events) && EndedKnown(events)
    requires Enabled(s, maxPending, e) && Handle(s, e).Some?
    ensures Made(Handle(s, e).value, events + [e]) && EndedKnown(events + [e])
  {
    FlagsMade(s, maxPending, events, e);
    FlagsHandled(s, maxPending, e);
    FramesSnoc(events, e);
    EndedStep(s, maxPending, events, e);
    forall i: nat ensures i in Handle(s, e).value.tasks <==>
      i < |Frames(events + [e])| && Frames(events + [e])[i].Execute? && !TaskEnded(events + [e], i)
    {
      TasksMade(s, maxPending, events, e, i);
    }
    var t := Handle(s, e).value;
    forall i: nat, r: R ensures (i in t.answers && t.answers[i] == r) <==> AnswerIs(events + [e], i, r) {
      AnswersMade(s, maxPending, events, e, i, r);
    }
  }

  /** How the server stands after a schedule: still serving, or returned. */
  datatype Outcome = Serving | Completed | Failed | Aborted

  /** This event cannot be delivered now: reading is held back or closed, or no such task runs. */
  predicate HeldBack<R>(s: Loop<R>, maxPending: nat, e: Event<R>) {
    match e
    case Received(_) => !s.inputOpen || |s.requests| - |s.written| >= maxPending
    case EndOfInput => !s.inputOpen || |s.requests| - |s.written| >= maxPending
    case ReadFailed => !s.inputOpen || |s.requests| - |s.written| >= maxPending
    case Joined(i, _) => i !in s.tasks
    case JoinFailed(i) => i !in s.tasks
  }

  /** A frame whose answer is fixed when it is read, but could not be built. */
  predicate Unbuilt<R>(e: Event<R>) {
    e.Received? && (e.frame == Cancel(None) || e.frame == OverCapacity(None) || e.frame == Malformed(None))
  }

  /** Why the server returned early: a write failed, a response could not be built, or the numbers ran out. */
  ghost predicate AbortedFor<R>(s: Loop<R>, schedule: seq<Event<R>>, handled: nat, canWrite: nat -> bool) {
    || (|s.written| in s.answers && !canWrite(|s.written|))
    || (handled < |schedule| && schedule[handled].Received? && (Unbuilt(schedule[handled]) || |s.requests| == U64_MAX))
  }

  /** A state the loop can be in after these events. */
  ghost predicate Reached<R(!new)>(s: Loop<R>, maxPending: nat, events: seq<Event<R>>) {
    Valid(s, maxPending) && Made(s, events) && EndedKnown(events)
  }

  /** What each outcome means for the events handled. */
  ghost predicate Ends<R>(
    outcome: Outcome, s: Loop<R>, maxPending: nat, schedule: seq<Event<R>>, handled: nat, canWrite: nat -> bool)
    requires handled <= |schedule|
  {
    match outcome
    case Serving =>
      && Valid(s, maxPending)
      && (handled == |schedule| || HeldBack(s, maxPending, schedule[handled]))
      && (!Fatal(schedule[..handled]) ==> |s.written| !in s.answers)
    case Completed =>
      && |s.written| == |s.requests| && s.tasks == {}
      && !Fatal(schedule[..handled]) && EndOfInput in schedule[..handled]
    case Failed => Fatal(schedule[..handled]) && s.tasks == {}
    case Aborted => AbortedFor(s, schedule, handled, canWrite)
  }

  /**
   `serve`, after the handshake, against an arbitrary schedule of events; a
   schedule stops at the first event whose branch is not enabled. `handled` says
   how many events were handled. The requests, tasks, answers and flags are those
   these events make, the responses written are the answers in request order, and
   the outcome says why the server stopped.
   */
  method Serve<R(!new)>(maxPending: nat, schedule: seq<Event<R>>, canWrite: nat -> bool)
    returns (outcome: Outcome, s: Loop<R>, handled: nat)
    requires maxPending >= 1
    ensures handled <= |schedule| && InOrder(s) && Made(s, schedule[..handled])
    ensures Ends(outcome, s, maxPending, schedule, handled, canWrite)
  {
    s := Loop({}, map[], 0, 0, true, false, [], [], map[]);
    handled := 0;
    while true
      invariant handled <= |schedule| && Reached(s, maxPending, schedule[..handled])
      decreases |schedule| - handled
    {
      var ok := true;
      if !s.fatal {
        ok, s := Flush(s, maxPending, canWrite, schedule[..handled]);
        if !ok {
          return Aborted, s, handled;
        }
      }
      var stop;
      stop, s := Turn(s, maxPending, schedule, handled, canWrite);
      if stop.Some? {
        return stop.value, s, handled;
      }
      handled := handled + 1;
    }
  }

  /** The flush at the top of the loop. */
  method Flush<R(!new)>(s: Loop<R>, ghost maxPending: nat, canWrite: nat -> bool, ghost events: seq<Event<R>>)
    returns (ok: bool, t: Loop<R>)
    requires Reached(s, maxPending, events)
    ensures InOrder(t) && Made(t, events) && t.fatal == s.fatal
    ensures ok ==> Reached(t, maxPending, events) && t.nextOutput !in t.buffered
    ensures !ok ==> |t.written| in t.answers && !canWrite(|t.written|)
  {
    ok, t := FlushReady(s, maxPending, canWrite);
    MadeSame(s, t, events);
  }

  /** Writing does not touch what the events make. */
  lemma MadeSame<R(!new)>(s: Loop<R>, t: Loop<R>, events: seq<Event<R>>)
    requires Made(s, events)
    requires t == s.(buffered := t.buffered, written := t.written, nextOutput := t.nextOutput)
    ensures Made(t, events)
  {
    forall i: nat, r: R ensures (i in t.answers && t.answers[i] == r) <==> AnswerIs(events, i, r) {
      assert (i in s.answers && s.answers[i] == r) <==> AnswerIs(events, i, r);
    }
  }

  /** The rest of one turn of the loop: stop, or handle the next event. */
  method Turn<R(!new)>(s: Loop<R>, maxPending: nat, schedule: seq<Event<R>>, handled: nat, ghost canWrite: nat -> bool)
    returns (stop: Option<Outcome>, t: Loop<R>)
    requires maxPending >= 1 && handled <= |schedule| && Reached(s, maxPending, schedule[..handled])
    requires !s.fatal ==> s.nextOutput !in s.buffered
    ensures stop.Some? ==> InOrder(t) && Made(t, schedule[..handled])
    ensures stop.Some? ==> Ends(stop.value, t, maxPending, schedule, handled, canWrite)
    ensures stop.None? ==> handled < |schedule| && Reached(t, maxPending, schedule[..handled + 1])
  {
    if !s.inputOpen && s.tasks == {} {
      Finishes(s, maxPending, schedule, handled, canWrite);
      return Some(if s.fatal then Failed else Completed), s;
    }
    NeverStuck(s, maxPending);
    assert CanRead(s, maxPending) || s.tasks != {};
    if handled == |schedule| || !Enabled(s, maxPending, schedule[handled]) {
      AllWritten(s, maxPending);
      return Some(Serving), s;
    }
    var next := Handle(s, schedule[handled]);
    if next.None? {
      return Some(Aborted), s;
    }
    HandleStep(s, maxPending, schedule[handled]);
    MadeStep(s, maxPending, schedule[..handled], schedule[handled]);
    assert schedule[..handled + 1] == schedule[..handled] + [schedule[handled]];
    return None, next.value;
  }

  lemma Finishes<R(!new)>(s: Loop<R>, maxPending: nat, schedule: seq<Event<R>>, handled: nat, canWrite: nat -> bool)
    requires handled <= |schedule| && Reached(s, maxPending, schedule[..handled])
    requires !s.fatal ==> s.nextOutput !in s.buffered
    requires !s.inputOpen && s.tasks == {}
    ensures Ends(if s.fatal then Failed else Completed, s, maxPending, schedule, handled, canWrite)
  {
    if !s.fatal {
      AllAnswered(s, maxPending);
    }
  }

  /** A flushed prefix leaves no answer to the next request to write. */
  lemma AllWritten<R>(s: Loop<R>, maxPending: nat)
    requires Valid(s, maxPending)
    ensures !s.fatal && s.nextOutput !in s.buffered ==> s.nextOutput !in s.answers
  {
    RangeCons(s.nextOutput, s.nextSequence);
  }
}
