/** Properties of whole runs of the source: a sequence of fetches, and the
    acknowledgements a driver then feeds back through the watermarks. */
module Runs {
  import opened Wrappers
  import opened Tasks
  import opened Watermarks
  import opened Sources

  /** The (position, payload) pairs among the backend's replies, in order. */
  function Ready<P, D>(replies: seq<Option<(P, D)>>): seq<(P, D)>
    decreases |replies|
  {
    if |replies| == 0 then []
    else
      var last := replies[|replies| - 1];
      Ready(replies[..|replies| - 1]) + (if last.Some? then [last.value] else [])
  }

  /** The messages carry the ids first, first + 1, first + 2, ... */
  predicate Gapless<P, D>(ms: seq<Message<P, D>>, first: int) {
    forall k :: 0 <= k < |ms| ==> ms[k].id == first + k
  }

  /** Fetch once per backend reply. The messages returned are exactly the
      ready replies, in order, numbered without a gap from the counter's
      value; from a new source (counter at 1) that is 1, 2, 3, ... */
  method FetchAll<P, D>(s: Source<P>, replies: seq<Option<(P, D)>>) returns (t: Source<P>, ms: seq<Message<P, D>>)
    ensures |ms| == |Ready(replies)|
    ensures Gapless(ms, s.nextId)
    ensures forall k :: 0 <= k < |ms| ==> (ms[k].position, ms[k].payload) == Ready(replies)[k]
    ensures t == s.(nextId := s.nextId + |ms|)
  {
    t := s;
    ms := [];
    for i := 0 to |replies|
      invariant |ms| == |Ready(replies[..i])|
      invariant Gapless(ms, s.nextId)
      invariant forall k :: 0 <= k < |ms| ==> (ms[k].position, ms[k].payload) == Ready(replies[..i])[k]
      invariant t == s.(nextId := s.nextId + |ms|)
    {
      assert replies[..i + 1][..i] == replies[..i];
      var f := Fetch(t, replies[i]);
      t := f.source;
      if f.message.Some? {
        ms := ms + [f.message.value];
      }
    }
    assert replies[..|replies|] == replies;
  }

  /** The acknowledgements a driver sends for the given messages, in order. */
  function AcksOf<P, D>(ms: seq<Message<P, D>>): (acks: seq<Ack<P>>)
    ensures |acks| == |ms|
    ensures forall k :: 0 <= k < |ms| ==> acks[k] == Ack(ms[k].id, ms[k].position)
  {
    seq(|ms|, k requires 0 <= k < |ms| => Ack(ms[k].id, ms[k].position))
  }

  /** `set_write_position` for each acknowledgement in turn; the first
      refusal ends the run. */
  function WriteAll<P>(s: Source<P>, acks: seq<Ack<P>>): Result<Source<P>, Failure>
    decreases |acks|
  {
    if |acks| == 0 then Ok(s)
    else
      match SetWritePosition(s, acks[0].id, acks[0].position)
      case Err(e) => Err(e)
      case Ok(s') => WriteAll(s', acks[1..])
  }

  /** `set_flush_position` for each acknowledgement in turn; the first
      refusal ends the run. */
  function FlushAll<P>(s: Source<P>, acks: seq<Ack<P>>): Result<Source<P>, Failure>
    decreases |acks|
  {
    if |acks| == 0 then Ok(s)
    else
      match SetFlushPosition(s, acks[0].id, acks[0].position)
      case Err(e) => Err(e)
      case Ok(s') => FlushAll(s', acks[1..])
  }

  /** A run of writes succeeds exactly when the written watermark accepts
      it, and then changes nothing but that watermark. */
  lemma {:induction false} WriteAllMovesOnlyWritten<P>(s: Source<P>, acks: seq<Ack<P>>)
    ensures WriteAll(s, acks).Ok? <==> AdvanceAll(s.written, acks).Some?
    ensures WriteAll(s, acks).Ok? ==> WriteAll(s, acks).value == s.(written := AdvanceAll(s.written, acks).value)
    decreases |acks|
  {
    if |acks| > 0 {
      match SetWritePosition(s, acks[0].id, acks[0].position)
      case Err(_) =>
      case Ok(s') => WriteAllMovesOnlyWritten(s', acks[1..]);
    }
  }

  /** A run of flushes succeeds exactly when the flush watermark accepts
      it, and then changes nothing but that watermark. */
  lemma {:induction false} FlushAllMovesOnlyFlushed<P>(s: Source<P>, acks: seq<Ack<P>>)
    ensures FlushAll(s, acks).Ok? <==> AdvanceAll(s.flushed, acks).Some?
    ensures FlushAll(s, acks).Ok? ==> FlushAll(s, acks).value == s.(flushed := AdvanceAll(s.flushed, acks).value)
    decreases |acks|
  {
    if |acks| > 0 {
      match SetFlushPosition(s, acks[0].id, acks[0].position)
      case Err(_) =>
      case Ok(s') => FlushAllMovesOnlyFlushed(s', acks[1..]);
    }
  }

  /** Writing back the messages of a fetch run in the order they were
      fetched is always accepted when the run continues the written
      watermark (as it does for a new source, whose run starts at id 1); the
      watermark ends at the last message. Any other order is refused. */
  lemma FetchedRunIsWritable<P, D>(s: Source<P>, ms: seq<Message<P, D>>)
    ensures WriteAll(s, AcksOf(ms)).Ok? <==> Gapless(ms, OrZero(s.written.id) + 1)
    ensures Gapless(ms, OrZero(s.written.id) + 1) && |ms| > 0 ==>
      && WriteAll(s, AcksOf(ms)).value.written == Watermark(Some(ms[|ms| - 1].id), Some(ms[|ms| - 1].position))
      && WriteAll(s, AcksOf(ms)).value.flushed == s.flushed
  {
    var acks := AcksOf(ms);
    WriteAllMovesOnlyWritten(s, acks);
    AdvanceAllAcceptsExactlyConsecutive(s.written, acks);
    assert Gapless(ms, Expected(s.written)) <==> ConsecutiveFrom(Expected(s.written), acks);
  }

  /** The first run of a new source is always written back successfully in
      fetch order (its ids are 1, 2, 3, ..., as `FetchAll` guarantees for a
      counter at 1), leaving the written watermark at the last message. */
  lemma NewSourceRunIsWritable<P, D>(config: Configuration, now: int, ms: seq<Message<P, D>>)
    requires Gapless(ms, Init<P>(config, now).nextId)
    ensures WriteAll(Init<P>(config, now), AcksOf(ms)).Ok?
    ensures |ms| > 0 ==>
      WriteAll(Init<P>(config, now), AcksOf(ms)).value.written == Watermark(Some(ms[|ms| - 1].id), Some(ms[|ms| - 1].position))
  {
    FetchedRunIsWritable(Init<P>(config, now), ms);
  }

  /** One call a driver makes on a source, with what the backend and the
      clock supply for it. */
  datatype Step<P, D> =
    | FetchStep(reply: Option<(P, D)>)
    | WriteStep(writeId: int, writePosition: P)
    | FlushStep(flushId: int, flushPosition: P)
    | CommitStep(commitReply: BackendReply, now: int)

  function Apply<P, D>(s: Source<P>, step: Step<P, D>): Result<Source<P>, Failure> {
    match step
    case FetchStep(reply) => Ok(Fetch(s, reply).source)
    case WriteStep(id, position) => SetWritePosition(s, id, position)
    case FlushStep(id, position) => SetFlushPosition(s, id, position)
    case CommitStep(reply, now) => CommitPositions(s, reply, now).outcome
  }

  /** A driver's calls in order; the first failure ends the run. */
  function Replay<P, D>(s: Source<P>, steps: seq<Step<P, D>>): Result<Source<P>, Failure>
    decreases |steps|
  {
    if |steps| == 0 then Ok(s)
    else
      match Apply(s, steps[0])
      case Err(e) => Err(e)
      case Ok(s') => Replay(s', steps[1..])
  }

  /** Every state a driver can reach from a new source satisfies the
      source invariant; in particular the count of messages flushed since
      the last commit is never negative there. */
  lemma {:induction false} ReachableStatesAreValid<P, D>(config: Configuration, start: int, steps: seq<Step<P, D>>)
    ensures Replay(Init<P>(config, start), steps).Ok? ==>
      && Valid(Replay(Init<P>(config, start), steps).value)
      && FlushedSinceCommit(Replay(Init<P>(config, start), steps).value) >= 0
  {
    ReplayKeepsValid(Init<P>(config, start), steps);
  }

  /** Each step preserves the source invariant, so any run of them does. */
  lemma {:induction false} ReplayKeepsValid<P, D>(s: Source<P>, steps: seq<Step<P, D>>)
    requires Valid(s)
    ensures Replay(s, steps).Ok? ==> Valid(Replay(s, steps).value)
    decreases |steps|
  {
    if |steps| > 0 {
      match Apply(s, steps[0])
      case Err(_) =>
      case Ok(s') => ReplayKeepsValid(s', steps[1..]);
    }
  }

  /** Right after a commit, a run of flushes makes the count rule fire
      exactly when the run is longer than the threshold (and something has
      been flushed at all). */
  lemma CountTriggerAfterFlushes<P>(s: Source<P>, acks: seq<Ack<P>>)
    requires s.config.commitPositionsAfterFlushedMessages.Some?
    requires s.lastCommitFlushId == s.flushed.id
    requires FlushAll(s, acks).Ok?
    ensures CountTriggered(FlushAll(s, acks).value) <==>
      && FlushAll(s, acks).value.flushed.id.Some?
      && |acks| > s.config.commitPositionsAfterFlushedMessages.value
  {
    FlushAllMovesOnlyFlushed(s, acks);
    AdvanceAllAcceptsExactlyConsecutive(s.flushed, acks);
  }

  /** Committing again without progress re-sends the same pair of
      positions, and ends as a single commit at the later time would. */
  lemma CommitRepeatResendsSamePair<P>(s: Source<P>, t1: int, t2: int)
    ensures
      var first := CommitPositions(s, Acknowledged, t1);
      var second := CommitPositions(first.outcome.value, Acknowledged, t2);
      && second.sent == first.sent
      && second.outcome == CommitPositions(s, Acknowledged, t2).outcome
  {
  }

  /** After a successful commit at `committedAt`, with no flush since and a
      threshold that is unset or not negative, the next task is the commit
      due one interval later, unless the backend proposes a strictly earlier
      task. */
  lemma ScheduleAfterCommit<P>(s: Source<P>, committedAt: int, now: int, backendTask: Option<ScheduledTask>)
    requires s.config.commitPositionsAfterFlushedMessages.None? || s.config.commitPositionsAfterFlushedMessages.value >= 0
    ensures
      var s' := CommitPositions(s, Acknowledged, committedAt).outcome.value;
      var t := GetNextScheduledTask(s', now, backendTask);
      && (backendTask.None? || committedAt + s.config.commitPositionsAfterTicks <= backendTask.value.due ==>
            t == CommitTask(committedAt + s.config.commitPositionsAfterTicks))
      && (backendTask.Some? && backendTask.value.due < committedAt + s.config.commitPositionsAfterTicks ==>
            t == backendTask.value)
  {
  }
}
