/** The replication-message source: it numbers fetched messages, keeps the
    "written" and "durably flushed" watermarks, records when positions were
    last committed upstream and decides which maintenance task is due next.

    Time is counted in integer ticks of one microsecond, the resolution of
    Python's `datetime` arithmetic. The backend is not called: what it
    would return is passed in. */
module Sources {
  import opened Wrappers
  import opened Tasks
  import opened Watermarks

  /** 60.0 seconds, the default commit interval, in microsecond ticks. */
  const DefaultCommitAfterTicks: int := 60_000_000

  /** How often positions are committed: at most `commitPositionsAfterTicks`
      ticks apart and, when the count is set, after at most that many
      flushed messages. */
  datatype Configuration = Configuration(
    commitPositionsAfterTicks: int,
    commitPositionsAfterFlushedMessages: Option<int>)

  function DefaultConfiguration(): (c: Configuration)
    ensures c.commitPositionsAfterTicks == 60 * 1_000_000
    ensures c.commitPositionsAfterFlushedMessages.None?
  {
    Configuration(DefaultCommitAfterTicks, None)
  }

  /** A fetched message: the id the source assigned, then the backend's
      position and payload. */
  datatype Message<P, D> = Message(id: Id, position: P, payload: D)

  /** Why an operation did not complete. The first two are the failing
      asserts of `Source.set_write_position` and `Source.set_flush_position`
      (a bug in the caller); the last is an exception raised by the
      backend's commit. */
  datatype Failure =
    | NonConsecutiveWrite(expected: Id, given: int)
    | NonConsecutiveFlush(expected: Id, given: int)
    | BackendCommitFailed

  /** What the backend's commit call did. */
  datatype BackendReply = Acknowledged | Raised

  /** The whole mutable state of one source. `nextId` is the value the id
      counter yields next. */
  datatype Source<P> = Source(
    config: Configuration,
    nextId: Id,
    written: Watermark<P>,
    flushed: Watermark<P>,
    lastCommitFlushId: Option<Id>,
    lastCommitTime: int)

  /** Invariant of every reachable state: ids and positions are recorded
      together, and the flush id recorded at the last commit is one the flush
      watermark has already reached. */
  predicate Valid<P>(s: Source<P>) {
    && Recorded(s.written)
    && Recorded(s.flushed)
    && OrZero(s.lastCommitFlushId) <= OrZero(s.flushed.id)
  }

  /** Number of messages flushed since positions were last committed. */
  function FlushedSinceCommit<P>(s: Source<P>): (n: int)
    ensures Valid(s) ==> n >= 0
  {
    OrZero(s.flushed.id) - OrZero(s.lastCommitFlushId)
  }

  /** A new source: the id counter starts at 1, nothing is written, flushed
      or committed, and the commit clock starts at the construction time. */
  function Init<P>(config: Configuration, now: int): (s: Source<P>)
    ensures Valid(s)
    ensures s.nextId == 1 && s.config == config
    ensures s.written.id.None? && s.flushed.id.None? && s.lastCommitFlushId.None?
    ensures FlushedSinceCommit(s) == 0
    ensures s.lastCommitTime == now
  {
    Source(config, 1, Unset(), Unset(), None, now)
  }

  datatype Fetched<P, D> = Fetched(source: Source<P>, message: Option<Message<P, D>>)

  /** Wrap what the backend's non-blocking fetch returned with the next id.
      When the backend has nothing, nothing is returned and the counter
      does not move. */
  function Fetch<P, D>(s: Source<P>, reply: Option<(P, D)>): (f: Fetched<P, D>)
    ensures f.message.Some? <==> reply.Some?
    ensures f.message.Some? ==>
      && f.message.value.id == s.nextId
      && f.message.value.position == reply.value.0
      && f.message.value.payload == reply.value.1
    ensures f.source.nextId == s.nextId + (if reply.Some? then 1 else 0)
    ensures f.source.(nextId := s.nextId) == s
    ensures Valid(s) ==> Valid(f.source)
  {
    match reply
    case None => Fetched(s, None)
    case Some((position, payload)) =>
      Fetched(s.(nextId := s.nextId + 1), Some(Message(s.nextId, position, payload)))
  }

  /** Record that message `id` was written downstream (not yet durably).
      Refused unless `id` is one more than the last written id (1 at first). */
  function SetWritePosition<P>(s: Source<P>, id: int, position: P): (r: Result<Source<P>, Failure>)
    ensures r.Ok? <==> id == OrZero(s.written.id) + 1
    ensures r.Err? ==> r.error == NonConsecutiveWrite(OrZero(s.written.id) + 1, id)
    ensures r.Ok? ==>
      && r.value.written == Watermark(Some(id), Some(position))
      && r.value.(written := s.written) == s
    ensures r.Ok? && Valid(s) ==> Valid(r.value)
  {
    match Advance(s.written, id, position)
    case None => Err(NonConsecutiveWrite(Expected(s.written), id))
    case Some(w) => Ok(s.(written := w))
  }

  /** Record that message `id` was durably flushed. Refused unless `id` is
      one more than the last flushed id (1 at first); the written watermark
      is neither consulted nor changed. */
  function SetFlushPosition<P>(s: Source<P>, id: int, position: P): (r: Result<Source<P>, Failure>)
    ensures r.Ok? <==> id == OrZero(s.flushed.id) + 1
    ensures r.Err? ==> r.error == NonConsecutiveFlush(OrZero(s.flushed.id) + 1, id)
    ensures r.Ok? ==>
      && r.value.flushed == Watermark(Some(id), Some(position))
      && r.value.(flushed := s.flushed) == s
    ensures r.Ok? ==> FlushedSinceCommit(r.value) == FlushedSinceCommit(s) + 1
    ensures r.Ok? && Valid(s) ==> Valid(r.value)
    ensures r.Ok? && CountTriggered(s) ==> CountTriggered(r.value)
  {
    match Advance(s.flushed, id, position)
    case None => Err(NonConsecutiveFlush(Expected(s.flushed), id))
    case Some(w) => Ok(s.(flushed := w))
  }

  /** The pair of positions handed to the backend's commit. */
  datatype Positions<P> = Positions(write: Option<P>, flush: Option<P>)

  /** What was sent to the backend, and the source afterwards (or the
      backend's failure, in which case the source is left as it was). */
  datatype Commit<P> = Commit(sent: Positions<P>, outcome: Result<Source<P>, Failure>)

  /** Commit the current write and flush positions upstream at clock value
      `now`. On success the commit baseline becomes the current flush id and
      `now`; the watermarks themselves are untouched. */
  function CommitPositions<P>(s: Source<P>, reply: BackendReply, now: int): (c: Commit<P>)
    ensures c.sent == Positions(s.written.position, s.flushed.position)
    ensures c.outcome.Ok? <==> reply == Acknowledged
    ensures c.outcome.Err? ==> c.outcome.error == BackendCommitFailed
    ensures c.outcome.Ok? ==>
      && c.outcome.value.lastCommitFlushId == s.flushed.id
      && c.outcome.value.lastCommitTime == now
      && c.outcome.value.(lastCommitFlushId := s.lastCommitFlushId, lastCommitTime := s.lastCommitTime) == s
    ensures c.outcome.Ok? ==> FlushedSinceCommit(c.outcome.value) == 0
    ensures c.outcome.Ok? && Valid(s) ==> Valid(c.outcome.value)
    ensures c.outcome.Ok? && (s.config.commitPositionsAfterFlushedMessages.None? || s.config.commitPositionsAfterFlushedMessages.value >= 0) ==>
      !CountTriggered(c.outcome.value)
  {
    var sent := Positions(s.written.position, s.flushed.position);
    match reply
    case Raised => Commit(sent, Err(BackendCommitFailed))
    case Acknowledged =>
      Commit(sent, Ok(s.(lastCommitFlushId := s.flushed.id, lastCommitTime := now)))
  }

  /** The count rule: a threshold is configured, something has been flushed,
      and strictly more messages than the threshold were flushed since the
      last commit. */
  predicate CountTriggered<P>(s: Source<P>) {
    match s.config.commitPositionsAfterFlushedMessages
    case None => false
    case Some(n) => s.flushed.id.Some? && s.flushed.id.value - OrZero(s.lastCommitFlushId) > n
  }

  /** When the interval rule wants the next commit. */
  function IntervalDue<P>(s: Source<P>): int {
    s.lastCommitTime + s.config.commitPositionsAfterTicks
  }

  /** The next maintenance task. When the count rule fires, the commit is due
      at once and the backend's task (what it would propose at `now`) is not
      looked at. Otherwise the commit is due by the interval rule, unless the
      backend's task is strictly earlier. The result is a task only: asking
      never changes the source. */
  function GetNextScheduledTask<P>(s: Source<P>, now: int, backendTask: Option<ScheduledTask>): (t: ScheduledTask)
    ensures CountTriggered(s) ==> t.due == now && t.action == CommitPositionsAction && t.name == CommitTaskName
    ensures s.config.commitPositionsAfterFlushedMessages.None? || s.flushed.id.None? ==>
      t == CommitTask(IntervalDue(s)) || (backendTask.Some? && t == backendTask.value)
    ensures !CountTriggered(s) ==> t == CommitTask(IntervalDue(s)) || (backendTask.Some? && t == backendTask.value)
    ensures !CountTriggered(s) ==> t.due <= s.lastCommitTime + s.config.commitPositionsAfterTicks
    ensures !CountTriggered(s) && backendTask.Some? ==> t.due <= backendTask.value.due
    ensures !CountTriggered(s) && backendTask.Some? && backendTask.value.due < IntervalDue(s) ==> t == backendTask.value
    ensures !CountTriggered(s) && (backendTask.None? || IntervalDue(s) <= backendTask.value.due) ==>
      t == CommitTask(IntervalDue(s))
  {
    if CountTriggered(s) then CommitTask(now)
    else Earliest(CommitTask(IntervalDue(s)), backendTask)
  }
}
