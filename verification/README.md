# Position & Commit Scheduler of a change-data-capture source, in Dafny

This project models the `Source` class of a change-data-capture (CDC) pipeline
and its `Configuration`. A `Source` sits between a replication-log backend and
the driver loop:

- it numbers the messages it fetches from the backend with gapless ids
  1, 2, 3, …;
- it keeps two watermarks, "written" and "durably flushed", each of which only
  accepts the next consecutive id;
- it commits the current pair of positions upstream and records the flush id
  and the clock value of that commit as the baseline for scheduling;
- it decides which maintenance task is due next. A flushed-message threshold
  can make the commit due at once. Otherwise the commit falls due one interval
  after the last commit, unless the backend proposes a strictly earlier task.

The model is functional. The whole mutable state is one immutable record
(`Sources.Source`), and every operation is a pure function that returns the
next state. What the backend would return (a fetched pair, its proposed task,
whether its commit raised) and what the clock would read are passed in as
parameters. Time is counted in integer ticks of one microsecond, the
resolution of Python's `datetime`, so the default commit interval of 60.0
seconds is 60 000 000 ticks.

Files:

- `wrappers.dfy`: `Option` and `Result`.
- `tasks.dfy`: scheduled tasks, the commit task, and the choice of the earlier task.
- `watermarks.dfy`: one watermark and its consecutive-id rule. The written and
  flushed watermarks share this rule, and the source code repeats it for each.
- `sources.dfy`: the source state, its invariant, and the operations.
- `runs.dfy`: whole runs of fetches, writes and flushes, with lemmas connecting them.

The id asserts of `Source.set_write_position` and `Source.set_flush_position`
(`assert (write_id or 0) + 1 == id`) are
modelled as an `Err` result, not as a precondition. This lets the model state
both directions: the update happens exactly when the id is the expected one,
and a failure is reported otherwise.

## Model

| member | source | states |
|---|---|---|
| Sources.DefaultConfiguration | cdc/sources/__init__.py:17-23 | The default commit interval is 60 seconds. No flushed-message threshold is set by default. |
| Sources.Init | cdc/sources/__init__.py:38-51 | A new source counts ids from 1. Nothing is written, flushed or committed yet, so the flushed-since-commit count is 0. The commit clock starts at the construction time. The state satisfies the source invariant. |
| Sources.Fetch | cdc/sources/__init__.py:58-69 | A message comes back exactly when the backend had one. It carries the counter's id and the backend's own position and payload. The counter advances by one then, and only then. Nothing else in the state changes. |
| Runs.FetchAll | cdc/sources/__init__.py:42-69 | Over a run of fetches, the messages returned are exactly the backend's ready replies, in order. Their ids continue the counter without a gap, so from a new source they are 1, 2, 3, …. The counter ends advanced by the number of messages. |
| Sources.SetWritePosition | cdc/sources/__init__.py:78-89 | The write is accepted if and only if the id is one more than the last written id, or 1 when none is recorded. Otherwise it fails with the expected and the given id. On success the written watermark is exactly (id, position), and the flush watermark, the counter and the commit baseline are unchanged. |
| Sources.SetFlushPosition | cdc/sources/__init__.py:91-102 | The flush is accepted if and only if the id is one more than the last flushed id, or 1 when none is recorded. The written watermark is never consulted and is left unchanged. On success the flushed-since-commit count grows by exactly one, so a flush never switches off a count rule that has fired. |
| Watermarks.Advance | cdc/sources/__init__.py:87-89 | A watermark moves if and only if the id is the expected next one. It then holds that id and position, and its id has strictly increased. |
| Watermarks.AdvanceAllAcceptsExactlyConsecutive | cdc/sources/__init__.py:100-102 | A run of acknowledgements is accepted if and only if its ids continue the watermark with no gap, repeat or regression. It then leaves the watermark at the last acknowledgement, exactly as many ids further on as the run is long. |
| Runs.WriteAllMovesOnlyWritten | cdc/sources/__init__.py:86-89 | Repeated write updates succeed exactly when the written watermark accepts the whole run. They change nothing but that watermark. |
| Runs.FlushAllMovesOnlyFlushed | cdc/sources/__init__.py:99-102 | Repeated flush updates succeed exactly when the flush watermark accepts the whole run. They change nothing but that watermark. |
| Runs.FetchedRunIsWritable | cdc/sources/__init__.py:65-89 | Writing back fetched messages in fetch order is accepted if and only if their ids continue the written watermark. The written watermark then ends at the last message, and the flush watermark is untouched. |
| Runs.NewSourceRunIsWritable | cdc/sources/__init__.py:42-89 | A new source's first run of messages, numbered from 1, is always accepted when written back in fetch order. The written watermark ends at the last message. |
| Sources.CommitPositions | cdc/sources/__init__.py:104-116 | The backend receives exactly the current (write, flush) position pair. When the backend acknowledges, the baseline becomes the current flush id and the given clock value, and the watermarks and counter are unchanged. When the backend raises, the failure is reported and no new state results. After a successful commit, the count rule does not fire when the threshold is unset or not negative. |
| Runs.CommitRepeatResendsSamePair | cdc/sources/__init__.py:104-116 | Committing again with no progress re-sends the same pair. It ends in the same state as a single commit at the later time. |
| Sources.FlushedSinceCommit | cdc/sources/__init__.py:125-130 | In every state satisfying the source invariant, the number of messages flushed since the last commit is never negative. `Init` establishes that invariant, and `Fetch`, `SetWritePosition`, `SetFlushPosition` and `CommitPositions` each preserve it. |
| Runs.ReplayKeepsValid | cdc/sources/__init__.py:58-116 | Any sequence of fetch, write, flush and commit calls, applied to a state satisfying the source invariant, ends in a state that still satisfies it. |
| Runs.ReachableStatesAreValid | cdc/sources/__init__.py:38-116 | Every state a driver reaches from a new source satisfies the source invariant, so the count of messages flushed since the last commit is never negative there. |
| Runs.CountTriggerAfterFlushes | cdc/sources/__init__.py:115-133 | Right after a commit, a run of flushes makes the count rule fire if and only if something was flushed and the run is longer than the threshold. |
| Tasks.Earliest | cdc/sources/__init__.py:142-144 | The result is one of the two tasks, and its due time is the minimum of theirs. The proposed task wins only when it is strictly earlier, so ties go to the local task. |
| Sources.GetNextScheduledTask | cdc/sources/__init__.py:118-146 | When the count rule fires, the result is the commit task due at `now`, whatever the backend proposes. With no threshold or no flush id recorded, the count rule never decides the result. Otherwise the result is the commit task due one interval after the last commit, unless the backend's task is strictly earlier, in which case that task is returned. On a tie the commit task itself is returned. The due time is never later than either candidate. |
| Runs.ScheduleAfterCommit | cdc/sources/__init__.py:115-146 | After a commit at time t, with no flush since and a threshold that is unset or not negative, the next task is the commit due at t plus the interval. The only exception is a strictly earlier backend task, which is returned instead. |

The state is never changed by scheduling. `Sources.GetNextScheduledTask`
returns a task and no new state, so asking for the next task cannot modify
the source (cdc/sources/__init__.py:118-146).

After a commit, the next task is the commit due at the commit time plus the
interval, unless the backend proposes a strictly earlier task
(`Runs.ScheduleAfterCommit`). A negative threshold makes the count rule fire
immediately after every commit once a flush id is recorded.

## Left out

- `poll`: it only blocks on the backend until a message is ready or a timeout passes. There is no state to model.
- The backend's `fetch`, `commit_positions` and `get_next_scheduled_task`: these are foreign I/O. Their results are parameters: an optional (position, payload) pair, a `BackendReply` (acknowledged or raised), and an optional task.
- `datetime.now()`: the clock value is a parameter of `Sources.Init` and `Sources.CommitPositions`.
- `Sources.Configuration`: the interval is an integer number of microsecond ticks. The rounding of a float number of seconds to microseconds by `timedelta` is not modelled.
- Sources.GetNextScheduledTask: Python's `datetime` and `timedelta` have a bounded range. `Source.get_next_scheduled_task` raises `OverflowError` when the interval is huge or infinite, or when the last commit time plus the interval passes `datetime.max`, and raises `ValueError` when the interval is NaN. The model uses unbounded integer ticks and always returns a task.
- `Tasks.Later`: `ScheduledTask` is defined in cdc/types.py, which is not part of this model. Tasks are compared by due time only.
- Task actions: the commit task's callable is the tag `CommitPositionsAction`. A backend task's callable is an opaque `BackendAction` tag.
- Logging (`logger.trace`, `logger.debug`) and `__repr__`: these only observe the state.
- Running Python with assertions disabled (`-O`): with assertions off, the id checks would be skipped. The model always applies them.
- The comments on the two `Configuration` fields are swapped relative to the field names. The model follows the names.
- The snapshot source interface and its name-to-factory registry (cdc/snapshots/sources/__init__.py): there is only an abstract `dump` signature and a mapping, with no logic to verify.
- The snapshot row encoding exercised by tests/cdc/snapshots/sources/test_postgres_snapshot.py: the code that produces it (postgres_snapshot.py) is not part of this model.
- Concurrency: a source is owned by one driver thread, and the model is sequential.
