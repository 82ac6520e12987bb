# Scheduler core in Dafny

A model of the scheduling core of a job scheduler written in Go. The service
stores jobs in a Postgres table. On every tick it decides which jobs are due
and hands them to workers over a message channel. Workers report back with
completion messages.

The project models two parts.

- `SchedulerCase` from `internal/cases/scheduler.go`: job create, read, list
  and delete; the periodic `tick`; `runJob`; `HandleJobCompletion`; and the
  in-memory registry of running jobs.
- `JobsRepo` from `internal/adapter/repo/postgres/jobs.go`, modelled as a
  map from id to row. The model includes the `ON CONFLICT` merge rule, the
  per-job batch upsert that stops at the first failure, `ORDER BY id`, and
  the storage of intervals in whole seconds.

Modules:

- `Entity` (`entity.dfy`): the job record. Durations are in nanoseconds, as
  Go's `time.Duration`. `Milliseconds` and `Seconds` truncate toward zero,
  as Go's integer division does.
- `IdOrder` (`order.dfy`): byte-wise lexicographic order on ids, and the
  single strictly ascending sequence of a set of ids.
- `Postgres` (`postgres.dfy`): rows, the conversions between rows and jobs,
  the upsert merge, and the `JobsRepo` class.
- `Schedule` (`schedule.dfy`): the decisions of a tick and a completion as
  functions:
  - `IsDue`, the due-ness test;
  - `Reconciled`, the registry after reconciliation;
  - `SelectDue`, the jobs selected;
  - `Registrations` and `Delivered`, the effect of `runJob`;
  - `CompleteRow`, the stored effect of a completion.
- `Cases` (`scheduler.dfy`): the `SchedulerCase` class. Its state:
  - `running` is the registry, a map field that the methods reassign;
  - `cancelled` is a ghost multiset recording each invocation of a registry
    entry's cancel handle;
  - `published` is a ghost sequence of the jobs whose publish succeeded.

  `Tick` is proved equal to the composition of the `Schedule` functions.
  Properties of those functions are proved as lemmas.

Environment inputs become parameters:

- the current time (`now`);
- the fresh id that `uuid.NewString` would return;
- the outcome of each store call, as a `fails` flag, or for a batch upsert
  the index of the failing statement (`failAt`);
- the set of job ids whose publish fails.

Whether a publisher is configured is a constant field of the scheduler.

Where the code and the design description of the system differ, the model
follows the code:

- **Dispatch before persist.** `tick` starts `runJob` for each due job
  inside the selection loop, before the batch upsert
  (`internal/cases/scheduler.go:176-185`). The design says the Queued state
  is persisted before any dispatch. In the model, registration and publish
  of every selected job happen before `Upsert`. A failed upsert leaves the
  jobs registered and published.
- **Registration does not depend on publishing.** `runJob` registers the job
  before publishing, whatever the publish outcome, and also when no
  publisher is configured (`internal/cases/scheduler.go:194-205`). The design
  registers only after a successful publish.
- **No special not-found case on completion.** A completion for an unknown
  job returns the store's `repo.ErrJobNotFound` wrapped as `read job: %w`
  (`internal/cases/scheduler.go:211-214`); in the model this is
  `Wrapped("read job", JobNotFound)`. The design treats it as a
  terminal rejection.
- **Create does not wrap store errors.** A store error from `Create` is
  returned unwrapped (`internal/cases/scheduler.go:54-56`). `Read`, `List`,
  `Delete` and `tick` wrap theirs with a context prefix.

Intervals are written as `int64(d.Seconds())` and read back as seconds times
one second. A job created with a sub-second part in its interval therefore
runs on the truncated interval once it has been listed. For example, 1500 ms
becomes 1 s, and 500 ms becomes 0 s, which is due on every tick after its
first completion. `Postgres.JobRoundTrip` and `Postgres.JobRoundTripExact`
state exactly what survives the round trip.

## Model

| member | source | states |
|---|---|---|
| Entity.Milliseconds | internal/cases/scheduler.go:165 | `Duration.Milliseconds()` is the whole number of milliseconds in the duration, truncated toward zero for either sign |
| Entity.Seconds | internal/adapter/repo/postgres/jobs.go:62-66 | `int64(Interval.Seconds())` is the whole number of seconds in the interval, truncated toward zero for either sign |
| Entity.SecondsExact | internal/adapter/repo/postgres/jobs.go:62-66 | truncating to seconds loses nothing exactly when the duration is a whole number of seconds |
| Entity.SecondsOfWholeSeconds | internal/adapter/repo/postgres/jobs.go:115-119 | an interval read back from `interval_seconds = s` truncates back to `s` when written again |
| Entity.SecondsInInt64Range | internal/adapter/repo/postgres/jobs.go:62-66 | the seconds written for any int64 duration lie within ±9223372036, so reading them back as seconds times one second stays inside int64 |
| Entity.MillisecondsOfWholeSeconds | internal/cases/scheduler.go:165 | an interval read back from `interval_seconds = s` is exactly `s * 1000` milliseconds |
| IdOrder.Insert | internal/adapter/repo/postgres/jobs.go:31-35 | inserting a new id into a strictly ascending sequence keeps it strictly ascending and adds exactly that id |
| IdOrder.SortedUnique | internal/adapter/repo/postgres/jobs.go:31-35 | two strictly ascending id sequences with the same elements are equal, so `ORDER BY id` fixes the listing order |
| IdOrder.SortedIds | internal/adapter/repo/postgres/jobs.go:31-35 | the ascending order of a set of ids is strictly sorted and holds exactly the ids of the set |
| Postgres.RowRoundTrip | internal/adapter/repo/postgres/jobs.go:115-124 | writing back a job that was read from a row reproduces the row, NULL columns included |
| Postgres.JobRoundTrip | internal/adapter/repo/postgres/jobs.go:62-66 | a write/read round trip keeps every field except the interval, which keeps its presence and loses its sub-second part toward zero |
| Postgres.JobRoundTripExact | internal/adapter/repo/postgres/jobs.go:115-119 | the round trip returns the job unchanged exactly when it has no interval or a whole-second one |
| Postgres.UpsertRowEffect | internal/adapter/repo/postgres/jobs.go:36-43 | an upsert inserts the full row of a new id; for an existing id it takes only status, interval and finish time and keeps kind, one-shot time and payload; no other row changes |
| Postgres.UpsertIdempotent | internal/adapter/repo/postgres/jobs.go:36-43 | executing the same upsert twice stores what executing it once does |
| Postgres.ApplyUpsertsFrame | internal/adapter/repo/postgres/jobs.go:210-235 | a sequence of upserts adds exactly the ids of its jobs and leaves every other row unchanged |
| Postgres.Applied | internal/adapter/repo/postgres/jobs.go:210-235 | the statements executed are all of them unless the failing one lies inside the batch, and then exactly those before it |
| Postgres.JobsOf | internal/adapter/repo/postgres/jobs.go:146-196 | one job per id, in order, each built from its row |
| Postgres.ListingSpec | internal/adapter/repo/postgres/jobs.go:137-203 | the listing holds exactly the stored ids, each job built from its row, in strictly ascending id order |
| Postgres.ListingDistinct | internal/adapter/repo/postgres/jobs.go:31-35 | a listing never holds the same id twice |
| Postgres.OrderById | internal/adapter/repo/postgres/jobs.go:31-35 | the insertion loop returns the ascending order of the stored ids |
| Postgres.ScanRows | internal/adapter/repo/postgres/jobs.go:146-196 | the scan loop returns one job per id, built from its row, in order |
| Postgres.JobsRepo.Create | internal/adapter/repo/postgres/jobs.go:56-78 | a new id gets the job's row; a duplicate id or a database failure is an error that changes nothing |
| Postgres.JobsRepo.Read | internal/adapter/repo/postgres/jobs.go:80-135 | a missing id is `JobNotFound`, a failure is a database error, otherwise the job built from the stored row |
| Postgres.JobsRepo.List | internal/adapter/repo/postgres/jobs.go:137-203 | a failure is an error; otherwise every stored job, ordered by id |
| Postgres.JobsRepo.Upsert | internal/adapter/repo/postgres/jobs.go:205-238 | upserts run in slice order and stop at the first failure, whose predecessors stay applied; success exactly when none fails; an empty batch changes nothing |
| Postgres.JobsRepo.Delete | internal/adapter/repo/postgres/jobs.go:240-251 | a missing id is `JobNotFound` and changes nothing; otherwise exactly that row is removed |
| Schedule.DueMonotone | internal/cases/scheduler.go:162-174 | a job that is due stays due at any later time |
| Schedule.DueByKind | internal/cases/scheduler.go:162-174 | an interval job that never finished is due; one without an interval never is; a job of another kind never is |
| Schedule.OnceDue | internal/cases/scheduler.go:170-174 | a one-shot job is due exactly when its time is set, it never finished, and its time has come; after a finish it is never due |
| Schedule.StoredIntervalDue | internal/cases/scheduler.go:163-169 | a listed interval job with `interval_seconds = s` that has finished is due exactly from `lastFinishedAt + s * 1000` on |
| Schedule.IntervalScenario | internal/cases/scheduler.go:163-169 | a 60000 ms interval job that last finished at 1000 is not due at 50000 and is due at 61001 |
| Schedule.OnceScenario | internal/cases/scheduler.go:170-174 | a one-shot job for `t` is due exactly from `t` on, and never after a completion records a nonzero finish time |
| Schedule.ReconciledSound | internal/cases/scheduler.go:139-146 | after reconciliation the registry keys are exactly the registered ids that are listed; listed entries are untouched and the others gone |
| Schedule.ReconciledKeepsListed | internal/cases/scheduler.go:139-146 | when every registered id is listed, reconciliation keeps the whole registry |
| Schedule.SelectDueExact | internal/cases/scheduler.go:152-181 | a listed job is selected exactly when it is not registered and is due; every selected job is a listed job marked queued |
| Schedule.SelectDueIds | internal/cases/scheduler.go:152-181 | selection from a listing with distinct ids yields distinct ids, all of them listed |
| Schedule.NotYetRegistered | internal/cases/scheduler.go:152-160 | with distinct listed ids, a job is never registered by the dispatches earlier in the same tick, so the check against the registry is the check against the registry after reconciliation |
| Schedule.QuietTick | internal/cases/scheduler.go:128-189 | a tick with no due job and no deleted job leaves the registry as it was and cancels nothing |
| Schedule.SelectDueConcat | internal/cases/scheduler.go:152-181 | selection distributes over concatenation, so the upsert batch lists the selected jobs in listing order |
| Schedule.QueuedBatch | internal/adapter/repo/postgres/jobs.go:210-235 | a batch of distinct jobs, each built from its stored row and marked queued, changes exactly their rows, and only to status queued; every other row is unchanged |
| Schedule.TickPersistsQueued | internal/cases/scheduler.go:176-186 | the batch a tick selects from the listing of the store, once fully upserted, leaves each selected job stored as queued and every other row as it was |
| Schedule.Registrations | internal/cases/scheduler.go:194-198 | the registry entries made by dispatching a sequence of jobs are keyed exactly by their ids |
| Schedule.RegistrationsHold | internal/cases/scheduler.go:194-198 | with distinct ids, every dispatched job is registered under its own id with itself as entry |
| Schedule.DeliveredExact | internal/cases/scheduler.go:201-205 | without a publisher nothing is published; with one, exactly the dispatched jobs whose publish succeeded |
| Schedule.CompleteRow | internal/cases/scheduler.go:209-238 | the stored effect of a completion is the job's row with the message's status and finish time, and nothing else changed |
| Schedule.CompleteRowIdempotent | internal/cases/scheduler.go:209-238 | applying the same completion twice stores what applying it once does |
| Cases.WithStatus | internal/cases/scheduler.go:80-88 | the filtered jobs are exactly the listed jobs with the requested status |
| Cases.WithStatusConcat | internal/cases/scheduler.go:80-88 | filtering distributes over concatenation, so the filter keeps listing order |
| Cases.FilterByStatus | internal/cases/scheduler.go:80-88 | the filter loop returns the listed jobs with that status, in listing order |
| Cases.SchedulerCase.constructor | internal/cases/scheduler.go:34-47 | a new scheduler has an empty registry |
| Cases.SchedulerCase.Create | internal/cases/scheduler.go:49-59 | the job is stored under the fresh id with status queued and the id is returned; a store error is returned as it is and stores nothing |
| Cases.SchedulerCase.Read | internal/cases/scheduler.go:61-71 | a missing job is `NotFound`, another store error is wrapped as `read job`, otherwise the stored job |
| Cases.SchedulerCase.List | internal/cases/scheduler.go:73-92 | a store error is wrapped as `list jobs`; otherwise every stored job in id order, or those with the given status in that order |
| Cases.SchedulerCase.Drop | internal/cases/scheduler.go:97-101 | a registry entry for the id is cancelled and removed; nothing else changes |
| Cases.SchedulerCase.Delete | internal/cases/scheduler.go:94-113 | the registry entry is cancelled and removed in every case; a missing job is `NotFound`, another store error is wrapped as `delete job`; otherwise exactly that job is deleted |
| Cases.SchedulerCase.RunJob | internal/cases/scheduler.go:191-206 | the job is registered under its id whatever the publish outcome; it is published only when a publisher is configured and the publish succeeds |
| Cases.SchedulerCase.Reconcile | internal/cases/scheduler.go:139-147 | the registry becomes its reconciliation against the listed ids, and exactly the dropped ids are cancelled |
| Cases.SchedulerCase.Dispatch | internal/cases/scheduler.go:152-181 | the jobs collected are the selection against the registry at the start of the loop; each is registered and, with a publisher, published when its publish succeeds |
| Cases.SchedulerCase.ReconcileAndDispatch | internal/cases/scheduler.go:134-181 | reconciliation followed by selection and dispatch, stated through the reconciled registry |
| Cases.SchedulerCase.Tick | internal/cases/scheduler.go:128-189 | a list failure aborts the tick with nothing changed; otherwise the registry, the cancellations, the publishes and the store equal reconciliation, selection and dispatch of the listing; one upsert batch is written exactly when a job was selected; the tick succeeds exactly when every upsert in it does |
| Cases.SchedulerCase.HandleJobCompletion | internal/cases/scheduler.go:208-246 | a read failure, including a missing job, is wrapped as `read job` and an unknown status is rejected, both changing nothing; otherwise the registry entry is cancelled and removed and the job is upserted with the message's status and finish time |

## Left out

- `Start` (`internal/cases/scheduler.go:115-126`), the ticker loop, is left out. It only calls `tick` on a timer and discards its error. `Tick` takes the time as a parameter.
- Concurrency is left out: the mutex, the goroutine started per dispatched job, and interleavings between ticks, `runJob` and completions. Each operation is one atomic step, and `runJob` runs synchronously inside the selection loop.
- The message channel (NATS), the worker and the HTTP layer are left out. Publishing is an abstract call whose failures come from a parameter. The "ack on success, negative-ack on error" rule of the completion subscriber is outside the model; `HandleJobCompletion` returns the error that decides it.
- JSON marshalling and unmarshalling of the payload is left out. The payload is an opaque string, and marshalling errors are not modelled.
- Logging is left out.
- `uuid.NewString` is left out. The fresh id is a parameter, and its freshness is not assumed: a clash is a store error.
- `time.Now` is left out. The current time is a parameter.
- Postgres.IntervalFromColumn: durations are unbounded integers. In Go, `time.Duration(s) * time.Second` wraps around in int64 when |s| > 9223372036, and the model does not. Rows this program writes stay inside that range (`Entity.SecondsInInt64Range`), so only a value put in the column by other means would wrap.
- Entity.MillisecondsOfWholeSeconds: states exactly `s * 1000` ms for every `s`; in Go this holds only for |s| <= 9223372036, because of the wrap-around described for `Postgres.IntervalFromColumn`.
- Schedule.StoredIntervalDue: holds in Go only for |s| <= 9223372036, for the same reason.
- Schedule.IsDue: integers are unbounded, so the int64 overflow of `LastFinishedAt + intervalMs` for extreme values is not modelled.
- Entity.Seconds: `Duration.Seconds()` returns a float64 that is then truncated. The model divides exactly, so the rounding of very large durations to float64 is not modelled.
- Database collation is not modelled. `ORDER BY id` is taken as byte-wise order (`IdOrder.Less`). `Postgres.JobsRepo.List` computes it with an insertion loop over the stored ids, standing in for the database's sort.
- Cancel handles and contexts are left out. Invoking an entry's cancel handle is recorded in the ghost multiset `cancelled`.
- Store failures are one abstract `DbError`. The wrapping messages inside the store (`failed to read job: ...`, `rows error: ...`) are not distinguished.
- The type and port declarations in `internal/entity` and `internal/port` are not part of this model. The job record follows the fields the core reads and writes.
