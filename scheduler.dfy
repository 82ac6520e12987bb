/** The scheduler use case: job CRUD over the store, the periodic tick that
    dispatches due jobs, and the handling of completion messages, around an
    in-memory registry of running jobs. */
module Cases {
  import opened Entity
  import opened Postgres
  import opened Schedule

  datatype SchedError =
    | NotFound                                   // ErrNotFound
    | StoreError(cause: RepoError)               // a store error returned as it is
    | Wrapped(context: string, cause: RepoError) // a store error behind "<context>: "
    | UnknownStatus(status: string)              // "unknown status: <status>"

  /** The listed jobs whose status is `status`, in listing order. */
  function WithStatus(js: seq<Job>, status: Status): (r: seq<Job>)
    ensures forall j :: j in r <==> j in js && j.status == status
    decreases |js|
  {
    if js == [] then []
    else
      var init := js[..|js| - 1];
      var last := js[|js| - 1];
      assert js == init + [last];
      WithStatus(init, status) + (if last.status == status then [last] else [])
  }

  /** Filtering distributes over concatenation, so it keeps the listing order. */
  lemma {:induction false} WithStatusConcat(a: seq<Job>, b: seq<Job>, status: Status)
    ensures WithStatus(a + b, status) == WithStatus(a, status) + WithStatus(b, status)
    decreases |b|
  {
    if b != [] {
      var init := b[..|b| - 1];
      assert (a + b)[..|a + b| - 1] == a + init;
      WithStatusConcat(a, init, status);
    } else {
      assert a + b == a;
    }
  }

  /** The filtering loop of List. */
  method FilterByStatus(jobs: seq<Job>, status: Status) returns (filtered: seq<Job>)
    ensures filtered == WithStatus(jobs, status)
  {
    filtered := [];
    for i := 0 to |jobs|
      invariant filtered == WithStatus(jobs[..i], status)
    {
      assert jobs[..i + 1][..i] == jobs[..i];
      if jobs[i].status == status {
        filtered := filtered + [jobs[i]];
      }
    }
    assert jobs[..|jobs|] == jobs;
  }

  class SchedulerCase {
    /** The jobs store. */
    const repo: JobsRepo
    /** Whether a publisher is configured (a nil publisher skips publishing). */
    const hasPublisher: bool
    /** The registry of dispatched jobs, by id. */
    var running: map<string, RunningJob>
    /** The ids whose registry entry had its cancel handle invoked. */
    ghost var cancelled: multiset<string>
    /** The jobs handed to the message channel, in publish order. */
    ghost var published: seq<Job>

    /** Every registry entry is filed under its job's id. */
    ghost predicate Valid()
      reads this
    {
      forall id :: id in running ==> running[id].job.id == id
    }

    constructor (repo: JobsRepo, hasPublisher: bool)
      ensures Valid()
      ensures this.repo == repo && this.hasPublisher == hasPublisher
      ensures running == map[] && cancelled == multiset{} && published == []
    {
      this.repo := repo;
      this.hasPublisher := hasPublisher;
      running := map[];
      cancelled := multiset{};
      published := [];
    }

    /** Stores the job under a fresh id with status queued and returns the id. */
    method Create(job: Job, freshId: string, fails: bool) returns (r: Result<string, SchedError>)
      modifies repo
      ensures repo.batches == old(repo.batches)
      ensures r.Ok? <==> !fails && freshId !in old(repo.rows)
      ensures r.Ok? ==>
        && r.value == freshId
        && repo.rows == old(repo.rows)[freshId := ToRow(job.(id := freshId, status := Queued))]
      ensures r.Err? ==> r.error == StoreError(DbError) && repo.rows == old(repo.rows)
    {
      var stored := job.(id := freshId, status := Queued);
      var err := repo.Create(stored, fails);
      if err.Some? {
        return Err(StoreError(err.value));
      }
      return Ok(stored.id);
    }

    method Read(jobId: string, fails: bool) returns (r: Result<Job, SchedError>)
      ensures fails ==> r == Err(Wrapped("read job", DbError))
      ensures !fails && jobId !in repo.rows ==> r == Err(NotFound)
      ensures !fails && jobId in repo.rows ==> r == Ok(FromRow(jobId, repo.rows[jobId]))
    {
      var found := repo.Read(jobId, fails);
      if found.Err? {
        if found.error == JobNotFound {
          return Err(NotFound);
        }
        return Err(Wrapped("read job", found.error));
      }
      return Ok(found.value);
    }

    /** All jobs in id order, or those with the given status. */
    method List(status: Option<Status>, fails: bool) returns (r: Result<seq<Job>, SchedError>)
      ensures fails ==> r == Err(Wrapped("list jobs", DbError))
      ensures !fails && status.None? ==> r == Ok(Listing(repo.rows))
      ensures !fails && status.Some? ==> r == Ok(WithStatus(Listing(repo.rows), status.value))
    {
      var listed := repo.List(fails);
      if listed.Err? {
        return Err(Wrapped("list jobs", listed.error));
      }
      var jobs := listed.value;
      if status.Some? {
        var filtered := FilterByStatus(jobs, status.value);
        return Ok(filtered);
      }
      return Ok(jobs);
    }

    /** Invokes the cancel handle of the job's registry entry, if any, and
        removes the entry. */
    method Drop(jobId: string)
      requires Valid()
      modifies this
      ensures Valid()
      ensures running == old(running) - {jobId}
      ensures cancelled == old(cancelled) + (if jobId in old(running) then multiset{jobId} else multiset{})
      ensures published == old(published)
    {
      if jobId in running {
        cancelled := cancelled + multiset{jobId};
        running := running - {jobId};
      }
    }

    /** Cancels and drops the registry entry, then deletes the stored job. */
    method Delete(jobId: string, fails: bool) returns (err: Option<SchedError>)
      requires Valid()
      modifies this, repo
      ensures Valid()
      ensures running == old(running) - {jobId}
      ensures cancelled == old(cancelled) + (if jobId in old(running) then multiset{jobId} else multiset{})
      ensures published == old(published) && repo.batches == old(repo.batches)
      ensures fails ==> err == Some(Wrapped("delete job", DbError)) && repo.rows == old(repo.rows)
      ensures !fails && jobId !in old(repo.rows) ==> err == Some(NotFound) && repo.rows == old(repo.rows)
      ensures !fails && jobId in old(repo.rows) ==> err == None && repo.rows == old(repo.rows) - {jobId}
    {
      Drop(jobId);
      var e := repo.Delete(jobId, fails);
      if e.Some? {
        if e.value == JobNotFound {
          return Some(NotFound);
        }
        return Some(Wrapped("delete job", e.value));
      }
      return None;
    }

    /** Registers the job, then publishes it when a publisher is configured;
        a failed publish is only logged and the entry stays. */
    method RunJob(j: Job, publishFails: bool)
      requires Valid()
      modifies this
      ensures Valid()
      ensures running == old(running)[j.id := RunningJob(j)]
      ensures cancelled == old(cancelled)
      ensures published == old(published) + (if hasPublisher && !publishFails then [j] else [])
    {
      running := running[j.id := RunningJob(j)];
      if hasPublisher {
        if !publishFails {
          published := published + [j];
        }
      }
    }

    /** The reconciliation step of a tick: cancels and drops every registry
        entry whose id is not among the listed ids. */
    method Reconcile(listed: set<string>)
      requires Valid()
      modifies this
      ensures Valid()
      ensures running == Reconciled(old(running), listed)
      ensures cancelled == old(cancelled) + multiset(old(running).Keys - listed)
      ensures published == old(published)
    {
      var pending := running.Keys;
      ghost var gone: set<string> := {};
      assert Reconciled(old(running), listed + pending) == old(running);
      while pending != {}
        invariant pending <= old(running).Keys
        invariant running == Reconciled(old(running), listed + pending)
        invariant gone == (old(running).Keys - pending) - listed
        invariant cancelled == old(cancelled) + multiset(gone)
        invariant published == old(published)
        invariant Valid()
        decreases pending
      {
        var id :| id in pending;
        if id !in listed {
          Drop(id);
          assert listed + (pending - {id}) == (listed + pending) - {id};
          ReconciledRemove(old(running), listed + pending, id);
          MultisetOfSetAdd(gone, id);
          assert cancelled == old(cancelled) + multiset(gone + {id});
          gone := gone + {id};
        } else {
          assert listed + (pending - {id}) == listed + pending;
        }
        pending := pending - {id};
      }
      assert gone == old(running).Keys - listed;
    }

    /** The selection loop of a tick: each listed job that is not running and
        is due is marked queued, collected and handed to RunJob. */
    method Dispatch(jobs: seq<Job>, now: int, publishFails: set<string>) returns (updates: seq<Job>)
      requires Valid() && DistinctIds(jobs)
      modifies this
      ensures Valid()
      ensures updates == SelectDue(jobs, old(running), now)
      ensures running == old(running) + Registrations(updates)
      ensures published == old(published) + Delivered(updates, hasPublisher, publishFails)
      ensures cancelled == old(cancelled)
    {
      updates := [];
      ghost var before := running;
      var i := 0;
      while i < |jobs|
        invariant 0 <= i <= |jobs|
        invariant updates == SelectDue(jobs[..i], before, now)
        invariant running == before + Registrations(updates)
        invariant published == old(published) + Delivered(updates, hasPublisher, publishFails)
        invariant cancelled == old(cancelled)
        invariant Valid()
      {
        var j := jobs[i];
        NotYetRegistered(jobs, i, before, now);
        var isRunning := j.id in running;
        SelectDueStep(jobs, i, before, now);
        if !isRunning && IsDue(j, now) {
          var q := j.(status := Queued);
          ghost var prev, regs, sent := updates, running, published;
          updates := updates + [q];
          RunJob(q, q.id in publishFails);
          assert running == before + Registrations(updates) by {
            DispatchStep(prev, q, hasPublisher, publishFails);
            UnionUpdate(before, Registrations(prev), q.id, RunningJob(q));
          }
          assert published == old(published) + Delivered(updates, hasPublisher, publishFails) by {
            DispatchStep(prev, q, hasPublisher, publishFails);
            AppendAssoc(old(published), Delivered(prev, hasPublisher, publishFails),
                        if hasPublisher && q.id !in publishFails then [q] else []);
          }
        }
        i := i + 1;
      }
      assert jobs[..i] == jobs;
    }

    /** One scheduling cycle at time `now`: list the jobs, drop the registry
        entries of jobs no longer stored, dispatch every due job that is not
        running, and persist the dispatched jobs as queued in one batch. The
        ghost results name the listing, the registry after reconciliation and
        the selected jobs. */
    method Tick(now: int, listFails: bool, publishFails: set<string>, upsertFailAt: Option<nat>)
      returns (err: Option<SchedError>, ghost jobs: seq<Job>, ghost kept: map<string, RunningJob>, ghost sel: seq<Job>)
      requires Valid()
      modifies this, repo
      ensures Valid()
      ensures listFails ==> err == Some(Wrapped("list jobs", DbError)) && unchanged(this, repo)
      ensures !listFails ==> jobs == Listing(old(repo.rows))
      ensures !listFails ==> kept == Reconciled(old(running), Ids(jobs))
      ensures !listFails ==> sel == SelectDue(jobs, kept, now)
      ensures !listFails ==> running == kept + Registrations(sel)
      ensures !listFails ==> cancelled == old(cancelled) + multiset(old(running).Keys - kept.Keys)
      ensures !listFails ==> published == old(published) + Delivered(sel, hasPublisher, publishFails)
      ensures !listFails ==> repo.batches == old(repo.batches) + (if sel == [] then [] else [sel])
      ensures !listFails ==> repo.rows == ApplyUpserts(old(repo.rows), sel[..Applied(|sel|, upsertFailAt)])
      ensures !listFails ==> (err.None? <==> Applied(|sel|, upsertFailAt) == |sel|)
      ensures !listFails && err.Some? ==> err.value == Wrapped("upsert started jobs", DbError)
    {
      var listed := repo.List(listFails);
      if listed.Err? {
        return Some(Wrapped("list jobs", listed.error)), [], map[], [];
      }
      var listedJobs := listed.value;
      jobs := listedJobs;
      ListingDistinct(repo.rows);
      var updates;
      updates, kept := ReconcileAndDispatch(listedJobs, now, publishFails);
      sel := updates;
      err := None;
      if |updates| > 0 {
        var e := repo.Upsert(updates, upsertFailAt);
        if e.Some? {
          err := Some(Wrapped("upsert started jobs", e.value));
        }
      }
    }

    /** The in-memory part of a tick over the listed jobs: reconciliation,
        then selection and dispatch of the due jobs. */
    method ReconcileAndDispatch(jobs: seq<Job>, now: int, publishFails: set<string>)
      returns (updates: seq<Job>, ghost kept: map<string, RunningJob>)
      requires Valid() && DistinctIds(jobs)
      modifies this
      ensures Valid()
      ensures kept == Reconciled(old(running), Ids(jobs))
      ensures updates == SelectDue(jobs, kept, now)
      ensures running == kept + Registrations(updates)
      ensures cancelled == old(cancelled) + multiset(old(running).Keys - kept.Keys)
      ensures published == old(published) + Delivered(updates, hasPublisher, publishFails)
    {
      Reconcile(Ids(jobs));
      kept := running;
      assert old(running).Keys - kept.Keys == old(running).Keys - Ids(jobs);
      updates := Dispatch(jobs, now, publishFails);
    }

    /** Applies a worker's completion message: the job takes the message's
        status and finish time, its registry entry is cancelled and dropped,
        and the job is written back. */
    method HandleJobCompletion(jobId: string, status: string, finishedAt: int, readFails: bool, upsertFails: bool)
      returns (err: Option<SchedError>)
      requires Valid()
      modifies this, repo
      ensures Valid()
      ensures published == old(published)
      ensures readFails ==> err == Some(Wrapped("read job", DbError)) && unchanged(this, repo)
      ensures !readFails && jobId !in old(repo.rows) ==>
        err == Some(Wrapped("read job", JobNotFound)) && unchanged(this, repo)
      ensures !readFails && jobId in old(repo.rows) && !IsTerminal(status) ==>
        err == Some(UnknownStatus(status)) && unchanged(this, repo)
      ensures !readFails && jobId in old(repo.rows) && IsTerminal(status) ==>
        && running == old(running) - {jobId}
        && cancelled == old(cancelled) + (if jobId in old(running) then multiset{jobId} else multiset{})
        && repo.batches == old(repo.batches) +
             [[FromRow(jobId, old(repo.rows)[jobId]).(status := status, lastFinishedAt := finishedAt)]]
        && (upsertFails ==> err == Some(Wrapped("upsert job", DbError)) && repo.rows == old(repo.rows))
        && (!upsertFails ==> err == None && repo.rows == CompleteRow(old(repo.rows), jobId, status, finishedAt))
    {
      var found := repo.Read(jobId, readFails);
      if found.Err? {
        return Some(Wrapped("read job", found.error));
      }
      var job := found.value;
      if status == Completed {
        job := job.(status := Completed);
      } else if status == Failed {
        job := job.(status := Failed);
      } else {
        return Some(UnknownStatus(status));
      }
      job := job.(lastFinishedAt := finishedAt);

      Drop(jobId);
      var e := repo.Upsert([job], if upsertFails then Some(0) else None);
      assert [job][..1] == [job] && [job][..0] == [];
      assert ApplyUpserts(old(repo.rows), [job]) == UpsertRow(old(repo.rows), job) by {
        assert [job][..0] == [];
      }
      if e.Some? {
        return Some(Wrapped("upsert job", e.value));
      }
      return None;
    }
  }
}
