/** The decisions one scheduler tick and one completion make, as functions of
    the listed jobs, the running-job registry and the time. */
module Schedule {
  import opened Entity
  import opened Postgres

  /** A registry entry: the dispatched job. Its cancel handle is the entry
      itself; invoking it is recorded by the scheduler's cancellation log. */
  datatype RunningJob = RunningJob(job: Job)

  /** The due-ness test a tick applies to a job that is not running. */
  predicate IsDue(j: Job, now: int)
  {
    match j.kind
    case IntervalKind =>
      j.interval.Some? &&
      (j.lastFinishedAt == 0 || now >= j.lastFinishedAt + Milliseconds(j.interval.value))
    case OnceKind =>
      j.once.Some? && j.lastFinishedAt == 0 && now >= j.once.value
    case UnknownKind(_) =>
      false
  }

  /** A due job stays due as time goes on. */
  lemma DueMonotone(j: Job, now: int, later: int)
    requires now <= later && IsDue(j, now)
    ensures IsDue(j, later)
  {
  }

  /** An interval job that never finished is due at any time; one without an
      interval never is; neither is a job of an unknown kind. */
  lemma DueByKind(j: Job, now: int)
    ensures j.kind == IntervalKind && j.interval.Some? && j.lastFinishedAt == 0 ==> IsDue(j, now)
    ensures j.kind == IntervalKind && j.interval.None? ==> !IsDue(j, now)
    ensures j.kind.UnknownKind? ==> !IsDue(j, now)
  {
  }

  /** A one-shot job fires only before it has ever finished and not before its time. */
  lemma OnceDue(j: Job, now: int)
    requires j.kind == OnceKind
    ensures IsDue(j, now) <==> j.once.Some? && j.lastFinishedAt == 0 && j.once.value <= now
    ensures j.lastFinishedAt != 0 ==> !IsDue(j, now)
  {
  }

  /** For an interval job as the store returns it, with interval_seconds = s,
      the next run is due exactly s * 1000 ms after the last finish. */
  lemma StoredIntervalDue(id: string, r: Row, now: int)
    requires r.kind == IntervalKind && r.intervalSeconds.Some? && r.lastFinishedAt != 0
    ensures IsDue(FromRow(id, r), now) <==> now >= r.lastFinishedAt + r.intervalSeconds.value * 1000
  {
    MillisecondsOfWholeSeconds(r.intervalSeconds.value);
  }

  /** An interval job of 60000 ms that last finished at 1000 is not due at
      50000 and is due at 61001. */
  lemma IntervalScenario(id: string, status: Status, payload: Payload)
    ensures var j := Job(id, IntervalKind, status, Some(60000 * Millisecond), None, 1000, payload);
      !IsDue(j, 50000) && IsDue(j, 61001)
  {
  }

  /** A one-shot job for time t is due from t on, and never again once a
      completion has recorded a nonzero finish time. */
  lemma OnceScenario(j: Job, t: int, now: int, finishedAt: int)
    requires j.kind == OnceKind && j.once == Some(t) && j.lastFinishedAt == 0
    requires finishedAt != 0
    ensures IsDue(j, now) <==> now >= t
    ensures !IsDue(j.(status := Completed, lastFinishedAt := finishedAt), now)
  {
  }

  /** The registry after reconciliation: the entries whose id was listed. */
  function Reconciled(running: map<string, RunningJob>, listed: set<string>): map<string, RunningJob>
  {
    map id | id in running && id in listed :: running[id]
  }

  /** After reconciliation every registry key is a listed id; entries of
      listed ids are untouched and those of absent ids are gone. */
  lemma ReconciledSound(running: map<string, RunningJob>, listed: set<string>)
    ensures var r := Reconciled(running, listed);
      && r.Keys == running.Keys * listed
      && (forall id :: id in r ==> r[id] == running[id])
      && (forall id :: id in running && id !in listed ==> id !in r)
  {
  }

  /** When every registered id is still listed, reconciliation keeps the
      whole registry and cancels nothing. */
  lemma {:induction false} ReconciledKeepsListed(running: map<string, RunningJob>, listed: set<string>)
    requires running.Keys <= listed
    ensures Reconciled(running, listed) == running
  {
    var r := Reconciled(running, listed);
    assert r.Keys == running.Keys;
  }

  /** Reconciling against one id fewer drops exactly that id's entry. */
  lemma ReconciledRemove(running: map<string, RunningJob>, listed: set<string>, id: string)
    ensures Reconciled(running, listed - {id}) == Reconciled(running, listed) - {id}
  {
    var a, b := Reconciled(running, listed - {id}), Reconciled(running, listed) - {id};
    assert a.Keys == b.Keys;
  }

  lemma MultisetOfSetAdd(s: set<string>, x: string)
    requires x !in s
    ensures multiset(s + {x}) == multiset(s) + multiset{x}
  {
  }

  /** One more listed job considered by the selection loop. */
  lemma SelectDueStep(jobs: seq<Job>, i: int, running: map<string, RunningJob>, now: int)
    requires 0 <= i < |jobs|
    ensures SelectDue(jobs[..i + 1], running, now) ==
      SelectDue(jobs[..i], running, now) +
      (if jobs[i].id !in running && IsDue(jobs[i], now) then [jobs[i].(status := Queued)] else [])
  {
    assert jobs[..i + 1][..i] == jobs[..i];
  }

  /** The jobs a tick selects, in listing order, each marked queued. */
  function SelectDue(jobs: seq<Job>, running: map<string, RunningJob>, now: int): seq<Job>
    decreases |jobs|
  {
    if jobs == [] then []
    else
      var init := SelectDue(jobs[..|jobs| - 1], running, now);
      var j := jobs[|jobs| - 1];
      if j.id !in running && IsDue(j, now) then init + [j.(status := Queued)] else init
  }

  /** A listed job is selected exactly when it is not running and is due;
      every selected job is such a job marked queued. */
  lemma {:induction false} SelectDueExact(jobs: seq<Job>, running: map<string, RunningJob>, now: int)
    ensures var sel := SelectDue(jobs, running, now);
      && (forall k :: 0 <= k < |jobs| ==>
            (jobs[k].(status := Queued) in sel <==> jobs[k].id !in running && IsDue(jobs[k], now)))
      && (forall j :: j in sel ==> j.status == Queued && j.id !in running && IsDue(j, now))
      && (forall j :: j in sel ==> exists k :: 0 <= k < |jobs| && j == jobs[k].(status := Queued))
    decreases |jobs|
  {
    if jobs != [] {
      var init := jobs[..|jobs| - 1];
      SelectDueExact(init, running, now);
      var sel := SelectDue(jobs, running, now);
      var sel0 := SelectDue(init, running, now);
      forall j | j in sel ensures exists k :: 0 <= k < |jobs| && j == jobs[k].(status := Queued) {
        if j in sel0 {
          var k :| 0 <= k < |init| && j == init[k].(status := Queued);
          assert j == jobs[k].(status := Queued);
        } else {
          assert j == jobs[|jobs| - 1].(status := Queued);
        }
      }
      forall k | 0 <= k < |jobs|
        ensures jobs[k].(status := Queued) in sel <==> jobs[k].id !in running && IsDue(jobs[k], now)
      {
        if k < |jobs| - 1 {
          assert init[k] == jobs[k];
        }
      }
    }
  }

  /** Selection from jobs with distinct ids yields distinct ids, all of them listed. */
  lemma {:induction false} SelectDueIds(jobs: seq<Job>, running: map<string, RunningJob>, now: int)
    requires DistinctIds(jobs)
    ensures DistinctIds(SelectDue(jobs, running, now))
    ensures Ids(SelectDue(jobs, running, now)) <= Ids(jobs)
    decreases |jobs|
  {
    if jobs != [] {
      var init := jobs[..|jobs| - 1];
      var last := jobs[|jobs| - 1];
      SelectDueIds(init, running, now);
      var sel0 := SelectDue(init, running, now);
      forall k | 0 <= k < |init| ensures init[k].id != last.id {
        assert init[k] == jobs[k];
      }
      assert last.id !in Ids(init);
      assert Ids(init) <= Ids(jobs) by {
        forall id | id in Ids(init) ensures id in Ids(jobs) {
          var k :| 0 <= k < |init| && init[k].id == id;
          assert jobs[k].id == id;
        }
      }
      if last.id !in running && IsDue(last, now) {
        var sel := sel0 + [last.(status := Queued)];
        forall a, b | 0 <= a < b < |sel| ensures sel[a].id != sel[b].id {
          if b == |sel| - 1 {
            assert sel[a].id in Ids(sel0);
          }
        }
        assert Ids(sel) <= Ids(jobs) by {
          forall id | id in Ids(sel) ensures id in Ids(jobs) {
            var k :| 0 <= k < |sel| && sel[k].id == id;
            if k < |sel0| { assert sel0[k].id == id; }
          }
        }
      }
    }
  }

  /** Selection distributes over concatenation: the selected jobs keep their
      listing order, which decides which prefix of the batch a failed upsert
      leaves applied. */
  lemma {:induction false} SelectDueConcat(a: seq<Job>, b: seq<Job>, running: map<string, RunningJob>, now: int)
    ensures SelectDue(a + b, running, now) == SelectDue(a, running, now) + SelectDue(b, running, now)
    decreases |b|
  {
    if b == [] {
      assert a + b == a;
    } else {
      var init := b[..|b| - 1];
      assert (a + b)[..|a + b| - 1] == a + init;
      SelectDueConcat(a, init, running, now);
    }
  }

  /** The registry entries made for the dispatched jobs, later ones winning. */
  function Registrations(js: seq<Job>): (r: map<string, RunningJob>)
    ensures r.Keys == Ids(js)
    decreases |js|
  {
    if js == [] then map[]
    else
      var init := js[..|js| - 1];
      var last := js[|js| - 1];
      assert Ids(js) == Ids(init) + {last.id} by {
        forall id | id in Ids(js) ensures id in Ids(init) + {last.id} {
          var k :| 0 <= k < |js| && js[k].id == id;
          if k < |js| - 1 { assert init[k].id == id; }
        }
      }
      Registrations(init)[last.id := RunningJob(last)]
  }

  /** A tick that finds every registered job still listed and no job due
      leaves the registry as it was and cancels nothing. */
  lemma QuietTick(running: map<string, RunningJob>, jobs: seq<Job>, now: int)
    requires running.Keys <= Ids(jobs)
    requires SelectDue(jobs, running, now) == []
    ensures var kept := Reconciled(running, Ids(jobs));
      && kept + Registrations(SelectDue(jobs, kept, now)) == running
      && running.Keys - kept.Keys == {}
  {
    ReconciledKeepsListed(running, Ids(jobs));
  }

  /** One more dispatched job registered, and possibly delivered. */
  lemma DispatchStep(js: seq<Job>, q: Job, hasPublisher: bool, publishFails: set<string>)
    ensures Registrations(js + [q]) == Registrations(js)[q.id := RunningJob(q)]
    ensures Delivered(js + [q], hasPublisher, publishFails) ==
      Delivered(js, hasPublisher, publishFails) + (if hasPublisher && q.id !in publishFails then [q] else [])
  {
    assert (js + [q])[..|js|] == js;
  }

  /** A listed job is not yet registered by the selection of the jobs before it. */
  lemma NotYetRegistered(jobs: seq<Job>, i: int, running: map<string, RunningJob>, now: int)
    requires DistinctIds(jobs) && 0 <= i < |jobs|
    ensures jobs[i].id !in Registrations(SelectDue(jobs[..i], running, now))
  {
    var prefix := jobs[..i];
    forall a, b | 0 <= a < b < |prefix| ensures prefix[a].id != prefix[b].id {
      assert prefix[a] == jobs[a] && prefix[b] == jobs[b];
    }
    SelectDueIds(prefix, running, now);
    forall k | 0 <= k < i ensures prefix[k].id != jobs[i].id {
      assert prefix[k] == jobs[k];
    }
  }

  lemma AppendAssoc(a: seq<Job>, b: seq<Job>, c: seq<Job>)
    ensures (a + b) + c == a + (b + c)
  {
  }

  lemma UnionUpdate(a: map<string, RunningJob>, b: map<string, RunningJob>, k: string, v: RunningJob)
    ensures (a + b)[k := v] == a + b[k := v]
  {
  }

  /** With distinct ids, each dispatched job is registered under its own id. */
  lemma {:induction false} RegistrationsHold(js: seq<Job>)
    requires DistinctIds(js)
    ensures forall k :: 0 <= k < |js| ==> Registrations(js)[js[k].id] == RunningJob(js[k])
    decreases |js|
  {
    if js != [] {
      var init := js[..|js| - 1];
      RegistrationsHold(init);
      forall k | 0 <= k < |js| ensures Registrations(js)[js[k].id] == RunningJob(js[k]) {
        if k < |js| - 1 {
          assert init[k] == js[k];
          assert js[k].id != js[|js| - 1].id;
        }
      }
    }
  }

  /** The jobs handed to the message channel: those whose publish succeeded,
      none at all without a publisher. */
  function Delivered(js: seq<Job>, hasPublisher: bool, publishFails: set<string>): seq<Job>
    decreases |js|
  {
    if js == [] then []
    else
      Delivered(js[..|js| - 1], hasPublisher, publishFails) +
        (if hasPublisher && js[|js| - 1].id !in publishFails then [js[|js| - 1]] else [])
  }

  /** Without a publisher nothing is delivered; with one, exactly the
      dispatched jobs whose publish succeeded, in dispatch order. */
  lemma {:induction false} DeliveredExact(js: seq<Job>, hasPublisher: bool, publishFails: set<string>)
    ensures var r := Delivered(js, hasPublisher, publishFails);
      && |r| <= |js|
      && (!hasPublisher ==> r == [])
      && (forall j :: j in r <==> hasPublisher && j in js && j.id !in publishFails)
    decreases |js|
  {
    if js != [] {
      var init := js[..|js| - 1];
      DeliveredExact(init, hasPublisher, publishFails);
      assert js == init + [js[|js| - 1]];
    }
  }

  /** The store after a tick's batch upsert: each job of the batch was built
      from its stored row and marked queued, so its row only changes status to
      queued; every other row is unchanged. */
  lemma {:induction false} QueuedBatch(rows: map<string, Row>, sel: seq<Job>, id: string)
    requires DistinctIds(sel) && id in rows
    requires forall k :: 0 <= k < |sel| ==>
      sel[k].id in rows && sel[k] == FromRow(sel[k].id, rows[sel[k].id]).(status := Queued)
    ensures id in ApplyUpserts(rows, sel)
    ensures ApplyUpserts(rows, sel)[id] ==
      if id in Ids(sel) then rows[id].(status := Queued) else rows[id]
    decreases |sel|
  {
    ApplyUpsertsFrame(rows, sel);
    if sel != [] {
      var init := sel[..|sel| - 1];
      var last := sel[|sel| - 1];
      assert DistinctIds(init) by {
        forall a, b | 0 <= a < b < |init| ensures init[a].id != init[b].id {
          assert init[a] == sel[a] && init[b] == sel[b];
        }
      }
      forall k | 0 <= k < |init|
        ensures init[k].id in rows && init[k] == FromRow(init[k].id, rows[init[k].id]).(status := Queued)
      {
        assert init[k] == sel[k];
      }
      IdsAppend(init, last);
      assert sel == init + [last];
      var before := ApplyUpserts(rows, init);
      ApplyUpsertsFrame(rows, init);
      if id == last.id {
        assert last.id !in Ids(init) by {
          forall k | 0 <= k < |init| ensures init[k].id != last.id {
            assert init[k] == sel[k];
          }
        }
        assert before[id] == rows[id];
        RowRoundTrip(id, rows[id]);
      } else {
        QueuedBatch(rows, init, id);
      }
    }
  }

  /** A tick's batch, selected from the listing of the store, persists exactly
      the selected jobs as queued and changes nothing else in the store. */
  lemma TickPersistsQueued(rows: map<string, Row>, running: map<string, RunningJob>, now: int, id: string)
    requires id in rows
    ensures var sel := SelectDue(Listing(rows), running, now);
      && id in ApplyUpserts(rows, sel)
      && ApplyUpserts(rows, sel)[id] == if id in Ids(sel) then rows[id].(status := Queued) else rows[id]
  {
    var jobs := Listing(rows);
    var sel := SelectDue(jobs, running, now);
    ListingSpec(rows);
    ListingDistinct(rows);
    SelectDueIds(jobs, running, now);
    SelectDueExact(jobs, running, now);
    forall k | 0 <= k < |sel|
      ensures sel[k].id in rows && sel[k] == FromRow(sel[k].id, rows[sel[k].id]).(status := Queued)
    {
      assert sel[k] in sel;
      var m :| 0 <= m < |jobs| && sel[k] == jobs[m].(status := Queued);
    }
    QueuedBatch(rows, sel, id);
  }

  /** The two statuses a completion message may carry. */
  predicate IsTerminal(status: Status)
  {
    status == Completed || status == Failed
  }

  /** The stored rows after a completion for the stored job `id`: the job is
      read back, given the message's status and finish time, and upserted. */
  function CompleteRow(rows: map<string, Row>, id: string, status: Status, finishedAt: int): (r: map<string, Row>)
    requires id in rows
    ensures r == rows[id := rows[id].(status := status, lastFinishedAt := finishedAt)]
  {
    RowRoundTrip(id, rows[id]);
    UpsertRow(rows, FromRow(id, rows[id]).(status := status, lastFinishedAt := finishedAt))
  }

  /** Applying the same completion twice leaves the store as applying it once. */
  lemma CompleteRowIdempotent(rows: map<string, Row>, id: string, status: Status, finishedAt: int)
    requires id in rows
    ensures CompleteRow(CompleteRow(rows, id, status, finishedAt), id, status, finishedAt)
         == CompleteRow(rows, id, status, finishedAt)
  {
  }
}
