/** The jobs store: one table keyed by job id. Rows keep the interval in whole
    seconds and NULL for an absent interval or one-shot timestamp. */
module Postgres {
  import opened Entity
  import IdOrder

  /** ErrJobNotFound, or any other failure the database reports. */
  datatype RepoError = JobNotFound | DbError

  /** One row of the jobs table, without its id. */
  datatype Row = Row(
    kind: Kind,
    status: Status,
    intervalSeconds: Option<int>,
    onceTimestamp: Option<int>,
    lastFinishedAt: int,
    payload: Payload)

  /** The interval_seconds column written for an interval: truncated seconds, or NULL. */
  function IntervalColumn(interval: Option<Duration>): Option<int>
  {
    match interval
    case None => None
    case Some(d) => Some(Seconds(d))
  }

  /** The interval read back from interval_seconds: seconds times one second. */
  function IntervalFromColumn(column: Option<int>): Option<Duration>
  {
    match column
    case None => None
    case Some(s) => Some(s * Second)
  }

  /** The row written for a job (create and upsert bind the same values). */
  function ToRow(j: Job): Row
  {
    Row(j.kind, j.status, IntervalColumn(j.interval), j.once, j.lastFinishedAt, j.payload)
  }

  /** The job built from a scanned row (read and list build it the same way). */
  function FromRow(id: string, r: Row): Job
  {
    Job(id, r.kind, r.status, IntervalFromColumn(r.intervalSeconds), r.onceTimestamp,
        r.lastFinishedAt, r.payload)
  }

  /** Writing back a job that was read leaves its row as it was. */
  lemma RowRoundTrip(id: string, r: Row)
    ensures ToRow(FromRow(id, r)) == r
  {
    if r.intervalSeconds.Some? {
      SecondsOfWholeSeconds(r.intervalSeconds.value);
    }
  }

  /** A write/read round trip keeps every field except the interval, which
      loses its sub-second part (truncated toward zero); a missing interval or
      one-shot time stays missing. */
  lemma JobRoundTrip(j: Job)
    ensures var back := FromRow(j.id, ToRow(j));
      && back.(interval := j.interval) == j
      && (back.interval.None? <==> j.interval.None?)
      && (j.interval.Some? ==>
            var d, d' := j.interval.value, back.interval.value;
            d' % Second == 0 &&
            (0 <= d ==> 0 <= d' <= d < d' + Second) &&
            (d < 0 ==> d' - Second < d <= d' <= 0))
  {
  }

  /** The round trip is the identity exactly for jobs without a sub-second part. */
  lemma JobRoundTripExact(j: Job)
    ensures FromRow(j.id, ToRow(j)) == j <==> (j.interval.None? || j.interval.value % Second == 0)
  {
    if j.interval.Some? {
      SecondsExact(j.interval.value);
    }
  }

  /** ON CONFLICT (id) DO UPDATE: only status, interval_seconds and
      last_finished_at are taken from the incoming row. */
  function Merge(existing: Row, incoming: Row): Row
  {
    existing.(status := incoming.status,
              intervalSeconds := incoming.intervalSeconds,
              lastFinishedAt := incoming.lastFinishedAt)
  }

  /** One execution of the upsert statement. */
  function UpsertRow(rows: map<string, Row>, j: Job): map<string, Row>
  {
    if j.id in rows then rows[j.id := Merge(rows[j.id], ToRow(j))]
    else rows[j.id := ToRow(j)]
  }

  /** An upsert inserts the job's row when its id is new; otherwise it keeps
      the stored kind, one-shot time and payload and takes the job's status,
      interval and finish time. No other row changes. */
  lemma UpsertRowEffect(rows: map<string, Row>, j: Job)
    ensures var r := UpsertRow(rows, j);
      && r.Keys == rows.Keys + {j.id}
      && (forall id :: id in rows && id != j.id ==> r[id] == rows[id])
      && (j.id !in rows ==> r[j.id] == ToRow(j))
      && (j.id in rows ==>
            && r[j.id].kind == rows[j.id].kind
            && r[j.id].onceTimestamp == rows[j.id].onceTimestamp
            && r[j.id].payload == rows[j.id].payload
            && r[j.id].status == j.status
            && r[j.id].intervalSeconds == IntervalColumn(j.interval)
            && r[j.id].lastFinishedAt == j.lastFinishedAt)
  {
  }

  /** Upserting the same job twice stores what upserting it once does. */
  lemma UpsertIdempotent(rows: map<string, Row>, j: Job)
    ensures UpsertRow(UpsertRow(rows, j), j) == UpsertRow(rows, j)
  {
    var once := UpsertRow(rows, j);
    var twice := UpsertRow(once, j);
    assert twice.Keys == once.Keys;
    assert twice[j.id] == once[j.id];
  }

  /** The upsert statement executed for each job in turn. */
  function ApplyUpserts(rows: map<string, Row>, js: seq<Job>): map<string, Row>
    decreases |js|
  {
    if js == [] then rows
    else UpsertRow(ApplyUpserts(rows, js[..|js| - 1]), js[|js| - 1])
  }

  /** A batch of upserts adds exactly the batch's ids and leaves every other
      stored row as it was. */
  lemma {:induction false} ApplyUpsertsFrame(rows: map<string, Row>, js: seq<Job>)
    ensures ApplyUpserts(rows, js).Keys == rows.Keys + Ids(js)
    ensures forall id :: id in rows && id !in Ids(js) ==> ApplyUpserts(rows, js)[id] == rows[id]
    decreases |js|
  {
    if js != [] {
      var init := js[..|js| - 1];
      ApplyUpsertsFrame(rows, init);
      IdsAppend(init, js[|js| - 1]);
      assert js == init + [js[|js| - 1]];
    }
  }

  lemma ApplyUpsertsStep(rows: map<string, Row>, js: seq<Job>, i: int)
    requires 0 <= i < |js|
    ensures ApplyUpserts(rows, js[..i + 1]) == UpsertRow(ApplyUpserts(rows, js[..i]), js[i])
  {
    assert js[..i + 1][..i] == js[..i];
  }

  /** How many upsert statements of a batch of `len` jobs run before the one
      that fails (all of them when none fails). */
  function Applied(len: nat, failAt: Option<nat>): (n: nat)
    ensures n <= len
    ensures n < len <==> failAt.Some? && failAt.value < len
  {
    if failAt.Some? && failAt.value < len then failAt.value else len
  }

  /** The jobs built from the rows of `ids`, in that order. */
  function JobsOf(rows: map<string, Row>, ids: seq<string>): (r: seq<Job>)
    requires forall id :: id in ids ==> id in rows
    ensures |r| == |ids|
    ensures forall k :: 0 <= k < |ids| ==> r[k] == FromRow(ids[k], rows[ids[k]])
    decreases |ids|
  {
    if ids == [] then []
    else JobsOf(rows, ids[..|ids| - 1]) + [FromRow(ids[|ids| - 1], rows[ids[|ids| - 1]])]
  }

  /** What the list query returns: every stored job, ordered by id. */
  ghost function Listing(rows: map<string, Row>): seq<Job>
  {
    JobsOf(rows, IdOrder.SortedIds(rows.Keys))
  }

  /** The listing holds exactly the stored jobs, each built from its row, in
      strictly ascending id order. */
  lemma ListingSpec(rows: map<string, Row>)
    ensures var r := Listing(rows);
      && (forall i, j :: 0 <= i < j < |r| ==> IdOrder.Less(r[i].id, r[j].id))
      && (forall id :: id in rows <==> id in Ids(r))
      && (forall k :: 0 <= k < |r| ==> r[k].id in rows && r[k] == FromRow(r[k].id, rows[r[k].id]))
  {
    var ids := IdOrder.SortedIds(rows.Keys);
    var r := JobsOf(rows, ids);
    assert forall k :: 0 <= k < |r| ==> r[k].id == ids[k];
    forall id | id in rows ensures id in Ids(r) {
      var k :| 0 <= k < |ids| && ids[k] == id;
      assert r[k].id == id;
    }
  }

  /** A listing never holds the same id twice. */
  lemma ListingDistinct(rows: map<string, Row>)
    ensures DistinctIds(Listing(rows))
  {
    var r := Listing(rows);
    ListingSpec(rows);
    forall a, b | 0 <= a < b < |r| ensures r[a].id != r[b].id {
      IdOrder.LessIrreflexive(r[a].id);
    }
  }

  /** The database's ORDER BY id over the stored ids. */
  method OrderById(keys: set<string>) returns (ids: seq<string>)
    ensures ids == IdOrder.SortedIds(keys)
  {
    ids := [];
    var rest := keys;
    while rest != {}
      invariant rest <= keys
      invariant IdOrder.StrictlySorted(ids)
      invariant forall y :: y in ids <==> y in keys && y !in rest
      decreases rest
    {
      var id :| id in rest;
      ids := IdOrder.Insert(ids, id);
      rest := rest - {id};
    }
    IdOrder.SortedUnique(ids, IdOrder.SortedIds(keys));
  }

  /** Builds one job per scanned row, in the order of `ids`. */
  method ScanRows(rows: map<string, Row>, ids: seq<string>) returns (jobs: seq<Job>)
    requires forall id :: id in ids ==> id in rows
    ensures jobs == JobsOf(rows, ids)
  {
    jobs := [];
    var i := 0;
    while i < |ids|
      invariant 0 <= i <= |ids|
      invariant jobs == JobsOf(rows, ids[..i])
    {
      assert ids[..i + 1][..i] == ids[..i];
      jobs := jobs + [FromRow(ids[i], rows[ids[i]])];
      i := i + 1;
    }
    assert ids[..i] == ids;
  }

  class JobsRepo {
    /** The jobs table. */
    var rows: map<string, Row>
    /** Every batch passed to Upsert, in call order. */
    ghost var batches: seq<seq<Job>>

    constructor ()
      ensures rows == map[] && batches == []
    {
      rows := map[];
      batches := [];
    }

    /** INSERT of a new row; a duplicate id violates the primary key. */
    method Create(job: Job, fails: bool) returns (err: Option<RepoError>)
      modifies this
      ensures batches == old(batches)
      ensures err.None? <==> !fails && job.id !in old(rows)
      ensures err.Some? ==> err.value == DbError && rows == old(rows)
      ensures err.None? ==> rows == old(rows)[job.id := ToRow(job)]
    {
      if fails || job.id in rows {
        return Some(DbError);
      }
      rows := rows[job.id := ToRow(job)];
      return None;
    }

    method Read(id: string, fails: bool) returns (r: Result<Job, RepoError>)
      ensures fails ==> r == Err(DbError)
      ensures !fails && id !in rows ==> r == Err(JobNotFound)
      ensures !fails && id in rows ==> r == Ok(FromRow(id, rows[id]))
    {
      if fails {
        return Err(DbError);
      }
      if id !in rows {
        return Err(JobNotFound);
      }
      return Ok(FromRow(id, rows[id]));
    }

    method List(fails: bool) returns (r: Result<seq<Job>, RepoError>)
      ensures fails ==> r == Err(DbError)
      ensures !fails ==> r == Ok(Listing(rows))
    {
      if fails {
        return Err(DbError);
      }
      var ids := OrderById(rows.Keys);
      var jobs := ScanRows(rows, ids);
      return Ok(jobs);
    }

    /** One upsert statement per job, in order, stopping at the first failure;
        the statements already executed stay applied. */
    method Upsert(jobs: seq<Job>, failAt: Option<nat>) returns (err: Option<RepoError>)
      modifies this
      ensures batches == old(batches) + [jobs]
      ensures err.None? <==> Applied(|jobs|, failAt) == |jobs|
      ensures err.Some? ==> err.value == DbError
      ensures rows == ApplyUpserts(old(rows), jobs[..Applied(|jobs|, failAt)])
    {
      batches := batches + [jobs];
      if |jobs| == 0 {
        return None;
      }
      ghost var start := rows;
      var i := 0;
      while i < |jobs|
        invariant 0 <= i <= |jobs|
        invariant failAt.Some? ==> i <= failAt.value
        invariant rows == ApplyUpserts(start, jobs[..i])
        invariant batches == old(batches) + [jobs]
      {
        if failAt == Some(i) {
          return Some(DbError);
        }
        var next := UpsertRow(rows, jobs[i]);
        assert next == ApplyUpserts(start, jobs[..i + 1]) by {
          ApplyUpsertsStep(start, jobs, i);
        }
        rows := next;
        i := i + 1;
      }
      assert jobs[..i] == jobs;
      return None;
    }

    /** DELETE by id; no affected row is ErrJobNotFound. */
    method Delete(id: string, fails: bool) returns (err: Option<RepoError>)
      modifies this
      ensures batches == old(batches)
      ensures fails ==> err == Some(DbError) && rows == old(rows)
      ensures !fails && id !in old(rows) ==> err == Some(JobNotFound) && rows == old(rows)
      ensures !fails && id in old(rows) ==> err == None && rows == old(rows) - {id}
    {
      if fails {
        return Some(DbError);
      }
      if id !in rows {
        return Some(JobNotFound);
      }
      rows := rows - {id};
      return None;
    }
  }
}
