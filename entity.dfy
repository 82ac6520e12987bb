/** The job record shared by the scheduler core and the jobs store, with the
    duration arithmetic the core performs on it. */
module Entity {

  datatype Option<T> = None | Some(value: T)

  datatype Result<T, E> = Ok(value: T) | Err(error: E)

  /** The job's payload: an opaque JSON document passed through unmodified. */
  type Payload = seq<char>

  /** A job kind. The store keeps it as an integer column, so any other code
      can come back from it; such a job is never due. */
  datatype Kind = IntervalKind | OnceKind | UnknownKind(code: int)

  /** Statuses are plain strings: the store returns whatever it holds and the
      list filter compares strings. */
  type Status = string

  const Queued: Status := "queued"
  const Running: Status := "running"
  const Completed: Status := "completed"
  const Failed: Status := "failed"

  /** A duration in nanoseconds, as Go's time.Duration. */
  type Duration = int

  const Millisecond: Duration := 1_000_000
  const Second: Duration := 1_000_000_000

  /** A job as the core sees it. `interval` is set for interval jobs and `once`
      (epoch milliseconds) for one-shot jobs; `lastFinishedAt` is epoch
      milliseconds, 0 meaning never finished. */
  datatype Job = Job(
    id: string,
    kind: Kind,
    status: Status,
    interval: Option<Duration>,
    once: Option<int>,
    lastFinishedAt: int,
    payload: Payload)

  /** The ids of a sequence of jobs. */
  function Ids(js: seq<Job>): set<string>
  {
    set k | 0 <= k < |js| :: js[k].id
  }

  lemma IdsAppend(js: seq<Job>, j: Job)
    ensures Ids(js + [j]) == Ids(js) + {j.id}
  {
    var r := Ids(js + [j]);
    forall id | id in r ensures id in Ids(js) + {j.id} {
      var k :| 0 <= k < |js + [j]| && (js + [j])[k].id == id;
      if k < |js| { assert js[k].id == id; }
    }
    forall id | id in Ids(js) ensures id in r {
      var k :| 0 <= k < |js| && js[k].id == id;
      assert (js + [j])[k].id == id;
    }
    assert (js + [j])[|js|].id == j.id;
  }

  /** No two jobs of the sequence share an id. */
  predicate DistinctIds(js: seq<Job>)
  {
    forall a, b :: 0 <= a < b < |js| ==> js[a].id != js[b].id
  }

  /** time.Duration.Milliseconds(): whole milliseconds, truncated toward zero
      (Go's `/` on int64 rounds toward zero, Dafny's is Euclidean). */
  function Milliseconds(d: Duration): (ms: int)
    ensures 0 <= d ==> 0 <= ms * Millisecond <= d < ms * Millisecond + Millisecond
    ensures d < 0 ==> ms * Millisecond - Millisecond < d <= ms * Millisecond <= 0
  {
    if d >= 0 then d / 1_000_000 else -((-d) / 1_000_000)
  }

  /** int64(d.Seconds()): whole seconds, truncated toward zero. */
  function Seconds(d: Duration): (s: int)
    ensures 0 <= d ==> 0 <= s * Second <= d < s * Second + Second
    ensures d < 0 ==> s * Second - Second < d <= s * Second <= 0
  {
    if d >= 0 then d / 1_000_000_000 else -((-d) / 1_000_000_000)
  }

  /** Truncating to seconds is exact exactly on whole seconds. */
  lemma SecondsExact(d: Duration)
    ensures Seconds(d) * Second == d <==> d % Second == 0
  {
  }

  /** A whole number of seconds truncates back to itself. */
  lemma SecondsOfWholeSeconds(s: int)
    ensures Seconds(s * Second) == s
  {
  }

  /** The seconds written for any int64 duration fit the range whose read-back
      `time.Duration(s) * time.Second` does not wrap around. */
  lemma SecondsInInt64Range(d: Duration)
    requires -0x8000_0000_0000_0000 <= d <= 0x7fff_ffff_ffff_ffff
    ensures -9_223_372_036 <= Seconds(d) <= 9_223_372_036
    ensures -0x8000_0000_0000_0000 <= Seconds(d) * Second <= 0x7fff_ffff_ffff_ffff
  {
  }

  /** Whole seconds are whole milliseconds: the scheduler sees exactly s * 1000 ms. */
  lemma MillisecondsOfWholeSeconds(s: int)
    ensures Milliseconds(s * Second) == s * 1000
  {
  }
}
