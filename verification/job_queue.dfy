/**
  The per-repository job queue, as the queue test describes it: jobs are
  identified by their id, a job whose id is already queued or running is
  not added again, the job at the head runs while the others wait in
  arrival order, and the queue eventually drains. Threads and waiting are
  not modelled; the queue is a sequential state machine whose steps are
  appending a job and the running job finishing.
*/
module JobQueue {
  import opened Wrappers
  import opened CommandLineJob

  /** A job as the queue sees it: its id and its status. */
  datatype QueuedJob<Id> = QueuedJob(id: Id, status: JobStatus)

  /** The jobs queued or running, in arrival order, and the jobs that have
      left the queue, in the order they finished. */
  datatype Queue<Id> = Queue(entries: seq<QueuedJob<Id>>, completed: seq<QueuedJob<Id>>)

  predicate Terminal(s: JobStatus) {
    s.Done? || s.Failed? || s.Cancelled?
  }

  /** The queue's invariant: no two jobs share an id, the head is the one
      job running, every other job is queued. */
  predicate Valid<Id(==)>(q: Queue<Id>) {
    && (forall i, j :: 0 <= i < j < |q.entries| ==> q.entries[i].id != q.entries[j].id)
    && (q.entries != [] ==> q.entries[0].status == Running)
    && (forall i :: 0 < i < |q.entries| ==> q.entries[i].status == Queued)
  }

  /** The order of the life cycle; a job's status never moves back. */
  function Rank(s: JobStatus): nat {
    match s
    case Created => 0
    case Queued => 1
    case Running => 2
    case Done => 3
    case Failed => 3
    case Cancelled => 3
  }

  /** new JobQueue() */
  function Empty<Id(==)>(): (r: Queue<Id>)
    ensures Valid(r) && Size(r) == 0
  {
    Queue([], [])
  }

  /** getQueueSize: the number of jobs queued or running. */
  function Size<Id>(q: Queue<Id>): nat {
    |q.entries|
  }

  /** getQueuedJob(id): the queued or running job with that id. */
  function GetQueuedJob<Id(==)>(q: Queue<Id>, id: Id): (r: Option<QueuedJob<Id>>)
    ensures r.Some? ==> r.value in q.entries && r.value.id == id
    ensures r.None? ==> forall i :: 0 <= i < |q.entries| ==> q.entries[i].id != id
    decreases |q.entries|
  {
    if q.entries == [] then None
    else if q.entries[0].id == id then Some(q.entries[0])
    else
      var r := GetQueuedJob(Queue(q.entries[1..], q.completed), id);
      assert forall i :: 1 <= i < |q.entries| ==> q.entries[i] == q.entries[1..][i - 1];
      r
  }

  /** append(job): a job whose id is already queued or running is dropped
      and the existing job is returned; otherwise the job joins the end of
      the queue, and starts at once if the queue was empty. */
  function Append<Id(==)>(q: Queue<Id>, id: Id): (r: (Queue<Id>, QueuedJob<Id>))
    requires Valid(q)
    ensures Valid(r.0) && r.0.completed == q.completed
    ensures GetQueuedJob(q, id).Some? ==> r.0 == q && Some(r.1) == GetQueuedJob(q, id)
    ensures GetQueuedJob(q, id).None? ==>
              && Size(r.0) == Size(q) + 1
              && r.0.entries[..Size(q)] == q.entries
              && r.1 == r.0.entries[Size(q)] && r.1.id == id
              && r.1.status == (if Size(q) == 0 then Running else Queued)
    ensures GetQueuedJob(r.0, id) == Some(r.1)
  {
    match GetQueuedJob(q, id)
    case Some(existing) => (q, existing)
    case None =>
      var job := QueuedJob(id, if q.entries == [] then Running else Queued);
      var r := Queue(q.entries + [job], q.completed);
      assert r.entries[..Size(q)] == q.entries;
      GetQueuedJobLast(q, id, job);
      (r, job)
  }

  lemma {:induction false} GetQueuedJobLast<Id>(q: Queue<Id>, id: Id, job: QueuedJob<Id>)
    requires forall i :: 0 <= i < |q.entries| ==> q.entries[i].id != id
    requires job.id == id
    ensures GetQueuedJob(Queue(q.entries + [job], q.completed), id) == Some(job)
    decreases |q.entries|
  {
    var q' := Queue(q.entries + [job], q.completed);
    if q.entries != [] {
      assert q'.entries[0] == q.entries[0];
      assert q'.entries[1..] == q.entries[1..] + [job];
      GetQueuedJobLast(Queue(q.entries[1..], q.completed), id, job);
    }
  }

  /** The running job ends with the given terminal status: it leaves the
      queue, and the next job, if any, starts. The waiting jobs keep their
      order. */
  function Finish<Id(==)>(q: Queue<Id>, outcome: JobStatus): (r: Queue<Id>)
    requires Valid(q) && q.entries != [] && Terminal(outcome)
    ensures Valid(r)
    ensures Size(r) == Size(q) - 1
    ensures r.completed == q.completed + [QueuedJob(q.entries[0].id, outcome)]
    ensures forall i :: 0 <= i < Size(r) ==> r.entries[i].id == q.entries[i + 1].id
    ensures forall i :: 0 <= i < Size(r) ==> Rank(q.entries[i + 1].status) <= Rank(r.entries[i].status)
  {
    var rest := q.entries[1..];
    var next := if rest == [] then rest else rest[0 := rest[0].(status := Running)];
    assert forall i :: 0 <= i < |next| ==> next[i].id == q.entries[i + 1].id;
    Queue(next, q.completed + [QueuedJob(q.entries[0].id, outcome)])
  }

  /** waitForQueue: the jobs run one after the other until none is left;
      they finish in the order they were queued. */
  method Drain<Id(==)>(q: Queue<Id>) returns (r: Queue<Id>)
    requires Valid(q)
    ensures Valid(r) && Size(r) == 0
    ensures |r.completed| == |q.completed| + Size(q) && r.completed[..|q.completed|] == q.completed
    ensures forall i :: 0 <= i < Size(q) ==>
              r.completed[|q.completed| + i] == QueuedJob(q.entries[i].id, Done)
  {
    r := q;
    var n := 0;
    while r.entries != []
      invariant Valid(r)
      invariant DrainedUpTo(q, r, n)
      decreases Size(r)
    {
      var r' := Finish(r, Done);
      DrainStep(q, r, r', n);
      r := r';
      n := n + 1;
    }
  }

  /** `r` is what is left of `q` after its first `n` jobs finished: the
      remaining jobs are the later ones, in order, and the first `n` were
      completed as DONE in arrival order. */
  ghost predicate DrainedUpTo<Id>(q: Queue<Id>, r: Queue<Id>, n: nat) {
    && n <= Size(q) && Size(r) == Size(q) - n
    && |r.completed| == |q.completed| + n && r.completed[..|q.completed|] == q.completed
    && (forall i :: 0 <= i < n ==> r.completed[|q.completed| + i] == QueuedJob(q.entries[i].id, Done))
    && (forall j :: 0 <= j < Size(r) ==> r.entries[j].id == q.entries[n + j].id)
  }

  /** One finished job extends the completed jobs by the next one in
      arrival order. */
  lemma DrainStep<Id>(q: Queue<Id>, r: Queue<Id>, r': Queue<Id>, n: nat)
    requires Valid(r) && r.entries != [] && r' == Finish(r, Done)
    requires DrainedUpTo(q, r, n)
    ensures DrainedUpTo(q, r', n + 1)
  {
    var done := QueuedJob(r.entries[0].id, Done);
    assert r'.completed == r.completed + [done];
    assert r'.completed[..|q.completed|] == r.completed[..|q.completed|];
    forall i | 0 <= i < n + 1 ensures r'.completed[|q.completed| + i] == QueuedJob(q.entries[i].id, Done) {
      if i < n {
        assert r'.completed[|q.completed| + i] == r.completed[|q.completed| + i];
      } else {
        assert r'.completed[|q.completed| + i] == done;
      }
    }
    forall j | 0 <= j < Size(r') ensures r'.entries[j].id == q.entries[n + 1 + j].id {
      assert r'.entries[j].id == r.entries[j + 1].id;
    }
  }

  /** The queue test, step by step: an empty queue; two jobs with different
      ids make two entries; a third with the first one's id is dropped; the
      first runs while the second waits; once the first has finished, the
      second runs and a job with the first id is accepted again and waits;
      draining leaves nothing. */
  method QueueScenario() returns (q: Queue<int>)
    ensures Size(q) == 0
  {
    q := Empty();
    assert Size(q) == 0;
    var (q1, job1) := Append(q, 10);
    assert Size(q1) == 1;
    var (q2, job2) := Append(q1, 5);
    assert Size(q2) == 2;
    var (q3, again) := Append(q2, 10);
    assert Size(q3) == 2 && again == job1;
    assert GetQueuedJob(q3, 10) == Some(QueuedJob(10, Running));
    assert GetQueuedJob(q3, 5) == Some(QueuedJob(5, Queued));
    var q4 := Finish(q3, Done);
    assert q4.entries == [QueuedJob(5, Running)];
    var (q5, job3) := Append(q4, 10);
    assert job3 == QueuedJob(10, Queued);
    q := Drain(q5);
  }
}
