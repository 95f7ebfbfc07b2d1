/** The job queue of the thread pool: a singly linked list whose nodes point
    from the front towards the rear, with the binary semaphore it posts. */
module JobQueues {
  import opened Common

  /** The outcome of taking one job off a queue, on sequences: the job (none for
      an empty queue), what is left, and whether the semaphore is posted again. */
  datatype PullResult<J> = PullResult(job: Option<J>, rest: seq<J>, repost: bool)

  function PullFrom<J>(queue: seq<J>): PullResult<J> {
    if queue == [] then PullResult(None, [], false)
    else PullResult(Some(queue[0]), queue[1..], |queue| > 1)
  }

  /** The jobs a series of `n` pulls hands out. */
  function PullMany<J>(queue: seq<J>, n: nat): seq<J> {
    if n == 0 then []
    else
      var r := PullFrom(queue);
      (if r.job.Some? then [r.job.value] else []) + PullMany(r.rest, n - 1)
  }

  /** Pulls hand out the jobs in the order in which they were pushed, and
      nothing once the queue is empty. */
  lemma {:induction false} PullsAreFifo<J>(queue: seq<J>, n: nat)
    ensures PullMany(queue, n) == if n <= |queue| then queue[..n] else queue
  {
    if n > 0 {
      PullsAreFifo(PullFrom(queue).rest, n - 1);
      if queue != [] && n <= |queue| {
        assert queue[..n] == [queue[0]] + queue[1..][..n - 1];
      }
    }
  }

  /** The value field of the binary semaphore; blocking is modelled by the
      steps of the pool protocol. */
  class BinarySemaphore {
    var v: int

    constructor (value: int)
      requires 0 <= value <= 1
      ensures v == value
    {
      v := value;
    }

    method Reset()
      modifies this
      ensures v == 0
    {
      v := 0;
    }

    method Post()
      modifies this
      ensures v == 1
    {
      v := 1;
    }
  }

  class Job<J> {
    var prev: Job?<J>
    const work: J

    constructor (work: J)
      ensures this.work == work
    {
      this.work := work;
    }
  }

  class JobQueue<J> {
    var front: Job?<J>
    var rear: Job?<J>
    var len: int
    const hasJobs: BinarySemaphore
    ghost var chain: seq<Job<J>>  // the queued nodes, front first

    ghost predicate Valid()
      reads this, chain
    {
      && len == |chain|
      && (forall i, j | 0 <= i < j < |chain| :: chain[i] != chain[j])
      && (forall i | 0 <= i < |chain| - 1 :: chain[i].prev == chain[i + 1])
      && (chain == [] ==> front == null && rear == null)
      && (chain != [] ==> front == chain[0] && rear == chain[|chain| - 1] && chain[|chain| - 1].prev == null)
    }

    /** The queue as a sequence of pieces of work. */
    ghost function Contents(): (s: seq<J>)
      reads this
    {
      seq(|chain|, i requires 0 <= i < |chain| reads this => chain[i].work)
    }

    constructor ()
      ensures Valid() && fresh(hasJobs)
      ensures Contents() == [] && hasJobs.v == 0
    {
      front, rear, len, chain := null, null, 0, [];
      hasJobs := new BinarySemaphore(0);
    }

    /** Appends a job and posts the semaphore. The caller holds the queue lock. */
    method Push(job: Job<J>)
      requires Valid() && job !in chain
      modifies this, hasJobs, job, if rear == null then {} else {rear}
      ensures Valid()
      ensures chain == old(chain) + [job]
      ensures Contents() == old(Contents()) + [job.work]
      ensures hasJobs.v == 1
    {
      job.prev := null;
      if len == 0 {
        front := job;
        rear := job;
      } else {
        rear.prev := job;
        rear := job;
      }
      len := len + 1;
      chain := chain + [job];
      hasJobs.Post();
    }

    /** Takes the front job; posts the semaphore again when jobs remain. The
        caller holds the queue lock. */
    method Pull() returns (job: Job?<J>)
      requires Valid()
      modifies this, hasJobs
      ensures Valid()
      ensures (job == null) == (old(Contents()) == [])
      ensures job != null ==> old(chain) == [job] + chain
      ensures var r := PullFrom(old(Contents()));
              && Contents() == r.rest
              && (job != null ==> r.job == Some(job.work))
              && hasJobs.v == if r.repost then 1 else old(hasJobs.v)
    {
      job := front;
      if len == 0 {
      } else if len == 1 {
        front := null;
        rear := null;
        len := 0;
        chain := [];
      } else {
        front := job.prev;
        len := len - 1;
        chain := chain[1..];
        hasJobs.Post();
      }
    }

    /** Drops every job and resets the semaphore. */
    method Clear()
      requires Valid()
      modifies this, hasJobs
      ensures Valid()
      ensures Contents() == [] && front == null && rear == null
      ensures hasJobs.v == 0
    {
      while len != 0
        invariant Valid()
        decreases len
      {
        var dropped := Pull();
      }
      front := null;
      rear := null;
      hasJobs.Reset();
      len := 0;
    }
  }
}
