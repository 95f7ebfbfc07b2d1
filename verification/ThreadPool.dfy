/** The protocol of the thread pool: any number of workers, one thread that adds
    work and waits, a job queue, a binary semaphore, a counter of busy workers
    and a condition variable. A run is a sequence of steps; every order in which
    the threads can be scheduled is a run.

    A lock is held exactly while some thread's program counter is between the
    lock and the unlock, so its state is read off the program counters. */
module ThreadPool {
  import opened Common
  import opened JobQueues

  /** Jobs are named by their position in the order of addition. */
  type JobId = nat

  /** Where a worker is in its loop. */
  datatype Worker =
    | AtSemaphore              // about to lock and test the semaphore
    | Asleep                   // waiting on the semaphore's condition
    | Woken                    // woken, about to test the semaphore again
    | TokenTaken               // the semaphore was taken
    | Counted                  // counted as working, has not pulled yet
    | Reposting(pulled: JobId) // inside a pull that left jobs, before the post
    | Running(job: JobId)      // queue lock released, running the job
    | Finishing                // no job, or the job is done; still counted

  /** Where the thread that adds work and waits is. */
  datatype Producer =
    | Ready          // in neither operation
    | Posting        // inside a push, the job is linked, before the post
    | ReadingLen     // holds the counter lock, about to read the queue length
    | ReadingWorking // holds the counter lock, read length 0
    | GoingToSleep   // holds the counter lock, about to wait on the condition
    | Sleeping       // waiting for the idle signal, counter lock released
    | Notified       // signalled, about to take the counter lock again

  datatype State = State(
    queue: seq<JobId>,
    v: int,                 // the value of the binary semaphore
    working: int,           // the counter of working threads
    workers: seq<Worker>,
    producer: Producer,
    added: nat,             // history: how many jobs were ever added
    pulled: seq<JobId>,     // history: the jobs pulled, in order
    finished: seq<JobId>    // history: the jobs that have finished, in order
  )

  datatype Step =
    | Push
    | PushPost(wake: Option<nat>)
    | StartWait
    | ReadLen
    | ReadWorking
    | FallAsleep
    | Relock
    | TestSemaphore(w: nat)
    | CountWorking(w: nat)
    | PullJob(w: nat)
    | RepostJobs(w: nat, wake: Option<nat>)
    | FinishJob(w: nat)
    | Uncount(w: nat)
    | SpuriousWorkerWakeup(w: nat)
    | SpuriousProducerWakeup

  /** The state after the pool has started `n` workers. */
  function Init(n: nat): (s: State)
    ensures |s.workers| == n && s.producer.Ready? && s.queue == [] && s.added == 0
  {
    State([], 0, 0, seq(n, _ => AtSemaphore), Ready, 0, [], [])
  }

  ghost predicate QueueLockFree(s: State) {
    !s.producer.Posting? && forall i | 0 <= i < |s.workers| :: !s.workers[i].Reposting?
  }

  predicate CounterLockFree(s: State) {
    !s.producer.ReadingLen? && !s.producer.ReadingWorking? && !s.producer.GoingToSleep?
  }

  /** A signal wakes one sleeper; it is lost when there is none. */
  ghost predicate SignalTarget(workers: seq<Worker>, wake: Option<nat>) {
    match wake
    case Some(i) => i < |workers| && workers[i].Asleep?
    case None => forall i | 0 <= i < |workers| :: !workers[i].Asleep?
  }

  function Signal(workers: seq<Worker>, wake: Option<nat>): seq<Worker> {
    if wake.Some? && wake.value < |workers| then workers[wake.value := Woken] else workers
  }

  predicate WorkerAt(s: State, w: nat, at: Worker) {
    w < |s.workers| && s.workers[w] == at
  }

  ghost predicate Enabled(s: State, step: Step) {
    match step
    case Push => s.producer.Ready? && QueueLockFree(s)
    case PushPost(wake) => s.producer.Posting? && SignalTarget(s.workers, wake)
    case StartWait => s.producer.Ready?
    case ReadLen => s.producer.ReadingLen?
    case ReadWorking => s.producer.ReadingWorking?
    case FallAsleep => s.producer.GoingToSleep?
    case Relock => s.producer.Notified?
    case TestSemaphore(w) => WorkerAt(s, w, AtSemaphore) || WorkerAt(s, w, Woken)
    case CountWorking(w) => WorkerAt(s, w, TokenTaken) && CounterLockFree(s)
    case PullJob(w) => WorkerAt(s, w, Counted) && QueueLockFree(s)
    case RepostJobs(w, wake) => w < |s.workers| && s.workers[w].Reposting? && SignalTarget(s.workers, wake)
    case FinishJob(w) => w < |s.workers| && s.workers[w].Running?
    case Uncount(w) => WorkerAt(s, w, Finishing) && CounterLockFree(s)
    case SpuriousWorkerWakeup(w) => WorkerAt(s, w, Asleep)
    case SpuriousProducerWakeup => s.producer.Sleeping?
  }

  ghost function Apply(s: State, step: Step): State
    requires Enabled(s, step)
  {
    match step
    case Push =>
      s.(queue := s.queue + [s.added], added := s.added + 1, producer := Posting)
    case PushPost(wake) =>
      s.(v := 1, workers := Signal(s.workers, wake), producer := Ready)
    case StartWait =>
      s.(producer := ReadingLen)
    case ReadLen =>
      s.(producer := if |s.queue| != 0 then GoingToSleep else ReadingWorking)
    case ReadWorking =>
      s.(producer := if s.working != 0 then GoingToSleep else Ready)
    case FallAsleep =>
      s.(producer := Sleeping)
    case Relock =>
      s.(producer := ReadingLen)
    case TestSemaphore(w) =>
      if s.v == 1 then s.(v := 0, workers := s.workers[w := TokenTaken])
      else s.(workers := s.workers[w := Asleep])
    case CountWorking(w) =>
      s.(working := s.working + 1, workers := s.workers[w := Counted])
    case PullJob(w) =>
      var r := PullFrom(s.queue);
      if r.job.None? then s.(workers := s.workers[w := Finishing])
      else
        s.(queue := r.rest,
           pulled := s.pulled + [r.job.value],
           workers := s.workers[w := if r.repost then Reposting(r.job.value) else Running(r.job.value)])
    case RepostJobs(w, wake) =>
      s.(v := 1, workers := Signal(s.workers[w := Running(s.workers[w].pulled)], wake))
    case FinishJob(w) =>
      s.(finished := s.finished + [s.workers[w].job], workers := s.workers[w := Finishing])
    case Uncount(w) =>
      s.(working := s.working - 1,
         workers := s.workers[w := AtSemaphore],
         producer := if s.working == 1 && s.producer.Sleeping? then Notified else s.producer)
    case SpuriousWorkerWakeup(w) =>
      s.(workers := s.workers[w := Woken])
    case SpuriousProducerWakeup =>
      s.(producer := Notified)
  }

  ghost predicate IsRun(s: State, steps: seq<Step>, s': State)
    decreases |steps|
  {
    if steps == [] then s' == s
    else Enabled(s, steps[0]) && IsRun(Apply(s, steps[0]), steps[1..], s')
  }

  ghost predicate Reachable(s: State) {
    exists n: nat, steps :: IsRun(Init(n), steps, s)
  }

  // ---------------------------------------------------------------- sums

  function SumOver(workers: seq<Worker>, f: Worker -> nat): nat {
    if workers == [] then 0 else f(workers[0]) + SumOver(workers[1..], f)
  }

  lemma {:induction false} SumUpdate(workers: seq<Worker>, f: Worker -> nat, i: nat, x: Worker)
    requires i < |workers|
    ensures SumOver(workers[i := x], f) == SumOver(workers, f) - f(workers[i]) + f(x)
  {
    if i > 0 {
      SumUpdate(workers[1..], f, i - 1, x);
      assert workers[i := x][1..] == workers[1..][i - 1 := x];
    } else {
      assert workers[i := x][1..] == workers[1..];
    }
  }

  lemma {:induction false} SumAtLeast(workers: seq<Worker>, f: Worker -> nat, i: nat)
    requires i < |workers|
    ensures f(workers[i]) <= SumOver(workers, f)
  {
    if i > 0 {
      SumAtLeast(workers[1..], f, i - 1);
    }
  }

  lemma {:induction false} SumZero(workers: seq<Worker>, f: Worker -> nat)
    requires forall i | 0 <= i < |workers| :: f(workers[i]) == 0
    ensures SumOver(workers, f) == 0
  {
    if workers != [] {
      SumZero(workers[1..], f);
    }
  }

  lemma {:induction false} SumPositive(workers: seq<Worker>, f: Worker -> nat) returns (i: nat)
    requires SumOver(workers, f) > 0
    ensures i < |workers| && f(workers[i]) > 0
  {
    if f(workers[0]) > 0 {
      i := 0;
    } else {
      i := SumPositive(workers[1..], f);
      i := i + 1;
    }
  }

  /** 1 while a worker is between raising and lowering the counter. */
  function Busy(w: Worker): nat {
    match w
    case Counted | Reposting(_) | Running(_) | Finishing => 1
    case _ => 0
  }

  /** Counts the workers that have pulled job `j` and not finished it. */
  function Holds(j: JobId): Worker -> nat {
    w => if w == Reposting(j) || w == Running(j) then 1 else 0
  }

  function Times(log: seq<JobId>, j: JobId): nat {
    multiset(log)[j]
  }

  lemma TimesAppend(log: seq<JobId>, x: JobId, j: JobId)
    ensures Times(log + [x], j) == Times(log, j) + if x == j then 1 else 0
  {
  }

  lemma {:induction false} IdleHoldsNothing(workers: seq<Worker>, j: JobId)
    requires SumOver(workers, Busy) == 0
    ensures SumOver(workers, Holds(j)) == 0
  {
    if workers != [] {
      IdleHoldsNothing(workers[1..], j);
    }
  }

  // ----------------------------------------------------------- invariants

  function UpTo(n: nat): seq<JobId> {
    seq(n, i requires 0 <= i < n => i)
  }

  /** Jobs leave the queue in the order in which they were added. */
  ghost predicate Fifo(s: State) {
    s.pulled + s.queue == UpTo(s.added)
  }

  /** Every pulled job is in the hands of one worker or has finished, once. */
  ghost predicate Conserved(s: State) {
    forall j: JobId :: Times(s.pulled, j) == Times(s.finished, j) + SumOver(s.workers, Holds(j))
  }

  ghost predicate CounterExact(s: State) {
    s.working == SumOver(s.workers, Busy)
  }

  ghost predicate MutualExclusion(s: State) {
    && (forall i, j | 0 <= i < j < |s.workers| :: !(s.workers[i].Reposting? && s.workers[j].Reposting?))
    && (s.producer.Posting? ==> forall i | 0 <= i < |s.workers| :: !s.workers[i].Reposting?)
  }

  /** Outside the queue's critical sections a waiting job is announced by the
      semaphore or by a worker that took the token and has not pulled. */
  ghost predicate NoLostWork(s: State) {
    QueueLockFree(s) && s.queue != [] ==>
      s.v == 1 || exists i :: 0 <= i < |s.workers| && (s.workers[i].TokenTaken? || s.workers[i].Counted?)
  }

  /** A set semaphore leaves nobody asleep unless a woken worker is on its way. */
  ghost predicate NoLostWakeup(s: State) {
    s.v == 1 && (exists i :: 0 <= i < |s.workers| && s.workers[i].Asleep?) ==>
      exists i :: 0 <= i < |s.workers| && s.workers[i].Woken?
  }

  /** What the waiter knows after its unlocked read of the queue length, and
      why it is right to sleep. */
  ghost predicate WaiterSound(s: State) {
    && (s.producer.ReadingWorking? ==> s.queue == [])
    && (s.producer.GoingToSleep? || s.producer.Sleeping? ==> s.queue != [] || s.working > 0)
  }

  /** Order, conservation, counter and locks. */
  ghost predicate Accounts(s: State) {
    0 <= s.v <= 1 && Fifo(s) && Conserved(s) && CounterExact(s) && MutualExclusion(s)
  }

  ghost predicate Inv(s: State) {
    && Accounts(s)
    && NoLostWork(s)
    && NoLostWakeup(s)
    && WaiterSound(s)
  }

  lemma InvInit(n: nat)
    ensures Inv(Init(n))
  {
    SumZero(Init(n).workers, Busy);
    forall j: JobId {
      SumZero(Init(n).workers, Holds(j));
    }
  }

  lemma SignalFacts(workers: seq<Worker>, wake: Option<nat>)
    requires SignalTarget(workers, wake)
    ensures SumOver(Signal(workers, wake), Busy) == SumOver(workers, Busy)
    ensures forall j: JobId :: SumOver(Signal(workers, wake), Holds(j)) == SumOver(workers, Holds(j))
    ensures (exists i :: 0 <= i < |workers| && Signal(workers, wake)[i].Asleep?) ==>
              exists i :: 0 <= i < |workers| && Signal(workers, wake)[i].Woken?
  {
    if wake.Some? {
      SumUpdate(workers, Busy, wake.value, Woken);
      forall j: JobId {
        SumUpdate(workers, Holds(j), wake.value, Woken);
      }
      assert Signal(workers, wake)[wake.value].Woken?;
    }
  }

  /** What moving worker `w` to `x` does to the counts. */
  lemma MoveWorker(workers: seq<Worker>, w: nat, x: Worker)
    requires w < |workers|
    ensures SumOver(workers[w := x], Busy) == SumOver(workers, Busy) - Busy(workers[w]) + Busy(x)
    ensures forall j: JobId ::
              SumOver(workers[w := x], Holds(j)) == SumOver(workers, Holds(j)) - Holds(j)(workers[w]) + Holds(j)(x)
  {
    SumUpdate(workers, Busy, w, x);
    forall j: JobId {
      SumUpdate(workers, Holds(j), w, x);
    }
  }

  /** The locks stay exclusive when nobody enters a queue section. */
  lemma ExclusionKept(s: State, s': State)
    requires MutualExclusion(s) && |s'.workers| == |s.workers|
    requires forall i | 0 <= i < |s.workers| :: s'.workers[i].Reposting? ==> s.workers[i].Reposting?
    requires s'.producer.Posting? ==> s.producer.Posting?
    ensures MutualExclusion(s')
  {
  }

  /** The books of the queue are right when neither they nor anyone's hands change. */
  lemma BooksKept(s: State, s': State)
    requires Fifo(s) && Conserved(s)
    requires s'.queue == s.queue && s'.added == s.added && s'.pulled == s.pulled && s'.finished == s.finished
    requires forall j: JobId :: SumOver(s'.workers, Holds(j)) == SumOver(s.workers, Holds(j))
    ensures Fifo(s') && Conserved(s')
  {
  }

  lemma PullKeepsExclusion(s: State, w: nat)
    requires Accounts(s) && Enabled(s, PullJob(w))
    ensures MutualExclusion(Apply(s, PullJob(w)))
  {
    hide Fifo, Conserved, CounterExact, SumOver;
  }

  lemma PullKeepsBooks(s: State, w: nat)
    requires Accounts(s) && Enabled(s, PullJob(w)) && s.queue != []
    ensures Fifo(Apply(s, PullJob(w))) && Conserved(Apply(s, PullJob(w)))
  {
    hide MutualExclusion, CounterExact, SumOver, Times;
    var s' := Apply(s, PullJob(w));
    MoveWorker(s.workers, w, s'.workers[w]);
    assert s'.pulled + s'.queue == s.pulled + s.queue;
    forall j: JobId {
      TimesAppend(s.pulled, s.queue[0], j);
    }
  }

  lemma PullKeepsAccounts(s: State, w: nat)
    requires Accounts(s) && Enabled(s, PullJob(w))
    ensures Accounts(Apply(s, PullJob(w)))
  {
    hide MutualExclusion, Fifo, Conserved, SumOver;
    var s' := Apply(s, PullJob(w));
    MoveWorker(s.workers, w, s'.workers[w]);
    PullKeepsExclusion(s, w);
    if s.queue != [] {
      PullKeepsBooks(s, w);
    } else {
      BooksKept(s, s');
    }
  }

  lemma FinishKeepsAccounts(s: State, w: nat)
    requires Accounts(s) && Enabled(s, FinishJob(w))
    ensures Accounts(Apply(s, FinishJob(w)))
  {
    hide MutualExclusion, SumOver, Times;
    ExclusionKept(s, Apply(s, FinishJob(w)));
    MoveWorker(s.workers, w, Finishing);
    forall j: JobId {
      TimesAppend(s.finished, s.workers[w].job, j);
    }
  }

  lemma SignalKeepsAccounts(s: State, step: Step)
    requires Accounts(s) && Enabled(s, step) && (step.PushPost? || step.RepostJobs?)
    ensures Accounts(Apply(s, step))
  {
    hide MutualExclusion, Fifo, Conserved, SumOver;
    if step.PushPost? {
      SignalFacts(s.workers, step.wake);
    } else {
      var x := Running(s.workers[step.w].pulled);
      MoveWorker(s.workers, step.w, x);
      SignalFacts(s.workers[step.w := x], step.wake);
    }
    ExclusionKept(s, Apply(s, step));
    BooksKept(s, Apply(s, step));
  }

  lemma PushKeepsAccounts(s: State)
    requires Accounts(s) && Enabled(s, Push)
    ensures Accounts(Apply(s, Push))
  {
    var s' := Apply(s, Push);
    assert s'.pulled + s'.queue == (s.pulled + s.queue) + [s.added];
  }

  /** Testing the semaphore, waking up, and entering and leaving the counter. */
  lemma MoveKeepsAccounts(s: State, step: Step)
    requires Accounts(s) && Enabled(s, step)
    requires step.TestSemaphore? || step.SpuriousWorkerWakeup? || step.CountWorking? || step.Uncount?
    ensures Accounts(Apply(s, step))
  {
    hide MutualExclusion, Fifo, Conserved, SumOver;
    MoveWorker(s.workers, step.w, Apply(s, step).workers[step.w]);
    ExclusionKept(s, Apply(s, step));
    BooksKept(s, Apply(s, step));
  }

  lemma StepKeepsAccounts(s: State, step: Step)
    requires Accounts(s) && Enabled(s, step)
    ensures Accounts(Apply(s, step))
  {
    match step
    case Push => PushKeepsAccounts(s);
    case PushPost(_) => SignalKeepsAccounts(s, step);
    case RepostJobs(_, _) => SignalKeepsAccounts(s, step);
    case PullJob(w) => PullKeepsAccounts(s, w);
    case FinishJob(w) => FinishKeepsAccounts(s, w);
    case TestSemaphore(_) => MoveKeepsAccounts(s, step);
    case SpuriousWorkerWakeup(_) => MoveKeepsAccounts(s, step);
    case CountWorking(_) => MoveKeepsAccounts(s, step);
    case Uncount(_) => MoveKeepsAccounts(s, step);
    case _ =>
  }

  /** The announcement of waiting work survives every step. */
  lemma StepKeepsWorkAnnounced(s: State, step: Step)
    requires Inv(s) && Enabled(s, step)
    ensures NoLostWork(Apply(s, step))
  {
    var s' := Apply(s, step);
    if QueueLockFree(s') && s'.queue != [] && s'.v != 1 {
      forall i | 0 <= i < |s.workers|
        ensures !s.workers[i].Reposting?
      {
        assert s.workers[i] == s'.workers[i] || !s.workers[i].Reposting?;
      }
      if s.v == 1 {
        assert s'.workers[step.w].TokenTaken?;
      } else {
        var i :| 0 <= i < |s.workers| && (s.workers[i].TokenTaken? || s.workers[i].Counted?);
        assert s'.workers[i].TokenTaken? || s'.workers[i].Counted?;
      }
    }
  }

  lemma StepKeepsWakeup(s: State, step: Step)
    requires Inv(s) && Enabled(s, step)
    ensures NoLostWakeup(Apply(s, step))
  {
    var s' := Apply(s, step);
    if step.PushPost? {
      SignalFacts(s.workers, step.wake);
    } else if step.RepostJobs? {
      SignalFacts(s.workers[step.w := Running(s.workers[step.w].pulled)], step.wake);
    } else if s'.v == 1 && exists i :: 0 <= i < |s'.workers| && s'.workers[i].Asleep? {
      var i :| 0 <= i < |s'.workers| && s'.workers[i].Asleep?;
      assert s.workers[i].Asleep?;
      var j :| 0 <= j < |s.workers| && s.workers[j].Woken?;
      assert s'.workers[j].Woken?;
    }
  }

  lemma StepKeepsWaiterSound(s: State, step: Step)
    requires Inv(s) && Enabled(s, step)
    ensures WaiterSound(Apply(s, step))
  {
    if step.PullJob? {
      SumAtLeast(s.workers, Busy, step.w);
    }
  }

  lemma InvStep(s: State, step: Step)
    requires Inv(s) && Enabled(s, step)
    ensures Inv(Apply(s, step))
  {
    StepKeepsAccounts(s, step);
    StepKeepsWorkAnnounced(s, step);
    StepKeepsWakeup(s, step);
    StepKeepsWaiterSound(s, step);
  }

  lemma {:induction false} InvRun(s: State, steps: seq<Step>, s': State)
    requires Inv(s) && IsRun(s, steps, s')
    ensures Inv(s')
    decreases |steps|
  {
    if steps != [] {
      InvStep(s, steps[0]);
      InvRun(Apply(s, steps[0]), steps[1..], s');
    }
  }

  /** Every invariant holds in every state any schedule can reach. */
  lemma InvReachable(s: State)
    requires Reachable(s)
    ensures Inv(s)
  {
    var n: nat, steps :| IsRun(Init(n), steps, s);
    InvInit(n);
    InvRun(Init(n), steps, s);
  }
}
