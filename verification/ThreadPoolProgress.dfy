/** What the pool guarantees on every run: a wait returns only when every job
    has finished, jobs run once and are pulled in order, nobody is ever stuck,
    and every wait comes to its end. */
module ThreadPoolProgress {
  import opened Common
  import opened JobQueues
  import opened ThreadPool

  // --------------------------------------------------------------- safety

  /** The producer has begun to wait and not returned. */
  predicate InWait(p: Producer) {
    p.ReadingLen? || p.ReadingWorking? || p.GoingToSleep? || p.Sleeping? || p.Notified?
  }

  /** A step, of whatever kind, on which a wait returns. */
  ghost predicate LeavesWait(s: State, step: Step)
    requires Enabled(s, step)
  {
    InWait(s.producer) && !InWait(Apply(s, step).producer)
  }

  /** All jobs ever added have finished, each exactly once. */
  ghost predicate AllFinished(s: State) {
    && s.queue == [] && s.pulled == UpTo(s.added)
    && forall j: JobId :: Times(s.finished, j) == if j < s.added then 1 else 0
  }

  lemma {:induction false} TimesUpTo(n: nat, j: JobId)
    ensures Times(UpTo(n), j) == if j < n then 1 else 0
  {
    if n > 0 {
      TimesUpTo(n - 1, j);
      assert UpTo(n) == UpTo(n - 1) + [n - 1];
    }
  }

  lemma NothingLeft(s: State)
    requires Inv(s) && s.queue == [] && s.working == 0
    ensures AllFinished(s)
  {
    forall j: JobId
      ensures Times(s.finished, j) == if j < s.added then 1 else 0
    {
      assert s.pulled == UpTo(s.added);
      TimesUpTo(s.added, j);
      IdleHoldsNothing(s.workers, j);
    }
  }

  lemma LeavingIsSafe(s: State, step: Step)
    requires Inv(s) && Enabled(s, step) && LeavesWait(s, step)
    ensures AllFinished(Apply(s, step)) && Apply(s, step).producer.Ready?
  {
    InvStep(s, step);
    NothingLeft(Apply(s, step));
  }

  /** However the threads are scheduled, on any step by which the waiter leaves
      its wait it is back in its own code, no job is queued or in a worker's
      hands, and every job ever added has finished. */
  lemma WaitIsSafe(s: State, step: Step)
    requires Reachable(s) && Enabled(s, step) && LeavesWait(s, step)
    ensures AllFinished(Apply(s, step)) && Apply(s, step).producer.Ready?
  {
    InvReachable(s);
    LeavingIsSafe(s, step);
  }

  /** Once all jobs have finished, only a push changes that. */
  lemma FinishedStays(s: State, step: Step)
    requires Inv(s) && AllFinished(s) && Enabled(s, step) && !step.Push?
    ensures AllFinished(Apply(s, step))
  {
    hide NoLostWork, NoLostWakeup, WaiterSound, MutualExclusion;
    if step.FinishJob? {
      var j := s.workers[step.w].job;
      TimesUpTo(s.added, j);
      SumAtLeast(s.workers, Holds(j), step.w);
      assert false;
    }
  }

  /** The whole call: on every run that begins with a call of the wait and goes
      on without further calls, whenever the caller is back, all jobs have
      finished. */
  lemma WaitCallIsSafe(s: State, steps: seq<Step>, s': State)
    requires Reachable(s) && Enabled(s, StartWait)
    requires IsRun(Apply(s, StartWait), steps, s') && NoNewCalls(steps)
    ensures s'.producer.Ready? ==> AllFinished(s')
  {
    InvReachable(s);
    InvStep(s, StartWait);
    WaitingRun(Apply(s, StartWait), steps, s');
  }

  lemma {:induction false} WaitingRun(s: State, steps: seq<Step>, s': State)
    requires Inv(s) && IsRun(s, steps, s') && NoNewCalls(steps)
    requires InWait(s.producer) || (s.producer.Ready? && AllFinished(s))
    ensures InWait(s'.producer) || (s'.producer.Ready? && AllFinished(s'))
    decreases |steps|
  {
    hide AllFinished, Inv;
    if steps != [] {
      WaitingStep(s, steps[0]);
      WaitingRun(Apply(s, steps[0]), steps[1..], s');
    }
  }

  lemma WaitingStep(s: State, step: Step)
    requires Inv(s) && Enabled(s, step) && !step.Push? && !step.StartWait?
    requires InWait(s.producer) || (s.producer.Ready? && AllFinished(s))
    ensures var s1 := Apply(s, step);
            Inv(s1) && (InWait(s1.producer) || (s1.producer.Ready? && AllFinished(s1)))
  {
    hide AllFinished, Inv;
    InvStep(s, step);
    if InWait(s.producer) {
      if LeavesWait(s, step) {
        LeavingIsSafe(s, step);
      }
    } else {
      FinishedStays(s, step);
    }
  }

  /** The producer is never shut out: between calls it can start a wait, and it
      can push a job at once, or as soon as the worker that holds the queue lock
      has posted the semaphore, which it can. */
  lemma ReadyMayCall(s: State) returns (post: Option<Step>)
    requires Reachable(s) && s.producer.Ready?
    ensures Enabled(s, StartWait)
    ensures match post
            case None => Enabled(s, Push)
            case Some(step) => Internal(step) && Enabled(s, step) && Enabled(Apply(s, step), Push)
  {
    InvReachable(s);
    if QueueLockFree(s) {
      post := None;
    } else {
      var w :| 0 <= w < |s.workers| && s.workers[w].Reposting?;
      var workers := s.workers[w := Running(s.workers[w].pulled)];
      var wake := SomeSignalTarget(s.workers);
      post := Some(RepostJobs(w, wake));
      assert workers[w].Running?;
    }
  }

  /** In every reachable state the jobs pulled are the first ones added, in the
      order of addition; no job has finished twice or without being pulled; and
      no two workers hold the same job. */
  lemma JobsRunOnceInOrder(s: State)
    requires Reachable(s)
    ensures s.pulled == UpTo(|s.pulled|) && |s.pulled| + |s.queue| == s.added
    ensures forall j: JobId :: Times(s.finished, j) + SumOver(s.workers, Holds(j)) == if j < |s.pulled| then 1 else 0
  {
    InvReachable(s);
    var n := |s.pulled|;
    assert |s.pulled + s.queue| == s.added;
    assert s.pulled == (s.pulled + s.queue)[..n] == UpTo(n);
    forall j: JobId
      ensures Times(s.finished, j) + SumOver(s.workers, Holds(j)) == if j < n then 1 else 0
    {
      TimesUpTo(n, j);
    }
  }

  // ------------------------------------------------------------- progress

  /** The steps of the workers and of a thread already inside a push or a wait,
      without wakeups nobody asked for. */
  predicate Internal(step: Step) {
    !step.Push? && !step.StartWait? && !step.SpuriousWorkerWakeup? && !step.SpuriousProducerWakeup?
  }

  ghost predicate Stuck(s: State) {
    forall step | Internal(step) :: !Enabled(s, step)
  }

  lemma SomeSignalTarget(workers: seq<Worker>) returns (wake: Option<nat>)
    ensures SignalTarget(workers, wake)
  {
    if i :| 0 <= i < |workers| && workers[i].Asleep? {
      wake := Some(i);
    } else {
      wake := None;
    }
  }

  /** A worker inside its counted section is never blocked for good. */
  lemma BusyWorkerProceeds(s: State) returns (step: Step)
    requires Inv(s) && s.working > 0 && !s.producer.Posting? && CounterLockFree(s)
    ensures Internal(step) && Enabled(s, step)
  {
    if r :| 0 <= r < |s.workers| && s.workers[r].Reposting? {
      var wake := SomeSignalTarget(s.workers);
      step := RepostJobs(r, wake);
    } else {
      var i := SumPositive(s.workers, Busy);
      step := match s.workers[i]
              case Counted => PullJob(i)
              case Running(_) => FinishJob(i)
              case _ => Uncount(i);
    }
  }

  /** With work in the queue and nobody counted, some worker comes for it. */
  lemma QueuedWorkAttracts(s: State) returns (step: Step)
    requires Inv(s) && s.working == 0 && s.queue != [] && |s.workers| > 0
    requires !s.producer.Posting? && CounterLockFree(s)
    ensures Internal(step) && Enabled(s, step)
  {
    forall i | 0 <= i < |s.workers|
      ensures Busy(s.workers[i]) == 0
    {
      SumAtLeast(s.workers, Busy, i);
    }
    if i :| 0 <= i < |s.workers| && s.workers[i].TokenTaken? {
      step := CountWorking(i);
    } else if i :| 0 <= i < |s.workers| && !s.workers[i].Asleep? {
      step := TestSemaphore(i);
    } else {
      assert false;
    }
  }

  /** The producer can always move inside an operation, unless it sleeps. */
  lemma ProducerProceeds(s: State) returns (step: Step)
    requires !s.producer.Ready? && !s.producer.Sleeping?
    ensures Internal(step) && Enabled(s, step)
  {
    match s.producer
    case Posting =>
      var wake := SomeSignalTarget(s.workers);
      step := PushPost(wake);
    case ReadingLen => step := ReadLen;
    case ReadingWorking => step := ReadWorking;
    case GoingToSleep => step := FallAsleep;
    case Notified => step := Relock;
  }

  /** No reachable state is stuck while the producer is inside a push or a
      wait, or while a job is queued or a worker is counted. */
  lemma NoDeadlock(s: State) returns (step: Step)
    requires Reachable(s) && |s.workers| > 0
    requires !s.producer.Ready? || s.queue != [] || s.working > 0
    ensures Internal(step) && Enabled(s, step)
  {
    InvReachable(s);
    step := InvNeverStuck(s);
  }

  lemma InvNeverStuck(s: State) returns (step: Step)
    requires Inv(s) && |s.workers| > 0
    requires !s.producer.Ready? || s.queue != [] || s.working > 0
    ensures Internal(step) && Enabled(s, step)
  {
    if !s.producer.Ready? && !s.producer.Sleeping? {
      step := ProducerProceeds(s);
    } else if s.working > 0 {
      step := BusyWorkerProceeds(s);
    } else {
      step := QueuedWorkAttracts(s);
    }
  }

  /** A worker is what a sleeping waiter needs, and all it needs: asleep, with
      its work not done, it is stuck for good exactly when the pool is empty. */
  lemma SleepingWaiterIsStuckIffNoWorkers(s: State)
    requires Reachable(s) && s.producer.Sleeping?
    ensures Stuck(s) <==> |s.workers| == 0
  {
    if |s.workers| > 0 {
      var step := NoDeadlock(s);
    }
  }

  /** A pool made with no threads does get stuck: a job is added, the wait sees
      it in the queue and goes to sleep, and nothing can happen any more. */
  lemma EmptyPoolGetsStuck() returns (s: State)
    ensures Reachable(s) && s.producer.Sleeping? && |s.workers| == 0 && Stuck(s)
  {
    var steps := [Push, PushPost(None), StartWait, ReadLen, FallAsleep];
    var s0 := Init(0);
    var s1 := Apply(s0, Push);
    var s2 := Apply(s1, PushPost(None));
    var s3 := Apply(s2, StartWait);
    var s4 := Apply(s3, ReadLen);
    s := Apply(s4, FallAsleep);
    assert IsRun(s, [], s);
    assert IsRun(s4, steps[4..], s) && IsRun(s3, steps[3..], s) && IsRun(s2, steps[2..], s);
    assert IsRun(s1, steps[1..], s) && IsRun(s0, steps, s);
    SleepingWaiterIsStuckIffNoWorkers(s);
  }

  // -------------------------------------------------------------- measure

  /** How far a worker still is from sleep or from its next token. */
  function WorkerWeight(w: Worker): nat {
    match w
    case Asleep => 0
    case AtSemaphore => 1
    case Woken => 1
    case Finishing => 6
    case Running(_) => 7
    case Counted => 7
    case TokenTaken => 8
    case Reposting(_) => 17
  }

  function ProducerWeight(p: Producer): nat {
    match p
    case Ready => 0
    case Sleeping => 0
    case GoingToSleep => 1
    case ReadingWorking => 2
    case ReadingLen => 3
    case Notified => 4
    case Posting => 10
  }

  function Measure(s: State): int {
    11 * |s.queue| + 8 * s.v + SumOver(s.workers, WorkerWeight) + ProducerWeight(s.producer)
  }

  lemma MeasureNonNegative(s: State)
    requires Inv(s)
    ensures Measure(s) >= 0
  {
  }

  lemma SignalWeight(workers: seq<Worker>, wake: Option<nat>)
    requires SignalTarget(workers, wake)
    ensures SumOver(Signal(workers, wake), WorkerWeight) <= SumOver(workers, WorkerWeight) + 1
  {
    if wake.Some? {
      SumUpdate(workers, WorkerWeight, wake.value, Woken);
    }
  }

  lemma PostDecreases(s: State, step: Step)
    requires Inv(s) && Enabled(s, step) && (step.PushPost? || step.RepostJobs?)
    ensures Measure(Apply(s, step)) < Measure(s)
  {
    if step.PushPost? {
      SignalWeight(s.workers, step.wake);
    } else {
      var x := Running(s.workers[step.w].pulled);
      SumUpdate(s.workers, WorkerWeight, step.w, x);
      SignalWeight(s.workers[step.w := x], step.wake);
    }
  }

  lemma WorkerStepDecreases(s: State, step: Step)
    requires Inv(s) && Enabled(s, step)
    requires step.TestSemaphore? || step.CountWorking? || step.PullJob? || step.FinishJob? || step.Uncount?
    ensures Measure(Apply(s, step)) < Measure(s)
  {
    hide Fifo, Conserved, MutualExclusion, NoLostWork, NoLostWakeup, WaiterSound, SumOver, CounterExact;
    SumUpdate(s.workers, WorkerWeight, step.w, Apply(s, step).workers[step.w]);
  }

  /** Every internal step brings the pool nearer to rest. */
  lemma MeasureDecreases(s: State, step: Step)
    requires Inv(s) && Enabled(s, step) && Internal(step)
    ensures 0 <= Measure(Apply(s, step)) < Measure(s)
  {
    match step
    case PushPost(_) => PostDecreases(s, step);
    case RepostJobs(_, _) => PostDecreases(s, step);
    case TestSemaphore(_) => WorkerStepDecreases(s, step);
    case CountWorking(_) => WorkerStepDecreases(s, step);
    case PullJob(_) => WorkerStepDecreases(s, step);
    case FinishJob(_) => WorkerStepDecreases(s, step);
    case Uncount(_) => WorkerStepDecreases(s, step);
    case _ =>
  }

  function SpuriousCount(steps: seq<Step>): nat {
    if steps == [] then 0
    else (if Internal(steps[0]) then 0 else 1) + SpuriousCount(steps[1..])
  }

  /** Neither a new push nor a new wait. */
  ghost predicate NoNewCalls(steps: seq<Step>) {
    forall i | 0 <= i < |steps| :: !steps[i].Push? && !steps[i].StartWait?
  }

  /** A wakeup nobody asked for undoes little. */
  lemma SpuriousCosts(s: State, step: Step)
    requires Enabled(s, step) && (step.SpuriousWorkerWakeup? || step.SpuriousProducerWakeup?)
    ensures Measure(Apply(s, step)) <= Measure(s) + 4
  {
    if step.SpuriousWorkerWakeup? {
      SumUpdate(s.workers, WorkerWeight, step.w, Woken);
    }
  }

  /** Without new calls a run is at most as long as the measure of the state it
      starts in, plus five steps for each spurious wakeup on the way. */
  lemma {:induction false} RunsAreBounded(s: State, steps: seq<Step>, s': State)
    requires Inv(s) && IsRun(s, steps, s') && NoNewCalls(steps)
    ensures |steps| + Measure(s') <= Measure(s) + 5 * SpuriousCount(steps)
    decreases |steps|
  {
    if steps != [] {
      var step, s1 := steps[0], Apply(s, steps[0]);
      InvStep(s, step);
      if Internal(step) {
        MeasureDecreases(s, step);
      } else {
        SpuriousCosts(s, step);
      }
      RunsAreBounded(s1, steps[1..], s');
    }
  }

  lemma {:induction false} RunKeepsWorkers(s: State, steps: seq<Step>, s': State)
    requires IsRun(s, steps, s')
    ensures |s'.workers| == |s.workers|
    decreases |steps|
  {
    if steps != [] {
      RunKeepsWorkers(Apply(s, steps[0]), steps[1..], s');
    }
  }

  lemma {:induction false} RunsCompose(s: State, steps: seq<Step>, s1: State, more: seq<Step>, s2: State)
    requires IsRun(s, steps, s1) && IsRun(s1, more, s2)
    ensures IsRun(s, steps + more, s2)
    decreases |steps|
  {
    if steps == [] {
      assert steps + more == more;
    } else {
      RunsCompose(Apply(s, steps[0]), steps[1..], s1, more, s2);
      assert (steps + more)[1..] == steps[1..] + more;
    }
  }

  lemma RunStaysReachable(s: State, steps: seq<Step>, s': State)
    requires Reachable(s) && IsRun(s, steps, s')
    ensures Reachable(s')
  {
    var n: nat, before :| IsRun(Init(n), before, s);
    RunsCompose(Init(n), before, s, steps, s');
  }

  /** Every wait (and every push) comes to its end: from a reachable state with
      at least one worker, a run without new calls has at most `Measure(s)` steps
      and five more for each spurious wakeup, and where it cannot be continued
      the producer has returned and all jobs have finished. */
  lemma EveryCallCompletes(s: State, steps: seq<Step>, s': State)
    requires Reachable(s) && |s.workers| > 0
    requires IsRun(s, steps, s') && NoNewCalls(steps)
    ensures |steps| <= Measure(s) + 5 * SpuriousCount(steps)
    ensures Stuck(s') ==> s'.producer.Ready? && AllFinished(s')
  {
    InvReachable(s);
    RunsAreBounded(s, steps, s');
    RunStaysReachable(s, steps, s');
    RunKeepsWorkers(s, steps, s');
    InvReachable(s');
    if Stuck(s') {
      if !s'.producer.Ready? || s'.queue != [] || s'.working > 0 {
        var step := NoDeadlock(s');
        assert false;
      }
      NothingLeft(s');
    }
  }
}
