/** Classification by the whole forest: the tasks of a vote run as jobs of the
    thread pool. The steps of the pool and of the tasks are interleaved freely,
    a task moving only while a worker runs its job. */
module ForestClassify {
  import opened Common
  import opened ForestTree
  import opened Normalization
  import opened Voting
  import opened ThreadPool
  import opened ThreadPoolProgress

  // ------------------------------------------------- ballots from a forest

  function BallotOf(leaf: Tree<real>): Ballot
    requires IsLeaf(leaf)
  {
    Ballot(leaf.info.stats, leaf.info.statsTotal)
  }

  /** Every leaf has a ballot that fits. */
  predicate LeavesVote(t: Tree<real>) {
    t.Node? ==> if t.info.Leaf? then ValidBallot(BallotOf(t)) else LeavesVote(t.left) && LeavesVote(t.right)
  }

  ghost predicate VotingForest(trees: seq<Tree<real>>) {
    forall i | 0 <= i < |trees| :: Check(trees[i]).Ok? && LeavesVote(trees[i])
  }

  lemma {:induction false} ClassifiedLeafVotes(num: Numerals, fv: FeatureVec, t: Tree<real>)
    requires ValidFeatureVec(fv) && Check(t).Ok? && LeavesVote(t)
    ensures IsLeaf(Classify(num, fv, t)) && ValidBallot(BallotOf(Classify(num, fv, t)))
  {
    if !t.info.Leaf? {
      ClassifiedLeafVotes(num, fv, t.left);
      ClassifiedLeafVotes(num, fv, t.right);
    }
  }

  /** The ballot a tree casts for a feature vector. */
  function CastBallot(num: Numerals, fv: FeatureVec, t: Tree<real>): (b: Ballot)
    requires ValidFeatureVec(fv) && Check(t).Ok? && LeavesVote(t)
    ensures ValidBallot(b)
  {
    ClassifiedLeafVotes(num, fv, t);
    BallotOf(Classify(num, fv, t))
  }

  /** The poll that a forest holds for one feature vector. */
  ghost predicate PollFor(num: Numerals, fv: FeatureVec, trees: seq<Tree<real>>, p: Poll)
    requires ValidFeatureVec(fv) && VotingForest(trees)
  {
    |p.ballots| == |trees| && forall i | 0 <= i < |trees| :: p.ballots[i] == CastBallot(num, fv, trees[i])
  }

  ghost function Row(res: array<real>, offset: nat): (row: seq<real>)
    requires offset + FOREST_MAX_CLASSES <= res.Length
    reads res
    ensures |row| == FOREST_MAX_CLASSES
  {
    res[offset..offset + FOREST_MAX_CLASSES]
  }

  /** Everything before and after the row at `offset` is as it was. */
  twostate predicate OnlyRowChanged(res: array<real>, offset: nat)
    requires offset + FOREST_MAX_CLASSES <= res.Length
    reads res
  {
    && res[..offset] == old(res[..offset])
    && res[offset + FOREST_MAX_CLASSES..] == old(res[offset + FOREST_MAX_CLASSES..])
  }

  /** Adds one leaf's votes to the row at `offset`. */
  method AddVotes(leaf: Tree<real>, res: array<real>, offset: nat)
    requires IsLeaf(leaf) && ValidBallot(BallotOf(leaf)) && offset + FOREST_MAX_CLASSES <= res.Length
    modifies res
    ensures forall c | 0 <= c < FOREST_MAX_CLASSES ::
              Row(res, offset)[c] == old(Row(res, offset))[c] + Vote(BallotOf(leaf), c)
    ensures OnlyRowChanged(res, offset)
  {
    var j := 0;
    while j < |leaf.info.stats|
      invariant j <= |leaf.info.stats|
      invariant forall c | 0 <= c < j :: Row(res, offset)[c] == old(Row(res, offset))[c] + Vote(BallotOf(leaf), c)
      invariant forall c | j <= c < FOREST_MAX_CLASSES :: Row(res, offset)[c] == old(Row(res, offset))[c]
      invariant OnlyRowChanged(res, offset)
    {
      ghost var before := Row(res, offset);
      assert res[offset + j] == before[j];
      res[offset + j] := res[offset + j] + leaf.info.stats[j] / leaf.info.statsTotal as real;
      assert Row(res, offset) == before[j := res[offset + j]];
      j := j + 1;
    }
  }

  /** One task run on its own: it adds the votes of its slice to its row and
      leaves the rest of the array alone. */
  method ClassifierTask(num: Numerals, fv: FeatureVec, trees: seq<Tree<real>>, res: array<real>,
                        tid: nat, skip: nat, ghost p: Poll)
    requires ValidFeatureVec(fv) && VotingForest(trees) && PollFor(num, fv, trees, p) && ValidPoll(p)
    requires tid < p.threads && skip == Skip(p) && res.Length == p.threads * FOREST_MAX_CLASSES
    modifies res
    ensures Slot(tid, 0) + FOREST_MAX_CLASSES <= res.Length && OnlyRowChanged(res, Slot(tid, 0))
    ensures forall c | 0 <= c < FOREST_MAX_CLASSES ::
              Row(res, Slot(tid, 0))[c] == old(Row(res, Slot(tid, 0)))[c] + VoteSum(p, Start(p, tid), End(p, tid), c)
  {
    var resOffset := tid * FOREST_MAX_CLASSES;
    var tStart := tid * skip;
    var tEnd := if tStart + skip > |trees| then |trees| else tStart + skip;
    SlotBound(tid, FOREST_MAX_CLASSES - 1, p.threads);
    assert tStart == Start(p, tid) && tEnd == End(p, tid) && resOffset == Slot(tid, 0);
    hide Start, End, Skip, Slot, Row, Vote;
    ghost var row0 := Row(res, resOffset);
    var i := tStart;
    while i < tEnd
      invariant tStart <= i && (i <= tEnd || i == tStart)
      invariant forall c | 0 <= c < FOREST_MAX_CLASSES ::
                  Row(res, resOffset)[c] == row0[c] + VoteSum(p, tStart, Least(i, tEnd), c)
      invariant OnlyRowChanged(res, resOffset)
    {
      var n := TreeClassify(num, fv, trees[i]);
      assert p.ballots[i] == CastBallot(num, fv, trees[i]) == BallotOf(n);
      AddVotes(n, res, resOffset);
      i := i + 1;
    }
  }

  // --------------------------------------------- the tasks as pool jobs

  /** A classification under way; its task k is the pool's job `base + k`. */
  datatype Joint = Joint(pool: State, votes: Votes)

  datatype Setup = Setup(poll: Poll, base: nat)

  function TaskJob(u: Setup, k: nat): JobId {
    u.base + k
  }

  predicate JobRunning(s: State, job: JobId) {
    exists w :: 0 <= w < |s.workers| && s.workers[w] == Running(job)
  }

  datatype JointStep = PoolStep(step: Step) | VoteStep(vote: TaskStep)

  /** The pool has been idle since it ran other jobs; now the vote begins. */
  ghost predicate Initial(u: Setup, s: Joint) {
    && ValidPoll(u.poll) && s.votes == Begin(u.poll)
    && Reachable(s.pool) && s.pool.added == u.base && s.pool.producer.Ready?
  }

  /** A job that is a task of this vote ends only when the task is done. */
  predicate JobMayEnd(u: Setup, s: Joint, job: JobId)
    requires WellFormed(u.poll, s.votes)
  {
    u.base <= job < u.base + u.poll.threads ==> Done(u.poll, s.votes, job - u.base)
  }

  ghost predicate JointEnabled(u: Setup, s: Joint, step: JointStep)
    requires WellFormed(u.poll, s.votes)
  {
    match step
    case PoolStep(st) =>
      && Enabled(s.pool, st)
      && (st.Push? ==> s.pool.added < u.base + u.poll.threads)
      && (st.StartWait? ==> s.pool.added == u.base + u.poll.threads)
      && (st.FinishJob? ==> JobMayEnd(u, s, s.pool.workers[st.w].job))
    case VoteStep(vt) =>
      CanStep(u.poll, s.votes, vt) && JobRunning(s.pool, TaskJob(u, vt.k))
  }

  ghost function JointApply(u: Setup, s: Joint, step: JointStep): Joint
    requires WellFormed(u.poll, s.votes) && JointEnabled(u, s, step)
  {
    match step
    case PoolStep(st) => s.(pool := Apply(s.pool, st))
    case VoteStep(vt) => s.(votes := DoStep(u.poll, s.votes, vt))
  }

  ghost predicate JointInv(u: Setup, s: Joint) {
    && Inv(s.pool) && VotesCorrect(u.poll, s.votes)
    && s.pool.added <= u.base + u.poll.threads
    && (s.pool.producer.Ready? || s.pool.producer.Posting? || s.pool.added == u.base + u.poll.threads)
    && forall k: nat | k < u.poll.threads :: Times(s.pool.finished, TaskJob(u, k)) > 0 ==> Done(u.poll, s.votes, k)
  }

  ghost predicate IsJointRun(u: Setup, s: Joint, steps: seq<JointStep>, s': Joint)
    requires WellFormed(u.poll, s.votes)
    decreases |steps|
  {
    if steps == [] then s' == s
    else
      && JointEnabled(u, s, steps[0])
      && (JointStepWellFormed(u, s, steps[0]); IsJointRun(u, JointApply(u, s, steps[0]), steps[1..], s'))
  }

  lemma JointStepWellFormed(u: Setup, s: Joint, step: JointStep)
    requires WellFormed(u.poll, s.votes) && JointEnabled(u, s, step)
    ensures WellFormed(u.poll, JointApply(u, s, step).votes)
  {
    if step.VoteStep? {
      StepWellFormed(u.poll, s.votes, step.vote);
    }
  }

  /** A job not yet added cannot have finished. */
  lemma FutureJobsUnfinished(s: State, job: JobId)
    requires Inv(s) && job >= s.added
    ensures Times(s.finished, job) == 0
  {
    TimesUpTo(s.added, job);
    assert multiset(s.pulled + s.queue) == multiset(s.pulled) + multiset(s.queue);
  }

  lemma JointInitial(u: Setup, s: Joint)
    requires Initial(u, s)
    ensures JointInv(u, s)
  {
    InvReachable(s.pool);
    BeginCorrect(u.poll);
    forall k: nat | k < u.poll.threads
      ensures Times(s.pool.finished, TaskJob(u, k)) == 0
    {
      FutureJobsUnfinished(s.pool, TaskJob(u, k));
    }
  }

  lemma VoteStepKeepsDone(p: Poll, v: Votes, step: TaskStep, k: nat)
    requires VotesCorrect(p, v) && CanStep(p, v, step) && k < p.threads && Done(p, v, k)
    ensures WellFormed(p, DoStep(p, v, step)) && Done(p, DoStep(p, v, step), k)
  {
    StepWellFormed(p, v, step);
  }

  lemma FinishedAfter(s: State, step: Step, job: JobId)
    requires Enabled(s, step)
    ensures Times(Apply(s, step).finished, job) > Times(s.finished, job) ==>
              step.FinishJob? && s.workers[step.w].job == job
  {
  }

  lemma PoolStepKeepsJoint(u: Setup, s: Joint, st: Step)
    requires JointInv(u, s) && JointEnabled(u, s, PoolStep(st))
    ensures JointInv(u, JointApply(u, s, PoolStep(st)))
  {
    hide Inv, VotesCorrect, Times;
    InvStep(s.pool, st);
    forall k: nat | k < u.poll.threads {
      FinishedAfter(s.pool, st, TaskJob(u, k));
    }
  }

  lemma VoteStepKeepsJoint(u: Setup, s: Joint, vt: TaskStep)
    requires JointInv(u, s) && JointEnabled(u, s, VoteStep(vt))
    ensures JointInv(u, JointApply(u, s, VoteStep(vt)))
  {
    hide Inv, Times;
    StepKeepsVotes(u.poll, s.votes, vt);
    forall k: nat | k < u.poll.threads && Done(u.poll, s.votes, k) {
      VoteStepKeepsDone(u.poll, s.votes, vt, k);
    }
  }

  lemma JointStepKeepsInv(u: Setup, s: Joint, step: JointStep)
    requires JointInv(u, s) && JointEnabled(u, s, step)
    ensures JointInv(u, JointApply(u, s, step))
  {
    hide JointInv, JointApply;
    match step
    case PoolStep(st) => PoolStepKeepsJoint(u, s, st);
    case VoteStep(vt) => VoteStepKeepsJoint(u, s, vt);
  }

  lemma {:induction false} JointRunKeepsInv(u: Setup, s: Joint, steps: seq<JointStep>, s': Joint)
    requires JointInv(u, s) && IsJointRun(u, s, steps, s')
    ensures JointInv(u, s')
    decreases |steps|
  {
    if steps != [] {
      JointStepKeepsInv(u, s, steps[0]);
      JointRunKeepsInv(u, JointApply(u, s, steps[0]), steps[1..], s');
    }
  }

  lemma FinishedJobsVoted(u: Setup, s: Joint)
    requires JointInv(u, s) && AllFinished(s.pool) && s.pool.added == u.base + u.poll.threads
    ensures AllDone(u.poll, s.votes)
  {
    forall k: nat | k < u.poll.threads
      ensures Done(u.poll, s.votes, k)
    {
      assert Times(s.pool.finished, TaskJob(u, k)) == 1;
    }
  }

  /** The totals stand as the sequential vote of the covered trees would. */
  ghost predicate TotalsAreRight(u: Setup, s: Joint)
    requires WellFormed(u.poll, s.votes)
  {
    AllDone(u.poll, s.votes) &&
    forall c: nat | c < FOREST_MAX_CLASSES ::
      RowTotal(u.poll, s.votes, u.poll.threads, c) == VoteSum(u.poll, 0, Covered(u.poll), c)
  }

  lemma DoneMeansRight(u: Setup, s: Joint)
    requires JointInv(u, s) && AllDone(u.poll, s.votes)
    ensures TotalsAreRight(u, s)
  {
    forall c: nat | c < FOREST_MAX_CLASSES {
      RowsAddUp(u.poll, s.votes, u.poll.threads, c);
    }
  }

  /** On every schedule of pool and tasks, on any step by which the waiter
      leaves its wait every vote is in and the totals are those of a sequential
      pass. */
  lemma ClassificationIsCorrect(u: Setup, s0: Joint, steps: seq<JointStep>, s: Joint, last: Step)
    requires Initial(u, s0) && IsJointRun(u, s0, steps, s)
    requires WellFormed(u.poll, s.votes) && JointEnabled(u, s, PoolStep(last)) && LeavesWait(s.pool, last)
    ensures var end := JointApply(u, s, PoolStep(last));
            AllFinished(end.pool) && WellFormed(u.poll, end.votes) && TotalsAreRight(u, end)
  {
    JointInitial(u, s0);
    JointRunKeepsInv(u, s0, steps, s);
    JointStepKeepsInv(u, s, PoolStep(last));
    LeavingIsSafe(s.pool, last);
    var end := JointApply(u, s, PoolStep(last));
    FinishedJobsVoted(u, end);
    DoneMeansRight(u, end);
  }

  /** What one thread would count for class `c`, walking the first `n` trees
      with the recursive classifier. */
  function SequentialVote(num: Numerals, fv: FeatureVec, trees: seq<Tree<real>>, n: nat, c: nat): real
    requires ValidFeatureVec(fv) && n <= |trees|
    requires forall i | 0 <= i < |trees| :: Check(trees[i]).Ok? && LeavesVote(trees[i])
  {
    if n == 0 then 0.0
    else SequentialVote(num, fv, trees, n - 1, c) + Vote(CastBallot(num, fv, trees[n - 1]), c)
  }

  lemma {:induction false} VoteSumIsSequential(num: Numerals, fv: FeatureVec, trees: seq<Tree<real>>, p: Poll,
                                               n: nat, c: nat)
    requires ValidFeatureVec(fv) && VotingForest(trees) && PollFor(num, fv, trees, p) && ValidPoll(p) && n <= |trees|
    ensures VoteSum(p, 0, n, c) == SequentialVote(num, fv, trees, n, c)
  {
    if n > 0 {
      VoteSumIsSequential(num, fv, trees, p, n - 1, c);
    }
  }

  /** The parallel vote of a forest, on every schedule: on any step by which
      the waiter leaves its wait, the total of each class is what one thread
      would count over the covered trees, and over all of them when the slices
      leave none out. */
  lemma ForestVoteIsSequential(num: Numerals, fv: FeatureVec, trees: seq<Tree<real>>,
                               u: Setup, s0: Joint, steps: seq<JointStep>, s: Joint, last: Step, c: nat)
    requires ValidFeatureVec(fv) && VotingForest(trees) && PollFor(num, fv, trees, u.poll)
    requires Initial(u, s0) && IsJointRun(u, s0, steps, s)
    requires WellFormed(u.poll, s.votes) && JointEnabled(u, s, PoolStep(last)) && LeavesWait(s.pool, last)
    requires c < FOREST_MAX_CLASSES
    ensures var total := RowTotal(u.poll, s.votes, u.poll.threads, c);
            && total == SequentialVote(num, fv, trees, Covered(u.poll), c)
            && ((|trees| + 1) % u.poll.threads <= 1 ==> total == SequentialVote(num, fv, trees, |trees|, c))
  {
    ClassificationIsCorrect(u, s0, steps, s, last);
    VoteSumIsSequential(num, fv, trees, u.poll, Covered(u.poll), c);
    CoversAllIff(u.poll);
  }

  /** A leaf as its constructor makes it: with the counts that were given for
      the classes, or one for the class predicted. Its total is theirs, so that
      it casts one vote in all unless the counts add up to nothing. */
  method NewLeaf(predVal: real, given: Option<seq<int>>) returns (info: Label<real>)
    requires given.None? ==> Truncate(predVal) >= 0
    ensures info.Leaf? && info.predVal == predVal && info.statsTotal as real == Sum(info.stats)
    ensures |info.stats| == if given.Some? then |given.value| else Truncate(predVal) + 1
    ensures forall i | 0 <= i < |info.stats| ::
              info.stats[i] == if given.Some? then given.value[i] as real
                               else if i == Truncate(predVal) then 1.0 else 0.0
  {
    var stats: seq<real> := [];
    var total := 0;
    if given.Some? {
      var len := 0;
      while len < |given.value|
        invariant len == |stats| <= |given.value| && total as real == Sum(stats)
        invariant forall i | 0 <= i < len :: stats[i] == given.value[i] as real
      {
        assert (stats + [given.value[len] as real])[..len] == stats;
        total := total + given.value[len];
        stats := stats + [given.value[len] as real];
        len := len + 1;
      }
    } else {
      var len := Truncate(predVal) + 1;
      stats := seq(len, _ => 0.0)[len - 1 := 1.0];
      total := 1;
      assert stats[..len - 1] == seq(len - 1, _ => 0.0);
      SumOfZeros(len - 1);
    }
    info := Leaf(predVal, stats, total);
  }

  lemma {:induction false} SumOfZeros(n: nat)
    ensures Sum(seq(n, _ => 0.0)) == 0.0
  {
    if n > 0 {
      assert seq(n, _ => 0.0)[..n - 1] == seq(n - 1, _ => 0.0);
      SumOfZeros(n - 1);
    }
  }

  /** Where the total of every leaf is that of its counts, the vote counts every
      covered tree once: on every schedule, when the waiter leaves its wait, the
      totals of all classes add up to the number of covered trees. */
  lemma EveryCoveredTreeVotesOnce(u: Setup, s0: Joint, steps: seq<JointStep>, s: Joint, last: Step)
    requires FullPoll(u.poll) && Initial(u, s0) && IsJointRun(u, s0, steps, s)
    requires WellFormed(u.poll, s.votes) && JointEnabled(u, s, PoolStep(last)) && LeavesWait(s.pool, last)
    ensures GrandTotal(u.poll, s.votes, FOREST_MAX_CLASSES) == Covered(u.poll) as real
  {
    hide GrandTotal;
    JointInitial(u, s0);
    JointRunKeepsInv(u, s0, steps, s);
    ClassificationIsCorrect(u, s0, steps, s, last);
    EveryTreeVotesOnce(u.poll, s.votes);
  }

  // ------------------------------------------------------------ progress

  predicate JointInternal(step: JointStep) {
    step.VoteStep? || Internal(step.step)
  }

  ghost predicate JointStuck(u: Setup, s: Joint)
    requires WellFormed(u.poll, s.votes)
  {
    forall step | JointInternal(step) :: !JointEnabled(u, s, step)
  }

  function JointMeasure(u: Setup, s: Joint): int
    requires WellFormed(u.poll, s.votes)
  {
    Measure(s.pool) + WorkUpTo(u.poll, s.votes, u.poll.threads)
  }

  /** Every internal step of pool or task uses up part of the measure. */
  lemma JointStepUsesMeasure(u: Setup, s: Joint, step: JointStep)
    requires JointInv(u, s) && JointEnabled(u, s, step) && JointInternal(step)
    ensures var s' := JointApply(u, s, step);
            && JointInv(u, s') && JointMeasure(u, s') < JointMeasure(u, s)
            && |s'.pool.workers| == |s.pool.workers| && s'.pool.added == s.pool.added
  {
    JointStepKeepsInv(u, s, step);
    if step.PoolStep? {
      MeasureDecreases(s.pool, step.step);
    } else {
      StepsUseWork(u.poll, s.votes, step.vote, u.poll.threads);
    }
  }

  predicate NewCall(step: JointStep) {
    step.PoolStep? && (step.step.Push? || step.step.StartWait?)
  }

  function JointSpuriousCount(steps: seq<JointStep>): nat {
    if steps == [] then 0
    else (if JointInternal(steps[0]) then 0 else 1) + JointSpuriousCount(steps[1..])
  }

  lemma SpuriousUsesMeasure(u: Setup, s: Joint, step: JointStep)
    requires JointInv(u, s) && JointEnabled(u, s, step) && !JointInternal(step) && !NewCall(step)
    ensures var s' := JointApply(u, s, step);
            && JointInv(u, s') && JointMeasure(u, s') <= JointMeasure(u, s) + 4
            && |s'.pool.workers| == |s.pool.workers| && s'.pool.added == s.pool.added
  {
    JointStepKeepsInv(u, s, step);
    SpuriousCosts(s.pool, step.step);
  }

  lemma {:induction false} JointRunsAreBounded(u: Setup, s: Joint, steps: seq<JointStep>, s': Joint)
    requires JointInv(u, s) && IsJointRun(u, s, steps, s')
    requires forall i | 0 <= i < |steps| :: !NewCall(steps[i])
    ensures JointInv(u, s') && |s'.pool.workers| == |s.pool.workers| && s'.pool.added == s.pool.added
    ensures |steps| + JointMeasure(u, s') <= JointMeasure(u, s) + 5 * JointSpuriousCount(steps)
    decreases |steps|
  {
    hide JointMeasure, JointEnabled, JointApply;
    if steps != [] {
      if JointInternal(steps[0]) {
        JointStepUsesMeasure(u, s, steps[0]);
      } else {
        SpuriousUsesMeasure(u, s, steps[0]);
      }
      JointRunsAreBounded(u, JointApply(u, s, steps[0]), steps[1..], s');
    }
  }

  /** While the wait lasts, or a job is left, something can move. */
  lemma JointProceeds(u: Setup, s: Joint) returns (step: JointStep)
    requires JointInv(u, s) && |s.pool.workers| > 0
    requires !s.pool.producer.Ready? || s.pool.queue != [] || s.pool.working > 0
    ensures JointInternal(step) && JointEnabled(u, s, step)
  {
    var st := InvNeverStuck(s.pool);
    step := PoolStep(st);
    if st.FinishJob? && !JobMayEnd(u, s, s.pool.workers[st.w].job) {
      var k := s.pool.workers[st.w].job - u.base;
      var vt := TaskProceeds(u.poll, s.votes, k);
      step := VoteStep(vt);
      assert s.pool.workers[st.w] == Running(TaskJob(u, vt.k));
    }
  }

  /** Once all tasks are handed over, every schedule is bounded, but for five
      steps per spurious wakeup, and where nothing can move any more the
      classification is complete and right. */
  lemma ClassificationCompletes(u: Setup, s: Joint, steps: seq<JointStep>, s': Joint)
    requires JointInv(u, s) && |s.pool.workers| > 0 && s.pool.added == u.base + u.poll.threads
    requires IsJointRun(u, s, steps, s') && forall i | 0 <= i < |steps| :: !NewCall(steps[i])
    ensures |steps| <= JointMeasure(u, s) + 5 * JointSpuriousCount(steps)
    ensures WellFormed(u.poll, s'.votes)
    ensures JointStuck(u, s') ==> s'.pool.producer.Ready? && TotalsAreRight(u, s')
  {
    JointRunsAreBounded(u, s, steps, s');
    MeasureNonNegative(s'.pool);
    WorkNonNegative(u.poll, s'.votes, u.poll.threads);
    if JointStuck(u, s') {
      if !s'.pool.producer.Ready? || s'.pool.queue != [] || s'.pool.working > 0 {
        var step := JointProceeds(u, s');
        assert false;
      }
      NothingLeft(s'.pool);
      FinishedJobsVoted(u, s');
      DoneMeansRight(u, s');
    }
  }
}
