/** The vote of a forest split over several tasks: each task adds the votes of
    its slice of the trees into its own row of a shared array, one read and one
    write at a time, and the rows are added up at the end. */
module Voting {
  import opened Common
  import opened ForestTree
  import opened Normalization

  /** The part of a leaf that votes. */
  datatype Ballot = Ballot(stats: seq<real>, total: int)

  /** A vote fits a row, and there is something to divide by. */
  predicate ValidBallot(b: Ballot) {
    |b.stats| <= FOREST_MAX_CLASSES && (b.stats != [] ==> b.total != 0)
  }

  /** The share of class `c` in a ballot. */
  function Vote(b: Ballot, c: nat): (share: real)
    requires ValidBallot(b)
    ensures c < |b.stats| ==> share * b.total as real == b.stats[c]
    ensures c >= |b.stats| ==> share == 0.0
  {
    if c < |b.stats| then b.stats[c] / b.total as real else 0.0
  }

  /** One classification: the ballots of the trees, in order, and the number of
      tasks they are shared out to. */
  datatype Poll = Poll(ballots: seq<Ballot>, threads: nat)

  predicate ValidPoll(p: Poll) {
    p.threads >= 1 && forall i | 0 <= i < |p.ballots| :: ValidBallot(p.ballots[i])
  }

  function Skip(p: Poll): nat
    requires p.threads >= 1
  {
    (|p.ballots| + 1) / p.threads
  }

  function Start(p: Poll, k: nat): nat
    requires p.threads >= 1
  {
    k * Skip(p)
  }

  function End(p: Poll, k: nat): (e: nat)
    requires p.threads >= 1
    ensures e <= |p.ballots|
  {
    if Start(p, k) + Skip(p) > |p.ballots| then |p.ballots| else Start(p, k) + Skip(p)
  }

  /** Where a task is: tree, class, and the value read but not written back. */
  datatype Task = Task(tree: nat, class_: nat, read: Option<real>)

  datatype Votes = Votes(res: seq<real>, tasks: seq<Task>)

  datatype TaskStep = Read(k: nat) | Write(k: nat) | NextTree(k: nat)

  function Slot(k: nat, c: nat): nat {
    k * FOREST_MAX_CLASSES + c
  }

  function Begin(p: Poll): Votes
    requires ValidPoll(p)
  {
    Votes(seq(p.threads * FOREST_MAX_CLASSES, _ => 0.0),
          seq(p.threads, k requires 0 <= k => Task(Start(p, k), 0, None)))
  }

  predicate WellFormed(p: Poll, v: Votes) {
    && ValidPoll(p) && |v.tasks| == p.threads && |v.res| == p.threads * FOREST_MAX_CLASSES
    && forall k | 0 <= k < p.threads ::
         v.tasks[k].tree < End(p, k) ==> v.tasks[k].class_ <= |p.ballots[v.tasks[k].tree].stats|
  }

  predicate Done(p: Poll, v: Votes, k: nat)
    requires WellFormed(p, v)
  {
    k < p.threads ==> v.tasks[k].tree >= End(p, k)
  }

  predicate CanStep(p: Poll, v: Votes, step: TaskStep)
    requires WellFormed(p, v)
  {
    && step.k < p.threads && !Done(p, v, step.k)
    && var task := v.tasks[step.k];
       var n := |p.ballots[task.tree].stats|;
       match step
       case Read(_) => task.class_ < n && task.read.None?
       case Write(_) => task.class_ < n && task.read.Some?
       case NextTree(_) => task.class_ == n
  }

  lemma SlotBound(k: nat, c: nat, threads: nat)
    requires k < threads && c < FOREST_MAX_CLASSES
    ensures Slot(k, c) < threads * FOREST_MAX_CLASSES
  {
  }

  function DoStep(p: Poll, v: Votes, step: TaskStep): Votes
    requires WellFormed(p, v) && CanStep(p, v, step)
  {
    var k := step.k;
    var task := v.tasks[k];
    match step
    case Read(_) =>
      SlotBound(k, task.class_, p.threads);
      v.(tasks := v.tasks[k := task.(read := Some(v.res[Slot(k, task.class_)]))])
    case Write(_) =>
      SlotBound(k, task.class_, p.threads);
      v.(res := v.res[Slot(k, task.class_) := task.read.value + Vote(p.ballots[task.tree], task.class_)],
         tasks := v.tasks[k := Task(task.tree, task.class_ + 1, None)])
    case NextTree(_) =>
      v.(tasks := v.tasks[k := Task(task.tree + 1, 0, None)])
  }

  /** The votes for class `c` of the trees from `lo` up to `hi`, added in order. */
  function VoteSum(p: Poll, lo: nat, hi: nat, c: nat): real
    requires ValidPoll(p) && hi <= |p.ballots|
  {
    if hi <= lo then 0.0 else VoteSum(p, lo, hi - 1, c) + Vote(p.ballots[hi - 1], c)
  }

  lemma {:induction false} VoteSumSplit(p: Poll, lo: nat, mid: nat, hi: nat, c: nat)
    requires ValidPoll(p) && lo <= mid <= hi <= |p.ballots|
    ensures VoteSum(p, lo, hi, c) == VoteSum(p, lo, mid, c) + VoteSum(p, mid, hi, c)
  {
    if mid < hi {
      VoteSumSplit(p, lo, mid, hi - 1, c);
    }
  }

  /** What task `k` has added to class `c` of its row so far. */
  function SoFar(p: Poll, k: nat, task: Task, c: nat): real
    requires ValidPoll(p)
  {
    if task.tree < End(p, k)
    then VoteSum(p, Start(p, k), task.tree, c) + if c < task.class_ then Vote(p.ballots[task.tree], c) else 0.0
    else VoteSum(p, Start(p, k), End(p, k), c)
  }

  ghost predicate RowCorrect(p: Poll, v: Votes, k: nat)
    requires WellFormed(p, v) && k < p.threads
  {
    forall c | 0 <= c < FOREST_MAX_CLASSES ::
      SlotBound(k, c, p.threads); v.res[Slot(k, c)] == SoFar(p, k, v.tasks[k], c)
  }

  /** A task between its read and its write holds what its slot still holds. */
  predicate ReadFresh(p: Poll, v: Votes, k: nat)
    requires WellFormed(p, v) && k < p.threads
  {
    var task := v.tasks[k];
    !Done(p, v, k) && task.read.Some? ==>
      && task.class_ < |p.ballots[task.tree].stats|
      && (SlotBound(k, task.class_, p.threads); task.read.value == v.res[Slot(k, task.class_)])
  }

  ghost predicate TaskCorrect(p: Poll, v: Votes, k: nat)
    requires WellFormed(p, v) && k < p.threads
  {
    && (v.tasks[k].tree >= Start(p, k))
    && RowCorrect(p, v, k)
    && ReadFresh(p, v, k)
  }

  ghost predicate VotesCorrect(p: Poll, v: Votes) {
    WellFormed(p, v) && forall k | 0 <= k < p.threads :: TaskCorrect(p, v, k)
  }

  lemma BeginCorrect(p: Poll)
    requires ValidPoll(p)
    ensures VotesCorrect(p, Begin(p))
  {
  }

  lemma SlotsDisjoint(k: nat, c: nat, k': nat, c': nat)
    requires c < FOREST_MAX_CLASSES && c' < FOREST_MAX_CLASSES
    ensures Slot(k, c) == Slot(k', c') <==> k == k' && c == c'
  {
  }

  /** Where a step leaves the slots it does not write. */
  lemma StepFrame(p: Poll, v: Votes, step: TaskStep, k: nat, c: nat)
    requires WellFormed(p, v) && CanStep(p, v, step) && k < p.threads && c < FOREST_MAX_CLASSES
    requires !(step.Write? && k == step.k && c == v.tasks[k].class_)
    ensures Slot(k, c) < |v.res| && |DoStep(p, v, step).res| == |v.res|
    ensures DoStep(p, v, step).res[Slot(k, c)] == v.res[Slot(k, c)]
  {
    SlotBound(k, c, p.threads);
    if step.Write? {
      SlotBound(step.k, v.tasks[step.k].class_, p.threads);
      SlotsDisjoint(k, c, step.k, v.tasks[step.k].class_);
    }
    hide Slot, Start, End, Vote;
  }

  lemma StepWellFormed(p: Poll, v: Votes, step: TaskStep)
    requires WellFormed(p, v) && CanStep(p, v, step)
    ensures WellFormed(p, DoStep(p, v, step))
  {
    var v', k := DoStep(p, v, step), step.k;
    if step.Write? {
      SlotBound(k, v.tasks[k].class_, p.threads);
    }
    hide Vote, Slot;
    assert forall i | 0 <= i < p.threads && i != k :: v'.tasks[i] == v.tasks[i];
  }

  /** The step of one task moves its own row to the next partial sum. */
  lemma OwnRow(p: Poll, v: Votes, step: TaskStep)
    requires VotesCorrect(p, v) && CanStep(p, v, step)
    ensures WellFormed(p, DoStep(p, v, step)) && TaskCorrect(p, DoStep(p, v, step), step.k)
  {
    StepWellFormed(p, v, step);
    var v', k := DoStep(p, v, step), step.k;
    assert TaskCorrect(p, v, k);
    forall c | 0 <= c < FOREST_MAX_CLASSES
      ensures Slot(k, c) < |v'.res| && v'.res[Slot(k, c)] == SoFar(p, k, v'.tasks[k], c)
    {
      OwnSlot(p, v, step, c);
    }
    OwnRead(p, v, step);
  }

  lemma OwnSlot(p: Poll, v: Votes, step: TaskStep, c: nat)
    requires WellFormed(p, v) && CanStep(p, v, step) && TaskCorrect(p, v, step.k) && c < FOREST_MAX_CLASSES
    ensures var v' := DoStep(p, v, step);
            Slot(step.k, c) < |v'.res| && v'.res[Slot(step.k, c)] == SoFar(p, step.k, v'.tasks[step.k], c)
  {
    var k := step.k;
    SlotBound(k, c, p.threads);
    assert v.res[Slot(k, c)] == SoFar(p, k, v.tasks[k], c);
    hide Slot, Start, End, Vote;
    if !(step.Write? && c == v.tasks[k].class_) {
      StepFrame(p, v, step, k, c);
    }
  }

  lemma OwnRead(p: Poll, v: Votes, step: TaskStep)
    requires WellFormed(p, v) && CanStep(p, v, step) && WellFormed(p, DoStep(p, v, step))
    ensures ReadFresh(p, DoStep(p, v, step), step.k)
  {
    hide Slot, Start, End, Vote;
  }

  /** It touches no other row. */
  lemma OtherRow(p: Poll, v: Votes, step: TaskStep, k: nat)
    requires VotesCorrect(p, v) && CanStep(p, v, step) && k < p.threads && k != step.k
    ensures WellFormed(p, DoStep(p, v, step)) && TaskCorrect(p, DoStep(p, v, step), k)
  {
    StepWellFormed(p, v, step);
    var v' := DoStep(p, v, step);
    assert TaskCorrect(p, v, k) && v'.tasks[k] == v.tasks[k];
    hide Slot, Start, End, Vote, DoStep;
    forall c | 0 <= c < FOREST_MAX_CLASSES
      ensures Slot(k, c) < |v'.res| && v'.res[Slot(k, c)] == v.res[Slot(k, c)]
    {
      StepFrame(p, v, step, k, c);
    }
  }

  lemma StepKeepsVotes(p: Poll, v: Votes, step: TaskStep)
    requires VotesCorrect(p, v) && CanStep(p, v, step)
    ensures VotesCorrect(p, DoStep(p, v, step))
  {
    OwnRow(p, v, step);
    forall k | 0 <= k < p.threads && k != step.k {
      OtherRow(p, v, step, k);
    }
  }

  // ---------------------------------------------------------- the totals

  ghost predicate AllDone(p: Poll, v: Votes) {
    WellFormed(p, v) && forall k | 0 <= k < p.threads :: Done(p, v, k)
  }

  /** The rows of the first `n` tasks added up for class `c`. */
  function RowTotal(p: Poll, v: Votes, n: nat, c: nat): real
    requires WellFormed(p, v) && n <= p.threads && c < FOREST_MAX_CLASSES
  {
    if n == 0 then 0.0
    else
      SlotBound(n - 1, c, p.threads);
      RowTotal(p, v, n - 1, c) + v.res[Slot(n - 1, c)]
  }

  function Least(a: nat, b: nat): nat {
    if a < b then a else b
  }

  /** The trees that some slice contains: a prefix of the forest. */
  function Covered(p: Poll): nat
    requires p.threads >= 1
  {
    Least(|p.ballots|, p.threads * Skip(p))
  }

  lemma DoneRow(p: Poll, v: Votes, k: nat, c: nat)
    requires VotesCorrect(p, v) && k < p.threads && Done(p, v, k) && c < FOREST_MAX_CLASSES
    ensures Slot(k, c) < |v.res| && v.res[Slot(k, c)] == VoteSum(p, Start(p, k), End(p, k), c)
  {
    SlotBound(k, c, p.threads);
    assert TaskCorrect(p, v, k);
  }

  /** The slices of the first `n` tasks follow one another without a gap. */
  lemma SlicesAreAdjacent(p: Poll, k: nat)
    requires p.threads >= 1
    ensures Start(p, k + 1) == Start(p, k) + Skip(p)
    ensures End(p, k) == Least(|p.ballots|, Start(p, k + 1))
  {
  }

  lemma {:induction false} RowsAddUp(p: Poll, v: Votes, n: nat, c: nat)
    requires VotesCorrect(p, v) && AllDone(p, v) && n <= p.threads && c < FOREST_MAX_CLASSES
    ensures RowTotal(p, v, n, c) == VoteSum(p, 0, Least(|p.ballots|, Start(p, n)), c)
  {
    if n > 0 {
      var k := n - 1;
      RowsAddUp(p, v, k, c);
      DoneRow(p, v, k, c);
      SlicesAreAdjacent(p, k);
      hide Start, Skip, Slot;
      if Start(p, k) <= |p.ballots| {
        VoteSumSplit(p, 0, Start(p, k), End(p, k), c);
      }
    }
  }

  ghost predicate IsTaskRun(p: Poll, v: Votes, steps: seq<TaskStep>, v': Votes)
    requires WellFormed(p, v)
    decreases |steps|
  {
    if steps == [] then v' == v
    else
      CanStep(p, v, steps[0]) && (StepWellFormed(p, v, steps[0]); IsTaskRun(p, DoStep(p, v, steps[0]), steps[1..], v'))
  }

  lemma {:induction false} RunKeepsVotes(p: Poll, v: Votes, steps: seq<TaskStep>, v': Votes)
    requires VotesCorrect(p, v) && IsTaskRun(p, v, steps, v')
    ensures VotesCorrect(p, v')
    decreases |steps|
  {
    if steps != [] {
      StepKeepsVotes(p, v, steps[0]);
      RunKeepsVotes(p, DoStep(p, v, steps[0]), steps[1..], v');
    }
  }

  /** However the reads and writes of the tasks are interleaved, once all are
      done the totals are the sequential sums over the covered trees. */
  lemma VoteIsScheduleIndependent(p: Poll, steps: seq<TaskStep>, v: Votes, c: nat)
    requires ValidPoll(p) && IsTaskRun(p, Begin(p), steps, v) && AllDone(p, v) && c < FOREST_MAX_CLASSES
    ensures RowTotal(p, v, p.threads, c) == VoteSum(p, 0, Covered(p), c)
  {
    BeginCorrect(p);
    RunKeepsVotes(p, Begin(p), steps, v);
    RowsAddUp(p, v, p.threads, c);
  }

  // --------------------------------------------------- one vote per tree

  /** The total is that of the counts, as the constructor of leaves adds it up. */
  predicate FullBallot(b: Ballot) {
    ValidBallot(b) && b.total != 0 && b.total as real == Sum(b.stats)
  }

  ghost predicate FullPoll(p: Poll) {
    ValidPoll(p) && forall i | 0 <= i < |p.ballots| :: FullBallot(p.ballots[i])
  }

  /** The votes of one ballot for the first `n` classes. */
  function VotesUpTo(b: Ballot, n: nat): real
    requires ValidBallot(b)
  {
    if n == 0 then 0.0 else VotesUpTo(b, n - 1) + Vote(b, n - 1)
  }

  lemma {:induction false} VotesScaled(b: Ballot, n: nat)
    requires ValidBallot(b) && b.total != 0
    ensures VotesUpTo(b, n) * b.total as real == Sum(if n < |b.stats| then b.stats[..n] else b.stats)
  {
    hide Vote, Sum;
    if n == 0 {
      assert b.stats[..0] == [] && (b.stats == [] ==> b.stats[..0] == b.stats);
      EmptySum();
    } else {
      VotesScaled(b, n - 1);
      Distributes(VotesUpTo(b, n - 1), Vote(b, n - 1), b.total as real);
      if n <= |b.stats| {
        SumStep(b.stats, n);
        assert n == |b.stats| ==> b.stats[..n] == b.stats;
      }
    }
  }

  lemma EmptySum()
    ensures Sum([]) == 0.0
  {
  }

  lemma SumStep(s: seq<real>, n: nat)
    requires 0 < n <= |s|
    ensures Sum(s[..n]) == Sum(s[..n - 1]) + s[n - 1]
  {
    assert s[..n][..n - 1] == s[..n - 1];
  }

  lemma Distributes(x: real, y: real, z: real)
    ensures (x + y) * z == x * z + y * z
  {
  }

  /** A ballot whose counts add up to its total casts one vote in all. */
  lemma BallotCastsOneVote(b: Ballot)
    requires FullBallot(b)
    ensures VotesUpTo(b, FOREST_MAX_CLASSES) == 1.0
  {
    hide VotesUpTo, Sum;
    VotesScaled(b, FOREST_MAX_CLASSES);
    var votes := VotesUpTo(b, FOREST_MAX_CLASSES);
    assert votes * b.total as real == Sum(b.stats);
    NonZero(b.total);
    OnlyOne(votes, b.total as real);
  }

  lemma NonZero(n: int)
    requires n != 0
    ensures n as real != 0.0
  {
  }

  lemma OnlyOne(x: real, y: real)
    requires x * y == y && y != 0.0
    ensures x == 1.0
  {
    assert x == x * y / y;
    assert y / y == 1.0;
  }

  /** The votes of the first `hi` trees for the first `n` classes. */
  function SumClasses(p: Poll, hi: nat, n: nat): real
    requires ValidPoll(p) && hi <= |p.ballots|
  {
    if n == 0 then 0.0 else SumClasses(p, hi, n - 1) + VoteSum(p, 0, hi, n - 1)
  }

  lemma {:induction false} OneMoreTree(p: Poll, hi: nat, n: nat)
    requires ValidPoll(p) && hi < |p.ballots|
    ensures SumClasses(p, hi + 1, n) == SumClasses(p, hi, n) + VotesUpTo(p.ballots[hi], n)
  {
    if n > 0 {
      OneMoreTree(p, hi, n - 1);
    }
  }

  lemma {:induction false} NoTrees(p: Poll, n: nat)
    requires ValidPoll(p)
    ensures SumClasses(p, 0, n) == 0.0
  {
    if n > 0 {
      NoTrees(p, n - 1);
    }
  }

  lemma {:induction false} TreesVoteOnce(p: Poll, hi: nat)
    requires FullPoll(p) && hi <= |p.ballots|
    ensures SumClasses(p, hi, FOREST_MAX_CLASSES) == hi as real
  {
    hide SumClasses, FullBallot;
    if hi == 0 {
      NoTrees(p, FOREST_MAX_CLASSES);
    } else {
      TreesVoteOnce(p, hi - 1);
      OneMoreTree(p, hi - 1, FOREST_MAX_CLASSES);
      BallotCastsOneVote(p.ballots[hi - 1]);
    }
  }

  /** The totals of the first `n` classes, added up. */
  function GrandTotal(p: Poll, v: Votes, n: nat): real
    requires WellFormed(p, v) && n <= FOREST_MAX_CLASSES
  {
    if n == 0 then 0.0 else GrandTotal(p, v, n - 1) + RowTotal(p, v, p.threads, n - 1)
  }

  lemma {:induction false} GrandTotalIsSum(p: Poll, v: Votes, n: nat)
    requires VotesCorrect(p, v) && AllDone(p, v) && n <= FOREST_MAX_CLASSES
    ensures GrandTotal(p, v, n) == SumClasses(p, Covered(p), n)
  {
    hide RowTotal, VoteSum, Covered;
    if n > 0 {
      GrandTotalIsSum(p, v, n - 1);
      RowsAddUp(p, v, p.threads, n - 1);
      assert Covered(p) == Least(|p.ballots|, Start(p, p.threads)) by {
        CoveredIs(p);
      }
    }
  }

  lemma CoveredIs(p: Poll)
    requires p.threads >= 1
    ensures Covered(p) == Least(|p.ballots|, Start(p, p.threads))
  {
  }

  /** No vote is lost or counted twice: when all tasks are done, the totals of
      all classes add up to the number of covered trees. */
  lemma EveryTreeVotesOnce(p: Poll, v: Votes)
    requires FullPoll(p) && VotesCorrect(p, v) && AllDone(p, v)
    ensures GrandTotal(p, v, FOREST_MAX_CLASSES) == Covered(p) as real
  {
    hide GrandTotal, SumClasses;
    GrandTotalIsSum(p, v, FOREST_MAX_CLASSES);
    TreesVoteOnce(p, Covered(p));
  }

  // -------------------------------------------------- what slices leave out

  /** The slices cover the whole forest exactly when one more than its size
      leaves remainder 0 or 1 over the number of tasks. */
  lemma CoversAllIff(p: Poll)
    requires p.threads >= 1
    ensures Covered(p) == |p.ballots| <==> (|p.ballots| + 1) % p.threads <= 1
  {
    var n, t := |p.ballots| + 1, p.threads;
    assert n == t * (n / t) + n % t;
  }

  /** With one task or two nothing is ever left out. */
  lemma OneOrTwoTasksCoverAll(p: Poll)
    requires 1 <= p.threads <= 2
    ensures Covered(p) == |p.ballots|
  {
    CoversAllIff(p);
  }

  /** A forest of `n` trees that all vote for class 0. */
  function Unanimous(n: nat, threads: nat): Poll {
    Poll(seq(n, _ => Ballot([1.0], 1)), threads)
  }

  lemma {:induction false} UnanimousSum(n: nat, threads: nat, hi: nat)
    requires threads >= 1 && hi <= n
    ensures ValidPoll(Unanimous(n, threads))
    ensures VoteSum(Unanimous(n, threads), 0, hi, 0) == hi as real
  {
    if hi > 0 {
      UnanimousSum(n, threads, hi - 1);
      assert Vote(Unanimous(n, threads).ballots[hi - 1], 0) == 1.0;
    }
  }

  /** The covered trees give the vote of the whole forest, for every forest of
      this size, exactly under the same condition. */
  lemma WholeForestVotesIff(n: nat, threads: nat)
    requires threads >= 1
    ensures (forall p, c: nat | ValidPoll(p) && |p.ballots| == n && p.threads == threads && c < FOREST_MAX_CLASSES ::
               VoteSum(p, 0, Covered(p), c) == VoteSum(p, 0, |p.ballots|, c))
            <==> (n + 1) % threads <= 1
  {
    if (n + 1) % threads <= 1 {
      forall p, c: nat | ValidPoll(p) && |p.ballots| == n && p.threads == threads && c < FOREST_MAX_CLASSES
        ensures VoteSum(p, 0, Covered(p), c) == VoteSum(p, 0, |p.ballots|, c)
      {
        CoversAllIff(p);
      }
    } else {
      var p := Unanimous(n, threads);
      CoversAllIff(p);
      UnanimousSum(n, threads, Covered(p));
      UnanimousSum(n, threads, n);
      assert VoteSum(p, 0, Covered(p), 0) != VoteSum(p, 0, |p.ballots|, 0);
    }
  }

  // ------------------------------------------------------------- progress

  /** The steps left in the trees from `lo` up to `hi`. */
  function TreesWork(p: Poll, lo: nat, hi: nat): nat
    requires hi <= |p.ballots|
    decreases hi - lo
  {
    if hi <= lo then 0 else 2 * |p.ballots[lo].stats| + 1 + TreesWork(p, lo + 1, hi)
  }

  function TaskWork(p: Poll, k: nat, task: Task): int
    requires p.threads >= 1
  {
    if task.tree >= End(p, k) then 0
    else TreesWork(p, task.tree, End(p, k)) - 2 * task.class_ - if task.read.Some? then 1 else 0
  }

  function WorkUpTo(p: Poll, v: Votes, n: nat): int
    requires p.threads >= 1 && n <= |v.tasks|
  {
    if n == 0 then 0 else WorkUpTo(p, v, n - 1) + TaskWork(p, n - 1, v.tasks[n - 1])
  }

  lemma {:induction false} WorkNonNegative(p: Poll, v: Votes, n: nat)
    requires VotesCorrect(p, v) && n <= p.threads
    ensures WorkUpTo(p, v, n) >= 0
  {
    if n > 0 {
      WorkNonNegative(p, v, n - 1);
      assert TaskCorrect(p, v, n - 1);
    }
  }

  lemma OwnWork(p: Poll, v: Votes, step: TaskStep)
    requires VotesCorrect(p, v) && CanStep(p, v, step)
    ensures TaskWork(p, step.k, DoStep(p, v, step).tasks[step.k]) == TaskWork(p, step.k, v.tasks[step.k]) - 1
  {
    var k, task := step.k, v.tasks[step.k];
    assert TaskCorrect(p, v, k);
    assert TreesWork(p, task.tree, End(p, k))
        == 2 * |p.ballots[task.tree].stats| + 1 + TreesWork(p, task.tree + 1, End(p, k));
  }

  /** Every step uses up one unit of work. */
  lemma {:induction false} StepsUseWork(p: Poll, v: Votes, step: TaskStep, n: nat)
    requires VotesCorrect(p, v) && CanStep(p, v, step) && n <= p.threads
    ensures WorkUpTo(p, DoStep(p, v, step), n) == WorkUpTo(p, v, n) - if step.k < n then 1 else 0
  {
    if n > 0 {
      StepsUseWork(p, v, step, n - 1);
      if step.k == n - 1 {
        OwnWork(p, v, step);
      } else {
        assert DoStep(p, v, step).tasks[n - 1] == v.tasks[n - 1];
      }
    }
  }

  /** A task that is not done can take a step. */
  lemma TaskProceeds(p: Poll, v: Votes, k: nat) returns (step: TaskStep)
    requires VotesCorrect(p, v) && k < p.threads && !Done(p, v, k)
    ensures step.k == k && CanStep(p, v, step)
  {
    var task := v.tasks[k];
    step := if task.class_ == |p.ballots[task.tree].stats| then NextTree(k)
            else if task.read.Some? then Write(k)
            else Read(k);
  }

  // -------------------------------------------------------- the final loop

  /** Adds the rows up into one total per class. */
  method AddRows(p: Poll, v: Votes) returns (results: array<real>)
    requires WellFormed(p, v)
    ensures results.Length == FOREST_MAX_CLASSES
    ensures forall c | 0 <= c < FOREST_MAX_CLASSES :: results[c] == RowTotal(p, v, p.threads, c)
  {
    results := new real[FOREST_MAX_CLASSES](_ => 0.0);
    var i := 0;
    while i < p.threads
      invariant i <= p.threads
      invariant forall c | 0 <= c < FOREST_MAX_CLASSES :: results[c] == RowTotal(p, v, i, c)
    {
      var j := 0;
      while j < FOREST_MAX_CLASSES
        invariant 0 <= j <= FOREST_MAX_CLASSES
        invariant forall c | 0 <= c < j :: results[c] == RowTotal(p, v, i + 1, c)
        invariant forall c | j <= c < FOREST_MAX_CLASSES :: results[c] == RowTotal(p, v, i, c)
      {
        SlotBound(i, j, p.threads);
        results[j] := results[j] + v.res[i * FOREST_MAX_CLASSES + j];
        j := j + 1;
      }
      i := i + 1;
    }
  }
}
