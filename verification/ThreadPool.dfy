/**
 The thread pool as a protocol: workers, a locked FIFO queue, a condition
 variable and a stop flag, interleaved step by step.  A step is one critical
 section, one notification, one wake-up or the end of one task; spurious
 wake-ups are steps too.
 */
module ThreadPool {
  import opened Prelude

  type Task = nat

  datatype Worker =
    | Ready                  // wants the lock, or holds it and is about to test the predicate
    | Blocked                // asleep on the condition variable
    | Running(task: Task)
    | Exited

  /** Tasks are numbered in the order in which Enqueue accepted them. */
  datatype Pool = Pool(
    workers: seq<Worker>,
    queue: seq<Task>,
    stop: bool,
    stopNotified: bool,      // the destructor has called notify_all
    notifying: nat,          // Enqueue calls between unlock and notify_one
    pending: int,
    accepted: nat,
    taken: seq<Task>,        // history of pops
    finished: seq<Task>)     // history of completed tasks

  datatype Step =
    | Enqueue
    | Refused                // Enqueue on a stopped pool throws
    | NotifyOne(woken: nat)  // wakes this blocked worker
    | NotifyNobody           // notify_one with nobody blocked
    | Enter(w: nat)          // lock, test the predicate, then pop, sleep or return
    | Spurious(w: nat)
    | Finish(w: nat)
    | Stop
    | NotifyAll

  function Start(n: nat): Pool {
    Pool(Repeat(Ready, n), [], false, false, 0, 0, 0, [], [])
  }

  predicate Is(s: Pool, w: nat, x: Worker) {
    w < |s.workers| && s.workers[w] == x
  }

  ghost predicate NobodyBlocked(s: Pool) {
    forall w :: 0 <= w < |s.workers| ==> s.workers[w] != Blocked
  }

  ghost predicate Enabled(s: Pool, step: Step) {
    match step
    case Enqueue => !s.stop
    case Refused => s.stop
    case NotifyOne(w) => s.notifying > 0 && Is(s, w, Blocked)
    case NotifyNobody => s.notifying > 0 && NobodyBlocked(s)
    case Enter(w) => Is(s, w, Ready)
    case Spurious(w) => Is(s, w, Blocked)
    case Finish(w) => w < |s.workers| && s.workers[w].Running?
    case Stop => !s.stop
    case NotifyAll => s.stop && !s.stopNotified
  }

  function Set(s: Pool, w: nat, x: Worker): Pool
    requires w < |s.workers|
  {
    s.(workers := s.workers[w := x])
  }

  function WakeAll(ws: seq<Worker>): (r: seq<Worker>)
    ensures |r| == |ws|
    ensures forall i :: 0 <= i < |ws| ==> r[i] == if ws[i] == Blocked then Ready else ws[i]
  {
    seq(|ws|, i requires 0 <= i < |ws| => if ws[i] == Blocked then Ready else ws[i])
  }

  function Apply(s: Pool, step: Step): Pool
    requires Enabled(s, step)
  {
    match step
    case Enqueue =>
      s.(queue := s.queue + [s.accepted], accepted := s.accepted + 1, pending := s.pending + 1, notifying := s.notifying + 1)
    case Refused => s
    case NotifyOne(w) => Set(s, w, Ready).(notifying := s.notifying - 1)
    case NotifyNobody => s.(notifying := s.notifying - 1)
    case Enter(w) =>
      if |s.queue| > 0 then
        Set(s, w, Running(s.queue[0])).(queue := s.queue[1..], taken := s.taken + [s.queue[0]])
      else if s.stop then Set(s, w, Exited)
      else Set(s, w, Blocked)
    case Spurious(w) => Set(s, w, Ready)
    case Finish(w) =>
      Set(s, w, Ready).(pending := s.pending - 1, finished := s.finished + [s.workers[w].task])
    case Stop => s.(stop := true)
    case NotifyAll => s.(stopNotified := true, workers := WakeAll(s.workers))
  }

  // ---------------------------------------------------------------- invariants

  function UpTo(n: nat): (r: seq<Task>)
    ensures |r| == n && forall i :: 0 <= i < n ==> r[i] == i
  {
    seq(n, i => i)
  }

  function TaskOf(x: Worker): multiset<Task> {
    if x.Running? then multiset{x.task} else multiset{}
  }

  function RunningTasks(ws: seq<Worker>): multiset<Task> {
    if |ws| == 0 then multiset{} else RunningTasks(ws[..|ws| - 1]) + TaskOf(ws[|ws| - 1])
  }

  ghost predicate SomeoneAwake(s: Pool) {
    exists w :: 0 <= w < |s.workers| && (s.workers[w].Ready? || s.workers[w].Running?)
  }

  ghost predicate SomeoneExited(s: Pool) {
    exists w :: 0 <= w < |s.workers| && s.workers[w].Exited?
  }

  /** Every accepted task is taken exactly once, in order; a taken task is running or has finished, exactly once. */
  ghost predicate Accounted(s: Pool) {
    && s.taken + s.queue == UpTo(s.accepted)
    && multiset(s.taken) == multiset(s.finished) + RunningTasks(s.workers)
    && s.pending == |s.queue| + |RunningTasks(s.workers)|
  }

  /** Nobody leaves before the queue is drained for good, and no wake-up is lost. */
  ghost predicate Attended(s: Pool) {
    && |s.workers| > 0
    && (SomeoneExited(s) ==> s.stop && |s.queue| == 0)
    && (|s.queue| > 0 ==> SomeoneAwake(s) || s.notifying > 0)
    && (s.stopNotified ==> s.stop && NobodyBlocked(s))
  }

  ghost predicate Inv(s: Pool) {
    Accounted(s) && Attended(s)
  }

  lemma {:induction false} RunningUpdate(ws: seq<Worker>, w: nat, x: Worker)
    requires w < |ws|
    ensures RunningTasks(ws[w := x]) + TaskOf(ws[w]) == RunningTasks(ws) + TaskOf(x)
    decreases |ws|
  {
    hide TaskOf;
    var n := |ws| - 1;
    if w < n {
      assert ws[w := x][..n] == ws[..n][w := x];
      RunningUpdate(ws[..n], w, x);
      Swap(RunningTasks(ws[..n][w := x]), TaskOf(ws[n]), TaskOf(ws[w]));
      Swap(RunningTasks(ws[..n]), TaskOf(ws[n]), TaskOf(x));
    } else {
      assert ws[w := x][..n] == ws[..n];
      Swap(RunningTasks(ws[..n]), TaskOf(x), TaskOf(ws[w]));
    }
  }

  lemma Swap(a: multiset<Task>, b: multiset<Task>, c: multiset<Task>)
    ensures a + b + c == a + c + b
  {
  }

  lemma TaskStarts(ws: seq<Worker>, w: nat, t: Task)
    requires w < |ws| && !ws[w].Running?
    ensures RunningTasks(ws[w := Running(t)]) == RunningTasks(ws) + multiset{t}
  {
    RunningUpdate(ws, w, Running(t));
    hide RunningTasks;
  }

  lemma TaskEnds(ws: seq<Worker>, w: nat, x: Worker)
    requires w < |ws| && ws[w].Running? && !x.Running?
    ensures RunningTasks(ws) == RunningTasks(ws[w := x]) + multiset{ws[w].task}
  {
    RunningUpdate(ws, w, x);
    hide RunningTasks;
  }

  lemma NoTaskMoves(ws: seq<Worker>, w: nat, x: Worker)
    requires w < |ws| && !ws[w].Running? && !x.Running?
    ensures RunningTasks(ws[w := x]) == RunningTasks(ws)
  {
    RunningUpdate(ws, w, x);
    assert RunningTasks(ws[w := x]) == RunningTasks(ws[w := x]) + TaskOf(ws[w]);
    assert RunningTasks(ws) == RunningTasks(ws) + TaskOf(x);
    hide RunningTasks;
  }

  lemma Accounts(taken: seq<Task>, finished: seq<Task>, run: multiset<Task>, more: multiset<Task>, t: Task)
    requires more == run + multiset{t}
    ensures |more| == |run| + 1
    ensures multiset(taken) == multiset(finished) + run ==> multiset(taken + [t]) == multiset(finished) + more
    ensures multiset(taken) == multiset(finished) + more ==> multiset(taken) == multiset(finished + [t]) + run
  {
  }

  lemma {:induction false} NoneRunning(ws: seq<Worker>)
    requires forall i :: 0 <= i < |ws| ==> !ws[i].Running?
    ensures RunningTasks(ws) == multiset{}
    decreases |ws|
  {
    if |ws| > 0 {
      NoneRunning(ws[..|ws| - 1]);
    }
  }

  lemma {:induction false} WakeAllRunning(ws: seq<Worker>)
    ensures RunningTasks(WakeAll(ws)) == RunningTasks(ws)
    decreases |ws|
  {
    if |ws| > 0 {
      assert WakeAll(ws)[..|ws| - 1] == WakeAll(ws[..|ws| - 1]);
      WakeAllRunning(ws[..|ws| - 1]);
    }
  }

  lemma StartInv(n: nat)
    requires n > 0
    ensures Inv(Start(n))
  {
    NoneRunning(Start(n).workers);
  }

  // ---------------------------------------------------------------- every step keeps the invariant

  lemma EnqueueKeeps(s: Pool)
    requires Inv(s) && Enabled(s, Enqueue)
    ensures Inv(Apply(s, Enqueue))
  {
    var t := Apply(s, Enqueue);
    assert t.taken + t.queue == (s.taken + s.queue) + [s.accepted];
    assert UpTo(t.accepted) == UpTo(s.accepted) + [s.accepted];
    assert t.workers == s.workers;
    assert SomeoneExited(t) ==> SomeoneExited(s);
  }

  /** Moving one worker between states that run no task. */
  lemma IdleMoveKeeps(s: Pool, t: Pool, w: nat, x: Worker)
    requires Inv(s) && w < |s.workers| && !s.workers[w].Running? && !x.Running?
    requires t == Set(s, w, x).(notifying := t.notifying)
    requires x == Exited ==> s.stop && |s.queue| == 0
    requires x == Blocked ==> |s.queue| == 0 && !s.stop
    ensures Inv(t)
  {
    hide RunningTasks;
    NoTaskMoves(s.workers, w, x);
    assert x == Ready ==> Is(t, w, Ready);
    assert SomeoneExited(t) ==> SomeoneExited(s) || x == Exited;
  }

  lemma TakeKeeps(s: Pool, w: nat)
    requires Inv(s) && Is(s, w, Ready) && |s.queue| > 0
    ensures Inv(Apply(s, Enter(w)))
  {
    hide RunningTasks, Accounted, Apply;
    TakeAccounted(s, w);
    BusyAttended(s, Apply(s, Enter(w)), w, Running(s.queue[0]));
  }

  lemma TakeAccounted(s: Pool, w: nat)
    requires Accounted(s) && Is(s, w, Ready) && |s.queue| > 0
    ensures Accounted(Apply(s, Enter(w)))
    ensures var t := Apply(s, Enter(w));
            t.workers == s.workers[w := Running(s.queue[0])] && t.stop == s.stop && t.stopNotified == s.stopNotified
            && |t.queue| <= |s.queue|
  {
    hide RunningTasks;
    var t := Apply(s, Enter(w));
    TaskStarts(s.workers, w, s.queue[0]);
    Accounts(s.taken, s.finished, RunningTasks(s.workers), RunningTasks(t.workers), s.queue[0]);
    assert t.taken + t.queue == s.taken + s.queue;
  }

  /** A worker that goes to or stays at work leaves the others attended. */
  lemma BusyAttended(s: Pool, t: Pool, w: nat, x: Worker)
    requires Attended(s) && w < |s.workers| && (x.Running? || x.Ready?)
    requires t.workers == s.workers[w := x] && t.stop == s.stop && t.stopNotified == s.stopNotified && |t.queue| <= |s.queue|
    ensures Attended(t)
  {
    assert t.workers[w] == x;
    assert SomeoneAwake(t);
    assert SomeoneExited(t) ==> SomeoneExited(s);
  }

  lemma FinishKeeps(s: Pool, w: nat)
    requires Inv(s) && Enabled(s, Finish(w))
    ensures Inv(Apply(s, Finish(w)))
  {
    hide RunningTasks, Accounted, Apply;
    FinishAccounted(s, w);
    BusyAttended(s, Apply(s, Finish(w)), w, Ready);
  }

  lemma FinishAccounted(s: Pool, w: nat)
    requires Accounted(s) && Enabled(s, Finish(w))
    ensures Accounted(Apply(s, Finish(w)))
    ensures var t := Apply(s, Finish(w));
            t.workers == s.workers[w := Ready] && t.stop == s.stop && t.stopNotified == s.stopNotified && t.queue == s.queue
  {
    hide RunningTasks;
    var t := Apply(s, Finish(w));
    TaskEnds(s.workers, w, Ready);
    Accounts(s.taken, s.finished, RunningTasks(t.workers), RunningTasks(s.workers), s.workers[w].task);
  }

  lemma NotifyAllKeeps(s: Pool)
    requires Inv(s) && Enabled(s, NotifyAll)
    ensures Inv(Apply(s, NotifyAll))
  {
    hide RunningTasks;
    var t := Apply(s, NotifyAll);
    WakeAllRunning(s.workers);
    assert SomeoneExited(t) ==> SomeoneExited(s);
    if w :| 0 <= w < |s.workers| && (s.workers[w].Ready? || s.workers[w].Running?) {
      assert t.workers[w].Ready? || t.workers[w].Running?;
    }
  }

  /** SAFETY: every step of every interleaving keeps the invariant. */
  lemma StepKeeps(s: Pool, step: Step)
    requires Inv(s) && Enabled(s, step)
    ensures Inv(Apply(s, step))
  {
    hide RunningTasks;
    match step {
      case Enqueue => EnqueueKeeps(s);
      case Refused =>
      case NotifyOne(w) => IdleMoveKeeps(s, Apply(s, step), w, Ready);
      case NotifyNobody => NotifyNobodyKeeps(s);
      case Enter(w) =>
        if |s.queue| > 0 {
          TakeKeeps(s, w);
        } else {
          IdleMoveKeeps(s, Apply(s, step), w, if s.stop then Exited else Blocked);
        }
      case Spurious(w) => IdleMoveKeeps(s, Apply(s, step), w, Ready);
      case Finish(w) => FinishKeeps(s, w);
      case Stop => StopKeeps(s);
      case NotifyAll => NotifyAllKeeps(s);
    }
  }

  lemma NotifyNobodyKeeps(s: Pool)
    requires Inv(s) && Enabled(s, NotifyNobody)
    ensures Inv(Apply(s, NotifyNobody))
  {
    hide RunningTasks;
    var t := Apply(s, NotifyNobody);
    assert s.workers[0] != Blocked;
    assert s.workers[0].Exited? ==> SomeoneExited(s);
    assert !s.workers[0].Exited? ==> SomeoneAwake(t);
    assert SomeoneExited(t) ==> SomeoneExited(s);
  }

  lemma StopKeeps(s: Pool)
    requires Inv(s) && Enabled(s, Stop)
    ensures Inv(Apply(s, Stop))
  {
    hide RunningTasks;
    var t := Apply(s, Stop);
    assert SomeoneExited(t) ==> SomeoneExited(s);
    assert SomeoneAwake(s) ==> SomeoneAwake(t);
  }

  // ---------------------------------------------------------------- runs

  ghost predicate Feasible(s: Pool, steps: seq<Step>)
    decreases |steps|
  {
    |steps| == 0 || (Enabled(s, steps[0]) && Feasible(Apply(s, steps[0]), steps[1..]))
  }

  function Run(s: Pool, steps: seq<Step>): Pool
    requires Feasible(s, steps)
    decreases |steps|
  {
    if |steps| == 0 then s else Run(Apply(s, steps[0]), steps[1..])
  }

  lemma {:induction false} RunKeeps(s: Pool, steps: seq<Step>)
    requires Inv(s) && Feasible(s, steps)
    ensures Inv(Run(s, steps))
    decreases |steps|
  {
    hide Inv, Apply, Enabled;
    if |steps| > 0 {
      StepKeeps(s, steps[0]);
      RunKeeps(Apply(s, steps[0]), steps[1..]);
    }
  }

  function Enqueued(steps: seq<Step>): nat {
    if |steps| == 0 then 0 else (if steps[0].Enqueue? then 1 else 0) + Enqueued(steps[1..])
  }

  function Finishes(steps: seq<Step>): nat {
    if |steps| == 0 then 0 else (if steps[0].Finish? then 1 else 0) + Finishes(steps[1..])
  }

  /** What the counters count: calls of Enqueue that did not throw, tasks that ended, and whether the pool was stopped. */
  lemma {:induction false} RunCounts(s: Pool, steps: seq<Step>)
    requires Feasible(s, steps)
    ensures var t := Run(s, steps);
            && t.accepted == s.accepted + Enqueued(steps) && |t.finished| == |s.finished| + Finishes(steps)
            && (t.stop <==> s.stop || Stop in steps)
            && (t.stopNotified <==> s.stopNotified || NotifyAll in steps)
    decreases |steps|
  {
    if |steps| > 0 {
      RunCounts(Apply(s, steps[0]), steps[1..]);
      assert steps == [steps[0]] + steps[1..];
    }
  }

  /**
   In every interleaving from a pool with at least one worker: tasks are taken
   once each in the order they were accepted, each is queued, running or done,
   and Pending() counts the queued and running ones.  Accepted are exactly the
   tasks of the Enqueue calls that did not throw.
   */
  lemma EveryRunIsFifo(n: nat, steps: seq<Step>)
    requires n > 0 && Feasible(Start(n), steps)
    ensures var s := Run(Start(n), steps);
            && s.taken + s.queue == UpTo(s.accepted)
            && multiset(s.taken) == multiset(s.finished) + RunningTasks(s.workers)
            && s.pending == |s.queue| + |RunningTasks(s.workers)|
            && (|s.queue| > 0 ==> SomeoneAwake(s) || s.notifying > 0)
            && s.accepted == Enqueued(steps) && |s.finished| == Finishes(steps) && (s.stop <==> Stop in steps)
  {
    RunCounts(Start(n), steps);
    StartInv(n);
    RunKeeps(Start(n), steps);
  }

  lemma ExitIsFinal(s: Pool, step: Step)
    requires Inv(s) && SomeoneExited(s) && Enabled(s, step)
    ensures SomeoneExited(Apply(s, step)) && |Apply(s, step).queue| == 0 && Apply(s, step).accepted == s.accepted
  {
    var w :| 0 <= w < |s.workers| && s.workers[w].Exited?;
    assert Apply(s, step).workers[w].Exited?;
    hide RunningTasks;
  }

  /** Once any worker has exited, the queue is empty for good and nothing more is accepted. */
  lemma {:induction false} ExitMeansDrained(s: Pool, steps: seq<Step>)
    requires Inv(s) && SomeoneExited(s) && Feasible(s, steps)
    ensures |Run(s, steps).queue| == 0 && Run(s, steps).accepted == s.accepted
    decreases |steps|
  {
    if |steps| > 0 {
      ExitIsFinal(s, steps[0]);
      StepKeeps(s, steps[0]);
      ExitMeansDrained(Apply(s, steps[0]), steps[1..]);
    }
    hide Apply, Enabled;
  }

  // ---------------------------------------------------------------- progress

  /** The steps that the pool itself makes, leaving out new work and spurious wake-ups. */
  predicate Productive(step: Step) {
    !step.Enqueue? && !step.Refused? && !step.Spurious? && !step.Stop?
  }

  function Weight(x: Worker): nat {
    match x case Ready => 2 case Blocked => 0 case Running(_) => 3 case Exited => 0
  }

  function Weights(ws: seq<Worker>): nat {
    if |ws| == 0 then 0 else Weights(ws[..|ws| - 1]) + Weight(ws[|ws| - 1])
  }

  /** A bound on the productive steps that are left. */
  function Work(s: Pool): nat {
    4 * |s.queue| + Weights(s.workers) + 3 * s.notifying + (if s.stopNotified then 0 else 2 * |s.workers| + 1)
  }

  lemma {:induction false} WeightsUpdate(ws: seq<Worker>, w: nat, x: Worker)
    requires w < |ws|
    ensures Weights(ws[w := x]) == Weights(ws) - Weight(ws[w]) + Weight(x)
    decreases |ws|
  {
    var n := |ws| - 1;
    if w < n {
      assert ws[w := x][..n] == ws[..n][w := x];
      WeightsUpdate(ws[..n], w, x);
    } else {
      assert ws[w := x][..n] == ws[..n];
    }
  }

  lemma {:induction false} WakeAllWeights(ws: seq<Worker>)
    ensures Weights(WakeAll(ws)) <= Weights(ws) + 2 * |ws|
    decreases |ws|
  {
    if |ws| > 0 {
      assert WakeAll(ws)[..|ws| - 1] == WakeAll(ws[..|ws| - 1]);
      WakeAllWeights(ws[..|ws| - 1]);
    }
  }

  lemma ProductiveStepsShrinkWork(s: Pool, step: Step)
    requires Enabled(s, step) && Productive(step)
    ensures Work(Apply(s, step)) < Work(s)
  {
    hide Weights;
    match step {
      case NotifyOne(w) => WeightsUpdate(s.workers, w, Ready);
      case NotifyNobody =>
      case Enter(w) =>
        WeightsUpdate(s.workers, w, if |s.queue| > 0 then Running(s.queue[0]) else if s.stop then Exited else Blocked);
      case Finish(w) => WeightsUpdate(s.workers, w, Ready);
      case NotifyAll => WakeAllWeights(s.workers);
    }
  }

  /** No run of productive steps is longer than Work: the pool cannot spin. */
  lemma {:induction false} ProductiveRunsAreBounded(s: Pool, steps: seq<Step>)
    requires Feasible(s, steps) && forall i :: 0 <= i < |steps| ==> Productive(steps[i])
    ensures |steps| <= Work(s)
    decreases |steps|
  {
    if |steps| > 0 {
      ProductiveStepsShrinkWork(s, steps[0]);
      ProductiveRunsAreBounded(Apply(s, steps[0]), steps[1..]);
    }
    hide Apply, Enabled, Work;
  }

  /** No productive step is possible. */
  ghost predicate Quiet(s: Pool) {
    forall step: Step :: Productive(step) ==> !Enabled(s, step)
  }

  /**
   NO LOST WAKE-UP: where the pool comes to rest, everything accepted has been
   run, and if it was stopped every worker has returned.  With the bound above:
   every run drains the queue once no more work arrives.
   */
  lemma QuietMeansDone(s: Pool)
    requires Inv(s) && Quiet(s)
    ensures |s.queue| == 0 && s.pending == 0
    ensures multiset(s.finished) == multiset(UpTo(s.accepted))
    ensures s.stop ==> forall w :: 0 <= w < |s.workers| ==> s.workers[w].Exited?
  {
    forall w: nat | w < |s.workers| ensures !s.workers[w].Ready? && !s.workers[w].Running? {
      assert !Enabled(s, Enter(w));
      assert !Enabled(s, Finish(w));
    }
    NoneRunning(s.workers);
    hide RunningTasks;
    assert s.notifying == 0 by {
      QuietNotifies(s);
    }
    assert !Enabled(s, NotifyAll);
    assert |s.queue| == 0;
    assert s.taken + s.queue == s.taken;
  }

  lemma QuietNotifies(s: Pool)
    requires Quiet(s)
    ensures s.notifying == 0
  {
    if NobodyBlocked(s) {
      assert !Enabled(s, NotifyNobody);
    } else {
      var w :| 0 <= w < |s.workers| && s.workers[w] == Blocked;
      assert !Enabled(s, NotifyOne(w));
    }
  }
}
