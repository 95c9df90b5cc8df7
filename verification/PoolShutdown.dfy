/** Shutting the worker pool down: after KillAll every run ends, with all earlier tasks finished. */
module PoolShutdown {
  import opened WorkerPool

  // A measure that every step of a shutdown decreases.

  function Rank(w: Phase): nat {
    match w
    case Killed => 0
    case Leaving => 1
    case Checking => 3
    case Locking => 4
    case Taken(_) => 6
    case _ => 5
  }

  function Work(workers: seq<Phase>): nat {
    if workers == [] then 0 else Rank(workers[0]) + Work(workers[1..])
  }

  function OwnerWork(o: Owner): nat {
    match o
    case KillPush(left) => 5 * left + 3
    case Unlocking => 1
    case _ => 0
  }

  function Measure(p: Pool): nat {
    4 * |p.queue| + Work(p.workers) + OwnerWork(p.owner)
  }

  lemma {:induction false} WorkMoves(ws: seq<Phase>, i: nat, w: Phase)
    requires i < |ws|
    ensures Work(ws[i := w]) == Work(ws) - Rank(ws[i]) + Rank(w)
  {
    if i == 0 {
      assert ws[i := w][1..] == ws[1..];
    } else {
      assert ws[i := w][1..] == ws[1..][i - 1 := w];
      WorkMoves(ws[1..], i - 1, w);
    }
  }

  lemma {:induction false} WakingHelps(ws: seq<Phase>, vs: seq<Phase>)
    requires |ws| == |vs|
    requires forall i | 0 <= i < |ws| :: vs[i] == ws[i] || (ws[i] == Sleeping && vs[i] == Locking)
    ensures Work(vs) <= Work(ws)
  {
    if ws != [] {
      WakingHelps(ws[1..], vs[1..]);
    }
  }

  lemma {:induction false} PastBound(ws: seq<Phase>, i: nat)
    ensures PastCount(ws) <= |ws|
    ensures i < |ws| && !Past(ws[i]) ==> PastCount(ws) < |ws|
  {
    if ws != [] {
      PastBound(ws[1..], if i == 0 then 0 else i - 1);
    }
  }

  lemma {:induction false} AllPastCounts(ws: seq<Phase>)
    requires forall i | 0 <= i < |ws| :: ws[i] == Killed
    ensures PastCount(ws) == |ws| && InHand(ws) == multiset{}
  {
    if ws != [] {
      AllPastCounts(ws[1..]);
    }
  }

  // The states of a shutdown.

  ghost predicate JobsFirst(queue: seq<Item>) {
    forall i, j | 0 <= i < j < |queue| :: queue[i].Exit? ==> queue[j].Exit?
  }

  lemma {:induction false} NoExits(queue: seq<Item>)
    requires Exits(queue) == 0
    ensures forall i | 0 <= i < |queue| :: queue[i].Job?
  {
    if queue != [] {
      NoExits(queue[1..]);
    }
  }

  lemma {:induction false} OnlyExits(queue: seq<Item>)
    requires forall i | 0 <= i < |queue| :: queue[i].Exit?
    ensures Jobs(queue) == []
  {
    if queue != [] {
      OnlyExits(queue[1..]);
    }
  }

  /** KillAll has been called, perhaps several times, after the last task was sent. */
  ghost predicate Closing(p: Pool) {
    && p.workers != []
    && !p.owner.SendPush? && p.owner != SendSignal
    && JobsFirst(p.queue)
    && (PastCount(p.workers) > 0 ==> Jobs(p.queue) == [])
    && (if p.owner.KillPush? then p.exitsSent + p.owner.left >= |p.workers| else p.exitsSent >= |p.workers|)
  }

  /** A step that no caller starts. */
  predicate Internal(a: Action) {
    !a.SendTask? && !a.KillAll?
  }

  /** What one more call of KillAll, such as the destructor's, adds to the work left. */
  function KillWork(workers: nat): nat {
    5 * workers + 4
  }

  lemma KillAllCloses(p: Pool)
    requires WorkerPool.Inv(p) && p.exitsSent == 0 && p.owner == Free && p.workers != []
    ensures Closing(Apply(p, KillAll))
  {
    NoExits(p.queue);
  }

  /** Once all exit tokens are out, there is one for each worker still in its loop. */
  lemma TokenForEach(p: Pool, i: nat)
    requires WorkerPool.Inv(p) && Closing(p) && !p.owner.KillPush? && i < |p.workers| && !Past(p.workers[i])
    ensures Exits(p.queue) > 0 && p.queue != []
  {
    PastBound(p.workers, i);
  }

  lemma MoveCloses(p: Pool, i: nat, w: Phase)
    requires Closing(p) && i < |p.workers| && Past(w) == Past(p.workers[i]) && Rank(w) < Rank(p.workers[i])
    ensures Closing(Move(p, i, w)) && Measure(Move(p, i, w)) < Measure(p)
  {
    MoveHands(p, i, w);
    WorkMoves(p.workers, i, w);
  }

  lemma CheckCloses(p: Pool, i: nat)
    requires WorkerPool.Inv(p) && Closing(p) && Enabled(p, Check(i))
    ensures Closing(Apply(p, Check(i))) && Measure(Apply(p, Check(i))) < Measure(p)
  {
    assert !p.owner.KillPush?;
    TokenForEach(p, i);
    PopCloses(p, i);
  }

  lemma PopCloses(p: Pool, i: nat)
    requires Closing(p) && Enabled(p, Check(i)) && p.queue != [] && !p.owner.KillPush?
    ensures Closing(Apply(p, Check(i))) && Measure(Apply(p, Check(i))) < Measure(p)
  {
    hide InHand, Holding, JobsFirst;
    var item := p.queue[0];
    MoveHands(p, i, Taken(item));
    WorkMoves(p.workers, i, Taken(item));
    RestJobsFirst(p.queue);
    if item.Exit? {
      OnlyExits(p.queue[1..]);
    }
  }

  lemma RestJobsFirst(queue: seq<Item>)
    requires JobsFirst(queue) && queue != []
    ensures JobsFirst(queue[1..])
    ensures queue[0].Exit? ==> forall i | 0 <= i < |queue[1..]| :: queue[1..][i].Exit?
  {
  }

  lemma UnlockCloses(p: Pool, i: nat)
    requires WorkerPool.Inv(p) && Closing(p) && Enabled(p, Unlock(i))
    ensures Closing(Apply(p, Unlock(i))) && Measure(Apply(p, Unlock(i))) < Measure(p)
  {
    hide Closing, Past, Unlocked, Measure, JobsFirst;
    assert p.owner == Worker(i);
    UnlockedSame(p.workers[i].item);
    UnlockedRank(p.workers[i].item);
    MoveCloses(p, i, Unlocked(p.workers[i].item));
    PassedOn(Move(p, i, Unlocked(p.workers[i].item)), Free, p.finished);
  }

  lemma UnlockedRank(item: Item)
    ensures Rank(Unlocked(item)) < Rank(Taken(item))
  {
  }

  /** The mutex passing between workers, and the log of finished tasks, do not matter for a shutdown. */
  lemma PassedOn(p: Pool, o: Owner, finished: multiset<TaskId>)
    requires Closing(p) && (p.owner == Free || p.owner.Worker? || p.owner == Unlocking)
    requires o == Free || o.Worker?
    ensures var q := p.(owner := o, finished := finished);
      Closing(q) && Measure(q) <= Measure(p) && (p.owner == Unlocking ==> Measure(q) < Measure(p))
  {
  }

  lemma LockCloses(p: Pool, i: nat)
    requires Closing(p) && Enabled(p, Lock(i))
    ensures Closing(Apply(p, Lock(i))) && Measure(Apply(p, Lock(i))) < Measure(p)
  {
    hide Closing, Measure;
    MoveCloses(p, i, Checking);
    PassedOn(Move(p, i, Checking), Worker(i), p.finished);
  }

  lemma FinishCloses(p: Pool, i: nat)
    requires Closing(p) && Enabled(p, Finish(i))
    ensures Closing(Apply(p, Finish(i))) && Measure(Apply(p, Finish(i))) < Measure(p)
  {
    MoveCloses(p, i, Locking);
  }

  lemma PushExitCloses(p: Pool)
    requires WorkerPool.Inv(p) && Closing(p) && Enabled(p, PushExit)
    ensures Closing(Apply(p, PushExit)) && Measure(Apply(p, PushExit)) < Measure(p)
  {
    hide WorkerPool.Inv, PastCount, Work;
    Enqueue(p.queue, Exit);
  }

  lemma BroadcastCloses(p: Pool)
    requires WorkerPool.Inv(p) && Closing(p) && Enabled(p, Broadcast)
    ensures Closing(Apply(p, Broadcast)) && Measure(Apply(p, Broadcast)) < Measure(p)
  {
    var vs := Wake(p.workers, Sleepers(p));
    SleepersHoldNothing(p.workers, vs);
    WakingHelps(p.workers, vs);
  }

  /**
   * Every step of a shutdown, spurious wake-ups included, lowers the measure, except that another KillAll adds its
   * own work.
   */
  lemma ShutdownStep(p: Pool, a: Action)
    requires WorkerPool.Inv(p) && Closing(p) && Enabled(p, a) && !a.SendTask?
    ensures Closing(Apply(p, a))
    ensures Measure(Apply(p, a)) < Measure(p) + (if a.KillAll? then KillWork(|p.workers|) else 0)
  {
    hide WorkerPool.Inv, Closing, Measure, KillWork;
    match a
    case Boot(i) => MoveCloses(p, i, Locking);
    case Lock(i) => LockCloses(p, i);
    case Check(i) => CheckCloses(p, i);
    case Unlock(i) => UnlockCloses(p, i);
    case Finish(i) => FinishCloses(p, i);
    case Leave(i) => MoveCloses(p, i, Killed);
    case Spurious(i) => MoveCloses(p, i, Locking);
    case KillAll => KilledAgain(p);
    case PushExit => PushExitCloses(p);
    case Broadcast => BroadcastCloses(p);
    case Release => PassedOn(p, Free, p.finished);
    case _ => NoSending(p);
  }

  lemma KilledAgain(p: Pool)
    requires Closing(p) && Enabled(p, KillAll)
    ensures Closing(Apply(p, KillAll)) && Measure(Apply(p, KillAll)) < Measure(p) + KillWork(|p.workers|)
  {
  }

  lemma NoSending(p: Pool)
    requires Closing(p)
    ensures !Enabled(p, Push) && !p.owner.SendPush? && p.owner != SendSignal
  {
  }

  ghost predicate AllKilled(p: Pool) {
    forall i | 0 <= i < |p.workers| :: p.workers[i] == Killed
  }

  /** Some step is possible other than a spurious wake-up or a new call. */
  ghost predicate CanStep(p: Pool) {
    exists a :: Enabled(p, a) && Internal(a) && !a.Spurious?
  }

  /** A shutdown never gets stuck before the end, even if no sleeper ever wakes by itself. */
  lemma NeverStuck(p: Pool)
    requires WorkerPool.Inv(p) && Closing(p)
    ensures CanStep(p) || (AllKilled(p) && p.owner == Free)
  {
    match p.owner
    case KillPush(left) => assert if left > 0 then Enabled(p, PushExit) else Enabled(p, Broadcast);
    case Unlocking => assert Enabled(p, Release);
    case Worker(i) => assert if p.workers[i] == Checking then Enabled(p, Check(i)) else Enabled(p, Unlock(i));
    case Free =>
      if !AllKilled(p) {
        var i: nat :| i < |p.workers| && p.workers[i] != Killed;
        FreeStep(p, i);
      }
  }

  lemma FreeStep(p: Pool, i: nat)
    requires WorkerPool.Inv(p) && Closing(p) && p.owner == Free && i < |p.workers| && p.workers[i] != Killed
    ensures CanStep(p)
  {
    if !Past(p.workers[i]) {
      TokenForEach(p, i);
    }
    match p.workers[i]
    case Starting => assert Enabled(p, Boot(i));
    case Locking => assert Enabled(p, Lock(i));
    case Running(_) => assert Enabled(p, Finish(i));
    case Leaving => assert Enabled(p, Leave(i));
  }

  /** At the end, everything that was ever submitted has been finished, exactly once. */
  lemma KilledMeansDrained(p: Pool)
    requires WorkerPool.Inv(p) && Closing(p) && AllKilled(p)  && p.owner == Free
    ensures p.started == p.submitted && p.finished == multiset(p.submitted)
  {
    AllPastCounts(p.workers);
    assert p.started + [] == p.started;
  }

  function Kills(actions: seq<Action>): nat {
    if actions == [] then 0 else (if actions[0].KillAll? then 1 else 0) + Kills(actions[1..])
  }

  lemma {:induction false} ShutdownRun(p: Pool, actions: seq<Action>)
    requires WorkerPool.Inv(p) && Closing(p) && Runs(p, actions)
    requires forall a <- actions :: !a.SendTask?
    ensures WorkerPool.Inv(After(p, actions)) && Closing(After(p, actions))
    ensures |actions| + Measure(After(p, actions)) <= Measure(p) + Kills(actions) * KillWork(|p.workers|)
    decreases |actions|
  {
    hide WorkerPool.Inv, Closing, Measure, Enabled, Apply, KillWork;
    if actions != [] {
      var q, c := Apply(p, actions[0]), KillWork(|p.workers|);
      ApplyOk(p, actions[0]);
      ShutdownStep(p, actions[0]);
      WorkersStay(p, [actions[0]]);
      ShutdownRun(q, actions[1..]);
      assert Kills(actions) * c == (if actions[0].KillAll? then c else 0) + Kills(actions[1..]) * c;
    }
  }

  /**
   * From the first KillAll of any run on, with no later SendTask but any number of further calls of KillAll: the steps
   * that can follow are bounded in number, and when the pool can do nothing more by itself, all workers are killed and
   * all submitted tasks are finished.
   */
  lemma ShutdownDrains(n: nat, before: seq<Action>, after: seq<Action>)
    requires n > 0 && Runs(Initial(n), before)
    requires var p := After(Initial(n), before);
      p.exitsSent == 0 && Enabled(p, KillAll) && Runs(Apply(p, KillAll), after)
    requires forall a <- after :: !a.SendTask?
    ensures var p := Apply(After(Initial(n), before), KillAll); var q := After(p, after);
      && |after| <= Measure(p) + Kills(after) * KillWork(n)
      && (CanStep(q) || (AllKilled(q) && q.started == q.submitted && q.finished == multiset(q.submitted)))
  {
    hide WorkerPool.Inv, Closing, Measure, KillWork;
    InitialOk(n);
    RunOk(Initial(n), before);
    WorkersStay(Initial(n), before);
    var p := After(Initial(n), before);
    ApplyOk(p, KillAll);
    KillAllCloses(p);
    ShutdownRun(Apply(p, KillAll), after);
    var q := After(Apply(p, KillAll), after);
    NeverStuck(q);
    if !CanStep(q) {
      KilledMeansDrained(q);
    }
  }

  lemma {:induction false} WorkersStay(p: Pool, actions: seq<Action>)
    requires Runs(p, actions)
    ensures |After(p, actions).workers| == |p.workers|
    decreases |actions|
  {
    if actions != [] {
      WorkersStay(Apply(p, actions[0]), actions[1..]);
    }
  }
}
