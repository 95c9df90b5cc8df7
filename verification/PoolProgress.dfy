/** The worker pool in normal operation: every step is paid for by a call, and a pool at rest has done its work. */
module PoolProgress {
  import opened WorkerPool
  import opened PoolShutdown

  // A measure that only calls and spurious wake-ups raise.

  function Steps(w: Phase): nat {
    match w
    case Killed => 0
    case Leaving => 1
    case Sleeping => 2
    case Checking => 3
    case Locking => 4
    case Taken(_) => 6
    case _ => 5
  }

  function StepsLeft(workers: seq<Phase>): nat {
    if workers == [] then 0 else Steps(workers[0]) + StepsLeft(workers[1..])
  }

  /** What a caller inside its critical section will still cause; a signal may wake everybody. */
  function CallLeft(o: Owner, workers: nat): nat {
    match o
    case Unlocking => 1
    case SendSignal => 2 * workers + 2
    case SendPush(_) => 2 * workers + 7
    case KillPush(left) => 5 * left + 2 * workers + 2
    case _ => 0
  }

  function Ahead(p: Pool): nat {
    4 * |p.queue| + StepsLeft(p.workers) + CallLeft(p.owner, |p.workers|)
  }

  /** What an action from outside adds. */
  function Cost(a: Action, workers: nat): nat {
    match a
    case SendTask(_) => 2 * workers + 8
    case KillAll => 7 * workers + 3
    case Spurious(_) => 3
    case _ => 0
  }

  function Costs(actions: seq<Action>, workers: nat): nat {
    if actions == [] then 0 else Cost(actions[0], workers) + Costs(actions[1..], workers)
  }

  lemma {:induction false} StepsMove(ws: seq<Phase>, i: nat, w: Phase)
    requires i < |ws|
    ensures StepsLeft(ws[i := w]) == StepsLeft(ws) - Steps(ws[i]) + Steps(w)
  {
    if i == 0 {
      assert ws[i := w][1..] == ws[1..];
    } else {
      assert ws[i := w][1..] == ws[1..][i - 1 := w];
      StepsMove(ws[1..], i - 1, w);
    }
  }

  lemma {:induction false} WakingCosts(ws: seq<Phase>, vs: seq<Phase>)
    requires |ws| == |vs|
    requires forall i | 0 <= i < |ws| :: vs[i] == ws[i] || (ws[i] == Sleeping && vs[i] == Locking)
    ensures StepsLeft(vs) <= StepsLeft(ws) + 2 * |ws|
  {
    if ws != [] {
      WakingCosts(ws[1..], vs[1..]);
    }
  }

  /** A step of one worker. */
  lemma WorkerStep(p: Pool, a: Action)
    requires Enabled(p, a) && (a.Boot? || a.Lock? || a.Check? || a.Unlock? || a.Finish? || a.Leave? || a.Spurious?)
    requires a.Check? || a.Unlock? ==> p.owner.Worker?
    ensures Ahead(Apply(p, a)) < Ahead(p) + Cost(a, |p.workers|)
  {
    hide StepsLeft, Wake, Sleepers;
    match a
    case Boot(i) => StepsMove(p.workers, i, Locking);
    case Lock(i) => StepsMove(p.workers, i, Checking);
    case Check(i) => StepsMove(p.workers, i, if p.queue == [] then Sleeping else Taken(p.queue[0]));
    case Unlock(i) => StepsMove(p.workers, i, Unlocked(p.workers[i].item));
    case Finish(i) => StepsMove(p.workers, i, Locking);
    case Leave(i) => StepsMove(p.workers, i, Killed);
    case Spurious(i) => StepsMove(p.workers, i, Locking);
  }

  /** A step of a caller. */
  lemma CallerStep(p: Pool, a: Action)
    requires Enabled(p, a)
    requires a.SendTask? || a.Push? || a.Signal? || a.KillAll? || a.PushExit? || a.Broadcast? || a.Release?
    ensures Ahead(Apply(p, a)) < Ahead(p) + Cost(a, |p.workers|)
  {
    hide StepsLeft;
    match a
    case Signal(woken) => WakingCosts(p.workers, Wake(p.workers, woken));
    case Broadcast => WakingCosts(p.workers, Wake(p.workers, Sleepers(p)));
    case _ =>
  }

  lemma StepPaid(p: Pool, a: Action)
    requires WorkerPool.Inv(p) && Enabled(p, a)
    ensures Ahead(Apply(p, a)) < Ahead(p) + Cost(a, |p.workers|)
    ensures |Apply(p, a).workers| == |p.workers|
  {
    hide Ahead, Cost, ExitsOk, TasksOk, WakeOk;
    if a.SendTask? || a.Push? || a.Signal? || a.KillAll? || a.PushExit? || a.Broadcast? || a.Release? {
      CallerStep(p, a);
    } else {
      WorkerStep(p, a);
    }
  }

  /** In every run the number of steps is bounded by what the calls and the spurious wake-ups in it pay for. */
  lemma {:induction false} RunPaid(p: Pool, actions: seq<Action>)
    requires WorkerPool.Inv(p) && Runs(p, actions)
    ensures |actions| + Ahead(After(p, actions)) <= Ahead(p) + Costs(actions, |p.workers|)
    decreases |actions|
  {
    hide WorkerPool.Inv, Enabled, Apply, Ahead, Cost;
    if actions != [] {
      ApplyOk(p, actions[0]);
      StepPaid(p, actions[0]);
      RunPaid(Apply(p, actions[0]), actions[1..]);
    }
  }

  /** No caller is inside its critical section, and every worker sleeps or has been killed. */
  ghost predicate AtRest(p: Pool) {
    p.owner == Free && forall i: nat | i < |p.workers| :: p.workers[i] == Sleeping || p.workers[i] == Killed
  }

  /** A pool that cannot go on by itself is at rest. */
  lemma StepOrRest(p: Pool)
    requires WorkerPool.Inv(p)
    ensures CanStep(p) || AtRest(p)
  {
    hide TasksOk, ExitsOk, WakeOk;
    match p.owner
    case SendPush(_) => assert Enabled(p, Push);
    case SendSignal => assert Enabled(p, Signal(Sleepers(p)));
    case KillPush(left) => assert if left > 0 then Enabled(p, PushExit) else Enabled(p, Broadcast);
    case Unlocking => assert Enabled(p, Release);
    case Worker(i) => assert if p.workers[i] == Checking then Enabled(p, Check(i)) else Enabled(p, Unlock(i));
    case Free =>
      if !AtRest(p) {
        var i: nat :| i < |p.workers| && p.workers[i] != Sleeping && p.workers[i] != Killed;
        BusyStep(p, i);
      }
  }

  lemma BusyStep(p: Pool, i: nat)
    requires MutexOk(p) && p.owner == Free && i < |p.workers| && p.workers[i] != Sleeping && p.workers[i] != Killed
    ensures CanStep(p)
  {
    match p.workers[i]
    case Starting => assert Enabled(p, Boot(i));
    case Locking => assert Enabled(p, Lock(i));
    case Running(_) => assert Enabled(p, Finish(i));
    case Leaving => assert Enabled(p, Leave(i));
  }

  lemma {:induction false} IdleHands(ws: seq<Phase>)
    requires forall i | 0 <= i < |ws| :: ws[i] == Sleeping || ws[i] == Killed
    ensures InHand(ws) == multiset{}
  {
    if ws != [] {
      IdleHands(ws[1..]);
    }
  }

  /** At rest, the queue is empty and everything submitted is finished, unless all workers have been killed. */
  lemma RestMeansDone(p: Pool)
    requires WorkerPool.Inv(p) && AtRest(p)
    ensures AllKilled(p) || (p.queue == [] && p.finished == multiset(p.submitted))
  {
    IdleHands(p.workers);
    if p.queue == [] {
      assert p.started + [] == p.started;
    } else {
      NobodyAwake(p);
    }
  }

  lemma NobodyAwake(p: Pool)
    requires AtRest(p) && (SomeAwake(p) || AllPast(p))
    ensures AllKilled(p)
  {
  }

  /**
   * In every run with any calls: the pool can always go on by itself, or it has finished everything submitted, or all
   * its workers have been killed; and it can go on only as long as the calls and spurious wake-ups pay for it.
   */
  lemma WorkGetsDone(n: nat, actions: seq<Action>)
    requires Runs(Initial(n), actions)
    ensures var p := After(Initial(n), actions);
      && |actions| <= 5 * n + Costs(actions, n)
      && (CanStep(p) || AllKilled(p) || (p.queue == [] && p.finished == multiset(p.submitted)))
  {
    hide WorkerPool.Inv, AllKilled, AtRest, Ahead;
    InitialOk(n);
    RunOk(Initial(n), actions);
    RunPaid(Initial(n), actions);
    AheadAtStart(n);
    var p := After(Initial(n), actions);
    StepOrRest(p);
    if AtRest(p) {
      RestMeansDone(p);
    }
  }

  lemma {:induction false} AheadAtStart(n: nat)
    ensures Ahead(Initial(n)) == 5 * n && |Initial(n).workers| == n
    decreases n
  {
    if n > 0 {
      var ws: seq<Phase> := seq(n, _ => Starting);
      var rest: seq<Phase> := seq(n - 1, _ => Starting);
      assert ws[1..] == rest;
      AheadAtStart(n - 1);
    }
  }
}
