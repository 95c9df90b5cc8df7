/**
 * The worker pool: a queue of tasks behind one mutex and one condition variable, as the interleaved steps of the
 * workers and of the callers of SendTask and KillAll. An empty task is an exit token.
 */
module WorkerPool {
  type TaskId = nat

  datatype Item = Job(task: TaskId) | Exit

  /** Where a worker stands in its loop. */
  datatype Phase =
    | Starting
    | Locking               // waits for the mutex, at the top of the loop or after having been woken
    | Checking              // holds the mutex and looks at the queue
    | Sleeping              // waits on the condition variable, without the mutex
    | Taken(item: Item)     // has popped an item and still holds the mutex
    | Running(task: TaskId)
    | Leaving               // has left the loop
    | Killed

  /** Who holds the mutex; a caller holds it from its lock to its unlock. */
  datatype Owner =
    | Free
    | Worker(i: nat)
    | SendPush(task: TaskId)
    | SendSignal
    | KillPush(left: nat)
    | Unlocking

  /** `submitted`, `started` and `finished` record the user tasks, `exitsSent` the exit tokens pushed so far. */
  datatype Pool = Pool(workers: seq<Phase>, queue: seq<Item>, owner: Owner,
                       submitted: seq<TaskId>, started: seq<TaskId>, finished: multiset<TaskId>, exitsSent: nat)

  datatype Action =
    | Boot(i: nat)
    | Lock(i: nat)
    | Check(i: nat)
    | Unlock(i: nat)
    | Finish(i: nat)
    | Leave(i: nat)
    | Spurious(i: nat)
    | SendTask(task: TaskId)
    | Push
    | Signal(woken: set<nat>)
    | KillAll
    | PushExit
    | Broadcast
    | Release

  function Initial(n: nat): Pool {
    Pool(seq(n, _ => Starting), [], Free, [], [], multiset{}, 0)
  }

  predicate At(p: Pool, i: nat, phase: Phase) {
    i < |p.workers| && p.workers[i] == phase
  }

  function Sleepers(p: Pool): set<nat> {
    set i: nat | i < |p.workers| && p.workers[i] == Sleeping
  }

  predicate Enabled(p: Pool, a: Action) {
    match a
    case Boot(i) => At(p, i, Starting)
    case Lock(i) => At(p, i, Locking) && p.owner == Free
    case Check(i) => At(p, i, Checking)
    case Unlock(i) => i < |p.workers| && p.workers[i].Taken?
    case Finish(i) => i < |p.workers| && p.workers[i].Running?
    case Leave(i) => At(p, i, Leaving)
    case Spurious(i) => At(p, i, Sleeping)
    case SendTask(_) => p.owner == Free && |p.workers| > 0
    case Push => p.owner.SendPush?
    case Signal(woken) => p.owner == SendSignal && woken <= Sleepers(p) && (Sleepers(p) != {} ==> woken != {})
    case KillAll => p.owner == Free
    case PushExit => p.owner.KillPush? && p.owner.left > 0
    case Broadcast => p.owner == KillPush(0)
    case Release => p.owner == Unlocking
  }

  function Move(p: Pool, i: nat, phase: Phase): Pool
    requires i < |p.workers|
  {
    p.(workers := p.workers[i := phase])
  }

  function Wake(workers: seq<Phase>, woken: set<nat>): seq<Phase> {
    seq(|workers|, i requires 0 <= i < |workers| =>
      if i in woken && workers[i] == Sleeping then Locking else workers[i])
  }

  /** A worker runs the task it has taken; an exit token ends its loop. */
  function Unlocked(item: Item): Phase {
    if item.Job? then Running(item.task) else Leaving
  }

  function Apply(p: Pool, a: Action): Pool
    requires Enabled(p, a)
  {
    match a
    case Boot(i) => Move(p, i, Locking)
    case Lock(i) => Move(p, i, Checking).(owner := Worker(i))
    case Check(i) =>
      if p.queue == [] then Move(p, i, Sleeping).(owner := Free)
      else Move(p, i, Taken(p.queue[0])).(queue := p.queue[1..],
             started := if p.queue[0].Job? then p.started + [p.queue[0].task] else p.started)
    case Unlock(i) =>
      Move(p, i, Unlocked(p.workers[i].item)).(owner := Free)
    case Finish(i) => Move(p, i, Locking).(finished := p.finished + multiset{p.workers[i].task})
    case Leave(i) => Move(p, i, Killed)
    case Spurious(i) => Move(p, i, Locking)
    case SendTask(task) => p.(owner := SendPush(task))
    case Push => p.(queue := p.queue + [Job(p.owner.task)], submitted := p.submitted + [p.owner.task],
      owner := SendSignal)
    case Signal(woken) => p.(workers := Wake(p.workers, woken), owner := Unlocking)
    case KillAll => p.(owner := KillPush(|p.workers|))
    case PushExit => p.(queue := p.queue + [Exit], exitsSent := p.exitsSent + 1, owner := KillPush(p.owner.left - 1))
    case Broadcast => p.(workers := Wake(p.workers, Sleepers(p)), owner := Unlocking)
    case Release => p.(owner := Free)
  }

  // Counting.

  function Jobs(queue: seq<Item>): seq<TaskId> {
    if queue == [] then [] else (if queue[0].Job? then [queue[0].task] else []) + Jobs(queue[1..])
  }

  function Exits(queue: seq<Item>): nat {
    if queue == [] then 0 else (if queue[0].Exit? then 1 else 0) + Exits(queue[1..])
  }

  /** A worker that has taken an exit token: it will not touch the queue again. */
  predicate Past(w: Phase) {
    w == Taken(Exit) || w == Leaving || w == Killed
  }

  predicate Awake(w: Phase) {
    !Past(w) && w != Sleeping
  }

  function PastCount(workers: seq<Phase>): nat {
    if workers == [] then 0 else (if Past(workers[0]) then 1 else 0) + PastCount(workers[1..])
  }

  function Holding(w: Phase): multiset<TaskId> {
    match w
    case Taken(Job(task)) => multiset{task}
    case Running(task) => multiset{task}
    case _ => multiset{}
  }

  function InHand(workers: seq<Phase>): multiset<TaskId> {
    if workers == [] then multiset{} else Holding(workers[0]) + InHand(workers[1..])
  }

  // The invariant.

  ghost predicate MutexOk(p: Pool) {
    && (p.owner.Worker? ==> p.owner.i < |p.workers|)
    && forall i: nat | i < |p.workers| :: (p.workers[i] == Checking || p.workers[i].Taken?) <==> p.owner == Worker(i)
  }

  /** Submitted tasks start in the order of submission, and none is lost or duplicated. */
  ghost predicate TasksOk(p: Pool) {
    && p.started + Jobs(p.queue) == p.submitted
    && multiset(p.started) == InHand(p.workers) + p.finished
  }

  ghost predicate ExitsOk(p: Pool) {
    p.exitsSent == Exits(p.queue) + PastCount(p.workers)
  }

  ghost predicate NoneAsleep(p: Pool) {
    forall i: nat | i < |p.workers| :: p.workers[i] != Sleeping
  }

  ghost predicate SomeAwake(p: Pool) {
    exists i: nat :: i < |p.workers| && Awake(p.workers[i])
  }

  ghost predicate AllPast(p: Pool) {
    forall i: nat | i < |p.workers| :: Past(p.workers[i])
  }

  /** While an exit token is queued nobody sleeps, and while anything is queued somebody is awake to take it. */
  ghost predicate WakeOk(p: Pool) {
    && (!p.owner.KillPush? && Exits(p.queue) > 0 ==> NoneAsleep(p))
    && (!p.owner.KillPush? && p.owner != SendSignal && p.queue != [] ==> SomeAwake(p) || AllPast(p))
  }

  ghost predicate Inv(p: Pool) {
    MutexOk(p) && TasksOk(p) && ExitsOk(p) && WakeOk(p)
  }

  lemma InitialOk(n: nat)
    ensures Inv(Initial(n))
  {
    AllStarting(n);
  }

  lemma {:induction false} AllStarting(n: nat)
    ensures InHand(seq(n, _ => Starting)) == multiset{} && PastCount(seq(n, _ => Starting)) == 0
  {
    if n > 0 {
      var ws: seq<Phase> := seq(n, _ => Starting);
      var rest: seq<Phase> := seq(n - 1, _ => Starting);
      assert ws[1..] == rest;
      AllStarting(n - 1);
    }
  }

  lemma {:induction false} MoveCounts(ws: seq<Phase>, i: nat, w: Phase)
    requires i < |ws|
    ensures InHand(ws[i := w]) + Holding(ws[i]) == InHand(ws) + Holding(w)
    ensures PastCount(ws[i := w]) + (if Past(ws[i]) then 1 else 0) == PastCount(ws) + (if Past(w) then 1 else 0)
  {
    hide Holding, Past;
    if i == 0 {
      assert ws[i := w][1..] == ws[1..];
      Swap(Holding(w), InHand(ws[1..]), Holding(ws[0]));
    } else {
      assert ws[i := w][1..] == ws[1..][i - 1 := w];
      MoveCounts(ws[1..], i - 1, w);
      Regroup(Holding(ws[0]), InHand(ws[1..]), InHand(ws[1..][i - 1 := w]), Holding(ws[i]), Holding(w));
    }
  }

  lemma Swap(a: multiset<TaskId>, b: multiset<TaskId>, c: multiset<TaskId>)
    ensures (a + b) + c == (c + b) + a
  {
  }

  lemma Regroup(h: multiset<TaskId>, x: multiset<TaskId>, y: multiset<TaskId>, a: multiset<TaskId>, b: multiset<TaskId>)
    requires y + a == x + b
    ensures (h + y) + a == (h + x) + b
  {
    assert (h + y) + a == h + (y + a);
    assert (h + x) + b == h + (x + b);
  }

  lemma Cancel(a: multiset<TaskId>, b: multiset<TaskId>, c: multiset<TaskId>)
    requires a + c == b + c
    ensures a == b
  {
    assert forall t :: (a + c)[t] == a[t] + c[t] && (b + c)[t] == b[t] + c[t];
  }

  /** One worker moving on, seen from the two counts. */
  lemma MoveHands(p: Pool, i: nat, w: Phase)
    requires i < |p.workers|
    ensures var q := Move(p, i, w);
      && (Holding(w) == Holding(p.workers[i]) ==> InHand(q.workers) == InHand(p.workers))
      && (Holding(w) == multiset{} ==> InHand(q.workers) + Holding(p.workers[i]) == InHand(p.workers))
      && (Holding(p.workers[i]) == multiset{} ==> InHand(q.workers) == InHand(p.workers) + Holding(w))
      && PastCount(q.workers) ==
           PastCount(p.workers) + (if Past(w) then 1 else 0) - (if Past(p.workers[i]) then 1 else 0)
  {
    hide Holding;
    MoveCounts(p.workers, i, w);
    if Holding(w) == Holding(p.workers[i]) {
      Cancel(InHand(p.workers[i := w]), InHand(p.workers), Holding(w));
    }
  }

  lemma {:induction false} SleepersHoldNothing(ws: seq<Phase>, vs: seq<Phase>)
    requires |ws| == |vs|
    requires forall i | 0 <= i < |ws| :: vs[i] == ws[i] || (ws[i] == Sleeping && vs[i] == Locking)
    ensures InHand(vs) == InHand(ws) && PastCount(vs) == PastCount(ws)
  {
    if ws != [] {
      SleepersHoldNothing(ws[1..], vs[1..]);
    }
  }

  lemma {:induction false} JobsJoin(a: seq<Item>, b: seq<Item>)
    ensures Jobs(a + b) == Jobs(a) + Jobs(b) && Exits(a + b) == Exits(a) + Exits(b)
  {
    if a == [] {
      assert a + b == b;
    } else {
      assert (a + b)[0] == a[0] && (a + b)[1..] == a[1..] + b;
      JobsJoin(a[1..], b);
    }
  }

  lemma Enqueue(queue: seq<Item>, item: Item)
    ensures Jobs(queue + [item]) == Jobs(queue) + (if item.Job? then [item.task] else [])
    ensures Exits(queue + [item]) == Exits(queue) + (if item.Exit? then 1 else 0)
  {
    JobsJoin(queue, [item]);
  }

  // Every action keeps the invariant.

  lemma MoveOk(p: Pool, i: nat, w: Phase)
    requires Inv(p) && i < |p.workers|
    requires Holding(w) == Holding(p.workers[i]) && Past(w) == Past(p.workers[i])
    requires Awake(p.workers[i]) ==> Awake(w)
    requires w != Sleeping && !w.Checking? && !w.Taken? && !p.workers[i].Checking? && !p.workers[i].Taken?
    ensures Inv(Move(p, i, w))
  {
    hide WakeOk, Holding, Past, Awake;
    var q := Move(p, i, w);
    MoveHands(p, i, w);
    WakeMoves(p, i, w);
    MutexMoves(p, i, w);
  }

  lemma MutexMoves(p: Pool, i: nat, w: Phase)
    requires MutexOk(p) && i < |p.workers|
    requires !w.Checking? && !w.Taken? && !p.workers[i].Checking? && !p.workers[i].Taken?
    ensures MutexOk(Move(p, i, w))
  {
  }

  /** A step of one worker that neither falls asleep nor leaves the loop. */
  lemma WakeMoves(p: Pool, i: nat, w: Phase)
    requires WakeOk(p) && i < |p.workers|
    requires w != Sleeping && Past(w) == Past(p.workers[i]) && (Awake(p.workers[i]) ==> Awake(w))
    ensures WakeOk(Move(p, i, w))
  {
    var q := Move(p, i, w);
    if SomeAwake(p) {
      var k: nat :| k < |p.workers| && Awake(p.workers[k]);
      assert Awake(q.workers[k]);
    }
  }

  lemma LockOk(p: Pool, i: nat)
    requires Inv(p) && Enabled(p, Lock(i))
    ensures Inv(Apply(p, Lock(i)))
  {
    hide Holding, WakeOk, InHand, PastCount;
    NoHands();
    MoveHands(p, i, Checking);
    WakeMoves(p, i, Checking);
    OwnerFree(Move(p, i, Checking), Worker(i));
  }

  lemma NoHands()
    ensures Holding(Checking) == Holding(Locking) == Holding(Starting) == Holding(Sleeping) == multiset{}
    ensures Holding(Leaving) == Holding(Killed) == multiset{}
    ensures !Past(Locking) && !Past(Checking) && !Past(Starting) && !Past(Sleeping) && Past(Leaving) && Past(Killed)
    ensures Awake(Locking) && Awake(Starting) && !Awake(Sleeping) && !Awake(Leaving)
  {
  }

  /** The wake-up guarantee holds between and inside the workers' critical sections alike. */
  lemma OwnerFree(p: Pool, o: Owner)
    requires WakeOk(p) && (p.owner == Free || p.owner.Worker? || p.owner == Unlocking)
    requires o == Free || o.Worker?
    ensures WakeOk(p.(owner := o))
  {
  }

  lemma CheckOk(p: Pool, i: nat)
    requires Inv(p) && Enabled(p, Check(i))
    ensures Inv(Apply(p, Check(i)))
  {
    hide MutexOk, TasksOk, ExitsOk, WakeOk, Enabled, Apply;
    CheckMutex(p, i);
    if p.queue == [] {
      FallAsleep(p, i);
    } else {
      PopTasks(p, i);
      PopWakes(p, i);
    }
  }

  lemma CheckMutex(p: Pool, i: nat)
    requires MutexOk(p) && Enabled(p, Check(i))
    ensures MutexOk(Apply(p, Check(i)))
  {
  }

  /** Only an empty queue lets a worker fall asleep. */
  lemma FallAsleep(p: Pool, i: nat)
    requires TasksOk(p) && ExitsOk(p) && Enabled(p, Check(i)) && p.queue == []
    ensures var q := Apply(p, Check(i)); TasksOk(q) && ExitsOk(q) && WakeOk(q)
  {
    MoveHands(p, i, Sleeping);
  }

  lemma PopTasks(p: Pool, i: nat)
    requires TasksOk(p) && ExitsOk(p) && Enabled(p, Check(i)) && p.queue != []
    ensures TasksOk(Apply(p, Check(i))) && ExitsOk(Apply(p, Check(i)))
  {
    hide InHand, PastCount, Holding, Past;
    NoHands();
    TakenHolds(p.queue[0]);
    MoveHands(p, i, Taken(p.queue[0]));
    if p.queue[0].Job? {
      var t := p.queue[0].task;
      assert p.started + [t] + Jobs(p.queue[1..]) == p.started + ([t] + Jobs(p.queue[1..]));
      OneMoreInHand(p.started, InHand(p.workers), p.finished, t);
    } else {
      assert [] + Jobs(p.queue[1..]) == Jobs(p.queue[1..]);
    }
  }

  lemma TakenHolds(item: Item)
    ensures Holding(Taken(item)) == (if item.Job? then multiset{item.task} else multiset{})
    ensures Past(Taken(item)) <==> item.Exit?
  {
  }

  lemma OneMoreInHand(started: seq<TaskId>, hands: multiset<TaskId>, finished: multiset<TaskId>, t: TaskId)
    requires multiset(started) == hands + finished
    ensures multiset(started + [t]) == (hands + multiset{t}) + finished
  {
  }

  /** The one who pops is awake, unless it leaves; then an exit token was queued, so nobody was asleep. */
  lemma PopWakes(p: Pool, i: nat)
    requires Inv(p) && Enabled(p, Check(i)) && p.queue != []
    ensures WakeOk(Apply(p, Check(i)))
  {
    var q := Apply(p, Check(i));
    assert p.owner == Worker(i);
    if p.queue[0].Job? {
      assert Awake(q.workers[i]);
    } else {
      assert NoneAsleep(p);
      assert forall k: nat | k < |q.workers| :: Awake(q.workers[k]) || Past(q.workers[k]);
    }
  }

  lemma UnlockedSame(item: Item)
    ensures Holding(Unlocked(item)) == Holding(Taken(item))
    ensures Past(Unlocked(item)) == Past(Taken(item)) && (Awake(Taken(item)) ==> Awake(Unlocked(item)))
    ensures Unlocked(item) != Sleeping && Unlocked(item) != Checking && !Unlocked(item).Taken?
  {
  }

  lemma UnlockOk(p: Pool, i: nat)
    requires Inv(p) && Enabled(p, Unlock(i))
    ensures Inv(Apply(p, Unlock(i)))
  {
    hide WakeOk, InHand, PastCount, Unlocked, Holding, Past, Awake;
    var w := Unlocked(p.workers[i].item);
    UnlockedSame(p.workers[i].item);
    MoveHands(p, i, w);
    assert p.owner == Worker(i);
    WakeMoves(p, i, w);
    OwnerFree(Move(p, i, w), Free);
  }

  lemma FinishOk(p: Pool, i: nat)
    requires Inv(p) && Enabled(p, Finish(i))
    ensures Inv(Apply(p, Finish(i)))
  {
    hide WakeOk, InHand, PastCount;
    var q := Move(p, i, Locking);
    var t := p.workers[i].task;
    MoveHands(p, i, Locking);
    Handover(InHand(q.workers), p.finished, t);
    WakeMoves(p, i, Locking);
    FinishedElsewhere(q, q.finished + multiset{t});
  }

  lemma Handover(hands: multiset<TaskId>, finished: multiset<TaskId>, t: TaskId)
    ensures (hands + multiset{t}) + finished == hands + (finished + multiset{t})
  {
  }

  lemma FinishedElsewhere(p: Pool, finished: multiset<TaskId>)
    requires WakeOk(p)
    ensures WakeOk(p.(finished := finished))
  {
  }

  /** A caller taking or releasing the mutex, or enqueueing while it holds it. */
  lemma ClientOk(p: Pool, a: Action)
    requires Inv(p) && Enabled(p, a)
    requires a.SendTask? || a.Push? || a.KillAll? || a.PushExit? || a.Release?
    ensures Inv(Apply(p, a))
  {
    var q := Apply(p, a);
    match a
    case Push =>
      Enqueue(p.queue, Job(p.owner.task));
      assert p.started + Jobs(p.queue) + [p.owner.task] == p.started + Jobs(q.queue);
    case PushExit =>
      Enqueue(p.queue, Exit);
      assert Jobs(q.queue) == Jobs(p.queue);
    case Release => OwnerFree(p, Free);
    case _ => AwakeSame(p, q);
  }

  lemma AwakeSame(p: Pool, q: Pool)
    requires p.workers == q.workers
    ensures SomeAwake(p) == SomeAwake(q) && AllPast(p) == AllPast(q)
  {
  }

  lemma WakingKeeps(p: Pool, woken: set<nat>)
    requires MutexOk(p) && TasksOk(p) && ExitsOk(p) && !p.owner.Worker?
    ensures var q := p.(workers := Wake(p.workers, woken), owner := Unlocking); MutexOk(q) && TasksOk(q) && ExitsOk(q)
  {
    SleepersHoldNothing(p.workers, Wake(p.workers, woken));
  }

  /** A signal wakes one sleeper if there is one; otherwise everybody in the loop is awake already. */
  lemma SignalOk(p: Pool, woken: set<nat>)
    requires Inv(p) && Enabled(p, Signal(woken))
    ensures Inv(Apply(p, Signal(woken)))
  {
    hide MutexOk, TasksOk, ExitsOk;
    WakingKeeps(p, woken);
    SignalWakes(p, woken);
  }

  lemma SignalWakes(p: Pool, woken: set<nat>)
    requires WakeOk(p) && Enabled(p, Signal(woken))
    ensures WakeOk(Apply(p, Signal(woken)))
  {
    var q := Apply(p, Signal(woken));
    if Sleepers(p) != {} {
      var k :| k in woken;
      assert Awake(q.workers[k]);
    } else {
      assert forall k: nat | k < |p.workers| :: k !in Sleepers(p) && q.workers[k] == p.workers[k];
      NobodySleeps(q);
    }
  }

  lemma NobodySleeps(p: Pool)
    requires NoneAsleep(p)
    ensures SomeAwake(p) || AllPast(p)
  {
  }

  lemma BroadcastOk(p: Pool)
    requires Inv(p) && Enabled(p, Broadcast)
    ensures Inv(Apply(p, Broadcast)) && NoneAsleep(Apply(p, Broadcast))
  {
    hide MutexOk, TasksOk, ExitsOk;
    var q := Apply(p, Broadcast);
    WakingKeeps(p, Sleepers(p));
    forall k: nat | k < |q.workers|
      ensures q.workers[k] != Sleeping
    {
      assert k in Sleepers(p) <==> p.workers[k] == Sleeping;
    }
    NobodySleeps(q);
  }

  /** The steps of a worker outside the mutex. */
  lemma OutsideOk(p: Pool, a: Action)
    requires Inv(p) && Enabled(p, a) && (a.Boot? || a.Leave? || a.Spurious?)
    ensures Inv(Apply(p, a))
  {
    hide Inv, Move, Wake, Sleepers, Unlocked, Holding, Past, Awake;
    NoHands();
    match a
    case Boot(i) => MoveOk(p, i, Locking);
    case Leave(i) => MoveOk(p, i, Killed);
    case Spurious(i) => MoveOk(p, i, Locking);
  }

  lemma ApplyOk(p: Pool, a: Action)
    requires Inv(p) && Enabled(p, a)
    ensures Inv(Apply(p, a))
  {
    hide Inv, Enabled, Apply;
    match a
    case Lock(i) => LockOk(p, i);
    case Check(i) => CheckOk(p, i);
    case Unlock(i) => UnlockOk(p, i);
    case Finish(i) => FinishOk(p, i);
    case Signal(woken) => SignalOk(p, woken);
    case Broadcast => BroadcastOk(p);
    case Boot(_) => OutsideOk(p, a);
    case Leave(_) => OutsideOk(p, a);
    case Spurious(_) => OutsideOk(p, a);
    case _ => ClientOk(p, a);
  }

  // Runs.

  ghost predicate Runs(p: Pool, actions: seq<Action>)
    decreases |actions|
  {
    actions == [] || (Enabled(p, actions[0]) && Runs(Apply(p, actions[0]), actions[1..]))
  }

  ghost function After(p: Pool, actions: seq<Action>): Pool
    requires Runs(p, actions)
    decreases |actions|
  {
    if actions == [] then p else After(Apply(p, actions[0]), actions[1..])
  }

  lemma {:induction false} RunOk(p: Pool, actions: seq<Action>)
    requires Inv(p) && Runs(p, actions)
    ensures Inv(After(p, actions))
    decreases |actions|
  {
    hide Inv, Enabled, Apply;
    if actions != [] {
      ApplyOk(p, actions[0]);
      RunOk(Apply(p, actions[0]), actions[1..]);
    }
  }

  /** No task is lost or duplicated, and tasks start in the order in which they were submitted. */
  lemma Conservation(n: nat, actions: seq<Action>)
    requires Runs(Initial(n), actions)
    ensures var p := After(Initial(n), actions);
      && p.started + Jobs(p.queue) == p.submitted
      && multiset(p.submitted) == multiset(Jobs(p.queue)) + InHand(p.workers) + p.finished
      && p.exitsSent == Exits(p.queue) + PastCount(p.workers)
  {
    InitialOk(n);
    RunOk(Initial(n), actions);
    var p := After(Initial(n), actions);
    assert multiset(p.started + Jobs(p.queue)) == multiset(p.started) + multiset(Jobs(p.queue));
  }

  /** Nobody who is about to change it holds the mutex. */
  predicate NoCaller(p: Pool) {
    p.owner == Free || p.owner.Worker? || p.owner == Unlocking
  }

  /**
   * No lost wake-up: whenever no caller is in the middle of SendTask or KillAll, a non-empty queue has a worker that
   * is awake to take from it, unless every worker has left the loop; and no worker sleeps while an exit token is
   * queued.
   */
  lemma NoLostWakeUp(n: nat, actions: seq<Action>)
    requires Runs(Initial(n), actions)
    ensures var p := After(Initial(n), actions);
      NoCaller(p) && p.queue != [] ==>
        && (SomeAwake(p) || AllPast(p))
        && (Exits(p.queue) > 0 ==> NoneAsleep(p))
  {
    InitialOk(n);
    RunOk(Initial(n), actions);
  }
}
