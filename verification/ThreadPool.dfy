/** The callers' side of the worker pool as the object it is; each method is one whole critical section. */
module ThreadPool {
  import opened WorkerPool

  class MyThreadPool {
    var workers: seq<Phase>
    var queue: seq<Item>
    ghost var submitted: seq<TaskId>
    ghost var started: seq<TaskId>
    ghost var finished: multiset<TaskId>
    ghost var exitsSent: int

    /** The pool as a state of the protocol, with the mutex free. */
    ghost function Abstract(): Pool
      requires exitsSent >= 0
      reads this
    {
      Pool(workers, queue, Free, submitted, started, finished, exitsSent)
    }

    constructor (count: nat)
      ensures exitsSent == 0 && Abstract() == Initial(count)
    {
      workers := [];
      queue := [];
      submitted, started, finished, exitsSent := [], [], multiset{}, 0;
      new;
      for i := 0 to count
        invariant workers == seq(i, _ => Starting)
        invariant queue == [] && submitted == [] && started == [] && finished == multiset{} && exitsSent == 0
      {
        workers := workers + [Starting];
      }
    }

    /** `woken` is the system's choice of whom the signal wakes. */
    method SendTask(task: TaskId, woken: set<nat>)
      requires exitsSent >= 0
      requires woken <= Sleepers(Abstract()) && (Sleepers(Abstract()) != {} ==> woken != {})
      modifies this
      ensures exitsSent >= 0
      ensures if old(workers) == [] then Abstract() == old(Abstract())
              else Follows(old(Abstract()), [WorkerPool.SendTask(task), Push, Signal(woken), Release], Abstract())
    {
      hide Follows, Wake;
      ghost var p := Abstract();
      if |workers| < 1 {
        return;
      }
      queue := queue + [Job(task)];
      submitted := submitted + [task];
      workers := Wake(workers, woken);
      TaskSent(p, task, woken);
    }

    /** One exit token for each worker, then everybody is woken. */
    method KillAll()
      requires exitsSent >= 0
      modifies this
      ensures exitsSent >= 0
      ensures var actions := [WorkerPool.KillAll] + Repeated(PushExit, |old(workers)|) + [Broadcast, Release];
        Follows(old(Abstract()), actions, Abstract())
    {
      hide Follows;
      ghost var p := Abstract();
      ghost var q := p.(owner := KillPush(|workers|));
      Runs1(p, WorkerPool.KillAll);
      for n := 0 to |workers|
        invariant workers == p.workers && exitsSent >= 0
        invariant submitted == p.submitted && started == p.started && finished == p.finished
        invariant q == Abstract().(owner := KillPush(|workers| - n))
        invariant Follows(p, [WorkerPool.KillAll] + Repeated(PushExit, n), q)
      {
        queue := queue + [Exit];
        exitsSent := exitsSent + 1;
        PushExitMore(p, n, q);
        q := Apply(q, PushExit);
      }
      workers := Wake(workers, set i: nat | i < |workers| && workers[i] == Sleeping);
      BroadcastMore(p, [WorkerPool.KillAll] + Repeated(PushExit, |workers|), q);
    }
  }

  function Repeated(a: Action, n: nat): seq<Action> {
    seq(n, _ => a)
  }

  /** `actions` is a run from `p` that ends in `q`. */
  ghost predicate Follows(p: Pool, actions: seq<Action>, q: Pool) {
    Runs(p, actions) && After(p, actions) == q
  }

  lemma {:induction false} FollowsMore(p: Pool, actions: seq<Action>, q: Pool, a: Action)
    requires Follows(p, actions, q) && Enabled(q, a)
    ensures Follows(p, actions + [a], Apply(q, a))
    decreases |actions|
  {
    hide Enabled, Apply;
    if actions == [] {
      assert actions + [a] == [a] && [a][1..] == [];
      assert Follows(Apply(p, a), [], Apply(q, a));
    } else {
      assert (actions + [a])[1..] == actions[1..] + [a];
      FollowsMore(Apply(p, actions[0]), actions[1..], q, a);
    }
  }

  lemma PushExitMore(p: Pool, n: nat, q: Pool)
    requires Follows(p, [WorkerPool.KillAll] + Repeated(PushExit, n), q) && Enabled(q, PushExit)
    ensures Follows(p, [WorkerPool.KillAll] + Repeated(PushExit, n + 1), Apply(q, PushExit))
  {
    hide Follows, Enabled, Apply;
    FollowsMore(p, [WorkerPool.KillAll] + Repeated(PushExit, n), q, PushExit);
    assert [WorkerPool.KillAll] + Repeated(PushExit, n) + [PushExit] ==
      [WorkerPool.KillAll] + Repeated(PushExit, n + 1);
  }

  lemma BroadcastMore(p: Pool, actions: seq<Action>, q: Pool)
    requires Follows(p, actions, q) && q.owner == KillPush(0)
    ensures var woken := q.(workers := Wake(q.workers, Sleepers(q)), owner := Free);
      Follows(p, actions + [Broadcast, Release], woken)
  {
    hide Follows, Wake;
    FollowsMore(p, actions, q, Broadcast);
    FollowsMore(p, actions + [Broadcast], Apply(q, Broadcast), Release);
    assert actions + [Broadcast] + [Release] == actions + [Broadcast, Release];
  }

  lemma Runs1(p: Pool, a: Action)
    requires Enabled(p, a)
    ensures Follows(p, [a] + Repeated(PushExit, 0), Apply(p, a))
  {
  }

  lemma TaskSent(p: Pool, task: TaskId, woken: set<nat>)
    requires Enabled(p, WorkerPool.SendTask(task)) && woken <= Sleepers(p) && (Sleepers(p) != {} ==> woken != {})
    ensures
      var q := p.(queue := p.queue + [Job(task)], submitted := p.submitted + [task], workers := Wake(p.workers, woken));
      Follows(p, [WorkerPool.SendTask(task), Push, Signal(woken), Release], q)
  {
    hide Follows, Wake;
    var a, b := Apply(p, WorkerPool.SendTask(task)), Apply(Apply(p, WorkerPool.SendTask(task)), Push);
    assert Sleepers(b) == Sleepers(p);
    var c := Apply(b, Signal(woken));
    FollowsNothing(p);
    FollowsMore(p, [], p, WorkerPool.SendTask(task));
    FollowsMore(p, [] + [WorkerPool.SendTask(task)], a, Push);
    FollowsMore(p, [] + [WorkerPool.SendTask(task)] + [Push], b, Signal(woken));
    FollowsMore(p, [] + [WorkerPool.SendTask(task)] + [Push] + [Signal(woken)], c, Release);
    assert [] + [WorkerPool.SendTask(task)] + [Push] + [Signal(woken)] + [Release]
      == [WorkerPool.SendTask(task), Push, Signal(woken), Release];
  }

  lemma FollowsNothing(p: Pool)
    ensures Follows(p, [], p)
  {
  }
}
