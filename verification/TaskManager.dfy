/** The ready queue (os/src/task/manager.rs). */
module TaskManagers {
  import opened Words
  import opened Strides

  datatype TaskStatus = Ready | Running | Zombie

  /** The parts of a task control block that scheduling and the process tree use. `upass`
      is the pass as it would be without wrap-around. */
  class TaskControlBlock {
    const pid: nat
    var priority: u64
    var pass: u64
    ghost var upass: nat
    var status: TaskStatus
    var parent: TaskControlBlock?
    var children: seq<TaskControlBlock>
    var exitCode: int

    constructor (pid: nat, priority: u64, pass: u64, ghost upass: nat, parent: TaskControlBlock?)
      ensures this.pid == pid && this.priority == priority && this.pass == pass && this.upass == upass
      ensures status == Ready && this.parent == parent && children == [] && exitCode == 0
    {
      this.pid, this.priority, this.pass, this.upass := pid, priority, pass, upass;
      status, this.parent, children, exitCode := Ready, parent, [], 0;
    }

    /** `set_prio` */
    method SetPrio(prio: u64)
      modifies this`priority
      ensures priority == prio
    {
      priority := prio;
    }
  }

  /** What one turn adds to the pass. */
  function Step(priority: u64): nat
    requires priority > 0
  {
    BIG_STRIDE / priority
  }

  /** A charge times the priority is the big stride, short of less than one more unit. */
  lemma StepTimesPriority(priority: u64)
    requires priority > 0
    ensures Step(priority) * priority <= BIG_STRIDE < (Step(priority) + 1) * priority
  {
  }

  /** The strides of ready tasks carry their passes. */
  ghost predicate StridesOf(queue: seq<Stride>, ready: map<nat, TaskControlBlock>)
    reads ready.Values`pass
  {
    && Unique(queue) && ready.Keys <= Ids(queue)
    && forall s :: s in queue && s.id in ready ==> s.pass == ready[s.id].pass
  }

  /** All unbounded passes lie in [m, m + d], and the passes are their images. */
  ghost predicate InWindow(queue: seq<Stride>, ready: map<nat, TaskControlBlock>, m: nat, d: nat)
    reads ready.Values`pass, ready.Values`upass
  {
    && (forall k :: k in ready ==> m <= ready[k].upass <= m + d && ready[k].pass == Wrap(ready[k].upass))
    && (forall s :: s in queue ==> Ahead(Wrap(m), s.pass) <= d)
  }

  class TaskManager {
    var readyQueue: map<nat, TaskControlBlock>
    const scheduler: StrideScheduler

    ghost predicate Valid()
      reads this, scheduler, readyQueue.Values`pass
    {
      (forall k :: k in readyQueue ==> readyQueue[k].pid == k) && StridesOf(scheduler.queue, readyQueue)
    }

    /** The heap holds ready tasks only. */
    ghost predicate Exact()
      reads this, scheduler
    {
      Ids(scheduler.queue) == readyQueue.Keys
    }

    ghost predicate Window(m: nat, d: nat)
      reads this, scheduler, readyQueue.Values`pass, readyQueue.Values`upass
    {
      InWindow(scheduler.queue, readyQueue, m, d)
    }

    constructor ()
      ensures Valid() && Exact() && readyQueue == map[] && fresh(scheduler) && forall m, d :: Window(m, d)
    {
      readyQueue := map[];
      scheduler := new StrideScheduler();
    }

    /** `add` */
    method Add(task: TaskControlBlock, ghost m: nat, ghost d: nat)
      requires Valid() && task.pid !in readyQueue && task.pid !in Ids(scheduler.queue) && task.priority > 0
      requires Window(m, d) && d <= HALF && m == task.upass && Step(task.priority) <= d && task.pass == Wrap(task.upass)
      modifies this, scheduler, task`pass, task`upass
      ensures Valid() && Window(m, d) && (old(Exact()) ==> Exact())
      ensures readyQueue == old(readyQueue)[task.pid := task]
      ensures task.upass == old(task.upass) + Step(task.priority) && task.pass == Wrap(task.upass)
      ensures var charge := task.upass - old(task.upass); charge * task.priority <= TWO64 - 1 < (charge + 1) * task.priority
    {
      hide StridesOf, InWindow, Wrap, Ids, Unique, Ahead;
      var step := BIG_STRIDE / task.priority;
      WrapAdd(task.upass, step);
      StepTimesPriority(task.priority);
      assert task !in readyQueue.Values;
      task.pass := (task.pass + step) % TWO64;
      task.upass := task.upass + step;
      ghost var was := scheduler.queue;
      scheduler.InsertTask(task.pid, task.pass);
      InsertedTask(was, readyQueue, task, m, d);
      readyQueue := readyQueue[task.pid := task];
    }

    /** `fetch`: a ready task whose unbounded pass is least; none only if none is ready. */
    method Fetch(ghost m: nat, ghost d: nat) returns (r: TaskControlBlock?)
      requires Valid() && Window(m, d) && d <= HALF
      modifies this, scheduler
      ensures Valid() && (old(Exact()) ==> Exact())
      ensures r == null <==> old(readyQueue) == map[]
      ensures r == null ==> readyQueue == map[] && Window(m, d)
      ensures r != null ==> r.pid in old(readyQueue) && old(readyQueue)[r.pid] == r && readyQueue == old(readyQueue) - {r.pid}
      ensures r != null ==> Window(r.upass, d) && forall k :: k in old(readyQueue) ==> r.upass <= old(readyQueue)[k].upass
    {
      hide StridesOf, InWindow, Wrap, Ids, Ahead, Popped;
      while true
        invariant readyQueue == old(readyQueue) && unchanged(readyQueue.Values)
        invariant Valid() && Window(m, d) && (old(Exact()) ==> Exact())
        decreases |scheduler.queue|
      {
        ghost var before := scheduler.queue;
        QueueSpread(before, readyQueue, m, d);
        var next := scheduler.FindNextTask(Wrap(m));
        if next == None {
          NoTasks(readyQueue);
          return null;
        }
        var pid := next.value;
        if pid in readyQueue {
          r := readyQueue[pid];
          Shrunk(readyQueue, before, scheduler.queue, pid, m, d);
          LeastTask(readyQueue, before, scheduler.queue, pid, m, d);
          break;
        }
        Shrunk(readyQueue, before, scheduler.queue, pid, m, d);
        assert readyQueue - {pid} == readyQueue;
      }
      readyQueue := readyQueue - {r.pid};
    }
  }

  lemma QueueSpread(queue: seq<Stride>, ready: map<nat, TaskControlBlock>, m: nat, d: nat)
    requires StridesOf(queue, ready) && InWindow(queue, ready, m, d) && d <= HALF
    ensures Spread(queue, Wrap(m)) && Unique(queue)
  {
  }

  lemma NoTasks(ready: map<nat, TaskControlBlock>)
    requires StridesOf([], ready)
    ensures ready == map[]
  {
    assert Ids([]) == {};
  }

  lemma InsertedTask(queue: seq<Stride>, ready: map<nat, TaskControlBlock>, task: TaskControlBlock, m: nat, d: nat)
    requires StridesOf(queue, ready) && InWindow(queue, ready, m, d) && d <= HALF
    requires task.pid !in ready && task.pid !in Ids(queue)
    requires m <= task.upass <= m + d && task.pass == Wrap(task.upass)
    ensures var queue', ready' := queue + [Stride(task.pid, task.pass)], ready[task.pid := task];
      StridesOf(queue', ready') && InWindow(queue', ready', m, d) && Ids(queue') == Ids(queue) + {task.pid}
  {
    hide Wrap, Ahead;
    InsertedIs(queue, Stride(task.pid, task.pass));
    AheadOfWrapped(m, task.upass);
    forall s | s in queue
      ensures s.id in Ids(queue)
    {
    }
  }

  /** Without the popped id the books still agree; they are about the rest. */
  lemma Shrunk(ready: map<nat, TaskControlBlock>, before: seq<Stride>, after: seq<Stride>, pid: nat, m: nat, d: nat)
    requires StridesOf(before, ready) && InWindow(before, ready, m, d)
    requires exists s :: s in before && s.id == pid && Popped(before, after, s, Wrap(m))
    requires Ids(after) == Ids(before) - {pid} && Unique(after)
    ensures StridesOf(after, ready - {pid}) && InWindow(after, ready - {pid}, m, d)
  {
    hide Wrap, Ahead;
  }

  /** Whoever is fetched has the least unbounded pass, and the window moves up to it. */
  lemma LeastTask(ready: map<nat, TaskControlBlock>, before: seq<Stride>, after: seq<Stride>, pid: nat, m: nat, d: nat)
    requires StridesOf(before, ready) && InWindow(before, ready, m, d) && d <= HALF && pid in ready
    requires exists s :: s in before && s.id == pid && Popped(before, after, s, Wrap(m))
    requires StridesOf(after, ready - {pid}) && InWindow(after, ready - {pid}, m, d)
    ensures forall k :: k in ready ==> ready[pid].upass <= ready[k].upass
    ensures InWindow(after, ready - {pid}, ready[pid].upass, d)
  {
    var s :| s in before && s.id == pid && Popped(before, after, s, Wrap(m));
    AheadOfWrapped(m, ready[pid].upass);
    forall k | k in ready
      ensures ready[pid].upass <= ready[k].upass
    {
      assert k in Ids(before);
      var r :| r in before && r.id == k;
      AheadOfWrapped(m, ready[k].upass);
    }
    forall r | r in after
      ensures Ahead(Wrap(ready[pid].upass), r.pass) <= d
    {
      AheadMoves(m, ready[pid].upass, r.pass);
    }
  }

  lemma AheadMoves(m: nat, n: nat, p: u64)
    requires m <= n <= m + HALF && n - m <= Ahead(Wrap(m), p)
    ensures Ahead(Wrap(n), p) == Ahead(Wrap(m), p) - (n - m)
  {
    AheadOfWrapped(m, n);
    AheadIs(Wrap(m), p);
    AheadIs(Wrap(n), p);
    AheadIs(Wrap(m), Wrap(n));
  }

  lemma WrapAdd(x: nat, step: nat)
    ensures (Wrap(x) + step) % TWO64 == Wrap(x + step)
  {
  }

  lemma InsertedIs(queue: seq<Stride>, s: Stride)
    requires Unique(queue) && s.id !in Ids(queue)
    ensures Unique(queue + [s]) && Ids(queue + [s]) == Ids(queue) + {s.id}
  {
  }
}
