/** The kernel's processes as one machine: the processor, the task manager, the pid
    allocator and the tree of tasks (os/src/task/mod.rs, os/src/task/processor.rs,
    os/src/syscall/process.rs). */
module Kernels {
  import opened Words
  import opened Strides
  import opened TaskManagers
  import opened Processes

  /** `add_initproc` on a fresh pid allocator and task manager. */
  method AddInitproc(ghost d: nat) returns (p: PidAllocator, t: TaskControlBlock, m: TaskManager)
    requires Step(16) <= d <= HALF
    ensures fresh(p) && fresh(t) && fresh(m) && fresh(m.scheduler)
    ensures p.Valid() && p.Allocated() == {t.pid}
    ensures m.Valid() && m.Exact() && m.Window(0, d) && m.readyQueue == map[t.pid := t]
    ensures t.status == Ready && t.children == [] && t.parent == null && t.priority == 16
  {
    hide TaskManager.Valid, TaskManager.Exact, TaskManager.Window, Ids, Wrap, PidAllocator.Allocated,
      PidAllocator.Valid;
    p := new PidAllocator();
    var pid := p.Alloc();
    t := new TaskControlBlock(pid, 16, 0, 0, null);
    m := new TaskManager();
    assert Wrap(0) == 0 by { WrapZero(); }
    NoStaleIds(m);
    m.Add(t, 0, d);
  }

  /** `live` are the task control blocks that exist, `floor` is the pass of the last task
      fetched, no step is longer than `d`, `exited` records exit codes and `handed` the
      tasks reaped, in order. */
  class Kernel {
    var current: TaskControlBlock?
    const manager: TaskManager
    const pids: PidAllocator
    const initproc: TaskControlBlock
    ghost var live: set<TaskControlBlock>
    ghost var floor: nat
    ghost const d: nat
    ghost var exited: map<TaskControlBlock, int>
    ghost var handed: seq<TaskControlBlock>

    /** The ready queue with every pass in [m, m + d]. */
    ghost predicate Queue(m: nat)
      reads this`live, manager, manager.scheduler, manager.readyQueue.Values`pass, manager.readyQueue.Values`upass, live`priority
    {
      manager.Valid() && manager.Exact() && manager.Window(m, d) && PassesOk(live, d)
    }

    /** Pids, tree and exit codes. */
    ghost predicate Family()
      reads this`live, this`exited, this`handed, pids, live`children, live`parent, live`status, live`exitCode
    {
      pids.Valid() && PidsOk(live, pids.Allocated()) && Tree(live, initproc) && CodesOk(live, exited, handed)
    }

    ghost predicate Valid()
      reads this, manager, manager.scheduler, manager.readyQueue.Values`pass, manager.readyQueue.Values`upass, live, pids
    {
      && Queue(floor) && Family() && States(live, current, manager.readyQueue)
      && (current != null ==> current.upass == floor && current.pass == Wrap(floor))
    }

    lemma QueueFacts(m: nat)
      requires Queue(m)
      ensures d <= HALF
      ensures forall k :: k in manager.readyQueue ==>
        var t := manager.readyQueue[k]; t.pid == k && m <= t.upass <= m + d && t.pass == Wrap(t.upass)
      ensures forall t :: t in live ==> t.priority >= 2 && Step(t.priority) <= d
    {
    }

    /** `INITPROC` is made and added: it alone is ready. */
    constructor (ghost d: nat)
      requires Step(16) <= d <= HALF
      ensures Valid() && current == null && live == {initproc} && this.d == d && floor == 0
      ensures manager.readyQueue == map[initproc.pid := initproc] && initproc.priority == 16 && initproc.children == []
      ensures exited == map[] && handed == []
      ensures fresh(manager) && fresh(manager.scheduler) && fresh(pids) && fresh(initproc)
    {
      hide TaskManager.Valid, TaskManager.Exact, TaskManager.Window, States, Tree, CodesOk, PidsOk, PassesOk,
        PidAllocator.Allocated, PidAllocator.Valid, Wrap;
      var p, t, m := AddInitproc(d);
      current, manager, pids, initproc, this.d := null, m, p, t, d;
      live, floor, exited, handed := {t}, 0, map[], [];
      new;
      OnlyInitproc(t, d);
    }

    /** One turn of the idle loop of `run_tasks`. */
    method RunTasks()
      requires Valid() && current == null
      modifies this`current, this`floor, manager, manager.scheduler, live`status
      ensures Valid()
      ensures current == null <==> old(manager.readyQueue) == map[]
      ensures current == null ==> manager.readyQueue == map[] && floor == old(floor)
      ensures current != null ==> old(floor) <= floor == current.upass <= old(floor) + d
      ensures current != null ==> Picked(current, old(manager.readyQueue), manager.readyQueue)
      ensures forall t :: t in live ==> (t.status == Zombie <==> old(t.status) == Zombie)
    {
      hide TaskManager.Valid, TaskManager.Exact, TaskManager.Window, Family, PassesOk, Wrap, States;
      QueueFacts(floor);
      ReadyLive(live, current, manager.readyQueue);
      ghost var ready := manager.readyQueue;
      var task := manager.Fetch(floor, d);
      if task != null {
        assert manager.readyQueue[task.pid := task] == ready;
        Dispatch(task);
      }
    }

    /** The fetched task becomes the current one. */
    method Dispatch(task: TaskControlBlock)
      requires current == null && task in live && task.status == Ready && task.pass == Wrap(task.upass)
      requires Queue(task.upass) && Family()
      requires task.pid !in manager.readyQueue && States(live, null, manager.readyQueue[task.pid := task])
      modifies this`current, this`floor, task`status
      ensures Valid() && current == task && floor == task.upass && task.status == Running
    {
      hide TaskManager.Valid, TaskManager.Exact, TaskManager.Window, Family, PassesOk, Wrap, States;
      task.status := Running;
      current := task;
      floor := task.upass;
      SameFamily(this);
      StartsRunning(this);
    }

    /** `add_task` for a task that is on no queue yet. */
    method AddTask(task: TaskControlBlock)
      requires Queue(floor) && task in live && task.pass == Wrap(task.upass) && task.upass == floor && task.pid !in manager.readyQueue
      modifies manager, manager.scheduler, task`pass, task`upass
      ensures Queue(floor) && manager.readyQueue == old(manager.readyQueue)[task.pid := task]
      ensures task.priority > 0 && task.upass == floor + Step(task.priority) && task.pass == Wrap(task.upass)
    {
      hide TaskManager.Valid, TaskManager.Exact, TaskManager.Window, Ids, Wrap;
      NoStaleIds(manager);
      manager.Add(task, floor, d);
    }

    /** The first half of `suspend_current_and_run_next`. */
    method SuspendCurrent()
      requires Valid() && current != null
      modifies this`current, manager, manager.scheduler, live`status, live`pass, live`upass
      ensures Valid() && current == null
      ensures var t := old(current); t.priority > 0 && t.upass == floor + Step(t.priority)
      ensures var t := old(current); manager.readyQueue == old(manager.readyQueue)[t.pid := t] && t.pid !in old(manager.readyQueue)
      ensures forall u :: u in live && u != old(current) ==> u.upass == old(u.upass)
      ensures forall u :: u in live ==> (u.status == Zombie <==> old(u.status) == Zombie)
    {
      hide Queue, Family, Wrap, States;
      QueueFacts(floor);
      var task := current;
      DistinctPids();
      CurrentRuns(live, task, manager.readyQueue);
      StopsRunning(live, task, manager.readyQueue, pids.Allocated());
      current := null;
      task.status := Ready;
      SameFamily(this);
      AddTask(task);
      JoinsReady(live, null, old(manager.readyQueue), task, pids.Allocated());
    }

    lemma DistinctPids()
      requires Family()
      ensures PidsOk(live, pids.Allocated()) && pids.Valid()
    {
    }

    /** `suspend_current_and_run_next`: the caller is charged one step, and a task whose
        pass is now least runs. */
    method SuspendCurrentAndRunNext()
      requires Valid() && current != null
      modifies this`current, this`floor, manager, manager.scheduler, live`status, live`pass, live`upass
      ensures Valid() && current != null && old(floor) <= floor == current.upass
      ensures var t := old(current); t.priority > 0 && t.upass == old(floor) + Step(t.priority)
      ensures forall u :: u in live && u != old(current) ==> u.upass == old(u.upass)
      ensures forall u :: u in live ==> (u.status == Zombie <==> old(u.status) == Zombie)
      ensures var t := old(current); Picked(current, old(manager.readyQueue)[t.pid := t], manager.readyQueue)
      ensures old(current).pid !in old(manager.readyQueue)
    {
      hide Valid;
      SuspendCurrent();
      assert old(current).pid in manager.readyQueue;
      RunTasks();
    }

    /** Every child of the exiting task becomes a child of initproc, in order. */
    method Reparent(task: TaskControlBlock)
      requires Tree(live, initproc) && task in live && task != initproc
      modifies live`parent, initproc`children
      ensures initproc.children == old(initproc.children) + task.children
      ensures forall t :: t in live ==> t.parent == if t in task.children then initproc else old(t.parent)
    {
      hide Tree;
      ChildrenLive(live, initproc, task);
      ghost var was := initproc.children;
      assert task.children[..0] == [];
      var i := 0;
      while i < |task.children|
        invariant i <= |task.children|
        invariant initproc.children == was + task.children[..i]
        invariant forall t :: t in live ==> t.parent == if t in task.children[..i] then initproc else old(t.parent)
      {
        var child := task.children[i];
        assert child in live;
        child.parent := initproc;
        initproc.children := initproc.children + [child];
        assert task.children[..i + 1] == task.children[..i] + [child];
        i := i + 1;
      }
      assert task.children[..i] == task.children;
    }

    /** The exiting task dies and its children move to initproc. */
    method Die(task: TaskControlBlock, code: int)
      requires Family() && task == current && task in live && task != initproc && task.status == Running
      modifies this`current, this`exited, live`status, live`exitCode, live`children, live`parent
      ensures Family() && current == null
      ensures task.status == Zombie && task.exitCode == code && task.children == [] && exited == old(exited)[task := code]
      ensures initproc.children == old(initproc.children) + old(task.children)
      ensures forall t :: t in live && t != task ==> t.status == old(t.status) && (t != initproc ==> t.children == old(t.children))
    {
      hide Tree, CodesOk, PidsOk, PidAllocator.Valid, PidAllocator.Allocated;
      ChildrenLive(live, initproc, task);
      Reparent(task);
      current := null;
      task.status := Zombie;
      task.exitCode := code;
      exited := exited[task := code];
      task.children := [];
      Orphaned(this);
      Died(this);
    }

    /** `exit_current_and_run_next` up to the switch; initproc never exits. */
    method ExitCurrent(code: int)
      requires Valid() && current != null && current != initproc
      modifies this`current, this`exited, live`status, live`exitCode, live`children, live`parent
      ensures Valid() && current == null
      ensures var t := old(current); t.status == Zombie && t.exitCode == code && t.children == [] && exited == old(exited)[t := code]
      ensures initproc.children == old(initproc.children) + old(current.children)
      ensures forall t :: t in live && t != old(current) ==> t.status == old(t.status) && (t != initproc ==> t.children == old(t.children))
    {
      hide Queue, Family, Wrap, States;
      QueueFacts(floor);
      DistinctPids();
      ghost var task := current;
      CurrentRuns(live, task, manager.readyQueue);
      StopsRunning(live, task, manager.readyQueue, pids.Allocated());
      Die(current, code);
      StillBut(this);
      ZombieJoins(live, manager.readyQueue, task);
    }

    lemma InitprocReady()
      requires Valid() && current != initproc
      ensures initproc.pid in manager.readyQueue
    {
      hide Queue, CodesOk, PidsOk, States, Tree;
      InitprocWaits(live, current, manager.readyQueue, initproc);
    }

    /** `exit_current_and_run_next` */
    method ExitCurrentAndRunNext(code: int)
      requires Valid() && current != null && current != initproc
      modifies this`current, this`floor, this`exited, manager, manager.scheduler, live`status, live`exitCode, live`children, live`parent
      ensures Valid() && current != null && old(floor) <= floor == current.upass
      ensures exited == old(exited)[old(current) := code] && old(current).status == Zombie && old(current).children == []
      ensures initproc.children == old(initproc.children) + old(current.children)
      ensures forall t :: t in live && t != old(current) && t != initproc ==> t.children == old(t.children)
      ensures forall t :: t in live && t != old(current) ==> (t.status == Zombie <==> old(t.status) == Zombie)
      ensures Picked(current, old(manager.readyQueue), manager.readyQueue)
    {
      hide Valid;
      InitprocReady();
      ExitCurrent(code);
      RunTasks();
    }

    /** The new task becomes the last child of the running one. */
    method Adopt(child: TaskControlBlock)
      requires Tree(live, initproc) && CodesOk(live, exited, handed) && pids.Valid() && PidsOk(live + {child}, pids.Allocated())
      requires Queue(floor) && current != null && current in live && current.status == Running && child.priority == current.priority
      requires child !in live && child !in exited && child.parent == current && child.children == [] && child.status == Ready
      modifies this`live, {current}`children
      ensures Queue(floor) && Family() && live == old(live) + {child} && current.children == old(current.children) + [child]
    {
      hide Tree, CodesOk, PassesOk, PidsOk, PidAllocator.Valid, TaskManager.Valid, TaskManager.Exact,
        TaskManager.Window;
      current.children := current.children + [child];
      live := live + {child};
      Grown(this);
      assert PassesOk(live, d) by { SamePriority(old(live), current, child, d); }
    }

    /** The child as it is before it is queued: with the parent's pass and priority. */
    method NewChild() returns (child: TaskControlBlock)
      requires Valid() && current != null
      modifies this`live, pids, {current}`children
      ensures Queue(floor) && Family() && fresh(child) && live == old(live) + {child} && child != current
      ensures child.pid !in old(pids.Allocated()) && child.pid !in manager.readyQueue
      ensures States(live - {child}, current, manager.readyQueue) && child.status == Ready
      ensures child.parent == current && child.priority == current.priority && child.children == []
      ensures child.pass == current.pass && child.upass == current.upass
      ensures current.children == old(current.children) + [child]
    {
      hide Queue, Tree, CodesOk, PidsOk, Wrap, States, PidAllocator.Valid, PidAllocator.Allocated;
      QueueFacts(floor);
      ghost var before := live;
      ghost var ready := manager.readyQueue;
      ReadyLive(live, current, ready);
      var pid := pids.Alloc();
      child := new TaskControlBlock(pid, current.priority, current.pass, current.upass, current);
      NewPid(before, current, ready, child, old(pids.Allocated()));
      Adopt(child);
    }

    /** `fork` and `sys_fork`, the memory part aside: the child starts from the parent's
        pass and priority and is charged its first step at once. */
    method Fork() returns (child: TaskControlBlock)
      requires Valid() && current != null
      modifies this`live, pids, manager, manager.scheduler, {current}`children
      ensures Valid() && fresh(child) && live == old(live) + {child} && child.pid !in old(pids.Allocated())
      ensures child.parent == current && child.priority == current.priority && child.children == []
      ensures child.priority > 0 && child.upass == floor + Step(child.priority)
      ensures manager.readyQueue == old(manager.readyQueue)[child.pid := child] && child.pid !in old(manager.readyQueue)
      ensures current.children == old(current.children) + [child]
    {
      hide Queue, Family, Wrap, States, PidAllocator.Allocated;
      child := NewChild();
      AddTask(child);
      DistinctPids();
      JoinsReady(live, current, old(manager.readyQueue), child, pids.Allocated());
    }

    /** `sys_set_priority`; with d at its largest the requirement always holds. */
    method SetPriority(prio: u64) returns (r: int)
      requires Valid() && current != null && (2 <= prio <= HALF ==> Step(prio) <= d)
      modifies {current}`priority
      ensures Valid() && r == if 2 <= prio <= HALF then prio else -1
      ensures r == -1 ==> current.priority == old(current.priority)
      ensures r != -1 ==> current.priority == prio
    {
      hide TaskManager.Valid, TaskManager.Exact, TaskManager.Window, Family, Wrap, States;
      var signed := if prio < TWO64 / 2 then prio else prio - TWO64;
      if signed < 2 {
        return -1;
      }
      current.SetPrio(prio);
      r := signed;
    }

    /** A dead child leaves the tree, and its pid is free again. */
    method Reap(i: nat)
      requires Family() && current != null && current in live && current.status == Running
      requires i < |current.children| && current.children[i].status == Zombie
      modifies this`live, this`handed, pids, {current}`children
      ensures Family() && current.children == old(current.children)[..i] + old(current.children)[i + 1..]
      ensures var c := old(current.children)[i];
        && c in exited && exited[c] == c.exitCode && c in old(live) && live == old(live) - {c}
        && c !in old(handed) && handed == old(handed) + [c] && pids.Allocated() == old(pids.Allocated()) - {c.pid}
    {
      hide Tree, CodesOk, PidAllocator.Valid, PidAllocator.Allocated;
      ChildrenLive(live, initproc, current);
      var child := current.children[i];
      current.children := current.children[..i] + current.children[i + 1..];
      live := live - {child};
      handed := handed + [child];
      Reaping(this);
      // the last reference is gone: the pid goes back
      pids.Dealloc(child.pid);
    }

    /** `sys_waitpid` */
    method WaitPid(pid: int) returns (r: WaitResult, ghost i: nat)
      requires Valid() && current != null
      modifies this`live, this`handed, pids, {current}`children
      ensures Valid()
      ensures r.NoChild? <==> forall c :: c in old(current.children) ==> !(pid == -1 || c.pid == pid % TWO64)
      ensures r.StillRunning? <==> !r.NoChild? && forall c :: c in old(current.children) && (pid == -1 || c.pid == pid % TWO64) ==> c.status != Zombie
      ensures !r.Reaped? ==> live == old(live) && handed == old(handed) && current.children == old(current.children) && unchanged(pids)
      ensures pid == -1 ==> (r.NoChild? <==> old(current.children) == [])
      ensures r.Reaped? ==> pid == -1 || r.pid == pid % TWO64
      ensures r.Reaped? ==> i < |old(current.children)| && old(current.children[i].status) == Zombie
      ensures r.Reaped? ==> forall k :: 0 <= k < i ==>
        !((pid == -1 || old(current.children)[k].pid == pid % TWO64) && old(current.children[k].status) == Zombie)
      ensures r.Reaped? ==> old(Places(live, current, manager.readyQueue, current.children[i])) == {ChildOf(current, i)}
      ensures r.Reaped? ==> current.children == old(current.children)[..i] + old(current.children)[i + 1..]
      ensures r.Reaped? ==> var c := old(current.children)[i];
        && c in exited && r == Reaped(c.pid, exited[c]) && c in old(live) && live == old(live) - {c}
        && c !in old(handed) && handed == old(handed) + [c] && pids.Allocated() == old(pids.Allocated()) - {c.pid}
    {
      hide Queue, Family, Wrap, States, Places, PidAllocator.Valid, PidAllocator.Allocated;
      i := 0;
      var any := FindChild(current.children, pid, false);
      if any == None {
        assert pid == -1 && current.children != [] ==> current.children[0] in current.children;
        return NoChild, 0;
      }
      var index := FindChild(current.children, pid, true);
      if index == None {
        return StillRunning, 0;
      }
      i := index.value;
      var child := current.children[index.value];
      CurrentRuns(live, current, manager.readyQueue);
      QueueFacts(floor);
      ZombieHeldOnce(this, i);
      ghost var before := live;
      Reap(index.value);
      QueueBut(this);
      ZombieLeaves(before, current, manager.readyQueue, child);
      r := Reaped(child.pid, child.exitCode);
    }
  }

  twostate lemma SameTree(k: Kernel)
    requires old(Tree(k.live, k.initproc)) && k.live == old(k.live)
    requires forall t :: t in k.live ==> t.children == old(t.children) && t.parent == old(t.parent) && (t.status == Zombie <==> old(t.status) == Zombie)
    ensures Tree(k.live, k.initproc)
  {
    hide NoDup;
    forall t | t in k.live
      ensures ChildrenOk(t, k.live, k.initproc) && (t != k.initproc ==> HasParent(t, k.live))
    {
      assert old(ChildrenOk(t, k.live, k.initproc)) && (t != k.initproc ==> old(HasParent(t, k.live)));
    }
  }

  /** Statuses may change between ready and running: the family does not mind. */
  twostate lemma SameFamily(k: Kernel)
    requires old(k.Family()) && unchanged(k.pids)
    requires k.live == old(k.live) && k.exited == old(k.exited) && k.handed == old(k.handed)
    requires forall t :: t in k.live ==>
      t.children == old(t.children) && t.parent == old(t.parent) && t.exitCode == old(t.exitCode) && (t.status == Zombie <==> old(t.status) == Zombie)
    ensures k.Family()
  {
    hide NoDup, PidsOk, PidAllocator.Valid, PidAllocator.Allocated;
    SameTree(k);
    assert CodesOk(k.live, k.exited, k.handed) by { hide Tree; }
  }

  twostate lemma StartsRunning(k: Kernel)
    requires k.current != null && k.live == old(k.live) && k.current in k.live && k.current.status == Running
    requires var c := k.current; old(States(k.live, null, k.manager.readyQueue[c.pid := c]))
    requires k.current.pid !in k.manager.readyQueue && k.manager.readyQueue == old(k.manager.readyQueue)
    requires forall t :: t in k.live && t != k.current ==> t.status == old(t.status)
    ensures States(k.live, k.current, k.manager.readyQueue)
  {
    ghost var ready := k.manager.readyQueue;
    ghost var was := ready[k.current.pid := k.current];
    forall t | t in ready.Values
      ensures t in k.live
    {
      var p :| p in ready && ready[p] == t;
      assert was[p] == t;
    }
  }

  /** After `Reparent` the tree is whole again. */
  twostate lemma Orphaned(k: Kernel)
    requires old(Tree(k.live, k.initproc)) && k.live == old(k.live)
    requires var task := old(k.current); task != null && task in k.live && task != k.initproc && task.status == Zombie && task.children == []
    requires k.initproc.children == old(k.initproc.children) + old(k.current.children)
    requires var task := old(k.current); forall t :: t in k.live ==> t.parent == if t in old(task.children) then k.initproc else old(t.parent)
    requires var task := old(k.current); forall t :: t in k.live && t != task && t != k.initproc ==> t.children == old(t.children)
    requires var task := old(k.current); forall t :: t in k.live && t != task ==> (t.status == Zombie <==> old(t.status) == Zombie)
    ensures Tree(k.live, k.initproc)
  {
    hide NoDup;
    var task, init := old(k.current), k.initproc;
    assert old(ChildrenOk(task, k.live, init)) && old(ChildrenOk(init, k.live, init));
    forall t | t in k.live && t != init
      ensures HasParent(t, k.live)
    {
      assert old(HasParent(t, k.live));
    }
    NoDupEmpty();
    assert forall c :: c in old(init.children) ==> c !in old(task.children);
    NoDupJoin(old(init.children), old(task.children));
    forall q | q in k.live
      ensures ChildrenOk(q, k.live, init)
    {
      assert old(ChildrenOk(q, k.live, init));
    }
  }

  twostate lemma Died(k: Kernel)
    requires old(CodesOk(k.live, k.exited, k.handed)) && k.live == old(k.live) && k.handed == old(k.handed)
    requires var task := old(k.current); task != null && task in k.live && task.status == Zombie && old(task.status) == Running && k.exited == old(k.exited)[task := task.exitCode]
    requires var task := old(k.current); forall t :: t in k.live && t != task ==> t.exitCode == old(t.exitCode) && (t.status == Zombie <==> old(t.status) == Zombie)
    ensures CodesOk(k.live, k.exited, k.handed)
  {
  }

  /** A child joins the tree below the running task. */
  twostate lemma Grown(k: Kernel)
    requires old(Tree(k.live, k.initproc)) && old(CodesOk(k.live, k.exited, k.handed)) && k.exited == old(k.exited) && k.handed == old(k.handed)
    requires k.current != null && k.current == old(k.current) && k.current in old(k.live) && k.current.status == Running
    requires |k.current.children| > 0 && k.current.children == old(k.current.children) + [k.current.children[|k.current.children| - 1]]
    requires var c := k.current.children[|k.current.children| - 1];
      c !in old(k.live) && c !in k.exited && k.live == old(k.live) + {c} && c.parent == k.current && c.children == [] && c.status == Ready
    requires forall t :: t in old(k.live) ==> t.parent == old(t.parent) && t.status == old(t.status) && t.exitCode == old(t.exitCode)
    requires forall t :: t in old(k.live) && t != k.current ==> t.children == old(t.children)
    ensures Tree(k.live, k.initproc) && CodesOk(k.live, k.exited, k.handed)
  {
    hide NoDup;
    assert CodesOk(k.live, k.exited, k.handed) by { hide Tree, HasParent; }
    hide CodesOk;
    var c := k.current.children[|k.current.children| - 1];
    var was, live := old(k.current.children), old(k.live);
    assert old(ChildrenOk(k.current, live, k.initproc));
    forall t | t in k.live && t != k.initproc
      ensures HasParent(t, k.live)
    {
      if t != c {
        assert old(HasParent(t, live));
        assert t in was ==> t in was + [c];
      }
    }
    NoDupEmpty();
    NoDupOne(c);
    NoDupJoin(was, [c]);
    forall q | q in k.live
      ensures ChildrenOk(q, k.live, k.initproc)
    {
      if q != c {
        assert old(ChildrenOk(q, live, k.initproc));
      }
    }
  }

  /** The tree without a dead child. */
  twostate lemma Reaping(k: Kernel)
    requires old(Tree(k.live, k.initproc)) && old(CodesOk(k.live, k.exited, k.handed)) && k.exited == old(k.exited)
    requires |k.handed| > 0
    requires var c := k.handed[|k.handed| - 1];
      && k.handed == old(k.handed) + [c] && c in old(k.live) && c.status == Zombie && k.live == old(k.live) - {c}
      && k.current != null && k.current == old(k.current) && k.current in k.live
      && TookOut(old(k.current.children), k.current.children, c)
    requires forall t :: t in old(k.live) ==> t.parent == old(t.parent) && t.status == old(t.status) && t.exitCode == old(t.exitCode)
    requires forall t :: t in old(k.live) && t != k.current ==> t.children == old(t.children)
    ensures Tree(k.live, k.initproc) && CodesOk(k.live, k.exited, k.handed)
    ensures var c := k.handed[|k.handed| - 1]; c in k.exited && k.exited[c] == c.exitCode && c !in old(k.handed)
  {
    hide NoDup;
    var c := k.handed[|k.handed| - 1];
    assert CodesOk(k.live, k.exited, k.handed) && c in k.exited && k.exited[c] == c.exitCode && c !in old(k.handed) by {
      hide Tree;
      NoDupOne(c);
      NoDupJoin(old(k.handed), [c]);
    }
    hide CodesOk;
    var live := old(k.live);
    assert old(ChildrenOk(k.current, live, k.initproc)) && old(ChildrenOk(c, live, k.initproc));
    TookOutIs(old(k.current.children), k.current.children, c);
    forall t | t in k.live && t != k.initproc
      ensures HasParent(t, k.live)
    {
      assert old(HasParent(t, live));
    }
    forall q | q in k.live
      ensures ChildrenOk(q, k.live, k.initproc)
    {
      assert old(ChildrenOk(q, live, k.initproc));
    }
  }

  /** A zombie is referenced from its parent's list and nowhere else, so after its removal
      the count the source asserts is one. */
  lemma ZombieHeldOnce(k: Kernel, i: nat)
    requires k.Valid() && k.current != null && i < |k.current.children| && k.current.children[i].status == Zombie
    ensures Places(k.live, k.current, k.manager.readyQueue, k.current.children[i]) == {ChildOf(k.current, i)}
  {
    hide TaskManager.Valid, TaskManager.Exact, TaskManager.Window, CodesOk, PidsOk, PassesOk, Wrap,
      PidAllocator.Valid, PidAllocator.Allocated, Tree, States;
    var t := k.current.children[i];
    k.QueueFacts(k.floor);
    ReadyLive(k.live, k.current, k.manager.readyQueue);
    CurrentRuns(k.live, k.current, k.manager.readyQueue);
    forall q, j | q in k.live && 0 <= j < |q.children| && q.children[j] == t
      ensures q == k.current && j == i
    {
      OneList(k.live, k.initproc, q, j, k.current, i);
    }
    assert ChildOf(k.current, i) in Places(k.live, k.current, k.manager.readyQueue, t);
  }

  /** The rest of the tasks keep their states when one dies. */
  twostate lemma StillBut(k: Kernel)
    requires k.live == old(k.live) && old(k.current) != null && k.manager.readyQueue == old(k.manager.readyQueue)
    requires var task := old(k.current); old(States(k.live - {task}, null, k.manager.readyQueue)) && forall t :: t in k.live && t != task ==> t.status == old(t.status)
    ensures var task := old(k.current); States(k.live - {task}, null, k.manager.readyQueue)
  {
  }

  /** The ready queue does not mind a dead task leaving. */
  twostate lemma QueueBut(k: Kernel)
    requires old(k.Queue(k.floor)) && k.floor == old(k.floor) && k.live <= old(k.live)
    requires unchanged(k.manager) && unchanged(k.manager.scheduler)
    requires forall p :: p in k.manager.readyQueue ==> k.manager.readyQueue[p].pass == old(k.manager.readyQueue[p].pass) && k.manager.readyQueue[p].upass == old(k.manager.readyQueue[p].upass)
    requires forall t :: t in k.live ==> t.priority == old(t.priority)
    ensures k.Queue(k.floor)
  {
  }
}
