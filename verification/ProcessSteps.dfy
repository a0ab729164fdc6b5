/** The process machine on values: what one system call may do to a snapshot of it, and
    that the kernel's methods do just that. */
module ProcessSteps {
  import opened Words
  import opened Strides
  import opened TaskManagers
  import opened Processes
  import opened Kernels

  /** What the running task asks for. */
  datatype Call = Yield | Exit(code: int) | Fork | WaitPid(pid: int) | SetPriority(prio: u64)

  /** A task as it stands; the pass is the unbounded one. */
  datatype Info = Info(status: TaskStatus, children: seq<TaskControlBlock>, pass: nat, priority: u64)

  /** Everything there is to see of the machine. */
  datatype Snap = Snap(current: TaskControlBlock?, tasks: map<TaskControlBlock, Info>,
    exited: map<TaskControlBlock, int>, handed: seq<TaskControlBlock>)

  ghost function InfoOf(t: TaskControlBlock): Info
    reads t`status, t`children, t`upass, t`priority
  {
    Info(t.status, t.children, t.upass, t.priority)
  }

  ghost function TasksOf(live: set<TaskControlBlock>): map<TaskControlBlock, Info>
    reads live`status, live`children, live`upass, live`priority
  {
    map t | t in live :: InfoOf(t)
  }

  ghost function SnapOf(k: Kernel): Snap
    reads k`current, k`live, k`exited, k`handed, k.live`status, k.live`children, k.live`upass, k.live`priority
  {
    Snap(k.current, TasksOf(k.live), k.exited, k.handed)
  }

  /** A snapshot with a task running and proper priorities. */
  ghost predicate Good(s: Snap, initproc: TaskControlBlock)
  {
    && s.current != null && s.current in s.tasks && initproc in s.tasks
    && forall t :: t in s.tasks ==> s.tasks[t].priority > 0
  }

  /** One step more for a task. */
  function Charged(i: Info): Info
    requires i.priority > 0
  {
    i.(pass := i.pass + Step(i.priority))
  }

  /** The processor goes from s.current, left as `left`, to a task of least pass among
      those then ready; the rest of the tasks become what `rest` says. */
  ghost predicate Switches(s: Snap, left: Info, rest: map<TaskControlBlock, Info>, s': Snap)
  {
    && s'.current != null && s'.current in s'.tasks && s'.tasks.Keys == s.tasks.Keys == rest.Keys
    && (forall t :: t in s.tasks ==>
      s'.tasks[t] == var i := if t == s.current then left else rest[t]; if t == s'.current then i.(status := Running) else i)
    && (forall t :: t in s.tasks ==> var i := if t == s.current then left else rest[t];
      (t == s'.current ==> i.status == Ready) && (i.status == Ready ==> s'.tasks[s'.current].pass <= i.pass))
  }

  /** The children of the exiting task move to initproc. */
  function Inherited(tasks: map<TaskControlBlock, Info>, initproc: TaskControlBlock,
      children: seq<TaskControlBlock>): map<TaskControlBlock, Info>
  {
    map t | t in tasks :: if t == initproc then tasks[t].(children := tasks[t].children + children) else tasks[t]
  }

  ghost predicate Forks(s: Snap, child: TaskControlBlock, s': Snap)
    requires s.current != null && s.current in s.tasks && s.tasks[s.current].priority > 0
  {
    var parent := s.tasks[s.current];
    && child !in s.tasks && s'.current == s.current && s'.tasks.Keys == s.tasks.Keys + {child}
    && (forall t :: t in s.tasks ==> s'.tasks[t] == if t == s.current then parent.(children := parent.children + [child]) else s.tasks[t])
    && s'.tasks[child] == Charged(Info(Ready, [], parent.pass, parent.priority))
  }

  /** Child number i is the first one asked for that is dead; it leaves. */
  ghost predicate Reaps(s: Snap, pid: int, i: nat, s': Snap)
    requires s.current != null && s.current in s.tasks
  {
    var all := s.tasks[s.current].children;
    && i < |all| && all[i] in s.tasks && (pid == -1 || all[i].pid == pid % TWO64) && s.tasks[all[i]].status == Zombie
    && (forall j :: 0 <= j < i ==> all[j] in s.tasks && !((pid == -1 || all[j].pid == pid % TWO64) && s.tasks[all[j]].status == Zombie))
    && s'.current == s.current && s'.tasks.Keys == s.tasks.Keys - {all[i]}
    && (forall t :: t in s'.tasks ==> s'.tasks[t] == if t == s.current then s.tasks[t].(children := all[..i] + all[i + 1..]) else s.tasks[t])
    && s'.exited == s.exited && s'.handed == s.handed + [all[i]]
  }

  ghost predicate NobodyDead(s: Snap, pid: int)
    requires s.current != null && s.current in s.tasks
  {
    forall t :: t in s.tasks[s.current].children && (pid == -1 || t.pid == pid % TWO64) ==> t in s.tasks && s.tasks[t].status != Zombie
  }

  /** What waitpid answers: -1 exactly if no child has the pid asked for (for -1, if there is
      no child), -2 exactly if none that has it is dead, and else pid and code of one. */
  ghost predicate Answers(s: Snap, pid: int, r: WaitResult)
  {
    s.current != null && s.current in s.tasks &&
    var all := s.tasks[s.current].children;
    && (r.NoChild? <==> if pid == -1 then all == [] else forall c :: c in all ==> c.pid != pid % TWO64)
    && (r.StillRunning? <==> !r.NoChild? && forall c :: c in all && (pid == -1 || c.pid == pid % TWO64) ==> c in s.tasks && s.tasks[c].status != Zombie)
    && (r.Reaped? ==> (pid == -1 || r.pid == pid % TWO64) && exists c :: c in all && Finished(s, c, r.pid, r.code))
  }

  ghost predicate Finished(s: Snap, c: TaskControlBlock, pid: nat, code: int)
  {
    c in s.tasks && s.tasks[c].status == Zombie && c.pid == pid && c in s.exited && s.exited[c] == code
  }

  /** What a call may do. */
  ghost predicate Allowed(s: Snap, call: Call, initproc: TaskControlBlock, s': Snap)
  {
    Good(s, initproc) &&
    var me := s.tasks[s.current];
    match call
    case Yield =>
      Switches(s, Charged(me).(status := Ready), s.tasks, s') && s'.exited == s.exited && s'.handed == s.handed
    case Exit(code) =>
      && s.current != initproc && s'.exited == s.exited[s.current := code] && s'.handed == s.handed
      && Switches(s, me.(status := Zombie, children := []), Inherited(s.tasks, initproc, me.children), s')
    case Fork => (exists child :: child in s'.tasks && Forks(s, child, s')) && s'.exited == s.exited && s'.handed == s.handed
    case WaitPid(pid) => if NobodyDead(s, pid) then s' == s else exists i: nat :: Reaps(s, pid, i, s')
    case SetPriority(prio) =>
      s' == if 2 <= prio <= HALF then s.(tasks := s.tasks[s.current := me.(priority := prio)]) else s
  }

  lemma SnapIsGood(k: Kernel)
    requires k.Valid() && k.current != null
    ensures Good(SnapOf(k), k.initproc) && k.initproc in k.live && k.current in k.live
    ensures k.current.status == Running && k.current.upass == k.floor
    ensures forall t :: t in k.live ==> t.priority > 0
  {
    hide TaskManager.Valid, TaskManager.Exact, TaskManager.Window, CodesOk, PidsOk, Wrap;
    k.QueueFacts(k.floor);
  }

  /** The statuses say where a task is. */
  ghost predicate Listed(t: TaskControlBlock, status: TaskStatus, current: TaskControlBlock?, ready: map<nat,
      TaskControlBlock>)
  {
    (status == Ready <==> t.pid in ready && ready[t.pid] == t) && (status == Running <==> t == current)
  }

  /** Who is ready is in the queue, and the other way round. */
  lemma ReadyIs(k: Kernel)
    requires k.Valid()
    ensures forall t :: t in k.live ==> Listed(t, t.status, k.current, k.manager.readyQueue)
    ensures k.current != null ==> k.current.pid !in k.manager.readyQueue
  {
    hide TaskManager.Valid, TaskManager.Exact, TaskManager.Window, Tree, CodesOk, Wrap;
    k.QueueFacts(k.floor);
    if k.current != null {
      StopsRunning(k.live, k.current, k.manager.readyQueue, k.pids.Allocated());
    }
  }

  lemma InQueue(t: TaskControlBlock, status: TaskStatus, current: TaskControlBlock?, ready: map<nat, TaskControlBlock>)
    requires Listed(t, status, current, ready) && t.pid in ready && ready[t.pid] == t
    ensures status == Ready
  {
  }

  /** A switch away from the task that ran, which is queued if `again`. */
  lemma SwitchedStatus(t: TaskControlBlock, was: TaskStatus, now: TaskStatus, c: TaskControlBlock,
      current: TaskControlBlock,
      ready: map<nat, TaskControlBlock>, ready': map<nat, TaskControlBlock>, again: bool)
    requires Listed(t, was, c, ready) && Listed(t, now, current, ready') && c.pid !in ready
    requires var queued := if again then ready[c.pid := c] else ready;
      current.pid in queued && queued[current.pid] == current && ready' == queued - {current.pid}
    requires t != c ==> (now == Zombie <==> was == Zombie)
    requires t == c ==> (now == Zombie <==> !again)
    ensures now == if t == current then Running else if t == c then (if again then Ready else Zombie) else was
    ensures t == current ==> if again && t == c then true else was == Ready
    ensures was == Ready || (again && t == c) ==> var queued := if again then ready[c.pid := c] else ready; t.pid in queued && queued[t.pid] == t
  {
  }

  lemma TasksShow(live: set<TaskControlBlock>)
    ensures TasksOf(live).Keys == live && forall t :: t in live ==> TasksOf(live)[t] == InfoOf(t)
  {
  }

  method DoYield(k: Kernel)
    requires k.Valid() && k.current != null
    modifies k`current, k`floor, k.manager, k.manager.scheduler, k.live`status, k.live`pass, k.live`upass
    ensures k.Valid() && k.current != null && Allowed(old(SnapOf(k)), Yield, k.initproc, SnapOf(k))
  {
    hide Kernel.Valid, Step, Listed, TasksOf, Allowed, Good;
    SnapIsGood(k);
    ReadyIs(k);
    TasksShow(k.live);
    ghost var s, ready := SnapOf(k), k.manager.readyQueue;
    ghost var c: TaskControlBlock := k.current;
    k.SuspendCurrentAndRunNext();
    SnapIsGood(k);
    ReadyIs(k);
    TasksShow(k.live);
    ghost var s' := SnapOf(k);
    forall t | t in k.live
      ensures s'.tasks[t] == var i := if t == c then Charged(s.tasks[c]).(status := Ready) else s.tasks[t]; if t == k.current then i.(status := Running) else i
      ensures t == k.current ==> t == c || s.tasks[t].status == Ready
      ensures t == c || s.tasks[t].status == Ready ==> k.current.upass <= t.upass
    {
      SwitchedStatus(t, s.tasks[t].status, t.status, c, k.current, ready, k.manager.readyQueue, true);
    }
    hide Picked, Charged, InfoOf;
    YieldAllowed(s, k.initproc, s');
  }

  lemma YieldAllowed(s: Snap, initproc: TaskControlBlock, s': Snap)
    requires Good(s, initproc) && s'.exited == s.exited && s'.handed == s.handed && s'.current != null && s'.current in s.tasks
    requires s'.tasks.Keys == s.tasks.Keys
    requires var left := Charged(s.tasks[s.current]).(status := Ready); forall t :: t in s.tasks ==>
      && s'.tasks[t] == (var i := if t == s.current then left else s.tasks[t]; if t == s'.current then i.(status := Running) else i)
      && (t == s'.current ==> t == s.current || s.tasks[t].status == Ready)
      && (t == s.current || s.tasks[t].status == Ready ==> s'.tasks[s'.current].pass <= s'.tasks[t].pass)
    ensures Allowed(s, Yield, initproc, s')
  {
    hide Step;
  }

  method DoExit(k: Kernel, code: int)
    requires k.Valid() && k.current != null && k.current != k.initproc
    modifies k`current, k`floor, k`exited, k.manager, k.manager.scheduler, k.live`status, k.live`exitCode, k.live`children, k.live`parent
    ensures k.Valid() && k.current != null && Allowed(old(SnapOf(k)), Exit(code), k.initproc, SnapOf(k))
    ensures k.live == old(k.live) && k.handed == old(k.handed) && old(k.current) !in old(k.exited) && k.exited == old(k.exited)[old(k.current) := code]
  {
    hide Kernel.Valid, Listed, TasksOf, Allowed, Good;
    SnapIsGood(k);
    ReadyIs(k);
    NotExited(k);
    TasksShow(k.live);
    ghost var s, ready := SnapOf(k), k.manager.readyQueue;
    ghost var c: TaskControlBlock := k.current;
    k.ExitCurrentAndRunNext(code);
    SnapIsGood(k);
    ReadyIs(k);
    TasksShow(k.live);
    ghost var s' := SnapOf(k);
    forall t | t in k.live
      ensures s'.tasks[t] == if t == c then s.tasks[c].(status := Zombie, children := []) else
        s.tasks[t].(children := if t == k.initproc then s.tasks[t].children + s.tasks[c].children else s.tasks[t].children,
          status := if t == k.current then Running else s.tasks[t].status)
      ensures t == k.current ==> t != c && s.tasks[t].status == Ready
      ensures s.tasks[t].status == Ready ==> k.current.upass <= t.upass
    {
      SwitchedStatus(t, s.tasks[t].status, t.status, c, k.current, ready, k.manager.readyQueue, false);
    }
    hide Picked, InfoOf;
    ExitAllowed(s, code, k.initproc, s');
  }

  lemma ExitAllowed(s: Snap, code: int, initproc: TaskControlBlock, s': Snap)
    requires Good(s, initproc) && s.current != initproc && s'.exited == s.exited[s.current := code] && s'.handed == s.handed
    requires s'.current != null && s'.current in s.tasks && s'.tasks.Keys == s.tasks.Keys
    requires forall t :: t in s.tasks ==>
      && s'.tasks[t] == (if t == s.current then s.tasks[t].(status := Zombie, children := []) else
        s.tasks[t].(children := if t == initproc then s.tasks[t].children + s.tasks[s.current].children else s.tasks[t].children,
          status := if t == s'.current then Running else s.tasks[t].status))
      && (t == s'.current ==> t != s.current && s.tasks[t].status == Ready)
      && (s.tasks[t].status == Ready ==> s'.tasks[s'.current].pass <= s'.tasks[t].pass)
    ensures Allowed(s, Exit(code), initproc, s')
  {
    var rest := Inherited(s.tasks, initproc, s.tasks[s.current].children);
    assert rest.Keys == s.tasks.Keys;
  }

  lemma NotExited(k: Kernel)
    requires k.Valid() && k.current != null
    ensures k.current !in k.exited
  {
    hide Kernel.Queue, PidsOk, Tree;
  }

  method DoFork(k: Kernel)
    requires k.Valid() && k.current != null
    modifies k`live, k.pids, k.manager, k.manager.scheduler, {k.current}`children
    ensures k.Valid() && k.current != null && Allowed(old(SnapOf(k)), Fork, k.initproc, SnapOf(k))
    ensures k.handed == old(k.handed) && k.exited == old(k.exited)
    ensures forall t :: t in k.live ==> t in old(k.live) || fresh(t)
  {
    hide Kernel.Valid, Step, Listed, TasksOf, Allowed;
    SnapIsGood(k);
    TasksShow(k.live);
    ghost var s := SnapOf(k);
    ghost var c: TaskControlBlock := k.current;
    var child := k.Fork();
    SnapIsGood(k);
    ReadyIs(k);
    TasksShow(k.live);
    ghost var s' := SnapOf(k);
    InQueue(child, child.status, k.current, k.manager.readyQueue);
    forall t | t in s.tasks
      ensures s'.tasks[t] == if t == c then s.tasks[t].(children := s.tasks[t].children + [child]) else s.tasks[t]
    {
    }
    ForkAllowed(s, child, k.initproc, s');
  }

  lemma ForkAllowed(s: Snap, child: TaskControlBlock, initproc: TaskControlBlock, s': Snap)
    requires Good(s, initproc) && Forks(s, child, s') && s'.exited == s.exited && s'.handed == s.handed
    ensures Allowed(s, Fork, initproc, s')
  {
    assert child in s'.tasks;
  }

  /** Children are live and none of the dead ones is the running task. */
  lemma ChildrenApart(k: Kernel)
    requires k.Valid() && k.current != null
    ensures forall c :: c in k.current.children ==> c in k.live
    ensures forall c :: c in k.current.children && c.status == Zombie ==> c != k.current
  {
    hide Kernel.Queue, CodesOk, PidsOk;
    ChildrenLive(k.live, k.initproc, k.current);
  }

  method DoWaitPid(k: Kernel, pid: int) returns (r: WaitResult)
    requires k.Valid() && k.current != null
    modifies k`live, k`handed, k.pids, {k.current}`children
    ensures k.Valid() && k.current != null && Allowed(old(SnapOf(k)), WaitPid(pid), k.initproc, SnapOf(k))
    ensures !r.Reaped? ==> k.handed == old(k.handed)
    ensures r.Reaped? ==> |k.handed| == |old(k.handed)| + 1 && k.handed[..|old(k.handed)|] == old(k.handed)
    ensures r.Reaped? ==> var c := k.handed[|old(k.handed)|]; c in k.exited && r == Reaped(c.pid, k.exited[c])
    ensures k.exited == old(k.exited) && k.live <= old(k.live)
    ensures Answers(old(SnapOf(k)), pid, r)
  {
    hide Kernel.Valid, TasksOf, Allowed, Places;
    SnapIsGood(k);
    ChildrenApart(k);
    TasksShow(k.live);
    ghost var s, all := SnapOf(k), k.current.children;
    ghost var c: TaskControlBlock := k.current;
    ghost var i;
    r, i := k.WaitPid(pid);
    TasksShow(k.live);
    ghost var s' := SnapOf(k);
    forall t | t in s'.tasks
      ensures s'.tasks[t] == if t == c then s.tasks[t].(children := k.current.children) else s.tasks[t]
    {
    }
    if r.Reaped? {
      assert all[i] in all;
      forall j | 0 <= j < i
        ensures all[j] in s.tasks && !((pid == -1 || all[j].pid == pid % TWO64) && s.tasks[all[j]].status == Zombie)
      {
        assert all[j] in all;
      }
      ReapAllowed(s, pid, i, k.initproc, s');
      assert Finished(s, all[i], r.pid, r.code);
    } else {
      assert s'.tasks == s.tasks;
      assert NobodyDead(s, pid);
      NothingAllowed(s, pid, k.initproc);
    }
  }

  lemma ReapAllowed(s: Snap, pid: int, i: nat, initproc: TaskControlBlock, s': Snap)
    requires Good(s, initproc) && Reaps(s, pid, i, s')
    ensures Allowed(s, WaitPid(pid), initproc, s')
  {
    assert s.tasks[s.current].children[i] in s.tasks[s.current].children;
  }

  lemma NothingAllowed(s: Snap, pid: int, initproc: TaskControlBlock)
    requires Good(s, initproc) && NobodyDead(s, pid)
    ensures Allowed(s, WaitPid(pid), initproc, s)
  {
  }

  method DoSetPriority(k: Kernel, prio: u64)
    requires k.Valid() && k.current != null && k.d == HALF
    modifies {k.current}`priority
    ensures k.Valid() && k.current != null && Allowed(old(SnapOf(k)), SetPriority(prio), k.initproc, SnapOf(k))
  {
    hide Kernel.Valid, Step, TasksOf;
    SnapIsGood(k);
    TasksShow(k.live);
    ghost var s := SnapOf(k);
    ghost var c: TaskControlBlock := k.current;
    if prio >= 2 {
      StepAtMostHalf(prio);
    }
    var r := k.SetPriority(prio);
    TasksShow(k.live);
    ghost var s' := SnapOf(k);
    forall t | t in s.tasks
      ensures s'.tasks[t] == if t == c then s.tasks[t].(priority := k.current.priority) else s.tasks[t]
    {
    }
    assert s'.tasks == s.tasks[c := s.tasks[c].(priority := k.current.priority)];
  }
}
