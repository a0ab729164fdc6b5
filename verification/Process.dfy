/** Processes: pids, the tree of tasks, and who runs (os/src/task/pid.rs, mod.rs, task.rs,
    processor.rs, os/src/syscall/process.rs). */
module Processes {
  import opened Words
  import opened Sets
  import opened Frames
  import opened Strides
  import opened TaskManagers

  class PidAllocator {
    var current: nat
    var recycled: seq<nat>

    ghost predicate Valid()
      reads this
    {
      NoRepeats(recycled) && forall i :: 0 <= i < |recycled| ==> recycled[i] < current
    }

    ghost function Allocated(): set<nat>
      reads this
    {
      Interval(0, current) - Elements(recycled)
    }

    constructor ()
      ensures Valid() && Allocated() == {}
    {
      current, recycled := 0, [];
    }

    /** A pid nobody has. */
    method Alloc() returns (pid: nat)
      requires Valid()
      modifies this
      ensures Valid() && pid !in old(Allocated()) && Allocated() == old(Allocated()) + {pid}
      ensures pid == if old(recycled) == [] then old(current) else old(recycled)[|old(recycled)| - 1]
    {
      hide Interval, Elements, NoRepeats;
      if |recycled| > 0 {
        pid := recycled[|recycled| - 1];
        assert recycled == recycled[..|recycled| - 1] + [pid];
        TakeBack(0, current, recycled[..|recycled| - 1], pid);
        recycled := recycled[..|recycled| - 1];
      } else {
        TakeNext(0, current, recycled);
        current := current + 1;
        pid := current - 1;
      }
    }

    /** The source's two assertions say exactly that the pid is allocated. */
    method Dealloc(pid: nat)
      requires Valid() && pid in Allocated()
      modifies this
      ensures Valid() && Allocated() == old(Allocated()) - {pid} && recycled == old(recycled) + [pid]
    {
      hide NoRepeats;
      ElementsAppend(recycled, pid);
      recycled := recycled + [pid];
    }
  }

  ghost predicate NoDup(s: seq<TaskControlBlock>)
  {
    forall i, j :: 0 <= i < j < |s| ==> s[i] != s[j]
  }

  /** A tree under initproc: children and parents agree, every other task is in exactly
      one list of children, and the dead have none. */
  ghost predicate Tree(live: set<TaskControlBlock>, initproc: TaskControlBlock)
    reads live`children, live`parent, live`status
  {
    && initproc in live && initproc.status != Zombie
    && (forall q {:trigger ChildrenOk(q, live, initproc)} :: q in live ==> ChildrenOk(q, live, initproc))
    && (forall t {:trigger HasParent(t, live)} :: t in live && t != initproc ==> HasParent(t, live))
  }

  /** The children of q name it as their parent; a dead task has none. */
  ghost predicate ChildrenOk(q: TaskControlBlock, live: set<TaskControlBlock>, initproc: TaskControlBlock)
    reads q`children, q`status, live`parent
  {
    && NoDup(q.children) && (q.status == Zombie ==> q.children == [])
    && (forall c :: c in q.children ==> c in live && c.parent == q && c != initproc)
  }

  ghost predicate HasParent(t: TaskControlBlock, live: set<TaskControlBlock>)
    reads t`parent, live`children
  {
    t.parent != null && t.parent in live && t in t.parent.children
  }

  /** Each task is exactly one of running, ready and zombie. */
  ghost predicate States(live: set<TaskControlBlock>, current: TaskControlBlock?, ready: map<nat, TaskControlBlock>)
    reads live`status
  {
    && (current != null ==> current in live) && ready.Values <= live
    && forall t :: t in live ==>
      (t.status == Running <==> t == current) && (t.status == Ready <==> t.pid in ready && ready[t.pid] == t)
  }

  ghost predicate PidsOk(live: set<TaskControlBlock>, pids: set<nat>)
  {
    && (forall t, u :: t in live && u in live && t.pid == u.pid ==> t == u)
    && pids == set t | t in live :: t.pid
  }

  /** Every exit code is with its zombie until it is handed out, once. */
  ghost predicate CodesOk(live: set<TaskControlBlock>, exited: map<TaskControlBlock, int>,
      handed: seq<TaskControlBlock>)
    reads live`status, live`exitCode
  {
    && (forall t :: t in live && t.status == Zombie ==> t in exited && exited[t] == t.exitCode)
    && (forall t :: t in exited ==> t in handed || (t in live && t.status == Zombie))
    && (forall t :: t in handed ==> t in exited && t !in live)
    && NoDup(handed)
  }

  ghost predicate PassesOk(live: set<TaskControlBlock>, d: nat)
    reads live`priority
  {
    d <= HALF && forall t :: t in live ==> t.priority >= 2 && Step(t.priority) <= d
  }

  lemma WrapZero()
    ensures Wrap(0) == 0
  {
  }

  lemma OnlyInitproc(t: TaskControlBlock, d: nat)
    requires t.status == Ready && t.children == [] && t.parent == null && t.priority == 16 && Step(16) <= d <= HALF
    ensures Tree({t}, t) && States({t}, null, map[t.pid := t]) && PidsOk({t}, {t.pid}) && CodesOk({t}, map[], []) && PassesOk({t}, d)
  {
    var ready := map[t.pid := t];
    assert ready[t.pid] == t;
    assert ChildrenOk(t, {t}, t);
    assert ready.Values == {t};
  }

  lemma NoStaleIds(m: TaskManager)
    requires m.Exact()
    ensures forall pid :: pid !in m.readyQueue ==> pid !in Ids(m.scheduler.queue)
  {
  }

  /** A task of least unbounded pass left the ready queue. */
  ghost predicate Picked(task: TaskControlBlock, was: map<nat, TaskControlBlock>, now: map<nat, TaskControlBlock>)
    reads task`upass, was.Values`upass
  {
    && task.pid in was && was[task.pid] == task && now == was - {task.pid}
    && forall k :: k in was ==> task.upass <= was[k].upass
  }

  datatype WaitResult = NoChild | StillRunning | Reaped(pid: nat, code: int)

  /** The argument of waitpid asks for this child: -1 for any, else its pid as an unsigned
      number. */
  predicate Wanted(c: TaskControlBlock, pid: int) { pid == -1 || c.pid == pid % TWO64 }

  /** The first child asked for that is dead, if it must be. */
  method FindChild(children: seq<TaskControlBlock>, pid: int, zombie: bool) returns (r: Option<nat>)
    ensures r == None <==> forall c :: c in children ==> !((pid == -1 || c.pid == pid % TWO64) && (zombie ==> c.status == Zombie))
    ensures r.Some? ==> r.value < |children| && (pid == -1 || children[r.value].pid == pid % TWO64) && (zombie ==> children[r.value].status == Zombie)
    ensures r.Some? ==> forall k :: 0 <= k < r.value ==> !(Wanted(children[k], pid) && (zombie ==> children[k].status == Zombie))
  {
    var i := 0;
    while i < |children|
      invariant i <= |children| && forall k :: 0 <= k < i ==> !(Wanted(children[k], pid) && (zombie ==> children[k].status == Zombie))
    {
      if Wanted(children[i], pid) && (!zombie || children[i].status == Zombie) {
        assert children[i] in children;
        return Some(i);
      }
      i := i + 1;
    }
    r := None;
  }

  /** Where a strong reference to a task can be. */
  datatype Place = Processor | ReadyQueue(pid: nat) | ChildOf(parent: TaskControlBlock, i: nat)

  ghost function Places(live: set<TaskControlBlock>, current: TaskControlBlock?, ready: map<nat, TaskControlBlock>,
      t: TaskControlBlock): set<Place>
    reads live`children
  {
    (if current == t then {Processor} else {})
    + (set k | k in ready && ready[k] == t :: ReadyQueue(k))
    + (set q, i | q in live && 0 <= i < |q.children| && q.children[i] == t :: ChildOf(q, i))
  }

  /** Any legal priority gives a step of at most half the range. */
  lemma StepAtMostHalf(prio: u64)
    requires prio >= 2
    ensures Step(prio) <= HALF
  {
    assert Step(prio) * prio <= BIG_STRIDE;
    assert Step(prio) * 2 <= Step(prio) * prio by { MulMono(Step(prio), 2, prio); }
  }

  lemma MulMono(a: nat, b: nat, c: nat)
    requires b <= c
    ensures a * b <= a * c
  {
  }

  lemma NewPid(live: set<TaskControlBlock>, current: TaskControlBlock?, ready: map<nat, TaskControlBlock>,
      child: TaskControlBlock, pids: set<nat>)
    requires States(live, current, ready) && PidsOk(live, pids) && child.pid !in pids && (forall k :: k in ready ==> ready[k].pid == k)
    ensures child !in live && child.pid !in ready && PidsOk(live + {child}, pids + {child.pid})
    ensures States(live + {child} - {child}, current, ready)
  {
    assert child !in live;
    assert live + {child} - {child} == live;
    forall k | k in ready
      ensures k != child.pid
    {
      assert ready[k] in ready.Values;
    }
  }

  lemma SamePriority(live: set<TaskControlBlock>, t: TaskControlBlock, child: TaskControlBlock, d: nat)
    requires PassesOk(live, d) && t in live && child.priority == t.priority
    ensures PassesOk(live + {child}, d)
  {
  }

  lemma NoDupOne(c: TaskControlBlock)
    ensures NoDup([c])
  {
  }

  lemma ChildrenLive(live: set<TaskControlBlock>, initproc: TaskControlBlock, task: TaskControlBlock)
    requires Tree(live, initproc) && task in live
    ensures initproc in live && forall c :: c in task.children ==> c in live
  {
    assert ChildrenOk(task, live, initproc);
  }

  /** initproc is ready when another task runs. */
  lemma InitprocWaits(live: set<TaskControlBlock>, current: TaskControlBlock?, ready: map<nat, TaskControlBlock>,
      initproc: TaskControlBlock)
    requires States(live, current, ready) && Tree(live, initproc) && current != initproc
    ensures initproc.pid in ready
  {
  }

  lemma NoDupEmpty()
    ensures NoDup([])
  {
  }

  lemma NoDupJoin(a: seq<TaskControlBlock>, b: seq<TaskControlBlock>)
    requires NoDup(a) && NoDup(b) && forall c :: c in a ==> c !in b
    ensures NoDup(a + b)
  {
    forall i, j | 0 <= i < j < |a + b|
      ensures (a + b)[i] != (a + b)[j]
    {
      assert i < |a| <= j ==> a[i] in a && b[j - |a|] in b;
    }
  }

  lemma ZombieJoins(live: set<TaskControlBlock>, ready: map<nat, TaskControlBlock>, task: TaskControlBlock)
    requires States(live - {task}, null, ready) && task.status == Zombie && task.pid !in ready
    ensures States(live, null, ready)
  {
  }

  lemma ReadyLive(live: set<TaskControlBlock>, current: TaskControlBlock?, ready: map<nat, TaskControlBlock>)
    requires States(live, current, ready)
    ensures ready.Values <= live
    ensures forall k :: k in ready && ready[k].pid == k ==> ready[k] in live && ready[k].status == Ready
  {
    forall k | k in ready && ready[k].pid == k
      ensures ready[k] in live && ready[k].status == Ready
    {
      assert ready[k] in ready.Values;
    }
  }

  /** The running task is not queued, whatever becomes of it. */
  lemma StopsRunning(live: set<TaskControlBlock>, task: TaskControlBlock, ready: map<nat, TaskControlBlock>,
      pids: set<nat>)
    requires States(live, task, ready) && task in live && PidsOk(live, pids) && forall k :: k in ready ==> ready[k].pid == k
    ensures task.status == Running && task.pid !in ready && task !in ready.Values && States(live - {task}, null, ready)
  {
    forall k | k in ready
      ensures k != task.pid && ready[k] != task
    {
      assert ready[k] in ready.Values;
    }
  }

  lemma JoinsReady(live: set<TaskControlBlock>, current: TaskControlBlock?, ready: map<nat, TaskControlBlock>,
      task: TaskControlBlock, pids: set<nat>)
    requires task in live && task.status == Ready && task != current && task.pid !in ready
    requires States(live - {task}, current, ready)
    requires PidsOk(live, pids)
    ensures States(live, current, ready[task.pid := task])
  {
    var now := ready[task.pid := task];
    forall t | t in now.Values
      ensures t in live
    {
      var k :| k in now && now[k] == t;
      assert k != task.pid ==> ready[k] in ready.Values;
    }
  }

  lemma CurrentRuns(live: set<TaskControlBlock>, current: TaskControlBlock, ready: map<nat, TaskControlBlock>)
    requires States(live, current, ready)
    ensures current in live && current.status == Running
  {
  }

  lemma ZombieLeaves(live: set<TaskControlBlock>, current: TaskControlBlock?, ready: map<nat, TaskControlBlock>,
      task: TaskControlBlock)
    requires States(live, current, ready) && task.status == Zombie && forall k :: k in ready ==> ready[k].pid == k
    ensures States(live - {task}, current, ready)
  {
    forall t | t in ready.Values
      ensures t in live - {task}
    {
      var k :| k in ready && ready[k] == t;
      assert t in live && t.status == Ready;
    }
  }

  /** A task stands in one list of children only, and there once. */
  lemma OneList(live: set<TaskControlBlock>, initproc: TaskControlBlock, q: TaskControlBlock, j: nat,
      r: TaskControlBlock, i: nat)
    requires Tree(live, initproc) && q in live && r in live && j < |q.children| && i < |r.children| && q.children[j] == r.children[i]
    ensures q == r && j == i
  {
    hide HasParent;
    var t := q.children[j];
    assert ChildrenOk(q, live, initproc) && ChildrenOk(r, live, initproc);
    assert r.children[i] in r.children;
    assert t.parent == q && t.parent == r;
    OncePerList(q.children, j, i);
  }

  lemma OncePerList(s: seq<TaskControlBlock>, j: nat, i: nat)
    requires NoDup(s) && j < |s| && i < |s| && s[j] == s[i]
    ensures j == i
  {
  }

  ghost predicate TookOut(was: seq<TaskControlBlock>, now: seq<TaskControlBlock>, c: TaskControlBlock)
  {
    exists i :: 0 <= i < |was| && was[i] == c && now == was[..i] + was[i + 1..]
  }

  lemma TookOutIs(was: seq<TaskControlBlock>, now: seq<TaskControlBlock>, c: TaskControlBlock)
    requires TookOut(was, now, c) && NoDup(was)
    ensures NoDup(now) && c in was && forall t :: t in now <==> t in was && t != c
  {
    var i :| 0 <= i < |was| && was[i] == c && now == was[..i] + was[i + 1..];
    forall t | t in was && t != c
      ensures t in now
    {
      var j :| 0 <= j < |was| && was[j] == t;
      assert now[if j < i then j else j - 1] == t;
    }
  }
}
