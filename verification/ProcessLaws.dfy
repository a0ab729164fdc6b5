/** What the calls of the process machine come to, one by one and over runs, in terms of what
    was asked for. */
module ProcessLaws {
  import opened Words
  import opened TaskManagers
  import opened ProcessSteps
  import opened ProcessRuns

  /** A yield charges the caller, and no one else, the big stride over its priority; then a
      task runs whose pass no ready task's is below. */
  lemma YieldCharges(s: Snap, initproc: TaskControlBlock, s': Snap)
    requires Allowed(s, Yield, initproc, s')
    ensures s'.tasks.Keys == s.tasks.Keys && s'.current != null && s'.current in s'.tasks && s'.tasks[s'.current].status == Running
    ensures var p, charge := s.tasks[s.current].priority, s'.tasks[s.current].pass - s.tasks[s.current].pass;
      charge * p <= TWO64 - 1 < (charge + 1) * p
    ensures forall t :: t in s.tasks && t != s.current ==> s'.tasks[t].pass == s.tasks[t].pass
    ensures forall t :: t in s'.tasks && s'.tasks[t].status == Ready ==> s'.tasks[s'.current].pass <= s'.tasks[t].pass
  {
    hide Step;
    StepTimesPriority(s.tasks[s.current].priority);
  }

  /** After exit the caller is dead without children, its code is recorded, and its children
      stand at the end of initproc's list. */
  lemma ExitRecords(s: Snap, code: int, initproc: TaskControlBlock, s': Snap)
    requires Allowed(s, Exit(code), initproc, s')
    ensures s.current in s'.exited && s'.exited[s.current] == code && s'.tasks.Keys == s.tasks.Keys
    ensures s'.tasks[s.current].status == Zombie && s'.tasks[s.current].children == []
    ensures s'.tasks[initproc].children == s.tasks[initproc].children + s.tasks[s.current].children
    ensures s'.current != s.current && s'.current != null && s'.current in s'.tasks && s'.tasks[s'.current].status == Running
  {
  }

  /** A fork leaves everybody as they were and adds one ready child without children, the last
      of the caller's, with its priority and charged once from its pass on. */
  lemma ForkAdds(s: Snap, initproc: TaskControlBlock, s': Snap)
    requires Allowed(s, Fork, initproc, s')
    ensures |s'.tasks[s.current].children| == |s.tasks[s.current].children| + 1 && s'.current == s.current
    ensures var n := |s.tasks[s.current].children|; var child := s'.tasks[s.current].children[n];
      && s'.tasks[s.current].children[..n] == s.tasks[s.current].children
      && child !in s.tasks && s'.tasks.Keys == s.tasks.Keys + {child} && NewTask(s.tasks[s.current], s'.tasks[child])
    ensures forall t :: t in s.tasks && t != s.current ==> s'.tasks[t] == s.tasks[t]
  {
    hide Step;
    StepTimesPriority(s.tasks[s.current].priority);
  }

  ghost predicate NewTask(parent: Info, child: Info)
  {
    && child.status == Ready && child.children == [] && child.priority == parent.priority
    && var charge := child.pass - parent.pass; charge * parent.priority <= TWO64 - 1 < (charge + 1) * parent.priority
  }

  /** set_priority sets the caller's priority if it is at least 2 as a signed number. */
  lemma PrioritySet(s: Snap, prio: u64, initproc: TaskControlBlock, s': Snap)
    requires Allowed(s, SetPriority(prio), initproc, s')
    ensures s'.tasks.Keys == s.tasks.Keys && s'.current == s.current
    ensures s'.tasks[s.current].priority == if 2 <= prio < 0x8000_0000_0000_0000 then prio else s.tasks[s.current].priority
    ensures forall t :: t in s.tasks && t != s.current ==> s'.tasks[t] == s.tasks[t]
  {
  }

  /** The priority that task t last set before call j, or `first`. */
  ghost function LastSet(snaps: seq<Snap>, calls: seq<Call>, j: nat, t: TaskControlBlock, first: u64): u64
    requires j <= |calls| && j < |snaps|
  {
    if j == 0 then first
    else if calls[j - 1].SetPriority? && 2 <= calls[j - 1].prio < 0x8000_0000_0000_0000 && snaps[j - 1].current == t then calls[j - 1].prio
    else LastSet(snaps, calls, j - 1, t, first)
  }

  /** Over any run a task has the priority it last set for itself, and the one it began with
      until then. */
  lemma {:induction false} PriorityIsLastSet(snaps: seq<Snap>, calls: seq<Call>, initproc: TaskControlBlock, j: nat,
      t: TaskControlBlock)
    requires Trace(snaps, calls, initproc) && j < |snaps| && forall i :: 0 <= i <= j ==> t in snaps[i].tasks
    ensures snaps[j].tasks[t].priority == LastSet(snaps, calls, j, t, snaps[0].tasks[t].priority)
  {
    hide Allowed;
    if j > 0 {
      PriorityIsLastSet(snaps, calls, initproc, j - 1, t);
      assert Allowed(snaps[j - 1], calls[j - 1], initproc, snaps[j]);
      PriorityStep(snaps[j - 1], calls[j - 1], initproc, snaps[j], t);
    }
  }

  lemma PriorityStep(s: Snap, call: Call, initproc: TaskControlBlock, s': Snap, t: TaskControlBlock)
    requires Allowed(s, call, initproc, s') && t in s.tasks && t in s'.tasks
    ensures s'.tasks[t].priority ==
      if call.SetPriority? && 2 <= call.prio < 0x8000_0000_0000_0000 && s.current == t then call.prio else s.tasks[t].priority
  {
  }
}
