/** Runs of the whole process machine, and what the scheduler guarantees over them. */
module ProcessRuns {
  import opened Words
  import opened Strides
  import opened TaskManagers
  import opened Processes
  import opened Kernels
  import opened ProcessSteps

  /** Where a task is: running, ready, or else dead. */
  ghost predicate At(k: Kernel, t: TaskControlBlock)
    reads k, k.manager, t
  {
    && (t.status == Running <==> t == k.current)
    && (t.status == Ready <==> t.pid in k.manager.readyQueue && k.manager.readyQueue[t.pid] == t)
  }

  /** Each allocated pid belongs to exactly one task, which is exactly one of running,
      ready and dead, and the heap and the ready queue agree on who is ready. */
  lemma OneHome(k: Kernel, pid: nat)
    requires k.Valid() && pid in k.pids.Allocated()
    ensures exists t :: t in k.live && t.pid == pid && At(k, t)
    ensures forall t, u :: t in k.live && u in k.live && t.pid == pid && u.pid == pid ==> t == u
    ensures pid in k.manager.readyQueue <==> pid in Ids(k.manager.scheduler.queue)
    ensures Unique(k.manager.scheduler.queue)
  {
    hide Tree, CodesOk;
    var t :| t in k.live && t.pid == pid;
  }

  /** Every task but initproc stands in exactly one list of children, once. */
  lemma OneParent(k: Kernel, t: TaskControlBlock)
    requires k.Valid() && t in k.live && t != k.initproc
    ensures exists q, i :: q in k.live && 0 <= i < |q.children| && q.children[i] == t && q.status != Zombie
    ensures forall q, i, r, j :: q in k.live && r in k.live && 0 <= i < |q.children| && 0 <= j < |r.children| && q.children[i] == t && r.children[j] == t ==> q == r && i == j
  {
    hide Kernel.Queue, States, CodesOk, PidsOk;
    assert HasParent(t, k.live) && ChildrenOk(t.parent, k.live, k.initproc);
    var n :| 0 <= n < |t.parent.children| && t.parent.children[n] == t;
    hide Tree, ChildrenOk, HasParent;
    forall q, i, r, j | q in k.live && r in k.live && 0 <= i < |q.children| && 0 <= j < |r.children| && q.children[i] == t && r.children[j] == t
      ensures q == r && i == j
    {
      OneList(k.live, k.initproc, q, i, r, j);
    }
  }

  /** A reply hands out the code a task exited with. */
  ghost predicate Hands(t: TaskControlBlock, exited: map<TaskControlBlock, int>, reply: (nat, int))
  {
    t in exited && reply == (t.pid, exited[t])
  }

  /** The codes handed out are those of the tasks reaped, in order. */
  ghost predicate HandedOut(handed: seq<TaskControlBlock>, exited: map<TaskControlBlock, int>, from: nat,
      replies: seq<(nat, int)>)
  {
    && |handed| == from + |replies|
    && forall i :: 0 <= i < |replies| ==> Hands(handed[from..][i], exited, replies[i])
  }

  /** Recorded codes stay. */
  ghost predicate Keeps(exited: map<TaskControlBlock, int>, exited': map<TaskControlBlock, int>)
  {
    forall t :: t in exited ==> t in exited' && exited'[t] == exited[t]
  }

  lemma HandedStill(handed: seq<TaskControlBlock>, exited: map<TaskControlBlock, int>,
      exited': map<TaskControlBlock, int>, from: nat, replies: seq<(nat, int)>)
    requires HandedOut(handed, exited, from, replies) && Keeps(exited, exited')
    ensures HandedOut(handed, exited', from, replies)
  {
    var reaped := handed[from..];
    assert forall i :: 0 <= i < |replies| ==> Hands(reaped[i], exited, replies[i]);
  }

  lemma HandedMore(handed: seq<TaskControlBlock>, exited: map<TaskControlBlock, int>, from: nat, replies: seq<(nat,
      int)>, c: TaskControlBlock)
    requires HandedOut(handed, exited, from, replies) && c in exited
    ensures HandedOut(handed + [c], exited, from, replies + [(c.pid, exited[c])])
  {
    var replies' := replies + [(c.pid, exited[c])];
    assert (handed + [c])[from..] == handed[from..] + [c];
    forall i | 0 <= i < |replies'|
      ensures Hands((handed[from..] + [c])[i], exited, replies'[i])
    {
      if i < |replies| {
        assert Hands(handed[from..][i], exited, replies[i]);
      }
    }
  }

  /** The pids and codes of those reaped. */
  function Codes(answers: seq<Option<WaitResult>>): seq<(nat, int)>
  {
    if answers == [] then [] else
      var last := answers[|answers| - 1];
      var codes := Codes(answers[..|answers| - 1]);
      if last.Some? && last.value.Reaped? then codes + [(last.value.pid, last.value.code)] else codes
  }

  lemma CodesMore(answers: seq<Option<WaitResult>>, a: Option<WaitResult>)
    ensures Codes(answers + [a]) ==
      if a.Some? && a.value.Reaped? then Codes(answers) + [(a.value.pid, a.value.code)] else Codes(answers)
  {
    assert (answers + [a])[..|answers|] == answers;
  }

  /** Every waitpid is answered by the state it was called in. */
  ghost predicate Answered(snaps: seq<Snap>, calls: seq<Call>, answers: seq<Option<WaitResult>>)
  {
    && |answers| == |calls| < |snaps|
    && forall j :: 0 <= j < |calls| ==>
      if calls[j].WaitPid? then answers[j].Some? && Answers(snaps[j], calls[j].pid, answers[j].value) else answers[j] == None
  }

  lemma AnsweredMore(snaps: seq<Snap>, calls: seq<Call>, answers: seq<Option<WaitResult>>, call: Call,
      a: Option<WaitResult>, s': Snap)
    requires Answered(snaps, calls, answers) && |snaps| == |calls| + 1
    requires if call.WaitPid? then a.Some? && Answers(snaps[|calls|], call.pid, a.value) else a == None
    ensures Answered(snaps + [s'], calls + [call], answers + [a])
  {
    hide Answers;
  }

  /** Snapshots one after another along a list of calls. */
  ghost predicate Trace(snaps: seq<Snap>, calls: seq<Call>, initproc: TaskControlBlock)
  {
    |snaps| == |calls| + 1 && forall i :: 0 <= i < |calls| ==> Allowed(snaps[i], calls[i], initproc, snaps[i + 1])
  }

  lemma TraceMore(snaps: seq<Snap>, calls: seq<Call>, initproc: TaskControlBlock, call: Call, s': Snap)
    requires Trace(snaps, calls, initproc) && Allowed(snaps[|calls|], call, initproc, s')
    ensures Trace(snaps + [s'], calls + [call], initproc)
  {
    hide Allowed;
    var snaps', calls' := snaps + [s'], calls + [call];
    forall i | 0 <= i < |calls'|
      ensures Allowed(snaps'[i], calls'[i], initproc, snaps'[i + 1])
    {
      if i < |calls| {
        assert snaps'[i] == snaps[i] && snaps'[i + 1] == snaps[i + 1] && calls'[i] == calls[i];
      }
    }
  }

  lemma TraceStart(s: Snap, initproc: TaskControlBlock)
    ensures Trace([s], [], initproc)
  {
  }

  /** A recorded code was recorded from the start, or the task passed it to exit. */
  lemma {:induction false} CodeIsFromExit(snaps: seq<Snap>, calls: seq<Call>, initproc: TaskControlBlock, j: nat,
      c: TaskControlBlock)
    requires Trace(snaps, calls, initproc) && j < |snaps| && c in snaps[j].exited
    ensures (c in snaps[0].exited && snaps[0].exited[c] == snaps[j].exited[c])
      || exists i :: 0 <= i < j && calls[i] == Exit(snaps[j].exited[c]) && snaps[i].current == c
  {
    hide Switches, Forks, NobodyDead;
    if j > 0 {
      assert Allowed(snaps[j - 1], calls[j - 1], initproc, snaps[j]);
      if !(calls[j - 1].Exit? && snaps[j - 1].current == c) {
        CodeIsFromExit(snaps, calls, initproc, j - 1, c);
      }
    }
  }

  /** Any run: the machine stays sound and goes only where the calls allow, waitpid answers
      what the state it is called in says, and each exit code comes out of it for exactly
      one task, one that exited with it. The run stops early only where initproc would
      exit. */
  method Run(k: Kernel, calls: seq<Call>) returns (n: nat, answers: seq<Option<WaitResult>>, ghost snaps: seq<Snap>)
    requires k.Valid() && k.current != null && k.d == HALF
    modifies k, k.manager, k.manager.scheduler, k.pids, k.live
    ensures k.Valid() && k.current != null && n <= |calls|
    ensures n == |calls| || (calls[n].Exit? && k.current == k.initproc)
    ensures Trace(snaps, calls[..n], k.initproc) && snaps[0] == old(SnapOf(k)) && snaps[n] == SnapOf(k)
    ensures Answered(snaps, calls[..n], answers)
    ensures old(k.handed) <= k.handed && HandedOut(k.handed, k.exited, |old(k.handed)|, Codes(answers))
    ensures Keeps(old(k.exited), k.exited)
  {
    hide Kernel.Valid, HandedOut, Allowed, SnapOf, Trace, Codes, Answers, Answered;
    n, answers, snaps := 0, [], [SnapOf(k)];
    NoAnswers(SnapOf(k));
    NoneHanded(k.handed, k.exited);
    TraceStart(SnapOf(k), k.initproc);
    assert calls[..0] == [];
    while n < |calls|
      invariant k.Valid() && k.current != null && n <= |calls|
      invariant forall t :: t in k.live ==> t in old(k.live) || fresh(t)
      invariant |snaps| == n + 1 && Trace(snaps, calls[..n], k.initproc) && snaps[0] == old(SnapOf(k)) && snaps[n] == SnapOf(k)
      invariant Answered(snaps, calls[..n], answers)
      invariant old(k.handed) <= k.handed && HandedOut(k.handed, k.exited, |old(k.handed)|, Codes(answers))
      invariant Keeps(old(k.exited), k.exited)
    {
      CurrentLive(k);
      ghost var handed, exited, replies := k.handed, k.exited, Codes(answers);
      var a: Option<WaitResult> := None;
      match calls[n] {
        case Yield => DoYield(k);
        case Exit(code) =>
          if k.current == k.initproc {
            return;
          }
          DoExit(k, code);
          HandedStill(handed, exited, k.exited, |old(k.handed)|, replies);
        case Fork => DoFork(k);
        case SetPriority(prio) => DoSetPriority(k, prio);
        case WaitPid(pid) =>
          var r := DoWaitPid(k, pid);
          if r.Reaped? {
            HandedMore(handed, exited, |old(k.handed)|, replies, k.handed[|handed|]);
            assert k.handed == handed + [k.handed[|handed|]];
          }
          a := Some(r);
      }
      assert calls[..n + 1] == calls[..n] + [calls[n]];
      TraceMore(snaps, calls[..n], k.initproc, calls[n], SnapOf(k));
      AnsweredMore(snaps, calls[..n], answers, calls[n], a, SnapOf(k));
      CodesMore(answers, a);
      answers, snaps := answers + [a], snaps + [SnapOf(k)];
      n := n + 1;
    }
  }

  lemma NoAnswers(s: Snap)
    ensures Answered([s], [], []) && Codes([]) == []
  {
  }

  lemma NoneHanded(handed: seq<TaskControlBlock>, exited: map<TaskControlBlock, int>)
    ensures HandedOut(handed, exited, |handed|, [])
  {
  }

  lemma CurrentLive(k: Kernel)
    requires k.Valid()
    ensures k.initproc in k.live && (k.current != null ==> k.current in k.live)
  {
  }
}
