/** Fair shares: what a fixed set of tasks that keep yielding gets
    (os/src/task/manager.rs:28-51). */
module Shares {
  import opened Words
  import opened Strides
  import opened TaskManagers
  import opened Processes
  import opened Kernels

  /** How often t stands in the list of turns. */
  ghost function Count(turns: seq<TaskControlBlock>, t: TaskControlBlock): nat
  {
    if turns == [] then 0 else Count(turns[..|turns| - 1], t) + if turns[|turns| - 1] == t then 1 else 0
  }

  lemma CountMore(turns: seq<TaskControlBlock>, x: TaskControlBlock, t: TaskControlBlock)
    ensures Count(turns + [x], t) == Count(turns, t) + if x == t then 1 else 0
  {
    assert (turns + [x])[..|turns|] == turns;
  }

  ghost predicate Runnable(k: Kernel, t: TaskControlBlock)
    reads k`live, k.live`status
  {
    t in k.live && t.status != Zombie
  }

  /** Everyone who can run is within d of the last task fetched. */
  lemma InBand(k: Kernel, t: TaskControlBlock)
    requires k.Valid() && Runnable(k, t)
    ensures k.floor <= t.upass <= k.floor + k.d && t.priority >= 2 && Step(t.priority) <= k.d
  {
    hide TaskManager.Valid, TaskManager.Exact, TaskManager.Window, Kernel.Family, Wrap;
    k.QueueFacts(k.floor);
    if t != k.current {
      assert t.pid in k.manager.readyQueue;
    }
  }

  lemma StepOf(k: Kernel)
    requires k.Valid()
    ensures forall t :: t in k.live ==> t.priority >= 2 && Step(t.priority) <= k.d
    ensures k.current != null ==> k.current in k.live && Runnable(k, k.current) && k.current.upass == k.floor
  {
    hide TaskManager.Valid, TaskManager.Exact, TaskManager.Window, Kernel.Family, Wrap;
    k.QueueFacts(k.floor);
  }

  /** A task with `count` turns has been charged for them, and its last step, if it had
      one, started no higher than the present floor. */
  ghost predicate Fair(upass0: nat, upass: nat, count: nat, step: nat, floor: nat)
  {
    upass == upass0 + count * step && (count > 0 ==> upass <= floor + step)
  }

  lemma FairStep(upass0: nat, upass: nat, count: nat, step: nat, floor: nat, floor': nat)
    requires Fair(upass0, upass, count, step, floor) && floor <= floor'
    ensures Fair(upass0, upass, count, step, floor')
    ensures upass == floor ==> Fair(upass0, upass + step, count + 1, step, floor')
  {
    assert (count + 1) * step == count * step + step;
  }

  /** The turns of a run so far account for all passes. */
  twostate predicate Charged(k: Kernel, new turns: seq<TaskControlBlock>)
    reads k`live, k`floor, k.live`priority, k.live`status, k.live`upass
  {
    && k.live == old(k.live) && old(k.floor) <= k.floor
    && (forall t :: t in k.live ==> t.priority > 0 && t.priority == old(t.priority) && (t.status == Zombie <==> old(t.status) == Zombie))
    && (forall t :: t in k.live ==> Fair(old(t.upass), t.upass, Count(turns, t), Step(t.priority), k.floor))
    && (forall t :: t in turns ==> t in k.live && t.status != Zombie)
  }

  /** n yields in a row; `turns` are the tasks that yielded, in order. */
  method Yields(k: Kernel, n: nat) returns (ghost turns: seq<TaskControlBlock>)
    requires k.Valid() && k.current != null
    modifies k`current, k`floor, k.manager, k.manager.scheduler, k.live`status, k.live`pass, k.live`upass
    ensures k.Valid() && k.current != null && |turns| == n && Charged(k, turns)
  {
    hide Kernel.Valid, Picked, Count, Fair, Step;
    turns := [];
    StepOf(k);
    forall t | t in k.live
      ensures Fair(t.upass, t.upass, Count([], t), Step(t.priority), k.floor)
    {
      NoTurn(t, k.floor);
    }
    var i := 0;
    while i < n
      invariant i <= n && |turns| == i && k.Valid() && k.current != null && Charged(k, turns)
    {
      StepOf(k);
      ghost var floor := k.floor;
      ghost var t := k.current;
      ghost var was := map u | u in k.live :: u.upass;
      k.SuspendCurrentAndRunNext();
      forall u | u in k.live
        ensures Fair(old(u.upass), u.upass, Count(turns + [t], u), Step(u.priority), k.floor)
      {
        CountMore(turns, t, u);
        FairStep(old(u.upass), was[u], Count(turns, u), Step(u.priority), floor, k.floor);
      }
      turns := turns + [t];
      i := i + 1;
    }
  }

  lemma NoTurn(t: TaskControlBlock, floor: nat)
    requires t.priority > 0
    ensures Fair(t.upass, t.upass, Count([], t), Step(t.priority), floor)
  {
  }

  /** Proportional share: over any number of yields the pass two runnable tasks were
      charged differs by at most twice the longest step. */
  method Proportional(k: Kernel, n: nat, a: TaskControlBlock, b: TaskControlBlock)
    returns (ghost turns: seq<TaskControlBlock>)
    requires k.Valid() && k.current != null && Runnable(k, a) && Runnable(k, b)
    modifies k`current, k`floor, k.manager, k.manager.scheduler, k.live`status, k.live`pass, k.live`upass
    ensures k.Valid() && |turns| == n && Charged(k, turns) && a.priority > 0 && b.priority > 0
    ensures -2 * k.d <= Count(turns, a) * Step(a.priority) - Count(turns, b) * Step(b.priority) <= 2 * k.d
  {
    hide Kernel.Valid;
    InBand(k, a);
    InBand(k, b);
    turns := Yields(k, n);
    InBand(k, a);
    InBand(k, b);
  }

  /** A larger factor, a larger product. */
  lemma Scale(k: nat, x: int, y: int)
    requires x <= y
    ensures k * x <= k * y
  {
  }

  /** Charges within d of each other, as turns: BIG_STRIDE times the difference between one
      count times the other priority and the converse. */
  lemma TurnsByPriority(ca: nat, cb: nat, sa: nat, sb: nat, p: nat, q: nat, d: int, n: nat)
    requires sa * p <= BIG_STRIDE < (sa + 1) * p && sb * q <= BIG_STRIDE < (sb + 1) * q
    requires ca <= n && cb <= n && -d <= ca * sa - cb * sb <= d
    ensures -(p * q * (d + n)) <= BIG_STRIDE * (ca * q - cb * p) <= p * q * (d + n)
  {
    var x, y := BIG_STRIDE * (ca * q), BIG_STRIDE * (cb * p);
    var u, v := p * q * (ca * sa), p * q * (cb * sb);
    var drop, wait := p * q * n, p * q * d;
    OneSide(ca, q, sa, p, n);
    OneSide(cb, p, sb, q, n);
    Swap(p, q);
    Between(p * q, ca * sa, cb * sb, d);
    Distribute(BIG_STRIDE, ca * q, cb * p);
    Together(p * q, d, n);
    assert u <= x <= u + drop && v <= y <= v + drop && -wait <= u - v <= wait;
  }

  lemma Swap(p: int, q: int)
    ensures p * q == q * p
  {
  }

  lemma Together(k: int, x: int, y: int)
    ensures k * (x + y) == k * x + k * y
  {
  }

  lemma Between(k: nat, x: int, y: int, d: int)
    requires -d <= x - y <= d
    ensures -(k * d) <= k * x - k * y <= k * d
  {
    Scale(k, x - y, d);
    Scale(k, -d, x - y);
    Distribute(k, x, y);
    Distribute(k, 0, d);
  }

  lemma Distribute(k: int, x: int, y: int)
    ensures k * (x - y) == k * x - k * y
  {
  }

  /** One task's charge, with what integer division drops. */
  lemma OneSide(c: nat, q: nat, s: nat, p: nat, n: nat)
    requires s * p <= BIG_STRIDE < (s + 1) * p && c <= n
    ensures p * q * (c * s) <= BIG_STRIDE * (c * q) <= p * q * (c * s) + p * q * n
  {
    var k, r := c * q, BIG_STRIDE - s * p;
    assert (s + 1) * p == s * p + p;
    assert BIG_STRIDE * k == (s * p) * k + r * k by { assert BIG_STRIDE == s * p + r; }
    assert (s * p) * k == p * q * (c * s) by { Shuffle(s, p, c, q); }
    Scale(k, r, p);
    assert r * k <= p * k;
    assert p * k == (p * q) * c by { ShuffleThree(p, c, q); }
    Scale(p * q, c, n);
  }

  lemma Shuffle(s: int, p: int, c: int, q: int)
    ensures (s * p) * (c * q) == p * q * (c * s)
  {
    assert (s * p) * (c * q) == ((s * p) * c) * q;
    assert (s * p) * c == p * (c * s);
    assert (p * (c * s)) * q == p * q * (c * s);
  }

  lemma ShuffleThree(p: int, c: int, q: int)
    ensures p * (c * q) == (p * q) * c
  {
  }

  /** Turns in proportion to priorities: over n yields the turns of two runnable tasks differ
      from the ratio of their priorities p and q by the wait of at most two longest steps and
      what integer division drops in n turns. */
  method ByPriority(k: Kernel, n: nat, a: TaskControlBlock, b: TaskControlBlock)
    returns (ghost turns: seq<TaskControlBlock>)
    requires k.Valid() && k.current != null && Runnable(k, a) && Runnable(k, b)
    modifies k`current, k`floor, k.manager, k.manager.scheduler, k.live`status, k.live`pass, k.live`upass
    ensures k.Valid() && |turns| == n && Charged(k, turns)
    ensures a.priority == old(a.priority) && b.priority == old(b.priority)
    ensures var p, q := a.priority, b.priority;
      -(p * q * (2 * k.d + n)) <= (TWO64 - 1) * (Count(turns, a) * q - Count(turns, b) * p) <= p * q * (2 * k.d + n)
  {
    hide Kernel.Valid, Step;
    turns := Proportional(k, n, a, b);
    StepTimesPriority(a.priority);
    StepTimesPriority(b.priority);
    CountAtMost(turns, a);
    CountAtMost(turns, b);
    TurnsByPriority(Count(turns, a), Count(turns, b), Step(a.priority), Step(b.priority), a.priority, b.priority, 2 * k.d, n);
  }

  lemma {:induction false} CountAtMost(turns: seq<TaskControlBlock>, t: TaskControlBlock)
    ensures Count(turns, t) <= |turns|
  {
    if turns != [] {
      CountAtMost(turns[..|turns| - 1], t);
    }
  }

  /** An upper bound on the turns with this step. */
  function MostTurns(d: nat, step: nat): nat
    requires step > 0
  {
    d / step + 1
  }

  /** An upper bound on the turns tasks can take while somebody waits. */
  ghost function Bound(tasks: seq<TaskControlBlock>, d: nat): nat
    reads tasks`priority
    requires forall t :: t in tasks ==> t.priority > 0 && Step(t.priority) > 0
  {
    if tasks == [] then 0 else
      var t := tasks[|tasks| - 1];
      assert t in tasks;
      Bound(tasks[..|tasks| - 1], d) + MostTurns(d, Step(t.priority))
  }

  ghost function Total(turns: seq<TaskControlBlock>, tasks: seq<TaskControlBlock>): nat
  {
    if tasks == [] then 0 else Total(turns, tasks[..|tasks| - 1]) + Count(turns, tasks[|tasks| - 1])
  }

  lemma {:induction false} TotalMore(turns: seq<TaskControlBlock>, x: TaskControlBlock, tasks: seq<TaskControlBlock>)
    requires NoDup(tasks)
    ensures Total(turns + [x], tasks) == Total(turns, tasks) + if x in tasks then 1 else 0
  {
    if tasks != [] {
      var n := |tasks| - 1;
      TotalMore(turns, x, tasks[..n]);
      CountMore(turns, x, tasks[n]);
      assert tasks == tasks[..n] + [tasks[n]];
    }
  }

  lemma {:induction false} TotalNone(tasks: seq<TaskControlBlock>)
    ensures Total([], tasks) == 0
  {
    if tasks != [] {
      TotalNone(tasks[..|tasks| - 1]);
    }
  }

  /** All turns are somebody's. */
  lemma {:induction false} TotalIs(turns: seq<TaskControlBlock>, tasks: seq<TaskControlBlock>)
    requires NoDup(tasks) && forall t :: t in turns ==> t in tasks
    ensures Total(turns, tasks) == |turns|
  {
    if turns == [] {
      TotalNone(tasks);
    } else {
      var n := |turns| - 1;
      TotalIs(turns[..n], tasks);
      assert turns == turns[..n] + [turns[n]];
      TotalMore(turns[..n], turns[n], tasks);
    }
  }

  lemma {:induction false} TotalBound(turns: seq<TaskControlBlock>, tasks: seq<TaskControlBlock>, d: nat)
    requires forall t :: t in tasks ==> t.priority > 0 && Step(t.priority) > 0 && Count(turns, t) * Step(t.priority) <= d + Step(t.priority)
    ensures Total(turns, tasks) <= Bound(tasks, d)
  {
    if tasks != [] {
      var t := tasks[|tasks| - 1];
      assert t in tasks;
      TotalBound(turns, tasks[..|tasks| - 1], d);
      Quotient(Count(turns, t), Step(t.priority), d);
    }
  }

  lemma Quotient(count: nat, step: nat, d: nat)
    requires step > 0 && count * step <= d + step
    ensures count <= d / step + 1
  {
    TwoMore(count, step, d / step);
    assert d < d / step * step + step;
  }

  lemma TwoMore(count: nat, step: nat, q: nat)
    ensures count >= q + 2 ==> count * step >= q * step + 2 * step
  {
    if count >= q + 2 {
      MulMono(step, q + 2, count);
    }
  }

  /** Bounded wait: with `others` all the runnable tasks but a, task a has yielded itself
      after more than Bound(others) yields; meanwhile each other task b had at most
      d / Step(b) + 1 turns before a ran. */
  method RunsSoon(k: Kernel, n: nat, a: TaskControlBlock, others: seq<TaskControlBlock>)
    returns (ghost turns: seq<TaskControlBlock>)
    requires k.Valid() && k.current != null && Runnable(k, a) && a !in others && NoDup(others)
    requires forall t :: t in others <==> Runnable(k, t) && t != a
    requires forall t :: t in others ==> t.priority > 0 && Step(t.priority) > 0
    modifies k`current, k`floor, k.manager, k.manager.scheduler, k.live`status, k.live`pass, k.live`upass
    ensures k.Valid() && |turns| == n && Charged(k, turns)
    ensures a !in turns ==> forall b :: b in others ==> b.priority > 0 && Count(turns, b) * Step(b.priority) <= k.d + Step(b.priority)
    ensures n > old(Bound(others, k.d)) ==> a in turns
  {
    hide Kernel.Valid;
    InBand(k, a);
    forall b | b in others
      ensures k.floor <= b.upass
    {
      InBand(k, b);
    }
    turns := Yields(k, n);
    if a !in turns {
      InBand(k, a);
      CountOut(turns, a);
      forall b | b in others
        ensures Count(turns, b) * Step(b.priority) <= k.d + Step(b.priority)
      {
      }
      TotalBound(turns, others, k.d);
      TotalIs(turns, others);
    }
  }

  lemma {:induction false} CountOut(turns: seq<TaskControlBlock>, t: TaskControlBlock)
    requires t !in turns
    ensures Count(turns, t) == 0
  {
    if turns != [] {
      CountOut(turns[..|turns| - 1], t);
    }
  }
}
