/** The order of wrapping passes and the stride scheduler's queue
    (os/src/task/scheduler.rs). */
module Strides {
  import opened Words
  import opened Sets

  const BIG_STRIDE: int := TWO64 - 1
  const HALF: int := BIG_STRIDE / 2

  datatype Ordering = Less | Equal | Greater

  function Reverse(o: Ordering): Ordering
  {
    match o
    case Less => Greater
    case Equal => Equal
    case Greater => Less
  }

  function CompareInt(a: int, b: int): Ordering { if a < b then Less else if a == b then Equal else Greater }

  datatype Stride = Stride(id: nat, pass: u64)
  {
    function AbsDiff(other: Stride): u64
    {
      if pass < other.pass then other.pass - pass else pass - other.pass
    }

    /** `Ord::cmp` */
    function Cmp(other: Stride): Ordering { Reverse(CompareInt(pass, other.pass)) }

    /** `PartialOrd::partial_cmp`: the nearer way round decides. */
    function PartialCmp(other: Stride): Ordering
    {
      if AbsDiff(other) <= BIG_STRIDE / 2 then Cmp(other) else Reverse(Cmp(other))
    }
  }

  function Wrap(a: int): u64 { a % TWO64 }

  /** How far p is ahead of m, going up with wrap-around. */
  function Ahead(m: u64, p: u64): u64 { (p - m) % TWO64 }

  lemma AheadOfWrapped(m: nat, p: nat)
    requires m <= p < m + TWO64
    ensures Ahead(Wrap(m), Wrap(p)) == p - m
  {
    var qm, qp := m / TWO64, p / TWO64;
    assert m == qm * TWO64 + Wrap(m) && p == qp * TWO64 + Wrap(p);
    assert p - m == (qp - qm) * TWO64 + (Wrap(p) - Wrap(m));
    assert qp - qm == 0 || qp - qm == 1;
  }

  /** Inside a window of half the range the comparison is the one by distance from its
      lower end, so there it is a total order and a smaller pass is greater. */
  lemma ByDistance(m: u64, a: Stride, b: Stride)
    requires Ahead(m, a.pass) <= HALF && Ahead(m, b.pass) <= HALF
    ensures a.PartialCmp(b) == Reverse(CompareInt(Ahead(m, a.pass), Ahead(m, b.pass)))
  {
    AheadIs(m, a.pass);
    AheadIs(m, b.pass);
  }

  lemma AheadIs(m: u64, p: u64)
    ensures Ahead(m, p) == if p >= m then p - m else p - m + TWO64
  {
  }

  /** Against the unbounded passes the wrapped comparison is right exactly when they are
      no further apart than HALF; the one lucky case is a difference of 2^63 whose larger
      pass has the smaller image. */
  lemma WrappedOrder(x: nat, y: nat, i: nat, j: nat)
    requires x <= y < x + TWO64
    ensures Stride(i, Wrap(x)).PartialCmp(Stride(j, Wrap(y))) == Reverse(CompareInt(x, y)) <==>
      y - x <= HALF || (y - x == HALF + 1 && Wrap(y) < Wrap(x))
    ensures Stride(j, Wrap(y)).PartialCmp(Stride(i, Wrap(x))) == Reverse(CompareInt(y, x)) <==>
      y - x <= HALF || (y - x == HALF + 1 && Wrap(y) < Wrap(x))
  {
    AheadOfWrapped(x, y);
    AheadIs(Wrap(x), Wrap(y));
  }

  /** Passes 0 and 2^63 compare the wrong way round. */
  lemma TooFarApart()
    ensures Stride(0, 0).PartialCmp(Stride(1, Wrap(HALF + 1))) != Reverse(CompareInt(0, HALF + 1))
  {
  }

  /** All passes lie within half the range above m. */
  ghost predicate Spread(queue: seq<Stride>, m: u64)
  {
    forall i :: 0 <= i < |queue| ==> Ahead(m, queue[i].pass) <= HALF
  }

  /** What `BinaryHeap::pop` may return: an element nothing is greater than. */
  predicate Maximal(queue: seq<Stride>, k: nat)
    requires k < |queue|
  {
    forall j :: 0 <= j < |queue| ==> queue[j].PartialCmp(queue[k]) != Greater
  }

  /** Within such a window the maximal elements are those of least pass, and there is one. */
  lemma {:induction false} MaximalIsLeast(queue: seq<Stride>, m: u64)
    requires Spread(queue, m) && queue != []
    ensures forall k: nat :: k < |queue| ==>
      (Maximal(queue, k) <==> forall j :: 0 <= j < |queue| ==> Ahead(m, queue[k].pass) <= Ahead(m, queue[j].pass))
    ensures exists k: nat :: k < |queue| && Maximal(queue, k)
  {
    forall k: nat | k < |queue|
      ensures Maximal(queue, k) <==> forall j :: 0 <= j < |queue| ==> Ahead(m, queue[k].pass) <= Ahead(m, queue[j].pass)
    {
      forall j | 0 <= j < |queue|
        ensures queue[j].PartialCmp(queue[k]) != Greater <==> Ahead(m, queue[k].pass) <= Ahead(m, queue[j].pass)
      {
        ByDistance(m, queue[j], queue[k]);
      }
    }
    var k := Least(queue, m, |queue|);
    assert Maximal(queue, k);
  }

  lemma {:induction false} Least(queue: seq<Stride>, m: u64, n: nat) returns (k: nat)
    requires 0 < n <= |queue|
    ensures k < n && forall j :: 0 <= j < n ==> Ahead(m, queue[k].pass) <= Ahead(m, queue[j].pass)
  {
    if n == 1 {
      k := 0;
    } else {
      k := Least(queue, m, n - 1);
      if Ahead(m, queue[n - 1].pass) < Ahead(m, queue[k].pass) {
        k := n - 1;
      }
    }
  }

  ghost function Ids(queue: seq<Stride>): set<nat> { set s | s in queue :: s.id }

  ghost predicate Unique(queue: seq<Stride>)
  {
    forall i, j :: 0 <= i < j < |queue| ==> queue[i].id != queue[j].id
  }

  lemma RemovedIs(queue: seq<Stride>, k: nat)
    requires k < |queue| && Unique(queue)
    ensures Unique(Remaining(queue, k)) && Ids(Remaining(queue, k)) == Ids(queue) - {queue[k].id}
    ensures forall s :: s in Remaining(queue, k) <==> s in queue && s != queue[k]
  {
    var rest := Remaining(queue, k);
    forall s | s in rest
      ensures s in queue && s.id != queue[k].id
    {
      var i :| 0 <= i < |rest| && rest[i] == s;
      assert s == queue[if i < k then i else i + 1];
    }
    forall s | s in queue && s != queue[k]
      ensures s in rest
    {
      var i :| 0 <= i < |queue| && queue[i] == s;
      assert s == rest[if i < k then i else i - 1];
    }
    forall id | id in Ids(queue) && id != queue[k].id
      ensures id in Ids(rest)
    {
      var s :| s in queue && s.id == id;
      assert s in rest;
    }
  }

  /** Element s left the queue, and no pass in it was less. */
  ghost predicate Popped(was: seq<Stride>, now: seq<Stride>, s: Stride, m: u64)
  {
    && (forall r :: r in was ==> Ahead(m, s.pass) <= Ahead(m, r.pass))
    && (forall r :: r in now <==> r in was && r != s)
  }

  class StrideScheduler {
    var queue: seq<Stride>

    constructor ()
      ensures queue == []
    {
      queue := [];
    }

    method InsertTask(id: nat, pass: u64)
      modifies this
      ensures queue == old(queue) + [Stride(id, pass)]
    {
      queue := queue + [Stride(id, pass)];
    }

    /** Takes any maximal element; with all passes in one window that is a least pass. */
    method FindNextTask(ghost m: u64) returns (next: Option<nat>)
      requires Spread(queue, m) && Unique(queue)
      modifies this
      ensures next == None <==> old(queue) == []
      ensures next == None ==> queue == []
      ensures next.Some? ==> exists s :: s in old(queue) && s.id == next.value && Popped(old(queue), queue, s, m)
      ensures next.Some? ==> Ids(queue) == Ids(old(queue)) - {next.value} && Unique(queue) && |queue| < |old(queue)|
    {
      if queue == [] {
        return None;
      }
      MaximalIsLeast(queue, m);
      var k: nat :| k < |queue| && Maximal(queue, k);
      RemovedIs(queue, k);
      next := Some(queue[k].id);
      assert queue[k] in queue;
      queue := Remaining(queue, k);
    }
  }
}
