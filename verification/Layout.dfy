/** The inode's block tree (easy-fs/src/layout.rs): 28 direct slots, one indirect
    block, and a doubly indirect block. Every block the tree owns has a position
    in one canonical order, the order in which growth consumes fresh blocks. */
module Layout {
  import opened Words
  import opened BitmapLayer

  const DIRECT_COUNT: int := 28
  const ENTRIES: int := 128
  const INDIRECT1_BOUND: int := 156
  const INDIRECT2_BOUND: int := 16540
  const MAX_SIZE: int := 16540 * 512
  const MAX_TREE: int := 16670

  datatype InodeView = InodeView(
    id: u32, size: u32, direct: seq<u32>, indirect1: u32, indirect2: u32, nlink: u32, isDir: bool)

  /** The places that hold a block number. */
  datatype Slot =
    | Direct(i: nat)           // inode.direct[i], a data block
    | Ind1                     // inode.indirect1
    | Entry1(i: nat)           // i-th entry of indirect1, a data block
    | Ind2                     // inode.indirect2
    | Sub(a: nat)              // a-th entry of indirect2
    | Entry2(a: nat, b: nat)   // b-th entry of the a-th sub-block, a data block

  predicate ValidSlot(s: Slot)
  {
    match s
    case Direct(i) => i < 28
    case Ind1 => true
    case Entry1(i) => i < 128
    case Ind2 => true
    case Sub(a) => a < 128
    case Entry2(a, b) => a < 128 && b < 128
  }

  /** Canonical position of a slot. */
  function Pos(s: Slot): nat
  {
    match s
    case Direct(i) => i
    case Ind1 => 28
    case Entry1(i) => 29 + i
    case Ind2 => 157
    case Sub(a) => 158 + 129 * a
    case Entry2(a, b) => 159 + 129 * a + b
  }

  function SlotAt(p: nat): Slot
  {
    if p < 28 then Direct(p)
    else if p == 28 then Ind1
    else if p < 157 then Entry1(p - 29)
    else if p == 157 then Ind2
    else if (p - 158) % 129 == 0 then Sub((p - 158) / 129)
    else Entry2((p - 158) / 129, (p - 158) % 129 - 1)
  }

  /** Positions below 16670 and slots correspond one to one. */
  lemma PositionsAreSlots(p: nat, s: Slot)
    ensures p < MAX_TREE ==> ValidSlot(SlotAt(p)) && Pos(SlotAt(p)) == p
    ensures ValidSlot(s) ==> Pos(s) < MAX_TREE && SlotAt(Pos(s)) == s
  {
    if s.Entry2? && ValidSlot(s) {
      assert (Pos(s) - 158) / 129 == s.a;
    }
  }

  predicate IsIndex(p: nat)
  {
    SlotAt(p).Ind1? || SlotAt(p).Ind2? || SlotAt(p).Sub?
  }

  /** The slot of the i-th data block of a file. */
  function DataSlot(i: nat): (s: Slot)
    ensures i < INDIRECT2_BOUND ==> ValidSlot(s) && Pos(s) < MAX_TREE && SlotAt(Pos(s)) == s && !IsIndex(Pos(s))
  {
    var s := if i < 28 then Direct(i)
      else if i < 156 then Entry1(i - 28)
      else Entry2((i - 156) / 128, (i - 156) % 128);
    PositionsAreSlots(0, s);
    s
  }

  /** Data block i is not the first of an index block, so that its slot exists as soon as
      all blocks before it do. */
  predicate HasNeighbour(i: nat)
  {
    i < 28 || 28 < i < 156 || (156 < i < INDIRECT2_BOUND && (i - 156) % 128 != 0)
  }

  function DataPos(i: nat): nat { Pos(DataSlot(i)) }

  function DataBlocks(size: nat): nat { (size + 511) / 512 }

  /** It is the least number of blocks of 512 bytes that hold the size. */
  lemma DataBlocksLeast(size: nat, n: nat)
    ensures size <= 512 * n <==> DataBlocks(size) <= n
  {
  }

  /** Blocks of a tree with n data blocks, index blocks included. */
  function TotalBlocks(n: nat): nat
  {
    n + (if n > 28 then 1 else 0) + (if n > 156 then 1 + (n - 156 + 127) / 128 else 0)
  }

  /** `total_blocks` counts exactly the positions up to the last data block, so the
      closed formula and the canonical order agree. */
  lemma TotalIsLastPosition(n: nat)
    requires 0 < n <= INDIRECT2_BOUND
    ensures TotalBlocks(n) == DataPos(n - 1) + 1 <= MAX_TREE
    ensures TotalBlocks(0) == 0
  {
    var q := n - 157;
    if n > 156 {
      assert (n - 156 + 127) / 128 == q / 128 + 1;
    }
  }

  lemma DataPosMonotone(i: nat, j: nat)
    requires i < j < INDIRECT2_BOUND
    ensures DataPos(i) < DataPos(j)
  {
  }

  lemma TotalMonotone(m: nat, n: nat)
    requires m <= n
    ensures TotalBlocks(m) <= TotalBlocks(n)
  {
  }

  /** Data positions below the total are exactly those of the first n data blocks. */
  lemma DataPosBelowTotal(i: nat, n: nat)
    requires n <= INDIRECT2_BOUND && i < INDIRECT2_BOUND
    ensures DataPos(i) < TotalBlocks(n) <==> i < n
  {
    if n > 0 {
      TotalIsLastPosition(n);
      if i < n - 1 {
        DataPosMonotone(i, n - 1);
      } else if i >= n {
        DataPosMonotone(n - 1, i);
      }
    }
  }

  /** Entry k of the index block numbered blk. */
  function EntryOf(d: seq<Block>, blk: nat, k: nat): u32
  {
    if blk < |d| && k < 128 then U32At(d[blk], k) else 0
  }

  /** The block number held by a slot. */
  function Value(v: InodeView, d: seq<Block>, s: Slot): u32
  {
    match s
    case Direct(i) => if i < |v.direct| then v.direct[i] else 0
    case Ind1 => v.indirect1
    case Entry1(i) => EntryOf(d, v.indirect1, i)
    case Ind2 => v.indirect2
    case Sub(a) => EntryOf(d, v.indirect2, a)
    case Entry2(a, b) => EntryOf(d, EntryOf(d, v.indirect2, a), b)
  }

  function At(v: InodeView, d: seq<Block>, p: nat): u32 { Value(v, d, SlotAt(p)) }

  /** The first t blocks of the tree, in canonical order. */
  function Tree(v: InodeView, d: seq<Block>, t: nat): (r: seq<u32>)
    ensures |r| == t
  {
    seq(t, p requires 0 <= p < t => At(v, d, p))
  }

  /** Block number of the i-th data block. */
  function BlockId(v: InodeView, d: seq<Block>, i: nat): u32 { Value(v, d, DataSlot(i)) }

  predicate Distinct(t: seq<u32>)
  {
    forall i, j :: 0 <= i < |t| && 0 <= j < |t| && t[i] == t[j] ==> i == j
  }

  predicate InRange(t: seq<u32>, n: nat)
  {
    forall i :: 0 <= i < |t| ==> t[i] < n
  }

  /** Slots that live inside an index block, and where that block sits in the order. */
  predicate HasParent(s: Slot) { s.Entry1? || s.Sub? || s.Entry2? }

  function ParentPos(s: Slot): nat
  {
    match s
    case Entry1(_) => 28
    case Sub(_) => 157
    case Entry2(a, _) => 158 + 129 * a
    case _ => 0
  }

  function EntryIndex(s: Slot): nat
  {
    match s
    case Entry1(i) => i
    case Sub(a) => a
    case Entry2(_, b) => b
    case _ => 0
  }

  /** With t positions filled, slot p exists: its index block, if it lies in one, is there. */
  predicate HasPlace(p: nat, t: nat)
  {
    p < MAX_TREE && (HasParent(SlotAt(p)) ==> ParentPos(SlotAt(p)) < t)
  }

  lemma ParentFirst(v: InodeView, d: seq<Block>, p: nat)
    requires p < MAX_TREE && HasParent(SlotAt(p))
    ensures ParentPos(SlotAt(p)) < p && IsIndex(ParentPos(SlotAt(p))) && EntryIndex(SlotAt(p)) < 128
    ensures At(v, d, p) == EntryOf(d, At(v, d, ParentPos(SlotAt(p))), EntryIndex(SlotAt(p)))
  {
    PositionsAreSlots(p, Ind1);
  }

  /** Writing x into a slot: an inode field, or one entry of an index block. */
  function SetSlot(v: InodeView, d: seq<Block>, s: Slot, x: u32): (r: (InodeView, seq<Block>))
    ensures |r.1| == |d|
  {
    match s
    case Direct(i) => (if i < |v.direct| then v.(direct := v.direct[i := x]) else v, d)
    case Ind1 => (v.(indirect1 := x), d)
    case Ind2 => (v.(indirect2 := x), d)
    case _ => (v, SetEntry(d, At(v, d, ParentPos(s)), EntryIndex(s), x))
  }

  function SetEntry(d: seq<Block>, blk: nat, k: nat, x: u32): (r: seq<Block>)
    ensures |r| == |d|
    ensures forall b :: 0 <= b < |d| && b != blk ==> r[b] == d[b]
  {
    if blk < |d| && k < 128 then d[blk := PutU32s(d[blk], k, [x])] else d
  }

  /** Filling the next slot in canonical order leaves every earlier slot alone. */
  lemma {:induction false} FillKeepsAt(v: InodeView, d: seq<Block>, m: nat, x: u32, p: nat)
    requires p < m < MAX_TREE && |v.direct| == 28
    requires Distinct(Tree(v, d, m)) && InRange(Tree(v, d, m), |d|)
    ensures var (v', d') := SetSlot(v, d, SlotAt(m), x); At(v', d', p) == At(v, d, p)
  {
    PositionsAreSlots(p, Ind1);
    PositionsAreSlots(m, Ind1);
    var s, sp := SlotAt(m), SlotAt(p);
    if HasParent(sp) {
      var (v', d') := SetSlot(v, d, s, x);
      ParentFirst(v, d, p);
      ParentFirst(v', d', p);
      FillKeepsAt(v, d, m, x, ParentPos(sp));
      if HasParent(s) {
        ParentFirst(v, d, m);
        var t := Tree(v, d, m);
        assert t[ParentPos(s)] == At(v, d, ParentPos(s)) && t[ParentPos(sp)] == At(v, d, ParentPos(sp));
        if ParentPos(s) == ParentPos(sp) {
          PutU32sAt(d[t[ParentPos(s)]], EntryIndex(s), [x], EntryIndex(sp));
        }
      }
    }
  }

  lemma TreeInRange(v: InodeView, d: seq<Block>, m: nat, q: nat)
    requires q < m && InRange(Tree(v, d, m), |d|)
    ensures At(v, d, q) < |d|
  {
    assert Tree(v, d, m)[q] == At(v, d, q);
  }

  lemma FillNext(v: InodeView, d: seq<Block>, m: nat, x: u32)
    requires m < MAX_TREE && |v.direct| == 28
    requires Distinct(Tree(v, d, m)) && InRange(Tree(v, d, m), |d|)
    ensures var (v', d') := SetSlot(v, d, SlotAt(m), x);
            Tree(v', d', m + 1) == Tree(v, d, m) + [x]
  {
    hide U32At, PutU32s, Distinct, InRange;
    var (v', d') := SetSlot(v, d, SlotAt(m), x);
    forall p | 0 <= p < m
      ensures At(v', d', p) == At(v, d, p)
    {
      FillKeepsAt(v, d, m, x, p);
    }
    var s := SlotAt(m);
    PositionsAreSlots(m, s);
    if HasParent(s) {
      ParentFirst(v, d, m);
      ParentFirst(v', d', m);
      var q := ParentPos(s);
      assert Tree(v, d, m)[q] == At(v, d, q);
      TreeInRange(v, d, m, q);
      PutU32sAt(d[At(v, d, q)], EntryIndex(s), [x], EntryIndex(s));
    }
    assert At(v', d', m) == x;
  }

  /** A tree depends only on the inode and on its own index blocks. */
  lemma {:induction false} AtFrame(v: InodeView, d: seq<Block>, d': seq<Block>, t: nat, p: nat)
    requires p < t <= MAX_TREE && |d| == |d'|
    requires forall q :: 0 <= q < t && IsIndex(q) && At(v, d, q) < |d| ==> d'[At(v, d, q)] == d[At(v, d, q)]
    ensures At(v, d', p) == At(v, d, p)
  {
    if HasParent(SlotAt(p)) {
      ParentFirst(v, d, p);
      ParentFirst(v, d', p);
      AtFrame(v, d, d', t, ParentPos(SlotAt(p)));
    }
  }

  lemma TreeFrame(v: InodeView, d: seq<Block>, d': seq<Block>, t: nat)
    requires t <= MAX_TREE && |d| == |d'|
    requires forall q :: 0 <= q < t && IsIndex(q) && At(v, d, q) < |d| ==> d'[At(v, d, q)] == d[At(v, d, q)]
    ensures Tree(v, d', t) == Tree(v, d, t)
  {
    forall p | 0 <= p < t
      ensures At(v, d', p) == At(v, d, p)
    {
      AtFrame(v, d, d', t, p);
    }
  }
}
