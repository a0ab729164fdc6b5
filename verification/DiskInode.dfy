/** The in-memory DiskInode: growing, tearing down and looking up its block tree
    (easy-fs/src/layout.rs:68-301). */
module DiskInodes {
  import opened Words
  import opened BitmapLayer
  import opened Layout

  /** The first m canonical positions hold full[..m]; only the index blocks among
      `full` may differ from d0, and only in entries up to there. */
  ghost predicate Filled(v: InodeView, d0: seq<Block>, d: seq<Block>, full: seq<u32>, m: nat)
  {
    && |v.direct| == 28 && |d| == |d0|
    && m <= |full| <= MAX_TREE
    && Tree(v, d, m) == full[..m]
    && (forall k :: 0 <= k < |d| && !IndexBlockOf(full, k) ==> d[k] == d0[k])
    && UnfilledKept(d0, d, full, m)
  }

  /** The entry that slot p has in the index blocks among `full`. */
  function EntryAt(d: seq<Block>, full: seq<u32>, p: nat): u32
  {
    if ParentPos(SlotAt(p)) < |full| then EntryOf(d, full[ParentPos(SlotAt(p))], EntryIndex(SlotAt(p))) else 0
  }

  /** From slot m on the entries are as they were. */
  ghost predicate UnfilledKept(d0: seq<Block>, d: seq<Block>, full: seq<u32>, m: nat)
  {
    forall p :: m <= p < MAX_TREE && HasParent(SlotAt(p)) ==> EntryAt(d, full, p) == EntryAt(d0, full, p)
  }

  /** Filling slot m keeps the entries of the slots after it. */
  lemma EntryStep(v: InodeView, d: seq<Block>, full: seq<u32>, m: nat, p: nat)
    requires m < p < MAX_TREE && HasParent(SlotAt(p)) && m < |full| <= MAX_TREE && |v.direct| == 28
    requires Distinct(full) && InRange(full, |d|) && Tree(v, d, m) == full[..m]
    ensures EntryAt(SetSlot(v, d, SlotAt(m), full[m]).1, full, p) == EntryAt(d, full, p)
  {
    hide U32At, PutU32s;
    var s, sp := SlotAt(m), SlotAt(p);
    PositionsAreSlots(m, s);
    PositionsAreSlots(p, sp);
    if HasParent(s) && ParentPos(sp) < |full| {
      ParentFirst(v, d, m);
      ParentFirst(v, d, p);
      assert Tree(v, d, m)[ParentPos(s)] == full[ParentPos(s)];
      if full[ParentPos(s)] == full[ParentPos(sp)] {
        PutU32sAt(d[full[ParentPos(s)]], EntryIndex(s), [full[m]], EntryIndex(sp));
      }
    }
  }

  /** k sits at an index position of the block list. */
  ghost predicate IndexBlockOf(full: seq<u32>, k: nat)
  {
    exists p :: 0 <= p < |full| && IsIndex(p) && full[p] == k
  }

  /** One fresh block goes into the next slot. */
  lemma FilledStep(v: InodeView, d0: seq<Block>, d: seq<Block>, full: seq<u32>, m: nat)
    requires Filled(v, d0, d, full, m) && m < |full|
    requires Distinct(full) && InRange(full, |d|)
    ensures var (v', d') := SetSlot(v, d, SlotAt(m), full[m]); Filled(v', d0, d', full, m + 1)
  {
    hide Distinct, InRange, At, SetSlot, EntryAt, HasParent, SlotAt;
    PrefixDistinct(full, m, |d|);
    FillNext(v, d, m, full[m]);
    var (v', d') := SetSlot(v, d, SlotAt(m), full[m]);
    assert Tree(v', d', m + 1) == full[..m + 1];
    SetSlotFrame(v, d, full, m);
    forall p | m + 1 <= p < MAX_TREE && HasParent(SlotAt(p))
      ensures EntryAt(d', full, p) == EntryAt(d0, full, p)
    {
      EntryStep(v, d, full, m, p);
    }
  }

  lemma PrefixDistinct(full: seq<u32>, m: nat, n: nat)
    requires m <= |full| && Distinct(full) && InRange(full, n)
    ensures Distinct(full[..m]) && InRange(full[..m], n)
  {
  }

  /** Filling slot m touches at most the index block that holds the slot. */
  lemma SetSlotFrame(v: InodeView, d: seq<Block>, full: seq<u32>, m: nat)
    requires m < |full| <= MAX_TREE && |v.direct| == 28 && Tree(v, d, m) == full[..m]
    ensures var (v', d') := SetSlot(v, d, SlotAt(m), full[m]);
      |v'.direct| == 28 && |d'| == |d| &&
      forall k :: 0 <= k < |d| && !IndexBlockOf(full, k) ==> d'[k] == d[k]
  {
    var s := SlotAt(m);
    if HasParent(s) {
      ParentFirst(v, d, m);
      assert Tree(v, d, m)[ParentPos(s)] == full[ParentPos(s)];
      assert IndexBlockOf(full, At(v, d, ParentPos(s)));
    }
  }

  /** The assignments of the growth loops, one per kind of slot. */
  lemma FillDirect(v: InodeView, d0: seq<Block>, d: seq<Block>, full: seq<u32>, i: nat)
    requires i < 28 && Filled(v, d0, d, full, i) && i < |full| && Distinct(full) && InRange(full, |d|)
    ensures Filled(v.(direct := v.direct[i := full[i]]), d0, d, full, i + 1)
  {
    FilledStep(v, d0, d, full, i);
  }

  lemma FillInd1(v: InodeView, d0: seq<Block>, d: seq<Block>, full: seq<u32>)
    requires Filled(v, d0, d, full, 28) && 28 < |full| && Distinct(full) && InRange(full, |d|)
    ensures Filled(v.(indirect1 := full[28]), d0, d, full, 29)
  {
    FilledStep(v, d0, d, full, 28);
  }

  lemma FillEntry1(v: InodeView, d0: seq<Block>, d: seq<Block>, full: seq<u32>, i: nat)
    requires i < 128 && Filled(v, d0, d, full, 29 + i) && 29 + i < |full| && Distinct(full) && InRange(full, |d|)
    ensures v.indirect1 < |d| && Filled(v, d0, SetEntry(d, v.indirect1, i, full[29 + i]), full, 30 + i)
  {
    FilledStep(v, d0, d, full, 29 + i);
    FilledAt(v, d0, d, full, 29 + i, 28);
  }

  lemma FillInd2(v: InodeView, d0: seq<Block>, d: seq<Block>, full: seq<u32>)
    requires Filled(v, d0, d, full, 157) && 157 < |full| && Distinct(full) && InRange(full, |d|)
    ensures Filled(v.(indirect2 := full[157]), d0, d, full, 158)
  {
    FilledStep(v, d0, d, full, 157);
  }

  lemma FillSub(v: InodeView, d0: seq<Block>, d: seq<Block>, full: seq<u32>, a: nat)
    requires var m := 158 + 129 * a;
      a < 128 && Filled(v, d0, d, full, m) && m < |full| && Distinct(full) && InRange(full, |d|)
    ensures var m := 158 + 129 * a;
      v.indirect2 < |d| && Filled(v, d0, SetEntry(d, v.indirect2, a, full[m]), full, m + 1)
  {
    hide Filled, Distinct, InRange, Tree;
    var m := 158 + 129 * a;
    FilledStep(v, d0, d, full, m);
    FilledAt(v, d0, d, full, m, 157);
    PositionsAreSlots(m, Sub(a));
  }

  lemma FillEntry2(v: InodeView, d0: seq<Block>, d: seq<Block>, full: seq<u32>, a: nat, b: nat)
    requires var m := 159 + 129 * a + b;
      a < 128 && b < 128 && Filled(v, d0, d, full, m) && m < |full| && Distinct(full) && InRange(full, |d|)
    ensures var m := 159 + 129 * a + b;
      v.indirect2 < |d| && U32At(d[v.indirect2], a) < |d| &&
      Filled(v, d0, SetEntry(d, U32At(d[v.indirect2], a), b, full[m]), full, m + 1)
  {
    hide Filled, Distinct, InRange, Tree, SetEntry, PutU32s, DataSlot;
    var m := 159 + 129 * a + b;
    FilledStep(v, d0, d, full, m);
    FilledAt(v, d0, d, full, m, 157);
    FilledAt(v, d0, d, full, m, 158 + 129 * a);
    PositionsAreSlots(m, Entry2(a, b));
    PositionsAreSlots(158 + 129 * a, Sub(a));
  }

  class DiskInode {
    var inode_id: u32
    var size: u32
    var direct: seq<u32>
    var indirect1: u32
    var indirect2: u32
    var nlink: u32
    var isDir: bool

    function View(): InodeView
      reads this
    {
      InodeView(inode_id, size, direct, indirect1, indirect2, nlink, isDir)
    }

    /** The memory view of an inode that lies in a cached block. */
    constructor (v: InodeView)
      ensures View() == v
    {
      inode_id, size, direct := v.id, v.size, v.direct;
      indirect1, indirect2, nlink, isDir := v.indirect1, v.indirect2, v.nlink, v.isDir;
    }

    method Initialize(id: u32, dir: bool)
      modifies this
      ensures View() == InodeView(id, 0, seq(28, _ => 0), 0, 0, 1, dir)
    {
      inode_id, size, direct := id, 0, seq(28, _ => 0);
      indirect1, indirect2, nlink, isDir := 0, 0, 1, dir;
    }

    /** Block number of data block i. The source panics past the last block. */
    method GetBlockId(i: nat, disk: Disk) returns (id: u32)
      requires |direct| == 28 && i < INDIRECT2_BOUND
      requires i >= 28 ==> (if i < 156 then indirect1 else indirect2) < |disk.blocks|
      requires i >= 156 ==> U32At(disk.blocks[indirect2], (i - 156) / 128) < |disk.blocks|
      ensures id == BlockId(View(), disk.blocks, i)
      ensures id == if i < 28 then direct[i] else if i < 156 then U32At(disk.blocks[indirect1], i - 28)
        else U32At(disk.blocks[U32At(disk.blocks[indirect2], (i - 156) / 128)], (i - 156) % 128)
    {
      if i < DIRECT_COUNT {
        id := direct[i];
      } else if i < INDIRECT1_BOUND {
        id := U32At(disk.blocks[indirect1], i - DIRECT_COUNT);
      } else {
        var last := i - INDIRECT1_BOUND;
        var ind1 := U32At(disk.blocks[indirect2], last / ENTRIES);
        id := U32At(disk.blocks[ind1], last % ENTRIES);
      }
    }

    /** Grows the tree: the fresh blocks are appended, in order, to the canonical
        block list, and nothing outside the tree's index blocks is written. */
    method IncreaseSize(newSize: u32, newBlocks: seq<u32>, disk: Disk)
      requires |direct| == 28 && size <= newSize <= MAX_SIZE
      requires |newBlocks| == TotalBlocks(DataBlocks(newSize)) - TotalBlocks(DataBlocks(size))
      requires var full := Tree(View(), disk.blocks, TotalBlocks(DataBlocks(size))) + newBlocks;
        Distinct(full) && InRange(full, |disk.blocks|)
      modifies this, disk
      ensures var full := old(Tree(View(), disk.blocks, TotalBlocks(DataBlocks(size)))) + newBlocks;
        Filled(View(), old(disk.blocks), disk.blocks, full, |full|)
      ensures size == newSize && inode_id == old(inode_id) && nlink == old(nlink) && isDir == old(isDir)
      ensures forall j :: DataBlocks(newSize) <= j < 28 ==> direct[j] == old(direct)[j]
      ensures DataBlocks(newSize) <= 28 ==> indirect1 == old(indirect1)
      ensures DataBlocks(newSize) <= 156 ==> indirect2 == old(indirect2)
    {
      hide Filled, Tree, Distinct, InRange, TotalBlocks, DataBlocks, Sub2Total;
      ghost var d0 := disk.blocks;
      ghost var n0, n1 := DataBlocks(size), DataBlocks(newSize);
      ghost var t0 := TotalBlocks(n0);
      ghost var full := Tree(View(), d0, t0) + newBlocks;
      SizeBounds(size, newSize);
      FilledStart(View(), d0, newBlocks, newSize, t0);

      var current := DataBlocks(size);
      size := newSize;
      var total := DataBlocks(size);
      var next;
      current, next := FillDirectSlots(current, total, newBlocks, disk, d0, full);
      // alloc indirect1
      if total <= DIRECT_COUNT {
        return;
      }
      if current == DIRECT_COUNT {
        FillInd1(View(), d0, disk.blocks, full);
        indirect1 := newBlocks[next];
        next := next + 1;
      }
      current := current - DIRECT_COUNT;
      total := total - DIRECT_COUNT;
      current, next := FillIndirect1(current, total, newBlocks, next, disk, d0, full);
      // alloc indirect2
      if total <= ENTRIES {
        return;
      }
      if current == ENTRIES {
        FillInd2(View(), d0, disk.blocks, full);
        indirect2 := newBlocks[next];
        next := next + 1;
      }
      current := current - ENTRIES;
      total := total - ENTRIES;
      FillIndirect2(current, total, newBlocks, next, disk, d0, full);
    }

    /** The first stage of growth: the direct slots. */
    method FillDirectSlots(current: nat, total: nat, newBlocks: seq<u32>, disk: Disk,
        ghost d0: seq<Block>, ghost full: seq<u32>)
      returns (cur: nat, next: nat)
      requires |newBlocks| <= |full|
      requires full[|full| - |newBlocks|..] == newBlocks
      requires current < 28 ==> |full| - |newBlocks| == current
      requires |full| >= if total < 28 then total else 28
      requires Distinct(full) && InRange(full, |d0|)
      requires disk.blocks == d0 && Filled(View(), d0, d0, full, |full| - |newBlocks|)
      modifies this`direct
      ensures cur == if current < total && current < 28 then (if total < 28 then total else 28) else current
      ensures next == cur - current <= |newBlocks|
      ensures Filled(View(), d0, d0, full, |full| - |newBlocks| + next)
      ensures |direct| == 28 && forall j :: cur <= j < 28 ==> direct[j] == old(direct)[j]
    {
      hide Filled, Tree, Distinct, InRange;
      FilledShape(View(), d0, d0, full, |full| - |newBlocks|);
      cur, next := current, 0;
      while cur < (if total < DIRECT_COUNT then total else DIRECT_COUNT)
        invariant next == cur - current
        invariant current <= cur && (cur > current ==> cur <= total && cur <= 28)
        invariant |direct| == 28 && Filled(View(), d0, d0, full, |full| - |newBlocks| + next)
        invariant forall j :: cur <= j < 28 ==> direct[j] == old(direct)[j]
      {
        FillDirect(View(), d0, d0, full, cur);
        direct := direct[cur := newBlocks[next]];
        next := next + 1;
        cur := cur + 1;
      }
    }

    /** The middle stage of growth: entries of indirect1. */
    method FillIndirect1(current: nat, total: nat, newBlocks: seq<u32>, first: nat, disk: Disk,
        ghost d0: seq<Block>, ghost full: seq<u32>)
      returns (cur: nat, next: nat)
      requires first <= |newBlocks| <= |full|
      requires full[|full| - |newBlocks|..] == newBlocks
      requires current < 128 ==> |full| - |newBlocks| + first == 29 + current
      requires |full| >= 29 + (if total < 128 then total else 128)
      requires Distinct(full) && InRange(full, |d0|)
      requires Filled(View(), d0, disk.blocks, full, |full| - |newBlocks| + first)
      modifies disk
      ensures cur == if current < total && current < 128 then (if total < 128 then total else 128) else current
      ensures next == first + cur - current <= |newBlocks|
      ensures |disk.blocks| == |d0| && Filled(View(), d0, disk.blocks, full, |full| - |newBlocks| + next)
    {
      hide Filled, Tree, Distinct, InRange, SetEntry, U32At;
      FilledShape(View(), d0, disk.blocks, full, |full| - |newBlocks| + first);
      ghost var t0 := |full| - |newBlocks|;
      cur, next := current, first;
      while cur < (if total < ENTRIES then total else ENTRIES)
        invariant next == first + cur - current
        invariant current <= cur && (cur > current ==> cur <= total && cur <= 128)
        invariant |disk.blocks| == |d0| && Filled(View(), d0, disk.blocks, full, t0 + next)
      {
        FillEntry1(View(), d0, disk.blocks, full, cur);
        disk.blocks := SetEntry(disk.blocks, indirect1, cur, newBlocks[next]);
        next := next + 1;
        cur := cur + 1;
      }
    }

    /** The last stage of growth, from entry (a0, b0) up to (a1, b1). */
    method FillIndirect2(current: nat, total: nat, newBlocks: seq<u32>, first: nat, disk: Disk,
        ghost d0: seq<Block>, ghost full: seq<u32>)
      requires current <= total <= 128 * 128
      requires first <= |newBlocks| <= |full| == Sub2Total(total)
      requires full[|full| - |newBlocks|..] == newBlocks
      requires |full| - |newBlocks| + first == Sub2Total(current)
      requires Distinct(full) && InRange(full, |d0|)
      requires Filled(View(), d0, disk.blocks, full, Sub2Total(current))
      modifies disk
      ensures Filled(View(), d0, disk.blocks, full, |full|)
    {
      hide Filled, Tree, Distinct, InRange, SetEntry, U32At;
      FilledShape(View(), d0, disk.blocks, full, Sub2Total(current));
      ghost var t0 := |full| - |newBlocks|;
      var next := first;
      var a0, b0 := current / ENTRIES, current % ENTRIES;
      var a1, b1 := total / ENTRIES, total % ENTRIES;
      while a0 < a1 || (a0 == a1 && b0 < b1)
        invariant 0 <= a0 && 0 <= b0 < 128
        invariant a0 * 128 + b0 <= a1 * 128 + b1
        invariant t0 + next == 158 + 129 * a0 + (if b0 == 0 then 0 else b0 + 1)
        invariant |disk.blocks| == |d0| && Filled(View(), d0, disk.blocks, full, t0 + next)
        decreases total - (a0 * 128 + b0)
      {
        if b0 == 0 {
          FillSub(View(), d0, disk.blocks, full, a0);
          disk.blocks := SetEntry(disk.blocks, indirect2, a0, newBlocks[next]);
          next := next + 1;
        }
        FillEntry2(View(), d0, disk.blocks, full, a0, b0);
        disk.blocks := SetEntry(disk.blocks, U32At(disk.blocks[indirect2], a0), b0, newBlocks[next]);
        next := next + 1;
        b0 := b0 + 1;
        if b0 == ENTRIES {
          b0 := 0;
          a0 := a0 + 1;
        }
      }
    }

    /** Empties the inode and returns every block of its tree in canonical order.
        The source panics if an index block number is off the device. */
    method ClearSize(disk: Disk) returns (v: seq<u32>)
      requires |direct| == 28 && size <= MAX_SIZE
      requires InRange(Tree(View(), disk.blocks, TotalBlocks(DataBlocks(size))), |disk.blocks|)
      modifies this
      ensures v == old(Tree(View(), disk.blocks, TotalBlocks(DataBlocks(size))))
      ensures View() == Cleared(old(View()))
    {
      hide Tree, InRange, TotalBlocks, DataBlocks, Sub2Total, ZeroPrefix, At, IndexEntries;
      ghost var v0, d := View(), disk.blocks;
      ghost var tree := Tree(v0, d, TotalBlocks(DataBlocks(size)));
      SizeBounds(size, size);
      var n := DataBlocks(size);
      size := 0;
      ClearAll(direct, n);
      v := ClearDirect(if n < DIRECT_COUNT then n else DIRECT_COUNT);
      TreeDirect(v0, d, |tree|, |v|);
      // indirect1 block
      if n <= DIRECT_COUNT {
        return;
      }
      TreeAt(v0, d, |tree|, Ind1);
      v := v + [indirect1];
      n := n - DIRECT_COUNT;
      // indirect1
      var take := if n < ENTRIES then n else ENTRIES;
      v := CollectEntries(v, indirect1, take, disk);
      TreeEntries(v0, d, |tree|, 29, Entry1(0), take);
      indirect1 := 0;
      // indirect2 block
      if n <= ENTRIES {
        return;
      }
      TreeAt(v0, d, |tree|, Ind2);
      v := v + [indirect2];
      n := n - ENTRIES;
      SubsOf(n, |tree|);
      v := CollectSubs(v, indirect2, n / ENTRIES, n % ENTRIES, disk, v0, tree);
      indirect2 := 0;
    }

    method ClearDirect(take: nat) returns (v: seq<u32>)
      requires |direct| == 28 && take <= 28
      modifies this`direct
      ensures v == old(direct)[..take]
      ensures direct == ZeroPrefix(old(direct), take)
    {
      v := [];
      var current := 0;
      while current < take
        invariant 0 <= current <= take
        invariant direct == ZeroPrefix(old(direct), current)
        invariant v == old(direct)[..current]
      {
        v := v + [direct[current]];
        direct := direct[current := 0];
        current := current + 1;
      }
    }
  }

  /** The first n entries of an index block. */
  function IndexEntries(d: seq<Block>, blk: nat, n: nat): seq<u32>
    requires blk < |d| && n <= 128
  {
    seq(n, k requires 0 <= k < n => U32At(d[blk], k))
  }

  /** Pushes the first `take` entries of an index block. */
  method CollectEntries(v: seq<u32>, blk: nat, take: nat, disk: Disk) returns (r: seq<u32>)
    requires blk < |disk.blocks| && take <= 128
    ensures r == v + IndexEntries(disk.blocks, blk, take)
  {
    r := v;
    var b := 0;
    while b < take
      invariant 0 <= b <= take
      invariant r == v + IndexEntries(disk.blocks, blk, b)
    {
      r := r + [U32At(disk.blocks[blk], b)];
      b := b + 1;
    }
  }

  /** Pushes the a1 full sub-blocks and the first b1 entries of the next, each
      sub-block before its entries. */
  method CollectSubs(v: seq<u32>, indirect2: u32, a1: nat, b1: nat, disk: Disk, ghost v0: InodeView,
      ghost tree: seq<u32>)
    returns (r: seq<u32>)
    requires a1 <= 128 && b1 < 128
    requires tree == Tree(v0, disk.blocks, |tree|) && InRange(tree, |disk.blocks|)
    requires |tree| <= MAX_TREE && |tree| == 158 + 129 * a1 + (if b1 == 0 then 0 else b1 + 1)
    requires v == tree[..158]
    requires |v0.direct| == 28 && v0.indirect2 == indirect2
    ensures r == tree
  {
    hide Tree, InRange, At, IndexEntries;
    r := v;
    var a := 0;
    while a < a1 || (a == a1 && b1 > 0)
      invariant 0 <= a <= (if b1 > 0 then a1 + 1 else a1)
      invariant r == if a <= a1 then tree[..158 + 129 * a] else tree
      decreases a1 + 1 - a
    {
      var take := if a < a1 then ENTRIES else b1;
      TreeAt(v0, disk.blocks, |tree|, Sub(a));
      TreeEntries(v0, disk.blocks, |tree|, 159 + 129 * a, Entry2(a, 0), take);
      var sub := U32At(disk.blocks[indirect2], a);
      r := CollectEntries(r + [sub], sub, take, disk);
      a := a + 1;
    }
  }

  /** The direct slots come first in the tree. */
  lemma TreeDirect(v: InodeView, d: seq<Block>, t: nat, n: nat)
    requires n <= 28 && n <= t <= MAX_TREE && |v.direct| == 28
    ensures Tree(v, d, t)[..n] == v.direct[..n]
  {
  }

  /** A run of data slots inside one index block is a run of the tree. */
  lemma TreeEntries(v: InodeView, d: seq<Block>, t: nat, p: nat, s: Slot, n: nat)
    requires s == Entry1(0) || (s.Entry2? && s.a < 128 && s.b == 0)
    requires p == Pos(s) && p + n <= t <= MAX_TREE && 0 < n <= 128 && |v.direct| == 28
    requires InRange(Tree(v, d, t), |d|)
    ensures s.Entry1? ==> v.indirect1 < |d| && Tree(v, d, t)[..p + n] == Tree(v, d, t)[..p] + IndexEntries(d, v.indirect1, n)
    ensures s.Entry2? ==> v.indirect2 < |d| && var sub := U32At(d[v.indirect2], s.a);
      sub < |d| && Tree(v, d, t)[..p + n] == Tree(v, d, t)[..p] + IndexEntries(d, sub, n)
  {
    hide Tree, InRange;
    TreeAt(v, d, t, s);
    var blk := if s.Entry1? then v.indirect1 else U32At(d[v.indirect2], s.a);
    forall k | 0 <= k < n
      ensures Tree(v, d, t)[p + k] == IndexEntries(d, blk, n)[k]
    {
      TreeAt(v, d, t, if s.Entry1? then Entry1(k) else Entry2(s.a, k));
    }
  }

  function ZeroPrefix(s: seq<u32>, n: nat): (r: seq<u32>)
    ensures |r| == |s|
  {
    seq(|s|, i requires 0 <= i < |s| => if i < n then 0 else s[i])
  }

  /** The n data blocks behind indirect2 fill so many sub-blocks. */
  lemma SubsOf(n: nat, t: nat)
    requires n <= 128 * 128 && t == Sub2Total(n)
    ensures n / 128 <= 128 && t == 158 + 129 * (n / 128) + if n % 128 == 0 then 0 else n % 128 + 1
  {
  }

  lemma ClearAll(s: seq<u32>, n: nat)
    requires |s| == 28
    ensures ZeroPrefix(s, n) == ZeroPrefix(s, if n < 28 then n else 28)
  {
  }

  /** The inode after `clear_size`. */
  function Cleared(v: InodeView): InodeView
    requires |v.direct| == 28
  {
    var n := DataBlocks(v.size);
    v.(size := 0,
       direct := ZeroPrefix(v.direct, n),
       indirect1 := if n > 28 then 0 else v.indirect1,
       indirect2 := if n > 156 then 0 else v.indirect2)
  }

  /** What the tree lists at the position of a slot, read off the device. */
  lemma TreeAt(v: InodeView, d: seq<Block>, t: nat, s: Slot)
    requires ValidSlot(s) && Pos(s) < t <= MAX_TREE && |v.direct| == 28
    requires InRange(Tree(v, d, t), |d|)
    ensures Tree(v, d, t)[Pos(s)] == Value(v, d, s) < |d|
    ensures s.Direct? ==> Value(v, d, s) == v.direct[s.i]
    ensures s.Entry1? ==> v.indirect1 < |d| && Value(v, d, s) == U32At(d[v.indirect1], s.i)
    ensures s.Sub? || s.Entry2? ==> v.indirect2 < |d| && U32At(d[v.indirect2], s.a) < |d|
    ensures s.Sub? ==> Value(v, d, s) == U32At(d[v.indirect2], s.a)
    ensures s.Entry2? ==> Value(v, d, s) == U32At(d[U32At(d[v.indirect2], s.a)], s.b)
  {
    var tree := Tree(v, d, t);
    PositionsAreSlots(0, s);
    assert tree[Pos(s)] == Value(v, d, s);
    if s.Entry1? {
      assert tree[28] == v.indirect1;
    } else if s.Sub? {
      assert tree[157] == v.indirect2;
    } else if s.Entry2? {
      assert tree[157] == v.indirect2;
      PositionsAreSlots(0, Sub(s.a));
      assert tree[Pos(Sub(s.a))] == Value(v, d, Sub(s.a));
    }
  }

  /** Tree blocks when m data blocks hang below indirect2. */
  function Sub2Total(m: nat): nat
  {
    158 + 129 * (m / 128) + (if m % 128 == 0 then 0 else m % 128 + 1)
  }

  lemma FilledShape(v: InodeView, d0: seq<Block>, d: seq<Block>, full: seq<u32>, m: nat)
    requires Filled(v, d0, d, full, m)
    ensures |d| == |d0| && |v.direct| == 28
  {
  }

  /** The closed formula for the total, one arm per layer of the tree. */
  lemma SizeBounds(size: nat, newSize: nat)
    requires size <= newSize <= MAX_SIZE
    ensures DataBlocks(size) <= DataBlocks(newSize) <= INDIRECT2_BOUND
    ensures TotalBounds(DataBlocks(size)) && TotalBounds(DataBlocks(newSize))
    ensures Sub2Total(0) == 158
  {
  }

  predicate TotalBounds(n: nat)
  {
    && TotalBlocks(n) <= MAX_TREE
    && (n <= 28 ==> TotalBlocks(n) == n)
    && (28 < n <= 156 ==> TotalBlocks(n) == n + 1)
    && (156 < n ==> TotalBlocks(n) == Sub2Total(n - 156) > 159)
  }

  lemma FilledStart(v: InodeView, d: seq<Block>, newBlocks: seq<u32>, newSize: u32, t: nat)
    requires |v.direct| == 28 && t + |newBlocks| <= MAX_TREE
    ensures Filled(v.(size := newSize), d, d, Tree(v, d, t) + newBlocks, t)
  {
    TreeOfSize(v, v.(size := newSize), d, t);
  }

  /** The size field plays no part in the tree. */
  lemma TreeOfSize(v: InodeView, v': InodeView, d: seq<Block>, t: nat)
    requires v' == v.(size := v'.size)
    ensures Tree(v', d, t) == Tree(v, d, t)
  {
    forall p | 0 <= p < t
      ensures At(v', d, p) == At(v, d, p)
    {
    }
  }

  /** A filled position holds the listed block, which exists on the device. */
  lemma FilledAt(v: InodeView, d0: seq<Block>, d: seq<Block>, full: seq<u32>, m: nat, p: nat)
    requires Filled(v, d0, d, full, m) && p < m && InRange(full, |d|)
    ensures At(v, d, p) == full[p] < |d|
    ensures p == 28 ==> v.indirect1 == full[p]
    ensures p == 157 ==> v.indirect2 == full[p]
    ensures forall a :: 0 <= a < 128 && p == 158 + 129 * a && v.indirect2 < |d| ==>
      U32At(d[v.indirect2], a) == full[p]
  {
    assert Tree(v, d, m)[p] == full[p];
    forall a | 0 <= a < 128 && p == 158 + 129 * a && v.indirect2 < |d|
      ensures U32At(d[v.indirect2], a) == full[p]
    {
      PositionsAreSlots(p, Sub(a));
    }
  }
}
