/** The write-back block cache (easy-fs/src/block_cache.rs): at most sixteen blocks, a
    handle count per entry (the strong count less the queue's own reference), eviction
    of an entry nobody holds. */
module BlockCaches {
  import opened Words
  import opened Sets
  import opened BitmapLayer

  const BLOCK_CACHE_MAX_NUM: int := 16

  class BlockCache {
    const blockId: nat
    var cache: Block
    var modified: bool
    var handles: nat

    /** Loads a block from the device. */
    constructor (blockId: nat, device: Disk)
      requires blockId < |device.blocks|
      ensures this.blockId == blockId && cache == device.blocks[blockId] && !modified && handles == 0
    {
      this.blockId, cache, modified, handles := blockId, device.blocks[blockId], false, 0;
    }

    /** `modify`: the closure leaves the block as `b`. */
    method Modify(b: Block)
      modifies this`cache, this`modified
      ensures cache == b && modified
    {
      modified := true;
      cache := b;
    }

    method Sync(device: Disk)
      requires blockId < |device.blocks|
      modifies this`modified, device
      ensures !modified
      ensures device.blocks == if old(modified) then old(device.blocks)[blockId := cache] else old(device.blocks)
    {
      if modified {
        modified := false;
        device.blocks := device.blocks[blockId := cache];
      }
    }
  }

  /** No two entries are for the same block. */
  ghost predicate UniqueIds(q: seq<BlockCache>)
  {
    forall i, j :: 0 <= i < |q| && 0 <= j < |q| && q[i].blockId == q[j].blockId ==> i == j
  }

  /** An unmodified entry equals the device. */
  ghost predicate Fresh(e: BlockCache, device: Disk)
    reads e, device
  {
    e.blockId < |device.blocks| && (!e.modified ==> e.cache == device.blocks[e.blockId])
  }

  ghost predicate Holds(q: seq<BlockCache>, b: nat)
  {
    exists i :: 0 <= i < |q| && q[i].blockId == b
  }

  ghost function EntryFor(q: seq<BlockCache>, b: nat): (e: BlockCache)
    requires Holds(q, b)
    ensures e in q && e.blockId == b
  {
    var i :| 0 <= i < |q| && q[i].blockId == b;
    q[i]
  }

  /** `Vec::swap_remove`: the last element takes the place of the i-th. */
  function SwapRemove(q: seq<BlockCache>, i: nat): (r: seq<BlockCache>)
    requires i < |q|
    ensures |r| == |q| - 1
  {
    if i == |q| - 1 then q[..i] else q[..|q| - 1][i := q[|q| - 1]]
  }

  lemma SwapRemoveIs(q: seq<BlockCache>, i: nat)
    requires i < |q| && UniqueIds(q)
    ensures UniqueIds(SwapRemove(q, i))
    ensures forall e :: e in SwapRemove(q, i) <==> e in q && e != q[i]
    ensures !Holds(SwapRemove(q, i), q[i].blockId)
    ensures forall b :: b != q[i].blockId && Holds(q, b) ==>
      Holds(SwapRemove(q, i), b) && EntryFor(SwapRemove(q, i), b) == EntryFor(q, b)
    ensures forall b :: Holds(SwapRemove(q, i), b) ==> Holds(q, b)
  {
    var q' := SwapRemove(q, i);
    forall e | e in q && e != q[i]
      ensures e in q'
    {
      var k :| 0 <= k < |q| && q[k] == e;
      assert q'[if k == |q| - 1 then i else k] == e;
    }
    forall b | b != q[i].blockId && Holds(q, b)
      ensures Holds(q', b) && EntryFor(q', b) == EntryFor(q, b)
    {
      Only(q', EntryFor(q, b));
    }
  }

  lemma Only(q: seq<BlockCache>, e: BlockCache)
    requires UniqueIds(q) && e in q
    ensures Holds(q, e.blockId) && EntryFor(q, e.blockId) == e
  {
  }

  ghost function Ids(q: seq<BlockCache>): set<nat>
  {
    set i | 0 <= i < |q| :: q[i].blockId
  }

  lemma {:induction false} IdsSize(q: seq<BlockCache>)
    requires UniqueIds(q)
    ensures |Ids(q)| == |q|
  {
    if q == [] {
      assert Ids(q) == {};
    } else {
      var n := |q| - 1;
      IdsSize(q[..n]);
      assert Ids(q) == Ids(q[..n]) + {q[n].blockId};
    }
  }

  /** Each block of the device is as it was or has been written back from this disk. */
  ghost predicate WrittenBack(device: seq<Block>, logical: seq<Block>, device': seq<Block>)
  {
    && |device'| == |device| == |logical|
    && forall b :: 0 <= b < |device| ==> device'[b] == device[b] || device'[b] == logical[b]
  }

  class BlockCacheManager {
    var queue: seq<BlockCache>
    const device: Disk

    ghost predicate Valid()
      reads this, queue, device
    {
      && |queue| <= 16
      && UniqueIds(queue)
      && forall i :: 0 <= i < |queue| ==> Fresh(queue[i], device)
    }

    /** The block as the file system sees it. */
    ghost function LogicalAt(b: nat): Block
      requires b < |device.blocks|
      reads this, queue, device
    {
      if Holds(queue, b) then EntryFor(queue, b).cache else device.blocks[b]
    }

    /** The disk as the file system sees it. */
    ghost function Logical(): (r: seq<Block>)
      ensures |r| == |device.blocks|
      reads this, queue, device
    {
      seq(|device.blocks|, b requires 0 <= b < |device.blocks| reads this, queue, device => LogicalAt(b))
    }

    /** The blocks with a live handle. */
    ghost function Pinned(): set<nat>
      reads this, queue
    {
      set i | 0 <= i < |queue| && queue[i].handles > 0 :: queue[i].blockId
    }

    /** Live handles on a block. */
    ghost function Handles(b: nat): nat
      reads this, queue
    {
      if Holds(queue, b) then EntryFor(queue, b).handles else 0
    }

    constructor (device: Disk)
      ensures Valid() && this.device == device && queue == []
      ensures Logical() == device.blocks && Pinned() == {}
    {
      queue := [];
      this.device := device;
    }

    lemma LogicalIs(i: nat)
      requires Valid() && i < |queue|
      ensures Holds(queue, queue[i].blockId) && EntryFor(queue, queue[i].blockId) == queue[i]
      ensures Logical()[queue[i].blockId] == queue[i].cache
    {
      assert Fresh(queue[i], device);
    }

    method Find(b: nat) returns (i: nat)
      ensures i <= |queue| && (i < |queue| ==> queue[i].blockId == b)
      ensures i == |queue| <==> !Holds(queue, b)
    {
      i := 0;
      while i < |queue| && queue[i].blockId != b
        invariant i <= |queue| && forall k :: 0 <= k < i ==> queue[k].blockId != b
      {
        i := i + 1;
      }
    }

    /** The first entry without a live handle. */
    method FindIdle() returns (i: nat)
      ensures i <= |queue| && (i < |queue| ==> queue[i].handles == 0) && forall k :: 0 <= k < i ==> queue[k].handles > 0
      ensures i == |queue| ==> forall k :: 0 <= k < |queue| ==> queue[k].handles > 0
    {
      i := 0;
      while i < |queue| && queue[i].handles != 0
        invariant i <= |queue| && forall k :: 0 <= k < i ==> queue[k].handles > 0
      {
        i := i + 1;
      }
    }

    /** Drops an entry nobody holds. Its bytes reach the device, so nothing is lost. */
    method Evict(i: nat)
      requires Valid() && i < |queue| && queue[i].handles == 0
      modifies this, {queue[i]}, device
      ensures Valid() && queue == SwapRemove(old(queue), i)
      ensures Logical() == old(Logical())
      ensures Pinned() == old(Pinned()) && forall c :: Handles(c) == old(Handles(c))
      ensures forall e :: e in old(queue) && old(e.handles) > 0 ==> e in queue
      ensures forall e :: e in queue ==> e in old(queue)
      ensures |queue| == |old(queue)| - 1
      ensures WrittenBack(old(device.blocks), Logical(), device.blocks)
      ensures forall c :: !old(Holds(queue, c)) ==> !Holds(queue, c)
    {
      var e := queue[i];
      ghost var q := queue;
      forall k | 0 <= k < |q|
        ensures Fresh(q[k], device) && Holds(q, q[k].blockId) && EntryFor(q, q[k].blockId) == q[k]
      {
        LogicalIs(k);
      }
      SwapRemoveIs(queue, i);
      queue := SwapRemove(queue, i);
      e.Sync(device);
      forall k | 0 <= k < |queue|
        ensures Fresh(queue[k], device)
      {
        assert queue[k] in queue;
        var j :| 0 <= j < |q| && q[j] == queue[k];
      }
      forall b: nat | b < |device.blocks|
        ensures LogicalAt(b) == old(LogicalAt(b))
      {
      }
      SamePins(q, e);
    }

    /** The pins do not see an idle entry. */
    lemma SamePins(q: seq<BlockCache>, e: BlockCache)
      requires UniqueIds(q) && e in q && e.handles == 0
      requires forall x :: x in queue <==> x in q && x != e
      ensures Pinned() == set i | 0 <= i < |q| && q[i].handles > 0 :: q[i].blockId
    {
      forall i | 0 <= i < |q| && q[i].handles > 0
        ensures q[i].blockId in Pinned()
      {
        assert q[i] in queue;
      }
      forall i | 0 <= i < |queue|
        ensures queue[i] in q
      {
        assert queue[i] in queue;
      }
    }

    /** Every held block is in the queue, so at most sixteen are held; all sixteen only
        when no entry is idle. */
    lemma PinnedSize()
      requires Valid()
      ensures |Pinned()| <= |queue|
      ensures |Pinned()| == |queue| <==> forall k :: 0 <= k < |queue| ==> queue[k].handles > 0
    {
      IdsSize(queue);
      SubsetSize(Pinned(), Ids(queue));
      if Pinned() == Ids(queue) {
        forall k | 0 <= k < |queue|
          ensures queue[k].handles > 0
        {
          assert queue[k].blockId in Pinned();
          var i :| 0 <= i < |queue| && queue[i].handles > 0 && queue[i].blockId == queue[k].blockId;
        }
      }
      if forall k :: 0 <= k < |queue| ==> queue[k].handles > 0 {
        forall b | b in Ids(queue)
          ensures b in Pinned()
        {
          var i :| 0 <= i < |queue| && queue[i].blockId == b;
        }
        assert Pinned() == Ids(queue);
      }
    }

    lemma HandlesIs(e: BlockCache)
      requires Valid() && e in queue
      ensures Handles(e.blockId) == e.handles
      ensures e.blockId in Pinned() <==> e.handles > 0
    {
      Only(queue, e);
    }

    lemma AbsentIs(b: nat)
      requires !Holds(queue, b)
      ensures b !in Pinned() && Handles(b) == 0
    {
    }

    /** Appends a freshly loaded entry, held once. */
    method Load(b: nat) returns (e: BlockCache)
      requires Valid() && b < |device.blocks| && !Holds(queue, b) && |queue| < 16
      modifies this
      ensures Valid() && fresh(e) && queue == old(queue) + [e] && e.blockId == b
      ensures e.cache == device.blocks[b] && e.handles == 1
      ensures Logical() == old(Logical())
      ensures Pinned() == old(Pinned()) + {b}
      ensures forall c: nat :: Handles(c) == old(Handles(c)) + if c == b then 1 else 0
    {
      e := new BlockCache(b, device);
      e.handles := 1;
      ghost var q := queue;
      queue := queue + [e];
      assert queue[|q|] == e && forall k :: 0 <= k < |q| ==> queue[k] == q[k];
      forall c: nat | c != b
        ensures Holds(queue, c) <==> Holds(q, c)
        ensures Holds(q, c) ==> EntryFor(queue, c) == EntryFor(q, c)
      {
        if Holds(q, c) {
          Only(queue, EntryFor(q, c));
        }
      }
      Only(queue, e);
      assert Logical() == old(Logical()) by {
        forall c: nat | c < |device.blocks|
          ensures LogicalAt(c) == old(LogicalAt(c))
        {
        }
      }
    }

    /** A handle on a block, loading it and evicting an idle entry if need be. The source
        panics ("Run out of BlockCache!") when all sixteen entries are held; that is None,
        and it happens exactly when sixteen other blocks have live handles. */
    method GetBlockCache(b: nat) returns (r: Option<BlockCache>)
      requires Valid() && b < |device.blocks|
      modifies this, queue, device
      ensures Valid() && Logical() == old(Logical())
      ensures r == None <==> b !in old(Pinned()) && |old(Pinned())| == 16
      ensures r == None ==> Pinned() == old(Pinned()) && forall c :: Handles(c) == old(Handles(c))
      ensures r.Some? ==> r.value in queue && r.value.blockId == b && r.value.cache == Logical()[b]
      ensures r.Some? ==> Pinned() == old(Pinned()) + {b}
      ensures r.Some? ==> forall c: nat :: Handles(c) == old(Handles(c)) + if c == b then 1 else 0
      ensures forall e :: e in old(queue) && old(e.handles) > 0 ==> e in queue
      ensures fresh((set e | e in queue) - old(set e | e in queue))
      ensures |queue| <= |old(queue)| + 1 && WrittenBack(old(device.blocks), Logical(), device.blocks)
      ensures |old(queue)| < 16 ==> device.blocks == old(device.blocks)
      ensures r.Some? && (old(Holds(queue, b)) || |old(queue)| < 16) ==> old(queue) <= queue
      ensures r.Some? && !old(Holds(queue, b)) && |old(queue)| == 16 ==> exists k ::
        (0 <= k < 16 && old(queue[k].handles) == 0 && (forall j :: 0 <= j < k ==> old(queue[j].handles) > 0)
          && queue == SwapRemove(old(queue), k) + [r.value])
    {
      hide Logical, Pinned, Handles, UniqueIds, Fresh, EntryFor, Holds, SwapRemove;
      PinnedSize();
      var i := Find(b);
      if i < |queue| {
        LogicalIs(i);
        HandlesIs(queue[i]);
        r := Some(queue[i]);
        Hold(queue[i]);
        return;
      }
      AbsentIs(b);
      if |queue| == BLOCK_CACHE_MAX_NUM {
        var idx := FindIdle();
        if idx == |queue| {
          return None;
        }
        Evict(idx);
      }
      LogicalAbsent(b);
      var e := Load(b);
      LogicalIs(|queue| - 1);
      r := Some(e);
    }

    lemma LogicalAbsent(b: nat)
      requires !Holds(queue, b) && b < |device.blocks|
      ensures Logical()[b] == device.blocks[b]
    {
    }

    /** One more handle on a cached block. */
    method Hold(e: BlockCache)
      requires Valid() && e in queue
      modifies e`handles
      ensures Valid() && e.handles == old(e.handles) + 1
      ensures Logical() == old(Logical()) && Pinned() == old(Pinned()) + {e.blockId}
      ensures forall c: nat :: Handles(c) == old(Handles(c)) + if c == e.blockId then 1 else 0
    {
      Only(queue, e);
      e.handles := e.handles + 1;
      assert Logical() == old(Logical()) by {
        forall c: nat | c < |device.blocks|
          ensures LogicalAt(c) == old(LogicalAt(c))
        {
        }
      }
    }

    /** A handle goes out of scope. */
    method Release(e: BlockCache)
      requires Valid() && e in queue && e.handles > 0
      modifies e`handles
      ensures Valid() && e.handles == old(e.handles) - 1
      ensures Logical() == old(Logical())
      ensures Pinned() == if e.handles == 0 then old(Pinned()) - {e.blockId} else old(Pinned())
      ensures forall c: nat :: Handles(c) == old(Handles(c)) - if c == e.blockId then 1 else 0
    {
      Only(queue, e);
      e.handles := e.handles - 1;
      assert Logical() == old(Logical()) by {
        forall c: nat | c < |device.blocks|
          ensures LogicalAt(c) == old(LogicalAt(c))
        {
        }
      }
    }

    /** `read` through a live handle. */
    method Read(e: BlockCache) returns (b: Block)
      requires Valid() && e in queue
      ensures e.blockId < |device.blocks| && b == Logical()[e.blockId]
    {
      ghost var i :| 0 <= i < |queue| && queue[i] == e;
      LogicalIs(i);
      assert Fresh(queue[i], device);
      b := e.cache;
    }

    /** `modify` through a live handle changes one logical block, and no device block. */
    method Modify(e: BlockCache, b: Block)
      requires Valid() && e in queue
      modifies e`cache, e`modified
      ensures Valid() && e.blockId < |device.blocks|
      ensures Logical() == old(Logical())[e.blockId := b]
      ensures Pinned() == old(Pinned()) && forall c :: Handles(c) == old(Handles(c))
    {
      ghost var i :| 0 <= i < |queue| && queue[i] == e;
      assert Fresh(queue[i], device);
      Only(queue, e);
      e.Modify(b);
      forall c: nat | c < |device.blocks|
        ensures LogicalAt(c) == if c == e.blockId then b else old(LogicalAt(c))
      {
      }
    }

    /** `block_cache_sync_all`: afterwards the device is the logical disk. */
    method SyncAll()
      requires Valid()
      modifies this, queue, device
      ensures Valid() && queue == old(queue)
      ensures Logical() == old(Logical()) && device.blocks == Logical()
      ensures Pinned() == old(Pinned()) && forall c :: Handles(c) == old(Handles(c))
    {
      var i := 0;
      while i < |queue|
        invariant 0 <= i <= |queue| && queue == old(queue) && Valid()
        invariant forall k :: 0 <= k < i ==> !queue[k].modified
        invariant forall k :: 0 <= k < |queue| ==> queue[k].handles == old(queue[k].handles) && queue[k].cache == old(queue[k].cache)
        invariant Logical() == old(Logical())
      {
        SyncOne(i);
        i := i + 1;
      }
      forall c: nat | c < |device.blocks|
        ensures LogicalAt(c) == device.blocks[c]
      {
        if Holds(queue, c) {
          var k :| 0 <= k < |queue| && queue[k] == EntryFor(queue, c);
          assert Fresh(queue[k], device);
        }
      }
    }

    method SyncOne(i: nat)
      requires Valid() && i < |queue|
      modifies queue[i], device
      ensures Valid() && !queue[i].modified
      ensures queue[i].handles == old(queue[i].handles) && queue[i].cache == old(queue[i].cache)
      ensures Logical() == old(Logical())
    {
      assert Fresh(queue[i], device);
      Only(queue, queue[i]);
      queue[i].Sync(device);
      forall k | 0 <= k < |queue|
        ensures Fresh(queue[k], device)
      {
        assert old(Fresh(queue[k], device));
      }
      forall c: nat | c < |device.blocks|
        ensures LogicalAt(c) == old(LogicalAt(c))
      {
      }
    }
  }

  /** The plain machine a cache must look like: an array of blocks, and how many handles
      are live on each. */
  datatype Plain = Plain(blocks: seq<Block>, held: multiset<nat>)

  datatype CacheOp =
    | Get(b: nat)
    | Drop(b: nat)
    | ReadBlock(b: nat)
    | WriteBlock(b: nat, data: Block)
    | SyncBlocks

  /** Handles are used while they live, and no more than sixteen blocks are held. */
  ghost predicate Allowed(p: Plain, op: CacheOp)
  {
    match op
    case Get(b) => b < |p.blocks| && (b in p.held || |HeldSet(p)| < 16)
    case Drop(b) => b in p.held
    case ReadBlock(b) => b in p.held && b < |p.blocks|
    case WriteBlock(b, _) => b in p.held && b < |p.blocks|
    case SyncBlocks => true
  }

  ghost function HeldSet(p: Plain): set<nat> { set b | b in p.held }

  /** What an operation leaves, and the block it answers (a read). */
  ghost function PlainStep(p: Plain, op: CacheOp): (Plain, seq<Block>)
    requires Allowed(p, op)
  {
    match op
    case Get(b) => (p.(held := p.held + multiset{b}), [])
    case Drop(b) => (p.(held := p.held - multiset{b}), [])
    case ReadBlock(b) => (p, [p.blocks[b]])
    case WriteBlock(b, data) => (p.(blocks := p.blocks[b := data]), [])
    case SyncBlocks => (p, [])
  }

  ghost predicate AllAllowed(p: Plain, ops: seq<CacheOp>)
    decreases |ops|
  {
    ops == [] || (Allowed(p, ops[0]) && AllAllowed(PlainStep(p, ops[0]).0, ops[1..]))
  }

  ghost function PlainRun(p: Plain, ops: seq<CacheOp>): (Plain, seq<Block>)
    requires AllAllowed(p, ops)
    decreases |ops|
  {
    if ops == [] then (p, [])
    else
      var (p1, out1) := PlainStep(p, ops[0]);
      var (p2, out2) := PlainRun(p1, ops[1..]);
      (p2, out1 + out2)
  }

  /** Something may be written back: an entry to make room for another, or all of them. */
  predicate MayWriteBack(op: CacheOp) { op.Get? || op.SyncBlocks? }

  /** The plain array at each time when something may be written back. */
  ghost function Moments(p: Plain, ops: seq<CacheOp>): seq<seq<Block>>
    requires AllAllowed(p, ops)
    decreases |ops|
  {
    if ops == [] then []
    else (if MayWriteBack(ops[0]) then [p.blocks] else []) + Moments(PlainStep(p, ops[0]).0, ops[1..])
  }

  /** Every block is as it was on the device, or as it was at some time in the array. */
  ghost predicate FromTrace(device: seq<Block>, trace: seq<seq<Block>>, device': seq<Block>)
  {
    |device'| == |device| && forall b :: 0 <= b < |device| ==> device'[b] == device[b] || SomeTime(trace, b, device'[b])
  }

  ghost predicate SomeTime(trace: seq<seq<Block>>, b: nat, data: Block)
  {
    exists k :: 0 <= k < |trace| && b < |trace[k]| && trace[k][b] == data
  }

  predicate ReadsOnly(ops: seq<CacheOp>) { forall k :: 0 <= k < |ops| ==> !ops[k].WriteBlock? }

  predicate NoSyncs(ops: seq<CacheOp>) { forall k :: 0 <= k < |ops| ==> !ops[k].SyncBlocks? }

  /** The number of times a block is asked for. */
  function Gets(ops: seq<CacheOp>): nat
  {
    if ops == [] then 0 else Gets(ops[1..]) + if ops[0].Get? then 1 else 0
  }

  lemma {:induction false} OnlyReadTrace(p: Plain, ops: seq<CacheOp>)
    requires AllAllowed(p, ops) && ReadsOnly(ops)
    ensures forall k :: 0 <= k < |Moments(p, ops)| ==> Moments(p, ops)[k] == p.blocks
    decreases |ops|
  {
    if ops != [] {
      assert ReadsOnly(ops[1..]);
      OnlyReadTrace(PlainStep(p, ops[0]).0, ops[1..]);
    }
  }

  lemma TraceGrows(device: seq<Block>, trace: seq<seq<Block>>, device1: seq<Block>, logical: seq<Block>,
      device2: seq<Block>)
    requires FromTrace(device, trace, device1) && WrittenBack(device1, logical, device2)
    ensures FromTrace(device, trace + [logical], device2)
  {
    var longer := trace + [logical];
    forall b | 0 <= b < |device|
      ensures device2[b] == device[b] || SomeTime(longer, b, device2[b])
    {
      if device2[b] == logical[b] {
        assert longer[|trace|][b] == device2[b];
      } else if device1[b] != device[b] {
        var k :| 0 <= k < |trace| && b < |trace[k]| && trace[k][b] == device1[b];
        assert longer[k][b] == device2[b];
      }
    }
  }

  /** The cache, seen as the plain machine. */
  ghost predicate Shows(m: BlockCacheManager, p: Plain)
    reads m, m.queue, m.device
  {
    && m.Valid() && m.Logical() == p.blocks
    && forall b: nat :: m.Handles(b) == p.held[b]
  }

  /** The handles a client holds: one entry object per held block. */
  ghost predicate Holding(m: BlockCacheManager, p: Plain, objs: map<nat, BlockCache>)
    reads m, m.queue
  {
    forall b :: b in p.held ==> b in objs && objs[b] in m.queue && objs[b].blockId == b
  }

  lemma HeldIsPinned(m: BlockCacheManager, p: Plain)
    requires Shows(m, p)
    ensures m.Pinned() == HeldSet(p)
  {
    forall b: nat
      ensures b in m.Pinned() <==> b in p.held
    {
      assert m.Handles(b) == p.held[b];
      if Holds(m.queue, b) {
        m.HandlesIs(EntryFor(m.queue, b));
      } else {
        m.AbsentIs(b);
      }
    }
  }

  /** One operation on the cache is one step of the plain machine, with its answer. */
  method CacheStep(m: BlockCacheManager, objs: map<nat, BlockCache>, op: CacheOp, ghost p: Plain)
    returns (objs': map<nat, BlockCache>, out: seq<Block>)
    requires Shows(m, p) && Holding(m, p, objs) && Allowed(p, op)
    modifies m, m.queue, m.device
    ensures Shows(m, PlainStep(p, op).0) && Holding(m, PlainStep(p, op).0, objs') && out == PlainStep(p, op).1
    ensures fresh((set e | e in m.queue) - old(set e | e in m.queue))
    ensures op.SyncBlocks? ==> m.device.blocks == p.blocks
    ensures WrittenBack(old(m.device.blocks), p.blocks, m.device.blocks)
    ensures |m.queue| <= |old(m.queue)| + if op.Get? then 1 else 0
    ensures !op.SyncBlocks? && (op.Get? ==> |old(m.queue)| < 16) ==> m.device.blocks == old(m.device.blocks)
  {
    hide Shows, Holding, Allowed, PlainStep;
    LogicalLength(m, p);
    objs', out := objs, [];
    match op {
      case Get(b) => objs' := StepGet(m, objs, b, p);
      case Drop(b) => StepDrop(m, objs, b, p);
      case ReadBlock(b) => out := StepRead(m, objs, b, p);
      case WriteBlock(b, data) => StepWrite(m, objs, b, data, p);
      case SyncBlocks => StepSync(m, objs, p);
    }
  }

  method StepGet(m: BlockCacheManager, objs: map<nat, BlockCache>, b: nat, ghost p: Plain)
    returns (objs': map<nat, BlockCache>)
    requires Shows(m, p) && Holding(m, p, objs) && Allowed(p, Get(b))
    modifies m, m.queue, m.device
    ensures Shows(m, PlainStep(p, Get(b)).0) && Holding(m, PlainStep(p, Get(b)).0, objs') && PlainStep(p, Get(b)).1 == []
    ensures fresh((set e | e in m.queue) - old(set e | e in m.queue))
    ensures WrittenBack(old(m.device.blocks), p.blocks, m.device.blocks) && |m.queue| <= |old(m.queue)| + 1
    ensures |old(m.queue)| < 16 ==> m.device.blocks == old(m.device.blocks)
  {
    hide BlockCacheManager.Logical, BlockCacheManager.Pinned, BlockCacheManager.Handles, BlockCacheManager.Valid;
    HeldIsPinned(m, p);
    LogicalLength(m, p);
    forall c | c in p.held
      ensures objs[c].handles > 0
    {
      HeldHandle(m, p, objs[c]);
    }
    var r := m.GetBlockCache(b);
    objs' := objs[b := r.value];
  }

  method StepDrop(m: BlockCacheManager, objs: map<nat, BlockCache>, b: nat, ghost p: Plain)
    requires Shows(m, p) && Holding(m, p, objs) && Allowed(p, Drop(b))
    modifies m.queue
    ensures m.queue == old(m.queue)
    ensures Shows(m, PlainStep(p, Drop(b)).0) && Holding(m, PlainStep(p, Drop(b)).0, objs) && PlainStep(p, Drop(b)).1 == []
  {
    hide BlockCacheManager.Logical, BlockCacheManager.Pinned, BlockCacheManager.Handles, BlockCacheManager.Valid;
    HeldHandle(m, p, objs[b]);
    m.Release(objs[b]);
  }

  method StepRead(m: BlockCacheManager, objs: map<nat, BlockCache>, b: nat, ghost p: Plain) returns (out: seq<Block>)
    requires Shows(m, p) && Holding(m, p, objs) && Allowed(p, ReadBlock(b))
    ensures PlainStep(p, ReadBlock(b)) == (p, out)
  {
    hide BlockCacheManager.Logical, BlockCacheManager.Handles, BlockCacheManager.Valid;
    var data := m.Read(objs[b]);
    out := [data];
  }

  method StepWrite(m: BlockCacheManager, objs: map<nat, BlockCache>, b: nat, data: Block, ghost p: Plain)
    requires Shows(m, p) && Holding(m, p, objs) && Allowed(p, WriteBlock(b, data))
    modifies m.queue
    ensures m.queue == old(m.queue)
    ensures var p' := PlainStep(p, WriteBlock(b, data)).0; Shows(m, p') && Holding(m, p', objs)
    ensures PlainStep(p, WriteBlock(b, data)).1 == []
  {
    hide BlockCacheManager.Logical, BlockCacheManager.Pinned, BlockCacheManager.Handles, BlockCacheManager.Valid;
    m.Modify(objs[b], data);
  }

  method StepSync(m: BlockCacheManager, objs: map<nat, BlockCache>, ghost p: Plain)
    requires Shows(m, p) && Holding(m, p, objs)
    modifies m, m.queue, m.device
    ensures m.queue == old(m.queue) && m.device.blocks == p.blocks
    ensures Shows(m, p) && Holding(m, p, objs) && PlainStep(p, SyncBlocks) == (p, [])
  {
    hide BlockCacheManager.Logical, BlockCacheManager.Pinned, BlockCacheManager.Handles, BlockCacheManager.Valid;
    m.SyncAll();
  }

  lemma LogicalLength(m: BlockCacheManager, p: Plain)
    requires Shows(m, p)
    ensures |m.device.blocks| == |p.blocks|
  {
  }

  lemma HeldHandle(m: BlockCacheManager, p: Plain, e: BlockCache)
    requires Shows(m, p) && e in m.queue
    ensures e.handles == p.held[e.blockId]
  {
    m.HandlesIs(e);
  }

  /** Any run of loads, reads, modifications, evictions and syncs answers as a plain
      array of blocks would, and leaves it as the logical disk. */
  method CacheRun(m: BlockCacheManager, ops: seq<CacheOp>, ghost p: Plain) returns (out: seq<Block>)
    requires Shows(m, p) && p.held == multiset{} && AllAllowed(p, ops)
    modifies m, m.queue, m.device
    ensures Shows(m, PlainRun(p, ops).0) && out == PlainRun(p, ops).1
    ensures fresh((set e | e in m.queue) - old(set e | e in m.queue))
    ensures FromTrace(old(m.device.blocks), Moments(p, ops), m.device.blocks)
    ensures NoSyncs(ops) && |old(m.queue)| + Gets(ops) <= 16 ==> m.device.blocks == old(m.device.blocks)
  {
    hide Shows, PlainStep, PlainRun, AllAllowed, Allowed, FromTrace, WrittenBack, Moments, Gets, NoSyncs;
    ghost var seen: seq<seq<Block>> := [];
    ghost var device0 := m.device.blocks;
    NothingYet(device0);
    var objs: map<nat, BlockCache> := map[];
    ghost var now := p;
    out := [];
    var k := 0;
    assert ops[0..] == ops && [] + PlainRun(p, ops).1 == PlainRun(p, ops).1;
    assert [] + Moments(p, ops) == Moments(p, ops);
    while k < |ops|
      invariant 0 <= k <= |ops| && AllAllowed(now, ops[k..])
      invariant Shows(m, now) && Holding(m, now, objs)
      invariant PlainRun(p, ops) == (PlainRun(now, ops[k..]).0, out + PlainRun(now, ops[k..]).1)
      invariant Moments(p, ops) == seen + Moments(now, ops[k..]) && FromTrace(device0, seen, m.device.blocks)
      invariant |m.queue| + Gets(ops[k..]) <= |old(m.queue)| + Gets(ops)
      invariant NoSyncs(ops) ==> NoSyncs(ops[k..])
      invariant NoSyncs(ops) && |old(m.queue)| + Gets(ops) <= 16 ==> m.device.blocks == device0
      invariant fresh((set e | e in m.queue) - old(set e | e in m.queue))
    {
      FirstOfRun(now, ops, k);
      ghost var device1 := m.device.blocks;
      var more;
      objs, more := CacheStep(m, objs, ops[k], now);
      ghost var moment := if MayWriteBack(ops[k]) then [now.blocks] else [];
      if MayWriteBack(ops[k]) {
        TraceGrows(device0, seen, device1, now.blocks, m.device.blocks);
      } else {
        assert seen + moment == seen;
      }
      assert seen + (moment + Moments(PlainStep(now, ops[k]).0, ops[k + 1..])) ==
        (seen + moment) + Moments(PlainStep(now, ops[k]).0, ops[k + 1..]);
      seen := seen + moment;
      ghost var next := PlainStep(now, ops[k]).0;
      ghost var rest := PlainRun(next, ops[k + 1..]);
      assert out + (more + rest.1) == (out + more) + rest.1;
      now := next;
      out := out + more;
      k := k + 1;
    }
    RunOver(now, ops[k..]);
    assert seen + [] == seen && out + [] == out;
  }

  lemma FirstOfRun(p: Plain, ops: seq<CacheOp>, k: nat)
    requires k < |ops| && AllAllowed(p, ops[k..])
    ensures Allowed(p, ops[k]) && AllAllowed(PlainStep(p, ops[k]).0, ops[k + 1..])
    ensures var (next, more) := PlainStep(p, ops[k]); var rest := PlainRun(next, ops[k + 1..]);
      && PlainRun(p, ops[k..]) == (rest.0, more + rest.1)
      && Moments(p, ops[k..]) == (if MayWriteBack(ops[k]) then [p.blocks] else []) + Moments(next, ops[k + 1..])
    ensures Gets(ops[k..]) == Gets(ops[k + 1..]) + if ops[k].Get? then 1 else 0
    ensures NoSyncs(ops[k..]) ==> !ops[k].SyncBlocks? && NoSyncs(ops[k + 1..])
  {
    hide PlainStep, Allowed;
    assert ops[k..][0] == ops[k] && ops[k..][1..] == ops[k + 1..];
  }

  lemma RunOver(p: Plain, ops: seq<CacheOp>)
    requires ops == []
    ensures AllAllowed(p, ops) && PlainRun(p, ops) == (p, []) && Moments(p, ops) == []
  {
  }

  lemma NothingYet(device: seq<Block>)
    ensures FromTrace(device, [], device)
  {
  }
}
