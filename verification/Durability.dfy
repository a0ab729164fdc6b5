/** What survives a restart: the file system on top of the write-back cache, and what its
    device holds (easy-fs/src/vfs.rs, easy-fs/src/block_cache.rs). */
module Durability {
  import opened Words
  import opened BitmapLayer
  import opened Efs
  import opened FileData
  import opened FsState
  import opened FsSteps
  import opened DirCodec
  import opened Directory
  import opened Mkfs
  import opened Vfs
  import opened FsRuns
  import opened BlockCaches
  import opened CacheTraffic

  /** The operation ends with `block_cache_sync_all`: creating, writing and clearing do; in
      linking the call is commented out. */
  predicate Synced(op: Op, reply: Reply)
  {
    op.OpWrite? || op.OpClear? || (op.OpCreate? && reply != Handle(None))
  }

  /** How operations use the cache: a function of the operation's number, of whether it only
      reads, and of the disk before and after it. */
  type Traffic = (nat, bool, seq<Block>, seq<Block>) -> seq<CacheOp>

  ghost predicate Faithful(traffic: Traffic)
  {
    forall k: nat, quiet: bool, before: seq<Block>, after: seq<Block> ::
      Possible(quiet, before, after) ==>
        Carries(traffic(k, quiet, before, after), before, after) && (quiet ==> ReadsOnly(traffic(k, quiet, before, after)))
  }

  predicate Possible(quiet: bool, before: seq<Block>, after: seq<Block>)
  {
    |before| == |after| && (quiet ==> before == after)
  }

  /** No successful link came after the last operation that synced. `settled` says so of
      what came before the run. */
  ghost predicate Durable(s: Spec, g: Geometry, ops: seq<Op>, settled: bool)
    requires RunAdmissible(s, g, ops)
    decreases |ops|
  {
    if ops == [] then settled else
      var (s1, reply) := Step(s, g, ops[0]);
      Durable(s1, g, ops[1..], Synced(ops[0], reply) || (Quiet(ops[0], reply) && settled))
  }

  /** From call i on no link answered 0. */
  predicate NoLinkFrom(ops: seq<Op>, replies: seq<Reply>, i: nat)
    requires |replies| == |ops|
  {
    forall j :: i <= j < |ops| ==> !(ops[j].OpLink? && replies[j] == Code(0))
  }

  /** Call k was a write, a clear, or a create that made a file, and no link that answered 0
      came after it. */
  predicate SavedAt(ops: seq<Op>, replies: seq<Reply>, k: nat)
    requires |replies| == |ops|
  {
    && k < |ops| && NoLinkFrom(ops, replies, k + 1)
    && (ops[k].OpWrite? || ops[k].OpClear? || (ops[k].OpCreate? && replies[k] != Handle(None)))
  }

  /** The condition in calls and answers. */
  lemma {:induction false} DurableMeans(s: Spec, g: Geometry, ops: seq<Op>, settled: bool)
    requires RunAdmissible(s, g, ops)
    ensures |RunSpec(s, g, ops).1| == |ops|
    ensures var replies := RunSpec(s, g, ops).1;
      Durable(s, g, ops, settled) <==> (settled && NoLinkFrom(ops, replies, 0)) || exists k: nat :: SavedAt(ops, replies, k)
    decreases |ops|
  {
    hide Step, Admissible;
    if ops != [] {
      var (s1, reply) := Step(s, g, ops[0]);
      var now := Synced(ops[0], reply) || (Quiet(ops[0], reply) && settled);
      DurableMeans(s1, g, ops[1..], now);
      var rest := RunSpec(s1, g, ops[1..]).1;
      var replies := RunSpec(s, g, ops).1;
      assert replies == [reply] + rest;
      NoLinkShift(ops, replies, reply, rest, 0);
      assert NoLinkFrom(ops, replies, 0) <==> NoLinkFrom(ops[1..], rest, 0) && !(ops[0].OpLink? && reply == Code(0));
      assert SavedAt(ops, replies, 0) <==> NoLinkFrom(ops[1..], rest, 0) && Synced(ops[0], reply);
      if k: nat :| SavedAt(ops[1..], rest, k) {
        NoLinkShift(ops, replies, reply, rest, k + 1);
        assert SavedAt(ops, replies, k + 1);
      }
      if k: nat :| SavedAt(ops, replies, k) && k > 0 {
        NoLinkShift(ops, replies, reply, rest, k);
        assert SavedAt(ops[1..], rest, k - 1);
      }
      LinkOrNot(s, g, ops[0]);
    }
  }

  lemma NoLinkShift(ops: seq<Op>, replies: seq<Reply>, reply: Reply, rest: seq<Reply>, i: nat)
    requires ops != [] && |replies| == |ops| && replies == [reply] + rest
    ensures NoLinkFrom(ops, replies, i + 1) <==> NoLinkFrom(ops[1..], rest, i)
  {
    if NoLinkFrom(ops, replies, i + 1) {
      forall j | i <= j < |rest|
        ensures !(ops[1..][j].OpLink? && rest[j] == Code(0))
      {
        assert ops[1..][j] == ops[j + 1] && rest[j] == replies[j + 1];
      }
    }
    if NoLinkFrom(ops[1..], rest, i) {
      forall j | i + 1 <= j < |ops|
        ensures !(ops[j].OpLink? && replies[j] == Code(0))
      {
        assert ops[1..][j - 1] == ops[j] && rest[j - 1] == replies[j];
      }
    }
  }

  lemma LinkOrNot(s: Spec, g: Geometry, op: Op)
    requires Admissible(s, g, op)
    ensures var reply := Step(s, g, op).1; Synced(op, reply) || Quiet(op, reply) || (op.OpLink? && reply == Code(0))
    ensures var reply := Step(s, g, op).1; op.OpLink? && reply == Code(0) ==> !Synced(op, reply) && !Quiet(op, reply)
  {
  }

  /** The cache shows the disk the file system works on. */
  ghost predicate Mirrors(root: Inode, m: BlockCacheManager)
    reads root.fs, root.fs.disk, m, m.queue, m.device
  {
    m.device != root.fs.disk && Shows(m, Plain(root.fs.disk.blocks, multiset{}))
  }

  /** The device holds the disk as the file system left it. */
  ghost predicate Settled(root: Inode, m: BlockCacheManager)
    reads root.fs, root.fs.disk, m, m.device
  {
    m.device.blocks == root.fs.disk.blocks
  }

  /** The size of the root directory according to a disk's block of inode 0. */
  function RootSize(d: seq<Block>, g: Geometry): nat
  {
    if g.InodeStart() < |d| then LoadInode(d[g.InodeStart()], 0).size else 0
  }

  /** The device's root directory is shorter than the file system's. */
  ghost predicate Behind(root: Inode, m: BlockCacheManager)
    requires Root(root)
    reads root.fs, root.fs.disk, m, m.device
  {
    |m.device.blocks| == |root.fs.disk.blocks| && RootSize(m.device.blocks, root.fs.g) < 32 * |View(root).names|
  }

  lemma RootSizeIs(root: Inode)
    requires Root(root)
    ensures RootSize(root.fs.disk.blocks, root.fs.g) == 32 * |View(root).names|
    ensures root.fs.g.InodeStart() < |root.fs.disk.blocks|
  {
    hide LoadInode, Blocks, ByteAt, DirInv, Entries;
    InvInodes(root.fs.disk.blocks, root.fs.g, root.fs.own);
    Numbers(root);
    assert root.State().data == Contents(InodeAt(root.fs.disk.blocks, root.fs.g, 0), root.fs.disk.blocks);
  }

  /** Whatever file system comes up from such a device lacks names. */
  lemma BehindLacksNames(root: Inode, m: BlockCacheManager, again: Inode)
    requires Root(root) && Behind(root, m) && Root(again)
    requires again.fs.g == root.fs.g && again.fs.disk.blocks == m.device.blocks
    ensures |View(again).names| < |View(root).names|
  {
    hide Root, RootSize, View;
    RootSizeIs(root);
    RootSizeIs(again);
  }

  lemma BehindUnsettled(root: Inode, m: BlockCacheManager)
    requires Root(root) && Behind(root, m)
    ensures !Settled(root, m)
  {
    hide Root, RootSize, View;
    RootSizeIs(root);
  }

  /** Operations that write the block of the root directory's inode last. */
  ghost predicate RootLast(traffic: Traffic, g: Geometry)
  {
    forall k: nat, quiet: bool, before: seq<Block>, after: seq<Block> :: |before| == |after| ==>
      traffic(k, quiet, before, after) == LateTraffic(before, after, g.InodeStart())
  }

  /** What an operation's use of the cache did to the device. */
  ghost predicate LetOut(t: seq<CacheOp>, before: seq<Block>, device: seq<Block>, device': seq<Block>)
  {
    AllAllowed(Plain(before, multiset{}), t) && FromTrace(device, Moments(Plain(before, multiset{}), t), device')
  }

  lemma TrafficIs(traffic: Traffic, k: nat, quiet: bool, before: seq<Block>, after: seq<Block>)
    requires Faithful(traffic) && Possible(quiet, before, after)
    ensures Carries(traffic(k, quiet, before, after), before, after)
    ensures quiet ==> ReadsOnly(traffic(k, quiet, before, after))
  {
  }

  /** One operation of the file system over the cache. */
  method CachedExec(root: Inode, m: BlockCacheManager, op: Op, k: nat, traffic: Traffic) returns (reply: Reply)
    requires Sane(root) && Mirrors(root, m) && Faithful(traffic)
    requires Admissible(View(root), root.fs.g, op)
    modifies root.fs, root.fs.disk, m, m.queue, m.device
    ensures Sane(root) && Mirrors(root, m) && root.fs.disk.blocks[0] == old(root.fs.disk.blocks)[0]
    ensures (View(root), reply) == Step(old(View(root)), root.fs.g, op)
    ensures Synced(op, reply) || (Quiet(op, reply) && old(Settled(root, m))) ==> Settled(root, m)
    ensures RootLast(traffic, root.fs.g) && old(Settled(root, m) || Behind(root, m)) ==>
      if Synced(op, reply) || (Quiet(op, reply) && old(Settled(root, m))) then Settled(root, m) else Behind(root, m)
    ensures fresh((set e | e in m.queue) - old(set e | e in m.queue))
  {
    hide Root, Use, Abs, Step, Admissible, Shows, Carries, Faithful, AllAllowed, PlainRun, FromTrace, Moments, ReadsOnly,
      NoSyncs, RootSize, Synced, Quiet, LateTraffic;
    var before := root.fs.disk.blocks;
    RootSizeIs(root);
    ghost var s := View(root);
    reply := Exec(root, op);
    RootSizeIs(root);
    var after := root.fs.disk.blocks;
    var quiet := Quiet(op, reply);
    var t := traffic(k, quiet, before, after);
    TrafficIs(traffic, k, quiet, before, after);
    assert AllAllowed(Plain(before, multiset{}), t) && NoSyncs(t) && PlainRun(Plain(before, multiset{}), t).0 == Plain(after, multiset{}) by {
      CarriesMeans(t, before, after);
    }
    ghost var device := m.device.blocks;
    LogicalLength(m, Plain(before, multiset{}));
    var _ := CacheRun(m, t, Plain(before, multiset{}));
    if Synced(op, reply) {
      Sync(m, Plain(after, multiset{}));
    } else {
      if quiet && device == before {
        ReadingSettles(before, t, m.device.blocks);
      }
      if RootLast(traffic, root.fs.g) && (device == before || RootSize(device, root.fs.g) < 32 * |s.names|) {
        RootStays(before, after, root.fs.g, device, m.device.blocks);
        LinksGrow(s, root.fs.g, op);
      }
    }
  }

  /** Under such a use the device's root directory is as it was, or as it was before the
      operation; and an operation that changes nothing leaves the device alone. */
  lemma RootStays(before: seq<Block>, after: seq<Block>, g: Geometry, device: seq<Block>, device': seq<Block>)
    requires |before| == |after| == |device| && LetOut(LateTraffic(before, after, g.InodeStart()), before, device, device')
    ensures |device'| == |device| && (before == after ==> device' == device)
    ensures RootSize(device', g) == RootSize(device, g) || RootSize(device', g) == RootSize(before, g)
  {
    hide LoadInode, LateTraffic, AllAllowed, Moments;
    var t := LateTraffic(before, after, g.InodeStart());
    LateCarries(before, after, g.InodeStart());
    if g.InodeStart() < |before| {
      LateBlock(device, Moments(Plain(before, multiset{}), t), device', g.InodeStart(), before[g.InodeStart()]);
    }
    if before == after {
      NoMoments(Plain(before, multiset{}));
    }
  }

  lemma NoMoments(p: Plain)
    ensures Moments(p, []) == []
  {
  }

  /** Only a link that succeeded is neither synced nor quiet, and it lengthens the directory. */
  lemma LinksGrow(s: Spec, g: Geometry, op: Op)
    requires Admissible(s, g, op)
    ensures var (s', reply) := Step(s, g, op);
      !Synced(op, reply) && !Quiet(op, reply) ==> op.OpLink? && reply == Code(0) && |s'.names| == |s.names| + 1
  {
  }

  method Sync(m: BlockCacheManager, ghost p: Plain)
    requires Shows(m, p) && p.held == multiset{}
    modifies m, m.queue, m.device
    ensures Shows(m, p) && m.device.blocks == p.blocks && m.queue == old(m.queue)
  {
    m.SyncAll();
  }

  /** Any run over the cache: the answers and the disk are those of the plain machine. The
      device holds all of it, for every use of the cache, if and only if no successful link
      came after the last sync: otherwise operations that write the root's inode last leave
      the device with a shorter directory. */
  method CachedRun(root: Inode, m: BlockCacheManager, ops: seq<Op>, k: nat, traffic: Traffic) returns (replies: seq<Reply>)
    requires Sane(root) && Mirrors(root, m) && Faithful(traffic)
    requires RunAdmissible(View(root), root.fs.g, ops)
    modifies root.fs, root.fs.disk, m, m.queue, m.device
    decreases |ops|
    ensures Sane(root) && Mirrors(root, m) && root.fs.disk.blocks[0] == old(root.fs.disk.blocks)[0]
    ensures (View(root), replies) == RunSpec(old(View(root)), root.fs.g, ops)
    ensures Durable(old(View(root)), root.fs.g, ops, old(Settled(root, m))) ==> Settled(root, m)
    ensures RootLast(traffic, root.fs.g) && old(Settled(root, m) || Behind(root, m)) ==>
      if Durable(old(View(root)), root.fs.g, ops, old(Settled(root, m))) then Settled(root, m) else Behind(root, m)
  {
    hide Root, Use, Abs, Step, Admissible, Mirrors, Faithful, Settled, Synced, Quiet, Behind, RootLast;
    if |ops| == 0 {
      return [];
    }
    ghost var s, g, settled := View(root), root.fs.g, Settled(root, m);
    var reply := CachedExec(root, m, ops[0], k, traffic);
    DurableIs(s, g, ops, settled, Settled(root, m));
    if Behind(root, m) {
      BehindUnsettled(root, m);
    }
    replies := CachedRun(root, m, ops[1..], k + 1, traffic);
    replies := [reply] + replies;
  }

  lemma DurableIs(s: Spec, g: Geometry, ops: seq<Op>, settled: bool, now: bool)
    requires ops != [] && RunAdmissible(s, g, ops)
    requires Synced(ops[0], Step(s, g, ops[0]).1) || (Quiet(ops[0], Step(s, g, ops[0]).1) && settled) ==> now
    ensures RunAdmissible(Step(s, g, ops[0]).0, g, ops[1..])
    ensures Durable(s, g, ops, settled) ==> Durable(Step(s, g, ops[0]).0, g, ops[1..], now)
    ensures now == (Synced(ops[0], Step(s, g, ops[0]).1) || (Quiet(ops[0], Step(s, g, ops[0]).1) && settled)) ==>
      Durable(s, g, ops, settled) == Durable(Step(s, g, ops[0]).0, g, ops[1..], now)
  {
    hide Step, Admissible, Synced, Quiet;
    var (s1, reply) := Step(s, g, ops[0]);
    var was := Synced(ops[0], reply) || (Quiet(ops[0], reply) && settled);
    if was != now {
      SettledMore(s1, g, ops[1..]);
    }
  }

  lemma {:induction false} SettledMore(s: Spec, g: Geometry, ops: seq<Op>)
    requires RunAdmissible(s, g, ops)
    ensures Durable(s, g, ops, false) ==> Durable(s, g, ops, true)
    decreases |ops|
  {
    hide Step, Admissible, Synced;
    if ops != [] {
      var (s1, reply) := Step(s, g, ops[0]);
      SettledMore(s1, g, ops[1..]);
    }
  }

  /** An empty cache over a device, and the disk it shows. */
  method Mount(device: Disk) returns (disk: Disk, m: BlockCacheManager)
    ensures fresh(disk) && fresh(m) && disk.blocks == device.blocks && m.device == device && m.queue == []
    ensures Shows(m, Plain(disk.blocks, multiset{}))
  {
    disk := new Disk(0);
    disk.blocks := device.blocks;
    m := new BlockCacheManager(device);
  }

  /** Formatting over the cache ends with a sync. */
  method CachedFormat(device: Disk, totalBlocks: u32, inodeBitmapBlocks: u32, traffic: Traffic)
    returns (root: Inode, m: BlockCacheManager)
    requires inodeBitmapBlocks > 0 && Faithful(traffic)
    requires 1 + inodeBitmapBlocks + InodeArea(inodeBitmapBlocks) <= totalBlocks <= |device.blocks|
    modifies device
    ensures fresh(root.fs) && fresh(root.fs.disk) && fresh(m) && fresh(set e | e in m.queue) && m.device == device
    ensures Sane(root) && View(root) == Spec([], map[]) && root.fs.g == Plan(totalBlocks, inodeBitmapBlocks)
    ensures Mirrors(root, m) && Settled(root, m) && SuperBlockOf(root.fs.disk.blocks[0], totalBlocks, root.fs.g)
  {
    hide Sane, View, Shows, Carries, Faithful, AllAllowed, PlainRun, FromTrace, Moments, ReadsOnly, NoSyncs,
      SuperBlockOf;
    var disk;
    disk, m := Mount(device);
    var before := disk.blocks;
    root := Format(disk, totalBlocks, inodeBitmapBlocks);
    var after := disk.blocks;
    var t := traffic(0, false, before, after);
    TrafficIs(traffic, 0, false, before, after);
    CarriesMeans(t, before, after);
    var _ := CacheRun(m, t, Plain(before, multiset{}));
    Sync(m, Plain(after, multiset{}));
  }

  /** The machine goes down and comes up again: what there is is what the device holds. */
  method Restart(device: Disk, ghost was: Inode, ghost totalBlocks: nat) returns (root: Inode, m: BlockCacheManager)
    requires Sane(was) && device.blocks == was.fs.disk.blocks && SuperBlockOf(device.blocks[0], totalBlocks, was.fs.g)
    ensures fresh(root.fs) && fresh(root.fs.disk) && fresh(m) && m.device == device && m.queue == []
    ensures Sane(root) && root.fs.g == was.fs.g && View(root) == View(was)
    ensures Mirrors(root, m) && Settled(root, m) && device.blocks == old(device.blocks)
  {
    hide Sane, View, Shows, SuperBlockOf;
    var disk;
    disk, m := Mount(device);
    root := Reopen(disk, was, totalBlocks);
  }

  /** Format, run, and restart from the device alone: if no successful link came after the
      last sync, everything is there. */
  method FormatRunRestart(device: Disk, totalBlocks: u32, inodeBitmapBlocks: u32, ops: seq<Op>, traffic: Traffic)
    returns (replies: seq<Reply>, root: Inode, m: BlockCacheManager)
    requires inodeBitmapBlocks > 0 && Faithful(traffic)
    requires 1 + inodeBitmapBlocks + InodeArea(inodeBitmapBlocks) <= totalBlocks <= |device.blocks|
    requires RunAdmissible(Spec([], map[]), Plan(totalBlocks, inodeBitmapBlocks), ops)
    requires Durable(Spec([], map[]), Plan(totalBlocks, inodeBitmapBlocks), ops, true)
    modifies device
    ensures fresh(root.fs) && fresh(root.fs.disk) && fresh(m) && m.device == device && m.queue == []
    ensures Sane(root) && Mirrors(root, m) && Settled(root, m) && root.fs.g == Plan(totalBlocks, inodeBitmapBlocks)
    ensures SuperBlockOf(root.fs.disk.blocks[0], totalBlocks, root.fs.g)
    ensures (View(root), replies) == RunSpec(Spec([], map[]), Plan(totalBlocks, inodeBitmapBlocks), ops)
  {
    hide Sane, View, RunAdmissible, RunSpec, Durable, Mirrors, Faithful, SuperBlockOf;
    var r, m0 := CachedFormat(device, totalBlocks, inodeBitmapBlocks, traffic);
    replies := CachedRun(r, m0, ops, 1, traffic);
    root, m := Restart(device, r, totalBlocks);
  }

  /** Writing the block of the root's inode last fits every operation. */
  function RootLate(g: Geometry): Traffic
  {
    (k: nat, quiet: bool, before: seq<Block>, after: seq<Block>) =>
      if |before| == |after| then LateTraffic(before, after, g.InodeStart()) else []
  }

  lemma RootLateFaithful(g: Geometry)
    ensures Faithful(RootLate(g)) && RootLast(RootLate(g), g)
  {
    hide Carries, LateTraffic;
    forall k: nat, quiet: bool, before: seq<Block>, after: seq<Block> | Possible(quiet, before, after)
      ensures Carries(RootLate(g)(k, quiet, before, after), before, after) && (quiet ==> ReadsOnly(RootLate(g)(k, quiet, before, after)))
    {
      LateCarries(before, after, g.InodeStart());
    }
  }

  /** The other runs: format, and any run in which a successful link came after the last
      sync. There is a use of the cache with which the device ends up behind, and whatever
      file system comes up from it lacks names. */
  method FormatRunLost(device: Disk, totalBlocks: u32, inodeBitmapBlocks: u32, ops: seq<Op>)
    returns (replies: seq<Reply>, root: Inode, m: BlockCacheManager)
    requires inodeBitmapBlocks > 0
    requires 1 + inodeBitmapBlocks + InodeArea(inodeBitmapBlocks) <= totalBlocks <= |device.blocks|
    requires RunAdmissible(Spec([], map[]), Plan(totalBlocks, inodeBitmapBlocks), ops)
    requires !Durable(Spec([], map[]), Plan(totalBlocks, inodeBitmapBlocks), ops, true)
    modifies device
    ensures fresh(root.fs) && fresh(m) && m.device == device && Sane(root) && Mirrors(root, m) && Behind(root, m)
    ensures (View(root), replies) == RunSpec(Spec([], map[]), Plan(totalBlocks, inodeBitmapBlocks), ops)
  {
    hide Root, Use, Abs, RunAdmissible, RunSpec, Durable, Mirrors, Faithful, RootLast, SuperBlockOf, Behind, RootLate,
      Settled;
    var g := Plan(totalBlocks, inodeBitmapBlocks);
    RootLateFaithful(g);
    root, m := CachedFormat(device, totalBlocks, inodeBitmapBlocks, RootLate(g));
    replies := CachedRun(root, m, ops, 1, RootLate(g));
  }

  /** One way to use the cache that fits every operation. */
  function Diffs(): Traffic
  {
    (k: nat, quiet: bool, before: seq<Block>, after: seq<Block>) =>
      if |before| == |after| then DiffTraffic(before, after, 0) else []
  }

  lemma DiffsFaithful()
    ensures Faithful(Diffs())
  {
    hide AllAllowed, PlainRun, NoSyncs;
    forall k: nat, quiet: bool, before: seq<Block>, after: seq<Block> | Possible(quiet, before, after)
      ensures Carries(Diffs()(k, quiet, before, after), before, after) && (quiet ==> ReadsOnly(Diffs()(k, quiet, before, after)))
    {
      DiffGets(before, after, 0);
      DiffCarries(before, after, 0);
      AllChanged(before, after);
    }
  }

  /** A link that changes at most sixteen blocks. */
  method SmallLink(root: Inode, oldName: seq<byte>, newName: seq<byte>) returns (r: int)
    requires Sane(root) && Admissible(View(root), root.fs.g, OpLink(oldName, newName))
    requires Lookup(View(root).names, newName) == None && Lookup(View(root).names, oldName).Some?
    requires LinkBlocks(|View(root).names|) <= 16
    modifies root.fs, root.fs.disk
    ensures Sane(root) && r == 0 && Lookup(View(root).names, newName).Some?
    ensures |root.fs.disk.blocks| == |old(root.fs.disk.blocks)| && |Changed(old(root.fs.disk.blocks), root.fs.disk.blocks)| <= 16
  {
    hide Root, Use, Abs, Lookup, Changed, LinkBlocks, Admissible, Step;
    ghost var s := View(root);
    r := ExecLink(root, oldName, newName);
    LinkStep(s, root.fs.g, oldName, newName);
  }

  /** A link is not synced. Over a cache just mounted, the blocks a link changes in a small
      directory fit the cache, so that nothing of it may be on the device when the machine
      goes down: the file system that then comes up is the one before the link. */
  method LinkLost(root: Inode, m: BlockCacheManager, oldName: seq<byte>, newName: seq<byte>, ghost totalBlocks: nat)
    returns (r: int, again: Inode, m': BlockCacheManager)
    requires Sane(root) && Mirrors(root, m) && Settled(root, m) && m.queue == []
    requires Admissible(View(root), root.fs.g, OpLink(oldName, newName))
    requires Lookup(View(root).names, newName) == None && Lookup(View(root).names, oldName).Some?
    requires LinkBlocks(|View(root).names|) <= 16 && SuperBlockOf(root.fs.disk.blocks[0], totalBlocks, root.fs.g)
    modifies root.fs, root.fs.disk, m, m.queue, m.device
    ensures Sane(root) && Mirrors(root, m) && r == 0 && Lookup(View(root).names, newName).Some?
    ensures fresh(again.fs) && Sane(again) && Mirrors(again, m') && m'.device == m.device
    ensures View(again) == old(View(root)) && Lookup(View(again).names, newName) == None
  {
    hide Sane, View, Shows, SuperBlockOf, Lookup, Changed, LinkBlocks, Admissible;
    var before := root.fs.disk.blocks;
    var was, _ := Restart(m.device, root, totalBlocks); // to compare with
    r := SmallLink(root, oldName, newName);
    WriteLate(m, before, root.fs.disk.blocks);
    again, m' := Restart(m.device, was, totalBlocks);
  }

  /** Changes to at most sixteen blocks, none of which reaches the device. */
  method WriteLate(m: BlockCacheManager, before: seq<Block>, after: seq<Block>)
    requires Shows(m, Plain(before, multiset{})) && m.queue == [] && |before| == |after| && |Changed(before, after)| <= 16
    modifies m, m.queue, m.device
    ensures Shows(m, Plain(after, multiset{})) && m.device.blocks == old(m.device.blocks)
    ensures fresh((set e | e in m.queue) - old(set e | e in m.queue))
  {
    hide Shows, AllAllowed, PlainRun, FromTrace, Moments, NoSyncs, Changed;
    var t := DiffTraffic(before, after, 0);
    DiffGets(before, after, 0);
    DiffCarries(before, after, 0);
    AllChanged(before, after);
    var _ := CacheRun(m, t, Plain(before, multiset{}));
  }

  lemma LinkStep(s: Spec, g: Geometry, oldName: seq<byte>, newName: seq<byte>)
    requires Admissible(s, g, OpLink(oldName, newName))
    requires Lookup(s.names, newName) == None && Lookup(s.names, oldName).Some?
    ensures Step(s, g, OpLink(oldName, newName)) ==
      (s.(names := s.names + [Entry(newName, Lookup(s.names, oldName).value)]), Code(0))
    ensures Lookup(Step(s, g, OpLink(oldName, newName)).0.names, newName).Some?
  {
    hide Lookup, RoomForName;
    var e := Entry(newName, Lookup(s.names, oldName).value);
    LookupListed(s.names + [e], newName);
    assert (s.names + [e])[|s.names|].name == newName;
  }

  lemma CreateThenLink(g: Geometry, a: seq<byte>, b: seq<byte>)
    requires a != b && RunAdmissible(Spec([], map[]), g, [OpCreate(a), OpLink(a, b)])
    ensures var s0 := Spec([], map[]);
      && RunAdmissible(s0, g, [OpCreate(a)]) && Durable(s0, g, [OpCreate(a)], true)
      && var s1 := RunSpec(s0, g, [OpCreate(a)]).0;
      && |s1.names| == 1 && Lookup(s1.names, a).Some? && Lookup(s1.names, b) == None && Admissible(s1, g, OpLink(a, b))
    ensures LinkBlocks(1) <= 16
  {
    hide Admissible;
    var s0 := Spec([], map[]);
    assert [OpCreate(a), OpLink(a, b)][1..] == [OpLink(a, b)] && [OpCreate(a)][1..] == [];
    CreateStep(s0, g, a);
    RunOne(s0, g, OpCreate(a));
    var s1 := Step(s0, g, OpCreate(a)).0;
    assert Durable(s1, g, [], true);
    LookupListed(s1.names, a);
    LookupListed(s1.names, b);
    assert s1.names[0].name == a;
    FewBlocks();
  }

  lemma CreateStep(s: Spec, g: Geometry, name: seq<byte>)
    requires s == Spec([], map[]) && Admissible(s, g, OpCreate(name))
    ensures Synced(OpCreate(name), Step(s, g, OpCreate(name)).1)
    ensures |Step(s, g, OpCreate(name)).0.names| == 1 && Step(s, g, OpCreate(name)).0.names[0].name == name
  {
    hide LeastFree, RoomForName, InodeLimit;
    LookupListed(s.names, name);
  }

  lemma FewBlocks()
    ensures LinkBlocks(1) <= 16
  {
  }

  /** It does happen: format, create a file, restart, link it under a second name, and go
      down. Every call succeeded, and what comes up knows only the first name. */
  method LinkLostAfterRestart(device: Disk, totalBlocks: u32, inodeBitmapBlocks: u32, a: seq<byte>, b: seq<byte>,
      traffic: Traffic)
    returns (replies: seq<Reply>, r: int, again: Inode)
    requires inodeBitmapBlocks > 0 && Faithful(traffic) && a != b
    requires 1 + inodeBitmapBlocks + InodeArea(inodeBitmapBlocks) <= totalBlocks <= |device.blocks|
    requires RunAdmissible(Spec([], map[]), Plan(totalBlocks, inodeBitmapBlocks), [OpCreate(a), OpLink(a, b)])
    modifies device
    ensures RunAdmissible(Spec([], map[]), Plan(totalBlocks, inodeBitmapBlocks), [OpCreate(a)])
    ensures fresh(again.fs) && Sane(again) && r == 0
    ensures (View(again), replies) == RunSpec(Spec([], map[]), Plan(totalBlocks, inodeBitmapBlocks), [OpCreate(a)])
    ensures Lookup(View(again).names, a).Some? && Lookup(View(again).names, b) == None
  {
    hide Sane, View, RunAdmissible, RunSpec, Durable, Faithful, SuperBlockOf, Lookup, LinkBlocks, Admissible;
    CreateThenLink(Plan(totalBlocks, inodeBitmapBlocks), a, b);
    var root, m;
    replies, root, m := FormatRunRestart(device, totalBlocks, inodeBitmapBlocks, [OpCreate(a)], traffic);
    var m';
    r, again, m' := LinkLost(root, m, a, b, totalBlocks);
  }
}
