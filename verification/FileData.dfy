/** What growth and tear-down mean for a file, and the byte-level reads and writes
    over the tree (easy-fs/src/layout.rs:96-381). */
module FileData {
  import opened Words
  import opened BitmapLayer
  import opened Layout
  import opened DiskInodes

  /** All blocks of the inode, in canonical order. */
  function Blocks(v: InodeView, d: seq<Block>): (r: seq<u32>)
  {
    Tree(v, d, TotalBlocks(DataBlocks(v.size)))
  }

  /** The inode's tree is a tree of distinct blocks of the device. */
  predicate Sound(v: InodeView, d: seq<Block>)
  {
    |v.direct| == 28 && v.size <= MAX_SIZE && Distinct(Blocks(v, d)) && InRange(Blocks(v, d), |d|)
  }

  lemma DataBlockInTree(v: InodeView, d: seq<Block>, i: nat)
    requires v.size <= MAX_SIZE && i < DataBlocks(v.size)
    ensures DataPos(i) < |Blocks(v, d)| <= MAX_TREE && !IsIndex(DataPos(i))
    ensures Blocks(v, d)[DataPos(i)] == BlockId(v, d, i)
  {
    DataPosBelowTotal(i, DataBlocks(v.size));
    SizeBounds(v.size, v.size);
  }

  /** Growth keeps the block number of every old data block, and never maps two
      data blocks of the file to one block. */
  lemma GrowthKeepsBlockIds(v: InodeView, d: seq<Block>, v': InodeView, d': seq<Block>, full: seq<u32>, i: nat, j: nat)
    requires v.size <= v'.size <= MAX_SIZE && Distinct(full)
    requires |Blocks(v, d)| <= |full| && full[..|Blocks(v, d)|] == Blocks(v, d)
    requires |full| == TotalBlocks(DataBlocks(v'.size)) && Filled(v', d, d', full, |full|)
    requires i < DataBlocks(v'.size) && j < DataBlocks(v'.size)
    ensures i < DataBlocks(v.size) ==> BlockId(v', d', i) == BlockId(v, d, i)
    ensures BlockId(v', d', i) == BlockId(v', d', j) ==> i == j
  {
    hide Tree, Value, TotalBlocks;
    DataBlockInTree(v', d', i);
    DataBlockInTree(v', d', j);
    assert Blocks(v', d') == full;
    if i < DataBlocks(v.size) {
      DataBlockInTree(v, d, i);
    }
    if i < j {
      DataPosMonotone(i, j);
    } else if j < i {
      DataPosMonotone(j, i);
    }
  }

  function Flatten(vs: seq<seq<u32>>): seq<u32>
  {
    if vs == [] then [] else Flatten(vs[..|vs| - 1]) + vs[|vs| - 1]
  }

  lemma {:induction false} FlattenPrefix(vs: seq<seq<u32>>, k: nat)
    requires k <= |vs|
    ensures |Flatten(vs[..k])| <= |Flatten(vs)| && Flatten(vs)[..|Flatten(vs[..k])|] == Flatten(vs[..k])
  {
    if k < |vs| {
      FlattenPrefix(vs[..|vs| - 1], k);
      assert vs[..|vs| - 1][..k] == vs[..k];
    } else {
      assert vs[..k] == vs;
    }
  }

  /** The i-th growth step is given exactly the blocks it asks for. */
  predicate GrowthPlan(sizes: seq<u32>, vs: seq<seq<u32>>)
  {
    && |sizes| == |vs|
    && forall i :: 0 <= i < |sizes| ==> GrowthStep(sizes, vs, i)
  }

  predicate GrowthStep(sizes: seq<u32>, vs: seq<seq<u32>>, i: nat)
    requires i < |sizes| == |vs|
  {
    var before := if i == 0 then 0 else sizes[i - 1];
    && before <= sizes[i] <= MAX_SIZE
    && |vs[i]| == TotalBlocks(DataBlocks(sizes[i])) - TotalBlocks(DataBlocks(before))
  }

  /** Growing a fresh inode any number of times and then clearing it gives back
      exactly the blocks that were put in, in the same order. */
  method GrowThenClear(inode: DiskInode, id: u32, dir: bool, sizes: seq<u32>, vs: seq<seq<u32>>, disk: Disk)
    returns (back: seq<u32>)
    requires GrowthPlan(sizes, vs)
    requires Distinct(Flatten(vs)) && InRange(Flatten(vs), |disk.blocks|)
    modifies inode, disk
    ensures back == Flatten(vs)
    ensures inode.size == 0
  {
    hide Distinct, InRange, Filled, Tree, TotalBlocks, DataBlocks;
    inode.Initialize(id, dir);
    ghost var n := |disk.blocks|;
    EmptyTree(inode.View(), disk.blocks);
    var k := 0;
    while k < |sizes|
      invariant 0 <= k <= |sizes| && |disk.blocks| == n
      invariant |inode.direct| == 28 && inode.size == (if k == 0 then 0 else sizes[k - 1])
      invariant Blocks(inode.View(), disk.blocks) == Flatten(vs[..k])
    {
      assert GrowthStep(sizes, vs, k);
      assert vs[..k + 1][..k] == vs[..k];
      assert Flatten(vs[..k + 1]) == Flatten(vs[..k]) + vs[k];
      FlattenPrefix(vs, k + 1);
      PrefixDistinct(Flatten(vs), |Flatten(vs[..k + 1])|, n);
      ghost var d0 := disk.blocks;
      inode.IncreaseSize(sizes[k], vs[k], disk);
      FilledAll(inode.View(), d0, disk.blocks, Flatten(vs[..k + 1]));
      k := k + 1;
    }
    assert vs[..k] == vs;
    SizeBound(sizes, vs);
    back := inode.ClearSize(disk);
  }

  lemma SizeBound(sizes: seq<u32>, vs: seq<seq<u32>>)
    requires GrowthPlan(sizes, vs)
    ensures |sizes| > 0 ==> sizes[|sizes| - 1] <= MAX_SIZE
  {
    if |sizes| > 0 {
      assert GrowthStep(sizes, vs, |sizes| - 1);
    }
  }

  lemma EmptyTree(v: InodeView, d: seq<Block>)
    requires v.size == 0
    ensures Blocks(v, d) == []
  {
  }

  lemma FilledAll(v: InodeView, d0: seq<Block>, d: seq<Block>, full: seq<u32>)
    requires Filled(v, d0, d, full, |full|)
    ensures Tree(v, d, |full|) == full && |v.direct| == 28 && |d| == |d0|
  {
  }

  /** Byte k of the file's mapped blocks. */
  function ByteAt(v: InodeView, d: seq<Block>, k: nat): byte
  {
    var id := BlockId(v, d, k / 512);
    if id < |d| then d[id][k % 512] else 0
  }

  /** The file as the reader sees it. */
  function Contents(v: InodeView, d: seq<Block>): (r: seq<byte>)
    ensures |r| == v.size
  {
    seq(v.size, k requires 0 <= k < v.size => ByteAt(v, d, k))
  }

  /** b is a data block of the file. */
  ghost predicate DataBlockOf(v: InodeView, d: seq<Block>, b: nat)
  {
    exists i :: 0 <= i < DataBlocks(v.size) && BlockId(v, d, i) == b
  }

  /** Replacing one data block changes the bytes it holds and nothing else. */
  lemma DataWrite(v: InodeView, d: seq<Block>, i: nat, b: Block)
    requires Sound(v, d) && i < DataBlocks(v.size)
    ensures BlockId(v, d, i) < |d|
    ensures var d' := d[BlockId(v, d, i) := b];
      && Blocks(v, d') == Blocks(v, d)
      && (forall k :: 0 <= k < 512 * DataBlocks(v.size) ==>
            BlockId(v, d', k / 512) == BlockId(v, d, k / 512) &&
            ByteAt(v, d', k) == if k / 512 == i then b[k % 512] else ByteAt(v, d, k))
  {
    hide Value, Tree, At, TotalBlocks, DataPos, DataSlot;
    DataBlockInTree(v, d, i);
    var id := BlockId(v, d, i);
    var d' := d[id := b];
    var blocks := Blocks(v, d);
    forall q | 0 <= q < |blocks| && IsIndex(q) && At(v, d, q) < |d|
      ensures d'[At(v, d, q)] == d[At(v, d, q)]
    {
      TreeIsAt(v, d, |blocks|, q);
    }
    TreeFrame(v, d, d', |blocks|);
    forall k | 0 <= k < 512 * DataBlocks(v.size)
      ensures BlockId(v, d', k / 512) == BlockId(v, d, k / 512)
      ensures ByteAt(v, d', k) == if k / 512 == i then b[k % 512] else ByteAt(v, d, k)
    {
      DataBlockInTree(v, d, k / 512);
      DataBlockInTree(v, d', k / 512);
      if k / 512 != i {
        DataPosInjective(k / 512, i);
      }
    }
  }

  lemma TreeIsAt(v: InodeView, d: seq<Block>, t: nat, q: nat)
    requires q < t
    ensures Tree(v, d, t)[q] == At(v, d, q)
  {
  }

  lemma DataPosInjective(i: nat, j: nat)
    requires i < INDIRECT2_BOUND && j < INDIRECT2_BOUND
    ensures DataPos(i) == DataPos(j) ==> i == j
  {
    if i < j {
      DataPosMonotone(i, j);
    } else if j < i {
      DataPosMonotone(j, i);
    }
  }

  /** `get_block_id` is safe for every data block of a sound file. */
  lemma BlockIdReady(v: InodeView, d: seq<Block>, i: nat)
    requires Sound(v, d) && i < DataBlocks(v.size)
    ensures |v.direct| == 28 && i < INDIRECT2_BOUND && BlockId(v, d, i) < |d|
    ensures i >= 28 ==> (if i < 156 then v.indirect1 else v.indirect2) < |d|
    ensures i >= 156 ==> U32At(d[v.indirect2], (i - 156) / 128) < |d|
  {
    hide Tree, Value, TotalBlocks, Pos, SlotAt, InRange, Distinct;
    DataBlockInTree(v, d, i);
    SizeBounds(v.size, v.size);
    TreeAt(v, d, TotalBlocks(DataBlocks(v.size)), DataSlot(i));
  }

  /** How many of `len` bytes there are from `offset` on. */
  function ReadLen(size: nat, offset: nat, len: nat): nat
  {
    var end := if offset + len < size then offset + len else size;
    if offset < end then end - offset else 0
  }

  /** `end_current_block`: the end of the block pos lies in, or `end` if that is nearer. */
  function ChunkEnd(pos: nat, end: nat): (r: nat)
    requires pos < end
    ensures pos < r <= end && pos % 512 + (r - pos) <= 512
    ensures r < end ==> r / 512 == pos / 512 + 1
  {
    var blockEnd := (pos / BLOCK_SZ + 1) * BLOCK_SZ;
    if blockEnd < end then blockEnd else end
  }

  /** The buffer with the first n of the file's bytes from `from` on in it. */
  predicate ReadSoFar(buf: seq<byte>, v: InodeView, d: seq<Block>, from: nat, n: nat, before: seq<byte>)
  {
    n <= |before| && buf == Bytes(v, d, from, n) + before[n..]
  }

  lemma ReadStart(v: InodeView, d: seq<Block>, from: nat, before: seq<byte>)
    ensures ReadSoFar(before, v, d, from, 0, before)
  {
  }

  lemma ReadEnd(buf: seq<byte>, v: InodeView, d: seq<Block>, from: nat, n: nat, before: seq<byte>)
    requires ReadSoFar(buf, v, d, from, n, before) && from + n <= v.size
    ensures |buf| == |before| && buf[..n] == Contents(v, d)[from..from + n] && buf[n..] == before[n..]
  {
    hide ByteAt;
    assert Bytes(v, d, from, n) == Contents(v, d)[from..from + n];
  }

  /** Copies `len` bytes of one block behind the n bytes read so far. */
  method ReadChunk(inode: DiskInode, block: nat, pos: nat, len: nat, buf: array<byte>, n: nat, disk: Disk,
      ghost v: InodeView, ghost d: seq<Block>, ghost from: nat, ghost before: seq<byte>)
    requires v == inode.View() && d == disk.blocks && Sound(v, d)
    requires from + n == pos && block == pos / 512 < DataBlocks(v.size) && pos % 512 + len <= 512
    requires n + len <= buf.Length == |before|
    requires ReadSoFar(buf[..], v, d, from, n, before)
    modifies buf
    ensures ReadSoFar(buf[..], v, d, from, n + len, before)
  {
    hide Sound, BlockId, U32At, ByteAt, Bytes;
    BlockIdReady(v, d, block);
    var id := inode.GetBlockId(block, disk);
    var src := disk.blocks[id][pos % BLOCK_SZ..pos % BLOCK_SZ + len];
    SourceBytes(v, d, from, n, len);
    CopyInto(buf, n, src);
  }

  /** Copies the file's bytes from `offset` on, as far as the buffer and the file reach. */
  method ReadAt(inode: DiskInode, offset: nat, buf: array<byte>, disk: Disk) returns (n: nat)
    requires Sound(inode.View(), disk.blocks)
    modifies buf
    ensures n == ReadLen(inode.size, offset, buf.Length) <= buf.Length
    ensures n > 0 ==> offset + n <= inode.size
    ensures n < buf.Length ==> offset + n >= inode.size
    ensures n > 0 ==> buf[..n] == Contents(inode.View(), disk.blocks)[offset..offset + n]
    ensures buf[n..] == old(buf[n..])
  {
    hide Sound, BlockId, U32At, ByteAt, ChunkEnd, Bytes, Contents, ReadSoFar;
    ghost var v, d, before := inode.View(), disk.blocks, buf[..];
    var end := if offset + buf.Length < inode.size then offset + buf.Length else inode.size;
    n := 0;
    if offset >= end {
      return;
    }
    ReadStart(v, d, offset, before);
    var pos := offset;
    var block := pos / BLOCK_SZ;
    while true
      invariant offset <= pos < end && block == pos / 512 && n == pos - offset
      invariant ReadSoFar(buf[..], v, d, offset, n, before)
      decreases end - pos
    {
      var blockEnd := ChunkEnd(pos, end);
      var len := blockEnd - pos;
      ReadChunk(inode, block, pos, len, buf, n, disk, v, d, offset, before);
      n := n + len;
      if blockEnd == end {
        break;
      }
      block := block + 1;
      pos := blockEnd;
    }
    ReadEnd(buf[..], v, d, offset, n, before);
  }

  /** `copy_from_slice` into part of a buffer. */
  method CopyInto(buf: array<byte>, at: nat, src: seq<byte>)
    requires at + |src| <= buf.Length
    modifies buf
    ensures buf[..] == old(buf[..])[..at] + src + old(buf[..])[at + |src|..]
  {
    forall k | 0 <= k < |src| {
      buf[at + k] := src[k];
    }
  }

  /** len bytes of the file's mapped blocks. */
  function Bytes(v: InodeView, d: seq<Block>, from: nat, len: nat): (r: seq<byte>)
    ensures |r| == len
  {
    seq<byte>(len, k requires 0 <= k < len => ByteAt(v, d, from + k))
  }

  lemma SameBlock(pos: nat, k: nat)
    requires pos % 512 + k < 512
    ensures (pos + k) / 512 == pos / 512 && (pos + k) % 512 == pos % 512 + k
  {
  }

  /** A run of bytes inside one block is a slice of that block. */
  lemma SourceBytes(v: InodeView, d: seq<Block>, from: nat, n: nat, len: nat)
    requires var pos := from + n; pos % 512 + len <= 512 && BlockId(v, d, pos / 512) < |d|
    ensures var pos := from + n;
      Bytes(v, d, from, n + len) == Bytes(v, d, from, n) + d[BlockId(v, d, pos / 512)][pos % 512..pos % 512 + len]
  {
    hide BlockId;
    var pos := from + n;
    var all := Bytes(v, d, from, n + len);
    var part := d[BlockId(v, d, pos / 512)][pos % 512..pos % 512 + len];
    forall k | n <= k < n + len
      ensures all[k] == part[k - n]
    {
      SameBlock(pos, k - n);
      assert from + k == pos + (k - n);
      assert all[k] == ByteAt(v, d, from + k);
    }
  }

  /** Overwrites bytes from..from+|src| of a block. */
  function SpliceBlock(b: Block, from: nat, src: seq<byte>): (r: Block)
    requires from + |src| <= 512
  {
    b[..from] + src + b[from + |src|..]
  }

  /** Every mapped byte of the file after `src` was written at `offset`. */
  ghost predicate Written(v: InodeView, d0: seq<Block>, d: seq<Block>, offset: nat, src: seq<byte>)
  {
    && |d| == |d0| && Sound(v, d) && Blocks(v, d) == Blocks(v, d0)
    && (forall i :: 0 <= i < DataBlocks(v.size) ==> BlockId(v, d, i) == BlockId(v, d0, i))
    && (forall k :: 0 <= k < 512 * DataBlocks(v.size) ==>
          ByteAt(v, d, k) == if offset <= k < offset + |src| then src[k - offset] else ByteAt(v, d0, k))
    && (forall b :: 0 <= b < |d| && !DataBlockOf(v, d0, b) ==> d[b] == d0[b])
  }

  /** Overwrites the file's bytes from `offset` on. The size has been set before; the
      source asserts `start <= end`, and looks the first block up in any case: where there
      is nothing to write any block on the disk will do. */
  method WriteAt(inode: DiskInode, offset: nat, buf: seq<byte>, disk: Disk) returns (n: nat)
    requires Sound(inode.View(), disk.blocks) && offset <= inode.size
    requires offset / 512 < DataBlocks(inode.size) || Found(inode.View(), disk.blocks, offset / 512)
    modifies disk
    ensures n == if offset + |buf| < inode.size then |buf| else inode.size - offset
    ensures Written(inode.View(), old(disk.blocks), disk.blocks, offset, buf[..n])
  {
    hide Sound, BlockId, Found, U32At, Written, Blocks, ChunkEnd;
    ghost var v, d0 := inode.View(), disk.blocks;
    var end := if offset + |buf| < inode.size then offset + |buf| else inode.size;
    var start := offset;
    var block := start / BLOCK_SZ;
    n := 0;
    NothingWritten(v, d0, offset);
    while true
      invariant offset <= start <= end && block == start / 512 && n == start - offset
      invariant start == offset || start < end
      invariant n == 0 ==> disk.blocks == d0
      invariant Sound(v, disk.blocks) && Written(v, d0, disk.blocks, offset, buf[..n]) && |disk.blocks| == |d0|
      decreases end - start
    {
      var blockEnd := if start < end then ChunkEnd(start, end) else end;
      var len := blockEnd - start;
      if block < DataBlocks(v.size) {
        BlockIdReady(v, disk.blocks, block);
        WriteChunk(v, d0, disk.blocks, offset, buf[..n], buf[n..n + len]);
      } else {
        EmptyChunk(v, d0, block, start % BLOCK_SZ);
        assert buf[n..n + len] == [];
      }
      var id := inode.GetBlockId(block, disk);
      disk.blocks := disk.blocks[id := SpliceBlock(disk.blocks[id], start % BLOCK_SZ, buf[n..n + len])];
      assert buf[..n] + buf[n..n + len] == buf[..n + len];
      n := n + len;
      if blockEnd == end {
        break;
      }
      block := block + 1;
      start := blockEnd;
    }
  }

  /** Looking up data block i stays on the disk. */
  predicate Found(v: InodeView, d: seq<Block>, i: nat)
  {
    && |v.direct| == 28 && i < INDIRECT2_BOUND
    && (i >= 28 ==> (if i < 156 then v.indirect1 else v.indirect2) < |d|)
    && (i >= 156 ==> U32At(d[v.indirect2], (i - 156) / 128) < |d|)
    && BlockId(v, d, i) < |d|
  }

  /** Writing nothing to the block a slot names. */
  lemma EmptyChunk(v: InodeView, d: seq<Block>, i: nat, from: nat)
    requires Found(v, d, i) && from <= 512
    ensures |v.direct| == 28 && i < INDIRECT2_BOUND && BlockId(v, d, i) < |d|
    ensures i >= 28 ==> (if i < 156 then v.indirect1 else v.indirect2) < |d|
    ensures i >= 156 ==> U32At(d[v.indirect2], (i - 156) / 128) < |d|
    ensures var b := BlockId(v, d, i); d[b := SpliceBlock(d[b], from, [])] == d
  {
    var b := BlockId(v, d, i);
    assert SpliceBlock(d[b], from, []) == d[b];
  }

  lemma NothingWritten(v: InodeView, d: seq<Block>, offset: nat)
    requires Sound(v, d)
    ensures Written(v, d, d, offset, [])
  {
  }

  /** One more chunk, inside one block. */
  lemma WriteChunk(v: InodeView, d0: seq<Block>, d: seq<Block>, offset: nat, done: seq<byte>, more: seq<byte>)
    requires Written(v, d0, d, offset, done) && Sound(v, d0)
    requires var start := offset + |done|;
      start / 512 < DataBlocks(v.size) && start % 512 + |more| <= 512
    ensures var start := offset + |done|; var id := BlockId(v, d, start / 512);
      id < |d| && var d' := d[id := SpliceBlock(d[id], start % 512, more)];
      Sound(v, d') && Written(v, d0, d', offset, done + more)
  {
    hide Value, BlockId, Tree, Distinct, InRange, TotalBlocks;
    var start := offset + |done|;
    var i := start / 512;
    DataWrite(v, d, i, ZeroBlock());
    var id := BlockId(v, d, i);
    var b := SpliceBlock(d[id], start % 512, more);
    DataWrite(v, d, i, b);
    var d' := d[id := b];
    forall k | 0 <= k < 512 * DataBlocks(v.size)
      ensures ByteAt(v, d', k) == if offset <= k < offset + |done + more| then (done + more)[k - offset] else ByteAt(v, d0, k)
    {
      if k / 512 == i {
        assert ByteAt(v, d', k) == b[k % 512];
        assert ByteAt(v, d, k) == d[id][k % 512];
        assert k - start == k % 512 - start % 512;
      }
    }
    forall j | 0 <= j < DataBlocks(v.size)
      ensures BlockId(v, d', j) == BlockId(v, d, j)
    {
      assert (512 * j) / 512 == j;
    }
  }
}
