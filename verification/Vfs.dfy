/** The file operations of an open inode (easy-fs/src/vfs.rs) over the file system
    object (easy-fs/src/efs.rs). */
module Vfs {
  import opened Words
  import opened Sets
  import opened BitmapLayer
  import opened Layout
  import opened DiskInodes
  import opened FileData
  import opened Efs
  import opened FsState
  import opened FsSteps

  /** What a user of the file system can observe of one inode. */
  datatype FileState = FileState(ino: u32, nlink: u32, isDir: bool, data: seq<byte>)

  ghost function FileAt(d: seq<Block>, g: Geometry, id: nat): FileState
    requires g.Fits(d) && id < g.MaxInodes()
  {
    var v := InodeAt(d, g, id);
    FileState(v.id, v.nlink, v.isDir, Contents(v, d))
  }

  ghost function FilesOf(d: seq<Block>, g: Geometry): map<nat, FileState>
    requires g.Fits(d)
  {
    map id: nat | id < g.MaxInodes() && Used(d, g, id) :: FileAt(d, g, id)
  }

  /** Blocks a file of n bytes takes, index blocks included. */
  function Footprint(n: nat): nat { TotalBlocks(DataBlocks(n)) }

  function Max(a: nat, b: nat): nat { if a < b then b else a }

  /** Storing the worked-on inode updates one entry of the observable files. */
  lemma FilesAfter(d0: seq<Block>, d3: seq<Block>, g: Geometry, own: Owners, id: nat, v': InodeView, full: seq<u32>)
    requires FsInv(d0, g, own) && Used(d0, g, id)
    requires ReadyToStore(d0, d3, g, own, id, v', full)
    ensures var d4 := StoreAt(d3, g, id, v');
      && g.Fits(d4) && FsInv(d4, g, Reassign(own, id, full)) && InodeAt(d4, g, id) == v'
      && FilesOf(d4, g) == FilesOf(d0, g)[id := FileState(v'.id, v'.nlink, v'.isDir, Contents(v', d3))]
      && Used(d4, g, id)
      && Kept(d0, d4, g)
  {
    hide FsInv, Used, InodeAt, Contents, StoreAt, Reassign;
    InvInodes(d0, g, own);
    CommitInode(d0, d3, g, own, id, v', full);
    var d4 := StoreAt(d3, g, id, v');
    InvInodes(d4, g, Reassign(own, id, full));
    StoreAtFacts(d3, g, id, v');
    var files, files' := FilesOf(d0, g), FilesOf(d4, g);
    forall i: nat
      ensures i in files' <==> i in files
      ensures i in files && i != id ==> files'[i] == files[i]
    {
    }
  }

  /** The super block and the set of inodes in use are as before. */
  ghost predicate Kept(d: seq<Block>, d': seq<Block>, g: Geometry)
  {
    |d'| == |d| > 0 && d'[0] == d[0] && forall i: nat :: Used(d', g, i) <==> Used(d, g, i)
  }

  class EasyFileSystem {
    const disk: Disk
    const inodeBitmap: Bitmap
    const dataBitmap: Bitmap
    const inodeAreaStart: nat
    const dataAreaStart: nat
    ghost const g: Geometry
    ghost var own: Owners

    ghost predicate Regions()
    {
      && inodeBitmap == g.InodeBitmap() && dataBitmap == g.DataBitmap()
      && inodeAreaStart == g.InodeStart() && dataAreaStart == g.DataStart()
    }

    ghost predicate Valid()
      reads this, disk
    {
      Regions() && FsInv(disk.blocks, g, own)
    }

    ghost function Files(): map<nat, FileState>
      reads this, disk
      requires Valid()
    {
      FilesOf(disk.blocks, g)
    }

    /** Data-area blocks in use. */
    ghost function InUse(): nat
      reads this
    {
      |own|
    }

    constructor (disk: Disk, inodeBitmap: Bitmap, dataBitmap: Bitmap, inodeAreaStart: nat, dataAreaStart: nat,
        ghost g: Geometry, ghost own: Owners)
      ensures this.disk == disk && this.g == g && this.own == own
      ensures this.inodeBitmap == inodeBitmap && this.dataBitmap == dataBitmap
      ensures this.inodeAreaStart == inodeAreaStart && this.dataAreaStart == dataAreaStart
    {
      this.disk, this.inodeBitmap, this.dataBitmap := disk, inodeBitmap, dataBitmap;
      this.inodeAreaStart, this.dataAreaStart := inodeAreaStart, dataAreaStart;
      this.g, this.own := g, own;
    }

    function GetDiskInodePos(id: nat): (r: (nat, nat))
      ensures Regions() ==> r == InodePos(g, id)
    {
      (inodeAreaStart + id / INODES_PER_BLOCK, id % INODES_PER_BLOCK * INODE_SIZE)
    }

    /** The least inode number not in use; the source panics when there is none. */
    method AllocInode() returns (id: nat)
      requires Regions() && g.Fits(disk.blocks)
      requires exists i: nat :: i < g.MaxInodes() && i < inodeBitmap.MaxBits() && !Used(disk.blocks, g, i)
      modifies disk
      ensures id < g.MaxInodes() && !Used(old(disk.blocks), g, id)
      ensures forall i: nat :: i < id ==> Used(old(disk.blocks), g, i)
      ensures forall i: nat :: Used(disk.blocks, g, i) <==> i == id || Used(old(disk.blocks), g, i)
      ensures |disk.blocks| == |old(disk.blocks)|
      ensures forall b :: 0 <= b < |disk.blocks| && !(1 <= b < g.InodeStart()) ==> disk.blocks[b] == old(disk.blocks)[b]
    {
      hide BlockBit, Bitmap.IsSet;
      ghost var n: nat :| n < g.MaxInodes() && n < inodeBitmap.MaxBits() && !Used(disk.blocks, g, n);
      var r := inodeBitmap.Alloc(disk);
      id := r.value;
    }

    /** A fresh data block. The source panics when the bitmap is full; while blocks
        remain, the number is inside the data area. */
    method AllocData(ghost d0: seq<Block>, ghost nb: seq<u32>) returns (b: u32)
      requires Regions() && Allocating(d0, disk.blocks, g, own, nb) && |own| + |nb| < g.dataAreaBlocks
      modifies disk
      ensures Allocating(d0, disk.blocks, g, own, nb + [b])
      ensures FreeZero(d0, g, own) ==> b < |disk.blocks| && disk.blocks[b] == ZeroBlock()
      ensures |disk.blocks| == |old(disk.blocks)| && |Changed(old(disk.blocks), disk.blocks)| <= 1
    {
      hide BlockBit, Bitmap.IsSet, Changed;
      SpaceLeft(d0, disk.blocks, g, own, nb);
      ghost var d := disk.blocks;
      var r := dataBitmap.Alloc(disk);
      ghost var n :| 0 <= n < g.dataAreaBlocks && !g.DataBitmap().IsSet(d, n);
      assert r.Some? && r.value <= n;
      AllocStep(d0, d, disk.blocks, g, own, nb, r.value);
      b := r.value + dataAreaStart;
    }

    /** Zeroes a block and gives it back. */
    method DeallocData(b: u32, ghost d0: seq<Block>, ghost t: seq<u32>, ghost k: nat)
      requires Regions() && Freeing(d0, disk.blocks, g, own, t, k)
      requires k < |t| && b == t[k] && b as nat in own && Distinct(t)
      requires forall i :: 0 <= i < |t| ==> g.DataStart() <= t[i] < g.DataEnd()
      modifies disk
      ensures Freeing(d0, disk.blocks, g, own, t, k + 1)
    {
      hide BlockBit, ZeroBlock;
      ghost var d := disk.blocks;
      FreeReady(d, g, own, t, k, d0);
      disk.blocks := disk.blocks[b := ZeroBlock()];
      BitsFrame(dataBitmap, d, disk.blocks);
      dataBitmap.Dealloc(disk, b - dataAreaStart);
      FreeStep(d0, d, disk.blocks, g, own, t, k);
    }
  }

  lemma FilledSame(v: InodeView, d: seq<Block>)
    requires Sound(v, d)
    ensures Filled(v, d, d, Blocks(v, d), |Blocks(v, d)|)
  {
    SizeBounds(v.size, v.size);
  }

  /** A handle on an inode: the place of its record on disk. */
  class Inode {
    const blockId: nat
    const blockOffset: nat
    const fs: EasyFileSystem
    ghost const id: nat

    constructor (blockId: nat, blockOffset: nat, fs: EasyFileSystem, ghost id: nat)
      ensures this.blockId == blockId && this.blockOffset == blockOffset && this.fs == fs && this.id == id
    {
      this.blockId, this.blockOffset, this.fs, this.id := blockId, blockOffset, fs, id;
    }

    /** The handle belongs to a file of a consistent file system. */
    ghost predicate Open()
      reads fs, fs.disk
    {
      fs.Valid() && (blockId, blockOffset) == InodePos(fs.g, id) && Used(fs.disk.blocks, fs.g, id)
    }

    ghost function State(): FileState
      requires Open()
      reads fs, fs.disk
    {
      FileAt(fs.disk.blocks, fs.g, id)
    }

    /** The inode record, as a view into its cached block. */
    method ReadDiskInode() returns (inode: DiskInode)
      requires Open()
      ensures fresh(inode) && inode.View() == InodeAt(fs.disk.blocks, fs.g, id)
      ensures Sound(inode.View(), fs.disk.blocks)
    {
      hide LoadInode, Contents, Sound, Used, Recorded, Placed, BitsMatch, FreeZero;
      InvSound(fs.disk.blocks, fs.g, fs.own, id);
      inode := new DiskInode(LoadInode(fs.disk.blocks[blockId], blockOffset / INODE_SIZE));
    }

    /** Short only at the end of the file. */
    method ReadAt(offset: nat, buf: array<byte>) returns (n: nat)
      requires Open()
      modifies buf
      ensures Open() && State() == old(State())
      ensures n == ReadLen(|State().data|, offset, buf.Length) <= buf.Length
      ensures n < buf.Length ==> offset + n >= |State().data|
      ensures n > 0 ==> offset + n <= |State().data| && buf[..n] == State().data[offset..offset + n]
      ensures buf[n..] == old(buf[n..])
    {
      hide InodeAt, Contents, Sound, Used, Recorded, Placed, BitsMatch, FreeZero;
      var inode := ReadDiskInode();
      n := FileData.ReadAt(inode, offset, buf, fs.disk);
    }

    /** Takes the blocks the growth needs and hands them to the tree. Nothing happens
        when the file is already longer. */
    method IncreaseSize(newSize: nat, inode: DiskInode) returns (ghost nb: seq<u32>, ghost d1: seq<Block>)
      requires Open() && inode.View() == InodeAt(fs.disk.blocks, fs.g, id) && newSize <= MAX_SIZE
      requires fs.InUse() + Footprint(Max(inode.size, newSize)) - Footprint(inode.size) <= fs.g.dataAreaBlocks
      modifies inode, fs.disk
      ensures var d0 := old(fs.disk.blocks); var v := old(inode.View());
        && Allocating(d0, d1, fs.g, fs.own, nb)
        && inode.View() == v.(size := Max(v.size, newSize), direct := inode.direct, indirect1 := inode.indirect1, indirect2 := inode.indirect2)
        && var full := Blocks(v, d0) + nb;
        && |full| == Footprint(inode.size)
        && Filled(inode.View(), d1, fs.disk.blocks, full, |full|)
        && |d1| == |d0| && |Changed(d0, d1)| <= |nb| == |full| - Footprint(v.size)
        && |inode.direct| == 28 && SpareZero(inode.View(), fs.disk.blocks) && |fs.disk.blocks| == |d0| > 0
    {
      hide InodeAt, Sound, Used, Recorded, Placed, BitsMatch, FreeZero, Filled, Allocating, Tree, TotalBlocks,
        TailZero, SpareZero, Distinct, InRange, Changed;
      ghost var d0, v := fs.disk.blocks, inode.View();
      ChangedNothing(d0);
      SpareOf(d0, fs.g, fs.own, id);
      InvSound(d0, fs.g, fs.own, id);
      SizesInBounds(v, d0);
      AllocStart(d0, fs.g, fs.own);
      if newSize < inode.size {
        nb, d1 := [], d0;
        FilledSame(v, d0);
        assert Blocks(v, d0) + [] == Blocks(v, d0);
        return;
      }
      var needed := TotalBlocks(DataBlocks(newSize)) - TotalBlocks(DataBlocks(inode.size));
      TotalMonotone(DataBlocks(inode.size), DataBlocks(newSize));
      var fresh_ := [];
      var i := 0;
      while i < needed
        invariant 0 <= i <= needed && |fresh_| == i
        invariant Allocating(d0, fs.disk.blocks, fs.g, fs.own, fresh_)
        invariant |fs.disk.blocks| == |d0| && |Changed(d0, fs.disk.blocks)| <= i
        modifies fs.disk
      {
        ghost var d := fs.disk.blocks;
        var b := fs.AllocData(d0, fresh_);
        ChangedInTurn(d0, d, fs.disk.blocks);
        fresh_ := fresh_ + [b];
        i := i + 1;
      }
      nb, d1 := fresh_, fs.disk.blocks;
      ExtendedTree(d0, d1, fs.g, fs.own, id, nb);
      inode.IncreaseSize(newSize, fresh_, fs.disk);
      ghost var full := Blocks(v, d0) + nb;
      FilledShape(inode.View(), d1, fs.disk.blocks, full, |full|);
      GrownSpare(d0, d1, fs.disk.blocks, fs.g, fs.own, id, nb, inode.View());
    }

    /** Writes the buffer at `offset`, growing the file first. Beyond the largest file
        or the last free block the source panics. An empty write at a block boundary at the
        end of the file looks up a block that is not mapped: it finds an unused slot, unless
        the index block for it is missing as well, and then block 0 passes for one, whose
        first word is no block number. */
    method WriteAt(offset: nat, buf: seq<byte>) returns (n: nat)
      requires Open()
      requires offset + |buf| <= MAX_SIZE
      requires offset / 512 < DataBlocks(Max(|State().data|, offset + |buf|)) || HasNeighbour(offset / 512)
      requires fs.InUse() + Footprint(Max(|State().data|, offset + |buf|)) - Footprint(|State().data|) <= fs.g.dataAreaBlocks
      modifies fs, fs.disk
      ensures Open() && n == |buf|
      ensures fs.Files() == old(fs.Files())[id := old(State()).(data := WriteSpec(old(State()).data, offset, buf))]
      ensures fs.InUse() == old(fs.InUse()) + Footprint(|State().data|) - Footprint(|old(State()).data|)
      ensures Kept(old(fs.disk.blocks), fs.disk.blocks, fs.g)
      ensures |Changed(old(fs.disk.blocks), fs.disk.blocks)| <= 1 + 2 * Footprint(|State().data|) - Footprint(|old(State()).data|)
    {
      hide InodeAt, Sound, Used, Recorded, Placed, BitsMatch, FreeZero, Filled, Allocating, Tree, TotalBlocks,
        TailZero, SpareZero, Found, HasNeighbour, Distinct, InRange, Written, LoadInode, StoreInode, Reassign, FsInv, FilesOf,
        Changed;
      InvInodes(fs.disk.blocks, fs.g, fs.own);
      ghost var d0, g, own := fs.disk.blocks, fs.g, fs.own;
      var inode := ReadDiskInode();
      ghost var v := inode.View();
      ghost var nb, d1 := IncreaseSize(offset + |buf|, inode);
      ghost var d2 := fs.disk.blocks;
      ghost var full := Blocks(v, d0) + nb;
      GrownSound(d0, d1, d2, g, own, id, nb, inode.View());
      if offset / 512 >= DataBlocks(inode.size) {
        SpareFound(inode.View(), d2, offset / 512);
      }
      n := FileData.WriteAt(inode, offset, buf, fs.disk);
      assert buf[..n] == buf;
      ghost var d3 := fs.disk.blocks;
      assert WriteChain(d0, d1, d2, d3, g, own, id, nb, inode.View(), offset, buf);
      WrittenBytes(d0, d1, d2, d3, g, own, id, nb, inode.View(), offset, buf);
      WriteReady(d0, d1, d2, d3, g, own, id, nb, inode.View(), offset, buf);
      FilesAfter(d0, d3, g, own, id, inode.View(), full);
      StoreBack(inode, full);
      WriteChanges(d0, d1, d2, d3, g, own, id, nb, inode.View(), offset, buf);
      ChangedInTurn(d0, d1, d3);
      ChangedInTurn(d0, d3, fs.disk.blocks);
    }

    /** Puts the inode record back into its block. */
    method StoreBack(inode: DiskInode, ghost full: seq<u32>)
      requires fs.g.Fits(fs.disk.blocks) && id < fs.g.MaxInodes() && (blockId, blockOffset) == InodePos(fs.g, id)
      requires |inode.direct| == 28
      modifies fs, fs.disk
      ensures fs.disk.blocks == StoreAt(old(fs.disk.blocks), fs.g, id, inode.View())
      ensures fs.own == Reassign(old(fs.own), id, full)
      ensures |fs.disk.blocks| == |old(fs.disk.blocks)| && |Changed(old(fs.disk.blocks), fs.disk.blocks)| <= 1
    {
      hide StoreInode, Changed;
      ChangedOnce(fs.disk.blocks, blockId, StoreInode(fs.disk.blocks[blockId], blockOffset / INODE_SIZE, inode.View()));
      fs.disk.blocks := fs.disk.blocks[blockId := StoreInode(fs.disk.blocks[blockId], blockOffset / INODE_SIZE, inode.View())];
      fs.own := Reassign(fs.own, id, full);
    }

    /** `inc_nlink` on the record. */
    method IncNlink()
      requires Open() && State().nlink < TWO32 - 1
      modifies fs, fs.disk
      ensures Open()
      ensures fs.Files() == old(fs.Files())[id := old(State()).(nlink := old(State()).nlink + 1)]
      ensures fs.InUse() == old(fs.InUse())
      ensures Kept(old(fs.disk.blocks), fs.disk.blocks, fs.g)
      ensures |Changed(old(fs.disk.blocks), fs.disk.blocks)| <= 1
    {
      hide InodeAt, Used, Contents, LoadInode, StoreInode, Reassign, FsInv, FilesOf, Blocks;
      InvInodes(fs.disk.blocks, fs.g, fs.own);
      ghost var d0, g, own := fs.disk.blocks, fs.g, fs.own;
      var inode := ReadDiskInode();
      ghost var full := Blocks(inode.View(), d0);
      inode.nlink := inode.nlink + 1;
      LinkReady(d0, g, own, id, inode.View());
      FilesAfter(d0, d0, g, own, id, inode.View(), full);
      LoadShape(d0, g, id);
      StoreBack(inode, full);
    }

    /** Empties the file and returns its blocks to the free ones, zeroed. */
    method Clear()
      requires Open()
      modifies fs, fs.disk
      ensures Open()
      ensures fs.Files() == old(fs.Files())[id := old(State()).(data := [])]
      ensures fs.InUse() == old(fs.InUse()) - Footprint(|old(State()).data|)
      ensures Kept(old(fs.disk.blocks), fs.disk.blocks, fs.g)
    {
      hide InodeAt, Used, Recorded, Placed, BitsMatch, FreeZero, Freeing, Tree, TotalBlocks, TailZero, Distinct,
        InRange, LoadInode, StoreInode, Reassign, FsInv, FilesOf;
      InvInodes(fs.disk.blocks, fs.g, fs.own);
      ghost var d0, g, own := fs.disk.blocks, fs.g, fs.own;
      var inode := ReadDiskInode();
      ghost var v := inode.View();
      var freed := inode.ClearSize(fs.disk);
      OwnBlocks(d0, g, own, id);
      FreeStart(d0, g, own, freed);
      var i := 0;
      while i < |freed|
        invariant 0 <= i <= |freed| && fs.own == own
        invariant Freeing(d0, fs.disk.blocks, g, own, freed, i)
        modifies fs.disk
      {
        fs.DeallocData(freed[i], d0, freed, i);
        i := i + 1;
      }
      ghost var d3 := fs.disk.blocks;
      ClearReady(d0, d3, g, own, id);
      FilesAfter(d0, d3, g, own, id, inode.View(), []);
      StoreBack(inode, []);
    }
  }

  /** A write touches blocks of the file's tree only, apart from what growth takes. */
  lemma WriteChanges(d0: seq<Block>, d1: seq<Block>, d2: seq<Block>, d3: seq<Block>, g: Geometry, own: Owners,
      id: nat, nb: seq<u32>, v2: InodeView, offset: nat, buf: seq<byte>)
    requires WriteChain(d0, d1, d2, d3, g, own, id, nb, v2, offset, buf)
    ensures |d1| == |d3| && |Changed(d1, d3)| <= |Blocks(InodeAt(d0, g, id), d0)| + |nb|
  {
    hide Used, InodeAt, TotalBlocks, Tree, FsInv, Allocating, ByteAt, BlockId, BlockSet, Distinct;
    InvInodes(d0, g, own);
    var full := Blocks(InodeAt(d0, g, id), d0) + nb;
    assert Blocks(v2, d2) == full;
    WriteTouches(v2, d1, d2, d3, full, offset, buf);
    BlockSetSize(full);
    SubsetSize(Changed(d1, d3), BlockSet(full));
  }

  /** A record whose link count alone changes is ready to be stored. */
  lemma LinkReady(d: seq<Block>, g: Geometry, own: Owners, id: nat, v': InodeView)
    requires FsInv(d, g, own) && Used(d, g, id)
    requires v' == InodeAt(d, g, id).(nlink := v'.nlink)
    ensures var full := Blocks(InodeAt(d, g, id), d);
      ReadyToStore(d, d, g, own, id, v', full) && |Reassign(own, id, full)| == |own|
    ensures Contents(v', d) == Contents(InodeAt(d, g, id), d)
  {
    hide Used, InodeAt, Tree, TotalBlocks, Reassign, IndexIn, ByteAt, Recorded, Placed;
    var v := InodeAt(d, g, id);
    var full := Blocks(v, d);
    LoadShape(d, g, id);
    OwnBlocks(d, g, own, id);
    PlacedBounds(d, g, own);
    assert forall p :: 0 <= p < |full| ==> full[p] !in OtherKeys(own, id);
    ReassignFacts(own, id, full);
    ReassignSize(own, id, full, full);
    SameTree(v, v', d);
    forall b: nat
      ensures b in Reassign(own, id, full) <==> b in own
    {
      if b in own && own[b].0 == id {
        FromBlockSet(full, b);
      }
    }
  }

  lemma SameTree(v: InodeView, v': InodeView, d: seq<Block>)
    requires v' == v.(nlink := v'.nlink)
    ensures Blocks(v', d) == Blocks(v, d)
    ensures forall k: nat :: ByteAt(v', d, k) == ByteAt(v, d, k)
    ensures Contents(v', d) == Contents(v, d)
  {
    forall p | 0 <= p < |Blocks(v, d)|
      ensures At(v', d, p) == At(v, d, p)
    {
    }
    forall k: nat
      ensures ByteAt(v', d, k) == ByteAt(v, d, k)
    {
    }
  }

  lemma FreeStart(d: seq<Block>, g: Geometry, own: Owners, t: seq<u32>)
    requires FsInv(d, g, own)
    ensures Freeing(d, d, g, own, t, 0)
  {
    hide Bitmap.IsSet, Recorded, Placed;
    EmptySet();
  }

  lemma SizesInBounds(v: InodeView, d: seq<Block>)
    requires Sound(v, d)
    ensures |v.direct| == 28 && v.size <= MAX_SIZE && |Blocks(v, d)| == Footprint(v.size)
  {
  }

  /** The slot of the block behind the last one exists, and so do the index blocks it lies in. */
  lemma SpareSlot(i: nat)
    requires i < INDIRECT2_BOUND && HasNeighbour(i)
    ensures TotalBlocks(i) <= DataPos(i) && HasPlace(DataPos(i), TotalBlocks(i)) && SlotAt(DataPos(i)) == DataSlot(i)
    ensures i >= 28 ==> 28 < TotalBlocks(i)
    ensures i >= 156 ==> 158 + 129 * ((i - 156) / 128) < TotalBlocks(i)
  {
    hide TotalBlocks, SlotAt;
    DataPosBelowTotal(i, i);
    if i >= 28 {
      TotalIsLastPosition(i);
    }
  }

  lemma IndexSlots(v: InodeView, d: seq<Block>)
    ensures At(v, d, 28) == v.indirect1 && At(v, d, 157) == v.indirect2
  {
  }

  lemma SubSlot(v: InodeView, d: seq<Block>, a: nat)
    requires a < 128
    ensures At(v, d, 158 + 129 * a) == EntryOf(d, v.indirect2, a)
    ensures v.indirect2 < |d| ==> EntryOf(d, v.indirect2, a) == U32At(d[v.indirect2], a)
  {
    hide U32At;
    PositionsAreSlots(158 + 129 * a, Sub(a));
  }

  /** Looking it up finds 0, which stands for block 0. */
  lemma SpareFound(v: InodeView, d: seq<Block>, i: nat)
    requires Sound(v, d) && SpareZero(v, d) && |d| > 0 && i == DataBlocks(v.size) && HasNeighbour(i)
    ensures Found(v, d, i) && BlockId(v, d, i) == 0
  {
    hide Tree, Distinct, TotalBlocks, SpareZero, SlotAt, EntryOf;
    SizeBounds(v.size, v.size);
    var t := TotalBlocks(i);
    SpareIs(v, d, t);
    SpareSlot(i);
    assert At(v, d, DataPos(i)) == 0;
    if i >= 28 {
      IndexSlots(v, d);
    }
    if 28 <= i < 156 {
      TreeInRange(v, d, t, 28);
    } else if i >= 156 {
      var a := (i - 156) / 128;
      SubSlot(v, d, a);
      TreeInRange(v, d, t, 157);
      TreeInRange(v, d, t, 158 + 129 * a);
    }
  }

  lemma GrownSound(d0: seq<Block>, d1: seq<Block>, d2: seq<Block>, g: Geometry, own: Owners, id: nat, nb: seq<u32>,
      v2: InodeView)
    requires FsInv(d0, g, own) && Used(d0, g, id) && Allocating(d0, d1, g, own, nb)
    requires v2.size <= MAX_SIZE
    requires var full := Blocks(InodeAt(d0, g, id), d0) + nb;
      |full| == Footprint(v2.size) && Filled(v2, d1, d2, full, |full|)
    ensures Sound(v2, d2)
  {
    hide Used, InodeAt, TotalBlocks, Tree;
    ExtendedTree(d0, d1, g, own, id, nb);
  }
}
