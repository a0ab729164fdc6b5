/** Formatting a disk and opening a formatted one (easy-fs/src/efs.rs:19-103). */
module Mkfs {
  import opened Words
  import opened BitmapLayer
  import opened Layout
  import opened DiskInodes
  import opened FileData
  import opened Efs
  import opened FsState
  import opened FsSteps
  import opened Vfs

  const EFS_MAGIC: u32 := 0x3b80_0001

  /** The super block records the regions. */
  predicate SuperBlockOf(b: Block, totalBlocks: nat, g: Geometry)
  {
    && U32At(b, 0) == EFS_MAGIC && U32At(b, 1) == totalBlocks
    && U32At(b, 2) == g.inodeBitmapBlocks && U32At(b, 3) == g.inodeAreaBlocks
    && U32At(b, 4) == g.dataBitmapBlocks && U32At(b, 5) == g.dataAreaBlocks
  }

  function SuperBlock(b: Block, totalBlocks: u32, ib: u32, ia: u32, db: u32, da: u32): Block
  {
    PutU32s(b, 0, [EFS_MAGIC, totalBlocks, ib, ia, db, da])
  }

  lemma SuperBlockWords(b: Block, totalBlocks: u32, ib: u32, ia: u32, db: u32, da: u32)
    ensures SuperBlockOf(SuperBlock(b, totalBlocks, ib, ia, db, da), totalBlocks, Geometry(ib, ia, db, da))
  {
    hide U32At;
    var ws := [EFS_MAGIC, totalBlocks, ib, ia, db, da];
    PutU32sAt(b, 0, ws, 0);
    PutU32sAt(b, 0, ws, 1);
    PutU32sAt(b, 0, ws, 2);
    PutU32sAt(b, 0, ws, 3);
    PutU32sAt(b, 0, ws, 4);
    PutU32sAt(b, 0, ws, 5);
  }

  lemma ZeroBlockBits(n: nat)
    requires n < 4096
    ensures !BlockBit(ZeroBlock(), n)
  {
    ZeroBits(n % 64);
  }

  /** A disk of zeros is a file system without any file. */
  lemma BlankDisk(d: seq<Block>, g: Geometry)
    requires g.Fits(d) && forall b :: 1 <= b < g.DataEnd() ==> d[b] == ZeroBlock()
    ensures forall i: nat :: !Used(d, g, i)
    ensures FsInv(d, g, map[])
  {
    hide BlockBit, ZeroBlock;
    forall n | 0 <= n < 4096
      ensures !BlockBit(ZeroBlock(), n)
    {
      ZeroBlockBits(n);
    }
  }

  /** The block behind the last one of a file can be looked up exactly if it is not the first
      of an index block: for that one block 0 passes for the missing index block, and its
      first word is the magic number. */
  lemma EmptyWriteFound(v: InodeView, d: seq<Block>, totalBlocks: nat, g: Geometry)
    requires Sound(v, d) && SpareZero(v, d) && 0 < |d| <= EFS_MAGIC && SuperBlockOf(d[0], totalBlocks, g)
    ensures Found(v, d, DataBlocks(v.size)) <==> HasNeighbour(DataBlocks(v.size))
  {
    hide Tree, Distinct, InRange, U32At, SpareZero, Found;
    var i := DataBlocks(v.size);
    if HasNeighbour(i) {
      SpareFound(v, d, i);
    } else {
      MissingIndex(v, d, i);
      NotFound(v, d, i);
    }
  }

  /** The missing index block is number 0. */
  lemma MissingIndex(v: InodeView, d: seq<Block>, i: nat)
    requires v.size <= MAX_SIZE && SpareZero(v, d) && i == DataBlocks(v.size) && !HasNeighbour(i)
    ensures i == 28 ==> v.indirect1 == 0
    ensures i == 156 ==> v.indirect2 == 0
    ensures 156 < i < INDIRECT2_BOUND ==> (i - 156) % 128 == 0 && EntryOf(d, v.indirect2, (i - 156) / 128) == 0
  {
    hide Tree, Distinct, InRange, SlotAt, EntryOf, SpareZero;
    SizeBounds(v.size, v.size);
    var t := TotalBlocks(i);
    SpareIs(v, d, t);
    IndexSlots(v, d);
    PositionsAreSlots(28, Ind1);
    PositionsAreSlots(157, Ind2);
    if 156 < i < INDIRECT2_BOUND {
      var a := (i - 156) / 128;
      SubSlot(v, d, a);
      PositionsAreSlots(158 + 129 * a, Sub(a));
      assert HasPlace(158 + 129 * a, t) && At(v, d, 158 + 129 * a) == 0;
    } else if i == 28 {
      assert HasPlace(28, t) && At(v, d, 28) == 0;
    } else if i == 156 {
      assert HasPlace(157, t) && At(v, d, 157) == 0;
    }
  }

  lemma NotFound(v: InodeView, d: seq<Block>, i: nat)
    requires 0 < |d| <= EFS_MAGIC && U32At(d[0], 0) == EFS_MAGIC && !HasNeighbour(i)
    requires i == 28 ==> v.indirect1 == 0
    requires i == 156 ==> v.indirect2 == 0
    requires 156 < i < INDIRECT2_BOUND ==> (i - 156) % 128 == 0 && EntryOf(d, v.indirect2, (i - 156) / 128) == 0
    ensures !Found(v, d, i)
  {
    hide U32At;
  }

  /** Formats the disk: every block zeroed, the super block written, and inode 0
      initialized as the empty root directory. The source's arithmetic underflows when
      the bitmap and inode area do not fit, and an empty inode bitmap has no inode 0. */
  method Create(disk: Disk, totalBlocks: u32, inodeBitmapBlocks: u32) returns (fs: EasyFileSystem)
    requires inodeBitmapBlocks > 0
    requires 1 + inodeBitmapBlocks + InodeArea(inodeBitmapBlocks) <= totalBlocks <= |disk.blocks|
    modifies disk
    ensures fresh(fs) && fs.disk == disk && fs.g == Plan(totalBlocks, inodeBitmapBlocks)
    ensures fs.Valid() && fs.InUse() == 0
    ensures fs.Files() == map[0 := FileState(0, 1, true, [])]
    ensures SuperBlockOf(disk.blocks[0], totalBlocks, fs.g) && |disk.blocks| == |old(disk.blocks)|
  {
    hide BlockBit, ZeroBlock, FsInv, Used, InodeAt, StoreInode, LoadInode, Contents, SuperBlockOf, SuperBlock, StoreAt;
    ghost var g := Plan(totalBlocks, inodeBitmapBlocks);
    var inodeBitmap := Bitmap(1, inodeBitmapBlocks);
    var inodeAreaBlocks := (inodeBitmap.MaxBits() * INODE_SIZE + BLOCK_SZ - 1) / BLOCK_SZ;
    var inodeTotal := inodeBitmapBlocks + inodeAreaBlocks;
    var dataTotal := totalBlocks - 1 - inodeTotal;
    var dataBitmapBlocks := (dataTotal + 4096) / 4097;
    var dataAreaBlocks := dataTotal - dataBitmapBlocks;
    var dataBitmap := Bitmap(1 + inodeBitmapBlocks + inodeAreaBlocks, dataBitmapBlocks);
    fs := new EasyFileSystem(disk, inodeBitmap, dataBitmap, 1 + inodeBitmapBlocks, 1 + inodeTotal + dataBitmapBlocks, g, map[]);
    // clear all blocks
    var i := 0;
    while i < totalBlocks
      invariant 0 <= i <= totalBlocks && |disk.blocks| == |old(disk.blocks)|
      invariant forall b :: 0 <= b < i ==> disk.blocks[b] == ZeroBlock()
      modifies disk
    {
      disk.blocks := disk.blocks[i := ZeroBlock()];
      i := i + 1;
    }
    // initialize the super block
    SuperBlockWords(disk.blocks[0], totalBlocks, inodeBitmapBlocks, inodeAreaBlocks, dataBitmapBlocks, dataAreaBlocks);
    disk.blocks := disk.blocks[0 := SuperBlock(disk.blocks[0], totalBlocks, inodeBitmapBlocks, inodeAreaBlocks, dataBitmapBlocks, dataAreaBlocks)];
    ghost var d0 := disk.blocks;
    BlankDisk(d0, g);
    InodeHome(g, 0);
    // the root directory
    assert !Used(disk.blocks, g, 0);
    var id := fs.AllocInode();
    assert id == 0;
    ghost var d1 := disk.blocks;
    InitInode(fs, id, true);
    FreshSpare(id, true, d1);
    AddInode(d0, d1, g, map[], id, FreshInode(id, true));
    StoreAtFacts(d1, g, id, FreshInode(id, true));
    assert disk.blocks[0] == d1[0] == d0[0];
    RootOnly(disk.blocks, g);
  }

  /** Initializes the record of a number just allocated. */
  method InitInode(fs: EasyFileSystem, id: u32, dir: bool)
    requires fs.Regions() && fs.g.Fits(fs.disk.blocks) && id < fs.g.MaxInodes()
    modifies fs.disk
    ensures fs.disk.blocks == StoreAt(old(fs.disk.blocks), fs.g, id, FreshInode(id, dir))
  {
    hide StoreInode, LoadInode;
    var (b, off) := fs.GetDiskInodePos(id);
    var inode := new DiskInode(LoadInode(fs.disk.blocks[b], off / INODE_SIZE));
    inode.Initialize(id, dir);
    fs.disk.blocks := fs.disk.blocks[b := StoreInode(fs.disk.blocks[b], off / INODE_SIZE, inode.View())];
  }

  lemma RootOnly(d: seq<Block>, g: Geometry)
    requires g.Fits(d) && 0 < g.MaxInodes()
    requires forall i: nat :: Used(d, g, i) <==> i == 0
    requires InodeAt(d, g, 0) == FreshInode(0, true)
    ensures FilesOf(d, g) == map[0 := FileState(0, 1, true, [])]
  {
    hide Used, InodeAt;
  }

  /** Opens a formatted disk: the regions are those of the super block, so the file
      system found is the one that was made. */
  method Open(disk: Disk, ghost g: Geometry, ghost own: Owners, ghost totalBlocks: nat) returns (fs: EasyFileSystem)
    requires FsInv(disk.blocks, g, own) && |disk.blocks| > 0 && SuperBlockOf(disk.blocks[0], totalBlocks, g)
    ensures fresh(fs) && fs.disk == disk && fs.g == g && fs.own == own && fs.Valid()
    ensures disk.blocks == old(disk.blocks)
  {
    hide FsInv, U32At;
    var b := disk.blocks[0];
    var ib: nat, ia: nat, db: nat := U32At(b, 2), U32At(b, 3), U32At(b, 4);
    var inodeTotal := ib + ia;
    fs := new EasyFileSystem(disk, Bitmap(1, ib), Bitmap(1 + inodeTotal, db), 1 + ib, 1 + inodeTotal + db, g, own);
  }
}
