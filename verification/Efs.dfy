/** Where everything lives on the disk (easy-fs/src/efs.rs), and the invariant that
    ties the bitmaps, the inode area and the block trees together. */
module Efs {
  import opened Words
  import opened BitmapLayer
  import opened Layout

  const INODE_SIZE: int := 136
  const INODES_PER_BLOCK: int := 3

  /** The regions of a disk, in blocks; block 0 is the super block. */
  datatype Geometry = Geometry(inodeBitmapBlocks: nat, inodeAreaBlocks: nat, dataBitmapBlocks: nat, dataAreaBlocks: nat)
  {
    function InodeBitmap(): Bitmap { Bitmap(1, inodeBitmapBlocks) }
    function InodeStart(): nat { 1 + inodeBitmapBlocks }
    function DataBitmap(): Bitmap { Bitmap(1 + inodeBitmapBlocks + inodeAreaBlocks, dataBitmapBlocks) }
    function DataStart(): nat { 1 + inodeBitmapBlocks + inodeAreaBlocks + dataBitmapBlocks }
    function DataEnd(): nat { DataStart() + dataAreaBlocks }
    function MaxInodes(): nat { 3 * inodeAreaBlocks }

    predicate Fits(d: seq<Block>)
    {
      DataEnd() <= |d| && DataEnd() <= TWO32 && dataAreaBlocks <= DataBitmap().MaxBits()
    }
  }

  /** The regions `create` lays out; the source underflows if they do not fit. */
  function Plan(totalBlocks: nat, inodeBitmapBlocks: nat): (g: Geometry)
    requires 1 + inodeBitmapBlocks + InodeArea(inodeBitmapBlocks) <= totalBlocks
    ensures g.DataEnd() == totalBlocks
    ensures g.dataAreaBlocks <= g.dataBitmapBlocks * 4096
    ensures g.dataBitmapBlocks > 0 ==> (g.dataBitmapBlocks - 1) * 4096 < g.dataAreaBlocks + 1
  {
    var inodeTotal := inodeBitmapBlocks + InodeArea(inodeBitmapBlocks);
    var dataTotal := totalBlocks - 1 - inodeTotal;
    var dataBitmapBlocks := (dataTotal + 4096) / 4097;
    Geometry(inodeBitmapBlocks, InodeArea(inodeBitmapBlocks), dataBitmapBlocks, dataTotal - dataBitmapBlocks)
  }

  /** The regions lie one behind the other, in the order super block, inode bitmap, inodes,
      data bitmap, data, and fill the disk. */
  lemma RegionsInOrder(totalBlocks: nat, inodeBitmapBlocks: nat)
    requires 1 + inodeBitmapBlocks + InodeArea(inodeBitmapBlocks) <= totalBlocks
    ensures var g := Plan(totalBlocks, inodeBitmapBlocks);
      && g.InodeBitmap().start == 1 && g.InodeBitmap().len == inodeBitmapBlocks
      && g.InodeStart() == 1 + inodeBitmapBlocks
      && g.DataBitmap().start == g.InodeStart() + InodeArea(inodeBitmapBlocks)
      && g.DataStart() == g.DataBitmap().start + g.DataBitmap().len && g.DataStart() + g.dataAreaBlocks == totalBlocks
  {
  }

  function InodeArea(inodeBitmapBlocks: nat): nat
  {
    (inodeBitmapBlocks * BLOCK_BITS * INODE_SIZE + BLOCK_SZ - 1) / BLOCK_SZ
  }

  /** It is the least number of blocks with room for 136 bytes for each bit of the bitmap. */
  lemma InodeAreaLeast(inodeBitmapBlocks: nat, n: nat)
    ensures inodeBitmapBlocks * 4096 * 136 <= 512 * n <==> InodeArea(inodeBitmapBlocks) <= n
  {
  }

  /** No smaller data bitmap would do: with one block less, the blocks left over
      (one more than before) outnumber the bits. */
  lemma DataBitmapIsLeast(totalBlocks: nat, inodeBitmapBlocks: nat, db: nat)
    requires 1 + inodeBitmapBlocks + InodeArea(inodeBitmapBlocks) <= totalBlocks
    requires var g := Plan(totalBlocks, inodeBitmapBlocks);
      db <= g.dataBitmapBlocks + g.dataAreaBlocks && g.dataBitmapBlocks + g.dataAreaBlocks - db <= db * 4096
    ensures Plan(totalBlocks, inodeBitmapBlocks).dataBitmapBlocks <= db
  {
  }

  /** The inode area is sized as if inodes were packed byte by byte, but a block holds
      only three. So an inode number the bitmap hands out has its home inside the area
      exactly when it is below three per area block, and with any bitmap at all the
      last numbers have not. */
  lemma InodeHome(g: Geometry, id: nat)
    requires g.inodeAreaBlocks == InodeArea(g.inodeBitmapBlocks)
    ensures InodePos(g, id).0 < g.DataBitmap().start <==> id < g.MaxInodes()
    ensures g.inodeBitmapBlocks > 0 ==> g.MaxInodes() < g.InodeBitmap().MaxBits()
  {
  }

  /** (block, byte offset) of an inode. */
  function InodePos(g: Geometry, id: nat): (nat, nat)
  {
    (g.InodeStart() + id / INODES_PER_BLOCK, id % INODES_PER_BLOCK * INODE_SIZE)
  }

  /** An inode as it lies in a block, at byte offset 136 * s. */
  function LoadInode(b: Block, s: nat): InodeView
    requires s < 3
  {
    var k := 34 * s;
    InodeView(U32At(b, k), U32At(b, k + 1), seq<u32>(28, i requires 0 <= i < 28 => U32At(b, k + 2 + i)),
      U32At(b, k + 30), U32At(b, k + 31), U32At(b, k + 32), b[136 * s + 132] == 1)
  }

  function InodeWords(v: InodeView): (r: seq<u32>)
    requires |v.direct| == 28
    ensures |r| == 33
  {
    [v.id, v.size] + v.direct + [v.indirect1, v.indirect2, v.nlink]
  }

  function StoreInode(b: Block, s: nat, v: InodeView): (r: Block)
    requires s < 3 && |v.direct| == 28
  {
    PutU32s(b, 34 * s, InodeWords(v))[136 * s + 132 := if v.isDir then 1 else 0]
  }

  lemma StoredWord(b: Block, s: nat, v: InodeView, s': nat, j: nat)
    requires s < 3 && s' < 3 && |v.direct| == 28 && j < 33
    ensures U32At(StoreInode(b, s, v), 34 * s' + j) == if s == s' then InodeWords(v)[j] else U32At(b, 34 * s' + j)
  {
    hide U32At, InodeWords;
    PutU32sAt(b, 34 * s, InodeWords(v), 34 * s' + j);
    WordFrame(PutU32s(b, 34 * s, InodeWords(v)), StoreInode(b, s, v), 34 * s' + j);
  }

  lemma WordFrame(b: seq<byte>, b': seq<byte>, j: nat)
    requires |b| == |b'| && 4 * j + 4 <= |b|
    requires forall i :: 4 * j <= i < 4 * j + 4 ==> b[i] == b'[i]
    ensures U32At(b, j) == U32At(b', j)
  {
  }

  /** The fields of an inode on disk, in words from byte 136 * s on: number, size, the direct
      blocks, the two index blocks, the links; then a byte for the type. */
  lemma InodeFields(b: Block, s: nat, v: InodeView)
    requires s < 3 && |v.direct| == 28
    ensures var r := StoreInode(b, s, v); var k := 34 * s;
      && U32At(r, k) == v.id && U32At(r, k + 1) == v.size && U32At(r, k + 30) == v.indirect1
      && U32At(r, k + 31) == v.indirect2 && U32At(r, k + 32) == v.nlink && r[136 * s + 132] == (if v.isDir then 1 else 0)
    ensures forall i :: 0 <= i < 28 ==> U32At(StoreInode(b, s, v), 34 * s + 2 + i) == v.direct[i]
  {
    hide U32At;
    StoredWord(b, s, v, s, 0);
    StoredWord(b, s, v, s, 1);
    StoredWord(b, s, v, s, 30);
    StoredWord(b, s, v, s, 31);
    StoredWord(b, s, v, s, 32);
    forall i | 0 <= i < 28
      ensures U32At(StoreInode(b, s, v), 34 * s + 2 + i) == v.direct[i]
    {
      StoredWord(b, s, v, s, 2 + i);
    }
  }

  /** Storing an inode is read back by loading it, and leaves the two other inodes of
      the block alone. */
  lemma LoadStored(b: Block, s: nat, v: InodeView, s': nat)
    requires s < 3 && s' < 3 && |v.direct| == 28
    ensures LoadInode(StoreInode(b, s, v), s') == if s == s' then v else LoadInode(b, s')
  {
    hide U32At, StoreInode;
    var b' := StoreInode(b, s, v);
    var w := if s == s' then v else LoadInode(b, s');
    forall j | 0 <= j < 33
      ensures U32At(b', 34 * s' + j) == if s == s' then InodeWords(v)[j] else U32At(b, 34 * s' + j)
    {
      StoredWord(b, s, v, s', j);
    }
    var l := LoadInode(b', s');
    assert l.direct == w.direct by {
      forall i | 0 <= i < 28
        ensures l.direct[i] == w.direct[i]
      {
        StoredWord(b, s, v, s', 2 + i);
      }
    }
    StoredWord(b, s, v, s', 0);
    StoredWord(b, s, v, s', 1);
    StoredWord(b, s, v, s', 30);
    StoredWord(b, s, v, s', 31);
    StoredWord(b, s, v, s', 32);
    StoredType(b, s, v, s');
  }

  lemma StoredType(b: Block, s: nat, v: InodeView, s': nat)
    requires s < 3 && s' < 3 && |v.direct| == 28
    ensures (StoreInode(b, s, v)[136 * s' + 132] == 1) == if s == s' then v.isDir else b[136 * s' + 132] == 1
  {
  }
}
