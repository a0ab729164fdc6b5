/** The block device as an array of blocks, and the on-disk bitmaps
    (easy-fs/src/block_dev.rs, easy-fs/src/bitmap.rs). */
module BitmapLayer {
  import opened Words
  import opened Sets

  const BLOCK_SZ: int := 512
  const BLOCK_BITS: int := 4096

  type Block = b: seq<byte> | |b| == 512 witness seq(512, _ => 0)

  function ZeroBlock(): Block { seq(512, _ => 0) }

  /** The device below the file system. Its length never changes. */
  class Disk {
    var blocks: seq<Block>

    constructor (n: nat)
      ensures |blocks| == n
    {
      blocks := seq(n, _ => ZeroBlock());
    }
  }

  /** The blocks in which two disks of the same size differ. */
  ghost function Changed(s: seq<Block>, t: seq<Block>): set<nat>
    requires |s| == |t|
  {
    set i | 0 <= i < |s| && s[i] != t[i]
  }

  lemma ChangedNothing(s: seq<Block>)
    ensures |Changed(s, s)| == 0
  {
    assert Changed(s, s) == {};
  }

  lemma ChangedOnce(s: seq<Block>, i: nat, x: Block)
    requires i < |s|
    ensures |Changed(s, s[i := x])| <= 1
  {
    SubsetSize(Changed(s, s[i := x]), {i});
  }

  lemma ChangedInTurn(s: seq<Block>, t: seq<Block>, u: seq<Block>)
    requires |s| == |t| == |u|
    ensures |Changed(s, u)| <= |Changed(s, t)| + |Changed(t, u)|
  {
    AddInTurn({}, Changed(s, t), Changed(t, u));
    SubsetSize(Changed(t, u) - Changed(s, t), Changed(t, u));
    assert Changed(s, t) - {} == Changed(s, t) && {} + Changed(s, t) == Changed(s, t);
    SubsetSize(Changed(s, u), Changed(s, t) + Changed(t, u) - {});
  }

  /** Bit n of one bitmap block. */
  predicate BlockBit(b: Block, n: nat)
    requires n < 4096
  {
    Bit(U64At(b, n / 64), n % 64)
  }

  /** Every bit of the block below n is set. */
  predicate FullBelow(b: Block, n: nat)
    requires n <= 4096
  {
    forall k :: 0 <= k < n ==> BlockBit(b, k)
  }

  /** b' is b with bit pos, and no other bit, inverted. */
  predicate Flipped(b: Block, b': Block, pos: nat)
  {
    forall n :: 0 <= n < 4096 ==> (BlockBit(b', n) <==> (n == pos) != BlockBit(b, n))
  }

  /** (block_pos, bits64_pos, inner_pos) */
  function Decomposition(bit: nat): (r: (nat, nat, nat))
    ensures r.1 < 64 && r.2 < 64
    ensures bit == r.0 * 4096 + r.1 * 64 + r.2
  {
    (bit / 4096, bit % 4096 / 64, bit % 4096 % 64)
  }

  /** A bitmap's place on disk; the bits themselves live in the blocks. */
  datatype Bitmap = Bitmap(start: nat, len: nat)
  {
    function MaxBits(): nat { len * 4096 }

    predicate Fits(d: seq<Block>) { start + len <= |d| }

    predicate IsSet(d: seq<Block>, bit: nat)
      requires Fits(d)
    {
      bit < MaxBits() && BlockBit(d[start + bit / 4096], bit % 4096)
    }

    /** Sets the least clear bit of the whole bitmap and returns it. */
    method Alloc(disk: Disk) returns (r: Option<nat>)
      requires Fits(disk.blocks)
      modifies disk
      ensures |disk.blocks| == |old(disk.blocks)|
      ensures r == None ==> disk.blocks == old(disk.blocks)
      ensures r == None ==> forall n :: 0 <= n < MaxBits() ==> IsSet(old(disk.blocks), n)
      ensures r.Some? ==> r.value < MaxBits() && !IsSet(old(disk.blocks), r.value)
      ensures r.Some? ==> forall n :: 0 <= n < r.value ==> IsSet(old(disk.blocks), n)
      ensures r.Some? ==> forall n: nat :: IsSet(disk.blocks, n) <==> n == r.value || IsSet(old(disk.blocks), n)
      ensures forall k :: 0 <= k < |disk.blocks| && !(start <= k < start + len) ==> disk.blocks[k] == old(disk.blocks)[k]
      ensures |Changed(old(disk.blocks), disk.blocks)| <= 1
    {
      hide U64At, PutU64, Bit, Changed;
      ChangedNothing(disk.blocks);
      var blockId := 0;
      while blockId < len
        invariant 0 <= blockId <= len
        invariant disk.blocks == old(disk.blocks)
        invariant forall n :: 0 <= n < blockId * 4096 ==> IsSet(disk.blocks, n)
      {
        var b := disk.blocks[start + blockId];
        var i := FindWord(b);
        if i < 64 {
          var w := U64At(b, i);
          var t := TrailingOnes(w);
          LeastOfWord(b, i);
          MarkWord(b, i, t);
          var b' := PutU64(b, i, w + Pow2(t));
          FlipOne(this, disk.blocks, blockId, b', i * 64 + t);
          ChangedOnce(disk.blocks, start + blockId, b');
          disk.blocks := disk.blocks[start + blockId := b'];
          return Some(blockId * 4096 + i * 64 + t);
        }
        blockId := blockId + 1;
      }
      r := None;
    }

    /** Clears one bit; the source asserts that it is set. */
    method Dealloc(disk: Disk, bit: nat)
      requires Fits(disk.blocks) && IsSet(disk.blocks, bit)
      modifies disk
      ensures |disk.blocks| == |old(disk.blocks)|
      ensures forall n: nat :: IsSet(disk.blocks, n) <==> n != bit && IsSet(old(disk.blocks), n)
      ensures forall k :: 0 <= k < |disk.blocks| && !(start <= k < start + len) ==> disk.blocks[k] == old(disk.blocks)[k]
    {
      hide U64At, PutU64, Bit;
      var (blockPos, bits64Pos, innerPos) := Decomposition(bit);
      var b := disk.blocks[start + blockPos];
      var w := U64At(b, bits64Pos);
      ClearedBit(b, bit % 4096, 0);
      var b' := PutU64(b, bits64Pos, w - Pow2(innerPos));
      forall n: nat | n < 4096
        ensures BlockBit(b', n) <==> n != bit % 4096 && BlockBit(b, n)
      {
        ClearedBit(b, bit % 4096, n);
      }
      FlipOne(this, disk.blocks, blockPos, b', bit % 4096);
      disk.blocks := disk.blocks[start + blockPos := b'];
    }
  }

  /** Flipping bit pos of the k-th bitmap block flips bit 4096 * k + pos of the bitmap. */
  lemma FlipOne(m: Bitmap, d: seq<Block>, k: nat, b': Block, pos: nat)
    requires m.Fits(d) && k < m.len && pos < 4096
    requires Flipped(d[m.start + k], b', pos)
    ensures forall n: nat :: m.IsSet(d[m.start + k := b'], n) <==> (n == k * 4096 + pos) != m.IsSet(d, n)
  {
    forall n: nat
      ensures m.IsSet(d[m.start + k := b'], n) <==> (n == k * 4096 + pos) != m.IsSet(d, n)
    {
      if n / 4096 == k {
        assert n == k * 4096 + n % 4096;
      }
    }
  }

  /** The first word that is not full, or 64. */
  method FindWord(b: Block) returns (i: nat)
    ensures i <= 64 && (i < 64 ==> U64At(b, i) != TWO64 - 1)
    ensures FullBelow(b, i * 64)
  {
    i := 0;
    while i < 64 && U64At(b, i) == TWO64 - 1
      invariant 0 <= i <= 64
      invariant FullBelow(b, i * 64)
    {
      FullWord(b, i);
      i := i + 1;
    }
  }

  /** `trailing_ones` of the first word that is not full picks the least clear bit
      of the block. */
  lemma LeastOfWord(b: Block, i: nat)
    requires i < 64 && U64At(b, i) != TWO64 - 1
    requires FullBelow(b, i * 64)
    ensures var w := U64At(b, i); var t := TrailingOnes(w);
      t < 64 && !BlockBit(b, i * 64 + t) && w + Pow2(t) < TWO64
    ensures FullBelow(b, i * 64 + TrailingOnes(U64At(b, i)))
  {
    var w := U64At(b, i);
    var t := TrailingOnes(w);
    Pow2At64();
    TrailingOnesBelow(w, 64);
    TrailingOnesLeast(w);
    SetBitFits(w, t, 64);
    var pos := i * 64 + t;
    assert pos / 64 == i && pos % 64 == t;
    forall n | i * 64 <= n < pos
      ensures BlockBit(b, n)
    {
      assert n / 64 == i && n % 64 < t;
    }
  }

  lemma MarkWord(b: Block, i: nat, t: nat)
    requires i < 64 && t < 64 && !BlockBit(b, i * 64 + t) && U64At(b, i) + Pow2(t) < TWO64
    ensures Flipped(b, PutU64(b, i, U64At(b, i) + Pow2(t)), i * 64 + t)
  {
    hide U64At, PutU64, Bit;
    var pos := i * 64 + t;
    assert pos / 64 == i && pos % 64 == t;
    forall n | 0 <= n < 4096
      ensures BlockBit(PutU64(b, i, U64At(b, i) + Pow2(t)), n) <==> (n == pos) != BlockBit(b, n)
    {
      MarkedBit(b, pos, n);
    }
  }

  lemma FullWord(b: Block, i: nat)
    requires i < 64 && U64At(b, i) == TWO64 - 1
    ensures forall n :: i * 64 <= n < (i + 1) * 64 ==> BlockBit(b, n)
  {
    Pow2At64();
    forall n | i * 64 <= n < (i + 1) * 64
      ensures BlockBit(b, n)
    {
      AllOnes(64, n % 64);
    }
  }

  /** `bitmap_block[bits64_pos] |= 1 << inner_pos`, seen from bit n of the block. */
  lemma MarkedBit(b: Block, pos: nat, n: nat)
    requires pos < 4096 && n < 4096 && !BlockBit(b, pos)
    requires U64At(b, pos / 64) + Pow2(pos % 64) < TWO64
    ensures BlockBit(PutU64(b, pos / 64, U64At(b, pos / 64) + Pow2(pos % 64)), n) <==> n == pos || BlockBit(b, n)
  {
    hide U64At, PutU64, Bit;
    var w := U64At(b, pos / 64);
    PutU64At(b, pos / 64, w + Pow2(pos % 64), n / 64);
    SetBit(w, pos % 64, n % 64);
  }

  /** `bitmap_block[bits64_pos] -= 1 << inner_pos`, seen from bit n of the block. */
  lemma ClearedBit(b: Block, pos: nat, n: nat)
    requires pos < 4096 && n < 4096 && BlockBit(b, pos)
    ensures U64At(b, pos / 64) >= Pow2(pos % 64)
    ensures BlockBit(PutU64(b, pos / 64, U64At(b, pos / 64) - Pow2(pos % 64)), n) <==> n != pos && BlockBit(b, n)
  {
    hide U64At, PutU64, Bit;
    var w := U64At(b, pos / 64);
    ClearBit(w, pos % 64, n % 64);
    PutU64At(b, pos / 64, w - Pow2(pos % 64), n / 64);
  }

  /** Bits of untouched bitmap blocks are untouched. */
  lemma BitsFrame(m: Bitmap, d: seq<Block>, d': seq<Block>)
    requires |d| == |d'| && m.Fits(d)
    requires forall k :: m.start <= k < m.start + m.len ==> d[k] == d'[k]
    ensures forall n: nat :: m.IsSet(d, n) <==> m.IsSet(d', n)
  {
  }

  /** On disk bit n is bit n % 8 of a byte, the bytes in order. */
  lemma BitOnDisk(m: Bitmap, d: seq<Block>, n: nat)
    requires m.Fits(d) && n < m.len * 4096
    ensures m.IsSet(d, n) <==> Bit(d[m.start + n / 4096][n % 4096 / 8], n % 8)
  {
    hide Bit, U64At;
    var bit := n % 4096;
    LongWordBits(d[m.start + n / 4096], bit / 64, bit % 64);
    assert 8 * (bit / 64) + bit % 64 / 8 == bit / 8 && bit % 64 % 8 == n % 8;
  }
}
