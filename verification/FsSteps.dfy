/** The pure content of the three steps that change a file: allocating fresh blocks,
    growing and writing, and clearing. */
module FsSteps {
  import opened Words
  import opened Sets
  import opened BitmapLayer
  import opened Layout
  import opened DiskInodes
  import opened FileData
  import opened Efs
  import opened FsState

  /** Inode id owns exactly the blocks of `full`, in that order; others keep theirs. */
  ghost function Reassign(own: Owners, id: nat, full: seq<u32>): Owners
  {
    map b: nat | b in OtherKeys(own, id) + BlockSet(full) ::
      if b in BlockSet(full) then (id, IndexIn(full, b)) else own[b]
  }

  ghost function OtherKeys(own: Owners, id: nat): set<nat>
  {
    set b | b in own && own[b].0 != id
  }

  ghost function BlockSet(full: seq<u32>): set<nat>
  {
    set i | 0 <= i < |full| :: full[i]
  }

  ghost function IndexIn(full: seq<u32>, b: nat): (i: nat)
    requires b in BlockSet(full)
    ensures i < |full| && full[i] == b
  {
    var i :| 0 <= i < |full| && full[i] == b;
    i
  }

  lemma {:induction false} BlockSetSize(full: seq<u32>)
    requires Distinct(full)
    ensures |BlockSet(full)| == |full|
  {
    if full == [] {
      assert BlockSet(full) == {};
    } else {
      var n := |full| - 1;
      BlockSetSize(full[..n]);
      assert BlockSet(full) == BlockSet(full[..n]) + {full[n] as nat};
    }
  }

  /** Fresh or own blocks only: no block of `full` belongs to another inode. */
  ghost predicate MayOwn(own: Owners, id: nat, full: seq<u32>)
  {
    Distinct(full) && forall i :: 0 <= i < |full| ==> full[i] !in OtherKeys(own, id)
  }

  lemma ReassignFacts(own: Owners, id: nat, full: seq<u32>)
    requires MayOwn(own, id, full)
    ensures var own' := Reassign(own, id, full);
      && (forall i :: 0 <= i < |full| ==> full[i] as nat in own' && own'[full[i]] == (id, i as nat))
      && (forall b :: b in own && own[b].0 != id ==> b in own' && own'[b] == own[b])
      && (forall b :: b in own' && own'[b].0 != id ==> b in own && own[b] == own'[b])
      && (forall b :: b in own' && own'[b].0 == id ==> own'[b].1 < |full| && full[own'[b].1] == b)
  {
  }

  /** The number of blocks in use after inode id's tree went from `old` to `full`. */
  lemma ReassignSize(own: Owners, id: nat, before: seq<u32>, full: seq<u32>)
    requires MayOwn(own, id, full) && Distinct(before)
    requires forall b :: b in own && own[b].0 == id <==> b in BlockSet(before)
    ensures |Reassign(own, id, full)| == |own| - |before| + |full|
  {
    BlockSetSize(before);
    BlockSetSize(full);
    var others := OtherKeys(own, id);
    assert own.Keys == others + BlockSet(before) && others !! BlockSet(before);
    assert Reassign(own, id, full).Keys == others + BlockSet(full) && others !! BlockSet(full);
  }

  /** The file system while blocks nb have been taken from the bitmap for a file but
      are not yet part of its tree. */
  ghost predicate Allocating(d0: seq<Block>, d: seq<Block>, g: Geometry, own: Owners, nb: seq<u32>)
  {
    && |d| == |d0| && g.Fits(d)
    && (forall k :: 0 <= k < |d| && !(g.DataBitmap().start <= k < g.DataStart()) ==> d[k] == d0[k])
    && (forall n: nat :: g.DataBitmap().IsSet(d, n) <==> g.DataStart() + n in own || g.DataStart() + n in BlockSet(nb))
    && Distinct(nb)
    && (forall i :: 0 <= i < |nb| ==> g.DataStart() <= nb[i] < g.DataEnd() && nb[i] !in own)
  }

  /** As long as fewer blocks are in use than the data area has, some bit below the
      area's size is clear, so the bitmap's spare bits are never handed out. */
  lemma SpaceLeft(d0: seq<Block>, d: seq<Block>, g: Geometry, own: Owners, nb: seq<u32>)
    requires Allocating(d0, d, g, own, nb) && |own| + |nb| < g.dataAreaBlocks
    ensures exists n :: 0 <= n < g.dataAreaBlocks && !g.DataBitmap().IsSet(d, n)
  {
    hide BlockSet, Bitmap.IsSet, Interval, BlockBit;
    BlockSetSize(nb);
    var area := Interval(g.DataStart(), g.DataStart() + g.dataAreaBlocks);
    var taken := own.Keys + BlockSet(nb);
    if forall n :: 0 <= n < g.dataAreaBlocks ==> g.DataBitmap().IsSet(d, n) {
      forall x | x in area
        ensures x in taken
      {
        assert g.DataBitmap().IsSet(d, x - g.DataStart());
      }
      SubsetSize(area, taken);
    }
  }

  lemma AllocStart(d: seq<Block>, g: Geometry, own: Owners)
    requires g.Fits(d) && BitsMatch(d, g, own)
    ensures Allocating(d, d, g, own, [])
  {
  }

  lemma AllocStep(d0: seq<Block>, d: seq<Block>, d': seq<Block>, g: Geometry, own: Owners, nb: seq<u32>, r: nat)
    requires Allocating(d0, d, g, own, nb) && r < g.dataAreaBlocks && !g.DataBitmap().IsSet(d, r)
    requires |d'| == |d|
    requires forall n: nat :: g.DataBitmap().IsSet(d', n) <==> n == r || g.DataBitmap().IsSet(d, n)
    requires forall k :: 0 <= k < |d| && !(g.DataBitmap().start <= k < g.DataStart()) ==> d'[k] == d[k]
    ensures Allocating(d0, d', g, own, nb + [g.DataStart() + r])
  {
    hide Bitmap.IsSet;
    var nb' := nb + [g.DataStart() + r];
    assert BlockSet(nb') == BlockSet(nb) + {g.DataStart() + r} by {
      assert nb'[|nb|] == g.DataStart() + r;
      forall i | 0 <= i < |nb|
        ensures nb'[i] == nb[i]
      {
      }
    }
    assert g.DataStart() + r !in own && g.DataStart() + r !in BlockSet(nb);
  }

  /** The blocks of one file as the invariant knows them. */
  lemma OwnBlocks(d: seq<Block>, g: Geometry, own: Owners, id: nat)
    requires FsInv(d, g, own) && Used(d, g, id)
    ensures var t := Blocks(InodeAt(d, g, id), d);
      && Distinct(t)
      && (forall p :: 0 <= p < |t| ==> g.DataStart() <= t[p] < g.DataEnd() && t[p] as nat in own && own[t[p]] == (id, p as nat))
      && (forall b :: b in own && own[b].0 == id <==> b in BlockSet(t))
  {
    hide Blocks, Used, InodeAt, TailZero, BitsMatch, FreeZero;
    InvSound(d, g, own, id);
    var v := InodeAt(d, g, id);
    var t := Blocks(v, d);
    forall p | 0 <= p < |t|
      ensures t[p] as nat in own && own[t[p]] == (id, p as nat)
    {
      assert RecordedAt(d, own, v, id, p);
    }
    forall b | b in own && own[b].0 == id
      ensures b in BlockSet(t)
    {
      assert PlacedAt(d, g, own[b].0, own[b].1, b);
      assert t[own[b].1] == b;
    }
    SoundDistinct(v, d);
  }

  lemma SoundDistinct(v: InodeView, d: seq<Block>)
    requires Sound(v, d)
    ensures Distinct(Blocks(v, d)) && InRange(Blocks(v, d), |d|)
  {
  }

  /** A file's tree extended by freshly allocated blocks. */
  lemma ExtendedTree(d0: seq<Block>, d1: seq<Block>, g: Geometry, own: Owners, id: nat, nb: seq<u32>)
    requires FsInv(d0, g, own) && Used(d0, g, id) && Allocating(d0, d1, g, own, nb)
    ensures var v := InodeAt(d0, g, id); var full := Blocks(v, d0) + nb;
      && |d1| == |d0| && Blocks(v, d1) == Blocks(v, d0)
      && Distinct(full) && InRange(full, |d0|) && MayOwn(own, id, full)
      && (forall i :: 0 <= i < |full| ==> g.DataStart() <= full[i] < g.DataEnd())
  {
    hide Blocks, Used, InodeAt, TailZero, BitsMatch, FreeZero, Bitmap.IsSet;
    var v := InodeAt(d0, g, id);
    OwnBlocks(d0, g, own, id);
    InvSound(d0, g, own, id);
    FileFrame(v, d0, d1);
  }

  /** Bytes of the grown file: the old contents, then zeros. */
  lemma GrownByte(d0: seq<Block>, d1: seq<Block>, d2: seq<Block>, g: Geometry, own: Owners, id: nat, nb: seq<u32>,
      v2: InodeView, k: nat)
    requires FsInv(d0, g, own) && Used(d0, g, id) && Allocating(d0, d1, g, own, nb)
    requires var v := InodeAt(d0, g, id); var full := Blocks(v, d0) + nb;
      && v.size <= v2.size <= MAX_SIZE && |full| == TotalBlocks(DataBlocks(v2.size))
      && Filled(v2, d1, d2, full, |full|)
    requires k < 512 * DataBlocks(v2.size)
    ensures var v := InodeAt(d0, g, id);
      ByteAt(v2, d2, k) == if k < v.size then Contents(v, d0)[k] else 0
  {
    hide Value, Used, InodeAt, BitsMatch, Bitmap.IsSet, Tree, TotalBlocks, DataPos, DataSlot, IsIndex, BlockSet;
    var v := InodeAt(d0, g, id);
    var t := Blocks(v, d0);
    var full := t + nb;
    var i := k / 512;
    ExtendedTree(d0, d1, g, own, id, nb);
    assert Blocks(v2, d2) == full;
    DataBlockInTree(v2, d2, i);
    var b := full[DataPos(i)];
    NotIndexBlock(full, DataPos(i));
    assert d2[b] == d1[b] == d0[b];
    DataPosBelowTotal(i, DataBlocks(v.size));
    if i < DataBlocks(v.size) {
      DataBlockInTree(v, d0, i);
      assert ByteAt(v2, d2, k) == ByteAt(v, d0, k);
      assert TailZero(v, d0);
    } else {
      assert b == nb[DataPos(i) - |t|];
      assert b !in own;
    }
  }

  lemma NotIndexBlock(full: seq<u32>, p: nat)
    requires Distinct(full) && p < |full| && !IsIndex(p)
    ensures !IndexBlockOf(full, full[p])
  {
  }

  /** Writing an inode back to its slot. */
  function StoreAt(d: seq<Block>, g: Geometry, id: nat, v: InodeView): (r: seq<Block>)
    requires g.Fits(d) && id < g.MaxInodes() && |v.direct| == 28
    ensures |r| == |d|
  {
    var b := g.InodeStart() + id / 3;
    d[b := StoreInode(d[b], id % 3, v)]
  }

  lemma StoreAtFacts(d: seq<Block>, g: Geometry, id: nat, v: InodeView)
    requires g.Fits(d) && id < g.MaxInodes() && |v.direct| == 28
    ensures var d' := StoreAt(d, g, id, v);
      && (forall i: nat :: i < g.MaxInodes() ==> InodeAt(d', g, i) == if i == id then v else InodeAt(d, g, i))
      && (forall b :: 0 <= b < |d| && !(g.InodeStart() <= b < g.DataBitmap().start) ==> d'[b] == d[b])
      && (forall i: nat :: Used(d', g, i) <==> Used(d, g, i))
      && (forall n: nat :: g.DataBitmap().IsSet(d', n) <==> g.DataBitmap().IsSet(d, n))
  {
    hide LoadInode, StoreInode, BlockBit;
    var d' := StoreAt(d, g, id, v);
    var k := g.InodeStart() + id / 3;
    forall i: nat | i < g.MaxInodes()
      ensures InodeAt(d', g, i) == if i == id then v else InodeAt(d, g, i)
    {
      LoadStored(d[k], id % 3, v, i % 3);
      if i / 3 == id / 3 && i % 3 == id % 3 {
        assert i == id;
      }
    }
  }

  /** The state in which inode id's new view v' and tree `full` are about to be stored. */
  ghost predicate ReadyToStore(d0: seq<Block>, d3: seq<Block>, g: Geometry, own: Owners, id: nat, v': InodeView,
      full: seq<u32>)
  {
    && |d3| == |d0| && g.Fits(d3)
    && |v'.direct| == 28 && v'.size <= MAX_SIZE
    && (forall b :: 0 <= b < g.DataBitmap().start ==> d3[b] == d0[b])
    && (forall b :: b in own && own[b].0 != id && b < |d0| ==> d3[b] == d0[b])
    && MayOwn(own, id, full) && (forall i :: 0 <= i < |full| ==> g.DataStart() <= full[i] < g.DataEnd())
    && Blocks(v', d3) == full && TailZero(v', d3)
    && BitsMatch(d3, g, Reassign(own, id, full)) && FreeZero(d3, g, Reassign(own, id, full))
  }

  /** Storing it completes the step: the invariant holds again, the inode reads back as
      v' with the same contents, and no other file has changed. */
  lemma CommitInode(d0: seq<Block>, d3: seq<Block>, g: Geometry, own: Owners, id: nat, v': InodeView, full: seq<u32>)
    requires FsInv(d0, g, own) && Used(d0, g, id)
    requires ReadyToStore(d0, d3, g, own, id, v', full)
    ensures var d4 := StoreAt(d3, g, id, v'); var own' := Reassign(own, id, full);
      && FsInv(d4, g, own')
      && InodeAt(d4, g, id) == v' && Contents(v', d4) == Contents(v', d3)
      && (forall i: nat :: Used(d4, g, i) <==> Used(d0, g, i))
      && (forall i: nat :: i != id && Used(d0, g, i) ==>
            (InodeAt(d4, g, i) == InodeAt(d0, g, i) &&
             Contents(InodeAt(d4, g, i), d4) == Contents(InodeAt(d0, g, i), d0)))
  {
    hide Used, InodeAt, StoreAt, Reassign, Blocks, ByteAt, Contents, BitsMatch, FreeZero, MayOwn, FsInv, OthersKept;
    InvInodes(d0, g, own);
    var d4 := StoreAt(d3, g, id, v');
    var own' := Reassign(own, id, full);
    StoreAtFacts(d3, g, id, v');
    ReassignFacts(own, id, full);
    ReadySound(d0, d3, g, own, id, v', full);
    FileFrame(v', d3, d4);
    CommittedTree(d4, g, own', id, v', full);
    StoreKeepsOthers(d0, d3, g, own, id, v', full);
    Commit(d0, d4, g, own, own', id);
    CommitKeeps(d0, d4, g, own, own', id);
  }

  lemma InvInodes(d: seq<Block>, g: Geometry, own: Owners)
    requires FsInv(d, g, own)
    ensures InodesOk(d, g) && g.Fits(d)
  {
  }

  lemma CommitKeeps(d0: seq<Block>, d4: seq<Block>, g: Geometry, own: Owners, own': Owners, id: nat)
    requires InodesOk(d0, g) && OthersKept(d0, d4, g, own, own', id)
    ensures forall i: nat :: Used(d4, g, i) <==> Used(d0, g, i)
    ensures forall i: nat :: i != id && Used(d0, g, i) ==> InodeAt(d4, g, i) == InodeAt(d0, g, i)
  {
  }

  lemma StoreKeepsOthers(d0: seq<Block>, d3: seq<Block>, g: Geometry, own: Owners, id: nat, v': InodeView,
      full: seq<u32>)
    requires FsInv(d0, g, own) && Used(d0, g, id)
    requires ReadyToStore(d0, d3, g, own, id, v', full)
    ensures var d4 := StoreAt(d3, g, id, v'); var own' := Reassign(own, id, full);
      OthersKept(d0, d4, g, own, own', id) && BitsMatch(d4, g, own') && FreeZero(d4, g, own')
  {
    hide Used, InodeAt, StoreAt, Reassign, Blocks, ByteAt, Bitmap.IsSet, Recorded;
    StoreAtFacts(d3, g, id, v');
    ReassignFacts(own, id, full);
    SameInodes(d0, d3, g);
    PlacedBounds(d0, g, own);
  }

  lemma PlacedBounds(d: seq<Block>, g: Geometry, own: Owners)
    requires FsInv(d, g, own)
    ensures forall b :: b in own ==> g.DataStart() <= b < g.DataEnd()
  {
  }

  lemma SameInodes(d0: seq<Block>, d3: seq<Block>, g: Geometry)
    requires |d3| == |d0| && g.Fits(d0)
    requires forall b :: 0 <= b < g.DataBitmap().start ==> d3[b] == d0[b]
    ensures forall i: nat :: Used(d3, g, i) <==> Used(d0, g, i)
    ensures forall i: nat :: i < g.MaxInodes() ==> InodeAt(d3, g, i) == InodeAt(d0, g, i)
  {
  }

  lemma ReadySound(d0: seq<Block>, d3: seq<Block>, g: Geometry, own: Owners, id: nat, v': InodeView, full: seq<u32>)
    requires ReadyToStore(d0, d3, g, own, id, v', full)
    ensures Sound(v', d3)
  {
  }

  lemma CommittedTree(d4: seq<Block>, g: Geometry, own': Owners, id: nat, v': InodeView, full: seq<u32>)
    requires g.Fits(d4) && id < g.MaxInodes() && InodeAt(d4, g, id) == v'
    requires v'.size <= MAX_SIZE && Blocks(v', d4) == full && TailZero(v', d4)
    requires forall i :: 0 <= i < |full| ==> g.DataStart() <= full[i] < g.DataEnd()
    requires forall i :: 0 <= i < |full| ==> full[i] as nat in own' && own'[full[i]] == (id, i as nat)
    requires forall b :: b in own' && own'[b].0 == id ==> own'[b].1 < |full| && full[own'[b].1] == b
    ensures TreeCommitted(d4, g, own', id)
  {
  }

  /** What a write makes of a file: a gap past the old end is filled with zeros. */
  function WriteSpec(old_: seq<byte>, offset: nat, buf: seq<byte>): (r: seq<byte>)
    ensures |r| == if |old_| < offset + |buf| then offset + |buf| else |old_|
  {
    seq<byte>(if |old_| < offset + |buf| then offset + |buf| else |old_|,
      k requires 0 <= k =>
        if offset <= k < offset + |buf| then buf[k - offset] else if k < |old_| then old_[k] else 0)
  }

  /** The states of one write: d0 before, d1 with the fresh blocks nb taken, d2 grown,
      d3 with the bytes written. */
  ghost predicate WriteChain(d0: seq<Block>, d1: seq<Block>, d2: seq<Block>, d3: seq<Block>, g: Geometry, own: Owners,
      id: nat, nb: seq<u32>, v2: InodeView, offset: nat, buf: seq<byte>)
  {
    && FsInv(d0, g, own) && Used(d0, g, id) && Allocating(d0, d1, g, own, nb)
    && var v := InodeAt(d0, g, id); var full := Blocks(v, d0) + nb;
    && v2.size == (if v.size < offset + |buf| then offset + |buf| else v.size) <= MAX_SIZE
    && |full| == TotalBlocks(DataBlocks(v2.size))
    && Filled(v2, d1, d2, full, |full|)
    && Written(v2, d2, d3, offset, buf) && SpareZero(v2, d2)
  }

  /** Growing an inode only fills slots. */
  ghost predicate FieldsKept(v: InodeView, v2: InodeView)
  {
    var n := DataBlocks(v2.size);
    && |v2.direct| == |v.direct| == 28
    && (forall j :: n <= j < 28 ==> v2.direct[j] == v.direct[j])
    && (n <= 28 ==> v2.indirect1 == v.indirect1) && (n <= 156 ==> v2.indirect2 == v.indirect2)
  }

  /** Slots past the blocks of the grown file hold 0: those that were there before did, and
      new index blocks come from the free blocks. */
  lemma GrownSpare(d0: seq<Block>, d1: seq<Block>, d2: seq<Block>, g: Geometry, own: Owners, id: nat, nb: seq<u32>,
      v2: InodeView)
    requires FsInv(d0, g, own) && Used(d0, g, id) && Allocating(d0, d1, g, own, nb)
    requires var v := InodeAt(d0, g, id); var full := Blocks(v, d0) + nb;
      && v.size <= v2.size <= MAX_SIZE && |full| == TotalBlocks(DataBlocks(v2.size))
      && Filled(v2, d1, d2, full, |full|) && FieldsKept(v, v2)
    ensures SpareZero(v2, d2)
  {
    hide Value, Used, InodeAt, BitsMatch, Bitmap.IsSet, Tree, TotalBlocks, BlockSet, SlotAt, ParentPos, SpareZero,
      HasParent, EntryOf, ZeroBlock, FsInv, Allocating, Filled;
    SpareOf(d0, g, own, id);
    var v := InodeAt(d0, g, id);
    var full := Blocks(v, d0) + nb;
    forall p | |full| <= p && HasPlace(p, |full|)
      ensures At(v2, d2, p) == 0
    {
      if HasParent(SlotAt(p)) {
        SpareEntry(d0, d1, d2, g, own, id, nb, v2, p);
      } else {
        SpareField(d0, d2, g, own, id, v2, p);
      }
    }
    assert SpareZero(v2, d2) by { SpareIs(v2, d2, |full|); }
  }

  lemma SpareIs(v: InodeView, d: seq<Block>, t: nat)
    requires t == TotalBlocks(DataBlocks(v.size))
    ensures SpareZero(v, d) <==> forall p :: t <= p && HasPlace(p, t) ==> At(v, d, p) == 0
  {
  }

  lemma SpareField(d0: seq<Block>, d2: seq<Block>, g: Geometry, own: Owners, id: nat, v2: InodeView, p: nat)
    requires FsInv(d0, g, own) && Used(d0, g, id)
    requires var v := InodeAt(d0, g, id); v.size <= v2.size <= MAX_SIZE && FieldsKept(v, v2)
    requires TotalBlocks(DataBlocks(v2.size)) <= p < MAX_TREE && !HasParent(SlotAt(p))
    ensures At(v2, d2, p) == 0
  {
    hide Used, InodeAt, BitsMatch, Recorded, Placed, FreeZero;
    var v := InodeAt(d0, g, id);
    assert TailZero(v, d0);
    TotalMonotone(DataBlocks(v.size), DataBlocks(v2.size));
    SizeBounds(v.size, v2.size);
    assert HasPlace(p, TotalBlocks(DataBlocks(v.size))) && At(v, d0, p) == 0;
  }

  lemma SpareEntry(d0: seq<Block>, d1: seq<Block>, d2: seq<Block>, g: Geometry, own: Owners, id: nat, nb: seq<u32>,
      v2: InodeView, p: nat)
    requires FsInv(d0, g, own) && Used(d0, g, id) && Allocating(d0, d1, g, own, nb)
    requires var v := InodeAt(d0, g, id); var full := Blocks(v, d0) + nb;
      && v.size <= v2.size <= MAX_SIZE && |full| == TotalBlocks(DataBlocks(v2.size))
      && Filled(v2, d1, d2, full, |full|) && |full| <= p && HasPlace(p, |full|)
    requires HasParent(SlotAt(p))
    ensures At(v2, d2, p) == 0
  {
    hide Used, InodeAt, BitsMatch, Bitmap.IsSet, Tree, TotalBlocks, BlockSet, SlotAt, ParentPos, At, EntryOf,
      HasParent, ZeroBlock, Recorded, Placed, SpareZero;
    var v := InodeAt(d0, g, id);
    var t := Blocks(v, d0);
    var full := t + nb;
    var q := ParentPos(SlotAt(p));
    var k := EntryIndex(SlotAt(p));
    ExtendedTree(d0, d1, g, own, id, nb);
    ParentFirst(v2, d2, p);
    TreeIsAt(v2, d2, |full|, q);
    assert EntryAt(d2, full, p) == EntryAt(d1, full, p);
    assert d1[full[q]] == d0[full[q]];
    SameEntry(d1, d0, full[q], k);
    assert At(v2, d2, p) == EntryOf(d0, full[q], k);
    if q < |t| {
      ParentFirst(v, d0, p);
      TreeIsAt(v, d0, |t|, q);
      TailHas(v, d0);
      SpareIs(v, d0, |t|);
      assert HasPlace(p, |t|) && At(v, d0, p) == 0;
    } else {
      assert full[q] == nb[q - |t|];
      ZeroEntry(d0, full[q], k);
    }
  }

  lemma SameEntry(d: seq<Block>, d': seq<Block>, b: nat, k: nat)
    requires b < |d| == |d'| && d'[b] == d[b]
    ensures EntryOf(d', b, k) == EntryOf(d, b, k)
  {
  }

  lemma ZeroEntry(d: seq<Block>, b: nat, k: nat)
    requires b < |d| && d[b] == ZeroBlock()
    ensures EntryOf(d, b, k) == 0
  {
  }

  /** Writing data touches no index block. */
  lemma WrittenSpare(v: InodeView, d2: seq<Block>, d3: seq<Block>, offset: nat, buf: seq<byte>)
    requires Written(v, d2, d3, offset, buf) && SpareZero(v, d2)
    ensures SpareZero(v, d3)
  {
    hide SpareZero, Tree, TotalBlocks, IsIndex, At, BlockId, ByteAt;
    var t := Blocks(v, d2);
    forall q | 0 <= q < |t| && IsIndex(q) && At(v, d2, q) < |d2|
      ensures d3[At(v, d2, q)] == d2[At(v, d2, q)]
    {
      TreeIsAt(v, d2, |t|, q);
      if DataBlockOf(v, d2, t[q]) {
        var i :| 0 <= i < DataBlocks(v.size) && BlockId(v, d2, i) == t[q];
        DataBlockInTree(v, d2, i);
      }
    }
    SpareFrame(v, d2, d3);
  }

  /** The bytes after the write. */
  lemma WrittenBytes(d0: seq<Block>, d1: seq<Block>, d2: seq<Block>, d3: seq<Block>, g: Geometry, own: Owners,
      id: nat, nb: seq<u32>, v2: InodeView, offset: nat, buf: seq<byte>)
    requires WriteChain(d0, d1, d2, d3, g, own, id, nb, v2, offset, buf)
    ensures TailZero(v2, d3)
    ensures Contents(v2, d3) == WriteSpec(Contents(InodeAt(d0, g, id), d0), offset, buf)
  {
    InvInodes(d0, g, own);
    hide Used, InodeAt, Blocks, ByteAt, FsInv, Allocating, TotalBlocks, Filled, BlockId, DataBlockOf, SpareZero;
    WrittenSpare(v2, d2, d3, offset, buf);
    forall k | 0 <= k < 512 * DataBlocks(v2.size)
      ensures ByteAt(v2, d3, k) ==
        if offset <= k < offset + |buf| then buf[k - offset]
        else if k < InodeAt(d0, g, id).size then Contents(InodeAt(d0, g, id), d0)[k] else 0
    {
      GrownByte(d0, d1, d2, g, own, id, nb, v2, k);
    }
  }

  /** After the write the inode is ready to be stored with its extended tree. */
  lemma WriteReady(d0: seq<Block>, d1: seq<Block>, d2: seq<Block>, d3: seq<Block>, g: Geometry, own: Owners,
      id: nat, nb: seq<u32>, v2: InodeView, offset: nat, buf: seq<byte>)
    requires WriteChain(d0, d1, d2, d3, g, own, id, nb, v2, offset, buf)
    ensures ReadyToStore(d0, d3, g, own, id, v2, Blocks(InodeAt(d0, g, id), d0) + nb)
    ensures |Reassign(own, id, Blocks(InodeAt(d0, g, id), d0) + nb)| == |own| + |nb|
  {
    hide Used, InodeAt, ByteAt, TotalBlocks, Tree, BlockId, Recorded, Placed, Reassign, BitsMatch, Allocating,
      MayOwn, BlockSet;
    var v := InodeAt(d0, g, id);
    var full := Blocks(v, d0) + nb;
    WrittenBytes(d0, d1, d2, d3, g, own, id, nb, v2, offset, buf);
    ExtendedTree(d0, d1, g, own, id, nb);
    OwnBlocks(d0, g, own, id);
    ReassignFacts(own, id, full);
    ReassignSize(own, id, Blocks(v, d0), full);
    PlacedBounds(d0, g, own);
    assert Blocks(v2, d2) == full;
    WriteTouches(v2, d1, d2, d3, full, offset, buf);
    forall b: nat
      ensures b in Reassign(own, id, full) <==> b in own || b in BlockSet(nb)
    {
      KeysAfterGrowth(own, id, Blocks(v, d0), nb, b);
    }
    ReadyAfterWrite(d0, d1, d3, g, own, id, nb, full, Reassign(own, id, full));
  }

  /** Off the bitmap and off the new tree nothing has changed, so bits and free blocks
      are as the new ownership says. */
  lemma ReadyAfterWrite(d0: seq<Block>, d1: seq<Block>, d3: seq<Block>, g: Geometry, own: Owners, id: nat,
      nb: seq<u32>, full: seq<u32>, own': Owners)
    requires g.Fits(d0) && |d3| == |d0| && Allocating(d0, d1, g, own, nb) && FreeZero(d0, g, own)
    requires forall b :: 0 <= b < |d1| && b !in BlockSet(full) ==> d3[b] == d1[b]
    requires forall i :: 0 <= i < |full| ==> g.DataStart() <= full[i] < g.DataEnd()
    requires MayOwn(own, id, full)
    requires forall b :: b in own ==> g.DataStart() <= b < g.DataEnd()
    requires forall b: nat :: b in own' <==> b in own || b in BlockSet(nb)
    requires forall i :: 0 <= i < |full| ==> full[i] as nat in own'
    ensures forall b :: 0 <= b < g.DataBitmap().start ==> d3[b] == d0[b]
    ensures forall b :: b in own && own[b].0 != id && b < |d0| ==> d3[b] == d0[b]
    ensures BitsMatch(d3, g, own') && FreeZero(d3, g, own')
  {
    hide BlockBit;
    assert forall b :: 0 <= b < |d1| && !(g.DataStart() <= b < g.DataEnd()) ==> b !in BlockSet(full);
    BitsFrame(g.DataBitmap(), d1, d3);
    forall b | b in own && own[b].0 != id
      ensures b !in BlockSet(full)
    {
      assert b in OtherKeys(own, id);
    }
  }

  /** Growth and writing touch only blocks of the new tree. */
  lemma WriteTouches(v2: InodeView, d1: seq<Block>, d2: seq<Block>, d3: seq<Block>, full: seq<u32>, offset: nat,
      buf: seq<byte>)
    requires Filled(v2, d1, d2, full, |full|) && Blocks(v2, d2) == full && v2.size <= MAX_SIZE
    requires Written(v2, d2, d3, offset, buf)
    ensures forall b :: 0 <= b < |d1| && b !in BlockSet(full) ==> d3[b] == d1[b]
  {
    hide Tree, TotalBlocks, BlockId, IsIndex, DataPos;
    forall b | 0 <= b < |d1|
      ensures IndexBlockOf(full, b) || DataBlockOf(v2, d2, b) ==> b in BlockSet(full)
    {
      DataBlockInSet(v2, d2, b);
    }
  }

  lemma DataBlockInSet(v: InodeView, d: seq<Block>, b: nat)
    requires v.size <= MAX_SIZE
    ensures DataBlockOf(v, d, b) ==> b in BlockSet(Blocks(v, d))
  {
    hide Tree, TotalBlocks, BlockId, DataPos;
    if DataBlockOf(v, d, b) {
      var i :| 0 <= i < DataBlocks(v.size) && BlockId(v, d, i) == b;
      DataBlockInTree(v, d, i);
      assert Blocks(v, d)[DataPos(i)] == b;
    }
  }

  lemma KeysAfterGrowth(own: Owners, id: nat, t: seq<u32>, nb: seq<u32>, b: nat)
    requires forall b :: b in own && own[b].0 == id <==> b in BlockSet(t)
    ensures b in Reassign(own, id, t + nb) <==> b in own || b in BlockSet(nb)
  {
    var full := t + nb;
    if b in BlockSet(full) {
      var i :| 0 <= i < |full| && full[i] == b;
      if i >= |t| {
        assert nb[i - |t|] == b;
      } else {
        assert t[i] == b;
      }
    }
    if b in BlockSet(t) {
      var i :| 0 <= i < |t| && t[i] == b;
      assert full[i] == b;
    }
    if b in BlockSet(nb) {
      var i :| 0 <= i < |nb| && nb[i] == b;
      assert full[|t| + i] == b;
    }
  }

  /** The file system while the first k blocks of a cleared file have been zeroed and
      given back to the bitmap. */
  ghost predicate Freeing(d0: seq<Block>, d: seq<Block>, g: Geometry, own: Owners, t: seq<u32>, k: nat)
  {
    && |d| == |d0| && g.Fits(d) && k <= |t|
    && (forall b :: 0 <= b < |d| && !(g.DataBitmap().start <= b < g.DataStart()) && b !in BlockSet(t[..k]) ==> d[b] == d0[b])
    && (forall i :: 0 <= i < k && t[i] < |d| ==> d[t[i]] == ZeroBlock())
    && (forall n: nat :: g.DataBitmap().IsSet(d, n) <==>
          g.DataStart() + n in own && g.DataStart() + n !in BlockSet(t[..k]))
  }

  lemma FreeStep(d0: seq<Block>, d: seq<Block>, d': seq<Block>, g: Geometry, own: Owners, t: seq<u32>, k: nat)
    requires Freeing(d0, d, g, own, t, k) && k < |t| && Distinct(t)
    requires forall i :: 0 <= i < |t| ==> g.DataStart() <= t[i] < g.DataEnd()
    requires t[k] as nat in own && |d'| == |d|
    requires forall n: nat :: g.DataBitmap().IsSet(d', n) <==> n != t[k] - g.DataStart() && g.DataBitmap().IsSet(d, n)
    requires forall b :: 0 <= b < |d| && !(g.DataBitmap().start <= b < g.DataStart()) ==>
      d'[b] == if b == t[k] then ZeroBlock() else d[b]
    ensures Freeing(d0, d', g, own, t, k + 1)
  {
    hide Bitmap.IsSet, ZeroBlock;
    assert BlockSet(t[..k + 1]) == BlockSet(t[..k]) + {t[k] as nat} by {
      assert t[..k + 1][k] == t[k];
      forall i | 0 <= i < k
        ensures t[..k + 1][i] == t[..k][i]
      {
      }
    }
    forall i | 0 <= i < k
      ensures t[i] != t[k]
    {
    }
  }

  lemma FreeReady(d: seq<Block>, g: Geometry, own: Owners, t: seq<u32>, k: nat, d0: seq<Block>)
    requires Freeing(d0, d, g, own, t, k) && k < |t| && Distinct(t)
    requires g.DataStart() <= t[k] < g.DataEnd() && t[k] as nat in own
    ensures g.DataBitmap().IsSet(d, t[k] - g.DataStart())
  {
    hide Bitmap.IsSet;
    PrefixFresh(t, k);
  }

  lemma PrefixFresh(t: seq<u32>, k: nat)
    requires Distinct(t) && k < |t|
    ensures t[k] as nat !in BlockSet(t[..k])
  {
    forall i | 0 <= i < k
      ensures t[..k][i] != t[k]
    {
    }
  }

  /** With every block given back, the emptied inode is ready to be stored. */
  lemma ClearReady(d0: seq<Block>, d3: seq<Block>, g: Geometry, own: Owners, id: nat)
    requires FsInv(d0, g, own) && Used(d0, g, id)
    requires var t := Blocks(InodeAt(d0, g, id), d0); Freeing(d0, d3, g, own, t, |t|)
    ensures ReadyToStore(d0, d3, g, own, id, Cleared(InodeAt(d0, g, id)), [])
    ensures |Reassign(own, id, [])| == |own| - |Blocks(InodeAt(d0, g, id), d0)|
  {
    hide Used, InodeAt, Blocks, Recorded, Placed, BlockSet, Freeing, BitsMatch, TailZero;
    LoadShape(d0, g, id);
    var v := InodeAt(d0, g, id);
    var t := Blocks(v, d0);
    OwnBlocks(d0, g, own, id);
    PlacedBounds(d0, g, own);
    EmptySet();
    ReassignFacts(own, id, []);
    ReassignSize(own, id, t, []);
    EmptyTree(Cleared(v), d3);
    ClearedSpare(d0, g, own, id, d3);
    EmptyTail(Cleared(v), d3);
    ReadyAfterClear(d0, d3, g, own, id, t, Reassign(own, id, []));
  }

  lemma SpareOf(d: seq<Block>, g: Geometry, own: Owners, id: nat)
    requires FsInv(d, g, own) && Used(d, g, id)
    ensures id < g.MaxInodes() && g.Fits(d) && |d| > 0
    ensures |InodeAt(d, g, id).direct| == 28 && InodeAt(d, g, id).size <= MAX_SIZE && SpareZero(InodeAt(d, g, id), d)
  {
    hide Used, InodeAt, Recorded, Placed, BitsMatch, FreeZero, DataBlocks, SpareZero;
    LoadShape(d, g, id);
    assert TailZero(InodeAt(d, g, id), d);
  }

  lemma ClearedSpare(d: seq<Block>, g: Geometry, own: Owners, id: nat, d3: seq<Block>)
    requires FsInv(d, g, own) && Used(d, g, id)
    ensures id < g.MaxInodes() && g.Fits(d) && |InodeAt(d, g, id).direct| == 28
    ensures SpareZero(Cleared(InodeAt(d, g, id)), d3)
  {
    hide Used, InodeAt, FsInv, DataBlocks, TotalBlocks, SpareZero;
    SpareOf(d, g, own, id);
    var v := InodeAt(d, g, id);
    SizeBounds(v.size, v.size);
    SpareIs(v, d, TotalBlocks(DataBlocks(v.size)));
    NoBlocks();
    forall p | 0 <= p && HasPlace(p, 0)
      ensures At(Cleared(v), d3, p) == 0
    {
      if TotalBlocks(DataBlocks(v.size)) <= p {
        assert HasPlace(p, TotalBlocks(DataBlocks(v.size)));
        assert At(v, d, p) == 0;
      }
    }
    SpareIs(Cleared(v), d3, 0);
  }

  lemma NoBlocks()
    ensures DataBlocks(0) == 0 && TotalBlocks(0) == 0
  {
  }

  lemma ReadyAfterClear(d0: seq<Block>, d3: seq<Block>, g: Geometry, own: Owners, id: nat, t: seq<u32>, own': Owners)
    requires Freeing(d0, d3, g, own, t, |t|) && FreeZero(d0, g, own)
    requires forall b :: b in own ==> g.DataStart() <= b < g.DataEnd()
    requires forall b :: b in own && own[b].0 == id <==> b in BlockSet(t)
    requires forall b :: b in own' <==> b in own && own[b].0 != id
    ensures |d3| == |d0| && g.Fits(d3)
    ensures forall b :: 0 <= b < g.DataBitmap().start ==> d3[b] == d0[b]
    ensures forall b :: b in own && own[b].0 != id && b < |d0| ==> d3[b] == d0[b]
    ensures BitsMatch(d3, g, own') && FreeZero(d3, g, own')
  {
    hide Bitmap.IsSet, BlockSet, ZeroBlock;
    assert t[..|t|] == t;
    forall b: nat | b in BlockSet(t)
      ensures b < |d3| && d3[b] == ZeroBlock()
    {
      FromBlockSet(t, b);
    }
  }

  lemma EmptySet()
    ensures BlockSet([]) == {}
  {
  }

  lemma FromBlockSet(t: seq<u32>, b: nat)
    requires b in BlockSet(t)
    ensures exists i :: 0 <= i < |t| && t[i] == b
  {
  }

  /** A fresh inode as `initialize` leaves it. */
  function FreshInode(id: u32, dir: bool): InodeView
  {
    InodeView(id, 0, seq(28, _ => 0), 0, 0, 1, dir)
  }

  lemma FreshSpare(id: u32, dir: bool, d: seq<Block>)
    ensures SpareZero(FreshInode(id, dir), d)
  {
    hide SlotAt;
  }

  /** Taking the free number `id` from the inode bitmap and initializing its slot adds
      an empty file and nothing else. */
  lemma AddInode(d0: seq<Block>, d1: seq<Block>, g: Geometry, own: Owners, id: nat, v: InodeView)
    requires FsInv(d0, g, own) && id < g.MaxInodes() && !Used(d0, g, id)
    requires |d1| == |d0| && v.size == 0 && |v.direct| == 28 && SpareZero(v, d1)
    requires forall i: nat :: Used(d1, g, i) <==> i == id || Used(d0, g, i)
    requires forall b :: 0 <= b < |d0| && !(1 <= b < g.InodeStart()) ==> d1[b] == d0[b]
    ensures var d2 := StoreAt(d1, g, id, v);
      && FsInv(d2, g, own)
      && InodeAt(d2, g, id) == v
      && (forall i: nat :: Used(d2, g, i) <==> i == id || Used(d0, g, i))
      && (forall i: nat :: i != id && Used(d0, g, i) ==>
            (InodeAt(d2, g, i) == InodeAt(d0, g, i) &&
             Contents(InodeAt(d2, g, i), d2) == Contents(InodeAt(d0, g, i), d0)))
  {
    hide Used, InodeAt, StoreAt, Blocks, ByteAt, Contents, Bitmap.IsSet, Recorded, Placed, BitsMatch, FreeZero,
      TailZero, SpareZero;
    var d2 := StoreAt(d1, g, id, v);
    StoreAtFacts(d1, g, id, v);
    SameAbove(d0, d1, g);
    EmptyTree(v, d2);
    forall i: nat | Used(d0, g, i)
      ensures InodeAt(d2, g, i) == InodeAt(d0, g, i)
      ensures Blocks(InodeAt(d0, g, i), d2) == Blocks(InodeAt(d0, g, i), d0)
      ensures Contents(InodeAt(d0, g, i), d2) == Contents(InodeAt(d0, g, i), d0)
      ensures TailZero(InodeAt(d0, g, i), d2)
    {
      InvSound(d0, g, own, i);
      assert TailZero(InodeAt(d0, g, i), d0);
      TailHas(InodeAt(d0, g, i), d0);
      FileFrame(InodeAt(d0, g, i), d0, d2);
      TailFrame(InodeAt(d0, g, i), d0, d2);
    }
    assert InodesOk(d2, g);
    AddRecorded(d0, d2, g, own, id, v);
    BitsAndZeros(d0, d2, g, own);
    EmptyTail(v, d1);
    SpareFrame(v, d1, d2);
    EmptyTail(v, d2);
  }

  lemma EmptyTail(v: InodeView, d: seq<Block>)
    requires v.size == 0 && SpareZero(v, d)
    ensures TailZero(v, d)
  {
  }

  lemma TailHas(v: InodeView, d: seq<Block>)
    requires TailZero(v, d)
    ensures SpareZero(v, d)
  {
  }

  lemma TailFrame(v: InodeView, d: seq<Block>, d': seq<Block>)
    requires TailZero(v, d) && SpareZero(v, d')
    requires forall k :: 0 <= k < 512 * DataBlocks(v.size) ==> ByteAt(v, d', k) == ByteAt(v, d, k)
    ensures TailZero(v, d')
  {
  }

  lemma SameAbove(d0: seq<Block>, d1: seq<Block>, g: Geometry)
    requires |d1| == |d0| && g.Fits(d0)
    requires forall b :: 0 <= b < |d0| && !(1 <= b < g.InodeStart()) ==> d1[b] == d0[b]
    ensures forall i: nat :: i < g.MaxInodes() ==> InodeAt(d1, g, i) == InodeAt(d0, g, i)
  {
  }

  lemma AddRecorded(d0: seq<Block>, d2: seq<Block>, g: Geometry, own: Owners, id: nat, v: InodeView)
    requires InodesOk(d0, g) && InodesOk(d2, g) && Recorded(d0, g, own) && Placed(d0, g, own)
    requires !Used(d0, g, id) && Used(d2, g, id) && InodeAt(d2, g, id) == v && Blocks(v, d2) == []
    requires forall i: nat :: Used(d2, g, i) <==> i == id || Used(d0, g, i)
    requires forall i: nat :: Used(d0, g, i) ==>
      (InodeAt(d2, g, i) == InodeAt(d0, g, i) && Blocks(InodeAt(d0, g, i), d2) == Blocks(InodeAt(d0, g, i), d0))
    ensures Recorded(d2, g, own) && Placed(d2, g, own)
  {
    hide Used, InodeAt, Blocks;
    forall i: nat, p: nat | Used(d2, g, i) && p < |Blocks(InodeAt(d2, g, i), d2)|
      ensures RecordedAt(d2, own, InodeAt(d2, g, i), i, p)
    {
      assert RecordedAt(d0, own, InodeAt(d0, g, i), i, p);
    }
    forall b | b in own
      ensures PlacedAt(d2, g, own[b].0, own[b].1, b)
    {
      assert PlacedAt(d0, g, own[b].0, own[b].1, b);
    }
  }

  lemma BitsAndZeros(d0: seq<Block>, d2: seq<Block>, g: Geometry, own: Owners)
    requires g.Fits(d0) && |d2| == |d0| && BitsMatch(d0, g, own) && FreeZero(d0, g, own)
    requires forall b :: g.DataBitmap().start <= b < |d0| ==> d2[b] == d0[b]
    ensures BitsMatch(d2, g, own) && FreeZero(d2, g, own)
  {
    hide BlockBit;
    BitsFrame(g.DataBitmap(), d0, d2);
  }
}
