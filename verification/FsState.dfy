/** The file-system invariant. `own` names, for every block in use, the inode and the
    canonical position that hold it; being a map, it rules out that two trees, or two
    places of one tree, share a block. */
module FsState {
  import opened BitmapLayer
  import opened Layout
  import opened DiskInodes
  import opened FileData
  import opened Efs

  type Owners = map<nat, (nat, nat)>

  predicate Used(d: seq<Block>, g: Geometry, id: nat)
  {
    g.Fits(d) && g.InodeBitmap().IsSet(d, id)
  }

  function InodeAt(d: seq<Block>, g: Geometry, id: nat): InodeView
    requires g.Fits(d) && id < g.MaxInodes()
  {
    LoadInode(d[g.InodeStart() + id / 3], id % 3)
  }

  /** Inode numbers in use have a home, and their sizes are within the tree's reach. */
  ghost predicate InodesOk(d: seq<Block>, g: Geometry)
  {
    g.Fits(d) && forall id: nat :: Used(d, g, id) ==> id < g.MaxInodes() && InodeAt(d, g, id).size <= MAX_SIZE
  }

  /** Every block of every tree is recorded at its own place. */
  ghost predicate Recorded(d: seq<Block>, g: Geometry, own: Owners)
    requires InodesOk(d, g)
  {
    forall id: nat, p: nat :: Used(d, g, id) && p < |Blocks(InodeAt(d, g, id), d)| ==>
      RecordedAt(d, own, InodeAt(d, g, id), id, p)
  }

  ghost predicate RecordedAt(d: seq<Block>, own: Owners, v: InodeView, id: nat, p: nat)
    requires p < |Blocks(v, d)|
  {
    var b: nat := Blocks(v, d)[p];
    b in own && own[b] == (id, p)
  }

  /** Every recorded block is a data-area block at that place of that tree. */
  ghost predicate Placed(d: seq<Block>, g: Geometry, own: Owners)
    requires InodesOk(d, g)
  {
    forall b :: b in own ==> g.DataStart() <= b < g.DataEnd() && PlacedAt(d, g, own[b].0, own[b].1, b)
  }

  ghost predicate PlacedAt(d: seq<Block>, g: Geometry, id: nat, p: nat, b: nat)
    requires InodesOk(d, g)
  {
    Used(d, g, id) && p < |Blocks(InodeAt(d, g, id), d)| && Blocks(InodeAt(d, g, id), d)[p] == b
  }

  /** A data bit is set exactly when its block is in use. */
  ghost predicate BitsMatch(d: seq<Block>, g: Geometry, own: Owners)
    requires g.Fits(d)
  {
    forall n: nat :: g.DataBitmap().IsSet(d, n) <==> g.DataStart() + n in own
  }

  /** Every free data block is all zeros. */
  ghost predicate FreeZero(d: seq<Block>, g: Geometry, own: Owners)
    requires g.Fits(d)
  {
    forall b :: g.DataStart() <= b < g.DataEnd() && b !in own ==> d[b] == ZeroBlock()
  }

  /** Slots that exist past a file's blocks hold 0. */
  ghost predicate SpareZero(v: InodeView, d: seq<Block>)
  {
    var t := TotalBlocks(DataBlocks(v.size));
    forall p :: t <= p && HasPlace(p, t) ==> At(v, d, p) == 0
  }

  /** Past a file's end mapped bytes are zero, and so are the slots. */
  ghost predicate TailZero(v: InodeView, d: seq<Block>)
  {
    SpareZero(v, d) && forall k :: v.size <= k < 512 * DataBlocks(v.size) ==> ByteAt(v, d, k) == 0
  }

  ghost predicate FsInv(d: seq<Block>, g: Geometry, own: Owners)
  {
    && InodesOk(d, g)
    && Recorded(d, g, own)
    && Placed(d, g, own)
    && BitsMatch(d, g, own)
    && FreeZero(d, g, own)
    && forall id: nat :: Used(d, g, id) ==> TailZero(InodeAt(d, g, id), d)
  }

  /** The invariant makes every file's tree a tree of distinct data blocks. */
  lemma InvSound(d: seq<Block>, g: Geometry, own: Owners, id: nat)
    requires FsInv(d, g, own) && Used(d, g, id)
    ensures Sound(InodeAt(d, g, id), d)
    ensures forall p :: 0 <= p < |Blocks(InodeAt(d, g, id), d)| ==>
      g.DataStart() <= Blocks(InodeAt(d, g, id), d)[p] < g.DataEnd()
  {
    hide Blocks, Used, InodeAt;
    var v := InodeAt(d, g, id);
    var t := Blocks(v, d);
    forall i | 0 <= i < |t|
      ensures g.DataStart() <= t[i] < g.DataEnd() && var b: nat := t[i]; b in own && own[b] == (id, i)
    {
      assert RecordedAt(d, own, v, id, i);
    }
    LoadShape(d, g, id);
  }

  lemma LoadShape(d: seq<Block>, g: Geometry, id: nat)
    requires g.Fits(d) && id < g.MaxInodes()
    ensures |InodeAt(d, g, id).direct| == 28
  {
  }

  /** A file's tree, bytes and contents survive whatever leaves its own blocks alone. */
  lemma FileFrame(v: InodeView, d: seq<Block>, d': seq<Block>)
    requires Sound(v, d) && |d| == |d'|
    requires forall p :: 0 <= p < |Blocks(v, d)| ==> d'[Blocks(v, d)[p]] == d[Blocks(v, d)[p]]
    ensures Blocks(v, d') == Blocks(v, d)
    ensures forall k :: 0 <= k < 512 * DataBlocks(v.size) ==> ByteAt(v, d', k) == ByteAt(v, d, k)
    ensures Contents(v, d') == Contents(v, d) && (SpareZero(v, d) ==> SpareZero(v, d'))
  {
    hide SpareZero, Value, Tree, At, TotalBlocks, Distinct, IsIndex, DataPos;
    var t := Blocks(v, d);
    SizeBounds(v.size, v.size);
    forall q | 0 <= q < |t| && IsIndex(q) && At(v, d, q) < |d|
      ensures d'[At(v, d, q)] == d[At(v, d, q)]
    {
      TreeIsAt(v, d, |t|, q);
    }
    TreeFrame(v, d, d', |t|);
    if SpareZero(v, d) {
      SpareFrame(v, d, d');
    }
    forall k | 0 <= k < 512 * DataBlocks(v.size)
      ensures ByteAt(v, d', k) == ByteAt(v, d, k)
    {
      DataBlockInTree(v, d, k / 512);
      DataBlockInTree(v, d', k / 512);
    }
  }

  /** Unused slots survive whatever leaves the index blocks alone. */
  lemma SpareFrame(v: InodeView, d: seq<Block>, d': seq<Block>)
    requires SpareZero(v, d) && v.size <= MAX_SIZE && |d| == |d'|
    requires forall q :: 0 <= q < TotalBlocks(DataBlocks(v.size)) && IsIndex(q) && At(v, d, q) < |d| ==>
      d'[At(v, d, q)] == d[At(v, d, q)]
    ensures SpareZero(v, d')
  {
    hide TotalBlocks, SlotAt, ParentPos, IsIndex;
    SizeBounds(v.size, v.size);
    var t := TotalBlocks(DataBlocks(v.size));
    forall p | t <= p && HasPlace(p, t)
      ensures At(v, d', p) == 0
    {
      assert At(v, d, p) == 0;
      if HasParent(SlotAt(p)) {
        ParentFirst(v, d, p);
        ParentFirst(v, d', p);
        AtFrame(v, d, d', t, ParentPos(SlotAt(p)));
      } else {
        NoParent(v, d, d', p);
      }
    }
  }

  lemma NoParent(v: InodeView, d: seq<Block>, d': seq<Block>, p: nat)
    requires !HasParent(SlotAt(p))
    ensures At(v, d', p) == At(v, d, p)
  {
  }

  /** What the step from d to d' leaves alone when only inode `id` is at work. */
  ghost predicate OthersKept(d: seq<Block>, d': seq<Block>, g: Geometry, own: Owners, own': Owners, id: nat)
    requires InodesOk(d, g)
  {
    && |d'| == |d|
    && (forall i: nat :: Used(d', g, i) <==> Used(d, g, i))
    && (forall i: nat :: i != id && Used(d, g, i) ==> InodeAt(d', g, i) == InodeAt(d, g, i))
    && (forall b :: b in own && own[b].0 != id ==> b in own' && own'[b] == own[b] && (b < |d| ==> d'[b] == d[b]))
    && (forall b :: b in own' && own'[b].0 != id ==> b in own && own[b] == own'[b])
  }

  /** The new tree of inode id: sound, recorded, and all that own' records for id. */
  ghost predicate TreeCommitted(d': seq<Block>, g: Geometry, own': Owners, id: nat)
    requires g.Fits(d') && id < g.MaxInodes()
  {
    var v := InodeAt(d', g, id);
    && v.size <= MAX_SIZE
    && TailZero(v, d')
    && (forall p :: 0 <= p < |Blocks(v, d')| ==> RecordedAt(d', own', v, id, p))
    && (forall b :: b in own' && own'[b].0 == id ==>
          g.DataStart() <= b < g.DataEnd() && own'[b].1 < |Blocks(v, d')| && Blocks(v, d')[own'[b].1] == b)
  }

  /** Another file's inode, tree and contents are those of before. */
  lemma OtherFile(d: seq<Block>, d': seq<Block>, g: Geometry, own: Owners, own': Owners, id: nat, i: nat)
    requires FsInv(d, g, own) && OthersKept(d, d', g, own, own', id)
    requires i != id && Used(d, g, i)
    ensures InodeAt(d', g, i) == InodeAt(d, g, i)
    ensures var v := InodeAt(d, g, i);
      Blocks(v, d') == Blocks(v, d) && Contents(v, d') == Contents(v, d) && TailZero(v, d')
    ensures forall p :: 0 <= p < |Blocks(InodeAt(d, g, i), d)| ==> RecordedAt(d', own', InodeAt(d, g, i), i, p)
  {
    hide Blocks, Used, InodeAt, ByteAt, Contents, Sound, SpareZero;
    var v := InodeAt(d, g, i);
    InvSound(d, g, own, i);
    forall p | 0 <= p < |Blocks(v, d)|
      ensures d'[Blocks(v, d)[p]] == d[Blocks(v, d)[p]]
      ensures var b: nat := Blocks(v, d)[p]; b in own' && own'[b] == (i, p)
    {
      assert RecordedAt(d, own, v, i, p);
    }
    FileFrame(v, d, d');
  }

  /** A step that works on one inode and commits its new tree keeps the invariant. */
  lemma Commit(d: seq<Block>, d': seq<Block>, g: Geometry, own: Owners, own': Owners, id: nat)
    requires FsInv(d, g, own) && Used(d, g, id)
    requires OthersKept(d, d', g, own, own', id) && TreeCommitted(d', g, own', id)
    requires BitsMatch(d', g, own') && FreeZero(d', g, own')
    ensures FsInv(d', g, own')
    ensures forall i: nat :: i != id && Used(d, g, i) ==>
      Contents(InodeAt(d', g, i), d') == Contents(InodeAt(d, g, i), d)
  {
    hide Blocks, Used, InodeAt, BitsMatch, FreeZero, Contents, TailZero, TreeCommitted, RecordedAt;
    forall i: nat | i != id && Used(d, g, i)
      ensures InodeAt(d', g, i) == InodeAt(d, g, i)
      ensures Blocks(InodeAt(d', g, i), d') == Blocks(InodeAt(d, g, i), d)
      ensures Contents(InodeAt(d', g, i), d') == Contents(InodeAt(d, g, i), d)
      ensures TailZero(InodeAt(d', g, i), d')
      ensures forall p :: 0 <= p < |Blocks(InodeAt(d', g, i), d')| ==> RecordedAt(d', own', InodeAt(d', g, i), i, p)
    {
      OtherFile(d, d', g, own, own', id, i);
    }
    CommittedSize(d', g, own', id);
    assert InodesOk(d', g);
    forall b | b in own'
      ensures g.DataStart() <= b < g.DataEnd() && PlacedAt(d', g, own'[b].0, own'[b].1, b)
    {
      if own'[b].0 == id {
        CommittedPlace(d', g, own', id, b);
        assert Used(d', g, id) && PlacedAt(d', g, id, own'[b].1, b);
      } else {
        var (i, p) := own[b];
        assert PlacedAt(d, g, i, p, b);
        assert Used(d', g, i) && Blocks(InodeAt(d', g, i), d') == Blocks(InodeAt(d, g, i), d);
        assert PlacedAt(d', g, i, p, b);
      }
    }
  }

  lemma CommittedSize(d': seq<Block>, g: Geometry, own': Owners, id: nat)
    requires g.Fits(d') && id < g.MaxInodes() && TreeCommitted(d', g, own', id)
    ensures InodeAt(d', g, id).size <= MAX_SIZE && TailZero(InodeAt(d', g, id), d')
    ensures forall p :: 0 <= p < |Blocks(InodeAt(d', g, id), d')| ==> RecordedAt(d', own', InodeAt(d', g, id), id, p)
  {
  }

  lemma CommittedPlace(d': seq<Block>, g: Geometry, own': Owners, id: nat, b: nat)
    requires g.Fits(d') && id < g.MaxInodes() && TreeCommitted(d', g, own', id)
    requires b in own' && own'[b].0 == id
    ensures var t := Blocks(InodeAt(d', g, id), d');
      g.DataStart() <= b < g.DataEnd() && own'[b].1 < |t| && t[own'[b].1] == b
  {
  }

  /** A data bit is set exactly when its block occurs in some tree, it then occurs at one
      place of one tree only, and a block whose bit is clear is all zeros. */
  lemma BlockOwnership(d: seq<Block>, g: Geometry, own: Owners, b: nat)
    requires FsInv(d, g, own) && g.DataStart() <= b < g.DataEnd()
    ensures g.DataBitmap().IsSet(d, b - g.DataStart()) <==> exists id: nat, p: nat :: PlacedAt(d, g, id, p, b)
    ensures forall id: nat, p: nat, id': nat, p': nat ::
      PlacedAt(d, g, id, p, b) && PlacedAt(d, g, id', p', b) ==> id == id' && p == p'
    ensures !g.DataBitmap().IsSet(d, b - g.DataStart()) ==> d[b] == ZeroBlock()
  {
    hide Blocks, Used, InodeAt, Bitmap.IsSet, TailZero, ZeroBlock;
    forall id: nat, p: nat | PlacedAt(d, g, id, p, b)
      ensures b in own && own[b] == (id, p)
    {
      assert RecordedAt(d, own, InodeAt(d, g, id), id, p);
    }
    if b in own {
      assert PlacedAt(d, g, own[b].0, own[b].1, b);
    }
    assert b == g.DataStart() + (b - g.DataStart());
  }
}
