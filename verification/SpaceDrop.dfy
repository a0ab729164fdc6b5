/** Giving an address space back: `recycle_data_pages` at exit and the drop of the page
    table when the process is reaped (os/src/mm/memory_set.rs:263-265,
    os/src/mm/frame_allocator.rs:32-36). */
module SpaceDrop {
  import opened Words
  import opened Sets
  import opened Frames
  import opened PageTables
  import opened MemorySets
  import opened AreaLists

  /** The pages still owned are those of the areas from number i on. */
  ghost predicate Left(areas: seq<MapArea>, i: nat, owned: map<nat, nat>)
    requires i <= |areas|
  {
    && (forall k, v :: i <= k < |areas| && v in areas[k].data ==> v in owned && owned[v] == areas[k].data[v])
    && (forall v :: v in owned ==> InSomeArea(areas[i..], v))
  }

  lemma AllLeft(m: map<nat, u64>, areas: seq<MapArea>, owned: map<nat, nat>, tramp: u64)
    requires AreasOk(m, areas, owned, tramp)
    ensures Left(areas, 0, owned) && Apart(areas)
    ensures forall k :: 0 <= k < |areas| ==> areas[k].Fit() && forall v :: v in areas[k].data ==> areas[k].start <= v < areas[k].end
  {
    assert areas[0..] == areas;
    forall k | 0 <= k < |areas|
      ensures areas[k].Fit() && forall v :: v in areas[k].data ==> areas[k].start <= v < areas[k].end && v in owned && owned[v] == areas[k].data[v]
    {
      assert AreaOk(m, areas[k], owned);
      forall v | v in areas[k].data
        ensures v in owned && owned[v] == areas[k].data[v]
      {
        PageFacts(m, areas[k], owned, v);
      }
    }
  }

  lemma FreedArea(areas: seq<MapArea>, i: nat, owned: map<nat, nat>, alloc: set<nat>, tables: set<nat>)
    requires i < |areas| && Left(areas, i, owned) && Apart(areas) && FramesOk(alloc, tables, owned)
    ensures var a := areas[i]; var rest := owned - a.data.Keys;
      && Left(areas, i + 1, rest) && FramesOk(alloc - a.data.Values, tables, rest)
      && rest.Values == owned.Values - a.data.Values && a.data.Values <= owned.Values
  {
    var a := areas[i];
    var rest := owned - a.data.Keys;
    forall k, v | i + 1 <= k < |areas| && v in areas[k].data
      ensures v in rest && rest[v] == areas[k].data[v]
    {
      assert a.data.Keys !! areas[k].data.Keys;
    }
    forall v | v in rest
      ensures InSomeArea(areas[i + 1..], v)
    {
      var k :| 0 <= k < |areas[i..]| && v in areas[i..][k].data;
      assert areas[i..][k] == areas[i + k] && k != 0;
      assert areas[i + 1..][k - 1] == areas[i + k];
    }
    FreedFrames(a, owned, alloc, tables);
  }

  lemma FreedFrames(a: MapArea, owned: map<nat, nat>, alloc: set<nat>, tables: set<nat>)
    requires FramesOk(alloc, tables, owned) && forall v :: v in a.data ==> v in owned && owned[v] == a.data[v]
    ensures var rest := owned - a.data.Keys;
      FramesOk(alloc - a.data.Values, tables, rest) && rest.Values == owned.Values - a.data.Values && a.data.Values <= owned.Values
  {
    var rest := owned - a.data.Keys;
    forall v | v in owned
      ensures owned[v] in owned.Values && (v in a.data <==> owned[v] in a.data.Values)
      ensures v in rest ==> rest[v] == owned[v] && owned[v] in rest.Values
    {
    }
  }

  /** A page table whose frames are still in use is as it was. */
  twostate lemma TableStays(pt: PageTable)
    requires old(pt.Valid()) && unchanged(pt) && pt.mem.Valid() && pt.mem.pages == old(pt.mem.pages)
    requires Tables(pt.tree) <= pt.mem.Allocated()
    ensures pt.Valid() && pt.Mapping() == old(pt.Mapping())
  {
    hide MappingOf, TreeInv, FrameAllocator.Allocated, FrameAllocator.Valid, NoRepeats, Elements;
  }

  /** `recycle_data_pages`: every data frame goes back; the page table stays, and its
      entries with it. */
  method RecycleDataPages(ms: MemorySet)
    requires ms.Valid()
    modifies ms`areas, ms`owned, ms.mem`recycled
    ensures ms.areas == [] && ms.owned == map[] && ms.mem.Valid()
    ensures ms.mem.Allocated() == old(ms.mem.Allocated()) - old(ms.owned).Values
    ensures ms.mem.FreeCount() == old(ms.mem.FreeCount()) + |old(ms.owned)|
    ensures ms.mem.end == old(ms.mem.end) && ms.mem.pages == old(ms.mem.pages)
    ensures old(ms.owned).Values !! Tables(ms.pageTable.tree) && ms.pageTable.Valid() && ms.Mapping() == old(ms.Mapping())
  {
    hide AreasOk, FramesOk, FrameAllocator.Allocated, FrameAllocator.Valid, FrameAllocator.FreeCount, Tables,
      PageTable.Valid, MappingOf, Freed;
    TableOwned(ms.pageTable);
    ghost var alloc0, owned0, tables := ms.mem.Allocated(), ms.owned, Tables(ms.pageTable.tree);
    DropAreas(ms);
    ms.areas := [];
    FreedAll(alloc0, tables, owned0, ms.mem.Allocated(), ms.owned);
    GivenBack(ms.mem);
    TableStays(ms.pageTable);
  }

  /** The areas are dropped one after the other, each with its frames. */
  method DropAreas(ms: MemorySet)
    requires ms.Valid()
    modifies ms`owned, ms.mem`recycled
    ensures ms.owned == map[] && ms.mem.Valid() && ms.mem.end == old(ms.mem.end)
    ensures Freed(old(ms.mem.Allocated()), old(ms.owned).Values, ms.mem.Allocated(), ms.owned.Values)
  {
    hide AreasOk, FramesOk, FrameAllocator.Allocated, FrameAllocator.Valid, FrameAllocator.FreeCount, Tables,
      PageTable.Valid, MappingOf, Left, Apart, Freed;
    TableOwned(ms.pageTable);
    var areas := ms.areas;
    ghost var alloc0, owned0, tables := ms.mem.Allocated(), ms.owned, Tables(ms.pageTable.tree);
    assert areas + [] == areas;
    AllLeft(ms.Mapping(), areas, owned0, ms.tramp);
    OwnedAllocated(alloc0, tables, owned0);
    FreedNone(alloc0, owned0.Values);
    var i := 0;
    while i < |areas|
      invariant i <= |areas| && ms.mem.Valid() && Left(areas, i, ms.owned) && ms.mem.end == old(ms.mem.end)
      invariant FramesOk(ms.mem.Allocated(), tables, ms.owned)
      invariant Freed(alloc0, owned0.Values, ms.mem.Allocated(), ms.owned.Values)
    {
      var a := areas[i];
      ghost var alloc1 := ms.mem.Allocated();
      AreaLeft(areas, i, ms.owned);
      FreedArea(areas, i, ms.owned, ms.mem.Allocated(), tables);
      ms.FreeFrames(a, a.end, tables);
      FreedMore(alloc0, owned0.Values, alloc1, ms.owned.Values, a.data.Values);
      ms.owned := ms.owned - a.data.Keys;
      i := i + 1;
    }
    NoneLeft(areas, ms.owned);
  }

  /** Of these frames only `own` are still in use. */
  ghost predicate Freed(alloc0: set<nat>, own0: set<nat>, alloc: set<nat>, own: set<nat>)
  {
    own <= own0 <= alloc0 && alloc == alloc0 - (own0 - own)
  }

  lemma FreedNone(alloc: set<nat>, own: set<nat>)
    requires own <= alloc
    ensures Freed(alloc, own, alloc, own)
  {
  }

  lemma FreedMore(alloc0: set<nat>, own0: set<nat>, alloc: set<nat>, own: set<nat>, part: set<nat>)
    requires Freed(alloc0, own0, alloc, own) && part <= own
    ensures Freed(alloc0, own0, alloc - part, own - part)
  {
  }

  lemma FreedAll(alloc0: set<nat>, tables: set<nat>, owned0: map<nat, nat>, alloc: set<nat>, owned: map<nat, nat>)
    requires FramesOk(alloc0, tables, owned0) && Freed(alloc0, owned0.Values, alloc, owned.Values) && owned == map[]
    ensures alloc == alloc0 - owned0.Values && |alloc| == |alloc0| - |owned0|
    ensures tables <= alloc && owned0.Values !! tables
  {
    AsManyValues(owned0);
    LessSize(alloc0, owned0.Values);
    assert alloc == alloc0 - owned0.Values;
  }

  lemma AreaLeft(areas: seq<MapArea>, i: nat, owned: map<nat, nat>)
    requires i < |areas| && Left(areas, i, owned)
    ensures forall v :: v in areas[i].data ==> v in owned && owned[v] == areas[i].data[v]
  {
  }

  lemma NoneLeft(areas: seq<MapArea>, owned: map<nat, nat>)
    requires Left(areas, |areas|, owned)
    ensures owned == map[]
  {
    assert areas[|areas|..] == [];
    assert forall v :: v in owned ==> InSomeArea([], v);
  }

  /** The drop of `PageTable::frames`. */
  method DropTables(pt: PageTable)
    requires pt.Valid()
    modifies pt.mem`recycled
    ensures pt.mem.Valid() && pt.mem.Allocated() == old(pt.mem.Allocated()) - Tables(pt.tree)
    ensures pt.mem.FreeCount() == old(pt.mem.FreeCount()) + |pt.tree.Keys|
  {
    hide FrameAllocator.Allocated, FrameAllocator.Valid, FrameAllocator.FreeCount, TreeInv, MappingOf;
    ghost var alloc0 := pt.mem.Allocated();
    var i := 0;
    while i < |pt.frames|
      invariant i <= |pt.frames| && pt.mem.Valid() && pt.mem.end == old(pt.mem.end)
      invariant pt.mem.Allocated() == alloc0 - Elements(pt.frames[..i])
    {
      assert pt.frames[i] in Elements(pt.frames);
      pt.mem.Dealloc(pt.frames[i]);
      assert pt.frames[..i + 1] == pt.frames[..i] + [pt.frames[i]];
      i := i + 1;
    }
    assert pt.frames[..i] == pt.frames;
    GivenBack(pt.mem);
    TreeSize(pt.mem.pages, pt.root, pt.tree);
    LessSize(alloc0, Tables(pt.tree));
  }

  lemma TreeSize(pages: seq<Page>, root: nat, tree: Tree)
    requires TreeInv(pages, root, tree)
    ensures |Tables(tree)| == |tree.Keys|
  {
    hide Linked;
    AsManyValues(tree);
  }

  /** Exit and reap together: all the frames of a space are free again. */
  method DropSpace(ms: MemorySet)
    requires ms.Valid()
    modifies ms`areas, ms`owned, ms.mem`recycled
    ensures ms.mem.Valid() && ms.mem.Allocated() == old(ms.mem.Allocated()) - old(ms.Footprint())
    ensures ms.mem.FreeCount() == old(ms.mem.FreeCount()) + |old(ms.owned)| + |ms.pageTable.tree.Keys|
    ensures ms.mem.end == old(ms.mem.end) && ms.mem.pages == old(ms.mem.pages)
  {
    hide FrameAllocator.Allocated, FrameAllocator.Valid, FramesOk, AreasOk, TreeInv;
    OwnedAllocated(ms.mem.Allocated(), Tables(ms.pageTable.tree), ms.owned);
    RecycleDataPages(ms);
    DropTables(ms.pageTable);
  }
}
