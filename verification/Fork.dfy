/** Copying an address space for fork (os/src/mm/memory_set.rs:174-190). */
module SpaceCopy {
  import opened Words
  import opened Sets
  import opened Frames
  import opened PageTables
  import opened MemorySets
  import opened AreaLists
  import opened UserMappings
  import opened Mmap

  /** An area without its frames. */
  datatype Shape = Shape(lo: nat, hi: nat, pages: set<nat>)

  function ShapeOf(a: MapArea): Shape { Shape(a.start, a.end, a.data.Keys) }

  function ShapesOf(areas: seq<MapArea>): (r: seq<Shape>)
    ensures |r| == |areas| && forall i :: 0 <= i < |areas| ==> r[i] == ShapeOf(areas[i])
  {
    if areas == [] then [] else ShapesOf(areas[..|areas| - 1]) + [ShapeOf(areas[|areas| - 1])]
  }

  /** Every page of every area's range is there (a partial munmap breaks this). */
  ghost predicate Whole(shapes: seq<Shape>)
  {
    forall i, v :: 0 <= i < |shapes| && shapes[i].lo <= v < shapes[i].hi ==> v in shapes[i].pages
  }

  ghost function Count(shapes: seq<Shape>): int
  {
    if shapes == [] then 0 else Count(shapes[..|shapes| - 1]) + shapes[|shapes| - 1].hi - shapes[|shapes| - 1].lo
  }

  /** The tables that the pages of these areas need below the root. */
  ghost function ShapePaths(shapes: seq<Shape>): set<seq<nat>>
  {
    if shapes == [] then {} else ShapePaths(shapes[..|shapes| - 1]) + Paths(shapes[|shapes| - 1].lo, shapes[|shapes| - 1].hi)
  }

  /** The frames a copy of these areas takes: its pages, and its tables with the root and
      those of the trampoline. */
  ghost function CopyNeed(shapes: seq<Shape>): int
  {
    Count(shapes) + |BarePaths() + ShapePaths(shapes)|
  }

  /** Different objects over the same memory with no frame in common. */
  ghost predicate Separate(s: MemorySet, t: MemorySet)
    reads s, s.pageTable, t, t.pageTable
  {
    s != t && s.pageTable != t.pageTable && s.mem == t.mem && s.Footprint() !! t.Footprint()
  }

  /** A space whose frames keep their bytes and stay allocated is as it was. */
  twostate lemma Undisturbed(ms: MemorySet)
    requires old(ms.Valid()) && ms.mem.Valid() && unchanged(ms) && unchanged(ms.pageTable)
    requires |ms.mem.pages| == |old(ms.mem.pages)| && ms.Footprint() <= ms.mem.Allocated()
    requires forall p :: p in ms.Footprint() && p < |ms.mem.pages| ==> ms.mem.pages[p] == old(ms.mem.pages)[p]
    ensures ms.Valid() && ms.Mapping() == old(ms.Mapping()) && View(ms) == old(View(ms))
  {
    hide MappingOf, AreasOk, TreeInv, NoRepeats, Elements, FrameAllocator.Allocated, FrameAllocator.Valid, PteFlags;
    SameTables(old(ms.mem.pages), ms.mem.pages, ms.pageTable.root, ms.pageTable.tree);
    SameView(old(ms.mem.pages), ms.mem.pages, ms.Mapping(), ms.owned);
  }

  lemma SameView(pages: seq<Page>, pages': seq<Page>, m: map<nat, u64>, owned: map<nat, nat>)
    requires |pages'| == |pages| && forall p :: p in owned.Values && p < |pages| ==> pages'[p] == pages[p]
    ensures ViewOf(pages', m, owned) == ViewOf(pages, m, owned)
  {
    hide PteFlags;
    forall v | v in owned && owned[v] < |pages|
      ensures pages'[owned[v]] == pages[owned[v]]
    {
      assert owned[v] in owned.Values;
    }
  }

  /** The frames of pages lo up to hi of one space hold the same bytes as another's. */
  ghost predicate SameBytes(pages: seq<Page>, owned: map<nat, nat>, other: map<nat, nat>, lo: nat, hi: nat)
  {
    forall v :: lo <= v < hi ==> v in owned && v in other && owned[v] < |pages| && other[v] < |pages| && pages[other[v]] == pages[owned[v]]
  }

  lemma FootprintAllocated(ms: MemorySet)
    requires ms.Valid()
    ensures ms.mem.Valid() && ms.Footprint() <= ms.mem.Allocated()
  {
  }

  ghost function Stored(view: map<nat, UserPage>, v: nat, page: Page): map<nat, UserPage>
  {
    if v in view then view[v := view[v].(bytes := page)] else view
  }

  /** A store into one page of a space. */
  method StorePage(ms: MemorySet, ghost v: nat, ppn: nat, page: Page)
    requires ms.Valid() && v in ms.owned && ppn == ms.owned[v]
    modifies ms.mem`pages
    ensures ms.Valid() && ms.Mapping() == old(ms.Mapping())
    ensures ms.mem.Allocated() == old(ms.mem.Allocated()) && ms.mem.FreeCount() == old(ms.mem.FreeCount())
    ensures ppn < |old(ms.mem.pages)| && ms.mem.pages == old(ms.mem.pages)[ppn := page]
    ensures v in View(ms) && View(ms) == Stored(old(View(ms)), v, page)
  {
    hide MappingOf, AreasOk, FramesOk, TreeInv, NoRepeats, Elements, FrameAllocator.Allocated,
      FrameAllocator.FreeCount, FrameAllocator.Valid, ViewOf, PtePpn;
    OwnedFrame(ms, v);
    ghost var pages0 := ms.mem.pages;
    ms.mem.Store(ppn, page);
    TreeElsewhere(pages0, ms.mem.pages, ms.pageTable.root, ms.pageTable.tree, ppn);
    StoredView(pages0, ms.Mapping(), ms.owned, ms.mem.Allocated(), Tables(ms.pageTable.tree), v, page);
  }

  lemma StoredView(pages: seq<Page>, m: map<nat, u64>, owned: map<nat, nat>, alloc: set<nat>, tables: set<nat>,
      v: nat, page: Page)
    requires FramesOk(alloc, tables, owned) && v in owned && v in m && owned[v] < |pages|
    ensures v in ViewOf(pages[owned[v] := page], m, owned)
    ensures ViewOf(pages[owned[v] := page], m, owned) == Stored(ViewOf(pages, m, owned), v, page)
  {
    hide PteFlags;
  }

  lemma NotTrampoline(parent: MemorySet, child: MemorySet, v: nat)
    requires parent.Valid() && child.Valid() && v in child.owned
    ensures v in parent.Mapping() <==> v in parent.owned
  {
    hide MappingOf, AreasOk;
    PagesInOwned(parent.Mapping(), parent.areas + [], parent.owned, parent.tramp, v);
    OwnedFrame(child, v);
  }

  lemma BytesStep(pages: seq<Page>, alloc: set<nat>, tables: set<nat>, from: map<nat, nat>, to: map<nat, nat>,
      lo: nat, v: nat)
    requires FramesOk(alloc, tables, to) && from.Values !! to.Values && lo <= v
    requires v in from && v in to && from[v] < |pages| && to[v] < |pages| && SameBytes(pages, from, to, lo, v)
    ensures SameBytes(pages[to[v] := pages[from[v]]], from, to, lo, v + 1)
    ensures FramesIn(to, lo, v + 1) == FramesIn(to, lo, v) + {to[v]}
  {
    assert to[v] in to.Values;
    forall w | lo <= w <= v
      ensures w in from && w in to && from[w] != to[v] && from[w] < |pages| && to[w] < |pages|
      ensures w < v ==> to[w] != to[v]
    {
      assert w < v ==> w in from && w in to;
      assert from[w] in from.Values;
    }
  }

  /** One turn of the inner loop. */
  method CopyPage(parent: MemorySet, child: MemorySet, v: nat) returns (ok: bool)
    requires parent.Valid() && child.Valid() && Separate(parent, child) && v in child.owned
    modifies child.mem`pages
    ensures parent.Valid() && child.Valid() && Separate(parent, child) && child.Mapping() == old(child.Mapping())
    ensures child.mem.Allocated() == old(child.mem.Allocated()) && child.mem.FreeCount() == old(child.mem.FreeCount())
    ensures ok <==> v in parent.owned
    ensures !ok ==> child.mem.pages == old(child.mem.pages)
    ensures ok ==> parent.owned[v] < |old(child.mem.pages)| && child.owned[v] < |old(child.mem.pages)|
    ensures ok ==> child.mem.pages == old(child.mem.pages)[child.owned[v] := old(child.mem.pages)[parent.owned[v]]]
  {
    hide MappingOf, AreasOk, TreeInv, NoRepeats, Elements, FrameAllocator.Allocated, FrameAllocator.FreeCount,
      FrameAllocator.Valid, PageTable.Valid, PtePpn, FramesOk, View, Tables;
    OwnedFrame(child, v);
    NotTrampoline(parent, child, v);
    FootprintAllocated(parent);
    var src := parent.pageTable.Translate(v);
    if src == None {
      return false;
    }
    OwnedFrame(parent, v);
    var dst := child.pageTable.Translate(v);
    label Copy:
    StorePage(child, v, PtePpn(dst.value), child.mem.pages[PtePpn(src.value)]);
    FootprintAllocated(child);
    Undisturbed@Copy(parent);
    ok := true;
  }

  /** The inner loop of `from_existed_userspace`; it panics at a page the parent lacks. */
  method CopyPages(parent: MemorySet, child: MemorySet, lo: nat, hi: nat) returns (ok: bool)
    requires parent.Valid() && child.Valid() && Separate(parent, child) && lo <= hi
    requires forall v :: lo <= v < hi ==> v in child.owned
    modifies child.mem`pages
    ensures parent.Valid() && child.Valid() && Separate(parent, child)
    ensures child.Mapping() == old(child.Mapping()) && |child.mem.pages| == |old(child.mem.pages)|
    ensures child.mem.Allocated() == old(child.mem.Allocated()) && child.mem.FreeCount() == old(child.mem.FreeCount())
    ensures forall p :: 0 <= p < |child.mem.pages| && p !in FramesIn(child.owned, lo, hi) ==> child.mem.pages[p] == old(child.mem.pages)[p]
    ensures ok <==> forall v :: lo <= v < hi ==> v in parent.owned
    ensures ok ==> SameBytes(child.mem.pages, parent.owned, child.owned, lo, hi)
  {
    hide MappingOf, AreasOk, TreeInv, NoRepeats, Elements, FrameAllocator.Allocated, FrameAllocator.FreeCount,
      FrameAllocator.Valid, PageTable.Valid, PtePpn, FramesOk;
    var mem := child.mem;
    ghost var pages0 := mem.pages;
    var v := lo;
    while v < hi
      invariant lo <= v <= hi && parent.Valid() && child.Valid()
      invariant child.Mapping() == old(child.Mapping()) && |mem.pages| == |pages0|
      invariant mem.Allocated() == old(mem.Allocated()) && mem.FreeCount() == old(mem.FreeCount())
      invariant forall p :: 0 <= p < |mem.pages| && p !in FramesIn(child.owned, lo, v) ==> mem.pages[p] == pages0[p]
      invariant forall w :: lo <= w < v ==> w in parent.owned
      invariant SameBytes(mem.pages, parent.owned, child.owned, lo, v)
    {
      ghost var pages1 := mem.pages;
      OwnedFrame(child, v);
      var copied := CopyPage(parent, child, v);
      if !copied {
        return false;
      }
      OwnedFrame(parent, v);
      BytesStep(pages1, mem.Allocated(), Tables(child.pageTable.tree), parent.owned, child.owned, lo, v);
      v := v + 1;
    }
    ok := true;
  }

  /** What the copy has, the original has with the same bytes. */
  ghost predicate CopyOf(copy: map<nat, UserPage>, original: map<nat, UserPage>)
  {
    forall v :: v in copy ==> v in original && copy[v].bytes == original[v].bytes
  }

  /** Outside [lo, hi) what the copy has, the original has with the same bytes. */
  ghost predicate CopyBut(copy: map<nat, UserPage>, original: map<nat, UserPage>, lo: nat, hi: nat)
  {
    forall v :: v in copy && !(lo <= v < hi) ==> v in original && copy[v].bytes == original[v].bytes
  }

  lemma CopiedView(pages: seq<Page>, pages': seq<Page>, mp: map<nat, u64>, from: map<nat, nat>, mc: map<nat, u64>,
      to: map<nat, nat>,
      alloc: set<nat>, tables: set<nat>, lo: nat, hi: nat)
    requires FramesOk(alloc, tables, to) && |pages'| == |pages|
    requires forall v :: v in from ==> v in mp && from[v] < |pages|
    requires from.Values !! to.Values
    requires SameBytes(pages', from, to, lo, hi)
    requires forall p :: 0 <= p < |pages| && p !in FramesIn(to, lo, hi) ==> pages'[p] == pages[p]
    requires CopyBut(ViewOf(pages, mc, to), ViewOf(pages, mp, from), lo, hi)
    ensures CopyOf(ViewOf(pages', mc, to), ViewOf(pages, mp, from))
  {
    hide PteFlags;
    forall v | v in ViewOf(pages', mc, to)
      ensures v in ViewOf(pages, mp, from) && ViewOf(pages', mc, to)[v].bytes == ViewOf(pages, mp, from)[v].bytes
    {
      if lo <= v < hi {
        NotCopiedOver(to, from, lo, hi, v);
      } else {
        assert to[v] !in FramesIn(to, lo, hi);
      }
    }
  }

  lemma NotCopiedOver(to: map<nat, nat>, from: map<nat, nat>, lo: nat, hi: nat, v: nat)
    requires from.Values !! to.Values && v in from
    ensures from[v] !in FramesIn(to, lo, hi)
  {
    assert from[v] in from.Values;
    assert FramesIn(to, lo, hi) <= to.Values;
  }

  lemma CopyFrames(to: map<nat, nat>, from: map<nat, nat>, lo: nat, hi: nat)
    ensures FramesIn(to, lo, hi) <= to.Values
  {
  }

  /** Filling frames that were free does not disturb those that were in use. */
  lemma FilledStep(pages: seq<Page>, alloc: set<nat>, tables: set<nat>, own: set<nat>, pages1: seq<Page>,
      pages': seq<Page>,
      alloc': set<nat>, tables': set<nat>, own': set<nat>, to: map<nat, nat>, lo: nat, hi: nat)
    requires OwnStep(pages, alloc, tables, own, pages1, alloc', tables', own') && |pages'| == |pages1|
    requires forall v :: lo <= v < hi ==> v in to && to[v] !in alloc
    requires forall p :: 0 <= p < |pages1| && p !in FramesIn(to, lo, hi) ==> pages'[p] == pages1[p]
    ensures OwnStep(pages, alloc, tables, own, pages', alloc', tables', own')
  {
  }

  lemma ZeroesOutside(view: map<nat, UserPage>, original: map<nat, UserPage>, lo: nat, hi: nat, flags: nat)
    requires CopyOf(view, original) && lo <= hi
    ensures CopyBut(view + ZeroPages(lo, hi, flags), original, lo, hi)
  {
  }

  /** `push` of an area of the same shape, its pages still zero. */
  method PushArea(parent: MemorySet, child: MemorySet, a: MapArea) returns (ok: bool)
    requires parent.Valid() && child.Valid() && Separate(parent, child) && a.Fit()
    requires CopyOf(View(child), View(parent))
    modifies child, child.pageTable, child.mem
    ensures ok <==> (&& (forall v :: a.start <= v < a.end ==> v !in old(child.Mapping()))
                     && old(child.mem.FreeCount()) >= Need(old(child.pageTable.tree).Keys, a.start, a.end))
    ensures ok ==> Added(child, a.start, a.end, a.perm) && CopyBut(View(child), View(parent), a.start, a.end)
    ensures ok ==> parent.Valid() && Separate(parent, child) && View(parent) == old(View(parent))
  {
    hide MappingOf, AreasOk, FramesOk, FrameAllocator.Allocated, FrameAllocator.FreeCount, FrameAllocator.Valid,
      PageTable.Valid, ViewOf, NewArea, Tables, ZeroPages, WithV, CopyOf, Need, Paths, EntryIs, CutShort, Exhausts;
    var busy := SomeMapped(child, a.start, a.end);
    if busy {
      return false;
    }
    FootprintAllocated(parent);
    FootprintAllocated(child);
    label Insert:
    var r, stray := InsertZeroed(child, a.start, a.end, a.perm);
    if r != Return(0) {
      return false;
    }
    FootprintAllocated(child);
    Undisturbed@Insert(parent);
    ZeroesOutside(old(View(child)), View(parent), a.start, a.end, WithV(a.perm));
    ok := true;
  }

  /** The pages of an area just pushed get their bytes. */
  method FillArea(parent: MemorySet, child: MemorySet, lo: nat, hi: nat) returns (ok: bool)
    requires parent.Valid() && child.Valid() && Separate(parent, child) && lo <= hi
    requires CopyBut(View(child), View(parent), lo, hi) && forall v :: lo <= v < hi ==> v in child.owned
    modifies child.mem`pages
    ensures parent.Valid() && child.Valid() && Separate(parent, child) && View(parent) == old(View(parent))
    ensures child.mem.Allocated() == old(child.mem.Allocated()) && child.mem.FreeCount() == old(child.mem.FreeCount())
    ensures |child.mem.pages| == |old(child.mem.pages)|
    ensures forall p :: 0 <= p < |child.mem.pages| && p !in FramesIn(child.owned, lo, hi) ==> child.mem.pages[p] == old(child.mem.pages)[p]
    ensures ok <==> forall v :: lo <= v < hi ==> v in parent.owned
    ensures ok ==> CopyOf(View(child), View(parent))
  {
    hide MappingOf, AreasOk, FramesOk, FrameAllocator.Allocated, FrameAllocator.FreeCount, FrameAllocator.Valid,
      PageTable.Valid, ViewOf, Tables, CopyOf, FramesIn;
    ghost var pages1 := child.mem.pages;
    ok := CopyPages(parent, child, lo, hi);
    CopyFrames(child.owned, parent.owned, lo, hi);
    FootprintAllocated(child);
    FootprintAllocated(parent);
    Undisturbed(parent);
    if ok {
      BelowMemory(parent);
      CopiedView(pages1, child.mem.pages, parent.Mapping(), parent.owned, child.Mapping(), child.owned,
        child.mem.Allocated(), Tables(child.pageTable.tree), lo, hi);
    }
  }

  /** One turn of the outer loop: `push` an area of the same shape, copy its pages. */
  method CopyArea(parent: MemorySet, child: MemorySet, a: MapArea) returns (ok: bool)
    requires parent.Valid() && child.Valid() && Separate(parent, child) && a.Fit()
    requires CopyOf(View(child), View(parent))
    modifies child, child.pageTable, child.mem
    ensures ok ==> parent.Valid() && child.Valid() && Separate(parent, child) && child.OnlyOwn()
    ensures ok ==> View(parent) == old(View(parent)) && CopyOf(View(child), View(parent))
    ensures ok ==> |child.areas| > 0 && NewArea(old(child.areas), child.areas, child.areas[|child.areas| - 1], a.start, a.end, a.perm)
    ensures ok <==> (&& (forall v :: a.start <= v < a.end ==> v in parent.owned && v !in old(child.Mapping()))
                     && old(child.mem.FreeCount()) >= Need(old(child.pageTable.tree).Keys, a.start, a.end))
    ensures ok ==> child.pageTable.tree.Keys == old(child.pageTable.tree).Keys + Paths(a.start, a.end)
    ensures ok ==> child.mem.FreeCount() == old(child.mem.FreeCount()) - Need(old(child.pageTable.tree).Keys, a.start, a.end)
  {
    hide MemorySet.Mapping, FrameAllocator.Allocated, FrameAllocator.FreeCount, FrameAllocator.Valid, MemorySet.Valid,
      MemorySet.Footprint, View, NewArea, Tables, CopyOf, CopyBut, FramesIn, Need, Paths, EntryIs, OwnStep, ZeroPages;
    ghost var pages0, alloc0, tables0, own0 := child.mem.pages, child.mem.Allocated(), Tables(child.pageTable.tree), child.owned.Values;
    ok := PushArea(parent, child, a);
    if ok {
      ghost var pages1 := child.mem.pages;
      ok := FillArea(parent, child, a.start, a.end);
      FilledStep(pages0, alloc0, tables0, own0, pages1, child.mem.pages, child.mem.Allocated(),
        Tables(child.pageTable.tree), child.owned.Values, child.owned, a.start, a.end);
    }
  }

  /** Area b covers the range of a completely, with the same permissions. */
  ghost predicate FullCopy(a: MapArea, b: MapArea)
  {
    a.start == b.start <= a.end == b.end && a.perm == b.perm && b.data.Keys == Interval(b.start, b.end)
  }

  ghost predicate FullCopies(areas: seq<MapArea>, copies: seq<MapArea>)
  {
    |copies| <= |areas| && forall k :: 0 <= k < |copies| ==> FullCopy(areas[k], copies[k])
  }

  lemma CopyNeedNext(shapes: seq<Shape>, i: nat)
    requires i < |shapes| && shapes[i].lo <= shapes[i].hi
    ensures ShapePaths(shapes[..i + 1]) == ShapePaths(shapes[..i]) + Paths(shapes[i].lo, shapes[i].hi)
    ensures CopyNeed(shapes[..i + 1]) == CopyNeed(shapes[..i]) + Need(BarePaths() + ShapePaths(shapes[..i]), shapes[i].lo, shapes[i].hi)
  {
    hide BarePaths, Paths;
    assert shapes[..i + 1][..i] == shapes[..i];
    var known, more := BarePaths() + ShapePaths(shapes[..i]), Paths(shapes[i].lo, shapes[i].hi);
    assert BarePaths() + (ShapePaths(shapes[..i]) + more) == known + more;
    AddInTurn({}, known, more);
  }

  lemma {:induction false} CopyNeedGrows(shapes: seq<Shape>, i: nat)
    requires i <= |shapes| && forall k :: 0 <= k < |shapes| ==> shapes[k].lo <= shapes[k].hi
    ensures |BarePaths()| <= CopyNeed(shapes[..i]) <= CopyNeed(shapes)
    ensures CopyNeed([]) == |BarePaths()|
    decreases |shapes| - i
  {
    hide BarePaths, Paths, CopyNeed, Need;
    NothingToCopy();
    if i < |shapes| {
      CopyNeedGrows(shapes, i + 1);
      CopyNeedNext(shapes, i);
      NeedSome(BarePaths() + ShapePaths(shapes[..i]), shapes[i].lo, shapes[i].hi);
    } else {
      assert shapes[..i] == shapes;
    }
    CopyNeedFrom(shapes[..i]);
  }

  lemma NothingToCopy()
    ensures CopyNeed([]) == |BarePaths()| && BarePaths() + ShapePaths([]) == BarePaths()
  {
    assert BarePaths() + {} == BarePaths();
  }

  lemma CopyNeedFrom(shapes: seq<Shape>)
    requires forall k :: 0 <= k < |shapes| ==> shapes[k].lo <= shapes[k].hi
    ensures |BarePaths()| <= CopyNeed(shapes)
  {
    hide BarePaths;
    CountNat(shapes);
    SubsetSize(BarePaths(), BarePaths() + ShapePaths(shapes));
  }

  lemma PageOfArea(m: map<nat, u64>, areas: seq<MapArea>, owned: map<nat, nat>, tramp: u64, k: nat, v: nat)
    requires AreasOk(m, areas, owned, tramp) && k < |areas| && v in areas[k].data
    ensures v in owned && v in m && areas[k].start <= v < areas[k].end
  {
    assert AreaOk(m, areas[k], owned);
    PageFacts(m, areas[k], owned, v);
  }

  /** Only areas with pages missing could get in each other's way in the copy. */
  lemma {:induction false} NoConflict(mp: map<nat, u64>, areas: seq<MapArea>, owned: map<nat, nat>, tramp: u64,
      mc: map<nat, u64>, copies: seq<MapArea>, ownedCopy: map<nat, nat>, trampCopy: u64, v: nat)
    requires AreasOk(mp, areas, owned, tramp) && AreasOk(mc, copies, ownedCopy, trampCopy)
    requires FullCopies(areas, copies) && |copies| < |areas| && Whole(ShapesOf(areas))
    requires areas[|copies|].start <= v < areas[|copies|].end
    ensures v in owned && v !in mc
  {
    hide AreaOk, Whole, ShapesOf;
    var i := |copies|;
    FullAt(areas, i, v);
    PageOfArea(mp, areas, owned, tramp, i, v);
    forall k | 0 <= k < i
      ensures v !in copies[k].data
    {
      assert FullCopy(areas[k], copies[k]);
      assert areas[k].data.Keys !! areas[i].data.Keys;
      if areas[k].start <= v < areas[k].end {
        FullAt(areas, k, v);
      }
    }
    assert v in ownedCopy ==> InSomeArea(copies, v);
  }

  lemma {:induction false} FullAt(areas: seq<MapArea>, k: nat, v: nat)
    requires Whole(ShapesOf(areas)) && k < |areas| && areas[k].start <= v < areas[k].end
    ensures v in areas[k].data
  {
    assert v in ShapesOf(areas)[k].pages;
  }

  lemma {:induction false} IsWhole(areas: seq<MapArea>)
    requires forall k, v :: 0 <= k < |areas| && areas[k].start <= v < areas[k].end ==> v in areas[k].data
    ensures Whole(ShapesOf(areas))
  {
  }

  lemma ApartOf(m: map<nat, u64>, areas: seq<MapArea>, owned: map<nat, nat>, tramp: u64)
    requires AreasOk(m, areas, owned, tramp)
    ensures Apart(areas)
  {
  }

  lemma OneArea(areas: seq<MapArea>, j: nat, k: nat, v: nat)
    requires Apart(areas) && j < |areas| && k < |areas|
    requires v in areas[j].data && v in areas[k].data
    ensures j == k
  {
  }

  /** A copy that came to an end shows that no page was missing. */
  lemma {:induction false} CopyShowsFull(mp: map<nat, u64>, areas: seq<MapArea>, owned: map<nat, nat>, tramp: u64,
      mc: map<nat, u64>, copies: seq<MapArea>, ownedCopy: map<nat, nat>, trampCopy: u64)
    requires AreasOk(mp, areas, owned, tramp) && AreasOk(mc, copies, ownedCopy, trampCopy)
    requires FullCopies(areas, copies) && |copies| == |areas|
    requires forall v :: v in ownedCopy ==> v in owned
    ensures Whole(ShapesOf(areas))
  {
    hide AreasOk, Apart, Whole, ShapesOf;
    forall k, v | 0 <= k < |areas| && areas[k].start <= v < areas[k].end
      ensures v in areas[k].data
    {
      assert FullCopy(areas[k], copies[k]) && v in copies[k].data;
      PageOfArea(mc, copies, ownedCopy, trampCopy, k, v);
      AreaOf(mp, areas, owned, tramp, v);
      var j :| 0 <= j < |areas| && v in areas[j].data;
      PageOfArea(mp, areas, owned, tramp, j, v);
      assert FullCopy(areas[j], copies[j]) && v in copies[j].data;
      ApartOf(mc, copies, ownedCopy, trampCopy);
      OneArea(copies, j, k, v);
    }
    IsWhole(areas);
  }

  lemma CopyHasAll(mp: map<nat, u64>, areas: seq<MapArea>, owned: map<nat, nat>, tramp: u64,
      mc: map<nat, u64>, copies: seq<MapArea>, ownedCopy: map<nat, nat>, trampCopy: u64, v: nat)
    requires AreasOk(mp, areas, owned, tramp) && AreasOk(mc, copies, ownedCopy, trampCopy)
    requires FullCopies(areas, copies) && |copies| == |areas| && v in owned
    ensures v in ownedCopy
    ensures exists j :: 0 <= j < |areas| && FullCopy(areas[j], copies[j]) && v in areas[j].data && v in copies[j].data
  {
    hide AreaOk, AreasOk;
    AreaOf(mp, areas, owned, tramp, v);
    var j :| 0 <= j < |areas| && v in areas[j].data;
    PageOfArea(mp, areas, owned, tramp, j, v);
    assert FullCopy(areas[j], copies[j]) && v in copies[j].data;
    PageOfArea(mc, copies, ownedCopy, trampCopy, j, v);
  }

  /** Then the flags agree as well. */
  lemma CopyHasFlags(mp: map<nat, u64>, areas: seq<MapArea>, owned: map<nat, nat>, tramp: u64,
      mc: map<nat, u64>, copies: seq<MapArea>, ownedCopy: map<nat, nat>, trampCopy: u64, v: nat)
    requires AreasOk(mp, areas, owned, tramp) && AreasOk(mc, copies, ownedCopy, trampCopy)
    requires FullCopies(areas, copies) && |copies| == |areas| && v in owned && v in ownedCopy
    ensures v in mp && v in mc && PteFlags(mc[v]) == PteFlags(mp[v])
  {
    hide AreaOk, PteFlags, PtePpn;
    EntryIsOwned(mp, areas, owned, tramp, v);
    EntryIsOwned(mc, copies, ownedCopy, trampCopy, v);
    CopyHasAll(mp, areas, owned, tramp, mc, copies, ownedCopy, trampCopy, v);
  }

  lemma CopyIsSame(parent: MemorySet, child: MemorySet)
    requires parent.Valid() && child.Valid() && FullCopies(parent.areas, child.areas) && |child.areas| == |parent.areas|
    requires parent.mem == child.mem && CopyOf(View(child), View(parent))
    ensures Whole(ShapesOf(parent.areas)) && View(child) == View(parent)
  {
    hide AreasOk, Whole, MappingOf, PteFlags, PtePpn, FramesOk, PageTable.Valid, FullCopies;
    assert parent.areas + [] == parent.areas && child.areas + [] == child.areas;
    BelowMemory(parent);
    BelowMemory(child);
    assert forall v :: v in child.owned ==> v in View(child);
    CopyShowsFull(parent.Mapping(), parent.areas, parent.owned, parent.tramp, child.Mapping(), child.areas,
      child.owned, child.tramp);
    forall v | v in parent.owned
      ensures v in child.owned && v in View(child) && v in View(parent) && View(child)[v] == View(parent)[v]
    {
      CopyHasAll(parent.Mapping(), parent.areas, parent.owned, parent.tramp, child.Mapping(), child.areas,
        child.owned, child.tramp, v);
      CopyHasFlags(parent.Mapping(), parent.areas, parent.owned, parent.tramp, child.Mapping(), child.areas,
        child.owned, child.tramp, v);
    }
  }

  lemma EmptyCopy(pages: seq<Page>, m: map<nat, u64>, original: map<nat, UserPage>)
    ensures CopyOf(ViewOf(pages, m, map[]), original)
  {
  }

  lemma {:induction false} CountNat(shapes: seq<Shape>)
    requires forall k :: 0 <= k < |shapes| ==> shapes[k].lo <= shapes[k].hi
    ensures 0 <= Count(shapes)
  {
    if shapes != [] {
      CountNat(shapes[..|shapes| - 1]);
    }
  }

  lemma AllFit(m: map<nat, u64>, areas: seq<MapArea>, owned: map<nat, nat>, tramp: u64)
    requires AreasOk(m, areas, owned, tramp)
    ensures forall k :: 0 <= k < |areas| ==> areas[k].Fit()
  {
    forall k | 0 <= k < |areas|
      ensures areas[k].Fit()
    {
      FitOf(m, areas[k], owned);
    }
  }

  lemma OneMoreCopy(areas: seq<MapArea>, copies: seq<MapArea>, copies': seq<MapArea>, b: MapArea)
    requires FullCopies(areas, copies) && |copies| < |areas| && areas[|copies|].start <= areas[|copies|].end
    requires NewArea(copies, copies', b, areas[|copies|].start, areas[|copies|].end, areas[|copies|].perm)
    ensures FullCopies(areas, copies') && |copies'| == |copies| + 1
  {
    assert FullCopy(areas[|copies|], b);
    forall k | 0 <= k < |copies'|
      ensures FullCopy(areas[k], copies'[k])
    {
      assert k < |copies| ==> FullCopy(areas[k], copies[k]);
    }
  }

  /** While no page is missing the next area can be copied. */
  lemma NextFits(parent: MemorySet, child: MemorySet)
    requires parent.Valid() && child.Valid() && FullCopies(parent.areas, child.areas) && |child.areas| < |parent.areas|
    ensures Whole(ShapesOf(parent.areas)) ==>
      forall v :: parent.areas[|child.areas|].start <= v < parent.areas[|child.areas|].end ==> v in parent.owned && v !in child.Mapping()
  {
    hide AreasOk, FramesOk, MappingOf, Whole, FullCopies, PageTable.Valid;
    assert parent.areas + [] == parent.areas && child.areas + [] == child.areas;
    if Whole(ShapesOf(parent.areas)) {
      forall v | parent.areas[|child.areas|].start <= v < parent.areas[|child.areas|].end
        ensures v in parent.owned && v !in child.Mapping()
      {
        NoConflict(parent.Mapping(), parent.areas, parent.owned, parent.tramp, child.Mapping(), child.areas,
          child.owned, child.tramp, v);
      }
    }
  }

  lemma NewSpaceGrows(pages: seq<Page>, alloc: set<nat>, pages1: seq<Page>, alloc1: set<nat>, tables1: set<nat>,
      own1: set<nat>,
      pages2: seq<Page>, alloc2: set<nat>, tables2: set<nat>, own2: set<nat>)
    requires NewSpace(pages, alloc, pages1, alloc1, own1 + tables1)
    requires OwnStep(pages1, alloc1, tables1, own1, pages2, alloc2, tables2, own2)
    ensures NewSpace(pages, alloc, pages2, alloc2, own2 + tables2)
  {
  }

  /** `from_existed_userspace`. It comes to an end only if no page is missing from any
      area, and then the copy is complete, with frames of its own. */
  method FromExistedUserspace(parent: MemorySet, trampolinePpn: nat) returns (r: Option<MemorySet>)
    requires parent.Valid() && trampolinePpn < PPN_END
    modifies parent.mem
    ensures r.Some? <==> Whole(ShapesOf(parent.areas)) && old(parent.mem.FreeCount()) >= CopyNeed(ShapesOf(parent.areas))
    ensures r.Some? ==> fresh(r.value) && fresh(r.value.pageTable) && r.value.mem == parent.mem
    ensures r.Some? ==> r.value.tramp == Pte(trampolinePpn, V + R + X)
    ensures r.Some? ==> parent.mem.FreeCount() == old(parent.mem.FreeCount()) - CopyNeed(ShapesOf(parent.areas))
    ensures r.Some? ==> r.value.pageTable.tree.Keys == BarePaths() + ShapePaths(ShapesOf(parent.areas))
    ensures r.Some? ==> parent.Valid() && r.value.Valid() && parent.mem.end == old(parent.mem.end)
    ensures r.Some? ==> View(parent) == old(View(parent)) && View(r.value) == View(parent)
    ensures r.Some? ==> FullCopies(parent.areas, r.value.areas) && |r.value.areas| == |parent.areas|
    ensures r.Some? ==> NewSpace(old(parent.mem.pages), old(parent.mem.Allocated()), parent.mem.pages, parent.mem.Allocated(), r.value.Footprint())
  {
    hide MappingOf, AreasOk, FramesOk, FrameAllocator.Allocated, FrameAllocator.FreeCount, FrameAllocator.Valid,
      PageTable.Valid, ViewOf, NewArea, Tables, CopyOf, Whole, FullCopy, OwnStep, Pte, CopyNeed, BarePaths,
      ShapesOf, ShapePaths, Paths, Need;
    FootprintAllocated(parent);
    var mem := parent.mem;
    AllFit(parent.Mapping(), parent.areas + [], parent.owned, parent.tramp);
    assert parent.areas + [] == parent.areas;
    ghost var shapes := ShapesOf(parent.areas);
    BareSize();
    CopyNeedGrows(shapes, 0);
    if mem.FreeCount() < 3 {
      return None;
    }
    ghost var pages0, alloc0 := mem.pages, mem.Allocated();
    var child := new MemorySet(mem, trampolinePpn);
    FootprintAllocated(child);
    Undisturbed(parent);
    assert CopyOf(View(child), View(parent)) by {
      EmptyCopy(mem.pages, child.Mapping(), View(parent));
    }
    NothingToCopy();
    assert shapes[..0] == [];
    var i := 0;
    while i < |parent.areas|
      invariant i <= |parent.areas| && fresh(child) && fresh(child.pageTable)
      invariant parent.Valid() && child.Valid() && Separate(parent, child) && child.mem == mem
      invariant View(parent) == old(View(parent)) && CopyOf(View(child), View(parent))
      invariant |child.areas| == i && FullCopies(parent.areas, child.areas)
      invariant NewSpace(pages0, alloc0, mem.pages, mem.Allocated(), child.Footprint()) && mem.end == old(mem.end)
      invariant child.pageTable.tree.Keys == BarePaths() + ShapePaths(shapes[..i])
      invariant mem.FreeCount() == old(mem.FreeCount()) - CopyNeed(shapes[..i])
    {
      ghost var pages1, alloc1, tables1, own1 := mem.pages, mem.Allocated(), Tables(child.pageTable.tree), child.owned.Values;
      ghost var copies, mapping := child.areas, child.Mapping();
      var a := parent.areas[i];
      NextFits(parent, child);
      CopyNeedNext(shapes, i);
      CopyNeedGrows(shapes, i + 1);
      var ok := CopyArea(parent, child, a);
      if !ok {
        return None;
      }
      NewSpaceGrows(pages0, alloc0, pages1, alloc1, tables1, own1, mem.pages, mem.Allocated(),
        Tables(child.pageTable.tree), child.owned.Values);
      OneMoreCopy(parent.areas, copies, child.areas, child.areas[|child.areas| - 1]);
      i := i + 1;
    }
    CopyIsSame(parent, child);
    SomeFree(child.pageTable);
    assert shapes[..i] == shapes;
    r := Some(child);
  }
}
