/** Address spaces: areas that own data frames, kept in step with the page table
    (os/src/mm/memory_set.rs). */
module MemorySets {
  import opened Words
  import opened Sets
  import opened Frames
  import opened PageTables

  const TRAMPOLINE_VPN: int := VPN_END - 1

  /** A run of virtual pages of a user space (all user areas are framed), with the
      frames it owns. `perm` holds R, W, X and U bits. */
  datatype MapArea = MapArea(start: nat, end: nat, data: map<nat, nat>, perm: nat)
  {
    predicate Fit() { start <= end <= VPN_END && perm % 2 == 0 && perm < 32 }
  }

  /** `map_one` or a loop of it: all pages mapped; the frame allocator was empty, which
      the source reports; or it was empty where the source unwraps. */
  datatype MapResult = Mapped | NoSpace | Panicked

  /** The paths of the tables below the root that the pages [lo, hi) need. */
  ghost function Paths(lo: nat, hi: nat): set<seq<nat>>
  {
    if hi <= lo then {} else Paths(lo, hi - 1) + PathsOf(hi - 1)
  }

  /** The frames it takes to map the pages [lo, hi) in a table with these paths: one for
      each page and one for each table that is missing. */
  ghost function Need(keys: set<seq<nat>>, lo: nat, hi: nat): int
    requires lo <= hi
  {
    hi - lo + |Paths(lo, hi) - keys|
  }

  lemma NeedNext(keys: set<seq<nat>>, lo: nat, v: nat)
    requires lo <= v
    ensures Paths(lo, v + 1) == Paths(lo, v) + PathsOf(v)
    ensures Need(keys, lo, v + 1) == Need(keys, lo, v) + 1 + |PathsOf(v) - (keys + Paths(lo, v))|
  {
    hide PathsOf;
    AddInTurn(keys, Paths(lo, v), PathsOf(v));
  }

  lemma {:induction false} NeedGrows(keys: set<seq<nat>>, lo: nat, v: nat, w: nat)
    requires lo <= v < w
    ensures Need(keys, lo, v) < Need(keys, lo, w)
    decreases w
  {
    hide Need, Paths, PathsOf;
    NeedNext(keys, lo, w - 1);
    if v < w - 1 {
      NeedGrows(keys, lo, v, w - 1);
    }
  }

  lemma NeedSome(keys: set<seq<nat>>, lo: nat, v: nat)
    requires lo <= v
    ensures Need(keys, lo, v) >= 0 && (Need(keys, lo, v) == 0 <==> v == lo)
  {
    hide Paths;
    NeedNothing(keys, lo);
  }

  lemma NeedNothing(keys: set<seq<nat>>, lo: nat)
    ensures Need(keys, lo, lo) == 0 && Paths(lo, lo) == {}
  {
  }

  /** Some page finds every frame taken by the pages before it. */
  ghost predicate Exhausts(keys: set<seq<nat>>, free: int, lo: nat, hi: nat)
  {
    exists v :: lo <= v < hi && Need(keys, lo, v) == free
  }

  /** What mapping the free pages [lo, hi) comes to with this many frames: enough of them;
      used up exactly when a page is due; or used up before the page's tables are there. */
  ghost function Insertion(keys: set<seq<nat>>, free: int, lo: nat, hi: nat): MapResult
    requires lo <= hi
  {
    if free >= Need(keys, lo, hi) then Mapped else if Exhausts(keys, free, lo, hi) then NoSpace else Panicked
  }

  /** The mapping stops at page v with some frames left after the pages before it. */
  lemma StopsAt(keys: set<seq<nat>>, free: int, lo: nat, v: nat, hi: nat)
    requires lo <= v < hi && Need(keys, lo, v) <= free < Need(keys, lo, v + 1)
    ensures Insertion(keys, free, lo, hi) == if free == Need(keys, lo, v) then NoSpace else Panicked
  {
    hide Need;
    if v + 1 < hi {
      NeedGrows(keys, lo, v + 1, hi);
    }
    if Exhausts(keys, free, lo, hi) {
      var w :| lo <= w < hi && Need(keys, lo, w) == free;
      if w < v {
        NeedGrows(keys, lo, w, v);
      } else if v + 1 < w {
        NeedGrows(keys, lo, v + 1, w);
      }
    }
  }

  /** With exactly the frames for the pages before any page v of the range, the mapping
      breaks off at v: how every failure half way comes about. */
  lemma BreaksOffAt(keys: set<seq<nat>>, lo: nat, v: nat, hi: nat)
    requires lo <= v < hi
    ensures Insertion(keys, Need(keys, lo, v), lo, hi) == NoSpace
    ensures Need(keys, lo, v) == 0 <==> v == lo
  {
    hide Need;
    NeedGrows(keys, lo, v, v + 1);
    StopsAt(keys, Need(keys, lo, v), lo, v, hi);
    NeedSome(keys, lo, v);
  }

  lemma Enough(keys: set<seq<nat>>, free: int, lo: nat, hi: nat)
    requires lo <= hi
    ensures Insertion(keys, free, lo, hi) == Mapped <==> Need(keys, lo, hi) <= free
  {
  }

  /** The leaf entry of a page of an area. */
  function PageEntry(a: MapArea, v: nat): u64
    requires v in a.data && a.data[v] < PPN_END && a.perm < 256
  {
    Pte(a.data[v], WithV(a.perm))
  }

  /** Page v of area a: recorded, and mapped to its frame with the area's permissions. */
  ghost predicate PageOk(m: map<nat, u64>, a: MapArea, owned: map<nat, nat>, v: nat)
    requires v in a.data
  {
    && v in owned && owned[v] == a.data[v]
    && a.data[v] < PPN_END && a.perm < 256
    && v in m && m[v] == PageEntry(a, v)
  }

  ghost predicate InSomeArea(areas: seq<MapArea>, v: nat)
  {
    exists i :: 0 <= i < |areas| && v in areas[i].data
  }

  ghost predicate AreaOk(m: map<nat, u64>, a: MapArea, owned: map<nat, nat>)
  {
    a.Fit() && forall v :: v in a.data ==> a.start <= v < a.end && PageOk(m, a, owned, v)
  }

  /** No page belongs to two areas. */
  ghost predicate Apart(areas: seq<MapArea>)
  {
    forall i, j :: 0 <= i < j < |areas| ==> areas[i].data.Keys !! areas[j].data.Keys
  }

  /** The page table maps the trampoline and exactly the pages the areas own, each page
      of one area only. `owned` collects the areas' frames. */
  ghost predicate AreasOk(m: map<nat, u64>, areas: seq<MapArea>, owned: map<nat, nat>, tramp: u64)
  {
    && TRAMPOLINE_VPN in m && m[TRAMPOLINE_VPN] == tramp && TRAMPOLINE_VPN !in owned
    && (forall v :: v in m <==> v in owned || v == TRAMPOLINE_VPN)
    && (forall i :: 0 <= i < |areas| ==> AreaOk(m, areas[i], owned))
    && (forall v :: v in owned ==> InSomeArea(areas, v))
    && Apart(areas)
  }

  /** No frame has two owners, and every owner's frame is handed out. */
  ghost predicate FramesOk(alloc: set<nat>, tables: set<nat>, owned: map<nat, nat>)
  {
    && (forall v, w :: v in owned && w in owned && owned[v] == owned[w] ==> v == w)
    && owned.Values !! tables
    && owned.Values + tables <= alloc
  }

  /** An area keeps its pages when one page elsewhere is added. */
  lemma AreaKeeps(m: map<nat, u64>, a: MapArea, owned: map<nat, nat>, v: nat, f: nat, bits: u64)
    requires AreaOk(m, a, owned) && v !in m
    ensures v !in a.data && AreaOk(m[v := bits], a, owned[v := f])
  {
    forall w | w in a.data
      ensures w != v && PageOk(m[v := bits], a, owned[v := f], w)
    {
      assert PageOk(m, a, owned, w);
    }
  }

  /** A page of the area being mapped enters the books. */
  lemma AddPage(m: map<nat, u64>, areas: seq<MapArea>, a: MapArea, owned: map<nat, nat>, tramp: u64, v: nat, f: nat)
    requires AreasOk(m, areas + [a], owned, tramp)
    requires v !in m && a.start <= v < a.end && f < PPN_END
    ensures a.Fit()
    ensures var a' := a.(data := a.data[v := f]);
      AreasOk(m[v := Pte(f, WithV(a.perm))], areas + [a'], owned[v := f], tramp)
  {
    hide AreaOk, Apart, Pte, WithV;
    var n := |areas|;
    var was := areas + [a];
    assert was[n] == a;
    FitOf(m, a, owned);
    var bits := Pte(f, WithV(a.perm));
    var a' := a.(data := a.data[v := f]);
    var now := areas + [a'];
    var m', owned' := m[v := bits], owned[v := f];
    forall i | 0 <= i < |was|
      ensures v !in was[i].data && AreaOk(m', was[i], owned')
    {
      AreaKeeps(m, was[i], owned, v, f, bits);
    }
    GrownArea(m', a, owned', v, f);
    forall i | 0 <= i < |now|
      ensures AreaOk(m', now[i], owned')
    {
      assert i < n ==> now[i] == was[i];
    }
    forall w | w in owned'
      ensures InSomeArea(now, w)
    {
      if w == v {
        assert v in now[n].data;
      } else {
        var i :| 0 <= i < |was| && w in was[i].data;
        assert w in now[i].data;
      }
    }
    ApartGrown(areas, a, v, f);
  }

  lemma FitOf(m: map<nat, u64>, a: MapArea, owned: map<nat, nat>)
    requires AreaOk(m, a, owned)
    ensures a.Fit()
  {
  }

  lemma GrownArea(m: map<nat, u64>, a: MapArea, owned: map<nat, nat>, v: nat, f: nat)
    requires AreaOk(m, a, owned) && a.start <= v < a.end && f < PPN_END
    requires v in owned && owned[v] == f && v in m && m[v] == Pte(f, WithV(a.perm))
    ensures AreaOk(m, a.(data := a.data[v := f]), owned)
  {
    hide Pte, WithV;
    var a' := a.(data := a.data[v := f]);
    forall w | w in a'.data
      ensures a'.start <= w < a'.end && PageOk(m, a', owned, w)
    {
      if w != v {
        assert PageOk(m, a, owned, w);
      }
    }
  }

  lemma ApartGrown(areas: seq<MapArea>, a: MapArea, v: nat, f: nat)
    requires Apart(areas + [a]) && forall i :: 0 <= i < |areas| + 1 ==> v !in (areas + [a])[i].data
    ensures Apart(areas + [a.(data := a.data[v := f])])
  {
    var was, now := areas + [a], areas + [a.(data := a.data[v := f])];
    forall i, j | 0 <= i < j < |now|
      ensures now[i].data.Keys !! now[j].data.Keys
    {
      assert was[i].data.Keys !! was[j].data.Keys;
      assert v !in was[i].data;
    }
  }

  /** An area without pages may join. */
  lemma AddArea(m: map<nat, u64>, areas: seq<MapArea>, a: MapArea, owned: map<nat, nat>, tramp: u64)
    requires AreasOk(m, areas, owned, tramp) && a.Fit() && a.data == map[]
    ensures AreasOk(m, areas + [a], owned, tramp)
  {
    hide PageOk;
    var now := areas + [a];
    forall i | 0 <= i < |now|
      ensures AreaOk(m, now[i], owned)
    {
      assert i < |areas| ==> now[i] == areas[i];
    }
    forall w | w in owned
      ensures InSomeArea(now, w)
    {
      var i :| 0 <= i < |areas| && w in areas[i].data;
      assert w in now[i].data;
    }
  }

  lemma AddFrame(alloc: set<nat>, tables: set<nat>, owned: map<nat, nat>, v: nat, f: nat)
    requires FramesOk(alloc, tables, owned) && f !in alloc && v !in owned
    ensures FramesOk(alloc + {f}, tables, owned[v := f])
    ensures owned[v := f].Values == owned.Values + {f}
  {
    var owned' := owned[v := f];
    assert owned'[v] == f;
    forall w | w in owned
      ensures owned[w] in owned.Values && owned'[w] == owned[w]
    {
    }
  }

  /** A step that only adds to a space, from `tables` and `own` to more of both: frames
      in use that are not its tables keep their bytes (all user data, and everything
      other spaces own), and what is newly owned was free before. */
  ghost predicate OwnStep(pages: seq<Page>, alloc: set<nat>, tables: set<nat>, own: set<nat>,
      pages': seq<Page>, alloc': set<nat>, tables': set<nat>, own': set<nat>)
  {
    && |pages'| == |pages|
    && (forall p :: 0 <= p < |pages| && p in alloc && p !in tables ==> pages'[p] == pages[p])
    && tables <= tables' && own <= own' && own' !! tables'
    && (tables' + own' - tables - own) !! alloc
    && alloc' == alloc + (tables' + own' - tables - own)
  }

  lemma OwnStepTrans(pages: seq<Page>, alloc: set<nat>, tables: set<nat>, own: set<nat>,
      pages1: seq<Page>, alloc1: set<nat>, tables1: set<nat>, own1: set<nat>,
      pages2: seq<Page>, alloc2: set<nat>, tables2: set<nat>, own2: set<nat>)
    requires OwnStep(pages, alloc, tables, own, pages1, alloc1, tables1, own1)
    requires OwnStep(pages1, alloc1, tables1, own1, pages2, alloc2, tables2, own2)
    requires tables + own <= alloc
    ensures OwnStep(pages, alloc, tables, own, pages2, alloc2, tables2, own2)
  {
  }

  /** The tables of a space that maps nothing but the trampoline. */
  ghost function BarePaths(): set<seq<nat>> { {[]} + PathsOf(TRAMPOLINE_VPN) }

  lemma BareAreas(m: map<nat, u64>, tramp: u64)
    requires m == map[TRAMPOLINE_VPN := tramp]
    ensures AreasOk(m, [], map[], tramp)
  {
  }

  lemma BareSize()
    ensures |BarePaths()| == 1 + |PathsOf(TRAMPOLINE_VPN) - {[]}| == 3
  {
    hide Index;
    var a, b := Path1(TRAMPOLINE_VPN), Path2(TRAMPOLINE_VPN);
    assert |a| == 1 && |b| == 2;
    assert PathsOf(TRAMPOLINE_VPN) - {a} == {b} && PathsOf(TRAMPOLINE_VPN) - {[]} == PathsOf(TRAMPOLINE_VPN);
    OneMore(PathsOf(TRAMPOLINE_VPN), [], {});
  }

  /** What a space and the memory held before an operation. */
  datatype Books = Books(m: map<nat, u64>, owned: map<nat, nat>, areas: seq<MapArea>, pages: seq<Page>, end: nat,
    alloc: set<nat>, tables: set<nat>, keys: set<seq<nat>>, free: int)

  /** From `was` to `now` area a was mapped up to page vpn. */
  ghost predicate Progress(was: Books, now: Books, a: MapArea, vpn: nat)
  {
    && now.areas == was.areas && now.end == was.end && a.start <= vpn <= a.end
    && OwnStep(was.pages, was.alloc, was.tables, was.owned.Values, now.pages, now.alloc, now.tables, now.owned.Values)
    && Partial(was.m, now.m, was.owned, now.owned, a, a.start, vpn)
    && FreshZeros(now.pages, was.alloc, a)
    && now.keys == was.keys + Paths(a.start, vpn)
    && 0 <= now.free == was.free - Need(was.keys, a.start, vpn)
  }

  lemma ProgressNext(was: Books, now: Books, a: MapArea, vpn: nat)
    requires Progress(was, now, a, vpn) && vpn !in was.m
    ensures a.start <= vpn && vpn !in now.m && now.free == was.free - Need(was.keys, a.start, vpn)
    ensures Need(was.keys, a.start, vpn + 1) == Need(was.keys, a.start, vpn) + 1 + |PathsOf(vpn) - now.keys|
  {
    NeedNext(was.keys, a.start, vpn);
  }

  lemma ProgressStep(was: Books, now: Books, next: Books, a: MapArea, vpn: nat, f: nat)
    requires Progress(was, now, a, vpn) && vpn < a.end && vpn !in was.m && was.tables + was.owned.Values <= was.alloc
    requires FramesOk(now.alloc, now.tables, now.owned) && f !in now.alloc && f < PPN_END && a.perm < 256
    requires next.areas == now.areas && next.end == now.end && next.owned == now.owned[vpn := f]
    requires next.m == now.m[vpn := PageEntry(a.(data := a.data[vpn := f]), vpn)] && ZeroFrame(next.pages, f)
    requires OwnStep(now.pages, now.alloc, now.tables, now.owned.Values, next.pages, next.alloc, next.tables, next.owned.Values)
    requires next.keys == now.keys + PathsOf(vpn) && 0 <= next.free == now.free - 1 - |PathsOf(vpn) - now.keys|
    ensures Progress(was, next, a.(data := a.data[vpn := f]), vpn + 1)
  {
    hide FramesOk, PageEntry, OwnStep, Partial, Need, ZeroFrame, FreshZeros, PathsOf;
    NeedNext(was.keys, a.start, vpn);
    PartialOwned(was.m, now.m, was.owned, now.owned, a, vpn);
    PartialStep(was.m, now.m, was.owned, now.owned, a, a.start, vpn, f);
    OwnStepTrans(was.pages, was.alloc, was.tables, was.owned.Values, now.pages, now.alloc, now.tables,
      now.owned.Values, next.pages, next.alloc, next.tables, next.owned.Values);
    assert was.alloc <= now.alloc by {
      GrownAlloc(was.pages, was.alloc, was.tables, was.owned.Values, now.pages, now.alloc, now.tables, now.owned.Values);
    }
    ZerosKept(now.pages, now.alloc, now.tables, now.owned, next.pages, next.alloc, next.tables, next.owned.Values,
      a, was.alloc, vpn, f);
  }

  /** The frames of a new space were free, and nobody else's bytes changed. */
  ghost predicate NewSpace(pages: seq<Page>, alloc: set<nat>, pages': seq<Page>, alloc': set<nat>, footprint: set<nat>)
  {
    && |pages'| == |pages| && footprint !! alloc && alloc' == alloc + footprint
    && forall p :: 0 <= p < |pages| && p in alloc ==> pages'[p] == pages[p]
  }

  class MemorySet {
    const pageTable: PageTable
    const mem: FrameAllocator
    var areas: seq<MapArea>
    ghost var owned: map<nat, nat>
    ghost const tramp: u64

    /** The books balance, with `extra` an area still being mapped. */
    ghost predicate ValidWith(extra: seq<MapArea>)
      reads this, pageTable, mem
    {
      && pageTable.mem == mem && pageTable.Valid()
      && AreasOk(Mapping(), areas + extra, owned, tramp)
      && FramesOk(mem.Allocated(), Tables(pageTable.tree), owned)
    }

    ghost predicate Valid()
      reads this, pageTable, mem
    {
      ValidWith([])
    }

    /** The user pages: virtual page to frame and flags. */
    ghost function Mapping(): map<nat, u64>
      reads this, pageTable, mem
    {
      MappingOf(mem.pages, pageTable.root)
    }

    /** Everything the space owns. */
    ghost function Footprint(): set<nat>
      reads this, pageTable
    {
      owned.Values + Tables(pageTable.tree)
    }

    twostate predicate OnlyOwn()
      reads this, pageTable, mem
    {
      mem.end == old(mem.end) &&
      OwnStep(old(mem.pages), old(mem.Allocated()), old(Tables(pageTable.tree)), old(owned.Values),
        mem.pages, mem.Allocated(), Tables(pageTable.tree), owned.Values)
    }

    /** `new_bare` and `map_trampoline`; the source unwraps, so its frames must be there. */
    constructor (mem: FrameAllocator, trampolinePpn: nat)
      requires mem.Valid() && mem.FreeCount() >= |BarePaths()| && trampolinePpn < PPN_END
      modifies mem
      ensures this.mem == mem && Valid() && areas == [] && owned == map[] && fresh(pageTable)
      ensures tramp == Pte(trampolinePpn, V + R + X) && Mapping() == map[TRAMPOLINE_VPN := tramp]
      ensures mem.end == old(mem.end)
      ensures NewSpace(old(mem.pages), old(mem.Allocated()), mem.pages, mem.Allocated(), Footprint())
      ensures pageTable.tree.Keys == BarePaths() && mem.FreeCount() == old(mem.FreeCount()) - |BarePaths()|
    {
      hide MappingOf, PageTable.Valid, Pte, TreeInv, FrameAllocator.Allocated,
        FrameAllocator.FreeCount, PathsOf, TablesStep, Tables, NewSpace, FramesOk, AreasOk;
      BareSize();
      ghost var pages0, alloc0 := mem.pages, mem.Allocated();
      var pt := new PageTable(mem);
      ghost var root, pages1 := pt.root, mem.pages;
      assert Tables(pt.tree) == {root} by { OneTable(root); }
      var ok := pt.Map(TRAMPOLINE_VPN, trampolinePpn, R + X);
      BareStep(pages0, alloc0, pages1, root, mem.pages, mem.Allocated(), Tables(pt.tree), map[]);
      BareAreas(pt.Mapping(), Pte(trampolinePpn, V + R + X));
      pageTable, this.mem, areas := pt, mem, [];
      owned, tramp := map[], Pte(trampolinePpn, V + R + X);
      new;
      assert areas + [] == [];
    }

    /** `map_one` for a framed area that is being mapped. */
    method MapOne(a: MapArea, vpn: nat) returns (r: MapResult, a': MapArea)
      requires ValidWith([a]) && a.start <= vpn < a.end && vpn !in Mapping()
      modifies this`owned, pageTable, mem
      ensures r == NoSpace <==> old(mem.FreeCount()) == 0
      ensures r == Mapped <==> old(mem.FreeCount()) >= 1 + |PathsOf(vpn) - old(pageTable.tree).Keys|
      ensures r == NoSpace ==> ValidWith([a]) && OnlyOwn() && a' == a
      ensures r == NoSpace ==> unchanged(this) && unchanged(pageTable) && unchanged(mem)
      ensures r == Mapped ==> pageTable.tree.Keys == old(pageTable.tree).Keys + PathsOf(vpn)
      ensures r == Mapped ==> mem.FreeCount() == old(mem.FreeCount()) - 1 - |PathsOf(vpn) - old(pageTable.tree).Keys|
      ensures r == Mapped ==> ValidWith([a']) && OnlyOwn()
      ensures r == Mapped ==> vpn in a'.data && a' == a.(data := a.data[vpn := a'.data[vpn]])
      ensures r == Mapped ==> owned == old(owned)[vpn := a'.data[vpn]]
      ensures r == Mapped ==> a'.data[vpn] < PPN_END && a'.perm < 256 && Mapping() == old(Mapping())[vpn := PageEntry(a', vpn)]
      ensures r == Mapped ==> a'.data[vpn] !in old(mem.Allocated()) && ZeroFrame(mem.pages, a'.data[vpn])
    {
      hide MappingOf, Pte, WithV, Tables, AreasOk, FramesOk, FrameAllocator.Allocated, FrameAllocator.Valid,
        FrameAllocator.FreeCount, ZeroPage, PathsOf, TablesStep, OwnStep, ZeroFrame, PageTable.Valid;
      TableOwned(pageTable);
      ghost var pages0, alloc0, tree0 := mem.pages, mem.Allocated(), pageTable.tree;
      var frame := mem.Alloc();
      if frame == None {
        NoStep(pages0, alloc0, Tables(tree0), owned);
        return NoSpace, a;
      }
      var f := frame.value;
      OwnedAllocated(alloc0, Tables(tree0), owned);
      AllocKeeps(pageTable);
      AllocatedBound(mem);
      FitArea(Mapping(), areas, a, owned, tramp);
      var ok := pageTable.Map(vpn, f, a.perm);
      if !ok {
        return Panicked, a;
      }
      a' := a.(data := a.data[vpn := f]);
      PagesInOwned(MappingOf(pages0, pageTable.root), areas + [a], owned, tramp, vpn);
      AddPage(MappingOf(pages0, pageTable.root), areas, a, owned, tramp, vpn, f);
      OneStep(pages0, alloc0, Tables(tree0), owned, mem.pages, mem.Allocated(), Tables(pageTable.tree), vpn, f);
      owned := owned[vpn := f];
      r := Mapped;
    }

    /** Dropping an area that could not be completed gives its frames back one by one. */
    method DropArea(a: MapArea, vpn: nat, ghost m0: map<nat, u64>, ghost owned0: map<nat, nat>)
      requires ValidWith([a]) && a.start <= vpn && Partial(m0, Mapping(), owned0, owned, a, a.start, vpn)
      requires forall v :: a.start <= v < vpn ==> v !in m0
      requires TRAMPOLINE_VPN in m0 && AreasOk(m0, areas, owned0, tramp)
      requires forall v :: a.start <= v < vpn ==> v !in owned0
      modifies this`owned, mem
      ensures owned == owned0 && mem.pages == old(mem.pages) && areas == old(areas)
      ensures mem.FreeCount() == old(mem.FreeCount()) + vpn - a.start && (vpn == a.start ==> unchanged(mem))
      ensures Dangling(m0, Mapping(), mem.Allocated(), a.start, vpn - a.start)
      ensures Valid() <==> vpn == a.start
    {
      hide MappingOf, FrameAllocator.Allocated, FrameAllocator.FreeCount, FrameAllocator.Valid, AreasOk, Partial,
        FramesOk, Tables, TreeInv, NoRepeats, Elements, Dangling;
      ghost var m, alloc0, owned1 := Mapping(), mem.Allocated(), owned;
      PartialOwned(m0, m, owned0, owned, a, vpn);
      FreeFrames(a, vpn, Tables(pageTable.tree));
      GivenBack(mem);
      AreaFrames(alloc0, Tables(pageTable.tree), owned1, a, vpn);
      DanglingIs(m0, m, owned0, owned1, a, vpn, mem.Allocated());
      owned := owned0;
      assert areas + [] == areas;
      if vpn == a.start {
        NothingMapped(m0, m, owned0, owned1, a);
      } else {
        assert a.start in m && a.start !in owned0 by { PartialOwned(m0, m, owned0, owned1, a, vpn); }
        StrayPage(m, areas + [], owned, tramp, a.start);
      }
    }

    /** Dropping `data_frames`, in the order of the keys. */
    method FreeFrames(a: MapArea, vpn: nat, ghost tables: set<nat>)
      requires mem.Valid() && FramesOk(mem.Allocated(), tables, owned) && a.start <= vpn
      requires forall v :: v in a.data ==> a.start <= v < vpn
      requires forall w :: w in a.data ==> w in owned && owned[w] == a.data[w]
      modifies mem`recycled
      ensures mem.end == old(mem.end)
      ensures mem.Valid()
      ensures mem.Allocated() == old(mem.Allocated()) - a.data.Values
      ensures vpn == a.start ==> unchanged(mem)
    {
      hide FrameAllocator.Allocated, FrameAllocator.Valid, FrameAllocator.FreeCount;
      ghost var alloc0 := mem.Allocated();
      var v := a.start;
      while v < vpn
        invariant a.start <= v <= vpn && mem.Valid() && (v == a.start ==> unchanged(mem))
        invariant mem.Allocated() == alloc0 - FramesBelow(a, v)
      {
        BelowStep(a, v);
        if v in a.data {
          SeparateFrames(alloc0, tables, owned, a, v);
          mem.Dealloc(a.data[v]);
        }
        v := v + 1;
      }
      assert FramesBelow(a, vpn) == a.data.Values;
    }

    ghost function Now(): Books
      reads this, pageTable, mem
    {
      Books(Mapping(), owned, areas, mem.pages, mem.end, mem.Allocated(), Tables(pageTable.tree),
        pageTable.tree.Keys, mem.FreeCount())
    }

    /** A new area is mapped up to page vpn; `was` is what there was before it. */
    ghost predicate Halfway(was: Books, a: MapArea, vpn: nat)
      reads this, pageTable, mem
    {
      ValidWith([a]) && Progress(was, Now(), a, vpn)
    }

    lemma NotBegun(a: MapArea)
      requires Valid() && a.Fit() && a.data == map[]
      ensures Halfway(Now(), a, a.start)
    {
      hide AreasOk, FramesOk, PageEntry, FrameAllocator.Allocated, FrameAllocator.FreeCount, MappingOf, Tables,
        OwnStep, Partial, Paths, Need, PageTable.Valid, ZeroFrame;
      assert areas + [] == areas;
      AddArea(Mapping(), areas, a, owned, tramp);
      NoStep(mem.pages, mem.Allocated(), Tables(pageTable.tree), owned);
      NeedNothing(pageTable.tree.Keys, a.start);
      PartialStart(Mapping(), owned, a, a.start);
      SomeFree(pageTable);
      assert pageTable.tree.Keys + {} == pageTable.tree.Keys;
    }

    /** One turn of the loop of `map`. */
    method MapNext(ghost was: Books, a: MapArea, vpn: nat) returns (r: MapResult, a': MapArea)
      requires Halfway(was, a, vpn) && vpn < a.end && vpn !in was.m
      requires was.tables + was.owned.Values <= was.alloc
      modifies this`owned, pageTable, mem
      ensures r == Mapped <==> was.free >= Need(was.keys, a.start, vpn + 1)
      ensures r == NoSpace <==> was.free == Need(was.keys, a.start, vpn)
      ensures r == Mapped ==> a' == a.(data := a'.data) && Halfway(was, a', vpn + 1)
      ensures r == NoSpace ==> a' == a && unchanged(this) && unchanged(pageTable) && unchanged(mem)
    {
      hide AreasOk, FramesOk, PageEntry, FrameAllocator.Allocated, FrameAllocator.FreeCount, FrameAllocator.Valid,
        MappingOf, OwnStep, PageTable.Valid, Tables, PathsOf, ZeroFrame, Progress, Need;
      ghost var now := Now();
      ProgressNext(was, now, a, vpn);
      r, a' := MapOne(a, vpn);
      if r == Mapped {
        SomeFree(pageTable);
        ProgressStep(was, now, Now(), a, vpn, a'.data[vpn]);
      }
    }

    /** `insert_framed_area`: a new area with every page mapped to a frame of its own. If
        the allocator runs dry on the way the area is dropped, frames and all, but the
        `done` entries already written stay in the page table: the space is still sound
        exactly when no frame was free to begin with. */
    method InsertFramedArea(start: nat, end: nat, perm: nat) returns (r: MapResult, ghost done: nat)
      requires Valid() && start <= end <= VPN_END && perm % 2 == 0 && perm < 32
      requires forall v :: start <= v < end ==> v !in Mapping()
      modifies this, pageTable, mem
      ensures r == Insertion(old(pageTable.tree).Keys, old(mem.FreeCount()), start, end)
      ensures r == Mapped ==> Valid() && OnlyOwn() && |areas| == |old(areas)| + 1 && areas[..|old(areas)|] == old(areas)
      ensures r == Mapped ==> var a := areas[|old(areas)|];
        a == MapArea(start, end, a.data, perm) && Partial(old(Mapping()), Mapping(), old(owned), owned, a, start, end)
      ensures r == Mapped ==> FreshZeros(mem.pages, old(mem.Allocated()), areas[|old(areas)|])
      ensures r == Mapped ==> pageTable.tree.Keys == old(pageTable.tree).Keys + Paths(start, end)
      ensures r == Mapped ==> mem.FreeCount() == old(mem.FreeCount()) - Need(old(pageTable.tree).Keys, start, end)
      ensures r == NoSpace ==> areas == old(areas) && owned == old(owned) && done < end - start
      ensures r == NoSpace ==> Need(old(pageTable.tree).Keys, start, start + done) == old(mem.FreeCount())
      ensures r == NoSpace ==> Dangling(old(Mapping()), Mapping(), mem.Allocated(), start, done)
      ensures r == NoSpace ==> mem.FreeCount() == done && (Valid() <==> old(mem.FreeCount()) == 0)
      ensures r == NoSpace && old(mem.FreeCount()) == 0 ==> unchanged(this) && unchanged(pageTable) && unchanged(mem)
    {
      hide AreasOk, FramesOk, PageEntry, FrameAllocator.Allocated, FrameAllocator.FreeCount, MappingOf, OwnStep,
        Partial, PageTable.Valid, Tables, Paths, Need, Insertion, Dangling, FreshZeros, FrameAllocator.Valid;
      var a := MapArea(start, end, map[], perm);
      ghost var was := Now();
      NotBegun(a);
      assert areas + [] == areas;
      OwnedAreMapped(Mapping(), areas, owned, tramp);
      OwnedAllocated(was.alloc, was.tables, owned);
      NeedNothing(was.keys, start);
      var vpn := start;
      while vpn < end
        invariant Halfway(was, a, vpn) && a == MapArea(start, end, a.data, perm)
        invariant vpn == start ==> unchanged(this) && unchanged(pageTable) && unchanged(mem)
      {
        r, a := MapNext(was, a, vpn);
        if r != Mapped {
          StopsAt(was.keys, was.free, start, vpn, end);
          done := vpn - start;
          if r == NoSpace {
            NeedSome(was.keys, start, vpn);
            DropArea(a, vpn, was.m, was.owned);
          }
          return r, done;
        }
        vpn := vpn + 1;
      }
      areas := areas + [a];
      assert was.areas + [a] == areas + [];
      r, done := Mapped, 0;
      Enough(was.keys, was.free, start, end);
    }
  }

  /** Pages mapped earlier stay as they were. */
  lemma ZerosKept(pages: seq<Page>, alloc: set<nat>, tables: set<nat>, owned: map<nat, nat>,
      pages': seq<Page>, alloc': set<nat>, tables': set<nat>, own': set<nat>, a: MapArea, before: set<nat>, v: nat, f: nat)
    requires OwnStep(pages, alloc, tables, owned.Values, pages', alloc', tables', own')
    requires FramesOk(alloc, tables, owned)
    requires forall w :: w in a.data ==> w in owned && owned[w] == a.data[w]
    requires FreshZeros(pages, before, a) && f !in before && ZeroFrame(pages', f)
    ensures FreshZeros(pages', before, a.(data := a.data[v := f]))
  {
    forall w | w in a.data
      ensures ZeroFrame(pages', a.data[w])
    {
      assert owned[w] in owned.Values;
    }
  }

  /** The frames of an area came from none of these, and are all zeros. */
  ghost predicate FreshZeros(pages: seq<Page>, alloc: set<nat>, a: MapArea)
  {
    forall v :: v in a.data ==> a.data[v] !in alloc && ZeroFrame(pages, a.data[v])
  }

  predicate ZeroFrame(pages: seq<Page>, f: nat) { f < |pages| && pages[f] == ZeroPage() }

  lemma NoStep(pages: seq<Page>, alloc: set<nat>, tables: set<nat>, owned: map<nat, nat>)
    requires FramesOk(alloc, tables, owned)
    ensures OwnStep(pages, alloc, tables, owned.Values, pages, alloc, tables, owned.Values)
  {
  }

  /** Mapping one page: a fresh data frame, and possibly fresh tables. */
  lemma OneStep(pages: seq<Page>, alloc: set<nat>, tables: set<nat>, owned: map<nat, nat>,
      pages': seq<Page>, alloc': set<nat>, tables': set<nat>, v: nat, f: nat)
    requires FramesOk(alloc, tables, owned) && f !in alloc && v !in owned && f < |pages|
    requires TablesStep(pages[f := ZeroPage()], alloc + {f}, tables, pages', alloc', tables')
    ensures OwnStep(pages, alloc, tables, owned.Values, pages', alloc', tables', owned[v := f].Values)
    ensures FramesOk(alloc', tables', owned[v := f]) && ZeroFrame(pages', f)
  {
    hide ZeroPage;
    AddFrame(alloc, tables, owned, v, f);
  }

  /** The root and the tables of a new space come from frames nobody had. */
  lemma BareStep(pages: seq<Page>, alloc: set<nat>, pages1: seq<Page>, root: nat, pages': seq<Page>, alloc': set<nat>,
      tables': set<nat>, owned: map<nat, nat>)
    requires root !in alloc && |pages1| == |pages| && forall p :: 0 <= p < |pages| && p != root ==> pages1[p] == pages[p]
    requires TablesStep(pages1, alloc + {root}, {root}, pages', alloc', tables') && owned == map[]
    ensures NewSpace(pages, alloc, pages', alloc', owned.Values + tables') && FramesOk(alloc', tables', owned)
  {
  }

  /** The pages from start up to vpn are mapped for area a, and nothing else is new. */
  ghost predicate Partial(m0: map<nat, u64>, m: map<nat, u64>, owned0: map<nat, nat>, owned: map<nat, nat>,
      a: MapArea, start: nat, vpn: nat)
  {
    && (forall v :: v in a.data <==> start <= v < vpn)
    && owned == owned0 + a.data
    && (forall v :: v in m <==> v in m0 || v in a.data)
    && (forall v :: v in m0 && v !in a.data ==> m[v] == m0[v])
    && (forall v :: v in a.data ==> a.data[v] < PPN_END && a.perm < 256 && m[v] == PageEntry(a, v))
  }

  lemma PartialStart(m: map<nat, u64>, owned: map<nat, nat>, a: MapArea, start: nat)
    requires a.data == map[]
    ensures Partial(m, m, owned, owned, a, start, start)
  {
  }

  lemma PartialStep(m0: map<nat, u64>, m: map<nat, u64>, owned0: map<nat, nat>, owned: map<nat, nat>, a: MapArea,
      start: nat, vpn: nat, f: nat)
    requires Partial(m0, m, owned0, owned, a, start, vpn) && start <= vpn && vpn !in m0 && f < PPN_END && a.perm < 256
    ensures var a' := a.(data := a.data[vpn := f]);
      Partial(m0, m[vpn := PageEntry(a', vpn)], owned0, owned[vpn := f], a', start, vpn + 1)
  {
    hide Pte;
  }

  /** What was handed out before is still handed out. */
  lemma GrownAlloc(pages: seq<Page>, alloc: set<nat>, tables: set<nat>, own: set<nat>,
      pages': seq<Page>, alloc': set<nat>, tables': set<nat>, own': set<nat>)
    requires OwnStep(pages, alloc, tables, own, pages', alloc', tables', own')
    ensures alloc <= alloc' && |pages'| == |pages|
  {
  }

  ghost function FramesBelow(a: MapArea, v: nat): set<nat>
  {
    set w | w in a.data && w < v :: a.data[w]
  }

  lemma BelowStep(a: MapArea, v: nat)
    ensures FramesBelow(a, v + 1) == FramesBelow(a, v) + if v in a.data then {a.data[v]} else {}
  {
  }

  lemma PartialOwned(m0: map<nat, u64>, m: map<nat, u64>, owned0: map<nat, nat>, owned: map<nat, nat>, a: MapArea,
      vpn: nat)
    requires Partial(m0, m, owned0, owned, a, a.start, vpn)
    ensures forall v :: v in a.data <==> a.start <= v < vpn
    ensures forall w :: w in a.data ==> w in owned && owned[w] == a.data[w] && w in m
  {
  }

  lemma NothingMapped(m0: map<nat, u64>, m: map<nat, u64>, owned0: map<nat, nat>, owned: map<nat, nat>, a: MapArea)
    requires Partial(m0, m, owned0, owned, a, a.start, a.start)
    ensures m == m0 && owned == owned0
  {
    assert a.data == map[];
  }

  lemma StrayPage(m: map<nat, u64>, areas: seq<MapArea>, owned: map<nat, nat>, tramp: u64, v: nat)
    requires v in m && v !in owned && v != TRAMPOLINE_VPN
    ensures !AreasOk(m, areas, owned, tramp)
  {
  }

  lemma DistinctFrames(alloc: set<nat>, tables: set<nat>, owned: map<nat, nat>, a: MapArea)
    requires FramesOk(alloc, tables, owned)
    requires forall w :: w in a.data ==> w in owned && owned[w] == a.data[w]
    ensures a.data.Values <= alloc && |a.data.Values| == |a.data|
  {
    forall w | w in a.data
      ensures a.data[w] in owned.Values
    {
      assert owned[w] in owned.Values;
    }
    AsManyValues(a.data);
  }

  lemma AreaFrames(alloc: set<nat>, tables: set<nat>, owned: map<nat, nat>, a: MapArea, vpn: nat)
    requires FramesOk(alloc, tables, owned) && a.start <= vpn
    requires forall w :: w in a.data ==> w in owned && owned[w] == a.data[w]
    requires forall w :: w in a.data <==> a.start <= w < vpn
    ensures |alloc - a.data.Values| == |alloc| - (vpn - a.start)
  {
    DistinctFrames(alloc, tables, owned, a);
    LessSize(alloc, a.data.Values);
    assert a.data.Keys == Interval(a.start, vpn);
  }

  lemma SeparateFrames(alloc: set<nat>, tables: set<nat>, owned: map<nat, nat>, a: MapArea, v: nat)
    requires FramesOk(alloc, tables, owned) && v in a.data
    requires forall w :: w in a.data ==> w in owned && owned[w] == a.data[w]
    ensures a.data[v] in alloc
    ensures forall w :: w in a.data && w != v ==> a.data[w] != a.data[v]
  {
    assert owned[v] in owned.Values;
  }

  lemma DanglingIs(m0: map<nat, u64>, m: map<nat, u64>, owned0: map<nat, nat>, owned: map<nat, nat>, a: MapArea,
      vpn: nat, alloc: set<nat>)
    requires Partial(m0, m, owned0, owned, a, a.start, vpn)
    requires forall v :: a.start <= v < vpn ==> v !in m0
    requires a.start <= vpn && alloc !! a.data.Values
    ensures Dangling(m0, m, alloc, a.start, vpn - a.start)
  {
    forall v | a.start <= v < vpn
      ensures PtePpn(m[v]) !in alloc
    {
      assert v in a.data;
      assert a.data[v] < PPN_END && a.perm < 256;
      assert m[v] == PageEntry(a, v) && a.data[v] in a.data.Values;
      PteRoundTrip(a.data[v], WithV(a.perm));
    }
  }

  /** Entries left in the table whose frames have gone back to the allocator. */
  ghost predicate Dangling(m0: map<nat, u64>, m: map<nat, u64>, alloc: set<nat>, start: nat, done: nat)
  {
    && (forall v :: v in m <==> v in m0 || start <= v < start + done)
    && (forall v :: v in m0 ==> m[v] == m0[v])
    && (forall v :: start <= v < start + done ==> PtePpn(m[v]) !in alloc)
  }

  lemma OwnedAllocated(alloc: set<nat>, tables: set<nat>, owned: map<nat, nat>)
    requires FramesOk(alloc, tables, owned)
    ensures owned.Values <= alloc && tables <= alloc && owned.Values !! tables
  {
  }

  lemma AllocatedBound(mem: FrameAllocator)
    requires mem.Valid()
    ensures |mem.pages| <= PPN_END
  {
  }

  lemma FitArea(m: map<nat, u64>, areas: seq<MapArea>, a: MapArea, owned: map<nat, nat>, tramp: u64)
    requires AreasOk(m, areas + [a], owned, tramp)
    ensures a.Fit()
  {
    assert (areas + [a])[|areas|] == a;
  }

  lemma OwnedAreMapped(m: map<nat, u64>, areas: seq<MapArea>, owned: map<nat, nat>, tramp: u64)
    requires AreasOk(m, areas, owned, tramp)
    ensures TRAMPOLINE_VPN in m && forall v :: v in m <==> v in owned || v == TRAMPOLINE_VPN
  {
  }

  lemma PagesInOwned(m: map<nat, u64>, areas: seq<MapArea>, owned: map<nat, nat>, tramp: u64, v: nat)
    requires AreasOk(m, areas, owned, tramp)
    ensures v in m <==> v in owned || v == TRAMPOLINE_VPN
  {
  }

  lemma SomeFree(pt: PageTable)
    requires pt.Valid()
    ensures pt.mem.FreeCount() >= 0
  {
  }

  lemma TableOwned(pt: PageTable)
    requires pt.Valid()
    ensures pt.mem.Valid() && Tables(pt.tree) <= pt.mem.Allocated()
  {
  }

  /** A page table does not notice that frames nobody had are handed out. */
  twostate lemma AllocKeeps(pt: PageTable)
    requires old(pt.Valid()) && unchanged(pt) && pt.mem.Valid() && |pt.mem.pages| == |old(pt.mem.pages)|
    requires old(pt.mem.Allocated()) <= pt.mem.Allocated()
    requires forall p :: p in old(pt.mem.Allocated()) && p < |pt.mem.pages| ==> pt.mem.pages[p] == old(pt.mem.pages)[p]
    ensures pt.Valid() && pt.Mapping() == old(pt.Mapping())
  {
    hide MappingOf, TreeInv, FrameAllocator.Allocated, FrameAllocator.Valid, NoRepeats, Elements;
    SameTables(old(pt.mem.pages), pt.mem.pages, pt.root, pt.tree);
  }

  lemma OneTable(root: nat)
    ensures Tables(map[[] := root]) == {root}
  {
    var t: Tree := map[[] := root];
    assert t[[]] == root;
  }
}
