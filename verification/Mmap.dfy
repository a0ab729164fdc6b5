/** `sys_mmap` and `sys_munmap` (os/src/syscall/memory.rs), as the program sees them. */
module Mmap {
  import opened Words
  import opened Sets
  import opened Frames
  import opened PageTables
  import opened UserBuffers
  import opened MemorySets
  import opened AreaLists
  import opened UserMappings

  /** What a call does: it returns, the kernel panics, or it runs out of frames (`mmap`
      then also returns -1, after logging the error). */
  datatype Outcome = Return(code: int) | OutOfFrames | Panic

  /** A page as its program sees it: the flags of its entry and its bytes. */
  datatype UserPage = UserPage(flags: nat, bytes: Page)

  ghost function ViewOf(pages: seq<Page>, m: map<nat, u64>, owned: map<nat, nat>): map<nat, UserPage>
  {
    map v | v in owned && v in m && owned[v] < |pages| :: UserPage(PteFlags(m[v]), pages[owned[v]])
  }

  ghost function View(ms: MemorySet): map<nat, UserPage>
    reads ms, ms.pageTable, ms.mem
  {
    ViewOf(ms.mem.pages, ms.Mapping(), ms.owned)
  }

  /** Length rounded up to whole pages, in 64-bit wrapping arithmetic. */
  function RoundUp(len: u64): u64 { (len + 4095) % TWO64 / 4096 * 4096 }

  function StartVa(start: u64): nat { VirtAddr(start) }

  function EndVa(start: u64, len: u64): nat { VirtAddr((start + RoundUp(len)) % TWO64) }

  /** The pages [First, Last) a call is about. */
  function First(start: u64): nat { Floor(StartVa(start)) }

  function Last(start: u64, len: u64): nat { Ceil(EndVa(start, len)) }

  /** The least multiple of the page size that holds the length; 0 where the sum wraps. */
  lemma RoundUpIs(len: u64)
    ensures RoundUp(len) % 4096 == 0
    ensures if len + 4095 < TWO64 then len <= RoundUp(len) < len + 4096 else RoundUp(len) == 0
  {
  }

  /** In addresses, where nothing wraps: the pages a call is about are those that begin in
      [start, start + len), and every address of that range lies in one of them. */
  lemma PageOfRange(start: u64, len: u64, v: nat)
    requires start % 4096 == 0 && start + len + 4095 < VA_END
    ensures First(start) <= Last(start, len) <= TRAMPOLINE_VPN
    ensures First(start) <= v < Last(start, len) <==> start <= v * 4096 < start + len
  {
    hide RoundUp, VirtAddr;
    RoundUpIs(len);
    NoWrap(start);
    NoWrap(start + RoundUp(len));
    WholePages(start, RoundUp(len), v);
  }

  lemma NoWrap(a: nat)
    requires a < VA_END
    ensures a % TWO64 == a && VirtAddr(a) == a
  {
  }

  lemma WholePages(start: nat, size: nat, v: nat)
    requires start % 4096 == 0 && size % 4096 == 0
    ensures (start + size) % 4096 == 0 && Ceil(start + size) * 4096 == start + size && Floor(start) * 4096 == start
    ensures Floor(start) <= v < Ceil(start + size) <==> start <= v * 4096 < start + size
  {
  }

  predicate BadArguments(start: u64, prot: u64) { start % 4096 != 0 || prot == 0 || prot > 7 }

  ghost function ZeroPages(lo: nat, hi: nat, flags: nat): map<nat, UserPage>
    requires lo <= hi
  {
    map v | v in Interval(lo, hi) :: UserPage(flags, ZeroPage())
  }

  lemma ViewGrows(m0: map<nat, u64>, m: map<nat, u64>, owned0: map<nat, nat>, owned: map<nat, nat>, a: MapArea,
      pages: seq<Page>, alloc: set<nat>, tables: set<nat>, pages': seq<Page>, alloc': set<nat>, tables': set<nat>)
    requires a.start <= a.end && Partial(m0, m, owned0, owned, a, a.start, a.end) && FramesOk(alloc, tables, owned0)
    requires OwnStep(pages, alloc, tables, owned0.Values, pages', alloc', tables', owned.Values)
    requires FreshZeros(pages', alloc, a) && forall v :: a.start <= v < a.end ==> v !in m0
    requires forall v :: v in owned0 ==> v in m0
    ensures ViewOf(pages', m, owned) == ViewOf(pages, m0, owned0) + ZeroPages(a.start, a.end, WithV(a.perm))
  {
    hide Pte, WithV, PteFlags, ViewOf, ZeroPage;
    forall v | v in a.data
      ensures v in m && PteFlags(m[v]) == WithV(a.perm) && v in owned && owned[v] == a.data[v]
    {
      assert m[v] == PageEntry(a, v);
      PteRoundTrip(a.data[v], WithV(a.perm));
    }
    forall v | v in owned && v !in a.data
      ensures v in owned0 && v in m && owned[v] == owned0[v] && m[v] == m0[v]
      ensures owned[v] < |pages| ==> pages'[owned[v]] == pages[owned[v]]
    {
      assert owned0[v] in owned0.Values;
    }
    ViewsJoin(m0, m, owned0, owned, a, pages, pages', WithV(a.perm));
  }

  lemma ViewsJoin(m0: map<nat, u64>, m: map<nat, u64>, owned0: map<nat, nat>, owned: map<nat, nat>, a: MapArea,
      pages: seq<Page>, pages': seq<Page>, flags: nat)
    requires owned == owned0 + a.data && |pages| == |pages'| && a.start <= a.end
    requires forall v :: v in a.data <==> a.start <= v < a.end
    requires forall v :: v in a.data ==> v in m && PteFlags(m[v]) == flags && ZeroFrame(pages', a.data[v])
    requires forall v :: v in owned0 ==> v in m0
    requires forall v :: v in owned && v !in a.data ==> v in m && m[v] == m0[v] && (owned[v] < |pages| ==> pages'[owned[v]] == pages[owned[v]])
    ensures ViewOf(pages', m, owned) == ViewOf(pages, m0, owned0) + ZeroPages(a.start, a.end, flags)
  {
    hide PteFlags, ZeroPage;
  }

  lemma ViewShrinks(pages: seq<Page>, pages': seq<Page>, m: map<nat, u64>, owned: map<nat, nat>, alloc: set<nat>,
      tables: set<nat>, lo: nat, hi: nat)
    requires FramesOk(alloc, tables, owned) && |pages'| == |pages|
    requires forall p :: 0 <= p < |pages| && p !in tables ==> pages'[p] == pages[p]
    ensures ViewOf(pages', Outside(m, lo, hi), Outside(owned, lo, hi)) == Outside(ViewOf(pages, m, owned), lo, hi)
  {
    hide PteFlags;
    forall v | v in owned && owned[v] < |pages|
      ensures pages'[owned[v]] == pages[owned[v]]
    {
      assert owned[v] in owned.Values;
    }
  }

  /** The entry of page v points at the page's frame with these permissions. */
  ghost predicate EntryIs(m: map<nat, u64>, owned: map<nat, nat>, v: nat, perm: nat)
  {
    && v in owned && owned[v] < PPN_END && perm < 32
    && v in m && m[v] == Pte(owned[v], WithV(perm))
  }

  /** The list got one area more, complete from the start. */
  ghost predicate NewArea(was: seq<MapArea>, now: seq<MapArea>, a: MapArea, lo: nat, hi: nat, perm: nat)
    requires lo <= hi
  {
    now == was + [a] && a.start == lo && a.end == hi && a.perm == perm && a.data.Keys == Interval(lo, hi)
  }

  /** What mmap answers, from the pages mapped, the tables there and the free frames. */
  ghost function MmapReply(mapped: set<nat>, keys: set<seq<nat>>, free: int, start: u64, len: u64, prot: u64): Outcome
  {
    if BadArguments(start, prot) then Return(-1)
    else if First(start) > Last(start, len) then Panic
    else if exists v :: First(start) <= v < Last(start, len) && v in mapped then Return(-1)
    else Inserted(Insertion(keys, free, First(start), Last(start, len)))
  }

  function Inserted(r: MapResult): Outcome
  {
    match r
    case Mapped => Return(0)
    case NoSpace => OutOfFrames
    case Panicked => Panic
  }

  /** mmap took effect: the pages [lo, hi) are new, zeroed and accessible as asked, in one
      new area; exactly the missing tables were made; nothing else changed for this
      program, and nothing at all for others. */
  twostate predicate Added(ms: MemorySet, lo: nat, hi: nat, perm: nat)
    reads ms, ms.pageTable, ms.mem
  {
    && lo <= hi && ms.Valid() && ms.OnlyOwn()
    && View(ms) == old(View(ms)) + ZeroPages(lo, hi, WithV(perm))
    && Interval(lo, hi) !! old(ms.Mapping()).Keys
    && (forall v :: lo <= v < hi ==> v in ms.owned && ms.owned[v] !in old(ms.mem.Allocated()))
    && (forall v :: lo <= v < hi ==> EntryIs(ms.Mapping(), ms.owned, v, perm))
    && ms.pageTable.tree.Keys == old(ms.pageTable.tree).Keys + Paths(lo, hi)
    && ms.mem.FreeCount() == old(ms.mem.FreeCount()) - Need(old(ms.pageTable.tree).Keys, lo, hi)
    && |ms.areas| > 0 && NewArea(old(ms.areas), ms.areas, ms.areas[|ms.areas| - 1], lo, hi, perm)
  }

  /** mmap ran out of frames after `stray` pages: areas and owned frames are as before, but
      those entries stay, pointing at frames that are free again. The space is sound if and
      only if no frame was free to begin with, and then nothing has changed. */
  twostate predicate CutShort(ms: MemorySet, lo: nat, hi: nat, stray: nat)
    reads ms, ms.pageTable, ms.mem
  {
    && ms.areas == old(ms.areas) && ms.owned == old(ms.owned)
    && stray < hi - lo && Need(old(ms.pageTable.tree).Keys, lo, lo + stray) == old(ms.mem.FreeCount())
    && Dangling(old(ms.Mapping()), ms.Mapping(), ms.mem.Allocated(), lo, stray) && ms.mem.FreeCount() == stray
    && (ms.Valid() <==> old(ms.mem.FreeCount()) == 0)
    && (old(ms.mem.FreeCount()) == 0 ==> unchanged(ms) && unchanged(ms.pageTable) && unchanged(ms.mem))
  }

  /** `insert_framed_area`, in terms of what the program sees. */
  method InsertZeroed(ms: MemorySet, lo: nat, hi: nat, perm: nat) returns (r: Outcome, ghost stray: nat)
    requires ms.Valid() && lo <= hi <= VPN_END && perm % 2 == 0 && perm < 32
    requires forall v :: lo <= v < hi ==> v !in ms.Mapping()
    modifies ms, ms.pageTable, ms.mem
    ensures r == Inserted(Insertion(old(ms.pageTable.tree).Keys, old(ms.mem.FreeCount()), lo, hi))
    ensures r == Return(0) ==> Added(ms, lo, hi, perm)
    ensures r == OutOfFrames ==> CutShort(ms, lo, hi, stray)
  {
    hide AreasOk, FramesOk, MappingOf, FrameAllocator.Allocated, FrameAllocator.FreeCount, FrameAllocator.Valid,
      PageTable.Valid, Tables, ViewOf, OwnStep, Partial, WithV, Dangling, ZeroPages, EntryIs, FreshZeros, Pte, Paths,
      Need, Insertion;
    ghost var m0, owned0, areas0 := ms.Mapping(), ms.owned, ms.areas;
    ghost var pages0, alloc0, tables0 := ms.mem.pages, ms.mem.Allocated(), Tables(ms.pageTable.tree);
    OwnedAreMapped(m0, areas0 + [], owned0, ms.tramp);
    var inserted;
    inserted, stray := ms.InsertFramedArea(lo, hi, perm);
    match inserted
    case Mapped =>
      var a := ms.areas[|ms.areas| - 1];
      assert NewArea(areas0, ms.areas, a, lo, hi, perm) by {
        assert ms.areas == ms.areas[..|areas0|] + [a];
        AreaPages(m0, ms.Mapping(), owned0, ms.owned, a);
      }
      NewFrames(m0, ms.Mapping(), owned0, ms.owned, a, alloc0, ms.mem.pages);
      ViewGrows(m0, ms.Mapping(), owned0, ms.owned, a, pages0, alloc0, tables0, ms.mem.pages, ms.mem.Allocated(),
        Tables(ms.pageTable.tree));
      return Return(0), 0;
    case NoSpace =>
      return OutOfFrames, stray;
    case Panicked =>
      return Panic, 0;
  }

  /** The first loop of `sys_mmap`. */
  method SomeMapped(ms: MemorySet, lo: nat, hi: nat) returns (busy: bool)
    requires ms.Valid() && lo <= hi <= VPN_END
    ensures busy <==> exists v :: lo <= v < hi && v in ms.Mapping()
  {
    hide AreasOk, FramesOk, MappingOf, PageTable.Valid;
    var vpn := lo;
    while vpn < hi
      invariant lo <= vpn <= hi && forall v :: lo <= v < vpn ==> v !in ms.Mapping()
    {
      var pte := ms.pageTable.Translate(vpn);
      if pte.Some? {
        assert vpn in ms.Mapping();
        return true;
      }
      vpn := vpn + 1;
    }
    busy := false;
  }

  /** The U bit and the three bits asked for, each moved one place up. */
  method Permission(prot: u64) returns (perm: nat)
    requires prot <= 7
    ensures perm == 16 + 2 * prot
  {
    perm := 16;
    if prot % 2 != 0 { perm := perm + 2; }
    if prot / 2 % 2 != 0 { perm := perm + 4; }
    if prot / 4 % 2 != 0 { perm := perm + 8; }
  }

  /** User accesses to the pages [lo, hi) go where the kernel's walk says, unless writing
      was asked for without reading: then the kernel translates and the hardware faults. */
  ghost predicate HardwareSees(ms: MemorySet, lo: nat, hi: nat, prot: nat)
    reads ms, ms.pageTable, ms.mem
  {
    forall a: u64 :: Canonical(a) && lo <= Floor(VirtAddr(a)) < hi ==>
      && TranslateVa(ms.mem.pages, ms.pageTable.root, a).Some?
      && HwTranslate(ms.mem.pages, ms.pageTable.root, a) ==
         if prot == 2 || prot == 6 then None else TranslateVa(ms.mem.pages, ms.pageTable.root, a)
  }

  lemma ForHardware(ms: MemorySet, lo: nat, hi: nat, prot: nat, perm: nat)
    requires ms.Valid() && 1 <= prot <= 7 && perm == U + 2 * prot
    requires forall v :: lo <= v < hi ==> EntryIs(ms.Mapping(), ms.owned, v, perm)
    ensures HardwareSees(ms, lo, hi, prot)
  {
    hide AreasOk, FramesOk, Pte, WithV, HwTranslate, Walk, LeafOk, TreeInv, NoRepeats, Elements, Floor, VirtAddr;
    forall a: u64 | Canonical(a) && lo <= Floor(VirtAddr(a)) < hi
      ensures TranslateVa(ms.mem.pages, ms.pageTable.root, a).Some?
      ensures HwTranslate(ms.mem.pages, ms.pageTable.root, a) ==
        if prot == 2 || prot == 6 then None else TranslateVa(ms.mem.pages, ms.pageTable.root, a)
    {
      var v := Floor(VirtAddr(a));
      SoftwareIsStandard(ms.mem.pages, ms.pageTable.root, ms.pageTable.tree, a);
      assert EntryIs(ms.Mapping(), ms.owned, v, perm);
      WriteNeedsRead(ms.owned[v], prot);
    }
  }

  /** The pages of the range, and in each of them every address. */
  lemma RangeAddresses(pages: set<nat>, start: u64, len: u64)
    requires start % 4096 == 0
    requires forall v: nat :: start <= v * 4096 < start + len ==> v in pages
    ensures forall a: nat :: start <= a < start + len ==> Floor(a) in pages
  {
    forall a: nat | start <= a < start + len
      ensures Floor(a) in pages
    {
      assert start <= Floor(a) * 4096 < start + len;
    }
  }

  lemma ZeroPagesAre(lo: nat, hi: nat, flags: nat)
    requires lo <= hi
    ensures ZeroPages(lo, hi, flags).Keys == Interval(lo, hi)
    ensures forall v :: v in ZeroPages(lo, hi, flags) ==>
      ZeroPages(lo, hi, flags)[v].flags == flags && forall k :: 0 <= k < 4096 ==> ZeroPages(lo, hi, flags)[v].bytes[k] == 0
  {
  }

  /** Where nothing wraps the pages a call adds are exactly those that begin in
      [start, start + len), and all of the range can be reached. */
  lemma AddedInAddresses(before: set<nat>, after: set<nat>, start: u64, len: u64)
    requires start % 4096 == 0 && start + len + 4095 < VA_END && First(start) <= Last(start, len)
    requires after == before + Interval(First(start), Last(start, len)) && Interval(First(start), Last(start, len)) !! before
    ensures forall v: nat :: v in after && v !in before <==> start <= v * 4096 < start + len
    ensures forall a: nat :: start <= a < start + len ==> Floor(a) in after
  {
    hide First, Last, Floor;
    forall v: nat
      ensures v in after && v !in before <==> start <= v * 4096 < start + len
    {
      PageOfRange(start, len, v);
    }
    RangeAddresses(after, start, len);
  }

  /** When it refuses, likewise. */
  lemma RefusalInAddresses(mapped: set<nat>, keys: set<seq<nat>>, free: int, start: u64, len: u64, prot: u64)
    requires start + len + 4095 < VA_END
    ensures MmapReply(mapped, keys, free, start, len, prot) == Return(-1) <==>
      start % 4096 != 0 || prot == 0 || prot > 7 || exists v :: v in mapped && start <= v * 4096 < start + len
  {
    hide First, Last, Insertion;
    if start % 4096 == 0 {
      PageOfRange(start, len, 0);
      forall v: nat
        ensures First(start) <= v < Last(start, len) <==> start <= v * 4096 < start + len
      {
        PageOfRange(start, len, v);
      }
      if v :| First(start) <= v < Last(start, len) && v in mapped {
        assert v in mapped && start <= v * 4096 < start + len;
      }
    }
  }

  lemma ComputedRange(start: u64, len: u64)
    ensures First(start) == Floor(VirtAddr(start)) <= VPN_END
    ensures Last(start, len) == Ceil(VirtAddr((start + (len + 4095) % TWO64 / 4096 * 4096) % TWO64)) <= VPN_END
  {
  }

  /** `sys_mmap` in pages. */
  method MmapPages(ms: MemorySet, start: u64, len: u64, prot: u64) returns (r: Outcome, ghost stray: nat)
    requires ms.Valid()
    modifies ms, ms.pageTable, ms.mem
    ensures r == MmapReply(old(ms.Mapping()).Keys, old(ms.pageTable.tree).Keys, old(ms.mem.FreeCount()), start, len, prot)
    ensures r.Return? ==> r.code == 0 || r.code == -1
    ensures r == Return(-1) ==> unchanged(ms) && unchanged(ms.pageTable) && unchanged(ms.mem)
    ensures r == Return(0) ==> !BadArguments(start, prot) && First(start) <= Last(start, len)
    ensures r == Return(0) ==> Added(ms, First(start), Last(start, len), U + 2 * prot)
    ensures r == Return(0) ==> HardwareSees(ms, First(start), Last(start, len), prot)
    ensures r == OutOfFrames ==> !BadArguments(start, prot) && CutShort(ms, First(start), Last(start, len), stray)
  {
    hide AreasOk, FramesOk, MappingOf, FrameAllocator.Allocated, FrameAllocator.FreeCount, FrameAllocator.Valid,
      PageTable.Valid, Tables, ViewOf, OwnStep, Partial, WithV, NewArea, ZeroPages, EntryIs, Insertion, Need, Paths,
      HardwareSees, Dangling, First, Last, Floor, Ceil, VirtAddr;
    stray := 0;
    ComputedRange(start, len);
    if start % 4096 != 0 || prot / 8 != 0 || prot % 8 == 0 {
      return Return(-1), 0;
    }
    var rounded := (len + 4095) % TWO64 / 4096 * 4096;
    var endVa := VirtAddr((start + rounded) % TWO64);
    var startVpn, endVpn := Floor(VirtAddr(start)), Ceil(endVa);
    if startVpn > endVpn {
      return Panic, 0;
    }
    var busy := SomeMapped(ms, startVpn, endVpn);
    if busy {
      return Return(-1), 0;
    }
    var perm := Permission(prot);
    r, stray := InsertZeroed(ms, startVpn, endVpn, perm);
    if r == Return(0) {
      ForHardware(ms, startVpn, endVpn, prot, perm);
    }
  }

  /** `sys_mmap`, in addresses as well: where nothing wraps it adds exactly the pages that
      begin in [start, start + len), all of the range can be reached after it, and it
      refuses exactly bad arguments and a range with a page that is mapped. */
  method SysMmap(ms: MemorySet, start: u64, len: u64, prot: u64) returns (r: Outcome, ghost stray: nat)
    requires ms.Valid()
    modifies ms, ms.pageTable, ms.mem
    ensures r == MmapReply(old(ms.Mapping()).Keys, old(ms.pageTable.tree).Keys, old(ms.mem.FreeCount()), start, len, prot)
    ensures r.Return? ==> r.code == 0 || r.code == -1
    ensures r == Return(-1) ==> unchanged(ms) && unchanged(ms.pageTable) && unchanged(ms.mem)
    ensures r == Return(0) ==> !BadArguments(start, prot) && First(start) <= Last(start, len)
    ensures r == Return(0) ==> Added(ms, First(start), Last(start, len), U + 2 * prot)
    ensures r == Return(0) ==> HardwareSees(ms, First(start), Last(start, len), prot)
    ensures r == OutOfFrames ==> !BadArguments(start, prot) && CutShort(ms, First(start), Last(start, len), stray)
    ensures r == Return(0) ==> forall v :: v in View(ms) && v !in old(View(ms)) ==>
      View(ms)[v].flags == 17 + 2 * prot && forall k :: 0 <= k < 4096 ==> View(ms)[v].bytes[k] == 0
    ensures r == Return(0) && start + len + 4095 < VA_END ==>
      forall v: nat :: v in View(ms) && v !in old(View(ms)) <==> start <= v * 4096 < start + len
    ensures r == Return(0) && start + len + 4095 < VA_END ==> forall a: nat :: start <= a < start + len ==> Floor(a) in View(ms)
    ensures start + len + 4095 < VA_END ==>
      (r == Return(-1) <==> start % 4096 != 0 || prot == 0 || prot > 7 || exists v :: v in old(ms.Mapping()) && start <= v * 4096 < start + len)
  {
    hide MemorySet.Valid, MemorySet.Mapping, View, FrameAllocator.FreeCount, MmapReply, CutShort, HardwareSees, First, Last, Floor,
      ZeroPages, WithV;
    ghost var mapped, view0 := ms.Mapping().Keys, View(ms);
    OwnIsMapped(ms);
    if start + len + 4095 < VA_END {
      RefusalInAddresses(mapped, ms.pageTable.tree.Keys, ms.mem.FreeCount(), start, len, prot);
    }
    r, stray := MmapPages(ms, start, len, prot);
    if r == Return(0) {
      ZeroPagesAre(First(start), Last(start, len), WithV(U + 2 * prot));
      AllFlags(prot);
      if start + len + 4095 < VA_END {
        AddedInAddresses(view0.Keys, View(ms).Keys, start, len);
      }
    }
  }

  lemma OwnIsMapped(ms: MemorySet)
    requires ms.Valid()
    ensures View(ms).Keys <= ms.Mapping().Keys
  {
    hide MemorySet.Valid, MemorySet.Mapping;
  }

  lemma AllFlags(prot: u64)
    requires prot <= 7
    ensures WithV(U + 2 * prot) == 17 + 2 * prot
  {
  }

  lemma PagesLowAndHigh()
    ensures Need(BarePaths(), 0, 1) == 3
  {
    assert Path1(0) == [0] && Path2(0) == [0, 0];
    assert Path1(TRAMPOLINE_VPN) == [511] && Path2(TRAMPOLINE_VPN) == [511, 511];
    assert Paths(0, 1) == {[0], [0, 0]} && Paths(0, 1) - BarePaths() == Paths(0, 1);
  }

  /** Two pages asked for at address 0 of a bare space, with three frames left. */
  lemma ThreeFramesLeft()
    ensures First(0) == 0 && Last(0, 8192) == 2
    ensures MmapReply({TRAMPOLINE_VPN}, BarePaths(), 3, 0, 8192, 1) == OutOfFrames
  {
    hide Need, BarePaths, Insertion;
    PagesLowAndHigh();
    BreaksOffAt(BarePaths(), 0, 1, 2);
  }

  lemma StrayAt(m0: map<nat, u64>, m: map<nat, u64>, alloc: set<nat>, lo: nat, stray: nat)
    requires Dangling(m0, m, alloc, lo, stray) && stray > 0
    ensures lo in m && PtePpn(m[lo]) !in alloc
  {
  }

  /** A call that runs out of frames half way leaves an entry to a free frame. */
  method TwoPages(ms: MemorySet) returns (r: Outcome)
    requires ms.Valid() && ms.Mapping().Keys == {TRAMPOLINE_VPN}
    requires ms.pageTable.tree.Keys == BarePaths() && ms.mem.FreeCount() == 3
    modifies ms, ms.pageTable, ms.mem
    ensures r == OutOfFrames && !ms.Valid() && 0 in ms.Mapping() && PtePpn(ms.Mapping()[0]) !in ms.mem.Allocated()
  {
    hide MemorySet.Valid, MemorySet.Mapping, FrameAllocator.Allocated, FrameAllocator.Valid, FrameAllocator.FreeCount,
      Need, BarePaths, PtePpn, Added, HardwareSees, MmapReply, First, Last, Dangling;
    ThreeFramesLeft();
    ghost var m0, stray := ms.Mapping(), 0;
    r, stray := SysMmap(ms, 0, 8192, 1);
    NeedSome(BarePaths(), 0, stray);
    StrayAt(m0, ms.Mapping(), ms.mem.Allocated(), 0, stray);
  }

  /** It does happen: with six frames, a new space and a call for two pages, the first page
      and its tables take the last frame, and the space is not sound afterwards. */
  method CallCutShort() returns (ms: MemorySet, r: Outcome)
    ensures r == OutOfFrames && !ms.Valid() && 0 in ms.Mapping() && PtePpn(ms.Mapping()[0]) !in ms.mem.Allocated()
  {
    hide MemorySet.Valid, MemorySet.Mapping, FrameAllocator.Allocated, FrameAllocator.Valid, FrameAllocator.FreeCount,
      BarePaths, Pte, PtePpn, ZeroPage;
    var mem := new FrameAllocator(seq(6, _ => ZeroPage()), 0, 6);
    BareSize();
    ms := new MemorySet(mem, 0);
    r := TwoPages(ms);
  }

  lemma NewFrames(m0: map<nat, u64>, m: map<nat, u64>, owned0: map<nat, nat>, owned: map<nat, nat>, a: MapArea,
      alloc: set<nat>, pages: seq<Page>)
    requires Partial(m0, m, owned0, owned, a, a.start, a.end) && a.perm < 32
    requires FreshZeros(pages, alloc, a)
    ensures forall v :: a.start <= v < a.end ==> v in owned && owned[v] !in alloc
    ensures forall v :: a.start <= v < a.end ==> EntryIs(m, owned, v, a.perm)
  {
    hide Pte, WithV, ZeroPage;
    forall v | a.start <= v < a.end
      ensures v in owned && owned[v] !in alloc && EntryIs(m, owned, v, a.perm)
    {
      assert v in a.data;
      assert m[v] == PageEntry(a, v);
    }
  }

  lemma AreaPages(m0: map<nat, u64>, m: map<nat, u64>, owned0: map<nat, nat>, owned: map<nat, nat>, a: MapArea)
    requires Partial(m0, m, owned0, owned, a, a.start, a.end) && a.start <= a.end
    ensures a.data.Keys == Interval(a.start, a.end)
  {
  }

  /** `sys_munmap` in pages. */
  method MunmapPages(ms: MemorySet, start: u64, len: u64) returns (r: Outcome)
    requires ms.Valid()
    modifies ms`areas, ms`owned, ms.mem
    ensures r != Return(0) ==> unchanged(ms) && unchanged(ms.mem)
    ensures r == Panic <==> start % 4096 == 0 && First(start) > Last(start, len)
    ensures r != OutOfFrames
    ensures r == Return(0) <==> (start % 4096 == 0 && First(start) <= Last(start, len)
      && forall v :: First(start) <= v < Last(start, len) ==> v in old(ms.owned))
    ensures r.Return? ==> r.code == 0 || r.code == -1
    ensures r == Return(0) ==> Removed(ms, First(start), Last(start, len))
    ensures r == Return(0) ==> View(ms) == Outside(old(View(ms)), First(start), Last(start, len))
  {
    hide AreasOk, FramesOk, MappingOf, FrameAllocator.Allocated, FrameAllocator.FreeCount, FrameAllocator.Valid,
      PageTable.Valid, Tables, ViewOf, Outside, FramesIn, First, Last, Floor, Ceil, VirtAddr;
    ComputedRange(start, len);
    if start % 4096 != 0 {
      return Return(-1);
    }
    var rounded := (len + 4095) % TWO64 / 4096 * 4096;
    var endVa := VirtAddr((start + rounded) % TWO64);
    var startVpn, endVpn := Floor(VirtAddr(start)), Ceil(endVa);
    if startVpn > endVpn {
      return Panic;
    }
    ghost var m0, owned0, areas0 := ms.Mapping(), ms.owned, ms.areas;
    ghost var pages0, alloc0, tables0 := ms.mem.pages, ms.mem.Allocated(), Tables(ms.pageTable.tree);
    assert areas0 + [] == areas0;
    OwnedAreMapped(m0, areas0, owned0, ms.tramp);
    AreasHold(m0, areas0, owned0, ms.tramp);
    var vpn := startVpn;
    while vpn < endVpn
      invariant startVpn <= vpn <= endVpn && forall v :: startVpn <= v < vpn ==> v in ms.Mapping()
      modifies {}
    {
      var pte := ms.pageTable.Translate(vpn);
      if pte == None {
        return Return(-1);
      }
      vpn := vpn + 1;
    }
    var code := RemoveMappedFrames(ms, VirtAddr(start), endVa);
    r := Return(code);
    if code == 0 {
      ViewShrinks(pages0, ms.mem.pages, m0, owned0, alloc0, tables0, startVpn, endVpn);
    }
  }

  /** Where nothing wraps: what is missing afterwards begins in [start, start + len). */
  lemma RemovedInAddresses(before: map<nat, UserPage>, after: map<nat, UserPage>, owned: set<nat>, start: u64, len: u64)
    requires start % 4096 == 0 && start + len + 4095 < VA_END && owned == before.Keys
    ensures First(start) <= Last(start, len)
    ensures (forall v :: First(start) <= v < Last(start, len) ==> v in owned) <==> (forall v: nat :: start <= v * 4096 < start + len ==> v in owned)
    ensures after == Outside(before, First(start), Last(start, len)) ==>
      forall v: nat :: v in after <==> v in before && !(start <= v * 4096 < start + len)
    ensures after == Outside(before, First(start), Last(start, len)) ==> forall v :: v in after ==> after[v] == before[v]
    ensures after == Outside(before, First(start), Last(start, len)) ==> forall a: nat :: start <= a < start + len ==> Floor(a) !in after
  {
    hide First, Last, Floor;
    PageOfRange(start, len, 0);
    forall v: nat
      ensures First(start) <= v < Last(start, len) <==> start <= v * 4096 < start + len
    {
      PageOfRange(start, len, v);
    }
    if after == Outside(before, First(start), Last(start, len)) {
      NoAddress(after.Keys, start, len);
    }
  }

  lemma NoAddress(pages: set<nat>, start: u64, len: u64)
    requires start % 4096 == 0 && forall v: nat :: v in pages ==> !(start <= v * 4096 < start + len)
    ensures forall a: nat :: start <= a < start + len ==> Floor(a) !in pages
  {
    forall a: nat | start <= a < start + len
      ensures Floor(a) !in pages
    {
      assert start <= Floor(a) * 4096 < start + len;
    }
  }

  /** The entry of an owned page points at its frame and carries its area's permissions. */
  lemma EntryIsOwned(m: map<nat, u64>, areas: seq<MapArea>, owned: map<nat, nat>, tramp: u64, v: nat)
    requires AreasOk(m, areas, owned, tramp) && v in owned
    ensures v < VPN_END && v in m && v != TRAMPOLINE_VPN && PtePpn(m[v]) == owned[v]
    ensures forall i :: 0 <= i < |areas| && v in areas[i].data ==> PteFlags(m[v]) == WithV(areas[i].perm)
  {
    hide Pte, WithV;
    assert InSomeArea(areas, v);
    forall i | 0 <= i < |areas| && v in areas[i].data
      ensures v < VPN_END && PtePpn(m[v]) == owned[v] && PteFlags(m[v]) == WithV(areas[i].perm)
    {
      assert AreaOk(m, areas[i], owned);
      assert PageOk(m, areas[i], owned, v);
      PteRoundTrip(owned[v], WithV(areas[i].perm));
    }
  }

  lemma OwnedFrame(ms: MemorySet, v: nat)
    requires ms.Valid() && v in ms.owned
    ensures v < VPN_END && v in ms.Mapping() && v != TRAMPOLINE_VPN && PtePpn(ms.Mapping()[v]) == ms.owned[v]
    ensures ms.owned[v] in ms.Footprint() && ms.owned[v] !in Tables(ms.pageTable.tree)
    ensures ms.owned[v] in ms.mem.Allocated() && ms.owned[v] < |ms.mem.pages|
  {
    hide MappingOf, AreasOk, PtePpn;
    assert ms.areas + [] == ms.areas;
    EntryIsOwned(ms.Mapping(), ms.areas, ms.owned, ms.tramp, v);
    assert ms.owned[v] in ms.owned.Values;
  }

  lemma BelowMemory(ms: MemorySet)
    requires ms.Valid()
    ensures forall v :: v in ms.owned ==> v in ms.Mapping() && ms.owned[v] < |ms.mem.pages|
  {
    forall v | v in ms.owned
      ensures v in ms.Mapping() && ms.owned[v] < |ms.mem.pages|
    {
      OwnedFrame(ms, v);
    }
  }

  /** What is mapped is what the program sees, and the trampoline. */
  lemma MappedPages(ms: MemorySet)
    requires ms.Valid()
    ensures forall v: nat :: v in ms.Mapping() <==> v in View(ms) || v == TRAMPOLINE_VPN
    ensures View(ms).Keys == ms.owned.Keys && TRAMPOLINE_VPN !in View(ms)
  {
    hide AreasOk, MappingOf, FrameAllocator.Allocated, FramesOk, PageTable.Valid;
    OwnedAreMapped(ms.Mapping(), ms.areas + [], ms.owned, ms.tramp);
    BelowMemory(ms);
    forall v | v in ms.owned
      ensures v != TRAMPOLINE_VPN
    {
      OwnedFrame(ms, v);
    }
  }

  /** `sys_munmap`, in addresses as well: where nothing wraps it succeeds exactly if every
      page that begins in [start, start + len) is owned; exactly those go, and no address of
      the range can be reached any more. */
  method SysMunmap(ms: MemorySet, start: u64, len: u64) returns (r: Outcome)
    requires ms.Valid()
    modifies ms`areas, ms`owned, ms.mem
    ensures r != Return(0) ==> unchanged(ms) && unchanged(ms.mem)
    ensures r == Panic <==> start % 4096 == 0 && First(start) > Last(start, len)
    ensures r != OutOfFrames
    ensures r == Return(0) <==> (start % 4096 == 0 && First(start) <= Last(start, len)
      && forall v :: First(start) <= v < Last(start, len) ==> v in old(ms.owned))
    ensures r.Return? ==> r.code == 0 || r.code == -1
    ensures r == Return(0) ==> Removed(ms, First(start), Last(start, len))
    ensures r == Return(0) ==> View(ms) == Outside(old(View(ms)), First(start), Last(start, len))
    ensures start + len + 4095 < VA_END ==>
      (r == Return(0) <==> start % 4096 == 0 && forall v: nat :: start <= v * 4096 < start + len ==> v in old(View(ms)))
    ensures r == Return(0) && start + len + 4095 < VA_END ==>
      forall v: nat :: v in View(ms) <==> v in old(View(ms)) && !(start <= v * 4096 < start + len)
    ensures r == Return(0) && start + len + 4095 < VA_END ==> forall a: nat :: start <= a < start + len ==> Floor(a) !in View(ms)
    ensures r == Return(0) ==> forall v :: v in View(ms) ==> View(ms)[v] == old(View(ms))[v]
  {
    hide MemorySet.Valid, View, First, Last, Floor, Removed;
    ghost var owned, view0 := ms.owned.Keys, View(ms);
    MappedPages(ms);
    r := MunmapPages(ms, start, len);
    if start % 4096 == 0 && start + len + 4095 < VA_END {
      RemovedInAddresses(view0, View(ms), owned, start, len);
    }
  }

  lemma AreasHold(m: map<nat, u64>, areas: seq<MapArea>, owned: map<nat, nat>, tramp: u64)
    requires AreasOk(m, areas, owned, tramp)
    ensures forall v :: v in owned <==> InSomeArea(areas, v)
  {
    forall v
      ensures v in owned <==> InSomeArea(areas, v)
    {
      if InSomeArea(areas, v) {
        var i :| 0 <= i < |areas| && v in areas[i].data;
        PageFacts(m, areas[i], owned, v);
      }
    }
  }
}
