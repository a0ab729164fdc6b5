/** munmap and mmap on an address space (os/src/mm/memory_set.rs:208-261,
    os/src/syscall/memory.rs). */
module UserMappings {
  import opened Words
  import opened Frames
  import opened PageTables
  import opened UserBuffers
  import opened MemorySets
  import opened AreaLists

  /** The frames of the pages in [lo, hi). */
  ghost function FramesIn(owned: map<nat, nat>, lo: nat, hi: nat): set<nat>
  {
    set v | v in owned && lo <= v < hi :: owned[v]
  }

  /** The first area that holds page v. */
  method Position(areas: seq<MapArea>, v: nat) returns (r: Option<nat>)
    ensures r == None <==> !InSomeArea(areas, v)
    ensures r.Some? ==> r.value < |areas| && v in areas[r.value].data
    ensures r.Some? ==> forall k :: 0 <= k < r.value ==> v !in areas[k].data
  {
    var i := 0;
    while i < |areas|
      invariant i <= |areas| && forall k :: 0 <= k < i ==> v !in areas[k].data
    {
      if v in areas[i].data {
        return Some(i);
      }
      i := i + 1;
    }
    r := None;
  }

  /** One turn of the second loop: `unmap_one`, and the area goes with its last page. */
  method UnmapPage(ms: MemorySet, i: nat, vpn: nat)
    requires ms.Valid() && i < |ms.areas| && vpn in ms.areas[i].data
    modifies ms`areas, ms`owned, ms.mem
    ensures ms.Valid() && vpn in old(ms.owned)
    ensures ms.Mapping() == old(ms.Mapping()) - {vpn} && ms.owned == old(ms.owned) - {vpn}
    ensures ms.areas == RemovePage(old(ms.areas), i, vpn)
    ensures ms.mem.Allocated() == old(ms.mem.Allocated()) - {old(ms.owned)[vpn]}
    ensures ms.mem.FreeCount() == old(ms.mem.FreeCount()) + 1
    ensures ms.mem.end == old(ms.mem.end) && |ms.mem.pages| == |old(ms.mem.pages)|
    ensures forall p :: 0 <= p < |ms.mem.pages| && p !in Tables(ms.pageTable.tree) ==> ms.mem.pages[p] == old(ms.mem.pages)[p]
  {
    hide MappingOf, AreasOk, FramesOk, Tables, TreeInv, FrameAllocator.Allocated, FrameAllocator.Valid,
      FrameAllocator.FreeCount, NoRepeats, Elements;
    ghost var m, owned, areas := ms.Mapping(), ms.owned, ms.areas;
    assert areas + [] == areas;
    RemoveFromBooks(m, areas, owned, ms.tramp, i, vpn);
    RemoveFrame(ms.mem.Allocated(), Tables(ms.pageTable.tree), owned, vpn);
    PageBound(m, areas, owned, ms.tramp, i, vpn);
    var frame := ms.areas[i].data[vpn];
    ms.mem.Dealloc(frame);
    TablesKept(ms.mem.Allocated(), Tables(ms.pageTable.tree), owned - {vpn});
    ms.pageTable.Unmap(vpn);
    var left := Without(ms.areas[i], vpn);
    if left.data == map[] {
      ms.areas := ms.areas[..i] + ms.areas[i + 1..];
    } else {
      ms.areas := ms.areas[i := left];
    }
    ms.owned := owned - {vpn};
    assert ms.areas + [] == ms.areas;
  }

  lemma PageBound(m: map<nat, u64>, areas: seq<MapArea>, owned: map<nat, nat>, tramp: u64, i: nat, v: nat)
    requires AreasOk(m, areas, owned, tramp) && i < |areas| && v in areas[i].data
    ensures v < VPN_END
  {
    FitOf(m, areas[i], owned);
    assert AreaOk(m, areas[i], owned);
  }

  lemma TablesKept(alloc: set<nat>, tables: set<nat>, owned: map<nat, nat>)
    requires FramesOk(alloc, tables, owned)
    ensures tables <= alloc
  {
  }

  lemma RangeOwned(m: map<nat, u64>, areas: seq<MapArea>, owned: map<nat, nat>, tramp: u64, lo: nat, hi: nat)
    requires AreasOk(m, areas, owned, tramp)
    requires forall v :: lo <= v < hi ==> InSomeArea(areas, v)
    ensures Apart(areas) && forall v :: lo <= v < hi ==> v in owned
  {
    forall v | lo <= v < hi
      ensures v in owned
    {
      assert InSomeArea(areas, v);
      var i :| 0 <= i < |areas| && v in areas[i].data;
      PageFacts(m, areas[i], owned, v);
    }
  }

  lemma AreaOf(m: map<nat, u64>, areas: seq<MapArea>, owned: map<nat, nat>, tramp: u64, v: nat)
    requires AreasOk(m, areas, owned, tramp) && v in owned
    ensures InSomeArea(areas, v)
  {
  }

  lemma OutsideNothing<T>(m: map<nat, T>, lo: nat)
    ensures Outside(m, lo, lo) == m
  {
  }

  lemma NoFrames(owned: map<nat, nat>, lo: nat)
    ensures FramesIn(owned, lo, lo) == {}
  {
  }

  /** Page v is still there when [lo, v) are gone, and then goes too. */
  lemma NextPage(m: map<nat, u64>, owned: map<nat, nat>, alloc: set<nat>, tables: set<nat>, lo: nat, v: nat)
    requires lo <= v && v in owned && FramesOk(alloc, tables, owned)
    ensures Outside(m, lo, v + 1) == Outside(m, lo, v) - {v}
    ensures Outside(owned, lo, v + 1) == Outside(owned, lo, v) - {v}
    ensures v in Outside(owned, lo, v) && Outside(owned, lo, v)[v] == owned[v]
    ensures FramesIn(owned, lo, v + 1) == FramesIn(owned, lo, v) + {owned[v]}
    ensures owned[v] in alloc
  {
    assert owned[v] in owned.Values;
  }

  /** `remove_mapped_frames`: all or nothing. */
  method RemoveMappedFrames(ms: MemorySet, startVa: nat, endVa: nat) returns (r: int)
    requires ms.Valid() && Floor(startVa) <= Ceil(endVa)
    modifies ms`areas, ms`owned, ms.mem
    ensures r == if forall v :: Floor(startVa) <= v < Ceil(endVa) ==> InSomeArea(old(ms.areas), v) then 0 else -1
    ensures r == -1 ==> unchanged(ms) && unchanged(ms.mem)
    ensures r == 0 ==> Removed(ms, Floor(startVa), Ceil(endVa))
  {
    hide AreasOk, RemovePage, MappingOf, FrameAllocator.Allocated, FrameAllocator.FreeCount, FrameAllocator.Valid,
      PageTable.Valid, Tables, Trim, Outside, FramesIn, FramesOk;
    var lo, hi := Floor(startVa), Ceil(endVa);
    var v := lo;
    while v < hi
      invariant lo <= v <= hi && forall w :: lo <= w < v ==> InSomeArea(ms.areas, w)
      modifies {}
    {
      var index := Position(ms.areas, v);
      if index == None {
        return -1;
      }
      v := v + 1;
    }
    ghost var areas0, m0, owned0, alloc0 := ms.areas, ms.Mapping(), ms.owned, ms.mem.Allocated();
    assert areas0 + [] == areas0;
    RangeOwned(m0, areas0, owned0, ms.tramp, lo, hi);
    TrimNothing(areas0, lo);
    OutsideNothing(m0, lo);
    OutsideNothing(owned0, lo);
    assert FramesIn(owned0, lo, lo) == {} by { NoFrames(owned0, lo); }
    v := lo;
    while v < hi
      invariant lo <= v <= hi && ms.Valid() && Removed(ms, lo, v)
    {
      label Turn:
      ghost var areas1 := ms.areas;
      assert areas1 + [] == areas1;
      NextPage(m0, owned0, alloc0, Tables(ms.pageTable.tree), lo, v);
      AreaOf(ms.Mapping(), areas1, ms.owned, ms.tramp, v);
      var index := Position(ms.areas, v);
      UnmapPage(ms, index.value, v);
      TrimStep(areas0, lo, v, index.value);
      v := v + 1;
    }
    r := 0;
  }

  /** Exactly the pages of [lo, hi) are gone, their frames are free again and nobody
      else's bytes changed; areas that lost their last page are gone. */
  twostate predicate Removed(ms: MemorySet, lo: nat, hi: nat)
    reads ms, ms.pageTable, ms.mem
  {
    && ms.Valid()
    && ms.Mapping() == Outside(old(ms.Mapping()), lo, hi)
    && ms.owned == Outside(old(ms.owned), lo, hi)
    && ms.areas == TrimAll(old(ms.areas), lo, hi)
    && ms.mem.Allocated() == old(ms.mem.Allocated()) - FramesIn(old(ms.owned), lo, hi)
    && FramesIn(old(ms.owned), lo, hi) <= old(ms.mem.Allocated())
    && ms.mem.FreeCount() == old(ms.mem.FreeCount()) + hi - lo
    && ms.mem.end == old(ms.mem.end) && |ms.mem.pages| == |old(ms.mem.pages)|
    && (forall p :: 0 <= p < |ms.mem.pages| && p !in Tables(ms.pageTable.tree) ==> ms.mem.pages[p] == old(ms.mem.pages)[p])
  }
}
