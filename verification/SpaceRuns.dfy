/** Runs over many address spaces that share one frame allocator: what each program sees,
    which calls succeed and how many frames are free is a function of the calls made, and
    no frame is lost or shared. */
module SpaceRuns {
  import opened Words
  import opened Sets
  import opened Frames
  import opened PageTables
  import opened UserBuffers
  import opened MemorySets
  import opened AreaLists
  import opened UserMappings
  import opened Mmap
  import opened SpaceCopy
  import opened SpaceDrop

  /** An address space: its pages as the program sees them, its areas, and the paths of its
      tables. Of a process that has exited and was not reaped only tables are left. */
  datatype Space = Space(view: map<nat, UserPage>, shapes: seq<Shape>, tables: set<seq<nat>>, zombie: bool)

  /** All spaces and the number of free frames. */
  datatype Machine = Machine(spaces: seq<Space>, free: int)

  datatype Op =
    | Mmap(i: nat, start: u64, len: u64, prot: u64)
    | Munmap(i: nat, start: u64, len: u64)
    | Fork(i: nat)
    | Store(i: nat, va: u64, value: byte)
    | Exit(i: nat)
    | Reap(i: nat)

  function PagesOutside(pages: set<nat>, lo: nat, hi: nat): set<nat> { set v | v in pages && !(lo <= v < hi) }

  /** Areas lose the pages of [lo, hi); one that loses its last page goes. */
  function TrimShapes(shapes: seq<Shape>, lo: nat, hi: nat): seq<Shape>
  {
    if shapes == [] then [] else
      var s := shapes[|shapes| - 1];
      var rest := PagesOutside(s.pages, lo, hi);
      TrimShapes(shapes[..|shapes| - 1], lo, hi) + if rest == s.pages then [s] else if rest == {} then [] else [s.(pages := rest)]
  }

  lemma {:induction false} TrimmedShapes(areas: seq<MapArea>, lo: nat, hi: nat)
    ensures ShapesOf(TrimAll(areas, lo, hi)) == TrimShapes(ShapesOf(areas), lo, hi)
  {
    if areas != [] {
      var n := |areas| - 1;
      TrimmedShapes(areas[..n], lo, hi);
      var t := Trim(areas[n], lo, hi);
      OneTrimmed(areas[n], lo, hi);
      assert ShapesOf(TrimAll(areas[..n], lo, hi) + t) == ShapesOf(TrimAll(areas[..n], lo, hi)) + ShapesOf(t);
      assert ShapesOf(areas)[..n] == ShapesOf(areas[..n]);
    }
  }

  lemma OneTrimmed(a: MapArea, lo: nat, hi: nat)
    ensures var rest := PagesOutside(a.data.Keys, lo, hi);
      ShapesOf(Trim(a, lo, hi)) == if rest == a.data.Keys then [ShapeOf(a)] else if rest == {} then [] else [ShapeOf(a).(pages := rest)]
  {
    var o := Outside(a.data, lo, hi);
    assert o.Keys == PagesOutside(a.data.Keys, lo, hi);
    assert o.Keys == a.data.Keys ==> o == a.data;
    assert o == map[] <==> o.Keys == {};
  }

  ghost predicate Covers(s: Space, start: u64, len: u64)
  {
    && start % 4096 == 0 && First(start) <= Last(start, len)
    && forall v :: First(start) <= v < Last(start, len) ==> v in s.view
  }

  /** The program may write there: a canonical address in a page with R, W and U set. */
  ghost predicate MayStore(s: Space, va: u64)
  {
    var v := Floor(VirtAddr(va));
    Canonical(va) && v in s.view && MayWrite(s.view[v].flags)
  }

  predicate MayWrite(flags: nat) { flags / 2 % 2 == 1 && flags / 4 % 2 == 1 && flags / 16 % 2 == 1 }

  ghost function StoredByte(view: map<nat, UserPage>, va: u64, value: byte): map<nat, UserPage>
    requires Floor(VirtAddr(va)) in view
  {
    var v := Floor(VirtAddr(va));
    view[v := view[v].(bytes := view[v].bytes[VirtAddr(va) % 4096 := value])]
  }

  /** A call of a live process, or the reaping of a dead one. */
  ghost predicate Names(m: Machine, op: Op)
  {
    op.i < |m.spaces| && (m.spaces[op.i].zombie <==> op.Reap?)
  }

  /** What the space the operation is about answers when so many frames are free. */
  ghost function Answer(s: Space, free: int, op: Op): Outcome
  {
    match op
    case Mmap(_, start, len, prot) => MmapReply(s.view.Keys + {TRAMPOLINE_VPN}, s.tables, free, start, len, prot)
    case Munmap(_, start, len) =>
      if start % 4096 == 0 && First(start) > Last(start, len) then Panic
      else Return(if Covers(s, start, len) then 0 else -1)
    case Fork(_) => if Whole(s.shapes) && free >= CopyNeed(s.shapes) then Return(0) else Panic
    case Store(_, va, value) => Return(if MayStore(s, va) then 0 else -1)
    case Exit(_) => Return(0)
    case Reap(_) => Return(0)
  }

  /** That space afterwards; reaping removes it instead. */
  ghost function After(s: Space, free: int, op: Op): Space
  {
    if Answer(s, free, op) != Return(0) then s else
    match op
    case Mmap(_, start, len, prot) =>
      var lo, hi := First(start), Last(start, len);
      Space(s.view + ZeroPages(lo, hi, WithV(U + 2 * prot)), s.shapes + [Shape(lo, hi, Interval(lo, hi))],
        s.tables + Paths(lo, hi), false)
    case Munmap(_, start, len) =>
      var lo, hi := First(start), Last(start, len);
      Space(Outside(s.view, lo, hi), TrimShapes(s.shapes, lo, hi), s.tables, false)
    case Store(_, va, value) => s.(view := StoredByte(s.view, va, value))
    case Exit(_) => Space(map[], [], s.tables, true)
    case _ => s
  }

  /** The number of free frames afterwards. */
  ghost function FreeAfter(s: Space, free: int, op: Op): int
  {
    if Answer(s, free, op) != Return(0) then free else
    match op
    case Mmap(_, start, len, _) => free - Need(s.tables, First(start), Last(start, len))
    case Munmap(_, start, len) => free + (Last(start, len) - First(start))
    case Fork(_) => free - CopyNeed(s.shapes)
    case Store(_, _, _) => free
    case Exit(_) => free + |s.view|
    case Reap(_) => free + |s.tables|
  }

  /** The machine after an operation; one that names no such process does nothing. */
  ghost function Next(m: Machine, op: Op): Machine
  {
    if !Names(m, op) then m else
    var s := m.spaces[op.i];
    Machine(
      match op
      case Fork(i) => if Answer(s, m.free, op) == Return(0) then m.spaces + [Copied(s)] else m.spaces
      case Reap(i) => Remaining(m.spaces, i)
      case _ => m.spaces[op.i := After(s, m.free, op)],
      FreeAfter(s, m.free, op))
  }

  /** A copy has tables for its areas only. */
  ghost function Copied(s: Space): Space { s.(tables := BarePaths() + ShapePaths(s.shapes)) }

  ghost function ReplyTo(m: Machine, op: Op): Outcome
  {
    if Names(m, op) then Answer(m.spaces[op.i], m.free, op) else Return(-1)
  }

  /** All is well after the call: the kernel did not panic, and a mapping that ran out of
      frames found none to begin with. */
  ghost predicate GoesOn(m: Machine, op: Op)
  {
    ReplyTo(m, op).Return? || (ReplyTo(m, op).OutOfFrames? && m.free == 0)
  }

  ghost function SpaceOf(ms: MemorySet, zombie: bool): Space
    reads ms, ms.pageTable, ms.mem
  {
    Space(View(ms), ShapesOf(ms.areas), ms.pageTable.tree.Keys, zombie)
  }

  /** The memory, the address spaces of all processes not yet reaped, which of these are
      dead, and the frame of the trampoline. */
  datatype System = System(mem: FrameAllocator, spaces: seq<MemorySet>, zombie: seq<bool>, trampoline: nat)

  /** All the frames of a list of spaces. */
  ghost function Union(spaces: seq<MemorySet>): set<nat>
    reads spaces, set s | s in spaces :: s.pageTable
  {
    set i, p | 0 <= i < |spaces| && p in spaces[i].Footprint() :: p
  }

  /** The frames handed out to anybody else: kernel tables, stacks and the like. */
  ghost function Others(mem: FrameAllocator, spaces: seq<MemorySet>): set<nat>
    reads mem, spaces, set s | s in spaces :: s.pageTable
  {
    mem.Allocated() - Union(spaces)
  }

  /** What exit leaves: a page table in order, its entries perhaps to frames of others. */
  ghost predicate Dead(ms: MemorySet)
    reads ms, ms.pageTable, ms.mem
  {
    ms.areas == [] && ms.owned == map[] && ms.pageTable.mem == ms.mem && ms.pageTable.Valid()
  }

  ghost predicate Sound(ms: MemorySet, zombie: bool)
    reads ms, ms.pageTable, ms.mem
  {
    if zombie then Dead(ms) else ms.Valid()
  }

  ghost predicate Member(sys: System, ms: MemorySet, zombie: bool)
    requires sys.trampoline < PPN_END
    reads ms, ms.pageTable, ms.mem
  {
    ms.mem == sys.mem && Sound(ms, zombie) && ms.tramp == Pte(sys.trampoline, V + R + X)
  }

  /** Every space is sound, dead or alive, and no frame has two owners. */
  ghost predicate World(sys: System)
    reads sys.mem, sys.spaces, set s | s in sys.spaces :: s.pageTable
  {
    && sys.mem.Valid() && sys.trampoline < PPN_END && |sys.zombie| == |sys.spaces|
    && (forall i :: 0 <= i < |sys.spaces| ==> sys.spaces[i].mem == sys.mem)
    && (forall i :: 0 <= i < |sys.spaces| ==> Member(sys, sys.spaces[i], sys.zombie[i]))
    && (forall i, j :: 0 <= i < j < |sys.spaces| ==> Separate(sys.spaces[i], sys.spaces[j]))
    && Union(sys.spaces) <= sys.mem.Allocated()
  }

  ghost predicate Represents(sys: System, m: Machine)
    reads sys.mem, sys.spaces, set s | s in sys.spaces :: s.pageTable
  {
    && |m.spaces| == |sys.spaces| == |sys.zombie| && m.free == sys.mem.FreeCount()
    && forall i :: 0 <= i < |sys.spaces| ==> sys.spaces[i].mem == sys.mem && SpaceOf(sys.spaces[i], sys.zombie[i]) == m.spaces[i]
  }

  /** Owned frames, those of zombies among them, the kernel's frames and free frames always
      add up to all of memory. */
  lemma Conserved(sys: System)
    requires World(sys)
    ensures |Others(sys.mem, sys.spaces)| + |Union(sys.spaces)| + sys.mem.FreeCount() == sys.mem.end - sys.mem.base
  {
    sys.mem.Conservation();
    assert Others(sys.mem, sys.spaces) + Union(sys.spaces) == sys.mem.Allocated();
  }

  /** A step of one space: it takes frames nobody had, gives back only its own, and leaves
      everyone else's bytes alone. */
  ghost predicate Confined(pages: seq<Page>, alloc: set<nat>, own: set<nat>, pages': seq<Page>, alloc': set<nat>,
      own': set<nat>)
  {
    && |pages'| == |pages| && own <= alloc && (own' - own) !! alloc && alloc' == (alloc - own) + own'
    && forall p :: 0 <= p < |pages| && p in alloc && p !in own ==> pages'[p] == pages[p]
  }

  twostate predicate OwnStepOf(ms: MemorySet)
    reads ms, ms.pageTable, ms.mem
  {
    ms.mem.end == old(ms.mem.end) &&
    Confined(old(ms.mem.pages), old(ms.mem.Allocated()), old(ms.Footprint()), ms.mem.pages, ms.mem.Allocated(), ms.Footprint())
  }

  twostate lemma AddedConfined(ms: MemorySet)
    requires old(ms.Valid()) && ms.Valid() && ms.OnlyOwn()
    ensures OwnStepOf(ms)
  {
    hide AreasOk, FrameAllocator.Allocated, PageTable.Valid, OwnStep, Confined, Tables;
    FootprintAllocatedThen(ms);
    OwnStepConfined(old(ms.mem.pages), old(ms.mem.Allocated()), old(Tables(ms.pageTable.tree)), old(ms.owned.Values),
      ms.mem.pages, ms.mem.Allocated(), Tables(ms.pageTable.tree), ms.owned.Values);
  }

  lemma OwnStepConfined(pages: seq<Page>, alloc: set<nat>, tables: set<nat>, own: set<nat>,
      pages': seq<Page>, alloc': set<nat>, tables': set<nat>, own': set<nat>)
    requires OwnStep(pages, alloc, tables, own, pages', alloc', tables', own') && own + tables <= alloc
    ensures Confined(pages, alloc, own + tables, pages', alloc', own' + tables')
  {
  }

  twostate lemma FootprintAllocatedThen(ms: MemorySet)
    requires old(ms.Valid())
    ensures old(ms.Footprint()) <= old(ms.mem.Allocated())
  {
  }

  twostate lemma RemovedConfined(ms: MemorySet)
    requires old(ms.Valid()) && unchanged(ms.pageTable)
    requires exists lo: nat, hi: nat :: Removed(ms, lo, hi)
    ensures OwnStepOf(ms)
  {
    hide AreasOk, FrameAllocator.Allocated, PageTable.Valid, Outside, FramesIn, Tables;
    var lo: nat, hi: nat :| Removed(ms, lo, hi);
    FootprintAllocatedThen(ms);
    OutsideValues(old(ms.owned), old(ms.mem.Allocated()), Tables(ms.pageTable.tree), lo, hi);
  }

  lemma OutsideValues(owned: map<nat, nat>, alloc: set<nat>, tables: set<nat>, lo: nat, hi: nat)
    requires FramesOk(alloc, tables, owned)
    ensures Outside(owned, lo, hi).Values == owned.Values - FramesIn(owned, lo, hi)
    ensures FramesIn(owned, lo, hi) <= owned.Values && FramesIn(owned, lo, hi) !! tables
  {
    var rest := Outside(owned, lo, hi);
    forall f | f in rest.Values
      ensures f in owned.Values - FramesIn(owned, lo, hi)
    {
      var v :| v in rest && rest[v] == f;
      assert owned[v] == f;
    }
    forall f | f in owned.Values - FramesIn(owned, lo, hi)
      ensures f in rest.Values
    {
      var v :| v in owned && owned[v] == f;
      assert v in rest && rest[v] == f;
    }
  }

  twostate predicate Idle(t: MemorySet)
    reads t, t.pageTable
  {
    unchanged(t) && unchanged(t.pageTable)
  }

  lemma SoundFootprint(ms: MemorySet, zombie: bool)
    requires Sound(ms, zombie)
    ensures ms.mem.Valid() && ms.Footprint() <= ms.mem.Allocated()
  {
  }

  /** Process number i of a system does something, and is dead or not afterwards. */
  datatype Turn = Turn(sys: System, i: nat, dead: bool)
  {
    function Then(): System
      requires i < |sys.zombie|
    {
      sys.(zombie := sys.zombie[i := dead])
    }
  }

  ghost predicate Ready(t: Turn)
    reads t.sys.mem, t.sys.spaces, set s | s in t.sys.spaces :: s.pageTable
  {
    t.i < |t.sys.spaces| && World(t.sys)
  }

  /** A dead space is as it was as long as its tables are. */
  twostate lemma StaysDead(ms: MemorySet)
    requires old(Dead(ms)) && ms.mem.Valid() && unchanged(ms) && unchanged(ms.pageTable)
    requires |ms.mem.pages| == |old(ms.mem.pages)| && ms.Footprint() <= ms.mem.Allocated()
    requires forall p :: p in ms.Footprint() && p < |ms.mem.pages| ==> ms.mem.pages[p] == old(ms.mem.pages)[p]
    ensures Dead(ms) && View(ms) == old(View(ms))
  {
    hide MappingOf, TreeInv, NoRepeats, Elements, FrameAllocator.Allocated, FrameAllocator.Valid, PteFlags;
    SameTables(old(ms.mem.pages), ms.mem.pages, ms.pageTable.root, ms.pageTable.tree);
  }

  /** Other spaces whose frames are still handed out and keep their bytes are as they were. */
  twostate lemma StillThere(t: Turn)
    requires old(Ready(t)) && t.sys.mem.Valid() && |t.sys.mem.pages| == |old(t.sys.mem.pages)|
    requires forall j :: 0 <= j < |t.sys.spaces| && j != t.i ==> var s := t.sys.spaces[j];
      && Idle(s) && s.Footprint() <= s.mem.Allocated()
      && forall p :: p in s.Footprint() && p < |s.mem.pages| ==> s.mem.pages[p] == old(s.mem.pages)[p]
    ensures forall j :: 0 <= j < |t.sys.spaces| && j != t.i ==> var s := t.sys.spaces[j];
      && Sound(s, t.sys.zombie[j]) && SpaceOf(s, t.sys.zombie[j]) == old(SpaceOf(s, t.sys.zombie[j]))
      && s.Footprint() == old(s.Footprint())
  {
    hide FrameAllocator.Allocated, FrameAllocator.Valid, MappingOf, ViewOf, Pte, AreasOk, FramesOk, TreeInv, Tables,
      PageTable.Valid;
    forall j | 0 <= j < |t.sys.spaces| && j != t.i
      ensures var s := t.sys.spaces[j];
        && Sound(s, t.sys.zombie[j]) && SpaceOf(s, t.sys.zombie[j]) == old(SpaceOf(s, t.sys.zombie[j]))
        && s.Footprint() == old(s.Footprint())
    {
      var s := t.sys.spaces[j];
      if t.sys.zombie[j] {
        StaysDead(s);
      } else {
        Undisturbed(s);
      }
    }
  }

  /** What other spaces hold was handed out, and is apart from this one's. */
  twostate lemma ElsewhereThen(t: Turn)
    requires old(Ready(t))
    ensures forall j :: 0 <= j < |t.sys.spaces| && j != t.i ==>
      && t.sys.spaces[j] != t.sys.spaces[t.i] && t.sys.spaces[j].pageTable != t.sys.spaces[t.i].pageTable
      && old(t.sys.spaces[j].Footprint()) <= old(t.sys.mem.Allocated())
      && old(t.sys.spaces[j].Footprint()) !! old(t.sys.spaces[t.i].Footprint())
  {
    hide FrameAllocator.Allocated, Sound, MemorySet.Footprint, Pte;
    forall j | 0 <= j < |t.sys.spaces| && j != t.i
      ensures t.sys.spaces[j] != t.sys.spaces[t.i] && t.sys.spaces[j].pageTable != t.sys.spaces[t.i].pageTable
      ensures old(t.sys.spaces[j].Footprint()) <= old(t.sys.mem.Allocated())
      ensures old(t.sys.spaces[j].Footprint()) !! old(t.sys.spaces[t.i].Footprint())
    {
      assert old(t.sys.spaces[j].Footprint()) <= old(Union(t.sys.spaces));
      assert old(Separate(t.sys.spaces[if t.i < j then t.i else j], t.sys.spaces[if t.i < j then j else t.i]));
    }
  }

  /** Memory keeps its size and these frames their bytes. */
  twostate predicate BytesKept(mem: FrameAllocator, frames: set<nat>)
    reads mem
  {
    && |mem.pages| == |old(mem.pages)| && mem.end == old(mem.end)
    && forall p :: p in frames && p < |mem.pages| ==> mem.pages[p] == old(mem.pages)[p]
  }

  /** A confined step of one space leaves what others own to them. */
  twostate lemma OthersStep(t: Turn)
    requires old(Ready(t)) && t.sys.spaces[t.i].mem == t.sys.mem && OwnStepOf(t.sys.spaces[t.i])
    requires forall j :: 0 <= j < |t.sys.spaces| && j != t.i ==> Idle(t.sys.spaces[j])
    ensures forall j :: 0 <= j < |t.sys.spaces| && j != t.i ==> t.sys.spaces[j].Footprint() == old(t.sys.spaces[j].Footprint())
    ensures forall j :: 0 <= j < |t.sys.spaces| && j != t.i ==>
      t.sys.spaces[j].Footprint() !! t.sys.spaces[t.i].Footprint() && t.sys.spaces[j].Footprint() <= t.sys.mem.Allocated()
    ensures Others(t.sys.mem, t.sys.spaces) == old(Others(t.sys.mem, t.sys.spaces))
    ensures BytesKept(t.sys.mem, old(t.sys.mem.Allocated()) - old(t.sys.spaces[t.i].Footprint()))
  {
    hide FrameAllocator.Allocated, FrameAllocator.Valid, Sound, MemorySet.Footprint, Pte, Separate;
    ElsewhereThen(t);
    forall j | 0 <= j < |t.sys.spaces| && j != t.i
      ensures t.sys.spaces[j].Footprint() == old(t.sys.spaces[j].Footprint())
    {
      SameFootprint(t.sys.spaces[j]);
    }
  }

  twostate lemma SameFootprint(ms: MemorySet)
    requires Idle(ms)
    ensures ms.Footprint() == old(ms.Footprint())
  {
  }

  /** It keeps the world in order and all other spaces as they were. */
  twostate lemma WorldStep(t: Turn)
    requires old(Ready(t)) && t.sys.spaces[t.i].mem == t.sys.mem && OwnStepOf(t.sys.spaces[t.i])
    requires Sound(t.sys.spaces[t.i], t.dead)
    requires forall j :: 0 <= j < |t.sys.spaces| && j != t.i ==> Idle(t.sys.spaces[j])
    ensures World(t.Then()) && Others(t.sys.mem, t.sys.spaces) == old(Others(t.sys.mem, t.sys.spaces))
    ensures BytesKept(t.sys.mem, Others(t.sys.mem, t.sys.spaces))
    ensures forall j :: 0 <= j < |t.sys.spaces| && j != t.i ==>
      t.sys.spaces[j].mem == t.sys.mem && SpaceOf(t.sys.spaces[j], t.sys.zombie[j]) == old(SpaceOf(t.sys.spaces[j], t.sys.zombie[j]))
  {
    hide FrameAllocator.Allocated, FrameAllocator.Valid, Sound, MemorySet.Footprint, SpaceOf, Pte, OwnStepOf;
    OthersStep(t);
    ElsewhereThen(t);
    SoundFootprint(t.sys.spaces[t.i], t.dead);
    StillThere(t);
  }

  lemma ShapesGrow(areas: seq<MapArea>, areas': seq<MapArea>, a: MapArea, lo: nat, hi: nat, perm: nat)
    requires lo <= hi && NewArea(areas, areas', a, lo, hi, perm)
    ensures ShapesOf(areas') == ShapesOf(areas) + [Shape(lo, hi, Interval(lo, hi))]
  {
    assert areas'[..|areas'| - 1] == areas;
  }

  /** The space answered the call: what it holds and what is free is as the machine says. */
  twostate predicate Served(ms: MemorySet, s: Space, free: int, op: Op)
    reads ms, ms.pageTable, ms.mem
  {
    && OwnStepOf(ms) && Sound(ms, op.Exit?)
    && SpaceOf(ms, op.Exit?) == After(s, free, op) && ms.mem.FreeCount() == FreeAfter(s, free, op)
  }

  twostate lemma IdleStep(ms: MemorySet)
    requires old(ms.Valid()) && unchanged(ms) && unchanged(ms.pageTable) && unchanged(ms.mem)
    ensures OwnStepOf(ms) && ms.Valid() && SpaceOf(ms, false) == old(SpaceOf(ms, false))
  {
    FootprintAllocated(ms);
  }

  /** A new area joins the space and takes its frames. */
  lemma MmapAfter(s: Space, free: int, op: Op)
    requires op.Mmap? && Answer(s, free, op) == Return(0)
    ensures First(op.start) <= Last(op.start, op.len)
    ensures var lo, hi := First(op.start), Last(op.start, op.len);
      && After(s, free, op) == Space(s.view + ZeroPages(lo, hi, WithV(U + 2 * op.prot)),
           s.shapes + [Shape(lo, hi, Interval(lo, hi))], s.tables + Paths(lo, hi), false)
      && FreeAfter(s, free, op) == free - Need(s.tables, lo, hi)
  {
    hide First, Last, ZeroPages, WithV, Paths, Need;
  }

  lemma AfterRefusal(s: Space, free: int, op: Op)
    requires Answer(s, free, op) != Return(0)
    ensures After(s, free, op) == s && FreeAfter(s, free, op) == free
  {
  }

  method MmapSpace(ms: MemorySet, op: Op, ghost s: Space, ghost free: int) returns (reply: Outcome)
    requires ms.Valid() && SpaceOf(ms, false) == s && op.Mmap? && ms.mem.FreeCount() == free
    modifies ms, ms.pageTable, ms.mem
    ensures reply == Answer(s, free, op)
    ensures reply.Return? || (reply.OutOfFrames? && free == 0) ==> Served(ms, s, free, op)
  {
    hide FrameAllocator.Allocated, FrameAllocator.Valid, FrameAllocator.FreeCount, View, Pte, First,
      Last, WithV, MemorySet.Mapping, OwnStep, Confined, MemorySet.Valid, MmapReply, HardwareSees, Paths, Need, EntryIs,
      After, FreeAfter, Floor, OwnStepOf, Dangling, MemorySet.OnlyOwn, BadArguments, ZeroPages, ShapesOf;
    MappedPages(ms);
    assert ms.Mapping().Keys == s.view.Keys + {TRAMPOLINE_VPN};
    ghost var areas0 := ms.areas;
    ghost var stray;
    reply, stray := SysMmap(ms, op.start, op.len, op.prot);
    if reply == Return(0) {
      AddedConfined(ms);
      MmapAfter(s, free, op);
      ShapesGrow(areas0, ms.areas, ms.areas[|ms.areas| - 1], First(op.start), Last(op.start, op.len), U + 2 * op.prot);
    } else if reply.Return? || (reply.OutOfFrames? && free == 0) {
      AfterRefusal(s, free, op);
      IdleStep(ms);
    }
  }

  lemma MunmapAfter(s: Space, free: int, op: Op)
    requires op.Munmap? && Answer(s, free, op) == Return(0)
    ensures var lo, hi := First(op.start), Last(op.start, op.len);
      && After(s, free, op) == Space(Outside(s.view, lo, hi), TrimShapes(s.shapes, lo, hi), s.tables, false)
      && FreeAfter(s, free, op) == free + (hi - lo)
  {
    hide First, Last, Outside, TrimShapes;
  }

  method MunmapSpace(ms: MemorySet, op: Op, ghost s: Space, ghost free: int) returns (reply: Outcome)
    requires ms.Valid() && SpaceOf(ms, false) == s && op.Munmap? && ms.mem.FreeCount() == free
    modifies ms`areas, ms`owned, ms.mem
    ensures reply == Answer(s, free, op) && !reply.OutOfFrames?
    ensures reply.Return? ==> Served(ms, s, free, op)
  {
    hide FrameAllocator.Allocated, FrameAllocator.Valid, FrameAllocator.FreeCount, View, Pte, First, Last,
      MemorySet.Mapping, Confined, MemorySet.Valid, Outside, After, FreeAfter, Floor, TrimShapes, ShapesOf;
    MappedPages(ms);
    ghost var areas0 := ms.areas;
    reply := SysMunmap(ms, op.start, op.len);
    if reply == Return(0) {
      RemovedConfined(ms);
      MunmapAfter(s, free, op);
      TrimmedShapes(areas0, First(op.start), Last(op.start, op.len));
    } else if reply.Return? {
      AfterRefusal(s, free, op);
      IdleStep(ms);
    }
  }

  twostate lemma StoreConfined(ms: MemorySet)
    requires old(ms.Valid()) && ms.Valid() && ms.mem.Allocated() == old(ms.mem.Allocated()) && ms.mem.end == old(ms.mem.end)
    requires unchanged(ms) && unchanged(ms.pageTable) && |ms.mem.pages| == |old(ms.mem.pages)|
    requires forall p :: 0 <= p < |ms.mem.pages| && p !in ms.Footprint() ==> ms.mem.pages[p] == old(ms.mem.pages)[p]
    ensures OwnStepOf(ms)
  {
    hide FrameAllocator.Allocated, AreasOk;
    FootprintAllocated(ms);
  }

  lemma ViewAt(ms: MemorySet, v: nat)
    requires ms.Valid() && v in ms.owned
    ensures v in ms.Mapping() && ms.owned[v] < |ms.mem.pages|
    ensures v in View(ms) && View(ms)[v] == UserPage(PteFlags(ms.Mapping()[v]), ms.mem.pages[ms.owned[v]])
  {
    hide MappingOf, AreasOk, PteFlags;
    OwnedFrame(ms, v);
  }

  lemma TableOf(ms: MemorySet, trampoline: nat)
    requires ms.Valid() && trampoline < PPN_END && ms.tramp == Pte(trampoline, V + R + X)
    ensures ms.pageTable.Valid() && ms.pageTable.mem == ms.mem && ms.pageTable.Mapping() == ms.Mapping()
    ensures TRAMPOLINE_VPN in ms.Mapping() && PteFlags(ms.Mapping()[TRAMPOLINE_VPN]) / 16 % 2 == 0
  {
    hide MappingOf, PteFlags, PtePpn, Pte;
    PteRoundTrip(trampoline, V + R + X);
  }

  lemma PageInRange(va: u64)
    ensures Floor(VirtAddr(va)) < VPN_END
  {
  }

  /** The entry of a page of an area has no reserved bits. */
  lemma SmallEntry(m: map<nat, u64>, areas: seq<MapArea>, owned: map<nat, nat>, tramp: u64, v: nat)
    requires AreasOk(m, areas, owned, tramp) && v in owned
    ensures v in m && m[v] < 0x40_0000_0000_0000
  {
    hide Pte, WithV;
    assert InSomeArea(areas, v);
    var i :| 0 <= i < |areas| && v in areas[i].data;
    assert AreaOk(m, areas[i], owned);
    assert PageOk(m, areas[i], owned, v);
    EntryBound(areas[i].data[v], WithV(areas[i].perm));
  }

  /** What a store needs of the leaf. */
  lemma LeafForStore(pte: u64)
    requires pte < 0x40_0000_0000_0000
    ensures LeafOk(pte) && Writable(pte) && UserMode(pte) <==> MayWrite(PteFlags(pte))
  {
  }

  /** The hardware lets the program store exactly where the machine says so, and the store
      goes to the frame of that page. */
  lemma StoreIs(ms: MemorySet, va: u64, trampoline: nat)
    requires ms.Valid() && trampoline < PPN_END && ms.tramp == Pte(trampoline, V + R + X)
    ensures var v := Floor(VirtAddr(va));
      if MayStore(SpaceOf(ms, false), va) then
        && v in ms.owned && ms.owned[v] < |ms.mem.pages|
        && HwStore(ms.mem.pages, ms.pageTable.root, va) == Some(ms.owned[v] * 4096 + VirtAddr(va) % 4096)
        && SpaceOf(ms, false).view[v].bytes == ms.mem.pages[ms.owned[v]]
      else HwStore(ms.mem.pages, ms.pageTable.root, va) == None
  {
    hide FrameAllocator.Allocated, FrameAllocator.Valid, Pte, MemorySet.Valid, PtePpn, PteFlags, View, Floor, VirtAddr,
      TreeInv, Walk, LeafOk, MayWrite, Writable;
    MappedPages(ms);
    TableOf(ms, trampoline);
    var v := Floor(VirtAddr(va));
    assert v < VPN_END by { PageInRange(va); }
    if Canonical(va) {
      SoftwareIsStandard(ms.mem.pages, ms.pageTable.root, ms.pageTable.tree, va);
      if v in ms.owned {
        ViewAt(ms, v);
        OwnedFrame(ms, v);
        SmallPage(ms, v);
        LeafForStore(ms.Mapping()[v]);
      }
    }
  }

  lemma SmallPage(ms: MemorySet, v: nat)
    requires ms.Valid() && v in ms.owned
    ensures v in ms.Mapping() && ms.Mapping()[v] < 0x40_0000_0000_0000
  {
    hide AreasOk, FramesOk, MappingOf, PageTable.Valid;
    SmallEntry(ms.Mapping(), ms.areas + [], ms.owned, ms.tramp, v);
  }

  /** The program stores a byte, by way of the hardware. */
  method StoreSpace(ms: MemorySet, op: Op, ghost s: Space, ghost free: int, ghost trampoline: nat) returns (reply: Outcome)
    requires ms.Valid() && SpaceOf(ms, false) == s && op.Store? && ms.mem.FreeCount() == free
    requires trampoline < PPN_END && ms.tramp == Pte(trampoline, V + R + X)
    modifies ms.mem`pages
    ensures reply == Answer(s, free, op) && Served(ms, s, free, op)
  {
    hide FrameAllocator.Allocated, FrameAllocator.Valid, FrameAllocator.FreeCount, Pte, MemorySet.Mapping,
      MemorySet.Valid, View, OwnStepOf, MayStore, HwStore, VirtAddr;
    StoreIs(ms, op.va, trampoline);
    var addr := HwStore(ms.mem.pages, ms.pageTable.root, op.va);
    if addr == None {
      IdleStep(ms);
      return Return(-1);
    }
    assert Floor(VirtAddr(op.va)) in s.view by { MayMeans(s, op.va); }
    ghost var v := Floor(VirtAddr(op.va));
    OwnedFrame(ms, v);
    LowPart(ms.owned[v], 4096, VirtAddr(op.va) % 4096);
    var frame, offset := addr.value / 4096, addr.value % 4096;
    StorePage(ms, v, frame, ms.mem.pages[frame][offset := op.value]);
    StoreConfined(ms);
    reply := Return(0);
  }

  lemma MayMeans(s: Space, va: u64)
    requires MayStore(s, va)
    ensures Floor(VirtAddr(va)) in s.view
  {
  }

  /** The process dies: its data frames go back, its tables stay. */
  method ExitSpace(ms: MemorySet, ghost op: Op, ghost s: Space, ghost free: int)
    requires ms.Valid() && SpaceOf(ms, false) == s && op.Exit? && ms.mem.FreeCount() == free
    modifies ms`areas, ms`owned, ms.mem`recycled
    ensures Served(ms, s, free, op) && ms.Mapping() == old(ms.Mapping())
  {
    hide FrameAllocator.Allocated, FrameAllocator.Valid, FrameAllocator.FreeCount, MemorySet.Mapping, OwnStepOf,
      PageTable.Valid, Tables, View, After, FreeAfter, Answer, MemorySet.Valid;
    ExitAnswer(s, free, op);
    assert |View(ms)| == |ms.owned| by { SeenSize(ms); }
    RecycleDataPages(ms);
    ExitStep(ms);
    NothingSeen(ms);
  }

  lemma SeenSize(ms: MemorySet)
    requires ms.Valid()
    ensures |View(ms)| == |ms.owned|
  {
    hide MemorySet.Valid, View, MemorySet.Mapping;
    MappedPages(ms);
    assert |View(ms)| == |View(ms).Keys| == |ms.owned.Keys|;
  }

  twostate lemma ExitStep(ms: MemorySet)
    requires old(ms.Valid()) && ms.owned == map[] && unchanged(ms.pageTable) && ms.mem.pages == old(ms.mem.pages)
    requires ms.mem.end == old(ms.mem.end) && ms.mem.Allocated() == old(ms.mem.Allocated()) - old(ms.owned).Values
    ensures OwnStepOf(ms) && ms.pageTable.mem == ms.mem
  {
    hide FrameAllocator.Allocated, FrameAllocator.Valid, MappingOf, AreasOk, PageTable.Valid, Tables, FramesOk, Confined;
    ExitConfined(ms.mem.pages, old(ms.mem.Allocated()), old(ms.owned), Tables(ms.pageTable.tree), ms.mem.Allocated(), ms.owned);
  }

  lemma ExitConfined(pages: seq<Page>, alloc: set<nat>, owned: map<nat, nat>, tables: set<nat>, alloc': set<nat>,
      owned': map<nat, nat>)
    requires FramesOk(alloc, tables, owned) && alloc' == alloc - owned.Values && owned' == map[]
    ensures Confined(pages, alloc, owned.Values + tables, pages, alloc', owned'.Values + tables)
  {
  }

  lemma NothingSeen(ms: MemorySet)
    requires ms.owned == map[] && ms.areas == []
    ensures View(ms) == map[] && ShapesOf(ms.areas) == []
  {
  }

  /** An operation that affects the space it is about and no other. */
  method ExecOwn(sys: System, op: Op, ghost m: Machine) returns (reply: Outcome, sys': System)
    requires World(sys) && Represents(sys, m) && Names(m, op)
    requires op.Mmap? || op.Munmap? || op.Store? || op.Exit?
    modifies sys.mem, sys.spaces[op.i], sys.spaces[op.i].pageTable
    ensures reply == ReplyTo(m, op)
    ensures sys' == Turn(sys, op.i, op.Exit?).Then()
    ensures GoesOn(m, op) ==> World(sys') && Represents(sys', Next(m, op))
    ensures GoesOn(m, op) ==> Others(sys.mem, sys.spaces) == old(Others(sys.mem, sys.spaces)) && BytesKept(sys.mem, Others(sys.mem, sys.spaces))
  {
    hide FrameAllocator.Allocated, FrameAllocator.Valid, FrameAllocator.FreeCount, MemorySet.Valid,
      MemorySet.Footprint, SpaceOf, Pte, After, FreeAfter, Answer, OwnStepOf, Union;
    var ms := sys.spaces[op.i];
    ghost var s, free := m.spaces[op.i], m.free;
    Named(sys, m, op);
    match op {
      case Mmap(_, _, _, _) => reply := MmapSpace(ms, op, s, free);
      case Munmap(_, _, _) => reply := MunmapSpace(ms, op, s, free);
      case Store(_, _, _) => reply := StoreSpace(ms, op, s, free, sys.trampoline);
      case Exit(_) =>
        ExitSpace(ms, op, s, free);
        reply := Return(0);
        assert Answer(s, free, op) == Return(0) by { ExitAnswer(s, free, op); }
    }
    sys' := sys.(zombie := sys.zombie[op.i := op.Exit?]);
    if GoesOn(m, op) {
      WorldStep(Turn(sys, op.i, op.Exit?));
    }
  }

  lemma Named(sys: System, m: Machine, op: Op)
    requires World(sys) && Represents(sys, m) && Names(m, op)
    ensures var ms := sys.spaces[op.i];
      && ms.mem == sys.mem && ms.mem.FreeCount() == m.free && ms.tramp == Pte(sys.trampoline, V + R + X)
      && sys.trampoline < PPN_END && Sound(ms, op.Reap?) && SpaceOf(ms, op.Reap?) == m.spaces[op.i]
  {
    hide FrameAllocator.FreeCount, FrameAllocator.Allocated, Pte, MemorySet.Valid, PageTable.Valid, View;
    assert Member(sys, sys.spaces[op.i], sys.zombie[op.i]);
  }

  lemma ExitAnswer(s: Space, free: int, op: Op)
    requires op.Exit? || op.Reap?
    ensures Answer(s, free, op) == Return(0)
    ensures op.Exit? ==> After(s, free, op) == Space(map[], [], s.tables, true) && FreeAfter(s, free, op) == free + |s.view|
  {
  }

  lemma SameShapes(areas: seq<MapArea>, copies: seq<MapArea>)
    requires FullCopies(areas, copies) && |copies| == |areas| && Whole(ShapesOf(areas))
    requires forall k :: 0 <= k < |areas| ==> forall v :: v in areas[k].data ==> areas[k].start <= v < areas[k].end
    ensures ShapesOf(copies) == ShapesOf(areas)
  {
    forall k | 0 <= k < |areas|
      ensures ShapesOf(copies)[k] == ShapesOf(areas)[k]
    {
      assert FullCopy(areas[k], copies[k]);
      forall v
        ensures v in areas[k].data <==> v in Interval(areas[k].start, areas[k].end)
      {
        if areas[k].start <= v < areas[k].end {
          FullAt(areas, k, v);
        }
      }
      assert areas[k].data.Keys == copies[k].data.Keys;
    }
  }

  lemma AreasInRange(ms: MemorySet)
    requires ms.Valid()
    ensures forall k :: 0 <= k < |ms.areas| ==> forall v :: v in ms.areas[k].data ==> ms.areas[k].start <= v < ms.areas[k].end
  {
    hide MappingOf, FramesOk, PageTable.Valid;
    assert ms.areas + [] == ms.areas;
    AllLeft(ms.Mapping(), ms.areas, ms.owned, ms.tramp);
  }

  /** A new space with frames of its own joins the system. */
  lemma AddSpace(sys: System, child: MemorySet, alloc: set<nat>)
    requires sys.mem.Valid() && sys.trampoline < PPN_END && |sys.zombie| == |sys.spaces| && Union(sys.spaces) <= alloc
    requires forall i :: 0 <= i < |sys.spaces| ==> Member(sys, sys.spaces[i], sys.zombie[i])
    requires forall i, j :: 0 <= i < j < |sys.spaces| ==> Separate(sys.spaces[i], sys.spaces[j])
    requires child.mem == sys.mem && child.Valid() && child.tramp == Pte(sys.trampoline, V + R + X)
    requires forall i :: 0 <= i < |sys.spaces| ==> sys.spaces[i] != child && sys.spaces[i].pageTable != child.pageTable
    requires child.Footprint() !! alloc && sys.mem.Allocated() == alloc + child.Footprint()
    ensures World(With(sys, child)) && Others(sys.mem, sys.spaces + [child]) == alloc - Union(sys.spaces)
  {
    hide FrameAllocator.Allocated, FrameAllocator.Valid, MemorySet.Valid, MemorySet.Footprint, Pte, Dead;
    var now := sys.spaces + [child];
    forall i | 0 <= i < |sys.spaces|
      ensures Separate(sys.spaces[i], child)
    {
      assert sys.spaces[i].Footprint() <= Union(sys.spaces);
    }
    assert now[|sys.spaces|] == child;
    forall p
      ensures p in Union(now) <==> p in Union(sys.spaces) || p in child.Footprint()
    {
      if p in Union(now) {
        var i :| 0 <= i < |now| && p in now[i].Footprint();
        assert i < |sys.spaces| ==> sys.spaces[i] == now[i];
      }
      if p in Union(sys.spaces) {
        var i :| 0 <= i < |sys.spaces| && p in sys.spaces[i].Footprint();
        assert p in now[i].Footprint();
      }
    }
  }

  function With(sys: System, child: MemorySet): System
  {
    sys.(spaces := sys.spaces + [child], zombie := sys.zombie + [false])
  }

  /** The child's space is the copy the plain machine adds. */
  lemma CopyJoins(sys: System, m: Machine, op: Op, child: MemorySet)
    requires Names(m, op) && op.Fork? && ReplyTo(m, op) == Return(0) && |m.spaces| == |sys.spaces| == |sys.zombie|
    requires forall i :: 0 <= i < |sys.spaces| ==> sys.spaces[i].mem == sys.mem && SpaceOf(sys.spaces[i], sys.zombie[i]) == m.spaces[i]
    requires child.mem == sys.mem && SpaceOf(child, false) == Copied(m.spaces[op.i])
    requires sys.mem.FreeCount() == m.free - CopyNeed(m.spaces[op.i].shapes)
    ensures Represents(With(sys, child), Next(m, op))
  {
    hide SpaceOf, FrameAllocator.FreeCount, CopyNeed, Copied, Whole;
  }

  /** Fork: a new space that shows the same, or a panic. */
  method ExecFork(sys: System, op: Op, ghost m: Machine) returns (reply: Outcome, sys': System)
    requires World(sys) && Represents(sys, m) && Names(m, op) && op.Fork?
    modifies sys.mem
    ensures reply == ReplyTo(m, op) && sys'.mem == sys.mem
    ensures GoesOn(m, op) ==> |sys'.spaces| == |sys.spaces| + 1 && sys'.spaces[..|sys.spaces|] == sys.spaces
    ensures GoesOn(m, op) ==> fresh(sys'.spaces[|sys.spaces|]) && fresh(sys'.spaces[|sys.spaces|].pageTable)
    ensures GoesOn(m, op) ==> World(sys') && Represents(sys', Next(m, op))
    ensures GoesOn(m, op) ==> Others(sys.mem, sys'.spaces) == old(Others(sys.mem, sys.spaces)) && BytesKept(sys.mem, Others(sys.mem, sys'.spaces))
  {
    hide FrameAllocator.Allocated, FrameAllocator.Valid, FrameAllocator.FreeCount, MemorySet.Valid, Dead,
      MemorySet.Footprint, View, Pte, Whole, FullCopies, CopyNeed, BarePaths, ShapePaths, Next, ShapesOf;
    var parent := sys.spaces[op.i];
    ghost var t := Turn(sys, op.i, false);
    ghost var alloc0 := sys.mem.Allocated();
    AreasInRange(parent);
    ElsewhereThen(t);
    var r := FromExistedUserspace(parent, sys.trampoline);
    if r == None {
      return Panic, sys;
    }
    var child := r.value;
    SameShapes(parent.areas, child.areas);
    FootprintAllocated(parent);
    StillThere(t);
    sys' := With(sys, child);
    AddSpace(sys, child, alloc0);
    CopyJoins(sys, m, op, child);
    reply := Return(0);
  }

  /** A space leaves the system and its frames go back. */
  lemma RemoveSpace(sys: System, i: nat, alloc: set<nat>, union: set<nat>, gone: set<nat>)
    requires i < |sys.spaces| == |sys.zombie| && sys.mem.Valid() && sys.trampoline < PPN_END && gone <= union <= alloc
    requires forall j :: 0 <= j < |sys.spaces| && j != i ==> Member(sys, sys.spaces[j], sys.zombie[j]) && sys.spaces[j].Footprint() !! gone
    requires forall j, k :: 0 <= j < k < |sys.spaces| && j != i && k != i ==> Separate(sys.spaces[j], sys.spaces[k])
    requires forall p :: p in union - gone <==> exists j :: 0 <= j < |sys.spaces| && j != i && p in sys.spaces[j].Footprint()
    requires sys.mem.Allocated() == alloc - gone
    ensures World(WithoutSpace(sys, i)) && Others(sys.mem, Remaining(sys.spaces, i)) == alloc - union
  {
    hide FrameAllocator.Allocated, FrameAllocator.Valid, Sound, MemorySet.Footprint, Pte, Separate;
    var now := Remaining(sys.spaces, i);
    forall p
      ensures p in Union(now) <==> p in union - gone
    {
      if p in Union(now) {
        var j :| 0 <= j < |now| && p in now[j].Footprint();
        assert p in sys.spaces[if j < i then j else j + 1].Footprint();
      }
      if p in union - gone {
        var j :| 0 <= j < |sys.spaces| && j != i && p in sys.spaces[j].Footprint();
        assert p in now[if j < i then j else j - 1].Footprint();
      }
    }
  }

  function WithoutSpace(sys: System, i: nat): System
    requires i < |sys.spaces| == |sys.zombie|
  {
    sys.(spaces := Remaining(sys.spaces, i), zombie := Remaining(sys.zombie, i))
  }

  lemma DeadFootprint(ms: MemorySet)
    requires Sound(ms, true)
    ensures ms.Footprint() == Tables(ms.pageTable.tree) && ms.pageTable.Valid() && ms.pageTable.mem == ms.mem
    ensures SpaceOf(ms, true).tables == ms.pageTable.tree.Keys
  {
    hide PageTable.Valid, Tables;
  }

  lemma ReapAfter(s: Space, free: int, op: Op)
    requires op.Reap?
    ensures FreeAfter(s, free, op) == free + |s.tables|
  {
  }

  /** Without that space the system is what the plain machine says. */
  lemma ReapedLeaves(sys: System, m: Machine, op: Op)
    requires Names(m, op) && op.Reap? && |m.spaces| == |sys.spaces| == |sys.zombie|
    requires forall j :: 0 <= j < |sys.spaces| && j != op.i ==> sys.spaces[j].mem == sys.mem && SpaceOf(sys.spaces[j], sys.zombie[j]) == m.spaces[j]
    requires sys.mem.FreeCount() == FreeAfter(m.spaces[op.i], m.free, op)
    ensures Represents(WithoutSpace(sys, op.i), Next(m, op))
  {
    hide SpaceOf, FrameAllocator.FreeCount, FreeAfter;
  }

  /** The parent reaps: the page table goes, and with it the last of the process. */
  method ExecReap(sys: System, op: Op, ghost m: Machine) returns (sys': System)
    requires World(sys) && Represents(sys, m) && Names(m, op) && op.Reap?
    modifies sys.mem`recycled
    ensures sys' == WithoutSpace(sys, op.i) && World(sys') && Represents(sys', Next(m, op))
    ensures Others(sys.mem, sys'.spaces) == old(Others(sys.mem, sys.spaces)) && BytesKept(sys.mem, Others(sys.mem, sys'.spaces))
  {
    hide FrameAllocator.Allocated, FrameAllocator.Valid, FrameAllocator.FreeCount, Sound, SpaceOf, Pte, Separate,
      Tables, MemorySet.Footprint, PageTable.Valid, FreeAfter, Next;
    ghost var t := Turn(sys, op.i, true);
    Named(sys, m, op);
    DeadFootprint(sys.spaces[op.i]);
    ReapAfter(m.spaces[op.i], m.free, op);
    ghost var alloc0, union, gone := sys.mem.Allocated(), Union(sys.spaces), sys.spaces[op.i].Footprint();
    ElsewhereThen(t);
    assert gone <= union;
    DropTables(sys.spaces[op.i].pageTable);
    forall j | 0 <= j < |sys.spaces| && j != op.i
      ensures Idle(sys.spaces[j]) && sys.spaces[j].Footprint() == old(sys.spaces[j].Footprint())
    {
    }
    StillThere(t);
    RemoveSpace(sys, op.i, alloc0, union, gone);
    ReapedLeaves(sys, m, op);
    sys' := WithoutSpace(sys, op.i);
  }

  /** Any operation. */
  method Exec(sys: System, op: Op, ghost m: Machine) returns (reply: Outcome, sys': System)
    requires World(sys) && Represents(sys, m)
    modifies sys.mem, sys.spaces, set s | s in sys.spaces :: s.pageTable
    ensures reply == ReplyTo(m, op) && sys'.mem == sys.mem
    ensures GoesOn(m, op) ==> World(sys') && Represents(sys', Next(m, op))
    ensures GoesOn(m, op) ==> Others(sys.mem, sys'.spaces) == old(Others(sys.mem, sys.spaces)) && BytesKept(sys.mem, Others(sys.mem, sys'.spaces))
    ensures GoesOn(m, op) ==> forall j :: 0 <= j < |sys'.spaces| ==>
      sys'.spaces[j] in sys.spaces || (fresh(sys'.spaces[j]) && fresh(sys'.spaces[j].pageTable))
  {
    hide World, Others, FrameAllocator.FreeCount, Next, Answer, SpaceOf;
    NamesIs(sys, m, op);
    if op.i >= |sys.spaces| || sys.zombie[op.i] != op.Reap? {
      NextIdle(m, op);
      return Return(-1), sys;
    }
    match op {
      case Fork(_) =>
        reply, sys' := ExecFork(sys, op, m);
        assert GoesOn(m, op) ==> forall j :: 0 <= j < |sys.spaces| ==> sys'.spaces[j] == sys'.spaces[..|sys.spaces|][j];
      case Reap(_) =>
        sys' := ExecReap(sys, op, m);
        reply := Return(0);
        ExitAnswer(m.spaces[op.i], m.free, op);
      case _ =>
        reply, sys' := ExecOwn(sys, op, m);
    }
  }

  lemma NamesIs(sys: System, m: Machine, op: Op)
    requires Represents(sys, m)
    ensures |m.spaces| == |sys.spaces| == |sys.zombie|
    ensures Names(m, op) <==> op.i < |sys.spaces| && sys.zombie[op.i] == op.Reap?
  {
    hide View, FrameAllocator.FreeCount;
  }

  lemma NextIdle(m: Machine, op: Op)
    requires !Names(m, op)
    ensures Next(m, op) == m && ReplyTo(m, op) == Return(-1)
  {
  }

  /** The replies, up to the first call after which nothing is promised any more. */
  ghost function Replies(m: Machine, ops: seq<Op>): seq<Outcome>
    decreases |ops|
  {
    if ops == [] then []
    else [ReplyTo(m, ops[0])] + if GoesOn(m, ops[0]) then Replies(Next(m, ops[0]), ops[1..]) else []
  }

  ghost predicate AllGoOn(m: Machine, ops: seq<Op>)
    decreases |ops|
  {
    ops == [] || (GoesOn(m, ops[0]) && AllGoOn(Next(m, ops[0]), ops[1..]))
  }

  ghost function Final(m: Machine, ops: seq<Op>): Machine
    decreases |ops|
  {
    if ops == [] then m else Final(Next(m, ops[0]), ops[1..])
  }

  /** Any calls at all, by any processes in any order: as long as the machine goes on so does
      the system, with the replies, user pages, tables and number of free frames of the
      machine; all the while every frame has one owner, dead processes included, and
      everyone else's memory is untouched. It stops where the machine does. */
  method Run(sys: System, ops: seq<Op>, ghost m: Machine) returns (replies: seq<Outcome>, sys': System, ok: bool)
    requires World(sys) && Represents(sys, m)
    modifies sys.mem, sys.spaces, set s | s in sys.spaces :: s.pageTable
    decreases |ops|
    ensures replies == Replies(m, ops) && (ok <==> AllGoOn(m, ops))
    ensures ok ==> sys'.mem == sys.mem && World(sys') && Represents(sys', Final(m, ops))
    ensures ok ==> Others(sys.mem, sys'.spaces) == old(Others(sys.mem, sys.spaces)) && BytesKept(sys.mem, Others(sys.mem, sys'.spaces))
    ensures ok ==> |Others(sys.mem, sys'.spaces)| + |Union(sys'.spaces)| + sys.mem.FreeCount() == sys.mem.end - sys.mem.base
  {
    hide World, Others, FrameAllocator.FreeCount, Next, ReplyTo, Union, SpaceOf;
    if |ops| == 0 {
      Conserved(sys);
      return [], sys, true;
    }
    var none := sys.mem.FreeCount() == 0;
    var reply, sys1 := Exec(sys, ops[0], m);
    if !reply.Return? && (!reply.OutOfFrames? || !none) {
      return [reply], sys1, false;
    }
    assert GoesOn(m, ops[0]);
    assert forall s :: s in sys1.spaces ==> s in sys.spaces || (fresh(s) && fresh(s.pageTable));
    replies, sys', ok := Run(sys1, ops[1..], Next(m, ops[0]));
    replies := [reply] + replies;
  }

  /** Where a run stops: after calls that all went well, at one that panics, or at a mapping
      that takes the last frame half way. */
  lemma {:induction false} StopsAtCall(m: Machine, ops: seq<Op>)
    requires !AllGoOn(m, ops)
    ensures exists n :: 0 <= n < |ops| && StopsThere(m, ops, n)
    decreases |ops|
  {
    hide GoesOn, Next, ReplyTo;
    if !GoesOn(m, ops[0]) {
      assert ops[..0] == [];
      assert StopsThere(m, ops, 0);
    } else {
      StopsAtCall(Next(m, ops[0]), ops[1..]);
      var n :| 0 <= n < |ops[1..]| && StopsThere(Next(m, ops[0]), ops[1..], n);
      assert ops[..n + 1][1..] == ops[1..][..n] && ops[1..][n] == ops[n + 1];
      assert StopsThere(m, ops, n + 1);
    }
  }

  ghost predicate StopsThere(m: Machine, ops: seq<Op>, n: nat)
    requires n < |ops|
  {
    AllGoOn(m, ops[..n]) && !GoesOn(Final(m, ops[..n]), ops[n]) && |Replies(m, ops)| == n + 1
  }

  /** A bare space with its trampoline is a system to start from; frames in use elsewhere
      count as the kernel's. */
  method Start(mem: FrameAllocator, trampoline: nat) returns (sys: System)
    requires mem.Valid() && mem.FreeCount() >= |BarePaths()| && trampoline < PPN_END
    modifies mem
    ensures sys.mem == mem && World(sys)
    ensures Represents(sys, Machine([Space(map[], [], BarePaths(), false)], old(mem.FreeCount()) - |BarePaths()|))
    ensures Others(mem, sys.spaces) == old(mem.Allocated())
  {
    hide FrameAllocator.Allocated, FrameAllocator.FreeCount, FrameAllocator.Valid, AreasOk, FramesOk, MappingOf,
      PageTable.Valid, Pte, MemorySet.Footprint, BarePaths;
    ghost var alloc0 := mem.Allocated();
    var ms := new MemorySet(mem, trampoline);
    FootprintAllocated(ms);
    assert [ms][0] == ms;
    forall p
      ensures p in Union([ms]) <==> p in ms.Footprint()
    {
      assert p in ms.Footprint() ==> p in [ms][0].Footprint();
    }
    sys := System(mem, [ms], [false], trampoline);
  }
}
