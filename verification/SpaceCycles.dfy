/** What runs of the address spaces come to: forking and reaping for ever costs no frames,
    and a munmap that cuts an area takes the program's ability to fork. */
module SpaceCycles {
  import opened Words
  import opened Sets
  import opened Frames
  import opened PageTables
  import opened UserBuffers
  import opened MemorySets
  import opened AreaLists
  import opened Mmap
  import opened SpaceCopy
  import opened SpaceRuns

  /** All pages of a list of areas. */
  ghost function AllPages(areas: seq<MapArea>): set<nat>
  {
    if areas == [] then {} else AllPages(areas[..|areas| - 1]) + areas[|areas| - 1].data.Keys
  }

  lemma {:induction false} AllPagesAre(areas: seq<MapArea>, v: nat)
    ensures v in AllPages(areas) <==> InSomeArea(areas, v)
  {
    if areas != [] {
      var n := |areas| - 1;
      AllPagesAre(areas[..n], v);
      if InSomeArea(areas[..n], v) {
        var k :| 0 <= k < n && v in areas[..n][k].data;
        assert v in areas[k].data;
      }
      if InSomeArea(areas, v) {
        var k :| 0 <= k < |areas| && v in areas[k].data;
        assert k < n ==> v in areas[..n][k].data;
      }
    }
  }

  /** Areas without missing pages have as many pages as their ranges. */
  lemma {:induction false} FullSize(areas: seq<MapArea>)
    requires Apart(areas) && Whole(ShapesOf(areas))
    requires forall k :: 0 <= k < |areas| ==> areas[k].start <= areas[k].end
    requires forall k, v :: 0 <= k < |areas| && v in areas[k].data ==> areas[k].start <= v < areas[k].end
    ensures |AllPages(areas)| == Count(ShapesOf(areas))
  {
    if areas != [] {
      var n := |areas| - 1;
      FullSize(areas[..n]);
      assert areas[n].data.Keys == Interval(areas[n].start, areas[n].end);
      forall v | v in AllPages(areas[..n])
        ensures v !in areas[n].data
      {
        AllPagesAre(areas[..n], v);
        var k :| 0 <= k < n && v in areas[..n][k].data;
        assert areas[k].data.Keys !! areas[n].data.Keys;
      }
      assert |AllPages(areas)| == |AllPages(areas[..n])| + |areas[n].data.Keys|;
    }
  }

  /** A live program that can fork sees one page for each page of its areas' ranges. */
  lemma ViewSize(ms: MemorySet)
    requires ms.Valid() && Whole(ShapesOf(ms.areas))
    ensures |View(ms)| == Count(ShapesOf(ms.areas))
  {
    hide MappingOf, FramesOk, PageTable.Valid, FrameAllocator.Allocated, View, Whole;
    SeenSize(ms);
    assert ms.areas + [] == ms.areas;
    AreasInRange(ms);
    AllFit(ms.Mapping(), ms.areas, ms.owned, ms.tramp);
    AreasHold(ms.Mapping(), ms.areas, ms.owned, ms.tramp);
    forall v: nat
      ensures v in AllPages(ms.areas) <==> v in ms.owned
    {
      AllPagesAre(ms.areas, v);
    }
    assert AllPages(ms.areas) == ms.owned.Keys;
    FullSize(ms.areas);
  }

  /** The child number n of process i is forked, exits and is reaped. */
  function Round(i: nat, n: nat): seq<Op> { [Fork(i), Exit(n), Reap(n)] }

  function Rounds(i: nat, n: nat, times: nat): seq<Op>
  {
    if times == 0 then [] else Round(i, n) + Rounds(i, n, times - 1)
  }

  /** One round leaves everything as it was, to the last frame. */
  lemma RoundTrip(m: Machine, i: nat)
    requires i < |m.spaces| && !m.spaces[i].zombie && ReplyTo(m, Fork(i)) == Return(0)
    requires |m.spaces[i].view| == Count(m.spaces[i].shapes)
    ensures AllGoOn(m, Round(i, |m.spaces|)) && Final(m, Round(i, |m.spaces|)) == m
    ensures Replies(m, Round(i, |m.spaces|)) == [Return(0), Return(0), Return(0)]
  {
    hide BarePaths, ShapePaths, Whole;
    var n := |m.spaces|;
    var s := m.spaces[i];
    var m1 := Next(m, Fork(i));
    assert m1 == Machine(m.spaces + [Copied(s)], m.free - CopyNeed(s.shapes));
    var m2 := Next(m1, Exit(n));
    var dead := Space(map[], [], Copied(s).tables, true);
    assert m1.spaces[n] == Copied(s);
    assert m2 == Machine(m.spaces + [dead], m1.free + |s.view|);
    assert m2.spaces[n] == dead;
    var m3 := Next(m2, Reap(n));
    assert m3.spaces == m.spaces && m3.free == m2.free + |dead.tables|;
    ThreeOps(m, Fork(i), Exit(n), Reap(n));
  }

  lemma ThreeOps(m: Machine, a: Op, b: Op, c: Op)
    ensures var m1 := Next(m, a); var m2 := Next(m1, b);
      && (AllGoOn(m, [a, b, c]) <==> GoesOn(m, a) && GoesOn(m1, b) && GoesOn(m2, c))
      && Final(m, [a, b, c]) == Next(m2, c)
      && (GoesOn(m, a) && GoesOn(m1, b) ==> Replies(m, [a, b, c]) == [ReplyTo(m, a), ReplyTo(m1, b), ReplyTo(m2, c)])
  {
    hide Next, GoesOn, ReplyTo;
    var ops := [a, b, c];
    var m1 := Next(m, a);
    var m2 := Next(m1, b);
    var m3 := Next(m2, c);
    assert ops[1..] == [b, c] && [b, c][1..] == [c] && [c][1..] == [];
    assert AllGoOn(m3, []) && Final(m3, []) == m3 && Replies(m3, []) == [];
    assert (AllGoOn(m2, [c]) <==> GoesOn(m2, c)) && Final(m2, [c]) == m3 && Replies(m2, [c]) == [ReplyTo(m2, c)];
    assert Final(m1, [b, c]) == m3 && (AllGoOn(m1, [b, c]) <==> GoesOn(m1, b) && GoesOn(m2, c));
  }

  lemma {:induction false} RunsInTurn(m: Machine, ops: seq<Op>, more: seq<Op>)
    requires AllGoOn(m, ops)
    ensures AllGoOn(m, ops + more) <==> AllGoOn(Final(m, ops), more)
    ensures Final(m, ops + more) == Final(Final(m, ops), more)
    decreases |ops|
  {
    hide Next, GoesOn;
    if ops == [] {
      assert ops + more == more;
    } else {
      RunsInTurn(Next(m, ops[0]), ops[1..], more);
      assert (ops + more)[1..] == ops[1..] + more;
    }
  }

  /** So any number of rounds goes through where one does. */
  lemma {:induction false} RoundsForEver(m: Machine, i: nat, times: nat)
    requires i < |m.spaces| && !m.spaces[i].zombie && ReplyTo(m, Fork(i)) == Return(0)
    requires |m.spaces[i].view| == Count(m.spaces[i].shapes)
    ensures AllGoOn(m, Rounds(i, |m.spaces|, times)) && Final(m, Rounds(i, |m.spaces|, times)) == m
  {
    hide ReplyTo, Round;
    if times > 0 {
      RoundTrip(m, i);
      RoundsForEver(m, i, times - 1);
      RunsInTurn(m, Round(i, |m.spaces|), Rounds(i, |m.spaces|, times - 1));
    }
  }

  /** A system on which process i can fork once can do so, with its children exiting and
      being reaped, as often as it likes, and has the same number of free frames after. */
  lemma ShellForEver(sys: System, m: Machine, i: nat, times: nat)
    requires World(sys) && Represents(sys, m) && i < |m.spaces| && !m.spaces[i].zombie
    requires ReplyTo(m, Fork(i)) == Return(0)
    ensures AllGoOn(m, Rounds(i, |m.spaces|, times)) && Final(m, Rounds(i, |m.spaces|, times)) == m
  {
    hide World, CopyNeed, View, FrameAllocator.FreeCount, Count, Whole;
    Named(sys, m, Fork(i));
    ViewSize(sys.spaces[i]);
    RoundsForEver(m, i, times);
  }

  /** The range takes some but not all pages of the area. */
  predicate Cuts(s: Shape, lo: nat, hi: nat)
  {
    (if lo < s.lo then s.lo else lo) < (if hi < s.hi then hi else s.hi) && !(lo <= s.lo && s.hi <= hi)
  }

  ghost predicate Complete(s: Shape) { s.lo <= s.hi && s.pages == Interval(s.lo, s.hi) }

  lemma TrimComplete(s: Shape, lo: nat, hi: nat)
    requires Complete(s)
    ensures var rest := PagesOutside(s.pages, lo, hi);
      Whole(if rest == s.pages then [s] else if rest == {} then [] else [s.(pages := rest)]) <==> !Cuts(s, lo, hi)
  {
    var rest := PagesOutside(s.pages, lo, hi);
    if Cuts(s, lo, hi) {
      var gone := if lo < s.lo then s.lo else lo;
      var kept := if s.lo < lo then s.lo else hi;
      assert gone in s.pages && gone !in rest && kept in rest;
      assert !Whole([s.(pages := rest)]) by {
        assert gone !in [s.(pages := rest)][0].pages;
      }
    } else if lo <= s.lo && s.hi <= hi {
      assert rest == {};
    } else {
      assert rest == s.pages;
    }
  }

  lemma WholeParts(a: seq<Shape>, b: seq<Shape>)
    ensures Whole(a + b) <==> Whole(a) && Whole(b)
  {
    if Whole(a + b) {
      assert forall k :: 0 <= k < |a| ==> (a + b)[k] == a[k];
      assert forall k :: 0 <= k < |b| ==> (a + b)[|a| + k] == b[k];
    }
  }

  /** After a munmap no page is missing from any area if and only if the range cuts none. */
  lemma {:induction false} WholeUnlessCut(shapes: seq<Shape>, lo: nat, hi: nat)
    requires forall k :: 0 <= k < |shapes| ==> Complete(shapes[k])
    ensures Whole(TrimShapes(shapes, lo, hi)) <==> forall k :: 0 <= k < |shapes| ==> !Cuts(shapes[k], lo, hi)
  {
    hide Complete, Cuts, Whole, PagesOutside;
    if shapes == [] {
      assert Whole([]) by { NoAreas(); }
    } else {
      var n := |shapes| - 1;
      WholeUnlessCut(shapes[..n], lo, hi);
      var s := shapes[n];
      var rest := PagesOutside(s.pages, lo, hi);
      TrimComplete(s, lo, hi);
      WholeParts(TrimShapes(shapes[..n], lo, hi), if rest == s.pages then [s] else if rest == {} then [] else [s.(pages := rest)]);
      assert forall k :: 0 <= k < n ==> shapes[..n][k] == shapes[k];
    }
  }

  lemma NoAreas()
    ensures Whole([])
  {
  }

  /** A program whose areas are complete and that unmaps a range can fork afterwards if and
      only if the range cuts no area and the frames suffice; otherwise its fork panics. */
  lemma ForkAfterMunmap(m: Machine, op: Op)
    requires op.Munmap? && Names(m, op) && ReplyTo(m, op) == Return(0)
    requires forall k :: 0 <= k < |m.spaces[op.i].shapes| ==> Complete(m.spaces[op.i].shapes[k])
    ensures var m' := Next(m, op); var shapes := m.spaces[op.i].shapes;
      && ReplyTo(m', Fork(op.i)) in {Return(0), Panic}
      && (ReplyTo(m', Fork(op.i)) == Return(0) <==>
          (&& (forall k :: 0 <= k < |shapes| ==> !Cuts(shapes[k], First(op.start), Last(op.start, op.len)))
           && m'.free >= CopyNeed(m'.spaces[op.i].shapes)))
  {
    hide Complete, Cuts, Whole, CopyNeed, TrimShapes, First, Last, Outside;
    WholeUnlessCut(m.spaces[op.i].shapes, First(op.start), Last(op.start, op.len));
  }

  ghost function BareMachine(free: int): Machine { Machine([Space(map[], [], BarePaths(), false)], free) }

  lemma AfterMmap(free: int)
    requires free >= 4
    ensures var m := BareMachine(free); var m1 := Next(m, Mmap(0, 0, 8192, 3));
      && ReplyTo(m, Mmap(0, 0, 8192, 3)) == Return(0)
      && |m1.spaces| == 1 && !m1.spaces[0].zombie && m1.spaces[0].shapes == [Shape(0, 2, Interval(0, 2))]
      && m1.spaces[0].view.Keys == Interval(0, 2)
  {
    hide BarePaths, Need, ZeroPages, MmapReply, First, Last, Paths, WithV;
    TwoPagesMapped(free);
    var m := BareMachine(free);
    assert m.spaces[0].view.Keys + {TRAMPOLINE_VPN} == {TRAMPOLINE_VPN};
    ZeroPagesAre(0, 2, WithV(U + 2 * 3));
  }

  /** For one: two pages mapped, the first unmapped, and fork panics, however many frames
      are free. */
  lemma PartialUnmapPanics(free: int)
    requires free >= 4
    ensures Replies(BareMachine(free), [Mmap(0, 0, 8192, 3), Munmap(0, 0, 4096), Fork(0)]) == [Return(0), Return(0), Panic]
  {
    hide BareMachine, Need, MmapReply, First, Last, After, FreeAfter;
    var m := BareMachine(free);
    AfterMmap(free);
    TwoPagesMapped(free);
    var m1 := Next(m, Mmap(0, 0, 8192, 3));
    assert Complete(m1.spaces[0].shapes[0]) && Cuts(m1.spaces[0].shapes[0], 0, 1);
    ForkAfterMunmap(m1, Munmap(0, 0, 4096));
    ThreeOps(m, Mmap(0, 0, 8192, 3), Munmap(0, 0, 4096), Fork(0));
  }

  lemma TwoPagesMapped(free: int)
    requires free >= 4
    ensures First(0) == 0 && Last(0, 8192) == 2 && Last(0, 4096) == 1
    ensures MmapReply({TRAMPOLINE_VPN}, BarePaths(), free, 0, 8192, 3) == Return(0)
  {
  }

  lemma FlagsAsked(prot: nat)
    requires 1 <= prot <= 7
    ensures MayWrite(WithV(U + 2 * prot)) <==> prot == 3 || prot == 7
  {
  }

  /** After an mmap a store into the range goes through if and only if the address is
      canonical and both reading and writing were asked for. */
  lemma StoreAfterMmap(m: Machine, op: Op, va: u64, value: byte)
    requires op.Mmap? && Names(m, op) && ReplyTo(m, op) == Return(0)
    requires First(op.start) <= Floor(VirtAddr(va)) < Last(op.start, op.len)
    ensures ReplyTo(Next(m, op), Store(op.i, va, value)) ==
      Return(if Canonical(va) && (op.prot == 3 || op.prot == 7) then 0 else -1)
  {
    hide First, Last, Floor, VirtAddr, Canonical, Need, Paths, MayWrite, WithV, Insertion, ZeroPage;
    FlagsAsked(op.prot);
  }
}
