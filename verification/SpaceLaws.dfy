/** What the plain machine of address spaces promises a program, in the addresses it uses. */
module SpaceLaws {
  import opened Words
  import opened Sets
  import opened PageTables
  import opened UserBuffers
  import opened MemorySets
  import opened AreaLists
  import opened Mmap
  import opened SpaceCopy
  import opened SpaceRuns

  /** mmap, where nothing wraps, refuses exactly bad arguments and a range with a page that
      is there. */
  lemma MmapRefuses(m: Machine, op: Op)
    requires Names(m, op) && op.Mmap? && op.start + op.len + 4095 < VA_END
    ensures ReplyTo(m, op) == Return(-1) <==>
      op.start % 4096 != 0 || op.prot == 0 || op.prot > 7 || exists v :: v in m.spaces[op.i].view && op.start <= v * 4096 < op.start + op.len
  {
    hide First, Last, MmapReply;
    var s := m.spaces[op.i];
    var mapped := s.view.Keys + {TRAMPOLINE_VPN};
    RefusalInAddresses(mapped, s.tables, m.free, op.start, op.len, op.prot);
    if v :| v in mapped && op.start <= v * 4096 < op.start + op.len {
      assert v in s.view;
    }
  }

  /** After success the new pages are those that begin in [start, start + len), all of that
      range can be reached, and the new pages are zero with the flags asked for. */
  lemma MmapGrows(m: Machine, op: Op)
    requires Names(m, op) && op.Mmap? && op.start + op.len + 4095 < VA_END && ReplyTo(m, op) == Return(0)
    ensures Grown(m.spaces[op.i].view, Next(m, op).spaces[op.i].view, op.start, op.len, op.prot)
  {
    hide First, Last, MmapReply, ZeroPages, WithV, Need, Paths, After, FreeAfter, Grown;
    var s := m.spaces[op.i];
    AcceptedMmap(s.view.Keys + {TRAMPOLINE_VPN}, s.tables, m.free, op.start, op.len, op.prot);
    MmapAfter(s, m.free, op);
    GrownByRange(s.view, op.start, op.len, op.prot);
  }

  /** The pages a call adds are those that begin in the range, and all of it can be reached. */
  ghost predicate NewPages(before: set<nat>, after: set<nat>, start: nat, len: nat)
  {
    && (forall v: nat :: v in after && v !in before <==> start <= v * 4096 < start + len)
    && (forall a: nat :: start <= a < start + len ==> Floor(a) in after)
  }

  /** What was there stays, and what is new is zero with the flags asked for. */
  ghost predicate BlankOutside(view: map<nat, UserPage>, view': map<nat, UserPage>, prot: nat)
  {
    && (forall v :: v in view ==> v in view' && view'[v] == view[v])
    && (forall v :: v in view' && v !in view ==> view'[v].flags == 17 + 2 * prot && forall k :: 0 <= k < 4096 ==> view'[v].bytes[k] == 0)
  }

  /** The view after a successful mmap. */
  ghost predicate Grown(view: map<nat, UserPage>, view': map<nat, UserPage>, start: nat, len: nat, prot: nat)
  {
    NewPages(view.Keys, view'.Keys, start, len) && BlankOutside(view, view', prot)
  }

  lemma GrownByRange(view: map<nat, UserPage>, start: u64, len: u64, prot: u64)
    requires start % 4096 == 0 && 1 <= prot <= 7 && First(start) <= Last(start, len) && start + len + 4095 < VA_END
    requires Interval(First(start), Last(start, len)) !! view.Keys
    ensures Grown(view, view + ZeroPages(First(start), Last(start, len), WithV(U + 2 * prot)), start, len, prot)
  {
    hide First, Last, ZeroPages, WithV, BlankOutside, NewPages;
    var lo, hi := First(start), Last(start, len);
    ZeroPagesAre(lo, hi, WithV(U + 2 * prot));
    NewInAddresses(view.Keys, view.Keys + Interval(lo, hi), start, len);
    BlankPages(view, lo, hi, prot);
  }

  lemma NewInAddresses(before: set<nat>, after: set<nat>, start: u64, len: u64)
    requires start % 4096 == 0 && start + len + 4095 < VA_END && First(start) <= Last(start, len)
    requires after == before + Interval(First(start), Last(start, len)) && Interval(First(start), Last(start, len)) !! before
    ensures NewPages(before, after, start, len)
  {
    hide First, Last, Floor;
    AddedInAddresses(before, after, start, len);
  }

  lemma BlankPages(view: map<nat, UserPage>, lo: nat, hi: nat, prot: u64)
    requires lo <= hi && prot <= 7 && Interval(lo, hi) !! view.Keys
    ensures BlankOutside(view, view + ZeroPages(lo, hi, WithV(U + 2 * prot)), prot)
  {
    hide ZeroPages, WithV;
    ZeroPagesAre(lo, hi, WithV(U + 2 * prot));
    AllFlags(prot);
  }

  lemma AcceptedMmap(mapped: set<nat>, keys: set<seq<nat>>, free: int, start: u64, len: u64, prot: u64)
    requires MmapReply(mapped, keys, free, start, len, prot) == Return(0)
    ensures start % 4096 == 0 && 1 <= prot <= 7 && First(start) <= Last(start, len)
    ensures Interval(First(start), Last(start, len)) !! mapped
  {
    hide First, Last, Insertion;
  }

  /** munmap, where nothing wraps: it succeeds exactly if every page that begins in the range
      is there, and then exactly those go. */
  lemma MunmapIs(m: Machine, op: Op)
    requires Names(m, op) && op.Munmap? && op.start + op.len + 4095 < VA_END
    ensures var view := m.spaces[op.i].view; var r := ReplyTo(m, op);
      && (r == Return(0) || r == Return(-1))
      && (r == Return(0) <==> op.start % 4096 == 0 && forall v: nat :: op.start <= v * 4096 < op.start + op.len ==> v in view)
    ensures ReplyTo(m, op) == Return(0) ==> Shrunk(m.spaces[op.i].view, Next(m, op).spaces[op.i].view, op.start, op.len)
  {
    hide First, Last, Outside, TrimShapes;
    var s := m.spaces[op.i];
    if op.start % 4096 == 0 {
      RemovedInAddresses(s.view, Outside(s.view, First(op.start), Last(op.start, op.len)), s.view.Keys, op.start, op.len);
    }
  }

  ghost predicate Shrunk(view: map<nat, UserPage>, view': map<nat, UserPage>, start: nat, len: nat)
  {
    && (forall v: nat :: v in view' <==> v in view && !(start <= v * 4096 < start + len))
    && (forall v :: v in view' ==> view'[v] == view[v])
    && (forall a: nat :: start <= a < start + len ==> Floor(a) !in view')
  }

  /** A store changes the one byte at its address, which is in the page with the number of
      bits 38 to 12, at the offset of bits 11 to 0. */
  lemma StoreChanges(m: Machine, op: Op)
    requires Names(m, op) && op.Store? && ReplyTo(m, op) == Return(0)
    ensures var view := m.spaces[op.i].view; var view' := Next(m, op).spaces[op.i].view; var v := op.va % 0x80_0000_0000 / 4096;
      && v in view && view'.Keys == view.Keys && view'[v].bytes[op.va % 4096] == op.value
      && (forall w :: w in view ==> view'[w].flags == view[w].flags)
      && forall w, k :: w in view && 0 <= k < 4096 && !(w == v && k == op.va % 4096) ==> view'[w].bytes[k] == view[w].bytes[k]
  {
    hide MayWrite, Canonical;
  }

  /** A fork answers 0 with a new space that shows the same. */
  lemma ForkShowsSame(m: Machine, op: Op)
    requires Names(m, op) && op.Fork? && ReplyTo(m, op) == Return(0)
    ensures var m' := Next(m, op);
      && |m'.spaces| == |m.spaces| + 1 && m'.spaces[..|m.spaces|] == m.spaces
      && m'.spaces[|m.spaces|].view == m.spaces[op.i].view && !m'.spaces[|m.spaces|].zombie
  {
    hide Whole, CopyNeed, BarePaths, ShapePaths;
  }

  /** A run stops only where the kernel panics, or a mapping takes the last of some free frames. */
  lemma StopsOnly(m: Machine, op: Op)
    ensures !GoesOn(m, op) <==> ReplyTo(m, op) == Panic || (ReplyTo(m, op) == OutOfFrames && m.free != 0)
  {
    hide Answer;
  }

  /** A process that exits sees nothing any more and gives back a frame for each of its pages;
      reaping it gives back one for each of its tables, and only its space goes. */
  lemma ExitThenReap(m: Machine, i: nat)
    requires i < |m.spaces| && !m.spaces[i].zombie
    ensures var m1 := Next(m, Exit(i)); var m2 := Next(m1, Reap(i));
      && |m1.spaces| == |m.spaces| && m1.spaces[i].zombie && m1.spaces[i].view == map[]
      && m1.free == m.free + |m.spaces[i].view| && m2.free == m1.free + |m.spaces[i].tables|
      && m2.spaces == m.spaces[..i] + m.spaces[i + 1..]
      && forall j :: 0 <= j < |m.spaces| && j != i ==> m1.spaces[j] == m.spaces[j]
  {
    var m1 := Next(m, Exit(i));
    ExitAnswer(m.spaces[i], m.free, Exit(i));
    ExitAnswer(m1.spaces[i], m1.free, Reap(i));
    ReapAfter(m1.spaces[i], m1.free, Reap(i));
  }

  /** What a process sees is up to its own calls: any calls by others leave its space as it
      was, those of its parent and its children included. */
  lemma {:induction false} OthersLeaveAlone(m: Machine, ops: seq<Op>, j: nat)
    requires j < |m.spaces| && forall op :: op in ops ==> !op.Reap? && (op.i == j ==> op.Fork?)
    ensures j < |Final(m, ops).spaces| && Final(m, ops).spaces[j] == m.spaces[j]
    decreases |ops|
  {
    hide After, Answer, FreeAfter, Copied;
    if ops != [] {
      assert ops[0] in ops;
      OthersLeaveAlone(Next(m, ops[0]), ops[1..], j);
    }
  }
}
