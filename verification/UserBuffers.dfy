/** Address translation by software against the privileged architecture, and user
    buffers as lists of frame slices (os/src/mm/page_table.rs:83-258). */
module UserBuffers {
  import opened Words
  import opened Frames
  import opened PageTables

  const VA_END: int := 0x80_0000_0000 // 2^39

  /** `VirtAddr::from(usize)` keeps the low 39 bits. */
  function VirtAddr(a: nat): nat { a % VA_END }

  /** `floor` */
  function Floor(va: nat): nat { va / 4096 }

  /** `ceil`; the source computes `va - 1 + PAGE_SIZE` in wrapping arithmetic, so 0 gives 0. */
  function Ceil(va: nat): nat { (va + 4095) / 4096 }

  /** `translate_va` */
  function TranslateVa(pages: seq<Page>, root: nat, a: nat): Option<nat>
  {
    match Walk(pages, root, Floor(VirtAddr(a)))
    case Some(pte) => Some(PtePpn(pte) * 4096 + VirtAddr(a) % 4096)
    case None => None
  }

  /** Where a walk of the hardware ends: the leaf entry, and the physical address. */
  datatype Leaf = Leaf(pte: u64, addr: nat)

  /** Virtual-address translation as section 4.3.2 of the RISC-V Privileged Architecture
      (version 20211203) gives it, with the Sv39 parameters of section 4.4 (three levels,
      8-byte entries): steps 1 to 4, 6 and 8; None is a page fault. The step about
      accessed and dirty bits (7) is not covered. `level` counts down from 2. */
  function HwWalk(pages: seq<Page>, table: nat, va: nat, level: nat): Option<Leaf>
    requires level < 3
    decreases level
  {
    var pte := EntryOf(pages, table, HwVpn(va, level));
    if !IsValid(pte) || (!Readable(pte) && Writable(pte)) || pte >= 0x40_0000_0000_0000 then None
    else if Readable(pte) || Executable(pte) then
      var ppn := PtePpn(pte);
      var span := if level == 2 then 0x4_0000 else if level == 1 then 512 else 1;
      if ppn % span != 0 then None // misaligned superpage
      else Some(Leaf(pte, (ppn + va / 4096 % span) * 4096 + va % 4096))
    else if level == 0 then None
    else HwWalk(pages, PtePpn(pte), va, level - 1)
  }

  /** va.vpn[level] */
  function HwVpn(va: nat, level: nat): (i: nat)
    requires level < 3
    ensures i < 512
  {
    if level == 2 then va / 0x4000_0000 % 512 else if level == 1 then va / 0x20_0000 % 512 else va / 4096 % 512
  }

  /** Bits 63 to 39 equal bit 38. */
  predicate Canonical(a: u64)
  {
    a < VA_END / 2 || a >= TWO64 - VA_END / 2
  }

  function HwLookup(pages: seq<Page>, root: nat, a: u64): Option<Leaf>
  {
    if Canonical(a) then HwWalk(pages, root, a, 2) else None
  }

  function HwTranslate(pages: seq<Page>, root: nat, a: u64): Option<nat>
  {
    match HwLookup(pages, root, a)
    case Some(leaf) => Some(leaf.addr)
    case None => None
  }

  /** A store in user mode: step 5 wants the leaf's W and U bits set. */
  function HwStore(pages: seq<Page>, root: nat, a: u64): Option<nat>
  {
    match HwLookup(pages, root, a)
    case Some(leaf) => if Writable(leaf.pte) && UserMode(leaf.pte) then Some(leaf.addr) else None
    case None => None
  }

  predicate UserMode(bits: u64) { PteFlags(bits) / 16 % 2 == 1 }

  /** The leaf encodings the standard gives a meaning: readable or executable, and not
      writable without being readable. */
  predicate LeafOk(pte: u64)
  {
    (Readable(pte) || Executable(pte)) && (Writable(pte) ==> Readable(pte)) && pte < 0x40_0000_0000_0000
  }

  lemma SameIndexes(a: u64)
    requires Canonical(a)
    ensures var v := Floor(VirtAddr(a));
      v < VPN_END && Index(v, 0) == HwVpn(a, 2) && Index(v, 1) == HwVpn(a, 1) && Index(v, 2) == HwVpn(a, 0)
    ensures VirtAddr(a) % 4096 == a % 4096
  {
    var q, v := a / VA_END, VirtAddr(a);
    assert a == q * VA_END + v;
    LowBits(q, v, 4096, 0x800_0000);
    LowBits(q, v, 0x20_0000, 0x4_0000);
    LowBits(q, v, 0x4000_0000, 512);
    LowIndexes(v);
    MultipleOf512(q * 0x4_0000, v / 4096);
    MultipleOf512(q * 512, v / 0x20_0000);
    MultipleOf512(q, v / 0x4000_0000);
  }

  lemma LowBits(q: nat, v: nat, d: nat, k: nat)
    requires d in {4096, 0x20_0000, 0x4000_0000} && d * k == VA_END
    ensures (q * VA_END + v) / d == q * k + v / d
    ensures d == 4096 ==> (q * VA_END + v) % d == v % d
  {
  }

  lemma MultipleOf512(x: nat, y: nat)
    ensures (x * 512 + y) % 512 == y % 512
  {
  }

  lemma LowIndexes(v: nat)
    requires v < VA_END
    ensures Floor(v) < VPN_END
    ensures Index(Floor(v), 0) == v / 0x4000_0000 % 512 && Index(Floor(v), 1) == v / 0x20_0000 % 512
    ensures Index(Floor(v), 2) == v / 4096 % 512
  {
    TopLevel(v);
    MiddleLevel(v);
  }

  lemma TopLevel(v: nat)
    ensures v / 4096 / 0x4_0000 == v / 0x4000_0000
  {
  }

  lemma MiddleLevel(v: nat)
    ensures v / 4096 / 512 == v / 0x20_0000
  {
  }

  /** An interior entry is a pointer to the hardware too. */
  lemma PointerEntry(f: nat)
    requires f < PPN_END
    ensures var e := Pte(f, V);
      IsValid(e) && !Readable(e) && !Writable(e) && !Executable(e) && e < 0x40_0000_0000_0000 && PtePpn(e) == f
  {
    hide Pte, PteFlags, PtePpn;
    PteRoundTrip(f, V);
    EntryBound(f, V);
  }

  /** On every table tree and every canonical address, the standard's walk gives the entry
      and the address of the software walk when the leaf is one the standard allows, and
      faults otherwise: also where a write-only mapping makes the software walk succeed. */
  lemma SoftwareIsStandard(pages: seq<Page>, root: nat, tree: Tree, a: u64)
    requires TreeInv(pages, root, tree) && Canonical(a)
    ensures HwTranslate(pages, root, a) ==
      match Walk(pages, root, Floor(VirtAddr(a)))
      case Some(pte) => if LeafOk(pte) then TranslateVa(pages, root, a) else None
      case None => None
    ensures HwLookup(pages, root, a).Some? ==>
      Walk(pages, root, Floor(VirtAddr(a))) == Some(HwLookup(pages, root, a).value.pte)
  {
    hide IsValid, Readable, Writable, Executable, PtePpn, EntryOf, Pte, Index, HwVpn, TreeInv;
    TreeShape(pages, root, tree);
    var v := Floor(VirtAddr(a));
    SameIndexes(a);
    WalkByTree(pages, root, tree, v);
    LinkedAt(pages, root, tree, [], Index(v, 0));
    assert [] + [Index(v, 0)] == Path1(v);
    if Path1(v) in tree {
      PointerEntry(tree[Path1(v)]);
      LinkedAt(pages, root, tree, Path1(v), Index(v, 1));
      assert Path1(v) + [Index(v, 1)] == Path2(v);
      HwStep(pages, root, a, 2);
      if Path2(v) in tree {
        PointerEntry(tree[Path2(v)]);
        HwStep(pages, tree[Path1(v)], a, 1);
      }
    }
  }

  /** A pointer entry takes the hardware one level down. */
  lemma HwStep(pages: seq<Page>, table: nat, a: nat, level: nat)
    requires 0 < level < 3
    ensures var pte := EntryOf(pages, table, HwVpn(a, level));
      IsValid(pte) && !Readable(pte) && !Writable(pte) && !Executable(pte) && pte < 0x40_0000_0000_0000 ==>
      HwWalk(pages, table, a, level) == HwWalk(pages, PtePpn(pte), a, level - 1)
  {
  }

  /** The leaf mmap builds for a protection asked for is one the standard allows, except
      where writing is asked for without reading: W, and W with X. */
  lemma WriteNeedsRead(ppn: nat, prot: nat)
    requires ppn < PPN_END && 1 <= prot <= 7
    ensures IsValid(Pte(ppn, WithV(U + 2 * prot)))
    ensures LeafOk(Pte(ppn, WithV(U + 2 * prot))) <==> prot != 2 && prot != 6
  {
    hide Pte;
    var flags := WithV(U + 2 * prot);
    PteRoundTrip(ppn, flags);
    EntryBound(ppn, flags);
    assert flags == 17 + 2 * prot;
  }

  lemma EntryBound(ppn: nat, flags: nat)
    requires ppn < PPN_END && flags < 256
    ensures Pte(ppn, flags) < 0x40_0000_0000_0000
  {
  }

  /** A run of bytes of one frame. */
  datatype Slice = Slice(ppn: nat, lo: nat, hi: nat)

  function Addresses(s: Slice): seq<nat>
    requires s.lo <= s.hi
  {
    seq<nat>(s.hi - s.lo, k requires 0 <= k => s.ppn * 4096 + s.lo + k)
  }

  predicate Proper(v: seq<Slice>)
  {
    forall i :: 0 <= i < |v| ==> v[i].lo < v[i].hi <= 4096
  }

  /** The physical addresses a list of slices covers, in order. */
  function AllAddresses(v: seq<Slice>): seq<nat>
    requires Proper(v)
  {
    if v == [] then [] else AllAddresses(v[..|v| - 1]) + Addresses(v[|v| - 1])
  }

  /** The physical address of a user byte. */
  function PhysOf(m: map<nat, u64>, a: nat): nat
  {
    if a / 4096 in m then PtePpn(m[a / 4096]) * 4096 + a % 4096 else 0
  }

  /** The physical addresses of user bytes [ptr, ptr + n). */
  function UserRange(m: map<nat, u64>, ptr: nat, n: nat): (r: seq<nat>)
    ensures |r| == n
  {
    seq<nat>(n, k requires 0 <= k => PhysOf(m, ptr + k))
  }

  lemma RangeIs(m: map<nat, u64>, ptr: nat, n: nat)
    requires RangeMapped(m, ptr, n)
    ensures forall a: nat :: ptr <= a < ptr + n ==> Floor(a) in m && UserRange(m, ptr, n)[a - ptr] == PtePpn(m[Floor(a)]) * 4096 + a % 4096
  {
    hide PtePpn;
    forall a: nat | ptr <= a < ptr + n
      ensures Floor(a) in m && UserRange(m, ptr, n)[a - ptr] == PtePpn(m[Floor(a)]) * 4096 + a % 4096
    {
      assert Floor(a) * 4096 < ptr + n && ptr / 4096 <= Floor(a);
      assert UserRange(m, ptr, n)[a - ptr] == PhysOf(m, ptr + (a - ptr));
    }
  }

  /** Every page of the range is mapped. */
  ghost predicate RangeMapped(m: map<nat, u64>, ptr: nat, len: nat)
  {
    forall vpn :: ptr / 4096 <= vpn && vpn * 4096 < ptr + len ==> vpn in m
  }

  lemma UserRangeStep(m: map<nat, u64>, ptr: nat, n: nat, more: nat)
    requires var start := ptr + n; start % 4096 + more <= 4096 && start / 4096 in m
    ensures var start := ptr + n;
      UserRange(m, ptr, n + more) ==
      UserRange(m, ptr, n) + Addresses(Slice(PtePpn(m[start / 4096]), start % 4096, start % 4096 + more))
  {
    hide PtePpn;
    var start := ptr + n;
    var s := Slice(PtePpn(m[start / 4096]), start % 4096, start % 4096 + more);
    var all, part := UserRange(m, ptr, n + more), Addresses(s);
    forall k | n <= k < n + more
      ensures all[k] == part[k - n]
    {
      SamePage(start, k - n);
      assert ptr + k == start + (k - n);
      assert all[k] == PhysOf(m, ptr + k);
    }
  }

  lemma SamePage(start: nat, k: nat)
    requires start % 4096 + k < 4096
    ensures (start + k) / 4096 == start / 4096 && (start + k) % 4096 == start % 4096 + k
  {
  }

  /** Splits a user buffer into slices of the frames behind it. The source panics on an
      unmapped page, and a buffer reaching the top of the address space wraps around. */
  method TranslatedByteBuffers(pt: PageTable, ptr: nat, len: nat) returns (v: seq<Slice>)
    requires pt.Valid() && ptr + len < VA_END && RangeMapped(pt.Mapping(), ptr, len)
    ensures Proper(v) && AllAddresses(v) == UserRange(pt.Mapping(), ptr, len)
  {
    hide PtePpn, PageTable.Valid, PageTable.Mapping, Addresses, AllAddresses, Proper, UserRange, PhysOf;
    NoSlices();
    ghost var m := pt.Mapping();
    assert UserRange(m, ptr, 0) == [];
    var start, end := ptr, ptr + len;
    v := [];
    while start < end
      invariant ptr <= start <= end
      invariant Proper(v) && AllAddresses(v) == UserRange(m, ptr, start - ptr)
      decreases end - start
    {
      var startVa := VirtAddr(start);
      var vpn := Floor(startVa);
      assert vpn in m;
      var pte := pt.Translate(vpn);
      var ppn := PtePpn(pte.value);
      var endVa := (vpn + 1) * 4096;
      endVa := if VirtAddr(end) < endVa then VirtAddr(end) else endVa;
      var s := Slice(ppn, startVa % 4096, if endVa % 4096 == 0 then 4096 else endVa % 4096);
      ChunkIs(start, end);
      UserRangeStep(m, ptr, start - ptr, endVa - start);
      OneMoreSlice(v, s);
      v := v + [s];
      start := endVa;
    }
  }

  lemma NoSlices()
    ensures Proper([]) && AllAddresses([]) == []
  {
  }

  lemma OneMoreSlice(v: seq<Slice>, s: Slice)
    requires Proper(v) && s.lo < s.hi <= 4096
    ensures Proper(v + [s]) && AllAddresses(v + [s]) == AllAddresses(v) + Addresses(s)
  {
    assert (v + [s])[..|v|] == v;
  }

  /** The next chunk ends at the page's end or the buffer's, whichever is nearer. */
  lemma ChunkIs(start: nat, end: nat)
    requires start < end < VA_END
    ensures VirtAddr(start) == start && VirtAddr(end) == end && start / 4096 < VPN_END
    ensures var pageEnd := (start / 4096 + 1) * 4096;
      var endVa := if end < pageEnd then end else pageEnd;
      && start < endVa <= end && start % 4096 + (endVa - start) <= 4096
      && (if endVa % 4096 == 0 then 4096 else endVa % 4096) == start % 4096 + (endVa - start)
  {
  }

  /** `UserBufferIterator`: a cursor over the slices. */
  class UserBufferIterator {
    const buffers: seq<Slice>
    var currentBuffer: nat
    var currentIdx: nat

    ghost predicate Valid()
      reads this
    {
      && Proper(buffers) && currentBuffer <= |buffers|
      && (currentBuffer == |buffers| ==> currentIdx == 0)
      && (currentBuffer < |buffers| ==> currentIdx < buffers[currentBuffer].hi - buffers[currentBuffer].lo)
    }

    /** How many bytes have been visited. */
    ghost function Visited(): nat
      requires Valid()
      reads this
    {
      |AllAddresses(buffers[..currentBuffer])| + currentIdx
    }

    constructor (buffers: seq<Slice>)
      requires Proper(buffers)
      ensures Valid() && this.buffers == buffers && Visited() == 0
    {
      this.buffers := buffers;
      currentBuffer, currentIdx := 0, 0;
      new;
      assert AllAddresses(buffers[..0]) == [];
    }

    /** Each byte of the buffer exactly once, in order; None at the end. */
    method Next() returns (r: Option<nat>)
      requires Valid()
      modifies this
      ensures Valid()
      ensures r == None <==> old(Visited()) == |AllAddresses(buffers)|
      ensures r == None ==> Visited() == old(Visited())
      ensures r.Some? ==> old(Visited()) < |AllAddresses(buffers)| && r.value == AllAddresses(buffers)[old(Visited())]
      ensures r.Some? ==> Visited() == old(Visited()) + 1
    {
      hide AllAddresses;
      if currentBuffer >= |buffers| {
        assert buffers[..currentBuffer] == buffers;
        return None;
      }
      var b := buffers[currentBuffer];
      PrefixAddresses(buffers, currentBuffer);
      r := Some(b.ppn * 4096 + b.lo + currentIdx);
      if currentIdx + 1 == b.hi - b.lo {
        currentIdx := 0;
        currentBuffer := currentBuffer + 1;
      } else {
        currentIdx := currentIdx + 1;
      }
    }
  }

  lemma {:induction false} AddressesPrefix(v: seq<Slice>, i: nat)
    requires Proper(v) && i <= |v|
    ensures |AllAddresses(v[..i])| <= |AllAddresses(v)|
    ensures AllAddresses(v)[..|AllAddresses(v[..i])|] == AllAddresses(v[..i])
  {
    if i < |v| {
      AddressesPrefix(v[..|v| - 1], i);
      assert v[..|v| - 1][..i] == v[..i];
    } else {
      assert v[..i] == v;
    }
  }

  lemma PrefixAddresses(v: seq<Slice>, i: nat)
    requires Proper(v) && i < |v|
    ensures AllAddresses(v[..i + 1]) == AllAddresses(v[..i]) + Addresses(v[i])
    ensures |AllAddresses(v[..i + 1])| <= |AllAddresses(v)|
    ensures AllAddresses(v)[..|AllAddresses(v[..i + 1])|] == AllAddresses(v[..i + 1])
  {
    AddressesPrefix(v, i + 1);
    assert v[..i + 1][..i] == v[..i];
  }

  /** Reading a user buffer to its end visits the physical bytes behind
      [ptr, ptr + len), each once and in order. */
  method VisitAll(pt: PageTable, ptr: nat, len: nat) returns (visited: seq<nat>)
    requires pt.Valid() && ptr + len < VA_END && RangeMapped(pt.Mapping(), ptr, len)
    ensures visited == UserRange(pt.Mapping(), ptr, len) && |visited| == len
    ensures forall a: nat :: ptr <= a < ptr + len ==>
      (Floor(a) in pt.Mapping() && visited[a - ptr] == PtePpn(pt.Mapping()[Floor(a)]) * 4096 + a % 4096)
  {
    hide PageTable.Valid, PageTable.Mapping, AllAddresses, UserRange, Addresses, PtePpn, Floor, RangeMapped;
    ghost var m := pt.Mapping();
    RangeIs(m, ptr, len);
    var v := TranslatedByteBuffers(pt, ptr, len);
    var it := new UserBufferIterator(v);
    visited := [];
    var r := it.Next();
    while r.Some?
      invariant it.Valid() && it.buffers == v && fresh(it)
      invariant |visited| <= |AllAddresses(v)| && visited == AllAddresses(v)[..|visited|]
      invariant r.Some? ==> it.Visited() == |visited| + 1 <= |AllAddresses(v)| && r.value == AllAddresses(v)[|visited|]
      invariant r == None ==> |visited| == |AllAddresses(v)|
      invariant pt.Mapping() == m
      decreases |AllAddresses(v)| - |visited|
    {
      visited := visited + [r.value];
      r := it.Next();
    }
  }
}
