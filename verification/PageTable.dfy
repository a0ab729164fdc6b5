/** Sv39 page tables in physical frames (os/src/mm/page_table.rs, os/src/mm/address.rs). */
module PageTables {
  import opened Words
  import opened Sets
  import opened Frames

  const V: int := 1
  const R: int := 2
  const W: int := 4
  const X: int := 8
  const U: int := 16

  const VPN_END: int := 0x800_0000       // 2^27 virtual pages
  const PPN_END: int := 0x1000_0000_0000 // 2^44 physical pages

  /** `PageTableEntry::new(ppn, flags)`: `ppn << 10 | flags`. */
  function Pte(ppn: nat, flags: nat): (r: u64)
    requires ppn < PPN_END && flags < 256
  {
    ppn * 1024 + flags
  }

  function PtePpn(bits: u64): nat { bits / 1024 % PPN_END }

  function PteFlags(bits: u64): nat { bits % 256 }

  predicate IsValid(bits: u64) { PteFlags(bits) % 2 == 1 }
  predicate Readable(bits: u64) { PteFlags(bits) / 2 % 2 == 1 }
  predicate Writable(bits: u64) { PteFlags(bits) / 4 % 2 == 1 }
  predicate Executable(bits: u64) { PteFlags(bits) / 8 % 2 == 1 }

  /** `flags | PTEFlags::V` */
  function WithV(flags: nat): (r: nat)
    ensures flags < 256 ==> r < 256 && r % 2 == 1
  {
    if flags % 2 == 0 then flags + 1 else flags
  }

  /** Packing an entry loses nothing. */
  lemma PteRoundTrip(ppn: nat, flags: nat)
    requires ppn < PPN_END && flags < 256
    ensures PtePpn(Pte(ppn, flags)) == ppn && PteFlags(Pte(ppn, flags)) == flags
    ensures IsValid(Pte(ppn, flags)) <==> flags % 2 == 1
  {
    LowPart(ppn, 1024, flags);
    LowPart(4 * ppn, 256, flags);
    assert ppn % PPN_END == ppn;
  }

  /** The page number is in bits 53 to 10, and V, R, W and X are bits 0 to 3. */
  lemma PteBits(ppn: nat, flags: nat)
    requires ppn < PPN_END && flags < 256
    ensures Pte(ppn, flags) == 1024 * ppn + flags
    ensures IsValid(Pte(ppn, flags)) <==> flags % 2 == 1
    ensures Readable(Pte(ppn, flags)) <==> flags / 2 % 2 == 1
    ensures Writable(Pte(ppn, flags)) <==> flags / 4 % 2 == 1
    ensures Executable(Pte(ppn, flags)) <==> flags / 8 % 2 == 1
  {
    PteRoundTrip(ppn, flags);
    hide PteFlags;
  }

  /** Division and remainder take a two-part number apart again. */
  lemma LowPart(high: nat, m: nat, low: nat)
    requires low < m
    ensures (high * m + low) / m == high && (high * m + low) % m == low
  {
    var x := high * m + low;
    assert x == x / m * m + x % m;
    SameParts(high, low, x / m, x % m, m);
  }

  lemma SameParts(q: int, r: nat, q': int, r': nat, m: nat)
    requires q * m + r == q' * m + r' && r < m && r' < m
    ensures q == q' && r == r'
  {
    assert (q - q') * m == r' - r;
    assert q - q' >= 1 ==> (q - q') * m >= m;
    assert q' - q >= 1 ==> (q' - q) * m >= m;
  }

  /** The index of a virtual page at a level, the root being level 0. */
  function Index(vpn: nat, level: nat): (i: nat)
    requires level < 3
    ensures i < 512
  {
    if level == 0 then vpn / 0x4_0000 % 512
    else if level == 1 then vpn / 512 % 512
    else vpn % 512
  }

  /** `indexes`: nine bits at a time, from the low end. */
  method Indexes(vpn: nat) returns (idx: seq<nat>)
    requires vpn < VPN_END
    ensures idx == [Index(vpn, 0), Index(vpn, 1), Index(vpn, 2)]
  {
    var rest := vpn;
    idx := [0, 0, 0];
    var i := 3;
    while i > 0
      invariant 0 <= i <= 3 && |idx| == 3
      invariant rest == if i == 3 then vpn else if i == 2 then vpn / 512 else if i == 1 then vpn / 0x4_0000 else vpn / 0x800_0000
      invariant forall k :: i <= k < 3 ==> idx[k] == Index(vpn, k)
    {
      i := i - 1;
      idx := idx[i := rest % 512];
      rest := rest / 512;
    }
    assert idx == [idx[0], idx[1], idx[2]];
  }

  /** The three indexes identify the page, and every triple is some page's. */
  lemma IndexesBijective(a: nat, b: nat, i: nat, j: nat, k: nat)
    requires a < VPN_END && b < VPN_END && i < 512 && j < 512 && k < 512
    ensures Index(a, 0) == Index(b, 0) && Index(a, 1) == Index(b, 1) && Index(a, 2) == Index(b, 2) ==> a == b
    ensures var v := i * 0x4_0000 + j * 512 + k;
      v < VPN_END && Index(v, 0) == i && Index(v, 1) == j && Index(v, 2) == k
  {
    Recompose(a);
    Recompose(b);
    LowPart(i * 512 + j, 512, k);
    LowPart(i, 512, j);
    var v := i * 0x4_0000 + j * 512 + k;
    assert v == (i * 512 + j) * 512 + k;
    HighPart(v);
  }

  lemma HighPart(v: nat)
    ensures v / 0x4_0000 == v / 512 / 512
  {
  }

  lemma Recompose(a: nat)
    requires a < VPN_END
    ensures a == Index(a, 0) * 0x4_0000 + Index(a, 1) * 512 + Index(a, 2)
  {
    HighPart(a);
    assert a / 0x4_0000 < 512;
  }

  /** Entry i of the table in frame ppn. */
  function EntryOf(pages: seq<Page>, ppn: nat, i: nat): u64
  {
    if ppn < |pages| && i < 512 then U64At(pages[ppn], i) else 0
  }

  /** The page with entry i replaced. */
  function EntryPage(page: Page, i: nat, bits: u64): Page
    requires i < 512
  {
    PutU64(page, i, bits)
  }

  function SetEntry(pages: seq<Page>, ppn: nat, i: nat, bits: u64): (r: seq<Page>)
    requires ppn < |pages| && i < 512
    ensures |r| == |pages|
    ensures forall p :: 0 <= p < |pages| && p != ppn ==> r[p] == pages[p]
    ensures forall j :: 0 <= j < 512 ==> EntryOf(r, ppn, j) == if j == i then bits else EntryOf(pages, ppn, j)
  {
    var page := EntryPage(pages[ppn], i, bits);
    assert forall j :: 0 <= j < 512 ==> U64At(page, j) == if j == i then bits else U64At(pages[ppn], j) by {
      forall j | 0 <= j < 512
        ensures U64At(page, j) == if j == i then bits else U64At(pages[ppn], j)
      {
        PutU64At(pages[ppn], i, bits, j);
      }
    }
    pages[ppn := page]
  }

  /** What `find_pte` finds: the leaf entry, if it and the tables above it are valid. */
  function Walk(pages: seq<Page>, root: nat, vpn: nat): Option<u64>
  {
    var e0 := EntryOf(pages, root, Index(vpn, 0));
    if !IsValid(e0) then None else
    var e1 := EntryOf(pages, PtePpn(e0), Index(vpn, 1));
    if !IsValid(e1) then None else
    var e2 := EntryOf(pages, PtePpn(e1), Index(vpn, 2));
    if !IsValid(e2) then None else Some(e2)
  }

  /** The interior tables by path: the root is at [], a second-level table at [i], a
      leaf-level table at [i, j]. */
  type Tree = map<seq<nat>, nat>

  ghost predicate PathOk(p: seq<nat>)
  {
    |p| <= 2 && forall i :: 0 <= i < |p| ==> p[i] < 512
  }

  /** The tables form a tree of distinct frames, linked exactly by the valid entries of
      the two upper levels. */
  ghost predicate TreeInv(pages: seq<Page>, root: nat, tree: Tree)
  {
    && [] in tree && tree[[]] == root
    && (forall p :: p in tree ==> PathOk(p) && tree[p] < |pages| <= PPN_END)
    && (forall p :: p in tree && p != [] ==> p[..|p| - 1] in tree)
    && (forall p, q :: p in tree && q in tree && tree[p] == tree[q] ==> p == q)
    && (forall p, i: nat :: p in tree && |p| < 2 && i < 512 ==> Linked(pages, tree, p, i))
  }

  ghost predicate Linked(pages: seq<Page>, tree: Tree, p: seq<nat>, i: nat)
    requires p in tree
  {
    var e := EntryOf(pages, tree[p], i);
    && (IsValid(e) <==> p + [i] in tree)
    && (p + [i] in tree ==> tree[p + [i]] < PPN_END && e == Pte(tree[p + [i]], V) && PtePpn(e) == tree[p + [i]])
  }

  ghost function Path1(vpn: nat): seq<nat> { [Index(vpn, 0)] }

  ghost function Path2(vpn: nat): seq<nat> { [Index(vpn, 0), Index(vpn, 1)] }

  /** The paths of the tables below the root that the walk to a page goes through. */
  ghost function PathsOf(vpn: nat): set<seq<nat>> { {Path1(vpn), Path2(vpn)} }

  /** The path of the table at a level of the walk, and those below the root up to it. */
  ghost function PathTo(vpn: nat, level: nat): seq<nat>
  {
    if level == 0 then [] else if level == 1 then Path1(vpn) else Path2(vpn)
  }

  ghost function PathsTo(vpn: nat, level: nat): set<seq<nat>>
  {
    if level == 0 then {} else if level == 1 then {Path1(vpn)} else PathsOf(vpn)
  }

  /** A step down goes to a path not passed before. */
  lemma NextLevel(vpn: nat, level: nat)
    requires level < 2
    ensures |PathTo(vpn, level)| == level
    ensures PathTo(vpn, level) + [Index(vpn, level)] == PathTo(vpn, level + 1)
    ensures PathsTo(vpn, level + 1) == PathsTo(vpn, level) + {PathTo(vpn, level + 1)} <= PathsOf(vpn)
    ensures PathTo(vpn, level + 1) !in PathsTo(vpn, level)
  {
    hide Index;
    assert |Path1(vpn)| == 1 && |Path2(vpn)| == 2;
  }

  /** The tables a walk has made so far, and whether the next one is missing. */
  lemma MadeSoFar(vpn: nat, level: nat, keys: set<seq<nat>>)
    requires level < 2
    ensures PathTo(vpn, level + 1) in keys + PathsTo(vpn, level) <==> PathTo(vpn, level + 1) in keys
    ensures keys + PathsTo(vpn, level + 1) == keys + PathsTo(vpn, level) + {PathTo(vpn, level + 1)}
    ensures |PathsTo(vpn, level + 1) - keys| == |PathsTo(vpn, level) - keys| + if PathTo(vpn, level + 1) in keys then 0 else 1
    ensures |PathsTo(vpn, level + 1) - keys| <= |PathsOf(vpn) - keys|
  {
    hide PathTo, PathsTo, PathsOf, Index;
    NextLevel(vpn, level);
    OneMore(PathsTo(vpn, level), PathTo(vpn, level + 1), keys);
    SubsetSize(PathsTo(vpn, level + 1) - keys, PathsOf(vpn) - keys);
  }

  lemma LastLevel(vpn: nat)
    ensures PathTo(vpn, 2) == Path2(vpn) && PathsTo(vpn, 2) == PathsOf(vpn)
    ensures PathTo(vpn, 0) == [] && PathsTo(vpn, 0) == {}
  {
  }

  /** The walk, read off the tree. */
  lemma WalkByTree(pages: seq<Page>, root: nat, tree: Tree, vpn: nat)
    requires TreeInv(pages, root, tree)
    ensures Path2(vpn) in tree ==> Path1(vpn) in tree
    ensures Walk(pages, root, vpn) ==
      if Path2(vpn) in tree && IsValid(EntryOf(pages, tree[Path2(vpn)], Index(vpn, 2)))
      then Some(EntryOf(pages, tree[Path2(vpn)], Index(vpn, 2))) else None
  {
    hide IsValid, PtePpn, EntryOf;
    assert Linked(pages, tree, [], Index(vpn, 0));
    assert [] + [Index(vpn, 0)] == Path1(vpn);
    assert Path2(vpn)[..1] == Path1(vpn);
    if Path1(vpn) in tree {
      assert Linked(pages, tree, Path1(vpn), Index(vpn, 1));
      assert Path1(vpn) + [Index(vpn, 1)] == Path2(vpn);
    }
  }

  /** Writing the leaf entry of one page changes the walk of that page alone. */
  lemma LeafWrite(pages: seq<Page>, root: nat, tree: Tree, vpn: nat, bits: u64)
    requires TreeInv(pages, root, tree) && Path2(vpn) in tree && vpn < VPN_END
    ensures var pages' := SetEntry(pages, tree[Path2(vpn)], Index(vpn, 2), bits);
      && TreeInv(pages', root, tree)
      && Walk(pages', root, vpn) == (if IsValid(bits) then Some(bits) else None)
      && forall v: nat :: v < VPN_END && v != vpn ==> Walk(pages', root, v) == Walk(pages, root, v)
  {
    hide IsValid, PtePpn, EntryOf, Index;
    var leaf := tree[Path2(vpn)];
    var pages' := SetEntry(pages, leaf, Index(vpn, 2), bits);
    forall p, i: nat | p in tree && |p| < 2 && i < 512
      ensures Linked(pages', tree, p, i)
    {
      assert Linked(pages, tree, p, i);
      EntryFrame(pages, pages', tree[p], i);
    }
    assert TreeInv(pages', root, tree);
    WalkByTree(pages', root, tree, vpn);
    forall v: nat | v < VPN_END && v != vpn
      ensures Walk(pages', root, v) == Walk(pages, root, v)
    {
      WalkByTree(pages, root, tree, v);
      WalkByTree(pages', root, tree, v);
      if Path2(v) in tree {
        if tree[Path2(v)] == leaf {
          assert Path2(v) == Path2(vpn);
          SamePath(v, vpn);
        } else {
          EntryFrame(pages, pages', tree[Path2(v)], Index(v, 2));
        }
      }
    }
  }

  lemma EntryFrame(pages: seq<Page>, pages': seq<Page>, p: nat, i: nat)
    requires |pages| == |pages'| && (p < |pages| ==> pages'[p] == pages[p])
    ensures EntryOf(pages', p, i) == EntryOf(pages, p, i)
  {
  }

  lemma SamePath(a: nat, b: nat)
    requires a < VPN_END && b < VPN_END && a != b
    requires Path2(a) == Path2(b)
    ensures Index(a, 2) != Index(b, 2)
  {
    assert Path2(a)[0] == Path2(b)[0] && Path2(a)[1] == Path2(b)[1];
    IndexesBijective(a, b, 0, 0, 0);
  }

  /** Linking a zeroed frame under a missing path adds one empty table; no walk changes. */
  lemma AddTable(pages: seq<Page>, root: nat, tree: Tree, p: seq<nat>, i: nat, f: nat)
    requires TreeInv(pages, root, tree)
    requires p in tree && |p| < 2 && i < 512 && p + [i] !in tree
    requires f < |pages| && f !in tree.Values && pages[f] == ZeroPage()
    ensures var pages' := SetEntry(pages, tree[p], i, Pte(f, V)); var tree' := tree[p + [i] := f];
      && TreeInv(pages', root, tree')
      && MappingOf(pages', root) == MappingOf(pages, root)
  {
    hide IsValid, PtePpn, EntryOf, Index, Pte, ZeroPage;
    var pages' := SetEntry(pages, tree[p], i, Pte(f, V));
    var tree' := tree[p + [i] := f];
    PteRoundTrip(f, V);
    assert tree[p] in tree.Values;
    AddedTree(pages, pages', root, tree, p, i, f);
    forall v: nat | v < VPN_END
      ensures Walk(pages', root, v) == Walk(pages, root, v)
    {
      WalkByTree(pages, root, tree, v);
      WalkByTree(pages', root, tree', v);
      if Path2(v) == p + [i] {
        EmptyTable(pages', f, Index(v, 2));
      } else if Path2(v) in tree {
        assert tree[Path2(v)] != tree[p];
        EntryFrame(pages, pages', tree[Path2(v)], Index(v, 2));
      }
    }
  }

  lemma AddedTree(pages: seq<Page>, pages': seq<Page>, root: nat, tree: Tree, p: seq<nat>, i: nat, f: nat)
    requires TreeInv(pages, root, tree)
    requires p in tree && |p| < 2 && i < 512 && p + [i] !in tree
    requires f < |pages| && f !in tree.Values && pages[f] == ZeroPage()
    requires pages' == SetEntry(pages, tree[p], i, Pte(f, V))
    ensures TreeInv(pages', root, tree[p + [i] := f])
  {
    hide IsValid, PtePpn, EntryOf, Index, Pte, ZeroPage, Linked, SetEntry;
    var tree' := tree[p + [i] := f];
    var n := p + [i];
    assert n[..|n| - 1] == p;
    assert forall q :: q in tree ==> tree[q] in tree.Values;
    forall q, j: nat | q in tree' && |q| < 2 && j < 512
      ensures Linked(pages', tree', q, j)
    {
      AddedLink(pages, pages', root, tree, p, i, f, q, j);
    }
  }

  lemma AddedLink(pages: seq<Page>, pages': seq<Page>, root: nat, tree: Tree, p: seq<nat>, i: nat, f: nat,
      q: seq<nat>, j: nat)
    requires TreeInv(pages, root, tree)
    requires p in tree && |p| < 2 && i < 512 && p + [i] !in tree
    requires f < |pages| && f !in tree.Values && pages[f] == ZeroPage()
    requires pages' == SetEntry(pages, tree[p], i, Pte(f, V))
    requires q in tree[p + [i] := f] && |q| < 2 && j < 512
    ensures Linked(pages', tree[p + [i] := f], q, j)
  {
    hide IsValid, PtePpn, EntryOf, Index, Pte, ZeroPage;
    var tree' := tree[p + [i] := f];
    var n := p + [i];
    PteRoundTrip(f, V);
    assert tree[p] in tree.Values;
    if q == n {
      EmptyTable(pages', f, j);
      NoChild(tree, n, j);
      assert |n + [j]| > |n|;
    } else {
      assert Linked(pages, tree, q, j);
      if q == p {
        LastOf(q, j, i);
      } else {
        assert tree[q] != tree[p];
        EntryFrame(pages, pages', tree[q], j);
        ParentOf(q, j, p, i);
      }
    }
  }

  lemma LastOf(q: seq<nat>, j: nat, i: nat)
    ensures (q + [j] == q + [i]) == (j == i)
  {
    assert (q + [j])[|q|] == j && (q + [i])[|q|] == i;
  }

  lemma ParentOf(q: seq<nat>, j: nat, p: seq<nat>, i: nat)
    requires q != p
    ensures q + [j] != p + [i]
  {
    assert (q + [j])[..|q|] == q && (p + [i])[..|p|] == p;
  }

  /** A path that is not in the tree has no child in it. */
  lemma NoChild(tree: Tree, n: seq<nat>, j: nat)
    requires n !in tree && forall p :: p in tree && p != [] ==> p[..|p| - 1] in tree
    ensures n + [j] !in tree
  {
    assert (n + [j])[..|n|] == n;
  }

  lemma EmptyTable(pages: seq<Page>, f: nat, i: nat)
    requires f < |pages| && pages[f] == ZeroPage()
    ensures EntryOf(pages, f, i) == 0 && !IsValid(EntryOf(pages, f, i))
  {
  }

  /** The virtual pages a table maps, with their leaf entries. */
  ghost function MappingOf(pages: seq<Page>, root: nat): map<nat, u64>
  {
    map v: nat | v < VPN_END && Walk(pages, root, v).Some? :: Walk(pages, root, v).value
  }

  /** The tables of one tree, as a set of frames. */
  ghost function Tables(tree: Tree): set<nat> { tree.Values }

  lemma AtMostAllPages(mem: FrameAllocator)
    requires mem.Valid()
    ensures |mem.pages| <= PPN_END
  {
  }

  /** A zeroed root table maps nothing. */
  lemma OnlyRoot(pages: seq<Page>, root: nat)
    requires root < |pages| && pages[root] == ZeroPage() && |pages| <= PPN_END
    ensures var tree: Tree := map[[] := root]; TreeInv(pages, root, tree) && Tables(tree) == {root} && MappingOf(pages, root) == map[]
  {
    hide IsValid, PtePpn, EntryOf, Index, ZeroPage;
    var tree: Tree := map[[] := root];
    forall p, i: nat | p in tree && |p| < 2 && i < 512
      ensures Linked(pages, tree, p, i)
    {
      EmptyTable(pages, root, i);
    }
    assert TreeInv(pages, root, tree);
    forall v: nat
      ensures Walk(pages, root, v) == None
    {
      WalkByTree(pages, root, tree, v);
    }
  }

  /** Only frames of the (possibly larger) tree have changed, and only frames new to the
      tree were allocated. */
  ghost predicate TablesStep(pages: seq<Page>, alloc: set<nat>, tables: set<nat>,
      pages': seq<Page>, alloc': set<nat>, tables': set<nat>)
  {
    && |pages'| == |pages|
    && (forall p :: 0 <= p < |pages| && p !in tables' ==> pages'[p] == pages[p])
    && tables <= tables'
    && alloc' == alloc + (tables' - tables) && (tables' - tables) !! alloc
  }

  lemma TablesStay(pages: seq<Page>, alloc: set<nat>, tables: set<nat>)
    ensures TablesStep(pages, alloc, tables, pages, alloc, tables)
  {
  }

  lemma TablesStepTrans(pages: seq<Page>, alloc: set<nat>, tables: set<nat>, pages1: seq<Page>, alloc1: set<nat>,
      tables1: set<nat>, pages2: seq<Page>, alloc2: set<nat>, tables2: set<nat>)
    requires TablesStep(pages, alloc, tables, pages1, alloc1, tables1)
    requires TablesStep(pages1, alloc1, tables1, pages2, alloc2, tables2)
    ensures TablesStep(pages, alloc, tables, pages2, alloc2, tables2)
  {
  }

  class PageTable {
    const root: nat
    var frames: seq<nat>
    const mem: FrameAllocator
    ghost var tree: Tree

    ghost predicate Valid()
      reads this, mem
    {
      && mem.Valid() && TreeInv(mem.pages, root, tree)
      && NoRepeats(frames) && Elements(frames) == Tables(tree)
      && Tables(tree) <= mem.Allocated()
    }

    ghost function Mapping(): map<nat, u64>
      reads this, mem
    {
      MappingOf(mem.pages, root)
    }

    twostate predicate OnlyTables()
      reads this, mem
    {
      mem.end == old(mem.end) &&
      TablesStep(old(mem.pages), old(mem.Allocated()), old(Tables(tree)), mem.pages, mem.Allocated(), Tables(tree))
    }

    /** An empty table in a fresh root frame. The source panics when no frame is left. */
    constructor (mem: FrameAllocator)
      requires mem.Valid() && mem.FreeCount() > 0
      modifies mem
      ensures this.mem == mem && Valid() && Mapping() == map[]
      ensures root !in old(mem.Allocated()) && tree == map[[] := root] && mem.Allocated() == old(mem.Allocated()) + {root}
      ensures |mem.pages| == |old(mem.pages)| && mem.end == old(mem.end)
      ensures forall p :: 0 <= p < |mem.pages| && p != root ==> mem.pages[p] == old(mem.pages)[p]
      ensures mem.FreeCount() == old(mem.FreeCount()) - 1
    {
      hide TreeInv, MappingOf, FrameAllocator.Allocated, FrameAllocator.Valid, ZeroPage, FrameAllocator.FreeCount;
      AtMostAllPages(mem);
      var f := mem.Alloc();
      this.mem := mem;
      root := f.value;
      frames := [f.value];
      tree := map[[] := f.value];
      new;
      assert frames[0] == root && Elements(frames) == {root};
      OnlyRoot(mem.pages, root);
    }

    /** `translate`: the leaf entry of a page, by walking the three levels. */
    method FindPte(vpn: nat) returns (r: Option<(nat, nat)>)
      requires Valid() && vpn < VPN_END
      ensures r.Some? <==> vpn in Mapping()
      ensures r.Some? ==> Path2(vpn) in tree && r.value == (tree[Path2(vpn)], Index(vpn, 2))
      ensures r.Some? ==> Mapping()[vpn] == EntryOf(mem.pages, r.value.0, r.value.1)
    {
      hide PtePpn, IsValid, Index;
      WalkByTree(mem.pages, root, tree, vpn);
      var idxs := Indexes(vpn);
      var ppn := root;
      var i := 0;
      while true
        invariant 0 <= i < 3 && ppn < |mem.pages|
        invariant ppn == if i == 0 then root
          else if i == 1 then PtePpn(EntryOf(mem.pages, root, Index(vpn, 0)))
          else PtePpn(EntryOf(mem.pages, PtePpn(EntryOf(mem.pages, root, Index(vpn, 0))), Index(vpn, 1)))
        invariant i > 0 ==> IsValid(EntryOf(mem.pages, root, Index(vpn, 0)))
        invariant i > 1 ==> IsValid(EntryOf(mem.pages, PtePpn(EntryOf(mem.pages, root, Index(vpn, 0))), Index(vpn, 1)))
        invariant [] in tree && tree[[]] == root
        invariant i == 1 ==> Path1(vpn) in tree && tree[Path1(vpn)] == ppn
        invariant i == 2 ==> Path2(vpn) in tree && tree[Path2(vpn)] == ppn
        decreases 3 - i
      {
        var pte := EntryOf(mem.pages, ppn, idxs[i]);
        if !IsValid(pte) {
          return None;
        }
        if i == 2 {
          return Some((ppn, idxs[i]));
        }
        StepDown(mem.pages, root, tree, vpn, i);
        ppn := PtePpn(pte);
        i := i + 1;
      }
    }

    /** `translate` */
    method Translate(vpn: nat) returns (r: Option<u64>)
      requires Valid() && vpn < VPN_END
      ensures r == if vpn in Mapping() then Some(Mapping()[vpn]) else None
    {
      hide PtePpn, IsValid, Index, Walk;
      var loc := FindPte(vpn);
      r := if loc.Some? then Some(EntryOf(mem.pages, loc.value.0, loc.value.1)) else None;
    }

    /** One turn of the creating walk: down to the next table, made if it is missing. */
    method Descend(vpn: nat, level: nat, ppn: nat, i: nat) returns (r: Option<nat>)
      requires Valid() && level < 2 && i == Index(vpn, level)
      requires PathTo(vpn, level) in tree && tree[PathTo(vpn, level)] == ppn
      modifies this, mem
      ensures Valid() && OnlyTables() && Mapping() == old(Mapping())
      ensures var next := PathTo(vpn, level + 1); var missing := if next in old(tree).Keys then 0 else 1;
        && (r.Some? <==> old(mem.FreeCount()) >= missing)
        && (r.Some? ==> mem.FreeCount() == old(mem.FreeCount()) - missing)
        && (r.Some? ==> next in tree && tree[next] == r.value && tree.Keys == old(tree).Keys + {next})
    {
      hide PtePpn, IsValid, Index, Pte, EntryOf, Walk, TreeInv, MappingOf, FrameAllocator.Valid,
        FrameAllocator.Allocated, FrameAllocator.FreeCount, NoRepeats, Elements, PathTo, PathsTo, PathsOf, TablesStep,
        Tables;
      ghost var path := PathTo(vpn, level);
      FrameCount(mem);
      TablesStay(mem.pages, mem.Allocated(), Tables(tree));
      NextLevel(vpn, level);
      LinkedAt(mem.pages, root, tree, path, i);
      if !IsValid(EntryOf(mem.pages, ppn, i)) {
        var ok := Grow(path, ppn, i);
        if !ok {
          return None;
        }
        LinkedAt(mem.pages, root, tree, path, i);
      }
      r := Some(PtePpn(EntryOf(mem.pages, ppn, i)));
    }

    /** The walk that creates missing tables. None stands for the source's panic when no
        frame is left for one of them. */
    method FindPteCreate(vpn: nat) returns (r: Option<(nat, nat)>)
      requires Valid() && vpn < VPN_END
      modifies this, mem
      ensures Valid() && OnlyTables() && Mapping() == old(Mapping())
      ensures r.Some? <==> old(mem.FreeCount()) >= |PathsOf(vpn) - old(tree).Keys|
      ensures r.Some? ==> tree.Keys == old(tree).Keys + PathsOf(vpn)
      ensures r.Some? ==> mem.FreeCount() == old(mem.FreeCount()) - |PathsOf(vpn) - old(tree).Keys|
      ensures r.Some? ==> Path2(vpn) in tree && r.value == (tree[Path2(vpn)], Index(vpn, 2))
    {
      hide PtePpn, IsValid, Index, Pte, EntryOf, Walk, TreeInv, MappingOf, FrameAllocator.Valid, Valid,
        FrameAllocator.Allocated, FrameAllocator.FreeCount, PathTo, PathsTo, PathsOf, Path2, TablesStep, Tables;
      Shape();
      LastLevel(vpn);
      var idxs := Indexes(vpn);
      var ppn := root;
      ghost var keys := tree.Keys;
      ghost var pages0, alloc0, tables0 := mem.pages, mem.Allocated(), Tables(tree);
      TablesStay(pages0, alloc0, tables0);
      assert tree.Keys == keys + {} && |{} - keys| == 0;
      var i := 0;
      while i < 2
        invariant 0 <= i <= 2
        invariant Valid() && OnlyTables() && Mapping() == old(Mapping())
        invariant PathTo(vpn, i) in tree && tree[PathTo(vpn, i)] == ppn
        invariant tree.Keys == keys + PathsTo(vpn, i)
        invariant 0 <= mem.FreeCount() == old(mem.FreeCount()) - |PathsTo(vpn, i) - keys|
      {
        ghost var pages1, alloc1, tables1 := mem.pages, mem.Allocated(), Tables(tree);
        MadeSoFar(vpn, i, keys);
        var next := Descend(vpn, i, ppn, idxs[i]);
        TablesStepTrans(pages0, alloc0, tables0, pages1, alloc1, tables1, mem.pages, mem.Allocated(), Tables(tree));
        if next == None {
          return None;
        }
        ppn := next.value;
        i := i + 1;
      }
      r := Some((ppn, idxs[2]));
    }

    lemma Shape()
      requires Valid()
      ensures mem.FreeCount() >= 0 && [] in tree && tree[[]] == root
    {
    }

    /** Links a fresh zeroed table under `path`. */
    method Grow(ghost path: seq<nat>, ppn: nat, i: nat) returns (ok: bool)
      requires Valid() && path in tree && tree[path] == ppn && |path| < 2 && i < 512 && path + [i] !in tree
      modifies this, mem
      ensures Valid() && OnlyTables() && Mapping() == old(Mapping())
      ensures ok <==> old(mem.FreeCount()) > 0
      ensures mem.FreeCount() == old(mem.FreeCount()) - if ok then 1 else 0
      ensures ok ==> path + [i] in tree && tree == old(tree)[path + [i] := tree[path + [i]]]
    {
      hide PtePpn, IsValid, Index, Pte, EntryOf, Walk, ZeroPage, TreeInv, MappingOf, FrameAllocator.Valid,
        FrameAllocator.Allocated, FrameAllocator.FreeCount, Elements, EntryPage, NoRepeats, Tables;
      TreeShape(mem.pages, root, tree);
      ghost var pages0, tree0 := mem.pages, tree;
      InTables(tree, path);
      var frame := mem.Alloc();
      if frame == None {
        return false;
      }
      ghost var pages1 := mem.pages;
      ghost var f := frame.value;
      TreeElsewhere(pages0, pages1, root, tree, f);
      AddTable(pages1, root, tree, path, i, f);
      mem.Store(ppn, EntryPage(mem.pages[ppn], i, Pte(frame.value, V)));
      AppendFresh(frames, f);
      frames := frames + [frame.value];
      tree := tree[path + [i] := f];
      ValuesAdd(tree0, path + [i], f);
      ok := true;
    }

    /** Maps one page; the source panics if it is mapped already, or for lack of frames. */
    method Map(vpn: nat, ppn: nat, flags: nat) returns (ok: bool)
      requires Valid() && vpn < VPN_END && ppn < PPN_END && flags < 256
      requires vpn !in Mapping()
      modifies this, mem
      ensures Valid() && OnlyTables()
      ensures ok <==> old(mem.FreeCount()) >= |PathsOf(vpn) - old(tree).Keys|
      ensures ok ==> tree.Keys == old(tree).Keys + PathsOf(vpn)
      ensures ok ==> mem.FreeCount() == old(mem.FreeCount()) - |PathsOf(vpn) - old(tree).Keys|
      ensures Mapping() == if ok then old(Mapping())[vpn := Pte(ppn, WithV(flags))] else old(Mapping())
    {
      hide PtePpn, IsValid, Index, Pte, EntryOf, Walk, MappingOf, TreeInv, FrameAllocator.Valid,
        FrameAllocator.Allocated, FrameAllocator.FreeCount, EntryPage, PathsOf, Path1, Path2, NoRepeats, Elements;
      var loc := FindPteCreate(vpn);
      if loc == None {
        return false;
      }
      TreeShape(mem.pages, root, tree);
      MapLeaf(mem.pages, root, tree, vpn, Pte(ppn, WithV(flags)));
      PteRoundTrip(ppn, WithV(flags));
      var page := mem.pages[loc.value.0];
      mem.Store(loc.value.0, EntryPage(page, loc.value.1, Pte(ppn, WithV(flags))));
      ok := true;
    }

    /** Unmaps one page; the source panics if it is not mapped. */
    method Unmap(vpn: nat)
      requires Valid() && vpn < VPN_END && vpn in Mapping()
      modifies mem
      ensures Valid() && Mapping() == old(Mapping()) - {vpn}
      ensures |mem.pages| == |old(mem.pages)| && mem.end == old(mem.end) && mem.Allocated() == old(mem.Allocated())
      ensures mem.FreeCount() == old(mem.FreeCount())
      ensures forall p :: 0 <= p < |mem.pages| && p !in Tables(tree) ==> mem.pages[p] == old(mem.pages)[p]
    {
      hide PtePpn, Index, Pte, EntryOf, Walk, MappingOf, TreeInv, FrameAllocator.Valid, FrameAllocator.Allocated,
        EntryPage;
      TreeShape(mem.pages, root, tree);
      var loc := FindPte(vpn);
      MapLeaf(mem.pages, root, tree, vpn, 0);
      var page := mem.pages[loc.value.0];
      mem.Store(loc.value.0, EntryPage(page, loc.value.1, 0));
    }
  }

  lemma FrameCount(mem: FrameAllocator)
    requires mem.Valid()
    ensures mem.FreeCount() >= 0
  {
  }

  lemma ValuesAdd(tree: Tree, n: seq<nat>, f: nat)
    requires n !in tree
    ensures Tables(tree[n := f]) == Tables(tree) + {f}
  {
    var t := tree[n := f];
    assert t[n] == f;
    forall p | p in tree
      ensures t[p] == tree[p]
    {
    }
  }

  lemma AppendFresh(s: seq<nat>, x: nat)
    requires NoRepeats(s) && x !in Elements(s)
    ensures Elements(s + [x]) == Elements(s) + {x} && NoRepeats(s + [x])
  {
  }

  lemma InTables(tree: Tree, p: seq<nat>)
    requires p in tree
    ensures tree[p] in Tables(tree)
  {
  }

  lemma TreeShape(pages: seq<Page>, root: nat, tree: Tree)
    requires TreeInv(pages, root, tree)
    ensures [] in tree && tree[[]] == root
    ensures forall p :: p in tree ==> PathOk(p) && tree[p] < |pages| && tree[p] in Tables(tree)
  {
  }

  lemma LinkedAt(pages: seq<Page>, root: nat, tree: Tree, p: seq<nat>, i: nat)
    requires TreeInv(pages, root, tree) && p in tree && |p| < 2 && i < 512
    ensures Linked(pages, tree, p, i)
  {
  }

  /** One step of the walk is one step down the tree. */
  lemma StepDown(pages: seq<Page>, root: nat, tree: Tree, vpn: nat, i: nat)
    requires TreeInv(pages, root, tree) && i < 2
    requires i == 1 ==> Path1(vpn) in tree
    ensures i == 0 && IsValid(EntryOf(pages, root, Index(vpn, 0))) ==>
      Path1(vpn) in tree && tree[Path1(vpn)] == PtePpn(EntryOf(pages, root, Index(vpn, 0))) < |pages|
    ensures i == 1 && IsValid(EntryOf(pages, tree[Path1(vpn)], Index(vpn, 1))) ==>
      Path2(vpn) in tree && tree[Path2(vpn)] == PtePpn(EntryOf(pages, tree[Path1(vpn)], Index(vpn, 1))) < |pages|
  {
    hide IsValid, PtePpn, EntryOf, Index;
    if i == 0 {
      assert Linked(pages, tree, [], Index(vpn, 0));
      assert [] + [Index(vpn, 0)] == Path1(vpn);
    } else {
      assert Linked(pages, tree, Path1(vpn), Index(vpn, 1));
      assert Path1(vpn) + [Index(vpn, 1)] == Path2(vpn);
    }
  }

  /** A tree does not notice a frame that is not one of its tables. */
  lemma TreeElsewhere(pages: seq<Page>, pages': seq<Page>, root: nat, tree: Tree, f: nat)
    requires TreeInv(pages, root, tree) && |pages'| == |pages| && f !in Tables(tree)
    requires forall p :: 0 <= p < |pages| && p != f ==> pages'[p] == pages[p]
    ensures TreeInv(pages', root, tree) && MappingOf(pages', root) == MappingOf(pages, root)
  {
    SameTables(pages, pages', root, tree);
  }

  lemma SameTables(pages: seq<Page>, pages': seq<Page>, root: nat, tree: Tree)
    requires TreeInv(pages, root, tree) && |pages'| == |pages|
    requires forall p :: p in Tables(tree) && p < |pages| ==> pages'[p] == pages[p]
    ensures TreeInv(pages', root, tree) && MappingOf(pages', root) == MappingOf(pages, root)
    ensures forall v: nat :: Walk(pages', root, v) == Walk(pages, root, v)
  {
    hide IsValid, PtePpn, EntryOf, Index;
    forall p, i: nat | p in tree && i < 512
      ensures EntryOf(pages', tree[p], i) == EntryOf(pages, tree[p], i)
    {
      assert tree[p] in Tables(tree);
      EntryFrame(pages, pages', tree[p], i);
    }
    forall p, i: nat | p in tree && |p| < 2 && i < 512
      ensures Linked(pages', tree, p, i)
    {
      assert Linked(pages, tree, p, i);
    }
    assert TreeInv(pages', root, tree);
    forall v: nat
      ensures Walk(pages', root, v) == Walk(pages, root, v)
    {
      WalkByTree(pages, root, tree, v);
      WalkByTree(pages', root, tree, v);
    }
  }

  /** A leaf write inserts, replaces or deletes one key of the mapping. */
  lemma MapLeaf(pages: seq<Page>, root: nat, tree: Tree, vpn: nat, bits: u64)
    requires TreeInv(pages, root, tree) && Path2(vpn) in tree && vpn < VPN_END
    ensures var pages' := SetEntry(pages, tree[Path2(vpn)], Index(vpn, 2), bits);
      && TreeInv(pages', root, tree)
      && MappingOf(pages', root) ==
         if IsValid(bits) then MappingOf(pages, root)[vpn := bits] else MappingOf(pages, root) - {vpn}
  {
    hide IsValid, PtePpn, EntryOf, Index, Walk, TreeInv;
    LeafWrite(pages, root, tree, vpn, bits);
  }
}
