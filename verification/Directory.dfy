/** Names over files: find, create and hard links in the root directory
    (easy-fs/src/vfs.rs:65-165, 196-244). */
module Directory {
  import opened Words
  import opened BitmapLayer
  import opened Layout
  import opened DiskInodes
  import opened FileData
  import opened Efs
  import opened FsState
  import opened FsSteps
  import opened Vfs
  import opened Mkfs
  import opened DirCodec

  /** `find_inode_id`: scans the records in order. */
  method FindInodeId(inode: DiskInode, name: seq<byte>, disk: Disk) returns (r: Option<u32>)
    requires Sound(inode.View(), disk.blocks) && inode.isDir
    requires WellFormedDir(Contents(inode.View(), disk.blocks))
    ensures r == Lookup(Entries(Contents(inode.View(), disk.blocks)), name)
  {
    hide Sound, ByteAt, Contents, Decode, WellFormedDir;
    ghost var data := Contents(inode.View(), disk.blocks);
    var count := inode.size / DIRENT_SZ;
    var dirent := new byte[32](_ => 0);
    var i := 0;
    while i < count
      invariant 0 <= i <= count
      invariant Lookup(Entries(data), name) == LookupFrom(Entries(data), name, i)
    {
      var n := ReadAt(inode, DIRENT_SZ * i, dirent, disk);
      assert n == 32;
      assert dirent[..32] == dirent[..] == Record(data, i);
      var e := DecodeRecord(dirent, data, i);
      if e.name == name {
        return Some(e.ino);
      }
      i := i + 1;
    }
    r := None;
  }

  /** `name()` and `inode_number()` of the entry buffer. */
  method DecodeRecord(dirent: array<byte>, ghost data: seq<byte>, ghost i: nat) returns (e: Entry)
    requires 32 * i + 32 <= |data| && WellFormedDir(data) && dirent[..] == Record(data, i)
    ensures e == Entries(data)[i]
  {
    var n := 0;
    while dirent[n] != 0
      invariant 0 <= n < 28 && NulAt(dirent[..], 0) == NulAt(dirent[..], n)
      decreases 28 - n
    {
      n := n + 1;
    }
    e := Entry(dirent[..n], U32At(dirent[..], 7));
  }

  /** How many names lead to a file. */
  function LinkCount(es: seq<Entry>, id: nat): (n: nat)
    ensures n <= |es|
  {
    if es == [] then 0 else LinkCount(es[..|es| - 1], id) + (if es[|es| - 1].ino == id then 1 else 0)
  }

  /** The root directory lists exactly the other files, each as often as its link count
      says, and no name twice. */
  ghost predicate DirInv(files: map<nat, FileState>)
  {
    && 0 in files && files[0].isDir && WellFormedDir(files[0].data)
    && var es := Entries(files[0].data);
    && (forall k :: 0 <= k < |es| ==> es[k].ino != 0 && es[k].ino as nat in files)
    && (forall j, k :: 0 <= j < |es| && 0 <= k < |es| && es[j].name == es[k].name ==> j == k)
    && (forall id :: id in files && id != 0 ==>
          !files[id].isDir && files[id].ino == id && files[id].nlink == LinkCount(es, id))
  }

  ghost predicate Root(root: Inode)
    reads root.fs, root.fs.disk
  {
    root.Open() && root.id == 0 && DirInv(root.fs.Files()) && |root.State().data| <= MAX_SIZE
  }

  /** Room for one more record in the root directory. */
  ghost predicate RootCanGrow(root: Inode)
    requires Root(root)
    reads root.fs, root.fs.disk
  {
    var n := |root.State().data|;
    n + 32 <= MAX_SIZE && root.fs.InUse() + Footprint(n + 32) - Footprint(n) <= root.fs.g.dataAreaBlocks
  }

  method LookupName(root: Inode, name: seq<byte>) returns (r: Option<u32>)
    requires Root(root)
    ensures r == Lookup(Entries(root.State().data), name)
  {
    hide Sound, InodeAt, Contents, WellFormedDir, Lookup, FsInv, Used, Entries;
    RootState(root);
    var inode := root.ReadDiskInode();
    r := FindInodeId(inode, name, root.fs.disk);
  }

  lemma RootState(root: Inode)
    requires Root(root)
    ensures root.State().isDir && WellFormedDir(root.State().data) && root.State() == root.fs.Files()[0]
    ensures forall id :: id in root.fs.Files() ==> Used(root.fs.disk.blocks, root.fs.g, id)
  {
    InvInodes(root.fs.disk.blocks, root.fs.g, root.fs.own);
  }

  /** A handle on the file of that name, if the directory lists it. */
  method Find(root: Inode, name: seq<byte>) returns (r: Option<Inode>)
    requires Root(root)
    ensures r == None <==> Lookup(Entries(root.State().data), name) == None
    ensures r.Some? ==> fresh(r.value) && r.value.fs == root.fs && r.value.Open() && r.value.id in root.fs.Files()
    ensures r.Some? ==> Lookup(Entries(root.State().data), name) == Some(r.value.id) && r.value.id != 0
  {
    hide InodeAt, Contents, FsInv, WellFormedDir, Lookup, LookupFrom, Used, Entries;
    RootState(root);
    var id := LookupName(root, name);
    if id == None {
      return None;
    }
    LookupListed(Entries(root.State().data), name);
    ListedIsFile(root, Entry(name, id.value));
    var (b, off) := root.fs.GetDiskInodePos(id.value);
    var h := new Inode(b, off, root.fs, id.value);
    r := Some(h);
  }

  lemma LookupListed(es: seq<Entry>, name: seq<byte>)
    ensures Lookup(es, name) == None <==> forall k :: 0 <= k < |es| ==> es[k].name != name
    ensures Lookup(es, name).Some? ==> Entry(name, Lookup(es, name).value) in es
  {
    LookupFromIs(es, name, 0);
  }

  lemma ListedIsFile(root: Inode, e: Entry)
    requires Root(root) && e in Entries(root.State().data)
    ensures e.ino != 0 && e.ino as nat in root.fs.Files()
  {
    hide Entries, WellFormedDir;
    RootState(root);
    var es := Entries(root.State().data);
    var k :| 0 <= k < |es| && es[k] == e;
  }

  /** The observable effect of listing one more name. */
  ghost function WithEntry(files: map<nat, FileState>, e: Entry): map<nat, FileState>
    requires 0 in files && |e.name| <= 28
  {
    files[0 := files[0].(data := WriteSpec(files[0].data, |files[0].data|, Encode(e)))]
  }

  /** Appends a record to the root directory. */
  method Append(root: Inode, e: Entry)
    requires root.Open() && root.id == 0 && GoodName(e.name)
    requires var n := |root.State().data|;
      n % 32 == 0 && n + 32 <= MAX_SIZE &&
      root.fs.InUse() + Footprint(n + 32) - Footprint(n) <= root.fs.g.dataAreaBlocks
    modifies root.fs, root.fs.disk
    ensures root.Open() && 0 in old(root.fs.Files())
    ensures root.fs.Files() == WithEntry(old(root.fs.Files()), e)
    ensures root.fs.InUse() == old(root.fs.InUse()) + Footprint(|old(root.State()).data| + 32) - Footprint(|old(root.State()).data|)
    ensures Kept(old(root.fs.disk.blocks), root.fs.disk.blocks, root.fs.g)
    ensures var n := |old(root.State()).data|;
      |Changed(old(root.fs.disk.blocks), root.fs.disk.blocks)| <= 1 + 2 * Footprint(n + 32) - Footprint(n)
  {
    hide InodeAt, Contents, FsInv, Used, TotalBlocks, Encode, Changed;
    InvInodes(root.fs.disk.blocks, root.fs.g, root.fs.own);
    var inode := root.ReadDiskInode();
    var count := inode.size / DIRENT_SZ;
    var n := root.WriteAt(count * DIRENT_SZ, Encode(e));
    InvInodes(root.fs.disk.blocks, root.fs.g, root.fs.own);
    assert root.State() == root.fs.Files()[0];
  }

  lemma {:induction false} LinkCountIs(es: seq<Entry>, id: nat)
    ensures LinkCount(es, id) == 0 <==> forall k :: 0 <= k < |es| ==> es[k].ino != id
  {
    if es != [] {
      var n := |es| - 1;
      LinkCountIs(es[..n], id);
      assert forall k :: 0 <= k < n ==> es[..n][k] == es[k];
    }
  }

  /** One more name for file id, with its link count raised to match, keeps the
      directory invariant. */
  lemma DirAfterAdd(files: map<nat, FileState>, id: nat, f: FileState, e: Entry)
    requires DirInv(files) && id != 0 && e.ino == id && GoodName(e.name)
    requires Lookup(Entries(files[0].data), e.name) == None
    requires !f.isDir && f.ino == id && f.nlink == LinkCount(Entries(files[0].data), id) + 1
    ensures DirInv(WithEntry(files[id := f], e))
    ensures Entries(WithEntry(files[id := f], e)[0].data) == Entries(files[0].data) + [e]
    ensures |WithEntry(files[id := f], e)[0].data| == |files[0].data| + 32
  {
    hide WellFormedDir, Entries, Encode, WriteSpec, Lookup, LinkCount;
    var files' := WithEntry(files[id := f], e);
    var es := Entries(files[0].data);
    AppendEntry(files[0].data, e);
    LookupListed(es, e.name);
    LinkCountAppend(es, e);
  }

  lemma LinkCountAppend(es: seq<Entry>, e: Entry)
    ensures forall i: nat :: LinkCount(es + [e], i) == LinkCount(es, i) + if e.ino == i then 1 else 0
  {
    assert (es + [e])[..|es|] == es;
  }

  /** A fresh number has no name. */
  lemma FreshHasNoName(files: map<nat, FileState>, id: nat)
    requires DirInv(files) && id !in files
    ensures LinkCount(Entries(files[0].data), id) == 0
  {
    LinkCountIs(Entries(files[0].data), id);
  }

  ghost predicate FreeNumber(root: Inode, i: u32)
    requires root.Open()
    reads root.fs, root.fs.disk
  {
    i < root.fs.g.MaxInodes() && i < root.fs.inodeBitmap.MaxBits() && i as nat !in root.fs.Files()
  }

  /** Some inode number with a home is still free. */
  ghost predicate InodeFree(root: Inode)
    requires root.Open()
    reads root.fs, root.fs.disk
  {
    exists i :: FreeNumber(root, i)
  }

  /** A fresh empty file under the least unused number, listed under `name`; nothing
      else has changed. */
  ghost predicate Created(files: map<nat, FileState>, files': map<nat, FileState>, name: seq<byte>, id: nat)
  {
    && 0 in files && |name| <= 28 && id < TWO32 && id !in files
    && (forall i: nat :: i < id ==> i in files)
    && files' == WithEntry(files[id := FileState(id, 1, false, [])], Entry(name, id))
  }

  /** File `id` has one more name and one more link. */
  ghost predicate Linked(files: map<nat, FileState>, files': map<nat, FileState>, name: seq<byte>, id: u32)
  {
    && 0 in files && |name| <= 28 && id as nat in files && id != 0 && files[id as nat].nlink < TWO32 - 1
    && var f := files[id as nat];
    && files' == WithEntry(files[id as nat := f.(nlink := f.nlink + 1)], Entry(name, id))
  }

  /** A new empty file under a new name; None if the name is taken. The source panics
      for lack of an inode, of blocks, or of room in the largest possible directory,
      and a name that leaves no room for its terminating zero breaks later look-ups. */
  method CreateFile(root: Inode, name: seq<byte>) returns (r: Option<Inode>)
    requires Root(root) && GoodName(name)
    requires Lookup(Entries(root.State().data), name) == None ==> RootCanGrow(root) && InodeFree(root)
    modifies root.fs, root.fs.disk
    ensures Root(root) && root.fs.disk.blocks[0] == old(root.fs.disk.blocks)[0]
    ensures |root.fs.disk.blocks| == |old(root.fs.disk.blocks)|
    ensures r == None <==> Lookup(Entries(old(root.State()).data), name).Some?
    ensures r == None ==> root.fs.disk.blocks == old(root.fs.disk.blocks) && root.fs.own == old(root.fs.own)
    ensures r.Some? ==>
      && fresh(r.value) && r.value.fs == root.fs && r.value.Open()
      && Created(old(root.fs.Files()), root.fs.Files(), name, r.value.id)
      && root.fs.InUse() == old(root.fs.InUse()) + Footprint(|old(root.State()).data| + 32) - Footprint(|old(root.State()).data|)
  {
    hide DirInv, FilesOf, InodeAt, Contents, FsInv, Used, TotalBlocks, Encode, WellFormedDir, Lookup, Entries,
      StoreAt, WriteSpec;
    RootState(root);
    ghost var free: u32 := if InodeFree(root) then var f: u32 :| FreeNumber(root, f); f else 0;
    var found := LookupName(root, name);
    if found.Some? {
      return None;
    }
    ghost var d0, g, own, files := root.fs.disk.blocks, root.fs.g, root.fs.own, root.fs.Files();
    InvInodes(d0, g, own);
    FilesAreUsed(d0, g);
    var id := root.fs.AllocInode();
    assert id <= free;
    ghost var d1 := root.fs.disk.blocks;
    InitInode(root.fs, id, false);
    ghost var d2 := root.fs.disk.blocks;
    AddedFile(d0, d1, g, own, id);
    FreshHasNoName(files, id);
    HandleState(root);
    Append(root, Entry(name, id));
    DirAfterAdd(files, id, FileState(id, 1, false, []), Entry(name, id));
    HandleState(root);
    var (b, off) := root.fs.GetDiskInodePos(id);
    var h := new Inode(b, off, root.fs, id);
    r := Some(h);
  }

  /** What a handle shows is its entry of the observable files. */
  lemma HandleState(h: Inode)
    requires h.Open()
    ensures h.id in h.fs.Files() && h.State() == h.fs.Files()[h.id] && |h.State().data| <= MAX_SIZE
  {
    InvInodes(h.fs.disk.blocks, h.fs.g, h.fs.own);
  }

  lemma FilesAreUsed(d: seq<Block>, g: Geometry)
    requires g.Fits(d)
    ensures forall i: nat :: i < g.MaxInodes() ==> (i in FilesOf(d, g) <==> Used(d, g, i))
  {
  }

  /** The files after a number has been taken and its record initialized. */
  lemma AddedFile(d0: seq<Block>, d1: seq<Block>, g: Geometry, own: Owners, id: u32)
    requires FsInv(d0, g, own) && id < g.MaxInodes() && !Used(d0, g, id)
    requires |d1| == |d0| && forall i: nat :: Used(d1, g, i) <==> i == id || Used(d0, g, i)
    requires forall b :: 0 <= b < |d0| && !(1 <= b < g.InodeStart()) ==> d1[b] == d0[b]
    ensures g.Fits(d0) && g.Fits(d1)
    ensures var d2 := StoreAt(d1, g, id, FreshInode(id, false));
      && FsInv(d2, g, own) && |d2| == |d0| > 0 && d2[0] == d0[0]
      && FilesOf(d2, g) == FilesOf(d0, g)[id as nat := FileState(id, 1, false, [])]
      && (forall i: nat :: Used(d2, g, i) <==> i == id || Used(d0, g, i))
  {
    hide InodeAt, FsInv, Used, StoreAt;
    InvInodes(d0, g, own);
    FreshSpare(id, false, d1);
    AddInode(d0, d1, g, own, id, FreshInode(id, false));
    StoreAtFacts(d1, g, id, FreshInode(id, false));
    var d2 := StoreAt(d1, g, id, FreshInode(id, false));
    InvInodes(d2, g, own);
    var files, files' := FilesOf(d0, g), FilesOf(d2, g);
    forall i: nat
      ensures i in files' <==> i == id || i in files
      ensures i in files && i != id ==> files'[i] == files[i]
    {
    }
    assert files'[id as nat] == FileState(id, 1, false, []);
  }

  /** A second name for an existing file: -1 if the new name is taken or the old one
      unknown. */
  method Linkat(root: Inode, oldName: seq<byte>, newName: seq<byte>) returns (r: int)
    requires Root(root) && GoodName(newName)
    requires Lookup(Entries(root.State().data), newName) == None && Lookup(Entries(root.State().data), oldName).Some?
      ==> RootCanGrow(root)
    modifies root.fs, root.fs.disk
    ensures Root(root) && root.fs.disk.blocks[0] == old(root.fs.disk.blocks)[0]
    ensures |root.fs.disk.blocks| == |old(root.fs.disk.blocks)|
    ensures var es := Entries(old(root.State()).data);
      r == if Lookup(es, newName) == None && Lookup(es, oldName).Some? then 0 else -1
    ensures r == -1 ==> root.fs.disk.blocks == old(root.fs.disk.blocks) && root.fs.own == old(root.fs.own)
    ensures r == 0 ==>
      && Linked(old(root.fs.Files()), root.fs.Files(), newName, Lookup(Entries(old(root.State()).data), oldName).value)
      && root.fs.InUse() == old(root.fs.InUse()) + Footprint(|old(root.State()).data| + 32) - Footprint(|old(root.State()).data|)
      && |Changed(old(root.fs.disk.blocks), root.fs.disk.blocks)| <=
           2 + 2 * Footprint(|old(root.State()).data| + 32) - Footprint(|old(root.State()).data|)
  {
    hide DirInv, FilesOf, InodeAt, Contents, FsInv, Used, TotalBlocks, Encode, WellFormedDir, Lookup, LookupFrom,
      Entries, WriteSpec, Changed;
    ghost var d0 := root.fs.disk.blocks;
    RootState(root);
    var taken := LookupName(root, newName);
    if taken.Some? {
      return -1;
    }
    ghost var files, es := root.fs.Files(), Entries(root.State().data);
    var found := LookupName(root, oldName);
    if found == None {
      return -1;
    }
    var id := found.value;
    var target := Find(root, oldName);
    assert target.Some? && target.value.id == id;
    HandleState(target.value);
    HandleState(root);
    LinkRoom(files, id);
    target.value.IncNlink();
    ghost var d1 := root.fs.disk.blocks;
    HandleState(root);
    assert root.State().data == files[0].data;
    Append(root, Entry(newName, id));
    DirAfterAdd(files, id, files[id as nat].(nlink := files[id as nat].nlink + 1), Entry(newName, id));
    HandleState(root);
    ChangedInTurn(d0, d1, root.fs.disk.blocks);
    r := 0;
  }

  /** A link count is a number of directory records, so it cannot overflow. */
  lemma LinkRoom(files: map<nat, FileState>, id: nat)
    requires DirInv(files) && |files[0].data| <= MAX_SIZE && id in files && id != 0
    ensures files[id].nlink == LinkCount(Entries(files[0].data), id) < TWO32 - 1
    ensures files[id].ino == id && !files[id].isDir
  {
  }
}
