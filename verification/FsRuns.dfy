/** Whole runs of the file system: any sequence of operations behaves like the plain
    machine of names and byte strings below. */
module FsRuns {
  import opened Words
  import opened BitmapLayer
  import opened Layout
  import opened FileData
  import opened Efs
  import opened FsState
  import opened FsSteps
  import opened Vfs
  import opened Mkfs
  import opened DirCodec
  import opened Directory

  /** A directory is a list of names, a file is a string of bytes. */
  datatype Spec = Spec(names: seq<Entry>, files: map<nat, seq<byte>>)

  datatype Op =
    | OpCreate(name: seq<byte>)
    | OpLink(oldName: seq<byte>, newName: seq<byte>)
    | OpFind(name: seq<byte>)
    | OpWrite(id: nat, offset: nat, buf: seq<byte>)
    | OpRead(id: nat, offset: nat, len: nat)
    | OpClear(id: nat)

  datatype Reply = Handle(file: Option<nat>) | Code(code: int) | Count(n: nat) | Data(bytes: seq<byte>) | Done

  function ReadSpec(data: seq<byte>, offset: nat, len: nat): seq<byte>
  {
    var n := ReadLen(|data|, offset, len);
    if n == 0 then [] else data[offset..offset + n]
  }

  /** Inode numbers that have a bit, a home on disk, and fit the record. */
  function InodeLimit(g: Geometry): nat
  {
    var n := if g.MaxInodes() < g.InodeBitmap().MaxBits() then g.MaxInodes() else g.InodeBitmap().MaxBits();
    if n < TWO32 then n else TWO32
  }

  /** The least number from i on that no file has, or `limit`. */
  function LeastFree(files: map<nat, seq<byte>>, i: nat, limit: nat): (r: nat)
    requires i <= limit
    ensures i <= r <= limit && (r < limit ==> r !in files)
    ensures forall k :: i <= k < r ==> k in files
    decreases limit - i
  {
    if i == limit || i !in files then i else LeastFree(files, i + 1, limit)
  }

  /** Blocks of all files numbered below n, index blocks included. */
  function Sum(files: map<nat, seq<byte>>, n: nat): nat
  {
    if n == 0 then 0
    else Sum(files, n - 1) + if n - 1 in files then Footprint(|files[n - 1]|) else 0
  }

  /** Blocks of the whole file system. */
  function Use(s: Spec, g: Geometry): nat
  {
    Footprint(32 * |s.names|) + Sum(s.files, g.MaxInodes())
  }

  predicate RoomForName(s: Spec, g: Geometry)
  {
    var n := 32 * |s.names|;
    n + 32 <= MAX_SIZE && Use(s, g) + Footprint(n + 32) - Footprint(n) <= g.dataAreaBlocks
  }

  /** The calls on which the source does not panic: handles of existing files, names
      that fit their field, sizes within the tree's reach, enough free inodes and
      blocks. (The offset bound only bites for empty writes behind the direct slots.) */
  predicate Admissible(s: Spec, g: Geometry, op: Op)
  {
    match op
    case OpCreate(name) =>
      GoodName(name) && (Lookup(s.names, name) == None ==>
        RoomForName(s, g) && 1 <= InodeLimit(g) && LeastFree(s.files, 1, InodeLimit(g)) < InodeLimit(g))
    case OpLink(oldName, newName) =>
      GoodName(newName) && (Lookup(s.names, newName) == None && Lookup(s.names, oldName).Some? ==> RoomForName(s, g))
    case OpFind(name) => true
    case OpWrite(id, offset, buf) =>
      id in s.files && offset + |buf| <= MAX_SIZE &&
      var n := |s.files[id]|;
      (offset / 512 < DataBlocks(Max(n, offset + |buf|)) || HasNeighbour(offset / 512)) &&
      Use(s, g) + Footprint(Max(n, offset + |buf|)) - Footprint(n) <= g.dataAreaBlocks
    case OpRead(id, offset, len) => id in s.files
    case OpClear(id) => id in s.files
  }

  /** The plain machine: what an operation leaves and what it answers. */
  function Step(s: Spec, g: Geometry, op: Op): (Spec, Reply)
    requires Admissible(s, g, op)
  {
    match op
    case OpCreate(name) =>
      if Lookup(s.names, name).Some? then (s, Handle(None))
      else
        var id: nat := LeastFree(s.files, 1, InodeLimit(g));
        (Spec(s.names + [Entry(name, id)], s.files[id := []]), Handle(Some(id)))
    case OpLink(oldName, newName) =>
      var target := Lookup(s.names, oldName);
      if Lookup(s.names, newName) == None && target.Some? then
        (s.(names := s.names + [Entry(newName, target.value)]), Code(0))
      else (s, Code(-1))
    case OpFind(name) =>
      (s, Handle(match Lookup(s.names, name) case Some(id) => Some(id as nat) case None => None))
    case OpWrite(id, offset, buf) =>
      (s.(files := s.files[id := WriteSpec(s.files[id], offset, buf)]), Count(|buf|))
    case OpRead(id, offset, len) => (s, Data(ReadSpec(s.files[id], offset, len)))
    case OpClear(id) => (s.(files := s.files[id := []]), Done)
  }

  /** Every call of the run is admissible when its turn comes. */
  predicate RunAdmissible(s: Spec, g: Geometry, ops: seq<Op>)
    decreases |ops|
  {
    ops == [] || (Admissible(s, g, ops[0]) && RunAdmissible(Step(s, g, ops[0]).0, g, ops[1..]))
  }

  function RunSpec(s: Spec, g: Geometry, ops: seq<Op>): (r: (Spec, seq<Reply>))
    requires RunAdmissible(s, g, ops)
    decreases |ops|
  {
    if ops == [] then (s, [])
    else
      var (s1, reply) := Step(s, g, ops[0]);
      var (s', replies) := RunSpec(s1, g, ops[1..]);
      (s', [reply] + replies)
  }

  ghost function Abs(files: map<nat, FileState>): Spec
    requires 0 in files
  {
    Spec(Entries(files[0].data), map id: nat | id in files && id != 0 :: files[id].data)
  }

  lemma {:induction false} SumUpdate(files: map<nat, seq<byte>>, n: nat, id: nat, data: seq<byte>)
    ensures Sum(files[id := data], n) == Sum(files, n) +
      if id < n then Footprint(|data|) - (if id in files then Footprint(|files[id]|) else 0) else 0
  {
    if n > 0 {
      SumUpdate(files, n - 1, id, data);
    }
  }

  /** The root directory is consistent, and no block is lost or counted twice: the
      blocks in use are those of the files. */
  ghost predicate Sane(root: Inode)
    reads root.fs, root.fs.disk
  {
    Root(root) && |root.fs.disk.blocks| > 0 && root.fs.InUse() == Use(Abs(root.fs.Files()), root.fs.g)
  }

  ghost function View(root: Inode): Spec
    requires Root(root)
    reads root.fs, root.fs.disk
  {
    Abs(root.fs.Files())
  }

  /** A handle on file `id`, such as `find` and `create` return. */
  method HandleOf(root: Inode, id: nat) returns (h: Inode)
    requires Root(root) && id in root.fs.Files()
    ensures fresh(h) && h.fs == root.fs && h.id == id && h.Open()
  {
    hide FsInv;
    InvInodes(root.fs.disk.blocks, root.fs.g, root.fs.own);
    var (b, off) := root.fs.GetDiskInodePos(id);
    h := new Inode(b, off, root.fs, id);
  }

  /** Changing the bytes of a file that is not the root keeps the directory invariant. */
  lemma DataChange(files: map<nat, FileState>, id: nat, data: seq<byte>)
    requires DirInv(files) && id in files && id != 0
    ensures DirInv(files[id := files[id].(data := data)])
    ensures Abs(files[id := files[id].(data := data)]) == Abs(files).(files := Abs(files).files[id := data])
  {
    hide Entries, WellFormedDir, LinkCount;
  }

  lemma Numbers(root: Inode)
    requires Root(root)
    ensures forall id :: id in root.fs.Files() ==> id < root.fs.g.MaxInodes()
    ensures |root.State().data| == 32 * |View(root).names| && root.State() == root.fs.Files()[0]
    ensures |root.State().data| <= MAX_SIZE && |root.fs.disk.blocks| > 0
  {
    InvInodes(root.fs.disk.blocks, root.fs.g, root.fs.own);
  }

  method ExecWrite(root: Inode, id: nat, offset: nat, buf: seq<byte>) returns (n: nat)
    requires Sane(root) && Admissible(View(root), root.fs.g, OpWrite(id, offset, buf))
    modifies root.fs, root.fs.disk
    ensures Sane(root) && root.fs.disk.blocks[0] == old(root.fs.disk.blocks)[0]
    ensures |root.fs.disk.blocks| == |old(root.fs.disk.blocks)|
    ensures (View(root), Count(n)) == Step(old(View(root)), root.fs.g, OpWrite(id, offset, buf))
  {
    hide DirInv, FilesOf, FsInv, Used, InodeAt, Contents, TotalBlocks, WriteSpec, Entries;
    Numbers(root);
    var h := HandleOf(root, id);
    HandleState(h);
    ghost var files := root.fs.Files();
    n := h.WriteAt(offset, buf);
    HandleState(h);
    HandleState(root);
    DataChange(files, id, WriteSpec(files[id].data, offset, buf));
    SumUpdate(Abs(files).files, root.fs.g.MaxInodes(), id, WriteSpec(files[id].data, offset, buf));
  }

  method ExecClear(root: Inode, id: nat)
    requires Sane(root) && Admissible(View(root), root.fs.g, OpClear(id))
    modifies root.fs, root.fs.disk
    ensures Sane(root) && root.fs.disk.blocks[0] == old(root.fs.disk.blocks)[0]
    ensures |root.fs.disk.blocks| == |old(root.fs.disk.blocks)|
    ensures (View(root), Done) == Step(old(View(root)), root.fs.g, OpClear(id))
  {
    hide DirInv, FilesOf, FsInv, Used, InodeAt, Contents, TotalBlocks, Entries;
    Numbers(root);
    var h := HandleOf(root, id);
    HandleState(h);
    ghost var files := root.fs.Files();
    h.Clear();
    HandleState(h);
    HandleState(root);
    NoBlocks();
    DataChange(files, id, []);
    SumUpdate(Abs(files).files, root.fs.g.MaxInodes(), id, []);
  }

  lemma NoBlocks()
    ensures Footprint(0) == 0
  {
  }

  method ExecRead(root: Inode, id: nat, offset: nat, len: nat) returns (bytes: seq<byte>)
    requires Sane(root) && Admissible(View(root), root.fs.g, OpRead(id, offset, len))
    ensures root.fs.disk.blocks == old(root.fs.disk.blocks) && root.fs.own == old(root.fs.own)
    ensures (View(root), Data(bytes)) == Step(View(root), root.fs.g, OpRead(id, offset, len))
  {
    hide DirInv, FilesOf, FsInv, Used, InodeAt, Contents, Entries;
    var h := HandleOf(root, id);
    HandleState(h);
    var buf := new byte[len];
    var n := h.ReadAt(offset, buf);
    bytes := buf[..n];
  }

  /** A new name appends to the list of names, and touches no other file's bytes. */
  lemma NameAbs(files: map<nat, FileState>, id: nat, f: FileState, e: Entry)
    requires 0 in files && id != 0 && GoodName(e.name) && WellFormedDir(files[0].data)
    ensures Abs(WithEntry(files[id := f], e)) == Spec(Abs(files).names + [e], Abs(files).files[id := f.data])
  {
    hide Entries, Encode, WriteSpec, WellFormedDir;
    AppendEntry(files[0].data, e);
  }

  /** One more name for a file that is there. */
  lemma LinkAbs(files: map<nat, FileState>, e: Entry)
    requires 0 in files && e.ino != 0 && e.ino as nat in files && files[e.ino as nat].nlink < TWO32 - 1
    requires GoodName(e.name) && WellFormedDir(files[0].data)
    ensures var id: nat := e.ino; var f := files[id].(nlink := files[id].nlink + 1);
      Abs(WithEntry(files[id := f], e)) == Abs(files).(names := Abs(files).names + [e])
  {
    hide Entries, Encode, WriteSpec, WellFormedDir, WithEntry;
    var id: nat := e.ino;
    NameAbs(files, id, files[id].(nlink := files[id].nlink + 1), e);
  }

  /** The least unused number is where the bitmap search stops. */
  lemma LeastIs(files: map<nat, seq<byte>>, limit: nat, id: nat)
    requires 1 <= id < limit && id !in files && forall k :: 1 <= k < id ==> k in files
    ensures LeastFree(files, 1, limit) == id
  {
  }

  method ExecCreate(root: Inode, name: seq<byte>) returns (r: Option<nat>)
    requires Sane(root) && Admissible(View(root), root.fs.g, OpCreate(name))
    modifies root.fs, root.fs.disk
    ensures Sane(root) && root.fs.disk.blocks[0] == old(root.fs.disk.blocks)[0]
    ensures (View(root), Handle(r)) == Step(old(View(root)), root.fs.g, OpCreate(name))
    ensures |root.fs.disk.blocks| == |old(root.fs.disk.blocks)|
    ensures r == None ==> root.fs.disk.blocks == old(root.fs.disk.blocks)
  {
    hide FilesOf, FsInv, Used, InodeAt, Contents, TotalBlocks, Entries, Lookup, WithEntry, WellFormedDir, LinkCount;
    Numbers(root);
    ghost var files, s := root.fs.Files(), View(root);
    assert Lookup(s.names, name) == None ==> InodeFree(root) by {
      if Lookup(s.names, name) == None {
        assert FreeNumber(root, LeastFree(s.files, 1, InodeLimit(root.fs.g)));
      }
    }
    var h := CreateFile(root, name);
    if h == None {
      return None;
    }
    ghost var id := h.value.id;
    Numbers(root);
    HandleState(h.value);
    NameAbs(files, id, FileState(id, 1, false, []), Entry(name, id));
    NoBlocks();
    SumUpdate(s.files, root.fs.g.MaxInodes(), id, []);
    LeastIs(s.files, InodeLimit(root.fs.g), id);
    CreatedIno(files, root.fs.Files(), name, id);
    var n := IdOf(h.value);
    r := Some(n);
  }

  lemma CreatedIno(files: map<nat, FileState>, files': map<nat, FileState>, name: seq<byte>, id: nat)
    requires Created(files, files', name, id)
    ensures id != 0 && id in files' && files'[id].ino == id
  {
  }

  /** `inode_id`: the number as the record has it. */
  method IdOf(h: Inode) returns (id: nat)
    requires h.Open() && h.State().ino == h.id
    ensures id == h.id
  {
    hide FsInv, Used, InodeAt, Contents, Sound;
    var inode := h.ReadDiskInode();
    id := inode.inode_id;
  }

  /** A link writes no more blocks than this: two inodes, the blocks of the directory, and
      a bitmap block for each block the directory grows by. */
  function LinkBlocks(names: nat): int { 2 + 2 * Footprint(32 * names + 32) - Footprint(32 * names) }

  method ExecLink(root: Inode, oldName: seq<byte>, newName: seq<byte>) returns (r: int)
    requires Sane(root) && Admissible(View(root), root.fs.g, OpLink(oldName, newName))
    modifies root.fs, root.fs.disk
    ensures Sane(root) && root.fs.disk.blocks[0] == old(root.fs.disk.blocks)[0]
    ensures (View(root), Code(r)) == Step(old(View(root)), root.fs.g, OpLink(oldName, newName))
    ensures r != 0 ==> root.fs.disk.blocks == old(root.fs.disk.blocks)
    ensures |root.fs.disk.blocks| == |old(root.fs.disk.blocks)|
    ensures r == 0 ==> |Changed(old(root.fs.disk.blocks), root.fs.disk.blocks)| <= LinkBlocks(|old(View(root)).names|)
  {
    hide FilesOf, FsInv, Used, InodeAt, Contents, TotalBlocks, Entries, Lookup, WithEntry, WellFormedDir, LinkCount,
      Changed;
    Numbers(root);
    ghost var files, s := root.fs.Files(), View(root);
    r := Linkat(root, oldName, newName);
    Numbers(root);
    if r == 0 {
      LinkAbs(files, Entry(newName, Lookup(s.names, oldName).value));
    }
  }

  method ExecFind(root: Inode, name: seq<byte>) returns (r: Option<nat>)
    requires Sane(root) && Admissible(View(root), root.fs.g, OpFind(name))
    ensures root.fs.disk.blocks == old(root.fs.disk.blocks) && root.fs.own == old(root.fs.own)
    ensures (View(root), Handle(r)) == Step(View(root), root.fs.g, OpFind(name))
  {
    hide FilesOf, FsInv, Used, InodeAt, Contents, Entries, Lookup, WellFormedDir, LinkCount;
    HandleState(root);
    var h := Find(root, name);
    if h == None {
      return None;
    }
    HandleState(h.value);
    var id := IdOf(h.value);
    r := Some(id);
  }

  /** The operation did not change the disk: it only reads, or it was refused. */
  predicate Quiet(op: Op, reply: Reply)
  {
    op.OpFind? || op.OpRead? || (op.OpCreate? && reply == Handle(None)) || (op.OpLink? && reply == Code(-1))
  }

  /** One operation. */
  method Exec(root: Inode, op: Op) returns (reply: Reply)
    requires Sane(root) && Admissible(View(root), root.fs.g, op)
    modifies root.fs, root.fs.disk
    ensures Sane(root) && root.fs.disk.blocks[0] == old(root.fs.disk.blocks)[0]
    ensures (View(root), reply) == Step(old(View(root)), root.fs.g, op)
    ensures |root.fs.disk.blocks| == |old(root.fs.disk.blocks)|
    ensures Quiet(op, reply) ==> root.fs.disk.blocks == old(root.fs.disk.blocks)
  {
    hide Step, Admissible, Root, Use, Abs;
    match op
    case OpCreate(name) => var r := ExecCreate(root, name); reply := Handle(r);
    case OpLink(oldName, newName) => var r := ExecLink(root, oldName, newName); reply := Code(r);
    case OpFind(name) => var r := ExecFind(root, name); reply := Handle(r);
    case OpWrite(id, offset, buf) => var n := ExecWrite(root, id, offset, buf); reply := Count(n);
    case OpRead(id, offset, len) => var b := ExecRead(root, id, offset, len); reply := Data(b);
    case OpClear(id) => ExecClear(root, id); reply := Done;
  }

  lemma RunOne(s: Spec, g: Geometry, op: Op)
    requires Admissible(s, g, op)
    ensures RunAdmissible(s, g, [op]) && RunSpec(s, g, [op]) == (Step(s, g, op).0, [Step(s, g, op).1])
  {
    hide Step, Admissible;
    var (t, reply) := Step(s, g, op);
    assert [op][1..] == [];
    assert RunSpec(t, g, []) == (t, []);
    assert [reply] + [] == [reply];
  }

  lemma {:induction false} RunSplit(s: Spec, g: Geometry, ops: seq<Op>, k: nat)
    requires k < |ops| && RunAdmissible(s, g, ops)
    ensures RunAdmissible(s, g, ops[..k]) && RunAdmissible(s, g, ops[..k + 1])
    ensures var (s1, replies) := RunSpec(s, g, ops[..k]);
      Admissible(s1, g, ops[k]) &&
      RunSpec(s, g, ops[..k + 1]) == (Step(s1, g, ops[k]).0, replies + [Step(s1, g, ops[k]).1])
    decreases k
  {
    hide Step, Admissible;
    if k == 0 {
      RunOne(s, g, ops[0]);
      assert ops[..k] == [] && ops[..k + 1] == [ops[0]];
      assert RunSpec(s, g, ops[..k]) == (s, []);
      assert RunSpec(s, g, ops[..k]).1 + [Step(s, g, ops[0]).1] == [Step(s, g, ops[0]).1];
    } else {
      RunSplit(Step(s, g, ops[0]).0, g, ops[1..], k - 1);
      assert ops[..k][1..] == ops[1..][..k - 1] && ops[..k + 1][1..] == ops[1..][..k];
      assert ops[1..][k - 1] == ops[k];
      var (t, reply) := Step(s, g, ops[0]);
      var (s1, replies) := RunSpec(t, g, ops[1..][..k - 1]);
      assert [reply] + (replies + [Step(s1, g, ops[k]).1]) == ([reply] + replies) + [Step(s1, g, ops[k]).1];
    }
  }

  /** Any run of admissible operations behaves, answers included, as the plain machine;
      at the end the disk again satisfies the invariant, the blocks in use are those of
      the files, and the super block is as it was. */
  method Run(root: Inode, ops: seq<Op>) returns (replies: seq<Reply>)
    requires Sane(root) && RunAdmissible(View(root), root.fs.g, ops)
    modifies root.fs, root.fs.disk
    ensures Sane(root) && root.fs.disk.blocks[0] == old(root.fs.disk.blocks)[0]
    ensures (View(root), replies) == RunSpec(old(View(root)), root.fs.g, ops)
  {
    hide Step, Admissible, Root, Use, Abs, RunSpec, RunAdmissible;
    ghost var s, g := View(root), root.fs.g;
    replies := [];
    var k := 0;
    assert RunAdmissible(s, g, ops[..0]) && RunSpec(s, g, ops[..0]) == (s, []) by { RunEmpty(s, g, ops); }
    while k < |ops|
      invariant 0 <= k <= |ops| && Sane(root) && root.fs.disk.blocks[0] == old(root.fs.disk.blocks)[0]
      invariant RunAdmissible(s, g, ops[..k]) && (View(root), replies) == RunSpec(s, g, ops[..k])
    {
      RunSplit(s, g, ops, k);
      var reply := Exec(root, ops[k]);
      replies := replies + [reply];
      k := k + 1;
    }
    assert ops[..k] == ops;
  }

  lemma RunEmpty(s: Spec, g: Geometry, ops: seq<Op>)
    ensures RunAdmissible(s, g, ops[..0]) && RunSpec(s, g, ops[..0]) == (s, [])
  {
  }

  /** `root_inode`: the handle of inode 0. */
  method RootInode(fs: EasyFileSystem) returns (root: Inode)
    requires fs.Valid() && Used(fs.disk.blocks, fs.g, 0)
    ensures fresh(root) && root.fs == fs && root.id == 0 && root.Open()
  {
    hide FsInv, Used;
    var (b, off) := fs.GetDiskInodePos(0);
    root := new Inode(b, off, fs, 0);
  }

  /** A freshly formatted disk shows no names and no files. */
  lemma FreshView(files: map<nat, FileState>)
    requires files == map[0 := FileState(0, 1, true, [])]
    ensures DirInv(files) && Abs(files) == Spec([], map[])
  {
  }

  lemma {:induction false} SumEmpty(n: nat)
    ensures Sum(map[], n) == 0
  {
    if n > 0 {
      SumEmpty(n - 1);
    }
  }

  /** A formatted disk, through the handle of its root. */
  method Format(disk: Disk, totalBlocks: u32, inodeBitmapBlocks: u32) returns (root: Inode)
    requires inodeBitmapBlocks > 0
    requires 1 + inodeBitmapBlocks + InodeArea(inodeBitmapBlocks) <= totalBlocks <= |disk.blocks|
    modifies disk
    ensures fresh(root.fs) && root.fs.disk == disk && Sane(root) && View(root) == Spec([], map[])
    ensures root.fs.g == Plan(totalBlocks, inodeBitmapBlocks) && |disk.blocks| == |old(disk.blocks)|
    ensures SuperBlockOf(disk.blocks[0], totalBlocks, root.fs.g)
  {
    hide FsInv, Used, DirInv, FilesOf, Footprint, Sum, SuperBlockOf;
    var fs := Create(disk, totalBlocks, inodeBitmapBlocks);
    UsedFiles(fs);
    root := RootInode(fs);
    FreshView(fs.Files());
    HandleState(root);
    SumEmpty(fs.g.MaxInodes());
    NoBlocks();
  }

  /** Opening a disk that holds a consistent file system shows that file system. */
  method Reopen(disk: Disk, ghost was: Inode, ghost totalBlocks: nat) returns (root: Inode)
    requires Sane(was) && disk.blocks == was.fs.disk.blocks && SuperBlockOf(disk.blocks[0], totalBlocks, was.fs.g)
    ensures fresh(root.fs) && root.fs.disk == disk && Sane(root) && root.fs.g == was.fs.g
    ensures View(root) == View(was) && disk.blocks == old(disk.blocks)
  {
    hide FsInv, Used, DirInv, FilesOf, Footprint, Sum, SuperBlockOf;
    HandleState(was);
    var fs := Open(disk, was.fs.g, was.fs.own, totalBlocks);
    assert fs.Files() == was.fs.Files();
    UsedFiles(fs);
    root := RootInode(fs);
    HandleState(root);
  }

  /** Format, run, and open the disk again: the answers are those of the plain machine
      started empty, and the reopened disk shows its final state. */
  method FormatRunReopen(disk: Disk, totalBlocks: u32, inodeBitmapBlocks: u32, ops: seq<Op>)
    returns (replies: seq<Reply>, root: Inode)
    requires inodeBitmapBlocks > 0
    requires 1 + inodeBitmapBlocks + InodeArea(inodeBitmapBlocks) <= totalBlocks <= |disk.blocks|
    requires RunAdmissible(Spec([], map[]), Plan(totalBlocks, inodeBitmapBlocks), ops)
    modifies disk
    ensures fresh(root.fs) && root.fs.disk == disk && Sane(root)
    ensures (View(root), replies) == RunSpec(Spec([], map[]), Plan(totalBlocks, inodeBitmapBlocks), ops)
  {
    hide Sane, View, RunAdmissible, RunSpec, SuperBlockOf;
    var r := Format(disk, totalBlocks, inodeBitmapBlocks);
    replies := Run(r, ops);
    root := Reopen(disk, r, totalBlocks);
  }

  lemma UsedFiles(fs: EasyFileSystem)
    requires fs.Valid()
    ensures |fs.disk.blocks| > 0
    ensures forall i :: i in fs.Files() ==> Used(fs.disk.blocks, fs.g, i)
  {
    InvInodes(fs.disk.blocks, fs.g, fs.own);
  }
}
