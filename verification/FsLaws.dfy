/** What the plain machine of names and byte strings promises a program, in the calls it
    makes and the answers it gets. */
module FsLaws {
  import opened Words
  import opened Layout
  import opened Efs
  import opened Vfs
  import opened DirCodec
  import opened Directory
  import opened FsRuns

  /** A read answers the bytes from the offset on; it is short only at the end of the file. */
  lemma ReadIs(s: Spec, g: Geometry, id: nat, offset: nat, len: nat)
    requires id in s.files
    ensures Step(s, g, OpRead(id, offset, len)).1.Data?
    ensures var (s', r) := Step(s, g, OpRead(id, offset, len)); var f := s.files[id];
      && s' == s && |r.bytes| <= len && (|r.bytes| < len ==> offset + |r.bytes| >= |f|)
      && (r.bytes != [] ==> offset + |r.bytes| <= |f| && r.bytes == f[offset..offset + |r.bytes|])
  {
  }

  function ByteAfter(f: seq<byte>, offset: nat, buf: seq<byte>, k: nat): byte
    requires k < |f| || k < offset + |buf|
  {
    if offset <= k < offset + |buf| then buf[k - offset] else if k < |f| then f[k] else 0
  }

  /** The bytes of a file after a write: those written, around them those of before, and zeros
      in a gap behind the old end. No other file and no name changes. */
  lemma WriteIs(s: Spec, g: Geometry, id: nat, offset: nat, buf: seq<byte>)
    requires Admissible(s, g, OpWrite(id, offset, buf))
    ensures var (s', r) := Step(s, g, OpWrite(id, offset, buf)); var f := s.files[id];
      && r == Count(|buf|) && s'.names == s.names && s'.files.Keys == s.files.Keys
      && (forall i :: i in s.files && i != id ==> s'.files[i] == s.files[i])
      && |s'.files[id]| == Max(|f|, offset + |buf|)
      && forall k :: 0 <= k < |s'.files[id]| ==> s'.files[id][k] == ByteAfter(f, offset, buf, k)
  {
  }

  /** Clearing empties one file and changes nothing else. */
  lemma ClearIs(s: Spec, g: Geometry, id: nat)
    requires id in s.files
    ensures var (s', r) := Step(s, g, OpClear(id));
      && r == Done && s'.names == s.names && s'.files.Keys == s.files.Keys && s'.files[id] == []
      && forall i :: i in s.files && i != id ==> s'.files[i] == s.files[i]
  {
  }

  /** Names are added at the end, one at a time, and never change their file. */
  lemma NamesGrow(s: Spec, g: Geometry, op: Op)
    requires Admissible(s, g, op)
    ensures s.names <= Step(s, g, op).0.names
    ensures s.files.Keys <= Step(s, g, op).0.files.Keys
  {
    if op.OpCreate? && Lookup(s.names, op.name) == None {
      assert LeastFree(s.files, 1, InodeLimit(g)) !in s.files;
    }
  }

  /** A listed name is found, with the same file, however many names come after it. */
  lemma {:induction false} LookupStays(es: seq<Entry>, es': seq<Entry>, name: seq<byte>, i: nat)
    requires es <= es' && i <= |es| && LookupFrom(es, name, i).Some?
    ensures LookupFrom(es', name, i) == LookupFrom(es, name, i)
    decreases |es| - i
  {
    if es[i].name != name {
      LookupStays(es, es', name, i + 1);
    }
  }

  /** A run in two parts. */
  lemma {:induction false} RunInTurn(s: Spec, g: Geometry, ops: seq<Op>, more: seq<Op>)
    requires RunAdmissible(s, g, ops + more)
    ensures RunAdmissible(s, g, ops) && RunAdmissible(RunSpec(s, g, ops).0, g, more)
    ensures RunSpec(s, g, ops + more) ==
      (RunSpec(RunSpec(s, g, ops).0, g, more).0, RunSpec(s, g, ops).1 + RunSpec(RunSpec(s, g, ops).0, g, more).1)
    decreases |ops|
  {
    hide Step, Admissible;
    if ops == [] {
      assert ops + more == more && [] + RunSpec(s, g, more).1 == RunSpec(s, g, more).1;
    } else {
      assert (ops + more)[0] == ops[0] && (ops + more)[1..] == ops[1..] + more;
      var (s1, reply) := Step(s, g, ops[0]);
      RunInTurn(s1, g, ops[1..], more);
      var (s2, replies) := RunSpec(s1, g, ops[1..]);
      assert [reply] + (replies + RunSpec(s2, g, more).1) == ([reply] + replies) + RunSpec(s2, g, more).1;
    }
  }

  /** No call writes or clears file id. */
  predicate LeavesAlone(ops: seq<Op>, id: nat)
  {
    forall op :: op in ops ==> !(op.OpWrite? && op.id == id) && !(op.OpClear? && op.id == id)
  }

  /** Then the file is as it was, and every name is found as before. */
  lemma {:induction false} RunKeeps(s: Spec, g: Geometry, ops: seq<Op>, id: nat)
    requires RunAdmissible(s, g, ops)
    ensures s.names <= RunSpec(s, g, ops).0.names && s.files.Keys <= RunSpec(s, g, ops).0.files.Keys
    ensures id in s.files && LeavesAlone(ops, id) ==> RunSpec(s, g, ops).0.files[id] == s.files[id]
    decreases |ops|
  {
    if ops != [] {
      var s1 := Step(s, g, ops[0]).0;
      NamesGrow(s, g, ops[0]);
      RunKeeps(s1, g, ops[1..], id);
      assert ops[0] in ops;
      assert id in s.files && LeavesAlone(ops, id) ==> s1.files[id] == s.files[id];
    }
  }

  /** What was written is read back, whatever comes between that does not write or clear
      the file. */
  lemma WriteThenRead(s: Spec, g: Geometry, id: nat, offset: nat, buf: seq<byte>, ops: seq<Op>)
    requires RunAdmissible(s, g, [OpWrite(id, offset, buf)] + ops + [OpRead(id, offset, |buf|)]) && LeavesAlone(ops, id)
    ensures var replies := RunSpec(s, g, [OpWrite(id, offset, buf)] + ops + [OpRead(id, offset, |buf|)]).1;
      |replies| == |ops| + 2 && replies[0] == Count(|buf|) && replies[|ops| + 1] == Data(buf)
  {
    hide Step, LeavesAlone;
    var w, r := OpWrite(id, offset, buf), OpRead(id, offset, |buf|);
    var s' := LastCall(s, g, w, ops, r);
    RunKeeps(Step(s, g, w).0, g, ops, id);
    WriteIs(s, g, id, offset, buf);
    ReadIs(s', g, id, offset, |buf|);
    var got := Step(s', g, r).1.bytes;
    assert s'.files[id] == Step(s, g, w).0.files[id];
    assert |got| == |buf|;
    assert got == buf;
  }

  /** Nothing is read back from a file that was cleared. */
  lemma ClearThenRead(s: Spec, g: Geometry, id: nat, ops: seq<Op>, offset: nat, len: nat)
    requires RunAdmissible(s, g, [OpClear(id)] + ops + [OpRead(id, offset, len)]) && LeavesAlone(ops, id)
    ensures var replies := RunSpec(s, g, [OpClear(id)] + ops + [OpRead(id, offset, len)]).1;
      |replies| == |ops| + 2 && replies[|ops| + 1] == Data([])
  {
    hide Step, LeavesAlone;
    var s' := LastCall(s, g, OpClear(id), ops, OpRead(id, offset, len));
    RunKeeps(Step(s, g, OpClear(id)).0, g, ops, id);
    ClearIs(s, g, id);
    ReadIs(s', g, id, offset, len);
  }

  /** The state in which the last call of such a run is made. */
  lemma LastCall(s: Spec, g: Geometry, first: Op, ops: seq<Op>, last: Op) returns (s': Spec)
    requires RunAdmissible(s, g, [first] + ops + [last])
    ensures Admissible(s, g, first) && RunAdmissible(Step(s, g, first).0, g, ops)
    ensures s' == RunSpec(Step(s, g, first).0, g, ops).0 && Admissible(s', g, last)
    ensures RunSpec(s, g, [first] + ops + [last]).1 ==
      [Step(s, g, first).1] + RunSpec(Step(s, g, first).0, g, ops).1 + [Step(s', g, last).1]
    ensures |RunSpec(Step(s, g, first).0, g, ops).1| == |ops|
  {
    hide Step, Admissible;
    RunInTurn(s, g, [first] + ops, [last]);
    RunInTurn(s, g, [first], ops);
    OneCall(s, g, first);
    s' := RunSpec(Step(s, g, first).0, g, ops).0;
    OneCall(s', g, last);
    OneReplyEach(Step(s, g, first).0, g, ops);
  }

  lemma OneCall(s: Spec, g: Geometry, op: Op)
    requires RunAdmissible(s, g, [op])
    ensures Admissible(s, g, op) && RunSpec(s, g, [op]) == (Step(s, g, op).0, [Step(s, g, op).1])
  {
    hide Step, Admissible;
    assert [op][1..] == [] && [Step(s, g, op).1] + [] == [Step(s, g, op).1];
  }

  lemma {:induction false} OneReplyEach(s: Spec, g: Geometry, ops: seq<Op>)
    requires RunAdmissible(s, g, ops)
    ensures |RunSpec(s, g, ops).1| == |ops|
    decreases |ops|
  {
    hide Step, Admissible;
    if ops != [] {
      OneReplyEach(Step(s, g, ops[0]).0, g, ops[1..]);
    }
  }

  /** A new name answers a number no file had; it is found under it for ever, and the file
      is empty until somebody writes to it. */
  lemma CreateThenFind(s: Spec, g: Geometry, name: seq<byte>, ops: seq<Op>)
    requires RunAdmissible(s, g, [OpCreate(name)] + ops + [OpFind(name)])
    requires forall k :: 0 <= k < |s.names| ==> s.names[k].name != name
    ensures var (s', replies) := RunSpec(s, g, [OpCreate(name)] + ops + [OpFind(name)]);
      && |replies| == |ops| + 2 && replies[0].Handle? && replies[0].file.Some? && replies[|ops| + 1] == replies[0]
      && NewFile(s, replies[0].file.value, ops, s')
  {
    hide LeavesAlone, Lookup;
    LookupListed(s.names, name);
    var s' := LastCall(s, g, OpCreate(name), ops, OpFind(name));
    var s1 := Step(s, g, OpCreate(name)).0;
    var id: nat := LeastFree(s.files, 1, InodeLimit(g));
    assert s1.names == s.names + [Entry(name, id)];
    FoundLast(s.names, name, id);
    RunKeeps(s1, g, ops, id);
    FoundStill(s1.names, s'.names, name);
    RunInTurn(s, g, [OpCreate(name)] + ops, [OpFind(name)]);
    RunInTurn(s, g, [OpCreate(name)], ops);
    OneCall(s, g, OpCreate(name));
    OneCall(s', g, OpFind(name));
  }

  /** The least free number, with nothing in it until somebody writes to it. */
  predicate NewFile(s: Spec, id: nat, ops: seq<Op>, s': Spec)
  {
    && id > 0 && id !in s.files && id in s'.files && (forall k :: 1 <= k < id ==> k in s.files)
    && (LeavesAlone(ops, id) ==> s'.files[id] == [])
  }

  lemma FoundLast(es: seq<Entry>, name: seq<byte>, ino: u32)
    requires forall k :: 0 <= k < |es| ==> es[k].name != name
    ensures Lookup(es + [Entry(name, ino)], name) == Some(ino)
  {
    var es' := es + [Entry(name, ino)];
    LookupListed(es', name);
    assert es'[|es|].name == name;
  }

  lemma FoundStill(es: seq<Entry>, es': seq<Entry>, name: seq<byte>)
    requires es <= es' && Lookup(es, name).Some?
    ensures Lookup(es', name) == Lookup(es, name)
  {
    LookupStays(es, es', name, 0);
  }

  /** A link that succeeds makes the new name find the file of the old one, for ever; it does
      exactly if the old name is listed and the new one is not. */
  lemma LinkThenFind(s: Spec, g: Geometry, oldName: seq<byte>, newName: seq<byte>, ops: seq<Op>)
    requires RunAdmissible(s, g, [OpLink(oldName, newName)] + ops + [OpFind(newName)])
    ensures var replies := RunSpec(s, g, [OpLink(oldName, newName)] + ops + [OpFind(newName)]).1;
      && |replies| == |ops| + 2 && replies[0] == Code(if ListsName(s, oldName) && !ListsName(s, newName) then 0 else -1)
      && (replies[0] == Code(0) ==> replies[|ops| + 1] == Step(s, g, OpFind(oldName)).1 && replies[|ops| + 1] != Handle(None))
  {
    hide Admissible, Lookup;
    LookupListed(s.names, oldName);
    LookupListed(s.names, newName);
    var s' := LastCall(s, g, OpLink(oldName, newName), ops, OpFind(newName));
    var s1 := Step(s, g, OpLink(oldName, newName)).0;
    if ListsName(s, oldName) && !ListsName(s, newName) {
      FoundLast(s.names, newName, Lookup(s.names, oldName).value);
      RunKeeps(s1, g, ops, 0);
      FoundStill(s1.names, s'.names, newName);
    }
  }

  /** The source can carry out a create exactly if the name fits its field and is listed, or
      the directory can grow by a record and some number with a bit, a place on disk and 32
      bits is free. */
  lemma CreateAdmitted(s: Spec, g: Geometry, name: seq<byte>)
    ensures Admissible(s, g, OpCreate(name)) <==>
      |name| <= 27 && (forall i :: 0 <= i < |name| ==> name[i] != 0) && (ListsName(s, name) || (DirectoryFits(s, g) && FreeNumber(s, g)))
  {
    hide Lookup, Use;
    LookupListed(s.names, name);
    var limit := InodeLimit(g);
    if 1 <= limit {
      var id := LeastFree(s.files, 1, limit);
      assert id < limit ==> id !in s.files;
    }
  }

  /** Some inode number is unused, has a bit and a place on disk, and fits its field. */
  predicate FreeNumber(s: Spec, g: Geometry)
  {
    exists id :: 1 <= id < 3 * g.inodeAreaBlocks && id < 4096 * g.inodeBitmapBlocks && id < 0x1_0000_0000 && id !in s.files
  }

  /** One more record fits the largest file and the free blocks. */
  predicate DirectoryFits(s: Spec, g: Geometry)
  {
    var n := 32 * |s.names|;
    n + 32 <= 16540 * 512 && Use(s, g) + Footprint(n + 32) - Footprint(n) <= g.dataAreaBlocks
  }

  predicate GrowthFits(s: Spec, g: Geometry, id: nat, end: nat)
    requires id in s.files
  {
    Use(s, g) + Footprint(Max(|s.files[id]|, end)) - Footprint(|s.files[id]|) <= g.dataAreaBlocks
  }

  /** And a write of something exactly if the file is there, ends within the largest size, and
      the blocks it grows by are free. */
  lemma WriteAdmitted(s: Spec, g: Geometry, id: nat, offset: nat, buf: seq<byte>)
    requires buf != []
    ensures Admissible(s, g, OpWrite(id, offset, buf)) <==> id in s.files && offset + |buf| <= 16540 * 512 && GrowthFits(s, g, id, offset + |buf|)
  {
    hide Use, Footprint;
    if id in s.files {
      DataBlocksLeast(Max(|s.files[id]|, offset + |buf|), offset / 512);
    }
  }

  predicate ListsName(s: Spec, name: seq<byte>) { exists k :: 0 <= k < |s.names| && s.names[k].name == name }
}
