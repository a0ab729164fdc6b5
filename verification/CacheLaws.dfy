/** What the block cache promises, in what was written and read. */
module CacheLaws {
  import opened BitmapLayer
  import opened BlockCaches

  /** What was last written to block b, or what it held before. */
  function LastWritten(ops: seq<CacheOp>, b: nat, before: Block): Block
  {
    if ops == [] then before else
      var op := ops[|ops| - 1];
      if op.WriteBlock? && op.b == b then op.data else LastWritten(ops[..|ops| - 1], b, before)
  }

  /** A run in two parts. */
  lemma {:induction false} InTurn(p: Plain, ops: seq<CacheOp>, more: seq<CacheOp>)
    requires AllAllowed(p, ops + more)
    ensures AllAllowed(p, ops) && AllAllowed(PlainRun(p, ops).0, more)
    ensures PlainRun(p, ops + more) ==
      (PlainRun(PlainRun(p, ops).0, more).0, PlainRun(p, ops).1 + PlainRun(PlainRun(p, ops).0, more).1)
    decreases |ops|
  {
    hide PlainStep, Allowed;
    if ops == [] {
      assert ops + more == more && [] + PlainRun(p, more).1 == PlainRun(p, more).1;
    } else {
      assert (ops + more)[0] == ops[0] && (ops + more)[1..] == ops[1..] + more;
      var (p1, out) := PlainStep(p, ops[0]);
      InTurn(p1, ops[1..], more);
      var (p2, outs) := PlainRun(p1, ops[1..]);
      assert out + (outs + PlainRun(p2, more).1) == (out + outs) + PlainRun(p2, more).1;
    }
  }

  lemma OneStep(p: Plain, op: CacheOp)
    requires AllAllowed(p, [op])
    ensures Allowed(p, op) && PlainRun(p, [op]) == PlainStep(p, op)
  {
    hide PlainStep, Allowed;
    assert [op][1..] == [];
    assert PlainStep(p, op).1 + [] == PlainStep(p, op).1;
  }

  /** After any run each block is what was last written to it. */
  lemma {:induction false} Remembers(p: Plain, ops: seq<CacheOp>, b: nat)
    requires AllAllowed(p, ops) && b < |p.blocks|
    ensures |PlainRun(p, ops).0.blocks| == |p.blocks| && PlainRun(p, ops).0.blocks[b] == LastWritten(ops, b, p.blocks[b])
  {
    hide AllAllowed, PlainRun;
    if ops == [] {
      RunOver(p, ops);
    } else {
      var n := |ops| - 1;
      assert ops == ops[..n] + [ops[n]];
      InTurn(p, ops[..n], [ops[n]]);
      Remembers(p, ops[..n], b);
      OneStep(PlainRun(p, ops[..n]).0, ops[n]);
    }
  }

  /** So that is what a read answers, and it is all that is answered. */
  lemma ReadsBack(p: Plain, ops: seq<CacheOp>, b: nat)
    requires AllAllowed(p, ops + [ReadBlock(b)])
    ensures AllAllowed(p, ops) && b < |p.blocks|
    ensures PlainRun(p, ops + [ReadBlock(b)]).1 == PlainRun(p, ops).1 + [LastWritten(ops, b, p.blocks[b])]
  {
    hide AllAllowed, PlainRun;
    InTurn(p, ops, [ReadBlock(b)]);
    OneStep(PlainRun(p, ops).0, ReadBlock(b));
    SameLength(p, ops);
    Remembers(p, ops, b);
  }

  lemma {:induction false} SameLength(p: Plain, ops: seq<CacheOp>)
    requires AllAllowed(p, ops)
    ensures |PlainRun(p, ops).0.blocks| == |p.blocks|
    decreases |ops|
  {
    if ops != [] {
      SameLength(PlainStep(p, ops[0]).0, ops[1..]);
    }
  }

  /** On a cache: after any run and `block_cache_sync_all` the device has in each block what
      was last written there. */
  method RunThenSync(m: BlockCacheManager, ops: seq<CacheOp>, ghost p: Plain) returns (out: seq<Block>)
    requires Shows(m, p) && p.held == multiset{} && AllAllowed(p, ops)
    modifies m, m.queue, m.device
    ensures |m.device.blocks| == |p.blocks|
    ensures forall b :: 0 <= b < |p.blocks| ==> m.device.blocks[b] == LastWritten(ops, b, p.blocks[b])
  {
    hide AllAllowed, PlainRun, LastWritten;
    out := CacheRun(m, ops, p);
    m.SyncAll();
    SameLength(p, ops);
    forall b | 0 <= b < |p.blocks|
      ensures m.device.blocks[b] == LastWritten(ops, b, p.blocks[b])
    {
      Remembers(p, ops, b);
    }
  }
}
