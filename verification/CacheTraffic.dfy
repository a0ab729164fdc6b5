/** Uses of the block cache that turn one disk into another, and what they let out to the
    device (easy-fs/src/block_cache.rs). */
module CacheTraffic {
  import opened BitmapLayer
  import opened BlockCaches

  /** These uses of the cache, with handles only while they last, turn one disk into another. */
  ghost predicate Carries(t: seq<CacheOp>, before: seq<Block>, after: seq<Block>)
  {
    && NoSyncs(t) && AllAllowed(Plain(before, multiset{}), t)
    && PlainRun(Plain(before, multiset{}), t).0 == Plain(after, multiset{})
  }

  lemma CarriesMeans(t: seq<CacheOp>, before: seq<Block>, after: seq<Block>)
    requires Carries(t, before, after)
    ensures NoSyncs(t) && AllAllowed(Plain(before, multiset{}), t)
    ensures PlainRun(Plain(before, multiset{}), t).0 == Plain(after, multiset{})
  {
  }

  /** Where the disk and the device agree reading keeps it so. */
  lemma ReadingSettles(blocks: seq<Block>, t: seq<CacheOp>, device: seq<Block>)
    requires AllAllowed(Plain(blocks, multiset{}), t) && ReadsOnly(t)
    requires FromTrace(blocks, Moments(Plain(blocks, multiset{}), t), device)
    ensures device == blocks
  {
    OnlyReadTrace(Plain(blocks, multiset{}), t);
  }

  /** The blocks that differ from number i on, each fetched, overwritten and let go. */
  function DiffTraffic(before: seq<Block>, after: seq<Block>, i: nat): (t: seq<CacheOp>)
    requires |before| == |after|
    decreases |before| - i
  {
    if i >= |before| then []
    else (if before[i] != after[i] then [Get(i), WriteBlock(i, after[i]), Drop(i)] else []) + DiffTraffic(before, after, i + 1)
  }

  ghost function ChangedFrom(before: seq<Block>, after: seq<Block>, i: nat): set<nat>
    requires |before| == |after|
  {
    set b | i <= b < |before| && before[b] != after[b]
  }

  lemma {:induction false} DiffGets(before: seq<Block>, after: seq<Block>, i: nat)
    requires |before| == |after| && i <= |before|
    ensures Gets(DiffTraffic(before, after, i)) == |ChangedFrom(before, after, i)|
    ensures NoSyncs(DiffTraffic(before, after, i)) && (before == after ==> DiffTraffic(before, after, i) == [])
    decreases |before| - i
  {
    hide ChangedFrom, Gets, NoSyncs;
    if i == |before| {
      ChangedNone(before, after);
      NoGets();
    } else {
      DiffGets(before, after, i + 1);
      var rest := DiffTraffic(before, after, i + 1);
      ChangedNext(before, after, i);
      if before[i] != after[i] {
        GetsOfOne(i, after[i], rest);
      } else {
        assert [] + rest == rest;
      }
    }
  }

  lemma ChangedNone(before: seq<Block>, after: seq<Block>)
    requires |before| == |after|
    ensures ChangedFrom(before, after, |before|) == {}
  {
  }

  lemma ChangedNext(before: seq<Block>, after: seq<Block>, i: nat)
    requires |before| == |after| && i < |before|
    ensures |ChangedFrom(before, after, i)| == |ChangedFrom(before, after, i + 1)| + if before[i] != after[i] then 1 else 0
  {
    assert ChangedFrom(before, after, i) == ChangedFrom(before, after, i + 1) + if before[i] != after[i] then {i} else {};
  }

  lemma NoGets()
    ensures Gets([]) == 0 && NoSyncs([])
  {
  }

  lemma GetsOfOne(b: nat, data: Block, rest: seq<CacheOp>)
    ensures Gets([Get(b), WriteBlock(b, data), Drop(b)] + rest) == 1 + Gets(rest)
    ensures NoSyncs([Get(b), WriteBlock(b, data), Drop(b)] + rest) <==> NoSyncs(rest)
  {
    var t := [Get(b), WriteBlock(b, data), Drop(b)] + rest;
    assert t[1..] == [WriteBlock(b, data), Drop(b)] + rest;
    assert t[1..][1..] == [Drop(b)] + rest;
    assert t[1..][1..][1..] == rest;
    assert Gets(t[1..][1..]) == Gets(rest) && Gets(t[1..]) == Gets(rest);
  }

  /** Fetching, overwriting and letting go of one block. */
  lemma OneBlock(blocks: seq<Block>, b: nat, data: Block, rest: seq<CacheOp>)
    requires b < |blocks| && AllAllowed(Plain(blocks[b := data], multiset{}), rest)
    ensures var t := [Get(b), WriteBlock(b, data), Drop(b)] + rest;
      && AllAllowed(Plain(blocks, multiset{}), t)
      && PlainRun(Plain(blocks, multiset{}), t).0 == PlainRun(Plain(blocks[b := data], multiset{}), rest).0
  {
    var t := [Get(b), WriteBlock(b, data), Drop(b)] + rest;
    var p0, p1 := Plain(blocks, multiset{}), Plain(blocks, multiset{b});
    var p2, p3 := Plain(blocks[b := data], multiset{b}), Plain(blocks[b := data], multiset{});
    assert HeldSet(p0) == {};
    assert PlainStep(p0, Get(b)).0 == p1 && PlainStep(p1, WriteBlock(b, data)).0 == p2 && PlainStep(p2, Drop(b)).0 == p3;
    assert t[1..] == [WriteBlock(b, data), Drop(b)] + rest;
    assert t[1..][1..] == [Drop(b)] + rest;
    assert t[1..][1..][1..] == rest;
    assert AllAllowed(p2, t[1..][1..]) && AllAllowed(p1, t[1..]);
    assert PlainRun(p2, t[1..][1..]).0 == PlainRun(p3, rest).0;
    assert PlainRun(p1, t[1..]).0 == PlainRun(p3, rest).0;
  }

  lemma {:induction false} DiffCarries(before: seq<Block>, after: seq<Block>, i: nat)
    requires |before| == |after| && i <= |before|
    ensures AllAllowed(Plain(after[..i] + before[i..], multiset{}), DiffTraffic(before, after, i))
    ensures PlainRun(Plain(after[..i] + before[i..], multiset{}), DiffTraffic(before, after, i)).0 == Plain(after, multiset{})
    decreases |before| - i
  {
    hide AllAllowed, PlainRun;
    if i == |before| {
      assert after[..i] + before[i..] == after;
      NoTraffic(Plain(after, multiset{}));
    } else {
      DiffCarries(before, after, i + 1);
      var rest := DiffTraffic(before, after, i + 1);
      var now := after[..i] + before[i..];
      assert now[i := after[i]] == after[..i + 1] + before[i + 1..];
      if before[i] != after[i] {
        OneBlock(now, i, after[i], rest);
      } else {
        assert now[i := after[i]] == now && [] + rest == rest;
      }
    }
  }

  lemma NoTraffic(p: Plain)
    ensures AllAllowed(p, []) && PlainRun(p, []).0 == p
  {
  }

  lemma AllChanged(before: seq<Block>, after: seq<Block>)
    requires |before| == |after|
    ensures after[..0] + before[0..] == before && ChangedFrom(before, after, 0) == Changed(before, after)
  {
  }

  lemma {:induction false} TrafficInTurn(p: Plain, t: seq<CacheOp>, more: seq<CacheOp>)
    requires AllAllowed(p, t) && AllAllowed(PlainRun(p, t).0, more)
    ensures AllAllowed(p, t + more) && PlainRun(p, t + more).0 == PlainRun(PlainRun(p, t).0, more).0
    ensures Moments(p, t + more) == Moments(p, t) + Moments(PlainRun(p, t).0, more)
    decreases |t|
  {
    hide Allowed, PlainStep;
    if t == [] {
      assert t + more == more;
    } else {
      assert (t + more)[1..] == t[1..] + more;
      TrafficInTurn(PlainStep(p, t[0]).0, t[1..], more);
    }
  }

  /** Block r is not modified. */
  predicate Spares(t: seq<CacheOp>, r: nat)
  {
    forall k :: 0 <= k < |t| && t[k].WriteBlock? ==> t[k].b != r
  }

  /** Then it is the same all the time. */
  lemma {:induction false} SparedBlock(p: Plain, t: seq<CacheOp>, r: nat)
    requires AllAllowed(p, t) && Spares(t, r) && r < |p.blocks|
    ensures |PlainRun(p, t).0.blocks| == |p.blocks| && PlainRun(p, t).0.blocks[r] == p.blocks[r]
    ensures AllHave(Moments(p, t), r, p.blocks[r])
    decreases |t|
  {
    if t != [] {
      assert Spares(t[1..], r);
      SparedBlock(PlainStep(p, t[0]).0, t[1..], r);
    }
  }

  ghost predicate AllHave(trace: seq<seq<Block>>, r: nat, data: Block)
  {
    forall k :: 0 <= k < |trace| && r < |trace[k]| ==> trace[k][r] == data
  }

  lemma {:induction false} DiffSpares(before: seq<Block>, after: seq<Block>, i: nat, r: nat)
    requires |before| == |after| && (r < |before| ==> before[r] == after[r])
    ensures Spares(DiffTraffic(before, after, i), r)
    decreases |before| - i
  {
    if i < |before| {
      DiffSpares(before, after, i + 1, r);
    }
  }

  /** The blocks that differ one after the other, with block r, if it is one, the last. */
  function LateTraffic(before: seq<Block>, after: seq<Block>, r: nat): seq<CacheOp>
    requires |before| == |after|
  {
    if r < |before| && before[r] != after[r] then
      DiffTraffic(before, after[r := before[r]], 0) + [Get(r), WriteBlock(r, after[r]), Drop(r)]
    else DiffTraffic(before, after, 0)
  }

  lemma LastBlock(blocks: seq<Block>, r: nat, data: Block)
    requires r < |blocks|
    ensures var t := [Get(r), WriteBlock(r, data), Drop(r)]; var p := Plain(blocks, multiset{});
      && AllAllowed(p, t) && PlainRun(p, t).0 == Plain(blocks[r := data], multiset{}) && Moments(p, t) == [blocks]
  {
    var t, p := [Get(r), WriteBlock(r, data), Drop(r)], Plain(blocks, multiset{});
    NoTraffic(Plain(blocks[r := data], multiset{}));
    OneBlock(blocks, r, data, []);
    assert t + [] == t;
    var p1 := PlainStep(p, t[0]).0;
    var p2 := PlainStep(p1, t[1]).0;
    var p3 := PlainStep(p2, t[2]).0;
    assert t[1..] == [t[1], t[2]] && t[1..][1..] == [t[2]] && t[1..][1..][1..] == [];
    assert Moments(p3, []) == [] && Moments(p2, t[1..][1..]) == [] + Moments(p3, t[1..][1..][1..]);
    assert Moments(p1, t[1..]) == [] + Moments(p2, t[1..][1..]);
  }

  /** It is a use of the cache with the effect asked for; where nothing changes, it does
      nothing; and of block r it lets out to the device what was there before, at most. */
  lemma LateCarries(before: seq<Block>, after: seq<Block>, r: nat)
    requires |before| == |after|
    ensures Carries(LateTraffic(before, after, r), before, after)
    ensures before == after ==> LateTraffic(before, after, r) == []
    ensures r < |before| ==> AllHave(Moments(Plain(before, multiset{}), LateTraffic(before, after, r)), r, before[r])
  {
    hide AllAllowed, PlainRun, Moments, DiffTraffic, Spares;
    var p := Plain(before, multiset{});
    var late := r < |before| && before[r] != after[r];
    var mid := if late then after[r := before[r]] else after;
    var t := DiffTraffic(before, mid, 0);
    DiffGets(before, mid, 0);
    DiffCarries(before, mid, 0);
    assert mid[..0] + before[0..] == before;
    DiffSpares(before, mid, 0, r);
    if r < |before| {
      SparedBlock(p, t, r);
    }
    if late {
      LastBlock(mid, r, after[r]);
      TrafficInTurn(p, t, [Get(r), WriteBlock(r, after[r]), Drop(r)]);
      assert mid[r := after[r]] == after;
    }
  }

  /** So there the device has what it had, or what the disk had before. */
  lemma LateBlock(device: seq<Block>, trace: seq<seq<Block>>, device': seq<Block>, r: nat, data: Block)
    requires FromTrace(device, trace, device') && AllHave(trace, r, data) && r < |device|
    ensures device'[r] == device[r] || device'[r] == data
  {
  }
}
