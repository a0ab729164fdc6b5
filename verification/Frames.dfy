/** Physical memory in 4096-byte frames, and the stack frame allocator
    (os/src/mm/frame_allocator.rs). */
module Frames {
  import opened Words
  import opened Sets

  type Page = p: seq<byte> | |p| == 4096 witness seq(4096, _ => 0)

  function ZeroPage(): Page { seq(4096, _ => 0) }

  ghost function Elements(s: seq<nat>): set<nat> { set x | x in s }

  ghost predicate NoRepeats(s: seq<nat>)
  {
    forall i, j :: 0 <= i < |s| && 0 <= j < |s| && s[i] == s[j] ==> i == j
  }

  lemma {:induction false} ElementsSize(s: seq<nat>)
    requires NoRepeats(s)
    ensures |Elements(s)| == |s|
  {
    if s == [] {
      assert Elements(s) == {};
    } else {
      var n := |s| - 1;
      ElementsSize(s[..n]);
      assert s == s[..n] + [s[n]];
      assert Elements(s) == Elements(s[..n]) + {s[n]};
    }
  }

  lemma ElementsAppend(s: seq<nat>, x: nat)
    ensures Elements(s + [x]) == Elements(s) + {x}
    ensures NoRepeats(s + [x]) <==> NoRepeats(s) && x !in s
  {
    if NoRepeats(s + [x]) {
      forall i, j | 0 <= i < |s| && 0 <= j < |s| && s[i] == s[j]
        ensures i == j
      {
        assert (s + [x])[i] == (s + [x])[j];
      }
      forall i | 0 <= i < |s|
        ensures s[i] != x
      {
        assert (s + [x])[i] == s[i] && (s + [x])[|s|] == x;
      }
    }
  }

  /** Handing out the top of the recycled stack. */
  lemma TakeBack(base: nat, current: nat, rest: seq<nat>, x: nat)
    requires NoRepeats(rest + [x]) && base <= x < current
    ensures NoRepeats(rest) && x !in Interval(base, current) - Elements(rest + [x])
    ensures Interval(base, current) - Elements(rest) == Interval(base, current) - Elements(rest + [x]) + {x}
  {
    ElementsAppend(rest, x);
  }

  /** Handing out the next one never used. */
  lemma TakeNext(base: nat, current: nat, recycled: seq<nat>)
    requires base <= current && forall i :: 0 <= i < |recycled| ==> recycled[i] < current
    ensures current !in Interval(base, current)
    ensures Interval(base, current + 1) - Elements(recycled) == Interval(base, current) - Elements(recycled) + {current}
  {
  }

  lemma OutCount(base: nat, current: nat, recycled: seq<nat>)
    requires base <= current && NoRepeats(recycled)
    requires forall i :: 0 <= i < |recycled| ==> base <= recycled[i] < current
    ensures |Interval(base, current) - Elements(recycled)| == current - base - |recycled|
  {
    ElementsSize(recycled);
    LessSize(Interval(base, current), Elements(recycled));
  }

  /** Frames that are no longer in use are free. */
  twostate lemma GivenBack(mem: FrameAllocator)
    requires old(mem.Valid()) && mem.Valid() && mem.end == old(mem.end)
    ensures mem.FreeCount() - old(mem.FreeCount()) == |old(mem.Allocated())| - |mem.Allocated()|
  {
    hide Interval, Elements, NoRepeats;
    OutCount(mem.base, old(mem.current), old(mem.recycled));
    OutCount(mem.base, mem.current, mem.recycled);
  }

  /** The frames from `base` up to `end`; those below `current` have been handed out at
      least once, and `recycled` is the stack of the ones given back. */
  class FrameAllocator {
    var pages: seq<Page>
    ghost const base: nat
    var current: nat
    var end: nat
    var recycled: seq<nat>

    ghost predicate Valid()
      reads this
    {
      && base <= current <= end <= |pages| <= 0x1000_0000_0000
      && NoRepeats(recycled)
      && forall i :: 0 <= i < |recycled| ==> base <= recycled[i] < current
    }

    /** The frames handed out. */
    ghost function Allocated(): set<nat>
      reads this
    {
      Interval(base, if base <= current then current else base) - Elements(recycled)
    }

    /** How many frames are left. */
    function FreeCount(): int
      reads this
    {
      end - current + |recycled|
    }

    constructor (pages: seq<Page>, l: nat, r: nat)
      requires l <= r <= |pages| <= 0x1000_0000_0000
      ensures Valid() && Allocated() == {} && FreeCount() == r - l && this.pages == pages && base == l
    {
      this.pages := pages;
      base, current, end, recycled := l, l, r, [];
    }

    /** Frames in use and free frames always add up to the whole range. */
    lemma Conservation()
      requires Valid()
      ensures |Allocated()| + FreeCount() == end - base
    {
      OutCount(base, current, recycled);
    }

    /** A zeroed frame nobody has: the last one given back, else the next unused one. */
    method Alloc() returns (r: Option<nat>)
      requires Valid()
      modifies this
      ensures Valid() && end == old(end) && |pages| == |old(pages)|
      ensures r == None <==> old(FreeCount()) == 0
      ensures r == None ==> unchanged(this)
      ensures r.Some? ==> r.value !in old(Allocated()) && Allocated() == old(Allocated()) + {r.value}
      ensures r.Some? ==> r.value == if old(recycled) == [] then old(current) else old(recycled)[|old(recycled)| - 1]
      ensures r.Some? ==> base <= r.value < |pages| && pages == old(pages)[r.value := ZeroPage()]
      ensures FreeCount() == old(FreeCount()) - (if r.Some? then 1 else 0) && FreeCount() >= 0
    {
      hide Interval, Elements, NoRepeats, ZeroPage;
      if |recycled| > 0 {
        var p := recycled[|recycled| - 1];
        assert recycled == recycled[..|recycled| - 1] + [p];
        TakeBack(base, current, recycled[..|recycled| - 1], p);
        recycled := recycled[..|recycled| - 1];
        pages := pages[p := ZeroPage()];
        r := Some(p);
      } else if current == end {
        r := None;
      } else {
        TakeNext(base, current, recycled);
        current := current + 1;
        pages := pages[current - 1 := ZeroPage()];
        r := Some(current - 1);
      }
    }

    /** Gives a frame back; the source panics unless it is handed out. */
    method Dealloc(p: nat)
      requires Valid() && p in Allocated()
      modifies this`recycled
      ensures Valid() && Allocated() == old(Allocated()) - {p}
      ensures FreeCount() == old(FreeCount()) + 1 && recycled == old(recycled) + [p]
    {
      ElementsAppend(recycled, p);
      recycled := recycled + [p];
    }

    /** A store through `get_pte_array` or `get_bytes_array`: who owns what is unaffected. */
    method Store(p: nat, page: Page)
      requires Valid() && p < |pages|
      modifies this`pages
      ensures Valid() && pages == old(pages)[p := page]
      ensures Allocated() == old(Allocated()) && FreeCount() == old(FreeCount())
    {
      pages := pages[p := page];
    }
  }
}
