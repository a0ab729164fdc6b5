/** Taking pages out of areas, as a function on the list of areas
    (os/src/mm/memory_set.rs:236-261). */
module AreaLists {
  import opened Words
  import opened PageTables
  import opened MemorySets

  function Without(a: MapArea, v: nat): MapArea { a.(data := a.data - {v}) }

  /** One turn of the loop: page v leaves area i, and the area goes when it was its last. */
  function RemovePage(areas: seq<MapArea>, i: nat, v: nat): seq<MapArea>
    requires i < |areas|
  {
    if Without(areas[i], v).data == map[] then areas[..i] + areas[i + 1..]
    else areas[i := Without(areas[i], v)]
  }

  /** A map of pages without those in [lo, hi). */
  function Outside<T>(m: map<nat, T>, lo: nat, hi: nat): map<nat, T>
  {
    map v | v in m && !(lo <= v < hi) :: m[v]
  }

  /** What becomes of an area when pages [lo, hi) go: unchanged if it had none of them,
      gone if it had no others. */
  function Trim(a: MapArea, lo: nat, hi: nat): seq<MapArea>
  {
    if Outside(a.data, lo, hi) == a.data then [a]
    else if Outside(a.data, lo, hi) == map[] then []
    else [a.(data := Outside(a.data, lo, hi))]
  }

  function TrimAll(areas: seq<MapArea>, lo: nat, hi: nat): seq<MapArea>
  {
    if areas == [] then [] else TrimAll(areas[..|areas| - 1], lo, hi) + Trim(areas[|areas| - 1], lo, hi)
  }

  /** b is what is left of `was`: its pages outside the range, at least one unless it lost none. */
  ghost predicate LeftOf(was: MapArea, b: MapArea, lo: nat, hi: nat)
  {
    && b == was.(data := b.data) && (forall v :: v in b.data <==> v in was.data && !(lo <= v < hi))
    && (forall v :: v in b.data ==> b.data[v] == was.data[v]) && (b.data != map[] || b == was)
  }

  lemma TrimOne(a: MapArea, lo: nat, hi: nat)
    ensures forall b :: b in Trim(a, lo, hi) ==> LeftOf(a, b, lo, hi)
    ensures (exists v :: v in a.data && !(lo <= v < hi)) || a.data == map[] ==> |Trim(a, lo, hi)| == 1
  {
    var o := Outside(a.data, lo, hi);
    if v :| v in a.data && !(lo <= v < hi) {
      assert v in o;
    }
  }

  /** Every area left is what is left of one of before, and every area with a page outside the
      range, or without any page, leaves one. */
  lemma {:induction false} TrimmedAreas(areas: seq<MapArea>, lo: nat, hi: nat)
    ensures forall b :: b in TrimAll(areas, lo, hi) ==> exists a :: a in areas && LeftOf(a, b, lo, hi)
    ensures forall a :: a in areas && ((exists v :: v in a.data && !(lo <= v < hi)) || a.data == map[]) ==>
      exists b :: b in TrimAll(areas, lo, hi) && LeftOf(a, b, lo, hi)
  {
    hide LeftOf, Trim;
    if areas != [] {
      var n := |areas| - 1;
      TrimmedAreas(areas[..n], lo, hi);
      TrimOne(areas[n], lo, hi);
      assert areas == areas[..n] + [areas[n]];
      forall b | b in TrimAll(areas, lo, hi)
        ensures exists a :: a in areas && LeftOf(a, b, lo, hi)
      {
        if b in Trim(areas[n], lo, hi) {
          assert areas[n] in areas && LeftOf(areas[n], b, lo, hi);
        } else {
          assert b in TrimAll(areas[..n], lo, hi);
          var a :| a in areas[..n] && LeftOf(a, b, lo, hi);
          assert a in areas;
        }
      }
      forall a | a in areas && ((exists v :: v in a.data && !(lo <= v < hi)) || a.data == map[])
        ensures exists b :: b in TrimAll(areas, lo, hi) && LeftOf(a, b, lo, hi)
      {
        if a == areas[n] {
          assert Trim(a, lo, hi)[0] in TrimAll(areas, lo, hi);
        } else {
          assert a in areas[..n];
          var b :| b in TrimAll(areas[..n], lo, hi) && LeftOf(a, b, lo, hi);
          assert b in TrimAll(areas, lo, hi);
        }
      }
    }
  }

  lemma {:induction false} TrimNothing(areas: seq<MapArea>, lo: nat)
    ensures TrimAll(areas, lo, lo) == areas
  {
    if areas != [] {
      var n := |areas| - 1;
      TrimNothing(areas[..n], lo);
      assert Outside(areas[n].data, lo, lo) == areas[n].data;
      assert areas == areas[..n] + [areas[n]];
    }
  }

  lemma TrimHas(a: MapArea, lo: nat, hi: nat, v: nat)
    requires v >= hi
    ensures v in a.data <==> |Trim(a, lo, hi)| == 1 && v in Trim(a, lo, hi)[0].data
  {
    assert v in a.data <==> v in Outside(a.data, lo, hi);
  }

  lemma TrimSame(a: MapArea, lo: nat, hi: nat)
    requires hi !in a.data && lo <= hi
    ensures Trim(a, lo, hi + 1) == Trim(a, lo, hi)
  {
    assert Outside(a.data, lo, hi + 1) == Outside(a.data, lo, hi);
  }

  lemma TrimNext(a: MapArea, lo: nat, hi: nat)
    requires hi in a.data && lo <= hi
    ensures |Trim(a, lo, hi)| == 1 && hi in Trim(a, lo, hi)[0].data
    ensures Trim(a, lo, hi + 1) == RemovePage(Trim(a, lo, hi), 0, hi)
  {
    TrimHas(a, lo, hi, hi);
    var t := Trim(a, lo, hi)[0];
    assert t.data == Outside(a.data, lo, hi);
    assert Outside(a.data, lo, hi + 1) == Without(t, hi).data;
    assert hi !in Outside(a.data, lo, hi + 1);
  }

  lemma {:induction false} TrimAllSame(areas: seq<MapArea>, lo: nat, hi: nat)
    requires lo <= hi && forall i :: 0 <= i < |areas| ==> hi !in areas[i].data
    ensures TrimAll(areas, lo, hi + 1) == TrimAll(areas, lo, hi)
    ensures forall i :: 0 <= i < |TrimAll(areas, lo, hi)| ==> hi !in TrimAll(areas, lo, hi)[i].data
  {
    hide Trim;
    if areas != [] {
      var n := |areas| - 1;
      TrimAllSame(areas[..n], lo, hi);
      TrimSame(areas[n], lo, hi);
      TrimHas(areas[n], lo, hi, hi);
      TrimShort(areas[n], lo, hi);
    }
  }

  lemma TrimShort(a: MapArea, lo: nat, hi: nat)
    ensures |Trim(a, lo, hi)| <= 1
  {
  }

  /** The loop's turn for page hi extends the trimmed range by one. */
  lemma {:induction false} TrimStep(areas: seq<MapArea>, lo: nat, hi: nat, i: nat)
    requires lo <= hi && Apart(areas)
    requires i < |TrimAll(areas, lo, hi)| && hi in TrimAll(areas, lo, hi)[i].data
    ensures RemovePage(TrimAll(areas, lo, hi), i, hi) == TrimAll(areas, lo, hi + 1)
  {
    hide Trim, RemovePage;
    var n := |areas| - 1;
    var front, t := TrimAll(areas[..n], lo, hi), Trim(areas[n], lo, hi);
    TrimHas(areas[n], lo, hi, hi);
    TrimShort(areas[n], lo, hi);
    assert Apart(areas[..n]);
    if hi in areas[n].data {
      forall k | 0 <= k < n
        ensures hi !in areas[..n][k].data
      {
        assert areas[k].data.Keys !! areas[n].data.Keys;
      }
      TrimAllSame(areas[..n], lo, hi);
      TrimNext(areas[n], lo, hi);
      Placed(front, t, i);
      RemoveInBack(front, t, hi);
    } else {
      TrimSame(areas[n], lo, hi);
      Placed(front, t, i);
      TrimStep(areas[..n], lo, hi, i);
      RemoveInFront(front, t, i, hi);
    }
  }

  lemma Placed(front: seq<MapArea>, t: seq<MapArea>, i: nat)
    requires |t| <= 1 && i < |front + t|
    ensures if i < |front| then (front + t)[i] == front[i] else |t| == 1 && i == |front| && (front + t)[i] == t[0]
  {
  }

  lemma RemoveInBack(front: seq<MapArea>, t: seq<MapArea>, v: nat)
    requires |t| == 1
    ensures RemovePage(front + t, |front|, v) == front + RemovePage(t, 0, v)
  {
    assert (front + t)[..|front|] == front && (front + t)[|front| + 1..] == [];
  }

  lemma RemoveInFront(front: seq<MapArea>, t: seq<MapArea>, i: nat, v: nat)
    requires i < |front|
    ensures RemovePage(front + t, i, v) == RemovePage(front, i, v) + t
  {
    hide Without;
    Cut(front, t, i, Without(front[i], v));
  }

  lemma Cut<T>(s: seq<T>, t: seq<T>, i: nat, x: T)
    requires i < |s|
    ensures (s + t)[i] == s[i] && (s + t)[i := x] == s[i := x] + t
    ensures (s + t)[..i] + (s + t)[i + 1..] == s[..i] + s[i + 1..] + t
  {
    assert (s + t)[..i] == s[..i] && (s + t)[i + 1..] == s[i + 1..] + t;
  }

  lemma RemovedArea(m: map<nat, u64>, a: MapArea, owned: map<nat, nat>, v: nat)
    requires AreaOk(m, a, owned)
    ensures AreaOk(m - {v}, Without(a, v), owned - {v})
  {
    hide PageEntry;
    forall w | w in Without(a, v).data
      ensures PageOk(m - {v}, Without(a, v), owned - {v}, w)
    {
      assert PageOk(m, a, owned, w);
      SameEntry(a, v, w);
    }
  }

  lemma SameEntry(a: MapArea, v: nat, w: nat)
    requires w in a.data && w != v && a.data[w] < PPN_END && a.perm < 256
    ensures PageEntry(Without(a, v), w) == PageEntry(a, w)
  {
  }

  lemma WithoutKeeps(a: MapArea, v: nat, w: nat)
    requires w in a.data && w != v
    ensures w in Without(a, v).data
  {
  }

  lemma WithoutAbsent(a: MapArea, v: nat)
    requires v !in a.data
    ensures Without(a, v) == a
  {
    assert a.data - {v} == a.data;
  }

  /** The books balance after a page has left its area, its frame and the table. */
  lemma RemoveFromBooks(m: map<nat, u64>, areas: seq<MapArea>, owned: map<nat, nat>, tramp: u64, i: nat, v: nat)
    requires AreasOk(m, areas, owned, tramp) && i < |areas| && v in areas[i].data
    ensures AreasOk(m - {v}, RemovePage(areas, i, v), owned - {v}, tramp)
    ensures v in owned && v in m && owned[v] == areas[i].data[v] && v != TRAMPOLINE_VPN
  {
    hide PageEntry, AreaOk, RemovePage;
    var m', owned' := m - {v}, owned - {v};
    PageFacts(m, areas[i], owned, v);
    forall k | 0 <= k < |areas|
      ensures AreaOk(m', Without(areas[k], v), owned')
      ensures k != i ==> Without(areas[k], v) == areas[k]
    {
      RemovedArea(m, areas[k], owned, v);
      if k != i {
        if k < i {
          assert areas[k].data.Keys !! areas[i].data.Keys;
        } else {
          assert areas[i].data.Keys !! areas[k].data.Keys;
        }
        WithoutAbsent(areas[k], v);
      }
    }
    RemovedList(m', areas, owned, i, v);
  }

  lemma PageFacts(m: map<nat, u64>, a: MapArea, owned: map<nat, nat>, v: nat)
    requires AreaOk(m, a, owned) && v in a.data
    ensures v in owned && v in m && owned[v] == a.data[v]
  {
    assert PageOk(m, a, owned, v);
  }

  lemma RemovedList(m': map<nat, u64>, areas: seq<MapArea>, owned: map<nat, nat>, i: nat, v: nat)
    requires i < |areas| && v in areas[i].data && Apart(areas)
    requires forall k :: 0 <= k < |areas| ==> AreaOk(m', Without(areas[k], v), owned - {v})
    requires forall k :: 0 <= k < |areas| && k != i ==> Without(areas[k], v) == areas[k]
    requires forall w :: w in owned ==> InSomeArea(areas, w)
    ensures var now := RemovePage(areas, i, v);
      && (forall k :: 0 <= k < |now| ==> AreaOk(m', now[k], owned - {v}))
      && (forall w :: w in owned - {v} ==> InSomeArea(now, w))
      && Apart(now)
  {
    hide AreaOk;
    var now := RemovePage(areas, i, v);
    var gone := Without(areas[i], v).data == map[];
    forall k | 0 <= k < |now|
      ensures AreaOk(m', now[k], owned - {v})
    {
      assert now[k] == Without(areas[if gone && k >= i then k + 1 else k], v);
    }
    forall w | w in owned - {v}
      ensures InSomeArea(now, w)
    {
      var k :| 0 <= k < |areas| && w in areas[k].data;
      WithoutKeeps(areas[k], v, w);
      assert w in now[if gone && k > i then k - 1 else k].data;
    }
    forall j, k | 0 <= j < k < |now|
      ensures now[j].data.Keys !! now[k].data.Keys
    {
      var j', k' := if gone && j >= i then j + 1 else j, if gone && k >= i then k + 1 else k;
      assert areas[j'].data.Keys !! areas[k'].data.Keys;
      assert now[j] == Without(areas[j'], v) && now[k] == Without(areas[k'], v);
    }
  }

  lemma RemoveFrame(alloc: set<nat>, tables: set<nat>, owned: map<nat, nat>, v: nat)
    requires FramesOk(alloc, tables, owned) && v in owned
    ensures owned[v] in alloc && FramesOk(alloc - {owned[v]}, tables, owned - {v})
    ensures (owned - {v}).Values == owned.Values - {owned[v]}
  {
    assert owned[v] in owned.Values;
    forall w | w in owned && w != v
      ensures owned[w] in owned.Values && owned[w] != owned[v] && (owned - {v})[w] == owned[w]
    {
    }
  }
}
