/** Finite sets and their sizes, and sequences that lose an element. */
module Sets {
  /** The sequence without element i. */
  function Remaining<T>(s: seq<T>, i: nat): (r: seq<T>)
    requires i < |s|
    ensures |r| == |s| - 1 && forall j :: 0 <= j < |r| ==> r[j] == s[if j < i then j else j + 1]
  {
    s[..i] + s[i + 1..]
  }

  ghost function Interval(lo: nat, hi: nat): (s: set<nat>)
    requires lo <= hi
    ensures |s| == hi - lo
    ensures forall x :: x in s <==> lo <= x < hi
    decreases hi
  {
    if lo == hi then {} else Interval(lo, hi - 1) + {hi - 1}
  }

  lemma SubsetSize<T>(a: set<T>, b: set<T>)
    requires a <= b
    ensures |a| <= |b| && (|a| == |b| ==> a == b)
  {
    assert b == a + (b - a);
  }

  /** Leaving out a part leaves out as many elements. */
  lemma LessSize<T>(whole: set<T>, part: set<T>)
    requires part <= whole
    ensures |whole - part| == |whole| - |part|
  {
    assert whole == (whole - part) + part;
  }

  lemma OneMore<T>(s: set<T>, x: T, others: set<T>)
    requires x !in s
    ensures |s + {x} - others| == |s - others| + if x in others then 0 else 1
  {
    assert s + {x} - others == if x in others then s - others else (s - others) + {x};
  }

  /** What one set adds to another, and then a third to both. */
  lemma AddInTurn<T>(known: set<T>, a: set<T>, b: set<T>)
    ensures |a + b - known| == |a - known| + |b - (known + a)|
  {
    assert a + b - known == (a - known) + (b - (known + a));
  }

  /** A map that repeats no value has as many values as keys. */
  lemma {:induction false} AsManyValues<K, T>(m: map<K, T>)
    requires forall k, l :: k in m && l in m && m[k] == m[l] ==> k == l
    ensures |m.Values| == |m.Keys| == |m|
    decreases |m|
  {
    if m.Keys == {} {
      assert m.Values == {};
    } else {
      var k :| k in m;
      var rest := m - {k};
      assert forall l :: l in rest ==> rest[l] == m[l];
      AsManyValues(rest);
      assert m.Values == rest.Values + {m[k]} && m[k] !in rest.Values;
      assert m.Keys == rest.Keys + {k};
    }
  }
}
