/** Lookups by key over item lists: `findIndex`, `find`, and the
    "first one per key wins" maps the controllers fill with
    `if (!m.has(k)) m.set(k, x)`. */
module Keyed {
  import opened Wrappers

  /** `items.findIndex(e => key(e) === k)`, with -1 as `None`. */
  function FirstIndex<T, K(==)>(items: seq<T>, k: K, key: T -> K): (r: Option<nat>)
    ensures r.None? <==> forall j :: 0 <= j < |items| ==> key(items[j]) != k
    ensures r.Some? ==> r.value < |items| && key(items[r.value]) == k
    ensures r.Some? ==> forall j :: 0 <= j < r.value ==> key(items[j]) != k
  {
    if items == [] then None
    else if key(items[0]) == k then Some(0)
    else
      var t := FirstIndex(items[1..], k, key);
      assert forall j :: 1 <= j < |items| ==> items[j] == items[1..][j - 1];
      match t
      case None => None
      case Some(i) => Some(i + 1)
  }

  /** `items.find(e => key(e) === k)`. */
  function Find<T, K(==)>(items: seq<T>, k: K, key: T -> K): (r: Option<T>)
    ensures r.None? <==> forall j :: 0 <= j < |items| ==> key(items[j]) != k
    ensures r.Some? ==> r.value in items && key(r.value) == k
  {
    match FirstIndex(items, k, key)
    case None => None
    case Some(i) => Some(items[i])
  }

  /** The loop behind `findIndex`. */
  method FindIndex<T, K(==)>(items: seq<T>, k: K, key: T -> K) returns (idx: int)
    ensures idx == match FirstIndex(items, k, key) case None => -1 case Some(i) => i
  {
    idx := 0;
    while idx < |items| && key(items[idx]) != k
      invariant 0 <= idx <= |items|
      invariant forall j :: 0 <= j < idx ==> key(items[j]) != k
    {
      idx := idx + 1;
    }
    if idx == |items| {
      idx := -1;
    } else {
      assert key(items[idx]) == k;
    }
  }

  /** Two lists whose keys agree position by position on the shorter one:
      a key found in the shorter one is found at the same place in the
      longer one. */
  lemma FirstIndexExtends<T, K>(a: seq<T>, c: seq<T>, k: K, key: T -> K)
    requires |a| <= |c|
    requires forall j :: 0 <= j < |a| ==> key(a[j]) == key(c[j])
    requires FirstIndex(a, k, key).Some?
    ensures FirstIndex(c, k, key) == FirstIndex(a, k, key)
  {
    var i := FirstIndex(a, k, key).value;
    assert key(c[i]) == k;
    assert forall j :: 0 <= j < i ==> key(c[j]) != k;
  }

  /** Lists with the same keys at the same places find every key alike. */
  lemma FirstIndexSameKeys<T, K>(a: seq<T>, c: seq<T>, k: K, key: T -> K)
    requires |a| == |c|
    requires forall j :: 0 <= j < |a| ==> key(a[j]) == key(c[j])
    ensures FirstIndex(c, k, key) == FirstIndex(a, k, key)
  {
    if FirstIndex(a, k, key).Some? {
      FirstIndexExtends(a, c, k, key);
    } else if FirstIndex(c, k, key).Some? {
      FirstIndexExtends(c, a, k, key);
    }
  }

  // ---------------------------------------------------------------------------
  // First one per key

  /** Whether `xs[i]` is the first element with its key. */
  predicate IsFirstOfKey<T, K(==)>(xs: seq<T>, i: int, key: T -> K)
    requires 0 <= i < |xs|
  {
    FirstIndex(xs, key(xs[i]), key) == Some(i)
  }

  /** The values of the map, in insertion order: every element that is the
      first with its key, in input order. */
  function FirstsBy<T, K(==)>(xs: seq<T>, key: T -> K): (r: seq<T>)
    ensures |r| <= |xs|
    decreases |xs|
  {
    if xs == [] then []
    else
      var n := |xs| - 1;
      var p := FirstsBy(xs[..n], key);
      if FirstIndex(xs[..n], key(xs[n]), key).Some? then p else p + [xs[n]]
  }

  /** Appending an element finds the old keys where they were, and the new
      element's key at the end when it is new. */
  lemma FirstIndexSnoc<T, K>(pre: seq<T>, x: T, key: T -> K)
    ensures forall k ::
              FirstIndex(pre + [x], k, key) ==
              (if FirstIndex(pre, k, key).Some? then FirstIndex(pre, k, key)
               else if key(x) == k then Some(|pre|) else None)
  {
    var c := pre + [x];
    assert forall j :: 0 <= j < |pre| ==> c[j] == pre[j];
    forall k
      ensures FirstIndex(c, k, key) ==
        if FirstIndex(pre, k, key).Some? then FirstIndex(pre, k, key)
        else if key(x) == k then Some(|pre|) else None
    {
      if FirstIndex(pre, k, key).Some? {
        FirstIndexExtends(pre, c, k, key);
      } else if key(x) == k {
        assert key(c[|pre|]) == k;
      } else {
        assert key(c[|pre|]) != k;
      }
    }
  }

  lemma FirstsBySnoc<T, K>(pre: seq<T>, x: T, key: T -> K)
    ensures FirstsBy(pre + [x], key) ==
      if FirstIndex(pre, key(x), key).Some? then FirstsBy(pre, key) else FirstsBy(pre, key) + [x]
  {
    assert (pre + [x])[..|pre|] == pre;
  }

  /** `r` holds exactly the keys of `xs`, each once, each with the first
      element of `xs` that has it. */
  ghost predicate FirstsOf<T, K(!new)>(r: seq<T>, xs: seq<T>, key: T -> K) {
    && (forall k :: (exists m :: 0 <= m < |r| && key(r[m]) == k) <==> FirstIndex(xs, k, key).Some?)
    && (forall m, m' :: 0 <= m < m' < |r| ==> key(r[m]) != key(r[m']))
    && (forall m :: 0 <= m < |r| ==>
          FirstIndex(xs, key(r[m]), key).Some? && r[m] == xs[FirstIndex(xs, key(r[m]), key).value])
  }

  /** A key occurs in the map's values exactly when it occurs in the input,
      the values carry distinct keys, and each value is the first element of
      the input with its key. */
  lemma {:induction false} FirstsByMeaning<T, K(!new)>(xs: seq<T>, key: T -> K)
    ensures FirstsOf(FirstsBy(xs, key), xs, key)
    decreases |xs|
  {
    if xs != [] {
      var n := |xs| - 1;
      var pre := xs[..n];
      var x := xs[n];
      assert xs == pre + [x];
      FirstsByMeaning(pre, key);
      FirstsBySnoc(pre, x, key);
      if FirstIndex(pre, key(x), key).Some? {
        FirstsOfSeen(FirstsBy(pre, key), pre, x, key);
      } else {
        FirstsOfNew(FirstsBy(pre, key), pre, x, key);
      }
    }
  }

  /** An element whose key was seen adds nothing. */
  lemma FirstsOfSeen<T, K(!new)>(p: seq<T>, pre: seq<T>, x: T, key: T -> K)
    requires FirstsOf(p, pre, key)
    requires FirstIndex(pre, key(x), key).Some?
    ensures FirstsOf(p, pre + [x], key)
  {
    var xs := pre + [x];
    FirstIndexSnoc(pre, x, key);
    assert forall k :: FirstIndex(xs, k, key) == FirstIndex(pre, k, key);
    assert forall j :: 0 <= j < |pre| ==> xs[j] == pre[j];
  }

  /** An element with a new key is added at the end. */
  lemma FirstsOfNew<T, K(!new)>(p: seq<T>, pre: seq<T>, x: T, key: T -> K)
    requires FirstsOf(p, pre, key)
    requires FirstIndex(pre, key(x), key).None?
    ensures FirstsOf(p + [x], pre + [x], key)
  {
    var xs := pre + [x];
    var r := p + [x];
    FirstIndexSnoc(pre, x, key);
    assert forall j :: 0 <= j < |pre| ==> xs[j] == pre[j];
    assert forall m :: 0 <= m < |p| ==> r[m] == p[m];
    assert r[|p|] == x && xs[|pre|] == x;
    forall k
      ensures (exists m :: 0 <= m < |r| && key(r[m]) == k) <==> FirstIndex(xs, k, key).Some?
    {
      if k == key(x) {
        assert key(r[|p|]) == k;
      } else if FirstIndex(xs, k, key).Some? {
        var m :| 0 <= m < |p| && key(p[m]) == k;
        assert key(r[m]) == k;
      }
    }
    forall m, m' | 0 <= m < m' < |r|
      ensures key(r[m]) != key(r[m'])
    {
      if m' == |p| {
        assert FirstIndex(pre, key(p[m]), key).Some?;
      }
    }
  }

  /** Every key of the input has its first element among the values. */
  lemma FirstsByHasKey<T, K(!new)>(xs: seq<T>, key: T -> K, j: int) returns (m: nat)
    requires 0 <= j < |xs|
    ensures m < |FirstsBy(xs, key)| && key(FirstsBy(xs, key)[m]) == key(xs[j])
  {
    FirstsByMeaning(xs, key);
    assert FirstIndex(xs, key(xs[j]), key).Some?;
    m :| 0 <= m < |FirstsBy(xs, key)| && key(FirstsBy(xs, key)[m]) == key(xs[j]);
  }

  /** The map filled by the loop: a key's value is the first element with
      that key. */
  ghost predicate IsFirstMap<T, K(!new)>(m: map<K, T>, xs: seq<T>, key: T -> K) {
    && (forall k :: k in m <==> FirstIndex(xs, k, key).Some?)
    && (forall k :: k in m ==> FirstIndex(xs, k, key).Some? && m[k] == xs[FirstIndex(xs, k, key).value])
  }

  lemma FirstMapStep<T, K(!new)>(m: map<K, T>, pre: seq<T>, x: T, key: T -> K)
    requires IsFirstMap(m, pre, key)
    ensures key(x) in m ==> IsFirstMap(m, pre + [x], key)
    ensures key(x) !in m ==> IsFirstMap(m[key(x) := x], pre + [x], key)
  {
    FirstIndexSnoc(pre, x, key);
    assert (pre + [x])[|pre|] == x;
    assert forall j :: 0 <= j < |pre| ==> (pre + [x])[j] == pre[j];
  }

  /** One `forEach` step keeps both loop invariants. */
  lemma FirstMapAdvance<T, K(!new)>(m: map<K, T>, values: seq<T>, pre: seq<T>, x: T, key: T -> K)
    requires IsFirstMap(m, pre, key) && values == FirstsBy(pre, key)
    ensures key(x) in m ==> IsFirstMap(m, pre + [x], key) && values == FirstsBy(pre + [x], key)
    ensures key(x) !in m ==> IsFirstMap(m[key(x) := x], pre + [x], key) && values + [x] == FirstsBy(pre + [x], key)
  {
    FirstMapStep(m, pre, x, key);
    FirstsBySnoc(pre, x, key);
  }

  /** `xs.forEach(x => { if (!m.has(key(x))) m.set(key(x), x) })`: returns
      the map and its values in insertion order. */
  method FirstPerKey<T, K(==,!new)>(xs: seq<T>, key: T -> K) returns (m: map<K, T>, values: seq<T>)
    ensures IsFirstMap(m, xs, key)
    ensures values == FirstsBy(xs, key)
  {
    m := map[];
    values := [];
    var i := 0;
    while i < |xs|
      invariant 0 <= i <= |xs|
      invariant IsFirstMap(m, xs[..i], key)
      invariant values == FirstsBy(xs[..i], key)
    {
      var x := xs[i];
      ghost var pre := xs[..i];
      FirstMapAdvance(m, values, pre, x, key);
      if key(x) !in m {
        m := m[key(x) := x];
        values := values + [x];
      }
      assert xs[..i + 1] == pre + [x];
      i := i + 1;
    }
    assert xs[..i] == xs;
  }

  /** One step of the seen-set loop keeps its invariants. */
  lemma SeenAdvance<T, K>(seen: set<K>, pre: seq<T>, x: T, key: T -> K)
    requires forall k :: k in seen <==> FirstIndex(pre, k, key).Some?
    ensures key(x) in seen ==> FirstsBy(pre + [x], key) == FirstsBy(pre, key)
    ensures key(x) in seen ==> forall k :: k in seen <==> FirstIndex(pre + [x], k, key).Some?
    ensures key(x) !in seen ==> FirstsBy(pre + [x], key) == FirstsBy(pre, key) + [x]
    ensures key(x) !in seen ==> forall k :: k in seen + {key(x)} <==> FirstIndex(pre + [x], k, key).Some?
  {
    FirstIndexSnoc(pre, x, key);
    FirstsBySnoc(pre, x, key);
    if key(x) in seen {
      assert FirstIndex(pre, key(x), key).Some?;
      forall k
        ensures k in seen <==> FirstIndex(pre + [x], k, key).Some?
      {
      }
    } else {
      assert FirstIndex(pre, key(x), key).None?;
      forall k
        ensures k in seen + {key(x)} <==> FirstIndex(pre + [x], k, key).Some?
      {
      }
    }
  }

  /** A loop that keeps a set of the keys seen and emits `f` of each element
      whose key is new: `f` of the first element per key, in order. */
  method FirstsMapped<T, K(==), R>(xs: seq<T>, key: T -> K, f: T -> R) returns (out: seq<R>)
    ensures |out| == |FirstsBy(xs, key)|
    ensures forall j :: 0 <= j < |out| ==> out[j] == f(FirstsBy(xs, key)[j])
  {
    var seen: set<K> := {};
    out := [];
    for i := 0 to |xs|
      invariant forall k :: k in seen <==> FirstIndex(xs[..i], k, key).Some?
      invariant |out| == |FirstsBy(xs[..i], key)|
      invariant forall j :: 0 <= j < |out| ==> out[j] == f(FirstsBy(xs[..i], key)[j])
    {
      var x := xs[i];
      ghost var pre := xs[..i];
      ghost var p := FirstsBy(pre, key);
      SeenAdvance(seen, pre, x, key);
      assert xs[..i + 1] == pre + [x];
      if key(x) !in seen {
        seen := seen + {key(x)};
        ghost var out0 := out;
        out := out + [f(x)];
        assert forall j :: 0 <= j < |out0| ==> out[j] == out0[j];
        assert FirstsBy(xs[..i + 1], key) == p + [x];
      } else {
        assert FirstsBy(xs[..i + 1], key) == p;
      }
    }
    assert xs[..|xs|] == xs;
  }

  /** Looking a key up in the first-per-key map is `find` on the input. */
  lemma FirstMapIsFind<T, K(!new)>(m: map<K, T>, xs: seq<T>, key: T -> K, k: K)
    requires IsFirstMap(m, xs, key)
    ensures k in m <==> Find(xs, k, key).Some?
    ensures k in m ==> Find(xs, k, key) == Some(m[k])
  {
  }

  /** `find` returns the first element with the key, and nothing exactly
      when no element has it. */
  lemma FindFirst<T, K>(items: seq<T>, k: K, key: T -> K)
    ensures (exists s :: s in items && key(s) == k) ==>
      exists j :: 0 <= j < |items| && key(items[j]) == k && Find(items, k, key) == Some(items[j])
        && forall i :: 0 <= i < j ==> key(items[i]) != k
    ensures (forall s :: s in items ==> key(s) != k) <==> Find(items, k, key).None?
  {
    if FirstIndex(items, k, key).Some? {
      var j := FirstIndex(items, k, key).value;
      assert Find(items, k, key) == Some(items[j]);
      assert items[j] in items;
    } else {
      forall s | s in items
        ensures key(s) != k
      {
        var i :| 0 <= i < |items| && items[i] == s;
      }
    }
  }

  /** `masters.map(m => overlay(m, find(saved, mkey(m))))`: each master
      laid over the first saved element with its key. */
  function Overlaid<M, T, K(==), R>(masters: seq<M>, saved: seq<T>, mkey: M -> K, key: T -> K,
                                    overlay: (M, Option<T>) -> R): (r: seq<R>)
    ensures |r| == |masters|
    ensures forall j :: 0 <= j < |masters| ==> r[j] == overlay(masters[j], Find(saved, mkey(masters[j]), key))
  {
    seq(|masters|, j requires 0 <= j < |masters| => overlay(masters[j], Find(saved, mkey(masters[j]), key)))
  }

  /** The handlers' two loops: the saved elements put in a map, the first
      per key winning, and the masters mapped through it. */
  method OverlayAll<M, T, K(==,!new), R>(masters: seq<M>, saved: seq<T>, mkey: M -> K, key: T -> K,
                                         overlay: (M, Option<T>) -> R)
    returns (rows: seq<R>)
    ensures rows == Overlaid(masters, saved, mkey, key, overlay)
  {
    var m, _ := FirstPerKey(saved, key);
    rows := [];
    for i := 0 to |masters|
      invariant |rows| == i
      invariant forall j :: 0 <= j < i ==> rows[j] == overlay(masters[j], Find(saved, mkey(masters[j]), key))
    {
      var k := mkey(masters[i]);
      FirstMapIsFind(m, saved, key, k);
      rows := rows + [overlay(masters[i], if k in m then Some(m[k]) else None)];
    }
  }
}
