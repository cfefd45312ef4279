/** `mergeItemsIntoDoc` and the propagation loops of the partner savers, as
    one engine: each incoming item either overwrites the payout fields of
    the first stored item with the same match key, or is appended. A
    product line supplies the match key, the overwrite (which payout fields
    it copies) and the item an append stores. */
module Merge {
  import opened Wrappers
  import opened Keyed

  /** Merge one incoming item. */
  function MergeOne<T, K(==)>(items: seq<T>, x: T, key: T -> K, overwrite: (T, T) -> T, newItem: T -> T): seq<T> {
    match FirstIndex(items, key(x), key)
    case Some(i) => items[i := overwrite(items[i], x)]
    case None => items + [newItem(x)]
  }

  /** Merge a batch, in order. */
  function MergeAll<T, K(==)>(items: seq<T>, batch: seq<T>, key: T -> K, overwrite: (T, T) -> T, newItem: T -> T): seq<T>
    decreases |batch|
  {
    if batch == [] then items
    else
      var n := |batch| - 1;
      MergeOne(MergeAll(items, batch[..n], key, overwrite, newItem), batch[n], key, overwrite, newItem)
  }

  /** `updatedCount`: the incoming items that found a stored match. */
  function UpdatedCount<T, K(==)>(items: seq<T>, batch: seq<T>, key: T -> K, overwrite: (T, T) -> T, newItem: T -> T): nat
    decreases |batch|
  {
    if batch == [] then 0
    else
      var n := |batch| - 1;
      var before := MergeAll(items, batch[..n], key, overwrite, newItem);
      UpdatedCount(items, batch[..n], key, overwrite, newItem)
      + (if FirstIndex(before, key(batch[n]), key).Some? then 1 else 0)
  }

  /** The last incoming item with key `k`. */
  function LastWith<T, K(==)>(batch: seq<T>, k: K, key: T -> K): (r: Option<T>)
    ensures r.None? <==> forall j :: 0 <= j < |batch| ==> key(batch[j]) != k
    ensures r.Some? ==> key(r.value) == k
    decreases |batch|
  {
    if batch == [] then None
    else
      var n := |batch| - 1;
      assert forall j :: 0 <= j < n ==> batch[..n][j] == batch[j];
      if key(batch[n]) == k then Some(batch[n]) else LastWith(batch[..n], k, key)
  }

  /** The item `LastWith` finds is one of the batch. */
  lemma {:induction false} LastWithIn<T, K>(batch: seq<T>, k: K, key: T -> K)
    requires LastWith(batch, k, key).Some?
    ensures LastWith(batch, k, key).value in batch
    decreases |batch|
  {
    var n := |batch| - 1;
    if key(batch[n]) != k {
      LastWithIn(batch[..n], k, key);
    }
  }

  /** What the product lines' merges have in common: the overwrite leaves
      the match key alone and replaces every payout field it copies, an
      appended item keeps its key, and overwriting an appended item with the
      item it came from changes nothing. */
  ghost predicate Lawful<T(!new), K>(key: T -> K, overwrite: (T, T) -> T, newItem: T -> T) {
    && (forall a, b :: key(overwrite(a, b)) == key(a))
    && (forall a, b, c :: overwrite(overwrite(a, b), c) == overwrite(a, c))
    && (forall x :: key(newItem(x)) == key(x))
    && (forall x :: overwrite(newItem(x), x) == newItem(x))
  }

  // ---------------------------------------------------------------------------
  // The in-place merge

  /** One commission document's item list. */
  class RuleSet<T, K(==)> {
    var items: seq<T>

    constructor (items0: seq<T>)
      ensures items == items0
    {
      items := items0;
    }

    /** `mergeItemsIntoDoc(doc, batch)`: updates `items` in place and
        returns `{ updatedCount, newCount }`. */
    method MergeItems(batch: seq<T>, key: T -> K, overwrite: (T, T) -> T, newItem: T -> T)
      returns (updated: nat, added: nat)
      modifies this
      ensures items == MergeAll(old(items), batch, key, overwrite, newItem)
      ensures updated == UpdatedCount(old(items), batch, key, overwrite, newItem)
      ensures updated + added == |batch|
    {
      updated, added := 0, 0;
      var i := 0;
      while i < |batch|
        invariant 0 <= i <= |batch|
        invariant items == MergeAll(old(items), batch[..i], key, overwrite, newItem)
        invariant updated == UpdatedCount(old(items), batch[..i], key, overwrite, newItem)
        invariant updated + added == i
      {
        var x := batch[i];
        assert batch[..i + 1][..i] == batch[..i];
        var idx := FindIndex(items, key(x), key);
        if idx != -1 {
          items := items[idx := overwrite(items[idx], x)];
          updated := updated + 1;
        } else {
          items := items + [newItem(x)];
          added := added + 1;
        }
        i := i + 1;
      }
      assert batch[..i] == batch;
    }
  }

  // ---------------------------------------------------------------------------
  // What a merge does

  /** Merging one item keeps every stored item's key and the key of the new
      item is then present. */
  lemma MergeOneKeys<T(!new), K>(items: seq<T>, x: T, key: T -> K, overwrite: (T, T) -> T, newItem: T -> T)
    requires Lawful(key, overwrite, newItem)
    ensures var r := MergeOne(items, x, key, overwrite, newItem);
      && |items| <= |r| <= |items| + 1
      && (forall j :: 0 <= j < |items| ==> key(r[j]) == key(items[j]))
      && (|r| == |items| + 1 ==> FirstIndex(items, key(x), key).None? && r[|items|] == newItem(x))
      && FirstIndex(r, key(x), key).Some?
  {
    var r := MergeOne(items, x, key, overwrite, newItem);
    match FirstIndex(items, key(x), key)
    case Some(i) =>
      FirstIndexSameKeys(items, r, key(x), key);
    case None =>
      assert key(r[|items|]) == key(x);
  }

  /** A merge keeps every stored item's key, and each batch item's key is
      then present. */
  lemma {:induction false} MergeAllKeys<T(!new), K>(items: seq<T>, batch: seq<T>, key: T -> K, overwrite: (T, T) -> T, newItem: T -> T)
    requires Lawful(key, overwrite, newItem)
    ensures var r := MergeAll(items, batch, key, overwrite, newItem);
      && |items| <= |r|
      && (forall j :: 0 <= j < |items| ==> key(r[j]) == key(items[j]))
      && (forall j :: 0 <= j < |batch| ==> FirstIndex(r, key(batch[j]), key).Some?)
    decreases |batch|
  {
    if batch != [] {
      var n := |batch| - 1;
      var before := MergeAll(items, batch[..n], key, overwrite, newItem);
      MergeAllKeys(items, batch[..n], key, overwrite, newItem);
      MergeOneKeys(before, batch[n], key, overwrite, newItem);
      var r := MergeOne(before, batch[n], key, overwrite, newItem);
      assert r == MergeAll(items, batch, key, overwrite, newItem);
      forall j | 0 <= j < |items|
        ensures key(r[j]) == key(items[j])
      {
        assert key(r[j]) == key(before[j]);
      }
      forall k | FirstIndex(before, k, key).Some?
        ensures FirstIndex(r, k, key).Some?
      {
        FirstIndexExtends(before, r, k, key);
      }
      KeysStayFound(before, r, batch[..n], batch, key);
    }
  }

  /** Keys found before a merge step are still found after it. */
  lemma KeysStayFound<T, K>(before: seq<T>, r: seq<T>, done: seq<T>, batch: seq<T>, key: T -> K)
    requires batch != [] && done == batch[..|batch| - 1]
    requires forall k :: FirstIndex(before, k, key).Some? ==> FirstIndex(r, k, key).Some?
    requires forall j :: 0 <= j < |done| ==> FirstIndex(before, key(done[j]), key).Some?
    requires FirstIndex(r, key(batch[|batch| - 1]), key).Some?
    ensures forall j :: 0 <= j < |batch| ==> FirstIndex(r, key(batch[j]), key).Some?
  {
    forall j | 0 <= j < |batch|
      ensures FirstIndex(r, key(batch[j]), key).Some?
    {
      if j < |batch| - 1 {
        assert done[j] == batch[j];
        assert FirstIndex(before, key(done[j]), key).Some?;
      }
    }
  }

  /** `updatedCount + newCount` is the batch length, and the list grows by
      exactly the number of appended items. */
  lemma {:induction false} MergeAllLength<T, K>(items: seq<T>, batch: seq<T>, key: T -> K, overwrite: (T, T) -> T, newItem: T -> T)
    ensures UpdatedCount(items, batch, key, overwrite, newItem) <= |batch|
    ensures |MergeAll(items, batch, key, overwrite, newItem)|
            == |items| + |batch| - UpdatedCount(items, batch, key, overwrite, newItem)
    decreases |batch|
  {
    if batch != [] {
      MergeAllLength(items, batch[..|batch| - 1], key, overwrite, newItem);
    }
  }

  /** Stored items whose key no batch item carries are left as they were. */
  lemma {:induction false} MergeAllLeavesOthers<T(!new), K>(items: seq<T>, batch: seq<T>, key: T -> K, overwrite: (T, T) -> T, newItem: T -> T, j: int)
    requires Lawful(key, overwrite, newItem)
    requires 0 <= j < |items|
    requires forall b :: 0 <= b < |batch| ==> key(batch[b]) != key(items[j])
    ensures j < |MergeAll(items, batch, key, overwrite, newItem)|
    ensures MergeAll(items, batch, key, overwrite, newItem)[j] == items[j]
    decreases |batch|
  {
    if batch != [] {
      var n := |batch| - 1;
      var before := MergeAll(items, batch[..n], key, overwrite, newItem);
      assert forall b :: 0 <= b < n ==> batch[..n][b] == batch[b];
      MergeAllLeavesOthers(items, batch[..n], key, overwrite, newItem, j);
      MergeAllKeys(items, batch[..n], key, overwrite, newItem);
      assert key(before[j]) != key(batch[n]);
    }
  }

  /** After a merge, the stored item that carries a batch key is a fixed
      point of overwriting it with the LAST batch item of that key: within
      one batch, a later item with the same key wins. */
  ghost predicate Settled<T, K(!new)>(r: seq<T>, batch: seq<T>, key: T -> K, overwrite: (T, T) -> T) {
    forall j :: 0 <= j < |r| && FirstIndex(r, key(r[j]), key) == Some(j) && LastWith(batch, key(r[j]), key).Some?
      ==> overwrite(r[j], LastWith(batch, key(r[j]), key).value) == r[j]
  }

  lemma {:induction false} LaterItemWins<T(!new), K(!new)>(items: seq<T>, batch: seq<T>, key: T -> K, overwrite: (T, T) -> T, newItem: T -> T)
    requires Lawful(key, overwrite, newItem)
    ensures Settled(MergeAll(items, batch, key, overwrite, newItem), batch, key, overwrite)
    decreases |batch|
  {
    if batch != [] {
      var n := |batch| - 1;
      var pre := batch[..n];
      var x := batch[n];
      assert batch == pre + [x];
      var before := MergeAll(items, pre, key, overwrite, newItem);
      var r := MergeOne(before, x, key, overwrite, newItem);
      assert MergeAll(items, batch, key, overwrite, newItem) == r;
      LaterItemWins(items, pre, key, overwrite, newItem);
      MergeAllKeys(items, pre, key, overwrite, newItem);
      forall j | 0 <= j < |r| && FirstIndex(r, key(r[j]), key) == Some(j) && LastWith(batch, key(r[j]), key).Some?
        ensures overwrite(r[j], LastWith(batch, key(r[j]), key).value) == r[j]
      {
        SettledAt(before, pre, x, key, overwrite, newItem, j);
      }
    }
  }

  /** One more merged item keeps `Settled` at each first holder of a key. */
  lemma SettledAt<T(!new), K(!new)>(before: seq<T>, pre: seq<T>, x: T, key: T -> K, overwrite: (T, T) -> T, newItem: T -> T, j: int)
    requires Lawful(key, overwrite, newItem)
    requires Settled(before, pre, key, overwrite)
    requires forall b :: 0 <= b < |pre| ==> FirstIndex(before, key(pre[b]), key).Some?
    requires var r := MergeOne(before, x, key, overwrite, newItem);
      0 <= j < |r| && FirstIndex(r, key(r[j]), key) == Some(j) && LastWith(pre + [x], key(r[j]), key).Some?
    ensures var r := MergeOne(before, x, key, overwrite, newItem);
      overwrite(r[j], LastWith(pre + [x], key(r[j]), key).value) == r[j]
  {
    var r := MergeOne(before, x, key, overwrite, newItem);
    MergeOneKeys(before, x, key, overwrite, newItem);
    var k := key(r[j]);
    LastWithSnoc(pre, x, k, key);
    if k == key(x) {
      match FirstIndex(before, key(x), key)
      case Some(i) =>
        FirstIndexExtends(before, r, k, key);
        assert j == i;
      case None =>
        FirstIndexSnoc(before, newItem(x), key);
        assert j == |before|;
    } else {
      var b :| 0 <= b < |pre| && key(pre[b]) == k;
      assert FirstIndex(before, k, key).Some?;
      FirstIndexExtends(before, r, k, key);
      assert j < |before| && key(before[j]) == k;
      assert r[j] == before[j];
    }
  }

  /** Looking a batch key up after the merge (`find`, as the GET handlers
      do) gives an item that the last batch item of that key leaves as it
      is: its copied payout fields are that item's. */
  lemma FindAfterMerge<T(!new), K(!new)>(items: seq<T>, batch: seq<T>, key: T -> K, overwrite: (T, T) -> T, newItem: T -> T, k: K)
    requires Lawful(key, overwrite, newItem)
    requires LastWith(batch, k, key).Some?
    ensures var r := MergeAll(items, batch, key, overwrite, newItem);
      && Find(r, k, key).Some?
      && overwrite(Find(r, k, key).value, LastWith(batch, k, key).value) == Find(r, k, key).value
  {
    var r := MergeAll(items, batch, key, overwrite, newItem);
    var b :| 0 <= b < |batch| && key(batch[b]) == k;
    MergeAllKeys(items, batch, key, overwrite, newItem);
    LaterItemWins(items, batch, key, overwrite, newItem);
    var j := FirstIndex(r, k, key).value;
    assert key(r[j]) == k;
  }

  // ---------------------------------------------------------------------------
  // A second merge of the same batch

  /** The stored item at position `j` after overwriting with the last batch
      item of its key, when `j` is where that key is first found. */
  function OverwrittenAt<T, K(==)>(items: seq<T>, batch: seq<T>, key: T -> K, overwrite: (T, T) -> T, j: int): T
    requires 0 <= j < |items|
  {
    var k := key(items[j]);
    var last := LastWith(batch, k, key);
    if FirstIndex(items, k, key) == Some(j) && last.Some? then overwrite(items[j], last.value) else items[j]
  }

  function Overwritten<T, K(==)>(items: seq<T>, batch: seq<T>, key: T -> K, overwrite: (T, T) -> T): (r: seq<T>)
    ensures |r| == |items|
  {
    seq(|items|, j requires 0 <= j < |items| => OverwrittenAt(items, batch, key, overwrite, j))
  }

  /** The last item with a key, after one more item. */
  lemma LastWithSnoc<T, K>(pre: seq<T>, x: T, k: K, key: T -> K)
    ensures LastWith(pre + [x], k, key) == if key(x) == k then Some(x) else LastWith(pre, k, key)
  {
    assert (pre + [x])[..|pre|] == pre;
  }

  /** One more batch item changes only the first holder of its key, by
      overwriting it with that item. */
  lemma OverwrittenAtSnoc<T(!new), K>(items: seq<T>, pre: seq<T>, x: T, key: T -> K, overwrite: (T, T) -> T, newItem: T -> T, j: int)
    requires Lawful(key, overwrite, newItem)
    requires 0 <= j < |items|
    ensures OverwrittenAt(items, pre + [x], key, overwrite, j) ==
      if FirstIndex(items, key(x), key) == Some(j) then overwrite(OverwrittenAt(items, pre, key, overwrite, j), x)
      else OverwrittenAt(items, pre, key, overwrite, j)
  {
    var k := key(items[j]);
    LastWithSnoc(pre, x, k, key);
    if FirstIndex(items, key(x), key) == Some(j) {
      assert k == key(x);
      if LastWith(pre, k, key).Some? {
        assert overwrite(overwrite(items[j], LastWith(pre, k, key).value), x) == overwrite(items[j], x);
      }
    }
  }

  /** When every batch key is already stored, a merge only overwrites: each
      first holder of a batch key receives the last batch item of that key. */
  lemma {:induction false} MergeCoveredOverwrites<T(!new), K(!new)>(items: seq<T>, batch: seq<T>, key: T -> K, overwrite: (T, T) -> T, newItem: T -> T)
    requires Lawful(key, overwrite, newItem)
    requires forall b :: 0 <= b < |batch| ==> FirstIndex(items, key(batch[b]), key).Some?
    ensures MergeAll(items, batch, key, overwrite, newItem) == Overwritten(items, batch, key, overwrite)
    decreases |batch|
  {
    var want := Overwritten(items, batch, key, overwrite);
    if batch == [] {
      assert forall j :: 0 <= j < |items| ==> want[j] == items[j];
    } else {
      var n := |batch| - 1;
      var pre := batch[..n];
      var x := batch[n];
      assert batch == pre + [x];
      assert forall b :: 0 <= b < n ==> pre[b] == batch[b];
      MergeCoveredOverwrites(items, pre, key, overwrite, newItem);
      var before := Overwritten(items, pre, key, overwrite);
      assert forall j :: 0 <= j < |items| ==> key(before[j]) == key(items[j]);
      FirstIndexSameKeys(items, before, key(x), key);
      var i := FirstIndex(items, key(x), key).value;
      var r := MergeOne(before, x, key, overwrite, newItem);
      assert r == before[i := overwrite(before[i], x)];
      forall j | 0 <= j < |items|
        ensures r[j] == want[j]
      {
        OverwrittenAtSnoc(items, pre, x, key, overwrite, newItem, j);
        assert want[j] == OverwrittenAt(items, pre + [x], key, overwrite, j);
        assert before[j] == OverwrittenAt(items, pre, key, overwrite, j);
      }
      assert MergeAll(items, batch, key, overwrite, newItem) == r;
    }
  }

  /** Merging the same batch a second time changes nothing: no item is
      appended and every incoming item counts as updated. */
  lemma MergeTwiceIsMergeOnce<T(!new), K(!new)>(items: seq<T>, batch: seq<T>, key: T -> K, overwrite: (T, T) -> T, newItem: T -> T)
    requires Lawful(key, overwrite, newItem)
    ensures var once := MergeAll(items, batch, key, overwrite, newItem);
      && MergeAll(once, batch, key, overwrite, newItem) == once
      && UpdatedCount(once, batch, key, overwrite, newItem) == |batch|
  {
    var once := MergeAll(items, batch, key, overwrite, newItem);
    MergeAllKeys(items, batch, key, overwrite, newItem);
    LaterItemWins(items, batch, key, overwrite, newItem);
    MergeCoveredOverwrites(once, batch, key, overwrite, newItem);
    var twice := Overwritten(once, batch, key, overwrite);
    assert forall j :: 0 <= j < |once| ==> twice[j] == once[j];
    MergeAllLength(once, batch, key, overwrite, newItem);
  }

  /** The merge laws as one batch needs them: the overwrite laws for all
      items, the append laws for the batch's items only (an append that
      fills in schema defaults can change the key of other items). */
  ghost predicate LawfulOn<T(!new), K>(key: T -> K, overwrite: (T, T) -> T, newItem: T -> T, batch: seq<T>) {
    && (forall a, b :: key(overwrite(a, b)) == key(a))
    && (forall a, b, c :: overwrite(overwrite(a, b), c) == overwrite(a, c))
    && (forall m :: 0 <= m < |batch| ==> key(newItem(batch[m])) == key(batch[m]))
    && (forall m :: 0 <= m < |batch| ==> overwrite(newItem(batch[m]), batch[m]) == newItem(batch[m]))
  }

  /** The append made lawful everywhere: unchanged where it keeps the laws,
      an overwrite of the item with itself elsewhere. */
  ghost function Patched<T, K>(key: T -> K, overwrite: (T, T) -> T, newItem: T -> T): T -> T {
    x => if key(newItem(x)) == key(x) && overwrite(newItem(x), x) == newItem(x) then newItem(x) else overwrite(x, x)
  }

  lemma PatchedLawful<T(!new), K>(key: T -> K, overwrite: (T, T) -> T, newItem: T -> T, batch: seq<T>)
    requires LawfulOn(key, overwrite, newItem, batch)
    ensures Lawful(key, overwrite, Patched(key, overwrite, newItem))
    ensures forall m :: 0 <= m < |batch| ==> Patched(key, overwrite, newItem)(batch[m]) == newItem(batch[m])
  {
    var p := Patched(key, overwrite, newItem);
    forall x
      ensures key(p(x)) == key(x) && overwrite(p(x), x) == p(x)
    {
      if !(key(newItem(x)) == key(x) && overwrite(newItem(x), x) == newItem(x)) {
        assert p(x) == overwrite(x, x);
        assert overwrite(overwrite(x, x), x) == overwrite(x, x);
      }
    }
  }

  /** Two appends that agree on the batch's items give the same merge. */
  lemma {:induction false} MergeAllAgree<T, K>(items: seq<T>, batch: seq<T>, key: T -> K, overwrite: (T, T) -> T,
                                              newItem: T -> T, other: T -> T)
    requires forall m :: 0 <= m < |batch| ==> newItem(batch[m]) == other(batch[m])
    ensures MergeAll(items, batch, key, overwrite, newItem) == MergeAll(items, batch, key, overwrite, other)
    decreases |batch|
  {
    if batch != [] {
      var n := |batch| - 1;
      assert forall m :: 0 <= m < n ==> batch[..n][m] == batch[m];
      MergeAllAgree(items, batch[..n], key, overwrite, newItem, other);
    }
  }

  /** Merging the same batch a second time changes nothing, when the batch
      keeps the merge laws. */
  lemma MergeTwiceOn<T(!new), K(!new)>(items: seq<T>, batch: seq<T>, key: T -> K, overwrite: (T, T) -> T, newItem: T -> T)
    requires LawfulOn(key, overwrite, newItem, batch)
    ensures var once := MergeAll(items, batch, key, overwrite, newItem);
      MergeAll(once, batch, key, overwrite, newItem) == once
  {
    var p := Patched(key, overwrite, newItem);
    PatchedLawful(key, overwrite, newItem, batch);
    var once := MergeAll(items, batch, key, overwrite, newItem);
    MergeAllAgree(items, batch, key, overwrite, newItem, p);
    MergeAllAgree(once, batch, key, overwrite, newItem, p);
    MergeTwiceIsMergeOnce(items, batch, key, overwrite, p);
  }

  /** A property `p` every stored item has holds for every item after the
      merge (such as "the one-shot flag is off"), when the overwrite with an
      incoming item, and the append of one, give an item with `p`; `q` is
      what is known of the incoming items. */
  lemma {:induction false} MergeAllKeeps<T(!new), K>(items: seq<T>, batch: seq<T>, key: T -> K, overwrite: (T, T) -> T, newItem: T -> T,
                                                    p: T -> bool, q: T -> bool)
    requires forall a, b :: p(a) && q(b) ==> p(overwrite(a, b))
    requires forall x :: q(x) ==> p(newItem(x))
    requires forall j :: 0 <= j < |items| ==> p(items[j])
    requires forall j :: 0 <= j < |batch| ==> q(batch[j])
    ensures forall j :: 0 <= j < |MergeAll(items, batch, key, overwrite, newItem)| ==> p(MergeAll(items, batch, key, overwrite, newItem)[j])
    decreases |batch|
  {
    if batch != [] {
      var n := |batch| - 1;
      assert forall b :: 0 <= b < n ==> batch[..n][b] == batch[b];
      MergeAllKeeps(items, batch[..n], key, overwrite, newItem, p, q);
    }
  }
}
