/** The commission collections, as an ordered list of documents, and the
    writes the controllers make to them: the upsert of a whole item list,
    the load-merge-save of a document, the same-day replace of the dealer
    savers, and the loop that merges flagged rules into every other
    partner's document. */
module Store {
  import opened Wrappers
  import opened Text
  import opened Keyed
  import opened Merge

  /** One commission document: whose it is, the date it is keyed by, its
      items, and its `updatedAt` stamp. */
  datatype Record<D, T> = Record(owner: string, dateKey: D, items: seq<T>, updatedAt: int)

  /** The (owner, date) pair a `findOne` looks for. */
  function Slot<D, T>(r: Record<D, T>): (string, D) { (r.owner, r.dateKey) }

  /** `findOne({ owner, dateKey })`: the first document with that slot. */
  function FindRecord<D(==), T>(records: seq<Record<D, T>>, owner: string, dateKey: D): Option<nat> {
    FirstIndex(records, (owner, dateKey), Slot)
  }

  /** The items of the document `findOne` finds, or the empty list of the
      new document the savers create when there is none. */
  function ItemsAt<D(==), T>(records: seq<Record<D, T>>, owner: string, dateKey: D): seq<T> {
    match FindRecord(records, owner, dateKey)
    case Some(i) => records[i].items
    case None => []
  }

  /** `findOneAndUpdate({owner, dateKey}, {$set: {items, updatedAt: now}}, {upsert: true})`. */
  function Upserted<D(==), T>(records: seq<Record<D, T>>, owner: string, dateKey: D, items: seq<T>, now: int)
    : seq<Record<D, T>>
  {
    match FindRecord(records, owner, dateKey)
    case Some(i) => records[i := records[i].(items := items, updatedAt := now)]
    case None => records + [Record(owner, dateKey, items, now)]
  }

  /** Find the document (or start an empty one), merge the batch into its
      items, save it. */
  function MergedInto<D(==), T, K(==)>(records: seq<Record<D, T>>, owner: string, dateKey: D, batch: seq<T>,
                                      key: T -> K, overwrite: (T, T) -> T, newItem: T -> T, now: int)
    : seq<Record<D, T>>
  {
    var merged := MergeAll(ItemsAt(records, owner, dateKey), batch, key, overwrite, newItem);
    match FindRecord(records, owner, dateKey)
    case Some(i) => records[i := records[i].(items := merged)]
    case None => records + [Record(owner, dateKey, merged, now)]
  }

  /** `deleteMany({owner, date in the day})`: every document of `owner`
      whose date the day window `hit` contains is removed. */
  function Without<D, T>(records: seq<Record<D, T>>, owner: string, hit: D -> bool): (r: seq<Record<D, T>>)
    ensures |r| <= |records|
    ensures forall j :: 0 <= j < |r| ==> r[j] in records && !(r[j].owner == owner && hit(r[j].dateKey))
  {
    if records == [] then []
    else
      var rest := Without(records[1..], owner, hit);
      if records[0].owner == owner && hit(records[0].dateKey) then rest else [records[0]] + rest
  }

  /** `findOneAndUpdate(filter, doc, {upsert: true})` with a filter that is
      not a slot: the first document the filter `hit` accepts becomes `rec`,
      or `rec` is appended when it accepts none. */
  function ReplacedWhere<D, T>(records: seq<Record<D, T>>, hit: Record<D, T> -> bool, rec: Record<D, T>)
    : seq<Record<D, T>>
  {
    match FirstIndex(records, true, hit)
    case Some(i) => records[i := rec]
    case None => records + [rec]
  }

  /** The propagation loop: the targets in order, each one's document for
      the date found or created, merged and saved; a write that throws ends
      the loop with a server error, and the writes before it stay. */
  function MergeEach<D(==), T, K(==)>(records: seq<Record<D, T>>, targets: seq<string>, dateKey: D, batch: seq<T>,
                                     key: T -> K, overwrite: (T, T) -> T, newItem: T -> T,
                                     failing: set<string>, now: int)
    : (Response, seq<Record<D, T>>)
    decreases |targets|
  {
    if targets == [] then (Ok, records)
    else if targets[0] in failing then (ServerError, records)
    else
      MergeEach(MergedInto(records, targets[0], dateKey, batch, key, overwrite, newItem, now),
                targets[1..], dateKey, batch, key, overwrite, newItem, failing, now)
  }

  // ---------------------------------------------------------------------------
  // The collection

  class Collection<D(==), T> {
    var records: seq<Record<D, T>>

    constructor (records0: seq<Record<D, T>>)
      ensures records == records0
    {
      records := records0;
    }

    method Upsert(owner: string, dateKey: D, items: seq<T>, now: int)
      modifies this
      ensures records == Upserted(old(records), owner, dateKey, items, now)
    {
      var i := FindIndex(records, (owner, dateKey), Slot);
      if i == -1 {
        records := records + [Record(owner, dateKey, items, now)];
      } else {
        records := records[i := records[i].(items := items, updatedAt := now)];
      }
    }

    /** `findOne`, or `new Model({ ..., items: [] })`; `mergeItemsIntoDoc`;
        `save()`. Returns the merge's counts. */
    method MergeInto<K(==)>(owner: string, dateKey: D, batch: seq<T>,
                           key: T -> K, overwrite: (T, T) -> T, newItem: T -> T, now: int)
      returns (updated: nat, added: nat)
      modifies this
      ensures records == MergedInto(old(records), owner, dateKey, batch, key, overwrite, newItem, now)
      ensures updated == UpdatedCount(ItemsAt(old(records), owner, dateKey), batch, key, overwrite, newItem)
      ensures updated + added == |batch|
    {
      var i := FindIndex(records, (owner, dateKey), Slot);
      var doc := new RuleSet(if i == -1 then [] else records[i].items);
      updated, added := doc.MergeItems(batch, key, overwrite, newItem);
      if i == -1 {
        records := records + [Record(owner, dateKey, doc.items, now)];
      } else {
        records := records[i := records[i].(items := doc.items)];
      }
    }

    /** `deleteMany` of the owner's documents in the day. */
    method DeleteDay(owner: string, hit: D -> bool)
      modifies this
      ensures records == Without(old(records), owner, hit)
    {
      records := Without(records, owner, hit);
    }

    /** `new Model(rec).save()`. */
    method Insert(rec: Record<D, T>)
      modifies this
      ensures records == old(records) + [rec]
    {
      records := records + [rec];
    }

    method ReplaceWhere(hit: Record<D, T> -> bool, rec: Record<D, T>)
      modifies this
      ensures records == ReplacedWhere(old(records), hit, rec)
    {
      var i := FindIndex(records, true, hit);
      if i == -1 {
        records := records + [rec];
      } else {
        records := records[i := rec];
      }
    }

    /** The `for (const pName of others)` loop of the partner savers. */
    method MergeIntoEach<K(==)>(targets: seq<string>, dateKey: D, batch: seq<T>,
                               key: T -> K, overwrite: (T, T) -> T, newItem: T -> T,
                               failing: set<string>, now: int)
      returns (resp: Response)
      modifies this
      ensures (resp, records) == MergeEach(old(records), targets, dateKey, batch, key, overwrite, newItem, failing, now)
    {
      var i := 0;
      while i < |targets|
        invariant 0 <= i <= |targets|
        invariant MergeEach(old(records), targets, dateKey, batch, key, overwrite, newItem, failing, now)
               == MergeEach(records, targets[i..], dateKey, batch, key, overwrite, newItem, failing, now)
      {
        assert targets[i..][1..] == targets[i + 1..];
        if targets[i] in failing {
          return ServerError;
        }
        var _, _ := MergeInto(targets[i], dateKey, batch, key, overwrite, newItem, now);
        i := i + 1;
      }
      resp := Ok;
    }
  }

  // ---------------------------------------------------------------------------
  // What the writes do

  /** After an upsert the slot holds the new items; every other document is
      where it was and unchanged. */
  lemma UpsertedMeaning<D, T>(records: seq<Record<D, T>>, owner: string, dateKey: D, items: seq<T>, now: int)
    ensures var r := Upserted(records, owner, dateKey, items, now);
      && FindRecord(r, owner, dateKey).Some?
      && r[FindRecord(r, owner, dateKey).value] == Record(owner, dateKey, items, now)
      && ItemsAt(r, owner, dateKey) == items
      && |records| <= |r| <= |records| + 1
      && (forall j :: 0 <= j < |records| ==> Slot(r[j]) == Slot(records[j]))
      && (forall j :: 0 <= j < |records| && Slot(records[j]) != (owner, dateKey) ==> r[j] == records[j])
      && (forall o, d :: (o, d) != (owner, dateKey) ==> FindRecord(r, o, d) == FindRecord(records, o, d))
  {
    var r := Upserted(records, owner, dateKey, items, now);
    assert forall j :: 0 <= j < |records| ==> Slot(r[j]) == Slot(records[j]);
    match FindRecord(records, owner, dateKey)
    case Some(i) =>
      forall o, d
        ensures FindRecord(r, o, d) == FindRecord(records, o, d)
      {
        FirstIndexSameKeys(records, r, (o, d), Slot);
      }
      assert Slot(records[i]) == (owner, dateKey);
    case None =>
      forall o, d
        ensures FindRecord(r, o, d) == (if (o, d) == (owner, dateKey) then Some(|records|) else FindRecord(records, o, d))
      {
        FirstIndexSnoc(records, Record(owner, dateKey, items, now), Slot);
      }
  }

  /** After a load-merge-save the slot holds the merge of what it held (or
      of nothing) with the batch; every other document is unchanged. */
  lemma MergedIntoMeaning<D, T, K>(records: seq<Record<D, T>>, owner: string, dateKey: D, batch: seq<T>,
                                          key: T -> K, overwrite: (T, T) -> T, newItem: T -> T, now: int)
    ensures var r := MergedInto(records, owner, dateKey, batch, key, overwrite, newItem, now);
      && FindRecord(r, owner, dateKey).Some?
      && ItemsAt(r, owner, dateKey) == MergeAll(ItemsAt(records, owner, dateKey), batch, key, overwrite, newItem)
      && |records| <= |r| <= |records| + 1
      && (forall j :: 0 <= j < |records| ==> Slot(r[j]) == Slot(records[j]))
      && (forall j :: 0 <= j < |records| && Slot(records[j]) != (owner, dateKey) ==> r[j] == records[j])
      && (forall o, d :: (o, d) != (owner, dateKey) ==> FindRecord(r, o, d) == FindRecord(records, o, d))
  {
    var r := MergedInto(records, owner, dateKey, batch, key, overwrite, newItem, now);
    var merged := MergeAll(ItemsAt(records, owner, dateKey), batch, key, overwrite, newItem);
    assert forall j :: 0 <= j < |records| ==> Slot(r[j]) == Slot(records[j]);
    match FindRecord(records, owner, dateKey)
    case Some(i) =>
      forall o, d
        ensures FindRecord(r, o, d) == FindRecord(records, o, d)
      {
        FirstIndexSameKeys(records, r, (o, d), Slot);
      }
    case None =>
      FirstIndexSnoc(records, Record(owner, dateKey, merged, now), Slot);
  }

  /** The loop over one target with one item is one load-merge-save. */
  lemma MergeEachSingle<D, T, K>(records: seq<Record<D, T>>, t: string, dateKey: D, x: T,
                                 key: T -> K, overwrite: (T, T) -> T, newItem: T -> T, failing: set<string>, now: int)
    requires t !in failing
    ensures MergeEach(records, [t], dateKey, [x], key, overwrite, newItem, failing, now)
         == (Ok, MergedInto(records, t, dateKey, [x], key, overwrite, newItem, now))
    ensures MergeAll(ItemsAt(records, t, dateKey), [x], key, overwrite, newItem)
         == MergeOne(ItemsAt(records, t, dateKey), x, key, overwrite, newItem)
  {
    assert [x][..0] == [];
    assert [t][1..] == [];
  }

  /** One item merged into a slot that holds no document yet. */
  lemma MergedIntoFresh<D, T, K>(records: seq<Record<D, T>>, t: string, dateKey: D, x: T,
                                 key: T -> K, overwrite: (T, T) -> T, newItem: T -> T, now: int)
    requires FindRecord(records, t, dateKey).None?
    ensures MergedInto(records, t, dateKey, [x], key, overwrite, newItem, now)
         == records + [Record(t, dateKey, [newItem(x)], now)]
  {
    assert [x][..0] == [];
    assert ItemsAt(records, t, dateKey) == [];
    assert MergeAll([], [x], key, overwrite, newItem) == MergeOne([], x, key, overwrite, newItem);
    assert FirstIndex([], key(x), key).None?;
    assert MergeOne([], x, key, overwrite, newItem) == [newItem(x)];
    assert MergeAll(ItemsAt(records, t, dateKey), [x], key, overwrite, newItem) == [newItem(x)];
  }

  /** One item of a new key merged into a slot holding one item. */
  lemma MergedIntoAppends<D, T, K>(records: seq<Record<D, T>>, t: string, dateKey: D, i: nat, n: T, x: T,
                                   key: T -> K, overwrite: (T, T) -> T, newItem: T -> T, now: int)
    requires FindRecord(records, t, dateKey) == Some(i) && records[i].items == [n] && key(n) != key(x)
    ensures MergedInto(records, t, dateKey, [x], key, overwrite, newItem, now)
         == records[i := records[i].(items := [n, newItem(x)])]
  {
    assert [x][..0] == [];
    assert ItemsAt(records, t, dateKey) == [n];
    assert MergeAll([n], [x], key, overwrite, newItem) == MergeOne([n], x, key, overwrite, newItem);
    assert FirstIndex([n], key(x), key).None?;
    assert MergeOne([n], x, key, overwrite, newItem) == [n, newItem(x)];
    assert MergeAll(ItemsAt(records, t, dateKey), [x], key, overwrite, newItem) == [n, newItem(x)];
  }

  /** The saver's document and one target's document, side by side. */
  lemma TwoSlots<T>(saver: string, dateKey: string, mine: seq<T>, t: string, items: seq<T>, now: int)
    requires t != saver
    ensures var o := [Record(saver, dateKey, mine, now), Record(t, dateKey, items, now)];
      && FindRecord(o, saver, dateKey) == Some(0) && FindRecord(o, t, dateKey) == Some(1)
      && ItemsAt(o, t, dateKey) == items && Upserted(o, saver, dateKey, mine, now) == o
  {
    var o := [Record(saver, dateKey, mine, now), Record(t, dateKey, items, now)];
    assert Slot(o[1]) == (t, dateKey) && Slot(o[0]) != (t, dateKey);
    assert Slot(o[0]) == (saver, dateKey);
  }

  /** A first save that creates the target's document next to the saver's. */
  lemma FirstRepeatMerge<T, K>(saver: string, dateKey: string, x: T, t: string, mine: seq<T>,
                               key: T -> K, overwrite: (T, T) -> T, newItem: T -> T, now: int)
    requires t != saver
    ensures MergeEach([Record(saver, dateKey, mine, now)], [t], dateKey, [x], key, overwrite, newItem, {}, now)
         == (Ok, [Record(saver, dateKey, mine, now), Record(t, dateKey, [newItem(x)], now)])
  {
    var u := [Record(saver, dateKey, mine, now)];
    MergeEachSingle(u, t, dateKey, x, key, overwrite, newItem, {}, now);
    assert FindRecord(u, t, dateKey).None?;
    MergedIntoFresh(u, t, dateKey, x, key, overwrite, newItem, now);
    assert u + [Record(t, dateKey, [newItem(x)], now)] == [Record(saver, dateKey, mine, now), Record(t, dateKey, [newItem(x)], now)];
  }

  /** A second save whose item no longer matches what the first one wrote. */
  lemma SecondRepeatMerge<T, K>(saver: string, dateKey: string, x: T, n: T, t: string, mine: seq<T>,
                                key: T -> K, overwrite: (T, T) -> T, newItem: T -> T, now: int)
    requires t != saver && key(n) != key(x)
    ensures var o1 := [Record(saver, dateKey, mine, now), Record(t, dateKey, [n], now)];
      MergeEach(o1, [t], dateKey, [x], key, overwrite, newItem, {}, now)
      == (Ok, o1[1 := o1[1].(items := [n, newItem(x)])])
  {
    var o1 := [Record(saver, dateKey, mine, now), Record(t, dateKey, [n], now)];
    MergeEachSingle(o1, t, dateKey, x, key, overwrite, newItem, {}, now);
    TwoSlots(saver, dateKey, mine, t, [n], now);
    MergedIntoAppends(o1, t, dateKey, 1, n, x, key, overwrite, newItem, now);
  }

  lemma ItemsAtSameFind<D, T>(a: seq<Record<D, T>>, b: seq<Record<D, T>>, owner: string, dateKey: D)
    requires FindRecord(a, owner, dateKey) == FindRecord(b, owner, dateKey)
    requires FindRecord(a, owner, dateKey).Some? ==> a[FindRecord(a, owner, dateKey).value] == b[FindRecord(b, owner, dateKey).value]
    ensures ItemsAt(a, owner, dateKey) == ItemsAt(b, owner, dateKey)
  {
  }

  /** After the same-day replace the owner has exactly one document in the
      day, the new one; nobody else's documents change, nor their order. */
  lemma {:induction false} WithoutMeaning<D, T>(records: seq<Record<D, T>>, owner: string, hit: D -> bool)
    ensures forall j :: 0 <= j < |records| && !(records[j].owner == owner && hit(records[j].dateKey))
              ==> records[j] in Without(records, owner, hit)
    ensures forall r :: r in Without(records, owner, hit) ==> r in records
  {
    if records != [] {
      WithoutMeaning(records[1..], owner, hit);
      assert forall j :: 1 <= j < |records| ==> records[j] == records[1..][j - 1];
    }
  }

  lemma ReplaceDayLeavesOne<D, T>(records: seq<Record<D, T>>, owner: string, hit: D -> bool, rec: Record<D, T>)
    requires rec.owner == owner && hit(rec.dateKey)
    ensures var r := Without(records, owner, hit) + [rec];
      && r[|r| - 1] == rec
      && (forall j :: 0 <= j < |r| - 1 ==> !(r[j].owner == owner && hit(r[j].dateKey)))
  {
  }

  /** The first document the filter accepts is `rec` afterwards, when the
      filter accepts `rec`; every other document is where it was. */
  lemma ReplacedWhereMeaning<D, T>(records: seq<Record<D, T>>, hit: Record<D, T> -> bool, rec: Record<D, T>)
    requires hit(rec)
    ensures var r := ReplacedWhere(records, hit, rec);
      && FirstIndex(r, true, hit).Some? && r[FirstIndex(r, true, hit).value] == rec
      && |records| <= |r| <= |records| + 1
      && (forall j :: 0 <= j < |records| && j != FirstIndex(r, true, hit).value ==> r[j] == records[j])
      && (FirstIndex(records, true, hit).Some? <==> |r| == |records|)
  {
    var r := ReplacedWhere(records, hit, rec);
    match FirstIndex(records, true, hit)
    case Some(i) =>
      assert forall j :: 0 <= j < i ==> hit(r[j]) == hit(records[j]);
      assert hit(r[i]);
    case None =>
      assert forall j :: 0 <= j < |records| ==> r[j] == records[j];
      assert hit(r[|records|]);
  }

  /** The loop ends in a server error exactly when a target's write throws. */
  lemma {:induction false} MergeEachResponse<D, T, K>(records: seq<Record<D, T>>, targets: seq<string>, dateKey: D, batch: seq<T>,
                                                             key: T -> K, overwrite: (T, T) -> T, newItem: T -> T,
                                                             failing: set<string>, now: int)
    ensures var (resp, _) := MergeEach(records, targets, dateKey, batch, key, overwrite, newItem, failing, now);
      (resp == Ok <==> forall t :: t in targets ==> t !in failing)
      && (resp == Ok || resp == ServerError)
    decreases |targets|
  {
    if targets != [] && targets[0] !in failing {
      MergeEachResponse(MergedInto(records, targets[0], dateKey, batch, key, overwrite, newItem, now),
                        targets[1..], dateKey, batch, key, overwrite, newItem, failing, now);
      assert forall t :: t in targets ==> t == targets[0] || t in targets[1..];
    }
  }

  /** Documents of other slots keep their place and content through the
      loop, and the list only grows. */
  lemma {:induction false} MergeEachFrame<D, T, K>(records: seq<Record<D, T>>, targets: seq<string>, dateKey: D, batch: seq<T>,
                                                          key: T -> K, overwrite: (T, T) -> T, newItem: T -> T,
                                                          failing: set<string>, now: int)
    ensures var (_, r) := MergeEach(records, targets, dateKey, batch, key, overwrite, newItem, failing, now);
      && |records| <= |r|
      && (forall j :: 0 <= j < |records| ==> Slot(r[j]) == Slot(records[j]))
      && (forall j :: 0 <= j < |records| && !(records[j].dateKey == dateKey && records[j].owner in targets) ==> r[j] == records[j])
      && (forall o, d :: (d != dateKey || o !in targets) ==> FindRecord(r, o, d) == FindRecord(records, o, d))
    decreases |targets|
  {
    if targets != [] && targets[0] !in failing {
      var r1 := MergedInto(records, targets[0], dateKey, batch, key, overwrite, newItem, now);
      MergedIntoMeaning(records, targets[0], dateKey, batch, key, overwrite, newItem, now);
      MergeEachFrame(r1, targets[1..], dateKey, batch, key, overwrite, newItem, failing, now);
      assert forall t :: t in targets[1..] ==> t in targets;
    }
  }

  /** When every write succeeds each target's document for the date exists
      and holds the merge of what it held (or of nothing) with the batch,
      however often the target is listed. */
  lemma {:induction false} MergeEachMerges<D, T(!new), K(!new)>(records: seq<Record<D, T>>, targets: seq<string>, dateKey: D, batch: seq<T>,
                                                                    key: T -> K, overwrite: (T, T) -> T, newItem: T -> T,
                                                                    failing: set<string>, now: int, t: string)
    requires Lawful(key, overwrite, newItem)
    requires forall u :: u in targets ==> u !in failing
    requires t in targets
    ensures var (_, r) := MergeEach(records, targets, dateKey, batch, key, overwrite, newItem, failing, now);
      && FindRecord(r, t, dateKey).Some?
      && ItemsAt(r, t, dateKey) == MergeAll(ItemsAt(records, t, dateKey), batch, key, overwrite, newItem)
    decreases |targets|
  {
    var t0 := targets[0];
    var rest := targets[1..];
    var r1 := MergedInto(records, t0, dateKey, batch, key, overwrite, newItem, now);
    var r := MergeEach(r1, rest, dateKey, batch, key, overwrite, newItem, failing, now).1;
    assert r == MergeEach(records, targets, dateKey, batch, key, overwrite, newItem, failing, now).1;
    MergedIntoMeaning(records, t0, dateKey, batch, key, overwrite, newItem, now);
    assert forall u :: u in rest ==> u in targets;
    if t in rest {
      MergeEachMerges(r1, rest, dateKey, batch, key, overwrite, newItem, failing, now, t);
      if t == t0 {
        MergeTwiceIsMergeOnce(ItemsAt(records, t, dateKey), batch, key, overwrite, newItem);
      } else {
        assert FindRecord(r1, t, dateKey) == FindRecord(records, t, dateKey);
      }
    } else {
      assert t == t0;
      MergeEachFrame(r1, rest, dateKey, batch, key, overwrite, newItem, failing, now);
      assert FindRecord(r, t, dateKey) == FindRecord(r1, t, dateKey);
      var i := FindRecord(r1, t, dateKey).value;
      assert r[i] == r1[i];
    }
  }

  /** When every write succeeds and no target is listed twice, each
      target's document for the date exists and holds the merge of what it
      held (or of nothing) with the batch, whatever the merge laws. */
  lemma {:induction false} MergeEachMergesOnce<D, T, K>(records: seq<Record<D, T>>, targets: seq<string>, dateKey: D, batch: seq<T>,
                                                        key: T -> K, overwrite: (T, T) -> T, newItem: T -> T,
                                                        failing: set<string>, now: int, t: string)
    requires forall u :: u in targets ==> u !in failing
    requires forall i, j :: 0 <= i < j < |targets| ==> targets[i] != targets[j]
    requires t in targets
    ensures var (_, r) := MergeEach(records, targets, dateKey, batch, key, overwrite, newItem, failing, now);
      && FindRecord(r, t, dateKey).Some?
      && ItemsAt(r, t, dateKey) == MergeAll(ItemsAt(records, t, dateKey), batch, key, overwrite, newItem)
    decreases |targets|
  {
    var t0 := targets[0];
    var rest := targets[1..];
    var r1 := MergedInto(records, t0, dateKey, batch, key, overwrite, newItem, now);
    var r := MergeEach(r1, rest, dateKey, batch, key, overwrite, newItem, failing, now).1;
    assert r == MergeEach(records, targets, dateKey, batch, key, overwrite, newItem, failing, now).1;
    MergedIntoMeaning(records, t0, dateKey, batch, key, overwrite, newItem, now);
    assert forall u :: u in rest ==> u in targets;
    RestOnce(targets);
    if t == t0 {
      MergeEachFrame(r1, rest, dateKey, batch, key, overwrite, newItem, failing, now);
      assert FindRecord(r, t, dateKey) == FindRecord(r1, t, dateKey);
      var i := FindRecord(r1, t, dateKey).value;
      assert r[i] == r1[i];
    } else {
      assert t in rest;
      MergeEachMergesOnce(r1, rest, dateKey, batch, key, overwrite, newItem, failing, now, t);
      assert FindRecord(r1, t, dateKey) == FindRecord(records, t, dateKey);
    }
  }

  lemma RestOnce(targets: seq<string>)
    requires targets != []
    requires forall i, j :: 0 <= i < j < |targets| ==> targets[i] != targets[j]
    ensures forall i, j :: 0 <= i < j < |targets[1..]| ==> targets[1..][i] != targets[1..][j]
    ensures targets[0] !in targets[1..]
  {
    forall j | 0 <= j < |targets[1..]|
      ensures targets[1..][j] != targets[0]
    {
      assert targets[1..][j] == targets[j + 1];
    }
  }

  /** When every target already has a document for the date whose items the
      batch leaves as they are, the loop changes nothing. */
  lemma {:induction false} MergeEachFixpoint<D, T, K>(records: seq<Record<D, T>>, targets: seq<string>, dateKey: D, batch: seq<T>,
                                                      key: T -> K, overwrite: (T, T) -> T, newItem: T -> T,
                                                      failing: set<string>, now: int)
    requires forall t :: t in targets ==> FindRecord(records, t, dateKey).Some?
    requires forall t :: t in targets ==>
               MergeAll(ItemsAt(records, t, dateKey), batch, key, overwrite, newItem) == ItemsAt(records, t, dateKey)
    ensures MergeEach(records, targets, dateKey, batch, key, overwrite, newItem, failing, now).1 == records
    decreases |targets|
  {
    if targets != [] && targets[0] !in failing {
      var i := FindRecord(records, targets[0], dateKey).value;
      assert MergedInto(records, targets[0], dateKey, batch, key, overwrite, newItem, now)
          == records[i := records[i].(items := records[i].items)];
      assert records[i := records[i].(items := records[i].items)] == records;
      assert forall t :: t in targets[1..] ==> t in targets;
      MergeEachFixpoint(records, targets[1..], dateKey, batch, key, overwrite, newItem, failing, now);
    }
  }

  /** A property of items that every stored item has, and every batch item
      has, still holds for every stored item after the loop. */
  ghost predicate AllItems<D, T>(records: seq<Record<D, T>>, p: T -> bool) {
    forall j, m :: 0 <= j < |records| && 0 <= m < |records[j].items| ==> p(records[j].items[m])
  }

  lemma MergedIntoKeeps<D, T(!new), K>(records: seq<Record<D, T>>, owner: string, dateKey: D, batch: seq<T>,
                                              key: T -> K, overwrite: (T, T) -> T, newItem: T -> T, now: int,
                                              p: T -> bool, q: T -> bool)
    requires forall a, b :: p(a) && q(b) ==> p(overwrite(a, b))
    requires forall x :: q(x) ==> p(newItem(x))
    requires AllItems(records, p)
    requires forall m :: 0 <= m < |batch| ==> q(batch[m])
    ensures AllItems(MergedInto(records, owner, dateKey, batch, key, overwrite, newItem, now), p)
  {
    MergeAllKeeps(ItemsAt(records, owner, dateKey), batch, key, overwrite, newItem, p, q);
  }

  lemma {:induction false} MergeEachKeeps<D, T(!new), K>(records: seq<Record<D, T>>, targets: seq<string>, dateKey: D, batch: seq<T>,
                                                                key: T -> K, overwrite: (T, T) -> T, newItem: T -> T,
                                                                failing: set<string>, now: int, p: T -> bool, q: T -> bool)
    requires forall a, b :: p(a) && q(b) ==> p(overwrite(a, b))
    requires forall x :: q(x) ==> p(newItem(x))
    requires AllItems(records, p)
    requires forall m :: 0 <= m < |batch| ==> q(batch[m])
    ensures AllItems(MergeEach(records, targets, dateKey, batch, key, overwrite, newItem, failing, now).1, p)
    decreases |targets|
  {
    if targets != [] && targets[0] !in failing {
      MergedIntoKeeps(records, targets[0], dateKey, batch, key, overwrite, newItem, now, p, q);
      MergeEachKeeps(MergedInto(records, targets[0], dateKey, batch, key, overwrite, newItem, now),
                     targets[1..], dateKey, batch, key, overwrite, newItem, failing, now, p, q);
    }
  }

  lemma UpsertedKeeps<D, T>(records: seq<Record<D, T>>, owner: string, dateKey: D, items: seq<T>, now: int, p: T -> bool)
    requires AllItems(records, p)
    requires forall m :: 0 <= m < |items| ==> p(items[m])
    ensures AllItems(Upserted(records, owner, dateKey, items, now), p)
  {
  }

  /** Whether `save()` accepts a list: the schema validates every item. */
  predicate Accepts<T>(items: seq<T>, valid: T -> bool) {
    forall m :: 0 <= m < |items| ==> valid(items[m])
  }

  // ---------------------------------------------------------------------------
  // The partners a propagation writes to

  /** `names.filter(n => n.trim().toLowerCase() !== saver.trim().toLowerCase())`. */
  function OtherPartners(names: seq<string>, saver: string): (r: seq<string>)
    ensures forall t :: t in r <==> t in names && Normalize(t) != Normalize(saver)
  {
    if names == [] then []
    else
      var rest := OtherPartners(names[1..], saver);
      assert forall t :: t in names <==> t == names[0] || t in names[1..];
      if Normalize(names[0]) != Normalize(saver) then [names[0]] + rest else rest
  }

  /** The partner map of the non-motor and LIC savers: the first name per
      normalised spelling, trimmed, in discovery order, without the saver;
      a partner document without a name is skipped. */
  function DistinctOtherPartners(names: seq<string>, saver: string): seq<string> {
    OtherPartners(TrimAll(FirstsBy(Present(names), Normalize)), saver)
  }

  /** The names that are not empty, in order. */
  function Present(names: seq<string>): (r: seq<string>)
    ensures forall n :: n in r <==> n in names && n != ""
  {
    if names == [] then []
    else
      var rest := Present(names[1..]);
      assert forall n :: n in names <==> n == names[0] || n in names[1..];
      if names[0] != "" then [names[0]] + rest else rest
  }

  function TrimAll(names: seq<string>): (r: seq<string>)
    ensures |r| == |names|
    ensures forall j :: 0 <= j < |names| ==> r[j] == Trim(names[j])
  {
    if names == [] then [] else [Trim(names[0])] + TrimAll(names[1..])
  }

  /** The saver is never a target, and every other spelling the scan found
      has a target. */
  lemma DistinctOtherPartnersMeaning(names: seq<string>, saver: string)
    ensures forall t :: t in DistinctOtherPartners(names, saver) ==> Normalize(t) != Normalize(saver)
    ensures forall n :: n in names && n != "" && Normalize(n) != Normalize(saver) ==>
              exists t :: t in DistinctOtherPartners(names, saver) && Normalize(t) == Normalize(n)
  {
    forall n | n in names && n != "" && Normalize(n) != Normalize(saver)
      ensures exists t :: t in DistinctOtherPartners(names, saver) && Normalize(t) == Normalize(n)
    {
      var firsts := FirstsBy(Present(names), Normalize);
      var m := SpellingKept(Present(names), n);
      NormalizeOfTrim(firsts[m]);
      var t := TrimAll(firsts)[m];
      assert t in TrimAll(firsts);
      assert t in DistinctOtherPartners(names, saver);
    }
  }

  /** No two elements of the list share a key. */
  ghost predicate KeysOnce<T, K>(xs: seq<T>, key: T -> K) {
    forall i, j :: 0 <= i < j < |xs| ==> key(xs[i]) != key(xs[j])
  }

  lemma {:induction false} OtherPartnersSpelledOnce(names: seq<string>, saver: string)
    requires KeysOnce(names, Normalize)
    ensures KeysOnce(OtherPartners(names, saver), Normalize)
    decreases |names|
  {
    if names != [] {
      TailKeysOnce(names, Normalize);
      OtherPartnersSpelledOnce(names[1..], saver);
      var rest := OtherPartners(names[1..], saver);
      if Normalize(names[0]) != Normalize(saver) {
        assert forall n :: n in rest ==> n in names[1..];
        ConsKeysOnce(names[0], rest, Normalize);
      }
    }
  }

  lemma TailKeysOnce<T, K>(xs: seq<T>, key: T -> K)
    requires KeysOnce(xs, key) && xs != []
    ensures KeysOnce(xs[1..], key)
    ensures forall y :: y in xs[1..] ==> key(y) != key(xs[0])
  {
    forall i, j | 0 <= i < j < |xs[1..]|
      ensures key(xs[1..][i]) != key(xs[1..][j])
    {
      assert xs[1..][i] == xs[i + 1] && xs[1..][j] == xs[j + 1];
    }
    forall y | y in xs[1..]
      ensures key(y) != key(xs[0])
    {
      var k :| 0 <= k < |xs[1..]| && xs[1..][k] == y;
      assert xs[k + 1] == y;
    }
  }

  lemma ConsKeysOnce<T, K>(x: T, rest: seq<T>, key: T -> K)
    requires KeysOnce(rest, key)
    requires forall y :: y in rest ==> key(y) != key(x)
    ensures KeysOnce([x] + rest, key)
  {
    var r := [x] + rest;
    forall i, j | 0 <= i < j < |r|
      ensures key(r[i]) != key(r[j])
    {
      assert r[j] == rest[j - 1];
      if i > 0 {
        assert r[i] == rest[i - 1];
      }
    }
  }

  /** The propagation targets of the non-motor and LIC savers are spelled
      once each, so none is written twice. */
  lemma DistinctOtherPartnersOnce(names: seq<string>, saver: string)
    ensures forall i, j :: 0 <= i < j < |DistinctOtherPartners(names, saver)| ==>
              DistinctOtherPartners(names, saver)[i] != DistinctOtherPartners(names, saver)[j]
  {
    var firsts := FirstsBy(Present(names), Normalize);
    FirstsByMeaning(Present(names), Normalize);
    var trimmed := TrimAll(firsts);
    forall i, j | 0 <= i < j < |trimmed|
      ensures Normalize(trimmed[i]) != Normalize(trimmed[j])
    {
      NormalizeOfTrim(firsts[i]);
      NormalizeOfTrim(firsts[j]);
    }
    OtherPartnersSpelledOnce(trimmed, saver);
  }

  /** Every spelling in the scan has a first name in the map. */
  lemma SpellingKept(names: seq<string>, n: string) returns (m: nat)
    requires n in names
    ensures m < |FirstsBy(names, Normalize)| && Normalize(FirstsBy(names, Normalize)[m]) == Normalize(n)
  {
    FirstsByMeaning(names, Normalize);
    var j :| 0 <= j < |names| && names[j] == n;
    assert FirstIndex(names, Normalize(n), Normalize).Some?;
    m :| 0 <= m < |FirstsBy(names, Normalize)| && Normalize(FirstsBy(names, Normalize)[m]) == Normalize(n);
  }

  lemma NormalizeOfTrim(s: string)
    ensures Normalize(Trim(s)) == Normalize(s)
  {
    TrimOfTrimmed(Trim(s));
  }
}
