/** The save of the GIC and health partner controllers: merge the items,
    with the "apply to all" flag cleared, into the saver's document for the
    date; then, when some items carry the flag, merge those (flag cleared)
    into the document for the same date of every other active partner. */
module PartnerSave {
  import opened Wrappers
  import opened Text
  import opened Merge
  import opened Keyed
  import opened Store

  /** `items.filter(item => item.applyToAllPartners)`. */
  function Flagged<T>(items: seq<T>, flag: T -> bool): (r: seq<T>)
    ensures |r| <= |items|
    ensures forall j :: 0 <= j < |r| ==> flag(r[j]) && r[j] in items
    ensures forall j :: 0 <= j < |items| && flag(items[j]) ==> items[j] in r
  {
    if items == [] then []
    else
      var rest := Flagged(items[1..], flag);
      assert forall j :: 1 <= j < |items| ==> items[j] == items[1..][j - 1];
      if flag(items[0]) then [items[0]] + rest else rest
  }

  /** `items.map(item => ({ ...item, applyToAllPartners: false }))`. */
  function Cleared<T>(items: seq<T>, clear: T -> T): (r: seq<T>)
    ensures |r| == |items|
    ensures forall j :: 0 <= j < |items| ==> r[j] == clear(items[j])
  {
    if items == [] then [] else [clear(items[0])] + Cleared(items[1..], clear)
  }

  /** The response and the documents after the save: the saver's write
      throwing ends it with nothing written. */
  function Saved<T, K(==)>(records: seq<Record<string, T>>, partner: string, dateKey: string, items: seq<T>,
                          flag: T -> bool, clear: T -> T,
                          key: T -> K, overwrite: (T, T) -> T, newItem: T -> T,
                          active: seq<string>, failing: set<string>, now: int)
    : (Response, seq<Record<string, T>>)
  {
    if partner in failing then (ServerError, records)
    else
      var mine := MergedInto(records, partner, dateKey, Cleared(items, clear), key, overwrite, newItem, now);
      var toAll := Flagged(items, flag);
      if toAll == [] then (Ok, mine)
      else MergeEach(mine, OtherPartners(active, partner), dateKey, Cleared(toAll, clear),
                     key, overwrite, newItem, failing, now)
  }

  method SaveAndPropagate<T, K(==)>(store: Collection<string, T>, partner: string, dateKey: string, items: seq<T>,
                                   flag: T -> bool, clear: T -> T,
                                   key: T -> K, overwrite: (T, T) -> T, newItem: T -> T,
                                   active: seq<string>, failing: set<string>, now: int)
    returns (resp: Response)
    modifies store
    ensures (resp, store.records) == Saved(old(store.records), partner, dateKey, items, flag, clear,
                                           key, overwrite, newItem, active, failing, now)
  {
    if partner in failing {
      return ServerError;
    }
    var _, _ := store.MergeInto(partner, dateKey, Cleared(items, clear), key, overwrite, newItem, now);
    var toAll := Flagged(items, flag);
    if toAll == [] {
      return Ok;
    }
    resp := store.MergeIntoEach(OtherPartners(active, partner), dateKey, Cleared(toAll, clear),
                                key, overwrite, newItem, failing, now);
  }

  // ---------------------------------------------------------------------------
  // What a save does

  /** The save answers a server error exactly when a write it makes throws:
      the saver's, or, when some item carries the flag, another active
      partner's. */
  lemma SavedResponse<T, K>(records: seq<Record<string, T>>, partner: string, dateKey: string, items: seq<T>,
                           flag: T -> bool, clear: T -> T,
                           key: T -> K, overwrite: (T, T) -> T, newItem: T -> T,
                           active: seq<string>, failing: set<string>, now: int)
    ensures var (resp, _) := Saved(records, partner, dateKey, items, flag, clear, key, overwrite, newItem, active, failing, now);
      && (resp == Ok || resp == ServerError)
      && (resp == Ok <==>
            partner !in failing
            && ((exists j :: 0 <= j < |items| && flag(items[j])) ==>
                  forall t :: t in OtherPartners(active, partner) ==> t !in failing))
  {
    if partner !in failing {
      var mine := MergedInto(records, partner, dateKey, Cleared(items, clear), key, overwrite, newItem, now);
      var toAll := Flagged(items, flag);
      MergeEachResponse(mine, OtherPartners(active, partner), dateKey, Cleared(toAll, clear),
                        key, overwrite, newItem, failing, now);
      if toAll != [] {
        assert flag(toAll[0]) && toAll[0] in items;
      }
    }
  }

  /** The writes of a save whose `save()` throws: those `failing` names,
      the saver's when the list it would write has an item the schema
      refuses, and each other active partner's when the list it would
      write does. A target is written after the saver's document, which is
      of another owner, and a name the list repeats meets a list the merge
      leaves as it is, so each list is the one merged into the documents
      before the save. */
  function SaveThrowing<T, K(==)>(records: seq<Record<string, T>>, partner: string, dateKey: string, items: seq<T>,
                                 flag: T -> bool, clear: T -> T,
                                 key: T -> K, overwrite: (T, T) -> T, newItem: T -> T,
                                 active: seq<string>, failing: set<string>, valid: T -> bool): set<string>
  {
    failing
    + Refused(records, [partner], dateKey, Cleared(items, clear), key, overwrite, newItem, valid)
    + Refused(records, OtherPartners(active, partner), dateKey, Cleared(Flagged(items, flag), clear),
              key, overwrite, newItem, valid)
  }

  /** With the schema's checks, the save answers a server error exactly when
      a write throws or the list the saver's write, or with flagged items a
      target's write, would store has an item the schema refuses. */
  lemma SavedChecked<T, K>(records: seq<Record<string, T>>, partner: string, dateKey: string, items: seq<T>,
                          flag: T -> bool, clear: T -> T,
                          key: T -> K, overwrite: (T, T) -> T, newItem: T -> T,
                          active: seq<string>, failing: set<string>, now: int, valid: T -> bool)
    ensures var throwing := SaveThrowing(records, partner, dateKey, items, flag, clear, key, overwrite, newItem,
                                         active, failing, valid);
      var (resp, _) := Saved(records, partner, dateKey, items, flag, clear, key, overwrite, newItem, active, throwing, now);
      && (resp == Ok || resp == ServerError)
      && (resp == Ok <==>
            && partner !in failing
            && Accepts(MergeAll(ItemsAt(records, partner, dateKey), Cleared(items, clear), key, overwrite, newItem), valid)
            && ((exists j :: 0 <= j < |items| && flag(items[j])) ==>
                  forall t :: t in OtherPartners(active, partner) ==>
                    && t !in failing
                    && Accepts(MergeAll(ItemsAt(records, t, dateKey), Cleared(Flagged(items, flag), clear),
                                        key, overwrite, newItem), valid)))
  {
    var throwing := SaveThrowing(records, partner, dateKey, items, flag, clear, key, overwrite, newItem,
                                 active, failing, valid);
    SavedResponse(records, partner, dateKey, items, flag, clear, key, overwrite, newItem, active, throwing, now);
    SaverIsNoTarget(active, partner);
  }

  /** The saver is never a propagation target. */
  lemma SaverIsNoTarget(active: seq<string>, partner: string)
    ensures partner !in OtherPartners(active, partner)
  {
  }

  /** After a save that did not fail on the saver's own write, the saver's
      document for the date holds the merge of what it held with the items,
      flags cleared. */
  lemma SaverGetsItems<T, K>(records: seq<Record<string, T>>, partner: string, dateKey: string, items: seq<T>,
                            flag: T -> bool, clear: T -> T,
                            key: T -> K, overwrite: (T, T) -> T, newItem: T -> T,
                            active: seq<string>, failing: set<string>, now: int)
    requires partner !in failing
    ensures var (_, r) := Saved(records, partner, dateKey, items, flag, clear, key, overwrite, newItem, active, failing, now);
      && FindRecord(r, partner, dateKey).Some?
      && ItemsAt(r, partner, dateKey) == MergeAll(ItemsAt(records, partner, dateKey), Cleared(items, clear), key, overwrite, newItem)
  {
    var mine := MergedInto(records, partner, dateKey, Cleared(items, clear), key, overwrite, newItem, now);
    var toAll := Flagged(items, flag);
    MergedIntoMeaning(records, partner, dateKey, Cleared(items, clear), key, overwrite, newItem, now);
    if toAll != [] {
      var targets := OtherPartners(active, partner);
      var r := MergeEach(mine, targets, dateKey, Cleared(toAll, clear), key, overwrite, newItem, failing, now).1;
      MergeEachFrame(mine, targets, dateKey, Cleared(toAll, clear), key, overwrite, newItem, failing, now);
      SaverIsNoTarget(active, partner);
      var i := FindRecord(mine, partner, dateKey).value;
      assert FindRecord(r, partner, dateKey) == Some(i);
      assert r[i] == mine[i];
    }
  }

  /** After a save that succeeded, every other active partner's document
      for the date holds the merge of what it held with the flagged items,
      flags cleared. */
  lemma OthersGetFlagged<T(!new), K(!new)>(records: seq<Record<string, T>>, partner: string, dateKey: string, items: seq<T>,
                                         flag: T -> bool, clear: T -> T,
                                         key: T -> K, overwrite: (T, T) -> T, newItem: T -> T,
                                         active: seq<string>, failing: set<string>, now: int, t: string)
    requires Lawful(key, overwrite, newItem)
    requires Saved(records, partner, dateKey, items, flag, clear, key, overwrite, newItem, active, failing, now).0 == Ok
    requires exists j :: 0 <= j < |items| && flag(items[j])
    requires t in OtherPartners(active, partner)
    ensures var (_, r) := Saved(records, partner, dateKey, items, flag, clear, key, overwrite, newItem, active, failing, now);
      && FindRecord(r, t, dateKey).Some?
      && ItemsAt(r, t, dateKey) == MergeAll(ItemsAt(records, t, dateKey), Cleared(Flagged(items, flag), clear), key, overwrite, newItem)
  {
    SavedResponse(records, partner, dateKey, items, flag, clear, key, overwrite, newItem, active, failing, now);
    var mine := MergedInto(records, partner, dateKey, Cleared(items, clear), key, overwrite, newItem, now);
    var toAll := Flagged(items, flag);
    var j :| 0 <= j < |items| && flag(items[j]);
    assert items[j] in toAll;
    var targets := OtherPartners(active, partner);
    MergedIntoMeaning(records, partner, dateKey, Cleared(items, clear), key, overwrite, newItem, now);
    MergeEachMerges(mine, targets, dateKey, Cleared(toAll, clear), key, overwrite, newItem, failing, now, t);
    SaverIsNoTarget(active, partner);
    assert FindRecord(mine, t, dateKey) == FindRecord(records, t, dateKey);
    if FindRecord(records, t, dateKey).Some? {
      var i := FindRecord(records, t, dateKey).value;
      assert Slot(records[i]) != (partner, dateKey);
      assert mine[i] == records[i];
    }
  }

  /** A save without flagged items writes the saver's document only. */
  lemma UnflaggedSaveWritesOnlySaver<T, K>(records: seq<Record<string, T>>, partner: string, dateKey: string, items: seq<T>,
                                          flag: T -> bool, clear: T -> T,
                                          key: T -> K, overwrite: (T, T) -> T, newItem: T -> T,
                                          active: seq<string>, failing: set<string>, now: int)
    requires forall j :: 0 <= j < |items| ==> !flag(items[j])
    ensures var (_, r) := Saved(records, partner, dateKey, items, flag, clear, key, overwrite, newItem, active, failing, now);
      && |records| <= |r|
      && forall j :: 0 <= j < |records| && Slot(records[j]) != (partner, dateKey) ==> r[j] == records[j]
  {
    MergedIntoMeaning(records, partner, dateKey, Cleared(items, clear), key, overwrite, newItem, now);
  }

  /** Documents of other dates, and of partners that were not written, keep
      their place and content. */
  lemma SaveFrame<T, K>(records: seq<Record<string, T>>, partner: string, dateKey: string, items: seq<T>,
                       flag: T -> bool, clear: T -> T,
                       key: T -> K, overwrite: (T, T) -> T, newItem: T -> T,
                       active: seq<string>, failing: set<string>, now: int)
    ensures var (_, r) := Saved(records, partner, dateKey, items, flag, clear, key, overwrite, newItem, active, failing, now);
      && |records| <= |r|
      && forall j :: 0 <= j < |records| && (records[j].dateKey != dateKey
                       || (records[j].owner != partner && records[j].owner !in OtherPartners(active, partner)))
           ==> r[j] == records[j]
  {
    if partner !in failing {
      var mine := MergedInto(records, partner, dateKey, Cleared(items, clear), key, overwrite, newItem, now);
      var toAll := Flagged(items, flag);
      MergedIntoMeaning(records, partner, dateKey, Cleared(items, clear), key, overwrite, newItem, now);
      if toAll != [] {
        MergeEachFrame(mine, OtherPartners(active, partner), dateKey, Cleared(toAll, clear), key, overwrite, newItem, failing, now);
      }
    }
  }

  /** The flag is never stored set: when no stored item carries it before a
      save, none carries it after, whichever writes failed. */
  lemma FlagNeverStored<T(!new), K>(records: seq<Record<string, T>>, partner: string, dateKey: string, items: seq<T>,
                                   flag: T -> bool, clear: T -> T,
                                   key: T -> K, overwrite: (T, T) -> T, newItem: T -> T,
                                   active: seq<string>, failing: set<string>, now: int)
    requires forall x :: !flag(clear(x))
    requires forall a, b :: !flag(a) && !flag(b) ==> !flag(overwrite(a, b))
    requires forall x :: !flag(x) ==> !flag(newItem(x))
    requires AllItems(records, (x: T) => !flag(x))
    ensures AllItems(Saved(records, partner, dateKey, items, flag, clear, key, overwrite, newItem, active, failing, now).1,
                     (x: T) => !flag(x))
  {
    var off := (x: T) => !flag(x);
    if partner !in failing {
      var batch := Cleared(items, clear);
      ClearedHas(items, clear, off);
      MergedIntoKeeps(records, partner, dateKey, batch, key, overwrite, newItem, now, off, off);
      var mine := MergedInto(records, partner, dateKey, batch, key, overwrite, newItem, now);
      var toAll := Flagged(items, flag);
      if toAll != [] {
        ClearedHas(toAll, clear, off);
        MergeEachKeeps(mine, OtherPartners(active, partner), dateKey, Cleared(toAll, clear),
                       key, overwrite, newItem, failing, now, off, off);
      }
    }
  }

  /** Clearing gives items with `q` when every cleared item has it. */
  lemma ClearedHas<T>(items: seq<T>, clear: T -> T, q: T -> bool)
    requires forall x :: q(clear(x))
    ensures forall m :: 0 <= m < |Cleared(items, clear)| ==> q(Cleared(items, clear)[m])
  {
    var c := Cleared(items, clear);
    forall m | 0 <= m < |c|
      ensures q(c[m])
    {
      assert c[m] == clear(items[m]);
    }
  }

  // ---------------------------------------------------------------------------
  // The non-motor and LIC save

  /** The non-motor and LIC savers: the saver's item list for the date is
      replaced wholesale by `mine`; then, when the batch of flagged rules is
      not empty, it is merged into the document for the same date of every
      partner the scan found (`names`), each spelling once, the saver left
      out. */
  function Replaced<T, K(==)>(records: seq<Record<string, T>>, partner: string, dateKey: string, mine: seq<T>,
                             batch: seq<T>, key: T -> K, overwrite: (T, T) -> T, newItem: T -> T,
                             names: seq<string>, failing: set<string>, now: int)
    : (Response, seq<Record<string, T>>)
  {
    if partner in failing then (ServerError, records)
    else
      var saved := Upserted(records, partner, dateKey, mine, now);
      if batch == [] then (Ok, saved)
      else MergeEach(saved, DistinctOtherPartners(names, partner), dateKey, batch, key, overwrite, newItem, failing, now)
  }

  method ReplaceAndPropagate<T, K(==)>(store: Collection<string, T>, partner: string, dateKey: string, mine: seq<T>,
                                      batch: seq<T>, key: T -> K, overwrite: (T, T) -> T, newItem: T -> T,
                                      names: seq<string>, failing: set<string>, now: int)
    returns (resp: Response)
    modifies store
    ensures (resp, store.records) == Replaced(old(store.records), partner, dateKey, mine, batch,
                                              key, overwrite, newItem, names, failing, now)
  {
    if partner in failing {
      return ServerError;
    }
    store.Upsert(partner, dateKey, mine, now);
    if batch == [] {
      return Ok;
    }
    resp := store.MergeIntoEach(DistinctOtherPartners(names, partner), dateKey, batch,
                                key, overwrite, newItem, failing, now);
  }

  /** The save answers a server error exactly when a write it makes throws:
      the saver's, or, with a non-empty batch, a target's. */
  lemma ReplacedResponse<T, K>(records: seq<Record<string, T>>, partner: string, dateKey: string, mine: seq<T>,
                               batch: seq<T>, key: T -> K, overwrite: (T, T) -> T, newItem: T -> T,
                               names: seq<string>, failing: set<string>, now: int)
    ensures var (resp, _) := Replaced(records, partner, dateKey, mine, batch, key, overwrite, newItem, names, failing, now);
      && (resp == Ok || resp == ServerError)
      && (resp == Ok <==>
            partner !in failing
            && (batch != [] ==> forall t :: t in DistinctOtherPartners(names, partner) ==> t !in failing))
  {
    if partner !in failing {
      MergeEachResponse(Upserted(records, partner, dateKey, mine, now), DistinctOtherPartners(names, partner),
                        dateKey, batch, key, overwrite, newItem, failing, now);
    }
  }

  /** The saver is never a target of the propagation. */
  lemma SaverIsNoDistinctTarget(names: seq<string>, partner: string)
    ensures partner !in DistinctOtherPartners(names, partner)
  {
    DistinctOtherPartnersMeaning(names, partner);
  }

  /** Unless the saver's own write throws, the saver's document for the date
      holds exactly `mine`, whatever it held before, stamped `now`. */
  lemma ReplacedSaver<T, K>(records: seq<Record<string, T>>, partner: string, dateKey: string, mine: seq<T>,
                            batch: seq<T>, key: T -> K, overwrite: (T, T) -> T, newItem: T -> T,
                            names: seq<string>, failing: set<string>, now: int)
    requires partner !in failing
    ensures var (_, r) := Replaced(records, partner, dateKey, mine, batch, key, overwrite, newItem, names, failing, now);
      && FindRecord(r, partner, dateKey).Some?
      && r[FindRecord(r, partner, dateKey).value] == Record(partner, dateKey, mine, now)
      && ItemsAt(r, partner, dateKey) == mine
  {
    var saved := Upserted(records, partner, dateKey, mine, now);
    UpsertedMeaning(records, partner, dateKey, mine, now);
    if batch != [] {
      var targets := DistinctOtherPartners(names, partner);
      SaverIsNoDistinctTarget(names, partner);
      MergeEachFrame(saved, targets, dateKey, batch, key, overwrite, newItem, failing, now);
    }
  }

  /** After a save that succeeded with a non-empty batch, every target's
      document for the date exists and holds what it held (or nothing)
      with the batch merged in. */
  lemma ReplacedTargets<T, K>(records: seq<Record<string, T>>, partner: string, dateKey: string, mine: seq<T>,
                              batch: seq<T>, key: T -> K, overwrite: (T, T) -> T, newItem: T -> T,
                              names: seq<string>, failing: set<string>, now: int, t: string)
    requires Replaced(records, partner, dateKey, mine, batch, key, overwrite, newItem, names, failing, now).0 == Ok
    requires batch != [] && t in DistinctOtherPartners(names, partner)
    ensures var (_, r) := Replaced(records, partner, dateKey, mine, batch, key, overwrite, newItem, names, failing, now);
      && FindRecord(r, t, dateKey).Some?
      && ItemsAt(r, t, dateKey) == MergeAll(ItemsAt(records, t, dateKey), batch, key, overwrite, newItem)
  {
    ReplacedResponse(records, partner, dateKey, mine, batch, key, overwrite, newItem, names, failing, now);
    var saved := Upserted(records, partner, dateKey, mine, now);
    var targets := DistinctOtherPartners(names, partner);
    UpsertedMeaning(records, partner, dateKey, mine, now);
    DistinctOtherPartnersOnce(names, partner);
    MergeEachMergesOnce(saved, targets, dateKey, batch, key, overwrite, newItem, failing, now, t);
    SaverIsNoDistinctTarget(names, partner);
    assert FindRecord(saved, t, dateKey) == FindRecord(records, t, dateKey);
    if FindRecord(records, t, dateKey).Some? {
      var i := FindRecord(records, t, dateKey).value;
      assert Slot(records[i]) != (partner, dateKey);
      assert saved[i] == records[i];
    }
  }

  /** Documents of other dates, and of owners neither the saver nor a
      target, keep their place and content. */
  lemma ReplacedFrame<T, K>(records: seq<Record<string, T>>, partner: string, dateKey: string, mine: seq<T>,
                            batch: seq<T>, key: T -> K, overwrite: (T, T) -> T, newItem: T -> T,
                            names: seq<string>, failing: set<string>, now: int)
    ensures var (_, r) := Replaced(records, partner, dateKey, mine, batch, key, overwrite, newItem, names, failing, now);
      && |records| <= |r|
      && forall j :: 0 <= j < |records| && (records[j].dateKey != dateKey
                       || (records[j].owner != partner && records[j].owner !in DistinctOtherPartners(names, partner)))
           ==> r[j] == records[j]
  {
    if partner !in failing {
      var saved := Upserted(records, partner, dateKey, mine, now);
      UpsertedMeaning(records, partner, dateKey, mine, now);
      if batch != [] {
        MergeEachFrame(saved, DistinctOtherPartners(names, partner), dateKey, batch, key, overwrite, newItem, failing, now);
      }
    }
  }

  /** A property of items every stored item has keeps holding when `mine`
      has it and the merge keeps it for batch items with `q`. */
  lemma ReplacedKeeps<T(!new), K>(records: seq<Record<string, T>>, partner: string, dateKey: string, mine: seq<T>,
                                  batch: seq<T>, key: T -> K, overwrite: (T, T) -> T, newItem: T -> T,
                                  names: seq<string>, failing: set<string>, now: int, p: T -> bool, q: T -> bool)
    requires forall a, b :: p(a) && q(b) ==> p(overwrite(a, b))
    requires forall x :: q(x) ==> p(newItem(x))
    requires AllItems(records, p)
    requires forall m :: 0 <= m < |mine| ==> p(mine[m])
    requires forall m :: 0 <= m < |batch| ==> q(batch[m])
    ensures AllItems(Replaced(records, partner, dateKey, mine, batch, key, overwrite, newItem, names, failing, now).1, p)
  {
    if partner !in failing {
      var saved := Upserted(records, partner, dateKey, mine, now);
      UpsertedKeeps(records, partner, dateKey, mine, now, p);
      if batch != [] {
        MergeEachKeeps(saved, DistinctOtherPartners(names, partner), dateKey, batch, key, overwrite, newItem,
                       failing, now, p, q);
      }
    }
  }

  /** Repeating a save that succeeded, at the same moment, succeeds again
      and leaves every document as the first save left it: the saver's set
      is the same list, and no target gains an item. */
  lemma {:induction false} ReplacedRepeat<T(!new), K(!new)>(records: seq<Record<string, T>>, partner: string, dateKey: string,
                                                           mine: seq<T>, batch: seq<T>, key: T -> K, overwrite: (T, T) -> T,
                                                           newItem: T -> T, names: seq<string>, failing: set<string>, now: int)
    requires LawfulOn(key, overwrite, newItem, batch)
    requires Replaced(records, partner, dateKey, mine, batch, key, overwrite, newItem, names, failing, now).0 == Ok
    ensures var once := Replaced(records, partner, dateKey, mine, batch, key, overwrite, newItem, names, failing, now).1;
      Replaced(once, partner, dateKey, mine, batch, key, overwrite, newItem, names, failing, now) == (Ok, once)
  {
    var once := Replaced(records, partner, dateKey, mine, batch, key, overwrite, newItem, names, failing, now).1;
    ReplacedResponse(records, partner, dateKey, mine, batch, key, overwrite, newItem, names, failing, now);
    ReplacedResponse(once, partner, dateKey, mine, batch, key, overwrite, newItem, names, failing, now);
    ReplacedSaver(records, partner, dateKey, mine, batch, key, overwrite, newItem, names, failing, now);
    var i := FindRecord(once, partner, dateKey).value;
    assert Upserted(once, partner, dateKey, mine, now) == once[i := once[i].(items := mine, updatedAt := now)];
    assert once[i := once[i].(items := mine, updatedAt := now)] == once;
    if batch != [] {
      var targets := DistinctOtherPartners(names, partner);
      forall t | t in targets
        ensures FindRecord(once, t, dateKey).Some?
        ensures MergeAll(ItemsAt(once, t, dateKey), batch, key, overwrite, newItem) == ItemsAt(once, t, dateKey)
      {
        ReplacedTargets(records, partner, dateKey, mine, batch, key, overwrite, newItem, names, failing, now, t);
        MergeTwiceOn(ItemsAt(records, t, dateKey), batch, key, overwrite, newItem);
      }
      MergeEachFixpoint(once, targets, dateKey, batch, key, overwrite, newItem, failing, now);
    }
  }

  /** The targets whose `save()` rejects the list it would write: the merge
      of what they hold with the batch has an item the schema refuses. */
  function Refused<T, K(==)>(records: seq<Record<string, T>>, targets: seq<string>, dateKey: string, batch: seq<T>,
                            key: T -> K, overwrite: (T, T) -> T, newItem: T -> T, valid: T -> bool): set<string>
  {
    set t | t in targets && !Accepts(MergeAll(ItemsAt(records, t, dateKey), batch, key, overwrite, newItem), valid)
  }

  /** The repeat with the targets' writes validated: the second save meets
      the lists the first one wrote, which the batch leaves as they are, so
      it refuses exactly the targets the first one refused, none. */
  lemma ReplacedRepeatChecked<T(!new), K(!new)>(records: seq<Record<string, T>>, partner: string, dateKey: string,
                                               mine: seq<T>, batch: seq<T>, key: T -> K, overwrite: (T, T) -> T,
                                               newItem: T -> T, names: seq<string>, failing: set<string>, now: int,
                                               valid: T -> bool)
    requires LawfulOn(key, overwrite, newItem, batch)
    requires Replaced(records, partner, dateKey, mine, batch, key, overwrite, newItem, names,
                      failing + Refused(records, DistinctOtherPartners(names, partner), dateKey, batch, key, overwrite, newItem, valid),
                      now).0 == Ok
    ensures var once := Replaced(records, partner, dateKey, mine, batch, key, overwrite, newItem, names,
                                 failing + Refused(records, DistinctOtherPartners(names, partner), dateKey, batch,
                                                   key, overwrite, newItem, valid), now).1;
      Replaced(once, partner, dateKey, mine, batch, key, overwrite, newItem, names,
               failing + Refused(once, DistinctOtherPartners(names, partner), dateKey, batch, key, overwrite, newItem, valid),
               now) == (Ok, once)
  {
    var targets := DistinctOtherPartners(names, partner);
    var f1 := failing + Refused(records, targets, dateKey, batch, key, overwrite, newItem, valid);
    var once := Replaced(records, partner, dateKey, mine, batch, key, overwrite, newItem, names, f1, now).1;
    var f2 := failing + Refused(once, targets, dateKey, batch, key, overwrite, newItem, valid);
    ReplacedRepeat(records, partner, dateKey, mine, batch, key, overwrite, newItem, names, f1, now);
    SaverIsNoDistinctTarget(names, partner);
    if batch != [] {
      forall t | t in targets
        ensures Accepts(MergeAll(ItemsAt(once, t, dateKey), batch, key, overwrite, newItem), valid)
            == Accepts(MergeAll(ItemsAt(records, t, dateKey), batch, key, overwrite, newItem), valid)
      {
        ReplacedTargets(records, partner, dateKey, mine, batch, key, overwrite, newItem, names, f1, now, t);
        MergeTwiceOn(ItemsAt(records, t, dateKey), batch, key, overwrite, newItem);
      }
      RefusedAgree(once, records, targets, dateKey, batch, key, overwrite, newItem, valid);
    } else {
      assert partner !in f2;
      assert Replaced(once, partner, dateKey, mine, batch, key, overwrite, newItem, names, f2, now)
          == (Ok, Upserted(once, partner, dateKey, mine, now));
      assert Replaced(once, partner, dateKey, mine, batch, key, overwrite, newItem, names, f1, now)
          == (Ok, Upserted(once, partner, dateKey, mine, now));
    }
  }

  /** Stores whose targets accept the same lists refuse the same targets. */
  lemma RefusedAgree<T, K>(a: seq<Record<string, T>>, b: seq<Record<string, T>>, targets: seq<string>, dateKey: string,
                           batch: seq<T>, key: T -> K, overwrite: (T, T) -> T, newItem: T -> T, valid: T -> bool)
    requires forall t :: t in targets ==>
               Accepts(MergeAll(ItemsAt(a, t, dateKey), batch, key, overwrite, newItem), valid)
               == Accepts(MergeAll(ItemsAt(b, t, dateKey), batch, key, overwrite, newItem), valid)
    ensures Refused(a, targets, dateKey, batch, key, overwrite, newItem, valid)
         == Refused(b, targets, dateKey, batch, key, overwrite, newItem, valid)
  {
  }
}
