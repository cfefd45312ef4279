/** The dealer LIC commission controller: the upsert of a dealer's rule set
    for a `ddmmyyyy` date key, the GET of a dealer's set (the first one
    stored, or the one for a date), and the lookup of the latest set
    per dealer that offers a plan. */
module DealerLic {
  import opened Wrappers
  import opened Keyed
  import opened Store
  import opened AsOf
  import opened DateKeys
  import Sorting

  /** A dealer's LIC rule (`licRuleSchema`); a missing text is "", a missing
      number `None`. */
  datatype LicRule = LicRule(insuranceCompany: string, planName: string, termPpt: string,
                             fixed: Option<real>, percent: Option<real>)

  // ---------------------------------------------------------------------------
  // The save

  /** The request is refused without a dealer or without a date key. */
  predicate SaveRequestValid(dealerName: string, commissionDate: string) {
    dealerName != "" && DealerLicCleanDate(commissionDate).Some?
  }

  /** `saveLICBreakdown`: the dealer's items for the date key replaced, or a
      new set created; a write that throws (the dealer is in `failing`)
      answers 500 with nothing written. */
  function SaveResult(records: seq<Record<string, LicRule>>, dealerName: string, commissionDate: string,
                      items: seq<LicRule>, failing: set<string>, now: int)
    : (Response, seq<Record<string, LicRule>>)
  {
    if !SaveRequestValid(dealerName, commissionDate) then (BadRequest, records)
    else if dealerName in failing then (ServerError, records)
    else (Ok, Upserted(records, dealerName, DealerLicCleanDate(commissionDate).value, items, now))
  }

  method Save(store: Collection<string, LicRule>, dealerName: string, commissionDate: string,
              items: seq<LicRule>, failing: set<string>, now: int)
    returns (resp: Response)
    modifies store
    ensures (resp, store.records) == SaveResult(old(store.records), dealerName, commissionDate, items, failing, now)
  {
    var dateKey := DealerLicCleanDate(commissionDate);
    if dealerName == "" || dateKey.None? {
      return BadRequest;
    }
    if dealerName in failing {
      return ServerError;
    }
    store.Upsert(dealerName, dateKey.value, items, now);
    resp := Ok;
  }

  /** 400 exactly for an invalid request, 500 exactly when the write
      throws; nothing is written unless the answer is 200. */
  lemma SaveOutcome(records: seq<Record<string, LicRule>>, dealerName: string, commissionDate: string,
                    items: seq<LicRule>, failing: set<string>, now: int)
    ensures var (resp, r) := SaveResult(records, dealerName, commissionDate, items, failing, now);
      && (resp == BadRequest <==> !SaveRequestValid(dealerName, commissionDate))
      && (resp == Ok <==> SaveRequestValid(dealerName, commissionDate) && dealerName !in failing)
      && (resp != Ok ==> r == records)
      && (resp == Ok || resp == BadRequest || resp == ServerError)
  {
  }

  /** After a save the dealer's set for the key holds exactly the items,
      stamped now, and the set any other (dealer, key) finds is the one it
      found before. */
  lemma SaveStores(records: seq<Record<string, LicRule>>, dealerName: string, commissionDate: string,
                   items: seq<LicRule>, failing: set<string>, now: int)
    requires SaveRequestValid(dealerName, commissionDate) && dealerName !in failing
    ensures var key := DealerLicCleanDate(commissionDate).value;
      var r := SaveResult(records, dealerName, commissionDate, items, failing, now).1;
      && FindRecord(r, dealerName, key).Some?
      && r[FindRecord(r, dealerName, key).value] == Record(dealerName, key, items, now)
      && ItemsAt(r, dealerName, key) == items
      && (forall o, d :: (o, d) != (dealerName, key) ==> FindRecord(r, o, d) == FindRecord(records, o, d))
  {
    var key := DealerLicCleanDate(commissionDate).value;
    UpsertedMeaning(records, dealerName, key, items, now);
  }

  /** Saving the same set twice leaves what saving it once leaves. */
  lemma SaveTwice(records: seq<Record<string, LicRule>>, dealerName: string, commissionDate: string,
                  items: seq<LicRule>, failing: set<string>, now: int)
    ensures var once := SaveResult(records, dealerName, commissionDate, items, failing, now);
      SaveResult(once.1, dealerName, commissionDate, items, failing, now) == (once.0, once.1)
  {
    if SaveRequestValid(dealerName, commissionDate) && dealerName !in failing {
      var key := DealerLicCleanDate(commissionDate).value;
      var once := Upserted(records, dealerName, key, items, now);
      UpsertedMeaning(records, dealerName, key, items, now);
      var i := FindRecord(once, dealerName, key).value;
      assert once[i].(items := items, updatedAt := now) == once[i];
      assert once[i := once[i]] == once;
      assert Upserted(once, dealerName, key, items, now) == once;
      assert SaveResult(records, dealerName, commissionDate, items, failing, now) == (Ok, once);
    }
  }

  // ---------------------------------------------------------------------------
  // The GET of a dealer's set

  /** `findOne({dealerName})` with any sort on a field the schema does not
      declare (`updatedAt`, `date`): strict casting keeps such a field out
      of every stored set, so all sort keys are equal and the dealer's first
      set in store order is returned. */
  function FirstSet(records: seq<Record<string, LicRule>>, dealerName: string): Option<Record<string, LicRule>> {
    var own := OwnedBy(records, dealerName);
    if own == [] then None else Some(own[0])
  }

  /** `getLICBreakdown`: no rules without a dealer; with `fetchLatest` the
      items of the dealer's first stored set; otherwise those of the set for
      the date key, and none for a date that gives no key. */
  function Breakdown(records: seq<Record<string, LicRule>>, dealerName: string, date: string, fetchLatest: string)
    : seq<LicRule>
  {
    if dealerName == "" then []
    else if fetchLatest == "true" then
      match FirstSet(records, dealerName)
      case Some(doc) => doc.items
      case None => []
    else
      match DealerLicCleanDate(date)
      case Some(key) => ItemsAt(records, dealerName, key)
      case None => []
  }

  /** The set found is one of the dealer's, and no set of the dealer is
      stored before it; a dealer without sets has none. */
  lemma {:induction false} FirstSetMeaning(docs: seq<Record<string, LicRule>>, d: string)
    ensures FirstSet(docs, d).None? <==> forall j :: 0 <= j < |docs| ==> docs[j].owner != d
    ensures FirstSet(docs, d).Some? ==>
      exists i :: 0 <= i < |docs| && docs[i] == FirstSet(docs, d).value && docs[i].owner == d
        && forall j :: 0 <= j < i ==> docs[j].owner != d
    decreases |docs|
  {
    if docs != [] {
      FirstSetMeaning(docs[1..], d);
      if docs[0].owner != d {
        assert OwnedBy(docs, d) == OwnedBy(docs[1..], d);
        if FirstSet(docs, d).Some? {
          var i :| 0 <= i < |docs[1..]| && docs[1..][i] == FirstSet(docs, d).value && docs[1..][i].owner == d
            && forall j :: 0 <= j < i ==> docs[1..][j].owner != d;
          assert docs[i + 1] == docs[1..][i];
        } else {
          forall j | 0 <= j < |docs|
            ensures docs[j].owner != d
          {
            if j > 0 { assert docs[j] == docs[1..][j - 1]; }
          }
        }
      } else {
        assert FirstSet(docs, d).value == docs[0];
      }
    }
  }

  /** `fetchLatest` returns the set saved first, not the one saved last:
      after a set for one date and then a set for another date are saved
      for a dealer with no sets, it gives the first set's items. */
  lemma LatestIsFirstSaved(first: seq<LicRule>, second: seq<LicRule>, date1: string, date2: string,
                           t1: int, t2: int)
    requires SaveRequestValid("d", date1) && SaveRequestValid("d", date2)
    requires DealerLicCleanDate(date1) != DealerLicCleanDate(date2)
    ensures var once := SaveResult([], "d", date1, first, {}, t1).1;
      var twice := SaveResult(once, "d", date2, second, {}, t2).1;
      Breakdown(twice, "d", "", "true") == first
  {
    var k1, k2 := DealerLicCleanDate(date1).value, DealerLicCleanDate(date2).value;
    var once := SaveResult([], "d", date1, first, {}, t1).1;
    assert once == [Record("d", k1, first, t1)];
    assert FindRecord(once, "d", k2).None?;
    var twice := SaveResult(once, "d", date2, second, {}, t2).1;
    assert twice == once + [Record("d", k2, second, t2)];
    assert twice[1..] == [twice[1]];
    assert OwnedBy(twice, "d")[0] == twice[0];
  }

  /** Saving a set and reading back the same date gives the saved items. */
  lemma SaveThenBreakdown(records: seq<Record<string, LicRule>>, dealerName: string, commissionDate: string,
                          items: seq<LicRule>, failing: set<string>, now: int, fetchLatest: string)
    requires SaveRequestValid(dealerName, commissionDate) && dealerName !in failing
    requires fetchLatest != "true"
    ensures Breakdown(SaveResult(records, dealerName, commissionDate, items, failing, now).1,
                      dealerName, commissionDate, fetchLatest) == items
  {
    SaveStores(records, dealerName, commissionDate, items, failing, now);
  }

  // ---------------------------------------------------------------------------
  // The latest set per dealer for a plan

  /** An entry of `getLatestLICDealer`'s result. */
  datatype LatestDealer = LatestDealer(dealerName: string, company: string, commissionDate: string,
                                       commissionDetails: Option<LicRule>)

  function PlanOf(r: LicRule): string { r.planName }

  function DealerOf<T>(r: Record<string, T>): string { r.owner }

  /** `find({"items.planName": product})`: the sets with a rule for the plan,
      in store order. */
  function Matches(records: seq<Record<string, LicRule>>, product: string): (r: seq<Record<string, LicRule>>)
    ensures forall j :: 0 <= j < |r| ==> r[j] in records && Find(r[j].items, product, PlanOf).Some?
    ensures forall j :: 0 <= j < |records| && Find(records[j].items, product, PlanOf).Some? ==> records[j] in r
  {
    if records == [] then []
    else
      var rest := Matches(records[1..], product);
      assert forall j :: 1 <= j < |records| ==> records[j] == records[1..][j - 1];
      if Find(records[0].items, product, PlanOf).Some? then [records[0]] + rest else rest
  }

  /** The entry for a set: its dealer, "LIC", its date key and its first
      rule for the plan. */
  function EntryOf(doc: Record<string, LicRule>, product: string): LatestDealer {
    LatestDealer(doc.owner, "LIC", doc.dateKey, Find(doc.items, product, PlanOf))
  }

  function Entries(docs: seq<Record<string, LicRule>>, product: string): (r: seq<LatestDealer>)
    ensures |r| == |docs|
    ensures forall j :: 0 <= j < |docs| ==> r[j] == EntryOf(docs[j], product)
  {
    seq(|docs|, j requires 0 <= j < |docs| => EntryOf(docs[j], product))
  }

  /** `getLatestLICDealer`: 400 without a plan or a start date; otherwise
      the matching sets sorted by date key string, greatest first, and the
      first set of each dealer. The start date filters nothing. */
  function LatestDealers(records: seq<Record<string, LicRule>>, product: string, startDate: string)
    : (Response, seq<LatestDealer>)
  {
    if product == "" || startDate == "" then (BadRequest, [])
    else
      var sorted := Sorting.SortBy(Matches(records, product), LaterKey());
      (Ok, Entries(FirstsBy(sorted, DealerOf), product))
  }

  /** The handler's loop over the sorted sets, `uniqueDealers` kept as the
      set of names seen. */
  method GetLatestDealers(records: seq<Record<string, LicRule>>, product: string, startDate: string)
    returns (resp: Response, result: seq<LatestDealer>)
    ensures (resp, result) == LatestDealers(records, product, startDate)
  {
    if product == "" || startDate == "" {
      return BadRequest, [];
    }
    var matches := Matches(records, product);
    var sorted := Sorting.SortBy(matches, LaterKey());
    result := FirstsMapped(sorted, DealerOf, (doc: Record<string, LicRule>) => EntryOf(doc, product));
    assert result == Entries(FirstsBy(sorted, DealerOf), product);
    resp := Ok;
  }

  /** Without a plan or a start date the answer is 400. Otherwise each
      dealer with a set offering the plan appears exactly once, with the
      plan's rule from a set of its that offers the plan and whose date key
      string is not below that of any of its sets offering the plan;
      whatever the start date. */
  lemma {:induction false} LatestDealersMeaning(records: seq<Record<string, LicRule>>, product: string, startDate: string)
    ensures product == "" || startDate == "" ==> LatestDealers(records, product, startDate) == (BadRequest, [])
    ensures product != "" && startDate != "" ==>
      && LatestDealers(records, product, startDate).0 == Ok
      && DistinctDealers(LatestDealers(records, product, startDate).1)
      && CoversMatches(records, product, LatestDealers(records, product, startDate).1)
      && AllLatest(records, product, LatestDealers(records, product, startDate).1)
  {
    if product != "" && startDate != "" {
      var matches := Matches(records, product);
      var sorted := Sorting.SortBy(matches, LaterKey());
      EntriesDistinct(sorted, product);
      EntriesCover(records, product, sorted);
      LaterKeyWeak<LicRule>();
      Sorting.SortBySorted(matches, LaterKey());
      EntriesLatest(records, product, sorted);
    }
  }

  /** No dealer has two entries. */
  ghost predicate DistinctDealers(result: seq<LatestDealer>) {
    forall a, b :: 0 <= a < b < |result| ==> result[a].dealerName != result[b].dealerName
  }

  /** Every dealer with a set offering the plan has an entry. */
  ghost predicate CoversMatches(records: seq<Record<string, LicRule>>, product: string, result: seq<LatestDealer>) {
    forall x :: x in records && Find(x.items, product, PlanOf).Some? ==>
      exists k :: 0 <= k < |result| && result[k].dealerName == x.owner
  }

  /** Every entry comes from the latest set of its dealer offering the plan. */
  ghost predicate AllLatest(records: seq<Record<string, LicRule>>, product: string, result: seq<LatestDealer>) {
    forall k :: 0 <= k < |result| ==> IsLatestEntry(records, product, result[k])
  }

  lemma EntriesDistinct(sorted: seq<Record<string, LicRule>>, product: string)
    ensures DistinctDealers(Entries(FirstsBy(sorted, DealerOf), product))
  {
    FirstsByMeaning(sorted, DealerOf);
  }

  lemma EntriesCover(records: seq<Record<string, LicRule>>, product: string, sorted: seq<Record<string, LicRule>>)
    requires multiset(sorted) == multiset(Matches(records, product))
    ensures CoversMatches(records, product, Entries(FirstsBy(sorted, DealerOf), product))
  {
    var result := Entries(FirstsBy(sorted, DealerOf), product);
    forall x | x in records && Find(x.items, product, PlanOf).Some?
      ensures exists k :: 0 <= k < |result| && result[k].dealerName == x.owner
    {
      var k := EntryFor(records, product, sorted, x);
    }
  }

  /** A dealer with a matching set has an entry. */
  lemma EntryFor(records: seq<Record<string, LicRule>>, product: string, sorted: seq<Record<string, LicRule>>,
                 x: Record<string, LicRule>) returns (k: nat)
    requires multiset(sorted) == multiset(Matches(records, product))
    requires x in records && Find(x.items, product, PlanOf).Some?
    ensures k < |Entries(FirstsBy(sorted, DealerOf), product)|
    ensures Entries(FirstsBy(sorted, DealerOf), product)[k].dealerName == x.owner
  {
    var j :| 0 <= j < |records| && records[j] == x;
    assert x in multiset(sorted);
    var i :| 0 <= i < |sorted| && sorted[i] == x;
    k := FirstsByHasKey(sorted, DealerOf, i);
  }

  /** Every entry comes from the latest matching set of its dealer. */
  lemma EntriesLatest(records: seq<Record<string, LicRule>>, product: string, sorted: seq<Record<string, LicRule>>)
    requires multiset(sorted) == multiset(Matches(records, product))
    requires Sorting.Sorted(sorted, LaterKey())
    ensures AllLatest(records, product, Entries(FirstsBy(sorted, DealerOf), product))
  {
    var firsts := FirstsBy(sorted, DealerOf);
    var result := Entries(firsts, product);
    FirstsByMeaning(sorted, DealerOf);
    forall k | 0 <= k < |result|
      ensures IsLatestEntry(records, product, result[k])
    {
      var i := FirstIndex(sorted, DealerOf(firsts[k]), DealerOf).value;
      FirstOfOwnerIsLatest(sorted, i);
      LatestAmongMatches(records, product, sorted, sorted[i]);
    }
  }

  /** The entry comes from a set of the dealer that offers the plan and
      whose date key string no other such set of the dealer exceeds. */
  ghost predicate IsLatestEntry(records: seq<Record<string, LicRule>>, product: string, e: LatestDealer) {
    exists doc :: doc in records && doc.owner == e.dealerName && e == EntryOf(doc, product)
      && Find(doc.items, product, PlanOf).Some? && IsLatestMatch(records, product, doc)
  }

  ghost predicate IsLatestMatch(records: seq<Record<string, LicRule>>, product: string, doc: Record<string, LicRule>) {
    forall x :: x in records && x.owner == doc.owner && Find(x.items, product, PlanOf).Some? ==>
      !Sorting.StrLess(doc.dateKey, x.dateKey)
  }

  /** Carries the ordering fact from the sorted matches back to the store. */
  lemma LatestAmongMatches(records: seq<Record<string, LicRule>>, product: string,
                           sorted: seq<Record<string, LicRule>>, doc: Record<string, LicRule>)
    requires multiset(sorted) == multiset(Matches(records, product))
    requires doc in sorted
    requires forall x :: x in sorted && x.owner == doc.owner ==> !Sorting.StrLess(doc.dateKey, x.dateKey)
    ensures IsLatestEntry(records, product, EntryOf(doc, product))
  {
    var matches := Matches(records, product);
    assert doc in multiset(matches);
    var mi :| 0 <= mi < |matches| && matches[mi] == doc;
    forall x | x in records && x.owner == doc.owner && Find(x.items, product, PlanOf).Some?
      ensures !Sorting.StrLess(doc.dateKey, x.dateKey)
    {
      var j :| 0 <= j < |records| && records[j] == x;
      assert x in multiset(sorted);
    }
    assert IsLatestMatch(records, product, doc);
  }

  /** In a list sorted by date key string, greatest first, the first
      document of an owner has a key no other document of the owner
      exceeds. */
  lemma FirstOfOwnerIsLatest<T>(sorted: seq<Record<string, T>>, i: int)
    requires Sorting.Sorted(sorted, LaterKey())
    requires 0 <= i < |sorted| && FirstIndex(sorted, sorted[i].owner, DealerOf) == Some(i)
    ensures sorted[i] in sorted
    ensures forall x :: x in sorted && x.owner == sorted[i].owner ==> !Sorting.StrLess(sorted[i].dateKey, x.dateKey)
  {
    forall x | x in sorted && x.owner == sorted[i].owner
      ensures !Sorting.StrLess(sorted[i].dateKey, x.dateKey)
    {
      var t :| 0 <= t < |sorted| && sorted[t] == x;
      if t > i {
        assert !LaterKey()(sorted[t], sorted[i]);
      } else {
        assert t == i;
        Sorting.StrLessTotal();
      }
    }
  }
}
