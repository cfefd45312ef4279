/** The dealer non-motor commission controller: the same-day replace of a
    dealer's rule set, the GET of a dealer's set (latest, or for a day), and
    the payout lookup that finds, per dealer, the set in force on a risk
    start date and the rule for a product in it. Dates are the moments
    `getStartOfDay` gives, in milliseconds. */
module DealerNonMotor {
  import opened Wrappers
  import opened Text
  import opened Keyed
  import opened Store
  import opened AsOf
  import opened DateKeys
  import Sorting

  /** A dealer's non-motor rule (`ruleSchema`); numbers are JSON numbers,
      `None` when missing. */
  datatype DealerRule = DealerRule(
    company: string, product: string, policyType: string,
    minPremium: Option<real>, maxPremium: Option<real>,
    fixedAmount: Option<real>, percentage: Option<real>)

  /** What `getApplicableDealerRule` returns. */
  datatype Applicable = Applicable(dealerName: string, company: string, product: string, commissionDate: int)

  // ---------------------------------------------------------------------------
  // The rule in force on a risk start date

  function ProductKey(r: DealerRule): string { ToLower(r.product) }

  /** `getApplicableDealerRule(records, product, riskStartDate)`: nothing
      for an invalid date; `parsed` is what `new Date(riskStartDate)` gives. */
  function ApplicableRule(records: seq<Record<int, DealerRule>>, product: string,
                          riskStartDate: string, parsed: Option<int>): Option<Applicable>
  {
    match GetStartOfDay(riskStartDate, parsed)
    case None => None
    case Some(rDate) => ApplicableOn(records, product, rDate)
  }

  /** The latest entry dated no later than the day `rDate`, and in it the
      first rule for the product, compared lowercased. */
  function ApplicableOn(records: seq<Record<int, DealerRule>>, product: string, rDate: int): Option<Applicable> {
    match Newest(UpTo(records, rDate))
    case None => None
    case Some(latest) =>
      match Find(latest.items, ToLower(product), ProductKey)
      case None => None
      case Some(rule) => Some(Applicable(latest.owner, rule.company, rule.product, latest.dateKey))
  }

  /** The entry `getApplicableDealerRule` looks in: dated no later than the
      day, and no such entry is later. */
  ghost predicate LatestEntry(records: seq<Record<int, DealerRule>>, rDate: int, e: Record<int, DealerRule>) {
    && e in records && e.dateKey <= rDate
    && forall x :: x in records && x.dateKey <= rDate ==> x.dateKey <= e.dateKey
  }

  /** There is no result for an invalid date or when no entry is dated on or
      before the day. Otherwise the result comes from a latest entry, and
      exists exactly when that entry has a rule for the product: an older
      entry that has one is never used instead. */
  lemma ApplicableRuleMeaning(records: seq<Record<int, DealerRule>>, product: string,
                              riskStartDate: string, parsed: Option<int>)
    ensures GetStartOfDay(riskStartDate, parsed).None? ==> ApplicableRule(records, product, riskStartDate, parsed).None?
    ensures GetStartOfDay(riskStartDate, parsed).Some? ==>
      ApplicableRule(records, product, riskStartDate, parsed)
      == ApplicableOn(records, product, GetStartOfDay(riskStartDate, parsed).value)
  {
  }

  lemma ApplicableOnMeaning(records: seq<Record<int, DealerRule>>, product: string, rDate: int)
    ensures (forall x :: x in records ==> x.dateKey > rDate) ==> ApplicableOn(records, product, rDate).None?
    ensures (exists x :: x in records && x.dateKey <= rDate) ==>
      var a := ApplicableOn(records, product, rDate);
      exists e :: LatestEntry(records, rDate, e)
        && (a.Some? <==> exists rule :: rule in e.items && ToLower(rule.product) == ToLower(product))
        && (a.Some? ==> a.value.dealerName == e.owner && a.value.commissionDate == e.dateKey
                        && exists rule :: rule in e.items && ToLower(rule.product) == ToLower(product)
                             && a.value.company == rule.company && a.value.product == rule.product)
  {
    if exists x :: x in records && x.dateKey <= rDate {
      var e := LatestOfValid(records, rDate);
      ProductRule(e.items, product);
      var a := ApplicableOn(records, product, rDate);
      assert a == match Find(e.items, ToLower(product), ProductKey)
                  case None => None
                  case Some(rule) => Some(Applicable(e.owner, rule.company, rule.product, e.dateKey));
    }
  }

  /** With an entry on or before the day, `Newest` finds a latest one. */
  lemma LatestOfValid(records: seq<Record<int, DealerRule>>, rDate: int) returns (e: Record<int, DealerRule>)
    requires exists x :: x in records && x.dateKey <= rDate
    ensures Newest(UpTo(records, rDate)) == Some(e)
    ensures LatestEntry(records, rDate, e)
  {
    var valid := UpTo(records, rDate);
    var x :| x in records && x.dateKey <= rDate;
    var j :| 0 <= j < |records| && records[j] == x;
    assert x in valid;
    NewestMeaning(valid);
    e := Newest(valid).value;
    assert e in valid;
    forall y | y in records && y.dateKey <= rDate
      ensures y.dateKey <= e.dateKey
    {
      var k :| 0 <= k < |records| && records[k] == y;
      assert y in valid;
    }
  }

  /** `find` of the product finds a rule exactly when one of the entry's
      rules is for the product. */
  lemma ProductRule(items: seq<DealerRule>, product: string)
    ensures Find(items, ToLower(product), ProductKey).Some? <==>
      exists rule :: rule in items && ToLower(rule.product) == ToLower(product)
    ensures Find(items, ToLower(product), ProductKey).Some? ==>
      var rule := Find(items, ToLower(product), ProductKey).value;
      rule in items && ToLower(rule.product) == ToLower(product)
  {
    if exists rule :: rule in items && ToLower(rule.product) == ToLower(product) {
      var rule :| rule in items && ToLower(rule.product) == ToLower(product);
      var m :| 0 <= m < |items| && items[m] == rule;
      assert ProductKey(items[m]) == ToLower(product);
    }
  }

  /** The result of a dealer's own entries names that dealer. */
  lemma ApplicableOwner(records: seq<Record<int, DealerRule>>, dealer: string, product: string,
                        riskStartDate: string, parsed: Option<int>)
    requires forall j :: 0 <= j < |records| ==> records[j].owner == dealer
    ensures ApplicableRule(records, product, riskStartDate, parsed).Some? ==>
      ApplicableRule(records, product, riskStartDate, parsed).value.dealerName == dealer
  {
    if GetStartOfDay(riskStartDate, parsed).Some? {
      var valid := UpTo(records, GetStartOfDay(riskStartDate, parsed).value);
      NewestMeaning(valid);
      if valid != [] {
        var e := valid[Sorting.FirstMaxIndex(valid, DateOf)];
        assert e in records;
        var j :| 0 <= j < |records| && records[j] == e;
      }
    }
  }

  // ---------------------------------------------------------------------------
  // The payout lookup

  /** The entry list for the dealers `names`, in order, when `entry(d)` is
      dealer `d`'s applicable rule, if any. */
  function RowsFor(names: seq<string>, entry: string -> Option<Applicable>): seq<Applicable>
    decreases |names|
  {
    if names == [] then []
    else
      var n := |names| - 1;
      RowsFor(names[..n], entry) + OptList(entry(names[n]))
  }

  function OptList(a: Option<Applicable>): seq<Applicable> {
    if a.Some? then [a.value] else []
  }

  /** Each dealer's applicable rule, looked up in the dealer's group. */
  function EntryFn(sorted: seq<Record<int, DealerRule>>, product: string,
                   riskStartDate: string, parsed: Option<int>): string -> Option<Applicable>
  {
    d => ApplicableRule(OwnedBy(sorted, d), product, riskStartDate, parsed)
  }

  /** The entries of the payout list for the dealers `names`, in order. */
  function PayoutRows(names: seq<string>, sorted: seq<Record<int, DealerRule>>, product: string,
                      riskStartDate: string, parsed: Option<int>): seq<Applicable>
  {
    RowsFor(names, EntryFn(sorted, product, riskStartDate, parsed))
  }

  lemma RowsForSnoc(names: seq<string>, d: string, entry: string -> Option<Applicable>)
    ensures RowsFor(names + [d], entry) == RowsFor(names, entry) + OptList(entry(d))
  {
    assert (names + [d])[..|names|] == names;
  }

  /** Every entry, when there is one, names its own dealer. */
  ghost predicate NamesOwner(entry: string -> Option<Applicable>) {
    forall d :: entry(d).Some? ==> entry(d).value.dealerName == d
  }

  /** `getNonMotorDealerPayout`: nothing without a product or a risk start
      date; otherwise the records sorted newest first, grouped by dealer,
      and one entry per dealer whose group has a rule for the product. */
  function DealerPayout(records: seq<Record<int, DealerRule>>, product: string,
                        riskStartDate: string, parsed: Option<int>): seq<Applicable>
  {
    if product == "" || riskStartDate == "" then []
    else
      var sorted := NewestFirst(records);
      PayoutRows(Owners(sorted), sorted, product, riskStartDate, parsed)
  }

  /** `OwnedBy` grows with the list it filters. */
  lemma {:induction false} OwnedBySnoc(docs: seq<Record<int, DealerRule>>, x: Record<int, DealerRule>, d: string)
    ensures OwnedBy(docs + [x], d) == OwnedBy(docs, d) + (if x.owner == d then [x] else [])
    decreases |docs|
  {
    if docs != [] {
      assert (docs + [x])[1..] == docs[1..] + [x];
      OwnedBySnoc(docs[1..], x, d);
    }
  }

  /** What `dealerMap` holds after the scan of `docs`: each dealer seen,
      in the order first seen, with its documents in scan order. */
  ghost predicate Grouped(groups: map<string, seq<Record<int, DealerRule>>>, order: seq<string>,
                          docs: seq<Record<int, DealerRule>>) {
    && order == Owners(docs)
    && (forall d :: d in groups <==> d in order)
    && (forall d :: d in groups ==> groups[d] == OwnedBy(docs, d))
  }

  /** One step of the scan: the dealer's list is created when new, then
      the record is pushed onto it. */
  lemma GroupedStep(groups0: map<string, seq<Record<int, DealerRule>>>, order0: seq<string>,
                    docs: seq<Record<int, DealerRule>>, rec: Record<int, DealerRule>,
                    groups: map<string, seq<Record<int, DealerRule>>>, order: seq<string>)
    requires Grouped(groups0, order0, docs)
    requires groups == if rec.owner in groups0 then groups0 else groups0[rec.owner := []]
    requires order == if rec.owner in groups0 then order0 else order0 + [rec.owner]
    ensures Grouped(groups[rec.owner := groups[rec.owner] + [rec]], order, docs + [rec])
  {
    var docs', o := docs + [rec], rec.owner;
    var g' := groups[o := groups[o] + [rec]];
    assert docs'[..|docs|] == docs;
    assert o in Owners(docs) <==> o in groups0;
    assert Owners(docs') == order;
    forall d | d in g'
      ensures g'[d] == OwnedBy(docs', d)
    {
      OwnedBySnoc(docs, rec, d);
      if d == o && o !in groups0 {
        OwnedByNone(docs, o);
      }
    }
  }

  /** After the scan, every dealer named has its group. */
  lemma GroupedCovers(groups: map<string, seq<Record<int, DealerRule>>>, order: seq<string>,
                      docs: seq<Record<int, DealerRule>>)
    requires Grouped(groups, order, docs)
    ensures order == Owners(docs)
    ensures forall d :: d in order ==> d in groups && groups[d] == OwnedBy(docs, d)
  {
  }

  /** `getNonMotorDealerPayout`: the records sorted newest first, the loop
      that fills `dealerMap`, and the one that walks it. */
  method GetDealerPayout(records: seq<Record<int, DealerRule>>, product: string,
                         riskStartDate: string, parsed: Option<int>)
    returns (rows: seq<Applicable>)
    ensures rows == DealerPayout(records, product, riskStartDate, parsed)
  {
    if product == "" || riskStartDate == "" {
      return [];
    }
    var sorted := NewestFirst(records);
    var groups, order := GroupByDealer(sorted);
    GroupedCovers(groups, order, sorted);
    rows := WalkGroups(groups, order, sorted, product, riskStartDate, parsed);
  }

  /** `sorted.forEach(...)` filling `dealerMap`: each dealer's records, in
      scan order, under the dealer's name, dealers in the order first seen. */
  method GroupByDealer(sorted: seq<Record<int, DealerRule>>)
    returns (groups: map<string, seq<Record<int, DealerRule>>>, order: seq<string>)
    ensures Grouped(groups, order, sorted)
  {
    groups, order := map[], [];
    var i := 0;
    while i < |sorted|
      invariant 0 <= i <= |sorted|
      invariant Grouped(groups, order, sorted[..i])
    {
      var rec := sorted[i];
      ghost var groups0, order0 := groups, order;
      if rec.owner !in groups {
        groups := groups[rec.owner := []];
        order := order + [rec.owner];
      }
      groups := groups[rec.owner := groups[rec.owner] + [rec]];
      GroupedAt(groups0, order0, sorted, i, groups, order);
      i := i + 1;
    }
    assert sorted[..i] == sorted;
  }

  /** The scan's step at index `i`, as the loop of `GroupByDealer` takes it. */
  lemma GroupedAt(groups0: map<string, seq<Record<int, DealerRule>>>, order0: seq<string>,
                  sorted: seq<Record<int, DealerRule>>, i: int,
                  groups: map<string, seq<Record<int, DealerRule>>>, order: seq<string>)
    requires 0 <= i < |sorted| && Grouped(groups0, order0, sorted[..i])
    requires var o := sorted[i].owner;
      var g := if o in groups0 then groups0 else groups0[o := []];
      groups == g[o := g[o] + [sorted[i]]]
    requires order == if sorted[i].owner in groups0 then order0 else order0 + [sorted[i].owner]
    ensures Grouped(groups, order, sorted[..i + 1])
  {
    var o := sorted[i].owner;
    var g := if o in groups0 then groups0 else groups0[o := []];
    PrefixSnoc(sorted, i);
    GroupedStep(groups0, order0, sorted[..i], sorted[i], g, order);
  }

  /** `dealerMap.forEach(...)`: one entry per dealer whose group has an
      applicable rule, in the map's order. */
  method WalkGroups(groups: map<string, seq<Record<int, DealerRule>>>, order: seq<string>,
                    sorted: seq<Record<int, DealerRule>>, product: string,
                    riskStartDate: string, parsed: Option<int>)
    returns (rows: seq<Applicable>)
    requires forall d :: d in order ==> d in groups && groups[d] == OwnedBy(sorted, d)
    ensures rows == PayoutRows(order, sorted, product, riskStartDate, parsed)
  {
    rows := [];
    var k := 0;
    while k < |order|
      invariant 0 <= k <= |order|
      invariant rows == PayoutRows(order[..k], sorted, product, riskStartDate, parsed)
    {
      ghost var entry := EntryFn(sorted, product, riskStartDate, parsed);
      assert order[..k + 1] == order[..k] + [order[k]];
      RowsForSnoc(order[..k], order[k], entry);
      var group := groups[order[k]];
      assert group == OwnedBy(sorted, order[k]);
      var applicable := ApplicableRule(group, product, riskStartDate, parsed);
      assert applicable == entry(order[k]);
      if applicable.Some? {
        rows := rows + [applicable.value];
      }
      k := k + 1;
    }
    assert order[..k] == order;
  }

  /** A dealer the scan has not named yet has no entry in the scan. */
  lemma {:induction false} OwnedByNone(docs: seq<Record<int, DealerRule>>, d: string)
    requires d !in Owners(docs)
    ensures OwnedBy(docs, d) == []
    decreases |docs|
  {
    if docs != [] {
      var n := |docs| - 1;
      assert docs == docs[..n] + [docs[n]];
      OwnedByNone(docs[..n], d);
      OwnedBySnoc(docs[..n], docs[n], d);
    }
  }

  /** Each entry is the entry of one of the named dealers, and every named
      dealer that has an entry has it in the list. */
  lemma {:induction false} RowsForMeaning(names: seq<string>, entry: string -> Option<Applicable>)
    requires NamesOwner(entry)
    ensures var rows := RowsFor(names, entry);
      && (forall k :: 0 <= k < |rows| ==> rows[k].dealerName in names && entry(rows[k].dealerName) == Some(rows[k]))
      && (forall d :: d in names && entry(d).Some? ==> entry(d).value in rows)
    decreases |names|
  {
    if names != [] {
      var n := |names| - 1;
      var pre, d := names[..n], names[n];
      assert names == pre + [d];
      RowsForMeaning(pre, entry);
      RowsForSnoc(pre, d, entry);
      var before := RowsFor(pre, entry);
      var rows := RowsFor(names, entry);
      assert forall k :: 0 <= k < |before| ==> rows[k] == before[k];
      forall k | 0 <= k < |rows|
        ensures rows[k].dealerName in names && entry(rows[k].dealerName) == Some(rows[k])
      {
        if k < |before| {
          assert rows[k].dealerName in pre;
        } else {
          assert rows[k] == entry(d).value;
        }
      }
      forall e | e in names && entry(e).Some?
        ensures entry(e).value in rows
      {
        if e in pre {
          var k :| 0 <= k < |before| && before[k] == entry(e).value;
          assert rows[k] == entry(e).value;
        } else {
          assert rows[|rows| - 1] == entry(d).value;
        }
      }
    }
  }

  /** Distinct names give entries of distinct dealers. */
  lemma {:induction false} RowsForDistinct(names: seq<string>, entry: string -> Option<Applicable>)
    requires NamesOwner(entry)
    requires forall a, b :: 0 <= a < b < |names| ==> names[a] != names[b]
    ensures var rows := RowsFor(names, entry);
      forall a, b :: 0 <= a < b < |rows| ==> rows[a].dealerName != rows[b].dealerName
    decreases |names|
  {
    if names != [] {
      var n := |names| - 1;
      var pre, d := names[..n], names[n];
      assert names == pre + [d];
      assert forall a :: 0 <= a < |pre| ==> pre[a] == names[a];
      assert d !in pre;
      RowsForDistinct(pre, entry);
      RowsForMeaning(pre, entry);
      RowsForSnoc(pre, d, entry);
      var before := RowsFor(pre, entry);
      var rows := RowsFor(names, entry);
      forall a, b | 0 <= a < b < |rows|
        ensures rows[a].dealerName != rows[b].dealerName
      {
        assert rows[a] == before[a];
        if b < |before| {
          assert rows[b] == before[b];
        } else {
          assert rows[a].dealerName in pre;
          assert rows[b] == entry(d).value;
        }
      }
    }
  }

  /** A dealer's looked-up rule names that dealer. */
  lemma EntryFnNamesOwner(sorted: seq<Record<int, DealerRule>>, product: string,
                          riskStartDate: string, parsed: Option<int>)
    ensures NamesOwner(EntryFn(sorted, product, riskStartDate, parsed))
  {
    forall d
      ensures var a := ApplicableRule(OwnedBy(sorted, d), product, riskStartDate, parsed);
        a.Some? ==> a.value.dealerName == d
    {
      ApplicableOwner(OwnedBy(sorted, d), d, product, riskStartDate, parsed);
    }
  }

  /** The row at `k` belongs to one of the names and is that name's entry. */
  lemma RowsForAt(names: seq<string>, entry: string -> Option<Applicable>, k: nat)
    requires NamesOwner(entry) && k < |RowsFor(names, entry)|
    ensures RowsFor(names, entry)[k].dealerName in names
    ensures entry(RowsFor(names, entry)[k].dealerName) == Some(RowsFor(names, entry)[k])
  {
    RowsForMeaning(names, entry);
  }

  /** Each entry belongs to one of the named dealers and is that dealer's
      applicable rule, and every named dealer whose group has a rule has
      its entry. */
  lemma PayoutRowsMeaning(names: seq<string>, sorted: seq<Record<int, DealerRule>>, product: string,
                          riskStartDate: string, parsed: Option<int>)
    ensures var rows := PayoutRows(names, sorted, product, riskStartDate, parsed);
      && (forall k :: 0 <= k < |rows| ==>
            (rows[k].dealerName in names
             && Some(rows[k]) == ApplicableRule(OwnedBy(sorted, rows[k].dealerName), product, riskStartDate, parsed)))
      && (forall d :: d in names && ApplicableRule(OwnedBy(sorted, d), product, riskStartDate, parsed).Some?
            ==> ApplicableRule(OwnedBy(sorted, d), product, riskStartDate, parsed).value in rows)
  {
    var entry := EntryFn(sorted, product, riskStartDate, parsed);
    EntryFnNamesOwner(sorted, product, riskStartDate, parsed);
    RowsForMeaning(names, entry);
    var rows := RowsFor(names, entry);
    forall k | 0 <= k < |rows|
      ensures Some(rows[k]) == ApplicableRule(OwnedBy(sorted, rows[k].dealerName), product, riskStartDate, parsed)
    {
      RowsForAt(names, entry, k);
      assert entry(rows[k].dealerName) == Some(rows[k]);
    }
    forall d | d in names && ApplicableRule(OwnedBy(sorted, d), product, riskStartDate, parsed).Some?
      ensures ApplicableRule(OwnedBy(sorted, d), product, riskStartDate, parsed).value in rows
    {
      assert entry(d) == ApplicableRule(OwnedBy(sorted, d), product, riskStartDate, parsed);
    }
  }

  /** Distinct names give entries of distinct dealers. */
  lemma PayoutRowsDistinct(names: seq<string>, sorted: seq<Record<int, DealerRule>>, product: string,
                           riskStartDate: string, parsed: Option<int>)
    requires forall a, b :: 0 <= a < b < |names| ==> names[a] != names[b]
    ensures var rows := PayoutRows(names, sorted, product, riskStartDate, parsed);
      forall a, b :: 0 <= a < b < |rows| ==> rows[a].dealerName != rows[b].dealerName
  {
    var entry := EntryFn(sorted, product, riskStartDate, parsed);
    EntryFnNamesOwner(sorted, product, riskStartDate, parsed);
    RowsForDistinct(names, entry);
    assert PayoutRows(names, sorted, product, riskStartDate, parsed) == RowsFor(names, entry);
  }

  /** The payout list is empty without a product or a risk start date;
      otherwise it holds, for each dealer with records, that dealer's
      applicable rule when there is one, each dealer at most once. */
  lemma {:induction false} DealerPayoutMeaning(records: seq<Record<int, DealerRule>>, product: string,
                                               riskStartDate: string, parsed: Option<int>)
    ensures product == "" || riskStartDate == "" ==> DealerPayout(records, product, riskStartDate, parsed) == []
    ensures product != "" && riskStartDate != "" ==>
      var rows := DealerPayout(records, product, riskStartDate, parsed);
      && (forall k :: 0 <= k < |rows| ==>
            ((exists x :: x in records && x.owner == rows[k].dealerName)
             && Some(rows[k]) == ApplicableRule(OwnedBy(NewestFirst(records), rows[k].dealerName), product, riskStartDate, parsed)))
      && (forall d :: (exists x :: x in records && x.owner == d)
                      && ApplicableRule(OwnedBy(NewestFirst(records), d), product, riskStartDate, parsed).Some?
            ==> ApplicableRule(OwnedBy(NewestFirst(records), d), product, riskStartDate, parsed).value in rows)
      && (forall a, b :: 0 <= a < b < |rows| ==> rows[a].dealerName != rows[b].dealerName)
  {
    if product != "" && riskStartDate != "" {
      var sorted := NewestFirst(records);
      var names := Owners(sorted);
      var rows := DealerPayout(records, product, riskStartDate, parsed);
      assert rows == PayoutRows(names, sorted, product, riskStartDate, parsed);
      NewestFirstMeaning(records);
      OwnersMeaning(sorted);
      PayoutRowsMeaning(names, sorted, product, riskStartDate, parsed);
      PayoutRowsDistinct(names, sorted, product, riskStartDate, parsed);
      forall k | 0 <= k < |rows|
        ensures exists x :: x in records && x.owner == rows[k].dealerName
      {
        assert rows[k].dealerName in names;
        var x :| x in sorted && x.owner == rows[k].dealerName;
        assert x in records;
      }
      forall d | (exists x :: x in records && x.owner == d)
        ensures d in names
      {
        var x :| x in records && x.owner == d;
        assert x in sorted;
      }
    }
  }

  // ---------------------------------------------------------------------------
  // The save

  predicate SaveRequestValid(dealerName: string, date: string, parsed: Option<int>) {
    dealerName != "" && GetStartOfDay(date, parsed).Some?
  }

  function OnDay(day: int): int -> bool { (d: int) => d == day }

  /** `saveNonMotorBreakdown`: 400 without a dealer or a valid date; a
      `deleteMany` that throws (the dealer is in `failing`) answers 500 with
      nothing written; otherwise the dealer's sets for the day are deleted
      and one set holding `items` is created, unless that `create` throws
      (the dealer is in `createFailing`), which answers 500 with the day's
      sets gone. */
  function SaveResult(records: seq<Record<int, DealerRule>>, dealerName: string, date: string, parsed: Option<int>,
                      items: seq<DealerRule>, failing: set<string>, createFailing: set<string>, now: int)
    : (Response, seq<Record<int, DealerRule>>)
  {
    if !SaveRequestValid(dealerName, date, parsed) then (BadRequest, records)
    else if dealerName in failing then (ServerError, records)
    else
      var day := GetStartOfDay(date, parsed).value;
      var cleared := Without(records, dealerName, OnDay(day));
      if dealerName in createFailing then (ServerError, cleared)
      else (Ok, cleared + [Record(dealerName, day, items, now)])
  }

  method Save(store: Collection<int, DealerRule>, dealerName: string, date: string, parsed: Option<int>,
              items: seq<DealerRule>, failing: set<string>, createFailing: set<string>, now: int)
    returns (resp: Response)
    modifies store
    ensures (resp, store.records) == SaveResult(old(store.records), dealerName, date, parsed, items, failing, createFailing, now)
  {
    var dateKey := GetStartOfDay(date, parsed);
    if dealerName == "" || dateKey.None? {
      return BadRequest;
    }
    if dealerName in failing {
      return ServerError;
    }
    store.DeleteDay(dealerName, OnDay(dateKey.value));
    if dealerName in createFailing {
      return ServerError;
    }
    store.Insert(Record(dealerName, dateKey.value, items, now));
    resp := Ok;
  }

  /** 400 exactly for an invalid request, writing nothing; 200 exactly
      when neither write throws; a throwing `deleteMany` writes nothing,
      a throwing `create` leaves the dealer no set on the day and every
      other set in place. */
  lemma SaveOutcome(records: seq<Record<int, DealerRule>>, dealerName: string, date: string, parsed: Option<int>,
                    items: seq<DealerRule>, failing: set<string>, createFailing: set<string>, now: int)
    ensures var (resp, r) := SaveResult(records, dealerName, date, parsed, items, failing, createFailing, now);
      && (resp == BadRequest <==> !SaveRequestValid(dealerName, date, parsed))
      && (resp == Ok <==> SaveRequestValid(dealerName, date, parsed)
                          && dealerName !in failing && dealerName !in createFailing)
      && (resp == BadRequest || resp == Ok || resp == ServerError)
      && (resp == BadRequest || dealerName in failing ==> r == records)
      && (resp == ServerError && dealerName !in failing ==>
            var day := GetStartOfDay(date, parsed).value;
            && (forall x :: x in r ==> x in records && (x.owner != dealerName || x.dateKey != day))
            && (forall x :: x in records && (x.owner != dealerName || x.dateKey != day) ==> x in r))
  {
    if SaveRequestValid(dealerName, date, parsed) && dealerName !in failing {
      var day := GetStartOfDay(date, parsed).value;
      WithoutMeaning(records, dealerName, OnDay(day));
      var cleared := Without(records, dealerName, OnDay(day));
      forall x | x in records && (x.owner != dealerName || x.dateKey != day)
        ensures x in cleared
      {
        var j :| 0 <= j < |records| && records[j] == x;
      }
      forall x | x in cleared
        ensures x.owner != dealerName || x.dateKey != day
      {
        var j :| 0 <= j < |cleared| && cleared[j] == x;
      }
    }
  }

  /** After a save the dealer has exactly one set on the day, holding the
      items; every set of another dealer or another day is still there. */
  lemma SaveLeavesOne(records: seq<Record<int, DealerRule>>, dealerName: string, date: string, parsed: Option<int>,
                      items: seq<DealerRule>, failing: set<string>, createFailing: set<string>, now: int)
    requires SaveRequestValid(dealerName, date, parsed) && dealerName !in failing && dealerName !in createFailing
    ensures var day := GetStartOfDay(date, parsed).value;
      var (resp, r) := SaveResult(records, dealerName, date, parsed, items, failing, createFailing, now);
      && resp == Ok
      && (forall x :: x in r && x.owner == dealerName && x.dateKey == day ==> x == Record(dealerName, day, items, now))
      && Record(dealerName, day, items, now) in r
      && (forall x :: x in records && (x.owner != dealerName || x.dateKey != day) ==> x in r)
      && (forall x :: x in r && x != Record(dealerName, day, items, now) ==> x in records)
  {
    var day := GetStartOfDay(date, parsed).value;
    WithoutMeaning(records, dealerName, OnDay(day));
    ReplaceDayLeavesOne(records, dealerName, OnDay(day), Record(dealerName, day, items, now));
    var r := SaveResult(records, dealerName, date, parsed, items, failing, createFailing, now).1;
    assert r == Without(records, dealerName, OnDay(day)) + [Record(dealerName, day, items, now)];
    forall x | x in records && (x.owner != dealerName || x.dateKey != day)
      ensures x in r
    {
      var j :| 0 <= j < |records| && records[j] == x;
    }
  }

  // ---------------------------------------------------------------------------
  // The GET of a dealer's set

  /** The documents dated exactly `day`. */
  function DatedOn(docs: seq<Record<int, DealerRule>>, day: int): (r: seq<Record<int, DealerRule>>)
    ensures forall j :: 0 <= j < |r| ==> r[j] in docs && r[j].dateKey == day
    ensures forall j :: 0 <= j < |docs| && docs[j].dateKey == day ==> docs[j] in r
  {
    if docs == [] then []
    else
      var rest := DatedOn(docs[1..], day);
      assert forall j :: 1 <= j < |docs| ==> docs[j] == docs[1..][j - 1];
      if docs[0].dateKey == day then [docs[0]] + rest else rest
  }

  function RulesOf(doc: Option<Record<int, DealerRule>>): seq<DealerRule> {
    if doc.Some? then doc.value.items else []
  }

  /** `getNonMotorBreakdown`: 400 without a dealer; with `fetchLatest` the
      dealer's latest set; otherwise the set of the requested day, or the
      latest set when the date is not valid; no set gives no rules. */
  function Breakdown(records: seq<Record<int, DealerRule>>, dealerName: string, date: string, parsed: Option<int>,
                     fetchLatest: string): (Response, seq<DealerRule>)
  {
    if dealerName == "" then (BadRequest, [])
    else if fetchLatest == "true" then (Ok, RulesOf(Newest(OwnedBy(records, dealerName))))
    else match GetStartOfDay(date, parsed)
      case Some(day) => (Ok, RulesOf(Newest(DatedOn(OwnedBy(records, dealerName), day))))
      case None => (Ok, RulesOf(Newest(OwnedBy(records, dealerName))))
  }

  /** The latest set is the dealer's, and no set of the dealer is later; the
      dealer without sets gets no rules. */
  lemma BreakdownLatest(records: seq<Record<int, DealerRule>>, dealerName: string, date: string, parsed: Option<int>,
                        fetchLatest: string)
    requires dealerName != ""
    requires fetchLatest == "true" || GetStartOfDay(date, parsed).None?
    ensures var (resp, rules) := Breakdown(records, dealerName, date, parsed, fetchLatest);
      && resp == Ok
      && ((forall x :: x in records ==> x.owner != dealerName) ==> rules == [])
      && ((exists x :: x in records && x.owner == dealerName) ==>
            exists e :: e in records && e.owner == dealerName && rules == e.items
              && forall x :: x in records && x.owner == dealerName ==> x.dateKey <= e.dateKey)
  {
    var own := OwnedBy(records, dealerName);
    NewestMeaning(own);
    if exists x :: x in records && x.owner == dealerName {
      var x :| x in records && x.owner == dealerName;
      var j :| 0 <= j < |records| && records[j] == x;
      assert x in own;
      var e := Newest(own).value;
      assert e in own;
      forall y | y in records && y.owner == dealerName
        ensures y.dateKey <= e.dateKey
      {
        var k :| 0 <= k < |records| && records[k] == y;
        assert y in own;
      }
    }
  }

  /** Saving a set for a day and reading that day back gives the saved
      rules. */
  lemma SaveThenBreakdown(records: seq<Record<int, DealerRule>>, dealerName: string, date: string, parsed: Option<int>,
                          items: seq<DealerRule>, failing: set<string>, createFailing: set<string>, now: int,
                          fetchLatest: string)
    requires SaveRequestValid(dealerName, date, parsed) && dealerName !in failing && dealerName !in createFailing
    requires fetchLatest != "true"
    ensures var r := SaveResult(records, dealerName, date, parsed, items, failing, createFailing, now).1;
      Breakdown(r, dealerName, date, parsed, fetchLatest) == (Ok, items)
  {
    var day := GetStartOfDay(date, parsed).value;
    var rec := Record(dealerName, day, items, now);
    var r := SaveResult(records, dealerName, date, parsed, items, failing, createFailing, now).1;
    SaveLeavesOne(records, dealerName, date, parsed, items, failing, createFailing, now);
    var on := DatedOn(OwnedBy(r, dealerName), day);
    assert Breakdown(r, dealerName, date, parsed, fetchLatest) == (Ok, RulesOf(Newest(on)));
    var k :| 0 <= k < |r| && r[k] == rec;
    assert rec in OwnedBy(r, dealerName);
    var m :| 0 <= m < |OwnedBy(r, dealerName)| && OwnedBy(r, dealerName)[m] == rec;
    assert rec in on;
    NewestMeaning(on);
    var e := Newest(on).value;
    assert e in on;
    assert e in OwnedBy(r, dealerName);
  }
}
