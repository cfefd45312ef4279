/** The dealer expense controller's breakdown handlers: the same-day
    replace of a dealer's GIC breakdown, the save of a partner's
    percentages with the dealer's percentage as a ceiling, and the view
    that lays a partner's percentages over the dealer's breakdown, sorted
    by company, product and coverage. Moments are milliseconds; `parsed`
    is what `new Date(date)` gives (`None` for an invalid date). */
module DealerExpense {
  import opened Wrappers
  import opened Text
  import opened Keyed
  import opened Store
  import opened DateKeys
  import opened GicRules
  import PartnerSave
  import Sorting

  // ---------------------------------------------------------------------------
  // The day window

  /** `date: {$gte: startOfDay, $lte: endOfDay}` for the day starting at `start`. */
  function InDay(start: int): int -> bool {
    (d: int) => start <= d <= start + MsPerDay - 1
  }

  /** The window of a moment's day holds exactly the moments of that day. */
  lemma InDayIsSameDay(t: int, d: int)
    ensures InDay(StartOfDay(t))(d) <==> StartOfDay(d) == StartOfDay(t)
  {
    SameDay(t, d);
  }

  // ---------------------------------------------------------------------------
  // The dealer's breakdown

  /** `OnNet: item.OnNet || item.percentOnNet || false` and the same for
      `percentOnNet`. */
  function Unify(x: GicItem): GicItem {
    x.(onNet := x.onNet || x.percentOnNet, percentOnNet := x.onNet || x.percentOnNet)
  }

  lemma UnifyMeaning(x: GicItem)
    ensures Unify(x).onNet == Unify(x).percentOnNet == (x.onNet || x.percentOnNet)
    ensures Unify(x).(onNet := x.onNet, percentOnNet := x.percentOnNet) == x
    ensures Unify(Unify(x)) == Unify(x)
  {
  }

  /** `saveBreakdown`: 400 without a dealer or a date. An invalid date
      makes the delete throw: 500, nothing written. Otherwise the sets of
      the trimmed dealer name on the day are deleted; then the new set is
      created (201), or, with no items list, `items.map` throws after the
      delete (500). A dealer in `failing` has its first write throw, one in
      `createFailing` its second, after the delete (500). */
  function SaveBreakdownResult(docs: seq<Record<int, GicItem>>, dealerName: string, commissionDate: string,
                               parsed: Option<int>, items: Option<seq<GicItem>>, failing: set<string>,
                               createFailing: set<string>, now: int)
    : (Response, seq<Record<int, GicItem>>)
  {
    if dealerName == "" || commissionDate == "" then (BadRequest, docs)
    else if parsed.None? || Trim(dealerName) in failing then (ServerError, docs)
    else
      var t := parsed.value;
      var cleared := Without(docs, Trim(dealerName), InDay(StartOfDay(t)));
      if items.None? || Trim(dealerName) in createFailing then (ServerError, cleared)
      else (Created, cleared + [Record(Trim(dealerName), t, PartnerSave.Cleared(items.value, Unify), now)])
  }

  method SaveBreakdown(store: Collection<int, GicItem>, dealerName: string, commissionDate: string,
                       parsed: Option<int>, items: Option<seq<GicItem>>, failing: set<string>,
                               createFailing: set<string>, now: int)
    returns (resp: Response)
    modifies store
    ensures (resp, store.records) == SaveBreakdownResult(old(store.records), dealerName, commissionDate, parsed, items, failing, createFailing, now)
  {
    if dealerName == "" || commissionDate == "" {
      return BadRequest;
    }
    var safe := Trim(dealerName);
    if parsed.None? || safe in failing {
      return ServerError;
    }
    var t := parsed.value;
    store.DeleteDay(safe, InDay(StartOfDay(t)));
    if items.None? || safe in createFailing {
      return ServerError;
    }
    store.Insert(Record(safe, t, PartnerSave.Cleared(items.value, Unify), now));
    resp := Created;
  }

  /** 400 exactly without a dealer or a date; 201 exactly for a valid
      request with a date, an items list and no failing write; only a
      missing items list or a failing create writes anything without
      answering 201. */
  lemma SaveBreakdownOutcome(docs: seq<Record<int, GicItem>>, dealerName: string, commissionDate: string,
                             parsed: Option<int>, items: Option<seq<GicItem>>, failing: set<string>,
                               createFailing: set<string>, now: int)
    ensures var (resp, r) := SaveBreakdownResult(docs, dealerName, commissionDate, parsed, items, failing, createFailing, now);
      && (resp == BadRequest <==> dealerName == "" || commissionDate == "")
      && (resp == Created <==> dealerName != "" && commissionDate != "" && parsed.Some?
                               && Trim(dealerName) !in failing && items.Some?
                               && Trim(dealerName) !in createFailing)
      && (resp == BadRequest || resp == Created || resp == ServerError)
      && (resp != Created && r != docs ==> items.None? || Trim(dealerName) in createFailing)
  {
  }

  /** After a created save the trimmed dealer has exactly one set on the
      day, holding the items with their flags unified; every set of
      another dealer or another day is still there. Without an items list,
      or when the create throws, the day's sets are gone and none is
      created. */
  lemma SaveBreakdownLeavesOne(docs: seq<Record<int, GicItem>>, dealerName: string, commissionDate: string,
                               parsed: Option<int>, items: Option<seq<GicItem>>, failing: set<string>,
                               createFailing: set<string>, now: int)
    requires dealerName != "" && commissionDate != "" && parsed.Some? && Trim(dealerName) !in failing
    ensures var t := parsed.value;
      var (resp, r) := SaveBreakdownResult(docs, dealerName, commissionDate, parsed, items, failing, createFailing, now);
      var rec := Record(Trim(dealerName), t, PartnerSave.Cleared(items.GetOr([]), Unify), now);
      var made := items.Some? && Trim(dealerName) !in createFailing;
      && (forall x :: x in r && x.owner == Trim(dealerName) && StartOfDay(x.dateKey) == StartOfDay(t) ==>
            made && x == rec)
      && (made ==> rec in r)
      && (forall x :: x in docs && (x.owner != Trim(dealerName) || StartOfDay(x.dateKey) != StartOfDay(t)) ==> x in r)
      && (forall x :: x in r && x != rec ==> x in docs)
  {
    var t := parsed.value;
    var safe := Trim(dealerName);
    var hit := InDay(StartOfDay(t));
    WithoutMeaning(docs, safe, hit);
    var cleared := Without(docs, safe, hit);
    var r := SaveBreakdownResult(docs, dealerName, commissionDate, parsed, items, failing, createFailing, now).1;
    var rec := Record(safe, t, PartnerSave.Cleared(items.GetOr([]), Unify), now);
    forall x | x in r && x.owner == safe && StartOfDay(x.dateKey) == StartOfDay(t)
      ensures items.Some? && safe !in createFailing && x == rec
    {
      InDayIsSameDay(t, x.dateKey);
    }
    forall x | x in docs && (x.owner != safe || StartOfDay(x.dateKey) != StartOfDay(t))
      ensures x in r
    {
      InDayIsSameDay(t, x.dateKey);
      var j :| 0 <= j < |docs| && docs[j] == x;
    }
  }

  // ---------------------------------------------------------------------------
  // The partner's percentages

  /** A partner's rule: the fields the handlers read, and the two
      percentages (`None` when missing or not a number). */
  datatype PartnerItem = PartnerItem(
    company: string, product: string, coverage: string, fuel: string, vehicleModel: string,
    partnerPercent: Option<real>, dealerPercent: Option<real>)

  /** The normalised fields the ceiling check compares. */
  datatype CeilingKey = CeilingKey(company: string, product: string, coverage: string, fuel: string, vehicleModel: string)

  function RuleCeilingKey(r: GicItem): CeilingKey {
    CeilingKey(Normalize(r.company), Normalize(r.product), Normalize(r.coverage), Normalize(r.fuel), Normalize(r.vehicleModel))
  }

  function ItemCeilingKey(x: PartnerItem): CeilingKey {
    CeilingKey(Normalize(x.company), Normalize(x.product), Normalize(x.coverage), Normalize(x.fuel), Normalize(x.vehicleModel))
  }

  /** `dealerRule ? (parseFloat(dealerRule.percent) || 0) : 0`. */
  function Ceiling(rules: seq<GicItem>, x: PartnerItem): real {
    match Find(rules, ItemCeilingKey(x), RuleCeilingKey)
    case Some(r) => r.percent
    case None => 0.0
  }

  /** The ceiling is the percentage of the first dealer rule with the same
      company, product, coverage, fuel and model, and 0 when none has them. */
  lemma CeilingMeaning(rules: seq<GicItem>, x: PartnerItem)
    ensures (forall r :: r in rules ==> RuleCeilingKey(r) != ItemCeilingKey(x)) ==> Ceiling(rules, x) == 0.0
    ensures (exists r :: r in rules && RuleCeilingKey(r) == ItemCeilingKey(x)) ==>
      exists j :: 0 <= j < |rules| && RuleCeilingKey(rules[j]) == ItemCeilingKey(x) && Ceiling(rules, x) == rules[j].percent
        && forall i :: 0 <= i < j ==> RuleCeilingKey(rules[i]) != ItemCeilingKey(x)
  {
    FindFirst(rules, ItemCeilingKey(x), RuleCeilingKey);
  }

  /** `{...item, dealerPercent: dealerPct, partnerPercent: partnerPct}`. */
  function Checked(rules: seq<GicItem>, x: PartnerItem): PartnerItem {
    x.(dealerPercent := Some(Ceiling(rules, x)), partnerPercent := Some(OrZero(x.partnerPercent)))
  }

  predicate WithinCeiling(rules: seq<GicItem>, x: PartnerItem) {
    OrZero(x.partnerPercent) <= Ceiling(rules, x)
  }

  /** A map that stops at the first element failing `ok`, as a throw
      inside `items.map` does. */
  function MapChecked<T>(xs: seq<T>, ok: T -> bool, f: T -> T): Option<seq<T>>
    decreases |xs|
  {
    if xs == [] then Some([])
    else if !ok(xs[0]) then None
    else
      match MapChecked(xs[1..], ok, f)
      case None => None
      case Some(rest) => Some([f(xs[0])] + rest)
  }

  lemma {:induction false} MapCheckedPasses<T>(xs: seq<T>, ok: T -> bool, f: T -> T)
    ensures MapChecked(xs, ok, f).Some? <==> forall j :: 0 <= j < |xs| ==> ok(xs[j])
    decreases |xs|
  {
    if xs != [] {
      MapCheckedPasses(xs[1..], ok, f);
      assert forall j :: 1 <= j < |xs| ==> xs[j] == xs[1..][j - 1];
    }
  }

  lemma {:induction false} MapCheckedItems<T>(xs: seq<T>, ok: T -> bool, f: T -> T)
    requires MapChecked(xs, ok, f).Some?
    ensures |MapChecked(xs, ok, f).value| == |xs|
    ensures forall j :: 0 <= j < |xs| ==> MapChecked(xs, ok, f).value[j] == f(xs[j])
    decreases |xs|
  {
    if xs != [] {
      MapCheckedItems(xs[1..], ok, f);
      var v := MapChecked(xs, ok, f).value;
      var rest := MapChecked(xs[1..], ok, f).value;
      assert v == [f(xs[0])] + rest;
      forall j | 1 <= j < |xs|
        ensures v[j] == f(xs[j])
      {
        assert v[j] == rest[j - 1];
        assert xs[j] == xs[1..][j - 1];
      }
    }
  }

  /** The `items.map` of `addPartnerExpense`: `None` is the throw on an
      item over its ceiling. */
  function Validated(rules: seq<GicItem>, items: seq<PartnerItem>): Option<seq<PartnerItem>> {
    MapChecked(items, (x: PartnerItem) => WithinCeiling(rules, x), (x: PartnerItem) => Checked(rules, x))
  }

  /** The batch passes exactly when every item is within its ceiling; then
      each item carries its ceiling as the dealer's percentage and its
      percentage read as a number, not above that ceiling, and nothing
      else changes. */
  lemma ValidatedMeaning(rules: seq<GicItem>, items: seq<PartnerItem>)
    ensures Validated(rules, items).Some? <==> forall j :: 0 <= j < |items| ==> WithinCeiling(rules, items[j])
    ensures Validated(rules, items).Some? ==>
      && |Validated(rules, items).value| == |items|
      && (forall j :: 0 <= j < |items| ==> Validated(rules, items).value[j] == Checked(rules, items[j]))
      && (forall j :: 0 <= j < |items| ==>
            Validated(rules, items).value[j].partnerPercent.value <= Validated(rules, items).value[j].dealerPercent.value)
  {
    var ok := (x: PartnerItem) => WithinCeiling(rules, x);
    var f := (x: PartnerItem) => Checked(rules, x);
    MapCheckedPasses(items, ok, f);
    if Validated(rules, items).Some? {
      MapCheckedItems(items, ok, f);
    }
  }

  /** The loop of a map that stops at the first element failing `ok`. */
  method CheckAll<T>(xs: seq<T>, ok: T -> bool, f: T -> T) returns (out: Option<seq<T>>)
    ensures out == MapChecked(xs, ok, f)
  {
    var done: seq<T> := [];
    var i := 0;
    assert xs[0..] == xs;
    EmptyPrefixed(MapChecked(xs, ok, f));
    while i < |xs|
      invariant 0 <= i <= |xs|
      invariant MapChecked(xs, ok, f) == Prefixed(done, MapChecked(xs[i..], ok, f))
    {
      var x := xs[i];
      assert xs[i..][1..] == xs[i + 1..];
      assert xs[i..][0] == x;
      if !ok(x) {
        assert MapChecked(xs[i..], ok, f) == None;
        return None;
      }
      AppendPrefixed(done, f(x), MapChecked(xs[i + 1..], ok, f));
      done := done + [f(x)];
      i := i + 1;
    }
    assert xs[i..] == [];
    assert done + [] == done;
    out := Some(done);
  }

  /** The map loop of `addPartnerExpense`. */
  method Validate(rules: seq<GicItem>, items: seq<PartnerItem>) returns (out: Option<seq<PartnerItem>>)
    ensures out == Validated(rules, items)
  {
    out := CheckAll(items, (x: PartnerItem) => WithinCeiling(rules, x), (x: PartnerItem) => Checked(rules, x));
  }

  /** `done` put before what the rest of the loop yields. */
  function Prefixed<T>(done: seq<T>, rest: Option<seq<T>>): Option<seq<T>> {
    match rest
    case None => None
    case Some(r) => Some(done + r)
  }

  lemma EmptyPrefixed<T>(rest: Option<seq<T>>)
    ensures Prefixed([], rest) == rest
  {
    if rest.Some? {
      assert [] + rest.value == rest.value;
    }
  }

  lemma AppendPrefixed<T>(done: seq<T>, x: T, rest: Option<seq<T>>)
    ensures Prefixed(done, match rest case None => None case Some(r) => Some([x] + r)) == Prefixed(done + [x], rest)
  {
    if rest.Some? {
      assert done + ([x] + rest.value) == done + [x] + rest.value;
    }
  }

  /** The dealer's breakdown on the day: `findOne({dealer, date in the day})`. */
  function DealerDay(dealer: string, start: int): Record<int, GicItem> -> bool {
    (r: Record<int, GicItem>) => r.owner == dealer && InDay(start)(r.dateKey)
  }

  /** A partner's document for the dealer on the day; its date key is the
      dealer's name and the moment. */
  function PartnerDay(partner: string, dealer: string, start: int): Record<(string, int), PartnerItem> -> bool {
    (r: Record<(string, int), PartnerItem>) => r.owner == partner && r.dateKey.0 == dealer && InDay(start)(r.dateKey.1)
  }

  predicate AddRequestValid(partnerId: string, dealerName: string, date: string) {
    partnerId != "" && dealerName != "" && date != ""
  }

  /** `addPartnerExpense`: every failure, the thrown ones included, answers
      400 and writes nothing: no partner, dealer or date; an invalid date;
      no dealer breakdown on the day; no items list; an item over its
      ceiling; a failing write. Otherwise the partner's document for the
      dealer and day is replaced by one holding the checked items. */
  function AddResult(dealerDocs: seq<Record<int, GicItem>>, partnerDocs: seq<Record<(string, int), PartnerItem>>,
                     partnerId: string, dealerName: string, date: string, parsed: Option<int>,
                     items: Option<seq<PartnerItem>>, failing: set<string>, now: int)
    : (Response, seq<Record<(string, int), PartnerItem>>)
  {
    if !AddRequestValid(partnerId, dealerName, date) || parsed.None? then (BadRequest, partnerDocs)
    else
      var t := parsed.value;
      var start := StartOfDay(t);
      match FirstIndex(dealerDocs, true, DealerDay(dealerName, start))
      case None => (BadRequest, partnerDocs)
      case Some(d) =>
        if items.None? then (BadRequest, partnerDocs)
        else
          match Validated(dealerDocs[d].items, items.value)
          case None => (BadRequest, partnerDocs)
          case Some(valid) =>
            if partnerId in failing then (BadRequest, partnerDocs)
            else (Ok, ReplacedWhere(partnerDocs, PartnerDay(partnerId, dealerName, start),
                                    Record(partnerId, (dealerName, t), valid, now)))
  }

  method AddPartnerExpense(dealerDocs: seq<Record<int, GicItem>>, store: Collection<(string, int), PartnerItem>,
                           partnerId: string, dealerName: string, date: string, parsed: Option<int>,
                           items: Option<seq<PartnerItem>>, failing: set<string>, now: int)
    returns (resp: Response)
    modifies store
    ensures (resp, store.records) == AddResult(dealerDocs, old(store.records), partnerId, dealerName, date, parsed, items, failing, now)
  {
    if partnerId == "" || dealerName == "" || date == "" || parsed.None? {
      return BadRequest;
    }
    var t := parsed.value;
    var start := StartOfDay(t);
    var d := FindIndex(dealerDocs, true, DealerDay(dealerName, start));
    if d == -1 || items.None? {
      return BadRequest;
    }
    var valid := Validate(dealerDocs[d].items, items.value);
    if valid.None? || partnerId in failing {
      return BadRequest;
    }
    store.ReplaceWhere(PartnerDay(partnerId, dealerName, start), Record(partnerId, (dealerName, t), valid.value, now));
    resp := Ok;
  }

  /** The save answers 200 or 400, writes nothing unless it answers 200, and
      answers 200 exactly when the request is complete, the dealer has a
      breakdown on the day, every item is within its ceiling and the write
      succeeds. */
  lemma AddOutcome(dealerDocs: seq<Record<int, GicItem>>, partnerDocs: seq<Record<(string, int), PartnerItem>>,
                   partnerId: string, dealerName: string, date: string, parsed: Option<int>,
                   items: Option<seq<PartnerItem>>, failing: set<string>, now: int)
    ensures var (resp, r) := AddResult(dealerDocs, partnerDocs, partnerId, dealerName, date, parsed, items, failing, now);
      && (resp == Ok || resp == BadRequest)
      && (resp == BadRequest ==> r == partnerDocs)
      && (resp == Ok <==>
            && AddRequestValid(partnerId, dealerName, date) && parsed.Some? && items.Some? && partnerId !in failing
            && var d := FirstIndex(dealerDocs, true, DealerDay(dealerName, StartOfDay(parsed.value)));
               d.Some? && forall j :: 0 <= j < |items.value| ==> WithinCeiling(dealerDocs[d.value].items, items.value[j]))
  {
    if AddRequestValid(partnerId, dealerName, date) && parsed.Some? && items.Some? {
      var d := FirstIndex(dealerDocs, true, DealerDay(dealerName, StartOfDay(parsed.value)));
      if d.Some? {
        ValidatedMeaning(dealerDocs[d.value].items, items.value);
      }
    }
  }

  /** After a successful save, the partner's first document for the dealer
      on the day holds the items, each with the first matching dealer
      rule's percentage (or 0) as its dealer percentage and a partner
      percentage not above it; every other document is where it was. */
  lemma AddStores(dealerDocs: seq<Record<int, GicItem>>, partnerDocs: seq<Record<(string, int), PartnerItem>>,
                  partnerId: string, dealerName: string, date: string, parsed: Option<int>,
                  items: Option<seq<PartnerItem>>, failing: set<string>, now: int)
    requires AddResult(dealerDocs, partnerDocs, partnerId, dealerName, date, parsed, items, failing, now).0 == Ok
    ensures parsed.Some? && items.Some?
    ensures var start := StartOfDay(parsed.value);
      var r := AddResult(dealerDocs, partnerDocs, partnerId, dealerName, date, parsed, items, failing, now).1;
      var d := FirstIndex(dealerDocs, true, DealerDay(dealerName, start));
      var i := FirstIndex(r, true, PartnerDay(partnerId, dealerName, start));
      && d.Some? && i.Some?
      && r[i.value].owner == partnerId && r[i.value].dateKey == (dealerName, parsed.value)
      && |r[i.value].items| == |items.value|
      && (forall j :: 0 <= j < |items.value| ==>
            && r[i.value].items[j] == Checked(dealerDocs[d.value].items, items.value[j])
            && r[i.value].items[j].partnerPercent.value <= r[i.value].items[j].dealerPercent.value)
      && (forall j :: 0 <= j < |partnerDocs| && j != i.value ==> r[j] == partnerDocs[j])
  {
    var t := parsed.value;
    var start := StartOfDay(t);
    var d := FirstIndex(dealerDocs, true, DealerDay(dealerName, start)).value;
    ValidatedMeaning(dealerDocs[d].items, items.value);
    var valid := Validated(dealerDocs[d].items, items.value).value;
    var rec := Record(partnerId, (dealerName, t), valid, now);
    assert PartnerDay(partnerId, dealerName, start)(rec) by {
      assert InDay(start)(t);
    }
    ReplacedWhereMeaning(partnerDocs, PartnerDay(partnerId, dealerName, start), rec);
  }

  /** The breakdown is saved under the trimmed dealer name but looked up
      under the name as given: a name with a space around it never finds
      the breakdown its own save created. */
  lemma PaddedNameMissesBreakdown(dealerName: string, t: int, items: seq<GicItem>, now: int, start: int)
    requires Trim(dealerName) != dealerName
    ensures !DealerDay(dealerName, start)(Record(Trim(dealerName), t, items, now))
  {
  }

  // ---------------------------------------------------------------------------
  // The partner's view

  /** A row of `mergedItems`: the dealer's rule, its percentage as the
      dealer's, and the partner's percentage. */
  datatype ExpenseRow = ExpenseRow(rule: GicItem, dealerPercent: real, partnerPercent: Option<real>)

  /** The normalised fields the view compares: no vehicle model. */
  datatype ViewKey = ViewKey(company: string, product: string, coverage: string, fuel: string)

  function RuleViewKey(r: GicItem): ViewKey {
    ViewKey(Normalize(r.company), Normalize(r.product), Normalize(r.coverage), Normalize(r.fuel))
  }

  function ItemViewKey(x: PartnerItem): ViewKey {
    ViewKey(Normalize(x.company), Normalize(x.product), Normalize(x.coverage), Normalize(x.fuel))
  }

  /** The row for a dealer rule: the partner's percentage of the first of
      the partner's items with the same company, product, coverage and fuel,
      or 0. */
  function RowFor(r: GicItem, saved: seq<PartnerItem>): ExpenseRow {
    match Find(saved, RuleViewKey(r), ItemViewKey)
    case Some(p) => ExpenseRow(r, r.percent, p.partnerPercent)
    case None => ExpenseRow(r, r.percent, Some(0.0))
  }

  function Rows(rules: seq<GicItem>, saved: seq<PartnerItem>): (r: seq<ExpenseRow>)
    ensures |r| == |rules|
    ensures forall j :: 0 <= j < |rules| ==> r[j] == RowFor(rules[j], saved)
  {
    seq(|rules|, j requires 0 <= j < |rules| => RowFor(rules[j], saved))
  }

  /** The comparator's keys: normalised company, product, coverage. */
  function SortKeys(x: ExpenseRow): seq<string> {
    [Normalize(x.rule.company), Normalize(x.rule.product), Normalize(x.rule.coverage)]
  }

  function ByCompanyProductCoverage(): (ExpenseRow, ExpenseRow) -> bool {
    (a: ExpenseRow, b: ExpenseRow) => Sorting.KeysLess(SortKeys(a), SortKeys(b))
  }

  /** `getPartnerExpenses`: no rows without a dealer or a date; an invalid
      date makes the lookup throw (500); no rows when the dealer has no
      breakdown on the day; otherwise a row per dealer rule, sorted. */
  function ViewResult(dealerDocs: seq<Record<int, GicItem>>, partnerDocs: seq<Record<(string, int), PartnerItem>>,
                      partnerId: string, dealerName: string, date: string, parsed: Option<int>)
    : (Response, seq<ExpenseRow>)
  {
    if dealerName == "" || date == "" then (Ok, [])
    else if parsed.None? then (ServerError, [])
    else
      var start := StartOfDay(parsed.value);
      match FirstIndex(dealerDocs, true, DealerDay(dealerName, start))
      case None => (Ok, [])
      case Some(d) =>
        var saved := match FirstIndex(partnerDocs, true, PartnerDay(partnerId, dealerName, start))
                     case Some(p) => partnerDocs[p].items
                     case None => [];
        (Ok, Sorting.SortBy(Rows(dealerDocs[d].items, saved), ByCompanyProductCoverage()))
  }

  lemma ByCompanyProductCoverageWeak()
    ensures Sorting.StrictWeakOrder(ByCompanyProductCoverage())
  {
    Sorting.KeysLessTotal();
    Sorting.KeyedWeakOrder(ByCompanyProductCoverage(), SortKeys, Sorting.KeysLess);
  }

  /** No rows without a dealer or a date, and 500 with no rows for a date
      that does not parse. Otherwise the view's rows are the dealer rules'
      rows, each once, in order of company, then product, then coverage
      (none when the dealer has no breakdown on the day); each row shows
      the dealer's percentage and the partner's percentage for the first
      partner item with the rule's company, product, coverage and fuel, or
      0. */
  lemma ViewMeaning(dealerDocs: seq<Record<int, GicItem>>, partnerDocs: seq<Record<(string, int), PartnerItem>>,
                    partnerId: string, dealerName: string, date: string, parsed: Option<int>)
    ensures var (resp, rows) := ViewResult(dealerDocs, partnerDocs, partnerId, dealerName, date, parsed);
      && (dealerName == "" || date == "" ==> resp == Ok && rows == [])
      && (dealerName != "" && date != "" && parsed.None? ==> resp == ServerError && rows == [])
      && (dealerName != "" && date != "" && parsed.Some? ==>
            var start := StartOfDay(parsed.value);
            var d := FirstIndex(dealerDocs, true, DealerDay(dealerName, start));
            var p := FirstIndex(partnerDocs, true, PartnerDay(partnerId, dealerName, start));
            var saved := if p.Some? then partnerDocs[p.value].items else [];
            && resp == Ok
            && (d.None? ==> rows == [])
            && (d.Some? ==>
                  && multiset(rows) == multiset(Rows(dealerDocs[d.value].items, saved))
                  && Sorting.Sorted(rows, ByCompanyProductCoverage())))
  {
    if dealerName != "" && date != "" && parsed.Some? {
      var start := StartOfDay(parsed.value);
      var d := FirstIndex(dealerDocs, true, DealerDay(dealerName, start));
      if d.Some? {
        var p := FirstIndex(partnerDocs, true, PartnerDay(partnerId, dealerName, start));
        var saved := if p.Some? then partnerDocs[p.value].items else [];
        ByCompanyProductCoverageWeak();
        Sorting.SortBySorted(Rows(dealerDocs[d.value].items, saved), ByCompanyProductCoverage());
      }
    }
  }

  /** A row shows the dealer's percentage and the percentage of the first
      partner item with the same company, product, coverage and fuel, or 0
      when there is none. */
  lemma RowForMeaning(r: GicItem, saved: seq<PartnerItem>)
    ensures RowFor(r, saved).rule == r && RowFor(r, saved).dealerPercent == r.percent
    ensures (forall s :: s in saved ==> ItemViewKey(s) != RuleViewKey(r)) ==> RowFor(r, saved).partnerPercent == Some(0.0)
    ensures (exists s :: s in saved && ItemViewKey(s) == RuleViewKey(r)) ==>
      exists j :: 0 <= j < |saved| && ItemViewKey(saved[j]) == RuleViewKey(r)
        && RowFor(r, saved).partnerPercent == saved[j].partnerPercent
        && forall i :: 0 <= i < j ==> ItemViewKey(saved[i]) != RuleViewKey(r)
  {
    var k := RuleViewKey(r);
    FindFirst(saved, k, ItemViewKey);
    if exists s :: s in saved && ItemViewKey(s) == k {
      var j :| 0 <= j < |saved| && ItemViewKey(saved[j]) == k && Find(saved, k, ItemViewKey) == Some(saved[j])
        && forall i :: 0 <= i < j ==> ItemViewKey(saved[i]) != k;
      assert RowFor(r, saved).partnerPercent == saved[j].partnerPercent;
    }
  }

  /** The view ignores the vehicle model the save checks: two dealer rules
      that differ only in it show the same partner percentage. */
  lemma ViewIgnoresModel(r: GicItem, model: string, saved: seq<PartnerItem>)
    ensures RowFor(r.(vehicleModel := model), saved).partnerPercent == RowFor(r, saved).partnerPercent
  {
    assert RuleViewKey(r.(vehicleModel := model)) == RuleViewKey(r);
  }
}
