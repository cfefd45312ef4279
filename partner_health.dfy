/** The health partner commission controller: the strict normalisation its
    matching uses, the save (the same merge-and-propagate as the GIC
    controller, over health rules) and the GET view. */
module PartnerHealth {
  import opened Wrappers
  import opened Text
  import opened Keyed
  import opened Merge
  import opened Store
  import opened PartnerSave
  import opened AsOf
  import opened DateKeys
  import Sorting

  /** `n`: trimmed and lower-cased, with "0-max", the empty text and
      "null" all read as "all". */
  function N(v: string): (r: string)
    ensures r != "" && r != "0-max" && r != "null"
    ensures r == "all" <==> (var s := Normalize(v); s == "" || s == "0-max" || s == "null" || s == "all")
  {
    var s := Normalize(v);
    if s == "0-max" || s == "" || s == "null" then "all" else s
  }

  /** A text without capitals lower-cases to itself. */
  lemma {:induction false} LowerOfLower(s: string)
    requires forall i :: 0 <= i < |s| ==> 'A' > s[i] || s[i] > 'Z'
    ensures ToLower(s) == s
  {
  }

  lemma NormalizeAll()
    ensures Normalize("all") == "all"
  {
    TrimOfTrimmed("all");
    LowerOfLower("all");
  }

  /** Reading a value twice changes nothing more. */
  lemma NIdempotent(v: string)
    ensures N(N(v)) == N(v)
  {
    var s := Normalize(v);
    if s == "" || s == "0-max" || s == "null" {
      NormalizeAll();
    } else {
      NormalizeIdempotent(v);
    }
  }

  lemma NOfCapitalAll()
    ensures N("All") == "all"
  {
    TrimOfTrimmed("All");
    var t := ToLower("All");
    assert t[0] == LowerChar('A') == 'a';
    assert t[1] == LowerChar('l') && t[2] == LowerChar('l');
    assert t == "all";
  }

  lemma NOfCapitalMax()
    ensures N("0-Max") == "all"
  {
    TrimOfTrimmed("0-Max");
    var t := ToLower("0-Max");
    assert t[2] == LowerChar('M') == 'm';
    assert t[0] == LowerChar('0') && t[1] == LowerChar('-') && t[3] == LowerChar('a') && t[4] == LowerChar('x');
    assert t == "0-max";
  }

  lemma NOfNull()
    ensures N("null") == "all"
  {
    TrimOfTrimmed("null");
    LowerOfLower("null");
  }

  lemma NOfPaddedAll()
    ensures N(" ALL ") == "all"
  {
    TrimOfPadded("ALL");
    assert [' '] + "ALL" + [' '] == " ALL ";
    NOfUpperAll();
    NByTrim(" ALL ", "ALL");
  }

  lemma NOfUpperAll()
    ensures N("ALL") == "all"
  {
    TrimOfTrimmed("ALL");
    var t := ToLower("ALL");
    assert t[0] == LowerChar('A') == 'a' && t[1] == LowerChar('L') == 'l' && t[2] == LowerChar('L');
    assert t == "all";
  }

  /** Values that trim alike read alike. */
  lemma NByTrim(a: string, b: string)
    requires Trim(a) == Trim(b)
    ensures N(a) == N(b)
  {
  }

  /** The spellings of "any" match each other and the missing value. */
  lemma WildcardsAgree()
    ensures N("") == N("All") == N("0-Max") == N("null") == N(" ALL ") == "all"
  {
    NOfCapitalAll();
    NOfCapitalMax();
    NOfNull();
    NOfPaddedAll();
  }

  /** A stored health rule. */
  datatype HealthItem = HealthItem(
    dealerName: string, company: string, product: string, policyType: string,
    term: string, saRange: string, onNet: bool, percentOnNet: bool,
    percent: real, dealerPercent: real, applyToAll: bool)

  /** A rule row as the request sends it. */
  datatype RawHealthItem = RawHealthItem(
    dealerName: string, company: string, product: string, policyType: string,
    term: string, saRange: string, onNet: bool, percentOnNet: bool,
    percent: string, dealerPercent: string, applyToAll: bool)

  /** What `areRulesMatchingHealth` compares, with the dealer name the
      merge compares beside it, each read by `N`. */
  function HealthKey(r: HealthItem): (string, string, string, string, string, string) {
    (N(r.dealerName), N(r.company), N(r.product), N(r.policyType), N(r.term), N(r.saRange))
  }

  /** `areRulesMatchingHealth` together with the dealer-name test. */
  predicate SameHealthRule(a: HealthItem, b: HealthItem) {
    && N(a.dealerName) == N(b.dealerName)
    && N(a.company) == N(b.company) && N(a.product) == N(b.product)
    && N(a.policyType) == N(b.policyType) && N(a.term) == N(b.term) && N(a.saRange) == N(b.saRange)
  }

  lemma HealthKeyIsMatching(a: HealthItem, b: HealthItem)
    ensures HealthKey(a) == HealthKey(b) <==> SameHealthRule(a, b)
  {
  }

  /** `x || "All"`: the request's missing text replaced by a default. */
  function OrDefault(x: string, d: string): string { if x == "" then d else x }

  /** A default that reads as the missing value leaves the reading alone. */
  lemma OrDefaultReads(x: string, d: string)
    requires N(d) == N("")
    ensures N(OrDefault(x, d)) == N(x)
  {
  }

  /** `itemsWithState`: the missing dealer is "Unknown", numbers that do
      not parse are 0, both net flags are `OnNet || percentOnNet`, and
      policy type, term and sum-assured range default to "All", "All" and
      "0-Max". */
  function Sanitize(i: RawHealthItem): (r: HealthItem)
    ensures r.dealerName != "" && r.policyType != "" && r.term != "" && r.saRange != ""
    ensures r.onNet == r.percentOnNet == (i.onNet || i.percentOnNet)
    ensures r.company == i.company && r.product == i.product && r.applyToAll == i.applyToAll
  {
    HealthItem(
      dealerName := OrDefault(i.dealerName, "Unknown"),
      company := i.company, product := i.product,
      policyType := OrDefault(i.policyType, "All"),
      term := OrDefault(i.term, "All"),
      saRange := OrDefault(i.saRange, "0-Max"),
      onNet := i.onNet || i.percentOnNet, percentOnNet := i.onNet || i.percentOnNet,
      percent := OrZero(ParseFloat(i.percent)),
      dealerPercent := OrZero(ParseFloat(i.dealerPercent)),
      applyToAll := i.applyToAll)
  }

  /** The matched fields of a sanitised item read, under `n`, as the
      request's: the defaults are spellings of "all". */
  lemma SanitizeReads(i: RawHealthItem)
    ensures var r := Sanitize(i);
      && N(r.company) == N(i.company) && N(r.product) == N(i.product)
      && N(r.policyType) == N(i.policyType) && N(r.term) == N(i.term) && N(r.saRange) == N(i.saRange)
  {
    WildcardsAgree();
    var r := Sanitize(i);
    assert r.company == i.company && r.product == i.product;
    OrDefaultReads(i.policyType, "All");
    OrDefaultReads(i.term, "All");
    OrDefaultReads(i.saRange, "0-Max");
  }

  function SanitizeAll(items: seq<RawHealthItem>): (r: seq<HealthItem>)
    ensures |r| == |items|
    ensures forall j :: 0 <= j < |items| ==> r[j] == Sanitize(items[j])
  {
    seq(|items|, j requires 0 <= j < |items| => Sanitize(items[j]))
  }

  // ---------------------------------------------------------------------------
  // The save

  /** The fields `mergeItemsIntoDoc` copies onto a matching stored rule. */
  function HealthOverwrite(e: HealthItem, n: HealthItem): HealthItem {
    e.(percent := n.percent, onNet := n.onNet, percentOnNet := n.percentOnNet, applyToAll := n.applyToAll)
  }

  function Pushed(x: HealthItem): HealthItem { x }

  function IsFlagged(x: HealthItem): bool { x.applyToAll }

  function ClearFlag(x: HealthItem): (r: HealthItem)
    ensures !r.applyToAll
  {
    x.(applyToAll := false)
  }

  lemma HealthMergeLawful()
    ensures Lawful(HealthKey, HealthOverwrite, Pushed)
  {
  }

  /** What the rule schema requires: a dealer, a company and a product
      (`required` refuses the empty text as well as a missing one). */
  predicate Complete(x: HealthItem) {
    x.dealerName != "" && x.company != "" && x.product != ""
  }

  /** The request is refused without a partner name, with a date
      `getCleanDate` rejects, or without an items list; an empty list is
      accepted. */
  predicate SaveRequestValid(partnerName: string, commissionDate: string, items: Option<seq<RawHealthItem>>) {
    partnerName != "" && HealthCleanDate(commissionDate).Some? && items.Some?
  }

  /** The partners whose `save()` throws: those in `failing`, and those
      whose written list the schema refuses. */
  function Throwing(records: seq<Record<string, HealthItem>>, partnerName: string, dateKey: string,
                    clean: seq<HealthItem>, active: seq<string>, failing: set<string>): set<string>
  {
    SaveThrowing(records, partnerName, dateKey, clean, IsFlagged, ClearFlag, HealthKey, HealthOverwrite, Pushed,
                 active, failing, Complete)
  }

  /** `savePartnerHealthBreakdown`; `failing` are the partners whose write
      throws whatever it holds. */
  function SaveResult(records: seq<Record<string, HealthItem>>, partnerName: string, commissionDate: string,
                      items: Option<seq<RawHealthItem>>, active: seq<string>, failing: set<string>, now: int)
    : (Response, seq<Record<string, HealthItem>>)
  {
    if !SaveRequestValid(partnerName, commissionDate, items) then (BadRequest, records)
    else
      var dateKey := HealthCleanDate(commissionDate).value;
      var clean := SanitizeAll(items.value);
      Saved(records, partnerName, dateKey, clean, IsFlagged, ClearFlag, HealthKey, HealthOverwrite, Pushed, active,
            Throwing(records, partnerName, dateKey, clean, active, failing), now)
  }

  method Save(store: Collection<string, HealthItem>, partnerName: string, commissionDate: string,
              items: Option<seq<RawHealthItem>>, active: seq<string>, failing: set<string>, now: int)
    returns (resp: Response)
    modifies store
    ensures (resp, store.records) == SaveResult(old(store.records), partnerName, commissionDate, items, active, failing, now)
  {
    var dateKey := HealthCleanDate(commissionDate);
    if partnerName == "" || dateKey.None? || items.None? {
      return BadRequest;
    }
    var clean := SanitizeAll(items.value);
    var throwing := Throwing(store.records, partnerName, dateKey.value, clean, active, failing);
    resp := SaveAndPropagate(store, partnerName, dateKey.value, clean,
                             IsFlagged, ClearFlag, HealthKey, HealthOverwrite, Pushed, active, throwing, now);
  }

  /** An invalid request is answered 400 and writes nothing; a valid one,
      an empty list included, is answered 200 exactly when the saver's
      write succeeds and the list it stores is complete, and, with a
      flagged rule, so do and is every other Active partner's; 500
      otherwise. */
  lemma {:induction false} SaveOutcome(records: seq<Record<string, HealthItem>>, partnerName: string,
                                       commissionDate: string, items: Option<seq<RawHealthItem>>,
                                       active: seq<string>, failing: set<string>, now: int)
    ensures var (resp, r) := SaveResult(records, partnerName, commissionDate, items, active, failing, now);
      && (resp == BadRequest <==> !SaveRequestValid(partnerName, commissionDate, items))
      && (resp == BadRequest ==> r == records)
      && (SaveRequestValid(partnerName, commissionDate, items) ==>
            var dateKey := HealthCleanDate(commissionDate).value;
            var clean := SanitizeAll(items.value);
            (resp == Ok <==>
               && partnerName !in failing
               && Accepts(MergeAll(ItemsAt(records, partnerName, dateKey), Cleared(clean, ClearFlag),
                                   HealthKey, HealthOverwrite, Pushed), Complete)
               && ((exists j :: 0 <= j < |items.value| && items.value[j].applyToAll) ==>
                     forall t :: t in OtherPartners(active, partnerName) ==>
                       && t !in failing
                       && Accepts(MergeAll(ItemsAt(records, t, dateKey), Cleared(Flagged(clean, IsFlagged), ClearFlag),
                                           HealthKey, HealthOverwrite, Pushed), Complete))))
  {
    if SaveRequestValid(partnerName, commissionDate, items) {
      var dateKey := HealthCleanDate(commissionDate).value;
      var clean := SanitizeAll(items.value);
      var throwing := Throwing(records, partnerName, dateKey, clean, active, failing);
      assert SaveResult(records, partnerName, commissionDate, items, active, failing, now)
          == Saved(records, partnerName, dateKey, clean, IsFlagged, ClearFlag, HealthKey, HealthOverwrite, Pushed,
                   active, throwing, now);
      SavedOutcome(records, partnerName, dateKey, items.value, active, failing, now);
    }
  }

  /** `SaveOutcome` for a valid request, on the cleaned date and list. */
  lemma SavedOutcome(records: seq<Record<string, HealthItem>>, partnerName: string, dateKey: string,
                     items: seq<RawHealthItem>, active: seq<string>, failing: set<string>, now: int)
    ensures var clean := SanitizeAll(items);
      var resp := Saved(records, partnerName, dateKey, clean, IsFlagged, ClearFlag, HealthKey, HealthOverwrite,
                        Pushed, active, Throwing(records, partnerName, dateKey, clean, active, failing), now).0;
      && resp != BadRequest
      && (resp == Ok <==>
            && partnerName !in failing
            && Accepts(MergeAll(ItemsAt(records, partnerName, dateKey), Cleared(clean, ClearFlag),
                                HealthKey, HealthOverwrite, Pushed), Complete)
            && ((exists j :: 0 <= j < |items| && items[j].applyToAll) ==>
                  forall t :: t in OtherPartners(active, partnerName) ==>
                    && t !in failing
                    && Accepts(MergeAll(ItemsAt(records, t, dateKey), Cleared(Flagged(clean, IsFlagged), ClearFlag),
                                        HealthKey, HealthOverwrite, Pushed), Complete)))
  {
    var clean := SanitizeAll(items);
    SavedChecked(records, partnerName, dateKey, clean,
                 IsFlagged, ClearFlag, HealthKey, HealthOverwrite, Pushed, active, failing, now, Complete);
    SanitizeKeepsFlags(items);
  }

  /** Some sanitised rule is flagged exactly when some submitted one is. */
  lemma SanitizeKeepsFlags(items: seq<RawHealthItem>)
    ensures (exists j :: 0 <= j < |items| && items[j].applyToAll)
        <==> (exists j :: 0 <= j < |SanitizeAll(items)| && IsFlagged(SanitizeAll(items)[j]))
  {
    var clean := SanitizeAll(items);
    SanitizeFlagAt(items);
    if j :| 0 <= j < |items| && items[j].applyToAll {
      assert IsFlagged(clean[j]);
    }
    if j :| 0 <= j < |clean| && IsFlagged(clean[j]) {
      assert items[j].applyToAll;
    }
  }

  lemma SanitizeFlagAt(items: seq<RawHealthItem>)
    ensures |SanitizeAll(items)| == |items|
    ensures forall j :: 0 <= j < |items| ==> (items[j].applyToAll <==> IsFlagged(SanitizeAll(items)[j]))
  {
  }

  /** Saving an empty list for a partner without a set for the date
      creates that set, empty. */
  lemma {:induction false} EmptySaveCreatesEmptySet(records: seq<Record<string, HealthItem>>, partnerName: string,
                                                    commissionDate: string, active: seq<string>,
                                                    failing: set<string>, now: int)
    requires partnerName != "" && HealthCleanDate(commissionDate).Some? && partnerName !in failing
    requires Accepts(ItemsAt(records, partnerName, HealthCleanDate(commissionDate).value), Complete)
    ensures var (resp, r) := SaveResult(records, partnerName, commissionDate, Some([]), active, failing, now);
      var dateKey := HealthCleanDate(commissionDate).value;
      && resp == Ok
      && FindRecord(r, partnerName, dateKey).Some?
      && ItemsAt(r, partnerName, dateKey) == ItemsAt(records, partnerName, dateKey)
  {
    var dateKey := HealthCleanDate(commissionDate).value;
    assert SanitizeAll([]) == [];
    assert Flagged([], IsFlagged) == [];
    assert Cleared([], ClearFlag) == [];
    var throwing := Throwing(records, partnerName, dateKey, [], active, failing);
    assert MergeAll(ItemsAt(records, partnerName, dateKey), [], HealthKey, HealthOverwrite, Pushed)
        == ItemsAt(records, partnerName, dateKey);
    SaverIsNoTarget(active, partnerName);
    assert partnerName !in throwing;
    SaverGetsItems(records, partnerName, dateKey, [], IsFlagged, ClearFlag, HealthKey, HealthOverwrite, Pushed,
                   active, throwing, now);
  }

  /** No stored rule ever keeps the "apply to all" flag. */
  lemma {:induction false} SaveNeverStoresFlag(records: seq<Record<string, HealthItem>>, partnerName: string,
                                               commissionDate: string, items: Option<seq<RawHealthItem>>,
                                               active: seq<string>, failing: set<string>, now: int)
    requires AllItems(records, (x: HealthItem) => !IsFlagged(x))
    ensures AllItems(SaveResult(records, partnerName, commissionDate, items, active, failing, now).1,
                     (x: HealthItem) => !IsFlagged(x))
  {
    if SaveRequestValid(partnerName, commissionDate, items) {
      var dateKey := HealthCleanDate(commissionDate).value;
      var clean := SanitizeAll(items.value);
      FlagNeverStored(records, partnerName, dateKey, clean, IsFlagged, ClearFlag, HealthKey, HealthOverwrite, Pushed,
                      active, Throwing(records, partnerName, dateKey, clean, active, failing), now);
    }
  }

  /** After a successful save with flagged rules, every other active
      partner's set for the date holds the flagged rules merged in. */
  lemma {:induction false} SavePropagatesFlagged(records: seq<Record<string, HealthItem>>, partnerName: string,
                                                 commissionDate: string, items: Option<seq<RawHealthItem>>,
                                                 active: seq<string>, failing: set<string>, now: int, t: string)
    requires SaveRequestValid(partnerName, commissionDate, items)
    requires SaveResult(records, partnerName, commissionDate, items, active, failing, now).0 == Ok
    requires exists j :: 0 <= j < |items.value| && items.value[j].applyToAll
    requires t in active && Normalize(t) != Normalize(partnerName)
    ensures var dateKey := HealthCleanDate(commissionDate).value;
      var r := SaveResult(records, partnerName, commissionDate, items, active, failing, now).1;
      && FindRecord(r, t, dateKey).Some?
      && ItemsAt(r, t, dateKey) == MergeAll(ItemsAt(records, t, dateKey),
                                            Cleared(Flagged(SanitizeAll(items.value), IsFlagged), ClearFlag),
                                            HealthKey, HealthOverwrite, Pushed)
  {
    var dateKey := HealthCleanDate(commissionDate).value;
    var clean := SanitizeAll(items.value);
    var throwing := Throwing(records, partnerName, dateKey, clean, active, failing);
    assert SaveResult(records, partnerName, commissionDate, items, active, failing, now)
        == Saved(records, partnerName, dateKey, clean, IsFlagged, ClearFlag, HealthKey, HealthOverwrite, Pushed,
                 active, throwing, now);
    var j :| 0 <= j < |items.value| && items.value[j].applyToAll;
    assert IsFlagged(clean[j]);
    HealthMergeLawful();
    OthersGetFlagged(records, partnerName, dateKey, clean,
                     IsFlagged, ClearFlag, HealthKey, HealthOverwrite, Pushed, active, throwing, now, t);
  }

  // ---------------------------------------------------------------------------
  // The GET view

  /** A rule of a dealer's health breakdown, as the dealer screen stores it. */
  datatype DealerHealthItem = DealerHealthItem(
    company: string, product: string, policyType: string, term: string, saRange: string,
    onNet: bool, percentOnNet: bool, percent: real, maxPercent: real)

  /** `item.percent || item.maxPercent || 0`: a zero percentage falls back
      to the maximum. */
  function DealerPercent(item: DealerHealthItem): (r: real)
    ensures item.percent != 0.0 ==> r == item.percent
    ensures item.percent == 0.0 ==> r == item.maxPercent
  {
    if item.percent != 0.0 then item.percent else if item.maxPercent != 0.0 then item.maxPercent else 0.0
  }

  /** A row of `finalData`: the dealer rule, with defaults, the partner's
      saved values laid over it, and the dealer set's date. */
  datatype HealthRow = HealthRow(item: HealthItem, dealerRuleDate: int)

  /** The entry of `uniqueDealerRules` for one dealer rule. */
  function DealerRule(dealer: string, item: DealerHealthItem): (r: HealthItem)
    ensures r.dealerName == dealer && r.dealerPercent == DealerPercent(item)
    ensures N(r.policyType) == N(item.policyType) && N(r.term) == N(item.term) && N(r.saRange) == N(item.saRange)
  {
    WildcardsAgree();
    OrDefaultReads(item.policyType, "All");
    OrDefaultReads(item.term, "All");
    OrDefaultReads(item.saRange, "0-Max");
    HealthItem(dealer, item.company, item.product, OrDefault(item.policyType, "All"), OrDefault(item.term, "All"),
               OrDefault(item.saRange, "0-Max"), item.onNet, item.percentOnNet, item.percent,
               DealerPercent(item), false)
  }

  /** The row for one dealer rule: `savedRule` is the first saved rule with
      the same dealer and the same normalised fields. */
  function RowFor(date: int, rule: HealthItem, saved: seq<HealthItem>): HealthRow {
    var m := Find(saved, HealthKey(rule), HealthKey);
    var net := if m.Some? then m.value.onNet || m.value.percentOnNet else rule.onNet || rule.percentOnNet;
    HealthRow(rule.(percent := if m.Some? then m.value.percent else 0.0,
                    onNet := net, percentOnNet := net,
                    applyToAll := m.Some? && m.value.applyToAll),
              date)
  }

  function RowsOfDoc(doc: Record<int, DealerHealthItem>, saved: seq<HealthItem>): (r: seq<HealthRow>)
    ensures |r| == |doc.items|
    ensures forall j :: 0 <= j < |r| ==> r[j] == RowFor(doc.dateKey, DealerRule(doc.owner, doc.items[j]), saved)
  {
    seq(|doc.items|, j requires 0 <= j < |doc.items| => RowFor(doc.dateKey, DealerRule(doc.owner, doc.items[j]), saved))
  }

  function RowsOf(docs: seq<Record<int, DealerHealthItem>>, saved: seq<HealthItem>): seq<HealthRow> {
    if docs == [] then [] else RowsOfDoc(docs[0], saved) + RowsOf(docs[1..], saved)
  }

  /** The sort key: normalised dealer, company and product. */
  function SortKey(r: HealthRow): seq<string> { [N(r.item.dealerName), N(r.item.company), N(r.item.product)] }

  function ByDealerCompanyProduct(a: HealthRow, b: HealthRow): bool { Sorting.KeysLess(SortKey(a), SortKey(b)) }

  /** The saved set in force for the partner on the date, or no rules. */
  function SavedRules(partnerRecords: seq<Record<string, HealthItem>>, partnerName: string, date: string): seq<HealthItem> {
    match Resolve(partnerRecords, partnerName, HealthCleanDate(date))
    case Some(r) => r.items
    case None => []
  }

  /** `getPartnerHealthBreakdown`: `dealerDocs` are the dealer sets, each
      owned by its `dealerName || dealer`; `dayEnd` is the last moment of
      the requested day, and None when `new Date(date)` is an Invalid Date,
      whose `$lte` bound fails to cast so that the handler answers 500. */
  function GetView(partnerRecords: seq<Record<string, HealthItem>>, dealerDocs: seq<Record<int, DealerHealthItem>>,
                   partnerName: string, date: string, dayEnd: Option<int>): (Response, seq<HealthRow>)
  {
    if partnerName == "" || date == "" then (BadRequest, [])
    else if dayEnd.None? then (ServerError, [])
    else
      var rows := RowsOf(LatestPerOwner(dealerDocs, dayEnd.value), SavedRules(partnerRecords, partnerName, date));
      (Ok, Sorting.SortBy(rows, ByDealerCompanyProduct))
  }

  /** Each row keeps its dealer rule's identity and shows the saved values
      of the first matching saved rule, or 0 and no flag without one. */
  lemma {:induction false} RowForMeaning(date: int, rule: HealthItem, saved: seq<HealthItem>)
    ensures var row := RowFor(date, rule, saved);
      && HealthKey(row.item) == HealthKey(rule) && row.item.dealerPercent == rule.dealerPercent
      && ((exists s :: s in saved && SameHealthRule(s, rule)) ==>
            exists j :: 0 <= j < |saved| && SameHealthRule(saved[j], rule)
              && row.item.percent == saved[j].percent && row.item.applyToAll == saved[j].applyToAll
              && (forall i :: 0 <= i < j ==> !SameHealthRule(saved[i], rule)))
      && ((forall s :: s in saved ==> !SameHealthRule(s, rule)) ==>
            row.item.percent == 0.0 && !row.item.applyToAll && row.item.onNet == (rule.onNet || rule.percentOnNet))
  {
    var k := HealthKey(rule);
    var row := RowFor(date, rule, saved);
    assert row.item.dealerName == rule.dealerName && row.item.company == rule.company
      && row.item.product == rule.product && row.item.policyType == rule.policyType
      && row.item.term == rule.term && row.item.saRange == rule.saRange;
    assert HealthKey(row.item) == k;
    if FirstIndex(saved, k, HealthKey).Some? {
      var j := FirstIndex(saved, k, HealthKey).value;
      assert Find(saved, k, HealthKey) == Some(saved[j]);
      HealthKeyIsMatching(saved[j], rule);
      forall i | 0 <= i < j
        ensures !SameHealthRule(saved[i], rule)
      {
        HealthKeyIsMatching(saved[i], rule);
      }
    } else {
      forall s | s in saved
        ensures !SameHealthRule(s, rule)
      {
        var i :| 0 <= i < |saved| && saved[i] == s;
        HealthKeyIsMatching(s, rule);
      }
    }
  }

  /** 400 without a partner or a date, and 500 with no rows for a date
      `new Date` cannot read. Otherwise the view is in dealer, company,
      product order and holds exactly the rows of the dealers' sets in
      force. */
  lemma {:induction false} GetViewMeaning(partnerRecords: seq<Record<string, HealthItem>>,
                                          dealerDocs: seq<Record<int, DealerHealthItem>>,
                                          partnerName: string, date: string, dayEnd: Option<int>)
    ensures var (resp, rows) := GetView(partnerRecords, dealerDocs, partnerName, date, dayEnd);
      && (resp == BadRequest <==> partnerName == "" || date == "")
      && (resp == ServerError <==> partnerName != "" && date != "" && dayEnd.None?)
      && (resp != Ok ==> rows == [])
      && (resp == Ok ==>
            && Sorting.Sorted(rows, ByDealerCompanyProduct)
            && multiset(rows) == multiset(RowsOf(LatestPerOwner(dealerDocs, dayEnd.value),
                                                 SavedRules(partnerRecords, partnerName, date))))
  {
    if partnerName != "" && date != "" && dayEnd.Some? {
      var rows := RowsOf(LatestPerOwner(dealerDocs, dayEnd.value), SavedRules(partnerRecords, partnerName, date));
      Sorting.KeysLessTotal();
      Sorting.KeyedWeakOrder(ByDealerCompanyProduct, SortKey, Sorting.KeysLess);
      Sorting.SortBySorted(rows, ByDealerCompanyProduct);
    }
  }
}
