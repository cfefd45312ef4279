/** The GIC partner commission controller: the save (sanitise, merge into
    the saver's set, propagate flagged rules), the GET view that lays the
    partner's saved percentages over the dealers' breakdown rules, and the
    rule set the partner report uses. */
module PartnerGic {
  import opened Wrappers
  import opened Text
  import opened GicRules
  import opened Keyed
  import opened Merge
  import opened Store
  import opened PartnerSave
  import opened AsOf
  import opened DateKeys
  import Sorting
  import opened GicScoring

  /** A rule row as the request sends it: missing text is "", numbers are
      the text `parseFloat` reads, checkboxes are booleans. */
  datatype RawGicItem = RawGicItem(
    dealerName: string, dealerPercent: string, company: string, product: string,
    coverage: string, vehicleModel: string, onNet: bool, percentOnNet: bool,
    pa: bool, withoutAddon: bool, fuel: string, rto: string, ccRange: string,
    ncbRange: string, fixed: string, percent: string, applyToAll: bool)

  /** `itemsWithState`: the unknown dealer is "Unknown", numbers that do not
      parse are 0, and both net flags are `OnNet || percentOnNet`. */
  function Sanitize(i: RawGicItem): (r: GicItem)
    ensures r.dealerName != ""
    ensures r.dealerName == (if i.dealerName == "" then "Unknown" else i.dealerName)
    ensures r.onNet == r.percentOnNet == (i.onNet || i.percentOnNet)
    ensures r.percent == OrZero(ParseFloat(i.percent)) && r.fixed == OrZero(ParseFloat(i.fixed))
    ensures r.company == i.company && r.product == i.product && r.applyToAll == i.applyToAll
  {
    GicItem(
      dealerName := if i.dealerName == "" then "Unknown" else i.dealerName,
      dealerPercent := OrZero(ParseFloat(i.dealerPercent)),
      company := i.company, product := i.product, coverage := i.coverage,
      vehicleModel := i.vehicleModel,
      onNet := i.onNet || i.percentOnNet, percentOnNet := i.onNet || i.percentOnNet,
      pa := i.pa, withoutAddon := i.withoutAddon, fuel := i.fuel, rto := i.rto,
      ccRange := i.ccRange, ncbRange := i.ncbRange,
      fixed := OrZero(ParseFloat(i.fixed)), percent := OrZero(ParseFloat(i.percent)),
      applyToAll := i.applyToAll)
  }

  function SanitizeAll(items: seq<RawGicItem>): (r: seq<GicItem>)
    ensures |r| == |items|
    ensures forall j :: 0 <= j < |items| ==> r[j] == Sanitize(items[j])
  {
    if items == [] then [] else [Sanitize(items[0])] + SanitizeAll(items[1..])
  }

  // ---------------------------------------------------------------------------
  // The merge

  /** The identity of a stored rule: its exact dealer name and the fields
      `areRulesMatching` compares. */
  function GicKey(r: GicItem): (string, MatchKey) { (r.dealerName, KeyOf(r)) }

  /** The fields `mergeItemsIntoDoc` copies onto a matching stored rule. */
  function GicOverwrite(e: GicItem, n: GicItem): GicItem {
    e.(percent := n.percent, onNet := n.onNet, percentOnNet := n.percentOnNet,
       fixed := n.fixed, applyToAll := n.applyToAll)
  }

  /** `doc.items.push(ruleToApply)`. */
  function Pushed(x: GicItem): GicItem { x }

  function IsFlagged(x: GicItem): bool { x.applyToAll }

  function ClearFlag(x: GicItem): (r: GicItem)
    ensures !r.applyToAll
  {
    x.(applyToAll := false)
  }

  /** The two rows `findIndex` pairs are those with the same dealer name
      that `areRulesMatching` accepts. */
  lemma GicKeyIsMatching(a: GicItem, b: GicItem)
    ensures GicKey(a) == GicKey(b) <==> a.dealerName == b.dealerName && AreRulesMatching(a, b)
  {
    MatchingIsKeyEquality(a, b);
  }

  /** This merge overwrites only payout fields, so it obeys the merge laws. */
  lemma GicMergeLawful()
    ensures Lawful(GicKey, GicOverwrite, Pushed)
  {
  }

  // ---------------------------------------------------------------------------
  // The save

  /** What the rule schema requires: a dealer, a company and a product
      (`required` refuses the empty text as well as a missing one). */
  predicate Complete(x: GicItem) {
    x.dealerName != "" && x.company != "" && x.product != ""
  }

  /** The request is refused before any write without a partner name, with
      a date `getCleanDate` rejects, or with no items. */
  predicate SaveRequestValid(partnerName: string, commissionDate: string, items: seq<RawGicItem>) {
    partnerName != "" && GicCleanDate(commissionDate).Some? && items != []
  }

  /** The partners whose `save()` throws: those in `failing`, and those
      whose written list the schema refuses. */
  function Throwing(records: seq<Record<string, GicItem>>, partnerName: string, dateKey: string,
                    clean: seq<GicItem>, active: seq<string>, failing: set<string>): set<string>
  {
    SaveThrowing(records, partnerName, dateKey, clean, IsFlagged, ClearFlag, GicKey, GicOverwrite, Pushed,
                 active, failing, Complete)
  }

  /** `savePartnerGICBreakdown`: `active` are the names of the Active
      partners, `failing` the partners whose write throws whatever it
      holds. */
  function SaveResult(records: seq<Record<string, GicItem>>, partnerName: string, commissionDate: string,
                      items: seq<RawGicItem>, active: seq<string>, failing: set<string>, now: int)
    : (Response, seq<Record<string, GicItem>>)
  {
    if !SaveRequestValid(partnerName, commissionDate, items) then (BadRequest, records)
    else
      var dateKey := GicCleanDate(commissionDate).value;
      var clean := SanitizeAll(items);
      Saved(records, partnerName, dateKey, clean, IsFlagged, ClearFlag, GicKey, GicOverwrite, Pushed, active,
            Throwing(records, partnerName, dateKey, clean, active, failing), now)
  }

  method Save(store: Collection<string, GicItem>, partnerName: string, commissionDate: string,
              items: seq<RawGicItem>, active: seq<string>, failing: set<string>, now: int)
    returns (resp: Response)
    modifies store
    ensures (resp, store.records) == SaveResult(old(store.records), partnerName, commissionDate, items, active, failing, now)
  {
    var dateKey := GicCleanDate(commissionDate);
    if partnerName == "" || dateKey.None? || |items| == 0 {
      return BadRequest;
    }
    var clean := SanitizeAll(items);
    var throwing := Throwing(store.records, partnerName, dateKey.value, clean, active, failing);
    resp := SaveAndPropagate(store, partnerName, dateKey.value, clean,
                             IsFlagged, ClearFlag, GicKey, GicOverwrite, Pushed, active, throwing, now);
  }

  /** An invalid request is answered 400 and writes nothing; a valid one
      is answered 200 exactly when the saver's write succeeds and the list
      it stores is complete, and, with a flagged rule, so do and is every
      other Active partner's; 500 otherwise. */
  lemma {:induction false} SaveOutcome(records: seq<Record<string, GicItem>>, partnerName: string, commissionDate: string,
                                       items: seq<RawGicItem>, active: seq<string>, failing: set<string>, now: int)
    ensures var (resp, r) := SaveResult(records, partnerName, commissionDate, items, active, failing, now);
      && (resp == BadRequest <==> !SaveRequestValid(partnerName, commissionDate, items))
      && (resp == BadRequest ==> r == records)
      && (SaveRequestValid(partnerName, commissionDate, items) ==>
            var dateKey := GicCleanDate(commissionDate).value;
            var clean := SanitizeAll(items);
            (resp == Ok <==>
               && partnerName !in failing
               && Accepts(MergeAll(ItemsAt(records, partnerName, dateKey), Cleared(clean, ClearFlag),
                                   GicKey, GicOverwrite, Pushed), Complete)
               && ((exists j :: 0 <= j < |items| && items[j].applyToAll) ==>
                     forall t :: t in OtherPartners(active, partnerName) ==>
                       && t !in failing
                       && Accepts(MergeAll(ItemsAt(records, t, dateKey), Cleared(Flagged(clean, IsFlagged), ClearFlag),
                                           GicKey, GicOverwrite, Pushed), Complete))))
  {
    if SaveRequestValid(partnerName, commissionDate, items) {
      var dateKey := GicCleanDate(commissionDate).value;
      var clean := SanitizeAll(items);
      var throwing := Throwing(records, partnerName, dateKey, clean, active, failing);
      var resp := SaveResult(records, partnerName, commissionDate, items, active, failing, now).0;
      assert resp == Saved(records, partnerName, dateKey, clean, IsFlagged, ClearFlag, GicKey, GicOverwrite, Pushed,
                           active, throwing, now).0;
      var stored := Accepts(MergeAll(ItemsAt(records, partnerName, dateKey), Cleared(clean, ClearFlag),
                                     GicKey, GicOverwrite, Pushed), Complete);
      var others := forall t :: t in OtherPartners(active, partnerName) ==>
                      && t !in failing
                      && Accepts(MergeAll(ItemsAt(records, t, dateKey), Cleared(Flagged(clean, IsFlagged), ClearFlag),
                                          GicKey, GicOverwrite, Pushed), Complete);
      assert resp == Ok <==> partnerName !in failing && stored
                             && ((exists j :: 0 <= j < |clean| && IsFlagged(clean[j])) ==> others) by {
        SavedChecked(records, partnerName, dateKey, clean,
                     IsFlagged, ClearFlag, GicKey, GicOverwrite, Pushed, active, failing, now, Complete);
      }
      assert resp == Ok || resp == ServerError by {
        SavedResponse(records, partnerName, dateKey, clean, IsFlagged, ClearFlag, GicKey, GicOverwrite, Pushed,
                      active, throwing, now);
      }
      SanitizeKeepsFlags(items);
    }
  }

  /** Some sanitised rule is flagged exactly when some submitted one is. */
  lemma SanitizeKeepsFlags(items: seq<RawGicItem>)
    ensures (exists j :: 0 <= j < |items| && items[j].applyToAll)
        <==> (exists j :: 0 <= j < |SanitizeAll(items)| && IsFlagged(SanitizeAll(items)[j]))
  {
    var clean := SanitizeAll(items);
    SanitizeFlagAt(items);
    if j :| 0 <= j < |items| && items[j].applyToAll {
      assert IsFlagged(clean[j]);
    }
    if j :| 0 <= j < |clean| && IsFlagged(clean[j]) {
      assert items[j].applyToAll;
    }
  }

  lemma SanitizeFlagAt(items: seq<RawGicItem>)
    ensures |SanitizeAll(items)| == |items|
    ensures forall j :: 0 <= j < |items| ==> (items[j].applyToAll <==> IsFlagged(SanitizeAll(items)[j]))
  {
  }

  /** No stored rule, the saver's or another partner's, ever keeps the
      "apply to all" flag. */
  lemma {:induction false} SaveNeverStoresFlag(records: seq<Record<string, GicItem>>, partnerName: string, commissionDate: string,
                            items: seq<RawGicItem>, active: seq<string>, failing: set<string>, now: int)
    requires AllItems(records, (x: GicItem) => !IsFlagged(x))
    ensures AllItems(SaveResult(records, partnerName, commissionDate, items, active, failing, now).1,
                     (x: GicItem) => !IsFlagged(x))
  {
    if SaveRequestValid(partnerName, commissionDate, items) {
      var dateKey := GicCleanDate(commissionDate).value;
      var clean := SanitizeAll(items);
      FlagNeverStored(records, partnerName, dateKey, clean, IsFlagged, ClearFlag, GicKey, GicOverwrite, Pushed, active,
                      Throwing(records, partnerName, dateKey, clean, active, failing), now);
    }
  }

  /** After a successful save with flagged rules, every other active
      partner has a set for the date holding the flagged rules merged in;
      rules without the flag reach no other partner. */
  lemma {:induction false} SavePropagatesFlagged(records: seq<Record<string, GicItem>>, partnerName: string, commissionDate: string,
                              items: seq<RawGicItem>, active: seq<string>, failing: set<string>, now: int, t: string)
    requires SaveResult(records, partnerName, commissionDate, items, active, failing, now).0 == Ok
    requires exists j :: 0 <= j < |items| && items[j].applyToAll
    requires t in active && Normalize(t) != Normalize(partnerName)
    ensures var dateKey := GicCleanDate(commissionDate).value;
      var r := SaveResult(records, partnerName, commissionDate, items, active, failing, now).1;
      && FindRecord(r, t, dateKey).Some?
      && ItemsAt(r, t, dateKey) == MergeAll(ItemsAt(records, t, dateKey),
                                            Cleared(Flagged(SanitizeAll(items), IsFlagged), ClearFlag),
                                            GicKey, GicOverwrite, Pushed)
  {
    var dateKey := GicCleanDate(commissionDate).value;
    var clean := SanitizeAll(items);
    var throwing := Throwing(records, partnerName, dateKey, clean, active, failing);
    assert SaveResult(records, partnerName, commissionDate, items, active, failing, now)
        == Saved(records, partnerName, dateKey, clean, IsFlagged, ClearFlag, GicKey, GicOverwrite, Pushed, active, throwing, now);
    var j :| 0 <= j < |items| && items[j].applyToAll;
    assert IsFlagged(clean[j]);
    GicMergeLawful();
    OthersGetFlagged(records, partnerName, dateKey, clean,
                     IsFlagged, ClearFlag, GicKey, GicOverwrite, Pushed, active, throwing, now, t);
  }

  // ---------------------------------------------------------------------------
  // The GET view

  /** A row of `mergedData`: the dealer rule with the partner's saved
      values laid over it, the dealer set's date, and whether a saved rule
      matched. */
  datatype ViewRow = ViewRow(item: GicItem, date: int, isSaved: bool)

  /** The row for one dealer rule: `savedMatch` is the first saved rule of
      that dealer that matches it. */
  function RowFor(dealer: string, date: int, rule: GicItem, saved: seq<GicItem>): ViewRow {
    var m := Find(saved, (dealer, KeyOf(rule)), GicKey);
    var net := if m.Some? then m.value.onNet || m.value.percentOnNet else rule.onNet || rule.percentOnNet;
    ViewRow(rule.(dealerName := dealer, dealerPercent := rule.percent,
                  percent := if m.Some? then m.value.percent else 0.0,
                  onNet := net, percentOnNet := net,
                  applyToAll := m.Some? && m.value.applyToAll),
            date, m.Some?)
  }

  function RowsOfDoc(doc: Record<int, GicItem>, saved: seq<GicItem>): (r: seq<ViewRow>)
    ensures |r| == |doc.items|
    ensures forall j :: 0 <= j < |r| ==> r[j] == RowFor(doc.owner, doc.dateKey, doc.items[j], saved)
  {
    seq(|doc.items|, j requires 0 <= j < |doc.items| => RowFor(doc.owner, doc.dateKey, doc.items[j], saved))
  }

  function RowsOf(docs: seq<Record<int, GicItem>>, saved: seq<GicItem>): seq<ViewRow> {
    if docs == [] then [] else RowsOfDoc(docs[0], saved) + RowsOf(docs[1..], saved)
  }

  function ByDealer(a: ViewRow, b: ViewRow): bool { Sorting.StrLess(a.item.dealerName, b.item.dealerName) }

  /** The saved partner rules the view uses: none without a partner name,
      else the set in force on the date. */
  function SavedRules(partnerRecords: seq<Record<string, GicItem>>, pName: string, date: string): seq<GicItem> {
    if pName == "" then []
    else match Resolve(partnerRecords, pName, GicCleanDate(date))
      case Some(r) => r.items
      case None => []
  }

  /** `getPartnerGICBreakdown`: `dayEnd` is the last moment of the requested
      day, as `new Date(date)` and `setHours(23, 59, 59, 999)` give it, and
      None when `new Date(date)` is an Invalid Date; the dealer query's
      `$lte` bound then fails to cast and the handler answers 500. */
  function GetView(partnerRecords: seq<Record<string, GicItem>>, dealerDocs: seq<Record<int, GicItem>>,
                   pName: string, date: string, dayEnd: Option<int>): (Response, seq<ViewRow>)
  {
    if date == "" then (BadRequest, [])
    else if dayEnd.None? then (ServerError, [])
    else
      var rows := RowsOf(LatestPerOwner(dealerDocs, dayEnd.value), SavedRules(partnerRecords, pName, date));
      (Ok, Sorting.SortBy(rows, ByDealer))
  }

  /** Each row shows the saved percentage of the first saved rule of its
      dealer that matches it, or 0 with no saved rule, and is marked saved
      exactly when there is one. */
  lemma {:induction false} RowForMeaning(dealer: string, date: int, rule: GicItem, saved: seq<GicItem>)
    ensures var row := RowFor(dealer, date, rule, saved);
      && row.item.dealerName == dealer && row.item.dealerPercent == rule.percent
      && AreRulesMatching(row.item, rule)
      && (row.isSaved <==> exists s :: s in saved && s.dealerName == dealer && AreRulesMatching(s, rule))
      && (!row.isSaved ==> row.item.percent == 0.0 && !row.item.applyToAll
                           && row.item.onNet == (rule.onNet || rule.percentOnNet))
      && (row.isSaved ==> exists j :: 0 <= j < |saved| && saved[j].dealerName == dealer && AreRulesMatching(saved[j], rule)
                            && row.item.percent == saved[j].percent
                            && (forall i :: 0 <= i < j ==> !(saved[i].dealerName == dealer && AreRulesMatching(saved[i], rule))))
  {
    var k := (dealer, KeyOf(rule));
    forall s | s in saved
      ensures GicKey(s) == k <==> s.dealerName == dealer && AreRulesMatching(s, rule)
    {
      MatchingIsKeyEquality(s, rule);
    }
    if FirstIndex(saved, k, GicKey).Some? {
      var j := FirstIndex(saved, k, GicKey).value;
      MatchingIsKeyEquality(saved[j], rule);
      forall i | 0 <= i < j
        ensures !(saved[i].dealerName == dealer && AreRulesMatching(saved[i], rule))
      {
        MatchingIsKeyEquality(saved[i], rule);
      }
    } else {
      forall s | s in saved
        ensures !(s.dealerName == dealer && AreRulesMatching(s, rule))
      {
        var i :| 0 <= i < |saved| && saved[i] == s;
        MatchingIsKeyEquality(s, rule);
      }
    }
  }

  /** 400 without a date, and 500 with no rows for a date `new Date` cannot
      read. Otherwise the view is sorted by dealer name and holds exactly
      the rows of the dealers' sets in force. */
  lemma {:induction false} GetViewMeaning(partnerRecords: seq<Record<string, GicItem>>, dealerDocs: seq<Record<int, GicItem>>,
                       pName: string, date: string, dayEnd: Option<int>)
    ensures var (resp, rows) := GetView(partnerRecords, dealerDocs, pName, date, dayEnd);
      && (resp == BadRequest <==> date == "")
      && (resp == ServerError <==> date != "" && dayEnd.None?)
      && (resp != Ok ==> rows == [])
      && (resp == Ok ==>
            && Sorting.Sorted(rows, ByDealer)
            && multiset(rows) == multiset(RowsOf(LatestPerOwner(dealerDocs, dayEnd.value),
                                                 SavedRules(partnerRecords, pName, date))))
  {
    if date != "" && dayEnd.Some? {
      var rows := RowsOf(LatestPerOwner(dealerDocs, dayEnd.value), SavedRules(partnerRecords, pName, date));
      Sorting.StrLessTotal();
      Sorting.KeyedWeakOrder(ByDealer, (r: ViewRow) => r.item.dealerName, Sorting.StrLess);
      Sorting.SortBySorted(rows, ByDealer);
    }
  }

  /** The saved rules of a partner with a set for exactly the requested
      date are that set's items. */
  lemma SavedRulesExact(partnerRecords: seq<Record<string, GicItem>>, pName: string, date: string)
    requires pName != "" && GicCleanDate(date).Some?
    requires FindRecord(partnerRecords, pName, GicCleanDate(date).value).Some?
    ensures SavedRules(partnerRecords, pName, date) == ItemsAt(partnerRecords, pName, GicCleanDate(date).value)
  {
    ResolveMeaning(partnerRecords, pName, GicCleanDate(date));
  }

  /** A row whose dealer rule finds a saved rule that already carries the
      percentage, net flag and "apply to all" value of `last` shows those. */
  lemma RowForFound(dealer: string, date: int, rule: GicItem, saved: seq<GicItem>, last: GicItem)
    requires Find(saved, (dealer, KeyOf(rule)), GicKey).Some?
    requires GicOverwrite(Find(saved, (dealer, KeyOf(rule)), GicKey).value, last)
             == Find(saved, (dealer, KeyOf(rule)), GicKey).value
    ensures var row := RowFor(dealer, date, rule, saved);
      row.isSaved && row.item.percent == last.percent && row.item.applyToAll == last.applyToAll
  {
  }

  /** Saving and reading the same date back gives the partner's stored
      rules of that date merged with the cleaned batch, when the saver's
      write goes through and the merged list is complete. */
  lemma SaveThenRead(records: seq<Record<string, GicItem>>, partnerName: string, commissionDate: string,
                     items: seq<RawGicItem>, active: seq<string>, failing: set<string>, now: int)
    requires SaveRequestValid(partnerName, commissionDate, items)
    requires partnerName !in failing
    requires Accepts(MergeAll(ItemsAt(records, partnerName, GicCleanDate(commissionDate).value),
                              Cleared(SanitizeAll(items), ClearFlag), GicKey, GicOverwrite, Pushed), Complete)
    ensures var r := SaveResult(records, partnerName, commissionDate, items, active, failing, now).1;
      SavedRules(r, partnerName, commissionDate)
      == MergeAll(ItemsAt(records, partnerName, GicCleanDate(commissionDate).value),
                  Cleared(SanitizeAll(items), ClearFlag), GicKey, GicOverwrite, Pushed)
  {
    var dateKey := GicCleanDate(commissionDate).value;
    var clean := SanitizeAll(items);
    var r := SaveResult(records, partnerName, commissionDate, items, active, failing, now).1;
    var throwing := Throwing(records, partnerName, dateKey, clean, active, failing);
    SaverIsNoTarget(active, partnerName);
    assert partnerName !in throwing;
    assert r == Saved(records, partnerName, dateKey, clean, IsFlagged, ClearFlag, GicKey, GicOverwrite, Pushed,
                      active, throwing, now).1;
    SaverGetsItems(records, partnerName, dateKey, clean,
                   IsFlagged, ClearFlag, GicKey, GicOverwrite, Pushed, active, throwing, now);
    SavedRulesExact(r, partnerName, commissionDate);
  }

  /** Saving a rule and reading the same date back: the saver's view of any
      dealer rule that the last saved item for it matches shows that
      item's percentage and is marked saved. */
  lemma SaveThenView(records: seq<Record<string, GicItem>>, partnerName: string, commissionDate: string,
                     items: seq<RawGicItem>, active: seq<string>, failing: set<string>, now: int,
                     dealer: string, date: int, rule: GicItem)
    requires SaveRequestValid(partnerName, commissionDate, items)
    requires partnerName !in failing
    requires Accepts(MergeAll(ItemsAt(records, partnerName, GicCleanDate(commissionDate).value),
                              Cleared(SanitizeAll(items), ClearFlag), GicKey, GicOverwrite, Pushed), Complete)
    requires LastWith(Cleared(SanitizeAll(items), ClearFlag), (dealer, KeyOf(rule)), GicKey).Some?
    ensures var r := SaveResult(records, partnerName, commissionDate, items, active, failing, now).1;
      var row := RowFor(dealer, date, rule, SavedRules(r, partnerName, commissionDate));
      && row.isSaved
      && row.item.percent == LastWith(Cleared(SanitizeAll(items), ClearFlag), (dealer, KeyOf(rule)), GicKey).value.percent
      && !row.item.applyToAll
  {
    var stored := ItemsAt(records, partnerName, GicCleanDate(commissionDate).value);
    var batch := Cleared(SanitizeAll(items), ClearFlag);
    var clean := SanitizeAll(items);
    forall j | 0 <= j < |batch|
      ensures !batch[j].applyToAll
    {
      assert batch[j] == ClearFlag(clean[j]);
    }
    ViewOfMerge(stored, batch, dealer, date, rule);
    var merged := MergeAll(stored, batch, GicKey, GicOverwrite, Pushed);
    var r := SaveResult(records, partnerName, commissionDate, items, active, failing, now).1;
    SaveThenRead(records, partnerName, commissionDate, items, active, failing, now);
    assert SavedRules(r, partnerName, commissionDate) == merged;
  }

  /** After merging a batch without the "apply to all" flag, the view of a
      dealer rule that the batch's last item for it matches shows that
      item's percentage, is marked saved and is not "apply to all". */
  lemma ViewOfMerge(stored: seq<GicItem>, batch: seq<GicItem>, dealer: string, date: int, rule: GicItem)
    requires LastWith(batch, (dealer, KeyOf(rule)), GicKey).Some?
    requires forall j :: 0 <= j < |batch| ==> !batch[j].applyToAll
    ensures var row := RowFor(dealer, date, rule, MergeAll(stored, batch, GicKey, GicOverwrite, Pushed));
      && row.isSaved
      && row.item.percent == LastWith(batch, (dealer, KeyOf(rule)), GicKey).value.percent
      && !row.item.applyToAll
  {
    var merged := MergeAll(stored, batch, GicKey, GicOverwrite, Pushed);
    var k := (dealer, KeyOf(rule));
    GicMergeLawful();
    FindAfterMerge(stored, batch, GicKey, GicOverwrite, Pushed, k);
    var last := LastWith(batch, k, GicKey).value;
    LastWithIn(batch, k, GicKey);
    RowForFound(dealer, date, rule, merged, last);
  }

  // ---------------------------------------------------------------------------
  // The partner report's rule set

  /** `findOne({ partnerName }).sort({ commissionDate: -1 })`, its items or
      none: the rules the report scores every policy against. */
  function ReportRules(partnerRecords: seq<Record<string, GicItem>>, partner: string): seq<GicItem> {
    match LatestByKey(partnerRecords, partner)
    case Some(r) => r.items
    case None => []
  }

  /** The rules are the partner's set with the greatest date key as a
      string, or none when the partner has no set. */
  lemma ReportRulesMeaning(partnerRecords: seq<Record<string, GicItem>>, partner: string)
    ensures (forall x :: x in partnerRecords ==> x.owner != partner) ==> ReportRules(partnerRecords, partner) == []
    ensures (exists x :: x in partnerRecords && x.owner == partner) ==>
      exists d :: d in partnerRecords && d.owner == partner && ReportRules(partnerRecords, partner) == d.items
        && forall x :: x in partnerRecords && x.owner == partner ==> !Sorting.StrLess(d.dateKey, x.dateKey)
  {
    LatestByKeyMeaning(partnerRecords, partner);
  }

  /** `getPartnerCommissionReport` over the policies its query selected:
      400 without a partner, 404 for a name that is no partner, else one
      row per policy, in order, priced against the partner's latest rules. */
  method Report(partnerRecords: seq<Record<string, GicItem>>, partner: string, partnerKnown: bool,
                policies: seq<Policy>)
    returns (resp: Response, rows: seq<Payout>)
    ensures partner == "" ==> resp == BadRequest && rows == []
    ensures partner != "" && !partnerKnown ==> resp == NotFound && rows == []
    ensures partner != "" && partnerKnown ==> resp == Ok && |rows| == |policies|
    ensures resp == Ok ==> forall p :: 0 <= p < |policies| ==> Priced(rows[p], ReportRules(partnerRecords, partner), policies[p])
  {
    if partner == "" {
      return BadRequest, [];
    }
    if !partnerKnown {
      return NotFound, [];
    }
    var rules := ReportRules(partnerRecords, partner);
    rows := [];
    var i := 0;
    while i < |policies|
      invariant 0 <= i <= |policies| && |rows| == i
      invariant forall p :: 0 <= p < i ==> Priced(rows[p], rules, policies[p])
    {
      var row := PayoutFor(rules, policies[i]);
      PricedExtend(rows, row, rules, policies);
      rows := rows + [row];
      i := i + 1;
    }
    resp := Ok;
  }

  /** One more priced row keeps every row priced. */
  lemma PricedExtend(rows: seq<Payout>, row: Payout, rules: seq<GicItem>, policies: seq<Policy>)
    requires |rows| < |policies|
    requires forall p :: 0 <= p < |rows| ==> Priced(rows[p], rules, policies[p])
    requires Priced(row, rules, policies[|rows|])
    ensures forall p :: 0 <= p < |rows| + 1 ==> Priced((rows + [row])[p], rules, policies[p])
  {
    forall p | 0 <= p < |rows| + 1
      ensures Priced((rows + [row])[p], rules, policies[p])
    {
      if p < |rows| {
        assert (rows + [row])[p] == rows[p];
      } else {
        assert (rows + [row])[p] == row;
      }
    }
  }
}
