/** The non-motor partner commission controller: the string match key of a
    rule, the save (the saver's list replaced wholesale, flagged rules
    merged into every other partner's list by key, overwriting only the
    percentage) and the GET view over the dealers' latest rule sets. */
module PartnerNonMotor {
  import opened Wrappers
  import opened Text
  import opened Keyed
  import opened Merge
  import opened Store
  import opened PartnerSave
  import opened AsOf
  import opened DateKeys
  import DealerNonMotor

  /** A partner's non-motor rule as the request sends it and the store
      keeps it; numbers are JSON numbers, `None` when missing. */
  datatype NonMotorItem = NonMotorItem(
    dealerName: string, company: string, product: string, policyType: string,
    netPremiumRange: string, minPremium: Option<real>, maxPremium: Option<real>,
    percent: Option<real>, partnerPercent: Option<real>, applyToAll: bool)

  // ---------------------------------------------------------------------------
  // The match key

  /** The fields `generateMatchKey` reads. */
  datatype KeyFields = KeyFields(
    dealerName: string, company: string, product: string, policyType: string,
    netPremiumRange: string, minPremium: Option<real>, maxPremium: Option<real>)

  function FieldsOf(x: NonMotorItem): KeyFields {
    KeyFields(x.dealerName, x.company, x.product, x.policyType, x.netPremiumRange, x.minPremium, x.maxPremium)
  }

  /** `parseFloat(item.minPremium) || 0`. */
  function Low(x: KeyFields): real { if Truthy(x.minPremium) then x.minPremium.value else 0.0 }

  /** `parseFloat(item.maxPremium) || 999999999`. */
  function High(x: KeyFields): real { if Truthy(x.maxPremium) then x.maxPremium.value else 999999999.0 }

  /** Whether the rule's range comes from its `netPremiumRange` text. */
  predicate RangeGiven(x: KeyFields) {
    x.netPremiumRange != "" && Normalize(x.netPremiumRange) != "all"
  }

  /** The range part of `generateMatchKey`. */
  function RangeKey(x: KeyFields): string {
    if RangeGiven(x) then Normalize(x.netPremiumRange)
    else if Low(x) == 0.0 && High(x) > 90000000.0 then "all"
    else NumberText(Low(x)) + "-" + NumberText(High(x))
  }

  /** The five parts of `generateMatchKey`, in order. */
  function KeyParts(x: KeyFields): seq<string> {
    [Normalize(x.dealerName), Normalize(x.company), Normalize(x.product), Normalize(x.policyType), RangeKey(x)]
  }

  /** `generateMatchKey`: `dealer|company|product|policy|range`. */
  function MatchKey(x: NonMotorItem): string { Join(KeyParts(FieldsOf(x)), '|') }

  /** The range part is the normalised range text when one is given and is
      not "all"; otherwise it is "all" exactly when the lower bound is 0
      and the upper one is above 90000000, and "min-max" else. */
  lemma RangeKeyMeaning(x: KeyFields)
    ensures RangeGiven(x) ==> RangeKey(x) == Normalize(x.netPremiumRange)
    ensures !RangeGiven(x) ==> (RangeKey(x) == "all" <==> Low(x) == 0.0 && High(x) > 90000000.0)
    ensures !RangeGiven(x) && RangeKey(x) != "all" ==> RangeKey(x) == NumberText(Low(x)) + "-" + NumberText(High(x))
  {
    if !RangeGiven(x) && !(Low(x) == 0.0 && High(x) > 90000000.0) {
      var r := NumberText(Low(x)) + "-" + NumberText(High(x));
      assert r[|NumberText(Low(x))|] == '-';
      assert '-' !in "all";
    }
  }

  lemma NormalizeAll()
    ensures Normalize("all") == "all"
  {
    NormalizeOfNormal("all");
  }

  lemma NormalizeCapitalAll()
    ensures Normalize("All") == "all"
  {
    TrimOfTrimmed("All");
    var t := ToLower("All");
    assert t[0] == LowerChar('A') == 'a' && t[1] == LowerChar('l') && t[2] == LowerChar('l');
    assert t == "all";
  }

  /** The wildcard spellings of a range key alike: no range at all, the
      text "All", and the schema's default bounds 0 and 99999999. */
  lemma RangeWildcards(x: KeyFields)
    requires x.netPremiumRange == "" || x.netPremiumRange == "All"
    requires x.minPremium.None? || x.minPremium == Some(0.0)
    requires x.maxPremium.None? || x.maxPremium == Some(99999999.0)
    ensures RangeKey(x) == "all"
  {
    NormalizeAll();
    NormalizeCapitalAll();
  }

  lemma NormalizeZeroFive()
    ensures Normalize("0-5") == "0-5"
  {
    NormalizeOfNormal("0-5");
  }

  lemma RangeTextZeroFive(x: KeyFields)
    requires x.netPremiumRange == "0-5"
    ensures RangeKey(x) == "0-5"
  {
    NormalizeZeroFive();
    assert RangeGiven(x);
  }

  /** Whole bounds that are not the wildcard show as "lo-hi". */
  lemma RangeOfWholeBounds(y: KeyFields, lo: nat, hi: nat)
    requires !RangeGiven(y) && Low(y) == lo as real && High(y) == hi as real
    requires !(lo == 0 && hi > 90000000)
    ensures RangeKey(y) == NatText(lo) + "-" + NatText(hi)
  {
    NumberTextOfNat(lo);
    NumberTextOfNat(hi);
  }

  lemma RangeBoundsZeroFive(y: KeyFields)
    requires y.netPremiumRange == "" && y.minPremium.None? && y.maxPremium == Some(5.0)
    ensures RangeKey(y) == "0-5"
  {
    RangeOfWholeBounds(y, 0, 5);
  }

  /** The range text "0-5" and the bounds (none, 5) give the same key. */
  lemma RangeTextMatchesBounds(x: KeyFields, y: KeyFields)
    requires x.netPremiumRange == "0-5"
    requires y.netPremiumRange == "" && y.minPremium.None? && y.maxPremium == Some(5.0)
    ensures RangeKey(x) == RangeKey(y) == "0-5"
  {
    RangeTextZeroFive(x);
    RangeBoundsZeroFive(y);
  }

  /** A range of blanks is given (the text is not empty) but normalises to
      the empty text, so it is not the wildcard whatever the bounds say;
      the same rule with an empty range is. */
  lemma BlankRangeIsNoWildcard(x: KeyFields)
    requires x.netPremiumRange == " " && x.minPremium.None? && x.maxPremium.None?
    ensures RangeKey(x) == ""
    ensures RangeKey(x.(netPremiumRange := "")) == "all"
  {
    assert TrimStart(" ") == "";
  }

  /** The key only sees the text fields through their normal form. */
  lemma MatchKeyOfNormalized(x: NonMotorItem)
    ensures MatchKey(x.(dealerName := Normalize(x.dealerName), company := Normalize(x.company),
                        product := Normalize(x.product), policyType := Normalize(x.policyType))) == MatchKey(x)
  {
    var f := FieldsOf(x);
    var g := FieldsOf(x.(dealerName := Normalize(x.dealerName), company := Normalize(x.company),
                         product := Normalize(x.product), policyType := Normalize(x.policyType)));
    assert g == f.(dealerName := Normalize(f.dealerName), company := Normalize(f.company),
                   product := Normalize(f.product), policyType := Normalize(f.policyType));
    KeyPartsOfNormalized(f);
  }

  lemma KeyPartsOfNormalized(f: KeyFields)
    ensures KeyParts(f.(dealerName := Normalize(f.dealerName), company := Normalize(f.company),
                        product := Normalize(f.product), policyType := Normalize(f.policyType))) == KeyParts(f)
  {
    var g := f.(dealerName := Normalize(f.dealerName), company := Normalize(f.company),
                product := Normalize(f.product), policyType := Normalize(f.policyType));
    assert RangeKey(g) == RangeKey(f) by {
      assert g.netPremiumRange == f.netPremiumRange && Low(g) == Low(f) && High(g) == High(f);
    }
    NormalizeIdempotent(f.dealerName);
    NormalizeIdempotent(f.company);
    NormalizeIdempotent(f.product);
    NormalizeIdempotent(f.policyType);
  }

  /** The written bounds hold no '|'. */
  lemma NumberTextNoBar(v: real)
    ensures '|' !in NumberText(v)
  {
    var a := if v < 0.0 then -v else v;
    var i := a.Floor;
    var body := NatText(i) + (if a == i as real then [] else ['.'] + FractionText(a - i as real, 20));
    assert forall k :: 0 <= k < |body| ==> IsDigit(body[k]) || body[k] == '.';
  }

  /** No text field of the rule holds a '|'. */
  predicate NoBar(x: KeyFields) {
    '|' !in x.dealerName && '|' !in x.company && '|' !in x.product && '|' !in x.policyType
    && '|' !in x.netPremiumRange
  }

  lemma RangeKeyNoBar(x: KeyFields)
    requires '|' !in x.netPremiumRange
    ensures '|' !in RangeKey(x)
  {
    if RangeGiven(x) {
      NormalizeKeepsOut(x.netPremiumRange, '|');
    } else if !(Low(x) == 0.0 && High(x) > 90000000.0) {
      NumberTextNoBar(Low(x));
      NumberTextNoBar(High(x));
    }
  }

  lemma KeyPartsNoBar(x: KeyFields)
    requires NoBar(x)
    ensures forall i :: 0 <= i < |KeyParts(x)| ==> '|' !in KeyParts(x)[i]
  {
    NormalizeKeepsOut(x.dealerName, '|');
    NormalizeKeepsOut(x.company, '|');
    NormalizeKeepsOut(x.product, '|');
    NormalizeKeepsOut(x.policyType, '|');
    RangeKeyNoBar(x);
  }

  /** Two rules without '|' in their text have the same key exactly when
      their normalised dealer, company, product and policy type and their
      range parts agree. */
  lemma MatchKeyExact(x: NonMotorItem, y: NonMotorItem)
    requires NoBar(FieldsOf(x)) && NoBar(FieldsOf(y))
    ensures MatchKey(x) == MatchKey(y) <==> KeyParts(FieldsOf(x)) == KeyParts(FieldsOf(y))
  {
    KeyPartsNoBar(FieldsOf(x));
    KeyPartsNoBar(FieldsOf(y));
    JoinInjective(KeyParts(FieldsOf(x)), KeyParts(FieldsOf(y)), '|');
  }

  /** Lower-case letters and digits only. */
  predicate Plain(s: string) {
    forall i :: 0 <= i < |s| ==> IsLowerAlnum(s[i])
  }

  lemma PlainNormal(s: string)
    requires Plain(s)
    ensures Normalize(s) == s
  {
    NormalizeOfNormal(s);
  }

  lemma BarredNormal(a: string, b: string)
    requires Plain(a) && Plain(b)
    ensures Normalize(a + "|" + b) == a + "|" + b
  {
    var s := a + "|" + b;
    assert forall i :: 0 <= i < |s| ==> s[i] == '|' || IsLowerAlnum(s[i]);
    NormalizeOfNormal(s);
  }

  /** The parts of a rule without range text and bounds whose text fields
      are already in normal form. */
  lemma KeyPartsOfNormal(x: KeyFields)
    requires Normalize(x.dealerName) == x.dealerName && Normalize(x.company) == x.company
    requires Normalize(x.product) == x.product && Normalize(x.policyType) == x.policyType
    requires x.netPremiumRange == "" && x.minPremium.None? && x.maxPremium.None?
    ensures KeyParts(x) == [x.dealerName, x.company, x.product, x.policyType, "all"]
  {
    assert RangeKey(x) == "all";
  }

  lemma CollidingParts(a: string, b: string, c: string, p: string, t: string)
    requires Plain(a) && Plain(b) && Plain(c) && Plain(p) && Plain(t)
    ensures KeyParts(KeyFields(a + "|" + b, c, p, t, "", None, None)) == [a + "|" + b, c, p, t, "all"]
    ensures KeyParts(KeyFields(a, b + "|" + c, p, t, "", None, None)) == [a, b + "|" + c, p, t, "all"]
  {
    BarredNormal(a, b);
    BarredNormal(b, c);
    PlainNormal(a);
    PlainNormal(c);
    PlainNormal(p);
    PlainNormal(t);
    KeyPartsOfNormal(KeyFields(a + "|" + b, c, p, t, "", None, None));
    KeyPartsOfNormal(KeyFields(a, b + "|" + c, p, t, "", None, None));
  }

  lemma SplitFive<T>(e0: T, e1: T, e2: T, e3: T, e4: T)
    ensures [e0, e1, e2, e3, e4] == [e0, e1] + [e2, e3, e4]
  {
  }

  /** Rules whose parts differ only in where a '|' sits share a key. */
  lemma SharedKey(x: NonMotorItem, y: NonMotorItem, u: string, v: string, c: string, r: seq<string>)
    requires |r| >= 1
    requires KeyParts(FieldsOf(x)) == [u + "|" + v, c] + r
    requires KeyParts(FieldsOf(y)) == [u, v + "|" + c] + r
    ensures MatchKey(x) == MatchKey(y) && KeyParts(FieldsOf(x)) != KeyParts(FieldsOf(y))
  {
    JoinShiftsSeparator(u, v, c, r, '|');
    assert |KeyParts(FieldsOf(x))[0]| != |KeyParts(FieldsOf(y))[0]|;
  }

  /** With a '|' inside a field two different rules share a key: dealer
      "a|b" with company "c", and dealer "a" with company "b|c", for any
      plain a, b, c, product and policy type. */
  lemma BarInFieldCollides(a: string, b: string, c: string, p: string, t: string)
    requires Plain(a) && Plain(b) && Plain(c) && Plain(p) && Plain(t)
    ensures var x := NonMotorItem(a + "|" + b, c, p, t, "", None, None, None, None, false);
      var y := NonMotorItem(a, b + "|" + c, p, t, "", None, None, None, None, false);
      MatchKey(x) == MatchKey(y) && KeyParts(FieldsOf(x)) != KeyParts(FieldsOf(y))
  {
    var x := NonMotorItem(a + "|" + b, c, p, t, "", None, None, None, None, false);
    var y := NonMotorItem(a, b + "|" + c, p, t, "", None, None, None, None, false);
    assert FieldsOf(x) == KeyFields(a + "|" + b, c, p, t, "", None, None);
    assert FieldsOf(y) == KeyFields(a, b + "|" + c, p, t, "", None, None);
    CollidingParts(a, b, c, p, t);
    SplitFive(a + "|" + b, c, p, t, "all");
    SplitFive(a, b + "|" + c, p, t, "all");
    SharedKey(x, y, a, b, c, [p, t, "all"]);
  }

  // ---------------------------------------------------------------------------
  // The save

  /** `parseFloat(item.percent || item.partnerPercent) || 0`, the saver's
      percentage. */
  function SavedPercent(x: NonMotorItem): real {
    OrZero(if Truthy(x.percent) then x.percent else x.partnerPercent)
  }

  /** `ruleToApply.percent || ruleToApply.partnerPercent || 0`, the
      propagated percentage. */
  function PropagatedPercent(x: NonMotorItem): real {
    if Truthy(x.percent) then x.percent.value else if Truthy(x.partnerPercent) then x.partnerPercent.value else 0.0
  }

  /** On numbers the two spellings of the percentage agree: the saver and
      the other partners get the same value. */
  lemma PercentsAgree(x: NonMotorItem)
    ensures SavedPercent(x) == PropagatedPercent(x)
    ensures Truthy(x.percent) ==> SavedPercent(x) == x.percent.value
    ensures !Truthy(x.percent) && !Truthy(x.partnerPercent) ==> SavedPercent(x) == 0.0
  {
  }

  /** The rule as the schema casts it into a stored rule: the defaults fill
      a missing dealer ("Unknown"), policy type ("All"), lower and upper
      bound (0 and 99999999) and percentage (0), and the range text and the
      partner percentage, which the schema does not declare, are dropped. */
  function Stored(x: NonMotorItem): (r: NonMotorItem)
    ensures r.dealerName != "" && r.policyType != "" && r.netPremiumRange == ""
    ensures r.minPremium.Some? && r.maxPremium.Some? && r.percent.Some? && r.partnerPercent.None?
    ensures r.company == x.company && r.product == x.product && r.applyToAll == x.applyToAll
    ensures r.dealerName == (if x.dealerName == "" then "Unknown" else x.dealerName)
    ensures r.policyType == (if x.policyType == "" then "All" else x.policyType)
    ensures x.minPremium.Some? ==> r.minPremium == x.minPremium
    ensures x.maxPremium.Some? ==> r.maxPremium == x.maxPremium
    ensures x.percent.Some? ==> r.percent == x.percent
  {
    x.(dealerName := if x.dealerName == "" then "Unknown" else x.dealerName,
       policyType := if x.policyType == "" then "All" else x.policyType,
       netPremiumRange := "",
       minPremium := Some(OrZero(x.minPremium)),
       maxPremium := Some(x.maxPremium.GetOr(99999999.0)),
       percent := Some(OrZero(x.percent)),
       partnerPercent := None)
  }

  /** The rule already holds its stored form where the key looks: it names
      its dealer and policy type and both bounds, and has no range text. */
  predicate HoldsDefaults(x: NonMotorItem) {
    x.dealerName != "" && x.policyType != "" && x.netPremiumRange == "" && x.minPremium.Some? && x.maxPremium.Some?
  }

  /** Storing a rule changes its key only when it lacks a defaulted field. */
  lemma StoredKeepsKey(x: NonMotorItem)
    requires HoldsDefaults(x)
    ensures MatchKey(Stored(x)) == MatchKey(x)
  {
    assert FieldsOf(Stored(x)) == FieldsOf(x);
  }

  /** The entry of `cleanItems`, as the upsert stores it. */
  function CleanItem(x: NonMotorItem): NonMotorItem {
    Stored(x.(percent := Some(SavedPercent(x)), applyToAll := false))
  }

  /** `newRule`, what a target that has no rule with the key gets, as the
      push stores it. */
  function NewRule(x: NonMotorItem): NonMotorItem {
    Stored(x.(percent := Some(PropagatedPercent(x)), applyToAll := false))
  }

  /** `partnerDoc.items[existingIndex].percent = newRule.percent`. */
  function Overwrite(e: NonMotorItem, n: NonMotorItem): NonMotorItem {
    e.(percent := Some(PropagatedPercent(n)))
  }

  /** `item.applyToAllPartners === true`. */
  function IsFlagged(x: NonMotorItem): bool { x.applyToAll }

  /** The merge laws hold for a batch of rules already in their stored
      form. */
  lemma NonMotorMergeLawful(batch: seq<NonMotorItem>)
    requires forall m :: 0 <= m < |batch| ==> HoldsDefaults(batch[m])
    ensures LawfulOn(MatchKey, Overwrite, NewRule, batch)
  {
    forall m | 0 <= m < |batch|
      ensures MatchKey(NewRule(batch[m])) == MatchKey(batch[m])
    {
      var x := batch[m];
      StoredKeepsKey(x.(percent := Some(PropagatedPercent(x)), applyToAll := false));
      assert FieldsOf(x.(percent := Some(PropagatedPercent(x)), applyToAll := false)) == FieldsOf(x);
    }
  }

  /** The schema's required fields: a dealer name, a company and a product;
      `save()` refuses a list with a rule that lacks one. */
  predicate Complete(x: NonMotorItem) {
    x.dealerName != "" && x.company != "" && x.product != ""
  }

  /** The writes that throw: those `failing` names, and the targets whose
      `save()` refuses the merged list; the saver's upsert runs no
      validation. */
  function Throwing(records: seq<Record<string, NonMotorItem>>, partnerName: string, dateKey: string,
                    batch: seq<NonMotorItem>, names: seq<string>, failing: set<string>): set<string>
  {
    failing + Refused(records, DistinctOtherPartners(names, partnerName), dateKey, batch, MatchKey, Overwrite, NewRule, Complete)
  }

  /** The request is refused without a partner name, without a date key
      (a date of no digits gives the empty key), or without an items list;
      an empty list is accepted. */
  predicate SaveRequestValid(partnerName: string, commissionDate: string, items: Option<seq<NonMotorItem>>) {
    partnerName != "" && SplitDateKey(commissionDate).Some? && SplitDateKey(commissionDate).value != "" && items.Some?
  }

  /** `savePartnerNonMotorBreakdown`; `names` are the partner names the scan
      of the database finds, in the order it finds them. */
  function SaveResult(records: seq<Record<string, NonMotorItem>>, partnerName: string, commissionDate: string,
                      items: Option<seq<NonMotorItem>>, names: seq<string>, failing: set<string>, now: int)
    : (Response, seq<Record<string, NonMotorItem>>)
  {
    if !SaveRequestValid(partnerName, commissionDate, items) then (BadRequest, records)
    else
      var dateKey := SplitDateKey(commissionDate).value;
      var toAll := Flagged(items.value, IsFlagged);
      Replaced(records, partnerName, dateKey, Cleared(items.value, CleanItem), toAll, MatchKey, Overwrite, NewRule,
               names, Throwing(records, partnerName, dateKey, toAll, names, failing), now)
  }

  method Save(store: Collection<string, NonMotorItem>, partnerName: string, commissionDate: string,
              items: Option<seq<NonMotorItem>>, names: seq<string>, failing: set<string>, now: int)
    returns (resp: Response)
    modifies store
    ensures (resp, store.records) == SaveResult(old(store.records), partnerName, commissionDate, items, names, failing, now)
  {
    var dateKey := SplitDateKey(commissionDate);
    if partnerName == "" || dateKey.None? || dateKey.value == "" || items.None? {
      return BadRequest;
    }
    var toAll := Flagged(items.value, IsFlagged);
    var throwing := Throwing(store.records, partnerName, dateKey.value, toAll, names, failing);
    resp := ReplaceAndPropagate(store, partnerName, dateKey.value, Cleared(items.value, CleanItem),
                                toAll, MatchKey, Overwrite, NewRule, names, throwing, now);
  }

  /** An invalid request is answered 400 and writes nothing; a valid one
      ends in 500 exactly when a write throws: the saver's, or, with some
      flagged rule, a target's, because the caller makes it fail or because
      the target's merged list holds a rule without a company or product. */
  lemma {:induction false} SaveOutcome(records: seq<Record<string, NonMotorItem>>, partnerName: string,
                                       commissionDate: string, items: Option<seq<NonMotorItem>>,
                                       names: seq<string>, failing: set<string>, now: int)
    ensures var (resp, r) := SaveResult(records, partnerName, commissionDate, items, names, failing, now);
      && (resp == BadRequest <==> !SaveRequestValid(partnerName, commissionDate, items))
      && (resp == BadRequest ==> r == records)
      && (SaveRequestValid(partnerName, commissionDate, items) ==>
            (resp == Ok <==>
               partnerName !in failing
               && ((exists j :: 0 <= j < |items.value| && items.value[j].applyToAll) ==>
                     forall t :: t in DistinctOtherPartners(names, partnerName) ==>
                       && t !in failing
                       && Accepts(MergeAll(ItemsAt(records, t, SplitDateKey(commissionDate).value),
                                           Flagged(items.value, IsFlagged), MatchKey, Overwrite, NewRule), Complete))))
  {
    if SaveRequestValid(partnerName, commissionDate, items) {
      var dateKey := SplitDateKey(commissionDate).value;
      var toAll := Flagged(items.value, IsFlagged);
      SaverIsNoDistinctTarget(names, partnerName);
      ReplacedResponse(records, partnerName, dateKey, Cleared(items.value, CleanItem),
                       toAll, MatchKey, Overwrite, NewRule, names, Throwing(records, partnerName, dateKey, toAll, names, failing), now);
      if toAll != [] {
        assert IsFlagged(toAll[0]) && toAll[0] in items.value;
      }
    }
  }

  /** Unless the saver's write throws, the saver's list for the date is
      replaced by the submitted rules in their stored form, each with its
      saved percentage and the flag off, whatever the list held before. */
  lemma {:induction false} SaverReplaced(records: seq<Record<string, NonMotorItem>>, partnerName: string,
                                         commissionDate: string, items: Option<seq<NonMotorItem>>,
                                         names: seq<string>, failing: set<string>, now: int)
    requires SaveRequestValid(partnerName, commissionDate, items) && partnerName !in failing
    ensures var r := SaveResult(records, partnerName, commissionDate, items, names, failing, now).1;
      var saved := ItemsAt(r, partnerName, SplitDateKey(commissionDate).value);
      && FindRecord(r, partnerName, SplitDateKey(commissionDate).value).Some?
      && |saved| == |items.value|
      && forall j :: 0 <= j < |saved| ==>
           saved[j] == Stored(items.value[j].(percent := Some(SavedPercent(items.value[j])), applyToAll := false))
  {
    var dateKey := SplitDateKey(commissionDate).value;
    var toAll := Flagged(items.value, IsFlagged);
    SaverIsNoDistinctTarget(names, partnerName);
    ReplacedSaver(records, partnerName, dateKey, Cleared(items.value, CleanItem),
                  toAll, MatchKey, Overwrite, NewRule, names, Throwing(records, partnerName, dateKey, toAll, names, failing), now);
  }

  /** No stored rule ever keeps the "apply to all" flag, whichever writes
      failed. */
  lemma {:induction false} SaveNeverStoresFlag(records: seq<Record<string, NonMotorItem>>, partnerName: string,
                                               commissionDate: string, items: Option<seq<NonMotorItem>>,
                                               names: seq<string>, failing: set<string>, now: int)
    requires AllItems(records, (x: NonMotorItem) => !IsFlagged(x))
    ensures AllItems(SaveResult(records, partnerName, commissionDate, items, names, failing, now).1,
                     (x: NonMotorItem) => !IsFlagged(x))
  {
    if SaveRequestValid(partnerName, commissionDate, items) {
      var dateKey := SplitDateKey(commissionDate).value;
      var toAll := Flagged(items.value, IsFlagged);
      ReplacedKeeps(records, partnerName, dateKey, Cleared(items.value, CleanItem),
                    toAll, MatchKey, Overwrite, NewRule, names, Throwing(records, partnerName, dateKey, toAll, names, failing), now,
                    (x: NonMotorItem) => !IsFlagged(x), (x: NonMotorItem) => true);
    }
  }

  /** After a successful save with flagged rules, every target's list for
      the date holds what it held with the flagged rules merged in by key;
      and every partner the scan found under another spelling than the
      saver's is a target under one of its spellings. */
  lemma {:induction false} SavePropagatesFlagged(records: seq<Record<string, NonMotorItem>>, partnerName: string,
                                                 commissionDate: string, items: Option<seq<NonMotorItem>>,
                                                 names: seq<string>, failing: set<string>, now: int, t: string)
    requires SaveResult(records, partnerName, commissionDate, items, names, failing, now).0 == Ok
    requires exists j :: 0 <= j < |items.value| && items.value[j].applyToAll
    requires t in DistinctOtherPartners(names, partnerName)
    ensures SaveRequestValid(partnerName, commissionDate, items)
    ensures var dateKey := SplitDateKey(commissionDate).value;
      var r := SaveResult(records, partnerName, commissionDate, items, names, failing, now).1;
      && FindRecord(r, t, dateKey).Some?
      && ItemsAt(r, t, dateKey) == MergeAll(ItemsAt(records, t, dateKey), Flagged(items.value, IsFlagged),
                                            MatchKey, Overwrite, NewRule)
    ensures forall n :: n in names && n != "" && Normalize(n) != Normalize(partnerName) ==>
              exists u :: u in DistinctOtherPartners(names, partnerName) && Normalize(u) == Normalize(n)
  {
    var dateKey := SplitDateKey(commissionDate).value;
    var toAll := Flagged(items.value, IsFlagged);
    var j :| 0 <= j < |items.value| && items.value[j].applyToAll;
    assert items.value[j] in toAll;
    ReplacedTargets(records, partnerName, dateKey, Cleared(items.value, CleanItem), toAll,
                    MatchKey, Overwrite, NewRule, names, Throwing(records, partnerName, dateKey, toAll, names, failing), now, t);
    DistinctOtherPartnersMeaning(names, partnerName);
  }

  /** Sending the same save again, at the same moment, succeeds and leaves
      the store as it was, when every flagged rule already holds its stored
      form: no partner gains a rule. */
  lemma {:induction false} SaveRepeat(records: seq<Record<string, NonMotorItem>>, partnerName: string,
                                      commissionDate: string, items: Option<seq<NonMotorItem>>,
                                      names: seq<string>, failing: set<string>, now: int)
    requires SaveResult(records, partnerName, commissionDate, items, names, failing, now).0 == Ok
    requires forall j :: 0 <= j < |items.value| && items.value[j].applyToAll ==> HoldsDefaults(items.value[j])
    ensures var once := SaveResult(records, partnerName, commissionDate, items, names, failing, now).1;
      SaveResult(once, partnerName, commissionDate, items, names, failing, now) == (Ok, once)
  {
    var toAll := Flagged(items.value, IsFlagged);
    NonMotorMergeLawful(toAll);
    ReplacedRepeatChecked(records, partnerName, SplitDateKey(commissionDate).value, Cleared(items.value, CleanItem),
                          toAll, MatchKey, Overwrite, NewRule, names, failing, now, Complete);
  }

  /** A flagged rule without a policy type is stored with "All", whose key
      is not the one it is looked up by: each repeat of the save appends it
      to the target once more. */
  lemma {:induction false} RepeatAppendsAgain(partnerName: string, commissionDate: string, x: NonMotorItem,
                                              names: seq<string>, t: string, now: int)
    requires SaveRequestValid(partnerName, commissionDate, Some([x]))
    requires x.applyToAll && x.policyType == "" && x.company != "" && x.product != "" && NoBar(FieldsOf(x))
    requires DistinctOtherPartners(names, partnerName) == [t]
    ensures var dateKey := SplitDateKey(commissionDate).value;
      var mine := Cleared([x], CleanItem);
      var o1 := [Record(partnerName, dateKey, mine, now), Record(t, dateKey, [NewRule(x)], now)];
      && SaveResult([], partnerName, commissionDate, Some([x]), names, {}, now) == (Ok, o1)
      && SaveResult(o1, partnerName, commissionDate, Some([x]), names, {}, now)
         == (Ok, o1[1 := o1[1].(items := [NewRule(x), NewRule(x)])])
  {
    FirstRepeatSave(partnerName, commissionDate, x, names, t, now);
    SecondRepeatSave(partnerName, commissionDate, x, names, t, now);
  }

  /** The first save of `RepeatAppendsAgain`: the saver's record and the
      target's record holding the stored rule. */
  lemma FirstRepeatSave(partnerName: string, commissionDate: string, x: NonMotorItem,
                        names: seq<string>, t: string, now: int)
    requires SaveRequestValid(partnerName, commissionDate, Some([x]))
    requires x.applyToAll && x.company != "" && x.product != ""
    requires DistinctOtherPartners(names, partnerName) == [t]
    ensures var dateKey := SplitDateKey(commissionDate).value;
      SaveResult([], partnerName, commissionDate, Some([x]), names, {}, now)
      == (Ok, [Record(partnerName, dateKey, Cleared([x], CleanItem), now), Record(t, dateKey, [NewRule(x)], now)])
  {
    var dateKey := SplitDateKey(commissionDate).value;
    var mine := Cleared([x], CleanItem);
    SaverIsNoDistinctTarget(names, partnerName);
    assert Flagged([x], IsFlagged) == [x];
    RepeatRefusesNone([], dateKey, x, t);
    assert Throwing([], partnerName, dateKey, [x], names, {}) == {};
    var u := Upserted([], partnerName, dateKey, mine, now);
    assert u == [Record(partnerName, dateKey, mine, now)];
    assert SaveResult([], partnerName, commissionDate, Some([x]), names, {}, now)
        == Replaced([], partnerName, dateKey, mine, [x], MatchKey, Overwrite, NewRule, names, {}, now);
    assert Replaced([], partnerName, dateKey, mine, [x], MatchKey, Overwrite, NewRule, names, {}, now)
        == MergeEach(u, [t], dateKey, [x], MatchKey, Overwrite, NewRule, {}, now);
    FirstRepeatMerge(partnerName, dateKey, x, t, mine, MatchKey, Overwrite, NewRule, now);
  }

  /** The second save of `RepeatAppendsAgain`: the stored rule is appended
      to the target once more. */
  lemma SecondRepeatSave(partnerName: string, commissionDate: string, x: NonMotorItem,
                         names: seq<string>, t: string, now: int)
    requires SaveRequestValid(partnerName, commissionDate, Some([x]))
    requires x.applyToAll && x.policyType == "" && x.company != "" && x.product != "" && NoBar(FieldsOf(x))
    requires DistinctOtherPartners(names, partnerName) == [t]
    ensures var dateKey := SplitDateKey(commissionDate).value;
      var o1 := [Record(partnerName, dateKey, Cleared([x], CleanItem), now), Record(t, dateKey, [NewRule(x)], now)];
      SaveResult(o1, partnerName, commissionDate, Some([x]), names, {}, now)
      == (Ok, o1[1 := o1[1].(items := [NewRule(x), NewRule(x)])])
  {
    var dateKey := SplitDateKey(commissionDate).value;
    var mine := Cleared([x], CleanItem);
    SaverIsNoDistinctTarget(names, partnerName);
    assert Flagged([x], IsFlagged) == [x];
    var o1 := [Record(partnerName, dateKey, mine, now), Record(t, dateKey, [NewRule(x)], now)];
    TwoSlots(partnerName, dateKey, mine, t, [NewRule(x)], now);
    RepeatRefusesNone(o1, dateKey, x, t);
    assert Throwing(o1, partnerName, dateKey, [x], names, {}) == {};
    NewRuleKeyMoves(x);
    SecondRepeatMerge(partnerName, dateKey, x, NewRule(x), t, mine, MatchKey, Overwrite, NewRule, now);
  }

  /** A rule naming its company and product is stored complete. */
  lemma NewRuleComplete(y: NonMotorItem)
    requires y.company != "" && y.product != ""
    ensures Complete(NewRule(y))
  {
  }

  /** The target's list after each of the two saves is accepted. */
  lemma RepeatRefusesNone(records: seq<Record<string, NonMotorItem>>, dateKey: string, x: NonMotorItem, t: string)
    requires x.company != "" && x.product != ""
    requires ItemsAt(records, t, dateKey) == [] || ItemsAt(records, t, dateKey) == [NewRule(x)]
    ensures Refused(records, [t], dateKey, [x], MatchKey, Overwrite, NewRule, Complete) == {}
  {
    var items := ItemsAt(records, t, dateKey);
    NewRuleComplete(x);
    var named := (y: NonMotorItem) => y.company != "" && y.product != "";
    forall y | named(y)
      ensures Complete(NewRule(y))
    {
      NewRuleComplete(y);
    }
    MergeAllKeeps(items, [x], MatchKey, Overwrite, NewRule, Complete, named);
    assert Accepts(MergeAll(items, [x], MatchKey, Overwrite, NewRule), Complete);
  }

  /** The key of the stored rule is not the key of a rule without a policy
      type. */
  lemma NewRuleKeyMoves(x: NonMotorItem)
    requires x.policyType == "" && NoBar(FieldsOf(x))
    ensures MatchKey(NewRule(x)) != MatchKey(x)
  {
    NewRulePolicyPart(x);
    NewRuleNoBar(x);
    MatchKeyExact(NewRule(x), x);
  }

  lemma NewRulePolicyPart(x: NonMotorItem)
    requires x.policyType == ""
    ensures KeyParts(FieldsOf(NewRule(x)))[3] == "all"
    ensures KeyParts(FieldsOf(x))[3] == ""
  {
    var f := FieldsOf(NewRule(x));
    assert KeyParts(f)[3] == "all" by {
      assert f.policyType == "All";
      NormalizeCapitalAll();
    }
    assert KeyParts(FieldsOf(x))[3] == "" by {
      NormalizeOfNormal("");
    }
  }

  lemma NewRuleNoBar(x: NonMotorItem)
    requires NoBar(FieldsOf(x))
    ensures NoBar(FieldsOf(NewRule(x)))
  {
    var f := FieldsOf(NewRule(x));
    assert '|' !in "Unknown" by {
      assert forall i :: 0 <= i < |"Unknown"| ==> "Unknown"[i] != '|';
    }
    assert '|' !in "All" by {
      assert forall i :: 0 <= i < |"All"| ==> "All"[i] != '|';
    }
    assert f.dealerName == x.dealerName || f.dealerName == "Unknown";
    assert f.policyType == x.policyType || f.policyType == "All";
    assert f.netPremiumRange == "";
  }
  // ---------------------------------------------------------------------------
  // The GET view

  /** An entry of `allMasterRules`: a dealer's rule with the dealer's name
      and the date of its set. */
  datatype MasterRule = MasterRule(dealerName: string, rule: DealerNonMotor.DealerRule, dealerEntryDate: int)

  /** A row of `finalData`: the master rule with the dealer's percentage and
      the partner's saved percentage and flag laid over it. */
  datatype BreakdownRow = BreakdownRow(
    dealerName: string, rule: DealerNonMotor.DealerRule, dealerPercent: Option<real>, dealerEntryDate: int,
    percent: Option<real>, applyToAll: bool)

  /** The master rule read as a rule for `generateMatchKey`: it has no range
      text and no percentages. */
  function MasterKey(m: MasterRule): string {
    MatchKey(NonMotorItem(m.dealerName, m.rule.company, m.rule.product, m.rule.policyType, "",
                          m.rule.minPremium, m.rule.maxPremium, None, None, false))
  }

  /** The rules of the dealer's newest set (`findOne({dealerName}).sort({date: -1})`). */
  function DealerRulesOf(docs: seq<Record<int, DealerNonMotor.DealerRule>>, d: string): (r: seq<MasterRule>)
    ensures Newest(OwnedBy(docs, d)).None? ==> r == []
    ensures Newest(OwnedBy(docs, d)).Some? ==>
      var doc := Newest(OwnedBy(docs, d)).value;
      |r| == |doc.items| && forall j :: 0 <= j < |r| ==> r[j] == MasterRule(d, doc.items[j], doc.dateKey)
  {
    match Newest(OwnedBy(docs, d))
    case None => []
    case Some(doc) => seq(|doc.items|, j requires 0 <= j < |doc.items| => MasterRule(d, doc.items[j], doc.dateKey))
  }

  /** The loop over `distinctDealers`. */
  function MasterRules(names: seq<string>, docs: seq<Record<int, DealerNonMotor.DealerRule>>): seq<MasterRule>
    decreases |names|
  {
    if names == [] then []
    else
      var n := |names| - 1;
      MasterRules(names[..n], docs) + DealerRulesOf(docs, names[n])
  }

  /** `allMasterRules`; the distinct dealer names are taken in the order the
      dealers first appear. */
  function AllMasterRules(docs: seq<Record<int, DealerNonMotor.DealerRule>>): seq<MasterRule> {
    MasterRules(Owners(docs), docs)
  }

  /** The partner's set in force for the date, or no rules. */
  function SavedItems(records: seq<Record<string, NonMotorItem>>, partnerName: string, date: string): seq<NonMotorItem> {
    match Resolve(records, partnerName, SplitDateKey(date))
    case Some(r) => r.items
    case None => []
  }

  /** The row for a master rule, given the saved rule the map holds for its
      key, if any. */
  function Overlay(m: MasterRule, saved: Option<NonMotorItem>): BreakdownRow {
    BreakdownRow(m.dealerName, m.rule, m.rule.percentage, m.dealerEntryDate,
                 if saved.Some? then saved.value.percent else Some(0.0),
                 saved.Some? && saved.value.applyToAll)
  }

  function RowFor(m: MasterRule, saved: seq<NonMotorItem>): BreakdownRow {
    Overlay(m, Find(saved, MasterKey(m), MatchKey))
  }

  /** `getPartnerNonMotorBreakdown`: no rows without a partner name or a
      date. */
  function GetView(records: seq<Record<string, NonMotorItem>>, dealerDocs: seq<Record<int, DealerNonMotor.DealerRule>>,
                   partnerName: string, date: string): seq<BreakdownRow>
  {
    if partnerName == "" || date == "" then []
    else Overlaid(AllMasterRules(dealerDocs), SavedItems(records, partnerName, date), MasterKey, MatchKey, Overlay)
  }

  /** The loop over the distinct dealers, pushing each one's newest rules. */
  method CollectMasters(names: seq<string>, dealerDocs: seq<Record<int, DealerNonMotor.DealerRule>>)
    returns (masters: seq<MasterRule>)
    ensures masters == MasterRules(names, dealerDocs)
  {
    masters := [];
    for i := 0 to |names|
      invariant masters == MasterRules(names[..i], dealerDocs)
    {
      assert names[..i + 1][..i] == names[..i];
      masters := masters + DealerRulesOf(dealerDocs, names[i]);
    }
    assert names[..|names|] == names;
  }

  /** The handler: the master rules collected dealer by dealer, the saved
      rules put in a map (the first per key wins), and the master rules
      mapped through it. */
  method GetBreakdown(records: seq<Record<string, NonMotorItem>>, dealerDocs: seq<Record<int, DealerNonMotor.DealerRule>>,
                      partnerName: string, date: string)
    returns (rows: seq<BreakdownRow>)
    ensures rows == GetView(records, dealerDocs, partnerName, date)
  {
    if partnerName == "" || date == "" {
      return [];
    }
    var masters := CollectMasters(Owners(dealerDocs), dealerDocs);
    rows := OverlayAll(masters, SavedItems(records, partnerName, date), MasterKey, MatchKey, Overlay);
  }

  /** Each row keeps its master rule and shows the dealer's percentage; it
      shows the percentage and flag of the first saved rule with the same
      key, or 0 and no flag when no saved rule has that key. */
  lemma {:induction false} RowForMeaning(m: MasterRule, saved: seq<NonMotorItem>)
    ensures var row := RowFor(m, saved);
      && row.dealerName == m.dealerName && row.rule == m.rule && row.dealerEntryDate == m.dealerEntryDate
      && row.dealerPercent == m.rule.percentage
      && ((exists s :: s in saved && MatchKey(s) == MasterKey(m)) ==>
            exists j :: 0 <= j < |saved| && MatchKey(saved[j]) == MasterKey(m)
              && row.percent == saved[j].percent && row.applyToAll == saved[j].applyToAll
              && (forall i :: 0 <= i < j ==> MatchKey(saved[i]) != MasterKey(m)))
      && ((forall s :: s in saved ==> MatchKey(s) != MasterKey(m)) ==> row.percent == Some(0.0) && !row.applyToAll)
  {
    var k := MasterKey(m);
    var f := Find(saved, k, MatchKey);
    assert RowFor(m, saved) == Overlay(m, f);
    FindFirst(saved, k, MatchKey);
  }

  /** Every master rule is a rule of its dealer's newest set, and every rule
      of every dealer's newest set is a master rule. */
  lemma {:induction false} MasterRulesMeaning(names: seq<string>, docs: seq<Record<int, DealerNonMotor.DealerRule>>)
    ensures forall m :: m in MasterRules(names, docs) ==>
      && m.dealerName in names
      && Newest(OwnedBy(docs, m.dealerName)).Some?
      && m.rule in Newest(OwnedBy(docs, m.dealerName)).value.items
      && m.dealerEntryDate == Newest(OwnedBy(docs, m.dealerName)).value.dateKey
    ensures forall d, x :: d in names && Newest(OwnedBy(docs, d)).Some? && x in Newest(OwnedBy(docs, d)).value.items ==>
      MasterRule(d, x, Newest(OwnedBy(docs, d)).value.dateKey) in MasterRules(names, docs)
    decreases |names|
  {
    if names != [] {
      var n := |names| - 1;
      var pre := names[..n];
      var d := names[n];
      assert names == pre + [d];
      MasterRulesMeaning(pre, docs);
      var own := DealerRulesOf(docs, d);
      assert MasterRules(names, docs) == MasterRules(pre, docs) + own;
      forall e, x | e in names && Newest(OwnedBy(docs, e)).Some? && x in Newest(OwnedBy(docs, e)).value.items
        ensures MasterRule(e, x, Newest(OwnedBy(docs, e)).value.dateKey) in MasterRules(names, docs)
      {
        if e == d {
          var k :| 0 <= k < |Newest(OwnedBy(docs, e)).value.items| && Newest(OwnedBy(docs, e)).value.items[k] == x;
          assert own[k] == MasterRule(e, x, Newest(OwnedBy(docs, e)).value.dateKey);
        } else {
          assert e in pre;
        }
      }
    }
  }

  /** The newest set of a dealer is one of the dealer's sets, and none of
      the dealer's sets is dated later. */
  lemma NewestOfDealer(docs: seq<Record<int, DealerNonMotor.DealerRule>>, d: string)
    requires Newest(OwnedBy(docs, d)).Some?
    ensures var doc := Newest(OwnedBy(docs, d)).value;
      && doc in docs && doc.owner == d
      && forall j :: 0 <= j < |docs| && docs[j].owner == d ==> docs[j].dateKey <= doc.dateKey
  {
    NewestMeaning(OwnedBy(docs, d));
  }

  /** The view: no rows without a partner or date; otherwise one row per
      master rule, in order, each the rule overlaid with the saved rule of
      the partner's set in force. */
  lemma {:induction false} GetViewMeaning(records: seq<Record<string, NonMotorItem>>,
                                          dealerDocs: seq<Record<int, DealerNonMotor.DealerRule>>,
                                          partnerName: string, date: string)
    ensures partnerName == "" || date == "" ==> GetView(records, dealerDocs, partnerName, date) == []
    ensures partnerName != "" && date != "" ==>
      var rows := GetView(records, dealerDocs, partnerName, date);
      var masters := AllMasterRules(dealerDocs);
      && |rows| == |masters|
      && forall j :: 0 <= j < |rows| ==>
           && rows[j].dealerName == masters[j].dealerName && rows[j].rule == masters[j].rule
           && Newest(OwnedBy(dealerDocs, masters[j].dealerName)).Some?
           && masters[j].rule in Newest(OwnedBy(dealerDocs, masters[j].dealerName)).value.items
           && rows[j] == Overlay(masters[j], Find(SavedItems(records, partnerName, date), MasterKey(masters[j]), MatchKey))
  {
    if partnerName != "" && date != "" {
      var masters := AllMasterRules(dealerDocs);
      MasterRulesMeaning(Owners(dealerDocs), dealerDocs);
      assert forall j :: 0 <= j < |masters| ==> masters[j] in masters;
    }
  }

  /** What a save stores is what a GET for the same partner and date sees. */
  lemma {:induction false} SaveThenGet(records: seq<Record<string, NonMotorItem>>, partnerName: string,
                                       commissionDate: string, items: Option<seq<NonMotorItem>>,
                                       names: seq<string>, failing: set<string>, now: int)
    requires SaveRequestValid(partnerName, commissionDate, items) && partnerName !in failing
    ensures SavedItems(SaveResult(records, partnerName, commissionDate, items, names, failing, now).1,
                       partnerName, commissionDate) == Cleared(items.value, CleanItem)
  {
    var dateKey := SplitDateKey(commissionDate).value;
    var r := SaveResult(records, partnerName, commissionDate, items, names, failing, now).1;
    var toAll := Flagged(items.value, IsFlagged);
    SaverIsNoDistinctTarget(names, partnerName);
    ReplacedSaver(records, partnerName, dateKey, Cleared(items.value, CleanItem),
                  toAll, MatchKey, Overwrite, NewRule, names, Throwing(records, partnerName, dateKey, toAll, names, failing), now);
    ResolveMeaning(r, partnerName, Some(dateKey));
  }
}
