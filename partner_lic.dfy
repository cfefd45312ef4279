/** The partner LIC commission controller: the match key of a rule, the
    save (the saver's list replaced wholesale, flagged rules merged into
    every other partner's list by key, overwriting the percentage and the
    fixed amount) and the GET view over the dealers' LIC rule sets. */
module PartnerLic {
  import opened Wrappers
  import opened Text
  import opened Keyed
  import opened Merge
  import opened Store
  import opened PartnerSave
  import opened AsOf
  import opened DateKeys
  import DealerLic

  /** A partner's LIC rule as the request sends it and the store keeps
      it; numbers are `None` when missing, and a missing text is "". */
  datatype LicItem = LicItem(
    dealerName: string, insuranceCompany: string, planName: string, termPpt: string,
    fixed: Option<real>, percent: Option<real>, dealerPercent: Option<real>, applyToAll: bool)

  // ---------------------------------------------------------------------------
  // The match key

  /** The term part: the normalised term, with "-" and "0" read as no term. */
  function TermKey(t: string): string {
    NoTerm(Normalize(t))
  }

  function NoTerm(n: string): string {
    if n == "-" || n == "0" then "" else n
  }

  /** The four parts of `generateLicKey`, in order. */
  function KeyParts(dealer: string, company: string, plan: string, term: string): seq<string> {
    [Normalize(dealer), Normalize(company), Normalize(plan), TermKey(term)]
  }

  /** `dealer|company|plan|term`. */
  function KeyOf(dealer: string, company: string, plan: string, term: string): string {
    Join(KeyParts(dealer, company, plan, term), '|')
  }

  /** `generateLicKey` of a partner's rule. */
  function LicKey(x: LicItem): string {
    KeyOf(x.dealerName, x.insuranceCompany, x.planName, x.termPpt)
  }

  lemma NormalizeDash()
    ensures Normalize("-") == "-"
  {
    NormalizeOfNormal("-");
  }

  lemma NormalizeZero()
    ensures Normalize("0") == "0"
  {
    NormalizeOfNormal("0");
  }

  /** The term part is empty exactly when the normalised term is empty,
      "-" or "0", and is the normalised term otherwise. */
  lemma TermKeyMeaning(t: string)
    ensures TermKey(t) == "" <==> Normalize(t) == "" || Normalize(t) == "-" || Normalize(t) == "0"
    ensures TermKey(t) != "" ==> TermKey(t) == Normalize(t)
  {
  }

  /** No term, "-" and "0" are the same term. */
  lemma TermWildcards()
    ensures TermKey("") == TermKey("-") == TermKey("0") == ""
  {
    NormalizeDash();
    NormalizeZero();
  }

  /** No text field of the rule holds a '|'. */
  predicate NoBar(dealer: string, company: string, plan: string, term: string) {
    '|' !in dealer && '|' !in company && '|' !in plan && '|' !in term
  }

  lemma TermKeyNoBar(t: string)
    requires '|' !in t
    ensures '|' !in TermKey(t)
  {
    NormalizeKeepsOut(t, '|');
  }

  lemma KeyPartsNoBar(dealer: string, company: string, plan: string, term: string)
    requires NoBar(dealer, company, plan, term)
    ensures forall i :: 0 <= i < |KeyParts(dealer, company, plan, term)| ==> '|' !in KeyParts(dealer, company, plan, term)[i]
  {
    NormalizeKeepsOut(dealer, '|');
    NormalizeKeepsOut(company, '|');
    NormalizeKeepsOut(plan, '|');
    TermKeyNoBar(term);
    var p := KeyParts(dealer, company, plan, term);
    assert p[0] == Normalize(dealer) && p[1] == Normalize(company) && p[2] == Normalize(plan) && p[3] == TermKey(term);
  }

  /** Two rules without '|' in their text have the same key exactly when
      their normalised dealer, company and plan and their term parts agree. */
  lemma LicKeyExact(x: LicItem, y: LicItem)
    requires NoBar(x.dealerName, x.insuranceCompany, x.planName, x.termPpt)
    requires NoBar(y.dealerName, y.insuranceCompany, y.planName, y.termPpt)
    ensures LicKey(x) == LicKey(y) <==>
      KeyParts(x.dealerName, x.insuranceCompany, x.planName, x.termPpt)
        == KeyParts(y.dealerName, y.insuranceCompany, y.planName, y.termPpt)
  {
    KeyPartsNoBar(x.dealerName, x.insuranceCompany, x.planName, x.termPpt);
    KeyPartsNoBar(y.dealerName, y.insuranceCompany, y.planName, y.termPpt);
    JoinInjective(KeyParts(x.dealerName, x.insuranceCompany, x.planName, x.termPpt),
                  KeyParts(y.dealerName, y.insuranceCompany, y.planName, y.termPpt), '|');
  }

  /** The key only sees the text fields through their normal form. */
  lemma KeyOfNormalized(dealer: string, company: string, plan: string, term: string)
    ensures KeyOf(Normalize(dealer), Normalize(company), Normalize(plan), Normalize(term)) == KeyOf(dealer, company, plan, term)
  {
    KeyPartsOfNormalized(dealer, company, plan, term);
  }

  lemma KeyPartsOfNormalized(dealer: string, company: string, plan: string, term: string)
    ensures KeyParts(Normalize(dealer), Normalize(company), Normalize(plan), Normalize(term)) == KeyParts(dealer, company, plan, term)
  {
    NormalizeIdempotent(dealer);
    NormalizeIdempotent(company);
    NormalizeIdempotent(plan);
    NormalizeIdempotent(term);
  }

  // ---------------------------------------------------------------------------
  // The save

  /** The rule as the store hands it back: the schema's defaults fill what
      is missing, "Unknown" for the dealer and 0 for the three numbers (the
      text fields default to "", which they already are). */
  function Stored(x: LicItem): (r: LicItem)
    ensures r.dealerName == (if x.dealerName == "" then "Unknown" else x.dealerName)
    ensures r.insuranceCompany == x.insuranceCompany && r.planName == x.planName && r.termPpt == x.termPpt
    ensures r.fixed == Some(OrZero(x.fixed)) && r.percent == Some(OrZero(x.percent))
    ensures r.dealerPercent == Some(OrZero(x.dealerPercent)) && r.applyToAll == x.applyToAll
  {
    x.(dealerName := if x.dealerName == "" then "Unknown" else x.dealerName,
       fixed := Some(OrZero(x.fixed)), percent := Some(OrZero(x.percent)),
       dealerPercent := Some(OrZero(x.dealerPercent)))
  }

  /** `{...item, applyToAllPartners: false}`, as stored. */
  function ClearFlag(x: LicItem): LicItem { Stored(x.(applyToAll := false)) }

  /** `existing.percent = rule.percent; existing.fixed = rule.fixed`, read
      back with the default 0 where the rule has no number. */
  function Overwrite(e: LicItem, n: LicItem): LicItem {
    e.(percent := Some(OrZero(n.percent)), fixed := Some(OrZero(n.fixed)))
  }

  /** `item.applyToAllPartners === true`. */
  function IsFlagged(x: LicItem): bool { x.applyToAll }

  /** A rule that names its dealer keeps its key when stored. */
  lemma ClearFlagKeepsKey(x: LicItem)
    requires x.dealerName != ""
    ensures LicKey(ClearFlag(x)) == LicKey(x)
  {
  }

  /** A dealer "" is stored as "Unknown", which is another key. */
  lemma ClearFlagMovesUnnamed(x: LicItem)
    requires x.dealerName == ""
    ensures LicKey(ClearFlag(x)) != LicKey(x)
  {
    var n := ClearFlag(x);
    assert n.dealerName == "Unknown";
    assert Normalize("Unknown") == "unknown" by {
      TrimOfTrimmed("Unknown");
      var t := ToLower("Unknown");
      assert t[0] == LowerChar('U') == 'u';
    }
    assert Normalize("") == "" by {
      NormalizeOfNormal("");
    }
    var p := KeyParts(n.dealerName, n.insuranceCompany, n.planName, n.termPpt);
    var q := KeyParts(x.dealerName, x.insuranceCompany, x.planName, x.termPpt);
    assert p[0] == "unknown" && q[0] == "";
    assert p == [p[0]] + p[1..] && q == [q[0]] + q[1..];
    JoinCons(p[0], p[1..], '|');
    JoinCons(q[0], q[1..], '|');
    assert LicKey(n)[0] == 'u' && LicKey(x)[0] == '|';
  }

  /** The merge laws hold for a batch of rules that name their dealer. */
  lemma LicMergeLawful(batch: seq<LicItem>)
    requires forall m :: 0 <= m < |batch| ==> batch[m].dealerName != ""
    ensures LawfulOn(LicKey, Overwrite, ClearFlag, batch)
  {
    forall m | 0 <= m < |batch|
      ensures LicKey(ClearFlag(batch[m])) == LicKey(batch[m])
    {
      ClearFlagKeepsKey(batch[m]);
    }
  }

  /** The request is refused without a partner name, without a date key
      (a date of no digits gives the empty key), or without an items list;
      an empty list is accepted. */
  predicate SaveRequestValid(partnerName: string, commissionDate: string, items: Option<seq<LicItem>>) {
    partnerName != "" && SplitDateKey(commissionDate).Some? && SplitDateKey(commissionDate).value != "" && items.Some?
  }

  /** `savePartnerLICBreakdown`; `names` are the partner names the scan of
      the database finds, in the order it finds them. */
  function SaveResult(records: seq<Record<string, LicItem>>, partnerName: string, commissionDate: string,
                      items: Option<seq<LicItem>>, names: seq<string>, failing: set<string>, now: int)
    : (Response, seq<Record<string, LicItem>>)
  {
    if !SaveRequestValid(partnerName, commissionDate, items) then (BadRequest, records)
    else Replaced(records, partnerName, SplitDateKey(commissionDate).value, Cleared(items.value, ClearFlag),
                  Flagged(items.value, IsFlagged), LicKey, Overwrite, ClearFlag, names, failing, now)
  }

  method Save(store: Collection<string, LicItem>, partnerName: string, commissionDate: string,
              items: Option<seq<LicItem>>, names: seq<string>, failing: set<string>, now: int)
    returns (resp: Response)
    modifies store
    ensures (resp, store.records) == SaveResult(old(store.records), partnerName, commissionDate, items, names, failing, now)
  {
    var dateKey := SplitDateKey(commissionDate);
    if partnerName == "" || dateKey.None? || dateKey.value == "" || items.None? {
      return BadRequest;
    }
    resp := ReplaceAndPropagate(store, partnerName, dateKey.value, Cleared(items.value, ClearFlag),
                                Flagged(items.value, IsFlagged), LicKey, Overwrite, ClearFlag, names, failing, now);
  }

  /** An invalid request is answered 400 and writes nothing; a valid one
      ends in 500 exactly when a write throws, the saver's or, with some
      flagged rule, another partner's. */
  lemma {:induction false} SaveOutcome(records: seq<Record<string, LicItem>>, partnerName: string,
                                       commissionDate: string, items: Option<seq<LicItem>>,
                                       names: seq<string>, failing: set<string>, now: int)
    ensures var (resp, r) := SaveResult(records, partnerName, commissionDate, items, names, failing, now);
      && (resp == BadRequest <==> !SaveRequestValid(partnerName, commissionDate, items))
      && (resp == BadRequest ==> r == records)
      && (SaveRequestValid(partnerName, commissionDate, items) ==>
            (resp == Ok <==>
               partnerName !in failing
               && ((exists j :: 0 <= j < |items.value| && items.value[j].applyToAll) ==>
                     forall t :: t in DistinctOtherPartners(names, partnerName) ==> t !in failing)))
  {
    if SaveRequestValid(partnerName, commissionDate, items) {
      var toAll := Flagged(items.value, IsFlagged);
      ReplacedResponse(records, partnerName, SplitDateKey(commissionDate).value, Cleared(items.value, ClearFlag),
                       toAll, LicKey, Overwrite, ClearFlag, names, failing, now);
      if toAll != [] {
        assert IsFlagged(toAll[0]) && toAll[0] in items.value;
      }
    }
  }

  /** Unless the saver's write throws, the saver's list for the date is
      replaced by the submitted rules in their stored form with the flag
      off, whatever the list held before. */
  lemma {:induction false} SaverReplaced(records: seq<Record<string, LicItem>>, partnerName: string,
                                         commissionDate: string, items: Option<seq<LicItem>>,
                                         names: seq<string>, failing: set<string>, now: int)
    requires SaveRequestValid(partnerName, commissionDate, items) && partnerName !in failing
    ensures var r := SaveResult(records, partnerName, commissionDate, items, names, failing, now).1;
      var saved := ItemsAt(r, partnerName, SplitDateKey(commissionDate).value);
      && FindRecord(r, partnerName, SplitDateKey(commissionDate).value).Some?
      && |saved| == |items.value|
      && forall j :: 0 <= j < |saved| ==>
           saved[j] == items.value[j].(applyToAll := false,
                                       dealerName := if items.value[j].dealerName == "" then "Unknown" else items.value[j].dealerName,
                                       fixed := Some(OrZero(items.value[j].fixed)),
                                       percent := Some(OrZero(items.value[j].percent)),
                                       dealerPercent := Some(OrZero(items.value[j].dealerPercent)))
  {
    ReplacedSaver(records, partnerName, SplitDateKey(commissionDate).value, Cleared(items.value, ClearFlag),
                  Flagged(items.value, IsFlagged), LicKey, Overwrite, ClearFlag, names, failing, now);
  }

  /** No stored rule ever keeps the "apply to all" flag, whichever writes
      failed. */
  lemma {:induction false} SaveNeverStoresFlag(records: seq<Record<string, LicItem>>, partnerName: string,
                                               commissionDate: string, items: Option<seq<LicItem>>,
                                               names: seq<string>, failing: set<string>, now: int)
    requires AllItems(records, (x: LicItem) => !IsFlagged(x))
    ensures AllItems(SaveResult(records, partnerName, commissionDate, items, names, failing, now).1,
                     (x: LicItem) => !IsFlagged(x))
  {
    if SaveRequestValid(partnerName, commissionDate, items) {
      ReplacedKeeps(records, partnerName, SplitDateKey(commissionDate).value, Cleared(items.value, ClearFlag),
                    Flagged(items.value, IsFlagged), LicKey, Overwrite, ClearFlag, names, failing, now,
                    (x: LicItem) => !IsFlagged(x), (x: LicItem) => true);
    }
  }

  /** After a successful save with flagged rules, every target's list for
      the date holds what it held with the flagged rules merged in by key;
      and every partner the scan found under another spelling than the
      saver's is a target under one of its spellings. */
  lemma {:induction false} SavePropagatesFlagged(records: seq<Record<string, LicItem>>, partnerName: string,
                                                 commissionDate: string, items: Option<seq<LicItem>>,
                                                 names: seq<string>, failing: set<string>, now: int, t: string)
    requires SaveResult(records, partnerName, commissionDate, items, names, failing, now).0 == Ok
    requires exists j :: 0 <= j < |items.value| && items.value[j].applyToAll
    requires t in DistinctOtherPartners(names, partnerName)
    ensures SaveRequestValid(partnerName, commissionDate, items)
    ensures var dateKey := SplitDateKey(commissionDate).value;
      var r := SaveResult(records, partnerName, commissionDate, items, names, failing, now).1;
      && FindRecord(r, t, dateKey).Some?
      && ItemsAt(r, t, dateKey) == MergeAll(ItemsAt(records, t, dateKey), Flagged(items.value, IsFlagged),
                                            LicKey, Overwrite, ClearFlag)
    ensures forall n :: n in names && n != "" && Normalize(n) != Normalize(partnerName) ==>
              exists u :: u in DistinctOtherPartners(names, partnerName) && Normalize(u) == Normalize(n)
  {
    var dateKey := SplitDateKey(commissionDate).value;
    var toAll := Flagged(items.value, IsFlagged);
    var j :| 0 <= j < |items.value| && items.value[j].applyToAll;
    assert items.value[j] in toAll;
    ReplacedTargets(records, partnerName, dateKey, Cleared(items.value, ClearFlag), toAll,
                    LicKey, Overwrite, ClearFlag, names, failing, now, t);
    DistinctOtherPartnersMeaning(names, partnerName);
  }

  /** Sending the same save again, at the same moment, succeeds and leaves
      the store as it was when every flagged rule names its dealer: no
      partner gains a rule. */
  lemma {:induction false} SaveRepeat(records: seq<Record<string, LicItem>>, partnerName: string,
                                      commissionDate: string, items: Option<seq<LicItem>>,
                                      names: seq<string>, failing: set<string>, now: int)
    requires SaveResult(records, partnerName, commissionDate, items, names, failing, now).0 == Ok
    requires forall j :: 0 <= j < |items.value| && items.value[j].applyToAll ==> items.value[j].dealerName != ""
    ensures var once := SaveResult(records, partnerName, commissionDate, items, names, failing, now).1;
      SaveResult(once, partnerName, commissionDate, items, names, failing, now) == (Ok, once)
  {
    var toAll := Flagged(items.value, IsFlagged);
    LicMergeLawful(toAll);
    ReplacedRepeat(records, partnerName, SplitDateKey(commissionDate).value, Cleared(items.value, ClearFlag),
                   toAll, LicKey, Overwrite, ClearFlag, names, failing, now);
  }

  // ---------------------------------------------------------------------------
  // The GET view

  /** An entry of `allMasterRules`: a dealer's rule with the dealer's name. */
  datatype MasterRule = MasterRule(dealerName: string, rule: DealerLic.LicRule)

  /** A row of `finalData`: the master rule with the dealer's percentage,
      and the partner's saved percentage, fixed amount and flag laid over
      it. */
  datatype BreakdownRow = BreakdownRow(
    dealerName: string, rule: DealerLic.LicRule, dealerPercent: Option<real>,
    percent: Option<real>, fixed: Option<real>, applyToAll: bool)

  /** `generateLicKey` of a master rule. */
  function MasterKey(m: MasterRule): string {
    KeyOf(m.dealerName, m.rule.insuranceCompany, m.rule.planName, m.rule.termPpt)
  }

  /** The dealer's rules as master rules: the set they come from is the
      dealer's first set in store order, and a dealer without sets
      contributes nothing. */
  function DealerRulesOf(docs: seq<Record<string, DealerLic.LicRule>>, d: string): (r: seq<MasterRule>)
    ensures DealerLic.FirstSet(docs, d).None? ==> r == []
    ensures DealerLic.FirstSet(docs, d).Some? ==>
      var doc := DealerLic.FirstSet(docs, d).value;
      |r| == |doc.items| && forall j :: 0 <= j < |r| ==> r[j] == MasterRule(d, doc.items[j])
  {
    match DealerLic.FirstSet(docs, d)
    case None => []
    case Some(doc) => seq(|doc.items|, j requires 0 <= j < |doc.items| => MasterRule(d, doc.items[j]))
  }

  /** The loop over `distinctDealers`. */
  function MasterRules(names: seq<string>, docs: seq<Record<string, DealerLic.LicRule>>): seq<MasterRule>
    decreases |names|
  {
    if names == [] then []
    else
      var n := |names| - 1;
      MasterRules(names[..n], docs) + DealerRulesOf(docs, names[n])
  }

  /** `allMasterRules`; the distinct dealer names are taken in the order the
      dealers first appear. */
  function AllMasterRules(docs: seq<Record<string, DealerLic.LicRule>>): seq<MasterRule> {
    MasterRules(Owners(docs), docs)
  }

  /** The partner's set in force for the date, or no rules. */
  function SavedItems(records: seq<Record<string, LicItem>>, partnerName: string, date: string): seq<LicItem> {
    match Resolve(records, partnerName, SplitDateKey(date))
    case Some(r) => r.items
    case None => []
  }

  /** `masterRule.fixed || 0`. */
  function MasterFixed(rule: DealerLic.LicRule): real {
    if Truthy(rule.fixed) then rule.fixed.value else 0.0
  }

  /** The row for a master rule, given the saved rule the map holds for its
      key, if any. */
  function Overlay(m: MasterRule, saved: Option<LicItem>): BreakdownRow {
    BreakdownRow(m.dealerName, m.rule, m.rule.percent,
                 if saved.Some? then saved.value.percent else Some(0.0),
                 if saved.Some? then saved.value.fixed else Some(MasterFixed(m.rule)),
                 saved.Some? && saved.value.applyToAll)
  }

  function RowFor(m: MasterRule, saved: seq<LicItem>): BreakdownRow {
    Overlay(m, Find(saved, MasterKey(m), LicKey))
  }

  /** `getPartnerLICBreakdown`: no rows without a partner name or a date. */
  function GetView(records: seq<Record<string, LicItem>>, dealerDocs: seq<Record<string, DealerLic.LicRule>>,
                   partnerName: string, date: string): seq<BreakdownRow>
  {
    if partnerName == "" || date == "" then []
    else Overlaid(AllMasterRules(dealerDocs), SavedItems(records, partnerName, date), MasterKey, LicKey, Overlay)
  }

  /** The loop over the distinct dealers, pushing each one's rules. */
  method CollectMasters(names: seq<string>, dealerDocs: seq<Record<string, DealerLic.LicRule>>)
    returns (masters: seq<MasterRule>)
    ensures masters == MasterRules(names, dealerDocs)
  {
    masters := [];
    for i := 0 to |names|
      invariant masters == MasterRules(names[..i], dealerDocs)
    {
      assert names[..i + 1][..i] == names[..i];
      masters := masters + DealerRulesOf(dealerDocs, names[i]);
    }
    assert names[..|names|] == names;
  }

  /** The handler: the master rules collected dealer by dealer, the saved
      rules put in a map (the first per key wins), and the master rules
      mapped through it. */
  method GetBreakdown(records: seq<Record<string, LicItem>>, dealerDocs: seq<Record<string, DealerLic.LicRule>>,
                      partnerName: string, date: string)
    returns (rows: seq<BreakdownRow>)
    ensures rows == GetView(records, dealerDocs, partnerName, date)
  {
    if partnerName == "" || date == "" {
      return [];
    }
    var masters := CollectMasters(Owners(dealerDocs), dealerDocs);
    rows := OverlayAll(masters, SavedItems(records, partnerName, date), MasterKey, LicKey, Overlay);
  }

  /** Each row keeps its master rule and shows the dealer's percentage; it
      shows the percentage, fixed amount and flag of the first saved rule
      with the same key, or 0, the dealer's fixed amount (0 when it has
      none) and no flag when no saved rule has that key. */
  lemma {:induction false} RowForMeaning(m: MasterRule, saved: seq<LicItem>)
    ensures var row := RowFor(m, saved);
      && row.dealerName == m.dealerName && row.rule == m.rule && row.dealerPercent == m.rule.percent
      && ((exists s :: s in saved && LicKey(s) == MasterKey(m)) ==>
            exists j :: 0 <= j < |saved| && LicKey(saved[j]) == MasterKey(m)
              && row.percent == saved[j].percent && row.fixed == saved[j].fixed
              && row.applyToAll == saved[j].applyToAll
              && (forall i :: 0 <= i < j ==> LicKey(saved[i]) != MasterKey(m)))
      && ((forall s :: s in saved ==> LicKey(s) != MasterKey(m)) ==>
            && row.percent == Some(0.0) && !row.applyToAll
            && row.fixed == Some(if m.rule.fixed.Some? && m.rule.fixed.value != 0.0 then m.rule.fixed.value else 0.0))
  {
    var k := MasterKey(m);
    var f := Find(saved, k, LicKey);
    assert RowFor(m, saved) == Overlay(m, f);
    FindFirst(saved, k, LicKey);
  }

  /** A saved rule for the same dealer, company and plan whose term is "-"
      is the saved rule of a master rule whose term is "0". */
  lemma TermDashMatchesZero(m: MasterRule, s: LicItem)
    requires m.rule.termPpt == "0" && s.termPpt == "-"
    requires s.dealerName == m.dealerName && s.insuranceCompany == m.rule.insuranceCompany
    requires s.planName == m.rule.planName
    ensures RowFor(m, [s]).percent == s.percent && RowFor(m, [s]).fixed == s.fixed
  {
    TermWildcards();
    assert LicKey(s) == MasterKey(m);
  }

  /** Every master rule is a rule of its dealer's first set, and every rule
      of every dealer's first set is a master rule. */
  lemma {:induction false} MasterRulesMeaning(names: seq<string>, docs: seq<Record<string, DealerLic.LicRule>>)
    ensures forall m :: m in MasterRules(names, docs) ==>
      && m.dealerName in names
      && DealerLic.FirstSet(docs, m.dealerName).Some?
      && m.rule in DealerLic.FirstSet(docs, m.dealerName).value.items
    ensures forall d, x :: d in names && DealerLic.FirstSet(docs, d).Some? && x in DealerLic.FirstSet(docs, d).value.items ==>
      MasterRule(d, x) in MasterRules(names, docs)
    decreases |names|
  {
    if names != [] {
      var n := |names| - 1;
      var pre := names[..n];
      var d := names[n];
      assert names == pre + [d];
      MasterRulesMeaning(pre, docs);
      var own := DealerRulesOf(docs, d);
      assert MasterRules(names, docs) == MasterRules(pre, docs) + own;
      forall e, x | e in names && DealerLic.FirstSet(docs, e).Some? && x in DealerLic.FirstSet(docs, e).value.items
        ensures MasterRule(e, x) in MasterRules(names, docs)
      {
        if e == d {
          var k :| 0 <= k < |DealerLic.FirstSet(docs, e).value.items| && DealerLic.FirstSet(docs, e).value.items[k] == x;
          assert own[k] == MasterRule(e, x);
        } else {
          assert e in pre;
        }
      }
    }
  }

  /** The view: no rows without a partner or date; otherwise one row per
      master rule, in order, each the rule of its dealer's first set
      overlaid with the saved rule of the partner's set in force. */
  lemma {:induction false} GetViewMeaning(records: seq<Record<string, LicItem>>,
                                          dealerDocs: seq<Record<string, DealerLic.LicRule>>,
                                          partnerName: string, date: string)
    ensures partnerName == "" || date == "" ==> GetView(records, dealerDocs, partnerName, date) == []
    ensures partnerName != "" && date != "" ==>
      var rows := GetView(records, dealerDocs, partnerName, date);
      var masters := AllMasterRules(dealerDocs);
      && |rows| == |masters|
      && forall j :: 0 <= j < |rows| ==>
           && rows[j].dealerName == masters[j].dealerName && rows[j].rule == masters[j].rule
           && DealerLic.FirstSet(dealerDocs, masters[j].dealerName).Some?
           && masters[j].rule in DealerLic.FirstSet(dealerDocs, masters[j].dealerName).value.items
           && rows[j] == Overlay(masters[j], Find(SavedItems(records, partnerName, date), MasterKey(masters[j]), LicKey))
  {
    if partnerName != "" && date != "" {
      var masters := AllMasterRules(dealerDocs);
      MasterRulesMeaning(Owners(dealerDocs), dealerDocs);
      assert forall j :: 0 <= j < |masters| ==> masters[j] in masters;
    }
  }

  /** What a save stores is what a GET for the same partner and date sees. */
  lemma {:induction false} SaveThenGet(records: seq<Record<string, LicItem>>, partnerName: string,
                                       commissionDate: string, items: Option<seq<LicItem>>,
                                       names: seq<string>, failing: set<string>, now: int)
    requires SaveRequestValid(partnerName, commissionDate, items) && partnerName !in failing
    ensures SavedItems(SaveResult(records, partnerName, commissionDate, items, names, failing, now).1,
                       partnerName, commissionDate) == Cleared(items.value, ClearFlag)
  {
    var dateKey := SplitDateKey(commissionDate).value;
    var r := SaveResult(records, partnerName, commissionDate, items, names, failing, now).1;
    ReplacedSaver(records, partnerName, dateKey, Cleared(items.value, ClearFlag),
                  Flagged(items.value, IsFlagged), LicKey, Overwrite, ClearFlag, names, failing, now);
    ResolveMeaning(r, partnerName, Some(dateKey));
  }
}
