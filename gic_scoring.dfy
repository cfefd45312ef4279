/** The per-policy loop of the GIC commission reports: every rule row is
    gated by the policy's cc and NCB, by its RTO code and by its text fields,
    the survivors are scored by weighted field matches, the highest score
    wins (the first one on a tie, since the sort is stable), and the
    commission is `base × percent / 100 + fixed` on the OD or the net
    premium, rounded to cents. */
module GicScoring {
  import opened Wrappers
  import opened Text
  import opened Ranges
  import opened GicRules
  import Selection

  /** The fields of a GIC policy the reports read. Text fields hold the
      stored string ("" when missing); `ncb` holds `String(policy.ncb)`;
      premiums are `None` when missing or not a number. */
  datatype Policy = Policy(
    dealerName: string,
    insCompany: string,
    gicProduct: string,
    fuelType: string,
    vehicleName: string,
    policyType: string,
    vehicleNo: string,
    ccKwGvw: string,
    ncb: string,
    odPremium: Option<real>,
    netPremium: Option<real>)

  // ---------------------------------------------------------------------------
  // What the loop reads off the policy

  /** `parseFloat(String(v || "0").replace(/[^0-9.]/g, "")) || 0`. */
  function PolicyNumber(text: string): (r: real)
    ensures r >= 0.0
  {
    var t := Filter(if text == [] then "0" else text, IsDigitOrDot);
    ParseFloatNoMinus(t);
    OrZero(ParseFloat(t))
  }

  /** The policy's RTO code: the first four characters of the vehicle number
      in `[a-z0-9]` after normalisation ("DL-10 AB" gives "dl10"). */
  function RtoPrefix(vehicleNo: string): (r: string)
    ensures |r| <= 4
    ensures forall i :: 0 <= i < |r| ==> IsLowerAlnum(r[i])
  {
    var t := Filter(Normalize(vehicleNo), IsLowerAlnum);
    if |t| <= 4 then t else t[..4]
  }

  /** The rule's RTO code, `[a-z0-9]` only. */
  function RuleRto(rto: string): (r: string)
    ensures forall i :: 0 <= i < |r| ==> IsLowerAlnum(r[i])
  {
    Filter(Normalize(rto), IsLowerAlnum)
  }

  predicate RtoIsWild(rule: GicItem) {
    RuleRto(rule.rto) == [] || RuleRto(rule.rto) == "all"
  }

  /** The RTO score: 1 for a wildcard, 2000 when the rule's code occurs in
      the policy's code, and `None` (the rule is discarded) otherwise. */
  function RtoScore(rule: GicItem, policy: Policy): Option<int> {
    if !RtoIsWild(rule) then
      if Contains(RtoPrefix(policy.vehicleNo), RuleRto(rule.rto)) then Some(2000) else None
    else Some(1)
  }

  /** The five weighted field scores. */
  datatype FieldScores = FieldScores(company: int, product: int, fuel: int, model: int, coverage: int)

  function ScoresOf(rule: GicItem, policy: Policy): FieldScores {
    FieldScores(
      ScoreField(rule.company, policy.insCompany, 100),
      ScoreField(rule.product, Normalize(policy.gicProduct), 500),
      ScoreField(rule.fuel, Normalize(policy.fuelType), 1000),
      ScoreField(rule.vehicleModel, Normalize(policy.vehicleName), 200),
      ScoreField(rule.coverage, Normalize(policy.policyType), 150))
  }

  /** The mapping callback: `None` for a discarded rule, else its total score. */
  function ScoreRule(rule: GicItem, policy: Policy): Option<int> {
    if !RangesAdmit(rule, policy) then None
    else Combine(RtoScore(rule, policy), ScoresOf(rule, policy))
  }

  /** The cc and NCB gates. */
  predicate RangesAdmit(rule: GicItem, policy: Policy) {
    && Within(PolicyNumber(policy.ccKwGvw), ParseRange(rule.ccRange))
    && Within(PolicyNumber(policy.ncb), ParseRange(rule.ncbRange))
  }

  /** Discard on a failed RTO check or any negative field score; otherwise
      the sum of the scores. */
  function Combine(sRto: Option<int>, f: FieldScores): Option<int> {
    match sRto
    case None => None
    case Some(r) =>
      if f.company < 0 || f.product < 0 || f.fuel < 0 || f.model < 0 || f.coverage < 0 then None
      else Some(f.company + f.product + f.fuel + f.model + r + f.coverage)
  }

  // ---------------------------------------------------------------------------
  // Which rules survive, and with what score

  predicate RtoAdmits(rule: GicItem, policy: Policy) {
    RtoIsWild(rule) || Contains(RtoPrefix(policy.vehicleNo), RuleRto(rule.rto))
  }

  /** Each text field accepts the policy's value. */
  predicate FieldsAccept(rule: GicItem, policy: Policy) {
    && Accepts(rule.company, policy.insCompany)
    && Accepts(rule.product, policy.gicProduct)
    && Accepts(rule.fuel, policy.fuelType)
    && Accepts(rule.vehicleModel, policy.vehicleName)
    && Accepts(rule.coverage, policy.policyType)
  }

  /** A rule survives a policy when the policy's cc and NCB lie in its
      ranges, its RTO code is a wildcard or occurs in the policy's, and each
      text field accepts the policy's value. */
  predicate Survives(rule: GicItem, policy: Policy) {
    RangesAdmit(rule, policy) && RtoAdmits(rule, policy) && FieldsAccept(rule, policy)
  }

  /** A field's contribution: 1 for a wildcard value, the weight otherwise. */
  function Weight(ruleVal: string, weight: int): int {
    if IsWildcard(ruleVal) then 1 else weight
  }

  function FieldTotal(rule: GicItem): int {
    Weight(rule.company, 100) + Weight(rule.product, 500) + Weight(rule.fuel, 1000)
    + Weight(rule.vehicleModel, 200) + Weight(rule.coverage, 150)
  }

  function RtoWeight(rule: GicItem): int {
    if RtoIsWild(rule) then 1 else 2000
  }

  /** The score of a surviving rule depends on the rule alone: which of its
      fields are wildcards. */
  function Total(rule: GicItem): int {
    FieldTotal(rule) + RtoWeight(rule)
  }

  /** One field's score is its weight (or 1 for a wildcard) when the rule
      value accepts the policy value, and -1 otherwise; the policy value may
      be normalised first. */
  lemma FieldScoreMeaning(ruleVal: string, policyVal: string, pv: string, weight: int)
    requires weight > 1
    requires pv == policyVal || pv == Normalize(policyVal)
    ensures ScoreField(ruleVal, pv, weight) == if Accepts(ruleVal, policyVal) then Weight(ruleVal, weight) else -1
  {
    NormalizeIdempotent(policyVal);
    ScoreFieldSign(ruleVal, pv, weight);
  }

  lemma ScoresOfMeaning(rule: GicItem, policy: Policy)
    ensures var f := ScoresOf(rule, policy);
      && (f.company >= 0 && f.product >= 0 && f.fuel >= 0 && f.model >= 0 && f.coverage >= 0 <==> FieldsAccept(rule, policy))
      && (FieldsAccept(rule, policy) ==> f.company + f.product + f.fuel + f.model + f.coverage == FieldTotal(rule))
  {
    FieldScoreMeaning(rule.company, policy.insCompany, policy.insCompany, 100);
    FieldScoreMeaning(rule.product, policy.gicProduct, Normalize(policy.gicProduct), 500);
    FieldScoreMeaning(rule.fuel, policy.fuelType, Normalize(policy.fuelType), 1000);
    FieldScoreMeaning(rule.vehicleModel, policy.vehicleName, Normalize(policy.vehicleName), 200);
    FieldScoreMeaning(rule.coverage, policy.policyType, Normalize(policy.policyType), 150);
  }

  lemma RtoScoreMeaning(rule: GicItem, policy: Policy)
    ensures RtoScore(rule, policy).Some? <==> RtoAdmits(rule, policy)
    ensures RtoScore(rule, policy).Some? ==> RtoScore(rule, policy).value == RtoWeight(rule)
  {
  }

  /** A rule is kept exactly when it survives, and then its score is `Total`. */
  lemma ScoreRuleSurvivors(rule: GicItem, policy: Policy)
    ensures ScoreRule(rule, policy).Some? <==> Survives(rule, policy)
    ensures ScoreRule(rule, policy).Some? ==> ScoreRule(rule, policy).value == Total(rule)
  {
    var ranges, rto, fields := RangesAdmit(rule, policy), RtoAdmits(rule, policy), FieldsAccept(rule, policy);
    assert Survives(rule, policy) == (ranges && rto && fields);
    if ranges {
      var f, r := ScoresOf(rule, policy), RtoScore(rule, policy);
      assert ScoreRule(rule, policy) == Combine(r, f);
      ScoresOfMeaning(rule, policy);
      RtoScoreMeaning(rule, policy);
      CombineMeaning(r, f, rto, fields, RtoWeight(rule), FieldTotal(rule));
    } else {
      assert ScoreRule(rule, policy) == None;
    }
  }

  /** `Combine` keeps a rule exactly when the RTO check and every field pass. */
  lemma CombineMeaning(sRto: Option<int>, f: FieldScores, rtoOk: bool, fieldsOk: bool, rtoWeight: int, fieldTotal: int)
    requires sRto.Some? <==> rtoOk
    requires sRto.Some? ==> sRto.value == rtoWeight
    requires f.company >= 0 && f.product >= 0 && f.fuel >= 0 && f.model >= 0 && f.coverage >= 0 <==> fieldsOk
    requires fieldsOk ==> f.company + f.product + f.fuel + f.model + f.coverage == fieldTotal
    ensures Combine(sRto, f).Some? <==> rtoOk && fieldsOk
    ensures Combine(sRto, f).Some? ==> Combine(sRto, f).value == fieldTotal + rtoWeight
  {
  }

  // ---------------------------------------------------------------------------
  // Dominance between surviving rules

  lemma WeightRange(v: string, weight: int)
    requires weight >= 1
    ensures 1 <= Weight(v, weight) <= weight
    ensures Weight(v, weight) == (if IsWildcard(v) then 1 else weight)
  {
  }

  lemma FieldTotalRange(rule: GicItem)
    ensures 5 <= FieldTotal(rule) <= 1950
  {
    WeightRange(rule.company, 100);
    WeightRange(rule.product, 500);
    WeightRange(rule.fuel, 1000);
    WeightRange(rule.vehicleModel, 200);
    WeightRange(rule.coverage, 150);
  }

  /** A rule with a specific RTO code outranks every rule with a wildcard RTO. */
  lemma RtoDominates(r1: GicItem, r2: GicItem)
    requires !RtoIsWild(r1) && RtoIsWild(r2)
    ensures Total(r1) > Total(r2)
  {
    FieldTotalRange(r1);
    FieldTotalRange(r2);
  }

  /** With the same kind of RTO, a specific fuel outranks a wildcard fuel. */
  lemma FuelDominates(r1: GicItem, r2: GicItem)
    requires RtoIsWild(r1) == RtoIsWild(r2)
    requires !IsWildcard(r1.fuel) && IsWildcard(r2.fuel)
    ensures Total(r1) > Total(r2)
  {
    WeightRange(r1.company, 100);
    WeightRange(r1.product, 500);
    WeightRange(r1.fuel, 1000);
    WeightRange(r1.vehicleModel, 200);
    WeightRange(r1.coverage, 150);
    WeightRange(r2.company, 100);
    WeightRange(r2.product, 500);
    WeightRange(r2.fuel, 1000);
    WeightRange(r2.vehicleModel, 200);
    WeightRange(r2.coverage, 150);
  }

  /** With the same kind of RTO and fuel, a specific product outranks a
      wildcard product. */
  lemma ProductDominates(r1: GicItem, r2: GicItem)
    requires RtoIsWild(r1) == RtoIsWild(r2) && IsWildcard(r1.fuel) == IsWildcard(r2.fuel)
    requires !IsWildcard(r1.product) && IsWildcard(r2.product)
    ensures Total(r1) > Total(r2)
  {
    WeightRange(r1.company, 100);
    WeightRange(r1.product, 500);
    WeightRange(r1.fuel, 1000);
    WeightRange(r1.vehicleModel, 200);
    WeightRange(r1.coverage, 150);
    WeightRange(r2.company, 100);
    WeightRange(r2.product, 500);
    WeightRange(r2.fuel, 1000);
    WeightRange(r2.vehicleModel, 200);
    WeightRange(r2.coverage, 150);
  }

  /** The vehicle model does not dominate: a rule specific only in its model
      scores below one specific only in company and coverage (205 < 254). */
  lemma ModelDoesNotDominate(r1: GicItem, r2: GicItem)
    requires RtoIsWild(r1) && RtoIsWild(r2)
    requires IsWildcard(r1.company) && IsWildcard(r1.product) && IsWildcard(r1.fuel)
    requires !IsWildcard(r1.vehicleModel) && IsWildcard(r1.coverage)
    requires !IsWildcard(r2.company) && IsWildcard(r2.product) && IsWildcard(r2.fuel)
    requires IsWildcard(r2.vehicleModel) && !IsWildcard(r2.coverage)
    ensures Total(r1) == 205 && Total(r2) == 254
  {
    ModelOnlyTotal(r1);
    CompanyCoverageTotal(r2);
  }

  lemma ModelOnlyTotal(r: GicItem)
    requires RtoIsWild(r)
    requires IsWildcard(r.company) && IsWildcard(r.product) && IsWildcard(r.fuel)
    requires !IsWildcard(r.vehicleModel) && IsWildcard(r.coverage)
    ensures Total(r) == 205
  {
    assert Weight(r.company, 100) == 1;
    assert Weight(r.product, 500) == 1;
    assert Weight(r.fuel, 1000) == 1;
    assert Weight(r.vehicleModel, 200) == 200;
    assert Weight(r.coverage, 150) == 1;
  }

  lemma CompanyCoverageTotal(r: GicItem)
    requires RtoIsWild(r)
    requires !IsWildcard(r.company) && IsWildcard(r.product) && IsWildcard(r.fuel)
    requires IsWildcard(r.vehicleModel) && !IsWildcard(r.coverage)
    ensures Total(r) == 254
  {
    assert Weight(r.company, 100) == 100;
    assert Weight(r.product, 500) == 1;
    assert Weight(r.fuel, 1000) == 1;
    assert Weight(r.vehicleModel, 200) == 1;
    assert Weight(r.coverage, 150) == 150;
  }

  /** The text fields a rule is scored on. */
  datatype Field = Company | Product | Fuel | Model | Coverage

  function RuleValue(rule: GicItem, f: Field): string {
    match f
    case Company => rule.company
    case Product => rule.product
    case Fuel => rule.fuel
    case Model => rule.vehicleModel
    case Coverage => rule.coverage
  }

  function PolicyValue(policy: Policy, f: Field): string {
    match f
    case Company => policy.insCompany
    case Product => policy.gicProduct
    case Fuel => policy.fuelType
    case Model => policy.vehicleName
    case Coverage => policy.policyType
  }

  function WithValue(rule: GicItem, f: Field, v: string): (r: GicItem)
    ensures RuleValue(r, f) == v
    ensures forall g :: g != f ==> RuleValue(r, g) == RuleValue(rule, g)
  {
    match f
    case Company => rule.(company := v)
    case Product => rule.(product := v)
    case Fuel => rule.(fuel := v)
    case Model => rule.(vehicleModel := v)
    case Coverage => rule.(coverage := v)
  }

  /** Raising a wildcard field of a surviving rule to the policy's own value
      (when that value is not itself a wildcard) keeps the rule surviving and
      strictly raises its score. */
  lemma RaisingAFieldRaisesTheScore(rule: GicItem, policy: Policy, f: Field)
    requires ScoreRule(rule, policy).Some?
    requires IsWildcard(RuleValue(rule, f)) && !IsWildcard(PolicyValue(policy, f))
    ensures ScoreRule(WithValue(rule, f, PolicyValue(policy, f)), policy).Some?
    ensures ScoreRule(WithValue(rule, f, PolicyValue(policy, f)), policy).value > ScoreRule(rule, policy).value
  {
    var v := PolicyValue(policy, f);
    var r' := WithValue(rule, f, v);
    ScoreRuleSurvivors(rule, policy);
    ScoreRuleSurvivors(r', policy);
    assert Accepts(v, v);
    assert RtoAdmits(r', policy) && RangesAdmit(r', policy) by {
      assert r'.rto == rule.rto && r'.ccRange == rule.ccRange && r'.ncbRange == rule.ncbRange;
    }
    assert FieldsAccept(r', policy) by {
      FieldsAcceptRaised(rule, policy, f);
    }
    assert FieldTotal(r') > FieldTotal(rule) by {
      FieldTotalRaised(rule, f, v);
    }
  }

  lemma FieldsAcceptRaised(rule: GicItem, policy: Policy, f: Field)
    requires FieldsAccept(rule, policy)
    ensures FieldsAccept(WithValue(rule, f, PolicyValue(policy, f)), policy)
  {
    var v := PolicyValue(policy, f);
    assert Accepts(v, v);
  }

  lemma FieldTotalRaised(rule: GicItem, f: Field, v: string)
    requires IsWildcard(RuleValue(rule, f)) && !IsWildcard(v)
    ensures FieldTotal(WithValue(rule, f, v)) > FieldTotal(rule)
  {
  }

  // ---------------------------------------------------------------------------
  // Choosing the rule

  /** The scoring callback for one policy. */
  function Scorer(policy: Policy): GicItem -> Option<int> {
    (rule: GicItem) => ScoreRule(rule, policy)
  }

  /** The matched rule: the head of the survivors sorted by score, highest
      first, or none when nothing survives. */
  function MatchRule(rules: seq<GicItem>, policy: Policy): Option<GicItem> {
    Selection.Pick(rules, Scorer(policy))
  }

  /** The report picks the first rule with the highest score among the
      survivors, and no rule exactly when none survives. */
  lemma MatchRuleIsFirstBest(rules: seq<GicItem>, policy: Policy)
    ensures MatchRule(rules, policy).None? <==> forall k :: 0 <= k < |rules| ==> !Survives(rules[k], policy)
    ensures MatchRule(rules, policy).Some? ==>
      exists i :: Selection.IsChosen(rules, Scorer(policy), i) && MatchRule(rules, policy) == Some(rules[i])
  {
    Selection.PickIsChosen(rules, Scorer(policy));
    forall k | 0 <= k < |rules|
      ensures Scorer(policy)(rules[k]).None? <==> !Survives(rules[k], policy)
    {
      ScoreRuleSurvivors(rules[k], policy);
    }
  }

  // ---------------------------------------------------------------------------
  // The payout

  datatype CalcOn = Net | OD | NA
  datatype Status = Calculated | NoRule

  /** One report row's numbers. */
  datatype Payout = Payout(netPremium: real, odPremium: real, calcOn: CalcOn,
                           commPercent: real, fixed: real, commAmt: real, status: Status)

  /** A non-negative value in cents, rounded, halves up. */
  function CentsUpHalf(y: real): (n: int)
    requires y >= 0.0
    ensures n >= 0
    ensures -1.0 / 2.0 < n as real - y * 100.0 <= 1.0 / 2.0
  {
    (y * 100.0 + 1.0 / 2.0).Floor
  }

  /** `parseFloat(x.toFixed(2))`, in cents: rounds to the nearest cent,
      halves away from zero. */
  function Cents(x: real): (n: int)
    ensures -1.0 / 2.0 <= n as real - x * 100.0 <= 1.0 / 2.0
    ensures x >= 0.0 ==> n >= 0
  {
    if x < 0.0 then -CentsUpHalf(-x) else CentsUpHalf(x)
  }

  /** The rounded amount: within half a cent of `x`. */
  function RoundCents(x: real): (r: real)
    ensures -1.0 / 200.0 <= r - x <= 1.0 / 200.0
  {
    Cents(x) as real / 100.0
  }

  /** `premium * percent / 100 + fixed`, before rounding. */
  function Amount(premium: real, percent: real, fixed: real): real {
    premium * percent / 100.0 + fixed
  }

  /** Whether a rule pays on the net premium: either flag is true. */
  predicate PaysOnNet(rule: GicItem) { rule.onNet || rule.percentOnNet }

  /** A row is paid by `rule`: its percentage and fixed amount, on the net
      premium when the rule says so and on the OD premium otherwise, rounded
      to cents. */
  predicate PaidBy(row: Payout, rule: GicItem) {
    && row.status == Calculated
    && row.commPercent == rule.percent
    && row.fixed == rule.fixed
    && row.calcOn == (if PaysOnNet(rule) then Net else OD)
    && row.commAmt == RoundCents(Amount(if PaysOnNet(rule) then row.netPremium else row.odPremium, rule.percent, rule.fixed))
  }

  /** A report row for `policy` priced against `rules`: the premiums read
      with 0 for what does not parse; "No Rule" with zeros exactly when no
      rule survives; otherwise paid by the rule the scoring chooses. */
  ghost predicate Priced(row: Payout, rules: seq<GicItem>, policy: Policy) {
    && row.netPremium == OrZero(policy.netPremium) && row.odPremium == OrZero(policy.odPremium)
    && (row.status == NoRule <==> forall k :: 0 <= k < |rules| ==> !Survives(rules[k], policy))
    && (row.status == NoRule ==> row.calcOn == NA && row.commAmt == 0.0 && row.commPercent == 0.0 && row.fixed == 0.0)
    && (row.status == Calculated ==>
          exists i :: Selection.IsChosen(rules, Scorer(policy), i) && PaidBy(row, rules[i]))
  }

  /** The commission computation for one policy, as the handler computes it:
      defaults, then the matched rule's percentage and fixed amount on the
      net or OD premium. */
  method PayoutFor(rules: seq<GicItem>, policy: Policy) returns (row: Payout)
    ensures row.netPremium == OrZero(policy.netPremium) && row.odPremium == OrZero(policy.odPremium)
    ensures row.status == NoRule <==> forall k :: 0 <= k < |rules| ==> !Survives(rules[k], policy)
    ensures row.status == NoRule ==> row.calcOn == NA && row.commAmt == 0.0 && row.commPercent == 0.0 && row.fixed == 0.0
    ensures row.status == Calculated ==>
      exists i :: Selection.IsChosen(rules, Scorer(policy), i) && PaidBy(row, rules[i])
  {
    var matched := MatchRule(rules, policy);
    ghost var ci := Selection.ChosenIndex(rules, Scorer(policy));
    Selection.PickIsChosen(rules, Scorer(policy));
    MatchRuleIsFirstBest(rules, policy);
    var odPremium := OrZero(policy.odPremium);
    var netPremium := OrZero(policy.netPremium);
    var commPercent, fixed, commAmt, calcOn := 0.0, 0.0, 0.0, NA;
    if matched.Some? {
      commPercent := matched.value.percent;
      fixed := matched.value.fixed;
      if PaysOnNet(matched.value) {
        commAmt := Amount(netPremium, commPercent, fixed);
        calcOn := Net;
      } else {
        commAmt := Amount(odPremium, commPercent, fixed);
        calcOn := OD;
      }
    }
    row := Payout(netPremium, odPremium, calcOn, commPercent, fixed, RoundCents(commAmt),
                  if matched.Some? then Calculated else NoRule);
    if matched.Some? {
      var rule := rules[ci.value];
      assert matched.value == rule;
      assert PaidBy(row, rule);
      assert Selection.IsChosen(rules, Scorer(policy), ci.value);
    }
  }
}
