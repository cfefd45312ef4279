/** A GIC commission rule — one row of a dealer's breakdown or of a partner's
    commission set — and `areRulesMatching`, the test that decides whether two
    rows describe the same rule. */
module GicRules {
  import opened Text

  /** A rule row. Missing text fields are "", and numbers are the values
      Mongoose stored. `onNet`/`percentOnNet` say whether the percentage applies
      to the net premium rather than the OD premium; `applyToAll` is the
      one-shot "apply to all partners" flag. */
  datatype GicItem = GicItem(
    dealerName: string,
    dealerPercent: real,
    company: string,
    product: string,
    coverage: string,
    vehicleModel: string,
    onNet: bool,
    percentOnNet: bool,
    pa: bool,
    withoutAddon: bool,
    fuel: string,
    rto: string,
    ccRange: string,
    ncbRange: string,
    fixed: real,
    percent: real,
    applyToAll: bool)

  /** The normalisation local to `areRulesMatching`: trim, lower-case, drop
      every '%', and read "all" and "0-max" as "". */
  function MatchNorm(v: string): (r: string)
    ensures r != "all" && r != "0-max"
    ensures '%' !in r
  {
    var s := RemovePercent(Normalize(v));
    if s == "all" || s == "0-max" then "" else s
  }

  /** `areRulesMatching(a, b)`, field by field. */
  predicate AreRulesMatching(a: GicItem, b: GicItem) {
    && MatchNorm(a.company) == MatchNorm(b.company)
    && MatchNorm(a.product) == MatchNorm(b.product)
    && MatchNorm(a.coverage) == MatchNorm(b.coverage)
    && MatchNorm(a.vehicleModel) == MatchNorm(b.vehicleModel)
    && a.pa == b.pa
    && a.withoutAddon == b.withoutAddon
    && MatchNorm(a.fuel) == MatchNorm(b.fuel)
    && MatchNorm(a.rto) == MatchNorm(b.rto)
    && MatchNorm(a.ccRange) == MatchNorm(b.ccRange)
    && MatchNorm(a.ncbRange) == MatchNorm(b.ncbRange)
  }

  /** The normalised fields `areRulesMatching` compares. */
  datatype MatchKey = MatchKey(
    company: string, product: string, coverage: string, vehicleModel: string,
    pa: bool, withoutAddon: bool, fuel: string, rto: string, cc: string, ncb: string)

  function KeyOf(r: GicItem): MatchKey {
    MatchKey(MatchNorm(r.company), MatchNorm(r.product), MatchNorm(r.coverage),
             MatchNorm(r.vehicleModel), r.pa, r.withoutAddon, MatchNorm(r.fuel),
             MatchNorm(r.rto), MatchNorm(r.ccRange), MatchNorm(r.ncbRange))
  }

  /** Two rows match exactly when their normalised keys are equal, so
      matching is an equivalence relation. */
  lemma MatchingIsKeyEquality(a: GicItem, b: GicItem)
    ensures AreRulesMatching(a, b) <==> KeyOf(a) == KeyOf(b)
  {
  }

  lemma MatchingIsEquivalence(a: GicItem, b: GicItem, c: GicItem)
    ensures AreRulesMatching(a, a)
    ensures AreRulesMatching(a, b) ==> AreRulesMatching(b, a)
    ensures AreRulesMatching(a, b) && AreRulesMatching(b, c) ==> AreRulesMatching(a, c)
  {
    MatchingIsKeyEquality(a, b);
    MatchingIsKeyEquality(b, c);
    MatchingIsKeyEquality(a, c);
  }

  /** The payout fields (`percent`, `fixed`, the net flags, the one-shot flag,
      the dealer ceiling) take no part in matching. */
  lemma PayoutFieldsDoNotMatter(a: GicItem, percent: real, fixed: real, onNet: bool, percentOnNet: bool, flag: bool, dealerPercent: real)
    ensures KeyOf(a.(percent := percent, fixed := fixed, onNet := onNet, percentOnNet := percentOnNet,
                     applyToAll := flag, dealerPercent := dealerPercent)) == KeyOf(a)
  {
  }

  /** Under this normalisation "All", "" and "0-Max" are the same value, and
      so are values that differ only in case, surrounding spaces or '%'. */
  lemma WildcardSpellings()
    ensures MatchNorm("All") == ""
    ensures MatchNorm("") == ""
    ensures MatchNorm("0-Max") == ""
  {
    AllSpelling();
    ZeroMaxSpelling();
  }

  lemma AllSpelling()
    ensures MatchNorm("All") == ""
  {
    TrimOfTrimmed("All");
    var t := ToLower("All");
    assert t == "all";
    FilterKeepsAll(t, NotPercent);
  }

  lemma ZeroMaxSpelling()
    ensures MatchNorm("0-Max") == ""
  {
    TrimOfTrimmed("0-Max");
    var u := ToLower("0-Max");
    assert u == "0-max";
    FilterKeepsAll(u, NotPercent);
  }

  lemma MatchNormOfNormalized(v: string)
    ensures MatchNorm(Normalize(v)) == MatchNorm(v)
  {
    NormalizeIdempotent(v);
  }
}
