/** The renewals controller's query filter: which policies a renewals list
    asks the store for. The value of `policyEndDate` bounds is the request
    text; `toDate` stands for the store's cast of such a text to a moment. */
module Renewals {
  import opened Wrappers
  import Track

  /** The request's query parameters ("" when absent). */
  datatype RenewalQuery = RenewalQuery(partner: string, dealer: string, insCo: string, from: string, to: string)

  /** A field of the filter: a value to equal, or the end-date range. */
  datatype Value = Equals(text: string) | Between(gte: Option<string>, lte: Option<string>)

  /** `buildRenewalFilter(q)`: sets `partnerId`, `dealer` and
      `insuranceCompany` when given, and `policyEndDate` with a lower bound
      from `from` and an upper bound from `to` when either is given. */
  method BuildRenewalFilter(q: RenewalQuery) returns (filter: map<string, Value>)
    ensures "partnerId" in filter <==> q.partner != ""
    ensures "partnerId" in filter ==> filter["partnerId"] == Equals(q.partner)
    ensures "dealer" in filter <==> q.dealer != ""
    ensures "dealer" in filter ==> filter["dealer"] == Equals(q.dealer)
    ensures "insuranceCompany" in filter <==> q.insCo != ""
    ensures "insuranceCompany" in filter ==> filter["insuranceCompany"] == Equals(q.insCo)
    ensures "policyEndDate" in filter <==> q.from != "" || q.to != ""
    ensures "policyEndDate" in filter ==>
      filter["policyEndDate"] == Between(if q.from != "" then Some(q.from) else None,
                                         if q.to != "" then Some(q.to) else None)
    ensures filter.Keys <= {"partnerId", "dealer", "insuranceCompany", "policyEndDate"}
  {
    filter := map[];
    if q.partner != "" {
      filter := filter["partnerId" := Equals(q.partner)];
    }
    if q.dealer != "" {
      filter := filter["dealer" := Equals(q.dealer)];
    }
    if q.insCo != "" {
      filter := filter["insuranceCompany" := Equals(q.insCo)];
    }
    if q.from != "" || q.to != "" {
      filter := filter["policyEndDate" := Between(None, None)];
      if q.from != "" {
        filter := filter["policyEndDate" := filter["policyEndDate"].(gte := Some(q.from))];
      }
      if q.to != "" {
        filter := filter["policyEndDate" := filter["policyEndDate"].(lte := Some(q.to))];
      }
    }
  }

  /** The filter as a value, for reasoning about what it selects. */
  function RenewalFilter(q: RenewalQuery): (f: map<string, Value>)
    ensures q == RenewalQuery("", "", "", "", "") ==> f == map[]
  {
    var a := if q.partner != "" then map["partnerId" := Equals(q.partner)] else map[];
    var b := if q.dealer != "" then a["dealer" := Equals(q.dealer)] else a;
    var c := if q.insCo != "" then b["insuranceCompany" := Equals(q.insCo)] else b;
    if q.from != "" || q.to != "" then
      c["policyEndDate" := Between(if q.from != "" then Some(q.from) else None, if q.to != "" then Some(q.to) else None)]
    else c
  }

  /** The method builds exactly that value. */
  lemma BuildIsRenewalFilter(q: RenewalQuery, filter: map<string, Value>)
    requires "partnerId" in filter <==> q.partner != ""
    requires "partnerId" in filter ==> filter["partnerId"] == Equals(q.partner)
    requires "dealer" in filter <==> q.dealer != ""
    requires "dealer" in filter ==> filter["dealer"] == Equals(q.dealer)
    requires "insuranceCompany" in filter <==> q.insCo != ""
    requires "insuranceCompany" in filter ==> filter["insuranceCompany"] == Equals(q.insCo)
    requires "policyEndDate" in filter <==> q.from != "" || q.to != ""
    requires "policyEndDate" in filter ==>
      filter["policyEndDate"] == Between(if q.from != "" then Some(q.from) else None,
                                         if q.to != "" then Some(q.to) else None)
    requires filter.Keys <= {"partnerId", "dealer", "insuranceCompany", "policyEndDate"}
    ensures filter == RenewalFilter(q)
  {
    var f := RenewalFilter(q);
    assert filter.Keys == f.Keys;
  }

  /** What a field's condition asks of a stored policy. */
  predicate FieldHolds(field: string, v: Value, doc: Track.Doc, toDate: string -> int) {
    match v
    case Equals(t) => field in doc.text && doc.text[field] == t
    case Between(gte, lte) =>
      && field in doc.dates
      && (gte.Some? ==> toDate(gte.value) <= doc.dates[field])
      && (lte.Some? ==> doc.dates[field] <= toDate(lte.value))
  }

  predicate Selects(filter: map<string, Value>, doc: Track.Doc, toDate: string -> int) {
    forall field :: field in filter ==> FieldHolds(field, filter[field], doc, toDate)
  }

  /** A policy is listed exactly when its partner, dealer and company are
      the given ones, each only if given, and its policy end date lies
      between `from` and `to`, each bound only if given (and the date is
      there at all when either is). */
  lemma RenewalFilterMeaning(q: RenewalQuery, doc: Track.Doc, toDate: string -> int)
    ensures Selects(RenewalFilter(q), doc, toDate) <==>
      && (q.partner != "" ==> Track.TextIs(doc, "partnerId", q.partner))
      && (q.dealer != "" ==> Track.TextIs(doc, "dealer", q.dealer))
      && (q.insCo != "" ==> Track.TextIs(doc, "insuranceCompany", q.insCo))
      && (q.from != "" || q.to != "" ==>
            && "policyEndDate" in doc.dates
            && (q.from != "" ==> toDate(q.from) <= doc.dates["policyEndDate"])
            && (q.to != "" ==> doc.dates["policyEndDate"] <= toDate(q.to)))
  {
    var f := RenewalFilter(q);
    if q.partner != "" { assert "partnerId" in f; }
    if q.dealer != "" { assert "dealer" in f; }
    if q.insCo != "" { assert "insuranceCompany" in f; }
    if q.from != "" || q.to != "" { assert "policyEndDate" in f; }
  }

  /** Without parameters every policy is listed. */
  lemma NoParamsSelectsAll(doc: Track.Doc, toDate: string -> int)
    ensures Selects(RenewalFilter(RenewalQuery("", "", "", "", "")), doc, toDate)
  {
  }
}
