/** The policy tracking controller: the query filter built from the request
    parameters, the standardised row each policy type is shown as, and the
    "all services" list sorted newest first. A regular expression search is
    an uninterpreted predicate `re(pattern, value)`; `new Date(...)` is given as a
    parsed moment in milliseconds (`None` for an invalid date). */
module Track {
  import opened Wrappers
  import opened Text
  import opened DateKeys
  import Sorting

  // ---------------------------------------------------------------------------
  // The query filter

  /** The request's query parameters ("" when absent), with what
      `new Date(from)` and `new Date(to)` give. */
  datatype Query = Query(
    partner: string, dealer: string, from: string, to: string, dateFilterField: string, search: string,
    fromAt: Option<int>, toAt: Option<int>)

  /** A bound of a date condition: a moment, or JavaScript's Invalid Date. */
  datatype Moment = At(ms: int) | InvalidDate

  /** One entry of the `$and` list. */
  datatype Cond =
    | DealerIs(dealer: string)                                   // {$or: [{dealer}, {dealerName}]}
    | DateIn(field: string, gte: Option<Moment>, lte: Option<Moment>)
    | SearchAny(fields: seq<string>, pattern: string)            // {$or: [{field: regex}, ...]}

  /** The filter object: an optional `partner` field and an optional `$and`. */
  datatype Filter = Filter(partner: Option<string>, and: Option<seq<Cond>>)

  const DateFields: seq<string> := ["odStartDate", "policyIssueDate", "createdAt", "issueDate", "startDate"]

  /** The requested date field when it is whitelisted, else `policyIssueDate`. */
  function DateField(requested: string): (r: string)
    ensures r in DateFields
    ensures requested in DateFields ==> r == requested
    ensures requested !in DateFields ==> r == "policyIssueDate"
  {
    if requested in DateFields then requested else "policyIssueDate"
  }

  /** The fields the search looks in, by policy type, GIC's by default. */
  function SearchFields(kind: string): seq<string> {
    match kind
    case "LIC" => ["policyNo", "customerName", "planName"]
    case "NONMOTOR" => ["policyNo", "customerName", "product"]
    case "HEALTH" => ["policyNo", "customerName", "product"]
    case _ => ["policyNo", "vehicleNo", "vehicleName", "customerName", "chassisNo"]
  }

  /** Any type other than LIC, non-motor and health searches as GIC does,
      and only GIC searches vehicle and chassis numbers; every type searches
      the policy number and the customer's name. */
  lemma SearchFieldsByType(kind: string)
    ensures kind !in {"LIC", "NONMOTOR", "HEALTH"} ==> SearchFields(kind) == SearchFields("GIC")
    ensures "vehicleNo" in SearchFields(kind) <==> kind !in {"LIC", "NONMOTOR", "HEALTH"}
    ensures SearchFields(kind)[0] == "policyNo" && "customerName" in SearchFields(kind)
  {
  }

  /** `fromDate.setHours(0, 0, 0, 0)`. */
  function DayFloor(t: Option<int>): Moment {
    if t.None? then InvalidDate else At(StartOfDay(t.value))
  }

  /** `toDate.setHours(23, 59, 59, 999)`. */
  function DayCeiling(t: Option<int>): Moment {
    if t.None? then InvalidDate else At(StartOfDay(t.value) + MsPerDay - 1)
  }

  function DateCond(q: Query): Cond {
    DateIn(DateField(q.dateFilterField),
           if q.from != "" then Some(DayFloor(q.fromAt)) else None,
           if q.to != "" then Some(DayCeiling(q.toAt)) else None)
  }

  function DealerPart(q: Query): seq<Cond> {
    if Trim(q.dealer) != "" then [DealerIs(q.dealer)] else []
  }

  function DatePart(q: Query): seq<Cond> {
    if q.from != "" || q.to != "" then [DateCond(q)] else []
  }

  function SearchPart(q: Query, kind: string): seq<Cond> {
    if Trim(q.search) != "" then [SearchAny(SearchFields(kind), q.search)] else []
  }

  /** The conditions in the order the builder adds them: dealer, date, search. */
  function Conditions(q: Query, kind: string): seq<Cond> {
    DealerPart(q) + DatePart(q) + SearchPart(q, kind)
  }

  /** `buildFilters(query, type)`, as a value. */
  function Filters(q: Query, kind: string): Filter {
    Filter(if Trim(q.partner) != "" then Some(q.partner) else None,
           if Conditions(q, kind) == [] then None else Some(Conditions(q, kind)))
  }

  /** `buildFilters(query, type)`: sets the partner, then pushes the dealer,
      date and search conditions one by one, and attaches them as `$and`
      when there is at least one. */
  method BuildFilters(q: Query, kind: string) returns (filter: Filter)
    ensures filter == Filters(q, kind)
  {
    filter := Filter(None, None);
    var conds: seq<Cond> := [];
    if q.partner != "" && Trim(q.partner) != "" {
      filter := filter.(partner := Some(q.partner));
    }
    conds := AddDealer(conds, q);
    assert conds == DealerPart(q);
    conds := AddDate(conds, q);
    conds := AddSearch(conds, q, kind);
    assert conds == Conditions(q, kind);
    if |conds| > 0 {
      filter := filter.(and := Some(conds));
    }
  }

  /** The dealer block: `$or` of `dealer` and `dealerName` when a dealer is given. */
  method AddDealer(conds: seq<Cond>, q: Query) returns (r: seq<Cond>)
    ensures r == conds + DealerPart(q)
  {
    r := conds;
    if q.dealer != "" && Trim(q.dealer) != "" {
      r := r + [DealerIs(q.dealer)];
    }
  }

  /** The date block: the whitelisted field between the start of the `from`
      day and the end of the `to` day, each bound only when given. */
  method AddDate(conds: seq<Cond>, q: Query) returns (r: seq<Cond>)
    ensures r == conds + DatePart(q)
    ensures q.from != "" || q.to != "" ==> r[|conds|].field in DateFields
  {
    r := conds;
    if q.from != "" || q.to != "" {
      var field := DateField(q.dateFilterField);
      var gte: Option<Moment> := None;
      var lte: Option<Moment> := None;
      if q.from != "" {
        gte := Some(DayFloor(q.fromAt));
      }
      if q.to != "" {
        lte := Some(DayCeiling(q.toAt));
      }
      r := r + [DateIn(field, gte, lte)];
    }
  }

  /** The search block: the type's `$or` over its fields when a search is given. */
  method AddSearch(conds: seq<Cond>, q: Query, kind: string) returns (r: seq<Cond>)
    ensures r == conds + SearchPart(q, kind)
  {
    r := conds;
    if q.search != "" && Trim(q.search) != "" {
      var c := SearchCondition(kind, q.search);
      r := r + [c];
    }
  }

  /** The `switch (type)` of the search block: an `$or` over the type's
      fields, GIC's for any other type. */
  method SearchCondition(kind: string, pattern: string) returns (c: Cond)
    ensures c == SearchAny(SearchFields(kind), pattern)
    ensures c.pattern == pattern && c.fields[0] == "policyNo"
  {
    var fields: seq<string>;
    match kind {
      case "LIC" => fields := ["policyNo", "customerName", "planName"];
      case "NONMOTOR" => fields := ["policyNo", "customerName", "product"];
      case "HEALTH" => fields := ["policyNo", "customerName", "product"];
      case _ => fields := ["policyNo", "vehicleNo", "vehicleName", "customerName", "chassisNo"];
    }
    c := SearchAny(fields, pattern);
  }

  // ---------------------------------------------------------------------------
  // What the filter asks of a stored policy

  /** A stored policy as the query sees it: its text fields and its date
      fields, by name. */
  datatype Doc = Doc(text: map<string, string>, dates: map<string, int>)

  predicate TextIs(doc: Doc, field: string, v: string) {
    field in doc.text && doc.text[field] == v
  }

  predicate AtLeast(bound: Option<Moment>, v: int) {
    match bound
    case None => true
    case Some(At(m)) => m <= v
    case Some(InvalidDate) => false
  }

  predicate AtMost(bound: Option<Moment>, v: int) {
    match bound
    case None => true
    case Some(At(m)) => v <= m
    case Some(InvalidDate) => false
  }

  /** Some of the fields is present and matches the pattern. */
  predicate SearchHits(fields: seq<string>, pattern: string, doc: Doc, re: (string, string) -> bool) {
    exists i :: 0 <= i < |fields| && fields[i] in doc.text && re(pattern, doc.text[fields[i]])
  }

  predicate Holds(c: Cond, doc: Doc, re: (string, string) -> bool) {
    match c
    case DealerIs(d) => TextIs(doc, "dealer", d) || TextIs(doc, "dealerName", d)
    case DateIn(f, gte, lte) => f in doc.dates && AtLeast(gte, doc.dates[f]) && AtMost(lte, doc.dates[f])
    case SearchAny(fs, p) => SearchHits(fs, p, doc, re)
  }

  predicate AllHold(cs: seq<Cond>, doc: Doc, re: (string, string) -> bool) {
    forall i :: 0 <= i < |cs| ==> Holds(cs[i], doc, re)
  }

  predicate Satisfies(filter: Filter, doc: Doc, re: (string, string) -> bool) {
    && (filter.partner.Some? ==> TextIs(doc, "partner", filter.partner.value))
    && (filter.and.Some? ==> AllHold(filter.and.value, doc, re))
  }

  lemma AllHoldAppend(a: seq<Cond>, b: seq<Cond>, doc: Doc, re: (string, string) -> bool)
    ensures AllHold(a + b, doc, re) <==> AllHold(a, doc, re) && AllHold(b, doc, re)
  {
    if AllHold(a, doc, re) && AllHold(b, doc, re) {
      forall i | 0 <= i < |a + b|
        ensures Holds((a + b)[i], doc, re)
      {
        if i >= |a| {
          assert (a + b)[i] == b[i - |a|];
        }
      }
    }
    if AllHold(a + b, doc, re) {
      forall i | 0 <= i < |a|
        ensures Holds(a[i], doc, re)
      {
        assert (a + b)[i] == a[i];
      }
      forall i | 0 <= i < |b|
        ensures Holds(b[i], doc, re)
      {
        assert (a + b)[|a| + i] == b[i];
      }
    }
  }

  lemma AllHoldOne(c: Cond, doc: Doc, re: (string, string) -> bool)
    ensures AllHold([c], doc, re) <==> Holds(c, doc, re)
    ensures AllHold([], doc, re)
  {
    assert [c][0] == c;
  }

  /** The date condition holds exactly when the chosen field lies from the
      start of the `from` day to the end of the `to` day, each bound only
      if given. */
  lemma DateCondMeaning(q: Query, doc: Doc, re: (string, string) -> bool)
    ensures Holds(DateCond(q), doc, re) <==>
      var f := DateField(q.dateFilterField);
      && f in doc.dates
      && (q.from != "" ==> q.fromAt.Some? && StartOfDay(q.fromAt.value) <= doc.dates[f])
      && (q.to != "" ==> q.toAt.Some? && doc.dates[f] <= StartOfDay(q.toAt.value) + MsPerDay - 1)
  {
  }

  /** A policy passes the built filter exactly when: its partner is the
      requested one, if a non-blank partner was given; its dealer or its
      dealer name is the requested dealer, if a non-blank dealer was given;
      the chosen date field lies from the start of the `from` day to the
      end of the `to` day, each bound only if given; and one of the type's
      search fields matches, if a non-blank search was given. */
  lemma FiltersMeaning(q: Query, kind: string, doc: Doc, re: (string, string) -> bool)
    ensures Satisfies(Filters(q, kind), doc, re) <==>
      && (Trim(q.partner) != "" ==> TextIs(doc, "partner", q.partner))
      && (Trim(q.dealer) != "" ==> TextIs(doc, "dealer", q.dealer) || TextIs(doc, "dealerName", q.dealer))
      && (q.from != "" || q.to != "" ==> Holds(DateCond(q), doc, re))
      && (Trim(q.search) != "" ==> SearchHits(SearchFields(kind), q.search, doc, re))
  {
    AllHoldAppend(DealerPart(q), DatePart(q), doc, re);
    AllHoldAppend(DealerPart(q) + DatePart(q), SearchPart(q, kind), doc, re);
    AllHoldOne(DealerIs(q.dealer), doc, re);
    AllHoldOne(DateCond(q), doc, re);
    AllHoldOne(SearchAny(SearchFields(kind), q.search), doc, re);
  }

  /** `$and` is there exactly when some condition was added; with no
      parameters the filter is empty. */
  lemma AndPresent(q: Query, kind: string)
    ensures Filters(q, kind).and.Some? <==> Trim(q.dealer) != "" || q.from != "" || q.to != "" || Trim(q.search) != ""
    ensures Filters(q, kind).partner.Some? <==> Trim(q.partner) != ""
    ensures q.partner == q.dealer == q.from == q.to == q.search == "" ==> Filters(q, kind) == Filter(None, None)
  {
  }

  /** `trackLIC`'s query: the date field defaults to `issueDate`. */
  function LicQuery(q: Query): Query {
    if q.dateFilterField == "" then q.(dateFilterField := "issueDate") else q
  }

  /** With dates given and no date field, the LIC list filters on
      `issueDate`, while the "all services" list builds its LIC filter from
      the raw query and filters LIC policies on `policyIssueDate`. */
  lemma LicDateFieldDefault(q: Query)
    requires q.dateFilterField == "" && (q.from != "" || q.to != "")
    ensures DateCond(LicQuery(q)).field == "issueDate"
    ensures DateCond(q).field == "policyIssueDate"
    ensures DateCond(LicQuery(q)) in Filters(LicQuery(q), "LIC").and.value
    ensures DateCond(q) in Filters(q, "LIC").and.value
  {
    assert "issueDate" == DateFields[3];
    DateCondListed(LicQuery(q), "LIC");
    DateCondListed(q, "LIC");
  }

  lemma DateCondListed(q: Query, kind: string)
    requires q.from != "" || q.to != ""
    ensures Filters(q, kind).and.Some? && DateCond(q) in Filters(q, kind).and.value
  {
    assert DatePart(q) == [DateCond(q)];
    assert Conditions(q, kind)[|DealerPart(q)|] == DateCond(q);
  }

  // ---------------------------------------------------------------------------
  // The standardised row

  datatype Customer = Customer(name: string, mobile: string, email: string, address: string)

  /** A policy's `partner`: absent, a reference (or a stored string), or
      the populated partner document with its name. */
  datatype PartnerRef = NoPartner | PartnerId(id: string) | PartnerDoc(name: string)

  /** The agent column: a name, or the partner value itself. */
  datatype Agent = AgentName(name: string) | AgentValue(ref: PartnerRef)

  /** A stored policy of any type, with the fields the standardisation
      reads ("" or `None` when missing; `customer` is `None` when it is not
      populated, `productName` is the populated product's name). */
  datatype Policy = Policy(
    customer: Option<Customer>, customerName: string, customerMobile: string, customeremail: string,
    partner: PartnerRef, policyNo: string, planName: string, product: string, productName: string,
    gicProduct: string, dealerName: string, insCompany: string, insuranceCompany: string,
    policyIssueDate: Option<int>, issueDate: Option<int>, createdAt: int,
    premium: Option<real>, totalPremium: Option<real>, netPremium: Option<real>,
    amountReceived: Option<real>, payment: Option<real>)

  /** The row shown for a policy, in the fields the four types share. */
  datatype Row = Row(
    kind: string, customerName: string, customerMobile: string, customerEmail: string, address: string,
    agent: Agent, policyNo: string, product: string, dealerName: string, company: string,
    issueDate: Option<int>, createdAt: int, premium: real, netPremium: real, balance: real)

  /** `a || b` on strings. */
  function Or(a: string, b: string): string {
    if a != "" then a else b
  }

  function OrDate(a: Option<int>, b: Option<int>): Option<int> {
    if a.Some? then a else b
  }

  function CustomerField(c: Option<Customer>, pick: Customer -> string): string {
    if c.Some? then pick(c.value) else ""
  }

  function AgentOf(p: PartnerRef, kind: string): Agent {
    match p
    case PartnerDoc(n) =>
      if n != "" then AgentName(n)
      else if kind in {"LIC", "NONMOTOR", "HEALTH"} then AgentValue(p) else AgentName("-")
    case PartnerId(id) =>
      if id != "" && kind in {"LIC", "NONMOTOR", "HEALTH"} then AgentValue(p) else AgentName("-")
    case NoPartner => AgentName("-")
  }

  /** The premium the balance starts from: `totalPremium` for non-motor. */
  function PremiumOf(d: Policy, kind: string): Option<real> {
    if kind == "NONMOTOR" then d.totalPremium else d.premium
  }

  /** The amount received: `payment.amount` for non-motor. */
  function ReceivedOf(d: Policy, kind: string): Option<real> {
    if kind == "NONMOTOR" then d.payment else d.amountReceived
  }

  function ProductOf(d: Policy, kind: string): string {
    match kind
    case "LIC" => d.planName
    case "NONMOTOR" => d.product
    case "HEALTH" => d.product
    case _ => Or(d.gicProduct, d.productName)
  }

  function CompanyOf(d: Policy, kind: string): string {
    if kind == "NONMOTOR" then d.insuranceCompany else d.insCompany
  }

  function StandardRow(d: Policy, kind: string): Row {
    var premium := OrZero(PremiumOf(d, kind));
    Row(kind,
        Or(CustomerField(d.customer, (c: Customer) => c.name), Or(d.customerName, "-")),
        Or(CustomerField(d.customer, (c: Customer) => c.mobile), Or(d.customerMobile, "-")),
        Or(CustomerField(d.customer, (c: Customer) => c.email), Or(d.customeremail, "-")),
        Or(CustomerField(d.customer, (c: Customer) => c.address), "-"),
        AgentOf(d.partner, kind),
        Or(d.policyNo, "-"),
        Or(ProductOf(d, kind), "-"),
        Or(d.dealerName, "-"),
        Or(CompanyOf(d, kind), "-"),
        if kind == "NONMOTOR" then d.issueDate else OrDate(d.policyIssueDate, d.issueDate),
        d.createdAt,
        premium,
        OrZero(d.netPremium),
        premium - OrZero(ReceivedOf(d, kind)))
  }

  /** `standardizeEntry(doc, type)`: null for a null document. */
  function Standardize(doc: Option<Policy>, kind: string): Option<Row> {
    if doc.None? then None else Some(StandardRow(doc.value, kind))
  }

  /** A null document gives null and any other a row of the requested type,
      whose balance is its premium (the total premium for non-motor) less
      the amount received (the payment for non-motor), a missing value
      counting as 0. */
  lemma StandardizeBalance(doc: Option<Policy>, kind: string)
    ensures Standardize(doc, kind).None? <==> doc.None?
    ensures doc.Some? ==>
      var r := Standardize(doc, kind).value;
      && r.kind == kind
      && r.premium == OrZero(if kind == "NONMOTOR" then doc.value.totalPremium else doc.value.premium)
      && r.balance == r.premium - OrZero(if kind == "NONMOTOR" then doc.value.payment else doc.value.amountReceived)
      && (ReceivedOf(doc.value, kind).None? ==> r.balance == r.premium)
  {
  }

  /** No text column of a row is empty: a column whose sources are all
      missing shows "-", and otherwise the first source present. */
  lemma StandardizeDefaults(d: Policy, kind: string)
    ensures var r := StandardRow(d, kind);
      && r.customerName != "" && r.customerMobile != "" && r.customerEmail != "" && r.address != ""
      && r.policyNo != "" && r.product != "" && r.dealerName != "" && r.company != ""
      && (r.agent.AgentName? ==> r.agent.name != "")
      && (d.customer.None? ==>
            && r.address == "-"
            && r.customerName == (if d.customerName != "" then d.customerName else "-")
            && r.customerEmail == (if d.customeremail != "" then d.customeremail else "-"))
      && (d.customer.Some? && d.customer.value.name != "" ==> r.customerName == d.customer.value.name)
      && (d.policyNo == "" <==> r.policyNo == "-" && d.policyNo != "-")
      && (d.partner == NoPartner ==> r.agent == AgentName("-"))
  {
  }

  /** The GIC list shows only a populated partner's name, while the other
      types fall back to the stored partner value. */
  lemma AgentByType(id: string, kind: string)
    requires id != ""
    ensures AgentOf(PartnerId(id), "GIC") == AgentName("-")
    ensures kind in {"LIC", "NONMOTOR", "HEALTH"} ==> AgentOf(PartnerId(id), kind) == AgentValue(PartnerId(id))
  {
  }

  // ---------------------------------------------------------------------------
  // The "all services" list

  function CreatedOf(r: Row): int { r.createdAt }

  function StandardRows(docs: seq<Policy>, kind: string): (rows: seq<Row>)
    ensures |rows| == |docs|
    ensures forall j :: 0 <= j < |docs| ==> rows[j] == StandardRow(docs[j], kind)
  {
    seq(|docs|, j requires 0 <= j < |docs| => StandardRow(docs[j], kind))
  }

  /** `trackAll`: the four types' rows, GIC, LIC, health and non-motor in
      that order, sorted by `(a, b) => b.createdAt - a.createdAt`. */
  function TrackAll(gic: seq<Policy>, lic: seq<Policy>, health: seq<Policy>, nonmotor: seq<Policy>): seq<Row> {
    Sorting.SortBy(StandardRows(gic, "GIC") + StandardRows(lic, "LIC") + StandardRows(health, "HEALTH")
                   + StandardRows(nonmotor, "NONMOTOR"), Sorting.HigherFirst(CreatedOf))
  }

  /** The list holds every row of the four types, each once, newest first. */
  lemma TrackAllMeaning(gic: seq<Policy>, lic: seq<Policy>, health: seq<Policy>, nonmotor: seq<Policy>)
    ensures var r := TrackAll(gic, lic, health, nonmotor);
      && multiset(r) == multiset(StandardRows(gic, "GIC")) + multiset(StandardRows(lic, "LIC"))
                        + multiset(StandardRows(health, "HEALTH")) + multiset(StandardRows(nonmotor, "NONMOTOR"))
      && |r| == |gic| + |lic| + |health| + |nonmotor|
      && forall i, j :: 0 <= i < j < |r| ==> r[i].createdAt >= r[j].createdAt
  {
    var merged := StandardRows(gic, "GIC") + StandardRows(lic, "LIC") + StandardRows(health, "HEALTH")
                   + StandardRows(nonmotor, "NONMOTOR");
    Sorting.HigherFirstWeak(CreatedOf);
    Sorting.SortBySorted(merged, Sorting.HigherFirst(CreatedOf));
    var r := TrackAll(gic, lic, health, nonmotor);
    forall i, j | 0 <= i < j < |r|
      ensures r[i].createdAt >= r[j].createdAt
    {
      Sorting.HigherFirstMeans(CreatedOf, r[j], r[i]);
    }
  }
}
