/** Range strings such as "0-1500", "2000-Max" or "All" (`parseRange`) and
    the weighted comparison of one rule field with one policy field
    (`scoreField`), shared by the dealer and the partner GIC reports. */
module Ranges {
  import opened Wrappers
  import opened Text

  /** The upper end of a range: a number, `Infinity`, or `NaN` (an upper
      part that does not parse). */
  datatype Upper = Finite(x: real) | Infinite | NotANumber

  datatype Range = Range(min: real, max: Upper)

  /** The range every value lies in. */
  const Everything: Range := Range(0.0, Infinite)

  /** `parseRange(rangeStr)`: normalise, drop every '%', treat "" and "all" as
      everything; otherwise the part before the first '-' is the minimum
      (0 when it does not parse) and the part after it the maximum (unbounded
      when missing, empty or containing "max"; NaN when it does not parse). */
  function ParseRange(raw: string): Range {
    RangeOf(RemovePercent(Normalize(raw)))
  }

  /** `parseRange` after normalisation and '%' removal. */
  function RangeOf(s: string): Range {
    if s == [] || s == "all" then Everything
    else RangeOfParts(Split(s, '-'))
  }

  function RangeOfParts(parts: seq<string>): Range
    requires |parts| >= 1
  {
    Range(OrZero(ParseFloat(parts[0])), UpperOf(parts))
  }

  /** `(!parts[1] || parts[1].includes("max")) ? Infinity : parseFloat(parts[1])`. */
  function UpperOf(parts: seq<string>): Upper {
    if |parts| < 2 || parts[1] == [] || Contains(parts[1], "max") then Infinite
    else match ParseFloat(parts[1])
      case None => NotANumber
      case Some(v) => Finite(v)
  }

  /** `v > max`, where any comparison with NaN is false. */
  predicate Above(v: real, max: Upper) {
    match max
    case Finite(x) => v > x
    case Infinite => false
    case NotANumber => false
  }

  /** The gate `!(v < r.min || v > r.max)`. */
  predicate Within(v: real, r: Range) {
    !(v < r.min || Above(v, r.max))
  }

  // ---------------------------------------------------------------------------
  // Properties of the parser

  lemma ParseFloatNoMinus(t: string)
    requires '-' !in t
    ensures ParseFloat(t).Some? ==> ParseFloat(t).value >= 0.0
  {
    var u := TrimStart(t);
    assert u == t[|t| - |u|..];
    if u != [] {
      assert u[0] == t[|t| - |u|];
    }
    var (neg, w) := Signed(u);
    assert !neg;
    UnsignedNonNegative(w);
  }

  lemma UnsignedNonNegative(w: string)
    ensures ParseUnsigned(w).Some? ==> ParseUnsigned(w).value >= 0.0
  {
    var ip := LeadingDigits(w);
    var fp := Fraction(w[|ip|..]);
    if ParseUnsigned(w).Some? {
      assert ParseUnsigned(w).value == DecimalValue(ip, fp);
      QuotientNonNegative(DigitsValue(fp), Pow10(|fp|));
    }
  }

  lemma QuotientNonNegative(n: nat, p: nat)
    requires p >= 1
    ensures n as real / p as real >= 0.0
  {
    var q := n as real / p as real;
    assert q * p as real == n as real;
  }

  /** The minimum is never negative: a '-' can only separate the two parts,
      and an unparsable minimum counts as 0. */
  lemma ParseRangeMinNonNegative(raw: string)
    ensures ParseRange(raw).min >= 0.0
    ensures var s := RemovePercent(Normalize(raw));
      !(s == [] || s == "all") ==>
        && (ParseFloat(Split(s, '-')[0]).None? ==> ParseRange(raw).min == 0.0)
        && (ParseFloat(Split(s, '-')[0]).Some? ==> ParseRange(raw).min == ParseFloat(Split(s, '-')[0]).value)
  {
    var s := RemovePercent(Normalize(raw));
    assert ParseRange(raw) == RangeOf(s);
    if !(s == [] || s == "all") {
      ParseFloatNoMinus(Split(s, '-')[0]);
    }
  }

  /** After normalisation and '%' removal, "" and "all" mean everything. */
  lemma ParseRangeWildcard(raw: string)
    requires RemovePercent(Normalize(raw)) in {"", "all"}
    ensures ParseRange(raw) == Everything
    ensures forall v :: v >= 0.0 ==> Within(v, ParseRange(raw))
  {
  }

  lemma FullRangeWords()
    ensures ParseRange("All") == Everything
    ensures ParseRange("") == Everything
  {
    var t := Trim("All");
    assert t == "All";
    var l := ToLower(t);
    assert l == "all";
    FilterKeepsAll(l, NotPercent);
    assert RemovePercent(Normalize("All")) == "all";
  }

  predicate IsNumeral(a: string) { AllDigits(a) && a != [] }

  /** Text of digits, lower-case letters and dashes starting with a digit is
      already normalised. */
  lemma ParseRangeOfPlain(s: string)
    requires s != [] && IsDigit(s[0])
    requires forall i :: 0 <= i < |s| ==> IsDigit(s[i]) || 'a' <= s[i] <= 'z' || s[i] == '-'
    ensures ParseRange(s) == RangeOf(s)
  {
    NormalizeOfNormal(s);
    FilterKeepsAll(s, NotPercent);
  }

  lemma NoMaxInDigits(b: string)
    requires AllDigits(b)
    ensures !Contains(b, "max")
  {
    forall i | 0 <= i <= |b|
      ensures !StartsWith(b[i..], "max")
    {
      if i < |b| {
        assert b[i..][0] == b[i];
      }
    }
  }

  lemma SplitTwo(a: string, b: string)
    requires '-' !in a && '-' !in b
    ensures Split(a + "-" + b, '-') == [a, b]
  {
    assert a + "-" + b == a + ['-'] + b;
    SplitAt(a, '-', b);
    SplitNone(b, '-');
  }

  lemma RangeOfOpenParts(a: string, parts: seq<string>)
    requires IsNumeral(a)
    requires parts in {[a], [a, ""], [a, "max"]}
    ensures RangeOfParts(parts) == Range(DigitsValue(a) as real, Infinite)
  {
    ParseFloatOfNumeral(a);
    if parts == [a, "max"] {
      assert StartsWith("max"[0..], "max");
    }
  }

  lemma SplitOpen(a: string, tail: string)
    requires IsNumeral(a)
    requires tail in {"", "-", "-max"}
    ensures Split(a + tail, '-') in {[a], [a, ""], [a, "max"]}
  {
    if tail == "" {
      assert a + tail == a;
      SplitNone(a, '-');
    } else if tail == "-" {
      assert a + tail == a + "-" + "";
      SplitTwo(a, "");
    } else {
      assert a + tail == a + "-" + "max";
      SplitTwo(a, "max");
    }
  }

  /** "A", "A-" and "A-max" give [A, ∞) for a numeral A. */
  lemma ParseRangeOpen(a: string, tail: string)
    requires IsNumeral(a)
    requires tail in {"", "-", "-max"}
    ensures ParseRange(a + tail) == Range(DigitsValue(a) as real, Infinite)
  {
    var s := a + tail;
    assert s[0] == a[0];
    assert forall i :: 0 <= i < |tail| ==> tail[i] in "-max";
    assert forall i :: |a| <= i < |s| ==> s[i] == tail[i - |a|];
    ParseRangeOfPlain(s);
    assert s != "all";
    SplitOpen(a, tail);
    RangeOfOpenParts(a, Split(s, '-'));
  }

  lemma RangeOfNumerals(a: string, b: string)
    requires IsNumeral(a) && IsNumeral(b)
    ensures RangeOfParts([a, b]) == Range(DigitsValue(a) as real, Finite(DigitsValue(b) as real))
  {
    NoMaxInDigits(b);
    ParseFloatOfNumeral(a);
    ParseFloatOfNumeral(b);
  }

  /** "A-B" gives [A, B] for numerals A and B. */
  lemma ParseRangeClosed(a: string, b: string)
    requires IsNumeral(a) && IsNumeral(b)
    ensures ParseRange(a + "-" + b) == Range(DigitsValue(a) as real, Finite(DigitsValue(b) as real))
  {
    var s := a + "-" + b;
    assert s[0] == a[0];
    ParseRangeOfPlain(s);
    assert s != "all";
    SplitTwo(a, b);
    assert RangeOf(s) == RangeOfParts([a, b]);
    RangeOfNumerals(a, b);
  }

  predicate IsWord(b: string) {
    b != [] && forall i :: 0 <= i < |b| ==> 'a' <= b[i] <= 'z'
  }

  lemma RangeOfNaNParts(a: string, b: string)
    requires IsNumeral(a) && IsWord(b) && !Contains(b, "max")
    ensures RangeOfParts([a, b]) == Range(DigitsValue(a) as real, NotANumber)
  {
    ParseFloatNaN(b);
    ParseFloatOfNumeral(a);
  }

  /** An unparsable maximum such as the "abc" of "10-abc" is NaN, and then
      only the minimum gates a value. */
  lemma ParseRangeNaNMax(a: string, b: string)
    requires IsNumeral(a) && IsWord(b) && !Contains(b, "max")
    ensures ParseRange(a + "-" + b) == Range(DigitsValue(a) as real, NotANumber)
    ensures forall v :: Within(v, ParseRange(a + "-" + b)) <==> v >= DigitsValue(a) as real
  {
    var s := a + "-" + b;
    assert s[0] == a[0];
    ParseRangeOfPlain(s);
    assert s != "all";
    SplitTwo(a, b);
    assert RangeOf(s) == RangeOfParts([a, b]);
    RangeOfNaNParts(a, b);
  }

  /** An upper end that is unbounded or NaN never excludes a value. */
  lemma UnboundedMaxNeverExcludes(r: Range, v: real)
    requires !r.max.Finite?
    ensures Within(v, r) <==> v >= r.min
  {
  }

  // ---------------------------------------------------------------------------
  // Field scoring

  /** A rule value that matches every policy: "" or "all" after normalisation. */
  predicate IsWildcard(v: string) {
    Normalize(v) == "all" || Normalize(v) == ""
  }

  /** `scoreField(ruleVal, policyVal, weight)`. */
  function ScoreField(ruleVal: string, policyVal: string, weight: int): (r: int)
    ensures IsWildcard(ruleVal) ==> r == 1
    ensures !IsWildcard(ruleVal) && Normalize(ruleVal) == Normalize(policyVal) ==> r == weight
    ensures !IsWildcard(ruleVal) && Normalize(ruleVal) != Normalize(policyVal) ==> r == -1
  {
    var rv := Normalize(ruleVal);
    var pv := Normalize(policyVal);
    if rv == "all" || rv == "" then 1
    else if rv == pv then weight
    else -1
  }

  /** Whether a rule value accepts a policy value: a wildcard, or equal after
      trimming and ignoring case. */
  predicate Accepts(ruleVal: string, policyVal: string) {
    IsWildcard(ruleVal) || Normalize(ruleVal) == Normalize(policyVal)
  }

  /** With a weight above 1 the score is positive exactly when the rule value
      accepts the policy value, and it is the weight exactly on an exact
      non-wildcard match. */
  lemma ScoreFieldSign(ruleVal: string, policyVal: string, weight: int)
    requires weight > 1
    ensures ScoreField(ruleVal, policyVal, weight) >= 0 <==> Accepts(ruleVal, policyVal)
    ensures ScoreField(ruleVal, policyVal, weight) in {1, weight, -1}
    ensures ScoreField(ruleVal, policyVal, weight) == weight <==> Accepts(ruleVal, policyVal) && !IsWildcard(ruleVal)
  {
  }

  /** Normalising either value beforehand does not change the score. */
  lemma ScoreFieldOfNormalized(ruleVal: string, policyVal: string, weight: int)
    ensures ScoreField(Normalize(ruleVal), Normalize(policyVal), weight) == ScoreField(ruleVal, policyVal, weight)
  {
    NormalizeIdempotent(ruleVal);
    NormalizeIdempotent(policyVal);
  }
}
