/** The date-key normalisers (`getCleanDate` in its variants) that turn a
    request's date text into the `ddmmyyyy` key a rule set is stored under,
    and `getStartOfDay`, which truncates a moment to its day. */
module DateKeys {
  import opened Wrappers
  import opened Text

  /** `${x}${y}${z}` over parts of a split, a missing part showing "undefined". */
  function Glue(parts: seq<string>, i: nat, j: nat, k: nat): string {
    TemplatePart(parts, i) + TemplatePart(parts, j) + TemplatePart(parts, k)
  }

  /** `getCleanDate` of the GIC partner controller: a dashed value whose first
      part has 4 characters is read as year-month-day, one whose first part has
      2 characters as day-month-year; an 8-character value without a dash is
      kept; anything else is rejected. */
  function GicCleanDate(s: string): Option<string> {
    if s == [] then None
    else if '-' in s && |Split(s, '-')[0]| == 4 then Some(Glue(Split(s, '-'), 2, 1, 0))
    else if '-' in s && |Split(s, '-')[0]| == 2 then Some(Glue(Split(s, '-'), 0, 1, 2))
    else if |s| == 8 && '-' !in s then Some(s)
    else None
  }

  /** `getCleanDate` of the health partner controller: the same reading, on the
      trimmed text. */
  function HealthCleanDate(s: string): Option<string> {
    if s == [] then None
    else
      var str := Trim(s);
      if '-' in str && |Split(str, '-')[0]| == 4 then
        var p := Split(str, '-');
        Some(Glue(p, 2, 1, 0))
      else if '-' in str && |Split(str, '-')[0]| == 2 then
        var p := Split(str, '-');
        Some(Glue(p, 0, 1, 2))
      else if |str| == 8 && '-' !in str then Some(str)
      else None
  }

  /** `getCleanDate` of the non-motor and LIC partner controllers: a dashed
      value is read as year-month-day from the text before any 'T'; any other
      value is reduced to its digits (possibly none). */
  function SplitDateKey(s: string): Option<string> {
    if s == [] then None
    else if '-' in s then
      var p := Split(Split(s, 'T')[0], '-');
      Some(Glue(p, 2, 1, 0))
    else Some(Filter(s, IsDigit))
  }

  /** `getCleanDate` of the dealer LIC controller: the digits of the value;
      when the value has a dash before index 5 and exactly 8 digits, they are read
      as yyyymmdd and reordered to ddmmyyyy; otherwise 8 digits are kept as they
      are and anything else is rejected. */
  function DealerLicCleanDate(s: string): Option<string> {
    if s == [] then None
    else
      var clean := Filter(s, IsDigit);
      if '-' in s && |clean| == 8 && IndexOf(s, '-') < 5 then
        Some(clean[6..8] + clean[4..6] + clean[0..4])
      else if |clean| == 8 then Some(clean)
      else None
  }

  // ---------------------------------------------------------------------------
  // Splitting a dashed date

  predicate NoDash(s: string) { '-' !in s }

  lemma SplitThree(a: string, b: string, c: string)
    requires NoDash(a) && NoDash(b) && NoDash(c)
    ensures Split(a + "-" + b + "-" + c, '-') == [a, b, c]
  {
    assert a + "-" + b + "-" + c == a + ['-'] + (b + ['-'] + c);
    SplitAt(a, '-', b + ['-'] + c);
    SplitAt(b, '-', c);
    SplitNone(c, '-');
  }

  lemma DashIn(a: string, b: string, c: string)
    ensures '-' in a + "-" + b + "-" + c
  {
    assert (a + "-" + b + "-" + c)[|a|] == '-';
  }

  // ---------------------------------------------------------------------------
  // Properties of the GIC and health readings

  /** "YYYY-MM-DD" becomes "DDMMYYYY". */
  lemma GicCleanDateIso(y: string, m: string, d: string)
    requires NoDash(y) && NoDash(m) && NoDash(d) && |y| == 4
    ensures GicCleanDate(y + "-" + m + "-" + d) == Some(d + m + y)
  {
    SplitThree(y, m, d);
    DashIn(y, m, d);
  }

  /** A dashed value whose first part has 2 characters has its parts joined in order. */
  lemma GicCleanDateDayFirst(d: string, m: string, y: string)
    requires NoDash(y) && NoDash(m) && NoDash(d) && |d| == 2
    ensures GicCleanDate(d + "-" + m + "-" + y) == Some(d + m + y)
  {
    SplitThree(d, m, y);
    DashIn(d, m, y);
  }

  /** A missing part shows as "undefined": "2025-01" becomes "undefined012025". */
  lemma GicCleanDateMissingPart()
    ensures GicCleanDate("2025-01") == Some("undefined012025")
  {
    var s := "2025-01";
    assert s == "2025" + ['-'] + "01";
    assert s[4] == '-';
    SplitAt("2025", '-', "01");
    SplitNone("01", '-');
    var p := Split(s, '-');
    assert p == ["2025", "01"];
    assert |p[0]| == 4;
    assert Glue(p, 2, 1, 0) == "undefined" + "01" + "2025";
    assert "undefined" + "01" + "2025" == "undefined012025";
    assert GicCleanDate(s) == Some(Glue(p, 2, 1, 0));
  }

  /** The value is kept exactly when it has 8 characters and no dash; a dashed
      value is accepted exactly when its first part has 2 or 4 characters. */
  lemma GicCleanDateCases(s: string)
    ensures '-' !in s ==> (GicCleanDate(s) == if |s| == 8 then Some(s) else None)
    ensures '-' in s ==> (GicCleanDate(s).Some? <==> |Split(s, '-')[0]| in {2, 4})
  {
  }

  /** The health reading is the GIC reading of the trimmed text. */
  lemma HealthIsGicOfTrimmed(s: string)
    ensures HealthCleanDate(s) == GicCleanDate(Trim(s))
  {
  }

  /** Surrounding whitespace does not change the health reading:
      "YYYY-MM-DD" with any spaces, tabs or line breaks around it becomes
      "DDMMYYYY". */
  lemma HealthCleanDateIso(y: string, m: string, d: string, pre: string, post: string)
    requires NoDash(y) && NoDash(m) && NoDash(d) && |y| == 4
    requires d != [] && !IsSpace(y[0]) && !IsSpace(d[|d| - 1])
    requires forall i :: 0 <= i < |pre| ==> IsSpace(pre[i])
    requires forall i :: 0 <= i < |post| ==> IsSpace(post[i])
    ensures HealthCleanDate(pre + (y + "-" + m + "-" + d) + post) == Some(d + m + y)
  {
    var s := y + "-" + m + "-" + d;
    assert s[0] == y[0] && s[|s| - 1] == d[|d| - 1];
    TrimOfSurrounded(pre, s, post);
    HealthIsGicOfTrimmed(pre + s + post);
    GicCleanDateIso(y, m, d);
  }

  // ---------------------------------------------------------------------------
  // Properties of the non-motor / LIC partner reading

  /** "YYYY-MM-DD", with or without a time part, becomes "DDMMYYYY". */
  lemma SplitDateKeyIso(y: string, m: string, d: string, time: string)
    requires NoDash(y) && NoDash(m) && NoDash(d)
    requires 'T' !in y && 'T' !in m && 'T' !in d
    ensures SplitDateKey(y + "-" + m + "-" + d) == Some(d + m + y)
    ensures SplitDateKey(y + "-" + m + "-" + d + "T" + time) == Some(d + m + y)
  {
    var s := y + "-" + m + "-" + d;
    DashIn(y, m, d);
    SplitThree(y, m, d);
    assert 'T' !in s;
    SplitNone(s, 'T');
    var st := s + "T" + time;
    assert st == s + ['T'] + time;
    SplitAt(s, 'T', time);
    assert st[|y|] == '-';
  }

  /** A value without a dash is reduced to its digits. */
  lemma SplitDateKeyDigits(s: string)
    requires s != [] && '-' !in s
    ensures SplitDateKey(s) == Some(Filter(s, IsDigit))
    ensures AllDigits(SplitDateKey(s).value)
  {
  }

  // ---------------------------------------------------------------------------
  // Properties of the dealer LIC reading

  lemma FilterDigitsConcat(a: string, b: string)
    ensures Filter(a + b, IsDigit) == Filter(a, IsDigit) + Filter(b, IsDigit)
    decreases |a|
  {
    if a != [] {
      assert (a + b)[0] == a[0];
      assert (a + b)[1..] == a[1..] + b;
      FilterDigitsConcat(a[1..], b);
    } else {
      assert a + b == b;
    }
  }

  lemma FilterOfDashed(a: string, b: string, c: string)
    requires AllDigits(a) && AllDigits(b) && AllDigits(c)
    ensures Filter(a + "-" + b + "-" + c, IsDigit) == a + b + c
  {
    var x1 := a + "-";
    var x2 := x1 + b;
    var x3 := x2 + "-";
    assert Filter("-", IsDigit) == [];
    FilterKeepsAll(a, IsDigit);
    FilterKeepsAll(b, IsDigit);
    FilterKeepsAll(c, IsDigit);
    FilterDigitsConcat(a, "-");
    assert Filter(x1, IsDigit) == a;
    FilterDigitsConcat(x1, b);
    assert Filter(x2, IsDigit) == a + b;
    FilterDigitsConcat(x2, "-");
    assert Filter(x3, IsDigit) == a + b;
    FilterDigitsConcat(x3, c);
  }

  /** Reorders the eight digits yyyymmdd into ddmmyyyy. */
  function Reorder(clean: string): string
    requires |clean| == 8
  {
    clean[6..8] + clean[4..6] + clean[0..4]
  }

  /** A value of three digit groups, eight digits in all, whose first dash
      comes before index 5, has its digits read as yyyymmdd. */
  lemma DealerLicDashed(a: string, b: string, c: string)
    requires AllDigits(a) && AllDigits(b) && AllDigits(c)
    requires |a| + |b| + |c| == 8 && |a| < 5
    ensures DealerLicCleanDate(a + "-" + b + "-" + c) == Some(Reorder(a + b + c))
  {
    var s := a + "-" + b + "-" + c;
    FilterOfDashed(a, b, c);
    assert s == a + ['-'] + (b + "-" + c);
    IndexOfAt(a, '-', b + "-" + c);
  }

  /** "YYYY-MM-DD" becomes "DDMMYYYY". */
  lemma DealerLicIso(y: string, m: string, d: string)
    requires AllDigits(y) && AllDigits(m) && AllDigits(d)
    requires |y| == 4 && |m| == 2 && |d| == 2
    ensures DealerLicCleanDate(y + "-" + m + "-" + d) == Some(d + m + y)
  {
    DealerLicDashed(y, m, d);
    var clean := y + m + d;
    assert clean[6..8] == d && clean[4..6] == m && clean[0..4] == y;
  }

  /** "DD-MM-YYYY" is misread: its digits are taken as yyyymmdd, so the key
      comes out as the year's last two digits, its first two, then day and
      month ("15-01-2025" gives "25201501"), which is never the intended
      "DDMMYYYY" unless the day repeats the year's last two digits. */
  lemma DealerLicMisreadsDayFirst(d: string, m: string, y: string)
    requires AllDigits(d) && AllDigits(m) && AllDigits(y)
    requires |d| == 2 && |m| == 2 && |y| == 4
    ensures DealerLicCleanDate(d + "-" + m + "-" + y) == Some(y[2..4] + y[0..2] + d + m)
    ensures y[2..4] != d ==> DealerLicCleanDate(d + "-" + m + "-" + y) != Some(d + m + y)
  {
    DealerLicDashed(d, m, y);
    var clean := d + m + y;
    assert clean[6..8] == y[2..4] && clean[4..6] == y[0..2] && clean[0..4] == d + m;
    var r := y[2..4] + y[0..2] + d + m;
    assert Reorder(clean) == y[2..4] + y[0..2] + (d + m) == r;
    if y[2..4] != d {
      assert r[..2] == y[2..4] && (d + m + y)[..2] == d;
    }
  }

  /** Eight digits are kept unchanged; a value without a dash is accepted
      exactly when it has 8 digits. */
  lemma DealerLicUndashed(s: string)
    requires s != [] && '-' !in s
    ensures DealerLicCleanDate(s).Some? <==> |Filter(s, IsDigit)| == 8
    ensures AllDigits(s) && |s| == 8 ==> DealerLicCleanDate(s) == Some(s)
  {
    if AllDigits(s) {
      FilterKeepsAll(s, IsDigit);
    }
  }

  // ---------------------------------------------------------------------------
  // Days

  /** Milliseconds in a day. */
  const MsPerDay: int := 86400000

  /** The start of the day containing moment `t` (milliseconds, local time
      taken as UTC). */
  function StartOfDay(t: int): (r: int)
    ensures r <= t < r + MsPerDay
    ensures r % MsPerDay == 0
  {
    (t / MsPerDay) * MsPerDay
  }

  /** `getStartOfDay(input)`: null for a missing input or one that is not a
      date, otherwise the start of its day. `parsed` is what `new Date(input)`
      gives (`None` for an invalid date). */
  function GetStartOfDay(input: string, parsed: Option<int>): (r: Option<int>)
    ensures r.Some? <==> input != [] && parsed.Some?
    ensures r.Some? ==> r.value <= parsed.value < r.value + MsPerDay && r.value % MsPerDay == 0
  {
    if input == [] || parsed.None? then None else Some(StartOfDay(parsed.value))
  }

  /** Two moments fall on the same day exactly when their starts of day agree. */
  lemma SameDay(t: int, u: int)
    ensures StartOfDay(t) == StartOfDay(u) <==> StartOfDay(t) <= u < StartOfDay(t) + MsPerDay
  {
  }

  /** Truncating twice is truncating once. */
  lemma StartOfDayIdempotent(t: int)
    ensures StartOfDay(StartOfDay(t)) == StartOfDay(t)
  {
  }
}
