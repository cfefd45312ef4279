/** The calendar arithmetic behind `parseDateKey`: `new Date(y, m - 1, d).getTime()`
    for a `ddmmyyyy` key. A moment is counted in whole days since 1970-01-01
    (the local time zone taken as UTC); `None` stands for JavaScript's NaN time. */
module Calendar {
  import opened Wrappers
  import opened Text
  import Sorting

  predicate IsLeap(y: int) {
    (y % 4 == 0 && y % 100 != 0) || y % 400 == 0
  }

  /** ECMAScript DayFromYear: the day number of January 1st of year `y`
      (Dafny's `/` on a positive divisor is the floor the standard uses). */
  function DayFromYear(y: int): int {
    365 * (y - 1970) + (y - 1969) / 4 - (y - 1901) / 100 + (y - 1601) / 400
  }

  function YearLength(y: int): int {
    if IsLeap(y) then 366 else 365
  }

  /** Days in month `m` (0 = January). */
  function DaysInMonth(m: int, leap: bool): int
    requires 0 <= m < 12
  {
    if m == 1 then (if leap then 29 else 28)
    else if m == 3 || m == 5 || m == 8 || m == 10 then 30
    else 31
  }

  /** Days of the year before month `m` (0 = January). */
  function MonthStart(m: int, leap: bool): int
    requires 0 <= m < 12
  {
    [0, 31, 59, 90, 120, 151, 181, 212, 243, 273, 304, 334][m] + (if leap && m >= 2 then 1 else 0)
  }

  /** ECMAScript MakeDay: a month outside 0..11 rolls the year, a date outside
      the month runs on into the following (or preceding) days. */
  function MakeDay(year: int, month: int, date: int): int {
    var ym := year + month / 12;
    var mn := month % 12;
    DayFromYear(ym) + MonthStart(mn, IsLeap(ym)) + date - 1
  }

  /** `new Date(y, m, d)`: a year from 0 to 99 means 1900 + y; any NaN part
      makes the whole date NaN. */
  function JsDateDay(y: Option<int>, m: Option<int>, d: Option<int>): Option<int> {
    if y.None? || m.None? || d.None? then None
    else
      var year := if 0 <= y.value <= 99 then 1900 + y.value else y.value;
      Some(MakeDay(year, m.value, d.value))
  }

  function Pred(x: Option<int>): Option<int> {
    if x.Some? then Some(x.value - 1) else None
  }

  /** `parseDateKey`: 0 for anything that is not an 8-character string,
      otherwise the moment of day `dd`, month `mm`, year `yyyy`. */
  function ParseDateKey(k: string): Option<int> {
    if |k| != 8 then Some(0)
    else JsDateDay(ParseInt(k[4..8]), Pred(ParseInt(k[2..4])), ParseInt(k[0..2]))
  }

  // ---------------------------------------------------------------------------
  // Valid civil dates

  predicate ValidDate(y: int, m: int, d: int) {
    100 <= y && 1 <= m <= 12 && 1 <= d <= DaysInMonth(m - 1, IsLeap(y))
  }

  /** The day number of a valid date `d`/`m`/`y` (month 1 = January). */
  function CivilDay(y: int, m: int, d: int): int
    requires ValidDate(y, m, d)
  {
    DayFromYear(y) + MonthStart(m - 1, IsLeap(y)) + d - 1
  }

  /** Dates compared field by field, year first. */
  predicate DateBefore(y1: int, m1: int, d1: int, y2: int, m2: int, d2: int) {
    y1 < y2 || (y1 == y2 && (m1 < m2 || (m1 == m2 && d1 < d2)))
  }

  /** A multiple of 400 is one of 100, and a multiple of 100 one of 4. */
  lemma DivisorsNest(y: int)
    ensures y % 400 == 0 ==> y % 100 == 0
    ensures y % 100 == 0 ==> y % 4 == 0
  {
    if y % 400 == 0 {
      MultipleRemainder(y, 100, 4 * (y / 400));
    }
    if y % 100 == 0 {
      MultipleRemainder(y, 4, 25 * (y / 100));
    }
  }

  /** A multiple of `m` leaves no remainder by `m`. */
  lemma MultipleRemainder(y: int, m: int, k: int)
    requires m > 0 && y == m * k
    ensures y % m == 0
  {
    var d := k - y / m;
    assert m * d == y % m;
  }

  /** Year `y` adds one to the count of years divisible by 4 since 1969. */
  lemma Step4(y: int)
    ensures (y - 1968) / 4 - (y - 1969) / 4 == if y % 4 == 0 then 1 else 0
  {
    assert y - 1968 == 4 * (y / 4 - 492) + y % 4;
  }

  lemma Step100(y: int)
    ensures (y - 1900) / 100 - (y - 1901) / 100 == if y % 100 == 0 then 1 else 0
  {
    assert y - 1900 == 100 * (y / 100 - 19) + y % 100;
  }

  lemma Step400(y: int)
    ensures (y - 1600) / 400 - (y - 1601) / 400 == if y % 400 == 0 then 1 else 0
  {
    assert y - 1600 == 400 * (y / 400 - 4) + y % 400;
  }

  /** A year has 365 days, or 366 in a leap year. */
  lemma DayFromYearStep(y: int)
    ensures DayFromYear(y + 1) == DayFromYear(y) + YearLength(y)
  {
    var q4 := (y - 1968) / 4 - (y - 1969) / 4;
    var q100 := (y - 1900) / 100 - (y - 1901) / 100;
    var q400 := (y - 1600) / 400 - (y - 1601) / 400;
    Step4(y);
    Step100(y);
    Step400(y);
    DivisorsNest(y);
    assert YearLength(y) == 365 + q4 - q100 + q400;
    assert DayFromYear(y + 1) == 365 * (y - 1969) + (y - 1968) / 4 - (y - 1900) / 100 + (y - 1600) / 400;
  }

  lemma {:induction false} DayFromYearMonotone(y1: int, y2: int)
    requires y1 < y2
    ensures DayFromYear(y1) + YearLength(y1) <= DayFromYear(y2)
    decreases y2 - y1
  {
    DayFromYearStep(y1);
    if y1 + 1 < y2 {
      DayFromYearMonotone(y1 + 1, y2);
    }
  }

  lemma MonthStartStep(m: int, leap: bool)
    requires 0 <= m < 11
    ensures MonthStart(m, leap) + DaysInMonth(m, leap) == MonthStart(m + 1, leap)
  {
  }

  lemma {:induction false} MonthStartMonotone(m1: int, m2: int, leap: bool)
    requires 0 <= m1 < m2 < 12
    ensures MonthStart(m1, leap) + DaysInMonth(m1, leap) <= MonthStart(m2, leap)
    decreases m2 - m1
  {
    MonthStartStep(m1, leap);
    if m1 + 1 < m2 {
      MonthStartMonotone(m1 + 1, m2, leap);
      assert DaysInMonth(m1 + 1, leap) > 0;
    }
  }

  /** The last day of a year's months ends the year. */
  lemma MonthsFillYear(y: int, m: int)
    requires 0 <= m < 12
    ensures MonthStart(m, IsLeap(y)) + DaysInMonth(m, IsLeap(y)) <= YearLength(y)
  {
  }

  /** Valid dates are numbered in calendar order: an earlier date has a
      smaller day number. */
  lemma CivilDayOrder(y1: int, m1: int, d1: int, y2: int, m2: int, d2: int)
    requires ValidDate(y1, m1, d1) && ValidDate(y2, m2, d2)
    requires DateBefore(y1, m1, d1, y2, m2, d2)
    ensures CivilDay(y1, m1, d1) < CivilDay(y2, m2, d2)
  {
    if y1 < y2 {
      MonthsFillYear(y1, m1 - 1);
      DayFromYearMonotone(y1, y2);
    } else if m1 < m2 {
      MonthStartMonotone(m1 - 1, m2 - 1, IsLeap(y1));
    }
  }

  /** Distinct valid dates have distinct day numbers. */
  lemma CivilDayInjective(y1: int, m1: int, d1: int, y2: int, m2: int, d2: int)
    requires ValidDate(y1, m1, d1) && ValidDate(y2, m2, d2)
    requires CivilDay(y1, m1, d1) == CivilDay(y2, m2, d2)
    ensures y1 == y2 && m1 == m2 && d1 == d2
  {
    if DateBefore(y1, m1, d1, y2, m2, d2) {
      CivilDayOrder(y1, m1, d1, y2, m2, d2);
    } else if DateBefore(y2, m2, d2, y1, m1, d1) {
      CivilDayOrder(y2, m2, d2, y1, m1, d1);
    }
  }

  /** 1970-01-01 is day 0, so every valid date from 1970 on is at or after it. */
  lemma CivilDayFrom1970(y: int, m: int, d: int)
    requires ValidDate(y, m, d) && y >= 1970
    ensures CivilDay(y, m, d) >= 0
  {
    if y > 1970 {
      DayFromYearMonotone(1970, y);
    }
  }

  // ---------------------------------------------------------------------------
  // Well-formed date keys

  /** Eight digits spelling a valid date as `ddmmyyyy`. */
  predicate IsDateKey(k: string) {
    && |k| == 8 && AllDigits(k)
    && ValidDate(DigitsValue(k[4..8]), DigitsValue(k[2..4]), DigitsValue(k[0..2]))
  }

  function KeyDay(k: string): nat requires |k| == 8 && AllDigits(k) { DigitsValue(k[0..2]) }
  function KeyMonth(k: string): nat requires |k| == 8 && AllDigits(k) { DigitsValue(k[2..4]) }
  function KeyYear(k: string): nat requires |k| == 8 && AllDigits(k) { DigitsValue(k[4..8]) }

  /** A well-formed key parses to the day number of the date it spells. */
  lemma ParseDateKeyOfDateKey(k: string)
    requires IsDateKey(k)
    ensures ParseDateKey(k) == Some(CivilDay(KeyYear(k), KeyMonth(k), KeyDay(k)))
  {
    var y: int, m: int, d: int := KeyYear(k), KeyMonth(k), KeyDay(k);
    assert AllDigits(k[4..8]) && AllDigits(k[2..4]) && AllDigits(k[0..2]);
    ParseIntOfDigits(k[4..8]);
    ParseIntOfDigits(k[2..4]);
    ParseIntOfDigits(k[0..2]);
    ParseDateKeyOfParts(k, y, m, d);
    MakeDayOfValid(y, m, d);
  }

  lemma ParseDateKeyOfParts(k: string, y: int, m: int, d: int)
    requires |k| == 8
    requires ParseInt(k[4..8]) == Some(y)
    requires ParseInt(k[2..4]) == Some(m)
    requires ParseInt(k[0..2]) == Some(d)
    ensures ParseDateKey(k) == JsDateDay(Some(y), Some(m - 1), Some(d))
  {
    DayOfParts(ParseInt(k[4..8]), ParseInt(k[2..4]), ParseInt(k[0..2]), y, m, d);
  }

  lemma DayOfParts(py: Option<int>, pm: Option<int>, pd: Option<int>, y: int, m: int, d: int)
    requires py == Some(y) && pm == Some(m) && pd == Some(d)
    ensures JsDateDay(py, Pred(pm), pd) == JsDateDay(Some(y), Some(m - 1), Some(d))
  {
  }

  /** For a valid date, `new Date(y, m - 1, d)` is that civil day. */
  lemma MakeDayOfValid(y: int, m: int, d: int)
    requires ValidDate(y, m, d)
    ensures JsDateDay(Some(y), Some(m - 1), Some(d)) == Some(CivilDay(y, m, d))
  {
    assert (m - 1) / 12 == 0 && (m - 1) % 12 == m - 1;
  }

  /** Day numbers of valid dates compare as the dates do. */
  lemma CivilDayCompare(y1: int, m1: int, d1: int, y2: int, m2: int, d2: int)
    requires ValidDate(y1, m1, d1) && ValidDate(y2, m2, d2)
    ensures CivilDay(y1, m1, d1) < CivilDay(y2, m2, d2) <==> DateBefore(y1, m1, d1, y2, m2, d2)
  {
    if DateBefore(y1, m1, d1, y2, m2, d2) {
      CivilDayOrder(y1, m1, d1, y2, m2, d2);
    } else if DateBefore(y2, m2, d2, y1, m1, d1) {
      CivilDayOrder(y2, m2, d2, y1, m1, d1);
    }
  }

  /** `parseDateKey` orders well-formed keys chronologically. */
  lemma DateKeysChronological(k1: string, k2: string)
    requires IsDateKey(k1) && IsDateKey(k2)
    ensures ParseDateKey(k1).Some? && ParseDateKey(k2).Some?
    ensures ParseDateKey(k1).value < ParseDateKey(k2).value
        <==> DateBefore(KeyYear(k1), KeyMonth(k1), KeyDay(k1), KeyYear(k2), KeyMonth(k2), KeyDay(k2))
  {
    ParseDateKeyOfDateKey(k1);
    ParseDateKeyOfDateKey(k2);
    CivilDayCompare(KeyYear(k1), KeyMonth(k1), KeyDay(k1), KeyYear(k2), KeyMonth(k2), KeyDay(k2));
  }

  /** A key of the wrong length counts as moment 0, which is no later than any
      well-formed key from 1970 on: malformed keys sort as the earliest. */
  lemma MalformedKeySortsFirst(bad: string, k: string)
    requires |bad| != 8
    requires IsDateKey(k) && KeyYear(k) >= 1970
    ensures ParseDateKey(bad) == Some(0)
    ensures ParseDateKey(k).Some? && ParseDateKey(bad).value <= ParseDateKey(k).value
  {
    ParseDateKeyOfDateKey(k);
    CivilDayFrom1970(KeyYear(k), KeyMonth(k), KeyDay(k));
  }

  /** Keys compared as strings are not in calendar order: "31012025" is the
      larger string but the earlier date. */
  lemma StringOrderIsNotChronological()
    ensures Sorting.StrLess("01022025", "31012025")
    ensures ParseDateKey("31012025").Some? && ParseDateKey("01022025").Some?
    ensures ParseDateKey("31012025").value < ParseDateKey("01022025").value
  {
    Year2025();
    assert "31012025"[4..8] == "2025" && "01022025"[4..8] == "2025";
    assert DigitsValue("31") == 31 by { assert "31"[..1] == "3"; }
    assert DigitsValue("01") == 1 by { assert "01"[..1] == "0"; }
    assert DigitsValue("02") == 2 by { assert "02"[..1] == "0"; }
    assert "31012025"[0..2] == "31" && "31012025"[2..4] == "01";
    assert "01022025"[0..2] == "01" && "01022025"[2..4] == "02";
    DateKeysChronological("31012025", "01022025");
  }

  lemma Year2025()
    ensures DigitsValue("2025") == 2025
  {
    assert "2025"[..3] == "202";
    assert "202"[..2] == "20";
    assert "20"[..1] == "2";
    assert "2"[..0] == "";
  }
}
