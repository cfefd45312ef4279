/** The string primitives the controllers use: `trim`, `toLowerCase`, `includes`,
    `split`, character-class `replace`, and the number parsers `parseFloat` and
    `parseInt`. Strings are sequences of characters; only ASCII case and ASCII
    whitespace are modelled. */
module Text {
  import opened Wrappers

  // ---------------------------------------------------------------------------
  // Characters

  /** The whitespace `trim()` and `parseFloat` skip (ASCII part). */
  predicate IsSpace(c: char) {
    c == ' ' || c == '\t' || c == '\n' || c == '\r' || c == '\U{000B}' || c == '\U{000C}'
  }

  predicate IsDigit(c: char) { '0' <= c <= '9' }

  predicate IsUpper(c: char) { 'A' <= c <= 'Z' }

  /** The class `[a-z0-9]`. */
  predicate IsLowerAlnum(c: char) { 'a' <= c <= 'z' || IsDigit(c) }

  /** The class `[0-9.]`. */
  predicate IsDigitOrDot(c: char) { IsDigit(c) || c == '.' }

  function LowerChar(c: char): (r: char)
    ensures !IsUpper(r)
    ensures IsSpace(r) <==> IsSpace(c)
    ensures !IsUpper(c) ==> r == c
  {
    if IsUpper(c) then (c as int + 32) as char else c
  }

  function DigitValue(c: char): nat
    requires IsDigit(c)
  {
    c as int - '0' as int
  }

  // ---------------------------------------------------------------------------
  // Case and whitespace

  /** `s.toLowerCase()` on ASCII letters. */
  function ToLower(s: string): (r: string)
    ensures |r| == |s|
    ensures forall i :: 0 <= i < |s| ==> r[i] == LowerChar(s[i])
  {
    seq(|s|, i requires 0 <= i < |s| => LowerChar(s[i]))
  }

  function TrimStart(s: string): (r: string)
    ensures |r| <= |s| && r == s[|s| - |r|..]
    ensures r == [] || !IsSpace(r[0])
    ensures forall i :: 0 <= i < |s| - |r| ==> IsSpace(s[i])
  {
    if |s| > 0 && IsSpace(s[0]) then TrimStart(s[1..]) else s
  }

  function TrimEnd(s: string): (r: string)
    ensures |r| <= |s| && r == s[..|r|]
    ensures r == [] || !IsSpace(r[|r| - 1])
    ensures forall i :: |r| <= i < |s| ==> IsSpace(s[i])
  {
    if |s| > 0 && IsSpace(s[|s| - 1]) then TrimEnd(s[..|s| - 1]) else s
  }

  /** `s.trim()`. */
  function Trim(s: string): (r: string)
    ensures |r| <= |s|
    ensures r == [] || (!IsSpace(r[0]) && !IsSpace(r[|r| - 1]))
  {
    TrimEnd(TrimStart(s))
  }

  /** A string with no whitespace at either end is its own trim. */
  lemma TrimOfTrimmed(s: string)
    requires s == [] || (!IsSpace(s[0]) && !IsSpace(s[|s| - 1]))
    ensures Trim(s) == s
  {
  }

  /** Whitespace on either side of a text that starts and ends with a
      non-space character is exactly what the trim removes. */
  lemma TrimOfSurrounded(pre: string, c: string, post: string)
    requires c != [] && !IsSpace(c[0]) && !IsSpace(c[|c| - 1])
    requires forall i :: 0 <= i < |pre| ==> IsSpace(pre[i])
    requires forall i :: 0 <= i < |post| ==> IsSpace(post[i])
    ensures Trim(pre + c + post) == c
  {
    assert pre + c + post == pre + (c + post);
    TrimStartOfSpaces(pre, c + post);
    TrimEndOfSpaces(c, post);
  }

  lemma {:induction false} TrimStartOfSpaces(pre: string, u: string)
    requires u != [] && !IsSpace(u[0])
    requires forall i :: 0 <= i < |pre| ==> IsSpace(pre[i])
    ensures TrimStart(pre + u) == u
  {
    if pre != [] {
      assert (pre + u)[1..] == pre[1..] + u;
      TrimStartOfSpaces(pre[1..], u);
    }
  }

  lemma {:induction false} TrimEndOfSpaces(c: string, post: string)
    requires c != [] && !IsSpace(c[|c| - 1])
    requires forall i :: 0 <= i < |post| ==> IsSpace(post[i])
    ensures TrimEnd(c + post) == c
  {
    if post != [] {
      var s := c + post;
      assert s[..|s| - 1] == c + post[..|post| - 1];
      TrimEndOfSpaces(c, post[..|post| - 1]);
    }
  }

  /** `String(v || "").trim().toLowerCase()`: the normalisation every
      controller applies before comparing names. */
  function Normalize(s: string): string {
    ToLower(Trim(s))
  }

  lemma {:induction false} ToLowerIdempotent(s: string)
    ensures ToLower(ToLower(s)) == ToLower(s)
  {
  }

  lemma ToLowerOfLower(s: string)
    requires forall i :: 0 <= i < |s| ==> !IsUpper(s[i])
    ensures ToLower(s) == s
  {
  }

  /** Normalising twice is normalising once, so a value normalised by the
      caller and again by the callee compares the same. */
  lemma NormalizeIdempotent(s: string)
    ensures Normalize(Normalize(s)) == Normalize(s)
  {
    var t := Trim(s);
    var l := ToLower(t);
    TrimOfTrimmed(l);
    ToLowerIdempotent(t);
  }

  /** A string already in normal form (no upper case, no surrounding
      whitespace) is unchanged by normalisation. */
  lemma NormalizeOfNormal(s: string)
    requires s == [] || (!IsSpace(s[0]) && !IsSpace(s[|s| - 1]))
    requires forall i :: 0 <= i < |s| ==> !IsUpper(s[i])
    ensures Normalize(s) == s
  {
    TrimOfTrimmed(s);
    ToLowerOfLower(s);
  }

  /** Normalising brings in no character that is neither a letter nor
      whitespace. */
  lemma NormalizeKeepsOut(s: string, c: char)
    requires c !in s && !IsSpace(c) && !('a' <= c <= 'z')
    ensures c !in Normalize(s)
  {
    var t := Trim(s);
    TrimKeeps(s);
    var r := ToLower(t);
    forall i | 0 <= i < |r|
      ensures r[i] != c
    {
      assert t[i] in s;
    }
  }

  /** One space on either side of a trimmed text is trimmed away. */
  lemma TrimOfPadded(c: string)
    requires c == [] || (!IsSpace(c[0]) && !IsSpace(c[|c| - 1]))
    ensures Trim([' '] + c + [' ']) == c
  {
    var s := [' '] + c + [' '];
    assert s[1..] == c + [' '];
    if c == [] {
      assert TrimStart([' ']) == TrimStart([' '][1..]);
    } else {
      assert TrimStart(c + [' ']) == c + [' '];
    }
    assert TrimStart(s) == TrimStart(c + [' ']);
    assert (c + [' '])[..|c|] == c;
    TrimOfTrimmed(c);
  }

  /** Trimming only removes characters. */
  lemma TrimKeeps(s: string)
    ensures forall i :: 0 <= i < |Trim(s)| ==> Trim(s)[i] in s
  {
    var u := TrimStart(s);
    var k := |s| - |u|;
    assert u == s[k..];
    var t := TrimEnd(u);
    assert t == u[..|t|];
    forall i | 0 <= i < |t|
      ensures t[i] in s
    {
      assert t[i] == u[i];
      assert u[i] == s[k + i];
    }
  }

  // ---------------------------------------------------------------------------
  // Searching and filtering

  predicate StartsWith(s: string, prefix: string) {
    |prefix| <= |s| && s[..|prefix|] == prefix
  }

  /** `s.includes(sub)`. */
  predicate Contains(s: string, sub: string) {
    exists i :: 0 <= i <= |s| && StartsWith(s[i..], sub)
  }

  /** `s.replace(/[^...]/g, "")`: keep the characters of one class. */
  function Filter(s: string, keep: char -> bool): (r: string)
    ensures |r| <= |s|
    ensures forall i :: 0 <= i < |r| ==> keep(r[i])
  {
    if s == [] then []
    else (if keep(s[0]) then [s[0]] else []) + Filter(s[1..], keep)
  }

  lemma {:induction false} FilterKeepsAll(s: string, keep: char -> bool)
    requires forall i :: 0 <= i < |s| ==> keep(s[i])
    ensures Filter(s, keep) == s
  {
    if s != [] {
      FilterKeepsAll(s[1..], keep);
    }
  }

  predicate NotPercent(c: char) { c != '%' }

  /** `s.replace(/%/g, "")`. */
  function RemovePercent(s: string): (r: string)
    ensures '%' !in r
  {
    Filter(s, NotPercent)
  }

  /** The first position of `c` in `s`. */
  function IndexOf(s: string, c: char): (i: nat)
    requires c in s
    ensures i < |s| && s[i] == c && c !in s[..i]
  {
    if s[0] == c then 0 else 1 + IndexOf(s[1..], c)
  }

  /** `s.split(sep)` for a one-character separator. */
  function Split(s: string, sep: char): (parts: seq<string>)
    ensures |parts| >= 1
    decreases |s|
  {
    if sep in s then
      var i := IndexOf(s, sep);
      [s[..i]] + Split(s[i + 1..], sep)
    else [s]
  }

  /** `parts.join(sep)`. */
  function Join(parts: seq<string>, sep: char): string
    requires |parts| >= 1
  {
    if |parts| == 1 then parts[0] else parts[0] + [sep] + Join(parts[1..], sep)
  }

  /** Splitting and joining again gives back the original string. */
  lemma {:induction false} JoinSplit(s: string, sep: char)
    ensures Join(Split(s, sep), sep) == s
    decreases |s|
  {
    if sep in s {
      var i := IndexOf(s, sep);
      var a, b := s[..i], s[i + 1..];
      SplitFirst(s, sep);
      JoinCons(a, Split(b, sep), sep);
      JoinSplit(b, sep);
      SliceAround(s, i);
    } else {
      SplitNone(s, sep);
    }
  }

  lemma {:induction false} SplitFirst(s: string, sep: char)
    requires sep in s
    ensures Split(s, sep) == [s[..IndexOf(s, sep)]] + Split(s[IndexOf(s, sep) + 1..], sep)
  {
  }

  lemma JoinCons(a: string, rest: seq<string>, sep: char)
    requires |rest| >= 1
    ensures Join([a] + rest, sep) == a + [sep] + Join(rest, sep)
  {
    assert ([a] + rest)[1..] == rest;
  }

  lemma PrefixSnoc<T>(s: seq<T>, i: nat)
    requires i < |s|
    ensures s[..i + 1] == s[..i] + [s[i]]
  {
  }

  lemma SliceAround<T>(s: seq<T>, i: nat)
    requires i < |s|
    ensures s == s[..i] + [s[i]] + s[i + 1..]
  {
  }

  /** Joining parts free of the separator and splitting again gives back
      the parts. */
  lemma {:induction false} SplitJoin(parts: seq<string>, sep: char)
    requires |parts| >= 1
    requires forall i :: 0 <= i < |parts| ==> sep !in parts[i]
    ensures Split(Join(parts, sep), sep) == parts
    decreases |parts|
  {
    if |parts| == 1 {
      SplitNone(parts[0], sep);
    } else {
      SplitJoin(parts[1..], sep);
      SplitAt(parts[0], sep, Join(parts[1..], sep));
    }
  }

  /** So such a join tells its parts apart. */
  lemma JoinInjective(a: seq<string>, b: seq<string>, sep: char)
    requires |a| >= 1 && |b| >= 1
    requires forall i :: 0 <= i < |a| ==> sep !in a[i]
    requires forall i :: 0 <= i < |b| ==> sep !in b[i]
    ensures Join(a, sep) == Join(b, sep) <==> a == b
  {
    SplitJoin(a, sep);
    SplitJoin(b, sep);
  }

  /** Splitting at a known first separator. */
  /** Moving a separator from the end of one part to the start of the next
      leaves the joined text unchanged. */
  lemma JoinShiftsSeparator(a: string, b: string, c: string, r: seq<string>, sep: char)
    requires |r| >= 1
    ensures Join([a + [sep] + b, c] + r, sep) == Join([a, b + [sep] + c] + r, sep)
  {
    var x, y := a + [sep] + b, b + [sep] + c;
    assert [x, c] + r == [x] + ([c] + r);
    assert [a, y] + r == [a] + ([y] + r);
    JoinCons(c, r, sep);
    JoinCons(x, [c] + r, sep);
    JoinCons(y, r, sep);
    JoinCons(a, [y] + r, sep);
    ShiftMiddle(a, b, c, Join(r, sep), sep);
  }

  lemma ShiftMiddle<T>(a: seq<T>, b: seq<T>, c: seq<T>, j: seq<T>, s: T)
    ensures (a + [s] + b) + [s] + (c + [s] + j) == a + [s] + ((b + [s] + c) + [s] + j)
  {
  }

  lemma AppendAssoc<T>(x: seq<T>, y: seq<T>, z: seq<T>)
    ensures x + y + z == x + (y + z)
  {
  }

  lemma SplitAt(a: string, sep: char, b: string)
    requires sep !in a
    ensures Split(a + [sep] + b, sep) == [a] + Split(b, sep)
  {
    var s := a + [sep] + b;
    assert s[|a|] == sep;
    assert s[..|a|] == a;
    var i := IndexOf(s, sep);
    assert i == |a|;
    assert s[..i] == a;
    assert s[i + 1..] == b;
  }

  /** The first separator of `a + [sep] + b` is the one after `a`. */
  lemma IndexOfAt(a: string, sep: char, b: string)
    requires sep !in a
    ensures IndexOf(a + [sep] + b, sep) == |a|
  {
    var s := a + [sep] + b;
    assert s[|a|] == sep;
    assert s[..|a|] == a;
  }

  lemma SplitNone(s: string, sep: char)
    requires sep !in s
    ensures Split(s, sep) == [s]
  {
  }

  /** `parts[i]` interpolated into a template literal: a missing part shows as
      the text "undefined". */
  function TemplatePart(parts: seq<string>, i: nat): string {
    if i < |parts| then parts[i] else "undefined"
  }

  // ---------------------------------------------------------------------------
  // Numbers

  predicate AllDigits(s: string) {
    forall i :: 0 <= i < |s| ==> IsDigit(s[i])
  }

  /** The decimal value of a string of digits. */
  function DigitsValue(d: string): nat
    requires AllDigits(d)
  {
    if d == [] then 0 else DigitsValue(d[..|d| - 1]) * 10 + DigitValue(d[|d| - 1])
  }

  function Pow10(k: nat): (r: nat)
    ensures r >= 1
  {
    if k == 0 then 1 else 10 * Pow10(k - 1)
  }

  /** The longest prefix of `s` made of digits. */
  function LeadingDigits(s: string): (d: string)
    ensures AllDigits(d) && |d| <= |s| && d == s[..|d|]
    ensures |d| < |s| ==> !IsDigit(s[|d|])
  {
    if |s| > 0 && IsDigit(s[0]) then [s[0]] + LeadingDigits(s[1..]) else []
  }

  lemma LeadingDigitsOfDigits(d: string, rest: string)
    requires AllDigits(d)
    requires rest == [] || !IsDigit(rest[0])
    ensures LeadingDigits(d + rest) == d
  {
    if d != [] {
      assert (d + rest)[1..] == d[1..] + rest;
      LeadingDigitsOfDigits(d[1..], rest);
    }
  }

  /** Strips an optional leading sign: the sign is negative, and the rest. */
  function Signed(t: string): (bool, string) {
    if |t| > 0 && (t[0] == '-' || t[0] == '+') then (t[0] == '-', t[1..]) else (false, t)
  }

  /** The value of the decimal literal `ip.fp`. */
  function DecimalValue(ip: string, fp: string): real
    requires AllDigits(ip) && AllDigits(fp)
  {
    DigitsValue(ip) as real + DigitsValue(fp) as real / Pow10(|fp|) as real
  }

  /** The digits after a leading '.', if any. */
  function Fraction(rest: string): (fp: string)
    ensures AllDigits(fp)
  {
    if |rest| > 0 && rest[0] == '.' then LeadingDigits(rest[1..]) else []
  }

  /** `parseFloat` after the whitespace and the sign. */
  function ParseUnsigned(u: string): Option<real> {
    var ip := LeadingDigits(u);
    var fp := Fraction(u[|ip|..]);
    if ip == [] && fp == [] then None else Some(DecimalValue(ip, fp))
  }

  /** `parseFloat(s)`: skips leading whitespace, reads an optional sign and the
      decimal literal `digits[.digits]` at the front of the string; `None` is
      NaN (no digit at the front). */
  function ParseFloat(s: string): Option<real> {
    var (neg, u) := Signed(TrimStart(s));
    match ParseUnsigned(u)
    case None => None
    case Some(v) => Some(if neg then -v else v)
  }

  /** `parseInt(s)` without a radix: whitespace, optional sign, then either
      "0x" or "0X" and the leading hexadecimal digits after it, or the
      leading decimal digits; NaN (None) when there are none. */
  function ParseInt(s: string): Option<int> {
    var (neg, u) := Signed(TrimStart(s));
    if HexPrefixed(u) then
      var h := LeadingHexDigits(u[2..]);
      if h == [] then None else Some(if neg then -(HexValue(h) as int) else HexValue(h))
    else
      var ip := LeadingDigits(u);
      if ip == [] then None
      else Some(if neg then -(DigitsValue(ip) as int) else DigitsValue(ip))
  }

  /** A "0x" or "0X" prefix, which makes `parseInt` read base 16. */
  predicate HexPrefixed(u: string) {
    |u| >= 2 && u[0] == '0' && (u[1] == 'x' || u[1] == 'X')
  }

  predicate IsHexDigit(c: char) { IsDigit(c) || 'a' <= c <= 'f' || 'A' <= c <= 'F' }

  function HexDigitValue(c: char): nat
    requires IsHexDigit(c)
  {
    if IsDigit(c) then (c - '0') as nat
    else if 'a' <= c <= 'f' then (c - 'a') as nat + 10
    else (c - 'A') as nat + 10
  }

  /** The value of a string of hexadecimal digits. */
  function HexValue(h: string): nat
    requires forall i :: 0 <= i < |h| ==> IsHexDigit(h[i])
  {
    if h == [] then 0 else HexValue(h[..|h| - 1]) * 16 + HexDigitValue(h[|h| - 1])
  }

  /** The longest prefix of `s` made of hexadecimal digits. */
  function LeadingHexDigits(s: string): (h: string)
    ensures |h| <= |s| && h == s[..|h|]
    ensures forall i :: 0 <= i < |h| ==> IsHexDigit(h[i])
    ensures |h| < |s| ==> !IsHexDigit(s[|h|])
  {
    if |s| > 0 && IsHexDigit(s[0]) then [s[0]] + LeadingHexDigits(s[1..]) else []
  }

  /** A bare "0x" or "0X" prefix, with no hexadecimal digit after it, is
      NaN, although it starts with the digit 0. */
  lemma ParseIntBareHexPrefix(x: char, rest: string)
    requires x == 'x' || x == 'X'
    requires rest == [] || !IsHexDigit(rest[0])
    ensures ParseInt(['0', x] + rest) == None
  {
    var u := ['0', x] + rest;
    assert TrimStart(u) == u;
    assert Signed(u) == (false, u);
    assert u[2..] == rest;
  }

  /** `parseFloat(x) || 0`: NaN (and zero) become zero. */
  function OrZero(x: Option<real>): real {
    x.GetOr(0.0)
  }

  /** A string of digits followed by a non-number character (or nothing)
      parses as its decimal value. */
  lemma ParseFloatOfDigits(d: string, rest: string)
    requires AllDigits(d) && d != []
    requires rest == [] || (!IsDigit(rest[0]) && rest[0] != '.')
    ensures ParseFloat(d + rest) == Some(DigitsValue(d) as real)
  {
    var s := d + rest;
    assert s[0] == d[0];
    assert TrimStart(s) == s;
    assert Signed(s) == (false, s);
    LeadingDigitsOfDigits(d, rest);
    assert s[|d|..] == rest;
    assert Fraction(rest) == [];
    DecimalWhole(d);
  }

  /** A string of digits parses as its decimal value. */
  lemma ParseFloatOfNumeral(d: string)
    requires AllDigits(d) && d != []
    ensures ParseFloat(d) == Some(DigitsValue(d) as real)
  {
    ParseFloatOfDigits(d, []);
    assert d + [] == d;
  }

  lemma DecimalWhole(d: string)
    requires AllDigits(d)
    ensures DecimalValue(d, []) == DigitsValue(d) as real
  {
    var e: string := [];
    assert DigitsValue(e) == 0;
    assert Pow10(|e|) == 1;
  }

  lemma ParseIntOfDigits(d: string)
    requires AllDigits(d) && d != []
    ensures ParseInt(d) == Some(DigitsValue(d) as int)
  {
    assert !IsSpace(d[0]) && d[0] != '-' && d[0] != '+';
    assert TrimStart(d) == d;
    assert !HexPrefixed(d) by {
      if |d| >= 2 { assert IsDigit(d[1]); }
    }
    LeadingDigitsOfDigits(d, []);
    assert d + [] == d;
  }

  /** A string with no digit at the front (after whitespace and a sign, and
      not a '.' followed by a digit) is NaN. */
  lemma ParseFloatNaN(s: string)
    requires s != [] && !IsSpace(s[0]) && !IsDigit(s[0]) && s[0] != '.' && s[0] != '-' && s[0] != '+'
    ensures ParseFloat(s) == None
  {
    assert TrimStart(s) == s;
  }

  // ---------------------------------------------------------------------------
  // Numbers as JSON carries them, and as template literals write them

  /** A JSON number in a truth test: missing, NaN and zero are falsy. */
  predicate Truthy(x: Option<real>) { x.Some? && x.value != 0.0 }

  function DigitChar(d: nat): (c: char)
    requires d < 10
    ensures IsDigit(c) && DigitValue(c) == d
  {
    ('0' as int + d) as char
  }

  /** The decimal numeral of a natural number, without leading zeros. */
  function NatText(n: nat): (r: string)
    ensures r != [] && AllDigits(r)
    ensures |r| > 1 ==> r[0] != '0'
    decreases n
  {
    if n < 10 then [DigitChar(n)] else NatText(n / 10) + [DigitChar(n % 10)]
  }

  /** Reading the numeral back gives the number. */
  lemma {:induction false} NatTextValue(n: nat)
    ensures DigitsValue(NatText(n)) == n
    decreases n
  {
    if n >= 10 {
      NatTextValue(n / 10);
      var r := NatText(n);
      assert r[..|r| - 1] == NatText(n / 10);
    }
  }

  /** The digits after the point of a fraction `0 <= f < 1`, at most `places`
      of them, without trailing zeros. */
  function FractionText(f: real, places: nat): (r: string)
    requires 0.0 <= f < 1.0
    ensures AllDigits(r)
    decreases places
  {
    if places == 0 || f == 0.0 then []
    else
      var d := (f * 10.0).Floor;
      [DigitChar(d)] + FractionText(f * 10.0 - d as real, places - 1)
  }

  /** `${x}` for a number: the integer part, then a point and the fraction
      digits when there are any; the minus sign of a negative number. At
      most 20 fraction digits are written. */
  function NumberText(x: real): string {
    var a := if x < 0.0 then -x else x;
    var i := a.Floor;
    var body := NatText(i) + (if a == i as real then [] else ['.'] + FractionText(a - i as real, 20));
    if x < 0.0 then ['-'] + body else body
  }

  /** A whole number shows as its numeral, and `parseFloat` reads it back. */
  lemma NumberTextOfNat(n: nat)
    ensures NumberText(n as real) == NatText(n)
    ensures ParseFloat(NumberText(n as real)) == Some(n as real)
  {
    NumberTextWhole(n);
    NatTextValue(n);
    ParseFloatOfNumeral(NatText(n));
  }

  lemma NumberTextWhole(n: nat)
    ensures NumberText(n as real) == NatText(n)
  {
    var x := n as real;
    assert x.Floor == n && !(x < 0.0);
    assert NatText(x.Floor) + [] == NatText(n);
  }
}
