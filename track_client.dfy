/** The browser side of the tracking pages: HTML escaping of a cell, the CSV
    export of the visible table rows, and the client-side filtering of the
    loaded rows. */
module TrackClient {
  import opened Wrappers
  import opened Text
  import Sorting

  // ---------------------------------------------------------------------------
  // HTML escaping

  /** A JavaScript value handed to `escapeHtml`. */
  datatype JsValue = JNull | JUndefined | JBool(b: bool) | JNum(x: real) | JNaN | JStr(s: string)

  /** `String(v)` for the values the function does not turn into "". */
  function JsText(v: JsValue): string {
    match v
    case JBool(b) => if b then "true" else "false"
    case JNum(x) => NumberText(x)
    case JStr(s) => s
    case JNull => "null"
    case JUndefined => "undefined"
    case JNaN => "NaN"
  }

  /** `!s`: the falsy values. */
  predicate Falsy(v: JsValue) {
    v == JNull || v == JUndefined || v == JBool(false) || v == JNum(0.0) || v == JNaN || v == JStr("")
  }

  /** The characters the escape table replaces. */
  predicate Special(c: char) {
    c == '&' || c == '<' || c == '>' || c == '"' || c == '\'' || c == '/' || c == '`' || c == '='
  }

  /** The escape table; any other character stands for itself. */
  function Entity(c: char): (r: string)
    ensures r != []
    ensures Special(c) <==> r[0] == '&'
  {
    match c
    case '&' => "&amp;"
    case '<' => "&lt;"
    case '>' => "&gt;"
    case '"' => "&quot;"
    case '\'' => "&#39;"
    case '/' => "&#x2F;"
    case '`' => "&#x60;"
    case '=' => "&#x3D;"
    case _ => [c]
  }

  function EscapeText(s: string): string
    decreases |s|
  {
    if s == [] then [] else Entity(s[0]) + EscapeText(s[1..])
  }

  /** `escapeHtml(s)`: "" for a falsy value other than 0, otherwise the
      text of the value with each special character replaced. */
  function EscapeHtml(v: JsValue): string {
    if Falsy(v) && v != JNum(0.0) then "" else EscapeText(JsText(v))
  }

  lemma {:induction false} EscapeTextEmpty(s: string)
    ensures EscapeText(s) == [] <==> s == []
  {
  }

  /** Null, undefined, "", false and NaN show as nothing; 0 shows as "0",
      and every other value shows as something. */
  lemma EscapeHtmlEmpty(v: JsValue)
    ensures EscapeHtml(v) == "" <==> v in {JNull, JUndefined, JBool(false), JNaN, JStr("")}
    ensures EscapeHtml(JNum(0.0)) == "0"
  {
    assert JsText(JNum(0.0)) == "0" by {
      assert (0.0).Floor == 0;
    }
    assert EscapeText("0") == "0" by {
      assert "0"[1..] == [];
    }
    if !Falsy(v) {
      EscapeTextEmpty(JsText(v));
      assert JsText(v) != [] by {
        match v
        case JNum(x) =>
          var a := if x < 0.0 then -x else x;
          assert NatText(a.Floor) != [];
        case _ =>
      }
    }
  }

  /** Text without special characters is left as it is. */
  lemma {:induction false} EscapeClean(s: string)
    requires forall i :: 0 <= i < |s| ==> !Special(s[i])
    ensures EscapeText(s) == s
    decreases |s|
  {
    if s != [] {
      EscapeClean(s[1..]);
    }
  }

  /** The escaped text holds no special character other than the `&` that
      starts an entity. */
  lemma {:induction false} EscapeSafe(s: string)
    ensures forall i :: 0 <= i < |EscapeText(s)| ==> EscapeText(s)[i] == '&' || !Special(EscapeText(s)[i])
    decreases |s|
  {
    if s != [] {
      EscapeSafe(s[1..]);
      var e := Entity(s[0]);
      var r := EscapeText(s[1..]);
      forall i | 0 <= i < |e + r|
        ensures (e + r)[i] == '&' || !Special((e + r)[i])
      {
        if i >= |e| {
          assert (e + r)[i] == r[i - |e|];
        }
      }
    }
  }

  /** The character an escaped text starts with, and how many characters
      spell it: an entity, or a single character. */
  function FirstChar(s: string): (r: (char, nat))
    requires s != []
    ensures 1 <= r.1 <= |s|
  {
    if |s| >= 5 && s[..5] == "&amp;" then ('&', 5)
    else if |s| >= 4 && s[..4] == "&lt;" then ('<', 4)
    else if |s| >= 4 && s[..4] == "&gt;" then ('>', 4)
    else if |s| >= 6 && s[..6] == "&quot;" then ('"', 6)
    else if |s| >= 5 && s[..5] == "&#39;" then ('\'', 5)
    else if |s| >= 6 && s[..6] == "&#x2F;" then ('/', 6)
    else if |s| >= 6 && s[..6] == "&#x60;" then ('`', 6)
    else if |s| >= 6 && s[..6] == "&#x3D;" then ('=', 6)
    else (s[0], 1)
  }

  /** Reads the entities back: the inverse of the escape. */
  function Unescape(s: string): string
    decreases |s|
  {
    if s == [] then [] else [FirstChar(s).0] + Unescape(s[FirstChar(s).1..])
  }

  /** `s` starts with the literal `l` only if they agree at `i`. */
  lemma NotPrefix(s: string, l: string, i: nat)
    requires i < |l| && i < |s| && s[i] != l[i]
    ensures !(|s| >= |l| && s[..|l|] == l)
  {
  }

  lemma Prefix(e: string, rest: string)
    ensures (e + rest)[..|e|] == e && (e + rest)[|e|..] == rest
  {
  }

  /** An escaped character is read back whole. */
  lemma FirstCharOf(c: char, rest: string)
    ensures FirstChar(Entity(c) + rest) == (c, |Entity(c)|)
  {
    var e := Entity(c);
    var s := e + rest;
    Prefix(e, rest);
    assert s[0] == e[0];
    if Special(c) {
      assert s[1] == e[1];
      match c
      case '&' =>
      case '<' =>
        NotPrefix(s, "&amp;", 1);
      case '>' =>
        NotPrefix(s, "&amp;", 1);
        NotPrefix(s, "&lt;", 1);
      case '"' =>
        NotPrefix(s, "&amp;", 1);
        NotPrefix(s, "&lt;", 1);
        NotPrefix(s, "&gt;", 1);
      case '\'' =>
        NotPrefix(s, "&amp;", 1);
        NotPrefix(s, "&lt;", 1);
        NotPrefix(s, "&gt;", 1);
        NotPrefix(s, "&quot;", 1);
      case '/' =>
        NotPrefix(s, "&amp;", 1);
        NotPrefix(s, "&lt;", 1);
        NotPrefix(s, "&gt;", 1);
        NotPrefix(s, "&quot;", 1);
        assert s[2] == e[2];
        NotPrefix(s, "&#39;", 2);
      case '`' =>
        NotPrefix(s, "&amp;", 1);
        NotPrefix(s, "&lt;", 1);
        NotPrefix(s, "&gt;", 1);
        NotPrefix(s, "&quot;", 1);
        assert s[2] == e[2] && s[3] == e[3];
        NotPrefix(s, "&#39;", 2);
        NotPrefix(s, "&#x2F;", 3);
      case '=' =>
        NotPrefix(s, "&amp;", 1);
        NotPrefix(s, "&lt;", 1);
        NotPrefix(s, "&gt;", 1);
        NotPrefix(s, "&quot;", 1);
        assert s[2] == e[2] && s[3] == e[3];
        NotPrefix(s, "&#39;", 2);
        NotPrefix(s, "&#x2F;", 3);
        NotPrefix(s, "&#x60;", 3);
    } else {
      assert e == [c];
      assert c != '&';
      NotPrefix(s, "&amp;", 0);
      NotPrefix(s, "&lt;", 0);
      NotPrefix(s, "&gt;", 0);
      NotPrefix(s, "&quot;", 0);
      NotPrefix(s, "&#39;", 0);
      NotPrefix(s, "&#x2F;", 0);
      NotPrefix(s, "&#x60;", 0);
      NotPrefix(s, "&#x3D;", 0);
    }
  }

  /** Reading back one escaped character. */
  lemma UnescapeEntity(c: char, rest: string)
    ensures Unescape(Entity(c) + rest) == [c] + Unescape(rest)
  {
    FirstCharOf(c, rest);
    Prefix(Entity(c), rest);
  }

  /** Unescaping the escaped text gives back the text. */
  lemma {:induction false} UnescapeEscape(s: string)
    ensures Unescape(EscapeText(s)) == s
    decreases |s|
  {
    if s != [] {
      UnescapeEscape(s[1..]);
      UnescapeEntity(s[0], EscapeText(s[1..]));
      assert s == [s[0]] + s[1..];
    }
  }

  // ---------------------------------------------------------------------------
  // CSV export

  /** `cell.replace(/"/g, '""')`. */
  function DoubleQuotes(s: string): string
    decreases |s|
  {
    if s == [] then [] else (if s[0] == '"' then "\"\"" else [s[0]]) + DoubleQuotes(s[1..])
  }

  /** `"${(cell || "").replace(/"/g, '""')}"`. */
  function Quoted(cell: string): string {
    "\"" + DoubleQuotes(cell) + "\""
  }

  function QuotedAll(cells: seq<string>): (r: seq<string>)
    ensures |r| == |cells|
    ensures forall i :: 0 <= i < |cells| ==> r[i] == Quoted(cells[i])
  {
    seq(|cells|, i requires 0 <= i < |cells| => Quoted(cells[i]))
  }

  /** A data line: every cell quoted, joined by commas. */
  function EncodeRow(cells: seq<string>): string {
    if cells == [] then "" else Join(QuotedAll(cells), ',')
  }

  /** The header line: header texts joined by commas, not quoted. */
  function HeaderLine(headers: seq<string>): string {
    if headers == [] then "" else Join(headers, ',')
  }

  /** Reads a quoted cell's content up to its closing quote: the cell and
      what follows the quote. */
  function ReadQuoted(s: string): (r: Option<(string, string)>)
    ensures r.Some? ==> |r.value.1| < |s|
    decreases |s|
  {
    if s == [] then None
    else if s[0] == '"' then
      if |s| > 1 && s[1] == '"' then
        match ReadQuoted(s[2..])
        case None => None
        case Some(p) => Some(("\"" + p.0, p.1))
      else Some(([], s[1..]))
    else
      match ReadQuoted(s[1..])
      case None => None
      case Some(p) => Some(([s[0]] + p.0, p.1))
  }

  /** Reads one or more quoted cells separated by commas
      (section 2, rules 6 and 7 of RFC 4180). */
  function DecodeCells(s: string): Option<seq<string>>
    decreases |s|
  {
    if s == [] || s[0] != '"' then None
    else
      match ReadQuoted(s[1..])
      case None => None
      case Some(p) =>
        if p.1 == [] then Some([p.0])
        else if p.1[0] != ',' then None
        else
          match DecodeCells(p.1[1..])
          case None => None
          case Some(rest) => Some([p.0] + rest)
  }

  function DecodeRow(s: string): Option<seq<string>> {
    if s == [] then Some([]) else DecodeCells(s)
  }

  lemma {:induction false} ReadQuotedOf(c: string, rest: string)
    requires rest == [] || rest[0] != '"'
    ensures ReadQuoted(DoubleQuotes(c) + "\"" + rest) == Some((c, rest))
    decreases |c|
  {
    if c == [] {
      assert DoubleQuotes(c) + "\"" + rest == "\"" + rest;
    } else {
      ReadQuotedOf(c[1..], rest);
      var tail := DoubleQuotes(c[1..]) + "\"" + rest;
      if c[0] == '"' {
        assert DoubleQuotes(c) + "\"" + rest == "\"\"" + tail;
        assert ("\"\"" + tail)[2..] == tail;
      } else {
        assert DoubleQuotes(c) + "\"" + rest == [c[0]] + tail;
        assert ([c[0]] + tail)[1..] == tail;
      }
      assert c == [c[0]] + c[1..];
    }
  }

  lemma {:induction false} DecodeQuotedCells(cells: seq<string>)
    requires cells != []
    ensures DecodeCells(Join(QuotedAll(cells), ',')) == Some(cells)
    decreases |cells|
  {
    if |cells| == 1 {
      assert Join(QuotedAll(cells), ',') == Quoted(cells[0]);
      DecodeOneQuoted(cells[0]);
      assert cells == [cells[0]];
    } else {
      var tail := Join(QuotedAll(cells[1..]), ',');
      assert QuotedAll(cells)[1..] == QuotedAll(cells[1..]);
      assert Join(QuotedAll(cells), ',') == Quoted(cells[0]) + [','] + tail;
      DecodeQuotedCells(cells[1..]);
      DecodeQuotedCons(cells[0], tail, cells[1..]);
      assert cells == [cells[0]] + cells[1..];
    }
  }

  /** A lone quoted cell reads back as that cell. */
  lemma DecodeOneQuoted(c: string)
    ensures DecodeCells(Quoted(c)) == Some([c])
  {
    var first := Quoted(c);
    ReadQuotedOf(c, []);
    assert first[0] == '"';
    assert first[1..] == DoubleQuotes(c) + "\"" + [];
  }

  /** A quoted cell, a comma and a line that reads back as `rest` read
      back as the cell followed by `rest`. */
  lemma DecodeQuotedCons(c: string, tail: string, rest: seq<string>)
    requires DecodeCells(tail) == Some(rest)
    ensures DecodeCells(Quoted(c) + [','] + tail) == Some([c] + rest)
  {
    var s := Quoted(c) + [','] + tail;
    ReadQuotedOf(c, [','] + tail);
    assert s[0] == '"';
    assert s[1..] == DoubleQuotes(c) + "\"" + ([','] + tail);
    assert ([','] + tail)[1..] == tail;
  }

  /** Decoding a data line gives back its cells: quotes inside a cell are
      doubled and the cell is wrapped in quotes, so commas and quotes in
      the text survive. */
  lemma DecodeEncodeRow(cells: seq<string>)
    ensures DecodeRow(EncodeRow(cells)) == Some(cells)
  {
    if cells != [] {
      DecodeQuotedCells(cells);
      assert Join(QuotedAll(cells), ',')[0] == '"' by {
        JoinStarts(QuotedAll(cells), ',');
      }
    }
  }

  lemma JoinStarts(parts: seq<string>, sep: char)
    requires |parts| >= 1 && parts[0] != []
    ensures Join(parts, sep) != [] && Join(parts, sep)[0] == parts[0][0]
  {
  }

  /** A table row as the export sees it. */
  datatype TableRow = TableRow(hidden: bool, cells: seq<string>)

  /** A newline replaced by a space. */
  function NoNewline(c: char): char { if c == '\n' then ' ' else c }

  /** `td.innerText.replace(/\n/g, " ").trim()`. */
  function CleanCell(t: string): (r: string)
    ensures '\n' !in r
  {
    var spaced := seq(|t|, i requires 0 <= i < |t| => NoNewline(t[i]));
    assert forall i :: 0 <= i < |spaced| ==> spaced[i] != '\n';
    var r := Trim(spaced);
    assert r == TrimEnd(TrimStart(spaced));
    assert TrimStart(spaced) == spaced[|spaced| - |TrimStart(spaced)|..];
    r
  }

  function CleanRow(cells: seq<string>): (r: seq<string>)
    ensures |r| == |cells|
    ensures forall i :: 0 <= i < |cells| ==> r[i] == CleanCell(cells[i])
  {
    seq(|cells|, i requires 0 <= i < |cells| => CleanCell(cells[i]))
  }

  /** The cleaned cells of the rows not hidden, in table order. */
  function VisibleRows(trs: seq<TableRow>): seq<seq<string>>
    decreases |trs|
  {
    if trs == [] then []
    else
      var last := trs[|trs| - 1];
      VisibleRows(trs[..|trs| - 1]) + (if last.hidden then [] else [CleanRow(last.cells)])
  }

  /** The data lines of `rows`, each followed by a newline. */
  function DataLines(rows: seq<seq<string>>): string
    decreases |rows|
  {
    if rows == [] then "" else EncodeRow(rows[0]) + "\n" + DataLines(rows[1..])
  }

  /** The exported file: the header line, then a line per row. */
  function CsvText(headers: seq<string>, rows: seq<seq<string>>): string {
    HeaderLine(headers) + "\n" + DataLines(rows)
  }

  lemma {:induction false} DataLinesSnoc(rows: seq<seq<string>>, r: seq<string>)
    ensures DataLines(rows + [r]) == DataLines(rows) + (EncodeRow(r) + "\n")
    decreases |rows|
  {
    if rows == [] {
      assert [] + [r] == [r];
    } else {
      assert (rows + [r])[1..] == rows[1..] + [r];
      DataLinesSnoc(rows[1..], r);
      AppendAssoc(EncodeRow(rows[0]) + "\n", DataLines(rows[1..]), EncodeRow(r) + "\n");
    }
  }

  /** The first half of `exportVisibleToCSV`: the cleaned cells of each
      row not hidden. */
  method CollectVisible(trs: seq<TableRow>) returns (rows: seq<seq<string>>)
    ensures rows == VisibleRows(trs)
  {
    rows := [];
    for i := 0 to |trs|
      invariant rows == VisibleRows(trs[..i])
    {
      assert trs[..i + 1][..i] == trs[..i];
      if !trs[i].hidden {
        rows := rows + [CleanRow(trs[i].cells)];
      }
    }
    assert trs[..|trs|] == trs;
  }

  /** `exportVisibleToCSV`: collects the visible rows, then writes the
      header line and a line per row. */
  method ExportVisibleToCsv(headers: seq<string>, trs: seq<TableRow>) returns (csv: string)
    ensures csv == CsvText(headers, VisibleRows(trs))
  {
    var rows := CollectVisible(trs);
    ghost var head := HeaderLine(headers) + "\n";
    csv := HeaderLine(headers) + "\n";
    assert rows[..0] == [];
    for i := 0 to |rows|
      invariant csv == head + DataLines(rows[..i])
    {
      ExportStep(head, rows, i);
      csv := csv + (EncodeRow(rows[i]) + "\n");
    }
    assert rows[..|rows|] == rows;
  }

  /** One more row appends its line to the text written so far. */
  lemma ExportStep(head: string, rows: seq<seq<string>>, i: nat)
    requires i < |rows|
    ensures head + DataLines(rows[..i]) + (EncodeRow(rows[i]) + "\n") == head + DataLines(rows[..i + 1])
  {
    assert rows[..i + 1] == rows[..i] + [rows[i]];
    DataLinesSnoc(rows[..i], rows[i]);
    AppendAssoc(head, DataLines(rows[..i]), EncodeRow(rows[i]) + "\n");
  }

  /** Every row not hidden is exported, cleaned, and every exported row is
      a row not hidden. */
  lemma {:induction false} VisibleRowsMeaning(trs: seq<TableRow>)
    ensures forall j :: 0 <= j < |trs| && !trs[j].hidden ==> CleanRow(trs[j].cells) in VisibleRows(trs)
    ensures forall r :: r in VisibleRows(trs) ==> exists j :: 0 <= j < |trs| && !trs[j].hidden && r == CleanRow(trs[j].cells)
    decreases |trs|
  {
    if trs != [] {
      var init := trs[..|trs| - 1];
      VisibleRowsMeaning(init);
      assert forall j :: 0 <= j < |init| ==> init[j] == trs[j];
    }
  }

  /** No data line holds a newline: a cell's newlines become spaces, so each
      row is one line of the file. */
  lemma EncodeRowOneLine(cells: seq<string>)
    requires forall i :: 0 <= i < |cells| ==> '\n' !in cells[i]
    ensures '\n' !in EncodeRow(cells)
  {
    if cells != [] {
      forall i | 0 <= i < |cells|
        ensures '\n' !in Quoted(cells[i])
      {
        DoubleQuotesKeeps(cells[i], '\n');
      }
      JoinKeeps(QuotedAll(cells), ',', '\n');
    }
  }

  lemma {:induction false} DoubleQuotesKeeps(s: string, c: char)
    requires c != '"' && c !in s
    ensures c !in DoubleQuotes(s)
    decreases |s|
  {
    if s != [] {
      DoubleQuotesKeeps(s[1..], c);
    }
  }

  lemma {:induction false} JoinKeeps(parts: seq<string>, sep: char, c: char)
    requires |parts| >= 1 && c != sep
    requires forall i :: 0 <= i < |parts| ==> c !in parts[i]
    ensures c !in Join(parts, sep)
    decreases |parts|
  {
    if |parts| > 1 {
      JoinKeeps(parts[1..], sep, c);
    }
  }

  /** The data lines are the encoded rows joined by newlines, with a final
      newline. */
  lemma {:induction false} LinesAreJoined(a: string, rows: seq<seq<string>>)
    ensures a + "\n" + DataLines(rows) == Join([a] + EncodedAll(rows) + [""], '\n')
    decreases |rows|
  {
    var parts := [a] + EncodedAll(rows) + [""];
    if rows == [] {
      assert parts == [a, ""];
      assert parts[1..] == [""];
    } else {
      var b := EncodeRow(rows[0]);
      var rest := [b] + EncodedAll(rows[1..]) + [""];
      LinesAreJoined(b, rows[1..]);
      assert parts == [a] + rest by {
        assert EncodedAll(rows) == [b] + EncodedAll(rows[1..]);
      }
      JoinCons(a, rest, '\n');
      assert DataLines(rows) == b + "\n" + DataLines(rows[1..]);
    }
  }

  function EncodedAll(rows: seq<seq<string>>): (r: seq<string>)
    ensures |r| == |rows|
    ensures forall i :: 0 <= i < |rows| ==> r[i] == EncodeRow(rows[i])
  {
    seq(|rows|, i requires 0 <= i < |rows| => EncodeRow(rows[i]))
  }

  /** Splitting the exported file at its newlines gives the header line,
      then one line per visible row that decodes to the row's cleaned
      cells, then nothing after the last newline. */
  lemma ExportMeaning(headers: seq<string>, trs: seq<TableRow>)
    requires forall i :: 0 <= i < |headers| ==> '\n' !in headers[i]
    ensures var rows := VisibleRows(trs);
      var lines := Split(CsvText(headers, rows), '\n');
      && |lines| == |rows| + 2
      && lines[0] == HeaderLine(headers)
      && lines[|lines| - 1] == ""
      && forall i :: 0 <= i < |rows| ==> DecodeRow(lines[i + 1]) == Some(rows[i])
  {
    var rows := VisibleRows(trs);
    VisibleRowsClean(trs);
    LinesAreJoined(HeaderLine(headers), rows);
    var parts := [HeaderLine(headers)] + EncodedAll(rows) + [""];
    if headers != [] {
      JoinKeeps(headers, ',', '\n');
    }
    forall i | 0 <= i < |parts|
      ensures '\n' !in parts[i]
    {
      if 0 < i <= |rows| {
        EncodeRowOneLine(rows[i - 1]);
      }
    }
    SplitJoin(parts, '\n');
    forall i | 0 <= i < |rows|
      ensures DecodeRow(parts[i + 1]) == Some(rows[i])
    {
      DecodeEncodeRow(rows[i]);
    }
  }

  lemma {:induction false} VisibleRowsClean(trs: seq<TableRow>)
    ensures forall i, j :: 0 <= i < |VisibleRows(trs)| && 0 <= j < |VisibleRows(trs)[i]| ==> '\n' !in VisibleRows(trs)[i][j]
    decreases |trs|
  {
    if trs != [] {
      VisibleRowsClean(trs[..|trs| - 1]);
    }
  }

  // ---------------------------------------------------------------------------
  // Client-side filtering

  /** A loaded row, with the fields the filter compares. */
  datatype TrackRow = TrackRow(kind: string, partner: string, insCo: string, dealer: string, issueDate: string)

  /** The selected page type and the filter inputs ("" when empty). */
  datatype View = View(trackType: string, from: string, to: string, partner: string, insCo: string, dealer: string)

  /** `getPartnerNameById(id)`: the same name for every id. */
  function PartnerNameById(id: string): string {
    "Sample Partner"
  }

  /** `s.filter(p)`. */
  function Keep<T>(s: seq<T>, p: T -> bool): seq<T>
    decreases |s|
  {
    if s == [] then [] else (if p(s[0]) then [s[0]] else []) + Keep(s[1..], p)
  }

  /** Whether the function applies its `k`-th criterion: the type unless
      it is "all", then partner, company, dealer, from and to when given. */
  predicate Applies(v: View, k: nat) {
    match k
    case 0 => v.trackType != "all"
    case 1 => v.partner != ""
    case 2 => v.insCo != ""
    case 3 => v.dealer != ""
    case 4 => v.from != ""
    case 5 => v.to != ""
    case _ => false
  }

  /** The `k`-th `filter` callback. */
  function Test(v: View, k: nat): TrackRow -> bool {
    match k
    case 0 => (r: TrackRow) => ToLower(r.kind) == v.trackType
    case 1 => (r: TrackRow) => r.partner == PartnerNameById(v.partner)
    case 2 => (r: TrackRow) => r.insCo == v.insCo
    case 3 => (r: TrackRow) => r.dealer == v.dealer
    case 4 => (r: TrackRow) => !Sorting.StrLess(r.issueDate, v.from)
    case 5 => (r: TrackRow) => !Sorting.StrLess(v.to, r.issueDate)
    case _ => (r: TrackRow) => true
  }

  predicate Criterion(v: View, k: nat, r: TrackRow) {
    !Applies(v, k) || Test(v, k)(r)
  }

  /** The rows that meet the first `k` criteria. */
  function Stage(v: View, k: nat): TrackRow -> bool {
    (r: TrackRow) => forall j :: 0 <= j < k ==> Criterion(v, j, r)
  }

  predicate Passes(v: View, r: TrackRow) {
    Stage(v, 6)(r)
  }

  lemma {:induction false} KeepThen<T>(s: seq<T>, p: T -> bool, q: T -> bool, pq: T -> bool)
    requires forall x :: pq(x) == (p(x) && q(x))
    ensures Keep(Keep(s, p), q) == Keep(s, pq)
    decreases |s|
  {
    if s != [] {
      KeepThen(s[1..], p, q, pq);
      KeepAppend(if p(s[0]) then [s[0]] else [], Keep(s[1..], p), q);
      assert Keep(if p(s[0]) then [s[0]] else [], q) == if pq(s[0]) then [s[0]] else [] by {
        if p(s[0]) {
          assert [s[0]][1..] == [];
        }
      }
    }
  }

  lemma {:induction false} KeepSame<T>(s: seq<T>, p: T -> bool, q: T -> bool)
    requires forall x :: p(x) == q(x)
    ensures Keep(s, p) == Keep(s, q)
    decreases |s|
  {
    if s != [] {
      KeepSame(s[1..], p, q);
    }
  }

  /** Filtering a concatenation filters each part: the kept rows keep their
      order. */
  lemma {:induction false} KeepAppend<T>(a: seq<T>, b: seq<T>, p: T -> bool)
    ensures Keep(a + b, p) == Keep(a, p) + Keep(b, p)
    decreases |a|
  {
    if a != [] {
      KeepAppend(a[1..], b, p);
      assert (a + b)[0] == a[0];
      assert (a + b)[1..] == a[1..] + b;
      var h := if p(a[0]) then [a[0]] else [];
      assert Keep(a + b, p) == h + (Keep(a[1..], p) + Keep(b, p));
      assert h + (Keep(a[1..], p) + Keep(b, p)) == (h + Keep(a[1..], p)) + Keep(b, p);
    } else {
      assert a + b == b;
    }
  }

  /** A row is kept as often as it occurs when it passes, and never
      otherwise. */
  lemma {:induction false} KeepCount<T>(s: seq<T>, p: T -> bool, x: T)
    ensures multiset(Keep(s, p))[x] == if p(x) then multiset(s)[x] else 0
    decreases |s|
  {
    if s != [] {
      KeepCount(s[1..], p, x);
      assert s == [s[0]] + s[1..];
    }
  }

  lemma {:induction false} KeepAll<T>(s: seq<T>, p: T -> bool)
    requires forall x :: p(x)
    ensures Keep(s, p) == s
    decreases |s|
  {
    if s != [] {
      KeepAll(s[1..], p);
      assert s == [s[0]] + s[1..];
    }
  }

  /** An applied step keeps, of the rows meeting the first `k` criteria,
      those passing the `k`-th callback. */
  lemma ApplyStep(s: seq<TrackRow>, v: View, k: nat)
    requires Applies(v, k)
    ensures Keep(Keep(s, Stage(v, k)), Test(v, k)) == Keep(s, Stage(v, k + 1))
  {
    forall r: TrackRow
      ensures Stage(v, k + 1)(r) == (Stage(v, k)(r) && Test(v, k)(r))
    {
      assert Criterion(v, k, r) == Test(v, k)(r);
    }
    KeepThen(s, Stage(v, k), Test(v, k), Stage(v, k + 1));
  }

  /** A skipped step keeps every row. */
  lemma SkipStep(s: seq<TrackRow>, v: View, k: nat)
    requires !Applies(v, k)
    ensures Keep(s, Stage(v, k)) == Keep(s, Stage(v, k + 1))
  {
    forall r: TrackRow
      ensures Stage(v, k)(r) == Stage(v, k + 1)(r)
    {
      assert Criterion(v, k, r);
    }
    KeepSame(s, Stage(v, k), Stage(v, k + 1));
  }

  /** One step of `applyTrackFilters`: when its input is given,
      `filtered = filtered.filter(test)`. */
  method FilterStep(rawData: seq<TrackRow>, v: View, k: nat, filtered: seq<TrackRow>) returns (out: seq<TrackRow>)
    requires filtered == Keep(rawData, Stage(v, k))
    ensures out == Keep(rawData, Stage(v, k + 1))
  {
    if Applies(v, k) {
      out := Keep(filtered, Test(v, k));
      ApplyStep(rawData, v, k);
    } else {
      out := filtered;
      SkipStep(rawData, v, k);
    }
  }

  /** The second `applyTrackFilters`: narrows a copy of the loaded rows by
      type, partner, company, dealer, from and to, in that order. */
  method ApplyTrackFilters(rawData: seq<TrackRow>, v: View) returns (filtered: seq<TrackRow>)
    ensures filtered == Keep(rawData, Stage(v, 6))
  {
    filtered := rawData;
    KeepAll(rawData, Stage(v, 0));
    filtered := FilterStep(rawData, v, 0, filtered);
    filtered := FilterStep(rawData, v, 1, filtered);
    filtered := FilterStep(rawData, v, 2, filtered);
    filtered := FilterStep(rawData, v, 3, filtered);
    filtered := FilterStep(rawData, v, 4, filtered);
    filtered := FilterStep(rawData, v, 5, filtered);
  }

  /** The shown rows are the loaded rows that meet every non-empty
      criterion, each as often as loaded, in the loaded order: the type
      compared in lower case, partner, company and dealer exactly, and the
      issue date between `from` and `to` as strings. */
  lemma FilterMeaning(rawData: seq<TrackRow>, v: View, x: TrackRow, more: seq<TrackRow>)
    ensures multiset(Keep(rawData, Stage(v, 6)))[x] == if Passes(v, x) then multiset(rawData)[x] else 0
    ensures Keep(rawData + more, Stage(v, 6)) == Keep(rawData, Stage(v, 6)) + Keep(more, Stage(v, 6))
    ensures Passes(v, x) <==>
      && (v.trackType == "all" || ToLower(x.kind) == v.trackType)
      && (v.partner == "" || x.partner == "Sample Partner")
      && (v.insCo == "" || x.insCo == v.insCo)
      && (v.dealer == "" || x.dealer == v.dealer)
      && (v.from == "" || !Sorting.StrLess(x.issueDate, v.from))
      && (v.to == "" || !Sorting.StrLess(v.to, x.issueDate))
  {
    KeepCount(rawData, Stage(v, 6), x);
    KeepAppend(rawData, more, Stage(v, 6));
    assert (Criterion(v, 0, x) && Criterion(v, 1, x) && Criterion(v, 2, x) && Criterion(v, 3, x)
            && Criterion(v, 4, x) && Criterion(v, 5, x)) ==> Passes(v, x);
  }

  /** Whatever partner is chosen, only rows of "Sample Partner" are kept. */
  lemma PartnerFilterIsSamplePartner(rawData: seq<TrackRow>, v: View, x: TrackRow)
    requires v.partner != ""
    requires x in Keep(rawData, Stage(v, 6))
    ensures x.partner == "Sample Partner"
  {
    KeepCount(rawData, Stage(v, 6), x);
    assert Criterion(v, 1, x);
  }
}
