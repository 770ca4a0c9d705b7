/**
The two printers of src/routes/logs.ts: `sanitizeContent`, which escapes client-supplied text
for HTML, and the CSV export of the system error log.
*/
module LogExport {
  import opened Common

  // ---------------------------------------------------------------- sanitizeContent

  const MAX_FIELD_LENGTH := 4096

  /** `replace(/c/g, with)` */
  function ReplaceAll(s: string, c: char, with: string): string {
    if s == "" then "" else (if s[0] == c then with else [s[0]]) + ReplaceAll(s[1..], c, with)
  }

  function FiveReplaces(s: string): string {
    ReplaceAll(
      ReplaceAll(
        ReplaceAll(ReplaceAll(ReplaceAll(s, '&', "&amp;"), '<', "&lt;"), '>', "&gt;"),
        '"', "&quot;"),
      '\'', "&#039;")
  }

  /** UTF-16 code units. */
  function UnitsOf(c: char): (n: nat)
    ensures 1 <= n <= 2
  {
    if c as int >= 0x1_0000 then 2 else 1
  }

  function Units(s: string): (n: nat)
    ensures n >= |s|
  {
    if s == "" then 0 else UnitsOf(s[0]) + Units(s[1..])
  }

  /** What half a surrogate pair becomes when the text is encoded. */
  const REPLACEMENT: char := '\U{FFFD}'

  /** `slice(0, n)`, which counts code units and may cut a pair in two. */
  function Slice(s: string, n: nat): (t: string)
    ensures Units(s) <= n ==> t == s
    ensures Units(t) <= n
  {
    if s == "" || n == 0 then ""
    else if UnitsOf(s[0]) <= n then [s[0]] + Slice(s[1..], n - UnitsOf(s[0]))
    else [REPLACEMENT]
  }

  lemma {:induction false} UnitsAdd(s: string, t: string)
    ensures Units(s + t) == Units(s) + Units(t)
  {
    if s == "" {
      assert s + t == t;
    } else {
      UnitsAdd(s[1..], t);
      assert (s + t)[1..] == s[1..] + t;
    }
  }

  lemma SliceMore(c: char, rest: string, n: nat)
    requires n > 0
    ensures Slice([c] + rest, n) == if UnitsOf(c) <= n then [c] + Slice(rest, n - UnitsOf(c)) else [REPLACEMENT]
    ensures Units([c] + rest) == UnitsOf(c) + Units(rest)
  {
    assert ([c] + rest)[1..] == rest;
  }

  /** A longer text is cut to exactly `n` units: to a front part, or to one with half a pair after it. */
  lemma {:induction false} SliceIsFront(s: string, n: nat) returns (k: nat)
    requires Units(s) > n
    ensures k < |s| && Units(Slice(s, n)) == n
    ensures Slice(s, n) == s[..k] || (Slice(s, n) == s[..k] + [REPLACEMENT] && UnitsOf(s[k]) == 2)
  {
    k := 0;
    if n > 0 {
      var c, rest := s[0], s[1..];
      assert s == [c] + rest;
      SliceMore(c, rest, n);
      if UnitsOf(c) <= n {
        var i := SliceIsFront(rest, n - UnitsOf(c));
        var cut := Slice(rest, n - UnitsOf(c));
        k := i + 1;
        assert s[..k] == [c] + rest[..i];
        assert ([c] + cut)[1..] == cut;
        Associates([c], rest[..i], [REPLACEMENT]);
      } else {
        assert Slice(s, n) == s[..0] + [REPLACEMENT] && [REPLACEMENT][1..] == "";
      }
    }
  }

  function SanitizeContent(value: Option<string>): Option<string> {
    match value
    case None => None
    case Some(s) => Some(FiveReplaces(Slice(s, MAX_FIELD_LENGTH)))
  }

  /** What becomes of one character. */
  function Entity(c: char): (e: string)
    ensures 1 <= |e| <= 6
  {
    match c
    case '&' => "&amp;"
    case '<' => "&lt;"
    case '>' => "&gt;"
    case '"' => "&quot;"
    case '\'' => "&#039;"
    case _ => [c]
  }

  function Escape(s: string): (t: string)
    ensures |s| <= |t| <= 6 * |s|
  {
    if s == "" then "" else Entity(s[0]) + Escape(s[1..])
  }

  lemma {:induction false} ReplaceDistributes(s: string, t: string, c: char, with: string)
    ensures ReplaceAll(s + t, c, with) == ReplaceAll(s, c, with) + ReplaceAll(t, c, with)
  {
    if s == "" {
      assert s + t == t;
    } else {
      var first, rest := if s[0] == c then with else [s[0]], s[1..];
      assert (s + t)[0] == s[0] && (s + t)[1..] == rest + t;
      ReplaceDistributes(rest, t, c, with);
      Associates(first, ReplaceAll(rest, c, with), ReplaceAll(t, c, with));
    }
  }

  lemma Associates(a: string, b: string, c: string)
    ensures (a + b) + c == a + (b + c)
  {
  }

  lemma FiveDistribute(s: string, t: string)
    ensures FiveReplaces(s + t) == FiveReplaces(s) + FiveReplaces(t)
  {
    var s1, t1 := ReplaceAll(s, '&', "&amp;"), ReplaceAll(t, '&', "&amp;");
    var s2, t2 := ReplaceAll(s1, '<', "&lt;"), ReplaceAll(t1, '<', "&lt;");
    var s3, t3 := ReplaceAll(s2, '>', "&gt;"), ReplaceAll(t2, '>', "&gt;");
    var s4, t4 := ReplaceAll(s3, '"', "&quot;"), ReplaceAll(t3, '"', "&quot;");
    ReplaceDistributes(s, t, '&', "&amp;");
    ReplaceDistributes(s1, t1, '<', "&lt;");
    ReplaceDistributes(s2, t2, '>', "&gt;");
    ReplaceDistributes(s3, t3, '"', "&quot;");
    ReplaceDistributes(s4, t4, '\'', "&#039;");
  }

  lemma {:induction false} ReplaceNothing(s: string, c: char, with: string)
    requires c !in s
    ensures ReplaceAll(s, c, with) == s
  {
    if s != "" {
      ReplaceNothing(s[1..], c, with);
    }
  }

  lemma ReplaceOne(c: char, d: char, with: string)
    ensures ReplaceAll([c], d, with) == if c == d then with else [c]
  {
    assert ReplaceAll([c], d, with) == (if c == d then with else [c]) + ReplaceAll("", d, with);
  }

  /** No later replace touches an entity that an earlier one wrote. */
  lemma EntityUntouched(c: char, d: char, with: string)
    requires d in "<>\"'" && |Entity(c)| > 1
    ensures ReplaceAll(Entity(c), d, with) == Entity(c)
  {
    assert d != '&' && d != 'a' && d != 'm' && d != 'p' && d != 'l' && d != 't' && d != 'g' && d != 'q' && d != 'u';
    assert d != 'o' && d != '#' && d != '0' && d != '3' && d != '9' && d != ';';
    ReplaceNothing(Entity(c), d, with);
  }

  lemma FiveReplacesOne(c: char)
    ensures FiveReplaces([c]) == Entity(c)
  {
    var s1 := ReplaceAll([c], '&', "&amp;");
    ReplaceOne(c, '&', "&amp;");
    if s1 == [c] { ReplaceOne(c, '<', "&lt;"); } else { EntityUntouched(c, '<', "&lt;"); }
    var s2 := ReplaceAll(s1, '<', "&lt;");
    if s2 == [c] { ReplaceOne(c, '>', "&gt;"); } else { EntityUntouched(c, '>', "&gt;"); }
    var s3 := ReplaceAll(s2, '>', "&gt;");
    if s3 == [c] { ReplaceOne(c, '"', "&quot;"); } else { EntityUntouched(c, '"', "&quot;"); }
    var s4 := ReplaceAll(s3, '"', "&quot;");
    if s4 == [c] { ReplaceOne(c, '\'', "&#039;"); } else { EntityUntouched(c, '\'', "&#039;"); }
  }

  /** The five replaces, one after the other, are one replacement character by character. */
  lemma {:induction false} FiveReplacesIsEscape(s: string)
    ensures FiveReplaces(s) == Escape(s)
  {
    if s != "" {
      assert s == [s[0]] + s[1..];
      FiveDistribute([s[0]], s[1..]);
      FiveReplacesOne(s[0]);
      FiveReplacesIsEscape(s[1..]);
    }
  }

  /** The inverse: read each entity as the character it stands for. */
  function Unescape(t: string): string
    decreases |t|
  {
    if t == "" then ""
    else if "&amp;" <= t then "&" + Unescape(t[5..])
    else if "&lt;" <= t then "<" + Unescape(t[4..])
    else if "&gt;" <= t then ">" + Unescape(t[4..])
    else if "&quot;" <= t then "\"" + Unescape(t[6..])
    else if "&#039;" <= t then "'" + Unescape(t[6..])
    else [t[0]] + Unescape(t[1..])
  }

  lemma UnescapeEntity(c: char, rest: string)
    ensures Unescape(Entity(c) + rest) == [c] + Unescape(rest)
  {
    var e := Entity(c);
    var t := e + rest;
    assert t[|e|..] == rest;
    assert forall k :: 0 <= k < |e| ==> t[k] == e[k];
    assert "&amp;"[1] == 'a' && "&lt;"[1] == 'l' && "&gt;"[1] == 'g' && "&quot;"[1] == 'q' && "&#039;"[1] == '#';
    match c
    case '&' =>
      assert "&amp;" <= t;
    case '<' =>
      assert "&lt;" <= t;
    case '>' =>
      assert "&gt;" <= t;
    case '"' =>
      assert "&quot;" <= t;
    case '\'' =>
      assert "&#039;" <= t;
    case _ =>
      assert t[0] == c;
  }

  lemma {:induction false} UnescapeInverts(s: string)
    ensures Unescape(Escape(s)) == s
  {
    if s != "" {
      UnescapeEntity(s[0], Escape(s[1..]));
      UnescapeInverts(s[1..]);
    }
  }

  /** No character that HTML gives a meaning is left, apart from the `&` of the entities. */
  lemma {:induction false} EscapeIsInert(s: string)
    ensures forall c :: c in Escape(s) ==> c != '<' && c != '>' && c != '"' && c != '\''
  {
    if s != "" {
      EscapeIsInert(s[1..]);
    }
  }

  lemma EntityUnits(c: char)
    ensures Units(Entity(c)) <= 6 * UnitsOf(c)
  {
    if Entity(c) == [c] {
      assert [c][1..] == "";
    } else {
      UnitsAdd(Entity(c)[..3], Entity(c)[3..]);
      assert Entity(c) == Entity(c)[..3] + Entity(c)[3..];
      AsciiUnits(Entity(c));
    }
  }

  lemma {:induction false} AsciiUnits(s: string)
    requires forall i :: 0 <= i < |s| ==> s[i] < '\U{80}'
    ensures Units(s) == |s|
  {
    if s != "" {
      AsciiUnits(s[1..]);
    }
  }

  lemma {:induction false} EscapeUnits(s: string)
    ensures Units(Escape(s)) <= 6 * Units(s)
  {
    if s != "" {
      EntityUnits(s[0]);
      EscapeUnits(s[1..]);
      UnitsAdd(Entity(s[0]), Escape(s[1..]));
    }
  }

  /**
  Sanitised content loses nothing but what lies beyond the first 4096 code units, contains no
  markup character, and is at most six times as long.
  */
  lemma SanitizedContent(s: string)
    ensures SanitizeContent(Some(s)).Some?
    ensures var t := SanitizeContent(Some(s)).value;
            && Unescape(t) == Slice(s, 4096)
            && (Units(s) <= 4096 ==> Unescape(t) == s)
            && Units(t) <= 6 * 4096
            && forall c :: c in t ==> c != '<' && c != '>' && c != '"' && c != '\''
  {
    var cut := Slice(s, MAX_FIELD_LENGTH);
    FiveReplacesIsEscape(cut);
    UnescapeInverts(cut);
    EscapeIsInert(cut);
    EscapeUnits(cut);
  }

  // ---------------------------------------------------------------- CSV

  /** A row of the export; a missing value is NULL. */
  datatype Log = Log(
    id: Option<string>,
    message: Option<string>,
    moduleName: Option<string>,
    severity: Option<string>,
    timestamp: Option<string>,
    url: Option<string>,
    userAgent: Option<string>,
    requestData: Option<string>)

  const HEADERS: seq<string> := ["ID", "Message", "Module", "Severity", "Timestamp", "URL", "UserAgent", "RequestData"]

  predicate StartsFormula(s: string) {
    s != "" && s[0] in "=+-@\t\r"
  }

  /** The text of a cell, with a quote before what a spreadsheet would evaluate. */
  function Neutralised(val: Option<string>): (s: string)
    ensures !StartsFormula(s)
  {
    match val
    case None => ""
    case Some(s) => if StartsFormula(s) then "'" + s else s
  }

  predicate NeedsQuotes(s: string) {
    ',' in s || '"' in s || '\n' in s
  }

  /** `replace(/"/g, '""')` between quotes, where the text needs them. */
  function Quoted(s: string): string {
    if NeedsQuotes(s) then "\"" + ReplaceAll(s, '"', "\"\"") + "\"" else s
  }

  /** A cell is printed as it is exactly when it has no comma, no quote and no newline. */
  lemma PrintedPlainIff(s: string)
    ensures Quoted(s) == s <==> forall i :: 0 <= i < |s| ==> s[i] != ',' && s[i] != '"' && s[i] != '\n'
  {
    if NeedsQuotes(s) {
      DoubledIsLonger(s);
      assert |Quoted(s)| > |s|;
      var c :| c in s && (c == ',' || c == '"' || c == '\n');
    }
  }

  lemma {:induction false} DoubledIsLonger(s: string)
    ensures |ReplaceAll(s, '"', "\"\"")| >= |s|
  {
    if s != "" {
      DoubledIsLonger(s[1..]);
    }
  }

  method EscapeCsv(val: Option<string>) returns (cell: string)
    ensures cell == Quoted(Neutralised(val))
  {
    if val.None? {
      return "";
    }
    var str := val.value;
    if StartsFormula(str) {
      str := "'" + str;
    }
    if ',' in str || '"' in str || '\n' in str {
      return "\"" + ReplaceAll(str, '"', "\"\"") + "\"";
    }
    return str;
  }

  function Join(parts: seq<string>, sep: string): string {
    if parts == [] then "" else if |parts| == 1 then parts[0] else parts[0] + sep + Join(parts[1..], sep)
  }

  /** The printed record. */
  function Line(cells: seq<string>): string {
    if cells == [] then "" else if |cells| == 1 then Quoted(cells[0]) else Quoted(cells[0]) + "," + Line(cells[1..])
  }

  lemma {:induction false} PrintedIsLine(printed: seq<string>, cells: seq<string>)
    requires |printed| == |cells| && forall i :: 0 <= i < |cells| ==> printed[i] == Quoted(cells[i])
    ensures Join(printed, ",") == Line(cells)
  {
    if |cells| > 1 {
      PrintedIsLine(printed[1..], cells[1..]);
    }
  }

  function Cells(l: Log): (cells: seq<string>)
    ensures |cells| == 8
  {
    [Neutralised(l.id), Neutralised(l.message), Neutralised(l.moduleName), Neutralised(l.severity),
     Neutralised(l.timestamp), Neutralised(l.url), Neutralised(l.userAgent), Neutralised(l.requestData)]
  }

  /** The exported table: the header row, then the neutralised fields of every log row. */
  function Table(headers: seq<string>, logs: seq<Log>): (rows: seq<seq<string>>) {
    if logs == [] then [headers] else Table(headers, logs[..|logs| - 1]) + [Cells(logs[|logs| - 1])]
  }

  // A reader of such text: records end with a line feed, a carriage return is data.

  /** Inside quotes: the text up to the closing quote, and what follows it. */
  function ReadQuoted(s: string): (r: (string, string))
    ensures |r.1| <= |s|
  {
    if s == "" then ("", "")
    else if s[0] != '"' then
      var (text, rest) := ReadQuoted(s[1..]);
      ([s[0]] + text, rest)
    else if |s| > 1 && s[1] == '"' then
      var (text, rest) := ReadQuoted(s[2..]);
      ("\"" + text, rest)
    else ("", s[1..])
  }

  function ReadPlain(s: string): (r: (string, string))
    ensures |r.1| <= |s|
    ensures r.1 == "" || r.1[0] == ',' || r.1[0] == '\n'
  {
    if s == "" || s[0] == ',' || s[0] == '\n' then ("", s)
    else
      var (text, rest) := ReadPlain(s[1..]);
      ([s[0]] + text, rest)
  }

  function ReadCell(s: string): (r: (string, string))
    ensures |r.1| <= |s|
  {
    if s != "" && s[0] == '"' then ReadQuoted(s[1..]) else ReadPlain(s)
  }

  function ReadRecord(s: string): (r: (seq<string>, string))
    ensures |r.1| <= |s|
    decreases |s|
  {
    var (cell, rest) := ReadCell(s);
    if rest != "" && rest[0] == ',' then
      var (cells, rest') := ReadRecord(rest[1..]);
      ([cell] + cells, rest')
    else ([cell], rest)
  }

  function ReadTable(s: string): seq<seq<string>>
    decreases |s|
  {
    var (record, rest) := ReadRecord(s);
    if rest != "" && rest[0] == '\n' then [record] + ReadTable(rest[1..]) else [record]
  }

  predicate EndsCell(rest: string) {
    rest == "" || rest[0] == ',' || rest[0] == '\n'
  }

  lemma {:induction false} ReadBackQuoted(s: string, rest: string)
    requires EndsCell(rest)
    ensures ReadQuoted(ReplaceAll(s, '"', "\"\"") + "\"" + rest) == (s, rest)
  {
    var t := ReplaceAll(s, '"', "\"\"") + "\"" + rest;
    if s == "" {
      assert t == "\"" + rest;
      assert t[1..] == rest;
    } else {
      var t' := ReplaceAll(s[1..], '"', "\"\"") + "\"" + rest;
      ReadBackQuoted(s[1..], rest);
      assert s == [s[0]] + s[1..];
      if s[0] == '"' {
        assert t == "\"\"" + t';
        assert t[2..] == t';
      } else {
        assert t == [s[0]] + t';
        assert t[1..] == t';
      }
    }
  }

  lemma {:induction false} ReadBackPlain(s: string, rest: string)
    requires !NeedsQuotes(s) && EndsCell(rest)
    ensures ReadPlain(s + rest) == (s, rest)
  {
    if s == "" {
      assert s + rest == rest;
    } else {
      assert s[0] in s && s == [s[0]] + s[1..];
      ReadBackPlain(s[1..], rest);
      assert (s + rest)[1..] == s[1..] + rest;
    }
  }

  lemma OpeningQuote(inner: string, rest: string)
    ensures ReadCell("\"" + inner + "\"" + rest) == ReadQuoted(inner + "\"" + rest)
  {
    var t := "\"" + inner + "\"" + rest;
    assert t[0] == '"' && t[1..] == inner + "\"" + rest;
  }

  lemma NoOpeningQuote(s: string, rest: string)
    requires !NeedsQuotes(s) && EndsCell(rest)
    ensures ReadCell(s + rest) == ReadPlain(s + rest)
  {
    if s == "" {
      assert s + rest == rest;
    } else {
      assert (s + rest)[0] == s[0] && s[0] in s;
    }
  }

  /** A printed cell reads back as the text it was printed from. */
  lemma ReadBackCell(s: string, rest: string)
    requires EndsCell(rest)
    ensures ReadCell(Quoted(s) + rest) == (s, rest)
  {
    if NeedsQuotes(s) {
      OpeningQuote(ReplaceAll(s, '"', "\"\""), rest);
      ReadBackQuoted(s, rest);
    } else {
      NoOpeningQuote(s, rest);
      ReadBackPlain(s, rest);
    }
  }

  lemma {:induction false} ReadBackRecord(cells: seq<string>, rest: string)
    requires cells != [] && (rest == "" || rest[0] == '\n')
    ensures ReadRecord(Line(cells) + rest) == (cells, rest)
  {
    if |cells| == 1 {
      ReadBackCell(cells[0], rest);
      assert cells == [cells[0]];
    } else {
      var rest' := "," + (Line(cells[1..]) + rest);
      assert cells == [cells[0]] + cells[1..];
      assert Line(cells) + rest == Quoted(cells[0]) + rest';
      ReadBackCell(cells[0], rest');
      assert rest'[1..] == Line(cells[1..]) + rest;
      ReadBackRecord(cells[1..], rest);
    }
  }

  function Lines(rows: seq<seq<string>>): (lines: seq<string>)
    ensures |lines| == |rows|
  {
    if rows == [] then [] else [Line(rows[0])] + Lines(rows[1..])
  }

  /** A printed table reads back as the same table. */
  lemma {:induction false} ReadBackTable(rows: seq<seq<string>>)
    requires rows != [] && forall i :: 0 <= i < |rows| ==> rows[i] != []
    ensures ReadTable(Join(Lines(rows), "\n")) == rows
  {
    var lines := Lines(rows);
    if |rows| == 1 {
      ReadBackRecord(rows[0], "");
      assert Line(rows[0]) + "" == Line(rows[0]);
      assert rows == [rows[0]];
    } else {
      var tail := Join(Lines(rows[1..]), "\n");
      assert lines[1..] == Lines(rows[1..]);
      assert Join(lines, "\n") == Line(rows[0]) + ("\n" + tail);
      ReadBackRecord(rows[0], "\n" + tail);
      assert ("\n" + tail)[1..] == tail;
      ReadBackTable(rows[1..]);
    }
  }

  lemma {:induction false} LinesAppend(rows: seq<seq<string>>, row: seq<string>)
    ensures Lines(rows + [row]) == Lines(rows) + [Line(row)]
  {
    if rows == [] {
      assert [] + [row] == [row];
      assert Lines([row][1..]) == [];
    } else {
      LinesAppend(rows[1..], row);
      assert (rows + [row])[1..] == rows[1..] + [row];
    }
  }

  lemma {:induction false} TableShape(headers: seq<string>, logs: seq<Log>)
    ensures |Table(headers, logs)| == |logs| + 1 && Table(headers, logs)[0] == headers
    ensures forall i :: 0 <= i < |logs| ==> Table(headers, logs)[i + 1] == Cells(logs[i])
    ensures headers != [] ==> forall i :: 0 <= i < |Table(headers, logs)| ==> Table(headers, logs)[i] != []
  {
    if logs != [] {
      TableShape(headers, logs[..|logs| - 1]);
    }
  }

  lemma LettersNeedNoQuotes(s: string)
    requires forall i :: 0 <= i < |s| ==> 'A' <= s[i] <= 'z'
    ensures !NeedsQuotes(s)
  {
    assert ',' < 'A' && '"' < 'A' && '\n' < 'A';
  }

  lemma HeaderPlain(i: nat)
    requires i < 8
    ensures !NeedsQuotes(HEADERS[i])
  {
    LettersNeedNoQuotes(HEADERS[i]);
  }

  lemma HeaderLine()
    ensures Join(HEADERS, ",") == Line(HEADERS)
  {
    forall i | 0 <= i < 8
      ensures !NeedsQuotes(HEADERS[i])
    {
      HeaderPlain(i);
    }
    PrintedIsLine(HEADERS, HEADERS);
  }

  /** One exported row. */
  method RowLine(log: Log) returns (line: string)
    ensures line == Line(Cells(log))
  {
    var id := EscapeCsv(log.id);
    var message := EscapeCsv(log.message);
    var moduleName := EscapeCsv(log.moduleName);
    var severity := EscapeCsv(log.severity);
    var timestamp := EscapeCsv(log.timestamp);
    var url := EscapeCsv(log.url);
    var userAgent := EscapeCsv(log.userAgent);
    var requestData := EscapeCsv(log.requestData);
    var cells := [id, message, moduleName, severity, timestamp, url, userAgent, requestData];
    PrintedIsLine(cells, Cells(log));
    line := Join(cells, ",");
  }

  lemma FirstLine(headers: seq<string>)
    ensures Lines(Table(headers, [])) == [Line(headers)]
  {
    assert [headers][1..] == [];
    assert Lines([headers]) == [Line(headers)] + Lines([]);
  }

  lemma NextLine(headers: seq<string>, logs: seq<Log>, log: Log)
    ensures Lines(Table(headers, logs + [log])) == Lines(Table(headers, logs)) + [Line(Cells(log))]
  {
    assert (logs + [log])[..|logs|] == logs;
    LinesAppend(Table(headers, logs), Cells(log));
  }

  /** The lines of the file: the header, then one line for each row. */
  method CsvLines(headers: seq<string>, logs: seq<Log>) returns (csv: seq<string>)
    requires Join(headers, ",") == Line(headers)
    ensures csv == Lines(Table(headers, logs))
  {
    csv := [Join(headers, ",")];
    FirstLine(headers);
    for n := 0 to |logs|
      invariant csv == Lines(Table(headers, logs[..n]))
    {
      var line := RowLine(logs[n]);
      csv := csv + [line];
      NextLine(headers, logs[..n], logs[n]);
      assert logs[..n + 1] == logs[..n] + [logs[n]];
    }
    assert logs[..|logs|] == logs;
  }

  lemma ReadBackExport(headers: seq<string>, logs: seq<Log>)
    requires headers != []
    ensures ReadTable(Join(Lines(Table(headers, logs)), "\n")) == Table(headers, logs)
  {
    TableShape(headers, logs);
    ReadBackTable(Table(headers, logs));
  }

  /**
  The export: a CSV reader recovers from the text the header and, row by row, exactly the
  neutralised fields.
  */
  method Export(logs: seq<Log>) returns (text: string)
    ensures ReadTable(text) == Table(HEADERS, logs)
  {
    HeaderLine();
    var csv := CsvLines(HEADERS, logs);
    text := Join(csv, "\n");
    ReadBackExport(HEADERS, logs);
  }

  /** What a column is for, by its header. */
  function Column(l: Log, header: string): Option<string> {
    if header == "ID" then l.id
    else if header == "Message" then l.message
    else if header == "Module" then l.moduleName
    else if header == "Severity" then l.severity
    else if header == "Timestamp" then l.timestamp
    else if header == "URL" then l.url
    else if header == "UserAgent" then l.userAgent
    else if header == "RequestData" then l.requestData
    else None
  }

  /** Every cell stands under the header of its field. */
  lemma CellsUnderHeaders(logs: seq<Log>, i: nat, j: nat)
    requires i < |logs| && j < |HEADERS|
    ensures |Table(HEADERS, logs)| == |logs| + 1 && Table(HEADERS, logs)[0] == HEADERS
    ensures |Table(HEADERS, logs)[i + 1]| == |HEADERS|
    ensures Table(HEADERS, logs)[i + 1][j] == Neutralised(Column(logs[i], HEADERS[j]))
  {
    TableShape(HEADERS, logs);
    CellIs(logs[i], j);
  }

  lemma CellIs(l: Log, j: nat)
    requires j < 8
    ensures Cells(l)[j] == Neutralised(Column(l, HEADERS[j]))
  {
    var h := HEADERS[j];
    assert |"ID"| == 2 && |"Message"| == 7 && |"Module"| == 6 && |"Severity"| == 8 && |"Timestamp"| == 9 && |"URL"| == 3
           && |"UserAgent"| == 9 && |"RequestData"| == 11;
    assert "Timestamp"[0] != "UserAgent"[0];
  }

  /** No exported cell of any row begins with a character that a spreadsheet evaluates. */
  lemma NoFormulas(headers: seq<string>, logs: seq<Log>, i: nat, j: nat)
    requires i < |logs| && j < 8
    ensures |Table(headers, logs)| == |logs| + 1 && |Table(headers, logs)[i + 1]| == 8
    ensures var cell := Table(headers, logs)[i + 1][j];
            cell == "" || cell[0] !in {'=', '+', '-', '@', '\t', '\r'}
  {
    TableShape(headers, logs);
    assert Table(headers, logs)[i + 1] == Cells(logs[i]);
    assert !StartsFormula(Cells(logs[i])[j]);
    InFormula(Cells(logs[i])[j]);
  }

  lemma InFormula(s: string)
    ensures StartsFormula(s) <==> s != "" && s[0] in {'=', '+', '-', '@', '\t', '\r'}
  {
    var marks := "=+-@\t\r";
    assert marks[0] == '=' && marks[1] == '+' && marks[2] == '-' && marks[3] == '@' && marks[4] == '\t' && marks[5] == '\r';
  }

  /** One is a formula, and the other is the same text after a quote. */
  predicate FormulaAndQuoted(a: Option<string>, b: Option<string>) {
    a.Some? && b.Some? && StartsFormula(a.value) && b.value == "'" + a.value
  }

  /** Two values print alike exactly when they are the same, a missing and an empty one, or a formula and its quoted form. */
  lemma NeutralisedAlikeIff(a: Option<string>, b: Option<string>)
    ensures Neutralised(a) == Neutralised(b)
            <==> || a == b
                 || (a.None? && b == Some("")) || (b.None? && a == Some(""))
                 || FormulaAndQuoted(a, b) || FormulaAndQuoted(b, a)
  {
    if a.Some? && b.Some? && StartsFormula(a.value) && StartsFormula(b.value) && Neutralised(a) == Neutralised(b) {
      assert ("'" + a.value)[1..] == a.value && ("'" + b.value)[1..] == b.value;
    }
  }
}
