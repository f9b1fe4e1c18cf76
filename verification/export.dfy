/**
 * The export buttons: the list shown (after the search filter) as a text
 * file of urls, one per line, or as a CSV file with a header line and one
 * line per embed. The CSV escaping is paired with a quote-aware reader; the
 * text export is paired with splitting on line breaks.
 */
module Export {
  import opened Wrappers
  import opened Text
  import opened EmbedStore

  // ---------------------------------------------------------------------
  // Numbers as text.

  predicate IsDigit(c: char) {
    '0' <= c <= '9'
  }

  function DigitChar(d: nat): (c: char)
    requires d < 10
    ensures IsDigit(c) && c as int - '0' as int == d
  {
    ['0', '1', '2', '3', '4', '5', '6', '7', '8', '9'][d]
  }

  /** The decimal digits of `n`, without leading zeros. */
  function NatToString(n: nat): (s: string)
    ensures |s| >= 1 && (forall i | 0 <= i < |s| :: IsDigit(s[i]))
    ensures |s| > 1 ==> s[0] != '0'
    decreases n
  {
    if n < 10 then [DigitChar(n)]
    else
      var p := NatToString(n / 10);
      p + [DigitChar(n % 10)]
  }

  /** `String(n)` for an integer id: its decimal digits, after a '-' when negative. */
  function IntToString(n: int): (s: string)
    ensures forall i | 0 <= i < |s| :: IsDigit(s[i]) || s[i] == '-'
    ensures s != []
  {
    if n < 0 then "-" + NatToString(-n) else NatToString(n)
  }

  /** The value of a string of decimal digits. */
  function DigitsValue(s: string): (n: nat)
    requires forall i | 0 <= i < |s| :: IsDigit(s[i])
    decreases |s|
  {
    if |s| == 0 then 0
    else
      var d := s[|s| - 1] as int - '0' as int;
      assert IsDigit(s[|s| - 1]);
      DigitsValue(s[..|s| - 1]) * 10 + d
  }

  /** Reading an id back from its text. */
  function ParseInt(s: string): (n: int)
    requires forall i | 0 <= i < |s| :: IsDigit(s[i]) || s[i] == '-'
    requires forall i | 1 <= i < |s| :: IsDigit(s[i])
  {
    if |s| > 0 && s[0] == '-' then 0 - DigitsValue(s[1..]) else DigitsValue(s)
  }

  /** Writing an id and reading it back gives the id. */
  lemma {:induction false} NatToStringRoundTrip(n: nat)
    ensures DigitsValue(NatToString(n)) == n
    decreases n
  {
    if n >= 10 {
      NatToStringRoundTrip(n / 10);
      var s := NatToString(n);
      assert s[..|s| - 1] == NatToString(n / 10);
    }
  }

  lemma IntToStringRoundTrip(n: int)
    ensures var s := IntToString(n);
            (forall i | 1 <= i < |s| :: IsDigit(s[i])) && ParseInt(s) == n
  {
    if n < 0 {
      NegativeRoundTrip(n);
    } else {
      NatToStringRoundTrip(n);
      assert IntToString(n)[0] != '-';
    }
  }

  lemma NegativeRoundTrip(n: int)
    requires n < 0
    ensures var s := IntToString(n);
            (forall i | 1 <= i < |s| :: IsDigit(s[i])) && ParseInt(s) == n
  {
    var m: nat := -n;
    var d := NatToString(m);
    assert IntToString(n) == "-" + d;
    DashThenDigits(d);
    NatToStringRoundTrip(m);
    ParseNegative(d);
  }

  lemma ParseNegative(d: string)
    requires forall i | 0 <= i < |d| :: IsDigit(d[i])
    ensures ParseInt("-" + d) == 0 - DigitsValue(d)
  {
    DashThenDigits(d);
  }

  lemma DashThenDigits(d: string)
    requires forall i | 0 <= i < |d| :: IsDigit(d[i])
    ensures var s := "-" + d;
            (forall i | 1 <= i < |s| :: IsDigit(s[i])) && s[0] == '-' && s[1..] == d
  {
    var s := "-" + d;
    assert forall i | 1 <= i < |s| :: s[i] == d[i - 1];
  }

  // ---------------------------------------------------------------------
  // Escaping.

  /** A value `escapeCSV` wraps in quotes: it contains a comma, a line feed or a double quote. */
  predicate NeedsQuotes(v: string) {
    ',' in v || '\n' in v || '"' in v
  }

  /** `v.replace(/"/g, '""')`: every double quote doubled. */
  function DoubleQuotes(v: string): (r: string)
    ensures '"' !in v ==> r == v
    ensures |r| >= |v|
    decreases |v|
  {
    if |v| == 0 then ""
    else (if v[0] == '"' then "\"\"" else [v[0]]) + DoubleQuotes(v[1..])
  }

  /**
   * `escapeCSV` on a string: quoted, with quotes doubled, when it contains a
   * comma, a line feed or a double quote; otherwise as it is.
   */
  function Escape(v: string): (r: string)
    ensures !NeedsQuotes(v) ==> r == v
    ensures NeedsQuotes(v) ==> |r| >= |v| + 2 && r[0] == '"' && r[|r| - 1] == '"'
  {
    if NeedsQuotes(v) then "\"" + DoubleQuotes(v) + "\"" else v
  }

  /** `escapeCSV` on a value that may be undefined: undefined becomes "". */
  function EscapeCsv(v: Option<string>): (r: string)
    ensures v.None? ==> r == ""
    ensures v.Some? ==> r == Escape(v.value)
  {
    match v
    case None => ""
    case Some(s) => Escape(s)
  }

  // ---------------------------------------------------------------------
  // The documents.

  /** The column names. */
  const Columns: seq<string> := ["id", "url", "title", "description", "imageUrl", "date"]

  /**
   * The values one embed contributes, column by column: the id's digits;
   * the url; title, description and image url with undefined or "" read as "";
   * the date, undefined read as "".
   */
  function Values(e: Embed): (r: seq<string>)
    ensures |r| == |Columns|
    ensures r[0] == IntToString(e.id) && r[1] == e.url
  {
    [IntToString(e.id), e.url, OrEmpty(e.title), OrEmpty(e.description), OrEmpty(e.imageUrl), e.date.GetOr("")]
  }

  /** A line of the CSV file: the id as it is, the other values escaped, joined with commas. */
  function CsvRow(e: Embed): string {
    Join([IntToString(e.id), EscapeCsv(Some(e.url)), EscapeCsv(Some(OrEmpty(e.title))),
          EscapeCsv(Some(OrEmpty(e.description))), EscapeCsv(Some(OrEmpty(e.imageUrl))), EscapeCsv(e.date)], ",")
  }

  function MapEscape(vs: seq<string>): (r: seq<string>)
    ensures |r| == |vs| && forall i | 0 <= i < |vs| :: r[i] == Escape(vs[i])
  {
    seq(|vs|, i requires 0 <= i < |vs| => Escape(vs[i]))
  }

  /** The header line, then one line per embed. */
  function CsvLines(xs: seq<Embed>): (r: seq<string>)
    ensures |r| == |xs| + 1 && r[0] == Join(Columns, ",")
    ensures forall i | 0 <= i < |xs| :: r[i + 1] == CsvRow(xs[i])
  {
    var h := Join(Columns, ",");
    var rows := CsvRows(xs);
    assert ([h] + rows)[0] == h;
    assert forall i | 0 <= i < |xs| :: ([h] + rows)[i + 1] == rows[i];
    [h] + rows
  }

  /** One CSV line per embed, in order. */
  function CsvRows(xs: seq<Embed>): (r: seq<string>)
    ensures |r| == |xs| && forall i | 0 <= i < |xs| :: r[i] == CsvRow(xs[i])
    decreases |xs|
  {
    if |xs| == 0 then [] else [CsvRow(xs[0])] + CsvRows(xs[1..])
  }

  /** The CSV file: its lines joined with line feeds. */
  function CsvDocument(xs: seq<Embed>): (r: string) {
    Join(CsvLines(xs), "\n")
  }

  /** The text file: the urls, joined with line feeds. */
  function TxtDocument(xs: seq<Embed>): (r: string) {
    Join(seq(|xs|, i requires 0 <= i < |xs| => xs[i].url), "\n")
  }

  /**
   * The name of the file offered for download: "urls_salvas", with
   * "_filtradas" added while a search term is set, and the extension.
   */
  function FileName(term: string, extension: string): (r: string)
    ensures term == "" ==> r == "urls_salvas." + extension
    ensures term != "" ==> r == "urls_salvas_filtradas." + extension
  {
    (if term != "" then "urls_salvas_filtradas" else "urls_salvas") + "." + extension
  }

  // ---------------------------------------------------------------------
  // Reading the CSV file back.

  /** An unquoted field: everything up to the next comma or line feed; and what follows. */
  function ReadPlain(s: string): (r: (string, string))
    ensures r.0 + r.1 == s
    ensures r.1 == [] || r.1[0] == ',' || r.1[0] == '\n'
    decreases |s|
  {
    if |s| == 0 then ("", "")
    else if s[0] == ',' || s[0] == '\n' then ("", s)
    else
      var p := ReadPlain(s[1..]);
      PrependFirst(s, p.0, p.1);
      ([s[0]] + p.0, p.1)
  }

  lemma PrependFirst(s: string, a: string, b: string)
    requires |s| > 0 && a + b == s[1..]
    ensures ([s[0]] + a) + b == s
  {
    assert ([s[0]] + a) + b == [s[0]] + (a + b);
  }

  /**
   * The inside of a quoted field, after its opening quote: up to the first
   * quote not doubled, a doubled quote read as one; None when the closing
   * quote is missing.
   */
  function ReadQuoted(s: string): (r: Option<(string, string)>)
    ensures r.Some? ==> |r.value.1| < |s|
    decreases |s|
  {
    if |s| == 0 then None
    else if s[0] == '"' then
      if |s| >= 2 && s[1] == '"' then
        match ReadQuoted(s[2..])
        case Some((v, rest)) => Some(("\"" + v, rest))
        case None => None
      else Some(("", s[1..]))
    else
      match ReadQuoted(s[1..])
      case Some((v, rest)) => Some(([s[0]] + v, rest))
      case None => None
  }

  /** One field, quoted or not, and what follows it. */
  function ReadField(s: string): (r: Option<(string, string)>)
    ensures r.Some? ==> |r.value.1| <= |s|
  {
    if |s| > 0 && s[0] == '"' then ReadQuoted(s[1..]) else Some(ReadPlain(s))
  }

  /** The fields of one line, and what follows the line (from its line feed on). */
  function ReadRecord(s: string): (r: Option<(seq<string>, string)>)
    ensures r.Some? ==> |r.value.1| <= |s|
    decreases |s|
  {
    match ReadField(s)
    case None => None
    case Some((v, rest)) =>
      if |rest| > 0 && rest[0] == ',' then
        match ReadRecord(rest[1..])
        case Some((vs, after)) => Some(([v] + vs, after))
        case None => None
      else Some(([v], rest))
  }

  /** All lines of a CSV text. */
  function ReadTable(s: string): (r: Option<seq<seq<string>>>)
    decreases |s|
  {
    match ReadRecord(s)
    case None => None
    case Some((rec, rest)) =>
      if |rest| > 0 && rest[0] == '\n' then
        match ReadTable(rest[1..])
        case Some(recs) => Some([rec] + recs)
        case None => None
      else Some([rec])
  }

  /** What may follow a field: nothing, or a separator. */
  predicate Boundary(rest: string) {
    rest == [] || rest[0] == ',' || rest[0] == '\n'
  }

  lemma {:induction false} ReadPlainExact(v: string, rest: string)
    requires ',' !in v && '\n' !in v
    requires Boundary(rest)
    ensures ReadPlain(v + rest) == (v, rest)
    decreases |v|
  {
    if |v| == 0 {
      assert v + rest == rest;
    } else {
      assert (v + rest)[1..] == v[1..] + rest;
      ReadPlainExact(v[1..], rest);
      assert [v[0]] + v[1..] == v;
    }
  }

  lemma {:induction false} ReadQuotedExact(v: string, rest: string)
    requires Boundary(rest)
    ensures ReadQuoted(DoubleQuotes(v) + "\"" + rest) == Some((v, rest))
    decreases |v|
  {
    if |v| == 0 {
      ClosingQuote(rest);
    } else {
      ReadQuotedExact(v[1..], rest);
      if v[0] == '"' {
        DoubledQuote(v, rest);
      } else {
        OtherChar(v, rest);
      }
    }
  }

  lemma ClosingQuote(rest: string)
    requires Boundary(rest)
    ensures ReadQuoted(DoubleQuotes("") + "\"" + rest) == Some(("", rest))
  {
    var s := DoubleQuotes("") + "\"" + rest;
    assert s == "\"" + rest;
    assert s[1..] == rest;
  }

  /** A doubled quote inside a quoted field reads as one quote. */
  lemma DoubledQuote(v: string, rest: string)
    requires |v| > 0 && v[0] == '"'
    requires ReadQuoted(DoubleQuotes(v[1..]) + "\"" + rest) == Some((v[1..], rest))
    ensures ReadQuoted(DoubleQuotes(v) + "\"" + rest) == Some((v, rest))
  {
    var d := DoubleQuotes(v[1..]);
    var t := d + "\"" + rest;
    assert DoubleQuotes(v) == "\"\"" + d;
    assert DoubleQuotes(v) + "\"" + rest == "\"\"" + t;
    assert ("\"\"" + t)[2..] == t;
    assert "\"" + v[1..] == v;
  }

  /** Any other character inside a quoted field reads as itself. */
  lemma OtherChar(v: string, rest: string)
    requires |v| > 0 && v[0] != '"'
    requires ReadQuoted(DoubleQuotes(v[1..]) + "\"" + rest) == Some((v[1..], rest))
    ensures ReadQuoted(DoubleQuotes(v) + "\"" + rest) == Some((v, rest))
  {
    var d := DoubleQuotes(v[1..]);
    var t := d + "\"" + rest;
    assert DoubleQuotes(v) == [v[0]] + d;
    assert DoubleQuotes(v) + "\"" + rest == [v[0]] + t;
    assert ([v[0]] + t)[1..] == t;
    assert [v[0]] + v[1..] == v;
  }

  /** An escaped value followed by a separator (or nothing) reads back as the value. */
  lemma FieldRoundTrip(v: string, rest: string)
    requires Boundary(rest)
    ensures ReadField(Escape(v) + rest) == Some((v, rest))
  {
    if NeedsQuotes(v) {
      QuotedFieldRoundTrip(v, rest);
    } else {
      PlainFieldRoundTrip(v, rest);
    }
  }

  lemma QuotedFieldRoundTrip(v: string, rest: string)
    requires Boundary(rest) && NeedsQuotes(v)
    ensures ReadField(Escape(v) + rest) == Some((v, rest))
  {
    var inner := DoubleQuotes(v) + "\"" + rest;
    EscapedThenRest(v, rest);
    ReadFieldQuoted(inner);
    ReadQuotedExact(v, rest);
  }

  lemma EscapedThenRest(v: string, rest: string)
    requires NeedsQuotes(v)
    ensures Escape(v) + rest == "\"" + (DoubleQuotes(v) + "\"" + rest)
  {
  }

  lemma ReadFieldQuoted(inner: string)
    ensures ReadField("\"" + inner) == ReadQuoted(inner)
  {
    assert ("\"" + inner)[1..] == inner;
  }

  lemma PlainFieldRoundTrip(v: string, rest: string)
    requires Boundary(rest) && !NeedsQuotes(v)
    ensures ReadField(Escape(v) + rest) == Some((v, rest))
  {
    ReadPlainExact(v, rest);
    var s := v + rest;
    assert |s| > 0 ==> s[0] != '"' by {
      if |v| > 0 {
        assert s[0] == v[0] && v[0] in v;
      } else {
        assert s == rest;
      }
    }
  }

  /** A line of escaped values, joined with commas, reads back as the values. */
  lemma {:induction false} RecordRoundTrip(vs: seq<string>, rest: string)
    requires |vs| >= 1
    requires rest == [] || rest[0] == '\n'
    ensures ReadRecord(Join(MapEscape(vs), ",") + rest) == Some((vs, rest))
    decreases |vs|
  {
    if |vs| == 1 {
      LastFieldRoundTrip(vs, rest);
    } else {
      RecordRoundTrip(vs[1..], rest);
      NextFieldRoundTrip(vs, rest);
    }
  }

  lemma LastFieldRoundTrip(vs: seq<string>, rest: string)
    requires |vs| == 1
    requires rest == [] || rest[0] == '\n'
    ensures ReadRecord(Join(MapEscape(vs), ",") + rest) == Some((vs, rest))
  {
    assert Join(MapEscape(vs), ",") == Escape(vs[0]);
    FieldRoundTrip(vs[0], rest);
    ReadRecordLast(Escape(vs[0]) + rest, vs[0], rest);
    assert [vs[0]] == vs;
  }

  /** The first field of a line reads back in front of the fields that follow it. */
  lemma NextFieldRoundTrip(vs: seq<string>, rest: string)
    requires |vs| >= 2
    requires ReadRecord(Join(MapEscape(vs[1..]), ",") + rest) == Some((vs[1..], rest))
    ensures ReadRecord(Join(MapEscape(vs), ",") + rest) == Some((vs, rest))
  {
    var tail := Join(MapEscape(vs[1..]), ",") + rest;
    JoinEscapedCons(vs, rest);
    FieldRoundTrip(vs[0], "," + tail);
    ReadRecordNext(Escape(vs[0]) + ("," + tail), vs[0], tail);
    assert [vs[0]] + vs[1..] == vs;
  }

  lemma JoinEscapedCons(vs: seq<string>, rest: string)
    requires |vs| >= 2
    ensures Join(MapEscape(vs), ",") + rest == Escape(vs[0]) + ("," + (Join(MapEscape(vs[1..]), ",") + rest))
  {
    assert MapEscape(vs)[1..] == MapEscape(vs[1..]);
  }

  /** A field followed by something other than a comma ends the line. */
  lemma ReadRecordLast(s: string, v: string, rest: string)
    requires ReadField(s) == Some((v, rest))
    requires rest == [] || rest[0] != ','
    ensures ReadRecord(s) == Some(([v], rest))
  {
  }

  /** A field followed by a comma is the first of the line's fields. */
  lemma ReadRecordNext(s: string, v: string, t: string)
    requires ReadField(s) == Some((v, "," + t))
    requires ReadRecord(t).Some?
    ensures ReadRecord(s) == Some(([v] + ReadRecord(t).value.0, ReadRecord(t).value.1))
  {
    assert ("," + t)[1..] == t;
  }

  /** A line of escaped values, joined with commas. */
  function EncodeRecord(vs: seq<string>): string {
    Join(MapEscape(vs), ",")
  }

  function Lines(rows: seq<seq<string>>): (r: seq<string>)
    ensures |r| == |rows| && forall i | 0 <= i < |rows| :: r[i] == EncodeRecord(rows[i])
  {
    seq(|rows|, i requires 0 <= i < |rows| => EncodeRecord(rows[i]))
  }

  /** The lines of a table, joined with line feeds. */
  function EncodeTable(rows: seq<seq<string>>): string {
    Join(Lines(rows), "\n")
  }

  lemma EncodeTableCons(rows: seq<seq<string>>)
    requires |rows| >= 2
    ensures EncodeTable(rows) == EncodeRecord(rows[0]) + ("\n" + EncodeTable(rows[1..]))
  {
    assert Lines(rows)[1..] == Lines(rows[1..]);
  }

  /** Any table with at least one line, every line with at least one value, reads back as itself. */
  lemma {:induction false} TableRoundTrip(rows: seq<seq<string>>)
    requires |rows| >= 1
    requires forall i | 0 <= i < |rows| :: |rows[i]| >= 1
    ensures ReadTable(EncodeTable(rows)) == Some(rows)
    decreases |rows|
  {
    if |rows| == 1 {
      LastLineRoundTrip(rows);
    } else {
      TableRoundTrip(rows[1..]);
      NextLineRoundTrip(rows);
    }
  }

  lemma LastLineRoundTrip(rows: seq<seq<string>>)
    requires |rows| == 1 && |rows[0]| >= 1
    ensures ReadTable(EncodeTable(rows)) == Some(rows)
  {
    RecordRoundTrip(rows[0], "");
    assert EncodeTable(rows) == EncodeRecord(rows[0]) + "";
    assert [rows[0]] == rows;
  }

  /** The first line of a table reads back in front of the lines that follow it. */
  lemma NextLineRoundTrip(rows: seq<seq<string>>)
    requires |rows| >= 2 && |rows[0]| >= 1
    requires ReadTable(EncodeTable(rows[1..])) == Some(rows[1..])
    ensures ReadTable(EncodeTable(rows)) == Some(rows)
  {
    var tail := EncodeTable(rows[1..]);
    EncodeTableCons(rows);
    RecordRoundTrip(rows[0], "\n" + tail);
    assert ("\n" + tail)[1..] == tail;
    assert [rows[0]] + rows[1..] == rows;
  }

  /** The header names and the id digits need no quoting, so escaping leaves them as they are. */
  lemma PlainCells(e: Embed)
    ensures MapEscape(Columns) == Columns
    ensures Escape(IntToString(e.id)) == IntToString(e.id)
  {
    PlainColumns();
    PlainId(e.id);
  }

  lemma PlainColumns()
    ensures MapEscape(Columns) == Columns
  {
    WordPlain("id");
    WordPlain("url");
    WordPlain("title");
    WordPlain("description");
    WordPlain("imageUrl");
    WordPlain("date");
  }

  /** A word of ASCII letters needs no quoting. */
  lemma WordPlain(c: string)
    requires forall k | 0 <= k < |c| :: 'a' <= c[k] <= 'z' || 'A' <= c[k] <= 'Z'
    ensures Escape(c) == c
  {
  }

  lemma PlainId(n: int)
    ensures Escape(IntToString(n)) == IntToString(n)
  {
    var s := IntToString(n);
    assert !NeedsQuotes(s) by {
      assert forall i | 0 <= i < |s| :: s[i] != ',' && s[i] != '\n' && s[i] != '"';
    }
  }

  /** Each CSV line is the line of the embed's values, escaped. */
  lemma RowEncodesValues(e: Embed)
    ensures CsvRow(e) == EncodeRecord(Values(e))
  {
    PlainCells(e);
    assert MapEscape(Values(e)) == [IntToString(e.id), EscapeCsv(Some(e.url)), EscapeCsv(Some(OrEmpty(e.title))),
        EscapeCsv(Some(OrEmpty(e.description))), EscapeCsv(Some(OrEmpty(e.imageUrl))), EscapeCsv(e.date)];
  }

  /** The table the CSV export holds: the column names, then each embed's values. */
  function Table(xs: seq<Embed>): (r: seq<seq<string>>)
    ensures |r| == |xs| + 1 && r[0] == Columns
    ensures forall i | 0 <= i < |xs| :: r[i + 1] == Values(xs[i])
  {
    [Columns] + seq(|xs|, i requires 0 <= i < |xs| => Values(xs[i]))
  }

  /**
   * The CSV export reads back as the header and, for each embed in order,
   * its values: whatever commas, quotes or line feeds they hold.
   */
  lemma CsvRoundTrip(xs: seq<Embed>)
    ensures ReadTable(CsvDocument(xs)) == Some(Table(xs))
  {
    CsvIsEncodedTable(xs);
    TableRowsFilled(xs);
    TableRoundTrip(Table(xs));
  }

  /** Every line of the exported table has at least one value. */
  lemma TableRowsFilled(xs: seq<Embed>)
    ensures forall i | 0 <= i < |Table(xs)| :: |Table(xs)[i]| >= 1
  {
    var rows := Table(xs);
    forall i | 0 <= i < |rows|
      ensures |rows[i]| >= 1
    {
      if i > 0 {
        assert rows[i] == Values(xs[i - 1]);
      }
    }
  }

  lemma CsvIsEncodedTable(xs: seq<Embed>)
    ensures CsvDocument(xs) == EncodeTable(Table(xs))
  {
    LinesAgree(xs);
  }

  lemma LinesAgree(xs: seq<Embed>)
    ensures Lines(Table(xs)) == CsvLines(xs)
  {
    var a := Lines(Table(xs));
    var b := CsvLines(xs);
    assert |a| == |b|;
    forall i | 0 <= i < |a|
      ensures a[i] == b[i]
    {
      LineAgrees(xs, i);
    }
  }

  lemma LineAgrees(xs: seq<Embed>, i: int)
    requires 0 <= i <= |xs|
    ensures Lines(Table(xs))[i] == CsvLines(xs)[i]
  {
    if i == 0 {
      HeaderLine(xs);
    } else {
      LineAt(xs, i - 1);
    }
  }

  lemma HeaderLine(xs: seq<Embed>)
    ensures Lines(Table(xs))[0] == CsvLines(xs)[0]
  {
    PlainCells(Embed(0, "", None, None, None, None));
    assert Table(xs)[0] == Columns;
  }

  lemma LineAt(xs: seq<Embed>, k: int)
    requires 0 <= k < |xs|
    ensures Lines(Table(xs))[k + 1] == CsvLines(xs)[k + 1]
  {
    var e := xs[k];
    assert Table(xs)[k + 1] == Values(e);
    assert CsvLines(xs)[k + 1] == CsvRow(e);
    RowEncodesValues(e);
  }

  /** The text export, split at line feeds, gives the urls back when there is at least one and none holds a line feed. */
  lemma TxtRoundTrip(xs: seq<Embed>)
    requires |xs| >= 1
    requires forall i | 0 <= i < |xs| :: '\n' !in xs[i].url
    ensures Split(TxtDocument(xs), '\n') == seq(|xs|, i requires 0 <= i < |xs| => xs[i].url)
  {
    SplitJoin(seq(|xs|, i requires 0 <= i < |xs| => xs[i].url), '\n');
  }
}
