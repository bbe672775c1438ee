/**
 * The admin CSV upload page's server side: a quote-aware CSV parser, the
 * check for the fourteen required headers, and the pipeline that turns
 * rows into question records for insertion.
 */
module UploadPage {
  import opened Wrappers
  import opened JsText
  import opened JsModel

  const Quote: char := '"'

  // ---------------------------------------------------------------------
  // Parsing one data line
  // ---------------------------------------------------------------------

  /**
   * The line parser's behaviour on the unread text `s`, given the field
   * built so far and whether it is inside quotes. A doubled quote is a
   * literal quote in either state; a lone quote toggles the state; an
   * unquoted comma ends the field; the last field ends with the line.
   * Fields are trimmed when they end.
   */
  function Scan(s: string, cur: string, inQuotes: bool): seq<string>
    decreases |s|
  {
    if s == [] then [Trim(cur)]
    else if s[0] == Quote && |s| > 1 && s[1] == Quote then Scan(s[2..], cur + [Quote], inQuotes)
    else if s[0] == Quote then Scan(s[1..], cur, !inQuotes)
    else if s[0] == ',' && !inQuotes then [Trim(cur)] + Scan(s[1..], "", inQuotes)
    else Scan(s[1..], cur + [s[0]], inQuotes)
  }

  /** The fields of one data line. */
  method ParseLine(line: string) returns (fields: seq<string>)
    ensures fields == Scan(line, "", false)
  {
    fields := [];
    var cur := "";
    var inQuotes := false;
    var i := 0;
    while i < |line|
      invariant 0 <= i <= |line|
      invariant fields + Scan(line[i..], cur, inQuotes) == Scan(line, "", false)
    {
      var c := line[i];
      assert line[i..][0] == c;
      if c == Quote && i + 1 < |line| && line[i + 1] == Quote {
        assert line[i..][2..] == line[i + 2..];
        cur := cur + [Quote];
        i := i + 2;
      } else if c == Quote {
        assert line[i..][1..] == line[i + 1..];
        inQuotes := !inQuotes;
        i := i + 1;
      } else if c == ',' && !inQuotes {
        assert line[i..][1..] == line[i + 1..];
        fields := fields + [Trim(cur)];
        cur := "";
        i := i + 1;
      } else {
        assert line[i..][1..] == line[i + 1..];
        cur := cur + [c];
        i := i + 1;
      }
    }
    fields := fields + [Trim(cur)];
  }

  /** The commas of `s` that are outside quotes, tracking quotes as the parser does. */
  function UnquotedCommas(s: string, inQuotes: bool): nat
    decreases |s|
  {
    if s == [] then 0
    else if s[0] == Quote && |s| > 1 && s[1] == Quote then UnquotedCommas(s[2..], inQuotes)
    else if s[0] == Quote then UnquotedCommas(s[1..], !inQuotes)
    else if s[0] == ',' && !inQuotes then 1 + UnquotedCommas(s[1..], inQuotes)
    else UnquotedCommas(s[1..], inQuotes)
  }

  /** An unquoted comma always ends a field and a quoted one never does. */
  lemma {:induction false} FieldCount(s: string, cur: string, inQuotes: bool)
    ensures |Scan(s, cur, inQuotes)| == UnquotedCommas(s, inQuotes) + 1
  {
    if s == [] {
    } else if s[0] == Quote && |s| > 1 && s[1] == Quote {
      FieldCount(s[2..], cur + [Quote], inQuotes);
    } else if s[0] == Quote {
      FieldCount(s[1..], cur, !inQuotes);
    } else if s[0] == ',' && !inQuotes {
      FieldCount(s[1..], "", inQuotes);
    } else {
      FieldCount(s[1..], cur + [s[0]], inQuotes);
    }
  }

  /** Every field is emitted trimmed. */
  lemma {:induction false} FieldsTrimmed(s: string, cur: string, inQuotes: bool)
    ensures forall i :: 0 <= i < |Scan(s, cur, inQuotes)| ==> IsTrimmed(Scan(s, cur, inQuotes)[i])
  {
    if s == [] {
    } else if s[0] == Quote && |s| > 1 && s[1] == Quote {
      FieldsTrimmed(s[2..], cur + [Quote], inQuotes);
    } else if s[0] == Quote {
      FieldsTrimmed(s[1..], cur, !inQuotes);
    } else if s[0] == ',' && !inQuotes {
      FieldsTrimmed(s[1..], "", inQuotes);
    } else {
      FieldsTrimmed(s[1..], cur + [s[0]], inQuotes);
    }
  }

  predicate NoDoubledQuote(s: string) {
    forall i :: 0 <= i < |s| - 1 ==> !(s[i] == Quote && s[i + 1] == Quote)
  }

  /** Without a doubled quote in the line, a quote only toggles quoting and never reaches a field. */
  lemma {:induction false} LoneQuotesVanish(s: string, cur: string, inQuotes: bool)
    requires NoDoubledQuote(s) && Quote !in cur
    ensures forall i :: 0 <= i < |Scan(s, cur, inQuotes)| ==> Quote !in Scan(s, cur, inQuotes)[i]
  {
    if s == [] {
    } else if s[0] == Quote && |s| > 1 && s[1] == Quote {
      assert false;
    } else if s[0] == Quote {
      LoneQuotesVanish(s[1..], cur, !inQuotes);
    } else if s[0] == ',' && !inQuotes {
      LoneQuotesVanish(s[1..], "", inQuotes);
    } else {
      LoneQuotesVanish(s[1..], cur + [s[0]], inQuotes);
    }
  }

  /** A quote not followed by another toggles quoting. */
  lemma LoneQuoteStep(x: string, cur: string, inQuotes: bool)
    requires x == [] || x[0] != Quote
    ensures Scan([Quote] + x, cur, inQuotes) == Scan(x, cur, !inQuotes)
  {
    assert ([Quote] + x)[1..] == x;
  }

  /** A doubled quote adds one quote to the field. */
  lemma DoubledQuoteStep(x: string, cur: string, inQuotes: bool)
    ensures Scan([Quote, Quote] + x, cur, inQuotes) == Scan(x, cur + [Quote], inQuotes)
  {
    assert ([Quote, Quote] + x)[2..] == x;
  }

  /** An unquoted comma ends the field. */
  lemma CommaStep(x: string, cur: string)
    ensures Scan([','] + x, cur, false) == [Trim(cur)] + Scan(x, "", false)
  {
    var s := [','] + x;
    assert s[0] == ',' && s[0] != Quote && s != [];
    assert s[1..] == x;
  }

  /** Moving the first character of `p` onto `cur`. */
  lemma MoveFirst(cur: string, p: string)
    requires p != []
    ensures cur + [p[0]] + p[1..] == cur + p
  {
    assert p == [p[0]] + p[1..];
  }

  /** Text without quotes or commas is copied into the current field. */
  lemma {:induction false} ScanUnquoted(p: string, t: string, cur: string)
    requires Quote !in p && ',' !in p
    ensures Scan(p + t, cur, false) == Scan(t, cur + p, false)
  {
    if p != [] {
      assert p[0] in p;
      assert (p + t)[0] == p[0];
      assert (p + t)[1..] == p[1..] + t;
      assert Scan(p + t, cur, false) == Scan(p[1..] + t, cur + [p[0]], false);
      ScanUnquoted(p[1..], t, cur + [p[0]]);
      MoveFirst(cur, p);
    } else {
      assert p + t == t && cur + p == cur;
    }
  }

  /** Inside quotes, text without quotes (commas included) is copied into the current field. */
  lemma {:induction false} ScanQuoted(p: string, t: string, cur: string)
    requires Quote !in p
    ensures Scan(p + t, cur, true) == Scan(t, cur + p, true)
  {
    if p != [] {
      assert p[0] in p;
      assert (p + t)[0] == p[0];
      assert (p + t)[1..] == p[1..] + t;
      assert Scan(p + t, cur, true) == Scan(p[1..] + t, cur + [p[0]], true);
      ScanQuoted(p[1..], t, cur + [p[0]]);
      MoveFirst(cur, p);
    } else {
      assert p + t == t && cur + p == cur;
    }
  }

  /** A field value a writer can put in a line unambiguously: trimmed and free of quotes. */
  predicate PlainField(f: string) {
    Quote !in f && IsTrimmed(f)
  }

  /** How a writer would put a plain field into a line: in quotes when it holds a comma. */
  function EncodeField(f: string): string {
    if ',' in f then [Quote] + f + [Quote] else f
  }

  function EncodeFields(fields: seq<string>): (r: seq<string>)
    ensures |r| == |fields|
  {
    seq(|fields|, i requires 0 <= i < |fields| => EncodeField(fields[i]))
  }

  /** A field in quotes is read up to the closing quote, commas included. */
  lemma QuotedField(f: string, t: string)
    requires Quote !in f && f != []
    requires t == [] || t[0] == ','
    ensures Scan([Quote] + f + [Quote] + t, "", false) == Scan(t, f, false)
  {
    var u := [Quote] + t;
    assert [Quote] + f + [Quote] + t == [Quote] + (f + u);
    assert (f + u)[0] == f[0] && f[0] in f;
    LoneQuoteStep(f + u, "", false);
    ScanQuoted(f, u, "");
    assert "" + f == f;
    LoneQuoteStep(t, f, true);
  }

  /** A trimmed field followed by a comma or the end of the line is emitted as it is. */
  lemma FieldEnd(f: string, t: string)
    requires IsTrimmed(f)
    requires t == [] || t[0] == ','
    ensures Scan(t, f, false) == [f] + (if t == [] then [] else Scan(t[1..], "", false))
  {
    TrimOfTrimmed(f);
    if t != [] {
      assert t == [','] + t[1..];
      CommaStep(t[1..], f);
    }
  }

  /** An encoded plain field followed by a comma or the end of the line is read back whole. */
  lemma ScanField(f: string, t: string)
    requires PlainField(f)
    requires t == [] || t[0] == ','
    ensures Scan(EncodeField(f) + t, "", false)
         == [f] + (if t == [] then [] else Scan(t[1..], "", false))
  {
    if ',' in f {
      QuotedField(f, t);
    } else {
      ScanUnquoted(f, t, "");
      assert "" + f == f;
    }
    FieldEnd(f, t);
  }

  /** Joining encoded plain fields with commas and parsing the line gives the fields back. */
  lemma {:induction false} RoundTrip(fields: seq<string>)
    requires |fields| >= 1
    requires forall i :: 0 <= i < |fields| ==> PlainField(fields[i])
    ensures Scan(Join(EncodeFields(fields), ','), "", false) == fields
  {
    var enc := EncodeFields(fields);
    if |fields| == 1 {
      ScanField(fields[0], "");
      assert enc[0] + "" == enc[0];
    } else {
      var rest := Join(enc[1..], ',');
      var t := [','] + rest;
      assert Join(enc, ',') == enc[0] + t;
      ScanField(fields[0], t);
      assert t[1..] == rest;
      assert EncodeFields(fields[1..]) == enc[1..];
      RoundTrip(fields[1..]);
      assert [fields[0]] + fields[1..] == fields;
    }
  }

  /** A trimmed plain text without quotes or commas is a single field. */
  lemma PlainLine(b: string)
    requires Quote !in b && ',' !in b && IsTrimmed(b)
    ensures Scan(b, "", false) == [b]
  {
    ScanUnquoted(b, "", "");
    assert b + "" == b && "" + b == b;
    TrimOfTrimmed(b);
  }

  lemma DoubledQuoteField(u: string)
    ensures Scan([Quote, Quote, ','] + u, "", false) == [[Quote]] + Scan(u, "", false)
  {
    var v := [','] + u;
    assert [Quote, Quote, ','] + u == [Quote, Quote] + v;
    DoubledQuoteStep(v, "", false);
    assert "" + [Quote] == [Quote];
    CommaStep(u, [Quote]);
    assert !IsSpace(Quote);
    TrimOfTrimmed([Quote]);
  }

  /**
   * The conventional spelling of an empty quoted field, `""`, is read as a
   * doubled quote: the field comes back as one literal quote.
   */
  lemma {:induction false} EmptyQuotedFieldReadsAsQuote(a: string, b: string)
    requires Quote !in a && ',' !in a && IsTrimmed(a)
    requires Quote !in b && ',' !in b && IsTrimmed(b)
    ensures Scan(a + [',', Quote, Quote, ','] + b, "", false) == [a, [Quote], b]
  {
    var q := [Quote, Quote, ','] + b;
    assert a + [',', Quote, Quote, ','] + b == a + ([','] + q);
    FieldThenRest(a, q);
    QuoteThenField(b);
  }

  /** A plain field ended by a comma, then whatever follows. */
  lemma FieldThenRest(a: string, q: string)
    requires Quote !in a && ',' !in a && IsTrimmed(a)
    ensures Scan(a + ([','] + q), "", false) == [a] + Scan(q, "", false)
  {
    ScanUnquoted(a, [','] + q, "");
    assert "" + a == a;
    CommaStep(q, a);
    TrimOfTrimmed(a);
  }

  /** A doubled quote as a whole field, then one plain field. */
  lemma QuoteThenField(b: string)
    requires Quote !in b && ',' !in b && IsTrimmed(b)
    ensures Scan([Quote, Quote, ','] + b, "", false) == [[Quote], b]
  {
    DoubledQuoteField(b);
    PlainLine(b);
  }

  // ---------------------------------------------------------------------
  // Parsing the whole file
  // ---------------------------------------------------------------------

  datatype CsvTable = CsvTable(headers: seq<string>, rows: seq<seq<string>>)

  /** The lines that hold something other than white space. */
  function NonBlankLines(lines: seq<string>): (r: seq<string>)
    ensures |r| <= |lines|
    ensures forall i :: 0 <= i < |r| ==> Trim(r[i]) != []
    ensures forall x :: x in r ==> x in lines
    ensures forall x :: x in lines && Trim(x) != [] ==> x in r
  {
    if lines == [] then []
    else (if Trim(lines[0]) != [] then [lines[0]] else []) + NonBlankLines(lines[1..])
  }

  /** Lines are kept or dropped one by one, so the kept lines stay in file order. */
  lemma {:induction false} NonBlankAppend(a: seq<string>, b: seq<string>)
    ensures NonBlankLines(a + b) == NonBlankLines(a) + NonBlankLines(b)
  {
    if a == [] {
      assert a + b == b;
    } else {
      var h := if Trim(a[0]) != [] then [a[0]] else [];
      Unconsed(a, []);
      Unconsed(a, b);
      NonBlankStep(a[0], a[1..]);
      NonBlankStep(a[0], a[1..] + b);
      NonBlankAppend(a[1..], b);
      Assoc(h, NonBlankLines(a[1..]), NonBlankLines(b));
    }
  }

  lemma Unconsed(a: seq<string>, b: seq<string>)
    requires a != []
    ensures [a[0]] + (a[1..] + b) == a + b
  {
    assert a == [a[0]] + a[1..];
  }

  lemma NonBlankStep(x: string, rest: seq<string>)
    ensures NonBlankLines([x] + rest) == (if Trim(x) != [] then [x] else []) + NonBlankLines(rest)
  {
    assert ([x] + rest)[1..] == rest;
  }

  /** Header names: the first line split on every comma, each piece trimmed; quotes are not interpreted. */
  function HeaderNames(line: string): (r: seq<string>)
    ensures |r| == CountIn(line, {','}) + 1
    ensures forall i :: 0 <= i < |r| ==> r[i] == Trim(SplitOn(line, {','})[i]) && IsTrimmed(r[i])
  {
    MapTrim(SplitOn(line, {','}))
  }

  /** Trimmed names without commas, written as a comma-separated header line, read back as themselves. */
  lemma HeaderNamesJoin(names: seq<string>)
    requires |names| >= 1
    requires forall i :: 0 <= i < |names| ==> IsTrimmed(names[i]) && NoneIn(names[i], {','})
    ensures HeaderNames(Join(names, ',')) == names
  {
    SplitJoin(names, ',', {','});
    forall i | 0 <= i < |names| ensures Trim(names[i]) == names[i] {
      TrimOfTrimmed(names[i]);
    }
  }

  /** The fields of each data line, in line order. */
  function DataRows(lines: seq<string>): (r: seq<seq<string>>)
    ensures |r| == |lines|
  {
    if lines == [] then [] else DataRows(lines[..|lines| - 1]) + [Scan(lines[|lines| - 1], "", false)]
  }

  lemma {:induction false} DataRowsAt(lines: seq<string>, k: nat)
    requires k < |lines|
    ensures DataRows(lines)[k] == Scan(lines[k], "", false)
  {
    if k < |lines| - 1 {
      DataRowsAt(lines[..|lines| - 1], k);
    }
  }

  lemma DataRowsStep(data: seq<string>, j: nat)
    requires j < |data|
    ensures DataRows(data[..j + 1]) == DataRows(data[..j]) + [Scan(data[j], "", false)]
  {
    assert data[..j + 1][..j] == data[..j];
  }

  /** What `parseCsv` returns for the text of the uploaded file. */
  function CsvOf(text: string): (r: CsvTable)
    ensures var lines := NonBlankLines(SplitLines(text));
      && (r.headers == [] <==> |lines| < 2)
      && (r.rows == [] <==> |lines| < 2)
      && (|lines| >= 2 ==> |r.rows| == |lines| - 1)
  {
    var lines := NonBlankLines(SplitLines(text));
    if |lines| < 2 then CsvTable([], [])
    else CsvTable(HeaderNames(lines[0]), DataRows(lines[1..]))
  }

  method ParseCsv(text: string) returns (table: CsvTable)
    ensures table == CsvOf(text)
  {
    var lines := NonBlankLines(SplitLines(text));
    if |lines| < 2 {
      return CsvTable([], []);
    }
    var data := lines[1..];
    var rows: seq<seq<string>> := [];
    var j := 0;
    while j < |data|
      invariant 0 <= j <= |data|
      invariant rows == DataRows(data[..j])
    {
      var fields := ParseLine(data[j]);
      DataRowsStep(data, j);
      rows := rows + [fields];
      j := j + 1;
    }
    assert data[..j] == data;
    table := CsvTable(HeaderNames(lines[0]), rows);
  }

  /** Each data row has one field more than its line has unquoted commas, and every field is trimmed. */
  lemma RowShape(text: string, k: nat)
    requires k < |CsvOf(text).rows|
    ensures var line := NonBlankLines(SplitLines(text))[k + 1];
      && |CsvOf(text).rows[k]| == UnquotedCommas(line, false) + 1
      && forall j :: 0 <= j < |CsvOf(text).rows[k]| ==> IsTrimmed(CsvOf(text).rows[k][j])
  {
    var lines := NonBlankLines(SplitLines(text));
    assert |lines| >= 2 && CsvOf(text).rows == DataRows(lines[1..]);
    var line := lines[k + 1];
    DataRowsAt(lines[1..], k);
    assert CsvOf(text).rows[k] == Scan(line, "", false);
    FieldCount(line, "", false);
    FieldsTrimmed(line, "", false);
  }

  // ---------------------------------------------------------------------
  // Required headers
  // ---------------------------------------------------------------------

  const RequiredHeaders: seq<string> := [
    "subject", "topic", "lang", "text",
    "option_a", "option_b", "option_c", "option_d",
    "correct_index", "explanation", "difficulty", "source", "year", "published"
  ]

  /** Every required header is among `headers`. */
  predicate HasAllHeaders(headers: seq<string>) {
    forall k :: 0 <= k < |RequiredHeaders| ==> RequiredHeaders[k] in headers
  }

  /** Required header `k` is the first one, in the listed order, that `headers` lacks. */
  predicate FirstMissing(headers: seq<string>, k: int) {
    && 0 <= k < |RequiredHeaders|
    && RequiredHeaders[k] !in headers
    && forall j :: 0 <= j < k ==> RequiredHeaders[j] in headers
  }

  /** Whenever a required header is absent, there is a first absent one. */
  lemma SomeFirstMissing(headers: seq<string>)
    requires !HasAllHeaders(headers)
    ensures exists k :: FirstMissing(headers, k)
  {
    FirstMissingFrom(headers, 0);
  }

  lemma {:induction false} FirstMissingFrom(headers: seq<string>, i: nat)
    requires i <= |RequiredHeaders|
    requires forall j :: 0 <= j < i ==> RequiredHeaders[j] in headers
    requires !HasAllHeaders(headers)
    ensures exists k :: FirstMissing(headers, k)
    decreases |RequiredHeaders| - i
  {
    if i < |RequiredHeaders| {
      if RequiredHeaders[i] !in headers {
        assert FirstMissing(headers, i);
      } else {
        FirstMissingFrom(headers, i + 1);
      }
    }
  }

  /** The first required header, in the listed order, that the file lacks. */
  method FindMissingHeader(headers: seq<string>) returns (missing: Option<string>)
    ensures missing.None? <==> HasAllHeaders(headers)
    ensures forall k :: FirstMissing(headers, k) ==> missing == Some(RequiredHeaders[k])
    ensures missing.Some? ==> missing.value in RequiredHeaders && missing.value !in headers
  {
    var i := 0;
    while i < |RequiredHeaders|
      invariant 0 <= i <= |RequiredHeaders|
      invariant forall k :: 0 <= k < i ==> RequiredHeaders[k] in headers
    {
      if RequiredHeaders[i] !in headers {
        return Some(RequiredHeaders[i]);
      }
      i := i + 1;
    }
    return None;
  }

  // ---------------------------------------------------------------------
  // Rows to records
  // ---------------------------------------------------------------------

  datatype QuestionRecord = QuestionRecord(
    subject: Option<string>,
    topic: Option<string>,
    lang: string,
    text: string,
    options: seq<string>,
    correctIndex: JsNumber,
    explanation: Option<string>,
    difficulty: Option<string>,
    source: Option<string>,
    year: Option<JsNumber>,
    published: bool)

  /** `r[headers.indexOf(name)]`: `None` (undefined) when the header is absent or the row is too short. */
  function Cell(headers: seq<string>, row: seq<string>, name: string): (r: Option<string>)
    ensures name !in headers ==> r.None?
    ensures r.Some? <==> name in headers && IndexOf(headers, name) < |row|
    ensures r.Some? ==> r.value == row[IndexOf(headers, name)]
  {
    var i := IndexOf(headers, name);
    if 0 <= i < |row| then Some(row[i]) else None
  }

  /** `cell || null` */
  function NonEmptyOrNull(c: Option<string>): (r: Option<string>)
    ensures r.Some? ==> r.value != [] && r == c
    ensures r.None? ==> c.None? || c.value == []
  {
    if c.Some? && c.value != [] then c else None
  }

  /** `cell || fallback` */
  function NonEmptyOr(c: Option<string>, fallback: string): (r: string)
    ensures c.Some? && c.value != [] ==> r == c.value
    ensures (c.None? || c.value == []) ==> r == fallback
  {
    if c.Some? && c.value != [] then c.value else fallback
  }

  /** `r.some((c) => c && c.length)`: the row has a non-empty cell. */
  predicate HasContent(row: seq<string>) {
    exists i :: 0 <= i < |row| && row[i] != []
  }

  /**
   * The record built from one row. An undefined option cell is written as
   * "" here: a record with either is dropped by `Keep` before insertion.
   */
  function ToRecord(headers: seq<string>, row: seq<string>, toNumber: NumberParser): (q: QuestionRecord)
    ensures q.lang != []
    ensures Cell(headers, row, "lang").GetOr("") == [] ==> q.lang == "en"
    ensures Cell(headers, row, "lang").GetOr("") != [] ==> q.lang == Cell(headers, row, "lang").value
    ensures |q.options| == 4
    ensures !q.published <==> (Cell(headers, row, "published").Some? && Lower(Cell(headers, row, "published").value) == "false")
  {
    var published := Cell(headers, row, "published");
    var index := Cell(headers, row, "correct_index");
    var year := Cell(headers, row, "year");
    QuestionRecord(
      subject := NonEmptyOrNull(Cell(headers, row, "subject")),
      topic := NonEmptyOrNull(Cell(headers, row, "topic")),
      lang := NonEmptyOr(Cell(headers, row, "lang"), "en"),
      text := NonEmptyOr(Cell(headers, row, "text"), ""),
      options := [Cell(headers, row, "option_a").GetOr(""), Cell(headers, row, "option_b").GetOr(""),
                  Cell(headers, row, "option_c").GetOr(""), Cell(headers, row, "option_d").GetOr("")],
      correctIndex := if index.Some? then toNumber(index.value) else Finite(0.0),
      explanation := NonEmptyOrNull(Cell(headers, row, "explanation")),
      difficulty := NonEmptyOrNull(Cell(headers, row, "difficulty")),
      source := NonEmptyOrNull(Cell(headers, row, "source")),
      year := if year.Some? && year.value != [] then Some(toNumber(year.value)) else None,
      // String(undefined) is "undefined", which is not "false"
      published := published.None? || Lower(published.value) != "false")
  }

  /** `q.text && q.options.every(Boolean)` */
  predicate Keep(q: QuestionRecord) {
    q.text != [] && forall i :: 0 <= i < |q.options| ==> q.options[i] != []
  }

  /** Rows with content become records, and only records with text and four non-empty options are kept. */
  function Payload(headers: seq<string>, rows: seq<seq<string>>, toNumber: NumberParser): (r: seq<QuestionRecord>)
    ensures |r| <= |rows|
    ensures forall i :: 0 <= i < |r| ==> Keep(r[i]) && |r[i].options| == 4
  {
    if rows == [] then []
    else
      var q := ToRecord(headers, rows[0], toNumber);
      var rest := Payload(headers, rows[1..], toNumber);
      if HasContent(rows[0]) && Keep(q) then [q] + rest else rest
  }

  /** Every record in the payload is built from a row of the file that has content. */
  lemma {:induction false} PayloadFromRows(headers: seq<string>, rows: seq<seq<string>>, toNumber: NumberParser, q: QuestionRecord)
    requires q in Payload(headers, rows, toNumber)
    ensures exists row :: row in rows && HasContent(row) && q == ToRecord(headers, row, toNumber)
  {
    var head := ToRecord(headers, rows[0], toNumber);
    if HasContent(rows[0]) && Keep(head) && q == head {
      assert rows[0] in rows;
    } else {
      assert q in Payload(headers, rows[1..], toNumber);
      PayloadFromRows(headers, rows[1..], toNumber, q);
      var row :| row in rows[1..] && HasContent(row) && q == ToRecord(headers, row, toNumber);
      assert row in rows;
    }
  }

  /** The payload keeps the rows' order: it is built row after row. */
  lemma {:induction false} PayloadAppend(headers: seq<string>, rows1: seq<seq<string>>, rows2: seq<seq<string>>, toNumber: NumberParser)
    ensures Payload(headers, rows1 + rows2, toNumber) == Payload(headers, rows1, toNumber) + Payload(headers, rows2, toNumber)
  {
    if rows1 == [] {
      assert rows1 + rows2 == rows2;
    } else {
      assert (rows1 + rows2)[1..] == rows1[1..] + rows2;
      PayloadAppend(headers, rows1[1..], rows2, toNumber);
    }
  }

  /** A row whose record has text and four non-empty options is inserted. */
  lemma ValidRowKept(headers: seq<string>, row: seq<string>, toNumber: NumberParser)
    requires Keep(ToRecord(headers, row, toNumber))
    ensures Payload(headers, [row], toNumber) == [ToRecord(headers, row, toNumber)]
  {
    var i := IndexOf(headers, "text");
    assert Cell(headers, row, "text").Some?;
    assert 0 <= i < |row| && row[i] != [];
    assert HasContent(row);
    assert [row][1..] == [];
  }

  /** The four options of a record are the option_a to option_d cells, in that order. */
  lemma OptionsInColumnOrder(headers: seq<string>, row: seq<string>, toNumber: NumberParser)
    requires Keep(ToRecord(headers, row, toNumber))
    ensures var q := ToRecord(headers, row, toNumber);
      && Cell(headers, row, "option_a") == Some(q.options[0])
      && Cell(headers, row, "option_b") == Some(q.options[1])
      && Cell(headers, row, "option_c") == Some(q.options[2])
      && Cell(headers, row, "option_d") == Some(q.options[3])
  {
    var q := ToRecord(headers, row, toNumber);
    assert q.options[0] != [] && q.options[1] != [] && q.options[2] != [] && q.options[3] != [];
  }

  // ---------------------------------------------------------------------
  // The upload action
  // ---------------------------------------------------------------------

  /** What the authentication service reports for the current request. */
  datatype AuthResult = AuthError | NoUser | SignedIn(email: Option<string>)

  /** Why an upload is sent back with ok=0. */
  datatype Rejection = NoFile | MissingHeader(name: string) | NoValidRows | InsertFailed(message: string)

  /** The message shown with a rejection. */
  function Message(r: Rejection): string {
    match r
    case NoFile => "No file provided"
    case MissingHeader(name) => "Missing header: " + name
    case NoValidRows => "No valid rows"
    case InsertFailed(message) => message
  }

  datatype UploadOutcome =
    | ToAdminLogin                           // redirect to /admin/login
    | Rejected(reason: Rejection)            // redirect back with ok=0 and Message(reason)
    | Uploaded(payload: seq<QuestionRecord>) // inserted; redirect with ok=1, "Uploaded <n> questions"

  /** The user may upload: signed in, and the owner whenever an owner address is set. */
  predicate Admitted(auth: AuthResult, owner: Option<string>) {
    auth.SignedIn? && (owner.GetOr("") == [] || auth.email == owner)
  }

  /**
   * `uploadAction`. The owner address is NEXT_PUBLIC_OWNER_EMAIL (absent
   * counts as ""), the file text is `None` when no file was sent, and the
   * database's answer to the insert is `insertError`.
   */
  method UploadAction(auth: AuthResult, owner: Option<string>, file: Option<string>,
                      toNumber: NumberParser, insertError: Option<string>)
    returns (outcome: UploadOutcome)
    ensures outcome == ToAdminLogin <==> !Admitted(auth, owner)
    ensures Admitted(auth, owner) && file.None? ==> outcome == Rejected(NoFile)
    ensures Admitted(auth, owner) && file.Some? ==>
      forall k :: FirstMissing(CsvOf(file.value).headers, k) ==> outcome == Rejected(MissingHeader(RequiredHeaders[k]))
    ensures Admitted(auth, owner) && file.Some? && HasAllHeaders(CsvOf(file.value).headers) &&
            Payload(CsvOf(file.value).headers, CsvOf(file.value).rows, toNumber) == []
            ==> outcome == Rejected(NoValidRows)
    ensures Admitted(auth, owner) && file.Some? && HasAllHeaders(CsvOf(file.value).headers) &&
            Payload(CsvOf(file.value).headers, CsvOf(file.value).rows, toNumber) != [] &&
            insertError.Some?
            ==> outcome == Rejected(InsertFailed(insertError.value))
    ensures Admitted(auth, owner) && file.Some? && HasAllHeaders(CsvOf(file.value).headers) &&
            Payload(CsvOf(file.value).headers, CsvOf(file.value).rows, toNumber) != [] &&
            insertError.None?
            ==> outcome == Uploaded(Payload(CsvOf(file.value).headers, CsvOf(file.value).rows, toNumber))
    ensures outcome.Uploaded? ==>
      && file.Some? && insertError.None?
      && HasAllHeaders(CsvOf(file.value).headers)
      && outcome.payload != []
  {
    if !auth.SignedIn? {
      return ToAdminLogin;
    }
    var ownerEmail := owner.GetOr("");
    if ownerEmail != [] && auth.email != Some(ownerEmail) {
      return ToAdminLogin;
    }
    if file.None? {
      return Rejected(NoFile);
    }
    var table := ParseCsv(file.value);
    var missing := FindMissingHeader(table.headers);
    if missing.Some? {
      return Rejected(MissingHeader(missing.value));
    }
    var payload := Payload(table.headers, table.rows, toNumber);
    if payload == [] {
      return Rejected(NoValidRows);
    }
    if insertError.Some? {
      return Rejected(InsertFailed(insertError.value));
    }
    return Uploaded(payload);
  }
}
