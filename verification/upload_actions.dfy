/**
 * The older upload action: a CSV reader that splits every line on every
 * comma (no quote handling), looks its columns up by lowercased header
 * name, and reads the options cell either as JSON or as a `|`/`,`
 * separated list.
 */
module UploadActions {
  import opened Wrappers
  import opened JsText
  import opened JsModel
  import UploadPage

  datatype QuestionRow = QuestionRow(
    text: string,
    options: seq<string>,
    answer: string,
    explanation: Option<string>,
    topic: string)

  /** Where the columns of interest are; `explanation` is -1 when that header is absent. */
  datatype Columns = Columns(text: nat, options: nat, answer: nat, explanation: int, topic: nat)

  /** `cols[i] ?? ""` */
  function Col(cols: seq<string>, i: int): (r: string)
    ensures 0 <= i < |cols| ==> r == cols[i]
    ensures !(0 <= i < |cols|) ==> r == ""
  {
    if 0 <= i < |cols| then cols[i] else ""
  }

  /** The header keys: the first line split on every comma, each piece trimmed and lowercased. */
  function HeaderKeys(line: string): (r: seq<string>)
    ensures |r| == CountIn(line, {','}) + 1
    ensures forall i :: 0 <= i < |r| ==> r[i] == Key(SplitOn(line, {','})[i])
  {
    MapKey(SplitOn(line, {','}))
  }

  /** Trimmed lower-case keys without commas, written as a header line, read back as themselves. */
  lemma HeaderKeysJoin(keys: seq<string>)
    requires |keys| >= 1
    requires forall i :: 0 <= i < |keys| ==> IsTrimmed(keys[i]) && NoUpper(keys[i]) && NoneIn(keys[i], {','})
    ensures HeaderKeys(Join(keys, ',')) == keys
  {
    SplitJoin(keys, ',', {','});
    forall i | 0 <= i < |keys| ensures Key(keys[i]) == keys[i] {
      KeyOfKey(keys[i]);
    }
  }

  /**
   * The column lookup: `None` (the parser returns `[]`) when the text,
   * options, answer or topic header is missing; explanation is optional.
   * Each index is the first position of its key.
   */
  function FindColumns(hdr: seq<string>): (r: Option<Columns>)
    ensures r.None? <==> "text" !in hdr || "options" !in hdr || "answer" !in hdr || "topic" !in hdr
    ensures r.Some? ==>
      && r.value.text < |hdr| && hdr[r.value.text] == "text" && "text" !in hdr[..r.value.text]
      && r.value.options < |hdr| && hdr[r.value.options] == "options" && "options" !in hdr[..r.value.options]
      && r.value.answer < |hdr| && hdr[r.value.answer] == "answer" && "answer" !in hdr[..r.value.answer]
      && r.value.topic < |hdr| && hdr[r.value.topic] == "topic" && "topic" !in hdr[..r.value.topic]
      && (r.value.explanation >= 0 <==> "explanation" in hdr)
      && (r.value.explanation >= 0 ==>
            && r.value.explanation < |hdr| && hdr[r.value.explanation] == "explanation"
            && "explanation" !in hdr[..r.value.explanation])
  {
    var iText := IndexOf(hdr, "text");
    var iOptions := IndexOf(hdr, "options");
    var iAnswer := IndexOf(hdr, "answer");
    var iExplanation := IndexOf(hdr, "explanation");
    var iTopic := IndexOf(hdr, "topic");
    if iText < 0 || iOptions < 0 || iAnswer < 0 || iTopic < 0 then None
    else Some(Columns(iText, iOptions, iAnswer, iExplanation, iTopic))
  }

  /**
   * The options cell. A JSON array gives its elements through `String`, in
   * order; JSON of any other shape gives no options; text that is not JSON
   * is split on `|` and `,`, trimmed, and empty pieces are dropped.
   */
  function OptionsOf(raw: string, parseJson: JsonParser): (r: seq<string>)
    ensures parseJson(raw).Some? && parseJson(raw).value.Arr? ==>
      |r| == |parseJson(raw).value.elems| &&
      forall i :: 0 <= i < |r| ==> r[i] == ToJsString(parseJson(raw).value.elems[i])
    ensures parseJson(raw).Some? && !parseJson(raw).value.Arr? ==> r == []
    ensures parseJson(raw).None? ==>
      forall i :: 0 <= i < |r| ==> r[i] != [] && IsTrimmed(r[i]) && NoneIn(r[i], {'|', ','})
    ensures parseJson(raw).None? ==> r == SplitTrimFilter(raw, {'|', ','})
  {
    SplitTrimFilterShape(raw, {'|', ','});
    match parseJson(raw)
    case Some(v) => if v.Arr? then StringifyAll(v.elems) else []
    case None => SplitTrimFilter(raw, {'|', ','})
  }

  /** Options written as a `|`-separated list that is not JSON are read back one for one. */
  lemma OptionsListRoundTrip(items: seq<string>, parseJson: JsonParser)
    requires forall i :: 0 <= i < |items| ==> items[i] != [] && IsTrimmed(items[i]) && NoneIn(items[i], {'|', ','})
    requires parseJson(Join(items, '|')).None?
    ensures OptionsOf(Join(items, '|'), parseJson) == items
  {
    SplitTrimFilterJoin(items, '|', {'|', ','});
  }

  /** The row built from the comma-split columns of one data line. */
  function RowOf(cols: seq<string>, c: Columns, parseJson: JsonParser): (q: QuestionRow)
    ensures IsTrimmed(q.text) && IsTrimmed(q.answer) && IsTrimmed(q.topic)
    ensures q.text == "" <==> AllSpace(Col(cols, c.text))
    ensures q.answer == "" <==> AllSpace(Col(cols, c.answer))
    ensures q.topic == "" <==> AllSpace(Col(cols, c.topic))
    ensures q.explanation.None? <==> c.explanation < 0 || AllSpace(Col(cols, c.explanation))
    ensures q.explanation.Some? ==> q.explanation.value != [] && IsTrimmed(q.explanation.value)
    ensures q.options == OptionsOf(Col(cols, c.options), parseJson)
    ensures q.text == Trim(Col(cols, c.text))
    ensures q.answer == Trim(Col(cols, c.answer))
    ensures q.topic == Trim(Col(cols, c.topic))
    ensures q.explanation.Some? ==> q.explanation.value == Trim(Col(cols, c.explanation))
  {
    TrimEmpty(Col(cols, c.text));
    TrimEmpty(Col(cols, c.answer));
    TrimEmpty(Col(cols, c.topic));
    TrimEmpty(Col(cols, c.explanation));
    var explanation := if c.explanation >= 0 then Trim(Col(cols, c.explanation)) else "";
    QuestionRow(
      text := Trim(Col(cols, c.text)),
      options := OptionsOf(Col(cols, c.options), parseJson),
      answer := Trim(Col(cols, c.answer)),
      explanation := if explanation != [] then Some(explanation) else None,
      topic := Trim(Col(cols, c.topic)))
  }

  /**
   * A data line written from trimmed, comma-free cells reads each field
   * back from the cell under its header.
   */
  lemma RowReadsCells(cells: seq<string>, c: Columns, parseJson: JsonParser, q: QuestionRow)
    requires |cells| >= 1
    requires forall i :: 0 <= i < |cells| ==> IsTrimmed(cells[i]) && NoneIn(cells[i], {','})
    requires c.text < |cells| && c.options < |cells| && c.answer < |cells| && c.topic < |cells|
    requires q == RowOf(SplitOn(Join(cells, ','), {','}), c, parseJson)
    ensures q.text == cells[c.text] && q.answer == cells[c.answer] && q.topic == cells[c.topic]
    ensures q.options == OptionsOf(cells[c.options], parseJson)
  {
    var cols := SplitOn(Join(cells, ','), {','});
    SplitJoin(cells, ',', {','});
    TrimmedCol(cols, c.text);
    TrimmedCol(cols, c.answer);
    TrimmedCol(cols, c.topic);
  }

  lemma TrimmedCol(cols: seq<string>, i: nat)
    requires i < |cols| && IsTrimmed(cols[i])
    ensures Trim(Col(cols, i)) == cols[i]
  {
    TrimOfTrimmed(cols[i]);
  }

  /** One row per data line, each line split on every comma. */
  function Rows(data: seq<string>, c: Columns, parseJson: JsonParser): (r: seq<QuestionRow>)
    ensures |r| == |data|
    ensures forall k :: 0 <= k < |data| ==> r[k] == RowOf(SplitOn(data[k], {','}), c, parseJson)
  {
    seq(|data|, k requires 0 <= k < |data| => RowOf(SplitOn(data[k], {','}), c, parseJson))
  }

  /** The lines of the text that are not the empty string (white-space lines stay). */
  function Lines(text: string): seq<string>
  {
    FilterNonEmpty(SplitLines(text))
  }

  /** Every kept line is non-empty and holds no line feed. */
  lemma LinesShape(text: string)
    ensures forall i :: 0 <= i < |Lines(text)| ==> Lines(text)[i] != [] && NoneIn(Lines(text)[i], {'\n'})
  {
    var r := Lines(text);
    SplitLinesPieces(text);
    FilterNonEmptyFrom(SplitLines(text));
    forall i | 0 <= i < |r| ensures NoneIn(r[i], {'\n'}) {
      var j :| 0 <= j < |SplitLines(text)| && SplitLines(text)[j] == r[i];
    }
  }

  /** `parseCsv` */
  function ParseQuestions(text: string, parseJson: JsonParser): (r: seq<QuestionRow>)
    ensures |Lines(text)| < 2 ==> r == []
    ensures |Lines(text)| >= 2 && FindColumns(HeaderKeys(Lines(text)[0])).None? ==> r == []
    ensures |Lines(text)| >= 2 && FindColumns(HeaderKeys(Lines(text)[0])).Some? ==>
      && |r| == |Lines(text)| - 1
      && forall k :: 0 <= k < |r| ==>
           r[k] == RowOf(SplitOn(Lines(text)[k + 1], {','}), FindColumns(HeaderKeys(Lines(text)[0])).value, parseJson)
  {
    var lines := Lines(text);
    if |lines| < 2 then []
    else
      match FindColumns(HeaderKeys(lines[0]))
      case None => []
      case Some(c) => Rows(lines[1..], c, parseJson)
  }

  /** Why the action fails. */
  datatype Failure = NoFileUploaded | NoValidRowsFound | InsertError(message: string)

  function FailureMessage(f: Failure): string {
    match f
    case NoFileUploaded => "No file uploaded"
    case NoValidRowsFound => "No valid rows found in CSV"
    case InsertError(message) => message
  }

  datatype ActionOutcome =
    | ToAdminLogin                  // redirect to /admin/login
    | Failed(failure: Failure)      // an exception reaches the caller
    | Inserted(rows: seq<QuestionRow>) // inserted; redirect to /admin/upload?ok=1

  /**
   * `uploadAction`: `signedIn` is true when the auth service returned a
   * user and no error; `file` is the uploaded text, `None` without a file;
   * `insertError` is the database's answer to the insert.
   */
  function UploadAction(signedIn: bool, file: Option<string>, parseJson: JsonParser,
                        insertError: Option<string>): (r: ActionOutcome)
    ensures !signedIn <==> r == ToAdminLogin
    ensures signedIn && file.None? ==> r == Failed(NoFileUploaded)
    ensures r == Failed(NoValidRowsFound) <==> signedIn && file.Some? && ParseQuestions(file.value, parseJson) == []
    ensures r.Inserted? <==>
      signedIn && file.Some? && ParseQuestions(file.value, parseJson) != [] && insertError.None?
    ensures r.Inserted? ==> r.rows == ParseQuestions(file.value, parseJson)
    ensures signedIn && file.Some? && ParseQuestions(file.value, parseJson) != [] && insertError.Some? ==>
      r == Failed(InsertError(insertError.value))
  {
    if !signedIn then ToAdminLogin
    else if file.None? then Failed(NoFileUploaded)
    else
      var rows := ParseQuestions(file.value, parseJson);
      if rows == [] then Failed(NoValidRowsFound)
      else if insertError.Some? then Failed(InsertError(insertError.value))
      else Inserted(rows)
  }

  /** Two lines without line breaks, separated by a line feed, are read as those two lines. */
  lemma TwoLines(header: string, second: string)
    requires header != [] && NoneIn(header, {'\n', '\r'})
    requires second != [] && NoneIn(second, {'\n'})
    ensures Lines(header + "\n" + second) == [header, second]
  {
    var text := header + "\n" + second;
    SplitTwo(header, '\n', second, {'\n'});
    assert header[|header| - 1] in {'\n', '\r'} ==> false;
    assert SplitLines(text) == [header, second];
    assert FilterNonEmpty([second]) == [second];
  }

  /** A header line and one data line give exactly one row, read from the data line. */
  lemma OneDataLine(header: string, line: string, parseJson: JsonParser)
    requires header != [] && NoneIn(header, {'\n', '\r'})
    requires line != [] && NoneIn(line, {'\n'})
    requires FindColumns(HeaderKeys(header)).Some?
    ensures ParseQuestions(header + "\n" + line, parseJson)
         == [RowOf(SplitOn(line, {','}), FindColumns(HeaderKeys(header)).value, parseJson)]
  {
    var text := header + "\n" + line;
    var c := FindColumns(HeaderKeys(header)).value;
    TwoLines(header, line);
    assert Lines(text)[1..] == [line];
    OneRow(line, c, parseJson);
  }

  lemma OneRow(line: string, c: Columns, parseJson: JsonParser)
    ensures Rows([line], c, parseJson) == [RowOf(SplitOn(line, {','}), c, parseJson)]
  {
  }

  /** The columns of a line of white space all read as "". */
  lemma BlankRow(blank: string, c: Columns, parseJson: JsonParser)
    requires AllSpace(blank)
    ensures var q := RowOf([blank], c, parseJson);
      q.text == "" && q.answer == "" && q.topic == "" && q.explanation.None?
  {
    assert AllSpace(Col([blank], c.text)) && AllSpace(Col([blank], c.answer));
    assert AllSpace(Col([blank], c.topic)) && AllSpace(Col([blank], c.explanation));
  }

  /** A line of white space is kept as a line and yields a row, with every column read as "". */
  lemma BlankLineGivesRow(header: string, blank: string, parseJson: JsonParser)
    requires header != [] && NoneIn(header, {'\n', '\r'})
    requires blank != [] && AllSpace(blank) && NoneIn(blank, {'\n', ','})
    requires FindColumns(HeaderKeys(header)).Some?
    ensures ParseQuestions(header + "\n" + blank, parseJson)
         == [RowOf([blank], FindColumns(HeaderKeys(header)).value, parseJson)]
  {
    OneDataLine(header, blank, parseJson);
    SplitOnNoSep(blank, {','});
  }

  /**
   * The two upload parsers disagree on a quoted field holding a comma: the
   * quote-aware one reads it as one field, this one splits it apart.
   */
  lemma ParsersDisagree(f: string)
    requires UploadPage.PlainField(f) && ',' in f
    ensures |UploadPage.Scan(UploadPage.EncodeField(f), "", false)| == 1
    ensures |SplitOn(UploadPage.EncodeField(f), {','})| >= 2
  {
    UploadPage.RoundTrip([f]);
    assert UploadPage.EncodeFields([f]) == [UploadPage.EncodeField(f)];
    var e := UploadPage.EncodeField(f);
    assert e == [UploadPage.Quote] + f + [UploadPage.Quote];
    assert ',' in e;
    CountInMember(e, {','}, ',');
  }
}
