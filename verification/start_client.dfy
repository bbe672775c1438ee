/**
 * The practice quiz: options as stored in the database are normalised to
 * a list of strings, the correct answer's text is derived from its index,
 * the learner's choices are kept per question id, and the score counts
 * the questions answered correctly.
 */
module PracticeQuiz {
  import opened Wrappers
  import opened JsText
  import opened JsModel
  import UploadActions

  /** A question row as the database returns it; `options` can be of any shape. */
  datatype DbQuestion = DbQuestion(
    id: string,
    text: string,
    options: JsValue,
    correctIndex: JsNumber,
    explanation: Option<string>,
    topic: Option<string>)

  /** A question as the quiz shows it. `answer` is `None` for null (and for undefined, which compares like null). */
  datatype Question = Question(
    id: string,
    text: string,
    options: seq<string>,
    answer: Option<string>,
    explanation: Option<string>,
    topic: Option<string>)

  /**
   * `toOptions`: an array gives its elements through `String`; a string
   * that is JSON of an array gives that array's elements the same way; any
   * other string is split on `|` and `,`, trimmed, and empty pieces are
   * dropped; null, undefined and every other value give no options.
   */
  function ToOptions(val: JsValue, parseJson: JsonParser): (r: seq<string>)
    ensures val.Arr? ==> |r| == |val.elems| && forall i :: 0 <= i < |r| ==> r[i] == ToJsString(val.elems[i])
    ensures !val.Arr? && !val.Str? ==> r == []
    ensures val.Str? && parseJson(val.s).Some? && parseJson(val.s).value.Arr? ==>
      |r| == |parseJson(val.s).value.elems| &&
      forall i :: 0 <= i < |r| ==> r[i] == ToJsString(parseJson(val.s).value.elems[i])
    ensures val.Str? && !(parseJson(val.s).Some? && parseJson(val.s).value.Arr?) ==>
      forall i :: 0 <= i < |r| ==> r[i] != [] && IsTrimmed(r[i]) && NoneIn(r[i], {'|', ','})
    ensures val.Str? && !(parseJson(val.s).Some? && parseJson(val.s).value.Arr?) ==>
      r == SplitTrimFilter(val.s, {'|', ','})
  {
    match val
    case Arr(es) => StringifyAll(es)
    case Str(s) =>
      SplitTrimFilterShape(s, {'|', ','});
      var parsed := parseJson(s);
      if parsed.Some? && parsed.value.Arr? then StringifyAll(parsed.value.elems)
      else SplitTrimFilter(s, {'|', ','})
    case _ => []
  }

  /** A `|`-separated list of options that is not JSON of an array is read back one for one. */
  lemma ToOptionsListRoundTrip(items: seq<string>, parseJson: JsonParser)
    requires forall i :: 0 <= i < |items| ==> items[i] != [] && IsTrimmed(items[i]) && NoneIn(items[i], {'|', ','})
    requires !(parseJson(Join(items, '|')).Some? && parseJson(Join(items, '|')).value.Arr?)
    ensures ToOptions(Str(Join(items, '|')), parseJson) == items
  {
    SplitTrimFilterJoin(items, '|', {'|', ','});
  }

  /**
   * The quiz and the older upload action read an options cell that is
   * JSON of a non-array differently: the quiz falls back to splitting the
   * text, the upload action keeps no options.
   */
  lemma JsonScalarOptions(parseJson: JsonParser)
    requires parseJson("5") == Some(Num("5"))
    ensures ToOptions(Str("5"), parseJson) == ["5"]
    ensures UploadActions.OptionsOf("5", parseJson) == []
  {
    FiveAsList();
  }

  /** The text "5" read as a list is the single option "5". */
  lemma FiveAsList()
    ensures SplitTrimFilter("5", {'|', ','}) == ["5"]
  {
    var five := "5";
    assert !IsSpace(five[0]);
    assert NoneIn(five, {'|', ','});
    assert Join([five], '|') == five;
    SplitTrimFilterJoin([five], '|', {'|', ','});
  }

  /** `0 <= i < n` holds and `i` names an array element (a whole number). */
  predicate IsIndex(i: real, n: nat) {
    0.0 <= i < n as real && i == i.Floor as real
  }

  /**
   * The correct answer's text: the option at `correct_index` when that is
   * an element's position. A fractional index inside the bounds reads
   * undefined, which the score treats like null.
   */
  function AnswerFor(correctIndex: JsNumber, options: seq<string>): (r: Option<string>)
    ensures r.Some? <==> correctIndex.Finite? && IsIndex(correctIndex.value, |options|)
    ensures r.Some? ==> r.value == options[correctIndex.value.Floor]
    ensures r.Some? ==> r.value in options
  {
    if correctIndex.Finite? && IsIndex(correctIndex.value, |options|)
    then Some(options[correctIndex.value.Floor])
    else None
  }

  /** The question shown for one database row. */
  function Normalize(q: DbQuestion, parseJson: JsonParser): (r: Question)
    ensures r.id == q.id && r.text == q.text && r.explanation == q.explanation && r.topic == q.topic
    ensures r.options == ToOptions(q.options, parseJson)
    ensures r.answer.Some? ==> r.answer.value in r.options
    ensures r.answer == AnswerFor(q.correctIndex, r.options)
  {
    var options := ToOptions(q.options, parseJson);
    Question(q.id, q.text, options, AnswerFor(q.correctIndex, options), q.explanation, q.topic)
  }

  /** `rows.map(normalize)` */
  function NormalizeAll(rows: seq<DbQuestion>, parseJson: JsonParser): (r: seq<Question>)
    ensures |r| == |rows|
    ensures forall i :: 0 <= i < |rows| ==> r[i] == Normalize(rows[i], parseJson)
  {
    if rows == [] then [] else [Normalize(rows[0], parseJson)] + NormalizeAll(rows[1..], parseJson)
  }

  /** The learner chose a non-empty answer for `q` and it is the correct one. */
  predicate Correct(q: Question, answers: map<string, string>) {
    q.id in answers && answers[q.id] != [] && q.answer == Some(answers[q.id])
  }

  /** A question without a correct answer never counts, whatever was chosen. */
  lemma NullAnswerNeverCounts(q: Question, answers: map<string, string>)
    requires q.answer.None?
    ensures !Correct(q, answers)
  {
  }

  /** The number of correctly answered questions, counted front to back. */
  function CountCorrect(qs: seq<Question>, answers: map<string, string>): (n: nat)
    ensures n <= |qs|
    ensures n == |qs| <==> forall i :: 0 <= i < |qs| ==> Correct(qs[i], answers)
    ensures n == 0 <==> forall i :: 0 <= i < |qs| ==> !Correct(qs[i], answers)
  {
    if qs == [] then 0
    else
      var front := qs[..|qs| - 1];
      var m := CountCorrect(front, answers);
      assert forall i :: 0 <= i < |front| ==> front[i] == qs[i];
      m + (if Correct(qs[|qs| - 1], answers) then 1 else 0)
  }

  /** The `score` memo: `None` until the quiz is submitted. */
  method Score(submitted: bool, questions: seq<Question>, answers: map<string, string>)
    returns (score: Option<nat>)
    ensures score.None? <==> !submitted
    ensures score.Some? ==> score.value == CountCorrect(questions, answers)
  {
    if !submitted {
      return None;
    }
    var s := 0;
    for i := 0 to |questions|
      invariant s == CountCorrect(questions[..i], answers)
    {
      assert questions[..i + 1][..i] == questions[..i];
      var q := questions[i];
      if q.id in answers && answers[q.id] != [] {
        var a := answers[q.id];
        if q.answer.Some? && a == q.answer.value {
          s := s + 1;
        }
      }
    }
    assert questions[..|questions|] == questions;
    return Some(s);
  }

  /** `selectAnswer(qid, v)`: records `v` for `qid` and leaves every other choice as it was. */
  function SelectAnswer(answers: map<string, string>, qid: string, v: string): (r: map<string, string>)
    ensures qid in r && r[qid] == v
    ensures r.Keys == answers.Keys + {qid}
    ensures forall k :: k in answers && k != qid ==> r[k] == answers[k]
  {
    answers[qid := v]
  }

  /** Choosing for an id that is not one of the questions' leaves the count as it was. */
  lemma {:induction false} SelectElsewhere(qs: seq<Question>, answers: map<string, string>, qid: string, v: string)
    requires forall i :: 0 <= i < |qs| ==> qs[i].id != qid
    ensures CountCorrect(qs, SelectAnswer(answers, qid, v)) == CountCorrect(qs, answers)
  {
    if qs != [] {
      var front := qs[..|qs| - 1];
      SelectElsewhere(front, answers, qid, v);
    }
  }

  /** Choosing a question's correct, non-empty answer makes that question count. */
  lemma SelectCorrect(q: Question, answers: map<string, string>)
    requires q.answer.Some? && q.answer.value != []
    ensures Correct(q, SelectAnswer(answers, q.id, q.answer.value))
  {
  }
}
