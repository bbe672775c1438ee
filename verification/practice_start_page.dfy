/**
 * The practice start page: the topic query parameter is trimmed, the
 * question count is read from `n`, defaulted to 10 and clamped to
 * [1, 100], and the quiz is shown only when a topic remains.
 */
module PracticeStart {
  import opened Wrappers
  import opened JsText
  import opened JsModel

  /** The question count: `Math.max(1, Math.min(100, Number(n ?? 10) || 10))`. */
  function ClampCount(n: Option<string>, toNumber: NumberParser): (r: JsNumber)
    ensures r.Finite? && 1.0 <= r.value <= 100.0
    ensures n.None? ==> r == Finite(10.0)
  {
    var raw := if n.None? then Finite(10.0) else toNumber(n.value);
    Max(Finite(1.0), Min(Finite(100.0), Or(raw, Finite(10.0))))
  }

  /** How each converted value comes out of the clamp. */
  lemma ClampCases(s: string, toNumber: NumberParser)
    ensures var x := toNumber(s); var r := ClampCount(Some(s), toNumber);
      && (x.NaN? || x == Finite(0.0) ==> r == Finite(10.0))
      && (x.PosInf? || (x.Finite? && x.value > 100.0) ==> r == Finite(100.0))
      && (x.NegInf? || (x.Finite? && x.value != 0.0 && x.value < 1.0) ==> r == Finite(1.0))
      && (x.Finite? && 1.0 <= x.value <= 100.0 ==> r == x)
  {
  }

  /** What the page renders below its heading. */
  datatype StartView =
    | NoTopic                          // "No topic provided." with a link back
    | Quiz(topic: string, limit: real) // the quiz client for `topic`, `limit` questions

  /** The page for the query parameters `topic` and `n`. */
  function StartPage(topic: Option<string>, n: Option<string>, toNumber: NumberParser): (v: StartView)
    ensures v.NoTopic? <==> AllSpace(topic.GetOr(""))
    ensures v.Quiz? ==> v.topic == Trim(topic.value) && v.topic != [] && IsTrimmed(v.topic)
    ensures v.Quiz? ==> 1.0 <= v.limit <= 100.0 && v.limit == ClampCount(n, toNumber).value
  {
    TrimEmpty(topic.GetOr(""));
    var t := Trim(topic.GetOr(""));
    if t == [] then NoTopic else Quiz(t, ClampCount(n, toNumber).value)
  }

  /** Padding around the topic does not change the page. */
  lemma PaddedTopic(topic: string, n: Option<string>, toNumber: NumberParser)
    ensures StartPage(Some(Trim(topic)), n, toNumber) == StartPage(Some(topic), n, toNumber)
  {
    TrimIdempotent(topic);
  }
}
