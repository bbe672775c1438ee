/**
 * The practice form: the default question count offered by the form, and
 * the address the form navigates to, with both values passed through
 * `encodeURIComponent`.
 */
module PracticeForm {
  import opened Wrappers
  import opened JsText
  import opened JsModel

  // ---------------------------------------------------------------------
  // Form defaults and submission
  // ---------------------------------------------------------------------

  /** `nDefault`: the converted `n` parameter when it is finite and positive, else 10. */
  function CountDefault(n: Option<string>, toNumber: NumberParser): (r: JsNumber)
    ensures r.Finite? && r.value > 0.0
    ensures n.None? ==> r == Finite(10.0)
    ensures n.Some? && toNumber(n.value).Finite? && toNumber(n.value).value > 0.0 ==> r == toNumber(n.value)
    ensures n.Some? && !(toNumber(n.value).Finite? && toNumber(n.value).value > 0.0) ==> r == Finite(10.0)
  {
    var x := if n.None? then Finite(10.0) else toNumber(n.value);
    if x.Finite? && x.value > 0.0 then x else Finite(10.0)
  }

  const StartPath: string := "/practice/start"

  /**
   * `onSubmit`: the address pushed to the router, `None` when the topic
   * field is empty. `topic` and `n` are the form fields, `None` when absent.
   */
  function Submit(topic: Option<string>, n: Option<string>): (r: Option<string>)
    ensures r.None? <==> topic.GetOr("") == []
    ensures r.Some? ==> r.value == StartPath + "?" + Query(topic.value, n.GetOr("10"))
  {
    var t := topic.GetOr("");
    if t == [] then None else Some(StartPath + "?" + Query(t, n.GetOr("10")))
  }

  /** The query string `topic=<enc>&n=<enc>`. */
  function Query(topic: string, n: string): string {
    "topic=" + EncodeUriComponent(topic) + "&n=" + EncodeUriComponent(n)
  }

  /** Whatever the topic and count hold, the query has exactly two parameters, in order. */
  lemma QueryFields(topic: string, n: string)
    ensures SplitOn(Query(topic, n), {'&'}) == ["topic=" + EncodeUriComponent(topic), "n=" + EncodeUriComponent(n)]
  {
    var a := "topic=" + EncodeUriComponent(topic);
    var b := "n=" + EncodeUriComponent(n);
    NoAmpersand("topic=", topic);
    NoAmpersand("n=", n);
    QueryParts(topic, n);
    SplitTwo(a, '&', b, {'&'});
  }

  lemma QueryParts(topic: string, n: string)
    ensures Query(topic, n) == ("topic=" + EncodeUriComponent(topic)) + ['&'] + ("n=" + EncodeUriComponent(n))
  {
  }

  /** A field name followed by an encoded value holds no '&'. */
  lemma NoAmpersand(name: string, s: string)
    requires NoneIn(name, {'&'})
    ensures NoneIn(name + EncodeUriComponent(s), {'&'})
  {
    var e := EncodeUriComponent(s);
    EncodedIsSafe(s);
    forall i | 0 <= i < |name + e| ensures (name + e)[i] !in {'&'} {
      if i >= |name| {
        assert (name + e)[i] == e[i - |name|];
      } else {
        assert (name + e)[i] == name[i];
      }
    }
  }

  // ---------------------------------------------------------------------
  // encodeURIComponent
  // ---------------------------------------------------------------------

  type Byte = b: int | 0 <= b < 256

  /** The characters `encodeURIComponent` leaves as they are. */
  predicate Unreserved(c: char) {
    ('A' <= c <= 'Z') || ('a' <= c <= 'z') || ('0' <= c <= '9') ||
    c in {'-', '_', '.', '!', '~', '*', '\'', '(', ')'}
  }

  /** A character's UTF-8 encoding. */
  function Utf8(c: char): (r: seq<Byte>)
    ensures 1 <= |r| <= 4
    ensures (c as int < 0x80) <==> |r| == 1
    ensures |r| == 1 ==> r[0] == c as int
  {
    var v := c as int;
    if v < 0x80 then [v]
    else if v < 0x800 then [0xC0 + v / 64, 0x80 + v % 64]
    else if v < 0x10000 then [0xE0 + v / 4096, 0x80 + (v / 64) % 64, 0x80 + v % 64]
    else [0xF0 + v / 262144, 0x80 + (v / 4096) % 64, 0x80 + (v / 64) % 64, 0x80 + v % 64]
  }

  /** The UTF-8 encoding of a whole string. */
  function Utf8String(s: string): seq<Byte> {
    if s == [] then [] else Utf8(s[0]) + Utf8String(s[1..])
  }

  function HexDigit(d: int): (c: char)
    requires 0 <= d < 16
    ensures ('0' <= c <= '9') || ('A' <= c <= 'F')
  {
    if d < 10 then ('0' as int + d) as char else ('A' as int + d - 10) as char
  }

  function HexValue(c: char): int {
    if '0' <= c <= '9' then c as int - '0' as int
    else if 'A' <= c <= 'F' then c as int - 'A' as int + 10
    else if 'a' <= c <= 'f' then c as int - 'a' as int + 10
    else 0
  }

  lemma HexDigitValue(d: int)
    requires 0 <= d < 16
    ensures HexValue(HexDigit(d)) == d
  {
  }

  /** `%XX` for one byte, upper-case hexadecimal. */
  function Percent(b: Byte): (r: string)
    ensures |r| == 3 && r[0] == '%'
  {
    ['%', HexDigit(b / 16), HexDigit(b % 16)]
  }

  function PercentAll(bs: seq<Byte>): (r: string)
    ensures |r| == 3 * |bs|
  {
    if bs == [] then "" else Percent(bs[0]) + PercentAll(bs[1..])
  }

  function EncodeChar(c: char): string {
    if Unreserved(c) then [c] else PercentAll(Utf8(c))
  }

  /**
   * `encodeURIComponent(s)`: unreserved characters stay, every other
   * character becomes the `%XX` escapes of its UTF-8 bytes.
   */
  function EncodeUriComponent(s: string): (r: string)
    ensures |r| >= |s|
  {
    if s == [] then "" else EncodeChar(s[0]) + EncodeUriComponent(s[1..])
  }

  /** What an encoded string may contain: unreserved characters, '%' and upper-case hex digits. */
  predicate Safe(c: char) {
    Unreserved(c) || c == '%'
  }

  ghost predicate AllSafe(s: string) {
    forall i :: 0 <= i < |s| ==> Safe(s[i])
  }

  lemma SafeConcat(a: string, b: string)
    requires AllSafe(a) && AllSafe(b)
    ensures AllSafe(a + b)
  {
    forall i | 0 <= i < |a + b| ensures Safe((a + b)[i]) {
      if i < |a| {
        assert (a + b)[i] == a[i];
      } else {
        assert (a + b)[i] == b[i - |a|];
      }
    }
  }

  lemma {:induction false} PercentAllSafe(bs: seq<Byte>)
    ensures AllSafe(PercentAll(bs))
  {
    if bs != [] {
      PercentAllSafe(bs[1..]);
      SafeConcat(Percent(bs[0]), PercentAll(bs[1..]));
    }
  }

  /** The encoding holds no '&', '=', '?', '#', '/', space or any other reserved character. */
  lemma {:induction false} EncodedIsSafe(s: string)
    ensures AllSafe(EncodeUriComponent(s))
  {
    if s != [] {
      EncodedIsSafe(s[1..]);
      if !Unreserved(s[0]) {
        PercentAllSafe(Utf8(s[0]));
      }
      SafeConcat(EncodeChar(s[0]), EncodeUriComponent(s[1..]));
    }
  }

  /**
   * Percent-decoding to bytes: `%XX` gives the byte XX, any other character
   * its own code (the encoder only leaves ASCII characters unescaped).
   */
  function DecodeBytes(t: string): seq<int>
    decreases |t|
  {
    if t == [] then []
    else if t[0] == '%' && |t| >= 3 then [HexValue(t[1]) * 16 + HexValue(t[2])] + DecodeBytes(t[3..])
    else [t[0] as int] + DecodeBytes(t[1..])
  }

  /** One escape decodes back to its byte, whatever follows it. */
  lemma DecodePercent(b: Byte, tail: string)
    ensures DecodeBytes(Percent(b) + tail) == [b] + DecodeBytes(tail)
  {
    var t := Percent(b) + tail;
    assert t[0] == '%' && t[1] == HexDigit(b / 16) && t[2] == HexDigit(b % 16);
    HexDigitValue(b / 16);
    HexDigitValue(b % 16);
    assert t[3..] == tail;
  }

  /** Escaped bytes decode back to themselves, whatever follows them. */
  lemma {:induction false} DecodePercentAll(bs: seq<Byte>, rest: string)
    ensures DecodeBytes(PercentAll(bs) + rest) == bs + DecodeBytes(rest)
  {
    if bs == [] {
      assert PercentAll(bs) + rest == rest;
    } else {
      var tail := PercentAll(bs[1..]) + rest;
      PercentAllSplit(bs, rest);
      DecodePercent(bs[0], tail);
      DecodePercentAll(bs[1..], rest);
      HeadTail(bs, DecodeBytes(rest));
    }
  }

  lemma PercentAllSplit(bs: seq<Byte>, rest: string)
    requires bs != []
    ensures PercentAll(bs) + rest == Percent(bs[0]) + (PercentAll(bs[1..]) + rest)
  {
  }

  lemma HeadTail(bs: seq<Byte>, tail: seq<int>)
    requires bs != []
    ensures [bs[0] as int] + (bs[1..] + tail) == bs + tail
  {
    assert bs == [bs[0]] + bs[1..];
  }

  /** One encoded character decodes to its UTF-8 bytes, whatever follows it. */
  lemma DecodeEncodeChar(c: char, rest: string)
    ensures DecodeBytes(EncodeChar(c) + rest) == Utf8(c) + DecodeBytes(rest)
  {
    if Unreserved(c) {
      assert (EncodeChar(c) + rest)[1..] == rest;
    } else {
      DecodePercentAll(Utf8(c), rest);
    }
  }

  /** Decoding `encodeURIComponent(s)` gives back the UTF-8 bytes of `s`. */
  lemma {:induction false} DecodeEncode(s: string)
    ensures DecodeBytes(EncodeUriComponent(s)) == Utf8String(s)
  {
    if s != [] {
      DecodeEncodeChar(s[0], EncodeUriComponent(s[1..]));
      DecodeEncode(s[1..]);
    }
  }
}
