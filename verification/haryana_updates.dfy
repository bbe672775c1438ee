/**
 * The Haryana news page: RSS feeds are cut into `<item>` blocks, each
 * block's title, link and date are read from its first `<tag>…</tag>`
 * pairs, and each feed contributes at most its first ten items.
 */
module HaryanaUpdates {
  import opened Wrappers
  import opened JsText

  // ---------------------------------------------------------------------
  // Case-insensitive search
  // ---------------------------------------------------------------------

  /**
   * `pat` occurs in `text` at `p`, ignoring the case of ASCII letters. This
   * is how a regular expression with the `i` flag (and no `u` flag)
   * compares an ASCII pattern: its case folding never maps a character
   * outside ASCII onto one inside, so folding ASCII letters alone is exact.
   */
  predicate MatchAt(text: string, p: int, pat: string) {
    0 <= p && p + |pat| <= |text| && SameFolded(text[p..p + |pat|], pat)
  }

  /** `a` and `b` are equal once ASCII letters are lowered, compared front to back. */
  predicate SameFolded(a: string, b: string)
    requires |a| == |b|
  {
    a == [] || (LowerChar(a[0]) == LowerChar(b[0]) && SameFolded(a[1..], b[1..]))
  }

  lemma SameFoldedItself(a: string)
    ensures SameFolded(a, a)
  {
  }

  /** The first position at or after `from` where `pat` occurs, or -1. */
  function Find(text: string, pat: string, from: nat): (r: int)
    ensures r == -1 || (from <= r && r + |pat| <= |text|)
    decreases |text| - from
  {
    if from + |pat| > |text| then -1
    else if MatchAt(text, from, pat) then from
    else Find(text, pat, from + 1)
  }

  /** `Find` gives the first occurrence: there is none before it, and none at all when it gives -1. */
  lemma {:induction false} FindIsFirst(text: string, pat: string, from: nat)
    ensures Find(text, pat, from) >= 0 ==> MatchAt(text, Find(text, pat, from), pat)
    ensures Find(text, pat, from) == -1 ==> forall p :: from <= p ==> !MatchAt(text, p, pat)
    ensures Find(text, pat, from) >= 0 ==> forall p :: from <= p < Find(text, pat, from) ==> !MatchAt(text, p, pat)
    decreases |text| - from
  {
    if from + |pat| <= |text| && !MatchAt(text, from, pat) {
      FindIsFirst(text, pat, from + 1);
    }
  }

  function OpenTag(tag: string): string { "<" + tag + ">" }

  function CloseTag(tag: string): string { "</" + tag + ">" }

  /** Some `<tag>` is followed, at or after its end, by a `</tag>`. */
  ghost predicate HasPair(text: string, open: string, close: string) {
    exists p, q :: MatchAt(text, p, open) && p + |open| <= q && MatchAt(text, q, close)
  }

  /**
   * `open` first occurs at `p`, and `q` is the nearest occurrence of
   * `close` at or after the end of that `open`.
   */
  ghost predicate FirstPair(text: string, open: string, close: string, p: int, q: int) {
    && MatchAt(text, p, open) && (forall k :: 0 <= k < p ==> !MatchAt(text, k, open))
    && p + |open| <= q && MatchAt(text, q, close)
    && (forall k :: p + |open| <= k < q ==> !MatchAt(text, k, close))
  }

  /**
   * Where `pick(text, tag)` reads: from the end of the first `<tag>` to the
   * nearest `</tag>` after it; `None` when there is no such pair.
   */
  function PickSpan(text: string, tag: string): (r: Option<(nat, nat)>)
    ensures r.Some? ==> r.value.0 <= r.value.1 <= |text|
  {
    var open := OpenTag(tag);
    var close := CloseTag(tag);
    var p := Find(text, open, 0);
    if p < 0 then None
    else
      var q := Find(text, close, p + |open|);
      if q < 0 then None else Some((p + |open|, q))
  }

  /** `pick(text, tag)`: the text of its span, trimmed; `None` (null) when there is none. */
  function Pick(text: string, tag: string): (r: Option<string>)
    ensures r.None? <==> PickSpan(text, tag).None?
    ensures r.Some? ==> IsTrimmed(r.value)
    ensures r.Some? ==> r.value == Trim(text[PickSpan(text, tag).value.0..PickSpan(text, tag).value.1])
  {
    var span := PickSpan(text, tag);
    if span.None? then None else Some(Trim(text[span.value.0..span.value.1]))
  }

  /** `pick` gives null exactly when no `<tag>` is followed by a `</tag>`. */
  lemma PickNone(text: string, tag: string)
    ensures PickSpan(text, tag).None? <==> !HasPair(text, OpenTag(tag), CloseTag(tag))
  {
    var open := OpenTag(tag);
    var close := CloseTag(tag);
    var p := Find(text, open, 0);
    FindIsFirst(text, open, 0);
    if p >= 0 {
      var q := Find(text, close, p + |open|);
      FindIsFirst(text, close, p + |open|);
      if q < 0 {
        forall p', q' | MatchAt(text, p', open) && p' + |open| <= q'
          ensures !MatchAt(text, q', close)
        {
          assert p <= p';
        }
      } else {
        assert MatchAt(text, p, open) && p + |open| <= q && MatchAt(text, q, close);
      }
    }
  }

  /** The pair `pick` reads is the first `<tag>` and the nearest `</tag>` after it. */
  lemma PickReadsFirstPair(text: string, tag: string, p: int, q: int)
    requires FirstPair(text, OpenTag(tag), CloseTag(tag), p, q)
    ensures PickSpan(text, tag) == Some((p + |OpenTag(tag)|, q))
  {
    var open := OpenTag(tag);
    var close := CloseTag(tag);
    FindAt(text, open, 0, p);
    FindAt(text, close, p + |open|, q);
  }

  /** An occurrence with none before it, from `from` on, is the one `Find` gives. */
  lemma FindAt(text: string, pat: string, from: nat, p: int)
    requires from <= p && MatchAt(text, p, pat)
    requires forall k :: from <= k < p ==> !MatchAt(text, k, pat)
    ensures Find(text, pat, from) == p
  {
    FindIsFirst(text, pat, from);
  }

  // ---------------------------------------------------------------------
  // Item blocks
  // ---------------------------------------------------------------------

  const ItemOpen: string := "<item>"
  const ItemClose: string := "</item>"

  /**
   * Where the next `<item>…</item>` block lies from `from` on: the first
   * `<item>` and the nearest `</item>` after it.
   */
  function NextItem(xml: string, from: nat): (r: Option<(nat, nat)>)
    ensures r.Some? ==> from <= r.value.0 && r.value.0 + |ItemOpen| <= r.value.1 && r.value.1 + |ItemClose| <= |xml|
  {
    var p := Find(xml, ItemOpen, from);
    if p < 0 then None
    else
      var q := Find(xml, ItemClose, p + |ItemOpen|);
      if q < 0 then None else Some((p, q))
  }

  /**
   * The bodies of the `<item>…</item>` blocks found from `from` on, as a
   * global regular expression finds them one after another: each search
   * resumes after the previous block's closing tag.
   */
  function ItemsFrom(xml: string, from: nat): seq<string>
    decreases |xml| - from
  {
    var m := NextItem(xml, from);
    if m.None? then []
    else [xml[m.value.0 + |ItemOpen|..m.value.1]] + ItemsFrom(xml, m.value.1 + |ItemClose|)
  }

  /** `items(xml)`: the `exec` loop, each `exec` finding the next block from `lastIndex` on. */
  method Items(xml: string) returns (out: seq<string>)
    ensures out == ItemsFrom(xml, 0)
  {
    out := [];
    var lastIndex := 0;
    while true
      invariant out + ItemsFrom(xml, lastIndex) == ItemsFrom(xml, 0)
      decreases |xml| - lastIndex
    {
      var m := NextItem(xml, lastIndex);
      if m.None? {
        break;
      }
      var p := m.value.0;
      var q := m.value.1;
      var body := xml[p + |ItemOpen|..q];
      ghost var rest := ItemsFrom(xml, q + |ItemClose|);
      ItemsUnfold(xml, lastIndex);
      Assoc(out, [body], rest);
      out := out + [body];
      lastIndex := q + |ItemClose|;
    }
    ItemsUnfold(xml, lastIndex);
    assert out + [] == out;
  }

  /** A text in which no `</item>` starts anywhere. */
  ghost predicate Unclosed(body: string) {
    forall k :: !MatchAt(body, k, ItemClose)
  }

  /** No item body contains a closing `</item>`. */
  lemma {:induction false} ItemBodiesUnclosed(xml: string, from: nat)
    ensures forall i :: 0 <= i < |ItemsFrom(xml, from)| ==> Unclosed(ItemsFrom(xml, from)[i])
    decreases |xml| - from
  {
    var next := NextItem(xml, from);
    if next.Some? {
      var p := next.value.0;
      var q := next.value.1;
      ItemsStepAt(xml, from, p, q, xml[p + |ItemOpen|..q]);
      BodyUnclosed(xml, p + |ItemOpen|, q);
      ItemBodiesUnclosed(xml, q + |ItemClose|);
      AllUnclosed(ItemsFrom(xml, from), xml[p + |ItemOpen|..q], ItemsFrom(xml, q + |ItemClose|));
    } else {
      ItemsUnfold(xml, from);
    }
  }

  lemma AllUnclosed(items: seq<string>, first: string, rest: seq<string>)
    requires items == [first] + rest && Unclosed(first)
    requires forall i :: 0 <= i < |rest| ==> Unclosed(rest[i])
    ensures forall i :: 0 <= i < |items| ==> Unclosed(items[i])
  {
    forall i | 0 <= i < |items| ensures Unclosed(items[i]) {
      if i > 0 {
        assert items[i] == rest[i - 1];
      }
    }
  }

  /** The text up to the nearest `</item>` contains no `</item>`. */
  lemma BodyUnclosed(xml: string, start: nat, q: int)
    requires q == Find(xml, ItemClose, start) && q >= 0
    ensures Unclosed(xml[start..q])
  {
    FindIsFirst(xml, ItemClose, start);
    var body := xml[start..q];
    forall k | MatchAt(body, k, ItemClose) ensures false {
      assert body[k..k + |ItemClose|] == xml[start + k..start + k + |ItemClose|];
      assert MatchAt(xml, start + k, ItemClose);
    }
  }

  /** Lowering never produces '<' from another character. */
  lemma LowerCharAngle(c: char)
    ensures LowerChar(c) == '<' <==> c == '<'
  {
    if 'A' <= c <= 'Z' {
      assert 'a' <= LowerChar(c) <= 'z';
    }
  }

  lemma ItemsUnfold(xml: string, from: nat)
    ensures NextItem(xml, from).None? ==> ItemsFrom(xml, from) == []
    ensures NextItem(xml, from).Some? ==>
      ItemsFrom(xml, from) ==
        [xml[NextItem(xml, from).value.0 + |ItemOpen|..NextItem(xml, from).value.1]] +
        ItemsFrom(xml, NextItem(xml, from).value.1 + |ItemClose|)
  {
  }

  /** Two texts that differ, after folding, at one position are not the same folded. */
  lemma {:induction false} FoldDiffers(a: string, b: string, i: nat)
    requires |a| == |b| && i < |a| && LowerChar(a[i]) != LowerChar(b[i])
    ensures !SameFolded(a, b)
    decreases i
  {
    if i > 0 && LowerChar(a[0]) == LowerChar(b[0]) {
      FoldDiffers(a[1..], b[1..], i - 1);
    }
  }

  /**
   * No `</item>` starts before a `</item>` at `c` when the text from
   * `start` to `c` holds none: one that began in that stretch and ran
   * past `c` would need a second '<' in the closing tag, which has its
   * only '<' in front.
   */
  lemma NoCloseBefore(w: string, start: nat, c: nat, k: nat)
    requires start <= k < c && c + |ItemClose| <= |w| && w[c..c + |ItemClose|] == ItemClose
    requires Unclosed(w[start..c])
    ensures !MatchAt(w, k, ItemClose)
  {
    if k + |ItemClose| <= c {
      SliceOfSlice(w, start, c, k - start, k - start + |ItemClose|);
      assert !MatchAt(w[start..c], k - start, ItemClose);
    } else if k + |ItemClose| <= |w| {
      var d := c - k;
      assert w[k..k + |ItemClose|][d] == w[c] == '<';
      assert ItemClose[d] != '<';
      LowerCharAngle(ItemClose[d]);
      FoldDiffers(w[k..k + |ItemClose|], ItemClose, d);
    }
  }

  lemma SliceOfSlice(w: string, i: nat, j: nat, a: nat, b: nat)
    requires i <= j <= |w| && a <= b <= j - i
    ensures w[i..j][a..b] == w[i + a..i + b]
  {
    forall m | 0 <= m < b - a ensures w[i..j][a..b][m] == w[i + a..i + b][m] {
      assert w[i..j][a..b][m] == w[i..j][a + m] == w[i + a + m];
    }
  }

  /** The nearest `</item>` from `start` on is the one at `c` when the text between holds none. */
  lemma CloseSkips(w: string, start: nat, c: nat)
    requires start <= c && c + |ItemClose| <= |w| && w[c..c + |ItemClose|] == ItemClose
    requires Unclosed(w[start..c])
    ensures Find(w, ItemClose, start) == c
  {
    FoundHere(w, c, ItemClose);
    forall k | start <= k < c ensures !MatchAt(w, k, ItemClose) {
      NoCloseBefore(w, start, c, k);
    }
    FindAt(w, ItemClose, start, c);
  }

  /** A feed body made of item blocks. */
  function Wrap(bodies: seq<string>): string {
    if bodies == [] then "" else ItemOpen + bodies[0] + ItemClose + Wrap(bodies[1..])
  }

  /** A block that starts at `o` and whose body holds no `</item>` is the next one read. */
  lemma BlockFound(w: string, o: nat, b: string)
    requires Unclosed(b)
    requires o + |ItemOpen| + |b| + |ItemClose| <= |w|
    requires w[o..o + |ItemOpen|] == ItemOpen
    requires w[o + |ItemOpen|..o + |ItemOpen| + |b|] == b
    requires w[o + |ItemOpen| + |b|..o + |ItemOpen| + |b| + |ItemClose|] == ItemClose
    ensures NextItem(w, o) == Some((o, o + |ItemOpen| + |b|))
  {
    var c := o + |ItemOpen| + |b|;
    FoundHere(w, o, ItemOpen);
    FoundHere(w, c, ItemClose);
    CloseSkips(w, o + |ItemOpen|, c);
    NextItemAt(w, o, o, c);
  }

  lemma NextItemAt(xml: string, from: nat, p: nat, q: nat)
    requires Find(xml, ItemOpen, from) == p && Find(xml, ItemClose, p + |ItemOpen|) == q
    ensures NextItem(xml, from) == Some((p, q))
  {
  }

  lemma ItemsStepAt(xml: string, from: nat, p: nat, q: nat, body: string)
    requires NextItem(xml, from) == Some((p, q)) && body == xml[p + |ItemOpen|..q]
    ensures ItemsFrom(xml, from) == [body] + ItemsFrom(xml, q + |ItemClose|)
  {
  }

  /** A pattern written out at `o` is found there. */
  lemma FoundHere(w: string, o: nat, pat: string)
    requires o + |pat| <= |w| && w[o..o + |pat|] == pat
    ensures MatchAt(w, o, pat) && Find(w, pat, o) == o
  {
    SameFoldedItself(pat);
  }

  /** Where the first block of `Wrap(bodies)` lies, when it is found at `o` in `w`. */
  lemma WrapPieces(w: string, o: nat, bodies: seq<string>)
    requires bodies != [] && o <= |w| && w[o..] == Wrap(bodies)
    ensures
      var b := bodies[0];
      && o + |ItemOpen| + |b| + |ItemClose| <= |w|
      && w[o..o + |ItemOpen|] == ItemOpen
      && w[o + |ItemOpen|..o + |ItemOpen| + |b|] == b
      && w[o + |ItemOpen| + |b|..o + |ItemOpen| + |b| + |ItemClose|] == ItemClose
      && w[o + |ItemOpen| + |b| + |ItemClose|..] == Wrap(bodies[1..])
  {
    var b := bodies[0];
    Split4(w[o..], ItemOpen, b, ItemClose, Wrap(bodies[1..]));
    Suffix(w, o, 0, |ItemOpen|);
    Suffix(w, o, |ItemOpen|, |ItemOpen| + |b|);
    Suffix(w, o, |ItemOpen| + |b|, |ItemOpen| + |b| + |ItemClose|);
    Suffix(w, o, |ItemOpen| + |b| + |ItemClose|, |w| - o);
  }

  lemma Split4(t: string, a: string, b: string, c: string, d: string)
    requires t == a + b + c + d
    ensures t[..|a|] == a && t[|a|..|a| + |b|] == b && t[|a| + |b|..|a| + |b| + |c|] == c
    ensures t[|a| + |b| + |c|..] == d
  {
  }

  lemma Suffix(w: string, o: nat, i: nat, j: nat)
    requires o <= |w| && i <= j <= |w| - o
    ensures w[o..][i..j] == w[o + i..o + j]
    ensures j == |w| - o ==> w[o..][i..] == w[o + i..]
  {
  }

  /** Item blocks found from `o` on in text that continues with them are read back one for one. */
  lemma {:induction false} WrappedItems(w: string, o: nat, bodies: seq<string>)
    requires forall i :: 0 <= i < |bodies| ==> Unclosed(bodies[i])
    requires o <= |w| && w[o..] == Wrap(bodies)
    ensures ItemsFrom(w, o) == bodies
    decreases |bodies|
  {
    if bodies == [] {
      assert |w| == o;
      assert Find(w, ItemOpen, o) == -1;
      ItemsUnfold(w, o);
    } else {
      var b := bodies[0];
      WrapPieces(w, o, bodies);
      BlockFound(w, o, b);
      ItemsStepAt(w, o, o, o + |ItemOpen| + |b|, b);
      WrappedItems(w, o + |ItemOpen| + |b| + |ItemClose|, bodies[1..]);
      assert [b] + bodies[1..] == bodies;
    }
  }

  /**
   * Bodies that hold no `</item>` (any markup else, `<title>` and nested
   * `<item>` included) are read back from their item blocks, one for one
   * and in order.
   */
  lemma ItemsRoundTrip(bodies: seq<string>)
    requires forall i :: 0 <= i < |bodies| ==> Unclosed(bodies[i])
    ensures ItemsFrom(Wrap(bodies), 0) == bodies
  {
    var w := Wrap(bodies);
    assert w[0..] == w;
    WrappedItems(w, 0, bodies);
  }

  /** The round trip holds exactly for bodies without a `</item>`, since no body read ever has one. */
  lemma ItemsRoundTripExactly(bodies: seq<string>)
    ensures ItemsFrom(Wrap(bodies), 0) == bodies <==> forall i :: 0 <= i < |bodies| ==> Unclosed(bodies[i])
  {
    ItemBodiesUnclosed(Wrap(bodies), 0);
    if forall i :: 0 <= i < |bodies| ==> Unclosed(bodies[i]) {
      ItemsRoundTrip(bodies);
    }
  }

  // ---------------------------------------------------------------------
  // Item fields
  // ---------------------------------------------------------------------

  const CdataOpen: string := "<![CDATA["
  const CdataClose: string := "]]>"

  /** `s.replace(/<!\[CDATA\[|\]\]>/g, "")`: every marker removed, scanning left to right. */
  function StripCdata(s: string): (r: string)
    ensures |r| <= |s|
    decreases |s|
  {
    if s == [] then ""
    else if StartsWith(s, CdataOpen) then StripCdata(s[|CdataOpen|..])
    else if StartsWith(s, CdataClose) then StripCdata(s[|CdataClose|..])
    else [s[0]] + StripCdata(s[1..])
  }

  /** A leading `<![CDATA[` is dropped, whatever follows it. */
  lemma StripOpenMarker(t: string)
    ensures StripCdata(CdataOpen + t) == StripCdata(t)
  {
    var s := CdataOpen + t;
    assert s[..|CdataOpen|] == CdataOpen;
    assert s[|CdataOpen|..] == t;
  }

  /** A leading `]]>` is dropped, whatever follows it. */
  lemma StripCloseMarker(t: string)
    ensures StripCdata(CdataClose + t) == StripCdata(t)
  {
    var s := CdataClose + t;
    assert !StartsWith(s, CdataOpen) by {
      if |CdataOpen| <= |s| {
        assert s[..|CdataOpen|][0] == ']';
      }
    }
    assert s[..|CdataClose|] == CdataClose;
    assert s[|CdataClose|..] == t;
  }

  /** Neither marker starts at position `i` of `s`. */
  predicate NoMarkerAt(s: string, i: nat)
    requires i <= |s|
  {
    !StartsWith(s[i..], CdataOpen) && !StartsWith(s[i..], CdataClose)
  }

  /** `t` holds no complete `<![CDATA[` or `]]>`. */
  predicate MarkerFree(t: string) {
    forall i :: 0 <= i <= |t| ==> NoMarkerAt(t, i)
  }

  /** The first `n` characters, where no marker starts, pass through unchanged. */
  lemma {:induction false} StripPrefixPlain(s: string, n: nat)
    requires n <= |s|
    requires forall i :: 0 <= i < n ==> NoMarkerAt(s, i)
    ensures StripCdata(s) == s[..n] + StripCdata(s[n..])
  {
    if n == 0 {
      assert s[..0] == [] && s[0..] == s;
    } else {
      StripStep(s);
      NoMarkerShift(s, n);
      StripPrefixPlain(s[1..], n - 1);
      PrefixAgain(s, n, StripCdata(s[n..]));
    }
  }

  lemma StripStep(s: string)
    requires s != [] && NoMarkerAt(s, 0)
    ensures StripCdata(s) == [s[0]] + StripCdata(s[1..])
  {
    assert s[0..] == s;
  }

  lemma NoMarkerShift(s: string, n: nat)
    requires 0 < n <= |s|
    requires forall i :: 0 <= i < n ==> NoMarkerAt(s, i)
    ensures forall i :: 0 <= i < n - 1 ==> NoMarkerAt(s[1..], i)
  {
    forall i | 0 <= i < n - 1 ensures NoMarkerAt(s[1..], i) {
      assert NoMarkerAt(s, i + 1);
      assert s[1..][i..] == s[i + 1..];
    }
  }

  lemma PrefixAgain(s: string, n: nat, v: string)
    requires 0 < n <= |s|
    ensures [s[0]] + (s[1..][..n - 1] + v) == s[..n] + v
    ensures s[1..][n - 1..] == s[n..]
  {
    assert [s[0]] + s[1..][..n - 1] == s[..n];
  }

  /**
   * Where `t` holds no marker, none starts inside `t` once `]]>` follows
   * it either: a `]]>` or `<![CDATA[` running past the end of `t` would
   * need a `>` or a `[` where `]]>` has a `]`.
   */
  lemma CloseAfterFree(t: string, i: nat)
    requires MarkerFree(t) && i < |t|
    ensures NoMarkerAt(t + CdataClose, i)
  {
    var s := t + CdataClose;
    assert NoMarkerAt(t, i);
    if |CdataOpen| <= |s| - i {
      if i + |CdataOpen| <= |t| {
        assert s[i..][..|CdataOpen|] == t[i..][..|CdataOpen|];
      } else {
        assert s[i..][..|CdataOpen|][8] == CdataClose[i + 8 - |t|] != CdataOpen[8];
      }
    }
    if |CdataClose| <= |s| - i {
      if i + |CdataClose| <= |t| {
        assert s[i..][..|CdataClose|] == t[i..][..|CdataClose|];
      } else {
        assert s[i..][..|CdataClose|][2] == CdataClose[i + 2 - |t|] != CdataClose[2];
      }
    }
  }

  /** A first character that starts no marker is kept. */
  lemma StripKeeps(s: string)
    requires s != [] && s[0] != '<' && s[0] != ']'
    ensures StripCdata(s) == [s[0]] + StripCdata(s[1..])
  {
    assert !StartsWith(s, CdataOpen) by {
      if |CdataOpen| <= |s| {
        assert s[..|CdataOpen|][0] == s[0];
      }
    }
    assert !StartsWith(s, CdataClose) by {
      if |CdataClose| <= |s| {
        assert s[..|CdataClose|][0] == s[0];
      }
    }
  }

  /** Text without '<' or ']' passes through unchanged, and what follows it is stripped as before. */
  lemma {:induction false} StripPlain(t: string, u: string)
    requires '<' !in t && ']' !in t
    ensures StripCdata(t + u) == t + StripCdata(u)
  {
    if t != [] {
      StripFirst(t, u);
      StripPlain(t[1..], u);
      ConsAgain(t, StripCdata(u));
    } else {
      assert t + u == u;
    }
  }

  lemma ConsAgain(t: string, v: string)
    requires t != []
    ensures [t[0]] + (t[1..] + v) == t + v
  {
    assert t == [t[0]] + t[1..];
  }

  lemma StripFirst(t: string, u: string)
    requires t != [] && '<' !in t && ']' !in t
    ensures StripCdata(t + u) == [t[0]] + StripCdata(t[1..] + u)
  {
    assert t[0] in t;
    assert (t + u)[0] == t[0];
    StripKeeps(t + u);
    assert (t + u)[1..] == t[1..] + u;
  }

  /** The text of a CDATA section that holds no marker itself comes out as it was written. */
  lemma CdataRoundTrip(t: string)
    requires MarkerFree(t)
    ensures StripCdata(CdataOpen + t + CdataClose) == t
  {
    var u := t + CdataClose;
    assert CdataOpen + t + CdataClose == CdataOpen + u;
    StripOpenMarker(u);
    forall i | 0 <= i < |t| ensures NoMarkerAt(u, i) {
      CloseAfterFree(t, i);
    }
    StripPrefixPlain(u, |t|);
    assert u[..|t|] == t && u[|t|..] == CdataClose + "";
    StripCloseMarker("");
    assert t + "" == t;
  }

  /**
   * A marker can also form across a join: "]]" holds no marker, but
   * followed by ">" it is removed.
   */
  lemma MarkerAcrossJoin()
    ensures MarkerFree("]]") && StripCdata("]]" + ">") == ""
  {
    assert "]]" + ">" == CdataClose + "";
    StripCloseMarker("");
    forall i | 0 <= i <= 2 ensures NoMarkerAt("]]", i) {
    }
  }

  /** `a || b`, for optional strings. */
  function OrElse(a: Option<string>, b: Option<string>): (r: Option<string>)
    ensures a.Some? && a.value != [] ==> r == a
    ensures !(a.Some? && a.value != []) ==> r == b
  {
    if a.Some? && a.value != [] then a else b
  }

  /** A news item as the page lists it; the picture is not part of this model. */
  datatype FeedItem = FeedItem(title: string, link: string, pubDate: Option<string>, source: string)

  /** The optional text is there and not empty: `a || …` takes it. */
  predicate Filled(a: Option<string>) {
    a.Some? && a.value != []
  }

  /** The title: the `title` body without CDATA markers, trimmed; "" when missing. */
  function Title(it: string): (r: string)
    ensures IsTrimmed(r)
    ensures Pick(it, "title").None? ==> r == ""
    ensures Pick(it, "title").Some? ==> r == Trim(StripCdata(Pick(it, "title").value))
  {
    Trim(StripCdata(Pick(it, "title").GetOr("")))
  }

  /** The link: the first non-empty of the `link` and `guid` bodies, without CDATA markers, trimmed. */
  function Link(it: string): (r: string)
    ensures IsTrimmed(r)
    ensures Pick(it, "link").None? && Pick(it, "guid").None? ==> r == ""
    ensures Filled(Pick(it, "link")) ==> r == Trim(StripCdata(Pick(it, "link").value))
    ensures !Filled(Pick(it, "link")) && Pick(it, "guid").Some? ==> r == Trim(StripCdata(Pick(it, "guid").value))
    ensures !Filled(Pick(it, "link")) && Pick(it, "guid").None? ==> r == ""
  {
    Trim(StripCdata(OrElse(Pick(it, "link"), Pick(it, "guid")).GetOr("")))
  }

  /** The date: the first non-empty of the `pubDate`, `updated` and `dc:date` bodies; `None` otherwise. */
  function PubDate(it: string): (r: Option<string>)
    ensures r.Some? ==> r.value != [] && IsTrimmed(r.value)
    ensures r.Some? ==> r == Pick(it, "pubDate") || r == Pick(it, "updated") || r == Pick(it, "dc:date")
    ensures Pick(it, "pubDate").Some? && Pick(it, "pubDate").value != [] ==> r == Pick(it, "pubDate")
    ensures !Filled(Pick(it, "pubDate")) && Filled(Pick(it, "updated")) ==> r == Pick(it, "updated")
    ensures !Filled(Pick(it, "pubDate")) && !Filled(Pick(it, "updated")) && Filled(Pick(it, "dc:date")) ==>
      r == Pick(it, "dc:date")
    ensures r.None? <==> !Filled(Pick(it, "pubDate")) && !Filled(Pick(it, "updated")) && !Filled(Pick(it, "dc:date"))
  {
    var d := OrElse(Pick(it, "pubDate"), OrElse(Pick(it, "updated"), Pick(it, "dc:date")));
    if d.Some? && d.value != [] then d else None
  }

  /** The items of one feed's text, in document order. */
  function FeedItems(xml: string, source: string): (r: seq<FeedItem>)
    ensures |r| == |ItemsFrom(xml, 0)|
    ensures forall i :: 0 <= i < |r| ==> r[i].source == source && r[i].title == Title(ItemsFrom(xml, 0)[i])
    ensures forall i :: 0 <= i < |r| ==> r[i].link == Link(ItemsFrom(xml, 0)[i]) && r[i].pubDate == PubDate(ItemsFrom(xml, 0)[i])
  {
    var nodes := ItemsFrom(xml, 0);
    seq(|nodes|, i requires 0 <= i < |nodes| =>
      FeedItem(Title(nodes[i]), Link(nodes[i]), PubDate(nodes[i]), source))
  }

  // ---------------------------------------------------------------------
  // Feeds
  // ---------------------------------------------------------------------

  /** A feed's source name and its text, `None` when fetching it failed. */
  datatype Feed = Feed(source: string, xml: Option<string>)

  /** `items.slice(0, 10)` of one feed; a feed that failed contributes nothing. */
  function TopItems(f: Feed): (r: seq<FeedItem>)
    ensures |r| <= 10
    ensures f.xml.None? ==> r == []
    ensures f.xml.Some? ==> r == FeedItems(f.xml.value, f.source)[..if |FeedItems(f.xml.value, f.source)| < 10 then |FeedItems(f.xml.value, f.source)| else 10]
  {
    match f.xml
    case None => []
    case Some(xml) =>
      var all := FeedItems(xml, f.source);
      if |all| < 10 then all else all[..10]
  }

  /** All feeds' top items, feed after feed (before sorting by date). */
  function Collect(feeds: seq<Feed>): (r: seq<FeedItem>)
    ensures |r| <= 10 * |feeds|
  {
    if feeds == [] then [] else TopItems(feeds[0]) + Collect(feeds[1..])
  }

  /** One feed contributes its top items. */
  lemma CollectOne(f: Feed)
    ensures Collect([f]) == TopItems(f)
  {
    assert [f][1..] == [];
    assert TopItems(f) + [] == TopItems(f);
  }

  /** Feeds are collected one after another: the items of earlier feeds come first. */
  lemma {:induction false} CollectAppend(a: seq<Feed>, b: seq<Feed>)
    ensures Collect(a + b) == Collect(a) + Collect(b)
  {
    if a == [] {
      assert a + b == b;
    } else {
      assert (a + b)[0] == a[0];
      assert (a + b)[1..] == a[1..] + b;
      CollectAppend(a[1..], b);
      Assoc(TopItems(a[0]), Collect(a[1..]), Collect(b));
    }
  }

  /** `source` names one of the feeds, and that feed was fetched. */
  ghost predicate FetchedSource(feeds: seq<Feed>, source: string) {
    exists j :: 0 <= j < |feeds| && feeds[j].xml.Some? && feeds[j].source == source
  }

  /** Every collected item comes from one of the feeds and carries its source name. */
  lemma {:induction false} CollectSources(feeds: seq<Feed>)
    ensures forall i :: 0 <= i < |Collect(feeds)| ==> FetchedSource(feeds, Collect(feeds)[i].source)
  {
    if feeds != [] {
      CollectSources(feeds[1..]);
      var top := TopItems(feeds[0]);
      var rest := Collect(feeds[1..]);
      assert Collect(feeds) == top + rest;
      forall i | 0 <= i < |Collect(feeds)| ensures FetchedSource(feeds, Collect(feeds)[i].source) {
        if i < |top| {
          TopSource(feeds[0], i);
          assert Collect(feeds)[i] == top[i];
        } else {
          assert Collect(feeds)[i] == rest[i - |top|];
          SourceInTail(feeds, rest[i - |top|].source);
        }
      }
    }
  }

  /** Items of one feed carry its name, and a feed that failed has none. */
  lemma TopSource(f: Feed, i: nat)
    requires i < |TopItems(f)|
    ensures f.xml.Some? && TopItems(f)[i].source == f.source
  {
  }

  lemma SourceInTail(feeds: seq<Feed>, source: string)
    requires feeds != [] && FetchedSource(feeds[1..], source)
    ensures FetchedSource(feeds, source)
  {
    var j :| 0 <= j < |feeds[1..]| && feeds[1..][j].xml.Some? && feeds[1..][j].source == source;
    assert feeds[j + 1] == feeds[1..][j];
  }
}
