/**
 * The JavaScript string operations the application code relies on:
 * `trim`, `toLowerCase` (ASCII letters), `split` on one character or on a
 * one-character regex class, `join`, `startsWith`, `indexOf`,
 * `filter(Boolean)` over strings and `split(/\r?\n/)`.
 */
module JsText {

  /** The WhiteSpace and LineTerminator code points of ECMA-262: what `trim` removes. */
  predicate IsSpace(c: char) {
    c == '\t' || c == '\n' || c == '\U{B}' || c == '\U{C}' || c == '\r' || c == ' '
    || c == '\U{A0}' || c == '\U{1680}' || ('\U{2000}' <= c <= '\U{200A}')
    || c == '\U{2028}' || c == '\U{2029}' || c == '\U{202F}' || c == '\U{205F}'
    || c == '\U{3000}' || c == '\U{FEFF}'
  }

  predicate AllSpace(s: string) {
    forall i :: 0 <= i < |s| ==> IsSpace(s[i])
  }

  /** No white space at either end. */
  predicate IsTrimmed(s: string) {
    s == [] || (!IsSpace(s[0]) && !IsSpace(s[|s| - 1]))
  }

  function TrimStart(s: string): (r: string)
    ensures |r| <= |s| && r == s[|s| - |r|..]
    ensures r == [] || !IsSpace(r[0])
  {
    if s != [] && IsSpace(s[0]) then TrimStart(s[1..]) else s
  }

  /** What `TrimStart` drops is white space. */
  lemma {:induction false} TrimStartDrops(s: string)
    ensures AllSpace(s[..|s| - |TrimStart(s)|])
  {
    if s != [] && IsSpace(s[0]) {
      TrimStartDrops(s[1..]);
      var n := |s| - |TrimStart(s)|;
      forall i | 0 <= i < n ensures IsSpace(s[i]) {
        if i > 0 {
          assert s[i] == s[1..][..n - 1][i - 1];
        }
      }
    }
  }

  function TrimEnd(s: string): (r: string)
    ensures |r| <= |s| && r == s[..|r|]
    ensures r == [] || !IsSpace(r[|r| - 1])
  {
    if s != [] && IsSpace(s[|s| - 1]) then TrimEnd(s[..|s| - 1]) else s
  }

  /** What `TrimEnd` drops is white space. */
  lemma {:induction false} TrimEndDrops(s: string)
    ensures AllSpace(s[|TrimEnd(s)|..])
  {
    if s != [] && IsSpace(s[|s| - 1]) {
      var u := s[..|s| - 1];
      TrimEndDrops(u);
      var m := |TrimEnd(s)|;
      forall i | m <= i < |s| ensures IsSpace(s[i]) {
        if i < |s| - 1 {
          assert s[i] == u[m..][i - m];
        }
      }
    }
  }

  /** `s` is `r` with white space, and nothing else, added before and after it. */
  ghost predicate PaddedBy(s: string, r: string) {
    exists i, j :: 0 <= i <= j <= |s| && r == s[i..j] && AllSpace(s[..i]) && AllSpace(s[j..])
  }

  /**
   * `s.trim()`: neither starting nor ending with white space. `TrimPadding`
   * and `TrimAround` state which text it is.
   */
  function Trim(s: string): (r: string)
    ensures IsTrimmed(r) && |r| <= |s|
  {
    var t := TrimStart(s);
    var r := TrimEnd(t);
    assert r != [] ==> r[0] == t[0];
    r
  }

  /** Trimming removes white space before and after the text, and nothing else. */
  lemma TrimPadding(s: string)
    ensures PaddedBy(s, Trim(s))
  {
    var t := TrimStart(s);
    var r := TrimEnd(t);
    var i := |s| - |t|;
    TrimStartDrops(s);
    TrimEndDrops(t);
    SpanOfSuffix(s, i, |r|);
    assert s[i..i + |r|] == r;
  }

  lemma SpanOfSuffix(s: string, i: nat, n: nat)
    requires i + n <= |s|
    ensures s[i..i + n] == s[i..][..n] && s[i + n..] == s[i..][n..]
  {
  }

  /** Trimming undoes white-space padding around a trimmed text. */
  lemma TrimAround(a: string, m: string, b: string)
    requires AllSpace(a) && AllSpace(b) && IsTrimmed(m)
    ensures Trim(a + m + b) == m
  {
    if m == [] {
      AllSpaceJoin(a, b);
      assert a + m + b == a + b;
      TrimEmpty(a + b);
    } else {
      assert a + m + b == a + (m + b);
      TrimStartPadded(a, m + b);
      TrimEndPadded(m, b);
    }
  }

  lemma AllSpaceJoin(a: string, b: string)
    requires AllSpace(a) && AllSpace(b)
    ensures AllSpace(a + b)
  {
    forall k | |a| <= k < |a + b| ensures IsSpace((a + b)[k]) {
      assert (a + b)[k] == b[k - |a|];
    }
  }

  lemma {:induction false} TrimStartPadded(a: string, u: string)
    requires AllSpace(a) && u != [] && !IsSpace(u[0])
    ensures TrimStart(a + u) == u
  {
    if a == [] {
      assert a + u == u;
    } else {
      assert (a + u)[1..] == a[1..] + u;
      TrimStartPadded(a[1..], u);
    }
  }

  lemma {:induction false} TrimEndPadded(u: string, b: string)
    requires AllSpace(b) && u != [] && !IsSpace(u[|u| - 1])
    ensures TrimEnd(u + b) == u
  {
    if b == [] {
      assert u + b == u;
    } else {
      var w := u + b;
      assert w[..|w| - 1] == u + b[..|b| - 1];
      TrimEndPadded(u, b[..|b| - 1]);
    }
  }

  /** Trimming leaves nothing exactly when the text is all white space. */
  lemma TrimEmpty(s: string)
    ensures Trim(s) == [] <==> AllSpace(s)
  {
    var t := TrimStart(s);
    TrimStartDrops(s);
    TrimEndDrops(t);
    if TrimEnd(t) == [] {
      assert t == [];
      forall i | 0 <= i < |s| ensures IsSpace(s[i]) {
        assert s[i] == s[..|s|][i];
      }
    } else {
      assert TrimEnd(t)[0] == t[0] == s[|s| - |t|];
    }
  }

  /** Trimming brings in no character: what a text lacks, its trimmed form lacks. */
  lemma TrimKeepsOut(s: string, seps: set<char>)
    requires NoneIn(s, seps)
    ensures NoneIn(Trim(s), seps)
  {
    var t := TrimStart(s);
    forall k | 0 <= k < |t| ensures t[k] !in seps {
      assert t[k] == s[|s| - |t| + k];
    }
    var r := TrimEnd(t);
    forall k | 0 <= k < |r| ensures r[k] !in seps {
      assert r[k] == t[k];
    }
  }

  lemma TrimOfTrimmed(s: string)
    requires IsTrimmed(s)
    ensures Trim(s) == s
  {
  }

  lemma TrimIdempotent(s: string)
    ensures Trim(Trim(s)) == Trim(s)
  {
    TrimOfTrimmed(Trim(s));
  }

  function LowerChar(c: char): (d: char)
  {
    if 'A' <= c <= 'Z' then (c as int + 32) as char else c
  }

  /** `s.toLowerCase()` restricted to the ASCII letters. */
  function Lower(s: string): (r: string)
    ensures |r| == |s|
    ensures forall i :: 0 <= i < |s| ==> r[i] == LowerChar(s[i])
  {
    seq(|s|, i requires 0 <= i < |s| => LowerChar(s[i]))
  }

  predicate NoUpper(s: string) {
    forall i :: 0 <= i < |s| ==> !('A' <= s[i] <= 'Z')
  }

  /** `s.trim().toLowerCase()`: a key with no white space at its ends and no upper-case letter. */
  function Key(s: string): (r: string)
    ensures IsTrimmed(r)
  {
    var t := Trim(s);
    LowerKeepsTrimmed(t);
    Lower(t)
  }

  /** A key has no upper-case letter. */
  lemma KeyNoUpper(s: string)
    ensures NoUpper(Key(s))
  {
    LowerKeepsTrimmed(Trim(s));
  }

  /** `ss.map((s) => s.trim().toLowerCase())` */
  function MapKey(ss: seq<string>): (r: seq<string>)
    ensures |r| == |ss|
    ensures forall i :: 0 <= i < |ss| ==> r[i] == Key(ss[i])
  {
    seq(|ss|, i requires 0 <= i < |ss| => Key(ss[i]))
  }

  /** Every key is trimmed and has no upper-case letter. */
  lemma MapKeyShape(ss: seq<string>)
    ensures forall i :: 0 <= i < |MapKey(ss)| ==> IsTrimmed(MapKey(ss)[i]) && NoUpper(MapKey(ss)[i])
  {
    forall i | 0 <= i < |ss| ensures NoUpper(MapKey(ss)[i]) {
      KeyNoUpper(ss[i]);
    }
  }

  /** Lowering a letter never makes or removes white space. */
  lemma LowerKeepsSpace(c: char)
    ensures IsSpace(LowerChar(c)) <==> IsSpace(c)
  {
    if 'A' <= c <= 'Z' {
      assert 'a' <= LowerChar(c) <= 'z';
    }
  }

  /** Lowering leaves no upper-case letter and keeps a trimmed text trimmed. */
  lemma LowerKeepsTrimmed(t: string)
    ensures NoUpper(Lower(t))
    ensures IsTrimmed(t) ==> IsTrimmed(Lower(t))
  {
    var r := Lower(t);
    forall i | 0 <= i < |r| ensures !('A' <= r[i] <= 'Z') {
      assert r[i] == LowerChar(t[i]);
    }
    if r != [] {
      assert r[0] == LowerChar(t[0]) && r[|r| - 1] == LowerChar(t[|t| - 1]);
      LowerKeepsSpace(t[0]);
      LowerKeepsSpace(t[|t| - 1]);
    }
  }

  /** Lowering a text without upper-case letters changes nothing. */
  lemma LowerOfLower(s: string)
    requires NoUpper(s)
    ensures Lower(s) == s
  {
    forall i | 0 <= i < |s| ensures Lower(s)[i] == s[i] {
      assert !('A' <= s[i] <= 'Z');
    }
  }

  /** A text already trimmed and in lower case is its own key. */
  lemma KeyOfKey(s: string)
    requires IsTrimmed(s) && NoUpper(s)
    ensures Key(s) == s
  {
    TrimOfTrimmed(s);
    LowerOfLower(s);
  }

  /** Number of characters of `s` that belong to `seps`. */
  function CountIn(s: string, seps: set<char>): nat
  {
    if s == [] then 0 else (if s[0] in seps then 1 else 0) + CountIn(s[1..], seps)
  }

  lemma {:induction false} CountInMember(s: string, seps: set<char>, c: char)
    requires c in s && c in seps
    ensures CountIn(s, seps) >= 1
  {
    if s[0] != c {
      assert c in s[1..];
      CountInMember(s[1..], seps, c);
    }
  }

  predicate NoneIn(s: string, seps: set<char>) {
    forall k :: 0 <= k < |s| ==> s[k] !in seps
  }

  /**
   * `s.split(c)` for a single character `c` (`seps == {c}`), or
   * `s.split(/[ab]/)` for a one-character class (`seps == {a, b}`):
   * every separator character ends a piece, so there is one piece more
   * than there are separators, and no piece contains a separator.
   */
  function SplitOn(s: string, seps: set<char>): (r: seq<string>)
    ensures |r| == CountIn(s, seps) + 1
  {
    if s == [] then [""]
    else
      var rest := SplitOn(s[1..], seps);
      if s[0] in seps then [""] + rest
      else [[s[0]] + rest[0]] + rest[1..]
  }

  /** No piece contains a separator. */
  lemma {:induction false} SplitOnPieces(s: string, seps: set<char>)
    ensures forall i :: 0 <= i < |SplitOn(s, seps)| ==> NoneIn(SplitOn(s, seps)[i], seps)
  {
    if s != [] {
      SplitOnPieces(s[1..], seps);
      var rest := SplitOn(s[1..], seps);
      if s[0] !in seps {
        var first := [s[0]] + rest[0];
        forall k | 0 <= k < |first| ensures first[k] !in seps {
          if k > 0 {
            assert first[k] == rest[0][k - 1];
          }
        }
        var r := SplitOn(s, seps);
        forall i | 0 <= i < |r| ensures NoneIn(r[i], seps) {
          if i > 0 {
            assert r[i] == rest[i];
          }
        }
      }
    }
  }

  /** Concatenation of sequences regroups freely. */
  lemma Assoc<T>(a: seq<T>, b: seq<T>, c: seq<T>)
    ensures a + (b + c) == (a + b) + c
  {
  }

  /** `parts.join(sep)` */
  function Join(parts: seq<string>, sep: char): string
  {
    if |parts| == 0 then ""
    else if |parts| == 1 then parts[0]
    else parts[0] + [sep] + Join(parts[1..], sep)
  }

  lemma {:induction false} JoinSplit(s: string, c: char)
    ensures Join(SplitOn(s, {c}), c) == s
  {
    if s != [] {
      JoinSplit(s[1..], c);
      var rest := SplitOn(s[1..], {c});
      if s[0] != c {
        if |rest| > 1 {
          assert [[s[0]] + rest[0]] + rest[1..] == [[s[0]] + rest[0]] + rest[1..];
          assert Join([[s[0]] + rest[0]] + rest[1..], c)
              == [s[0]] + rest[0] + [c] + Join(rest[1..], c);
          assert Join(rest, c) == rest[0] + [c] + Join(rest[1..], c);
        }
        assert s == [s[0]] + s[1..];
      } else {
        assert s == [c] + s[1..];
      }
    }
  }

  /** A piece with no separator in it followed by a separator is split off whole. */
  lemma {:induction false} SplitOnPiece(p: string, c: char, t: string, seps: set<char>)
    requires NoneIn(p, seps) && c in seps
    ensures SplitOn(p + [c] + t, seps) == [p] + SplitOn(t, seps)
  {
    if p != [] {
      assert (p + [c] + t)[1..] == p[1..] + [c] + t;
      SplitOnPiece(p[1..], c, t, seps);
      assert [p[0]] + p[1..] == p;
    } else {
      assert [c] + t == [c] + t;
      assert ([c] + t)[1..] == t;
    }
  }

  lemma {:induction false} SplitOnNoSep(p: string, seps: set<char>)
    requires NoneIn(p, seps)
    ensures SplitOn(p, seps) == [p]
  {
    if p != [] {
      SplitOnNoSep(p[1..], seps);
      assert [p[0]] + p[1..] == p;
    }
  }

  /** Two separator-free texts around one separator split into exactly those two. */
  lemma SplitTwo(a: string, c: char, b: string, seps: set<char>)
    requires NoneIn(a, seps) && NoneIn(b, seps) && c in seps
    ensures SplitOn(a + [c] + b, seps) == [a, b]
  {
    SplitOnPiece(a, c, b, seps);
    SplitOnNoSep(b, seps);
  }

  /** Splitting a join gives the parts back when no part contains a separator. */
  lemma {:induction false} SplitJoin(parts: seq<string>, c: char, seps: set<char>)
    requires |parts| >= 1 && c in seps
    requires forall i :: 0 <= i < |parts| ==> NoneIn(parts[i], seps)
    ensures SplitOn(Join(parts, c), seps) == parts
  {
    if |parts| == 1 {
      SplitOnNoSep(parts[0], seps);
    } else {
      SplitJoin(parts[1..], c, seps);
      SplitOnPiece(parts[0], c, Join(parts[1..], c), seps);
      assert [parts[0]] + parts[1..] == parts;
    }
  }

  /** `ss.filter(Boolean)` on strings: the non-empty ones, in order. */
  function FilterNonEmpty(ss: seq<string>): (r: seq<string>)
    ensures |r| <= |ss|
  {
    if ss == [] then []
    else (if ss[0] != [] then [ss[0]] else []) + FilterNonEmpty(ss[1..])
  }

  /** What the filter keeps is non-empty and comes from the input. */
  lemma {:induction false} FilterNonEmptyFrom(ss: seq<string>)
    ensures forall i :: 0 <= i < |FilterNonEmpty(ss)| ==> FilterNonEmpty(ss)[i] != [] && FilterNonEmpty(ss)[i] in ss
  {
    if ss != [] {
      FilterNonEmptyFrom(ss[1..]);
      var r := FilterNonEmpty(ss);
      var rest := FilterNonEmpty(ss[1..]);
      forall i | 0 <= i < |r| ensures r[i] != [] && r[i] in ss {
        if ss[0] != [] && i == 0 {
          assert r[i] == ss[0];
        } else {
          var j := if ss[0] != [] then i - 1 else i;
          assert r[i] == rest[j];
          assert rest[j] in ss[1..];
        }
      }
    }
  }

  lemma {:induction false} FilterNonEmptyKeeps(ss: seq<string>)
    requires forall i :: 0 <= i < |ss| ==> ss[i] != []
    ensures FilterNonEmpty(ss) == ss
  {
    if ss != [] {
      FilterNonEmptyKeeps(ss[1..]);
      assert [ss[0]] + ss[1..] == ss;
    }
  }

  /** Every non-empty string of the input survives the filter. */
  lemma {:induction false} FilterNonEmptyComplete(ss: seq<string>)
    ensures forall x :: x in ss && x != [] ==> x in FilterNonEmpty(ss)
  {
    if ss != [] {
      FilterNonEmptyComplete(ss[1..]);
      forall x | x in ss && x != [] ensures x in FilterNonEmpty(ss) {
        if x != ss[0] {
          assert x in ss[1..];
        }
      }
    }
  }

  /** The filter works element by element, so it keeps the input's order. */
  lemma {:induction false} FilterNonEmptyAppend(a: seq<string>, b: seq<string>)
    ensures FilterNonEmpty(a + b) == FilterNonEmpty(a) + FilterNonEmpty(b)
  {
    if a == [] {
      assert a + b == b;
    } else {
      assert (a + b)[1..] == a[1..] + b;
      FilterNonEmptyAppend(a[1..], b);
    }
  }

  /** `ss.map((s) => s.trim())` */
  function MapTrim(ss: seq<string>): (r: seq<string>)
    ensures |r| == |ss|
    ensures forall i :: 0 <= i < |ss| ==> r[i] == Trim(ss[i])
  {
    seq(|ss|, i requires 0 <= i < |ss| => Trim(ss[i]))
  }

  /**
   * `s.split(/[…]/).map((x) => x.trim()).filter(Boolean)`: the non-empty
   * trimmed pieces between separators, so no piece is empty, padded or
   * contains a separator.
   */
  function SplitTrimFilter(s: string, seps: set<char>): seq<string>
  {
    FilterNonEmpty(MapTrim(SplitOn(s, seps)))
  }

  /** No piece of the result is empty, padded or contains a separator. */
  lemma SplitTrimFilterShape(s: string, seps: set<char>)
    ensures var r := SplitTrimFilter(s, seps);
      forall i :: 0 <= i < |r| ==> r[i] != [] && IsTrimmed(r[i]) && NoneIn(r[i], seps)
  {
    var pieces := SplitOn(s, seps);
    var trimmed := MapTrim(pieces);
    var r := FilterNonEmpty(trimmed);
    SplitOnPieces(s, seps);
    FilterNonEmptyFrom(trimmed);
    forall i | 0 <= i < |r|
      ensures r[i] != [] && IsTrimmed(r[i]) && NoneIn(r[i], seps)
    {
      var j :| 0 <= j < |trimmed| && trimmed[j] == r[i];
      assert trimmed[j] == Trim(pieces[j]);
      TrimKeepsOut(pieces[j], seps);
    }
  }

  /**
   * A separator-free piece followed by a separator contributes its trimmed
   * text, unless that is empty; the rest is read on its own. With
   * `SplitTrimFilterLast` this fixes the result on every input.
   */
  lemma SplitTrimFilterPiece(p: string, c: char, t: string, seps: set<char>)
    requires NoneIn(p, seps) && c in seps
    ensures SplitTrimFilter(p + [c] + t, seps) == (if Trim(p) == [] then [] else [Trim(p)]) + SplitTrimFilter(t, seps)
  {
    SplitOnPiece(p, c, t, seps);
    MapTrimCons(p, SplitOn(t, seps));
    FilterNonEmptyAppend([Trim(p)], MapTrim(SplitOn(t, seps)));
    FilterNonEmptyOne(Trim(p));
  }

  /** A text without separators gives its trimmed self, unless that is empty. */
  lemma SplitTrimFilterLast(p: string, seps: set<char>)
    requires NoneIn(p, seps)
    ensures SplitTrimFilter(p, seps) == (if Trim(p) == [] then [] else [Trim(p)])
  {
    SplitOnNoSep(p, seps);
    MapTrimCons(p, []);
    FilterNonEmptyOne(Trim(p));
  }

  lemma MapTrimCons(x: string, rest: seq<string>)
    ensures MapTrim([x] + rest) == [Trim(x)] + MapTrim(rest)
  {
    var l, t := MapTrim([x] + rest), MapTrim(rest);
    forall k | 1 <= k < |l| ensures l[k] == t[k - 1] {
      MapTrimTail(x, rest, k);
    }
    MapTrimTail(x, rest, 0);
    ConsEq(l, Trim(x), t);
  }

  lemma MapTrimTail(x: string, rest: seq<string>, k: nat)
    requires k <= |rest|
    ensures MapTrim([x] + rest)[k] == if k == 0 then Trim(x) else MapTrim(rest)[k - 1]
  {
    assert ([x] + rest)[k] == if k == 0 then x else rest[k - 1];
  }

  lemma ConsEq<T>(l: seq<T>, h: T, t: seq<T>)
    requires |l| == |t| + 1 && l[0] == h
    requires forall k :: 1 <= k < |l| ==> l[k] == t[k - 1]
    ensures l == [h] + t
  {
    assert forall k :: 0 <= k < |l| ==> l[k] == ([h] + t)[k];
  }

  lemma FilterNonEmptyOne(x: string)
    ensures FilterNonEmpty([x]) == if x == [] then [] else [x]
  {
    assert [x][1..] == [];
  }

  /** Joining non-empty, trimmed, separator-free items and splitting again gives them back. */
  lemma SplitTrimFilterJoin(items: seq<string>, c: char, seps: set<char>)
    requires c in seps
    requires forall i :: 0 <= i < |items| ==> items[i] != [] && IsTrimmed(items[i]) && NoneIn(items[i], seps)
    ensures SplitTrimFilter(Join(items, c), seps) == items
  {
    if items == [] {
      assert SplitOn("", seps) == [""];
      assert MapTrim([""]) == [""];
    } else {
      SplitJoin(items, c, seps);
      forall i | 0 <= i < |items| ensures Trim(items[i]) == items[i] {
        TrimOfTrimmed(items[i]);
      }
      assert MapTrim(items) == items;
      FilterNonEmptyKeeps(items);
    }
  }

  /** `s.startsWith(prefix)` */
  predicate StartsWith(s: string, prefix: string) {
    |prefix| <= |s| && s[..|prefix|] == prefix
  }

  /** `xs.indexOf(x)`: the first position of `x`, or -1. */
  function IndexOf<T(==)>(xs: seq<T>, x: T): (r: int)
    ensures -1 <= r < |xs|
    ensures r == -1 <==> x !in xs
    ensures r >= 0 ==> xs[r] == x && x !in xs[..r]
  {
    if xs == [] then -1
    else if xs[0] == x then 0
    else
      var k := IndexOf(xs[1..], x);
      assert xs[1..] == xs[1..];
      if k == -1 then -1
      else
        assert xs[..k + 1] == [xs[0]] + xs[1..][..k];
        k + 1
  }

  /** Drops one carriage return at the end of a line. */
  function DropCR(line: string): string
  {
    if line != [] && line[|line| - 1] == '\r' then line[..|line| - 1] else line
  }

  /**
   * `text.split(/\r?\n/)`: every line feed ends a line, and a carriage
   * return right before a line feed belongs to the separator. A carriage
   * return anywhere else, or at the very end of the text, stays.
   */
  function SplitLines(text: string): (r: seq<string>)
    ensures |r| == CountIn(text, {'\n'}) + 1
    ensures forall i :: 0 <= i < |r| - 1 ==> r[i] == DropCR(SplitOn(text, {'\n'})[i])
    ensures r[|r| - 1] == SplitOn(text, {'\n'})[|r| - 1]
  {
    var pieces := SplitOn(text, {'\n'});
    seq(|pieces|, i requires 0 <= i < |pieces| =>
      if i < |pieces| - 1 then DropCR(pieces[i]) else pieces[i])
  }

  /** No line contains a line feed. */
  lemma SplitLinesPieces(text: string)
    ensures forall i :: 0 <= i < |SplitLines(text)| ==> NoneIn(SplitLines(text)[i], {'\n'})
  {
    var pieces := SplitOn(text, {'\n'});
    var r := SplitLines(text);
    SplitOnPieces(text, {'\n'});
    forall i | 0 <= i < |r| ensures NoneIn(r[i], {'\n'}) {
      var p := pieces[i];
      if i < |pieces| - 1 && p != [] && p[|p| - 1] == '\r' {
        forall k | 0 <= k < |r[i]| ensures r[i][k] != '\n' {
          assert r[i][k] == p[k];
        }
      }
    }
  }

  /** The lines as a file writes them: every line but the last gets a carriage return when `crlf`. */
  function Terminated(lines: seq<string>, crlf: bool): (r: seq<string>)
    ensures |r| == |lines|
  {
    seq(|lines|, i requires 0 <= i < |lines| =>
      if crlf && i < |lines| - 1 then lines[i] + "\r" else lines[i])
  }

  /** A text of lines ended by `"\r\n"` (when `crlf`) or by `"\n"`. */
  function JoinLines(lines: seq<string>, crlf: bool): string
  {
    Join(Terminated(lines, crlf), '\n')
  }

  lemma DropAddedCR(line: string)
    ensures DropCR(line + "\r") == line
  {
    assert (line + "\r")[..|line|] == line;
  }

  /**
   * Lines written with either line ending split back into themselves, as
   * long as no line holds a line feed; with bare line feeds a line other
   * than the last must not end in a carriage return, which the split
   * would take for part of a `"\r\n"`.
   */
  lemma SplitLinesJoin(lines: seq<string>, crlf: bool)
    requires |lines| >= 1
    requires forall i :: 0 <= i < |lines| ==> NoneIn(lines[i], {'\n'})
    requires !crlf ==> forall i :: 0 <= i < |lines| - 1 ==> DropCR(lines[i]) == lines[i]
    ensures SplitLines(JoinLines(lines, crlf)) == lines
  {
    var t := Terminated(lines, crlf);
    forall i | 0 <= i < |t| ensures NoneIn(t[i], {'\n'}) {
      if crlf && i < |lines| - 1 {
        assert t[i] == lines[i] + "\r";
        forall k | 0 <= k < |t[i]| ensures t[i][k] != '\n' {
          if k < |lines[i]| {
            assert t[i][k] == lines[i][k];
          }
        }
      }
    }
    SplitJoin(t, '\n', {'\n'});
    var r := SplitLines(JoinLines(lines, crlf));
    forall i | 0 <= i < |lines| - 1 ensures r[i] == lines[i] {
      if crlf {
        DropAddedCR(lines[i]);
      }
    }
  }
}
