/**
 * The results index: attempts are read from the first of several sources
 * that answers, test names are filled in from a lookup when the source
 * had none, and the visitor is greeted by the best name on record.
 */
module ResultsPage {
  import opened Wrappers
  import opened JsText

  /** A test's slug and name. */
  datatype TestRef = TestRef(slug: string, name: string)

  /**
   * One attempt. `testId` is already in its `String` form; `tests` is the
   * joined test, `None` when the source had no join (null or undefined).
   */
  datatype AttemptRow = AttemptRow(
    id: string,
    testId: string,
    startedAt: Option<string>,
    finishedAt: Option<string>,
    score: Option<int>,
    tests: Option<TestRef>)

  /**
   * One source's answer: the rows when the data is an array (`None`
   * otherwise) and the error, `None` when it is falsy.
   */
  datatype RunResult = RunResult(data: Option<seq<AttemptRow>>, error: Option<string>)

  predicate Succeeds(r: RunResult) {
    r.error.None? && r.data.Some?
  }

  // ---------------------------------------------------------------------
  // Choosing the source
  // ---------------------------------------------------------------------

  /** The position of the first source that answers without error and with an array. */
  function FirstSuccess(runs: seq<RunResult>): (r: Option<nat>)
    ensures r.None? <==> forall k :: 0 <= k < |runs| ==> !Succeeds(runs[k])
    ensures r.Some? ==> r.value < |runs| && Succeeds(runs[r.value])
    ensures r.Some? ==> forall k :: 0 <= k < r.value ==> !Succeeds(runs[k])
  {
    if runs == [] then None
    else if Succeeds(runs[0]) then Some(0)
    else
      var rest := FirstSuccess(runs[1..]);
      if rest.None? then None else Some(rest.value + 1)
  }

  /**
   * The `runs` loop: the first source that succeeds supplies the rows and
   * clears the error, and later sources are not asked; when none succeeds
   * the rows are empty and the error is the last source's.
   */
  method SelectRows(runs: seq<RunResult>) returns (rows: seq<AttemptRow>, lastErr: Option<string>, tried: nat)
    ensures FirstSuccess(runs).Some? ==>
      var k := FirstSuccess(runs).value;
      rows == runs[k].data.value && lastErr.None? && tried == k + 1
    ensures FirstSuccess(runs).None? ==>
      rows == [] && tried == |runs| && lastErr == (if runs == [] then None else runs[|runs| - 1].error)
  {
    rows := [];
    lastErr := None;
    tried := 0;
    while tried < |runs|
      invariant 0 <= tried <= |runs|
      invariant forall k :: 0 <= k < tried ==> !Succeeds(runs[k])
      invariant rows == []
      invariant lastErr == (if tried == 0 then None else runs[tried - 1].error)
    {
      var run := runs[tried];
      tried := tried + 1;
      if run.error.None? && run.data.Some? {
        rows := run.data.value;
        lastErr := None;
        return;
      }
      lastErr := run.error;
    }
  }

  // ---------------------------------------------------------------------
  // Test-name enrichment
  // ---------------------------------------------------------------------

  predicate NoDuplicates(xs: seq<string>) {
    forall i, j :: 0 <= i < j < |xs| ==> xs[i] != xs[j]
  }

  /** `Array.from(new Set(xs))`: each value once, in order of first appearance. */
  function Dedupe(xs: seq<string>): (r: seq<string>)
    ensures NoDuplicates(r)
    ensures forall x :: x in r <==> x in xs
    ensures |r| <= |xs|
  {
    if xs == [] then []
    else
      var front := Dedupe(xs[..|xs| - 1]);
      var last := xs[|xs| - 1];
      assert forall x :: x in xs <==> x in xs[..|xs| - 1] || x == last by {
        assert xs == xs[..|xs| - 1] + [last];
      }
      if last in front then front else front + [last]
  }

  /** Deduplicating keeps the order of first appearances: a duplicate-free list comes back as it is. */
  lemma {:induction false} DedupeOfDistinct(xs: seq<string>)
    requires NoDuplicates(xs)
    ensures Dedupe(xs) == xs
  {
    if xs != [] {
      var front := xs[..|xs| - 1];
      DedupeOfDistinct(front);
      assert xs[|xs| - 1] !in front;
      assert front + [xs[|xs| - 1]] == xs;
    }
  }

  /** The ids looked up: the attempts' test ids, each once. */
  function TestIds(rows: seq<AttemptRow>): (r: seq<string>)
    ensures NoDuplicates(r)
    ensures forall id :: id in r <==> exists i :: 0 <= i < |rows| && rows[i].testId == id
  {
    var ids := seq(|rows|, i requires 0 <= i < |rows| => rows[i].testId);
    assert forall i :: 0 <= i < |rows| ==> rows[i].testId == ids[i];
    Dedupe(ids)
  }

  /** A row of the test lookup; `id` is already in its `String` form. */
  datatype TestRow = TestRow(id: string, slug: string, name: string)

  /** The `byId` map after the rows are set one after another. */
  function Index(tests: seq<TestRow>): (m: map<string, TestRef>)
    ensures forall i :: 0 <= i < |tests| ==> tests[i].id in m
    ensures forall id :: id in m ==> exists i :: 0 <= i < |tests| && tests[i].id == id
  {
    if tests == [] then map[]
    else
      var t := tests[|tests| - 1];
      Index(tests[..|tests| - 1])[t.id := TestRef(t.slug, t.name)]
  }

  /** When ids repeat, the last row with that id wins. */
  lemma {:induction false} IndexLastWins(tests: seq<TestRow>, k: nat)
    requires k < |tests|
    requires forall j :: k < j < |tests| ==> tests[j].id != tests[k].id
    ensures Index(tests)[tests[k].id] == TestRef(tests[k].slug, tests[k].name)
  {
    if k < |tests| - 1 {
      IndexLastWins(tests[..|tests| - 1], k);
    }
  }

  /** The loop that fills `byId`. */
  method BuildIndex(tests: seq<TestRow>) returns (byId: map<string, TestRef>)
    ensures byId == Index(tests)
  {
    byId := map[];
    for i := 0 to |tests|
      invariant byId == Index(tests[..i])
    {
      assert tests[..i + 1][..i] == tests[..i];
      var t := tests[i];
      byId := byId[t.id := TestRef(t.slug, t.name)];
    }
    assert tests[..|tests|] == tests;
  }

  /** `byId.get(id) ?? null` */
  function Lookup(byId: map<string, TestRef>, id: string): Option<TestRef> {
    if id in byId then Some(byId[id]) else None
  }

  /** Each row with `tests` set to the lookup of its test id; nothing else changes. */
  function Enrich(rows: seq<AttemptRow>, byId: map<string, TestRef>): (r: seq<AttemptRow>)
    ensures |r| == |rows|
    ensures forall i :: 0 <= i < |rows| ==> r[i].(tests := rows[i].tests) == rows[i]
    ensures forall i :: 0 <= i < |rows| ==>
      (r[i].tests.Some? <==> rows[i].testId in byId) &&
      (r[i].tests.Some? ==> r[i].tests.value == byId[rows[i].testId])
  {
    if rows == [] then []
    else [rows[0].(tests := Lookup(byId, rows[0].testId))] + Enrich(rows[1..], byId)
  }

  /** The names are filled in only when there are rows and the first has no joined test. */
  predicate NeedsEnrichment(rows: seq<AttemptRow>) {
    |rows| > 0 && rows[0].tests.None?
  }

  /**
   * The attempts shown. `lookup` is the test lookup's answer for the ids
   * returned in `ids` (`None` for null); `ids` is `None` when no lookup is
   * made.
   */
  method LoadAttempts(runs: seq<RunResult>, lookup: Option<seq<TestRow>>)
    returns (rows: seq<AttemptRow>, lastErr: Option<string>, ids: Option<seq<string>>)
    ensures var chosen := if FirstSuccess(runs).Some? then runs[FirstSuccess(runs).value].data.value else [];
      && (FirstSuccess(runs).Some? ==> lastErr.None?)
      && (ids.Some? <==> NeedsEnrichment(chosen))
      && (ids.Some? ==> ids.value == TestIds(chosen))
      && (NeedsEnrichment(chosen) ==> rows == Enrich(chosen, Index(lookup.GetOr([]))))
      && (!NeedsEnrichment(chosen) ==> rows == chosen)
  {
    var tried;
    rows, lastErr, tried := SelectRows(runs);
    ids := None;
    if |rows| > 0 && rows[0].tests.None? {
      ids := Some(TestIds(rows));
      var byId := BuildIndex(lookup.GetOr([]));
      rows := Enrich(rows, byId);
    }
  }

  // ---------------------------------------------------------------------
  // The greeting
  // ---------------------------------------------------------------------

  /** The user's metadata fields that hold a name; `None` when absent. */
  datatype Metadata = Metadata(
    name: Option<string>,
    fullName: Option<string>,
    firstName: Option<string>,
    lastName: Option<string>)

  /** `a || b || …`: the first non-empty candidate. */
  function FirstNonEmpty(cands: seq<string>): (r: Option<string>)
    ensures r.None? <==> forall k :: 0 <= k < |cands| ==> cands[k] == []
    ensures r.Some? ==> r.value != []
    ensures r.Some? ==>
      exists k :: 0 <= k < |cands| && cands[k] == r.value && forall j :: 0 <= j < k ==> cands[j] == []
  {
    if cands == [] then None
    else if cands[0] != [] then Some(cands[0])
    else
      var rest := FirstNonEmpty(cands[1..]);
      if rest.Some? then
        var k :| 0 <= k < |cands[1..]| && cands[1..][k] == rest.value && forall j :: 0 <= j < k ==> cands[1..][j] == [];
        assert cands[k + 1] == rest.value;
        rest
      else rest
  }

  /** `[first, last].filter(Boolean).join(" ")` */
  function JoinedName(m: Metadata): string {
    Join(FilterNonEmpty([m.firstName.GetOr(""), m.lastName.GetOr("")]), ' ')
  }

  /** The part of the email before its first "@". */
  function EmailName(userEmail: Option<string>): string {
    if userEmail.Some? && userEmail.value != [] then SplitOn(userEmail.value, {'@'})[0] else ""
  }

  /**
   * `friendlyName`: the metadata name, else the full name, else first and
   * last name, else the email's local part; `None` (undefined) when all
   * of them are empty.
   */
  function FriendlyName(m: Metadata, userEmail: Option<string>): (r: Option<string>)
    ensures r == FirstNonEmpty([m.name.GetOr(""), m.fullName.GetOr(""), JoinedName(m), EmailName(userEmail)])
  {
    var cands := [m.name.GetOr(""), m.fullName.GetOr(""), JoinedName(m), EmailName(userEmail)];
    if cands[0] != [] then Some(cands[0])
    else if cands[1] != [] then Some(cands[1])
    else if cands[2] != [] then Some(cands[2])
    else if cands[3] != [] then Some(cands[3])
    else None
  }

  /** First and last name are joined by one space; a missing part is skipped. */
  lemma JoinedNameParts(m: Metadata)
    ensures var f := m.firstName.GetOr(""); var l := m.lastName.GetOr("");
      JoinedName(m) == (if f != [] && l != [] then f + " " + l else f + l)
  {
    var f := m.firstName.GetOr("");
    var l := m.lastName.GetOr("");
    assert [f, l][1..] == [l];
    assert [l][1..] == [];
    var tail := FilterNonEmpty([l]);
    assert tail == (if l != [] then [l] else []) + FilterNonEmpty([]);
    var kept := FilterNonEmpty([f, l]);
    assert kept == (if f != [] then [f] else []) + tail;
    if f != [] && l != [] {
      assert kept == [f, l];
      assert kept[1..] == [l];
      assert Join(kept, ' ') == f + [' '] + l;
    } else if f != [] {
      assert kept == [f];
    } else if l != [] {
      assert kept == [l];
    }
  }

  /** The email's local part is the text before the first "@". */
  lemma EmailNameIsLocalPart(local: string, domain: string)
    requires '@' !in local
    ensures EmailName(Some(local + "@" + domain)) == local
  {
    assert NoneIn(local, {'@'});
    SplitOnPiece(local, '@', domain, {'@'});
  }

  /** With no name in the metadata, the greeting falls back to the email's local part. */
  lemma GreetingFromEmail(local: string, domain: string)
    requires '@' !in local && local != []
    ensures FriendlyName(Metadata(None, None, None, None), Some(local + "@" + domain)) == Some(local)
  {
    EmailNameIsLocalPart(local, domain);
    assert JoinedName(Metadata(None, None, None, None)) == "";
  }
}
