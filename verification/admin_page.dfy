/**
 * The admin landing page: a signed-in user is an admin when one of the
 * membership lookups finds a row, tried in order until one does, or else
 * when the user's email is on the configured allowlist.
 */
module AdminPage {
  import opened Wrappers
  import opened JsText

  datatype User = User(id: string, email: Option<string>)

  /**
   * One membership lookup's answer: the number of rows when the data is an
   * array (`None` for null). The error it may carry is not consulted.
   */
  datatype CheckResult = CheckResult(rows: Option<nat>, error: Option<string>)

  datatype AdminView =
    | Guard                      // no user: the client-side guard
    | NotAdmin                   // "You are not an admin."
    | Dashboard(welcome: string) // "Welcome, <email>"

  predicate Grants(c: CheckResult) {
    c.rows.Some? && c.rows.value > 0
  }

  /** The position of the first lookup that grants admin. */
  function FirstGrant(checks: seq<CheckResult>): (r: Option<nat>)
    ensures r.None? <==> forall k :: 0 <= k < |checks| ==> !Grants(checks[k])
    ensures r.Some? ==> r.value < |checks| && Grants(checks[r.value])
    ensures r.Some? ==> forall k :: 0 <= k < r.value ==> !Grants(checks[k])
  {
    if checks == [] then None
    else if Grants(checks[0]) then Some(0)
    else
      var rest := FirstGrant(checks[1..]);
      if rest.None? then None else Some(rest.value + 1)
  }

  /** ADMIN_EMAILS split on commas, each entry trimmed and lowercased, empty entries dropped. */
  function ListedEmails(adminEmails: Option<string>): seq<string>
  {
    FilterNonEmpty(MapKey(SplitOn(adminEmails.GetOr(""), {','})))
  }

  /** Every listed email is non-empty, trimmed, lower-case and free of commas. */
  lemma ListedEmailsShape(adminEmails: Option<string>)
    ensures var r := ListedEmails(adminEmails);
      forall i :: 0 <= i < |r| ==> r[i] != [] && IsTrimmed(r[i]) && NoUpper(r[i]) && NoneIn(r[i], {','})
  {
    var keys := MapKey(SplitOn(adminEmails.GetOr(""), {','}));
    var r := FilterNonEmpty(keys);
    KeysShape(keys, adminEmails.GetOr(""));
    FilterNonEmptyFrom(keys);
    forall i | 0 <= i < |r| ensures IsTrimmed(r[i]) && NoUpper(r[i]) && NoneIn(r[i], {','}) {
      var j :| 0 <= j < |keys| && keys[j] == r[i];
      Shaped(keys, j, r[i]);
    }
  }

  lemma Shaped(keys: seq<string>, j: nat, e: string)
    requires j < |keys| && keys[j] == e
    requires IsTrimmed(keys[j]) && NoUpper(keys[j]) && NoneIn(keys[j], {','})
    ensures IsTrimmed(e) && NoUpper(e) && NoneIn(e, {','})
  {
  }

  /** Every key of the comma-separated list, empty ones included, is trimmed, lower-case and comma-free. */
  lemma KeysShape(keys: seq<string>, list: string)
    requires keys == MapKey(SplitOn(list, {','}))
    ensures forall j :: 0 <= j < |keys| ==> IsTrimmed(keys[j]) && NoUpper(keys[j]) && NoneIn(keys[j], {','})
  {
    var pieces := SplitOn(list, {','});
    SplitOnPieces(list, {','});
    forall j | 0 <= j < |keys| ensures IsTrimmed(keys[j]) && NoUpper(keys[j]) && NoneIn(keys[j], {','}) {
      EntryShape(pieces[j]);
    }
  }

  /** The key of a comma-free entry is trimmed, lower-case and comma-free. */
  lemma EntryShape(p: string)
    requires NoneIn(p, {','})
    ensures IsTrimmed(Key(p)) && NoUpper(Key(p)) && NoneIn(Key(p), {','})
  {
    KeyKeepsOut(p, ',');
    KeyNoUpper(p);
  }

  /** Trimming and lowering never bring in a comma. */
  lemma KeyKeepsOut(s: string, c: char)
    requires NoneIn(s, {c}) && c == ','
    ensures NoneIn(Key(s), {c})
  {
    var t := Trim(s);
    var k := Key(s);
    TrimKeepsOut(s, {c});
    forall j | 0 <= j < |k| ensures k[j] != c {
      assert k[j] == LowerChar(t[j]) && t[j] != c;
    }
  }

  /**
   * The allowlist: the listed emails, then the owner's email trimmed and
   * lowercased when NEXT_PUBLIC_OWNER_EMAIL is set to a non-empty value.
   */
  function Allowlist(adminEmails: Option<string>, owner: Option<string>): (r: seq<string>)
    ensures owner.GetOr("") == [] ==> r == ListedEmails(adminEmails)
    ensures owner.GetOr("") != [] ==> r == ListedEmails(adminEmails) + [Key(owner.value)]
  {
    var allow := ListedEmails(adminEmails);
    if owner.GetOr("") != [] then allow + [Key(owner.value)] else allow
  }

  /** The allowlist admits a non-empty email whose lowercase form is listed. */
  predicate Allowed(allow: seq<string>, userEmail: string) {
    |allow| > 0 && userEmail != [] && Lower(userEmail) in allow
  }

  /**
   * `AdminPage`. `checks` are the three lookups' answers in the order they
   * would run; `checksRun` is how many of them ran.
   */
  method Decide(user: Option<User>, checks: seq<CheckResult>,
                adminEmails: Option<string>, owner: Option<string>)
    returns (view: AdminView, checksRun: nat)
    ensures user.None? ==> view == Guard && checksRun == 0
    ensures user.Some? ==> checksRun == (if FirstGrant(checks).Some? then FirstGrant(checks).value + 1 else |checks|)
    ensures user.Some? ==>
      (view.Dashboard? <==>
         FirstGrant(checks).Some? || Allowed(Allowlist(adminEmails, owner), user.value.email.GetOr("")))
    ensures user.Some? ==> view.Dashboard? || view == NotAdmin
    ensures view.Dashboard? ==> view.welcome == user.value.email.GetOr("")
  {
    if user.None? {
      return Guard, 0;
    }
    var userEmail := user.value.email.GetOr("");
    var isAdmin;
    isAdmin, checksRun := RunChecks(checks);
    if !isAdmin {
      isAdmin := InAllowlist(adminEmails, owner, userEmail);
    }
    if !isAdmin {
      return NotAdmin, checksRun;
    }
    return Dashboard(userEmail), checksRun;
  }

  /** The membership lookups, run in order until one finds a row. */
  method RunChecks(checks: seq<CheckResult>) returns (isAdmin: bool, checksRun: nat)
    ensures isAdmin <==> FirstGrant(checks).Some?
    ensures checksRun == (if isAdmin then FirstGrant(checks).value + 1 else |checks|)
  {
    isAdmin := false;
    checksRun := 0;
    while checksRun < |checks|
      invariant 0 <= checksRun <= |checks|
      invariant !isAdmin ==> forall k :: 0 <= k < checksRun ==> !Grants(checks[k])
      invariant isAdmin ==> FirstGrant(checks) == Some(checksRun - 1)
    {
      var result := checks[checksRun];
      checksRun := checksRun + 1;
      if result.rows.Some? && result.rows.value > 0 {
        isAdmin := true;
        break;
      }
    }
  }

  /** The allowlist test, building the list as the page does. */
  method InAllowlist(adminEmails: Option<string>, owner: Option<string>, userEmail: string) returns (ok: bool)
    ensures ok <==> Allowed(Allowlist(adminEmails, owner), userEmail)
  {
    var allow := ListedEmails(adminEmails);
    var ownerEmail := owner.GetOr("");
    if ownerEmail != [] {
      allow := allow + [Key(ownerEmail)];
    }
    assert allow == Allowlist(adminEmails, owner);
    ok := |allow| > 0 && userEmail != [] && Lower(userEmail) in allow;
  }

  lemma {:induction false} LowerIdempotent(s: string)
    ensures Lower(Lower(s)) == Lower(s)
  {
    forall i | 0 <= i < |s| ensures LowerChar(LowerChar(s[i])) == LowerChar(s[i]) {
      if 'A' <= s[i] <= 'Z' {
        assert 'a' <= LowerChar(s[i]) <= 'z';
      }
    }
  }

  /** The allowlist ignores the case of the user's email. */
  lemma AllowedIgnoresCase(allow: seq<string>, userEmail: string)
    ensures Allowed(allow, userEmail) <==> Allowed(allow, Lower(userEmail))
  {
    LowerIdempotent(userEmail);
  }

  /** An empty email, or an empty allowlist, never grants admin. */
  lemma NothingAllowsEmpty(allow: seq<string>, userEmail: string)
    requires userEmail == [] || allow == []
    ensures !Allowed(allow, userEmail)
  {
  }

  /** The owner is on the allowlist whatever the case and padding of the configured value. */
  lemma OwnerAllowed(adminEmails: Option<string>, owner: string, userEmail: string)
    requires owner != [] && userEmail != [] && Key(owner) == Lower(userEmail)
    ensures Allowed(Allowlist(adminEmails, Some(owner)), userEmail)
  {
    var allow := Allowlist(adminEmails, Some(owner));
    assert allow[|allow| - 1] == Key(owner);
  }
}
