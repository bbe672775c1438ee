/**
 * The site header: which navigation link is highlighted for the current
 * path, and which account links are shown for the signed-in email.
 */
module Navbar {
  import opened Wrappers
  import opened JsText

  /**
   * `NavLink`'s `active`: the path is the link's target, or, for any target
   * but "/", begins with it as plain text. `pathname` is `None` before the
   * router knows the path.
   */
  predicate IsActive(pathname: Option<string>, href: string) {
    pathname == Some(href) || (href != "/" && pathname.Some? && StartsWith(pathname.value, href))
  }

  /** A link is active on its own path. */
  lemma ActiveOnOwnPath(href: string)
    ensures IsActive(Some(href), href)
  {
  }

  /** The home link is active exactly on "/". */
  lemma HomeOnlyExact(pathname: Option<string>)
    ensures IsActive(pathname, "/") <==> pathname == Some("/")
  {
  }

  /** Any other link is active exactly on the paths that begin with it. */
  lemma ActiveIsPrefix(pathname: string, href: string)
    requires href != "/"
    ensures IsActive(Some(pathname), href) <==> StartsWith(pathname, href)
  {
    if pathname == href {
      assert pathname[..|href|] == pathname;
    }
  }

  /** The prefix test is textual: "/tests-x" highlights the "/tests" link. */
  lemma TestsXActivatesTests()
    ensures IsActive(Some("/tests-x"), "/tests")
  {
    assert "/tests-x"[..6] == "/tests";
  }

  /** With no path known, no link is active. */
  lemma NoPathNoActive(href: string)
    ensures !IsActive(None, href)
  {
  }

  /** The header's links, in order, with the text each shows. */
  const NavLinks: seq<(string, string)> := [
    ("/dashboard", "Dashboard"),
    ("/practice", "Practice"),
    ("/tests", "Mock Tests"),
    ("/haryana-updates", "Haryana Updates"),
    ("/notes", "Notes")
  ]

  /** The highlight flag of each header link for the current path. */
  function ActiveFlags(pathname: Option<string>): (r: seq<bool>)
    ensures |r| == |NavLinks|
    ensures forall i :: 0 <= i < |r| ==> (r[i] <==> IsActive(pathname, NavLinks[i].0))
  {
    seq(|NavLinks|, i requires 0 <= i < |NavLinks| => IsActive(pathname, NavLinks[i].0))
  }

  /** An active link's target begins the path. */
  lemma ActiveStarts(pathname: Option<string>, href: string)
    ensures IsActive(pathname, href) ==> pathname.Some? && StartsWith(pathname.value, href)
  {
    if pathname == Some(href) {
      assert href[..|href|] == href;
    }
  }

  /** Two prefixes of the same text are prefixes of one another. */
  lemma PrefixesNest(p: string, a: string, b: string)
    ensures StartsWith(p, a) && StartsWith(p, b) && |a| <= |b| ==> StartsWith(b, a)
  {
    if StartsWith(p, a) && StartsWith(p, b) && |a| <= |b| {
      assert b[..|a|] == p[..|b|][..|a|];
    }
  }

  /** No header target begins with another, so no two links are highlighted together. */
  lemma AtMostOneActive(pathname: Option<string>, i: int, j: int)
    requires 0 <= i < |NavLinks| && 0 <= j < |NavLinks| && i != j
    ensures !(ActiveFlags(pathname)[i] && ActiveFlags(pathname)[j])
  {
    var a, b := NavLinks[i].0, NavLinks[j].0;
    var p := pathname.GetOr("");
    ActiveStarts(pathname, a);
    ActiveStarts(pathname, b);
    PrefixesNest(p, a, b);
    PrefixesNest(p, b, a);
    HeaderTargetsApart(i, j);
    HeaderTargetsApart(j, i);
  }

  /** Distinct header targets: neither begins with the other. */
  lemma HeaderTargetsApart(i: int, j: int)
    requires 0 <= i < |NavLinks| && 0 <= j < |NavLinks| && i != j
    ensures !StartsWith(NavLinks[i].0, NavLinks[j].0)
  {
    var a, b := NavLinks[i].0, NavLinks[j].0;
    assert a[1] != b[1] || (a[1] == 'n' && b[1] == 'n') by {
      assert NavLinks[0].0[1] == 'd';
      assert NavLinks[1].0[1] == 'p';
      assert NavLinks[2].0[1] == 't';
      assert NavLinks[3].0[1] == 'h';
      assert NavLinks[4].0[1] == 'n';
    }
    if |b| <= |a| {
      assert a[..|b|][1] == a[1];
    }
  }

  /** What the header offers on its right-hand side. */
  datatype AccountLinks =
    | SignedIn(email: string)  // a link to /profile showing the email, and Logout
    | SignedOut                // a link to /login

  /** A missing or empty email counts as signed out. */
  function Account(email: Option<string>): (r: AccountLinks)
    ensures r.SignedIn? <==> email.Some? && email.value != []
    ensures r.SignedIn? ==> r.email == email.value
  {
    if email.Some? && email.value != [] then SignedIn(email.value) else SignedOut
  }
}
