/**
 * The route gate run before every matched request: admin routes need the
 * owner's session, the learner's routes need any session, and a session
 * that cannot be validated or refreshed sends the visitor back to log in.
 */
module Middleware {
  import opened Wrappers
  import opened JsText

  /**
   * What the auth service reports: no session, a session whose user and
   * refresh both came back without error, or an error while reading,
   * validating or refreshing the session.
   */
  datatype SessionLookup = NoSession | ValidSession(email: Option<string>) | SessionFailure

  datatype Response =
    | Pass                 // the request continues unchanged
    | ToLogin              // redirect to /login
    | ToHome               // redirect to /
    | ToLoginSessionError  // redirect to /login?error=session_error

  const ProtectedPrefixes: seq<string> := ["/practice", "/tests", "/profile", "/results", "/dashboard"]

  /** A route that needs a session: the path begins with one of the prefixes, as plain text. */
  predicate IsProtectedRoute(path: string) {
    exists i :: 0 <= i < |ProtectedPrefixes| && StartsWith(path, ProtectedPrefixes[i])
  }

  predicate IsAdminRoute(path: string) {
    StartsWith(path, "/admin")
  }

  /**
   * `middleware`. `owner` is NEXT_PUBLIC_OWNER_EMAIL, `None` when unset; the
   * session's email is compared with it as it is, so an unset owner admits
   * only a session without an email.
   */
  function Decide(path: string, session: SessionLookup, owner: Option<string>): (r: Response)
    ensures session.SessionFailure? <==> r == ToLoginSessionError
    ensures r == ToLogin <==> session.NoSession? && (IsAdminRoute(path) || IsProtectedRoute(path))
    ensures r == ToHome <==> session.ValidSession? && IsAdminRoute(path) && session.email != owner
    ensures r == Pass <==>
      && !session.SessionFailure?
      && (IsAdminRoute(path) ==> session.ValidSession? && session.email == owner)
      && (IsProtectedRoute(path) ==> session.ValidSession?)
  {
    if session.SessionFailure? then ToLoginSessionError
    else if IsAdminRoute(path) then
      if session.NoSession? then ToLogin
      else if session.email != owner then ToHome
      else Pass
    else if IsProtectedRoute(path) && session.NoSession? then ToLogin
    else Pass
  }

  /** No path is both an admin route and a protected route. */
  lemma AdminNotProtected(path: string)
    ensures !(IsAdminRoute(path) && IsProtectedRoute(path))
  {
    if IsAdminRoute(path) {
      assert path[1] == 'a';
      forall i | 0 <= i < |ProtectedPrefixes| ensures !StartsWith(path, ProtectedPrefixes[i]) {
        assert ProtectedPrefixes[i][1] != 'a';
      }
    }
  }

  /** The prefix test reaches past a segment boundary: a longer path keeps its parent's protection. */
  lemma ProtectedExtends(path: string, more: string)
    requires IsProtectedRoute(path)
    ensures IsProtectedRoute(path + more)
  {
    var i :| 0 <= i < |ProtectedPrefixes| && StartsWith(path, ProtectedPrefixes[i]);
    assert (path + more)[..|ProtectedPrefixes[i]|] == path[..|ProtectedPrefixes[i]|];
  }

  /** "/testsX" is gated like "/tests" although it is not below it. */
  lemma TestsXIsProtected()
    ensures IsProtectedRoute("/testsX")
    ensures Decide("/testsX", NoSession, None) == ToLogin
  {
    assert StartsWith("/testsX", ProtectedPrefixes[1]);
  }

  /** A path outside both kinds of route always passes, unless the session lookup failed. */
  lemma PublicPathPasses(path: string, session: SessionLookup, owner: Option<string>)
    requires !IsAdminRoute(path) && !IsProtectedRoute(path) && !session.SessionFailure?
    ensures Decide(path, session, owner) == Pass
  {
  }
}
