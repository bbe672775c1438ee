/**
 * The sitemap: one entry per public route, under a base address taken from
 * NEXT_PUBLIC_SITE_URL with one trailing slash removed.
 */
module Sitemap {
  import opened Wrappers

  const DefaultBase: string := "https://hsscguru.vercel.app"

  /** The address with a single '/' at its very end removed, as `replace(/\/$/, "")` does. */
  function StripSlash(s: string): (r: string)
    ensures |s| > 0 && s[|s| - 1] == '/' ==> r == s[..|s| - 1]
    ensures !(|s| > 0 && s[|s| - 1] == '/') ==> r == s
  {
    if |s| > 0 && s[|s| - 1] == '/' then s[..|s| - 1] else s
  }

  /** The base address: the stripped environment value, or the default when that is unset or empty. */
  function Base(env: Option<string>): (r: string)
    ensures r != []
    ensures env.Some? && StripSlash(env.value) != [] ==> r == StripSlash(env.value)
    ensures env.None? || StripSlash(env.value) == [] ==> r == DefaultBase
  {
    var stripped := if env.None? then "" else StripSlash(env.value);
    if stripped == [] then DefaultBase else stripped
  }

  /** Only one slash goes: a value ending in several keeps all but the last. */
  lemma OneSlashOnly(s: string)
    requires s != []
    ensures Base(Some(s + "/")) == s
    ensures Base(Some(s + "//")) == s + "/"
  {
    assert (s + "/")[..|s|] == s;
    assert (s + "//")[..|s| + 1] == s + "/";
  }

  /** A value without a trailing slash is used as it is. */
  lemma PlainBase(s: string)
    requires s != [] && s[|s| - 1] != '/'
    ensures Base(Some(s)) == s
  {
  }

  /** Unset, empty and a lone "/" all give the default address. */
  lemma FallbackBase()
    ensures Base(None) == DefaultBase
    ensures Base(Some("")) == DefaultBase
    ensures Base(Some("/")) == DefaultBase
  {
    assert StripSlash("/") == "";
  }

  const Routes: seq<string> := ["", "/dashboard", "/practice", "/tests", "/haryana-updates", "/notes", "/jobs", "/login"]

  datatype Frequency = Daily | Weekly

  /** One sitemap entry; `lastModified` is the generation time, as given. */
  datatype Entry = Entry(url: string, lastModified: int, changeFrequency: Frequency, priority: real)

  /** The entry for one route: the home page is daily at priority 1, the rest weekly at 0.7. */
  function RouteEntry(base: string, path: string, now: int): (e: Entry)
    ensures e.url == base + path && e.lastModified == now
    ensures path == [] <==> e.changeFrequency == Daily
    ensures path == [] <==> e.priority == 1.0
    ensures path != [] <==> e.priority == 0.7
  {
    Entry(base + path, now, if path != [] then Weekly else Daily, if path == [] then 1.0 else 0.7)
  }

  /** `sitemap`: the entries of all routes, in order, stamped with the same time `now`. */
  function Entries(env: Option<string>, now: int): (r: seq<Entry>)
    ensures |r| == |Routes|
    ensures forall i :: 0 <= i < |r| ==> r[i] == RouteEntry(Base(env), Routes[i], now)
  {
    seq(|Routes|, i requires 0 <= i < |Routes| => RouteEntry(Base(env), Routes[i], now))
  }

  /** The first entry is the home page itself; every url begins with the base. */
  lemma EntriesUnderBase(env: Option<string>, now: int)
    ensures Entries(env, now)[0].url == Base(env)
    ensures Entries(env, now)[0].priority == 1.0
    ensures forall i :: 0 <= i < |Routes| ==> Entries(env, now)[i].url[..|Base(env)|] == Base(env)
  {
    var r := Entries(env, now);
    assert Base(env) + "" == Base(env);
    forall i | 0 <= i < |Routes| ensures r[i].url[..|Base(env)|] == Base(env) {
      assert r[i].url == Base(env) + Routes[i];
    }
  }

  /** The urls are pairwise distinct, because the routes are. */
  lemma DistinctUrls(env: Option<string>, now: int, i: int, j: int)
    requires 0 <= i < |Routes| && 0 <= j < |Routes| && i != j
    ensures Entries(env, now)[i].url != Entries(env, now)[j].url
  {
    DistinctRoutes(i, j);
    DistinctAfter(Base(env), Routes[i], Routes[j]);
  }

  /** No route is listed twice. */
  lemma DistinctRoutes(i: int, j: int)
    requires 0 <= i < |Routes| && 0 <= j < |Routes| && i != j
    ensures Routes[i] != Routes[j]
  {
    var len := seq(|Routes|, k requires 0 <= k < |Routes| => |Routes[k]|);
    assert len == [0, 10, 9, 6, 16, 6, 5, 6];
    if len[i] == len[j] {
      assert Routes[i][1] != Routes[j][1];
    }
  }

  /** Distinct texts stay distinct after a common prefix. */
  lemma DistinctAfter(b: string, x: string, y: string)
    requires x != y
    ensures b + x != b + y
  {
    assert (b + x)[|b|..] == x && (b + y)[|b|..] == y;
  }
}
