/**
 * `get_absolute_url` (downloader.py): resolving a link found on a page
 * against the page's URL. `urlparse` and `ParseResult.geturl` are
 * parameters; their split follows section 3 of RFC 3986.
 */
module Urls {
  import opened Text

  /** The six components `urlparse` returns. */
  datatype Url = Url(scheme: string, netloc: string, path: string, params: string, query: string, fragment: string)

  /** `url.strip("#") == ""`: the URL is made of '#' characters only. */
  predicate OnlyHashes(s: string) {
    forall i :: 0 <= i < |s| ==> s[i] == '#'
  }

  /** The components `get_absolute_url` hands to `geturl`: the link's own, with the base's scheme and host when it lacks either. */
  function Resolved(baseUrl: string, url: string, parse: string -> Url): (u: Url)
    ensures var p, b := parse(url), parse(baseUrl);
      && (p.scheme == [] || p.netloc == [] ==> u.scheme == b.scheme && u.netloc == b.netloc)
      && (p.scheme != [] && p.netloc != [] ==> u == p)
      && u.path == p.path && u.params == p.params && u.query == p.query && u.fragment == p.fragment
  {
    var parsed := parse(url);
    var base := parse(baseUrl);
    if parsed.netloc == [] || parsed.scheme == [] then parsed.(netloc := base.netloc, scheme := base.scheme)
    else parsed
  }

  /** `get_absolute_url(base_url, url)`. */
  function GetAbsoluteUrl(baseUrl: string, url: string, parse: string -> Url, unparse: Url -> string): (r: string)
    ensures Strip(url) == [] ==> r == []
    ensures OnlyHashes(url) ==> r == []
    ensures Strip(url) != [] && !OnlyHashes(url) && "http" <= url ==> r == url
    ensures Strip(url) != [] && !OnlyHashes(url) && !("http" <= url) ==> r == unparse(Resolved(baseUrl, url, parse))
  {
    HashStripEmpty(url);
    if Strip(url) == [] then []
    else if Trim(url, c => c == '#') == [] then []
    else if "http" <= url then url
    else unparse(Resolved(baseUrl, url, parse))
  }

  /** `strip("#")` leaves nothing exactly when every character is '#'. */
  lemma HashStripEmpty(url: string)
    ensures Trim(url, c => c == '#') == [] <==> OnlyHashes(url)
  {
    TrimEmptyIff(url, c => c == '#');
  }

  /**
   * The components `urlparse` reads back from the string `geturl` writes
   * for `u`: once there is a host, `urlunparse` puts a '/' between it and a
   * path (or parameters) that does not start with one.
   */
  function Rooted(u: Url): (r: Url)
    ensures r.scheme == u.scheme && r.netloc == u.netloc && r.params == u.params
    ensures r.query == u.query && r.fragment == u.fragment
    ensures r.path == u.path || (u.netloc != [] && !("/" <= u.path) && r.path == "/" + u.path)
    ensures u.netloc != [] && u.path != [] ==> "/" <= r.path
  {
    if u.netloc != [] && (u.path != [] || u.params != []) && !("/" <= u.path) then u.(path := "/" + u.path)
    else u
  }

  /** `urlparse(u.geturl())` gives back the components of `u`, up to the '/' that `Rooted` adds. */
  ghost predicate ReadsBack(parse: string -> Url, unparse: Url -> string, u: Url) {
    parse(unparse(u)) == Rooted(u)
  }

  /** Writing `u` with that '/' already in place gives the same string as writing `u`. */
  ghost predicate WritesRooted(unparse: Url -> string, u: Url) {
    unparse(Rooted(u)) == unparse(u)
  }

  /**
   * A relative link resolves to the base URL's scheme and host and keeps
   * its own parameters, query and fragment. Its path is kept too, except
   * that a relative path gains a leading '/' once there is a host. This
   * holds when `urlparse` reads the URL built here the way `ReadsBack` says.
   */
  lemma RelativeTakesBase(baseUrl: string, url: string, parse: string -> Url, unparse: Url -> string)
    requires Strip(url) != [] && !OnlyHashes(url) && !("http" <= url)
    requires parse(url).scheme == [] || parse(url).netloc == []
    requires ReadsBack(parse, unparse, Resolved(baseUrl, url, parse))
    ensures var r, p, b := parse(GetAbsoluteUrl(baseUrl, url, parse, unparse)), parse(url), parse(baseUrl);
      && r.scheme == b.scheme && r.netloc == b.netloc
      && r.params == p.params && r.query == p.query && r.fragment == p.fragment
      && (r.path == p.path || (b.netloc != [] && !("/" <= p.path) && r.path == "/" + p.path))
      && (b.netloc != [] && p.path != [] ==> "/" <= r.path)
  {
  }

  /**
   * Resolving twice against a base with a scheme and a host gives the same
   * URL as resolving once, when the first result is neither blank nor only
   * '#' and `urlparse` and `geturl` treat the URL built the first time as
   * `ReadsBack` and `WritesRooted` say.
   */
  lemma ResolveIdempotent(baseUrl: string, url: string, parse: string -> Url, unparse: Url -> string)
    requires parse(baseUrl).scheme != [] && parse(baseUrl).netloc != []
    requires ReadsBack(parse, unparse, Resolved(baseUrl, url, parse))
    requires WritesRooted(unparse, Resolved(baseUrl, url, parse))
    requires var r := GetAbsoluteUrl(baseUrl, url, parse, unparse); r == [] || (Strip(r) != [] && !OnlyHashes(r))
    ensures var r := GetAbsoluteUrl(baseUrl, url, parse, unparse);
      GetAbsoluteUrl(baseUrl, r, parse, unparse) == r
  {
    var r := GetAbsoluteUrl(baseUrl, url, parse, unparse);
    if r == [] {
      assert Strip(r) == [];
    } else if !("http" <= url) && !("http" <= r) {
      HashStripEmpty(url);
      var fixed := Resolved(baseUrl, url, parse);
      assert r == unparse(fixed);
      assert parse(r) == Rooted(fixed);
      assert Resolved(baseUrl, r, parse) == Rooted(fixed);
    }
  }
}
