/** `trim_trailing_slash` and `append_trailing_slash`. */
module NormalizePath {
  import opened Http

  datatype PathAndQuery = PathAndQuery(path: string, query: Option<string>)

  /** The parts of a `Uri`; an empty path without a query stands for no path at all. */
  datatype UriParts = UriParts(scheme: Option<string>, authority: Option<string>, pathAndQuery: PathAndQuery) {
    predicate HasPath() {
      pathAndQuery.path != "" || pathAndQuery.query.Some? || scheme.Some?
    }

    /** `Uri::path`. */
    function Path(): string {
      if !HasPath() then ""
      else if pathAndQuery.path == "" then "/"
      else pathAndQuery.path
    }

    /** What the `http` crate lets a `Uri` be. */
    predicate Valid() {
      && FromParts(scheme, authority, if HasPath() then Some(pathAndQuery) else None) == Some(this)
      && '?' !in pathAndQuery.path
      && (pathAndQuery.path == "" || pathAndQuery.path == "*" || pathAndQuery.path[0] == '/')
    }
  }

  const NO_PATH := PathAndQuery("", None)

  /** `Uri::from_parts`: scheme, authority and path come together, or one of the last two alone. */
  function FromParts(scheme: Option<string>, authority: Option<string>, pathAndQuery: Option<PathAndQuery>): Option<UriParts> {
    if scheme.Some? && (authority.None? || pathAndQuery.None?) then None
    else if scheme.None? && authority.Some? && pathAndQuery.Some? then None
    else Some(UriParts(scheme, authority, if pathAndQuery.Some? then pathAndQuery.value else NO_PATH))
  }

  /** `PathAndQuery::from_str`: the query starts after the first question mark. */
  function Parse(text: string): PathAndQuery {
    if text == "" then PathAndQuery("", None)
    else if text[0] == '?' then PathAndQuery("", Some(text[1..]))
    else
      var rest := Parse(text[1..]);
      PathAndQuery([text[0]] + rest.path, rest.query)
  }

  function Render(path: string, query: Option<string>): string {
    if query.Some? then path + "?" + query.value else path
  }

  function TrimStart(s: string): string {
    if s != "" && s[0] == '/' then TrimStart(s[1..]) else s
  }

  function TrimEnd(s: string): string {
    if s != "" && s[|s| - 1] == '/' then TrimEnd(s[..|s| - 1]) else s
  }

  /** `str::trim_matches('/')`. */
  function Inner(s: string): string {
    TrimEnd(TrimStart(s))
  }

  predicate StartsWith(s: string, prefix: string) {
    prefix <= s
  }

  predicate EndsWith(s: string, suffix: string) {
    |suffix| <= |s| && s[|s| - |suffix|..] == suffix
  }

  /** A new path with the old query; the URI stays as it is when its parts cannot be put together. */
  function WithPath(uri: UriParts, pathAndQuery: Option<PathAndQuery>): UriParts {
    match FromParts(uri.scheme, uri.authority, pathAndQuery)
    case Some(changed) => changed
    case None => uri
  }

  function Trimmed(uri: UriParts): UriParts {
    if !EndsWith(uri.Path(), "/") && !StartsWith(uri.Path(), "//") then uri
    else
      var path := "/" + Inner(uri.Path());
      WithPath(uri, if uri.HasPath() then Some(Parse(Render(path, uri.pathAndQuery.query))) else None)
  }

  function Appended(uri: UriParts): UriParts {
    if EndsWith(uri.Path(), "/") && !EndsWith(uri.Path(), "//") then uri
    else
      var trimmed := Inner(uri.Path());
      var path := if trimmed == "" then "/" else "/" + trimmed + "/";
      WithPath(uri, Some(Parse(if uri.HasPath() then Render(path, uri.pathAndQuery.query) else path)))
  }

  /** The request whose URI the middleware edits in place. */
  class Request {
    var uri: UriParts

    constructor (uri: UriParts)
      ensures this.uri == uri
    {
      this.uri := uri;
    }

    method TrimTrailingSlash()
      modifies this
      ensures uri == Trimmed(old(uri))
    {
      if !EndsWith(uri.Path(), "/") && !StartsWith(uri.Path(), "//") {
        return;
      }
      var newPath := "/" + Inner(uri.Path());
      var pathAndQuery: Option<PathAndQuery> := None;
      if uri.HasPath() {
        var query := uri.pathAndQuery.query;
        var text := newPath;
        if query.Some? {
          text := newPath + "?" + query.value;
        }
        pathAndQuery := Some(Parse(text));
      }
      var changed := FromParts(uri.scheme, uri.authority, pathAndQuery);
      if changed.Some? {
        uri := changed.value;
      }
    }

    method AppendTrailingSlash()
      modifies this
      ensures uri == Appended(old(uri))
    {
      if EndsWith(uri.Path(), "/") && !EndsWith(uri.Path(), "//") {
        return;
      }
      var trimmed := Inner(uri.Path());
      var newPath := "/";
      if trimmed != "" {
        newPath := "/" + trimmed + "/";
      }
      var text := newPath;
      if uri.HasPath() && uri.pathAndQuery.query.Some? {
        text := newPath + "?" + uri.pathAndQuery.query.value;
      }
      var changed := FromParts(uri.scheme, uri.authority, Some(Parse(text)));
      if changed.Some? {
        uri := changed.value;
      }
    }
  }
}
