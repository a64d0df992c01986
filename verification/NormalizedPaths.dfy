/** Laws of trimming and appending slashes. */
module NormalizedPaths {
  import opened Http
  import opened NormalizePath

  /** Which URIs there are: a scheme comes with an authority, an authority without a scheme alone, and a path is empty,
      `*`, or starts with a slash. An empty path counts as a slash after a scheme or before a query. */
  lemma ValidIff(uri: UriParts)
    ensures uri.Valid() <==>
      var path, query := uri.pathAndQuery.path, uri.pathAndQuery.query;
      && '?' !in path && (path == "" || path == "*" || path[0] == '/')
      && (uri.scheme.Some? ==> uri.authority.Some?)
      && (uri.scheme.None? && uri.authority.Some? ==> path == "" && query.None?)
    ensures var path, query := uri.pathAndQuery.path, uri.pathAndQuery.query;
      uri.Path() == if path == "" && (uri.scheme.Some? || query.Some?) then "/" else path
  {
  }

  function Slashes(n: nat): string {
    seq(n, _ => '/')
  }

  /** Text without slashes at its ends. */
  predicate Bare(t: string) {
    t == "" || (t[0] != '/' && t[|t| - 1] != '/')
  }

  lemma {:induction false} StartOfSlashes(n: nat, t: string)
    requires t == "" || t[0] != '/'
    ensures TrimStart(Slashes(n) + t) == t
  {
    if n == 0 {
      assert Slashes(0) + t == t;
    } else {
      StartOfSlashes(n - 1, t);
      assert (Slashes(n) + t)[1..] == Slashes(n - 1) + t;
    }
  }

  lemma {:induction false} EndOfSlashes(t: string, n: nat)
    requires t == "" || t[|t| - 1] != '/'
    ensures TrimEnd(t + Slashes(n)) == t
  {
    var s := t + Slashes(n);
    if n == 0 {
      assert s == t;
    } else {
      EndOfSlashes(t, n - 1);
      assert s[..|s| - 1] == t + Slashes(n - 1);
    }
  }

  /** Text between two runs of slashes is what trimming finds. */
  lemma InnerIsUnique(a: nat, t: string, b: nat)
    requires Bare(t)
    ensures Inner(Slashes(a) + t + Slashes(b)) == t
  {
    if t == "" {
      StartOfSlashes(a + b, "");
      assert Slashes(a) + t + Slashes(b) == Slashes(a + b) + "";
    } else {
      StartOfSlashes(a, t + Slashes(b));
      assert Slashes(a) + t + Slashes(b) == Slashes(a) + (t + Slashes(b));
      EndOfSlashes(t, b);
    }
  }

  lemma {:induction false} StartShape(s: string) returns (n: nat)
    ensures s == Slashes(n) + TrimStart(s)
    ensures TrimStart(s) == "" || TrimStart(s)[0] != '/'
  {
    if s != "" && s[0] == '/' {
      var m := StartShape(s[1..]);
      n := m + 1;
      assert s == ['/'] + s[1..];
      assert Slashes(n) == ['/'] + Slashes(m);
    } else {
      n := 0;
    }
  }

  lemma {:induction false} EndShape(s: string) returns (n: nat)
    ensures s == TrimEnd(s) + Slashes(n)
    ensures TrimEnd(s) == "" || TrimEnd(s)[|TrimEnd(s)| - 1] != '/'
  {
    if s != "" && s[|s| - 1] == '/' {
      var m := EndShape(s[..|s| - 1]);
      n := m + 1;
      assert s == s[..|s| - 1] + ['/'];
      assert Slashes(n) == Slashes(m) + ['/'];
    } else {
      n := 0;
    }
  }

  /** Trimming takes slashes off both ends and nothing else. */
  lemma InnerShape(s: string) returns (a: nat, b: nat)
    ensures s == Slashes(a) + Inner(s) + Slashes(b)
    ensures Bare(Inner(s))
  {
    a := StartShape(s);
    b := EndShape(TrimStart(s));
    var t := TrimStart(s);
    assert t == Inner(s) + Slashes(b);
    assert Inner(s) != "" ==> t[0] == Inner(s)[0];
  }

  lemma {:induction false} ParseInvertsRender(path: string, query: Option<string>)
    requires '?' !in path
    ensures Parse(Render(path, query)) == PathAndQuery(path, query)
  {
    if path != "" {
      ParseInvertsRender(path[1..], query);
      assert Render(path, query)[1..] == Render(path[1..], query);
      assert path == [path[0]] + path[1..];
    } else if query.Some? {
      assert Render(path, query)[1..] == query.value;
    }
  }

  function Wrap(t: string): string {
    if t == "" then "/" else "/" + t + "/"
  }

  predicate EndsInOneSlash(path: string) {
    EndsWith(path, "/") && !EndsWith(path, "//")
  }

  function Rewritten(uri: UriParts, path: string): UriParts {
    uri.(pathAndQuery := PathAndQuery(path, uri.pathAndQuery.query))
  }

  /** A new path is put in place, with the query, scheme and authority as they were. */
  lemma NewPathIsPut(uri: UriParts, path: string)
    requires uri.Valid() && uri.HasPath() && '?' !in path
    ensures WithPath(uri, Some(Parse(Render(path, uri.pathAndQuery.query)))) == Rewritten(uri, path)
  {
    ParseInvertsRender(path, uri.pathAndQuery.query);
  }

  lemma InnerHasNoQuestionMark(s: string)
    requires '?' !in s
    ensures '?' !in "/" + Inner(s) && '?' !in Wrap(Inner(s))
  {
    var a, b := InnerShape(s);
    forall i | 0 <= i < |Inner(s)|
      ensures Inner(s)[i] != '?'
    {
      assert s[a + i] == Inner(s)[i];
    }
  }

  /** Trimming yields one leading slash and the text between the outer slashes; nothing else changes. */
  lemma TrimKeepsTheRest(uri: UriParts)
    requires uri.Valid() && StartsWith(uri.Path(), "/")
    ensures Trimmed(uri) == Rewritten(uri, "/" + Inner(uri.Path()))
  {
    var path := uri.Path();
    InnerHasNoQuestionMark(path);
    NewPathIsPut(uri, "/" + Inner(path));
    if !EndsWith(path, "/") && !StartsWith(path, "//") {
      assert path[|path| - 1] != '/';
      assert path[1..][|path| - 2] == path[|path| - 1];
      assert path[1] != '/';
      InnerIsUnique(1, path[1..], 0);
      assert path == Slashes(1) + path[1..] + Slashes(0);
    }
  }

  /** Appending leaves a path that ends in exactly one slash as it is, leading slashes and all; any other becomes
      the text between the outer slashes with one slash on each side. Nothing else changes. */
  lemma AppendKeepsTheRest(uri: UriParts)
    requires uri.Valid() && StartsWith(uri.Path(), "/")
    ensures Appended(uri) ==
            if EndsInOneSlash(uri.Path()) then uri else Rewritten(uri, Wrap(Inner(uri.Path())))
    ensures EndsInOneSlash(Appended(uri).Path())
  {
    var path := uri.Path();
    InnerHasNoQuestionMark(path);
    NewPathIsPut(uri, Wrap(Inner(path)));
    var a, b := InnerShape(path);
    WrapEndsInOneSlash(Inner(path));
  }

  lemma WrapEndsInOneSlash(t: string)
    requires Bare(t)
    ensures EndsInOneSlash(Wrap(t)) && Inner(Wrap(t)) == t && Wrap(t) != ""
  {
    InnerIsUnique(1, t, if t == "" then 0 else 1);
    assert Wrap(t) == Slashes(1) + t + Slashes(if t == "" then 0 else 1);
    if t != "" {
      var w := Wrap(t);
      assert w[|w| - 2] == t[|t| - 1];
      assert w[|w| - 2..][0] != '/';
    }
  }

  lemma TrimmedInner(path: string)
    ensures Inner("/" + Inner(path)) == Inner(path)
  {
    var a, b := InnerShape(path);
    InnerIsUnique(1, Inner(path), 0);
    assert "/" + Inner(path) == Slashes(1) + Inner(path) + Slashes(0);
  }

  lemma RewrittenIsValid(uri: UriParts, path: string)
    requires uri.Valid() && uri.HasPath() && StartsWith(path, "/") && '?' !in path
    ensures Rewritten(uri, path).Valid() && Rewritten(uri, path).Path() == path
  {
  }

  /** Parts that do not go together with a path leave any URI as it is. */
  lemma UnjoinableStays(uri: UriParts)
    requires uri.scheme.Some? <==> uri.authority.None?
    ensures uri.scheme.Some? || uri.HasPath() ==> Trimmed(uri) == uri
    ensures Appended(uri) == uri
  {
  }

  /** Trimming twice is trimming once. */
  lemma TrimIsIdempotent(uri: UriParts)
    requires uri.Valid()
    ensures Trimmed(uri).Valid() && Trimmed(Trimmed(uri)) == Trimmed(uri)
  {
    if StartsWith(uri.Path(), "/") {
      TrimKeepsTheRest(uri);
      InnerHasNoQuestionMark(uri.Path());
      RewrittenIsValid(uri, "/" + Inner(uri.Path()));
      TrimKeepsTheRest(Trimmed(uri));
      TrimmedInner(uri.Path());
    }
  }

  lemma OneSlashStays(uri: UriParts)
    requires EndsInOneSlash(uri.Path())
    ensures Appended(uri) == uri
  {
  }

  /** A path that starts with a slash stays valid, and ends in one slash. */
  lemma AppendedIsValid(uri: UriParts)
    requires uri.Valid() && StartsWith(uri.Path(), "/")
    ensures Appended(uri).Valid() && EndsInOneSlash(Appended(uri).Path())
  {
    AppendKeepsTheRest(uri);
    if !EndsInOneSlash(uri.Path()) {
      InnerHasNoQuestionMark(uri.Path());
      RewrittenIsValid(uri, Wrap(Inner(uri.Path())));
    }
  }

  /** Appending twice is appending once. */
  lemma AppendIsIdempotent(uri: UriParts)
    requires uri.Valid()
    ensures Appended(uri).Valid() && Appended(Appended(uri)) == Appended(uri)
  {
    if StartsWith(uri.Path(), "/") {
      AppendedIsValid(uri);
      OneSlashStays(Appended(uri));
    } else {
      AddedIsValid(uri);
    }
  }

  lemma AddedIsValid(uri: UriParts)
    requires uri.Valid() && !StartsWith(uri.Path(), "/")
    ensures Appended(uri).Valid() && Appended(Appended(uri)) == Appended(uri)
  {
    AppendElsewhere(uri);
    if uri.HasPath() {
      OneSlashStays(Rewritten(uri, "/*/"));
    } else if uri.authority.None? {
      OneSlashStays(Rewritten(uri, "/"));
    }
  }

  lemma StarIsWrapped(uri: UriParts)
    requires uri.Valid() && uri.HasPath() && uri.Path() == "*"
    ensures Appended(uri) == Rewritten(uri, "/*/")
  {
    InnerIsUnique(0, "*", 0);
    assert Slashes(0) + "*" + Slashes(0) == "*";
    assert Inner("*") == "*" && "/" + "*" + "/" == "/*/";
    NewPathIsPut(uri, "/*/");
  }

  lemma NoPathIsAdded(uri: UriParts)
    requires uri.Valid() && !uri.HasPath()
    ensures Appended(uri) == if uri.authority.Some? then uri else Rewritten(uri, "/")
  {
    ParseInvertsRender("/", None);
  }

  /** Paths that do not start with a slash: `*`, and no path at all. */
  lemma AppendElsewhere(uri: UriParts)
    requires uri.Valid() && !StartsWith(uri.Path(), "/")
    ensures uri.HasPath() ==> uri.Path() == "*" && Appended(uri) == Rewritten(uri, "/*/")
    ensures !uri.HasPath() ==> Appended(uri) == if uri.authority.Some? then uri else Rewritten(uri, "/")
    ensures Trimmed(uri) == uri
  {
    if uri.HasPath() {
      StarIsWrapped(uri);
    } else {
      NoPathIsAdded(uri);
    }
  }

  /** Trimming undoes appending, and does so exactly for URIs whose path starts with a slash and for URIs that
      are only an authority: `*` becomes a path, and so does a URI without any part. */
  lemma TrimUndoesAppendIff(uri: UriParts)
    requires uri.Valid()
    ensures Trimmed(Appended(uri)) == Trimmed(uri) <==>
            StartsWith(uri.Path(), "/") || (!uri.HasPath() && uri.authority.Some?)
  {
    if StartsWith(uri.Path(), "/") {
      AppendKeepsTheRest(uri);
      if !EndsInOneSlash(uri.Path()) {
        var a, b := InnerShape(uri.Path());
        WrapEndsInOneSlash(Inner(uri.Path()));
        InnerHasNoQuestionMark(uri.Path());
        RewrittenIsValid(uri, Wrap(Inner(uri.Path())));
        TrimKeepsTheRest(Appended(uri));
        TrimKeepsTheRest(uri);
      }
    } else {
      AppendElsewhere(uri);
      if uri.HasPath() || uri.authority.None? {
        TrimElsewhere(uri);
      }
    }
  }

  lemma TrimElsewhere(uri: UriParts)
    requires uri.Valid() && !StartsWith(uri.Path(), "/") && (uri.HasPath() || uri.authority.None?)
    ensures Trimmed(Appended(uri)) != uri
  {
    AppendElsewhere(uri);
    var path := if uri.HasPath() then "/*/" else "/";
    var appended := Rewritten(uri, path);
    assert appended.Valid() && appended.Path() == path;
    TrimKeepsTheRest(appended);
  }
}
