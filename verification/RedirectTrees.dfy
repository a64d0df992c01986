/** What a tree of policies decides, filters and copies, told by its leaves. */
module RedirectTrees {
  import opened Http
  import opened FollowRedirect
  import opened RedirectPolicy

  /** The leaves from left to right. */
  function Leaves(p: Policy): seq<Policy> {
    match p
    case And(a, b) => Leaves(a) + Leaves(b)
    case Or(a, b) => Leaves(a) + Leaves(b)
    case _ => [p]
  }

  /** The origin of a URI; section 4 of RFC 6454. Schemes other than `http` and `https` have none that compares. */
  function Origin(u: Uri): Option<(Scheme, string, nat)> {
    match (u.scheme, u.host)
    case (Some(HttpScheme), Some(host)) => Some((HttpScheme, host, if u.port.Some? then u.port.value else 80))
    case (Some(HttpsScheme), Some(host)) => Some((HttpsScheme, host, if u.port.Some? then u.port.value else 443))
    case _ => None
  }

  predicate SameOriginUris(l: Uri, r: Uri) {
    Origin(l).Some? && Origin(l) == Origin(r)
  }

  /** `eq_origin` compares origins: it is an equivalence on the URIs that have one, and holds of no others. */
  lemma ComparesOrigins(l: Uri, r: Uri)
    ensures EqOrigin(l, r) <==> SameOriginUris(l, r)
  {
  }

  // ---------------------------------------------------------------- decisions

  /** What a leaf answers. */
  function Says(leaf: Policy, attempt: Attempt): Result<Action, Failure> {
    match leaf
    case Fixed(answer) => answer
    case Limited(remaining) => Ok(if remaining == 0 then Stop else Follow)
    case RedirectFn(f, seen) => f(seen + [attempt])
    case SameOrigin => Ok(if SameOriginUris(attempt.previous, attempt.location) then Follow else Stop)
    case _ => Ok(Follow)
  }

  /** What a leaf that has been asked becomes. */
  function AfterAsking(leaf: Policy, attempt: Attempt): Policy {
    match leaf
    case Limited(remaining) => Limited(if remaining == 0 then 0 else remaining - 1)
    case RedirectFn(f, seen) => RedirectFn(f, seen + [attempt])
    case FilterCredentials(filter, _) =>
      FilterCredentials(filter, filter.blockAny
                                || (filter.blockCrossOrigin && !SameOriginUris(attempt.previous, attempt.location)))
    case _ => leaf
  }

  /** The tree read as a formula. */
  predicate Accepts(p: Policy, attempt: Attempt) {
    match p
    case And(a, b) => Accepts(a, attempt) && Accepts(b, attempt)
    case Or(a, b) => Accepts(a, attempt) || Accepts(b, attempt)
    case _ => Says(p, attempt) == Ok(Follow)
  }

  function Nobody(p: Policy): seq<bool> {
    seq(|Leaves(p)|, _ => false)
  }

  /** Which leaves are asked: the second policy of a pair only when the first one leaves the formula open. */
  function Asked(p: Policy, attempt: Attempt): (asked: seq<bool>)
    ensures |asked| == |Leaves(p)|
  {
    match p
    case And(a, b) => Asked(a, attempt) + (if Accepts(a, attempt) then Asked(b, attempt) else Nobody(b))
    case Or(a, b) => Asked(a, attempt) + (if Accepts(a, attempt) then Nobody(b) else Asked(b, attempt))
    case _ => [true]
  }

  predicate IsLast(asked: seq<bool>, k: nat) {
    k < |asked| && asked[k] && forall j :: k < j < |asked| ==> !asked[j]
  }

  predicate SameShape(p: Policy, q: Policy) {
    match p
    case And(a, b) => q.And? && SameShape(a, q.a) && SameShape(b, q.b)
    case Or(a, b) => q.Or? && SameShape(a, q.a) && SameShape(b, q.b)
    case _ => !q.And? && !q.Or?
  }

  /** Exactly the leaves that were asked have moved on. */
  ghost predicate Moved(before: seq<Policy>, after: seq<Policy>, asked: seq<bool>, attempt: Attempt) {
    && |before| == |after| == |asked|
    && forall i :: 0 <= i < |before| ==> after[i] == if asked[i] then AfterAsking(before[i], attempt) else before[i]
  }

  lemma MovedJoined(a: seq<Policy>, a': seq<Policy>, x: seq<bool>, b: seq<Policy>, b': seq<Policy>, y: seq<bool>,
                    attempt: Attempt)
    requires Moved(a, a', x, attempt) && Moved(b, b', y, attempt)
    ensures Moved(a + b, a' + b', x + y, attempt)
  {
  }

  lemma LastOfBoth(x: seq<bool>, y: seq<bool>, k: nat)
    requires IsLast(y, k)
    ensures IsLast(x + y, |x| + k)
  {
  }

  lemma LastOfFirst(x: seq<bool>, p: Policy, k: nat)
    requires IsLast(x, k)
    ensures IsLast(x + Nobody(p), k)
  {
  }

  lemma NobodyMoves(p: Policy, attempt: Attempt)
    ensures Moved(Leaves(p), Leaves(p), Nobody(p), attempt)
  {
  }

  lemma {:induction false} ShapeIsKept(p: Policy)
    ensures SameShape(p, p)
  {
    if p.And? || p.Or? {
      ShapeIsKept(p.a);
      ShapeIsKept(p.b);
    }
  }

  /** What the theorem below says. */
  ghost predicate Decided(p: Policy, attempt: Attempt, k: nat) {
    var (p', answer) := Redirect(p, attempt);
    && (answer == Ok(Follow) <==> Accepts(p, attempt))
    && IsLast(Asked(p, attempt), k) && answer == Says(Leaves(p)[k], attempt)
    && Moved(Leaves(p), Leaves(p'), Asked(p, attempt), attempt)
    && SameShape(p, p')
  }

  /** What a pair does when its first policy leaves the formula open, and when it does not. */
  lemma PairAsks(p: Policy, attempt: Attempt)
    requires p.And? || p.Or?
    requires Redirect(p.a, attempt).1 == Ok(Follow) <==> Accepts(p.a, attempt)
    ensures var (a', first) := Redirect(p.a, attempt); var (b', second) := Redirect(p.b, attempt);
      Redirect(p, attempt) ==
      if p.And? <==> Accepts(p.a, attempt) then (if p.And? then And(a', b') else Or(a', b'), second)
      else (if p.And? then And(a', p.b) else Or(a', p.b), first)
  {
    var first := Redirect(p.a, attempt).1;
    if first.Ok? {
      match first.value
      case Follow =>
      case Stop =>
    }
  }

  /** Both halves of a tree are asked. */
  predicate AsksBoth(p: Policy, attempt: Attempt) {
    (p.And? && Accepts(p.a, attempt)) || (p.Or? && !Accepts(p.a, attempt))
  }

  lemma BothMoved(p: Policy, attempt: Attempt, i: nat, k: nat)
    requires AsksBoth(p, attempt) && Decided(p.a, attempt, i) && Decided(p.b, attempt, k)
    ensures Moved(Leaves(p), Leaves(Redirect(p, attempt).0), Asked(p, attempt), attempt)
  {
    var (a', b') := (Redirect(p.a, attempt).0, Redirect(p.b, attempt).0);
    PairAsks(p, attempt);
    assert Leaves(Redirect(p, attempt).0) == Leaves(a') + Leaves(b');
    MovedJoined(Leaves(p.a), Leaves(a'), Asked(p.a, attempt), Leaves(p.b), Leaves(b'), Asked(p.b, attempt), attempt);
  }

  lemma BothLast(p: Policy, attempt: Attempt, k: nat)
    requires AsksBoth(p, attempt) && IsLast(Asked(p.b, attempt), k)
    ensures IsLast(Asked(p, attempt), |Leaves(p.a)| + k) && Leaves(p)[|Leaves(p.a)| + k] == Leaves(p.b)[k]
  {
    LastOfBoth(Asked(p.a, attempt), Asked(p.b, attempt), k);
  }

  lemma BothAsked(p: Policy, attempt: Attempt, i: nat, k: nat)
    requires AsksBoth(p, attempt) && Decided(p.a, attempt, i) && Decided(p.b, attempt, k)
    ensures Decided(p, attempt, |Leaves(p.a)| + k)
  {
    PairAsks(p, attempt);
    BothMoved(p, attempt, i, k);
    BothLast(p, attempt, k);
  }

  /** Only the first half is. */
  lemma FirstAsked(p: Policy, attempt: Attempt, k: nat)
    requires (p.And? && !Accepts(p.a, attempt)) || (p.Or? && Accepts(p.a, attempt))
    requires Decided(p.a, attempt, k)
    ensures Decided(p, attempt, k)
  {
    var a' := Redirect(p.a, attempt).0;
    PairAsks(p, attempt);
    NobodyMoves(p.b, attempt);
    MovedJoined(Leaves(p.a), Leaves(a'), Asked(p.a, attempt), Leaves(p.b), Leaves(p.b), Nobody(p.b), attempt);
    LastOfFirst(Asked(p.a, attempt), p.b, k);
    ShapeIsKept(p.b);
    assert Leaves(p)[k] == Leaves(p.a)[k];
    assert Leaves(Redirect(p, attempt).0) == Leaves(a') + Leaves(p.b);
  }

  lemma LeafDecides(p: Policy, attempt: Attempt)
    requires !p.And? && !p.Or?
    ensures Redirect(p, attempt) == (AfterAsking(p, attempt), Says(p, attempt))
  {
    ComparesOrigins(attempt.previous, attempt.location);
  }

  /** A tree follows a redirect if and only if the formula accepts it. Its answer is that of the last leaf asked, the
      leaves asked move on, and nothing else in the tree changes. */
  lemma {:induction false} TreeDecides(p: Policy, attempt: Attempt) returns (k: nat)
    ensures var (p', answer) := Redirect(p, attempt);
      && (answer == Ok(Follow) <==> Accepts(p, attempt))
      && IsLast(Asked(p, attempt), k) && answer == Says(Leaves(p)[k], attempt)
      && Moved(Leaves(p), Leaves(p'), Asked(p, attempt), attempt)
      && SameShape(p, p')
  {
    if p.And? || p.Or? {
      k := TreeDecides(p.a, attempt);
      assert Decided(p.a, attempt, k);
      if p.And? <==> Accepts(p.a, attempt) {
        var j := TreeDecides(p.b, attempt);
        assert Decided(p.b, attempt, j);
        BothAsked(p, attempt, k, j);
        k := |Leaves(p.a)| + j;
      } else {
        FirstAsked(p, attempt, k);
      }
      assert Decided(p, attempt, k);
    } else {
      LeafDecides(p, attempt);
      k := 0;
    }
  }

  // ---------------------------------------------------------------- requests

  /** A blocked filter that removes a header. */
  predicate Drops(leaf: Policy, name: HeaderName) {
    && leaf.FilterCredentials? && leaf.blocked
    && (leaf.filter.removeAll || (leaf.filter.removeBlocklisted && name in {Authorization, Cookie, ProxyAuthorization}))
  }

  /** A blocked filter that removes an extension. */
  predicate DropsExtension(leaf: Policy, k: nat) {
    leaf.FilterCredentials? && leaf.blocked && leaf.filter.removeAllExtensions && k !in leaf.filter.allowlist
  }

  predicate Survives(leaves: seq<Policy>, name: HeaderName) {
    forall i :: 0 <= i < |leaves| ==> !Drops(leaves[i], name)
  }

  predicate ExtensionSurvives(leaves: seq<Policy>, k: nat) {
    forall i :: 0 <= i < |leaves| ==> !DropsExtension(leaves[i], k)
  }

  lemma SurvivesJoined(a: seq<Policy>, b: seq<Policy>)
    ensures forall name :: Survives(a + b, name) <==> Survives(a, name) && Survives(b, name)
    ensures forall k :: ExtensionSurvives(a + b, k) <==> ExtensionSurvives(a, k) && ExtensionSurvives(b, k)
  {
    forall name
      ensures Survives(a + b, name) <==> Survives(a, name) && Survives(b, name)
    {
      if Survives(a + b, name) {
        assert forall i :: 0 <= i < |a| ==> (a + b)[i] == a[i];
        assert forall i :: 0 <= i < |b| ==> (a + b)[|a| + i] == b[i];
      }
    }
    forall k
      ensures ExtensionSurvives(a + b, k) <==> ExtensionSurvives(a, k) && ExtensionSurvives(b, k)
    {
      if ExtensionSurvives(a + b, k) {
        assert forall i :: 0 <= i < |a| ==> (a + b)[i] == a[i];
        assert forall i :: 0 <= i < |b| ==> (a + b)[|a| + i] == b[i];
      }
    }
  }

  /** The entries of a request that no leaf removes. */
  function Remaining(leaves: seq<Policy>, r: Request): Request {
    r.(headers := map name | name in r.headers && Survives(leaves, name) :: r.headers[name],
       extensions := map k | k in r.extensions && ExtensionSurvives(leaves, k) :: r.extensions[k])
  }

  lemma OneLeaf(p: Policy)
    ensures forall name :: Survives([p], name) <==> !Drops(p, name)
    ensures forall k :: ExtensionSurvives([p], k) <==> !DropsExtension(p, k)
  {
    assert forall name :: Survives([p], name) <==> !Drops([p][0], name);
    assert forall k :: ExtensionSurvives([p], k) <==> !DropsExtension([p][0], k);
  }

  lemma FilterRemains(filter: Filter, r: Request)
    ensures Filtered(filter, r) == Remaining([FilterCredentials(filter, true)], r)
  {
    var leaf := FilterCredentials(filter, true);
    FilteredHeaders(filter, r);
    OneLeaf(leaf);
    assert Filtered(filter, r).headers == Remaining([leaf], r).headers;
    assert Filtered(filter, r).extensions == Remaining([leaf], r).extensions;
  }

  lemma FilteredHeaders(filter: Filter, r: Request)
    ensures var headers := Filtered(filter, r).headers; var leaf := FilterCredentials(filter, true);
      && (forall name :: name in headers <==> name in r.headers && !Drops(leaf, name))
      && (forall name :: name in headers ==> headers[name] == r.headers[name])
  {
  }

  lemma LeafFilters(p: Policy, r: Request)
    requires !p.And? && !p.Or?
    ensures OnRequest(p, r) == Remaining([p], r)
  {
    OneLeaf(p);
    if p.FilterCredentials? && p.blocked {
      FilterRemains(p.filter, r);
    } else {
      assert Remaining([p], r).headers == r.headers && Remaining([p], r).extensions == r.extensions;
    }
  }

  lemma RemainingJoined(a: seq<Policy>, b: seq<Policy>, r: Request)
    ensures Remaining(b, Remaining(a, r)) == Remaining(a + b, r)
  {
    SurvivesJoined(a, b);
    assert Remaining(b, Remaining(a, r)).headers == Remaining(a + b, r).headers;
    assert Remaining(b, Remaining(a, r)).extensions == Remaining(a + b, r).extensions;
  }

  /** A tree takes from a request exactly what some blocked filter in it removes, wherever in the tree that filter is,
      and leaves all else as it was. */
  lemma {:induction false} TreeFilters(p: Policy, r: Request)
    ensures OnRequest(p, r) == Remaining(Leaves(p), r)
  {
    if p.And? || p.Or? {
      TreeFilters(p.a, r);
      TreeFilters(p.b, OnRequest(p.a, r));
      RemainingJoined(Leaves(p.a), Leaves(p.b), r);
    } else {
      LeafFilters(p, r);
    }
  }

  // ---------------------------------------------------------------- bodies

  function Copies(leaf: Policy, body: Body): Option<Body> {
    if leaf.CloneBodyFn? then leaf.clone(body) else None
  }

  /** A tree copies a body if and only if one of its leaves does, and the first of those makes the copy. */
  lemma {:induction false} TreeCopies(p: Policy, body: Body) returns (k: nat)
    ensures var leaves := Leaves(p);
      && k <= |leaves| && (forall i :: 0 <= i < k ==> Copies(leaves[i], body) == None)
      && CloneWith(p, body) == (if k < |leaves| then Copies(leaves[k], body) else None)
      && (k < |leaves| ==> Copies(leaves[k], body).Some?)
  {
    if p.And? || p.Or? {
      k := TreeCopies(p.a, body);
      if k == |Leaves(p.a)| {
        var j := TreeCopies(p.b, body);
        k := k + j;
      }
    } else {
      k := if Copies(p, body).Some? then 0 else 1;
    }
  }

  /** The same for the operations that the redirect machine runs. */
  lemma TreeOperations(p: Policy, attempt: Attempt, r: Request, body: Body)
    ensures TreeOps().redirect(p, attempt) == Redirect(p, attempt)
    ensures TreeOps().onRequest(p, r) == (p, Remaining(Leaves(p), r))
    ensures TreeOps().cloneBody(p, body) == CloneWith(p, body)
  {
    TreeFilters(p, r);
  }
}
