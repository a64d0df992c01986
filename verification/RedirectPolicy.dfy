/** The policies of the library as trees, and what they guarantee over whole calls. */
module RedirectPolicy {
  import opened Http
  import opened FollowRedirect
  import opened RedirectRuns

  /** What `FilterCredentials` removes on blocked redirections, and which redirections those are. */
  datatype Filter = Filter(
    blockCrossOrigin: bool, blockAny: bool, removeBlocklisted: bool, removeAll: bool, removeAllExtensions: bool,
    allowlist: seq<nat>)

  const DEFAULT_FILTER := Filter(true, false, true, false, true, [])

  datatype Policy =
    /** `Action` and `Result<Action, E>` used as policies. */
    | Fixed(answer: Result<Action, Failure>)
    | Limited(remaining: nat)
    /** The state of an `FnMut` is what it makes of the attempts it has seen. */
    | RedirectFn(f: seq<Attempt> -> Result<Action, Failure>, seen: seq<Attempt>)
    | CloneBodyFn(clone: Body -> Option<Body>)
    | SameOrigin
    | FilterCredentials(filter: Filter, blocked: bool)
    | And(a: Policy, b: Policy)
    | Or(a: Policy, b: Policy)

  /** `Standard`: the default policy. */
  const STANDARD := And(Limited(20), FilterCredentials(DEFAULT_FILTER, false))

  function DefaultPort(scheme: Scheme): Option<nat> {
    match scheme
    case HttpScheme => Some(80)
    case HttpsScheme => Some(443)
    case OtherScheme(_) => None
  }

  function PortOr(port: Option<nat>, default: nat): nat {
    if port.Some? then port.value else default
  }

  /** `eq_origin`; sections 4 and 5 of RFC 6454. */
  predicate EqOrigin(l: Uri, r: Uri) {
    && l.scheme.Some? && l.scheme == r.scheme && DefaultPort(l.scheme.value).Some?
    && l.host.Some? && l.host == r.host
    && var port := DefaultPort(l.scheme.value).value; PortOr(l.port, port) == PortOr(r.port, port)
  }

  function Redirect(p: Policy, attempt: Attempt): (Policy, Result<Action, Failure>) {
    match p
    case Fixed(answer) => (p, answer)
    case Limited(remaining) => if remaining > 0 then (Limited(remaining - 1), Ok(Follow)) else (p, Ok(Stop))
    case RedirectFn(f, seen) => (RedirectFn(f, seen + [attempt]), f(seen + [attempt]))
    case CloneBodyFn(_) => (p, Ok(Follow))
    case SameOrigin => (p, Ok(if EqOrigin(attempt.previous, attempt.location) then Follow else Stop))
    case FilterCredentials(filter, _) =>
      var blocked := filter.blockAny || (filter.blockCrossOrigin && !EqOrigin(attempt.previous, attempt.location));
      (FilterCredentials(filter, blocked), Ok(Follow))
    case And(a, b) =>
      var (a', answer) := Redirect(a, attempt);
      if answer == Ok(Follow) then
        var (b', second) := Redirect(b, attempt);
        (And(a', b'), second)
      else (And(a', b), answer)
    case Or(a, b) =>
      var (a', answer) := Redirect(a, attempt);
      if answer == Ok(Stop) || answer.Err? then
        var (b', second) := Redirect(b, attempt);
        (Or(a', b'), second)
      else (Or(a', b), answer)
  }

  function Filtered(filter: Filter, r: Request): Request {
    var headers :=
      if filter.removeAll then map[]
      else if filter.removeBlocklisted then Remove(Remove(Remove(r.headers, Authorization), Cookie), ProxyAuthorization)
      else r.headers;
    var extensions :=
      if filter.removeAllExtensions then map k | k in r.extensions && k in filter.allowlist :: r.extensions[k]
      else r.extensions;
    r.(headers := headers, extensions := extensions)
  }

  function OnRequest(p: Policy, r: Request): Request {
    match p
    case FilterCredentials(filter, blocked) => if blocked then Filtered(filter, r) else r
    case And(a, b) => OnRequest(b, OnRequest(a, r))
    case Or(a, b) => OnRequest(b, OnRequest(a, r))
    case _ => r
  }

  function CloneWith(p: Policy, body: Body): Option<Body> {
    match p
    case CloneBodyFn(clone) => clone(body)
    case And(a, b) => (match CloneWith(a, body) case Some(copy) => Some(copy) case None => CloneWith(b, body))
    case Or(a, b) => (match CloneWith(a, body) case Some(copy) => Some(copy) case None => CloneWith(b, body))
    case _ => None
  }

  function TreeOps(): PolicyOps<Policy> {
    PolicyOps((p, attempt) => Redirect(p, attempt), (p, r) => (p, OnRequest(p, r)), (p, body) => CloneWith(p, body))
  }

  // ---------------------------------------------------------------- requests are only filtered

  lemma FilteredIsNarrower(filter: Filter, r: Request)
    ensures Sub(Of(Filtered(filter, r)), Of(r))
  {
  }

  lemma {:induction false} OnRequestFilters(p: Policy, r: Request)
    ensures var r' := OnRequest(p, r);
      Sub(Of(r'), Of(r)) && r'.verb == r.verb && r'.uri == r.uri && r'.body == r.body
  {
    match p
    case FilterCredentials(filter, _) => FilteredIsNarrower(filter, r);
    case And(a, b) =>
      OnRequestFilters(a, r);
      OnRequestFilters(b, OnRequest(a, r));
      SubTrans(Of(OnRequest(p, r)), Of(OnRequest(a, r)), Of(r));
    case Or(a, b) =>
      OnRequestFilters(a, r);
      OnRequestFilters(b, OnRequest(a, r));
      SubTrans(Of(OnRequest(p, r)), Of(OnRequest(a, r)), Of(r));
    case _ =>
  }

  /** Every tree meets the hypotheses of the general theorems about requests. */
  lemma TreesFilter()
    ensures OnlyRemoves(TreeOps()) && AddsNoHeaders(TreeOps()) && KeepsPayload(TreeOps()) && KeepsUri(TreeOps())
  {
    forall p: Policy, r: Request
      ensures var r' := TreeOps().onRequest(p, r).1;
        Sub(Of(r'), Of(r)) && r'.headers.Keys <= r.headers.Keys && r'.verb == r.verb && r'.uri == r.uri && r'.body == r.body
    {
      OnRequestFilters(p, r);
    }
  }

  // ---------------------------------------------------------------- chains are bounded

  /** How many redirects a tree can follow at most, if there is a bound. */
  function Bound(p: Policy): Option<nat> {
    match p
    case Fixed(answer) => if answer == Ok(Follow) then None else Some(0)
    case Limited(remaining) => Some(remaining)
    case And(a, b) =>
      (match (Bound(a), Bound(b))
       case (Some(m), Some(n)) => Some(if m < n then m else n)
       case (Some(m), None) => Some(m)
       case (None, other) => other)
    case Or(a, b) =>
      (match (Bound(a), Bound(b))
       case (Some(m), Some(n)) => Some(m + n)
       case _ => None)
    case _ => None
  }

  /** The bound never grows, and a redirect that is followed uses some of it up. */
  lemma {:induction false} RedirectSpends(p: Policy, attempt: Attempt)
    ensures var (p', answer) := Redirect(p, attempt);
      && Bound(p').Some? == Bound(p).Some?
      && (Bound(p).Some? ==> Bound(p').value + (if answer == Ok(Follow) then 1 else 0) <= Bound(p).value)
  {
    match p
    case And(a, b) =>
      RedirectSpends(a, attempt);
      RedirectSpends(b, attempt);
    case Or(a, b) =>
      RedirectSpends(a, attempt);
      RedirectSpends(b, attempt);
    case _ =>
  }

  /** Against any server and any body, a call under a bounded tree adds at most `Bound` requests to the first
      one, and is complete once the server has answered that many and one more. */
  lemma {:induction false} ChainsAreBounded(resolve: Resolver, st: Redirector<Policy>, answers: seq<Result<Response, Failure>>)
    requires Bound(st.policy).Some?
    ensures var trail := Run(TreeOps(), resolve, st, answers);
      && |trail.sent| <= Bound(st.policy).value
      && (|answers| > Bound(st.policy).value ==> trail.result.Some?)
    decreases |answers|
  {
    if answers != [] {
      var step := Answered(TreeOps(), resolve, st, answers[0]);
      if step.Resend? {
        var st1, body := Followed(TreeOps(), resolve, st, answers[0]);
        RedirectSpends(st.policy, Attempt(answers[0].value.status, st.Rewritten(answers[0].value.status).verb, st1.uri, st.verb, st.uri));
        ChainsAreBounded(resolve, step.state, answers[1..]);
      }
    }
  }

  predicate OrFree(p: Policy) {
    match p
    case And(a, b) => OrFree(a) && OrFree(b)
    case Or(_, _) => false
    case _ => true
  }

  /** What the `Limited` leaves hold, from left to right. */
  function Budgets(p: Policy): seq<nat> {
    match p
    case Limited(remaining) => [remaining]
    case And(a, b) => Budgets(a) + Budgets(b)
    case Or(a, b) => Budgets(a) + Budgets(b)
    case _ => []
  }

  /** Each of `now` is the one of `before` less `k`. */
  predicate Spent(before: seq<nat>, now: seq<nat>, k: nat) {
    |now| == |before| && forall i :: 0 <= i < |before| ==> now[i] + k == before[i]
  }

  lemma {:induction false} FollowSpendsAll(p: Policy, attempt: Attempt)
    requires OrFree(p) && Redirect(p, attempt).1 == Ok(Follow)
    ensures OrFree(Redirect(p, attempt).0) && Spent(Budgets(p), Budgets(Redirect(p, attempt).0), 1)
  {
    if p.And? {
      FollowSpendsAll(p.a, attempt);
      FollowSpendsAll(p.b, attempt);
    }
  }

  /** While a call under a tree without `Or` goes on, each `Limited` leaf holds its initial budget less the
      number of redirects followed; so no more are followed than any leaf allows. */
  lemma {:induction false} BudgetsCountFollows(resolve: Resolver, st: Redirector<Policy>, answers: seq<Result<Response, Failure>>)
    requires OrFree(st.policy)
    ensures var trail := Run(TreeOps(), resolve, st, answers);
      && (trail.result == None ==> |trail.sent| == |answers| && Spent(Budgets(st.policy), Budgets(trail.last.policy), |answers|))
      && (forall i :: 0 <= i < |Budgets(st.policy)| ==> |trail.sent| <= Budgets(st.policy)[i])
    decreases |answers|
  {
    if answers != [] {
      var step := Answered(TreeOps(), resolve, st, answers[0]);
      if step.Resend? {
        var st1, body := Followed(TreeOps(), resolve, st, answers[0]);
        FollowSpendsAll(st.policy, Attempt(answers[0].value.status, st.Rewritten(answers[0].value.status).verb, st1.uri, st.verb, st.uri));
        BudgetsCountFollows(resolve, step.state, answers[1..]);
      }
    }
  }

  /** A whole call: the first request, and one more for each redirect that the tightest limit allows. */
  lemma CallsAreBounded(resolve: Resolver, policy: Policy, preserve: bool, request: Request, answers: seq<Result<Response, Failure>>)
    ensures var sent := Sent(TreeOps(), resolve, policy, preserve, request, answers);
      && (Bound(policy).Some? ==> |sent| <= Bound(policy).value + 1)
      && (OrFree(policy) ==> forall i :: 0 <= i < |Budgets(policy)| ==> |sent| <= Budgets(policy)[i] + 1)
  {
    var st := Called(TreeOps(), policy, preserve, request).0;
    if Bound(policy).Some? {
      ChainsAreBounded(resolve, st, answers);
    }
    if OrFree(policy) {
      BudgetsCountFollows(resolve, st, answers);
    }
  }

  // ---------------------------------------------------------------- credentials stay dropped

  predicate NoCredentials(r: Request) {
    && Authorization !in r.headers && Cookie !in r.headers && ProxyAuthorization !in r.headers
    && r.extensions == map[]
  }

  /** The tree cannot follow a redirect without asking a `FilterCredentials` with its default settings. */
  predicate Guarded(p: Policy) {
    match p
    case FilterCredentials(filter, _) => filter == DEFAULT_FILTER
    case And(a, b) => Guarded(a) || Guarded(b)
    case Or(a, b) => Guarded(a) && Guarded(b)
    case _ => false
  }

  /** The guard of the tree is up. */
  predicate Blocking(p: Policy) {
    match p
    case FilterCredentials(filter, blocked) => filter == DEFAULT_FILTER && blocked
    case And(a, b) => Blocking(a) || Blocking(b)
    case Or(a, b) => Blocking(a) || Blocking(b)
    case _ => false
  }

  lemma {:induction false} CrossOriginBlocks(p: Policy, attempt: Attempt)
    requires Guarded(p)
    ensures Guarded(Redirect(p, attempt).0)
    ensures Redirect(p, attempt).1 == Ok(Follow) && !EqOrigin(attempt.previous, attempt.location) ==> Blocking(Redirect(p, attempt).0)
  {
    if p.And? || p.Or? {
      if Guarded(p.a) {
        CrossOriginBlocks(p.a, attempt);
      }
      if Guarded(p.b) {
        CrossOriginBlocks(p.b, attempt);
      }
    }
  }

  lemma NarrowerHasNoCredentials(a: Request, b: Request)
    requires Sub(Of(a), Of(b)) && NoCredentials(b)
    ensures NoCredentials(a)
  {
    assert a.extensions.Keys == {};
  }

  lemma {:induction false} BlockingDrops(p: Policy, r: Request)
    requires Blocking(p)
    ensures NoCredentials(OnRequest(p, r))
  {
    if p.And? || p.Or? {
      if Blocking(p.a) {
        BlockingDrops(p.a, r);
        OnRequestFilters(p.b, OnRequest(p.a, r));
        NarrowerHasNoCredentials(OnRequest(p, r), OnRequest(p.a, r));
      } else {
        BlockingDrops(p.b, OnRequest(p.a, r));
      }
    }
  }

  lemma CrossOriginStepDrops(resolve: Resolver, st: Redirector<Policy>, answer: Result<Response, Failure>)
    requires Guarded(st.policy)
    ensures var step := Answered(TreeOps(), resolve, st, answer);
      step.Resend? ==>
        && Guarded(step.state.policy) && step.state.uri == step.request.uri
        && (!EqOrigin(st.uri, step.request.uri) ==> NoCredentials(step.request))
  {
    var step := Answered(TreeOps(), resolve, st, answer);
    if step.Resend? {
      var st1, body := Followed(TreeOps(), resolve, st, answer);
      CrossOriginBlocks(st.policy, Attempt(answer.value.status, st.Rewritten(answer.value.status).verb, st1.uri, st.verb, st.uri));
      var r := Request(st1.verb, st1.uri, st1.version, st1.headers, st1.extensions, body);
      OnRequestFilters(st1.policy, r);
      if Blocking(st1.policy) {
        BlockingDrops(st1.policy, r);
      }
    }
  }

  /** From the first request of another origin than the one before it on, no request carries credentials. */
  predicate DropsAcrossOrigins(all: seq<Request>) {
    forall i, j :: 0 <= i < j < |all| && !EqOrigin(all[i].uri, all[i + 1].uri) ==> NoCredentials(all[j])
  }

  lemma DropsCons(first: Request, rest: seq<Request>)
    requires rest != [] && DropsAcrossOrigins(rest)
    requires !EqOrigin(first.uri, rest[0].uri) ==> forall j :: 0 <= j < |rest| ==> NoCredentials(rest[j])
    ensures DropsAcrossOrigins([first] + rest)
  {
    var all := [first] + rest;
    forall i, j | 0 <= i < j < |all| && !EqOrigin(all[i].uri, all[i + 1].uri) ensures NoCredentials(all[j]) {
      assert all[j] == rest[j - 1] && all[i + 1] == rest[i];
      if i > 0 {
        assert all[i] == rest[i - 1];
        assert !EqOrigin(rest[i - 1].uri, rest[i - 1 + 1].uri);
      }
    }
  }

  lemma DroppedStaysDropped(resolve: Resolver, st: Redirector<Policy>, answers: seq<Result<Response, Failure>>, previous: Request)
    requires In(st) == Of(previous) && NoCredentials(previous)
    ensures forall r :: r in Run(TreeOps(), resolve, st, answers).sent ==> NoCredentials(r)
  {
    TreesFilter();
    RunNarrows(TreeOps(), resolve, st, answers);
    forall r | r in Run(TreeOps(), resolve, st, answers).sent ensures NoCredentials(r) {
      NarrowerHasNoCredentials(r, previous);
    }
  }

  lemma {:induction false} RunDropsCredentials(resolve: Resolver, st: Redirector<Policy>,
                                               answers: seq<Result<Response, Failure>>, previous: Request)
    requires Guarded(st.policy) && st.uri == previous.uri
    ensures DropsAcrossOrigins([previous] + Run(TreeOps(), resolve, st, answers).sent)
    decreases |answers|
  {
    if answers != [] {
      var step := Answered(TreeOps(), resolve, st, answers[0]);
      CrossOriginStepDrops(resolve, st, answers[0]);
      if step.Resend? {
        TreesFilter();
        StepNarrows(TreeOps(), resolve, st, answers[0]);
        RunDropsCredentials(resolve, step.state, answers[1..], step.request);
        if NoCredentials(step.request) {
          DroppedStaysDropped(resolve, step.state, answers[1..], step.request);
        }
        DropsCons(previous, [step.request] + Run(TreeOps(), resolve, step.state, answers[1..]).sent);
      }
    }
  }

  /** Credentials never cross an origin: in a call under a guarded tree, such as `Standard`, once a redirect has
      left the origin of a request, neither the next request nor any later one carries credentials or
      extensions, wherever it goes. */
  lemma CredentialsStayDropped(resolve: Resolver, policy: Policy, preserve: bool, request: Request,
                               answers: seq<Result<Response, Failure>>)
    requires Guarded(policy)
    ensures DropsAcrossOrigins(Sent(TreeOps(), resolve, policy, preserve, request, answers))
  {
    var (st, first) := Called(TreeOps(), policy, preserve, request);
    RunDropsCredentials(resolve, st, answers, first);
  }

  lemma StandardIsGuardedAndBounded()
    ensures Guarded(STANDARD) && Bound(STANDARD) == Some(20) && OrFree(STANDARD) && Budgets(STANDARD) == [20]
  {
    assert Budgets(STANDARD) == [20] + [];
  }
}
