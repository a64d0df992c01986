/** What redirects leave alone: only the policy and a switch of method take anything from a request. */
module RedirectFrame {
  import opened Http
  import opened FollowRedirect
  import opened RedirectRuns
  import opened RedirectSwitch
  import opened RedirectPolicy

  /** Policies that satisfy `good` leave requests as they are, and stay so. */
  ghost predicate LeavesAlone<P(!new)>(ops: PolicyOps<P>, good: P -> bool) {
    && (forall p: P, r: Request :: good(p) ==> ops.onRequest(p, r).1 == r && good(ops.onRequest(p, r).0))
    && (forall p: P, attempt: Attempt :: good(p) ==> good(ops.redirect(p, attempt).0))
  }

  /** The headers of the original request, without those about a payload once the method has switched. */
  function HeadersAfter(original: Request, switched: bool): HeaderMap {
    if switched then DropPayloadHeaders(original.headers) else original.headers
  }

  /** A later request: everything but method, URI and body is as in the original. */
  predicate SameBut(r: Request, original: Request, extensions: Extensions, switched: bool) {
    && r.version == original.version && r.extensions == extensions
    && r.headers == HeadersAfter(original, switched)
    && r.verb == if switched then SwitchedVerb(original.verb) else original.verb
  }

  predicate StateSameBut<P>(st: Redirector<P>, original: Request, extensions: Extensions, switched: bool) {
    && st.version == original.version && st.extensions == extensions
    && st.headers == HeadersAfter(original, switched)
    && st.verb == if switched then SwitchedVerb(original.verb) else original.verb
  }

  lemma DroppingTwice(headers: HeaderMap)
    ensures DropPayloadHeaders(DropPayloadHeaders(headers)) == DropPayloadHeaders(headers)
  {
  }

  lemma RewrittenSameBut<P>(st: Redirector<P>, status: nat, original: Request, extensions: Extensions, switched: bool)
    requires StateSameBut(st, original, extensions, switched)
    ensures StateSameBut(st.Rewritten(status), original, extensions, switched || Switches(original.verb, status))
  {
    DroppingTwice(original.headers);
  }

  lemma StepSameBut<P(!new)>(ops: PolicyOps<P>, good: P -> bool, resolve: Resolver, st: Redirector<P>,
                             answer: Result<Response, Failure>, original: Request, extensions: Extensions, switched: bool)
    requires LeavesAlone(ops, good) && good(st.policy) && StateSameBut(st, original, extensions, switched)
    ensures var step := Answered(ops, resolve, st, answer);
      step.Resend? ==>
        && answer.Ok?
        && var switched' := switched || Switches(original.verb, answer.value.status);
        && good(step.state.policy) && StateSameBut(step.state, original, extensions, switched')
        && SameBut(step.request, original, extensions, switched')
  {
    if Answered(ops, resolve, st, answer).Resend? {
      var st1, body := Followed(ops, resolve, st, answer);
      RewrittenSameBut(st, answer.value.status, original, extensions, switched);
      var status := answer.value.status;
      assert good(ops.redirect(st.policy, Attempt(status, st.Rewritten(status).verb, st1.uri, st.verb, st.uri)).0);
    }
  }

  /** The first `k` requests come before the switch, all the others after it. */
  predicate SameButFrom(sent: seq<Request>, k: nat, original: Request, extensions: Extensions) {
    forall i :: 0 <= i < |sent| ==> SameBut(sent[i], original, extensions, i >= k)
  }

  lemma SameButFromCons(first: Request, rest: seq<Request>, k: nat, k': nat, original: Request, extensions: Extensions)
    requires SameBut(first, original, extensions, k == 0) && SameButFrom(rest, k', original, extensions)
    requires k' == if k == 0 then 0 else k - 1
    ensures SameButFrom([first] + rest, k, original, extensions)
  {
  }

  lemma {:induction false} RunSameBut<P(!new)>(ops: PolicyOps<P>, good: P -> bool, resolve: Resolver, st: Redirector<P>,
                                               answers: seq<Result<Response, Failure>>, original: Request,
                                               extensions: Extensions, switched: bool)
    requires LeavesAlone(ops, good) && good(st.policy) && StateSameBut(st, original, extensions, switched)
    ensures SameButFrom(Run(ops, resolve, st, answers).sent,
                        if switched then 0 else FirstSwitch(original.verb, answers), original, extensions)
    decreases |answers|
  {
    if answers != [] && Answered(ops, resolve, st, answers[0]).Resend? {
      var step := Answered(ops, resolve, st, answers[0]);
      StepSameBut(ops, good, resolve, st, answers[0], original, extensions, switched);
      var switched' := switched || Switches(original.verb, answers[0].value.status);
      RunSameBut(ops, good, resolve, step.state, answers[1..], original, extensions, switched');
      SameButFromCons(step.request, Run(ops, resolve, step.state, answers[1..]).sent,
                      if switched then 0 else FirstSwitch(original.verb, answers),
                      if switched' then 0 else FirstSwitch(original.verb, answers[1..]), original, extensions);
    }
  }

  /** Under policies that leave requests alone, the first request is the original one, and over any answers every
      later request has its version, exactly its headers, less the four about a payload once the method has
      switched, and its extensions exactly if they are preserved. */
  lemma NothingElseChanges<P(!new)>(ops: PolicyOps<P>, good: P -> bool, resolve: Resolver, policy: P, preserve: bool,
                                    request: Request, answers: seq<Result<Response, Failure>>)
    requires LeavesAlone(ops, good) && good(policy)
    ensures var sent := Sent(ops, resolve, policy, preserve, request, answers);
      && sent[0] == request
      && SameButFrom(sent[1..], FirstSwitch(request.verb, answers), request, if preserve then request.extensions else map[])
  {
    var (st, first) := Called(ops, policy, preserve, request);
    RunSameBut(ops, good, resolve, st, answers, request, st.extensions, false);
    assert Sent(ops, resolve, policy, preserve, request, answers)[1..] == Run(ops, resolve, st, answers).sent;
  }

  predicate FilterFree(p: Policy) {
    match p
    case FilterCredentials(_, _) => false
    case And(a, b) => FilterFree(a) && FilterFree(b)
    case Or(a, b) => FilterFree(a) && FilterFree(b)
    case _ => true
  }

  lemma {:induction false} FilterFreeKeeps(p: Policy, r: Request)
    requires FilterFree(p)
    ensures OnRequest(p, r) == r
  {
    match p
    case And(a, b) =>
      FilterFreeKeeps(a, r);
      FilterFreeKeeps(b, r);
    case Or(a, b) =>
      FilterFreeKeeps(a, r);
      FilterFreeKeeps(b, r);
    case _ =>
  }

  lemma {:induction false} FilterFreeStaysSo(p: Policy, attempt: Attempt)
    requires FilterFree(p)
    ensures FilterFree(Redirect(p, attempt).0)
  {
    match p
    case And(a, b) =>
      FilterFreeStaysSo(a, attempt);
      FilterFreeStaysSo(b, attempt);
    case Or(a, b) =>
      FilterFreeStaysSo(a, attempt);
      FilterFreeStaysSo(b, attempt);
    case _ =>
  }

  /** Trees without `FilterCredentials` are such policies. */
  lemma FilterFreeTreesLeaveAlone()
    ensures LeavesAlone(TreeOps(), p => FilterFree(p))
  {
    var ops := TreeOps();
    forall p: Policy, r: Request | FilterFree(p)
      ensures ops.onRequest(p, r) == (p, r)
    {
      FilterFreeKeeps(p, r);
    }
    forall p: Policy, attempt: Attempt | FilterFree(p)
      ensures FilterFree(ops.redirect(p, attempt).0)
    {
      FilterFreeStaysSo(p, attempt);
    }
  }

  // ---------------------------------------------------------------- credentials stay at home

  /** `Standard` as it is while no redirect has left an origin. */
  predicate Unblocked(p: Policy) {
    p.And? && p.a.Limited? && p.b == FilterCredentials(DEFAULT_FILTER, false)
  }

  /** Each request has the origin of the one before. */
  predicate StaysHome(sent: seq<Request>) {
    forall i, j :: 0 <= i < |sent| && j == i + 1 && j < |sent| ==> EqOrigin(sent[i].uri, sent[j].uri)
  }

  lemma StaysHomeRest(first: Request, second: Request, rest: seq<Request>)
    requires StaysHome([first] + ([second] + rest))
    ensures EqOrigin(first.uri, second.uri) && StaysHome([second] + rest)
  {
    var all := [first] + ([second] + rest);
    assert all[0] == first && all[1] == second;
    forall i, j | 0 <= i < |[second] + rest| && j == i + 1 && j < |[second] + rest|
      ensures EqOrigin(([second] + rest)[i].uri, ([second] + rest)[j].uri)
    {
      assert all[i + 1] == ([second] + rest)[i] && all[j + 1] == ([second] + rest)[j];
    }
  }

  lemma UnblockedLeavesAlone(p: Policy, r: Request)
    requires Unblocked(p)
    ensures OnRequest(p, r) == r
  {
    assert OnRequest(p.a, r) == r && OnRequest(p.b, r) == r;
  }

  lemma UnblockedAtHome(p: Policy, attempt: Attempt)
    requires Unblocked(p) && EqOrigin(attempt.previous, attempt.location) && Redirect(p, attempt).1 == Ok(Follow)
    ensures Unblocked(Redirect(p, attempt).0)
  {
    assert Redirect(p.a, attempt).0.Limited?;
    assert Redirect(p.b, attempt).0 == FilterCredentials(DEFAULT_FILTER, false);
  }

  lemma StepAtHome(resolve: Resolver, st: Redirector<Policy>, answer: Result<Response, Failure>, original: Request,
                   extensions: Extensions, switched: bool)
    requires Unblocked(st.policy) && StateSameBut(st, original, extensions, switched)
    requires var step := Answered(TreeOps(), resolve, st, answer); step.Resend? && EqOrigin(st.uri, step.request.uri)
    ensures var step := Answered(TreeOps(), resolve, st, answer);
      && answer.Ok?
      && var switched' := switched || Switches(original.verb, answer.value.status);
      && Unblocked(step.state.policy) && StateSameBut(step.state, original, extensions, switched')
      && SameBut(step.request, original, extensions, switched') && step.request.uri == step.state.uri
  {
    var st1, body := Followed(TreeOps(), resolve, st, answer);
    RewrittenSameBut(st, answer.value.status, original, extensions, switched);
    var status := answer.value.status;
    var r := Request(st1.verb, st1.uri, st1.version, st1.headers, st1.extensions, body);
    OnRequestFilters(st1.policy, r);
    UnblockedAtHome(st.policy, Attempt(status, st.Rewritten(status).verb, st1.uri, st.verb, st.uri));
    UnblockedLeavesAlone(st1.policy, r);
  }

  lemma {:induction false} RunAtHome(resolve: Resolver, st: Redirector<Policy>, answers: seq<Result<Response, Failure>>,
                                     previous: Request, original: Request, extensions: Extensions, switched: bool)
    requires Unblocked(st.policy) && StateSameBut(st, original, extensions, switched) && st.uri == previous.uri
    requires StaysHome([previous] + Run(TreeOps(), resolve, st, answers).sent)
    ensures SameButFrom(Run(TreeOps(), resolve, st, answers).sent,
                        if switched then 0 else FirstSwitch(original.verb, answers), original, extensions)
    decreases |answers|
  {
    if answers != [] && Answered(TreeOps(), resolve, st, answers[0]).Resend? {
      var step := Answered(TreeOps(), resolve, st, answers[0]);
      var rest := Run(TreeOps(), resolve, step.state, answers[1..]).sent;
      StaysHomeRest(previous, step.request, rest);
      StepAtHome(resolve, st, answers[0], original, extensions, switched);
      var switched' := switched || Switches(original.verb, answers[0].value.status);
      RunAtHome(resolve, step.state, answers[1..], step.request, original, extensions, switched');
      SameButFromCons(step.request, rest, if switched then 0 else FirstSwitch(original.verb, answers),
                      if switched' then 0 else FirstSwitch(original.verb, answers[1..]), original, extensions);
    }
  }

  /** A call under `Standard` in which no redirect leaves an origin: nothing is filtered. Every request has exactly
      the headers of the original, credentials included, less the four about a payload after a switch. */
  lemma CredentialsStayAtHome(resolve: Resolver, preserve: bool, request: Request, answers: seq<Result<Response, Failure>>)
    requires StaysHome(Sent(TreeOps(), resolve, STANDARD, preserve, request, answers))
    ensures var sent := Sent(TreeOps(), resolve, STANDARD, preserve, request, answers);
      && sent[0] == request
      && SameButFrom(sent[1..], FirstSwitch(request.verb, answers), request, if preserve then request.extensions else map[])
  {
    var (st, first) := Called(TreeOps(), STANDARD, preserve, request);
    var more := Run(TreeOps(), resolve, st, answers).sent;
    assert Sent(TreeOps(), resolve, STANDARD, preserve, request, answers)[1..] == more;
    UnblockedLeavesAlone(STANDARD, request);
    RunAtHome(resolve, st, answers, first, request, st.extensions, false);
  }

  // ---------------------------------------------------------------- what the default filter means

  /** A blocked request under the default filter keeps every header but the credentials, as it was, and loses all
      extensions; a request that is not blocked keeps everything. */
  lemma DefaultFilterKeepsTheRest(r: Request, blocked: bool)
    ensures var r' := OnRequest(FilterCredentials(DEFAULT_FILTER, blocked), r);
      if blocked then
        && r'.headers == r.headers - {Authorization, Cookie, ProxyAuthorization}
        && r' == r.(headers := r'.headers, extensions := map[])
      else r' == r
  {
    var kept := Filtered(DEFAULT_FILTER, r);
    assert kept.headers == r.headers - {Authorization, Cookie, ProxyAuthorization};
    assert kept.extensions == map[];
  }
}
