/** When a redirect is followed, what is sent then, and what the call answers otherwise; section 6.4 of RFC 7231. */
module RedirectDecision {
  import opened Http
  import opened FollowRedirect
  import opened RedirectRuns
  import opened RedirectSwitch
  import opened RedirectPolicy

  /** Where a response sends the client: its first `Location`, resolved against the URI of the request. */
  function LocationOf(resolve: Resolver, base: Uri, res: Response): Option<Uri> {
    if Location in res.headers then resolve(res.headers[Location][0], base) else None
  }

  /** The body of a redirected request: none after a switch, else the copy that was kept, if there is one. */
  function BodyAtHand<P>(st: Redirector<P>, status: nat): Option<Body> {
    if st.body.Empty? || Switches(st.verb, status) then Some(Body([], Some(0)))
    else if st.body.Kept? then Some(st.body.body)
    else None
  }

  function VerbAfter(verb: Method, status: nat): Method {
    if Switches(verb, status) then SwitchedVerb(verb) else verb
  }

  /** A response that the policy is asked about. */
  predicate Redirects<P>(resolve: Resolver, st: Redirector<P>, res: Response) {
    && res.status in {301, 302, 303, 307, 308}
    && BodyAtHand(st, res.status).Some?
    && LocationOf(resolve, st.uri, res).Some?
  }

  /** What the policy is asked. */
  function AttemptAt<P>(resolve: Resolver, st: Redirector<P>, res: Response): Attempt
    requires Redirects(resolve, st, res)
  {
    Attempt(res.status, VerbAfter(st.verb, res.status), LocationOf(resolve, st.uri, res).value, st.verb, st.uri)
  }

  /** The call sends again if and only if the status is one of five, there is a body to send, the location resolves,
      and the policy says so. Otherwise it answers the response with the URI it came from, or the error of the
      policy; an error of the service is answered as it came. */
  lemma FollowsIff<P>(ops: PolicyOps<P>, resolve: Resolver, st: Redirector<P>, res: Response, e: Failure)
    ensures var step := Answered(ops, resolve, st, Ok(res));
      && (step.Resend? <==>
            Redirects(resolve, st, res) && ops.redirect(st.policy, AttemptAt(resolve, st, res)).1 == Ok(Follow))
      && (step.Complete? ==>
            step.result == if Redirects(resolve, st, res) && ops.redirect(st.policy, AttemptAt(resolve, st, res)).1.Err?
                           then Err(ops.redirect(st.policy, AttemptAt(resolve, st, res)).1.error)
                           else Ok(res.(requestUri := Some(st.uri))))
    ensures Answered(ops, resolve, st, Err(e)) == Complete(st, Err(e))
  {
    var rewritten := st.Rewritten(res.status);
    assert Take(rewritten.body).0 == if IsRedirect(res.status) then BodyAtHand(st, res.status) else Take(rewritten.body).0;
    assert Target(resolve, st.uri, res.(requestUri := Some(st.uri))) == LocationOf(resolve, st.uri, res);
  }

  /** The headers of a redirected request before the policy has seen it. */
  function HeadersKept<P>(st: Redirector<P>, status: nat): HeaderMap {
    if Switches(st.verb, status) then st.headers - {ContentType, ContentLength, ContentEncoding, TransferEncoding}
    else st.headers
  }

  /** The request that the policy is shown, in the state in which it is after following. */
  function Draft<P>(resolve: Resolver, st: Redirector<P>, res: Response): Request
    requires Redirects(resolve, st, res)
  {
    Request(VerbAfter(st.verb, res.status), LocationOf(resolve, st.uri, res).value, st.version,
            HeadersKept(st, res.status), st.extensions, BodyAtHand(st, res.status).value)
  }

  /** What is kept of a body for the next redirect: a body known to be empty needs no help from the policy. */
  function CopyOf<P>(ops: PolicyOps<P>, policy: P, body: Body): BodyRepr {
    if body.exactSize == Some(0) then Kept(Body([], Some(0)))
    else if ops.cloneBody(policy, body).Some? then Kept(ops.cloneBody(policy, body).value)
    else Gone
  }

  lemma RewrittenIs<P>(st: Redirector<P>, status: nat)
    ensures st.Rewritten(status) ==
            st.(verb := VerbAfter(st.verb, status), headers := HeadersKept(st, status),
                body := if Switches(st.verb, status) then Empty else st.body)
  {
    var left := st.headers - {ContentType, ContentLength, ContentEncoding, TransferEncoding};
    assert DropPayloadHeaders(st.headers) == left;
  }

  lemma CopyIs<P>(ops: PolicyOps<P>, policy: P, repr: BodyRepr, body: Body)
    requires Take(repr).0 == Some(body)
    ensures TryCloneFrom(Take(repr).1, ops, policy, body) == if repr.Empty? then Empty else CopyOf(ops, policy, body)
  {
  }

  lemma FollowedFromDraft<P>(ops: PolicyOps<P>, resolve: Resolver, st: Redirector<P>, res: Response)
    returns (st1: Redirector<P>, body: Body)
    requires Answered(ops, resolve, st, Ok(res)).Resend?
    ensures Redirects(resolve, st, res)
    ensures Answered(ops, resolve, st, Ok(res)) == Send(ops, st1, body)
    ensures var asked := ops.redirect(st.policy, AttemptAt(resolve, st, res)).0; var draft := Draft(resolve, st, res);
      && body == draft.body
      && st1 == Redirector(asked, draft.verb, draft.uri, st.version, draft.headers, st.extensions,
                           if st.body.Empty? || Switches(st.verb, res.status) then Empty else CopyOf(ops, asked, draft.body))
  {
    FollowsIff(ops, resolve, st, res, 0);
    RewrittenIs(st, res.status);
    st1, body := Followed(ops, resolve, st, Ok(res));
    CopyIs(ops, st1.policy, st.Rewritten(res.status).body, body);
    assert body == BodyAtHand(st, res.status).value;
    assert st1.uri == LocationOf(resolve, st.uri, res).value;
  }

  /** The new request is the draft as the policy leaves it. Its headers and extensions and the policy are carried on,
      and so is a copy of the body, made before the policy has seen the request; a switched call keeps no body. */
  lemma SendsDraft<P>(ops: PolicyOps<P>, resolve: Resolver, st: Redirector<P>, res: Response)
    requires Answered(ops, resolve, st, Ok(res)).Resend?
    ensures Redirects(resolve, st, res)
    ensures var asked := ops.redirect(st.policy, AttemptAt(resolve, st, res)).0;
      var draft := Draft(resolve, st, res);
      var (policy, request) := ops.onRequest(asked, draft);
      Answered(ops, resolve, st, Ok(res)) ==
      Resend(Redirector(policy, draft.verb, draft.uri, st.version, request.headers, request.extensions,
                        if st.body.Empty? || Switches(st.verb, res.status) then Empty
                        else CopyOf(ops, asked, draft.body)),
             request)
  {
    var st1, body := FollowedFromDraft(ops, resolve, st, res);
  }

  /** A call starts with the request as the policy leaves it, and with a copy of the body as the caller gave it, made
      before the policy has seen the request. */
  lemma CallStarts<P>(ops: PolicyOps<P>, policy: P, preserve: bool, request: Request)
    ensures var (policy', first) := ops.onRequest(policy, request);
      Called(ops, policy, preserve, request) ==
      (Redirector(policy', first.verb, first.uri, first.version, first.headers,
                  if preserve then first.extensions else map[], CopyOf(ops, policy, request.body)), first)
  {
  }

  // ---------------------------------------------------------------- whole calls

  /** Each further request goes where the answer before it points, and the call ends with the answer after the last
      one, or with an error of the policy about that answer. */
  ghost predicate FollowsLocations(resolve: Resolver, all: seq<Request>, answers: seq<Result<Response, Failure>>,
                                   result: Option<Result<Response, Failure>>)
    requires all != []
  {
    var n := |all| - 1;
    && n <= |answers|
    && (forall i :: 0 <= i < n ==>
          && answers[i].Ok? && answers[i].value.status in {301, 302, 303, 307, 308}
          && LocationOf(resolve, all[i].uri, answers[i].value) == Some(all[i + 1].uri))
    && (result.None? <==> n == |answers|)
    && (n < |answers| && answers[n].Err? ==> result == Some(answers[n]))
    && (n < |answers| && answers[n].Ok? && result.value.Ok? ==>
          result == Some(Ok(answers[n].value.(requestUri := Some(all[n].uri)))))
    && (n < |answers| && answers[n].Ok? && result.value.Err? ==> answers[n].value.status in {301, 302, 303, 307, 308})
  }

  lemma FollowsLocationsCons(resolve: Resolver, first: Request, rest: seq<Request>, answers: seq<Result<Response, Failure>>,
                             result: Option<Result<Response, Failure>>)
    requires rest != [] && answers != [] && FollowsLocations(resolve, rest, answers[1..], result)
    requires answers[0].Ok? && answers[0].value.status in {301, 302, 303, 307, 308}
    requires LocationOf(resolve, first.uri, answers[0].value) == Some(rest[0].uri)
    ensures FollowsLocations(resolve, [first] + rest, answers, result)
  {
    var all := [first] + rest;
    assert |answers[1..]| == |answers| - 1;
    forall i | 0 <= i < |all| - 1
      ensures answers[i].Ok? && answers[i].value.status in {301, 302, 303, 307, 308}
      ensures LocationOf(resolve, all[i].uri, answers[i].value) == Some(all[i + 1].uri)
    {
      if i > 0 {
        assert answers[i] == answers[1..][i - 1] && all[i] == rest[i - 1] && all[i + 1] == rest[i - 1 + 1];
      }
    }
    if |all| - 1 < |answers| {
      assert answers[|all| - 1] == answers[1..][|rest| - 1];
    }
  }

  lemma {:induction false} RunFollowsLocations<P(!new)>(ops: PolicyOps<P>, resolve: Resolver, st: Redirector<P>,
                                                        answers: seq<Result<Response, Failure>>, previous: Request)
    requires KeepsUri(ops) && st.uri == previous.uri
    ensures var trail := Run(ops, resolve, st, answers);
      FollowsLocations(resolve, [previous] + trail.sent, answers, trail.result)
    decreases |answers|
  {
    if answers != [] {
      var step := Answered(ops, resolve, st, answers[0]);
      if answers[0].Ok? {
        FollowsIff(ops, resolve, st, answers[0].value, 0);
      }
      if step.Resend? {
        SendsDraft(ops, resolve, st, answers[0].value);
        RunFollowsLocations(ops, resolve, step.state, answers[1..], step.request);
        var trail := Run(ops, resolve, step.state, answers[1..]);
        FollowsLocationsCons(resolve, previous, [step.request] + trail.sent, answers, trail.result);
        SentCons(ops, resolve, st, answers);
      }
    }
  }

  /** For whole calls, under any policy that leaves URIs alone. */
  lemma CallFollowsLocations<P(!new)>(ops: PolicyOps<P>, resolve: Resolver, policy: P, preserve: bool, request: Request,
                                      answers: seq<Result<Response, Failure>>)
    requires KeepsUri(ops)
    ensures FollowsLocations(resolve, Sent(ops, resolve, policy, preserve, request, answers), answers,
                             Run(ops, resolve, Called(ops, policy, preserve, request).0, answers).result)
  {
    var (st, first) := Called(ops, policy, preserve, request);
    RunFollowsLocations(ops, resolve, st, answers, first);
  }

  // ---------------------------------------------------------------- the default policy

  /** How many answers in a row redirect: their status is one of five, their location resolves against the one before,
      and the body is known to be empty or a switch has dropped it. */
  function Hops(resolve: Resolver, uri: Uri, verb: Method, bodiless: bool, answers: seq<Result<Response, Failure>>): nat
    decreases |answers|
  {
    if answers == [] || answers[0].Err? then 0
    else
      var res := answers[0].value;
      var to := LocationOf(resolve, uri, res);
      if res.status in {301, 302, 303, 307, 308} && to.Some? && (bodiless || Switches(verb, res.status)) then
        1 + Hops(resolve, to.value, VerbAfter(verb, res.status), true, answers[1..])
      else 0
  }

  /** The default policy with `k` redirects left. */
  predicate HasLeft(p: Policy, k: nat) {
    p.And? && p.a == Limited(k) && p.b.FilterCredentials?
  }

  /** What such a call keeps of a body. */
  predicate KeepsOnlyEmpty<P>(st: Redirector<P>, bodiless: bool) {
    if bodiless then st.body.Empty? || st.body == Kept(Body([], Some(0))) else st.body.Gone?
  }

  lemma DefaultSays(p: Policy, k: nat, attempt: Attempt)
    requires HasLeft(p, k)
    ensures var (p', answer) := Redirect(p, attempt);
      if k > 0 then HasLeft(p', k - 1) && answer == Ok(Follow) else answer == Ok(Stop)
  {
    assert Redirect(p.a, attempt) == if k > 0 then (Limited(k - 1), Ok(Follow)) else (p.a, Ok(Stop));
  }

  lemma DefaultStep(resolve: Resolver, st: Redirector<Policy>, k: nat, bodiless: bool, res: Response)
    requires HasLeft(st.policy, k) && KeepsOnlyEmpty(st, bodiless)
    ensures var step := Answered(TreeOps(), resolve, st, Ok(res));
      && (step.Resend? <==>
            && k > 0 && res.status in {301, 302, 303, 307, 308} && LocationOf(resolve, st.uri, res).Some?
            && (bodiless || Switches(st.verb, res.status)))
      && (step.Resend? ==>
            && HasLeft(step.state.policy, k - 1) && KeepsOnlyEmpty(step.state, true)
            && step.state.verb == VerbAfter(st.verb, res.status)
            && Some(step.state.uri) == LocationOf(resolve, st.uri, res))
  {
    FollowsIff(TreeOps(), resolve, st, res, 0);
    if Redirects(resolve, st, res) {
      DefaultSays(st.policy, k, AttemptAt(resolve, st, res));
    }
    if Answered(TreeOps(), resolve, st, Ok(res)).Resend? {
      SendsDraft(TreeOps(), resolve, st, res);
    }
  }

  function Least(a: nat, b: nat): nat {
    if a < b then a else b
  }

  lemma {:induction false} DefaultRun(resolve: Resolver, st: Redirector<Policy>, k: nat, bodiless: bool,
                                      answers: seq<Result<Response, Failure>>)
    requires HasLeft(st.policy, k) && KeepsOnlyEmpty(st, bodiless)
    ensures |Run(TreeOps(), resolve, st, answers).sent| == Least(k, Hops(resolve, st.uri, st.verb, bodiless, answers))
    ensures var result := Run(TreeOps(), resolve, st, answers).result;
      result.Some? && result.value.Err? ==> result.value in answers
    decreases |answers|
  {
    if answers != [] && answers[0].Ok? {
      DefaultStep(resolve, st, k, bodiless, answers[0].value);
      FollowsIff(TreeOps(), resolve, st, answers[0].value, 0);
      var step := Answered(TreeOps(), resolve, st, answers[0]);
      if step.Resend? {
        DefaultRun(resolve, step.state, k - 1, true, answers[1..]);
        SentCons(TreeOps(), resolve, st, answers);
      } else if Redirects(resolve, st, answers[0].value) {
        DefaultSays(st.policy, k, AttemptAt(resolve, st, answers[0].value));
      }
    }
  }

  /** The default policy follows redirects as long as there are any, up to twenty: the requests of a call are one more
      than the answers in a row that redirect, or than twenty. It has no errors of its own. */
  lemma DefaultFollowsTwenty(resolve: Resolver, preserve: bool, request: Request, answers: seq<Result<Response, Failure>>)
    ensures |Sent(TreeOps(), resolve, STANDARD, preserve, request, answers)| ==
            1 + Least(20, Hops(resolve, request.uri, request.verb, request.body.exactSize == Some(0), answers))
    ensures var result := Run(TreeOps(), resolve, Called(TreeOps(), STANDARD, preserve, request).0, answers).result;
      result.Some? && result.value.Err? ==> result.value in answers
  {
    CallStarts(TreeOps(), STANDARD, preserve, request);
    var (st, first) := Called(TreeOps(), STANDARD, preserve, request);
    assert CloneWith(STANDARD.a, request.body) == None && CloneWith(STANDARD.b, request.body) == None;
    assert OnRequest(STANDARD.a, request) == request && OnRequest(STANDARD.b, request) == request;
    DefaultRun(resolve, st, 20, request.body.exactSize == Some(0), answers);
  }
}
