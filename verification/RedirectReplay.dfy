/** What redirects do to the method and the body over a whole call; section 6.4 of RFC 7231. */
module RedirectReplay {
  import opened Http
  import opened FollowRedirect
  import opened RedirectRuns
  import opened RedirectSwitch

  /** A body whose exact size hint is right about emptiness. */
  predicate HonestSize(body: Body) {
    body.exactSize == Some(0) ==> body.content == []
  }

  /** Copies of a body have its content. */
  ghost predicate PreservesContent<P(!new)>(ops: PolicyOps<P>) {
    forall p: P, body: Body :: ops.cloneBody(p, body).Some? ==>
      ops.cloneBody(p, body).value.content == body.content && HonestSize(ops.cloneBody(p, body).value)
  }

  /** A request that replays the original one. */
  predicate Replayed(r: Request, original: Request) {
    r.verb == original.verb && r.body.content == original.body.content
  }

  /** A request after a switch: GET, or HEAD if the original is HEAD, with no body and no header about one. */
  predicate Switched(r: Request, original: Request) {
    r.verb == SwitchedVerb(original.verb) && r.body == DEFAULT_BODY && NoPayloadHeaders(r.headers)
  }

  /** The invariant of a call: `Empty` means that a switch has happened, with all its consequences. */
  predicate Inv<P>(st: Redirector<P>, original: Request) {
    match st.body
    case Empty => st.verb == SwitchedVerb(original.verb) && NoPayloadHeaders(st.headers)
    case Kept(body) => st.verb == original.verb && body.content == original.body.content && HonestSize(body)
    case Gone => st.verb == original.verb
  }

  lemma CloneKeepsContent<P(!new)>(ops: PolicyOps<P>, policy: P, body: Body)
    requires PreservesContent(ops) && HonestSize(body)
    ensures match TryCloneFrom(Gone, ops, policy, body)
            case Kept(copy) => copy.content == body.content && HonestSize(copy)
            case Empty => false
            case Gone => true
  {
  }

  lemma StepReplays<P(!new)>(ops: PolicyOps<P>, resolve: Resolver, st: Redirector<P>, answer: Result<Response, Failure>,
                             original: Request)
    requires AddsNoHeaders(ops) && KeepsPayload(ops) && PreservesContent(ops) && Inv(st, original)
    ensures var step := Answered(ops, resolve, st, answer);
      step.Resend? ==>
        && answer.Ok? && Inv(step.state, original)
        && (step.state.body.Empty? <==> st.body.Empty? || Switches(original.verb, answer.value.status))
        && (if step.state.body.Empty? then Switched(step.request, original) else Replayed(step.request, original))
        && (KeepsUri(ops) ==> step.request.uri == step.state.uri)
  {
    if Answered(ops, resolve, st, answer).Resend? {
      var st1, body := Followed(ops, resolve, st, answer);
      RewrittenKeepsInv(st, answer.value.status, original);
      if !st1.body.Empty? {
        CloneKeepsContent(ops, st1.policy, body);
      }
      SendReplays(ops, st1, body, original);
    }
  }

  lemma RewrittenKeepsInv<P>(st: Redirector<P>, status: nat, original: Request)
    requires Inv(st, original)
    ensures Inv(st.Rewritten(status), original)
    ensures st.Rewritten(status).body.Empty? <==> st.body.Empty? || Switches(original.verb, status)
    ensures st.Rewritten(status).body.Empty? || st.Rewritten(status).body == st.body
  {
    assert NoPayloadHeaders(DropPayloadHeaders(st.headers));
  }

  lemma SendReplays<P(!new)>(ops: PolicyOps<P>, st: Redirector<P>, body: Body, original: Request)
    requires AddsNoHeaders(ops) && KeepsPayload(ops) && Inv(st, original)
    requires if st.body.Empty? then body == DEFAULT_BODY else body.content == original.body.content
    ensures var step := Send(ops, st, body);
      && Inv(step.state, original) && step.state.body == st.body
      && (if st.body.Empty? then Switched(step.request, original) else Replayed(step.request, original))
      && (KeepsUri(ops) ==> step.request.uri == step.state.uri)
  {
    var r := Request(st.verb, st.uri, st.version, st.headers, st.extensions, body);
    assert ops.onRequest(st.policy, r).1.headers.Keys <= r.headers.Keys;
  }

  lemma {:induction false} LaterAreSwitched<P(!new)>(ops: PolicyOps<P>, resolve: Resolver, st: Redirector<P>,
                                                     answers: seq<Result<Response, Failure>>, original: Request)
    requires AddsNoHeaders(ops) && KeepsPayload(ops) && PreservesContent(ops) && Inv(st, original)
    requires st.body.Empty?
    ensures forall r :: r in Run(ops, resolve, st, answers).sent ==> Switched(r, original)
    decreases |answers|
  {
    if answers != [] && Answered(ops, resolve, st, answers[0]).Resend? {
      StepReplays(ops, resolve, st, answers[0], original);
      LaterAreSwitched(ops, resolve, Answered(ops, resolve, st, answers[0]).state, answers[1..], original);
    }
  }

  /** The first `k` requests replay the original one, and all the others are switched. */
  predicate SwitchedFrom(sent: seq<Request>, k: nat, original: Request) {
    && (forall i :: 0 <= i < |sent| && i < k ==> Replayed(sent[i], original))
    && (forall i :: k <= i < |sent| ==> Switched(sent[i], original))
  }

  lemma SwitchedFromCons(first: Request, rest: seq<Request>, k: nat, original: Request)
    requires Replayed(first, original) && SwitchedFrom(rest, k, original)
    ensures SwitchedFrom([first] + rest, k + 1, original)
  {
  }

  lemma {:induction false} RunReplays<P(!new)>(ops: PolicyOps<P>, resolve: Resolver, st: Redirector<P>,
                                               answers: seq<Result<Response, Failure>>, original: Request)
    requires AddsNoHeaders(ops) && KeepsPayload(ops) && PreservesContent(ops) && Inv(st, original)
    requires !st.body.Empty?
    ensures SwitchedFrom(Run(ops, resolve, st, answers).sent, FirstSwitch(original.verb, answers), original)
    decreases |answers|
  {
    if answers != [] && Answered(ops, resolve, st, answers[0]).Resend? {
      var step := Answered(ops, resolve, st, answers[0]);
      StepReplays(ops, resolve, st, answers[0], original);
      if step.state.body.Empty? {
        LaterAreSwitched(ops, resolve, step.state, answers[1..], original);
      } else {
        RunReplays(ops, resolve, step.state, answers[1..], original);
        SwitchedFromCons(step.request, Run(ops, resolve, step.state, answers[1..]).sent,
                         FirstSwitch(original.verb, answers[1..]), original);
      }
    }
  }

  /** Faithful replay: over any answers, every request up to the first switching answer has the method and the
      content of the original request, and every request after it is a switched one. So the method changes at
      most once, only to GET, and never from HEAD. */
  lemma FaithfulReplay<P(!new)>(ops: PolicyOps<P>, resolve: Resolver, policy: P, preserve: bool, request: Request,
                                answers: seq<Result<Response, Failure>>)
    requires AddsNoHeaders(ops) && KeepsPayload(ops) && PreservesContent(ops) && HonestSize(request.body)
    ensures SwitchedFrom(Sent(ops, resolve, policy, preserve, request, answers), FirstSwitch(request.verb, answers) + 1, request)
  {
    var (st, first) := Called(ops, policy, preserve, request);
    CloneKeepsContent(ops, policy, request.body);
    RunReplays(ops, resolve, st, answers, request);
    SwitchedFromCons(first, Run(ops, resolve, st, answers).sent, FirstSwitch(request.verb, answers), request);
  }

  lemma {:induction false} RunTellsLastUri<P(!new)>(ops: PolicyOps<P>, resolve: Resolver, st: Redirector<P>,
                                                    answers: seq<Result<Response, Failure>>, previous: Request)
    requires KeepsUri(ops) && st.uri == previous.uri
    ensures var trail := Run(ops, resolve, st, answers); var all := [previous] + trail.sent;
      trail.result.Some? && trail.result.value.Ok? ==> trail.result.value.value.requestUri == Some(all[|all| - 1].uri)
    decreases |answers|
  {
    if answers != [] {
      var step := Answered(ops, resolve, st, answers[0]);
      if step.Resend? {
        var st1, body := Followed(ops, resolve, st, answers[0]);
        assert step.request.uri == step.state.uri;
        RunTellsLastUri(ops, resolve, step.state, answers[1..], step.request);
      }
    }
  }

  /** The response of a call tells the URI of the last request that was sent, whatever else the policy changes. */
  lemma ResponseTellsLastUri<P(!new)>(ops: PolicyOps<P>, resolve: Resolver, policy: P, preserve: bool, request: Request,
                                      answers: seq<Result<Response, Failure>>)
    requires KeepsUri(ops)
    ensures var sent := Sent(ops, resolve, policy, preserve, request, answers);
      var result := Run(ops, resolve, Called(ops, policy, preserve, request).0, answers).result;
      result.Some? && result.value.Ok? ==> result.value.value.requestUri == Some(sent[|sent| - 1].uri)
  {
    var (st, first) := Called(ops, policy, preserve, request);
    RunTellsLastUri(ops, resolve, st, answers, first);
  }
}
