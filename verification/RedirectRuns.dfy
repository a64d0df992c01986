/** Whole runs of the redirect machine, against any server and under any policy. */
module RedirectRuns {
  import opened Http
  import opened FollowRedirect

  /** The requests sent after the first one, the result if there is one, and the last state. */
  datatype Trail<P> = Trail(sent: seq<Request>, result: Option<Result<Response, Failure>>, last: Redirector<P>)

  /** The future polled with the answers that the server gives, in order. */
  function Run<P>(ops: PolicyOps<P>, resolve: Resolver, st: Redirector<P>, answers: seq<Result<Response, Failure>>): Trail<P>
    decreases |answers|
  {
    if answers == [] then Trail([], None, st)
    else
      match Answered(ops, resolve, st, answers[0])
      case Complete(st', result) => Trail([], Some(result), st')
      case Resend(st', request) =>
        var rest := Run(ops, resolve, st', answers[1..]);
        rest.(sent := [request] + rest.sent)
  }

  /** Every request of a call: the first one, and those that redirects add. */
  function Sent<P>(ops: PolicyOps<P>, resolve: Resolver, policy: P, preserve: bool, request: Request,
                   answers: seq<Result<Response, Failure>>): seq<Request> {
    var (st, first) := Called(ops, policy, preserve, request);
    [first] + Run(ops, resolve, st, answers).sent
  }

  /** What a request or a state carries from hop to hop. */
  datatype Carried = Carried(headers: HeaderMap, extensions: Extensions)

  function Of(r: Request): Carried {
    Carried(r.headers, r.extensions)
  }

  function In<P>(st: Redirector<P>): Carried {
    Carried(st.headers, st.extensions)
  }

  ghost predicate Sub(a: Carried, b: Carried) {
    SubHeaders(a.headers, b.headers) && forall k :: k in a.extensions ==> k in b.extensions && a.extensions[k] == b.extensions[k]
  }

  lemma SubTrans(a: Carried, b: Carried, c: Carried)
    requires Sub(a, b) && Sub(b, c)
    ensures Sub(a, c)
  {
  }

  /** `on_request` only removes entries of the headers and the extensions. */
  ghost predicate OnlyRemoves<P(!new)>(ops: PolicyOps<P>) {
    forall p: P, r: Request :: Sub(Of(ops.onRequest(p, r).1), Of(r))
  }

  /** `on_request` gives a request no header that it does not have. */
  ghost predicate AddsNoHeaders<P(!new)>(ops: PolicyOps<P>) {
    forall p: P, r: Request :: ops.onRequest(p, r).1.headers.Keys <= r.headers.Keys
  }

  /** `on_request` leaves method and body alone. */
  ghost predicate KeepsPayload<P(!new)>(ops: PolicyOps<P>) {
    forall p: P, r: Request :: ops.onRequest(p, r).1.verb == r.verb && ops.onRequest(p, r).1.body == r.body
  }

  /** `on_request` leaves the URI alone. */
  ghost predicate KeepsUri<P(!new)>(ops: PolicyOps<P>) {
    forall p: P, r: Request :: ops.onRequest(p, r).1.uri == r.uri
  }

  // ---------------------------------------------------------------- nothing comes back

  lemma DroppedIsNarrower(headers: HeaderMap)
    ensures SubHeaders(DropPayloadHeaders(headers), headers)
    ensures forall k :: k in DropPayloadHeaders(headers) <==>
      k in headers && k !in {ContentType, ContentLength, ContentEncoding, TransferEncoding}
  {
  }

  lemma SendNarrows<P(!new)>(ops: PolicyOps<P>, st: Redirector<P>, body: Body)
    requires OnlyRemoves(ops)
    ensures var step := Send(ops, st, body); Sub(Of(step.request), In(st)) && In(step.state) == Of(step.request)
  {
    var r := Request(st.verb, st.uri, st.version, st.headers, st.extensions, body);
    assert Sub(Of(ops.onRequest(st.policy, r).1), Of(r));
  }

  lemma StepNarrows<P(!new)>(ops: PolicyOps<P>, resolve: Resolver, st: Redirector<P>, answer: Result<Response, Failure>)
    requires OnlyRemoves(ops)
    ensures var step := Answered(ops, resolve, st, answer);
      step.Resend? ==> Sub(Of(step.request), In(st)) && In(step.state) == Of(step.request)
  {
    var step := Answered(ops, resolve, st, answer);
    if step.Resend? {
      var st1, body := Followed(ops, resolve, st, answer);
      SendNarrows(ops, st1, body);
      DroppedIsNarrower(st.headers);
      SubTrans(Of(step.request), In(st1), In(st));
    }
  }

  /** A step that sends again sends from the rewritten state, aimed at the new location. */
  lemma Followed<P>(ops: PolicyOps<P>, resolve: Resolver, st: Redirector<P>, answer: Result<Response, Failure>)
    returns (st1: Redirector<P>, body: Body)
    requires Answered(ops, resolve, st, answer).Resend?
    ensures answer.Ok? && IsRedirect(answer.value.status)
    ensures Answered(ops, resolve, st, answer) == Send(ops, st1, body)
    ensures var rewritten := st.Rewritten(answer.value.status);
      var attempt := Attempt(answer.value.status, rewritten.verb, st1.uri, st.verb, st.uri);
      && Take(rewritten.body).0 == Some(body)
      && ops.redirect(st.policy, attempt) == (st1.policy, Ok(Follow))
      && st1 == rewritten.(policy := st1.policy, uri := st1.uri,
                           body := TryCloneFrom(Take(rewritten.body).1, ops, st1.policy, body))
  {
    var rewritten := st.Rewritten(answer.value.status);
    var (taken, left) := Take(rewritten.body);
    body := taken.value;
    var target := Target(resolve, rewritten.uri, answer.value.(requestUri := Some(st.uri))).value;
    var policy := ops.redirect(st.policy, Attempt(answer.value.status, rewritten.verb, target, st.verb, st.uri)).0;
    st1 := rewritten.(policy := policy, uri := target, body := TryCloneFrom(left, ops, policy, body));
  }

  lemma {:induction false} RunNarrows<P(!new)>(ops: PolicyOps<P>, resolve: Resolver, st: Redirector<P>,
                                               answers: seq<Result<Response, Failure>>)
    requires OnlyRemoves(ops)
    ensures forall r :: r in Run(ops, resolve, st, answers).sent ==> Sub(Of(r), In(st))
    decreases |answers|
  {
    if answers != [] && Answered(ops, resolve, st, answers[0]).Resend? {
      var step := Answered(ops, resolve, st, answers[0]);
      StepNarrows(ops, resolve, st, answers[0]);
      RunNarrows(ops, resolve, step.state, answers[1..]);
      forall r | r in Run(ops, resolve, step.state, answers[1..]).sent ensures Sub(Of(r), In(st)) {
        SubTrans(Of(r), Of(step.request), In(st));
      }
    }
  }

  /** Each later request is related to each earlier one. */
  ghost predicate Ordered(sent: seq<Request>, later: (Request, Request) -> bool) {
    forall i, j :: 0 <= i < j < |sent| ==> later(sent[j], sent[i])
  }

  lemma OrderedCons(first: Request, rest: seq<Request>, later: (Request, Request) -> bool)
    requires Ordered(rest, later) && forall r :: r in rest ==> later(r, first)
    ensures Ordered([first] + rest, later)
  {
  }

  lemma {:induction false} RunIsOrdered<P(!new)>(ops: PolicyOps<P>, resolve: Resolver, st: Redirector<P>,
                                                 answers: seq<Result<Response, Failure>>)
    requires OnlyRemoves(ops)
    ensures Ordered(Run(ops, resolve, st, answers).sent, (a, b) => Sub(Of(a), Of(b)))
    decreases |answers|
  {
    if answers != [] && Answered(ops, resolve, st, answers[0]).Resend? {
      var step := Answered(ops, resolve, st, answers[0]);
      StepNarrows(ops, resolve, st, answers[0]);
      RunIsOrdered(ops, resolve, step.state, answers[1..]);
      RunNarrows(ops, resolve, step.state, answers[1..]);
      OrderedCons(step.request, Run(ops, resolve, step.state, answers[1..]).sent, (a, b) => Sub(Of(a), Of(b)));
    }
  }

  /** No resurrection: every request of a call carries a subset of the headers and extensions of each earlier one,
      and without `preserve_extensions` no redirected request has any extension. */
  lemma NoResurrection<P(!new)>(ops: PolicyOps<P>, resolve: Resolver, policy: P, preserve: bool, request: Request,
                                answers: seq<Result<Response, Failure>>)
    requires OnlyRemoves(ops)
    ensures var sent := Sent(ops, resolve, policy, preserve, request, answers);
      && Sub(Of(sent[0]), Of(request))
      && Ordered(sent, (a, b) => Sub(Of(a), Of(b)))
      && (!preserve ==> forall j :: 0 < j < |sent| ==> sent[j].extensions == map[])
  {
    var (st, first) := Called(ops, policy, preserve, request);
    RunNarrows(ops, resolve, st, answers);
    RunIsOrdered(ops, resolve, st, answers);
    var more := Run(ops, resolve, st, answers).sent;
    forall r | r in more ensures Sub(Of(r), Of(first)) && (!preserve ==> r.extensions == map[]) {
      SubTrans(Of(r), In(st), Of(first));
      if !preserve {
        assert r.extensions.Keys == {};
      }
    }
    OrderedCons(first, more, (a, b) => Sub(Of(a), Of(b)));
  }
}
