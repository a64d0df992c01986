/** What a redirect does to the method, for any server and any policy that adds no headers; section 6.4 of RFC 7231. */
module RedirectSwitch {
  import opened Http
  import opened FollowRedirect
  import opened RedirectRuns

  /** The statuses that turn a request with this method into one without a body. */
  predicate Switches(verb: Method, status: nat) {
    status == 303 || ((status == 301 || status == 302) && verb == Post)
  }

  function SwitchedVerb(verb: Method): Method {
    if verb == Head then Head else Get
  }

  predicate NoPayloadHeaders(headers: HeaderMap) {
    ContentType !in headers && ContentLength !in headers && ContentEncoding !in headers && TransferEncoding !in headers
  }

  /** The first answer that switches, or their number if there is none. */
  function FirstSwitch(verb: Method, answers: seq<Result<Response, Failure>>): nat {
    if answers == [] || (answers[0].Ok? && Switches(verb, answers[0].value.status)) then 0
    else 1 + FirstSwitch(verb, answers[1..])
  }

  /** `Empty` means that the method is GET or HEAD and that no header is about a payload. */
  predicate SwitchInv<P>(st: Redirector<P>) {
    st.body.Empty? ==> (st.verb == Get || st.verb == Head) && NoPayloadHeaders(st.headers)
  }

  /** From one state to a later one, `Empty` stays, and the method stays or becomes GET together with `Empty`;
      HEAD never changes. */
  predicate KeepsMethod<P>(st: Redirector<P>, later: Redirector<P>) {
    && (st.body.Empty? ==> later.body.Empty?)
    && (later.verb == st.verb || (later.verb == Get && st.verb != Head && later.body.Empty?))
  }

  lemma RewrittenSwitches<P>(st: Redirector<P>, status: nat)
    requires SwitchInv(st)
    ensures var rewritten := st.Rewritten(status);
      && SwitchInv(rewritten) && KeepsMethod(st, rewritten)
      && (rewritten.body.Empty? <==> st.body.Empty? || Switches(st.verb, status))
      && (rewritten.body.Empty? || rewritten.body == st.body)
      && rewritten.verb == (if Switches(st.verb, status) then SwitchedVerb(st.verb) else st.verb)
  {
    assert NoPayloadHeaders(DropPayloadHeaders(st.headers));
  }

  lemma SendKeepsSwitch<P(!new)>(ops: PolicyOps<P>, st: Redirector<P>, body: Body)
    requires AddsNoHeaders(ops) && SwitchInv(st)
    ensures var step := Send(ops, st, body);
      && SwitchInv(step.state) && step.state.body == st.body && step.state.verb == st.verb
      && step.request.headers == step.state.headers
  {
    var r := Request(st.verb, st.uri, st.version, st.headers, st.extensions, body);
    assert ops.onRequest(st.policy, r).1.headers.Keys <= r.headers.Keys;
  }

  /** One answer, whether it completes the call or makes it send again. */
  lemma StepKeepsSwitch<P(!new)>(ops: PolicyOps<P>, resolve: Resolver, st: Redirector<P>, answer: Result<Response, Failure>)
    requires AddsNoHeaders(ops) && SwitchInv(st)
    ensures var step := Answered(ops, resolve, st, answer);
      && SwitchInv(step.state) && KeepsMethod(st, step.state)
      && (step.Resend? ==>
            && answer.Ok?
            && step.request.headers == step.state.headers
            && (step.state.body.Empty? <==> st.body.Empty? || Switches(st.verb, answer.value.status))
            && step.state.verb == (if Switches(st.verb, answer.value.status) then SwitchedVerb(st.verb) else st.verb))
  {
    if answer.Ok? {
      RewrittenSwitches(st, answer.value.status);
      if Answered(ops, resolve, st, answer).Resend? {
        var st1, body := Followed(ops, resolve, st, answer);
        SendKeepsSwitch(ops, st1, body);
      }
    }
  }

  /** Over any run: the invariant holds of every state, `Empty` is absorbing, and the method changes at most once
      and only to GET. Once `Empty`, no request has a header about a payload. */
  lemma {:induction false} EmptyIsAbsorbing<P(!new)>(ops: PolicyOps<P>, resolve: Resolver, st: Redirector<P>,
                                                     answers: seq<Result<Response, Failure>>)
    requires AddsNoHeaders(ops) && SwitchInv(st)
    ensures var trail := Run(ops, resolve, st, answers);
      && SwitchInv(trail.last) && KeepsMethod(st, trail.last)
      && (st.body.Empty? ==> forall r :: r in trail.sent ==> NoPayloadHeaders(r.headers))
    decreases |answers|
  {
    if answers != [] {
      var step := Answered(ops, resolve, st, answers[0]);
      StepKeepsSwitch(ops, resolve, st, answers[0]);
      if step.Resend? {
        EmptyIsAbsorbing(ops, resolve, step.state, answers[1..]);
      }
    }
  }

  /** While a run goes on, `Empty` is exactly what the first switching answer has left, with the method switched;
      the requests from that one on have no header about a payload. */
  lemma {:induction false} EmptyExactlyAfterSwitch<P(!new)>(ops: PolicyOps<P>, resolve: Resolver, st: Redirector<P>,
                                                            answers: seq<Result<Response, Failure>>)
    requires AddsNoHeaders(ops) && !st.body.Empty?
    ensures var trail := Run(ops, resolve, st, answers); var k := FirstSwitch(st.verb, answers);
      && (trail.result == None ==>
            && (trail.last.body.Empty? <==> k < |answers|)
            && trail.last.verb == if k < |answers| then SwitchedVerb(st.verb) else st.verb)
      && (forall i :: k <= i < |trail.sent| ==> NoPayloadHeaders(trail.sent[i].headers))
    decreases |answers|
  {
    if answers != [] {
      var step := Answered(ops, resolve, st, answers[0]);
      StepKeepsSwitch(ops, resolve, st, answers[0]);
      if step.Resend? {
        if step.state.body.Empty? {
          EmptyIsAbsorbing(ops, resolve, step.state, answers[1..]);
          SwitchedVerbIsFinal(ops, resolve, step.state, answers[1..]);
        } else {
          EmptyExactlyAfterSwitch(ops, resolve, step.state, answers[1..]);
        }
        SentCons(ops, resolve, st, answers);
      }
    }
  }

  lemma SwitchedVerbIsFinal<P(!new)>(ops: PolicyOps<P>, resolve: Resolver, st: Redirector<P>,
                                     answers: seq<Result<Response, Failure>>)
    requires AddsNoHeaders(ops) && SwitchInv(st) && st.body.Empty?
    ensures Run(ops, resolve, st, answers).last.verb == st.verb
  {
    EmptyIsAbsorbing(ops, resolve, st, answers);
  }

  lemma SentCons<P>(ops: PolicyOps<P>, resolve: Resolver, st: Redirector<P>, answers: seq<Result<Response, Failure>>)
    requires answers != [] && Answered(ops, resolve, st, answers[0]).Resend?
    ensures var step := Answered(ops, resolve, st, answers[0]);
      var rest := Run(ops, resolve, step.state, answers[1..]);
      Run(ops, resolve, st, answers) == Trail([step.request] + rest.sent, rest.result, rest.last)
  {
  }

  /** A run that goes on after some answers goes on from the state that they leave. */
  lemma {:induction false} RunGoesOn<P>(ops: PolicyOps<P>, resolve: Resolver, st: Redirector<P>,
                                        some: seq<Result<Response, Failure>>, more: seq<Result<Response, Failure>>)
    ensures var first := Run(ops, resolve, st, some);
      Run(ops, resolve, st, some + more).last ==
      if first.result.Some? then first.last else Run(ops, resolve, first.last, more).last
    decreases |some|
  {
    if some == [] {
      assert some + more == more;
    } else {
      assert (some + more)[1..] == some[1..] + more;
      var step := Answered(ops, resolve, st, some[0]);
      if step.Resend? {
        RunGoesOn(ops, resolve, step.state, some[1..], more);
      }
    }
  }

  /** For whole calls: between any two moments of a call `Empty` stays and the method changes at most to GET, never
      from HEAD, and only once, because it is `Empty` from then on and GET for good. */
  lemma MethodSwitchesOnce<P(!new)>(ops: PolicyOps<P>, resolve: Resolver, policy: P, preserve: bool, request: Request,
                                    some: seq<Result<Response, Failure>>, more: seq<Result<Response, Failure>>)
    requires AddsNoHeaders(ops)
    ensures var st := Called(ops, policy, preserve, request).0;
      var middle := Run(ops, resolve, st, some).last; var last := Run(ops, resolve, st, some + more).last;
      && SwitchInv(middle) && SwitchInv(last)
      && KeepsMethod(st, middle) && KeepsMethod(middle, last)
      && (middle.verb != st.verb ==> middle.body.Empty? && middle.verb == Get == last.verb)
  {
    var st := Called(ops, policy, preserve, request).0;
    EmptyIsAbsorbing(ops, resolve, st, some);
    EmptyIsAbsorbing(ops, resolve, Run(ops, resolve, st, some).last, more);
    RunGoesOn(ops, resolve, st, some, more);
  }

  // ---------------------------------------------------------------- bodies that cannot be cloned

  /** A redirect that needs a body which could not be cloned completes the call with the redirect response. */
  lemma FailedCloneStops<P>(ops: PolicyOps<P>, resolve: Resolver, st: Redirector<P>, res: Response)
    requires st.body.Gone? && IsRedirect(res.status) && !Switches(st.verb, res.status)
    ensures Answered(ops, resolve, st, Ok(res)) == Complete(st, Ok(res.(requestUri := Some(st.uri))))
  {
  }

  /** A policy that copies no body. */
  ghost predicate NeverClones<P(!new)>(ops: PolicyOps<P>) {
    forall p: P, body: Body :: ops.cloneBody(p, body) == None
  }

  /** A body that cannot be cloned is sent once: a call adds requests to the first one only if the very first
      answer switches, which leaves `Empty` for all that follows. */
  lemma UnclonableBodyIsSentOnce<P(!new)>(ops: PolicyOps<P>, resolve: Resolver, policy: P, preserve: bool, request: Request,
                                          answers: seq<Result<Response, Failure>>)
    requires AddsNoHeaders(ops) && NeverClones(ops) && request.body.exactSize != Some(0)
    ensures var (st, _) := Called(ops, policy, preserve, request); var trail := Run(ops, resolve, st, answers);
      && (trail.sent != [] ==> answers[0].Ok? && Switches(st.verb, answers[0].value.status) && trail.last.body.Empty?)
      && (answers != [] && answers[0].Ok? && IsRedirect(answers[0].value.status) && trail.sent == []
          && !Switches(st.verb, answers[0].value.status) ==>
            trail.result == Some(Ok(answers[0].value.(requestUri := Some(st.uri)))))
  {
    var (st, _) := Called(ops, policy, preserve, request);
    assert st.body.Gone?;
    if answers != [] && answers[0].Ok? && IsRedirect(answers[0].value.status) {
      if !Switches(st.verb, answers[0].value.status) {
        FailedCloneStops(ops, resolve, st, answers[0].value);
      } else {
        var step := Answered(ops, resolve, st, answers[0]);
        StepKeepsSwitch(ops, resolve, st, answers[0]);
        if step.Resend? {
          EmptyIsAbsorbing(ops, resolve, step.state, answers[1..]);
        }
      }
    }
  }
}
