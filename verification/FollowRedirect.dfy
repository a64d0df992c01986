/** The redirect machine: `FollowRedirect::call` and `ResponseFuture::poll`, for any policy. */
module FollowRedirect {
  import opened Http

  datatype Method = Get | Head | Post | OtherMethod(name: string)

  datatype Scheme = HttpScheme | HttpsScheme | OtherScheme(name: string)

  datatype Uri = Uri(scheme: Option<Scheme>, host: Option<string>, port: Option<nat>, path: string)

  /** Request extensions: one value for each type. */
  type Extensions = map<nat, nat>

  /** A request body, with the exact size of its `size_hint` if it has one. */
  datatype Body = Body(content: Bytes, exactSize: Option<nat>)

  /** `B::default()`: an empty body. */
  const DEFAULT_BODY := Body([], Some(0))

  datatype Request = Request(
    verb: Method, uri: Uri, version: nat, headers: HeaderMap, extensions: Extensions, body: Body)

  /** A response; `requestUri` is its `RequestUri` extension, and `payload` stands for all that is not looked at. */
  datatype Response = Response(status: nat, headers: HeaderMap, requestUri: Option<Uri>, payload: nat)

  type Failure = nat

  datatype Action = Follow | Stop

  datatype Attempt = Attempt(status: nat, verb: Method, location: Uri, previousVerb: Method, previous: Uri)

  /** A policy with states `P`: any implementation of the `Policy` trait, as functions on its state. */
  datatype PolicyOps<!P> = PolicyOps(
    redirect: (P, Attempt) -> (P, Result<Action, Failure>),
    onRequest: (P, Request) -> (P, Request),
    cloneBody: (P, Body) -> Option<Body>)

  /** `resolve_uri`: a `Location` value against the URI of the request. */
  type Resolver = (HeaderValue, Uri) -> Option<Uri>

  datatype BodyRepr = Kept(body: Body) | Empty | Gone

  /** `clone_body`: a body known to be empty needs no help from the policy. */
  function CloneBody<P>(ops: PolicyOps<P>, policy: P, body: Body): Option<Body> {
    if body.exactSize == Some(0) then Some(DEFAULT_BODY) else ops.cloneBody(policy, body)
  }

  function TryCloneFrom<P>(repr: BodyRepr, ops: PolicyOps<P>, policy: P, body: Body): BodyRepr {
    match repr
    case Gone => (match CloneBody(ops, policy, body) case Some(copy) => Kept(copy) case None => Gone)
    case _ => repr
  }

  /** `BodyRepr::take`: what to send next, and what is left of the representation. */
  function Take(repr: BodyRepr): (Option<Body>, BodyRepr) {
    match repr
    case Kept(body) => (Some(body), Gone)
    case Empty => (Some(DEFAULT_BODY), Empty)
    case Gone => (None, Gone)
  }

  function DropPayloadHeaders(headers: HeaderMap): HeaderMap {
    Remove(Remove(Remove(Remove(headers, ContentType), ContentLength), ContentEncoding), TransferEncoding)
  }

  /** State of a `ResponseFuture` between polls. */
  datatype Redirector<P> = Redirector(
    policy: P, verb: Method, uri: Uri, version: nat, headers: HeaderMap, extensions: Extensions, body: BodyRepr)
  {
    /** What the status of a response does to the method, the body and the headers. */
    function Rewritten(status: nat): Redirector<P> {
      if (status == 301 || status == 302) && verb == Post then
        this.(verb := Get, body := Empty, headers := DropPayloadHeaders(headers))
      else if status == 303 then
        this.(verb := if verb == Head then Head else Get, body := Empty, headers := DropPayloadHeaders(headers))
      else this
    }
  }

  predicate IsRedirect(status: nat) {
    status == 301 || status == 302 || status == 303 || status == 307 || status == 308
  }

  /** One answer of the inner service either completes the future or makes it send again. */
  datatype Step<P> =
    | Complete(state: Redirector<P>, result: Result<Response, Failure>)
    | Resend(state: Redirector<P>, request: Request)

  function Target(resolve: Resolver, base: Uri, res: Response): Option<Uri> {
    match Http.Get(res.headers, Location)
    case Some(location) => resolve(location, base)
    case None => None
  }

  /** The new request, as the policy leaves it; what it leaves is carried to the next hop. */
  function Send<P>(ops: PolicyOps<P>, st: Redirector<P>, body: Body): Step<P> {
    var (policy, request) :=
      ops.onRequest(st.policy, Request(st.verb, st.uri, st.version, st.headers, st.extensions, body));
    Resend(st.(policy := policy, headers := request.headers, extensions := request.extensions), request)
  }

  function Answered<P>(ops: PolicyOps<P>, resolve: Resolver, st: Redirector<P>, answer: Result<Response, Failure>): Step<P> {
    if answer.Err? then Complete(st, answer)
    else
      var res := answer.value.(requestUri := Some(st.uri));
      if !IsRedirect(res.status) then Complete(st, Ok(res))
      else
        var rewritten := st.Rewritten(res.status);
        var (body, left) := Take(rewritten.body);
        var st1 := rewritten.(body := left);
        var target := Target(resolve, st1.uri, res);
        if body == None || target == None then Complete(st1, Ok(res))
        else
          var (policy, action) :=
            ops.redirect(st1.policy, Attempt(res.status, st1.verb, target.value, st.verb, st1.uri));
          var st2 := st1.(policy := policy);
          match action
          case Err(e) => Complete(st2, Err(e))
          case Ok(Stop) => Complete(st2, Ok(res))
          case Ok(Follow) =>
            Send(ops, st2.(uri := target.value, body := TryCloneFrom(st2.body, ops, policy, body.value)), body.value)
  }

  /** `FollowRedirect::call`: the state of the new future and the first request it sends. */
  function Called<P>(ops: PolicyOps<P>, policy: P, preserveExtensions: bool, request: Request): (Redirector<P>, Request) {
    var (policy', sent) := ops.onRequest(policy, request);
    (Redirector(policy', sent.verb, sent.uri, sent.version, sent.headers,
                if preserveExtensions then sent.extensions else map[],
                TryCloneFrom(Gone, ops, policy, request.body)), sent)
  }

  class ResponseFuture<P> {
    const ops: PolicyOps<P>
    const resolve: Resolver
    var policy: P
    var verb: Method
    var uri: Uri
    var version: nat
    var headers: HeaderMap
    var extensions: Extensions
    var body: BodyRepr
    /** The request that is in flight. */
    var future: Request

    function View(): Redirector<P>
      reads this
    {
      Redirector(policy, verb, uri, version, headers, extensions, body)
    }

    constructor (ops: PolicyOps<P>, resolve: Resolver, policy: P, preserveExtensions: bool, request: Request)
      ensures this.ops == ops && this.resolve == resolve
      ensures (View(), future) == Called(ops, policy, preserveExtensions, request)
    {
      var kept := TryCloneFrom(Gone, ops, policy, request.body);
      var (policy', sent) := ops.onRequest(policy, request);
      this.ops, this.resolve, this.policy := ops, resolve, policy';
      verb, uri, version, headers := sent.verb, sent.uri, sent.version, sent.headers;
      extensions := if preserveExtensions then sent.extensions else map[];
      body := kept;
      future := sent;
    }

    method TakeBody() returns (taken: Option<Body>)
      modifies this`body
      ensures (taken, body) == Take(old(body))
    {
      var repr := body;
      body := Gone;
      match repr
      case Kept(b) => taken := Some(b);
      case Empty =>
        body := Empty;
        taken := Some(DEFAULT_BODY);
      case Gone => taken := None;
    }

    /** The match on the status: rewrites method, body and headers in place. */
    method Rewrite(status: nat)
      modifies `verb, `body, `headers
      ensures View() == old(View()).Rewritten(status)
    {
      if status == 301 || status == 302 {
        if verb == Post {
          verb := Get;
          body := Empty;
          headers := DropPayloadHeaders(headers);
        }
      } else if status == 303 {
        if verb != Head {
          verb := Get;
        }
        body := Empty;
        headers := DropPayloadHeaders(headers);
      }
    }

    /** Builds the next request, lets the policy have it, and carries on what the policy leaves. */
    method SendAgain(payload: Body)
      modifies this
      ensures Send(ops, old(View()), payload) == Resend(View(), future)
    {
      var request := Request(verb, uri, version, headers, extensions, payload);
      var (policy', sent) := ops.onRequest(policy, request);
      policy := policy';
      headers := sent.headers;
      extensions := sent.extensions;
      future := sent;
    }

    /** `Future::poll`, when the request in flight has been answered. */
    method Poll(answer: Result<Response, Failure>) returns (result: Poll<Result<Response, Failure>>)
      modifies this
      ensures var step := Answered(ops, resolve, old(View()), answer);
        && View() == step.state
        && result == (if step.Complete? then Ready(step.result) else Pending)
        && future == (if step.Complete? then old(future) else step.request)
    {
      if answer.Err? {
        return Ready(answer);
      }
      var res := answer.value.(requestUri := Some(uri));
      var previousVerb := verb;
      if !IsRedirect(res.status) {
        return Ready(Ok(res));
      }
      Rewrite(res.status);
      var taken := TakeBody();
      var target := Target(resolve, uri, res);
      if taken == None || target == None {
        return Ready(Ok(res));
      }
      var (policy', action) := ops.redirect(policy, Attempt(res.status, verb, target.value, previousVerb, uri));
      policy := policy';
      match action
      case Err(e) => return Ready(Err(e));
      case Ok(Stop) => return Ready(Ok(res));
      case Ok(Follow) =>
        uri := target.value;
        body := TryCloneFrom(body, ops, policy, taken.value);
        SendAgain(taken.value);
        return Pending;
    }
  }

  /** A redirecting service. Each call starts from its own copy of the policy. */
  class FollowRedirectService<P> {
    const ops: PolicyOps<P>
    const resolve: Resolver
    const preserveExtensions: bool
    var policy: P

    constructor (ops: PolicyOps<P>, resolve: Resolver, policy: P, preserveExtensions: bool)
      ensures this.ops == ops && this.resolve == resolve && this.policy == policy
      ensures this.preserveExtensions == preserveExtensions
    {
      this.ops, this.resolve, this.policy, this.preserveExtensions := ops, resolve, policy, preserveExtensions;
    }

    method Call(request: Request) returns (future: ResponseFuture<P>)
      ensures fresh(future) && future.ops == ops && future.resolve == resolve
      ensures (future.View(), future.future) == Called(ops, policy, preserveExtensions, request)
      ensures policy == old(policy)
    {
      future := new ResponseFuture(ops, resolve, policy, preserveExtensions, request);
    }
  }
}
