/** The policies as they are written: leaves that update their fields, owned by the trees that combine them. */
module PolicyObjects {
  import opened Http
  import opened FollowRedirect
  import P = RedirectPolicy

  class LimitedPolicy {
    var remaining: nat

    constructor (max: nat)
      ensures remaining == max
    {
      remaining := max;
    }

    method Redirect() returns (answer: Result<Action, Failure>)
      modifies this
      ensures old(remaining) > 0 ==> answer == Ok(Follow) && remaining == old(remaining) - 1
      ensures old(remaining) == 0 ==> answer == Ok(Stop) && remaining == 0
    {
      if remaining > 0 {
        remaining := remaining - 1;
        return Ok(Follow);
      }
      answer := Ok(Stop);
    }
  }

  class RedirectFnPolicy {
    const f: seq<Attempt> -> Result<Action, Failure>
    var seen: seq<Attempt>

    constructor (f: seq<Attempt> -> Result<Action, Failure>)
      ensures this.f == f && seen == []
    {
      this.f := f;
      seen := [];
    }

    method Redirect(attempt: Attempt) returns (answer: Result<Action, Failure>)
      modifies this
      ensures seen == old(seen) + [attempt] && answer == f(seen)
    {
      seen := seen + [attempt];
      answer := f(seen);
    }
  }

  class FilterCredentialsPolicy {
    const filter: P.Filter
    var blocked: bool

    constructor (filter: P.Filter)
      ensures this.filter == filter && !blocked
    {
      this.filter := filter;
      blocked := false;
    }

    method Redirect(attempt: Attempt) returns (answer: Result<Action, Failure>)
      modifies this
      ensures answer == Ok(Follow)
      ensures blocked <==> filter.blockAny
                           || (filter.blockCrossOrigin && !P.EqOrigin(attempt.previous, attempt.location))
    {
      blocked := filter.blockAny || (filter.blockCrossOrigin && !P.EqOrigin(attempt.previous, attempt.location));
      answer := Ok(Follow);
    }
  }

  /** A tree of policies; leaves without state are values. */
  datatype Node =
    | Stateless(policy: P.Policy)
    | Budget(limited: LimitedPolicy)
    | Function(redirectFn: RedirectFnPolicy)
    | Filtering(filterCredentials: FilterCredentialsPolicy)
    | Both(a: Node, b: Node)
    | Either(a: Node, b: Node)
  {
    predicate IsTree() {
      match this
      case Stateless(policy) => policy.Fixed? || policy.CloneBodyFn? || policy.SameOrigin?
      case Both(a, b) => a.IsTree() && b.IsTree()
      case Either(a, b) => a.IsTree() && b.IsTree()
      case _ => true
    }

    ghost function Cells(): set<object> {
      match this
      case Stateless(_) => {}
      case Budget(limited) => {limited}
      case Function(redirectFn) => {redirectFn}
      case Filtering(filterCredentials) => {filterCredentials}
      case Both(a, b) => a.Cells() + b.Cells()
      case Either(a, b) => a.Cells() + b.Cells()
    }

    /** Every leaf belongs to one place of the tree. */
    ghost predicate Owned() {
      match this
      case Both(a, b) => a.Owned() && b.Owned() && a.Cells() !! b.Cells()
      case Either(a, b) => a.Owned() && b.Owned() && a.Cells() !! b.Cells()
      case _ => true
    }

    /** The policy that the tree is now. */
    ghost function Value(): P.Policy
      reads Cells()
    {
      match this
      case Stateless(policy) => policy
      case Budget(limited) => P.Limited(limited.remaining)
      case Function(redirectFn) => P.RedirectFn(redirectFn.f, redirectFn.seen)
      case Filtering(fc) => P.FilterCredentials(fc.filter, fc.blocked)
      case Both(a, b) => P.And(a.Value(), b.Value())
      case Either(a, b) => P.Or(a.Value(), b.Value())
    }

    /** `Policy::redirect`: updates the leaves in place exactly as the policy on values says. */
    method Redirect(attempt: Attempt) returns (answer: Result<Action, Failure>)
      requires IsTree() && Owned()
      modifies Cells()
      ensures (Value(), answer) == P.Redirect(old(Value()), attempt)
      decreases this
    {
      match this
      case Stateless(policy) =>
        var (_, constant) := P.Redirect(policy, attempt);
        answer := constant;
      case Budget(limited) =>
        answer := limited.Redirect();
      case Function(redirectFn) =>
        answer := redirectFn.Redirect(attempt);
      case Filtering(filterCredentials) =>
        answer := filterCredentials.Redirect(attempt);
      case Both(a, b) =>
        ghost var first, second := a.Value(), b.Value();
        assert allocated(a.Cells()) && allocated(b.Cells());
        answer := a.Redirect(attempt);
        assert b.Value() == second;
        if answer == Ok(Follow) {
          answer := b.Redirect(attempt);
        }
        assert (P.And(a.Value(), b.Value()), answer) == P.Redirect(P.And(first, second), attempt);
      case Either(a, b) =>
        ghost var first, second := a.Value(), b.Value();
        assert allocated(a.Cells()) && allocated(b.Cells());
        answer := a.Redirect(attempt);
        assert b.Value() == second;
        if answer == Ok(Stop) || answer.Err? {
          answer := b.Redirect(attempt);
        }
        assert (P.Or(a.Value(), b.Value()), answer) == P.Redirect(P.Or(first, second), attempt);
    }

    /** `Policy::on_request`: what is left of the request. */
    method OnRequest(request: Request) returns (left: Request)
      requires IsTree()
      ensures left == P.OnRequest(Value(), request)
      decreases this
    {
      match this
      case Filtering(fc) =>
        left := request;
        if fc.blocked {
          left := P.Filtered(fc.filter, request);
        }
      case Both(a, b) =>
        assert allocated(a.Cells()) && allocated(b.Cells());
        left := a.OnRequest(request);
        left := b.OnRequest(left);
      case Either(a, b) =>
        assert allocated(a.Cells()) && allocated(b.Cells());
        left := a.OnRequest(request);
        left := b.OnRequest(left);
      case _ =>
        left := request;
    }

    /** `Policy::clone_body`: the first copy that a leaf makes. */
    method CloneBody(body: Body) returns (copy: Option<Body>)
      requires IsTree()
      ensures copy == P.CloneWith(Value(), body)
      decreases this
    {
      match this
      case Stateless(CloneBodyFn(clone)) =>
        copy := clone(body);
      case Both(a, b) =>
        assert allocated(a.Cells()) && allocated(b.Cells());
        copy := a.CloneBody(body);
        if copy.None? {
          copy := b.CloneBody(body);
        }
      case Either(a, b) =>
        assert allocated(a.Cells()) && allocated(b.Cells());
        copy := a.CloneBody(body);
        if copy.None? {
          copy := b.CloneBody(body);
        }
      case _ =>
        copy := None;
    }
  }
}
