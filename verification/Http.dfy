/** Vocabulary shared by every component: results, poll outcomes and the header map of the `http` crate. */
module Http {
  datatype Option<+T> = None | Some(value: T)

  datatype Result<+T, +E> = Ok(value: T) | Err(error: E)

  /** What polling a future or a body answers. */
  datatype Poll<+T> = Pending | Ready(value: T)

  newtype Byte = b: int | 0 <= b < 256

  type Bytes = seq<Byte>

  /** Header names are case-insensitive in HTTP; here each name is one value. */
  datatype HeaderName =
    | AcceptEncoding
    | AcceptRanges
    | Authorization
    | ContentEncoding
    | ContentLength
    | ContentRange
    | ContentType
    | Cookie
    | GrpcMessage
    | GrpcStatus
    | Location
    | ProxyAuthorization
    | TransferEncoding
    | Vary
    | Custom(name: string)

  /** One character per byte of the field value. */
  type HeaderValue = string

  /** `HeaderValue::to_str` succeeds on visible ASCII and tabs. */
  predicate IsVisible(v: HeaderValue) {
    forall i :: 0 <= i < |v| ==> v[i] == '\t' || ' ' <= v[i] <= '~'
  }

  /** A multimap: the values of one name keep their order, and a name that is present has a value. */
  type HeaderMap = m: map<HeaderName, seq<HeaderValue>> | forall k :: k in m ==> m[k] != []

  function GetAll(m: HeaderMap, name: HeaderName): seq<HeaderValue> {
    if name in m then m[name] else []
  }

  /** `HeaderMap::get`: the first value of the name. */
  function Get(m: HeaderMap, name: HeaderName): Option<HeaderValue> {
    if name in m then Some(m[name][0]) else None
  }

  function Append(m: HeaderMap, name: HeaderName, value: HeaderValue): HeaderMap {
    m[name := GetAll(m, name) + [value]]
  }

  /** `HeaderMap::insert`: replaces every value of the name. */
  function Insert(m: HeaderMap, name: HeaderName, value: HeaderValue): HeaderMap {
    m[name := [value]]
  }

  /** `HeaderMap::remove`: drops every value of the name. */
  function Remove(m: HeaderMap, name: HeaderName): HeaderMap {
    m - {name}
  }

  /** Every entry of `a` is an entry of `b`, as often as it is in `a`. */
  ghost predicate SubHeaders(a: HeaderMap, b: HeaderMap) {
    forall k :: k in a ==> k in b && multiset(a[k]) <= multiset(b[k])
  }

  /** Readings of a clock that does not go back. */
  predicate NonDecreasing(times: seq<nat>) {
    forall i, j :: 0 <= i < j < |times| ==> times[i] <= times[j]
  }

  lemma Regroup<T>(a: seq<T>, b: seq<T>, c: seq<T>)
    ensures (a + b) + c == a + (b + c)
  {
  }

  /** What `pick` makes of each element, in order. */
  function Select<A, B>(xs: seq<A>, pick: A -> seq<B>): seq<B> {
    if xs == [] then [] else pick(xs[0]) + Select(xs[1..], pick)
  }

  lemma {:induction false} SelectJoined<A, B>(a: seq<A>, b: seq<A>, pick: A -> seq<B>)
    ensures Select(a + b, pick) == Select(a, pick) + Select(b, pick)
  {
    if a == [] {
      assert a + b == b;
    } else {
      SelectJoined(a[1..], b, pick);
      assert (a + b)[1..] == a[1..] + b;
      Regroup(pick(a[0]), Select(a[1..], pick), Select(b, pick));
    }
  }

  lemma SelectOne<A, B>(x: A, pick: A -> seq<B>)
    ensures Select([x], pick) == pick(x)
  {
    assert [x][1..] == [];
  }
}
