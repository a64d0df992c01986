/** Two `WrapBody`s stacked: a decoder over the body that an encoder makes. */
module WrapBodyRoundTrip {
  import opened Http
  import opened BodyStream
  import opened WrapBody
  import opened WrapBodyRuns
  import opened WrapBodyRefinement
  import opened WrapBodyEnds

  /** An encoder takes any input. */
  ghost predicate Encodes(enc: Codec) {
    forall x :: Accepts(enc, x)
  }

  /** `dec(enc(x)) = x`, for streams: whatever the encoder makes of `x`, the decoder accepts in any chunks, and
      all it can make of it is `x`. */
  ghost predicate Inverts(dec: Codec, enc: Codec) {
    forall x, y :: Finishes(enc, x, y) ==> Accepts(dec, y) && forall z :: Finishes(dec, y, z) ==> z == x
  }

  /** The answers of a run as the script of a body, up to the end. */
  function Wire(os: seq<Outcome>): Script {
    if os == [] || os[0].Panicked? || os[0].answer == Ready(None) then []
    else [if os[0].answer.Pending? then Pending else Ready(os[0].answer.value.value)] + Wire(os[1..])
  }

  /** One poll of a run, and what the polls after it can deliver. */
  lemma PollThenRun(c: Codec, input: Bytes, w: Wrap, n: nat)
    requires Accepts(c, input) && Live(c, input, w)
    ensures var (o, w1) := WrapPoll(c, w);
      && Live(c, input, w1) && o.Polled?
      && (o == Polled(Ready(None)) ==> ItemOf(o) + Delivered(Run(c, w1, n).0) == [])
  {
    PollRefines(c, input, w);
    RunConforms(c, input, WrapPoll(c, w).1, n);
  }

  lemma FirstOnWire(c: Codec, input: Bytes, w: Wrap, n: nat) returns (o: Outcome, w1: Wrap)
    requires Accepts(c, input) && Live(c, input, w) && n > 0
    ensures Live(c, input, w1) && o.Polled?
    ensures o == Polled(Ready(None)) ==> ItemOf(o) + Delivered(Run(c, w1, n - 1).0) == []
    ensures Run(c, w, n).0 == [o] + Run(c, w1, n - 1).0
  {
    PollThenRun(c, input, w, n - 1);
    o, w1 := WrapPoll(c, w).0, WrapPoll(c, w).1;
  }

  lemma {:induction false} WireCarriesRun(c: Codec, input: Bytes, w: Wrap, n: nat)
    requires Accepts(c, input) && Live(c, input, w)
    ensures Items(Wire(Run(c, w, n).0)) == Delivered(Run(c, w, n).0)
    decreases n
  {
    if n > 0 {
      var o, w1 := FirstOnWire(c, input, w, n);
      WireCarriesRun(c, input, w1, n - 1);
      WireCons(o, Run(c, w1, n - 1).0);
    }
  }

  lemma WireCons(o: Outcome, os: seq<Outcome>)
    requires o.Polled? && (o == Polled(Ready(None)) ==> ItemOf(o) + Delivered(os) == [])
    requires Items(Wire(os)) == Delivered(os)
    ensures Items(Wire([o] + os)) == Delivered([o] + os)
  {
    DeliveredCons(o, os);
    assert ([o] + os)[1..] == os;
    if o.answer != Ready(None) {
      var first := if o.answer.Pending? then Pending else Ready(o.answer.value.value);
      assert ([first] + Wire(os))[1..] == Wire(os);
    }
  }

  /** The encoded body, once it has ended, as the body under the decoder. */
  lemma EncodedBody(enc: Codec, body: Script, n: nat)
    requires Encodes(enc) && Conforms(Items(body))
    requires Polled(Ready(None)) in Run(enc, FreshWrap(body), n).0
    ensures var wire := Items(Wire(Run(enc, FreshWrap(body), n).0));
      && Conforms(wire)
      && Signals(wire) == Signals(Items(body))
      && Finishes(enc, DataOf(Items(body)), DataOf(wire))
  {
    assert FreshWrap(body).Left() == Items(body);
    WireCarriesRun(enc, DataOf(Items(body)), FreshWrap(body), n);
    Refines(enc, body, n);
  }

  /** Round trip: a decoder over a completed encoded body never answers an error, and once it has answered the
      end, it has delivered the data and the trailers of the original body. */
  lemma RoundTrip(enc: Codec, dec: Codec, body: Script, n: nat, m: nat)
    requires Encodes(enc) && Inverts(dec, enc) && Conforms(Items(body))
    requires Polled(Ready(None)) in Run(enc, FreshWrap(body), n).0
    ensures var os := Run(dec, FreshWrap(Wire(Run(enc, FreshWrap(body), n).0)), m).0;
      && (forall i :: 0 <= i < |os| ==> Quiet(os[i]))
      && Conforms(Delivered(os))
      && Signals(Delivered(os)) <= Signals(Items(body))
      && (Polled(Ready(None)) in os ==>
            DataOf(Delivered(os)) == DataOf(Items(body)) && Signals(Delivered(os)) == Signals(Items(body)))
  {
    EncodedBody(enc, body, n);
    var wire := Wire(Run(enc, FreshWrap(body), n).0);
    Refines(dec, wire, m);
  }

  /** With bounded codecs both runs do end, so enough polls deliver the whole original body. */
  lemma RoundTripCompletes(enc: Codec, dec: Codec, body: Script, encLimit: nat, decLimit: nat, n: nat, m: nat)
    requires Encodes(enc) && Inverts(dec, enc) && Conforms(Items(body))
    requires Bounded(enc, DataOf(Items(body)), encLimit)
    requires forall y :: Finishes(enc, DataOf(Items(body)), y) ==> Bounded(dec, y, decLimit)
    requires n > 2 * |body| + encLimit
    requires m > 2 * n + decLimit
    ensures var os := Run(dec, FreshWrap(Wire(Run(enc, FreshWrap(body), n).0)), m).0;
      && Polled(Ready(None)) in os
      && DataOf(Delivered(os)) == DataOf(Items(body)) && Signals(Delivered(os)) == Signals(Items(body))
  {
    var x := DataOf(Items(body));
    assert FreshWrap(body).Left() == Items(body);
    RunReachesEnd(enc, x, FreshWrap(body), encLimit, n);
    EncodedBody(enc, body, n);
    var os := Run(enc, FreshWrap(body), n).0;
    var wire := Wire(os);
    WireLength(os);
    RunLength(enc, FreshWrap(body), n);
    assert FreshWrap(wire).Left() == Items(wire);
    RunReachesEnd(dec, DataOf(Items(wire)), FreshWrap(wire), decLimit, m);
    RoundTrip(enc, dec, body, n, m);
  }

  lemma SameFirstPoll(c: Codec, w: Wrap, n: nat, m: nat) returns (first: seq<Item>, w1: Wrap)
    requires n > 0 && m > 0
    ensures Delivered(Run(c, w, n).0) == first + Delivered(Run(c, w1, n - 1).0)
    ensures Delivered(Run(c, w, m).0) == first + Delivered(Run(c, w1, m - 1).0)
  {
    first, w1 := ItemOf(WrapPoll(c, w).0), WrapPoll(c, w).1;
    DeliveredCons(WrapPoll(c, w).0, Run(c, w1, n - 1).0);
    DeliveredCons(WrapPoll(c, w).0, Run(c, w1, m - 1).0);
  }

  /** What has been delivered stays delivered. */
  lemma {:induction false} DeliveredGrows(c: Codec, w: Wrap, n: nat, m: nat)
    requires n <= m
    ensures Delivered(Run(c, w, n).0) <= Delivered(Run(c, w, m).0)
    decreases n
  {
    if n > 0 {
      var first, w1 := SameFirstPoll(c, w, n, m);
      DeliveredGrows(c, w1, n - 1, m - 1);
    }
  }

  /** A codec that can make one thing only of a body has made it after enough polls. */
  lemma DeliversAll(c: Codec, body: Script, x: Bytes, limit: nat, m: nat)
    requires Conforms(Items(body)) && Accepts(c, DataOf(Items(body))) && Bounded(c, DataOf(Items(body)), limit)
    requires forall z :: Finishes(c, DataOf(Items(body)), z) ==> z == x
    requires m > 2 * |body| + limit
    ensures DataOf(Delivered(Run(c, FreshWrap(body), m).0)) == x
  {
    FreshIsLive(c, body);
    RunReachesEnd(c, DataOf(Items(body)), FreshWrap(body), limit, m);
    Refines(c, body, m);
  }

  /** Before that it has made a beginning of it. */
  lemma DeliversTheStart(c: Codec, body: Script, x: Bytes, limit: nat, m: nat)
    requires Conforms(Items(body)) && Accepts(c, DataOf(Items(body))) && Bounded(c, DataOf(Items(body)), limit)
    requires forall z :: Finishes(c, DataOf(Items(body)), z) ==> z == x
    ensures DataOf(Delivered(Run(c, FreshWrap(body), m).0)) <= x
    ensures Signals(Delivered(Run(c, FreshWrap(body), m).0)) <= Signals(Items(body))
  {
    var enough := m + 2 * |body| + limit + 1;
    Refines(c, body, m);
    DeliversAll(c, body, x, limit, enough);
    DeliveredGrows(c, FreshWrap(body), m, enough);
    DataGrows(Delivered(Run(c, FreshWrap(body), m).0), Delivered(Run(c, FreshWrap(body), enough).0));
  }

  /** At every moment, and not only at the end: the bytes that the decoder has delivered are the first bytes of the
      original body. */
  lemma RoundTripSoFar(enc: Codec, dec: Codec, body: Script, decLimit: nat, n: nat, m: nat)
    requires Encodes(enc) && Inverts(dec, enc) && Conforms(Items(body))
    requires forall y :: Finishes(enc, DataOf(Items(body)), y) ==> Bounded(dec, y, decLimit)
    requires Polled(Ready(None)) in Run(enc, FreshWrap(body), n).0
    ensures var delivered := Delivered(Run(dec, FreshWrap(Wire(Run(enc, FreshWrap(body), n).0)), m).0);
      DataOf(delivered) <= DataOf(Items(body)) && Signals(delivered) <= Signals(Items(body))
  {
    EncodedBody(enc, body, n);
    DeliversTheStart(dec, Wire(Run(enc, FreshWrap(body), n).0), DataOf(Items(body)), decLimit, m);
  }

  lemma {:induction false} WireLength(os: seq<Outcome>)
    ensures |Wire(os)| <= |os|
  {
    if os != [] {
      WireLength(os[1..]);
    }
  }

  // ---------------------------------------------------------------- the hypotheses can be met

  /** The codec that copies. */
  function CopyMove(h: History): Move {
    if |h.Output()| < |h.Input()| then Return(h.Input()[|h.Output()|..])
    else if h.AtEof() then Return([])
    else Need
  }

  lemma {:induction false} CopyReaches(h: History)
    requires Reachable(CopyMove, h)
    ensures h.Output() <= h.Input() && h.Returns() <= |h.Output()|
    ensures !CopyMove(h).Raise? && (Ends(CopyMove, h) ==> h.AtEof() && h.Output() == h.Input())
  {
    if !h.Start? {
      CopyReaches(h.before);
    }
  }

  /** The copying codec is an encoder with itself as decoder, and it is bounded by the length of the input: the
      hypotheses of the round trip do not contradict each other. */
  lemma CopyMeetsHypotheses(input: Bytes)
    ensures Encodes(CopyMove) && Inverts(CopyMove, CopyMove) && Bounded(CopyMove, input, |input|)
  {
    forall h | Reachable(CopyMove, h)
      ensures h.Output() <= h.Input() && h.Returns() <= |h.Output()|
      ensures !CopyMove(h).Raise? && (Ends(CopyMove, h) ==> h.AtEof() && h.Output() == h.Input())
    {
      CopyReaches(h);
    }
  }
}
