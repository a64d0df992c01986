/** The life of a traced response: `ResponseFuture::poll` and `ResponseBody::poll_frame` of `Trace`. */
module Trace {
  import opened Http
  import opened BodyStream

  datatype Head = Head(status: nat, headers: HeaderMap)

  /** A `ClassifyEos`: a failure, or nothing for success. */
  datatype ClassifyEos<!F> = ClassifyEos(eos: Option<HeaderMap> -> Option<F>, error: Error -> F)

  /** A `ClassifiedResponse`. */
  datatype Classified<!F> = Settled(failure: Option<F>) | RequiresEos(classify: ClassifyEos<F>)

  /** A `ClassifyResponse`. */
  datatype Classifier<!F> = Classifier(response: Head -> Classified<F>, error: Error -> F)

  /** The callbacks that fire, with what they are given. */
  datatype Event<+F> =
    | OnResponse(latency: nat)
    | OnBodyChunk(chunk: Bytes, latency: nat)
    | OnEos(trailers: Option<HeaderMap>, elapsed: nat)
    | OnFailure(failure: F, latency: nat)

  function Elapsed(since: nat, now: nat): nat {
    if now < since then 0 else now - since
  }

  /** One answer of the inner body, and what its `is_end_stream` says after it. */
  datatype Turn = Turn(answer: Poll<Item>, endStream: bool)

  type Inner = seq<Turn>

  /** State of a `ResponseBody`. The callbacks that fire once are there until they are taken. */
  datatype Traced<!F> = Traced(
    inner: Inner, classifyEos: Option<ClassifyEos<F>>, onEos: Option<nat>, onFailure: bool, start: nat)
  {
    /** `classify_eos.take().zip(on_failure.take())` and the verdict, if both were there. */
    function Verdict(trailers: Option<HeaderMap>, latency: nat): seq<Event<F>> {
      if classifyEos.Some? && onFailure then
        match classifyEos.value.eos(trailers)
        case Some(failure) => [OnFailure(failure, latency)]
        case None => []
      else []
    }

    function ErrorVerdict(e: Error, latency: nat): seq<Event<F>> {
      if classifyEos.Some? && onFailure then [OnFailure(classifyEos.value.error(e), latency)] else []
    }

    function Eos(trailers: Option<HeaderMap>, now: nat): seq<Event<F>> {
      if onEos.Some? then [OnEos(trailers, Elapsed(onEos.value, now))] else []
    }

    /** The stream is over: the verdict, then the end of stream. */
    function End(trailers: Option<HeaderMap>, latency: nat, now: nat): seq<Event<F>> {
      Verdict(trailers, latency) + Eos(trailers, now)
    }

    function Classified(): Traced<F> {
      this.(classifyEos := None, onFailure := false)
    }

    function Finished(): Traced<F> {
      Classified().(onEos := None)
    }
  }

  /** `Body::poll_frame` at a time: the answer, the callbacks that fire, and the state afterwards. */
  function PollFrame<F>(st: Traced<F>, now: nat): (Poll<Option<Item>>, seq<Event<F>>, Traced<F>) {
    if st.inner == [] then
      (Ready(None), st.End(None, Elapsed(st.start, now), now), st.Finished().(start := now))
    else
      var turn := st.inner[0];
      var st1 := st.(inner := st.inner[1..]);
      match turn.answer
      case Pending => (Pending, [], st1)
      case Ready(item) =>
        var latency := Elapsed(st.start, now);
        var st2 := st1.(start := now);
        var answer := Ready(Some(item));
        match item
        case Err(e) => (answer, st.ErrorVerdict(e, latency), st2.Classified())
        case Ok(Trailers(trailers)) =>
          (answer, st.End(Some(trailers), latency, now), st2.Finished())
        case Ok(frame) =>
          var chunk := if frame.Data? then [OnBodyChunk(frame.bytes, latency)] else [];
          if turn.endStream then (answer, chunk + st.End(None, latency, now), st2.Finished())
          else (answer, chunk, st2)
  }

  /** `Future::poll`, once the inner future is ready: the callbacks that fire, and the traced body. */
  function Respond<F>(classifier: Classifier<F>, result: Result<(Head, Inner), Error>, start: nat, now: nat)
    : (seq<Event<F>>, Option<Traced<F>>)
  {
    var latency := Elapsed(start, now);
    match result
    case Err(e) => ([OnFailure(classifier.error(e), latency)], None)
    case Ok((head, inner)) =>
      match classifier.response(head)
      case Settled(failure) =>
        ([OnResponse(latency)] + (if failure.Some? then [OnFailure(failure.value, latency)] else []),
         Some(Traced(inner, None, Some(now), true, start)))
      case RequiresEos(classify) =>
        ([OnResponse(latency)], Some(Traced(inner, Some(classify), Some(now), true, start)))
  }

  /** The body as it is written: options taken in place, callbacks appended to a log. */
  class ResponseBody<F> {
    var inner: Inner
    var classifyEos: Option<ClassifyEos<F>>
    var onEos: Option<nat>
    var onFailure: bool
    var start: nat
    var fired: seq<Event<F>>

    function View(): Traced<F>
      reads this
    {
      Traced(inner, classifyEos, onEos, onFailure, start)
    }

    constructor (st: Traced<F>, fired: seq<Event<F>>)
      ensures View() == st && this.fired == fired
    {
      inner, classifyEos, onEos, onFailure, start := st.inner, st.classifyEos, st.onEos, st.onFailure, st.start;
      this.fired := fired;
    }

    method TakeVerdict(trailers: Option<HeaderMap>, latency: nat)
      modifies `classifyEos, `onFailure, `fired
      ensures fired == old(fired) + old(View()).Verdict(trailers, latency)
      ensures View() == old(View()).Classified()
    {
      var classify, armed := classifyEos, onFailure;
      classifyEos := None;
      onFailure := false;
      if classify.Some? && armed {
        var failure := classify.value.eos(trailers);
        if failure.Some? {
          fired := fired + [OnFailure(failure.value, latency)];
        }
      }
    }

    method TakeEos(trailers: Option<HeaderMap>, now: nat)
      modifies `onEos, `fired
      ensures fired == old(fired) + old(View()).Eos(trailers, now)
      ensures View() == old(View()).(onEos := None)
    {
      if onEos.Some? {
        fired := fired + [OnEos(trailers, Elapsed(onEos.value, now))];
      }
      onEos := None;
    }

    method Finish(trailers: Option<HeaderMap>, latency: nat, now: nat)
      modifies `classifyEos, `onFailure, `onEos, `fired
      ensures fired == old(fired) + old(View()).End(trailers, latency, now)
      ensures View() == old(View()).Finished()
    {
      TakeVerdict(trailers, latency);
      TakeEos(trailers, now);
    }

    method PollInner() returns (answer: Poll<Option<Item>>, endStream: bool)
      modifies `inner
      ensures old(inner) == [] ==> answer == Ready(None) && inner == []
      ensures old(inner) != [] ==>
        && answer == (if old(inner)[0].answer.Pending? then Pending else Ready(Some(old(inner)[0].answer.value)))
        && endStream == old(inner)[0].endStream && inner == old(inner)[1..]
    {
      if inner == [] {
        return Ready(None), true;
      }
      answer := if inner[0].answer.Pending? then Pending else Ready(Some(inner[0].answer.value));
      endStream := inner[0].endStream;
      inner := inner[1..];
    }

    method Poll(now: nat) returns (answer: Poll<Option<Item>>)
      modifies this
      ensures (answer, fired, View()) == var (a, events, st) := PollFrame(old(View()), now); (a, old(fired) + events, st)
    {
      ghost var (_, events, _) := PollFrame(View(), now);
      var endStream;
      answer, endStream := PollInner();
      if answer.Pending? {
        assert fired == old(fired) + events;
        return;
      }
      var latency := Elapsed(start, now);
      start := now;
      match answer.value
      case Some(Ok(frame)) =>
        if frame.Data? {
          fired := fired + [OnBodyChunk(frame.bytes, latency)];
        }
        if frame.Trailers? {
          Finish(Some(frame.fields), latency, now);
        }
        if endStream {
          Finish(None, latency, now);
        }
        assert fired == old(fired) + events;
      case Some(Err(e)) =>
        if classifyEos.Some? && onFailure {
          fired := fired + [OnFailure(classifyEos.value.error(e), latency)];
        }
        classifyEos := None;
        onFailure := false;
        assert fired == old(fired) + events;
      case None =>
        Finish(None, latency, now);
        assert fired == old(fired) + events;
    }
  }

  /** The future as it is written: classifier and callbacks are taken out of its fields once. */
  class ResponseFuture<F> {
    var classifier: Option<Classifier<F>>
    var onResponse: bool
    var onEos: bool
    var onFailure: bool
    const start: nat
    var fired: seq<Event<F>>

    constructor (classifier: Classifier<F>, start: nat)
      ensures this.classifier == Some(classifier) && onResponse && onEos && onFailure && this.start == start
      ensures fired == []
    {
      this.classifier := Some(classifier);
      onResponse, onEos, onFailure := true, true, true;
      this.start := start;
      fired := [];
    }

    method Poll(inner: Poll<Result<(Head, Inner), Error>>, now: nat) returns (answer: Poll<Result<ResponseBody<F>, Error>>)
      requires classifier.Some? && onResponse && onEos && onFailure
      modifies this
      ensures inner.Pending? ==> answer.Pending? && unchanged(this)
      ensures inner.Ready? ==>
        var (events, body) := Respond(old(classifier).value, inner.value, start, now);
        && classifier.None? && !onFailure && !onEos && (onResponse <==> inner.value.Err?)
        && fired == old(fired) + events
        && answer.Ready? && answer.value.Ok? == body.Some?
        && (inner.value.Err? ==> answer.value == Err(inner.value.error))
        && (body.Some? ==>
              fresh(answer.value.value) && answer.value.value.View() == body.value && answer.value.value.fired == fired)
    {
      if inner.Pending? {
        return Pending;
      }
      var latency := Elapsed(start, now);
      var taken := classifier.value;
      classifier := None;
      onEos := false;
      onFailure := false;
      match inner.value
      case Ok((head, body)) =>
        var classification := taken.response(head);
        onResponse := false;
        fired := fired + [OnResponse(latency)];
        var classifyEos := None;
        match classification {
          case Settled(failure) =>
            if failure.Some? {
              fired := fired + [OnFailure(failure.value, latency)];
            }
          case RequiresEos(classify) =>
            classifyEos := Some(classify);
        }
        var traced := new ResponseBody(Traced(body, classifyEos, Some(now), true, start), fired);
        answer := Ready(Ok(traced));
      case Err(e) =>
        fired := fired + [OnFailure(taken.error(e), latency)];
        answer := Ready(Err(e));
    }
  }
}
