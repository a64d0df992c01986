/** What the classifiers mean for a whole traced call. */
module ClassifiedRuns {
  import opened Http
  import opened BodyStream
  import opened Numbers
  import opened Trace
  import opened TraceRuns
  import opened TraceOutcome
  import opened Classify

  /** The number of a code in the list of gRPC status codes. */
  function Number(code: GrpcCode): int {
    match code
    case Success => 0
    case Cancelled => 1
    case Unspecified => 2
    case InvalidArgument => 3
    case DeadlineExceeded => 4
    case NotFound => 5
    case AlreadyExists => 6
    case PermissionDenied => 7
    case ResourceExhausted => 8
    case FailedPrecondition => 9
    case Aborted => 10
    case OutOfRange => 11
    case Unimplemented => 12
    case Internal => 13
    case Unavailable => 14
    case DataLoss => 15
    case Unauthenticated => 16
  }

  lemma NumbersAreIndices(n: int, code: GrpcCode)
    ensures FromI32(n) == Some(code) <==> Number(code) == n
  {
  }

  /** Adding one code to a mask accepts that code and no other. */
  lemma AddOne(mask: bv32, added: GrpcCode, code: GrpcCode)
    ensures Contains(mask | IntoBitmask(added), IntoBitmask(code)) <==>
            Contains(mask, IntoBitmask(code)) || added == code
  {
    match code
    case Success =>
    case Cancelled =>
    case Unspecified =>
    case InvalidArgument =>
    case DeadlineExceeded =>
    case NotFound =>
    case AlreadyExists =>
    case PermissionDenied =>
    case ResourceExhausted =>
    case FailedPrecondition =>
    case Aborted =>
    case OutOfRange =>
    case Unimplemented =>
    case Internal =>
    case Unavailable =>
    case DataLoss =>
    case Unauthenticated =>
  }

  lemma GrownMask(mask: bv32, grown: bv32, added: GrpcCode, code: GrpcCode)
    requires grown == mask | IntoBitmask(added)
    ensures Contains(grown, IntoBitmask(code)) <==> Contains(mask, IntoBitmask(code)) || added == code
  {
    AddOne(mask, added, code);
  }

  lemma LastCode(decode: HeaderValue -> string, codes: seq<GrpcCode>, code: GrpcCode)
    requires codes != []
    ensures var init, last := codes[..|codes| - 1], codes[|codes| - 1];
      Contains(Configured(decode, codes).successCodes, IntoBitmask(code)) <==>
      Contains(Configured(decode, init).successCodes, IntoBitmask(code)) || last == code
  {
    GrownMask(Configured(decode, codes[..|codes| - 1]).successCodes, Configured(decode, codes).successCodes,
              codes[|codes| - 1], code);
  }

  lemma InInitOrLast(codes: seq<GrpcCode>, code: GrpcCode)
    requires codes != []
    ensures code in codes <==> code in codes[..|codes| - 1] || codes[|codes| - 1] == code
  {
    assert codes == codes[..|codes| - 1] + [codes[|codes| - 1]];
  }

  /** The bit mask stands for a set: it accepts code 0 and the codes that were added, and no other. */
  lemma {:induction false} MaskIsASet(decode: HeaderValue -> string, codes: seq<GrpcCode>, code: GrpcCode)
    ensures Contains(Configured(decode, codes).successCodes, IntoBitmask(code)) <==> code == Success || code in codes
  {
    if codes == [] {
      FirstMask(decode, code);
    } else {
      MaskIsASet(decode, codes[..|codes| - 1], code);
      LastCode(decode, codes, code);
      InInitOrLast(codes, code);
    }
  }

  lemma FirstMask(decode: HeaderValue -> string, code: GrpcCode)
    ensures Contains(NewGrpc(decode).successCodes, IntoBitmask(code)) <==> code == Success
  {
  }

  /** A status that counts as success: 0, or the number of a code that was added. */
  predicate Succeeds(status: int, codes: seq<GrpcCode>) {
    status == 0 || exists i :: 0 <= i < |codes| && Number(codes[i]) == status
  }

  /** A `grpc-status` value that makes the call a failure. */
  predicate Fails(value: HeaderValue, codes: seq<GrpcCode>) {
    IsVisible(value) && ParseI32(value).Some? && !Succeeds(ParseI32(value).value, codes)
  }

  /** A status tells the number that was read, its code if it has one, and the first `grpc-message`, decoded. */
  ghost predicate Describes(status: GrpcStatus, decode: HeaderValue -> string, headers: HeaderMap)
    requires HeaderName.GrpcStatus in headers && ParseI32(headers[HeaderName.GrpcStatus][0]).Some?
  {
    var raw := ParseI32(headers[HeaderName.GrpcStatus][0]).value;
    && status.codeRaw == raw
    && (forall code :: status.code == Some(code) <==> Number(code) == raw)
    && status.message == if GrpcMessage in headers then Some(decode(headers[GrpcMessage][0])) else None
  }

  lemma MetadataFailsIff(decode: HeaderValue -> string, codes: seq<GrpcCode>, headers: HeaderMap)
    ensures var parsed := ClassifyGrpcMetadata(headers, Configured(decode, codes).successCodes, decode);
      && (parsed.GrpcStatusHeaderMissing? <==> HeaderName.GrpcStatus !in headers)
      && (parsed.NonSuccess? <==> HeaderName.GrpcStatus in headers && Fails(headers[HeaderName.GrpcStatus][0], codes))
      && (parsed.NonSuccess? ==>
            ParseI32(headers[HeaderName.GrpcStatus][0]).Some? && Describes(parsed.status, decode, headers))
  {
    if HeaderName.GrpcStatus in headers && IsVisible(headers[HeaderName.GrpcStatus][0]) {
      var parsed := ParseI32(headers[HeaderName.GrpcStatus][0]);
      if parsed.Some? {
        CodeSucceedsIff(decode, codes, parsed.value);
        forall code ensures FromI32(parsed.value) == Some(code) <==> Number(code) == parsed.value {
          NumbersAreIndices(parsed.value, code);
        }
      }
    }
  }

  lemma CodeSucceedsIff(decode: HeaderValue -> string, codes: seq<GrpcCode>, status: int)
    ensures Succeeds(status, codes) <==>
            FromI32(status).Some? && Contains(Configured(decode, codes).successCodes, IntoBitmask(FromI32(status).value))
  {
    if FromI32(status).Some? {
      var code := FromI32(status).value;
      MaskIsASet(decode, codes, code);
      NumbersAreIndices(status, code);
      forall i | 0 <= i < |codes|
        ensures Number(codes[i]) == status <==> codes[i] == code
      {
        NumbersAreIndices(status, codes[i]);
      }
      if code in codes {
        var i :| 0 <= i < |codes| && codes[i] == code;
        assert Number(codes[i]) == status;
      }
    } else {
      forall i | 0 <= i < |codes|
        ensures Number(codes[i]) != status
      {
        NumbersAreIndices(status, codes[i]);
      }
    }
  }

  /** The headers or trailers with the `grpc-status` of a response: its headers, or else its trailers. */
  function FoundIn(head: Head, ending: Ending): Option<HeaderMap> {
    if HeaderName.GrpcStatus in head.headers then Some(head.headers)
    else match ending
      case Clean(Some(trailers)) => if HeaderName.GrpcStatus in trailers then Some(trailers) else None
      case _ => None
  }

  /** A response fails if the first `grpc-status` found is one that fails, or if none is found and the body breaks. */
  predicate CallFails(head: Head, ending: Ending, codes: seq<GrpcCode>) {
    var found := FoundIn(head, ending);
    if found.Some? && HeaderName.GrpcStatus in found.value then Fails(found.value[HeaderName.GrpcStatus][0], codes)
    else ending.Broken?
  }

  /** The failure tells the status that was found, or the error that broke the body. */
  ghost predicate Tells(failure: GrpcFailureClass, decode: HeaderValue -> string, head: Head, ending: Ending) {
    match FoundIn(head, ending)
    case Some(found) =>
      && HeaderName.GrpcStatus in found && ParseI32(found[HeaderName.GrpcStatus][0]).Some?
      && failure.Status? && Describes(failure.status, decode, found)
    case None => ending.Broken? && failure == Broke(ending.error)
  }

  /** What the classifier makes of a whole response. */
  lemma GrpcOutcome(decode: HeaderValue -> string, codes: seq<GrpcCode>, head: Head, ending: Ending)
    ensures var failure := match Configured(decode, codes).Response(head)
                           case Settled(failure) => failure
                           case RequiresEos(classify) => Outcome(classify, ending);
      && (failure.Some? <==> CallFails(head, ending, codes))
      && (failure.Some? ==> Tells(failure.value, decode, head, ending))
  {
    MetadataFailsIff(decode, codes, head.headers);
    if ending.Clean? && ending.trailers.Some? {
      MetadataFailsIff(decode, codes, ending.trailers.value);
    }
    ConfiguredKeepsDecode(decode, codes);
  }

  lemma {:induction false} ConfiguredKeepsDecode(decode: HeaderValue -> string, codes: seq<GrpcCode>)
    ensures Configured(decode, codes).decode == decode
  {
    if codes != [] {
      ConfiguredKeepsDecode(decode, codes[..|codes| - 1]);
    }
  }

  /** With the gRPC classifier, a call whose body is read until there is a reason to stop is reported as a failure
      exactly when the first `grpc-status` found parses to a number outside the accumulated success set, or no
      status is found and the body breaks. There is one report, and it tells that status or that error. */
  lemma GrpcFailureIff(
      decode: HeaderValue -> string, codes: seq<GrpcCode>, head: Head, inner: Inner, start: nat, now: nat, times: seq<nat>)
    requires Stops(inner, |times|)
    ensures var failures := Failures(Lifecycle(Configured(decode, codes).ToClassifier(), Ok((head, inner)), start, now, times));
      && (failures != [] <==> CallFails(head, EndingOf(inner), codes))
      && (failures != [] ==> |failures| == 1 && Tells(failures[0], decode, head, EndingOf(inner)))
  {
    var classifier := Configured(decode, codes).ToClassifier();
    OutcomeDoesNotDependOnPolling(classifier, head, inner, start, now, times, times);
    GrpcOutcome(decode, codes, head, EndingOf(inner));
    assert classifier.response(head) == Configured(decode, codes).Response(head);
  }

  /** A call whose response fails to arrive is reported with that error. */
  lemma GrpcCallBreaks(decode: HeaderValue -> string, codes: seq<GrpcCode>, e: Error, start: nat, now: nat, times: seq<nat>)
    ensures Failures(Lifecycle(Configured(decode, codes).ToClassifier(), Err(e), start, now, times)) == [Broke(e)]
  {
    LifecycleReports(Configured(decode, codes).ToClassifier(), Err(e), start, now, times);
  }

  // Mapping the failure class.

  function MapEvent<F, G>(event: Event<F>, f: F -> G): Event<G> {
    match event
    case OnResponse(latency) => OnResponse(latency)
    case OnBodyChunk(chunk, latency) => OnBodyChunk(chunk, latency)
    case OnEos(trailers, elapsed) => OnEos(trailers, elapsed)
    case OnFailure(failure, latency) => OnFailure(f(failure), latency)
  }

  function MapEvents<F, G>(events: seq<Event<F>>, f: F -> G): seq<Event<G>> {
    if events == [] then [] else [MapEvent(events[0], f)] + MapEvents(events[1..], f)
  }

  lemma {:induction false} MapEventsJoined<F, G>(a: seq<Event<F>>, b: seq<Event<F>>, f: F -> G)
    ensures MapEvents(a + b, f) == MapEvents(a, f) + MapEvents(b, f)
  {
    if a == [] {
      assert a + b == b;
    } else {
      MapEventsJoined(a[1..], b, f);
      assert (a + b)[1..] == a[1..] + b;
      Regroup([MapEvent(a[0], f)], MapEvents(a[1..], f), MapEvents(b, f));
    }
  }

  function MapTraced<F, G>(st: Traced<F>, f: F -> G): Traced<G> {
    Traced(st.inner, if st.classifyEos.Some? then Some(MapEos(st.classifyEos.value, f)) else None,
           st.onEos, st.onFailure, st.start)
  }

  lemma MapEnd<F, G>(st: Traced<F>, trailers: Option<HeaderMap>, latency: nat, now: nat, f: F -> G)
    ensures MapEvents(st.End(trailers, latency, now), f) == MapTraced(st, f).End(trailers, latency, now)
  {
    MapEventsJoined(st.Verdict(trailers, latency), st.Eos(trailers, now), f);
  }

  lemma MapFrame<F, G>(st: Traced<F>, now: nat, f: F -> G)
    requires st.inner != [] && st.inner[0].answer.Ready?
    requires st.inner[0].answer.value.Ok? && !st.inner[0].answer.value.value.Trailers?
    ensures PollFrame(MapTraced(st, f), now).1 == MapEvents(PollFrame(st, now).1, f)
  {
    var frame := st.inner[0].answer.value.value;
    var latency := Elapsed(st.start, now);
    var chunk: seq<Event<F>> := if frame.Data? then [OnBodyChunk(frame.bytes, latency)] else [];
    MapEnd(st, None, latency, now, f);
    MapEventsJoined(chunk, st.End(None, latency, now), f);
  }

  lemma MapPollEvents<F, G>(st: Traced<F>, now: nat, f: F -> G)
    ensures PollFrame(MapTraced(st, f), now).1 == MapEvents(PollFrame(st, now).1, f)
  {
    var latency := Elapsed(st.start, now);
    if st.inner == [] {
      MapEnd(st, None, latency, now, f);
    } else if st.inner[0].answer.Ready? && st.inner[0].answer.value.Ok? {
      if st.inner[0].answer.value.value.Trailers? {
        MapEnd(st, Some(st.inner[0].answer.value.value.fields), latency, now, f);
      } else {
        MapFrame(st, now, f);
      }
    }
  }

  lemma MapPoll<F, G>(st: Traced<F>, now: nat, f: F -> G)
    ensures var (answer, events, st1) := PollFrame(st, now);
      PollFrame(MapTraced(st, f), now) == (answer, MapEvents(events, f), MapTraced(st1, f))
  {
    MapPollEvents(st, now, f);
  }

  lemma {:induction false} MapRun<F, G>(st: Traced<F>, times: seq<nat>, f: F -> G)
    ensures RunBody(MapTraced(st, f), times).events == MapEvents(RunBody(st, times).events, f)
    decreases |times|
  {
    if times != [] {
      MapPoll(st, times[0], f);
      var (_, events, st1) := PollFrame(st, times[0]);
      MapRun(st1, times[1..], f);
      MapEventsJoined(events, RunBody(st1, times[1..]).events, f);
    }
  }

  lemma MapRespond<F, G>(
      classifier: Classifier<F>, f: F -> G, result: Result<(Head, Inner), Error>, start: nat, now: nat)
    ensures var (events, body) := Respond(classifier, result, start, now);
      Respond(MapClassifier(classifier, f), result, start, now) ==
      (MapEvents(events, f), if body.Some? then Some(MapTraced(body.value, f)) else None)
  {
    match result
    case Err(e) =>
      assert MapEvents([OnFailure(classifier.error(e), Elapsed(start, now))], f) ==
             [OnFailure(f(classifier.error(e)), Elapsed(start, now))];
    case Ok((head, inner)) =>
      match classifier.response(head)
      case Settled(Some(failure)) =>
        assert MapEvents([OnFailure(failure, Elapsed(start, now))], f) == [OnFailure(f(failure), Elapsed(start, now))];
        MapEventsJoined([OnResponse(Elapsed(start, now))], [OnFailure(failure, Elapsed(start, now))], f);
      case _ =>
        assert MapEvents([OnResponse(Elapsed(start, now))], f) == [OnResponse(Elapsed(start, now))];
  }

  /** Mapping the failure class of a classifier only renames failures: whatever the response and however it is
      polled, the same callbacks fire at the same moments, and a failure is the image of the original one. */
  lemma MappingOnlyRenames<F, G>(
      classifier: Classifier<F>, f: F -> G, result: Result<(Head, Inner), Error>, start: nat, now: nat, times: seq<nat>)
    ensures Lifecycle(MapClassifier(classifier, f), result, start, now, times) ==
            MapEvents(Lifecycle(classifier, result, start, now, times), f)
  {
    MapRespond(classifier, f, result, start, now);
    var (events, body) := Respond(classifier, result, start, now);
    if body.Some? {
      MapRun(body.value, times, f);
      MapEventsJoined(events, RunBody(body.value, times).events, f);
    } else {
      MapEventsJoined(events, [], f);
    }
  }
}
