/** What a traced response fires over any polling run. */
module TraceRuns {
  import opened Http
  import opened BodyStream
  import opened Trace

  datatype Run<!F> = Run(answers: seq<Poll<Option<Item>>>, events: seq<Event<F>>, state: Traced<F>)

  /** Poll a body at each of the given times. */
  function RunBody<F>(st: Traced<F>, times: seq<nat>): (run: Run<F>)
    ensures |run.answers| == |times|
    decreases |times|
  {
    if times == [] then Run([], [], st)
    else
      var (answer, events, st1) := PollFrame(st, times[0]);
      var rest := RunBody(st1, times[1..]);
      Run([answer] + rest.answers, events + rest.events, rest.state)
  }

  /** A whole call: the response arrives at `now`, then the body, if any, is polled at each of the times. */
  function Lifecycle<F>(classifier: Classifier<F>, result: Result<(Head, Inner), Error>, start: nat, now: nat, times: seq<nat>)
    : seq<Event<F>>
  {
    var (events, body) := Respond(classifier, result, start, now);
    events + (if body.Some? then RunBody(body.value, times).events else [])
  }

  function OfFailure<F>(event: Event<F>): seq<F> {
    if event.OnFailure? then [event.failure] else []
  }

  function OfEos<F>(event: Event<F>): seq<Option<HeaderMap>> {
    if event.OnEos? then [event.trailers] else []
  }

  function OfChunk<F>(event: Event<F>): seq<Bytes> {
    if event.OnBodyChunk? then [event.chunk] else []
  }

  function OfResponse<F>(event: Event<F>): seq<nat> {
    if event.OnResponse? then [event.latency] else []
  }

  /** The failures reported, in order. */
  function Failures<F>(events: seq<Event<F>>): seq<F> {
    Select(events, OfFailure)
  }

  /** The ends of stream reported, in order. */
  function Ends<F>(events: seq<Event<F>>): seq<Option<HeaderMap>> {
    Select(events, OfEos)
  }

  /** The chunks reported, in order. */
  function Chunks<F>(events: seq<Event<F>>): seq<Bytes> {
    Select(events, OfChunk)
  }

  /** The responses reported. */
  function Responses<F>(events: seq<Event<F>>): seq<nat> {
    Select(events, OfResponse)
  }

  /** Everything in a log, by kind. */
  datatype Tally<F> = Tally(failures: seq<F>, ends: seq<Option<HeaderMap>>, chunks: seq<Bytes>, responses: seq<nat>) {
    function Plus(other: Tally<F>): Tally<F> {
      Tally(failures + other.failures, ends + other.ends, chunks + other.chunks, responses + other.responses)
    }
  }

  function TallyOf<F>(events: seq<Event<F>>): Tally<F> {
    Tally(Failures(events), Ends(events), Chunks(events), Responses(events))
  }

  lemma TallyJoined<F>(a: seq<Event<F>>, b: seq<Event<F>>)
    ensures TallyOf(a + b) == TallyOf(a).Plus(TallyOf(b))
  {
    SelectJoined(a, b, OfFailure);
    SelectJoined(a, b, OfEos);
    SelectJoined(a, b, OfChunk);
    SelectJoined(a, b, OfResponse);
  }

  lemma TallyOne<F>(event: Event<F>)
    ensures TallyOf([event]) == Tally(OfFailure(event), OfEos(event), OfChunk(event), OfResponse(event))
    ensures TallyOf<F>([]) == Tally([], [], [], [])
  {
    SelectOne(event, OfFailure);
    SelectOne(event, OfEos);
    SelectOne(event, OfChunk);
    SelectOne(event, OfResponse);
  }

  function ToSeq<T>(o: Option<T>): seq<T> {
    if o.Some? then [o.value] else []
  }

  // What the response itself says.

  /** How a body ends: with an error, or cleanly with trailers or without. */
  datatype Ending = Broken(error: Error) | Clean(trailers: Option<HeaderMap>)

  /** A frame after which the inner body says that the stream has ended. */
  predicate Closes(turn: Turn) {
    turn.answer.Ready? && turn.answer.value.Ok? && turn.endStream
  }

  /** The first of: an error, trailers, a frame that closes the stream, the end. */
  function EndingOf(inner: Inner): Ending {
    if inner == [] then Clean(None)
    else match inner[0].answer
      case Ready(Err(e)) => Broken(e)
      case Ready(Ok(Trailers(trailers))) => Clean(Some(trailers))
      case _ => if Closes(inner[0]) then Clean(None) else EndingOf(inner[1..])
  }

  /** The same, passing over errors. */
  function EosOf(inner: Inner): Option<HeaderMap> {
    if inner == [] then None
    else match inner[0].answer
      case Ready(Ok(Trailers(trailers))) => Some(trailers)
      case _ => if Closes(inner[0]) then None else EosOf(inner[1..])
  }

  function Outcome<F>(classify: ClassifyEos<F>, ending: Ending): Option<F> {
    match ending
    case Broken(e) => Some(classify.error(e))
    case Clean(trailers) => classify.eos(trailers)
  }

  // How far a consumer has to poll.

  /** The next poll meets the end of the stream: trailers, a closing frame or the end itself. */
  predicate AtEos(inner: Inner) {
    inner == [] || Closes(inner[0])
    || (inner[0].answer.Ready? && inner[0].answer.value.Ok? && inner[0].answer.value.value.Trailers?)
  }

  /** The next poll meets an error or the end of the stream. */
  predicate AtEnding(inner: Inner) {
    AtEos(inner) || (inner[0].answer.Ready? && inner[0].answer.value.Err?)
  }

  function Rest(inner: Inner): Inner {
    if inner == [] then [] else inner[1..]
  }

  /** Polling `n` times meets the end of the stream. */
  predicate MeetsEos(inner: Inner, n: nat) {
    n > 0 && (AtEos(inner) || MeetsEos(Rest(inner), n - 1))
  }

  /** Polling `n` times meets an error or the end of the stream. */
  predicate MeetsEnding(inner: Inner, n: nat) {
    n > 0 && (AtEnding(inner) || MeetsEnding(Rest(inner), n - 1))
  }

  /** The answer of the inner body to the next poll. */
  function Answer(inner: Inner): Poll<Option<Item>> {
    if inner == [] then Ready(None)
    else match inner[0].answer
      case Pending => Pending
      case Ready(item) => Ready(Some(item))
  }

  function BareAnswers(inner: Inner, n: nat): seq<Poll<Option<Item>>> {
    if n == 0 then [] else [Answer(inner)] + BareAnswers(Rest(inner), n - 1)
  }

  lemma AnswersOnce<F>(st: Traced<F>, now: nat)
    ensures PollFrame(st, now).0 == Answer(st.inner) && PollFrame(st, now).2.inner == Rest(st.inner)
  {
  }

  /** Tracing is transparent: whatever the callbacks, the consumer sees the answers of the inner body. */
  lemma {:induction false} TracingIsTransparent<F>(st: Traced<F>, times: seq<nat>)
    ensures RunBody(st, times).answers == BareAnswers(st.inner, |times|)
    decreases |times|
  {
    if times != [] {
      AnswersOnce(st, times[0]);
      TracingIsTransparent(PollFrame(st, times[0]).2, times[1..]);
    }
  }

  /** The data of an answer. */
  function OfAnswer(answer: Poll<Option<Item>>): seq<Bytes> {
    match answer
    case Ready(Some(Ok(Data(bytes)))) => [bytes]
    case _ => []
  }

  predicate Armed<F>(st: Traced<F>) {
    st.classifyEos.Some? && st.onFailure
  }

  lemma VerdictTally<F>(st: Traced<F>, trailers: Option<HeaderMap>, latency: nat)
    ensures TallyOf(st.Verdict(trailers, latency)) ==
            Tally(if Armed(st) then ToSeq(st.classifyEos.value.eos(trailers)) else [], [], [], [])
  {
    if st.Verdict(trailers, latency) != [] {
      TallyOne(st.Verdict(trailers, latency)[0]);
    }
  }

  lemma EosTally<F>(st: Traced<F>, trailers: Option<HeaderMap>, now: nat)
    ensures TallyOf(st.Eos(trailers, now)) == Tally([], if st.onEos.Some? then [trailers] else [], [], [])
  {
    if st.onEos.Some? {
      TallyOne(st.Eos(trailers, now)[0]);
    }
  }

  /** What the end of the stream fires, by kind. */
  lemma EndTally<F>(st: Traced<F>, trailers: Option<HeaderMap>, latency: nat, now: nat)
    ensures TallyOf(st.End(trailers, latency, now)) ==
            Tally(if Armed(st) then ToSeq(st.classifyEos.value.eos(trailers)) else [],
                  if st.onEos.Some? then [trailers] else [], [], [])
  {
    TallyJoined(st.Verdict(trailers, latency), st.Eos(trailers, now));
    VerdictTally(st, trailers, latency);
    EosTally(st, trailers, now);
  }

  /** What one poll reports. */
  function Reported<F>(st: Traced<F>): Tally<F> {
    Tally(
      if AtEnding(st.inner) && Armed(st) then ToSeq(Outcome(st.classifyEos.value, EndingOf(st.inner))) else [],
      if AtEos(st.inner) && st.onEos.Some? then [EosOf(st.inner)] else [],
      OfAnswer(Answer(st.inner)),
      [])
  }

  /** A frame that is neither trailers nor an error. */
  lemma FrameTally<F>(st: Traced<F>, now: nat)
    requires st.inner != [] && st.inner[0].answer.Ready?
    requires st.inner[0].answer.value.Ok? && !st.inner[0].answer.value.value.Trailers?
    ensures TallyOf(PollFrame(st, now).1) == Reported(st)
  {
    var frame := st.inner[0].answer.value.value;
    var latency := Elapsed(st.start, now);
    var chunk: seq<Event<F>> := if frame.Data? then [OnBodyChunk(frame.bytes, latency)] else [];
    TallyOne<F>(if frame.Data? then chunk[0] else OnResponse(0));
    EndTally(st, None, latency, now);
    TallyJoined(chunk, st.End(None, latency, now));
  }

  lemma ErrorTally<F>(st: Traced<F>, now: nat)
    requires st.inner != [] && st.inner[0].answer.Ready? && st.inner[0].answer.value.Err?
    ensures TallyOf(PollFrame(st, now).1) == Reported(st)
  {
    if Armed(st) {
      TallyOne(OnFailure(st.classifyEos.value.error(st.inner[0].answer.value.error), Elapsed(st.start, now)));
    }
  }

  lemma TrailersTally<F>(st: Traced<F>, now: nat)
    requires st.inner != [] && st.inner[0].answer.Ready?
    requires st.inner[0].answer.value.Ok? && st.inner[0].answer.value.value.Trailers?
    ensures TallyOf(PollFrame(st, now).1) == Reported(st)
  {
    EndTally(st, Some(st.inner[0].answer.value.value.fields), Elapsed(st.start, now), now);
  }

  lemma SilenceTally<F>(st: Traced<F>, now: nat)
    requires st.inner == [] || st.inner[0].answer.Pending?
    ensures TallyOf(PollFrame(st, now).1) == Reported(st)
  {
    EndTally(st, None, Elapsed(st.start, now), now);
  }

  lemma PollTally<F>(st: Traced<F>, now: nat)
    ensures TallyOf(PollFrame(st, now).1) == Reported(st)
  {
    if st.inner == [] || st.inner[0].answer.Pending? {
      SilenceTally(st, now);
    } else if st.inner[0].answer.value.Err? {
      ErrorTally(st, now);
    } else if st.inner[0].answer.value.value.Trailers? {
      TrailersTally(st, now);
    } else {
      FrameTally(st, now);
    }
  }

  lemma PollState<F>(st: Traced<F>, now: nat)
    ensures var (answer, _, st1) := PollFrame(st, now);
      && answer == Answer(st.inner)
      && st1.inner == Rest(st.inner)
      && st1.onEos == (if AtEos(st.inner) then None else st.onEos)
      && (AtEnding(st.inner) ==> !Armed(st1))
      && (!AtEnding(st.inner) ==> st1.classifyEos == st.classifyEos && st1.onFailure == st.onFailure)
  {
  }

  lemma EndingStep(inner: Inner)
    ensures !AtEnding(inner) ==> EndingOf(inner) == EndingOf(Rest(inner))
    ensures !AtEos(inner) ==> EosOf(inner) == EosOf(Rest(inner))
  {
  }

  /** What `n` polls of a traced body report. */
  function Report<F>(st: Traced<F>, n: nat): Tally<F> {
    Tally(
      if MeetsEnding(st.inner, n) && Armed(st) then ToSeq(Outcome(st.classifyEos.value, EndingOf(st.inner))) else [],
      if MeetsEos(st.inner, n) && st.onEos.Some? then [EosOf(st.inner)] else [],
      Select(BareAnswers(st.inner, n), OfAnswer),
      [])
  }

  lemma ReportStep<F>(st: Traced<F>, now: nat, n: nat)
    requires n > 0
    ensures Reported(st).Plus(Report(PollFrame(st, now).2, n - 1)) == Report(st, n)
  {
    PollState(st, now);
    EndingStep(st.inner);
    assert BareAnswers(st.inner, n)[0] == Answer(st.inner);
    assert BareAnswers(st.inner, n)[1..] == BareAnswers(Rest(st.inner), n - 1);
  }

  lemma RunSplits<F>(st: Traced<F>, times: seq<nat>)
    requires times != []
    ensures var (_, events, st1) := PollFrame(st, times[0]);
      TallyOf(RunBody(st, times).events) == TallyOf(events).Plus(TallyOf(RunBody(st1, times[1..]).events))
  {
    var (_, events, st1) := PollFrame(st, times[0]);
    TallyJoined(events, RunBody(st1, times[1..]).events);
  }

  lemma NothingReported<F>(st: Traced<F>)
    ensures TallyOf(RunBody(st, []).events) == Report(st, 0)
  {
  }

  /** Over any polling run: one `on_body_chunk` for each data frame, in order; `on_eos` once the end of the
      stream is met, and then once; `on_failure` at most once, and what it is given depends on the response
      and not on how it is polled. */
  lemma {:induction false} RunReports<F>(st: Traced<F>, times: seq<nat>)
    ensures TallyOf(RunBody(st, times).events) == Report(st, |times|)
    decreases |times|
  {
    if times == [] {
      NothingReported(st);
    } else {
      RunReports(PollFrame(st, times[0]).2, times[1..]);
      RunSplits(st, times);
      PollTally(st, times[0]);
      ReportStep(st, times[0], |times|);
    }
  }

  /** The failure a whole call reports, if any. */
  function Blame<F>(classifier: Classifier<F>, result: Result<(Head, Inner), Error>, polls: nat): Option<F> {
    match result
    case Err(e) => Some(classifier.error(e))
    case Ok((head, inner)) =>
      match classifier.response(head)
      case Settled(failure) => failure
      case RequiresEos(classify) =>
        if MeetsEnding(inner, polls) then Outcome(classify, EndingOf(inner)) else None
  }

  lemma RespondTally<F>(classifier: Classifier<F>, result: Result<(Head, Inner), Error>, start: nat, now: nat)
    ensures TallyOf(Respond(classifier, result, start, now).0) ==
            Tally(match result
                  case Err(e) => [classifier.error(e)]
                  case Ok((head, _)) =>
                    match classifier.response(head)
                    case Settled(failure) => ToSeq(failure)
                    case RequiresEos(_) => [],
                  [], [], if result.Ok? then [Elapsed(start, now)] else [])
  {
    var latency := Elapsed(start, now);
    match result
    case Err(e) => TallyOne(OnFailure(classifier.error(e), latency));
    case Ok((head, inner)) =>
      TallyOne<F>(OnResponse(latency));
      match classifier.response(head)
      case Settled(Some(failure)) =>
        TallyOne(OnFailure(failure, latency));
        TallyJoined([OnResponse(latency)], [OnFailure(failure, latency)]);
      case Settled(None) =>
        assert Respond(classifier, result, start, now).0 == [OnResponse(latency)];
      case RequiresEos(_) =>
  }

  /** What a whole call reports when the body is polled `polls` times. */
  function Story<F>(classifier: Classifier<F>, result: Result<(Head, Inner), Error>, latency: nat, polls: nat): Tally<F> {
    match result
    case Err(e) => Tally([classifier.error(e)], [], [], [])
    case Ok((_, inner)) =>
      Tally(
        ToSeq(Blame(classifier, result, polls)),
        if MeetsEos(inner, polls) then [EosOf(inner)] else [],
        Select(BareAnswers(inner, polls), OfAnswer),
        [latency])
  }

  /** The callbacks of a whole call, future and body together: `on_response` exactly when there is a response,
      `on_failure` at most once, `on_eos` at most once, and every argument a function of the response. */
  lemma LifecycleReports<F>(classifier: Classifier<F>, result: Result<(Head, Inner), Error>, start: nat, now: nat, times: seq<nat>)
    ensures TallyOf(Lifecycle(classifier, result, start, now, times)) ==
            Story(classifier, result, Elapsed(start, now), |times|)
  {
    var (events, body) := Respond(classifier, result, start, now);
    RespondTally(classifier, result, start, now);
    if body.None? {
      assert events + [] == events;
    } else {
      RunReports(body.value, times);
      TallyJoined(events, RunBody(body.value, times).events);
    }
  }

  /** Whatever the response and however its body is polled, no callback that should fire once fires twice. */
  lemma AtMostOnce<F>(classifier: Classifier<F>, result: Result<(Head, Inner), Error>, start: nat, now: nat, times: seq<nat>)
    ensures var all := Lifecycle(classifier, result, start, now, times);
      && |Failures(all)| <= 1 && |Ends(all)| <= 1
      && |Responses(all)| == (if result.Ok? then 1 else 0)
  {
    LifecycleReports(classifier, result, start, now, times);
  }
}
