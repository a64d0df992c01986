/** The outcome of a traced response is a function of the response, not of its consumer. */
module TraceOutcome {
  import opened Http
  import opened BodyStream
  import opened Trace
  import opened TraceRuns

  /** A consumer that polls `n` times and then has a reason to stop: its last poll gave an error or the end,
      or after it `is_end_stream` says that nothing follows. */
  predicate Stops(inner: Inner, n: nat) {
    n > 0 && (n > |inner| || Closes(inner[n - 1]) || (inner[n - 1].answer.Ready? && inner[n - 1].answer.value.Err?))
  }

  lemma {:induction false} StoppingMeetsEnding(inner: Inner, n: nat)
    requires Stops(inner, n)
    ensures MeetsEnding(inner, n)
  {
    if inner == [] || n == 1 {
    } else {
      StoppingMeetsEnding(inner[1..], n - 1);
    }
  }

  /** Any two consumers that poll until they have a reason to stop make the same call succeed or fail, for the
      same reason, whether they stop at `is_end_stream` or poll to the end. */
  lemma OutcomeDoesNotDependOnPolling<F>(
      classifier: Classifier<F>, head: Head, inner: Inner, start: nat, now: nat, some: seq<nat>, others: seq<nat>)
    requires Stops(inner, |some|) && Stops(inner, |others|)
    ensures Failures(Lifecycle(classifier, Ok((head, inner)), start, now, some)) ==
            Failures(Lifecycle(classifier, Ok((head, inner)), start, now, others)) ==
            ToSeq(match classifier.response(head)
                  case Settled(failure) => failure
                  case RequiresEos(classify) => Outcome(classify, EndingOf(inner)))
  {
    StoppingMeetsEnding(inner, |some|);
    StoppingMeetsEnding(inner, |others|);
    LifecycleReports(classifier, Ok((head, inner)), start, now, some);
    LifecycleReports(classifier, Ok((head, inner)), start, now, others);
  }

  /** An error of the body is reported exactly when the classifier waits for the end of the stream. */
  lemma BodyErrorIsReportedIffDeferred<F>(
      classifier: Classifier<F>, head: Head, inner: Inner, e: Error, start: nat, now: nat, times: seq<nat>)
    requires EndingOf(inner) == Broken(e) && MeetsEnding(inner, |times|)
    ensures var body := Respond(classifier, Ok((head, inner)), start, now).1.value;
      Failures(RunBody(body, times).events) ==
      match classifier.response(head)
      case Settled(_) => []
      case RequiresEos(classify) => [classify.error(e)]
  {
    RunReports(Respond(classifier, Ok((head, inner)), start, now).1.value, times);
  }

  /** What a run leaves of the verdict: it is there until the ending has been met. */
  lemma {:induction false} RunKeepsArmed<F>(st: Traced<F>, times: seq<nat>)
    ensures var st' := RunBody(st, times).state;
      && (Armed(st') <==> Armed(st) && !MeetsEnding(st.inner, |times|))
      && (Armed(st') ==> st'.classifyEos == st.classifyEos)
    decreases |times|
  {
    if times != [] {
      PollState(st, times[0]);
      RunKeepsArmed(PollFrame(st, times[0]).2, times[1..]);
    }
  }

  lemma ErrorReports<F>(st: Traced<F>, e: Error, now: nat)
    requires Answer(st.inner) == Ready(Some(Err(e)))
    ensures Failures(PollFrame(st, now).1) == if Armed(st) then [st.classifyEos.value.error(e)] else []
  {
    PollTally(st, now);
  }

  /** After any polls, a poll that answers an error of the body reports it if and only if the body was armed at first
      and neither an error nor the end has been met before. */
  lemma BodyErrorIsReportedIff<F>(st: Traced<F>, before: seq<nat>, e: Error, now: nat)
    requires Answer(RunBody(st, before).state.inner) == Ready(Some(Err(e)))
    ensures Failures(PollFrame(RunBody(st, before).state, now).1) ==
            if Armed(st) && !MeetsEnding(st.inner, |before|) then [st.classifyEos.value.error(e)] else []
  {
    RunKeepsArmed(st, before);
    ErrorReports(RunBody(st, before).state, e, now);
  }

  /** The body of a response is armed if and only if the classifier waits for the end of the stream. */
  lemma ArmedIffDeferred<F>(classifier: Classifier<F>, head: Head, inner: Inner, start: nat, now: nat)
    ensures var (_, body) := Respond(classifier, Ok((head, inner)), start, now);
      && body.Some? && body.value.inner == inner
      && (Armed(body.value) <==> classifier.response(head).RequiresEos?)
      && (Armed(body.value) ==> body.value.classifyEos == Some(classifier.response(head).classify))
  {
  }

  /** Two errors, of which the second is answered and not reported, although the classifier waits. */
  lemma SecondErrorIsSilent<F>(classify: ClassifyEos<F>, e: Error, f: Error, start: nat, one: nat, two: nat)
    ensures var inner := [Turn(Ready(Err(e)), false), Turn(Ready(Err(f)), false)];
      var run := RunBody(Traced(inner, Some(classify), Some(start), true, start), [one, two]);
      && run.answers == [Ready(Some(Err(e))), Ready(Some(Err(f)))]
      && Failures(run.events) == [classify.error(e)]
  {
    var inner: Inner := [Turn(Ready(Err(e)), false), Turn(Ready(Err(f)), false)];
    var st := Traced(inner, Some(classify), Some(start), true, start);
    assert inner[1..] == [Turn(Ready(Err(f)), false)];
    RunReports(st, [one, two]);
    TracingIsTransparent(st, [one, two]);
    assert BareAnswers(inner, 2) == [Answer(inner)] + BareAnswers(inner[1..], 1);
    assert BareAnswers(inner[1..], 1) == [Answer(inner[1..])] + BareAnswers(Rest(inner[1..]), 0);
  }

  /** `on_eos` fires, once, if and only if the consumer polls as far as trailers, a closing frame or the end; it is
      given trailers if and only if trailers come first. */
  lemma EosFiresIff<F>(classifier: Classifier<F>, head: Head, inner: Inner, start: nat, now: nat, times: seq<nat>)
    ensures var ends := Ends(Lifecycle(classifier, Ok((head, inner)), start, now, times));
      && (ends != [] <==> MeetsEos(inner, |times|))
      && (ends != [] ==> ends == [EosOf(inner)])
  {
    LifecycleReports(classifier, Ok((head, inner)), start, now, times);
  }

  /** It needs no trailers frame: an empty body, polled once, has none. */
  lemma EosWithoutTrailers<F>(classifier: Classifier<F>, head: Head, start: nat, now: nat, time: nat)
    ensures Ends(Lifecycle(classifier, Ok((head, [])), start, now, [time])) == [None]
  {
    EosFiresIff(classifier, head, [], start, now, [time]);
  }

  // A body whose `is_end_stream` tells the truth.

  /** The answers of a body without what `is_end_stream` says. */
  function ScriptOf(inner: Inner): Script {
    if inner == [] then [] else [inner[0].answer] + ScriptOf(inner[1..])
  }

  /** When the body says that the stream has ended, nothing follows. */
  predicate Truthful(inner: Inner) {
    inner == [] || ((Closes(inner[0]) ==> Items(ScriptOf(inner[1..])) == []) && Truthful(inner[1..]))
  }

  /** The first item that is not a plain frame decides. */
  function EndingOfItems(items: seq<Item>): Ending {
    if items == [] then Clean(None)
    else match items[0]
      case Err(e) => Broken(e)
      case Ok(Trailers(trailers)) => Clean(Some(trailers))
      case Ok(_) => EndingOfItems(items[1..])
  }

  lemma ItemsStep(inner: Inner)
    requires inner != []
    ensures Items(ScriptOf(inner)) ==
            (if inner[0].answer.Ready? then [inner[0].answer.value] else []) + Items(ScriptOf(inner[1..]))
  {
    assert ScriptOf(inner)[1..] == ScriptOf(inner[1..]);
  }

  /** For a truthful body the ending is that of its items: neither the schedule of pending polls nor the moments
      at which `is_end_stream` turns true make a difference. */
  lemma {:induction false} EndingIsOfTheItems(inner: Inner)
    requires Truthful(inner)
    ensures EndingOf(inner) == EndingOfItems(Items(ScriptOf(inner)))
    decreases |inner|
  {
    if inner != [] {
      EndingIsOfTheItems(inner[1..]);
      ItemsStep(inner);
      var items, rest := Items(ScriptOf(inner)), Items(ScriptOf(inner[1..]));
      if inner[0].answer.Ready? {
        assert items[0] == inner[0].answer.value && items[1..] == rest;
      } else {
        assert items == rest;
      }
    }
  }

  /** Two deliveries of the same items, each read by a consumer that stops for a reason, have one outcome. */
  lemma OutcomeIsOfTheItems<F>(
      classifier: Classifier<F>, head: Head, a: Inner, b: Inner, start: nat, now: nat, some: seq<nat>, others: seq<nat>)
    requires Truthful(a) && Truthful(b) && Items(ScriptOf(a)) == Items(ScriptOf(b))
    requires Stops(a, |some|) && Stops(b, |others|)
    ensures Failures(Lifecycle(classifier, Ok((head, a)), start, now, some)) ==
            Failures(Lifecycle(classifier, Ok((head, b)), start, now, others))
  {
    EndingIsOfTheItems(a);
    EndingIsOfTheItems(b);
    OutcomeDoesNotDependOnPolling(classifier, head, a, start, now, some, some);
    OutcomeDoesNotDependOnPolling(classifier, head, b, start, now, others, others);
  }

  // Latencies.

  function ChunkLatency<F>(event: Event<F>): seq<nat> {
    if event.OnBodyChunk? then [event.latency] else []
  }

  function Sum(xs: seq<nat>): nat {
    if xs == [] then 0 else xs[0] + Sum(xs[1..])
  }

  /** The next poll gives a data chunk. */
  predicate IsChunk(inner: Inner) {
    inner != [] && inner[0].answer.Ready? && inner[0].answer.value.Ok? && inner[0].answer.value.value.Data?
  }

  predicate NoChunks(inner: Inner) {
    inner == [] || (!IsChunk(inner) && NoChunks(inner[1..]))
  }

  /** Data comes first: after any other answer, pending ones aside, there is none. */
  predicate ChunksFirst(inner: Inner) {
    inner == [] || if IsChunk(inner) || inner[0].answer.Pending? then ChunksFirst(inner[1..]) else NoChunks(inner[1..])
  }

  /** The time of the last poll that gave a chunk, or `since`. */
  function LastChunk(inner: Inner, since: nat, times: seq<nat>): nat
    decreases |times|
  {
    if times == [] then since else LastChunk(Rest(inner), if IsChunk(inner) then times[0] else since, times[1..])
  }

  lemma EndHasNoChunks<F>(st: Traced<F>, trailers: Option<HeaderMap>, latency: nat, now: nat)
    ensures Select(st.End(trailers, latency, now), ChunkLatency) == []
  {
    var verdict, eos := st.Verdict(trailers, latency), st.Eos(trailers, now);
    SelectJoined(verdict, eos, ChunkLatency);
    if verdict != [] {
      SelectOne(verdict[0], ChunkLatency);
    }
    if eos != [] {
      SelectOne(eos[0], ChunkLatency);
    }
  }

  lemma ChunkReports<F>(st: Traced<F>, now: nat)
    requires IsChunk(st.inner)
    ensures var (_, events, st1) := PollFrame(st, now);
      st1.start == now && Select(events, ChunkLatency) == [Elapsed(st.start, now)]
  {
    var latency := Elapsed(st.start, now);
    var chunk: Event<F> := OnBodyChunk(st.inner[0].answer.value.value.bytes, latency);
    SelectOne(chunk, ChunkLatency);
    EndHasNoChunks(st, None, latency, now);
    SelectJoined([chunk], st.End(None, latency, now), ChunkLatency);
  }

  lemma OthersReportNoChunk<F>(st: Traced<F>, now: nat)
    requires !IsChunk(st.inner)
    ensures Select(PollFrame(st, now).1, ChunkLatency) == []
    ensures st.inner != [] && st.inner[0].answer.Pending? ==> PollFrame(st, now).2.start == st.start
  {
    var latency := Elapsed(st.start, now);
    EndHasNoChunks(st, None, latency, now);
    if st.inner != [] && st.inner[0].answer.Ready? {
      var item := st.inner[0].answer.value;
      if item.Err? && Armed(st) {
        SelectOne(PollFrame(st, now).1[0], ChunkLatency);
      } else if item.Ok? && item.value.Trailers? {
        EndHasNoChunks(st, Some(item.value.fields), latency, now);
      } else if item.Ok? {
        assert [] + st.End(None, latency, now) == st.End(None, latency, now);
      }
    }
  }

  lemma {:induction false} NoChunksReported<F>(st: Traced<F>, since: nat, times: seq<nat>)
    requires NoChunks(st.inner)
    ensures Select(RunBody(st, times).events, ChunkLatency) == [] && LastChunk(st.inner, since, times) == since
    decreases |times|
  {
    if times != [] {
      var (_, events, st1) := PollFrame(st, times[0]);
      PollState(st, times[0]);
      OthersReportNoChunk(st, times[0]);
      NoChunksReported(st1, since, times[1..]);
      SelectJoined(events, RunBody(st1, times[1..]).events, ChunkLatency);
    }
  }

  lemma FirstLatency(first: seq<nat>, rest: seq<nat>)
    requires |first| <= 1
    ensures Sum(first + rest) == (if first == [] then 0 else first[0]) + Sum(rest)
  {
    if first == [] {
      assert first + rest == rest;
    } else {
      assert (first + rest)[1..] == rest;
    }
  }

  /** What the first poll of a run adds. */
  lemma FirstPollAdds<F>(st: Traced<F>, times: seq<nat>)
    requires times != []
    ensures var st1 := PollFrame(st, times[0]).2;
      && st1.inner == Rest(st.inner)
      && (IsChunk(st.inner) ==> st1.start == times[0])
      && (st.inner != [] && st.inner[0].answer.Pending? ==> st1.start == st.start)
      && Sum(Select(RunBody(st, times).events, ChunkLatency)) ==
         (if IsChunk(st.inner) then Elapsed(st.start, times[0]) else 0)
         + Sum(Select(RunBody(st1, times[1..]).events, ChunkLatency))
  {
    var (_, events, st1) := PollFrame(st, times[0]);
    PollState(st, times[0]);
    SelectJoined(events, RunBody(st1, times[1..]).events, ChunkLatency);
    if IsChunk(st.inner) {
      ChunkReports(st, times[0]);
    } else {
      OthersReportNoChunk(st, times[0]);
    }
    FirstLatency(Select(events, ChunkLatency), Select(RunBody(st1, times[1..]).events, ChunkLatency));
  }

  /** The latencies that chunks are reported with add up: over any run they are the time from the request to the last
      chunk, none of it counted twice and none of it missing, whatever comes after the data. */
  lemma {:induction false} ChunkLatenciesAddUp<F>(st: Traced<F>, times: seq<nat>)
    requires NonDecreasing(times) && (times != [] ==> st.start <= times[0]) && ChunksFirst(st.inner)
    ensures st.start <= LastChunk(st.inner, st.start, times)
    ensures Sum(Select(RunBody(st, times).events, ChunkLatency)) == LastChunk(st.inner, st.start, times) - st.start
    decreases |times|
  {
    if times != [] {
      var st1 := PollFrame(st, times[0]).2;
      FirstPollAdds(st, times);
      if IsChunk(st.inner) || (st.inner != [] && st.inner[0].answer.Pending?) {
        ChunkLatenciesAddUp(st1, times[1..]);
      } else {
        NoChunksReported(st1, st.start, times[1..]);
      }
    }
  }
}
