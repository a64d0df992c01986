/** The log of a traced call, poll by poll, with every time in it. */
module TraceLog {
  import opened Http
  import opened BodyStream
  import opened Trace
  import opened TraceRuns
  import opened TraceOutcome

  /** What is left of a body after `k` polls. */
  function After(inner: Inner, k: nat): Inner {
    if k <= |inner| then inner[k..] else []
  }

  /** The time of the last poll before poll `k` that was answered, or `since`. */
  function LastAnswered(inner: Inner, since: nat, times: seq<nat>, k: nat): nat
    requires k <= |times|
  {
    if k == 0 then since
    else if k <= |inner| && inner[k - 1].answer.Pending? then LastAnswered(inner, since, times, k - 1)
    else times[k - 1]
  }

  /** A data frame is reported when it is handed out. */
  function ChunkAt<F>(inner: Inner, k: nat, latency: nat): seq<Event<F>> {
    if k < |inner| && inner[k].answer.Ready? && inner[k].answer.value.Ok? && inner[k].answer.value.value.Data? then
      [OnBodyChunk(inner[k].answer.value.value.bytes, latency)]
    else []
  }

  /** A failure is reported by the first poll that meets an error or the end of the stream, if the classifier
      waits for it. */
  function FailureAt<F>(inner: Inner, classify: Option<ClassifyEos<F>>, k: nat, latency: nat): seq<Event<F>> {
    if classify.Some? && MeetsEnding(inner, k + 1) && !MeetsEnding(inner, k)
       && Outcome(classify.value, EndingOf(inner)).Some? then
      [OnFailure(Outcome(classify.value, EndingOf(inner)).value, latency)]
    else []
  }

  /** The end is reported by the first poll that meets it, with the time since the response arrived. */
  function EndAt<F>(inner: Inner, arrived: nat, k: nat, time: nat): seq<Event<F>> {
    if MeetsEos(inner, k + 1) && !MeetsEos(inner, k) then [OnEos(EosOf(inner), Elapsed(arrived, time))] else []
  }

  /** What poll `k` adds to the log: a chunk, then a failure, then the end. */
  function PollLog<F>(inner: Inner, classify: Option<ClassifyEos<F>>, start: nat, arrived: nat, times: seq<nat>, k: nat)
    : seq<Event<F>>
    requires k < |times|
  {
    var latency := Elapsed(LastAnswered(inner, start, times, k), times[k]);
    ChunkAt(inner, k, latency) + (FailureAt(inner, classify, k, latency) + EndAt(inner, arrived, k, times[k]))
  }

  // ---------------------------------------------------------------- one more poll

  lemma {:induction false} RunSnoc<F>(st: Traced<F>, times: seq<nat>, time: nat)
    ensures var run := RunBody(st, times); var (answer, events, st1) := PollFrame(run.state, time);
      RunBody(st, times + [time]) == Run(run.answers + [answer], run.events + events, st1)
    decreases |times|
  {
    if times == [] {
      assert [] + [time] == [time] && [time][1..] == [];
      var (answer, events, st1) := PollFrame(st, time);
      assert RunBody(st, [time]) == Run([answer] + [], events + [], st1);
    } else {
      assert (times + [time])[1..] == times[1..] + [time];
      var (answer, events, st1) := PollFrame(st, times[0]);
      RunSnoc(st1, times[1..], time);
      var rest := RunBody(st1, times[1..]);
      var (last, more, _) := PollFrame(rest.state, time);
      Regroup([answer], rest.answers, [last]);
      Regroup(events, rest.events, more);
    }
  }

  lemma {:induction false} MeetsOneMore(inner: Inner, k: nat)
    ensures MeetsEos(inner, k + 1) <==> MeetsEos(inner, k) || AtEos(After(inner, k))
    ensures MeetsEnding(inner, k + 1) <==> MeetsEnding(inner, k) || AtEnding(After(inner, k))
    ensures !MeetsEos(inner, k) ==> EosOf(inner) == EosOf(After(inner, k))
    ensures !MeetsEnding(inner, k) ==> EndingOf(inner) == EndingOf(After(inner, k))
    decreases k
  {
    if k == 0 {
      assert After(inner, 0) == inner;
    } else {
      MeetsOneMore(Rest(inner), k - 1);
      assert After(Rest(inner), k - 1) == After(inner, k);
      EndingStep(inner);
    }
  }

  /** A traced body as its response leaves it. */
  predicate Started<F>(st: Traced<F>, arrived: nat) {
    st.onFailure && st.onEos == Some(arrived)
  }

  /** The state after `k` polls: what is left, when the last answer was, and what has not been reported. */
  lemma {:induction false} StateAfter<F>(st: Traced<F>, arrived: nat, times: seq<nat>, k: nat)
    requires Started(st, arrived) && k <= |times|
    ensures var st' := RunBody(st, times[..k]).state;
      && st'.inner == After(st.inner, k)
      && st'.start == LastAnswered(st.inner, st.start, times, k)
      && st'.onEos == (if MeetsEos(st.inner, k) then None else Some(arrived))
      && (Armed(st') <==> st.classifyEos.Some? && !MeetsEnding(st.inner, k))
      && (Armed(st') ==> st'.classifyEos == st.classifyEos)
  {
    if k == 0 {
      assert After(st.inner, 0) == st.inner;
    } else {
      StateAfter(st, arrived, times, k - 1);
      assert times[..k] == times[..k - 1] + [times[k - 1]];
      RunSnoc(st, times[..k - 1], times[k - 1]);
      var st1 := RunBody(st, times[..k - 1]).state;
      PollState(st1, times[k - 1]);
      StartAfter(st1, times[k - 1]);
      assert Rest(st1.inner) == After(st.inner, k);
      assert k <= |st.inner| ==> st1.inner[0] == st.inner[k - 1];
      MeetsOneMore(st.inner, k - 1);
    }
  }

  lemma StartAfter<F>(st: Traced<F>, now: nat)
    ensures PollFrame(st, now).2.start == if st.inner != [] && st.inner[0].answer.Pending? then st.start else now
  {
  }

  /** The events of one poll, from its state. */
  lemma PollEvents<F>(st: Traced<F>, now: nat)
    ensures var latency := Elapsed(st.start, now);
      PollFrame(st, now).1 ==
      ChunkAt(st.inner, 0, latency)
      + ((if AtEnding(st.inner) && Armed(st) && Outcome(st.classifyEos.value, EndingOf(st.inner)).Some? then
            [OnFailure(Outcome(st.classifyEos.value, EndingOf(st.inner)).value, latency)] else [])
         + (if AtEos(st.inner) && st.onEos.Some? then [OnEos(EosOf(st.inner), Elapsed(st.onEos.value, now))] else []))
  {
  }

  /** One more poll adds to the log of a body what `PollLog` says. */
  lemma BodyLog<F>(st: Traced<F>, arrived: nat, times: seq<nat>, k: nat)
    requires Started(st, arrived) && k < |times|
    ensures RunBody(st, times[..k + 1]).events ==
            RunBody(st, times[..k]).events + PollLog(st.inner, st.classifyEos, st.start, arrived, times, k)
  {
    assert times[..k + 1] == times[..k] + [times[k]];
    RunSnoc(st, times[..k], times[k]);
    StateAfter(st, arrived, times, k);
    MeetsOneMore(st.inner, k);
    var st1 := RunBody(st, times[..k]).state;
    PollEvents(st1, times[k]);
    assert k < |st.inner| ==> st1.inner[0] == st.inner[k];
  }

  // ---------------------------------------------------------------- whole calls

  /** What is reported when the response arrives, or fails to. */
  function ArrivalLog<F>(classifier: Classifier<F>, result: Result<(Head, Inner), Error>, latency: nat): seq<Event<F>> {
    match result
    case Err(e) => [OnFailure(classifier.error(e), latency)]
    case Ok((head, _)) =>
      match classifier.response(head)
      case Settled(Some(failure)) => [OnResponse(latency), OnFailure(failure, latency)]
      case _ => [OnResponse(latency)]
  }

  function Waits<F>(classifier: Classifier<F>, head: Head): Option<ClassifyEos<F>> {
    match classifier.response(head)
    case Settled(_) => None
    case RequiresEos(classify) => Some(classify)
  }

  /** The log of a call when the response arrives. */
  lemma LogStarts<F>(classifier: Classifier<F>, result: Result<(Head, Inner), Error>, start: nat, now: nat, times: seq<nat>)
    ensures Lifecycle(classifier, result, start, now, times[..0]) == ArrivalLog(classifier, result, Elapsed(start, now))
  {
    assert times[..0] == [];
  }

  /** The whole log of a call, in order and with all times: each poll of the body adds its chunk, then a failure, then
      the end. Chunks and failures carry the time since the last poll that was answered, or since the request if
      there was none; the end carries the time since the response arrived. */
  lemma LogGrows<F>(classifier: Classifier<F>, head: Head, inner: Inner, start: nat, now: nat, times: seq<nat>, k: nat)
    requires k < |times|
    ensures Lifecycle(classifier, Ok((head, inner)), start, now, times[..k + 1]) ==
            Lifecycle(classifier, Ok((head, inner)), start, now, times[..k])
            + PollLog(inner, Waits(classifier, head), start, now, times, k)
  {
    var (events, body) := Respond(classifier, Ok((head, inner)), start, now);
    BodyLog(body.value, now, times, k);
    Regroup(events, RunBody(body.value, times[..k]).events, PollLog(inner, Waits(classifier, head), start, now, times, k));
  }

  /** A call whose response fails to arrive reports that and nothing else. */
  lemma FailedCallLog<F>(classifier: Classifier<F>, e: Error, start: nat, now: nat, times: seq<nat>)
    ensures Lifecycle(classifier, Err(e), start, now, times) == [OnFailure(classifier.error(e), Elapsed(start, now))]
  {
  }

  /** Logs, one after the other. */
  function Logs<F>(logs: seq<seq<Event<F>>>): seq<Event<F>> {
    if logs == [] then [] else Logs(logs[..|logs| - 1]) + logs[|logs| - 1]
  }

  lemma {:induction false} LogsAddUp<F>(whole: seq<seq<Event<F>>>, logs: seq<seq<Event<F>>>)
    requires |whole| == |logs| + 1
    requires forall k :: 0 <= k < |logs| ==> whole[k + 1] == whole[k] + logs[k]
    ensures whole[|logs|] == whole[0] + Logs(logs)
  {
    if logs == [] {
      assert whole[0] + [] == whole[0];
    } else {
      var n := |logs| - 1;
      LogsAddUp(whole[..n + 1], logs[..n]);
      assert whole[n + 1] == whole[n] + logs[n];
      Regroup(whole[0], Logs(logs[..n]), logs[n]);
    }
  }

  /** So the log of a call is its arrival and then poll after poll. */
  lemma CallLog<F>(classifier: Classifier<F>, head: Head, inner: Inner, start: nat, now: nat, times: seq<nat>)
    ensures Lifecycle(classifier, Ok((head, inner)), start, now, times) ==
            ArrivalLog(classifier, Ok((head, inner)), Elapsed(start, now))
            + Logs(seq(|times|, k requires 0 <= k < |times| => PollLog(inner, Waits(classifier, head), start, now, times, k)))
  {
    var logs := seq(|times|, k requires 0 <= k < |times| => PollLog(inner, Waits(classifier, head), start, now, times, k));
    var whole := seq(|times| + 1, k requires 0 <= k <= |times| => Lifecycle(classifier, Ok((head, inner)), start, now, times[..k]));
    forall k | 0 <= k < |logs|
      ensures whole[k + 1] == whole[k] + logs[k]
    {
      LogGrows(classifier, head, inner, start, now, times, k);
    }
    LogsAddUp(whole, logs);
    LogStarts(classifier, Ok((head, inner)), start, now, times);
    assert times[..|times|] == times;
  }
}
