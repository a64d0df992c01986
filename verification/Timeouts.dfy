/** `TimeoutBody`, whose timer is re-armed by every frame, and `DeadlineBody`, whose timer runs from construction. */
module Timeouts {
  import opened Http
  import opened BodyStream

  datatype Failure = TimedOut | Inner(error: Error)

  type TimedAnswer = Poll<Option<Result<Frame, Failure>>>

  /** An inner body: its answer to a poll, given the instants of all polls it has seen, this one last. */
  type Source = seq<nat> -> Poll<Option<Item>>

  /** `Sleep::poll`: ready from its deadline on. */
  predicate Elapsed(deadline: nat, now: nat) {
    now >= deadline
  }

  function Boxed(answer: Poll<Option<Item>>): TimedAnswer {
    match answer
    case Pending => Pending
    case Ready(None) => Ready(None)
    case Ready(Some(Ok(frame))) => Ready(Some(Ok(frame)))
    case Ready(Some(Err(e))) => Ready(Some(Err(Inner(e))))
  }

  const TIMED_OUT: TimedAnswer := Ready(Some(Err(TimedOut)))

  datatype Timer = Timer(sleep: Option<nat>, polled: seq<nat>)

  /** `TimeoutBody::poll_frame`. */
  function PollTimeout(source: Source, timeout: nat, st: Timer, now: nat): (TimedAnswer, Timer) {
    var deadline := if st.sleep.Some? then st.sleep.value else now + timeout;
    if Elapsed(deadline, now) then (TIMED_OUT, st.(sleep := Some(deadline)))
    else
      var polled := st.polled + [now];
      var answer := source(polled);
      (Boxed(answer), Timer(if answer.Pending? then Some(deadline) else None, polled))
  }

  /** `DeadlineBody::poll_frame`. */
  function PollDeadline(source: Source, deadline: nat, polled: seq<nat>, now: nat): (TimedAnswer, seq<nat>) {
    if Elapsed(deadline, now) then (TIMED_OUT, polled)
    else (Boxed(source(polled + [now])), polled + [now])
  }

  class TimeoutBody {
    const timeout: nat
    const source: Source
    var sleep: Option<nat>
    var polled: seq<nat>

    function View(): Timer
      reads this
    {
      Timer(sleep, polled)
    }

    constructor (timeout: nat, source: Source)
      ensures this.timeout == timeout && this.source == source && View() == Timer(None, [])
    {
      this.timeout := timeout;
      this.source := source;
      sleep := None;
      polled := [];
    }

    method PollFrame(now: nat) returns (answer: TimedAnswer)
      modifies this
      ensures (answer, View()) == PollTimeout(source, timeout, old(View()), now)
    {
      if sleep.None? {
        sleep := Some(now + timeout);
      }
      if Elapsed(sleep.value, now) {
        return TIMED_OUT;
      }
      polled := polled + [now];
      var frame := source(polled);
      if frame.Pending? {
        return Pending;
      }
      sleep := None;
      answer := Boxed(frame);
    }
  }

  class DeadlineBody {
    const deadline: nat
    const source: Source
    var polled: seq<nat>

    constructor (timeout: nat, source: Source, now: nat)
      ensures deadline == now + timeout && this.source == source && polled == []
    {
      deadline := now + timeout;
      this.source := source;
      polled := [];
    }

    method PollFrame(now: nat) returns (answer: TimedAnswer)
      modifies this
      ensures (answer, polled) == PollDeadline(source, deadline, old(polled), now)
    {
      if Elapsed(deadline, now) {
        return TIMED_OUT;
      }
      polled := polled + [now];
      answer := Boxed(source(polled));
    }
  }

  // Runs: a new body polled at each of the given instants.

  /** The state after the first `n` polls. */
  function TimeoutAfter(source: Source, timeout: nat, times: seq<nat>, n: nat): Timer
    requires n <= |times|
  {
    if n == 0 then Timer(None, [])
    else PollTimeout(source, timeout, TimeoutAfter(source, timeout, times, n - 1), times[n - 1]).1
  }

  function TimeoutAnswer(source: Source, timeout: nat, times: seq<nat>, i: nat): TimedAnswer
    requires i < |times|
  {
    PollTimeout(source, timeout, TimeoutAfter(source, timeout, times, i), times[i]).0
  }

  function DeadlineAfter(source: Source, deadline: nat, times: seq<nat>, n: nat): seq<nat>
    requires n <= |times|
  {
    if n == 0 then []
    else PollDeadline(source, deadline, DeadlineAfter(source, deadline, times, n - 1), times[n - 1]).1
  }

  function DeadlineAnswer(source: Source, deadline: nat, times: seq<nat>, i: nat): TimedAnswer
    requires i < |times|
  {
    PollDeadline(source, deadline, DeadlineAfter(source, deadline, times, i), times[i]).0
  }

  predicate Delivers(answer: TimedAnswer) {
    answer.Ready? && answer != TIMED_OUT
  }

  /** The first poll since the last delivery before poll `i`; poll `i` itself when there is none in between. */
  function Since(source: Source, timeout: nat, times: seq<nat>, i: nat): (j: nat)
    requires i < |times|
    ensures j <= i
  {
    if i == 0 || Delivers(TimeoutAnswer(source, timeout, times, i - 1)) then i
    else Since(source, timeout, times, i - 1)
  }

  /** The timer before poll `i` runs exactly from that poll. */
  lemma {:induction false} TimerRunsSince(source: Source, timeout: nat, times: seq<nat>, i: nat)
    requires i < |times|
    ensures var j := Since(source, timeout, times, i);
      TimeoutAfter(source, timeout, times, i).sleep == if j == i then None else Some(times[j] + timeout)
  {
    if i > 0 {
      TimerRunsSince(source, timeout, times, i - 1);
    }
  }

  /** `TimeoutBody` times out exactly at the polls that come at least the timeout after the first poll since the
      last delivered frame, whatever the body and the schedule; at those it does not poll the body. */
  lemma TimesOutExactlyWhenIdle(source: Source, timeout: nat, times: seq<nat>, i: nat)
    requires i < |times|
    ensures TimeoutAnswer(source, timeout, times, i) == TIMED_OUT <==>
            times[i] >= times[Since(source, timeout, times, i)] + timeout
    ensures TimeoutAfter(source, timeout, times, i + 1).polled ==
            TimeoutAfter(source, timeout, times, i).polled
            + if TimeoutAnswer(source, timeout, times, i) == TIMED_OUT then [] else [times[i]]
  {
    TimerRunsSince(source, timeout, times, i);
  }

  /** With a clock that does not go back, a timeout is final. */
  lemma {:induction false} TimeoutIsFinal(source: Source, timeout: nat, times: seq<nat>, i: nat, k: nat)
    requires NonDecreasing(times) && i <= k < |times|
    requires TimeoutAnswer(source, timeout, times, i) == TIMED_OUT
    ensures TimeoutAnswer(source, timeout, times, k) == TIMED_OUT
  {
    if i < k {
      TimeoutIsFinal(source, timeout, times, i, k - 1);
      TimesOutExactlyWhenIdle(source, timeout, times, k - 1);
      TimesOutExactlyWhenIdle(source, timeout, times, k);
    }
  }

  predicate TimeoutRuns(source: Source, timeout: nat, times: seq<nat>, n: nat)
    requires n <= |times|
  {
    forall i :: 0 <= i < n ==> TimeoutAnswer(source, timeout, times, i) != TIMED_OUT
  }

  predicate DeadlineRuns(source: Source, deadline: nat, times: seq<nat>, n: nat)
    requires n <= |times|
  {
    forall i :: 0 <= i < n ==> DeadlineAnswer(source, deadline, times, i) != TIMED_OUT
  }

  /** An answer of the inner body as the consumer gets it: pending, end and frames as they are, and an error as the
      error it is. */
  predicate Carries(answer: TimedAnswer, inner: Poll<Option<Item>>) {
    match inner
    case Pending => answer == Pending
    case Ready(None) => answer == Ready(None)
    case Ready(Some(Ok(frame))) => answer == Ready(Some(Ok(frame)))
    case Ready(Some(Err(e))) => answer == Ready(Some(Err(Inner(e))))
  }

  /** Until it times out, `TimeoutBody` polls the inner body at the instants at which it is polled itself, and so
      hands out the answers that the inner body would give. */
  lemma {:induction false} TimeoutIsTransparent(source: Source, timeout: nat, times: seq<nat>, n: nat)
    requires n <= |times| && TimeoutRuns(source, timeout, times, n)
    ensures TimeoutAfter(source, timeout, times, n).polled == times[..n]
    ensures n < |times| && TimeoutAnswer(source, timeout, times, n) != TIMED_OUT ==>
      Carries(TimeoutAnswer(source, timeout, times, n), source(times[..n + 1]))
  {
    if n > 0 {
      assert TimeoutAnswer(source, timeout, times, n - 1) != TIMED_OUT;
      TimeoutIsTransparent(source, timeout, times, n - 1);
      assert times[..n - 1] + [times[n - 1]] == times[..n];
    }
    if n < |times| {
      assert times[..n] + [times[n]] == times[..n + 1];
    }
  }

  /** `DeadlineBody` times out exactly from its deadline on, and until then is transparent. */
  lemma {:induction false} DeadlineIsTransparent(source: Source, deadline: nat, times: seq<nat>, n: nat)
    requires n < |times| && DeadlineRuns(source, deadline, times, n)
    ensures DeadlineAfter(source, deadline, times, n) == times[..n]
    ensures if times[n] >= deadline then DeadlineAnswer(source, deadline, times, n) == TIMED_OUT
            else Carries(DeadlineAnswer(source, deadline, times, n), source(times[..n + 1]))
  {
    if n > 0 {
      assert DeadlineAnswer(source, deadline, times, n - 1) != TIMED_OUT;
      DeadlineIsTransparent(source, deadline, times, n - 1);
      assert times[..n - 1] + [times[n - 1]] == times[..n];
    }
    assert times[..n] + [times[n]] == times[..n + 1];
  }

  /** The instants before the deadline. */
  function Before(times: seq<nat>, deadline: nat): seq<nat> {
    if times == [] then []
    else Before(times[..|times| - 1], deadline) + if times[|times| - 1] < deadline then [times[|times| - 1]] else []
  }

  /** For any clock, even one that goes back: `DeadlineBody` times out at the polls from its deadline on, polls the inner
      body at exactly the others, and hands out its answers to those. */
  lemma {:induction false} DeadlineSplitsPolls(source: Source, deadline: nat, times: seq<nat>, n: nat)
    requires n < |times|
    ensures DeadlineAfter(source, deadline, times, n) == Before(times[..n], deadline)
    ensures if times[n] >= deadline then DeadlineAnswer(source, deadline, times, n) == TIMED_OUT
            else Carries(DeadlineAnswer(source, deadline, times, n), source(Before(times[..n + 1], deadline)))
  {
    if n > 0 {
      DeadlineSplitsPolls(source, deadline, times, n - 1);
      assert times[..n][..n - 1] == times[..n - 1];
    }
    assert times[..n + 1][..n] == times[..n];
  }

  lemma {:induction false} TimeoutOutlivesDeadline(source: Source, timeout: nat, built: nat, times: seq<nat>, n: nat)
    requires NonDecreasing(times) && n <= |times| && (times != [] ==> built <= times[0])
    requires DeadlineRuns(source, built + timeout, times, n)
    ensures TimeoutRuns(source, timeout, times, n)
  {
    forall i | 0 <= i < n
      ensures TimeoutAnswer(source, timeout, times, i) != TIMED_OUT
    {
      assert DeadlineAnswer(source, built + timeout, times, i) != TIMED_OUT;
      TimesOutExactlyWhenIdle(source, timeout, times, i);
    }
  }

  /** Built at the same instant with the same timeout, the two bodies answer every poll alike until
      `DeadlineBody` first times out. */
  lemma TimersAgreeUntilDeadline(source: Source, timeout: nat, built: nat, times: seq<nat>, i: nat)
    requires NonDecreasing(times) && i < |times| && built <= times[0]
    requires DeadlineRuns(source, built + timeout, times, i + 1)
    ensures TimeoutAnswer(source, timeout, times, i) == DeadlineAnswer(source, built + timeout, times, i)
  {
    assert DeadlineAnswer(source, built + timeout, times, i) != TIMED_OUT;
    TimeoutOutlivesDeadline(source, timeout, built, times, i + 1);
    assert TimeoutAnswer(source, timeout, times, i) != TIMED_OUT;
    assert TimeoutRuns(source, timeout, times, i);
    assert DeadlineRuns(source, built + timeout, times, i);
    TimeoutIsTransparent(source, timeout, times, i);
    DeadlineIsTransparent(source, built + timeout, times, i);
  }
}
