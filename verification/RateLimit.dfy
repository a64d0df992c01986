/** `rate_limited!`: a call site shared by threads that load and compare-exchange the atomic `NEXT_CALL`. */
module RateLimit {
  const U64_MAX: nat := 0xFFFF_FFFF_FFFF_FFFF
  const NANOS_PER_SEC: nat := 1_000_000_000

  /** A `Duration` in nanoseconds; its whole seconds fit in 64 bits. */
  type Duration = d: nat | d / NANOS_PER_SEC <= U64_MAX

  function AsSecs(d: Duration): (secs: nat)
    ensures secs <= U64_MAX
  {
    d / NANOS_PER_SEC
  }

  function SaturatingAdd(a: nat, b: nat): (sum: nat)
    ensures a <= U64_MAX ==> a <= sum <= U64_MAX
  {
    if a + b <= U64_MAX then a + b else U64_MAX
  }

  /** Where a thread is in the macro: not in it, after reading the clock, or after a load that let it go on. */
  datatype Thread = Idle | Clocked(now: Duration) | Loaded(now: Duration, next: nat)

  /** `history` is the modification order of `NEXT_CALL`, `calls` the clock readings of the threads that
      evaluated the call, in the order of their exchanges. */
  datatype State = State(history: seq<nat>, calls: seq<Duration>, threads: map<nat, Thread>) {
    predicate Valid() {
      history != []
    }

    function At(thread: nat): Thread {
      if thread in threads then threads[thread] else Idle
    }
  }

  const INITIAL := State([0], [], map[])

  /** One atomic step of one thread. A relaxed load may see any value that `NEXT_CALL` has ever had. */
  datatype Step = ReadClock(thread: nat, now: Duration) | Load(thread: nat, seen: nat) | Exchange(thread: nat)

  function Last(history: seq<nat>): nat
    requires history != []
  {
    history[|history| - 1]
  }

  /** The effect of a step; a thread that is not where the step starts does nothing. */
  function Next(interval: Duration, s: State, step: Step): (s': State)
    requires s.Valid()
    ensures s'.Valid()
  {
    match step
    case ReadClock(thread, now) =>
      if s.At(thread).Idle? then s.(threads := s.threads[thread := Clocked(now)]) else s
    case Load(thread, seen) =>
      if s.At(thread).Clocked? && seen < |s.history| then
        var now := s.At(thread).now;
        var next := s.history[seen];
        s.(threads := s.threads[thread := if AsSecs(now) >= next then Loaded(now, next) else Idle])
      else s
    case Exchange(thread) =>
      if s.At(thread).Loaded? then
        var (now, next) := (s.At(thread).now, s.At(thread).next);
        var newNext := SaturatingAdd(AsSecs(now), AsSecs(interval));
        if Last(s.history) == next then
          State(s.history + [newNext], s.calls + [now], s.threads[thread := Idle])
        else s.(threads := s.threads[thread := Idle])
      else s
  }

  function Run(interval: Duration, s: State, steps: seq<Step>): (s': State)
    requires s.Valid()
    ensures s'.Valid()
    decreases |steps|
  {
    if steps == [] then s else Run(interval, Next(interval, s, steps[0]), steps[1..])
  }

  /** The call site as it is written, run by one thread from clock to exchange. */
  class CallSite {
    const interval: Duration
    var history: seq<nat>
    var calls: seq<Duration>

    function View(): State
      reads this
    {
      State(history, calls, map[])
    }

    constructor (interval: Duration)
      ensures this.interval == interval && View() == INITIAL
    {
      this.interval := interval;
      history, calls := [0], [];
    }

    method CompareExchange(next: nat, newNext: nat) returns (ok: bool)
      requires history != []
      modifies `history
      ensures ok == (Last(old(history)) == next)
      ensures history == if ok then old(history) + [newNext] else old(history)
    {
      ok := Last(history) == next;
      if ok {
        history := history + [newNext];
      }
    }

    method Attempt(now: Duration, seen: nat)
      requires seen < |history|
      modifies `history, `calls
      ensures var clocked := Next(interval, old(View()), ReadClock(0, now));
        var s := Next(interval, Next(interval, clocked, Load(0, seen)), Exchange(0));
        history == s.history && calls == s.calls
    {
      var next := history[seen];
      if AsSecs(now) >= next {
        var newNext := SaturatingAdd(AsSecs(now), AsSecs(interval));
        var ok := CompareExchange(next, newNext);
        if ok {
          calls := calls + [now];
        }
      }
    }
  }

  // What every run keeps.

  /** Call `k` was not early, and set `NEXT_CALL` from its own clock reading. */
  predicate Recorded(interval: Duration, s: State, k: nat)
    requires k < |s.calls| < |s.history|
  {
    && s.history[k] <= AsSecs(s.calls[k])
    && s.history[k + 1] == SaturatingAdd(AsSecs(s.calls[k]), AsSecs(interval))
  }

  /** The history records the calls. */
  predicate Records(interval: Duration, s: State) {
    && |s.history| == |s.calls| + 1
    && s.history[0] == 0
    && (forall k :: 0 <= k < |s.calls| ==> Recorded(interval, s, k))
    && (forall t :: t in s.threads && s.threads[t].Loaded? ==> s.threads[t].next <= AsSecs(s.threads[t].now))
  }

  lemma StepRecords(interval: Duration, s: State, step: Step)
    requires s.Valid() && Records(interval, s)
    ensures Records(interval, Next(interval, s, step))
  {
    var s' := Next(interval, s, step);
    forall k | 0 <= k < |s'.calls|
      ensures Recorded(interval, s', k)
    {
      assert k < |s.calls| ==> Recorded(interval, s, k);
    }
  }

  lemma {:induction false} RunKeepsRecords(interval: Duration, s: State, steps: seq<Step>)
    requires s.Valid() && Records(interval, s)
    ensures Records(interval, Run(interval, s, steps))
    decreases |steps|
  {
    if steps != [] {
      StepRecords(interval, s, steps[0]);
      RunKeepsRecords(interval, Next(interval, s, steps[0]), steps[1..]);
    }
  }

  lemma {:induction false} HistoryGrows(interval: Duration, s: State, i: nat, j: nat)
    requires Records(interval, s) && i <= j < |s.history|
    ensures s.history[i] <= s.history[j]
    decreases j
  {
    if i < j {
      HistoryGrows(interval, s, i, j - 1);
      assert Recorded(interval, s, j - 1);
    }
  }

  lemma SpacedStep(a: nat, b: nat, c: nat, gap: nat, interval: nat)
    requires a <= U64_MAX && b >= SaturatingAdd(a, gap) && c >= SaturatingAdd(b, interval)
    ensures c >= SaturatingAdd(a, gap + interval)
  {
  }

  lemma {:induction false} RecordedCallsAreSpaced(interval: Duration, s: State, i: nat, n: nat)
    requires Records(interval, s) && i + n < |s.calls|
    ensures AsSecs(s.calls[i + n]) >= SaturatingAdd(AsSecs(s.calls[i]), n * AsSecs(interval))
    decreases n
  {
    if n > 0 {
      var k := i + n - 1;
      RecordedCallsAreSpaced(interval, s, i, n - 1);
      assert Recorded(interval, s, k) && Recorded(interval, s, k + 1);
      SpacedStep(AsSecs(s.calls[i]), AsSecs(s.calls[k]), AsSecs(s.calls[k + 1]), (n - 1) * AsSecs(interval), AsSecs(interval));
      Multiple(n, AsSecs(interval));
    }
  }

  lemma Multiple(n: nat, x: nat)
    requires n > 0
    ensures x <= (n - 1) * x + x == n * x
  {
  }

  /** For any number of threads, any interleaving and any clock, `NEXT_CALL` never decreases. */
  lemma NextCallNeverDecreases(interval: Duration, steps: seq<Step>, i: nat, j: nat)
    requires i <= j < |Run(interval, INITIAL, steps).history|
    ensures var history := Run(interval, INITIAL, steps).history;
      history[i] <= history[j]
  {
    RunKeepsRecords(interval, INITIAL, steps);
    HistoryGrows(interval, Run(interval, INITIAL, steps), i, j);
  }

  /** Calls are spaced by whole intervals unless the addition saturated: the `n`-th call after a call reads a
      clock at least `n` intervals later, in whole seconds. */
  lemma CallsAreSpaced(interval: Duration, steps: seq<Step>, i: nat, n: nat)
    requires i + n < |Run(interval, INITIAL, steps).calls|
    ensures var calls := Run(interval, INITIAL, steps).calls;
      AsSecs(calls[i + n]) >= SaturatingAdd(AsSecs(calls[i]), n * AsSecs(interval))
  {
    RunKeepsRecords(interval, INITIAL, steps);
    RecordedCallsAreSpaced(interval, Run(interval, INITIAL, steps), i, n);
  }

  // The promise of at most one call every interval, in nanoseconds.

  predicate Apart(a: nat, b: nat, interval: nat) {
    a + interval <= b || b + interval <= a
  }

  /** No two calls read clocks less than an interval apart. */
  predicate OncePerInterval(interval: Duration, calls: seq<Duration>) {
    forall i, j :: 0 <= i < j < |calls| ==> Apart(calls[i], calls[j], interval)
  }

  function AttemptBy(thread: nat, now: Duration, seen: nat, rest: seq<Step>): seq<Step> {
    [ReadClock(thread, now), Load(thread, seen), Exchange(thread)] + rest
  }

  /** An attempt that no other thread interrupts makes the call if and only if it is not early and sees a value equal
      to the latest. Either way the thread is done with it, and without a call nothing else changes. */
  lemma AttemptCallsIff(interval: Duration, s: State, thread: nat, now: Duration, seen: nat, rest: seq<Step>)
    requires s.Valid() && s.At(thread).Idle? && seen < |s.history|
    ensures var done := s.(threads := s.threads[thread := Idle]);
      var secs := now / 1_000_000_000;
      Run(interval, s, AttemptBy(thread, now, seen, rest)) ==
      Run(interval,
          if s.history[seen] <= secs && s.history[seen] == s.history[|s.history| - 1] then
            done.(history := s.history + [SaturatingAdd(secs, interval / 1_000_000_000)], calls := s.calls + [now])
          else done,
          rest)
  {
    var steps := AttemptBy(thread, now, seen, rest);
    var s1 := Next(interval, s, steps[0]);
    var s2 := Next(interval, s1, steps[1]);
    var s3 := Next(interval, s2, steps[2]);
    assert s3.threads == s.threads[thread := Idle];
    ThreeSteps(interval, s, steps, rest);
  }

  /** In particular one that sees the latest value and is not early does. */
  lemma AttemptCalls(interval: Duration, s: State, thread: nat, now: Duration, rest: seq<Step>)
    requires s.Valid() && s.At(thread).Idle? && Last(s.history) <= AsSecs(now)
    ensures var s' := State(s.history + [SaturatingAdd(AsSecs(now), AsSecs(interval))], s.calls + [now],
                            s.threads[thread := Idle]);
      Run(interval, s, AttemptBy(thread, now, |s.history| - 1, rest)) == Run(interval, s', rest)
  {
    AttemptCallsIff(interval, s, thread, now, |s.history| - 1, rest);
  }

  lemma ThreeSteps(interval: Duration, s: State, steps: seq<Step>, rest: seq<Step>)
    requires s.Valid() && |steps| >= 3 && steps[3..] == rest
    ensures Run(interval, s, steps) ==
            Run(interval, Next(interval, Next(interval, Next(interval, s, steps[0]), steps[1]), steps[2]), rest)
  {
    assert steps[1..][1..] == steps[2..] && steps[2..][1..] == rest;
    assert steps[1..][0] == steps[1] && steps[2..][0] == steps[2];
    var s1 := Next(interval, s, steps[0]);
    assert Run(interval, s1, steps[1..]) == Run(interval, Next(interval, s1, steps[1]), steps[2..]);
  }

  lemma TwoCalls(interval: Duration, first: Duration, second: Duration)
    requires SaturatingAdd(AsSecs(first), AsSecs(interval)) <= AsSecs(second)
    ensures Run(interval, INITIAL, AttemptBy(0, first, 0, AttemptBy(1, second, 1, []))).calls == [first, second]
  {
    var next := SaturatingAdd(AsSecs(first), AsSecs(interval));
    AttemptCalls(interval, INITIAL, 0, first, AttemptBy(1, second, 1, []));
    var s1 := State([0] + [next], [] + [first], INITIAL.threads[0 := Idle]);
    AttemptCalls(interval, s1, 1, second, []);
  }

  /** Clock and interval are cut to whole seconds, so at most one call every interval is promised for no interval
      but zero: for any other, two attempts in a row may both call, closer together than the interval. */
  lemma OncePerIntervalIffZero(interval: Duration)
    ensures (forall steps: seq<Step> :: OncePerInterval(interval, Run(interval, INITIAL, steps).calls)) <==> interval == 0
  {
    if interval > 0 {
      var secs := AsSecs(interval);
      var first: Duration := 999_999_999;
      var second: Duration := if secs == 0 then first else secs * NANOS_PER_SEC;
      TwoCalls(interval, first, second);
      TooClose(interval, first, second);
      assert !OncePerInterval(
          interval, Run(interval, INITIAL, AttemptBy(0, first, 0, AttemptBy(1, second, 1, []))).calls);
    }
  }

  lemma TooClose(interval: Duration, first: Duration, second: Duration)
    requires !Apart(first, second, interval)
    ensures !OncePerInterval(interval, [first, second])
  {
    assert [first, second][0] == first && [first, second][1] == second;
  }

  /** What does hold in nanoseconds, unless the addition saturated: two calls are more than the whole seconds of
      the interval apart, less one second. */
  lemma NanosApart(interval: Duration, steps: seq<Step>, i: nat, j: nat)
    requires i < j < |Run(interval, INITIAL, steps).calls|
    requires AsSecs(Run(interval, INITIAL, steps).calls[i]) + AsSecs(interval) <= U64_MAX
    ensures var calls := Run(interval, INITIAL, steps).calls;
      calls[j] > calls[i] + (AsSecs(interval) - 1) * NANOS_PER_SEC
  {
    var calls := Run(interval, INITIAL, steps).calls;
    CallsAreSpaced(interval, steps, i, j - i);
    assert i + (j - i) == j;
    Multiple(j - i, AsSecs(interval));
    Floors(calls[i], calls[j], AsSecs(interval));
  }

  lemma Floors(a: nat, b: nat, gap: nat)
    requires b / NANOS_PER_SEC >= a / NANOS_PER_SEC + gap
    ensures b > a + (gap - 1) * NANOS_PER_SEC
  {
  }
}
