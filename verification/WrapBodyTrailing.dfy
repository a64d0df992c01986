/** Payload after the end of the encoded stream: when a decoder notices it. */
module WrapBodyTrailing {
  import opened Http
  import opened BodyStream
  import opened WrapBody
  import opened WrapBodyRuns
  import opened WrapBodyRefinement
  import opened WrapBodyEnds

  /** For the codec the encoded stream is `y`: before it has read all of it, it neither ends nor fails while more may
      come, and from then on it neither fails nor asks for input. */
  ghost predicate Delimits(c: Codec, y: Bytes) {
    forall h :: Reachable(c, h) ==>
      && (h.Input() < y && !h.AtEof() ==> !c(h).Raise? && !Ends(c, h))
      && (y <= h.Input() ==> !c(h).Raise? && c(h) != Need)
  }

  /** The frame at `i` is data, not empty, and starts `end` bytes into the data of the body or later. */
  predicate StartsAfter(items: seq<Item>, i: nat, end: nat)
    requires i < |items|
  {
    items[i].Ok? && items[i].value.Data? && items[i].value.bytes != [] && |DataOf(items[..i])| >= end
  }

  /** The first `m` items hold the first `end` bytes, and fewer items do not. */
  predicate IsBoundary(items: seq<Item>, end: nat, m: nat) {
    && m <= |items| && |DataOf(items[..m])| >= end
    && (m > 0 ==> |DataOf(items[..m - 1])| < end)
  }

  /** The codec is still reading, and the first `m` items have been taken, the last one for want of bytes. */
  ghost predicate ReadUpTo(c: Codec, y: Bytes, items: seq<Item>, h: History, t: Tunnel, m: nat) {
    && Reading(c, DataOf(items), h, t)
    && m <= |items| && t.inner.Left() == items[m..]
    && (m > 0 ==> |DataOf(items[..m - 1])| < |y|)
  }

  lemma InputIsTheFirst(c: Codec, y: Bytes, items: seq<Item>, h: History, t: Tunnel, m: nat)
    requires ReadUpTo(c, y, items, h, t, m)
    ensures h.Input() == DataOf(items[..m]) && h.Input() <= DataOf(items)
  {
    assert items == items[..m] + items[m..];
    DataOfConcat(items[..m], items[m..]);
    var a, b, d := h.Input(), DataOf(items[..m]), DataOf(items[m..]);
    assert a + d == b + d;
    assert |a| == |b|;
    assert (a + d)[..|a|] == a && (b + d)[..|b|] == b;
  }

  /** While bytes of `y` are missing the codec reads on or returns bytes; after that it does not read. */
  lemma Reads(c: Codec, y: Bytes, items: seq<Item>, h: History, t: Tunnel, m: nat)
    requires Delimits(c, y) && y <= DataOf(items) && ReadUpTo(c, y, items, h, t, m)
    ensures !c(h).Raise?
    ensures Ends(c, h) ==> |DataOf(items[..m])| >= |y|
    ensures c(h) == Need ==> |DataOf(items[..m])| < |y|
  {
    InputIsTheFirst(c, y, items, h, t, m);
    var x := DataOf(items);
    if |h.Input()| < |y| {
      assert h.Input() == x[..|h.Input()|] && y == x[..|y|];
      assert h.Input() < y;
    } else {
      assert y == x[..|y|] && h.Input() == x[..|h.Input()|];
      assert y <= h.Input();
    }
  }

  lemma ReadsNext(c: Codec, y: Bytes, items: seq<Item>, h: History, t: Tunnel, m: nat) returns (m': nat)
    requires Delimits(c, y) && y <= DataOf(items) && ReadUpTo(c, y, items, h, t, m) && c(h) == Need
    ensures var (answer, t1) := t.PollNext();
      && !(answer.Ready? && answer.value.Some? && answer.value.value.Err?)
      && ReadUpTo(c, y, items, Feed(h, answer), t1, m')
  {
    Reads(c, y, items, h, t, m);
    ReadingNext(c, DataOf(items), h, t);
    TunnelTakes(t);
    var (answer, t1) := t.PollNext();
    m' := m;
    if answer.Ready? && answer.value.Some? {
      m' := m + 1;
      assert t1.inner.Left() == t.inner.Left()[1..] == items[m'..];
    }
  }

  /** What a read leaves when it takes items only up to the boundary, does not fail, and ends only there. */
  ghost predicate ReadTo(c: Codec, y: Bytes, items: seq<Item>, read: (Poll<Result<Bytes, IoError>>, History, Tunnel), m: nat) {
    && (read.0.Ready? ==> read.0.value.Ok?)
    && read.2.inner.Valid() && read.2.error == None
    && if IsEnd(read.0) then IsBoundary(items, |y|, m) && read.2.inner.Left() == items[m..]
       else ReadUpTo(c, y, items, read.1, read.2, m)
  }

  lemma ReadStopsHere(c: Codec, y: Bytes, items: seq<Item>, h: History, t: Tunnel, m: nat)
    requires Delimits(c, y) && y <= DataOf(items) && ReadUpTo(c, y, items, h, t, m) && c(h) != Need
    ensures ReadTo(c, y, items, CodecRead(c, h, t), m)
  {
    Reads(c, y, items, h, t, m);
  }

  lemma {:induction false} ReadStopsAtBoundary(c: Codec, y: Bytes, items: seq<Item>, h: History, t: Tunnel, m: nat)
    returns (m': nat)
    requires Delimits(c, y) && y <= DataOf(items) && ReadUpTo(c, y, items, h, t, m)
    ensures ReadTo(c, y, items, CodecRead(c, h, t), m')
    decreases |t.inner.body|, !h.AtEof()
  {
    if c(h) != Need {
      m' := m;
      ReadStopsHere(c, y, items, h, t, m);
    } else {
      var (answer, t1) := t.PollNext();
      m' := ReadsNext(c, y, items, h, t, m);
      ReadNeeds(c, h, t);
      if answer.Ready? {
        m' := ReadStopsAtBoundary(c, y, items, Feed(h, answer), t1, m');
      }
    }
  }

  // ---------------------------------------------------------------- whole runs

  predicate OnlyData(items: seq<Item>) {
    forall i :: 0 <= i < |items| ==> items[i].Ok? && items[i].value.Data?
  }

  /** After the end has been answered nothing is left. */
  lemma {:induction false} EndLeavesNothing(c: Codec, w: Wrap, n: nat)
    requires w.Valid() && w.readAllData
    ensures Polled(Ready(None)) in Run(c, w, n).0 || w.Left() == [] ==> Run(c, w, n).1.Left() == []
    decreases n
  {
    if n > 0 {
      var (o, w1) := WrapPoll(c, w);
      RestTakes(w);
      EndLeavesNothing(c, w1, n - 1);
    }
  }

  /** A run whose next read ends delivers all that is left. */
  lemma RunFromBoundary(c: Codec, w: Wrap, n: nat)
    requires !w.readAllData && w.Valid() && IsEnd(CodecRead(c, w.history, w.tunnel).0) && AfterRead(c, w).Valid()
    requires Polled(Ready(None)) in Run(c, w, n).0
    ensures Delivered(Run(c, w, n).0) == AfterCodecAll(AfterRead(c, w).Left())
  {
    var w1 := AfterRead(c, w);
    assert WrapPoll(c, w) == WrapPoll(c, w1);
    assert Run(c, w, n) == Run(c, w1, n);
    var taken := RunAfterCodec(c, w1, n);
    EndLeavesNothing(c, w1, n);
    assert taken + [] == taken;
  }

  /** The polls of a run before the one whose read ends, the state before that one, and the polls from there on. */
  function ReadingPhase(c: Codec, w: Wrap, n: nat): (seq<Outcome>, Wrap, nat)
    decreases n
  {
    if n == 0 || w.readAllData || IsEnd(CodecRead(c, w.history, w.tunnel).0) then ([], w, n)
    else
      var (o, w1) := WrapPoll(c, w);
      var (os, w2, left) := ReadingPhase(c, w1, n - 1);
      ([o] + os, w2, left)
  }

  lemma {:induction false} RunHasPhases(c: Codec, w: Wrap, n: nat)
    ensures var (os, w', left) := ReadingPhase(c, w, n);
      Run(c, w, n).0 == os + Run(c, w', left).0
    decreases n
  {
    if n == 0 || w.readAllData || IsEnd(CodecRead(c, w.history, w.tunnel).0) {
      assert [] + Run(c, w, n).0 == Run(c, w, n).0;
    } else {
      var (o, w1) := WrapPoll(c, w);
      RunHasPhases(c, w1, n - 1);
      var (os, w2, left) := ReadingPhase(c, w1, n - 1);
      Regroup([o], os, Run(c, w2, left).0);
    }
  }

  /** Neither an error nor the end. */
  predicate GivesData(o: Outcome) {
    o != Polled(Ready(None)) && OnlyData(ItemOf(o))
  }

  /** From `w`, a poll whose read does not end delivers at most data and keeps `inv`. */
  ghost predicate StepKeeps(c: Codec, inv: Wrap -> bool, w: Wrap) {
    inv(w) && !w.readAllData && !IsEnd(CodecRead(c, w.history, w.tunnel).0) ==>
      GivesData(WrapPoll(c, w).0) && inv(WrapPoll(c, w).1)
  }

  /** What every such poll keeps, the whole phase keeps. */
  lemma {:induction false} PhaseKeeps(c: Codec, inv: Wrap -> bool, w: Wrap, n: nat)
    requires inv(w) && forall a :: StepKeeps(c, inv, a)
    ensures var (os, w', left) := ReadingPhase(c, w, n);
      && (forall i :: 0 <= i < |os| ==> GivesData(os[i])) && inv(w')
      && (left > 0 && !w'.readAllData ==> IsEnd(CodecRead(c, w'.history, w'.tunnel).0))
    decreases n
  {
    if n > 0 && !w.readAllData && !IsEnd(CodecRead(c, w.history, w.tunnel).0) {
      assert StepKeeps(c, inv, w);
      PhaseKeeps(c, inv, WrapPoll(c, w).1, n - 1);
    }
  }

  ghost predicate StillReading(c: Codec, y: Bytes, items: seq<Item>, w: Wrap) {
    !w.readAllData && w.Valid() && exists m :: ReadUpTo(c, y, items, w.history, w.tunnel, m)
  }

  ghost function StillReadingAt(c: Codec, y: Bytes, items: seq<Item>): Wrap -> bool {
    w => StillReading(c, y, items, w)
  }

  /** A poll whose read does not fail and does not end. */
  lemma PollReads(c: Codec, w: Wrap)
    requires !w.readAllData && !IsEnd(CodecRead(c, w.history, w.tunnel).0)
    requires var (read, _, t) := CodecRead(c, w.history, w.tunnel); t.error == None && (read.Ready? ==> read.value.Ok?)
    ensures var (_, h, t) := CodecRead(c, w.history, w.tunnel);
      GivesData(WrapPoll(c, w).0) && WrapPoll(c, w).1 == Wrap(h, t, false)
  {
  }

  lemma PollKeepsReading(c: Codec, y: Bytes, items: seq<Item>, w: Wrap)
    requires Delimits(c, y) && y <= DataOf(items) && StillReading(c, y, items, w)
    requires !IsEnd(CodecRead(c, w.history, w.tunnel).0)
    ensures GivesData(WrapPoll(c, w).0) && StillReading(c, y, items, WrapPoll(c, w).1)
  {
    var m :| ReadUpTo(c, y, items, w.history, w.tunnel, m);
    m := ReadStopsAtBoundary(c, y, items, w.history, w.tunnel, m);
    PollReads(c, w);
  }

  lemma StepKeepsReading(c: Codec, y: Bytes, items: seq<Item>, w: Wrap)
    requires Delimits(c, y) && y <= DataOf(items)
    ensures StepKeeps(c, StillReadingAt(c, y, items), w)
  {
    if StillReading(c, y, items, w) && !IsEnd(CodecRead(c, w.history, w.tunnel).0) {
      PollKeepsReading(c, y, items, w);
    }
  }

  lemma PhaseUpTo(c: Codec, y: Bytes, items: seq<Item>, w: Wrap, n: nat)
    requires Delimits(c, y) && y <= DataOf(items) && StillReading(c, y, items, w)
    ensures var (os, w', left) := ReadingPhase(c, w, n);
      && (forall i :: 0 <= i < |os| ==> GivesData(os[i])) && StillReading(c, y, items, w')
      && (left > 0 ==> IsEnd(CodecRead(c, w'.history, w'.tunnel).0))
  {
    forall a: Wrap ensures StepKeeps(c, StillReadingAt(c, y, items), a) {
      StepKeepsReading(c, y, items, a);
    }
    PhaseKeeps(c, StillReadingAt(c, y, items), w, n);
  }

  lemma {:induction false} ReadingDelivers(os: seq<Outcome>)
    requires forall i :: 0 <= i < |os| ==> GivesData(os[i])
    ensures OnlyData(Delivered(os)) && Polled(Ready(None)) !in os
  {
    if os != [] {
      assert GivesData(os[0]);
      ReadingDelivers(os[1..]);
    }
  }

  lemma RunPastReading(c: Codec, y: Bytes, items: seq<Item>, w: Wrap, n: nat) returns (m: nat)
    requires Delimits(c, y) && y <= DataOf(items) && StillReading(c, y, items, w)
    requires IsEnd(CodecRead(c, w.history, w.tunnel).0) && Polled(Ready(None)) in Run(c, w, n).0
    ensures IsBoundary(items, |y|, m) && Delivered(Run(c, w, n).0) == AfterCodecAll(items[m..])
  {
    m :| ReadUpTo(c, y, items, w.history, w.tunnel, m);
    m := ReadStopsAtBoundary(c, y, items, w.history, w.tunnel, m);
    RunFromBoundary(c, w, n);
  }

  /** A run to the end: the outputs of the codec, then every item from the boundary on. */
  lemma RunPastBoundary(c: Codec, y: Bytes, items: seq<Item>, w: Wrap, n: nat) returns (outputs: seq<Item>, m: nat)
    requires Delimits(c, y) && y <= DataOf(items) && StillReading(c, y, items, w)
    requires Polled(Ready(None)) in Run(c, w, n).0
    ensures OnlyData(outputs) && IsBoundary(items, |y|, m)
    ensures Delivered(Run(c, w, n).0) == outputs + AfterCodecAll(items[m..])
  {
    var (os, w', left) := ReadingPhase(c, w, n);
    PhaseUpTo(c, y, items, w, n);
    ReadingDelivers(os);
    RunHasPhases(c, w, n);
    DeliveredConcat(os, Run(c, w', left).0);
    outputs := Delivered(os);
    m := RunPastReading(c, y, items, w', left);
  }

  lemma {:induction false} ExtraBytesAmong(items: seq<Item>)
    requires forall i :: 0 <= i < |items| ==> items[i].Ok?
    ensures Err(ExtraBytes) in AfterCodecAll(items) <==>
            exists i :: 0 <= i < |items| && items[i].value.Data? && items[i].value.bytes != []
  {
    if items != [] {
      ExtraBytesAmong(items[1..]);
      assert forall i :: 0 < i < |items| ==> items[i] == items[1..][i - 1];
      var all := AfterCodecAll(items);
      assert all == [AfterCodec(items[0])] + AfterCodecAll(items[1..]);
      assert Err(ExtraBytes) in all <==> AfterCodec(items[0]) == Err(ExtraBytes) || Err(ExtraBytes) in all[1..];
      if exists i :: 0 <= i < |items| && items[i].value.Data? && items[i].value.bytes != [] {
        var i :| 0 <= i < |items| && items[i].value.Data? && items[i].value.bytes != [];
        if i > 0 {
          assert items[1..][i - 1].value.Data?;
        }
      }
    }
  }

  lemma {:induction false} ConformingIsOk(items: seq<Item>)
    requires Conforms(items)
    ensures forall i :: 0 <= i < |items| ==> items[i].Ok?
  {
    if items != [] && items[0].value.Data? {
      ConformingIsOk(items[1..]);
      assert forall i :: 0 < i < |items| ==> items[i] == items[1..][i - 1];
    }
  }

  /** The frames from the boundary on are those that start after the end. */
  lemma AfterBoundary(items: seq<Item>, end: nat, m: nat, i: nat)
    requires IsBoundary(items, end, m) && i < |items|
    ensures |DataOf(items[..i])| >= end <==> i >= m
  {
    if i >= m {
      DataGrows(items[..m], items[..i]);
    } else {
      DataGrows(items[..i], items[..m - 1]);
    }
  }

  /** For every decoder and every body that keeps its contract and holds the encoded stream: a run to the end delivers
      the decoded data, then every item after the frame in which the encoded stream ends, and among them is the
      extra-bytes error if and only if some data frame with bytes starts where the encoded stream has ended. So bytes
      after the end are noticed unless all of them are in the very frame that holds it. */
  lemma TrailingBytesAreNoticedIff(c: Codec, y: Bytes, body: Script, n: nat) returns (outputs: seq<Item>, m: nat)
    requires Delimits(c, y) && Conforms(Items(body)) && y <= DataOf(Items(body))
    requires Polled(Ready(None)) in Run(c, FreshWrap(body), n).0
    ensures var items := Items(body); var delivered := Delivered(Run(c, FreshWrap(body), n).0);
      && OnlyData(outputs) && IsBoundary(items, |y|, m)
      && delivered == outputs + AfterCodecAll(items[m..])
      && (Err(ExtraBytes) in delivered <==> exists i :: 0 <= i < |items| && StartsAfter(items, i, |y|))
  {
    var items := Items(body);
    var w := FreshWrap(body);
    FreshReads(c, y, body);
    outputs, m := RunPastBoundary(c, y, items, w, n);
    ConformingIsOk(items);
    ExtraBytesAmong(items[m..]);
    NoticedIff(items, |y|, m);
  }

  lemma FreshReads(c: Codec, y: Bytes, body: Script)
    requires Conforms(Items(body))
    ensures var w := FreshWrap(body); w.Valid() && ReadUpTo(c, y, Items(body), w.history, w.tunnel, 0)
  {
    assert FreshWrap(body).Left() == Items(body) == Items(body)[0..];
    assert [] + DataOf(Items(body)) == DataOf(Items(body));
  }

  lemma NoticedIff(items: seq<Item>, end: nat, m: nat)
    requires IsBoundary(items, end, m) && forall i :: 0 <= i < |items| ==> items[i].Ok?
    ensures (exists i :: 0 <= i < |items[m..]| && items[m..][i].value.Data? && items[m..][i].value.bytes != [])
       <==> (exists i :: 0 <= i < |items| && StartsAfter(items, i, end))
  {
    var late := items[m..];
    if i :| 0 <= i < |late| && late[i].value.Data? && late[i].value.bytes != [] {
      AfterBoundary(items, end, m, m + i);
      assert StartsAfter(items, m + i, end);
    }
    if i :| 0 <= i < |items| && StartsAfter(items, i, end) {
      AfterBoundary(items, end, m, i);
      assert late[i - m] == items[i];
    }
  }

  // ---------------------------------------------------------------- progress

  /** Still reading, or past it, and within the bound. */
  ghost predicate OnTheWay(c: Codec, y: Bytes, items: seq<Item>, limit: nat, w: Wrap) {
    && w.Valid() && w.history.Returns() <= limit
    && (!w.readAllData ==> StillReading(c, y, items, w))
  }

  lemma ReadingIsOnTheWay(c: Codec, y: Bytes, items: seq<Item>, limit: nat, w: Wrap)
    requires Bounded(c, DataOf(items), limit) && StillReading(c, y, items, w)
    ensures OnTheWay(c, y, items, limit, w)
  {
    var m :| ReadUpTo(c, y, items, w.history, w.tunnel, m);
    InputIsTheFirst(c, y, items, w.history, w.tunnel, m);
  }

  lemma RestComesCloser(c: Codec, w: Wrap, limit: nat)
    requires w.Valid()
    ensures var (o, w1) := PollRest(w);
      && w1.Valid() && w1.history == w.history && w1.readAllData == w.readAllData
      && (o == Polled(Ready(None)) || Distance(w1, limit) < Distance(w, limit))
  {
    RestMovesOn(w);
    RestTakes(w);
  }

  lemma EndComesCloser(c: Codec, y: Bytes, items: seq<Item>, limit: nat, w: Wrap)
    requires Delimits(c, y) && y <= DataOf(items) && StillReading(c, y, items, w) && w.history.Returns() <= limit
    requires IsEnd(CodecRead(c, w.history, w.tunnel).0)
    ensures var (o, w1) := WrapPoll(c, w);
      OnTheWay(c, y, items, limit, w1) && (o == Polled(Ready(None)) || Distance(w1, limit) < Distance(w, limit))
  {
    var m :| ReadUpTo(c, y, items, w.history, w.tunnel, m);
    m := ReadStopsAtBoundary(c, y, items, w.history, w.tunnel, m);
    ReadMovesOn(c, w.history, w.tunnel);
    RestComesCloser(c, AfterRead(c, w), limit);
  }

  lemma DataComesCloser(c: Codec, y: Bytes, items: seq<Item>, limit: nat, w: Wrap)
    requires Delimits(c, y) && y <= DataOf(items) && Bounded(c, DataOf(items), limit) && StillReading(c, y, items, w)
    requires !IsEnd(CodecRead(c, w.history, w.tunnel).0)
    ensures var w1 := WrapPoll(c, w).1;
      OnTheWay(c, y, items, limit, w1) && Distance(w1, limit) < Distance(w, limit)
  {
    var m :| ReadUpTo(c, y, items, w.history, w.tunnel, m);
    m := ReadStopsAtBoundary(c, y, items, w.history, w.tunnel, m);
    ReadMovesOn(c, w.history, w.tunnel);
    PollKeepsReading(c, y, items, w);
    ReadingIsOnTheWay(c, y, items, limit, WrapPoll(c, w).1);
  }

  lemma PollGetsCloser(c: Codec, y: Bytes, items: seq<Item>, limit: nat, w: Wrap, n: nat) returns (w1: Wrap)
    requires Delimits(c, y) && y <= DataOf(items) && Bounded(c, DataOf(items), limit)
    requires OnTheWay(c, y, items, limit, w) && n > 0
    ensures OnTheWay(c, y, items, limit, w1)
    ensures Polled(Ready(None)) in Run(c, w, n).0 ||
            (Distance(w1, limit) < Distance(w, limit)
             && (Polled(Ready(None)) in Run(c, w1, n - 1).0 ==> Polled(Ready(None)) in Run(c, w, n).0))
  {
    w1 := WrapPoll(c, w).1;
    if w.readAllData {
      RestComesCloser(c, w, limit);
    } else if IsEnd(CodecRead(c, w.history, w.tunnel).0) {
      EndComesCloser(c, y, items, limit, w);
    } else {
      DataComesCloser(c, y, items, limit, w);
    }
  }

  lemma {:induction false} RunGetsThere(c: Codec, y: Bytes, items: seq<Item>, limit: nat, w: Wrap, n: nat)
    requires Delimits(c, y) && y <= DataOf(items) && Bounded(c, DataOf(items), limit)
    requires OnTheWay(c, y, items, limit, w) && n > Distance(w, limit)
    ensures Polled(Ready(None)) in Run(c, w, n).0
    decreases n
  {
    var w1 := PollGetsCloser(c, y, items, limit, w, n);
    if Polled(Ready(None)) !in Run(c, w, n).0 {
      RunGetsThere(c, y, items, limit, w1, n - 1);
    }
  }

  /** Progress, trailing bytes or not: a bounded decoder has answered the end after enough polls. So its runs are runs
      to the end. */
  lemma TrailingRunReachesEnd(c: Codec, y: Bytes, body: Script, limit: nat, n: nat)
    requires Delimits(c, y) && Conforms(Items(body)) && y <= DataOf(Items(body)) && Bounded(c, DataOf(Items(body)), limit)
    requires n > 2 * |body| + limit
    ensures Polled(Ready(None)) in Run(c, FreshWrap(body), n).0
  {
    FreshReads(c, y, body);
    ReadingIsOnTheWay(c, y, Items(body), limit, FreshWrap(body));
    RunGetsThere(c, y, Items(body), limit, FreshWrap(body), n);
  }

  // ---------------------------------------------------------------- a decoder whose encoded stream is one byte

  lemma {:induction false} FirstByteReturns(h: History)
    requires Reachable(FirstByteMove, h)
    ensures h.Returns() > 0 ==> h.Input() != []
  {
    if !h.Start? {
      FirstByteReturns(h.before);
    }
  }

  /** The hypothesis can be met. */
  lemma FirstByteDelimits(b: Byte)
    ensures Delimits(FirstByteMove, [b])
  {
    forall h | Reachable(FirstByteMove, h)
      ensures h.Input() < [b] && !h.AtEof() ==> FirstByteMove(h) == Need
      ensures [b] <= h.Input() ==> FirstByteMove(h).Return?
    {
      FirstByteReturns(h);
    }
  }
}
