/** On a body that keeps the contract of `http_body`, `WrapBody` is "transform all data, then the trailers". */
module WrapBodyRefinement {
  import opened Http
  import opened BodyStream
  import opened WrapBody
  import opened WrapBodyRuns

  /** The contract of a body: data frames, then at most one trailers frame, then the end. */
  predicate Conforms(items: seq<Item>) {
    items == [] ||
    (items[0].Ok? && (if items[0].value.Data? then Conforms(items[1..]) else items[0].value.Trailers? && |items| == 1))
  }

  predicate Ends(c: Codec, h: History) {
    c(h).Return? && c(h).bytes == []
  }

  /** In whatever chunks the input comes, the codec neither fails on it nor ends before it has all of it. */
  ghost predicate Accepts(c: Codec, input: Bytes) {
    forall h :: Reachable(c, h) && h.Input() <= input && (h.AtEof() ==> h.Input() == input) ==>
      !c(h).Raise? && (Ends(c, h) ==> h.Input() == input)
  }

  /** The codec can end after reading exactly `input` and returning exactly `output`. */
  ghost predicate Finishes(c: Codec, input: Bytes, output: Bytes) {
    exists h :: Reachable(c, h) && Ends(c, h) && h.Input() == input && h.Output() == output
  }

  // ---------------------------------------------------------------- the invariant of a run

  /** The codec is still reading: what it has read and what the body still holds make up the input. */
  ghost predicate Reading(c: Codec, input: Bytes, h: History, t: Tunnel) {
    && Reachable(c, h)
    && t.inner.Valid() && t.error == None
    && Conforms(t.inner.Left())
    && input == h.Input() + DataOf(t.inner.Left())
    && (h.AtEof() ==> t.inner.yieldedAllData)
    && (t.inner.yieldedAllData ==> DataOf(t.inner.Left()) == [])
  }

  /** The codec has ended, having read the whole input. */
  ghost predicate Ended(c: Codec, input: Bytes, w: Wrap) {
    && w.Valid()
    && Conforms(w.Left()) && DataOf(w.Left()) == []
    && w.history.Out? && w.history.bytes == []
    && Reachable(c, w.history) && w.history.before.Input() == input
  }

  ghost predicate Live(c: Codec, input: Bytes, w: Wrap) {
    if w.readAllData then Ended(c, input, w) else Reading(c, input, w.history, w.tunnel)
  }

  lemma ConformsNext(s: Split)
    requires s.Valid() && Conforms(s.Left())
    requires s.yieldedAllData ==> DataOf(s.Left()) == []
    ensures var (answer, s') := s.PollNext();
      && s'.Valid() && Conforms(s'.Left())
      && !(answer.Ready? && answer.value.Some? && answer.value.value.Err?)
      && (s.yieldedAllData ==> s'.yieldedAllData) && (answer == Ready(None) ==> s'.yieldedAllData)
      && (s'.yieldedAllData ==> DataOf(s'.Left()) == [])
      && Signals(s'.Left()) == Signals(s.Left())
      && DataOf(s.Left()) == (if answer.Ready? && answer.value.Some? then answer.value.value.value else []) + DataOf(s'.Left())
  {
    NextKeepsItems(s);
    var (answer, s') := s.PollNext();
    if answer.Ready? && answer.value.Some? {
      assert s.Left()[1..] == s'.Left();
    } else {
      assert s.Left() == s'.Left();
    }
  }

  /** The history after one answer of the stream. */
  function Feed(h: History, answer: Poll<Option<Result<Bytes, IoError>>>): History {
    match answer
    case Ready(None) => Eof(h)
    case Ready(Some(Ok(chunk))) => if chunk == [] then h else Fed(h, chunk)
    case _ => h
  }

  function Chunk(answer: Poll<Option<Result<Bytes, IoError>>>): Bytes {
    match answer
    case Ready(Some(Ok(chunk))) => chunk
    case _ => []
  }

  lemma FeedReads(c: Codec, h: History, answer: Poll<Option<Result<Bytes, IoError>>>, rest: Bytes)
    requires Reachable(c, h) && c(h) == Need
    ensures Reachable(c, Feed(h, answer))
    ensures Feed(h, answer).AtEof() <==> answer == Ready(None)
    ensures h.Input() + (Chunk(answer) + rest) == Feed(h, answer).Input() + rest
  {
    assert !h.AtEof();
    Regroup(h.Input(), Chunk(answer), rest);
  }

  lemma TunnelConforms(t: Tunnel)
    requires t.inner.Valid() && t.error == None && Conforms(t.inner.Left())
    requires t.inner.yieldedAllData ==> DataOf(t.inner.Left()) == []
    ensures var (answer, t1) := t.PollNext();
      && t1.inner.Valid() && t1.error == None && Conforms(t1.inner.Left())
      && !(answer.Ready? && answer.value.Some? && answer.value.value.Err?)
      && (t.inner.yieldedAllData || answer == Ready(None) ==> t1.inner.yieldedAllData)
      && (t1.inner.yieldedAllData ==> DataOf(t1.inner.Left()) == [])
      && Signals(t1.inner.Left()) == Signals(t.inner.Left())
      && DataOf(t.inner.Left()) == Chunk(answer) + DataOf(t1.inner.Left())
  {
    ConformsNext(t.inner);
  }

  lemma ReadingNext(c: Codec, input: Bytes, h: History, t: Tunnel)
    requires Reading(c, input, h, t) && c(h) == Need
    ensures var (answer, t1) := t.PollNext();
      && Reading(c, input, Feed(h, answer), t1)
      && Signals(t1.inner.Left()) == Signals(t.inner.Left())
      && !(answer.Ready? && answer.value.Some? && answer.value.value.Err?)
  {
    TunnelConforms(t);
    var (answer, t1) := t.PollNext();
    FeedReads(c, h, answer, DataOf(t1.inner.Left()));
  }

  lemma HasReadPrefix(c: Codec, input: Bytes, h: History, t: Tunnel)
    requires Accepts(c, input) && Reading(c, input, h, t)
    ensures !c(h).Raise? && (Ends(c, h) ==> h.Input() == input)
  {
    assert h.Input() <= input;
  }

  /** What a read leaves: the invariant, no failure, and an end only with all of the input read. */
  ghost predicate ReadsOn(c: Codec, input: Bytes, t: Tunnel, read: (Poll<Result<Bytes, IoError>>, History, Tunnel)) {
    && Reading(c, input, read.1, read.2)
    && Signals(read.2.inner.Left()) == Signals(t.inner.Left())
    && (read.0.Ready? ==> read.0.value.Ok? && read.1.Out? && read.1.bytes == read.0.value.value
                          && (IsEnd(read.0) ==> read.1.before.Input() == input))
  }

  lemma ReadStops(c: Codec, input: Bytes, h: History, t: Tunnel)
    requires Accepts(c, input) && Reading(c, input, h, t) && c(h) != Need
    ensures ReadsOn(c, input, t, CodecRead(c, h, t))
  {
    HasReadPrefix(c, input, h, t);
  }

  lemma ReadNeeds(c: Codec, h: History, t: Tunnel)
    requires c(h) == Need
    requires !(t.PollNext().0.Ready? && t.PollNext().0.value.Some? && t.PollNext().0.value.value.Err?)
    ensures var (answer, t1) := t.PollNext();
      CodecRead(c, h, t) == if answer.Pending? then (Pending, h, t1) else CodecRead(c, Feed(h, answer), t1)
  {
  }

  /** Reading keeps the invariant, never fails, and ends only with all of the input read. */
  lemma {:induction false} ReadRefines(c: Codec, input: Bytes, h: History, t: Tunnel)
    requires Accepts(c, input) && Reading(c, input, h, t)
    ensures ReadsOn(c, input, t, CodecRead(c, h, t))
    decreases |t.inner.body|, !h.AtEof()
  {
    if c(h) != Need {
      ReadStops(c, input, h, t);
    } else {
      var (answer, t1) := t.PollNext();
      ReadingNext(c, input, h, t);
      ReadNeeds(c, h, t);
      if answer.Ready? {
        ReadRefines(c, input, Feed(h, answer), t1);
      }
    }
  }

  /** What every answer of a run is: no panic, no error. */
  predicate Quiet(o: Outcome) {
    o.Polled? && forall i :: 0 <= i < |ItemOf(o)| ==> ItemOf(o)[i].Ok?
  }

  /** A poll past the codec delivers an empty data frame, the trailers, or the end. */
  lemma RestRefines(c: Codec, input: Bytes, w: Wrap)
    requires w.readAllData && Ended(c, input, w)
    ensures var (o, w') := PollRest(w);
      && w'.readAllData && Ended(c, input, w')
      && Quiet(o) && Conforms(ItemOf(o))
      && Signals(w.Left()) == Signals(ItemOf(o)) + Signals(w'.Left())
      && (w.Left() == [] || Signals(ItemOf(o)) != [] ==> w'.Left() == [])
      && (o == Polled(Ready(None)) ==> w.Left() == [])
      && (w.Left() == [] ==> ItemOf(o) == [])
  {
    RestTakes(w);
    var taken := AllTaken(RestTaken(w));
    var w' := PollRest(w).1;
    if taken != [] {
      assert w.Left()[0] == taken[0] && w.Left()[1..] == w'.Left();
    } else {
      assert w.Left() == w'.Left();
    }
  }

  /** The codec has ended and the body has nothing left. */
  predicate Done(w: Wrap) {
    w.readAllData && w.Left() == []
  }

  lemma PollRefines(c: Codec, input: Bytes, w: Wrap)
    requires Accepts(c, input) && Live(c, input, w)
    ensures var (o, w') := WrapPoll(c, w);
      && Live(c, input, w')
      && Quiet(o) && Conforms(ItemOf(o))
      && Signals(w.Left()) == Signals(ItemOf(o)) + Signals(w'.Left())
      && (Signals(ItemOf(o)) != [] || o == Polled(Ready(None)) ==> Done(w'))
      && (Done(w) ==> ItemOf(o) == [] && Done(w'))
  {
    if w.readAllData {
      RestRefines(c, input, w);
    } else if IsEnd(CodecRead(c, w.history, w.tunnel).0) {
      EndStartsRest(c, input, w);
      RestRefines(c, input, AfterRead(c, w));
    } else {
      DataRefines(c, input, w);
    }
  }

  lemma DataRefines(c: Codec, input: Bytes, w: Wrap)
    requires Accepts(c, input) && !w.readAllData && Live(c, input, w) && !IsEnd(CodecRead(c, w.history, w.tunnel).0)
    ensures var (o, w') := WrapPoll(c, w);
      && !w'.readAllData && Live(c, input, w')
      && Quiet(o) && Conforms(ItemOf(o)) && Signals(ItemOf(o)) == [] && o != Polled(Ready(None))
      && Signals(w.Left()) == Signals(w'.Left())
  {
    ReadRefines(c, input, w.history, w.tunnel);
  }

  lemma EndStartsRest(c: Codec, input: Bytes, w: Wrap)
    requires Accepts(c, input) && !w.readAllData && Live(c, input, w) && IsEnd(CodecRead(c, w.history, w.tunnel).0)
    ensures AfterRead(c, w).readAllData && Ended(c, input, AfterRead(c, w))
    ensures WrapPoll(c, w) == PollRest(AfterRead(c, w))
    ensures Signals(AfterRead(c, w).Left()) == Signals(w.Left())
  {
    ReadRefines(c, input, w.history, w.tunnel);
    var (_, h, t) := CodecRead(c, w.history, w.tunnel);
    LengthsAddUp(h.Input(), DataOf(t.inner.Left()));
  }

  lemma LengthsAddUp(a: Bytes, b: Bytes)
    ensures a == a + b ==> b == []
  {
    assert |a + b| == |a| + |b|;
  }

  lemma {:induction false} RunStaysLive(c: Codec, input: Bytes, w: Wrap, n: nat)
    requires Accepts(c, input) && Live(c, input, w)
    ensures var (os, w') := Run(c, w, n);
      && Live(c, input, w')
      && (forall i :: 0 <= i < |os| ==> Quiet(os[i]))
      && (Polled(Ready(None)) in os || Done(w) ==> Done(w'))
    decreases n
  {
    if n > 0 {
      PollRefines(c, input, w);
      RunStaysLive(c, input, WrapPoll(c, w).1, n - 1);
    }
  }

  ghost function LiveOn(c: Codec, input: Bytes): Wrap -> bool {
    w => Live(c, input, w)
  }

  /** The answers of a run as far as the contract of a body goes. */
  predicate AnswersConform(w: Wrap, os: seq<Outcome>) {
    Conforms(Delivered(os)) && (Done(w) ==> Delivered(os) == [])
  }

  lemma PollConforms(c: Codec, input: Bytes, w: Wrap, rest: seq<Outcome>)
    requires Accepts(c, input) && Live(c, input, w) && AnswersConform(WrapPoll(c, w).1, rest)
    ensures AnswersConform(w, [WrapPoll(c, w).0] + rest)
  {
    PollRefines(c, input, w);
    DeliveredCons(WrapPoll(c, w).0, rest);
    ConformsCons(ItemOf(WrapPoll(c, w).0), Delivered(rest));
  }

  /** Over any number of polls: what comes out keeps the contract of a body. */
  lemma RunConforms(c: Codec, input: Bytes, w: Wrap, n: nat)
    requires Accepts(c, input) && Live(c, input, w)
    ensures AnswersConform(w, Run(c, w, n).0)
  {
    forall a: Wrap, rest: seq<Outcome> ensures PollBuilds(c, LiveOn(c, input), AnswersConform, a, rest) {
      if Live(c, input, a) {
        PollRefines(c, input, a);
        if AnswersConform(WrapPoll(c, a).1, rest) {
          PollConforms(c, input, a, rest);
        }
      }
    }
    RunBuilds(c, LiveOn(c, input), AnswersConform, w, n);
  }

  lemma ConformsCons(first: seq<Item>, rest: seq<Item>)
    requires |first| <= 1 && Conforms(first) && Conforms(rest) && (Signals(first) != [] ==> rest == [])
    ensures Conforms(first + rest)
  {
    if first == [] {
      assert first + rest == rest;
    } else {
      assert (first + rest)[1..] == rest;
    }
  }

  lemma DoneFinishes(c: Codec, input: Bytes, w: Wrap)
    requires Live(c, input, w) && Done(w)
    ensures Finishes(c, input, w.history.Output())
  {
    var h := w.history.before;
    assert Reachable(c, h) && Ends(c, h) && h.Input() == input && h.Output() == w.history.Output();
  }

  lemma FreshIsLive(c: Codec, body: Script)
    requires Conforms(Items(body)) && Accepts(c, DataOf(Items(body)))
    ensures Live(c, DataOf(Items(body)), FreshWrap(body)) && FreshWrap(body).Left() == Items(body)
  {
    assert FreshWrap(body).Left() == Items(body);
  }

  /** `WrapBody` refines "transform all data, then the trailers": over any number of polls and any schedule of
      pending polls, on any body that keeps the contract, only frames come out. They keep the contract, their
      signals are those of the body, and once the end is answered they are complete and their data is what the
      codec makes of all the data of the body. */
  lemma Refines(c: Codec, body: Script, n: nat)
    requires Conforms(Items(body)) && Accepts(c, DataOf(Items(body)))
    ensures var (os, w) := Run(c, FreshWrap(body), n);
      && (forall i :: 0 <= i < |os| ==> Quiet(os[i]))
      && Conforms(Delivered(os))
      && Signals(Delivered(os)) <= Signals(Items(body))
      && DataOf(Delivered(os)) == w.history.Output()
      && (Polled(Ready(None)) in os ==>
            && Signals(Delivered(os)) == Signals(Items(body))
            && Finishes(c, DataOf(Items(body)), DataOf(Delivered(os))))
  {
    var w0 := FreshWrap(body);
    var input := DataOf(Items(body));
    FreshIsLive(c, body);
    RunStaysLive(c, input, w0, n);
    RunConforms(c, input, w0, n);
    RunConserves(c, w0, n);
    var (os, w) := Run(c, w0, n);
    if Polled(Ready(None)) in os {
      DoneFinishes(c, input, w);
    }
  }
}
