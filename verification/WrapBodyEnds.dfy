/** How runs of `WrapBody` end: progress, codecs that end early, and bodies without data. */
module WrapBodyEnds {
  import opened Http
  import opened BodyStream
  import opened WrapBody
  import opened WrapBodyRuns
  import opened WrapBodyRefinement

  // ---------------------------------------------------------------- progress

  /** On prefixes of this input, the codec returns bytes at most `limit` times. */
  ghost predicate Bounded(c: Codec, input: Bytes, limit: nat) {
    forall h :: Reachable(c, h) && h.Input() <= input ==> h.Returns() <= limit
  }

  /** What is left to take from the body. A stashed frame weighs less than a frame still in the body. */
  function Weight(s: Split): nat {
    2 * |s.body| + if s.nonDataFrame.Some? then 1 else 0
  }

  lemma {:induction false} ReadMovesOn(c: Codec, h: History, t: Tunnel)
    requires t.inner.Valid()
    ensures var (read, h', t') := CodecRead(c, h, t);
      && Weight(t'.inner) <= Weight(t.inner)
      && (read.Pending? ==> Weight(t'.inner) < Weight(t.inner))
      && h'.Returns() == h.Returns() + (if read.Ready? && read.value.Ok? && read.value.value != [] then 1 else 0)
    decreases |t.inner.body|, !h.AtEof()
  {
    if c(h) == Need {
      var (answer, t1) := t.PollNext();
      TunnelTakes(t);
      if answer.Ready? && !(answer.value.Some? && answer.value.value.Err?) {
        ReadMovesOn(c, Feed(h, answer), t1);
      }
    }
  }

  lemma RestMovesOn(w: Wrap)
    requires w.Valid()
    ensures var (o, w') := PollRest(w);
      && (o != Polled(Ready(None)) ==> Weight(w'.tunnel.inner) < Weight(w.tunnel.inner))
      && Weight(w'.tunnel.inner) <= Weight(w.tunnel.inner)
  {
  }

  /** The distance of a run from its end. */
  function Distance(w: Wrap, limit: nat): int {
    Weight(w.tunnel.inner) + limit - w.history.Returns()
  }

  lemma StaysBounded(c: Codec, input: Bytes, w: Wrap, limit: nat)
    requires Bounded(c, input, limit) && Live(c, input, w)
    ensures Distance(w, limit) >= 0
  {
    if !w.readAllData {
      assert w.history.Input() <= input;
    }
  }

  lemma PollMovesOn(c: Codec, input: Bytes, w: Wrap, limit: nat)
    requires Accepts(c, input) && Live(c, input, w)
    ensures var (o, w') := WrapPoll(c, w);
      o == Polled(Ready(None)) || Distance(w', limit) < Distance(w, limit)
  {
    if w.readAllData {
      RestMovesOn(w);
    } else {
      ReadMovesOn(c, w.history, w.tunnel);
      if IsEnd(CodecRead(c, w.history, w.tunnel).0) {
        EndStartsRest(c, input, w);
        RestMovesOn(AfterRead(c, w));
      } else {
        ReadRefines(c, input, w.history, w.tunnel);
      }
    }
  }

  /** One poll answers the end or comes closer to it. */
  lemma PollComesCloser(c: Codec, input: Bytes, w: Wrap, limit: nat, n: nat) returns (w1: Wrap)
    requires Accepts(c, input) && Live(c, input, w) && n > 0
    ensures Live(c, input, w1)
    ensures Polled(Ready(None)) in Run(c, w, n).0 ||
            (Distance(w1, limit) < Distance(w, limit)
             && (Polled(Ready(None)) in Run(c, w1, n - 1).0 ==> Polled(Ready(None)) in Run(c, w, n).0))
  {
    w1 := WrapPoll(c, w).1;
    PollMovesOn(c, input, w, limit);
    PollRefines(c, input, w);
  }

  /** Progress: after more polls than the distance, the end has been answered. */
  lemma {:induction false} RunReachesEnd(c: Codec, input: Bytes, w: Wrap, limit: nat, n: nat)
    requires Accepts(c, input) && Bounded(c, input, limit) && Live(c, input, w)
    requires n > Distance(w, limit)
    ensures Polled(Ready(None)) in Run(c, w, n).0
    decreases n
  {
    StaysBounded(c, input, w, limit);
    var w1 := PollComesCloser(c, input, w, limit, n);
    if Polled(Ready(None)) !in Run(c, w, n).0 {
      RunReachesEnd(c, input, w1, limit, n - 1);
    }
  }

  // ---------------------------------------------------------------- after the codec has ended

  function AfterCodecAll(items: seq<Item>): seq<Item> {
    if items == [] then [] else [AfterCodec(items[0])] + AfterCodecAll(items[1..])
  }

  lemma AfterCodecCons(first: seq<Item>, rest: seq<Item>)
    requires |first| <= 1
    ensures AfterCodecAll(first + rest) == (if first == [] then [] else [AfterCodec(first[0])]) + AfterCodecAll(rest)
  {
    if first == [] {
      assert first + rest == rest;
    } else {
      assert (first + rest)[1..] == rest;
    }
  }

  /** Once the codec has ended, early or not, every later item of any body comes out in order: a data frame with
      bytes as the error, all else unchanged. */
  lemma {:induction false} RunAfterCodec(c: Codec, w: Wrap, n: nat) returns (taken: seq<Item>)
    requires w.Valid() && w.readAllData
    ensures var (os, w') := Run(c, w, n);
      && w'.Valid() && w'.readAllData && w'.history == w.history
      && w.Left() == taken + w'.Left()
      && Delivered(os) == AfterCodecAll(taken)
    decreases n
  {
    taken := [];
    if n > 0 {
      var (o, w1) := WrapPoll(c, w);
      RestTakes(w);
      var first := AllTaken(RestTaken(w));
      var rest := RunAfterCodec(c, w1, n - 1);
      var (os, w2) := Run(c, w1, n - 1);
      taken := first + rest;
      Regroup(first, rest, w2.Left());
      DeliveredCons(o, os);
      AfterCodecCons(first, rest);
    }
  }

  /** Nothing follows the end: once answered, it is the only answer. This is what a consumer stacked on top may
      rely on. */
  lemma {:induction false} EndIsFinal(c: Codec, w: Wrap, n: nat)
    requires w.Valid() && w.readAllData && PollRest(w).0 == Polled(Ready(None))
    ensures forall i :: 0 <= i < |Run(c, w, n).0| ==> Run(c, w, n).0[i] == Polled(Ready(None))
    decreases n
  {
    if n > 0 {
      EndIsFinal(c, WrapPoll(c, w).1, n - 1);
    }
  }

  /** A decoder whose encoded stream is one byte long: it passes that byte on and ends. */
  function FirstByteMove(h: History): Move {
    if h.Returns() > 0 then Return([])
    else if h.Input() != [] then Return(h.Input()[..1])
    else if h.AtEof() then Return([])
    else Need
  }

  lemma FirstByteFirstPoll(chunk: Bytes, rest: Script)
    requires chunk != []
    ensures WrapPoll(FirstByteMove, FreshWrap([Ready(Ok(Data(chunk)))] + rest))
         == (Polled(Ready(Some(Ok(Data(chunk[..1]))))),
             Wrap(Out(Fed(Start, chunk), chunk[..1]), Tunnel(Split(rest, false, None), None, true), false))
  {
    var body := [Ready(Ok(Data(chunk)))] + rest;
    assert body[1..] == rest;
    var t1 := Tunnel(Split(rest, false, None), None, true);
    assert FreshWrap(body).tunnel.PollNext() == (Ready(Some(Ok(chunk))), t1);
    FirstByteReads(chunk, t1);
  }

  lemma FirstByteReads(chunk: Bytes, t: Tunnel)
    requires chunk != []
    ensures CodecRead(FirstByteMove, Fed(Start, chunk), t)
         == (Ready(Ok(chunk[..1])), Out(Fed(Start, chunk), chunk[..1]), t)
  {
    assert Fed(Start, chunk).Input() == chunk;
    var c: Codec := FirstByteMove;
    var h := Fed(Start, chunk);
    assert h.Returns() == 0;
    assert h.Input() != [];
    assert FirstByteMove(h) == Return(h.Input()[..1]);
    assert c(h) == FirstByteMove(h);
  }

  /** Bytes after the end of the encoded stream are noticed only in a later frame. What follows the end in the
      same chunk, whatever it is, is lost without an error. */
  lemma TrailingBytesDependOnFraming(chunk: Bytes, rest: Script, n: nat) returns (taken: seq<Item>)
    requires chunk != []
    ensures var (os, w) := Run(FirstByteMove, FreshWrap([Ready(Ok(Data(chunk)))] + rest), n + 1);
      && Delivered(os) == [Ok(Data(chunk[..1]))] + AfterCodecAll(taken)
      && Items(rest) == taken + w.Left()
  {
    FirstByteFirstPoll(chunk, rest);
    var (o, w1) := WrapPoll(FirstByteMove, FreshWrap([Ready(Ok(Data(chunk)))] + rest));
    var os := Run(FirstByteMove, w1, n).0;
    DeliveredCons(o, os);
    taken := [];
    if n > 0 {
      var w2 := Wrap(Out(w1.history, []), w1.tunnel, true);
      assert WrapPoll(FirstByteMove, w1) == WrapPoll(FirstByteMove, w2);
      assert Run(FirstByteMove, w1, n) == Run(FirstByteMove, w2, n);
      taken := RunAfterCodec(FirstByteMove, w2, n);
    }
  }

  // ---------------------------------------------------------------- bodies without data

  /** A codec that does not take an empty input for a valid one, as a decoder of a format with a header. */
  ghost predicate RejectsEmpty(c: Codec, kind: nat) {
    forall h :: Reachable(c, h) && h.Input() == [] ==> c(h) == if h.AtEof() then Raise(Kind(kind)) else Need
  }

  predicate NothingYet(c: Codec, w: Wrap) {
    !w.readAllData && w.Valid() && w.history.Input() == [] && !w.tunnel.readSomeData
  }

  /** Without any data frame, such a codec is left out of the run: its error is dropped. */
  lemma {:induction false} ReadOfNothing(c: Codec, h: History, t: Tunnel, kind: nat)
    requires Reachable(c, h) && RejectsEmpty(c, kind) && h.Input() == []
    requires t.inner.Valid() && t.error == None && Conforms(t.inner.Left()) && DataItemsIn(t.inner.Left()) == 0
    ensures var (read, h', t') := CodecRead(c, h, t);
      && h'.Input() == [] && Reachable(c, h')
      && t'.inner.Valid() && t'.error == None && t'.readSomeData == t.readSomeData
      && t'.inner.Left() == t.inner.Left()
      && (read == Pending || read == Ready(Err(Kind(kind))))
    decreases |t.inner.body|, !h.AtEof()
  {
    if c(h) == Need {
      var (answer, t1) := t.PollNext();
      TunnelTakes(t);
      if answer == Ready(None) {
        ReadOfNothing(c, Eof(h), t1, kind);
      }
    }
  }

  function DataItemsIn(items: seq<Item>): nat {
    if items == [] then 0
    else (if items[0].Ok? && items[0].value.Data? then 1 else 0) + DataItemsIn(items[1..])
  }

  lemma PollOfNothing(c: Codec, w: Wrap, kind: nat)
    requires RejectsEmpty(c, kind) && NothingYet(c, w) && Reachable(c, w.history)
    requires Conforms(w.Left()) && DataItemsIn(w.Left()) == 0
    ensures var (o, w') := WrapPoll(c, w);
      && NothingYet(c, w') && Reachable(c, w'.history) && Conforms(w'.Left()) && DataItemsIn(w'.Left()) == 0
      && Quiet(o)
      && w.Left() == ItemOf(o) + w'.Left()
      && (o == Polled(Ready(None)) ==> w.Left() == [])
  {
    ReadOfNothing(c, w.history, w.tunnel, kind);
    var (read, _, t) := CodecRead(c, w.history, w.tunnel);
    if Verdict(read, t) == None {
      RestTakes(AfterRead(c, w));
      var taken := AllTaken(RestTaken(AfterRead(c, w)));
      if taken != [] {
        assert w.Left()[0] == taken[0] && w.Left()[1..] == PollRest(AfterRead(c, w)).1.Left();
      }
    }
  }

  /** A body with no data frame passes unchanged even through a codec that rejects empty input. */
  lemma {:induction false} BodyWithoutDataPasses(c: Codec, w: Wrap, kind: nat, n: nat)
    requires RejectsEmpty(c, kind) && NothingYet(c, w) && Reachable(c, w.history)
    requires Conforms(w.Left()) && DataItemsIn(w.Left()) == 0
    ensures var (os, w') := Run(c, w, n);
      && (forall i :: 0 <= i < |os| ==> Quiet(os[i]))
      && w.Left() == Delivered(os) + w'.Left()
      && (Polled(Ready(None)) in os ==> Delivered(os) == w.Left())
    decreases n
  {
    if n > 0 {
      var (o, w1) := WrapPoll(c, w);
      PollOfNothing(c, w, kind);
      BodyWithoutDataPasses(c, w1, kind, n - 1);
      var (os, w2) := Run(c, w1, n - 1);
      DeliveredCons(o, os);
      Regroup(ItemOf(o), Delivered(os), w2.Left());
    }
  }

  /** Only empty data frames have come or are to come, and at least one. */
  predicate OnlyEmptyData(w: Wrap) {
    && !w.readAllData && w.Valid() && w.history.Input() == []
    && Conforms(w.Left()) && DataOf(w.Left()) == []
    && (w.tunnel.inner.yieldedAllData ==> DataItemsIn(w.Left()) == 0)
    && (w.tunnel.readSomeData || DataItemsIn(w.Left()) > 0)
  }

  lemma DropEmptyData(chunk: Bytes, rest: seq<Item>)
    requires Conforms([Ok(Data(chunk))] + rest) && DataOf([Ok(Data(chunk))] + rest) == []
    ensures chunk == [] && Conforms(rest) && DataOf(rest) == []
  {
    assert ([Ok(Data(chunk))] + rest)[1..] == rest;
  }

  lemma EmptyChunkNext(h: History, t: Tunnel)
    requires OnlyEmptyData(Wrap(h, t, false))
    requires var answer := t.PollNext().0; answer.Ready? && answer.value.Some? && answer.value.value.Ok?
    ensures var (answer, t1) := t.PollNext();
      answer.value.value.value == [] && t1.readSomeData && OnlyEmptyData(Wrap(h, t1, false))
  {
    TunnelTakes(t);
    var (answer, t1) := t.PollNext();
    DropEmptyData(answer.value.value.value, t1.inner.Left());
  }

  lemma NoDataFirst(left: seq<Item>)
    requires Conforms(left) && (left == [] || !left[0].Ok? || !left[0].value.Data?)
    ensures DataItemsIn(left) == 0
  {
    if left != [] {
      assert left[1..] == [];
    }
  }

  lemma EmptyDataEnds(h: History, t: Tunnel)
    requires OnlyEmptyData(Wrap(h, t, false)) && t.PollNext().0 == Ready(None)
    ensures var t1 := t.PollNext().1;
      t1.readSomeData && OnlyEmptyData(Wrap(Eof(h), t1, false))
  {
    TunnelTakes(t);
    if !t.inner.yieldedAllData {
      NoDataFirst(t.inner.Left());
    }
  }

  lemma EmptyDataNext(h: History, t: Tunnel)
    requires OnlyEmptyData(Wrap(h, t, false))
    ensures var (answer, t1) := t.PollNext();
      && OnlyEmptyData(Wrap(Feed(h, answer), t1, false))
      && !(answer.Ready? && answer.value.Some? && answer.value.value.Err?)
      && |t1.inner.body| <= |t.inner.body| && (answer.Pending? ==> |t1.inner.body| < |t.inner.body|)
      && (answer.Ready? && answer.value.Some? ==> answer.value.value.value == [])
      && (answer == Ready(None) ==> t1.readSomeData)
  {
    TunnelTakes(t);
    var answer := t.PollNext().0;
    if answer == Ready(None) {
      EmptyDataEnds(h, t);
    } else if answer.Ready? && answer.value.value.Ok? {
      EmptyChunkNext(h, t);
    }
  }

  lemma {:induction false} ReadOfEmptyData(c: Codec, h: History, t: Tunnel, kind: nat)
    requires Reachable(c, h) && RejectsEmpty(c, kind) && OnlyEmptyData(Wrap(h, t, false))
    requires h.AtEof() ==> t.readSomeData
    ensures var (read, h', t') := CodecRead(c, h, t);
      && Reachable(c, h') && OnlyEmptyData(Wrap(h', t', false)) && (h'.AtEof() ==> t'.readSomeData)
      && (if read.Pending? then |t'.inner.body| < |t.inner.body| else read == Ready(Err(Kind(kind))) && t'.readSomeData)
    decreases |t.inner.body|, !h.AtEof()
  {
    if c(h) == Need {
      var (answer, t1) := t.PollNext();
      EmptyDataNext(h, t);
      if answer.Ready? {
        ReadOfEmptyData(c, Feed(h, answer), t1, kind);
      }
    }
  }

  /** One poll: pending, with an answer of the body used up, or the error. */
  lemma EmptyDataPoll(c: Codec, w: Wrap, kind: nat, n: nat) returns (w1: Wrap)
    requires RejectsEmpty(c, kind) && Reachable(c, w.history) && OnlyEmptyData(w) && n > 0
    requires w.history.AtEof() ==> w.tunnel.readSomeData
    ensures Reachable(c, w1.history) && OnlyEmptyData(w1) && (w1.history.AtEof() ==> w1.tunnel.readSomeData)
    ensures var delivered := Delivered(Run(c, w, n).0);
      || (|w1.tunnel.inner.body| < |w.tunnel.inner.body| && delivered == Delivered(Run(c, w1, n - 1).0))
      || (delivered != [] && delivered[0] == Err(Io(Kind(kind))))
  {
    ReadOfEmptyData(c, w.history, w.tunnel, kind);
    var o;
    o, w1 := WrapPoll(c, w).0, WrapPoll(c, w).1;
    DeliveredCons(o, Run(c, w1, n - 1).0);
  }

  /** One data frame, even an empty one, turns the same body into an error: it is the first item delivered, and
      it is delivered before the polls outnumber the answers of the body. */
  lemma {:induction false} EmptyDataIsRejected(c: Codec, w: Wrap, kind: nat, n: nat)
    requires RejectsEmpty(c, kind) && Reachable(c, w.history) && OnlyEmptyData(w)
    requires w.history.AtEof() ==> w.tunnel.readSomeData
    ensures var os := Run(c, w, n).0;
      && (Delivered(os) != [] ==> Delivered(os)[0] == Err(Io(Kind(kind))))
      && (n > |w.tunnel.inner.body| ==> Delivered(os) != [])
    decreases n
  {
    if n > 0 {
      var w1 := EmptyDataPoll(c, w, kind, n);
      EmptyDataIsRejected(c, w1, kind, n - 1);
    }
  }

  /** A body without bytes gets through a codec that rejects empty input if and only if it has no data frame at
      all: then its trailers come out and no error, and otherwise an error is among the items delivered. */
  lemma EmptyBodyPassesIffNoDataFrame(c: Codec, body: Script, kind: nat, n: nat)
    requires RejectsEmpty(c, kind) && Conforms(Items(body)) && DataOf(Items(body)) == [] && n > |body|
    ensures var items := Delivered(Run(c, FreshWrap(body), n).0);
      && ((forall i :: 0 <= i < |items| ==> items[i].Ok?) <==> DataItemsIn(Items(body)) == 0)
      && (DataItemsIn(Items(body)) == 0 ==> items <= Items(body))
  {
    var w := FreshWrap(body);
    assert w.Left() == Items(body);
    if DataItemsIn(Items(body)) == 0 {
      BodyWithoutDataPasses(c, w, kind, n);
    } else {
      EmptyDataIsRejected(c, w, kind, n);
    }
  }
}
