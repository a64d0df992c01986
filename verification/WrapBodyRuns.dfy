/** Whole runs of `WrapBody`: what is delivered over any number of polls, for any codec and any body. */
module WrapBodyRuns {
  import opened Http
  import opened BodyStream
  import opened WrapBody

  /** The answers to `n` polls, and the state after them. */
  function Run(c: Codec, w: Wrap, n: nat): (seq<Outcome>, Wrap)
    decreases n
  {
    if n == 0 then ([], w)
    else
      var (o, w1) := WrapPoll(c, w);
      var (os, w2) := Run(c, w1, n - 1);
      ([o] + os, w2)
  }

  lemma {:induction false} RunLength(c: Codec, w: Wrap, n: nat)
    ensures |Run(c, w, n).0| == n
    decreases n
  {
    if n > 0 {
      RunLength(c, WrapPoll(c, w).1, n - 1);
    }
  }

  function ItemOf(o: Outcome): seq<Item> {
    if o.Polled? && o.answer.Ready? && o.answer.value.Some? then [o.answer.value.value] else []
  }

  /** The items among the answers, in order. */
  function Delivered(os: seq<Outcome>): seq<Item> {
    if os == [] then [] else ItemOf(os[0]) + Delivered(os[1..])
  }

  /** The bytes of the data frames. */
  function DataOf(items: seq<Item>): Bytes {
    if items == [] then []
    else (if items[0].Ok? && items[0].value.Data? then items[0].value.bytes else []) + DataOf(items[1..])
  }

  /** An item that only the inner body can have produced: a frame other than data, or an error that is
      not one of `WrapBody`'s own. */
  predicate IsSignal(item: Item) {
    match item
    case Ok(frame) => !frame.Data?
    case Err(e) => e.Source?
  }

  function Signals(items: seq<Item>): seq<Item> {
    if items == [] then []
    else (if IsSignal(items[0]) then [items[0]] else []) + Signals(items[1..])
  }

  lemma {:induction false} DataOfConcat(a: seq<Item>, b: seq<Item>)
    ensures DataOf(a + b) == DataOf(a) + DataOf(b)
  {
    if a == [] {
      assert a + b == b;
    } else {
      assert (a + b)[1..] == a[1..] + b;
      DataOfConcat(a[1..], b);
    }
  }

  lemma DataGrows(a: seq<Item>, b: seq<Item>)
    requires a <= b
    ensures DataOf(a) <= DataOf(b)
  {
    assert b == a + b[|a|..];
    DataOfConcat(a, b[|a|..]);
  }

  lemma {:induction false} SignalsConcat(a: seq<Item>, b: seq<Item>)
    ensures Signals(a + b) == Signals(a) + Signals(b)
  {
    if a == [] {
      assert a + b == b;
    } else {
      assert (a + b)[1..] == a[1..] + b;
      SignalsConcat(a[1..], b);
      Regroup(if IsSignal(a[0]) then [a[0]] else [], Signals(a[1..]), Signals(b));
    }
  }

  // ---------------------------------------------------------------- any codec, any body

  function DataItems(chunks: seq<Bytes>): seq<Item> {
    if chunks == [] then [] else [Ok(Data(chunks[0]))] + DataItems(chunks[1..])
  }

  lemma {:induction false} DataItemsHaveNoSignals(chunks: seq<Bytes>)
    ensures Signals(DataItems(chunks)) == []
  {
    if chunks != [] {
      DataItemsHaveNoSignals(chunks[1..]);
    }
  }

  /** The error stored while reading, as the item it was. */
  function StoredError(t: Tunnel): seq<Item> {
    if t.error.Some? then [Err(t.error.value)] else []
  }

  /** One step of the stream under the codec. */
  lemma TunnelTakes(t: Tunnel)
    requires t.inner.Valid()
    ensures var (answer, t') := t.PollNext();
      && t'.inner.Valid()
      && (answer.Pending? || answer == Ready(None) ==> t'.inner.Left() == t.inner.Left() && t' == t.(inner := t'.inner))
      && (answer.Ready? && answer.value.Some? ==>
            match answer.value.value
            case Ok(bytes) => t.inner.Left() == [Ok(Data(bytes))] + t'.inner.Left() && t' == Tunnel(t'.inner, t.error, true)
            case Err(_) => t'.error.Some? && t.inner.Left() == [Err(t'.error.value)] + t'.inner.Left()
                           && t'.readSomeData == t.readSomeData)
  {
    ServeKeepsItems(t.inner, Next);
  }

  /** The chunks, empty ones included, that one read takes from the body. */
  function ChunksRead(c: Codec, h: History, t: Tunnel): seq<Bytes>
    decreases |t.inner.body|, !h.AtEof()
  {
    if c(h) != Need then []
    else
      var (answer, t1) := t.PollNext();
      match answer
      case Ready(None) => ChunksRead(c, Eof(h), t1)
      case Ready(Some(Ok(chunk))) => [chunk] + ChunksRead(c, if chunk == [] then h else Fed(h, chunk), t1)
      case _ => []
  }

  lemma {:induction false} ReadTakesItems(c: Codec, h: History, t: Tunnel)
    requires t.inner.Valid() && t.error == None
    ensures var t' := CodecRead(c, h, t).2;
      && t'.inner.Valid()
      && t.inner.Left() == DataItems(ChunksRead(c, h, t)) + (StoredError(t') + t'.inner.Left())
    decreases |t.inner.body|, !h.AtEof()
  {
    if c(h) == Need {
      var (answer, t1) := t.PollNext();
      TunnelTakes(t);
      if answer == Ready(None) {
        ReadTakesItems(c, Eof(h), t1);
      } else if answer.Ready? && answer.value.value.Ok? {
        var chunk := answer.value.value.value;
        var h1 := if chunk == [] then h else Fed(h, chunk);
        ReadTakesItems(c, h1, t1);
        DataItemsCons(chunk, ChunksRead(c, h1, t1), StoredError(CodecRead(c, h1, t1).2) + CodecRead(c, h1, t1).2.inner.Left());
      }
    }
  }

  lemma DataItemsCons(chunk: Bytes, more: seq<Bytes>, rest: seq<Item>)
    ensures DataItems([chunk] + more) + rest == [Ok(Data(chunk))] + (DataItems(more) + rest)
  {
    assert ([chunk] + more)[1..] == more;
  }

  function Concat(chunks: seq<Bytes>): Bytes {
    if chunks == [] then [] else chunks[0] + Concat(chunks[1..])
  }

  lemma FeedFirst(input: Bytes, chunk: Bytes, more: seq<Bytes>)
    ensures input + Concat([chunk] + more) == (input + chunk) + Concat(more)
  {
    assert ([chunk] + more)[1..] == more;
  }

  lemma {:induction false} ReadFeeds(c: Codec, h: History, t: Tunnel)
    ensures CodecRead(c, h, t).1.Input() == h.Input() + Concat(ChunksRead(c, h, t))
    decreases |t.inner.body|, !h.AtEof()
  {
    if c(h) == Need {
      var (answer, t1) := t.PollNext();
      if answer == Ready(None) {
        ReadFeeds(c, Eof(h), t1);
      } else if answer.Ready? && answer.value.value.Ok? {
        var chunk := answer.value.value.value;
        var h1 := if chunk == [] then h else Fed(h, chunk);
        ReadFeeds(c, h1, t1);
        FeedFirst(h.Input(), chunk, ChunksRead(c, h1, t1));
        assert h1.Input() == h.Input() + chunk;
      }
    }
  }

  lemma {:induction false} ReadSome(c: Codec, h: History, t: Tunnel)
    ensures CodecRead(c, h, t).2.readSomeData == (t.readSomeData || ChunksRead(c, h, t) != [])
    decreases |t.inner.body|, !h.AtEof()
  {
    if c(h) == Need {
      var (answer, t1) := t.PollNext();
      if answer == Ready(None) {
        ReadSome(c, Eof(h), t1);
      } else if answer.Ready? && answer.value.value.Ok? {
        var chunk := answer.value.value.value;
        ReadSome(c, if chunk == [] then h else Fed(h, chunk), t1);
      }
    }
  }

  /** One read returns what the codec outputs, and fails either with the sentinel for a stored error or with
      what the codec itself raised. */
  lemma {:induction false} ReadAnswers(c: Codec, h: History, t: Tunnel)
    requires t.error == None && Reachable(c, h)
    ensures var (read, h', t') := CodecRead(c, h, t);
      && Reachable(c, h')
      && h'.Output() == h.Output() + (if read.Ready? && read.value.Ok? then read.value.value else [])
      && (read.Ready? && read.value.Ok? ==> h'.Out? && h'.bytes == read.value.value)
      && (t'.error.Some? ==> read == Ready(Err(RawOs(SENTINEL_ERROR_CODE))) && h'.Failures() == h.Failures())
      && (t'.error == None && read.Ready? && read.value.Err? ==>
            h'.Failed? && h'.Failures() == h.Failures() + 1 && c(h'.before) == Raise(read.value.error))
      && (read.Pending? || read.value.Ok? ==> t'.error == None && h'.Failures() == h.Failures())
    decreases |t.inner.body|, !h.AtEof()
  {
    if c(h) == Need {
      var (answer, t1) := t.PollNext();
      if answer == Ready(None) {
        ReadAnswers(c, Eof(h), t1);
      } else if answer.Ready? && answer.value.value.Ok? {
        var chunk := answer.value.value.value;
        ReadAnswers(c, if chunk == [] then h else Fed(h, chunk), t1);
      }
    }
  }

  /** An item taken from the body, and whether it was read by the codec or handed on past it. */
  datatype Taken = Taken(item: Item, fed: bool)

  function ItemTaken(t: Taken): seq<Item> {
    [t.item]
  }

  function ItemFed(t: Taken): seq<Item> {
    if t.fed then [t.item] else []
  }

  function ItemPassed(t: Taken): seq<Item> {
    if t.fed then [] else [AfterCodec(t.item)]
  }

  function AllTaken(taken: seq<Taken>): seq<Item> {
    Select(taken, ItemTaken)
  }

  /** What the codec has read of it. */
  function AllFed(taken: seq<Taken>): seq<Item> {
    Select(taken, ItemFed)
  }

  /** What the consumer gets of the rest. */
  function AllPassed(taken: seq<Taken>): seq<Item> {
    Select(taken, ItemPassed)
  }

  /** Nothing for what a codec can deliver: bytes and I/O errors. */
  function OfBody(item: Item): seq<Item> {
    match item
    case Ok(Data(bytes)) => if bytes == [] then [item] else []
    case Err(Io(_)) => []
    case _ => [item]
  }

  /** Items that the consumer can only have from the body. */
  function FromBody(items: seq<Item>): seq<Item> {
    Select(items, OfBody)
  }

  function FedChunks(chunks: seq<Bytes>): seq<Taken> {
    if chunks == [] then [] else [Taken(Ok(Data(chunks[0])), true)] + FedChunks(chunks[1..])
  }

  /** What the codec's part of a poll takes from the body. */
  function ReadTaken(c: Codec, w: Wrap): seq<Taken> {
    var t := CodecRead(c, w.history, w.tunnel).2;
    FedChunks(ChunksRead(c, w.history, w.tunnel)) + if t.error.Some? then [Taken(Err(t.error.value), false)] else []
  }

  /** What the part of a poll past the codec takes. */
  function RestTaken(w: Wrap): seq<Taken> {
    var item := Serve(w.tunnel.inner, WholeFrame).0;
    if item.Some? then [Taken(item.value, false)] else []
  }

  function PollTaken(c: Codec, w: Wrap): seq<Taken> {
    if w.readAllData then RestTaken(w)
    else
      var (read, _, t) := CodecRead(c, w.history, w.tunnel);
      ReadTaken(c, w) + if Verdict(read, t) == None then RestTaken(AfterRead(c, w)) else []
  }

  function RunTaken(c: Codec, w: Wrap, n: nat): seq<Taken>
    decreases n
  {
    if n == 0 then [] else PollTaken(c, w) + RunTaken(c, WrapPoll(c, w).1, n - 1)
  }

  /** The books of a stretch of a run: what was taken from the body, in order, is what has left it; what is fed of
      it is the new input of the codec; and what is passed is delivered. */
  predicate Accounts(w: Wrap, taken: seq<Taken>, delivered: seq<Item>, w': Wrap) {
    && w.Left() == AllTaken(taken) + w'.Left()
    && w'.history.Input() == w.history.Input() + DataOf(AllFed(taken))
    && FromBody(delivered) == FromBody(AllPassed(taken))
    && Signals(delivered) == Signals(AllTaken(taken))
  }

  lemma TakenJoined(a: seq<Taken>, b: seq<Taken>)
    ensures AllTaken(a + b) == AllTaken(a) + AllTaken(b)
    ensures DataOf(AllFed(a + b)) == DataOf(AllFed(a)) + DataOf(AllFed(b))
    ensures FromBody(AllPassed(a + b)) == FromBody(AllPassed(a)) + FromBody(AllPassed(b))
    ensures Signals(AllTaken(a + b)) == Signals(AllTaken(a)) + Signals(AllTaken(b))
  {
    SelectJoined(a, b, ItemTaken);
    SelectJoined(a, b, ItemFed);
    SelectJoined(a, b, ItemPassed);
    DataOfConcat(AllFed(a), AllFed(b));
    SelectJoined(AllPassed(a), AllPassed(b), OfBody);
    SignalsConcat(AllTaken(a), AllTaken(b));
  }

  lemma AccountsJoined(w: Wrap, a: seq<Taken>, some: seq<Item>, w1: Wrap, b: seq<Taken>, more: seq<Item>, w2: Wrap)
    requires Accounts(w, a, some, w1) && Accounts(w1, b, more, w2)
    ensures Accounts(w, a + b, some + more, w2)
  {
    TakenJoined(a, b);
    SelectJoined(some, more, OfBody);
    SignalsConcat(some, more);
    Regroup(AllTaken(a), AllTaken(b), w2.Left());
    Regroup(w.history.Input(), DataOf(AllFed(a)), DataOf(AllFed(b)));
  }

  lemma {:induction false} FedChunksAreFed(chunks: seq<Bytes>)
    ensures AllTaken(FedChunks(chunks)) == DataItems(chunks) == AllFed(FedChunks(chunks))
    ensures DataOf(AllFed(FedChunks(chunks))) == Concat(chunks)
    ensures AllPassed(FedChunks(chunks)) == []
  {
    if chunks != [] {
      FedChunksAreFed(chunks[1..]);
      assert FedChunks(chunks)[1..] == FedChunks(chunks[1..]);
      assert DataItems(chunks)[1..] == DataItems(chunks[1..]);
    }
  }

  lemma OneTaken(item: Item)
    ensures var taken := [Taken(item, false)];
      && AllTaken(taken) == [item] && AllFed(taken) == [] && AllPassed(taken) == [AfterCodec(item)]
      && Signals([AfterCodec(item)]) == Signals([item])
  {
    SelectOne(Taken(item, false), ItemTaken);
    SelectOne(Taken(item, false), ItemFed);
    SelectOne(Taken(item, false), ItemPassed);
  }

  /** The part of a poll that looks past the codec takes at most one item. */
  lemma RestTakes(w: Wrap)
    requires w.Valid()
    ensures var (o, w') := PollRest(w); var taken := AllTaken(RestTaken(w));
      && w'.Valid() && w' == Wrap(w.history, Tunnel(w'.tunnel.inner, None, w.tunnel.readSomeData), w.readAllData)
      && w.Left() == taken + w'.Left()
      && |taken| <= 1
      && o.Polled?
      && ItemOf(o) == (if taken == [] then [] else [AfterCodec(taken[0])])
      && (o == Polled(Ready(None)) ==> w.Left() == [])
  {
    ServeKeepsItems(w.tunnel.inner, WholeFrame);
    var item := Serve(w.tunnel.inner, WholeFrame).0;
    if item.Some? {
      OneTaken(item.value);
    }
    if w.tunnel.inner.PollFrame().0 == Ready(None) {
      EndedHasNothing(w.tunnel.inner);
    }
  }

  lemma RestAccounts(w: Wrap)
    requires w.Valid()
    ensures var (o, w') := PollRest(w);
      && w'.Valid() && w'.history == w.history && DataOf(ItemOf(o)) == []
      && Accounts(w, RestTaken(w), ItemOf(o), w')
  {
    ServeKeepsItems(w.tunnel.inner, WholeFrame);
    var item := Serve(w.tunnel.inner, WholeFrame).0;
    if item.Some? {
      OneTaken(item.value);
    }
  }

  /** What the codec's part of a poll delivers, when the poll ends there. */
  function ReadDelivered(c: Codec, w: Wrap): seq<Item> {
    var (read, _, t) := CodecRead(c, w.history, w.tunnel);
    match Verdict(read, t)
    case Some(o) => ItemOf(o)
    case None => []
  }

  lemma ErrorTaken(t: Tunnel)
    ensures var taken := if t.error.Some? then [Taken(Err(t.error.value), false)] else [];
      && AllTaken(taken) == StoredError(t) && DataOf(AllFed(taken)) == [] && AllPassed(taken) == StoredError(t)
  {
    if t.error.Some? {
      OneTaken(Err(t.error.value));
    }
  }

  /** What the verdict delivers of the body is the stored error and nothing else. */
  lemma VerdictDelivers(c: Codec, w: Wrap)
    requires w.Valid()
    ensures var t := CodecRead(c, w.history, w.tunnel).2;
      && FromBody(ReadDelivered(c, w)) == FromBody(StoredError(t))
      && Signals(ReadDelivered(c, w)) == Signals(StoredError(t))
  {
    var (read, _, t) := CodecRead(c, w.history, w.tunnel);
    StoredErrorIsTheVerdict(c, w.history, w.tunnel);
    if t.error == None && ReadDelivered(c, w) != [] {
      SelectOne(ReadDelivered(c, w)[0], OfBody);
    }
  }

  lemma ReadTakenIs(c: Codec, w: Wrap)
    requires w.Valid()
    ensures var t := CodecRead(c, w.history, w.tunnel).2; var taken := ReadTaken(c, w);
      && AllTaken(taken) == DataItems(ChunksRead(c, w.history, w.tunnel)) + StoredError(t)
      && DataOf(AllFed(taken)) == Concat(ChunksRead(c, w.history, w.tunnel))
      && FromBody(AllPassed(taken)) == FromBody(StoredError(t))
      && Signals(AllTaken(taken)) == Signals(StoredError(t))
  {
    var t := CodecRead(c, w.history, w.tunnel).2;
    var chunks := ChunksRead(c, w.history, w.tunnel);
    var error := if t.error.Some? then [Taken(Err(t.error.value), false)] else [];
    TakenJoined(FedChunks(chunks), error);
    FedChunksAreFed(chunks);
    ErrorTaken(t);
    DataItemsHaveNoSignals(chunks);
  }

  lemma ReadAccounts(c: Codec, w: Wrap)
    requires w.Valid()
    ensures AfterRead(c, w).Valid() && Accounts(w, ReadTaken(c, w), ReadDelivered(c, w), AfterRead(c, w))
  {
    var t := CodecRead(c, w.history, w.tunnel).2;
    ReadTakesItems(c, w.history, w.tunnel);
    ReadFeeds(c, w.history, w.tunnel);
    ReadTakenIs(c, w);
    VerdictDelivers(c, w);
    Regroup(DataItems(ChunksRead(c, w.history, w.tunnel)), StoredError(t), t.inner.Left());
  }

  /** The codec's part outputs what it delivers. */
  lemma ReadOutputs(c: Codec, w: Wrap)
    requires w.Valid() && Reachable(c, w.history)
    ensures var w1 := AfterRead(c, w);
      Reachable(c, w1.history) && w1.history.Output() == w.history.Output() + DataOf(ReadDelivered(c, w))
  {
    ReadAnswers(c, w.history, w.tunnel);
    var read := CodecRead(c, w.history, w.tunnel).0;
    if read.Ready? && read.value.Ok? && read.value.value != [] {
      assert ReadDelivered(c, w) == [Ok(Data(read.value.value))];
      assert DataOf(ReadDelivered(c, w)) == read.value.value;
    } else {
      assert DataOf(ReadDelivered(c, w)) == [];
    }
  }

  /** One poll, for any codec and body: everything it takes from the body is either fed to the codec, in order, or
      is what the poll delivers; errors and trailers are delivered by the poll that takes them. */
  lemma PollAccounts(c: Codec, w: Wrap)
    requires w.Valid()
    ensures var (o, w') := WrapPoll(c, w);
      w'.Valid() && Accounts(w, PollTaken(c, w), ItemOf(o), w')
  {
    if w.readAllData {
      RestAccounts(w);
    } else {
      var (read, _, t) := CodecRead(c, w.history, w.tunnel);
      ReadAccounts(c, w);
      if Verdict(read, t) == None {
        PollPastCodec(c, w);
      } else {
        assert ReadTaken(c, w) + [] == ReadTaken(c, w);
      }
    }
  }

  lemma PollPastCodec(c: Codec, w: Wrap)
    requires w.Valid() && AfterRead(c, w).Valid() && Accounts(w, ReadTaken(c, w), [], AfterRead(c, w))
    ensures var w1 := AfterRead(c, w); var (o, w') := PollRest(w1);
      w'.Valid() && Accounts(w, ReadTaken(c, w) + RestTaken(w1), ItemOf(o), w')
  {
    var w1 := AfterRead(c, w);
    var (o, w') := PollRest(w1);
    RestAccounts(w1);
    AccountsJoined(w, ReadTaken(c, w), [], w1, RestTaken(w1), ItemOf(o), w');
    assert [] + ItemOf(o) == ItemOf(o);
  }

  /** Bytes reach the consumer exactly when the codec outputs them. */
  lemma PollOutputs(c: Codec, w: Wrap)
    requires w.Valid() && Reachable(c, w.history)
    ensures var (o, w') := WrapPoll(c, w);
      Reachable(c, w'.history) && w'.history.Output() == w.history.Output() + DataOf(ItemOf(o))
  {
    if w.readAllData {
      RestAccounts(w);
    } else {
      ReadOutputs(c, w);
      ReadAccounts(c, w);
      RestAccounts(AfterRead(c, w));
    }
  }

  // ---------------------------------------------------------------- from one poll to a run

  /** A relation between two states of a run, what was taken between them, and what was delivered. */
  type Books = (Wrap, seq<Taken>, seq<Item>, Wrap) -> bool

  /** One poll keeps `inv`, and `books` hold of it. */
  ghost predicate HoldsOfPoll(c: Codec, inv: Wrap -> bool, books: Books, w: Wrap) {
    inv(w) ==> inv(WrapPoll(c, w).1) && books(w, PollTaken(c, w), ItemOf(WrapPoll(c, w).0), WrapPoll(c, w).1)
  }

  ghost predicate Joins(books: Books, w: Wrap, a: seq<Taken>, some: seq<Item>, w1: Wrap, b: seq<Taken>, more: seq<Item>, w2: Wrap) {
    books(w, a, some, w1) && books(w1, b, more, w2) ==> books(w, a + b, some + more, w2)
  }

  lemma FirstPoll(c: Codec, w: Wrap, n: nat)
    requires n > 0
    ensures var w1 := WrapPoll(c, w).1;
      && Run(c, w, n).1 == Run(c, w1, n - 1).1
      && Delivered(Run(c, w, n).0) == ItemOf(WrapPoll(c, w).0) + Delivered(Run(c, w1, n - 1).0)
      && RunTaken(c, w, n) == PollTaken(c, w) + RunTaken(c, w1, n - 1)
  {
    var os := Run(c, WrapPoll(c, w).1, n - 1).0;
    assert ([WrapPoll(c, w).0] + os)[1..] == os;
  }

  /** Books that hold of every poll, and that join, hold of every run. */
  lemma {:induction false} HoldsOfRun(c: Codec, inv: Wrap -> bool, books: Books, w: Wrap, n: nat)
    requires inv(w)
    requires forall a :: HoldsOfPoll(c, inv, books, a)
    requires forall a, s, x, b, t, y, d :: Joins(books, a, s, x, b, t, y, d)
    requires forall a :: books(a, [], [], a)
    ensures inv(Run(c, w, n).1) && books(w, RunTaken(c, w, n), Delivered(Run(c, w, n).0), Run(c, w, n).1)
    decreases n
  {
    if n > 0 {
      var w1 := WrapPoll(c, w).1;
      assert HoldsOfPoll(c, inv, books, w);
      HoldsOfRun(c, inv, books, w1, n - 1);
      FirstPoll(c, w, n);
      assert Joins(books, w, PollTaken(c, w), ItemOf(WrapPoll(c, w).0), w1,
                   RunTaken(c, w1, n - 1), Delivered(Run(c, w1, n - 1).0), Run(c, w1, n - 1).1);
    }
  }

  /** One poll keeps `inv`, and puts its answer before answers that are good for the rest. */
  ghost predicate PollBuilds(c: Codec, inv: Wrap -> bool, good: (Wrap, seq<Outcome>) -> bool, w: Wrap, rest: seq<Outcome>) {
    inv(w) ==> inv(WrapPoll(c, w).1) && (good(WrapPoll(c, w).1, rest) ==> good(w, [WrapPoll(c, w).0] + rest))
  }

  /** What every poll builds, the answers of every run are. */
  lemma {:induction false} RunBuilds(c: Codec, inv: Wrap -> bool, good: (Wrap, seq<Outcome>) -> bool, w: Wrap, n: nat)
    requires inv(w)
    requires forall a, rest :: PollBuilds(c, inv, good, a, rest)
    requires forall a :: inv(a) ==> good(a, [])
    ensures inv(Run(c, w, n).1) && good(w, Run(c, w, n).0)
    decreases n
  {
    if n > 0 {
      var w1 := WrapPoll(c, w).1;
      assert PollBuilds(c, inv, good, w, Run(c, w1, n - 1).0);
      RunBuilds(c, inv, good, w1, n - 1);
    }
  }

  predicate IsValid(w: Wrap) {
    w.Valid()
  }

  lemma RunAccounts(c: Codec, w: Wrap, n: nat)
    requires w.Valid()
    ensures Run(c, w, n).1.Valid() && Accounts(w, RunTaken(c, w, n), Delivered(Run(c, w, n).0), Run(c, w, n).1)
  {
    forall a: Wrap ensures HoldsOfPoll(c, IsValid, Accounts, a) {
      if a.Valid() {
        PollAccounts(c, a);
      }
    }
    forall a, s, x, b, t, y, d ensures Joins(Accounts, a, s, x, b, t, y, d) {
      if Accounts(a, s, x, b) && Accounts(b, t, y, d) {
        AccountsJoined(a, s, x, b, t, y, d);
      }
    }
    HoldsOfRun(c, IsValid, Accounts, w, n);
  }

  /** What is delivered is what the codec has output in between. */
  predicate Outputs(w: Wrap, taken: seq<Taken>, delivered: seq<Item>, w': Wrap) {
    w'.history.Output() == w.history.Output() + DataOf(delivered)
  }

  lemma OutputsJoined(w: Wrap, a: seq<Taken>, some: seq<Item>, w1: Wrap, b: seq<Taken>, more: seq<Item>, w2: Wrap)
    requires Outputs(w, a, some, w1) && Outputs(w1, b, more, w2)
    ensures Outputs(w, a + b, some + more, w2)
  {
    DataOfConcat(some, more);
    Regroup(w.history.Output(), DataOf(some), DataOf(more));
  }

  ghost predicate IsReachable(c: Codec, w: Wrap) {
    w.Valid() && Reachable(c, w.history)
  }

  ghost function ReachableWith(c: Codec): Wrap -> bool {
    w => IsReachable(c, w)
  }

  lemma RunOutputs(c: Codec, w: Wrap, n: nat)
    requires w.Valid() && Reachable(c, w.history)
    ensures IsReachable(c, Run(c, w, n).1)
    ensures Outputs(w, RunTaken(c, w, n), Delivered(Run(c, w, n).0), Run(c, w, n).1)
  {
    forall a: Wrap ensures HoldsOfPoll(c, ReachableWith(c), Outputs, a) {
      if IsReachable(c, a) {
        PollAccounts(c, a);
        PollOutputs(c, a);
      }
    }
    forall a, s, x, b, t, y, d ensures Joins(Outputs, a, s, x, b, t, y, d) {
      if Outputs(a, s, x, b) && Outputs(b, t, y, d) {
        OutputsJoined(a, s, x, b, t, y, d);
      }
    }
    HoldsOfRun(c, ReachableWith(c), Outputs, w, n);
  }

  /** Conservation over a whole run, for any codec and any body. Everything taken from the body is fed to the codec,
      in order, or delivered, bytes as the extra-bytes error; all that the codec has read is what was fed, and the
      data delivered is what it has output. Every signal is delivered once and in order, or is still to come. */
  lemma RunConserves(c: Codec, w: Wrap, n: nat)
    requires w.Valid() && Reachable(c, w.history)
    ensures var (os, w') := Run(c, w, n);
      && w'.Valid() && Reachable(c, w'.history)
      && Accounts(w, RunTaken(c, w, n), Delivered(os), w')
      && w'.history.Output() == w.history.Output() + DataOf(Delivered(os))
      && Signals(w.Left()) == Signals(Delivered(os)) + Signals(w'.Left())
  {
    RunAccounts(c, w, n);
    RunOutputs(c, w, n);
    SignalsConcat(AllTaken(RunTaken(c, w, n)), Run(c, w, n).1.Left());
  }

  lemma DeliveredCons(o: Outcome, os: seq<Outcome>)
    ensures Delivered([o] + os) == ItemOf(o) + Delivered(os)
    ensures DataOf(Delivered([o] + os)) == DataOf(ItemOf(o)) + DataOf(Delivered(os))
    ensures Signals(Delivered([o] + os)) == Signals(ItemOf(o)) + Signals(Delivered(os))
  {
    assert ([o] + os)[1..] == os;
    DataOfConcat(ItemOf(o), Delivered(os));
    SignalsConcat(ItemOf(o), Delivered(os));
  }

  lemma {:induction false} DeliveredConcat(a: seq<Outcome>, b: seq<Outcome>)
    ensures Delivered(a + b) == Delivered(a) + Delivered(b)
  {
    if a == [] {
      assert a + b == b;
    } else {
      DeliveredConcat(a[1..], b);
      assert (a + b)[1..] == a[1..] + b;
      Regroup(ItemOf(a[0]), Delivered(a[1..]), Delivered(b));
    }
  }

  // ---------------------------------------------------------------- the error tunnel

  /** What an item is when it is taken: an error is the last item that its poll takes, and its answer. */
  predicate ErrorsAreLast(taken: seq<Item>, o: Outcome) {
    forall i :: 0 <= i < |taken| && taken[i].Err? ==> i == |taken| - 1 && o == Polled(Ready(Some(taken[i])))
  }

  lemma ReadErrorSurfaces(c: Codec, w: Wrap)
    requires w.Valid()
    ensures var (read, _, t) := CodecRead(c, w.history, w.tunnel); var taken := AllTaken(ReadTaken(c, w));
      && (Verdict(read, t).Some? ==> ErrorsAreLast(taken, Verdict(read, t).value))
      && (Verdict(read, t) == None ==> forall i :: 0 <= i < |taken| ==> taken[i].Ok?)
  {
    ReadTakenIs(c, w);
    DataItemsAreData(ChunksRead(c, w.history, w.tunnel));
    StoredErrorIsTheVerdict(c, w.history, w.tunnel);
  }

  lemma RestErrorSurfaces(w: Wrap, before: seq<Item>)
    requires w.Valid() && forall i :: 0 <= i < |before| ==> before[i].Ok?
    ensures ErrorsAreLast(before + AllTaken(RestTaken(w)), PollRest(w).0)
  {
    RestTakes(w);
  }

  /** A body error, whatever it is, surfaces as that same error from the very poll that takes it. */
  lemma BodyErrorSurfaces(c: Codec, w: Wrap)
    requires w.Valid()
    ensures ErrorsAreLast(AllTaken(PollTaken(c, w)), WrapPoll(c, w).0)
  {
    if w.readAllData {
      RestErrorSurfaces(w, []);
      assert [] + AllTaken(RestTaken(w)) == AllTaken(RestTaken(w));
    } else {
      var (read, _, t) := CodecRead(c, w.history, w.tunnel);
      ReadErrorSurfaces(c, w);
      if Verdict(read, t) == None {
        ReadAccounts(c, w);
        TakenJoined(ReadTaken(c, w), RestTaken(AfterRead(c, w)));
        RestErrorSurfaces(AfterRead(c, w), AllTaken(ReadTaken(c, w)));
      } else {
        assert ReadTaken(c, w) + [] == ReadTaken(c, w);
      }
    }
  }

  lemma {:induction false} DataItemsAreData(chunks: seq<Bytes>)
    ensures forall i :: 0 <= i < |DataItems(chunks)| ==> DataItems(chunks)[i].Ok?
  {
    if chunks != [] {
      DataItemsAreData(chunks[1..]);
    }
  }

  lemma {:induction false} StoredErrorIsTheVerdict(c: Codec, h: History, t: Tunnel)
    requires t.error == None
    ensures var (read, _, t') := CodecRead(c, h, t);
      t'.error.Some? ==> read == Ready(Err(RawOs(SENTINEL_ERROR_CODE)))
                         && Verdict(read, t') == Some(Polled(Ready(Some(Err(t'.error.value)))))
    decreases |t.inner.body|, !h.AtEof()
  {
    OnlyErrorsAreStored(c, h, t);
    if c(h) == Need {
      var (answer, t1) := t.PollNext();
      if answer == Ready(None) {
        StoredErrorIsTheVerdict(c, Eof(h), t1);
      } else if answer.Ready? && answer.value.value.Ok? {
        var chunk := answer.value.value.value;
        StoredErrorIsTheVerdict(c, if chunk == [] then h else Fed(h, chunk), t1);
      }
    }
  }

  /** The codec itself raised an error in the poll that led from `w` to `w'`. */
  predicate CodecRaised(w: Wrap, w': Wrap) {
    w'.history.Failures() > w.history.Failures()
  }

  /** The error that a codec raised last. */
  function RaisedBy(c: Codec, h: History): IoError {
    if h.Failed? && c(h.before).Raise? then c(h.before).error else Kind(0)
  }

  lemma PollRaises(c: Codec, w: Wrap)
    requires w.Valid() && Reachable(c, w.history)
    ensures var (read, _, t) := CodecRead(c, w.history, w.tunnel); var w' := WrapPoll(c, w).1;
      && (w.readAllData ==> !CodecRaised(w, w'))
      && (!w.readAllData ==> (CodecRaised(w, w') <==> read.Ready? && read.value.Err? && t.error == None))
      && (CodecRaised(w, w') ==> w'.history.Failed? && c(w'.history.before) == Raise(read.value.error))
  {
    ReadAnswers(c, w.history, w.tunnel);
    assert !w.readAllData ==> WrapPoll(c, w).1.history == CodecRead(c, w.history, w.tunnel).1;
  }

  /** `unreachable!()` is reached in a poll exactly when the codec itself raises the sentinel in that poll. */
  lemma PanicsExactlyOnForgedSentinel(c: Codec, w: Wrap)
    requires w.Valid() && Reachable(c, w.history)
    ensures var (o, w') := WrapPoll(c, w);
      o.Panicked? <==> CodecRaised(w, w') && RaisedBy(c, w'.history) == RawOs(SENTINEL_ERROR_CODE)
  {
    PollRaises(c, w);
    var (read, _, t) := CodecRead(c, w.history, w.tunnel);
    var (o, w') := WrapPoll(c, w);
    assert o.Panicked? <==> !w.readAllData && Verdict(read, t) == Some(Panicked);
  }

  /** A codec with error codes of its own. */
  ghost predicate NeverForges(c: Codec) {
    forall h :: Reachable(c, h) ==> c(h) != Raise(RawOs(SENTINEL_ERROR_CODE))
  }

  lemma PollNeverPanics(c: Codec, w: Wrap)
    requires w.Valid() && Reachable(c, w.history) && NeverForges(c)
    ensures var (o, w') := WrapPoll(c, w);
      !o.Panicked? && w'.Valid() && Reachable(c, w'.history)
  {
    var w' := WrapPoll(c, w).1;
    PanicsExactlyOnForgedSentinel(c, w);
    PollAccounts(c, w);
    PollOutputs(c, w);
    PollRaises(c, w);
    if CodecRaised(w, w') {
      assert Reachable(c, w'.history.before);
    }
  }

  /** In no run of such a codec, over any body, is `unreachable!()` reached. */
  lemma {:induction false} NeverPanics(c: Codec, w: Wrap, n: nat)
    requires w.Valid() && Reachable(c, w.history) && NeverForges(c)
    ensures Panicked !in Run(c, w, n).0
    decreases n
  {
    if n > 0 {
      PollNeverPanics(c, w);
      NeverPanics(c, WrapPoll(c, w).1, n - 1);
    }
  }

  /** An error that the codec raises itself is delivered exactly when the body has handed it a chunk, even an
      empty one; otherwise it is dropped and the poll goes on to the rest of the body. */
  lemma CodecErrorIsDroppedOnlyWithoutData(c: Codec, w: Wrap)
    requires w.Valid() && Reachable(c, w.history) && !w.readAllData
    ensures var (o, w') := WrapPoll(c, w); var e := RaisedBy(c, w'.history);
      CodecRaised(w, w') && e != RawOs(SENTINEL_ERROR_CODE) ==>
        && (w'.tunnel.readSomeData <==> w.tunnel.readSomeData || ChunksRead(c, w.history, w.tunnel) != [])
        && (w'.tunnel.readSomeData ==> o == Polled(Ready(Some(Err(Io(e))))))
        && (!w'.tunnel.readSomeData ==> (o, w') == PollRest(AfterRead(c, w)))
  {
    PollRaises(c, w);
    ReadSome(c, w.history, w.tunnel);
  }
}
