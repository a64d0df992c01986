/** `WrapBody`: a body whose data runs through a codec. The codec is any deterministic stream transducer. */
module WrapBody {
  import opened Http
  import opened BodyStream

  /** State of a `StreamErrorIntoIoError` around a `BodyIntoStream`. */
  datatype Tunnel = Tunnel(inner: Split, error: Option<Error>, readSomeData: bool) {
    /** `Stream::poll_next`: stores the error of the body and hands out the sentinel in its place. */
    function PollNext(): (Poll<Option<Result<Bytes, IoError>>>, Tunnel) {
      var (answer, s) := inner.PollNext();
      match answer
      case Pending => (Pending, this.(inner := s))
      case Ready(None) => (Ready(None), this.(inner := s))
      case Ready(Some(Ok(bytes))) => (Ready(Some(Ok(bytes))), Tunnel(s, error, true))
      case Ready(Some(Err(e))) => (Ready(Some(Err(RawOs(SENTINEL_ERROR_CODE)))), Tunnel(s, Some(e), readSomeData))
    }
  }

  /** All that has happened to a codec: chunks fed, end of input fed, output returned, failures. */
  datatype History =
    | Start
    | Fed(before: History, chunk: Bytes)
    | Eof(before: History)
    | Out(before: History, bytes: Bytes)
    | Failed(before: History)
  {
    function Input(): Bytes {
      match this
      case Start => []
      case Fed(h, chunk) => h.Input() + chunk
      case _ => before.Input()
    }

    function Output(): Bytes {
      match this
      case Start => []
      case Out(h, bytes) => h.Output() + bytes
      case _ => before.Output()
    }

    predicate AtEof() {
      match this
      case Start => false
      case Eof(_) => true
      case _ => before.AtEof()
    }

    function Failures(): nat {
      match this
      case Start => 0
      case Failed(h) => h.Failures() + 1
      case _ => before.Failures()
    }

    /** How often the codec has returned bytes. */
    function Returns(): nat {
      match this
      case Start => 0
      case Out(h, bytes) => h.Returns() + if bytes == [] then 0 else 1
      case _ => before.Returns()
    }
  }

  /** What a codec does next: ask for input, return bytes (no bytes means that it has ended), or fail. */
  datatype Move = Need | Return(bytes: Bytes) | Raise(error: IoError)

  /** A codec decides by its whole history, and does not ask for input past the end of input. */
  type Codec = c: History -> Move | forall h: History :: h.AtEof() ==> c(h) != Need
    ghost witness (h: History) => Return([])

  /** The histories that the codec can really have. */
  ghost predicate Reachable(c: Codec, h: History) {
    match h
    case Start => true
    case Fed(g, chunk) => Reachable(c, g) && !g.AtEof() && c(g) == Need && chunk != []
    case Eof(g) => Reachable(c, g) && !g.AtEof() && c(g) == Need
    case Out(g, bytes) => Reachable(c, g) && c(g) == Return(bytes)
    case Failed(g) => Reachable(c, g) && c(g).Raise?
  }

  /** `AsyncRead::poll_read` on the codec. Its `StreamReader` skips empty chunks, and an error of the reader is
      passed on at once. */
  function CodecRead(c: Codec, h: History, t: Tunnel): (Poll<Result<Bytes, IoError>>, History, Tunnel)
    decreases |t.inner.body|, !h.AtEof()
  {
    match c(h)
    case Return(bytes) => (Ready(Ok(bytes)), Out(h, bytes), t)
    case Raise(e) => (Ready(Err(e)), Failed(h), t)
    case Need =>
      var (answer, t') := t.PollNext();
      match answer
      case Pending => (Pending, h, t')
      case Ready(None) => CodecRead(c, Eof(h), t')
      case Ready(Some(Err(e))) => (Ready(Err(e)), h, t')
      case Ready(Some(Ok(chunk))) => CodecRead(c, if chunk == [] then h else Fed(h, chunk), t')
  }

  /** State of a `WrapBody`: the codec, the adapters under it, and `read_all_data`. */
  datatype Wrap = Wrap(history: History, tunnel: Tunnel, readAllData: bool) {
    function Left(): seq<Item> {
      tunnel.inner.Left()
    }

    predicate Valid() {
      tunnel.inner.Valid() && tunnel.error == None
    }
  }

  function FreshWrap(body: Script): Wrap {
    Wrap(Start, Tunnel(FreshSplit(body), None, false), false)
  }

  /** The answer of one poll, or the panic of `unreachable!()`. */
  datatype Outcome = Polled(answer: Poll<Option<Item>>) | Panicked

  /** A frame that arrives after the codec is done: bytes are an error, all else passes. */
  function AfterCodec(item: Item): Item {
    match item
    case Ok(Data(bytes)) => if bytes != [] then Err(ExtraBytes) else item
    case _ => item
  }

  function PollRest(w: Wrap): (Outcome, Wrap) {
    var (answer, s) := w.tunnel.inner.PollFrame();
    var w' := w.(tunnel := w.tunnel.(inner := s));
    match answer
    case Ready(Some(item)) => (Polled(Ready(Some(AfterCodec(item)))), w')
    case _ => (Polled(answer), w')
  }

  /** What a read makes of the poll, or nothing when the poll goes on to the rest of the body. */
  function Verdict(read: Poll<Result<Bytes, IoError>>, t: Tunnel): Option<Outcome> {
    match read
    case Pending => Some(Polled(Pending))
    case Ready(Ok(bytes)) => if bytes == [] then None else Some(Polled(Ready(Some(Ok(Data(bytes))))))
    case Ready(Err(e)) =>
      if t.error.Some? then Some(Polled(Ready(Some(Err(t.error.value)))))
      else if e == RawOs(SENTINEL_ERROR_CODE) then Some(Panicked)
      else if t.readSomeData then Some(Polled(Ready(Some(Err(Io(e))))))
      else None
  }

  predicate IsEnd(read: Poll<Result<Bytes, IoError>>) {
    read.Ready? && read.value.Ok? && read.value.value == []
  }

  /** The state after the read of a poll: a stored error has been taken out. */
  function AfterRead(c: Codec, w: Wrap): Wrap {
    var (read, h, t) := CodecRead(c, w.history, w.tunnel);
    Wrap(h, t.(error := None), IsEnd(read))
  }

  /** `Body::poll_frame` of `WrapBody`. */
  function WrapPoll(c: Codec, w: Wrap): (Outcome, Wrap) {
    if w.readAllData then PollRest(w)
    else
      var (read, _, t) := CodecRead(c, w.history, w.tunnel);
      match Verdict(read, t)
      case Some(o) => (o, AfterRead(c, w))
      case None => PollRest(AfterRead(c, w))
  }

  /** An error is stored exactly by a read that fails without the codec having failed, and then it is the sentinel
      that the codec passes on. */
  lemma {:induction false} OnlyErrorsAreStored(c: Codec, h: History, t: Tunnel)
    requires t.error == None
    ensures var (read, h', t') := CodecRead(c, h, t);
      && (t'.error.Some? <==> read.Ready? && read.value.Err? && h'.Failures() == h.Failures())
      && (t'.error.Some? ==> read == Ready(Err(RawOs(SENTINEL_ERROR_CODE))))
    decreases |t.inner.body|, !h.AtEof()
  {
    if c(h) == Need {
      var (answer, t1) := t.PollNext();
      if answer == Ready(None) {
        OnlyErrorsAreStored(c, Eof(h), t1);
      } else if answer.Ready? && answer.value.value.Ok? {
        var chunk := answer.value.value.value;
        OnlyErrorsAreStored(c, if chunk == [] then h else Fed(h, chunk), t1);
      }
    }
  }

  class StreamErrorIntoIoError {
    const inner: BodyIntoStream
    var error: Option<Error>
    var readSomeData: bool

    function View(): Tunnel
      reads this, inner
    {
      Tunnel(inner.View(), error, readSomeData)
    }

    constructor (inner: BodyIntoStream)
      ensures this.inner == inner && View() == Tunnel(inner.View(), None, false)
    {
      this.inner := inner;
      error := None;
      readSomeData := false;
    }

    method PollNext() returns (answer: Poll<Option<Result<Bytes, IoError>>>)
      requires View().inner.Valid()
      modifies this, inner
      ensures (answer, View()) == old(View()).PollNext()
      ensures View().inner.Valid()
    {
      var polled := inner.PollNext();
      match polled
      case Pending => answer := Pending;
      case Ready(None) => answer := Ready(None);
      case Ready(Some(Ok(bytes))) =>
        readSomeData := true;
        answer := Ready(Some(Ok(bytes)));
      case Ready(Some(Err(e))) =>
        error := Some(e);
        answer := Ready(Some(Err(RawOs(SENTINEL_ERROR_CODE))));
    }
  }

  /** The codec with its `StreamReader`, polled as an `AsyncRead`. */
  class DecoratedReader {
    const input: StreamErrorIntoIoError
    const codec: Codec
    var history: History

    constructor (input: StreamErrorIntoIoError, codec: Codec)
      ensures this.input == input && this.codec == codec && history == Start
    {
      this.input := input;
      this.codec := codec;
      history := Start;
    }

    method PollRead() returns (answer: Poll<Result<Bytes, IoError>>)
      requires input.View().inner.Valid()
      modifies this, input, input.inner
      ensures (answer, history, input.View()) == CodecRead(codec, old(history), old(input.View()))
      ensures input.View().inner.Valid()
    {
      while codec(history) == Need
        invariant input.View().inner.Valid()
        invariant CodecRead(codec, history, input.View())
               == CodecRead(codec, old(history), old(input.View()))
        decreases |input.inner.body|, !history.AtEof()
      {
        var next := input.PollNext();
        match next
        case Pending => return Pending;
        case Ready(Some(Err(e))) => return Ready(Err(e));
        case Ready(None) => history := Eof(history);
        case Ready(Some(Ok(chunk))) =>
          if chunk != [] {
            history := Fed(history, chunk);
          }
      }
      var move := codec(history);
      if move.Return? {
        history := Out(history, move.bytes);
        answer := Ready(Ok(move.bytes));
      } else {
        history := Failed(history);
        answer := Ready(Err(move.error));
      }
    }
  }

  class WrappedBody {
    const read: DecoratedReader
    var readAllData: bool

    function View(): Wrap
      reads this, read, read.input, read.input.inner
    {
      Wrap(read.history, read.input.View(), readAllData)
    }

    constructor (body: Script, codec: Codec)
      ensures View() == FreshWrap(body) && read.codec == codec
      ensures fresh(read) && fresh(read.input) && fresh(read.input.inner)
    {
      var stream := new BodyIntoStream(body);
      var tunnel := new StreamErrorIntoIoError(stream);
      read := new DecoratedReader(tunnel, codec);
      readAllData := false;
    }

    method PollFrame() returns (outcome: Outcome)
      requires View().Valid()
      modifies this, read, read.input, read.input.inner
      ensures (outcome, View()) == WrapPoll(read.codec, old(View()))
    {
      if !readAllData {
        OnlyErrorsAreStored(read.codec, read.history, read.input.View());
        var result := read.PollRead();
        match result
        case Pending => return Polled(Pending);
        case Ready(Ok(chunk)) =>
          if chunk != [] {
            return Polled(Ready(Some(Ok(Data(chunk)))));
          }
          readAllData := true;
        case Ready(Err(e)) =>
          var bodyError := read.input.error;
          read.input.error := None;
          if bodyError.Some? {
            return Polled(Ready(Some(Err(bodyError.value))));
          } else if e == RawOs(SENTINEL_ERROR_CODE) {
            return Panicked;
          } else if read.input.readSomeData {
            return Polled(Ready(Some(Err(Io(e)))));
          }
      }
      var rest := read.input.inner.PollFrame();
      match rest
      case Ready(Some(Ok(Data(bytes)))) =>
        outcome := Polled(Ready(Some(if bytes != [] then Err(ExtraBytes) else Ok(Data(bytes)))));
      case _ => outcome := Polled(rest);
    }
  }
}
