/** `BodyIntoStream` and `StreamErrorIntoIoError`: a body seen as a stream of data chunks. */
module BodyStream {
  import opened Http

  /** What a body or a codec can fail with. Converting into a boxed error keeps the value. */
  datatype Error = Source(id: nat) | Io(io: IoError) | ExtraBytes

  datatype IoError = RawOs(code: int) | Kind(id: nat)

  const SENTINEL_ERROR_CODE := -837459418

  /** Frames of a body. `Unknown` stands for kinds that are neither data nor trailers. */
  datatype Frame = Data(bytes: Bytes) | Trailers(fields: HeaderMap) | Unknown(tag: nat)

  type Item = Result<Frame, Error>

  /** The answers an inner body gives to its successive polls. Once they are used up the body has
      ended and stays ended. */
  type Script = seq<Poll<Item>>

  function PollBody(body: Script): (Poll<Option<Item>>, Script) {
    if body == [] then (Ready(None), [])
    else match body[0]
      case Pending => (Pending, body[1..])
      case Ready(item) => (Ready(Some(item)), body[1..])
  }

  /** The items of a body, whatever its schedule of pending polls. */
  function Items(body: Script): seq<Item> {
    if body == [] then []
    else (if body[0].Ready? then [body[0].value] else []) + Items(body[1..])
  }

  /** State of a `BodyIntoStream`. */
  datatype Split = Split(body: Script, yieldedAllData: bool, nonDataFrame: Option<Frame>) {
    /** `Stream::poll_next`: the next data chunk; the first other frame is stashed and ends the stream. */
    function PollNext(): (Poll<Option<Result<Bytes, Error>>>, Split) {
      if yieldedAllData then (Ready(None), this)
      else
        var (answer, rest) := PollBody(body);
        match answer
        case Pending => (Pending, this.(body := rest))
        case Ready(None) => (Ready(None), this.(body := rest, yieldedAllData := true))
        case Ready(Some(Err(e))) => (Ready(Some(Err(e))), this.(body := rest))
        case Ready(Some(Ok(Data(bytes)))) => (Ready(Some(Ok(bytes))), this.(body := rest))
        case Ready(Some(Ok(frame))) => (Ready(None), Split(rest, true, Some(frame)))
    }

    /** `Body::poll_frame`: data first, then the stashed frame, then whatever the body still holds. */
    function PollFrame(): (Poll<Option<Item>>, Split) {
      var (answer, s) := PollNext();
      match answer
      case Pending => (Pending, s)
      case Ready(Some(Ok(bytes))) => (Ready(Some(Ok(Data(bytes)))), s)
      case Ready(Some(Err(e))) => (Ready(Some(Err(e))), s)
      case Ready(None) =>
        if s.nonDataFrame.Some? then (Ready(Some(Ok(s.nonDataFrame.value))), s.(nonDataFrame := None))
        else
          var (last, rest) := PollBody(s.body);
          (last, s.(body := rest))
    }

    /** What the adapter has not handed out yet, in order. */
    function Left(): seq<Item> {
      (if nonDataFrame.Some? then [Ok(nonDataFrame.value)] else []) + Items(body)
    }

    predicate Valid() {
      nonDataFrame.Some? ==> yieldedAllData && !nonDataFrame.value.Data?
    }
  }

  function FreshSplit(body: Script): Split {
    Split(body, false, None)
  }

  /** The adapter as it is written: fields updated in place, and a loop in `poll_next`. */
  class BodyIntoStream {
    var body: Script
    var yieldedAllData: bool
    var nonDataFrame: Option<Frame>

    function View(): Split
      reads this
    {
      Split(body, yieldedAllData, nonDataFrame)
    }

    constructor (body: Script)
      ensures View() == FreshSplit(body)
    {
      this.body := body;
      yieldedAllData := false;
      nonDataFrame := None;
    }

    method PollInner() returns (answer: Poll<Option<Item>>)
      modifies this`body
      ensures (answer, body) == PollBody(old(body))
    {
      if body == [] {
        return Ready(None);
      }
      answer := if body[0].Pending? then Pending else Ready(Some(body[0].value));
      body := body[1..];
    }

    method PollNext() returns (answer: Poll<Option<Result<Bytes, Error>>>)
      requires View().Valid()
      modifies this
      ensures (answer, View()) == old(View()).PollNext()
      ensures View().Valid()
    {
      while true
        invariant View().Valid()
        invariant yieldedAllData && !old(yieldedAllData) ==> (Ready(None), View()) == old(View()).PollNext()
        invariant yieldedAllData == old(yieldedAllData) ==> View() == old(View())
        decreases !yieldedAllData
      {
        if yieldedAllData {
          return Ready(None);
        }
        var polled := PollInner();
        match polled
        case Pending => return Pending;
        case Ready(Some(Ok(Data(bytes)))) => return Ready(Some(Ok(bytes)));
        case Ready(Some(Ok(frame))) =>
          yieldedAllData := true;
          nonDataFrame := Some(frame);
        case Ready(Some(Err(e))) => return Ready(Some(Err(e)));
        case Ready(None) =>
          yieldedAllData := true;
      }
    }

    method PollFrame() returns (answer: Poll<Option<Item>>)
      requires View().Valid()
      modifies this
      ensures (answer, View()) == old(View()).PollFrame()
      ensures View().Valid()
    {
      var next := PollNext();
      match next
      case Pending => return Pending;
      case Ready(Some(Ok(bytes))) => return Ready(Some(Ok(Data(bytes))));
      case Ready(Some(Err(e))) => return Ready(Some(Err(e)));
      case Ready(None) =>
        if nonDataFrame.Some? {
          var frame := nonDataFrame.value;
          nonDataFrame := None;
          return Ready(Some(Ok(frame)));
        }
        answer := PollInner();
    }
  }

  /** The two ways a consumer can poll the adapter. */
  datatype Call = Next | WholeFrame

  /** One call: the item it delivers, if any, and the adapter afterwards. */
  function Serve(s: Split, call: Call): (Option<Item>, Split) {
    match call
    case Next =>
      var (answer, s') := s.PollNext();
      (match answer
       case Ready(Some(Ok(bytes))) => Some(Ok(Data(bytes)))
       case Ready(Some(Err(e))) => Some(Err(e))
       case _ => None, s')
    case WholeFrame =>
      var (answer, s') := s.PollFrame();
      (if answer.Ready? then answer.value else None, s')
  }

  /** What a whole sequence of calls delivers, with the call that delivered each item. */
  function ServeAll(s: Split, calls: seq<Call>): (seq<(Call, Item)>, Split)
    decreases |calls|
  {
    if calls == [] then ([], s)
    else
      var (item, s1) := Serve(s, calls[0]);
      var (more, s2) := ServeAll(s1, calls[1..]);
      ((if item.Some? then [(calls[0], item.value)] else []) + more, s2)
  }

  function ItemsOf(delivered: seq<(Call, Item)>): seq<Item> {
    if delivered == [] then [] else [delivered[0].1] + ItemsOf(delivered[1..])
  }

  lemma NextKeepsItems(s: Split)
    requires s.Valid()
    ensures var (answer, s') := s.PollNext();
      && s'.Valid()
      && s.Left() == (match answer
                      case Ready(Some(Ok(bytes))) => [Ok(Data(bytes))]
                      case Ready(Some(Err(e))) => [Err(e)]
                      case _ => []) + s'.Left()
  {
    PollBodyItems(s.body);
  }

  lemma ServeKeepsItems(s: Split, call: Call)
    requires s.Valid()
    ensures var (item, s') := Serve(s, call);
      && s'.Valid()
      && s.Left() == (if item.Some? then [item.value] else []) + s'.Left()
      && (call.Next? && item.Some? && item.value.Ok? ==> item.value.value.Data?)
  {
    NextKeepsItems(s);
    if call.WholeFrame? {
      PollBodyItems(s.PollNext().1.body);
    }
  }

  lemma PollBodyItems(body: Script)
    ensures var (answer, rest) := PollBody(body);
      Items(body) == (if answer.Ready? && answer.value.Some? then [answer.value.value] else []) + Items(rest)
  {
  }

  /** What `poll_next` has handed out is data or an error. */
  predicate NextGivesData(delivered: seq<(Call, Item)>) {
    forall i :: 0 <= i < |delivered| && delivered[i].0.Next? && delivered[i].1.Ok? ==> delivered[i].1.value.Data?
  }

  lemma DeliveredFirst(call: Call, item: Item, more: seq<(Call, Item)>)
    requires call.Next? && item.Ok? ==> item.value.Data?
    requires NextGivesData(more)
    ensures ItemsOf([(call, item)] + more) == [item] + ItemsOf(more)
    ensures NextGivesData([(call, item)] + more)
  {
    assert ([(call, item)] + more)[1..] == more;
  }

  /** Conservation: under any interleaving of `poll_next` and `poll_frame`, the items delivered so far, the
      stashed frame and the frames still in the body are the original frames in the original order, and
      frames that are not data leave only through `poll_frame`. */
  lemma {:induction false} Conservation(s: Split, calls: seq<Call>)
    requires s.Valid()
    ensures var (delivered, s') := ServeAll(s, calls);
      && s'.Valid()
      && s.Left() == ItemsOf(delivered) + s'.Left()
      && NextGivesData(delivered)
    decreases |calls|
  {
    if calls == [] {
      assert [] + s.Left() == s.Left();
    } else {
      ServeKeepsItems(s, calls[0]);
      var (item, s1) := Serve(s, calls[0]);
      Conservation(s1, calls[1..]);
      var (more, s2) := ServeAll(s1, calls[1..]);
      if item.Some? {
        DeliveredFirst(calls[0], item.value, more);
        Regroup([item.value], ItemsOf(more), s2.Left());
      } else {
        assert [] + more == more && [] + s1.Left() == s1.Left();
      }
    }
  }

  /** A fresh adapter conserves the whole body, and when it answers that the body has ended nothing is left. */
  lemma {:induction false} BodyIsConserved(body: Script, calls: seq<Call>)
    ensures var (delivered, s) := ServeAll(FreshSplit(body), calls);
      && Items(body) == ItemsOf(delivered) + s.Left()
      && (s.PollFrame().0 == Ready(None) ==> Items(body) == ItemsOf(delivered))
  {
    Conservation(FreshSplit(body), calls);
    var (delivered, s) := ServeAll(FreshSplit(body), calls);
    if s.PollFrame().0 == Ready(None) {
      ServeKeepsItems(s, WholeFrame);
      EndedHasNothing(s);
    }
  }

  lemma EndedHasNothing(s: Split)
    requires s.Valid() && s.PollFrame().0 == Ready(None)
    ensures s.Left() == []
  {
  }

  // What a consumer that uses one of the two calls sees.

  /** The answers of the inner body itself. */
  function BodyAnswers(body: Script, n: nat): seq<Poll<Option<Item>>> {
    if n == 0 then [] else [PollBody(body).0] + BodyAnswers(PollBody(body).1, n - 1)
  }

  function FrameAnswers(s: Split, n: nat): seq<Poll<Option<Item>>>
    decreases n
  {
    if n == 0 then [] else [s.PollFrame().0] + FrameAnswers(s.PollFrame().1, n - 1)
  }

  function NextAnswers(s: Split, n: nat): seq<Poll<Option<Result<Bytes, Error>>>>
    decreases n
  {
    if n == 0 then [] else [s.PollNext().0] + NextAnswers(s.PollNext().1, n - 1)
  }

  /** With `poll_frame` alone the adapter cannot be told from the body: the same answers to the same polls. */
  lemma {:induction false} FramesPassThrough(s: Split, n: nat)
    requires s.Valid() && s.nonDataFrame == None
    ensures FrameAnswers(s, n) == BodyAnswers(s.body, n)
    decreases n
  {
    if n > 0 {
      FramesPassThrough(s.PollFrame().1, n - 1);
    }
  }

  /** A frame that `poll_next` has passed over is what `poll_frame` answers first. */
  lemma StashComesFirst(s: Split, n: nat)
    requires s.Valid() && s.nonDataFrame.Some? && n > 0
    ensures FrameAnswers(s, n) == [Ready(Some(Ok(s.nonDataFrame.value)))] + BodyAnswers(s.body, n - 1)
  {
    FramesPassThrough(s.PollFrame().1, n - 1);
  }

  /** An answer that ends the stream of chunks: the end, or a frame that is not data. */
  predicate EndsChunks(answer: Poll<Option<Item>>) {
    answer.Ready? && (answer.value.None? || (answer.value.value.Ok? && !answer.value.value.value.Data?))
  }

  /** `next` is what `poll_next` makes of an answer of the body. */
  predicate IsChunkOf(next: Poll<Option<Result<Bytes, Error>>>, answer: Poll<Option<Item>>) {
    match answer
    case Pending => next == Pending
    case Ready(Some(Ok(Data(bytes)))) => next == Ready(Some(Ok(bytes)))
    case Ready(Some(Err(e))) => next == Ready(Some(Err(e)))
    case _ => next == Ready(None)
  }

  /** How many of the first `n` answers of a body come before one that ends the chunks. */
  function LeadingAnswers(body: Script, n: nat): (k: nat)
    ensures k <= n
  {
    if n == 0 || EndsChunks(PollBody(body).0) then 0 else 1 + LeadingAnswers(PollBody(body).1, n - 1)
  }

  lemma {:induction false} EndedStaysEnded(s: Split, n: nat)
    requires s.yieldedAllData
    ensures |NextAnswers(s, n)| == n && forall i :: 0 <= i < n ==> NextAnswers(s, n)[i] == Ready(None)
  {
    if n > 0 {
      EndedStaysEnded(s, n - 1);
    }
  }

  lemma {:induction false} BodyAnswersLength(body: Script, n: nat)
    ensures |BodyAnswers(body, n)| == n
  {
    if n > 0 {
      BodyAnswersLength(PollBody(body).1, n - 1);
    }
  }

  /** With `poll_next` alone: the answers of the body up to one that is the end or not data, and from there on the
      end, for good. Errors do not end the stream. */
  lemma {:induction false} NextStopsAtOthers(s: Split, n: nat)
    requires s.Valid() && !s.yieldedAllData
    ensures var k := LeadingAnswers(s.body, n);
      && |NextAnswers(s, n)| == n == |BodyAnswers(s.body, n)|
      && (forall i :: 0 <= i < k ==> IsChunkOf(NextAnswers(s, n)[i], BodyAnswers(s.body, n)[i]))
      && (forall i :: k <= i < n ==> NextAnswers(s, n)[i] == Ready(None))
    decreases n
  {
    BodyAnswersLength(s.body, n);
    if n > 0 {
      var next := s.PollNext().1;
      if EndsChunks(PollBody(s.body).0) {
        EndedStaysEnded(next, n - 1);
      } else {
        NextStopsAtOthers(next, n - 1);
      }
    }
  }
}
