/** The header step of `Compression` and its predicates. */
module Compression {
  import opened Http
  import opened Numbers
  import opened ContentEncoding
  import opened BodyStream

  /** A response body: what a handler produces, or a body run through a codec. A body passed on by an identity
      wrapper has the frames and the size hint of the body inside, so it is that body. */
  datatype Body =
    | Original(script: Script, exactSize: Option<nat>)
    | Encoded(coding: Encoding, inner: Body)
    | Decoded(coding: Encoding, inner: Body)
  {
    /** `size_hint().exact()`: unknown once a codec is involved. */
    function ExactSize(): Option<nat> {
      if Original? then exactSize else None
    }
  }

  datatype Response = Response(status: nat, headers: HeaderMap, body: Body)

  // ---------------------------------------------------------------- predicates

  /** The predicates of the library; `Check` is any other function of the response. */
  datatype Predicate =
    | SizeAbove(min: nat)
    | NotForContentType(contentType: string, exception: Option<string>)
    | Both(lhs: Predicate, rhs: Predicate)
    | Check(f: Response -> bool)
  {
    predicate ShouldCompress(res: Response) {
      match this
      case SizeAbove(min) =>
        var size := ContentSize(res);
        size.None? || size.value >= min
      case NotForContentType(contentType, exception) =>
        var cty := ContentTypeOf(res);
        (exception.Some? && exception.value <= cty) || !(contentType <= cty)
      case Both(lhs, rhs) => lhs.ShouldCompress(res) && rhs.ShouldCompress(res)
      case Check(f) => f(res)
    }
  }

  const U64_LIMIT := 0x1_0000_0000_0000_0000

  function ContentSize(res: Response): Option<nat> {
    if res.body.ExactSize().Some? then res.body.ExactSize()
    else
      match Get(res.headers, ContentLength)
      case Some(v) => if IsVisible(v) then ParseUnsigned(v, U64_LIMIT) else None
      case None => None
  }

  function ContentTypeOf(res: Response): string {
    match Get(res.headers, ContentType)
    case Some(v) => if IsVisible(v) then v else ""
    case None => ""
  }

  /** `DefaultPredicate`. */
  const DEFAULT_PREDICATE :=
    Both(Both(Both(SizeAbove(32), NotForContentType("application/grpc", Some("application/grpc-web"))),
              NotForContentType("image/", Some("image/svg+xml"))),
         NotForContentType("text/event-stream", None))

  // ---------------------------------------------------------------- searching a header value

  predicate MatchesAt(haystack: string, needle: string, i: nat) {
    i + |needle| <= |haystack| && EqIgnoreCase(haystack[i..i + |needle|], needle)
  }

  /** `needle` occurs somewhere, whatever the case of its letters. */
  predicate Contains(haystack: string, needle: string) {
    exists i :: 0 <= i <= |haystack| && MatchesAt(haystack, needle, i)
  }

  /** `contains_ignore_ascii_case`: drops one byte after the other until the needle is in front. */
  method ContainsIgnoreCase(text: string, needle: string) returns (found: bool)
    ensures found <==> Contains(text, needle)
  {
    var haystack := text;
    while |needle| <= |haystack|
      invariant |haystack| <= |text| && haystack == text[|text| - |haystack|..]
      invariant forall i :: 0 <= i < |text| - |haystack| ==> !MatchesAt(text, needle, i)
      decreases |haystack|
    {
      ghost var i := |text| - |haystack|;
      assert haystack[..|needle|] == text[i..i + |needle|];
      if EqIgnoreCase(haystack[..|needle|], needle) {
        assert MatchesAt(text, needle, i);
        return true;
      }
      haystack := haystack[1..];
    }
    return false;
  }

  const ACCEPT_ENCODING := "accept-encoding"

  predicate VariesOnEncoding(headers: HeaderMap) {
    exists i :: 0 <= i < |GetAll(headers, Vary)| && Contains(GetAll(headers, Vary)[i], ACCEPT_ENCODING)
  }

  // ---------------------------------------------------------------- the step

  function AddVary(headers: HeaderMap): HeaderMap {
    if VariesOnEncoding(headers) then headers else Append(headers, Vary, ACCEPT_ENCODING)
  }

  predicate ShouldCompress(p: Predicate, res: Response) {
    ContentEncoding !in res.headers && ContentRange !in res.headers && p.ShouldCompress(res)
  }

  /** `ResponseFuture::poll`, once the inner response is there. Without a coding the status becomes 406. */
  function Compress(coding: Option<Encoding>, p: Predicate, res: Response): Response {
    match coding
    case None => res.(status := 406, headers := AddVary(res.headers))
    case Some(e) =>
      if !ShouldCompress(p, res) then res
      else if e == Identity then res.(headers := AddVary(res.headers))
      else
        Response(res.status,
                 Insert(Remove(Remove(AddVary(res.headers), AcceptRanges), ContentLength), ContentEncoding, Name(e)),
                 Encoded(e, res.body))
  }

  /** The head of a response, edited in place. */
  class Parts {
    var status: nat
    var headers: HeaderMap

    constructor (res: Response)
      ensures status == res.status && headers == res.headers
    {
      status, headers := res.status, res.headers;
    }

    function With(body: Body): Response
      reads this
    {
      Response(status, headers, body)
    }

    method AppendVaryOnce()
      modifies `headers
      ensures headers == AddVary(old(headers))
    {
      var values := GetAll(headers, Vary);
      var found := false;
      var i := 0;
      while i < |values| && !found
        invariant 0 <= i <= |values| && headers == old(headers)
        invariant found ==> exists k :: 0 <= k < |values| && Contains(values[k], ACCEPT_ENCODING)
        invariant !found ==> forall k :: 0 <= k < i ==> !Contains(values[k], ACCEPT_ENCODING)
        decreases |values| - i, !found
      {
        found := ContainsIgnoreCase(values[i], ACCEPT_ENCODING);
        i := i + 1;
      }
      if !found {
        headers := Append(headers, Vary, ACCEPT_ENCODING);
      }
    }

    method CompressInPlace(coding: Option<Encoding>, p: Predicate, body: Body) returns (out: Body)
      modifies this
      ensures With(out) == Compress(coding, p, old(With(body)))
    {
      if coding == None {
        status := 406;
        AppendVaryOnce();
        return body;
      }
      var shouldCompress := ContentEncoding !in headers && ContentRange !in headers && p.ShouldCompress(With(body));
      if shouldCompress {
        AppendVaryOnce();
      }
      if !shouldCompress || coding.value == Identity {
        return body;
      }
      headers := Remove(headers, AcceptRanges);
      headers := Remove(headers, ContentLength);
      headers := Insert(headers, ContentEncoding, Name(coding.value));
      return Encoded(coding.value, body);
    }
  }

  // ---------------------------------------------------------------- stacking

  lemma ContainsItself(s: string)
    ensures Contains(s, s)
  {
    assert s[0..0 + |s|] == s;
    assert MatchesAt(s, s, 0);
  }

  lemma AddVaryVaries(headers: HeaderMap)
    ensures VariesOnEncoding(AddVary(headers)) && AddVary(AddVary(headers)) == AddVary(headers)
    ensures |GetAll(AddVary(headers), Vary)| <= |GetAll(headers, Vary)| + 1
    ensures AddVary(headers) - {Vary} == headers - {Vary}
  {
    if !VariesOnEncoding(headers) {
      ContainsItself(ACCEPT_ENCODING);
      var values := GetAll(AddVary(headers), Vary);
      assert Contains(values[|values| - 1], ACCEPT_ENCODING);
    }
  }

  /** Stacking two identical layers equals one: same status, headers and body, for every response and for every
      predicate that is a function of the response. In particular `Vary` gets no second entry. */
  lemma StackingIsIdempotent(coding: Option<Encoding>, p: Predicate, res: Response)
    ensures Compress(coding, p, Compress(coding, p, res)) == Compress(coding, p, res)
    ensures |GetAll(Compress(coding, p, res).headers, Vary)| <= |GetAll(res.headers, Vary)| + 1
  {
    AddVaryVaries(res.headers);
    var once := Compress(coding, p, res);
    if coding.Some? && coding.value != Identity && ShouldCompress(p, res) {
      assert ContentEncoding in once.headers;
      assert GetAll(once.headers, Vary) == GetAll(AddVary(res.headers), Vary);
    }
  }

  /** A response that is left alone: it is encoded already, or a part of a whole, or the predicate is against it. */
  predicate LeftAlone(p: Predicate, res: Response) {
    ContentEncoding in res.headers || ContentRange in res.headers || !p.ShouldCompress(res)
  }

  lemma VaryIsThere(coding: Option<Encoding>, p: Predicate, res: Response)
    requires coding == None || !LeftAlone(p, res)
    ensures VariesOnEncoding(Compress(coding, p, res).headers)
  {
    AddVaryVaries(res.headers);
    assert GetAll(Compress(coding, p, res).headers, Vary) == GetAll(AddVary(res.headers), Vary);
  }

  lemma OthersAreKept(coding: Option<Encoding>, p: Predicate, res: Response)
    ensures Compress(coding, p, res).headers - {Vary, ContentEncoding, ContentLength, AcceptRanges}
         == res.headers - {Vary, ContentEncoding, ContentLength, AcceptRanges}
  {
    AddVaryVaries(res.headers);
    var edited := {Vary, ContentEncoding, ContentLength, AcceptRanges};
    var varied := AddVary(res.headers);
    assert varied - edited == res.headers - edited;
    assert forall e :: Insert(Remove(Remove(varied, AcceptRanges), ContentLength), ContentEncoding, Name(e)) - edited == varied - edited;
  }

  /** The body is encoded if and only if there is a coding other than identity, the response has neither
      `Content-Encoding` nor `Content-Range`, and the predicate is for it. Then one `Content-Encoding` names the coding
      and no length and no ranges are left. Otherwise only `Vary` may change, and not even that for a response that
      is left alone. The status changes only to 406, when there is no coding. */
  lemma EditsFollowTheBody(coding: Option<Encoding>, p: Predicate, res: Response)
    ensures var out := Compress(coding, p, res);
      var encodes := coding.Some? && coding.value != Identity
                     && ContentEncoding !in res.headers && ContentRange !in res.headers && p.ShouldCompress(res);
      && out.status == (if coding == None then 406 else res.status)
      && out.body == (if encodes then Encoded(coding.value, res.body) else res.body)
      && (encodes ==> GetAll(out.headers, ContentEncoding) == [Name(coding.value)]
                      && ContentLength !in out.headers && AcceptRanges !in out.headers)
      && (!encodes ==> out.headers - {Vary} == res.headers - {Vary})
      && (encodes || coding == None ==> VariesOnEncoding(out.headers))
      && out.headers - {Vary, ContentEncoding, ContentLength, AcceptRanges}
         == res.headers - {Vary, ContentEncoding, ContentLength, AcceptRanges}
    ensures coding.Some? && LeftAlone(p, res) ==> Compress(coding, p, res) == res
  {
    AddVaryVaries(res.headers);
    OthersAreKept(coding, p, res);
    if coding == None || !LeftAlone(p, res) {
      VaryIsThere(coding, p, res);
    }
  }

  predicate OccursAt(value: string, text: string, j: nat) {
    j + |text| <= |value| && forall k :: 0 <= k < |text| ==> SameLetter(value[j + k], text[k])
  }

  /** Some value of the list has the text in it, in any case and anywhere. */
  predicate SomeNames(values: seq<HeaderValue>, text: string) {
    exists i :: 0 <= i < |values| && exists j :: 0 <= j <= |values[i]| && OccursAt(values[i], text, j)
  }

  lemma OccursIff(value: string, text: string, j: nat)
    ensures MatchesAt(value, text, j) <==> OccursAt(value, text, j)
  {
    if j + |text| <= |value| {
      var part := value[j..j + |text|];
      CaseIsIgnored(part, text);
      assert forall k :: 0 <= k < |text| ==> part[k] == value[j + k];
    }
  }

  lemma ContainsIff(value: string, text: string)
    ensures Contains(value, text) <==> exists j :: 0 <= j <= |value| && OccursAt(value, text, j)
  {
    forall j | 0 <= j <= |value|
      ensures MatchesAt(value, text, j) <==> OccursAt(value, text, j)
    {
      OccursIff(value, text, j);
    }
  }

  lemma NamesIff(headers: HeaderMap)
    ensures VariesOnEncoding(headers) <==> SomeNames(GetAll(headers, Vary), "accept-encoding")
  {
    var values := GetAll(headers, Vary);
    forall i | 0 <= i < |values|
      ensures Contains(values[i], ACCEPT_ENCODING) <==>
              exists j :: 0 <= j <= |values[i]| && OccursAt(values[i], "accept-encoding", j)
    {
      ContainsIff(values[i], "accept-encoding");
    }
  }

  /** `Vary` gets one more value, at its end, if and only if the response is not left alone and no value of it names
      `accept-encoding` yet. */
  lemma VaryIsAppended(coding: Option<Encoding>, p: Predicate, res: Response)
    ensures var values := GetAll(res.headers, Vary);
      GetAll(Compress(coding, p, res).headers, Vary) ==
      if (coding.Some? && LeftAlone(p, res)) || SomeNames(values, "accept-encoding") then values
      else values + ["accept-encoding"]
  {
    NamesIff(res.headers);
  }

  /** Headers and body agree: a response that comes without `Content-Encoding` leaves with that of a coding exactly
      when its body has been run through that coding, and without any exactly when its body is as it was. */
  lemma EncodedIffAnnounced(coding: Option<Encoding>, p: Predicate, res: Response, e: Encoding)
    requires ContentEncoding !in res.headers
    ensures var out := Compress(coding, p, res);
      && (out.body == Encoded(e, res.body) <==> GetAll(out.headers, ContentEncoding) == [Name(e)])
      && (out.body == res.body <==> ContentEncoding !in out.headers)
  {
    EditsFollowTheBody(coding, p, res);
    assert forall c :: res.body < Encoded(c, res.body);
    var out := Compress(coding, p, res);
    if coding.Some? && ContentEncoding in out.headers {
      NamesAreDistinct(coding.value, e);
    } else {
      assert (res.headers - {Vary}).Keys == (out.headers - {Vary}).Keys;
    }
  }

  lemma NamesAreDistinct(a: Encoding, b: Encoding)
    ensures Name(a) == Name(b) <==> a == b
  {
  }

  // ---------------------------------------------------------------- the predicates of the library

  /** Made of `SizeAbove`, `NotForContentType` and `Both` alone. */
  predicate OfLibrary(p: Predicate) {
    match p
    case Both(lhs, rhs) => OfLibrary(lhs) && OfLibrary(rhs)
    case Check(_) => false
    case _ => true
  }

  /** They look at the size and the type of the content and at nothing else, whatever else is done to a response. */
  lemma {:induction false} LibraryPredicatesLookAtContent(p: Predicate, a: Response, b: Response)
    requires OfLibrary(p)
    requires a.body.ExactSize() == b.body.ExactSize()
    requires Get(a.headers, ContentLength) == Get(b.headers, ContentLength)
    requires Get(a.headers, ContentType) == Get(b.headers, ContentType)
    ensures p.ShouldCompress(a) == p.ShouldCompress(b)
  {
    if p.Both? {
      LibraryPredicatesLookAtContent(p.lhs, a, b);
      LibraryPredicatesLookAtContent(p.rhs, a, b);
    }
  }

  /** In particular the default predicate does not see the `Vary` edit. */
  lemma DefaultIgnoresVary(res: Response)
    ensures DEFAULT_PREDICATE.ShouldCompress(res.(headers := AddVary(res.headers))) == DEFAULT_PREDICATE.ShouldCompress(res)
  {
    LibraryPredicatesLookAtContent(DEFAULT_PREDICATE, res.(headers := AddVary(res.headers)), res);
  }

  lemma DigitsAreVisible(text: string)
    requires AllDigits(text)
    ensures IsVisible(text)
  {
    assert forall i :: 0 <= i < |text| ==> IsDigit(text[i]);
  }

  /** A body that knows its size. */
  predicate KnowsSize(body: Body) {
    body.Original? && body.exactSize.Some?
  }

  /** The size of a body: from the body itself if it knows it, else from a `Content-Length` that is a decimal number
      below 2^64, with any zeros in front. */
  lemma SizeIsKnownFrom(res: Response, zeros: nat, n: nat)
    ensures KnowsSize(res.body) ==> ContentSize(res) == res.body.exactSize
    ensures !KnowsSize(res.body) && ContentLength !in res.headers ==> ContentSize(res) == None
    ensures !KnowsSize(res.body) && ContentLength in res.headers && res.headers[ContentLength][0] == Zeros(zeros) + Show(n) ==>
      ContentSize(res) == if n < 0x1_0000_0000_0000_0000 then Some(n) else None
  {
    ShownIsParsed(zeros, n, U64_LIMIT);
    if !KnowsSize(res.body) && ContentLength in res.headers && res.headers[ContentLength][0] == Zeros(zeros) + Show(n) {
      LengthIsParsed(res, res.headers[ContentLength][0]);
    }
  }

  lemma LengthIsParsed(res: Response, text: string)
    requires !KnowsSize(res.body) && ContentLength in res.headers && res.headers[ContentLength][0] == text
    requires AllDigits(text)
    ensures ContentSize(res) == ParseUnsigned(text, 0x1_0000_0000_0000_0000)
  {
    DigitsAreVisible(text);
  }

  /** Nothing else is taken for a length: a size that is read from `Content-Length` is a number printed there, perhaps
      with a plus sign. */
  lemma OnlyNumbersAreLengths(res: Response) returns (sign: string, zeros: nat)
    requires !KnowsSize(res.body) && ContentSize(res).Some?
    ensures ContentLength in res.headers && sign in {"", "+"}
    ensures res.headers[ContentLength][0] == sign + (Zeros(zeros) + Show(ContentSize(res).value))
  {
    var n;
    sign, zeros, n := OnlyShownIsParsed(res.headers[ContentLength][0], U64_LIMIT);
  }

  /** The text of the first `Content-Type`, if it is visible ASCII. */
  function TypeText(res: Response): string {
    if ContentType !in res.headers then ""
    else
      var v := res.headers[ContentType][0];
      if forall i :: 0 <= i < |v| ==> v[i] == '\t' || 32 <= v[i] as int <= 126 then v else ""
  }

  predicate Begins(text: string, prefix: string) {
    |prefix| <= |text| && text[..|prefix|] == prefix
  }

  lemma TypeIsText(res: Response)
    ensures ContentTypeOf(res) == TypeText(res)
    ensures forall prefix :: prefix <= ContentTypeOf(res) <==> Begins(TypeText(res), prefix)
  {
    if ContentType in res.headers {
      var v := res.headers[ContentType][0];
      assert IsVisible(v) <==> forall i :: 0 <= i < |v| ==> v[i] == '\t' || 32 <= v[i] as int <= 126;
    }
  }

  /** The default predicate in full: known sizes from 32 on and unknown ones, and no gRPC other than gRPC-Web, no images
      other than SVG, and no event streams. */
  lemma DefaultCompressesIff(res: Response)
    ensures DEFAULT_PREDICATE.ShouldCompress(res) <==>
      && (ContentSize(res).Some? ==> ContentSize(res).value >= 32)
      && (Begins(TypeText(res), "application/grpc") ==> Begins(TypeText(res), "application/grpc-web"))
      && (Begins(TypeText(res), "image/") ==> Begins(TypeText(res), "image/svg+xml"))
      && !Begins(TypeText(res), "text/event-stream")
  {
    TypeIsText(res);
    var grpc := NotForContentType("application/grpc", Some("application/grpc-web"));
    var images := NotForContentType("image/", Some("image/svg+xml"));
    var sized := Both(SizeAbove(32), grpc);
    assert sized.ShouldCompress(res) == (SizeAbove(32).ShouldCompress(res) && grpc.ShouldCompress(res));
    assert Both(sized, images).ShouldCompress(res) == (sized.ShouldCompress(res) && images.ShouldCompress(res));
  }

  /** `NotForContentType` with and without an exception. */
  lemma NotForTypeIff(contentType: string, exception: Option<string>, res: Response)
    ensures NotForContentType(contentType, exception).ShouldCompress(res) <==>
            (Begins(TypeText(res), contentType) ==> exception.Some? && Begins(TypeText(res), exception.value))
  {
    TypeIsText(res);
  }

  /** "Only larger than the minimum", as the documentation of `SizeAbove` says, is what a response of known size gets
      if and only if its size is not the minimum itself; a response of unknown size is compressed. */
  lemma LargerThanIffNotTheMinimum(min: nat, res: Response)
    ensures match ContentSize(res)
            case Some(size) => (SizeAbove(min).ShouldCompress(res) == (size > min)) <==> size != min
            case None => SizeAbove(min).ShouldCompress(res)
  {
  }

  /** Text of exactly the minimum, in one frame. */
  const TEXT_OF_32 :=
    Response(200, map[ContentType := ["text/plain"]], Original([Ready(Ok(Data(seq(32, _ => 97 as Byte))))], Some(32)))

  /** A response of exactly the minimum, which the default predicate compresses. */
  lemma DefaultCompressesTheMinimum()
    ensures ContentSize(TEXT_OF_32) == Some(32) && DEFAULT_PREDICATE.ShouldCompress(TEXT_OF_32)
  {
    var res := TEXT_OF_32;
    assert ContentTypeOf(res) == "text/plain";
    assert "text/plain"[0] != "application/grpc"[0] && "text/plain"[0] != "image/"[0];
    assert "text/plain"[5] != "text/event-stream"[5];
    var grpc := NotForContentType("application/grpc", Some("application/grpc-web"));
    var images := NotForContentType("image/", Some("image/svg+xml"));
    assert SizeAbove(32).ShouldCompress(res) && grpc.ShouldCompress(res) && images.ShouldCompress(res);
    assert Both(SizeAbove(32), grpc).ShouldCompress(res);
    assert Both(Both(SizeAbove(32), grpc), images).ShouldCompress(res);
  }
}
