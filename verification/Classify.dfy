/** Response classifiers: `GrpcErrorsAsFailures` and `MapFailureClass`. */
module Classify {
  import opened Http
  import opened BodyStream
  import opened Numbers
  import opened Trace

  datatype GrpcCode =
    | Success
    | Cancelled
    | Unspecified
    | InvalidArgument
    | DeadlineExceeded
    | NotFound
    | AlreadyExists
    | PermissionDenied
    | ResourceExhausted
    | FailedPrecondition
    | Aborted
    | OutOfRange
    | Unimplemented
    | Internal
    | Unavailable
    | DataLoss
    | Unauthenticated

  const CODES: seq<GrpcCode> := [
    Success, Cancelled, Unspecified, InvalidArgument, DeadlineExceeded, NotFound, AlreadyExists, PermissionDenied,
    ResourceExhausted, FailedPrecondition, Aborted, OutOfRange, Unimplemented, Internal, Unavailable, DataLoss,
    Unauthenticated]

  /** `GrpcCode::from_i32`. */
  function FromI32(code: int): Option<GrpcCode> {
    if 0 <= code < |CODES| then Some(CODES[code]) else None
  }

  /** `GrpcCode::into_bitmask`. */
  function IntoBitmask(code: GrpcCode): bv32 {
    match code
    case Success => 0x1
    case Cancelled => 0x2
    case Unspecified => 0x4
    case InvalidArgument => 0x8
    case DeadlineExceeded => 0x10
    case NotFound => 0x20
    case AlreadyExists => 0x40
    case PermissionDenied => 0x80
    case ResourceExhausted => 0x100
    case FailedPrecondition => 0x200
    case Aborted => 0x400
    case OutOfRange => 0x800
    case Unimplemented => 0x1000
    case Internal => 0x2000
    case Unavailable => 0x4000
    case DataLoss => 0x8000
    case Unauthenticated => 0x1_0000
  }

  /** `bitflags`' `contains`. */
  predicate Contains(mask: bv32, flag: bv32) {
    mask & flag == flag
  }

  datatype GrpcStatus = GrpcStatus(code: Option<GrpcCode>, codeRaw: int, message: Option<string>)

  datatype ParsedGrpcStatus =
    | Accepted
    | NonSuccess(status: GrpcStatus)
    | GrpcStatusHeaderMissing
    | HeaderNotGrpcCode

  datatype GrpcFailureClass = Status(status: GrpcStatus) | Broke(error: Error)

  /** `classify_grpc_metadata`. `decode` is the percent and UTF-8 decoding of the message. */
  function ClassifyGrpcMetadata(headers: HeaderMap, successCodes: bv32, decode: HeaderValue -> string): ParsedGrpcStatus {
    match Get(headers, HeaderName.GrpcStatus)
    case None => GrpcStatusHeaderMissing
    case Some(header) =>
      match if IsVisible(header) then ParseI32(header) else None
      case None => HeaderNotGrpcCode
      case Some(raw) =>
        var code := FromI32(raw);
        if code.Some? && Contains(successCodes, IntoBitmask(code.value)) then Accepted
        else
          var message := Get(headers, GrpcMessage);
          NonSuccess(GrpcStatus.GrpcStatus(code, raw, if message.Some? then Some(decode(message.value)) else None))
  }

  datatype GrpcErrorsAsFailures = GrpcErrorsAsFailures(successCodes: bv32, decode: HeaderValue -> string) {
    function WithSuccess(code: GrpcCode): GrpcErrorsAsFailures {
      this.(successCodes := successCodes | IntoBitmask(code))
    }

    /** `ClassifyResponse::classify_response`. */
    function Response(head: Head): Classified<GrpcFailureClass> {
      match ClassifyGrpcMetadata(head.headers, successCodes, decode)
      case Accepted => Settled(None)
      case HeaderNotGrpcCode => Settled(None)
      case NonSuccess(status) => Settled(Some(Status(status)))
      case GrpcStatusHeaderMissing => RequiresEos(ClassifyEos(t => Eos(t), e => Broke(e)))
    }

    /** `ClassifyEos::classify_eos`. */
    function Eos(trailers: Option<HeaderMap>): Option<GrpcFailureClass> {
      if trailers.None? then None
      else
        match ClassifyGrpcMetadata(trailers.value, successCodes, decode)
        case NonSuccess(status) => Some(Status(status))
        case _ => None
    }

    function ToClassifier(): Classifier<GrpcFailureClass> {
      Classifier(head => Response(head), e => Broke(e))
    }
  }

  function NewGrpc(decode: HeaderValue -> string): GrpcErrorsAsFailures {
    GrpcErrorsAsFailures(IntoBitmask(Success), decode)
  }

  /** `new().with_success(c0).with_success(c1)…`. */
  function Configured(decode: HeaderValue -> string, codes: seq<GrpcCode>): GrpcErrorsAsFailures {
    if codes == [] then NewGrpc(decode)
    else Configured(decode, codes[..|codes| - 1]).WithSuccess(codes[|codes| - 1])
  }

  /** `MapFailureClass` over a classifier, and over its `ClassifyEos`. */
  function MapEos<F, G>(classify: ClassifyEos<F>, f: F -> G): ClassifyEos<G> {
    ClassifyEos(
      trailers => match classify.eos(trailers) { case Some(failure) => Some(f(failure)) case None => None },
      e => f(classify.error(e)))
  }

  function MapClassifier<F, G>(classifier: Classifier<F>, f: F -> G): Classifier<G> {
    Classifier(
      head =>
        match classifier.response(head)
        case Settled(None) => Settled(None)
        case Settled(Some(failure)) => Settled(Some(f(failure)))
        case RequiresEos(classify) => RequiresEos(MapEos(classify, f)),
      e => f(classifier.error(e)))
  }
}
