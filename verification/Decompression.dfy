/** `Decompression`: what it asks for, and what it does with the answer. */
module Decompression {
  import opened Http
  import opened ContentEncoding
  import opened Compression

  /** `AcceptEncoding::to_header_value`. */
  function ToHeaderValue(accept: Supported): Option<HeaderValue> {
    match accept
    case Supported(true, true, true, false) => Some("gzip,deflate,br")
    case Supported(true, true, false, false) => Some("gzip,deflate")
    case Supported(true, false, true, false) => Some("gzip,br")
    case Supported(true, false, false, false) => Some("gzip")
    case Supported(false, true, true, false) => Some("deflate,br")
    case Supported(false, true, false, false) => Some("deflate")
    case Supported(false, false, true, false) => Some("br")
    case Supported(true, true, true, true) => Some("zstd,gzip,deflate,br")
    case Supported(true, true, false, true) => Some("zstd,gzip,deflate")
    case Supported(true, false, true, true) => Some("zstd,gzip,br")
    case Supported(true, false, false, true) => Some("zstd,gzip")
    case Supported(false, true, true, true) => Some("zstd,deflate,br")
    case Supported(false, true, false, true) => Some("zstd,deflate")
    case Supported(false, false, true, true) => Some("zstd,br")
    case Supported(false, false, false, true) => Some("zstd")
    case Supported(false, false, false, false) => None
  }

  /** The request headers that `Decompression::call` sends on. */
  function Asked(accept: Supported, headers: HeaderMap): HeaderMap {
    match ToHeaderValue(accept)
    case Some(value) => if AcceptEncoding in headers then headers else Insert(headers, AcceptEncoding, value)
    case None => headers
  }

  /** The decoder for a `Content-Encoding`, if this side has it enabled. */
  function DecoderFor(accept: Supported, value: HeaderValue): Option<Encoding> {
    if value == "gzip" && accept.gzip then Some(Gzip)
    else if value == "deflate" && accept.deflate then Some(Deflate)
    else if value == "br" && accept.br then Some(Brotli)
    else if value == "zstd" && accept.zstd then Some(Zstd)
    else None
  }

  /** `ResponseFuture::poll`, once the inner response is there. */
  function Decompress(accept: Supported, res: Response): Response {
    match Get(res.headers, ContentEncoding)
    case None => res
    case Some(value) =>
      match DecoderFor(accept, value)
      case None => res
      case Some(e) =>
        Response(res.status, Remove(Remove(res.headers, ContentEncoding), ContentLength), Decoded(e, res.body))
  }

  /** The request of a decompressing client, edited in place. */
  class RequestHeaders {
    var headers: HeaderMap

    constructor (headers: HeaderMap)
      ensures this.headers == headers
    {
      this.headers := headers;
    }

    method AskForEncodings(accept: Supported)
      modifies this
      ensures headers == Asked(accept, old(headers))
    {
      if AcceptEncoding !in headers {
        var value := ToHeaderValue(accept);
        if value.Some? {
          headers := Insert(headers, AcceptEncoding, value.value);
        }
      }
    }
  }

  method DecompressInPlace(parts: Parts, accept: Supported, body: Body) returns (out: Body)
    modifies parts
    ensures parts.With(out) == Decompress(accept, old(parts.With(body)))
  {
    var value := Get(parts.headers, ContentEncoding);
    if value == None {
      return body;
    }
    var decoder := DecoderFor(accept, value.value);
    if decoder == None {
      return body;
    }
    parts.headers := Remove(parts.headers, ContentEncoding);
    parts.headers := Remove(parts.headers, ContentLength);
    return Decoded(decoder.value, body);
  }

  /** A body is decoded exactly when its first `Content-Encoding` names a coding that is enabled, letter for letter;
      then that header and the length are gone and nothing else changes, and otherwise nothing changes at all. */
  lemma DecodesIffEnabled(accept: Supported, res: Response, e: Encoding)
    ensures var out := Decompress(accept, res);
      && (out.body == Decoded(e, res.body) <==>
            && e != Identity && accept.Has(e)
            && ContentEncoding in res.headers && res.headers[ContentEncoding][0] == Name(e))
      && (out.body == Decoded(e, res.body) ==>
            out.status == res.status && out.headers == res.headers - {ContentEncoding, ContentLength})
      && (out == res || exists c :: out.body == Decoded(c, res.body))
  {
    assert Remove(Remove(res.headers, ContentEncoding), ContentLength) == res.headers - {ContentEncoding, ContentLength};
    assert forall c :: res.body < Decoded(c, res.body);
  }
}
