/** `Decompression` over `Compression`, from the request to the last byte of the body. */
module EndToEnd {
  import opened Http
  import opened BodyStream
  import opened WrapBody
  import opened WrapBodyRuns
  import opened WrapBodyRefinement
  import opened WrapBodyEnds
  import opened WrapBodyRoundTrip
  import opened ContentEncoding
  import opened HeaderSyntax
  import opened Negotiation
  import opened Compression
  import opened Decompression

  // ---------------------------------------------------------------- negotiation

  /** A coding listed by name alone. */
  function Plain(e: Encoding): Listed {
    Listed("", Name(e), "", None)
  }

  function PlainList(codings: seq<Encoding>): seq<Listed> {
    if codings == [] then [] else [Plain(codings[0])] + PlainList(codings[1..])
  }

  /** The codings that a client asks for, in the order of its header. */
  function Wanted(accept: Supported): seq<Encoding> {
    (if accept.zstd then [Zstd] else []) + (if accept.gzip then [Gzip] else [])
    + (if accept.deflate then [Deflate] else []) + (if accept.br then [Brotli] else [])
  }

  lemma PlainIsWellFormed(e: Encoding)
    ensures Plain(e).WellFormed()
  {
  }

  lemma {:induction false} PlainListIsWellFormed(codings: seq<Encoding>)
    ensures AllWellFormed(PlainList(codings)) && |PlainList(codings)| == |codings|
  {
    if codings != [] {
      PlainIsWellFormed(codings[0]);
      PlainListIsWellFormed(codings[1..]);
    }
  }

  function Names(codings: seq<Encoding>): seq<string> {
    if codings == [] then [] else [Name(codings[0])] + Names(codings[1..])
  }

  lemma {:induction false} RendersOfPlain(codings: seq<Encoding>)
    ensures Renders(PlainList(codings)) == Names(codings)
  {
    if codings != [] {
      assert Plain(codings[0]).Render() == Name(codings[0]);
      assert PlainList(codings)[1..] == PlainList(codings[1..]);
      RendersOfPlain(codings[1..]);
    }
  }

  lemma JoinOne(a: Encoding)
    ensures Join(Names([a])) == Name(a)
  {
  }

  lemma JoinMore(a: Encoding, rest: seq<Encoding>)
    requires rest != []
    ensures Join(Names([a] + rest)) == Name(a) + "," + Join(Names(rest))
  {
    assert ([a] + rest)[1..] == rest;
    assert Names([a] + rest)[1..] == Names(rest);
  }

  lemma JoinTwo(a: Encoding, b: Encoding)
    ensures Join(Names([a, b])) == Name(a) + "," + Name(b)
  {
    JoinOne(b);
    JoinMore(a, [b]);
    assert [a] + [b] == [a, b];
  }

  lemma JoinThree(a: Encoding, b: Encoding, c: Encoding)
    ensures Join(Names([a, b, c])) == Name(a) + "," + Name(b) + "," + Name(c)
  {
    JoinTwo(b, c);
    JoinMore(a, [b, c]);
    assert [a] + [b, c] == [a, b, c];
    Regrouped(Name(a), Name(b), Name(c));
  }

  lemma JoinFour(a: Encoding, b: Encoding, c: Encoding, d: Encoding)
    ensures Join(Names([a, b, c, d])) == Name(a) + "," + Name(b) + "," + Name(c) + "," + Name(d)
  {
    JoinThree(b, c, d);
    JoinMore(a, [b, c, d]);
    assert [a] + [b, c, d] == [a, b, c, d];
    Regrouped(Name(a), Name(b) + "," + Name(c), Name(d));
    Regrouped(Name(a), Name(b), Name(c));
  }

  lemma Regrouped(x: string, y: string, z: string)
    ensures x + "," + (y + "," + z) == x + "," + y + "," + z
  {
  }

  /** The sixteen header values are the lists of the enabled codings. */
  lemma HeaderIsList(accept: Supported)
    ensures ToHeaderValue(accept) == if Wanted(accept) == [] then None else Some(Join(Renders(PlainList(Wanted(accept)))))
  {
    RendersOfPlain(Wanted(accept));
    match (accept.zstd, accept.gzip)
    case (true, true) => HeaderOfZstdAndGzip(accept);
    case (true, false) => HeaderOfZstd(accept);
    case (false, true) => HeaderOfGzip(accept);
    case (false, false) => HeaderOfNeither(accept);
  }

  /** A request with its own `Accept-Encoding` goes out as it is, and so does any if nothing is enabled; any other gets
      one value, the list of the enabled codings, and is otherwise as it was. */
  lemma AsksUnlessAsked(accept: Supported, headers: HeaderMap)
    ensures Asked(accept, headers) ==
            if AcceptEncoding in headers || accept == Supported(false, false, false, false) then headers
            else headers[AcceptEncoding := [Join(Renders(PlainList(Wanted(accept))))]]
  {
    HeaderIsList(accept);
  }

  lemma HeaderOfZstdAndGzip(accept: Supported)
    requires accept.zstd && accept.gzip
    ensures ToHeaderValue(accept) == if Wanted(accept) == [] then None else Some(Join(Names(Wanted(accept))))
  {
    match (accept.deflate, accept.br)
    case (true, true) =>
      JoinFour(Zstd, Gzip, Deflate, Brotli);
      assert Wanted(accept) == [Zstd, Gzip, Deflate, Brotli];
      assert "zstd" + "," + "gzip" + "," + "deflate" + "," + "br" == "zstd,gzip,deflate,br";
    case (true, false) =>
      JoinThree(Zstd, Gzip, Deflate);
      assert Wanted(accept) == [Zstd, Gzip, Deflate];
      assert "zstd" + "," + "gzip" + "," + "deflate" == "zstd,gzip,deflate";
    case (false, true) =>
      JoinThree(Zstd, Gzip, Brotli);
      assert Wanted(accept) == [Zstd, Gzip, Brotli];
      assert "zstd" + "," + "gzip" + "," + "br" == "zstd,gzip,br";
    case (false, false) =>
      JoinTwo(Zstd, Gzip);
      assert Wanted(accept) == [Zstd, Gzip];
      assert "zstd" + "," + "gzip" == "zstd,gzip";
  }

  lemma HeaderOfZstd(accept: Supported)
    requires accept.zstd && !accept.gzip
    ensures ToHeaderValue(accept) == if Wanted(accept) == [] then None else Some(Join(Names(Wanted(accept))))
  {
    match (accept.deflate, accept.br)
    case (true, true) =>
      JoinThree(Zstd, Deflate, Brotli);
      assert Wanted(accept) == [Zstd, Deflate, Brotli];
      assert "zstd" + "," + "deflate" + "," + "br" == "zstd,deflate,br";
    case (true, false) =>
      JoinTwo(Zstd, Deflate);
      assert Wanted(accept) == [Zstd, Deflate];
      assert "zstd" + "," + "deflate" == "zstd,deflate";
    case (false, true) =>
      JoinTwo(Zstd, Brotli);
      assert Wanted(accept) == [Zstd, Brotli];
      assert "zstd" + "," + "br" == "zstd,br";
    case (false, false) =>
      JoinOne(Zstd);
      assert Wanted(accept) == [Zstd];
  }

  lemma HeaderOfGzip(accept: Supported)
    requires !accept.zstd && accept.gzip
    ensures ToHeaderValue(accept) == if Wanted(accept) == [] then None else Some(Join(Names(Wanted(accept))))
  {
    match (accept.deflate, accept.br)
    case (true, true) =>
      JoinThree(Gzip, Deflate, Brotli);
      assert Wanted(accept) == [Gzip, Deflate, Brotli];
      assert "gzip" + "," + "deflate" + "," + "br" == "gzip,deflate,br";
    case (true, false) =>
      JoinTwo(Gzip, Deflate);
      assert Wanted(accept) == [Gzip, Deflate];
      assert "gzip" + "," + "deflate" == "gzip,deflate";
    case (false, true) =>
      JoinTwo(Gzip, Brotli);
      assert Wanted(accept) == [Gzip, Brotli];
      assert "gzip" + "," + "br" == "gzip,br";
    case (false, false) =>
      JoinOne(Gzip);
      assert Wanted(accept) == [Gzip];
  }

  lemma HeaderOfNeither(accept: Supported)
    requires !accept.zstd && !accept.gzip
    ensures ToHeaderValue(accept) == if Wanted(accept) == [] then None else Some(Join(Names(Wanted(accept))))
  {
    match (accept.deflate, accept.br)
    case (true, true) =>
      JoinTwo(Deflate, Brotli);
      assert Wanted(accept) == [Deflate, Brotli];
      assert "deflate" + "," + "br" == "deflate,br";
    case (true, false) =>
      JoinOne(Deflate);
      assert Wanted(accept) == [Deflate];
    case (false, true) =>
      JoinOne(Brotli);
      assert Wanted(accept) == [Brotli];
    case (false, false) =>
  }

  /** Codings that both sides have enabled. */
  predicate Common(client: Supported, server: Supported, e: Encoding) {
    e != Identity && client.Has(e) && server.Has(e)
  }

  /** The most preferred common coding, or identity. */
  function BestCommon(client: Supported, server: Supported): Encoding {
    if Common(client, server, Zstd) then Zstd
    else if Common(client, server, Brotli) then Brotli
    else if Common(client, server, Gzip) then Gzip
    else if Common(client, server, Deflate) then Deflate
    else Identity
  }

  lemma NameParses(e: Encoding, server: Supported)
    requires e != Identity
    ensures ParseEncoding(Name(e), server) == if server.Has(e) then Some(e) else None
    ensures Name(e) != "*"
  {
    NamesDiffer(Name(e));
    assert !EqIgnoreCase(Name(Zstd), "gzip") by { NamesDiffer("zstd"); }
  }

  /** What the server reads from the client's list. */
  lemma {:induction false} ListIsRead(codings: seq<Encoding>, server: Supported)
    requires Identity !in codings
    ensures var elements := Renders(PlainList(codings));
      && (forall x :: x in Entries(elements, server) <==> x.0 in codings && server.Has(x.0) && x.1 == 1000)
      && Wildcard(elements) == None
  {
    if codings != [] {
      var e := codings[0];
      PlainIsWellFormed(e);
      NameParses(e, server);
      ReadsElement(Plain(e), server);
      ListIsRead(codings[1..], server);
      assert PlainList(codings)[1..] == PlainList(codings[1..]);
      assert Renders(PlainList(codings))[1..] == Renders(PlainList(codings[1..]));
      assert forall c :: c in codings <==> c == e || c in codings[1..];
    }
  }

  lemma WantedIsEnabled(client: Supported)
    ensures forall e :: e in Wanted(client) <==> e != Identity && client.Has(e)
  {
    assert Gzip in Wanted(client) <==> client.gzip;
    assert Deflate in Wanted(client) <==> client.deflate;
    assert Brotli in Wanted(client) <==> client.br;
    assert Zstd in Wanted(client) <==> client.zstd;
  }

  lemma AskedElements(client: Supported, headers: HeaderMap)
    requires AcceptEncoding !in headers
    ensures Elements(GetAll(Asked(client, headers), AcceptEncoding)) == Renders(PlainList(Wanted(client)))
  {
    HeaderIsList(client);
    var list := PlainList(Wanted(client));
    PlainListIsWellFormed(Wanted(client));
    if list != [] {
      ListSplits(list);
      ElementsOfOne(Join(Renders(list)));
    }
  }

  /** A client that leaves `Accept-Encoding` to `Decompression` gets the most preferred coding that both sides have
      enabled; the answer is never that nothing is acceptable. */
  lemma NegotiatesBestCommon(client: Supported, server: Supported, headers: HeaderMap)
    requires AcceptEncoding !in headers
    ensures FromHeaders(Asked(client, headers), server) == Some(BestCommon(client, server))
  {
    var elements := Elements(GetAll(Asked(client, headers), AcceptEncoding));
    AskedElements(client, headers);
    WantedIsEnabled(client);
    ListIsRead(Wanted(client), server);
    var entries := Entries(elements, server);
    forall e ensures EffectiveWeight(elements, server, e) == if Common(client, server, e) then 1000 else 0 {
      GreatestWeightIsListed(entries, e);
      if Common(client, server, e) {
        assert (e, 1000) in entries;
      }
    }
    BestCommonIsChoice(elements, client, server);
    FromHeadersIsTheChoice(Asked(client, headers), server, Some(BestCommon(client, server)));
  }

  lemma BestCommonIsChoice(elements: seq<string>, client: Supported, server: Supported)
    requires forall e :: EffectiveWeight(elements, server, e) == if Common(client, server, e) then 1000 else 0
    requires Wildcard(elements) == None && (Identity, 0) !in Entries(elements, server)
    ensures IsChoice(elements, server, Some(BestCommon(client, server)))
  {
    var best := BestCommon(client, server);
    assert !Common(client, server, Identity);
    forall e | server.Has(e)
      ensures EffectiveWeight(elements, server, e) == 0 || (Common(client, server, best) && Preference(e) <= Preference(best))
    {
      assert Common(client, server, e) || EffectiveWeight(elements, server, e) == 0;
    }
  }

  // ---------------------------------------------------------------- headers

  /** The response as the client gets it: the inner response, compressed by the server, decompressed by the client. */
  function Exchanged(client: Supported, server: Supported, p: Predicate, headers: HeaderMap, res: Response): Response {
    Decompress(client, Compress(FromHeaders(Asked(client, headers), server), p, res))
  }

  lemma InsertedThenRemoved(headers: HeaderMap, e: Encoding)
    requires ContentEncoding !in headers
    ensures var edited := Insert(Remove(Remove(headers, AcceptRanges), ContentLength), ContentEncoding, Name(e));
      Remove(Remove(edited, ContentEncoding), ContentLength) == headers - {AcceptRanges, ContentLength}
  {
  }

  lemma CompressedHeaders(e: Encoding, p: Predicate, res: Response)
    requires ContentEncoding !in res.headers && !LeftAlone(p, res) && e != Identity
    ensures var compressed := Compress(Some(e), p, res);
      && compressed.status == res.status && compressed.body == Encoded(e, res.body)
      && Get(compressed.headers, ContentEncoding) == Some(Name(e))
      && Remove(Remove(compressed.headers, ContentEncoding), ContentLength)
         == AddVary(res.headers) - {AcceptRanges, ContentLength}
  {
    InsertedThenRemoved(AddVary(res.headers), e);
  }

  lemma CompressThenDecompress(client: Supported, server: Supported, p: Predicate, res: Response)
    requires ContentEncoding !in res.headers && !LeftAlone(p, res) && BestCommon(client, server) != Identity
    ensures var e := BestCommon(client, server);
      Decompress(client, Compress(Some(e), p, res))
      == Response(res.status, AddVary(res.headers) - {AcceptRanges, ContentLength}, Decoded(e, Encoded(e, res.body)))
  {
    DecoderIsFound(client, server);
    CompressedHeaders(BestCommon(client, server), p, res);
  }

  /** For every request without its own `Accept-Encoding`, whatever both sides have enabled and for every
      predicate: the status is the one of the inner response, no `Content-Encoding` is left, and the body is
      the original one or that body encoded and decoded with one common coding. */
  lemma ExchangeIsTransparent(client: Supported, server: Supported, p: Predicate, headers: HeaderMap, res: Response)
    requires AcceptEncoding !in headers && ContentEncoding !in res.headers
    ensures var out := Exchanged(client, server, p, headers, res); var e := BestCommon(client, server);
      && out.status == res.status
      && ContentEncoding !in out.headers
      && (if !LeftAlone(p, res) && e != Identity then
            && Common(client, server, e) && out.body == Decoded(e, Encoded(e, res.body))
            && out.headers == AddVary(res.headers) - {AcceptRanges, ContentLength}
          else out.body == res.body && out.headers == if !LeftAlone(p, res) then AddVary(res.headers) else res.headers)
  {
    NegotiatesBestCommon(client, server, headers);
    if !LeftAlone(p, res) && BestCommon(client, server) != Identity {
      CompressThenDecompress(client, server, p, res);
      DecoderIsFound(client, server);
    }
  }

  lemma DecoderIsFound(client: Supported, server: Supported)
    requires BestCommon(client, server) != Identity
    ensures Common(client, server, BestCommon(client, server))
    ensures DecoderFor(client, Name(BestCommon(client, server))) == Some(BestCommon(client, server))
  {
  }

  // ---------------------------------------------------------------- bodies

  /** The codecs that both sides use, one pair for each coding. */
  datatype Codecs = Codecs(encoder: Encoding -> Codec, decoder: Encoding -> Codec)

  /** Every decoder inverts its encoder, and on the data of this body both return bytes boundedly often. */
  ghost predicate Faithful(codecs: Codecs, data: Bytes, limit: nat) {
    forall e :: e != Identity ==>
      && Encodes(codecs.encoder(e)) && Inverts(codecs.decoder(e), codecs.encoder(e))
      && Bounded(codecs.encoder(e), data, limit)
      && forall y :: Finishes(codecs.encoder(e), data, y) ==> Bounded(codecs.decoder(e), y, limit)
  }

  function Through(c: Codec, body: Script, n: nat): seq<Outcome> {
    Run(c, FreshWrap(body), n).0
  }

  /** `script` is what a response body answers when it is polled until it ends. */
  ghost predicate Plays(codecs: Codecs, body: Body, script: Script) {
    match body
    case Original(script', _) => script == script'
    case Encoded(e, inner) =>
      exists under: Script, n: nat :: Plays(codecs, inner, under)
        && Polled(Ready(None)) in Through(codecs.encoder(e), under, n) && script == Wire(Through(codecs.encoder(e), under, n))
    case Decoded(e, inner) =>
      exists under: Script, n: nat :: Plays(codecs, inner, under)
        && Polled(Ready(None)) in Through(codecs.decoder(e), under, n) && script == Wire(Through(codecs.decoder(e), under, n))
  }

  /** The same data and the same trailers, as a body that keeps the contract. */
  predicate SameContent(a: seq<Item>, b: seq<Item>) {
    DataOf(a) == DataOf(b) && Signals(a) == Signals(b) && Conforms(a)
  }

  lemma CodedPlayIsFaithful(codecs: Codecs, e: Encoding, original: Script, size: Option<nat>, limit: nat, script: Script)
    requires Faithful(codecs, DataOf(Items(original)), limit) && e != Identity && Conforms(Items(original))
    requires Plays(codecs, Decoded(e, Encoded(e, Original(original, size))), script)
    ensures SameContent(Items(script), Items(original))
  {
    var under: Script, m: nat :| Plays(codecs, Encoded(e, Original(original, size)), under)
      && Polled(Ready(None)) in Through(codecs.decoder(e), under, m) && script == Wire(Through(codecs.decoder(e), under, m));
    var source: Script, n: nat :| Plays(codecs, Original(original, size), source)
      && Polled(Ready(None)) in Through(codecs.encoder(e), source, n) && under == Wire(Through(codecs.encoder(e), source, n));
    EncodedBody(codecs.encoder(e), original, n);
    RoundTrip(codecs.encoder(e), codecs.decoder(e), original, n, m);
    WireOfRun(codecs.decoder(e), under, m);
  }

  lemma WireOfRun(c: Codec, body: Script, n: nat)
    requires Conforms(Items(body)) && Accepts(c, DataOf(Items(body)))
    ensures Items(Wire(Through(c, body, n))) == Delivered(Through(c, body, n))
  {
    assert FreshWrap(body).Left() == Items(body);
    WireCarriesRun(c, DataOf(Items(body)), FreshWrap(body), n);
  }

  lemma CodedPlayExists(codecs: Codecs, e: Encoding, original: Script, size: Option<nat>, limit: nat) returns (script: Script)
    requires Faithful(codecs, DataOf(Items(original)), limit) && e != Identity && Conforms(Items(original))
    ensures Plays(codecs, Decoded(e, Encoded(e, Original(original, size))), script)
  {
    var n := 2 * |original| + limit + 1;
    var m := 2 * n + limit + 1;
    assert FreshWrap(original).Left() == Items(original);
    RunReachesEnd(codecs.encoder(e), DataOf(Items(original)), FreshWrap(original), limit, n);
    var under := Wire(Through(codecs.encoder(e), original, n));
    assert Plays(codecs, Original(original, size), original);
    assert Plays(codecs, Encoded(e, Original(original, size)), under);
    RoundTripCompletes(codecs.encoder(e), codecs.decoder(e), original, limit, limit, n, m);
    script := Wire(Through(codecs.decoder(e), under, m));
    assert Plays(codecs, Encoded(e, Original(original, size)), under)
      && Polled(Ready(None)) in Through(codecs.decoder(e), under, m) && script == Wire(Through(codecs.decoder(e), under, m));
  }

  /** `items` is what a response body has delivered after any number of polls, at its end or before. */
  ghost predicate Reads(codecs: Codecs, body: Body, items: seq<Item>) {
    match body
    case Original(script, _) => exists k :: 0 <= k <= |script| && items == Items(script[..k])
    case Encoded(e, inner) =>
      exists under: Script, n: nat :: Plays(codecs, inner, under) && items == Delivered(Through(codecs.encoder(e), under, n))
    case Decoded(e, inner) =>
      exists under: Script, n: nat :: Plays(codecs, inner, under) && items == Delivered(Through(codecs.decoder(e), under, n))
  }

  /** The first bytes and the first signals. */
  predicate StartOf(a: seq<Item>, b: seq<Item>) {
    DataOf(a) <= DataOf(b) && Signals(a) <= Signals(b)
  }

  lemma CodedReadIsAStart(codecs: Codecs, e: Encoding, original: Script, size: Option<nat>, limit: nat, items: seq<Item>)
    requires Faithful(codecs, DataOf(Items(original)), limit) && e != Identity && Conforms(Items(original))
    requires Reads(codecs, Decoded(e, Encoded(e, Original(original, size))), items)
    ensures StartOf(items, Items(original))
  {
    var under: Script, m: nat :| Plays(codecs, Encoded(e, Original(original, size)), under)
      && items == Delivered(Through(codecs.decoder(e), under, m));
    var source: Script, n: nat :| Plays(codecs, Original(original, size), source)
      && Polled(Ready(None)) in Through(codecs.encoder(e), source, n) && under == Wire(Through(codecs.encoder(e), source, n));
    RoundTripSoFar(codecs.encoder(e), codecs.decoder(e), original, limit, n, m);
  }

  lemma {:induction false} ItemsGrow(script: Script, k: nat)
    requires k <= |script|
    ensures Items(script[..k]) <= Items(script)
  {
    if k > 0 {
      ItemsGrow(script[1..], k - 1);
      assert script[..k][1..] == script[1..][..k - 1];
    }
  }

  lemma PlainReadIsAStart(codecs: Codecs, original: Script, size: Option<nat>, items: seq<Item>)
    requires Reads(codecs, Original(original, size), items)
    ensures StartOf(items, Items(original))
  {
    var k :| 0 <= k <= |original| && items == Items(original[..k]);
    ItemsGrow(original, k);
    var rest := Items(original)[|items|..];
    assert Items(original) == items + rest;
    DataOfConcat(items, rest);
    SignalsConcat(items, rest);
  }

  /** The body of a response is the original one, for a reader who stops anywhere and for one who does not stop. */
  ghost predicate Arrives(codecs: Codecs, body: Body, original: seq<Item>) {
    && (forall items :: Reads(codecs, body, items) ==> StartOf(items, original))
    && (forall script :: Plays(codecs, body, script) ==> SameContent(Items(script), original))
    && (exists script :: Plays(codecs, body, script))
  }

  lemma CodedBodyArrives(codecs: Codecs, e: Encoding, original: Script, size: Option<nat>, limit: nat)
    requires Faithful(codecs, DataOf(Items(original)), limit) && e != Identity && Conforms(Items(original))
    ensures Arrives(codecs, Decoded(e, Encoded(e, Original(original, size))), Items(original))
  {
    var body := Decoded(e, Encoded(e, Original(original, size)));
    forall items | Reads(codecs, body, items) ensures StartOf(items, Items(original)) {
      CodedReadIsAStart(codecs, e, original, size, limit, items);
    }
    forall script | Plays(codecs, body, script) ensures SameContent(Items(script), Items(original)) {
      CodedPlayIsFaithful(codecs, e, original, size, limit, script);
    }
    var script := CodedPlayExists(codecs, e, original, size, limit);
  }

  lemma PlainBodyArrives(codecs: Codecs, original: Script, size: Option<nat>)
    requires Conforms(Items(original))
    ensures Arrives(codecs, Original(original, size), Items(original))
  {
    var body := Original(original, size);
    forall items | Reads(codecs, body, items) ensures StartOf(items, Items(original)) {
      PlainReadIsAStart(codecs, original, size, items);
    }
    assert Plays(codecs, body, original);
  }

  /** End to end: for every request without its own `Accept-Encoding`, whatever both sides have enabled, for every
      predicate and every body that keeps its contract under every schedule of pending polls; given that encoders
      take any input, that decoders invert them, and that on this body both return bytes boundedly often. At every
      moment the client has the first bytes of the original body; polled to the end, in whatever way, the body has
      delivered the original data and trailers; and it does end. */
  lemma WholeBodyArrives(client: Supported, server: Supported, p: Predicate, headers: HeaderMap, res: Response,
                         codecs: Codecs, limit: nat)
    requires AcceptEncoding !in headers && ContentEncoding !in res.headers
    requires res.body.Original? && Conforms(Items(res.body.script))
    requires Faithful(codecs, DataOf(Items(res.body.script)), limit)
    ensures var out := Exchanged(client, server, p, headers, res);
      && out.status == res.status && ContentEncoding !in out.headers
      && Arrives(codecs, out.body, Items(res.body.script))
  {
    ExchangeIsTransparent(client, server, p, headers, res);
    if Exchanged(client, server, p, headers, res).body == res.body {
      PlainBodyArrives(codecs, res.body.script, res.body.exactSize);
    } else {
      CodedBodyArrives(codecs, BestCommon(client, server), res.body.script, res.body.exactSize, limit);
    }
  }
}
