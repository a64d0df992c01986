# Verified models of tower-http

Dafny models of the stateful core of `tower-http`, and proofs about whole runs of it. Loops,
objects that update their fields and poll functions are written in place, as in the source, and proved
equal to step functions; the theorems are about runs of those step functions. `dafny verify dfyconfig.toml`
checks everything.

* **Streaming bodies** (`BodyStream`, `WrapBody*`). A body is the list of answers that it gives to its polls,
  with any schedule of pending ones. A codec is any deterministic transducer: a function from the history of
  what it has read and written to its next move. The three adapters are proved to conserve every frame, to
  tunnel body errors, to refine "transform all data, then the trailers", to make progress, to notice payload
  after the encoded stream exactly when it starts a later frame, and, stacked, to round-trip.
* **Redirects** (`FollowRedirect`, `Redirect*`, `PolicyObjects`). Arbitrary servers, and arbitrary policies
  given as functions on their own state: when a redirect is followed and what is sent then, and what whole calls
  keep; then the trees that the library offers, told by their leaves, on values and as objects that own them.
* **Negotiation** (`Numbers`, `QValue`, `ContentEncoding`, `HeaderSyntax`, `Negotiation`). The parsers against
  the grammar, the choice against a declarative specification, and what does not change it.
* **Compression and decompression** (`Compression`, `Decompression`, `EndToEnd`). The header edits, stacking,
  and the whole exchange between a decompressing client and a compressing server.
* **Tracing** (`Trace`, `TraceRuns`, `TraceLog`, `TraceOutcome`, `Classify`, `ClassifiedRuns`). What fires, how
  often, in what order and with which times, and that the outcome is a function of the response; the gRPC
  classifier and mapped failure classes.
* **Timers, rate limiter, paths** (`Timeouts`, `RateLimit`, `NormalizePath`, `NormalizedPaths`).

`Http` holds the shared vocabulary. Calls into foreign code are parameters: codecs, URI resolution, closures,
the inner services and bodies, clocks and the decoding of gRPC messages.

## Where the code differs from its documentation

* `trace/mod.rs:232-239` says that `on_failure` is called when polling the body returns an error. It is called
  if and only if the response was classified `RequiresEos` and neither an error nor the end of the stream has
  been met before (`BodyErrorIsReportedIff`, `ArmedIffDeferred`; `SecondErrorIsSilent` is an input).
* `trace/mod.rs:227-228` says that a streaming body ends when it returns a trailers frame. `on_eos` is called
  if and only if trailers, a frame at which `is_end_stream` turns true, or the end have been met (`EosFiresIff`);
  `EosWithoutTrailers` is an input without a trailers frame.
* `compression/predicate.rs:154-155` says "larger than"; `SizeAbove` also compresses bodies of exactly that
  size (`LargerThanIffNotTheMinimum`, `DefaultCompressesTheMinimum`).
* `macros.rs:107` promises at most one call every interval. Clock and interval are cut to whole seconds, so
  the promise holds in whole seconds only (`OncePerIntervalIffZero`, `NanosApart`).
* `compression_utils.rs:245-250` turns payload after the end of the encoded stream into an error. Bytes that
  follow the end in the same frame are never looked at: the error comes if and only if a later frame has bytes
  (`TrailingBytesAreNoticedIff`, with the failing input in `TrailingBytesDependOnFraming`).
* A decoder error is swallowed when the body yielded no chunk (`compression_utils.rs:231-234`). An empty data
  frame counts as a chunk, so a body without bytes decodes if and only if it has no data frame
  (`EmptyBodyPassesIffNoDataFrame`).

## Model

| member | source | states |
|---|---|---|
| `BodyStream.BodyIntoStream.PollNext` | tower-http/src/compression_utils.rs:320-342 | the loop hands out the next data frame; the first frame of another kind is stashed and ends the stream for good |
| `BodyStream.BodyIntoStream.PollFrame` | tower-http/src/compression_utils.rs:352-372 | data first, then the stashed frame, then whatever the body still holds; the in-place code is the step function `Split.PollFrame` |
| `BodyStream.NextKeepsItems` | tower-http/src/compression_utils.rs:320-342 | one `poll_next` loses, repeats and reorders nothing, and hands out only data or an error |
| `BodyStream.ServeKeepsItems` | tower-http/src/compression_utils.rs:320-372 | the same for one call of either kind |
| `BodyStream.Conservation` | tower-http/src/compression_utils.rs:320-372 | under any interleaving of both calls: delivered items, then the stashed frame, then the rest of the body are the original items; what is not data leaves only through `poll_frame` |
| `BodyStream.BodyIsConserved` | tower-http/src/compression_utils.rs:281-372 | for a new adapter, and when it answers the end everything has been delivered |
| `BodyStream.FramesPassThrough` | tower-http/src/compression_utils.rs:352-372 | with `poll_frame` alone the adapter cannot be told from the body: the same answers to the same polls, pending ones, errors and the end included |
| `BodyStream.StashComesFirst` | tower-http/src/compression_utils.rs:358-364 | a frame that `poll_next` has passed over is answered first, and then the body goes on |
| `BodyStream.NextStopsAtOthers` | tower-http/src/compression_utils.rs:320-342 | with `poll_next` alone: the answers of the body up to the end or a frame that is not data, then the end for good; errors do not end the stream |
| `WrapBody.StreamErrorIntoIoError.PollNext` | tower-http/src/compression_utils.rs:425-438 | a body error is stored and replaced by the sentinel; every chunk, even an empty one, sets `read_some_data` |
| `WrapBody.DecoratedReader.PollRead` | tower-http/src/compression_utils.rs:163-173 | the codec over the stream: empty chunks are skipped, reader errors are passed on at once |
| `WrapBody.WrappedBody.PollFrame` | tower-http/src/compression_utils.rs:192-265 | `poll_frame` in place, with every branch, is the step function `WrapPoll` |
| `WrapBody.OnlyErrorsAreStored` | tower-http/src/compression_utils.rs:425-438 | the error slot is filled if and only if a read fails without the codec having failed, and then what fails is the sentinel |
| `WrapBodyRuns.ReadTakesItems` | tower-http/src/compression_utils.rs:192-235 | what the codec reads in a poll is a prefix of what the body held, of data and at most one error |
| `WrapBodyRuns.PollAccounts` | tower-http/src/compression_utils.rs:192-265 | one poll, any codec, any body: each item taken is fed to the codec, whose input grows by exactly those bytes, or is what the poll delivers; errors and trailers come out of the poll that takes them |
| `WrapBodyRuns.PollOutputs` | tower-http/src/compression_utils.rs:203-212 | bytes come out exactly when the codec outputs them |
| `WrapBodyRuns.RunConserves` | tower-http/src/compression_utils.rs:192-265 | over any run, for any codec and any body: what is taken is fed in order or delivered (bytes as the extra-bytes error); the input of the codec is what was fed, the data delivered is its output, and every signal comes out once and in order or is still to come |
| `WrapBodyRuns.BodyErrorSurfaces` | tower-http/src/compression_utils.rs:214-226 | among the items that a poll takes, an error is the last one and is the answer of that poll, as that same value |
| `WrapBodyRuns.PanicsExactlyOnForgedSentinel` | tower-http/src/compression_utils.rs:227-230 | `unreachable!()` is reached in a poll if and only if the codec itself raises the sentinel code in it |
| `WrapBodyRuns.NeverPanics` | tower-http/src/compression_utils.rs:227-230 | no run of a codec that never raises the sentinel panics, over any body |
| `WrapBodyRuns.CodecErrorIsDroppedOnlyWithoutData` | tower-http/src/compression_utils.rs:213-234 | an error of the codec is delivered if and only if the body has handed it a chunk; otherwise the poll goes on to the rest of the body |
| `WrapBodyRefinement.ReadRefines` | tower-http/src/compression_utils.rs:192-235 | on a body that keeps its contract, reading keeps the invariant, never fails, and ends only with all of the input read |
| `WrapBodyRefinement.PollRefines` | tower-http/src/compression_utils.rs:192-265 | one poll keeps the invariant, answers no error, and moves trailers from the body to the consumer |
| `WrapBodyRefinement.Refines` | tower-http/src/compression_utils.rs:192-265 | `WrapBody` refines "transform all data, then the trailers, then the end", for every contract-keeping body, every schedule and any number of polls |
| `WrapBodyEnds.RunReachesEnd` | tower-http/src/compression_utils.rs:192-265 | progress: a bounded codec has answered the end after a computable number of polls |
| `WrapBodyEnds.RunAfterCodec` | tower-http/src/compression_utils.rs:238-264 | once the codec has ended, early or not, empty data frames, trailers and errors come out in order and each later data frame with bytes becomes the extra-bytes error |
| `WrapBodyEnds.EndIsFinal` | tower-http/src/compression_utils.rs:238-264 | nothing follows an answered end |
| `WrapBodyTrailing.ReadStopsAtBoundary` | tower-http/src/compression_utils.rs:192-208 | one read takes frames only up to the one in which the encoded stream ends, does not fail, and ends only there |
| `WrapBodyTrailing.RunPastBoundary` | tower-http/src/compression_utils.rs:192-264 | a run to the end delivers the outputs of the codec and then, in order, every item after that frame |
| `WrapBodyTrailing.TrailingBytesAreNoticedIff` | tower-http/src/compression_utils.rs:239-261 | for every decoder and contract-keeping body: the extra-bytes error is delivered if and only if some data frame with bytes starts where the encoded stream has ended or later |
| `WrapBodyTrailing.TrailingRunReachesEnd` | tower-http/src/compression_utils.rs:192-264 | progress: with a bounded decoder, trailing bytes or not, the end has been answered after a computable number of polls |
| `WrapBodyTrailing.FirstByteDelimits` | tower-http/src/compression_utils.rs:239-261 | the hypothesis on decoders can be met |
| `WrapBodyEnds.TrailingBytesDependOnFraming` | tower-http/src/compression_utils.rs:239-261 | the failing input: a decoder with a one-byte encoded stream, for which all that follows in the first chunk is lost silently |
| `WrapBodyEnds.BodyWithoutDataPasses` | tower-http/src/compression_utils.rs:213-264 | a codec that rejects empty input lets a body without data frames through, trailers and all |
| `WrapBodyEnds.EmptyBodyPassesIffNoDataFrame` | tower-http/src/compression_utils.rs:213-234 | a body without bytes gets through such a codec without an error if and only if it has no data frame at all |
| `WrapBodyRoundTrip.EncodedBody` | tower-http/src/compression_utils.rs:192-265 | the encoded body keeps the contract, has the signals of the original, and its data is a complete encoding |
| `WrapBodyRoundTrip.RoundTrip` | tower-http/src/compression_utils.rs:192-265 | a decoder stacked on an encoder answers no error and, at the end, has delivered the original data and trailers; given that the encoder takes any input and that decoding inverts it |
| `WrapBodyRoundTrip.RoundTripSoFar` | tower-http/src/compression_utils.rs:192-265 | at every moment the bytes delivered are the first bytes of the original, for bounded decoders |
| `WrapBodyRoundTrip.RoundTripCompletes` | tower-http/src/compression_utils.rs:192-265 | with bounded codecs both runs end, so enough polls deliver the whole original |
| `WrapBodyRoundTrip.CopyMeetsHypotheses` | tower-http/src/compression_utils.rs:126-135 | the hypotheses on codecs can be met |
| `FollowRedirect.ResponseFuture.constructor` | tower-http/src/follow_redirect/mod.rs:251-275 | the first request and the state kept for later ones, extensions only when they are preserved |
| `FollowRedirect.ResponseFuture.TakeBody` | tower-http/src/follow_redirect/mod.rs:413-422 | `mem::replace`: a kept body is handed out once, `Empty` again and again |
| `FollowRedirect.ResponseFuture.Rewrite` | tower-http/src/follow_redirect/mod.rs:311-342 | the effect of a redirect status on method, body and headers |
| `FollowRedirect.ResponseFuture.SendAgain` | tower-http/src/follow_redirect/mod.rs:372-384 | the next request, and what the policy leaves of it is carried on |
| `FollowRedirect.ResponseFuture.Poll` | tower-http/src/follow_redirect/mod.rs:306-391 | `poll` in place, with every branch, is the step function `Answered` |
| `FollowRedirect.FollowRedirectService.Call` | tower-http/src/follow_redirect/mod.rs:251-275 | each call starts from its own copy of the policy |
| `RedirectDecision.FollowsIff` | tower-http/src/follow_redirect/mod.rs:306-391 | a call sends again if and only if the status is 301, 302, 303, 307 or 308, there is a body to send, the first `Location` resolves, and the policy follows; else it answers the response with its `RequestUri`, the error of the policy, or the error of the service |
| `RedirectDecision.SendsDraft` | tower-http/src/follow_redirect/mod.rs:311-384 | what is sent then, field by field, for any policy: method, resolved URI, headers, extensions and body shown to the policy, what is carried on, and the copy of the body, made between `redirect` and `on_request` |
| `RedirectDecision.RunFollowsLocations` | tower-http/src/follow_redirect/mod.rs:306-391 | over any run: each further request goes where the answer before it points, and the run ends with the first answer that is not followed, or an error of the policy about it |
| `RedirectDecision.CallFollowsLocations` | tower-http/src/follow_redirect/mod.rs:306-391 | for whole calls, under any policy that leaves URIs alone |
| `RedirectDecision.DefaultFollowsTwenty` | tower-http/src/follow_redirect/policy/limited.rs:16-34 | under `Standard` a call sends exactly one request more than the answers in a row that redirect, or than twenty, and has no errors of its own |
| `RedirectRuns.Followed` | tower-http/src/follow_redirect/mod.rs:344-384 | what a step that sends again has done, field by field |
| `RedirectRuns.StepNarrows` | tower-http/src/follow_redirect/mod.rs:372-382 | the next request carries a subset of the headers and extensions of the state, and the state carries exactly those on |
| `RedirectRuns.RunIsOrdered` | tower-http/src/follow_redirect/mod.rs:306-391 | over any answers, each later request carries a subset of each earlier one |
| `RedirectRuns.NoResurrection` | tower-http/src/follow_redirect/mod.rs:257-274 | for whole calls and every policy that only removes: what is dropped on one hop is absent from every later hop, and without `preserve_extensions` no redirected request has any |
| `RedirectSwitch.StepKeepsSwitch` | tower-http/src/follow_redirect/mod.rs:311-342 | one answer, completing or not, under any policy that adds no headers: `Empty` stays, and comes exactly with a switch; then the method is GET or HEAD and no header is about a payload |
| `RedirectSwitch.EmptyIsAbsorbing` | tower-http/src/follow_redirect/mod.rs:413-436 | over any run under any such policy: the invariant holds of every state, `Empty` is absorbing, and the method changes only to GET and never from HEAD |
| `RedirectSwitch.EmptyExactlyAfterSwitch` | tower-http/src/follow_redirect/mod.rs:311-342 | while a run goes on, `Empty` and the switched method are exactly what the first switching answer leaves; section 6.4 of RFC 7231 |
| `RedirectSwitch.MethodSwitchesOnce` | tower-http/src/follow_redirect/mod.rs:306-391 | for whole calls, between any two moments: the method changes at most once |
| `RedirectSwitch.UnclonableBodyIsSentOnce` | tower-http/src/follow_redirect/mod.rs:344-348 | a body that cannot be cloned is sent once: a call goes on only if its first answer switches, and else completes with that redirect response |
| `RedirectReplay.StepReplays` | tower-http/src/follow_redirect/mod.rs:311-382 | with content-preserving cloning and a policy that adds no headers and leaves method and body: one step replays the original method and content until a switch, and sends no body after it |
| `RedirectReplay.RunReplays` | tower-http/src/follow_redirect/mod.rs:306-391 | the first switching answer divides the requests of a run |
| `RedirectReplay.FaithfulReplay` | tower-http/src/follow_redirect/mod.rs:306-391 | for whole calls under such policies, whatever they do to URI, extensions and header values: requests before the first switch replay method and content, those after are GET, or HEAD if it was HEAD, without payload; section 6.4 of RFC 7231 |
| `RedirectReplay.ResponseTellsLastUri` | tower-http/src/follow_redirect/mod.rs:309 | for every policy that leaves the URI alone, `RequestUri` of the answer of a call is the URI of the last request sent |
| `RedirectFrame.NothingElseChanges` | tower-http/src/follow_redirect/mod.rs:372-382 | under policies that leave requests alone every later request has the version, the extensions (if preserved) and exactly the headers of the original, less the four about a payload after a switch |
| `PolicyObjects.LimitedPolicy.Redirect` | tower-http/src/follow_redirect/policy/limited.rs:27-34 | spends one of `remaining`, or stops |
| `PolicyObjects.RedirectFnPolicy.Redirect` | tower-http/src/follow_redirect/policy/redirect_fn.rs:24-26 | asks the stateful closure |
| `PolicyObjects.FilterCredentialsPolicy.Redirect` | tower-http/src/follow_redirect/policy/filter_credentials.rs:145-149 | remembers whether this redirection is blocked |
| `PolicyObjects.Node.Redirect` | tower-http/src/follow_redirect/policy/and.rs:28-33 | a tree that owns its leaves updates them in place exactly as the policy on values: the second policy of `And` is asked only after the first follows (`Or` likewise) |
| `PolicyObjects.Node.OnRequest` | tower-http/src/follow_redirect/policy/and.rs:35-38 | both policies, in order, filter the request |
| `PolicyObjects.Node.CloneBody` | tower-http/src/follow_redirect/policy/and.rs:40-42 | the first copy that a policy makes |
| `RedirectPolicy.TreesFilter` | tower-http/src/follow_redirect/policy/filter_credentials.rs:151-175 | every tree meets the hypotheses on `on_request`: it only removes headers and extensions, adds none, and leaves method, URI and body alone |
| `RedirectPolicy.RedirectSpends` | tower-http/src/follow_redirect/policy/limited.rs:27-34 | the bound of a tree never grows and each followed redirect uses some of it up |
| `RedirectPolicy.ChainsAreBounded` | tower-http/src/follow_redirect/policy/and.rs:28-33 | against any server, a call under a bounded tree, even with `Or`, follows at most its bound and then is complete |
| `RedirectPolicy.FollowSpendsAll` | tower-http/src/follow_redirect/policy/and.rs:28-33 | a redirect that an `And` tree follows takes one from every `Limited` leaf |
| `RedirectPolicy.BudgetsCountFollows` | tower-http/src/follow_redirect/policy/and.rs:28-33 | after k follows each `Limited` leaf holds its budget less k |
| `RedirectPolicy.CallsAreBounded` | tower-http/src/follow_redirect/mod.rs:251-275 | a call sends at most the smallest budget and one requests, from a fresh budget |
| `RedirectFrame.FilterFreeTreesLeaveAlone` | tower-http/src/follow_redirect/policy/mod.rs:103-113 | every tree without `FilterCredentials` leaves requests alone |
| `RedirectFrame.CredentialsStayAtHome` | tower-http/src/follow_redirect/policy/filter_credentials.rs:145-175 | a call under `Standard` in which no redirect leaves an origin filters nothing: every request has exactly the headers of the original, credentials included, less the four about a payload after a switch |
| `RedirectTrees.ComparesOrigins` | tower-http/src/follow_redirect/policy/mod.rs:283-300 | `eq_origin` compares scheme, host and port, with 80 and 443 for a missing one, and holds of no URI without an origin |
| `RedirectTrees.TreeDecides` | tower-http/src/follow_redirect/policy/or.rs:28-33 | every tree follows if and only if the tree read as a formula does; the answer is that of the last leaf asked, exactly the leaves asked move on, and the second policy is asked only when the first leaves the formula open |
| `RedirectTrees.TreeFilters` | tower-http/src/follow_redirect/policy/filter_credentials.rs:151-175 | every tree removes from a request exactly what some blocked filter in it removes, and changes nothing else, for all settings of the filters |
| `RedirectTrees.TreeCopies` | tower-http/src/follow_redirect/policy/and.rs:40-42 | a tree copies a body if and only if one of its leaves does, and the first of those makes the copy |
| `RedirectPolicy.CredentialsStayDropped` | tower-http/src/follow_redirect/policy/filter_credentials.rs:145-175 | under a guarded tree, once a redirect leaves an origin no later request carries credentials or extensions |
| `QValue.Parse` | tower-http/src/content_encoding.rs:152-207 | the digit loop accepts exactly `q=` and a qvalue of section 5.3.1 of RFC 7231 and returns 1000 times its decimal value, without overflow of `u16` |
| `QValue.FractionStep` | tower-http/src/content_encoding.rs:182-206 | one digit adds `factor` times the digit |
| `QValue.WeightIffSpelt` | tower-http/src/content_encoding.rs:152-207 | what is read as a weight, and as which, is exactly `q=` in either case with `0` or `1` and at most three digits, zeros after `1`: tenths, hundredths and thousandths add up |
| `QValue.ThousandthsInRange` | tower-http/src/content_encoding.rs:195-201 | every qvalue is at most 1000 |
| `ContentEncoding.AllSupportedEncodings` | tower-http/src/content_encoding.rs:337-372 | the array holds exactly the supported codings, in order, in its first slots, and nothing after them |
| `Negotiation.CodingsByName` | tower-http/src/content_encoding.rs:62-90 | a text names a coding if and only if it is its name in any case, or `x-gzip`, and the coding is enabled |
| `ContentEncoding.CaseIsIgnored` | tower-http/src/content_encoding.rs:62-90 | `eq_ignore_ascii_case`: equal up to the case of ASCII letters, and nothing else is taken for equal |
| `HeaderSyntax.ReadableIff` | tower-http/src/content_encoding.rs:227-242 | any element, well-formed or not: read if and only if the coding is supported and the parameter, trimmed, is a weight, and as that; likewise the wildcard |
| `HeaderSyntax.UnreadableIsIgnored` | tower-http/src/content_encoding.rs:230-239 | an element with an unreadable parameter or an unknown coding is as if it were not there, wherever it is |
| `HeaderSyntax.TooMuchIsIgnored` | tower-http/src/content_encoding.rs:236 | for example `gzip;q=1.01`, which leaves identity |
| `HeaderSyntax.OtherLinesAreSkipped` | tower-http/src/content_encoding.rs:225 | a field line with a character that is neither a tab nor visible ASCII is as if it were not there, and no other is |
| `HeaderSyntax.ReadsElement` | tower-http/src/content_encoding.rs:227-242 | reading inverts printing for one element, wildcard included, with any optional whitespace and any case |
| `HeaderSyntax.ReadsList` | tower-http/src/content_encoding.rs:222-272 | reading inverts printing for a whole field value: the supported codings with their weights, in order, and the weight of the first wildcard |
| `HeaderSyntax.JoiningLinesChangesNothing` | tower-http/src/content_encoding.rs:222-227 | joining the readable field lines with commas does not change the answer; section 5.3 of RFC 9110 |
| `Negotiation.ChoosesTheBest` | tower-http/src/content_encoding.rs:284-328 | the code chooses the coding that is maximal by effective weight and preference, or falls back to identity |
| `Negotiation.ChoiceIsUnique` | tower-http/src/content_encoding.rs:116-123 | there is one such choice |
| `Negotiation.FromHeadersIsTheChoice` | tower-http/src/content_encoding.rs:102-107 | negotiation equals its specification in both directions for every header map, and refuses exactly when nothing is wanted and identity is refused; section 12.5.3 of RFC 9110 |
| `Negotiation.WeightThenRank` | tower-http/src/content_encoding.rs:116-123 | the order of choice: weight first, then identity, deflate, gzip, br, zstd |
| `Negotiation.FirstWeightIsFirst` | tower-http/src/content_encoding.rs:303-312 | with a wildcard, the listing of a coding that counts is the first one |
| `Negotiation.OrderDoesNotMatter` | tower-http/src/content_encoding.rs:284-328 | order and repetition of elements do not matter unless a coding is listed with two weights |
| `Negotiation.MoreSupportNeverRefuses` | tower-http/src/content_encoding.rs:284-328 | enabling codings on the server never turns an answer into a refusal |
| `Negotiation.RefusingTheRestIff` | tower-http/src/content_encoding.rs:294-327 | for every header without a wildcard: `*;q=0` only takes away the fallback if and only if nothing is wanted or the coding chosen is also the best by first listings |
| `Negotiation.RefusingTheRest` | tower-http/src/content_encoding.rs:294-327 | it does for headers without a wildcard that list no coding with two weights |
| `Negotiation.RefusingTheRestNeedsConsistency` | tower-http/src/content_encoding.rs:318-325 | the failing input: `gzip;q=0, gzip` |
| `Compression.ContainsIgnoreCase` | tower-http/src/compression/future.rs:151-160 | the loop is exact substring search that ignores case |
| `Compression.Parts.AppendVaryOnce` | tower-http/src/compression/future.rs:52-60 | `Vary` is appended unless some value already names `accept-encoding` |
| `Compression.Parts.CompressInPlace` | tower-http/src/compression/future.rs:39-148 | the header edits in place, with every branch, are the function `Compress` |
| `Compression.AddVaryVaries` | tower-http/src/compression/future.rs:77-88 | after the edit the response varies on `accept-encoding`, a second edit changes nothing, and no other header is touched |
| `Compression.StackingIsIdempotent` | tower-http/src/compression/future.rs:69-95 | two equal layers are one, for every response and every pure predicate: status, headers and body; `Vary` gets at most one entry |
| `Compression.EncodedIffAnnounced` | tower-http/src/compression/future.rs:69-147 | a response that comes without `Content-Encoding` leaves with that of a coding if and only if its body has been run through it, and with none if and only if its body is as it was |
| `Compression.EditsFollowTheBody` | tower-http/src/compression/future.rs:39-147 | the body is encoded if and only if there is a coding other than identity, neither `Content-Encoding` nor `Content-Range`, and the predicate is for it; then no length and no ranges are left; a response that is left alone is returned as it came; the status changes only to 406 |
| `Compression.VaryIsAppended` | tower-http/src/compression/future.rs:39-88 | `Vary` gets one more value, at its end, if and only if the response is not left alone and no value names `accept-encoding`, in any case and anywhere |
| `Compression.LibraryPredicatesLookAtContent` | tower-http/src/compression/predicate.rs:170-244 | the predicates of the library depend on size and type of the content alone |
| `Compression.DefaultIgnoresVary` | tower-http/src/compression/predicate.rs:117-145 | the default predicate does not see the `Vary` edit |
| `Compression.DefaultCompressesIff` | tower-http/src/compression/predicate.rs:117-145 | the default predicate in full: unknown sizes and sizes from 32 on, no gRPC but gRPC-Web, no images but SVG, no event streams |
| `Compression.SizeIsKnownFrom` | tower-http/src/compression/predicate.rs:175-181 | the size comes from the body if it knows it, else from a `Content-Length` that is a decimal number below 2^64 |
| `Compression.OnlyNumbersAreLengths` | tower-http/src/compression/predicate.rs:175-181 | nothing else is taken for a length |
| `Compression.LargerThanIffNotTheMinimum` | tower-http/src/compression/predicate.rs:154-187 | `SizeAbove` agrees with "larger than" if and only if the known size is not the minimum; an unknown size is compressed |
| `Compression.DefaultCompressesTheMinimum` | tower-http/src/compression/predicate.rs:183-186 | a response of exactly the minimum, which is compressed |
| `Decompression.RequestHeaders.AskForEncodings` | tower-http/src/decompression/service.rs:115-120 | `Accept-Encoding` is supplied exactly when absent and something is enabled |
| `Decompression.DecompressInPlace` | tower-http/src/decompression/future.rs:35-79 | the decoder is chosen by `Content-Encoding`, and then both headers are removed |
| `Decompression.DecodesIffEnabled` | tower-http/src/decompression/future.rs:39-76 | a body is decoded if and only if its `Content-Encoding` names an enabled coding; otherwise nothing changes |
| `EndToEnd.HeaderIsList` | tower-http/src/compression_utils.rs:27-47 | the sixteen header values are the lists of the enabled codings |
| `EndToEnd.AsksUnlessAsked` | tower-http/src/decompression/service.rs:115-120 | a request with its own `Accept-Encoding`, or with nothing enabled, goes out as it is; any other gets that one value and is otherwise as it was |
| `EndToEnd.NegotiatesBestCommon` | tower-http/src/compression/service.rs:176 | a client that leaves `Accept-Encoding` to the layer gets the most preferred common coding and never a refusal |
| `EndToEnd.CompressThenDecompress` | tower-http/src/decompression/future.rs:35-79 | the client layer undoes the header edits of the server layer |
| `EndToEnd.ExchangeIsTransparent` | tower-http/src/decompression/future.rs:35-79 | the status is the one of the inner response, no `Content-Encoding` is left, and the body is the original, or that encoded and decoded with one common coding |
| `EndToEnd.WholeBodyArrives` | tower-http/src/compression_utils.rs:192-265 | end to end: at every moment the client has the first bytes of the original; polled to the end, in whatever way, the body has delivered the original data and trailers; and it ends. Encoders take any input, decoders invert them, and both are bounded on the body |
| `Trace.ResponseBody.TakeVerdict` | tower-http/src/trace/body.rs:75-81 | `classify_eos` and `on_failure` are taken together and the verdict is given at most once |
| `Trace.ResponseBody.Finish` | tower-http/src/trace/body.rs:75-85 | verdict, then `on_eos`, each taken |
| `Trace.ResponseBody.Poll` | tower-http/src/trace/body.rs:42-123 | `poll_frame` in place, with every branch, is the step function `PollFrame` |
| `Trace.ResponseFuture.Poll` | tower-http/src/trace/future.rs:52-115 | the future takes classifier and callbacks once and hands the rest to the body |
| `TraceRuns.TracingIsTransparent` | tower-http/src/trace/body.rs:50-120 | the consumer sees the answers of the inner body |
| `TraceRuns.PollTally` | tower-http/src/trace/body.rs:55-122 | what one poll reports, by kind |
| `TraceRuns.RunReports` | tower-http/src/trace/body.rs:42-123 | over any run: `on_body_chunk` once for each data frame in order, `on_eos` once when the end is met, `on_failure` at most once, with arguments that depend only on the response |
| `TraceRuns.LifecycleReports` | tower-http/src/trace/future.rs:52-115 | the same for future and body together; `on_response` exactly when there is a response |
| `TraceRuns.AtMostOnce` | tower-http/src/trace/future.rs:52-115 | no callback that should fire once fires twice |
| `TraceLog.LogGrows` | tower-http/src/trace/body.rs:52-121 | one more poll adds its chunk, then a failure, then the end, each with its time: chunks and failures since the last poll that was answered, or the request; the end since the response arrived |
| `TraceLog.CallLog` | tower-http/src/trace/future.rs:52-115 | the whole log of any call, in order and with all times |
| `TraceLog.FailedCallLog` | tower-http/src/trace/future.rs:108-113 | a call whose response fails to arrive reports that and nothing else |
| `TraceOutcome.OutcomeDoesNotDependOnPolling` | tower-http/src/trace/body.rs:90-106 | consumers that stop at `is_end_stream`, at an error or at the end report the same outcome |
| `TraceOutcome.BodyErrorIsReportedIff` | tower-http/src/trace/body.rs:98-107 | after any polls, a poll that answers an error of the body reports it if and only if the body was armed at first and neither an error nor the end has been met before |
| `TraceOutcome.ArmedIffDeferred` | tower-http/src/trace/future.rs:75-107 | the body of a response is armed if and only if the classification was `RequiresEos` |
| `TraceOutcome.SecondErrorIsSilent` | tower-http/src/trace/body.rs:98-107 | the failing input: of two errors in a row the second is answered and not reported |
| `TraceOutcome.BodyErrorIsReportedIffDeferred` | tower-http/src/trace/future.rs:80-88 | an error that is the ending of the body is reported if and only if the classification was `RequiresEos` |
| `TraceOutcome.EosFiresIff` | tower-http/src/trace/body.rs:82-121 | `on_eos` fires, once, if and only if the consumer polls as far as trailers, a closing frame or the end, and gets trailers if and only if they come first |
| `TraceOutcome.EosWithoutTrailers` | tower-http/src/trace/body.rs:109-121 | an input for which it fires without any trailers frame: an empty body |
| `TraceOutcome.EndingIsOfTheItems` | tower-http/src/trace/body.rs:90-106 | for a truthful `is_end_stream` the ending is that of the items, whatever the schedule |
| `TraceOutcome.OutcomeIsOfTheItems` | tower-http/src/trace/body.rs:42-123 | two deliveries of the same items have the same outcome |
| `TraceOutcome.ChunkLatenciesAddUp` | tower-http/src/trace/body.rs:52-53 | over any run of a body whose data comes first, whatever ends it: the latencies of chunks add up to the time from the start to the last chunk |
| `ClassifiedRuns.AddOne` | tower-http/src/classify/grpc_errors_as_failures.rs:231-234 | adding a code to the mask accepts that code and no other |
| `ClassifiedRuns.MaskIsASet` | tower-http/src/classify/grpc_errors_as_failures.rs:231-234 | the mask accepts code 0 and the added codes and nothing else |
| `ClassifiedRuns.MetadataFailsIff` | tower-http/src/classify/grpc_errors_as_failures.rs:328-366 | metadata fails if and only if the first `grpc-status` is an `i32` outside the success set; the failure tells that number, its code if it has one, and the first `grpc-message`, decoded |
| `ClassifiedRuns.GrpcOutcome` | tower-http/src/classify/grpc_errors_as_failures.rs:248-295 | headers decide, else trailers; the failure tells the status that was found, or the error that broke the body |
| `ClassifiedRuns.GrpcFailureIff` | tower-http/src/classify/grpc_errors_as_failures.rs:244-303 | a traced call is reported as a failure, once, if and only if the first `grpc-status` found parses outside the success set, or none is found and the body breaks; the report tells that status or that error |
| `ClassifiedRuns.GrpcCallBreaks` | tower-http/src/classify/grpc_errors_as_failures.rs:262-265 | a call whose response fails to arrive is reported with that error |
| `Numbers.ShownIsParsedSigned` | tower-http/src/classify/grpc_errors_as_failures.rs:339-342 | a number printed in decimal, with zeros in front and any sign, is read as that number from -2^31 to 2^31 - 1 and not at all beyond |
| `Numbers.OnlyShownIsParsedSigned` | tower-http/src/classify/grpc_errors_as_failures.rs:339-342 | nothing else is read as a number |
| `ClassifiedRuns.MappingOnlyRenames` | tower-http/src/classify/map_failure_class.rs:34-80 | mapping the failure class renames failures and changes nothing else in any traced call |
| `Timeouts.TimeoutBody.PollFrame` | tower-http/src/timeout/body.rs:81-106 | the timer is armed by the first poll, checked before the body, and cleared by a frame |
| `Timeouts.DeadlineBody.PollFrame` | tower-http/src/timeout/deadline_body.rs:89-104 | the timer runs from construction and is checked before the body |
| `Timeouts.TimesOutExactlyWhenIdle` | tower-http/src/timeout/body.rs:87-103 | times out exactly at the polls at least the timeout after the first poll since the last delivery, for every body and schedule, and does not poll the body at those |
| `Timeouts.TimeoutIsFinal` | tower-http/src/timeout/body.rs:95-98 | with a clock that does not go back a timeout is final |
| `Timeouts.TimeoutIsTransparent` | tower-http/src/timeout/body.rs:100-105 | until then the answers are those of the inner body: pending, end and frames as they are, an error as the error it is |
| `Timeouts.DeadlineIsTransparent` | tower-http/src/timeout/deadline_body.rs:95-103 | times out exactly from the deadline on, and until then the answers are those of the inner body, case by case |
| `Timeouts.DeadlineSplitsPolls` | tower-http/src/timeout/deadline_body.rs:89-104 | for any clock: it times out at the polls from the deadline on, polls the inner body at exactly the others, and hands out those answers |
| `Timeouts.TimersAgreeUntilDeadline` | tower-http/src/timeout/deadline_body.rs:93-103 | built at the same instant with the same timeout, both bodies answer alike until `DeadlineBody` first times out |
| `RateLimit.CallSite.CompareExchange` | tower-http/src/macros.rs:129-131 | succeeds exactly when the latest value is the expected one |
| `RateLimit.CallSite.Attempt` | tower-http/src/macros.rs:121-135 | the macro run by one thread is three steps of the machine |
| `RateLimit.StepRecords` | tower-http/src/macros.rs:122-135 | every step of every thread keeps the invariant that ties `NEXT_CALL` to the calls |
| `RateLimit.NextCallNeverDecreases` | tower-http/src/macros.rs:128-131 | for any threads, interleaving and clock, `NEXT_CALL` never decreases |
| `RateLimit.CallsAreSpaced` | tower-http/src/macros.rs:126-133 | the n-th call after a call is at least n intervals later in whole seconds, unless the addition saturated |
| `RateLimit.AttemptCallsIff` | tower-http/src/macros.rs:121-135 | an undisturbed attempt makes the call if and only if it is not early and sees a value equal to the latest; either way it ends, and an attempt that does not call changes nothing |
| `RateLimit.OncePerIntervalIffZero` | tower-http/src/macros.rs:107-109 | at most one call per interval is kept by all runs if and only if the interval is zero, because clock and interval are cut to whole seconds |
| `RateLimit.NanosApart` | tower-http/src/macros.rs:122-128 | in nanoseconds calls are apart by more than the whole seconds of the interval less one second |
| `NormalizePath.Request.TrimTrailingSlash` | tower-http/src/normalize_path.rs:146-173 | trimming in place, with the early return and the parts that cannot be put together |
| `NormalizePath.Request.AppendTrailingSlash` | tower-http/src/normalize_path.rs:175-207 | appending in place, likewise |
| `NormalizedPaths.InnerShape` | tower-http/src/normalize_path.rs:151 | trimming takes slashes off both ends and nothing else |
| `NormalizedPaths.InnerIsUnique` | tower-http/src/normalize_path.rs:180 | and that determines its result |
| `NormalizedPaths.ParseInvertsRender` | tower-http/src/normalize_path.rs:155-164 | a path and a query put together are taken apart again |
| `NormalizedPaths.TrimKeepsTheRest` | tower-http/src/normalize_path.rs:146-173 | one leading slash and the text between the outer slashes; query, scheme and authority as they were |
| `NormalizedPaths.AppendKeepsTheRest` | tower-http/src/normalize_path.rs:175-207 | unchanged when the path ends in exactly one slash, else the text between the outer slashes with one on each side; the result always ends in exactly one |
| `NormalizedPaths.TrimIsIdempotent` | tower-http/src/normalize_path.rs:146-173 | for every URI |
| `NormalizedPaths.AppendIsIdempotent` | tower-http/src/normalize_path.rs:175-207 | for every URI |
| `NormalizedPaths.AppendElsewhere` | tower-http/src/normalize_path.rs:175-207 | `*` becomes `/*/`, an authority alone stays |
| `NormalizedPaths.TrimUndoesAppendIff` | tower-http/src/normalize_path.rs:146-207 | trimming undoes appending if and only if the path starts with a slash or the URI is only an authority |

## Left out

- RedirectPolicy.Redirect: the whole-call theorems are about policies as values; `PolicyObjects.Node.Redirect` shows that trees of mutable leaves do the same, but a call that owns such a tree is not run on objects.
- PolicyObjects.Node.OnRequest: returns what is left of the request, which the source edits in place.
- WrapBody.WrappedBody.PollFrame: the capacity and reuse of the `BytesMut` buffer, and `size_hint`, are not modelled; one read returns whatever the codec returns.
- WrapBody.DecoratedReader.PollRead: how a `StreamReader` cuts a chunk into reads is part of the codec, which sees whole chunks.
- WrapBodyRoundTrip.RoundTrip: real codecs are foreign code; that encoders take any input, that decoding inverts encoding and that both are bounded are hypotheses, shown to be satisfiable.
- EndToEnd.WholeBodyArrives: the decoder reads, to its end or not, over a complete run of the encoder, so the interleaving of the two runs in one poll is represented by the encoder's schedule of answers.
- Trace.ResponseBody.Poll: one clock reading per poll stands for the readings that the code takes a moment apart.
- Trace.ResponseFuture.Poll: spans, log output and the contents of requests and responses beyond status and headers are not modelled.
- Classify.ClassifyGrpcMetadata: percent and UTF-8 decoding of `grpc-message` is a parameter.
- RedirectReplay.FaithfulReplay: `B::default()` is taken to be an empty body of exact size 0; the source asks only for `Default`, so "no body after a switch" is about default bodies that are empty (`RedirectDecision` likewise). `RedirectSwitch` does not rest on this.
- FollowRedirect.ResponseFuture.Poll: URI resolution, version and service cloning are opaque; extensions are numbered entries, and URIs keep scheme, host, port and an opaque rest.
- NormalizePath.Request.TrimTrailingSlash: the characters that the `http` crate accepts in a URI are not checked; the text comes from a valid URI.
- RateLimit.CallSite.Attempt: memory order beyond one atomic is not modelled; a relaxed load may see any earlier value, which allows more than the hardware does.
- Timeouts.TimeoutBody.PollFrame: the granularity of the timer and wake-ups; a sleep is ready from its deadline on.
- Http.HeaderMap: iteration order across different names is not kept; the order of the values of one name is.
- Cargo feature combinations: all codings are compiled in, and the fallback arm of `compression/future.rs:115-136` is documented as unreachable.
- `is_end_stream` and `size_hint` of the adapters, `Display`, builders, layers and extension traits: plumbing.
- CSRF, CORS, authorization, request ids, sensitive headers, set-status, catch-panic, limits, `ServeDir`: members outside this core, mostly decision tables.
