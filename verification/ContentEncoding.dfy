/** Reading `Accept-Encoding` and choosing a coding. */
module ContentEncoding {
  import opened Http
  import opened QValue

  datatype Encoding = Identity | Deflate | Gzip | Brotli | Zstd

  /** The variants are ordered from least to most preferred. */
  function Preference(e: Encoding): nat {
    match e
    case Identity => 0
    case Deflate => 1
    case Gzip => 2
    case Brotli => 3
    case Zstd => 4
  }

  function Name(e: Encoding): string {
    match e
    case Identity => "identity"
    case Deflate => "deflate"
    case Gzip => "gzip"
    case Brotli => "br"
    case Zstd => "zstd"
  }

  /** The codings that one side has enabled. */
  datatype Supported = Supported(gzip: bool, deflate: bool, br: bool, zstd: bool) {
    predicate Has(e: Encoding) {
      match e
      case Identity => true
      case Deflate => deflate
      case Gzip => gzip
      case Brotli => br
      case Zstd => zstd
    }
  }

  // ---------------------------------------------------------------- text

  predicate IsSpace(c: char) {
    c == ' ' || c == '\t'
  }

  function Lower(c: char): char {
    if 'A' <= c <= 'Z' then (c as int + 32) as char else c
  }

  predicate EqIgnoreCase(a: string, b: string) {
    |a| == |b| && forall i :: 0 <= i < |a| ==> Lower(a[i]) == Lower(b[i])
  }

  /** Equal, or one letter in both cases. */
  predicate SameLetter(x: char, y: char) {
    || x == y
    || ('a' <= x <= 'z' && x as int - 32 == y as int)
    || ('a' <= y <= 'z' && y as int - 32 == x as int)
  }

  lemma LowerIff(x: char, y: char)
    ensures Lower(x) == Lower(y) <==> SameLetter(x, y)
  {
    assert 'A' <= x <= 'Z' ==> Lower(x) as int == x as int + 32;
    assert 'A' <= y <= 'Z' ==> Lower(y) as int == y as int + 32;
  }

  /** `eq_ignore_ascii_case`: the case of letters does not matter, and nothing else is taken for equal. */
  lemma CaseIsIgnored(a: string, b: string)
    ensures EqIgnoreCase(a, b) <==> |a| == |b| && forall i :: 0 <= i < |a| ==> SameLetter(a[i], b[i])
  {
    forall i | 0 <= i < |a| && i < |b|
      ensures Lower(a[i]) == Lower(b[i]) <==> SameLetter(a[i], b[i])
    {
      LowerIff(a[i], b[i]);
    }
  }

  /** The first place of `c`, or the length of the text. */
  function IndexOf(s: string, c: char): (i: nat)
    ensures i <= |s| && (i < |s| ==> s[i] == c) && forall k :: 0 <= k < i ==> s[k] != c
  {
    if s == "" || s[0] == c then 0 else 1 + IndexOf(s[1..], c)
  }

  function Split(s: string, c: char): seq<string>
    decreases |s|
  {
    var i := IndexOf(s, c);
    if i == |s| then [s] else [s[..i]] + Split(s[i + 1..], c)
  }

  /** `splitn(2, c)`. */
  function SplitOnce(s: string, c: char): (string, Option<string>) {
    var i := IndexOf(s, c);
    if i == |s| then (s, None) else (s[..i], Some(s[i + 1..]))
  }

  function TrimStart(s: string): string {
    if s != "" && IsSpace(s[0]) then TrimStart(s[1..]) else s
  }

  function TrimEnd(s: string): string {
    if s != "" && IsSpace(s[|s| - 1]) then TrimEnd(s[..|s| - 1]) else s
  }

  function Trim(s: string): string {
    TrimEnd(TrimStart(s))
  }

  // ---------------------------------------------------------------- elements of the header

  function ParseEncoding(s: string, supported: Supported): Option<Encoding> {
    if (EqIgnoreCase(s, "gzip") || EqIgnoreCase(s, "x-gzip")) && supported.gzip then Some(Gzip)
    else if EqIgnoreCase(s, "deflate") && supported.deflate then Some(Deflate)
    else if EqIgnoreCase(s, "br") && supported.br then Some(Brotli)
    else if EqIgnoreCase(s, "zstd") && supported.zstd then Some(Zstd)
    else if EqIgnoreCase(s, "identity") then Some(Identity)
    else None
  }

  /** The weight of an element: of its parameter if it has one, else 1. */
  function ElementWeight(parameter: Option<string>): Option<Weight> {
    match parameter
    case Some(text) => WeightOf(Trim(text))
    case None => Some(1000)
  }

  type Entry = (Encoding, Weight)

  /** An element that names a supported coding, or identity, with a weight that parses. */
  function ParseElement(v: string, supported: Supported): Option<Entry> {
    var (coding, parameter) := SplitOnce(v, ';');
    match ParseEncoding(Trim(coding), supported)
    case None => None
    case Some(e) =>
      match ElementWeight(parameter)
      case Some(q) => Some((e, q))
      case None => None
  }

  function ParseWildcard(v: string): Option<Weight> {
    var (coding, parameter) := SplitOnce(v, ';');
    if Trim(coding) != "*" then None else ElementWeight(parameter)
  }

  /** The elements of all field lines that are text. */
  function Elements(values: seq<HeaderValue>): seq<string> {
    if values == [] then []
    else if IsVisible(values[0]) then Split(values[0], ',') + Elements(values[1..])
    else Elements(values[1..])
  }

  /** `encodings`. */
  function Entries(elements: seq<string>, supported: Supported): seq<Entry> {
    if elements == [] then []
    else
      var parsed := ParseElement(elements[0], supported);
      (if parsed.Some? then [parsed.value] else []) + Entries(elements[1..], supported)
  }

  /** `wildcard_qvalue`. */
  function Wildcard(elements: seq<string>): Option<Weight> {
    if elements == [] then None
    else
      var parsed := ParseWildcard(elements[0]);
      if parsed.Some? then parsed else Wildcard(elements[1..])
  }

  // ---------------------------------------------------------------- the choice

  /** The order of `max_by_key(|(encoding, qvalue)| (qvalue, encoding))`. */
  predicate AtMost(a: Entry, b: Entry) {
    a.1 < b.1 || (a.1 == b.1 && Preference(a.0) <= Preference(b.0))
  }

  /** The last of the greatest entries with a positive weight. */
  function MaxEntry(entries: seq<Entry>): Option<Entry> {
    if entries == [] then None
    else
      var rest := MaxEntry(entries[1..]);
      if entries[0].1 == 0 then rest
      else if rest.Some? && AtMost(entries[0], rest.value) then rest
      else Some(entries[0])
  }

  /** `Encoding::preferred_encoding`. */
  function PreferredEncoding(entries: seq<Entry>): Option<Encoding> {
    match MaxEntry(entries)
    case Some(entry) => Some(entry.0)
    case None => None
  }

  function Compact(slots: seq<Option<Encoding>>): seq<Encoding> {
    if slots == [] then []
    else (if slots[0].Some? then [slots[0].value] else []) + Compact(slots[1..])
  }

  /** The codings that the server can produce, identity first. */
  function AllSupported(supported: Supported): seq<Encoding> {
    [Identity] + (if supported.gzip then [Gzip] else []) + (if supported.deflate then [Deflate] else [])
    + (if supported.br then [Brotli] else []) + (if supported.zstd then [Zstd] else [])
  }

  lemma {:induction false} CompactOfFilled(slots: seq<Option<Encoding>>, n: nat, codings: seq<Encoding>)
    requires n == |codings| <= |slots|
    requires forall i :: 0 <= i < n ==> slots[i] == Some(codings[i])
    requires forall i :: n <= i < |slots| ==> slots[i] == None
    ensures Compact(slots) == codings
  {
    if slots != [] {
      if n > 0 {
        CompactOfFilled(slots[1..], n - 1, codings[1..]);
      } else {
        CompactOfFilled(slots[1..], 0, []);
      }
    }
  }

  /** `all_supported_encodings`: fills a fixed array from the front. */
  method AllSupportedEncodings(supported: Supported) returns (out: array<Option<Encoding>>)
    ensures fresh(out) && out.Length == 5
    ensures Compact(out[..]) == AllSupported(supported)
    ensures forall i :: 0 <= i < 5 ==> (out[i].Some? <==> i < |AllSupported(supported)|)
  {
    out := new Option<Encoding>[5](_ => None);
    var n := 0;
    out[n] := Some(Identity);
    n := n + 1;
    if supported.gzip {
      out[n] := Some(Gzip);
      n := n + 1;
    }
    if supported.deflate {
      out[n] := Some(Deflate);
      n := n + 1;
    }
    if supported.br {
      out[n] := Some(Brotli);
      n := n + 1;
    }
    if supported.zstd {
      out[n] := Some(Zstd);
      n := n + 1;
    }
    CompactOfFilled(out[..], n, AllSupported(supported));
  }

  /** The weight of the first entry for a coding. */
  function FirstWeight(entries: seq<Entry>, e: Encoding): Option<Weight> {
    if entries == [] then None
    else if entries[0].0 == e then Some(entries[0].1)
    else FirstWeight(entries[1..], e)
  }

  function Effective(codings: seq<Encoding>, entries: seq<Entry>, wildcard: Weight): seq<Entry> {
    if codings == [] then []
    else
      var listed := FirstWeight(entries, codings[0]);
      [(codings[0], if listed.Some? then listed.value else wildcard)] + Effective(codings[1..], entries, wildcard)
  }

  /** `preferred_encoding_with_wildcard`, on the elements of the header. */
  function Choose(elements: seq<string>, supported: Supported): Option<Encoding> {
    var entries := Entries(elements, supported);
    match Wildcard(elements)
    case None =>
      var preferred := PreferredEncoding(entries);
      if preferred.Some? then preferred
      else if (Identity, 0) in entries then None
      else Some(Identity)
    case Some(q) => PreferredEncoding(Effective(AllSupported(supported), entries, q))
  }

  /** `Encoding::from_headers`. */
  function FromHeaders(headers: HeaderMap, supported: Supported): Option<Encoding> {
    Choose(Elements(GetAll(headers, AcceptEncoding)), supported)
  }
}
