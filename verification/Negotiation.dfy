/** What the choice of a coding means: section 12.5.3 of RFC 9110. */
module Negotiation {
  import opened Http
  import opened QValue
  import opened ContentEncoding
  import opened HeaderSyntax

  // ---------------------------------------------------------------- the declarative specification

  /** The greatest weight listed for a coding, or 0. */
  function GreatestWeight(entries: seq<Entry>, e: Encoding): Weight {
    if entries == [] then 0
    else
      var rest := GreatestWeight(entries[1..], e);
      if entries[0].0 == e && entries[0].1 > rest then entries[0].1 else rest
  }

  /** The weight that a client gives to a coding. A wildcard gives its weight to the codings that are not listed,
      and with a wildcard the first listing of a coding counts; without one, the most favourable. */
  function EffectiveWeight(elements: seq<string>, supported: Supported, e: Encoding): Weight {
    var entries := Entries(elements, supported);
    match Wildcard(elements)
    case None => GreatestWeight(entries, e)
    case Some(q) => (match FirstWeight(entries, e) case Some(listed) => listed case None => q)
  }

  function Rated(elements: seq<string>, supported: Supported, e: Encoding): Entry {
    (e, EffectiveWeight(elements, supported, e))
  }

  /** `e` can be sent, is wanted, and no coding that can be sent is wanted more, or as much and preferred. */
  ghost predicate IsBest(elements: seq<string>, supported: Supported, e: Encoding) {
    && supported.Has(e) && EffectiveWeight(elements, supported, e) > 0
    && forall other :: supported.Has(other) ==> AtMost(Rated(elements, supported, other), Rated(elements, supported, e))
  }

  /** The codings from least to most preferred. */
  const RANKING: seq<Encoding> := [Identity, Deflate, Gzip, Brotli, Zstd]

  /** The weight counts first, then the place in the ranking. */
  lemma WeightThenRank(i: nat, q: Weight, j: nat, w: Weight)
    requires i < 5 && j < 5
    ensures AtMost((RANKING[i], q), (RANKING[j], w)) <==> q < w || (q == w && i <= j)
  {
    forall k: nat | k < 5 ensures Preference(RANKING[k]) == k {
      assert k == 0 || k == 1 || k == 2 || k == 3 || k == 4;
    }
  }

  ghost predicate NothingWanted(elements: seq<string>, supported: Supported) {
    forall e :: supported.Has(e) ==> EffectiveWeight(elements, supported, e) == 0
  }

  /** Identity is excluded, by name or by a wildcard. */
  predicate IdentityRefused(elements: seq<string>, supported: Supported) {
    Wildcard(elements).Some? || (Identity, 0) in Entries(elements, supported)
  }

  ghost predicate IsChoice(elements: seq<string>, supported: Supported, choice: Option<Encoding>) {
    match choice
    case Some(e) =>
      || IsBest(elements, supported, e)
      || (e == Identity && NothingWanted(elements, supported) && !IdentityRefused(elements, supported))
    case None => NothingWanted(elements, supported) && IdentityRefused(elements, supported)
  }

  // ---------------------------------------------------------------- the code meets it

  lemma {:induction false} MaxEntryIsGreatest(entries: seq<Entry>)
    ensures match MaxEntry(entries)
            case Some(m) => m in entries && m.1 > 0 && forall x :: x in entries ==> AtMost(x, m)
            case None => forall x :: x in entries ==> x.1 == 0
  {
    if entries != [] {
      MaxEntryIsGreatest(entries[1..]);
      assert forall x :: x in entries <==> x == entries[0] || x in entries[1..];
    }
  }

  lemma {:induction false} GreatestWeightIsListed(entries: seq<Entry>, e: Encoding)
    ensures GreatestWeight(entries, e) > 0 ==> (e, GreatestWeight(entries, e)) in entries
    ensures forall x :: x in entries && x.0 == e ==> x.1 <= GreatestWeight(entries, e)
  {
    if entries != [] {
      GreatestWeightIsListed(entries[1..], e);
      assert forall x :: x in entries <==> x == entries[0] || x in entries[1..];
    }
  }

  lemma {:induction false} EntriesAreSupported(elements: seq<string>, supported: Supported)
    ensures forall x :: x in Entries(elements, supported) ==> supported.Has(x.0)
  {
    if elements != [] {
      EntriesAreSupported(elements[1..], supported);
    }
  }

  lemma AllSupportedIsExact(supported: Supported)
    ensures forall e :: supported.Has(e) <==> e in AllSupported(supported)
  {
    assert supported.Has(Deflate) <==> Deflate in AllSupported(supported);
    assert supported.Has(Gzip) <==> Gzip in AllSupported(supported);
    assert supported.Has(Brotli) <==> Brotli in AllSupported(supported);
    assert supported.Has(Zstd) <==> Zstd in AllSupported(supported);
  }

  lemma {:induction false} EffectiveLists(codings: seq<Encoding>, entries: seq<Entry>, q: Weight)
    ensures forall x :: x in Effective(codings, entries, q) <==>
      x.0 in codings && x.1 == (match FirstWeight(entries, x.0) case Some(listed) => listed case None => q)
  {
    if codings != [] {
      EffectiveLists(codings[1..], entries, q);
      assert forall e :: e in codings <==> e == codings[0] || e in codings[1..];
    }
  }

  lemma ChoosesWithoutWildcard(elements: seq<string>, supported: Supported)
    requires Wildcard(elements) == None
    ensures IsChoice(elements, supported, Choose(elements, supported))
  {
    var entries := Entries(elements, supported);
    MaxEntryIsGreatest(entries);
    EntriesAreSupported(elements, supported);
    forall e ensures GreatestWeight(entries, e) > 0 ==> (e, GreatestWeight(entries, e)) in entries
             ensures forall x :: x in entries && x.0 == e ==> x.1 <= GreatestWeight(entries, e)
    {
      GreatestWeightIsListed(entries, e);
    }
  }

  lemma ChoosesWithWildcard(elements: seq<string>, supported: Supported)
    requires Wildcard(elements).Some?
    ensures IsChoice(elements, supported, Choose(elements, supported))
  {
    var entries := Entries(elements, supported);
    var effective := Effective(AllSupported(supported), entries, Wildcard(elements).value);
    MaxEntryIsGreatest(effective);
    AllSupportedIsExact(supported);
    EffectiveLists(AllSupported(supported), entries, Wildcard(elements).value);
    forall e | supported.Has(e) ensures Rated(elements, supported, e) in effective {
    }
  }

  /** The code's choice is the declarative one. */
  lemma ChoosesTheBest(elements: seq<string>, supported: Supported)
    ensures IsChoice(elements, supported, Choose(elements, supported))
  {
    if Wildcard(elements) == None {
      ChoosesWithoutWildcard(elements, supported);
    } else {
      ChoosesWithWildcard(elements, supported);
    }
  }

  /** There is one declarative choice. */
  lemma ChoiceIsUnique(elements: seq<string>, supported: Supported, a: Option<Encoding>, b: Option<Encoding>)
    requires IsChoice(elements, supported, a) && IsChoice(elements, supported, b)
    ensures a == b
  {
    if a.Some? && b.Some? && IsBest(elements, supported, a.value) && IsBest(elements, supported, b.value) {
      assert AtMost(Rated(elements, supported, a.value), Rated(elements, supported, b.value));
      assert AtMost(Rated(elements, supported, b.value), Rated(elements, supported, a.value));
    }
  }

  /** Negotiation equals its specification, for every header map. The answer is nothing exactly when no coding
      that can be sent is wanted and identity is refused. */
  lemma FromHeadersIsTheChoice(headers: HeaderMap, supported: Supported, choice: Option<Encoding>)
    ensures var elements := Elements(GetAll(headers, AcceptEncoding));
      && (FromHeaders(headers, supported) == choice <==> IsChoice(elements, supported, choice))
      && (FromHeaders(headers, supported) == None <==> NothingWanted(elements, supported) && IdentityRefused(elements, supported))
  {
    var elements := Elements(GetAll(headers, AcceptEncoding));
    ChoosesTheBest(elements, supported);
    var chosen := Choose(elements, supported);
    if IsChoice(elements, supported, choice) {
      ChoiceIsUnique(elements, supported, chosen, choice);
    }
    if IsChoice(elements, supported, None) {
      ChoiceIsUnique(elements, supported, chosen, None);
    }
  }

  // ---------------------------------------------------------------- laws

  /** No coding, nor the wildcard, is listed with two weights. */
  ghost predicate Consistent(elements: seq<string>, supported: Supported) {
    && (forall x, y :: x in Entries(elements, supported) && y in Entries(elements, supported) && x.0 == y.0 ==> x == y)
    && (forall v, w :: v in elements && w in elements && ParseWildcard(v).Some? && ParseWildcard(w).Some? ==>
          ParseWildcard(v) == ParseWildcard(w))
  }

  lemma {:induction false} EntriesComeFromElements(elements: seq<string>, supported: Supported)
    ensures forall x :: x in Entries(elements, supported) <==> exists v :: v in elements && ParseElement(v, supported) == Some(x)
  {
    if elements != [] {
      EntriesComeFromElements(elements[1..], supported);
      assert forall v :: v in elements <==> v == elements[0] || v in elements[1..];
    }
  }

  lemma {:induction false} WildcardComesFromElements(elements: seq<string>)
    ensures match Wildcard(elements)
            case Some(q) => exists v :: v in elements && ParseWildcard(v) == Some(q)
            case None => forall v :: v in elements ==> ParseWildcard(v) == None
  {
    if elements != [] {
      WildcardComesFromElements(elements[1..]);
      assert forall v :: v in elements <==> v == elements[0] || v in elements[1..];
    }
  }

  lemma {:induction false} FirstWeightIsListed(entries: seq<Entry>, e: Encoding)
    ensures match FirstWeight(entries, e)
            case Some(q) => (e, q) in entries
            case None => forall x :: x in entries ==> x.0 != e
  {
    if entries != [] {
      FirstWeightIsListed(entries[1..], e);
      assert forall x :: x in entries <==> x == entries[0] || x in entries[1..];
    }
  }

  /** It is the first one: no listing of the coding comes before it. */
  lemma {:induction false} FirstWeightIsFirst(entries: seq<Entry>, e: Encoding, q: Weight)
    ensures FirstWeight(entries, e) == Some(q) <==>
            exists i :: 0 <= i < |entries| && entries[i] == (e, q) && forall k :: 0 <= k < i ==> entries[k].0 != e
  {
    if entries != [] {
      var rest := entries[1..];
      FirstWeightIsFirst(rest, e, q);
      if entries[0].0 != e {
        if FirstWeight(rest, e) == Some(q) {
          var i :| 0 <= i < |rest| && rest[i] == (e, q) && forall k :: 0 <= k < i ==> rest[k].0 != e;
          assert entries[i + 1] == (e, q);
          assert forall k :: 0 < k < i + 1 ==> entries[k] == rest[k - 1];
        }
        if i :| 0 <= i < |entries| && entries[i] == (e, q) && forall k :: 0 <= k < i ==> entries[k].0 != e {
          assert rest[i - 1] == (e, q);
          assert forall k :: 0 <= k < i - 1 ==> rest[k] == entries[k + 1];
        }
      } else {
        assert entries[0] == (e, q) <==> entries[0].1 == q;
      }
    }
  }

  /** When each coding has one weight, first and greatest are that weight. */
  lemma ConsistentWeights(entries: seq<Entry>, e: Encoding)
    requires forall x, y :: x in entries && y in entries && x.0 == y.0 ==> x == y
    ensures GreatestWeight(entries, e) == match FirstWeight(entries, e) case Some(q) => q case None => 0
  {
    FirstWeightIsListed(entries, e);
    GreatestWeightIsListed(entries, e);
  }

  /** The weights of a consistent header depend on the set of its elements only. */
  lemma SameWeights(a: seq<string>, b: seq<string>, supported: Supported, e: Encoding)
    requires Consistent(a, supported) && Consistent(b, supported)
    requires forall v :: v in a <==> v in b
    ensures EffectiveWeight(a, supported, e) == EffectiveWeight(b, supported, e)
    ensures IdentityRefused(a, supported) == IdentityRefused(b, supported)
  {
    EntriesComeFromElements(a, supported);
    EntriesComeFromElements(b, supported);
    WildcardComesFromElements(a);
    WildcardComesFromElements(b);
    FirstWeightIsListed(Entries(a, supported), e);
    FirstWeightIsListed(Entries(b, supported), e);
    ConsistentWeights(Entries(a, supported), e);
    ConsistentWeights(Entries(b, supported), e);
  }

  lemma ConsistentTransfers(a: seq<string>, b: seq<string>, supported: Supported)
    requires Consistent(a, supported)
    requires forall v :: v in a <==> v in b
    ensures Consistent(b, supported)
  {
    EntriesComeFromElements(a, supported);
    EntriesComeFromElements(b, supported);
  }

  /** Order and repetition of the elements do not matter, within and across field lines, as long as no coding is
      listed with two weights. */
  lemma OrderDoesNotMatter(a: seq<string>, b: seq<string>, supported: Supported)
    requires Consistent(a, supported)
    requires forall v :: v in a <==> v in b
    ensures Choose(a, supported) == Choose(b, supported)
  {
    ConsistentTransfers(a, b, supported);
    forall e ensures EffectiveWeight(a, supported, e) == EffectiveWeight(b, supported, e)
             ensures IdentityRefused(a, supported) == IdentityRefused(b, supported)
    {
      SameWeights(a, b, supported, e);
    }
    ChoosesTheBest(a, supported);
    ChoosesTheBest(b, supported);
    assert IsChoice(a, supported, Choose(b, supported));
    ChoiceIsUnique(a, supported, Choose(a, supported), Choose(b, supported));
  }

  predicate Within(small: Supported, big: Supported) {
    forall e :: small.Has(e) ==> big.Has(e)
  }

  /** No text names two codings. */
  lemma NamesDiffer(s: string)
    ensures !(EqIgnoreCase(s, "gzip") && EqIgnoreCase(s, "zstd"))
  {
    if EqIgnoreCase(s, "gzip") {
      assert Lower(s[0]) == 'g';
    }
    if EqIgnoreCase(s, "zstd") {
      assert Lower(s[0]) == 'z';
    }
  }

  /** A text names a coding exactly when it is its name in any case, or `x-gzip` for gzip, and the coding is
      enabled; identity always is. */
  lemma CodingsByName(s: string, supported: Supported, e: Encoding)
    ensures ParseEncoding(s, supported) == Some(e) <==>
            supported.Has(e) && (EqIgnoreCase(s, Name(e)) || (e == Gzip && EqIgnoreCase(s, "x-gzip")))
  {
    if s != "" {
      var first := Lower(s[0]);
      assert EqIgnoreCase(s, "gzip") ==> first == 'g';
      assert EqIgnoreCase(s, "x-gzip") ==> first == 'x';
      assert EqIgnoreCase(s, "deflate") ==> first == 'd';
      assert EqIgnoreCase(s, "br") ==> first == 'b';
      assert EqIgnoreCase(s, "zstd") ==> first == 'z';
      assert EqIgnoreCase(s, "identity") ==> first == 'i';
    }
  }

  lemma ParseWithMore(v: string, small: Supported, big: Supported)
    requires Within(small, big)
    ensures ParseElement(v, small).Some? ==> ParseElement(v, big) == ParseElement(v, small)
    ensures ParseElement(v, big).Some? && small.Has(ParseElement(v, big).value.0) ==> ParseElement(v, small) == ParseElement(v, big)
  {
    NamesDiffer(Trim(SplitOnce(v, ';').0));
    assert small.Has(Gzip) ==> big.Has(Gzip);
    assert small.Has(Deflate) ==> big.Has(Deflate);
    assert small.Has(Brotli) ==> big.Has(Brotli);
    assert small.Has(Zstd) ==> big.Has(Zstd);
  }

  lemma {:induction false} WeightsWithMore(elements: seq<string>, small: Supported, big: Supported, e: Encoding)
    requires Within(small, big) && small.Has(e)
    ensures GreatestWeight(Entries(elements, small), e) == GreatestWeight(Entries(elements, big), e)
    ensures FirstWeight(Entries(elements, small), e) == FirstWeight(Entries(elements, big), e)
    ensures (e, 0) in Entries(elements, small) <==> (e, 0) in Entries(elements, big)
  {
    if elements != [] {
      ParseWithMore(elements[0], small, big);
      WeightsWithMore(elements[1..], small, big, e);
      EntriesCons(elements, small);
      EntriesCons(elements, big);
    }
  }

  lemma EntriesCons(elements: seq<string>, supported: Supported)
    requires elements != []
    ensures var parsed := ParseElement(elements[0], supported); var entries := Entries(elements, supported);
      if parsed.Some? then entries != [] && entries[0] == parsed.value && entries[1..] == Entries(elements[1..], supported)
      else entries == Entries(elements[1..], supported)
  {
  }

  /** Enabling more codings on the server never turns an answerable request into an unanswerable one. */
  lemma MoreSupportNeverRefuses(elements: seq<string>, small: Supported, big: Supported)
    requires Within(small, big) && Choose(elements, small).Some?
    ensures Choose(elements, big).Some?
  {
    ChoosesTheBest(elements, small);
    ChoosesTheBest(elements, big);
    forall e | small.Has(e) ensures EffectiveWeight(elements, small, e) == EffectiveWeight(elements, big, e)
                            ensures (e, 0) in Entries(elements, small) <==> (e, 0) in Entries(elements, big) {
      WeightsWithMore(elements, small, big, e);
    }
  }

  // ---------------------------------------------------------------- the wildcard as a refusal

  const REFUSE_ALL := "*;q=0"

  /** A coding with the weight 0 and no whitespace. */
  function Refusal(name: string): Listed {
    Listed("", name, "", Some(Parameter("", "q=0", "")))
  }

  lemma ZeroIsAWeight()
    ensures IsWeight("q=0") && Thousandths("q=0"[2..]) == 0
  {
    assert "q=0"[2..] == "0";
    assert Fraction("0") == "";
  }

  lemma RefusalParses(name: string, supported: Supported)
    requires IsName(name)
    ensures ParseElement(name + ";q=0", supported)
         == match ParseEncoding(name, supported) { case Some(e) => Some((e, 0)) case None => None }
    ensures ParseWildcard(name + ";q=0") == if name == "*" then Some(0) else None
  {
    ZeroIsAWeight();
    var l := Refusal(name);
    assert l.Render() == name + ";q=0";
    ReadsElement(l, supported);
  }

  lemma RefuseAllParses(supported: Supported)
    ensures ParseWildcard(REFUSE_ALL) == Some(0) && ParseElement(REFUSE_ALL, supported) == None
  {
    assert REFUSE_ALL == "*" + ";q=0";
    RefusalParses("*", supported);
  }

  /** Adding `*;q=0` to a consistent header without a wildcard only takes away the fallback to identity. */
  lemma RefusingTheRest(elements: seq<string>, supported: Supported)
    requires Wildcard(elements) == None && Consistent(elements, supported)
    ensures Choose(elements + [REFUSE_ALL], supported)
         == if NothingWanted(elements, supported) then None else Choose(elements, supported)
  {
    var more := elements + [REFUSE_ALL];
    RefuseAllParses(supported);
    EntriesConcat(elements, [REFUSE_ALL], supported);
    WildcardConcat(elements, [REFUSE_ALL]);
    assert Entries(more, supported) == Entries(elements, supported);
    assert Wildcard(more) == Some(0);
    forall e ensures EffectiveWeight(more, supported, e) == EffectiveWeight(elements, supported, e) {
      ConsistentWeights(Entries(elements, supported), e);
    }
    ChoosesTheBest(elements, supported);
    ChoosesTheBest(more, supported);
    var expected := if NothingWanted(elements, supported) then None else Choose(elements, supported);
    assert IsChoice(more, supported, expected);
    ChoiceIsUnique(more, supported, Choose(more, supported), expected);
  }

  /** The weight of the first listing of a coding, or 0. */
  function FirstListed(elements: seq<string>, supported: Supported, e: Encoding): Weight {
    match FirstWeight(Entries(elements, supported), e)
    case Some(listed) => listed
    case None => 0
  }

  /** `e` is wanted by its first listing, and no coding is wanted more by its own, or as much and preferred. */
  ghost predicate IsBestAtFirst(elements: seq<string>, supported: Supported, e: Encoding) {
    && supported.Has(e) && FirstListed(elements, supported, e) > 0
    && forall other :: supported.Has(other) ==>
         AtMost((other, FirstListed(elements, supported, other)), (e, FirstListed(elements, supported, e)))
  }

  /** With `*;q=0` at the end, first listings decide. */
  lemma RefusalLeavesFirstListings(elements: seq<string>, supported: Supported)
    requires Wildcard(elements) == None
    ensures Wildcard(elements + [REFUSE_ALL]) == Some(0)
    ensures forall e :: EffectiveWeight(elements + [REFUSE_ALL], supported, e) == FirstListed(elements, supported, e)
  {
    var more := elements + [REFUSE_ALL];
    RefuseAllParses(supported);
    EntriesConcat(elements, [REFUSE_ALL], supported);
    WildcardConcat(elements, [REFUSE_ALL]);
    assert Entries(more, supported) == Entries(elements, supported);
  }

  lemma FirstIsAtMostGreatest(elements: seq<string>, supported: Supported, e: Encoding)
    requires Wildcard(elements) == None
    ensures FirstListed(elements, supported, e) <= EffectiveWeight(elements, supported, e)
  {
    var entries := Entries(elements, supported);
    GreatestWeightIsListed(entries, e);
    FirstWeightIsListed(entries, e);
  }

  lemma ChoosesTheBestAtFirst(elements: seq<string>, supported: Supported, e: Encoding)
    requires Wildcard(elements) == None
    ensures Choose(elements + [REFUSE_ALL], supported) == Some(e) <==> IsBestAtFirst(elements, supported, e)
  {
    var more := elements + [REFUSE_ALL];
    RefusalLeavesFirstListings(elements, supported);
    ChoosesTheBest(more, supported);
    assert IsBest(more, supported, e) <==> IsBestAtFirst(elements, supported, e);
    if IsBest(more, supported, e) {
      ChoiceIsUnique(more, supported, Choose(more, supported), Some(e));
    }
  }

  /** For every header without a wildcard: adding `*;q=0` only takes away the fallback to identity if and only if
      nothing is wanted or the coding that is chosen is also the best one by first listings. */
  lemma RefusingTheRestIff(elements: seq<string>, supported: Supported)
    requires Wildcard(elements) == None
    ensures var chosen := Choose(elements, supported);
      (Choose(elements + [REFUSE_ALL], supported) == if NothingWanted(elements, supported) then None else chosen)
      <==> NothingWanted(elements, supported) || (chosen.Some? && IsBestAtFirst(elements, supported, chosen.value))
  {
    ChoosesTheBest(elements, supported);
    if NothingWanted(elements, supported) {
      forall e | supported.Has(e) ensures FirstListed(elements, supported, e) == 0 {
        FirstIsAtMostGreatest(elements, supported, e);
      }
      var after := Choose(elements + [REFUSE_ALL], supported);
      if after.Some? {
        ChoosesTheBestAtFirst(elements, supported, after.value);
      }
    } else {
      ChoosesTheBestAtFirst(elements, supported, Choose(elements, supported).value);
    }
  }

  lemma ReadsTwice(supported: Supported)
    requires supported.gzip
    ensures Entries(["gzip;q=0", "gzip"], supported) == [(Gzip, 0), (Gzip, 1000)]
    ensures Wildcard(["gzip;q=0", "gzip"]) == None
  {
    var elements := ["gzip;q=0", "gzip"];
    assert elements[0] == "gzip" + ";q=0";
    RefusalParses("gzip", supported);
    var plain := Listed("", "gzip", "", None);
    assert plain.Render() == "gzip";
    ReadsElement(plain, supported);
    assert elements[1..] == ["gzip"] && elements[2..] == [];
    assert Entries(["gzip"], supported) == [(Gzip, 1000)];
    assert Wildcard(["gzip"]) == None;
  }

  /** Without consistency this fails: a coding refused first and accepted later is lost with the wildcard. */
  lemma RefusingTheRestNeedsConsistency(supported: Supported)
    requires supported.gzip
    ensures var elements := ["gzip;q=0", "gzip"];
      && Wildcard(elements) == None
      && Choose(elements, supported) == Some(Gzip) && Choose(elements + [REFUSE_ALL], supported) == None
  {
    var elements := ["gzip;q=0", "gzip"];
    ReadsTwice(supported);
    RefuseAllParses(supported);
    EntriesConcat(elements, [REFUSE_ALL], supported);
    WildcardConcat(elements, [REFUSE_ALL]);
    MaxOfTwo(supported);
    var more := elements + [REFUSE_ALL];
    assert Entries(more, supported) == [(Gzip, 0), (Gzip, 1000)] && Wildcard(more) == Some(0);
    forall e ensures EffectiveWeight(more, supported, e) == 0 {
      FirstOfTwo(e);
    }
    ChoosesTheBest(more, supported);
    ChoiceIsUnique(more, supported, Choose(more, supported), None);
  }

  lemma FirstOfTwo(e: Encoding)
    ensures FirstWeight([(Gzip, 0), (Gzip, 1000)], e) == if e == Gzip then Some(0) else None
  {
    var entries: seq<Entry> := [(Gzip, 0), (Gzip, 1000)];
    assert entries[1..] == [(Gzip, 1000)] && entries[1..][1..] == [];
  }

  lemma MaxOfTwo(supported: Supported)
    ensures MaxEntry([(Gzip, 0), (Gzip, 1000)]) == Some((Gzip, 1000))
  {
    var entries: seq<Entry> := [(Gzip, 0), (Gzip, 1000)];
    assert entries[1..] == [(Gzip, 1000)] && entries[1..][1..] == [];
  }
}
