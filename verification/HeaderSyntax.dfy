/** The syntax of `Accept-Encoding` and what the code reads from it; section 12.5.3 of RFC 9110. */
module HeaderSyntax {
  import opened Http
  import opened QValue
  import opened ContentEncoding

  predicate IsOws(s: string) {
    forall i :: 0 <= i < |s| ==> s[i] == ' ' || s[i] == '\t'
  }

  /** The name of a coding, or `*`: visible characters without separators. */
  predicate IsName(s: string) {
    s != "" && forall i :: 0 <= i < |s| ==> '!' <= s[i] <= '~' && s[i] != ',' && s[i] != ';'
  }

  /** A weight parameter with the whitespace around it. */
  datatype Parameter = Parameter(before: string, text: string, after: string)

  /** One element of the list, with all its optional whitespace. */
  datatype Listed = Listed(before: string, name: string, after: string, parameter: Option<Parameter>) {
    predicate WellFormed() {
      && IsOws(before) && IsName(name) && IsOws(after)
      && (parameter.Some? ==> IsOws(parameter.value.before) && IsWeight(parameter.value.text) && IsOws(parameter.value.after))
    }

    function Render(): string {
      before + name + after
      + if parameter.Some? then ";" + (parameter.value.before + parameter.value.text + parameter.value.after) else ""
    }

    function Weight(): Weight
      requires WellFormed()
    {
      if parameter.Some? then
        ThousandthsInRange(parameter.value.text[2..]);
        Thousandths(parameter.value.text[2..])
      else 1000
    }
  }

  predicate Lacks(s: string, c: char) {
    forall i :: 0 <= i < |s| ==> s[i] != c
  }

  // ---------------------------------------------------------------- one element

  lemma IndexOfSeparator(a: string, c: char, b: string)
    requires Lacks(a, c)
    ensures IndexOf(a, c) == |a|
    ensures IndexOf(a + [c] + b, c) == |a|
  {
    var s := a + [c] + b;
    assert s[|a|] == c;
    assert forall k :: 0 <= k < |a| ==> s[k] == a[k];
  }

  lemma {:induction false} TrimStartDrops(ows: string, s: string)
    requires IsOws(ows) && s != "" && !IsSpace(s[0])
    ensures TrimStart(ows + s) == s
  {
    if ows == "" {
      assert ows + s == s;
    } else {
      assert (ows + s)[1..] == ows[1..] + s;
      TrimStartDrops(ows[1..], s);
    }
  }

  lemma {:induction false} TrimEndDrops(s: string, ows: string)
    requires IsOws(ows) && s != "" && !IsSpace(s[|s| - 1])
    ensures TrimEnd(s + ows) == s
  {
    if ows == "" {
      assert s + ows == s;
    } else {
      var t := s + ows;
      assert t[..|t| - 1] == s + ows[..|ows| - 1];
      assert IsSpace(t[|t| - 1]);
      TrimEndDrops(s, ows[..|ows| - 1]);
    }
  }

  lemma TrimDrops(before: string, core: string, after: string)
    requires IsOws(before) && IsOws(after)
    requires core != "" && !IsSpace(core[0]) && !IsSpace(core[|core| - 1])
    ensures Trim(before + core + after) == core
  {
    assert before + core + after == before + (core + after);
    TrimStartDrops(before, core + after);
    TrimEndDrops(core, after);
  }

  lemma WeightTextIsPlain(s: string)
    requires IsWeight(s)
    ensures forall i :: 0 <= i < |s| ==> '!' <= s[i] <= '~' && s[i] != ',' && s[i] != ';'
  {
    var t := s[2..];
    forall i | 0 <= i < |s| ensures '!' <= s[i] <= '~' && s[i] != ',' && s[i] != ';' {
      if i >= 4 {
        assert s[i] == t[2..][i - 4];
      } else if i >= 2 {
        assert s[i] == t[i - 2];
      }
    }
  }

  /** The two parts of an element. */
  lemma SplitsAtParameter(l: Listed)
    requires l.WellFormed()
    ensures var (coding, parameter) := SplitOnce(l.Render(), ';');
      && Trim(coding) == l.name
      && ElementWeight(parameter) == Some(l.Weight())
  {
    var coding := l.before + l.name + l.after;
    assert Lacks(coding, ';');
    TrimDrops(l.before, l.name, l.after);
    if l.parameter.Some? {
      var p := l.parameter.value;
      var text := p.before + p.text + p.after;
      IndexOfSeparator(coding, ';', text);
      assert l.Render() == coding + [';'] + text;
      assert l.Render()[..|coding|] == coding && l.Render()[|coding| + 1..] == text;
      WeightTextIsPlain(p.text);
      TrimDrops(p.before, p.text, p.after);
    } else {
      assert l.Render() == coding;
      IndexOfSeparator(coding, ';', "");
    }
  }

  /** Reading inverts printing, element by element: an element in the syntax of the RFC is read as its coding
      with 1000 times its weight, and a wildcard likewise. */
  lemma ReadsElement(l: Listed, supported: Supported)
    requires l.WellFormed()
    ensures ParseElement(l.Render(), supported)
         == match ParseEncoding(l.name, supported) { case Some(e) => Some((e, l.Weight())) case None => None }
    ensures ParseWildcard(l.Render()) == if l.name == "*" then Some(l.Weight()) else None
  {
    SplitsAtParameter(l);
  }

  // ---------------------------------------------------------------- elements that are not well-formed

  lemma {:induction false} TrimStartShape(s: string) returns (ows: string)
    ensures IsOws(ows) && s == ows + TrimStart(s)
    ensures TrimStart(s) == "" || !IsSpace(TrimStart(s)[0])
  {
    ows := "";
    if s != "" && IsSpace(s[0]) {
      var rest := TrimStartShape(s[1..]);
      ows := [s[0]] + rest;
      assert s == [s[0]] + s[1..];
    }
  }

  lemma {:induction false} TrimEndShape(s: string) returns (ows: string)
    ensures IsOws(ows) && s == TrimEnd(s) + ows
    ensures TrimEnd(s) == "" || !IsSpace(TrimEnd(s)[|TrimEnd(s)| - 1])
  {
    ows := "";
    if s != "" && IsSpace(s[|s| - 1]) {
      var rest := TrimEndShape(s[..|s| - 1]);
      ows := rest + [s[|s| - 1]];
      assert s == s[..|s| - 1] + [s[|s| - 1]];
    }
  }

  /** Trimming takes whitespace off both ends of any text, all of it and nothing else. */
  lemma TrimShape(s: string) returns (before: string, after: string)
    ensures IsOws(before) && IsOws(after) && s == before + Trim(s) + after
    ensures Trim(s) == "" || (!IsOws([Trim(s)[0]]) && !IsOws([Trim(s)[|Trim(s)| - 1]]))
  {
    before := TrimStartShape(s);
    after := TrimEndShape(TrimStart(s));
    if Trim(s) != "" {
      assert Trim(s)[0] == TrimStart(s)[0];
      assert [Trim(s)[0]][0] == Trim(s)[0];
      assert [Trim(s)[|Trim(s)| - 1]][0] == Trim(s)[|Trim(s)| - 1];
    }
  }

  /** Any element, well-formed or not. With a parameter it is read if and only if its name is that of a supported
      coding and the parameter, trimmed, is a weight; without one it has the weight 1. Likewise for a wildcard. */
  lemma ReadableIff(name: string, parameter: string, supported: Supported)
    requires Lacks(name, ';')
    ensures var v := name + ";" + parameter;
      && (ParseElement(v, supported).Some? <==>
            ParseEncoding(Trim(name), supported).Some? && IsWeight(Trim(parameter)))
      && (ParseElement(v, supported).Some? ==>
            && Some(ParseElement(v, supported).value.0) == ParseEncoding(Trim(name), supported)
            && ParseElement(v, supported).value.1 == Thousandths(Trim(parameter)[2..]))
      && (ParseWildcard(v).Some? <==> Trim(name) == "*" && IsWeight(Trim(parameter)))
      && (ParseWildcard(v).Some? ==> ParseWildcard(v).value == Thousandths(Trim(parameter)[2..]))
    ensures ParseElement(name, supported) ==
            match ParseEncoding(Trim(name), supported) { case Some(e) => Some((e, 1000)) case None => None }
    ensures ParseWildcard(name) == if Trim(name) == "*" then Some(1000) else None
  {
    var v := name + ";" + parameter;
    IndexOfSeparator(name, ';', parameter);
    assert v == name + [';'] + parameter;
    assert v[..|name|] == name && v[|name| + 1..] == parameter;
  }

  lemma {:induction false} EntriesConcat(a: seq<string>, b: seq<string>, supported: Supported)
    ensures Entries(a + b, supported) == Entries(a, supported) + Entries(b, supported)
  {
    if a == [] {
      assert a + b == b;
    } else {
      assert (a + b)[1..] == a[1..] + b;
      EntriesConcat(a[1..], b, supported);
    }
  }

  lemma {:induction false} WildcardConcat(a: seq<string>, b: seq<string>)
    ensures Wildcard(a + b) == if Wildcard(a).Some? then Wildcard(a) else Wildcard(b)
  {
    if a == [] {
      assert a + b == b;
    } else {
      assert (a + b)[1..] == a[1..] + b;
      WildcardConcat(a[1..], b);
    }
  }

  lemma OneElement(v: string, supported: Supported)
    ensures Entries([v], supported) == (if ParseElement(v, supported).Some? then [ParseElement(v, supported).value] else [])
    ensures Wildcard([v]) == ParseWildcard(v)
  {
    assert [v][1..] == [];
  }

  /** An element with an unreadable parameter, or whose name is neither a supported coding nor `*`, is as if it were not
      there, wherever in the list it is. */
  lemma UnreadableIsIgnored(a: seq<string>, name: string, parameter: string, b: seq<string>, supported: Supported)
    requires Lacks(name, ';')
    requires !IsWeight(Trim(parameter)) || (ParseEncoding(Trim(name), supported) == None && Trim(name) != "*")
    ensures Choose(a + [name + ";" + parameter] + b, supported) == Choose(a + b, supported)
  {
    var v := name + ";" + parameter;
    ReadableIff(name, parameter, supported);
    OneElement(v, supported);
    EntriesConcat(a + [v], b, supported);
    EntriesConcat(a, [v], supported);
    EntriesConcat(a, b, supported);
    WildcardConcat(a + [v], b);
    WildcardConcat(a, [v]);
    WildcardConcat(a, b);
    assert Entries(a, supported) + [] == Entries(a, supported);
    assert Entries(a + [v] + b, supported) == Entries(a + b, supported);
    assert Wildcard(a + [v] + b) == Wildcard(a + b);
  }

  lemma OnePointZeroOneIsNoWeight()
    ensures !IsWeight(Trim("q=1.01"))
  {
    TrimDrops("", "q=1.01", "");
    assert "" + "q=1.01" + "" == "q=1.01";
    assert "q=1.01"[2..] == "1.01" && "1.01"[3] == '1';
  }

  lemma NothingAsked(supported: Supported)
    ensures Choose([], supported) == Some(Identity)
  {
    assert Entries([], supported) == [] && Wildcard([]) == None;
  }

  /** Asking for gzip with a weight above 1 is asking for nothing. */
  lemma TooMuchIsIgnored(supported: Supported)
    ensures Choose(["gzip;q=1.01"], supported) == Some(Identity)
  {
    var none: seq<string> := [];
    OnePointZeroOneIsNoWeight();
    assert "gzip" + ";" + "q=1.01" == "gzip;q=1.01";
    assert none + ["gzip;q=1.01"] + none == ["gzip;q=1.01"] && none + none == none;
    UnreadableIsIgnored(none, "gzip", "q=1.01", none, supported);
    NothingAsked(supported);
  }

  // ---------------------------------------------------------------- lists

  /** `parts` with commas between them. */
  function Join(parts: seq<string>): string {
    if parts == [] then ""
    else if |parts| == 1 then parts[0]
    else parts[0] + [','] + Join(parts[1..])
  }

  /** Text up to the first comma is the first part. */
  lemma FirstPart(a: string, rest: string)
    requires Lacks(a, ',')
    ensures Split(a, ',') == [a]
    ensures Split(a + [','] + rest, ',') == [a] + Split(rest, ',')
  {
    var s := a + [','] + rest;
    IndexOfSeparator(a, ',', rest);
    assert s[..|a|] == a && s[|a| + 1..] == rest;
  }

  lemma CutAt(a: string, i: nat, b: string)
    requires i < |a| && a[i] == ','
    ensures a == a[..i] + [','] + a[i + 1..]
    ensures a + [','] + b == a[..i] + [','] + (a[i + 1..] + [','] + b)
  {
  }

  lemma SplitConcatStep(a: string, i: nat, b: string)
    requires i < |a| && a[i] == ',' && Lacks(a[..i], ',')
    requires Split(a[i + 1..] + [','] + b, ',') == Split(a[i + 1..], ',') + Split(b, ',')
    ensures Split(a + [','] + b, ',') == Split(a, ',') + Split(b, ',')
  {
    CutAt(a, i, b);
    FirstPart(a[..i], a[i + 1..]);
    FirstPart(a[..i], a[i + 1..] + [','] + b);
    Regroup([a[..i]], Split(a[i + 1..], ','), Split(b, ','));
  }

  lemma {:induction false} SplitConcat(a: string, b: string)
    ensures Split(a + [','] + b, ',') == Split(a, ',') + Split(b, ',')
    decreases |a|
  {
    var i := IndexOf(a, ',');
    if i == |a| {
      FirstPart(a, b);
    } else {
      SplitConcat(a[i + 1..], b);
      SplitConcatStep(a, i, b);
    }
  }

  function Texts(values: seq<HeaderValue>): seq<HeaderValue> {
    if values == [] then []
    else if IsVisible(values[0]) then [values[0]] + Texts(values[1..])
    else Texts(values[1..])
  }

  lemma {:induction false} TextsAreVisible(values: seq<HeaderValue>)
    ensures IsVisible(Join(Texts(values)))
  {
    if values != [] {
      TextsAreVisible(values[1..]);
      assert IsVisible(values[0]) ==> Texts(values)[1..] == Texts(values[1..]);
    }
  }

  lemma {:induction false} JoinSplits(values: seq<HeaderValue>)
    requires Texts(values) != []
    ensures Split(Join(Texts(values)), ',') == Elements(values)
  {
    var rest := values[1..];
    if !IsVisible(values[0]) {
      JoinSplits(rest);
    } else if Texts(rest) == [] {
      NoTextNoElements(rest);
    } else {
      JoinSplits(rest);
      assert Texts(values)[1..] == Texts(rest);
      SplitConcat(values[0], Join(Texts(rest)));
    }
  }

  lemma {:induction false} NoTextNoElements(values: seq<HeaderValue>)
    requires Texts(values) == []
    ensures Elements(values) == []
  {
    if values != [] {
      NoTextNoElements(values[1..]);
    }
  }

  lemma {:induction false} ElementsConcat(a: seq<HeaderValue>, b: seq<HeaderValue>)
    ensures Elements(a + b) == Elements(a) + Elements(b)
  {
    if a == [] {
      assert a + b == b;
    } else {
      assert (a + b)[1..] == a[1..] + b;
      ElementsConcat(a[1..], b);
    }
  }

  /** A character that is neither a tab nor visible ASCII. */
  predicate HasOther(v: HeaderValue) {
    exists i :: 0 <= i < |v| && v[i] != '\t' && !(32 <= v[i] as int <= 126)
  }

  lemma OneLine(v: HeaderValue)
    ensures Elements([v]) == if HasOther(v) then [] else Split(v, ',')
  {
    assert [v][1..] == [];
    assert forall i :: 0 <= i < |v| ==> ((v[i] == '\t' || ' ' <= v[i] <= '~') <==> (v[i] == '\t' || 32 <= v[i] as int <= 126));
    assert IsVisible(v) <==> !HasOther(v);
  }

  /** A field line with a character that is neither a tab nor visible ASCII is as if it were not there, and no other is. */
  lemma OtherLinesAreSkipped(a: seq<HeaderValue>, v: HeaderValue, b: seq<HeaderValue>)
    ensures Elements(a + [v] + b) == if HasOther(v) then Elements(a + b) else Elements(a) + Split(v, ',') + Elements(b)
  {
    ElementsConcat(a + [v], b);
    ElementsConcat(a, [v]);
    ElementsConcat(a, b);
    OneLine(v);
    assert Elements(a) + [] == Elements(a);
  }

  lemma ElementsOfOne(v: HeaderValue)
    requires IsVisible(v)
    ensures Elements([v]) == Split(v, ',')
  {
    assert [v][1..] == [];
  }

  /** Joining the field lines that are text into one line changes nothing; section 5.3 of RFC 9110. */
  lemma JoiningLinesChangesNothing(values: seq<HeaderValue>, supported: Supported)
    ensures Choose(Elements([Join(Texts(values))]), supported) == Choose(Elements(values), supported)
  {
    var joined := Join(Texts(values));
    TextsAreVisible(values);
    ElementsOfOne(joined);
    if Texts(values) == [] {
      NoTextNoElements(values);
      assert Elements([joined]) == [""];
      EmptyElementIsIgnored(supported);
    } else {
      JoinSplits(values);
      assert Elements([joined]) == Elements(values);
    }
  }

  lemma EmptyElementIsIgnored(supported: Supported)
    ensures Entries([""], supported) == [] && Wildcard([""]) == None
  {
    assert Trim("") == "";
    assert SplitOnce("", ';') == ("", None);
  }

  function Renders(list: seq<Listed>): seq<string> {
    if list == [] then [] else [list[0].Render()] + Renders(list[1..])
  }

  predicate AllWellFormed(list: seq<Listed>) {
    forall i :: 0 <= i < |list| ==> list[i].WellFormed()
  }

  /** What a list says about supported codings, in order. */
  function Meaning(list: seq<Listed>, supported: Supported): seq<Entry>
    requires AllWellFormed(list)
  {
    if list == [] then []
    else
      var e := ParseEncoding(list[0].name, supported);
      (if e.Some? then [(e.value, list[0].Weight())] else []) + Meaning(list[1..], supported)
  }

  lemma RenderIsPlain(l: Listed)
    requires l.WellFormed()
    ensures IsVisible(l.Render()) && Lacks(l.Render(), ',')
  {
    if l.parameter.Some? {
      WeightTextIsPlain(l.parameter.value.text);
    }
  }

  lemma {:induction false} ListIsVisible(list: seq<Listed>)
    requires AllWellFormed(list)
    ensures IsVisible(Join(Renders(list)))
  {
    if list != [] {
      RenderIsPlain(list[0]);
      ListIsVisible(list[1..]);
      assert Renders(list)[1..] == Renders(list[1..]);
    }
  }

  lemma {:induction false} ListSplits(list: seq<Listed>)
    requires list != [] && AllWellFormed(list)
    ensures IsVisible(Join(Renders(list))) && Split(Join(Renders(list)), ',') == Renders(list)
  {
    ListIsVisible(list);
    RenderIsPlain(list[0]);
    var first, rest := list[0].Render(), Renders(list[1..]);
    assert Renders(list) == [first] + rest;
    if |list| == 1 {
      FirstPart(first, "");
      assert Join([first]) == first;
    } else {
      ListSplits(list[1..]);
      FirstPart(first, Join(rest));
      assert ([first] + rest)[1..] == rest;
      assert Join([first] + rest) == first + [','] + Join(rest);
    }
  }

  lemma {:induction false} EntriesAreMeaning(list: seq<Listed>, supported: Supported)
    requires AllWellFormed(list)
    ensures Entries(Renders(list), supported) == Meaning(list, supported)
  {
    if list != [] {
      ReadsElement(list[0], supported);
      EntriesAreMeaning(list[1..], supported);
      assert Renders(list)[1..] == Renders(list[1..]);
    }
  }

  /** What a list says about the rest: the weight of its first wildcard. */
  function RestWeight(list: seq<Listed>): Option<Weight>
    requires AllWellFormed(list)
  {
    if list == [] then None else if list[0].name == "*" then Some(list[0].Weight()) else RestWeight(list[1..])
  }

  lemma {:induction false} WildcardIsRest(list: seq<Listed>)
    requires AllWellFormed(list)
    ensures Wildcard(Renders(list)) == RestWeight(list)
  {
    if list != [] {
      ReadsElement(list[0], Supported(false, false, false, false));
      WildcardIsRest(list[1..]);
      assert Renders(list)[1..] == Renders(list[1..]);
    }
  }

  /** Reading inverts printing for whole field values: any list in the syntax of the RFC, with any optional
      whitespace, is read as its supported codings with their weights, in order, and its first wildcard. */
  lemma ReadsList(list: seq<Listed>, supported: Supported)
    requires list != [] && AllWellFormed(list)
    ensures var elements := Elements([Join(Renders(list))]);
      Entries(elements, supported) == Meaning(list, supported) && Wildcard(elements) == RestWeight(list)
  {
    ListSplits(list);
    ElementsOfOne(Join(Renders(list)));
    EntriesAreMeaning(list, supported);
    WildcardIsRest(list);
  }
}
