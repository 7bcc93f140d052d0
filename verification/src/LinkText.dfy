/** The link format of section 2 of RFC 6690: the text that libcoap prints for its resources, and an
    independent reader of that format. */
module LinkText {
  import opened Wrappers

  datatype Attribute = Attribute(name: string, value: Maybe<string>)

  datatype Resource = Resource(uri: string, attributes: seq<Attribute>, observable: bool)

  // ----- the text that is printed -----

  function AttributeText(a: Attribute): string {
    ";" + a.name + if a.value.Some? then "=" + a.value.value else ""
  }

  function AttributesText(attributes: seq<Attribute>): string {
    if attributes == [] then ""
    else AttributesText(attributes[..|attributes| - 1]) + AttributeText(attributes[|attributes| - 1])
  }

  function Link(r: Resource): string {
    "</" + r.uri + ">" + AttributesText(r.attributes) + if r.observable then ";obs" else ""
  }

  /** The links of the resources that match, separated by commas. */
  function Links(rs: seq<Resource>, matches: Resource -> bool): string {
    if rs == [] then "" else
    var before, r := Links(rs[..|rs| - 1], matches), rs[|rs| - 1];
    if !matches(r) then before
    else before + (if AnyMatch(rs[..|rs| - 1], matches) then "," else "") + Link(r)
  }

  predicate AnyMatch(rs: seq<Resource>, matches: Resource -> bool) {
    exists i :: 0 <= i < |rs| && matches(rs[i])
  }

  // ----- the reader -----

  /** The characters in front of the first one of `stops`. */
  function Before(s: string, stops: set<char>): (k: nat)
    ensures k <= |s| && (k < |s| ==> s[k] in stops) && forall i :: 0 <= i < k ==> s[i] !in stops
  {
    if s == "" || s[0] in stops then 0 else 1 + Before(s[1..], stops)
  }

  /** The characters of a quoted string behind its opening quote, the closing one included; a backslash
      takes the next character with it. */
  function QuoteLength(s: string): Maybe<nat> {
    if s == "" then None
    else if s[0] == '"' then Some(1)
    else if s[0] == '\\' && |s| == 1 then None
    else
      var k: nat := if s[0] == '\\' then 2 else 1;
      var rest := QuoteLength(s[k..]);
      if rest.None? then None else Some(k + rest.value)
  }

  /** The characters of the value at the front of `s`: a quoted string, or all up to a semicolon or a comma. */
  function ValueLength(s: string): Maybe<nat> {
    if s != "" && s[0] == '"' then
      var k := QuoteLength(s[1..]);
      if k.None? then None else Some(1 + k.value)
    else Some(Before(s, {';', ','}))
  }

  lemma {:induction false} QuoteLengthInside(s: string)
    ensures QuoteLength(s).Some? ==> 1 <= QuoteLength(s).value <= |s|
    decreases |s|
  {
    if s != "" && s[0] != '"' && !(s[0] == '\\' && |s| == 1) {
      QuoteLengthInside(s[if s[0] == '\\' then 2 else 1..]);
    }
  }

  datatype AttributeRead = NoAttribute | AttributeRead(attribute: Attribute, rest: string)

  /** The value behind a name and an equals sign. */
  function ReadValue(name: string, v: string): (r: AttributeRead)
    ensures r.AttributeRead? ==> |r.rest| <= |v|
  {
    var k := ValueLength(v);
    QuoteLengthInside(if v != "" then v[1..] else "");
    if k.None? then NoAttribute else AttributeRead(Attribute(name, Some(v[..k.value])), v[k.value..])
  }

  /** One parameter behind its semicolon: a name, and a value if an equals sign follows. */
  function ReadAttribute(s: string): (r: AttributeRead)
    ensures r.AttributeRead? ==> |r.rest| <= |s|
  {
    var n := Before(s, {'=', ';', ','});
    if n < |s| && s[n] == '=' then ReadValue(s[..n], s[n + 1..]) else AttributeRead(Attribute(s[..n], None), s[n..])
  }

  datatype AttributesRead = NoAttributes | AttributesRead(attributes: seq<Attribute>, rest: string)

  function ReadAttributes(s: string): (r: AttributesRead)
    ensures r.AttributesRead? ==> |r.rest| <= |s|
    decreases |s|
  {
    if s == "" || s[0] != ';' then AttributesRead([], s) else
    var a := ReadAttribute(s[1..]);
    if a.NoAttribute? then NoAttributes else
    var more := ReadAttributes(a.rest);
    if more.NoAttributes? then NoAttributes else AttributesRead([a.attribute] + more.attributes, more.rest)
  }

  /** A last parameter `obs` without a value says that the resource can be observed. */
  function Observed(uri: string, all: seq<Attribute>): Resource {
    if all != [] && all[|all| - 1] == Attribute("obs", None) then Resource(uri, all[..|all| - 1], true)
    else Resource(uri, all, false)
  }

  datatype LinkRead = NoLink | LinkRead(resource: Resource, rest: string)

  /** A link: a path in angle brackets, and its parameters. */
  function ReadLink(s: string): (r: LinkRead)
    ensures r.LinkRead? ==> |r.rest| < |s|
  {
    if |s| < 2 || s[0] != '<' || s[1] != '/' then NoLink else
    var n := Before(s[2..], {'>'});
    if n == |s| - 2 then NoLink else
    var a := ReadAttributes(s[n + 3..]);
    if a.NoAttributes? then NoLink else LinkRead(Observed(s[2..n + 2], a.attributes), a.rest)
  }

  /** A list of links, with commas between them. */
  function ReadLinks(s: string): Maybe<seq<Resource>>
    decreases |s|
  {
    if s == "" then Some([]) else
    var l := ReadLink(s);
    if l.NoLink? then None
    else if l.rest == "" then Some([l.resource])
    else if l.rest[0] != ',' || l.rest == "," then None
    else
      var more := ReadLinks(l.rest[1..]);
      if more.None? then None else Some([l.resource] + more.value)
  }

  // ----- what can be read back -----

  /** The text behind the opening quote of a quoted string: it ends with its only closing quote. */
  predicate Quoted(s: string) {
    s != "" &&
    if s[0] == '"' then |s| == 1
    else if s[0] == '\\' then |s| > 1 && Quoted(s[2..])
    else Quoted(s[1..])
  }

  /** A value is a quoted string, or has neither a semicolon nor a comma in it. */
  predicate ReadableValue(v: string) {
    if v != "" && v[0] == '"' then Quoted(v[1..]) else ';' !in v && ',' !in v
  }

  predicate ReadableAttribute(a: Attribute) {
    '=' !in a.name && ';' !in a.name && ',' !in a.name && (a.value.Some? ==> ReadableValue(a.value.value))
  }

  /** No delimiter stands where it would end a part too early, and `obs` is not a last attribute of a
      resource that cannot be observed. */
  ghost predicate Readable(r: Resource) {
    '>' !in r.uri && (forall a <- r.attributes :: ReadableAttribute(a)) &&
    (r.observable || r.attributes == [] || r.attributes[|r.attributes| - 1] != Attribute("obs", None))
  }

  // ----- reading single parts -----

  lemma {:induction false} BeforeIs(p: string, rest: string, stops: set<char>)
    requires rest == "" || rest[0] in stops
    ensures Before(p + rest, stops) <= |p|
    ensures Before(p + rest, stops) == |p| <==> forall c <- p :: c !in stops
  {
    var k := Before(p + rest, stops);
    if k < |p| {
      assert (p + rest)[k] == p[k] && p[k] in p;
    } else {
      assert forall i :: 0 <= i < |p| ==> (p + rest)[i] == p[i];
      if rest != "" { assert (p + rest)[|p|] == rest[0]; }
    }
  }

  /** The closing quote is found at the end of `p` iff it is there. */
  lemma {:induction false} QuoteLengthIs(p: string, rest: string)
    ensures QuoteLength(p + rest) == Some(|p|) <==> Quoted(p)
    decreases |p|
  {
    QuoteLengthInside(p + rest);
    if p == "" {
    } else if p[0] == '"' {
    } else {
      var k: nat := if p[0] == '\\' then 2 else 1;
      if k <= |p| {
        assert (p + rest)[k..] == p[k..] + rest;
        QuoteLengthIs(p[k..], rest);
      } else if rest != "" {
        QuoteLengthInside((p + rest)[2..]);
      }
    }
  }

  lemma ValueLengthIs(v: string, rest: string)
    requires rest == "" || rest[0] in {';', ','}
    ensures ValueLength(v + rest) == Some(|v|) <==> ReadableValue(v)
  {
    if v != "" && v[0] == '"' {
      assert (v + rest)[1..] == v[1..] + rest;
      QuoteLengthIs(v[1..], rest);
    } else {
      BeforeIs(v, rest, {';', ','});
      assert (forall c <- v :: c !in {';', ','}) <==> ';' !in v && ',' !in v;
    }
  }

  lemma AttributeIs(a: Attribute, rest: string)
    requires rest == "" || rest[0] in {';', ','}
    ensures var r := ReadAttribute(AttributeText(a)[1..] + rest);
            (ReadableAttribute(a) ==> r == AttributeRead(a, rest)) &&
            (!ReadableAttribute(a) ==> r.NoAttribute? || r.attribute != a)
  {
    var u := if a.value.Some? then "=" + (a.value.value + rest) else rest;
    var s := a.name + u;
    TextBehindSemicolon(a, rest);
    BeforeIs(a.name, u, {'=', ';', ','});
    NameIs(a.name);
    NameRead(a.name, u);
    if a.value.Some? { ValueIs(a.value.value, rest); }
    hide AttributeText, Before, ReadableValue, ReadAttribute, ValueLength;
  }

  lemma TextBehindSemicolon(a: Attribute, rest: string)
    ensures AttributeText(a)[1..] + rest == a.name + if a.value.Some? then "=" + (a.value.value + rest) else rest
  {
    if a.value.Some? {
      assert AttributeText(a)[1..] == a.name + ("=" + a.value.value);
      assert a.name + ("=" + a.value.value) + rest == a.name + ("=" + (a.value.value + rest));
    } else {
      assert AttributeText(a)[1..] == a.name;
    }
  }

  /** What `ReadAttribute` makes of a name and what follows it. */
  lemma NameRead(name: string, u: string)
    requires u == "" || u[0] in {'=', ';', ','}
    ensures var n, r := Before(name + u, {'=', ';', ','}), ReadAttribute(name + u);
            n <= |name| && (n < |name| ==> r.NoAttribute? || r.attribute.name != name) &&
            (n == |name| && u != "" && u[0] == '=' ==> r == ReadValue(name, u[1..])) &&
            (n == |name| && (u == "" || u[0] != '=') ==> r == AttributeRead(Attribute(name, None), u))
  {
    BeforeIs(name, u, {'=', ';', ','});
    hide Before, ValueLength;
    var s := name + u;
    var n := Before(s, {'=', ';', ','});
    if n == |name| {
      assert s[..n] == name && s[n..] == u;
      assert u != "" ==> s[n + 1..] == u[1..];
    } else {
      assert |s[..n]| < |name|;
    }
  }

  lemma ValueIs(v: string, rest: string)
    requires rest == "" || rest[0] in {';', ','}
    ensures ("=" + (v + rest))[1..] == v + rest
    ensures forall name ::
              var r := ReadValue(name, v + rest);
              (ReadableValue(v) ==> r == AttributeRead(Attribute(name, Some(v)), rest)) &&
              (!ReadableValue(v) ==> r.NoAttribute? || r.attribute.value != Some(v))
  {
    ValueLengthIs(v, rest);
    ValueRead(v, rest);
    hide ReadableValue, ValueLength;
  }

  lemma NameIs(name: string)
    ensures (forall c <- name :: c !in {'=', ';', ','}) <==> '=' !in name && ';' !in name && ',' !in name
  {
  }

  lemma ValueRead(v: string, rest: string)
    ensures var k := ValueLength(v + rest);
            k.Some? ==> k.value <= |v + rest| &&
                        (k.value == |v| ==> (v + rest)[..k.value] == v && (v + rest)[k.value..] == rest) &&
                        (k.value != |v| ==> (v + rest)[..k.value] != v)
  {
    var s := v + rest;
    QuoteLengthInside(if s != "" then s[1..] else "");
    hide QuoteLength;
    var k := ValueLength(s);
    if k.Some? && k.value != |v| { assert |s[..k.value]| == k.value; }
  }

  // ----- reading a whole text -----

  lemma AttributesUnfold(ps: seq<Attribute>, a: Attribute)
    ensures AttributesText(ps + [a]) == AttributesText(ps) + AttributeText(a)
  {
    hide AttributeText;
    assert (ps + [a])[..|ps|] == ps;
  }

  lemma {:induction false} AttributesFront(ps: seq<Attribute>)
    requires ps != []
    ensures AttributesText(ps) == AttributeText(ps[0]) + AttributesText(ps[1..])
  {
    hide AttributeText, AttributesText;
    if |ps| == 1 {
      assert ps[1..] == [] && ps == [] + [ps[0]];
      AttributesUnfold([], ps[0]);
      NoAttributesText();
    } else {
      var front, last := ps[..|ps| - 1], ps[|ps| - 1];
      AttributesFront(front);
      FrontAndLast(ps);
      AttributesUnfold(front, last);
      AttributesUnfold(front[1..], last);
      Regroup(AttributeText(ps[0]), AttributesText(front[1..]), AttributeText(last));
    }
  }

  lemma NoAttributesText()
    ensures AttributesText([]) == "" && forall s: string :: "" + s == s && s + "" == s
  {
  }

  lemma FrontAndLast<T>(ps: seq<T>)
    requires |ps| > 1
    ensures var front, last := ps[..|ps| - 1], ps[|ps| - 1];
            ps == front + [last] && ps[1..] == front[1..] + [last] && front[0] == ps[0]
  {
  }

  lemma Regroup(x: string, y: string, z: string)
    ensures x + y + z == x + (y + z)
  {
  }

  lemma FirstOfAttributes(ps: seq<Attribute>, tail: string)
    requires tail == "" || tail[0] == ','
    ensures var s := AttributesText(ps) + tail;
            s == "" || s[0] in {';', ','}
  {
    if ps != [] { AttributesFront(ps); }
  }

  lemma ReadAttributesUnfold(s: string)
    ensures s == "" || s[0] != ';' ==> ReadAttributes(s) == AttributesRead([], s)
    ensures s != "" && s[0] == ';' ==>
              var a := ReadAttribute(s[1..]);
              ReadAttributes(s) ==
                if a.NoAttribute? then NoAttributes else
                var more := ReadAttributes(a.rest);
                if more.NoAttributes? then NoAttributes else AttributesRead([a.attribute] + more.attributes, more.rest)
  {
    hide ReadAttribute;
  }

  ghost predicate AllReadable(ps: seq<Attribute>) {
    forall a <- ps :: ReadableAttribute(a)
  }

  lemma AllReadableUnfold(ps: seq<Attribute>)
    ensures AllReadable(ps) <==> ps == [] || (ReadableAttribute(ps[0]) && AllReadable(ps[1..]))
  {
    if ps != [] { assert forall a :: a in ps <==> a == ps[0] || a in ps[1..]; }
  }

  lemma {:induction false} AttributesAre(ps: seq<Attribute>, tail: string)
    requires tail == "" || tail[0] == ','
    ensures var r := ReadAttributes(AttributesText(ps) + tail);
            (AllReadable(ps) ==> r == AttributesRead(ps, tail)) &&
            (!AllReadable(ps) ==> r.NoAttributes? || r.attributes != ps)
    decreases ps
  {
    AllReadableUnfold(ps);
    if ps == [] {
      ReadAttributesUnfold(tail);
      assert AttributesText(ps) + tail == tail;
    } else {
      var u := AttributesText(ps[1..]) + tail;
      AttributesFirst(ps, tail);
      FirstOfAttributes(ps[1..], tail);
      hide AttributeText, AttributesText, ReadAttribute, ReadAttributes, AllReadable, ReadableAttribute;
      AttributesAre(ps[1..], tail);
      ReadAttributesUnfold(AttributesText(ps) + tail);
      AttributeIs(ps[0], u);
      assert ps == [ps[0]] + ps[1..];
      FirstDiffers(ps);
    }
  }

  lemma AttributesFirst(ps: seq<Attribute>, tail: string)
    requires ps != []
    ensures var s, a := AttributesText(ps) + tail, AttributeText(ps[0]);
            s != "" && a != "" && s[0] == ';' && s[1..] == a[1..] + (AttributesText(ps[1..]) + tail)
  {
    AttributesFront(ps);
    var a := AttributeText(ps[0]);
    assert a != "" && a[0] == ';';
    hide AttributeText, AttributesText;
    assert a + AttributesText(ps[1..]) + tail == a + (AttributesText(ps[1..]) + tail);
  }

  lemma FirstDiffers<T>(ps: seq<T>)
    requires ps != []
    ensures forall x: T, xs: seq<T> :: [x] + xs == ps ==> x == ps[0] && xs == ps[1..]
  {
    forall x: T, xs: seq<T> | [x] + xs == ps
      ensures x == ps[0] && xs == ps[1..]
    {
      assert ([x] + xs)[1..] == xs;
    }
  }

  /** All parameters of a link, the one for the flag included. */
  function Parameters(r: Resource): seq<Attribute> {
    r.attributes + if r.observable then [Attribute("obs", None)] else []
  }

  lemma LinkIs(r: Resource)
    ensures Link(r) == "</" + (r.uri + (">" + AttributesText(Parameters(r))))
  {
    var text := AttributesText(r.attributes);
    if r.observable {
      var obs := Attribute("obs", None);
      assert Parameters(r)[..|r.attributes|] == r.attributes;
      assert AttributeText(obs) == ";obs";
      assert AttributesText(Parameters(r)) == text + ";obs";
      hide AttributesText;
      assert "</" + r.uri + ">" + text + ";obs" == "</" + (r.uri + (">" + (text + ";obs")));
    } else {
      assert Parameters(r) == r.attributes && text + "" == text;
      hide AttributesText;
      assert "</" + r.uri + ">" + text == "</" + (r.uri + (">" + text));
    }
  }

  lemma ObservedIs(r: Resource, uri: string, all: seq<Attribute>)
    ensures Observed(uri, all) == r ==> uri == r.uri && all == Parameters(r)
    ensures Observed(r.uri, Parameters(r)) == r <==>
              r.observable || r.attributes == [] || r.attributes[|r.attributes| - 1] != Attribute("obs", None)
  {
    var obs := Attribute("obs", None);
    if all != [] && all[|all| - 1] == obs { assert all == all[..|all| - 1] + [obs]; }
    assert (r.attributes + [obs])[..|r.attributes|] == r.attributes;
    assert r.attributes + [] == r.attributes;
  }

  lemma ParametersReadable(r: Resource)
    ensures AllReadable(Parameters(r)) <==> forall a <- r.attributes :: ReadableAttribute(a)
  {
    var obs := Attribute("obs", None);
    assert ReadableAttribute(obs);
    assert forall a :: a in Parameters(r) <==> a in r.attributes || (r.observable && a == obs);
    hide ReadableAttribute;
  }

  lemma ReadLinkUnfold(t: string)
    ensures var n := Before(t, {'>'});
            ReadLink(Bracketed(t)) ==
              if n == |t| then NoLink else
              var a := ReadAttributes(t[n + 1..]);
              if a.NoAttributes? then NoLink else LinkRead(Observed(t[..n], a.attributes), a.rest)
  {
    hide ReadAttributes, Before, Observed, Bracketed;
    var n := Before(t, {'>'});
    BehindBracket(t, n);
    if n < |t| { BehindBracket(t, n + 1); }
  }

  lemma BehindBracket(t: string, i: nat)
    requires i <= |t|
    ensures var s := Bracketed(t);
            |s| == |t| + 2 && s[0] == '<' && s[1] == '/' && s[2..] == t && s[2..i + 2] == t[..i] && s[i + 2..] == t[i..]
  {
  }

  /** A link is read back iff it is readable. */
  lemma LinkReadBack(r: Resource, tail: string)
    requires tail == "" || tail[0] == ','
    ensures var l := ReadLink(Link(r) + tail);
            (Readable(r) ==> l == LinkRead(r, tail)) && (!Readable(r) ==> l.NoLink? || l.resource != r)
  {
    hide *;
    var text := AttributesText(Parameters(r)) + tail;
    LinkBehind(r, tail);
    AttributesAre(Parameters(r), tail);
    UriIs(r.uri, text);
    ReadableIs(r);
    BracketedReadBack(r, text, r.uri + (">" + text), tail);
  }

  lemma BracketedReadBack(r: Resource, text: string, t: string, tail: string)
    requires var n := Before(t, {'>'});
             n < |t| && ('>' !in r.uri ==> n == |r.uri| && t[..n] == r.uri && t[n + 1..] == text) &&
             ('>' in r.uri ==> t[..n] != r.uri)
    requires var a := ReadAttributes(text);
             (AllReadable(Parameters(r)) ==> a == AttributesRead(Parameters(r), tail)) &&
             (!AllReadable(Parameters(r)) ==> a.NoAttributes? || a.attributes != Parameters(r))
    ensures var l := ReadLink(Bracketed(t));
            (ReadableParts(r) ==> l == LinkRead(r, tail)) && (!ReadableParts(r) ==> l.NoLink? || l.resource != r)
  {
    ReadLinkUnfold(t);
    hide Before, ReadAttributes, AllReadable, ReadLink, Observed, Parameters, Bracketed;
    var n := Before(t, {'>'});
    var a := ReadAttributes(t[n + 1..]);
    if a.AttributesRead? { ObservedIs(r, t[..n], a.attributes); }
    ObservedIs(r, r.uri, Parameters(r));
  }

  ghost predicate ReadableParts(r: Resource) {
    '>' !in r.uri && AllReadable(Parameters(r)) &&
    (r.observable || r.attributes == [] || r.attributes[|r.attributes| - 1] != Attribute("obs", None))
  }

  function Bracketed(t: string): string {
    "</" + t
  }

  lemma ReadableIs(r: Resource)
    ensures Readable(r) <==> ReadableParts(r)
  {
    hide ReadableAttribute, Parameters;
    ParametersReadable(r);
  }

  lemma LinkBehind(r: Resource, tail: string)
    ensures Link(r) + tail == Bracketed(r.uri + (">" + (AttributesText(Parameters(r)) + tail)))
  {
    LinkIs(r);
    hide Link, AttributesText, Parameters;
    var text := AttributesText(Parameters(r));
    assert "</" + (r.uri + (">" + text)) + tail == "</" + (r.uri + (">" + (text + tail)));
  }

  lemma UriIs(uri: string, text: string)
    ensures var t := uri + (">" + text);
            var n := Before(t, {'>'});
            n < |t| && ('>' !in uri ==> n == |uri| && t[..n] == uri && t[n + 1..] == text) &&
            ('>' in uri ==> t[..n] != uri)
  {
    var t := uri + (">" + text);
    BeforeIs(uri, ">" + text, {'>'});
    hide Before;
    var n := Before(t, {'>'});
    assert (forall c <- uri :: c !in {'>'}) <==> '>' !in uri;
    if '>' in uri {
      assert |t[..n]| < |uri|;
    } else {
      assert t[n..] == ">" + text;
      assert t[n + 1..] == text && t[..n] == uri;
    }
  }

  /** Links with commas between them, from the front. */
  function Listed(ls: seq<Resource>): string {
    if ls == [] then "" else if |ls| == 1 then Link(ls[0]) else Link(ls[0]) + ("," + Listed(ls[1..]))
  }

  lemma {:induction false} ListedAppend(ls: seq<Resource>, r: Resource)
    ensures Listed(ls + [r]) == Listed(ls) + ((if ls == [] then "" else ",") + Link(r))
  {
    hide Link;
    if ls == [] {
    } else {
      var rest := ls[1..];
      assert (ls + [r])[1..] == rest + [r];
      ListedAppend(rest, r);
      if rest == [] {
        assert "" + ("" + Link(r)) == Link(r) && Listed(ls) == Link(ls[0]);
      } else {
        var l, m, c := Link(ls[0]), Listed(rest), "," + Link(r);
        assert l + ("," + (m + c)) == l + ("," + m) + c;
      }
    }
  }

  lemma ReadLinksUnfold(s: string)
    requires s != ""
    ensures var l := ReadLink(s);
            ReadLinks(s) ==
              if l.NoLink? then None
              else if l.rest == "" then Some([l.resource])
              else if l.rest[0] != ',' || l.rest == "," then None
              else
                var more := ReadLinks(l.rest[1..]);
                if more.None? then None else Some([l.resource] + more.value)
  {
    hide ReadLink;
  }

  lemma ListedUnfold(ls: seq<Resource>)
    requires ls != []
    ensures Listed(ls) != "" && Listed(ls) == Link(ls[0]) + Tail(ls)
  {
    assert |Link(ls[0])| > 0;
    hide Link;
    assert Link(ls[0]) + "" == Link(ls[0]);
  }

  ghost predicate ReadableLinks(ls: seq<Resource>) {
    forall r <- ls :: Readable(r)
  }

  lemma ReadableLinksUnfold(ls: seq<Resource>)
    ensures ReadableLinks(ls) <==> ls == [] || (Readable(ls[0]) && ReadableLinks(ls[1..]))
  {
    if ls != [] { assert forall r :: r in ls <==> r == ls[0] || r in ls[1..]; }
    hide Readable;
  }

  lemma {:induction false} ListedReadBack(ls: seq<Resource>)
    ensures ReadLinks(Listed(ls)) == Some(ls) <==> ReadableLinks(ls)
    decreases ls
  {
    if ls == [] {
    } else {
      hide *;
      ReadableLinksUnfold(ls);
      ReadableLinksUnfold(ls[1..]);
      ListedUnfold(ls);
      ReadLinksUnfold(Listed(ls));
      LinkReadBack(ls[0], Tail(ls));
      TailIs(ls);
      ListedReadBack(ls[1..]);
      FirstDiffers(ls);
    }
  }

  /** What follows the first link. */
  function Tail(ls: seq<Resource>): string
    requires ls != []
  {
    if |ls| == 1 then "" else "," + Listed(ls[1..])
  }

  lemma TailIs(ls: seq<Resource>)
    requires ls != []
    ensures var tail := Tail(ls);
            (tail == "" <==> ls[1..] == []) && (tail == "" || tail[0] == ',') &&
            (tail != "" ==> tail != "," && tail[1..] == Listed(ls[1..]))
    ensures ls == [ls[0]] + ls[1..] && (Tail(ls) == "" ==> ls == [ls[0]])
    ensures forall x: Resource :: [x] == ls ==> x == ls[0]
  {
    if |ls| > 1 { ListedUnfold(ls[1..]); }
    hide Listed;
  }

  /** The resources that match, in order. */
  function Matching(rs: seq<Resource>, matches: Resource -> bool): seq<Resource> {
    if rs == [] then []
    else Matching(rs[..|rs| - 1], matches) + if matches(rs[|rs| - 1]) then [rs[|rs| - 1]] else []
  }

  lemma {:induction false} LinksAreListed(rs: seq<Resource>, matches: Resource -> bool)
    ensures Links(rs, matches) == Listed(Matching(rs, matches))
    ensures AnyMatch(rs, matches) <==> Matching(rs, matches) != []
  {
    if rs == [] {
    } else {
      var front, r := rs[..|rs| - 1], rs[|rs| - 1];
      LinksUnfold(rs, matches);
      AnyMatchMore(front, r, rs, matches);
      hide *;
      LinksAreListed(front, matches);
      ListedAppend(Matching(front, matches), r);
    }
  }

  lemma LinksUnfold(rs: seq<Resource>, matches: Resource -> bool)
    requires rs != []
    ensures var front, r := rs[..|rs| - 1], rs[|rs| - 1];
            Links(rs, matches) ==
              (if !matches(r) then Links(front, matches)
               else Links(front, matches) + ((if AnyMatch(front, matches) then "," else "") + Link(r))) &&
            Matching(rs, matches) ==
              if !matches(r) then Matching(front, matches) else Matching(front, matches) + [r]
  {
    hide Link, AnyMatch;
    var front := rs[..|rs| - 1];
    assert Matching(front, matches) + [] == Matching(front, matches);
  }

  lemma AnyMatchMore(front: seq<Resource>, r: Resource, rs: seq<Resource>, matches: Resource -> bool)
    requires rs == front + [r]
    ensures AnyMatch(rs, matches) <==> AnyMatch(front, matches) || matches(r)
  {
    assert forall i :: 0 <= i < |front| ==> rs[i] == front[i];
    assert rs[|front|] == r;
  }

  /** The text read by section 2 of RFC 6690 is exactly the resources that match, in order, each with its
      path, its attributes and the flag, iff all of them are readable. */
  lemma TextReadBack(rs: seq<Resource>, matches: Resource -> bool)
    ensures ReadLinks(Links(rs, matches)) == Some(Matching(rs, matches)) <==>
              forall r <- Matching(rs, matches) :: Readable(r)
  {
    hide *;
    LinksAreListed(rs, matches);
    ListedReadBack(Matching(rs, matches));
    ReadableLinksIs(Matching(rs, matches));
  }

  lemma ReadableLinksIs(ls: seq<Resource>)
    ensures ReadableLinks(ls) <==> forall r <- ls :: Readable(r)
  {
    hide Readable;
  }

  lemma OneReadBack(r: Resource)
    ensures ReadLinks(Link(r)) == Some([r]) <==> Readable(r)
  {
    ListedReadBack([r]);
    ReadableLinksUnfold([r]);
    assert [r][1..] == [];
    hide Readable, ReadLinks, Link;
  }
}
