/** `setURI()` and `getURI()` of cantcoap: a path with a query as Uri-Path and Uri-Query options, and
    back. */
module UriOptions {
  import opened Wire
  import opened OptionOrder
  import opened CoapPdu
  import opened CoapPduRuns
  import opened CoapPduValidate

  const URI_PATH: nat := 11
  const URI_QUERY: nat := 15
  const SLASH: byte := 47
  const QUESTION: byte := 63
  const AMPERSAND: byte := 38

  // ----- splitting -----

  /** `strchr`, as an index, or the length of the text. */
  function IndexOf(s: seq<byte>, c: byte): (k: nat)
    ensures k <= |s| && (k < |s| ==> s[k] == c) && forall i :: 0 <= i < k ==> s[i] != c
  {
    if s == [] || s[0] == c then 0 else 1 + IndexOf(s[1..], c)
  }

  function Separator(query: bool): byte {
    if query then AMPERSAND else SLASH
  }

  function Kind(query: bool): nat {
    if query then URI_QUERY else URI_PATH
  }

  function Strip(s: seq<byte>, c: byte): seq<byte> {
    if s != [] && s[0] == c then s[1..] else s
  }

  /** One turn of the loop of `setURI()`: the option it adds, and what is left of the text. */
  datatype Cut = Cut(option: Option, rest: seq<byte>, query: bool)

  function NextCut(s: seq<byte>, query: bool): (c: Cut)
    requires |s| > 1
    ensures |c.rest| < |s|
  {
    var t := Strip(s, Separator(query));
    var e, q := IndexOf(t, Separator(query)), IndexOf(t, QUESTION);
    if e < |t| then Cut(Option(Kind(query), t[..e]), t[e..], query)
    else if q < |t| then Cut(Option(Kind(query), t[..q]), t[q + 1..], true)
    else Cut(Option(Kind(query), t), [], query)
  }

  /** The options that the loop of `setURI()` adds for the rest of a text. */
  function Split(s: seq<byte>, query: bool): seq<Option>
    decreases |s|
  {
    if |s| <= 1 then [] else
    var c := NextCut(s, query);
    [c.option] + Split(c.rest, c.query)
  }

  /** What a whole text is split into. */
  function UriOptions(uri: seq<byte>): seq<Option> {
    if |uri| == 1 then [Option(URI_PATH, uri)] else Split(uri, false)
  }

  ghost predicate InOrder(opts: seq<Option>, query: bool, limit: nat) {
    Sorted(opts) &&
    forall o <- opts :: (o.number == URI_QUERY || (!query && o.number == URI_PATH)) && |o.value| <= limit
  }

  lemma InOrderCons(o: Option, opts: seq<Option>, query: bool, query': bool, n: nat, limit: nat)
    requires InOrder(opts, query', n) && o.number == Kind(query) && |o.value| <= limit && n <= limit &&
             (query ==> query')
    ensures InOrder([o] + opts, query, limit)
  {
    var all := [o] + opts;
    assert forall i :: 0 < i < |all| ==> all[i] == opts[i - 1] && opts[i - 1] in opts;
  }

  /** Path options, then query options. */
  lemma {:induction false} SplitNumbers(s: seq<byte>, query: bool)
    ensures InOrder(Split(s, query), query, |s|)
    decreases |s|
  {
    InOrderNone(query);
    if |s| > 1 {
      var c := NextCut(s, query);
      SplitNumbers(c.rest, c.query);
      assert c.option.number == Kind(query) && |c.option.value| <= |s| && (query ==> c.query);
      hide InOrder, NextCut;
      InOrderCons(c.option, Split(c.rest, c.query), query, c.query, |c.rest|, |s|);
    }
  }

  lemma InOrderNone(query: bool)
    ensures forall n: nat :: InOrder([], query, n)
  {
  }

  // ----- texts made of parts -----

  /** A part of a path or of a query; a query has no ampersand in it either. */
  predicate Part(p: seq<byte>, query: bool) {
    p != [] && 47 !in p && 63 !in p && (query ==> 38 !in p)
  }

  ghost predicate Parts(ps: seq<seq<byte>>, query: bool) {
    forall i :: 0 <= i < |ps| ==> Part(ps[i], query)
  }

  /** Each part behind its separator. */
  function Joined(ps: seq<seq<byte>>, c: byte): seq<byte>
    decreases ps
  {
    if ps == [] then [] else [c] + ps[0] + Joined(ps[1..], c)
  }

  function QueryText(queries: seq<seq<byte>>): seq<byte> {
    if queries == [] then [] else [63] + queries[0] + Joined(queries[1..], 38)
  }

  function Uri(paths: seq<seq<byte>>, queries: seq<seq<byte>>): seq<byte> {
    Joined(paths, 47) + QueryText(queries)
  }

  function Options(ps: seq<seq<byte>>, query: bool): seq<Option>
    decreases ps
  {
    if ps == [] then [] else [Option(if query then 15 else 11, ps[0])] + Options(ps[1..], query)
  }

  lemma IndexIs(s: seq<byte>, c: byte, k: nat)
    requires k <= |s| && (k < |s| ==> s[k] == c) && forall i :: 0 <= i < k ==> s[i] != c
    ensures IndexOf(s, c) == k
  {
  }

  lemma {:induction false} JoinedWithout(ps: seq<seq<byte>>, c: byte, d: byte)
    requires d != c && forall i :: 0 <= i < |ps| ==> d !in ps[i]
    ensures d !in Joined(ps, c)
    decreases ps
  {
    if ps != [] {
      JoinedWithout(ps[1..], c, d);
    }
  }

  /** Queries from the second one on. */
  lemma {:induction false} SplitRest(queries: seq<seq<byte>>)
    requires Parts(queries, true)
    ensures Split(Joined(queries, AMPERSAND), true) == Options(queries, true)
    decreases queries
  {
    if queries != [] {
      var s, p := Joined(queries, AMPERSAND), queries[0];
      var rest := Joined(queries[1..], AMPERSAND);
      assert Strip(s, AMPERSAND) == p + rest;
      assert Part(p, true);
      SplitRest(queries[1..]);
      IndexIs(p + rest, AMPERSAND, |p|);
      if rest == [] {
        assert p + rest == p;
        IndexIs(p, QUESTION, |p|);
        assert queries[1..] == [];
      } else {
        assert (p + rest)[..|p|] == p && (p + rest)[|p|..] == rest;
      }
    }
  }

  /** The queries behind the question mark.  A single query of one octet is lost: the loop takes it for
      the end of the text. */
  predicate LoneShort(queries: seq<seq<byte>>) {
    |queries| == 1 && |queries[0]| == 1
  }

  lemma SplitQueries(queries: seq<seq<byte>>)
    requires Parts(queries, true) && queries != []
    ensures Split(QueryText(queries)[1..], true) == if LoneShort(queries) then [] else Options(queries, true)
  {
    var p, rest := queries[0], Joined(queries[1..], AMPERSAND);
    assert QueryText(queries)[1..] == p + rest;
    assert Part(p, true);
    SplitRest(queries[1..]);
    OptionsUnfold(queries, true);
    RestIs(queries[1..], AMPERSAND);
    if |p + rest| > 1 { CutQuery(p, rest); }
    hide NextCut, Joined, QueryText, Options, Part, Parts;
    assert |p + rest| <= 1 <==> LoneShort(queries) by { PartNotEmpty(queries); }
    if |queries| == 1 { assert queries[1..] == []; }
  }

  lemma PartNotEmpty(queries: seq<seq<byte>>)
    requires Parts(queries, true) && queries != []
    ensures queries[0] != []
  {
    assert Part(queries[0], true);
  }

  lemma RestIs(ps: seq<seq<byte>>, c: byte)
    ensures Joined(ps, c) == [] <==> ps == []
    ensures ps != [] ==> Joined(ps, c)[0] == c
  {
  }

  /** One query in front of the others. */
  lemma CutQuery(p: seq<byte>, rest: seq<byte>)
    requires Part(p, true) && (rest == [] || rest[0] == AMPERSAND) && |p + rest| > 1
    ensures NextCut(p + rest, true) == Cut(Option(URI_QUERY, p), rest, true)
  {
    var s := p + rest;
    assert Strip(s, AMPERSAND) == s;
    IndexIs(s, AMPERSAND, |p|);
    hide IndexOf;
    if rest == [] {
      assert s == p;
      IndexIs(p, QUESTION, |p|);
    } else {
      assert s[..|p|] == p && s[|p|..] == rest;
    }
  }

  lemma QueryTextSlash(queries: seq<seq<byte>>)
    requires Parts(queries, true)
    ensures SLASH !in QueryText(queries)
  {
    if queries != [] {
      assert forall i :: 0 <= i < |queries| ==> Part(queries[i], true);
      JoinedWithout(queries[1..], AMPERSAND, SLASH);
    }
  }

  /** The last path part, in front of the query. */
  lemma SplitLast(p: seq<byte>, queries: seq<seq<byte>>)
    requires Part(p, false) && Parts(queries, true)
    ensures Split([SLASH] + p + QueryText(queries), false) ==
              [Option(URI_PATH, p)] + if LoneShort(queries) then [] else Options(queries, true)
  {
    var q := QueryText(queries);
    var s, t := [SLASH] + p + q, p + q;
    assert Strip(s, SLASH) == t;
    QueryTextSlash(queries);
    IndexIs(t, SLASH, |t|);
    IndexIs(t, QUESTION, |p|);
    assert t[..|p|] == p;
    if queries == [] {
      assert t == p;
    } else {
      SplitQueries(queries);
      assert t[|p| + 1..] == q[1..];
    }
  }

  /** A path part in front of another one. */
  lemma SplitFirst(p: seq<byte>, rest: seq<byte>)
    requires Part(p, false) && rest != [] && rest[0] == SLASH
    ensures Split([SLASH] + p + rest, false) == [Option(URI_PATH, p)] + Split(rest, false)
  {
    var s, t := [SLASH] + p + rest, p + rest;
    assert Strip(s, SLASH) == t;
    IndexIs(t, SLASH, |p|);
    assert t[..|p|] == p && t[|p|..] == rest;
  }

  lemma UriUnfold(paths: seq<seq<byte>>, queries: seq<seq<byte>>)
    requires paths != []
    ensures Uri(paths, queries) == [SLASH] + paths[0] + Uri(paths[1..], queries)
    ensures |paths| == 1 ==> Uri(paths[1..], queries) == QueryText(queries)
    ensures |paths| > 1 ==> Uri(paths[1..], queries) != [] && Uri(paths[1..], queries)[0] == SLASH
  {
    hide QueryText;
    assert |paths| == 1 ==> paths[1..] == [];
    assert Uri(paths, queries) == [SLASH] + paths[0] + Joined(paths[1..], SLASH) + QueryText(queries);
  }

  /** Splitting gives back the parts, except for a lone query of one octet. */
  lemma {:induction false} SplitParts(paths: seq<seq<byte>>, queries: seq<seq<byte>>)
    requires paths != [] && Parts(paths, false) && Parts(queries, true)
    ensures Split(Uri(paths, queries), false) ==
              Options(paths, false) + if LoneShort(queries) then [] else Options(queries, true)
    decreases paths
  {
    hide Split, Uri, QueryText, Part, LoneShort, Options;
    PartAt(paths, 0, false);
    UriUnfold(paths, queries);
    OptionsUnfold(paths, false);
    var o, q := [Option(URI_PATH, paths[0])], if LoneShort(queries) then [] else Options(queries, true);
    if |paths| == 1 {
      SplitLast(paths[0], queries);
      assert o + [] == o;
    } else {
      PartsRest(paths, false);
      SplitParts(paths[1..], queries);
      SplitFirst(paths[0], Uri(paths[1..], queries));
      assert o + (Options(paths[1..], false) + q) == o + Options(paths[1..], false) + q;
    }
  }

  lemma PartAt(ps: seq<seq<byte>>, i: nat, query: bool)
    requires Parts(ps, query) && i < |ps|
    ensures Part(ps[i], query)
  {
  }

  lemma PartsRest(ps: seq<seq<byte>>, query: bool)
    requires Parts(ps, query) && ps != []
    ensures Parts(ps[1..], query)
  {
  }

  lemma OptionsUnfold(ps: seq<seq<byte>>, query: bool)
    requires ps != []
    ensures Options(ps, query) == [Option(Kind(query), ps[0])] + Options(ps[1..], query)
    ensures |ps| == 1 ==> Options(ps[1..], query) == []
  {
  }

  /** `setURI()` on a text made of parts adds exactly their options, exactly if the query is not a
      single octet. */
  lemma UriOptionsIff(paths: seq<seq<byte>>, queries: seq<seq<byte>>)
    requires paths != [] && Parts(paths, false) && Parts(queries, true)
    ensures UriOptions(Uri(paths, queries)) == Options(paths, false) + Options(queries, true) <==> !LoneShort(queries)
  {
    assert Part(paths[0], false);
    SplitParts(paths, queries);
    if LoneShort(queries) {
      assert |Options(queries, true)| > 0;
    }
  }

  // ----- setURI() -----

  ghost predicate ShortValues(opts: seq<Option>) {
    forall i :: 0 <= i < |opts| ==> |opts[i].value| < 269
  }

  /** The options of a text are added in order, with small deltas. */
  lemma UriRun(uri: seq<byte>)
    ensures var adds := UriOptions(uri);
            Sorted(adds) && InsertAll(adds) == adds && AddedAtEnd(adds) == |adds| &&
            (ShortValues(adds) ==> SmallRun(adds)) &&
            forall i :: 0 <= i < |adds| ==> adds[i].number <= 15 && |adds[i].value| <= |uri|
  {
    var adds := UriOptions(uri);
    if |uri| != 1 { SplitNumbers(uri, false); }
    assert forall i :: 0 <= i < |adds| ==> adds[i] in adds;
    hide Split, UriOptions;
    SortedInsertAll(adds);
    CountRightIffInOrder(adds);
    if ShortValues(adds) { Below269IsSmall(adds); }
  }

  /** One turn of the loop, on positions in the text; `s` is behind the separator. */
  lemma CutAt(uri: seq<byte>, start: nat, s: nat, query: bool)
    requires start + 1 < |uri| && s == if uri[start] == Separator(query) then start + 1 else start
    ensures start < s + IndexOf(uri[s..], Separator(query))
    ensures var e, q := s + IndexOf(uri[s..], Separator(query)), s + IndexOf(uri[s..], QUESTION);
            NextCut(uri[start..], query) ==
              if e < |uri| then Cut(Option(Kind(query), uri[s..e]), uri[e..], query)
              else if q < |uri| then Cut(Option(Kind(query), uri[s..q]), uri[q + 1..], true)
              else Cut(Option(Kind(query), uri[s..]), [], query)
  {
    hide *;
    StripSlice(uri, start, Separator(query));
    IndexPositive(uri[start..], Separator(query));
    CutUnfold(uri[start..], uri[s..], query);
    Pieces(uri, s, IndexOf(uri[s..], Separator(query)));
    Pieces(uri, s, IndexOf(uri[s..], QUESTION));
  }

  lemma CutUnfold(s: seq<byte>, t: seq<byte>, query: bool)
    requires |s| > 1 && t == Strip(s, Separator(query))
    ensures var e, q := IndexOf(t, Separator(query)), IndexOf(t, QUESTION);
            NextCut(s, query) ==
              if e < |t| then Cut(Option(Kind(query), t[..e]), t[e..], query)
              else if q < |t| then Cut(Option(Kind(query), t[..q]), t[q + 1..], true)
              else Cut(Option(Kind(query), t), [], query)
  {
  }

  lemma IndexPositive(s: seq<byte>, c: byte)
    requires s != []
    ensures s[0] != c ==> IndexOf(s, c) > 0
  {
  }

  lemma StripSlice(uri: seq<byte>, start: nat, c: byte)
    requires start < |uri|
    ensures Strip(uri[start..], c) == uri[(if uri[start] == c then start + 1 else start)..]
  {
  }

  /** The loop of `setURI()` as far as it decides what to add: the next option and where to go on. */
  method NextPart(uri: seq<byte>, start: nat, query: bool) returns (o: Option, next: nat, query': bool)
    requires start + 1 < |uri|
    ensures start < next <= |uri| && NextCut(uri[start..], query) == Cut(o, uri[next..], query')
  {
    hide IndexOf, NextCut;
    var s := if uri[start] == Separator(query) then start + 1 else start;
    CutAt(uri, start, s, query);
    next, query' := s + IndexOf(uri[s..], Separator(query)), query;
    if next < |uri| {
      return Option(Kind(query), uri[s..next]), next, query;
    }
    next := s + IndexOf(uri[s..], QUESTION);
    if next < |uri| {
      return Option(Kind(query), uri[s..next]), next + 1, true;
    }
    assert uri[|uri|..] == [];
    return Option(Kind(query), uri[s..]), |uri|, query;
  }

  /** The options `adds[..i]` are in the PDU, and the rest of the text stands for the others. */
  ghost predicate AddedUpTo(p: CoapPDU, uri: seq<byte>, adds: seq<Option>, i: nat, start: nat, query: bool)
    reads p, p.pdu
  {
    i <= |adds| && start <= |uri| && p.Holds() && p.Options == InsertAll(adds[..i]) &&
    p.numOptions == AddedAtEnd(adds[..i]) &&
    adds[i..] == Split(uri[start..], query)
  }

  /** One turn of the loop. */
  method AddPart(p: CoapPDU, uri: seq<byte>, ghost adds: seq<Option>, ghost i: nat, start: nat, query: bool)
    returns (ok: bool, next: nat, query': bool)
    requires start + 1 < |uri| && AddedUpTo(p, uri, adds, i, start, query) && SmallRun(adds) && ShortValues(adds)
    modifies p, p.pdu
    ensures p.pdu == old(p.pdu) || fresh(p.pdu)
    ensures ok ==> start < next && AddedUpTo(p, uri, adds, i + 1, next, query')
    ensures !p.constructedFromBuffer ==> ok
  {
    hide *;
    var o;
    o, next, query' := NextPart(uri, start, query);
    AddedUpToIs(p, uri, adds, i, start, query);
    FirstPart(uri, adds, i, start, query, o, next, query');
    RunStep(adds, i);
    ghost var hole;
    ok, hole := p.AddOption(o.number, o.value);
    AddedUpToIs(p, uri, adds, i + 1, next, query');
  }

  lemma AddedUpToIs(p: CoapPDU, uri: seq<byte>, adds: seq<Option>, i: nat, start: nat, query: bool)
    ensures AddedUpTo(p, uri, adds, i, start, query) <==>
              i <= |adds| && start <= |uri| && p.Holds() && p.Options == InsertAll(adds[..i]) &&
              p.numOptions == AddedAtEnd(adds[..i]) &&
              adds[i..] == Split(uri[start..], query)
  {
  }

  /** The next option is the first of those that the rest of the text stands for. */
  lemma FirstPart(uri: seq<byte>, adds: seq<Option>, i: nat, start: nat, query: bool,
                  o: Option, next: nat, query': bool)
    requires i <= |adds| && start + 1 < |uri| && next <= |uri| && ShortValues(adds)
    requires adds[i..] == Split(uri[start..], query) && NextCut(uri[start..], query) == Cut(o, uri[next..], query')
    ensures i < |adds| && adds[i] == o == Option(o.number, o.value)
    ensures adds[i + 1..] == Split(uri[next..], query')
    ensures o.number < 65536 && |o.value| <= 65530
  {
    hide Strip, IndexOf;
    assert adds[i..] == [o] + Split(uri[next..], query');
    assert adds[i..][0] == adds[i] && adds[i..][1..] == adds[i + 1..];
  }

  /** `setURI()` on a fresh PDU: 0 for success.  Whether the option of a text of one character could
      be added is not reported. */
  method SetURI(p: CoapPDU, uri: seq<byte>) returns (r: int)
    requires p.Holds() && p.Options == [] && p.numOptions == 0
    requires ShortValues(UriOptions(uri)) && 0 !in uri
    modifies p, p.pdu
    ensures p.pdu == old(p.pdu) || fresh(p.pdu)
    ensures uri == [] ==> r == 1
    ensures uri != [] && !p.constructedFromBuffer ==> r == 0
    ensures uri != [] && r == 0 && (|uri| > 1 || !p.constructedFromBuffer) ==>
              p.Holds() && p.Options == UriOptions(uri) && p.numOptions == |p.Options|
    ensures |uri| == 1 && !p.constructedFromBuffer ==> p.Options == [Option(11, uri)]
  {
    if uri == [] { return 1; }
    UriRun(uri);
    ghost var adds := UriOptions(uri);
    RunEmpty(adds);
    var start, query := 0, false;
    ghost var i := 0;
    if |uri| == 1 {
      RunStep(adds, 0);
      assert adds == [Option(URI_PATH, uri)] && adds[..1] == adds;
      hide *;
      var _, _ := p.AddOption(11, uri);
      return 0;
    }
    assert uri[0..] == uri && adds[0..] == adds;
    hide *;
    while start + 1 < |uri|
      invariant AddedUpTo(p, uri, adds, i, start, query) && (p.pdu == old(p.pdu) || fresh(p.pdu))
      decreases |uri| - start
    {
      var ok;
      ok, start, query := AddPart(p, uri, adds, i, start, query);
      if !ok { return 1; }
      i := i + 1;
    }
    AllAdded(p, uri, adds, i, start, query);
    return 0;
  }

  lemma AllAdded(p: CoapPDU, uri: seq<byte>, adds: seq<Option>, i: nat, start: nat, query: bool)
    requires AddedUpTo(p, uri, adds, i, start, query) && start + 1 >= |uri|
    requires InsertAll(adds) == adds && AddedAtEnd(adds) == |adds|
    ensures p.Holds() && p.Options == adds && p.numOptions == |adds|
  {
    assert adds[i..] == [];
    assert adds[..i] == adds;
  }

  // ----- getURI() -----

  predicate Relevant(o: Option) {
    o.number == URI_PATH || o.number == URI_QUERY
  }

  /** The text after one more option, a separator behind it: the first query turns the separator in
      front of it into a question mark. */
  function Extend(text: seq<byte>, query: bool, o: Option): seq<byte>
    requires text != []
  {
    Base(text, query, o) + o.value +
    [if o.number == URI_QUERY || query then AMPERSAND else SLASH]
  }

  function Trail(text: seq<byte>, query: bool, opts: seq<Option>): (r: seq<byte>)
    requires text != []
    ensures |r| >= |text|
    decreases opts
  {
    if opts == [] then text
    else if Relevant(opts[0]) then Trail(Extend(text, query, opts[0]), query || opts[0].number == URI_QUERY, opts[1..])
    else Trail(text, query, opts[1..])
  }

  /** An option with the value "/" makes `getURI()` stop at once. */
  predicate LoneSlash(o: Option) {
    Relevant(o) && o.value == [SLASH]
  }

  /** Where the first one is. */
  function FirstSlash(opts: seq<Option>): (k: nat)
    ensures k <= |opts| && (k < |opts| ==> LoneSlash(opts[k])) && forall i :: 0 <= i < k ==> !LoneSlash(opts[i])
  {
    if opts == [] || LoneSlash(opts[0]) then 0 else 1 + FirstSlash(opts[1..])
  }

  /** The text in front of an option: the first query turns the separator behind it into a question mark. */
  function Base(text: seq<byte>, query: bool, o: Option): seq<byte>
    requires text != []
  {
    if o.number == URI_QUERY && !query then text[..|text| - 1] + [QUESTION] else text
  }

  predicate HasQuery(opts: seq<Option>) {
    exists i :: 0 <= i < |opts| && opts[i].number == URI_QUERY
  }

  /** The text that is stored for the options in front of the first lone slash, or for all. */
  function Stored(opts: seq<Option>): (r: seq<byte>)
    ensures r != []
  {
    var k := FirstSlash(opts);
    var text := Trail([SLASH], false, opts[..k]);
    if k == |opts| then text else Base(text, HasQuery(opts[..k]), opts[k])
  }

  ghost predicate NoLoneSlash(opts: seq<Option>) {
    forall i :: 0 <= i < |opts| ==> !LoneSlash(opts[i])
  }

  lemma {:induction false} TrailPaths(text: seq<byte>, paths: seq<seq<byte>>, rest: seq<Option>)
    ensures Trail(text + [SLASH], false, Options(paths, false) + rest) ==
            Trail(text + Joined(paths, SLASH) + [SLASH], false, rest)
    decreases paths
  {
    if paths == [] {
      assert Options(paths, false) + rest == rest && text + [] == text;
    } else {
      var o, more := Option(URI_PATH, paths[0]), Options(paths[1..], false) + rest;
      assert Options(paths, false) + rest == [o] + more;
      assert Extend(text + [SLASH], false, o) == text + [SLASH] + paths[0] + [SLASH];
      TrailPaths(text + [SLASH] + paths[0], paths[1..], rest);
      assert text + [SLASH] + paths[0] + Joined(paths[1..], SLASH) == text + Joined(paths, SLASH);
    }
  }

  lemma {:induction false} TrailQueries(text: seq<byte>, queries: seq<seq<byte>>)
    ensures Trail(text + [AMPERSAND], true, Options(queries, true)) == text + Joined(queries, AMPERSAND) + [AMPERSAND]
    decreases queries
  {
    if queries == [] {
      assert text + [] == text;
    } else {
      var o := Option(URI_QUERY, queries[0]);
      assert Options(queries, true) == [o] + Options(queries[1..], true);
      assert Extend(text + [AMPERSAND], true, o) == text + [AMPERSAND] + queries[0] + [AMPERSAND];
      TrailQueries(text + [AMPERSAND] + queries[0], queries[1..]);
      assert text + [AMPERSAND] + queries[0] + Joined(queries[1..], AMPERSAND) == text + Joined(queries, AMPERSAND);
    }
  }

  lemma TrailOne(text: seq<byte>, query: bool, o: Option, rest: seq<Option>)
    requires text != [] && Relevant(o)
    ensures Trail(text, query, [o] + rest) == Trail(Extend(text, query, o), query || o.number == URI_QUERY, rest)
  {
    assert ([o] + rest)[1..] == rest;
  }

  lemma ExtendFirstQuery(text: seq<byte>, value: seq<byte>)
    ensures Extend(text + [SLASH], false, Option(URI_QUERY, value)) == text + [QUESTION] + value + [AMPERSAND]
  {
    assert (text + [SLASH])[..|text|] == text;
  }

  lemma TrailFirstQuery(text: seq<byte>, queries: seq<seq<byte>>)
    requires queries != []
    ensures Trail(text + [SLASH], false, Options(queries, true)) == text + QueryText(queries) + [AMPERSAND]
  {
    var o, next := Option(URI_QUERY, queries[0]), text + [QUESTION] + queries[0];
    assert Options(queries, true) == [o] + Options(queries[1..], true);
    assert next + Joined(queries[1..], AMPERSAND) == text + QueryText(queries);
    hide Trail, Extend, Joined, QueryText, Options;
    TrailOne(text + [SLASH], false, o, Options(queries[1..], true));
    ExtendFirstQuery(text, queries[0]);
    TrailQueries(next, queries[1..]);
  }

  /** The parts of a text, put together again. */
  lemma TrailOfParts(paths: seq<seq<byte>>, queries: seq<seq<byte>>)
    ensures Trail([SLASH], false, Options(paths, false) + Options(queries, true))
         == Uri(paths, queries) + [if queries == [] then SLASH else AMPERSAND]
  {
    var text := Joined(paths, SLASH);
    assert [] + [SLASH] == [SLASH] && [] + text == text;
    TrailPaths([], paths, Options(queries, true));
    if queries == [] {
      assert text + [] == text;
    } else {
      TrailFirstQuery(text, queries);
    }
  }

  /** The options that `getURI()` walks over are those of the message. */
  ghost predicate Listed(m: seq<byte>, r: seq<CoapOption>, opts: seq<Option>) {
    |r| == |opts| &&
    forall i :: 0 <= i < |r| ==>
      r[i].optionNumber == opts[i].number && r[i].optionValueLength == |opts[i].value| &&
      r[i].optionValuePosition + r[i].optionValueLength <= |m| &&
      m[r[i].optionValuePosition..r[i].optionValuePosition + r[i].optionValueLength] == opts[i].value
  }

  /** One relevant option goes into the destination, if there is room for it and a separator. */
  method CopyOption(dst: array<byte>, at: nat, limit: nat, value: seq<byte>, number: nat, query: bool)
    returns (ok: bool, stopped: bool)
    requires 0 < at <= limit <= dst.Length
    modifies dst
    ensures stopped <==> value == [SLASH] && at + 1 <= limit
    ensures stopped ==> ok && dst[..at] == Base(old(dst[..at]), query, Option(number, value))
    ensures !stopped ==> (ok <==> at + |value| + 1 <= limit)
    ensures ok && !stopped ==> dst[..at + |value| + 1] == Extend(old(dst[..at]), query, Option(number, value))
  {
    ghost var text := dst[..at];
    stopped := false;
    if number == URI_QUERY && !query { dst[at - 1] := QUESTION; }
    ghost var base := if number == URI_QUERY && !query then text[..|text| - 1] + [QUESTION] else text;
    assert dst[..at] == base;
    if at + |value| > limit { return false, false; }
    if |value| == 1 && value[0] == SLASH { return true, true; }
    CopyValue(dst, at, value);
    if at + |value| + 1 > limit { return false, false; }
    ghost var was := dst[..at + |value|];
    dst[at + |value|] := if number == URI_QUERY || query then AMPERSAND else SLASH;
    assert dst[..at + |value| + 1] == was + [dst[at + |value|]];
    return true, false;
  }

  method CopyValue(dst: array<byte>, at: nat, value: seq<byte>)
    requires at + |value| <= dst.Length
    modifies dst
    ensures dst[..at + |value|] == old(dst[..at]) + value
  {
    forall i | 0 <= i < |value| {
      dst[at + i] := value[i];
    }
  }

  lemma TrailStep(text: seq<byte>, query: bool, opts: seq<Option>, i: nat, k: nat)
    requires text != [] && i <= k <= |opts| && i < |opts|
    ensures i < k ==>
              Trail(text, query, opts[i..k]) ==
                if Relevant(opts[i]) then
                  Trail(Extend(text, query, opts[i]), query || opts[i].number == URI_QUERY, opts[i + 1..k])
                else Trail(text, query, opts[i + 1..k])
    ensures i < k && Relevant(opts[i]) ==> |Trail(text, query, opts[i..k])| >= |text| + |opts[i].value| + 1
    ensures i == k ==> Trail(text, query, opts[i..k]) == text
  {
    if i < k { assert opts[i..k][1..] == opts[i + 1..k] && opts[i..k][0] == opts[i]; }
  }

  /** The loop of `getURI()`: where the text and its last separator end, or a failure for want of room.
      `stopped` is set by a lone slash. */
  method CopyOptions(dst: array<byte>, limit: nat, m: seq<byte>, r: seq<CoapOption>, ghost opts: seq<Option>)
    returns (ok: bool, at: nat, stopped: bool)
    requires 0 < limit <= dst.Length && Listed(m, r, opts) && dst[0] == SLASH
    modifies dst
    ensures stopped <==> ok && FirstSlash(opts) < |opts|
    ensures ok <==> |Stored(opts)| + (if FirstSlash(opts) < |opts| then 1 else 0) <= limit
    ensures ok ==> 0 < at <= limit && dst[..at] == Stored(opts)
  {
    hide Trail, Extend, Base, LoneSlash, FirstSlash, HasQuery;
    at, stopped := 1, false;
    var query := false;
    ghost var k := FirstSlash(opts);
    ghost var all := Trail([SLASH], false, opts[..k]);
    StoredLength(opts);
    assert opts[0..k] == opts[..k] && dst[..1] == [SLASH];
    NoQuery(opts[..0]);
    for i := 0 to |r|
      invariant !stopped && 0 < at <= limit && i <= k && Trail(dst[..at], query, opts[i..k]) == all
      invariant query <==> HasQuery(opts[..i])
    {
      var value := m[r[i].optionValuePosition..r[i].optionValuePosition + r[i].optionValueLength];
      var o := Option(r[i].optionNumber, value);
      assert o == opts[i];
      TrailStep(dst[..at], query, opts, i, k);
      HasQueryNext(opts, i);
      if Relevant(o) {
        ok, stopped := CopyOption(dst, at, limit, value, o.number, query);
        IsLoneSlash(opts, i);
        if stopped || !ok { return; }
        at := at + |value| + 1;
        query := query || o.number == URI_QUERY;
      } else {
        IsLoneSlash(opts, i);
      }
    }
    assert opts[|r|..k] == [];
    TrailEmpty(dst[..at], query);
    ok := true;
  }

  lemma StoredLength(opts: seq<Option>)
    ensures var k := FirstSlash(opts);
            var text := Trail([SLASH], false, opts[..k]);
            |Stored(opts)| == |text| && (k == |opts| ==> Stored(opts) == text)
  {
    hide Trail, FirstSlash, HasQuery;
  }

  lemma NoQuery(opts: seq<Option>)
    ensures opts == [] ==> !HasQuery(opts)
  {
  }

  lemma HasQueryNext(opts: seq<Option>, i: nat)
    requires i < |opts|
    ensures HasQuery(opts[..i + 1]) <==> HasQuery(opts[..i]) || opts[i].number == URI_QUERY
  {
    assert opts[..i + 1] == opts[..i] + [opts[i]];
    if opts[i].number == URI_QUERY { assert opts[..i + 1][i].number == URI_QUERY; }
    if HasQuery(opts[..i]) {
      var j :| 0 <= j < i && opts[..i][j].number == URI_QUERY;
      assert opts[..i + 1][j].number == URI_QUERY;
    }
  }

  lemma TrailEmpty(text: seq<byte>, query: bool)
    requires text != []
    ensures Trail(text, query, []) == text
  {
  }

  lemma IsLoneSlash(opts: seq<Option>, i: nat)
    requires i <= FirstSlash(opts) && i < |opts|
    ensures i == FirstSlash(opts) <==> Relevant(opts[i]) && opts[i].value == [SLASH]
    ensures i == FirstSlash(opts) ==>
              Stored(opts) == Base(Trail([SLASH], false, opts[..i]), HasQuery(opts[..i]), opts[i])
  {
    hide Trail, HasQuery, Base;
  }

  lemma ListedOptions(p: CoapPDU, r: seq<CoapOption>)
    requires p.Encoded() && |r| == |p.Options|
    requires forall i :: 0 <= i < |r| ==> Describes(p.Contents(), p.OptionsStart(), p.Options, i, r[i])
    ensures Listed(p.Contents(), r, p.Options)
  {
    hide Encode, Encodable, Walked;
  }

  /** `getURI()`: 0 for success.  The text is complete exactly if the destination has room for it, one
      more separator and the terminator.  An option that is a lone slash ends the walk: what has been
      copied stays, and a length of 1 is reported. */
  method GetURI(p: CoapPDU, dst: array<byte>, dstlen: int) returns (r: int, outLen: nat)
    requires p.Encoded() && p.numOptions == |p.Options| && dst != p.pdu && dst.Length > 0 && dstlen <= dst.Length
    modifies dst
    ensures dstlen <= 0 ==> r == 1
    ensures dstlen > 0 && p.Options == [] ==> r == 0 && outLen == 0 && dst[0] == 0
    ensures var all := Stored(p.Options);
            p.Options != [] && FirstSlash(p.Options) == |p.Options| ==>
              (r == 0 <==> |all| + 1 <= dstlen) &&
              (r == 0 ==> outLen == |all| - 1 < dst.Length && dst[..outLen] == all[..outLen] && dst[outLen] == 0)
    ensures var all := Stored(p.Options);
            FirstSlash(p.Options) < |p.Options| ==>
              (r == 0 <==> |all| + 2 <= dstlen) &&
              (r == 0 ==> outLen == 1 && |all| < dst.Length && dst[..|all|] == all && dst[|all|] == 0)
  {
    hide Trail, Stored, FirstSlash;
    outLen := 0;
    if dstlen <= 0 {
      dst[0] := 0;
      return 1, 0;
    }
    if p.numOptions == 0 {
      dst[0] := 0;
      return 0, 0;
    }
    var m := p.pdu[..p.pduLength];
    var options := GetOptions(p);
    ListedOptions(p, options);
    if dstlen - 1 < 1 { return 1, 0; }
    dst[0] := SLASH;
    var ok, at, stopped := CopyOptions(dst, dstlen - 1, m, options, p.Options);
    if !ok { return 1, 0; }
    ghost var all := dst[..at];
    if stopped {
      dst[at] := 0;
      assert dst[..at] == all;
      return 0, 1;
    }
    dst[at - 1] := 0;
    assert dst[..at - 1] == all[..at - 1];
    return 0, at - 1;
  }

  /** A text made of parts survives `setURI()` and `getURI()`, exactly if its query is not a single
      octet. */
  lemma UriSurvivesIff(paths: seq<seq<byte>>, queries: seq<seq<byte>>)
    requires paths != [] && Parts(paths, false) && Parts(queries, true)
    ensures var opts, uri := UriOptions(Uri(paths, queries)), Uri(paths, queries);
            FirstSlash(opts) == |opts| && opts != [] &&
            var all := Stored(opts);
            (all[..|all| - 1] == uri <==> !LoneShort(queries)) && (!LoneShort(queries) ==> |all| == |uri| + 1)
  {
    var uri, qs := Uri(paths, queries), if LoneShort(queries) then [] else queries;
    assert Part(paths[0], false);
    UriUnfold(paths, queries);
    SplitParts(paths, queries);
    assert UriOptions(uri) == Options(paths, false) + Options(qs, true);
    TrailOfParts(paths, qs);
    PartsHaveNoSlash(paths, false);
    PartsHaveNoSlash(qs, true);
    NoSlashStores(UriOptions(uri));
    hide Trail, Stored, FirstSlash, Options, Split, UriOptions, Part;
    assert |Uri(paths, [])| < |uri| || queries == [] by { assert queries != [] ==> |QueryText(queries)| > 0; }
  }

  lemma NoSlashStores(opts: seq<Option>)
    ensures NoLoneSlash(opts) ==> FirstSlash(opts) == |opts| && Stored(opts) == Trail([SLASH], false, opts)
  {
    hide Trail, LoneSlash;
    assert opts[..|opts|] == opts;
  }

  lemma {:induction false} PartsHaveNoSlash(ps: seq<seq<byte>>, query: bool)
    requires Parts(ps, query)
    ensures NoLoneSlash(Options(ps, query)) && (ps != [] ==> Options(ps, query) != [])
    decreases ps
  {
    if ps != [] {
      assert Part(ps[0], query);
      PartsHaveNoSlash(ps[1..], query);
    }
  }

  lemma UriSize(paths: seq<seq<byte>>, queries: seq<seq<byte>>)
    requires paths != [] && Parts(paths, false)
    ensures |Uri(paths, queries)| > 1
  {
    assert Part(paths[0], false);
    UriUnfold(paths, queries);
  }

  /** `getURI()` after `setURI()` on a fresh PDU gives back the same text. */
  method SetAndGet(p: CoapPDU, paths: seq<seq<byte>>, queries: seq<seq<byte>>, dst: array<byte>, dstlen: int)
    returns (r: int, outLen: nat)
    requires p.Holds() && p.Options == [] && p.numOptions == 0 && !p.constructedFromBuffer
    requires paths != [] && Parts(paths, false) && Parts(queries, true) && !LoneShort(queries)
    requires 0 !in Uri(paths, queries) && ShortValues(UriOptions(Uri(paths, queries)))
    requires dst != p.pdu && |Uri(paths, queries)| + 2 <= dstlen <= dst.Length
    modifies p, p.pdu, dst
    ensures r == 0 && outLen == |Uri(paths, queries)| < dst.Length
    ensures dst[..outLen] == Uri(paths, queries) && dst[outLen] == 0
  {
    hide Trail, Stored, FirstSlash, Uri, UriOptions, Parts, LoneShort, Encode, Encodable, ShortValues;
    UriSize(paths, queries);
    UriSurvivesIff(paths, queries);
    ghost var opts := UriOptions(Uri(paths, queries));
    var s := SetURI(p, Uri(paths, queries));
    assert p.Options == opts;
    r, outLen := GetURI(p, dst, dstlen);
  }

  /** The path "/" is kept as one option with that value, and comes back as it is. */
  method SetAndGetSlash(p: CoapPDU, dst: array<byte>, dstlen: int) returns (r: int, outLen: nat)
    requires p.Holds() && p.Options == [] && p.numOptions == 0 && !p.constructedFromBuffer
    requires dst != p.pdu && 3 <= dstlen <= dst.Length
    modifies p, p.pdu, dst
    ensures p.Options == [Option(11, [47])]
    ensures r == 0 && outLen == 1 && dst[0] == 47 && dst[1] == 0
  {
    var s := SetURI(p, [47]);
    SlashStored();
    hide Stored, FirstSlash;
    r, outLen := GetURI(p, dst, dstlen);
    assert dst[..1][0] == dst[0];
  }

  lemma SlashStored()
    ensures var opts := [Option(11, [47])];
            FirstSlash(opts) == 0 && Stored(opts) == [47]
  {
  }
}
