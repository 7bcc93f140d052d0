/** libcoap's option iterator (option.c) and the bit-vector filter it uses (bits.h). */
module OptionIterator {
  import opened Wire
  import opened OptionCodec
  import opened OptionList
  import opened LibPdu
  import opened OptionOrder
  import opened Wrappers

  // ----- the filter: one bit for each of the option numbers 0 to 63 -----

  const FILTER_SIZE: nat := 8

  type Filter = f: seq<bv8> | |f| == FILTER_SIZE witness [0, 0, 0, 0, 0, 0, 0, 0]

  function Mask(k: nat): bv8
    requires k < 8
  {
    if k < 4 then (if k == 0 then 1 else if k == 1 then 2 else if k == 2 then 4 else 8)
    else (if k == 4 then 16 else if k == 5 then 32 else if k == 6 then 64 else 128)
  }

  const EMPTY: Filter := [0, 0, 0, 0, 0, 0, 0, 0]

  /** `coap_option_getb`: 1, 0, or -1 for a number that the filter cannot hold.  The bit index has
      8 bits. */
  function Getb(f: Filter, number: nat): int {
    var bit := number % 256;
    if bit / 8 >= FILTER_SIZE then -1 else if f[bit / 8] & Mask(bit % 8) != 0 then 1 else 0
  }

  /** `coap_option_setb` */
  function Setb(f: Filter, number: nat): Filter {
    var bit := number % 256;
    if bit / 8 >= FILTER_SIZE then f else f[bit / 8 := f[bit / 8] | Mask(bit % 8)]
  }

  lemma MasksDiffer(b: bv8, j: nat, k: nat)
    requires j < 8 && k < 8
    ensures j == k ==> (b | Mask(j)) & Mask(k) != 0
    ensures j != k ==> (b | Mask(j)) & Mask(k) == b & Mask(k)
  {
  }

  /** Setting a bit sets that bit and no other. */
  lemma SetGet(f: Filter, number: nat, n: nat)
    ensures Getb(Setb(f, number), n) ==
              if n % 256 < 64 && n % 256 == number % 256 then 1 else Getb(f, n)
  {
    var i, j := number % 256, n % 256;
    MasksDiffer(f[j / 8 % 8], i % 8, j % 8);
    assert i / 8 == j / 8 && i % 8 == j % 8 ==> i == j;
    hide Mask;
  }

  // ----- what an iterator delivers -----

  /** The options in front of the end, of a marker, or of the first malformed option. */
  function Prefix(prev: nat, s: seq<byte>): seq<Option>
    decreases |s|
  {
    if EndsOptions(s) then [] else
    var p := Parse(s);
    if p.Malformed? then [] else
    [Option((prev + p.delta) % 65536, p.value)] + Prefix((prev + p.delta) % 65536, s[p.size..])
  }

  lemma {:induction false} PrefixOfMessage(prev: nat, s: seq<byte>)
    requires Read(prev, s).Decoded?
    ensures Prefix(prev, s) == Read(prev, s).opts
    decreases |s|
  {
    hide Parse;
    if !EndsOptions(s) {
      var p := Parse(s);
      SizePositive(s);
      PrefixOfMessage((prev + p.delta) % 65536, s[p.size..]);
    }
  }

  /** The options that pass the filter, until one comes that the filter cannot hold. */
  function Sift(opts: seq<Option>, filter: Maybe<Filter>): seq<Option> {
    if opts == [] then [] else
    var b := if filter.None? then 1 else Getb(filter.value, opts[0].number);
    if b < 0 then []
    else (if b > 0 then [opts[0]] else []) + Sift(opts[1..], filter)
  }

  function Visits(prev: nat, s: seq<byte>, filter: Maybe<Filter>): seq<Option> {
    Sift(Prefix(prev, s), filter)
  }

  lemma VisitsUnfold(prev: nat, s: seq<byte>, filter: Maybe<Filter>)
    ensures EndsOptions(s) || Parse(s).Malformed? ==> Visits(prev, s, filter) == []
    ensures !EndsOptions(s) && Parse(s).Parsed? ==>
              var p := Parse(s);
              var n := (prev + p.delta) % 65536;
              var b := if filter.None? then 1 else Getb(filter.value, n);
              1 <= p.size <= |s| && Visits(prev, s, filter) ==
                if b < 0 then []
                else if b > 0 then [Option(n, p.value)] + Visits(n, s[p.size..], filter)
                else Visits(n, s[p.size..], filter)
  {
    SizePositive(s);
    hide Parse, Getb;
    if !EndsOptions(s) && Parse(s).Parsed? {
      var p := Parse(s);
      var n := (prev + p.delta) % 65536;
      assert Prefix(prev, s)[1..] == Prefix(n, s[p.size..]);
    }
  }

  lemma MarkerIsNoOption(s: seq<byte>)
    requires EndsOptions(s)
    ensures Parse(s).Malformed?
  {
  }

  datatype Sought = End | Hit(number: nat, skipped: nat, size: nat)

  /** The option found is the first to be visited, and the others are still ahead. */
  ghost predicate SoughtIn(mem: seq<byte>, at: nat, n: nat, prev: nat, filter: Maybe<Filter>, r: Sought)
    requires r.Hit?
  {
    at <= n <= |mem| && at <= r.skipped && r.skipped + r.size <= n &&
    var p := Parse(mem[r.skipped..n]);
    p.Parsed? && p.size == r.size > 0 &&
    Visits(prev, mem[at..n], filter) ==
      [Option(r.number, p.value)] + Visits(r.number, mem[r.skipped + r.size..n], filter)
  }

  /** One turn of the loop of `coap_option_next`. */
  method SeekOne(mem: seq<byte>, at: nat, n: nat, prev: nat, filter: Maybe<Filter>)
    returns (size: nat, number: nat, b: int)
    requires at <= n < |mem|
    ensures size == 0 || b < 0 ==> Visits(prev, mem[at..n], filter) == []
    ensures size > 0 && b > 0 ==> SoughtIn(mem, at, n, prev, filter, Hit(number, at, size))
    ensures size > 0 && b == 0 ==> at + size <= n &&
                                   Visits(prev, mem[at..n], filter) == Visits(number, mem[at + size..n], filter)
  {
    hide Parse, Visits, Getb;
    var delta, length;
    ghost var top;
    size, delta, length, top := OptParse(mem[at..], n - at);
    Slices(mem, at, n, size);
    VisitsUnfold(prev, mem[at..n], filter);
    if EndsOptions(mem[at..n]) { MarkerIsNoOption(mem[at..n]); }
    number := (prev + delta) % 65536;
    b := if filter.None? then 1 else Getb(filter.value, number);
  }

  /** The loop of `coap_option_next` on the `n` octets at the front of the memory. */
  method Seek(mem: seq<byte>, n: nat, prev: nat, filter: Maybe<Filter>) returns (r: Sought)
    requires n < |mem|
    ensures r.End? ==> Visits(prev, mem[0..n], filter) == []
    ensures r.Hit? ==> SoughtIn(mem, 0, n, prev, filter, r)
  {
    hide Parse, Visits;
    var at, number: nat := 0, prev;
    while true
      invariant at <= n && Visits(number, mem[at..n], filter) == Visits(prev, mem[0..n], filter)
      decreases n - at
    {
      var size, next, b := SeekOne(mem, at, n, number, filter);
      if size == 0 || b < 0 { return End; }
      if b > 0 { return Hit(next, at, size); }
      at, number := at + size, next;
    }
  }

  /** The octets behind the token. */
  function AfterToken(m: seq<byte>): seq<byte> {
    if m == [] || HEADER_SIZE + m[0] as nat % 16 >= |m| then [] else m[HEADER_SIZE + m[0] as nat % 16..]
  }

  class Iterator {
    const pdu: Pdu
    var next: nat
    var length: nat
    var number: nat
    var bad: bool
    const filter: Maybe<Filter>

    ghost predicate Valid()
      reads this, pdu, pdu.buf
    {
      pdu.Valid() && next + length <= pdu.length && (!bad ==> next + length == pdu.length)
    }

    /** The options still to be delivered. */
    ghost function Remaining(): seq<Option>
      requires Valid()
      reads this, pdu, pdu.buf
    {
      if bad then [] else Visits(number, pdu.buf[next..next + length], filter)
    }

    /** `coap_option_iterator_init` */
    constructor (pdu: Pdu, filter: Maybe<Filter>)
      requires pdu.Valid()
      ensures Valid() && this.pdu == pdu && this.filter == filter
      ensures Remaining() == Visits(0, AfterToken(pdu.Contents()), filter)
    {
      hide Visits;
      this.pdu, this.filter, number := pdu, filter, 0;
      var start := HEADER_SIZE + pdu.buf[0] as nat % 16;
      if pdu.length <= start {
        next, length, bad := 0, 0, true;
      } else {
        next, length, bad := start, pdu.length - start, false;
      }
      new;
      VisitsUnfold(0, [], filter);
      if !bad { assert pdu.buf[next..next + length] == AfterToken(pdu.Contents()); }
    }

    /** `coap_option_next`: the position of the option, if there is one more. */
    method Next() returns (r: Maybe<int>)
      requires Valid()
      modifies this
      ensures Valid()
      ensures r.None? ==> old(Remaining()) == [] == Remaining()
      ensures r.Some? ==> Delivered(r.value, old(Remaining()))
    {
      hide Visits, Parse, SoughtIn;
      if Finished() { bad := true; }
      VisitsUnfold(number, pdu.buf[next..next + length], filter);
      if bad { return None; }
      var buf := pdu.buf[..];
      var s := Seek(buf[next..], length, number, filter);
      Slices(buf, next, next + length, 0);
      if s.End? {
        bad := true;
        return None;
      }
      r := Some(next + s.skipped);
      Advance(s);
    }

    /** `opt_finished` */
    predicate Finished()
      requires Valid()
      reads this, pdu, pdu.buf
    {
      bad || length == 0 || pdu.buf[next] == PAYLOAD_MARKER
    }

    /** Moves behind the option that was found. */
    method Advance(s: Sought)
      requires Valid() && !bad && s.Hit? && SoughtIn(pdu.buf[..][next..], 0, length, number, filter, s)
      modifies this`next, this`length, this`number
      ensures Delivered(old(next) + s.skipped, old(Remaining()))
    {
      hide Visits, Parse;
      SoughtInBuffer(pdu.buf[..], next, length, number, filter, s);
      next, length, number := next + s.skipped + s.size, length - s.skipped - s.size, s.number;
    }

    /** The option at `pos` was the next one of `before`; the others remain. */
    ghost predicate Delivered(pos: int, before: seq<Option>)
      reads this, pdu, pdu.buf
    {
      Valid() && 0 <= pos < pdu.length &&
      var p := Parse(pdu.buf[pos..pdu.length]);
      p.Parsed? && before == [Option(number, p.value)] + Remaining()
    }
  }

  lemma SoughtInBuffer(buf: seq<byte>, next: nat, length: nat, prev: nat, filter: Maybe<Filter>, s: Sought)
    requires next + length < |buf| && s.Hit? && SoughtIn(buf[next..], 0, length, prev, filter, s)
    ensures 0 < s.size && s.skipped + s.size <= length
    ensures Parse(buf[next + s.skipped..next + length]).Parsed?
    ensures Visits(prev, buf[next..next + length], filter) ==
              [Option(s.number, Parse(buf[next + s.skipped..next + length]).value)] +
              Visits(s.number, buf[next + s.skipped + s.size..next + length], filter)
  {
    hide Parse, Visits;
    var mem := buf[next..];
    assert mem[0..length] == buf[next..next + length];
    assert mem[s.skipped..length] == buf[next + s.skipped..next + length];
    assert mem[s.skipped + s.size..length] == buf[next + s.skipped + s.size..next + length];
  }

  // ----- whole messages -----

  lemma {:induction false} SiftNone(opts: seq<Option>)
    ensures Sift(opts, None) == opts
  {
    if opts != [] {
      SiftNone(opts[1..]);
    }
  }

  /** Without a filter, the iterator visits exactly the options of an accepted message. */
  lemma VisitsWholeMessage(data: seq<byte>)
    requires |data| >= HEADER_SIZE && Interpret(data).Some?
    ensures Visits(0, AfterToken(data), None) == Interpret(data).value.opts
  {
    var rest := data[HEADER_SIZE + TokenLength(data)..];
    assert AfterToken(data) == rest;
    PrefixOfMessage(0, rest);
    SiftNone(Prefix(0, rest));
  }

  /** Building, parsing and iterating: the iterator delivers exactly the options that were added. */
  lemma BuiltIsVisited(m: Message)
    requires m.version < 4 && m.kind < 4 && EmptyIfNoCode(m) && |m.id| == 2 && |m.token| <= 8
    requires Ascending(0, m.opts) && AllRepresentable(0, m.opts)
    ensures Interpret(Build(m)) == Some(m) && Visits(0, AfterToken(Build(m)), None) == m.opts
  {
    hide AllRepresentable, Visits, Interpret, Ascending;
    BuildInterpret(m);
    VisitsWholeMessage(Build(m));
  }

  /** The value of the option at a position, as the accessors find it. */
  method OptValueAt(buf: seq<byte>, at: nat, end: nat) returns (value: seq<byte>)
    requires at <= end < |buf| && Parse(buf[at..end]).Parsed?
    ensures value == Parse(buf[at..end]).value
  {
    hide Parse;
    Slices(buf, at, end, 0);
    var size, _, length, _ := OptParse(buf[at..], end - at);
    value := buf[at..][size - length..size];
  }

  /** The next option, with its value. */
  method NextOption(it: Iterator) returns (o: Maybe<Option>)
    requires it.Valid()
    modifies it
    ensures it.Valid()
    ensures o.None? ==> old(it.Remaining()) == [] == it.Remaining()
    ensures o.Some? ==> old(it.Remaining()) == [o.value] + it.Remaining()
  {
    hide Visits, Parse;
    var at := it.Next();
    if at.None? { return None; }
    var value := OptValueAt(it.pdu.buf[..], at.value, it.pdu.length);
    return Some(Option(it.number, value));
  }

  /** Of all options, those in `done` have been visited and those in `rest` have not. */
  ghost predicate Visited(done: seq<Option>, rest: seq<Option>, all: seq<Option>) {
    done + rest == all
  }

  lemma VisitedNext(done: seq<Option>, o: Option, rest: seq<Option>, all: seq<Option>)
    requires Visited(done, [o] + rest, all)
    ensures Visited(done + [o], rest, all) && |[o] + rest| == |rest| + 1
  {
    assert done + ([o] + rest) == done + [o] + rest;
  }

  lemma VisitedEnds(done: seq<Option>, all: seq<Option>)
    ensures Visited([], all, all) && (Visited(done, [], all) ==> done == all)
  {
    assert [] + all == all && done + [] == done;
  }

  /** Every option that an iterator still has to deliver, in order. */
  method VisitAll(it: Iterator) returns (opts: seq<Option>)
    requires it.Valid()
    modifies it
    ensures it.Valid() && opts == old(it.Remaining())
  {
    opts := [];
    ghost var all := it.Remaining();
    var more := true;
    VisitedEnds(all, all);
    hide *;
    while more
      invariant it.Valid() && Visited(opts, it.Remaining(), all) && (!more ==> it.Remaining() == [])
      decreases |it.Remaining()|, more
    {
      var o := NextOption(it);
      if o.None? {
        more := false;
      } else {
        VisitedNext(opts, o.value, it.Remaining(), all);
        opts := opts + [o.value];
      }
    }
    VisitedEnds(opts, all);
  }

  // ----- coap_check_option -----

  function Only(t: nat): Filter {
    Setb(EMPTY, t)
  }

  lemma OnlyGet(t: nat, n: nat)
    requires t < 256
    ensures Getb(Only(t), n) == if n % 256 >= 64 then -1 else if n % 256 == t then 1 else 0
  {
    EmptyGet(n);
    SetGet(EMPTY, t, n);
    hide Getb, Setb;
  }

  lemma EmptyGet(n: nat)
    ensures Getb(EMPTY, n) == if n % 256 >= 64 then -1 else 0
  {
    var bit := n % 256;
    if bit < 64 {
      assert EMPTY[bit / 8] == 0;
      assert 0 & Mask(bit % 8) == 0;
    }
  }

  /** `coap_check_option`: the first option that an iterator with a one-bit filter finds. */
  method CheckOption(pdu: Pdu, t: nat) returns (r: Maybe<int>, it: Iterator)
    requires pdu.Valid() && t < 256
    ensures fresh(it) && it.Valid() && it.pdu == pdu
    ensures var found := Visits(0, AfterToken(pdu.Contents()), Some(Only(t)));
            if found == [] then r.None? else r.Some? && it.Delivered(r.value, found)
  {
    hide Visits, Parse, Setb;
    it := new Iterator(pdu, Some(Only(t)));
    r := it.Next();
  }

  /** The first option with number `t`, or the end of the list. */
  function FirstOf(opts: seq<Option>, t: nat): (i: nat)
    ensures i <= |opts| && (i < |opts| ==> opts[i].number == t) && forall j :: 0 <= j < i ==> opts[j].number != t
  {
    if opts == [] || opts[0].number == t then 0 else 1 + FirstOf(opts[1..], t)
  }

  /** An option whose number has the same lowest 8 bits comes before all that the filter cannot hold. */
  ghost predicate Alias(opts: seq<Option>, t: nat) {
    exists k :: 0 <= k < |opts| && opts[k].number % 256 == t && forall j :: 0 <= j < k ==> opts[j].number % 256 < 64
  }

  lemma AliasUnfold(opts: seq<Option>, t: nat)
    requires opts != [] && t < 64
    ensures Alias(opts, t) <==>
              opts[0].number % 256 == t || (opts[0].number % 256 < 64 && Alias(opts[1..], t))
  {
    if Alias(opts, t) && opts[0].number % 256 != t {
      var k :| 0 <= k < |opts| && opts[k].number % 256 == t && forall j :: 0 <= j < k ==> opts[j].number % 256 < 64;
      assert opts[1..][k - 1] == opts[k];
    } else if opts[0].number % 256 < 64 && Alias(opts[1..], t) {
      var k :| 0 <= k < |opts[1..]| && opts[1..][k].number % 256 == t &&
               forall j :: 0 <= j < k ==> opts[1..][j].number % 256 < 64;
      assert opts[k + 1].number % 256 == t;
      assert forall j :: 0 < j < k + 1 ==> opts[j] == opts[1..][j - 1];
    }
  }

  lemma SiftUnfold(opts: seq<Option>, filter: Maybe<Filter>)
    requires filter.Some?
    ensures Sift(opts, filter) ==
              if opts == [] || Getb(filter.value, opts[0].number) < 0 then []
              else (if Getb(filter.value, opts[0].number) > 0 then [opts[0]] else []) + Sift(opts[1..], filter)
  {
    hide Getb;
  }

  lemma FirstOfUnfold(opts: seq<Option>, t: nat)
    requires opts != []
    ensures FirstOf(opts, t) == if opts[0].number == t then 0 else 1 + FirstOf(opts[1..], t)
  {
  }

  /** Something is found exactly when there is an alias ... */
  lemma {:induction false} FindsIffAlias(opts: seq<Option>, t: nat)
    requires t < 64
    ensures Sift(opts, Some(Only(t))) != [] <==> Alias(opts, t)
  {
    assert opts == [] ==> !Alias(opts, t);
    hide Only, Alias;
    if opts != [] {
      OnlyGet(t, opts[0].number);
      AliasUnfold(opts, t);
      FindsIffAlias(opts[1..], t);
    }
  }

  /** ... and the first option of the type is always found, if there is one. */
  lemma {:induction false} FindsFirst(opts: seq<Option>, t: nat)
    requires t < 64 && Sorted(opts) && FirstOf(opts, t) < |opts|
    ensures var found := Sift(opts, Some(Only(t)));
            found != [] && found[0] == opts[FirstOf(opts, t)]
  {
    hide Only, Sift, Getb, FirstOf;
    OnlyGet(t, opts[0].number);
    SiftUnfold(opts, Some(Only(t)));
    FirstOfUnfold(opts, t);
    var i := FirstOf(opts, t);
    if i > 0 {
      assert opts[0].number <= opts[i].number;
      FindsFirst(opts[1..], t);
    }
  }

  lemma NoAlias(opts: seq<Option>, t: nat)
    requires FirstOf(opts, t) == |opts| && forall i :: 0 <= i < |opts| ==> opts[i].number < 256
    ensures !Alias(opts, t)
  {
    assert forall i :: 0 <= i < |opts| ==> opts[i].number % 256 != t;
  }

  /** For types up to 63 and numbers up to 255, the first option of the type is found exactly when
      there is one. */
  lemma CheckFindsExactly(opts: seq<Option>, t: nat)
    requires t < 64 && Sorted(opts) && forall i :: 0 <= i < |opts| ==> opts[i].number < 256
    ensures var found, i := Sift(opts, Some(Only(t))), FirstOf(opts, t);
            (found == [] <==> i == |opts|) && (i < |opts| ==> found != [] && found[0] == opts[i])
  {
    hide Sift, Only, Sorted;
    FindsIffAlias(opts, t);
    if FirstOf(opts, t) < |opts| {
      FindsFirst(opts, t);
    } else {
      NoAlias(opts, t);
    }
  }

  /** A type above 63 is never found. */
  lemma {:induction false} CheckFindsNothingAbove63(opts: seq<Option>, t: nat)
    requires 64 <= t < 256
    ensures Sift(opts, Some(Only(t))) == []
  {
    hide Only;
    if opts != [] {
      OnlyGet(t, opts[0].number);
      CheckFindsNothingAbove63(opts[1..], t);
    }
  }

  /** A number above 255 is taken for its lowest 8 bits: option 267 passes for Uri-Path. */
  lemma CheckMistakes267For11(value: seq<byte>)
    ensures Sift([Option(267, value)], Some(Only(11))) == [Option(267, value)]
    ensures FirstOf([Option(267, value)], 11) == 1
  {
    OnlyGet(11, 267);
    hide Only;
    assert Sift([], Some(Only(11))) == [];
  }
}
