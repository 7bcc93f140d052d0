/** Lists of options as libcoap writes and reads them, compared with the format of `Wire`. */
module OptionList {
  import opened Wire
  import opened OptionCodec

  /** `coap_add_option` demands numbers that do not fall; they have 16 bits. */
  predicate Ascending(prev: nat, opts: seq<Option>)
    decreases opts
  {
    opts == [] || (prev <= opts[0].number < 65536 && Ascending(opts[0].number, opts[1..]))
  }

  function CodeEncode(prev: nat, opts: seq<Option>): seq<byte>
    requires Ascending(prev, opts)
    decreases opts
  {
    if opts == [] then []
    else CodeOption(opts[0].number - prev, opts[0].value) + CodeEncode(opts[0].number, opts[1..])
  }

  predicate AllRepresentable(prev: nat, opts: seq<Option>)
    requires Ascending(prev, opts)
    decreases opts
  {
    opts == [] || (Representable(opts[0].number - prev, opts[0].value) && AllRepresentable(opts[0].number, opts[1..]))
  }

  /** What the option iterator makes of the octets behind the token: its option number has 16 bits. */
  function Read(prev: nat, s: seq<byte>): Decoded
    decreases |s|
  {
    if EndsOptions(s) then Decoded([], s) else
    var p := Parse(s);
    if p.Malformed? then Rejected else
    var rest := Read((prev + p.delta) % 65536, s[p.size..]);
    if rest.Rejected? then Rejected else
    Decoded([Option((prev + p.delta) % 65536, p.value)] + rest.opts, rest.tail)
  }

  lemma CodeEncodeUnfold(prev: nat, opts: seq<Option>)
    ensures opts == [] ==> Ascending(prev, opts) && CodeEncode(prev, opts) == []
    ensures opts != [] ==>
              (Ascending(prev, opts) <==> prev <= opts[0].number < 65536 && Ascending(opts[0].number, opts[1..]))
    ensures opts != [] && Ascending(prev, opts) ==>
              CodeEncode(prev, opts) ==
                CodeOption(opts[0].number - prev, opts[0].value) + CodeEncode(opts[0].number, opts[1..])
  {
    hide CodeOption;
  }

  lemma {:induction false} CodeEncodeSplit(prev: nat, a: seq<Option>, b: seq<Option>)
    ensures Ascending(prev, a + b) <==> Ascending(prev, a) && Ascending(LastNumber(prev, a), b)
    ensures Ascending(prev, a + b) ==>
              CodeEncode(prev, a + b) == CodeEncode(prev, a) + CodeEncode(LastNumber(prev, a), b)
    decreases a
  {
    hide CodeOption, Ascending, CodeEncode;
    CodeEncodeUnfold(prev, a);
    if a == [] {
      assert a + b == b;
    } else {
      CodeEncodeUnfold(prev, a + b);
      assert (a + b)[1..] == a[1..] + b;
      assert LastNumber(prev, a) == LastNumber(a[0].number, a[1..]);
      CodeEncodeSplit(a[0].number, a[1..], b);
    }
  }

  lemma SingleOption(prev: nat, o: Option)
    ensures Ascending(prev, [o]) <==> prev <= o.number < 65536
    ensures Ascending(prev, [o]) ==> CodeEncode(prev, [o]) == CodeOption(o.number - prev, o.value)
  {
    hide CodeOption;
    assert [o][1..] == [];
  }

  /** One more option of the list: where it goes and that it leaves room for the others. */
  lemma CodeEncodeNext(opts: seq<Option>, i: nat)
    requires Ascending(0, opts) && i < |opts|
    ensures Ascending(0, opts[..i]) && Ascending(0, opts[..i + 1])
    ensures LastNumber(0, opts[..i]) <= opts[i].number < 65536 && LastNumber(0, opts[..i + 1]) == opts[i].number
    ensures CodeEncode(0, opts[..i + 1]) ==
              CodeEncode(0, opts[..i]) + CodeOption(opts[i].number - LastNumber(0, opts[..i]), opts[i].value)
    ensures |CodeEncode(0, opts[..i + 1])| <= |CodeEncode(0, opts)|
  {
    hide CodeOption, CodeEncode, Ascending;
    var a, o, b := opts[..i], [opts[i]], opts[i + 1..];
    assert opts == (a + o) + b && opts[..i + 1] == a + o;
    CodeEncodeSplit(0, a + o, b);
    CodeEncodeSplit(0, a, o);
    SingleOption(LastNumber(0, a), opts[i]);
  }

  lemma CodeOptionNoMarker(delta: nat, value: seq<byte>)
    ensures |CodeOption(delta, value)| > 0 && CodeOption(delta, value)[0] != PAYLOAD_MARKER
  {
  }

  /** One step of reading. */
  lemma ReadUnfold(prev: nat, first: seq<byte>, rest: seq<byte>)
    requires first != [] && first[0] != PAYLOAD_MARKER
    ensures var p, r := Parse(first + rest), Read(prev, first + rest);
            (p.Malformed? ==> r.Rejected?) &&
            (p.Parsed? ==> r.Rejected? || (r.opts != [] && r.opts[0] == Option((prev + p.delta) % 65536, p.value))) &&
            (p.Parsed? && p.size == |first| ==>
              var d := Read((prev + p.delta) % 65536, rest);
              r == if d.Rejected? then Rejected
                   else Decoded([Option((prev + p.delta) % 65536, p.value)] + d.opts, d.tail))
  {
    hide Parse;
    assert (first + rest)[|first|..] == rest;
    assert !EndsOptions(first + rest);
  }

  /** One step of reading what was written. */
  lemma ReadStep(prev: nat, number: nat, value: seq<byte>, rest: seq<byte>)
    requires prev <= number < 65536
    ensures var r := Read(prev, CodeOption(number - prev, value) + rest);
            if Representable(number - prev, value) then
              var d := Read(number, rest);
              r == if d.Rejected? then Rejected else Decoded([Option(number, value)] + d.opts, d.tail)
            else r.Rejected? || (r.opts != [] && r.opts[0] != Option(number, value))
  {
    hide *;
    var first, delta := CodeOption(number - prev, value), number - prev;
    CodeOptionNoMarker(delta, value);
    ParseCodeOption(delta, value, rest);
    assert (prev + delta) % 65536 == number;
    assert delta == 269 ==> (prev + 13) % 65536 != number;
    ReadUnfold(prev, first, rest);
  }

  /** What was written is read back exactly when no delta and no length is 269 (and no value is too
      long for the format). */
  lemma {:induction false} ReadIffRepresentable(prev: nat, opts: seq<Option>, tail: seq<byte>)
    requires Ascending(prev, opts) && prev < 65536 && EndsOptions(tail)
    ensures Read(prev, CodeEncode(prev, opts) + tail) == Decoded(opts, tail) <==> AllRepresentable(prev, opts)
    decreases opts
  {
    hide CodeOption, Parse, Representable;
    if opts == [] {
      assert CodeEncode(prev, opts) + tail == tail;
    } else {
      var o := opts[0];
      var rest := CodeEncode(o.number, opts[1..]) + tail;
      assert CodeEncode(prev, opts) + tail == CodeOption(o.number - prev, o.value) + rest;
      ReadIffRepresentable(o.number, opts[1..], tail);
      hide Read;
      ReadStep(prev, o.number, o.value, rest);
      assert opts == [o] + opts[1..];
    }
  }

  lemma {:induction false} ReadTail(prev: nat, s: seq<byte>)
    requires Read(prev, s).Decoded?
    ensures EndsOptions(Read(prev, s).tail)
    decreases |s|
  {
    hide Parse;
    if !EndsOptions(s) {
      var p := Parse(s);
      SizePositive(s);
      ReadTail((prev + p.delta) % 65536, s[p.size..]);
    }
  }

  lemma SizePositive(s: seq<byte>)
    ensures Parse(s).Parsed? ==> 1 <= Parse(s).size <= |s|
  {
  }

  /** The numbers of `w` cut to 16 bits. */
  ghost predicate Wrapped(r: seq<Option>, w: seq<Option>) {
    |r| == |w| && forall i :: 0 <= i < |r| ==> r[i] == Option(w[i].number % 65536, w[i].value)
  }

  lemma WrappedCons(n: nat, v: seq<byte>, m: nat, r: seq<Option>, w: seq<Option>)
    requires Wrapped(r, w) && n == m % 65536
    ensures Wrapped([Option(n, v)] + r, [Option(m, v)] + w)
  {
  }

  /** Whatever libcoap reads is in the format, with the same values and the same octets behind it;
      the numbers are those of the format, cut to 16 bits. */
  lemma {:induction false} ReadIsDecode(prev: nat, wide: nat, s: seq<byte>)
    requires prev == wide % 65536 && Read(prev, s).Decoded?
    ensures Decode(wide, s).Decoded? && Decode(wide, s).tail == Read(prev, s).tail
    ensures Wrapped(Read(prev, s).opts, Decode(wide, s).opts)
    decreases |s|
  {
    hide ParseOption, Parse, OptionBytes, Wrapped, Read, Decode;
    ReadCons(prev, s);
    DecodeCons(wide, s);
    if EndsOptions(s) {
      WrappedNone();
    } else {
      ParseIs(s);
      var p := ParseOption(s);
      OptionBytesOfParse(s);
      var n := (prev + p.delta % 65536) % 65536;
      SameNumber(prev, wide, p.delta);
      ReadIsDecode(n, wide + p.delta, s[p.size..]);
      WrappedCons(n, p.value, wide + p.delta, Read(n, s[p.size..]).opts, Decode(wide + p.delta, s[p.size..]).opts);
    }
  }

  lemma SameNumber(prev: nat, wide: nat, delta: nat)
    requires prev == wide % 65536
    ensures (prev + delta % 65536) % 65536 == (wide + delta) % 65536
  {
  }

  lemma WrappedNone()
    ensures Wrapped([], [])
  {
  }

  lemma ReadCons(prev: nat, s: seq<byte>)
    ensures EndsOptions(s) ==> Read(prev, s) == Decoded([], s)
    ensures !EndsOptions(s) && Read(prev, s).Decoded? ==>
              var p := Parse(s);
              p.Parsed? && 1 <= p.size <= |s| &&
              var n := (prev + p.delta) % 65536;
              var rest := Read(n, s[p.size..]);
              rest.Decoded? && Read(prev, s) == Decoded([Option(n, p.value)] + rest.opts, rest.tail)
  {
    SizePositive(s);
    hide Parse;
  }

  lemma DecodeCons(prev: nat, s: seq<byte>)
    ensures EndsOptions(s) ==> Decode(prev, s) == Decoded([], s)
    ensures !EndsOptions(s) && ParseOption(s).Parsed? ==>
              var p := ParseOption(s);
              1 <= p.size <= |s| &&
              var rest := Decode(prev + p.delta, s[p.size..]);
              (Decode(prev, s).Decoded? <==> rest.Decoded?) &&
              (rest.Decoded? ==> Decode(prev, s) == Decoded([Option(prev + p.delta, p.value)] + rest.opts, rest.tail))
  {
    if ParseOption(s).Parsed? { OptionBytesOfParse(s); }
    hide ParseOption;
  }

  ghost predicate FitsShort(opts: seq<Option>) {
    forall i :: 0 <= i < |opts| ==> opts[i].number < 65536
  }

  lemma {:induction false} DecodeIsRead(prev: nat, s: seq<byte>)
    requires Decode(prev, s).Decoded? && FitsShort(Decode(prev, s).opts)
    ensures Read(prev, s) == Decode(prev, s)
    decreases |s|
  {
    if !EndsOptions(s) {
      var p := ParseOption(s);
      OptionBytesOfParse(s);
      var d := Decode(prev, s);
      assert d.opts[0].number == prev + p.delta;
      assert d.opts[1..] == Decode(prev + p.delta, s[p.size..]).opts;
      assert FitsShort(d.opts[1..]);
      DecodeIsRead(prev + p.delta, s[p.size..]);
      assert Parse(s) == p;
    }
  }

  /** libcoap reads a list as the format does exactly when the numbers fit 16 bits. */
  lemma ReadIffShort(s: seq<byte>)
    requires Decode(0, s).Decoded?
    ensures Read(0, s) == Decode(0, s) <==> FitsShort(Decode(0, s).opts)
  {
    if FitsShort(Decode(0, s).opts) {
      DecodeIsRead(0, s);
    } else if Read(0, s).Decoded? {
      ReadIsDecode(0, 0, s);
      var r, w := Read(0, s).opts, Decode(0, s).opts;
      var i :| 0 <= i < |w| && w[i].number >= 65536;
      assert r[i].number == w[i].number % 65536 < 65536;
    }
  }

  /** Where no field is 269, libcoap writes the format. */
  lemma {:induction false} RepresentableIsFormat(prev: nat, opts: seq<Option>)
    requires Ascending(prev, opts) && AllRepresentable(prev, opts)
    ensures Encodable(prev, opts) && CodeEncode(prev, opts) == Encode(prev, opts)
    decreases opts
  {
    hide CodeOption, OptionBytes;
    if opts != [] {
      SameHeader(opts[0].number - prev, opts[0].value);
      RepresentableIsFormat(opts[0].number, opts[1..]);
    }
  }

  lemma {:induction false} ShortIsAscending(prev: nat, opts: seq<Option>)
    requires Encodable(prev, opts) && FitsShort(opts)
    ensures Ascending(prev, opts)
    decreases opts
  {
    if opts != [] { ShortIsAscending(opts[0].number, opts[1..]); }
  }

  /** Whole lists are canonical as well: writing what was read gives the octets back iff the numbers
      of the format fit 16 bits and no delta and no length is 269. */
  lemma RewriteIff(s: seq<byte>)
    requires Read(0, s).Decoded?
    ensures var d := Read(0, s);
            Decode(0, s).Decoded? && (FitsShort(Decode(0, s).opts) ==> Ascending(0, d.opts)) &&
            (Ascending(0, d.opts) && CodeEncode(0, d.opts) + d.tail == s <==>
               FitsShort(Decode(0, s).opts) && AllRepresentable(0, d.opts))
  {
    hide Read, Decode, Ascending, CodeEncode, AllRepresentable, Encode, Encodable;
    var d := Read(0, s);
    ReadIsDecode(0, 0, s);
    ReadTail(0, s);
    ReadIffShort(s);
    EncodeDecode(0, s);
    if FitsShort(Decode(0, s).opts) {
      ShortIsAscending(0, d.opts);
      if AllRepresentable(0, d.opts) {
        RepresentableIsFormat(0, d.opts);
      }
    }
    if Ascending(0, d.opts) && CodeEncode(0, d.opts) + d.tail == s {
      ReadIffRepresentable(0, d.opts, d.tail);
      RepresentableIsFormat(0, d.opts);
      DecodeEncode(0, d.opts, d.tail);
    }
  }
}
