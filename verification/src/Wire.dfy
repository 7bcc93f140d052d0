/** Octets, and the reference form of the CoAP option format (sections 3 and 3.1 of RFC 7252).

    Nothing here comes from the program: the codecs of the other modules are compared with
    this one.  Bit operations on the two halves of an octet are written as arithmetic:
    `b / 16` is the upper nibble, `b % 16` the lower one.
 */
module Wire {

  type byte = b: int | 0 <= b < 256

  /** The first octet of a payload, which no option header can equal. */
  const PAYLOAD_MARKER: byte := 0xFF

  /** The largest delta or length that a two-octet extension can carry: 269 + 65535. */
  const MAX_FIELD: nat := 65804

  datatype Option = Option(number: nat, value: seq<byte>)

  function Nibble(n: nat): (r: nat)
    ensures r <= 14
  {
    if n < 13 then n else if n < 269 then 13 else 14
  }

  /** The extension octets of a delta or a length. */
  function Extension(n: nat): seq<byte>
    requires n <= MAX_FIELD
  {
    if n < 13 then [] else if n < 269 then [n - 13] else [(n - 269) / 256, (n - 269) % 256]
  }

  function Header(delta: nat, length: nat): seq<byte>
    requires delta <= MAX_FIELD && length <= MAX_FIELD
  {
    [Nibble(delta) * 16 + Nibble(length)] + Extension(delta) + Extension(length)
  }

  function OptionBytes(delta: nat, value: seq<byte>): seq<byte>
    requires delta <= MAX_FIELD && |value| <= MAX_FIELD
  {
    Header(delta, |value|) + value
  }

  /** The option list can be delta-encoded, starting from option number `prev`. */
  predicate Encodable(prev: nat, opts: seq<Option>)
    decreases |opts|
  {
    opts == [] ||
    (prev <= opts[0].number <= prev + MAX_FIELD && |opts[0].value| <= MAX_FIELD &&
     Encodable(opts[0].number, opts[1..]))
  }

  function Encode(prev: nat, opts: seq<Option>): seq<byte>
    requires Encodable(prev, opts)
    decreases |opts|
  {
    if opts == [] then []
    else OptionBytes(opts[0].number - prev, opts[0].value) + Encode(opts[0].number, opts[1..])
  }

  datatype Parsed = Malformed | Parsed(delta: nat, value: seq<byte>, size: nat)

  function ExtensionLength(nibble: nat): nat {
    if nibble < 13 then 0 else if nibble == 13 then 1 else 2
  }

  function Field(nibble: nat, extension: seq<byte>): nat
    requires |extension| == ExtensionLength(nibble)
  {
    if nibble < 13 then nibble
    else if nibble == 13 then extension[0] as int + 13
    else extension[0] as int * 256 + extension[1] as int + 269
  }

  /** Reads one option at the front of `s`. */
  function ParseOption(s: seq<byte>): Parsed {
    if s == [] || s[0] / 16 == 15 || s[0] % 16 == 15 then Malformed else
    var d := ExtensionLength(s[0] / 16);
    var l := ExtensionLength(s[0] % 16);
    if |s| < 1 + d + l then Malformed else
    var delta := Field(s[0] / 16, s[1..1 + d]);
    var length := Field(s[0] % 16, s[1 + d..1 + d + l]);
    if |s| < 1 + d + l + length then Malformed else
    Parsed(delta, s[1 + d + l..1 + d + l + length], 1 + d + l + length)
  }

  datatype Decoded = Rejected | Decoded(opts: seq<Option>, tail: seq<byte>)

  /** Reads options until the end of `s` or a payload marker. */
  function Decode(prev: nat, s: seq<byte>): Decoded
    decreases |s|
  {
    if s == [] || s[0] == PAYLOAD_MARKER then Decoded([], s) else
    var p := ParseOption(s);
    if p.Malformed? then Rejected else
    var rest := Decode(prev + p.delta, s[p.size..]);
    if rest.Rejected? then Rejected else
    Decoded([Option(prev + p.delta, p.value)] + rest.opts, rest.tail)
  }

  predicate EndsOptions(tail: seq<byte>) {
    tail == [] || tail[0] == PAYLOAD_MARKER
  }

  /** Parts of the octets behind a position. */
  lemma Pieces(s: seq<byte>, pos: nat, k: nat)
    requires pos + k <= |s|
    ensures s[pos..][..k] == s[pos..pos + k] && s[pos..][k..] == s[pos + k..]
    ensures pos + k < |s| ==> s[pos..][k + 1..] == s[pos + k + 1..]
  {
  }

  // ----- one option -----

  lemma FieldOfExtension(n: nat)
    requires n <= MAX_FIELD
    ensures |Extension(n)| == ExtensionLength(Nibble(n)) && Field(Nibble(n), Extension(n)) == n
  {
  }

  lemma ExtensionOfField(nibble: nat, extension: seq<byte>)
    requires nibble <= 14 && |extension| == ExtensionLength(nibble)
    ensures Field(nibble, extension) <= MAX_FIELD
    ensures Nibble(Field(nibble, extension)) == nibble && Extension(Field(nibble, extension)) == extension
  {
    if nibble == 14 {
      var n := Field(nibble, extension);
      assert (n - 269) / 256 == extension[0] && (n - 269) % 256 == extension[1];
    }
  }

  lemma ParseOptionBytes(delta: nat, value: seq<byte>, rest: seq<byte>)
    requires delta <= MAX_FIELD && |value| <= MAX_FIELD
    ensures ParseOption(OptionBytes(delta, value) + rest) == Parsed(delta, value, |OptionBytes(delta, value)|)
    ensures OptionBytes(delta, value)[0] != PAYLOAD_MARKER
  {
    var s := OptionBytes(delta, value) + rest;
    FieldOfExtension(delta);
    FieldOfExtension(|value|);
    var d, l := |Extension(delta)|, |Extension(|value|)|;
    assert s[0] / 16 == Nibble(delta) && s[0] % 16 == Nibble(|value|);
    assert s[1..1 + d] == Extension(delta);
    assert s[1 + d..1 + d + l] == Extension(|value|);
    assert s[1 + d + l..1 + d + l + |value|] == value;
  }

  /** The format is canonical: whatever parses is the encoding of what it parses to. */
  lemma OptionBytesOfParse(s: seq<byte>)
    requires ParseOption(s).Parsed?
    ensures var p := ParseOption(s);
            p.delta <= MAX_FIELD && |p.value| <= MAX_FIELD && 1 <= p.size <= |s| &&
            s[..p.size] == OptionBytes(p.delta, p.value)
  {
    var p := ParseOption(s);
    var d := ExtensionLength(s[0] / 16);
    var l := ExtensionLength(s[0] % 16);
    ExtensionOfField(s[0] / 16, s[1..1 + d]);
    ExtensionOfField(s[0] % 16, s[1 + d..1 + d + l]);
    assert s[..p.size] == [s[0]] + s[1..1 + d] + s[1 + d..1 + d + l] + s[1 + d + l..p.size];
  }

  // ----- option lists -----

  lemma DecodeStep(prev: nat, delta: nat, value: seq<byte>, rest: seq<byte>)
    requires delta <= MAX_FIELD && |value| <= MAX_FIELD
    ensures Decode(prev, OptionBytes(delta, value) + rest)
         == var d := Decode(prev + delta, rest);
            if d.Rejected? then Rejected
            else Decoded([Option(prev + delta, value)] + d.opts, d.tail)
  {
    var first := OptionBytes(delta, value);
    ParseOptionBytes(delta, value, rest);
    hide OptionBytes, ParseOption;
    assert (first + rest)[|first|..] == rest;
  }

  lemma {:induction false} DecodeEncode(prev: nat, opts: seq<Option>, tail: seq<byte>)
    requires Encodable(prev, opts) && EndsOptions(tail)
    ensures Decode(prev, Encode(prev, opts) + tail) == Decoded(opts, tail)
    decreases |opts|
  {
    hide OptionBytes, ParseOption;
    if opts == [] {
      assert Encode(prev, opts) + tail == tail;
    } else {
      var o := opts[0];
      var first := OptionBytes(o.number - prev, o.value);
      var rest := Encode(o.number, opts[1..]) + tail;
      assert Encode(prev, opts) + tail == first + rest;
      DecodeEncode(o.number, opts[1..], tail);
      hide Decode;
      DecodeStep(prev, o.number - prev, o.value, rest);
      assert [Option(o.number, o.value)] + opts[1..] == opts;
    }
  }

  /** The converse step: a first option that decodes is a canonical option. */
  lemma DecodeUnfold(prev: nat, s: seq<byte>) returns (delta: nat, value: seq<byte>, rest: seq<byte>)
    requires Decode(prev, s).Decoded? && !EndsOptions(s)
    ensures delta <= MAX_FIELD && |value| <= MAX_FIELD && |rest| < |s|
    ensures s == OptionBytes(delta, value) + rest
    ensures Decode(prev + delta, rest).Decoded?
    ensures Decode(prev, s).opts == [Option(prev + delta, value)] + Decode(prev + delta, rest).opts
    ensures Decode(prev, s).tail == Decode(prev + delta, rest).tail
  {
    var p := ParseOption(s);
    OptionBytesOfParse(s);
    hide OptionBytes, ParseOption;
    delta, value, rest := p.delta, p.value, s[p.size..];
    assert s == s[..p.size] + rest;
  }

  lemma {:induction false} EncodeDecode(prev: nat, s: seq<byte>)
    requires Decode(prev, s).Decoded?
    ensures var d := Decode(prev, s);
            Encodable(prev, d.opts) && EndsOptions(d.tail) && s == Encode(prev, d.opts) + d.tail
    decreases |s|
  {
    hide OptionBytes, ParseOption;
    if EndsOptions(s) {
      assert Encode(prev, []) + s == s;
    } else {
      hide Decode;
      var delta, value, rest := DecodeUnfold(prev, s);
      EncodeDecode(prev + delta, rest);
      var opts := Decode(prev, s).opts;
      assert opts[1..] == Decode(prev + delta, rest).opts;
    }
  }

  /** The number an encoder has reached after `opts`. */
  function LastNumber(prev: nat, opts: seq<Option>): nat {
    if opts == [] then prev else opts[|opts| - 1].number
  }

  lemma EncodeUnfold(prev: nat, opts: seq<Option>)
    ensures opts == [] ==> Encodable(prev, opts) && Encode(prev, opts) == []
    ensures opts != [] ==>
              (Encodable(prev, opts) <==> prev <= opts[0].number <= prev + MAX_FIELD && |opts[0].value| <= MAX_FIELD &&
                                          Encodable(opts[0].number, opts[1..]))
    ensures opts != [] && Encodable(prev, opts) ==>
              Encode(prev, opts) ==
                OptionBytes(opts[0].number - prev, opts[0].value) + Encode(opts[0].number, opts[1..])
  {
    hide OptionBytes;
  }

  lemma {:induction false} EncodableSplit(prev: nat, a: seq<Option>, b: seq<Option>)
    ensures Encodable(prev, a + b) <==> Encodable(prev, a) && Encodable(LastNumber(prev, a), b)
    ensures Encodable(prev, a + b) ==>
              Encode(prev, a + b) == Encode(prev, a) + Encode(LastNumber(prev, a), b)
    decreases |a|
  {
    hide Encodable, Encode, OptionBytes;
    EncodeUnfold(prev, a);
    if a == [] {
      assert a + b == b;
    } else {
      EncodeUnfold(prev, a + b);
      assert (a + b)[1..] == a[1..] + b;
      EncodableSplit(a[0].number, a[1..], b);
      assert LastNumber(prev, a) == LastNumber(a[0].number, a[1..]);
    }
  }
}
