/** cantcoap's `CoapPDU`: a message kept as octets in one buffer, with options added in any order. */
module CoapPdu {
  import opened Wire
  import opened OptionOrder
  import opened StoredOption

  const COAP_HDR_SIZE: nat := 4

  // ----- reading one option in the buffer -----

  /** The header at the front of `s`, with its extensions, lies inside `s`. */
  predicate HeaderFits(s: seq<byte>) {
    s != [] && s[0] / 16 != 15 && s[0] % 16 != 15 &&
    1 + ExtensionLength(s[0] / 16) + ExtensionLength(s[0] % 16) <= |s|
  }

  /** `getOptionDelta`: the result is a 16-bit number. */
  function OptionDelta(s: seq<byte>): (r: nat)
    requires HeaderFits(s)
    ensures r < 65536
  {
    Field(s[0] / 16, s[1..1 + ExtensionLength(s[0] / 16)]) % 65536
  }

  /** `getOptionValueLength`, 16 bits as well. */
  function OptionValueLength(s: seq<byte>): (r: nat)
    requires HeaderFits(s)
    ensures r < 65536
  {
    var d := ExtensionLength(s[0] / 16);
    Field(s[0] % 16, s[1 + d..1 + d + ExtensionLength(s[0] % 16)]) % 65536
  }

  lemma ReadOption(delta: nat, value: seq<byte>, rest: seq<byte>)
    requires delta < 65536 && |value| < 65536
    ensures var s := OptionBytes(delta, value) + rest;
            HeaderFits(s) && OptionDelta(s) == delta && OptionValueLength(s) == |value| &&
            s[0] != PAYLOAD_MARKER && |OptionBytes(delta, value)| == OptionSize(delta, |value|)
  {
    hide Field, Extension, Nibble;
    var s := OptionBytes(delta, value) + rest;
    FieldOfExtension(delta);
    FieldOfExtension(|value|);
    var d, l := |Extension(delta)|, |Extension(|value|)|;
    assert s[0] == Nibble(delta) * 16 + Nibble(|value|);
    assert s[0] / 16 == Nibble(delta) && s[0] % 16 == Nibble(|value|);
    assert s[1..1 + d] == Extension(delta);
    assert s[1 + d..1 + d + l] == Extension(|value|);
  }

  // ----- the option list and its octets -----

  lemma {:induction false} EncodableOrdered(prev: nat, opts: seq<Option>)
    requires Encodable(prev, opts)
    ensures Sorted(opts)
    ensures forall i :: 0 <= i < |opts| ==>
              prev <= opts[i].number <= LastNumber(prev, opts) && |opts[i].value| <= MAX_FIELD
    decreases |opts|
  {
    if opts != [] {
      EncodableOrdered(opts[0].number, opts[1..]);
      assert forall i :: 0 < i < |opts| ==> opts[i] == opts[1..][i - 1];
    }
  }

  /** Option `k` of the list, seen from the octets that remain at its position. */
  lemma OptionAt(opts: seq<Option>, k: nat)
    requires Encodable(0, opts) && k < |opts|
    ensures Encodable(0, opts[..k])
    ensures var prev, o := LastNumber(0, opts[..k]), opts[k];
            prev <= o.number <= prev + MAX_FIELD && |o.value| <= MAX_FIELD && Encodable(o.number, opts[k + 1..]) &&
            Encode(0, opts) ==
              Encode(0, opts[..k]) + (OptionBytes(o.number - prev, o.value) + Encode(o.number, opts[k + 1..]))
  {
    hide *;
    EncodeCons(opts[k], opts[k + 1..], LastNumber(0, opts[..k]));
    EncodableSplit(0, opts[..k], [opts[k]] + opts[k + 1..]);
    assert opts == opts[..k] + ([opts[k]] + opts[k + 1..]);
  }

  /** One more option on the way. */
  lemma PrefixGrows(opts: seq<Option>, k: nat)
    requires Encodable(0, opts) && k < |opts|
    ensures Encodable(0, opts[..k]) && Encodable(0, opts[..k + 1])
    ensures LastNumber(0, opts[..k + 1]) == opts[k].number
    ensures var prev, o := LastNumber(0, opts[..k]), opts[k];
            prev <= o.number <= prev + MAX_FIELD && |o.value| <= MAX_FIELD &&
            Encode(0, opts[..k + 1]) == Encode(0, opts[..k]) + OptionBytes(o.number - prev, o.value)
  {
    var a, o := opts[..k], opts[k];
    assert opts[..k + 1] == a + [o];
    hide *;
    OptionAt(opts, k);
    EncodeSnoc(a, o);
  }

  lemma EncodeSnoc(a: seq<Option>, o: Option)
    requires Encodable(0, a)
    ensures LastNumber(0, a + [o]) == o.number
    ensures Encodable(0, a + [o]) <==>
            LastNumber(0, a) <= o.number <= LastNumber(0, a) + MAX_FIELD && |o.value| <= MAX_FIELD
    ensures Encodable(0, a + [o]) ==>
              Encode(0, a + [o]) == Encode(0, a) + OptionBytes(o.number - LastNumber(0, a), o.value)
  {
    hide OptionBytes;
    EncodableSplit(0, a, [o]);
    var prev := LastNumber(0, a);
    assert Encodable(prev, [o]) ==> Encode(prev, [o]) == OptionBytes(o.number - prev, o.value) + [];
  }

  lemma EncodeCons(o: Option, rest: seq<Option>, prev: nat)
    ensures Encodable(prev, [o] + rest) <==>
              prev <= o.number <= prev + MAX_FIELD && |o.value| <= MAX_FIELD && Encodable(o.number, rest)
    ensures Encodable(prev, [o] + rest) ==>
              Encode(prev, [o] + rest) == OptionBytes(o.number - prev, o.value) + Encode(o.number, rest)
  {
    hide OptionBytes;
    assert ([o] + rest)[1..] == rest;
  }

  /** Every number and length of the list is a 16-bit value, as in the program. */
  ghost predicate Fits16(opts: seq<Option>) {
    forall i :: 0 <= i < |opts| ==> opts[i].number < 65536 && |opts[i].value| < 65536
  }

  lemma {:induction false} EncodeLength(prev: nat, opts: seq<Option>)
    requires Encodable(prev, opts)
    ensures |Encode(prev, opts)| >= |opts|
    decreases |opts|
  {
    if opts != [] { EncodeLength(opts[0].number, opts[1..]); }
  }

  /** A walk over the octets of `opts` has passed `i` options: it is `offset` octets in and
      has reached option number `number`. */
  ghost predicate Walked(opts: seq<Option>, i: nat, offset: nat, number: nat)
    requires Encodable(0, opts)
  {
    i <= |opts| && Encodable(0, opts[..i]) &&
    offset == |Encode(0, opts[..i])| <= |Encode(0, opts)| &&
    number == LastNumber(0, opts[..i]) &&
    (i == |opts| <==> offset == |Encode(0, opts)|)
  }

  lemma WalkStart(opts: seq<Option>)
    requires Encodable(0, opts)
    ensures Walked(opts, 0, 0, 0)
  {
    EncodeLength(0, opts);
    assert opts[..0] == [];
  }

  lemma WalkEnd(opts: seq<Option>)
    requires Encodable(0, opts)
    ensures Walked(opts, |opts|, |Encode(0, opts)|, LastNumber(0, opts))
  {
    assert opts[..|opts|] == opts;
  }

  lemma WalkInside(opts: seq<Option>, i: nat, offset: nat, number: nat)
    requires Encodable(0, opts) && Walked(opts, i, offset, number)
    ensures offset <= |Encode(0, opts)| && (i < |opts| <==> offset < |Encode(0, opts)|) && i <= |opts|
  {
  }

  /** What the program's accessors read on the way, and where one step leads. */
  lemma WalkStep(opts: seq<Option>, i: nat, offset: nat, number: nat)
    requires Encodable(0, opts) && Fits16(opts) && Walked(opts, i, offset, number) && i < |opts|
    ensures var s := Encode(0, opts)[offset..];
            HeaderFits(s) && s[0] != PAYLOAD_MARKER && OptionValueLength(s) == |opts[i].value| &&
            number + OptionDelta(s) == opts[i].number &&
            Walked(opts, i + 1, offset + OptionSize(OptionDelta(s), OptionValueLength(s)), opts[i].number)
  {
    hide OptionBytes, HeaderFits, OptionDelta, OptionValueLength, OptionSize;
    OptionAt(opts, i);
    PrefixGrows(opts, i);
    var rest := Encode(opts[i].number, opts[i + 1..]);
    EncodeLength(opts[i].number, opts[i + 1..]);
    assert opts[i + 1..] == [] ==> rest == [];
    hide Encode, Encodable;
    var head := Encode(0, opts[..i]);
    var delta := opts[i].number - number;
    ReadOption(delta, opts[i].value, rest);
    assert Encode(0, opts)[offset..] == OptionBytes(delta, opts[i].value) + rest;
  }

  /** The deltas that adding `o` writes, and the length of its value, are below 269. */
  predicate Small(opts: seq<Option>, o: Option) {
    var k := Position(opts, o.number);
    Short(o.number - LastNumber(0, opts[..k])) && Short(|o.value|) &&
    (k < |opts| ==> Short(opts[k].number - o.number))
  }

  lemma RedeltaOption(delta: nat, newDelta: nat, value: seq<byte>, rest: seq<byte>)
    requires delta <= MAX_FIELD && Short(newDelta) && |value| <= MAX_FIELD
    ensures var s := OptionBytes(delta, value) + rest;
            |s| >= 1 + ExtraBytes(delta) &&
            Redelta(s[0], newDelta) + s[1 + ExtraBytes(delta)..] == OptionBytes(newDelta, value) + rest
  {
    hide Extension, Nibble;
    var s := OptionBytes(delta, value) + rest;
    var first, tail := s[0], Extension(|value|) + value + rest;
    assert s == [first] + Extension(delta) + tail;
    assert s[1 + ExtraBytes(delta)..] == tail;
    assert first % 16 == Nibble(|value|);
    var n: byte := Nibble(newDelta) * 16 + Nibble(|value|);
    assert Redelta(first, newDelta) == [n] + Extension(newDelta);
    assert OptionBytes(newDelta, value) + rest == [n] + Extension(newDelta) + tail;
  }

  lemma AppendEncode(opts: seq<Option>, o: Option)
    requires Encodable(0, opts) && LastNumber(0, opts) <= o.number
    requires Short(o.number - LastNumber(0, opts)) && Short(|o.value|)
    ensures Encodable(0, opts + [o])
    ensures Encode(0, opts + [o]) == Encode(0, opts) + OptionBytes(o.number - LastNumber(0, opts), o.value)
  {
    hide OptionBytes, Encode;
    EncodeSnoc(opts, o);
  }

  /** Inserting at the end of the list appends the octets of the option. */
  lemma InsertLast(opts: seq<Option>, o: Option)
    requires Encodable(0, opts) && Small(opts, o) && Position(opts, o.number) == |opts|
    ensures Insert(opts, o) == opts + [o] && LastNumber(0, opts) <= o.number
    ensures Encodable(0, opts + [o])
    ensures Encode(0, opts + [o]) == Encode(0, opts) + OptionBytes(o.number - LastNumber(0, opts), o.value)
  {
    hide OptionBytes, Encode;
    assert opts[..|opts|] == opts;
    AppendEncode(opts, o);
  }

  /** The new option followed by the options from `k` on, the first of them with its new delta. */
  lemma EncodeTail(prev: nat, o: Option, opts: seq<Option>, k: nat)
    requires k < |opts| && prev <= o.number <= opts[k].number
    requires Short(o.number - prev) && Short(|o.value|) && Short(opts[k].number - o.number)
    requires |opts[k].value| <= MAX_FIELD && Encodable(opts[k].number, opts[k + 1..])
    ensures Encodable(prev, [o] + opts[k..])
    ensures Encode(prev, [o] + opts[k..]) ==
            OptionBytes(o.number - prev, o.value) +
              (OptionBytes(opts[k].number - o.number, opts[k].value) + Encode(opts[k].number, opts[k + 1..]))
  {
    hide OptionBytes;
    assert opts[k..][1..] == opts[k + 1..];
    assert ([o] + opts[k..])[1..] == opts[k..];
    assert Encodable(o.number, opts[k..]);
  }

  lemma SmallAt(opts: seq<Option>, o: Option, k: nat)
    requires Small(opts, o) && k == Position(opts, o.number) < |opts|
    ensures LastNumber(0, opts[..k]) <= o.number < opts[k].number
    ensures Short(o.number - LastNumber(0, opts[..k])) && Short(|o.value|) && Short(opts[k].number - o.number)
  {
    hide Position;
    if k > 0 { assert opts[..k][k - 1] == opts[k - 1]; }
  }

  lemma InsertAt(opts: seq<Option>, o: Option, k: nat)
    requires k == Position(opts, o.number) < |opts|
    ensures Insert(opts, o) == opts[..k] + ([o] + opts[k..])
  {
    hide Position;
    assert opts[..k] + [o] + opts[k..] == opts[..k] + ([o] + opts[k..]);
  }

  lemma LastOfParts(a: seq<Option>, o: Option, b: seq<Option>, opts: seq<Option>)
    requires b != [] && opts == a + b
    ensures LastNumber(0, a + ([o] + b)) == LastNumber(0, opts)
  {
    var r := a + ([o] + b);
    assert r[|r| - 1] == b[|b| - 1] == opts[|opts| - 1];
  }

  /** Inserting before option `k` puts the octets of the new option in front of it and
      rewrites the delta of option `k`; every other octet stays. */
  lemma InsertMiddle(opts: seq<Option>, o: Option, k: nat)
    requires Encodable(0, opts) && Small(opts, o) && k == Position(opts, o.number) < |opts|
    ensures Encodable(0, opts[..k]) && LastNumber(0, opts[..k]) <= o.number
    ensures |opts[k].value| <= MAX_FIELD && Encodable(opts[k].number, opts[k + 1..])
    ensures Encodable(0, Insert(opts, o)) && LastNumber(0, Insert(opts, o)) == LastNumber(0, opts)
    ensures Encode(0, Insert(opts, o)) ==
              Encode(0, opts[..k]) +
              (OptionBytes(o.number - LastNumber(0, opts[..k]), o.value) +
               (OptionBytes(opts[k].number - o.number, opts[k].value) + Encode(opts[k].number, opts[k + 1..])))
  {
    hide *;
    var head, prev := opts[..k], LastNumber(0, opts[..k]);
    SmallAt(opts, o, k);
    InsertAt(opts, o, k);
    assert opts == head + opts[k..];
    LastOfParts(head, o, opts[k..], opts);
    OptionAt(opts, k);
    EncodeTail(prev, o, opts, k);
    EncodableSplit(0, head, [o] + opts[k..]);
  }

  /** A number at or above all others, or an empty list: the position is the end. */
  lemma AtEnd(opts: seq<Option>, number: nat)
    requires Encodable(0, opts) && (number >= LastNumber(0, opts) || Encode(0, opts) == [])
    ensures Position(opts, number) == |opts| && opts[..|opts|] == opts
    ensures LastNumber(0, opts) <= number
  {
    EncodeLength(0, opts);
    EncodableOrdered(0, opts);
  }

  lemma {:induction false} PositionIs(opts: seq<Option>, number: nat, i: nat)
    requires i < |opts| && opts[i].number > number && i <= Position(opts, number)
    ensures Position(opts, number) == i
  {
  }

  lemma PositionAbove(opts: seq<Option>, number: nat, i: nat)
    requires i < |opts| && opts[i].number <= number && i <= Position(opts, number)
    ensures i < Position(opts, number)
  {
  }

  /** The walk of `findInsertionPosition` over the octets of the options. */
  method FindAmong(octets: seq<byte>, number: nat, ghost opts: seq<Option>) returns (offset: nat, prev: nat)
    requires Encodable(0, opts) && Fits16(opts) && octets == Encode(0, opts)
    ensures Walked(opts, Position(opts, number), offset, prev) && prev <= number
  {
    WalkStart(opts);
    hide Walked, Encode, Encodable, HeaderFits, OptionDelta, OptionValueLength, Position;
    ghost var i := 0;
    offset, prev := 0, 0;
    while offset < |octets| && octets[offset] != PAYLOAD_MARKER
      invariant i <= Position(opts, number) && prev <= number && offset <= |octets|
      invariant Walked(opts, i, offset, prev)
      decreases |opts| - i
    {
      WalkInside(opts, i, offset, prev);
      WalkStep(opts, i, offset, prev);
      var delta := OptionDelta(octets[offset..]);
      var length := OptionValueLength(octets[offset..]);
      if prev + delta > number {
        PositionIs(opts, number, i);
        return;
      }
      PositionAbove(opts, number, i);
      prev := prev + delta;
      offset := offset + OptionSize(delta, length);
      i := i + 1;
      WalkInside(opts, i, offset, prev);
    }
    WalkInside(opts, i, offset, prev);
    if i < |opts| {
      WalkStep(opts, i, offset, prev);
      assert false;
    }
  }

  /** The octets `d` with `size` octets from `at` on replaced by `r`. */
  function Splice(d: seq<byte>, at: nat, size: nat, r: seq<byte>): (s: seq<byte>)
    requires at + size <= |d|
    ensures |s| == |d| - size + |r|
  {
    d[..at] + r + d[at + size..]
  }

  lemma SpliceInside(d: seq<byte>, at: nat, size: nat, h: seq<byte>, start: nat, v: seq<byte>)
    requires at + size <= |d| && |h| == size && start + |v| <= size
    ensures Splice(Splice(d, at, size, h), at + start, |v|, v) == Splice(d, at, size, Splice(h, start, |v|, v))
  {
  }

  lemma SpliceAtEnd(d: seq<byte>, at: nat, size: nat, r: seq<byte>)
    requires at + size <= |d| && |r| == size
    ensures Splice(d, at, size, r)[..at + size] == d[..at] + r
  {
  }

  lemma SpliceTwice(d: seq<byte>, at: nat, size: nat, x: seq<byte>, y: seq<byte>)
    requires at + size <= |d| && |x| == size && |y| == size
    ensures Splice(d, at, size, x)[at..at + size] == x
    ensures Splice(Splice(d, at, size, x), at, size, y) == Splice(d, at, size, y)
  {
  }

  lemma SpliceUpdate(d: seq<byte>, at: nat, size: nat, h: seq<byte>, i: nat, b: byte)
    requires at + size <= |d| && |h| == size && i < size
    ensures Splice(d, at, size, h[i := b]) == Splice(d, at, size, h)[at + i := b]
  {
  }

  lemma SpliceSame(d: seq<byte>, position: nat, size: nat)
    requires position + size <= |d|
    ensures Splice(d, position, size, d[position..position + size]) == d
  {
  }

  /** `StoreLength` on a hole, seen in the whole buffer. */
  lemma StoreLengthInBuffer(d: seq<byte>, position: nat, at: nat, length: nat, size: nat)
    requires length < 65536 && position <= at && at - position + ExtraBytes(length) < size && position + size <= |d|
    ensures Splice(d, position, size, StoreLength(d[position..position + size], at - position, length)) ==
            if length < 13 then d[position := OrLow(d[position], length)]
            else if length < 269 then d[position := OrLow(d[position], 13)][at + 1 := length - 13]
            else d[position := OrLow(d[position], 14)][at := (length - 269) / 256][at + 1 := (length - 269) % 256]
  {
    hide OrLow, Splice;
    var h := d[position..position + size];
    var n := at - position;
    var b := OrLow(h[0], if length < 13 then length else if length < 269 then 13 else 14);
    SpliceSame(d, position, size);
    SpliceUpdate(d, position, size, h, 0, b);
    if 13 <= length < 269 {
      SpliceUpdate(d, position, size, h[0 := b], n + 1, length - 13);
    } else if length >= 269 {
      SpliceUpdate(d, position, size, h[0 := b], n, (length - 269) / 256);
      SpliceUpdate(d, position, size, h[0 := b][n := (length - 269) / 256], n + 1, (length - 269) % 256);
    }
  }

  lemma StoreDeltaInBuffer(d: seq<byte>, position: nat, delta: nat, size: nat)
    requires delta < 65536 && ExtraBytes(delta) < size && position + size <= |d|
    ensures Splice(d, position, size, StoreDelta(d[position..position + size], delta)) ==
            if delta < 13 then d[position := delta * 16]
            else if delta < 269 then d[position := 0xD0][position + 1 := delta - 13]
            else d[position := (delta - 269) / 256][position + 1 := (delta - 269) % 256]
  {
    var h := d[position..position + size];
    assert Splice(d, position, size, h) == d;
    hide Splice;
    if delta < 13 {
      SpliceUpdate(d, position, size, h, 0, delta * 16);
    } else if delta < 269 {
      SpliceUpdate(d, position, size, h, 0, 0xD0);
      SpliceUpdate(d, position, size, h[0 := 0xD0], 1, delta - 13);
    } else {
      var high: byte, low: byte := (delta - 269) / 256, (delta - 269) % 256;
      var head: byte := 0xE0;
      var hh := h[0 := head];
      assert hh[0 := high] == h[0 := high];
      SpliceUpdate(d, position, size, h, 0, high);
      SpliceUpdate(d, position, size, h[0 := high], 1, low);
    }
  }

  lemma StoredBySteps(delta: nat, value: seq<byte>, hole: seq<byte>)
    requires delta < 65536 && |value| < 65536 && |hole| == OptionSize(delta, |value|)
    ensures var h := StoreLength(StoreDelta(hole, delta), ExtraBytes(delta), |value|);
            var v := value[..CopyLength(|value|)];
            Stored(delta, value, hole) == Splice(h, ExtraBytes(delta) + ExtraBytes(|value|) + 1, |v|, v)
  {
  }

  /** The octets of the next option's header that `setOptionDelta` replaces. */
  function Replaced(delta: nat, newDelta: nat): nat {
    if Short(newDelta) then 1 + ExtraBytes(delta) else 2
  }

  /** An option whose delta has been rewritten: a long delta leaves the third octet of the header. */
  function Rewritten(delta: nat, newDelta: nat, value: seq<byte>): seq<byte>
    requires newDelta <= delta < 65536 && |value| < 65536
  {
    var x := OptionBytes(delta, value);
    Redelta(x[0], newDelta) + x[Replaced(delta, newDelta)..]
  }

  /** By chance the octets of a long delta, stored one place too early, may read like the header that
      should be there: all three of its octets are the same then. */
  predicate Coincides(delta: nat, newDelta: nat, length: nat) {
    newDelta >= 269 &&
    (newDelta - 269) / 256 == (newDelta - 269) % 256 == (delta - 269) % 256 == 0xE0 + Nibble(length)
  }

  lemma RewrittenLong(delta: nat, newDelta: nat, value: seq<byte>)
    requires 269 <= newDelta <= delta < 65536 && |value| < 65536
    ensures var tail := Extension(|value|) + value;
            Rewritten(delta, newDelta, value) ==
              [(newDelta - 269) / 256, (newDelta - 269) % 256, (delta - 269) % 256] + tail &&
            OptionBytes(newDelta, value) ==
              [0xE0 + Nibble(|value|), (newDelta - 269) / 256, (newDelta - 269) % 256] + tail
  {
    hide Nibble;
    var x, tail := OptionBytes(delta, value), Extension(|value|) + value;
    assert Nibble(delta) == 14 && Nibble(newDelta) == 14 by { LongNibble(delta); LongNibble(newDelta); }
    assert x == [0xE0 + Nibble(|value|), (delta - 269) / 256, (delta - 269) % 256] + tail;
    assert x[2..] == [(delta - 269) % 256] + tail;
  }

  lemma LongNibble(n: nat)
    requires n >= 269
    ensures Nibble(n) == 14
  {
  }

  /** The rewritten option has the new delta and the same value iff that delta is below 269 or the
      octets coincide. */
  lemma RewrittenIff(delta: nat, newDelta: nat, value: seq<byte>)
    requires newDelta <= delta < 65536 && |value| < 65536
    ensures var s := Rewritten(delta, newDelta, value);
            (s == OptionBytes(newDelta, value) <==> Short(newDelta) || Coincides(delta, newDelta, |value|)) &&
            (ParseOption(s) == Parsed(newDelta, value, |s|) <==> Short(newDelta) || Coincides(delta, newDelta, |value|))
  {
    hide ParseOption, OptionBytes, Rewritten;
    var s, o := Rewritten(delta, newDelta, value), OptionBytes(newDelta, value);
    if Short(newDelta) {
      RewrittenShort(delta, newDelta, value);
    } else {
      RewrittenLong(delta, newDelta, value);
      assert s == o <==> s[0] == o[0] && s[1] == o[1] && s[2] == o[2];
    }
    ParseOptionBytes(newDelta, value, []);
    assert o + [] == o;
    if ParseOption(s) == Parsed(newDelta, value, |s|) {
      OptionBytesOfParse(s);
      assert s[..|s|] == s;
    }
  }

  lemma RewrittenShort(delta: nat, newDelta: nat, value: seq<byte>)
    requires newDelta <= delta < 65536 && |value| < 65536 && Short(newDelta)
    ensures Rewritten(delta, newDelta, value) == OptionBytes(newDelta, value)
  {
    hide OptionBytes, Redelta;
    RedeltaOption(delta, newDelta, value, []);
    assert OptionBytes(delta, value) + [] == OptionBytes(delta, value);
    assert OptionBytes(newDelta, value) + [] == OptionBytes(newDelta, value);
  }

  /** It happens: 268 and then 256 are added to a message whose only option has the number 58093. */
  lemma CoincidenceExample()
    ensures Rewritten(58093, 57837, []) == OptionBytes(57837, []) && !Short(57837)
  {
    RewrittenIff(58093, 57837, []);
  }

  /** `y` is `x` with a hole of `size` octets at `position`, behind it the rest of `x` with
      the delta of the first option rewritten. */
  ghost predicate Gapped(x: seq<byte>, y: seq<byte>, position: nat, size: nat, delta: nat, newDelta: nat)
    requires newDelta < 65536 && position < |x|
  {
    position + size <= |y| && position + Replaced(delta, newDelta) <= |x| &&
    y[..position] == x[..position] &&
    y[position + size..] == Redelta(x[position], newDelta) + x[position + Replaced(delta, newDelta)..]
  }

  /** `d` is `x` with `growth` octets of room at `position`. */
  ghost predicate Roomy(x: seq<byte>, d: seq<byte>, position: nat, growth: nat) {
    position <= |x| && |d| == |x| + growth && d[..position] == x[..position] && d[position + growth..] == x[position..]
  }

  lemma RoomSize(x: seq<byte>, d: seq<byte>, position: nat, growth: nat)
    requires Roomy(x, d, position, growth) && position < |x|
    ensures |d| == |x| + growth && d[position + growth] == x[position]
  {
    assert d[position + growth] == d[position + growth..][0];
  }

  lemma ShiftShape(x: seq<byte>, j: seq<byte>, position: nat, d: seq<byte>)
    requires position <= |x| && d == MovedUp(x + j, |j|, |x| - position)
    ensures Roomy(x, d, position, |j|)
  {
    assert d == (x + j)[..position + |j|] + x[position..];
  }

  lemma RedeltaLength(b: byte, newDelta: nat)
    requires newDelta < 65536
    ensures 1 <= |Redelta(b, newDelta)| == if Short(newDelta) then 1 + ExtraBytes(newDelta) else 2
  {
  }

  lemma SplicePrefix(d: seq<byte>, n: nat, at: nat, size: nat, r: seq<byte>)
    requires |r| == size && at + size <= n <= |d|
    ensures Splice(d, at, size, r)[..n] == Splice(d[..n], at, size, r)
  {
  }

  /** Half way through moving the octets before `end` up: those from `src + 1` on are in place. */
  ghost function Shifted(x: seq<byte>, dest: int, src: int, end: int): (c: seq<byte>)
    requires -1 <= src <= dest < |x| && src < end <= |x|
    ensures |c| == dest - src + end
  {
    x[..dest + 1] + x[src + 1..end]
  }

  lemma ShiftStart(x: seq<byte>, end: nat)
    requires 0 <= end <= |x|
    ensures Shifted(x, |x| - 1, end - 1, end) == x
  {
  }

  lemma ShiftOne(x: seq<byte>, dest: int, src: int, end: int)
    requires 0 <= src <= dest < |x| && src < end <= |x|
    ensures Shifted(x, dest, src, end)[dest := Shifted(x, dest, src, end)[src]] == Shifted(x, dest - 1, src - 1, end)
  {
  }

  /** Some octets of `x` have moved `offset` down, those that are now from `start` to `dest`. */
  ghost function Lowered(x: seq<byte>, start: nat, dest: nat, offset: nat): (r: seq<byte>)
    requires start <= dest && dest + offset <= |x|
    ensures |r| == |x|
  {
    x[..start] + x[start + offset..dest + offset] + x[dest..]
  }

  lemma LoweredOne(x: seq<byte>, start: nat, dest: nat, offset: nat)
    requires start <= dest && dest + offset < |x|
    ensures var r := Lowered(x, start, dest, offset);
            r[dest := r[dest + offset]] == Lowered(x, start, dest + 1, offset)
  {
  }

  lemma LoweredParts(x: seq<byte>, start: nat, dest: nat, offset: nat)
    requires start <= dest && dest + offset <= |x|
    ensures var r := Lowered(x, start, dest, offset);
            r[..start] == x[..start] && r[start..dest] == x[start + offset..dest + offset] && (start == dest ==> r == x)
  {
  }

  /** The `amount` octets that end `offset` octets before the end of `x` have moved to its end. */
  function MovedUp(x: seq<byte>, offset: nat, amount: nat): seq<byte>
    requires offset + amount <= |x|
  {
    x[..|x| - amount] + x[|x| - offset - amount..|x| - offset]
  }

  lemma ShiftedUp(x: seq<byte>, offset: nat, amount: nat)
    requires offset + amount <= |x|
    ensures var dest, end := |x| - 1 - amount, |x| - offset;
            Shifted(x, dest, dest - offset, end) == MovedUp(x, offset, amount)
  {
  }

  lemma ReplacedIs(delta: nat, newDelta: nat)
    requires newDelta <= delta
    ensures Replaced(delta, newDelta) ==
            (if Short(newDelta) then 1 + ExtraBytes(newDelta) else 2) - ExtraBytes(newDelta) + ExtraBytes(delta)
  {
  }

  lemma RoomTail(x: seq<byte>, d: seq<byte>, position: nat, growth: nat, n: nat)
    requires Roomy(x, d, position, growth) && position + n <= |x|
    ensures d[position + growth + n..] == x[position + n..]
  {
    assert d[position + growth + n..] == d[position + growth..][n..];
  }

  lemma SpliceParts(d: seq<byte>, at: nat, b: byte, r: seq<byte>)
    requires at < |d| && at + |r| <= |d| && r != []
    ensures var y := Splice(d[at := b], at, |r|, r);
            y[..at] == d[..at] && y[at..] == r + d[at + |r|..]
  {
  }

  lemma GapShape(x: seq<byte>, d: seq<byte>, position: nat, size: nat, delta: nat, newDelta: nat, y: seq<byte>)
    requires newDelta <= delta < 65536 && ExtraBytes(delta) <= ExtraBytes(newDelta) + size
    requires position + Replaced(delta, newDelta) <= |x|
    requires Roomy(x, d, position, size + ExtraBytes(newDelta) - ExtraBytes(delta))
    requires var r := Redelta(x[position], newDelta);
             position + size + |r| <= |d| && y == Splice(d[position + size := x[position]], position + size, |r|, r)
    ensures Gapped(x, y, position, size, delta, newDelta)
  {
    assert position < |x|;
    hide Redelta, ExtraBytes, Replaced, Splice, Roomy;
    RedeltaLength(x[position], newDelta);
    ReplacedIs(delta, newDelta);
    GapParts(x, d, position, size, size + ExtraBytes(newDelta) - ExtraBytes(delta), Replaced(delta, newDelta),
             Redelta(x[position], newDelta), y);
  }

  lemma GapParts(x: seq<byte>, d: seq<byte>, position: nat, size: nat, growth: nat, n: nat, r: seq<byte>, y: seq<byte>)
    requires position + n <= |x| && position < |x| && Roomy(x, d, position, growth)
    requires r != [] && size + |r| == growth + n && position + size + |r| <= |d|
    requires y == Splice(d[position + size := x[position]], position + size, |r|, r)
    ensures position + size <= |y| && y[..position] == x[..position] && y[position + size..] == r + x[position + n..]
  {
    hide Splice;
    var at := position + size;
    RoomTail(x, d, position, growth, n);
    SpliceParts(d, at, x[position], r);
    assert y[..position] == y[..at][..position] == d[..at][..position] == d[..position];
  }

  lemma GapSize(x: seq<byte>, y: seq<byte>, position: nat, size: nat, delta: nat, newDelta: nat)
    requires newDelta < 65536 && position < |x| && Gapped(x, y, position, size, delta, newDelta)
    ensures position + size <= |y|
  {
  }

  /** Filling the hole keeps the rest of the shape. */
  lemma GapFilled(x: seq<byte>, y: seq<byte>, position: nat, size: nat, delta: nat, newDelta: nat, r: seq<byte>)
    requires newDelta < 65536 && position < |x| && Gapped(x, y, position, size, delta, newDelta) && |r| == size
    requires position + size <= |y|
    ensures var z := Splice(y, position, size, r);
            Gapped(x, z, position, size, delta, newDelta) && z[position..position + size] == r
  {
    hide Redelta;
  }

  /** What `addOption` reads of the option that will follow the new one. */
  lemma NextOption(opts: seq<Option>, number: nat, length: nat, offset: nat, prev: nat)
    requires Encodable(0, opts) && Fits16(opts) && prev <= number
    requires Position(opts, number) < |opts| && Walked(opts, Position(opts, number), offset, prev)
    ensures var s := Encode(0, opts)[offset..];
            HeaderFits(s) && prev + OptionDelta(s) == opts[Position(opts, number)].number > number &&
            Replaced(OptionDelta(s), prev + OptionDelta(s) - number) <= |s| &&
            ExtraBytes(OptionDelta(s)) <= ExtraBytes(prev + OptionDelta(s) - number) + OptionSize(number - prev, length)
  {
    hide *;
    var k := Position(opts, number);
    WalkStep(opts, k, offset, prev);
    WalkInside(opts, k, offset, prev);
    var s := Encode(0, opts)[offset..];
    var delta := OptionDelta(s);
    WalkInside(opts, k + 1, offset + OptionSize(delta, OptionValueLength(s)), opts[k].number);
    DeltaRoom(delta, prev + delta - number, length, OptionValueLength(s));
  }

  /** Lowering a delta frees no more octets than the option in front of it needs. */
  lemma DeltaRoom(delta: nat, newDelta: nat, length: nat, nextLength: nat)
    requires newDelta <= delta
    ensures ExtraBytes(delta) <= ExtraBytes(newDelta) + OptionSize(delta - newDelta, length)
    ensures Replaced(delta, newDelta) <= OptionSize(delta, nextLength)
  {
  }

  lemma InsertFits16(opts: seq<Option>, o: Option)
    requires Fits16(opts) && o.number < 65536 && |o.value| < 65536
    ensures Fits16(Insert(opts, o))
  {
  }

  /** The end branch of `addOption` yields the octets of the list with the option inserted. */
  lemma LastAdded(opts: seq<Option>, o: Option, offset: nat, prev: nat)
    requires Encodable(0, opts) && Small(opts, o) && prev <= o.number
    requires Position(opts, o.number) == |opts| && Walked(opts, |opts|, offset, prev)
    ensures prev == LastNumber(0, opts) && Short(o.number - prev) && Short(|o.value|)
    ensures Encodable(0, Insert(opts, o)) && LastNumber(0, Insert(opts, o)) == o.number
    ensures Encode(0, Insert(opts, o)) == Encode(0, opts) + OptionBytes(o.number - prev, o.value)
    ensures |Encode(0, Insert(opts, o))| == |Encode(0, opts)| + OptionSize(o.number - prev, |o.value|)
  {
    hide OptionBytes;
    assert opts[..|opts|] == opts;
    InsertLast(opts, o);
    ReadOption(o.number - prev, o.value, []);
  }

  /** Rewriting one delta and putting the new option in front of it is insertion. */
  lemma MiddleSplice(head: seq<byte>, option: seq<byte>, delta: nat, newDelta: nat, value: seq<byte>, rest: seq<byte>)
    requires newDelta <= delta <= MAX_FIELD && Short(newDelta) && |value| <= MAX_FIELD
    ensures Filled(head + (OptionBytes(delta, value) + rest), head + (option + (OptionBytes(newDelta, value) + rest)),
                   |head|, delta, newDelta, option)
  {
    var s := OptionBytes(delta, value) + rest;
    var x := head + s;
    RedeltaOption(delta, newDelta, value, rest);
    hide OptionBytes, Redelta;
    assert x[|head| + Replaced(delta, newDelta)..] == s[Replaced(delta, newDelta)..];
  }

  // ----- what addOption leaves for every delta and length -----

  /** A list that the PDU can hold, and an option that can be added to it. */
  ghost predicate Addable(opts: seq<Option>, o: Option) {
    Encodable(0, opts) && Fits16(opts) && o.number < 65536 && |o.value| < 65536
  }

  /** The number in front of the place of `o`. */
  ghost function Before(opts: seq<Option>, o: Option): nat {
    LastNumber(0, opts[..Position(opts, o.number)])
  }

  lemma AddableAt(opts: seq<Option>, o: Option)
    requires Addable(opts, o)
    ensures var k, prev := Position(opts, o.number), Before(opts, o);
            Encodable(0, opts[..k]) && prev <= o.number &&
            (k == |opts| ==> opts[..k] == opts) &&
            (k < |opts| ==>
               prev <= o.number < opts[k].number && opts[k].number < 65536 && |opts[k].value| < 65536 &&
               Encodable(opts[k].number, opts[k + 1..]) &&
               Encode(0, opts) == Encode(0, opts[..k]) + (OptionBytes(opts[k].number - prev, opts[k].value) +
                                                          Encode(opts[k].number, opts[k + 1..])))
  {
    hide Encode, Encodable, OptionBytes, Position;
    var k := Position(opts, o.number);
    assert k > 0 ==> opts[..k][k - 1].number <= o.number;
    if k < |opts| { OptionAt(opts, k); } else { assert opts[..k] == opts; }
  }

  ghost function DeltaOf(opts: seq<Option>, o: Option): (delta: nat)
    requires Addable(opts, o)
    ensures delta < 65536
  {
    AddableAt(opts, o);
    o.number - Before(opts, o)
  }

  /** The octets in front of the new option. */
  ghost function FrontOctets(opts: seq<Option>, o: Option): seq<byte>
    requires Addable(opts, o)
  {
    AddableAt(opts, o);
    Encode(0, opts[..Position(opts, o.number)])
  }

  /** The octets behind the new option: the next one with its delta rewritten, and the others. */
  ghost function BackOctets(opts: seq<Option>, o: Option): seq<byte>
    requires Addable(opts, o)
  {
    var k := Position(opts, o.number);
    AddableAt(opts, o);
    if k == |opts| then []
    else Rewritten(opts[k].number - Before(opts, o), opts[k].number - o.number, opts[k].value) +
         Encode(opts[k].number, opts[k + 1..])
  }

  /** The octets that the format has there. */
  ghost function BackInFormat(opts: seq<Option>, o: Option): seq<byte>
    requires Addable(opts, o)
  {
    var k := Position(opts, o.number);
    AddableAt(opts, o);
    if k == |opts| then []
    else OptionBytes(opts[k].number - o.number, opts[k].value) + Encode(opts[k].number, opts[k + 1..])
  }

  ghost function AddedOctets(opts: seq<Option>, o: Option, hole: seq<byte>): seq<byte>
    requires Addable(opts, o) && |hole| == OptionSize(DeltaOf(opts, o), |o.value|)
  {
    FrontOctets(opts, o) + (Stored(DeltaOf(opts, o), o.value, hole) + BackOctets(opts, o))
  }

  /** The octets `z` after the token, when `o` has been added and the memory of its place has held `hole`. */
  ghost predicate AddedAs(z: seq<byte>, opts: seq<Option>, o: Option, hole: seq<byte>)
    requires Addable(opts, o)
  {
    |hole| == OptionSize(DeltaOf(opts, o), |o.value|) && z == AddedOctets(opts, o, hole)
  }

  /** The delta of the option behind the new one comes out right. */
  ghost predicate BackRight(opts: seq<Option>, o: Option)
    requires Addable(opts, o)
  {
    var k := Position(opts, o.number);
    AddableAt(opts, o);
    k < |opts| ==>
      Short(opts[k].number - o.number) ||
      Coincides(opts[k].number - Before(opts, o), opts[k].number - o.number, |opts[k].value|)
  }

  /** What a caller can look at before the call. */
  ghost predicate AddedRight(opts: seq<Option>, o: Option)
    requires Addable(opts, o)
  {
    Short(DeltaOf(opts, o)) && Short(|o.value|) && BackRight(opts, o)
  }

  lemma BackIff(opts: seq<Option>, o: Option)
    requires Addable(opts, o)
    ensures BackOctets(opts, o) == BackInFormat(opts, o) <==> BackRight(opts, o)
  {
    hide Encode, Encodable, OptionBytes, Position, Rewritten, Coincides, ParseOption;
    AddableAt(opts, o);
    var k := Position(opts, o.number);
    if k < |opts| {
      var delta, newDelta := opts[k].number - Before(opts, o), opts[k].number - o.number;
      RewrittenIff(delta, newDelta, opts[k].value);
      SameFront(Rewritten(delta, newDelta, opts[k].value), OptionBytes(newDelta, opts[k].value),
                Encode(opts[k].number, opts[k + 1..]));
    }
  }

  lemma SameFront(s: seq<byte>, t: seq<byte>, c: seq<byte>)
    ensures s + c == t + c <==> s == t
  {
    if s + c == t + c {
      assert |s| == |t| && s == (s + c)[..|s|] == (t + c)[..|t|] == t;
    }
  }

  /** The list with the option inserted, piece by piece. */
  lemma InsertPieces(opts: seq<Option>, o: Option)
    requires Addable(opts, o)
    ensures Encodable(0, Insert(opts, o))
    ensures Encode(0, Insert(opts, o)) ==
              FrontOctets(opts, o) + (OptionBytes(DeltaOf(opts, o), o.value) + BackInFormat(opts, o))
  {
    hide Encode, Encodable, OptionBytes, Position, Insert;
    AddableAt(opts, o);
    var k, prev := Position(opts, o.number), Before(opts, o);
    if k == |opts| {
      InsertEnd(opts, o);
      EncodeSnoc(opts, o);
      assert OptionBytes(o.number - prev, o.value) + [] == OptionBytes(o.number - prev, o.value);
    } else {
      InsertAt(opts, o, k);
      assert opts[k..] == [opts[k]] + opts[k + 1..];
      EncodeCons(opts[k], opts[k + 1..], o.number);
      EncodeCons(o, opts[k..], prev);
      EncodableSplit(0, opts[..k], [o] + opts[k..]);
    }
  }

  /** Two sequences made of pieces of the same sizes. */
  lemma SamePieces(a: seq<byte>, s: seq<byte>, t: seq<byte>, u: seq<byte>, v: seq<byte>)
    requires |s| == |t|
    ensures a + (s + u) == a + (t + v) <==> s == t && u == v
  {
    if a + (s + u) == a + (t + v) {
      assert s + u == (a + (s + u))[|a|..] == (a + (t + v))[|a|..] == t + v;
      assert s == (s + u)[..|s|] == (t + v)[..|t|] == t;
      assert u == (s + u)[|s|..] == (t + v)[|t|..] == v;
    }
  }

  lemma StoredIff(delta: nat, value: seq<byte>)
    requires delta < 65536 && |value| < 65536
    ensures (forall hole: seq<byte> | |hole| == OptionSize(delta, |value|) ::
               Stored(delta, value, hole) == OptionBytes(delta, value))
            <==> Short(delta) && Short(|value|)
  {
    hide Stored, OptionBytes;
    if Short(delta) && Short(|value|) {
      forall hole: seq<byte> | |hole| == OptionSize(delta, |value|)
        ensures Stored(delta, value, hole) == OptionBytes(delta, value)
      {
        StoredIsOption(delta, value, hole);
      }
    } else {
      var n := OptionSize(delta, |value|);
      StoredFails(delta, value);
      ParseOptionBytes(delta, value, []);
      assert OptionBytes(delta, value) + [] == OptionBytes(delta, value);
      assert |Stale(value, n)| == n;
      assert |OptionBytes(delta, value)| == n by { ReadOption(delta, value, []); }
    }
  }

  lemma AddedRightHolds(opts: seq<Option>, o: Option, hole: seq<byte>)
    requires Addable(opts, o) && AddedRight(opts, o) && |hole| == OptionSize(DeltaOf(opts, o), |o.value|)
    ensures Encodable(0, Insert(opts, o)) && AddedOctets(opts, o, hole) == Encode(0, Insert(opts, o))
  {
    assert |o.value| < 65536;
    hide Addable, Encode, Encodable, Insert, Stored, OptionBytes, BackRight, FrontOctets, BackOctets, BackInFormat,
         DeltaOf;
    InsertPieces(opts, o);
    BackIff(opts, o);
    StoredIsOption(DeltaOf(opts, o), o.value, hole);
  }

  lemma AddedWrong(opts: seq<Option>, o: Option) returns (hole: seq<byte>)
    requires Addable(opts, o) && !AddedRight(opts, o)
    ensures |hole| == OptionSize(DeltaOf(opts, o), |o.value|)
    ensures Encodable(0, Insert(opts, o)) && AddedOctets(opts, o, hole) != Encode(0, Insert(opts, o))
  {
    assert |o.value| < 65536;
    hide Addable, Encode, Encodable, Insert, Stored, OptionBytes, BackRight, FrontOctets, BackOctets, BackInFormat,
         DeltaOf, OptionSize;
    InsertPieces(opts, o);
    BackIff(opts, o);
    var delta := DeltaOf(opts, o);
    hole := WrongHole(delta, o.value);
    SamePieces(FrontOctets(opts, o), Stored(delta, o.value, hole), OptionBytes(delta, o.value),
               BackOctets(opts, o), BackInFormat(opts, o));
  }

  /** Whatever the memory has held, the octets that `addOption` leaves are those of the list with the
      option inserted, iff the two deltas written and the length are below 269, or the second delta
      comes out right by chance. */
  lemma AddedRightIff(opts: seq<Option>, o: Option)
    requires Addable(opts, o)
    ensures Encodable(0, Insert(opts, o))
    ensures (forall hole: seq<byte> | |hole| == OptionSize(DeltaOf(opts, o), |o.value|) ::
               AddedOctets(opts, o, hole) == Encode(0, Insert(opts, o)))
            <==> AddedRight(opts, o)
  {
    InsertPieces(opts, o);
    hide *;
    if AddedRight(opts, o) {
      forall hole: seq<byte> | |hole| == OptionSize(DeltaOf(opts, o), |o.value|)
        ensures AddedOctets(opts, o, hole) == Encode(0, Insert(opts, o))
      {
        AddedRightHolds(opts, o, hole);
      }
    } else {
      var hole := AddedWrong(opts, o);
    }
  }

  lemma WrongHole(delta: nat, value: seq<byte>) returns (hole: seq<byte>)
    requires delta < 65536 && |value| < 65536
    ensures |hole| == OptionSize(delta, |value|) == |OptionBytes(delta, value)|
    ensures !(Short(delta) && Short(|value|)) ==> Stored(delta, value, hole) != OptionBytes(delta, value)
  {
    hide Stored, OptionBytes, ParseOption;
    ReadOption(delta, value, []);
    StoredIff(delta, value);
    if Short(delta) && Short(|value|) {
      hole := Stale(value, OptionSize(delta, |value|));
    } else {
      hole :| |hole| == OptionSize(delta, |value|) && Stored(delta, value, hole) != OptionBytes(delta, value);
    }
  }

  /** The octets of the message after the token are those of the list with `o` inserted. */
  ghost predicate Added(x: seq<byte>, z: seq<byte>, start: nat, opts: seq<Option>, o: Option) {
    start <= |x| <= |z| && z[..start] == x[..start] &&
    (Small(opts, o) ==> Encodable(0, Insert(opts, o)) && z[start..] == Encode(0, Insert(opts, o)))
  }

  /** The message `x` has become `z`, for which `hole` is what the memory has held. */
  ghost predicate Became(x: seq<byte>, z: seq<byte>, start: nat, opts: seq<Option>, o: Option, hole: seq<byte>) {
    Added(x, z, start, opts, o) && start <= |z| && Addable(opts, o) && AddedAs(z[start..], opts, o, hole)
  }

  /** The message with `o` inserted does not fit into `room` octets. */
  ghost predicate NoRoom(start: nat, opts: seq<Option>, o: Option, room: nat) {
    Small(opts, o) ==> Encodable(0, Insert(opts, o)) && start + |Encode(0, Insert(opts, o))| > room
  }

  /** Only a message that is really too long is refused. */
  lemma RefusedTooLong(start: nat, opts: seq<Option>, o: Option, room: nat)
    requires Small(opts, o)
    ensures NoRoom(start, opts, o, room) <==>
              Encodable(0, Insert(opts, o)) && start + |Encode(0, Insert(opts, o))| > room
  {
    hide Encodable, Encode, Insert, Small;
  }

  lemma ShortFits(n: nat)
    requires Short(n)
    ensures n <= MAX_FIELD
  {
  }

  lemma SmallParts(opts: seq<Option>, o: Option, k: nat, offset: nat, prev: nat)
    requires Encodable(0, opts) && k == Position(opts, o.number) && Walked(opts, k, offset, prev) && prev <= o.number
    ensures Small(opts, o) <==>
            Short(o.number - prev) && Short(|o.value|) && (k < |opts| ==> Short(opts[k].number - o.number))
  {
    hide Encode, Encodable, LastNumber;
  }

  lemma WalkedParts(opts: seq<Option>, k: nat, offset: nat, prev: nat)
    requires Encodable(0, opts) && Walked(opts, k, offset, prev)
    ensures Encodable(0, opts[..k]) && prev == LastNumber(0, opts[..k]) && offset == |Encode(0, opts[..k])|
  {
  }

  /** The octets that the middle branch of `addOption` leaves after the token. */
  lemma MiddleEncode(opts: seq<Option>, o: Option, offset: nat, prev: nat, k: nat)
    requires Encodable(0, opts) && Small(opts, o) && prev <= o.number
    requires k == Position(opts, o.number) < |opts| && Walked(opts, k, offset, prev)
    ensures Short(o.number - prev) && Short(|o.value|) && Encodable(0, Insert(opts, o))
    ensures Filled(Encode(0, opts), Encode(0, Insert(opts, o)), offset, opts[k].number - prev,
                   opts[k].number - o.number, OptionBytes(o.number - prev, o.value))
  {
    hide *;
    SmallParts(opts, o, k, offset, prev);
    WalkedParts(opts, k, offset, prev);
    InsertMiddle(opts, o, k);
    OptionAt(opts, k);
    ShortFits(o.number - prev);
    ShortFits(|o.value|);
    MiddleSplice(Encode(0, opts[..k]), OptionBytes(o.number - prev, o.value), opts[k].number - prev,
                 opts[k].number - o.number, opts[k].value, Encode(opts[k].number, opts[k + 1..]));
  }

  /** `z` is `x` with `r` put in at `offset` and the delta of the option there rewritten. */
  ghost predicate Filled(x: seq<byte>, z: seq<byte>, offset: nat, delta: nat, newDelta: nat, r: seq<byte>)
    requires newDelta < 65536
  {
    offset < |x| && offset + Replaced(delta, newDelta) <= |x| &&
    z == x[..offset] + r + (Redelta(x[offset], newDelta) + x[offset + Replaced(delta, newDelta)..])
  }

  lemma LastIsAdded(x: seq<byte>, start: nat, opts: seq<Option>, o: Option, offset: nat, prev: nat, room: nat)
    requires Encodable(0, opts) && prev <= o.number && start <= |x| && x[start..] == Encode(0, opts)
    requires Position(opts, o.number) == |opts| && Walked(opts, |opts|, offset, prev)
    ensures Short(o.number - prev) && Short(|o.value|) ==>
              Added(x, x + OptionBytes(o.number - prev, o.value), start, opts, o)
    ensures Small(opts, o) ==> Short(o.number - prev) && Short(|o.value|)
    ensures |x| + OptionSize(o.number - prev, |o.value|) > room ==> NoRoom(start, opts, o, room)
  {
    hide *;
    SmallParts(opts, o, |opts|, offset, prev);
    if Small(opts, o) {
      LastAdded(opts, o, offset, prev);
      ShortFits(o.number - prev);
      ShortFits(|o.value|);
      AppendIsAdded(x, start, opts, o, OptionBytes(o.number - prev, o.value));
      NoRoomIntro(start, opts, o, |Encode(0, Insert(opts, o))|, room);
    } else {
      NotSmall(x, x, start, opts, o, room);
    }
  }

  /** What the end branch of `addOption` leaves. */
  lemma LastDone(x: seq<byte>, start: nat, opts: seq<Option>, o: Option, offset: nat, prev: nat, hole: seq<byte>)
    requires Encodable(0, opts) && Fits16(opts) && o.number < 65536 && |o.value| < 65536 && prev <= o.number
    requires start <= |x| && x[start..] == Encode(0, opts)
    requires Position(opts, o.number) == |opts| && Walked(opts, |opts|, offset, prev)
    requires |hole| == OptionSize(o.number - prev, |o.value|)
    ensures Became(x, x + Stored(o.number - prev, o.value, hole), start, opts, o, hole)
  {
    hide Walked, Encode, Encodable, OptionBytes, OptionSize, Small, Insert, Position, Added, AddedAs, NoRoom, Stored,
         DeltaOf, Fits16, LastNumber, FrontOctets, BackOctets, Addable;
    LastIsAs(opts, o, offset, prev);
    AppendedAs(x, start, opts, o, hole);
    LastIsAdded(x, start, opts, o, offset, prev, 0);
    StoredShort(o.number - prev, o.value, hole);
    if !(Short(o.number - prev) && Short(|o.value|)) {
      NotSmall(x, x + Stored(o.number - prev, o.value, hole), start, opts, o, 0);
    }
  }

  /** What the middle branch of `addOption` has done to the octets. */
  ghost predicate MiddleShape(x: seq<byte>, z: seq<byte>, start: nat, opts: seq<Option>, o: Option, offset: nat,
                              prev: nat, hole: seq<byte>)
    requires Addable(opts, o)
  {
    prev <= o.number &&
    var k, size := Position(opts, o.number), OptionSize(o.number - prev, |o.value|);
    0 < start <= |x| && x[start..] == Encode(0, opts) && start + offset < |x| &&
    k < |opts| && Walked(opts, k, offset, prev) && opts[k].number - prev < 65536 &&
    ExtraBytes(opts[k].number - prev) <= ExtraBytes(opts[k].number - o.number) + size &&
    Gapped(x, z, start + offset, size, opts[k].number - prev, opts[k].number - o.number) &&
    |hole| == size && start + offset + size <= |z| &&
    z[start + offset..start + offset + size] == Stored(o.number - prev, o.value, hole)
  }

  lemma MiddleDone(x: seq<byte>, z: seq<byte>, start: nat, opts: seq<Option>, o: Option, offset: nat, prev: nat,
                   hole: seq<byte>)
    requires Addable(opts, o) && MiddleShape(x, z, start, opts, o, offset, prev, hole)
    ensures Became(x, z, start, opts, o, hole) && |x| <= |z| && z[0] == x[0]
  {
    hide Encode, Encodable, OptionBytes, Position, Stored, Fits16, Filled, Walked, Rewritten, LastNumber, OptionSize,
         Gapped, Added, AddedAs, ExtraBytes, Replaced;
    var k, size := Position(opts, o.number), OptionSize(o.number - prev, |o.value|);
    GapKeeps(x, z, start + offset, size, opts[k].number - prev, opts[k].number - o.number);
    GapIsFilled(x, z, start, offset, size, opts[k].number - prev, opts[k].number - o.number);
    StoredShort(o.number - prev, o.value, hole);
    MiddleIsAdded(x, z, start, opts, o, offset, prev, k);
    FilledAs(z[start..], opts, o, offset, prev, hole);
  }

  lemma StoredShort(delta: nat, value: seq<byte>, hole: seq<byte>)
    requires delta < 65536 && |value| < 65536 && |hole| == OptionSize(delta, |value|)
    ensures Short(delta) && Short(|value|) ==> Stored(delta, value, hole) == OptionBytes(delta, value)
  {
    hide Stored, OptionBytes;
    if Short(delta) && Short(|value|) { StoredIsOption(delta, value, hole); }
  }

  /** The gap filled with the stored option. */
  lemma FilledAs(z: seq<byte>, opts: seq<Option>, o: Option, offset: nat, prev: nat, hole: seq<byte>)
    requires Addable(opts, o) && prev <= o.number
    requires var k := Position(opts, o.number);
             k < |opts| && Walked(opts, k, offset, prev) &&
             prev <= opts[k].number && opts[k].number - o.number < 65536 &&
             |hole| == OptionSize(o.number - prev, |o.value|) &&
             Filled(Encode(0, opts), z, offset, opts[k].number - prev, opts[k].number - o.number,
                    Stored(o.number - prev, o.value, hole))
    ensures AddedAs(z, opts, o, hole)
  {
    hide Encode, Encodable, OptionBytes, Position, Stored, Fits16, Filled, Walked, Rewritten, LastNumber;
    var k := Position(opts, o.number);
    AddableAt(opts, o);
    WalkedParts(opts, k, offset, prev);
    FilledPieces(FrontOctets(opts, o), z, opts[k].number - prev, opts[k].number - o.number, opts[k].value,
                 Encode(opts[k].number, opts[k + 1..]), Stored(o.number - prev, o.value, hole));
  }

  lemma FilledPieces(head: seq<byte>, z: seq<byte>, delta: nat, newDelta: nat, value: seq<byte>, rest: seq<byte>,
                     r: seq<byte>)
    requires newDelta <= delta < 65536 && |value| < 65536
    requires Filled(head + (OptionBytes(delta, value) + rest), z, |head|, delta, newDelta, r)
    ensures z == head + (r + (Rewritten(delta, newDelta, value) + rest))
  {
    hide OptionBytes, Redelta, Replaced;
    var s := OptionBytes(delta, value);
    var x, n := head + (s + rest), Replaced(delta, newDelta);
    RewrittenFits(delta, newDelta, value);
    assert x[|head|] == s[0] && x[..|head|] == head;
    assert x[|head| + n..] == s[n..] + rest;
  }

  lemma RewrittenFits(delta: nat, newDelta: nat, value: seq<byte>)
    requires newDelta <= delta < 65536 && |value| < 65536
    ensures Replaced(delta, newDelta) <= |OptionBytes(delta, value)| && OptionBytes(delta, value) != []
  {
  }

  /** The octets at the end of the PDU. */
  lemma LastIsAs(opts: seq<Option>, o: Option, offset: nat, prev: nat)
    requires Encodable(0, opts) && Fits16(opts) && o.number < 65536 && |o.value| < 65536 && prev <= o.number
    requires Position(opts, o.number) == |opts| && Walked(opts, |opts|, offset, prev)
    ensures Addable(opts, o) && DeltaOf(opts, o) == o.number - prev
    ensures FrontOctets(opts, o) == Encode(0, opts) && BackOctets(opts, o) == []
  {
    hide Encode, Encodable, Position, Fits16, LastNumber;
    AddableAt(opts, o);
  }

  lemma AppendedAs(x: seq<byte>, start: nat, opts: seq<Option>, o: Option, hole: seq<byte>)
    requires Addable(opts, o) && start <= |x| && x[start..] == FrontOctets(opts, o) && BackOctets(opts, o) == []
    requires |hole| == OptionSize(DeltaOf(opts, o), |o.value|)
    ensures AddedAs((x + Stored(DeltaOf(opts, o), o.value, hole))[start..], opts, o, hole)
  {
    assert |o.value| < 65536;
    hide Stored, FrontOctets, BackOctets, DeltaOf, Addable, OptionSize;
    var r := Stored(DeltaOf(opts, o), o.value, hole);
    assert (x + r)[start..] == x[start..] + r && r + [] == r;
  }

  lemma AddedSmall(x: seq<byte>, z: seq<byte>, start: nat, opts: seq<Option>, o: Option)
    requires Added(x, z, start, opts, o) && Small(opts, o)
    ensures start <= |x| <= |z| && Encodable(0, Insert(opts, o)) && z[start..] == Encode(0, Insert(opts, o))
  {
    hide Encode, Encodable, Insert, Small;
  }

  lemma AppendIsAdded(x: seq<byte>, start: nat, opts: seq<Option>, o: Option, r: seq<byte>)
    requires start <= |x| && Encodable(0, Insert(opts, o)) && Encode(0, Insert(opts, o)) == x[start..] + r
    ensures Added(x, x + r, start, opts, o)
  {
    hide Encode, Encodable, Insert, Small;
    assert (x + r)[start..] == x[start..] + r;
    assert (x + r)[..start] == x[..start];
  }

  lemma NoRoomIntro(start: nat, opts: seq<Option>, o: Option, n: nat, room: nat)
    requires Encodable(0, Insert(opts, o)) && n == |Encode(0, Insert(opts, o))|
    ensures start + n > room ==> NoRoom(start, opts, o, room)
  {
    hide Encode, Encodable, Insert, Small;
  }

  lemma NotSmall(x: seq<byte>, z: seq<byte>, start: nat, opts: seq<Option>, o: Option, room: nat)
    requires !Small(opts, o) && start <= |x| && x <= z
    ensures Added(x, z, start, opts, o) && NoRoom(start, opts, o, room)
  {
    hide Small, Insert, Encode, Encodable;
    assert z[..start] == x[..start];
  }

  /** The hole of the middle branch, filled with the option, makes the list with `o` inserted. */
  lemma MiddleIsAdded(x: seq<byte>, z: seq<byte>, start: nat, opts: seq<Option>, o: Option, offset: nat, prev: nat,
                      k: nat)
    requires Encodable(0, opts) && prev <= o.number && start <= |x| <= |z| && x[start..] == Encode(0, opts)
    requires k == Position(opts, o.number) < |opts| && Walked(opts, k, offset, prev)
    requires prev <= opts[k].number && opts[k].number - o.number < 65536
    requires start + offset < |x| && z[..start] == x[..start]
    requires Short(o.number - prev) && Short(|o.value|) ==>
               Filled(x[start..], z[start..], offset, opts[k].number - prev, opts[k].number - o.number,
                      OptionBytes(o.number - prev, o.value))
    ensures Added(x, z, start, opts, o)
  {
    if Small(opts, o) {
      hide OptionBytes, Redelta, Replaced;
      MiddleEncode(opts, o, offset, prev, k);
      hide Walked, Encode, Encodable, Insert, Position, LastNumber, Small;
    }
  }

  lemma GapKeeps(x: seq<byte>, z: seq<byte>, position: nat, size: nat, delta: nat, newDelta: nat)
    requires newDelta <= delta < 65536 && 0 < position < |x| && Gapped(x, z, position, size, delta, newDelta)
    requires ExtraBytes(delta) <= ExtraBytes(newDelta) + size
    ensures |x| <= |z| && z[0] == x[0]
  {
    RedeltaLength(x[position], newDelta);
    hide Redelta;
    assert z[..position][0] == x[..position][0];
  }

  lemma GapIsFilled(x: seq<byte>, z: seq<byte>, start: nat, offset: nat, size: nat, delta: nat, newDelta: nat)
    requires start + offset < |x| && newDelta < 65536
    requires Gapped(x, z, start + offset, size, delta, newDelta)
    ensures start + offset + size <= |z| && z[..start] == x[..start]
    ensures Filled(x[start..], z[start..], offset, delta, newDelta, z[start + offset..start + offset + size])
  {
    hide Redelta;
    var p := start + offset;
    assert z == z[..p] + z[p..p + size] + z[p + size..];
    assert z[start..p] == x[start..][..offset];
    assert z[..start] == z[..p][..start];
  }

  lemma FilledSize(x: seq<byte>, z: seq<byte>, offset: nat, delta: nat, newDelta: nat, r: seq<byte>)
    requires newDelta <= delta < 65536 && Filled(x, z, offset, delta, newDelta, r)
    requires Short(newDelta) || Short(delta) || ExtraBytes(delta) == 2
    ensures |z| == |x| + |r| + ExtraBytes(newDelta) - ExtraBytes(delta)
  {
    RedeltaLength(x[offset], newDelta);
    hide Redelta;
  }

  lemma MiddleNoRoom(x: seq<byte>, start: nat, opts: seq<Option>, o: Option, offset: nat, prev: nat, k: nat, room: nat)
    requires Encodable(0, opts) && prev <= o.number && start <= |x| && x[start..] == Encode(0, opts)
    requires k == Position(opts, o.number) < |opts| && Walked(opts, k, offset, prev)
    requires prev <= opts[k].number && opts[k].number - prev < 65536
    requires |x| + OptionSize(o.number - prev, |o.value|) + ExtraBytes(opts[k].number - o.number)
               - ExtraBytes(opts[k].number - prev) > room
    ensures NoRoom(start, opts, o, room)
  {
    if Small(opts, o) {
      hide OptionBytes, Redelta, OptionSize, Filled, ExtraBytes;
      MiddleEncode(opts, o, offset, prev, k);
      SmallParts(opts, o, k, offset, prev);
      hide Walked, Encode, Encodable, Insert, Position, LastNumber, Small;
      FilledSize(Encode(0, opts), Encode(0, Insert(opts, o)), offset, opts[k].number - prev, opts[k].number - o.number,
                 OptionBytes(o.number - prev, o.value));
      ReadOption(o.number - prev, o.value, []);
    }
  }

  lemma InsertLastNumber(opts: seq<Option>, o: Option)
    ensures LastNumber(0, Insert(opts, o)) ==
              if Position(opts, o.number) == |opts| then o.number else LastNumber(0, opts)
  {
    hide *;
    var k := Position(opts, o.number);
    if k == |opts| {
      InsertEnd(opts, o);
    } else {
      InsertAt(opts, o, k);
      assert opts == opts[..k] + opts[k..];
      LastOfParts(opts[..k], o, opts[k..], opts);
    }
  }

  lemma InsertEnd(opts: seq<Option>, o: Option)
    requires Position(opts, o.number) == |opts|
    ensures Insert(opts, o) == opts + [o] && LastNumber(0, opts + [o]) == o.number
  {
    hide Position;
    var n, r := |opts|, opts + [o];
    assert opts[..n] == opts && opts[n..] == [] && r + [] == r && r[n] == o;
  }

  // ----- the token -----

  function WithTokenLength(b: byte, n: nat): byte {
    if n > 8 then b else b / 16 * 16 + n
  }

  /** The message `m` with another token: the length in the header (kept when it exceeds 8),
      the token itself, and what followed the old token. */
  function Tokened(m: seq<byte>, token: seq<byte>): (r: seq<byte>)
    requires |m| >= COAP_HDR_SIZE && COAP_HDR_SIZE + m[0] % 16 <= |m|
    ensures |r| == |m| - m[0] % 16 + |token|
  {
    [WithTokenLength(m[0], |token|)] + m[1..COAP_HDR_SIZE] + token + m[COAP_HDR_SIZE + m[0] % 16..]
  }

  lemma TokenSame(m: seq<byte>, token: seq<byte>)
    requires |m| >= COAP_HDR_SIZE && COAP_HDR_SIZE + m[0] % 16 <= |m| && |token| == m[0] % 16
    ensures Splice(m, COAP_HDR_SIZE, |token|, token) == Tokened(m, token)
  {
  }

  lemma TokenGrows(m: seq<byte>, c: seq<byte>, d: seq<byte>, token: seq<byte>)
    requires |m| >= COAP_HDR_SIZE && m[0] % 16 < |token| && COAP_HDR_SIZE + m[0] % 16 <= |m| <= |c|
    requires |c| == |m| - m[0] % 16 + |token| && c[..|m|] == m
    requires d == MovedUp(c, |c| - |m|, |c| - |token| - COAP_HDR_SIZE)
    ensures var e := Splice(d, COAP_HDR_SIZE, |token|, token);
            e[0] == m[0] && e[0 := WithTokenLength(e[0], |token|)] == Tokened(m, token)
  {
    var t := m[0] % 16;
    assert c[COAP_HDR_SIZE + t..|m|] == m[COAP_HDR_SIZE + t..];
    assert d[COAP_HDR_SIZE + |token|..] == m[COAP_HDR_SIZE + t..];
    assert d[..COAP_HDR_SIZE] == c[..|m|][..COAP_HDR_SIZE];
  }

  lemma TokenShrinks(m: seq<byte>, c: seq<byte>, d: seq<byte>, token: seq<byte>)
    requires |m| >= COAP_HDR_SIZE && token != [] && |token| < m[0] % 16 && COAP_HDR_SIZE + m[0] % 16 <= |m|
    requires c == Splice(m, COAP_HDR_SIZE, |token|, token) && |d| == |c|
    requires d[..COAP_HDR_SIZE + |token|] == c[..COAP_HDR_SIZE + |token|]
    requires var n := |m| - m[0] % 16 + |token|;
             d[COAP_HDR_SIZE + |token|..n] == c[COAP_HDR_SIZE + m[0] % 16..]
    ensures var n := |m| - m[0] % 16 + |token|;
            n <= |d| && d[0] == m[0] && d[..n][0 := WithTokenLength(d[0], |token|)] == Tokened(m, token)
  {
    var t, n := m[0] % 16, |m| - m[0] % 16 + |token|;
    assert c[COAP_HDR_SIZE + t..] == m[COAP_HDR_SIZE + t..];
    assert d[..n] == d[..COAP_HDR_SIZE + |token|] + d[COAP_HDR_SIZE + |token|..n];
  }

  /** The token that can be read back is the one set exactly when the header can hold its
      length, or already holds it. */
  lemma TokenReadBack(m: seq<byte>, token: seq<byte>)
    requires |m| >= COAP_HDR_SIZE && COAP_HDR_SIZE + m[0] % 16 <= |m|
    ensures var r := Tokened(m, token);
            (COAP_HDR_SIZE + r[0] % 16 <= |r| && r[COAP_HDR_SIZE..COAP_HDR_SIZE + r[0] % 16] == token)
            <==> |token| <= 8 || |token| == m[0] % 16
  {
    var r := Tokened(m, token);
    assert r[COAP_HDR_SIZE..COAP_HDR_SIZE + |token|] == token;
  }

  /** Options and payload are found unchanged behind a token of at most 8 octets. */
  lemma TokenKeepsRest(m: seq<byte>, token: seq<byte>)
    requires |m| >= COAP_HDR_SIZE && COAP_HDR_SIZE + m[0] % 16 <= |m| && |token| <= 8
    ensures var r := Tokened(m, token);
            r[0] % 16 == |token| && r[0] / 16 == m[0] / 16 && r[1..COAP_HDR_SIZE] == m[1..COAP_HDR_SIZE] &&
            r[COAP_HDR_SIZE + r[0] % 16..] == m[COAP_HDR_SIZE + m[0] % 16..]
  {
  }

  /** Why the length of the PDU is bounded when the token changes its length: `setToken` keeps the old
      length in 8 bits. A PDU of more than 255 octets always counts as growing, and the octets
      behind its token are then looked for in front of the buffer. Up to 255 octets, the lowest
      octet moved up is the one behind the old token, and the octets moved down end with the PDU. */
  lemma TokenShiftInBounds(length: nat, oldToken: nat, newToken: nat)
    requires COAP_HDR_SIZE + oldToken <= length && oldToken < 16 && 0 < newToken && oldToken != newToken
    ensures var newLength, kept := length - oldToken + newToken, length % 256;
            (newLength > kept <==> newToken > oldToken || length > 255) &&
            if newLength > kept then
              var offset, amount := newLength - kept, newLength - newToken - COAP_HDR_SIZE;
              (newLength - offset - amount >= 0 <==> length <= 255) &&
              (length <= 255 ==> newLength - offset - amount == COAP_HDR_SIZE + oldToken)
            else
              var offset, amount := kept - newLength, kept - oldToken - COAP_HDR_SIZE;
              COAP_HDR_SIZE + newToken + offset + amount == length
  {
  }

  lemma SliceOfPrefix(s: seq<byte>, n: nat, start: nat, k: nat)
    requires start + k <= n <= |s|
    ensures s[..n][..start] == s[..start] && s[..n][start..start + k] == s[start..start + k]
    ensures s[..n][start + k..] == s[start + k..n]
  {
  }

  /** The PDU object. `pdu.Length` is the field `_bufferLength`. */
  class CoapPDU {
    var pdu: array<byte>
    var pduLength: nat
    const constructedFromBuffer: bool
    var numOptions: nat
    var maxAddedOptionNumber: nat

    /** The options that the octets after the token stand for. */
    ghost var Options: seq<Option>

    ghost predicate Valid()
      reads this, pdu
    {
      COAP_HDR_SIZE <= pduLength <= pdu.Length &&
      OptionsStart() <= pduLength &&
      (!constructedFromBuffer ==> pduLength == pdu.Length)
    }

    ghost function Contents(): (s: seq<byte>)
      requires pduLength <= pdu.Length
      reads this, pdu
    {
      pdu[..pduLength]
    }

    function GetTokenLength(): (n: nat)
      requires pdu.Length > 0
      reads this, pdu
      ensures n < 16
    {
      pdu[0] % 16
    }

    /** Where the options begin: after the header and the token. */
    function OptionsStart(): (n: nat)
      requires pdu.Length > 0
      reads this, pdu
    {
      COAP_HDR_SIZE + GetTokenLength()
    }

    /** The octets after the token are the encoding of `Options`, and there is no payload. */
    ghost predicate Encoded()
      reads this, pdu
    {
      Valid() && Encodable(0, Options) && Fits16(Options) && pdu[OptionsStart()..pduLength] == Encode(0, Options)
    }

    /** The state that runs of `AddOption` keep: the greatest number added is known as well. */
    ghost predicate Holds()
      reads this, pdu
    {
      Encoded() && maxAddedOptionNumber == LastNumber(0, Options)
    }

    /** A PDU in a caller's buffer: a fresh one if `length` is 0, otherwise a received message of that
        many octets, whose options are not known before it is validated. */
    constructor FromBuffer(buffer: array<byte>, length: nat)
      requires if length == 0 then buffer.Length >= COAP_HDR_SIZE else length <= buffer.Length
      modifies buffer
      ensures pdu == buffer && constructedFromBuffer && Options == [] && numOptions == 0 && maxAddedOptionNumber == 0
      ensures length == 0 ==> Holds() && Contents() == [0x40, 0, 0, 0]
      ensures length > 0 ==> pduLength == length && buffer[..] == old(buffer[..])
    {
      pdu, pduLength, constructedFromBuffer := buffer, if length == 0 then COAP_HDR_SIZE else length, true;
      numOptions, maxAddedOptionNumber, Options := 0, 0, [];
      new;
      if length == 0 {
        pdu[0], pdu[1], pdu[2], pdu[3] := 0, 0, 0, 0;
        pdu[0] := 0x40;
      }
    }

    /** A fresh PDU that allocates its own memory. */
    constructor ()
      ensures Holds() && Options == [] && fresh(pdu) && !constructedFromBuffer
      ensures Contents() == [0x40, 0, 0, 0] && numOptions == 0
    {
      pdu := new byte[COAP_HDR_SIZE](_ => 0);
      pduLength, constructedFromBuffer := COAP_HDR_SIZE, false;
      numOptions, maxAddedOptionNumber, Options := 0, 0, [];
      new;
      pdu[0] := 0x40;
    }

    /** Makes the PDU `extra` octets longer: `realloc` on its own memory, a capacity check on
        a caller's buffer. Allocation itself does not fail here. */
    method Grow(extra: nat) returns (ok: bool)
      requires Valid()
      modifies this`pdu, this`pduLength
      ensures pdu == old(pdu) || fresh(pdu)
      ensures ok <==> !constructedFromBuffer || old(pduLength) + extra <= old(pdu.Length)
      ensures ok ==> pduLength == old(pduLength) + extra <= pdu.Length
      ensures ok && !constructedFromBuffer ==> pdu.Length == pduLength
      ensures ok ==> pdu[..old(pduLength)] == old(Contents())
      ensures !ok ==> pdu == old(pdu) && pduLength == old(pduLength)
    {
      var newLength := pduLength + extra;
      if !constructedFromBuffer {
        var old_ := pdu;
        var newMemory := new byte[newLength];
        forall i | 0 <= i < old_.Length {
          newMemory[i] := old_[i];
        }
        pdu := newMemory;
      } else if newLength > pdu.Length {
        return false;
      }
      pduLength := newLength;
      return true;
    }

    method MoveOctet(dest: nat, src: nat)
      requires src <= dest < pduLength <= pdu.Length
      modifies pdu
      ensures Contents() == old(Contents())[dest := old(Contents())[src]]
    {
      pdu[dest] := pdu[src];
    }

    /** Moves the `amount` octets that end `offset` octets before the end of the PDU to its end. */
    method ShiftPDUUp(offset: nat, amount: nat)
      requires pduLength <= pdu.Length && offset + amount <= pduLength
      modifies pdu
      ensures Contents() == MovedUp(old(Contents()), offset, amount)
    {
      hide Shifted, MovedUp;
      ghost var x, end := Contents(), pduLength - offset;
      var left := amount;
      var dest := pduLength - 1;
      var src := dest - offset;
      ShiftStart(x, end);
      while left > 0
        invariant 0 <= left <= amount
        invariant dest == pduLength - 1 - (amount - left) && src == dest - offset
        invariant Contents() == Shifted(x, dest, src, end)
      {
        ShiftOne(x, dest, src, end);
        MoveOctet(dest, src);
        dest := dest - 1;
        src := src - 1;
        left := left - 1;
      }
      ShiftedUp(x, offset, amount);
    }

    method CopyOctet(dest: nat, src: nat)
      requires dest < pdu.Length && src < pdu.Length
      modifies pdu
      ensures pdu[..] == old(pdu[..])[dest := old(pdu[..])[src]]
    {
      pdu[dest] := pdu[src];
    }

    /** Moves `amount` octets from `start + offset` down to `start`. */
    method ShiftPDUDown(start: nat, offset: nat, amount: nat)
      requires start + offset + amount <= pdu.Length
      modifies pdu
      ensures pdu[..start] == old(pdu[..start])
      ensures pdu[start..start + amount] == old(pdu[start + offset..start + offset + amount])
    {
      hide Lowered;
      ghost var x := pdu[..];
      var left := amount;
      var dest := start;
      var src := start + offset;
      LoweredParts(x, start, dest, offset);
      while left > 0
        invariant 0 <= left <= amount
        invariant dest == start + (amount - left) && src == dest + offset
        invariant pdu[..] == Lowered(x, start, dest, offset)
      {
        LoweredOne(x, start, dest, offset);
        CopyOctet(dest, src);
        dest := dest + 1;
        src := src + 1;
        left := left - 1;
      }
      LoweredParts(x, start, dest, offset);
      assert pdu[start..start + amount] == pdu[..][start..start + amount];
      assert old(pdu[start + offset..start + offset + amount]) == x[start + offset..dest + offset];
    }

    /** The delta octets of `insertOption`. Every store is relative to the old write position. */
    method StoreDeltaAt(position: nat, delta: nat, ghost size: nat) returns (next: nat)
      requires delta < 65536 && ExtraBytes(delta) < size && position + size <= pdu.Length
      modifies pdu
      ensures next == position + ExtraBytes(delta)
      ensures pdu[..] ==
              Splice(old(pdu[..]), position, size, StoreDelta(old(pdu[..])[position..position + size], delta))
    {
      StoreDeltaInBuffer(pdu[..], position, delta, size);
      hide Splice, StoreDelta;
      pdu[position] := 0;
      if delta < 13 {
        pdu[position] := delta * 16;
        next := position;
      } else if delta < 269 {
        pdu[position] := 0xD0;
        next := position + 1;
        pdu[next] := delta - 13;
      } else {
        pdu[position] := 0xE0;
        pdu[position], pdu[position + 1] := (delta - 269) / 256, (delta - 269) % 256;
        next := position + 2;
      }
    }

    /** The length octets of `insertOption`, written from position `at` on. */
    method StoreLengthAt(position: nat, at: nat, length: nat, ghost size: nat) returns (next: nat)
      requires length < 65536 && position <= at && at - position + ExtraBytes(length) < size
      requires position + size <= pdu.Length
      modifies pdu
      ensures next == at + ExtraBytes(length)
      ensures pdu[..] == Splice(old(pdu[..]), position, size,
                                StoreLength(old(pdu[..])[position..position + size], at - position, length))
    {
      ghost var d := pdu[..];
      StoreLengthInBuffer(d, position, at, length, size);
      hide Splice, StoreLength;
      if length < 13 {
        pdu[position] := OrLow(pdu[position], length);
        next := at;
        assert pdu[..] == d[position := OrLow(d[position], length)];
      } else if length < 269 {
        pdu[position] := OrLow(pdu[position], 13);
        next := at + 1;
        pdu[next] := length - 13;
        assert pdu[..] == d[position := OrLow(d[position], 13)][at + 1 := length - 13];
      } else {
        pdu[position] := OrLow(pdu[position], 14);
        pdu[at], pdu[at + 1] := (length - 269) / 256, (length - 269) % 256;
        next := at + 2;
        assert pdu[..] ==
               d[position := OrLow(d[position], 14)][at := (length - 269) / 256][at + 1 := (length - 269) % 256];
      }
    }

    /** The header of `insertOption`. */
    method StoreHeaderAt(position: nat, delta: nat, length: nat, ghost size: nat) returns (next: nat)
      requires delta < 65536 && length < 65536 && OptionSize(delta, length) <= size && position + size <= pdu.Length
      modifies pdu
      ensures next == position + ExtraBytes(delta) + ExtraBytes(length)
      ensures var hole := old(pdu[..])[position..position + size];
              pdu[..] == Splice(old(pdu[..]), position, size,
                                StoreLength(StoreDelta(hole, delta), ExtraBytes(delta), length))
    {
      hide Splice, StoreDelta, StoreLength;
      ghost var before := pdu[..];
      ghost var h1 := StoreDelta(before[position..position + size], delta);
      next := StoreDeltaAt(position, delta, size);
      SpliceTwice(before, position, size, h1, StoreLength(h1, ExtraBytes(delta), length));
      next := StoreLengthAt(position, next, length, size);
    }

    /** `insertOption`: writes an option into the hole of its size at `position`. */
    method InsertOption(position: nat, delta: nat, value: seq<byte>)
      requires delta < 65536 && |value| < 65536 && position + OptionSize(delta, |value|) <= pdu.Length
      modifies pdu
      ensures var size := OptionSize(delta, |value|);
              pdu[..] == Splice(old(pdu[..]), position, size,
                                Stored(delta, value, old(pdu[..])[position..position + size]))
    {
      hide StoreDelta, StoreLength, Splice, Stored;
      ghost var size := OptionSize(delta, |value|);
      ghost var hole := pdu[..][position..position + size];
      ghost var h := StoreLength(StoreDelta(hole, delta), ExtraBytes(delta), |value|);
      ghost var before := pdu[..];
      var at := StoreHeaderAt(position, delta, |value|, size);
      Memcpy(at + 1, value[..CopyLength(|value|)]);
      SpliceInside(before, position, size, h, at - position + 1, value[..CopyLength(|value|)]);
      StoredBySteps(delta, value, hole);
    }

    method Memcpy(at: nat, v: seq<byte>)
      requires at + |v| <= pdu.Length
      modifies pdu
      ensures pdu[..] == Splice(old(pdu[..]), at, |v|, v)
    {
      forall i | 0 <= i < |v| {
        pdu[at + i] := v[i];
      }
    }

    /** `setOptionDelta`, on the header at `position`. */
    method SetOptionDelta(position: nat, delta: nat)
      requires delta < 65536 && position < pdu.Length
      requires position + |Redelta(pdu[position], delta)| <= pdu.Length
      modifies pdu
      ensures var r := Redelta(old(pdu[position]), delta);
              pdu[..] == Splice(old(pdu[..]), position, |r|, r)
    {
      pdu[position] := pdu[position] % 16;
      if delta < 13 {
        pdu[position] := delta * 16 + pdu[position];
      } else if delta < 269 {
        pdu[position] := 0xD0 + pdu[position];
        pdu[position + 1] := delta - 13;
      } else {
        pdu[position], pdu[position + 1] := (delta - 269) / 256, (delta - 269) % 256;
      }
    }

    /** `findInsertionPosition`: where option `number` goes, and the number of the option before. */
    method FindInsertionPosition(number: nat) returns (position: nat, prev: nat)
      requires Holds() && number < 65536
      ensures OptionsStart() <= position <= pduLength
      ensures Walked(Options, Position(Options, number), position - OptionsStart(), prev) && prev <= number
    {
      hide Walked;
      if number >= maxAddedOptionNumber || pduLength == OptionsStart() {
        AtEnd(Options, number);
        WalkEnd(Options);
        return pduLength, maxAddedOptionNumber;
      }
      var offset: nat;
      offset, prev := FindAmong(pdu[OptionsStart()..pduLength], number, Options);
      position := OptionsStart() + offset;
      WalkInside(Options, Position(Options, number), offset, prev);
    }

    /** The branch of `addOption` for the end of the PDU; `hole` is what the memory there has held. */
    method AppendOption(delta: nat, value: seq<byte>) returns (ok: bool, ghost hole: seq<byte>)
      requires Valid() && delta < 65536 && |value| <= 65530
      modifies this`pdu, this`pduLength, pdu
      ensures pdu == old(pdu) || fresh(pdu)
      ensures ok <==> !constructedFromBuffer || old(pduLength) + OptionSize(delta, |value|) <= old(pdu.Length)
      ensures pduLength <= pdu.Length && (!constructedFromBuffer ==> pdu.Length == pduLength)
      ensures !ok ==> pdu == old(pdu) && Contents() == old(Contents())
      ensures ok ==> |Contents()| == |old(Contents())| + OptionSize(delta, |value|) && old(Contents()) <= Contents()
      ensures ok ==> |hole| == OptionSize(delta, |value|) && Contents() == old(Contents()) + Stored(delta, value, hole)
      ensures ok && Short(delta) && Short(|value|) ==> Contents() == old(Contents()) + OptionBytes(delta, value)
    {
      hide Stored, OptionBytes, Splice;
      var position := pduLength;
      var size := OptionSize(delta, |value|);
      hole := [];
      ok := Grow(size);
      if ok {
        ghost var before := pdu[..];
        hole := before[position..position + size];
        hide OptionSize;
        InsertOption(position, delta, value);
        SpliceAtEnd(before, position, size, Stored(delta, value, hole));
        assert Contents() == pdu[..][..position + size] == old(Contents()) + Stored(delta, value, hole);
        if Short(delta) && Short(|value|) {
          StoredIsOption(delta, value, hole);
        }
      }
    }

    /** Makes `growth` octets of room at `position`, moving the rest of the PDU up. */
    method MakeRoom(position: nat, growth: nat) returns (ok: bool)
      requires Valid() && COAP_HDR_SIZE <= position <= pduLength
      modifies this`pdu, this`pduLength, pdu
      ensures pdu == old(pdu) || fresh(pdu)
      ensures ok <==> !constructedFromBuffer || old(pduLength) + growth <= old(pdu.Length)
      ensures pduLength <= pdu.Length && (!constructedFromBuffer ==> pdu.Length == pduLength)
      ensures !ok ==> pdu == old(pdu) && Contents() == old(Contents())
      ensures ok ==> Roomy(old(Contents()), Contents(), position, growth)
    {
      ghost var x := Contents();
      ok := Grow(growth);
      if ok {
        ShiftBehind(position, growth, x);
      }
    }

    method ShiftBehind(position: nat, growth: nat, ghost x: seq<byte>)
      requires pduLength <= pdu.Length && |x| + growth == pduLength && position <= |x| && Contents()[..|x|] == x
      modifies pdu
      ensures Roomy(x, Contents(), position, growth)
    {
      ghost var c := Contents();
      assert |c| == pduLength && c == c[..|x|] + c[|x|..];
      hide *;
      ShiftPDUUp(growth, pduLength - (position + growth));
      ShiftShape(x, c[|x|..], position, Contents());
    }

    /** Moves the option header at `from` to `to` and gives it a new delta. */
    method RewriteDelta(from: nat, to: nat, newDelta: nat)
      requires pduLength <= pdu.Length && from < pduLength && newDelta < 65536
      requires to + |Redelta(pdu[from], newDelta)| <= pduLength
      modifies pdu
      ensures var d := old(Contents());
              var r := Redelta(d[from], newDelta);
              Contents() == Splice(d[to := d[from]], to, |r|, r)
    {
      hide Splice, Redelta;
      ghost var d := Contents();
      RedeltaLength(pdu[from], newDelta);
      pdu[to] := pdu[from];
      ghost var e := pdu[..];
      assert e[..pduLength] == d[to := d[from]];
      ghost var r := Redelta(d[from], newDelta);
      SetOptionDelta(to, newDelta);
      SplicePrefix(e, pduLength, to, |r|, r);
    }

    /** The hole of `addOption`: moves the rest of the PDU up and gives the next option, whose
        delta was `delta`, the delta `newDelta`. */
    method OpenGap(position: nat, size: nat, delta: nat, newDelta: nat) returns (ok: bool)
      requires Valid() && newDelta <= delta < 65536 && ExtraBytes(delta) <= ExtraBytes(newDelta) + size
      requires COAP_HDR_SIZE <= position && position + Replaced(delta, newDelta) <= pduLength
      modifies this`pdu, this`pduLength, pdu
      ensures pdu == old(pdu) || fresh(pdu)
      ensures var extra := size + ExtraBytes(newDelta) - ExtraBytes(delta);
              ok <==> !constructedFromBuffer || old(pduLength) + extra <= old(pdu.Length)
      ensures pduLength <= pdu.Length && (!constructedFromBuffer ==> pdu.Length == pduLength)
      ensures !ok ==> pdu == old(pdu) && Contents() == old(Contents())
      ensures ok ==> Gapped(old(Contents()), Contents(), position, size, delta, newDelta)
    {
      hide Roomy, Gapped, Splice, Redelta;
      var adjustment := ExtraBytes(newDelta) - ExtraBytes(delta);
      var growth := size + adjustment;
      ghost var x := Contents();
      ok := MakeRoom(position, growth);
      if ok {
        ghost var d := Contents();
        RoomSize(x, d, position, growth);
        RedeltaLength(x[position], newDelta);
        RewriteDelta(position + growth, position + size, newDelta);
        GapShape(x, d, position, size, delta, newDelta, Contents());
      }
    }

    /** The branch of `addOption` for an option that goes before another one. */
    method InsertBefore(position: nat, optionDelta: nat, value: seq<byte>, delta: nat, newDelta: nat)
      returns (ok: bool, ghost hole: seq<byte>)
      requires Valid() && newDelta <= delta < 65536 && optionDelta < 65536 && |value| <= 65530
      requires ExtraBytes(delta) <= ExtraBytes(newDelta) + OptionSize(optionDelta, |value|)
      requires COAP_HDR_SIZE <= position && position + Replaced(delta, newDelta) <= pduLength
      modifies this`pdu, this`pduLength, pdu
      ensures pdu == old(pdu) || fresh(pdu)
      ensures var extra := OptionSize(optionDelta, |value|) + ExtraBytes(newDelta) - ExtraBytes(delta);
              ok <==> !constructedFromBuffer || old(pduLength) + extra <= old(pdu.Length)
      ensures pduLength <= pdu.Length && (!constructedFromBuffer ==> pdu.Length == pduLength)
      ensures !ok ==> pdu == old(pdu) && Contents() == old(Contents())
      ensures ok ==> Gapped(old(Contents()), Contents(), position, OptionSize(optionDelta, |value|), delta, newDelta)
      ensures ok ==>
                var end := position + OptionSize(optionDelta, |value|);
                |hole| == OptionSize(optionDelta, |value|) && end <= |Contents()| &&
                Contents()[position..end] == Stored(optionDelta, value, hole)
    {
      hide Gapped, Splice, Stored, OptionSize, OptionBytes;
      var size := OptionSize(optionDelta, |value|);
      hole := [];
      ghost var x := Contents();
      ok := OpenGap(position, size, delta, newDelta);
      if ok {
        ghost var y := Contents();
        GapSize(x, y, position, size, delta, newDelta);
        ghost var before := pdu[..];
        hole := before[position..position + size];
        ghost var r := Stored(optionDelta, value, hole);
        InsertOption(position, optionDelta, value);
        SplicePrefix(before, pduLength, position, size, r);
        assert Contents() == Splice(y, position, size, r);
        GapFilled(x, y, position, size, delta, newDelta, r);
      }
    }

    /** `addOption` when the position found is the end of the PDU. */
    method AddLast(prev: nat, number: nat, value: seq<byte>) returns (ok: bool, ghost hole: seq<byte>)
      requires Encoded() && number < 65536 && |value| <= 65530 && prev <= number
      requires Position(Options, number) == |Options| && Walked(Options, |Options|, pduLength - OptionsStart(), prev)
      modifies this`pdu, this`pduLength, pdu
      ensures Valid() && (pdu == old(pdu) || fresh(pdu)) && OptionsStart() == old(OptionsStart())
      ensures ok ==> Became(old(Contents()), Contents(), OptionsStart(), Options, Option(number, value), hole)
      ensures !ok ==> Contents() == old(Contents()) &&
                      constructedFromBuffer && NoRoom(OptionsStart(), Options, Option(number, value), pdu.Length)
    {
      ghost var x, start, o := Contents(), OptionsStart(), Option(number, value);
      assert x[start..] == Encode(0, Options) && start <= |x| == pduLength;
      assert Encodable(0, Options) && Fits16(Options) && Valid();
      ghost var offset, room := pduLength - start, pdu.Length;
      hide *;
      ok, hole := AppendKeeping(number - prev, value);
      if ok {
        LastDone(x, start, Options, o, offset, prev, hole);
      } else {
        LastIsAdded(x, start, Options, o, offset, prev, room);
      }
    }

    /** `AppendOption` leaves the header alone. */
    method AppendKeeping(delta: nat, value: seq<byte>) returns (ok: bool, ghost hole: seq<byte>)
      requires Valid() && delta < 65536 && |value| <= 65530
      modifies this`pdu, this`pduLength, pdu
      ensures Valid() && (pdu == old(pdu) || fresh(pdu)) && OptionsStart() == old(OptionsStart())
      ensures ok ==> |hole| == OptionSize(delta, |value|) && Contents() == old(Contents()) + Stored(delta, value, hole)
      ensures !ok ==> Contents() == old(Contents()) && constructedFromBuffer && pdu.Length == old(pdu.Length) &&
                      |old(Contents())| + OptionSize(delta, |value|) > pdu.Length
    {
      hide Stored, OptionSize, OptionBytes;
      ghost var x := Contents();
      ok, hole := AppendOption(delta, value);
      assert pdu[0] == Contents()[0] == x[0];
    }

    /** `addOption` when another option follows. */
    method AddMiddle(position: nat, prev: nat, number: nat, value: seq<byte>) returns (ok: bool, ghost hole: seq<byte>)
      requires Encoded() && number < 65536 && |value| <= 65530 && prev <= number
      requires OptionsStart() <= position < pduLength && Position(Options, number) < |Options|
      requires Walked(Options, Position(Options, number), position - OptionsStart(), prev)
      modifies this`pdu, this`pduLength, pdu
      ensures Valid() && (pdu == old(pdu) || fresh(pdu)) && OptionsStart() == old(OptionsStart())
      ensures ok ==> Became(old(Contents()), Contents(), OptionsStart(), Options, Option(number, value), hole)
      ensures !ok ==> Contents() == old(Contents()) &&
                      constructedFromBuffer && NoRoom(OptionsStart(), Options, Option(number, value), pdu.Length)
    {
      hide Walked, Encode, Encodable, OptionBytes, OptionSize, Small, Insert, Position, Added, AddedAs, NoRoom, Stored;
      hide OptionDelta, HeaderFits, Gapped, Filled, Replaced, ExtraBytes, Fits16, LastNumber;
      ghost var x, start, o := Contents(), OptionsStart(), Option(number, value);
      assert x[start..] == Encode(0, Options);
      var s := pdu[position..pduLength];
      assert s == x[start..][position - start..];
      NextOption(Options, number, |value|, position - start, prev);
      var delta := OptionDelta(s);
      var newDelta := prev + delta - number;
      ok, hole := InsertBefore(position, number - prev, value, delta, newDelta);
      if ok {
        MiddleDone(x, Contents(), start, Options, o, position - start, prev, hole);
        assert pdu[0] == Contents()[0];
      } else {
        MiddleNoRoom(x, start, Options, o, position - start, prev, Position(Options, number), pdu.Length);
      }
    }

    /** `addOption`; `ok` is its return value 0, and `hole` is what the memory has held where the option
        goes: it decides with the arguments about all octets. For small deltas and lengths the option list
        becomes the stable insertion of the new option. Header and token never change, the PDU
        never gets shorter, and a refused option leaves all octets as they were. */
    method AddOption(number: nat, value: seq<byte>) returns (ok: bool, ghost hole: seq<byte>)
      requires Holds() && number < 65536 && |value| <= 65530
      modifies this, pdu
      ensures Valid() && (pdu == old(pdu) || fresh(pdu))
      ensures OptionsStart() == old(OptionsStart())
      ensures ok ==> Became(old(Contents()), Contents(), OptionsStart(), old(Options), Option(number, value), hole)
      ensures ok && Small(old(Options), Option(number, value)) ==>
                Holds() && Options == Insert(old(Options), Option(number, value))
      ensures !ok ==> Contents() == old(Contents()) && Options == old(Options) &&
                      constructedFromBuffer && NoRoom(OptionsStart(), Options, Option(number, value), pdu.Length)
      ensures var last := Position(old(Options), number) == |old(Options)|;
              maxAddedOptionNumber == (if last then number else old(maxAddedOptionNumber)) &&
              numOptions == old(numOptions) + if ok && last then 1 else 0
    {
      hide Walked, Encode, Encodable, Small, Insert, Position, Added, AddedAs, NoRoom, Fits16, LastNumber;
      var position, prev := FindInsertionPosition(number);
      WalkInside(Options, Position(Options, number), position - OptionsStart(), prev);
      if position == pduLength {
        maxAddedOptionNumber := number;
        ok, hole := AddLast(prev, number, value);
        if ok { numOptions := numOptions + 1; }
      } else {
        ok, hole := AddMiddle(position, prev, number, value);
      }
      ghost var o := Option(number, value);
      if ok && Small(Options, o) {
        InsertLastNumber(Options, o);
        InsertFits16(Options, o);
        AddedSmall(old(Contents()), Contents(), OptionsStart(), Options, o);
        assert pdu[OptionsStart()..pduLength] == Contents()[OptionsStart()..];
        Options := Insert(Options, o);
      }
    }

    /** `setTokenLength`: lengths above 8 are ignored. */
    method SetTokenLength(n: nat)
      requires pdu.Length > 0
      modifies pdu
      ensures pdu[..] == old(pdu[..])[0 := WithTokenLength(old(pdu[0]), n)]
    {
      if n > 8 { return; }
      pdu[0] := pdu[0] / 16 * 16 + n;
    }

    /** Shortens the PDU, and its own memory with it. */
    method Shrink(newLength: nat)
      requires newLength <= pduLength <= pdu.Length
      modifies this`pdu, this`pduLength
      ensures pdu == old(pdu) || fresh(pdu)
      ensures pduLength == newLength <= pdu.Length && (!constructedFromBuffer ==> pdu.Length == pduLength)
      ensures Contents() == old(Contents()[..newLength])
    {
      if !constructedFromBuffer {
        var memory := pdu;
        var newMemory := new byte[newLength];
        forall i | 0 <= i < newLength {
          newMemory[i] := memory[i];
        }
        pdu := newMemory;
      }
      pduLength := newLength;
    }

    /** `setToken` for a longer token. */
    method LengthenToken(token: seq<byte>) returns (ok: bool)
      requires Valid() && GetTokenLength() < |token| <= 255 && pduLength <= 255
      modifies this`pdu, this`pduLength, pdu
      ensures pduLength <= pdu.Length && (pdu == old(pdu) || fresh(pdu))
      ensures !ok ==> Contents() == old(Contents()) && pdu == old(pdu)
      ensures ok <==> !constructedFromBuffer || old(pduLength) - old(GetTokenLength()) + |token| <= old(pdu.Length)
      ensures ok ==> Contents() == Tokened(old(Contents()), token)
      ensures ok && !constructedFromBuffer ==> pdu.Length == pduLength
    {
      hide Splice, Tokened, WithTokenLength;
      ghost var m := Contents();
      var oldTokenLength := GetTokenLength();
      var oldPDULength := pduLength % 256;
      TokenShiftInBounds(pduLength, oldTokenLength, |token|);
      ok := Grow(|token| - oldTokenLength);
      if ok {
        assert Contents()[..|m|] == m;
        PlaceToken(oldPDULength, token, m);
      }
    }

    /** Moves what is behind the old token of `m` to the end of the PDU, which has grown, and puts the
        new one into its place. */
    method PlaceToken(oldPDULength: nat, token: seq<byte>, ghost m: seq<byte>)
      requires pduLength <= pdu.Length && COAP_HDR_SIZE <= oldPDULength == |m| && COAP_HDR_SIZE + m[0] % 16 <= |m|
      requires m[0] % 16 < |token| <= 255 && pduLength == |m| - m[0] % 16 + |token| && Contents()[..|m|] == m
      modifies pdu
      ensures Contents() == Tokened(m, token)
    {
      ghost var c := Contents();
      assert |c| == pduLength;
      hide *;
      var shiftOffset := pduLength - oldPDULength;
      var shiftAmount := pduLength - |token| - COAP_HDR_SIZE;
      ShiftPDUUp(shiftOffset, shiftAmount);
      TokenGrows(m, c, Contents(), token);
      WriteToken(token);
    }

    /** `setToken` for a shorter token. */
    method ShortenToken(token: seq<byte>)
      requires Valid() && 0 < |token| < GetTokenLength() && pduLength <= 255
      modifies this`pdu, this`pduLength, pdu
      ensures pduLength <= pdu.Length && (pdu == old(pdu) || fresh(pdu))
      ensures Contents() == Tokened(old(Contents()), token)
      ensures !constructedFromBuffer ==> pdu.Length == pduLength
    {
      hide Splice, Tokened, WithTokenLength;
      ghost var m, all := Contents(), pdu[..];
      var oldTokenLength := GetTokenLength();
      var oldPDULength := pduLength % 256;
      var newLength := pduLength - oldTokenLength + |token|;
      TokenShiftInBounds(pduLength, oldTokenLength, |token|);
      SplicePrefix(all, pduLength, COAP_HDR_SIZE, |token|, token);
      Memcpy(COAP_HDR_SIZE, token);
      ghost var c := Contents();
      MoveDown(COAP_HDR_SIZE + |token|, oldPDULength - newLength, oldPDULength - oldTokenLength - COAP_HDR_SIZE);
      TokenShrinks(m, c, Contents(), token);
      Shrink(newLength);
      SetTokenLength(|token|);
    }

    /** `shiftPDUDown` on octets that end the PDU. */
    method MoveDown(start: nat, offset: nat, amount: nat)
      requires pduLength <= pdu.Length && start + offset + amount == pduLength
      modifies pdu
      ensures Contents()[..start] == old(Contents()[..start])
      ensures Contents()[start..start + amount] == old(Contents()[start + offset..])
    {
      ghost var was := pdu[..];
      ShiftPDUDown(start, offset, amount);
      SliceOfPrefix(was, pduLength, start, offset);
      SliceOfPrefix(pdu[..], pduLength, start, amount);
    }

    /** Copies the token into its place and sets its length. */
    method WriteToken(token: seq<byte>)
      requires pduLength <= pdu.Length && COAP_HDR_SIZE + |token| <= pduLength
      modifies pdu
      ensures var e := Splice(old(Contents()), COAP_HDR_SIZE, |token|, token);
              Contents() == e[0 := WithTokenLength(e[0], |token|)]
    {
      ghost var all := pdu[..];
      SplicePrefix(all, pduLength, COAP_HDR_SIZE, |token|, token);
      hide Splice, WithTokenLength;
      Memcpy(COAP_HDR_SIZE, token);
      ghost var e := pdu[..];
      SetTokenLength(|token|);
      assert Contents() == e[..pduLength][0 := WithTokenLength(e[0], |token|)];
    }

    /** `setToken`. The old length of the PDU is kept in 8 bits, hence the bound on it when the
        token changes its length. Everything but the token and its length stays as it was. */
    method SetToken(token: seq<byte>) returns (ok: bool)
      requires Valid() && |token| <= 255 && (|token| == GetTokenLength() || pduLength <= 255)
      modifies this`pdu, this`pduLength, pdu
      ensures pduLength <= pdu.Length && (pdu == old(pdu) || fresh(pdu))
      ensures !ok ==> Contents() == old(Contents()) && pdu == old(pdu)
      ensures ok <==> token != [] && (!constructedFromBuffer || |token| <= old(GetTokenLength()) ||
                                      old(pduLength) - old(GetTokenLength()) + |token| <= old(pdu.Length))
      ensures ok ==> Contents() == Tokened(old(Contents()), token)
      ensures !constructedFromBuffer ==> pdu.Length == pduLength
    {
      hide Splice, Tokened;
      if token == [] { return false; }
      ghost var m := Contents();
      if |token| == GetTokenLength() {
        ghost var all := pdu[..];
        SplicePrefix(all, pduLength, COAP_HDR_SIZE, |token|, token);
        TokenSame(m, token);
        Memcpy(COAP_HDR_SIZE, token);
        return true;
      }
      if |token| > GetTokenLength() {
        ok := LengthenToken(token);
      } else {
        ShortenToken(token);
        ok := true;
      }
    }
  }
}
