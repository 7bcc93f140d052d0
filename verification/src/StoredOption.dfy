/** The octets that cantcoap's `insertOption` and `setOptionDelta` leave in the buffer, for
    every delta and length, the two-octet extensions included.

    A two-octet extension is stored over the octet before it, so the result depends on what
    the memory held.  `StoredIsOption` and `StoredFails` say exactly when that matters.
 */
module StoredOption {
  import opened Wire

  /** The extension octets the code reserves for `n`. */
  function ExtraBytes(n: nat): (r: nat)
    ensures n <= MAX_FIELD ==> r == |Extension(n)|
  {
    if n < 13 then 0 else if n < 269 then 1 else 2
  }

  function OptionSize(delta: nat, length: nat): nat {
    1 + ExtraBytes(delta) + ExtraBytes(length) + length
  }

  function OrNibble(a: nat, b: nat): (r: nat)
    requires a < 16 && b < 16
    ensures r < 16 && (a == 0 ==> r == b)
  {
    if a == 0 then b else ((a as bv4) | (b as bv4)) as nat
  }

  /** `b |= n` for a value `n` below 16. */
  function OrLow(b: byte, n: nat): byte
    requires n < 16
  {
    b / 16 * 16 + OrNibble(b % 16, n)
  }

  /** A two-octet big-endian store at offset `at`. */
  function Store16(h: seq<byte>, at: nat, n: nat): (r: seq<byte>)
    requires at + 1 < |h| && n < 65536
    ensures |r| == |h|
  {
    h[at := n / 256][at + 1 := n % 256]
  }

  /** The delta part: the memory afterwards. The write position has moved by `ExtraBytes(delta)`. */
  function StoreDelta(h: seq<byte>, delta: nat): (r: seq<byte>)
    requires delta < 65536 && ExtraBytes(delta) < |h|
    ensures |r| == |h|
  {
    if delta < 13 then h[0 := delta * 16]
    else if delta < 269 then h[0 := 0xD0][1 := delta - 13]
    else Store16(h[0 := 0xE0], 0, delta - 269)
  }

  /** The length part, with the write position at `at`. */
  function StoreLength(h: seq<byte>, at: nat, length: nat): (r: seq<byte>)
    requires length < 65536 && at + ExtraBytes(length) < |h|
    ensures |r| == |h|
  {
    if length < 13 then h[0 := OrLow(h[0], length)]
    else if length < 269 then h[0 := OrLow(h[0], 13)][at + 1 := length - 13]
    else Store16(h[0 := OrLow(h[0], 14)], at, length - 269)
  }

  /** The length that the value copy uses: the long form has subtracted 269 from it. */
  function CopyLength(length: nat): (r: nat)
    ensures r <= length
  {
    if length < 269 then length else length - 269
  }

  /** The option written into the memory `hole`. */
  function Stored(delta: nat, value: seq<byte>, hole: seq<byte>): (r: seq<byte>)
    requires delta < 65536 && |value| < 65536 && |hole| == OptionSize(delta, |value|)
    ensures |r| == |hole|
  {
    var at := ExtraBytes(delta);
    var h := StoreLength(StoreDelta(hole, delta), at, |value|);
    var start := at + ExtraBytes(|value|) + 1;
    var n := CopyLength(|value|);
    h[..start] + value[..n] + h[start + n..]
  }

  predicate Short(n: nat) { n < 269 }

  /** Deltas and lengths below 269 give the option of the specification, whatever the memory held. */
  lemma StoredIsOption(delta: nat, value: seq<byte>, hole: seq<byte>)
    requires Short(delta) && Short(|value|) && |hole| == OptionSize(delta, |value|)
    ensures Stored(delta, value, hole) == OptionBytes(delta, value)
  {
    hide StoreDelta, StoreLength, Extension, Nibble;
    var at := ExtraBytes(delta);
    var h1 := StoreDelta(hole, delta);
    StoreDeltaShort(hole, delta);
    var h := StoreLength(h1, at, |value|);
    StoreLengthShort(h1, at, |value|);
    var start := at + ExtraBytes(|value|) + 1;
    assert h[..start] == [h[0]] + h[1..1 + at] + h[1 + at..start] == Header(delta, |value|);
    assert value[..|value|] == value && h[start + |value|..] == [];
  }

  lemma StoreDeltaShort(h: seq<byte>, delta: nat)
    requires Short(delta) && ExtraBytes(delta) < |h|
    ensures var r := StoreDelta(h, delta);
            r[0] == Nibble(delta) * 16 && r[1..1 + ExtraBytes(delta)] == Extension(delta)
  {
  }

  lemma StoreLengthShort(h: seq<byte>, at: nat, length: nat)
    requires Short(length) && at + ExtraBytes(length) < |h| && h[0] % 16 == 0
    ensures var r := StoreLength(h, at, length);
            r[0] == h[0] + Nibble(length) && r[1..1 + at] == h[1..1 + at] &&
            r[1 + at..1 + at + ExtraBytes(length)] == Extension(length)
  {
  }

  /** Memory for which a long option is not the one asked for. */
  function Stale(value: seq<byte>, size: nat): (h: seq<byte>)
    requires size >= 1
    ensures |h| == size
  {
    var last: byte := if value != [] && value[|value| - 1] == 0 then 1 else 0;
    seq(size - 1, _ => 0) + [if |value| < 269 then 0 else last]
  }

  /** A delta or a length of 269 or more is not stored as the option asked for, on that memory. */
  lemma StoredFails(delta: nat, value: seq<byte>)
    requires delta < 65536 && |value| < 65536 && !(Short(delta) && Short(|value|))
    ensures var n := OptionSize(delta, |value|);
            ParseOption(Stored(delta, value, Stale(value, n))) != Parsed(delta, value, n)
  {
    hide ParseOption, Stored;
    var n := OptionSize(delta, |value|);
    var hole := Stale(value, n);
    var s := Stored(delta, value, hole);
    if ParseOption(s) == Parsed(delta, value, n) {
      if |value| >= 269 {
        LongValueKeepsLast(delta, value, hole);
        ParsedLast(s, delta, value);
        assert false;
      } else {
        LongDeltaHeader(delta, value, hole);
        ParsedDelta(s, delta, value);
        assert false;
      }
    }
  }

  lemma ParsedDelta(s: seq<byte>, delta: nat, value: seq<byte>)
    requires ParseOption(s) == Parsed(delta, value, |s|) && delta >= 269
    ensures |s| >= 3 && s[0] / 16 == 14 && delta == s[1] as int * 256 + s[2] as int + 269
  {
    var d := ExtensionLength(s[0] / 16);
    assert d == 2 ==> s[1..1 + d][0] == s[1] && s[1..1 + d][1] == s[2];
  }

  lemma LongValueKeepsLast(delta: nat, value: seq<byte>, hole: seq<byte>)
    requires delta < 65536 && 269 <= |value| < 65536 && |hole| == OptionSize(delta, |value|)
    ensures Stored(delta, value, hole)[|hole| - 1] == hole[|hole| - 1]
  {
  }

  lemma ParsedLast(s: seq<byte>, delta: nat, value: seq<byte>)
    requires ParseOption(s) == Parsed(delta, value, |s|) && value != []
    ensures s[|s| - 1] == value[|value| - 1]
  {
    var d := ExtensionLength(s[0] / 16);
    var l := ExtensionLength(s[0] % 16);
    assert value == s[1 + d + l..];
  }

  lemma LongDeltaHeader(delta: nat, value: seq<byte>, hole: seq<byte>)
    requires 269 <= delta < 65536 && |value| < 269 && |hole| == OptionSize(delta, |value|)
    ensures var s := Stored(delta, value, hole);
            s[0] / 16 == (delta - 269) / 256 / 16 && s[1] == (delta - 269) % 256 && s[2] == hole[2]
  {
  }

  /** The octets of a long delta and of a long length: the first one lies over the header, one octet of the
      memory stays, and a long value loses its last 269 octets. */
  lemma LongOctets(delta: nat, value: seq<byte>, hole: seq<byte>)
    requires delta < 65536 && |value| < 65536 && |hole| == OptionSize(delta, |value|)
    ensures delta >= 269 && |value| < 13 && delta - 269 < 0x1000 ==>
              var n := delta - 269;
              Stored(delta, value, hole) == [OrNibble(n / 256, |value|), n % 256, hole[2]] + value
    ensures delta < 13 && |value| >= 269 ==>
              var m := |value| - 269;
              Stored(delta, value, hole) == [m / 256, m % 256, hole[2]] + value[..m] + hole[3 + m..]
  {
    hide OrNibble;
    if delta >= 269 && |value| < 13 { assert |hole| == 3 + |value|; }
  }

  /** The exact condition, in terms of what a caller passes: a stored option can be read back
      on every memory if and only if delta and length are below 269. */
  lemma StoredIffShort(delta: nat, value: seq<byte>)
    requires delta < 65536 && |value| < 65536
    ensures (forall hole: seq<byte> | |hole| == OptionSize(delta, |value|) ::
               ParseOption(Stored(delta, value, hole)) == Parsed(delta, value, |hole|))
            <==> Short(delta) && Short(|value|)
  {
    if Short(delta) && Short(|value|) {
      forall hole: seq<byte> | |hole| == OptionSize(delta, |value|)
        ensures ParseOption(Stored(delta, value, hole)) == Parsed(delta, value, |hole|)
      {
        StoredIsOption(delta, value, hole);
        ParseOptionBytes(delta, value, []);
        assert OptionBytes(delta, value) + [] == OptionBytes(delta, value);
      }
    } else {
      StoredFails(delta, value);
      assert |Stale(value, OptionSize(delta, |value|))| == OptionSize(delta, |value|);
    }
  }

  /** The header of the option that follows an insertion, after `setOptionDelta`. */
  function Redelta(b: byte, delta: nat): seq<byte>
    requires delta < 65536
  {
    if delta < 269 then [Nibble(delta) * 16 + b % 16] + Extension(delta)
    else [(delta - 269) / 256, (delta - 269) % 256]
  }
}
