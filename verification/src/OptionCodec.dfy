/** libcoap's codec for a single option (option.c), compared with the format of `Wire`. */
module OptionCodec {
  import opened Arithmetic
  import opened Wire
  import opened Wrappers

  // ----- reading -----

  /** What `coap_opt_parse` accepts: a delta is kept in 16 bits, and only some of the values that
      do not fit are refused. */
  function Parse(s: seq<byte>): Parsed {
    var p := ParseOption(s);
    if p.Malformed? || p.delta >= 65549 then Malformed else p.(delta := p.delta % 65536)
  }

  /** The parser and the format agree exactly on the deltas that fit 16 bits. */
  lemma ParseIffNarrow(s: seq<byte>)
    ensures Parse(s) == ParseOption(s) <==> ParseOption(s).Malformed? || ParseOption(s).delta < 65536
  {
    hide ParseOption;
  }

  /** A field whose extension, if any, follows the octet at `opt`; `left` counts the octets from
      there to the end of the message. */
  function FieldAt(mem: seq<byte>, nibble: nat, opt: nat, left: nat): (f: Maybe<nat>)
    requires opt + left < |mem|
  {
    var k := ExtensionLength(nibble);
    if nibble < 15 && k <= left then Some(Field(nibble, mem[opt + 1..opt + 1 + k])) else None
  }

  /** The delta, and the position of the last octet that is looked at, `top`. */
  method ReadDelta(mem: seq<byte>, n: nat) returns (ok: bool, opt: nat, left: nat, delta: nat, ghost top: nat)
    requires 0 < n < |mem|
    ensures ok ==> top == opt
    ensures top <= n && (top == n <==> DeltaAtEnd(mem, n))
    ensures var f := FieldAt(mem, mem[0] as nat / 16, 0, n);
            (ok <==> f.Some? && f.value < 65549) &&
            (ok ==> opt == ExtensionLength(mem[0] as nat / 16) && left == n - opt && delta == f.value % 65536)
  {
    ok, opt, left := false, 0, n;
    delta, top := mem[0] as nat / 16, 0;
    if delta == 15 { return; }
    var nibble := delta;
    if nibble == 14 {
      opt, left := opt + 1, left - 1;
      top := opt;
      delta := (mem[opt] as nat * 256 + 269) % 65536;
      if delta < 269 { return; }
    }
    if nibble >= 13 {
      if left < 1 { return; }
      opt, left := opt + 1, left - 1;
      top := opt;
      delta := (delta + mem[opt] as nat) % 65536;
    }
    ok := true;
  }

  method ReadLength(mem: seq<byte>, opt0: nat, left0: nat)
    returns (ok: bool, opt: nat, left: nat, length: nat, ghost top: nat)
    requires opt0 + left0 < |mem|
    ensures opt0 <= top <= opt0 + left0
    ensures top == opt0 + left0 <==> left0 == 0 || (mem[0] % 16 < 15 && left0 <= ExtensionLength(mem[0] as nat % 16))
    ensures var f := FieldAt(mem, mem[0] as nat % 16, opt0, left0);
            (ok <==> f.Some?) &&
            (ok ==>
               opt == opt0 + ExtensionLength(mem[0] as nat % 16) && left == left0 + opt0 - opt && length == f.value)
  {
    ok, opt, left, top := false, opt0, left0, opt0;
    length := mem[0] as nat % 16;
    if length == 15 { return; }
    var nibble := length;
    if nibble == 14 {
      if left < 1 { return; }
      opt, left := opt + 1, left - 1;
      top := opt;
      length := mem[opt] as nat * 256 + 269;
    }
    if nibble >= 13 {
      if left < 1 { return; }
      opt, left := opt + 1, left - 1;
      top := opt;
      length := length + mem[opt] as nat;
    }
    ok := true;
  }

  lemma PrefixSlice(mem: seq<byte>, n: nat, i: nat, j: nat)
    requires i <= j <= n <= |mem|
    ensures mem[..n][i..j] == mem[i..j]
  {
  }

  lemma ParseUnfold(s: seq<byte>)
    requires s != []
    ensures var d, l := ExtensionLength(s[0] / 16), ExtensionLength(s[0] % 16);
            if s[0] / 16 == 15 || s[0] % 16 == 15 || |s| < 1 + d + l then Parse(s).Malformed?
            else
              var f, g := Field(s[0] / 16, s[1..1 + d]), Field(s[0] % 16, s[1 + d..1 + d + l]);
              Parse(s) == if f >= 65549 || |s| < 1 + d + l + g then Malformed
                          else Parsed(f % 65536, s[1 + d + l..1 + d + l + g], 1 + d + l + g)
  {
    hide Field;
  }

  lemma ParseFields(mem: seq<byte>, n: nat)
    requires 0 < n < |mem|
    ensures var f, d := FieldAt(mem, mem[0] as nat / 16, 0, n), ExtensionLength(mem[0] as nat / 16);
            if f.None? || f.value >= 65549 then Parse(mem[..n]).Malformed?
            else
              var g, l := FieldAt(mem, mem[0] as nat % 16, d, n - d), ExtensionLength(mem[0] as nat % 16);
              if g.None? || n - d - l < 1 + g.value then Parse(mem[..n]).Malformed?
              else Parse(mem[..n]) == Parsed(f.value % 65536, mem[1 + d + l..1 + d + l + g.value], 1 + d + l + g.value)
  {
    hide Field, Parse;
    var d, l := ExtensionLength(mem[0] as nat / 16), ExtensionLength(mem[0] as nat % 16);
    assert mem[..n][0] == mem[0];
    ParseUnfold(mem[..n]);
    if 1 + d + l <= n {
      PrefixSlice(mem, n, 1, 1 + d);
      PrefixSlice(mem, n, 1 + d, 1 + d + l);
      var g := Field(mem[0] % 16, mem[1 + d..1 + d + l]);
      if 1 + d + l + g <= n { PrefixSlice(mem, n, 1 + d + l, 1 + d + l + g); }
    }
  }

  /** The delta of the option ends with the octet behind the `n`. */
  predicate DeltaAtEnd(mem: seq<byte>, n: nat)
    requires 0 < n < |mem|
  {
    var d := mem[0] / 16;
    d != 15 && n <= ExtensionLength(d) && !(d == 14 && n == 2 && mem[1] == 0xFF)
  }

  /** The parser looks at the octet behind those that it is given: the delta ends there, or the length. */
  predicate LooksBehind(s: seq<byte>) {
    s != [] &&
    var d, l := s[0] / 16, s[0] % 16;
    d != 15 && !(d == 14 && |s| >= 2 && s[1] == 0xFF) &&
    (|s| <= ExtensionLength(d) || (l != 15 && |s| < 1 + ExtensionLength(d) + ExtensionLength(l)))
  }

  lemma ParsedStaysInside(s: seq<byte>)
    ensures Parse(s).Parsed? ==> !LooksBehind(s)
  {
    hide Field;
  }

  /** It happens: a single octet that announces a delta of one octet. */
  lemma LooksBehindExample()
    ensures LooksBehind([0xD0]) && Parse([0xD0]).Malformed?
  {
  }

  /** `coap_opt_parse` on the first `n` octets of the memory: the octets used, or 0, and the fields
      stored.  The last octet looked at, `top`, may be the one behind the `n`, but the result does not
      depend on it. */
  method OptParse(mem: seq<byte>, n: nat) returns (size: nat, delta: nat, length: nat, ghost top: nat)
    requires n < |mem|
    ensures top <= n && (n > 0 ==> (top == n <==> LooksBehind(mem[..n])))
    ensures size == 0 <==> Parse(mem[..n]).Malformed?
    ensures size > 0 ==> length <= size <= n && Parse(mem[..n]) == Parsed(delta, mem[size - length..size], size)
  {
    size, delta, length, top := 0, 0, 0, 0;
    if n < 1 { return; }
    assert mem[..n][0] == mem[0] && (n >= 2 ==> mem[..n][1] == mem[1]);
    ParseFields(mem, n);
    hide Parse, FieldAt;
    var ok, opt, left;
    ok, opt, left, delta, top := ReadDelta(mem, n);
    if !ok { return; }
    ok, opt, left, length, top := ReadLength(mem, opt, left);
    if !ok { return; }
    if left < 1 { return; }
    opt, left := opt + 1, left - 1;
    if left < length { return; }
    size := opt + length;
  }

  // ----- the accessors, which trust the option at the front of the memory -----

  /** A two-octet extension, added up in 16 bits. */
  function TwoOctets(a: byte, b: byte): nat {
    ((a as nat * 256 + 269) % 65536 + b as nat) % 65536
  }

  /** `coap_opt_delta` */
  function OptDelta(s: seq<byte>): nat
    requires |s| > 0 && (s[0] / 16 < 15 ==> |s| > ExtensionLength(s[0] / 16))
  {
    var n := s[0] as nat / 16;
    if n == 15 then 0
    else if n == 14 then TwoOctets(s[1], s[2])
    else if n == 13 then 13 + s[1] as nat
    else n
  }

  /** Octets before the value, as `coap_opt_value` and `coap_opt_length` skip them. */
  function Skip(nibble: nat): nat {
    if nibble == 14 then 2 else if nibble == 13 then 1 else 0
  }

  /** `coap_opt_length`, an unsigned short */
  function OptLength(s: seq<byte>): nat
    requires |s| > 0
    requires s[0] / 16 != 15 && s[0] % 16 != 15 ==> |s| > Skip(s[0] / 16) + Skip(s[0] % 16)
  {
    if s[0] / 16 == 15 || s[0] % 16 == 15 then 0 else
    var at, n := 1 + Skip(s[0] as nat / 16), s[0] as nat % 16;
    if n == 14 then TwoOctets(s[at], s[at + 1])
    else if n == 13 then 13 + s[at] as nat
    else n
  }

  /** `coap_opt_value`, as an offset; 0 stands for the null pointer */
  function OptValue(s: seq<byte>): nat
    requires |s| > 0
  {
    if s[0] / 16 == 15 || s[0] % 16 == 15 then 0 else 1 + Skip(s[0] / 16) + Skip(s[0] % 16)
  }

  lemma TwoOctetsIs(e: seq<byte>)
    requires |e| == 2
    ensures TwoOctets(e[0], e[1]) == Field(14, e) % 65536
  {
    ModAdd(e[0] as nat * 256 + 269, e[1] as nat, 65536);
  }

  lemma DeltaIsField(s: seq<byte>)
    requires s != [] && s[0] / 16 < 15 && |s| > ExtensionLength(s[0] / 16)
    ensures OptDelta(s) == Field(s[0] / 16, s[1..1 + ExtensionLength(s[0] / 16)]) % 65536
  {
    hide TwoOctets;
    var n, e := s[0] as nat / 16, s[1..1 + ExtensionLength(s[0] / 16)];
    if n == 14 {
      assert e[0] == s[1] && e[1] == s[2];
      TwoOctetsIs(e);
    } else if n == 13 {
      assert e[0] == s[1];
    }
  }

  lemma LengthIsField(s: seq<byte>)
    requires s != [] && s[0] / 16 < 15 && s[0] % 16 < 15
    requires |s| >= 1 + ExtensionLength(s[0] / 16) + ExtensionLength(s[0] % 16)
    ensures var d, l := ExtensionLength(s[0] / 16), ExtensionLength(s[0] % 16);
            d == Skip(s[0] / 16) && l == Skip(s[0] % 16) &&
            OptLength(s) == Field(s[0] % 16, s[1 + d..1 + d + l]) % 65536
  {
    hide TwoOctets;
    var d, l := ExtensionLength(s[0] / 16), ExtensionLength(s[0] % 16);
    var n, f := s[0] as nat % 16, s[1 + d..1 + d + l];
    if n == 14 {
      assert f[0] == s[1 + d] && f[1] == s[2 + d];
      TwoOctetsIs(f);
    } else if n == 13 {
      assert f[0] == s[1 + d];
    }
  }

  /** On whatever the parser accepts, the accessors say the same; a length is cut to 16 bits. */
  lemma AccessorsAgree(s: seq<byte>)
    requires Parse(s).Parsed?
    ensures |s| > Skip(s[0] / 16) + Skip(s[0] % 16)
    ensures var p := Parse(s);
            OptDelta(s) == p.delta && OptLength(s) == |p.value| % 65536 &&
            OptValue(s) == p.size - |p.value| && s[OptValue(s)..p.size] == p.value
  {
    ParseUnfold(s);
    hide Parse, Field, OptDelta, OptLength;
    DeltaIsField(s);
    LengthIsField(s);
  }

  /** `coap_opt_size` parses without knowing where the message ends: the octets behind an option
      do not matter. */
  lemma ParseIgnoresRest(s: seq<byte>, more: seq<byte>)
    requires Parse(s).Parsed?
    ensures Parse(s + more) == Parse(s)
  {
    var p := ParseOption(s);
    OptionBytesOfParse(s);
    assert s + more == OptionBytes(p.delta, p.value) + (s[p.size..] + more);
    ParseOptionBytes(p.delta, p.value, s[p.size..] + more);
    assert |OptionBytes(p.delta, p.value)| == p.size;
    hide ParseOption, OptionBytes;
  }

  // ----- writing -----

  /** The header nibble for a delta or a length: the bound of the one-octet form is one too high. */
  function CodeNibble(n: nat): (r: nat)
    ensures r <= 14
  {
    if n < 13 then n else if n < 270 then 13 else 14
  }

  function CodeExtension(n: nat): seq<byte> {
    if n < 13 then []
    else if n < 270 then [(n - 13) % 256]
    else [(n - 269) / 256 % 256, (n - 269) % 256]
  }

  function CodeHeader(delta: nat, length: nat): seq<byte> {
    [CodeNibble(delta) * 16 + CodeNibble(length)] + CodeExtension(delta) + CodeExtension(length)
  }

  function CodeOption(delta: nat, value: seq<byte>): seq<byte> {
    CodeHeader(delta, |value|) + value
  }

  /** What a reader makes of a field that was written. */
  function ReadBack(n: nat): (r: nat)
    ensures r == n <==> n != 269 && n <= MAX_FIELD
  {
    if n == 269 then 13 else if n < 269 then n else 269 + (n - 269) % 65536
  }

  lemma Digits(m: nat)
    ensures m / 256 % 256 * 256 + m % 256 == m % 65536
  {
    var q, v := m / 65536, m % 65536;
    DivThenMod(m, 256, 256);
    DivModOf(v, 256);
    DivModIs(m, 256, 256 * q + v / 256, v % 256);
  }

  lemma ReadBackIsField(n: nat)
    ensures |CodeExtension(n)| == ExtensionLength(CodeNibble(n)) && ReadBack(n) <= MAX_FIELD
    ensures Field(CodeNibble(n), CodeExtension(n)) == ReadBack(n)
  {
    if n >= 270 {
      Digits(n - 269);
    }
  }

  /** What is parsed from an option made of these parts. */
  lemma ParseParts(first: byte, e: seq<byte>, f: seq<byte>, body: seq<byte>)
    requires first / 16 < 15 && first % 16 < 15
    requires |e| == ExtensionLength(first / 16) && |f| == ExtensionLength(first % 16)
    ensures var s, delta, length := [first] + e + f + body, Field(first / 16, e), Field(first % 16, f);
            Parse(s) == if |body| < length || delta >= 65549 then Malformed
                        else Parsed(delta % 65536, body[..length], 1 + |e| + |f| + length)
  {
    var s := [first] + e + f + body;
    hide Field;
    var d, l := |e|, |f|;
    assert s[1..1 + d] == e && s[1 + d..1 + d + l] == f && s[1 + d + l..] == body;
    var length := Field(first % 16, f);
    if length <= |body| {
      assert s[1 + d + l..1 + d + l + length] == body[..length];
    }
  }

  /** What is parsed from an option that was written. */
  lemma ParseWritten(delta: nat, value: seq<byte>, rest: seq<byte>)
    requires delta < 65536
    ensures var length, body := ReadBack(|value|), value + rest;
            Parse(CodeOption(delta, value) + rest) ==
              if |body| < length then Malformed
              else Parsed(ReadBack(delta), body[..length], |CodeHeader(delta, |value|)| + length)
  {
    assert ReadBack(delta) < 65536;
    hide Field, CodeExtension, CodeNibble, ReadBack, Parse;
    var e, f, body := CodeExtension(delta), CodeExtension(|value|), value + rest;
    var first: byte := CodeNibble(delta) * 16 + CodeNibble(|value|);
    assert first / 16 == CodeNibble(delta) && first % 16 == CodeNibble(|value|);
    ReadBackIsField(delta);
    ReadBackIsField(|value|);
    ParseParts(first, e, f, body);
    assert CodeOption(delta, value) + rest == [first] + e + f + body;
  }

  predicate Representable(delta: nat, value: seq<byte>) {
    delta != 269 && |value| != 269 && |value| <= MAX_FIELD
  }

  /** An option that was written comes back exactly when neither field is 269 and the length can be
      represented; otherwise its delta or its value is lost. */
  lemma ParseCodeOption(delta: nat, value: seq<byte>, rest: seq<byte>)
    requires delta < 65536
    ensures var p := Parse(CodeOption(delta, value) + rest);
            if Representable(delta, value) then p == Parsed(delta, value, |CodeOption(delta, value)|)
            else p.Malformed? || (delta == 269 && p.delta == 13) || p.value != value
  {
    ParseWritten(delta, value, rest);
    assert delta == 269 ==> ReadBack(delta) == 13;
    hide Parse, CodeHeader, ReadBack;
    assert (value + rest)[..|value|] == value;
  }

  /** The code's header is the header of the format exactly when neither field is 269. */
  lemma CodeHeaderIffNot269(delta: nat, length: nat)
    requires delta <= MAX_FIELD && length <= MAX_FIELD
    ensures CodeHeader(delta, length) == Header(delta, length) <==> delta != 269 && length != 269
  {
    if delta == 269 {
      assert CodeHeader(delta, length)[0] / 16 == 13 && Header(delta, length)[0] / 16 == 14;
    } else if length == 269 {
      assert CodeHeader(delta, length)[0] % 16 == 13 && Header(delta, length)[0] % 16 == 14;
    } else {
      assert CodeExtension(delta) == Extension(delta) && CodeExtension(length) == Extension(length);
    }
  }

  lemma SameHeader(delta: nat, value: seq<byte>)
    requires delta <= MAX_FIELD && |value| <= MAX_FIELD
    ensures CodeOption(delta, value) == OptionBytes(delta, value) <==> delta != 269 && |value| != 269
  {
    hide CodeHeader, Header;
    CodeHeaderIffNot269(delta, |value|);
    if CodeOption(delta, value) == OptionBytes(delta, value) {
      var h, k := CodeHeader(delta, |value|), Header(delta, |value|);
      assert |h| == |k| && h == (h + value)[..|h|] == (k + value)[..|h|] == k;
    }
  }

  /** The octets of an option are canonical for libcoap as well: writing what was parsed gives them
      back iff the delta fits 16 bits and neither field is 269. */
  lemma RewriteOptionIff(s: seq<byte>)
    requires Parse(s).Parsed?
    ensures var p := Parse(s);
            p.size <= |s| &&
            (CodeOption(p.delta, p.value) == s[..p.size] <==>
               ParseOption(s).delta < 65536 && ParseOption(s).delta != 269 && |p.value| != 269)
  {
    hide Parse, ParseOption, CodeOption, OptionBytes;
    ParseIs(s);
    var q := ParseOption(s);
    OptionBytesOfParse(s);
    if q.delta < 65536 {
      SameHeader(q.delta, q.value);
    } else {
      WideDelta(q.delta, q.value);
    }
  }

  lemma ParseIs(s: seq<byte>)
    requires Parse(s).Parsed?
    ensures var q := ParseOption(s);
            q.Parsed? && q.delta < 65549 && Parse(s) == Parsed(q.delta % 65536, q.value, q.size)
  {
    hide ParseOption;
  }

  lemma WideDelta(delta: nat, value: seq<byte>)
    requires 65536 <= delta < 65549 && |value| <= MAX_FIELD
    ensures CodeOption(delta % 65536, value) != OptionBytes(delta, value)
  {
    assert CodeOption(delta % 65536, value)[0] / 16 < 13 && OptionBytes(delta, value)[0] / 16 == 14;
  }

  /** The room that `coap_opt_setheader` asks for before it stores a header. */
  function RoomChecked(delta: nat, length: nat): (r: nat)
    ensures length < 13 ==> r == |CodeHeader(delta, length)|
    ensures length >= 13 ==> r == |CodeHeader(delta, length)| - 1
  {
    |CodeExtension(delta)| + if length < 270 then 1 else 2
  }

  /** The check passes although the header is too long for the room, exactly if the header ends one octet
      behind the room and the length has an extension; the header is then stored, the last octet of it
      behind the room. */
  lemma OverrunIff(delta: nat, length: nat, maxlen: nat)
    ensures RoomChecked(delta, length) <= maxlen < |CodeHeader(delta, length)| <==>
              length >= 13 && maxlen + 1 == |CodeHeader(delta, length)|
  {
  }

  /** It happens: a value of 13 octets, and room for one. */
  method OverrunExample(buf: array<byte>) returns (size: nat)
    requires buf.Length == 2
    modifies buf
    ensures size == 2 && buf[..] == [0x0D, 0]
  {
    size := SetHeader(buf, 0, 1, 0, 13);
    assert buf[..] == buf[0..2];
  }

  /** The delta part of `coap_opt_setheader`. */
  method SetDelta(buf: array<byte>, at: nat, maxlen: nat, delta: nat) returns (ok: bool, skip: nat)
    requires 0 < maxlen && at + maxlen <= buf.Length && delta < 65536
    modifies buf
    ensures skip == |CodeExtension(delta)| && (ok <==> 1 + skip <= maxlen)
    ensures ok ==> buf[at] == CodeNibble(delta) * 16 && buf[at + 1..at + 1 + skip] == CodeExtension(delta)
    ensures ok ==> buf[at + 1 + skip..] == old(buf[at + 1 + skip..])
    ensures buf[..at] == old(buf[..at]) && buf[at + maxlen..] == old(buf[at + maxlen..])
  {
    if delta < 13 {
      buf[at] := delta * 16;
      return true, 0;
    } else if delta < 270 {
      if maxlen < 2 { return false, 1; }
      buf[at] := 0xD0;
      buf[at + 1] := (delta - 13) % 256;
      return true, 1;
    } else {
      if maxlen < 3 { return false, 2; }
      buf[at] := 0xE0;
      buf[at + 1] := (delta - 269) / 256 % 256;
      buf[at + 2] := (delta - 269) % 256;
      return true, 2;
    }
  }

  /** The length part, behind `skip` octets; the lower half of the first octet is still 0. */
  method SetLength(buf: array<byte>, at: nat, maxlen: nat, skip: nat, length: nat) returns (ok: bool, skip': nat)
    requires at + maxlen <= buf.Length && 1 + skip <= maxlen && buf[at] % 16 == 0
    requires skip + (if length < 270 then 1 else 2) <= maxlen ==> at + skip + |CodeExtension(length)| < buf.Length
    modifies buf
    ensures skip' == skip + |CodeExtension(length)|
    ensures ok <==> skip + (if length < 270 then 1 else 2) <= maxlen
    ensures ok ==> buf[at] == old(buf[at]) + CodeNibble(length)
    ensures ok ==> buf[at + skip + 1..at + skip' + 1] == CodeExtension(length)
    ensures ok ==> buf[at + skip' + 1..] == old(buf[at + skip' + 1..])
    ensures !ok ==> buf[..] == old(buf[..])
    ensures buf[..at] == old(buf[..at]) && buf[at + 1..at + 1 + skip] == old(buf[at + 1..at + 1 + skip])
  {
    ok, skip' := true, skip;
    if length < 13 {
      buf[at] := buf[at] + length;
    } else if length < 270 {
      ok, skip' := !(maxlen < skip + 1), skip + 1;
      if ok {
        buf[at] := buf[at] + 0x0D;
        buf[at + skip + 1] := (length - 13) % 256;
      }
    } else {
      ok, skip' := !(maxlen < skip + 2), skip + 2;
      if ok {
        buf[at] := buf[at] + 0x0E;
        buf[at + skip + 1] := (length - 269) / 256 % 256;
        buf[at + skip + 2] := (length - 269) % 256;
      }
    }
  }

  /** `coap_opt_setheader` at position `at`, told that there is room for `maxlen` octets.  It may
      store one octet more than that, which must then exist. */
  method SetHeader(buf: array<byte>, at: nat, maxlen: nat, delta: nat, length: nat) returns (size: nat)
    requires at + maxlen <= buf.Length && delta < 65536
    requires RoomChecked(delta, length) <= maxlen ==> at + |CodeHeader(delta, length)| <= buf.Length
    modifies buf
    ensures size == if RoomChecked(delta, length) <= maxlen then |CodeHeader(delta, length)| else 0
    ensures size > 0 ==> buf[at..at + size] == CodeHeader(delta, length)
    ensures size > 0 ==> buf[at + size..] == old(buf[at + size..])
    ensures size == 0 ==> buf[at + maxlen..] == old(buf[at + maxlen..])
    ensures buf[..at] == old(buf[..at])
  {
    hide CodeExtension, CodeNibble;
    ghost var was := buf[..];
    if maxlen == 0 { return 0; }
    var ok, skip := SetDelta(buf, at, maxlen, delta);
    if !ok { return 0; }
    ghost var k, mid := skip, buf[..];
    ok, skip := SetLength(buf, at, maxlen, skip, length);
    if !ok { return 0; }
    HeaderStored(was, mid, buf[..], at, k, skip, delta, length);
    return skip + 1;
  }

  lemma HeaderStored(was: seq<byte>, mid: seq<byte>, now: seq<byte>, at: nat, k: nat, skip: nat, delta: nat,
                     length: nat)
    requires |was| == |mid| == |now| && k <= skip && at + skip < |was|
    requires mid[at] == CodeNibble(delta) * 16 && mid[at + 1..at + 1 + k] == CodeExtension(delta)
    requires now[at] == mid[at] + CodeNibble(length) && now[at + 1..at + 1 + k] == mid[at + 1..at + 1 + k]
    requires now[at + k + 1..at + skip + 1] == CodeExtension(length)
    requires mid[at + 1 + k..] == was[at + 1 + k..] && now[at + skip + 1..] == mid[at + skip + 1..]
    ensures now[at..at + skip + 1] == CodeHeader(delta, length) && now[at + skip + 1..] == was[at + skip + 1..]
  {
    hide CodeExtension, CodeNibble;
    assert now[at..at + skip + 1] == [now[at]] + now[at + 1..at + 1 + k] + now[at + k + 1..at + skip + 1];
    assert mid[at + skip + 1..] == mid[at + 1 + k..][skip - k..] == was[at + 1 + k..][skip - k..];
  }

  /** `memcpy(buf + at, data, len)` */
  method Copy(buf: array<byte>, at: nat, data: seq<byte>)
    requires at + |data| <= buf.Length
    modifies buf
    ensures buf[..] == old(buf[..at]) + data + old(buf[at + |data|..])
  {
    for i := 0 to |data|
      invariant buf[at..at + i] == data[..i]
      invariant buf[..at] == old(buf[..at]) && buf[at + i..] == old(buf[at + i..])
    {
      buf[at + i] := data[i];
      assert buf[at..at + i + 1] == buf[at..at + i] + [data[i]];
    }
  }

  /** `coap_opt_encode`: the assertion in it demands that a header that was stored has fitted. */
  method OptEncode(buf: array<byte>, at: nat, maxlen: nat, delta: nat, value: seq<byte>) returns (size: nat)
    requires at + maxlen <= buf.Length && delta < 65536
    requires RoomChecked(delta, |value|) <= maxlen ==> |CodeHeader(delta, |value|)| <= maxlen
    modifies buf
    ensures size == if |CodeOption(delta, value)| <= maxlen then |CodeOption(delta, value)| else 0
    ensures size > 0 ==> buf[..] == old(buf[..at]) + CodeOption(delta, value) + old(buf[at + size..])
    ensures size == 0 ==> buf[..at] == old(buf[..at]) && buf[at + maxlen..] == old(buf[at + maxlen..])
  {
    hide CodeHeader, RoomChecked;
    ghost var was, h := buf[..], CodeHeader(delta, |value|);
    var l := SetHeader(buf, at, maxlen, delta, |value|);
    RoomIsPositive(delta, |value|);
    if l == 0 { return 0; }
    if maxlen - l < |value| { return 0; }
    ghost var mid := buf[..];
    assert mid[..at] == was[..at] && mid[at..at + l] == h && mid[at + l..] == was[at + l..];
    Copy(buf, at + l, value);
    Written(was, mid, buf[..], at, h, value);
    return l + |value|;
  }

  lemma RoomIsPositive(delta: nat, length: nat)
    ensures |CodeHeader(delta, length)| > 0 && RoomChecked(delta, length) <= |CodeHeader(delta, length)|
  {
  }

  lemma Written(was: seq<byte>, mid: seq<byte>, now: seq<byte>, at: nat, h: seq<byte>, value: seq<byte>)
    requires |was| == |mid| && at + |h| + |value| <= |was|
    requires mid[..at] == was[..at] && mid[at..at + |h|] == h && mid[at + |h|..] == was[at + |h|..]
    requires now == mid[..at + |h|] + value + mid[at + |h| + |value|..]
    ensures now == was[..at] + (h + value) + was[at + |h| + |value|..]
  {
    assert mid[..at + |h|] == was[..at] + h;
    assert mid[at + |h| + |value|..] == mid[at + |h|..][|value|..] == was[at + |h| + |value|..];
  }
}
