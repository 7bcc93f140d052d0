/** libcoap's PDU (pdu.c): built by appending, and parsed from received octets. */
module LibPdu {
  import opened Arithmetic
  import opened Wire
  import opened OptionCodec
  import opened OptionList
  import opened Wrappers

  const HEADER_SIZE: nat := 4
  const MAX_PDU_SIZE: nat := 1400

  // ----- messages as values -----

  datatype Message = Message(version: nat, kind: nat, code: byte, id: seq<byte>,
                             token: seq<byte>, opts: seq<Option>, payload: seq<byte>)

  function Head(version: nat, kind: nat, tokenLength: nat, code: byte, id: seq<byte>): seq<byte>
    requires version < 4 && kind < 4 && tokenLength < 16
  {
    [version * 64 + kind * 16 + tokenLength, code] + id
  }

  /** A payload, if there is one, follows a marker. */
  function PayloadPart(payload: seq<byte>): (r: seq<byte>)
    ensures EndsOptions(r)
  {
    if payload == [] then [] else [PAYLOAD_MARKER] + payload
  }

  function TokenLength(data: seq<byte>): nat
    requires |data| >= HEADER_SIZE
  {
    data[0] as nat % 16
  }

  predicate HeaderAccepted(data: seq<byte>)
    requires |data| >= HEADER_SIZE
  {
    (data[1] == 0 ==> |data| == HEADER_SIZE && TokenLength(data) == 0) &&
    HEADER_SIZE + TokenLength(data) <= |data| && TokenLength(data) <= 8
  }

  datatype Body = Body(opts: seq<Option>, payload: seq<byte>)

  /** Options and payload, as the parse loop and the iterator see them. */
  function InterpretBody(s: seq<byte>): Maybe<Body> {
    var d := Read(0, s);
    if d.Rejected? || d.tail == [PAYLOAD_MARKER] then None
    else Some(Body(d.opts, if d.tail == [] then [] else d.tail[1..]))
  }

  /** The message that `coap_pdu_parse` sees in the octets, if it accepts them. */
  function Interpret(data: seq<byte>): Maybe<Message>
    requires |data| >= HEADER_SIZE
  {
    if !HeaderAccepted(data) then None else
    var start := HEADER_SIZE + TokenLength(data);
    var b := InterpretBody(data[start..]);
    if b.None? then None else
    Some(Message(data[0] as nat / 64, data[0] as nat / 16 % 4, data[1], data[2..4], data[4..start],
                 b.value.opts, b.value.payload))
  }

  lemma BodyIff(opts: seq<Option>, payload: seq<byte>)
    requires Ascending(0, opts)
    ensures InterpretBody(CodeEncode(0, opts) + PayloadPart(payload)) == Some(Body(opts, payload)) <==>
            AllRepresentable(0, opts)
  {
    hide Read, CodeEncode, AllRepresentable, Ascending;
    var s := CodeEncode(0, opts) + PayloadPart(payload);
    ReadIffRepresentable(0, opts, PayloadPart(payload));
    var d := Read(0, s);
    if d.Decoded? {
      ReadTail(0, s);
      if d.tail != [] {
        assert d.tail == [PAYLOAD_MARKER] + d.tail[1..];
      }
    }
  }

  /** An accepted body: options in the format of section 3.1 of RFC 7252, then a marker with a
      payload that is not empty, or nothing. */
  lemma BodySplits(s: seq<byte>)
    requires InterpretBody(s).Some?
    ensures var b, d := InterpretBody(s).value, Decode(0, s);
            d.Decoded? && Encodable(0, d.opts) && Wrapped(b.opts, d.opts) &&
            s == Encode(0, d.opts) + PayloadPart(b.payload)
  {
    ReadIsDecode(0, 0, s);
    EncodeDecode(0, s);
    hide Read, Decode, Encode, Encodable, Wrapped;
    var tail := Read(0, s).tail;
    if tail != [] {
      assert tail == [PAYLOAD_MARKER] + tail[1..];
    }
  }

  /** The octets that building a message produces. */
  function Build(m: Message): seq<byte>
    requires m.version < 4 && m.kind < 4 && |m.token| < 16 && Ascending(0, m.opts)
  {
    Head(m.version, m.kind, |m.token|, m.code, m.id) + m.token + CodeEncode(0, m.opts) + PayloadPart(m.payload)
  }

  /** The octets of a message as section 3 of RFC 7252 draws them: version, type and token length in the
      first octet, code, id, token, the octets of the options, and a payload behind a marker. */
  predicate Layout(data: seq<byte>, m: Message, options: seq<byte>) {
    m.version < 4 && m.kind < 4 && |m.token| < 16 &&
    data == [m.version * 64 + m.kind * 16 + |m.token|, m.code] + m.id + m.token + options +
            if m.payload == [] then [] else [0xFF] + m.payload
  }

  lemma LayoutIs(data: seq<byte>, m: Message, options: seq<byte>)
    requires m.version < 4 && m.kind < 4 && |m.token| < 16
    requires data == Head(m.version, m.kind, |m.token|, m.code, m.id) + m.token + options + PayloadPart(m.payload)
    ensures Layout(data, m, options)
  {
  }

  /** For example, a confirmable GET with the id 7D35, the token 20 and the path "ab", and a reset. */
  lemma LayoutExample()
    ensures Build(Message(1, 0, 1, [0x7D, 0x35], [0x20], [Option(11, [0x61, 0x62])], [0x68])) ==
              [0x41, 0x01, 0x7D, 0x35, 0x20, 0xB2, 0x61, 0x62, 0xFF, 0x68]
    ensures Build(Message(1, 3, 0, [0x7D, 0x35], [], [], [])) == [0x70, 0x00, 0x7D, 0x35]
  {
    var o := Option(11, [0x61, 0x62]);
    assert CodeEncode(0, [o]) == CodeOption(11, o.value) + CodeEncode(11, []);
    assert CodeOption(11, o.value) == [0xB2, 0x61, 0x62];
  }

  lemma Parts(head: seq<byte>, token: seq<byte>, rest: seq<byte>)
    requires |head| == 4
    ensures var data := head + token + rest;
            |data| >= 4 && data[0] == head[0] && data[1] == head[1] && data[2..4] == head[2..4] &&
            data[4..4 + |token|] == token && data[4 + |token|..] == rest
  {
  }

  lemma HeadFields(m: Message)
    requires m.version < 4 && m.kind < 4 && |m.token| < 16
    ensures var b := m.version * 64 + m.kind * 16 + |m.token|;
            b / 64 == m.version && b / 16 % 4 == m.kind && b % 16 == |m.token|
  {
    var b, n := m.version * 64 + m.kind * 16 + |m.token|, m.version * 4 + m.kind;
    DivModIs(b, 64, m.version, m.kind * 16 + |m.token|);
    DivModIs(b, 16, n, |m.token|);
    DivModIs(n, 4, m.version, m.kind);
  }

  /** A message without a code must be empty. */
  predicate EmptyIfNoCode(m: Message) {
    m.code == 0 ==> m.token == [] && m.opts == [] && m.payload == []
  }

  /** Building and parsing: the message comes back exactly when no delta and no length is 269, and it is
      empty if it has no code. */
  lemma BuildInterpret(m: Message)
    requires m.version < 4 && m.kind < 4 && |m.id| == 2 && |m.token| <= 8 && Ascending(0, m.opts)
    ensures Interpret(Build(m)) == Some(m) <==> AllRepresentable(0, m.opts) && EmptyIfNoCode(m)
  {
    var head := Head(m.version, m.kind, |m.token|, m.code, m.id);
    var rest := CodeEncode(0, m.opts) + PayloadPart(m.payload);
    assert head[2..4] == m.id;
    HeadFields(m);
    assert Build(m) == head + m.token + rest;
    BodyIff(m.opts, m.payload);
    BodyEmptyIff(m.opts, m.payload);
    Parts(head, m.token, rest);
    hide Build, InterpretBody, CodeEncode, PayloadPart, AllRepresentable;
    assert TokenLength(Build(m)) == |m.token|;
    assert HeaderAccepted(Build(m)) <==> EmptyIfNoCode(m);
  }

  lemma BodyEmptyIff(opts: seq<Option>, payload: seq<byte>)
    requires Ascending(0, opts)
    ensures CodeEncode(0, opts) + PayloadPart(payload) == [] <==> opts == [] && payload == []
  {
  }

  lemma HeadOf(data: seq<byte>)
    requires |data| >= HEADER_SIZE
    ensures Head(data[0] as nat / 64, data[0] as nat / 16 % 4, TokenLength(data), data[1], data[2..4]) == data[..4]
  {
    var b := data[0] as nat;
    assert b / 64 * 64 + b / 16 % 4 * 16 + b % 16 == b;
  }

  lemma AcceptedParts(data: seq<byte>)
    requires |data| >= HEADER_SIZE && Interpret(data).Some?
    ensures var m, d := Interpret(data).value, Decode(0, data[HEADER_SIZE + TokenLength(data)..]);
            |m.token| == TokenLength(data) <= 8 && d.Decoded? && Encodable(0, d.opts) && Wrapped(m.opts, d.opts) &&
            m.version < 4 && m.kind < 4 &&
            data == Head(m.version, m.kind, |m.token|, m.code, m.id) + m.token +
                    Encode(0, d.opts) + PayloadPart(m.payload)
  {
    var m, start := Interpret(data).value, HEADER_SIZE + TokenLength(data);
    BodySplits(data[start..]);
    HeadOf(data);
    hide InterpretBody, Decode, Encode, Encodable, Wrapped, PayloadPart, Head;
    assert data == data[..4] + data[4..start] + data[start..];
  }

  /** Whatever is accepted splits into header, token, options in the format of section 3.1 of
      RFC 7252, and a marker with a payload that is not empty, or nothing. */
  lemma AcceptedSplits(data: seq<byte>)
    requires |data| >= HEADER_SIZE && Interpret(data).Some?
    ensures var m, d := Interpret(data).value, Decode(0, data[HEADER_SIZE + TokenLength(data)..]);
            |m.token| == TokenLength(data) <= 8 && d.Decoded? && Encodable(0, d.opts) && Wrapped(m.opts, d.opts) &&
            Layout(data, m, Encode(0, d.opts))
  {
    AcceptedParts(data);
    hide *;
    var m, d := Interpret(data).value, Decode(0, data[HEADER_SIZE + TokenLength(data)..]);
    LayoutIs(data, m, Encode(0, d.opts));
  }

  /** What is accepted, and where its payload is, in terms of the octets. */
  lemma ParseInLiterals(d: seq<byte>)
    requires |d| >= 4
    ensures d[1] == 0 ==> (Interpret(d).Some? <==> |d| == 4 && d[0] % 16 == 0)
    ensures d[1] == 0 && Interpret(d).Some? ==> PayloadAt(|d|, Interpret(d).value.payload) == None
    ensures d[1] != 0 ==>
              (Interpret(d).Some? <==>
                 d[0] % 16 <= 8 && 4 + d[0] % 16 <= |d| &&
                 var r := Read(0, d[4 + d[0] % 16..]); r.Decoded? && r.tail != [0xFF])
    ensures d[1] != 0 && Interpret(d).Some? ==>
              var tail := Read(0, d[4 + d[0] % 16..]).tail;
              PayloadAt(|d|, Interpret(d).value.payload) == if tail == [] then None else Some(|d| - |tail| + 1)
  {
    hide Read;
    if d[1] == 0 && |d| == 4 && d[0] % 16 == 0 {
      assert d[4..] == [];
      ReadEnds(0, []);
    }
    if 4 + d[0] % 16 <= |d| && Read(0, d[4 + d[0] % 16..]).Decoded? {
      ReadTail(0, d[4 + d[0] % 16..]);
      var tail := Read(0, d[4 + d[0] % 16..]).tail;
      assert tail == [0xFF] <==> |tail| == 1 && tail[0] == 0xFF;
    }
  }

  lemma InterpretIs(d: seq<byte>)
    requires |d| >= HEADER_SIZE
    ensures !HeaderAccepted(d) ==> Interpret(d).None?
    ensures HeaderAccepted(d) ==>
              var start := HEADER_SIZE + TokenLength(d);
              var b := InterpretBody(d[start..]);
              (Interpret(d).Some? <==> b.Some?) &&
              (b.Some? ==>
                 PayloadAt(|d|, Interpret(d).value.payload) == From(start, PayloadAt(|d| - start, b.value.payload)))
  {
    hide InterpretBody;
  }

  lemma Slices(mem: seq<byte>, at: nat, n: nat, k: nat)
    requires at + k <= n <= |mem|
    ensures mem[at..][..n - at] == mem[at..n] && mem[at..n][k..] == mem[at + k..n]
  {
  }

  /** On its way over the options the parser looks at the octet behind `s`. */
  ghost predicate WalkLooksBehind(s: seq<byte>)
    decreases |s|
  {
    !EndsOptions(s) &&
    (LooksBehind(s) || (Parse(s).Parsed? && 1 <= Parse(s).size <= |s| && WalkLooksBehind(s[Parse(s).size..])))
  }

  lemma LooksBehindUnfold(s: seq<byte>)
    ensures EndsOptions(s) ==> !WalkLooksBehind(s)
    ensures !EndsOptions(s) && Parse(s).Malformed? ==> (WalkLooksBehind(s) <==> LooksBehind(s))
    ensures !EndsOptions(s) && Parse(s).Parsed? ==>
              !LooksBehind(s) && 1 <= Parse(s).size <= |s| &&
              (WalkLooksBehind(s) <==> WalkLooksBehind(s[Parse(s).size..]))
  {
    SizePositive(s);
    ParsedStaysInside(s);
    hide Parse, LooksBehind;
  }

  /** `next_option_safe` at position `at`; `behind` says that it looked at the octet behind the `n`. */
  method SkipOne(mem: seq<byte>, n: nat, at: nat, ghost prev: nat)
    returns (size: nat, ghost prev': nat, ghost behind: bool)
    requires at < n < |mem| && mem[at] != PAYLOAD_MARKER
    ensures size == 0 ==> Read(prev, mem[at..n]).Rejected?
    ensures size > 0 ==> at + size <= n && SameEnd(Read(prev, mem[at..n]), Read(prev', mem[at + size..n]))
    ensures WalkLooksBehind(mem[at..n]) <==> behind || (size > 0 && WalkLooksBehind(mem[at + size..n]))
  {
    hide Parse, Read, SameEnd, LooksBehind, WalkLooksBehind;
    var delta, length;
    ghost var top;
    size, delta, length, top := OptParse(mem[at..], n - at);
    behind := top == n - at;
    Slices(mem, at, n, size);
    ReadNext(prev, mem[at..n]);
    LooksBehindUnfold(mem[at..n]);
    prev' := (prev + delta) % 65536;
  }

  /** `next_option_safe` repeated until the end of the message or a marker. */
  method SkipOptions(mem: seq<byte>, n: nat) returns (ok: bool, at: nat, ghost behind: bool)
    requires n < |mem|
    ensures behind <==> WalkLooksBehind(mem[..n])
    ensures ok <==> Read(0, mem[..n]).Decoded?
    ensures ok ==> at <= n && mem[at..n] == Read(0, mem[..n]).tail && (at < n ==> mem[at] == PAYLOAD_MARKER)
  {
    hide Parse, Read, SameEnd, WalkLooksBehind, LooksBehind;
    ghost var prev: nat, all := 0, Read(0, mem[..n]);
    at, behind := 0, false;
    assert mem[0..n] == mem[..n];
    SameEndSays(all, all);
    while at < n && mem[at] != PAYLOAD_MARKER
      invariant at <= n && SameEnd(all, Read(prev, mem[at..n]))
      invariant WalkLooksBehind(mem[..n]) <==> behind || WalkLooksBehind(mem[at..n])
    {
      var size;
      ghost var was, looked := Read(prev, mem[at..n]), behind;
      size, prev, behind := SkipOne(mem, n, at, prev);
      behind := looked || behind;
      SameEndSays(all, was);
      if size == 0 { return false, at, behind; }
      at := at + size;
      SameEndTrans(all, was, Read(prev, mem[at..n]));
    }
    SameEndSays(all, Read(prev, mem[at..n]));
    ReadEnds(prev, mem[at..n]);
    LooksBehindUnfold(mem[at..n]);
    return true, at, behind;
  }

  lemma SameEndSays(d: Decoded, e: Decoded)
    ensures SameEnd(d, d)
    ensures SameEnd(d, e) ==> (d.Decoded? <==> e.Decoded?) && (d.Decoded? ==> d.tail == e.tail)
  {
  }

  lemma SameEndTrans(d: Decoded, e: Decoded, f: Decoded)
    requires SameEnd(d, e) && SameEnd(e, f)
    ensures SameEnd(d, f)
  {
  }

  /** The rest of `coap_pdu_parse`: where the payload starts, if the body is well formed. */
  method FindPayload(mem: seq<byte>, n: nat) returns (ok: bool, at: Maybe<int>)
    requires n < |mem|
    ensures ok <==> InterpretBody(mem[..n]).Some?
    ensures ok ==> at == PayloadAt(n, InterpretBody(mem[..n]).value.payload) && (at.Some? ==> 0 < at.value < n)
  {
    var opt;
    at := None;
    hide Read, InterpretBody;
    ghost var behind;
    ok, opt, behind := SkipOptions(mem, n);
    BodyEnd(mem[..n]);
    if ok && opt < n {
      if opt + 1 == n { return false, None; }
      at := Some(opt + 1);
    }
  }

  /** What the octets behind the options say about the payload. */
  lemma BodyEnd(s: seq<byte>)
    ensures var d, b := Read(0, s), InterpretBody(s);
            (b.Some? <==> d.Decoded? && (|d.tail| == 1 ==> d.tail[0] != PAYLOAD_MARKER)) &&
            (b.Some? ==> |b.value.payload| == if d.tail == [] then 0 else |d.tail| - 1)
  {
    hide Read;
    var d := Read(0, s);
    if d.Decoded? {
      assert d.tail == [PAYLOAD_MARKER] <==> |d.tail| == 1 && d.tail[0] == PAYLOAD_MARKER;
    }
  }

  /** A payload ends the message. */
  function PayloadAt(n: int, payload: seq<byte>): Maybe<int> {
    if payload == [] then None else Some(n - |payload|)
  }

  /** A position that was counted from `start`. */
  function From(start: int, at: Maybe<int>): Maybe<int> {
    if at.None? then None else Some(start + at.value)
  }

  ghost predicate SameEnd(d: Decoded, e: Decoded) {
    (d.Decoded? <==> e.Decoded?) && (d.Decoded? ==> d.tail == e.tail)
  }

  lemma ReadNext(prev: nat, s: seq<byte>)
    requires !EndsOptions(s)
    ensures Parse(s).Malformed? ==> Read(prev, s).Rejected?
    ensures Parse(s).Parsed? ==> 1 <= Parse(s).size <= |s|
    ensures Parse(s).Parsed? ==>
              SameEnd(Read(prev, s), Read((prev + Parse(s).delta) % 65536, s[Parse(s).size..]))
  {
    SizePositive(s);
    hide Parse;
  }

  lemma ReadEnds(prev: nat, s: seq<byte>)
    requires EndsOptions(s)
    ensures Read(prev, s) == Decoded([], s)
  {
  }

  lemma PayloadStored(was: seq<byte>, now: seq<byte>, n: nat, payload: seq<byte>)
    requires n + 1 + |payload| <= |was| && payload != []
    requires var marked := was[n := PAYLOAD_MARKER];
             now == marked[..n + 1] + payload + marked[n + 1 + |payload|..]
    ensures now[..n + |payload| + 1] == was[..n] + PayloadPart(payload)
  {
    assert was[n := PAYLOAD_MARKER][..n + 1] == was[..n] + [PAYLOAD_MARKER];
  }

  // ----- the mutable PDU -----

  class Pdu {
    const maxSize: nat
    /** The octets from the header on.  One more than `maxSize` may be looked at. */
    const buf: array<byte>
    var length: nat
    var maxDelta: nat
    var data: Maybe<int>

    ghost predicate Valid()
      reads this
    {
      HEADER_SIZE <= length <= maxSize <= MAX_PDU_SIZE && buf.Length == maxSize + 1 && maxDelta < 65536 &&
      (data.Some? ==> HEADER_SIZE < data.value <= length)
    }

    ghost function Contents(): seq<byte>
      requires Valid()
      reads this, buf
    {
      buf[..length]
    }

    /** `coap_pdu_init` */
    constructor (kind: nat, code: byte, id: seq<byte>, size: nat)
      requires kind < 4 && |id| == 2 && HEADER_SIZE <= size <= MAX_PDU_SIZE
      ensures Valid() && fresh(buf) && maxSize == size && maxDelta == 0 && data == None
      ensures Contents() == Head(1, kind, 0, code, id)
    {
      maxSize, length, maxDelta, data := size, HEADER_SIZE, 0, None;
      buf := new byte[size + 1];
      new;
      buf[0], buf[1], buf[2], buf[3] := 64 + kind * 16, code, id[0], id[1];
      assert id == [id[0], id[1]];
    }

    /** `coap_add_token` starts the message afresh behind its header. */
    method AddToken(token: seq<byte>) returns (ok: bool)
      requires Valid()
      modifies this, buf
      ensures Valid() && (ok <==> |token| <= 8 && HEADER_SIZE + |token| <= maxSize)
      ensures ok ==> maxDelta == 0 && data == None
      ensures ok ==> Contents() == [old(buf[0]) / 16 * 16 + |token|] + old(buf[1..4]) + token
      ensures !ok ==> unchanged(this) && unchanged(buf)
    {
      if |token| > 8 || maxSize < |token| + HEADER_SIZE { return false; }
      buf[0] := buf[0] / 16 * 16 + |token|;
      Copy(buf, HEADER_SIZE, token);
      maxDelta := 0;
      length := HEADER_SIZE + |token|;
      data := None;
      return true;
    }

    /** The header of the option does not end exactly one octet behind the room that is left. */
    ghost predicate NoOverrun(number: nat, value: seq<byte>)
      requires Valid()
      reads this
    {
      number >= maxDelta ==>
        var delta := number - maxDelta;
        RoomChecked(delta, |value|) <= maxSize - length ==> |CodeHeader(delta, |value|)| <= maxSize - length
    }

    /** `coap_add_option` */
    method AddOption(number: nat, value: seq<byte>) returns (size: nat)
      requires Valid() && number < 65536 && NoOverrun(number, value)
      modifies this, buf
      ensures Valid() && data == None
      ensures size == if number >= old(maxDelta) && old(length) + |CodeOption(number - old(maxDelta), value)| <= maxSize
                      then |CodeOption(number - old(maxDelta), value)| else 0
      ensures size > 0 ==>
                Contents() == old(Contents()) + CodeOption(number - old(maxDelta), value) && maxDelta == number
      ensures size == 0 ==> Contents() == old(Contents()) && maxDelta == old(maxDelta)
    {
      data := None;
      if number < maxDelta { return 0; }
      ghost var was, delta := Contents(), number - maxDelta;
      size := OptEncode(buf, length, maxSize - length, number - maxDelta, value);
      hide CodeHeader, RoomChecked, CodeOption;
      if size > 0 {
        maxDelta := number;
        length := length + size;
        assert Contents() == was + CodeOption(delta, value);
      }
    }

    /** `coap_add_data` */
    method AddData(payload: seq<byte>) returns (ok: bool)
      requires Valid() && data == None
      modifies this, buf
      ensures Valid() && maxDelta == old(maxDelta)
      ensures ok <==> old(length) + |PayloadPart(payload)| <= maxSize
      ensures ok ==> Contents() == old(Contents()) + PayloadPart(payload)
      ensures ok ==> data == if payload == [] then None else Some(old(length) + 1)
      ensures !ok ==> unchanged(this) && unchanged(buf)
    {
      if payload == [] { return true; }
      if length + |payload| + 1 > maxSize { return false; }
      ghost var all := buf[..];
      data := Some(length + 1);
      buf[length] := PAYLOAD_MARKER;
      assert buf[..] == all[length := PAYLOAD_MARKER];
      Copy(buf, length + 1, payload);
      PayloadStored(all, buf[..], length, payload);
      length := length + |payload| + 1;
      return true;
    }

    lemma NoOverrunWhenFits(number: nat, value: seq<byte>)
      requires Valid() && maxDelta <= number && length + |CodeOption(number - maxDelta, value)| <= maxSize
      ensures NoOverrun(number, value)
    {
    }

    ghost predicate Appended(opts: seq<Option>, i: nat, start: seq<byte>)
      reads this, buf
    {
      Valid() && i <= |opts| && data == None && Ascending(0, opts[..i]) &&
      Contents() == start + CodeEncode(0, opts[..i]) && maxDelta == LastNumber(0, opts[..i])
    }

    method AppendOne(opts: seq<Option>, i: nat, ghost start: seq<byte>)
      requires i < |opts| && Ascending(0, opts) && Appended(opts, i, start)
      requires |start| + |CodeEncode(0, opts)| <= maxSize
      modifies this, buf
      ensures Appended(opts, i + 1, start)
    {
      hide CodeOption, CodeEncode, Ascending, NoOverrun, LastNumber;
      CodeEncodeNext(opts, i);
      var o := opts[i];
      CodeOptionNoMarker(o.number - maxDelta, o.value);
      NoOverrunWhenFits(o.number, o.value);
      var _ := AddOption(o.number, o.value);
    }

    /** The run of `coap_add_option` calls that adds a list. */
    method AddOptions(opts: seq<Option>)
      requires Valid() && Ascending(0, opts) && maxDelta == 0 && data == None
      requires length + |CodeEncode(0, opts)| <= maxSize
      modifies this, buf
      ensures Valid() && data == None && Contents() == old(Contents()) + CodeEncode(0, opts)
    {
      ghost var start := Contents();
      assert Appended(opts, 0, start) by { assert start + CodeEncode(0, []) == start; }
      for i := 0 to |opts|
        invariant Appended(opts, i, start)
      {
        hide *;
        AppendOne(opts, i, start);
      }
      assert opts[..|opts|] == opts;
    }

    /** Stores received octets as they are. */
    method Store(d: seq<byte>)
      requires Valid() && HEADER_SIZE <= |d| <= maxSize
      modifies this, buf
      ensures Valid() && Contents() == d && data == None && maxDelta == old(maxDelta)
    {
      buf[0], buf[1], buf[2], buf[3] := d[0], d[1], d[2], d[3];
      Copy(buf, HEADER_SIZE, d[HEADER_SIZE..]);
      length, data := |d|, None;
      assert d == d[..HEADER_SIZE] + d[HEADER_SIZE..];
    }

    /** Stores a message with an acceptable header, and looks for its payload behind `start`. */
    method StoreAndFind(d: seq<byte>, start: nat) returns (ok: bool)
      requires Valid() && HEADER_SIZE <= start <= |d| <= maxSize
      modifies this, buf
      ensures Valid() && Contents() == d && maxDelta == old(maxDelta)
      ensures ok <==> InterpretBody(d[start..]).Some?
      ensures ok ==> data == From(start, PayloadAt(|d| - start, InterpretBody(d[start..]).value.payload))
    {
      hide InterpretBody, PayloadAt;
      var at;
      Store(d);
      var all := buf[..];
      Slices(all, start, |d|, 0);
      assert all[start..|d|] == all[..|d|][start..];
      ok, at := FindPayload(all[start..], |d| - start);
      if ok { data := From(start, at); }
    }

    /** The checks of `coap_pdu_parse` in their order. */
    method Accept(d: seq<byte>) returns (ok: bool)
      requires Valid() && |d| >= HEADER_SIZE
      modifies this, buf
      ensures Valid() && maxDelta == old(maxDelta)
      ensures ok <==> |d| <= maxSize && Interpret(d).Some?
      ensures ok ==> Contents() == d && data == PayloadAt(|d|, Interpret(d).value.payload)
    {
      InterpretIs(d);
      hide InterpretBody, Interpret, PayloadAt, From;
      if maxSize < |d| { return false; }
      buf[0], buf[1] := d[0], d[1];
      data := None;
      if !HeaderAccepted(d) { return false; }
      ok := StoreAndFind(d, HEADER_SIZE + TokenLength(d));
    }

    /** `coap_pdu_parse`; the header octets are stored even if the message is refused.  A message without
        a code is accepted iff it is the header alone; any other iff its token and its body are right. */
    method Parse(d: seq<byte>) returns (ok: bool)
      requires Valid() && |d| >= HEADER_SIZE
      modifies this, buf
      ensures Valid() && maxDelta == old(maxDelta)
      ensures ok <==> |d| <= maxSize && Interpret(d).Some?
      ensures ok ==> Contents() == d && data == PayloadAt(|d|, Interpret(d).value.payload)
      ensures d[1] == 0 ==> (ok <==> |d| == 4 <= maxSize && d[0] % 16 == 0) && (ok ==> data == None)
      ensures d[1] != 0 ==>
                (ok <==> |d| <= maxSize && d[0] % 16 <= 8 && 4 + d[0] % 16 <= |d| &&
                         var r := Read(0, d[4 + d[0] % 16..]); r.Decoded? && r.tail != [0xFF])
      ensures ok && d[1] != 0 ==>
                var tail := Read(0, d[4 + d[0] % 16..]).tail;
                data == if tail == [] then None else Some(|d| - |tail| + 1)
    {
      ParseInLiterals(d);
      hide Interpret, PayloadAt, Read;
      ok := Accept(d);
    }
  }

  /** Building a message that fits: its token, its options in ascending order, its payload. */
  method BuildMessage(m: Message, size: nat) returns (p: Pdu)
    requires m.version == 1 && m.kind < 4 && |m.id| == 2 && |m.token| <= 8 && Ascending(0, m.opts)
    requires |Build(m)| <= size <= MAX_PDU_SIZE
    ensures fresh(p) && fresh(p.buf) && p.Valid() && p.Contents() == Build(m)
    ensures Layout(p.Contents(), m, CodeEncode(0, m.opts))
  {
    hide CodeEncode, Ascending, Head, PayloadPart, Layout;
    HeadIs(m);
    p := new Pdu(m.kind, m.code, m.id, size);
    var ok := p.AddToken(m.token);
    assert p.Contents() == Head(1, m.kind, |m.token|, m.code, m.id) + m.token;
    p.AddOptions(m.opts);
    ok := p.AddData(m.payload);
    LayoutIs(p.Contents(), m, CodeEncode(0, m.opts));
  }

  /** The header as it is allocated, and with the length of the token. */
  lemma HeadIs(m: Message)
    requires m.version == 1 && m.kind < 4 && |m.id| == 2 && |m.token| <= 8
    ensures var h := Head(1, m.kind, 0, m.code, m.id);
            |h| == HEADER_SIZE && Head(1, m.kind, |m.token|, m.code, m.id) == [h[0] / 16 * 16 + |m.token|] + h[1..]
  {
  }
}
