/** `validate()` and `getOptions()` of cantcoap: walking the octets of a received message. */
module CoapPduValidate {
  import opened Wire
  import opened StoredOption
  import opened CoapPdu
  import opened CoapPduRuns
  import opened CoapPduWalk
  import opened OptionOrder

  datatype Verdict = Invalid | Valid(count: nat, payload: nat)

  /** `v` is the verdict of the walk `w` over a message of `n` octets: all options are counted,
      and the payload begins behind the marker, or at `n` when there is none. */
  ghost predicate VerdictOf(v: Verdict, w: Walk, n: nat) {
    (v.Valid? <==> Accepts(w)) &&
    (v.Valid? ==> v.count == |w.steps| && v.payload == n - (if w.rest == [] then 0 else |w.rest| - 1))
  }

  function After(done: seq<Step>, w: Walk): Walk {
    w.(steps := done + w.steps)
  }

  lemma WalkStarts(w: Walk)
    ensures After([], w) == w
  {
    assert [] + w.steps == w.steps;
  }

  lemma WalkGoesOn(done: seq<Step>, s: seq<byte>, behind: seq<byte>)
    requires !EndsOptions(s) && |behind| >= 2 && WalkOne(s, behind).Step?
    ensures After(done, WalkAll(s, behind)) ==
              After(done + [WalkOne(s, behind)], WalkAll(s[WalkOne(s, behind).size..], behind))
  {
    hide WalkOne;
    var w := WalkAll(s[WalkOne(s, behind).size..], behind);
    assert done + ([WalkOne(s, behind)] + w.steps) == done + [WalkOne(s, behind)] + w.steps;
  }

  lemma WalkEnds(done: seq<Step>, s: seq<byte>, behind: seq<byte>)
    requires |behind| >= 2 && (EndsOptions(s) || WalkOne(s, behind).Stop?)
    ensures After(done, WalkAll(s, behind)) == Walk(done, s, !EndsOptions(s))
  {
    assert done + [] == done;
  }

  /** The loop of `validate()` over the message `m`, from `start` on; `behind` is what the memory
      behind the message holds. */
  method ValidateBody(m: seq<byte>, behind: seq<byte>, start: nat) returns (v: Verdict)
    requires start <= |m| && |behind| >= 2
    ensures VerdictOf(v, WalkAll(m[start..], behind), |m|)
  {
    hide WalkAll, WalkOne, EndsOptions;
    var pos, count := start, 0;
    ghost var s, done := m[start..], [];
    WalkStarts(WalkAll(s, behind));
    while true
      invariant start <= pos <= |m| && count == |done| && s == m[start..]
      invariant WalkAll(s, behind) == After(done, WalkAll(m[pos..], behind))
      decreases |m| - pos
    {
      EndOfOptions(m, pos);
      if pos == |m| {
        WalkEnds(done, m[pos..], behind);
        return Valid(count, |m|);
      }
      if m[pos] == PAYLOAD_MARKER {
        WalkEnds(done, m[pos..], behind);
        if |m| - pos > 1 {
          return Valid(count, pos + 1);
        }
        return Invalid;
      }
      var step := WalkOne(m[pos..], behind);
      if step.Stop? {
        WalkEnds(done, m[pos..], behind);
        return Invalid;
      }
      WalkGoesOn(done, m[pos..], behind);
      Pieces(m, pos, step.size);
      done := done + [step];
      pos := pos + step.size;
      count := count + 1;
    }
  }

  lemma EndOfOptions(m: seq<byte>, pos: nat)
    requires pos <= |m|
    ensures EndsOptions(m[pos..]) <==> pos == |m| || m[pos] == PAYLOAD_MARKER
    ensures pos < |m| && m[pos] == PAYLOAD_MARKER ==> (m[pos..] == [PAYLOAD_MARKER] <==> |m| - pos == 1)
  {
  }

  // ----- the header checks of validate() -----

  /** The codes of sections 12.1.1 and 12.1.2 of RFC 7252, by class and detail: empty, the four
      methods, and the responses 2.01-2.05, 4.00-4.06, 4.12, 4.13, 4.15 and 5.00-5.05. */
  predicate KnownCode(code: byte) {
    var c, d := code / 32, code % 32;
    (c == 0 && d <= 4) || (c == 2 && 1 <= d <= 5) || (c == 4 && (d <= 6 || d in {12, 13, 15})) || (c == 5 && d <= 5)
  }

  /** The code check of `validate()`, range by range as it is written there. */
  method RefusesCode(code: byte) returns (refused: bool)
    ensures refused <==> !KnownCode(code)
  {
    refused := (0x04 < code && code < 0x41) || (0x45 < code && code < 0x80) || (0x86 < code && code < 0x8C) ||
      code == 0x8E || (0x8F < code && code < 0xA0) || code > 0xA5;
  }

  predicate HeaderAccepted(m: seq<byte>) {
    |m| >= COAP_HDR_SIZE && m[0] / 64 == 1 && m[0] % 16 <= 8 && COAP_HDR_SIZE + m[0] % 16 <= |m| && KnownCode(m[1])
  }

  /** A message that section 3 of RFC 7252 allows, with a code that the library knows. */
  ghost predicate WellFormed(m: seq<byte>) {
    HeaderAccepted(m) && WellFormedBody(Body(m))
  }

  ghost function Body(m: seq<byte>): seq<byte>
    requires HeaderAccepted(m)
  {
    m[COAP_HDR_SIZE + m[0] % 16..]
  }

  /** `validate()` on the message in the first `p.pduLength` octets of the buffer; `behind` is what
      the memory behind the buffer holds. The verdict is that of the walk, for every message. It
      is the verdict of section 3 of RFC 7252 for the messages that the walk reads right. */
  method Validate(p: CoapPDU, behind: seq<byte>) returns (v: Verdict)
    requires p.pduLength <= p.pdu.Length && |behind| >= 2
    modifies p`numOptions
    ensures p.numOptions == if v.Valid? then v.count else old(p.numOptions)
    ensures var m := p.Contents();
            v.Valid? <==>
              |m| >= 4 && m[0] / 64 == 1 && m[0] % 16 <= 8 && 4 + m[0] % 16 <= |m| &&
              (var c, d := m[1] / 32, m[1] % 32;
               (c == 0 && d <= 4) || (c == 2 && 1 <= d <= 5) || (c == 4 && (d <= 6 || d in {12, 13, 15})) ||
               (c == 5 && d <= 5)) &&
              Accepts(WalkAll(m[4 + m[0] % 16..], p.pdu[p.pduLength..] + behind))
    ensures HeaderAccepted(p.Contents()) ==>
              VerdictOf(v, WalkAll(Body(p.Contents()), p.pdu[p.pduLength..] + behind), p.pduLength)
    ensures HeaderAccepted(p.Contents()) && AllRight(Body(p.Contents())) ==>
              (v.Valid? <==> WellFormed(p.Contents())) && VerdictOf(v, FormatAll(Body(p.Contents())), p.pduLength)
  {
    hide WalkAll, FormatAll, WellFormedBody, AllRight, VerdictOf, Accepts;
    ghost var m := p.Contents();
    if p.pduLength < COAP_HDR_SIZE { return Invalid; }
    if p.pdu[0] / 64 != 1 { return Invalid; }
    var tokenLength := p.GetTokenLength();
    if tokenLength > 8 { return Invalid; }
    if COAP_HDR_SIZE + tokenLength > p.pduLength { return Invalid; }
    var refused := RefusesCode(p.pdu[1]);
    if refused { return Invalid; }
    var start := COAP_HDR_SIZE + tokenLength;
    ghost var memory := p.pdu[p.pduLength..] + behind;
    ReadRight(Body(m), memory);
    if start == p.pduLength {
      assert m[start..] == [];
      EmptyBody(memory, p.pduLength);
      v := Valid(0, p.pduLength);
    } else {
      v := ValidateBody(p.pdu[..p.pduLength], p.pdu[p.pduLength..] + behind, start);
    }
    VerdictAccepts(v, WalkAll(Body(m), memory), p.pduLength);
    if v.Valid? {
      p.numOptions := v.count;
    }
  }

  lemma VerdictAccepts(v: Verdict, w: Walk, n: nat)
    requires VerdictOf(v, w, n)
    ensures v.Valid? <==> Accepts(w)
  {
  }

  lemma ReadRight(s: seq<byte>, behind: seq<byte>)
    requires |behind| >= 2
    ensures AllRight(s) ==> WalkAll(s, behind) == FormatAll(s)
    ensures Accepts(FormatAll(s)) <==> WellFormedBody(s)
  {
    if AllRight(s) { AllRightReads(s, behind); }
    WellFormedIsAccepted(s);
  }

  lemma EmptyBody(behind: seq<byte>, n: nat)
    requires |behind| >= 2
    ensures VerdictOf(Valid(0, n), WalkAll([], behind), n)
  {
  }

  // ----- what addOption() has built -----

  lemma {:induction false} Fits16Deltas(prev: nat, opts: seq<Option>)
    requires Encodable(prev, opts) && Fits16(opts)
    ensures Deltas16(prev, opts)
    decreases opts
  {
    if opts != [] { Fits16Deltas(opts[0].number, opts[1..]); }
  }

  /** Whatever `addOption` has built is accepted, and counted in full, if version and code are. */
  lemma BuiltIsWellFormed(m: seq<byte>, opts: seq<Option>)
    requires |m| >= COAP_HDR_SIZE && m[0] / 64 == 1 && m[0] % 16 <= 8 && KnownCode(m[1])
    requires COAP_HDR_SIZE + m[0] % 16 <= |m| && Encodable(0, opts) && m[COAP_HDR_SIZE + m[0] % 16..] == Encode(0, opts)
    ensures WellFormed(m) && Decode(0, m[COAP_HDR_SIZE + m[0] % 16..]) == Decoded(opts, [])
  {
    hide Decode, Encode, Encodable;
    DecodeEncode(0, opts, []);
    assert Encode(0, opts) + [] == Encode(0, opts);
  }

  /** Whatever `addOption` has built, with a version and a code that are accepted, is valid; all its
      options are counted, and `getOptions()` then describes all of them. */
  method ValidateBuilt(p: CoapPDU, behind: seq<byte>) returns (v: Verdict, r: seq<CoapOption>)
    requires p.Holds() && |behind| >= 2
    requires p.pdu[0] / 64 == 1 && p.pdu[0] % 16 <= 8 && KnownCode(p.pdu[1])
    modifies p`numOptions
    ensures v == Valid(|p.Options|, p.pduLength) && p.numOptions == |p.Options| == |r|
    ensures forall i :: 0 <= i < |r| ==> Describes(p.Contents(), p.OptionsStart(), p.Options, i, r[i])
  {
    hide Decode, Encode, Encodable, AllRight, WalkAll, FormatAll, Walked, Describes, WellFormedBody, KnownCode,
         Fits16;
    ghost var m, start := p.Contents(), p.OptionsStart();
    assert m[start..] == p.pdu[start..p.pduLength];
    Fits16Deltas(0, p.Options);
    BuiltRightIff(0, p.Options);
    BuiltIsWellFormed(m, p.Options);
    FormatIsDecode(0, m[start..]);
    v := Validate(p, behind);
    r := GetOptions(p);
  }

  /** The whole way for a run of options in any order: all of them are in the message, sorted and
      counted, and the list that `getOptions` returns describes them. */
  method AddValidateList(p: CoapPDU, adds: seq<Option>, behind: seq<byte>) returns (v: Verdict, r: seq<CoapOption>)
    requires p.Holds() && p.Options == [] && p.numOptions == 0 && !p.constructedFromBuffer && |behind| >= 2
    requires Below269(adds) && p.pdu[0] / 64 == 1 && p.pdu[0] % 16 <= 8 && KnownCode(p.pdu[1])
    modifies p, p.pdu
    ensures p.Encoded() && p.Options == InsertAll(adds) && StableSortOf(p.Options, adds)
    ensures v == Valid(|adds|, p.pduLength) && |r| == |adds| == |p.Options|
    ensures forall i :: 0 <= i < |r| ==> Describes(p.Contents(), p.OptionsStart(), p.Options, i, r[i])
  {
    Below269IsSmall(adds);
    InsertAllBelow269(adds);
    InsertAllSize(adds);
    InsertAllSorts(adds);
    assert forall i :: 0 <= i < |adds| ==> adds[i].number < 65536 && |adds[i].value| <= 65530;
    ghost var m, start := p.Contents(), p.OptionsStart();
    var ok := AddRun(p, adds);
    hide StableSortOf, KnownCode, Decode, Encode, Encodable, Walked, Describes;
    assert p.pdu[0] == p.Contents()[..start][0] == m[..start][0] &&
           p.pdu[1] == p.Contents()[..start][1] == m[..start][1];
    v, r := ValidateBuilt(p, behind);
  }

  // ----- getOptions() -----

  /** The struct that `getOptions()` fills for one option; positions are relative to the PDU. */
  datatype CoapOption = CoapOption(optionDelta: nat, optionNumber: nat, optionValueLength: nat,
                                   totalLength: nat, optionPosition: nat, optionValuePosition: nat)

  /** `c` describes option `i` of `opts`, whose octets begin at `start` of `m`. */
  ghost predicate Describes(m: seq<byte>, start: nat, opts: seq<Option>, i: nat, c: CoapOption)
    requires Encodable(0, opts) && i < |opts|
  {
    c.optionNumber == opts[i].number && c.optionValueLength == |opts[i].value| &&
    start <= c.optionPosition && c.optionDelta <= c.optionNumber &&
    Walked(opts, i, c.optionPosition - start, c.optionNumber - c.optionDelta) &&
    Walked(opts, i + 1, c.optionPosition + c.totalLength - start, c.optionNumber) &&
    c.optionValuePosition + c.optionValueLength == c.optionPosition + c.totalLength <= |m| &&
    m[c.optionValuePosition..c.optionValuePosition + c.optionValueLength] == opts[i].value
  }

  lemma ValueIsSuffix(delta: nat, value: seq<byte>)
    requires delta <= MAX_FIELD && |value| <= MAX_FIELD
    ensures |OptionBytes(delta, value)| >= |value|
    ensures OptionBytes(delta, value)[|OptionBytes(delta, value)| - |value|..] == value
  {
  }

  lemma MiddleSlice(head: seq<byte>, body: seq<byte>, rest: seq<byte>, n: nat)
    requires n <= |body|
    ensures var s := head + (body + rest);
            s[|head| + |body| - n..|head| + |body|] == body[|body| - n..]
  {
  }

  /** The value ends where the option ends. */
  lemma ValueAtEnd(opts: seq<Option>, i: nat, offset: nat, number: nat, size: nat)
    requires Encodable(0, opts) && i < |opts| && Walked(opts, i, offset, number)
    requires Walked(opts, i + 1, offset + size, opts[i].number)
    ensures |opts[i].value| <= size && offset + size <= |Encode(0, opts)|
    ensures Encode(0, opts)[offset + size - |opts[i].value|..offset + size] == opts[i].value
  {
    hide *;
    WalkedParts(opts, i, offset, number);
    WalkedParts(opts, i + 1, offset + size, opts[i].number);
    OptionAt(opts, i);
    PrefixGrows(opts, i);
    var value := opts[i].value;
    ValueIsSuffix(opts[i].number - number, value);
    MiddleSlice(Encode(0, opts[..i]), OptionBytes(opts[i].number - number, value),
                Encode(opts[i].number, opts[i + 1..]), |value|);
  }

  /** What one step of `getOptions()` reads and records. */
  lemma DescribeStep(m: seq<byte>, start: nat, opts: seq<Option>, i: nat, position: nat, number: nat)
    requires Encodable(0, opts) && Fits16(opts) && i < |opts| && start <= position
    requires start <= |m| && m[start..] == Encode(0, opts) && Walked(opts, i, position - start, number)
    ensures position <= |m| && HeaderFits(m[position..])
    ensures var delta, length := OptionDelta(m[position..]), OptionValueLength(m[position..]);
            var total := OptionSize(delta, length);
            length <= total && position + total <= |m| &&
            Walked(opts, i + 1, position + total - start, number + delta) &&
            Describes(m, start, opts, i,
                      CoapOption(delta, number + delta, length, total, position, position + total - length))
  {
    hide Walked, Encode, Encodable, OptionDelta, OptionValueLength, HeaderFits, OptionSize, Fits16;
    WalkInside(opts, i, position - start, number);
    WalkStep(opts, i, position - start, number);
    var s := m[start..][position - start..];
    assert m[position..] == s;
    var total := OptionSize(OptionDelta(s), OptionValueLength(s));
    ValueAtEnd(opts, i, position - start, number, total);
    var end := position - start + total;
    SliceBehind(m, start, end - OptionValueLength(s), end);
  }

  lemma SliceBehind(m: seq<byte>, start: nat, i: nat, j: nat)
    requires i <= j && start + j <= |m|
    ensures m[start..][i..j] == m[start + i..start + j]
  {
  }

  /** The walk of `getOptions()` over the message `m`, whose options begin at `start`. */
  method ReadOptions(m: seq<byte>, start: nat, count: nat, ghost opts: seq<Option>) returns (r: seq<CoapOption>)
    requires start <= |m| && Encodable(0, opts) && Fits16(opts) && m[start..] == Encode(0, opts) && count <= |opts|
    ensures |r| == count && forall i :: 0 <= i < count ==> Describes(m, start, opts, i, r[i])
  {
    hide *;
    WalkStart(opts);
    r := [];
    var position, number := start, 0;
    for i := 0 to count
      invariant |r| == i && start <= position <= |m| && Walked(opts, i, position - start, number)
      invariant forall j :: 0 <= j < i ==> Describes(m, start, opts, j, r[j])
    {
      DescribeStep(m, start, opts, i, position, number);
      var delta, length := OptionDelta(m[position..]), OptionValueLength(m[position..]);
      var total := OptionSize(delta, length);
      r := r + [CoapOption(delta, number + delta, length, total, position, position + total - length)];
      number := number + delta;
      position := position + total;
    }
  }

  /** `getOptions()`: the first `_numOptions` options, each with its place in the message. */
  method GetOptions(p: CoapPDU) returns (r: seq<CoapOption>)
    requires p.Encoded() && p.numOptions <= |p.Options|
    ensures |r| == p.numOptions
    ensures forall i :: 0 <= i < |r| ==> Describes(p.Contents(), p.OptionsStart(), p.Options, i, r[i])
  {
    hide Describes, Encode, Encodable, Fits16;
    assert p.Contents()[p.OptionsStart()..] == p.pdu[p.OptionsStart()..p.pduLength];
    r := ReadOptions(p.pdu[..p.pduLength], p.OptionsStart(), p.numOptions, p.Options);
  }
}
