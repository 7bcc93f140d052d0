/** libcoap's block-wise transfer (block.c; sections 2.2 and 2.4 of RFC 7959). */
module BlockTransfer {
  import opened Arithmetic
  import opened Wire
  import opened OptionCodec
  import opened OptionList
  import opened LibPdu
  import opened OptionIterator
  import opened OptionOrder
  import opened VarBytes
  import opened Wrappers

  const BLOCK2: nat := 23
  const MAX_NUM: nat := 0x10_0000
  const SIZE_T: nat := 0x1_0000_0000_0000_0000

  /** The bit fields of `coap_block_t`. */
  datatype Block = Block(num: nat, m: nat, szx: nat)

  predicate InFields(b: Block) {
    b.num < MAX_NUM && b.m < 2 && b.szx < 8
  }

  /** `1 << (szx + 4)` */
  function Size(szx: nat): (s: nat)
    ensures s >= 16
  {
    if szx == 0 then 16 else 2 * Size(szx - 1)
  }

  lemma {:induction false} SizeIsPow2(szx: nat)
    ensures Size(szx) == Pow2(szx + 4)
  {
    if szx == 0 {
      assert Pow2(4) == 2 * Pow2(3) && Pow2(2) == 2 * Pow2(1);
    } else {
      SizeIsPow2(szx - 1);
    }
  }

  lemma {:induction false} Pow2Monotone(a: nat, b: nat)
    requires a <= b
    ensures Pow2(a) <= Pow2(b)
    decreases b
  {
    if a < b {
      Pow2Monotone(a, b - 1);
    }
  }

  /** `num << (szx + 4)` */
  function Offset(b: Block): nat {
    b.num * Size(b.szx)
  }

  /** `num << k` */
  function Shl(num: nat, k: nat): nat {
    if k == 0 then num else 2 * Shl(num, k - 1)
  }

  lemma ShlAndSize(num: nat, szx: nat, k: nat)
    requires 0 < k <= szx
    ensures Shl(num, k) == 2 * Shl(num, k - 1) && Size(szx - (k - 1)) == 2 * Size(szx - k)
  {
  }

  lemma MulTwo(a: nat, s: nat)
    ensures (2 * a) * s == a * (2 * s)
  {
  }

  /** Halving the block size and doubling the number keeps the offset. */
  lemma {:induction false} ShlKeepsOffset(num: nat, szx: nat, k: nat)
    requires k <= szx
    ensures Shl(num, k) * Size(szx - k) == num * Size(szx)
    decreases k
  {
    if k > 0 {
      ShlKeepsOffset(num, szx, k - 1);
      ShlAndSize(num, szx, k);
      hide Shl, Size;
      MulTwo(Shl(num, k - 1), Size(szx - k));
    }
  }

  // ----- the option value -----

  function BlockValue(b: Block): nat {
    b.num * 16 + b.m * 8 + b.szx
  }

  /** What `coap_get_block` and `coap_opt_block_num` read in an option value: 32-bit arithmetic, then
      a 20-bit field. */
  function GetBlock(v: seq<byte>): Block {
    if v == [] then Block(0, 0, 0)
    else Fields(if |v| > 1 then Value(v[..|v| - 1]) % TWO32 else 0, v[|v| - 1])
  }

  function Fields(high: nat, last: byte): Block {
    Block((high * 16 % TWO32 + last as nat / 16) % MAX_NUM, last as nat / 8 % 2, last as nat % 8)
  }

  lemma BlockValueIsShort(b: Block)
    requires InFields(b)
    ensures BlockValue(b) < 16777216 && |Bytes(BlockValue(b))| <= 3
  {
    assert Power(3) == 16777216 by { assert Power(2) == 65536; }
    BytesLength(BlockValue(b), 3);
  }

  lemma BlockDigits(b: Block)
    requires InFields(b)
    ensures var n := BlockValue(b);
            n / 256 < 65536 && n / 256 * 16 + n % 256 / 16 == b.num && n % 256 / 8 % 2 == b.m && n % 256 % 8 == b.szx
  {
    var high, middle, low := b.num / 16, b.num % 16, b.m * 8 + b.szx;
    DivModIs(BlockValue(b), 256, high, middle * 16 + low);
    DivModIs(middle * 16 + low, 16, middle, low);
    DivModIs(middle * 16 + low, 8, middle * 2 + b.m, b.szx);
    DivModIs(middle * 2 + b.m, 2, middle, b.m);
  }

  lemma FieldsOf(high: nat, last: byte)
    requires high < 65536
    ensures Fields(high % TWO32, last) == Block(high * 16 + last as nat / 16, last as nat / 8 % 2, last as nat % 8)
  {
    Reduced(high, TWO32);
    Reduced(high * 16, TWO32);
    Reduced(high * 16 + last as nat / 16, MAX_NUM);
  }

  lemma Reduced(n: nat, m: nat)
    requires n < m
    ensures n % m == n
  {
  }

  lemma GetBlockOf(high: nat, low: byte)
    ensures GetBlock(Bytes(high) + [low]) == Fields(high % TWO32, low)
  {
    var v := Bytes(high) + [low];
    assert v[..|v| - 1] == Bytes(high);
    ValueOfBytes(high);
    assert |v| == 1 ==> high == 0;
    hide Bytes, Value, Fields;
  }

  /** Every block option that is written decodes to the same block. */
  lemma BlockRoundTrip(b: Block)
    requires InFields(b)
    ensures GetBlock(Bytes(BlockValue(b))) == b
  {
    var n := BlockValue(b);
    BlockDigits(b);
    if n > 0 {
      assert Bytes(n) == Bytes(n / 256) + [n % 256];
      hide GetBlock, BlockValue, Fields, Bytes;
      GetBlockOf(n / 256, n % 256);
      FieldsOf(n / 256, n % 256);
    }
  }

  /** Section 2.2 of RFC 7959: the number, the more-bit and the size are the upper 20 bits, one bit and the
      lower three bits of the value. */
  lemma GetBlockIs(v: seq<byte>)
    ensures |v| <= 3 ==>
              var b := GetBlock(v);
              b.num < 0x10_0000 && b.m < 2 && b.szx < 8 && Value(v) == 16 * b.num + 8 * b.m + b.szx
  {
    if 0 < |v| <= 3 {
      var high, last := Value(v[..|v| - 1]), v[|v| - 1];
      assert Value(v) == high * 256 + last;
      ValueBelow(v[..|v| - 1]);
      assert |v| == 1 ==> high == 0;
      FieldsOf(high, last);
      hide Value, Fields;
      Reduced(high, TWO32);
    }
  }

  /** `coap_get_block`: the block in the first option of this type, if there is one.  The type of the
      option has 8 bits. */
  method ReadBlockOpt(pdu: Pdu, t: nat) returns (b: Maybe<Block>)
    requires pdu.Valid()
    ensures var found := Visits(0, AfterToken(pdu.Contents()), Some(Only(t % 256)));
            b == if found == [] then None else Some(GetBlock(found[0].value))
    ensures var found := Visits(0, AfterToken(pdu.Contents()), Some(Only(t % 256)));
            found != [] && |found[0].value| <= 3 ==>
              b.value.num < 0x10_0000 && b.value.m < 2 && b.value.szx < 8 &&
              Value(found[0].value) == 16 * b.value.num + 8 * b.value.m + b.value.szx
  {
    hide Visits, Parse, GetBlock, Only;
    var at, it := CheckOption(pdu, t % 256);
    if at.None? { return None; }
    var value := OptValueAt(pdu.buf[..], at.value, pdu.length);
    GetBlockIs(value);
    return Some(GetBlock(value));
  }

  /** A block option that was added to a message is what the receiver of the message reads. */
  lemma BlockSurvives(m: Message, b: Block)
    requires m.version < 4 && m.kind < 4 && EmptyIfNoCode(m) && |m.id| == 2 && |m.token| <= 8
    requires Ascending(0, m.opts) && AllRepresentable(0, m.opts) && InFields(b)
    requires Sorted(m.opts) && forall i :: 0 <= i < |m.opts| ==> m.opts[i].number < 256
    requires FirstOf(m.opts, BLOCK2) < |m.opts| && m.opts[FirstOf(m.opts, BLOCK2)].value == Bytes(BlockValue(b))
    ensures Interpret(Build(m)) == Some(m)
    ensures var found := Visits(0, AfterToken(Build(m)), Some(Only(BLOCK2)));
            found != [] && GetBlock(found[0].value) == b
  {
    hide AllRepresentable, Interpret, Ascending, Only, GetBlock, Bytes, BlockValue, Sift, Prefix, Build, AfterToken;
    BuiltIsVisited(m);
    SiftNone(Prefix(0, AfterToken(Build(m))));
    CheckFindsExactly(m.opts, BLOCK2);
    BlockRoundTrip(b);
  }

  // ----- writing the option and the block -----

  /** The room for the block that `coap_write_block_opt` computes; the subtraction wraps. */
  function Avail(room: nat): nat {
    if room >= 4 then room - 4 else SIZE_T + room - 4
  }

  datatype Choice = Illegal | TooSmall | Chosen(block: Block)

  /** The block that goes into the option: smaller than the one requested only if that does not fit
      and more than what fits is left. */
  ghost predicate Chooses(requested: Block, avail: nat, length: nat, c: Choice) {
    var start := Offset(requested);
    if length <= start then c == Illegal
    else if Size(requested.szx) <= avail then
      c == Chosen(Block(requested.num, if Size(requested.szx) < length - start then 1 else 0, requested.szx))
    else if length - start <= avail then c == Chosen(Block(requested.num, 0, requested.szx))
    else if avail < 16 then c == TooSmall
    else
      c.Chosen? && c.block.m == 1 && c.block.szx < requested.szx &&
      Size(c.block.szx) <= avail < 2 * Size(c.block.szx) &&
      c.block.num == Shl(requested.num, requested.szx - c.block.szx) % MAX_NUM
  }

  lemma FlsSize(avail: nat, fls: nat)
    requires avail >= 16 && fls > 0 && Pow2(fls - 1) <= avail < Pow2(fls)
    ensures fls >= 5 && Size(fls - 5) <= avail < 2 * Size(fls - 5)
  {
    assert Pow2(4) == 16 by { SizeIsPow2(0); }
    if fls < 5 { Pow2Monotone(fls, 4); }
    SizeIsPow2(fls - 5);
  }

  lemma {:induction false} SizeMonotone(a: nat, b: nat)
    requires a <= b
    ensures Size(a) <= Size(b)
    decreases b
  {
    if a < b {
      SizeMonotone(a, b - 1);
    }
  }

  /** The decision of `coap_write_block_opt`. */
  method ChooseBlock(requested: Block, avail: nat, length: nat) returns (c: Choice)
    ensures Chooses(requested, avail, length, c)
  {
    var start, want := Offset(requested), Size(requested.szx);
    if length <= start { return Illegal; }
    if want <= avail {
      return Chosen(requested.(m := if want < length - start then 1 else 0));
    }
    if length - start <= avail {
      return Chosen(requested.(m := 0));
    }
    if avail < 16 { return TooSmall; }
    var fls := Fls(avail);
    FlsSize(avail, fls);
    if requested.szx <= fls - 5 { SizeMonotone(requested.szx, fls - 5); }
    var szx := fls - 5;
    return Chosen(Block(Shl(requested.num, requested.szx - szx) % MAX_NUM, 1, szx));
  }

  /** The choice that the result stands for. */
  function Reported(r: int, b: Block): Choice {
    if r == -2 then Illegal else if r == -3 then TooSmall else Chosen(b)
  }

  lemma BlockValueIs(b: Block)
    ensures BlockValue(b) == 16 * b.num + 8 * b.m + b.szx
  {
  }

  lemma ChosenInFields(requested: Block, avail: nat, length: nat, b: Block)
    requires InFields(requested) && Chooses(requested, avail, length, Chosen(b))
    ensures InFields(b)
  {
    hide Size, Shl;
  }

  lemma AddableBlock(pdu: Pdu, b: Block)
    requires pdu.Valid() && InFields(b)
    ensures |Bytes(BlockValue(b))| <= 3 && pdu.NoOverrun(BLOCK2, Bytes(BlockValue(b)))
  {
    BlockValueIsShort(b);
    hide Bytes, BlockValue;
  }

  /** `coap_write_block_opt`; whether the option could be added is not reported. */
  method WriteBlockOpt(block: Block, t: nat, pdu: Pdu, length: nat) returns (r: int, block': Block)
    requires InFields(block) && pdu.Valid() && t < 65536
    modifies pdu, pdu.buf
    ensures pdu.Valid() && r in {1, -1, -2, -3} && (r == 1 ==> pdu.data == None)
    ensures r == -1 <==> t != 23
    ensures r != 1 ==> block' == block && unchanged(pdu) && unchanged(pdu.buf)
    ensures t == 23 ==> Chooses(block, Avail(old(pdu.maxSize - pdu.length)), length, Reported(r, block'))
    ensures r == 1 ==>
              InFields(block') &&
              OptionAppended(old(pdu.Contents()), pdu.Contents(), old(pdu.maxDelta), pdu.maxSize,
                             Bytes(16 * block'.num + 8 * block'.m + block'.szx))
  {
    block' := block;
    if t != BLOCK2 { return -1, block; }
    hide Chooses, CodeOption, Bytes, BlockValue;
    var room := pdu.maxSize - pdu.length;
    var c := ChooseBlock(block, if room >= 4 then room - 4 else SIZE_T + room - 4, length);
    if c.Illegal? { return -2, block; }
    if c.TooSmall? { return -3, block; }
    block' := c.block;
    r := 1;
    ChosenInFields(block, Avail(room), length, block');
    BlockValueIs(block');
    AddableBlock(pdu, block');
    var buf := new byte[3];
    BlockValueIsShort(block');
    var n := EncodeVarBytes(buf, BlockValue(block'));
    var _ := pdu.AddOption(t, buf[..n]);
  }

  /** The Block2 option has been appended if its number is in order and it fits. */
  ghost predicate OptionAppended(before: seq<byte>, after: seq<byte>, maxDelta: nat, maxSize: nat, value: seq<byte>) {
    after == if maxDelta <= BLOCK2 && |before| + |CodeOption(BLOCK2 - maxDelta, value)| <= maxSize
             then before + CodeOption(BLOCK2 - maxDelta, value) else before
  }

  /** The part of the data that a block stands for. */
  function Chunk<T>(data: seq<T>, num: nat, szx: nat): seq<T> {
    var start := num * Size(szx);
    if start >= |data| then []
    else if |data| - start < Size(szx) then data[start..] else data[start..start + Size(szx)]
  }

  /** `coap_add_block` */
  method AddBlock(pdu: Pdu, data: seq<byte>, num: nat, szx: nat) returns (ok: bool)
    requires pdu.Valid() && pdu.data == None && num < MAX_NUM && szx < 8
    modifies pdu, pdu.buf
    ensures pdu.Valid()
    ensures ok <==> Chunk(data, num, szx) != [] && old(pdu.length) + 1 + |Chunk(data, num, szx)| <= pdu.maxSize
    ensures pdu.Contents() == old(pdu.Contents()) + if ok then [PAYLOAD_MARKER] + Chunk(data, num, szx) else []
  {
    hide Size;
    var start := num * Size(szx);
    if |data| <= start { return false; }
    var n := if |data| - start < Size(szx) then |data| - start else Size(szx);
    ok := pdu.AddData(data[start..start + n]);
  }

  /** The Block2 option that is appended, if its number is in order and it fits. */
  function BlockOption(maxDelta: nat, length: nat, maxSize: nat, b: Block): seq<byte> {
    var option := if maxDelta <= BLOCK2 then CodeOption(BLOCK2 - maxDelta, Bytes(BlockValue(b))) else [];
    if length + |option| <= maxSize then option else []
  }

  /** The block `b` announced for `block`: the same offset, not empty, no larger than the room that was
      computed, and the more-bit is right. */
  ghost predicate Announced(block: Block, b: Block, data: seq<byte>, avail: nat) {
    var chunk := Chunk(data, b.num, b.szx);
    InFields(b) && Offset(b) == Offset(block) && b.szx <= block.szx && 0 < |chunk| <= avail &&
    (b.m == 1 <==> Offset(block) + |chunk| < |data|)
  }

  lemma ChoiceOutcome(block: Block, avail: nat, data: seq<byte>, c: Choice)
    requires InFields(block) && |data| <= 0x100_0000 && Chooses(block, avail, |data|, c)
    ensures c.Illegal? <==> |data| <= Offset(block)
    ensures c.Chosen? ==> Announced(block, c.block, data, avail)
  {
    hide Shl, Size;
    if c.Chosen? {
      AnswerKeepsOffset(block, avail, |data|, c.block);
      AnswerFits(block, avail, data, c.block);
    }
  }

  /** `coap_write_block_opt`, and then `coap_add_block` for the block that it has announced. */
  method WriteBlock(block: Block, pdu: Pdu, data: seq<byte>) returns (r: int, b: Block, ok: bool)
    requires InFields(block) && pdu.Valid() && pdu.data == None && |data| <= 0x100_0000
    modifies pdu, pdu.buf
    ensures pdu.Valid() && r in {1, -2, -3}
    ensures r == -2 <==> |data| <= Offset(block)
    ensures r != 1 ==> !ok && pdu.Contents() == old(pdu.Contents())
    ensures r == 1 ==> Announced(block, b, data, Avail(old(pdu.maxSize - pdu.length)))
    ensures r == 1 ==>
              var option := BlockOption(old(pdu.maxDelta), old(pdu.length), pdu.maxSize, b);
              var chunk := Chunk(data, b.num, b.szx);
              (ok <==> old(pdu.length) + |option| + 1 + |chunk| <= pdu.maxSize) &&
              pdu.Contents() == old(pdu.Contents()) + option + if ok then [PAYLOAD_MARKER] + chunk else []
  {
    ghost var avail, maxDelta, before := Avail(pdu.maxSize - pdu.length), pdu.maxDelta, pdu.Contents();
    ok := false;
    hide Chooses, Offset, Announced, Chunk, OptionAppended, BlockOption, BlockValue;
    r, b := WriteBlockOpt(block, BLOCK2, pdu, |data|);
    ChoiceOutcome(block, avail, data, Reported(r, b));
    if r != 1 { return; }
    AppendedIs(before, pdu.Contents(), maxDelta, pdu.maxSize, b);
    AnnouncedSays(block, b, data, avail);
    ok := AddBlock(pdu, data, b.num, b.szx);
  }

  lemma AnnouncedSays(block: Block, b: Block, data: seq<byte>, avail: nat)
    requires Announced(block, b, data, avail)
    ensures InFields(b) && Chunk(data, b.num, b.szx) != []
  {
  }

  lemma AppendedIs(before: seq<byte>, after: seq<byte>, maxDelta: nat, maxSize: nat, b: Block)
    requires |before| <= maxSize && OptionAppended(before, after, maxDelta, maxSize, Bytes(BlockValue(b)))
    ensures after == before + BlockOption(maxDelta, |before|, maxSize, b)
  {
    hide CodeOption, Bytes, BlockValue;
    assert before + [] == before;
  }

  /** The four octets reserved are enough for the option, the marker and a block that fills the room
      computed, iff the value of the option is short. */
  lemma ReserveIff(delta: nat, b: Block, room: nat)
    requires delta <= BLOCK2 && InFields(b) && room >= 4
    ensures |CodeOption(delta, Bytes(BlockValue(b)))| + 1 + Avail(room) <= room <==>
              BlockValue(b) < (if delta < 13 then 0x1_0000 else 0x100)
  {
    hide Bytes, BlockValue, CodeNibble;
    var v := BlockValue(b);
    BlockValueIsShort(b);
    BytesLength(v, 1);
    BytesLength(v, 2);
    assert Power(1) == 0x100 && Power(2) == 0x1_0000 by { assert Power(0) == 1; }
    assert |CodeOption(delta, Bytes(v))| == (if delta < 13 then 1 else 2) + |Bytes(v)|;
  }

  // ----- a whole transfer -----

  /** One answer keeps the offset, whatever block size is chosen ... */
  lemma AnswerKeepsOffset(requested: Block, avail: nat, length: nat, b: Block)
    requires InFields(requested) && Offset(requested) < length <= 0x100_0000
    requires Chooses(requested, avail, length, Chosen(b))
    ensures InFields(b) && Offset(b) == Offset(requested) && b.szx <= requested.szx
  {
    hide Shl, Size;
    if Size(requested.szx) > avail && length - Offset(requested) > avail {
      SmallerKeepsOffset(requested, length, b);
    }
  }

  lemma SmallerKeepsOffset(requested: Block, length: nat, b: Block)
    requires InFields(requested) && Offset(requested) < length <= 0x100_0000
    requires b.szx <= requested.szx && b.num == Shl(requested.num, requested.szx - b.szx) % MAX_NUM
    ensures b.num < MAX_NUM && Offset(b) == Offset(requested)
  {
    hide Shl, Size;
    var num := Shl(requested.num, requested.szx - b.szx);
    ShlKeepsOffset(requested.num, requested.szx, requested.szx - b.szx);
    InRange(num, Size(b.szx), length);
  }

  /** ... and its block fits, is not empty, and has the more-bit exactly if data is left. */
  lemma AnswerFits<T>(requested: Block, avail: nat, data: seq<T>, b: Block)
    requires Offset(requested) < |data| && Chooses(requested, avail, |data|, Chosen(b)) &&
             Offset(b) == Offset(requested)
    ensures var chunk := Chunk(data, b.num, b.szx);
            chunk == data[Offset(requested)..Offset(requested) + |chunk|] && 0 < |chunk| <= avail &&
            (b.m == 1 <==> Offset(requested) + |chunk| < |data|) &&
            (b.m == 1 ==> (b.num + 1) * Size(b.szx) == Offset(requested) + |chunk|)
  {
    hide Shl;
    assert (b.num + 1) * Size(b.szx) == b.num * Size(b.szx) + Size(b.szx);
    hide Size;
  }

  lemma InRange(num: nat, size: nat, length: nat)
    requires size >= 16 && num * size < length <= 0x100_0000
    ensures num < MAX_NUM
  {
    assert num * size == num * 16 + num * (size - 16) && num * (size - 16) >= 0;
  }

  function Concat(chunks: seq<seq<byte>>): seq<byte> {
    if chunks == [] then [] else Concat(chunks[..|chunks| - 1]) + chunks[|chunks| - 1]
  }

  lemma ConcatAppend(chunks: seq<seq<byte>>, c: seq<byte>)
    ensures Concat(chunks + [c]) == Concat(chunks) + c
  {
    assert (chunks + [c])[..|chunks|] == chunks;
  }

  /** The answers so far: block `i` was no larger than its room allowed and than the block before,
      and its option decodes to it. */
  ghost predicate Answered(blocks: seq<Block>, chunks: seq<seq<byte>>, rooms: nat -> nat) {
    |blocks| == |chunks| &&
    (forall i :: 0 <= i < |blocks| ==>
       |chunks[i]| <= rooms(i) && GetBlock(Bytes(BlockValue(blocks[i]))) == blocks[i]) &&
    (forall i :: 0 < i < |blocks| ==> blocks[i].szx <= blocks[i - 1].szx)
  }

  lemma AnsweredNext(blocks: seq<Block>, chunks: seq<seq<byte>>, rooms: nat -> nat, b: Block, c: seq<byte>)
    requires Answered(blocks, chunks, rooms) && |c| <= rooms(|blocks|) && InFields(b)
    requires blocks != [] ==> b.szx <= blocks[|blocks| - 1].szx
    ensures Answered(blocks + [b], chunks + [c], rooms)
  {
    hide GetBlock, Bytes, BlockValue, InFields;
    BlockRoundTrip(b);
    var bs, cs, n := blocks + [b], chunks + [c], |blocks|;
    forall i | 0 <= i <= n
      ensures |cs[i]| <= rooms(i) && GetBlock(Bytes(BlockValue(bs[i]))) == bs[i]
    {
      if i < n { assert bs[i] == blocks[i] && cs[i] == chunks[i]; } else { assert bs[i] == b && cs[i] == c; }
    }
    forall i | 0 < i <= n
      ensures bs[i].szx <= bs[i - 1].szx
    {
      assert bs[i - 1] == blocks[i - 1] && (i < n ==> bs[i] == blocks[i]);
    }
  }

  /** One exchange: the answer, and the next request. */
  method Answer(request: Block, avail: nat, data: seq<byte>)
    returns (b: Block, chunk: seq<byte>, next: Block, more: bool)
    requires InFields(request) && Offset(request) < |data| <= 0x100_0000 && avail >= 16
    ensures InFields(b) && InFields(next) && next.szx == b.szx <= request.szx && 0 < |chunk| <= avail
    ensures Offset(request) + |chunk| <= |data| && chunk == data[Offset(request)..Offset(request) + |chunk|]
    ensures Offset(b) == Offset(request) && chunk == Chunk(data, b.num, b.szx)
    ensures more <==> Offset(request) + |chunk| < |data|
    ensures more ==> Offset(next) == Offset(request) + |chunk|
  {
    var c := ChooseBlock(request, avail, |data|);
    b := c.block;
    AnswerKeepsOffset(request, avail, |data|, b);
    AnswerFits(request, avail, data, b);
    chunk := Chunk(data, b.num, b.szx);
    more := b.m == 1;
    if more {
      InRange(b.num + 1, Size(b.szx), |data|);
      next := Block(b.num + 1, 0, b.szx);
    } else {
      next := b;
    }
  }

  /** Where a transfer stands: `done` octets have arrived, and `request` asks for the next ones. */
  ghost predicate Progress(data: seq<byte>, szx: nat, blocks: seq<Block>, chunks: seq<seq<byte>>, done: nat,
                           request: Block, more: bool) {
    InFields(request) && done <= |data| && Concat(chunks) == data[..done] &&
    (if more then Offset(request) == done < |data| else done == |data|) &&
    (if blocks == [] then more && request.szx == szx
     else request.szx == blocks[|blocks| - 1].szx && blocks[0].szx <= szx)
  }

  lemma ProgressSays(data: seq<byte>, szx: nat, blocks: seq<Block>, chunks: seq<seq<byte>>, done: nat, request: Block)
    requires Progress(data, szx, blocks, chunks, done, request, true)
    ensures InFields(request) && Offset(request) == done < |data|
    ensures blocks != [] ==> request.szx == blocks[|blocks| - 1].szx
  {
  }

  lemma ProgressNext(data: seq<byte>, szx: nat, blocks: seq<Block>, chunks: seq<seq<byte>>, done: nat, request: Block,
                     b: Block, chunk: seq<byte>, next: Block, more: bool)
    requires Progress(data, szx, blocks, chunks, done, request, true)
    requires done + |chunk| <= |data| && chunk == data[done..done + |chunk|]
    requires InFields(next) && next.szx == b.szx <= request.szx
    requires if more then Offset(next) == done + |chunk| < |data| else done + |chunk| == |data|
    ensures Progress(data, szx, blocks + [b], chunks + [chunk], done + |chunk|, next, more)
  {
    ConcatAppend(chunks, chunk);
    hide Concat, Offset, InFields;
    assert data[..done] + chunk == data[..done + |chunk|];
  }

  lemma TransferStarts(data: seq<byte>, szx: nat, rooms: nat -> nat)
    requires data != [] && szx <= 6
    ensures Answered([], [], rooms) && Progress(data, szx, [], [], 0, Block(0, 0, szx), true)
  {
  }

  lemma ProgressEnds(data: seq<byte>, szx: nat, blocks: seq<Block>, chunks: seq<seq<byte>>, done: nat, request: Block)
    requires Progress(data, szx, blocks, chunks, done, request, false)
    ensures Concat(chunks) == data && blocks != [] && blocks[0].szx <= szx
  {
    hide Concat, Offset;
    assert data[..|data|] == data;
  }

  /** A client asks for block 0 and then for the next block, in the size of the last answer, until an
      answer has no more-bit.  The room in each message may differ. */
  method Transfer(data: seq<byte>, szx: nat, rooms: nat -> nat) returns (blocks: seq<Block>, chunks: seq<seq<byte>>)
    requires 0 < |data| <= 0x100_0000 && szx <= 6 && forall i :: rooms(i) >= 16
    ensures Answered(blocks, chunks, rooms) && Concat(chunks) == data
    ensures blocks != [] && blocks[0].szx <= szx
  {
    hide *;
    TransferStarts(data, szx, rooms);
    blocks, chunks := [], [];
    var request, more := Block(0, 0, szx), true;
    ghost var done: nat := 0;
    while more
      invariant Answered(blocks, chunks, rooms) && done <= |data|
      invariant Progress(data, szx, blocks, chunks, done, request, more)
      decreases |data| - done, more
    {
      ProgressSays(data, szx, blocks, chunks, done, request);
      var b, chunk, next, again := Answer(request, rooms(|blocks|), data);
      AnsweredNext(blocks, chunks, rooms, b, chunk);
      ProgressNext(data, szx, blocks, chunks, done, request, b, chunk, next, again);
      blocks, chunks, done := blocks + [b], chunks + [chunk], done + |chunk|;
      request, more := next, again;
    }
    ProgressEnds(data, szx, blocks, chunks, done, request);
  }
}
