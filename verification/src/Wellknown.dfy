/** The answer to a request for `/.well-known/core` (`wellknown_response` in net.c): blocks of the
    text that `LinkFormat` prints. */
module Wellknown {
  import opened BlockTransfer
  import opened LinkFormat
  import opened Wrappers

  const MAX_BLOCK_SZX: nat := 4

  datatype Answer =
    | BadRequest
    | Unavailable
    | Whole(room: nat)
    | Part(block: Block, offset: nat)

  /** The characters that the answer carries. */
  function Payload(text: string, a: Answer): string
    requires a.Whole? || a.Part?
  {
    match a
    case Whole(room) => Window(text, 0, room)
    case Part(block, offset) => Window(text, offset, Size(block.szx))
  }

  /** The largest size up to `MAX_BLOCK_SZX` that fits the room. */
  method FirstSzx(room: nat) returns (szx: Maybe<nat>)
    ensures szx.None? <==> room < 16
    ensures szx.Some? ==> szx.value == LargestSzx(room) && Size(szx.value) <= room
  {
    var s: nat := MAX_BLOCK_SZX;
    SizesAre();
    while room < Size(s)
      invariant s <= MAX_BLOCK_SZX && (s < MAX_BLOCK_SZX ==> room < Size(s + 1))
      decreases s
    {
      if s == 0 { return None; }
      s := s - 1;
    }
    return Some(s);
  }

  /** The size of the largest block of up to 256 characters that fits the room. */
  function LargestSzx(room: nat): nat {
    if room >= 256 then 4 else if room >= 128 then 3 else if room >= 64 then 2 else if room >= 32 then 1 else 0
  }

  lemma SizesAre()
    ensures Size(0) == 16 && Size(1) == 32 && Size(2) == 64 && Size(3) == 128 && Size(4) == 256
  {
    assert Size(2) == 2 * Size(1) && Size(3) == 2 * Size(2);
  }

  /** The offsets that the server can handle: beyond them the block number does not fit 20 bits once
      the block size is reduced. */
  predicate Reachable(requested: Maybe<Block>) {
    requested.Some? ==> Offset(requested.value) < 0x1000_0000
  }

  /** A request for larger blocks than the server serves becomes one with the same offset, exactly if
      the offset is reachable. */
  lemma ClampKeepsOffset(b: Block)
    requires MAX_BLOCK_SZX < b.szx <= 6
    ensures Offset(b) / 256 % MAX_NUM * 256 == Offset(b) <==> Offset(b) < 0x1000_0000
  {
    var k := b.szx - MAX_BLOCK_SZX;
    ShlKeepsOffset(b.num, b.szx, k);
    SizeOfMax();
    assert Offset(b) / 256 == Shl(b.num, k);
  }

  /** The block that is looked for when `b` is asked for. */
  function Clamped(b: Block): Block {
    if b.szx > MAX_BLOCK_SZX then Block(Offset(b) / 256 % MAX_NUM, b.m, MAX_BLOCK_SZX) else b
  }

  /** A block is sent if one is needed, the offset looked for lies inside the text, and there is room
      for 16 octets, or for all that is left, behind the options. */
  predicate Served(requested: Maybe<Block>, room: nat, length: nat) {
    room > 3 &&
    match requested
    case None => length + 2 > room >= 22
    case Some(b) =>
      var start, avail := Offset(Clamped(b)), Avail(room - 2);
      b.szx <= 6 && start < length && (avail >= 16 || length - start <= avail)
  }

  lemma ChosenIff(requested: Block, avail: nat, length: nat, c: Choice)
    requires Chooses(requested, avail, length, c)
    ensures c.Chosen? <==> Offset(requested) < length && (avail >= 16 || length - Offset(requested) <= avail)
  {
    hide Shl;
  }

  lemma SizeOfMax()
    ensures Size(MAX_BLOCK_SZX) == 256
  {
    SizesAre();
  }

  /** The block in which the answer begins, if it needs one. */
  method BlockNeeded(requested: Maybe<Block>, room: nat, total: nat) returns (ok: bool, block: Maybe<Block>)
    requires requested.Some? ==> InFields(requested.value) && requested.value.szx <= 6
    ensures ok <==> requested.Some? || total <= room || room >= 16
    ensures ok ==> (block.None? <==> requested.None? && total <= room)
    ensures ok && block.Some? ==> InFields(block.value) && block.value.szx <= MAX_BLOCK_SZX
    ensures ok && block.Some? && requested.None? ==> block.value.num == 0 && block.value.szx == LargestSzx(room)
    ensures ok && block.Some? && requested.Some? ==> block.value == Clamped(requested.value)
    ensures ok && block.Some? && requested.Some? && Reachable(requested) ==>
              Offset(block.value) == Offset(requested.value)
    ensures ok && block.Some? && requested.Some? ==> block.value.szx <= requested.value.szx
  {
    if requested.Some? {
      var b := requested.value;
      if b.szx > MAX_BLOCK_SZX {
        ClampKeepsOffset(b);
        SizeOfMax();
        return true, Some(Block(Offset(b) / 256 % MAX_NUM, b.m, MAX_BLOCK_SZX));
      }
      return true, Some(b);
    }
    if total <= room { return true, None; }
    var szx := FirstSzx(room);
    if szx.None? { return false, None; }
    return true, Some(Block(0, 0, szx.value));
  }

  /** A part is the block that its Block2 option announces, at the offset asked for, and the more-bit
      is right. */
  ghost predicate PartOf(requested: Maybe<Block>, text: string, a: Answer)
    requires a.Part?
  {
    var b, payload := a.block, Payload(text, a);
    InFields(b) && Offset(b) == a.offset && payload != "" && payload == Chunk(text, b.num, b.szx) &&
    (b.m == 1 <==> a.offset + |payload| < |text|) &&
    a.offset == (if requested.Some? then Offset(requested.value) else 0) &&
    (requested.Some? ==> b.szx <= requested.value.szx)
  }

  lemma WindowIsChunk(text: string, b: Block)
    requires Offset(b) < |text|
    ensures Window(text, Offset(b), Size(b.szx)) == Chunk(text, b.num, b.szx)
  {
  }

  /** The decisions of `wellknown_response`; `room` is what is left behind the token.  A part is right
      exactly if the offset asked for is reachable; without a block the text is sent whole, except
      that its last character is lost if it exactly fills the room. */
  method Respond(requested: Maybe<Block>, room: nat, text: string) returns (a: Answer)
    requires requested.Some? ==> InFields(requested.value)
    requires |text| <= 0x100_0000
    ensures a.BadRequest? <==> requested.Some? && requested.value.szx > 6
    ensures a.Whole? <==> requested.None? && room > 3 && |text| + 2 <= room
    ensures a.Whole? ==> (Payload(text, a) == text <==> |text| + 2 != room || text == "")
    ensures requested.None? ==> (a.Part? <==> |text| + 2 > room >= 22)
    ensures requested.None? && a.Part? ==>
              a.block == Block(0, 1, if room >= 262 then 4 else if room >= 134 then 3 else if room >= 70 then 2
                                     else if room >= 38 then 1 else 0)
    ensures requested.Some? ==>
              var b := requested.value;
              var start := if b.szx <= 4 then Offset(b) else Offset(b) / 256 % 0x10_0000 * 256;
              (a.Part? <==> b.szx <= 6 && room > 3 && start < |text| &&
                            (room >= 22 || room < 6 || |text| - start <= room - 6)) &&
              (a.Part? ==>
                 var want := if b.szx <= 4 then b.szx else 4;
                 a.block.szx == if room < 6 || Size(want) <= room - 6 || |text| - start <= room - 6 then want
                                else if room >= 134 then 3 else if room >= 70 then 2 else if room >= 38 then 1 else 0)
    ensures a.Part? ==> (PartOf(requested, text, a) <==> Reachable(requested))
  {
    hide Size, Chooses, PartOf, Served, Payload;
    ghost var block;
    a, block := Decide(requested, room, text);
    ServedIs(requested, room, |text|);
    if a.Part? { SizeOfPart(requested, block, room, |text|, a.block); }
  }

  lemma ServedIs(requested: Maybe<Block>, room: nat, length: nat)
    ensures requested.None? ==> (Served(requested, room, length) <==> length + 2 > room >= 22)
    ensures requested.Some? ==>
              var b := requested.value;
              var start := if b.szx <= 4 then Offset(b) else Offset(b) / 256 % 0x10_0000 * 256;
              start == Offset(Clamped(b)) &&
              (Served(requested, room, length) <==>
                 b.szx <= 6 && room > 3 && start < length && (room >= 22 || room < 6 || length - start <= room - 6))
  {
    hide Size;
    SizeOfMax();
  }

  lemma SizeOfPart(requested: Maybe<Block>, block: Block, room: nat, length: nat, b: Block)
    requires room > 3 && Chooses(block, Avail(room - 2), length, Chosen(b))
    requires requested.None? ==> room >= 22 && length + 2 > room && block.num == 0 && block.szx == LargestSzx(room - 2)
    requires requested.Some? ==> block == Clamped(requested.value)
    ensures requested.None? ==>
              b == Block(0, 1, if room >= 262 then 4 else if room >= 134 then 3 else if room >= 70 then 2
                               else if room >= 38 then 1 else 0)
    ensures requested.Some? ==>
              var want := if requested.value.szx <= 4 then requested.value.szx else 4;
              var start := Offset(block);
              b.szx == if room < 6 || Size(want) <= room - 6 || length - start <= room - 6 then want
                       else if room >= 134 then 3 else if room >= 70 then 2 else if room >= 38 then 1 else 0
  {
    SizesAre();
    var avail := Avail(room - 2);
    SmallerIs(b.szx, avail);
    ShlZero(block.szx - b.szx);
    hide Size, Shl;
    assert requested.None? ==> Offset(block) == 0;
  }

  /** The size that the halving stops at. */
  lemma SmallerIs(szx: nat, avail: nat)
    ensures szx < 4 && Size(szx) <= avail < 2 * Size(szx) ==> szx == LargestSzx(avail)
  {
    SizesAre();
    if szx < 4 {
      assert szx == 0 || szx == 1 || szx == 2 || szx == 3;
    }
    hide Size;
  }

  lemma ShlZero(k: int)
    ensures k >= 0 ==> Shl(0, k) == 0
  {
    if k > 0 { ShlZero(k - 1); }
  }

  /** The block in which a part begins is `begin`, before its size is reduced to what fits. */
  method Decide(requested: Maybe<Block>, room: nat, text: string) returns (a: Answer, ghost begin: Block)
    requires requested.Some? ==> InFields(requested.value)
    requires |text| <= 0x100_0000
    ensures a.BadRequest? <==> requested.Some? && requested.value.szx > 6
    ensures a.Whole? <==> requested.None? && room > 3 && |text| + 2 <= room
    ensures a.Whole? ==> (Payload(text, a) == text <==> |text| + 2 != room || text == "")
    ensures a.Part? <==> Served(requested, room, |text|)
    ensures a.Part? ==> (PartOf(requested, text, a) <==> Reachable(requested))
    ensures a.Part? ==> room > 3 && Chooses(begin, Avail(room - 2), |text|, Chosen(a.block))
    ensures a.Part? && requested.None? ==> begin.num == 0 && begin.szx == LargestSzx(room - 2)
    ensures a.Part? && requested.Some? ==> begin == Clamped(requested.value)
  {
    hide Size, Chooses, PartOf, LargestSzx;
    begin := Block(0, 0, 0);
    if requested.Some? && requested.value.szx > 6 { return BadRequest, begin; }
    if room <= 3 { return Unavailable, begin; }
    var left := room - 2; // the Content-Format option takes two octets
    var ok, block := BlockNeeded(requested, left, |text|);
    if !ok { return Unavailable, begin; }
    if block.None? { return Whole(left - 1), begin; }
    begin := block.value;
    var offset := if requested.Some? then Offset(requested.value) else 0;
    var c := ChooseBlock(block.value, Avail(left), |text|);
    ChosenIff(block.value, Avail(left), |text|, c);
    if !c.Chosen? { return Unavailable, begin; }
    a := Part(c.block, offset);
    PartIsRight(requested, block.value, Avail(left), text, a);
  }

  lemma PartIsRight(requested: Maybe<Block>, block: Block, avail: nat, text: string, a: Answer)
    requires |text| <= 0x100_0000 && InFields(block) && a.Part?
    requires requested.Some? && Reachable(requested) ==> Offset(block) == Offset(requested.value)
    requires requested.Some? ==> block.szx <= requested.value.szx
    requires requested.None? ==> block.num == 0
    requires a.offset == if requested.Some? then Offset(requested.value) else 0
    requires Chooses(block, avail, |text|, Chosen(a.block))
    ensures PartOf(requested, text, a) <==> Reachable(requested)
  {
    AnswerKeepsOffset(block, avail, |text|, a.block);
    AnswerFits(block, avail, text, a.block);
    if Reachable(requested) {
      WindowIsChunk(text, a.block);
    }
  }
}
