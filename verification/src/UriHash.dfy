/** Resource keys of libcoap: a hash over the segments of a path (hashkey.c, uri.c) or over the
    Uri-Path options of a request (resource.c). */
module UriHash {
  import opened Arithmetic
  import opened Wire
  import opened OptionCodec
  import opened LibPdu
  import opened OptionIterator
  import opened OptionOrder
  import opened Wrappers

  const URI_PATH: nat := 11

  // ----- the hash -----

  type Key = k: seq<byte> | |k| == 4 witness [0, 0, 0, 0]

  const ZERO: Key := [0, 0, 0, 0]

  /** One octet goes into the key: all four octets change, each from the old values. */
  function Step(h: Key, c: byte): Key {
    [(h[0] as nat * 129 + c as nat) % 256,
     (h[1] as nat % 2 * 128 + h[0] as nat / 2 + h[1] as nat) % 256,
     (h[2] as nat % 2 * 128 + h[1] as nat / 2 + h[2] as nat) % 256,
     (h[3] as nat % 2 * 128 + h[2] as nat / 2 + h[3] as nat) % 256]
  }

  function Hash(h: Key, s: seq<byte>): Key {
    if s == [] then h else Step(Hash(h, s[..|s| - 1]), s[|s| - 1])
  }

  /** `coap_hash_impl`, in place.  The first octet is a polynomial in 129 over all octets. */
  method HashInto(h: array<byte>, s: seq<byte>)
    requires h.Length == 4
    modifies h
    ensures h[..] == Hash(old(h[..]), s)
    ensures h[0] == (old(h[0]) * Power129(|s|) + Weighted(s)) % 256
  {
    FirstOctet(h[..], s);
    for i := 0 to |s|
      invariant h[..] == Hash(old(h[..]), s[..i])
    {
      HashOctet(h, s[i]);
      assert s[..i + 1][..i] == s[..i];
    }
    assert s[..|s|] == s;
  }

  /** The inner loop goes down, so that every octet still sees the old value of the one before it. */
  method HashOctet(h: array<byte>, c: byte)
    requires h.Length == 4
    modifies h
    ensures h[..] == Step(old(h[..]), c)
  {
    ghost var was := h[..];
    var j := 3;
    while j > 0
      invariant 0 <= j <= 3 && forall i :: 0 <= i <= j ==> h[i] == was[i]
      invariant forall i :: j < i < 4 ==> h[i] == Step(was, c)[i]
    {
      h[j] := (h[j] as nat % 2 * 128 + h[j - 1] as nat / 2 + h[j] as nat) % 256;
      j := j - 1;
    }
    h[0] := (h[0] as nat * 129 + c as nat) % 256;
  }

  lemma {:induction false} HashAppend(h: Key, a: seq<byte>, b: seq<byte>)
    ensures Hash(h, a + b) == Hash(Hash(h, a), b)
    decreases |b|
  {
    if b == [] {
      assert a + b == a;
    } else {
      assert (a + b)[..|a + b| - 1] == a + b[..|b| - 1];
      HashAppend(h, a, b[..|b| - 1]);
    }
  }

  // ----- what a key says about the octets -----

  function Power129(n: nat): nat {
    if n == 0 then 1 else 129 * Power129(n - 1)
  }

  /** The sum of all octets, each one times 129 to the number of octets behind it. */
  function Weighted(s: seq<byte>): nat {
    if s == [] then 0 else s[0] * Power129(|s| - 1) + Weighted(s[1..])
  }

  lemma {:induction false} WeightedAppend(s: seq<byte>, c: byte)
    ensures Weighted(s + [c]) == 129 * Weighted(s) + c
  {
    if s == [] {
      assert [c][1..] == [];
    } else {
      var p := Power129(|s| - 1);
      WeightedAppend(s[1..], c);
      assert (s + [c])[1..] == s[1..] + [c];
      assert s[0] * (129 * p) == 129 * (s[0] * p);
    }
  }

  lemma ModTimes129(x: nat, c: nat)
    ensures (x % 256 * 129 + c) % 256 == (129 * x + c) % 256
  {
    Times256(x % 256 * 129 + c, 129 * (x / 256));
  }

  lemma FirstOfStep(h: Key, c: byte)
    ensures Step(h, c)[0] == (h[0] as nat * 129 + c) % 256
  {
  }

  lemma HashMore(h: Key, s: seq<byte>, c: byte)
    ensures Hash(h, s + [c]) == Step(Hash(h, s), c)
  {
    assert (s + [c])[..|s|] == s;
    hide Step;
  }

  /** The first octet of a key. */
  lemma {:induction false} FirstOctet(h: Key, s: seq<byte>)
    ensures Hash(h, s)[0] == (h[0] * Power129(|s|) + Weighted(s)) % 256
  {
    if s != [] {
      hide Hash, Step, Weighted;
      var t, c := s[..|s| - 1], s[|s| - 1];
      assert s == t + [c];
      FirstOctet(h, t);
      WeightedAppend(t, c);
      HashMore(h, t, c);
      FirstOfStep(Hash(h, t), c);
      assert Power129(|s|) == 129 * Power129(|t|);
      hide Power129;
      NextFirst(h[0], Power129(|t|), Weighted(t), c);
    }
  }

  lemma NextFirst(h: nat, p: nat, w: nat, c: nat)
    ensures ((h * p + w) % 256 * 129 + c) % 256 == (h * (129 * p) + (129 * w + c)) % 256
  {
    ModTimes129(h * p + w, c);
    Distribute(h, p, w, c);
  }

  lemma Distribute(h: nat, p: nat, w: nat, c: nat)
    ensures 129 * (h * p + w) + c == h * (129 * p) + (129 * w + c)
  {
    assert 129 * (h * p) == h * (129 * p);
  }

  /** The octet that `h` was before `(h << 7) + x + h`; 129 is its own inverse modulo 256. */
  function Unmix(k: byte, x: nat): byte {
    129 * (k + 256 - x % 256) % 256
  }

  lemma Times256(a: int, k: int)
    ensures (a + 256 * k) % 256 == a % 256
  {
    DivModIs(a + 256 * k, 256, a / 256 + k, a % 256);
  }

  /** The shift to the left is a multiplication by 129. */
  lemma MixIs(h: byte, x: nat)
    ensures (h % 2 * 128 + x + h) % 256 == (h * 129 + x) % 256
  {
    Times256(h % 2 * 128 + x + h, h / 2);
  }

  lemma UnmixMixed(h: byte, x: nat)
    requires x < 256
    ensures Unmix((h % 2 * 128 + x + h) % 256, x) == h && Unmix((h * 129 + x) % 256, x) == h
  {
    hide Unmix;
    MixIs(h, x);
    UnmixProduct(h, x, (h as int * 129 + x) % 256);
  }

  lemma UnmixProduct(h: byte, x: nat, m: byte)
    requires x < 256 && m == (h as int * 129 + x) % 256
    ensures Unmix(m, x) == h
  {
    var q := (h as int * 129 + x) / 256;
    DivModOf(h as int * 129 + x, 256);
    DivModIs(129 * (m + 256 - x), 256, 65 * h + 129 - 129 * q, h);
    UnmixIs(m, x);
    hide Unmix;
  }

  lemma UnmixIs(k: byte, x: nat)
    requires x < 256
    ensures Unmix(k, x) == 129 * (k as int + 256 - x) % 256
  {
  }

  lemma MixUnmixed(k: byte, x: nat)
    requires x < 256
    ensures var h := Unmix(k, x);
            (h % 2 * 128 + x + h) % 256 == k && (h * 129 + x) % 256 == k
  {
    hide Unmix;
    MixIs(Unmix(k, x), x);
    ProductUnmixed(k, x, Unmix(k, x));
  }

  lemma ProductUnmixed(k: byte, x: nat, h: byte)
    requires x < 256 && h == Unmix(k, x)
    ensures (h * 129 + x) % 256 == k
  {
    UnmixIs(k, x);
    hide Unmix;
    var y := k as int + 256 - x;
    var q := 129 * y / 256;
    DivModOf(129 * y, 256);
    DivModIs(h as int * 129 + x, 256, 65 * y + 1 - 129 * q, k);
  }

  /** The key before an octet went into it. */
  function Before(k: Key, c: byte): Key {
    var h0 := Unmix(k[0], c);
    var h1 := Unmix(k[1], h0 / 2);
    var h2 := Unmix(k[2], h1 / 2);
    [h0, h1, h2, Unmix(k[3], h2 / 2)]
  }

  /** Each octet permutes the keys: `Before` undoes it on both sides. */
  lemma OctetPermutesKeys(h: Key, c: byte)
    ensures Before(Hash(h, [c]), c) == h && Hash(Before(h, c), [c]) == h
  {
    HashOne(h, c);
    HashOne(Before(h, c), c);
    StepBack(h, c);
    StepForth(h, c);
    hide *;
  }

  lemma StepBack(h: Key, c: byte)
    ensures Before(Step(h, c), c) == h
  {
    hide Unmix;
    UnmixMixed(h[0], c);
    UnmixMixed(h[1], h[0] / 2);
    UnmixMixed(h[2], h[1] / 2);
    UnmixMixed(h[3], h[2] / 2);
  }

  lemma StepForth(k: Key, c: byte)
    ensures Step(Before(k, c), c) == k
  {
    hide Unmix;
    var h := Before(k, c);
    MixUnmixed(k[0], c);
    MixUnmixed(k[1], h[0] / 2);
    MixUnmixed(k[2], h[1] / 2);
    MixUnmixed(k[3], h[2] / 2);
  }

  lemma HashOne(h: Key, c: byte)
    ensures Hash(h, [c]) == Step(h, c)
  {
    assert [c][..0] == [];
    hide Step;
  }

  /** So does a text ... */
  lemma {:induction false} HashIsInjective(h: Key, k: Key, s: seq<byte>)
    ensures Hash(h, s) == Hash(k, s) <==> h == k
  {
    if s != [] {
      var t, c := s[..|s| - 1], s[|s| - 1];
      hide Step, Before;
      HashIsInjective(h, k, t);
      HashOne(Hash(h, t), c);
      HashOne(Hash(k, t), c);
      OctetPermutesKeys(Hash(h, t), c);
      OctetPermutesKeys(Hash(k, t), c);
    }
  }

  /** ... and two texts that differ in one octet have different keys. */
  lemma OneOctetMatters(h: Key, a: seq<byte>, c: byte, d: byte, b: seq<byte>)
    ensures Hash(h, a + [c] + b) == Hash(h, a + [d] + b) <==> c == d
  {
    hide *;
    var k := Hash(h, a);
    HashThree(h, a, c, b);
    HashThree(h, a, d, b);
    HashIsInjective(Hash(k, [c]), Hash(k, [d]), b);
    OctetIsInjective(k, c, d);
  }

  lemma HashThree(h: Key, a: seq<byte>, c: byte, b: seq<byte>)
    ensures Hash(h, a + [c] + b) == Hash(Hash(Hash(h, a), [c]), b)
  {
    hide Hash;
    HashAppend(h, a + [c], b);
    HashAppend(h, a, [c]);
  }

  lemma OctetIsInjective(k: Key, c: byte, d: byte)
    ensures Hash(k, [c]) == Hash(k, [d]) <==> c == d
  {
    HashOne(k, c);
    HashOne(k, d);
    hide Hash;
    SumIsInjective(k[0] as nat * 129, c, d);
  }

  lemma SumIsInjective(x: nat, c: byte, d: byte)
    ensures (x + c) % 256 == (x + d) % 256 <==> c == d
  {
    if (x + c) % 256 == (x + d) % 256 {
      DivModOf(x + c, 256);
      DivModOf(x + d, 256);
    }
  }

  function HashAll(h: Key, segments: seq<seq<byte>>): Key
    decreases segments
  {
    if segments == [] then h else HashAll(Hash(h, segments[0]), segments[1..])
  }

  function Flat(segments: seq<seq<byte>>): seq<byte>
    decreases segments
  {
    if segments == [] then [] else segments[0] + Flat(segments[1..])
  }

  /** The key depends only on the concatenated segments. */
  lemma {:induction false} HashAllIsHash(h: Key, segments: seq<seq<byte>>)
    ensures HashAll(h, segments) == Hash(h, Flat(segments))
    decreases segments
  {
    if segments != [] {
      HashAllIsHash(Hash(h, segments[0]), segments[1..]);
      HashAppend(h, segments[0], Flat(segments[1..]));
    }
  }

  // ----- segments of a path -----

  const SLASH: byte := 47
  const QUESTION: byte := 63
  const HASH: byte := 35

  predicate Delimiter(c: byte) {
    c == QUESTION || c == HASH
  }

  /** The length of the segment at the front of `s`. */
  function SegmentLength(s: seq<byte>): (k: nat)
    ensures k <= |s| && (k < |s| ==> s[k] == SLASH || Delimiter(s[k]))
    ensures forall i :: 0 <= i < k ==> s[i] != SLASH && !Delimiter(s[i])
  {
    if s == [] || s[0] == SLASH || Delimiter(s[0]) then 0 else 1 + SegmentLength(s[1..])
  }

  /** Without the separator in front of a segment. */
  function Skipped(s: seq<byte>): seq<byte> {
    if s != [] && s[0] == SLASH then s[1..] else s
  }

  /** The segments of a path, up to a query or a fragment.  A slash at the end begins no segment. */
  function Segments(s: seq<byte>): seq<seq<byte>>
    decreases |s|
  {
    if s == [] || Delimiter(s[0]) || Skipped(s) == [] then [] else
    var t := Skipped(s);
    var k := SegmentLength(t);
    [t[..k]] + Segments(t[k..])
  }

  /** The octets of a path up to a question mark or a number sign, without the slashes. */
  function Letters(s: seq<byte>): seq<byte> {
    if s == [] || s[0] == 63 || s[0] == 35 then []
    else (if s[0] == 47 then [] else [s[0]]) + Letters(s[1..])
  }

  lemma LettersUnfold(s: seq<byte>)
    ensures Letters(s) == if s == [] || s[0] == 63 || s[0] == 35 then []
                          else (if s[0] == 47 then [] else [s[0]]) + Letters(s[1..])
  {
  }

  lemma {:induction false} LettersRun(s: seq<byte>, k: nat)
    requires k <= |s| && forall i :: 0 <= i < k ==> s[i] !in {47, 63, 35}
    ensures Letters(s) == s[..k] + Letters(s[k..])
    decreases k
  {
    hide Letters;
    if k == 0 {
      assert s[0..] == s && [] + Letters(s) == Letters(s);
    } else {
      LettersUnfold(s);
      LettersRun(s[1..], k - 1);
      assert s[..k] == [s[0]] + s[1..][..k - 1] && s[1..][k - 1..] == s[k..];
      assert [s[0]] + (s[1..][..k - 1] + Letters(s[k..])) == [s[0]] + s[1..][..k - 1] + Letters(s[k..]);
    }
  }

  /** The segments together are the octets of the path without its slashes. */
  lemma {:induction false} SegmentsAreLetters(s: seq<byte>)
    ensures Flat(Segments(s)) == Letters(s)
    decreases |s|
  {
    SegmentsUnfold(s);
    hide Segments, SegmentLength;
    var t := Skipped(s);
    if s != [] && !Delimiter(s[0]) {
      assert s[0] == 47 ==> [] + Letters(s[1..]) == Letters(s[1..]);
      if t != [] {
        var k := SegmentLength(t);
        LettersRun(t, k);
        SegmentsAreLetters(t[k..]);
        assert ([t[..k]] + Segments(t[k..]))[1..] == Segments(t[k..]);
      }
    }
  }

  /** A path made of parts, each one behind a slash, and what follows it. */
  function Path(parts: seq<seq<byte>>, rest: seq<byte>): seq<byte>
    decreases parts
  {
    if parts == [] then rest else [47] + (parts[0] + Path(parts[1..], rest))
  }

  /** Its segments are the parts again, whatever query or fragment follows, exactly unless it ends with an
      empty part. */
  lemma {:induction false} SegmentsOfParts(parts: seq<seq<byte>>, rest: seq<byte>)
    requires forall p <- parts :: Plain(p)
    requires rest == [] || rest[0] == 63 || rest[0] == 35
    ensures Segments(Path(parts, rest)) == parts <==> parts == [] || parts[|parts| - 1] != [] || rest != []
    decreases parts
  {
    hide Segments, SegmentLength, Path;
    PathUnfold(parts, rest);
    if parts == [] {
      SegmentsUnfold(rest);
    } else {
      var p, u := parts[0], Path(parts[1..], rest);
      assert forall q <- parts[1..] :: q in parts;
      SegmentsOfParts(parts[1..], rest);
      hide Plain;
      FirstSegment(p, u);
      if p + u != [] {
        assert ([p] + Segments(u))[1..] == Segments(u) && [p] + parts[1..] == parts;
      }
    }
  }

  /** Without a separator or a delimiter. */
  predicate Plain(p: seq<byte>) {
    47 !in p && 63 !in p && 35 !in p
  }

  lemma PathUnfold(parts: seq<seq<byte>>, rest: seq<byte>)
    requires rest == [] || rest[0] == 63 || rest[0] == 35
    ensures parts == [] ==> Path(parts, rest) == rest
    ensures parts != [] ==>
              var p, u := parts[0], Path(parts[1..], rest);
              Path(parts, rest) == [47] + (p + u) && (u == [] || u[0] in {47, 63, 35}) &&
              (u == [] <==> |parts| == 1 && rest == [])
  {
  }

  lemma FirstSegment(p: seq<byte>, u: seq<byte>)
    requires Plain(p) && (u == [] || u[0] in {47, 63, 35})
    ensures Segments([47] + (p + u)) == if p + u == [] then [] else [p] + Segments(u)
  {
    hide Segments, SegmentLength;
    SegmentsUnfold([47] + (p + u));
    assert Skipped([47] + (p + u)) == p + u;
    PartLength(p, u);
    hide Plain, Skipped;
    assert (p + u)[..|p|] == p && (p + u)[|p|..] == u;
  }

  lemma PartLength(p: seq<byte>, u: seq<byte>)
    requires Plain(p) && (u == [] || u[0] in {47, 63, 35})
    ensures SegmentLength(p + u) == |p|
  {
    hide SegmentLength;
    assert forall i :: 0 <= i < |p| ==> (p + u)[i] == p[i] && p[i] in p;
    SegmentLengthIs(p + u, |p|);
  }

  class ParseIterator {
    const text: seq<byte>
    var pos: nat
    var n: nat
    var segmentLength: nat
    /** `pos` is the null pointer. */
    var ended: bool

    ghost predicate Valid()
      reads this
    {
      pos + n == |text| && segmentLength <= n
    }

    /** The segments still to come. */
    ghost function Remaining(): seq<seq<byte>>
      requires Valid()
      reads this
    {
      if ended then [] else Segments(text[pos + segmentLength..])
    }

    /** `coap_parse_iterator_init` */
    constructor (s: seq<byte>)
      ensures Valid() && text == s && Remaining() == Segments(s) && !ended
    {
      text, pos, n, segmentLength, ended := s, 0, |s|, 0, false;
      new;
      assert text[0..] == s;
    }

    /** The inner loop: up to a separator or a delimiter. */
    method Measure()
      requires Valid() && segmentLength == 0
      modifies this`segmentLength
      ensures Valid() && segmentLength == SegmentLength(text[pos..])
    {
      ghost var t := text[pos..];
      while segmentLength < n && text[pos + segmentLength] != SLASH && !Delimiter(text[pos + segmentLength])
        invariant segmentLength <= n
        invariant forall i :: 0 <= i < segmentLength ==> t[i] != SLASH && !Delimiter(t[i])
      {
        segmentLength := segmentLength + 1;
      }
      SegmentLengthIs(t, segmentLength);
    }

    /** `coap_parse_next`, until it has returned the null pointer. */
    method Next()
      requires Valid() && !ended
      modifies this
      ensures Valid()
      ensures ended ==> old(Remaining()) == []
      ensures !ended ==> old(Remaining()) == [text[pos..pos + segmentLength]] + Remaining()
      ensures !ended ==> n - segmentLength < old(n - segmentLength)
    {
      hide Segments, SegmentLength;
      n := n - segmentLength;
      pos := pos + segmentLength;
      segmentLength := 0;
      ghost var s := text[pos..];
      SegmentsUnfold(s);
      if n == 0 || Delimiter(text[pos]) {
        ended := true;
        return;
      }
      if text[pos] == SLASH {
        pos := pos + 1;
        n := n - 1;
      }
      assert text[pos..] == Skipped(s);
      Measure();
      Pieces(text, pos, segmentLength);
      if n == 0 {
        ended := true;
        segmentLength := 0;
      }
    }
  }

  lemma SegmentsUnfold(s: seq<byte>)
    ensures var t := Skipped(s);
            var k := SegmentLength(t);
            Segments(s) == (if s == [] || Delimiter(s[0]) || t == [] then [] else [t[..k]] + Segments(t[k..])) &&
            (s != [] && !Delimiter(s[0]) && t == s ==> k > 0)
  {
  }

  lemma SegmentLengthIs(s: seq<byte>, k: nat)
    requires k <= |s| && (forall i :: 0 <= i < k ==> s[i] != SLASH && !Delimiter(s[i]))
    requires k < |s| ==> s[k] == SLASH || Delimiter(s[k])
    ensures SegmentLength(s) == k
  {
  }

  /** `coap_hash_path`: `coap_split_path_impl` with the hash as its handler. */
  method HashPath(path: seq<byte>, key: array<byte>)
    requires key.Length == 4
    modifies key
    ensures key[..] == HashAll(ZERO, Segments(path)) == Hash(ZERO, Letters(path))
    ensures key[0] == Weighted(Letters(path)) % 256
  {
    KeyOfPath(path);
    key[0], key[1], key[2], key[3] := 0, 0, 0, 0;
    var pi := new ParseIterator(path);
    assert key[..] == ZERO;
    pi.Next();
    while !pi.ended
      invariant pi.Valid() && pi.text == path && fresh(pi)
      invariant pi.ended ==> key[..] == HashAll(ZERO, Segments(path))
      invariant !pi.ended ==>
        HashAll(key[..], [pi.text[pi.pos..pi.pos + pi.segmentLength]] + pi.Remaining()) == HashAll(ZERO, Segments(path))
      decreases !pi.ended, pi.n - pi.segmentLength
    {
      hide Segments, Hash;
      ghost var first, rest := pi.text[pi.pos..pi.pos + pi.segmentLength], pi.Remaining();
      HashInto(key, pi.text[pi.pos..pi.pos + pi.segmentLength]);
      assert ([first] + rest)[1..] == rest;
      pi.Next();
    }
  }

  /** The key of a path is that of its octets without the slashes. */
  lemma KeyOfPath(path: seq<byte>)
    ensures HashAll(ZERO, Segments(path)) == Hash(ZERO, Letters(path))
    ensures Hash(ZERO, Letters(path))[0] == Weighted(Letters(path)) % 256
  {
    hide Hash, HashAll, Segments, Weighted;
    HashAllIsHash(ZERO, Segments(path));
    SegmentsAreLetters(path);
    FirstOctet(ZERO, Letters(path));
  }

  /** Two paths that differ in one octet, in front of any query or fragment, have different keys. */
  lemma PathsDiffer(a: seq<byte>, c: byte, d: byte, b: seq<byte>)
    requires 63 !in a && 35 !in a && c !in {47, 63, 35} && d !in {47, 63, 35}
    ensures HashAll(ZERO, Segments(a + [c] + b)) == HashAll(ZERO, Segments(a + [d] + b)) <==> c == d
  {
    hide *;
    KeyWithOctet(a, c, b);
    KeyWithOctet(a, d, b);
    OneOctetMatters(ZERO, Letters(a), c, d, Letters(b));
  }

  lemma KeyWithOctet(a: seq<byte>, c: byte, b: seq<byte>)
    requires 63 !in a && 35 !in a && c !in {47, 63, 35}
    ensures HashAll(ZERO, Segments(a + [c] + b)) == Hash(ZERO, Letters(a) + [c] + Letters(b))
  {
    hide *;
    KeyOfPath(a + [c] + b);
    LettersWithOctet(a, c, b);
  }

  lemma LettersWithOctet(a: seq<byte>, c: byte, b: seq<byte>)
    requires 63 !in a && 35 !in a && c !in {47, 63, 35}
    ensures Letters(a + [c] + b) == Letters(a) + [c] + Letters(b)
  {
    LettersSplit(a, [c] + b);
    assert ([c] + b)[1..] == b && a + [c] + b == a + ([c] + b);
    assert Letters(a) + ([c] + Letters(b)) == Letters(a) + [c] + Letters(b);
  }

  lemma {:induction false} LettersSplit(a: seq<byte>, b: seq<byte>)
    requires 63 !in a && 35 !in a
    ensures Letters(a + b) == Letters(a) + Letters(b)
  {
    if a == [] {
      assert a + b == b;
    } else {
      assert (a + b)[1..] == a[1..] + b;
      LettersSplit(a[1..], b);
    }
  }

  /** The constant of pdu.h for the path ".well-known/core". */
  method WellknownKey(key: array<byte>)
    requires key.Length == 4
    modifies key
    ensures key[..] == [0xE5, 0x58, 0x64, 0xA5]
  {
    var path: seq<byte> := [46, 119, 101, 108, 108, 45, 107, 110, 111, 119, 110, 47, 99, 111, 114, 101];
    WellknownLetters(path);
    WellknownHash();
    hide Letters, Hash, HashAll, Segments, Weighted;
    HashPath(path, key);
  }

  lemma WellknownLetters(path: seq<byte>)
    requires path == [46, 119, 101, 108, 108, 45, 107, 110, 111, 119, 110, 47, 99, 111, 114, 101]
    ensures Letters(path) == [46, 119, 101, 108, 108, 45, 107, 110, 111, 119, 110, 99, 111, 114, 101]
  {
    hide Letters;
    LettersRun(path, 11);
    LettersRun(path[12..], 4);
    LettersUnfold(path[11..]);
    LettersUnfold([]);
    assert path[11..][1..] == path[12..] && path[12..][4..] == [];
  }

  lemma StepIs(a: byte, b: byte, c: byte, d: byte, x: byte)
    ensures Step([a, b, c, d], x) ==
              [(a as nat * 129 + x) % 256, (b as nat % 2 * 128 + a / 2 + b) % 256,
               (c as nat % 2 * 128 + b / 2 + c) % 256, (d as nat % 2 * 128 + c / 2 + d) % 256]
  {
  }

  lemma WellknownKey0()
    ensures Hash([0x00, 0x00, 0x00, 0x00], [46, 119, 101]) == [0x8A, 0xE9, 0x0B, 0x00]
  {
    hide *;
    StepIs(0x00, 0x00, 0x00, 0x00, 46);
    StepIs(0x2E, 0x00, 0x00, 0x00, 119);
    StepIs(0xA5, 0x17, 0x00, 0x00, 101);
    HashThrice([0x00, 0x00, 0x00, 0x00], 46, 119, 101);
  }

  lemma WellknownKey1()
    ensures Hash([0x8A, 0xE9, 0x0B, 0x00], [108, 108, 45]) == [0x8F, 0xDA, 0xEA, 0x6F]
  {
    hide *;
    StepIs(0x8A, 0xE9, 0x0B, 0x00, 108);
    StepIs(0xF6, 0xAE, 0xFF, 0x05, 108);
    StepIs(0x62, 0x29, 0xD6, 0x04, 45);
    HashThrice([0x8A, 0xE9, 0x0B, 0x00], 108, 108, 45);
  }

  lemma WellknownKey2()
    ensures Hash([0x8F, 0xDA, 0xEA, 0x6F], [107, 110, 111]) == [0x57, 0x52, 0xD6, 0x82]
  {
    hide *;
    StepIs(0x8F, 0xDA, 0xEA, 0x6F, 107);
    StepIs(0x7A, 0x21, 0x57, 0x64, 110);
    StepIs(0xE8, 0xDE, 0xE7, 0x8F, 111);
    HashThrice([0x8F, 0xDA, 0xEA, 0x6F], 107, 110, 111);
  }

  lemma WellknownKey3()
    ensures Hash([0x57, 0x52, 0xD6, 0x82], [119, 110, 99]) == [0x1F, 0x82, 0x4F, 0x4A]
  {
    hide *;
    StepIs(0x57, 0x52, 0xD6, 0x82, 119);
    StepIs(0x4E, 0x7D, 0xFF, 0xED, 110);
    StepIs(0xBC, 0x24, 0xBD, 0xEC, 99);
    HashThrice([0x57, 0x52, 0xD6, 0x82], 119, 110, 99);
  }

  lemma WellknownKey4()
    ensures Hash([0x1F, 0x82, 0x4F, 0x4A], [111, 114, 101]) == [0xE5, 0x58, 0x64, 0xA5]
  {
    hide *;
    StepIs(0x1F, 0x82, 0x4F, 0x4A, 111);
    StepIs(0x0E, 0x91, 0x10, 0x71, 114);
    StepIs(0x80, 0x18, 0x58, 0xF9, 101);
    HashThrice([0x1F, 0x82, 0x4F, 0x4A], 111, 114, 101);
  }

  lemma WellknownHash()
    ensures Hash(ZERO, [46, 119, 101, 108, 108, 45, 107, 110, 111, 119, 110, 99, 111, 114, 101]) ==
              [0xE5, 0x58, 0x64, 0xA5]
  {
    hide Hash;
    WellknownKey0();
    WellknownKey1();
    WellknownKey2();
    WellknownKey3();
    WellknownKey4();
    HashAppend(ZERO, [46, 119, 101], [108, 108, 45]);
    HashAppend(ZERO, [46, 119, 101, 108, 108, 45], [107, 110, 111]);
    HashAppend(ZERO, [46, 119, 101, 108, 108, 45, 107, 110, 111], [119, 110, 99]);
    HashAppend(ZERO, [46, 119, 101, 108, 108, 45, 107, 110, 111, 119, 110, 99], [111, 114, 101]);
    assert [46, 119, 101] + [108, 108, 45] == [46, 119, 101, 108, 108, 45];
    assert [46, 119, 101, 108, 108, 45] + [107, 110, 111] == [46, 119, 101, 108, 108, 45, 107, 110, 111];
    assert [46, 119, 101, 108, 108, 45, 107, 110, 111] + [119, 110, 99] ==
           [46, 119, 101, 108, 108, 45, 107, 110, 111, 119, 110, 99];
    assert [46, 119, 101, 108, 108, 45, 107, 110, 111, 119, 110, 99] + [111, 114, 101] ==
           [46, 119, 101, 108, 108, 45, 107, 110, 111, 119, 110, 99, 111, 114, 101];
  }

  lemma HashThrice(h: Key, a: byte, b: byte, c: byte)
    ensures Hash(h, [a, b, c]) == Step(Step(Step(h, a), b), c)
  {
    hide Step;
    HashMore(h, [], a);
    HashMore(h, [a], b);
    HashMore(h, [a, b], c);
    assert [] + [a] == [a] && [a] + [b] == [a, b] && [a, b] + [c] == [a, b, c];
  }

  // ----- the Uri-Path options of a request -----

  function Values(opts: seq<Option>): seq<seq<byte>> {
    seq(|opts|, i requires 0 <= i < |opts| => opts[i].value)
  }

  /** `coap_hash_request_uri` */
  method HashRequestUri(request: Pdu, key: array<byte>)
    requires request.Valid() && key.Length == 4 && key != request.buf
    modifies key
    ensures key[..] == HashAll(ZERO, Values(Visits(0, AfterToken(request.Contents()), Some(Only(11)))))
  {
    key[0], key[1], key[2], key[3] := 0, 0, 0, 0;
    var it := new Iterator(request, Some(Only(URI_PATH)));
    assert key[..] == ZERO;
    ghost var all := it.Remaining();
    var more := true;
    while more
      invariant it.Valid() && it.pdu == request && fresh(it) && (!more ==> it.Remaining() == [])
      invariant HashAll(key[..], Values(it.Remaining())) == HashAll(ZERO, Values(all))
      decreases |it.Remaining()|, more
    {
      hide Hash, Visits, Parse, Only;
      more := HashNext(it, key);
    }
  }

  /** One turn of the loop. */
  method HashNext(it: Iterator, key: array<byte>) returns (more: bool)
    requires it.Valid() && key.Length == 4 && key != it.pdu.buf
    modifies key, it
    ensures it.Valid() && HashAll(key[..], Values(it.Remaining())) == old(HashAll(key[..], Values(it.Remaining())))
    ensures more ==> |it.Remaining()| < old(|it.Remaining()|)
    ensures !more ==> it.Remaining() == []
  {
    hide Hash, Visits, Parse, Only;
    ghost var before := it.Remaining();
    var at := it.Next();
    if at.None? { return false; }
    var value := OptValueAt(it.pdu.buf[..], at.value, it.pdu.length);
    assert value == Values(before)[0];
    assert Values(before)[1..] == Values(it.Remaining());
    HashInto(key, value);
    return true;
  }

  lemma NumberedUnfold(opts: seq<Option>, t: nat)
    ensures Numbered(opts, t) ==
              if opts == [] then [] else (if opts[0].number == t then [opts[0]] else []) + Numbered(opts[1..], t)
  {
  }

  /** The filter for `t` lets another number through, before one that it cannot hold. */
  predicate LetsAlias(opts: seq<Option>, t: nat) {
    opts != [] && opts[0].number % 256 < 64 &&
    ((opts[0].number % 256 == t && opts[0].number != t) || LetsAlias(opts[1..], t))
  }

  lemma AliasUnfold(opts: seq<Option>, t: nat)
    ensures LetsAlias(opts, t) <==>
              opts != [] && opts[0].number % 256 < 64 &&
              ((opts[0].number % 256 == t && opts[0].number != t) || LetsAlias(opts[1..], t))
  {
  }

  /** The filtered visits are the options of the type, exactly unless such a number is let through. */
  lemma {:induction false} SiftIsNumbered(opts: seq<Option>, t: nat)
    requires t < 64 && Sorted(opts)
    ensures Sift(opts, Some(Only(t))) == Numbered(opts, t) <==> !LetsAlias(opts, t)
  {
    hide Only, Getb, Sift, Numbered, LetsAlias;
    SiftUnfold(opts, Some(Only(t)));
    NumberedUnfold(opts, t);
    AliasUnfold(opts, t);
    if opts != [] {
      var o := opts[0];
      OnlyGet(t, o.number);
      if o.number > t {
        assert forall i :: 0 <= i < |opts| ==> o.number <= opts[i].number;
        NumberedNone(opts, t);
        NumberedNone(opts[1..], t);
      }
      if o.number % 256 < 64 {
        SiftIsNumbered(opts[1..], t);
        var sifted, numbered := Sift(opts[1..], Some(Only(t))), Numbered(opts[1..], t);
        assert [] + sifted == sifted && [] + numbered == numbered;
        assert ([o] + sifted)[1..] == sifted && ([o] + numbered)[1..] == numbered;
      }
    }
  }

  /** A path and a request have the same key if the Uri-Path options are the segments of the path; it
      is even enough that both concatenate to the same octets. */
  lemma PathAndRequestAgree(path: seq<byte>, opts: seq<Option>)
    requires Sorted(opts) && !LetsAlias(opts, URI_PATH)
    requires Flat(Values(Numbered(opts, 11))) == Flat(Segments(path))
    ensures HashAll(ZERO, Values(Sift(opts, Some(Only(URI_PATH))))) == HashAll(ZERO, Segments(path))
  {
    hide LetsAlias;
    SiftIsNumbered(opts, 11);
    HashAllIsHash(ZERO, Values(Numbered(opts, 11)));
    HashAllIsHash(ZERO, Segments(path));
  }

  /** The options name the same octets as the path, and the filter tells their numbers apart. */
  ghost predicate NamesPath(opts: seq<Option>, path: seq<byte>) {
    Sorted(opts) && !LetsAlias(opts, URI_PATH) &&
    Flat(Values(Numbered(opts, 11))) == Flat(Segments(path))
  }

  /** `coap_hash_path` and `coap_hash_request_uri` leave the same key for a path and for a request whose
      options name it. */
  method HashBoth(path: seq<byte>, request: Pdu, pathKey: array<byte>, requestKey: array<byte>)
    requires request.Valid() && pathKey.Length == 4 && requestKey.Length == 4
    requires pathKey != requestKey && pathKey != request.buf && requestKey != request.buf
    modifies pathKey, requestKey
    ensures pathKey[..] == HashAll(ZERO, Segments(path))
    ensures NamesPath(Prefix(0, AfterToken(request.Contents())), path) ==> pathKey[..] == requestKey[..]
  {
    ghost var opts := Prefix(0, AfterToken(request.Contents()));
    NamesSameKey(opts, path);
    hide NamesPath, HashAll, Segments, Values, Only, Sift, Prefix;
    HashPath(path, pathKey);
    HashRequestUri(request, requestKey);
  }

  lemma NamesSameKey(opts: seq<Option>, path: seq<byte>)
    ensures NamesPath(opts, path) ==>
              HashAll(ZERO, Values(Sift(opts, Some(Only(URI_PATH))))) == HashAll(ZERO, Segments(path))
  {
    hide HashAll, Segments, Values, Only, Sift, Flat, Numbered;
    if NamesPath(opts, path) { PathAndRequestAgree(path, opts); }
  }

  /** The price of that: moving a slash makes another path with the same key. */
  lemma MovedSlashCollides(a: byte, b: byte, c: byte)
    ensures HashAll(ZERO, [[a, b], [c]]) == HashAll(ZERO, [[a], [b, c]])
  {
    HashAllIsHash(ZERO, [[a, b], [c]]);
    HashAllIsHash(ZERO, [[a], [b, c]]);
    assert [[a, b], [c]][1..] == [[c]] && [[a], [b, c]][1..] == [[b, c]];
    assert Flat([[c]]) == [c] && Flat([[b, c]]) == [b, c];
    hide Hash, HashAll;
    assert [a, b] + [c] == [a] + [b, c];
  }
}
