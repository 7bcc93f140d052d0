/** The base64url codec of the session tokens (zsession/src/base64url.cpp; section 5 of RFC 4648). */
module Base64Url {
  import opened Arithmetic
  import opened Wire
  import opened Wrappers

  const PAD: char := '='
  const WORD: nat := 0x1_0000_0000_0000_0000

  /** The lookup table of the encoder. */
  function Digit(n: nat): char
    requires n < 64
  {
    if n < 26 then 'A' + n as char
    else if n < 52 then 'a' + (n - 26) as char
    else if n < 62 then '0' + (n - 52) as char
    else if n == 62 then '-'
    else '_'
  }

  /** The comparisons of the decoder. */
  function ValueOf(c: char): (v: Maybe<nat>)
    ensures v.Some? ==> v.value < 64 && Digit(v.value) == c && c != PAD
  {
    if 'A' <= c <= 'Z' then Some((c - 'A') as nat)
    else if 'a' <= c <= 'z' then Some((c - 'a') as nat + 26)
    else if '0' <= c <= '9' then Some((c - '0') as nat + 52)
    else if c == '-' then Some(62)
    else if c == '_' then Some(63)
    else None
  }

  lemma ValueOfDigit(n: nat)
    requires n < 64
    ensures ValueOf(Digit(n)) == Some(n)
  {
  }

  // ----- three octets and four digits -----

  function Q0(a: byte): (d: nat) ensures d < 64 { a as nat / 4 }
  function Q1(a: byte, b: byte): (d: nat) ensures d < 64 { a as nat % 4 * 16 + b as nat / 16 }
  function Q2(b: byte, c: byte): (d: nat) ensures d < 64 { b as nat % 16 * 4 + c as nat / 64 }
  function Q3(c: byte): (d: nat) ensures d < 64 { c as nat % 64 }

  type digit = d: nat | d < 64

  function P0(d: digit, e: digit): byte { d * 4 + e / 16 }
  function P1(e: digit, f: digit): byte { e % 16 * 16 + f / 4 }
  function P2(f: digit, g: digit): byte { f % 4 * 64 + g }

  lemma OctetsBack(a: byte, b: byte, c: byte)
    ensures P0(Q0(a), Q1(a, b)) == a && P1(Q1(a, b), Q2(b, c)) == b && P2(Q2(b, c), Q3(c)) == c
  {
  }

  lemma DigitsBack(d: digit, e: digit, f: digit, g: digit)
    ensures Q0(P0(d, e)) == d && Q1(P0(d, e), P1(e, f)) == e && Q2(P1(e, f), P2(f, g)) == f && Q3(P2(f, g)) == g
    ensures Q1(P0(d, e), 0) == e <==> e % 16 == 0
    ensures Q2(P1(e, f), 0) == f <==> f % 4 == 0
  {
  }

  // ----- the format -----

  function Encoded(b: seq<byte>): string {
    if |b| == 0 then ""
    else if |b| == 1 then [Digit(Q0(b[0])), Digit(Q1(b[0], 0)), PAD, PAD]
    else if |b| == 2 then [Digit(Q0(b[0])), Digit(Q1(b[0], b[1])), Digit(Q2(b[1], 0)), PAD]
    else [Digit(Q0(b[0])), Digit(Q1(b[0], b[1])), Digit(Q2(b[1], b[2])), Digit(Q3(b[2]))] + Encoded(b[3..])
  }

  /** The alphabet of section 5 of RFC 4648, sixteen digits at a time. */
  lemma Alphabet(n: nat)
    requires n < 16
    ensures Digit(n) == "ABCDEFGHIJKLMNOP"[n]
    ensures Digit(16 + n) == "QRSTUVWXYZabcdef"[n]
    ensures Digit(32 + n) == "ghijklmnopqrstuv"[n]
    ensures Digit(48 + n) == "wxyz0123456789-_"[n]
  {
  }

  /** The vectors of section 10 of RFC 4648 for "f", "fo" and "foo", and one with the last two digits. */
  lemma Vectors()
    ensures Encoded([0x66]) == "Zg==" && Encoded([0x66, 0x6F]) == "Zm8=" && Encoded([0x66, 0x6F, 0x6F]) == "Zm9v"
    ensures Encoded([0xFB, 0xFF]) == "-_8="
  {
    assert [0x66, 0x6F, 0x6F][3..] == [];
  }

  /** The output has four characters for every three octets, the last group filled up. */
  lemma {:induction false} EncodedLength(b: seq<byte>)
    ensures |Encoded(b)| == 4 * ((|b| + 2) / 3)
  {
    hide Digit, Q0, Q1, Q2, Q3;
    if |b| >= 3 {
      EncodedLength(b[3..]);
    }
  }

  /** What the decoder makes of groups of four characters: `None` for an error. */
  function Octets(s: string): Maybe<seq<byte>> {
    if |s| == 0 then Some([])
    else if |s| < 4 then None
    else
      var d0, d1, d2, d3 := ValueOf(s[0]), ValueOf(s[1]), ValueOf(s[2]), ValueOf(s[3]);
      if d0.None? || d1.None? then None
      else if s[2] == PAD then
        if |s| == 4 then Some([P0(d0.value, d1.value)]) else None
      else if d2.None? then None
      else if s[3] == PAD then
        if |s| == 4 then Some([P0(d0.value, d1.value), P1(d1.value, d2.value)]) else None
      else if d3.None? then None
      else
        var rest := Octets(s[4..]);
        if rest.None? then None
        else Some([P0(d0.value, d1.value), P1(d1.value, d2.value), P2(d2.value, d3.value)] + rest.value)
  }

  /** The result of `decode`: an error looks like the empty string. */
  function Decoded(s: string): seq<byte> {
    if |s| % 4 != 0 || Octets(s).None? then [] else Octets(s).value
  }

  /** A character of the alphabet. */
  predicate Letter(c: char) {
    'A' <= c <= 'Z' || 'a' <= c <= 'z' || '0' <= c <= '9' || c == '-' || c == '_'
  }

  /** Letters only, except that the last one or two characters may be padding; behind a pad in the last
      place but one the decoder does not look. */
  ghost predicate Padded(s: string) {
    |s| % 4 == 0 &&
    (s != "" ==> (forall i :: 0 <= i < |s| - 2 ==> Letter(s[i])) &&
                 (s[|s| - 2] == '=' || (Letter(s[|s| - 2]) && (s[|s| - 1] == '=' || Letter(s[|s| - 1])))))
  }

  lemma LetterIs(c: char)
    ensures ValueOf(c).Some? <==> Letter(c)
    ensures Letter(c) ==> c != '='
  {
  }

  /** The result is not empty exactly for these strings: an error looks like the empty string. */
  lemma DecodedIff(s: string)
    ensures Decoded(s) != [] <==> s != "" && Padded(s)
  {
    if |s| % 4 == 0 {
      OctetsIff(s);
      hide Padded, ValueOf;
      if s != "" { assert Octets(s).Some? ==> |Octets(s).value| > 0; }
    }
  }

  lemma {:induction false} OctetsIff(s: string)
    requires |s| % 4 == 0
    ensures Octets(s).Some? <==> Padded(s)
  {
    hide ValueOf, Letter, P0, P1, P2;
    if s != "" {
      assert |s| >= 4;
      LetterIs(s[0]);
      LetterIs(s[1]);
      LetterIs(s[2]);
      LetterIs(s[3]);
      if |s| > 4 {
        var rest := s[4..];
        OctetsIff(rest);
        PaddedRest(s);
        hide Padded;
        PadStops(s);
      }
    }
  }

  lemma PadStops(s: string)
    requires |s| > 4 && |s| % 4 == 0
    ensures Octets(s).Some? <==>
              ValueOf(s[0]).Some? && ValueOf(s[1]).Some? && ValueOf(s[2]).Some? && ValueOf(s[3]).Some? &&
              Octets(s[4..]).Some?
  {
    hide P0, P1, P2;
  }

  lemma PaddedRest(s: string)
    requires |s| > 4 && |s| % 4 == 0
    ensures Padded(s) <==> Letter(s[0]) && Letter(s[1]) && Letter(s[2]) && Letter(s[3]) && Padded(s[4..])
  {
    hide Letter;
    var rest := s[4..];
    assert forall i :: 0 <= i < |rest| ==> rest[i] == s[i + 4];
    if Padded(rest) && Letter(s[0]) && Letter(s[1]) && Letter(s[2]) && Letter(s[3]) {
      forall i | 0 <= i < |s| - 2
        ensures Letter(s[i])
      {
        if i >= 4 { assert Letter(rest[i - 4]); }
      }
    }
  }

  /** The bits in front of the padding that fill no octet are dropped. */
  lemma StrayBits(a: digit, b: digit, c: digit, x: char)
    ensures Decoded([Digit(a), Digit(b), '=', x]) == [4 * a + b / 16]
    ensures Decoded([Digit(a), Digit(b), Digit(c), '=']) == [4 * a + b / 16, b % 16 * 16 + c / 4]
  {
    OneLeft(a, b, x);
    TwoLeft(a, b, c);
    hide Decoded, Digit;
  }

  lemma OneLeft(a: digit, b: digit, x: char)
    ensures Decoded([Digit(a), Digit(b), '=', x]) == [P0(a, b)]
  {
    ValueOfDigit(a);
    ValueOfDigit(b);
    hide Digit, ValueOf, P0, P1, P2;
  }

  lemma TwoLeft(a: digit, b: digit, c: digit)
    ensures Decoded([Digit(a), Digit(b), Digit(c), '=']) == [P0(a, b), P1(b, c)]
  {
    ValueOfDigit(a);
    ValueOfDigit(b);
    ValueOfDigit(c);
    hide Digit, ValueOf, P0, P1, P2;
  }

  lemma {:induction false} OctetsOfEncoded(b: seq<byte>)
    ensures Octets(Encoded(b)) == Some(b)
  {
    hide Digit, ValueOf, Q0, Q1, Q2, Q3, P0, P1, P2;
    if |b| == 1 {
      ValueOfDigit(Q0(b[0]));
      ValueOfDigit(Q1(b[0], 0));
      OctetsBack(b[0], 0, 0);
      assert b == [b[0]];
    } else if |b| == 2 {
      ValueOfDigit(Q0(b[0]));
      ValueOfDigit(Q1(b[0], b[1]));
      ValueOfDigit(Q2(b[1], 0));
      OctetsBack(b[0], b[1], 0);
      assert b == [b[0], b[1]];
    } else if |b| >= 3 {
      ValueOfDigit(Q0(b[0]));
      ValueOfDigit(Q1(b[0], b[1]));
      ValueOfDigit(Q2(b[1], b[2]));
      ValueOfDigit(Q3(b[2]));
      OctetsBack(b[0], b[1], b[2]);
      OctetsOfEncoded(b[3..]);
      assert Encoded(b)[4..] == Encoded(b[3..]);
      assert [b[0], b[1], b[2]] + b[3..] == b;
    }
  }

  /** Decoding undoes encoding, for every octet string. */
  lemma DecodeEncode(b: seq<byte>)
    ensures Decoded(Encoded(b)) == b
  {
    EncodedLength(b);
    OctetsOfEncoded(b);
    hide Encoded, Octets;
  }

  /** Groups of digits, the last one padded, and no stray bits in front of the padding. */
  predicate Canonical(s: string) {
    if |s| == 0 then true
    else if |s| < 4 || ValueOf(s[0]).None? || ValueOf(s[1]).None? then false
    else if |s| == 4 && s[2] == PAD then s[3] == PAD && ValueOf(s[1]).value % 16 == 0
    else if |s| == 4 && s[3] == PAD then ValueOf(s[2]).Some? && ValueOf(s[2]).value % 4 == 0
    else ValueOf(s[2]).Some? && ValueOf(s[3]).Some? && Canonical(s[4..])
  }

  lemma EncodedOne(a: byte)
    ensures Encoded([a]) == [Digit(Q0(a)), Digit(Q1(a, 0)), PAD, PAD]
  {
  }

  lemma OneOctet(s: string, d: digit, e: digit)
    requires |s| == 4 && ValueOf(s[0]) == Some(d) && ValueOf(s[1]) == Some(e) && s[2] == PAD
    ensures Encoded([P0(d, e)]) == s <==> e % 16 == 0 && s[3] == PAD
  {
    DigitsBack(d, e, 0, 0);
    ValueOfDigit(Q1(P0(d, e), 0));
    EncodedOne(P0(d, e));
    var r := Encoded([P0(d, e)]);
    hide Digit, ValueOf, Q0, Q1, P0, Encoded;
    assert r == s <==> r[0] == s[0] && r[1] == s[1] && r[2] == s[2] && r[3] == s[3];
  }

  lemma TwoOctets(s: string, d: digit, e: digit, f: digit)
    requires |s| == 4 && ValueOf(s[0]) == Some(d) && ValueOf(s[1]) == Some(e) && ValueOf(s[2]) == Some(f) && s[3] == PAD
    ensures Encoded([P0(d, e), P1(e, f)]) == s <==> f % 4 == 0
  {
    DigitsBack(d, e, f, 0);
    ValueOfDigit(Q2(P1(e, f), 0));
    var r := Encoded([P0(d, e), P1(e, f)]);
    hide Digit, ValueOf, Q0, Q1, Q2, P0, P1;
    assert r == s <==> r[0] == s[0] && r[1] == s[1] && r[2] == s[2] && r[3] == s[3];
  }

  lemma ThreeOctets(s: string, d: digit, e: digit, f: digit, g: digit, rest: seq<byte>)
    requires |s| >= 4 && ValueOf(s[0]) == Some(d) && ValueOf(s[1]) == Some(e)
    requires ValueOf(s[2]) == Some(f) && ValueOf(s[3]) == Some(g)
    ensures Encoded([P0(d, e), P1(e, f), P2(f, g)] + rest) == s <==> Encoded(rest) == s[4..]
  {
    var b := [P0(d, e), P1(e, f), P2(f, g)] + rest;
    DigitsBack(d, e, f, g);
    assert b[3..] == rest;
    var r := [Digit(d), Digit(e), Digit(f), Digit(g)];
    assert Encoded(b) == r + Encoded(rest);
    hide Encoded, Digit, ValueOf, Q0, Q1, Q2, Q3, P0, P1, P2;
    assert r == s[..4];
    assert s == s[..4] + s[4..];
    assert (r + Encoded(rest))[4..] == Encoded(rest);
  }

  /** Encoding undoes decoding exactly on the canonical strings. */
  lemma {:induction false} EncodeDecodeIffCanonical(s: string)
    requires |s| % 4 == 0
    ensures Canonical(s) <==> Octets(s).Some? && Encoded(Octets(s).value) == s
  {
    hide Digit, ValueOf, Encoded, P0, P1, P2;
    if s == "" {
      EncodedLength([]);
    } else {
      var d0, d1, d2, d3 := ValueOf(s[0]), ValueOf(s[1]), ValueOf(s[2]), ValueOf(s[3]);
      if d0.Some? && d1.Some? && |s| == 4 && s[2] == PAD {
        OneOctet(s, d0.value, d1.value);
      } else if d0.Some? && d1.Some? && d2.Some? && |s| == 4 && s[3] == PAD {
        TwoOctets(s, d0.value, d1.value, d2.value);
      } else if d0.Some? && d1.Some? && d2.Some? && d3.Some? {
        EncodeDecodeIffCanonical(s[4..]);
        if Octets(s[4..]).Some? {
          ThreeOctets(s, d0.value, d1.value, d2.value, d3.value, Octets(s[4..]).value);
        }
      }
    }
  }

  /** `encode` undoes `decode` on a string iff it is canonical; an error is undone on the empty one only. */
  lemma EncodeDecodeIff(s: string)
    ensures Encoded(Decoded(s)) == s <==> Canonical(s)
  {
    hide ValueOf, P0, P1, P2;
    EncodedLength(Decoded(s));
    if |s| % 4 == 0 {
      EncodeDecodeIffCanonical(s);
      EncodedLength([]);
    } else {
      CanonicalLength(s);
    }
  }

  lemma {:induction false} CanonicalLength(s: string)
    ensures Canonical(s) ==> |s| % 4 == 0
  {
    hide ValueOf;
    if |s| > 4 { CanonicalLength(s[4..]); }
  }

  // ----- the encoder -----

  /** The masks and shifts of the encoder on 24 bits. */
  lemma GroupBits(a: byte, b: byte, c: byte)
    ensures var temp := a as nat * 65536 + b as nat * 256 + c as nat;
            temp / 262144 % 64 == Q0(a) && temp / 4096 % 64 == Q1(a, b) &&
            temp / 64 % 64 == Q2(b, c) && temp % 64 == Q3(c)
  {
    var temp := a as nat * 65536 + b as nat * 256 + c as nat;
    var a1, a0, b1, b0 := a as nat / 4, a as nat % 4, b as nat / 16, b as nat % 16;
    var c1, c0 := c as nat / 64, c as nat % 64;
    var d1, d2 := a0 * 16 + b1, b0 * 4 + c1;
    assert temp == ((a1 * 64 + d1) * 64 + d2) * 64 + c0;
    DivModIs(temp, 64, (a1 * 64 + d1) * 64 + d2, c0);
    DivModIs((a1 * 64 + d1) * 64 + d2, 64, a1 * 64 + d1, d2);
    DivModIs(a1 * 64 + d1, 64, a1, d1);
    DivModIs(temp, 4096, a1 * 64 + d1, d2 * 64 + c0);
    DivModIs(temp, 262144, a1, d1 * 4096 + d2 * 64 + c0);
  }

  lemma EncodedUnfold(b: seq<byte>)
    ensures |b| == 0 ==> Encoded(b) == ""
    ensures |b| == 1 ==> Encoded(b) == [Digit(Q0(b[0])), Digit(Q1(b[0], 0)), PAD, PAD]
    ensures |b| == 2 ==> Encoded(b) == [Digit(Q0(b[0])), Digit(Q1(b[0], b[1])), Digit(Q2(b[1], 0)), PAD]
    ensures |b| >= 3 ==>
              Encoded(b) ==
                [Digit(Q0(b[0])), Digit(Q1(b[0], b[1])), Digit(Q2(b[1], b[2])), Digit(Q3(b[2]))] + Encoded(b[3..])
  {
    hide Q0, Q1, Q2, Q3, Digit;
  }

  /** `encode` */
  method Encode(input: seq<byte>) returns (out: string)
    ensures out == Encoded(input)
  {
    hide Q0, Q1, Q2, Q3, Digit, Encoded;
    out := "";
    var cursor := 0;
    var temp: nat;
    for idx := 0 to |input| / 3
      invariant cursor == 3 * idx && cursor <= |input|
      invariant out + Encoded(input[cursor..]) == Encoded(input)
    {
      ghost var rest := input[cursor..];
      GroupBits(input[cursor], input[cursor + 1], input[cursor + 2]);
      temp := input[cursor] as nat * 65536 + input[cursor + 1] as nat * 256 + input[cursor + 2] as nat;
      var four := [Digit(temp / 262144 % 64), Digit(temp / 4096 % 64), Digit(temp / 64 % 64), Digit(temp % 64)];
      cursor := cursor + 3;
      assert rest[3..] == input[cursor..];
      EncodedUnfold(rest);
      assert out + (four + Encoded(input[cursor..])) == out + four + Encoded(input[cursor..]);
      out := out + four;
    }
    EncodedUnfold(input[cursor..]);
    if |input| % 3 == 1 {
      GroupBits(input[cursor], 0, 0);
      temp := input[cursor] as nat * 65536;
      out := out + [Digit(temp / 262144 % 64), Digit(temp / 4096 % 64), PAD, PAD];
    } else if |input| % 3 == 2 {
      GroupBits(input[cursor], input[cursor + 1], 0);
      temp := input[cursor] as nat * 65536 + input[cursor + 1] as nat * 256;
      out := out + [Digit(temp / 262144 % 64), Digit(temp / 4096 % 64), Digit(temp / 64 % 64), PAD];
    }
  }

  // ----- the decoder -----

  /** The bits that `k` digits fill. */
  function Span(k: nat): (r: nat)
    ensures r > 0
  {
    if k == 0 then 1 else 64 * Span(k - 1)
  }

  lemma Spans()
    ensures Span(1) == 64 && Span(2) == 4096 && Span(3) == 262144 && Span(4) == 16777216
  {
    assert Span(2) == 64 * Span(1) && Span(3) == 64 * Span(2);
  }

  /** The first `k` digits of a group as a number. */
  function Bits(s: string, k: nat): nat
    requires k <= |s| && forall j :: 0 <= j < k ==> ValueOf(s[j]).Some?
  {
    if k == 0 then 0 else Bits(s, k - 1) * 64 + ValueOf(s[k - 1]).value
  }

  /** The accumulator is never reset, but a shift keeps its lowest bits in step: what is left over from
      earlier groups stays above them. */
  lemma ShiftIn(temp: nat, span: nat, w: nat, d: digit)
    requires span > 0 && WORD == 64 * span * w
    ensures (temp * 64 % WORD + d) % (64 * span) == temp % span * 64 + d
  {
    var a, v, c := temp / span, temp % span, temp * 64 / WORD;
    assert temp == span * a + v;
    assert temp * 64 % WORD == temp * 64 - WORD * c;
    assert temp * 64 == 64 * span * a + 64 * v by { assert 64 * (span * a) == 64 * span * a; }
    assert WORD * c == 64 * span * (w * c);
    assert 64 * span * a - 64 * span * (w * c) == 64 * span * (a - w * c);
    DivModIs(temp * 64 % WORD + d, 64 * span, a - w * c, v * 64 + d);
  }

  /** What a group of four characters leads to: an error, the end of the data with these octets, or
      three octets and more groups. */
  datatype Group = Bad | Last(octets: seq<byte>) | Full(octets: seq<byte>)

  predicate Digits(s: string, k: nat) {
    k <= |s| && forall j :: 0 <= j < k ==> ValueOf(s[j]).Some?
  }

  /** The octets that four digits stand for. */
  function Three(s: string): seq<byte>
    requires Digits(s, 4)
  {
    var d, e, f, g := ValueOf(s[0]).value, ValueOf(s[1]).value, ValueOf(s[2]).value, ValueOf(s[3]).value;
    [P0(d, e), P1(e, f), P2(f, g)]
  }

  /** The group at the front of `s` has been read. */
  ghost predicate GroupRead(s: string, g: Group) {
    |s| >= 4 &&
    match g
    case Bad => Octets(s).None?
    case Last(octets) => Octets(s) == Some(octets)
    case Full(octets) => Digits(s, 4) && octets == Three(s)
  }

  lemma ShiftGroup(s: string, k: nat, temp: nat)
    requires k < 4 <= |s| && (forall j :: 0 <= j < k ==> ValueOf(s[j]).Some?) && temp % Span(k) == Bits(s, k)
    ensures temp * 64 % WORD % (64 * Span(k)) == Bits(s, k) * 64
    ensures ValueOf(s[k]).Some? ==> (temp * 64 % WORD + ValueOf(s[k]).value) % Span(k + 1) == Bits(s, k + 1)
  {
    Spans();
    assert ValueOf(s[k]).Some? ==> Bits(s, k + 1) == Bits(s, k) * 64 + ValueOf(s[k]).value;
    hide Bits, ValueOf;
    var w := if k == 0 then WORD / 64 else if k == 1 then WORD / 4096
             else if k == 2 then WORD / 262144 else WORD / 16777216;
    ShiftIn(temp, Span(k), w, 0);
    if ValueOf(s[k]).Some? {
      ShiftIn(temp, Span(k), w, ValueOf(s[k]).value);
    }
  }

  lemma DigitsOctets(d: digit, e: digit, f: digit, g: digit)
    ensures var v := d * 262144 + e * 4096 + f * 64 + g;
            v / 65536 == P0(d, e) && v / 256 % 256 == P1(e, f) && v % 256 == P2(f, g)
  {
    PartsOctets(d, e / 16, e % 16, f / 4, f % 4, g);
  }

  lemma PartsOctets(d: nat, e1: nat, e0: nat, f1: nat, f0: nat, g: nat)
    requires d < 64 && e1 < 4 && e0 < 16 && f1 < 16 && f0 < 4 && g < 64
    ensures var v := d * 262144 + (16 * e1 + e0) * 4096 + (4 * f1 + f0) * 64 + g;
            v / 65536 == d * 4 + e1 && v / 256 % 256 == e0 * 16 + f1 && v % 256 == f0 * 64 + g
  {
    var v := d * 262144 + (16 * e1 + e0) * 4096 + (4 * f1 + f0) * 64 + g;
    var top, middle, low := d * 4 + e1, e0 * 16 + f1, f0 * 64 + g;
    assert v == 65536 * top + (256 * middle + low);
    DivModIs(v, 65536, top, 256 * middle + low);
    DivModIs(v, 256, 256 * top + middle, low);
    DivModIs(256 * top + middle, 256, top, middle);
    DivModIs(v, 256, 256 * top + middle, low);
  }

  /** The octets that the shifts take out of an accumulator with these digits at its end. */
  lemma ShiftedOut(temp: nat, d: digit, e: digit, f: digit, g: digit)
    requires temp % 16777216 == d * 262144 + e * 4096 + f * 64 + g
    ensures temp / 65536 % 256 == P0(d, e) && temp / 256 % 256 == P1(e, f) && temp % 256 == P2(f, g)
  {
    hide P0, P1, P2;
    DigitsOctets(d, e, f, g);
    DivThenMod(temp, 65536, 256);
    LowOctets(temp);
  }

  /** The octets of a full group. */
  lemma FullOctets(s: string, temp: nat)
    requires Digits(s, 4) && temp % Span(4) == Bits(s, 4)
    ensures [temp / 65536 % 256, temp / 256 % 256, temp % 256] == Three(s)
  {
    hide ValueOf, Bits, P0, P1, P2, Span;
    BitsOf(s);
    Spans();
    ShiftedOut(temp, ValueOf(s[0]).value, ValueOf(s[1]).value, ValueOf(s[2]).value, ValueOf(s[3]).value);
  }

  lemma LowOctets(temp: nat)
    ensures temp / 256 % 256 == temp % 16777216 / 256 % 256 && temp % 256 == temp % 16777216 % 256
  {
    var q, v := temp / 16777216, temp % 16777216;
    DivModIs(temp, 256, 65536 * q + v / 256, v % 256);
    DivModIs(65536 * q + v / 256, 256, 256 * q + v / 256 / 256, v / 256 % 256);
  }

  lemma BitsOf(s: string)
    requires |s| >= 2 && forall j :: 0 <= j < 2 ==> ValueOf(s[j]).Some?
    ensures Bits(s, 2) == ValueOf(s[0]).value * 64 + ValueOf(s[1]).value
    ensures |s| >= 3 && ValueOf(s[2]).Some? ==> Bits(s, 3) == Bits(s, 2) * 64 + ValueOf(s[2]).value
    ensures |s| >= 4 && ValueOf(s[2]).Some? && ValueOf(s[3]).Some? ==>
              Bits(s, 4) == Bits(s, 3) * 64 + ValueOf(s[3]).value
  {
    hide ValueOf;
    assert Bits(s, 1) == Bits(s, 0) * 64 + ValueOf(s[0]).value;
  }

  /** Two octets in front of one padding character. */
  lemma PaddedTwo(s: string, temp: nat)
    requires |s| == 4 && s[3] == PAD && (forall j :: 0 <= j < 3 ==> ValueOf(s[j]).Some?)
    requires temp % 16777216 == Bits(s, 3) * 64
    ensures Octets(s) == Some([temp / 65536 % 256, temp / 256 % 256])
  {
    hide ValueOf, Bits, P0, P1, P2;
    BitsOf(s);
    ShiftedOut(temp, ValueOf(s[0]).value, ValueOf(s[1]).value, ValueOf(s[2]).value, 0);
  }

  /** One octet in front of two. */
  lemma PaddedOne(s: string, temp: nat)
    requires |s| == 4 && s[2] == PAD && (forall j :: 0 <= j < 2 ==> ValueOf(s[j]).Some?)
    requires temp % 262144 == Bits(s, 2) * 64
    ensures Octets(s) == Some([temp / 1024 % 256])
  {
    var d, e := ValueOf(s[0]).value, ValueOf(s[1]).value;
    BitsOf(s);
    hide ValueOf, Bits;
    DivThenMod(temp, 1024, 256);
    DivModIs((d * 64 + e) * 64, 1024, d * 4 + e / 16, e % 16 * 64);
  }

  lemma NoGroup(s: string, k: nat)
    requires k < 4 <= |s| && (forall j :: 0 <= j < k ==> ValueOf(s[j]).Some?) && ValueOf(s[k]).None?
    requires s[k] == PAD ==> |s| - k > 2
    ensures Octets(s).None?
  {
    hide ValueOf, P0, P1, P2;
  }

  /** The inner loop: up to four characters at the front of `s`, the rest of the input. */
  method ReadGroup(s: string, temp0: nat) returns (g: Group, temp: nat)
    requires |s| > 0 && |s| % 4 == 0
    ensures GroupRead(s, g)
  {
    temp := temp0;
    Spans();
    hide Octets, ValueOf;
    var k := 0;
    while k < 4
      invariant k <= 4 && (forall j :: 0 <= j < k ==> ValueOf(s[j]).Some?) && temp % Span(k) == Bits(s, k)
    {
      ShiftGroup(s, k, temp);
      var v := ValueOf(s[k]);
      temp := temp * 64 % WORD;
      if v.Some? {
        temp := temp + v.value;
      } else if s[k] == PAD {
        if |s| - k == 1 {
          PaddedTwo(s, temp);
          return Last([temp / 65536 % 256, temp / 256 % 256]), temp;
        } else if |s| - k == 2 {
          PaddedOne(s, temp);
          return Last([temp / 1024 % 256]), temp;
        } else {
          NoGroup(s, k);
          return Bad, temp;
        }
      } else {
        NoGroup(s, k);
        return Bad, temp;
      }
      k := k + 1;
    }
    FullOctets(s, temp);
    return Full([temp / 65536 % 256, temp / 256 % 256, temp % 256]), temp;
  }

  function Prepend(done: seq<byte>, rest: Maybe<seq<byte>>): Maybe<seq<byte>> {
    if rest.None? then None else Some(done + rest.value)
  }

  /** A full group adds three octets. */
  lemma FullGroup(s: string, done: seq<byte>)
    requires Digits(s, 4)
    ensures Prepend(done, Octets(s)) == Prepend(done + Three(s), Octets(s[4..]))
  {
    hide ValueOf, P0, P1, P2;
    assert s[2] != PAD && s[3] != PAD;
    if Octets(s[4..]).Some? {
      assert done + (Three(s) + Octets(s[4..]).value) == done + Three(s) + Octets(s[4..]).value;
    }
  }

  /** The groups in front of `cursor` have been decoded into `out`. */
  ghost predicate DecodedTo(input: string, cursor: nat, out: seq<byte>) {
    |input| % 4 == 0 && cursor <= |input| && cursor % 4 == 0 &&
    Prepend(out, Octets(input[cursor..])) == Prepend([], Octets(input))
  }

  lemma DecodedStart(input: string)
    ensures if |input| % 4 == 0 then DecodedTo(input, 0, []) else Decoded(input) == []
  {
    assert input[0..] == input;
  }

  /** What the next group means for the result. */
  lemma DecodedNext(input: string, cursor: nat, out: seq<byte>, g: Group)
    requires cursor < |input| && DecodedTo(input, cursor, out) && GroupRead(input[cursor..], g)
    ensures g.Bad? ==> Decoded(input) == []
    ensures g.Last? ==> Decoded(input) == out + g.octets
    ensures g.Full? ==> cursor + 4 <= |input| && DecodedTo(input, cursor + 4, out + g.octets)
  {
    hide Octets, Three;
    var s := input[cursor..];
    if g.Full? {
      FullGroup(s, out);
      assert s[4..] == input[cursor + 4..];
    } else if Octets(input).Some? {
      assert [] + Octets(input).value == Octets(input).value;
    }
  }

  lemma DecodedEnd(input: string, out: seq<byte>)
    requires DecodedTo(input, |input|, out)
    ensures Decoded(input) == out
  {
    assert input[|input|..] == "";
    assert Octets("") == Some([]);
    hide Octets;
    if Octets(input).Some? {
      assert [] + Octets(input).value == Octets(input).value;
    }
  }

  /** `decode` */
  method Decode(input: string) returns (out: seq<byte>)
    ensures out == Decoded(input)
  {
    hide *;
    DecodedStart(input);
    if |input| % 4 != 0 { return []; }
    out := [];
    var temp: nat, cursor := 0, 0;
    while cursor < |input|
      invariant cursor <= |input| && cursor % 4 == 0 && DecodedTo(input, cursor, out)
    {
      var g;
      g, temp := ReadGroup(input[cursor..], temp);
      DecodedNext(input, cursor, out, g);
      if g.Bad? { return []; }
      out := out + g.octets;
      if g.Last? { return; }
      cursor := cursor + 4;
    }
    DecodedEnd(input, out);
  }
}
