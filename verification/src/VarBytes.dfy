/** encode.c: integers in as few octets as possible, most significant first. */
module VarBytes {
  import opened Arithmetic
  import opened Wire

  const TWO32: nat := 0x1_0000_0000

  function Bytes(v: nat): seq<byte> {
    if v == 0 then [] else Bytes(v / 256) + [v % 256]
  }

  function Value(b: seq<byte>): nat {
    if b == [] then 0 else Value(b[..|b| - 1]) * 256 + b[|b| - 1] as nat
  }

  lemma {:induction false} ValueOfBytes(v: nat)
    ensures Value(Bytes(v)) == v
  {
    if v > 0 {
      ValueOfBytes(v / 256);
      assert Bytes(v)[..|Bytes(v)| - 1] == Bytes(v / 256);
    }
  }

  lemma {:induction false} ValueZero(b: seq<byte>)
    ensures Value(b) == 0 <==> forall i :: 0 <= i < |b| ==> b[i] == 0
  {
    if b != [] {
      ValueZero(b[..|b| - 1]);
    }
  }

  /** The shortest form, and only it, is reproduced. */
  lemma {:induction false} BytesOfValue(b: seq<byte>)
    ensures Bytes(Value(b)) == b <==> b == [] || b[0] != 0
  {
    if b != [] {
      var front := b[..|b| - 1];
      BytesOfValue(front);
      ValueZero(b);
      if Value(b) > 0 {
        assert Value(b) / 256 == Value(front) && Value(b) % 256 == b[|b| - 1] as nat;
        if Bytes(Value(front)) == front { assert Bytes(Value(b)) == front + [b[|b| - 1]] == b; }
        if Bytes(Value(b)) == b { assert Bytes(Value(front)) == Bytes(Value(b))[..|b| - 1] == front; }
        ValueZero(front);
      }
    }
  }

  function Power(n: nat): nat {
    if n == 0 then 1 else 256 * Power(n - 1)
  }

  /** A value takes at most `n` octets exactly when it is below 256 to the `n`. */
  lemma {:induction false} BytesLength(v: nat, n: nat)
    ensures |Bytes(v)| <= n <==> v < Power(n)
    decreases n
  {
    if v > 0 && n > 0 {
      BytesLength(v / 256, n - 1);
    } else if n == 0 {
      assert v > 0 ==> |Bytes(v)| > 0;
    } else {
      PowerPositive(n);
    }
  }

  lemma {:induction false} PowerPositive(n: nat)
    ensures Power(n) > 0
  {
    if n > 0 {
      PowerPositive(n - 1);
    }
  }

  /** The value of at most four octets, most significant first, fits 32 bits. */
  lemma ValueBelow(b: seq<byte>)
    ensures |b| == 0 ==> Value(b) == 0
    ensures |b| == 1 ==> Value(b) == b[0]
    ensures |b| == 2 ==> Value(b) == b[0] as nat * 0x100 + b[1]
    ensures |b| == 3 ==> Value(b) == b[0] as nat * 0x1_0000 + b[1] as nat * 0x100 + b[2]
    ensures |b| == 4 ==>
              Value(b) == b[0] as nat * 0x100_0000 + b[1] as nat * 0x1_0000 + b[2] as nat * 0x100 + b[3] < 0x1_0000_0000
  {
    if 0 < |b| <= 4 { ValueBelow(b[..|b| - 1]); }
  }

  /** `coap_decode_var_bytes`; the accumulator has 32 bits. */
  method DecodeVarBytes(b: seq<byte>) returns (n: nat)
    ensures n == Value(b) % 0x1_0000_0000
    ensures |b| <= 4 ==> n == Value(b)
  {
    n := 0;
    for i := 0 to |b|
      invariant n == Value(b[..i]) % TWO32
    {
      assert b[..i + 1][..i] == b[..i];
      ModStep(Value(b[..i]), b[i]);
      n := (n * 256 + b[i] as nat) % TWO32;
    }
    assert b[..|b|] == b;
    hide Value;
    ValueBelow(b);
  }

  lemma ModStep(v: nat, x: byte)
    ensures (v % TWO32 * 256 + x as nat) % TWO32 == (v * 256 + x as nat) % TWO32
  {
    var q, r := v / TWO32, v % TWO32;
    assert v * 256 + x as nat == (r * 256 + x as nat) + TWO32 * (256 * q);
    ModAdd(r * 256 + x as nat, 256 * q);
  }

  lemma {:induction false} ModAdd(a: nat, k: nat)
    ensures (a + TWO32 * k) % TWO32 == a % TWO32
    decreases k
  {
    if k > 0 {
      ModAdd(a, k - 1);
      assert a + TWO32 * k == a + TWO32 * (k - 1) + TWO32;
    }
  }

  /** `coap_encode_var_bytes` for a 32-bit value, into a buffer that is filled from its end. */
  method EncodeVarBytes(buf: array<byte>, val: nat) returns (n: nat)
    requires val < TWO32 && |Bytes(val)| <= buf.Length
    modifies buf
    ensures n == |Bytes(val)| <= 4 && buf[..n] == Bytes(val) && buf[n..] == old(buf[n..])
  {
    assert Power(4) == TWO32 by { assert Power(2) == 65536; assert Power(3) == 16777216; }
    BytesLength(val, 4);
    n := 0;
    var i: nat := val;
    while i != 0 && n < 4
      invariant n + |Bytes(i)| == |Bytes(val)| <= 4
      decreases i
    {
      i := i / 256;
      n := n + 1;
    }
    assert n == |Bytes(val)| by { assert i != 0 ==> |Bytes(i)| > 0; }
    i := n;
    var rest := val;
    while i > 0
      invariant i <= n && Bytes(val) == Bytes(rest) + buf[i..n] && |Bytes(rest)| == i
      invariant buf[n..] == old(buf[n..])
    {
      i := i - 1;
      assert Bytes(rest) == Bytes(rest / 256) + [rest % 256];
      buf[i] := rest % 256;
      assert buf[i..n] == [rest % 256] + buf[i + 1..n];
      rest := rest / 256;
    }
  }

  /** After `n` shifts `left` remains of `i`. */
  ghost predicate Shifted(i: nat, n: nat, left: nat) {
    left * Pow2(n) <= i < (left + 1) * Pow2(n) && (left == 0 && n > 0 ==> Pow2(n - 1) <= i)
  }

  lemma ShiftOnce(i: nat, n: nat, left: nat)
    requires Shifted(i, n, left) && left > 0
    ensures Shifted(i, n + 1, left / 2)
  {
    Halve(left, Pow2(n), i);
  }

  /** `coap_fls`: the position of the highest bit that is set, counted from 1. */
  method Fls(i: nat) returns (n: nat)
    ensures if i == 0 then n == 0 else n > 0 && Pow2(n - 1) <= i < Pow2(n)
  {
    n := 0;
    var left: nat := i;
    while left > 0
      invariant Shifted(i, n, left) && (i > 0 && left == 0 ==> n > 0) && (i == 0 ==> n == 0)
    {
      ShiftOnce(i, n, left);
      left := left / 2;
      n := n + 1;
    }
  }

  lemma Halve(left: nat, p: nat, i: nat)
    requires left > 0 && p > 0 && left * p <= i < (left + 1) * p
    ensures left / 2 * (2 * p) <= i < (left / 2 + 1) * (2 * p)
    ensures p <= i
  {
    var h := left / 2;
    if left % 2 == 0 {
      assert left == 2 * h;
      assert h * (2 * p) == left * p;
      assert (h + 1) * (2 * p) == left * p + 2 * p;
    } else {
      assert left == 2 * h + 1;
      assert h * (2 * p) == left * p - p;
      assert (h + 1) * (2 * p) == left * p + p;
    }
    assert left * p == (left - 1) * p + p && (left - 1) * p >= 0;
  }
}
