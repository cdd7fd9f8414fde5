/** Zigzag and variable-length integers, as the Binary Encoding section of Apache Avro 1.11 lays them out. */
module Varint {
  import opened Machine

  const W64 := 0x1_0000_0000_0000_0000
  const W63 := 0x8000_0000_0000_0000
  const MAX_BYTES := 10

  type Int64 = n: int | -W63 <= n < W63

  // ---------- zigzag ----------

  /** (n << 1) ^ (n >> 63): the sign bit moves to the bottom. */
  function Zigzag(n: Int64): Word {
    if n >= 0 then 2 * n else -2 * n - 1
  }

  /** (u >> 1) ^ -(u & 1). */
  function Unzigzag(u: Word): Int64 {
    if u % 2 == 0 then u / 2 else -(u / 2) - 1
  }

  lemma ZigzagRoundTrip(n: Int64)
    ensures Unzigzag(Zigzag(n)) == n
  {}

  lemma UnzigzagRoundTrip(u: Word)
    ensures Zigzag(Unzigzag(u)) == u
  {}

  // ---------- varint ----------

  /** Seven bits a byte, low group first; the top bit says that more follow. */
  function Encode(u: nat): (b: seq<byte>)
    ensures b != []
  {
    if u < 128 then [u] else [u % 128 + 128] + Encode(u / 128)
  }

  /** A decoded integer and the number of bytes it took. */
  datatype Got<+T> = Got(value: T, used: nat)

  /** The low seven bits of b placed at unit (a power of 128) above u; what lies beyond bit 63 falls off. */
  function Accept(u: Word, b: byte, unit: nat): Word {
    (u + b % 128 * unit) % W64
  }

  /** The reader from byte i on: u holds the groups so far, unit is 128^i. */
  function ReadFrom(src: seq<byte>, i: nat, u: Word, unit: nat): (r: Option<Got<Word>>)
    ensures r.Some? ==> i < r.value.used <= |src| && r.value.used <= MAX_BYTES
    decreases |src| - i
  {
    if i >= |src| || i >= MAX_BYTES then None
    else
      var v := Accept(u, src[i], unit);
      if src[i] < 128 then Some(Got(v, i + 1)) else ReadFrom(src, i + 1, v, 128 * unit)
  }

  function Read(src: seq<byte>): (r: Option<Got<Word>>)
    ensures r.Some? ==> 0 < r.value.used <= |src| && r.value.used <= MAX_BYTES
  {
    ReadFrom(src, 0, 0, 1)
  }

  /** The loop of the encoder. */
  method AppendVarint(dst: seq<byte>, u: Word) returns (out: seq<byte>)
    ensures out == dst + Encode(u)
  {
    out := dst;
    var v: nat := u;
    while v >= 128
      invariant out + Encode(v) == dst + Encode(u)
    {
      var b: byte := v % 128 + 128;
      assert out + Encode(v) == out + [b] + Encode(v / 128);
      out := out + [b];
      v := v / 128;
    }
    out := out + [v];
  }

  /** The loop of the decoder. */
  method ReadVarint(src: seq<byte>) returns (r: Option<Got<Word>>)
    ensures r == Read(src)
  {
    hide Accept;
    var u: Word, unit: nat := 0, 1;
    for i := 0 to |src|
      invariant i <= MAX_BYTES
      invariant Read(src) == ReadFrom(src, i, u, unit)
    {
      if i >= MAX_BYTES {
        return None;
      }
      u := Accept(u, src[i], unit);
      unit := 128 * unit;
      if src[i] < 128 {
        return Some(Got(u, i + 1));
      }
    }
    r := None;
  }

  lemma {:induction false} EncodeLength(u: nat, k: nat)
    requires u < Pow128(k) && k > 0
    ensures |Encode(u)| <= k
  {
    if u >= 128 {
      EncodeLength(u / 128, k - 1);
    }
  }

  /** At most ten bytes for a 64-bit value. */
  lemma AtMostTenBytes(u: Word)
    ensures |Encode(u)| <= MAX_BYTES
  {
    Pow128Ten();
    EncodeLength(u, MAX_BYTES);
  }

  lemma Pow128Ten()
    ensures Pow128(10) == 0x40_0000_0000_0000_0000
  {
    assert Pow128(5) == 0x8_0000_0000;
    assert Pow128(10) == 128 * 128 * 128 * 128 * 128 * Pow128(5);
  }

  lemma {:induction false} ReadFromEncoded(pre: seq<byte>, v: nat, rest: seq<byte>, u: Word, unit: nat)
    requires unit > 0 && u + v * unit < W64 && |pre| + |Encode(v)| <= MAX_BYTES
    ensures ReadFrom(pre + Encode(v) + rest, |pre|, u, unit) == Some(Got(u + v * unit, |pre| + |Encode(v)|))
    decreases v
  {
    hide Accept;
    var src := pre + Encode(v) + rest;
    assert src[|pre|] == Encode(v)[0];
    AcceptGroup(u, v, unit);
    if v >= 128 {
      var b: byte := v % 128 + 128;
      var u' := Accept(u, b, unit);
      ReadFromEncoded(pre + [b], v / 128, rest, u', 128 * unit);
      assert pre + [b] + Encode(v / 128) + rest == src;
    }
  }

  /** Taking the low group of v and leaving the rest at the next unit loses nothing while all fits. */
  lemma AcceptGroup(u: Word, v: nat, unit: nat)
    requires u + v * unit < W64
    ensures v < 128 ==> Accept(u, v, unit) == u + v * unit
    ensures v >= 128 ==> Accept(u, v % 128 + 128, unit) + v / 128 * (128 * unit) == u + v * unit
  {
    SplitGroup(v, unit);
    Modulo(u + v % 128 * unit);
  }

  lemma Modulo(x: nat)
    requires x < W64
    ensures x % W64 == x
  {}

  lemma SplitGroup(v: nat, unit: nat)
    ensures v * unit == v % 128 * unit + v / 128 * (128 * unit)
    ensures v / 128 * (128 * unit) >= 0 && v % 128 * unit >= 0
  {
    var q, r := v / 128, v % 128;
    assert v == q * 128 + r;
    assert v * unit == (q * 128 + r) * unit == q * 128 * unit + r * unit;
  }

  /** Reading an encoded value from the front of any input gives it back, with exactly its bytes used. */
  lemma RoundTrip(u: Word, rest: seq<byte>)
    ensures Read(Encode(u) + rest) == Some(Got(u, |Encode(u)|))
  {
    AtMostTenBytes(u);
    ReadFromEncoded([], u, rest, 0, 1);
    assert [] + Encode(u) + rest == Encode(u) + rest;
  }

  // ---------- signed longs ----------

  /** A natural number as a signed 64-bit integer, in two's complement. */
  function LenLong(n: nat): Int64 {
    (n + W63) % W64 - W63
  }

  lemma LenLongIs(n: nat)
    requires n < W63
    ensures LenLong(n) == n
  {}

  function EncodeLong(n: Int64): (b: seq<byte>)
    ensures b != []
  {
    Encode(Zigzag(n))
  }

  function ReadLong(src: seq<byte>): (r: Option<Got<Int64>>)
    ensures r.Some? ==> 0 < r.value.used <= |src| && r.value.used <= MAX_BYTES
  {
    match Read(src)
    case None => None
    case Some(g) => Some(Got(Unzigzag(g.value), g.used))
  }

  lemma LongRoundTrip(n: Int64, rest: seq<byte>)
    ensures ReadLong(EncodeLong(n) + rest) == Some(Got(n, |EncodeLong(n)|))
    ensures (EncodeLong(n) + rest)[|EncodeLong(n)|..] == rest
  {
    RoundTrip(Zigzag(n), rest);
    ZigzagRoundTrip(n);
  }

  method AppendLong(dst: seq<byte>, n: Int64) returns (out: seq<byte>)
    ensures out == dst + EncodeLong(n)
  {
    out := AppendVarint(dst, Zigzag(n));
  }

  method ReadLongValue(src: seq<byte>) returns (r: Option<Got<Int64>>)
    ensures r == ReadLong(src)
  {
    var g := ReadVarint(src);
    if g.None? {
      return None;
    }
    return Some(Got(Unzigzag(g.value.value), g.value.used));
  }
}
