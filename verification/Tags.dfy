/**
 Index tags.  Keys of at most six bytes get a tag that encodes tenant and key without
 loss; longer keys get sampled key bytes over a routing hash.  Shifts into disjoint bit
 fields are written as multiplication and addition.
 */
module Tags {
  import opened Machine
  import opened Trie

  const P44 := 0x1000_0000_0000
  const P47 := 0x8000_0000_0000
  const P48 := 0x1_0000_0000_0000
  const P60 := 0x1000_0000_0000_0000
  const P63 := 0x8000_0000_0000_0000

  /** Whether a key needs the hash lane: longer than six bytes, or six bytes with one outside 7-bit range. */
  predicate HashLane(key: seq<byte>) {
    |key| > 6 || (|key| == 6 && exists i :: 0 <= i < 6 && key[i] >= 128)
  }

  method IsHashLane(key: seq<byte>) returns (r: bool)
    ensures r == HashLane(key)
  {
    if |key| > 6 {
      return true;
    }
    if |key| == 6 {
      for i := 0 to |key|
        invariant forall k :: 0 <= k < i ==> key[k] < 128
      {
        if key[i] >= 128 {
          return true;
        }
      }
    }
    return false;
  }

  /** The low seven bits of the key's bytes as base-128 digits, least significant first. */
  function Strip7(key: seq<byte>): nat {
    if key == [] then 0 else key[0] % 128 + 128 * Strip7(key[1..])
  }

  function Sanitise(tag: Word): Word {
    if tag == EMPTY then 4 else if tag == TOMBSTONE then TOMBSTONE - 4 else tag
  }

  lemma {:induction false} ExactBound(key: seq<byte>)
    ensures LittleEndian(key) < Pow256(|key|)
  {
    if key != [] {
      ExactBound(key[1..]);
    }
  }

  lemma {:induction false} Strip7Bound(key: seq<byte>)
    ensures Strip7(key) < Pow128(|key|)
  {
    if key != [] {
      Strip7Bound(key[1..]);
    }
  }

  lemma PowersOfLengths(n: nat)
    requires n <= 6
    ensures n < 6 ==> Pow256(n) <= 0x100_0000_0000
    ensures n == 6 ==> Pow128(n) == 0x400_0000_0000
  {
    assert Pow256(3) == 0x100_0000 && Pow128(3) == 0x20_0000;
  }

  lemma KeyFits(key: seq<byte>)
    requires |key| <= 6
    ensures |key| < 6 ==> LittleEndian(key) < 0x100_0000_0000
    ensures |key| == 6 ==> Strip7(key) < 0x400_0000_0000
  {
    hide LittleEndian, Strip7, Pow256, Pow128;
    PowersOfLengths(|key|);
    ExactBound(key);
    Strip7Bound(key);
  }

  /** The tag of a short key: its length class, the tenant, the key, and the tenant's low bits again. */
  function TinyTag(tenant: nat, key: seq<byte>): (tag: Word)
    requires tenant < 0x1_0000 && |key| <= 6
  {
    KeyFits(key);
    if |key| == 6 then Sanitise(P63 + tenant * P47 + Strip7(key) * 32 + tenant % 32)
    else Sanitise(|key| * P60 + tenant * P44 + LittleEndian(key) * 16 + tenant % 16)
  }

  /** The loop form: bits are accumulated byte by byte, each byte one digit further up. */
  method MakeTagTiny(tenant: nat, key: seq<byte>) returns (tag: Word)
    requires tenant < 0x1_0000 && |key| <= 6
    ensures tag == TinyTag(tenant, key)
  {
    hide LittleEndian, Strip7, Pow256, Pow128;
    KeyFits(key);
    FirstDigit(key);
    var acc: nat, unit: nat := 0, 1;
    var raw: nat;
    if |key| == 6 {
      for i := 0 to |key|
        invariant unit == Pow128(i) && acc == Strip7(key[..i])
      {
        NextDigit(key, i);
        acc := acc + unit * (key[i] % 128);
        unit := 128 * unit;
      }
      assert key[..|key|] == key;
      raw := P63 + tenant * P47 + acc * 32 + tenant % 32;
    } else {
      for i := 0 to |key|
        invariant unit == Pow256(i) && acc == LittleEndian(key[..i])
      {
        NextDigit(key, i);
        acc := acc + unit * key[i];
        unit := 256 * unit;
      }
      assert key[..|key|] == key;
      raw := |key| * P60 + tenant * P44 + acc * 16 + tenant % 16;
    }
    if raw == EMPTY {
      raw := raw + 4;
    }
    if raw == TOMBSTONE {
      raw := raw - 4;
    }
    tag := raw;
  }

  lemma FirstDigit(key: seq<byte>)
    ensures LittleEndian(key[..0]) == 0 && Strip7(key[..0]) == 0 && Pow256(0) == 1 && Pow128(0) == 1
  {}

  lemma NextDigit(key: seq<byte>, i: nat)
    requires i < |key|
    ensures LittleEndian(key[..i + 1]) == LittleEndian(key[..i]) + Pow256(i) * key[i]
    ensures Strip7(key[..i + 1]) == Strip7(key[..i]) + Pow128(i) * (key[i] % 128)
    ensures Pow256(i + 1) == 256 * Pow256(i) && Pow128(i + 1) == 128 * Pow128(i)
  {
    assert key[..i + 1] == key[..i] + [key[i]];
    DigitOnTop(key[..i], key[i]);
  }

  lemma {:induction false} DigitOnTop(a: seq<byte>, x: byte)
    ensures LittleEndian(a + [x]) == LittleEndian(a) + Pow256(|a|) * x
    ensures Strip7(a + [x]) == Strip7(a) + Pow128(|a|) * (x % 128)
  {
    if a == [] {
      assert a + [x] == [x];
    } else {
      assert (a + [x])[1..] == a[1..] + [x];
      DigitOnTop(a[1..], x);
      Scale(Pow256(|a| - 1), x, 256);
      Scale(Pow128(|a| - 1), x % 128, 128);
    }
  }

  lemma Scale(p: nat, x: nat, k: nat)
    ensures k * (p * x) == (k * p) * x
  {}

  // ---------- the encoding loses nothing ----------

  /** Six-byte flag or length, tenant and key digits, read back from a tag. */
  ghost function Decode(tag: Word): (bool, nat, nat, nat) {
    if tag >= P63 then (true, 6, (tag / P47) % 0x1_0000, (tag / 32) % 0x400_0000_0000)
    else (false, tag / P60, (tag / P44) % 0x1_0000, (tag / 16) % 0x100_0000_0000)
  }

  lemma ShortFields(n: nat, tenant: nat, k: nat, low: nat)
    requires n <= 5 && tenant < 0x1_0000 && k < 0x100_0000_0000 && low < 16
    ensures var tag := n * P60 + tenant * P44 + k * 16 + low;
            tag / P60 == n && (tag / P44) % 0x1_0000 == tenant && (tag / 16) % 0x100_0000_0000 == k
  {
    var tag := n * P60 + tenant * P44 + k * 16 + low;
    assert tag / P44 == n * 0x1_0000 + tenant;
    assert tag / 16 == (n * 0x1_0000 + tenant) * 0x100_0000_0000 + k;
  }

  lemma SixFields(tenant: nat, k: nat, low: nat)
    requires tenant < 0x1_0000 && k < 0x400_0000_0000 && low < 32
    ensures var tag := P63 + tenant * P47 + k * 32 + low;
            (tag / P47) % 0x1_0000 == tenant && (tag / 32) % 0x400_0000_0000 == k
  {
    var tag := P63 + tenant * P47 + k * 32 + low;
    assert tag / P47 == 0x1_0000 + tenant;
    assert tag / 32 == (0x1_0000 + tenant) * 0x400_0000_0000 + k;
  }

  lemma DecodeShort(n: nat, tenant: nat, k: nat)
    requires n <= 5 && tenant < 0x1_0000 && k < 0x100_0000_0000
    ensures 0 <= n * P60 + tenant * P44 + k * 16 + tenant % 16 < P63
    ensures Decode(Sanitise(n * P60 + tenant * P44 + k * 16 + tenant % 16)) == (false, n, tenant, k)
    ensures Live(Sanitise(n * P60 + tenant * P44 + k * 16 + tenant % 16))
  {
    var raw := n * P60 + tenant * P44 + k * 16 + tenant % 16;
    var low := if raw == 0 then 4 else tenant % 16;
    assert Sanitise(raw) == n * P60 + tenant * P44 + k * 16 + low;
    ShortFields(n, tenant, k, low);
  }

  lemma DecodeSix(tenant: nat, k: nat)
    requires tenant < 0x1_0000 && k < 0x400_0000_0000
    ensures P63 <= P63 + tenant * P47 + k * 32 + tenant % 32 <= TOMBSTONE
    ensures Decode(Sanitise(P63 + tenant * P47 + k * 32 + tenant % 32)) == (true, 6, tenant, k)
    ensures Live(Sanitise(P63 + tenant * P47 + k * 32 + tenant % 32))
  {
    var raw := P63 + tenant * P47 + k * 32 + tenant % 32;
    var low := if raw == TOMBSTONE then 27 else tenant % 32;
    assert Sanitise(raw) == P63 + tenant * P47 + k * 32 + low;
    SixFields(tenant, k, low);
  }

  lemma {:induction false} ExactInjective(a: seq<byte>, b: seq<byte>)
    requires |a| == |b| && LittleEndian(a) == LittleEndian(b)
    ensures a == b
  {
    if a != [] {
      ExactInjective(a[1..], b[1..]);
      assert a == [a[0]] + a[1..] && b == [b[0]] + b[1..];
    }
  }

  lemma {:induction false} Strip7Injective(a: seq<byte>, b: seq<byte>)
    requires |a| == |b| && Strip7(a) == Strip7(b) && forall i :: 0 <= i < |a| ==> a[i] < 128 && b[i] < 128
    ensures a == b
  {
    if a != [] {
      Strip7Injective(a[1..], b[1..]);
      assert a == [a[0]] + a[1..] && b == [b[0]] + b[1..];
    }
  }

  /**
   Tags of short keys are lossless and never a sentinel: two (tenant, key) pairs of the
   tiny lane share a tag only if they are equal, across both layouts and both fix-ups.
   */
  lemma TinyTagInjective(t: nat, a: seq<byte>, u: nat, b: seq<byte>)
    requires t < 0x1_0000 && u < 0x1_0000 && !HashLane(a) && !HashLane(b)
    ensures Live(TinyTag(t, a))
    ensures TinyTag(t, a) == TinyTag(u, b) ==> t == u && a == b
  {
    hide LittleEndian, Strip7, Decode, Sanitise, Live;
    TinyTagDecodes(t, a);
    TinyTagDecodes(u, b);
    if TinyTag(t, a) == TinyTag(u, b) {
      if |a| == 6 {
        Strip7Injective(a, b);
      } else {
        ExactInjective(a, b);
      }
    }
  }

  lemma TinyTagDecodes(t: nat, a: seq<byte>)
    requires t < 0x1_0000 && |a| <= 6
    ensures Live(TinyTag(t, a))
    ensures Decode(TinyTag(t, a)) == (|a| == 6, |a|, t, if |a| == 6 then Strip7(a) else LittleEndian(a))
  {
    hide LittleEndian, Strip7, Decode, Sanitise, Live;
    KeyFits(a);
    if |a| == 6 {
      DecodeSix(t, Strip7(a));
    } else {
      DecodeShort(|a|, t, LittleEndian(a));
    }
  }

  // ---------- long keys ----------

  /** Bitwise exclusive or. */
  function Xor(a: nat, b: nat): nat
    decreases a + b
  {
    if a == 0 && b == 0 then 0 else (a + b) % 2 + 2 * Xor(a / 2, b / 2)
  }

  lemma {:induction false} XorCancels(x: nat, t: nat, u: nat)
    requires Xor(x, t) == Xor(x, u)
    ensures t == u
    decreases x + t + u
  {
    hide Xor;
    if x + t + u > 0 {
      XorBits(x, t);
      XorBits(x, u);
      XorCancels(x / 2, t / 2, u / 2);
      SameParity(x, t, u);
    }
  }

  lemma SameParity(x: nat, t: nat, u: nat)
    requires (x + t) % 2 == (x + u) % 2 && t / 2 == u / 2
    ensures t == u
  {}

  lemma XorBits(a: nat, b: nat)
    ensures Xor(a, b) % 2 == (a + b) % 2 && Xor(a, b) / 2 == Xor(a / 2, b / 2)
  {
    XorStep(a, b);
    hide Xor;
    Halves((a + b) % 2, Xor(a / 2, b / 2));
  }

  lemma XorStep(a: nat, b: nat)
    ensures Xor(a, b) == (a + b) % 2 + 2 * Xor(a / 2, b / 2)
  {}

  lemma Halves(r: nat, q: nat)
    requires r < 2
    ensures (r + 2 * q) % 2 == r && (r + 2 * q) / 2 == q
  {}

  lemma {:induction false} XorBound(a: nat, b: nat, k: nat)
    requires a < Pow2(k) && b < Pow2(k)
    ensures Xor(a, b) < Pow2(k)
    decreases k
  {
    if k > 0 {
      XorBits(a, b);
      XorBound(a / 2, b / 2, k - 1);
    }
  }

  lemma {:induction false} XorZero(a: nat)
    ensures Xor(a, 0) == a
  {
    if a > 0 {
      XorZero(a / 2);
    }
  }

  /** Five sampled key bytes: the first, the last, and bits of those at a half, a quarter and three quarters. */
  function Sample(key: seq<byte>): nat
    requires key != []
  {
    var n := |key|;
    var first: nat, last: nat := key[0], key[n - 1];
    var q1: nat, mid: nat, q3: nat := key[n / 4], key[n / 2], key[n * 3 / 4];
    Xor(Xor(Xor(first + last * 0x100, mid % 16 * 16), q1 % 8 * 0x200), q3 % 8 * 0x2000)
  }

  /** The sample mixed with the tenant, upper half folded onto the lower. */
  function Mix(tenant: nat, key: seq<byte>): (r: nat)
    requires tenant < 0x1_0000
    ensures r < 0x1_0000
  {
    if key == [] then tenant
    else
      var h := Xor(Sample(key), tenant);
      Xor(h, h / 0x1_0000) % 0x1_0000
  }

  /** The 16 bits of a key and tenant, never 0. */
  function Big16(tenant: nat, key: seq<byte>): (r: nat)
    requires tenant < 0x1_0000
    ensures 0 < r < 0x1_0000
  {
    if Mix(tenant, key) == 0 then 1 else Mix(tenant, key)
  }

  lemma SixteenBits()
    ensures Pow2(16) == 0x1_0000
  {
    assert Pow2(4) == 16;
    assert Pow2(8) == 16 * Pow2(4);
    assert Pow2(12) == 16 * Pow2(8);
    assert Pow2(16) == 16 * Pow2(12);
  }

  /** The sample has 16 bits already, so there is nothing to fold. */
  lemma MixIsXor(tenant: nat, key: seq<byte>)
    requires tenant < 0x1_0000 && key != []
    ensures Mix(tenant, key) == Xor(Sample(key), tenant)
  {
    hide Xor, Pow2;
    SixteenBits();
    var n := |key|;
    var first: nat, last: nat := key[0], key[n - 1];
    var q1: nat, mid: nat, q3: nat := key[n / 4], key[n / 2], key[n * 3 / 4];
    var h0, h1 := first + last * 0x100, Xor(first + last * 0x100, mid % 16 * 16);
    XorBound(h0, mid % 16 * 16, 16);
    XorBound(h1, q1 % 8 * 0x200, 16);
    XorBound(Xor(h1, q1 % 8 * 0x200), q3 % 8 * 0x2000, 16);
    XorBound(Sample(key), tenant, 16);
    XorZero(Xor(Sample(key), tenant));
  }

  /**
   Two tenants get different bits for the same key, unless the fix-up of 0 to 1 brings them
   together: exactly when one mixes to 0 and the other to 1.
   */
  lemma TenantsDiffer(t: nat, u: nat, key: seq<byte>)
    requires t < 0x1_0000 && u < 0x1_0000
    ensures Big16(t, key) == Big16(u, key) <==> t == u || {Mix(t, key), Mix(u, key)} == {0, 1}
  {
    hide Mix, Xor, Sample;
    if Mix(t, key) == Mix(u, key) {
      MixInjective(t, u, key);
    }
  }

  /** Before the fix-up, tenants are told apart on every key. */
  lemma MixInjective(t: nat, u: nat, key: seq<byte>)
    requires t < 0x1_0000 && u < 0x1_0000 && Mix(t, key) == Mix(u, key)
    ensures t == u
  {
    hide Xor, Sample;
    if key != [] {
      MixIsXor(t, key);
      MixIsXor(u, key);
      XorCancels(Sample(key), t, u);
    }
  }

  const ZERO_KEY: seq<byte> := [0, 0, 0, 0, 0, 0, 0, 0]

  /** On a key of eight zero bytes, tenants 0 and 1 share their bits. */
  lemma TenantsMeet()
    ensures Big16(0, ZERO_KEY) == Big16(1, ZERO_KEY)
  {
    hide Xor, Sample, Mix;
    SmallXor();
    ZeroSample();
    MixIsXor(0, ZERO_KEY);
    MixIsXor(1, ZERO_KEY);
  }

  lemma SmallXor()
    ensures Xor(0, 0) == 0 && Xor(0, 1) == 1
  {}

  lemma ZeroSample()
    ensures Sample(ZERO_KEY) == 0
  {
    hide Xor;
    SmallXor();
  }

  /** Routing hash below, sampled bytes above; the two sentinels are avoided. */
  function LongTag(hash: Word, big: nat): (tag: Word)
    requires 0 < big < 0x1_0000
    ensures Live(tag)
  {
    var tag := hash % P48 + big * P48;
    if tag == TOMBSTONE then tag - P48 else tag
  }

  /** The middle byte of a key, an extra identity check for long keys. */
  function MiddleByte(key: seq<byte>): byte {
    if key == [] then 0 else key[|key| / 2]
  }
}
