/** The 64-bit smart pointer and the 48-bit back-pointer; disjoint bit fields written as sums. */
module Pointers {
  import opened Machine

  const Q44 := 0x1000_0000_0000
  const Q46 := 0x4000_0000_0000
  const Q48 := 0x1_0000_0000_0000
  const Q50 := 0x4_0000_0000_0000
  const Q62 := 0x4000_0000_0000_0000
  const Q39 := 0x80_0000_0000
  const Q47 := 0x8000_0000_0000
  const SLAB_RAM := 0

  /** Where a slab entry lives: lap bits, truncated expiry, size class, tier, byte offset. */
  datatype SlabPtr = SlabPtr(gen: nat, trunc: nat, class_: nat, tier: nat, offset: nat)

  ghost predicate InRange(p: SlabPtr) {
    p.gen < 4 && p.trunc < 0x1000 && p.class_ < 4 && p.tier < 4 && p.offset < Q44
  }

  /** Every field is masked to its width. */
  function Pack(p: SlabPtr): Word {
    p.gen % 4 * Q62 + p.trunc % 0x1000 * Q50 + p.class_ % 4 * Q46 + p.tier % 4 * Q44 + p.offset % Q44
  }

  function TypeOf(v: Word): nat {
    v / Q48 % 4
  }

  function Unpack(v: Word): SlabPtr {
    SlabPtr(v / Q62, v / Q50 % 0x1000, v / Q46 % 4, v / Q44 % 4, v % Q44)
  }

  lemma PackFields(p: SlabPtr)
    requires InRange(p)
    ensures Pack(p) == p.gen * Q62 + p.trunc * Q50 + p.class_ * Q46 + p.tier * Q44 + p.offset
  {
    SmallMod(p.gen, 4);
    SmallMod(p.trunc, 0x1000);
    SmallMod(p.class_, 4);
    SmallMod(p.tier, 4);
    SmallMod(p.offset, Q44);
  }

  lemma SmallMod(x: nat, m: nat)
    requires x < m
    ensures x % m == x
  {}

  /** Cutting the word at bits 44, 46, 48, 50 and 62, from the bottom up. */
  lemma CutAt(p: SlabPtr, v: nat)
    requires InRange(p) && v == p.gen * Q62 + p.trunc * Q50 + p.class_ * Q46 + p.tier * Q44 + p.offset
    ensures v % Q44 == p.offset && v / Q44 == ((p.gen * 0x1000 + p.trunc) * 16 + p.class_) * 4 + p.tier
    ensures v / Q46 == (p.gen * 0x1000 + p.trunc) * 16 + p.class_
    ensures v / Q48 == (p.gen * 0x1000 + p.trunc) * 4
    ensures v / Q50 == p.gen * 0x1000 + p.trunc && v / Q62 == p.gen
  {
    var high := p.gen * 0x1000 + p.trunc;
    DivModOf((high * 16 + p.class_) * 4 + p.tier, p.offset, Q44);
    DivModOf(high * 16 + p.class_, p.tier * Q44 + p.offset, Q46);
    DivModOf(high * 4, p.class_ * Q46 + p.tier * Q44 + p.offset, Q48);
    DivModOf(high, p.class_ * Q46 + p.tier * Q44 + p.offset, Q50);
    DivModOf(p.gen, p.trunc * Q50 + p.class_ * Q46 + p.tier * Q44 + p.offset, Q62);
  }

  /** Packing loses nothing on fields that fit, and marks the value as a slab pointer. */
  lemma PackUnpack(p: SlabPtr)
    requires InRange(p)
    ensures Unpack(Pack(p)) == p && TypeOf(Pack(p)) == SLAB_RAM
  {
    hide Pack;
    PackFields(p);
    CutAt(p, Pack(p));
    var high := p.gen * 0x1000 + p.trunc;
    DivModOf(high * 16 + p.class_, p.tier, 4);
    DivModOf(high * 4, p.class_, 4);
    DivModOf(high, 0, 4);
    DivModOf(p.gen, p.trunc, 0x1000);
  }

  function Masked(p: SlabPtr): (q: SlabPtr)
    ensures q == p <==> InRange(p)
  {
    SlabPtr(p.gen % 4, p.trunc % 0x1000, p.class_ % 4, p.tier % 4, p.offset % Q44)
  }

  /** On any fields at all, what comes back is each field cut to its width; so all of it exactly on fields in range. */
  lemma PackCuts(p: SlabPtr)
    ensures Unpack(Pack(p)) == Masked(p) && (Unpack(Pack(p)) == p <==> InRange(p))
  {
    hide Pack, Unpack, Masked, InRange;
    PackMasked(p);
    PackUnpack(Masked(p));
  }

  lemma PackMasked(p: SlabPtr)
    ensures InRange(Masked(p)) && Pack(Masked(p)) == Pack(p)
  {
    SmallMod(p.gen % 4, 4);
    SmallMod(p.trunc % 0x1000, 0x1000);
    SmallMod(p.class_ % 4, 4);
    SmallMod(p.tier % 4, 4);
    SmallMod(p.offset % Q44, Q44);
  }

  /** The back-pointer stored in a slot: lane bit, shard, and the low 39 bits of the tag. */
  function TagRef(hashLane: bool, shard: nat, tag: Word): Word
    requires shard < 0x100
  {
    (if hashLane then Q47 else 0) + shard * Q39 + tag % Q39 // below 2^48, so the six header bytes hold it
  }

  function LaneBit(sp: Word): nat {
    sp / Q47 % 2
  }

  function TagBits(sp: Word): Word {
    sp % Q39
  }

  /** The six bytes a slot header keeps, least significant first. */
  function ToSix(sp: Word): seq<byte> {
    LowBytes(sp, 6)
  }

  /** A back-pointer survives its six header bytes, and gives back its lane and the low 39 tag bits. */
  lemma BackPointerRoundTrip(hashLane: bool, shard: nat, tag: Word)
    requires shard < 0x100
    ensures var sp := TagRef(hashLane, shard, tag);
            && LittleEndian(ToSix(sp)) == sp
            && LaneBit(sp) == (if hashLane then 1 else 0) && TagBits(sp) == tag % Q39
  {
    hide LowBytes, LittleEndian, Pow256;
    var sp := TagRef(hashLane, shard, tag);
    var lane := if hashLane then 1 else 0;
    DivModOf(lane * 0x100 + shard, tag % Q39, Q39);
    DivModOf(lane, shard * Q39 + tag % Q39, Q47);
    SixBytes();
    LowBytesRoundTrip(sp, 6, Pow256(6));
  }

  lemma SixBytes()
    ensures Pow256(6) == Q48
  {
    assert Pow256(3) == 0x100_0000;
    assert Pow256(6) == 0x100 * 0x100 * 0x100 * Pow256(3);
  }
}
