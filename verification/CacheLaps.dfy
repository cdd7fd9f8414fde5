/**
 Two runs that go wrong. On one a get answers another tenant's bytes: the index entry of a put
 outlives four laps of its region, the two lap bits cannot tell, and the manager's own recycling
 test, asked about 39 of the 64 tag bits, never objects. On the other a tenant's counter drifts
 away from its slots, because the size of an evicted entry is cut to 16 bits.
 */
module CacheLaps {
  import opened Machine
  import opened Trie
  import opened Slabs
  import opened Tags
  import opened Pointers
  import opened CacheModel
  import opened CacheAccounts
  import opened CacheRuns

  /** One class of slots of exactly 2^16 bytes. */
  const CONFIG := Config([65520], [60], 0, (t: nat, key: seq<byte>) => 0)
  const MINE := Request(1, [1], [1], 60)
  const OTHERS := Request(2, [2], [2], 60)
  const LARGE := Request(1, [1], Zeros(65520), 60)

  predicate Ours(req: Request) {
    req == MINE || req == OTHERS || req == LARGE
  }

  /** A cache small enough for the least region there is: 64 slots. */
  const MEMORY := 64

  // ---------- the manager's recycling test ----------

  /** A slot with this tag whose value is a slab pointer to this offset and lap. */
  predicate PointsTo(s: Slot, tag: Word, off: nat, gen: nat) {
    s.tag == tag && TypeOf(s.val) == SLAB_RAM && Unpack(s.val).offset == off && Unpack(s.val).gen == gen
  }

  /** Whether a node on the tag's path, from depth d on, has such a slot. */
  predicate IsLive(c: Cells, tag: Word, off: nat, gen: nat, d: nat)
    requires d <= MAX_DEPTH + 1
    decreases MAX_DEPTH + 1 - d
  {
    d <= MAX_DEPTH && At(tag, BITS, d) in c
    && ((exists i :: 0 <= i < |c[At(tag, BITS, d)]| && PointsTo(c[At(tag, BITS, d)][i], tag, off, gen))
        || IsLive(c, tag, off, gen, d + 1))
  }

  /** The predicate a put hands to the region: the old occupant's back-pointer is not live in its index. */
  function CanRecycle(c: Cache): Recycler {
    (sp: Word, off: nat, gen: nat) => !IsLive(if LaneBit(sp) == 0 then c.tiny else c.long, TagBits(sp), off, gen, 0)
  }

  /** Slots never used hold no value either. */
  ghost predicate EmptyZero(c: Cells) {
    forall p, i :: p in c && 0 <= i < |c[p]| && c[p][i].tag == EMPTY ==> c[p][i].val == 0
  }

  lemma {:induction false} LiveOccurs(c: Cells, tag: Word, off: nat, gen: nat, d: nat) returns (p: Pos, i: nat)
    requires d <= MAX_DEPTH + 1 && IsLive(c, tag, off, gen, d)
    ensures p in c && i < |c[p]| && PointsTo(c[p][i], tag, off, gen)
    decreases MAX_DEPTH + 1 - d
  {
    hide At, PointsTo;
    p := At(tag, BITS, d);
    if j :| 0 <= j < |c[p]| && PointsTo(c[p][j], tag, off, gen) {
      i := j;
    } else {
      p, i := LiveOccurs(c, tag, off, gen, d + 1);
    }
  }

  /** All tags put so far lie above the 39 bits a back-pointer keeps. */
  ghost predicate HighTags(cfg: Config, hist: seq<Rec>)
    requires TenantsOk(hist)
  {
    forall m :: 0 <= m < |hist| ==> TagOf(cfg, hist[m].tenant, hist[m].key) >= Q39
  }

  lemma {:induction false} HighTagsMissLow(cfg: Config, hist: seq<Rec>, long: bool, tag: Word)
    requires TenantsOk(hist) && HighTags(cfg, hist) && tag < Q39
    ensures LatestTag(cfg, hist, long, tag) == None
  {
    hide TagOf;
    if hist != [] {
      HighTagsMissLow(cfg, hist[..|hist| - 1], long, tag);
    }
  }

  /** Then the recycling test lets every slot go, from the first lap on. */
  lemma NeverObjects(cfg: Config, c: Cache, hist: seq<Rec>, sp: Word, off: nat, gen: nat)
    requires Inv(cfg, c, hist) && HighTags(cfg, hist) && EmptyZero(c.tiny) && EmptyZero(c.long) && gen > 0
    ensures CanRecycle(c)(sp, off, gen)
  {
    hide TagOf, Lookup, PathFull, Shape, WellFormed, RegionsGood, HistGood, Covered, LatestTag, HighTags,
         IsLive, Unpack, TagBits;
    var long := LaneBit(sp) != 0;
    var cells := if long then c.long else c.tiny;
    var tag := TagBits(sp);
    LowTag(sp);
    if IsLive(cells, tag, off, gen, 0) {
      var p, i := LiveOccurs(cells, tag, off, gen, 0);
      if tag == EMPTY {
        UnpackZero();
        assert false;
      } else {
        HighTagsMissLow(cfg, hist, long, tag);
        assert IndexGood(cfg, c, cells, hist, long);
        assert Sits(cells, p, i, tag);
        LookupFindsOccurrence(cells, BITS, tag);
        assert false;
      }
    }
  }

  lemma LowTag(sp: Word)
    ensures TagBits(sp) < Q39
  {}

  lemma UnpackZero()
    ensures Unpack(0).gen == 0
  {}

  // ---------- the run ----------

  function CallOf(req: Request, c: Cache): Call {
    Call(req, 1, CanRecycle(c), true)
  }

  lemma ConfigIsOk()
    ensures ConfigOk(CONFIG)
  {}

  /** One put, then n puts of another kind, each with the recycling test of its own moment. */
  ghost function Calls(first: Request, later: Request, n: nat): (calls: seq<Call>)
    requires Ours(first) && Ours(later)
    ensures CallsOk(calls)
  {
    if n == 0 then OneMore([], first) else OneMore(Calls(first, later, n - 1), later)
  }

  /** The calls so far, and one more in the state they lead to. */
  ghost function OneMore(calls: seq<Call>, req: Request): (r: seq<Call>)
    requires CallsOk(calls) && Ours(req)
    ensures CallsOk(r) && |r| == |calls| + 1 && r[..|calls|] == calls
  {
    var call := CallOf(req, StateAfter(calls));
    OursOk(req, StateAfter(calls));
    AppendOk(calls, call);
    calls + [call]
  }

  lemma AppendOk(calls: seq<Call>, call: Call)
    requires CallsOk(calls) && CallOk(call)
    ensures CallsOk(calls + [call]) && (calls + [call])[..|calls|] == calls
  {
    hide CallOk;
  }

  ghost function StateAfter(calls: seq<Call>): Cache
    requires CallsOk(calls)
  {
    ConfigIsOk();
    Run(CONFIG, MEMORY, calls).0
  }

  lemma OursOk(req: Request, c: Cache)
    requires Ours(req)
    ensures CallOk(CallOf(req, c))
  {
    hide Zeros, CanRecycle;
  }

  /** State and history after those calls. */
  ghost function After(first: Request, later: Request, n: nat): (ch: (Cache, seq<Rec>))
    requires Ours(first) && Ours(later)
    ensures ConfigOk(CONFIG) && Inv(CONFIG, ch.0, ch.1)
  {
    ConfigIsOk();
    Run(CONFIG, MEMORY, Calls(first, later, n))
  }

  ghost predicate Small(c: Cache) {
    && |c.regions| == 1 && |c.regions[0]| == 1
    && c.regions[0][0].maxCount == 64 && c.regions[0][0].stride == 0x1_0000
  }

  function MineTag(): Word {
    TagOf(CONFIG, 1, [1])
  }

  ghost predicate Sound(c: Cache, hist: seq<Rec>) {
    && Inv(CONFIG, c, hist) && Small(c) && TenantsOk(hist) && HighTags(CONFIG, hist)
    && EmptyZero(c.tiny) && EmptyZero(c.long)
  }

  /** The region's log: one write of the first kind, n of the other. */
  ghost predicate Written(hist: seq<Rec>, first: Request, later: Request, n: nat) {
    && |LogOf(hist, 0, 0)| == n + 1 && LogOf(hist, 0, 0)[0] == EntryOf(first, 1)
    && forall k :: 0 < k <= n ==> LogOf(hist, 0, 0)[k] == EntryOf(later, 1)
  }

  /** Tenant 1's put is the latest under its key, and the index has it. */
  ghost predicate Kept(c: Cache, hist: seq<Rec>)
    requires Shaped(c.tiny)
  {
    LatestPut(hist, 1, [1]) == Some(RecOf(CONFIG, [], MINE, 1)) && Lookup(c.tiny, BITS, MineTag()).Some?
  }

  lemma InitialSound()
    ensures Sound(Initial(CONFIG, MEMORY), []) && Shape(CONFIG, Initial(CONFIG, MEMORY))
  {
    hide Inv, Shape, Roots, Pow2;
    InitialInv(CONFIG, MEMORY);
    InvShape(CONFIG, Initial(CONFIG, MEMORY), []);
    assert Stride(65520) == 0x1_0000 && SlotShare(CONFIG, MEMORY, 0x1_0000) == 0;
  }

  /** A full-grown region accepts a value that fits if its next slot was never used or the test passes. */
  lemma WriteAccepted(s: Slab, log: seq<Slabs.Entry>, e: Slabs.Entry, can: Recycler)
    requires RegionGood(s, log) && Fits(s, e.value)
    requires forall sp, off, gen :: gen > 0 ==> can(sp, off, gen)
    requires s.maxCount == 64 && |log| < 64 * 0x100
    ensures Write(s, e, can).1.Some?
  {
    hide Mirrors, Ok, MakeRoom, NextSlot, Claim;
    GoodPositive(s);
    MirrorsLength(s, log);
    MakeRoomMirrors(s, log);
    MakeRoomOk(s);
    NextSlotIs(s);
    var g := MakeRoom(s);
    if |log| < 64 {
      SmallDivMod(|log|, 64);
      Untouched(g, log);
    } else {
      LapPositive(|log|);
    }
  }

  /** A slot beyond all writes is blank. */
  lemma Untouched(s: Slab, log: seq<Slabs.Entry>)
    requires s.maxCount > 0 && Mirrors(s, log) && |log| < |s.cells|
    ensures s.cells[|log|].h.expiry == 0
  {}

  lemma LapPositive(w: nat)
    requires 64 <= w < 64 * 0x100
    ensures w / 64 % 0x100 > 0
  {}

  /** One more call of the run reaches its slot. */
  lemma CallReaches(c: Cache, hist: seq<Rec>, req: Request)
    requires Sound(c, hist) && Ours(req) && |LogOf(hist, 0, 0)| < 64 * 0x100
    ensures Shape(CONFIG, c) && Reaches(CONFIG, c, CanRecycle(c), req, 1)
    ensures Small(Put(CONFIG, c, CanRecycle(c), req, 1, true).0)
  {
    hide Store, Write, TagOf, Put, HistGood, IndexGood, IsLive, Mirrors, HighTags, LogOf, SlabGood;
    InvShape(CONFIG, c, hist);
    var can := CanRecycle(c);
    forall sp: Word, off: nat, gen: nat | gen > 0
      ensures can(sp, off, gen)
    {
      NeverObjects(CONFIG, c, hist, sp, off, gen);
    }
    assert RegionGood(c.regions[0][0], LogOf(hist, 0, 0));
    GoodPositive(c.regions[0][0]);
    WriteAccepted(c.regions[0][0], LogOf(hist, 0, 0), EntryOf(req, 1), can);
    PutKeepsShape(CONFIG, c, can, req, 1, true);
  }

  /** What a put of this run does to the two indices. */
  lemma PutSets(c: Cache, req: Request) returns (ptr: Word)
    requires Shape(CONFIG, c) && Ours(req) && Reaches(CONFIG, c, CanRecycle(c), req, 1)
    ensures Shaped(c.tiny)
    ensures var c' := Put(CONFIG, c, CanRecycle(c), req, 1, true).0;
            c'.long == c.long && c'.tiny == Trie.Set(c.tiny, BITS, TagOf(CONFIG, req.tenant, req.key), ptr)
  {
    hide Store, Put, TagOf, SlabGood, Shaped, Trie.Set, Pack, PublishedPtr;
    PutIndex(CONFIG, c, CanRecycle(c), req, 1, true);
    ptr := Pack(PublishedPtr(0, 0, EntryOf(req, 1), Store(CONFIG, c, CanRecycle(c), req, 1).1.value));
  }

  lemma SetEmptyZero(c: Cells, tag: Word, val: Word)
    requires Shaped(c) && EmptyZero(c) && Live(tag)
    ensures EmptyZero(Trie.Set(c, BITS, tag, val))
  {
    hide At, SetDepth, InsertSlot;
  }

  lemma OurTags()
    ensures TagOf(CONFIG, 1, [1]) >= Q39 && TagOf(CONFIG, 2, [2]) >= Q39
    ensures TagOf(CONFIG, 1, [1]) != TagOf(CONFIG, 2, [2])
    ensures Live(TagOf(CONFIG, 1, [1])) && Live(TagOf(CONFIG, 2, [2]))
  {
    TagLive(CONFIG, 1, [1]);
    TagLive(CONFIG, 2, [2]);
    TinyTagInjective(1, [1], 2, [2]);
    hide Big16, LongTag, Live;
  }

  /** Every call of the run keeps the state sound and moves only its own tag. */
  lemma CallSound(c: Cache, hist: seq<Rec>, req: Request)
    requires Sound(c, hist) && Ours(req) && |LogOf(hist, 0, 0)| < 64 * 0x100
    ensures Shape(CONFIG, c)
    ensures var (c', hist') := AfterCall(CONFIG, c, hist, CallOf(req, c));
            && Sound(c', hist') && hist' == hist + [RecOf(CONFIG, hist, req, 1)]
            && (req == OTHERS ==> Lookup(c'.tiny, BITS, MineTag()) == Lookup(c.tiny, BITS, MineTag()))
            && (req == MINE && !PathFull(c.tiny, BITS, MineTag()) ==> Lookup(c'.tiny, BITS, MineTag()).Some?)
  {
    hide Store, TagOf, Put, Shape, Reaches, Lookup, PathFull, Live, Trie.Set, WellFormed, LogOf, EmptyZero, Inv,
         CanRecycle, Small;
    CallReaches(c, hist, req);
    CallKeepsInv(CONFIG, c, hist, CallOf(req, c));
    OurTags();
    var ptr := PutSets(c, req);
    SetEmptyZero(c.tiny, TagOf(CONFIG, req.tenant, req.key), ptr);
    InvWellFormed(c, hist);
    SetRefinesUpdate(c.tiny, BITS, TagOf(CONFIG, req.tenant, req.key), ptr, MineTag());
  }

  lemma InvWellFormed(c: Cache, hist: seq<Rec>)
    requires Inv(CONFIG, c, hist)
    ensures WellFormed(c.tiny, BITS)
  {
    hide Shape, RegionsGood, HistGood, Covered, WellFormed;
  }

  lemma EmptyNotFull(bits: nat, tag: Word)
    ensures !PathFull(EmptyTrie(bits), bits, tag)
  {
    hide At, Pow2, Roots;
    var c: Cells, p := EmptyTrie(bits), At(tag, bits, 0);
    assert p in c ==> !Live(c[p][0].tag);
  }

  lemma {:induction false} RunWrites(first: Request, later: Request, n: nat)
    requires Ours(first) && Ours(later) && n < 64 * 0x100
    ensures var (c, hist) := After(first, later, n);
            Sound(c, hist) && Written(hist, first, later, n) && (first == MINE && later == OTHERS ==> Kept(c, hist))
  {
    hide Sound, Inv, AfterCall, Shape, ConfigOk, Lookup, PathFull, TagOf, EmptyTrie, Zeros;
    ConfigIsOk();
    if n == 0 {
      var c := Initial(CONFIG, MEMORY);
      assert Calls(first, later, 0)[..0] == [];
      InitialSound();
      EmptyNotFull(BITS, MineTag());
      CallSound(c, [], first);
      LogExtends([], RecOf(CONFIG, [], first, 1), 0, 0);
    } else {
      RunWrites(first, later, n - 1);
      var calls := Calls(first, later, n);
      assert calls[..|calls| - 1] == Calls(first, later, n - 1);
      var (c, hist) := After(first, later, n - 1);
      CallSound(c, hist, later);
      LaterExtends(hist, first, later, n - 1);
    }
  }

  lemma LaterExtends(hist: seq<Rec>, first: Request, later: Request, n: nat)
    requires Ours(first) && Ours(later) && Written(hist, first, later, n)
    ensures var hist' := hist + [RecOf(CONFIG, hist, later, 1)];
            && Written(hist', first, later, n + 1)
            && (later == OTHERS ==> LatestPut(hist', 1, [1]) == LatestPut(hist, 1, [1]))
  {
    hide LogOf, Zeros;
    var r := RecOf(CONFIG, hist, later, 1);
    LogExtends(hist, r, 0, 0);
    assert (hist + [r])[..|hist|] == hist;
  }

  /**
   After 256 puts of tenant 2 in a region of 64 slots, a get of tenant 1's key answers tenant 2's
   bytes, in the same second in which all of it was written.
   */
  lemma ForeignRead()
    ensures ConfigOk(CONFIG) && Shape(CONFIG, After(MINE, OTHERS, 256).0)
    ensures Get(CONFIG, After(MINE, OTHERS, 256).0, 1, [1], 1) == Some([2])
  {
    hide Run, Inv, Shape, Calls, Get, LogOf, TagOf, PathFull, Lookup, LatestPut, ConfigOk, Latest, LapsSince, Small,
         EmptyZero, HighTags, WellFormed, Zeros;
    RunWrites(MINE, OTHERS, 256);
    var (c, hist) := After(MINE, OTHERS, 256);
    InvShape(CONFIG, c, hist);
    InvWellFormed(c, hist);
    RunsReadLatestPut(CONFIG, MEMORY, Calls(MINE, OTHERS, 256), 1, [1], 1);
    if PathFull(c.tiny, BITS, MineTag()) {
      FullPathMisses(c.tiny, BITS, MineTag());
    }
    SmallCap(c);
    LapCount(0, 257, 64, 4);
    FirstRec();
  }

  // ---------- a counter that drifts ----------

  /** At the cap, an accepted write evicts the entry written one lap before. */
  lemma EvictsLapped(s: Slab, log: seq<Slabs.Entry>, e: Slabs.Entry, can: Recycler)
    requires RegionGood(s, log) && |log| >= s.maxCount && Write(s, e, can).1.Some?
    requires log[|log| - s.maxCount].expiry > 0
    ensures var evicted := Write(s, e, can).1.value.evicted;
            var gone := log[|log| - s.maxCount];
            evicted.Some? && evicted.value.valueLen == |Cut(gone.value)| && evicted.value.tenant == gone.tenant
  {
    hide Mirrors, Ok, MakeRoom, NextSlot, MayClaim, Cut, Fits;
    GoodPositive(s);
    MirrorsLength(s, log);
    MakeRoomMirrors(s, log);
    MakeRoomOk(s);
    NextSlotIs(s);
    MakeRoomCap(s);
    LappedCarries(MakeRoom(s), log, s.maxCount);
  }

  lemma MakeRoomCap(s: Slab)
    requires Ok(s)
    ensures MakeRoom(s).maxCount == s.maxCount
  {
    hide Ok;
  }

  lemma LappedCarries(g: Slab, log: seq<Slabs.Entry>, m: nat)
    requires g.maxCount == m > 0 && Mirrors(g, log) && |log| >= m
    ensures var slot := |log| % m; slot < |g.cells| && Carries(g.cells[slot], log[|log| - m], (|log| - m) / m % 0x100)
  {
    hide Carries;
    AddLaps(|log| - m, 1, m);
  }

  /**
   After 65 puts of 65520 bytes by tenant 1 in a region of 64 slots, the tenant's counter is at
   least 2^16 bytes above the bytes it occupies: the eviction gave nothing back.
   */
  lemma CounterDrifts()
    ensures ConfigOk(CONFIG)
    ensures var c := After(LARGE, LARGE, 64).0;
            |c.usage| == TENANTS && c.usage[1] >= TotalUsage(c.regions, 1) + 0x1_0000
  {
    hide Run, Inv, Shape, LogOf, TagOf, ConfigOk, Store, TotalUsage, Small, Sound, Put, Zeros, Cut, Reaches;
    RunWrites(LARGE, LARGE, 63);
    var (c, hist) := After(LARGE, LARGE, 63);
    LargeReaches(c, hist);
    AfterIs(64);
    PutMovesBytes(CONFIG, c, CanRecycle(c), LARGE, 1, true, 1);
    CoveredHere(CONFIG, c, 1);
  }

  lemma AfterIs(n: nat)
    requires n > 0
    ensures var c := After(LARGE, LARGE, n - 1).0;
            && Shape(CONFIG, c)
            && After(LARGE, LARGE, n).0 == Put(CONFIG, c, CanRecycle(c), LARGE, 1, true).0
  {
    hide Inv, Put, Shape, Zeros, Recorded;
    var calls := Calls(LARGE, LARGE, n);
    assert calls[..|calls| - 1] == Calls(LARGE, LARGE, n - 1);
    var (c, hist) := After(LARGE, LARGE, n - 1);
    InvShape(CONFIG, c, hist);
  }

  /** The last of those puts reaches its slot and evicts the first one's entry. */
  lemma LargeReaches(c: Cache, hist: seq<Rec>)
    requires Sound(c, hist) && Written(hist, LARGE, LARGE, 63)
    ensures Shape(CONFIG, c) && Covered(CONFIG, c) && PutDrift(CONFIG, c, CanRecycle(c), LARGE, 1, 1) >= 0x1_0000
  {
    hide Write, TagOf, Put, HistGood, IndexGood, IsLive, Mirrors, HighTags, LogOf, SlabGood, Zeros, Covered;
    CallReaches(c, hist, LARGE);
    SmallCap(c);
    assert RegionGood(c.regions[0][0], LogOf(hist, 0, 0));
    EvictsLapped(c.regions[0][0], LogOf(hist, 0, 0), EntryOf(LARGE, 1), CanRecycle(c));
  }

  lemma SmallCap(c: Cache)
    requires Small(c)
    ensures |c.regions| == 1 && |c.regions[0]| == 1 && c.regions[0][0].maxCount == 64
  {}

  lemma FirstRec()
    ensures RecOf(CONFIG, [], MINE, 1) == Rec(1, [1], [1], 61, 0, 0, 0)
  {}
}
