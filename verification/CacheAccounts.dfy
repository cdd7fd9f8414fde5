/**
 Byte accounting: what the tenant counters and the global counter mean, over every run of
 puts and shrinks.
 */
module CacheAccounts {
  import opened Machine
  import opened Trie
  import opened Slabs
  import opened Tags
  import opened CacheModel

  /** Every counter covers the bytes its tenant occupies; the global counter is their sum; no one is over the limit. */
  ghost predicate Covered(cfg: Config, c: Cache)
    requires |c.usage| == TENANTS
  {
    && (forall t :: 0 <= t < TENANTS ==> c.usage[t] >= TotalUsage(c.regions, t))
    && c.used == Sum(c.usage)
    && (cfg.limit > 0 ==> forall t :: 0 <= t < TENANTS ==> c.usage[t] <= cfg.limit)
  }

  /** Without shrinks the counters are exact. */
  ghost predicate Balanced(c: Cache)
    requires |c.usage| == TENANTS
  {
    forall t :: 0 <= t < TENANTS ==> c.usage[t] == TotalUsage(c.regions, t)
  }

  /** The slot bytes that leave a tenant with an evicted entry, and what its counter is given back: 16 bits of that. */
  function EvictedBytes(evicted: Option<Header>, t: nat): nat {
    if evicted.Some? && evicted.value.tenant == t then HEADER + evicted.value.valueLen else 0
  }

  function RefundedBytes(evicted: Option<Header>, t: nat): (n: nat)
    ensures n <= EvictedBytes(evicted, t)
  {
    EvictedBytes(evicted, t) % 0x1_0000
  }

  /** The slot bytes a put adds, with the length the slot keeps, and what the counter is charged. */
  function AddedBytes(req: Request, t: nat): nat {
    if req.tenant == t then HEADER + |Cut(req.value)| else 0
  }

  function ChargedBytes(req: Request, t: nat): (n: nat)
    ensures n >= AddedBytes(req, t)
  {
    if req.tenant == t then HEADER + |req.value| else 0
  }

  /** By how much an accepted put moves the counter beyond the slots. */
  function Drift(req: Request, evicted: Option<Header>, t: nat): nat {
    (ChargedBytes(req, t) - AddedBytes(req, t)) + (EvictedBytes(evicted, t) - RefundedBytes(evicted, t))
  }

  /** The same for a whole put, which may not reach a slot. */
  function PutDrift(cfg: Config, c: Cache, can: Recycler, req: Request, now: nat, t: nat): nat
    requires ConfigOk(cfg) && Shape(cfg, c) && req.tenant < TENANTS
  {
    if Reaches(cfg, c, can, req, now) then Drift(req, Store(cfg, c, can, req, now).1.value.evicted, t) else 0
  }

  /** What a counter holds beyond the slots. */
  function Slack(c: Cache, t: nat): int
    requires t < |c.usage|
  {
    c.usage[t] - TotalUsage(c.regions, t)
  }

  lemma StoreUsage(cfg: Config, c: Cache, can: Recycler, req: Request, now: nat, t: nat)
    requires ConfigOk(cfg) && Shape(cfg, c) && req.tenant < TENANTS && 0 < Expiry(now, req.ttl)
    ensures var (s, r) := Store(cfg, c, can, req, now);
            var before := Usage(RegionFor(cfg, c, req).cells, t);
            if r.None? then Usage(s.cells, t) == before
            else
              && EvictedBytes(r.value.evicted, t) <= before
              && Usage(s.cells, t) == before - EvictedBytes(r.value.evicted, t) + AddedBytes(req, t)
  {
    hide Usage, Write, TagOf, WithBackPtr, Ok, Cut;
    var s := RegionFor(cfg, c, req);
    var e := EntryOf(req, now);
    WriteUsage(s, e, can, t);
    WriteOk(s, e, can);
    var (s', r) := SlabWrite(cfg, c, can, req, now);
    if r.Some? {
      var tag := TagOf(cfg, req.tenant, req.key);
      BackPtrUsage(s', r.value.physOff, Pointers.TagRef(HashLane(req.key), tag % 0x100, tag), t);
    }
  }

  lemma StoreTotal(cfg: Config, c: Cache, can: Recycler, req: Request, now: nat, t: nat)
    requires ConfigOk(cfg) && Shape(cfg, c) && req.tenant < TENANTS && 0 < Expiry(now, req.ttl)
    ensures var (s, r) := Store(cfg, c, can, req, now);
            var total := TotalUsage(c.regions, t);
            var i, j := Select(cfg.classes, |req.value|), Select(cfg.tiers, req.ttl);
            var total' := TotalUsage(SetRegion(c.regions, i, j, s), t);
            if r.None? then total' == total
            else
              && EvictedBytes(r.value.evicted, t) <= total
              && total' == total - EvictedBytes(r.value.evicted, t) + AddedBytes(req, t)
  {
    hide Usage, Store, TotalUsage, SetRegion, Ok, AddedBytes, EvictedBytes;
    StoreUsage(cfg, c, can, req, now, t);
    var s := Store(cfg, c, can, req, now).0;
    TotalUsageUpdate(c.regions, Select(cfg.classes, |req.value|), Select(cfg.tiers, req.ttl), s, t);
  }

  /** A covering counter is big enough for the eviction. */
  ghost predicate Evictable(c: Cache, evicted: Option<Header>)
    requires |c.usage| == TENANTS
  {
    evicted.Some? ==>
      evicted.value.tenant < TENANTS && HEADER + evicted.value.valueLen <= c.usage[evicted.value.tenant]
  }

  /** The eviction underflows nothing, and moves the same amount out of the tenant and the total. */
  lemma EvictExact(c: Cache, evicted: Option<Header>, t: nat)
    requires |c.usage| == TENANTS && c.used == Sum(c.usage) && t < TENANTS && Evictable(c, evicted)
    ensures var c' := Evict(c, evicted);
            && |c'.usage| == TENANTS && RefundedBytes(evicted, t) <= c.usage[t]
            && c'.usage[t] == c.usage[t] - RefundedBytes(evicted, t)
            && c'.used == Sum(c'.usage) && c'.regions == c.regions
  {
    hide Sum;
    if evicted.Some? {
      var h := evicted.value;
      var size := (HEADER + h.valueLen) % 0x1_0000;
      SumUpdate(c.usage, h.tenant, c.usage[h.tenant] - size);
    }
  }

  /** Evicting, then indexing, then charging: the counters after an accepted write. */
  lemma AcceptExact(c: Cache, evicted: Option<Header>, key: seq<byte>, tag: Word, ptr: Word, tenant: nat, size: nat,
      t: nat)
    requires |c.usage| == TENANTS && c.used == Sum(c.usage) && Evictable(c, evicted)
    requires t < TENANTS && tenant < TENANTS && Shaped(c.tiny) && Shaped(c.long)
    ensures var c' := Charge(SetIndex(Evict(c, evicted), key, tag, ptr), tenant, size);
            && |c'.usage| == TENANTS && c'.used == Sum(c'.usage) && c'.regions == c.regions
            && c'.usage[t] == c.usage[t] - RefundedBytes(evicted, t) + if t == tenant then size else 0
  {
    hide Sum, Evict, Trie.Set, RefundedBytes, Shaped;
    EvictExact(c, evicted, t);
    var c1 := Evict(c, evicted);
    SumUpdate(c1.usage, tenant, c1.usage[tenant] + size);
  }

  /** A covered counter is never charged below zero by an eviction. */
  lemma NoUnderflow(cfg: Config, c: Cache, can: Recycler, req: Request, now: nat)
    requires ConfigOk(cfg) && Shape(cfg, c) && Covered(cfg, c)
    requires req.tenant < TENANTS && 0 < Expiry(now, req.ttl) && Store(cfg, c, can, req, now).1.Some?
    ensures Evictable(c, Store(cfg, c, can, req, now).1.value.evicted)
  {
    hide TotalUsage, Store, SetRegion, Sum, Ok;
    var evicted := Store(cfg, c, can, req, now).1.value.evicted;
    EvictedTenant(RegionFor(cfg, c, req), EntryOf(req, now), can);
    if evicted.Some? {
      StoreTotal(cfg, c, can, req, now, evicted.value.tenant);
    }
  }

  /**
   What a put does to the counters, for every configuration: each moves by exactly what the slots
   move and the drift of a put that reaches a slot; the global sum and the limit are kept.
   */
  lemma PutMovesBytes(cfg: Config, c: Cache, can: Recycler, req: Request, now: nat, backendOk: bool, t: nat)
    requires ConfigOk(cfg) && Shape(cfg, c) && Covered(cfg, c)
    requires req.tenant < TENANTS && 0 < Expiry(now, req.ttl) && t < TENANTS
    ensures var c' := Put(cfg, c, can, req, now, backendOk).0;
            && |c'.usage| == TENANTS && c'.used == Sum(c'.usage)
            && Slack(c', t) == Slack(c, t) + PutDrift(cfg, c, can, req, now, t)
            && (cfg.limit > 0 ==> c'.usage[t] <= cfg.limit)
  {
    CoveredHere(cfg, c, t);
    hide TotalUsage, Store, SetRegion, Sum, Evict, TagOf, SetIndex, Charge, Shaped, Shape, ConfigOk, Covered, Select,
         EntryOf, Pointers.Pack, AddedBytes, EvictedBytes, RefundedBytes;
    if !OverQuota(cfg, c, req) {
      StoreTotal(cfg, c, can, req, now, t);
      var (s, r) := Store(cfg, c, can, req, now);
      if r.Some? {
        NoUnderflow(cfg, c, can, req, now);
        var i, j := Select(cfg.classes, |req.value|), Select(cfg.tiers, req.ttl);
        RegionExists(cfg, c, req);
        var c0 := c.(regions := SetRegion(c.regions, i, j, s));
        var ptr := Pointers.Pack(PublishedPtr(i, j, EntryOf(req, now), r.value));
        AcceptExact(c0, r.value.evicted, req.key, TagOf(cfg, req.tenant, req.key), ptr, req.tenant,
                    HEADER + |req.value|, t);
      }
    }
  }

  lemma CoveredHere(cfg: Config, c: Cache, t: nat)
    requires Shape(cfg, c) && Covered(cfg, c) && t < TENANTS
    ensures |c.usage| == TENANTS && Shaped(c.tiny) && Shaped(c.long) && c.used == Sum(c.usage) && Slack(c, t) >= 0
    ensures cfg.limit > 0 ==> c.usage[t] <= cfg.limit
  {
    hide TotalUsage, Sum, SlabGood, Shaped;
  }

  lemma RegionExists(cfg: Config, c: Cache, req: Request)
    requires ConfigOk(cfg) && Shape(cfg, c)
    ensures cfg.classes != [] && cfg.tiers != []
    ensures var i, j := Select(cfg.classes, |req.value|), Select(cfg.tiers, req.ttl);
            i < |c.regions| && j < |c.regions[i]| && RegionFor(cfg, c, req) == c.regions[i][j]
  {}

  // ---------- exactly when counters and slots move together ----------

  /** The put stays out, or neither its length nor the evicted entry's size is cut. */
  ghost predicate MovesTogether(cfg: Config, c: Cache, can: Recycler, req: Request, now: nat)
    requires ConfigOk(cfg) && Shape(cfg, c) && req.tenant < TENANTS
  {
    Reaches(cfg, c, can, req, now) ==>
      && |req.value| < 0x1_0000
      && var evicted := Store(cfg, c, can, req, now).1.value.evicted;
         evicted.Some? ==> HEADER + evicted.value.valueLen < 0x1_0000
  }

  /** The drift vanishes for every tenant exactly when nothing is cut. */
  lemma DriftVanishesIff(req: Request, evicted: Option<Header>)
    requires req.tenant < TENANTS && (evicted.Some? ==> evicted.value.tenant < TENANTS)
    ensures (forall t :: 0 <= t < TENANTS ==> Drift(req, evicted, t) == 0) <==>
            |req.value| < 0x1_0000 && (evicted.Some? ==> HEADER + evicted.value.valueLen < 0x1_0000)
  {
    hide Cut;
    CutLength(req.value);
    if evicted.Some? {
      var size := HEADER + evicted.value.valueLen;
      assert size < 0x1_0000 <==> size % 0x1_0000 == size;
      assert EvictedBytes(evicted, evicted.value.tenant) == size;
      assert Drift(req, evicted, evicted.value.tenant) == 0 ==> size < 0x1_0000;
    }
    assert Drift(req, evicted, req.tenant) == 0 ==> |req.value| < 0x1_0000;
  }

  lemma CutLength(value: seq<byte>)
    ensures |Cut(value)| == |value| <==> |value| < 0x1_0000
  {}

  /**
   A put leaves every counter covering its slots. It leaves them exact if and only if they were
   exact before and nothing was cut.
   */
  lemma PutBalancedIff(cfg: Config, c: Cache, can: Recycler, req: Request, now: nat, backendOk: bool)
    requires ConfigOk(cfg) && Shape(cfg, c) && Covered(cfg, c)
    requires req.tenant < TENANTS && 0 < Expiry(now, req.ttl)
    ensures var c' := Put(cfg, c, can, req, now, backendOk).0;
            && |c'.usage| == TENANTS && Covered(cfg, c')
            && (Balanced(c') <==> Balanced(c) && MovesTogether(cfg, c, can, req, now))
  {
    hide Put, Slack, Sum, Shape, ConfigOk, PutDrift, Covered, Balanced, MovesTogether;
    PutMovesBytes(cfg, c, can, req, now, backendOk, 0);
    CoveredHere(cfg, c, 0);
    var c' := Put(cfg, c, can, req, now, backendOk).0;
    forall t | 0 <= t < TENANTS
      ensures Slack(c', t) == Slack(c, t) + PutDrift(cfg, c, can, req, now, t) && Slack(c, t) >= 0
      ensures cfg.limit > 0 ==> c'.usage[t] <= cfg.limit
    {
      PutMovesBytes(cfg, c, can, req, now, backendOk, t);
      CoveredHere(cfg, c, t);
    }
    SlackCovers(cfg, c');
    SlackBalances(c);
    SlackBalances(c');
    TogetherIff(cfg, c, can, req, now);
  }

  lemma SlackBalances(c: Cache)
    requires |c.usage| == TENANTS
    ensures Balanced(c) <==> forall t :: 0 <= t < TENANTS ==> Slack(c, t) == 0
  {
    hide TotalUsage;
    forall t | 0 <= t < TENANTS
      ensures c.usage[t] == TotalUsage(c.regions, t) <==> Slack(c, t) == 0
    {}
  }

  lemma SlackCovers(cfg: Config, c: Cache)
    requires |c.usage| == TENANTS && c.used == Sum(c.usage) && forall t :: 0 <= t < TENANTS ==> Slack(c, t) >= 0
    requires cfg.limit > 0 ==> forall t :: 0 <= t < TENANTS ==> c.usage[t] <= cfg.limit
    ensures Covered(cfg, c)
  {
    hide TotalUsage, Sum;
    forall t | 0 <= t < TENANTS
      ensures c.usage[t] >= TotalUsage(c.regions, t)
    {
      assert Slack(c, t) >= 0;
    }
  }

  lemma TogetherIff(cfg: Config, c: Cache, can: Recycler, req: Request, now: nat)
    requires ConfigOk(cfg) && Shape(cfg, c) && req.tenant < TENANTS
    ensures MovesTogether(cfg, c, can, req, now) <==>
            forall t :: 0 <= t < TENANTS ==> PutDrift(cfg, c, can, req, now, t) == 0
  {
    hide Store, OverQuota, Drift, Shape, ConfigOk;
    if Reaches(cfg, c, can, req, now) {
      var evicted := Store(cfg, c, can, req, now).1.value.evicted;
      DriftVanishesIff(req, evicted);
      forall t | 0 <= t < TENANTS
        ensures PutDrift(cfg, c, can, req, now, t) == Drift(req, evicted, t)
      {}
    }
  }
}
