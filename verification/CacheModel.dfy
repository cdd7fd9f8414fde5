/**
 The cache manager as a state machine over values: regions, both indices, tenant counters.
 The history of puts that reached a slab slot is kept beside the state, and every claim is
 about all states a run of puts can reach.
 */
module CacheModel {
  import opened Machine
  import opened Trie
  import opened Slabs
  import opened Tags
  import opened Pointers

  const TENANTS := 0x1_0000
  const BITS := 8

  /** Size classes, TTL tiers, per-tenant byte limit (0: none), and the routing hash of long keys. */
  datatype Config = Config(classes: seq<nat>, tiers: seq<nat>, limit: nat, hash: (nat, seq<byte>) -> Word)

  /** The one demand on a configuration: some size class and some tier. */
  predicate ConfigOk(cfg: Config) {
    cfg.classes != [] && cfg.tiers != []
  }

  datatype Cache = Cache(regions: seq<seq<Slab>>, tiny: Cells, long: Cells, usage: seq<nat>, used: nat)

  datatype Request = Request(tenant: nat, key: seq<byte>, value: seq<byte>, ttl: nat)

  type Recycler = (Word, nat, nat) -> bool

  // ---------- routing ----------

  /** The first bound that x does not exceed, or the last index. */
  function Select(bounds: seq<nat>, x: nat): (i: nat)
    requires bounds != []
    ensures i < |bounds|
    ensures forall k :: 0 <= k < i ==> x > bounds[k]
    ensures i < |bounds| - 1 ==> x <= bounds[i]
  {
    if |bounds| == 1 || x <= bounds[0] then 0 else 1 + Select(bounds[1..], x)
  }

  function TagOf(cfg: Config, tenant: nat, key: seq<byte>): Word
    requires tenant < TENANTS
  {
    if HashLane(key) then LongTag(cfg.hash(tenant, key), Big16(tenant, key)) else TinyTag(tenant, key)
  }

  function KeyMid(key: seq<byte>): byte {
    if HashLane(key) then MiddleByte(key) else 0
  }

  lemma TagLive(cfg: Config, tenant: nat, key: seq<byte>)
    requires tenant < TENANTS
    ensures Live(TagOf(cfg, tenant, key))
  {
    hide Big16, LongTag, TinyTag, Live;
    if !HashLane(key) {
      TinyTagInjective(tenant, key, tenant, key);
    }
  }

  function Lane(c: Cache, key: seq<byte>): Cells {
    if HashLane(key) then c.long else c.tiny
  }

  // ---------- counters ----------

  /** Unsigned subtraction as the source performs it: modulo 2^64. */
  function SubWrap(v: nat, d: nat): nat {
    if v >= d then v - d else (v - d) % 0x1_0000_0000_0000_0000
  }

  function Sum(s: seq<nat>): nat {
    if s == [] then 0 else Sum(s[..|s| - 1]) + s[|s| - 1]
  }

  lemma {:induction false} SumUpdate(s: seq<nat>, k: nat, v: nat)
    requires k < |s|
    ensures Sum(s[k := v]) == Sum(s) - s[k] + v && s[k] <= Sum(s)
  {
    if k == |s| - 1 {
      assert s[k := v][..k] == s[..k];
    } else {
      SumUpdate(s[..|s| - 1], k, v);
      assert s[k := v][..|s| - 1] == s[..|s| - 1][k := v];
    }
  }

  function RowUsage(row: seq<Slab>, tenant: nat): nat {
    if row == [] then 0 else RowUsage(row[..|row| - 1], tenant) + Usage(row[|row| - 1].cells, tenant)
  }

  /** The bytes a tenant occupies in all regions together. */
  function TotalUsage(regions: seq<seq<Slab>>, tenant: nat): nat {
    if regions == [] then 0 else TotalUsage(regions[..|regions| - 1], tenant) + RowUsage(regions[|regions| - 1], tenant)
  }

  lemma {:induction false} RowUsageUpdate(row: seq<Slab>, j: nat, s: Slab, tenant: nat)
    requires j < |row|
    ensures RowUsage(row[j := s], tenant) ==
            RowUsage(row, tenant) - Usage(row[j].cells, tenant) + Usage(s.cells, tenant)
    ensures Usage(row[j].cells, tenant) <= RowUsage(row, tenant)
    decreases |row|
  {
    hide Usage;
    var front := row[..|row| - 1];
    if j == |row| - 1 {
      assert row[j := s][..|row| - 1] == front;
    } else {
      RowUsageUpdate(front, j, s, tenant);
      assert row[j := s][..|row| - 1] == front[j := s];
    }
  }

  function SetRegion(regions: seq<seq<Slab>>, i: nat, j: nat, s: Slab): (r: seq<seq<Slab>>)
    requires i < |regions| && j < |regions[i]|
    ensures |r| == |regions| && forall k :: 0 <= k < |r| ==> |r[k]| == |regions[k]|
    ensures forall k, l :: 0 <= k < |r| && 0 <= l < |r[k]| ==> r[k][l] == if k == i && l == j then s else regions[k][l]
  {
    regions[i := regions[i][j := s]]
  }

  lemma {:induction false} TotalUsageUpdate(regions: seq<seq<Slab>>, i: nat, j: nat, s: Slab, tenant: nat)
    requires i < |regions| && j < |regions[i]|
    ensures TotalUsage(SetRegion(regions, i, j, s), tenant) ==
            TotalUsage(regions, tenant) - Usage(regions[i][j].cells, tenant) + Usage(s.cells, tenant)
    ensures Usage(regions[i][j].cells, tenant) <= TotalUsage(regions, tenant)
    decreases |regions|
  {
    hide Usage, RowUsage;
    RowUsageUpdate(regions[i], j, s, tenant);
    var front := regions[..|regions| - 1];
    var updated := SetRegion(regions, i, j, s);
    if i == |regions| - 1 {
      assert updated[..|regions| - 1] == front;
    } else {
      TotalUsageUpdate(front, i, j, s, tenant);
      assert updated[..|regions| - 1] == SetRegion(front, i, j, s);
    }
  }

  // ---------- put and get ----------

  ghost predicate SlabGood(s: Slab) {
    Ok(s) && forall k :: 0 <= k < |s.cells| ==> s.cells[k].h.tenant < TENANTS
  }

  /** The shape every operation relies on: a full region matrix, one counter per tenant id, legal regions. */
  ghost predicate Shape(cfg: Config, c: Cache) {
    && |c.regions| == |cfg.classes| && (forall i :: 0 <= i < |c.regions| ==> |c.regions[i]| == |cfg.tiers|)
    && (forall i, j :: 0 <= i < |c.regions| && 0 <= j < |c.regions[i]| ==> SlabGood(c.regions[i][j]))
    && |c.usage| == TENANTS && Shaped(c.tiny) && Shaped(c.long)
  }

  function EntryOf(req: Request, now: nat): Entry {
    Entry(req.tenant, KeyMid(req.key), req.value, Expiry(now, req.ttl))
  }

  /** The pointer published for a write. */
  function PublishedPtr(i: nat, j: nat, e: Entry, r: Receipt): SlabPtr {
    SlabPtr(r.gen % 4, ExpTrunc(e.expiry), i, j, r.physOff)
  }

  function Evict(c: Cache, evicted: Option<Header>): Cache
    requires evicted.Some? ==> evicted.value.tenant < |c.usage|
  {
    match evicted
    case None => c
    case Some(h) =>
      var size := (HEADER + h.valueLen) % 0x1_0000;
      c.(usage := c.usage[h.tenant := SubWrap(c.usage[h.tenant], size)], used := SubWrap(c.used, size))
  }

  function Charge(c: Cache, tenant: nat, size: nat): Cache
    requires tenant < |c.usage|
  {
    c.(usage := c.usage[tenant := c.usage[tenant] + size], used := c.used + size)
  }

  function SetIndex(c: Cache, key: seq<byte>, tag: Word, val: Word): Cache
    requires Shaped(c.tiny) && Shaped(c.long)
  {
    if HashLane(key) then c.(long := Set(c.long, BITS, tag, val)) else c.(tiny := Set(c.tiny, BITS, tag, val))
  }

  predicate OverQuota(cfg: Config, c: Cache, req: Request)
    requires req.tenant < |c.usage|
  {
    cfg.limit > 0 && c.usage[req.tenant] + HEADER + |req.value| > cfg.limit
  }

  /** The region write of a put. */
  function SlabWrite(cfg: Config, c: Cache, can: Recycler, req: Request, now: nat): (Slab, Option<Receipt>)
    requires ConfigOk(cfg) && Shape(cfg, c)
  {
    Write(RegionFor(cfg, c, req), EntryOf(req, now), can)
  }

  function RegionFor(cfg: Config, c: Cache, req: Request): (s: Slab)
    requires ConfigOk(cfg) && Shape(cfg, c)
    ensures SlabGood(s)
  {
    c.regions[Select(cfg.classes, |req.value|)][Select(cfg.tiers, req.ttl)]
  }

  lemma EvictedTenant(s: Slab, e: Entry, can: Recycler)
    requires SlabGood(s)
    ensures var r := Write(s, e, can).1;
            r.Some? && r.value.evicted.Some? ==>
              r.value.evicted.value.tenant < TENANTS && HEADER + r.value.evicted.value.valueLen <= s.stride
  {
    MakeRoomOk(s);
    var g := MakeRoom(s);
    var slot := NextSlot(g).0;
    hide NextSlot, MayClaim;
    assert CellOk(g.cells[slot], g.stride);
    assert g.cells[slot].h.tenant < TENANTS;
  }

  /** The slab a put leaves in its region: the write, and the back-pointer when it is not zero. */
  function Store(cfg: Config, c: Cache, can: Recycler, req: Request, now: nat): (sr: (Slab, Option<Receipt>))
    requires ConfigOk(cfg) && Shape(cfg, c) && req.tenant < TENANTS
    ensures sr.1.Some? && sr.1.value.evicted.Some? ==> sr.1.value.evicted.value.tenant < TENANTS
    ensures sr.1 == SlabWrite(cfg, c, can, req, now).1
  {
    var (s, r) := SlabWrite(cfg, c, can, req, now);
    EvictedTenant(RegionFor(cfg, c, req), EntryOf(req, now), can);
    WriteOk(RegionFor(cfg, c, req), EntryOf(req, now), can);
    var tag := TagOf(cfg, req.tenant, req.key);
    var sp := TagRef(HashLane(req.key), tag % 0x100, tag);
    (if r.Some? && sp != 0 then WithBackPtr(s, r.value.physOff, sp) else s, r)
  }

  /** The whole put: quota, region write, eviction accounting, index, charge. */
  function Put(cfg: Config, c: Cache, can: Recycler, req: Request, now: nat, backendOk: bool): (Cache, bool)
    requires ConfigOk(cfg) && Shape(cfg, c) && req.tenant < TENANTS
  {
    if OverQuota(cfg, c, req) then (c, false)
    else
      var i, j := Select(cfg.classes, |req.value|), Select(cfg.tiers, req.ttl);
      var (s, r) := Store(cfg, c, can, req, now);
      var c0 := c.(regions := SetRegion(c.regions, i, j, s));
      if r.None? then (c0, backendOk)
      else
        var c1 := Evict(c0, r.value.evicted);
        var ptr := Pack(PublishedPtr(i, j, EntryOf(req, now), r.value));
        var c2 := SetIndex(c1, req.key, TagOf(cfg, req.tenant, req.key), ptr);
        (Charge(c2, req.tenant, HEADER + |req.value|), true)
  }

  /** Whether a put reaches a slab slot. */
  predicate Reaches(cfg: Config, c: Cache, can: Recycler, req: Request, now: nat)
    requires ConfigOk(cfg) && Shape(cfg, c) && req.tenant < TENANTS
  {
    !OverQuota(cfg, c, req) && Store(cfg, c, can, req, now).1.Some?
  }

  /** The slab read behind an index value. */
  function ReadVia(cfg: Config, c: Cache, v: Word, key: seq<byte>, now: nat): Option<seq<byte>>
    requires Shape(cfg, c)
  {
    ReadAt(cfg, c, TypeOf(v), Unpack(v), key, now)
  }

  function ReadAt(cfg: Config, c: Cache, kind: nat, p: SlabPtr, key: seq<byte>, now: nat): Option<seq<byte>>
    requires Shape(cfg, c)
  {
    if kind != SLAB_RAM || p.class_ >= |c.regions| || p.tier >= |c.regions[p.class_]| then None
    else
      var s := c.regions[p.class_][p.tier];
      assert SlabGood(s);
      if p.offset % s.stride != 0 then None // never: pointers are slot offsets
      else Read(s, p.offset, p.gen, p.trunc, KeyMid(key), now)
  }

  /** Get over a backend that holds nothing: index, then slab. */
  function Get(cfg: Config, c: Cache, tenant: nat, key: seq<byte>, now: nat): Option<seq<byte>>
    requires Shape(cfg, c) && tenant < TENANTS
  {
    match Lookup(Lane(c, key), BITS, TagOf(cfg, tenant, key))
    case None => None
    case Some(v) => ReadVia(cfg, c, v, key, now)
  }
}
