/**
 The cache manager object: a matrix of regions, two indices and the byte counters, updated in
 place and proved against the value-level model of module CacheModel.
 */
module Manager {
  import opened Machine
  import opened Trie
  import opened Slabs
  import opened Tags
  import opened Pointers
  import opened CacheModel
  import opened Regions
  import opened Index
  import CacheRuns

  ghost predicate InMatrix(regions: seq<seq<Region>>, i: int, j: int) {
    0 <= i < |regions| && 0 <= j < |regions[i]|
  }

  /** No two places of the matrix share a region or a buffer. */
  ghost predicate Apart(regions: seq<seq<Region>>)
    reads set i, j | 0 <= i < |regions| && 0 <= j < |regions[i]| :: regions[i][j]
  {
    forall i, j, k, l :: InMatrix(regions, i, j) && InMatrix(regions, k, l) && (i != k || j != l) ==>
      regions[i][j] != regions[k][l] && regions[i][j].buf != regions[k][l].buf
  }

  ghost predicate Holds(regions: seq<seq<Region>>, slabs: seq<seq<Slab>>)
    reads set i, j | 0 <= i < |regions| && 0 <= j < |regions[i]| :: regions[i][j]
    reads set i, j | 0 <= i < |regions| && 0 <= j < |regions[i]| :: regions[i][j].buf
  {
    && |slabs| == |regions|
    && (forall i :: 0 <= i < |regions| ==> |slabs[i]| == |regions[i]|)
    && forall i, j :: InMatrix(regions, i, j) ==> regions[i][j].View() == slabs[i][j]
  }

  /** Writes into one region of the matrix; the others are untouched. */
  method WriteAt(regions: seq<seq<Region>>, ghost slabs: seq<seq<Slab>>, i: nat, j: nat, e: Slabs.Entry, ttl: nat,
      now: nat, can: Recycler)
    returns (r: Option<Receipt>)
    requires Apart(regions) && Holds(regions, slabs) && InMatrix(regions, i, j) && Ok(slabs[i][j])
    requires e.expiry == Expiry(now, ttl)
    modifies regions[i][j], regions[i][j].buf
    ensures Apart(regions) && Holds(regions, SetRegion(slabs, i, j, Write(slabs[i][j], e, can).0))
    ensures r == Write(slabs[i][j], e, can).1
    ensures regions[i][j].buf == old(regions[i][j].buf) || fresh(regions[i][j].buf)
  {
    hide Write, Ok, Expiry;
    r := regions[i][j].Write(e.tenant, e.keyMid, e.value, ttl, now, can);
    forall k, l | InMatrix(regions, k, l) && (k != i || l != j)
      ensures regions[k][l].View() == slabs[k][l]
    {
      assert regions[k][l] != regions[i][j];
    }
  }

  /** Sets one back-pointer; every other slot and region is untouched. */
  method MarkAt(regions: seq<seq<Region>>, ghost slabs: seq<seq<Slab>>, i: nat, j: nat, physOff: nat, sp: Word)
    requires Apart(regions) && Holds(regions, slabs) && InMatrix(regions, i, j) && Ok(slabs[i][j])
             && physOff % slabs[i][j].stride == 0
    modifies regions[i][j].buf
    ensures Apart(regions) && Holds(regions, SetRegion(slabs, i, j, WithBackPtr(slabs[i][j], physOff, sp)))
  {
    hide WithBackPtr, Ok;
    regions[i][j].UpdateXSlotPtr(physOff, sp);
    forall k, l | InMatrix(regions, k, l) && (k != i || l != j)
      ensures regions[k][l].View() == slabs[k][l]
    {
      assert regions[k][l] != regions[i][j];
    }
  }

  class CacheManager {
    const cfg: Config
    const regions: seq<seq<Region>>
    const tinyIdx: InlineIndex
    const hashIdx: InlineIndex
    var tenantUsage: seq<nat>
    var globalUsed: nat
    /** The abstract cache this object holds. */
    ghost var view: Cache

    ghost predicate IndicesHold(tiny: Cells, long: Cells)
      reads tinyIdx, hashIdx
    {
      && tinyIdx != hashIdx && tinyIdx.Valid() && hashIdx.Valid() && tinyIdx.bits == BITS == hashIdx.bits
      && tinyIdx.Cells() == tiny && hashIdx.Cells() == long
    }

    ghost predicate Valid()
      reads this, tinyIdx, hashIdx
      reads set i, j | 0 <= i < |regions| && 0 <= j < |regions[i]| :: regions[i][j]
      reads set i, j | 0 <= i < |regions| && 0 <= j < |regions[i]| :: regions[i][j].buf
    {
      && ConfigOk(cfg) && Shape(cfg, view)
      && Apart(regions) && Holds(regions, view.regions) && IndicesHold(view.tiny, view.long)
      && tenantUsage == view.usage && globalUsed == view.used
    }

    /** All region memory divided evenly; both indices empty; every counter zero. */
    constructor (config: Config, memory: nat)
      requires ConfigOk(config)
      ensures Valid() && cfg == config && view == CacheRuns.Initial(config, memory)
    {
      hide Apart, Holds, ConfigOk, WellFormed, Unique, EmptyTrie, CacheRuns.NewRegion, Shape;
      cfg := config;
      var rs := AllocateRegions(config, memory);
      regions := rs;
      var tiny := new InlineIndex(0);
      var long := new InlineIndex(0);
      tinyIdx := tiny;
      hashIdx := long;
      tenantUsage := seq(TENANTS, t => 0);
      globalUsed := 0;
      view := CacheRuns.Initial(config, memory);
      new;
      CacheRuns.InitialShape(config, memory);
    }

    method SelectSizeClass(valueLen: nat) returns (i: nat)
      requires cfg.classes != []
      ensures i == Select(cfg.classes, valueLen)
    {
      i := SelectBound(cfg.classes, valueLen);
    }

    method SelectTtlTier(ttl: nat) returns (j: nat)
      requires cfg.tiers != []
      ensures j == Select(cfg.tiers, ttl)
    {
      j := SelectBound(cfg.tiers, ttl);
    }

    /** Writes into one region of the matrix. */
    method WriteRegion(i: nat, j: nat, e: Slabs.Entry, ttl: nat, now: nat, can: Recycler) returns (r: Option<Receipt>)
      requires Valid() && InMatrix(regions, i, j) && e.tenant < TENANTS && e.expiry == Expiry(now, ttl)
      modifies this`view, regions[i][j], regions[i][j].buf
      ensures Valid() && unchanged(this`tenantUsage, this`globalUsed)
      ensures var (s, got) := Write(old(view).regions[i][j], e, can);
              view == old(view).(regions := SetRegion(old(view).regions, i, j, s)) && r == got
      ensures regions[i][j].buf == old(regions[i][j].buf) || fresh(regions[i][j].buf)
    {
      hide Apart, Holds, Write, Ok, ConfigOk, Shaped, IndicesHold, SlabGood, Expiry;
      Agrees();
      ghost var s := view.regions[i][j];
      CacheRuns.GoodPositive(s);
      CacheRuns.WriteGood(s, e, can);
      r := WriteAt(regions, view.regions, i, j, e, ttl, now, can);
      view := view.(regions := SetRegion(view.regions, i, j, Write(s, e, can).0));
    }

    /** Sets the back-pointer of a slot of one region. */
    method MarkSlot(i: nat, j: nat, physOff: nat, sp: Word)
      requires Valid() && InMatrix(regions, i, j) && regions[i][j].stride > 0 && physOff % regions[i][j].stride == 0
      modifies this`view, regions[i][j].buf
      ensures Valid() && unchanged(this`tenantUsage, this`globalUsed)
      ensures old(view).regions[i][j].stride > 0
      ensures view ==
              old(view).(regions := SetRegion(old(view).regions, i, j,
              WithBackPtr(old(view).regions[i][j], physOff, sp)))
    {
      hide Apart, Holds, WithBackPtr, Ok, ConfigOk, Shaped, IndicesHold, SlabGood;
      Agrees();
      ModelShape(i, j);
      ghost var s := view.regions[i][j];
      CacheRuns.GoodPositive(s);
      CacheRuns.BackPtrGood(s, physOff, sp);
      MarkAt(regions, view.regions, i, j, physOff, sp);
      view := view.(regions := SetRegion(view.regions, i, j, WithBackPtr(s, physOff, sp)));
    }

    method SetTiny(tag: Word, val: Word, now: int)
      requires Valid() && Live(tag)
      modifies this`view, tinyIdx
      ensures Valid() && unchanged(this`tenantUsage, this`globalUsed)
      ensures Shaped(old(view).tiny) && view == old(view).(tiny := Trie.Set(old(view).tiny, BITS, tag, val))
    {
      hide Apart, Holds, Trie.Set, ConfigOk, Shaped, SlabGood, Live, InlineIndex.Valid, InlineIndex.ValidWith,
           NodePool.CellsOf;
      tinyIdx.Upsert(tag, val, now);
      view := view.(tiny := Trie.Set(view.tiny, BITS, tag, val));
    }

    method SetLong(tag: Word, val: Word, now: int)
      requires Valid() && Live(tag)
      modifies this`view, hashIdx
      ensures Valid() && unchanged(this`tenantUsage, this`globalUsed)
      ensures Shaped(old(view).long) && view == old(view).(long := Trie.Set(old(view).long, BITS, tag, val))
    {
      hide Apart, Holds, Trie.Set, ConfigOk, Shaped, SlabGood, Live, InlineIndex.Valid, InlineIndex.ValidWith,
           NodePool.CellsOf;
      hashIdx.Upsert(tag, val, now);
      view := view.(long := Trie.Set(view.long, BITS, tag, val));
    }

    lemma ModelShape(i: nat, j: nat)
      requires Valid() && InMatrix(regions, i, j)
      ensures InModel(view, i, j) && regions[i][j].stride == view.regions[i][j].stride
    {
      CacheRuns.GoodPositive(view.regions[i][j]);
    }

    /** Two-counter subtraction, modulo 2^64 as unsigned arithmetic is. */
    method SubUsage(tenant: nat, size: nat)
      requires Valid() && tenant < TENANTS
      modifies this`tenantUsage, this`globalUsed, this`view
      ensures Valid()
      ensures |old(view).usage| == TENANTS
      ensures view == old(view).(usage := old(view).usage[tenant := SubWrap(old(view).usage[tenant], size)],
                                 used := SubWrap(old(view).used, size))
    {
      hide Apart, Holds, IndicesHold, ConfigOk, Shaped, SlabGood, SubWrap;
      tenantUsage := tenantUsage[tenant := SubWrap(tenantUsage[tenant], size)];
      globalUsed := SubWrap(globalUsed, size);
      view := view.(usage := tenantUsage, used := globalUsed);
    }

    method AddUsage(tenant: nat, size: nat)
      requires Valid() && tenant < TENANTS
      modifies this`tenantUsage, this`globalUsed, this`view
      ensures Valid()
      ensures |old(view).usage| == TENANTS && view == Charge(old(view), tenant, size)
    {
      hide Apart, Holds, IndicesHold, ConfigOk, Shaped, SlabGood;
      tenantUsage := tenantUsage[tenant := tenantUsage[tenant] + size];
      globalUsed := globalUsed + size;
      view := view.(usage := tenantUsage, used := globalUsed);
    }

    method TagFor(tenant: nat, key: seq<byte>) returns (tag: Word)
      requires tenant < TENANTS
      ensures tag == TagOf(cfg, tenant, key) && Live(tag)
    {
      hide Live, LongTag, TinyTag, Big16;
      TagLive(cfg, tenant, key);
      var long := IsHashLane(key);
      if long {
        return LongTag(cfg.hash(tenant, key), Big16(tenant, key));
      }
      tag := MakeTagTiny(tenant, key);
    }

    /** The steps of a put after its slot is written: eviction accounting, index, back-pointer, charge. */
    method Publish(i: nat, j: nat, req: Request, e: Slabs.Entry, r: Receipt, long: bool, tag: Word, now: int)
      requires Valid() && InMatrix(regions, i, j) && req.tenant < TENANTS && regions[i][j].stride > 0
               && r.physOff % regions[i][j].stride == 0
      requires long == HashLane(req.key) && tag == TagOf(cfg, req.tenant, req.key) && Live(tag)
      requires r.evicted.Some? ==> r.evicted.value.tenant < TENANTS
      modifies this`tenantUsage, this`globalUsed, this`view, tinyIdx, hashIdx, regions[i][j].buf
      ensures Valid()
      ensures InModel(old(view), i, j) && view == Published(cfg, old(view), i, j, req, e, r)
    {
      hide Valid, Evict, Charge, TagOf, Live, Pack, HashLane, SubWrap, WithBackPtr, Trie.Set, Shaped;
      ModelShape(i, j);
      EvictIs(view, r.evicted);
      if r.evicted.Some? {
        SubUsage(r.evicted.value.tenant, (HEADER + r.evicted.value.valueLen) % 0x1_0000);
      }
      var ptr := Pack(PublishedPtr(i, j, e, r));
      if long {
        SetLong(tag, ptr, now);
      } else {
        SetTiny(tag, ptr, now);
      }
      var sp := TagRef(long, tag % 0x100, tag);
      if sp != 0 {
        MarkSlot(i, j, r.physOff, sp);
      }
      AddUsage(req.tenant, HEADER + |req.value|);
    }

    /** The shared body of Put and Update. */
    method Put(req: Request, now: nat, can: Recycler, backendOk: bool) returns (ok: bool)
      requires Valid() && req.tenant < TENANTS
      modifies this`tenantUsage, this`globalUsed, this`view, tinyIdx, hashIdx
      modifies set i, j | 0 <= i < |regions| && 0 <= j < |regions[i]| :: regions[i][j]
      modifies set i, j | 0 <= i < |regions| && 0 <= j < |regions[i]| :: regions[i][j].buf
      ensures Valid()
      ensures (view, ok) == CacheModel.Put(cfg, old(view), can, req, now, backendOk)
    {
      hide HashLane, TagOf, Live, ConfigOk, Shape, Apart, Holds, IndicesHold, Select, CacheModel.Put;
      Agrees();
      CacheRuns.ConfigSome(cfg);
      assert InMatrix(regions, Select(cfg.classes, |req.value|), Select(cfg.tiers, req.ttl));
      ghost var region := regions[Select(cfg.classes, |req.value|)][Select(cfg.tiers, req.ttl)];
      var long := IsHashLane(req.key);
      var tag := TagFor(req.tenant, req.key);
      var i := SelectSizeClass(|req.value|);
      var j := SelectTtlTier(req.ttl);
      assert Valid();
      assert region == regions[i][j] && region.buf == old(region.buf);
      ok := PutInto(i, j, long, tag, req, now, can, backendOk);
    }

    method PutInto(i: nat, j: nat, long: bool, tag: Word, req: Request, now: nat, can: Recycler,
        backendOk: bool) returns (ok: bool)
      requires Valid() && InMatrix(regions, i, j) && req.tenant < TENANTS
      requires cfg.classes != [] && cfg.tiers != [] && i == Select(cfg.classes, |req.value|)
      requires j == Select(cfg.tiers, req.ttl)
      requires long == HashLane(req.key) && tag == TagOf(cfg, req.tenant, req.key) && Live(tag)
      modifies this`tenantUsage, this`globalUsed, this`view, tinyIdx, hashIdx, regions[i][j], regions[i][j].buf
      ensures Valid()
      ensures (view, ok) == CacheModel.Put(cfg, old(view), can, req, now, backendOk)
    {
      hide Valid, HashLane, TagOf, Live, Ok, Write, Shaped, Shape, ConfigOk, SlabGood, Select, Published,
           CacheModel.Put, Expiry, SetRegion, InModel;
      Agrees();
      ModelShape(i, j);
      if cfg.limit > 0 && tenantUsage[req.tenant] + HEADER + |req.value| > cfg.limit {
        OverQuotaPut(cfg, view, can, req, now, backendOk);
        return false;
      }
      var e := Slabs.Entry(req.tenant, if long then MiddleByte(req.key) else 0, req.value, Expiry(now, req.ttl));
      ghost var c := view;
      ReceiptOk(c, i, j, e, can);
      AcceptedPut(cfg, c, i, j, can, req, now, backendOk);
      var r := WriteRegion(i, j, e, req.ttl, now, can);
      if r.None? {
        return backendOk;
      }
      Publish(i, j, req, e, r.value, long, tag, now);
      return true;
    }

    lemma Agrees()
      requires Valid()
      ensures ConfigOk(cfg) && Shape(cfg, view) && tenantUsage == view.usage && |view.usage| == TENANTS
      ensures |regions| == |view.regions| && forall i :: 0 <= i < |regions| ==> |regions[i]| == |view.regions[i]|
      ensures forall i, j :: 0 <= i < |cfg.classes| && 0 <= j < |cfg.tiers| ==> InMatrix(regions, i, j)
    {}

    /** Index, then slab; the backend behind a miss holds nothing. */
    method Get(tenant: nat, key: seq<byte>, now: nat) returns (r: Option<seq<byte>>)
      requires Valid() && tenant < TENANTS
      ensures Shape(cfg, view) && r == CacheModel.Get(cfg, view, tenant, key, now)
    {
      hide HashLane, TagOf, Live, ConfigOk, Shape, Apart, Holds, Lookup, ReadVia, InlineIndex.Valid,
           InlineIndex.ValidWith, NodePool.CellsOf;
      Agrees();
      var long := IsHashLane(key);
      var tag := TagFor(tenant, key);
      var found: Option<Word>;
      if long {
        found := hashIdx.Get(tag);
      } else {
        found := tinyIdx.Get(tag);
      }
      if found.None? {
        return None;
      }
      assert Valid();
      r := Follow(found.value, long, key, now);
    }

    /** Unpacks an index value and reads the slot it names. */
    method Follow(v: Word, long: bool, key: seq<byte>, now: nat) returns (r: Option<seq<byte>>)
      requires Valid() && long == HashLane(key)
      ensures Shape(cfg, view) && r == ReadVia(cfg, view, v, key, now)
    {
      hide HashLane, ConfigOk, Shape, Apart, Holds, IndicesHold, Unpack, TypeOf, Slabs.Read, SlabGood;
      Agrees();
      var p := Unpack(v);
      if TypeOf(v) != SLAB_RAM || p.class_ >= |regions| || p.tier >= |regions[p.class_]| {
        return None;
      }
      ModelShape(p.class_, p.tier);
      RegionHeld(p.class_, p.tier);
      var region := regions[p.class_][p.tier];
      if p.offset % region.stride != 0 {
        return None;
      }
      r := region.Read(p.offset, p.gen, p.trunc, if long then MiddleByte(key) else 0, now);
    }

    lemma RegionHeld(i: nat, j: nat)
      requires Valid() && InMatrix(regions, i, j)
      ensures i < |view.regions| && j < |view.regions[i]| && regions[i][j].View() == view.regions[i][j]
              && regions[i][j].Valid()
    {
      CacheRuns.GoodPositive(view.regions[i][j]);
    }
  }

  /** No cache without size classes or without tiers; any other configuration gets one. */
  method NewCacheManager(config: Config, memory: nat) returns (r: Option<CacheManager>)
    ensures r.Some? <==> config.classes != [] && config.tiers != []
    ensures r.Some? ==> fresh(r.value) && r.value.Valid() && r.value.cfg == config
    ensures r.Some? ==> r.value.view == CacheRuns.Initial(config, memory)
  {
    hide Apart, Holds, Shape;
    if !ConfigOk(config) {
      return None;
    }
    var cm := new CacheManager(config, memory);
    return Some(cm);
  }

  method AllocateRow(cfg: Config, memory: nat, i: nat) returns (row: seq<Region>)
    requires ConfigOk(cfg) && i < |cfg.classes|
    ensures |row| == |cfg.tiers|
    ensures forall j :: 0 <= j < |row| ==>
              fresh(row[j]) && fresh(row[j].buf) && row[j].View() == CacheRuns.NewRegion(cfg, memory, i)
    ensures forall j, l :: 0 <= j < l < |row| ==> row[j] != row[l] && row[j].buf != row[l].buf
  {
    hide New, Stride, ConfigOk, CacheRuns.SlotShare, Ok;
    CacheRuns.ConfigSome(cfg);
    var stride := Stride(cfg.classes[i]);
    var maxSlots := CacheRuns.SlotShare(cfg, memory, stride);
    row := [];
    for j := 0 to |cfg.tiers|
      invariant |row| == j
      invariant forall k :: 0 <= k < j ==> fresh(row[k]) && fresh(row[k].buf) && row[k].View() == New(stride, maxSlots)
      invariant forall k, l :: 0 <= k < l < j ==> row[k] != row[l] && row[k].buf != row[l].buf
    {
      var r := new Region(stride, maxSlots);
      row := row + [r];
    }
  }

  method AllocateRegions(cfg: Config, memory: nat) returns (rs: seq<seq<Region>>)
    requires ConfigOk(cfg)
    ensures Apart(rs) && Holds(rs, CacheRuns.Initial(cfg, memory).regions)
  {
    hide CacheRuns.NewRegion, ConfigOk, CacheRuns.Initial, Holds;
    rs := [];
    for i := 0 to |cfg.classes|
      invariant |rs| == i && forall k :: 0 <= k < i ==> |rs[k]| == |cfg.tiers|
      invariant forall k, l :: 0 <= k < i && 0 <= l < |rs[k]| ==>
                  fresh(rs[k][l]) && fresh(rs[k][l].buf) && rs[k][l].View() == CacheRuns.NewRegion(cfg, memory, k)
      invariant forall h, j, k, l :: 0 <= h < i && 0 <= j < |rs[h]| && 0 <= k < i && 0 <= l < |rs[k]| ==>
                  h != k || j != l ==> rs[h][j] != rs[k][l] && rs[h][j].buf != rs[k][l].buf
    {
      var row := AllocateRow(cfg, memory, i);
      rs := rs + [row];
    }
    HoldsInitial(rs, cfg, memory);
  }

  lemma HoldsInitial(rs: seq<seq<Region>>, cfg: Config, memory: nat)
    requires ConfigOk(cfg) && |rs| == |cfg.classes| && forall i :: 0 <= i < |rs| ==> |rs[i]| == |cfg.tiers|
    requires forall i, j :: 0 <= i < |rs| && 0 <= j < |rs[i]| ==> rs[i][j].View() == CacheRuns.NewRegion(cfg, memory, i)
    ensures Holds(rs, CacheRuns.Initial(cfg, memory).regions)
  {
    hide CacheRuns.NewRegion, ConfigOk;
  }

  /** The loop behind both selections: the first bound that x does not exceed, or the last. */
  method SelectBound(bounds: seq<nat>, x: nat) returns (i: nat)
    requires bounds != []
    ensures i == Select(bounds, x)
  {
    for k := 0 to |bounds|
      invariant forall l :: 0 <= l < k ==> x > bounds[l]
    {
      if x <= bounds[k] {
        return k;
      }
    }
    return |bounds| - 1;
  }

  ghost predicate InModel(c: Cache, i: nat, j: nat) {
    && i < |c.regions| && j < |c.regions[i]| && c.regions[i][j].stride > 0
    && |c.usage| == TENANTS && Shaped(c.tiny) && Shaped(c.long)
  }

  /** The abstract cache after the steps that follow the slab write. */
  ghost function Published(cfg: Config, c: Cache, i: nat, j: nat, req: Request, e: Slabs.Entry, r: Receipt): Cache
    requires InModel(c, i, j) && req.tenant < TENANTS && (r.evicted.Some? ==> r.evicted.value.tenant < TENANTS)
  {
    var tag := TagOf(cfg, req.tenant, req.key);
    var sp := TagRef(HashLane(req.key), tag % 0x100, tag);
    var c2 := SetIndex(Evict(c, r.evicted), req.key, tag, Pack(PublishedPtr(i, j, e, r)));
    var s := if sp != 0 then WithBackPtr(c2.regions[i][j], r.physOff, sp) else c2.regions[i][j];
    var c3 := if sp != 0 then c2.(regions := SetRegion(c2.regions, i, j, s)) else c2;
    Charge(c3, req.tenant, HEADER + |req.value|)
  }

  lemma EvictIs(c: Cache, evicted: Option<Header>)
    requires |c.usage| == TENANTS && (evicted.Some? ==> evicted.value.tenant < TENANTS)
    ensures evicted.None? ==> Evict(c, evicted) == c
    ensures evicted.Some? ==>
              var h := evicted.value;
              var size := (HEADER + h.valueLen) % 0x1_0000;
              Evict(c, evicted) == c.(usage := c.usage[h.tenant := SubWrap(c.usage[h.tenant], size)],
                                      used := SubWrap(c.used, size))
  {}

  lemma OverQuotaPut(cfg: Config, c: Cache, can: Recycler, req: Request, now: nat, backendOk: bool)
    requires ConfigOk(cfg) && Shape(cfg, c) && req.tenant < TENANTS && OverQuota(cfg, c, req)
    ensures CacheModel.Put(cfg, c, can, req, now, backendOk) == (c, false)
  {}

  /** A receipt names a slot offset and a legal tenant. */
  lemma ReceiptOk(c: Cache, i: nat, j: nat, e: Slabs.Entry, can: Recycler)
    requires InModel(c, i, j) && SlabGood(c.regions[i][j])
    ensures var r := Write(c.regions[i][j], e, can).1;
            r.Some? ==>
              && r.value.physOff % c.regions[i][j].stride == 0
              && (r.value.evicted.Some? ==> r.value.evicted.value.tenant < TENANTS)
  {
    hide Write, Shaped, Ok;
    var s := c.regions[i][j];
    CacheRuns.GoodPositive(s);
    EvictedTenant(s, e, can);
    if Write(s, e, can).1.Some? {
      WriteLands(s, e, can);
      Aligned(s.writeSlot % s.maxCount, s.stride);
    }
  }

  /** The order of the steps does not matter: publishing after the slab write is the model's put. */
  lemma AcceptedPut(cfg: Config, c: Cache, i: nat, j: nat, can: Recycler, req: Request, now: nat, backendOk: bool)
    requires ConfigOk(cfg) && Shape(cfg, c) && req.tenant < TENANTS && !OverQuota(cfg, c, req) && InModel(c, i, j)
    requires cfg.classes != [] && cfg.tiers != [] && i == Select(cfg.classes, |req.value|)
    requires j == Select(cfg.tiers, req.ttl)
    ensures var e := EntryOf(req, now);
            var (s, r) := Write(c.regions[i][j], e, can);
            var c0 := c.(regions := SetRegion(c.regions, i, j, s));
            && InModel(c0, i, j)
            && (r.None? ==> CacheModel.Put(cfg, c, can, req, now, backendOk) == (c0, backendOk))
            && (r.Some? ==> && (r.value.evicted.Some? ==> r.value.evicted.value.tenant < TENANTS)
                            && CacheModel.Put(cfg, c, can, req, now, backendOk) ==
                               (Published(cfg, c0, i, j, req, e, r.value), true))
  {
    hide Write, Shaped, Shape, ConfigOk, SlabGood, Select, TagOf, Trie.Set, SubWrap, Pack, HashLane, TagRef,
         WithBackPtr, SetRegion, Evict;
    var e := EntryOf(req, now);
    var s0 := RegionFor(cfg, c, req);
    CacheRuns.GoodPositive(s0);
    WriteCaps(s0, e, can);
    EvictedTenant(s0, e, can);
    var (s, r) := Write(s0, e, can);
    if r.Some? {
      var (s', r') := Store(cfg, c, can, req, now);
      SetTwice(c.regions, i, j, s, s');
      EvictElsewhere(c, SetRegion(c.regions, i, j, s), r.value.evicted);
      EvictElsewhere(c, SetRegion(c.regions, i, j, s'), r.value.evicted);
    }
  }

  lemma SetTwice(slabs: seq<seq<Slab>>, i: nat, j: nat, s: Slab, t: Slab)
    requires i < |slabs| && j < |slabs[i]|
    ensures SetRegion(SetRegion(slabs, i, j, s), i, j, t) == SetRegion(slabs, i, j, t)
    ensures SetRegion(slabs, i, j, s)[i][j] == s
  {
    var a, b := SetRegion(SetRegion(slabs, i, j, s), i, j, t), SetRegion(slabs, i, j, t);
    assert a[i] == b[i];
    assert a == b;
  }

  lemma EvictElsewhere(c: Cache, slabs: seq<seq<Slab>>, evicted: Option<Header>)
    requires evicted.Some? ==> evicted.value.tenant < |c.usage|
    ensures Evict(c.(regions := slabs), evicted) == Evict(c, evicted).(regions := slabs)
    ensures Evict(c, evicted).tiny == c.tiny && Evict(c, evicted).long == c.long
    ensures |Evict(c, evicted).usage| == |c.usage|
  {}
}
