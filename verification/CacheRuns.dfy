/**
 Whole runs of the cache. Beside the state runs the history of puts that reached a slab
 slot; the invariant ties every index entry, every slot and every counter to it.
 */
module CacheRuns {
  import opened Machine
  import opened Trie
  import opened Slabs
  import opened Tags
  import opened Pointers
  import opened CacheModel
  import opened CacheAccounts

  /** One put that reached a slab slot: what it stored, in which region, and as which of its writes. */
  datatype Rec = Rec(tenant: nat, key: seq<byte>, value: seq<byte>, expiry: nat, class_: nat, tier: nat, n: nat)

  // ---------- history ----------

  function RecEntry(r: Rec): Slabs.Entry {
    Slabs.Entry(r.tenant, KeyMid(r.key), r.value, r.expiry)
  }

  /** The accepted writes of region (i, j), in order. */
  function LogOf(hist: seq<Rec>, i: nat, j: nat): seq<Slabs.Entry> {
    if hist == [] then []
    else
      var r := hist[|hist| - 1];
      var front := LogOf(hist[..|hist| - 1], i, j);
      if r.class_ == i && r.tier == j then front + [RecEntry(r)] else front
  }

  lemma LogExtends(hist: seq<Rec>, r: Rec, i: nat, j: nat)
    ensures LogOf(hist + [r], i, j) ==
            if r.class_ == i && r.tier == j then LogOf(hist, i, j) + [RecEntry(r)] else LogOf(hist, i, j)
  {
    assert (hist + [r])[..|hist|] == hist;
  }

  ghost predicate TenantsOk(hist: seq<Rec>) {
    forall m :: 0 <= m < |hist| ==> hist[m].tenant < TENANTS
  }

  /** The last put that reached a slab slot under this lane and tag. */
  function LatestTag(cfg: Config, hist: seq<Rec>, long: bool, tag: Word): Option<Rec>
    requires TenantsOk(hist)
  {
    if hist == [] then None
    else
      var r := hist[|hist| - 1];
      if HashLane(r.key) == long && TagOf(cfg, r.tenant, r.key) == tag then Some(r)
      else LatestTag(cfg, hist[..|hist| - 1], long, tag)
  }

  lemma LatestTagExtends(cfg: Config, hist: seq<Rec>, r: Rec, long: bool, tag: Word)
    requires TenantsOk(hist) && r.tenant < TENANTS
    ensures TenantsOk(hist + [r])
    ensures LatestTag(cfg, hist + [r], long, tag) ==
            if HashLane(r.key) == long && TagOf(cfg, r.tenant, r.key) == tag then Some(r)
            else LatestTag(cfg, hist, long, tag)
  {
    hide TagOf;
    assert (hist + [r])[..|hist|] == hist;
  }

  /** The last put of this tenant and key that reached a slab slot. */
  function LatestPut(hist: seq<Rec>, tenant: nat, key: seq<byte>): Option<Rec> {
    if hist == [] then None
    else
      var r := hist[|hist| - 1];
      if r.tenant == tenant && r.key == key then Some(r) else LatestPut(hist[..|hist| - 1], tenant, key)
  }

  // ---------- one put, with its history ----------

  /** The record of a put that reaches a slot. */
  function RecOf(cfg: Config, hist: seq<Rec>, req: Request, now: nat): Rec
    requires ConfigOk(cfg)
  {
    var i, j := Select(cfg.classes, |req.value|), Select(cfg.tiers, req.ttl);
    Rec(req.tenant, req.key, req.value, Expiry(now, req.ttl), i, j, |LogOf(hist, i, j)|)
  }

  function Recorded(cfg: Config, c: Cache, hist: seq<Rec>, can: Recycler, req: Request, now: nat): seq<Rec>
    requires ConfigOk(cfg) && Shape(cfg, c) && req.tenant < TENANTS
  {
    if Reaches(cfg, c, can, req, now) then hist + [RecOf(cfg, hist, req, now)] else hist
  }

  // ---------- the invariant ----------

  /** A region holds exactly its log. */
  ghost predicate RegionGood(s: Slab, log: seq<Slabs.Entry>) {
    SlabGood(s) && Mirrors(s, log)
  }

  ghost predicate RegionsGood(c: Cache, hist: seq<Rec>) {
    forall i, j :: 0 <= i < |c.regions| && 0 <= j < |c.regions[i]| ==> RegionGood(c.regions[i][j], LogOf(hist, i, j))
  }

  /** A record names an existing region and an accepted write of it. */
  ghost predicate RecGood(cfg: Config, hist: seq<Rec>, r: Rec) {
    && r.tenant < TENANTS && r.class_ < |cfg.classes| && r.tier < |cfg.tiers|
    && r.n < |LogOf(hist, r.class_, r.tier)| && LogOf(hist, r.class_, r.tier)[r.n] == RecEntry(r)
  }

  ghost predicate HistGood(cfg: Config, hist: seq<Rec>) {
    forall m :: 0 <= m < |hist| ==> RecGood(cfg, hist, hist[m])
  }

  /** The pointer published for a record. */
  ghost function PtrOf(c: Cache, r: Rec): Word
    requires r.class_ < |c.regions| && r.tier < |c.regions[r.class_]| && c.regions[r.class_][r.tier].maxCount > 0
  {
    Pack(PublishedPtr(r.class_, r.tier, RecEntry(r), Pointer(c.regions[r.class_][r.tier], r.n)))
  }

  /** What an index must answer for a tag whose latest record is known. */
  ghost predicate Answers(c: Cache, cells: Cells, tag: Word, latest: Option<Rec>)
    requires Shaped(cells)
  {
    match latest
    case None => Lookup(cells, BITS, tag) == None
    case Some(r) =>
      && r.class_ < |c.regions| && r.tier < |c.regions[r.class_]| && c.regions[r.class_][r.tier].maxCount > 0
      && Lookup(cells, BITS, tag) == if PathFull(cells, BITS, tag) then None else Some(PtrOf(c, r))
  }

  ghost predicate IndexGood(cfg: Config, c: Cache, cells: Cells, hist: seq<Rec>, long: bool) {
    && WellFormed(cells, BITS) && TenantsOk(hist)
    && forall tag: Word :: Live(tag) ==> Answers(c, cells, tag, LatestTag(cfg, hist, long, tag))
  }

  ghost predicate Inv(cfg: Config, c: Cache, hist: seq<Rec>) {
    && ConfigOk(cfg) && Shape(cfg, c) && TenantsOk(hist)
    && HistGood(cfg, hist) && RegionsGood(c, hist)
    && IndexGood(cfg, c, c.tiny, hist, false) && IndexGood(cfg, c, c.long, hist, true)
    && Covered(cfg, c)
  }

  // ---------- regions ----------

  /** The slab a put leaves behind mirrors the extended log. */
  lemma StoreMirrors(cfg: Config, c: Cache, can: Recycler, req: Request, now: nat, log: seq<Slabs.Entry>)
    requires ConfigOk(cfg) && Shape(cfg, c) && req.tenant < TENANTS && Mirrors(RegionFor(cfg, c, req), log)
    ensures var s := RegionFor(cfg, c, req);
            var (s', r) := Store(cfg, c, can, req, now);
            && Ok(s') && s'.maxCount == s.maxCount && s'.stride == s.stride
            && Mirrors(s', if r.Some? then log + [EntryOf(req, now)] else log)
            && (r.Some? ==> r.value.physOff == Pointer(s, |log|).physOff && r.value.gen == Pointer(s, |log|).gen)
  {
    hide Write, Mirrors, Ok, TagOf, TagRef, Shape, ConfigOk, RegionFor;
    var s := RegionFor(cfg, c, req);
    var e := EntryOf(req, now);
    WriteMirrors(s, log, e, can);
    var (s', r) := Write(s, e, can);
    if r.Some? {
      MirrorsLength(s, log);
      WriteLands(s, e, can);
      WrittenSlot(s, log);
      var tag := TagOf(cfg, req.tenant, req.key);
      BackPtrMirrors(s', log + [e], |log| % s.maxCount, TagRef(HashLane(req.key), tag % 0x100, tag));
    }
  }

  lemma MirrorsLength(s: Slab, log: seq<Slabs.Entry>)
    requires Ok(s) && Mirrors(s, log)
    ensures |log| == s.writeSlot
  {}

  lemma WrittenSlot(s: Slab, log: seq<Slabs.Entry>)
    requires Ok(s) && Mirrors(s, log)
    ensures s.maxCount > 0 && |log| % s.maxCount <= |log|
  {
    hide Mirrors;
  }

  lemma StoreGood(cfg: Config, c: Cache, can: Recycler, req: Request, now: nat)
    requires ConfigOk(cfg) && Shape(cfg, c) && req.tenant < TENANTS
    ensures SlabGood(Store(cfg, c, can, req, now).0)
  {
    hide TagOf, Write, Shape, ConfigOk, TagRef, Ok, WithBackPtr, RegionFor;
    var s := RegionFor(cfg, c, req);
    var e := EntryOf(req, now);
    WriteTenants(s, e, can);
    WriteOk(s, e, can);
    var (s', r) := Write(s, e, can);
    if r.Some? {
      var tag := TagOf(cfg, req.tenant, req.key);
      BackPtrGood(s', r.value.physOff, TagRef(HashLane(req.key), tag % 0x100, tag));
    }
  }

  lemma BackPtrGood(s: Slab, physOff: nat, sp: Word)
    requires SlabGood(s)
    ensures SlabGood(WithBackPtr(s, physOff, sp))
  {
    hide Ok, SetBackPtr;
    GoodPositive(s);
    BackPtrOk(s, physOff, sp);
    BackPtrTenants(s, physOff / s.stride, sp);
  }

  lemma BackPtrTenants(s: Slab, k: nat, sp: Word)
    requires SlabGood(s)
    ensures forall i :: 0 <= i < |SetBackPtr(s, k, sp).cells| ==> SetBackPtr(s, k, sp).cells[i].h.tenant < TENANTS
  {
    hide Ok;
  }

  lemma WriteGood(s: Slab, e: Slabs.Entry, can: Recycler)
    requires SlabGood(s) && e.tenant < TENANTS
    ensures SlabGood(Write(s, e, can).0)
  {
    hide Write, Ok;
    WriteTenants(s, e, can);
    WriteOk(s, e, can);
  }

  lemma WriteTenants(s: Slab, e: Slabs.Entry, can: Recycler)
    requires SlabGood(s) && e.tenant < TENANTS
    ensures forall k :: 0 <= k < |Write(s, e, can).0.cells| ==> Write(s, e, can).0.cells[k].h.tenant < TENANTS
  {
    MakeRoomOk(s);
    var g := MakeRoom(s);
    assert forall k :: 0 <= k < |g.cells| ==> g.cells[k].h.tenant < TENANTS;
    hide MakeRoom, NextSlot, MayClaim;
  }

  // ---------- what a put changes ----------

  /** Region capacities and strides never change while only puts run. */
  ghost predicate SameCaps(c: Cache, c': Cache) {
    && |c'.regions| == |c.regions|
    && (forall i :: 0 <= i < |c.regions| ==> |c'.regions[i]| == |c.regions[i]|)
    && forall i, j :: 0 <= i < |c.regions| && 0 <= j < |c.regions[i]| ==>
         c'.regions[i][j].maxCount == c.regions[i][j].maxCount && c'.regions[i][j].stride == c.regions[i][j].stride
  }

  lemma PutRegions(cfg: Config, c: Cache, can: Recycler, req: Request, now: nat, backendOk: bool)
    requires ConfigOk(cfg) && Shape(cfg, c) && req.tenant < TENANTS
    ensures var c' := Put(cfg, c, can, req, now, backendOk).0;
            && |c'.usage| == TENANTS
            && var i, j := Select(cfg.classes, |req.value|), Select(cfg.tiers, req.ttl);
               c'.regions == if OverQuota(cfg, c, req) then c.regions
               else SetRegion(c.regions, i, j, Store(cfg, c, can, req, now).0)
  {
    hide Store, SetRegion, Select, Trie.Set, TagOf, Pack, SubWrap, SlabGood;
  }

  lemma PutIndex(cfg: Config, c: Cache, can: Recycler, req: Request, now: nat, backendOk: bool)
    requires ConfigOk(cfg) && Shape(cfg, c) && req.tenant < TENANTS
    ensures var c' := Put(cfg, c, can, req, now, backendOk).0;
            if !Reaches(cfg, c, can, req, now) then c'.tiny == c.tiny && c'.long == c.long
            else
              var ptr := Pack(PublishedPtr(Select(cfg.classes, |req.value|), Select(cfg.tiers, req.ttl),
                                           EntryOf(req, now), Store(cfg, c, can, req, now).1.value));
              && Lane(c', req.key) == Trie.Set(Lane(c, req.key), BITS, TagOf(cfg, req.tenant, req.key), ptr)
              && (if HashLane(req.key) then c'.tiny == c.tiny else c'.long == c.long)
  {
    hide Store, SetRegion, Select, Trie.Set, TagOf, Pack, SubWrap, SlabGood;
  }

  lemma PutKeepsShape(cfg: Config, c: Cache, can: Recycler, req: Request, now: nat, backendOk: bool)
    requires ConfigOk(cfg) && Shape(cfg, c) && req.tenant < TENANTS
    ensures var c' := Put(cfg, c, can, req, now, backendOk).0;
            Shape(cfg, c') && SameCaps(c, c')
  {
    hide Put, Store, Select, SlabGood, Trie.Set, TagOf, Pack, OverQuota, ConfigOk, Shaped, PublishedPtr, EntryOf;
    PutRegions(cfg, c, can, req, now, backendOk);
    PutIndex(cfg, c, can, req, now, backendOk);
    RegionExists(cfg, c, req);
    StoreGood(cfg, c, can, req, now);
    StoreCaps(cfg, c, can, req, now);
  }

  lemma StoreCaps(cfg: Config, c: Cache, can: Recycler, req: Request, now: nat)
    requires ConfigOk(cfg) && Shape(cfg, c) && req.tenant < TENANTS
    ensures var s' := Store(cfg, c, can, req, now).0;
            s'.maxCount == RegionFor(cfg, c, req).maxCount && s'.stride == RegionFor(cfg, c, req).stride
  {
    hide NextSlot, MayClaim, TagOf, Shape, ConfigOk, RegionFor;
  }

  lemma PutKeepsRegions(cfg: Config, c: Cache, hist: seq<Rec>, can: Recycler, req: Request, now: nat, backendOk: bool)
    requires ConfigOk(cfg) && Shape(cfg, c) && RegionsGood(c, hist) && req.tenant < TENANTS
    ensures var c' := Put(cfg, c, can, req, now, backendOk).0;
            RegionsGood(c', Recorded(cfg, c, hist, can, req, now))
  {
    hide Put, Store, Select, SlabGood, Mirrors, LogOf, OverQuota, Shape, ConfigOk, RegionFor;
    PutRegions(cfg, c, can, req, now, backendOk);
    RegionExists(cfg, c, req);
    StoreGood(cfg, c, can, req, now);
    var c' := Put(cfg, c, can, req, now, backendOk).0;
    var hist' := Recorded(cfg, c, hist, can, req, now);
    var i, j := Select(cfg.classes, |req.value|), Select(cfg.tiers, req.ttl);
    assert RegionGood(c.regions[i][j], LogOf(hist, i, j));
    StoreMirrors(cfg, c, can, req, now, LogOf(hist, i, j));
    forall k, l | 0 <= k < |c'.regions| && 0 <= l < |c'.regions[k]|
      ensures RegionGood(c'.regions[k][l], LogOf(hist', k, l))
    {
      assert RegionGood(c.regions[k][l], LogOf(hist, k, l));
      LogExtends(hist, RecOf(cfg, hist, req, now), k, l);
    }
  }

  lemma PutKeepsHist(cfg: Config, c: Cache, hist: seq<Rec>, can: Recycler, req: Request, now: nat)
    requires ConfigOk(cfg) && Shape(cfg, c) && HistGood(cfg, hist) && req.tenant < TENANTS
    ensures HistGood(cfg, Recorded(cfg, c, hist, can, req, now))
  {
    hide Select, LogOf, Reaches, Shape, Expiry;
    var r := RecOf(cfg, hist, req, now);
    var hist' := Recorded(cfg, c, hist, can, req, now);
    forall m | 0 <= m < |hist'|
      ensures RecGood(cfg, hist', hist'[m])
    {
      LogExtends(hist, r, hist'[m].class_, hist'[m].tier);
    }
  }

  // ---------- the index ----------

  lemma PtrOfSame(c: Cache, c': Cache, r: Rec)
    requires SameCaps(c, c') && r.class_ < |c.regions| && r.tier < |c.regions[r.class_]|
             && c.regions[r.class_][r.tier].maxCount > 0
    ensures PtrOf(c', r) == PtrOf(c, r)
  {
    hide Pack;
  }

  lemma AnswersSame(c: Cache, c': Cache, cells: Cells, tag: Word, latest: Option<Rec>)
    requires SameCaps(c, c') && Shaped(cells) && Answers(c, cells, tag, latest)
    ensures Answers(c', cells, tag, latest)
  {
    hide PtrOf, Lookup, PathFull, Shaped;
    if latest.Some? {
      PtrOfSame(c, c', latest.value);
    }
  }

  /** The index of the other lane: nothing of what it answers changes. */
  lemma OtherLaneGood(cfg: Config, c: Cache, c': Cache, cells: Cells, hist: seq<Rec>, r: Rec, long: bool)
    requires IndexGood(cfg, c, cells, hist, long) && SameCaps(c, c') && r.tenant < TENANTS && HashLane(r.key) != long
    ensures IndexGood(cfg, c', cells, hist + [r], long)
  {
    assert Shaped(cells) && TenantsOk(hist + [r]);
    hide Answers, LatestTag, WellFormed, SameCaps, Shaped;
    forall tag: Word | Live(tag)
      ensures Answers(c', cells, tag, LatestTag(cfg, hist + [r], long, tag))
    {
      LatestTagExtends(cfg, hist, r, long, tag);
      AnswersSame(c, c', cells, tag, LatestTag(cfg, hist, long, tag));
    }
  }

  /** The index of the put's own lane: the tag answers the new record unless its path is full; no other tag changes. */
  lemma OwnLaneGood(cfg: Config, c: Cache, c': Cache, cells: Cells, hist: seq<Rec>, r: Rec, long: bool)
    requires IndexGood(cfg, c, cells, hist, long) && SameCaps(c, c') && r.tenant < TENANTS && HashLane(r.key) == long
    requires r.class_ < |c'.regions| && r.tier < |c'.regions[r.class_]| && c'.regions[r.class_][r.tier].maxCount > 0
    ensures Shaped(cells) && IndexGood(cfg, c', Trie.Set(cells, BITS, TagOf(cfg, r.tenant, r.key), PtrOf(c', r)),
            hist + [r], long)
  {
    var own := TagOf(cfg, r.tenant, r.key);
    assert Shaped(cells) && TenantsOk(hist + [r]);
    TagLive(cfg, r.tenant, r.key);
    var cells' := Trie.Set(cells, BITS, own, PtrOf(c', r));
    SetRefinesUpdate(cells, BITS, own, PtrOf(c', r), own);
    hide Answers, LatestTag, WellFormed, SameCaps, Shaped, PtrOf, TagOf, Trie.Set, Live, PathFull;
    forall tag: Word | Live(tag)
      ensures Answers(c', cells', tag, LatestTag(cfg, hist + [r], long, tag))
    {
      LatestTagExtends(cfg, hist, r, long, tag);
      if tag == own {
        OwnTagAnswers(cfg, c', cells, own, r);
      } else {
        OtherTagAnswers(c, c', cells, own, PtrOf(c', r), tag, LatestTag(cfg, hist, long, tag));
      }
    }
  }

  lemma WellFormedShaped(cells: Cells)
    requires WellFormed(cells, BITS)
    ensures Shaped(cells)
  {}

  lemma OwnTagAnswers(cfg: Config, c': Cache, cells: Cells, own: Word, r: Rec)
    requires WellFormed(cells, BITS) && Live(own)
    requires r.class_ < |c'.regions| && r.tier < |c'.regions[r.class_]| && c'.regions[r.class_][r.tier].maxCount > 0
    ensures Answers(c', Trie.Set(cells, BITS, own, PtrOf(c', r)), own, Some(r))
  {
    hide Trie.Set, Lookup, PathFull, WellFormed, PtrOf, Shaped, Live;
    WellFormedShaped(cells);
    SetRefinesUpdate(cells, BITS, own, PtrOf(c', r), own);
    var cells' := Trie.Set(cells, BITS, own, PtrOf(c', r));
    if PathFull(cells', BITS, own) {
      FullPathMisses(cells', BITS, own);
    }
  }

  lemma OtherTagAnswers(c: Cache, c': Cache, cells: Cells, own: Word, ptr: Word, tag: Word, latest: Option<Rec>)
    requires WellFormed(cells, BITS) && Live(own) && Live(tag) && tag != own && SameCaps(c, c')
    requires Answers(c, cells, tag, latest)
    ensures Answers(c', Trie.Set(cells, BITS, own, ptr), tag, latest)
  {
    hide Trie.Set, Lookup, PathFull, WellFormed, SameCaps, Shaped, Live, PtrOf;
    WellFormedShaped(cells);
    SetRefinesUpdate(cells, BITS, own, ptr, tag);
    AnswersSame(c, c', cells, tag, latest);
    var cells' := Trie.Set(cells, BITS, own, ptr);
    if PathFull(cells, BITS, tag) {
      FullPathStays(cells, BITS, own, ptr, tag);
    } else if PathFull(cells', BITS, tag) {
      FullPathMisses(cells', BITS, tag);
    }
  }

  // ---------- every put keeps the invariant ----------

  lemma PutKeepsIndices(cfg: Config, c: Cache, hist: seq<Rec>, can: Recycler, req: Request, now: nat, backendOk: bool)
    requires Inv(cfg, c, hist) && req.tenant < TENANTS
    ensures var c' := Put(cfg, c, can, req, now, backendOk).0;
            var hist' := Recorded(cfg, c, hist, can, req, now);
            IndexGood(cfg, c', c'.tiny, hist', false) && IndexGood(cfg, c', c'.long, hist', true)
  {
    PutKeepsShape(cfg, c, can, req, now, backendOk);
    PutIndex(cfg, c, can, req, now, backendOk);
    var c' := Put(cfg, c, can, req, now, backendOk).0;
    var r := RecOf(cfg, hist, req, now);
    if Reaches(cfg, c, can, req, now) {
      PublishedIs(cfg, c, c', hist, can, req, now);
      hide Put, Store, Reaches, SameCaps, IndexGood, Trie.Set, TagOf, PtrOf, Pack, Shape, ConfigOk, RegionsGood,
           HistGood, Covered;
      var long := HashLane(req.key);
      OtherLaneGood(cfg, c, c', if long then c.tiny else c.long, hist, r, !long);
      OwnLaneGood(cfg, c, c', if long then c.long else c.tiny, hist, r, long);
    } else {
      hide Put, Store, Reaches, SameCaps, Answers, Shape, ConfigOk, RegionsGood, HistGood, Covered, LatestTag,
           WellFormed;
      UnchangedIndexGood(cfg, c, c', c.tiny, hist, false);
      UnchangedIndexGood(cfg, c, c', c.long, hist, true);
    }
  }

  lemma UnchangedIndexGood(cfg: Config, c: Cache, c': Cache, cells: Cells, hist: seq<Rec>, long: bool)
    requires IndexGood(cfg, c, cells, hist, long) && SameCaps(c, c')
    ensures IndexGood(cfg, c', cells, hist, long)
  {
    assert Shaped(cells);
    hide Answers, LatestTag, WellFormed, SameCaps, Shaped;
    forall tag: Word | Live(tag)
      ensures Answers(c', cells, tag, LatestTag(cfg, hist, long, tag))
    {
      AnswersSame(c, c', cells, tag, LatestTag(cfg, hist, long, tag));
    }
  }

  /** The pointer a put publishes is the pointer of its record. */
  lemma PublishedIs(cfg: Config, c: Cache, c': Cache, hist: seq<Rec>, can: Recycler, req: Request, now: nat)
    requires ConfigOk(cfg) && Shape(cfg, c) && RegionsGood(c, hist) && req.tenant < TENANTS && SameCaps(c, c')
    requires Reaches(cfg, c, can, req, now)
    ensures var r := RecOf(cfg, hist, req, now);
            && r.class_ < |c'.regions| && r.tier < |c'.regions[r.class_]| && c'.regions[r.class_][r.tier].maxCount > 0
            && Pack(PublishedPtr(r.class_, r.tier, EntryOf(req, now), Store(cfg, c, can, req, now).1.value)) ==
               PtrOf(c', r)
  {
    RegionExists(cfg, c, req);
    var r := RecOf(cfg, hist, req, now);
    var log := LogOf(hist, r.class_, r.tier);
    assert RegionGood(c.regions[r.class_][r.tier], log);
    hide Store, Select, Mirrors, LogOf, OverQuota, Shape, ConfigOk, RegionFor, Pack;
    StoreMirrors(cfg, c, can, req, now, log);
  }

  lemma PutKeepsInv(cfg: Config, c: Cache, hist: seq<Rec>, can: Recycler, req: Request, now: nat, backendOk: bool)
    requires Inv(cfg, c, hist) && req.tenant < TENANTS && 0 < Expiry(now, req.ttl)
    ensures Inv(cfg, Put(cfg, c, can, req, now, backendOk).0, Recorded(cfg, c, hist, can, req, now))
  {
    PutKeepsShape(cfg, c, can, req, now, backendOk);
    PutKeepsRegions(cfg, c, hist, can, req, now, backendOk);
    PutKeepsHist(cfg, c, hist, can, req, now);
    PutKeepsIndices(cfg, c, hist, can, req, now, backendOk);
    PutBalancedIff(cfg, c, can, req, now, backendOk);
    hide Put, Recorded, Shape, RegionsGood, HistGood, IndexGood, Covered, SameCaps, ConfigOk, MovesTogether;
  }

  // ---------- a new cache ----------

  /** The memory is divided evenly over the regions, in whole slots. */
  function SlotShare(cfg: Config, memory: nat, stride: nat): nat
    requires |cfg.classes| > 0 && |cfg.tiers| > 0 && stride > 0
  {
    memory / (|cfg.classes| * |cfg.tiers|) / stride
  }

  function NewRegion(cfg: Config, memory: nat, i: nat): Slab
    requires ConfigOk(cfg) && i < |cfg.classes|
  {
    New(Stride(cfg.classes[i]), SlotShare(cfg, memory, Stride(cfg.classes[i])))
  }

  ghost function Initial(cfg: Config, memory: nat): Cache
    requires ConfigOk(cfg)
  {
    Cache(seq(|cfg.classes|, i requires 0 <= i < |cfg.classes| => seq(|cfg.tiers|, j => NewRegion(cfg, memory, i))),
          EmptyTrie(BITS), EmptyTrie(BITS), seq(TENANTS, t => 0), 0)
  }

  lemma NewUsage(stride: nat, maxSlots: nat, t: nat)
    requires HEADER <= stride
    ensures Usage(New(stride, maxSlots).cells, t) == 0
  {
    hide Usage;
    UsageOfBlank(New(stride, maxSlots).cells, t);
  }

  lemma NewRegionGood(cfg: Config, memory: nat, i: nat)
    requires ConfigOk(cfg) && i < |cfg.classes|
    ensures RegionGood(NewRegion(cfg, memory, i), [])
    ensures forall t :: Usage(NewRegion(cfg, memory, i).cells, t) == 0
  {
    hide Usage, SlotShare, Stride, Ok, Mirrors;
    var stride := Stride(cfg.classes[i]);
    var m := SlotShare(cfg, memory, stride);
    NewMirrors(stride, m);
    forall t: nat
      ensures Usage(New(stride, m).cells, t) == 0
    {
      NewUsage(stride, m, t);
    }
  }

  lemma ConfigSome(cfg: Config)
    requires ConfigOk(cfg)
    ensures cfg.classes != [] && cfg.tiers != []
  {}

  lemma {:induction false} SumOfZeros(s: seq<nat>)
    requires forall t :: 0 <= t < |s| ==> s[t] == 0
    ensures Sum(s) == 0
  {
    if s != [] {
      SumOfZeros(s[..|s| - 1]);
    }
  }

  lemma {:induction false} RowOfZeros(row: seq<Slab>, t: nat)
    requires forall j :: 0 <= j < |row| ==> Usage(row[j].cells, t) == 0
    ensures RowUsage(row, t) == 0
  {
    hide Usage;
    if row != [] {
      RowOfZeros(row[..|row| - 1], t);
    }
  }

  lemma {:induction false} TotalOfZeros(regions: seq<seq<Slab>>, t: nat)
    requires forall i :: 0 <= i < |regions| ==> RowUsage(regions[i], t) == 0
    ensures TotalUsage(regions, t) == 0
  {
    hide RowUsage;
    if regions != [] {
      TotalOfZeros(regions[..|regions| - 1], t);
    }
  }

  lemma NewSlabGood(stride: nat, maxSlots: nat)
    requires HEADER <= stride
    ensures SlabGood(New(stride, maxSlots))
  {}

  /** A new cache has the shape every operation relies on, whatever its classes, tiers and memory. */
  lemma InitialShape(cfg: Config, memory: nat)
    requires ConfigOk(cfg)
    ensures Shape(cfg, Initial(cfg, memory))
  {
    hide Ok, SlabGood, EmptyTrie, WellFormed, Unique, SlotShare, New;
    EmptyWellFormed(BITS);
    WellFormedShaped(EmptyTrie(BITS));
    forall i | 0 <= i < |cfg.classes|
      ensures SlabGood(NewRegion(cfg, memory, i))
    {
      NewSlabGood(Stride(cfg.classes[i]), SlotShare(cfg, memory, Stride(cfg.classes[i])));
    }
  }

  lemma InitialRegions(cfg: Config, memory: nat)
    requires ConfigOk(cfg)
    ensures RegionsGood(Initial(cfg, memory), [])
    ensures forall t: nat :: TotalUsage(Initial(cfg, memory).regions, t) == 0
  {
    hide NewRegion, Mirrors, Ok, Usage, RowUsage, TotalUsage, EmptyTrie;
    var c := Initial(cfg, memory);
    forall i | 0 <= i < |cfg.classes|
      ensures RegionGood(NewRegion(cfg, memory, i), [])
    {
      NewRegionGood(cfg, memory, i);
    }
    forall t: nat
      ensures TotalUsage(c.regions, t) == 0
    {
      forall i | 0 <= i < |c.regions|
        ensures RowUsage(c.regions[i], t) == 0
      {
        NewRegionGood(cfg, memory, i);
        RowOfZeros(c.regions[i], t);
      }
      TotalOfZeros(c.regions, t);
    }
  }

  lemma InitialInv(cfg: Config, memory: nat)
    requires ConfigOk(cfg)
    ensures Inv(cfg, Initial(cfg, memory), []) && Balanced(Initial(cfg, memory))
  {
    hide NewRegion, Usage, RowUsage, TotalUsage, EmptyTrie, WellFormed, Unique, ConfigOk, Lookup, Live, RegionsGood,
         Shape, Sum;
    InitialRegions(cfg, memory);
    InitialShape(cfg, memory);
    var c := Initial(cfg, memory);
    EmptyWellFormed(BITS);
    WellFormedShaped(EmptyTrie(BITS));
    SumOfZeros(c.usage);
    forall tag: Word | Live(tag)
      ensures Lookup(EmptyTrie(BITS), BITS, tag) == None
    {
      EmptyLookup(BITS, tag);
    }
  }

  // ---------- what Get returns ----------

  /** No other key's put shares this key's lane and tag. */
  ghost predicate NoCollision(cfg: Config, hist: seq<Rec>, tenant: nat, key: seq<byte>)
    requires TenantsOk(hist) && tenant < TENANTS
  {
    forall m :: 0 <= m < |hist| && HashLane(hist[m].key) == HashLane(key) ==>
      TagOf(cfg, hist[m].tenant, hist[m].key) == TagOf(cfg, tenant, key) ==>
        hist[m].tenant == tenant && hist[m].key == key
  }

  /** Short keys never collide. */
  lemma TinyNeverCollides(cfg: Config, hist: seq<Rec>, tenant: nat, key: seq<byte>)
    requires TenantsOk(hist) && tenant < TENANTS && !HashLane(key)
    ensures NoCollision(cfg, hist, tenant, key)
  {
    hide TinyTag, Live;
    forall m | 0 <= m < |hist| && !HashLane(hist[m].key) {
      TinyTagInjective(hist[m].tenant, hist[m].key, tenant, key);
    }
  }

  lemma {:induction false} LatestTagIsPut(cfg: Config, hist: seq<Rec>, tenant: nat, key: seq<byte>)
    requires TenantsOk(hist) && tenant < TENANTS && NoCollision(cfg, hist, tenant, key)
    ensures LatestTag(cfg, hist, HashLane(key), TagOf(cfg, tenant, key)) == LatestPut(hist, tenant, key)
    ensures var r := LatestPut(hist, tenant, key);
            r.Some? ==> r.value in hist && r.value.tenant == tenant && r.value.key == key
  {
    hide TagOf;
    if hist != [] {
      LatestTagIsPut(cfg, hist[..|hist| - 1], tenant, key);
    }
  }

  /**
   What the pointer of write n finds in a region with this log, now: the latest write to the same
   slot, as far as the length field keeps it, if n's truncated expiry, the lap bits, that write's
   expiry and its key byte all pass.
   */
  ghost function SlotAnswer(log: seq<Slabs.Entry>, cap: nat, n: nat, now: nat): Option<seq<byte>>
    requires n < |log| && cap > 0
  {
    LatestIs(n, |log|, cap);
    var found := log[Latest(n, |log|, cap)];
    if TruncExpired(ExpTrunc(log[n].expiry), now) || LapsSince(n, |log|, cap) % 4 != 0
       || found.expiry < now || found.keyMid != log[n].keyMid then None
    else Some(Cut(found.value))
  }

  /** What a get must answer when the latest put of the key is known. */
  ghost predicate ReadsBack(cfg: Config, c: Cache, hist: seq<Rec>, r: Rec, now: nat, answer: Option<seq<byte>>)
    requires RecGood(cfg, hist, r)
    requires r.class_ < |c.regions| && r.tier < |c.regions[r.class_]| && c.regions[r.class_][r.tier].maxCount > 0
  {
    answer == if PathFull(Lane(c, r.key), BITS, TagOf(cfg, r.tenant, r.key)) then None
              else SlotAnswer(LogOf(hist, r.class_, r.tier), c.regions[r.class_][r.tier].maxCount, r.n, now)
  }

  lemma GoodPositive(s: Slab)
    requires SlabGood(s)
    ensures Ok(s) && s.stride > 0 && s.maxCount > 0
  {}

  /** The record's region and slot offset fit the pointer's two, two and 44 bits. */
  ghost predicate Addressed(c: Cache, r: Rec)
    requires r.class_ < |c.regions| && r.tier < |c.regions[r.class_]| && c.regions[r.class_][r.tier].maxCount > 0
  {
    r.class_ < 4 && r.tier < 4 && Pointer(c.regions[r.class_][r.tier], r.n).physOff < Q44
  }

  /** The slab read behind a record's pointer. */
  lemma ReadOfRecord(s: Slab, log: seq<Slabs.Entry>, n: nat, now: nat)
    requires RegionGood(s, log) && n < |log|
    ensures s.maxCount > 0 && Pointer(s, n).physOff % s.stride == 0
    ensures Read(s, Pointer(s, n).physOff, Pointer(s, n).gen % 4, ExpTrunc(log[n].expiry), log[n].keyMid, now)
            == SlotAnswer(log, s.maxCount, n, now)
  {
    hide Mirrors, SlabGood, Ok, ExpTrunc, TruncExpired, Read, Pointer, Latest, LapsSince;
    GoodPositive(s);
    ReadOfWrite(s, log, n, ExpTrunc(log[n].expiry), log[n].keyMid, now);
  }

  /** Following a published pointer is the slab read of that record. */
  lemma ReadViaPointer(cfg: Config, c: Cache, hist: seq<Rec>, r: Rec, now: nat)
    requires Shape(cfg, c) && RegionsGood(c, hist) && RecGood(cfg, hist, r)
    requires c.regions[r.class_][r.tier].maxCount > 0 && Addressed(c, r)
    ensures ReadVia(cfg, c, PtrOf(c, r), r.key, now)
            == SlotAnswer(LogOf(hist, r.class_, r.tier), c.regions[r.class_][r.tier].maxCount, r.n, now)
  {
    hide Pack, Unpack, TypeOf, ExpTrunc, SlotAnswer, Read, Pointer, LogOf, RegionGood, SlabGood, Trie.Shaped, ReadAt;
    var s := c.regions[r.class_][r.tier];
    var log := LogOf(hist, r.class_, r.tier);
    var p := PublishedPtr(r.class_, r.tier, RecEntry(r), Pointer(s, r.n));
    PackUnpack(p);
    ReadAtRecord(cfg, c, r, log, now);
  }

  lemma ReadAtRecord(cfg: Config, c: Cache, r: Rec, log: seq<Slabs.Entry>, now: nat)
    requires Shape(cfg, c) && r.class_ < |c.regions| && r.tier < |c.regions[r.class_]|
             && c.regions[r.class_][r.tier].maxCount > 0
    requires RegionGood(c.regions[r.class_][r.tier], log) && r.n < |log| && log[r.n] == RecEntry(r)
    ensures var s := c.regions[r.class_][r.tier];
            ReadAt(cfg, c, SLAB_RAM, PublishedPtr(r.class_, r.tier, RecEntry(r), Pointer(s, r.n)), r.key, now)
            == SlotAnswer(log, s.maxCount, r.n, now)
  {
    hide ExpTrunc, SlotAnswer, Read, Pointer, RegionGood, SlabGood, Shape;
    ReadOfRecord(c.regions[r.class_][r.tier], log, r.n, now);
  }

  /** Get answers exactly what the pointer of the key's latest put finds. */
  ghost predicate AnswersLatest(cfg: Config, c: Cache, hist: seq<Rec>, tenant: nat, key: seq<byte>, now: nat)
    requires Shape(cfg, c) && tenant < TENANTS
  {
    match LatestPut(hist, tenant, key)
    case None => Get(cfg, c, tenant, key, now) == None
    case Some(r) =>
      && r.tenant == tenant && r.key == key && RecGood(cfg, hist, r)
      && r.class_ < |c.regions| && r.tier < |c.regions[r.class_]| && c.regions[r.class_][r.tier].maxCount > 0
      && (Addressed(c, r) ==> ReadsBack(cfg, c, hist, r, now, Get(cfg, c, tenant, key, now)))
  }

  /**
   The cache read: for a key whose tag is its own, what Get answers is settled by the log of the
   region of the key's latest put, however many laps that region has made since.
   */
  lemma GetIsLatestPut(cfg: Config, c: Cache, hist: seq<Rec>, tenant: nat, key: seq<byte>, now: nat)
    requires Inv(cfg, c, hist) && tenant < TENANTS && NoCollision(cfg, hist, tenant, key)
    ensures AnswersLatest(cfg, c, hist, tenant, key, now)
  {
    hide TagOf, PtrOf, LogOf, RegionsGood, Covered, WellFormed, PathFull, LatestTag, LatestPut, Live,
         SlotAnswer, Lookup, RecGood, ReadVia;
    LatestTagIsPut(cfg, hist, tenant, key);
    TagLive(cfg, tenant, key);
    LaneAnswers(cfg, c, hist, tenant, key);
    var r := LatestPut(hist, tenant, key);
    if r.Some? {
      assert RecGood(cfg, hist, r.value);
      RecInRange(cfg, c, hist, r.value);
      if !PathFull(Lane(c, key), BITS, TagOf(cfg, tenant, key)) && Addressed(c, r.value) {
        ReadViaPointer(cfg, c, hist, r.value, now);
      }
    }
  }

  /**
   A put's own bytes are read back exactly until its slot is written again; from then on the
   answer is a miss, or else the bytes of the later write a multiple of four laps on.
   */
  lemma OwnOrForeign(log: seq<Slabs.Entry>, cap: nat, n: nat, now: nat)
    requires n < |log| && cap > 0
    ensures |log| <= n + cap ==>
              SlotAnswer(log, cap, n, now) ==
              if TruncExpired(ExpTrunc(log[n].expiry), now) || log[n].expiry < now then None
              else Some(Cut(log[n].value))
    ensures n + cap < |log| <= n + 4 * cap ==> SlotAnswer(log, cap, n, now) == None
    ensures n + cap < |log| && SlotAnswer(log, cap, n, now).Some? ==>
              exists j :: 4 <= j && j % 4 == 0 && n + j * cap < |log| <= n + j * cap + cap
                          && SlotAnswer(log, cap, n, now) == Some(Cut(log[n + j * cap].value))
  {
    hide TruncExpired, ExpTrunc, Latest;
    var j := LapsSince(n, |log|, cap);
    DivBounds(|log| - 1 - n, cap);
    LapCount(n, |log|, cap, j);
    if |log| <= n + cap {
      NotLapped(n, |log|, cap);
    } else {
      if j < 1 {
        MulGrows(j, 0, cap);
      }
      if |log| <= n + 4 * cap && j >= 4 {
        MulGrows(4, j, cap);
      }
      assert n + j * cap < |log| <= n + j * cap + cap;
    }
  }

  /**
   When a get answers bytes that are not the latest put's own: exactly when the index still has
   the key, its truncated expiry passes, its region has since made a positive multiple of four
   laps, and the entry now in the slot is alive, has the key's middle byte and other bytes.
   */
  lemma ForeignReadIff(cfg: Config, c: Cache, hist: seq<Rec>, tenant: nat, key: seq<byte>, now: nat)
    requires Inv(cfg, c, hist) && tenant < TENANTS && NoCollision(cfg, hist, tenant, key)
    requires LatestPut(hist, tenant, key).Some?
    ensures var r := LatestPut(hist, tenant, key).value;
            && RecGood(cfg, hist, r) && r.class_ < |c.regions| && r.tier < |c.regions[r.class_]|
            && var log := LogOf(hist, r.class_, r.tier);
               var cap := c.regions[r.class_][r.tier].maxCount;
               && cap > 0
               && var l := Latest(r.n, |log|, cap);
                  && l < |log|
                  && var answer := Get(cfg, c, tenant, key, now);
                     Addressed(c, r) ==>
                       ((answer.Some? && answer.value != Cut(r.value)) <==>
                         && !PathFull(Lane(c, key), BITS, TagOf(cfg, tenant, key))
                         && !TruncExpired(ExpTrunc(r.expiry), now) && LapsSince(r.n, |log|, cap) % 4 == 0
                         && r.n + 4 * cap < |log| && log[l].expiry >= now && log[l].keyMid == KeyMid(key)
                         && Cut(log[l].value) != Cut(r.value))
  {
    hide TruncExpired, ExpTrunc, Latest, Inv, PathFull, LogOf, LatestPut, TagOf, Get, Shape, LapsSince, NoCollision,
         Cut, Addressed;
    InvShape(cfg, c, hist);
    GetIsLatestPut(cfg, c, hist, tenant, key, now);
    var r := LatestPut(hist, tenant, key).value;
    var log := LogOf(hist, r.class_, r.tier);
    var cap := c.regions[r.class_][r.tier].maxCount;
    LatestIs(r.n, |log|, cap);
    OwnOrForeign(log, cap, r.n, now);
    if |log| <= r.n + cap {
      NotLapped(r.n, |log|, cap);
    }
  }

  lemma InvShape(cfg: Config, c: Cache, hist: seq<Rec>)
    requires Inv(cfg, c, hist)
    ensures Shape(cfg, c) && TenantsOk(hist)
  {}

  lemma RecInRange(cfg: Config, c: Cache, hist: seq<Rec>, r: Rec)
    requires ConfigOk(cfg) && Shape(cfg, c) && RecGood(cfg, hist, r)
    ensures r.tenant < TENANTS && r.class_ < |c.regions| && r.tier < |c.regions[r.class_]|
    ensures c.regions[r.class_][r.tier].maxCount > 0 && r.n < |LogOf(hist, r.class_, r.tier)|
  {
    hide LogOf, SlabGood;
    GoodPositive(c.regions[r.class_][r.tier]);
  }

  lemma LaneAnswers(cfg: Config, c: Cache, hist: seq<Rec>, tenant: nat, key: seq<byte>)
    requires Inv(cfg, c, hist) && tenant < TENANTS
    ensures TenantsOk(hist) && Shaped(Lane(c, key))
    ensures Answers(c, Lane(c, key), TagOf(cfg, tenant, key),
                    LatestTag(cfg, hist, HashLane(key), TagOf(cfg, tenant, key)))
  {
    hide TagOf, Answers, WellFormed, LatestTag, RegionsGood, HistGood, Covered, Shaped, Live;
    TagLive(cfg, tenant, key);
    WellFormedShaped(Lane(c, key));
  }

  // ---------- runs ----------

  /** One Put or Update call: its arguments, the clock, the recycling oracle and the backend's verdict. */
  datatype Call = Call(req: Request, now: nat, can: Recycler, backendOk: bool)

  ghost predicate CallOk(call: Call) {
    call.req.tenant < TENANTS && 0 < Expiry(call.now, call.req.ttl)
  }

  ghost predicate CallsOk(calls: seq<Call>) {
    forall k :: 0 <= k < |calls| ==> CallOk(calls[k])
  }

  ghost function AfterCall(cfg: Config, c: Cache, hist: seq<Rec>, call: Call): (Cache, seq<Rec>)
    requires ConfigOk(cfg) && Shape(cfg, c) && CallOk(call)
  {
    (Put(cfg, c, call.can, call.req, call.now, call.backendOk).0, Recorded(cfg, c, hist, call.can, call.req, call.now))
  }

  lemma CallKeepsInv(cfg: Config, c: Cache, hist: seq<Rec>, call: Call)
    requires Inv(cfg, c, hist) && CallOk(call)
    ensures Inv(cfg, AfterCall(cfg, c, hist, call).0, AfterCall(cfg, c, hist, call).1)
  {
    hide Inv, Put, Recorded;
    PutKeepsInv(cfg, c, hist, call.can, call.req, call.now, call.backendOk);
  }

  /** State and history after a run of calls on a new cache; gets change neither. */
  ghost function Run(cfg: Config, memory: nat, calls: seq<Call>): (ch: (Cache, seq<Rec>))
    requires ConfigOk(cfg) && CallsOk(calls)
    ensures Inv(cfg, ch.0, ch.1)
  {
    if calls == [] then
      InitialInv(cfg, memory);
      (Initial(cfg, memory), [])
    else
      var (c, hist) := Run(cfg, memory, calls[..|calls| - 1]);
      CallKeepsInv(cfg, c, hist, calls[|calls| - 1]);
      AfterCall(cfg, c, hist, calls[|calls| - 1])
  }

  /**
   Over every run: a get of a short key, or of a long key whose tag is its own, answers exactly
   what the pointer of the latest put that reached a slot finds there.
   */
  lemma RunsReadLatestPut(cfg: Config, memory: nat, calls: seq<Call>, tenant: nat, key: seq<byte>, now: nat)
    requires ConfigOk(cfg) && CallsOk(calls) && tenant < TENANTS
    ensures var (c, hist) := Run(cfg, memory, calls);
            !HashLane(key) || NoCollision(cfg, hist, tenant, key) ==> AnswersLatest(cfg, c, hist, tenant, key, now)
  {
    hide Run, AnswersLatest, NoCollision, Shape, ConfigOk, RegionsGood, HistGood, Covered, WellFormed,
         Answers, LatestTag;
    var (c, hist) := Run(cfg, memory, calls);
    if !HashLane(key) {
      TinyNeverCollides(cfg, hist, tenant, key);
    }
    if NoCollision(cfg, hist, tenant, key) {
      GetIsLatestPut(cfg, c, hist, tenant, key, now);
    }
  }

  /** Calls that stay out of the slots, or whose length and evicted size are not cut. */
  ghost predicate CallTogether(cfg: Config, c: Cache, call: Call)
    requires ConfigOk(cfg) && Shape(cfg, c) && CallOk(call)
  {
    MovesTogether(cfg, c, call.can, call.req, call.now)
  }

  ghost predicate AllTogether(cfg: Config, memory: nat, calls: seq<Call>)
    requires ConfigOk(cfg) && CallsOk(calls)
  {
    forall k :: 0 <= k < |calls| ==> CallTogether(cfg, Run(cfg, memory, calls[..k]).0, calls[k])
  }

  /**
   Over every run: no counter is below the bytes its tenant occupies or over the limit, the
   global one is their sum, and all are exact if and only if no call was cut.
   */
  lemma {:induction false} RunsBalanceIff(cfg: Config, memory: nat, calls: seq<Call>)
    requires ConfigOk(cfg) && CallsOk(calls)
    ensures var c := Run(cfg, memory, calls).0;
            && |c.usage| == TENANTS && Covered(cfg, c)
            && (Balanced(c) <==> AllTogether(cfg, memory, calls))
  {
    hide Covered, Balanced, Shape, ConfigOk, RegionsGood, HistGood, IndexGood, CallTogether, Run, AllTogether;
    UsageWidth(cfg, Run(cfg, memory, calls).0);
    if calls == [] {
      NewIsBalanced(cfg, memory);
    } else {
      var front, last := calls[..|calls| - 1], calls[|calls| - 1];
      RunsBalanceIff(cfg, memory, front);
      LastTogether(cfg, memory, calls);
      LastBalances(cfg, memory, front, last, calls);
    }
  }

  lemma NewIsBalanced(cfg: Config, memory: nat)
    requires ConfigOk(cfg)
    ensures var c := Run(cfg, memory, []).0; |c.usage| == TENANTS && Balanced(c) && AllTogether(cfg, memory, [])
  {
    hide Inv, Balanced, Initial;
    InitialInv(cfg, memory);
    InvShape(cfg, Initial(cfg, memory), []);
    UsageWidth(cfg, Initial(cfg, memory));
  }

  lemma LastBalances(cfg: Config, memory: nat, front: seq<Call>, last: Call, calls: seq<Call>)
    requires ConfigOk(cfg) && CallsOk(calls) && CallsOk(front) && CallOk(last) && calls == front + [last]
    ensures var c, c' := Run(cfg, memory, front).0, Run(cfg, memory, calls).0;
            && |c.usage| == TENANTS && |c'.usage| == TENANTS
            && (Balanced(c') <==> Balanced(c) && CallTogether(cfg, c, last))
  {
    hide Covered, Balanced, Shape, ConfigOk, RegionsGood, HistGood, IndexGood, Put, MovesTogether;
    assert calls[..|calls| - 1] == front;
    var c := Run(cfg, memory, front).0;
    UsageWidth(cfg, c);
    PutBalancedIff(cfg, c, last.can, last.req, last.now, last.backendOk);
  }

  lemma LastTogether(cfg: Config, memory: nat, calls: seq<Call>)
    requires ConfigOk(cfg) && CallsOk(calls) && calls != []
    ensures var front, last := calls[..|calls| - 1], calls[|calls| - 1];
            AllTogether(cfg, memory, calls) <==>
            AllTogether(cfg, memory, front) && CallTogether(cfg, Run(cfg, memory, front).0, last)
  {
    hide Run, CallTogether, Shape, Inv;
    var front := calls[..|calls| - 1];
    assert forall k :: 0 <= k < |front| ==> front[..k] == calls[..k];
    assert calls[..|calls| - 1] == front;
  }

  lemma UsageWidth(cfg: Config, c: Cache)
    requires Shape(cfg, c)
    ensures |c.usage| == TENANTS
  {}

  // ---------- runs of short values ----------

  ghost predicate ShortSlab(s: Slab) {
    forall k :: 0 <= k < |s.cells| ==> HEADER + s.cells[k].h.valueLen < 0x1_0000
  }

  ghost predicate ShortSlots(c: Cache) {
    forall i, j :: 0 <= i < |c.regions| && 0 <= j < |c.regions[i]| ==> ShortSlab(c.regions[i][j])
  }

  /** A write of a short value keeps slots short, and so is what it evicts. */
  lemma WriteShort(s: Slab, e: Slabs.Entry, can: Recycler)
    requires Ok(s) && ShortSlab(s) && HEADER + |e.value| < 0x1_0000
    ensures var (s', r) := Write(s, e, can);
            && ShortSlab(s')
            && (r.Some? && r.value.evicted.Some? ==> HEADER + r.value.evicted.value.valueLen < 0x1_0000)
  {
    MakeRoomOk(s);
    var g := MakeRoom(s);
    assert forall k :: 0 <= k < |g.cells| ==> HEADER + g.cells[k].h.valueLen < 0x1_0000;
    hide MakeRoom, NextSlot, MayClaim, Ok;
  }

  lemma BackPtrShort(s: Slab, physOff: nat, sp: Word)
    requires s.stride > 0 && ShortSlab(s)
    ensures ShortSlab(WithBackPtr(s, physOff, sp))
  {}

  lemma StoreShort(cfg: Config, c: Cache, can: Recycler, req: Request, now: nat)
    requires ConfigOk(cfg) && Shape(cfg, c) && req.tenant < TENANTS && ShortSlots(c) && HEADER + |req.value| < 0x1_0000
    ensures ShortSlab(Store(cfg, c, can, req, now).0) && MovesTogether(cfg, c, can, req, now)
  {
    hide Write, TagOf, TagRef, WithBackPtr, Ok, OverQuota;
    RegionExists(cfg, c, req);
    var s, e := RegionFor(cfg, c, req), EntryOf(req, now);
    WriteShort(s, e, can);
    WriteOk(s, e, can);
    var (s', r) := Write(s, e, can);
    GoodPositive(s);
    WriteCaps(s, e, can);
    if r.Some? {
      var tag := TagOf(cfg, req.tenant, req.key);
      BackPtrShort(s', r.value.physOff, TagRef(HashLane(req.key), tag % 0x100, tag));
    }
  }

  lemma PutShort(cfg: Config, c: Cache, can: Recycler, req: Request, now: nat, backendOk: bool)
    requires ConfigOk(cfg) && Shape(cfg, c) && req.tenant < TENANTS && ShortSlots(c) && HEADER + |req.value| < 0x1_0000
    ensures ShortSlots(Put(cfg, c, can, req, now, backendOk).0)
  {
    hide Put, Store, Select, SlabGood, OverQuota, ShortSlab, MovesTogether;
    PutRegions(cfg, c, can, req, now, backendOk);
    RegionExists(cfg, c, req);
    StoreShort(cfg, c, can, req, now);
  }

  ghost predicate ShortCalls(calls: seq<Call>) {
    forall k :: 0 <= k < |calls| ==> HEADER + |calls[k].req.value| < 0x1_0000
  }

  lemma {:induction false} RunStaysShort(cfg: Config, memory: nat, calls: seq<Call>)
    requires ConfigOk(cfg) && CallsOk(calls) && ShortCalls(calls)
    ensures ShortSlots(Run(cfg, memory, calls).0)
  {
    hide Inv, Put, Shape, ConfigOk, ShortSlots, NewRegion;
    if calls == [] {
      InitialShort(cfg, memory);
    } else {
      var front, last := calls[..|calls| - 1], calls[|calls| - 1];
      RunStaysShort(cfg, memory, front);
      var (c, hist) := Run(cfg, memory, front);
      InvShape(cfg, c, hist);
      PutShort(cfg, c, last.can, last.req, last.now, last.backendOk);
    }
  }

  lemma InitialShort(cfg: Config, memory: nat)
    requires ConfigOk(cfg)
    ensures ShortSlots(Initial(cfg, memory))
  {
    hide SlotShare, EmptyTrie;
  }

  /**
   Over every run of values that fit 16 bits with their header: every counter is exactly the sum
   over the tenant's occupied slots.
   */
  lemma RunsBalance(cfg: Config, memory: nat, calls: seq<Call>, t: nat)
    requires ConfigOk(cfg) && CallsOk(calls) && ShortCalls(calls) && t < TENANTS
    ensures var c := Run(cfg, memory, calls).0;
            && |c.usage| == TENANTS && c.usage[t] == TotalUsage(c.regions, t) && c.used == Sum(c.usage)
            && (cfg.limit > 0 ==> c.usage[t] <= cfg.limit)
  {
    hide Run, TotalUsage, Sum, Shape, ConfigOk, RegionsGood, HistGood, IndexGood, MovesTogether;
    forall k | 0 <= k < |calls|
      ensures CallTogether(cfg, Run(cfg, memory, calls[..k]).0, calls[k])
    {
      RunStaysShort(cfg, memory, calls[..k]);
      StoreShort(cfg, Run(cfg, memory, calls[..k]).0, calls[k].can, calls[k].req, calls[k].now);
    }
    RunsBalanceIff(cfg, memory, calls);
  }

  // ---------- when every pointer fits ----------

  lemma OffsetFits(n: nat, m: nat, stride: nat)
    requires m > 0 && stride > 0
    ensures n % m * stride < m * stride
  {
    MulGrows(n % m + 1, m, stride);
  }


  lemma SameCapsTrans(a: Cache, b: Cache, c: Cache)
    requires SameCaps(a, b) && SameCaps(b, c)
    ensures SameCaps(a, c)
  {}

  /** A run never changes a region's capacity or stride. */
  lemma {:induction false} RunSameCaps(cfg: Config, memory: nat, calls: seq<Call>)
    requires ConfigOk(cfg) && CallsOk(calls)
    ensures SameCaps(Initial(cfg, memory), Run(cfg, memory, calls).0)
  {
    hide Inv, Put, Shape, ConfigOk, SameCaps, NewRegion;
    if calls == [] {
      SameCapsSelf(Initial(cfg, memory));
    } else {
      var front, last := calls[..|calls| - 1], calls[|calls| - 1];
      RunSameCaps(cfg, memory, front);
      var (c, hist) := Run(cfg, memory, front);
      InvShape(cfg, c, hist);
      PutKeepsShape(cfg, c, last.can, last.req, last.now, last.backendOk);
      SameCapsTrans(Initial(cfg, memory), c, Run(cfg, memory, calls).0);
    }
  }

  lemma SameCapsSelf(c: Cache)
    ensures SameCaps(c, c)
  {}

  lemma DivMul(a: nat, m: nat)
    requires m > 0
    ensures a / m * m <= a
  {}

  lemma DivSmaller(a: nat, m: nat)
    requires m > 0
    ensures a / m <= a
  {
    DivMul(a, m);
    if a / m > a {
      MulGrows(1, m, a / m);
    }
  }

  lemma ShareFits(cfg: Config, memory: nat, stride: nat)
    requires |cfg.classes| > 0 && |cfg.tiers| > 0 && stride > 0
    ensures SlotShare(cfg, memory, stride) * stride <= memory
  {
    DivSmaller(memory, |cfg.classes| * |cfg.tiers|);
    DivMul(memory / (|cfg.classes| * |cfg.tiers|), stride);
  }

  lemma NewFits(stride: nat, maxSlots: nat)
    requires HEADER <= stride && maxSlots * stride <= Q44 && INITIAL_SLOTS * stride <= Q44
    ensures New(stride, maxSlots).maxCount * stride <= Q44
  {
    DivMul(0x40_0000, stride);
  }

  /** At most four classes and tiers, and memory and the least regions within 2^44 bytes. */
  ghost predicate Addressable(cfg: Config, memory: nat) {
    && ConfigOk(cfg) && |cfg.classes| <= 4 && |cfg.tiers| <= 4 && memory <= Q44
    && forall i :: 0 <= i < |cfg.classes| ==> INITIAL_SLOTS * Stride(cfg.classes[i]) <= Q44
  }

  /** On such a configuration every put that reaches a slot is addressed, over every run. */
  lemma RunsAreAddressed(cfg: Config, memory: nat, calls: seq<Call>, m: nat)
    requires Addressable(cfg, memory) && CallsOk(calls)
    ensures var (c, hist) := Run(cfg, memory, calls);
            m < |hist| ==>
              && hist[m].class_ < |c.regions| && hist[m].tier < |c.regions[hist[m].class_]|
              && c.regions[hist[m].class_][hist[m].tier].maxCount > 0 && Addressed(c, hist[m])
  {
    hide Run, Shape, Stride, SlotShare, RegionsGood, IndexGood, Covered, LogOf;
    var (c, hist) := Run(cfg, memory, calls);
    if m < |hist| {
      var r := hist[m];
      assert RecGood(cfg, hist, r);
      RecInRange(cfg, c, hist, r);
      RunSameCaps(cfg, memory, calls);
      var stride := Stride(cfg.classes[r.class_]);
      var share := SlotShare(cfg, memory, stride);
      ShareFits(cfg, memory, stride);
      NewFits(stride, share);
      OffsetFits(r.n, New(stride, share).maxCount, stride);
    }
  }

  // ---------- runs with shrinks ----------

  datatype Step = PutStep(call: Call) | ShrinkStep(i: nat, j: nat, pct: nat, t: nat)

  ghost predicate StepOk(cfg: Config, step: Step) {
    match step
    case PutStep(call) => CallOk(call)
    case ShrinkStep(i, j, pct, t) => i < |cfg.classes| && j < |cfg.tiers|
  }

  /** A region halved when it may be, left alone otherwise. */
  function TryShrink(c: Cache, i: nat, j: nat, pct: nat, t: nat): Cache
    requires i < |c.regions| && j < |c.regions[i]|
  {
    var s := c.regions[i][j];
    if CanShrink(s, pct, t) then c.(regions := SetRegion(c.regions, i, j, Shrink(s))) else c
  }

  lemma ShrinkGood(s: Slab, pct: nat, t: nat)
    requires SlabGood(s) && CanShrink(s, pct, t)
    ensures SlabGood(Shrink(s))
  {
    var h := Shrink(s);
    assert forall k :: 0 <= k < |h.cells| ==> h.cells[k] == s.cells[k] && CellOk(s.cells[k], s.stride);
  }

  lemma ShrinkKeepsCover(cfg: Config, c: Cache, i: nat, j: nat, pct: nat, t: nat)
    requires ConfigOk(cfg) && Shape(cfg, c) && Covered(cfg, c) && i < |c.regions| && j < |c.regions[i]|
    ensures var c' := TryShrink(c, i, j, pct, t);
            Shape(cfg, c') && Covered(cfg, c')
  {
    hide TotalUsage, Sum, CanShrink, SlabGood, Shrink;
    var s := c.regions[i][j];
    if CanShrink(s, pct, t) {
      ShrinkGood(s, pct, t);
      ShrinkDomain(s, pct, t);
      ShrinkStride(s);
      forall tenant | 0 <= tenant < TENANTS
        ensures c.usage[tenant] >= TotalUsage(SetRegion(c.regions, i, j, Shrink(s)), tenant)
      {
        ShrinkUsage(s, tenant);
        TotalUsageUpdate(c.regions, i, j, Shrink(s), tenant);
      }
    }
  }

  lemma ShrinkStride(s: Slab)
    requires 2 <= s.maxCount <= |s.cells|
    ensures Shrink(s).stride == s.stride
  {}

  lemma ShrinkDomain(s: Slab, pct: nat, t: nat)
    requires CanShrink(s, pct, t)
    ensures 2 <= s.maxCount <= |s.cells|
  {}

  lemma RegionDims(cfg: Config, c: Cache, i: nat, j: nat)
    requires Shape(cfg, c) && i < |cfg.classes| && j < |cfg.tiers|
    ensures i < |c.regions| && j < |c.regions[i]|
  {}

  function ApplyStep(cfg: Config, c: Cache, step: Step): (c': Cache)
    requires ConfigOk(cfg) && Shape(cfg, c) && StepOk(cfg, step)
  {
    match step
    case PutStep(call) => Put(cfg, c, call.can, call.req, call.now, call.backendOk).0
    case ShrinkStep(i, j, pct, t) => RegionDims(cfg, c, i, j); TryShrink(c, i, j, pct, t)
  }

  lemma StepKeepsCover(cfg: Config, c: Cache, step: Step)
    requires ConfigOk(cfg) && Shape(cfg, c) && Covered(cfg, c) && StepOk(cfg, step)
    ensures var c' := ApplyStep(cfg, c, step);
            Shape(cfg, c') && Covered(cfg, c')
  {
    hide Put, TryShrink, Shape, Covered, ConfigOk;
    match step
    case PutStep(call) =>
      PutKeepsShape(cfg, c, call.can, call.req, call.now, call.backendOk);
      PutBalancedIff(cfg, c, call.can, call.req, call.now, call.backendOk);
    case ShrinkStep(i, j, pct, t) =>
      RegionDims(cfg, c, i, j);
      ShrinkKeepsCover(cfg, c, i, j, pct, t);
  }

  /** The state after a run of puts and shrinks. */
  ghost function RunSteps(cfg: Config, memory: nat, steps: seq<Step>): (c: Cache)
    requires ConfigOk(cfg) && forall k :: 0 <= k < |steps| ==> StepOk(cfg, steps[k])
    ensures ConfigOk(cfg) && Shape(cfg, c) && Covered(cfg, c)
  {
    if steps == [] then
      InitialInv(cfg, memory);
      Initial(cfg, memory)
    else
      var c := RunSteps(cfg, memory, steps[..|steps| - 1]);
      StepKeepsCover(cfg, c, steps[|steps| - 1]);
      ApplyStep(cfg, c, steps[|steps| - 1])
  }

  /**
   Over every run with shrinks: counters are at least the occupied bytes, still add up, stay
   within the limit, and no eviction underflows them.
   */
  lemma ShrinkingRunsCover(cfg: Config, memory: nat, steps: seq<Step>, next: Call, t: nat)
    requires ConfigOk(cfg) && (forall k :: 0 <= k < |steps| ==> StepOk(cfg, steps[k]))
    requires CallOk(next) && t < TENANTS
    ensures var c := RunSteps(cfg, memory, steps);
            && |c.usage| == TENANTS && c.usage[t] >= TotalUsage(c.regions, t) && c.used == Sum(c.usage)
            && (cfg.limit > 0 ==> c.usage[t] <= cfg.limit)
            && var r := Store(cfg, c, next.can, next.req, next.now).1;
               r.Some? ==> Evictable(c, r.value.evicted)
  {
    hide RunSteps, TotalUsage, Sum, Shape, ConfigOk, Store, Evictable;
    var c := RunSteps(cfg, memory, steps);
    UsageWidth(cfg, c);
    if Store(cfg, c, next.can, next.req, next.now).1.Some? {
      NoUnderflow(cfg, c, next.can, next.req, next.now);
    }
  }
}
