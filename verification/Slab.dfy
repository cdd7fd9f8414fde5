/**
 A slab region as a value: fixed-stride cells that are claimed one after the other, grow by
 doubling, then are reused in a circle, and may later be halved.
 */
module Slabs {
  import opened Machine

  const HEADER := 16
  const INITIAL_SLOTS := 64
  const GROW_PERCENT := 70
  const U32 := 0x1_0000_0000

  /** The fixed 16-byte prefix of a slot. */
  datatype Header = Header(expiry: nat, gen: nat, keyMid: byte, tenant: nat, valueLen: nat, backPtr: Word)

  /** One slot: its header and the stride - 16 bytes behind it. */
  datatype Cell = Cell(h: Header, data: seq<byte>)

  datatype Slab = Slab(stride: nat, cells: seq<Cell>, writeSlot: nat, maxCount: nat, minCount: nat)

  /** What the writer of a slot supplies. */
  datatype Entry = Entry(tenant: nat, keyMid: byte, value: seq<byte>, expiry: nat)

  /** What a successful write reports: where, in which lap, and whom it evicted. */
  datatype Receipt = Receipt(physOff: nat, gen: nat, evicted: Option<Header>)

  const NO_HEADER := Header(0, 0, 0, 0, 0, 0)

  function Zeros(n: nat): (z: seq<byte>)
    ensures |z| == n
  {
    seq(n, i => 0)
  }

  function BlankCell(stride: nat): Cell
    requires stride >= HEADER
  {
    Cell(NO_HEADER, Zeros(stride - HEADER))
  }

  function Stride(sizeClass: nat): (s: nat)
    ensures s % 8 == 0 && HEADER + sizeClass <= s < HEADER + sizeClass + 8
  {
    (HEADER + sizeClass + 7) / 8 * 8
  }

  ghost predicate CellOk(c: Cell, stride: nat) {
    HEADER + |c.data| == stride && c.h.valueLen <= |c.data|
  }

  /** A legal region: during growth the next slot is always free. */
  ghost predicate Ok(s: Slab) {
    && HEADER <= s.stride
    && 0 < |s.cells| <= s.maxCount
    && (|s.cells| < s.maxCount ==> s.writeSlot <= |s.cells| * GROW_PERCENT / 100)
    && (|s.cells| < s.maxCount ==> |s.cells| >= 4)
    && forall k :: 0 <= k < |s.cells| ==> CellOk(s.cells[k], s.stride)
  }

  function New(stride: nat, maxSlots: nat): Slab
    requires stride >= HEADER
  {
    var m := if maxSlots == 0 then 0x40_0000 / stride else maxSlots;
    Slab(stride, seq(INITIAL_SLOTS, i => BlankCell(stride)), 0, if m < INITIAL_SLOTS then INITIAL_SLOTS else m,
         INITIAL_SLOTS)
  }

  // ---------- growing and writing ----------

  /** The buffer doubled, capped at the maximum, with every cell kept in place. */
  function Grow(s: Slab): Slab
    requires s.stride >= HEADER && |s.cells| <= s.maxCount
  {
    var n := if 2 * |s.cells| > s.maxCount then s.maxCount else 2 * |s.cells|;
    s.(cells := s.cells + seq(n - |s.cells|, i => BlankCell(s.stride)))
  }

  /** Growth happens at 70 % of the current capacity, below the cap. */
  function MakeRoom(s: Slab): Slab
    requires s.stride >= HEADER && |s.cells| <= s.maxCount
  {
    if s.writeSlot >= |s.cells| * GROW_PERCENT / 100 && |s.cells| < s.maxCount then Grow(s) else s
  }

  /** The slot and the 8-bit lap number the next write gets: linear below the cap, circular at it. */
  function NextSlot(s: Slab): (nat, nat)
    requires s.maxCount > 0
  {
    if |s.cells| >= s.maxCount then (s.writeSlot % s.maxCount, (s.writeSlot / s.maxCount) % 0x100) else (s.writeSlot, 0)
  }

  function Fits(s: Slab, value: seq<byte>): bool {
    HEADER + |value| <= s.stride
  }

  function Expiry(now: nat, ttl: nat): nat {
    (now + ttl) % U32
  }

  /** What the 16-bit length field leaves of a value. */
  function Cut(value: seq<byte>): (v: seq<byte>)
    ensures v <= value && (v == value <==> |value| < 0x1_0000)
  {
    value[..|value| % 0x1_0000]
  }

  function Stored(c: Cell, e: Entry, gen: nat): Cell
    requires |e.value| <= |c.data|
  {
    Cell(Header(e.expiry, gen, e.keyMid, e.tenant, |e.value| % 0x1_0000, 0), e.value + c.data[|e.value|..])
  }

  /** Whether the slot's old occupant allows it to be reused. */
  predicate MayClaim(s: Slab, canRecycle: (Word, nat, nat) -> bool)
    requires Ok(s) && NextSlot(s).0 < |s.cells|
  {
    var (slot, gen) := NextSlot(s);
    var h := s.cells[slot].h;
    |s.cells| < s.maxCount || h.expiry == 0 || h.backPtr == 0 || canRecycle(h.backPtr, slot * s.stride, gen)
  }

  function Claim(s: Slab, e: Entry): (Slab, Receipt)
    requires Ok(s) && NextSlot(s).0 < |s.cells| && Fits(s, e.value)
  {
    var (slot, gen) := NextSlot(s);
    var c := s.cells[slot];
    (s.(cells := s.cells[slot := Stored(c, e, gen)], writeSlot := s.writeSlot + 1),
     Receipt(slot * s.stride, gen, if c.h.expiry > 0 then Some(c.h) else None))
  }

  lemma MakeRoomOk(s: Slab)
    requires Ok(s)
    ensures Ok(MakeRoom(s)) && NextSlot(MakeRoom(s)).0 < |MakeRoom(s).cells|
    ensures |MakeRoom(s).cells| < s.maxCount ==> s.writeSlot < |MakeRoom(s).cells| * GROW_PERCENT / 100
  {
  }

  /** Write: reject an oversized value, make room, ask whether the slot may be reused, claim it. */
  function Write(s: Slab, e: Entry, canRecycle: (Word, nat, nat) -> bool): (r: (Slab, Option<Receipt>))
    requires Ok(s)
  {
    if !Fits(s, e.value) then (s, None)
    else
      MakeRoomOk(s);
      var g := MakeRoom(s);
      if !MayClaim(g, canRecycle) then (g, None)
      else
        var (s', receipt) := Claim(g, e);
        (s', Some(receipt))
  }

  lemma WriteOk(s: Slab, e: Entry, canRecycle: (Word, nat, nat) -> bool)
    requires Ok(s)
    ensures Ok(Write(s, e, canRecycle).0)
  {
    MakeRoomOk(s);
    var g := MakeRoom(s);
    if Fits(s, e.value) && MayClaim(g, canRecycle) {
      var s' := Claim(g, e).0;
      forall k | 0 <= k < |s'.cells|
        ensures CellOk(s'.cells[k], s'.stride)
      {
        assert CellOk(g.cells[k], g.stride);
      }
    }
  }

  lemma WriteCaps(s: Slab, e: Entry, canRecycle: (Word, nat, nat) -> bool)
    requires Ok(s)
    ensures Write(s, e, canRecycle).0.maxCount == s.maxCount && Write(s, e, canRecycle).0.stride == s.stride
  {
    hide NextSlot, MayClaim, Stored;
  }

  lemma SmallDivMod(w: nat, m: nat)
    requires w < m
    ensures w % m == w && w / m == 0
  {}

  lemma NextSlotIs(s: Slab)
    requires Ok(s)
    ensures NextSlot(MakeRoom(s)) == (s.writeSlot % s.maxCount, (s.writeSlot / s.maxCount) % 0x100)
    ensures s.writeSlot % s.maxCount < |MakeRoom(s).cells|
  {
    MakeRoomOk(s);
    if |MakeRoom(s).cells| < s.maxCount {
      SmallDivMod(s.writeSlot, s.maxCount);
    }
  }

  /**
   The n-th accepted write always lands in slot n mod maxCount with lap number
   (n / maxCount) mod 256, inside the buffer, through all of growth and circulation,
   and touches no other slot.
   */
  lemma WriteLands(s: Slab, e: Entry, canRecycle: (Word, nat, nat) -> bool)
    requires Ok(s) && Write(s, e, canRecycle).1.Some?
    ensures var (s', r) := Write(s, e, canRecycle);
            var slot := s.writeSlot % s.maxCount;
            && slot < |s'.cells|
            && r.value.physOff == slot * s.stride
            && r.value.gen == (s.writeSlot / s.maxCount) % 0x100
            && s'.writeSlot == s.writeSlot + 1 && s'.maxCount == s.maxCount && s'.stride == s.stride
            && |e.value| <= |MakeRoom(s).cells[slot].data|
            && s'.cells == MakeRoom(s).cells[slot := Stored(MakeRoom(s).cells[slot], e, r.value.gen)]
  {
    MakeRoomOk(s);
    NextSlotIs(s);
    hide NextSlot, Stored;
    var g := MakeRoom(s);
    assert CellOk(g.cells[NextSlot(g).0], g.stride);
  }

  // ---------- reading ----------

  /** The 12-bit truncated expiry kept in pointers: 32-second units. */
  function ExpTrunc(t: nat): (r: nat)
    ensures r < 0x1000
  {
    (t / 32) % 0x1000
  }

  predicate TruncExpired(trunc: nat, now: nat) {
    trunc < ExpTrunc(now)
  }

  /** The checks on the slot itself: generation, expiry and key byte; a value never runs past its slot. */
  function ReadCell(c: Cell, gen2b: nat, keyMid: byte, now: nat): Option<seq<byte>>
    requires c.h.valueLen <= |c.data|
  {
    if c.h.gen % 4 != gen2b || c.h.expiry < now || c.h.keyMid != keyMid then None
    else Some(c.data[..c.h.valueLen])
  }

  /** Read: the truncated expiry, the bounds, then the slot. */
  function Read(s: Slab, physOff: nat, gen2b: nat, trunc: nat, keyMid: byte, now: nat): Option<seq<byte>>
    requires Ok(s) && physOff % s.stride == 0
  {
    var slot := physOff / s.stride;
    if TruncExpired(trunc, now) || slot >= |s.cells| then None
    else
      assert CellOk(s.cells[slot], s.stride);
      ReadCell(s.cells[slot], gen2b, keyMid, now)
  }

  // ---------- runs of writes ----------

  /** The cell holds entry e, written in lap g. */
  ghost predicate Carries(c: Cell, e: Entry, gen: nat) {
    && c.h.expiry == e.expiry && c.h.gen == gen && c.h.keyMid == e.keyMid && c.h.tenant == e.tenant
    && c.h.valueLen == |Cut(e.value)| && |e.value| <= |c.data| && c.data[..|e.value|] == e.value
  }

  /** The last maxCount accepted writes are all in place, and slots never written are blank. */
  ghost predicate Mirrors(s: Slab, log: seq<Entry>)
    requires s.maxCount > 0
  {
    && |log| == s.writeSlot
    && (forall n :: 0 <= n < |log| <= n + s.maxCount ==>
          n % s.maxCount < |s.cells| && Carries(s.cells[n % s.maxCount], log[n], (n / s.maxCount) % 0x100))
    && (forall k :: |log| <= k < |s.cells| ==> s.cells[k].h == NO_HEADER)
  }

  lemma NewMirrors(stride: nat, maxSlots: nat)
    requires HEADER <= stride
    ensures Ok(New(stride, maxSlots)) && Mirrors(New(stride, maxSlots), [])
  {}

  lemma ResiduesDiffer(n: nat, w: nat, m: nat)
    requires n < w < n + m
    ensures n % m != w % m
  {
    if n % m == w % m {
      var a, b := n / m, w / m;
      assert n == a * m + n % m && w == b * m + w % m;
      assert w - n == (b - a) * m;
      if b - a >= 1 {
        MulGrows(1, b - a, m);
      } else {
        MulGrows(b - a, 0, m);
      }
    }
  }

  lemma MakeRoomMirrors(s: Slab, log: seq<Entry>)
    requires Ok(s) && Mirrors(s, log)
    ensures Ok(MakeRoom(s)) && Mirrors(MakeRoom(s), log)
  {
    MakeRoomOk(s);
    hide Carries;
    var g := MakeRoom(s);
    assert forall k :: 0 <= k < |s.cells| ==> g.cells[k] == s.cells[k];
  }

  /** Every accepted write extends the log; a rejected one changes nothing that was written. */
  lemma WriteMirrors(s: Slab, log: seq<Entry>, e: Entry, canRecycle: (Word, nat, nat) -> bool)
    requires Ok(s) && Mirrors(s, log)
    ensures var (s', r) := Write(s, e, canRecycle);
            Ok(s') && s'.maxCount == s.maxCount && s'.stride == s.stride
                && Mirrors(s', if r.Some? then log + [e] else log)
  {
    WriteOk(s, e, canRecycle);
    MakeRoomMirrors(s, log);
    var (s', r) := Write(s, e, canRecycle);
    if r.Some? {
      WriteLands(s, e, canRecycle);
      ClaimMirrors(MakeRoom(s), s', log, e);
    }
  }

  lemma ClaimMirrors(g: Slab, s': Slab, log: seq<Entry>, e: Entry)
    requires Ok(g) && Mirrors(g, log)
    requires var slot := g.writeSlot % g.maxCount;
             && slot < |g.cells| && |e.value| <= |g.cells[slot].data|
             && s' == g.(cells := g.cells[slot := Stored(g.cells[slot], e, (g.writeSlot / g.maxCount) % 0x100)],
                         writeSlot := g.writeSlot + 1)
    ensures Mirrors(s', log + [e])
  {
    var w, m := g.writeSlot, g.maxCount;
    var log' := log + [e];
    assert CellOk(g.cells[w % m], g.stride);
    forall n | 0 <= n < |log'| <= n + m
      ensures n % m < |s'.cells| && Carries(s'.cells[n % m], log'[n], (n / m) % 0x100)
    {
      if n < w {
        ResiduesDiffer(n, w, m);
      }
    }
    forall k | w + 1 <= k < |s'.cells|
      ensures s'.cells[k].h == NO_HEADER
    {
      SmallDivMod(w, m);
    }
  }

  // ---------- what a pointer reads, for every write and every later state ----------

  /** The latest of w writes to go to the slot of write n. */
  ghost function Latest(n: nat, w: nat, m: nat): nat
    requires n < w && m > 0
  {
    n + (w - 1 - n) / m * m
  }

  lemma DivBounds(a: nat, m: nat)
    requires m > 0
    ensures a / m * m <= a < a / m * m + m
  {}

  lemma AddLaps(n: nat, j: nat, m: nat)
    requires m > 0
    ensures (n + j * m) % m == n % m && (n + j * m) / m == n / m + j
  {
    var q, r := n / m, n % m;
    assert n + j * m == (q + j) * m + r;
    DivModOf(q + j, r, m);
  }

  lemma LatestIs(n: nat, w: nat, m: nat)
    requires n < w && m > 0
    ensures var l := Latest(n, w, m);
            && n <= l < w <= l + m && l % m == n % m && l / m == n / m + (w - 1 - n) / m
  {
    DivBounds(w - 1 - n, m);
    AddLaps(n, (w - 1 - n) / m, m);
  }

  lemma Aligned(slot: nat, stride: nat)
    requires stride > 0
    ensures slot * stride % stride == 0 && slot * stride / stride == slot
  {
    DivModOf(slot, 0, stride);
  }

  /** What write n was told: its offset and lap number. */
  ghost function Pointer(s: Slab, n: nat): (r: Receipt)
    requires s.maxCount > 0
  {
    Receipt(n % s.maxCount * s.stride, (n / s.maxCount) % 0x100, None)
  }

  /** How many laps lie between write n and the latest of w writes to its slot. */
  ghost function LapsSince(n: nat, w: nat, m: nat): nat
    requires n < w && m > 0
  {
    (w - 1 - n) / m
  }

  /** A pointer to write n reads the latest write to that slot, if lap bits, expiry and key byte let it. */
  lemma ReadOfWrite(s: Slab, log: seq<Entry>, n: nat, trunc: nat, keyMid: byte, now: nat)
    requires Ok(s) && Mirrors(s, log) && n < |log|
    ensures Pointer(s, n).physOff % s.stride == 0
    ensures var l := Latest(n, |log|, s.maxCount);
            && l < |log|
            && Read(s, Pointer(s, n).physOff, Pointer(s, n).gen % 4, trunc, keyMid, now) ==
               if TruncExpired(trunc, now) || LapsSince(n, |log|, s.maxCount) % 4 != 0
                  || log[l].expiry < now || log[l].keyMid != keyMid then None
               else Some(Cut(log[l].value))
  {
    hide TruncExpired, Latest, Mirrors, Ok, Read, ReadCell, Carries, Pointer, LapsSince;
    OkPositive(s);
    var l := Latest(n, |log|, s.maxCount);
    var slot := SlotOfWrite(s, log, n);
    ReadAtSlot(s, slot, Pointer(s, n).gen % 4, trunc, keyMid, now);
    ReadCarried(s, log, n, slot, keyMid, now);
  }

  lemma OkPositive(s: Slab)
    requires Ok(s)
    ensures s.stride > 0 && s.maxCount > 0
  {}

  lemma SlotOfWrite(s: Slab, log: seq<Entry>, n: nat) returns (slot: nat)
    requires Ok(s) && Mirrors(s, log) && n < |log|
    ensures s.maxCount > 0 && slot < |s.cells| && Pointer(s, n).physOff == slot * s.stride
    ensures Latest(n, |log|, s.maxCount) < |log|
    ensures Carries(s.cells[slot], log[Latest(n, |log|, s.maxCount)],
                    (n / s.maxCount + LapsSince(n, |log|, s.maxCount)) % 0x100)
  {
    LatestIs(n, |log|, s.maxCount);
    LatestCarries(s, log, Latest(n, |log|, s.maxCount));
    slot := n % s.maxCount;
  }

  lemma ReadAtSlot(s: Slab, slot: nat, gen2b: nat, trunc: nat, keyMid: byte, now: nat)
    requires Ok(s) && slot < |s.cells|
    ensures slot * s.stride % s.stride == 0 && s.cells[slot].h.valueLen <= |s.cells[slot].data|
    ensures Read(s, slot * s.stride, gen2b, trunc, keyMid, now) ==
            if TruncExpired(trunc, now) then None else ReadCell(s.cells[slot], gen2b, keyMid, now)
  {
    hide TruncExpired, ReadCell;
    Aligned(slot, s.stride);
    assert CellOk(s.cells[slot], s.stride);
  }

  lemma ReadCarried(s: Slab, log: seq<Entry>, n: nat, slot: nat, keyMid: byte, now: nat)
    requires s.maxCount > 0 && slot < |s.cells| && n < |log| && Latest(n, |log|, s.maxCount) < |log|
    requires Carries(s.cells[slot], log[Latest(n, |log|, s.maxCount)],
                     (n / s.maxCount + LapsSince(n, |log|, s.maxCount)) % 0x100)
    ensures s.cells[slot].h.valueLen <= |s.cells[slot].data|
    ensures var e := log[Latest(n, |log|, s.maxCount)];
            ReadCell(s.cells[slot], Pointer(s, n).gen % 4, keyMid, now) ==
            if LapsSince(n, |log|, s.maxCount) % 4 != 0 || e.expiry < now || e.keyMid != keyMid then None
            else Some(Cut(e.value))
  {
    hide Latest, LapsSince;
    LapBits(n / s.maxCount, LapsSince(n, |log|, s.maxCount));
    var c, v := s.cells[slot], log[Latest(n, |log|, s.maxCount)].value;
    assert c.data[..c.h.valueLen] == c.data[..|v|][..c.h.valueLen];
  }

  lemma LatestCarries(s: Slab, log: seq<Entry>, l: nat)
    requires Ok(s) && Mirrors(s, log) && l < |log| <= l + s.maxCount
    ensures l % s.maxCount < |s.cells| && Carries(s.cells[l % s.maxCount], log[l], (l / s.maxCount) % 0x100)
  {}

  /** Two laps agree on their two pointer bits exactly when they are a multiple of four apart. */
  lemma LapBits(a: nat, j: nat)
    ensures (a + j) % 0x100 % 4 == a % 0x100 % 4 <==> j % 4 == 0
  {}

  /** Until write n + maxCount is accepted, the pointer reads exactly its value, unless the entry looks expired. */
  lemma ReadsBackUntilLapped(s: Slab, log: seq<Entry>, n: nat, now: nat)
    requires Ok(s) && Mirrors(s, log) && n < |log| <= n + s.maxCount
    ensures Pointer(s, n).physOff % s.stride == 0
    ensures Read(s, Pointer(s, n).physOff, Pointer(s, n).gen % 4, ExpTrunc(log[n].expiry), log[n].keyMid, now) ==
            if TruncExpired(ExpTrunc(log[n].expiry), now) || log[n].expiry < now then None else Some(Cut(log[n].value))
  {
    hide TruncExpired, ExpTrunc, Mirrors, Ok, Read, Pointer, Latest, LapsSince;
    OkPositive(s);
    ReadOfWrite(s, log, n, ExpTrunc(log[n].expiry), log[n].keyMid, now);
    NotLapped(n, |log|, s.maxCount);
  }

  lemma NotLapped(n: nat, w: nat, m: nat)
    requires n < w <= n + m
    ensures m > 0 && Latest(n, w, m) == n && LapsSince(n, w, m) == 0
  {
    SmallDivMod(w - 1 - n, m);
  }

  /** Counting laps: j whole laps lie between n and w - 1 exactly when w - 1 - n is in [j m, (j + 1) m). */
  lemma LapCount(n: nat, w: nat, m: nat, j: nat)
    requires m > 0 && n + j * m < w <= n + (j + 1) * m
    ensures LapsSince(n, w, m) == j && Latest(n, w, m) == n + j * m
  {
    var a := w - 1 - n;
    DivModOf(j, a - j * m, m);
  }

  /** A value of 2^16 bytes in a region made for such values: accepted, and read back empty. */
  lemma LongValueLost(canRecycle: (Word, nat, nat) -> bool)
    ensures var s := New(Stride(0x1_0000), 0);
            && Ok(s)
            && var (s', r) := Write(s, Entry(1, 0, Zeros(0x1_0000), 1), canRecycle);
               && r.Some? && Ok(s') && r.value.physOff % s'.stride == 0
               && Read(s', r.value.physOff, r.value.gen % 4, ExpTrunc(1), 0, 1) == Some([])
  {
    hide Write, Read, Mirrors, Ok, Latest, LapsSince, Zeros;
    var s, e := New(Stride(0x1_0000), 0), Entry(1, 0, Zeros(0x1_0000), 1);
    NewMirrors(Stride(0x1_0000), 0);
    FirstWrite(s, e, canRecycle);
    WriteMirrors(s, [], e, canRecycle);
    WriteLands(s, e, canRecycle);
    var s' := Write(s, e, canRecycle).0;
    assert [] + [e] == [e];
    ReadsBackUntilLapped(s', [e], 0, 1);
  }

  /** The first write of a new region needs no one's leave. */
  lemma FirstWrite(s: Slab, e: Entry, canRecycle: (Word, nat, nat) -> bool)
    requires Ok(s) && Mirrors(s, []) && HEADER + |e.value| <= s.stride
    ensures Write(s, e, canRecycle).1.Some?
  {
    MakeRoomMirrors(s, []);
    MakeRoomOk(s);
    hide MakeRoom;
  }

  /** For the three laps after that, the pointer is rejected on its lap bits whatever the slot holds. */
  lemma RejectedForThreeLaps(s: Slab, log: seq<Entry>, n: nat, trunc: nat, keyMid: byte, now: nat)
    requires Ok(s) && Mirrors(s, log) && n + s.maxCount < |log| <= n + 4 * s.maxCount
    ensures Pointer(s, n).physOff % s.stride == 0
    ensures Read(s, Pointer(s, n).physOff, Pointer(s, n).gen % 4, trunc, keyMid, now) == None
  {
    hide TruncExpired, Mirrors, Ok, Read, Pointer, Latest, LapsSince;
    OkPositive(s);
    ReadOfWrite(s, log, n, trunc, keyMid, now);
    var m := s.maxCount;
    LapCount(n, |log|, m, if |log| <= n + 2 * m then 1 else if |log| <= n + 3 * m then 2 else 3);
  }

  /** One lap later the bits agree again: a pointer four laps old reads the newer entry's bytes. */
  lemma ReadsForeignAfterFourLaps(s: Slab, log: seq<Entry>, n: nat, trunc: nat, keyMid: byte, now: nat)
    requires Ok(s) && Mirrors(s, log) && n + 4 * s.maxCount < |log| <= n + 5 * s.maxCount
    requires !TruncExpired(trunc, now)
    requires log[n + 4 * s.maxCount].expiry >= now && log[n + 4 * s.maxCount].keyMid == keyMid
    ensures Pointer(s, n).physOff % s.stride == 0
    ensures Read(s, Pointer(s, n).physOff, Pointer(s, n).gen % 4, trunc, keyMid, now)
            == Some(Cut(log[n + 4 * s.maxCount].value))
  {
    hide TruncExpired, Mirrors, Ok, Read, Pointer, Latest, LapsSince;
    OkPositive(s);
    ReadOfWrite(s, log, n, trunc, keyMid, now);
    LapCount(n, |log|, s.maxCount, 4);
  }

  /**
   The pre-check against an entry that is not yet expired, for every lifetime: it rejects the
   entry exactly when adding the units still to go, modulo 2^12, to the clock's own twelve bits
   carries out of them.
   */
  lemma TruncRejectsIffCarry(expiry: nat, now: nat)
    requires now <= expiry
    ensures TruncExpired(ExpTrunc(expiry), now) <==> ExpTrunc(now) + (expiry / 32 - now / 32) % 0x1000 >= 0x1000
  {}

  /**
   What a caller can tell before a put at time w: the pre-check spares the entry through its
   whole life exactly when no multiple of 2^17 seconds lies between w and the expiry, or the
   expiry falls into the last 32 seconds before one.
   */
  lemma TruncSparesIff(w: nat, expiry: nat)
    requires w <= expiry
    ensures (forall now :: w <= now <= expiry ==> !TruncExpired(ExpTrunc(expiry), now))
            <==> expiry / 0x2_0000 == w / 0x2_0000 || ExpTrunc(expiry) == 0xFFF
  {
    Epoch(expiry);
    Epoch(w);
    if expiry / 0x2_0000 == w / 0x2_0000 {
      forall now | w <= now <= expiry
        ensures !TruncExpired(ExpTrunc(expiry), now)
      {
        Epoch(now);
      }
    } else if ExpTrunc(expiry) != 0xFFF {
      var last := LastUnit(w, expiry);
      assert TruncExpired(ExpTrunc(expiry), last);
    }
  }

  /** The last second before the expiry's epoch; its truncated time is the largest there is. */
  lemma LastUnit(w: nat, expiry: nat) returns (last: nat)
    requires w <= expiry && expiry / 0x2_0000 != w / 0x2_0000
    ensures w <= last <= expiry && ExpTrunc(last) == 0xFFF
  {
    var epoch := expiry / 0x2_0000;
    last := 0x2_0000 * epoch - 1;
    assert last / 32 == 0x1000 * (epoch - 1) + 0xFFF;
    DivModOf(epoch - 1, 0xFFF, 0x1000);
  }

  /** The truncated expiry is what is left of the 32-second units above the epoch. */
  lemma Epoch(t: nat)
    ensures ExpTrunc(t) == t / 32 - 0x1000 * (t / 0x2_0000)
    ensures 32 * (t / 32) <= t < 32 * (t / 32) + 32
  {
    var units := t / 32;
    var epoch, part := units / 0x1000, units % 0x1000;
    DivModOf(epoch, 32 * part + t % 32, 0x2_0000);
  }

  /** An entry written at second 2^17 - 1 to live one second: the very same second the pre-check rejects it. */
  lemma TruncRejectsLiveEntry()
    ensures Expiry(0x1_FFFF, 1) == 0x2_0000
    ensures TruncExpired(ExpTrunc(0x2_0000), 0x1_FFFF)
  {}

  // ---------- growing and shrinking are invisible to readers ----------

  /** A slot that is blank or expired reads as nothing, now and later. */
  lemma DeadCellReadsNone(c: Cell, gen2b: nat, keyMid: byte, t: nat, now: nat)
    requires c.h.valueLen <= |c.data| && (c.h.expiry == 0 || c.h.expiry < t) && t <= now && 0 < now
    ensures ReadCell(c, gen2b, keyMid, now) == None
  {}

  /** Growth changes no read at any slot offset, inside the old buffer or beyond it. */
  lemma GrowKeepsReads(s: Slab, slot: nat, gen2b: nat, trunc: nat, keyMid: byte, now: nat)
    requires Ok(s) && |s.cells| < s.maxCount && 0 < now
    requires s.writeSlot >= |s.cells| * GROW_PERCENT / 100
    ensures Ok(Grow(s)) && slot * s.stride % s.stride == 0
    ensures Read(Grow(s), slot * s.stride, gen2b, trunc, keyMid, now) ==
            Read(s, slot * s.stride, gen2b, trunc, keyMid, now)
  {
    hide TruncExpired, ReadCell;
    MakeRoomOk(s);
    Aligned(slot, s.stride);
    var g := Grow(s);
    if |s.cells| <= slot < |g.cells| {
      DeadCellReadsNone(g.cells[slot], gen2b, keyMid, now, now);
    }
  }

  predicate ActiveAt(c: Cell, t: nat) {
    c.h.expiry != 0 && c.h.expiry >= t
  }

  function ActiveCount(cells: seq<Cell>, t: nat): nat {
    if cells == [] then 0 else ActiveCount(cells[..|cells| - 1], t) + if ActiveAt(cells[|cells| - 1], t) then 1 else 0
  }

  /** The conditions of TryShrink at time t. */
  predicate CanShrink(s: Slab, pct: nat, t: nat) {
    && |s.cells| >= s.maxCount && s.maxCount >= 2 && s.maxCount > s.minCount
    && (forall k :: s.maxCount / 2 <= k < |s.cells| ==> !ActiveAt(s.cells[k], t))
    && ActiveCount(s.cells, t) < |s.cells| * pct / 100
  }

  /** The lower half kept; capacity, cap and write position halved or wrapped. */
  function Shrink(s: Slab): Slab
    requires 2 <= s.maxCount <= |s.cells|
  {
    var half := s.maxCount / 2;
    s.(cells := s.cells[..half], maxCount := half, writeSlot := s.writeSlot % half)
  }

  /** A shrink at time t changes no read at time t or later, at any slot offset. */
  lemma ShrinkKeepsReads(s: Slab, pct: nat, t: nat, slot: nat, gen2b: nat, trunc: nat, keyMid: byte, now: nat)
    requires Ok(s) && CanShrink(s, pct, t) && t <= now && 0 < now
    ensures Ok(Shrink(s)) && slot * s.stride % s.stride == 0
    ensures Read(Shrink(s), slot * s.stride, gen2b, trunc, keyMid, now) ==
            Read(s, slot * s.stride, gen2b, trunc, keyMid, now)
  {
    hide TruncExpired, ReadCell;
    Aligned(slot, s.stride);
    var h := Shrink(s);
    assert forall k :: 0 <= k < |h.cells| ==> h.cells[k] == s.cells[k] && CellOk(s.cells[k], s.stride);
    if |h.cells| <= slot < |s.cells| {
      assert CellOk(s.cells[slot], s.stride);
      DeadCellReadsNone(s.cells[slot], gen2b, keyMid, t, now);
    }
  }

  // ---------- bytes per tenant ----------

  /** The accounting size of one occupied slot for one tenant. */
  function CellUsage(c: Cell, tenant: nat): nat {
    if c.h.expiry > 0 && c.h.tenant == tenant then HEADER + c.h.valueLen else 0
  }

  /** The bytes a tenant occupies in a sequence of slots. */
  function Usage(cells: seq<Cell>, tenant: nat): nat {
    if cells == [] then 0 else Usage(cells[..|cells| - 1], tenant) + CellUsage(cells[|cells| - 1], tenant)
  }

  lemma {:induction false} UsageUpdate(cells: seq<Cell>, k: nat, c: Cell, tenant: nat)
    requires k < |cells|
    ensures Usage(cells[k := c], tenant) == Usage(cells, tenant) - CellUsage(cells[k], tenant) + CellUsage(c, tenant)
    ensures CellUsage(cells[k], tenant) <= Usage(cells, tenant)
    decreases |cells|
  {
    hide CellUsage;
    var front := cells[..|cells| - 1];
    if k == |cells| - 1 {
      assert cells[k := c][..|cells| - 1] == front;
    } else {
      UsageUpdate(front, k, c, tenant);
      assert cells[k := c][..|cells| - 1] == front[k := c];
    }
  }

  lemma {:induction false} UsageAppend(a: seq<Cell>, b: seq<Cell>, tenant: nat)
    ensures Usage(a + b, tenant) == Usage(a, tenant) + Usage(b, tenant)
    decreases |b|
  {
    hide CellUsage;
    if b == [] {
      assert a + b == a;
    } else {
      UsageAppend(a, b[..|b| - 1], tenant);
      assert (a + b)[..|a + b| - 1] == a + b[..|b| - 1];
    }
  }

  lemma {:induction false} UsageOfBlank(cells: seq<Cell>, tenant: nat)
    requires forall k :: 0 <= k < |cells| ==> cells[k].h.expiry == 0
    ensures Usage(cells, tenant) == 0
  {
    if cells != [] {
      UsageOfBlank(cells[..|cells| - 1], tenant);
    }
  }

  lemma MakeRoomUsage(s: Slab, tenant: nat)
    requires Ok(s)
    ensures Usage(MakeRoom(s).cells, tenant) == Usage(s.cells, tenant)
  {
    var g := MakeRoom(s);
    if g != s {
      var added := g.cells[|s.cells|..];
      assert g.cells == s.cells + added;
      UsageAppend(s.cells, added, tenant);
      UsageOfBlank(added, tenant);
    }
  }

  /** A write moves exactly the evicted entry's bytes out and the new entry's bytes in. */
  lemma WriteUsage(s: Slab, e: Entry, canRecycle: (Word, nat, nat) -> bool, tenant: nat)
    requires Ok(s) && 0 < e.expiry
    ensures var (s', r) := Write(s, e, canRecycle);
            if r.None? then Usage(s'.cells, tenant) == Usage(s.cells, tenant)
            else
              var out := if r.value.evicted.Some? && r.value.evicted.value.tenant == tenant
                         then HEADER + r.value.evicted.value.valueLen else 0;
              && out <= Usage(s.cells, tenant)
              && Usage(s'.cells, tenant) ==
                 Usage(s.cells, tenant) - out + if e.tenant == tenant then HEADER + |Cut(e.value)| else 0
  {
    MakeRoomUsage(s, tenant);
    var (s', r) := Write(s, e, canRecycle);
    if r.Some? {
      WriteLands(s, e, canRecycle);
      ClaimUsage(s, e, canRecycle, tenant);
    }
  }

  lemma ClaimUsage(s: Slab, e: Entry, canRecycle: (Word, nat, nat) -> bool, tenant: nat)
    requires Ok(s) && 0 < e.expiry && Write(s, e, canRecycle).1.Some?
    ensures var (s', r) := Write(s, e, canRecycle);
            var g := MakeRoom(s).cells;
            var out := if r.value.evicted.Some? && r.value.evicted.value.tenant == tenant
                       then HEADER + r.value.evicted.value.valueLen else 0;
            && out <= Usage(g, tenant)
            && Usage(s'.cells, tenant) ==
               Usage(g, tenant) - out + if e.tenant == tenant then HEADER + |Cut(e.value)| else 0
  {
    hide Usage;
    MakeRoomOk(s);
    var g := MakeRoom(s);
    var slot := NextSlot(g).0;
    hide NextSlot, MakeRoom;
    assert CellOk(g.cells[slot], g.stride);
    var (s', r) := Write(s, e, canRecycle);
    UsageUpdate(g.cells, slot, s'.cells[slot], tenant);
  }

  /** A shrink forgets the upper half without touching the counters: what is left is at most what was there. */
  lemma ShrinkUsage(s: Slab, tenant: nat)
    requires 2 <= s.maxCount <= |s.cells|
    ensures Usage(Shrink(s).cells, tenant) <= Usage(s.cells, tenant)
  {
    var half := s.maxCount / 2;
    UsageAppend(s.cells[..half], s.cells[half..], tenant);
    assert s.cells == s.cells[..half] + s.cells[half..];
  }

  // ---------- back-pointers ----------

  /** The slot at physOff with its back-pointer set; offsets beyond the buffer are ignored. */
  function WithBackPtr(s: Slab, physOff: nat, sp: Word): Slab
    requires s.stride > 0
  {
    SetBackPtr(s, physOff / s.stride, sp)
  }

  function SetBackPtr(s: Slab, k: nat, sp: Word): Slab {
    if k < |s.cells| then s.(cells := s.cells[k := s.cells[k].(h := s.cells[k].h.(backPtr := sp))]) else s
  }

  lemma BackPtrOk(s: Slab, physOff: nat, sp: Word)
    requires Ok(s)
    ensures Ok(WithBackPtr(s, physOff, sp))
  {
    var k := physOff / s.stride;
    if k < |s.cells| {
      assert CellOk(s.cells[k], s.stride);
    }
  }

  /** Back-pointers carry no bytes. */
  lemma BackPtrUsage(s: Slab, physOff: nat, sp: Word, tenant: nat)
    requires Ok(s)
    ensures Ok(WithBackPtr(s, physOff, sp))
    ensures Usage(WithBackPtr(s, physOff, sp).cells, tenant) == Usage(s.cells, tenant)
  {
    BackPtrOk(s, physOff, sp);
    var k := physOff / s.stride;
    if k < |s.cells| {
      UsageUpdate(s.cells, k, WithBackPtr(s, physOff, sp).cells[k], tenant);
    }
  }

  /** Setting the back-pointer of the slot just written keeps the log mirrored. */
  lemma BackPtrMirrors(s: Slab, log: seq<Entry>, slot: nat, sp: Word)
    requires Ok(s) && Mirrors(s, log) && slot < |log| && slot < |s.cells|
    ensures Ok(WithBackPtr(s, slot * s.stride, sp)) && Mirrors(WithBackPtr(s, slot * s.stride, sp), log)
  {
    Aligned(slot, s.stride);
    BackPtrOk(s, slot * s.stride, sp);
    var s' := WithBackPtr(s, slot * s.stride, sp);
    assert forall k :: 0 <= k < |s.cells| && k != slot ==> s'.cells[k] == s.cells[k];
    forall n | 0 <= n < |log| <= n + s.maxCount
      ensures Carries(s'.cells[n % s.maxCount], log[n], (n / s.maxCount) % 0x100)
    {
      assert Carries(s.cells[n % s.maxCount], log[n], (n / s.maxCount) % 0x100);
    }
  }
}
