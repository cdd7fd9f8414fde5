/** The mutable slab region: one buffer updated in place, proved against the Slab value it holds. */
module Regions {
  import opened Machine
  import opened Slabs

  class Region {
    const stride: nat
    var buf: array<Cell>
    var writeSlot: nat
    var maxCount: nat
    const minCount: nat := INITIAL_SLOTS

    ghost function View(): Slab
      reads this, buf
    {
      Slab(stride, buf[..], writeSlot, maxCount, minCount)
    }

    ghost predicate Valid()
      reads this, buf
    {
      Ok(View())
    }

    /** 64 blank slots; growth is capped at maxSlots, or at 4 MiB if none is given, and never below 64. */
    constructor (slotStride: nat, maxSlots: nat)
      requires HEADER <= slotStride
      ensures Valid() && View() == New(slotStride, maxSlots)
      ensures fresh(buf)
    {
      stride := slotStride;
      var m := if maxSlots == 0 then 0x40_0000 / slotStride else maxSlots;
      maxCount := if m < INITIAL_SLOTS then INITIAL_SLOTS else m;
      writeSlot := 0;
      buf := new Cell[INITIAL_SLOTS](i => BlankCell(slotStride));
      new;
      NewMirrors(slotStride, maxSlots);
      assert buf[..] == New(slotStride, maxSlots).cells;
    }

    /** Doubles the buffer and copies every slot to the same index. */
    method Grow()
      requires stride >= HEADER && buf.Length <= maxCount
      modifies this`buf
      ensures View() == Slabs.Grow(old(View()))
      ensures fresh(buf)
    {
      var count := 2 * buf.Length;
      if count > maxCount {
        count := maxCount;
      }
      var st := stride;
      var bigger := new Cell[count](i => BlankCell(st));
      for k := 0 to buf.Length
        invariant buf == old(buf) && buf[..] == old(buf[..])
        invariant forall i :: 0 <= i < k ==> bigger[i] == buf[i]
        invariant forall i :: k <= i < count ==> bigger[i] == BlankCell(st)
      {
        bigger[k] := buf[k];
      }
      assert bigger[..] == Slabs.Grow(old(View())).cells;
      buf := bigger;
    }

    /** Linear assignment below the cap, circular at it. */
    method PickSlot() returns (slot: nat, gen: nat)
      requires maxCount > 0
      ensures (slot, gen) == NextSlot(View())
    {
      if buf.Length >= maxCount {
        slot, gen := writeSlot % maxCount, (writeSlot / maxCount) % 0x100;
      } else {
        slot, gen := writeSlot, 0;
      }
    }

    /** Overwrites one slot in place: header, then as many payload bytes as the value has. */
    method StoreAt(slot: nat, gen: nat, e: Entry)
      requires slot < buf.Length && |e.value| <= |buf[slot].data|
      modifies this`writeSlot, buf
      ensures View() == old(View()).(cells := old(buf[..])[slot := Stored(old(buf[slot]), e, gen)],
                                     writeSlot := old(writeSlot) + 1)
    {
      writeSlot := writeSlot + 1;
      var c := buf[slot];
      buf[slot] := Cell(Header(e.expiry, gen, e.keyMid, e.tenant, |e.value| % 0x1_0000, 0),
                        e.value + c.data[|e.value|..]);
    }

    /** Claims the next slot and stores the entry, or rejects it. */
    method Write(tenant: nat, keyMid: byte, value: seq<byte>, ttl: nat, now: nat, canRecycle: (Word, nat, nat) -> bool)
      returns (r: Option<Receipt>)
      requires Valid()
      modifies this, buf
      ensures Valid()
      ensures (View(), r) == Slabs.Write(old(View()), Entry(tenant, keyMid, value, Expiry(now, ttl)), canRecycle)
      ensures buf == old(buf) || fresh(buf)
    {
      hide MakeRoom, Slabs.Grow, Ok, NextSlot, Stored, Expiry, Slabs.Write, CellOk;
      ghost var s := View();
      var e := Entry(tenant, keyMid, value, Expiry(now, ttl));
      WriteOk(s, e, canRecycle);
      OkBounds(s);
      if |value| > stride - HEADER {
        TooLarge(s, e, canRecycle);
        return None;
      }
      MakeRoomOk(s);
      MakeRoomIs(s);
      WriteCases(s, e, canRecycle);
      if writeSlot >= buf.Length * GROW_PERCENT / 100 && buf.Length < maxCount {
        Grow();
      }
      ghost var g := View();
      OkBounds(g);
      var slot, gen := PickSlot();
      var c := buf[slot];
      if buf.Length >= maxCount && c.h.expiry > 0 && c.h.backPtr != 0 && !canRecycle(c.h.backPtr, slot * stride, gen) {
        return None;
      }
      StoreAt(slot, gen, e);
      return Some(Receipt(slot * stride, gen, if c.h.expiry > 0 then Some(c.h) else None));
    }

    /** Validates and returns the value at a slot offset. */
    method Read(physOff: nat, gen2b: nat, trunc: nat, keyMid: byte, now: nat) returns (r: Option<seq<byte>>)
      requires Valid() && physOff % stride == 0
      ensures r == Slabs.Read(View(), physOff, gen2b, trunc, keyMid, now)
    {
      if TruncExpired(trunc, now) {
        return None;
      }
      OffsetInBounds(physOff, stride, buf.Length);
      if physOff + HEADER > buf.Length * stride {
        return None;
      }
      var c := buf[physOff / stride];
      assert CellOk(View().cells[physOff / stride], stride);
      if c.h.gen % 4 != gen2b {
        return None;
      }
      if c.h.expiry < now {
        return None;
      }
      if c.h.keyMid != keyMid {
        return None;
      }
      return Some(c.data[..c.h.valueLen]);
    }

    /** Writes the back-pointer of the slot at physOff; out-of-range offsets are ignored. */
    method UpdateXSlotPtr(physOff: nat, sp: Word)
      requires Valid() && physOff % stride == 0
      modifies buf
      ensures Valid() && View() == WithBackPtr(old(View()), physOff, sp)
    {
      ghost var s := View();
      BackPtrOk(s, physOff, sp);
      OffsetInBounds(physOff, stride, buf.Length);
      if physOff + HEADER > buf.Length * stride {
        return;
      }
      var k := physOff / stride;
      buf[k] := buf[k].(h := buf[k].h.(backPtr := sp));
      assert buf[..] == WithBackPtr(s, physOff, sp).cells;
    }

    /** One pass over all slots: counts the active ones, and stops at one in the upper half. */
    method ScanActive(half: nat, now: nat) returns (clear: bool, active: nat)
      ensures clear == forall k :: half <= k < buf.Length ==> !ActiveAt(buf[k], now)
      ensures clear ==> active == ActiveCount(buf[..], now)
    {
      active := 0;
      for k := 0 to buf.Length
        invariant active == ActiveCount(buf[..k], now)
        invariant forall i :: half <= i < k ==> !ActiveAt(buf[i], now)
      {
        assert buf[..k + 1][..k] == buf[..k];
        var h := buf[k].h;
        if h.expiry == 0 || h.expiry < now {
          continue;
        }
        active := active + 1;
        if k >= half {
          assert ActiveAt(buf[k], now);
          return false, 0;
        }
      }
      assert buf[..buf.Length] == buf[..];
      clear := true;
    }

    /** Replaces the buffer by its lower half and wraps the write position. */
    method Halve()
      requires 2 <= maxCount <= buf.Length
      modifies this
      ensures View() == Shrink(old(View())) && fresh(buf)
    {
      var half := maxCount / 2;
      var first := buf[0];
      var smaller := new Cell[half](i => first);
      for k := 0 to half
        invariant buf == old(buf) && buf[..] == old(buf[..]) && maxCount == old(maxCount) && writeSlot == old(writeSlot)
        invariant forall i :: 0 <= i < k ==> smaller[i] == buf[i]
      {
        smaller[k] := buf[k];
      }
      assert smaller[..] == old(buf[..])[..half];
      buf := smaller;
      maxCount := half;
      writeSlot := writeSlot % half;
    }

    /** Halves the region if it is circular, sparse, and its upper half is dead. */
    method TryShrink(pct: nat, now: nat) returns (ok: bool)
      requires Valid()
      modifies this
      ensures Valid()
      ensures ok == CanShrink(old(View()), pct, now)
      ensures View() == if ok then Shrink(old(View())) else old(View())
      ensures buf == old(buf) || fresh(buf)
    {
      hide Ok, ActiveCount;
      if buf.Length < maxCount || maxCount < 2 || maxCount <= minCount {
        return false;
      }
      var threshold := buf.Length * pct / 100;
      var clear, active := ScanActive(maxCount / 2, now);
      if !clear || active >= threshold {
        return false;
      }
      ShrinkOk(View(), pct, now);
      Halve();
      return true;
    }
  }

  lemma OkBounds(s: Slab)
    requires Ok(s)
    ensures s.stride >= HEADER && 0 < |s.cells| <= s.maxCount
  {}

  lemma MakeRoomIs(s: Slab)
    requires Ok(s)
    ensures MakeRoom(s) ==
            if s.writeSlot >= |s.cells| * GROW_PERCENT / 100 && |s.cells| < s.maxCount then Slabs.Grow(s) else s
  {}

  lemma TooLarge(s: Slab, e: Entry, canRecycle: (Word, nat, nat) -> bool)
    requires Ok(s) && HEADER + |e.value| > s.stride
    ensures Slabs.Write(s, e, canRecycle) == (s, None)
  {}

  /** A write of a value that fits, in terms of the slot that is next after making room. */
  lemma WriteCases(s: Slab, e: Entry, canRecycle: (Word, nat, nat) -> bool)
    requires Ok(s) && HEADER + |e.value| <= s.stride
    ensures var g := MakeRoom(s);
            var (slot, gen) := NextSlot(g);
            && slot < |g.cells| && HEADER + |g.cells[slot].data| == s.stride
            && var c := g.cells[slot];
               var free := |g.cells| < s.maxCount || c.h.expiry == 0 || c.h.backPtr == 0;
               Slabs.Write(s, e, canRecycle) ==
               if free || canRecycle(c.h.backPtr, slot * s.stride, gen)
               then (g.(cells := g.cells[slot := Stored(c, e, gen)], writeSlot := g.writeSlot + 1),
                     Some(Receipt(slot * s.stride, gen, if c.h.expiry > 0 then Some(c.h) else None)))
               else (g, None)
  {
    hide NextSlot, Stored;
    MakeRoomOk(s);
    SlotFits(MakeRoom(s), NextSlot(MakeRoom(s)).0);
  }

  lemma SlotFits(g: Slab, slot: nat)
    requires Ok(g) && slot < |g.cells|
    ensures HEADER + |g.cells[slot].data| == g.stride
  {
    assert CellOk(g.cells[slot], g.stride);
  }

  /** For slot offsets the byte bound and the slot bound agree. */
  lemma OffsetInBounds(physOff: nat, stride: nat, count: nat)
    requires stride >= HEADER && physOff % stride == 0
    ensures physOff + HEADER > count * stride <==> physOff / stride >= count
  {
    var slot := physOff / stride;
    assert physOff == slot * stride;
    if slot >= count {
      MulGrows(count, slot, stride);
    } else {
      MulGrows(slot + 1, count, stride);
    }
  }

  lemma ShrinkOk(s: Slab, pct: nat, now: nat)
    requires Ok(s) && CanShrink(s, pct, now)
    ensures Ok(Shrink(s))
  {
    assert forall k :: 0 <= k < s.maxCount / 2 ==> CellOk(s.cells[k], s.stride);
  }
}
