/**
 The inline-slot trie as a value: which slots sit at which position, and what Get,
 Set, Delete and the collapses make of them.  Positions are a shard and a branch
 sequence; where a tag may live is decided by its routing bits alone.
 */
module Trie {
  import opened Machine

  const SLOTS := 4
  const FANOUT := 8
  const MAX_DEPTH := 10
  const EMPTY: Word := 0
  const TOMBSTONE: Word := 0xFFFF_FFFF_FFFF_FFFF

  datatype Slot = Slot(tag: Word, val: Word)

  datatype Pos = Pos(shard: nat, path: seq<nat>)

  /** The slots held at every position that has a node. */
  type Cells = map<Pos, seq<Slot>>

  predicate Live(tag: Word) {
    tag != EMPTY && tag != TOMBSTONE
  }

  predicate Free(s: Slot) {
    !Live(s.tag)
  }

  // ---------- routing ----------

  function Pow2(n: nat): (r: nat)
    ensures r > 0
  {
    if n == 0 then 1 else 2 * Pow2(n - 1)
  }

  function ShardOf(tag: Word, bits: nat): (s: nat)
    ensures s < Pow2(bits)
  {
    tag % Pow2(bits)
  }

  /** The three routing bits consumed when leaving a node at the given depth. */
  function Branch(tag: Word, bits: nat, depth: nat): (b: nat)
    ensures b < FANOUT
  {
    (tag / Pow2(bits + 3 * depth)) % FANOUT
  }

  function Route(tag: Word, bits: nat, depth: nat): (r: seq<nat>)
    ensures |r| == depth
  {
    if depth == 0 then [] else Route(tag, bits, depth - 1) + [Branch(tag, bits, depth - 1)]
  }

  /** The node a tag passes through at the given depth. */
  function At(tag: Word, bits: nat, depth: nat): (p: Pos)
    ensures |p.path| == depth
  {
    Pos(ShardOf(tag, bits), Route(tag, bits, depth))
  }

  function Child(p: Pos, b: nat): Pos {
    Pos(p.shard, p.path + [b])
  }

  function Parent(p: Pos): Pos
    requires p.path != []
  {
    Pos(p.shard, p.path[..|p.path| - 1])
  }

  // ---------- one node ----------

  /** The first slot holding the tag, or |slots|. */
  function Find(slots: seq<Slot>, tag: Word): (i: nat)
    ensures i <= |slots|
    ensures i < |slots| ==> slots[i].tag == tag
    ensures forall k :: 0 <= k < i ==> slots[k].tag != tag
  {
    if slots == [] || slots[0].tag == tag then 0 else 1 + Find(slots[1..], tag)
  }

  /** The first slot that holds the tag or was never used, or |slots|. */
  function FindOrEmpty(slots: seq<Slot>, tag: Word): (i: nat)
    ensures i <= |slots|
    ensures i < |slots| ==> slots[i].tag == tag || slots[i].tag == EMPTY
    ensures forall k :: 0 <= k < i ==> slots[k].tag != tag && slots[k].tag != EMPTY
  {
    if slots == [] || slots[0].tag == tag || slots[0].tag == EMPTY then 0 else 1 + FindOrEmpty(slots[1..], tag)
  }

  /** The slot an insertion uses: the tag's own or an empty one, else the first tombstone, else |slots|. */
  function InsertSlot(slots: seq<Slot>, tag: Word): (i: nat)
    ensures i <= |slots|
  {
    var i := FindOrEmpty(slots, tag);
    if i < |slots| then i else Find(slots, TOMBSTONE)
  }

  /** Empty slots are never followed by used ones. */
  ghost predicate Packed(slots: seq<Slot>) {
    forall i, j :: 0 <= i < j < |slots| && slots[i].tag == EMPTY ==> slots[j].tag == EMPTY
  }

  lemma InsertSlotChoice(slots: seq<Slot>, tag: Word)
    requires Live(tag) && Packed(slots)
    ensures var i := InsertSlot(slots, tag);
            && (i < |slots| ==> slots[i].tag == tag || (Free(slots[i]) && Find(slots, tag) == |slots|))
            && (i == |slots| <==> forall k :: 0 <= k < |slots| ==> Live(slots[k].tag) && slots[k].tag != tag)
  {
    var i := InsertSlot(slots, tag);
    var j := Find(slots, tag);
    if j < |slots| {
      assert FindOrEmpty(slots, tag) <= j;
    }
  }

  lemma InsertKeepsPacked(slots: seq<Slot>, tag: Word, val: Word)
    requires Live(tag) && Packed(slots) && InsertSlot(slots, tag) < |slots|
    ensures Packed(slots[InsertSlot(slots, tag) := Slot(tag, val)])
  {
    hide Find, FindOrEmpty;
  }

  /** No slot before the one an insertion uses holds the tag. */
  lemma InsertSlotFirst(slots: seq<Slot>, tag: Word)
    requires Live(tag)
    ensures forall k :: 0 <= k < InsertSlot(slots, tag) ==> slots[k].tag != tag
  {
    hide Find, FindOrEmpty;
  }

  // ---------- well-formed tries ----------

  ghost predicate NodeOk(p: Pos, slots: seq<Slot>, bits: nat) {
    && |slots| == SLOTS
    && |p.path| <= MAX_DEPTH
    && p.shard < Pow2(bits)
    && (forall k :: 0 <= k < |p.path| ==> p.path[k] < FANOUT)
    && Packed(slots)
    && forall i :: 0 <= i < SLOTS && Live(slots[i].tag) ==> At(slots[i].tag, bits, |p.path|) == p
  }

  predicate Shaped(c: Cells) {
    forall p :: p in c ==> |c[p]| == SLOTS
  }

  ghost predicate WellFormed(c: Cells, bits: nat) {
    && Shaped(c)
    && (forall p :: p in c ==> NodeOk(p, c[p], bits))
    && (forall p {:trigger Parent(p)} :: p in c && p.path != [] ==> Parent(p) in c)
    && (forall s :: 0 <= s < Pow2(bits) ==> Pos(s, []) in c)
  }

  /** The first depth from d on where the tag's path leaves the trie or meets the tag (11 if neither). */
  function HitDepth(c: Cells, bits: nat, tag: Word, d: nat): (e: nat)
    requires d <= MAX_DEPTH + 1
    requires Shaped(c)
    ensures d <= e <= MAX_DEPTH + 1
    ensures forall k :: d <= k < e ==> At(tag, bits, k) in c && Find(c[At(tag, bits, k)], tag) == SLOTS
    ensures e <= MAX_DEPTH && At(tag, bits, e) in c ==> Find(c[At(tag, bits, e)], tag) < SLOTS
    decreases MAX_DEPTH + 1 - d
  {
    if d == MAX_DEPTH + 1 || At(tag, bits, d) !in c || Find(c[At(tag, bits, d)], tag) < SLOTS then d
    else HitDepth(c, bits, tag, d + 1)
  }

  /** What Get answers: the first occurrence on the tag's path. */
  function Lookup(c: Cells, bits: nat, tag: Word): Option<Word>
    requires Shaped(c)
  {
    var e := HitDepth(c, bits, tag, 0);
    var p := At(tag, bits, e);
    if e <= MAX_DEPTH && p in c then Some(c[p][Find(c[p], tag)].val) else None
  }

  /** The first depth from d on where an insertion finds a slot or no node (11 if none). */
  function SetDepth(c: Cells, bits: nat, tag: Word, d: nat): (e: nat)
    requires d <= MAX_DEPTH + 1
    requires Shaped(c)
    ensures d <= e <= MAX_DEPTH + 1
    ensures forall k :: d <= k < e ==> At(tag, bits, k) in c && InsertSlot(c[At(tag, bits, k)], tag) == SLOTS
    ensures e <= MAX_DEPTH && At(tag, bits, e) in c ==> InsertSlot(c[At(tag, bits, e)], tag) < SLOTS
    decreases MAX_DEPTH + 1 - d
  {
    if d == MAX_DEPTH + 1 || At(tag, bits, d) !in c || InsertSlot(c[At(tag, bits, d)], tag) < SLOTS then d
    else SetDepth(c, bits, tag, d + 1)
  }

  const BLANK: seq<Slot> := [Slot(EMPTY, 0), Slot(EMPTY, 0), Slot(EMPTY, 0), Slot(EMPTY, 0)]

  /** The trie after Set. */
  function Set(c: Cells, bits: nat, tag: Word, val: Word): (r: Cells)
    requires Shaped(c)
    ensures Shaped(r)
  {
    var e := SetDepth(c, bits, tag, 0);
    var p := At(tag, bits, e);
    if e > MAX_DEPTH then c
    else if p in c then c[p := c[p][InsertSlot(c[p], tag) := Slot(tag, val)]]
    else c[p := BLANK[0 := Slot(tag, val)]]
  }

  /** All 44 slots on the tag's 11-node path hold other live tags. */
  ghost predicate PathFull(c: Cells, bits: nat, tag: Word) {
    forall d :: 0 <= d <= MAX_DEPTH ==>
      && At(tag, bits, d) in c
      && forall i :: 0 <= i < |c[At(tag, bits, d)]| ==>
           Live(c[At(tag, bits, d)][i].tag) && c[At(tag, bits, d)][i].tag != tag
  }

  // ---------- Set refines map update ----------

  lemma HitDepthUnique(c: Cells, bits: nat, tag: Word, e: nat)
    requires Shaped(c)
    requires e <= MAX_DEPTH + 1
    requires forall k :: 0 <= k < e ==> At(tag, bits, k) in c && Find(c[At(tag, bits, k)], tag) == SLOTS
    requires e <= MAX_DEPTH && At(tag, bits, e) in c ==> Find(c[At(tag, bits, e)], tag) < SLOTS
    ensures HitDepth(c, bits, tag, 0) == e
  {
    hide At, Pow2, HitDepth, SetDepth, Find, FindOrEmpty;
    var h := HitDepth(c, bits, tag, 0);
    assert !(h < e) && !(e < h);
  }

  lemma {:induction false} OffTrieBelow(c: Cells, bits: nat, tag: Word, d: nat, e: nat)
    requires WellFormed(c, bits) && d <= e && At(tag, bits, d) !in c
    ensures At(tag, bits, e) !in c
    decreases e
  {
    if d < e {
      OffTrieBelow(c, bits, tag, d, e - 1);
      assert Route(tag, bits, e)[..e - 1] == Route(tag, bits, e - 1);
      assert Parent(At(tag, bits, e)) == At(tag, bits, e - 1);
    }
  }

  /** Replacing one slot that does not hold u, by a slot that does not hold u, leaves u's lookup alone. */
  lemma SlotChangeFrame(c: Cells, bits: nat, p: Pos, i: nat, s: Slot, u: Word)
    requires WellFormed(c, bits) && p in c && i < SLOTS
    requires c[p][i].tag != u && s.tag != u
    ensures Lookup(c[p := c[p][i := s]], bits, u) == Lookup(c, bits, u)
  {
    hide At, Pow2, HitDepth, SetDepth, Find, FindOrEmpty;
    var c' := c[p := c[p][i := s]];
    var e := HitDepth(c, bits, u, 0);
    assert forall q :: q in c ==> Find(c'[q], u) == Find(c[q], u) by {
      FindAfterChange(c[p], i, s, u);
    }
    HitDepthUnique(c', bits, u, e);
  }

  lemma FindAfterChange(slots: seq<Slot>, i: nat, s: Slot, u: Word)
    requires i < |slots| && slots[i].tag != u && s.tag != u
    ensures Find(slots[i := s], u) == Find(slots, u)
  {
    var f, g := Find(slots, u), Find(slots[i := s], u);
    assert forall k :: 0 <= k < |slots| ==> (slots[i := s][k].tag == u <==> slots[k].tag == u);
  }

  /** Adding a node that does not hold u leaves u's lookup alone. */
  lemma NewNodeFrame(c: Cells, bits: nat, p: Pos, slots: seq<Slot>, u: Word)
    requires WellFormed(c, bits) && p !in c && |slots| == SLOTS && Find(slots, u) == SLOTS
    ensures Lookup(c[p := slots], bits, u) == Lookup(c, bits, u)
  {
    hide At, Pow2, HitDepth, SetDepth, Find, FindOrEmpty;
    var c' := c[p := slots];
    var e := HitDepth(c, bits, u, 0);
    if e <= MAX_DEPTH && At(u, bits, e) == p {
      OffTrieBelow(c, bits, u, e, e + 1);
      HitDepthUnique(c', bits, u, e + 1);
    } else {
      HitDepthUnique(c', bits, u, e);
    }
  }

  /** A slot whose tag occurs nowhere before it is the one found. */
  lemma FoundOnce(slots: seq<Slot>, i: nat)
    requires i < |slots| && forall k :: 0 <= k < i ==> slots[k].tag != slots[i].tag
    ensures Find(slots, slots[i].tag) == i
  {
    hide Find;
    var f := Find(slots, slots[i].tag);
    assert !(i < f) && !(f < i);
  }

  /** Where Set stores, every shallower node is full of other live tags. */
  lemma SetDepthAbove(c: Cells, bits: nat, tag: Word)
    requires WellFormed(c, bits) && Live(tag)
    ensures var e := SetDepth(c, bits, tag, 0);
            && (forall k :: 0 <= k < e ==> Find(c[At(tag, bits, k)], tag) == SLOTS)
            && (e > MAX_DEPTH <==> PathFull(c, bits, tag))
  {
    hide At, Pow2, HitDepth, SetDepth, Find, FindOrEmpty;
    var e := SetDepth(c, bits, tag, 0);
    forall d | 0 <= d <= MAX_DEPTH && At(tag, bits, d) in c {
      InsertSlotChoice(c[At(tag, bits, d)], tag);
    }
  }

  lemma ChangeNode(c: Cells, bits: nat, p: Pos, slots: seq<Slot>)
    requires WellFormed(c, bits) && NodeOk(p, slots, bits)
    requires p in c || (p.path != [] && Parent(p) in c)
    ensures WellFormed(c[p := slots], bits)
  {
    hide At, Pow2, NodeOk, Packed;
    assert |slots| == SLOTS by {
      NodeShape(p, slots, bits);
    }
  }

  lemma NodeShape(p: Pos, slots: seq<Slot>, bits: nat)
    requires NodeOk(p, slots, bits)
    ensures |slots| == SLOTS
  {}

  lemma SetWellFormed(c: Cells, bits: nat, tag: Word, val: Word)
    requires WellFormed(c, bits) && Live(tag)
    ensures WellFormed(Set(c, bits, tag, val), bits)
  {
    hide Pow2, Branch, ShardOf, Find, FindOrEmpty, SetDepth, InsertSlot;
    var e := SetDepth(c, bits, tag, 0);
    var p := At(tag, bits, e);
    if e <= MAX_DEPTH {
      RouteBranches(tag, bits, e);
      if p in c {
        InsertKeepsPacked(c[p], tag, val);
        ChangeNode(c, bits, p, c[p][InsertSlot(c[p], tag) := Slot(tag, val)]);
      } else {
        assert Parent(p) == At(tag, bits, e - 1) by {
          assert Route(tag, bits, e)[..e - 1] == Route(tag, bits, e - 1);
        }
        ChangeNode(c, bits, p, BLANK[0 := Slot(tag, val)]);
      }
    }
  }

  lemma RouteBranches(tag: Word, bits: nat, d: nat)
    ensures forall k :: 0 <= k < d ==> Route(tag, bits, d)[k] < FANOUT
  {}

  /**
   Set refines map update in every well-formed trie, tombstones included: the tag then
   reads back the value, unless its path is full of other live tags, in which case
   nothing changes; no other tag's lookup changes.
   */
  lemma SetRefinesUpdate(c: Cells, bits: nat, tag: Word, val: Word, u: Word)
    requires WellFormed(c, bits) && Live(tag) && Live(u)
    ensures var c' := Set(c, bits, tag, val);
            && WellFormed(c', bits)
            && (PathFull(c, bits, tag) ==> c' == c)
            && (u == tag && !PathFull(c, bits, tag) ==> Lookup(c', bits, u) == Some(val))
            && (u != tag ==> Lookup(c', bits, u) == Lookup(c, bits, u))
  {
    hide At, Pow2, HitDepth, SetDepth, Find, FindOrEmpty;
    SetWellFormed(c, bits, tag, val);
    SetDepthAbove(c, bits, tag);
    var c' := Set(c, bits, tag, val);
    var e := SetDepth(c, bits, tag, 0);
    if e <= MAX_DEPTH {
      var p := At(tag, bits, e);
      if p in c {
        InsertSlotChoice(c[p], tag);
        InsertSlotFirst(c[p], tag);
      }
      if u == tag {
        var i := if p in c then InsertSlot(c[p], tag) else 0;
        assert c'[p][i] == Slot(tag, val);
        FoundOnce(c'[p], i);
        HitDepthUnique(c', bits, tag, e);
      } else if p in c {
        SlotChangeFrame(c, bits, p, InsertSlot(c[p], tag), Slot(tag, val), u);
      } else {
        NewNodeFrame(c, bits, p, c'[p], u);
      }
    }
  }

  // ---------- occurrences ----------

  /** Slot i of the node at p holds the tag. */
  ghost predicate Sits(c: Cells, p: Pos, i: int, tag: Word) {
    p in c && 0 <= i < |c[p]| && c[p][i].tag == tag
  }

  /** The trie holds the tag with this value in some slot. */
  ghost predicate Entry(c: Cells, tag: Word, val: Word) {
    exists p, i :: Sits(c, p, i, tag) && c[p][i].val == val
  }

  ghost predicate OccursOnce(c: Cells, tag: Word) {
    forall p, i, q, j :: Sits(c, p, i, tag) && Sits(c, q, j, tag) ==> p == q && i == j
  }

  /** No live tag sits in two slots. */
  ghost predicate Unique(c: Cells) {
    forall tag :: Live(tag) ==> OccursOnce(c, tag)
  }

  /** The lookup succeeds if and only if the tag sits somewhere, and then reads one of its slots. */
  lemma LookupFindsOccurrence(c: Cells, bits: nat, tag: Word)
    requires WellFormed(c, bits) && Live(tag)
    ensures Lookup(c, bits, tag).Some? ==> Entry(c, tag, Lookup(c, bits, tag).value)
    ensures forall p, i :: Sits(c, p, i, tag) ==> Lookup(c, bits, tag).Some?
  {
    hide At, Pow2, HitDepth, Find;
    var e := HitDepth(c, bits, tag, 0);
    if e <= MAX_DEPTH && At(tag, bits, e) in c {
      var p := At(tag, bits, e);
      assert Sits(c, p, Find(c[p], tag), tag);
    } else {
      forall p, i | Sits(c, p, i, tag)
        ensures false
      {
        assert p == At(tag, bits, |p.path|);
        if e <= |p.path| {
          OffTrieBelow(c, bits, tag, e, |p.path|);
        }
      }
    }
  }

  /** In a trie without duplicates, lookup and the set of entries are the same thing. */
  lemma LookupIsEntry(c: Cells, bits: nat, tag: Word, val: Word)
    requires WellFormed(c, bits) && Live(tag) && OccursOnce(c, tag)
    ensures Lookup(c, bits, tag) == Some(val) <==> Entry(c, tag, val)
  {
    hide At, Pow2, HitDepth, Find, Lookup;
    LookupFindsOccurrence(c, bits, tag);
    if Entry(c, tag, val) {
      var p, i :| Sits(c, p, i, tag) && c[p][i].val == val;
    }
  }

  /** Tries with the same entries, each without duplicates, answer every Get alike. */
  lemma SameEntriesSameLookup(c: Cells, d: Cells, bits: nat, tag: Word)
    requires WellFormed(c, bits) && WellFormed(d, bits) && Live(tag)
    requires OccursOnce(c, tag) && OccursOnce(d, tag)
    requires forall val :: Entry(c, tag, val) <==> Entry(d, tag, val)
    ensures Lookup(c, bits, tag) == Lookup(d, bits, tag)
  {
    hide Lookup, Entry, OccursOnce;
    var a, b := Lookup(c, bits, tag), Lookup(d, bits, tag);
    if a.Some? {
      LookupIsEntry(c, bits, tag, a.value);
      LookupIsEntry(d, bits, tag, a.value);
    }
    if b.Some? {
      LookupIsEntry(c, bits, tag, b.value);
      LookupIsEntry(d, bits, tag, b.value);
    }
  }

  /** The tag sits at some position and a node above it on the tag's path has a free slot. */
  ghost predicate FreeAbove(c: Cells, bits: nat, tag: Word) {
    exists p, i, k, j ::
      && Sits(c, p, i, tag) && 0 <= k < |p.path|
      && At(tag, bits, k) in c && 0 <= j < |c[At(tag, bits, k)]| && Free(c[At(tag, bits, k)][j])
  }

  /** A stored tag is never below the depth Set writes at. */
  lemma SetNotBelow(c: Cells, bits: nat, tag: Word, p: Pos, i: int)
    requires WellFormed(c, bits) && Live(tag) && Sits(c, p, i, tag)
    ensures At(tag, bits, |p.path|) == p && SetDepth(c, bits, tag, 0) <= |p.path| <= MAX_DEPTH
    ensures forall k :: 0 <= k < |p.path| ==> At(tag, bits, k) in c
    ensures SetDepth(c, bits, tag, 0) == |p.path| ==>
              InsertSlot(c[p], tag) < SLOTS && c[p][InsertSlot(c[p], tag)].tag == tag
  {
    hide At, Pow2, SetDepth, Find, FindOrEmpty;
    assert p == At(tag, bits, |p.path|);
    InsertSlotChoice(c[p], tag);
    forall k | 0 <= k < |p.path|
      ensures At(tag, bits, k) in c
    {
      if At(tag, bits, k) !in c {
        OffTrieBelow(c, bits, tag, k, |p.path|);
      }
    }
  }

  /** Set keeps the trie free of duplicates exactly when no free slot lies above the tag's own slot. */
  lemma SetKeepsUnique(c: Cells, bits: nat, tag: Word, val: Word)
    requires WellFormed(c, bits) && Live(tag) && Unique(c)
    ensures Unique(Set(c, bits, tag, val)) <==> !FreeAbove(c, bits, tag)
  {
    hide At, Pow2, SetDepth, Find, FindOrEmpty, InsertSlot;
    var c' := Set(c, bits, tag, val);
    var e := SetDepth(c, bits, tag, 0);
    var t := At(tag, bits, e);
    if p, i :| Sits(c, p, i, tag) {
      SetNotBelow(c, bits, tag, p, i);
      InsertSlotChoice(c[t], tag);
      var j := InsertSlot(c[t], tag);
      assert Sits(c', t, j, tag);
      if e < |p.path| {
        assert Sits(c', p, i, tag) && !Sits(c, t, j, tag);
        assert Free(c[At(tag, bits, e)][j]);
      } else {
        assert Sits(c, t, j, tag);
        SetInPlaceUnique(c, t, j, Slot(tag, val));
        if FreeAbove(c, bits, tag) {
          var q, m, k, n :| Sits(c, q, m, tag) && 0 <= k < |q.path| && At(tag, bits, k) in c
            && 0 <= n < |c[At(tag, bits, k)]| && Free(c[At(tag, bits, k)][n]);
          InsertSlotChoice(c[At(tag, bits, k)], tag);
        }
      }
    } else {
      SetFreshUnique(c, bits, tag, val);
    }
  }

  /** Overwriting a tag's slot with the same tag keeps the trie free of duplicates. */
  lemma SetInPlaceUnique(c: Cells, p: Pos, i: nat, s: Slot)
    requires Unique(c) && Sits(c, p, i, s.tag)
    ensures Unique(c[p := c[p][i := s]])
  {
    var c' := c[p := c[p][i := s]];
    assert forall q, j, u :: Sits(c', q, j, u) <==> Sits(c, q, j, u);
  }

  /** Storing a tag the trie does not hold keeps it free of duplicates. */
  lemma SetFreshUnique(c: Cells, bits: nat, tag: Word, val: Word)
    requires WellFormed(c, bits) && Live(tag) && Unique(c)
    requires forall p, i :: !Sits(c, p, i, tag)
    ensures Unique(Set(c, bits, tag, val))
  {
    hide At, Pow2, SetDepth, Find, FindOrEmpty, InsertSlot;
    var c' := Set(c, bits, tag, val);
    var t := At(tag, bits, SetDepth(c, bits, tag, 0));
    var i := if t in c then InsertSlot(c[t], tag) else 0;
    assert forall q, j, u :: Live(u) && Sits(c', q, j, u) ==> Sits(c, q, j, u) || (u == tag && q == t && j == i);
  }

  // ---------- the empty trie ----------

  /** The root positions of the first n shards. */
  ghost function Roots(n: nat): (r: set<Pos>)
    ensures forall p :: p in r <==> p.path == [] && p.shard < n
  {
    if n == 0 then {} else Roots(n - 1) + {Pos(n - 1, [])}
  }

  /** The trie of a new index. */
  ghost function EmptyTrie(bits: nat): Cells {
    map p | p in Roots(Pow2(bits)) :: BLANK
  }

  lemma EmptyWellFormed(bits: nat)
    ensures WellFormed(EmptyTrie(bits), bits) && Unique(EmptyTrie(bits))
  {
    hide At, Pow2, Roots;
    var c := EmptyTrie(bits);
    assert forall p, i, tag :: Sits(c, p, i, tag) ==> !Live(tag);
  }

  /** A new index answers None to everything. */
  lemma EmptyLookup(bits: nat, tag: Word)
    requires Live(tag)
    ensures WellFormed(EmptyTrie(bits), bits) && Lookup(EmptyTrie(bits), bits, tag) == None
  {
    hide At, Pow2, Roots, Lookup;
    EmptyWellFormed(bits);
    LookupFindsOccurrence(EmptyTrie(bits), bits, tag);
  }

  // ---------- full paths ----------

  /** A tag whose path is full of other tags is not found. */
  lemma FullPathMisses(c: Cells, bits: nat, tag: Word)
    requires WellFormed(c, bits) && PathFull(c, bits, tag)
    ensures Lookup(c, bits, tag) == None
  {
    hide At, Pow2, NodeOk, HitDepth;
    FullPathNode(c, bits, tag, HitDepth(c, bits, tag, 0));
  }

  lemma FullPathNode(c: Cells, bits: nat, tag: Word, d: nat)
    requires WellFormed(c, bits) && PathFull(c, bits, tag) && d <= MAX_DEPTH + 1
    ensures d <= MAX_DEPTH ==> At(tag, bits, d) in c && Find(c[At(tag, bits, d)], tag) == SLOTS
  {
    hide At, Pow2;
  }

  /** No Set ever frees a slot on a full path. */
  lemma FullPathStays(c: Cells, bits: nat, tag: Word, val: Word, u: Word)
    requires WellFormed(c, bits) && Live(tag) && PathFull(c, bits, u)
    ensures PathFull(Set(c, bits, tag, val), bits, u)
  {
    hide At, Pow2, SetDepth, Find, FindOrEmpty, InsertSlot;
    var e := SetDepth(c, bits, tag, 0);
    var p := At(tag, bits, e);
    if e <= MAX_DEPTH && p in c {
      InsertSlotChoice(c[p], tag);
    }
  }
}
