/**
 Tags that sit in two slots. A collapse neither removes duplicates nor minds them; this module
 says exactly when one changes what Get answers, and gives a trie on which compaction does.
 */
module TrieDuplicates {
  import opened Machine
  import opened Trie
  import opened TrieCompaction

  // ---------- lookups by their first hit ----------

  /** No node above depth e on the tag's path holds the tag, and all of them exist. */
  ghost predicate ClearAbove(c: Cells, bits: nat, tag: Word, e: nat)
    requires Shaped(c)
  {
    forall k :: 0 <= k < e ==> At(tag, bits, k) in c && Find(c[At(tag, bits, k)], tag) == SLOTS
  }

  lemma FirstHit(c: Cells, bits: nat, tag: Word, e: nat)
    requires Shaped(c) && e <= MAX_DEPTH && ClearAbove(c, bits, tag, e)
    requires At(tag, bits, e) in c && Find(c[At(tag, bits, e)], tag) < SLOTS
    ensures var p := At(tag, bits, e); Lookup(c, bits, tag) == Some(c[p][Find(c[p], tag)].val)
  {
    hide At, HitDepth, Find;
  }

  /** What a lookup says about the path down to its hit. */
  lemma HitPath(c: Cells, bits: nat, tag: Word)
    requires Shaped(c)
    ensures var e := HitDepth(c, bits, tag, 0); e <= MAX_DEPTH + 1 && ClearAbove(c, bits, tag, e)
    ensures var e, p := HitDepth(c, bits, tag, 0), At(tag, bits, HitDepth(c, bits, tag, 0));
            if e <= MAX_DEPTH && p in c then
              Find(c[p], tag) < SLOTS && Lookup(c, bits, tag) == Some(c[p][Find(c[p], tag)].val)
            else Lookup(c, bits, tag) == None
  {
    hide At, HitDepth, Find;
  }

  /** Tries that agree on the tag's path answer it alike. */
  lemma SamePath(c: Cells, d: Cells, bits: nat, tag: Word)
    requires Shaped(c) && Shaped(d)
    requires forall k :: 0 <= k <= MAX_DEPTH ==>
               && (At(tag, bits, k) in c <==> At(tag, bits, k) in d)
               && (At(tag, bits, k) in c ==> d[At(tag, bits, k)] == c[At(tag, bits, k)])
    ensures Lookup(d, bits, tag) == Lookup(c, bits, tag)
  {
    hide At, HitDepth, Find;
  }

  // ---------- the first gathered copy ----------

  lemma {:induction false} FindJoin(a: seq<Slot>, b: seq<Slot>, tag: Word)
    ensures Find(a + b, tag) == if Find(a, tag) < |a| then Find(a, tag) else |a| + Find(b, tag)
  {
    if a == [] {
      assert a + b == b;
    } else {
      FindJoin(a[1..], b, tag);
      assert (a + b)[1..] == a[1..] + b;
    }
  }

  /** Dropping free slots keeps the first copy first. */
  lemma {:induction false} LiveOfFirst(slots: seq<Slot>, tag: Word)
    requires Live(tag)
    ensures var i, k := Find(slots, tag), Find(LiveOf(slots), tag);
            && (i < |slots| <==> k < |LiveOf(slots)|)
            && (i < |slots| ==> LiveOf(slots)[k] == slots[i])
  {
    hide Find, LiveOf;
    LiveOfNext(slots);
    if slots != [] {
      var rest := slots[1..];
      LiveOfFirst(rest, tag);
      assert slots == [slots[0]] + rest;
      FindAt(slots[0], rest, tag);
      FindAt(slots[0], LiveOf(rest), tag);
    }
  }

  lemma LiveOfNext(slots: seq<Slot>)
    ensures slots == [] ==> LiveOf(slots) == []
    ensures slots != [] ==>
              LiveOf(slots) == if Free(slots[0]) then LiveOf(slots[1..]) else [slots[0]] + LiveOf(slots[1..])
  {}

  lemma FindAt(first: Slot, rest: seq<Slot>, tag: Word)
    ensures Find([first] + rest, tag) == if first.tag == tag then 0 else 1 + Find(rest, tag)
  {
    assert ([first] + rest)[1..] == rest;
  }

  /** The tag sits in no child but the one on its path. */
  lemma OffPathChild(c: Cells, bits: nat, p: Pos, x: nat, tag: Word)
    requires WellFormed(c, bits) && Live(tag) && Child(p, x) in c && Child(p, x) != At(tag, bits, |p.path| + 1)
    ensures Find(c[Child(p, x)], tag) == |c[Child(p, x)]|
  {
    hide At, Pow2, Packed, Find;
    var q := Child(p, x);
    assert forall i :: 0 <= i < |c[q]| ==> c[q][i].tag != tag;
  }

  lemma OtherChild(p: Pos, x: nat, y: nat)
    requires x != y
    ensures Child(p, x) != Child(p, y)
  {
    assert Child(p, x).path[|p.path|] != Child(p, y).path[|p.path|];
  }

  lemma GatherNext(c: Cells, p: Pos, b: nat)
    requires b < FANOUT
    ensures Gather(c, p, b + 1) == Gather(c, p, b) + if Child(p, b) in c then LiveOf(c[Child(p, b)]) else []
  {
    hide LiveOf, Child;
  }

  /** The first entry with the tag is this one; none, if there is no such entry. */
  ghost predicate FirstEntry(s: seq<Slot>, tag: Word, first: Option<Slot>) {
    match first
    case None => Find(s, tag) == |s|
    case Some(slot) => Find(s, tag) < |s| && s[Find(s, tag)] == slot
  }

  /** The first copy in the child on the tag's path, among the first b children. */
  ghost function ChildCopy(c: Cells, p: Pos, b: nat, x: nat, tag: Word): Option<Slot> {
    if x < b && Child(p, x) in c && Find(c[Child(p, x)], tag) < |c[Child(p, x)]|
    then Some(c[Child(p, x)][Find(c[Child(p, x)], tag)]) else None
  }

  lemma JoinFirst(a: seq<Slot>, b: seq<Slot>, tag: Word, first: Option<Slot>, more: Option<Slot>)
    requires FirstEntry(a, tag, first) && FirstEntry(b, tag, more)
    ensures FirstEntry(a + b, tag, if first.Some? then first else more)
  {
    hide Find;
    FindJoin(a, b, tag);
  }

  lemma LiveFirst(c: Cells, bits: nat, p: Pos, b: nat, x: nat, tag: Word)
    requires WellFormed(c, bits) && Live(tag) && Child(p, x) == At(tag, bits, |p.path| + 1) && Child(p, b) in c
    ensures FirstEntry(LiveOf(c[Child(p, b)]), tag, if b == x then ChildCopy(c, p, b + 1, x, tag) else None)
  {
    hide At, Find, LiveOf, WellFormed, Child;
    LiveOfFirst(c[Child(p, b)], tag);
    if b != x {
      OtherChild(p, b, x);
      OffPathChild(c, bits, p, b, tag);
    }
  }

  /** The first gathered copy is the first in the child on the tag's path. */
  lemma {:induction false} GatherFirst(c: Cells, bits: nat, p: Pos, b: nat, x: nat, tag: Word)
    requires WellFormed(c, bits) && Live(tag) && b <= FANOUT && Child(p, x) == At(tag, bits, |p.path| + 1)
    ensures FirstEntry(Gather(c, p, b), tag, ChildCopy(c, p, b, x, tag))
  {
    hide At, Find, LiveOf, WellFormed, Child, FirstEntry, Gather;
    if b == 0 {
      NoneGathered(c, p, tag);
    } else {
      GatherFirst(c, bits, p, b - 1, x, tag);
      GatherNext(c, p, b - 1);
      var above := Gather(c, p, b - 1);
      if Child(p, b - 1) in c {
        LiveFirst(c, bits, p, b - 1, x, tag);
        JoinFirst(above, LiveOf(c[Child(p, b - 1)]), tag, ChildCopy(c, p, b - 1, x, tag),
                  if b - 1 == x then ChildCopy(c, p, b, x, tag) else None);
      } else {
        assert above + [] == above;
      }
    }
  }

  lemma NoneGathered(c: Cells, p: Pos, tag: Word)
    ensures FirstEntry(Gather(c, p, 0), tag, None)
  {}

  // ---------- where the tag is first in a filled node ----------

  /** Filling puts the first entry with the tag ahead of the node's own copy iff enough free slots precede that. */
  lemma FillFirst(slots: seq<Slot>, entries: seq<Slot>, tag: Word)
    requires Live(tag) && |entries| <= FreeBefore(slots, |slots|)
    ensures var i, k, r := Find(slots, tag), Find(entries, tag), Fill(slots, entries);
            if k < |entries| && k < FreeBefore(slots, i) then Find(r, tag) < |r| && r[Find(r, tag)] == entries[k]
            else Find(r, tag) == i && (i < |r| ==> r[i] == slots[i])
  {
    hide FreeBefore, Find;
    var i, k, r := Find(slots, tag), Find(entries, tag), Fill(slots, entries);
    var j := i;
    if k < |entries| && k < FreeBefore(slots, i) {
      j := FreeSlotFor(slots, k, i);
    }
    forall m | 0 <= m < j
      ensures r[m].tag != tag
    {
      FreeBeforeMonotone(slots, m, j);
    }
    FirstIs(r, tag, j);
  }

  lemma FirstIs(s: seq<Slot>, tag: Word, j: nat)
    requires j <= |s| && (j < |s| ==> s[j].tag == tag) && forall m :: 0 <= m < j ==> s[m].tag != tag
    ensures Find(s, tag) == j
  {
    hide Find;
  }

  // ---------- one collapse ----------

  /**
   The tag is read from p, one of p's children holds it too, and its first gathered copy has
   another value and lands in a free slot before p's own copy.
   */
  ghost predicate Overtakes(c: Cells, bits: nat, p: Pos, tag: Word)
    requires Shaped(c) && p in c
  {
    && p == At(tag, bits, |p.path|) && HitDepth(c, bits, tag, 0) == |p.path|
    && Displaces(c[p], Gather(c, p, FANOUT), tag)
  }

  ghost predicate Displaces(slots: seq<Slot>, entries: seq<Slot>, tag: Word) {
    var i, k := Find(slots, tag), Find(entries, tag);
    i < |slots| && k < |entries| && k < FreeBefore(slots, i) && entries[k].val != slots[i].val
  }

  /** A collapse changes what the tag's lookup answers exactly when a child's copy overtakes p's own. */
  lemma CollapseChangesIff(c: Cells, bits: nat, p: Pos, tag: Word)
    requires WellFormed(c, bits) && CanCollapse(c, p) && Live(tag)
    ensures Shaped(c) && p in c
    ensures Lookup(Collapse(c, p), bits, tag) != Lookup(c, bits, tag) <==> Overtakes(c, bits, p, tag)
  {
    hide WellFormed, CanCollapse, Collapse, Lookup, Displaces, At, HitDepth, Gather;
    CollapsePremises(c, bits, p);
    var e := HitDepth(c, bits, tag, 0);
    if At(tag, bits, |p.path|) != p {
      OffPath(c, bits, p, tag);
    } else if e < |p.path| {
      HitAbove(c, bits, p, tag);
    } else if e == |p.path| {
      HitHere(c, bits, p, tag);
    } else {
      HitBelow(c, bits, p, tag);
    }
  }

  /** The nodes of the collapsed trie on the tag's path, away from p's children. */
  lemma PathNodes(c: Cells, bits: nat, p: Pos, tag: Word, k: nat)
    requires WellFormed(c, bits) && CanCollapse(c, p) && !IsChild(At(tag, bits, k), p)
    ensures var d, q := Collapse(c, p), At(tag, bits, k);
            && (q in c <==> q in d) && (q in c && q != p ==> d[q] == c[q])
  {
    hide WellFormed, Gather, Fill, At, IsChild, HasGrandchild, FreeBefore;
  }

  lemma PathParent(tag: Word, bits: nat, k: nat)
    requires k > 0
    ensures At(tag, bits, k).path != [] && Parent(At(tag, bits, k)) == At(tag, bits, k - 1)
  {
    hide Branch, ShardOf;
  }

  lemma DepthOf(tag: Word, bits: nat, k: nat)
    ensures |At(tag, bits, k).path| == k
  {}

  /** A tag whose path does not go through p: nothing on it changes. */
  lemma OffPath(c: Cells, bits: nat, p: Pos, tag: Word)
    requires WellFormed(c, bits) && CanCollapse(c, p) && At(tag, bits, |p.path|) != p
    ensures Shaped(c) && p in c && Shaped(Collapse(c, p)) && Lookup(Collapse(c, p), bits, tag) == Lookup(c, bits, tag)
  {
    hide WellFormed, CanCollapse, Collapse, Lookup, At;
    CollapsePremises(c, bits, p);
    forall k | 0 <= k <= MAX_DEPTH
      ensures At(tag, bits, k) != p && !IsChild(At(tag, bits, k), p)
    {
      DepthOf(tag, bits, k);
      if k > 0 {
        PathParent(tag, bits, k);
        DepthOf(tag, bits, k - 1);
      }
    }
    forall k | 0 <= k <= MAX_DEPTH {
      PathNodes(c, bits, p, tag, k);
    }
    SamePath(c, Collapse(c, p), bits, tag);
  }

  /** The nodes above p on a path through p are neither p nor its children, and stay as they are. */
  lemma AboveSame(c: Cells, bits: nat, p: Pos, tag: Word, k: nat)
    requires WellFormed(c, bits) && CanCollapse(c, p) && k < |p.path|
    ensures var d, q := Collapse(c, p), At(tag, bits, k);
            (q in c <==> q in d) && (q in c ==> d[q] == c[q])
  {
    hide WellFormed, CanCollapse, Collapse, At;
    DepthOf(tag, bits, k);
    PathNodes(c, bits, p, tag, k);
  }

  lemma ClearStays(c: Cells, bits: nat, p: Pos, tag: Word, e: nat)
    requires WellFormed(c, bits) && CanCollapse(c, p) && e <= |p.path|
    ensures Shaped(c) && p in c && Shaped(Collapse(c, p))
    ensures ClearAbove(c, bits, tag, e) ==> ClearAbove(Collapse(c, p), bits, tag, e)
  {
    hide WellFormed, CanCollapse, Collapse, At, Find;
    CollapsePremises(c, bits, p);
    forall k | 0 <= k < e {
      AboveSame(c, bits, p, tag, k);
    }
  }

  lemma PathExists(c: Cells, bits: nat, p: Pos, tag: Word, k: nat)
    requires WellFormed(c, bits) && p in c && At(tag, bits, |p.path|) == p && k <= |p.path|
    ensures At(tag, bits, k) in c && |p.path| <= MAX_DEPTH
  {
    hide At, Pow2, Packed;
    if At(tag, bits, k) !in c {
      OffTrieBelow(c, bits, tag, k, |p.path|);
    }
  }

  /** The tag is read above p. */
  lemma HitAbove(c: Cells, bits: nat, p: Pos, tag: Word)
    requires WellFormed(c, bits) && CanCollapse(c, p) && At(tag, bits, |p.path|) == p
    requires Shaped(c) && HitDepth(c, bits, tag, 0) < |p.path|
    ensures p in c && Shaped(Collapse(c, p)) && Lookup(Collapse(c, p), bits, tag) == Lookup(c, bits, tag)
  {
    hide WellFormed, CanCollapse, Collapse, Lookup, At, Find, HitDepth, ClearAbove;
    CollapsePremises(c, bits, p);
    var e := HitDepth(c, bits, tag, 0);
    HitPath(c, bits, tag);
    PathExists(c, bits, p, tag, e);
    ClearStays(c, bits, p, tag, e);
    AboveSame(c, bits, p, tag, e);
    FirstHit(Collapse(c, p), bits, tag, e);
  }

  lemma CollapsedNode(c: Cells, p: Pos)
    requires CanCollapse(c, p)
    ensures p in c && p in Collapse(c, p) && Collapse(c, p)[p] == Fill(c[p], Gather(c, p, FANOUT))
    ensures |Gather(c, p, FANOUT)| <= FreeBefore(c[p], |c[p]|) && !HasGrandchild(c, p)
  {
    hide Gather, Fill, FreeBefore, HasGrandchild;
  }

  /** The tag is read from p itself. */
  lemma HitHere(c: Cells, bits: nat, p: Pos, tag: Word)
    requires WellFormed(c, bits) && CanCollapse(c, p) && At(tag, bits, |p.path|) == p && Live(tag)
    requires Shaped(c) && HitDepth(c, bits, tag, 0) == |p.path|
    ensures p in c && Shaped(Collapse(c, p))
    ensures Lookup(Collapse(c, p), bits, tag) != Lookup(c, bits, tag) <==> Displaces(c[p], Gather(c, p, FANOUT), tag)
  {
    hide WellFormed, CanCollapse, Collapse, Lookup, At, Find, HitDepth, ClearAbove, Gather, Fill, FreeBefore;
    CollapsePremises(c, bits, p);
    HitPath(c, bits, tag);
    PathExists(c, bits, p, tag, |p.path|);
    ClearStays(c, bits, p, tag, |p.path|);
    CollapsedNode(c, p);
    FillFirst(c[p], Gather(c, p, FANOUT), tag);
    FirstHit(Collapse(c, p), bits, tag, |p.path|);
  }

  /** The tag is read below p, or nowhere. */
  lemma HitBelow(c: Cells, bits: nat, p: Pos, tag: Word)
    requires WellFormed(c, bits) && CanCollapse(c, p) && At(tag, bits, |p.path|) == p && Live(tag)
    requires Shaped(c) && HitDepth(c, bits, tag, 0) > |p.path|
    ensures p in c && Shaped(Collapse(c, p)) && Lookup(Collapse(c, p), bits, tag) == Lookup(c, bits, tag)
  {
    hide WellFormed, CanCollapse, Collapse, Lookup, At, Find, HitDepth, Gather, Fill, FreeBefore, Entry;
    CollapsePremises(c, bits, p);
    if Lookup(c, bits, tag).None? {
      CollapseWellFormed(c, bits, p);
      SomeIffEntry(c, bits, tag);
      SomeIffEntry(Collapse(c, p), bits, tag);
      forall val
        ensures !Entry(Collapse(c, p), tag, val)
      {
        CollapseEntries(c, bits, p, tag, val);
      }
    } else {
      PulledUp(c, bits, p, tag);
    }
  }

  lemma PulledUp(c: Cells, bits: nat, p: Pos, tag: Word)
    requires WellFormed(c, bits) && CanCollapse(c, p) && At(tag, bits, |p.path|) == p && Live(tag)
    requires Shaped(c) && HitDepth(c, bits, tag, 0) > |p.path| && Lookup(c, bits, tag).Some?
    ensures p in c && Shaped(Collapse(c, p)) && Lookup(Collapse(c, p), bits, tag) == Lookup(c, bits, tag)
  {
    hide WellFormed, CanCollapse, Collapse, Lookup, At, Find, HitDepth, Gather, Fill, FreeBefore, HasGrandchild;
    CollapsePremises(c, bits, p);
    CollapsedNode(c, p);
    HitPath(c, bits, tag);
    PathExists(c, bits, p, tag, |p.path|);
    var x := HitInChild(c, bits, p, tag);
    ClearStays(c, bits, p, tag, |p.path|);
    GatherFirst(c, bits, p, FANOUT, x, tag);
    assert FirstEntry(Gather(c, p, FANOUT), tag, Some(c[Child(p, x)][Find(c[Child(p, x)], tag)]));
    FillFirst(c[p], Gather(c, p, FANOUT), tag);
    FirstHit(Collapse(c, p), bits, tag, |p.path|);
  }

  /** Without grandchildren, a hit below p is in a child of p. */
  lemma HitInChild(c: Cells, bits: nat, p: Pos, tag: Word) returns (x: nat)
    requires WellFormed(c, bits) && p in c && !HasGrandchild(c, p) && At(tag, bits, |p.path|) == p
    requires Shaped(c) && HitDepth(c, bits, tag, 0) > |p.path| && Lookup(c, bits, tag).Some?
    ensures x < FANOUT && Child(p, x) == At(tag, bits, |p.path| + 1) && HitDepth(c, bits, tag, 0) == |p.path| + 1
  {
    hide WellFormed, Lookup, At, Find, HitDepth, HasGrandchild, ClearAbove;
    HitPath(c, bits, tag);
    var d, e := |p.path|, HitDepth(c, bits, tag, 0);
    x := PathChild(tag, bits, d);
    DepthOf(tag, bits, e);
    if e > d + 1 {
      PathExists(c, bits, At(tag, bits, e), tag, d + 2);
      PathParent(tag, bits, d + 2);
      PathParent(tag, bits, d + 1);
      GrandchildSeen(c, bits, p, At(tag, bits, d + 2));
    }
  }

  lemma PathChild(tag: Word, bits: nat, k: nat) returns (x: nat)
    ensures x < FANOUT && Child(At(tag, bits, k), x) == At(tag, bits, k + 1)
  {
    hide ShardOf;
    x := Branch(tag, bits, k);
  }

  // ---------- tries on which that happens ----------

  const ROOT := Pos(0, [])
  const OTHER := Pos(1, [])
  const KID := Pos(0, [0])
  const KID_SLOTS: seq<Slot> := [Slot(16, 1), Slot(EMPTY, 0), Slot(EMPTY, 0), Slot(EMPTY, 0)]

  /** Two shards; shard 0 has these root slots, and tag 16 one level below them. */
  function WithRoot(slots: seq<Slot>): Cells {
    map[ROOT := slots, OTHER := BLANK, KID := KID_SLOTS]
  }

  /** The root was full when 16 was stored; then its first or its second slot was deleted. */
  const SHADOWED: Cells := WithRoot([GRAVE, Slot(32, 2), Slot(48, 3), Slot(64, 4)])
  const BURIED: Cells := WithRoot([Slot(64, 4), GRAVE, Slot(32, 2), Slot(48, 3)])

  /** BURIED after 16 was stored again, and after 64 was deleted. */
  const TWICE: Cells := WithRoot([Slot(64, 4), Slot(16, 9), Slot(32, 2), Slot(48, 3)])
  const STALE: Cells := WithRoot([GRAVE, Slot(16, 9), Slot(32, 2), Slot(48, 3)])

  lemma Routes()
    ensures At(16, 1, 0) == At(32, 1, 0) == At(48, 1, 0) == At(64, 1, 0) == ROOT && At(16, 1, 1) == KID
    ensures Parent(KID) == ROOT && Pow2(1) == 2
  {
    assert Pow2(2) == 4 && Pow2(3) == 8;
  }

  lemma WithRootOk(slots: seq<Slot>)
    requires |slots| == SLOTS && Packed(slots)
    requires forall i :: 0 <= i < SLOTS && Live(slots[i].tag) ==> slots[i].tag in {16, 32, 48, 64}
    ensures WellFormed(WithRoot(slots), 1)
  {
    hide At, Pow2;
    Routes();
    var c := WithRoot(slots);
    assert NodeOk(ROOT, c[ROOT], 1) && NodeOk(OTHER, c[OTHER], 1) && NodeOk(KID, c[KID], 1);
  }

  lemma WithRootUnique(slots: seq<Slot>)
    requires |slots| == SLOTS
    requires forall i, j :: 0 <= i < j < SLOTS && Live(slots[i].tag) ==> slots[i].tag != slots[j].tag
    requires forall i :: 0 <= i < SLOTS ==> slots[i].tag != 16
    ensures Unique(WithRoot(slots))
  {
    var c := WithRoot(slots);
    forall tag, q, i | Live(tag) && Sits(c, q, i, tag)
      ensures if tag == 16 then q == KID && i == 0 else q == ROOT
    {
      assert q == KID ==> i == 0;
    }
  }

  /** Storing 16 again and deleting it leaves 16 readable. */
  lemma DeleteCanUncover()
    ensures WellFormed(SHADOWED, 1) && Unique(SHADOWED)
    ensures Lookup(Delete(Set(SHADOWED, 1, 16, 9), 1, 16), 1, 16) != None
  {
    hide Delete, Lookup, At, Trie.Set, WellFormed, Unique;
    Routes();
    WithRootOk(SHADOWED[ROOT]);
    WithRootUnique(SHADOWED[ROOT]);
    assert Sits(SHADOWED, KID, 0, 16) && Free(SHADOWED[At(16, 1, 0)][0]);
    assert FreeAbove(SHADOWED, 1, 16);
    DeleteAfterSetForgetsIff(SHADOWED, 1, 16, 9);
  }

  lemma Stored()
    ensures Shaped(BURIED) && Set(BURIED, 1, 16, 9) == TWICE
  {
    hide At, Pow2;
    Routes();
    FirstFree();
    hide InsertSlot;
    assert SetDepth(BURIED, 1, 16, 0) == 0;
    assert BURIED[ROOT][1 := Slot(16, 9)] == TWICE[ROOT];
    assert BURIED[ROOT := TWICE[ROOT]] == TWICE;
  }

  lemma FirstFree()
    ensures InsertSlot(BURIED[ROOT], 16) == 1
  {
    hide Find, FindOrEmpty;
    var r := BURIED[ROOT];
    assert r[0].tag == 64 && r[1].tag == TOMBSTONE && r[2].tag == 32 && r[3].tag == 48;
    assert FindOrEmpty(r, 16) == 4 && Find(r, TOMBSTONE) == 1;
  }

  lemma Deleted()
    ensures Shaped(TWICE) && Delete(TWICE, 1, 64) == STALE
  {
    hide At, Pow2;
    Routes();
    assert Find(TWICE[ROOT], 64) == 0;
    hide Find;
    assert HitDepth(TWICE, 1, 64, 0) == 0;
    assert TWICE[ROOT][0 := GRAVE] == STALE[ROOT];
    assert TWICE[ROOT := STALE[ROOT]] == STALE;
  }

  lemma Collapses()
    ensures CanCollapse(STALE, ROOT)
    ensures Collapse(STALE, ROOT)[ROOT] == [Slot(16, 1), Slot(16, 9), Slot(32, 2), Slot(48, 3)]
  {
    OnlyKid();
    hide Gather;
    assert FreeBefore(STALE[ROOT], 1) == 1 && FreeBefore(STALE[ROOT], 2) == 1;
    assert FreeBefore(STALE[ROOT], 3) == 1 && FreeBefore(STALE[ROOT], 4) == 1;
    assert Fill(STALE[ROOT], [Slot(16, 1)]) == [Slot(16, 1), Slot(16, 9), Slot(32, 2), Slot(48, 3)];
  }

  lemma OnlyKid()
    ensures Gather(STALE, ROOT, FANOUT) == [Slot(16, 1)] && !HasGrandchild(STALE, ROOT)
  {
    forall x: nat
      ensures Child(ROOT, x) in STALE <==> x == 0
    {
      assert ([] + [x])[0] == x;
      assert x == 0 ==> Child(ROOT, x) == KID;
    }
    forall x: nat, y: nat
      ensures Child(Child(ROOT, x), y) !in STALE
    {
      assert |Child(Child(ROOT, x), y).path| == 2;
    }
    GatherKid(FANOUT);
  }

  lemma {:induction false} GatherKid(b: nat)
    requires 0 < b <= FANOUT && forall x: nat :: Child(ROOT, x) in STALE <==> x == 0
    ensures Gather(STALE, ROOT, b) == [Slot(16, 1)]
  {
    if b > 1 {
      GatherKid(b - 1);
    } else {
      assert Child(ROOT, 0) == KID;
      OneLive();
      hide LiveOf;
      assert Gather(STALE, ROOT, 0) == [];
    }
  }

  lemma OneLive()
    ensures LiveOf(KID_SLOTS) == [Slot(16, 1)]
  {
    var rest := KID_SLOTS[1..];
    assert rest[1..][1..] == [Slot(EMPTY, 0)];
    assert LiveOf(rest[1..][1..]) == [];
    assert LiveOf(rest) == [];
  }

  /** From a trie without duplicates: set, delete, and compaction brings the older value back. */
  lemma CompactionCanSwitch()
    ensures WellFormed(BURIED, 1) && Unique(BURIED)
    ensures var c := Delete(Set(BURIED, 1, 16, 9), 1, 64);
            && WellFormed(c, 1) && Lookup(c, 1, 16) == Some(9)
            && Shaped(CompactShards(c, 2, false)) && Lookup(CompactShards(c, 2, false), 1, 16) == Some(1)
  {
    hide At, Pow2, CanCollapse, Collapse, Delete, Trie.Set, Gather, WellFormed, Unique;
    WithRootOk(BURIED[ROOT]);
    WithRootUnique(BURIED[ROOT]);
    Stored();
    Deleted();
    Routes();
    WithRootOk(STALE[ROOT]);
    Collapses();
    FirstHit(STALE, 1, 16, 0);
    var d := Collapse(STALE, ROOT);
    CollapseWellFormed(STALE, 1, ROOT);
    WellFormedShape(d, 1);
    FirstHit(d, 1, 16, 0);
    if CanCollapse(d, OTHER) {
      OffPath(d, 1, OTHER, 16);
    }
    assert CompactShards(STALE, 1, false) == d;
  }
}
