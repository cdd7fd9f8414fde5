/**
 Deletion and compaction of the inline-slot trie: what Delete removes, and why the
 collapses that pull children back into their parent change no answer.
 */
module TrieCompaction {
  import opened Machine
  import opened Trie

  const GRAVE := Slot(TOMBSTONE, 0)

  /** The trie after the tag's first occurrence has been tombstoned. */
  function Erase(c: Cells, bits: nat, tag: Word): (r: Cells)
    requires Shaped(c)
    ensures Shaped(r)
  {
    var e := HitDepth(c, bits, tag, 0);
    var p := At(tag, bits, e);
    if e <= MAX_DEPTH && p in c then c[p := c[p][Find(c[p], tag) := GRAVE]] else c
  }

  lemma EraseKeeps(c: Cells, bits: nat, tag: Word, u: Word)
    requires WellFormed(c, bits) && Live(tag) && Live(u)
    ensures WellFormed(Erase(c, bits, tag), bits)
    ensures forall q, j :: Sits(Erase(c, bits, tag), q, j, u) ==> Sits(c, q, j, u)
    ensures u != tag ==> Lookup(Erase(c, bits, tag), bits, u) == Lookup(c, bits, u)
  {
    hide At, Pow2, HitDepth, Find, Lookup;
    var e := HitDepth(c, bits, tag, 0);
    var p := At(tag, bits, e);
    if e <= MAX_DEPTH && p in c {
      var i := Find(c[p], tag);
      ChangeNode(c, bits, p, c[p][i := GRAVE]);
      if u != tag {
        SlotChangeFrame(c, bits, p, i, GRAVE, u);
      }
    }
  }

  /** Tombstoning forgets the tag if and only if it occurred at most once. */
  lemma EraseForgetsIffOnce(c: Cells, bits: nat, tag: Word)
    requires WellFormed(c, bits) && Live(tag)
    ensures Lookup(Erase(c, bits, tag), bits, tag) == None <==> OccursOnce(c, tag)
  {
    hide At, Pow2, HitDepth, Find;
    var d := Erase(c, bits, tag);
    EraseKeeps(c, bits, tag, tag);
    LookupFindsOccurrence(c, bits, tag);
    LookupFindsOccurrence(d, bits, tag);
    var e := HitDepth(c, bits, tag, 0);
    var p := At(tag, bits, e);
    if e <= MAX_DEPTH && p in c {
      var i := Find(c[p], tag);
      assert Sits(c, p, i, tag);
      assert forall q, j :: Sits(c, q, j, tag) ==> Sits(d, q, j, tag) || (q == p && j == i);
      assert !Sits(d, p, i, tag);
    }
  }

  // ---------- collapsing one node ----------

  /** The live slots of a node, in slot order. */
  function LiveOf(slots: seq<Slot>): (r: seq<Slot>)
    ensures forall k :: 0 <= k < |r| ==> Live(r[k].tag) && r[k] in slots
    ensures forall i :: 0 <= i < |slots| && Live(slots[i].tag) ==> slots[i] in r
  {
    if slots == [] then []
    else
      var rest := LiveOf(slots[1..]);
      assert forall i :: 1 <= i < |slots| ==> slots[i] == slots[1..][i - 1];
      if Free(slots[0]) then rest else [slots[0]] + rest
  }

  /** The live slots of the first b children of p, in branch order. */
  function Gather(c: Cells, p: Pos, b: nat): (r: seq<Slot>)
    requires b <= FANOUT
    ensures forall k :: 0 <= k < |r| ==>
      Live(r[k].tag) && exists x :: 0 <= x < b && Child(p, x) in c && r[k] in c[Child(p, x)]
    ensures forall x, i ::
      0 <= x < b && Child(p, x) in c && 0 <= i < |c[Child(p, x)]| && Live(c[Child(p, x)][i].tag) ==>
        c[Child(p, x)][i] in r
  {
    if b == 0 then []
    else
      var above := Gather(c, p, b - 1);
      if Child(p, b - 1) in c then above + LiveOf(c[Child(p, b - 1)]) else above
  }

  /** How many of the first i slots are free. */
  function FreeBefore(slots: seq<Slot>, i: nat): (n: nat)
    requires i <= |slots|
    ensures n <= i
  {
    if i == 0 then 0 else FreeBefore(slots, i - 1) + if Free(slots[i - 1]) then 1 else 0
  }

  /** The free slots filled, first to last, with the given entries. */
  function Fill(slots: seq<Slot>, entries: seq<Slot>): (r: seq<Slot>)
    ensures |r| == |slots|
  {
    seq(|slots|, i requires 0 <= i < |slots| =>
      var k := FreeBefore(slots, i);
      if Free(slots[i]) && k < |entries| then entries[k] else slots[i])
  }

  predicate HasGrandchild(c: Cells, p: Pos) {
    exists b, d :: 0 <= b < FANOUT && 0 <= d < FANOUT && Child(p, b) in c && Child(Child(p, b), d) in c
  }

  predicate CanCollapse(c: Cells, p: Pos) {
    && p in c
    && !HasGrandchild(c, p)
    && |Gather(c, p, FANOUT)| <= SLOTS
    && |Gather(c, p, FANOUT)| <= FreeBefore(c[p], |c[p]|)
  }

  predicate IsChild(q: Pos, p: Pos) {
    q.path != [] && Parent(q) == p
  }

  /** The trie after p's children have been pulled into p and detached. */
  function Collapse(c: Cells, p: Pos): (r: Cells)
    requires p in c
    ensures r.Keys == set q | q in c && !IsChild(q, p)
    ensures Shaped(c) ==> Shaped(r)
  {
    (map q | q in c && !IsChild(q, p) :: c[q])[p := Fill(c[p], Gather(c, p, FANOUT))]
  }

  lemma {:induction false} FreeBeforeMonotone(slots: seq<Slot>, i: nat, j: nat)
    requires i <= j <= |slots|
    ensures FreeBefore(slots, i) <= FreeBefore(slots, j)
    ensures i < j && Free(slots[i]) ==> FreeBefore(slots, i) < FreeBefore(slots, j)
    decreases j
  {
    if i < j {
      FreeBeforeMonotone(slots, i, j - 1);
    }
  }

  /** Every entry finds its own free slot when there are enough of them. */
  lemma {:induction false} FreeSlotFor(slots: seq<Slot>, k: nat, n: nat) returns (i: nat)
    requires n <= |slots| && k < FreeBefore(slots, n)
    ensures i < n && Free(slots[i]) && FreeBefore(slots, i) == k
    decreases n
  {
    if FreeBefore(slots, n - 1) > k {
      i := FreeSlotFor(slots, k, n - 1);
    } else {
      i := n - 1;
    }
  }

  lemma FillPacked(slots: seq<Slot>, entries: seq<Slot>)
    requires Packed(slots) && forall k :: 0 <= k < |entries| ==> Live(entries[k].tag)
    ensures Packed(Fill(slots, entries))
  {
    hide FreeBefore;
    var r := Fill(slots, entries);
    forall i, j | 0 <= i < j < |slots| && r[i].tag == EMPTY
      ensures r[j].tag == EMPTY
    {
      FreeBeforeMonotone(slots, i, j);
    }
  }

  // ---------- a collapse moves entries and nothing else ----------

  /** At most one of the slots holds the tag. */
  ghost predicate OnceIn(s: seq<Slot>, tag: Word) {
    forall i, j :: 0 <= i < j < |s| ==> s[i].tag != tag || s[j].tag != tag
  }

  lemma {:induction false} LiveOfOnce(slots: seq<Slot>, tag: Word)
    requires OnceIn(slots, tag)
    ensures OnceIn(LiveOf(slots), tag)
  {
    if slots != [] {
      assert OnceIn(slots[1..], tag);
      LiveOfOnce(slots[1..], tag);
      var rest := LiveOf(slots[1..]);
      assert forall k :: 0 <= k < |rest| ==> rest[k] in slots[1..];
    }
  }

  lemma GatheredSits(c: Cells, p: Pos, b: nat, k: nat)
    requires b <= FANOUT && k < |Gather(c, p, b)|
    ensures exists x, m :: 0 <= x < b && Sits(c, Child(p, x), m,
                                              Gather(c, p, b)[k].tag) && c[Child(p, x)][m] == Gather(c, p, b)[k]
  {
    hide Gather;
    var s := Gather(c, p, b)[k];
    var x :| 0 <= x < b && Child(p, x) in c && s in c[Child(p, x)];
    var m :| 0 <= m < |c[Child(p, x)]| && c[Child(p, x)][m] == s;
    assert Sits(c, Child(p, x), m, s.tag);
  }

  lemma NodeOnce(c: Cells, q: Pos, tag: Word)
    requires OccursOnce(c, tag) && q in c
    ensures OnceIn(c[q], tag)
  {
    forall i, j | 0 <= i < j < |c[q]| && c[q][i].tag == tag
      ensures c[q][j].tag != tag
    {
      assert Sits(c, q, i, tag);
      assert !Sits(c, q, j, tag);
    }
  }

  lemma GatherApart(c: Cells, p: Pos, b: nat, k: nat, s: Slot)
    requires b < FANOUT && k < |Gather(c, p, b)| && OccursOnce(c, s.tag)
    requires Child(p, b) in c && s in c[Child(p, b)]
    ensures Gather(c, p, b)[k].tag != s.tag
  {
    hide Gather;
    GatheredSits(c, p, b, k);
    var x, m :| 0 <= x < b && Sits(c, Child(p, x), m, Gather(c, p, b)[k].tag);
    var n :| 0 <= n < |c[Child(p, b)]| && c[Child(p, b)][n] == s;
    assert Sits(c, Child(p, b), n, s.tag);
    assert Child(p, x).path[|p.path|] != Child(p, b).path[|p.path|];
  }

  /** A tag that occurs once in the trie is gathered at most once. */
  lemma {:induction false} GatherOnce(c: Cells, p: Pos, b: nat, tag: Word)
    requires b <= FANOUT && OccursOnce(c, tag)
    ensures OnceIn(Gather(c, p, b), tag)
  {
    hide OccursOnce, LiveOf;
    if b > 0 {
      GatherOnce(c, p, b - 1, tag);
      var above, q := Gather(c, p, b - 1), Child(p, b - 1);
      if q in c {
        NodeOnce(c, q, tag);
        LiveOfOnce(c[q], tag);
        forall i, j | 0 <= i < |above| && 0 <= j < |LiveOf(c[q])| && LiveOf(c[q])[j].tag == tag
          ensures above[i].tag != tag
        {
          GatherApart(c, p, b - 1, i, LiveOf(c[q])[j]);
        }
      }
    }
  }

  /** Where every slot of the collapsed trie comes from. */
  lemma CollapsedFrom(c: Cells, p: Pos, q: Pos, j: nat, tag: Word)
    requires Shaped(c) && CanCollapse(c, p) && Live(tag) && Sits(Collapse(c, p), q, j, tag)
    ensures q in c && j < |c[q]|
    ensures q != p ==> Sits(c, q, j, tag) && Collapse(c, p)[q][j] == c[q][j] && !IsChild(q, p)
    ensures q == p && Live(c[p][j].tag) ==> Sits(c, p, j, tag) && Collapse(c, p)[p][j] == c[p][j]
    ensures q == p && !Live(c[p][j].tag) ==>
              && FreeBefore(c[p], j) < |Gather(c, p, FANOUT)|
              && Collapse(c, p)[p][j] == Gather(c, p, FANOUT)[FreeBefore(c[p], j)]
  {
    hide FreeBefore, Gather;
  }

  lemma ChildRoutesThroughParent(c: Cells, bits: nat, p: Pos, x: nat, m: int, tag: Word)
    requires WellFormed(c, bits) && Live(tag) && Sits(c, Child(p, x), m, tag)
    ensures At(tag, bits, |p.path|) == p
  {
    hide Pow2, Branch, ShardOf;
    var d := |p.path|;
    assert At(tag, bits, d + 1) == Child(p, x);
    assert Route(tag, bits, d) == Route(tag, bits, d + 1)[..d] == p.path;
  }

  lemma GrandchildSeen(c: Cells, bits: nat, p: Pos, q: Pos)
    requires WellFormed(c, bits) && q in c && q.path != [] && IsChild(Parent(q), p)
    ensures HasGrandchild(c, p)
  {
    hide At, Pow2;
    var r := Parent(q);
    var b, e := r.path[|p.path|], q.path[|p.path| + 1];
    assert r in c && r == Child(p, b) && q == Child(r, e);
  }

  lemma CollapseWellFormed(c: Cells, bits: nat, p: Pos)
    requires WellFormed(c, bits) && CanCollapse(c, p)
    ensures WellFormed(Collapse(c, p), bits)
  {
    hide At, Pow2, FreeBefore, Gather, Fill, Packed;
    var d := Collapse(c, p);
    var g := Gather(c, p, FANOUT);
    assert Packed(d[p]) by {
      FillPacked(c[p], g);
    }
    forall j | 0 <= j < SLOTS && Live(d[p][j].tag)
      ensures At(d[p][j].tag, bits, |p.path|) == p
    {
      assert Sits(d, p, j, d[p][j].tag);
      CollapsedFrom(c, p, p, j, d[p][j].tag);
      if !Live(c[p][j].tag) {
        GatheredSits(c, p, FANOUT, FreeBefore(c[p], j));
        var x, m :| 0 <= x < FANOUT && Sits(c, Child(p, x), m, d[p][j].tag);
        ChildRoutesThroughParent(c, bits, p, x, m, d[p][j].tag);
      }
    }
    assert NodeOk(p, d[p], bits);
    forall q | q in d && q.path != []
      ensures Parent(q) in d
    {
      assert Parent(q) in c;
      if IsChild(Parent(q), p) {
        GrandchildSeen(c, bits, p, q);
      }
    }
  }

  /** Of two slots of the collapsed node that were both filled, at most one holds a tag that occurs once. */
  lemma FilledOnce(c: Cells, p: Pos, tag: Word, i: nat, j: nat)
    requires Shaped(c) && CanCollapse(c, p) && OccursOnce(c, tag) && i < SLOTS && j < SLOTS && i != j
    requires Free(c[p][i]) && FreeBefore(c[p], i) < |Gather(c, p, FANOUT)|
    requires Free(c[p][j]) && FreeBefore(c[p], j) < |Gather(c, p, FANOUT)|
    ensures Gather(c, p, FANOUT)[FreeBefore(c[p], i)].tag != tag || Gather(c, p, FANOUT)[FreeBefore(c[p], j)].tag != tag
  {
    hide Gather, FreeBefore, OccursOnce;
    GatherOnce(c, p, FANOUT, tag);
    if i < j {
      FreeBeforeMonotone(c[p], i, j);
    } else {
      FreeBeforeMonotone(c[p], j, i);
    }
  }

  /** An entry pulled up from a child, with a tag that occurs once, sat nowhere but in that child. */
  lemma PulledSatBelow(c: Cells, p: Pos, k: nat, q: Pos, j: int)
    requires CanCollapse(c, p) && k < |Gather(c, p, FANOUT)| && OccursOnce(c, Gather(c, p, FANOUT)[k].tag)
    requires Sits(c, q, j, Gather(c, p, FANOUT)[k].tag)
    ensures IsChild(q, p)
  {
    hide Gather, CanCollapse, FreeBefore;
    GatheredSits(c, p, FANOUT, k);
    var x, m :| 0 <= x < FANOUT && Sits(c, Child(p, x), m, Gather(c, p, FANOUT)[k].tag);
    assert q == Child(p, x);
    assert Parent(Child(p, x)) == p;
  }

  lemma CollapseSitsOnce(c: Cells, p: Pos, tag: Word, q: Pos, i: nat, r: Pos, j: nat)
    requires Shaped(c) && CanCollapse(c, p) && OccursOnce(c, tag) && Live(tag)
    requires Sits(Collapse(c, p), q, i, tag) && Sits(Collapse(c, p), r, j, tag)
    ensures q == r && i == j
  {
    hide Gather, FreeBefore, Collapse;
    CollapsedFrom(c, p, q, i, tag);
    CollapsedFrom(c, p, r, j, tag);
    var pulledQ := q == p && Free(c[p][i]);
    var pulledR := r == p && Free(c[p][j]);
    if pulledQ && !pulledR {
      PulledSatBelow(c, p, FreeBefore(c[p], i), r, j);
      assert false;
    } else if pulledR && !pulledQ {
      PulledSatBelow(c, p, FreeBefore(c[p], j), q, i);
      assert false;
    } else if pulledQ && i != j {
      FilledOnce(c, p, tag, i, j);
      assert false;
    }
  }

  /** A collapse duplicates no tag. */
  lemma CollapseOccursOnce(c: Cells, p: Pos, tag: Word)
    requires Shaped(c) && CanCollapse(c, p) && OccursOnce(c, tag) && Live(tag)
    ensures OccursOnce(Collapse(c, p), tag)
  {
    hide Gather, FreeBefore, Collapse, HasGrandchild;
    forall q, i, r, j | Sits(Collapse(c, p), q, i, tag) && Sits(Collapse(c, p), r, j, tag)
      ensures q == r && i == j
    {
      CollapseSitsOnce(c, p, tag, q, i, r, j);
    }
  }

  /** A collapse neither loses nor invents an entry. */
  lemma CollapseEntries(c: Cells, bits: nat, p: Pos, tag: Word, val: Word)
    requires WellFormed(c, bits) && CanCollapse(c, p) && Live(tag)
    ensures Entry(Collapse(c, p), tag, val) <==> Entry(c, tag, val)
  {
    hide At, Pow2, Gather, FreeBefore, Collapse;
    var d := Collapse(c, p);
    if Entry(d, tag, val) {
      var q, i :| Sits(d, q, i, tag) && d[q][i].val == val;
      CollapsedFrom(c, p, q, i, tag);
      if q == p && Free(c[p][i]) {
        GatheredSits(c, p, FANOUT, FreeBefore(c[p], i));
      }
    }
    if Entry(c, tag, val) {
      var q, i :| Sits(c, q, i, tag) && c[q][i].val == val;
      var r, j := CollapsedTo(c, bits, p, q, i, tag);
    }
  }

  /** Where every live slot goes. */
  lemma CollapsedTo(c: Cells, bits: nat, p: Pos, q: Pos, i: nat, tag: Word) returns (r: Pos, j: nat)
    requires WellFormed(c, bits) && CanCollapse(c, p) && Live(tag) && Sits(c, q, i, tag)
    ensures Sits(Collapse(c, p), r, j, tag) && Collapse(c, p)[r][j] == c[q][i]
  {
    hide WellFormed, Gather, FreeBefore, HasGrandchild, Live, IsChild;
    if IsChild(q, p) {
      var k := GatheredAt(c, bits, p, q, i);
      r := p;
      j := FreeSlotFor(c[p], k, |c[p]|);
    } else {
      NoOwnChild(p);
      r, j := q, i;
      LiveStays(c, p, q, i);
    }
  }

  lemma NoOwnChild(p: Pos)
    ensures !IsChild(p, p)
  {}

  lemma LiveStays(c: Cells, p: Pos, q: Pos, i: nat)
    requires p in c && q in c && i < |c[q]| && Live(c[q][i].tag) && !IsChild(q, p)
    ensures q in Collapse(c, p) && i < |Collapse(c, p)[q]| && Collapse(c, p)[q][i] == c[q][i]
  {
    hide Gather, FreeBefore, IsChild;
  }

  /** The place of a child's live slot among the gathered ones. */
  lemma GatheredAt(c: Cells, bits: nat, p: Pos, q: Pos, i: nat) returns (k: nat)
    requires WellFormed(c, bits) && q in c && IsChild(q, p) && i < |c[q]| && Live(c[q][i].tag)
    ensures k < |Gather(c, p, FANOUT)| && Gather(c, p, FANOUT)[k] == c[q][i]
  {
    hide At, Pow2, Gather;
    var x, g := q.path[|p.path|], Gather(c, p, FANOUT);
    assert q == Child(p, x);
    assert c[Child(p, x)][i] in g;
    var m :| 0 <= m < |g| && g[m] == c[q][i];
    k := m;
  }

  // ---------- whole operations ----------

  /** Collapses the ancestors of depth d - 1, d - 2, ... on the tag's path until one refuses. */
  function CollapseUp(c: Cells, bits: nat, tag: Word, d: nat): (r: Cells)
    ensures Shaped(c) ==> Shaped(r)
    decreases d
  {
    if d == 0 || !CanCollapse(c, At(tag, bits, d - 1)) then c
    else CollapseUp(Collapse(c, At(tag, bits, d - 1)), bits, tag, d - 1)
  }

  /** The trie after Delete: tombstone the first occurrence, then collapse upward from its node. */
  function Delete(c: Cells, bits: nat, tag: Word): (r: Cells)
    requires Shaped(c)
    ensures Shaped(r)
  {
    if Lookup(c, bits, tag).None? then c
    else CollapseUp(Erase(c, bits, tag), bits, tag, HitDepth(c, bits, tag, 0))
  }

  /** One node collapsed if it can be. */
  function TryCollapse(c: Cells, p: Pos): Cells {
    if CanCollapse(c, p) then Collapse(c, p) else c
  }

  /** Post-order compaction of the subtrees of the first b children of p. */
  function CompactKids(c: Cells, p: Pos, b: nat): Cells
    requires b <= FANOUT && |p.path| <= MAX_DEPTH
    decreases MAX_DEPTH + 1 - |p.path|, b
  {
    if b == 0 then c
    else
      var d := CompactKids(c, p, b - 1);
      if Child(p, b - 1) in d && |p.path| < MAX_DEPTH then DeepCompact(d, Child(p, b - 1)) else d
  }

  /** Post-order compaction of the subtree of p. */
  function DeepCompact(c: Cells, p: Pos): Cells
    requires |p.path| <= MAX_DEPTH
    decreases MAX_DEPTH + 1 - |p.path|, FANOUT + 1
  {
    TryCollapse(CompactKids(c, p, FANOUT), p)
  }

  /** The first n shards compacted, deeply or one level. */
  function CompactShards(c: Cells, n: nat, deep: bool): Cells {
    if n == 0 then c
    else
      var d := CompactShards(c, n - 1, deep);
      if deep then DeepCompact(d, Pos(n - 1, [])) else TryCollapse(d, Pos(n - 1, []))
  }

  /** d is well formed, holds the tag with exactly the values it has in c, and did not duplicate it. */
  ghost predicate Keeps(c: Cells, d: Cells, bits: nat, tag: Word) {
    && WellFormed(d, bits)
    && (OccursOnce(c, tag) ==> OccursOnce(d, tag))
    && forall val :: Entry(d, tag, val) <==> Entry(c, tag, val)
  }

  lemma KeepsSelf(c: Cells, bits: nat, tag: Word)
    requires WellFormed(c, bits)
    ensures Keeps(c, c, bits, tag)
  {}

  lemma KeepsTrans(c: Cells, d: Cells, e: Cells, bits: nat, tag: Word)
    requires Keeps(c, d, bits, tag) && Keeps(d, e, bits, tag)
    ensures Keeps(c, e, bits, tag)
  {
    hide WellFormed, OccursOnce, Entry;
  }

  lemma TryCollapseKeeps(c: Cells, bits: nat, p: Pos, tag: Word)
    requires WellFormed(c, bits) && Live(tag)
    ensures Keeps(c, TryCollapse(c, p), bits, tag)
  {
    hide WellFormed, OccursOnce, Entry, CanCollapse, Collapse;
    if CanCollapse(c, p) {
      CollapsePremises(c, bits, p);
      CollapseWellFormed(c, bits, p);
      if OccursOnce(c, tag) {
        CollapseOccursOnce(c, p, tag);
      }
      forall val
        ensures Entry(Collapse(c, p), tag, val) <==> Entry(c, tag, val)
      {
        CollapseEntries(c, bits, p, tag, val);
      }
    }
  }

  lemma CollapsePremises(c: Cells, bits: nat, p: Pos)
    requires WellFormed(c, bits) && CanCollapse(c, p)
    ensures Shaped(c) && p in c
  {
    hide At, Pow2, Gather, FreeBefore;
  }

  lemma KeepsWellFormed(c: Cells, d: Cells, bits: nat, tag: Word)
    requires Keeps(c, d, bits, tag)
    ensures WellFormed(d, bits)
  {}

  lemma {:induction false} CollapseUpKeeps(c: Cells, bits: nat, tag: Word, d: nat, u: Word)
    requires WellFormed(c, bits) && Live(u)
    ensures Keeps(c, CollapseUp(c, bits, tag, d), bits, u)
    decreases d
  {
    hide WellFormed, CanCollapse, Collapse, Keeps;
    KeepsSelf(c, bits, u);
    if d > 0 && CanCollapse(c, At(tag, bits, d - 1)) {
      var p := At(tag, bits, d - 1);
      CollapsePremises(c, bits, p);
      TryCollapseKeeps(c, bits, p, u);
      KeepsWellFormed(c, Collapse(c, p), bits, u);
      CollapseUpKeeps(Collapse(c, p), bits, tag, d - 1, u);
      KeepsTrans(c, Collapse(c, p), CollapseUp(Collapse(c, p), bits, tag, d - 1), bits, u);
    }
  }

  lemma {:induction false} CompactKidsKeeps(c: Cells, bits: nat, p: Pos, b: nat, tag: Word)
    requires WellFormed(c, bits) && b <= FANOUT && |p.path| <= MAX_DEPTH && Live(tag)
    ensures Keeps(c, CompactKids(c, p, b), bits, tag)
    decreases MAX_DEPTH + 1 - |p.path|, b
  {
    hide WellFormed, TryCollapse, Keeps;
    if b == 0 {
      KeepsSelf(c, bits, tag);
    } else {
      CompactKidsKeeps(c, bits, p, b - 1, tag);
      var d := CompactKids(c, p, b - 1);
      if Child(p, b - 1) in d && |p.path| < MAX_DEPTH {
        KeepsWellFormed(c, d, bits, tag);
        DeepCompactKeeps(d, bits, Child(p, b - 1), tag);
        KeepsTrans(c, d, DeepCompact(d, Child(p, b - 1)), bits, tag);
      }
    }
  }

  lemma {:induction false} DeepCompactKeeps(c: Cells, bits: nat, p: Pos, tag: Word)
    requires WellFormed(c, bits) && |p.path| <= MAX_DEPTH && Live(tag)
    ensures Keeps(c, DeepCompact(c, p), bits, tag)
    decreases MAX_DEPTH + 1 - |p.path|, FANOUT + 1
  {
    hide WellFormed, TryCollapse, Keeps;
    CompactKidsKeeps(c, bits, p, FANOUT, tag);
    var d := CompactKids(c, p, FANOUT);
    KeepsWellFormed(c, d, bits, tag);
    TryCollapseKeeps(d, bits, p, tag);
    KeepsTrans(c, d, TryCollapse(d, p), bits, tag);
  }

  lemma {:induction false} CompactShardsKeeps(c: Cells, bits: nat, n: nat, deep: bool, tag: Word)
    requires WellFormed(c, bits) && Live(tag)
    ensures Keeps(c, CompactShards(c, n, deep), bits, tag)
  {
    hide WellFormed, TryCollapse, DeepCompact, Keeps;
    if n == 0 {
      KeepsSelf(c, bits, tag);
    } else {
      CompactShardsKeeps(c, bits, n - 1, deep, tag);
      var d, root := CompactShards(c, n - 1, deep), Pos(n - 1, []);
      KeepsWellFormed(c, d, bits, tag);
      if deep {
        DeepCompactKeeps(d, bits, root, tag);
        KeepsTrans(c, d, DeepCompact(d, root), bits, tag);
      } else {
        TryCollapseKeeps(d, bits, root, tag);
        KeepsTrans(c, d, TryCollapse(d, root), bits, tag);
      }
    }
  }

  // ---------- counting live entries ----------

  ghost function LiveSlots(c: Cells): set<(Pos, int)> {
    set p, i | p in c && 0 <= i < |c[p]| && Live(c[p][i].tag) :: (p, i)
  }

  /** The live slots among the first n of one node. */
  ghost function LiveHere(slots: seq<Slot>, p: Pos, n: nat): set<(Pos, int)>
    requires n <= |slots|
  {
    set i | 0 <= i < n && Live(slots[i].tag) :: (p, i)
  }

  /** The live slots of the first b children of p. */
  ghost function LiveBelow(c: Cells, p: Pos, b: nat): set<(Pos, int)> {
    set x, i | 0 <= x < b && Child(p, x) in c && 0 <= i < |c[Child(p, x)]| && Live(c[Child(p, x)][i].tag) ::
      (Child(p, x), i)
  }

  lemma {:induction false} LiveHereCount(slots: seq<Slot>, p: Pos, n: nat)
    requires n <= |slots|
    ensures |LiveHere(slots, p, n)| == n - FreeBefore(slots, n)
  {
    if n == 0 {
      assert LiveHere(slots, p, 0) == {};
    } else {
      LiveHereCount(slots, p, n - 1);
      var above := LiveHere(slots, p, n - 1);
      if Free(slots[n - 1]) {
        assert LiveHere(slots, p, n) == above;
      } else {
        assert LiveHere(slots, p, n) == above + {(p, n - 1)};
      }
    }
  }

  lemma {:induction false} FreeShift(slots: seq<Slot>, n: nat)
    requires 0 < n <= |slots|
    ensures FreeBefore(slots, n) == FreeBefore(slots[1..], n - 1) + if Free(slots[0]) then 1 else 0
  {
    if n > 1 {
      FreeShift(slots, n - 1);
    }
  }

  lemma {:induction false} LiveOfLength(slots: seq<Slot>)
    ensures |LiveOf(slots)| == |slots| - FreeBefore(slots, |slots|)
  {
    if slots != [] {
      FreeShift(slots, |slots|);
      LiveOfLength(slots[1..]);
    }
  }

  lemma LiveBelowStep(c: Cells, p: Pos, b: nat)
    ensures var q := Child(p, b);
            if q in c then
              && LiveBelow(c, p, b + 1) == LiveBelow(c, p, b) + LiveHere(c[q], q, |c[q]|)
              && LiveBelow(c, p, b) !! LiveHere(c[q], q, |c[q]|)
            else LiveBelow(c, p, b + 1) == LiveBelow(c, p, b)
  {
    hide Live;
    forall x | 0 <= x < b
      ensures Child(p, x) != Child(p, b)
    {
      assert Child(p, x).path[|p.path|] != Child(p, b).path[|p.path|];
    }
  }

  lemma {:induction false} LiveBelowCount(c: Cells, p: Pos, b: nat)
    requires b <= FANOUT
    ensures |LiveBelow(c, p, b)| == |Gather(c, p, b)|
  {
    hide LiveBelow, LiveOf;
    if b == 0 {
      NoLiveBelow(c, p);
    } else {
      LiveBelowCount(c, p, b - 1);
      LiveBelowAdds(c, p, b - 1);
    }
  }

  lemma NoLiveBelow(c: Cells, p: Pos)
    ensures LiveBelow(c, p, 0) == {}
  {}

  lemma LiveBelowAdds(c: Cells, p: Pos, b: nat)
    requires b < FANOUT && |LiveBelow(c, p, b)| == |Gather(c, p, b)|
    ensures |LiveBelow(c, p, b + 1)| == |Gather(c, p, b + 1)|
  {
    hide LiveOf, FreeBefore, LiveBelow, LiveHere, Child;
    LiveBelowStep(c, p, b);
    var q := Child(p, b);
    if q in c {
      LiveHereCount(c[q], q, |c[q]|);
      LiveOfLength(c[q]);
    }
  }

  lemma {:induction false} FillFree(slots: seq<Slot>, entries: seq<Slot>, n: nat)
    requires n <= |slots| && forall k :: 0 <= k < |entries| ==> Live(entries[k].tag)
    ensures FreeBefore(Fill(slots, entries), n) ==
            if FreeBefore(slots, n) > |entries| then FreeBefore(slots, n) - |entries| else 0
  {
    if n > 0 {
      FillFree(slots, entries, n - 1);
    }
  }

  /** The live slots away from p and its children, which a collapse of p leaves alone. */
  ghost function LiveElsewhere(c: Cells, p: Pos): set<(Pos, int)> {
    set s | s in LiveSlots(c) && s.0 != p && !IsChild(s.0, p)
  }

  lemma CollapsedLive(c: Cells, p: Pos)
    requires CanCollapse(c, p)
    ensures var d := Collapse(c, p);
            && |d[p]| == |c[p]| && d[p] == Fill(c[p], Gather(c, p, FANOUT))
            && LiveSlots(d) == LiveElsewhere(c, p) + LiveHere(d[p], p, |d[p]|)
            && LiveElsewhere(c, p) !! LiveHere(d[p], p, |d[p]|)
  {
    hide FreeBefore, Gather, Fill, IsChild, Live, HasGrandchild;
    NoOwnChild(p);
  }

  /** A collapse keeps the number of live slots, duplicates or not. */
  lemma CollapseCount(c: Cells, bits: nat, p: Pos)
    requires WellFormed(c, bits) && CanCollapse(c, p)
    ensures |LiveSlots(Collapse(c, p))| == |LiveSlots(c)|
  {
    hide WellFormed, FreeBefore, Gather, Fill, Collapse, LiveSlots, LiveElsewhere, LiveHere, LiveBelow, HasGrandchild;
    var d, n, g := Collapse(c, p), |c[p]|, Gather(c, p, FANOUT);
    CountSplit(c, bits, p);
    CollapsedLive(c, p);
    LiveHereCount(c[p], p, n);
    LiveHereCount(d[p], p, n);
    FillFree(c[p], g, n);
    LiveBelowCount(c, p, FANOUT);
  }

  lemma CountSplit(c: Cells, bits: nat, p: Pos)
    requires WellFormed(c, bits) && p in c
    ensures |LiveSlots(c)| == |LiveElsewhere(c, p)| + |LiveHere(c[p], p, |c[p]|)| + |LiveBelow(c, p, FANOUT)|
  {
    hide At, Pow2;
    var rest, here, below := LiveElsewhere(c, p), LiveHere(c[p], p, |c[p]|), LiveBelow(c, p, FANOUT);
    forall q | q in c && IsChild(q, p)
      ensures exists x :: 0 <= x < FANOUT && q == Child(p, x)
    {
      assert q == Child(p, q.path[|p.path|]);
    }
    forall x | 0 <= x < FANOUT
      ensures IsChild(Child(p, x), p) && Child(p, x) != p
    {
      assert Parent(Child(p, x)) == p;
    }
    assert LiveSlots(c) == rest + here + below;
    assert rest !! here && (rest + here) !! below;
  }

  lemma TryCollapseCount(c: Cells, bits: nat, p: Pos)
    requires WellFormed(c, bits)
    ensures WellFormed(TryCollapse(c, p), bits) && |LiveSlots(TryCollapse(c, p))| == |LiveSlots(c)|
  {
    hide WellFormed, CanCollapse, Collapse, LiveSlots;
    if CanCollapse(c, p) {
      CollapsePremises(c, bits, p);
      CollapseWellFormed(c, bits, p);
      CollapseCount(c, bits, p);
    }
  }

  lemma {:induction false} CompactKidsCount(c: Cells, bits: nat, p: Pos, b: nat)
    requires WellFormed(c, bits) && b <= FANOUT && |p.path| <= MAX_DEPTH
    ensures WellFormed(CompactKids(c, p, b), bits) && |LiveSlots(CompactKids(c, p, b))| == |LiveSlots(c)|
    decreases MAX_DEPTH + 1 - |p.path|, b
  {
    hide WellFormed, TryCollapse, LiveSlots;
    if b > 0 {
      CompactKidsCount(c, bits, p, b - 1);
      var d := CompactKids(c, p, b - 1);
      if Child(p, b - 1) in d && |p.path| < MAX_DEPTH {
        DeepCompactCount(d, bits, Child(p, b - 1));
      }
    }
  }

  lemma {:induction false} DeepCompactCount(c: Cells, bits: nat, p: Pos)
    requires WellFormed(c, bits) && |p.path| <= MAX_DEPTH
    ensures WellFormed(DeepCompact(c, p), bits) && |LiveSlots(DeepCompact(c, p))| == |LiveSlots(c)|
    decreases MAX_DEPTH + 1 - |p.path|, FANOUT + 1
  {
    hide WellFormed, TryCollapse, LiveSlots;
    CompactKidsCount(c, bits, p, FANOUT);
    TryCollapseCount(CompactKids(c, p, FANOUT), bits, p);
  }

  lemma {:induction false} CompactShardsCount(c: Cells, bits: nat, n: nat, deep: bool)
    requires WellFormed(c, bits)
    ensures WellFormed(CompactShards(c, n, deep), bits) && |LiveSlots(CompactShards(c, n, deep))| == |LiveSlots(c)|
  {
    hide WellFormed, TryCollapse, DeepCompact, LiveSlots;
    if n > 0 {
      CompactShardsCount(c, bits, n - 1, deep);
      var d := CompactShards(c, n - 1, deep);
      if deep {
        DeepCompactCount(d, bits, Pos(n - 1, []));
      } else {
        TryCollapseCount(d, bits, Pos(n - 1, []));
      }
    }
  }

  // ---------- whole operations change no answer ----------

  /** A tag that occurs once is answered alike by every trie that keeps it. */
  lemma KeptAnswer(c: Cells, d: Cells, bits: nat, tag: Word)
    requires WellFormed(c, bits) && Keeps(c, d, bits, tag) && Live(tag) && OccursOnce(c, tag)
    ensures Lookup(d, bits, tag) == Lookup(c, bits, tag)
  {
    hide WellFormed, OccursOnce, Entry, Lookup;
    SameEntriesSameLookup(c, d, bits, tag);
  }

  /**
   CompactAll and DeepCompactAll keep every entry and the number of live slots, duplicate no tag,
   and change no Get of a tag that occurs once.
   */
  lemma CompactionPreserves(c: Cells, bits: nat, n: nat, deep: bool, tag: Word)
    requires WellFormed(c, bits) && Live(tag)
    ensures var d := CompactShards(c, n, deep);
            && WellFormed(d, bits) && |LiveSlots(d)| == |LiveSlots(c)|
            && (forall val :: Entry(d, tag, val) <==> Entry(c, tag, val))
            && (OccursOnce(c, tag) ==> OccursOnce(d, tag) && Lookup(d, bits, tag) == Lookup(c, bits, tag))
  {
    hide WellFormed, OccursOnce, Entry, Lookup, LiveSlots, CompactShards;
    CompactShardsKeeps(c, bits, n, deep, tag);
    CompactShardsCount(c, bits, n, deep);
    if OccursOnce(c, tag) {
      KeptAnswer(c, CompactShards(c, n, deep), bits, tag);
    }
  }

  /**
   Delete makes a tag that occurs once unreadable, changes no Get of another tag that occurs
   once, and duplicates no tag.
   */
  lemma DeleteRemovesExactly(c: Cells, bits: nat, tag: Word, u: Word)
    requires WellFormed(c, bits) && Live(tag) && Live(u) && OccursOnce(c, u)
    ensures var d := Delete(c, bits, tag);
            && WellFormed(d, bits) && OccursOnce(d, u)
            && Lookup(d, bits, u) == if u == tag then None else Lookup(c, bits, u)
  {
    hide Lookup, CollapseUp, Erase, WellFormed, Keeps;
    WellFormedShape(c, bits);
    if Lookup(c, bits, tag).Some? {
      var e := Erase(c, bits, tag);
      EraseKeeps(c, bits, tag, u);
      EraseForgetsIffOnce(c, bits, tag);
      CollapseUpKeeps(e, bits, tag, HitDepth(c, bits, tag, 0), u);
      KeepsOnce(e, Delete(c, bits, tag), bits, u);
      KeptAnswer(e, Delete(c, bits, tag), bits, u);
    }
  }

  lemma WellFormedShape(c: Cells, bits: nat)
    requires WellFormed(c, bits)
    ensures Shaped(c)
  {}

  lemma KeepsOnce(c: Cells, d: Cells, bits: nat, tag: Word)
    requires Keeps(c, d, bits, tag) && OccursOnce(c, tag)
    ensures WellFormed(d, bits) && OccursOnce(d, tag)
  {}

  // ---------- duplicates: exactly when Delete forgets ----------

  /** In any well-formed trie, Delete makes the tag unreadable if and only if it occurred at most once. */
  lemma DeleteForgetsIffOnce(c: Cells, bits: nat, tag: Word)
    requires WellFormed(c, bits) && Live(tag)
    ensures WellFormed(Delete(c, bits, tag), bits)
    ensures Lookup(Delete(c, bits, tag), bits, tag) == None <==> OccursOnce(c, tag)
  {
    hide Lookup, CollapseUp, Erase;
    LookupFindsOccurrence(c, bits, tag);
    if Lookup(c, bits, tag).Some? {
      var e, d := Erase(c, bits, tag), Delete(c, bits, tag);
      EraseKeeps(c, bits, tag, tag);
      EraseForgetsIffOnce(c, bits, tag);
      CollapseUpKeeps(e, bits, tag, HitDepth(c, bits, tag, 0), tag);
      SomeIffEntry(d, bits, tag);
      SomeIffEntry(e, bits, tag);
    }
  }

  lemma SomeIffEntry(c: Cells, bits: nat, tag: Word)
    requires WellFormed(c, bits) && Live(tag)
    ensures Lookup(c, bits, tag).Some? <==> exists val :: Entry(c, tag, val)
  {
    hide Lookup;
    LookupFindsOccurrence(c, bits, tag);
  }

  /**
   A tag that was just stored is forgotten by Delete exactly when no free slot lay above
   its previous slot; otherwise Delete uncovers the older copy.
   */
  lemma DeleteAfterSetForgetsIff(c: Cells, bits: nat, tag: Word, val: Word)
    requires WellFormed(c, bits) && Unique(c) && Live(tag)
    ensures Lookup(Delete(Set(c, bits, tag, val), bits, tag), bits, tag) == None <==> !FreeAbove(c, bits, tag)
  {
    hide Lookup, Delete, FreeAbove;
    SetWellFormed(c, bits, tag, val);
    var d := Set(c, bits, tag, val);
    DeleteForgetsIffOnce(d, bits, tag);
    SetKeepsUnique(c, bits, tag, val);
    SetTouchesOnly(c, bits, tag, val);
  }

  /** Set can only duplicate the tag it stores. */
  lemma SetTouchesOnly(c: Cells, bits: nat, tag: Word, val: Word)
    requires WellFormed(c, bits) && Unique(c) && Live(tag)
    ensures Unique(Set(c, bits, tag, val)) <==> OccursOnce(Set(c, bits, tag, val), tag)
  {
    hide At, Pow2, SetDepth, InsertSlot;
    var d := Set(c, bits, tag, val);
    assert forall q, j, u :: Live(u) && u != tag && Sits(d, q, j, u) ==> Sits(c, q, j, u);
    if OccursOnce(d, tag) {
      forall u: Word | Live(u)
        ensures OccursOnce(d, u)
      {
        assert OccursOnce(c, u);
      }
    }
  }
}
