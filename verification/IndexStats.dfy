/**
 Counting: the recursive per-shard statistics, the pool's own node count, and why they
 agree with the set of positions and the set of live slots.
 */
module IndexStats {
  import opened Trie
  import opened TrieCompaction
  import opened NodePool
  import opened Index

  predicate Below(q: Pos, p: Pos) {
    q.shard == p.shard && p.path <= q.path
  }

  /** The positions at or below p. */
  ghost function Under(at: map<Pos, nat>, p: Pos): set<Pos> {
    set q | q in at && Below(q, p)
  }

  /** The positions strictly below p whose first branch is less than b. */
  ghost function UnderKids(at: map<Pos, nat>, p: Pos, b: nat): set<Pos> {
    set q | q in at && Below(q, p) && |q.path| > |p.path| && q.path[|p.path|] < b
  }

  /** The live slots at or below p. */
  ghost function LiveUnder(c: Cells, p: Pos): set<(Pos, int)> {
    set s | s in LiveSlots(c) && Below(s.0, p)
  }

  ghost function LiveUnderKids(c: Cells, p: Pos, b: nat): set<(Pos, int)> {
    set s | s in LiveSlots(c) && Below(s.0, p) && |s.0.path| > |p.path| && s.0.path[|p.path|] < b
  }

  ghost function LiveAt(c: Cells, p: Pos, n: nat): set<(Pos, int)>
    requires p in c && n <= |c[p]|
  {
    set i | 0 <= i < n && Live(c[p][i].tag) :: (p, i)
  }

  /** Positions reach up to the root: below an absent node there is nothing. */
  lemma {:induction false} NothingBelow(c: Cells, bits: nat, p: Pos, q: Pos)
    requires WellFormed(c, bits) && p !in c && Below(q, p)
    ensures q !in c
    decreases |q.path|
  {
    hide At, Pow2, NodeOk;
    if q.path != p.path {
      NothingBelow(c, bits, p, Parent(q));
      assert Parent(q) !in c;
    } else {
      assert q == p;
    }
  }

  lemma BranchOfBelow(q: Pos, p: Pos, b: nat)
    ensures Below(q, Child(p, b)) <==> Below(q, p) && |q.path| > |p.path| && q.path[|p.path|] == b
  {
    if Below(q, p) && |q.path| > |p.path| && q.path[|p.path|] == b {
      assert q.path[..|p.path| + 1] == p.path + [b];
    }
    if Below(q, Child(p, b)) {
      assert (p.path + [b])[..|p.path|] == p.path;
      assert q.path[..|p.path|] == p.path;
    }
  }

  lemma KidsStep(at: map<Pos, nat>, c: Cells, p: Pos, b: nat)
    requires c.Keys == at.Keys
    ensures |UnderKids(at, p, b + 1)| == |UnderKids(at, p, b)| + |Under(at, Child(p, b))|
    ensures |LiveUnderKids(c, p, b + 1)| == |LiveUnderKids(c, p, b)| + |LiveUnder(c, Child(p, b))|
  {
    forall q: Pos
      ensures Below(q, Child(p, b)) <==> Below(q, p) && |q.path| > |p.path| && q.path[|p.path|] == b
    {
      BranchOfBelow(q, p, b);
    }
    hide Below, LiveSlots;
    assert UnderKids(at, p, b + 1) == UnderKids(at, p, b) + Under(at, Child(p, b));
    assert UnderKids(at, p, b) !! Under(at, Child(p, b));
    assert LiveUnderKids(c, p, b + 1) == LiveUnderKids(c, p, b) + LiveUnder(c, Child(p, b));
    assert LiveUnderKids(c, p, b) !! LiveUnder(c, Child(p, b));
  }

  lemma KidsNone(at: map<Pos, nat>, c: Cells, p: Pos)
    ensures UnderKids(at, p, 0) == {} && LiveUnderKids(c, p, 0) == {}
  {
    hide LiveSlots;
  }

  lemma KidsAll(at: map<Pos, nat>, c: Cells, bits: nat, p: Pos)
    requires WellFormed(c, bits) && c.Keys == at.Keys && p in at
    ensures |Under(at, p)| == 1 + |UnderKids(at, p, FANOUT)|
    ensures |c[p]| == SLOTS && |LiveUnder(c, p)| == |LiveAt(c, p, SLOTS)| + |LiveUnderKids(c, p, FANOUT)|
  {
    hide At, Pow2;
    assert forall q :: q in at && Below(q, p) && |q.path| == |p.path| ==> q == p;
    assert forall q :: q in c && |q.path| > |p.path| ==> q.path[|p.path|] < FANOUT;
    assert Under(at, p) == {p} + UnderKids(at, p, FANOUT);
    assert LiveUnder(c, p) == LiveAt(c, p, SLOTS) + LiveUnderKids(c, p, FANOUT);
  }

  lemma LiveAtStep(c: Cells, p: Pos, n: nat)
    requires p in c && n < |c[p]|
    ensures |LiveAt(c, p, n + 1)| == |LiveAt(c, p, n)| + if Live(c[p][n].tag) then 1 else 0
  {
    if Live(c[p][n].tag) {
      assert LiveAt(c, p, n + 1) == LiveAt(c, p, n) + {(p, n)};
    } else {
      assert LiveAt(c, p, n + 1) == LiveAt(c, p, n);
    }
  }

  lemma NothingUnder(at: map<Pos, nat>, c: Cells, bits: nat, p: Pos)
    requires WellFormed(c, bits) && c.Keys == at.Keys && p !in at
    ensures Under(at, p) == {} && LiveUnder(c, p) == {}
  {
    forall q | q in at && Below(q, p)
      ensures false
    {
      NothingBelow(c, bits, p, q);
    }
  }

  /** statsNode: live entries and nodes of the subtree of p, counted recursively. */
  method StatsNode(index: InlineIndex, idx: nat, ghost p: Pos) returns (entries: nat, count: nat)
    requires index.Valid()
    requires idx == if p in index.at then index.at[p] else NULL_CHILD
    ensures count == |Under(index.at, p)|
    ensures entries == |LiveUnder(index.Cells(), p)|
    decreases MAX_DEPTH + 1 - |p.path|
  {
    hide Linked, Partition, PoolOk, RootsOk, CellsOf, WellFormed, Below, LiveSlots, FilterOk;
    InTrie(index.nodes, index.at, index.next);
    TrieDomain(index.nodes, index.at, index.next, index.bits);
    ghost var c := index.Cells();
    if idx == NULL_CHILD {
      NothingUnder(index.at, c, index.bits, p);
      return 0, 0;
    }
    DepthBound(index.nodes, index.at, index.next, index.bits, p);
    LinkedAt(index.nodes, index.at, index.next, p);
    var node := index.nodes[idx];
    entries, count := 0, 1;
    assert LiveAt(c, p, 0) == {};
    for i: nat := 0 to SLOTS
      invariant entries == |LiveAt(c, p, i)|
    {
      LiveAtStep(c, p, i);
      if Live(node.slots[i].tag) {
        entries := entries + 1;
      }
    }
    KidsNone(index.at, c, p);
    for b: nat := 0 to FANOUT
      invariant count == 1 + |UnderKids(index.at, p, b)|
      invariant entries == |LiveAt(c, p, SLOTS)| + |LiveUnderKids(c, p, b)|
    {
      var e, n := StatsNode(index, node.kids[b], Child(p, b));
      KidsStep(index.at, c, p, b);
      entries, count := entries + e, count + n;
    }
    KidsAll(index.at, c, index.bits, p);
  }

  /** Stats of one shard. */
  method Stats(index: InlineIndex, shard: nat) returns (entries: nat, count: nat)
    requires index.Valid() && shard < |index.roots|
    ensures count == |Under(index.at, Pos(shard, []))|
    ensures entries == |LiveUnder(index.Cells(), Pos(shard, []))|
  {
    entries, count := StatsNode(index, index.roots[shard], Pos(shard, []));
  }

  /** Node counts of the first n shards, added up. */
  ghost function ShardNodes(at: map<Pos, nat>, n: nat): nat {
    if n == 0 then 0 else ShardNodes(at, n - 1) + |Under(at, Pos(n - 1, []))|
  }

  ghost function InShards(at: map<Pos, nat>, n: nat): set<Pos> {
    set q | q in at && q.shard < n
  }

  lemma {:induction false} ShardNodesSum(at: map<Pos, nat>, n: nat)
    ensures ShardNodes(at, n) == |InShards(at, n)|
  {
    if n == 0 {
      assert InShards(at, 0) == {};
    } else {
      ShardNodesSum(at, n - 1);
      assert InShards(at, n) == InShards(at, n - 1) + Under(at, Pos(n - 1, []));
    }
  }

  ghost function ElementsOf(s: seq<nat>): (r: set<nat>)
    ensures forall n :: n in r <==> n in s
    ensures (forall i, j :: 0 <= i < j < |s| ==> s[i] != s[j]) ==> |r| == |s|
  {
    if s == [] then {}
    else
      var front, last := s[..|s| - 1], s[|s| - 1];
      assert s == front + [last];
      ElementsOf(front) + {last}
  }

  /** The indices a pool has handed out. */
  ghost function HandedOut(next: nat): (r: set<nat>)
    requires 0 < next
    ensures forall n :: n in r <==> 0 < n < next
    ensures |r| == next - 1
  {
    if next == 1 then {} else HandedOut(next - 1) + {next - 1}
  }

  lemma SplitSize(used: set<nat>, out: seq<nat>, next: nat)
    requires 0 < next && forall n :: n in used ==> 0 < n < next
    requires forall i, j :: 0 <= i < j < |out| ==> out[i] != out[j]
    requires forall i :: 0 <= i < |out| ==> 0 < out[i] < next && out[i] !in used
    requires forall n :: 0 < n < next ==> n in used || n in out
    ensures |used| + |out| == next - 1
  {
    hide HandedOut, ElementsOf;
    var queued := ElementsOf(out);
    assert HandedOut(next) == used + queued;
    assert used !! queued;
  }

  lemma {:induction false} InjectiveMapSize<A, B>(m: map<A, B>)
    requires forall a, b :: a in m && b in m && m[a] == m[b] ==> a == b
    ensures |m.Values| == |m.Keys|
  {
    if m.Keys != {} {
      var a :| a in m;
      var r := m - {a};
      assert m.Keys == r.Keys + {a} && m.Values == r.Values + {m[a]};
      InjectiveMapSize(r);
    } else {
      assert m.Values == {};
    }
  }

  /** The pool's arithmetic: allocated minus queued is the number of positions in the trie. */
  lemma PartitionSize(nodes: seq<Node>, at: map<Pos, nat>, out: seq<nat>, next: nat)
    requires Linked(nodes, at, next) && Partition(at, out, next) && 0 < next
    ensures next - 1 - |out| == |at|
  {
    hide NodeLinked;
    InTrie(nodes, at, next);
    InjectiveMapSize(at);
    SplitSize(at.Values, out, next);
  }

  function AtLeastZero(n: int): nat {
    if n < 0 then 0 else n
  }

  /** TotalNodes counts the nodes of the trie, which is the sum of the per-shard node counts. */
  method TotalNodes(index: InlineIndex) returns (n: nat)
    requires index.Valid()
    ensures n == |index.at| == ShardNodes(index.at, |index.roots|)
  {
    hide Linked, Partition, CellsOf, WellFormed, FilterOk, Pow2;
    var bumped := index.next - 1;
    var inQueue := |index.ready| - index.readyHd;
    assert index.ready[index.readyHd..] + [] == index.ready[index.readyHd..];
    PartitionSize(index.nodes, index.at, index.ready[index.readyHd..], index.next);
    ShardNodesSum(index.at, |index.roots|);
    AllInShards(index.nodes, index.at, index.next, index.bits);
    n := AtLeastZero(bumped - inQueue);
  }

  lemma AllInShards(nodes: seq<Node>, at: map<Pos, nat>, next: nat, bits: nat)
    requires Linked(nodes, at, next) && WellFormed(CellsOf(nodes, at), bits)
    ensures |InShards(at, Pow2(bits))| == |at|
  {
    hide At, Pow2, FilterOk;
    assert CellsOf(nodes, at).Keys == at.Keys;
    assert InShards(at, Pow2(bits)) == at.Keys;
  }
}
