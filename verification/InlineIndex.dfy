/**
 The sharded inline-slot trie index: mutable nodes in a recycling pool, one root per shard.
 Every operation is proved against the trie value it stands for (modules Trie and
 TrieCompaction), and the pool invariant is kept throughout.
 */
module Index {
  import opened Machine
  import opened H2Filter
  import opened Trie
  import opened TrieCompaction
  import opened NodePool

  const CHUNK := 1024
  const GRACE_NS := 10_000_000

  class InlineIndex {
    const bits: nat
    var nodes: seq<Node>
    var next: nat
    var ready: seq<nat>
    var readyHd: nat
    var roots: seq<nat>
    /** The pool index of every position that has a node. */
    ghost var at: map<Pos, nat>

    /** The pool invariant; limbo lists the nodes that are neither in the trie nor queued. */
    ghost predicate PoolValid(limbo: seq<nat>)
      reads this
    {
      && Linked(nodes, at, next)
      && readyHd <= |ready|
      && Partition(at, ready[readyHd..] + limbo, next)
      && PoolOk(nodes, next)
    }

    ghost predicate ValidWith(limbo: seq<nat>)
      reads this
    {
      && PoolValid(limbo)
      && RootsOk(roots, at, bits)
      && WellFormed(CellsOf(nodes, at), bits)
    }

    ghost predicate Valid()
      reads this
    {
      ValidWith([])
    }

    /** The trie this index holds. */
    ghost function Cells(): Cells
      requires forall p :: p in at ==> at[p] < |nodes|
      reads this
    {
      CellsOf(nodes, at)
    }

    /** One empty root per shard. */
    constructor (shardBits: nat)
      requires shardBits <= 20
      ensures bits == (if shardBits == 0 then 8 else shardBits)
      ensures Valid()
      ensures Cells() == EmptyTrie(bits)
    {
      hide Pow2, Linked, FilterOk, Partition, PoolOk, WellFormed, CellsOf, EmptyTrie, Unique, RootsOk, Roots;
      var b := if shardBits == 0 then 8 else shardBits;
      bits := b;
      next := 1;
      nodes, ready, readyHd, roots, at := [], [], 0, [], map[];
      new;
      var shards := Pow2(b);
      Ensure(shards + 1);
      assert ready[readyHd..] + [] == [];
      NothingLinked(nodes);
      assert at.Keys == Roots(0);
      for s := 0 to shards
        invariant OnlyRoots(s)
      {
        AddRoot();
      }
      EmptyWellFormed(bits);
      InTrie(nodes, at, next);
      CellsAreEmpty(nodes, at, bits);
      AllRoots(roots, at, bits);
    }

    /** The state while the constructor allocates roots: s empty ones so far and nothing recycled. */
    ghost predicate OnlyRoots(s: nat)
      reads this
    {
      && PoolValid([]) && ready == [] && |roots| == s && at.Keys == Roots(s)
      && (forall k :: 0 <= k < s ==> roots[k] == at[Pos(k, [])])
      && (forall p :: p in at ==> nodes[at[p]].slots == BLANK)
    }

    method AddRoot()
      requires OnlyRoots(|roots|)
      modifies this`nodes, this`next, this`readyHd, this`roots, this`at
      ensures |roots| == |old(roots)| + 1 && OnlyRoots(|roots|)
    {
      hide Linked, Partition, PoolOk, CellsOf, FilterOk, Roots;
      InTrie(nodes, at, next);
      ghost var before := nodes;
      ghost var s := |roots|;
      var idx := Alloc(0, []);
      RootLinked(nodes, at, next, s, idx);
      AttachPartition(at, Pos(s, []), ready[readyHd..], idx, next);
      InTrie(nodes, at, next);
      SameCells(before, nodes, at);
      roots := roots + [idx];
      at := at[Pos(s, []) := idx];
      InTrie(nodes, at, next);
    }

    // ---------- node pool ----------

    /** Extends the pool, chunk by chunk, until it covers maxIdx. */
    method Ensure(maxIdx: nat)
      modifies this`nodes
      ensures maxIdx < |nodes| && old(nodes) <= nodes
      ensures forall n :: |old(nodes)| <= n < |nodes| ==> nodes[n] == ZERO_NODE
    {
      var needed := maxIdx / CHUNK + 1;
      while |nodes| < needed * CHUNK
        invariant old(nodes) <= nodes
        invariant forall n :: |old(nodes)| <= n < |nodes| ==> nodes[n] == ZERO_NODE
        decreases needed * CHUNK - |nodes|
      {
        nodes := nodes + seq(CHUNK, i => ZERO_NODE);
      }
    }

    /** Takes the oldest queued node off the queue and blanks it. */
    method TakeReady(ghost limbo: seq<nat>) returns (idx: nat)
      requires PoolValid(limbo) && readyHd < |ready|
      modifies this`nodes, this`readyHd
      ensures PoolValid(limbo + [idx])
      ensures NULL_CHILD < idx < next <= |nodes| && idx !in at.Values && IsBlank(nodes[idx])
      ensures Cells() == old(Cells())
    {
      hide WellFormed, Linked, CellsOf, Pow2, Partition;
      InTrie(nodes, at, next);
      idx := ready[readyHd];
      ghost var out := ready[readyHd + 1..] + limbo;
      assert ready[readyHd..] + limbo == [idx] + out;
      TakeFromPartition(at, idx, out, next);
      readyHd := readyHd + 1;
      assert ready[readyHd..] + (limbo + [idx]) == out + [idx];
      ResetNode(idx);
      OutsideChange(old(nodes), nodes, at, next, next);
    }

    /** Takes the next index that was never used. */
    method TakeFresh(ghost limbo: seq<nat>) returns (idx: nat)
      requires PoolValid(limbo)
      modifies this`nodes, this`next
      ensures PoolValid(limbo + [idx])
      ensures NULL_CHILD < idx < next <= |nodes| && idx !in at.Values && IsBlank(nodes[idx])
      ensures Cells() == old(Cells())
    {
      hide WellFormed, Linked, CellsOf, Pow2, Partition;
      InTrie(nodes, at, next);
      idx := next;
      next := next + 1;
      Ensure(idx);
      BumpPartition(at, ready[readyHd..] + limbo, idx);
      assert ready[readyHd..] + (limbo + [idx]) == ready[readyHd..] + limbo + [idx];
      OutsideChange(old(nodes), nodes, at, old(next), next);
    }

    /** Claims one node: the oldest recycled one if its grace period is over, else a fresh one. */
    method Alloc(now: int, ghost limbo: seq<nat>) returns (idx: nat)
      requires PoolValid(limbo)
      modifies this`nodes, this`next, this`readyHd
      ensures PoolValid(limbo + [idx])
      ensures NULL_CHILD < idx < next <= |nodes| && idx !in at.Values && IsBlank(nodes[idx])
      ensures Cells() == old(Cells())
    {
      hide WellFormed, Linked, CellsOf, Pow2, FilterOk, IsBlank;
      InTrie(nodes, at, next);
      if readyHd < |ready| {
        assert ready[readyHd] == (ready[readyHd..] + limbo)[0];
        if now - nodes[ready[readyHd]].freedAt >= GRACE_NS {
          idx := TakeReady(limbo);
          return;
        }
      }
      idx := TakeFresh(limbo);
    }

    /** Clears slots, children and filter; the timestamp stays. */
    method ResetNode(idx: nat)
      requires idx < |nodes| && Sized(nodes[idx])
      modifies this`nodes
      ensures nodes == old(nodes)[idx := ZERO_NODE.(freedAt := old(nodes)[idx].freedAt)]
    {
      var n := nodes[idx];
      for i := 0 to SLOTS
        invariant |n.slots| == SLOTS && |n.kids| == FANOUT && n.freedAt == nodes[idx].freedAt
        invariant forall k :: 0 <= k < i ==> n.slots[k] == Slot(EMPTY, 0)
      {
        n := n.(slots := n.slots[i := Slot(EMPTY, 0)]);
      }
      for b := 0 to FANOUT
        invariant n.slots == BLANK && |n.kids| == FANOUT && n.freedAt == nodes[idx].freedAt
        invariant forall k :: 0 <= k < b ==> n.kids[k] == NULL_CHILD
      {
        n := n.(kids := n.kids[b := NULL_CHILD]);
      }
      assert n.kids == NO_KIDS;
      nodes := nodes[idx := n.(h2 := 0)];
    }

    /** Timestamps detached nodes and appends them to the ready queue, dropping a dead queue head. */
    method FreeLater(indices: seq<nat>, now: int)
      requires ValidWith(indices)
      modifies this`nodes, this`ready, this`readyHd
      ensures Valid()
      ensures Cells() == old(Cells())
      ensures ready[readyHd..] == old(ready[readyHd..]) + indices
    {
      hide WellFormed, Linked, CellsOf, Pow2, Partition;
      InTrie(nodes, at, next);
      LimboOutside(at, ready[readyHd..], indices, next);
      assert forall k :: 0 <= k < |indices| ==> indices[k] in indices;
      for k := 0 to |indices|
        invariant |nodes| == |old(nodes)| && ready == old(ready) && readyHd == old(readyHd)
        invariant forall n :: 0 <= n < |nodes| ==> nodes[n] == old(nodes)[n].(freedAt := nodes[n].freedAt)
        invariant forall n :: 0 <= n < |nodes| && n !in indices ==> nodes[n] == old(nodes)[n]
      {
        nodes := nodes[indices[k] := nodes[indices[k]].(freedAt := now)];
      }
      OutsideChange(old(nodes), nodes, at, next, next);
      ready := ready + indices;
      assert ready[readyHd..] == old(ready[readyHd..]) + indices;
      if readyHd > |ready| / 2 {
        ready := ready[readyHd..];
        readyHd := 0;
      }
      assert ready[readyHd..] + [] == old(ready[readyHd..]) + indices;
    }

    // ---------- reading ----------

    /** Get: walk the tag's path, skipping the slots of nodes whose filter rules the tag out. */
    method Get(tag: Word) returns (r: Option<Word>)
      requires Valid() && Live(tag)
      ensures r == Lookup(Cells(), bits, tag)
    {
      hide At, Pow2, HitDepth, Find, Groups, ForTag, AnyMatch, FilterOk, Partition, RootsOk, PoolOk, Linked, CellsOf,
           WellFormed;
      RootOf(roots, at, bits, tag);
      TrieDomain(nodes, at, next, bits);
      var nodeIdx := roots[ShardOf(tag, bits)];
      InTrie(nodes, at, next);
      ghost var c := Cells();
      for depth := 0 to MAX_DEPTH + 1
        invariant nodeIdx == if At(tag, bits, depth) in at then at[At(tag, bits, depth)] else NULL_CHILD
        invariant forall k :: 0 <= k < depth ==> At(tag, bits, k) in c && Find(c[At(tag, bits, k)], tag) == SLOTS
      {
        ghost var p := At(tag, bits, depth);
        if nodeIdx == NULL_CHILD {
          HitDepthUnique(c, bits, tag, depth);
          return None;
        }
        LinkedAt(nodes, at, next, p);
        var node := nodes[nodeIdx];
        if AnyMatch(node.h2, ForTag(tag)) {
          for i := 0 to SLOTS
            invariant forall k :: 0 <= k < i ==> node.slots[k].tag != tag
          {
            if node.slots[i].tag == tag {
              FoundOnce(node.slots, i);
              HitDepthUnique(c, bits, tag, depth);
              return Some(node.slots[i].val);
            }
          }
        } else {
          FilteredOut(node, tag);
        }
        var branch := Branch(tag, bits, depth);
        NextAt(tag, bits, depth);
        nodeIdx := node.kids[branch];
        assert nodeIdx == Kid(at, p, branch);
      }
      HitDepthUnique(c, bits, tag, MAX_DEPTH + 1);
      return None;
    }

    // ---------- storing ----------

    /** Writes (tag, val) into one of the node's slots if there is room. */
    method InsertAt(idx: nat, tag: Word, val: Word) returns (ok: bool)
      requires idx < |nodes| && Sized(nodes[idx]) && FilterOk(nodes[idx]) && Live(tag)
      modifies this`nodes
      ensures var slots := old(nodes)[idx].slots;
              && ok == (InsertSlot(slots, tag) < SLOTS)
              && |nodes| == |old(nodes)| && nodes == old(nodes)[idx := nodes[idx]] && (!ok ==> nodes == old(nodes))
              && nodes[idx].slots == (if ok then slots[InsertSlot(slots, tag) := Slot(tag, val)] else slots)
              && nodes[idx].kids == old(nodes)[idx].kids
              && FilterOk(nodes[idx])
    {
      hide Groups, ForTag, Put, FilterOk, Find, FindOrEmpty;
      var node := nodes[idx];
      var tomb: nat := SLOTS;
      for i := 0 to SLOTS
        invariant nodes == old(nodes)
        invariant forall k :: 0 <= k < i ==> node.slots[k].tag != tag && node.slots[k].tag != EMPTY
        invariant tomb == SLOTS ==> forall k :: 0 <= k < i ==> node.slots[k].tag != TOMBSTONE
        invariant tomb != SLOTS ==> tomb < i && node.slots[tomb].tag == TOMBSTONE
                                    && forall k :: 0 <= k < tomb ==> node.slots[k].tag != TOMBSTONE
      {
        var t := node.slots[i].tag;
        if t == tag {
          FoundOrEmptyAt(node.slots, tag, i);
          UpdateValueFilter(node, i, val);
          nodes := nodes[idx := node.(slots := node.slots[i := Slot(tag, val)])];
          return true;
        } else if t == EMPTY {
          FoundOrEmptyAt(node.slots, tag, i);
          WriteSlotFilter(node, i, Slot(tag, val));
          nodes := nodes[idx := node.(slots := node.slots[i := Slot(tag, val)], h2 := Put(node.h2, i, ForTag(tag)))];
          return true;
        } else if t == TOMBSTONE && tomb == SLOTS {
          tomb := i;
        }
      }
      FoundOrEmptyAt(node.slots, tag, SLOTS);
      if tomb != SLOTS {
        FoundOnce(node.slots, tomb);
        WriteSlotFilter(node, tomb, Slot(tag, val));
        nodes := nodes[idx := node.(slots := node.slots[tomb := Slot(tag, val)],
                                    h2 := Put(node.h2, tomb, ForTag(tag)))];
        return true;
      }
      return false;
    }

    /** Creates the child for the tag's next branch, writes the entry into it, then publishes it in the parent. */
    method InsertBelow(nodeIdx: nat, tag: Word, val: Word, now: int, depth: nat)
      requires Valid() && Live(tag) && depth < MAX_DEPTH
      requires At(tag, bits, depth) in at && at[At(tag, bits, depth)] == nodeIdx
      requires At(tag, bits, depth + 1) !in at
      requires WellFormed(Cells()[At(tag, bits, depth + 1) := BLANK[0 := Slot(tag, val)]], bits)
      modifies this`nodes, this`next, this`readyHd, this`at
      ensures Valid()
      ensures Cells() == old(Cells())[At(tag, bits, depth + 1) := BLANK[0 := Slot(tag, val)]]
    {
      hide At, Pow2, InsertSlot, FilterOk, Partition, Linked, CellsOf, WellFormed, PoolOk;
      ghost var p, q := At(tag, bits, depth), At(tag, bits, depth + 1);
      NextAt(tag, bits, depth);
      InTrie(nodes, at, next);
      ghost var c := Cells();
      var childIdx := Alloc(now, []);
      LinkedAt(nodes, at, next, p);
      BlankFilter(nodes[childIdx]);
      BlankInsert(tag);
      ghost var before := nodes;
      var _ := InsertAt(childIdx, tag, val);
      OutsideNode(before, nodes, at, next, childIdx);
      PoolOkUpdate(before, next, childIdx, nodes[childIdx]);
      LinkedAt(nodes, at, next, p);
      var node := nodes[nodeIdx];
      NoneBelow(nodes, at, next, bits, Child(p, Branch(tag, bits, depth)));
      AttachLinked(nodes, at, next, p, Branch(tag, bits, depth), childIdx);
      AttachPartition(at, q, ready[readyHd..], childIdx, next);
      PoolOkUpdate(nodes, next, nodeIdx, node.(kids := node.kids[Branch(tag, bits, depth) := childIdx]));
      nodes := nodes[nodeIdx := node.(kids := node.kids[Branch(tag, bits, depth) := childIdx])];
      at := at[q := childIdx];
    }

    /** One step of upsert: store in this node or a new child of it, or hand back the child to go on with. */
    method UpsertAt(nodeIdx: nat, tag: Word, val: Word, now: int, depth: nat) returns (done: bool, childIdx: nat)
      requires Valid() && Live(tag) && depth <= MAX_DEPTH
      requires At(tag, bits, depth) in at && nodeIdx == at[At(tag, bits, depth)]
      requires forall k :: 0 <= k < depth ==>
                 At(tag, bits, k) in Cells() && InsertSlot(Cells()[At(tag, bits, k)], tag) == SLOTS
      modifies this`nodes, this`next, this`readyHd, this`at
      ensures Valid()
      ensures done ==> Cells() == Set(old(Cells()), bits, tag, val)
      ensures !done ==> nodes == old(nodes) && at == old(at) && next == old(next) && readyHd == old(readyHd)
      ensures !done ==> InsertSlot(Cells()[At(tag, bits, depth)], tag) == SLOTS
      ensures !done && depth < MAX_DEPTH ==> At(tag, bits, depth + 1) in at && childIdx == at[At(tag, bits, depth + 1)]
    {
      hide At, Pow2, SetDepth, InsertSlot, FilterOk, Partition, Linked, CellsOf, WellFormed, RootsOk, PoolOk, Branch,
           ShardOf, Live, Find, FindOrEmpty, Child, Parent;
      InTrie(nodes, at, next);
      ghost var c := Cells();
      TrieDomain(nodes, at, next, bits);
      ghost var p := At(tag, bits, depth);
      LinkedAt(nodes, at, next, p);
      done := InsertAt(nodeIdx, tag, val);
      if done {
        SetDepthUnique(c, bits, tag, depth);
        ChangeNodeLinked(old(nodes), at, next, p, nodes[nodeIdx]);
        PoolOkUpdate(old(nodes), next, nodeIdx, nodes[nodeIdx]);
        SetWellFormed(c, bits, tag, val);
        return done, NULL_CHILD;
      }
      assert nodes == old(nodes);
      NextAt(tag, bits, depth);
      childIdx := nodes[nodeIdx].kids[Branch(tag, bits, depth)];
      if childIdx == NULL_CHILD {
        done := true;
        if depth == MAX_DEPTH {
          SetDepthUnique(c, bits, tag, MAX_DEPTH + 1);
        } else {
          SetDepthUnique(c, bits, tag, depth + 1);
          SetWellFormed(c, bits, tag, val);
          InsertBelow(nodeIdx, tag, val, now, depth);
        }
      }
    }

    /** upsert: store at the shallowest node with room, creating one child if need be; drop below depth 10. */
    method Upsert(tag: Word, val: Word, now: int)
      requires Valid() && Live(tag)
      modifies this`nodes, this`next, this`readyHd, this`at
      ensures Valid()
      ensures Cells() == Set(old(Cells()), bits, tag, val)
    {
      hide At, Pow2, SetDepth, InsertSlot, FilterOk, Partition, Linked, CellsOf, WellFormed, RootsOk, PoolOk, Branch,
           ShardOf, Live, Find, FindOrEmpty, Child, Parent;
      InTrie(nodes, at, next);
      ghost var c := Cells();
      TrieDomain(nodes, at, next, bits);
      RootOf(roots, at, bits, tag);
      var nodeIdx := roots[ShardOf(tag, bits)];
      for depth := 0 to MAX_DEPTH + 1
        invariant nodes == old(nodes) && at == old(at) && next == old(next) && readyHd == old(readyHd)
        invariant depth <= MAX_DEPTH ==> At(tag, bits, depth) in at && nodeIdx == at[At(tag, bits, depth)]
        invariant forall k :: 0 <= k < depth ==> At(tag, bits, k) in c && InsertSlot(c[At(tag, bits, k)], tag) == SLOTS
      {
        var done, childIdx := UpsertAt(nodeIdx, tag, val, now, depth);
        if done {
          return;
        }
        nodeIdx := childIdx;
      }
      SetDepthUnique(c, bits, tag, MAX_DEPTH + 1);
    }

    // ---------- deleting ----------

    /** Looks for the tag in one node and tombstones its first slot there. */
    method BuryAt(nodeIdx: nat, tag: Word, depth: nat) returns (found: bool)
      requires Valid() && Live(tag) && depth <= MAX_DEPTH
      requires At(tag, bits, depth) in at && nodeIdx == at[At(tag, bits, depth)]
      requires forall k :: 0 <= k < depth ==>
                 At(tag, bits, k) in Cells() && Find(Cells()[At(tag, bits, k)], tag) == SLOTS
      modifies this`nodes
      ensures Valid()
      ensures found ==> HitDepth(old(Cells()), bits, tag, 0) == depth && Cells() == Erase(old(Cells()), bits, tag)
      ensures !found ==> nodes == old(nodes) && Find(Cells()[At(tag, bits, depth)], tag) == SLOTS
    {
      hide At, Pow2, HitDepth, Find, FilterOk, Partition, RootsOk, PoolOk, Linked, CellsOf, WellFormed, Groups,
           ForTag, Put;
      InTrie(nodes, at, next);
      TrieDomain(nodes, at, next, bits);
      ghost var c, p := Cells(), At(tag, bits, depth);
      LinkedAt(nodes, at, next, p);
      var node := nodes[nodeIdx];
      for i := 0 to SLOTS
        invariant nodes == old(nodes)
        invariant forall k :: 0 <= k < i ==> node.slots[k].tag != tag
      {
        if node.slots[i].tag == tag {
          FoundOnce(node.slots, i);
          HitDepthUnique(c, bits, tag, depth);
          WriteSlotFilter(node, i, GRAVE);
          var buried := node.(slots := node.slots[i := GRAVE], h2 := Put(node.h2, i, 0));
          ChangeNodeLinked(nodes, at, next, p, buried);
          PoolOkUpdate(nodes, next, nodeIdx, buried);
          EraseKeeps(c, bits, tag, tag);
          nodes := nodes[nodeIdx := buried];
          return true;
        }
      }
      return false;
    }

    /** Tombstones the tag's first occurrence and returns the node path to it. */
    method FindPath(tag: Word) returns (found: bool, path: seq<nat>)
      requires Valid() && Live(tag)
      modifies this`nodes
      ensures Valid()
      ensures found == Lookup(old(Cells()), bits, tag).Some?
      ensures Cells() == Erase(old(Cells()), bits, tag)
      ensures found ==> |path| == HitDepth(old(Cells()), bits, tag, 0) + 1
      ensures found ==> forall k :: 0 <= k < |path| ==> At(tag, bits, k) in at && path[k] == at[At(tag, bits, k)]
    {
      hide At, Pow2, HitDepth, Find, FilterOk, Partition, RootsOk, PoolOk, Linked, CellsOf, WellFormed, Branch, ShardOf,
           Child, Parent;
      RootOf(roots, at, bits, tag);
      TrieDomain(nodes, at, next, bits);
      var nodeIdx := roots[ShardOf(tag, bits)];
      InTrie(nodes, at, next);
      ghost var c := Cells();
      path := [];
      for depth := 0 to MAX_DEPTH + 1
        invariant nodes == old(nodes) && |path| == depth
        invariant nodeIdx == if At(tag, bits, depth) in at then at[At(tag, bits, depth)] else NULL_CHILD
        invariant forall k :: 0 <= k < depth ==> At(tag, bits, k) in c && Find(c[At(tag, bits, k)], tag) == SLOTS
        invariant forall k :: 0 <= k < depth ==> path[k] == at[At(tag, bits, k)]
      {
        if nodeIdx == NULL_CHILD {
          HitDepthUnique(c, bits, tag, depth);
          return false, [];
        }
        path := path + [nodeIdx];
        found := BuryAt(nodeIdx, tag, depth);
        if found {
          return;
        }
        LinkedAt(nodes, at, next, At(tag, bits, depth));
        NextAt(tag, bits, depth);
        nodeIdx := nodes[nodeIdx].kids[Branch(tag, bits, depth)];
      }
      HitDepthUnique(c, bits, tag, MAX_DEPTH + 1);
      return false, [];
    }

    /** Appends the live slots of one childless child, unless it has children or more than four entries would result. */
    method CollectLive(idx: nat, above: seq<Slot>) returns (ok: bool, live: seq<Slot>)
      requires idx < |nodes| && Sized(nodes[idx]) && |above| <= SLOTS
      ensures ok <==> NoKids(nodes[idx].kids) && |above + LiveOf(nodes[idx].slots)| <= SLOTS
      ensures ok ==> live == above + LiveOf(nodes[idx].slots)
    {
      hide LiveOf;
      var child := nodes[idx];
      for d := 0 to FANOUT
        invariant forall k :: 0 <= k < d ==> child.kids[k] == NULL_CHILD
      {
        if child.kids[d] != NULL_CHILD {
          return false, [];
        }
      }
      live := above;
      LiveOfNone(child.slots);
      for i: nat := 0 to SLOTS
        invariant live == above + LiveOf(child.slots[..i]) && |live| <= SLOTS
      {
        LiveOfStep(child.slots, i);
        if Live(child.slots[i].tag) {
          if |live| >= SLOTS {
            LiveOfPrefix(child.slots, i + 1);
            return false, [];
          }
          live := live + [child.slots[i]];
        }
      }
      assert child.slots[..SLOTS] == child.slots;
      ok := true;
    }

    /**
     The live slots of all children in branch order, or failure if a child has children or there
     are more than four.
     */
    method GatherKids(idx: nat, ghost p: Pos) returns (ok: bool, live: seq<Slot>)
      requires Linked(nodes, at, next) && p in at && at[p] == idx
      ensures ok <==> !HasGrandchild(Cells(), p) && |Gather(Cells(), p, FANOUT)| <= SLOTS
      ensures ok ==> live == Gather(Cells(), p, FANOUT)
    {
      hide FilterOk, Linked, CellsOf, Gather, LiveOf, Child, Live;
      InTrie(nodes, at, next);
      ghost var c := Cells();
      LinkedAt(nodes, at, next, p);
      var node := nodes[idx];
      live := [];
      GatherNone(c, p);
      for b: nat := 0 to FANOUT
        invariant live == Gather(c, p, b) && |live| <= SLOTS
        invariant forall x, d :: 0 <= x < b && 0 <= d < FANOUT && Child(p, x) in c ==> Child(Child(p, x), d) !in c
      {
        var childIdx := node.kids[b];
        GatherStep(c, p, b);
        if childIdx != NULL_CHILD {
          LinkedAt(nodes, at, next, Child(p, b));
          ChildlessIff(nodes, at, next, Child(p, b));
          ok, live := CollectLive(childIdx, live);
          if !ok {
            GatherGrows(c, p, b + 1, FANOUT);
            return;
          }
        }
      }
      ok := true;
    }

    /** Writes the entries into the free slots of a node, first to last, with their filter groups. */
    method FillFree(idx: nat, entries: seq<Slot>)
      requires idx < |nodes| && Sized(nodes[idx]) && FilterOk(nodes[idx])
      requires forall k :: 0 <= k < |entries| ==> Live(entries[k].tag)
      modifies this`nodes
      ensures |nodes| == |old(nodes)| && nodes == old(nodes)[idx := nodes[idx]]
      ensures nodes[idx].slots == Fill(old(nodes)[idx].slots, entries) && nodes[idx].kids == old(nodes)[idx].kids
      ensures FilterOk(nodes[idx])
    {
      hide FilterOk, Groups, ForTag, Put, FreeBefore;
      var node := nodes[idx];
      ghost var was := node.slots;
      var wi := 0;
      var i: nat := 0;
      FreeBeforeNone(was);
      while i < SLOTS && wi < |entries|
        invariant nodes == old(nodes) && i <= SLOTS && wi <= |entries| && wi == FreeBefore(was, i)
        invariant Sized(node) && FilterOk(node) && node.kids == old(nodes)[idx].kids
        invariant forall k :: 0 <= k < i ==> node.slots[k] == Fill(was, entries)[k]
        invariant forall k :: i <= k < SLOTS ==> node.slots[k] == was[k]
        decreases SLOTS - i
      {
        FreeBeforeStep(was, i);
        if !Live(node.slots[i].tag) {
          WriteSlotFilter(node, i, entries[wi]);
          node := node.(slots := node.slots[i := entries[wi]], h2 := Put(node.h2, i, ForTag(entries[wi].tag)));
          wi := wi + 1;
        }
        i := i + 1;
      }
      forall k | i <= k < SLOTS
        ensures node.slots[k] == Fill(was, entries)[k]
      {
        FreeBeforeMonotone(was, i, k);
      }
      nodes := nodes[idx := node];
    }

    /** Pulls the entries of all children into the node and detaches the children, if they fit. */
    method TryCollapseAt(idx: nat, ghost p: Pos, ghost limbo: seq<nat>) returns (ok: bool, detached: seq<nat>)
      requires ValidWith(limbo) && p in at && at[p] == idx
      modifies this`nodes, this`at
      ensures ValidWith(limbo + detached)
      ensures ok <==> CanCollapse(old(Cells()), p)
      ensures Cells() == TryCollapse(old(Cells()), p)
      ensures at == if ok then WithoutKids(old(at), p) else old(at)
    {
      hide FilterOk, Linked, CellsOf, Gather, WellFormed, Partition, PoolOk, RootsOk, Fill, FreeBefore, HasGrandchild;
      InTrie(nodes, at, next);
      ghost var c := Cells();
      LinkedAt(nodes, at, next, p);
      TrieDomain(nodes, at, next, bits);
      detached := [];
      assert limbo + [] == limbo;
      var fit, live := GatherKids(idx, p);
      if !fit {
        return false, [];
      }
      var free := CountFree(nodes[idx].slots);
      if free < |live| {
        return false, [];
      }
      CollapseWellFormed(c, bits, p);
      ghost var before := nodes;
      FillFree(idx, live);
      var kids := nodes[idx].kids;
      detached := Present(kids);
      DetachPartition(before, at, next, bits, p, ready[readyHd..] + limbo, kids);
      var node := nodes[idx].(kids := NO_KIDS);
      RelinkFilter(nodes[idx], NO_KIDS);
      GrandchildFree(before, at, next, bits, p);
      DetachLinked(before, at, next, p, node);
      PoolOkUpdate(before, next, idx, node);
      assert nodes[idx := node] == before[idx := node];
      nodes := nodes[idx := node];
      RootsSurvive(roots, at, bits, p);
      assert ready[readyHd..] + (limbo + detached) == ready[readyHd..] + limbo + detached;
      at := WithoutKids(at, p);
      return true, detached;
    }

    method CountFree(slots: seq<Slot>) returns (free: nat)
      ensures free == FreeBefore(slots, |slots|)
    {
      free := 0;
      for i: nat := 0 to |slots|
        invariant free == FreeBefore(slots, i)
      {
        if !Live(slots[i].tag) {
          free := free + 1;
        }
      }
    }

    /** The non-null child indices, in branch order. */
    method Present(kids: seq<nat>) returns (r: seq<nat>)
      ensures r == PresentOf(kids)
    {
      r := [];
      for b := 0 to |kids|
        invariant r == PresentOf(kids[..b])
      {
        assert kids[..b + 1][..b] == kids[..b];
        if kids[b] != NULL_CHILD {
          r := r + [kids[b]];
        }
      }
      assert kids[..|kids|] == kids;
    }

    /** Collapses the ancestors on the path, from the last but one up, until one refuses. */
    method CollapseUpward(tag: Word, nodePath: seq<nat>) returns (freed: seq<nat>)
      requires Valid() && nodePath != []
      requires forall k :: 0 <= k < |nodePath| ==> At(tag, bits, k) in at && nodePath[k] == at[At(tag, bits, k)]
      modifies this`nodes, this`at
      ensures ValidWith(freed)
      ensures Cells() == CollapseUp(old(Cells()), bits, tag, |nodePath| - 1)
    {
      hide At, Pow2, FilterOk, Partition, RootsOk, PoolOk, Linked, CellsOf, WellFormed, CanCollapse, Collapse;
      InTrie(nodes, at, next);
      ghost var goal := CollapseUp(Cells(), bits, tag, |nodePath| - 1);
      var path := nodePath;
      freed := [];
      while |path| >= 2
        invariant |path| >= 1 && ValidWith(freed)
        invariant forall k :: 0 <= k < |path| ==> At(tag, bits, k) in at && path[k] == at[At(tag, bits, k)]
        invariant forall p :: p in at ==> at[p] < |nodes|
        invariant CollapseUp(Cells(), bits, tag, |path| - 1) == goal
        decreases |path|
      {
        var parentIdx := path[|path| - 2];
        ghost var p := At(tag, bits, |path| - 2);
        var ok, detached := TryCollapseAt(parentIdx, p, freed);
        InTrie(nodes, at, next);
        freed := freed + detached;
        if !ok {
          return;
        }
        NotKids(tag, bits, |path| - 2);
        path := path[..|path| - 1];
      }
    }

    /** Delete: tombstone, collapse upward while parents accept, then queue the detached nodes. */
    method Delete(tag: Word, now: int) returns (found: bool)
      requires Valid() && Live(tag)
      modifies this`nodes, this`at, this`ready, this`readyHd
      ensures Valid()
      ensures found == Lookup(old(Cells()), bits, tag).Some?
      ensures Cells() == TrieCompaction.Delete(old(Cells()), bits, tag)
    {
      hide At, Pow2, HitDepth, FilterOk, Partition, RootsOk, PoolOk, Linked, CellsOf, WellFormed, CollapseUp,
           Erase, Lookup;
      InTrie(nodes, at, next);
      ghost var c := Cells();
      TrieDomain(nodes, at, next, bits);
      var path;
      found, path := FindPath(tag);
      var freed: seq<nat> := [];
      if found {
        freed := CollapseUpward(tag, path);
      } else {
        EraseNothing(c, bits, tag);
      }
      InTrie(nodes, at, next);
      FreeLater(freed, now);
    }

    // ---------- compaction ----------

    /** deepCompactNode: compact the subtrees of all children, then try to collapse the node itself. */
    method DeepCompactNode(idx: nat, ghost p: Pos, ghost limbo: seq<nat>) returns (freed: seq<nat>)
      requires ValidWith(limbo) && p in at && at[p] == idx
      modifies this`nodes, this`at
      ensures ValidWith(limbo + freed)
      ensures |p.path| <= MAX_DEPTH && Cells() == DeepCompact(old(Cells()), p)
      ensures Untouched(old(at), at, p)
      decreases MAX_DEPTH + 1 - |p.path|
    {
      hide FilterOk, Linked, CellsOf, WellFormed, Partition, PoolOk, RootsOk, TryCollapse;
      InTrie(nodes, at, next);
      DepthBound(nodes, at, next, bits, p);
      freed := [];
      assert limbo + [] == limbo;
      for b: nat := 0 to FANOUT
        invariant ValidWith(limbo + freed)
        invariant Untouched(old(at), at, p) && p in at && at[p] == idx
        invariant forall q :: q in at ==> at[q] < |nodes|
        invariant Cells() == CompactKids(old(Cells()), p, b)
      {
        InTrie(nodes, at, next);
        LinkedAt(nodes, at, next, p);
        ghost var at0 := at;
        var childIdx := nodes[idx].kids[b];
        if childIdx != NULL_CHILD {
          ghost var q := Child(p, b);
          DepthBound(nodes, at, next, bits, q);
          var more := DeepCompactNode(childIdx, q, limbo + freed);
          assert limbo + freed + more == limbo + (freed + more);
          freed := freed + more;
          UntouchedAbove(old(at), at0, at, p, b);
          InTrie(nodes, at, next);
        }
      }
      ghost var at1 := at;
      var ok, detached := TryCollapseAt(idx, p, limbo + freed);
      assert limbo + freed + detached == limbo + (freed + detached);
      freed := freed + detached;
      UntouchedDetach(old(at), at1, p);
      InTrie(nodes, at, next);
    }

    /** CompactAll and DeepCompactAll: every shard in turn, queueing what each one frees. */
    method CompactAll(now: int, deep: bool)
      requires Valid()
      modifies this`nodes, this`at, this`ready, this`readyHd
      ensures Valid()
      ensures Cells() == CompactShards(old(Cells()), |roots|, deep)
    {
      hide FilterOk, Linked, CellsOf, WellFormed, Partition, PoolOk, TryCollapse, DeepCompact, Pow2;
      InTrie(nodes, at, next);
      for s: nat := 0 to |roots|
        invariant Valid()
        invariant forall q :: q in at ==> at[q] < |nodes|
        invariant Cells() == CompactShards(old(Cells()), s, deep)
      {
        var freed: seq<nat>;
        ghost var p := Pos(s, []);
        if deep {
          freed := DeepCompactNode(roots[s], p, []);
        } else {
          var _, detached := TryCollapseAt(roots[s], p, []);
          freed := detached;
        }
        assert [] + freed == freed;
        InTrie(nodes, at, next);
        FreeLater(freed, now);
        InTrie(nodes, at, next);
      }
    }
  }

  /** One root index per shard, at the empty path. */
  ghost predicate RootsOk(roots: seq<nat>, at: map<Pos, nat>, bits: nat) {
    && |roots| == Pow2(bits)
    && forall s :: 0 <= s < |roots| ==> Pos(s, []) in at && roots[s] == at[Pos(s, [])]
  }

  /** Nodes below next may be in use; those above it have never been touched. */
  ghost predicate PoolOk(nodes: seq<Node>, next: nat) {
    && 0 < next <= |nodes|
    && (forall n :: 0 <= n < |nodes| ==> Sized(nodes[n]))
    && (forall n :: next <= n < |nodes| ==> nodes[n] == ZERO_NODE)
  }

  lemma PoolOkUpdate(nodes: seq<Node>, next: nat, idx: nat, n: Node)
    requires PoolOk(nodes, next) && idx < next && Sized(n)
    ensures next <= |nodes| && PoolOk(nodes[idx := n], next)
  {}

  lemma RootOf(roots: seq<nat>, at: map<Pos, nat>, bits: nat, tag: Word)
    requires RootsOk(roots, at, bits)
    ensures ShardOf(tag, bits) < |roots| && At(tag, bits, 0) in at && roots[ShardOf(tag, bits)] == at[At(tag, bits, 0)]
  {
    hide Pow2;
    assert At(tag, bits, 0) == Pos(ShardOf(tag, bits), []);
  }

  lemma TakeFromPartition(at: map<Pos, nat>, idx: nat, out: seq<nat>, next: nat)
    requires Partition(at, [idx] + out, next)
    ensures Partition(at, out + [idx], next)
    ensures 0 < idx < next && idx !in at.Values
  {
    var s, r := [idx] + out, out + [idx];
    assert s[0] == idx && r[|out|] == idx;
    forall i, j | 0 <= i < j < |r|
      ensures r[i] != r[j]
    {
      assert r[i] == s[i + 1];
      assert j < |out| ==> r[j] == s[j + 1];
    }
    forall i | 0 <= i < |r|
      ensures 0 < r[i] < next && r[i] !in at.Values
    {
      assert r[i] == s[if i == |out| then 0 else i + 1];
    }
    forall n | 0 < n < next && n !in at.Values
      ensures n in r
    {
      var k :| 0 <= k < |s| && s[k] == n;
      assert r[if k == 0 then |out| else k - 1] == n;
    }
  }

  lemma BumpPartition(at: map<Pos, nat>, out: seq<nat>, next: nat)
    requires Partition(at, out, next) && 0 < next && next !in at.Values
    ensures Partition(at, out + [next], next + 1)
  {
    assert forall n :: n in out + [next] <==> n in out || n == next;
  }

  /** Indices of the trie lie below next. */
  lemma InTrie(nodes: seq<Node>, at: map<Pos, nat>, next: nat)
    requires Linked(nodes, at, next)
    ensures forall p :: p in at ==> 0 < at[p] < next <= |nodes|
    ensures next !in at.Values
  {
    hide FilterOk;
  }

  /** Changing nodes outside the trie, or raising next, changes no link and no cell. */
  lemma OutsideChange(a: seq<Node>, b: seq<Node>, at: map<Pos, nat>, next: nat, next': nat)
    requires Linked(a, at, next) && next <= next' <= |b|
    requires forall p :: p in at ==> at[p] < |a| && at[p] < |b| && a[at[p]] == b[at[p]]
    ensures Linked(b, at, next')
    ensures CellsOf(a, at) == CellsOf(b, at)
  {
    hide FilterOk;
    forall p | p in at
      ensures NodeLinked(b, at, next', p)
    {
      assert NodeLinked(a, at, next, p);
    }
  }

  lemma OutsideNode(a: seq<Node>, b: seq<Node>, at: map<Pos, nat>, next: nat, idx: nat)
    requires Linked(a, at, next) && |b| == |a| && next <= |a| && idx < |a| && b == a[idx := b[idx]] && idx !in at.Values
    ensures Linked(b, at, next)
    ensures CellsOf(a, at) == CellsOf(b, at)
  {
    InTrie(a, at, next);
    OutsideChange(a, b, at, next, next);
  }

  lemma LimboOutside(at: map<Pos, nat>, queue: seq<nat>, limbo: seq<nat>, next: nat)
    requires Partition(at, queue + limbo, next)
    ensures forall n :: n in limbo ==> 0 < n < next && n !in at.Values
  {
    assert forall i :: 0 <= i < |limbo| ==> limbo[i] == (queue + limbo)[|queue| + i];
  }

  lemma NextAt(tag: Word, bits: nat, d: nat)
    ensures At(tag, bits, d + 1) == Child(At(tag, bits, d), Branch(tag, bits, d))
  {}

  /** If the filter finds no matching group, no slot of the node holds the tag. */
  lemma FilteredOut(n: Node, tag: Word)
    requires |n.slots| == SLOTS && FilterOk(n) && Live(tag) && !AnyMatch(n.h2, ForTag(tag))
    ensures forall k :: 0 <= k < SLOTS ==> n.slots[k].tag != tag
    ensures Find(n.slots, tag) == SLOTS
  {
    hide Groups, ForTag, AnyMatch, Find;
    AnyMatchExact(n.h2, ForTag(tag));
    assert forall k :: 0 <= k < SLOTS && n.slots[k].tag == tag ==> Groups(n.h2)[k] == ForTag(tag);
  }

  lemma FoundOrEmptyAt(slots: seq<Slot>, tag: Word, i: nat)
    requires i <= |slots|
    requires forall k :: 0 <= k < i ==> slots[k].tag != tag && slots[k].tag != EMPTY
    requires i < |slots| ==> slots[i].tag == tag || slots[i].tag == EMPTY
    ensures FindOrEmpty(slots, tag) == i
  {
    hide FindOrEmpty;
    var f := FindOrEmpty(slots, tag);
    assert !(f < i) && !(i < f);
  }

  lemma UpdateValueFilter(n: Node, i: nat, val: Word)
    requires |n.slots| == SLOTS && FilterOk(n) && i < SLOTS
    ensures FilterOk(n.(slots := n.slots[i := Slot(n.slots[i].tag, val)]))
  {
    hide Groups, ForTag;
  }

  lemma SetDepthUnique(c: Cells, bits: nat, tag: Word, e: nat)
    requires Shaped(c) && e <= MAX_DEPTH + 1
    requires forall k :: 0 <= k < e ==> At(tag, bits, k) in c && InsertSlot(c[At(tag, bits, k)], tag) == SLOTS
    requires e <= MAX_DEPTH && At(tag, bits, e) in c ==> InsertSlot(c[At(tag, bits, e)], tag) < SLOTS
    ensures SetDepth(c, bits, tag, 0) == e
  {
    hide At, SetDepth, InsertSlot;
    var h := SetDepth(c, bits, tag, 0);
    assert !(h < e) && !(e < h);
  }

  lemma LinkedAt(nodes: seq<Node>, at: map<Pos, nat>, next: nat, p: Pos)
    requires Linked(nodes, at, next) && p in at
    ensures 0 < at[p] < next <= |nodes| && Sized(nodes[at[p]]) && FilterOk(nodes[at[p]])
    ensures forall b :: 0 <= b < FANOUT ==> nodes[at[p]].kids[b] == Kid(at, p, b)
    ensures CellsOf(nodes, at).Keys == at.Keys && CellsOf(nodes, at)[p] == nodes[at[p]].slots
  {
    hide FilterOk;
    assert NodeLinked(nodes, at, next, p);
  }

  lemma TrieDomain(nodes: seq<Node>, at: map<Pos, nat>, next: nat, bits: nat)
    requires Linked(nodes, at, next) && WellFormed(CellsOf(nodes, at), bits)
    ensures CellsOf(nodes, at).Keys == at.Keys && Shaped(CellsOf(nodes, at))
    ensures forall p :: p in at ==> CellsOf(nodes, at)[p] == nodes[at[p]].slots
  {
    hide FilterOk, At, Pow2, NodeOk;
  }

  lemma NoneBelow(nodes: seq<Node>, at: map<Pos, nat>, next: nat, bits: nat, q: Pos)
    requires Linked(nodes, at, next) && WellFormed(CellsOf(nodes, at), bits) && q !in at
    ensures forall d: nat :: Child(q, d) !in at
  {
    hide FilterOk, At, Pow2, NodeOk;
    assert CellsOf(nodes, at).Keys == at.Keys;
    assert forall d :: Parent(Child(q, d)) == q;
  }

  lemma BlankInsert(tag: Word)
    requires Live(tag)
    ensures InsertSlot(BLANK, tag) == 0
  {}

  lemma AttachPartition(at: map<Pos, nat>, q: Pos, queue: seq<nat>, idx: nat, next: nat)
    requires Partition(at, queue + ([] + [idx]), next) && q !in at
    ensures Partition(at[q := idx], queue + [], next)
  {
    var out := queue + ([] + [idx]);
    assert out[|queue|] == idx;
    assert queue + [] == queue && forall i :: 0 <= i < |queue| ==> queue[i] == out[i];
    assert at[q := idx].Values == at.Values + {idx} by {
      assert forall p :: p in at ==> at[q := idx][p] == at[p];
      assert at[q := idx][q] == idx;
      forall v | v in at.Values
        ensures v in at[q := idx].Values
      {
        var p :| p in at && at[p] == v;
        assert at[q := idx][p] == v;
      }
    }
    assert forall n :: n in out <==> n in queue || n == idx;
  }

  lemma NothingLinked(nodes: seq<Node>)
    requires |nodes| > 1 && forall n :: 0 <= n < |nodes| ==> nodes[n] == ZERO_NODE
    ensures Linked(nodes, map[], 1) && Partition(map[], [], 1) && PoolOk(nodes, 1)
  {}

  lemma AllRoots(roots: seq<nat>, at: map<Pos, nat>, bits: nat)
    requires |roots| == Pow2(bits) && at.Keys == Roots(|roots|)
    requires forall k :: 0 <= k < |roots| ==> roots[k] == at[Pos(k, [])]
    ensures RootsOk(roots, at, bits)
  {
    hide Roots, Pow2;
  }

  lemma CellsAreEmpty(nodes: seq<Node>, at: map<Pos, nat>, bits: nat)
    requires at.Keys == Roots(Pow2(bits)) && forall p :: p in at ==> at[p] < |nodes| && nodes[at[p]].slots == BLANK
    ensures CellsOf(nodes, at) == EmptyTrie(bits)
  {
    hide Roots, Pow2;
  }

  lemma RootLinked(nodes: seq<Node>, at: map<Pos, nat>, next: nat, s: nat, idx: nat)
    requires Linked(nodes, at, next) && 0 < idx < next <= |nodes| && idx !in at.Values && IsBlank(nodes[idx])
    requires at.Keys == Roots(s)
    ensures Linked(nodes, at[Pos(s, []) := idx], next)
  {
    hide FilterOk, Roots;
    BlankFilter(nodes[idx]);
    var at' := at[Pos(s, []) := idx];
    forall p | p in at'
      ensures NodeLinked(nodes, at', next, p)
    {
      if p != Pos(s, []) {
        assert NodeLinked(nodes, at, next, p);
      }
      assert forall b :: Child(p, b) !in at';
    }
  }

  lemma SameCells(a: seq<Node>, b: seq<Node>, at: map<Pos, nat>)
    requires forall p :: p in at ==> at[p] < |a| && at[p] < |b|
    requires CellsOf(a, at) == CellsOf(b, at)
    ensures forall p :: p in at ==> a[at[p]].slots == b[at[p]].slots
  {
    assert forall p :: p in at ==> CellsOf(a, at)[p] == a[at[p]].slots && CellsOf(b, at)[p] == b[at[p]].slots;
  }

  lemma ChildlessIff(nodes: seq<Node>, at: map<Pos, nat>, next: nat, q: Pos)
    requires Linked(nodes, at, next) && q in at
    ensures 0 < at[q] < |nodes| && CellsOf(nodes, at).Keys == at.Keys
    ensures NoKids(nodes[at[q]].kids) <==> forall d :: 0 <= d < FANOUT ==> Child(q, d) !in CellsOf(nodes, at)
  {
    hide FilterOk;
    assert NodeLinked(nodes, at, next, q);
    forall d | 0 <= d < FANOUT
      ensures nodes[at[q]].kids[d] == NULL_CHILD <==> Child(q, d) !in at
    {
      assert nodes[at[q]].kids[d] == Kid(at, q, d);
      if Child(q, d) in at {
        assert NodeLinked(nodes, at, next, Child(q, d));
      }
    }
  }

  lemma GatherNone(c: Cells, p: Pos)
    ensures Gather(c, p, 0) == []
  {}

  lemma GatherStep(c: Cells, p: Pos, b: nat)
    requires b < FANOUT
    ensures Gather(c, p, b + 1) ==
            if Child(p, b) in c then Gather(c, p, b) + LiveOf(c[Child(p, b)]) else Gather(c, p, b)
  {}

  lemma {:induction false} GatherGrows(c: Cells, p: Pos, a: nat, b: nat)
    requires a <= b <= FANOUT
    ensures |Gather(c, p, a)| <= |Gather(c, p, b)|
    decreases b
  {
    hide LiveOf;
    if a < b {
      GatherGrows(c, p, a, b - 1);
    }
  }

  lemma LiveOfNone(slots: seq<Slot>)
    ensures LiveOf(slots[..0]) == []
  {}

  lemma {:induction false} LiveOfSplit(a: seq<Slot>, b: seq<Slot>)
    ensures LiveOf(a + b) == LiveOf(a) + LiveOf(b)
  {
    hide Live;
    if a == [] {
      assert a + b == b;
    } else {
      LiveOfSplit(a[1..], b);
      assert (a + b)[1..] == a[1..] + b && (a + b)[0] == a[0];
      Assoc([a[0]], LiveOf(a[1..]), LiveOf(b));
    }
  }

  lemma LiveOfStep(slots: seq<Slot>, i: nat)
    requires i < |slots|
    ensures LiveOf(slots[..i + 1]) == LiveOf(slots[..i]) + if Live(slots[i].tag) then [slots[i]] else []
  {
    LiveOfSplit(slots[..i], [slots[i]]);
    assert slots[..i + 1] == slots[..i] + [slots[i]];
    assert [slots[i]][1..] == [];
  }

  lemma LiveOfPrefix(slots: seq<Slot>, i: nat)
    requires i <= |slots|
    ensures |LiveOf(slots[..i])| <= |LiveOf(slots)|
  {
    hide LiveOf;
    LiveOfSplit(slots[..i], slots[i..]);
    assert slots == slots[..i] + slots[i..];
  }

  function PresentOf(kids: seq<nat>): (r: seq<nat>) {
    if kids == [] then []
    else
      var front := PresentOf(kids[..|kids| - 1]);
      if kids[|kids| - 1] != NULL_CHILD then front + [kids[|kids| - 1]] else front
  }

  lemma FreeBeforeNone(slots: seq<Slot>)
    ensures FreeBefore(slots, 0) == 0
  {}

  lemma FreeBeforeStep(slots: seq<Slot>, i: nat)
    requires i < |slots|
    ensures FreeBefore(slots, i + 1) == FreeBefore(slots, i) + if Free(slots[i]) then 1 else 0
  {}

  lemma RootsSurvive(roots: seq<nat>, at: map<Pos, nat>, bits: nat, p: Pos)
    requires RootsOk(roots, at, bits)
    ensures RootsOk(roots, WithoutKids(at, p), bits)
  {
    hide Pow2;
  }

  lemma GrandchildFree(nodes: seq<Node>, at: map<Pos, nat>, next: nat, bits: nat, p: Pos)
    requires Linked(nodes, at, next) && WellFormed(CellsOf(nodes, at), bits) && !HasGrandchild(CellsOf(nodes, at), p)
    ensures forall q {:trigger Parent(q)} :: q in at && q.path != [] ==> Parent(q) in at && !IsChild(Parent(q), p)
  {
    hide FilterOk, At, Pow2, NodeOk, HasGrandchild;
    var c := CellsOf(nodes, at);
    assert c.Keys == at.Keys;
    forall q | q in at && q.path != []
      ensures Parent(q) in at && !IsChild(Parent(q), p)
    {
      if IsChild(Parent(q), p) {
        GrandchildSeen(c, bits, p, q);
      }
    }
  }

  lemma {:induction false} PresentDistinct(kids: seq<nat>)
    requires forall i, j :: 0 <= i < j < |kids| && kids[i] != NULL_CHILD ==> kids[i] != kids[j]
    ensures forall n :: n in PresentOf(kids) <==> n != NULL_CHILD && n in kids
    ensures forall i, j :: 0 <= i < j < |PresentOf(kids)| ==> PresentOf(kids)[i] != PresentOf(kids)[j]
  {
    if kids != [] {
      var front, last := kids[..|kids| - 1], kids[|kids| - 1];
      PresentDistinct(front);
      assert kids == front + [last];
      assert last != NULL_CHILD ==> last !in front;
    }
  }

  /** The indices that leave the trie in a collapse are exactly the children's. */
  lemma DetachedValues(nodes: seq<Node>, at: map<Pos, nat>, next: nat, bits: nat, p: Pos, kids: seq<nat>)
    requires Linked(nodes, at, next) && WellFormed(CellsOf(nodes, at), bits) && p in at
    requires |kids| == FANOUT && forall b :: 0 <= b < FANOUT ==> kids[b] == Kid(at, p, b)
    ensures forall n :: n in at.Values <==> n in WithoutKids(at, p).Values || (n != NULL_CHILD && n in kids)
    ensures forall n :: n in WithoutKids(at, p).Values ==> n !in kids
    ensures forall i, j :: 0 <= i < j < FANOUT && kids[i] != NULL_CHILD ==> kids[i] != kids[j]
    ensures forall n :: n in kids && n != NULL_CHILD ==> 0 < n < next
  {
    hide WellFormed, CellsOf, Linked, Kid;
    var rest := WithoutKids(at, p);
    forall q | q in at
      ensures at[q] != NULL_CHILD && if IsChild(q, p) then at[q] in kids else at[q] in rest.Values
    {
      IndexPositive(nodes, at, next, q);
      if IsChild(q, p) {
        KidListed(nodes, at, next, bits, p, kids, q);
      } else {
        assert rest[q] == at[q];
      }
    }
    forall b | 0 <= b < FANOUT && kids[b] != NULL_CHILD
      ensures kids[b] in at.Values && 0 < kids[b] < next && kids[b] !in rest.Values
      ensures forall d :: b < d < FANOUT ==> kids[b] != kids[d]
    {
      KidValue(nodes, at, next, p, kids, b);
    }
    forall n | n in rest.Values
      ensures n in at.Values
    {
      var q :| q in rest && rest[q] == n;
      assert at[q] == n;
    }
  }

  lemma IndexPositive(nodes: seq<Node>, at: map<Pos, nat>, next: nat, q: Pos)
    requires Linked(nodes, at, next) && q in at
    ensures 0 < at[q] < next
  {
    assert NodeLinked(nodes, at, next, q);
  }

  lemma KidValue(nodes: seq<Node>, at: map<Pos, nat>, next: nat, p: Pos, kids: seq<nat>, b: nat)
    requires Linked(nodes, at, next) && |kids| == FANOUT && b < FANOUT && kids[b] != NULL_CHILD
    requires forall b :: 0 <= b < FANOUT ==> kids[b] == Kid(at, p, b)
    ensures kids[b] in at.Values && 0 < kids[b] < next && kids[b] !in WithoutKids(at, p).Values
    ensures forall d :: b < d < FANOUT ==> kids[b] != kids[d]
  {
    var q := Child(p, b);
    assert at[q] == kids[b] && Parent(q) == p;
    IndexPositive(nodes, at, next, q);
    hide NodeLinked;
    forall d | b < d < FANOUT
      ensures kids[b] != kids[d]
    {
      assert Child(p, d).path[|p.path|] == d && q.path[|p.path|] == b;
    }
  }

  lemma KidListed(nodes: seq<Node>, at: map<Pos, nat>, next: nat, bits: nat, p: Pos, kids: seq<nat>, q: Pos)
    requires Linked(nodes, at, next) && WellFormed(CellsOf(nodes, at), bits) && q in at && IsChild(q, p)
    requires |kids| == FANOUT && forall b :: 0 <= b < FANOUT ==> kids[b] == Kid(at, p, b)
    ensures at[q] in kids
  {
    hide FilterOk, At, Pow2;
    assert q in CellsOf(nodes, at);
    var b := q.path[|p.path|];
    assert q == Child(p, b);
    assert kids[b] == Kid(at, p, b);
  }

  lemma DetachPartition(nodes: seq<Node>, at: map<Pos, nat>, next: nat, bits: nat, p: Pos, out: seq<nat>,
      kids: seq<nat>)
    requires Linked(nodes, at, next) && WellFormed(CellsOf(nodes, at), bits) && p in at && Partition(at, out, next)
    requires |kids| == FANOUT && forall b :: 0 <= b < FANOUT ==> kids[b] == Kid(at, p, b)
    ensures Partition(WithoutKids(at, p), out + PresentOf(kids), next)
  {
    hide Linked, WellFormed, CellsOf, PresentOf, WithoutKids;
    DetachedValues(nodes, at, next, bits, p, kids);
    PresentDistinct(kids);
    var d := PresentOf(kids);
    assert forall n :: n in out + d <==> n in out || n in d;
    assert forall i :: 0 <= i < |d| ==> d[i] in d;
    assert forall i :: 0 <= i < |out| ==> out[i] in out;
  }

  /** The node above a path position is not one of the children a collapse there removes, nor is any node above it. */
  lemma NotKids(tag: Word, bits: nat, d: nat)
    ensures forall k :: 0 <= k <= d ==> !IsChild(At(tag, bits, k), At(tag, bits, d))
  {
    hide Branch, ShardOf;
  }

  lemma EraseNothing(c: Cells, bits: nat, tag: Word)
    requires Shaped(c) && Lookup(c, bits, tag).None?
    ensures Erase(c, bits, tag) == c
  {
    hide At, HitDepth;
  }

  lemma DepthBound(nodes: seq<Node>, at: map<Pos, nat>, next: nat, bits: nat, p: Pos)
    requires Linked(nodes, at, next) && WellFormed(CellsOf(nodes, at), bits) && p in at
    ensures |p.path| <= MAX_DEPTH
  {
    hide FilterOk, At, Pow2;
    assert p in CellsOf(nodes, at);
  }

  /** Every position that is not strictly below p is where it was. */
  ghost predicate Untouched(before: map<Pos, nat>, after: map<Pos, nat>, p: Pos) {
    forall q :: q in before && |q.path| <= |p.path| ==> q in after && after[q] == before[q]
  }

  lemma UntouchedAbove(a: map<Pos, nat>, b: map<Pos, nat>, c: map<Pos, nat>, p: Pos, x: nat)
    requires Untouched(a, b, p) && Untouched(b, c, Child(p, x))
    ensures Untouched(a, c, p)
  {}

  lemma UntouchedDetach(a: map<Pos, nat>, b: map<Pos, nat>, p: Pos)
    requires Untouched(a, b, p)
    ensures Untouched(a, WithoutKids(b, p), p)
  {}
}
