/**
 How trie nodes live in the shared pool: nodes are records in one growing array, linked
 by index, and every index from 1 up is either the node of exactly one position or
 waits in the recycling queue.
 */
module NodePool {
  import opened H2Filter
  import opened Trie
  import opened TrieCompaction

  const NULL_CHILD := 0

  /** One pool record: inline slots, child indices, packed filter word, recycle timestamp. */
  datatype Node = Node(slots: seq<Slot>, kids: seq<nat>, h2: bv64, freedAt: int)

  const NO_KIDS: seq<nat> := [0, 0, 0, 0, 0, 0, 0, 0]
  const ZERO_NODE := Node(BLANK, NO_KIDS, 0, 0)

  ghost predicate NoKids(kids: seq<nat>) {
    |kids| == FANOUT && forall b :: 0 <= b < FANOUT ==> kids[b] == NULL_CHILD
  }

  ghost predicate Sized(n: Node) {
    |n.slots| == SLOTS && |n.kids| == FANOUT
  }

  /** Filter group i is the filter value of slot i when that slot is live, and 0 otherwise. */
  ghost predicate FilterOk(n: Node)
    requires |n.slots| == SLOTS
  {
    forall i :: 0 <= i < SLOTS ==> Groups(n.h2)[i] == if Live(n.slots[i].tag) then ForTag(n.slots[i].tag) else 0
  }

  /** Cleared slots, children and filter: what a new or recycled node looks like. */
  ghost predicate IsBlank(n: Node) {
    n.slots == BLANK && NoKids(n.kids) && n.h2 == 0
  }

  ghost function Kid(at: map<Pos, nat>, p: Pos, b: nat): nat {
    if Child(p, b) in at then at[Child(p, b)] else NULL_CHILD
  }

  ghost predicate NodeLinked(nodes: seq<Node>, at: map<Pos, nat>, next: nat, p: Pos)
    requires p in at
  {
    && 0 < at[p] < next <= |nodes|
    && Sized(nodes[at[p]])
    && FilterOk(nodes[at[p]])
    && forall b :: 0 <= b < FANOUT ==> nodes[at[p]].kids[b] == Kid(at, p, b)
  }

  /** at names the pool index of every position; indices are linked accordingly and never shared. */
  ghost predicate Linked(nodes: seq<Node>, at: map<Pos, nat>, next: nat) {
    && (forall p :: p in at ==> NodeLinked(nodes, at, next, p))
    && (forall p, q :: p in at && q in at && at[p] == at[q] ==> p == q)
  }

  ghost function CellsOf(nodes: seq<Node>, at: map<Pos, nat>): Cells
    requires forall p :: p in at ==> at[p] < |nodes|
  {
    map p | p in at :: nodes[at[p]].slots
  }

  /** Every index in 1 .. next - 1 is used by one position or sits once in out; never both. */
  ghost predicate Partition(at: map<Pos, nat>, out: seq<nat>, next: nat) {
    && (forall i, j :: 0 <= i < j < |out| ==> out[i] != out[j])
    && (forall i :: 0 <= i < |out| ==> 0 < out[i] < next && out[i] !in at.Values)
    && (forall n :: 0 < n < next ==> n in at.Values || n in out)
  }

  // ---------- the three ways a linked pool changes ----------

  lemma BlankFilter(n: Node)
    requires IsBlank(n)
    ensures Sized(n) && FilterOk(n)
  {
    ZeroGroups();
  }

  lemma ZeroGroups()
    ensures Groups(0) == [0, 0, 0, 0]
  {}

  /** Writing one slot together with its filter group keeps the filter right. */
  lemma WriteSlotFilter(n: Node, i: nat, s: Slot)
    requires Sized(n) && FilterOk(n) && i < SLOTS
    ensures var v := if Live(s.tag) then ForTag(s.tag) else 0;
            FilterOk(n.(slots := n.slots[i := s], h2 := Put(n.h2, i, v)))
  {
    hide Groups, Put, ForTag;
    PutGroups(n.h2, i, if Live(s.tag) then ForTag(s.tag) else 0);
  }

  lemma ChangeNodeLinked(nodes: seq<Node>, at: map<Pos, nat>, next: nat, p: Pos, n: Node)
    requires Linked(nodes, at, next) && p in at
    requires Sized(n) && FilterOk(n) && n.kids == nodes[at[p]].kids
    ensures Linked(nodes[at[p] := n], at, next)
    ensures CellsOf(nodes[at[p] := n], at) == CellsOf(nodes, at)[p := n.slots]
  {
    hide FilterOk;
    assert forall q :: q in at ==> NodeLinked(nodes, at, next, q);
  }

  lemma RelinkFilter(n: Node, kids: seq<nat>)
    requires |n.slots| == SLOTS && FilterOk(n)
    ensures FilterOk(n.(kids := kids))
  {
    hide Groups, ForTag;
  }

  lemma ChildInjective(p: Pos, b: nat, q: Pos, d: nat)
    requires Child(p, b) == Child(q, d)
    ensures p == q && b == d
  {
    assert Child(p, b).path[..|p.path|] == p.path && Child(q, d).path[..|q.path|] == q.path;
    assert Child(p, b).path[|p.path|] == b && Child(q, d).path[|q.path|] == d;
  }

  /** Publishing a new child in its parent. */
  lemma AttachLinked(nodes: seq<Node>, at: map<Pos, nat>, next: nat, p: Pos, b: nat, idx: nat)
    requires Linked(nodes, at, next) && p in at && b < FANOUT && Child(p, b) !in at
    requires 0 < idx < next && idx !in at.Values
    requires forall d: nat :: Child(Child(p, b), d) !in at
    requires next <= |nodes| && Sized(nodes[idx]) && FilterOk(nodes[idx]) && NoKids(nodes[idx].kids)
    ensures var q := Child(p, b);
            var parent := nodes[at[p]].(kids := nodes[at[p]].kids[b := idx]);
            && Linked(nodes[at[p] := parent], at[q := idx], next)
            && CellsOf(nodes[at[p] := parent], at[q := idx]) == CellsOf(nodes, at)[q := nodes[idx].slots]
  {
    hide FilterOk;
    var q := Child(p, b);
    var parent := nodes[at[p]].(kids := nodes[at[p]].kids[b := idx]);
    var nodes', at' := nodes[at[p] := parent], at[q := idx];
    RelinkFilter(nodes[at[p]], parent.kids);
    assert idx != at[p];
    forall r | r in at'
      ensures NodeLinked(nodes', at', next, r)
    {
      if r == q {
        assert forall d :: Child(q, d) != q;
      } else {
        assert NodeLinked(nodes, at, next, r);
        forall d | 0 <= d < FANOUT
          ensures nodes'[at'[r]].kids[d] == Kid(at', r, d)
        {
          if Child(r, d) == q {
            ChildInjective(r, d, p, b);
          }
          assert Kid(at, r, d) == nodes[at[r]].kids[d];
          assert r != p ==> nodes'[at[r]] == nodes[at[r]];
        }
      }
    }
    assert CellsOf(nodes', at') == CellsOf(nodes, at)[q := nodes[idx].slots];
  }

  ghost function WithoutKids(at: map<Pos, nat>, p: Pos): map<Pos, nat> {
    map q | q in at && !IsChild(q, p) :: at[q]
  }

  /** No position lies two levels below p. */
  ghost predicate NoGrandkids(at: map<Pos, nat>, p: Pos) {
    forall q {:trigger Parent(q)} :: q in at && q.path != [] ==> Parent(q) in at && !IsChild(Parent(q), p)
  }

  /** Detaching all children of a node that has no grandchildren. */
  lemma DetachLinked(nodes: seq<Node>, at: map<Pos, nat>, next: nat, p: Pos, n: Node)
    requires Linked(nodes, at, next) && p in at && NoGrandkids(at, p)
    requires Sized(n) && FilterOk(n) && NoKids(n.kids)
    ensures Linked(nodes[at[p] := n], WithoutKids(at, p), next)
    ensures CellsOf(nodes[at[p] := n], WithoutKids(at, p)) ==
            (map q | q in at && !IsChild(q, p) :: CellsOf(nodes, at)[q])[p := n.slots]
  {
    hide NodeLinked, NoGrandkids, FilterOk, Sized, NoKids, IsChild;
    LinkedBound(nodes, at, next);
    var nodes', at' := nodes[at[p] := n], WithoutKids(at, p);
    forall r | r in at'
      ensures NodeLinked(nodes', at', next, r)
    {
      DetachedNode(nodes, at, next, p, n, r);
    }
    DetachedCells(nodes, at, p, n);
  }

  lemma LinkedBound(nodes: seq<Node>, at: map<Pos, nat>, next: nat)
    requires Linked(nodes, at, next)
    ensures forall q :: q in at ==> at[q] < |nodes|
  {
    hide FilterOk, Sized;
    assert forall q :: q in at ==> NodeLinked(nodes, at, next, q);
  }

  lemma NotOwnChild(p: Pos)
    ensures !IsChild(p, p)
  {}

  lemma ChildOf(r: Pos, d: nat)
    ensures Child(r, d).path != [] && Parent(Child(r, d)) == r
  {}

  /** One node of the pool after the children of p are gone. */
  lemma DetachedNode(nodes: seq<Node>, at: map<Pos, nat>, next: nat, p: Pos, n: Node, r: Pos)
    requires Linked(nodes, at, next) && p in at && NoGrandkids(at, p)
    requires Sized(n) && FilterOk(n) && NoKids(n.kids) && r in WithoutKids(at, p)
    ensures NodeLinked(nodes[at[p] := n], WithoutKids(at, p), next, r)
  {
    hide FilterOk, Child, Parent;
    assert NodeLinked(nodes, at, next, r) && NodeLinked(nodes, at, next, p);
    var at' := WithoutKids(at, p);
    forall d | 0 <= d < FANOUT
      ensures Kid(at', r, d) == if r == p then NULL_CHILD else Kid(at, r, d)
    {
      ChildOf(r, d);
    }
  }

  lemma DetachedCells(nodes: seq<Node>, at: map<Pos, nat>, p: Pos, n: Node)
    requires p in at && (forall q :: q in at ==> at[q] < |nodes|)
    requires forall q, r :: q in at && r in at && at[q] == at[r] ==> q == r
    ensures CellsOf(nodes[at[p] := n], WithoutKids(at, p)) ==
            (map q | q in at && !IsChild(q, p) :: CellsOf(nodes, at)[q])[p := n.slots]
  {
    hide IsChild;
    NotOwnChild(p);
  }
}
