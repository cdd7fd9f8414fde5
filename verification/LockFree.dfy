/**
 The lock-free reader against the writers of its shard, store by store.

 One shard's memory is changed by the stores of one Set at a time (the shard mutex) and
 read by Get without a lock; every store and every load is its own step, so a run is any
 interleaving.  Nodes of other shards are disjoint from this one's (the pool partition),
 so other shards only show up as index allocations.  There are no deletes.
 */
module LockFree {
  import opened Machine
  import opened H2Filter
  import opened Trie
  import opened NodePool

  type Memory = map<nat, Node>

  // ---------- sequential meaning ----------

  /** The node reached by following the tag's branches d times from the root; 0 if a link is missing. */
  ghost function Walk(m: Memory, root: nat, bits: nat, tag: Word, d: nat): nat {
    if d == 0 then root
    else
      var n := Walk(m, root, bits, tag, d - 1);
      if n in m && |m[n].kids| == FANOUT then m[n].kids[Branch(tag, bits, d - 1)] else NULL_CHILD
  }

  /** Slot i of the node at depth d on the tag's path holds the tag. */
  ghost predicate Holds(m: Memory, root: nat, bits: nat, tag: Word, d: nat, i: nat) {
    var n := Walk(m, root, bits, tag, d);
    d <= MAX_DEPTH && n in m && i < |m[n].slots| && m[n].slots[i].tag == tag
  }

  /** The lock-protected, unfiltered scan from depth d on: the value a sequential Get reads. */
  ghost function ScanFrom(m: Memory, root: nat, bits: nat, tag: Word, d: nat): Option<Word>
    decreases MAX_DEPTH + 1 - d
  {
    var n := Walk(m, root, bits, tag, d);
    if d > MAX_DEPTH || n !in m then None
    else
      var i := Find(m[n].slots, tag);
      if i < |m[n].slots| then Some(m[n].slots[i].val) else ScanFrom(m, root, bits, tag, d + 1)
  }

  ghost predicate OnceOnPath(m: Memory, root: nat, bits: nat, tag: Word) {
    forall d, i, e, j :: Holds(m, root, bits, tag, d, i) && Holds(m, root, bits, tag, e, j) ==> d == e && i == j
  }

  /** With at most one occurrence on the path, the scan reads it wherever it is. */
  lemma {:induction false} ScanReads(m: Memory, root: nat, bits: nat, tag: Word, d: nat, i: nat, from: nat)
    requires OnceOnPath(m, root, bits, tag) && Holds(m, root, bits, tag, d, i) && from <= d
    requires NULL_CHILD !in m
    ensures ScanFrom(m, root, bits, tag, from) == Some(m[Walk(m, root, bits, tag, d)].slots[i].val)
    decreases d - from
  {
    hide Branch, Find;
    WalkThere(m, root, bits, tag, from, d);
    var n := Walk(m, root, bits, tag, from);
    var f := Find(m[n].slots, tag);
    if f < |m[n].slots| {
      assert Holds(m, root, bits, tag, from, f);
    } else {
      assert from != d;
      ScanReads(m, root, bits, tag, d, i, from + 1);
    }
  }

  lemma {:induction false} WalkThere(m: Memory, root: nat, bits: nat, tag: Word, from: nat, d: nat)
    requires from <= d && Walk(m, root, bits, tag, d) in m && NULL_CHILD !in m
    ensures Walk(m, root, bits, tag, from) in m
    decreases d
  {
    hide Branch;
    if from < d {
      WalkThere(m, root, bits, tag, from, d - 1);
    }
  }

  lemma {:induction false} ScanFinds(m: Memory, root: nat, bits: nat, tag: Word, from: nat)
    requires ScanFrom(m, root, bits, tag, from).Some?
    ensures exists d, i :: from <= d && Holds(m, root, bits, tag, d, i)
    decreases MAX_DEPTH + 1 - from
  {
    hide Branch, Find;
    var n := Walk(m, root, bits, tag, from);
    var f := Find(m[n].slots, tag);
    if f < |m[n].slots| {
      assert Holds(m, root, bits, tag, from, f);
    } else {
      ScanFinds(m, root, bits, tag, from + 1);
    }
  }

  // ---------- the protocol ----------

  /** Which store a Set performs next: filter word, value, tag, and last the link to a new node. */
  datatype Stage = AtH2 | AtVal | AtTag | AtLink

  datatype Link = NoLink | Link(parent: nat, branch: nat)

  datatype Writer =
    | Free
    | Updating(tag: Word, val: Word, n: nat, i: nat)
    | Inserting(tag: Word, val: Word, n: nat, i: nat, link: Link, stage: Stage)

  /** The reader's program counter: about to load the filter, slot i's tag, slot i's value, or a child link. */
  datatype Reader =
    | Idle
    | AtFilter(n: nat, d: nat)
    | AtSlot(n: nat, d: nat, i: nat)
    | AtValue(n: nat, d: nat, i: nat)
    | AtChild(n: nat, d: nat)
    | Done(result: Option<Word>)

  /**
   level is each node's depth; begun collects every Set that goes on to store; start is what a
   sequential Get would have answered when the current Get began.
   */
  datatype State = State(
    m: Memory, root: nat, next: nat, writer: Writer,
    level: map<nat, nat>, begun: set<(Word, Word)>,
    reader: Reader, start: Option<Word>)

  ghost predicate Init(s: State) {
    && 0 < s.root < s.next
    && s.m == map[s.root := ZERO_NODE] && s.level == map[s.root := 0]
    && s.writer == Free && s.begun == {} && s.reader == Idle && s.start == None
  }

  /** Taking the shard lock for Set(tag, val): the loads that pick the slot, and the allocation of a new node. */
  ghost function BeginAt(s: State, bits: nat, tag: Word, val: Word, d: nat): State
    requires d <= MAX_DEPTH
    decreases MAX_DEPTH - d
  {
    var n := Walk(s.m, s.root, bits, tag, d);
    if n !in s.m || !Sized(s.m[n]) then s
    else
      var i := InsertSlot(s.m[n].slots, tag);
      var b := Branch(tag, bits, d);
      if i < SLOTS then
        s.(writer := if s.m[n].slots[i].tag == tag then Updating(tag, val, n, i)
                     else Inserting(tag, val, n, i, NoLink, AtH2))
      else if s.m[n].kids[b] == NULL_CHILD then
        if d == MAX_DEPTH then s
        else s.(m := s.m[s.next := ZERO_NODE], next := s.next + 1, level := s.level[s.next := d + 1],
                writer := Inserting(tag, val, s.next, 0, Link(n, b), AtH2))
      else if d < MAX_DEPTH then BeginAt(s, bits, tag, val, d + 1)
      else s
  }

  ghost predicate BeginSet(s: State, s': State, bits: nat, tag: Word, val: Word) {
    && s.writer.Free? && Live(tag)
    && var begun := BeginAt(s.(begun := s.begun + {(tag, val)}), bits, tag, val, 0);
       s' == if begun.writer.Free? then s else begun
  }

  /** One store of the Set that holds the lock. */
  ghost predicate WriterStep(s: State, s': State) {
    match s.writer
    case Free => false
    case Updating(tag, val, n, i) =>
      && n in s.m && i < |s.m[n].slots|
      && s' == s.(m := s.m[n := s.m[n].(slots := s.m[n].slots[i := s.m[n].slots[i].(val := val)])], writer := Free)
    case Inserting(tag, val, n, i, link, AtH2) =>
      && n in s.m && i < GROUPS
      && s' == s.(m := s.m[n := s.m[n].(h2 := Put(s.m[n].h2, i, ForTag(tag)))], writer := s.writer.(stage := AtVal))
    case Inserting(tag, val, n, i, link, AtVal) =>
      && n in s.m && i < |s.m[n].slots|
      && s' == s.(m := s.m[n := s.m[n].(slots := s.m[n].slots[i := s.m[n].slots[i].(val := val)])],
                  writer := s.writer.(stage := AtTag))
    case Inserting(tag, val, n, i, link, AtTag) =>
      && n in s.m && i < |s.m[n].slots|
      && s' == s.(m := s.m[n := s.m[n].(slots := s.m[n].slots[i := s.m[n].slots[i].(tag := tag)])],
                  writer := if link.NoLink? then Free else s.writer.(stage := AtLink))
    case Inserting(tag, val, n, i, link, AtLink) =>
      && link.Link? && link.parent in s.m && link.branch < |s.m[link.parent].kids|
      && s' == s.(m := s.m[link.parent := s.m[link.parent].(kids := s.m[link.parent].kids[link.branch := n])],
                  writer := Free)
  }

  /** One load of the reader looking for tag. */
  ghost predicate ReaderStep(s: State, s': State, bits: nat, tag: Word) {
    match s.reader
    case Idle => s' == s.(reader := AtFilter(s.root, 0), start := ScanFrom(s.m, s.root, bits, tag, 0))
    case AtFilter(n, d) =>
      if d > MAX_DEPTH || n == NULL_CHILD then s' == s.(reader := Done(None))
      else n in s.m && s' == s.(reader := if AnyMatch(s.m[n].h2, ForTag(tag)) then AtSlot(n, d, 0) else AtChild(n, d))
    case AtSlot(n, d, i) =>
      if i >= SLOTS then s' == s.(reader := AtChild(n, d))
      else
        && n in s.m && i < |s.m[n].slots|
        && s' == s.(reader := if s.m[n].slots[i].tag == tag then AtValue(n, d, i) else AtSlot(n, d, i + 1))
    case AtValue(n, d, i) => n in s.m && i < |s.m[n].slots| && s' == s.(reader := Done(Some(s.m[n].slots[i].val)))
    case AtChild(n, d) =>
      && n in s.m && |s.m[n].kids| == FANOUT
      && s' == s.(reader := AtFilter(s.m[n].kids[Branch(tag, bits, d)], d + 1))
    case Done(_) => s' == s.(reader := Idle)
  }

  /** Every step of the system: a Set takes the lock, a store, a load, or an allocation by another shard. */
  ghost predicate Step(s: State, s': State, bits: nat, tag: Word) {
    || (exists t, v :: BeginSet(s, s', bits, t, v))
    || WriterStep(s, s')
    || ReaderStep(s, s', bits, tag)
    || (s.next <= s'.next && s' == s.(next := s'.next))
  }

  // ---------- the inductive invariant ----------

  ghost function Level(s: State, n: nat): nat {
    if n in s.level then s.level[n] else 0
  }

  /** Every live slot's filter group is right; a group may be ahead of its slot. */
  ghost predicate FilterSound(n: Node)
    requires |n.slots| == SLOTS
  {
    forall i :: 0 <= i < SLOTS && Live(n.slots[i].tag) ==> Groups(n.h2)[i] == ForTag(n.slots[i].tag)
  }

  ghost predicate NodeGood(s: State, n: nat)
    requires n in s.m
  {
    var node := s.m[n];
    && 0 < n < s.next && n in s.level && Sized(node) && Packed(node.slots) && FilterSound(node)
    && (forall i :: 0 <= i < SLOTS ==> node.slots[i].tag != TOMBSTONE)
    && (forall i :: 0 <= i < SLOTS && Live(node.slots[i].tag) ==> (node.slots[i].tag, node.slots[i].val) in s.begun)
    && (forall b :: 0 <= b < FANOUT && node.kids[b] != NULL_CHILD ==>
          node.kids[b] in s.m && Level(s, node.kids[b]) == Level(s, n) + 1)
    && (!NoKids(node.kids) ==> forall i :: 0 <= i < SLOTS ==> Live(node.slots[i].tag))
  }

  ghost predicate MemoryGood(s: State, bits: nat) {
    && s.root in s.m && s.level.Keys == s.m.Keys && s.level[s.root] == 0
    && (forall n :: n in s.m ==> NodeGood(s, n))
    && (forall tag :: Live(tag) ==> OnceOnPath(s.m, s.root, bits, tag))
  }

  /** The slot an insertion is filling: empty until the tag store, with the filter and value already right. */
  ghost predicate SlotReady(s: State, n: nat, i: nat, tag: Word, val: Word, stage: Stage)
    requires n in s.m && |s.m[n].slots| == SLOTS && i < SLOTS
  {
    && s.m[n].slots[i].tag == (if stage.AtLink? then tag else EMPTY)
    && (forall k :: 0 <= k < i ==> Live(s.m[n].slots[k].tag))
    && (!stage.AtH2? ==> Groups(s.m[n].h2)[i] == ForTag(tag))
    && (stage.AtTag? || stage.AtLink? ==> s.m[n].slots[i].val == val)
  }

  ghost predicate WriterGood(s: State, bits: nat) {
    match s.writer
    case Free => true
    case Updating(tag, val, n, i) =>
      && Live(tag) && (tag, val) in s.begun && n in s.m && i < |s.m[n].slots| && s.m[n].slots[i].tag == tag
      && Walk(s.m, s.root, bits, tag, Level(s, n)) == n && Level(s, n) <= MAX_DEPTH
    case Inserting(tag, val, n, i, link, stage) =>
      && Live(tag) && (tag, val) in s.begun
      && TargetGood(s, n, i, tag, val, stage)
      && (forall d, k :: !Holds(s.m, s.root, bits, tag, d, k))
      && (link.NoLink? ==> Walk(s.m, s.root, bits, tag, Level(s, n)) == n && !stage.AtLink?)
      && (link.Link? ==> LinkGood(s, bits, tag, n, i, link.parent, link.branch))
  }

  /** The node being written: on a legal level, childless, its slot in the expected stage. */
  ghost predicate TargetGood(s: State, n: nat, i: nat, tag: Word, val: Word, stage: Stage) {
    && n in s.m && i < SLOTS && |s.m[n].slots| == SLOTS
    && Level(s, n) <= MAX_DEPTH && NoKids(s.m[n].kids)
    && SlotReady(s, n, i, tag, val, stage)
  }

  /** A new node n is about to be linked below the full node p, on the tag's path. */
  ghost predicate LinkGood(s: State, bits: nat, tag: Word, n: nat, i: nat, p: nat, b: nat) {
    && n in s.m && p in s.m && b < FANOUT && |s.m[p].kids| == FANOUT && i == 0
    && Unlinked(s.m, s.root, n)
    && Walk(s.m, s.root, bits, tag, Level(s, p)) == p && b == Branch(tag, bits, Level(s, p))
    && Level(s, n) == Level(s, p) + 1 && s.m[p].kids[b] == NULL_CHILD
    && (forall k :: 0 <= k < |s.m[p].slots| ==> Live(s.m[p].slots[k].tag))
    && (forall k :: 1 <= k < |s.m[n].slots| ==> s.m[n].slots[k].tag == EMPTY)
  }

  /** No node links to n. */
  ghost predicate Unlinked(m: Memory, root: nat, n: nat) {
    n != root && forall k, b :: k in m && 0 <= b < |m[k].kids| ==> m[k].kids[b] != n
  }

  /** Some occurrence of the tag lies ahead of the reader: deeper, or from slot i of depth d on. */
  ghost predicate Ahead(s: State, bits: nat, tag: Word, d: nat, i: nat) {
    exists e, j :: Holds(s.m, s.root, bits, tag, e, j) && (d < e || (d == e && i <= j))
  }

  ghost predicate ReaderGood(s: State, bits: nat, tag: Word) {
    match s.reader
    case Idle => true
    case AtFilter(n, d) =>
      && (n != NULL_CHILD ==> n in s.m && Walk(s.m, s.root, bits, tag, d) == n)
      && (s.start.Some? ==> n != NULL_CHILD && Ahead(s, bits, tag, d, 0))
    case AtSlot(n, d, i) =>
      n in s.m && Walk(s.m, s.root, bits, tag, d) == n && d <= MAX_DEPTH
          && (s.start.Some? ==> Ahead(s, bits, tag, d, i))
    case AtValue(n, d, i) => Holds(s.m, s.root, bits, tag, d, i) && Walk(s.m, s.root, bits, tag, d) == n
    case AtChild(n, d) =>
      n in s.m && Walk(s.m, s.root, bits, tag, d) == n && d <= MAX_DEPTH
          && (s.start.Some? ==> Ahead(s, bits, tag, d + 1, 0))
    case Done(r) => (r.None? ==> s.start.None?) && (r.Some? ==> (tag, r.value) in s.begun)
  }

  ghost predicate Inv(s: State, bits: nat, tag: Word) {
    MemoryGood(s, bits) && WriterGood(s, bits) && ReaderGood(s, bits, tag)
  }

  // ---------- memory only grows ----------

  /** Links that exist stay, and live slots keep their tag. */
  ghost predicate Grows(m: Memory, m': Memory) {
    forall n :: n in m ==>
      && n in m' && Sized(m[n]) && Sized(m'[n])
      && (forall b :: 0 <= b < FANOUT && m[n].kids[b] != NULL_CHILD ==> m'[n].kids[b] == m[n].kids[b])
      && (forall i :: 0 <= i < SLOTS && Live(m[n].slots[i].tag) ==> m'[n].slots[i].tag == m[n].slots[i].tag)
  }

  lemma {:induction false} WalkStable(m: Memory, m': Memory, root: nat, bits: nat, tag: Word, d: nat)
    requires Grows(m, m') && NULL_CHILD !in m && Walk(m, root, bits, tag, d) in m
    ensures Walk(m', root, bits, tag, d) == Walk(m, root, bits, tag, d)
  {
    hide Branch;
    if d > 0 {
      WalkThere(m, root, bits, tag, d - 1, d);
      WalkStable(m, m', root, bits, tag, d - 1);
    }
  }

  lemma HoldsStable(m: Memory, m': Memory, root: nat, bits: nat, tag: Word, d: nat, i: nat)
    requires Grows(m, m') && NULL_CHILD !in m && Live(tag) && Holds(m, root, bits, tag, d, i)
    ensures Holds(m', root, bits, tag, d, i)
  {
    hide Walk;
    WalkStable(m, m', root, bits, tag, d);
  }

  /** Same links, possibly one more node that nothing links to: same walks. */
  lemma {:induction false} WalkSame(m: Memory, m': Memory, root: nat, bits: nat, tag: Word, d: nat)
    requires root in m && NULL_CHILD !in m' && forall n :: n in m ==> n in m' && m'[n].kids == m[n].kids
    requires forall n, b :: n in m && 0 <= b < |m[n].kids| && m[n].kids[b] in m' ==> m[n].kids[b] in m
    ensures Walk(m', root, bits, tag, d) == Walk(m, root, bits, tag, d)
    ensures Walk(m', root, bits, tag, d) in m' ==> Walk(m', root, bits, tag, d) in m
  {
    hide Branch;
    if d > 0 {
      WalkSame(m, m', root, bits, tag, d - 1);
    }
  }

  lemma KidLevel(s: State, n: nat, b: nat)
    requires n in s.m && NodeGood(s, n) && b < |s.m[n].kids| && s.m[n].kids[b] in s.m && NULL_CHILD !in s.m
    ensures Level(s, s.m[n].kids[b]) == Level(s, n) + 1
  {
    hide FilterSound, Packed;
  }

  lemma {:induction false} WalkLevel(s: State, bits: nat, tag: Word, d: nat)
    requires s.root in s.m && Level(s, s.root) == 0 && NULL_CHILD !in s.m
    requires forall n :: n in s.m ==> NodeGood(s, n)
    requires Walk(s.m, s.root, bits, tag, d) in s.m
    ensures Level(s, Walk(s.m, s.root, bits, tag, d)) == d
  {
    hide Branch, NodeGood, Level;
    if d > 0 {
      WalkThere(s.m, s.root, bits, tag, d - 1, d);
      WalkLevel(s, bits, tag, d - 1);
      KidLevel(s, Walk(s.m, s.root, bits, tag, d - 1), Branch(tag, bits, d - 1));
    }
  }

  lemma ReaderKeeps(s: State, s': State, bits: nat, tag: Word)
    requires Grows(s.m, s'.m) && NULL_CHILD !in s.m && Live(tag) && ReaderGood(s, bits, tag)
    requires s'.root == s.root && s'.reader == s.reader && s'.start == s.start && s.begun <= s'.begun
    ensures ReaderGood(s', bits, tag)
  {
    hide Walk, Grows;
    forall d, i | Holds(s.m, s.root, bits, tag, d, i)
      ensures Holds(s'.m, s.root, bits, tag, d, i)
    {
      HoldsStable(s.m, s'.m, s.root, bits, tag, d, i);
    }
    forall d: nat | Walk(s.m, s.root, bits, tag, d) in s.m
      ensures Walk(s'.m, s.root, bits, tag, d) == Walk(s.m, s.root, bits, tag, d)
    {
      WalkStable(s.m, s'.m, s.root, bits, tag, d);
    }
    assert forall n :: n in s.m ==> n in s'.m by {
      GrowsDomain(s.m, s'.m);
    }
  }

  lemma GrowsDomain(m: Memory, m': Memory)
    requires Grows(m, m')
    ensures forall n :: n in m ==> n in m'
  {}

  // ---------- quiet changes: no link and no tag changes ----------

  ghost predicate SameTags(a: Node, b: Node) {
    |a.slots| == |b.slots| && a.kids == b.kids && forall i :: 0 <= i < |a.slots| ==> a.slots[i].tag == b.slots[i].tag
  }

  /** Storing a value or a filter word leaves every walk and every occurrence where it was. */
  lemma QuietWalks(m: Memory, root: nat, bits: nat, n: nat, node: Node)
    requires root in m && NULL_CHILD !in m && n in m && SameTags(m[n], node)
    ensures forall tag, d :: Walk(m[n := node], root, bits, tag, d) == Walk(m, root, bits, tag, d)
    ensures forall tag, d, i :: Holds(m[n := node], root, bits, tag, d, i) <==> Holds(m, root, bits, tag, d, i)
  {
    hide Walk;
    var m' := m[n := node];
    forall tag: Word, d: nat
      ensures Walk(m', root, bits, tag, d) == Walk(m, root, bits, tag, d)
    {
      WalkSame(m, m', root, bits, tag, d);
    }
  }

  lemma QuietNode(s: State, s': State, n: nat, node: Node, k: nat)
    requires n in s.m && k in s.m && NodeGood(s, k) && SameTags(s.m[n], node) && FilterSoundAt(node)
    requires s' == s.(m := s.m[n := node], writer := s'.writer)
    requires forall i :: 0 <= i < |node.slots| && Live(node.slots[i].tag) ==>
               (node.slots[i].tag, node.slots[i].val) in s.begun
    ensures NodeGood(s', k)
  {
    hide FilterSound;
    assert Packed(s'.m[k].slots);
  }

  ghost predicate FilterSoundAt(n: Node) {
    |n.slots| == SLOTS && FilterSound(n)
  }

  lemma QuietStore(s: State, s': State, bits: nat, n: nat, node: Node)
    requires MemoryGood(s, bits) && n in s.m && SameTags(s.m[n], node) && FilterSoundAt(node)
    requires s' == s.(m := s.m[n := node], writer := s'.writer)
    requires forall i :: 0 <= i < |node.slots| && Live(node.slots[i].tag) ==>
               (node.slots[i].tag, node.slots[i].val) in s.begun
    ensures MemoryGood(s', bits) && Grows(s.m, s'.m)
    ensures forall tag, d :: Walk(s'.m, s.root, bits, tag, d) == Walk(s.m, s.root, bits, tag, d)
    ensures forall tag, d, i :: Holds(s'.m, s.root, bits, tag, d, i) <==> Holds(s.m, s.root, bits, tag, d, i)
  {
    hide Walk, FilterSoundAt, Holds, NodeGood;
    NullOutside(s, bits);
    QuietWalks(s.m, s.root, bits, n, node);
    forall k | k in s'.m
      ensures NodeGood(s', k)
    {
      QuietNode(s, s', n, node, k);
    }
    forall tag | Live(tag)
      ensures OnceOnPath(s'.m, s.root, bits, tag)
    {
      OnceFewer(s.m, s'.m, s.root, bits, tag);
    }
    QuietGrows(s, bits, n, node);
  }

  lemma OnceFewer(m: Memory, m': Memory, root: nat, bits: nat, tag: Word)
    requires OnceOnPath(m, root, bits, tag)
    requires forall d, i :: Holds(m', root, bits, tag, d, i) ==> Holds(m, root, bits, tag, d, i)
    ensures OnceOnPath(m', root, bits, tag)
  {
    hide Holds;
  }

  lemma NullOutside(s: State, bits: nat)
    requires MemoryGood(s, bits)
    ensures NULL_CHILD !in s.m && forall n :: n in s.m ==> Sized(s.m[n]) && n < s.next
  {
    hide Walk, FilterSound, Packed, Holds;
    assert NULL_CHILD in s.m ==> NodeGood(s, NULL_CHILD);
  }

  lemma QuietGrows(s: State, bits: nat, n: nat, node: Node)
    requires MemoryGood(s, bits) && n in s.m && SameTags(s.m[n], node)
    ensures Grows(s.m, s.m[n := node])
  {
    hide Walk, FilterSound, Packed, Holds;
    NullOutside(s, bits);
  }

  lemma AllocWalks(s: State, bits: nat)
    requires MemoryGood(s, bits)
    ensures var m' := s.m[s.next := ZERO_NODE];
            && (forall tag, d :: Walk(m', s.root, bits, tag, d) == Walk(s.m, s.root, bits, tag, d))
            && (forall tag, d, i :: Holds(m', s.root, bits, tag, d, i) ==> Holds(s.m, s.root, bits, tag, d, i))
            && Unlinked(m', s.root, s.next)
  {
    hide Walk, NodeGood, OnceOnPath;
    NullOutside(s, bits);
    AllocLinks(s, bits);
    var m' := s.m[s.next := ZERO_NODE];
    forall tag: Word, d: nat
      ensures Walk(m', s.root, bits, tag, d) == Walk(s.m, s.root, bits, tag, d)
      ensures Walk(m', s.root, bits, tag, d) in m' ==> Walk(m', s.root, bits, tag, d) in s.m
    {
      WalkSame(s.m, m', s.root, bits, tag, d);
    }
  }

  lemma AllocNode(s: State, s': State, k: nat)
    requires k in s'.m && (k in s.m ==> NodeGood(s, k)) && s.next !in s.m && 0 < s.next && s.level.Keys == s.m.Keys
    requires s'.m == s.m[s.next := ZERO_NODE] && s'.next == s.next + 1 && s'.begun == s.begun
    requires s'.level.Keys == s.m.Keys + {s.next} && forall n :: n in s.level ==> s'.level[n] == s.level[n]
    ensures NodeGood(s', k)
  {
    hide FilterSound, Packed;
    if k == s.next {
      ZeroSound();
    }
  }

  /** A new node that nothing links to changes no walk and no occurrence. */
  lemma AllocQuiet(s: State, s': State, bits: nat, level: nat)
    requires MemoryGood(s, bits)
    requires s' == s.(m := s.m[s.next := ZERO_NODE], next := s.next + 1, level := s.level[s.next := level],
                      writer := s'.writer)
    ensures MemoryGood(s', bits) && Grows(s.m, s'.m)
    ensures forall tag, d :: Walk(s'.m, s.root, bits, tag, d) == Walk(s.m, s.root, bits, tag, d)
    ensures forall tag, d, i :: Holds(s'.m, s.root, bits, tag, d, i) ==> Holds(s.m, s.root, bits, tag, d, i)
    ensures Unlinked(s'.m, s.root, s.next)
  {
    hide Walk, NodeGood, Holds, Unlinked;
    NullOutside(s, bits);
    AllocLinks(s, bits);
    AllocWalks(s, bits);
    forall k | k in s'.m
      ensures NodeGood(s', k)
    {
      AllocNode(s, s', k);
    }
    forall tag | Live(tag)
      ensures OnceOnPath(s'.m, s.root, bits, tag)
    {
      OnceFewer(s.m, s'.m, s.root, bits, tag);
    }
  }

  lemma ZeroSound()
    ensures FilterSoundAt(ZERO_NODE) && Packed(ZERO_NODE.slots) && NoKids(ZERO_NODE.kids)
  {}

  lemma AllocLinks(s: State, bits: nat)
    requires MemoryGood(s, bits)
    ensures forall n, b :: n in s.m && 0 <= b < |s.m[n].kids| && s.m[n].kids[b] != NULL_CHILD ==> s.m[n].kids[b] in s.m
    ensures s.next !in s.m && s.next > 0
  {
    hide Walk, FilterSound, Packed, Holds;
    NullOutside(s, bits);
    forall n, b | n in s.m && 0 <= b < |s.m[n].kids| && s.m[n].kids[b] != NULL_CHILD
      ensures s.m[n].kids[b] in s.m
    {
      assert NodeGood(s, n);
    }
  }

  // ---------- taking the lock ----------

  /** The tag is in none of the nodes at depth 0 .. d - 1 of its path. */
  ghost predicate NotAbove(m: Memory, root: nat, bits: nat, tag: Word, d: nat) {
    forall e: nat, k: nat :: e < d ==> !Holds(m, root, bits, tag, e, k)
  }

  /** Without a link at depth d, the path ends there. */
  lemma PathEnds(m: Memory, root: nat, bits: nat, tag: Word, d: nat)
    requires NULL_CHILD !in m && NotAbove(m, root, bits, tag, d + 1) && Walk(m, root, bits, tag, d + 1) !in m
    ensures forall e, k :: !Holds(m, root, bits, tag, e, k)
  {
    hide Walk;
    forall e, k | Holds(m, root, bits, tag, e, k)
      ensures false
    {
      WalkThere(m, root, bits, tag, d + 1, e);
    }
  }

  /** What the slot choice tells when there are no tombstones. */
  lemma SlotChoice(slots: seq<Slot>, tag: Word)
    requires |slots| == SLOTS && Packed(slots) && Live(tag) && forall i :: 0 <= i < SLOTS ==> slots[i].tag != TOMBSTONE
    ensures var i := InsertSlot(slots, tag);
            && (i < SLOTS ==> slots[i].tag == tag || slots[i].tag == EMPTY)
            && (i < SLOTS && slots[i].tag == EMPTY ==>
                  (forall k :: 0 <= k < SLOTS ==>
                   slots[k].tag != tag) && (forall k :: 0 <= k < i ==> Live(slots[k].tag)))
            && (i == SLOTS ==> forall k :: 0 <= k < SLOTS ==> Live(slots[k].tag) && slots[k].tag != tag)
  {
    hide Find, FindOrEmpty, InsertSlot;
    InsertSlotChoice(slots, tag);
    InsertSlotFirst(slots, tag);
    if InsertSlot(slots, tag) < SLOTS && slots[InsertSlot(slots, tag)].tag == EMPTY {
      InsertSlotOrder(slots, tag);
    }
  }

  lemma InsertSlotOrder(slots: seq<Slot>, tag: Word)
    requires InsertSlot(slots, tag) < |slots| && slots[InsertSlot(slots, tag)].tag == EMPTY
    ensures forall k :: 0 <= k < InsertSlot(slots, tag) ==> slots[k].tag != EMPTY
  {
    hide Find, FindOrEmpty;
  }

  ghost predicate OnlyWriterMoved(s: State, s': State) {
    s'.root == s.root && s'.begun == s.begun && s'.reader == s.reader && s'.start == s.start
  }

  /** The state in which Set has found a slot in the node at depth d. */
  ghost function Found(s: State, bits: nat, tag: Word, val: Word, d: nat): State {
    var n := Walk(s.m, s.root, bits, tag, d);
    if n !in s.m then s
    else
      var i := InsertSlot(s.m[n].slots, tag);
      s.(writer := if i < |s.m[n].slots| && s.m[n].slots[i].tag == tag then Updating(tag, val, n, i)
                   else Inserting(tag, val, n, i, NoLink, AtH2))
  }

  lemma BeginHere(s: State, bits: nat, tag: Word, val: Word, d: nat)
    requires MemoryGood(s, bits) && Live(tag) && (tag, val) in s.begun && d <= MAX_DEPTH
    requires Walk(s.m, s.root, bits, tag, d) in s.m && NotAbove(s.m, s.root, bits, tag, d)
    requires InsertSlot(s.m[Walk(s.m, s.root, bits, tag, d)].slots, tag) < SLOTS
    ensures WriterGood(Found(s, bits, tag, val, d), bits)
  {
    hide Branch, FilterSound, InsertSlot, Unlinked, OnceOnPath, Walk;
    NullOutside(s, bits);
    var n := Walk(s.m, s.root, bits, tag, d);
    assert NodeGood(s, n);
    WalkLevel(s, bits, tag, d);
    SlotChoice(s.m[n].slots, tag);
    var i := InsertSlot(s.m[n].slots, tag);
    if s.m[n].slots[i].tag != tag {
      assert NoKids(s.m[n].kids);
      WalkOn(s.m, s.root, bits, tag, d);
      PathEnds(s.m, s.root, bits, tag, d);
    }
  }

  lemma WalkOn(m: Memory, root: nat, bits: nat, tag: Word, d: nat)
    requires Walk(m, root, bits, tag, d) in m && |m[Walk(m, root, bits, tag, d)].kids| == FANOUT
    ensures Walk(m, root, bits, tag, d + 1) == m[Walk(m, root, bits, tag, d)].kids[Branch(tag, bits, d)]
  {}

  /** The state in which Set has allocated a child below the node at depth d. */
  ghost function Below(s: State, bits: nat, tag: Word, val: Word, d: nat): State {
    s.(m := s.m[s.next := ZERO_NODE], next := s.next + 1, level := s.level[s.next := d + 1],
       writer := Inserting(tag, val, s.next, 0, Link(Walk(s.m, s.root, bits, tag, d), Branch(tag, bits, d)), AtH2))
  }

  lemma BeginBelow(s: State, bits: nat, tag: Word, val: Word, d: nat)
    requires MemoryGood(s, bits) && Live(tag) && (tag, val) in s.begun && d < MAX_DEPTH
    requires Walk(s.m, s.root, bits, tag, d) in s.m && NotAbove(s.m, s.root, bits, tag, d)
    requires var node := s.m[Walk(s.m, s.root, bits, tag, d)];
             && |node.kids| == FANOUT && node.kids[Branch(tag, bits, d)] == NULL_CHILD
             && (forall k :: 0 <= k < |node.slots| ==> Live(node.slots[k].tag) && node.slots[k].tag != tag)
    ensures var s' := Below(s, bits, tag, val, d);
            MemoryGood(s', bits) && WriterGood(s', bits) && Grows(s.m, s'.m)
  {
    hide Branch, NodeGood, OnceOnPath, Unlinked, Walk, Grows, FilterSound;
    var n := Walk(s.m, s.root, bits, tag, d);
    var s' := Below(s, bits, tag, val, d);
    NullOutside(s, bits);
    AllocLinks(s, bits);
    AllocQuiet(s, s', bits, d + 1);
    WalkLevel(s, bits, tag, d);
    WalkOn(s.m, s.root, bits, tag, d);
    PathEnds(s.m, s.root, bits, tag, d);
    ZeroSound();
    assert Level(s', n) == d && Level(s', s.next) == d + 1;
  }

  lemma {:induction false} BeginAtGood(s: State, bits: nat, tag: Word, val: Word, d: nat)
    requires MemoryGood(s, bits) && s.writer.Free? && Live(tag) && (tag, val) in s.begun && d <= MAX_DEPTH
    requires Walk(s.m, s.root, bits, tag, d) in s.m && NotAbove(s.m, s.root, bits, tag, d)
    ensures var s' := BeginAt(s, bits, tag, val, d);
            MemoryGood(s', bits) && WriterGood(s', bits) && Grows(s.m, s'.m) && OnlyWriterMoved(s, s')
    decreases MAX_DEPTH - d
  {
    hide Branch, InsertSlot, Walk, Holds, WriterGood, MemoryGood, Grows, NotAbove, Packed;
    NullOutside(s, bits);
    var n := Walk(s.m, s.root, bits, tag, d);
    GoodAt(s, bits, n);
    SlotChoice(s.m[n].slots, tag);
    var i := InsertSlot(s.m[n].slots, tag);
    if i < SLOTS {
      BeginHere(s, bits, tag, val, d);
      MemoryGoodWriter(s, Found(s, bits, tag, val, d), bits);
    } else {
      WalkOn(s.m, s.root, bits, tag, d);
      if s.m[n].kids[Branch(tag, bits, d)] == NULL_CHILD {
        if d < MAX_DEPTH {
          BeginBelow(s, bits, tag, val, d);
        } else {
          FreeGood(s, bits);
        }
      } else if d < MAX_DEPTH {
        NotHere(s.m, s.root, bits, tag, d);
        BeginAtGood(s, bits, tag, val, d + 1);
      } else {
        FreeGood(s, bits);
      }
    }
  }

  lemma FreeGood(s: State, bits: nat)
    requires s.writer.Free? && MemoryGood(s, bits)
    ensures WriterGood(s, bits) && Grows(s.m, s.m)
  {
    hide Walk, Holds, NodeGood;
    NullOutside(s, bits);
  }

  lemma GoodAt(s: State, bits: nat, n: nat)
    requires MemoryGood(s, bits) && n in s.m
    ensures Sized(s.m[n]) && Packed(s.m[n].slots) && forall i :: 0 <= i < SLOTS ==> s.m[n].slots[i].tag != TOMBSTONE
    ensures forall b :: 0 <= b < FANOUT && s.m[n].kids[b] != NULL_CHILD ==> s.m[n].kids[b] in s.m
  {
    hide Walk, Holds, FilterSound;
    assert NodeGood(s, n);
  }

  lemma NotHere(m: Memory, root: nat, bits: nat, tag: Word, d: nat)
    requires NotAbove(m, root, bits, tag, d) && Walk(m, root, bits, tag, d) in m
    requires forall k :: 0 <= k < |m[Walk(m, root, bits, tag, d)].slots| ==>
               m[Walk(m, root, bits, tag, d)].slots[k].tag != tag
    ensures NotAbove(m, root, bits, tag, d + 1)
  {
    hide Walk;
  }

  /** The memory part of the invariant does not look at the writer. */
  lemma MemoryGoodWriter(s: State, s': State, bits: nat)
    requires MemoryGood(s, bits) && s' == s.(writer := s'.writer)
    ensures MemoryGood(s', bits) && Grows(s.m, s'.m)
  {
    hide Walk, Holds, FilterSound, Packed;
    forall n | n in s.m
      ensures NodeGood(s', n)
    {
      assert NodeGood(s, n);
    }
  }

  // ---------- the stores ----------

  lemma UpdateStore(s: State, s': State, bits: nat)
    requires MemoryGood(s, bits) && WriterGood(s, bits) && s.writer.Updating? && WriterStep(s, s')
    ensures MemoryGood(s', bits) && WriterGood(s', bits) && Grows(s.m, s'.m)
  {
    hide Walk, MemoryGood, Holds, Grows, Groups, ForTag;
    var n, i := s.writer.n, s.writer.i;
    NullOutside(s, bits);
    SoundAt(s, bits, n);
    QuietStore(s, s', bits, n, s'.m[n]);
  }

  /** The parts of the invariant about one node's filter and values. */
  lemma SoundAt(s: State, bits: nat, n: nat)
    requires MemoryGood(s, bits) && n in s.m
    ensures FilterSoundAt(s.m[n])
    ensures forall i :: 0 <= i < |s.m[n].slots| && Live(s.m[n].slots[i].tag) ==>
              (s.m[n].slots[i].tag, s.m[n].slots[i].val) in s.begun
  {
    hide Walk, Holds, FilterSound;
    assert NodeGood(s, n);
  }

  lemma FilterStore(s: State, s': State, bits: nat)
    requires MemoryGood(s, bits) && WriterGood(s, bits) && s.writer.Inserting? && s.writer.stage.AtH2?
             && WriterStep(s, s')
    ensures MemoryGood(s', bits) && WriterGood(s', bits) && Grows(s.m, s'.m)
  {
    hide Walk, MemoryGood, Holds, Grows, Groups, ForTag, Put;
    var n, i := s.writer.n, s.writer.i;
    NullOutside(s, bits);
    SoundAt(s, bits, n);
    PutGroups(s.m[n].h2, i, ForTag(s.writer.tag));
    QuietStore(s, s', bits, n, s'.m[n]);
    LinkQuiet(s, s', bits, n);
  }

  lemma ValueStore(s: State, s': State, bits: nat)
    requires MemoryGood(s, bits) && WriterGood(s, bits) && s.writer.Inserting? && s.writer.stage.AtVal?
             && WriterStep(s, s')
    ensures MemoryGood(s', bits) && WriterGood(s', bits) && Grows(s.m, s'.m)
  {
    hide Walk, MemoryGood, Holds, Grows, Groups, ForTag;
    var n, i := s.writer.n, s.writer.i;
    NullOutside(s, bits);
    SoundAt(s, bits, n);
    QuietStore(s, s', bits, n, s'.m[n]);
    LinkQuiet(s, s', bits, n);
  }

  /** A quiet store in the new node keeps it ready to be linked. */
  lemma LinkQuiet(s: State, s': State, bits: nat, n: nat)
    requires s.writer.Inserting? && n == s.writer.n && n in s.m && n in s'.m && s'.m == s.m[n := s'.m[n]]
    requires SameTags(s.m[n], s'.m[n]) && s'.level == s.level && s'.root == s.root
    requires forall tag, d :: Walk(s'.m, s.root, bits, tag, d) == Walk(s.m, s.root, bits, tag, d)
    ensures s.writer.link.Link? && LinkGood(s, bits, s.writer.tag, n, s.writer.i, s.writer.link.parent,
            s.writer.link.branch)
      ==> LinkGood(s', bits, s.writer.tag, n, s.writer.i, s.writer.link.parent, s.writer.link.branch)
  {
    hide Walk, Branch;
  }

  /** A node nothing links to is on no path. */
  lemma {:induction false} NeverWalked(m: Memory, root: nat, bits: nat, tag: Word, d: nat, n: nat)
    requires Unlinked(m, root, n) && n != NULL_CHILD
    ensures Walk(m, root, bits, tag, d) != n
  {
    hide Branch;
    if d > 0 {
      var k := Walk(m, root, bits, tag, d - 1);
      if k in m && |m[k].kids| == FANOUT {
        var b := Branch(tag, bits, d - 1);
        assert m[k].kids[b] != n;
      }
    }
  }

  /** Storing a tag in an empty slot: the only new occurrence is that slot, on that tag's path. */
  lemma TagOccurrence(m: Memory, m': Memory, root: nat, bits: nat, n: nat, i: nat, tag: Word, t: Word, d: nat, k: nat)
    requires root in m && NULL_CHILD !in m && n in m && i < |m[n].slots| && Live(t)
    requires m' == m[n := m[n].(slots := m[n].slots[i := m[n].slots[i].(tag := tag)])]
    ensures Walk(m', root, bits, t, d) == Walk(m, root, bits, t, d)
    ensures Holds(m', root, bits, t, d, k) ==>
              Holds(m, root, bits, t, d, k) || (t == tag && k == i && Walk(m, root, bits, t, d) == n)
  {
    hide Walk;
    WalkSame(m, m', root, bits, t, d);
  }

  lemma TagParts(node: Node, i: nat, tag: Word)
    requires |node.slots| == SLOTS && i < SLOTS && node.slots[i].tag == EMPTY && Live(tag)
    requires Packed(node.slots) && FilterSound(node) && Groups(node.h2)[i] == ForTag(tag)
    requires forall k :: 0 <= k < i ==> Live(node.slots[k].tag)
    ensures var node' := node.(slots := node.slots[i := node.slots[i].(tag := tag)]);
            Packed(node'.slots) && FilterSound(node')
  {
    hide Groups, ForTag;
  }

  /** A node that a step does not touch stays good. */
  lemma NodeAway(s: State, s': State, k: nat)
    requires s'.m.Keys == s.m.Keys && s'.level == s.level && s'.begun == s.begun && s.next <= s'.next
    requires k in s.m && NodeGood(s, k) && s'.m[k] == s.m[k]
    ensures NodeGood(s', k)
  {
    hide FilterSound, Packed;
  }

  lemma TagTarget(s: State, s': State, n: nat, i: nat, tag: Word)
    requires s'.m.Keys == s.m.Keys && s'.level == s.level && s'.begun == s.begun && s'.next == s.next
    requires n in s.m && NodeGood(s, n) && NoKids(s.m[n].kids) && i < SLOTS && Live(tag)
    requires s.m[n].slots[i].tag == EMPTY && Groups(s.m[n].h2)[i] == ForTag(tag)
    requires (tag, s.m[n].slots[i].val) in s.begun && forall k :: 0 <= k < i ==> Live(s.m[n].slots[k].tag)
    requires s'.m[n] == s.m[n].(slots := s.m[n].slots[i := s.m[n].slots[i].(tag := tag)])
    ensures NodeGood(s', n)
  {
    hide FilterSound, Packed, Groups, ForTag;
    TagParts(s.m[n], i, tag);
  }

  lemma TagNode(s: State, s': State, bits: nat, k: nat)
    requires MemoryGood(s, bits) && WriterGood(s, bits) && s.writer.Inserting? && s.writer.stage.AtTag?
             && WriterStep(s, s')
    requires k in s'.m
    ensures NodeGood(s', k)
  {
    hide Walk, Holds, Groups, ForTag, LinkGood, OnceOnPath, NodeGood;
    if k == s.writer.n {
      TagTarget(s, s', k, s.writer.i, s.writer.tag);
    } else {
      NodeAway(s, s', k);
    }
  }

  lemma TagGrows(s: State, s': State, bits: nat)
    requires MemoryGood(s, bits) && WriterGood(s, bits) && s.writer.Inserting? && s.writer.stage.AtTag?
             && WriterStep(s, s')
    ensures Grows(s.m, s'.m)
  {
    hide Walk, Holds, NodeGood, LinkGood, OnceOnPath;
    NullOutside(s, bits);
  }

  /** The tag reaches a node that is not linked yet: no walk sees it, and the writer goes on to link. */
  lemma TagUnseen(s: State, s': State, bits: nat)
    requires MemoryGood(s, bits) && WriterGood(s, bits) && s.writer.Inserting? && s.writer.stage.AtTag?
             && WriterStep(s, s') && s.writer.link.Link?
    ensures WriterGood(s', bits)
  {
    hide Walk, NodeGood, Branch, Groups, ForTag, OnceOnPath, Unlinked;
    var n, i, tag := s.writer.n, s.writer.i, s.writer.tag;
    NullOutside(s, bits);
    forall d, k | Holds(s'.m, s.root, bits, tag, d, k)
      ensures false
    {
      TagOccurrence(s.m, s'.m, s.root, bits, n, i, tag, tag, d, k);
      NeverWalked(s.m, s.root, bits, tag, d, n);
    }
    TagOccurrence(s.m, s'.m, s.root, bits, n, i, tag, tag, Level(s, s.writer.link.parent), 0);
    StillUnlinked(s.m, s.root, n, s'.m[n]);
  }

  /** The tag reaches a linked node: from here on it is found. */
  lemma TagSeen(s: State, s': State, bits: nat)
    requires MemoryGood(s, bits) && WriterGood(s, bits) && s.writer.Inserting? && s.writer.stage.AtTag?
             && WriterStep(s, s') && s.writer.link.NoLink?
    ensures WriterGood(s', bits) && Holds(s'.m, s.root, bits, s.writer.tag, Level(s, s.writer.n), s.writer.i)
  {
    hide Walk, NodeGood, Branch, Groups, ForTag, OnceOnPath, Unlinked;
    var n, i, tag := s.writer.n, s.writer.i, s.writer.tag;
    NullOutside(s, bits);
    TagOccurrence(s.m, s'.m, s.root, bits, n, i, tag, tag, Level(s, n), i);
  }

  lemma TagStore(s: State, s': State, bits: nat)
    requires MemoryGood(s, bits) && WriterGood(s, bits) && s.writer.Inserting? && s.writer.stage.AtTag?
             && WriterStep(s, s')
    ensures MemoryGood(s', bits) && WriterGood(s', bits) && Grows(s.m, s'.m)
    ensures s.writer.link.NoLink? ==> Holds(s'.m, s.root, bits, s.writer.tag, Level(s, s.writer.n), s.writer.i)
  {
    hide Walk, Holds, NodeGood, WriterGood, Grows, OnceOnPath;
    TagGrows(s, s', bits);
    forall k | k in s'.m
      ensures NodeGood(s', k)
    {
      TagNode(s, s', bits, k);
    }
    forall t | Live(t)
      ensures OnceOnPath(s'.m, s.root, bits, t)
    {
      TagOnce(s, s', bits, t);
    }
    if s.writer.link.Link? {
      TagUnseen(s, s', bits);
    } else {
      TagSeen(s, s', bits);
    }
  }

  lemma StillUnlinked(m: Memory, root: nat, n: nat, node: Node)
    requires n in m && node.kids == m[n].kids && Unlinked(m, root, n)
    ensures Unlinked(m[n := node], root, n)
  {}

  lemma TagOnce(s: State, s': State, bits: nat, t: Word)
    requires MemoryGood(s, bits) && WriterGood(s, bits) && s.writer.Inserting? && s.writer.stage.AtTag?
             && WriterStep(s, s')
    requires Live(t)
    ensures OnceOnPath(s'.m, s.root, bits, t)
  {
    hide Walk, Branch, Unlinked, NodeGood, Groups, ForTag;
    var n, i, tag := s.writer.n, s.writer.i, s.writer.tag;
    NullOutside(s, bits);
    assert OnceOnPath(s.m, s.root, bits, t);
    forall d, k, e, j | Holds(s'.m, s.root, bits, t, d, k) && Holds(s'.m, s.root, bits, t, e, j)
      ensures d == e && k == j
    {
      TagOccurrence(s.m, s'.m, s.root, bits, n, i, tag, t, d, k);
      TagOccurrence(s.m, s'.m, s.root, bits, n, i, tag, t, e, j);
      if t == tag {
        WalkLevel(s, bits, t, d);
        WalkLevel(s, bits, t, e);
      }
    }
  }

  /** After linking n below p, a walk goes where it went before, or ends at n. */
  lemma {:induction false} LinkWalk(m: Memory, root: nat, bits: nat, t: Word, d: nat, p: nat, b: nat, n: nat)
    requires root in m && NULL_CHILD !in m && n in m && p in m && b < FANOUT && |m[p].kids| == FANOUT
    requires Unlinked(m, root, n) && NoKids(m[n].kids) && m[p].kids[b] == NULL_CHILD && p != n
    ensures var m' := m[p := m[p].(kids := m[p].kids[b := n])];
            var w := Walk(m', root, bits, t, d);
            w in m' ==> w == Walk(m, root, bits, t, d)
                        || (w == n && d > 0 && Walk(m, root, bits, t, d - 1) == p)
  {
    hide Branch;
    var m' := m[p := m[p].(kids := m[p].kids[b := n])];
    if d > 0 {
      LinkWalk(m, root, bits, t, d - 1, p, b, n);
      NeverWalked(m, root, bits, t, d - 1, n);
    }
  }

  /** Linking the new node makes exactly one occurrence reachable: the stored tag's. */
  lemma LinkOccurrence(s: State, s': State, bits: nat, t: Word, d: nat, k: nat)
    requires MemoryGood(s, bits) && WriterGood(s, bits) && s.writer.Inserting? && s.writer.stage.AtLink?
             && WriterStep(s, s')
    requires Live(t) && Holds(s'.m, s.root, bits, t, d, k)
    ensures Holds(s.m, s.root, bits, t, d, k)
            || (t == s.writer.tag && k == 0 && d == Level(s, s.writer.link.parent) + 1)
  {
    hide Walk, Branch, NodeGood, OnceOnPath, Unlinked, Groups, ForTag;
    var w := s.writer;
    NullOutside(s, bits);
    LinkWalk(s.m, s.root, bits, t, d, w.link.parent, w.link.branch, w.n);
    if Walk(s'.m, s.root, bits, t, d) != Walk(s.m, s.root, bits, t, d) {
      WalkLevel(s, bits, t, d - 1);
    } else if Walk(s.m, s.root, bits, t, d) == w.n {
      NeverWalked(s.m, s.root, bits, t, d, w.n);
    }
  }

  lemma LinkNode(s: State, s': State, p: nat, b: nat, n: nat, k: nat)
    requires k in s.m && NodeGood(s, k) && p in s.m && n in s.m && b < |s.m[p].kids| && |s.m[p].slots| == SLOTS
    requires s'.m == s.m[p := s.m[p].(kids := s.m[p].kids[b := n])]
    requires s'.next == s.next && s'.level == s.level && s'.begun == s.begun && Level(s, n) == Level(s, p) + 1
    requires forall i :: 0 <= i < SLOTS ==> Live(s.m[p].slots[i].tag)
    ensures NodeGood(s', k)
  {
    hide FilterSound, Packed;
    if k == p {
      RelinkSound(s.m[k], s'.m[k].kids);
    }
  }

  lemma RelinkSound(node: Node, kids: seq<nat>)
    requires |node.slots| == SLOTS && FilterSound(node)
    ensures FilterSound(node.(kids := kids))
  {
    hide Groups, ForTag;
  }

  lemma LinkGrows(m: Memory, p: nat, b: nat, n: nat)
    requires forall k :: k in m ==> Sized(m[k])
    requires p in m && |m[p].kids| == FANOUT && b < FANOUT && m[p].kids[b] == NULL_CHILD
    ensures Grows(m, m[p := m[p].(kids := m[p].kids[b := n])])
  {}

  lemma LinkStore(s: State, s': State, bits: nat)
    requires MemoryGood(s, bits) && WriterGood(s, bits) && s.writer.Inserting? && s.writer.stage.AtLink?
             && WriterStep(s, s')
    ensures MemoryGood(s', bits) && WriterGood(s', bits) && Grows(s.m, s'.m)
    ensures Holds(s'.m, s.root, bits, s.writer.tag, Level(s, s.writer.n), 0)
  {
    hide Walk, NodeGood, Branch, Grows, Unlinked, Groups, ForTag;
    var w := s.writer;
    NullOutside(s, bits);
    LinkGrows(s.m, w.link.parent, w.link.branch, w.n);
    forall k | k in s'.m
      ensures NodeGood(s', k)
    {
      assert NodeGood(s, k);
      LinkNode(s, s', w.link.parent, w.link.branch, w.n, k);
    }
    forall t | Live(t)
      ensures OnceOnPath(s'.m, s.root, bits, t)
    {
      assert OnceOnPath(s.m, s.root, bits, t);
      forall d, k, e, j | Holds(s'.m, s.root, bits, t, d, k) && Holds(s'.m, s.root, bits, t, e, j)
        ensures d == e && k == j
      {
        LinkOccurrence(s, s', bits, t, d, k);
        LinkOccurrence(s, s', bits, t, e, j);
      }
    }
    WalkStable(s.m, s'.m, s.root, bits, w.tag, Level(s, w.link.parent));
    WalkOn(s'.m, s.root, bits, w.tag, Level(s, w.link.parent));
  }

  // ---------- the reader ----------

  lemma FilterAdmits(node: Node, tag: Word, j: nat)
    requires FilterSoundAt(node) && Live(tag) && j < SLOTS && node.slots[j].tag == tag
    ensures AnyMatch(node.h2, ForTag(tag))
  {
    hide Groups, ForTag, AnyMatch;
    AnyMatchExact(node.h2, ForTag(tag));
    assert Groups(node.h2)[j] == ForTag(tag);
  }

  /** The step that loads the value reads exactly what a sequential Get would return at that moment. */
  lemma HitIsAtomic(s: State, s': State, bits: nat, tag: Word)
    requires Inv(s, bits, tag) && Live(tag) && s.reader.AtValue? && ReaderStep(s, s', bits, tag)
    ensures s'.reader == Done(ScanFrom(s.m, s.root, bits, tag, 0))
    ensures (tag, s'.reader.result.value) in s.begun
  {
    hide Walk, ScanFrom, NodeGood, WriterGood;
    NullOutside(s, bits);
    assert OnceOnPath(s.m, s.root, bits, tag);
    ScanReads(s.m, s.root, bits, tag, s.reader.d, s.reader.i, 0);
    SoundAt(s, bits, s.reader.n);
  }

  lemma FilterStepGood(s: State, s': State, bits: nat, tag: Word)
    requires Inv(s, bits, tag) && Live(tag) && s.reader.AtFilter? && ReaderStep(s, s', bits, tag)
    ensures ReaderGood(s', bits, tag)
  {
    hide Walk, ScanFrom, NodeGood, WriterGood, Branch, AnyMatch, ForTag, FilterSoundAt, OnceOnPath;
    var n, d := s.reader.n, s.reader.d;
    NullOutside(s, bits);
    if n != NULL_CHILD && d <= MAX_DEPTH {
      SoundAt(s, bits, n);
      if s.start.Some? && !AnyMatch(s.m[n].h2, ForTag(tag)) {
        var e, j :| Holds(s.m, s.root, bits, tag, e, j) && (d < e || (d == e && 0 <= j));
        if e == d {
          FilterAdmits(s.m[n], tag, j);
        }
      }
    }
  }

  lemma ChildStepGood(s: State, s': State, bits: nat, tag: Word)
    requires Inv(s, bits, tag) && Live(tag) && s.reader.AtChild? && ReaderStep(s, s', bits, tag)
    ensures ReaderGood(s', bits, tag)
  {
    hide Walk, ScanFrom, NodeGood, WriterGood, Branch, OnceOnPath;
    var n, d := s.reader.n, s.reader.d;
    NullOutside(s, bits);
    GoodAt(s, bits, n);
    WalkOn(s.m, s.root, bits, tag, d);
    if s.start.Some? {
      var e, j :| Holds(s.m, s.root, bits, tag, e, j) && d + 1 <= e;
      WalkThere(s.m, s.root, bits, tag, d + 1, e);
    }
  }

  lemma ReaderStepGood(s: State, s': State, bits: nat, tag: Word)
    requires Inv(s, bits, tag) && Live(tag) && ReaderStep(s, s', bits, tag)
    ensures ReaderGood(s', bits, tag)
  {
    hide Walk, ScanFrom, NodeGood, WriterGood, Branch, AnyMatch, ForTag, OnceOnPath;
    NullOutside(s, bits);
    match s.reader
    case Idle =>
      RootWalk(s.m, s.root, bits, tag);
      if s'.start.Some? {
        ScanFinds(s.m, s.root, bits, tag, 0);
      }
    case AtFilter(_, _) => FilterStepGood(s, s', bits, tag);
    case AtSlot(_, _, _) =>
    case AtValue(_, _, _) => HitIsAtomic(s, s', bits, tag);
    case AtChild(_, _) => ChildStepGood(s, s', bits, tag);
    case Done(_) =>
  }

  lemma RootWalk(m: Memory, root: nat, bits: nat, tag: Word)
    ensures Walk(m, root, bits, tag, 0) == root
  {}

  // ---------- every step, every run ----------

  lemma BeginKeeps(s: State, s': State, bits: nat, tag: Word, t: Word, v: Word)
    requires Inv(s, bits, tag) && Live(tag) && BeginSet(s, s', bits, t, v)
    ensures Inv(s', bits, tag) && Grows(s.m, s'.m)
  {
    hide Walk, MemoryGood, WriterGood, ReaderGood, Grows, BeginAt;
    var s1 := s.(begun := s.begun + {(t, v)});
    BegunGood(s, s1, bits);
    NullOutside(s, bits);
    RootWalk(s1.m, s1.root, bits, t);
    BeginAtGood(s1, bits, t, v, 0);
    if s' == s {
      SelfGrows(s, bits);
    } else {
      ReaderKeeps(s, s', bits, tag);
    }
  }

  lemma SelfGrows(s: State, bits: nat)
    requires MemoryGood(s, bits)
    ensures Grows(s.m, s.m)
  {
    hide MemoryGood;
    NullOutside(s, bits);
  }

  lemma BegunGood(s: State, s1: State, bits: nat)
    requires MemoryGood(s, bits) && s1 == s.(begun := s1.begun) && s.begun <= s1.begun
    ensures MemoryGood(s1, bits) && s1.root in s1.m
  {
    hide Walk, Holds, FilterSound, Packed;
    forall n | n in s.m
      ensures NodeGood(s1, n)
    {
      assert NodeGood(s, n);
    }
  }

  /** Some slot on the tag's path holds the tag with this value. */
  ghost predicate Stored(m: Memory, root: nat, bits: nat, tag: Word, val: Word) {
    exists d: nat, i: nat :: Holds(m, root, bits, tag, d, i) && m[Walk(m, root, bits, tag, d)].slots[i].val == val
  }

  ghost predicate Busy(w: Writer, t: Word, v: Word) {
    !w.Free? && w.tag == t && w.val == v
  }

  lemma WriterStepKeeps(s: State, s': State, bits: nat, tag: Word, t: Word, v: Word)
    requires MemoryGood(s, bits) && WriterGood(s, bits) && WriterStep(s, s') && Busy(s.writer, t, v)
    requires ReaderGood(s, bits, tag) && Live(tag)
    ensures Inv(s', bits, tag) && Grows(s.m, s'.m)
    ensures s'.writer.Free? ==> Stored(s'.m, s'.root, bits, t, v)
  {
    hide Walk, MemoryGood, ReaderGood, Grows, Groups, ForTag, Put, Branch, Unlinked;
    NullOutside(s, bits);
    match s.writer {
      case Updating(_, _, n, i) =>
        UpdateStore(s, s', bits);
        WalkStable(s.m, s'.m, s.root, bits, t, Level(s, n));
        assert Holds(s'.m, s'.root, bits, t, Level(s, n), i);
      case Inserting(_, _, n, i, link, stage) =>
        match stage {
          case AtH2 => FilterStore(s, s', bits);
          case AtVal => ValueStore(s, s', bits);
          case AtTag => TagStore(s, s', bits);
            if link.NoLink? {
              WalkStable(s.m, s'.m, s.root, bits, t, Level(s, n));
            }
          case AtLink => LinkStore(s, s', bits);
            LinkedWalk(s, s', bits);
        }
    }
    ReaderKeeps(s, s', bits, tag);
  }

  lemma LinkedWalk(s: State, s': State, bits: nat)
    requires MemoryGood(s, bits) && WriterGood(s, bits) && s.writer.Inserting? && s.writer.stage.AtLink?
             && WriterStep(s, s')
    ensures Walk(s'.m, s.root, bits, s.writer.tag, Level(s, s.writer.n)) == s.writer.n
    ensures s.writer.n in s'.m && 0 < |s'.m[s.writer.n].slots| && s'.m[s.writer.n].slots[0].val == s.writer.val
  {
    hide Walk, NodeGood, Branch, Grows, Unlinked, Groups, ForTag, OnceOnPath, Holds;
    var w := s.writer;
    NullOutside(s, bits);
    LinkGrows(s.m, w.link.parent, w.link.branch, w.n);
    WalkStable(s.m, s'.m, s.root, bits, w.tag, Level(s, w.link.parent));
    WalkOn(s'.m, s.root, bits, w.tag, Level(s, w.link.parent));
  }

  lemma AllocElsewhere(s: State, s': State, bits: nat, tag: Word)
    requires Inv(s, bits, tag) && Live(tag) && s.next <= s'.next && s' == s.(next := s'.next)
    ensures Inv(s', bits, tag) && Grows(s.m, s'.m)
  {
    hide WriterGood, ReaderGood, MemoryGood;
    NullOutside(s, bits);
    SameMemory(s, s', bits);
    ReaderKeeps(s, s', bits, tag);
  }

  lemma StepKeepsInv(s: State, s': State, bits: nat, tag: Word)
    requires Inv(s, bits, tag) && Live(tag) && Step(s, s', bits, tag)
    ensures Inv(s', bits, tag) && Grows(s.m, s'.m) && s'.root == s.root
  {
    hide BeginSet, WriterStep, MemoryGood, WriterGood, ReaderGood, Grows;
    if t, v :| BeginSet(s, s', bits, t, v) {
      BeginKeeps(s, s', bits, tag, t, v);
      BeginRoot(s, s', bits, tag, t, v);
    } else if WriterStep(s, s') {
      WriterRoot(s, s');
      WriterStepKeeps(s, s', bits, tag, s.writer.tag, s.writer.val);
    } else if ReaderStep(s, s', bits, tag) {
      ReaderKeepsMemory(s, s', bits, tag);
    } else {
      AllocElsewhere(s, s', bits, tag);
    }
  }

  lemma WriterRoot(s: State, s': State)
    requires WriterStep(s, s')
    ensures !s.writer.Free? && s'.root == s.root && s'.reader == s.reader && s'.start == s.start
  {}

  lemma BeginRoot(s: State, s': State, bits: nat, tag: Word, t: Word, v: Word)
    requires Inv(s, bits, tag) && BeginSet(s, s', bits, t, v)
    ensures s'.root == s.root && s'.reader == s.reader && s'.start == s.start
  {
    hide Walk, MemoryGood, WriterGood, ReaderGood, Grows, BeginAt;
    var s1 := s.(begun := s.begun + {(t, v)});
    BegunGood(s, s1, bits);
    RootWalk(s1.m, s1.root, bits, t);
    BeginAtGood(s1, bits, t, v, 0);
  }

  lemma ReaderKeepsMemory(s: State, s': State, bits: nat, tag: Word)
    requires Inv(s, bits, tag) && Live(tag) && ReaderStep(s, s', bits, tag)
    ensures Inv(s', bits, tag) && Grows(s.m, s'.m) && s'.root == s.root && s'.m == s.m
  {
    hide Walk, Holds, NodeGood, ReaderGood, Branch, AnyMatch, ForTag, ScanFrom, Unlinked;
    NullOutside(s, bits);
    ReaderStepGood(s, s', bits, tag);
    SameMemory(s, s', bits);
  }

  lemma WriterCarries(s: State, s': State, bits: nat)
    requires s'.m == s.m && s'.root == s.root && s'.level == s.level && s'.begun == s.begun && s'.writer == s.writer
    requires WriterGood(s, bits)
    ensures WriterGood(s', bits)
  {
    hide Walk, Holds, Unlinked, Branch, Groups, ForTag;
  }

  /** Neither the reader's place nor the allocation counter matters to the memory and the writer. */
  lemma SameMemory(s: State, s': State, bits: nat)
    requires MemoryGood(s, bits) && WriterGood(s, bits) && s.next <= s'.next
    requires s' == s.(next := s'.next, reader := s'.reader, start := s'.start)
    ensures MemoryGood(s', bits) && WriterGood(s', bits)
  {
    hide NodeGood, OnceOnPath, WriterGood;
    forall n | n in s.m
      ensures NodeGood(s', n)
    {
      NodeAway(s, s', n);
    }
    WriterCarries(s, s', bits);
  }

  /** A run: any interleaving of steps from an empty shard. */
  ghost predicate Run(run: seq<State>, bits: nat, tag: Word) {
    && |run| > 0 && Init(run[0])
    && forall k :: 0 <= k < |run| - 1 ==> Step(run[k], run[k + 1], bits, tag)
  }

  lemma RootGood(s: State)
    requires Init(s)
    ensures NodeGood(s, s.root)
  {
    hide Groups, ForTag, FilterSoundAt;
    ZeroSound();
  }

  lemma InitInv(s: State, bits: nat, tag: Word)
    requires Init(s)
    ensures Inv(s, bits, tag)
  {
    hide Walk, NodeGood;
    RootGood(s);
    forall t, d, i | Live(t) && Holds(s.m, s.root, bits, t, d, i)
      ensures false
    {
      RootOnly(s, bits, t, d);
    }
  }

  lemma {:induction false} RootOnly(s: State, bits: nat, t: Word, d: nat)
    requires Init(s)
    ensures Walk(s.m, s.root, bits, t, d) == if d == 0 then s.root else NULL_CHILD
  {
    hide Branch;
    if d > 0 {
      RootOnly(s, bits, t, d - 1);
      ZeroSound();
    }
  }

  lemma {:induction false} RunInv(run: seq<State>, bits: nat, tag: Word, k: nat)
    requires Run(run, bits, tag) && Live(tag) && k < |run|
    ensures Inv(run[k], bits, tag) && run[k].root == run[0].root
  {
    hide Inv, Init, Step;
    if k == 0 {
      InitInv(run[0], bits, tag);
    } else {
      RunInv(run, bits, tag, k - 1);
      assert Step(run[k - 1], run[k - 1 + 1], bits, tag);
      StepKeepsInv(run[k - 1], run[k], bits, tag);
    }
  }

  /** What the lock-protected scan would answer in state k of the run. */
  ghost function Answer(s: State, bits: nat, tag: Word): Option<Word> {
    ScanFrom(s.m, s.root, bits, tag, 0)
  }

  /** Once a tag is readable it stays readable. */
  lemma {:induction false} StaysReadable(run: seq<State>, bits: nat, tag: Word, j: nat, k: nat)
    requires Run(run, bits, tag) && Live(tag) && j <= k < |run| && Answer(run[j], bits, tag).Some?
    ensures Answer(run[k], bits, tag).Some?
    decreases k
  {
    hide Run, Walk, ScanFrom, MemoryGood, WriterGood, ReaderGood, Grows, Step;
    if j < k {
      StaysReadable(run, bits, tag, j, k - 1);
      RunInv(run, bits, tag, k - 1);
      RunInv(run, bits, tag, k);
      RunStep(run, bits, tag, k - 1);
      StepKeepsInv(run[k - 1], run[k], bits, tag);
      NullOutside(run[k - 1], bits);
      NullOutside(run[k], bits);
      var a, b := run[k - 1], run[k];
      ScanFinds(a.m, a.root, bits, tag, 0);
      var d, i :| Holds(a.m, a.root, bits, tag, d, i);
      HoldsStable(a.m, b.m, a.root, bits, tag, d, i);
      OnceHere(b, bits, tag);
      ScanReads(b.m, b.root, bits, tag, d, i, 0);
    }
  }

  lemma RunStep(run: seq<State>, bits: nat, tag: Word, k: nat)
    requires Run(run, bits, tag) && k + 1 < |run|
    ensures Step(run[k], run[k + 1], bits, tag)
  {}

  lemma OnceHere(s: State, bits: nat, tag: Word)
    requires MemoryGood(s, bits) && Live(tag)
    ensures OnceOnPath(s.m, s.root, bits, tag)
  {
    hide NodeGood, OnceOnPath;
  }

  /** When the last store of Set(tag, val) is done, a sequential Get reads val. */
  lemma CompletedSetIsReadable(run: seq<State>, bits: nat, tag: Word, val: Word, k: nat)
    requires Run(run, bits, tag) && Live(tag) && k + 1 < |run|
    requires Busy(run[k].writer, tag, val) && run[k + 1].writer.Free?
    ensures Answer(run[k + 1], bits, tag) == Some(val)
  {
    hide Run, Walk, ScanFrom, MemoryGood, WriterGood, ReaderGood, WriterStep, BeginAt, Grows;
    var s, s' := run[k], run[k + 1];
    RunInv(run, bits, tag, k);
    RunInv(run, bits, tag, k + 1);
    RunStep(run, bits, tag, k);
    assert WriterStep(s, s') by {
      hide ReaderStep, BeginSet;
      OnlyWriterFrees(s, s', bits, tag);
    }
    WriterStepKeeps(s, s', bits, tag, tag, val);
    NullOutside(s', bits);
    OnceHere(s', bits, tag);
    var d: nat, i: nat :| Holds(s'.m, s'.root, bits, tag, d, i)
        && s'.m[Walk(s'.m, s'.root, bits, tag, d)].slots[i].val == val;
    ScanReads(s'.m, s'.root, bits, tag, d, i, 0);
  }

  lemma OnlyWriterFrees(s: State, s': State, bits: nat, tag: Word)
    requires Step(s, s', bits, tag) && !s.writer.Free? && s'.writer.Free?
    ensures WriterStep(s, s')
  {
    hide WriterStep, BeginAt, AnyMatch, ForTag, Branch, ScanFrom;
  }

  /** One Get: it begins after state k, is still under way or finished in state l, and never idles in between. */
  ghost predicate GetSpans(run: seq<State>, k: nat, l: nat) {
    && k < l < |run| && run[k].reader.Idle?
    && forall j :: k < j <= l ==> !run[j].reader.Idle?
  }

  /** Only the reader's own steps move the reader. */
  lemma ReaderMoves(s: State, s': State, bits: nat, tag: Word)
    requires Inv(s, bits, tag) && Live(tag) && Step(s, s', bits, tag)
    ensures (s'.reader == s.reader && s'.start == s.start) || ReaderStep(s, s', bits, tag)
  {
    hide Inv, BeginSet, WriterStep, ReaderStep;
    if t, v :| BeginSet(s, s', bits, t, v) {
      BeginRoot(s, s', bits, tag, t, v);
    } else if WriterStep(s, s') {
      WriterRoot(s, s');
    }
  }

  /** During a Get, start is the sequential answer of the state it began in. */
  lemma {:induction false} StartFixed(run: seq<State>, bits: nat, tag: Word, k: nat, l: nat)
    requires Run(run, bits, tag) && Live(tag) && GetSpans(run, k, l)
    ensures run[l].start == Answer(run[k], bits, tag)
    decreases l
  {
    hide Run, Inv, Step, ScanFrom, AnyMatch, ForTag, Branch;
    RunInv(run, bits, tag, l - 1);
    RunStep(run, bits, tag, l - 1);
    ReaderMoves(run[l - 1], run[l], bits, tag);
    if k < l - 1 {
      StartFixed(run, bits, tag, k, l - 1);
      assert !run[l - 1].reader.Idle?;
    }
  }

  /**
   Get is linearizable against any interleaving with Sets: whatever it returns, hit or
   miss, is what a sequential Get would have returned in some state of the call.
   */
  lemma {:induction false} GetIsLinearizable(run: seq<State>, bits: nat, tag: Word, k: nat, l: nat)
    requires Run(run, bits, tag) && Live(tag) && GetSpans(run, k, l) && run[l].reader.Done?
    ensures exists j :: k <= j < l && Answer(run[j], bits, tag) == run[l].reader.result
    decreases l
  {
    hide Run, MemoryGood, WriterGood, Step, ScanFrom, AnyMatch, ForTag, Branch, Answer;
    var s, s' := run[l - 1], run[l];
    RunInv(run, bits, tag, l - 1);
    RunInv(run, bits, tag, l);
    RunStep(run, bits, tag, l - 1);
    ReaderMoves(s, s', bits, tag);
    if s'.reader.result.None? {
      StartFixed(run, bits, tag, k, l);
      assert Answer(run[k], bits, tag) == s'.reader.result;
    } else if s.reader.Done? {
      assert !ReaderStep(s, s', bits, tag);
      GetIsLinearizable(run, bits, tag, k, l - 1);
    } else {
      HitIsAtomic(s, s', bits, tag);
      AnswerIsScan(s, bits, tag);
      assert Answer(run[l - 1], bits, tag) == s'.reader.result;
    }
  }

  lemma AnswerIsScan(s: State, bits: nat, tag: Word)
    ensures Answer(s, bits, tag) == ScanFrom(s.m, s.root, bits, tag, 0)
  {}

  /** From depth d on, all slots on the tag's path to the last depth hold other live tags. */
  ghost predicate Crowded(m: Memory, root: nat, bits: nat, tag: Word, d: nat) {
    forall e :: d <= e <= MAX_DEPTH ==>
          Walk(m, root, bits, tag, e) in m && Taken(m[Walk(m, root, bits, tag, e)].slots, tag)
  }

  ghost predicate Taken(slots: seq<Slot>, tag: Word) {
    forall i :: 0 <= i < |slots| ==> Live(slots[i].tag) && slots[i].tag != tag
  }

  lemma {:induction false} BeginStoresIff(s: State, bits: nat, tag: Word, val: Word, d: nat)
    requires MemoryGood(s, bits) && s.writer.Free? && Live(tag) && d <= MAX_DEPTH
    requires Walk(s.m, s.root, bits, tag, d) in s.m
    ensures var s' := BeginAt(s, bits, tag, val, d);
            && (s'.writer.Free? <==> Crowded(s.m, s.root, bits, tag, d))
            && if s'.writer.Free? then s' == s else Busy(s'.writer, tag, val)
    decreases MAX_DEPTH - d
  {
    hide Branch, InsertSlot, Walk, MemoryGood, Packed, Crowded, Taken, Live;
    NullOutside(s, bits);
    var n := Walk(s.m, s.root, bits, tag, d);
    GoodAt(s, bits, n);
    TakenIff(s.m[n].slots, tag);
    CrowdedStep(s.m, s.root, bits, tag, d);
    if InsertSlot(s.m[n].slots, tag) == SLOTS && d < MAX_DEPTH {
      WalkOn(s.m, s.root, bits, tag, d);
      if s.m[n].kids[Branch(tag, bits, d)] == NULL_CHILD {
        CrowdedStep(s.m, s.root, bits, tag, d + 1);
      } else {
        BeginStoresIff(s, bits, tag, val, d + 1);
      }
    }
  }

  lemma TakenIff(slots: seq<Slot>, tag: Word)
    requires |slots| == SLOTS && Packed(slots) && Live(tag) && forall i :: 0 <= i < SLOTS ==> slots[i].tag != TOMBSTONE
    ensures InsertSlot(slots, tag) <= SLOTS && (Taken(slots, tag) <==> InsertSlot(slots, tag) == SLOTS)
  {
    hide InsertSlot, Packed;
    SlotChoice(slots, tag);
  }

  lemma CrowdedStep(m: Memory, root: nat, bits: nat, tag: Word, d: nat)
    requires d <= MAX_DEPTH
    ensures Crowded(m, root, bits, tag, d) <==>
            && Walk(m, root, bits, tag, d) in m && Taken(m[Walk(m, root, bits, tag, d)].slots, tag)
            && (d < MAX_DEPTH ==> Crowded(m, root, bits, tag, d + 1))
  {
    hide Walk, Taken;
  }

  /**
   A Set that takes the lock goes on to store, unless all 44 slots on its tag's path hold other
   live tags; then it is dropped and changes no memory.
   */
  lemma SetStoresIff(s: State, s': State, bits: nat, tag: Word, t: Word, v: Word)
    requires Inv(s, bits, tag) && BeginSet(s, s', bits, t, v)
    ensures Busy(s'.writer, t, v) <==> !Crowded(s.m, s.root, bits, t, 0)
    ensures Crowded(s.m, s.root, bits, t, 0) ==> s' == s
  {
    hide Walk, MemoryGood, WriterGood, ReaderGood, BeginAt, Crowded;
    var s1 := s.(begun := s.begun + {(t, v)});
    BegunGood(s, s1, bits);
    RootWalk(s1.m, s1.root, bits, t);
    BeginStoresIff(s1, bits, t, v, 0);
  }

  /** A Get that begins after some Set of its tag has completed always hits. */
  lemma GetAfterSetHits(run: seq<State>, bits: nat, tag: Word, val: Word, c: nat, k: nat, l: nat)
    requires Run(run, bits, tag) && Live(tag)
    requires GetSpans(run, k, l) && run[l].reader.Done?
    requires c < k && Busy(run[c].writer, tag, val) && run[c + 1].writer.Free?
    ensures run[l].reader.result.Some?
  {
    hide Run, ScanFrom, MemoryGood, WriterGood, Answer;
    CompletedSetIsReadable(run, bits, tag, val, c);
    StaysReadable(run, bits, tag, c + 1, k);
    StartFixed(run, bits, tag, k, l);
    RunInv(run, bits, tag, l);
  }

  /** The Set that holds the lock keeps it until its last store. */
  lemma StillBusy(s: State, s': State, bits: nat, tag: Word, t: Word, v: Word)
    requires Step(s, s', bits, tag) && Busy(s.writer, t, v)
    ensures s'.writer.Free? || Busy(s'.writer, t, v)
  {
    hide BeginAt, ScanFrom, Put, ForTag, AnyMatch, Branch;
  }

  lemma {:induction false} CompletesAt(run: seq<State>, bits: nat, tag: Word, val: Word, b: nat, c: nat)
      returns (f: nat)
    requires Run(run, bits, tag) && b < c < |run| && Busy(run[b].writer, tag, val) && run[c].writer.Free?
    ensures b <= f < c && Busy(run[f].writer, tag, val) && run[f + 1].writer.Free?
    decreases c - b
  {
    hide Run, Step;
    RunStep(run, bits, tag, b);
    StillBusy(run[b], run[b + 1], bits, tag, tag, val);
    if run[b + 1].writer.Free? {
      f := b;
    } else {
      f := CompletesAt(run, bits, tag, val, b + 1, c);
    }
  }

  /**
   Whole calls: a Set begun in step b on a path with room, the lock free again in state c, and a
   Get begun later. Whatever else runs in between, the Get hits.
   */
  lemma SetThenGetHits(run: seq<State>, bits: nat, tag: Word, val: Word, b: nat, c: nat, k: nat, l: nat)
    requires Run(run, bits, tag) && Live(tag) && GetSpans(run, k, l) && run[l].reader.Done?
    requires b + 1 < c <= k && BeginSet(run[b], run[b + 1], bits, tag, val) && run[c].writer.Free?
    requires !Crowded(run[b].m, run[b].root, bits, tag, 0)
    ensures run[l].reader.result.Some?
  {
    hide Run, BeginSet, Crowded, MemoryGood, WriterGood, ReaderGood;
    RunInv(run, bits, tag, b);
    SetStoresIff(run[b], run[b + 1], bits, tag, tag, val);
    var f := CompletesAt(run, bits, tag, val, b + 1, c);
    GetAfterSetHits(run, bits, tag, val, f, k, l);
  }

  /** A Set counts as begun from the step in which it takes the lock to store. */
  lemma {:induction false} BegunAt(run: seq<State>, bits: nat, tag: Word, k: nat, t: Word, v: Word) returns (b: nat)
    requires Run(run, bits, tag) && k < |run| && (t, v) in run[k].begun
    ensures b < k && BeginSet(run[b], run[b + 1], bits, t, v) && run[b + 1] != run[b]
    decreases k
  {
    hide BeginSet, ReaderStep, WriterStep;
    RunBegins(run, bits, tag);
    RunStep(run, bits, tag, k - 1);
    if (t, v) in run[k - 1].begun {
      b := BegunAt(run, bits, tag, k - 1, t, v);
    } else {
      b := k - 1;
      NewlyBegun(run[b], run[k], bits, tag, t, v);
    }
  }

  lemma RunBegins(run: seq<State>, bits: nat, tag: Word)
    requires Run(run, bits, tag)
    ensures run[0].begun == {}
  {}

  lemma NewlyBegun(s: State, s': State, bits: nat, tag: Word, t: Word, v: Word)
    requires Step(s, s', bits, tag) && (t, v) in s'.begun && (t, v) !in s.begun
    ensures BeginSet(s, s', bits, t, v) && s' != s
  {
    hide BeginAt, ScanFrom, Put, ForTag, AnyMatch, Branch;
    if u, w :| BeginSet(s, s', bits, u, w) {
      BeginAtKeepsBegun(s.(begun := s.begun + {(u, w)}), bits, u, w, 0);
    }
  }

  lemma {:induction false} BeginAtKeepsBegun(s: State, bits: nat, tag: Word, val: Word, d: nat)
    requires d <= MAX_DEPTH
    ensures BeginAt(s, bits, tag, val, d).begun == s.begun
    decreases MAX_DEPTH - d
  {
    hide Walk, InsertSlot, Branch;
    if d < MAX_DEPTH {
      BeginAtKeepsBegun(s, bits, tag, val, d + 1);
    }
  }

  /** A hit returns a value that an earlier Set of this very tag, on a path with room for it, stores. */
  lemma HitIsOwnValue(run: seq<State>, bits: nat, tag: Word, k: nat)
    requires Run(run, bits, tag) && Live(tag) && k < |run| && run[k].reader.Done? && run[k].reader.result.Some?
    ensures exists b: nat :: b < k && BeginSet(run[b], run[b + 1], bits, tag, run[k].reader.result.value)
                             && !Crowded(run[b].m, run[b].root, bits, tag, 0)
  {
    hide Run, MemoryGood, WriterGood, BeginSet, Crowded;
    RunInv(run, bits, tag, k);
    var v := run[k].reader.result.value;
    var b := BegunAt(run, bits, tag, k, tag, v);
    RunInv(run, bits, tag, b);
    SetStoresIff(run[b], run[b + 1], bits, tag, tag, v);
  }
}
