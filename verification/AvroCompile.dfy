/** The schema compiler: one pre-order walk that emits ops, names, child lists, symbols and slot keys. */
module AvroCompile {
  import opened Machine
  import opened AvroTree
  import opened AvroProgram

  const EXT_SENTINEL := 255

  type SlotMap = map<Name, int>

  /** The compiler's state: the program so far and the key counter. */
  datatype Ctx = Ctx(prog: Program, keySeq: nat)

  const EMPTY_PROGRAM := Program([], [], [], [], [], [])

  function SlotOf(slots: SlotMap, name: Name): int {
    if name in slots then slots[name] else -1
  }

  /** Two's-complement truncation to the given number of values. */
  function Narrow(x: int, half: nat): int
    requires half > 0
  {
    (x + half) % (2 * half) - half
  }

  const HALF8 := 0x80
  const HALF32 := 0x8000_0000

  predicate HasNull(arms: seq<Schema>) {
    exists k :: 0 <= k < |arms| && arms[k].Null?
  }

  /** The op for a schema that compiles; offsets, lengths and sizes are cut to their field widths. */
  function NewOp(s: Schema, name: Name, slabLen: nat, key: nat): Op
    requires KindOf(s).Some?
  {
    Op(slabLen % 0x1_0000, |name| % 0x100, if key >= EXT_SENTINEL then EXT_SENTINEL else key, KindOf(s).value,
       s.Union? && HasNull(s.arms), false, false, s.Union? && s.arms != [] && s.arms[0].Null?,
       if s.Enum? then |s.symbols| % 0x1_0000
       else if s.Union? then |s.arms| % 0x1_0000
       else if s.Fixed? then s.size % 0x1_0000 else 0)
  }

  /** The state after the op of s itself is appended. */
  function AddOp(s: Schema, name: Name, slots: SlotMap, c: Ctx): Ctx
    requires KindOf(s).Some?
  {
    var p := c.prog;
    Ctx(p.(ops := p.ops + [NewOp(s, name, |p.slab|, c.keySeq)],
           slab := p.slab + name,
           ext := if c.keySeq < EXT_SENTINEL then p.ext
                  else p.ext + [Ext(|p.ops|, Narrow(SlotOf(slots, name), HALF32))],
           symbols := if s.Enum? then p.symbols + s.symbols else p.symbols,
           childOps := p.childOps + [[]]),
        c.keySeq + 1)
  }

  function AddChild(c: Ctx, i: nat, child: nat): Ctx
    requires i < |c.prog.childOps|
  {
    c.(prog := c.prog.(childOps := c.prog.childOps[i := c.prog.childOps[i] + [child]]))
  }

  /** Ops, child lists and keys run in step. */
  ghost predicate InStep(c: Ctx) {
    |c.prog.ops| == |c.prog.childOps| == c.keySeq
  }

  /** The names of enclosing records: reusing one is a recursive schema. */
  function Enclosed(s: Schema, seen: set<Name>): set<Name> {
    if s.Record? then seen + {s.name} else seen
  }

  /** Emits s and everything below it; none on an unsupported or recursive schema. */
  function Emit(s: Schema, name: Name, slots: SlotMap, seen: set<Name>, c: Ctx): (r: Option<Ctx>)
    requires InStep(c)
    ensures r.Some? ==> InStep(r.value) && |r.value.prog.ops| > |c.prog.ops|
    decreases s, |Kids(s)| + 1
  {
    if KindOf(s).None? || (s.Record? && s.name in seen) then None
    else EmitKids(s, 0, |c.prog.ops|, slots, Enclosed(s, seen), AddOp(s, name, slots, c))
  }

  /** Emits the children from the k-th on below op i. */
  function EmitKids(s: Schema, k: nat, i: nat, slots: SlotMap, seen: set<Name>, c: Ctx): (r: Option<Ctx>)
    requires InStep(c) && i < |c.prog.ops| && k <= |Kids(s)|
    ensures r.Some? ==> InStep(r.value) && |r.value.prog.ops| >= |c.prog.ops|
    decreases s, |Kids(s)| - k
  {
    if k == |Kids(s)| then Some(c)
    else
      KidSmaller(s, k);
      match Emit(Kids(s)[k].type_, Kids(s)[k].name, slots, seen, c)
      case None => None
      case Some(c') => EmitKids(s, k + 1, i, slots, seen, AddChild(c', i, |c.prog.ops|))
  }

  // ---------- when compilation succeeds ----------

  /** Only supported types, and no record inside a record of the same name. */
  ghost predicate Compilable(s: Schema, seen: set<Name>)
    decreases s
  {
    && KindOf(s).Some? && (s.Record? ==> s.name !in seen)
    && forall k :: 0 <= k < |Kids(s)| ==> (KidSmaller(s, k); Compilable(Kids(s)[k].type_, Enclosed(s, seen)))
  }

  lemma {:induction false} EmitSucceeds(s: Schema, name: Name, slots: SlotMap, seen: set<Name>, c: Ctx)
    requires InStep(c)
    ensures Emit(s, name, slots, seen, c).Some? <==> Compilable(s, seen)
    decreases s, |Kids(s)| + 1
  {
    hide Kids;
    if KindOf(s).Some? && (s.Record? ==> s.name !in seen) {
      EmitKidsSucceeds(s, 0, |c.prog.ops|, slots, Enclosed(s, seen), AddOp(s, name, slots, c));
    }
  }

  lemma {:induction false} EmitKidsSucceeds(s: Schema, k: nat, i: nat, slots: SlotMap, seen: set<Name>, c: Ctx)
    requires InStep(c) && i < |c.prog.ops| && k <= |Kids(s)|
    ensures EmitKids(s, k, i, slots, seen, c).Some? <==>
            forall m :: k <= m < |Kids(s)| ==> (KidSmaller(s, m); Compilable(Kids(s)[m].type_, seen))
    decreases s, |Kids(s)| - k
  {
    hide Kids, Emit, AddChild;
    if k < |Kids(s)| {
      KidSmaller(s, k);
      EmitSucceeds(Kids(s)[k].type_, Kids(s)[k].name, slots, seen, c);
      var r := Emit(Kids(s)[k].type_, Kids(s)[k].name, slots, seen, c);
      if r.Some? {
        AddChildKeeps(r.value, i, |c.prog.ops|);
        EmitKidsSucceeds(s, k + 1, i, slots, seen, AddChild(r.value, i, |c.prog.ops|));
      }
    }
  }

  // ---------- layout ----------

  /** All enum symbols in walking order. */
  ghost function AllSymbols(s: Schema): seq<Name>
    decreases s, |Kids(s)| + 1
  {
    (if s.Enum? then s.symbols else []) + SymbolsFrom(s, 0)
  }

  ghost function SymbolsFrom(s: Schema, k: nat): seq<Name>
    requires k <= |Kids(s)|
    decreases s, |Kids(s)| - k
  {
    if k == |Kids(s)| then [] else (KidSmaller(s, k); AllSymbols(Kids(s)[k].type_) + SymbolsFrom(s, k + 1))
  }

  /** q continues p: everything emitted so far stays, except the child list of op i. */
  ghost predicate Continues(p: Program, q: Program, i: nat) {
    && p.ops <= q.ops && p.slab <= q.slab && |p.childOps| <= |q.childOps|
    && forall j :: 0 <= j < |p.childOps| && j != i ==> q.childOps[j] == p.childOps[j]
  }

  lemma ContinuesTrans(p: Program, q: Program, r: Program, i: nat)
    requires Continues(p, q, i) && Continues(q, r, i)
    ensures Continues(p, r, i)
  {}

  /** An emission after the program's end, then one more child for op i. */
  lemma ContinuesChild(p: Program, c: Ctx, i: nat, child: nat)
    requires |p.ops| == |p.childOps| && Continues(p, c.prog, |p.ops|) && i < |p.childOps|
    ensures Continues(p, AddChild(c, i, child).prog, i)
    ensures AddChild(c, i, child).prog.childOps[i] == p.childOps[i] + [child]
  {}

  lemma AddOpAdds(s: Schema, name: Name, slots: SlotMap, c: Ctx)
    requires InStep(c) && KindOf(s).Some?
    ensures var p, q := c.prog, AddOp(s, name, slots, c).prog;
            && Continues(p, q, |p.ops|) && |q.ops| == |p.ops| + 1
            && q.symbols == p.symbols + (if s.Enum? then s.symbols else [])
            && |q.childOps| == |q.ops| && q.childOps[|p.ops|] == []
            && q.ops[|p.ops|] == NewOp(s, name, |p.slab|, c.keySeq)
            && q.slab == p.slab + name
  {
    hide NewOp;
  }

  /** What one emission adds: Size(s) ops, the symbols of s, and nothing changes before. */
  lemma {:induction false} EmitAdds(s: Schema, name: Name, slots: SlotMap, seen: set<Name>, c: Ctx)
    requires InStep(c) && Emit(s, name, slots, seen, c).Some?
    ensures var p, q := c.prog, Emit(s, name, slots, seen, c).value.prog;
            && Continues(p, q, |p.ops|) && |q.ops| == |p.ops| + Size(s) && q.symbols == p.symbols + AllSymbols(s)
            && q.childOps[|p.ops|] == Starts(s, 0, |p.ops| + 1) && q.ops[|p.ops|] == NewOp(s, name, |p.slab|, c.keySeq)
    decreases s, |Kids(s)| + 1
  {
    hide Kids, NewOp, SizeFrom, Starts, SymbolsFrom, EmitKids, AddOp, Enclosed;
    var c1 := AddOp(s, name, slots, c);
    AddOpAdds(s, name, slots, c);
    AddOpInStep(s, name, slots, c);
    var i := |c.prog.ops|;
    EmitKidsAdds(s, 0, i, slots, Enclosed(s, seen), c1);
    var q := EmitKids(s, 0, i, slots, Enclosed(s, seen), c1).value.prog;
    ContinuesTrans(c.prog, c1.prog, q, i);
    assert q.ops[i] == c1.prog.ops[i];
  }

  lemma AddOpInStep(s: Schema, name: Name, slots: SlotMap, c: Ctx)
    requires InStep(c) && KindOf(s).Some?
    ensures InStep(AddOp(s, name, slots, c)) && |AddOp(s, name, slots, c).prog.ops| == |c.prog.ops| + 1
  {
    hide NewOp;
  }

  lemma {:induction false} EmitKidsAdds(s: Schema, k: nat, i: nat, slots: SlotMap, seen: set<Name>, c: Ctx)
    requires InStep(c) && i < |c.prog.ops| && k <= |Kids(s)| && EmitKids(s, k, i, slots, seen, c).Some?
    ensures var p, q := c.prog, EmitKids(s, k, i, slots, seen, c).value.prog;
            && Continues(p, q, i) && |q.ops| == |p.ops| + SizeFrom(s, k) && q.symbols == p.symbols + SymbolsFrom(s, k)
            && q.childOps[i] == p.childOps[i] + Starts(s, k, |p.ops|)
    decreases s, |Kids(s)| - k
  {
    hide Kids, Emit, Size, AllSymbols, AddChild, Continues, Starts;
    var p := c.prog;
    StartsStep(s, k, |p.ops|);
    if k < |Kids(s)| {
      KidSmaller(s, k);
      var kid := Kids(s)[k];
      EmitAdds(kid.type_, kid.name, slots, seen, c);
      var c' := Emit(kid.type_, kid.name, slots, seen, c).value;
      var c1 := AddChild(c', i, |p.ops|);
      AddChildKeeps(c', i, |p.ops|);
      ContinuesChild(p, c', i, |p.ops|);
      EmitKidsAdds(s, k + 1, i, slots, seen, c1);
      var q := EmitKids(s, k + 1, i, slots, seen, c1).value.prog;
      ContinuesTrans(p, c1.prog, q, i);
      Assoc(p.symbols, AllSymbols(kid.type_), SymbolsFrom(s, k + 1));
      Assoc(p.childOps[i], [|p.ops|], Starts(s, k + 1, |p.ops| + Size(kid.type_)));
    } else {
      ContinuesSelf(p, i);
    }
  }

  lemma ContinuesSelf(p: Program, i: nat)
    ensures Continues(p, p, i)
  {}

  lemma AddChildKeeps(c: Ctx, i: nat, child: nat)
    requires i < |c.prog.childOps|
    ensures var q := AddChild(c, i, child);
            q.prog.ops == c.prog.ops && q.prog.slab == c.prog.slab && q.prog.symbols == c.prog.symbols
                && q.prog.ext == c.prog.ext
            && |q.prog.childOps| == |c.prog.childOps| && q.keySeq == c.keySeq
  {}

  // ---------- the emitted program is the schema ----------

  lemma LayeredChild(c: Ctx, i: nat, child: nat)
    requires Layered(c.prog) && i < |c.prog.childOps| && i < child < |c.prog.ops|
    ensures Layered(AddChild(c, i, child).prog)
  {}

  lemma LayeredOp(s: Schema, name: Name, slots: SlotMap, c: Ctx)
    requires InStep(c) && Layered(c.prog) && KindOf(s).Some?
    ensures Layered(AddOp(s, name, slots, c).prog)
  {}

  lemma {:induction false} EmitLayered(s: Schema, name: Name, slots: SlotMap, seen: set<Name>, c: Ctx)
    requires InStep(c) && Layered(c.prog) && Emit(s, name, slots, seen, c).Some?
    ensures Layered(Emit(s, name, slots, seen, c).value.prog)
    decreases s, |Kids(s)| + 1
  {
    hide Kids, Layered, AddOp, EmitKids, Enclosed;
    LayeredOp(s, name, slots, c);
    AddOpInStep(s, name, slots, c);
    EmitKidsLayered(s, 0, |c.prog.ops|, slots, Enclosed(s, seen), AddOp(s, name, slots, c));
  }

  lemma {:induction false} EmitKidsLayered(s: Schema, k: nat, i: nat, slots: SlotMap, seen: set<Name>, c: Ctx)
    requires InStep(c) && Layered(c.prog) && i < |c.prog.ops| && k <= |Kids(s)|
             && EmitKids(s, k, i, slots, seen, c).Some?
    ensures Layered(EmitKids(s, k, i, slots, seen, c).value.prog)
    decreases s, |Kids(s)| - k
  {
    hide Kids, Layered, Emit, AddChild;
    if k < |Kids(s)| {
      KidSmaller(s, k);
      var kid := Kids(s)[k];
      EmitLayered(kid.type_, kid.name, slots, seen, c);
      var c' := Emit(kid.type_, kid.name, slots, seen, c).value;
      LayeredChild(c', i, |c.prog.ops|);
      AddChildKeeps(c', i, |c.prog.ops|);
      EmitKidsLayered(s, k + 1, i, slots, seen, AddChild(c', i, |c.prog.ops|));
    }
  }

  lemma OpForFrame(p: Program, q: Program, b: nat, i: nat, s: Schema, name: Name)
    requires OpFor(p, i, s, name) && Continues(p, q, b)
    ensures OpFor(q, i, s, name)
  {
    assert q.ops[i] == p.ops[i];
    var op := p.ops[i];
    assert q.slab[op.nameOff..op.nameOff + op.nameLen] == p.slab[op.nameOff..op.nameOff + op.nameLen];
  }

  /** What is laid out above op b is untouched when only b's child list and the end change. */
  lemma {:induction false} LaidFrame(p: Program, q: Program, b: nat, i: nat, s: Schema, name: Name)
    requires Layered(p) && Laid(p, i, s, name) && Continues(p, q, b) && b < i
    ensures Laid(q, i, s, name)
    decreases s
  {
    hide Kids, Layered, Starts, OpFor;
    LaidAt(p, i, s, name);
    OpForFrame(p, q, b, i, s, name);
    KidIndex(p, i);
    forall k | 0 <= k < |Kids(s)|
      ensures Kids(s)[k].type_ < s && Laid(q, p.childOps[i][k], Kids(s)[k].type_, Kids(s)[k].name)
    {
      LaidKid(p, i, s, name, k);
      LaidFrame(p, q, b, p.childOps[i][k], Kids(s)[k].type_, Kids(s)[k].name);
    }
  }

  /** Names and fixed sizes fit their field widths. */
  ghost predicate Fits(s: Schema)
    decreases s
  {
    && (s.Fixed? ==> s.size < 0x1_0000)
    && forall k :: 0 <= k < |Kids(s)| ==> (KidSmaller(s, k); |Kids(s)[k].name| < 0x100 && Fits(Kids(s)[k].type_))
  }

  /** The first k children of op i are laid out. */
  ghost predicate KidsLaid(p: Program, i: nat, s: Schema, k: nat) {
    && k <= |Kids(s)| && i < |p.childOps| && |p.childOps[i]| == k
    && forall m :: 0 <= m < k ==> Laid(p, p.childOps[i][m], Kids(s)[m].type_, Kids(s)[m].name)
  }

  lemma KidsLaidGrow(p: Program, c: Ctx, i: nat, s: Schema, k: nat)
    requires Layered(p) && |p.ops| == |p.childOps| && KidsLaid(p, i, s, k) && k < |Kids(s)| && Layered(c.prog)
    requires Continues(p, c.prog, |p.ops|) && |p.ops| < |c.prog.ops| && |p.ops| < |c.prog.childOps|
    requires Laid(c.prog, |p.ops|, Kids(s)[k].type_, Kids(s)[k].name)
    ensures KidsLaid(AddChild(c, i, |p.ops|).prog, i, s, k + 1)
  {
    hide Laid, Layered, Continues, Kids, AddChild;
    var q := AddChild(c, i, |p.ops|).prog;
    ContinuesChild(p, c, i, |p.ops|);
    KidIndex(p, i);
    forall m | 0 <= m < k
      ensures Laid(q, q.childOps[i][m], Kids(s)[m].type_, Kids(s)[m].name)
    {
      LaidFrame(p, q, i, p.childOps[i][m], Kids(s)[m].type_, Kids(s)[m].name);
    }
    SameButChild(c, i, |p.ops|);
    LaidFrame(c.prog, q, i, |p.ops|, Kids(s)[k].type_, Kids(s)[k].name);
  }

  lemma SameButChild(c: Ctx, i: nat, child: nat)
    requires i < |c.prog.childOps|
    ensures Continues(c.prog, AddChild(c, i, child).prog, i)
    ensures |AddChild(c, i, child).prog.childOps| == |c.prog.childOps|
  {}

  lemma EmitPrefix(s: Schema, name: Name, slots: SlotMap, seen: set<Name>, c: Ctx)
    requires InStep(c) && Emit(s, name, slots, seen, c).Some?
    ensures var p, q := c.prog, Emit(s, name, slots, seen, c).value.prog;
            && Continues(p, q, |p.ops|) && |p.slab| <= |q.slab| && |p.ops| < |q.ops| && |q.ops| == |q.childOps|
  {
    hide Kids, NewOp, Starts, Size, AllSymbols, Emit;
    EmitAdds(s, name, slots, seen, c);
  }

  lemma {:induction false} EmitKidsLays(s: Schema, k: nat, i: nat, slots: SlotMap, seen: set<Name>, c: Ctx)
    requires InStep(c) && Layered(c.prog) && i < |c.prog.ops| && k <= |Kids(s)|
             && EmitKids(s, k, i, slots, seen, c).Some?
    requires Fits(s) && KidsLaid(c.prog, i, s, k) && |EmitKids(s, k, i, slots, seen, c).value.prog.slab| <= 0x1_0000
    ensures KidsLaid(EmitKids(s, k, i, slots, seen, c).value.prog, i, s, |Kids(s)|)
    decreases s, |Kids(s)| - k
  {
    hide Kids, Layered, Emit, AddChild, KidsLaid, Laid, Continues, SizeFrom, Starts, SymbolsFrom;
    if k < |Kids(s)| {
      KidSmaller(s, k);
      var kid := Kids(s)[k];
      var c' := Emit(kid.type_, kid.name, slots, seen, c).value;
      EmitPrefix(kid.type_, kid.name, slots, seen, c);
      EmitLayered(kid.type_, kid.name, slots, seen, c);
      var c1 := AddChild(c', i, |c.prog.ops|);
      LayeredChild(c', i, |c.prog.ops|);
      AddChildKeeps(c', i, |c.prog.ops|);
      SlabGrows(s, k + 1, i, slots, seen, c1);
      EmitLays(kid.type_, kid.name, slots, seen, c);
      KidsLaidGrow(c.prog, c', i, s, k);
      EmitKidsLays(s, k + 1, i, slots, seen, c1);
    } else {
      AllLaid(c.prog, i, s, k);
    }
  }

  lemma AllLaid(p: Program, i: nat, s: Schema, k: nat)
    requires KidsLaid(p, i, s, k) && k == |Kids(s)|
    ensures KidsLaid(p, i, s, |Kids(s)|)
  {}

  lemma SlabGrows(s: Schema, k: nat, i: nat, slots: SlotMap, seen: set<Name>, c: Ctx)
    requires InStep(c) && i < |c.prog.ops| && k <= |Kids(s)| && EmitKids(s, k, i, slots, seen, c).Some?
    ensures |c.prog.slab| <= |EmitKids(s, k, i, slots, seen, c).value.prog.slab|
    ensures Continues(c.prog, EmitKids(s, k, i, slots, seen, c).value.prog, i)
  {
    hide Kids, EmitKids, SizeFrom, Starts, SymbolsFrom;
    EmitKidsAdds(s, k, i, slots, seen, c);
  }

  /** Emission lays out the schema, provided names, sizes and the slab fit their field widths. */
  lemma {:induction false} EmitLays(s: Schema, name: Name, slots: SlotMap, seen: set<Name>, c: Ctx)
    requires InStep(c) && Layered(c.prog) && Emit(s, name, slots, seen, c).Some?
    requires Fits(s) && |name| < 0x100 && |Emit(s, name, slots, seen, c).value.prog.slab| <= 0x1_0000
    ensures Laid(Emit(s, name, slots, seen, c).value.prog, |c.prog.ops|, s, name)
    decreases s, |Kids(s)| + 1
  {
    hide Kids, Layered, AddOp, EmitKids, Enclosed, KidsLaid, Continues, Starts, Size, AllSymbols, Laid, NewOp;
    var i := |c.prog.ops|;
    var c1 := AddOp(s, name, slots, c);
    AddOpAdds(s, name, slots, c);
    AddOpInStep(s, name, slots, c);
    LayeredOp(s, name, slots, c);
    var q := EmitKids(s, 0, i, slots, Enclosed(s, seen), c1).value.prog;
    SlabGrows(s, 0, i, slots, Enclosed(s, seen), c1);
    NoKidsLaid(c1.prog, i, s);
    EmitKidsLays(s, 0, i, slots, Enclosed(s, seen), c1);
    EmitAdds(s, name, slots, seen, c);
    OpEmitted(c.prog, c1.prog, q, i, s, name, c.keySeq);
    LaidOfParts(q, i, s, name);
  }

  lemma NoKidsLaid(p: Program, i: nat, s: Schema)
    requires i < |p.childOps| && p.childOps[i] == []
    ensures KidsLaid(p, i, s, 0)
  {}

  lemma LaidOfParts(q: Program, i: nat, s: Schema, name: Name)
    requires OpFor(q, i, s, name) && KidsLaid(q, i, s, |Kids(s)|) && q.childOps[i] == Starts(s, 0, i + 1)
    ensures Laid(q, i, s, name)
  {
    hide Kids, Starts;
  }

  /** The op emitted for s carries its kind, its name and its size. */
  lemma OpEmitted(p: Program, p1: Program, q: Program, i: nat, s: Schema, name: Name, key: nat)
    requires KindOf(s).Some? && i < |p1.ops| && p1.ops[i] == NewOp(s, name, |p.slab|, key) && p1.slab == p.slab + name
    requires Continues(p1, q, i) && |name| < 0x100 && |q.slab| <= 0x1_0000 && (s.Fixed? ==> s.size < 0x1_0000)
    ensures OpFor(q, i, s, name)
  {
    assert q.ops[i] == p1.ops[i];
    assert |p.slab| + |name| <= |q.slab|;
    if name == [] {
      assert q.ops[i].nameLen == 0;
    } else {
      assert q.ops[i].nameOff == |p.slab|;
      assert q.slab[|p.slab|..|p.slab| + |name|] == p1.slab[|p.slab|..] == name;
    }
  }

  // ---------- slots ----------

  /** Keys run with the op indices up to the sentinel; nothing is skipped. */
  ghost predicate Ordered(p: Program) {
    forall i :: 0 <= i < |p.ops| ==> !p.ops[i].skip && p.ops[i].keyIdx == if i >= EXT_SENTINEL then EXT_SENTINEL else i
  }

  lemma {:induction false} EmitOrdered(s: Schema, name: Name, slots: SlotMap, seen: set<Name>, c: Ctx)
    requires InStep(c) && Ordered(c.prog) && Emit(s, name, slots, seen, c).Some?
    ensures Ordered(Emit(s, name, slots, seen, c).value.prog)
    decreases s, |Kids(s)| + 1
  {
    hide Kids, Ordered, AddOp, EmitKids, Enclosed;
    AddOpInStep(s, name, slots, c);
    OrderedOp(s, name, slots, c);
    EmitKidsOrdered(s, 0, |c.prog.ops|, slots, Enclosed(s, seen), AddOp(s, name, slots, c));
  }

  lemma OrderedOp(s: Schema, name: Name, slots: SlotMap, c: Ctx)
    requires InStep(c) && Ordered(c.prog) && KindOf(s).Some?
    ensures Ordered(AddOp(s, name, slots, c).prog)
  {
    hide Narrow;
  }

  lemma {:induction false} EmitKidsOrdered(s: Schema, k: nat, i: nat, slots: SlotMap, seen: set<Name>, c: Ctx)
    requires InStep(c) && Ordered(c.prog) && i < |c.prog.ops| && k <= |Kids(s)|
             && EmitKids(s, k, i, slots, seen, c).Some?
    ensures Ordered(EmitKids(s, k, i, slots, seen, c).value.prog)
    decreases s, |Kids(s)| - k
  {
    hide Kids, Emit, AddChild;
    if k < |Kids(s)| {
      KidSmaller(s, k);
      var kid := Kids(s)[k];
      EmitOrdered(kid.type_, kid.name, slots, seen, c);
      var c' := Emit(kid.type_, kid.name, slots, seen, c).value;
      AddChildKeeps(c', i, |c.prog.ops|);
      EmitKidsOrdered(s, k + 1, i, slots, seen, AddChild(c', i, |c.prog.ops|));
    }
  }

  /** Past the sentinel, the extension table lists the slots in op order. */
  ghost predicate Keyed(p: Program, slots: SlotMap) {
    && Ordered(p)
    && |p.ext| == (if |p.ops| > EXT_SENTINEL then |p.ops| - EXT_SENTINEL else 0)
    && forall j :: 0 <= j < |p.ext| ==> ExtAt(p, slots, j)
  }

  ghost predicate ExtAt(p: Program, slots: SlotMap, j: nat)
    requires j < |p.ext|
  {
    var i := EXT_SENTINEL + j;
    && i < |p.ops| && p.ops[i].nameOff + p.ops[i].nameLen <= |p.slab|
    && p.ext[j].opIdx == i && p.ext[j].slot == Narrow(SlotOf(slots, FieldName(p, p.ops[i])), HALF32)
  }

  lemma KeyedOp(s: Schema, name: Name, slots: SlotMap, c: Ctx)
    requires InStep(c) && Keyed(c.prog, slots) && KindOf(s).Some?
    requires |name| < 0x100 && |c.prog.slab| + |name| <= 0x1_0000 && (s.Fixed? ==> s.size < 0x1_0000)
    ensures Keyed(AddOp(s, name, slots, c).prog, slots)
  {
    var p, q, n := c.prog, AddOp(s, name, slots, c).prog, |c.prog.ops|;
    assert q.ops[n] == NewOp(s, name, |p.slab|, n);
    OpEmitted(p, q, q, n, s, name, n);
    forall j | 0 <= j < |p.ext|
      ensures ExtAt(q, slots, j)
    {
      assert ExtAt(p, slots, j);
      var op := p.ops[EXT_SENTINEL + j];
      assert q.ops[EXT_SENTINEL + j] == op;
      assert q.slab[op.nameOff..op.nameOff + op.nameLen] == p.slab[op.nameOff..op.nameOff + op.nameLen];
    }
  }

  lemma KeyedChild(c: Ctx, i: nat, child: nat, slots: SlotMap)
    requires i < |c.prog.childOps| && Keyed(c.prog, slots)
    ensures Keyed(AddChild(c, i, child).prog, slots)
  {
    var p, q := c.prog, AddChild(c, i, child).prog;
    assert forall j :: 0 <= j < |p.ext| ==> ExtAt(p, slots, j) ==> ExtAt(q, slots, j);
  }

  lemma {:induction false} EmitKeyed(s: Schema, name: Name, slots: SlotMap, seen: set<Name>, c: Ctx)
    requires InStep(c) && Keyed(c.prog, slots) && Emit(s, name, slots, seen, c).Some?
    requires Fits(s) && |name| < 0x100 && |Emit(s, name, slots, seen, c).value.prog.slab| <= 0x1_0000
    ensures Keyed(Emit(s, name, slots, seen, c).value.prog, slots)
    decreases s, |Kids(s)| + 1
  {
    hide Kids, Keyed, AddOp, EmitKids, Enclosed, Continues;
    var c1 := AddOp(s, name, slots, c);
    AddOpAdds(s, name, slots, c);
    AddOpInStep(s, name, slots, c);
    SlabGrows(s, 0, |c.prog.ops|, slots, Enclosed(s, seen), c1);
    KeyedOp(s, name, slots, c);
    EmitKidsKeyed(s, 0, |c.prog.ops|, slots, Enclosed(s, seen), c1);
  }

  lemma {:induction false} EmitKidsKeyed(s: Schema, k: nat, i: nat, slots: SlotMap, seen: set<Name>, c: Ctx)
    requires InStep(c) && Keyed(c.prog, slots) && i < |c.prog.ops| && k <= |Kids(s)|
             && EmitKids(s, k, i, slots, seen, c).Some?
    requires Fits(s) && |EmitKids(s, k, i, slots, seen, c).value.prog.slab| <= 0x1_0000
    ensures Keyed(EmitKids(s, k, i, slots, seen, c).value.prog, slots)
    decreases s, |Kids(s)| - k
  {
    hide Kids, Keyed, Emit, AddChild, Continues;
    if k < |Kids(s)| {
      KidSmaller(s, k);
      var kid := Kids(s)[k];
      var c' := Emit(kid.type_, kid.name, slots, seen, c).value;
      EmitPrefix(kid.type_, kid.name, slots, seen, c);
      var c1 := AddChild(c', i, |c.prog.ops|);
      AddChildKeeps(c', i, |c.prog.ops|);
      SlabGrows(s, k + 1, i, slots, seen, c1);
      EmitKeyed(kid.type_, kid.name, slots, seen, c);
      KeyedChild(c', i, |c.prog.ops|, slots);
      EmitKidsKeyed(s, k + 1, i, slots, seen, c1);
    }
  }

  /** The slot of every keyed op, by key; fields without a slot are marked -1. */
  function FieldIndexOf(p: Program, slots: SlotMap): (fi: seq<int>)
    requires Layered(p)
    ensures |fi| == if |p.ops| < EXT_SENTINEL then |p.ops| else EXT_SENTINEL
  {
    seq(if |p.ops| < EXT_SENTINEL then |p.ops| else EXT_SENTINEL,
        k requires 0 <= k < |p.ops| => Narrow(SlotOf(slots, FieldName(p, p.ops[k])), HALF8))
  }

  /** The three loops at the end of Compile: the largest key, the blank table, the slots. */
  method BuildFieldIndex(p: Program, slots: SlotMap) returns (fi: seq<int>)
    requires Layered(p) && Ordered(p)
    ensures fi == FieldIndexOf(p, slots)
  {
    hide Narrow;
    var maxKey: int := -1;
    for i := 0 to |p.ops|
      invariant maxKey == (if i < EXT_SENTINEL then i else EXT_SENTINEL) - 1
    {
      if p.ops[i].keyIdx != EXT_SENTINEL && p.ops[i].keyIdx > maxKey {
        maxKey := p.ops[i].keyIdx;
      }
    }
    if maxKey < 0 {
      return [];
    }
    var index := new int[maxKey + 1](_ => -1);
    NarrowMinusOne();
    for i := 0 to |p.ops|
      invariant forall k :: 0 <= k < index.Length ==>
                  index[k] == if k < i then Narrow(SlotOf(slots, FieldName(p, p.ops[k])), HALF8) else -1
    {
      var op := p.ops[i];
      if op.keyIdx == EXT_SENTINEL {
        continue;
      }
      var name := FieldName(p, op);
      if name in slots {
        index[op.keyIdx] := Narrow(slots[name], HALF8);
      }
    }
    return index[..];
  }

  lemma NarrowMinusOne()
    ensures Narrow(-1, HALF8) == -1 == Narrow(-1, HALF32)
  {}

  ghost predicate Sorted(ext: seq<Ext>) {
    forall i, j :: 0 <= i < j < |ext| ==> ext[i].opIdx < ext[j].opIdx
  }

  function LookupExt(ext: seq<Ext>, opIdx: nat): int {
    if ext == [] then -1 else if ext[0].opIdx == opIdx then ext[0].slot else LookupExt(ext[1..], opIdx)
  }

  lemma {:induction false} LookupExtIs(ext: seq<Ext>, opIdx: nat, j: nat)
    requires Sorted(ext)
    ensures j < |ext| && ext[j].opIdx == opIdx ==> LookupExt(ext, opIdx) == ext[j].slot
    ensures (forall i :: 0 <= i < |ext| ==> ext[i].opIdx != opIdx) ==> LookupExt(ext, opIdx) == -1
  {
    if ext != [] {
      LookupExtIs(ext[1..], opIdx, if j > 0 then j - 1 else 0);
    }
  }

  /** Binary search over the table sorted by op index. */
  method LookupExtSlot(p: Program, opIdx: nat) returns (slot: int)
    requires Sorted(p.ext)
    ensures slot == LookupExt(p.ext, opIdx)
  {
    var lo, hi: nat := 0, |p.ext|;
    while lo < hi
      invariant 0 <= lo <= hi <= |p.ext|
      invariant forall i :: 0 <= i < lo ==> p.ext[i].opIdx < opIdx
      invariant forall i :: hi <= i < |p.ext| ==> p.ext[i].opIdx >= opIdx
    {
      var mid := (lo + hi) / 2;
      if p.ext[mid].opIdx < opIdx {
        lo := mid + 1;
      } else {
        hi := mid;
      }
    }
    LookupExtIs(p.ext, opIdx, lo);
    if lo < |p.ext| && p.ext[lo].opIdx == opIdx {
      return p.ext[lo].slot;
    }
    return -1;
  }

  /** Where the decoded value of an op goes; -1 is nowhere. */
  function SlotFor(p: Program, i: nat): int
    requires i < |p.ops|
  {
    var op := p.ops[i];
    if op.skip then -1
    else if op.keyIdx == EXT_SENTINEL then LookupExt(p.ext, i)
    else if op.keyIdx >= |p.fieldIndex| then -1
    else p.fieldIndex[op.keyIdx]
  }

  // ---------- the whole compiler ----------

  function Compile(s: Schema, slots: SlotMap): (r: Option<Program>)
  {
    match Emit(s, [], slots, {}, Ctx(EMPTY_PROGRAM, 0))
    case None => None
    case Some(c) =>
      EmitLayered(s, [], slots, {}, Ctx(EMPTY_PROGRAM, 0));
      Some(c.prog.(fieldIndex := FieldIndexOf(c.prog, slots)))
  }

  /** The slab, the names and the sizes of a compiled schema fit their field widths. */
  ghost predicate WithinWidths(s: Schema, p: Program) {
    Fits(s) && |p.slab| <= 0x1_0000
  }

  lemma {:induction false} LaidSame(p: Program, q: Program, i: nat, s: Schema, name: Name)
    requires Laid(p, i, s, name) && p.ops == q.ops && p.slab == q.slab && p.childOps == q.childOps
    ensures Laid(q, i, s, name)
    decreases s
  {
    hide Kids, Starts;
    LaidAt(p, i, s, name);
    forall k | 0 <= k < |Kids(s)|
      ensures Kids(s)[k].type_ < s && Laid(q, p.childOps[i][k], Kids(s)[k].type_, Kids(s)[k].name)
    {
      LaidKid(p, i, s, name, k);
      LaidSame(p, q, p.childOps[i][k], Kids(s)[k].type_, Kids(s)[k].name);
    }
  }

  /**
   Compile succeeds exactly on supported, non-recursive schemas. Its program is laid out in
   pre-order with one op and one child list per schema node, and lists all symbols.
   */
  lemma CompileLayout(s: Schema, slots: SlotMap)
    ensures Compile(s, slots).Some? <==> Compilable(s, {})
    ensures var r := Compile(s, slots);
            r.Some? ==>
              && Layered(r.value) && |r.value.ops| == |r.value.childOps| == Size(s) && r.value.symbols == AllSymbols(s)
              && r.value.childOps[0] == Starts(s, 0, 1)
              && (WithinWidths(s, r.value) ==> Laid(r.value, 0, s, []))
  {
    hide Emit, Layered, Laid, Starts, Size, AllSymbols, Fits, Compilable, FieldIndexOf, Continues, NewOp;
    var c := Ctx(EMPTY_PROGRAM, 0);
    EmitSucceeds(s, [], slots, {}, c);
    EmptyLayered();
    if Emit(s, [], slots, {}, c).Some? {
      var q := Emit(s, [], slots, {}, c).value.prog;
      EmitLayered(s, [], slots, {}, c);
      EmitAdds(s, [], slots, {}, c);
      EmitPrefix(s, [], slots, {}, c);
      var p := Compile(s, slots).value;
      LayeredSame(q, p);
      if WithinWidths(s, q) {
        EmitLays(s, [], slots, {}, c);
        LaidSame(q, p, 0, s, []);
      }
    }
  }

  lemma EmptyLayered()
    ensures Layered(EMPTY_PROGRAM) && Ordered(EMPTY_PROGRAM) && forall slots: SlotMap :: Keyed(EMPTY_PROGRAM, slots)
  {}

  lemma LayeredSame(p: Program, q: Program)
    requires Layered(p) && p.ops == q.ops && p.slab == q.slab && p.childOps == q.childOps
    ensures Layered(q)
  {}

  /**
   Compiler correctness: on every input the compiled program decodes exactly as the schema
   tree does, with all enums looked up in the one shared symbol table.
   */
  lemma CompiledDecodes(s: Schema, slots: SlotMap, src: seq<byte>)
    requires Compile(s, slots).Some? && WithinWidths(s, Compile(s, slots).value)
    ensures var p := Compile(s, slots).value;
            Layered(p) && |p.ops| > 0 && AvroProgram.Decode(p, 0, src) == AvroTree.Decode(s, Shared(AllSymbols(s)), src)
  {
    hide Compile, AvroProgram.Decode, AvroTree.Decode, Layered, Laid, Starts, AllSymbols, WithinWidths, Compilable;
    CompileLayout(s, slots);
    DecodesTree(Compile(s, slots).value, 0, s, [], src);
  }

  /** Every op's value goes to the slot of its field name, cut to the table's width; names without a slot go nowhere. */
  lemma CompiledSlots(s: Schema, slots: SlotMap, i: nat)
    requires Compile(s, slots).Some? && WithinWidths(s, Compile(s, slots).value) && i < |Compile(s, slots).value.ops|
    ensures var p := Compile(s, slots).value;
            && p.ops[i].nameOff + p.ops[i].nameLen <= |p.slab| && Sorted(p.ext)
            && SlotFor(p, i) == Narrow(SlotOf(slots, FieldName(p, p.ops[i])),
                                       if i < EXT_SENTINEL then HALF8 else HALF32)
  {
    hide Emit, Narrow;
    var c := Ctx(EMPTY_PROGRAM, 0);
    EmptyLayered();
    EmitLayered(s, [], slots, {}, c);
    EmitKeyed(s, [], slots, {}, c);
    var q := Emit(s, [], slots, {}, c).value.prog;
    SlotsOf(q, slots, i);
  }

  lemma SlotsOf(q: Program, slots: SlotMap, i: nat)
    requires Layered(q) && Keyed(q, slots) && i < |q.ops|
    ensures Sorted(q.ext)
    ensures var p := q.(fieldIndex := FieldIndexOf(q, slots));
            SlotFor(p, i) == Narrow(SlotOf(slots, FieldName(p, p.ops[i])), if i < EXT_SENTINEL then HALF8 else HALF32)
  {
    hide Narrow;
    forall j, l | 0 <= j < l < |q.ext|
      ensures q.ext[j].opIdx < q.ext[l].opIdx
    {
      assert ExtAt(q, slots, j) && ExtAt(q, slots, l);
    }
    if i >= EXT_SENTINEL {
      assert ExtAt(q, slots, i - EXT_SENTINEL);
      LookupExtIs(q.ext, i, i - EXT_SENTINEL);
    }
  }
}
