/** The compiler as it runs: one object whose fields grow as the walk recurses, proved against module AvroCompile. */
module AvroCompiler {
  import opened Machine
  import opened AvroWire
  import opened AvroTree
  import opened AvroProgram
  import opened AvroCompile

  class Compiler {
    const slots: SlotMap
    var ops: seq<Op>
    var slab: seq<byte>
    var ext: seq<Ext>
    var symbols: seq<Name>
    var childOps: seq<seq<nat>>
    var seen: set<Name>
    var keySeq: nat

    ghost function View(): Ctx
      reads this
    {
      Ctx(Program(ops, slab, [], ext, symbols, childOps), keySeq)
    }

    constructor (slotMap: SlotMap)
      ensures slots == slotMap && seen == {} && View() == Ctx(EMPTY_PROGRAM, 0)
    {
      slots := slotMap;
      ops, slab, ext, symbols, childOps, seen, keySeq := [], [], [], [], [], {}, 0;
    }

    /** Appends a name to the slab; offset and length are cut to 16 and 8 bits. */
    method InternName(name: Name) returns (off: nat, len: nat)
      modifies this`slab
      ensures slab == old(slab) + name && off == |old(slab)| % 0x1_0000 && len == |name| % 0x100
    {
      off, len := |slab| % 0x1_0000, |name| % 0x100;
      slab := slab + name;
    }

    /** The next key; from 255 on the sentinel, with an extension entry. */
    method AllocKeyIdx(opIdx: nat, fieldName: Name) returns (key: nat)
      modifies this`keySeq, this`ext
      ensures keySeq == old(keySeq) + 1
      ensures key == if old(keySeq) >= EXT_SENTINEL then EXT_SENTINEL else old(keySeq)
      ensures ext == old(ext) +
                     if old(keySeq) < EXT_SENTINEL then [] else [Ext(opIdx, Narrow(SlotOf(slots, fieldName), HALF32))]
    {
      hide Narrow;
      var idx := keySeq;
      keySeq := keySeq + 1;
      if idx >= EXT_SENTINEL {
        NarrowMinusOne();
        var slotID := -1;
        if fieldName in slots {
          slotID := Narrow(slots[fieldName], HALF32);
        }
        ext := ext + [Ext(opIdx, slotID)];
        return EXT_SENTINEL;
      }
      return idx;
    }

    /** Whether some arm is null. */
    method FindNull(arms: seq<Schema>) returns (hasNull: bool)
      ensures hasNull == HasNull(arms)
    {
      for k := 0 to |arms|
        invariant forall m :: 0 <= m < k ==> !arms[m].Null?
      {
        if arms[k].Null? {
          return true;
        }
      }
      return false;
    }

    /** Appends the op of s itself. */
    method Append(s: Schema, fieldName: Name, kind: Kind)
      requires KindOf(s) == Some(kind) && InStep(View())
      modifies this`ops, this`slab, this`ext, this`symbols, this`childOps, this`keySeq
      ensures View() == AddOp(s, fieldName, slots, old(View()))
    {
      hide Narrow;
      var opIdx := |ops|;
      childOps := childOps + [[]];
      var off, len := InternName(fieldName);
      if s.Enum? {
        symbols := symbols + s.symbols;
      }
      var hasNull := false;
      if s.Union? {
        hasNull := FindNull(s.arms);
      }
      var key := AllocKeyIdx(opIdx, fieldName);
      var param: nat := if s.Enum? then |s.symbols| % 0x1_0000 else if s.Union? then |s.arms| % 0x1_0000
                        else if s.Fixed? then s.size % 0x1_0000 else 0;
      ops := ops + [Op(off, len, key, kind, hasNull, false, false, s.Union? && s.arms != [] && s.arms[0].Null?, param)];
    }

    /** Compiles one schema node and everything below it. */
    method Walk(s: Schema, fieldName: Name) returns (ok: bool)
      requires InStep(View())
      modifies this
      ensures ok == Emit(s, fieldName, slots, old(seen), old(View())).Some?
      ensures ok ==> View() == Emit(s, fieldName, slots, old(seen), old(View())).value && seen == old(seen)
      decreases s, |Kids(s)| + 1
    {
      hide Kids, AddOp;
      var kind := KindOf(s);
      if kind.None? {
        return false;
      }
      if s.Record? && s.name in seen {
        return false;
      }
      var outer := seen;
      if s.Record? {
        seen := seen + {s.name};
      }
      var opIdx := |ops|;
      AddOpInStep(s, fieldName, slots, View());
      Append(s, fieldName, kind.value);
      ok := WalkKids(s, opIdx);
      if ok {
        seen := outer;
      }
    }

    /** The children in order; each one's index is added to the parent's list after it is compiled. */
    method WalkKids(s: Schema, opIdx: nat) returns (ok: bool)
      requires InStep(View()) && opIdx < |ops|
      modifies this
      ensures ok == EmitKids(s, 0, opIdx, slots, old(seen), old(View())).Some?
      ensures ok ==> View() == EmitKids(s, 0, opIdx, slots, old(seen), old(View())).value && seen == old(seen)
      decreases s, |Kids(s)|
    {
      hide Kids, Emit;
      var kids := Kids(s);
      for k := 0 to |kids|
        invariant InStep(View()) && opIdx < |ops| && seen == old(seen)
        invariant EmitKids(s, k, opIdx, slots, old(seen), View()) ==
                  EmitKids(s, 0, opIdx, slots, old(seen), old(View()))
      {
        var childIdx := |ops|;
        KidSmaller(s, k);
        ok := Walk(kids[k].type_, kids[k].name);
        if !ok {
          return false;
        }
        childOps := childOps[opIdx := childOps[opIdx] + [childIdx]];
      }
      return true;
    }
  }

  /** The whole compiler. */
  method CompileSchema(s: Schema, slots: SlotMap) returns (r: Option<Program>)
    ensures r == Compile(s, slots) && r.Some? == Compilable(s, {})
  {
    hide Emit, FieldIndexOf, Fits, Compilable;
    var c := new Compiler(slots);
    EmitSucceeds(s, [], slots, {}, Ctx(EMPTY_PROGRAM, 0));
    EmptyLayered();
    var ok := c.Walk(s, []);
    if !ok {
      return None;
    }
    EmitLayered(s, [], slots, {}, Ctx(EMPTY_PROGRAM, 0));
    EmitOrdered(s, [], slots, {}, Ctx(EMPTY_PROGRAM, 0));
    var p := Program(c.ops, c.slab, [], c.ext, c.symbols, c.childOps);
    var fi := BuildFieldIndex(p, slots);
    return Some(p.(fieldIndex := fi));
  }
}
