/** The partial compiler as it runs: a deep copy whose flags are set in place. The full program is never written. */
module AvroPartialRun {
  import opened Machine
  import opened AvroTree
  import opened AvroProgram
  import opened AvroCompile
  import opened AvroPartial

  class ProgramObject {
    const ops: array<Op>
    const fieldIndex: array<int>
    const slab: seq<byte>
    const ext: seq<Ext>
    const symbols: seq<Name>
    const childOps: seq<seq<nat>>

    ghost function View(): Program
      reads ops, fieldIndex
    {
      Program(ops[..], slab, fieldIndex[..], ext, symbols, childOps)
    }

    /** A deep copy: both arrays are copied element by element. */
    constructor Clone(src: ProgramObject)
      ensures View() == src.View() && fresh(ops) && fresh(fieldIndex)
    {
      var newOps := new Op[src.ops.Length](i requires 0 <= i < src.ops.Length reads src.ops => src.ops[i]);
      var index := src.fieldIndex;
      var newIndex := new int[index.Length](i requires 0 <= i < index.Length reads index => index[i]);
      ops, fieldIndex := newOps, newIndex;
      slab, ext, symbols, childOps := src.slab, src.ext, src.symbols, src.childOps;
      new;
      assert ops[..] == src.ops[..] && fieldIndex[..] == src.fieldIndex[..];
    }

    /** The first op with the name. */
    method FindOpByName(name: Name) returns (i: nat)
      requires Layered(View())
      ensures i == FindByName(View(), name, 0)
    {
      for k := 0 to ops.Length
        invariant forall m :: 0 <= m < k ==> FieldName(View(), ops[m]) != name
      {
        if slab[ops[k].nameOff..ops[k].nameOff + ops[k].nameLen] == name {
          return k;
        }
      }
      return ops.Length;
    }

    method SkipAt(i: nat)
      requires i < ops.Length
      modifies ops
      ensures View() == SkipOp(old(View()), i)
    {
      ops[i] := ops[i].(skip := true);
    }

    method KeepAt(i: nat, key: nat, slot: int)
      requires i < ops.Length && ops != (fieldIndex as object)
      modifies ops, fieldIndex
      ensures View() == KeepOp(old(View()), i, key, slot)
    {
      ops[i] := ops[i].(skip := false);
      ops[i] := ops[i].(isSlot := true);
      if key != EXT_SENTINEL && key < fieldIndex.Length {
        fieldIndex[key] := Narrow(slot, HALF8);
      }
    }

    /** Marks everything off the path below one record. */
    method MarkSkips(kidOps: seq<Op>, path: seq<Name>, slot: int) returns (ok: bool)
      requires Layered(View()) && NamesIn(View(), kidOps) && path != []
      modifies ops, fieldIndex
      ensures ok == Mark(old(View()), kidOps, 0, path, slot, false).Some?
      ensures ok ==> View() == Mark(old(View()), kidOps, 0, path, slot, false).value
      decreases |path|
    {
      hide Layered, FindByName, MarkOne, SkipOp, KeepOp, FlagsOnly;
      var target := path[0];
      var found := false;
      for k := 0 to |kidOps|
        invariant Layered(View()) && NamesIn(View(), kidOps)
        invariant Mark(View(), kidOps, k, path, slot, found) == Mark(old(View()), kidOps, 0, path, slot, false)
      {
        var op := kidOps[k];
        ghost var p := View();
        var name := slab[op.nameOff..op.nameOff + op.nameLen];
        var absIdx := FindOpByName(name);
        MarkOneCases(p, op, path, slot);
        if absIdx == ops.Length {
          continue;
        }
        if name != target {
          SkipAt(absIdx);
          continue;
        }
        found := true;
        if |path| == 1 {
          KeepAt(absIdx, op.keyIdx, slot);
        } else {
          var children := if absIdx >= |childOps| then [] else childOps[absIdx];
          if children == [] {
            return false;
          }
          KidsAfter(p, absIdx);
          Copies(p, p, children);
          var n := |children|;
          var copies := seq(n, m requires 0 <= m < n && children[m] < ops.Length reads ops => ops[children[m]]);
          assert copies == OpsAt(p, children);
          ok := MarkSkips(copies, path[1..], slot);
          if !ok {
            return false;
          }
        }
      }
      return found;
    }
  }

  /** The four ways a field is handled. */
  lemma MarkOneCases(p: Program, op: Op, path: seq<Name>, slot: int)
    requires Layered(p) && op.nameOff + op.nameLen <= |p.slab| && path != []
    ensures var i := FindByName(p, FieldName(p, op), 0);
            var r := MarkOne(p, op, path, slot);
            if i == |p.ops| then r == Some(p)
            else if FieldName(p, op) != path[0] then r == Some(SkipOp(p, i))
            else if |path| == 1 then r == Some(KeepOp(p, i, op.keyIdx, slot))
            else if ChildOpsFor(p, i) == [] then r == None
            else (forall m :: 0 <= m < |ChildOpsFor(p, i)| ==> ChildOpsFor(p, i)[m] < |p.ops|)
                 && NamesIn(p, OpsAt(p, ChildOpsFor(p, i)))
                 && r == Mark(p, OpsAt(p, ChildOpsFor(p, i)), 0, path[1..], slot, false)
  {
    hide FindByName, SkipOp, KeepOp, Mark;
    var i := FindByName(p, FieldName(p, op), 0);
    if i < |p.ops| {
      KidsAfter(p, i);
    }
  }

  /** The partial program for a dot-separated path. */
  method CompilePartialProgram(full: ProgramObject, dotPath: seq<byte>, slot: int) returns (ok: bool,
      partial: ProgramObject)
    requires Layered(full.View()) && full.ops.Length > 0
    ensures ok == CompilePartial(full.View(), dotPath, slot).Some?
    ensures ok ==> fresh(partial) && partial.View() == CompilePartial(full.View(), dotPath, slot).value
    ensures unchanged(full.ops) && unchanged(full.fieldIndex)
  {
    hide Layered, Mark, Split;
    if dotPath == [] {
      return false, full;
    }
    var segments := Split(dotPath);
    partial := new ProgramObject.Clone(full);
    ghost var p := partial.View();
    KidsAfter(p, 0);
    var children := ChildrenOfRoot(partial);
    Copies(p, p, children);
    var n, ops := |children|, partial.ops;
    var rootOps := seq(n, m requires 0 <= m < n && children[m] < ops.Length reads ops => ops[children[m]]);
    assert rootOps == OpsAt(p, children);
    ok := partial.MarkSkips(rootOps, segments, slot);
  }

  method ChildrenOfRoot(p: ProgramObject) returns (children: seq<nat>)
    ensures children == ChildOpsFor(p.View(), 0)
  {
    children := if 0 >= |p.childOps| then [] else p.childOps[0];
  }
}
