/** Partial programs: marking everything off a field path as skipped, and what such a program decodes. */
module AvroPartial {
  import opened Machine
  import opened JsonText
  import opened AvroWire
  import opened AvroTree
  import opened AvroProgram
  import opened AvroCompile

  // ---------- marking ----------

  /** The first op with the given field name, or the number of ops. */
  function FindByName(p: Program, name: Name, k: nat): (i: nat)
    requires Layered(p) && k <= |p.ops|
    ensures k <= i <= |p.ops| && (i < |p.ops| ==> FieldName(p, p.ops[i]) == name)
    ensures forall m :: k <= m < i ==> FieldName(p, p.ops[m]) != name
    decreases |p.ops| - k
  {
    if k == |p.ops| || FieldName(p, p.ops[k]) == name then k else FindByName(p, name, k + 1)
  }

  function SetOp(p: Program, i: nat, op: Op): Program
    requires i < |p.ops|
  {
    p.(ops := p.ops[i := op])
  }

  function SkipOp(p: Program, i: nat): Program
    requires i < |p.ops|
  {
    SetOp(p, i, p.ops[i].(skip := true))
  }

  /** The end of the path: kept, marked as a slot, and its key pointed at the slot. */
  function KeepOp(p: Program, i: nat, key: nat, slot: int): Program
    requires i < |p.ops|
  {
    var q := SetOp(p, i, p.ops[i].(skip := false, isSlot := true));
    if key == EXT_SENTINEL || key >= |q.fieldIndex| then q
    else q.(fieldIndex := q.fieldIndex[key := Narrow(slot, HALF8)])
  }

  /** Names and structure agree; only flags and slots may differ. */
  ghost predicate FlagsOnly(p: Program, q: Program) {
    && q.slab == p.slab && q.symbols == p.symbols && q.childOps == p.childOps && |q.ops| == |p.ops|
    && forall i :: 0 <= i < |p.ops| ==> q.ops[i] == p.ops[i].(skip := q.ops[i].skip, isSlot := q.ops[i].isSlot)
  }

  lemma FlagsOnlyLayered(p: Program, q: Program)
    requires Layered(p) && FlagsOnly(p, q)
    ensures Layered(q)
  {
    assert forall i :: 0 <= i < |q.ops| ==>
             q.ops[i].nameOff == p.ops[i].nameOff && q.ops[i].nameLen == p.ops[i].nameLen;
  }

  lemma FlagsOnlyTrans(p: Program, q: Program, r: Program)
    requires FlagsOnly(p, q) && FlagsOnly(q, r)
    ensures FlagsOnly(p, r)
  {}

  function OpsAt(p: Program, kids: seq<nat>): (ops: seq<Op>)
    requires forall m :: 0 <= m < |kids| ==> kids[m] < |p.ops|
    ensures |ops| == |kids| && forall m :: 0 <= m < |kids| ==> ops[m] == p.ops[kids[m]]
  {
    seq(|kids|, m requires 0 <= m < |kids| => p.ops[kids[m]])
  }

  ghost predicate NamesIn(p: Program, ops: seq<Op>) {
    forall m :: 0 <= m < |ops| ==> ops[m].nameOff + ops[m].nameLen <= |p.slab|
  }

  /**
   Handles one field: off the path it is skipped, on it it is kept or searched further. Ops are
   found again by name.
   */
  function MarkOne(p: Program, op: Op, path: seq<Name>, slot: int): (r: Option<Program>)
    requires Layered(p) && op.nameOff + op.nameLen <= |p.slab| && path != []
    ensures r.Some? ==> Layered(r.value) && FlagsOnly(p, r.value)
    decreases |path|, 0
  {
    var name := FieldName(p, op);
    var i := FindByName(p, name, 0);
    if i == |p.ops| then Some(p)
    else if name != path[0] then
      FlagsOnlyLayered(p, SkipOp(p, i));
      Some(SkipOp(p, i))
    else if |path| == 1 then
      FlagsOnlyLayered(p, KeepOp(p, i, op.keyIdx, slot));
      Some(KeepOp(p, i, op.keyIdx, slot))
    else
      KidsAfter(p, i);
      var kids := ChildOpsFor(p, i);
      if kids == [] then None else Mark(p, OpsAt(p, kids), 0, path[1..], slot, false)
  }

  /** The fields of one record from the k-th on. None if a segment is missing or has nothing below it. */
  function Mark(p: Program, ops: seq<Op>, k: nat, path: seq<Name>, slot: int, found: bool): (r: Option<Program>)
    requires Layered(p) && NamesIn(p, ops) && k <= |ops| && path != []
    ensures r.Some? ==> Layered(r.value) && FlagsOnly(p, r.value)
    decreases |path|, 1, |ops| - k
  {
    if k == |ops| then (if found then Some(p) else None)
    else
      match MarkOne(p, ops[k], path, slot)
      case None => None
      case Some(q) =>
        var name := FieldName(p, ops[k]);
        Mark(q, ops, k + 1, path, slot, found || (FindByName(p, name, 0) < |p.ops| && name == path[0]))
  }

  // ---------- flags never change what is consumed ----------

  ghost predicate SameEnd(a: Listed, b: Listed) {
    a.Entries? == b.Entries? && a.rest == b.rest
  }

  /** Whatever is skipped, the same bytes are used up and the same inputs fail. */
  lemma {:induction false} SameConsumption(p: Program, q: Program, i: nat, src: seq<byte>)
    requires Layered(p) && Layered(q) && FlagsOnly(p, q) && i < |p.ops|
    ensures AvroProgram.Decode(q, i, src).Good? == AvroProgram.Decode(p, i, src).Good?
            && AvroProgram.Decode(q, i, src).rest == AvroProgram.Decode(p, i, src).rest
    decreases |p.ops| - i, 3
  {
    hide Layered, Suffix, Scalar, ReadArm, FieldName;
    KidsAfter(p, i);
    var kids := ChildOpsFor(p, i);
    match p.ops[i].kind
    case KRecord => SameFields(p, q, i, kids, 0, src, [], []);
    case KArray => SameBlocks(p, q, i, false, src, [], []);
    case KMap => SameBlocks(p, q, i, true, src, [], []);
    case KUnion =>
      var a := ReadArm(src, |kids|);
      if a.Arm? {
        SameConsumption(p, q, kids[a.index], a.rest);
      }
    case _ =>
  }

  lemma {:induction false} SameFields(p: Program, q: Program, i: nat, kids: seq<nat>, k: nat, src: seq<byte>,
      acc: seq<Member>, acc': seq<Member>)
    requires Layered(p) && Layered(q) && FlagsOnly(p, q) && i < |p.ops| && k <= |kids|
    requires forall m :: 0 <= m < |kids| ==> i < kids[m] < |p.ops|
    ensures SameEnd(AvroProgram.DecodeFields(p, i, kids, k, src, acc),
                    AvroProgram.DecodeFields(q, i, kids, k, src, acc'))
    decreases |p.ops| - i, 2, |kids| - k
  {
    hide Layered, Suffix, AvroProgram.Decode, FieldName;
    if k < |kids| {
      SameConsumption(p, q, kids[k], src);
      NameFits(p, kids[k]);
      NameFits(q, kids[k]);
      var r, r' := AvroProgram.Decode(p, kids[k], src), AvroProgram.Decode(q, kids[k], src);
      if r.Good? {
        var op, op' := p.ops[kids[k]], q.ops[kids[k]];
        SameFields(p, q, i, kids, k + 1, r.rest,
                   if op.skip then acc else acc + [Member(FieldName(p, op), r.json)],
                   if op'.skip then acc' else acc' + [Member(FieldName(q, op'), r'.json)]);
      }
    }
  }

  lemma {:induction false} SameBlocks(p: Program, q: Program, i: nat, isMap: bool, src: seq<byte>, acc: seq<Member>,
      acc': seq<Member>)
    requires Layered(p) && Layered(q) && FlagsOnly(p, q) && i < |p.ops|
    ensures SameEnd(AvroProgram.DecodeBlocks(p, i, isMap, src, acc), AvroProgram.DecodeBlocks(q, i, isMap, src, acc'))
    decreases |p.ops| - i, 2, |src|
  {
    hide Layered, AvroProgram.DecodeItems, ReadBlock;
    var b := ReadBlock(src);
    if b.Items? && ChildOpsFor(p, i) != [] {
      SameItems(p, q, i, isMap, b.count, b.rest, acc, acc');
      var r, r' := AvroProgram.DecodeItems(p, i, isMap, b.count, b.rest, acc),
          AvroProgram.DecodeItems(q, i, isMap, b.count, b.rest, acc');
      if r.Entries? {
        SameBlocks(p, q, i, isMap, r.rest, r.entries, r'.entries);
      }
    }
  }

  lemma {:induction false} SameItems(p: Program, q: Program, i: nat, isMap: bool, count: nat, src: seq<byte>,
      acc: seq<Member>, acc': seq<Member>)
    requires Layered(p) && Layered(q) && FlagsOnly(p, q) && i < |p.ops| && ChildOpsFor(p, i) != []
    ensures SameEnd(AvroProgram.DecodeItems(p, i, isMap, count, src, acc),
                    AvroProgram.DecodeItems(q, i, isMap, count, src, acc'))
    decreases |p.ops| - i, 1, count
  {
    hide Layered, Suffix, AvroProgram.Decode, ReadKey;
    KidsAfter(p, i);
    if count > 0 {
      var key := ReadKey(isMap, src);
      if key.Bytes? {
        var c := ChildOpsFor(p, i)[0];
        SameConsumption(p, q, c, key.rest);
        var r, r' := AvroProgram.Decode(p, c, key.rest), AvroProgram.Decode(q, c, key.rest);
        if r.Good? {
          SameItems(p, q, i, isMap, count - 1, r.rest, acc + [Member(key.bytes, r.json)],
                    acc' + [Member(key.bytes, r'.json)]);
        }
      }
    }
  }

  // ---------- what a marked program decodes ----------

  /** Only the members on the path, at every level. */
  function Restrict(j: Json, path: seq<Name>): Json
    decreases |path|
  {
    if path == [] || !j.JObj? then j else JObj(Along(j.members, path))
  }

  function Along(ms: seq<Member>, path: seq<Name>): seq<Member>
    requires path != []
    decreases |path|, |ms|
  {
    if ms == [] then []
    else
      var front, last := Along(ms[..|ms| - 1], path), ms[|ms| - 1];
      if last.key == path[0] then front + [Member(last.key, Restrict(last.value, path[1..]))] else front
  }

  function RestrictOutcome(r: Outcome, path: seq<Name>): Outcome {
    if r.Good? then Good(Restrict(r.json, path), r.rest) else r
  }

  lemma AlongGrows(acc: seq<Member>, m: Member, path: seq<Name>)
    requires path != []
    ensures Along(acc + [m], path) ==
            if m.key == path[0] then Along(acc, path) + [Member(m.key, Restrict(m.value, path[1..]))]
            else Along(acc, path)
  {
    assert (acc + [m])[..|acc|] == acc;
  }

  lemma KidNames(p: Program, q: Program, kid: nat)
    requires Layered(p) && Layered(q) && FlagsOnly(p, q) && kid < |p.ops|
    ensures p.ops[kid].nameOff + p.ops[kid].nameLen <= |p.slab| && q.ops[kid].nameOff + q.ops[kid].nameLen <= |q.slab|
    ensures FieldName(q, q.ops[kid]) == FieldName(p, p.ops[kid])
  {}

  // ---------- where the children of an op lie ----------

  /** Children lie behind their parent, inside its span. */
  lemma {:induction false} KidSpan(s: Schema, k: nat, base: nat, m: nat)
    requires k <= m < |Kids(s)|
    ensures |Starts(s, k, base)| == |Kids(s)| - k
    ensures base <= Starts(s, k, base)[m - k] && Starts(s, k,
            base)[m - k] + Size(Kids(s)[m].type_) <= base + SizeFrom(s, k)
    decreases |Kids(s)| - k
  {
    hide Kids, Size;
    StartsLength(s, k, base);
    if m > k {
      KidSpan(s, k + 1, base + Size(Kids(s)[k].type_), m);
    }
  }

  /** Spans of different children follow one another. */
  lemma {:induction false} KidBefore(s: Schema, k: nat, base: nat, m: nat, n: nat)
    requires k <= m < n < |Kids(s)|
    ensures |Starts(s, k, base)| == |Kids(s)| - k
    ensures Starts(s, k, base)[m - k] + Size(Kids(s)[m].type_) <= Starts(s, k, base)[n - k]
    decreases |Kids(s)| - k
  {
    hide Kids, Size, Starts;
    StartsStep(s, k, base);
    StartsLength(s, k, base);
    var next := base + Size(Kids(s)[k].type_);
    KidSpan(s, k + 1, next, n);
    if m > k {
      KidBefore(s, k + 1, next, m, n);
    }
  }

  lemma {:induction false} StartsLength(s: Schema, k: nat, base: nat)
    requires k <= |Kids(s)|
    ensures |Starts(s, k, base)| == |Kids(s)| - k
    decreases |Kids(s)| - k
  {
    hide Kids, Size;
    if k < |Kids(s)| {
      StartsLength(s, k + 1, base + Size(Kids(s)[k].type_));
    }
  }

  /** The m-th child of op i: its span lies inside the parent's. */
  lemma KidWithin(p: Program, i: nat, s: Schema, name: Name, m: nat)
    requires Laid(p, i, s, name) && m < |Kids(s)|
    ensures i < |p.childOps| && |p.childOps[i]| == |Kids(s)|
    ensures i < p.childOps[i][m] && p.childOps[i][m] + Size(Kids(s)[m].type_) <= i + Size(s)
  {
    hide Kids, Laid, Starts, SizeFrom;
    LaidAt(p, i, s, name);
    KidSpan(s, 0, i + 1, m);
  }

  lemma KidsApart(p: Program, i: nat, s: Schema, name: Name, m: nat, n: nat)
    requires Laid(p, i, s, name) && m < n < |Kids(s)|
    ensures i < |p.childOps| && |p.childOps[i]| == |Kids(s)|
    ensures p.childOps[i][m] + Size(Kids(s)[m].type_) <= p.childOps[i][n]
  {
    hide Kids, Laid, Starts, Size;
    LaidAt(p, i, s, name);
    KidBefore(s, 0, i + 1, m, n);
  }

  lemma FlagsOnlyKids(p: Program, q: Program)
    requires FlagsOnly(p, q)
    ensures q.childOps == p.childOps && q.slab == p.slab && |q.ops| == |p.ops|
  {}

  /** No two ops share a non-empty field name. */
  ghost predicate DistinctNames(p: Program)
    requires Layered(p)
  {
    forall i, j :: 0 <= i < j < |p.ops| && FieldName(p, p.ops[i]) == FieldName(p, p.ops[j]) ==>
          FieldName(p, p.ops[i]) == []
  }

  /** Under distinct names, looking an op up by its name finds that op. */
  lemma FindsItself(p: Program, q: Program, i: nat)
    requires Layered(p) && Layered(q) && FlagsOnly(p, q) && DistinctNames(p) && i < |p.ops|
             && FieldName(p, p.ops[i]) != []
    ensures FindByName(q, FieldName(p, p.ops[i]), 0) == i
  {
    hide FindByName, FieldName, Layered;
    KidNames(p, q, i);
    var f := FindByName(q, FieldName(p, p.ops[i]), 0);
    if f < i {
      KidNames(p, q, f);
    }
  }

  /** The path names nested record fields down to its last segment, and the fields it passes have names. */
  ghost predicate PathIn(s: Schema, path: seq<Name>)
    requires path != []
    decreases |path|
  {
    && s.Record? && (forall m :: 0 <= m < |s.fields| ==> s.fields[m].name != [])
    && (exists m :: 0 <= m < |s.fields| && s.fields[m].name == path[0])
    && forall m :: 0 <= m < |s.fields| && s.fields[m].name == path[0] && |path| > 1 ==>
         PathIn(s.fields[m].type_, path[1..])
  }

  /** No op in the range is skipped. */
  ghost predicate Clean(p: Program, lo: nat, hi: nat) {
    forall o :: lo <= o < hi && o < |p.ops| ==> !p.ops[o].skip
  }

  /** The ops copied for a level still carry the names of the children. */
  ghost predicate CopiesOf(p: Program, ops: seq<Op>, kids: seq<nat>) {
    && |ops| == |kids|
    && forall m :: 0 <= m < |kids| ==>
         kids[m] < |p.ops| && ops[m].nameOff == p.ops[kids[m]].nameOff && ops[m].nameLen == p.ops[kids[m]].nameLen
  }

  lemma Copies(p: Program, q: Program, kids: seq<nat>)
    requires Layered(q) && FlagsOnly(p, q) && forall m :: 0 <= m < |kids| ==> kids[m] < |q.ops|
    ensures CopiesOf(p, OpsAt(q, kids), kids) && NamesIn(q, OpsAt(q, kids))
  {}

  // ---------- the partial compiler ----------

  const DOT: byte := 0x2E

  /** The segments between the dots. */
  function Split(path: seq<byte>): (segments: seq<Name>)
    ensures segments != []
  {
    if path == [] then [[]]
    else
      var front := Split(path[..|path| - 1]);
      if path[|path| - 1] == DOT then front + [[]]
      else front[|front| - 1 := front[|front| - 1] + [path[|path| - 1]]]
  }

  /** A copy of the program with everything off the path marked; none for an empty path or a missing segment. */
  function CompilePartial(full: Program, dotPath: seq<byte>, slot: int): (r: Option<Program>)
    requires Layered(full) && |full.ops| > 0
    ensures r.Some? ==> Layered(r.value) && FlagsOnly(full, r.value)
  {
    if dotPath == [] then None
    else
      KidsAfter(full, 0);
      Mark(full, OpsAt(full, ChildOpsFor(full, 0)), 0, Split(dotPath), slot, false)
  }

  lemma FlagsOnlySelf(p: Program)
    ensures FlagsOnly(p, p)
  {}

  lemma CompiledClean(s: Schema, slots: SlotMap)
    requires Compile(s, slots).Some?
    ensures Clean(Compile(s, slots).value, 0, |Compile(s, slots).value.ops|)
  {
    hide Emit, FieldIndexOf, Layered;
    EmptyLayered();
    EmitLayered(s, [], slots, {}, Ctx(EMPTY_PROGRAM, 0));
    EmitOrdered(s, [], slots, {}, Ctx(EMPTY_PROGRAM, 0));
  }
}
