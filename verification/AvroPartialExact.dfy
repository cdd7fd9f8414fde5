/**
 When partial decoding is right. Marking looks fields up by name in the whole program; which ops
 it leaves skipped is settled by those lookups, and so is whether the partial program decodes
 every input to the full decode restricted to the path.
 */
module AvroPartialExact {
  import opened Machine
  import opened AvroTree
  import opened AvroProgram
  import opened AvroCompile
  import opened AvroEnums
  import opened AvroPartial
  import opened AvroPartialFit

  // ---------- what marking touches ----------

  /** An op found by name, and whether it was taken to be off the path. */
  datatype Touch = Touch(op: nat, off: bool)

  /** What one field of a record leads to: its name is looked up in the whole program. None if nothing lies below. */
  function TouchOne(p: Program, kid: nat, path: seq<Name>): Option<seq<Touch>>
    requires Layered(p) && kid < |p.ops| && path != []
    decreases |path|, 0
  {
    var name := FieldName(p, p.ops[kid]);
    var i := FindByName(p, name, 0);
    if name != path[0] then Some([Touch(i, true)])
    else if |path| == 1 then Some([Touch(i, false)])
    else
      FoundKids(p, kid);
      Touches(p, ChildOpsFor(p, i), 0, path[1..], false)
  }

  lemma FoundKids(p: Program, kid: nat)
    requires Layered(p) && kid < |p.ops|
    ensures p.ops[kid].nameOff + p.ops[kid].nameLen <= |p.slab|
    ensures var i := FindByName(p, FieldName(p, p.ops[kid]), 0);
            i < |p.ops| && forall m :: 0 <= m < |ChildOpsFor(p, i)| ==> ChildOpsFor(p, i)[m] < |p.ops|
  {
    KidsAfter(p, FindByName(p, FieldName(p, p.ops[kid]), 0));
  }

  /** The fields of one record from the k-th on. None if no field has the segment's name, or below fails. */
  function Touches(p: Program, kids: seq<nat>, k: nat, path: seq<Name>, found: bool): Option<seq<Touch>>
    requires Layered(p) && k <= |kids| && path != [] && forall m :: 0 <= m < |kids| ==> kids[m] < |p.ops|
    decreases |path|, 1, |kids| - k
  {
    if k == |kids| then (if found then Some([]) else None)
    else
      match TouchOne(p, kids[k], path)
      case None => None
      case Some(ts) =>
        match Touches(p, kids, k + 1, path, found || FieldName(p, p.ops[kids[k]]) == path[0])
        case None => None
        case Some(us) => Some(ts + us)
  }

  /** Whether an op ends up skipped: its last touch decides. */
  predicate LeftOff(ts: seq<Touch>, o: nat, before: bool) {
    if ts == [] then before
    else if ts[|ts| - 1].op == o then ts[|ts| - 1].off
    else LeftOff(ts[..|ts| - 1], o, before)
  }

  lemma {:induction false} LeftOffJoin(ts: seq<Touch>, us: seq<Touch>, o: nat, before: bool)
    ensures LeftOff(ts + us, o, before) == LeftOff(us, o, LeftOff(ts, o, before))
    decreases |us|
  {
    if us == [] {
      assert ts + us == ts;
    } else {
      assert (ts + us)[..|ts + us| - 1] == ts + us[..|us| - 1];
      LeftOffJoin(ts, us[..|us| - 1], o, before);
    }
  }

  /** The marked program r comes from q by these touches. */
  ghost predicate Follows(q: Program, r: Program, ts: seq<Touch>) {
    |r.ops| == |q.ops| && forall o :: 0 <= o < |q.ops| ==> r.ops[o].skip == LeftOff(ts, o, q.ops[o].skip)
  }

  lemma FollowsJoin(q: Program, r: Program, u: Program, ts: seq<Touch>, us: seq<Touch>)
    requires Follows(q, r, ts) && Follows(r, u, us)
    ensures Follows(q, u, ts + us)
  {
    hide LeftOff;
    forall o | 0 <= o < |q.ops|
      ensures u.ops[o].skip == LeftOff(ts + us, o, q.ops[o].skip)
    {
      LeftOffJoin(ts, us, o, q.ops[o].skip);
    }
  }

  /** Lookups by name do not see flags. */
  lemma {:induction false} SameFind(p: Program, q: Program, name: Name, k: nat)
    requires Layered(p) && Layered(q) && FlagsOnly(p, q) && k <= |p.ops|
    ensures |q.ops| == |p.ops| && FindByName(q, name, k) == FindByName(p, name, k)
    decreases |p.ops| - k
  {
    hide FieldName, Layered;
    if k < |p.ops| {
      KidNames(p, q, k);
      SameFind(p, q, name, k + 1);
    }
  }

  lemma SkipFollows(q: Program, i: nat)
    requires i < |q.ops|
    ensures Follows(q, SkipOp(q, i), [Touch(i, true)])
  {
    hide LeftOff;
    var r, ts := SkipOp(q, i), [Touch(i, true)];
    forall o | 0 <= o < |q.ops|
      ensures r.ops[o].skip == LeftOff(ts, o, q.ops[o].skip)
    {
      OneTouch(ts[0], o, q.ops[o].skip);
    }
  }

  lemma KeepFollows(q: Program, i: nat, key: nat, slot: int)
    requires i < |q.ops|
    ensures Follows(q, KeepOp(q, i, key, slot), [Touch(i, false)])
  {
    hide Narrow, LeftOff;
    var r, ts := KeepOp(q, i, key, slot), [Touch(i, false)];
    forall o | 0 <= o < |q.ops|
      ensures r.ops[o].skip == LeftOff(ts, o, q.ops[o].skip)
    {
      OneTouch(ts[0], o, q.ops[o].skip);
    }
  }

  lemma OneTouch(t: Touch, o: nat, before: bool)
    ensures LeftOff([t], o, before) == if t.op == o then t.off else before
  {
    assert [t][..0] == [];
  }

  ghost predicate SameMark(q: Program, marked: Option<Program>, touched: Option<seq<Touch>>) {
    (marked.Some? <==> touched.Some?) && (marked.Some? ==> Follows(q, marked.value, touched.value))
  }

  /** Marking succeeds exactly when the lookups do, and flips exactly the flags they touch. */
  lemma {:induction false} MarkFollows(p: Program, q: Program, ops: seq<Op>, kids: seq<nat>, k: nat, path: seq<Name>,
      slot: int, found: bool)
    requires Layered(p) && Layered(q) && FlagsOnly(p, q) && CopiesOf(p, ops, kids) && NamesIn(q, ops)
    requires k <= |kids| && path != []
    ensures SameMark(q, Mark(q, ops, k, path, slot, found), Touches(p, kids, k, path, found))
    decreases |path|, 1, |kids| - k
  {
    hide Layered, FlagsOnly, MarkOne, TouchOne, FindByName, FieldName, LeftOff, Follows;
    if k == |kids| {
      FollowsSelf(q);
    } else {
      var kid := kids[k];
      NameFits(p, kid);
      CopiedName(p, q, ops, kids, k);
      MarkOneFollows(p, q, ops[k], kid, path, slot);
      FoundAlways(p, q, kid);
      var one := MarkOne(q, ops[k], path, slot);
      if one.Some? {
        FlagsOnlyTrans(p, q, one.value);
        FlagsOnlyKids(q, one.value);
        var found' := found || FieldName(p, p.ops[kid]) == path[0];
        MarkFollows(p, one.value, ops, kids, k + 1, path, slot, found');
        var rest := Mark(one.value, ops, k + 1, path, slot, found');
        if rest.Some? {
          FollowsJoin(q, one.value, rest.value, TouchOne(p, kid, path).value,
                      Touches(p, kids, k + 1, path, found').value);
        }
      }
    }
  }

  lemma FollowsSelf(q: Program)
    ensures Follows(q, q, [])
  {}

  lemma CopiedName(p: Program, q: Program, ops: seq<Op>, kids: seq<nat>, k: nat)
    requires Layered(p) && FlagsOnly(p, q) && CopiesOf(p, ops, kids) && k < |kids|
    ensures kids[k] < |p.ops| && ops[k].nameOff + ops[k].nameLen <= |q.slab|
            && p.ops[kids[k]].nameOff + p.ops[kids[k]].nameLen <= |p.slab|
    ensures FieldName(q, ops[k]) == FieldName(p, p.ops[kids[k]])
  {}

  lemma FoundAlways(p: Program, q: Program, kid: nat)
    requires Layered(p) && Layered(q) && FlagsOnly(p, q) && kid < |p.ops|
    ensures p.ops[kid].nameOff + p.ops[kid].nameLen <= |p.slab|
    ensures var name := FieldName(p, p.ops[kid]);
            FindByName(q, name, 0) == FindByName(p, name, 0) < |p.ops| == |q.ops|
  {
    hide Layered, FlagsOnly, FieldName, FindByName;
    NameFits(p, kid);
    SameFind(p, q, FieldName(p, p.ops[kid]), 0);
  }

  lemma {:induction false} MarkOneFollows(p: Program, q: Program, op: Op, kid: nat, path: seq<Name>, slot: int)
    requires Layered(p) && Layered(q) && FlagsOnly(p, q) && kid < |p.ops| && path != []
    requires p.ops[kid].nameOff + p.ops[kid].nameLen <= |p.slab| && op.nameOff + op.nameLen <= |q.slab|
    requires FieldName(q, op) == FieldName(p, p.ops[kid])
    ensures SameMark(q, MarkOne(q, op, path, slot), TouchOne(p, kid, path))
    decreases |path|, 0
  {
    hide Layered, FlagsOnly, Mark, Touches, FindByName, FieldName, LeftOff, Follows, SkipOp, KeepOp;
    FoundAlways(p, q, kid);
    FlagsOnlyKids(p, q);
    var name := FieldName(p, p.ops[kid]);
    var i := FindByName(p, name, 0);
    if name != path[0] {
      SkipFollows(q, i);
    } else if |path| == 1 {
      KeepFollows(q, i, op.keyIdx, slot);
    } else {
      KidsAfter(q, i);
      var kids := ChildOpsFor(q, i);
      Copies(p, q, kids);
      MarkFollows(p, q, OpsAt(q, kids), kids, 0, path[1..], slot, false);
      NoKidsNoTouch(p, path[1..]);
    }
  }

  lemma NoKidsNoTouch(p: Program, path: seq<Name>)
    requires Layered(p) && path != []
    ensures Touches(p, [], 0, path, false) == None
  {
    hide TouchOne;
  }

  // ---------- the exact condition ----------

  /** The lookups of a whole partial compilation. */
  function Lookups(p: Program, dotPath: seq<byte>): Option<seq<Touch>>
    requires Layered(p) && |p.ops| > 0
  {
    if dotPath == [] then None
    else
      KidsAfter(p, 0);
      Touches(p, ChildOpsFor(p, 0), 0, Split(dotPath), false)
  }

  /** The ops these lookups leave off the path. */
  ghost function Off(p: Program, ts: seq<Touch>): (off: set<nat>)
    ensures forall o :: o in off <==> 0 <= o < |p.ops| && LeftOff(ts, o, false)
  {
    set o | 0 <= o < |p.ops| && LeftOff(ts, o, false)
  }

  /**
   Partial decoding, on any laid-out program: a path compiles exactly when its lookups succeed,
   and then the partial program decodes every input to the full decode restricted to the path,
   same rest and same failures, exactly when the ops its lookups leave off fit the path.
   */
  lemma PartialDecodesIff(p: Program, s: Schema, dotPath: seq<byte>, slot: int)
    requires Layered(p) && Laid(p, 0, s, []) && Clean(p, 0, |p.ops|) && Small(s)
    ensures |p.ops| > 0 && (CompilePartial(p, dotPath, slot).Some? <==> Lookups(p, dotPath).Some?)
    ensures CompilePartial(p, dotPath, slot).Some? ==>
              var q := CompilePartial(p, dotPath, slot).value;
              (forall src :: RightOn(p, q, 0, Split(dotPath), src))
              <==> SkipsFit(p, Off(p, Lookups(p, dotPath).value), 0, s, Split(dotPath))
  {
    hide Layered, Laid, FlagsOnly, Mark, Touches, LeftOff, SkipsFit, Split, CopiesOf, NamesIn, Small, RightOn;
    LaidRoot(p, s);
    if dotPath != [] {
      KidsAfter(p, 0);
      FlagsOnlySelf(p);
      var kids := ChildOpsFor(p, 0);
      Copies(p, p, kids);
      MarkFollows(p, p, OpsAt(p, kids), kids, 0, Split(dotPath), slot, false);
      var marked := CompilePartial(p, dotPath, slot);
      if marked.Some? {
        SkipsRightIff(p, marked.value, 0, s, [], Split(dotPath));
        assert Skipped(marked.value) == Off(p, Lookups(p, dotPath).value);
      }
    }
  }

  lemma LaidRoot(p: Program, s: Schema)
    requires Laid(p, 0, s, [])
    ensures |p.ops| > 0
  {
    hide Kids, Starts;
  }

  /** The same for compiled schemas. */
  lemma CompiledPartialIff(s: Schema, slots: SlotMap, dotPath: seq<byte>, slot: int)
    requires Compile(s, slots).Some? && WithinWidths(s, Compile(s, slots).value) && Small(s)
    ensures var p := Compile(s, slots).value;
            && Layered(p) && |p.ops| > 0 && (CompilePartial(p, dotPath, slot).Some? <==> Lookups(p, dotPath).Some?)
            && (CompilePartial(p, dotPath, slot).Some? ==>
                  var q := CompilePartial(p, dotPath, slot).value;
                  (forall src :: RightOn(p, q, 0, Split(dotPath), src))
                  <==> SkipsFit(p, Off(p, Lookups(p, dotPath).value), 0, s, Split(dotPath)))
  {
    hide Compile, Laid, Layered, Clean, Split, WithinWidths, Starts, Size, AllSymbols, Compilable, CompilePartial,
         Lookups, SkipsFit, Small, RightOn;
    CompileLayout(s, slots);
    CompiledClean(s, slots);
    PartialDecodesIff(Compile(s, slots).value, s, dotPath, slot);
  }

  // ---------- which paths compile ----------

  /** Some field from the k-th on has the segment's name. */
  ghost predicate Named(p: Program, kids: seq<nat>, k: nat, name: Name)
    requires Layered(p) && forall m :: 0 <= m < |kids| ==> kids[m] < |p.ops|
  {
    exists m :: k <= m < |kids| && FieldName(p, p.ops[kids[m]]) == name
  }

  /**
   A path can be walked from these fields: one of them has the first segment's name, and the rest
   can be walked from the children of the first op of that name.
   */
  ghost predicate Walkable(p: Program, kids: seq<nat>, path: seq<Name>)
    requires Layered(p) && path != [] && forall m :: 0 <= m < |kids| ==> kids[m] < |p.ops|
    decreases |path|
  {
    && Named(p, kids, 0, path[0])
    && (|path| > 1 ==>
          (NamedIsFound(p, kids, 0, path[0]);
           Walkable(p, ChildOpsFor(p, FindByName(p, path[0], 0)), path[1..])))
  }

  lemma NamedIsFound(p: Program, kids: seq<nat>, k: nat, name: Name)
    requires Layered(p) && (forall m :: 0 <= m < |kids| ==> kids[m] < |p.ops|) && Named(p, kids, k, name)
    ensures var i := FindByName(p, name, 0);
            i < |p.ops| && forall m :: 0 <= m < |ChildOpsFor(p, i)| ==> ChildOpsFor(p, i)[m] < |p.ops|
  {
    hide FieldName, FindByName;
    var m :| k <= m < |kids| && FieldName(p, p.ops[kids[m]]) == name;
    FoundKids(p, kids[m]);
  }

  /** What lies below the fields of that name can be walked. */
  ghost predicate WalksOn(p: Program, kids: seq<nat>, k: nat, path: seq<Name>)
    requires Layered(p) && path != [] && forall m :: 0 <= m < |kids| ==> kids[m] < |p.ops|
  {
    Named(p, kids, k, path[0]) && |path| > 1 ==>
      (NamedIsFound(p, kids, k, path[0]); Walkable(p, ChildOpsFor(p, FindByName(p, path[0], 0)), path[1..]))
  }

  lemma {:induction false} TouchesSomeIff(p: Program, kids: seq<nat>, k: nat, path: seq<Name>, found: bool)
    requires Layered(p) && k <= |kids| && path != [] && forall m :: 0 <= m < |kids| ==> kids[m] < |p.ops|
    ensures Touches(p, kids, k, path, found).Some? <==>
            (found || Named(p, kids, k, path[0])) && WalksOn(p, kids, k, path)
    decreases |path|, 1, |kids| - k
  {
    hide Layered, TouchOne, FieldName, FindByName, Walkable;
    if k < |kids| {
      NameFits(p, kids[k]);
      var here := FieldName(p, p.ops[kids[k]]) == path[0];
      TouchOneSomeIff(p, kids, k, path);
      TouchesSomeIff(p, kids, k + 1, path, found || here);
      NamedStep(p, kids, k, path[0]);
    }
  }

  lemma NamedStep(p: Program, kids: seq<nat>, k: nat, name: Name)
    requires Layered(p) && k < |kids| && forall m :: 0 <= m < |kids| ==> kids[m] < |p.ops|
    ensures Named(p, kids, k, name) <==> FieldName(p, p.ops[kids[k]]) == name || Named(p, kids, k + 1, name)
  {
    hide FieldName;
  }

  lemma {:induction false} TouchOneSomeIff(p: Program, kids: seq<nat>, k: nat, path: seq<Name>)
    requires Layered(p) && k < |kids| && path != [] && forall m :: 0 <= m < |kids| ==> kids[m] < |p.ops|
    ensures p.ops[kids[k]].nameOff + p.ops[kids[k]].nameLen <= |p.slab|
    ensures TouchOne(p, kids[k], path).Some? <==>
            FieldName(p, p.ops[kids[k]]) != path[0] || WalksOn(p, kids, k, path)
    decreases |path|, 0
  {
    hide Layered, Touches, FieldName, FindByName;
    FoundKids(p, kids[k]);
    if FieldName(p, p.ops[kids[k]]) == path[0] && |path| > 1 {
      var below := ChildOpsFor(p, FindByName(p, path[0], 0));
      TouchesSomeIff(p, below, 0, path[1..], false);
      NamedStep(p, kids, k, path[0]);
    }
  }

  /** A path compiles exactly when it is not empty and can be walked from the root's fields. */
  lemma PathCompilesIff(p: Program, dotPath: seq<byte>, slot: int)
    requires Layered(p) && |p.ops| > 0
    ensures forall m :: 0 <= m < |ChildOpsFor(p, 0)| ==> ChildOpsFor(p, 0)[m] < |p.ops|
    ensures CompilePartial(p, dotPath, slot).Some? <==> dotPath != [] && Walkable(p, ChildOpsFor(p, 0), Split(dotPath))
  {
    hide Layered, Mark, Touches, Split, FlagsOnly, CopiesOf, NamesIn;
    KidsAfter(p, 0);
    if dotPath != [] {
      FlagsOnlySelf(p);
      var kids := ChildOpsFor(p, 0);
      Copies(p, p, kids);
      MarkFollows(p, p, OpsAt(p, kids), kids, 0, Split(dotPath), slot, false);
      TouchesSomeIff(p, kids, 0, Split(dotPath), false);
    }
  }

  // ---------- what the exact condition asks for ----------

  /** Only ops that are the first of their name are ever touched. */
  lemma {:induction false} TouchedAreFirst(p: Program, kids: seq<nat>, k: nat, path: seq<Name>, found: bool)
    requires Layered(p) && k <= |kids| && path != [] && forall m :: 0 <= m < |kids| ==> kids[m] < |p.ops|
    ensures Touches(p, kids, k, path, found).Some? ==> AllFirst(p, Touches(p, kids, k, path, found).value)
    decreases |path|, 1, |kids| - k
  {
    hide Layered, TouchOne, FieldName;
    if k < |kids| {
      OneIsFirst(p, kids[k], path);
      NameFits(p, kids[k]);
      TouchedAreFirst(p, kids, k + 1, path, found || FieldName(p, p.ops[kids[k]]) == path[0]);
    }
  }

  ghost predicate AllFirst(p: Program, ts: seq<Touch>)
    requires Layered(p)
  {
    forall t :: t in ts ==> FirstOfName(p, t.op)
  }

  /** Looking the op up by its own name finds it. */
  predicate FirstOfName(p: Program, o: nat)
    requires Layered(p)
  {
    o < |p.ops| && FindByName(p, FieldName(p, p.ops[o]), 0) == o
  }

  lemma {:induction false} OneIsFirst(p: Program, kid: nat, path: seq<Name>)
    requires Layered(p) && kid < |p.ops| && path != []
    ensures TouchOne(p, kid, path).Some? ==> AllFirst(p, TouchOne(p, kid, path).value)
    decreases |path|, 0
  {
    hide Layered, Touches;
    FoundKids(p, kid);
    FoundIsFirst(p, FieldName(p, p.ops[kid]));
    var i := FindByName(p, FieldName(p, p.ops[kid]), 0);
    if FieldName(p, p.ops[kid]) == path[0] && |path| > 1 {
      TouchedAreFirst(p, ChildOpsFor(p, i), 0, path[1..], false);
    }
  }

  lemma FoundIsFirst(p: Program, name: Name)
    requires Layered(p)
    ensures var i := FindByName(p, name, 0); i < |p.ops| ==> FirstOfName(p, i)
  {
    hide FindByName;
  }

  lemma {:induction false} LeftOffTouched(ts: seq<Touch>, o: nat)
    requires LeftOff(ts, o, false)
    ensures exists t :: t in ts && t.op == o
  {
    if ts[|ts| - 1].op != o {
      LeftOffTouched(ts[..|ts| - 1], o);
    }
  }

  /**
   So a field off the path whose name another op has before it is never skipped: if some input
   decodes the record at all, the partial program prints a member that is not on the path.
   */
  lemma ShadowedFieldShows(p: Program, s: Schema, dotPath: seq<byte>, slot: int, m: nat)
    requires Layered(p) && Laid(p, 0, s, []) && Clean(p, 0, |p.ops|) && Small(s) && Decodable(s) && s.Record?
    requires m < |s.fields| && s.fields[m].name != Split(dotPath)[0]
             && FindByName(p, s.fields[m].name, 0) != ChildAt(p, 0, m)
    ensures |p.ops| > 0
    ensures CompilePartial(p, dotPath, slot).Some? ==>
              exists src :: !RightOn(p, CompilePartial(p, dotPath, slot).value, 0, Split(dotPath), src)
  {
    hide Layered, Laid, Touches, LeftOff, Split, Small, RightOn, CompilePartial, Decodable, FindByName, FieldName;
    LaidRoot(p, s);
    PartialDecodesIff(p, s, dotPath, slot);
    if CompilePartial(p, dotPath, slot).Some? {
      KidsAfter(p, 0);
      TouchedAreFirst(p, ChildOpsFor(p, 0), 0, Split(dotPath), false);
      KidOf(p, 0, s, [], m);
      var ts, c := Lookups(p, dotPath).value, ChildAt(p, 0, m);
      assert !FirstOfName(p, c);
      if LeftOff(ts, c, false) {
        LeftOffTouched(ts, c);
      }
    }
  }

  lemma KidOf(p: Program, i: nat, s: Schema, name: Name, m: nat)
    requires Layered(p) && Laid(p, i, s, name) && s.Record? && m < |s.fields|
    ensures i < |p.childOps| && |p.childOps[i]| == |s.fields| && ChildAt(p, i, m) == p.childOps[i][m]
    ensures var c := ChildAt(p, i, m);
            && i < c < |p.ops| && Laid(p, c, s.fields[m].type_, s.fields[m].name)
            && p.ops[c].nameOff + p.ops[c].nameLen <= |p.slab| && FieldName(p, p.ops[c]) == s.fields[m].name
  {
    hide Layered, Starts;
    LaidAt(p, i, s, name);
    LaidKid(p, i, s, name, m);
    LaidAt(p, p.childOps[i][m], s.fields[m].type_, s.fields[m].name);
    KidIndex(p, i);
  }

  // ---------- a simple sufficient condition ----------

  /**
   The path names nested record fields down to its last segment, and every field of the records
   it passes is the first op of its name.
   */
  ghost predicate Resolves(p: Program, i: nat, s: Schema, path: seq<Name>)
    requires Layered(p) && path != []
    decreases |path|
  {
    && s.Record? && (exists m :: 0 <= m < |s.fields| && s.fields[m].name == path[0])
    && forall m :: 0 <= m < |s.fields| ==>
         && FindByName(p, s.fields[m].name, 0) == ChildAt(p, i, m)
         && (s.fields[m].name == path[0] && |path| > 1 ==> Resolves(p, ChildAt(p, i, m), s.fields[m].type_, path[1..]))
  }

  ghost predicate InSpan(ts: seq<Touch>, lo: nat, hi: nat) {
    forall t :: t in ts ==> lo <= t.op < hi
  }

  lemma {:induction false} OutOfSpan(ts: seq<Touch>, lo: nat, hi: nat, o: nat, before: bool)
    requires InSpan(ts, lo, hi) && !(lo <= o < hi)
    ensures LeftOff(ts, o, before) == before
  {
    if ts != [] {
      assert ts[|ts| - 1] in ts;
      OutOfSpan(ts[..|ts| - 1], lo, hi, o, before);
    }
  }

  /** Whether skips fit below an op depends on the ops below it only. */
  lemma {:induction false} FitsWithin(p: Program, off: set<nat>, off': set<nat>, i: nat, s: Schema, name: Name,
      path: seq<Name>)
    requires Laid(p, i, s, name) && SkipsFit(p, off, i, s, path)
    requires forall o :: i < o < i + Size(s) ==> (o in off <==> o in off')
    ensures SkipsFit(p, off', i, s, path)
    decreases s
  {
    hide Laid, Size, Decodable, OnPath, Tail;
    if Decodable(s) {
      match s
      case Record(_, fields) =>
        forall m | 0 <= m < |fields|
          ensures ChildAt(p, i, m) in off <==> ChildAt(p, i, m) in off'
          ensures OnPath(fields[m].name, path) ==> SkipsFit(p, off', ChildAt(p, i, m), fields[m].type_, Tail(path))
        {
          KidSpans(p, i, s, name, m);
          if OnPath(fields[m].name, path) {
            FitsWithin(p, off, off', ChildAt(p, i, m), fields[m].type_, fields[m].name, Tail(path));
          }
        }
      case Array(items) =>
        KidSpans(p, i, s, name, 0);
        FitsWithin(p, off, off', ChildAt(p, i, 0), items, [], []);
      case Map(values) =>
        if path == [] {
          KidSpans(p, i, s, name, 0);
          FitsWithin(p, off, off', ChildAt(p, i, 0), values, [], []);
        }
      case Union(arms) =>
        forall k | 0 <= k < |arms|
          ensures SkipsFit(p, off', ChildAt(p, i, k), arms[k], path)
        {
          KidSpans(p, i, s, name, k);
          FitsWithin(p, off, off', ChildAt(p, i, k), arms[k], [], path);
        }
      case _ =>
    }
  }

  lemma KidSpans(p: Program, i: nat, s: Schema, name: Name, k: nat)
    requires Laid(p, i, s, name) && k < |Kids(s)|
    ensures Laid(p, ChildAt(p, i, k), Kids(s)[k].type_, Kids(s)[k].name) && Size(Kids(s)[k].type_) > 0
    ensures i < ChildAt(p, i, k) && ChildAt(p, i, k) + Size(Kids(s)[k].type_) <= i + Size(s)
  {
    hide Laid, Kids, Starts, SizeFrom, Size;
    KidWithin(p, i, s, name, k);
    LaidKid(p, i, s, name, k);
  }

  /** Nothing skipped fits a path that is used up. */
  lemma {:induction false} WholeFits(p: Program, off: set<nat>, i: nat, s: Schema, name: Name)
    requires Laid(p, i, s, name) && forall o :: i < o < i + Size(s) ==> o !in off
    ensures SkipsFit(p, off, i, s, [])
    decreases s
  {
    hide Laid, Size, Decodable;
    match s
    case Record(_, fields) =>
      forall m | 0 <= m < |fields|
        ensures ChildAt(p, i, m) !in off && SkipsFit(p, off, ChildAt(p, i, m), fields[m].type_, [])
      {
        KidSpans(p, i, s, name, m);
        WholeFits(p, off, ChildAt(p, i, m), fields[m].type_, fields[m].name);
      }
    case Array(items) =>
      KidSpans(p, i, s, name, 0);
      WholeFits(p, off, ChildAt(p, i, 0), items, []);
    case Map(values) =>
      KidSpans(p, i, s, name, 0);
      WholeFits(p, off, ChildAt(p, i, 0), values, []);
    case Union(arms) =>
      forall k | 0 <= k < |arms|
        ensures SkipsFit(p, off, ChildAt(p, i, k), arms[k], [])
      {
        KidSpans(p, i, s, name, k);
        WholeFits(p, off, ChildAt(p, i, k), arms[k], []);
      }
    case _ =>
  }

  /** One field is handled as the path demands. */
  ghost predicate FieldFits(p: Program, ts: seq<Touch>, c: nat, f: Field, path: seq<Name>) {
    if OnPath(f.name, path) then !LeftOff(ts, c, false) && SkipsFit(p, Off(p, ts), c, f.type_, Tail(path))
    else LeftOff(ts, c, false)
  }

  /** Along a path that resolves, the lookups succeed, stay below the record, and leave off what fits. */
  lemma {:induction false} ResolvedTouches(p: Program, i: nat, s: Schema, name: Name, path: seq<Name>, k: nat,
      found: bool)
    requires Layered(p) && Laid(p, i, s, name) && path != [] && Resolves(p, i, s, path) && s.Record? && k <= |s.fields|
    requires found || exists m :: k <= m < |s.fields| && s.fields[m].name == path[0]
    ensures KidsInRange(p, i, s) && Touches(p, p.childOps[i], k, path, found).Some?
    ensures var ts := Touches(p, p.childOps[i], k, path, found).value;
            && InSpan(ts, if k < |s.fields| then p.childOps[i][k] else i + Size(s), i + Size(s))
            && forall m :: k <= m < |s.fields| ==> FieldFits(p, ts, p.childOps[i][m], s.fields[m], path)
    decreases |path|, 1, |s.fields| - k
  {
    hide Layered, Laid, Size, TouchOne, FieldFits, LeftOff, FindByName, FieldName, Resolves;
    ResolvesRecord(p, i, s, path);
    LaidShape(p, i, s, name);
    if k < |s.fields| {
      ResolvesAt(p, i, s, path, k);
      var c, f := p.childOps[i][k], s.fields[k];
      KidOf(p, i, s, name, k);
      KidSpans(p, i, s, name, k);
      ResolvedOne(p, c, f, path);
      ResolvedTouches(p, i, s, name, path, k + 1, found || f.name == path[0]);
      var ts := TouchOne(p, c, path).value;
      var us := Touches(p, p.childOps[i], k + 1, path, found || f.name == path[0]).value;
      if k + 1 < |s.fields| {
        KidsApart(p, i, s, name, k, k + 1);
      }
      JoinedFits(p, i, s, name, path, k, ts, us);
    }
  }

  ghost predicate KidsInRange(p: Program, i: nat, s: Schema)
    requires s.Record?
  {
    && i < |p.childOps| && |p.childOps[i]| == |s.fields|
    && forall m :: 0 <= m < |s.fields| ==> i < p.childOps[i][m] < |p.ops|
  }

  lemma LaidShape(p: Program, i: nat, s: Schema, name: Name)
    requires Layered(p) && Laid(p, i, s, name) && s.Record?
    ensures KidsInRange(p, i, s)
  {
    hide Layered, Starts;
    LaidAt(p, i, s, name);
    KidIndex(p, i);
  }

  /** The touches of one field and those of the fields after it do not meet. */
  lemma JoinedFits(p: Program, i: nat, s: Schema, name: Name, path: seq<Name>, k: nat, ts: seq<Touch>, us: seq<Touch>)
    requires Layered(p) && Laid(p, i, s, name) && s.Record? && path != [] && KidsInRange(p, i, s) && k < |s.fields|
    requires var c, f := p.childOps[i][k], s.fields[k];
             && InSpan(ts, c, c + Size(f.type_)) && FieldFits(p, ts, c, f, path)
             && InSpan(us, c + Size(f.type_), i + Size(s))
    requires forall m :: k < m < |s.fields| ==> FieldFits(p, us, p.childOps[i][m], s.fields[m], path)
    ensures forall m :: k <= m < |s.fields| ==> FieldFits(p, ts + us, p.childOps[i][m], s.fields[m], path)
  {
    hide Layered, Laid, Size, LeftOff, FieldFits;
    var c, f := p.childOps[i][k], s.fields[k];
    forall m | k <= m < |s.fields|
      ensures FieldFits(p, ts + us, p.childOps[i][m], s.fields[m], path)
    {
      KidSpans(p, i, s, name, m);
      var d, g := p.childOps[i][m], s.fields[m];
      if m > k {
        KidsApart(p, i, s, name, k, m);
      }
      forall o | d <= o < d + Size(g.type_)
        ensures LeftOff(ts + us, o, false) == LeftOff(if m == k then ts else us, o, false)
      {
        LeftOffJoin(ts, us, o, false);
        if m == k {
          OutOfSpan(us, c + Size(f.type_), i + Size(s), o, LeftOff(ts, o, false));
        } else {
          OutOfSpan(ts, c, c + Size(f.type_), o, false);
        }
      }
      FieldFitsWithin(p, if m == k then ts else us, ts + us, d, g, path);
    }
  }

  lemma FieldFitsWithin(p: Program, ts: seq<Touch>, us: seq<Touch>, c: nat, f: Field, path: seq<Name>)
    requires Laid(p, c, f.type_, f.name) && FieldFits(p, ts, c, f, path)
    requires forall o :: c <= o < c + Size(f.type_) ==> LeftOff(us, o, false) == LeftOff(ts, o, false)
    ensures FieldFits(p, us, c, f, path)
  {
    hide Laid, Size, LeftOff, SkipsFit, OnPath, Tail;
    if OnPath(f.name, path) {
      FitsWithin(p, Off(p, ts), Off(p, us), c, f.type_, f.name, Tail(path));
    }
  }

  lemma {:induction false} ResolvedOne(p: Program, c: nat, f: Field, path: seq<Name>)
    requires Layered(p) && c < |p.ops| && Laid(p, c, f.type_, f.name) && path != []
    requires p.ops[c].nameOff + p.ops[c].nameLen <= |p.slab| && FieldName(p, p.ops[c]) == f.name
    requires FindByName(p, f.name, 0) == c && (f.name == path[0] && |path| > 1 ==> Resolves(p, c, f.type_, path[1..]))
    ensures TouchOne(p, c, path).Some?
    ensures var ts := TouchOne(p, c, path).value;
            InSpan(ts, c, c + Size(f.type_)) && FieldFits(p, ts, c, f, path)
    decreases |path|, 0
  {
    hide Layered, Laid, Size, Touches, FindByName, FieldName, LeftOff, Resolves, SkipsFit;
    if f.name != path[0] {
      OneTouch(Touch(c, true), c, false);
    } else if |path| == 1 {
      EndFits(p, c, f);
    } else {
      var rest := path[1..];
      ResolvesRecord(p, c, f.type_, rest);
      LaidShape(p, c, f.type_, f.name);
      ResolvedTouches(p, c, f.type_, f.name, rest, 0, false);
      assert ChildOpsFor(p, c) == p.childOps[c];
      var ts := Touches(p, p.childOps[c], 0, rest, false).value;
      DeepFits(p, c, f, rest, ts);
      OutOfSpan(ts, c + 1, c + Size(f.type_), c, false);
    }
  }

  lemma EndFits(p: Program, c: nat, f: Field)
    requires Laid(p, c, f.type_, f.name)
    ensures !LeftOff([Touch(c, false)], c, false) && SkipsFit(p, Off(p, [Touch(c, false)]), c, f.type_, [])
  {
    hide Laid, Size, LeftOff, SkipsFit;
    var ts := [Touch(c, false)];
    OneTouch(ts[0], c, false);
    forall o | c < o < c + Size(f.type_)
      ensures o !in Off(p, ts)
    {
      OneTouch(ts[0], o, false);
    }
    WholeFits(p, Off(p, ts), c, f.type_, f.name);
  }

  lemma ResolvesRecord(p: Program, i: nat, s: Schema, path: seq<Name>)
    requires Layered(p) && path != [] && Resolves(p, i, s, path)
    ensures s.Record? && exists m :: 0 <= m < |s.fields| && s.fields[m].name == path[0]
  {}

  lemma ResolvesAt(p: Program, i: nat, s: Schema, path: seq<Name>, k: nat)
    requires Layered(p) && path != [] && Resolves(p, i, s, path) && s.Record? && k < |s.fields|
    ensures FindByName(p, s.fields[k].name, 0) == ChildAt(p, i, k)
    ensures s.fields[k].name == path[0] && |path| > 1 ==> Resolves(p, ChildAt(p, i, k), s.fields[k].type_, path[1..])
  {
    hide Layered, FindByName;
  }

  lemma DeepFits(p: Program, c: nat, f: Field, path: seq<Name>, ts: seq<Touch>)
    requires path != [] && f.type_.Record? && KidsInRange(p, c, f.type_) && |f.type_.fields| > 0
    requires InSpan(ts, p.childOps[c][0], c + Size(f.type_))
    requires forall m :: 0 <= m < |f.type_.fields| ==> FieldFits(p, ts, p.childOps[c][m], f.type_.fields[m], path)
    ensures InSpan(ts, c + 1, c + Size(f.type_)) && SkipsFit(p, Off(p, ts), c, f.type_, path)
  {
    hide Size, LeftOff, OnPath, Tail, Decodable;
    forall m | 0 <= m < |f.type_.fields|
      ensures ChildAt(p, c, m) == p.childOps[c][m] && FieldFits(p, ts, ChildAt(p, c, m), f.type_.fields[m], path)
    {
    }
  }

  /** A path that resolves compiles, and its partial program decodes every input right. */
  lemma PartialDecodes(p: Program, s: Schema, dotPath: seq<byte>, slot: int, src: seq<byte>)
    requires Layered(p) && Laid(p, 0, s, []) && Clean(p, 0, |p.ops|)
    requires dotPath != [] && Resolves(p, 0, s, Split(dotPath))
    ensures |p.ops| > 0 && CompilePartial(p, dotPath, slot).Some?
    ensures RightOn(p, CompilePartial(p, dotPath, slot).value, 0, Split(dotPath), src)
  {
    hide Layered, Laid, Size, FlagsOnly, Mark, Touches, LeftOff, SkipsFit, Split, CopiesOf, NamesIn, Resolves,
        FieldFits;
    var path := Split(dotPath);
    LaidRoot(p, s);
    KidsAfter(p, 0);
    FlagsOnlySelf(p);
    var kids := ChildOpsFor(p, 0);
    Copies(p, p, kids);
    MarkFollows(p, p, OpsAt(p, kids), kids, 0, path, slot, false);
    ResolvesRecord(p, 0, s, path);
    LaidShape(p, 0, s, []);
    ResolvedTouches(p, 0, s, [], path, 0, false);
    var ts := Touches(p, kids, 0, path, false).value;
    DeepFits(p, 0, Field([], s), path, ts);
    var q := CompilePartial(p, dotPath, slot).value;
    assert Skipped(q) == Off(p, ts);
    FitDecodes(p, q, 0, s, [], path, src);
  }

  /** Where all non-empty field names are distinct, every path through named record fields resolves. */
  lemma {:induction false} DistinctResolves(p: Program, i: nat, s: Schema, name: Name, path: seq<Name>)
    requires Layered(p) && Laid(p, i, s, name) && DistinctNames(p) && path != [] && PathIn(s, path)
    ensures Resolves(p, i, s, path)
    decreases |path|
  {
    hide Layered, Laid, DistinctNames, FindByName, FieldName;
    FlagsOnlySelf(p);
    forall m | 0 <= m < |s.fields|
      ensures FindByName(p, s.fields[m].name, 0) == ChildAt(p, i, m)
      ensures s.fields[m].name == path[0] && |path| > 1 ==> Resolves(p, ChildAt(p, i, m), s.fields[m].type_, path[1..])
    {
      KidOf(p, i, s, name, m);
      FindsItself(p, p, ChildAt(p, i, m));
      if s.fields[m].name == path[0] && |path| > 1 {
        DistinctResolves(p, ChildAt(p, i, m), s.fields[m].type_, s.fields[m].name, path[1..]);
      }
    }
  }
}
