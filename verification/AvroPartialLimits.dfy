/**
 Repeated names: marking finds ops by name, and the first op with a name need not be the field
 meant. One schema on which that goes wrong, and one on which it does not matter.
 */
module AvroPartialLimits {
  import opened Machine
  import opened Varint
  import opened JsonText
  import opened AvroWire
  import opened AvroTree
  import opened AvroProgram
  import opened AvroPartial
  import opened AvroPartialExact

  const A: Name := [0x61]
  const X: Name := [0x78]

  /** A record with a nested record a, holding x, and another x beside it. */
  const SCHEMA := Record([0x72], [Field(A, Record([0x71], [Field(X, Prim(KInt))])), Field(X, Prim(KInt))])

  function PlainOp(off: nat, len: nat, key: nat, kind: Kind): Op {
    Op(off, len, key, kind, false, false, false, false, 0)
  }

  const PROGRAM := Program(
    [PlainOp(0, 0, 0, KRecord), PlainOp(0, 1, 1, KRecord), PlainOp(1, 1, 2, KInt), PlainOp(2, 1, 3, KInt)],
    [0x61, 0x78, 0x78], [-1, -1, -1, -1], [], [], [[1, 3], [2], [], []])

  /** What marking a.x leaves behind: the x inside a is skipped, the one beside it is not. */
  const MISMARKED := Program(
    [PROGRAM.ops[0], PROGRAM.ops[1], PROGRAM.ops[2].(skip := true, isSlot := true), PROGRAM.ops[3]],
    PROGRAM.slab, [-1, -1, 0, -1], [], [], PROGRAM.childOps)

  lemma ProgramLayered()
    ensures Layered(PROGRAM) && Layered(MISMARKED) && Clean(PROGRAM, 0, |PROGRAM.ops|)
  {}

  lemma ProgramIsSchema()
    ensures Laid(PROGRAM, 0, SCHEMA, [])
  {
    var inner, leaf := SCHEMA.fields[0].type_, Prim(KInt);
    assert Kids(leaf) == [] && Kids(inner) == [Field(X, leaf)] && Kids(SCHEMA) == SCHEMA.fields;
    assert Size(leaf) == 1;
    assert SizeFrom(inner, 1) == 0 && SizeFrom(inner, 0) == 1 && Size(inner) == 2;
    assert Starts(leaf, 0, 3) == [] && Starts(leaf, 0, 4) == [];
    assert Starts(inner, 1, 3) == [] && Starts(inner, 0, 2) == [2];
    assert Starts(SCHEMA, 2, 4) == [] && Starts(SCHEMA, 1, 3) == [3] && Starts(SCHEMA, 0, 1) == [1, 3];
    assert Laid(PROGRAM, 2, leaf, X) && Laid(PROGRAM, 3, leaf, X);
    assert Laid(PROGRAM, 1, inner, A);
  }

  const KEPT := KeepOp(PROGRAM, 2, 2, 0)

  lemma KeptLayered()
    ensures Layered(PROGRAM) && Layered(KEPT) && FlagsOnly(PROGRAM, KEPT) && SkipOp(KEPT, 2) == MISMARKED
            && Layered(MISMARKED)
    ensures KEPT.ops[3] == PROGRAM.ops[3]
  {
    ProgramLayered();
    FlagsOnlyLayered(PROGRAM, KEPT);
  }

  /** Inside a, the right x is kept. */
  lemma InnerMark()
    ensures Layered(PROGRAM) && NamesIn(PROGRAM, OpsAt(PROGRAM, [2]))
            && Mark(PROGRAM, OpsAt(PROGRAM, [2]), 0, [X], 0, false) == Some(KEPT)
  {
    hide FindByName, FieldName;
    KeptLayered();
    NameOf(PROGRAM);
    var inside := OpsAt(PROGRAM, [2]);
    assert MarkOne(PROGRAM, inside[0], [X], 0) == Some(KEPT);
    assert Mark(KEPT, inside, 1, [X], 0, true) == Some(KEPT);
  }

  /** The path exists, but the x beside a is looked up by name and the x inside a is skipped in its place. */
  lemma MarkingMisses()
    ensures PathIn(SCHEMA, [A, X]) && Layered(PROGRAM)
    ensures NamesIn(PROGRAM, OpsAt(PROGRAM, [1, 3]))
    ensures Mark(PROGRAM, OpsAt(PROGRAM, [1, 3]), 0, [A, X], 0, false) == Some(MISMARKED)
  {
    hide FindByName, FieldName, KeepOp;
    PathExists();
    KeptLayered();
    InnerMark();
    NameOf(PROGRAM);
    NameOf(KEPT);
    var path: seq<Name> := [A, X];
    assert path[1..] == [X];
    var ops := OpsAt(PROGRAM, [1, 3]);
    assert ops[0] == PROGRAM.ops[1] && ops[1] == KEPT.ops[3] && ChildOpsFor(PROGRAM, 1) == [2];
    assert MarkOne(PROGRAM, ops[0], path, 0) == Some(KEPT);
    assert MarkOne(KEPT, ops[1], path, 0) == Some(MISMARKED);
    assert Mark(MISMARKED, ops, 2, path, 0, true) == Some(MISMARKED);
    assert Mark(KEPT, ops, 1, path, 0, true) == Some(MISMARKED);
  }

  lemma PathExists()
    ensures PathIn(SCHEMA, [A, X])
  {
    var path: seq<Name> := [A, X];
    assert path[1..] == [X];
    assert SCHEMA.fields[0].type_.fields[0].name == X;
    assert PathIn(SCHEMA.fields[0].type_, [X]);
    assert SCHEMA.fields[0].name == A;
  }

  /** On the input 1, 2 the partial program prints the wrong fields: an empty a, and the x beside it. */
  lemma WrongFieldsPrinted()
    ensures Layered(PROGRAM) && Layered(MISMARKED)
    ensures AvroProgram.Decode(MISMARKED, 0, [2, 4]) == Good(JObj([Member(A, JObj([])), Member(X, JInt(2))]), [])
    ensures RestrictOutcome(AvroProgram.Decode(PROGRAM, 0, [2, 4]), [A, X]) ==
            Good(JObj([Member(A, JObj([Member(X, JInt(1))]))]), [])
  {
    hide ReadLong, Suffix, FieldName, AvroProgram.Decode, FindByName;
    ProgramLayered();
    KeptLayered();
    var j := Inner(PROGRAM, [Member(X, JInt(1))]);
    var k := Inner(MISMARKED, []);
    Outer(PROGRAM, j);
    Outer(MISMARKED, k);
    var full := [Member(A, j), Member(X, JInt(2))];
    var path: seq<Name> := [A, X];
    assert path[1..] == [X] && path[1..][1..] == [];
    assert Along([Member(X, JInt(1))], [X]) == [Member(X, JInt(1))];
    assert Restrict(j, [X]) == j;
    assert full[..1] == [Member(A, j)];
    assert Along(full, path) == Along(full[..1], path) == [Member(A, j)];
  }

  lemma OneByte(n: nat, rest: seq<byte>)
    requires n < 64
    ensures ReadLong([2 * n] + rest) == Some(Got(n, 1)) && ([2 * n] + rest)[1..] == rest
  {
    assert EncodeLong(n) == [2 * n];
    LongRoundTrip(n, rest);
  }

  /** The record a on input 1, 2 uses one byte; its member depends on the flag of op 2. */
  lemma Inner(p: Program, ms: seq<Member>) returns (j: Json)
    requires Layered(p) && FlagsOnly(PROGRAM, p) && ms == if p.ops[2].skip then [] else [Member(X, JInt(1))]
    ensures j == JObj(ms) && AvroProgram.Decode(p, 1, [2, 4]) == Good(j, [4])
  {
    hide ReadLong, Suffix, FieldName, FindByName;
    NameOf(p);
    OneByte(1, [4]);
    assert [2, 4] == [2] + [4];
    assert AvroProgram.Decode(p, 2, [2, 4]) == Good(JInt(1), [4]);
    assert AvroProgram.DecodeFields(p, 1, [2], 1, [4], ms) == Entries(ms, [4]);
    assert [] + [Member(X, JInt(1))] == [Member(X, JInt(1))];
    assert AvroProgram.DecodeFields(p, 1, [2], 0, [2, 4], []) == Entries(ms, [4]);
    j := JObj(ms);
  }

  /** The whole record: a, then x. */
  lemma Outer(p: Program, j: Json)
    requires Layered(p) && FlagsOnly(PROGRAM, p) && !p.ops[1].skip && !p.ops[3].skip
             && AvroProgram.Decode(p, 1, [2, 4]) == Good(j, [4])
    ensures AvroProgram.Decode(p, 0, [2, 4]) == Good(JObj([Member(A, j), Member(X, JInt(2))]), [])
  {
    hide ReadLong, Suffix, FieldName, FindByName;
    NameOf(p);
    OneByte(2, []);
    assert [4] == [4] + [];
    assert AvroProgram.Decode(p, 3, [4]) == Good(JInt(2), []);
    var a, both := [Member(A, j)], [Member(A, j), Member(X, JInt(2))];
    assert [] + a == a && a + [Member(X, JInt(2))] == both;
    assert AvroProgram.DecodeFields(p, 0, [1, 3], 2, [], both) == Entries(both, []);
    assert AvroProgram.DecodeFields(p, 0, [1, 3], 1, [4], a) == Entries(both, []);
    assert AvroProgram.DecodeFields(p, 0, [1, 3], 0, [2, 4], []) == Entries(both, []);
  }

  lemma NameOf(p: Program)
    requires Layered(p) && FlagsOnly(PROGRAM, p)
    ensures FieldName(p, p.ops[0]) == [] && FieldName(p, p.ops[1]) == A
    ensures FieldName(p, p.ops[2]) == X == FieldName(p, p.ops[3])
    ensures FindByName(p, A, 0) == 1 && FindByName(p, X, 0) == 2
  {}

  // ---------- a repeated name that does no harm ----------

  /** A field a, and a record x that holds another a. */
  const HARMLESS := Record([0x72], [Field(A, Prim(KInt)), Field(X, Record([0x71], [Field(A, Prim(KInt))]))])

  const REPEATING := Program(
    [PlainOp(0, 0, 0, KRecord), PlainOp(0, 1, 1, KInt), PlainOp(1, 1, 2, KRecord), PlainOp(2, 1, 3, KInt)],
    [0x61, 0x78, 0x61], [-1, -1, -1, -1], [], [], [[1, 2], [], [3], []])

  /** The name a occurs twice, yet the path a resolves, so its partial program is right on every input. */
  lemma RepeatIsHarmless()
    ensures Layered(REPEATING) && !DistinctNames(REPEATING) && Resolves(REPEATING, 0, HARMLESS, [A])
  {
    hide FieldName, FindByName;
    RepeatingNames();
    assert HARMLESS.fields[0].name == A;
  }

  lemma RepeatingNames()
    ensures Layered(REPEATING)
    ensures FieldName(REPEATING, REPEATING.ops[1]) == A == FieldName(REPEATING, REPEATING.ops[3])
    ensures FindByName(REPEATING, A, 0) == 1 && FindByName(REPEATING, X, 0) == 2
  {
    assert FieldName(REPEATING, REPEATING.ops[0]) == [] && FieldName(REPEATING, REPEATING.ops[2]) == X;
  }
}
