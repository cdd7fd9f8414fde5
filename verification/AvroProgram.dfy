/** The flat program: ops with child indices, its decoder, and its meaning as a schema tree. */
module AvroProgram {
  import opened Machine
  import opened JsonText
  import opened AvroWire
  import opened AvroTree

  /** One instruction; the flag bits are kept as booleans. */
  datatype Op = Op(nameOff: nat, nameLen: nat, keyIdx: nat, kind: Kind,
                   optional: bool, isSlot: bool, skip: bool, nullFirst: bool, param: nat)

  datatype Ext = Ext(opIdx: nat, slot: int)

  datatype Program = Program(ops: seq<Op>, slab: seq<byte>, fieldIndex: seq<int>, ext: seq<Ext>,
                             symbols: seq<Name>, childOps: seq<seq<nat>>)

  function ChildOpsFor(p: Program, i: nat): seq<nat> {
    if i >= |p.childOps| then [] else p.childOps[i]
  }

  /** Names lie in the slab, and children come after their parents. */
  ghost predicate Layered(p: Program) {
    && (forall i :: 0 <= i < |p.ops| ==> p.ops[i].nameOff + p.ops[i].nameLen <= |p.slab|)
    && (forall i, k :: 0 <= i < |p.childOps| && 0 <= k < |p.childOps[i]| ==> i < p.childOps[i][k] < |p.ops|)
  }

  function FieldName(p: Program, op: Op): Name
    requires op.nameOff + op.nameLen <= |p.slab|
  {
    p.slab[op.nameOff..op.nameOff + op.nameLen]
  }

  // ---------- decoding ----------

  /**
   Decodes the value of one op. It terminates on every input: calls go to larger op indices,
   blocks use up input, and items of a block are counted down. What is left is a suffix of
   the input, on success and on failure.
   */
  function Decode(p: Program, i: nat, src: seq<byte>): (r: Outcome)
    requires Layered(p) && i < |p.ops|
    ensures Suffix(r.rest, src)
    decreases |p.ops| - i, 3
  {
    var op := p.ops[i];
    var kids := ChildOpsFor(p, i);
    match op.kind
    case KRecord => ToOutcome(true, DecodeFields(p, i, kids, 0, src, []))
    case KArray => ToOutcome(false, DecodeBlocks(p, i, false, src, []))
    case KMap => ToOutcome(true, DecodeBlocks(p, i, true, src, []))
    case KUnion => (
      match ReadArm(src, |kids|)
      case NoArm(rest) => Bad(rest)
      case Arm(k, rest) => Decode(p, kids[k], rest))
    case _ => Scalar(op.kind, op.param, p.symbols, src)
  }

  /** The record fields from the k-th on; skipped ones are decoded and dropped. */
  function DecodeFields(p: Program, i: nat, kids: seq<nat>, k: nat, src: seq<byte>, acc: seq<Member>): (r: Listed)
    requires Layered(p) && i < |p.ops| && k <= |kids| && forall m :: 0 <= m < |kids| ==> i < kids[m] < |p.ops|
    ensures Suffix(r.rest, src)
    decreases |p.ops| - i, 2, |kids| - k
  {
    if k == |kids| then Entries(acc, src)
    else
      var op := p.ops[kids[k]];
      match Decode(p, kids[k], src)
      case Bad(rest) => Broken(rest)
      case Good(j, rest) =>
        DecodeFields(p, i, kids, k + 1, rest, if op.skip then acc else acc + [Member(FieldName(p, op), j)])
  }

  function DecodeBlocks(p: Program, i: nat, isMap: bool, src: seq<byte>, acc: seq<Member>): (r: Listed)
    requires Layered(p) && i < |p.ops|
    ensures Suffix(r.rest, src)
    decreases |p.ops| - i, 2, |src|
  {
    match ReadBlock(src)
    case NoBlock(rest) => Broken(rest)
    case End(rest) => Entries(acc, rest)
    case Items(count, rest) =>
      if ChildOpsFor(p, i) == [] then Broken(rest)
      else
        match DecodeItems(p, i, isMap, count, rest, acc)
        case Broken(rest') => Broken(rest')
        case Entries(acc', rest') => DecodeBlocks(p, i, isMap, rest', acc')
  }

  function DecodeItems(p: Program, i: nat, isMap: bool, count: nat, src: seq<byte>, acc: seq<Member>): (r: Listed)
    requires Layered(p) && i < |p.ops| && ChildOpsFor(p, i) != []
    ensures Suffix(r.rest, src)
    decreases |p.ops| - i, 1, count
  {
    if count == 0 then Entries(acc, src)
    else
      match ReadKey(isMap, src)
      case NoBytes(rest) => Broken(rest)
      case Bytes(key, rest) =>
        match Decode(p, ChildOpsFor(p, i)[0], rest)
        case Bad(rest') => Broken(rest')
        case Good(j, rest') => DecodeItems(p, i, isMap, count - 1, rest', acc + [Member(key, j)])
  }

  // ---------- what a program means ----------

  /** The schemas below a schema, with the field names they are compiled under. */
  function Kids(s: Schema): seq<Field> {
    match s
    case Record(_, fields) => fields
    case Array(items) => [Field([], items)]
    case Map(values) => [Field([], values)]
    case Union(arms) => seq(|arms|, k requires 0 <= k < |arms| => Field([], arms[k]))
    case _ => []
  }

  lemma KidSmaller(s: Schema, k: nat)
    requires k < |Kids(s)|
    ensures Kids(s)[k].type_ < s
  {
    match s
    case Record(_, fields) =>
    case Array(items) =>
    case Map(values) =>
    case Union(arms) =>
    case _ =>
  }

  /** The number of ops of a schema. */
  ghost function Size(s: Schema): (n: nat)
    ensures n > 0
    decreases s, |Kids(s)| + 1
  {
    1 + SizeFrom(s, 0)
  }

  ghost function SizeFrom(s: Schema, k: nat): nat
    requires k <= |Kids(s)|
    decreases s, |Kids(s)| - k
  {
    if k == |Kids(s)| then 0 else (KidSmaller(s, k); Size(Kids(s)[k].type_) + SizeFrom(s, k + 1))
  }

  /** Pre-order: the k-th child starts at base, the next one right after its ops. */
  ghost function Starts(s: Schema, k: nat, base: nat): seq<nat>
    requires k <= |Kids(s)|
    decreases |Kids(s)| - k
  {
    if k == |Kids(s)| then [] else [base] + Starts(s, k + 1, base + Size(Kids(s)[k].type_))
  }

  lemma StartsStep(s: Schema, k: nat, base: nat)
    requires k <= |Kids(s)|
    ensures Starts(s, k, base) ==
            if k == |Kids(s)| then [] else [base] + Starts(s, k + 1, base + Size(Kids(s)[k].type_))
  {
    hide Kids, Size;
  }

  /** The op itself: kind, name, size, no skip. */
  ghost predicate OpFor(p: Program, i: nat, s: Schema, name: Name) {
    && i < |p.ops| && p.ops[i].nameOff + p.ops[i].nameLen <= |p.slab|
    && KindOf(s) == Some(p.ops[i].kind) && FieldName(p, p.ops[i]) == name && !p.ops[i].skip
    && (s.Fixed? ==> p.ops[i].param == s.size)
  }

  /** Op i and its descendants, in pre-order, are the schema s under the given field name. */
  ghost predicate Laid(p: Program, i: nat, s: Schema, name: Name)
    decreases s
  {
    && OpFor(p, i, s, name)
    && i < |p.childOps| && p.childOps[i] == Starts(s, 0, i + 1) && |p.childOps[i]| == |Kids(s)|
    && forall k :: 0 <= k < |Kids(s)| ==>
         (KidSmaller(s, k); Laid(p, p.childOps[i][k], Kids(s)[k].type_, Kids(s)[k].name))
  }

  /** What Laid says about op i and its k-th child. */
  lemma LaidAt(p: Program, i: nat, s: Schema, name: Name)
    requires Laid(p, i, s, name)
    ensures OpFor(p, i, s, name) && i < |p.childOps| && |p.childOps[i]| == |Kids(s)|
    ensures p.childOps[i] == Starts(s, 0, i + 1)
  {}

  lemma LaidKid(p: Program, i: nat, s: Schema, name: Name, k: nat)
    requires Laid(p, i, s, name) && k < |Kids(s)|
    ensures i < |p.childOps| && k < |p.childOps[i]| && Kids(s)[k].type_ < s
    ensures Laid(p, p.childOps[i][k], Kids(s)[k].type_, Kids(s)[k].name)
  {
    KidSmaller(s, k);
  }

  lemma KidsAfter(p: Program, i: nat)
    requires Layered(p) && i < |p.ops|
    ensures forall m :: 0 <= m < |ChildOpsFor(p, i)| ==> i < ChildOpsFor(p, i)[m] < |p.ops|
  {}

  lemma NameFits(p: Program, i: nat)
    requires Layered(p) && i < |p.ops|
    ensures p.ops[i].nameOff + p.ops[i].nameLen <= |p.slab|
  {}

  lemma KidIndex(p: Program, i: nat)
    requires Layered(p) && i < |p.childOps|
    ensures forall m :: 0 <= m < |p.childOps[i]| ==> i < p.childOps[i][m] < |p.ops|
  {}

  /**
   Compiler correctness, decoding side: on every input the flat program gives what the direct
   decoder over the tree gives, value, remaining input and failure alike, when every enum is
   looked up in the program's one symbol table.
   */
  lemma {:induction false} DecodesTree(p: Program, i: nat, s: Schema, name: Name, src: seq<byte>)
    requires Layered(p) && Laid(p, i, s, name)
    ensures Decode(p, i, src) == AvroTree.Decode(s, Shared(p.symbols), src)
    decreases s, 3
  {
    hide Layered, Laid, Suffix, Scalar, ReadArm, FieldName, Starts;
    LaidAt(p, i, s, name);
    match s
    case Record(_, fields) =>
      KidIndex(p, i);
      FieldsDecodeTree(p, i, s, name, 0, src, []);
    case Array(items) => BlocksDecodeTree(p, i, s, name, items, false, src, []);
    case Map(values) => BlocksDecodeTree(p, i, s, name, values, true, src, []);
    case Union(arms) =>
      var a := ReadArm(src, |arms|);
      if a.Arm? {
        LaidKid(p, i, s, name, a.index);
        DecodesTree(p, p.childOps[i][a.index], arms[a.index], [], a.rest);
      }
    case _ => ScalarDecodesTree(p, i, s, name, src);
  }

  lemma ScalarDecodesTree(p: Program, i: nat, s: Schema, name: Name, src: seq<byte>)
    requires Layered(p) && OpFor(p, i, s, name) && !s.Record? && !s.Array? && !s.Map? && !s.Union?
    ensures Decode(p, i, src) == AvroTree.Decode(s, Shared(p.symbols), src)
  {
    hide Layered, Scalar, FieldName;
    ScalarParams(p.ops[i].kind, p.ops[i].param, p.symbols, src);
    ScalarParams(p.ops[i].kind, 0, p.symbols, src);
  }

  /** The size matters to fixed values only, the symbols to enums only. */
  lemma ScalarParams(k: Kind, size: nat, symbols: seq<Name>, src: seq<byte>)
    requires IsScalar(k)
    ensures !k.KFixed? ==> Scalar(k, size, symbols, src) == Scalar(k, 0, symbols, src)
    ensures !k.KEnum? ==> Scalar(k, size, symbols, src) == Scalar(k, size, [], src)
  {}

  lemma {:induction false} FieldsDecodeTree(p: Program, i: nat, s: Schema, name: Name, k: nat, src: seq<byte>,
      acc: seq<Member>)
    requires Layered(p) && Laid(p, i, s, name) && s.Record? && k <= |s.fields| && i < |p.childOps|
    requires forall m :: 0 <= m < |p.childOps[i]| ==> i < p.childOps[i][m] < |p.ops|
    ensures DecodeFields(p, i, p.childOps[i], k, src, acc) ==
            AvroTree.DecodeFields(s.fields, k, Shared(p.symbols), src, acc)
    decreases s, 2, |s.fields| - k
  {
    hide Layered, Laid, Suffix, Scalar;
    LaidAt(p, i, s, name);
    if k < |s.fields| {
      LaidKid(p, i, s, name, k);
      LaidAt(p, p.childOps[i][k], s.fields[k].type_, s.fields[k].name);
      var kid := p.childOps[i][k];
      DecodesTree(p, kid, s.fields[k].type_, s.fields[k].name, src);
      var r := Decode(p, kid, src);
      if r.Good? {
        FieldsDecodeTree(p, i, s, name, k + 1, r.rest, acc + [Member(s.fields[k].name, r.json)]);
      }
    }
  }

  lemma {:induction false} BlocksDecodeTree(p: Program, i: nat, s: Schema, name: Name, item: Schema, isMap: bool,
      src: seq<byte>, acc: seq<Member>)
    requires Layered(p) && Laid(p, i, s, name) && Kids(s) == [Field([], item)]
    ensures DecodeBlocks(p, i, isMap, src, acc) == AvroTree.DecodeBlocks(item, isMap, Shared(p.symbols), src, acc)
    decreases s, 2, |src|
  {
    hide Layered, Laid, Scalar, ReadBlock, ReadKey;
    LaidAt(p, i, s, name);
    var b := ReadBlock(src);
    if b.Items? {
      ItemsDecodeTree(p, i, s, name, item, isMap, b.count, b.rest, acc);
      var r := DecodeItems(p, i, isMap, b.count, b.rest, acc);
      if r.Entries? {
        BlocksDecodeTree(p, i, s, name, item, isMap, r.rest, r.entries);
      }
    }
  }

  lemma {:induction false} ItemsDecodeTree(p: Program, i: nat, s: Schema, name: Name, item: Schema, isMap: bool,
      count: nat, src: seq<byte>, acc: seq<Member>)
    requires Layered(p) && Laid(p, i, s, name) && Kids(s) == [Field([], item)]
    ensures DecodeItems(p, i, isMap, count, src, acc) ==
            AvroTree.DecodeItems(item, isMap, Shared(p.symbols), count, src, acc)
    decreases s, 1, count
  {
    hide Layered, Laid, Suffix, Scalar, ReadKey;
    LaidAt(p, i, s, name);
    if count > 0 {
      var key := ReadKey(isMap, src);
      if key.Bytes? {
        LaidKid(p, i, s, name, 0);
        KidIndex(p, i);
        DecodesTree(p, p.childOps[i][0], item, [], key.rest);
        var r := Decode(p, p.childOps[i][0], key.rest);
        if r.Good? {
          ItemsDecodeTree(p, i, s, name, item, isMap, count - 1, r.rest, acc + [Member(key.bytes, r.json)]);
        }
      }
    }
  }
}
