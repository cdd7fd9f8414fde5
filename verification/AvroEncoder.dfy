/** The encoder over the flat program: its meaning, its agreement with the tree encoder, and the loops that run it. */
module AvroEncoder {
  import opened Machine
  import opened Varint
  import opened JsonText
  import opened AvroWire
  import opened AvroTree
  import opened AvroProgram
  import opened AvroEncode

  /** The first child from k on whose op is (or is not) null. */
  function FirstKid(p: Program, kids: seq<nat>, k: nat, wantNull: bool): (a: nat)
    requires k <= |kids| && forall m :: 0 <= m < |kids| ==> kids[m] < |p.ops|
    ensures k <= a <= |kids|
    decreases |kids| - k
  {
    if k == |kids| || (p.ops[kids[k]].kind == KNull) == wantNull then k else FirstKid(p, kids, k + 1, wantNull)
  }

  function Encode(p: Program, i: nat, g: Reader, v: Option<Json>): seq<byte>
    requires Layered(p) && i < |p.ops|
    decreases |p.ops| - i, 3
  {
    var op := p.ops[i];
    var kids := ChildOpsFor(p, i);
    match op.kind
    case KRecord => EncodeFields(p, i, kids, 0, g, ObjectOf(v))
    case KArray => EncodeList(p, i, false, g, g.pairs(v))
    case KMap => EncodeList(p, i, true, g, g.pairs(v))
    case KUnion =>
      var a := FirstKid(p, kids, 0, IsNull(v));
      if a == |kids| then EncodeLong(0)
      else EncodeLong(LenLong(a)) + if IsNull(v) then [] else Encode(p, kids[a], g, v)
    case _ => EncodeScalar(op.kind, op.param, p.symbols, g, v)
  }

  function EncodeFields(p: Program, i: nat, kids: seq<nat>, k: nat, g: Reader, obj: Json): seq<byte>
    requires Layered(p) && i < |p.ops| && k <= |kids| && forall m :: 0 <= m < |kids| ==> i < kids[m] < |p.ops|
    decreases |p.ops| - i, 2, |kids| - k
  {
    if k == |kids| then []
    else Encode(p, kids[k], g, g.get(obj, FieldName(p, p.ops[kids[k]]))) + EncodeFields(p, i, kids, k + 1, g, obj)
  }

  function EncodeList(p: Program, i: nat, isMap: bool, g: Reader, ms: seq<Member>): seq<byte>
    requires Layered(p) && i < |p.ops|
    decreases |p.ops| - i, 2, 0
  {
    if ChildOpsFor(p, i) == [] then EncodeLong(0)
    else (if ms == [] then [] else EncodeLong(LenLong(|ms|)) + EncodeItems(p, i, isMap, g, ms)) + EncodeLong(0)
  }

  function EncodeItems(p: Program, i: nat, isMap: bool, g: Reader, ms: seq<Member>): seq<byte>
    requires Layered(p) && i < |p.ops| && ChildOpsFor(p, i) != []
    decreases |p.ops| - i, 1, |ms|
  {
    if ms == [] then []
    else
      var item := KeyBytes(isMap, ms[0].key) + Encode(p, ChildOpsFor(p, i)[0], g, Some(ms[0].value));
      item + EncodeItems(p, i, isMap, g, ms[1..])
  }

  // ---------- agreement with the tree ----------

  lemma {:induction false} FirstKidIs(p: Program, i: nat, arms: seq<Schema>, name: Name, k: nat, wantNull: bool)
    requires Layered(p) && Laid(p, i, Union(arms), name) && k <= |arms|
    ensures i < |p.childOps| && |p.childOps[i]| == |arms| && forall m :: 0 <= m < |arms| ==> p.childOps[i][m] < |p.ops|
    ensures FirstKid(p, p.childOps[i], k, wantNull) == FirstArm(arms, k, wantNull)
    decreases |arms| - k
  {
    hide Laid, Layered, FieldName, Starts, Size;
    LaidAt(p, i, Union(arms), name);
    KidIndex(p, i);
    if k < |arms| {
      LaidKid(p, i, Union(arms), name, k);
      LaidAt(p, p.childOps[i][k], arms[k], []);
      FirstKidIs(p, i, arms, name, k + 1, wantNull);
    }
  }

  /** Compiler correctness, encoding side: the flat program encodes every value as the schema tree does. */
  lemma {:induction false} EncodesTree(p: Program, i: nat, s: Schema, name: Name, g: Reader, v: Option<Json>)
    requires Layered(p) && Laid(p, i, s, name)
    ensures Encode(p, i, g, v) == AvroEncode.Encode(s, Shared(p.symbols), g, v)
    decreases s, 3
  {
    hide Layered, Laid, EncodeScalar, FieldName, FirstKid, Starts, EncodeLong, LenLong;
    LaidAt(p, i, s, name);
    KidIndex(p, i);
    match s
    case Record(_, fields) => FieldsEncodeTree(p, i, s, name, 0, g, ObjectOf(v));
    case Array(items) => ListEncodesTree(p, i, s, name, items, false, g, g.pairs(v));
    case Map(values) => ListEncodesTree(p, i, s, name, values, true, g, g.pairs(v));
    case Union(arms) =>
      FirstKidIs(p, i, arms, name, 0, IsNull(v));
      var a := FirstArm(arms, 0, IsNull(v));
      if a < |arms| {
        LaidKid(p, i, s, name, a);
        EncodesTree(p, p.childOps[i][a], arms[a], [], g, v);
      }
    case _ => ScalarEncodesTree(p, i, s, name, g, v);
  }

  lemma ScalarEncodesTree(p: Program, i: nat, s: Schema, name: Name, g: Reader, v: Option<Json>)
    requires Layered(p) && OpFor(p, i, s, name) && !s.Record? && !s.Array? && !s.Map? && !s.Union?
    ensures Encode(p, i, g, v) == AvroEncode.Encode(s, Shared(p.symbols), g, v)
  {
    hide Layered, EncodeScalar, FieldName;
    ScalarParams(p.ops[i].kind, p.ops[i].param, p.symbols, g, v);
    ScalarParams(p.ops[i].kind, 0, p.symbols, g, v);
  }

  /** The size matters to fixed values only, the symbols to enums only. */
  lemma ScalarParams(k: Kind, size: nat, symbols: seq<Name>, g: Reader, v: Option<Json>)
    requires IsScalar(k)
    ensures !k.KFixed? ==> EncodeScalar(k, size, symbols, g, v) == EncodeScalar(k, 0, symbols, g, v)
    ensures !k.KEnum? ==> EncodeScalar(k, size, symbols, g, v) == EncodeScalar(k, size, [], g, v)
  {}

  lemma {:induction false} FieldsEncodeTree(p: Program, i: nat, s: Schema, name: Name, k: nat, g: Reader, obj: Json)
    requires Layered(p) && Laid(p, i, s, name) && s.Record? && k <= |s.fields| && i < |p.childOps|
    requires |p.childOps[i]| == |s.fields|
    requires forall m :: 0 <= m < |p.childOps[i]| ==> i < p.childOps[i][m] < |p.ops|
    ensures EncodeFields(p, i, p.childOps[i], k, g, obj) ==
            AvroEncode.EncodeFields(s.fields, k, Shared(p.symbols), g, obj)
    decreases s, 2, |s.fields| - k
  {
    hide Layered, Laid, EncodeScalar;
    if k < |s.fields| {
      LaidKid(p, i, s, name, k);
      LaidAt(p, p.childOps[i][k], s.fields[k].type_, s.fields[k].name);
      EncodesTree(p, p.childOps[i][k], s.fields[k].type_, s.fields[k].name, g, g.get(obj, s.fields[k].name));
      FieldsEncodeTree(p, i, s, name, k + 1, g, obj);
    }
  }

  lemma {:induction false} ListEncodesTree(p: Program, i: nat, s: Schema, name: Name, item: Schema, isMap: bool,
      g: Reader, ms: seq<Member>)
    requires Layered(p) && Laid(p, i, s, name) && Kids(s) == [Field([], item)]
    ensures EncodeList(p, i, isMap, g, ms) == AvroEncode.EncodeList(item, isMap, Shared(p.symbols), g, ms)
    decreases s, 2
  {
    hide Layered, Laid, EncodeItems, AvroEncode.EncodeItems;
    LaidAt(p, i, s, name);
    ItemsEncodeTree(p, i, s, name, item, isMap, g, ms);
  }

  lemma {:induction false} ItemsEncodeTree(p: Program, i: nat, s: Schema, name: Name, item: Schema, isMap: bool,
      g: Reader, ms: seq<Member>)
    requires Layered(p) && Laid(p, i, s, name) && Kids(s) == [Field([], item)] && ChildOpsFor(p, i) != []
    ensures i < |p.ops|
    ensures EncodeItems(p, i, isMap, g, ms) == AvroEncode.EncodeItems(item, isMap, Shared(p.symbols), g, ms)
    decreases s, 1, |ms|
  {
    hide Layered, Laid, Encode, AvroEncode.Encode, EncodeRun;
    LaidAt(p, i, s, name);
    if ms != [] {
      LaidKid(p, i, s, name, 0);
      KidIndex(p, i);
      EncodesTree(p, p.childOps[i][0], item, [], g, Some(ms[0].value));
      ItemsEncodeTree(p, i, s, name, item, isMap, g, ms[1..]);
    }
  }

  /** The round trip on laid-out programs: encode with the program, then decode with it. */
  lemma ProgramRoundTrip(p: Program, i: nat, s: Schema, name: Name, g: Reader, j: Json, rest: seq<byte>)
    requires Layered(p) && Laid(p, i, s, name) && Faithful(g, s, j) && Typed(s, Shared(p.symbols), j)
    ensures i < |p.ops| && AvroProgram.Decode(p, i, Encode(p, i, g, Some(j)) + rest) == Good(j, rest)
  {
    hide Layered, Laid, Faithful, Typed, Encode, AvroEncode.Encode, AvroProgram.Decode, AvroTree.Decode;
    LaidAt(p, i, s, name);
    EncodesTree(p, i, s, name, g, Some(j));
    DecodesTree(p, i, s, name, Encode(p, i, g, Some(j)) + rest);
    AvroEncode.RoundTrip(s, Shared(p.symbols), g, j, rest);
  }

  // ---------- the encoder as it runs ----------

  /** Looks a symbol up, first match first. */
  method SymbolIndex(table: seq<Name>, sym: Name) returns (k: nat)
    ensures k == IndexIn(table, sym)
  {
    for i := 0 to |table|
      invariant forall m :: 0 <= m < i ==> table[m] != sym
    {
      if table[i] == sym {
        return i;
      }
    }
    return |table|;
  }

  /** Cuts the bytes to the size, or pads them with zeros one by one. */
  method AppendFixed(dst: seq<byte>, b: seq<byte>, size: nat) returns (out: seq<byte>)
    ensures out == dst + Padded(b, size)
  {
    if |b| >= size {
      return dst + b[..size];
    }
    out := dst + b;
    for i := |b| to size
      invariant out == dst + b + seq(i - |b|, _ => 0)
    {
      assert seq(i + 1 - |b|, _ => 0) == seq(i - |b|, _ => 0) + [0 as byte];
      out := out + [0];
    }
    assert out == dst + (b + seq(size - |b|, _ => 0));
  }

  method AppendRun(dst: seq<byte>, b: seq<byte>) returns (out: seq<byte>)
    ensures out == dst + EncodeRun(b)
  {
    out := AppendLong(dst, LenLong(|b|));
    out := out + b;
  }

  method EncodeScalarOp(dst: seq<byte>, p: Program, op: Op, g: Reader, v: Option<Json>) returns (out: seq<byte>)
    requires IsScalar(op.kind)
    ensures out == dst + EncodeScalar(op.kind, op.param, p.symbols, g, v)
  {
    hide EncodeLong, EncodeRun, LowBytes, HexOrBytes, Padded, LenLong;
    match op.kind
    case KNull => out := dst;
    case KBool =>
      if g.asBool(v) {
        return dst + [1];
      }
      return dst + [0];
    case KInt | KLong => out := AppendLong(dst, g.asInt(v));
    case KFloat => out := dst + LowBytes(g.asFloat(v, 4), 4);
    case KDouble => out := dst + LowBytes(g.asFloat(v, 8), 8);
    case KBytes =>
      var b := HexDecodeOrBytes(g.asString(v));
      out := AppendRun(dst, b);
    case KString => out := AppendRun(dst, g.asString(v));
    case KEnum =>
      var idx := SymbolIndex(p.symbols, g.asString(v));
      if idx < |p.symbols| {
        out := AppendLong(dst, LenLong(idx));
      } else {
        out := AppendLong(dst, g.asInt(v));
      }
    case KFixed =>
      var b := HexDecodeOrBytes(g.asString(v));
      out := AppendFixed(dst, b, op.param);
  }

  method EncodeValue(dst: seq<byte>, p: Program, i: nat, g: Reader, v: Option<Json>) returns (out: seq<byte>)
    requires Layered(p) && i < |p.ops|
    ensures out == dst + Encode(p, i, g, v)
    decreases |p.ops| - i, 3
  {
    hide Layered, EncodeScalar, EncodeLong, LenLong, EncodeFields, EncodeList;
    KidsAfter(p, i);
    var kids := ChildOpsFor(p, i);
    match p.ops[i].kind
    case KRecord => out := EncodeRecord(dst, p, i, kids, g, ObjectOf(v));
    case KArray => out := EncodeListOp(dst, p, i, false, g, g.pairs(v));
    case KMap => out := EncodeListOp(dst, p, i, true, g, g.pairs(v));
    case KUnion =>
      var a := FindKid(p, kids, IsNull(v));
      out := AppendLong(dst, if a == |kids| then 0 else LenLong(a));
      if a == |kids| {
        return;
      }
      if !IsNull(v) {
        out := EncodeValue(out, p, kids[a], g, v);
      }
    case _ => out := EncodeScalarOp(dst, p, p.ops[i], g, v);
  }

  /** Searches the arms in order. */
  method FindKid(p: Program, kids: seq<nat>, wantNull: bool) returns (a: nat)
    requires forall m :: 0 <= m < |kids| ==> kids[m] < |p.ops|
    ensures a == FirstKid(p, kids, 0, wantNull)
  {
    for k := 0 to |kids|
      invariant FirstKid(p, kids, k, wantNull) == FirstKid(p, kids, 0, wantNull)
    {
      if (p.ops[kids[k]].kind == KNull) == wantNull {
        return k;
      }
    }
    return |kids|;
  }

  method EncodeRecord(dst: seq<byte>, p: Program, ghost i: nat, kids: seq<nat>, g: Reader,
      obj: Json) returns (out: seq<byte>)
    requires Layered(p) && i < |p.ops| && forall m :: 0 <= m < |kids| ==> i < kids[m] < |p.ops|
    ensures out == dst + EncodeFields(p, i, kids, 0, g, obj)
    decreases |p.ops| - i, 2, 0
  {
    hide Layered, Encode;
    out := dst;
    for k := 0 to |kids|
      invariant out + EncodeFields(p, i, kids, k, g, obj) == dst + EncodeFields(p, i, kids, 0, g, obj)
    {
      NameFits(p, kids[k]);
      ghost var before, b := out, Encode(p, kids[k], g, g.get(obj, FieldName(p, p.ops[kids[k]])));
      out := EncodeValue(out, p, kids[k], g, g.get(obj, FieldName(p, p.ops[kids[k]])));
      Assoc(before, b, EncodeFields(p, i, kids, k + 1, g, obj));
    }
  }

  /** The item loop of arrays and maps; a map's entries are collected apart and appended behind their count. */
  method EncodeListOp(dst: seq<byte>, p: Program, i: nat, isMap: bool, g: Reader,
      ms: seq<Member>) returns (out: seq<byte>)
    requires Layered(p) && i < |p.ops|
    ensures out == dst + EncodeList(p, i, isMap, g, ms)
    decreases |p.ops| - i, 2, 0
  {
    hide Layered, Encode, EncodeLong, LenLong, EncodeRun, EncodeItems;
    KidsAfter(p, i);
    out := dst;
    if ChildOpsFor(p, i) != [] && |ms| > 0 {
      var items := EncodeAll(p, i, isMap, g, ms);
      out := AppendLong(out, LenLong(|ms|));
      out := out + items;
    }
    out := AppendLong(out, 0);
  }

  method EncodeAll(p: Program, i: nat, isMap: bool, g: Reader, ms: seq<Member>) returns (out: seq<byte>)
    requires Layered(p) && i < |p.ops| && ChildOpsFor(p, i) != []
    ensures out == EncodeItems(p, i, isMap, g, ms)
    decreases |p.ops| - i, 1
  {
    hide Layered, Encode, EncodeRun;
    KidsAfter(p, i);
    out := [];
    assert ms[0..] == ms;
    for j := 0 to |ms|
      invariant out + EncodeItems(p, i, isMap, g, ms[j..]) == EncodeItems(p, i, isMap, g, ms)
    {
      ghost var before := out;
      if isMap {
        out := AppendRun(out, ms[j].key);
      }
      out := EncodeValue(out, p, ChildOpsFor(p, i)[0], g, Some(ms[j].value));
      ghost var b := Encode(p, ChildOpsFor(p, i)[0], g, Some(ms[j].value));
      assert ms[j..][1..] == ms[j + 1..];
      assert out == before + (KeyBytes(isMap, ms[j].key) + b);
      Assoc(before, KeyBytes(isMap, ms[j].key) + b, EncodeItems(p, i, isMap, g, ms[j + 1..]));
    }
    assert ms[|ms|..] == [];
  }

  /** The entry point: the fields below the root from a JSON object; for a record root, the encoded record. */
  method AppendJSONToAvro(dst: seq<byte>, p: Program, g: Reader, json: Json) returns (out: seq<byte>)
    requires Layered(p) && |p.ops| > 0
    ensures forall m :: 0 <= m < |ChildOpsFor(p, 0)| ==> 0 < ChildOpsFor(p, 0)[m] < |p.ops|
    ensures out == dst + EncodeFields(p, 0, ChildOpsFor(p, 0), 0, g, json)
    ensures p.ops[0].kind.KRecord? ==> out == dst + Encode(p, 0, g, Some(json))
  {
    KidsAfter(p, 0);
    out := EncodeRecord(dst, p, 0, ChildOpsFor(p, 0), g, json);
  }
}
