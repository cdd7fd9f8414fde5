/**
 Enums share one symbol table with no offset per enum. This module says exactly when that is
 harmless: decoding with the shared table equals decoding with each enum's own symbols on
 every input, if and only if every enum that can show up in an output lists just the table.
 */
module AvroEnums {
  import opened Machine
  import opened Varint
  import opened JsonText
  import opened AvroWire
  import opened AvroTree
  import opened AvroProgram
  import opened AvroEncode
  import opened AvroCompile

  /** Some input decodes. */
  ghost predicate Decodable(s: Schema)
    decreases s
  {
    match s
    case Null | Enum(_) | Fixed(_) | Array(_) | Map(_) => true
    case Prim(k) => IsPrim(k)
    case Record(_, fields) => forall k :: 0 <= k < |fields| ==> Decodable(fields[k].type_)
    case Union(arms) => exists k :: 0 <= k < |arms| && Decodable(arms[k])
    case Other | Ref => false
  }

  /** Every enum whose symbols can reach the output has exactly the table's symbols. */
  ghost predicate EnumsAgree(s: Schema, table: seq<Name>)
    decreases s
  {
    Decodable(s) ==>
      match s
      case Enum(symbols) => symbols == table
      case Record(_, fields) => forall k :: 0 <= k < |fields| ==> EnumsAgree(fields[k].type_, table)
      case Array(items) => EnumsAgree(items, table)
      case Map(values) => EnumsAgree(values, table)
      case Union(arms) => forall k :: 0 <= k < |arms| ==> EnumsAgree(arms[k], table)
      case _ => true
  }

  // ---------- the table never changes what is consumed ----------

  ghost predicate SameEnd(a: Listed, b: Listed) {
    a.Entries? == b.Entries? && a.rest == b.rest
  }

  lemma {:induction false} TableNotConsumed(s: Schema, t: Table, u: Table, src: seq<byte>)
    ensures AvroTree.Decode(s, t, src).Good? == AvroTree.Decode(s, u, src).Good?
    ensures AvroTree.Decode(s, t, src).rest == AvroTree.Decode(s, u, src).rest
    decreases s, 0
  {
    hide Suffix, ReadArm;
    match s
    case Record(_, fields) => TableFields(fields, 0, t, u, src, [], []);
    case Array(items) => TableBlocks(items, false, t, u, src, [], []);
    case Map(values) => TableBlocks(values, true, t, u, src, [], []);
    case Union(arms) =>
      var a := ReadArm(src, |arms|);
      if a.Arm? {
        TableNotConsumed(arms[a.index], t, u, a.rest);
      }
    case _ =>
  }

  lemma {:induction false} TableFields(fields: seq<Field>, k: nat, t: Table, u: Table, src: seq<byte>, acc: seq<Member>,
      acc': seq<Member>)
    requires k <= |fields|
    ensures SameEnd(AvroTree.DecodeFields(fields, k, t, src, acc), AvroTree.DecodeFields(fields, k, u, src, acc'))
    decreases fields, |fields| - k
  {
    hide Suffix, AvroTree.Decode;
    if k < |fields| {
      TableNotConsumed(fields[k].type_, t, u, src);
      var r, r' := AvroTree.Decode(fields[k].type_, t, src), AvroTree.Decode(fields[k].type_, u, src);
      if r.Good? {
        TableFields(fields, k + 1, t, u, r.rest, acc + [Member(fields[k].name, r.json)],
                    acc' + [Member(fields[k].name, r'.json)]);
      }
    }
  }

  lemma {:induction false} TableBlocks(s: Schema, isMap: bool, t: Table, u: Table, src: seq<byte>, acc: seq<Member>,
      acc': seq<Member>)
    ensures SameEnd(AvroTree.DecodeBlocks(s, isMap, t, src, acc), AvroTree.DecodeBlocks(s, isMap, u, src, acc'))
    decreases s, 2, |src|
  {
    hide AvroTree.DecodeItems, ReadBlock;
    var b := ReadBlock(src);
    if b.Items? {
      TableItems(s, isMap, t, u, b.count, b.rest, acc, acc');
      var r, r' := AvroTree.DecodeItems(s, isMap, t, b.count, b.rest, acc),
          AvroTree.DecodeItems(s, isMap, u, b.count, b.rest, acc');
      if r.Entries? {
        TableBlocks(s, isMap, t, u, r.rest, r.entries, r'.entries);
      }
    }
  }

  lemma {:induction false} TableItems(s: Schema, isMap: bool, t: Table, u: Table, count: nat, src: seq<byte>,
      acc: seq<Member>, acc': seq<Member>)
    ensures SameEnd(AvroTree.DecodeItems(s, isMap, t, count, src, acc),
                    AvroTree.DecodeItems(s, isMap, u, count, src, acc'))
    decreases s, 1, count
  {
    hide Suffix, AvroTree.Decode, ReadKey;
    if count > 0 {
      var key := ReadKey(isMap, src);
      if key.Bytes? {
        TableNotConsumed(s, t, u, key.rest);
        var r, r' := AvroTree.Decode(s, t, key.rest), AvroTree.Decode(s, u, key.rest);
        if r.Good? {
          TableItems(s, isMap, t, u, count - 1, r.rest, acc + [Member(key.bytes, r.json)],
                     acc' + [Member(key.bytes, r'.json)]);
        }
      }
    }
  }

  lemma {:induction false} UndecodableFails(s: Schema, t: Table, src: seq<byte>)
    requires !Decodable(s)
    ensures AvroTree.Decode(s, t, src).Bad?
    decreases s, 0
  {
    hide Suffix, ReadArm, Scalar;
    match s
    case Record(_, fields) => BadFieldFails(fields, 0, t, src, []);
    case Union(arms) =>
      var a := ReadArm(src, |arms|);
      if a.Arm? {
        UndecodableFails(arms[a.index], t, a.rest);
      }
    case _ =>
  }

  lemma {:induction false} BadFieldFails(fields: seq<Field>, k: nat, t: Table, src: seq<byte>, acc: seq<Member>)
    requires k <= |fields| && exists m :: k <= m < |fields| && !Decodable(fields[m].type_)
    ensures AvroTree.DecodeFields(fields, k, t, src, acc).Broken?
    decreases fields, |fields| - k
  {
    hide Suffix, AvroTree.Decode, Decodable;
    if Decodable(fields[k].type_) {
      var r := AvroTree.Decode(fields[k].type_, t, src);
      if r.Good? {
        BadFieldFails(fields, k + 1, t, r.rest, acc + [Member(fields[k].name, r.json)]);
      }
    } else {
      UndecodableFails(fields[k].type_, t, src);
    }
  }

  // ---------- agreement is enough ----------

  lemma {:induction false} AgreementDecodes(s: Schema, table: seq<Name>, src: seq<byte>)
    requires EnumsAgree(s, table)
    ensures AvroTree.Decode(s, Shared(table), src) == AvroTree.Decode(s, Own, src)
    decreases s, 0
  {
    hide Suffix, ReadArm, Scalar, Decodable;
    if !Decodable(s) {
      UndecodableFails(s, Shared(table), src);
      UndecodableFails(s, Own, src);
      TableNotConsumed(s, Shared(table), Own, src);
    } else {
      match s
      case Record(_, fields) => AgreementFields(fields, 0, table, src, []);
      case Array(items) => AgreementBlocks(items, false, table, src, []);
      case Map(values) => AgreementBlocks(values, true, table, src, []);
      case Union(arms) =>
        var a := ReadArm(src, |arms|);
        if a.Arm? {
          AgreementDecodes(arms[a.index], table, a.rest);
        }
      case _ =>
    }
  }

  lemma {:induction false} AgreementFields(fields: seq<Field>, k: nat, table: seq<Name>, src: seq<byte>,
      acc: seq<Member>)
    requires k <= |fields| && forall m :: 0 <= m < |fields| ==> EnumsAgree(fields[m].type_, table)
    ensures AvroTree.DecodeFields(fields, k, Shared(table), src, acc) == AvroTree.DecodeFields(fields, k, Own, src, acc)
    decreases fields, |fields| - k
  {
    hide Suffix, AvroTree.Decode, EnumsAgree;
    if k < |fields| {
      AgreementDecodes(fields[k].type_, table, src);
      var r := AvroTree.Decode(fields[k].type_, Own, src);
      if r.Good? {
        AgreementFields(fields, k + 1, table, r.rest, acc + [Member(fields[k].name, r.json)]);
      }
    }
  }

  lemma {:induction false} AgreementBlocks(s: Schema, isMap: bool, table: seq<Name>, src: seq<byte>, acc: seq<Member>)
    requires EnumsAgree(s, table)
    ensures AvroTree.DecodeBlocks(s, isMap, Shared(table), src, acc) == AvroTree.DecodeBlocks(s, isMap, Own, src, acc)
    decreases s, 2, |src|
  {
    hide AvroTree.DecodeItems, ReadBlock, EnumsAgree;
    var b := ReadBlock(src);
    if b.Items? {
      AgreementItems(s, isMap, table, b.count, b.rest, acc);
      var r := AvroTree.DecodeItems(s, isMap, Own, b.count, b.rest, acc);
      if r.Entries? {
        AgreementBlocks(s, isMap, table, r.rest, r.entries);
      }
    }
  }

  lemma {:induction false} AgreementItems(s: Schema, isMap: bool, table: seq<Name>, count: nat, src: seq<byte>,
      acc: seq<Member>)
    requires EnumsAgree(s, table)
    ensures AvroTree.DecodeItems(s, isMap, Shared(table), count, src, acc) ==
            AvroTree.DecodeItems(s, isMap, Own, count, src, acc)
    decreases s, 1, count
  {
    hide Suffix, AvroTree.Decode, ReadKey, EnumsAgree;
    if count > 0 {
      var key := ReadKey(isMap, src);
      if key.Bytes? {
        AgreementDecodes(s, table, key.rest);
        var r := AvroTree.Decode(s, Own, key.rest);
        if r.Good? {
          AgreementItems(s, isMap, table, count - 1, r.rest, acc + [Member(key.bytes, r.json)]);
        }
      }
    }
  }

  // ---------- and necessary ----------

  /** Arm and symbol counts fit a signed 64-bit integer. */
  ghost predicate Small(s: Schema)
    decreases s
  {
    match s
    case Enum(symbols) => |symbols| < W63
    case Record(_, fields) => forall k :: 0 <= k < |fields| ==> Small(fields[k].type_)
    case Array(items) => Small(items)
    case Map(values) => Small(values)
    case Union(arms) => |arms| < W63 && forall k :: 0 <= k < |arms| ==> Small(arms[k])
    case _ => true
  }

  /** The bytes decode under every table, whatever follows them. */
  ghost predicate IsSample(s: Schema, b: seq<byte>) {
    forall t, rest :: AvroTree.Decode(s, t, b + rest).Good? && AvroTree.Decode(s, t, b + rest).rest == rest
  }

  /** The bytes decode under both tables, to different values. */
  ghost predicate Tells(s: Schema, table: seq<Name>, b: seq<byte>) {
    forall rest :: TellsBefore(s, table, b, rest)
  }

  ghost predicate TellsBefore(s: Schema, table: seq<Name>, b: seq<byte>, rest: seq<byte>) {
    var r, r' := AvroTree.Decode(s, Shared(table), b + rest), AvroTree.Decode(s, Own, b + rest);
    r.Good? && r'.Good? && r.rest == rest == r'.rest && r.json != r'.json
  }

  lemma ScalarSample(k: Kind, size: nat) returns (b: seq<byte>)
    requires IsScalar(k)
    ensures forall symbols, rest ::
              var r := Scalar(k, size, symbols, b + rest); r.Good? && r.rest == rest
  {
    hide EncodeLong, ReadLong, EncodeRun, ReadRun, LittleEndian, HexText, LenLong;
    b := match k
         case KNull => []
         case KBool => [0]
         case KInt | KLong | KEnum => EncodeLong(0)
         case KFloat => [0, 0, 0, 0]
         case KDouble => [0, 0, 0, 0, 0, 0, 0, 0]
         case KBytes | KString => EncodeRun([])
         case KFixed => seq(size, i => 0);
    forall symbols, rest
      ensures Scalar(k, size, symbols, b + rest).Good? && Scalar(k, size, symbols, b + rest).rest == rest
    {
      assert (b + rest)[|b|..] == rest;
      LongRoundTrip(0, rest);
      RunRoundTrip([], rest);
    }
  }

  lemma {:induction false} SampleOf(s: Schema) returns (b: seq<byte>)
    requires Decodable(s) && Small(s)
    ensures IsSample(s, b)
    decreases s, 0
  {
    hide Scalar, Suffix, EncodeLong, ReadLong;
    match s
    case Null => b := ScalarSample(KNull, 0);
    case Prim(k) => b := ScalarSample(k, 0);
    case Enum(symbols) => b := ScalarSample(KEnum, 0);
    case Fixed(size) => b := ScalarSample(KFixed, size);
    case Record(_, fields) =>
      b := SampleFields(fields, 0);
      forall t, rest
        ensures AvroTree.Decode(s, t, b + rest).Good? && AvroTree.Decode(s, t, b + rest).rest == rest
      {
        assert AvroTree.DecodeFields(fields, 0, t, b + rest, []).Entries?;
      }
    case Array(items) =>
      b := EmptyList(items, false);
      forall t, rest
        ensures AvroTree.Decode(s, t, b + rest).Good? && AvroTree.Decode(s, t, b + rest).rest == rest
      {
        assert AvroTree.DecodeBlocks(items, false, t, b + rest, []).Entries?;
      }
    case Map(values) =>
      b := EmptyList(values, true);
      forall t, rest
        ensures AvroTree.Decode(s, t, b + rest).Good? && AvroTree.Decode(s, t, b + rest).rest == rest
      {
        assert AvroTree.DecodeBlocks(values, true, t, b + rest, []).Entries?;
      }
    case Union(arms) =>
      var k :| 0 <= k < |arms| && Decodable(arms[k]);
      var w := SampleOf(arms[k]);
      b := EncodeLong(k) + w;
      forall t, rest
        ensures AvroTree.Decode(s, t, b + rest).Good? && AvroTree.Decode(s, t, b + rest).rest == rest
      {
        ArmDecodes(arms, k, t, w, rest);
        assert AvroTree.Decode(arms[k], t, w + rest).Good?;
      }
    case Other | Ref =>
  }

  lemma ArmDecodes(arms: seq<Schema>, k: nat, t: Table, w: seq<byte>, rest: seq<byte>)
    requires k < |arms| < W63
    ensures AvroTree.Decode(Union(arms), t, EncodeLong(k) + w + rest) == AvroTree.Decode(arms[k], t, w + rest)
  {
    hide EncodeLong, ReadLong, Suffix;
    LongRoundTrip(k, w + rest);
    Assoc(EncodeLong(k), w, rest);
  }

  lemma EmptyList(s: Schema, isMap: bool) returns (b: seq<byte>)
    ensures b == EncodeLong(0)
    ensures forall t, rest :: AvroTree.DecodeBlocks(s, isMap, t, b + rest, []) == Entries([], rest)
  {
    hide EncodeLong, ReadLong, Suffix;
    b := EncodeLong(0);
    forall t, rest
      ensures AvroTree.DecodeBlocks(s, isMap, t, b + rest, []) == Entries([], rest)
    {
      LongRoundTrip(0, rest);
    }
  }

  /** The bytes decode the fields from the k-th on, under every table and after any fields before. */
  ghost predicate AreSamples(fields: seq<Field>, k: nat, b: seq<byte>)
    requires k <= |fields|
  {
    forall t, rest, acc ::
      var r := AvroTree.DecodeFields(fields, k, t, b + rest, acc); r.Entries? && r.rest == rest
  }

  lemma {:induction false} SampleFields(fields: seq<Field>, k: nat) returns (b: seq<byte>)
    requires k <= |fields| && forall m :: 0 <= m < |fields| ==> Decodable(fields[m].type_) && Small(fields[m].type_)
    ensures AreSamples(fields, k, b)
    decreases fields, |fields| - k
  {
    hide AvroTree.Decode, Suffix, Decodable, Small;
    if k == |fields| {
      b := [];
      forall t, rest, acc
        ensures AvroTree.DecodeFields(fields, k, t, b + rest, acc) == Entries(acc, rest)
      {
        assert b + rest == rest;
      }
    } else {
      var first := SampleOf(fields[k].type_);
      var others := SampleFields(fields, k + 1);
      b := first + others;
      forall t, rest, acc: seq<Member>
        ensures AvroTree.DecodeFields(fields, k, t, b + rest, acc).Entries?
                && AvroTree.DecodeFields(fields, k, t, b + rest, acc).rest == rest
      {
        Assoc(first, others, rest);
        var r := AvroTree.Decode(fields[k].type_, t, first + (others + rest));
        assert r.Good? && r.rest == others + rest;
        var l := AvroTree.DecodeFields(fields, k + 1, t, others + rest, acc + [Member(fields[k].name, r.json)]);
        assert l.Entries? && l.rest == rest;
      }
    }
  }

  /** An index at which two symbol lists print differently. */
  lemma DifferingIndex(symbols: seq<Name>, table: seq<Name>) returns (idx: nat)
    requires symbols != table
    ensures idx < |symbols| || idx < |table|
    ensures idx < |symbols| && idx < |table| ==> symbols[idx] != table[idx]
  {
    if k :| 0 <= k < |symbols| && k < |table| && symbols[k] != table[k] {
      idx := k;
    } else if |symbols| < |table| {
      idx := |symbols|;
    } else {
      idx := |table|;
      assert |symbols| == |table| ==> symbols == table;
    }
  }

  lemma EnumTells(symbols: seq<Name>, table: seq<Name>) returns (b: seq<byte>)
    requires symbols != table && |symbols| < W63 && |table| < W63
    ensures Tells(Enum(symbols), table, b)
  {
    hide EncodeLong, ReadLong, Suffix;
    var idx := DifferingIndex(symbols, table);
    b := EncodeLong(idx);
    forall rest
      ensures TellsBefore(Enum(symbols), table, b, rest)
    {
      LongRoundTrip(idx, rest);
    }
  }

  /** From an enum that disagrees, an input on which the whole schema decodes differently. */
  lemma {:induction false} DisagreementTells(s: Schema, table: seq<Name>) returns (b: seq<byte>)
    requires !EnumsAgree(s, table) && Small(s) && |table| < W63
    ensures Tells(s, table, b)
    decreases s, 0
  {
    hide Scalar, Suffix, EncodeLong, ReadLong, TellsBefore, Decodable;
    match s
    case Enum(symbols) => b := EnumTells(symbols, table);
    case Record(_, fields) => b := FieldTells(s, table);
    case Array(items) =>
      var w := DisagreementTells(items, table);
      b := ItemTells(s, items, false, table, w);
    case Map(values) =>
      var w := DisagreementTells(values, table);
      b := ItemTells(s, values, true, table, w);
    case Union(arms) =>
      var k :| 0 <= k < |arms| && !EnumsAgree(arms[k], table);
      var w := DisagreementTells(arms[k], table);
      b := EncodeLong(k) + w;
      forall rest
        ensures TellsBefore(s, table, b, rest)
      {
        assert TellsBefore(arms[k], table, w, rest);
        ArmTells(arms, k, table, w, rest);
      }
    case _ =>
  }

  lemma ArmTells(arms: seq<Schema>, k: nat, table: seq<Name>, w: seq<byte>, rest: seq<byte>)
    requires k < |arms| < W63 && TellsBefore(arms[k], table, w, rest)
    ensures TellsBefore(Union(arms), table, EncodeLong(k) + w, rest)
  {
    hide AvroTree.Decode, EncodeLong;
    ArmDecodes(arms, k, Shared(table), w, rest);
    ArmDecodes(arms, k, Own, w, rest);
  }

  /** One block with one item. */
  lemma ItemTells(s: Schema, item: Schema, isMap: bool, table: seq<Name>, w: seq<byte>) returns (b: seq<byte>)
    requires s == (if isMap then Map(item) else Array(item)) && Tells(item, table, w)
    ensures Tells(s, table, b)
  {
    hide EncodeLong, AvroTree.DecodeBlocks, KeyBytes;
    b := EncodeLong(1) + (KeyBytes(isMap, []) + (w + EncodeLong(0)));
    forall rest
      ensures TellsBefore(s, table, b, rest)
    {
      var after := EncodeLong(0) + rest;
      assert TellsBefore(item, table, w, after);
      OneItem(item, isMap, Shared(table), w, rest);
      OneItem(item, isMap, Own, w, rest);
      OneListed(isMap, AvroTree.Decode(item, Shared(table), w + after).json,
                AvroTree.Decode(item, Own, w + after).json);
    }
  }

  lemma OneListed(isMap: bool, j: Json, j': Json)
    requires j != j'
    ensures Listing(isMap, [Member([], j)]) != Listing(isMap, [Member([], j')])
  {
    assert Values([Member([], j)]) == [j] && Values([Member([], j')]) == [j'];
    assert [j][0] != [j'][0];
    assert [Member([], j)][0] != [Member([], j')][0];
  }

  /** Decoding a one-item list. */
  lemma OneItem(item: Schema, isMap: bool, t: Table, w: seq<byte>, rest: seq<byte>)
    requires AvroTree.Decode(item, t, w + (EncodeLong(0) + rest)).Good?
             && AvroTree.Decode(item, t, w + (EncodeLong(0) + rest)).rest == EncodeLong(0) + rest
    ensures AvroTree.DecodeBlocks(item, isMap, t, EncodeLong(1) + (KeyBytes(isMap, []) + (w + EncodeLong(0))) + rest,
                                  []) ==
            Entries([Member([], AvroTree.Decode(item, t, w + (EncodeLong(0) + rest)).json)], rest)
  {
    hide EncodeLong, ReadLong, Suffix, AvroTree.Decode, KeyBytes, ReadKey;
    var after := EncodeLong(0) + rest;
    var body := KeyBytes(isMap, []) + (w + after);
    var src := EncodeLong(1) + (KeyBytes(isMap, []) + (w + EncodeLong(0))) + rest;
    assert src == EncodeLong(1) + body;
    LongRoundTrip(1, body);
    KeyRoundTrip(isMap, [], w + after);
    LongRoundTrip(0, rest);
    var j := AvroTree.Decode(item, t, w + after).json;
    assert AvroTree.DecodeItems(item, isMap, t, 1, body, []) ==
           AvroTree.DecodeItems(item, isMap, t, 0, after, [] + [Member([], j)]);
  }

  lemma {:induction false} FieldsKept(fields: seq<Field>, k: nat, t: Table, src: seq<byte>, acc: seq<Member>)
    requires k <= |fields|
    ensures var r := AvroTree.DecodeFields(fields, k, t, src, acc);
            r.Entries? ==> acc <= r.entries
    decreases |fields| - k
  {
    hide AvroTree.Decode, Suffix;
    if k < |fields| {
      var r := AvroTree.Decode(fields[k].type_, t, src);
      if r.Good? {
        FieldsKept(fields, k + 1, t, r.rest, acc + [Member(fields[k].name, r.json)]);
      }
    }
  }

  /** From field j on, the bytes decode under both tables, and the values of field k differ. */
  ghost predicate FieldsTell(fields: seq<Field>, j: nat, k: nat, table: seq<Name>, b: seq<byte>)
    requires j <= k < |fields|
  {
    forall rest, acc, acc' :: |acc| == j && |acc'| == j ==> FieldsTellAt(fields, j, k, table, b, rest, acc, acc')
  }

  ghost predicate FieldsTellAt(fields: seq<Field>, j: nat, k: nat, table: seq<Name>, b: seq<byte>, rest: seq<byte>,
      acc: seq<Member>, acc': seq<Member>)
    requires j <= k < |fields|
  {
    var r, r' := AvroTree.DecodeFields(fields, j, Shared(table), b + rest, acc),
        AvroTree.DecodeFields(fields, j, Own, b + rest, acc');
    && r.Entries? && r'.Entries? && r.rest == rest == r'.rest
    && k < |r.entries| && k < |r'.entries| && r.entries[k] != r'.entries[k]
  }

  lemma FieldTells(s: Schema, table: seq<Name>) returns (b: seq<byte>)
    requires s.Record? && !EnumsAgree(s, table) && Small(s) && |table| < W63
    ensures Tells(s, table, b)
    decreases s.fields, 2
  {
    hide Suffix;
    var k :| 0 <= k < |s.fields| && !EnumsAgree(s.fields[k].type_, table);
    b := FieldsTellFrom(s.fields, 0, k, table);
    forall rest
      ensures TellsBefore(s, table, b, rest)
    {
      assert FieldsTellAt(s.fields, 0, k, table, b, rest, [], []);
    }
  }

  lemma {:induction false} FieldsTellFrom(fields: seq<Field>, j: nat, k: nat, table: seq<Name>) returns (b: seq<byte>)
    requires j <= k < |fields| && !EnumsAgree(fields[k].type_, table) && |table| < W63
    requires forall m :: 0 <= m < |fields| ==> Decodable(fields[m].type_) && Small(fields[m].type_)
    ensures FieldsTell(fields, j, k, table, b)
    decreases fields, 1, k - j
  {
    hide AvroTree.Decode, Suffix, Decodable, Small, EnumsAgree, FieldsTellAt, AreSamples, Tells, IsSample;
    if j == k {
      var w := DisagreementTells(fields[k].type_, table);
      var others := SampleFields(fields, k + 1);
      b := w + others;
      forall rest, acc: seq<Member>, acc': seq<Member> | |acc| == j && |acc'| == j
        ensures FieldsTellAt(fields, j, k, table, b, rest, acc, acc')
      {
        ThisFieldTells(fields, k, table, w, others, rest, acc, acc');
      }
    } else {
      var first := SampleOf(fields[j].type_);
      var w := FieldsTellFrom(fields, j + 1, k, table);
      b := first + w;
      forall rest, acc: seq<Member>, acc': seq<Member> | |acc| == j && |acc'| == j
        ensures FieldsTellAt(fields, j, k, table, b, rest, acc, acc')
      {
        LaterFieldTells(fields, j, k, table, first, w, rest, acc, acc');
      }
    }
  }

  lemma ThisFieldTells(fields: seq<Field>, k: nat, table: seq<Name>, w: seq<byte>, others: seq<byte>, rest: seq<byte>,
      acc: seq<Member>, acc': seq<Member>)
    requires k < |fields| && Tells(fields[k].type_, table, w) && AreSamples(fields, k + 1, others)
    requires |acc| == k == |acc'|
    ensures FieldsTellAt(fields, k, k, table, w + others, rest, acc, acc')
  {
    hide AvroTree.Decode, Suffix;
    Assoc(w, others, rest);
    assert TellsBefore(fields[k].type_, table, w, others + rest);
    var r, r' := AvroTree.Decode(fields[k].type_, Shared(table), w + (others + rest)),
        AvroTree.Decode(fields[k].type_, Own, w + (others + rest));
    var a, a' := acc + [Member(fields[k].name, r.json)], acc' + [Member(fields[k].name, r'.json)];
    assert AvroTree.DecodeFields(fields, k + 1, Shared(table), others + rest, a).Entries?;
    assert AvroTree.DecodeFields(fields, k + 1, Own, others + rest, a').Entries?;
    FieldsKept(fields, k + 1, Shared(table), others + rest, a);
    FieldsKept(fields, k + 1, Own, others + rest, a');
    assert a[k] != a'[k];
  }

  lemma LaterFieldTells(fields: seq<Field>, j: nat, k: nat, table: seq<Name>, first: seq<byte>, w: seq<byte>,
      rest: seq<byte>, acc: seq<Member>, acc': seq<Member>)
    requires j < k < |fields| && IsSample(fields[j].type_, first) && FieldsTell(fields, j + 1, k, table, w)
    requires |acc| == j == |acc'|
    ensures FieldsTellAt(fields, j, k, table, first + w, rest, acc, acc')
  {
    hide AvroTree.Decode, Suffix;
    Assoc(first, w, rest);
    var r, r' := AvroTree.Decode(fields[j].type_, Shared(table), first + (w + rest)),
        AvroTree.Decode(fields[j].type_, Own, first + (w + rest));
    assert r.Good? && r'.Good?;
    assert FieldsTellAt(fields, j + 1, k, table, w, rest, acc + [Member(fields[j].name, r.json)],
                        acc' + [Member(fields[j].name, r'.json)]);
  }

  /** The shared table is harmless on every input exactly when all enums that can show up agree with it. */
  lemma SharedTableHarmless(s: Schema, table: seq<Name>)
    requires Small(s) && |table| < W63
    ensures (forall src :: AvroTree.Decode(s, Shared(table), src) == AvroTree.Decode(s, Own, src)) <==>
              EnumsAgree(s, table)
  {
    hide AvroTree.Decode, EnumsAgree, Small;
    if EnumsAgree(s, table) {
      forall src
        ensures AvroTree.Decode(s, Shared(table), src) == AvroTree.Decode(s, Own, src)
      {
        AgreementDecodes(s, table, src);
      }
    } else {
      var b := DisagreementTells(s, table);
      assert TellsBefore(s, table, b, []);
      assert AvroTree.Decode(s, Shared(table), b + []) != AvroTree.Decode(s, Own, b + []);
    }
  }

  /**
   The compiled program decodes every input as the schema's own enums demand exactly when those
   enums agree with all symbols together.
   */
  lemma CompiledDecodesOwn(s: Schema, slots: SlotMap)
    requires Compile(s, slots).Some? && WithinWidths(s, Compile(s, slots).value) && Small(s) && |AllSymbols(s)| < W63
    ensures var p := Compile(s, slots).value;
            && Layered(p) && |p.ops| > 0
            && ((forall src :: AvroProgram.Decode(p, 0, src) == AvroTree.Decode(s, Own, src)) <==>
                EnumsAgree(s, AllSymbols(s)))
  {
    hide Compile, AvroTree.Decode, AvroProgram.Decode, EnumsAgree, Small, Layered, AllSymbols, WithinWidths;
    var p := Compile(s, slots).value;
    CompiledDecodes(s, slots, []);
    forall src
      ensures AvroProgram.Decode(p, 0, src) == AvroTree.Decode(s, Shared(AllSymbols(s)), src)
    {
      CompiledDecodes(s, slots, src);
    }
    SharedTableHarmless(s, AllSymbols(s));
    if forall src :: AvroProgram.Decode(p, 0, src) == AvroTree.Decode(s, Own, src) {
      forall src
        ensures AvroTree.Decode(s, Shared(AllSymbols(s)), src) == AvroTree.Decode(s, Own, src)
      {
        assert AvroProgram.Decode(p, 0, src) == AvroTree.Decode(s, Own, src);
      }
    }
  }

  const SYM_A: Name := [0x41]
  const SYM_B: Name := [0x42]
  const TWO_ENUMS := Record([0x72], [Field([0x61], Enum([SYM_A])), Field([0x62], Enum([SYM_B]))])

  /** Two enums with one symbol each: the second one's value prints the first one's symbol. */
  lemma TwoEnumsDisagree()
    ensures AllSymbols(TWO_ENUMS) == [SYM_A, SYM_B] && !EnumsAgree(TWO_ENUMS, AllSymbols(TWO_ENUMS))
    ensures AvroTree.Decode(TWO_ENUMS, Own, [0, 0]) ==
            Good(JObj([Member([0x61], JStr(SYM_A)), Member([0x62], JStr(SYM_B))]), [])
    ensures AvroTree.Decode(TWO_ENUMS, Shared(AllSymbols(TWO_ENUMS)), [0, 0]) ==
            Good(JObj([Member([0x61], JStr(SYM_A)), Member([0x62], JStr(SYM_A))]), [])
  {
    hide AvroTree.Decode, AllSymbols;
    TwoEnumSymbols();
    var a := TWO_ENUMS.fields[0].type_;
    assert Decodable(a) && a.symbols != [SYM_A, SYM_B];
    assert !EnumsAgree(a, [SYM_A, SYM_B]);
    TwoFields(Own);
    TwoFields(Shared([SYM_A, SYM_B]));
  }

  lemma TwoEnumSymbols()
    ensures AllSymbols(TWO_ENUMS) == [SYM_A, SYM_B] && Decodable(TWO_ENUMS)
  {
    var fields := TWO_ENUMS.fields;
    var a, b := fields[0].type_, fields[1].type_;
    assert Kids(a) == [] && Kids(b) == [] && Kids(TWO_ENUMS) == fields;
    assert SymbolsFrom(a, 0) == [] && SymbolsFrom(b, 0) == [];
    assert AllSymbols(a) == [SYM_A] && AllSymbols(b) == [SYM_B];
    assert SymbolsFrom(TWO_ENUMS, 2) == [];
    assert SymbolsFrom(TWO_ENUMS, 1) == [SYM_B] + [];
    assert SymbolsFrom(TWO_ENUMS, 0) == [SYM_A] + [SYM_B];
  }

  lemma ZeroByte(rest: seq<byte>)
    ensures ReadLong([0] + rest) == Some(Got(0, 1)) && ([0] + rest)[1..] == rest
  {
    assert EncodeLong(0) == [0];
    LongRoundTrip(0, rest);
  }

  lemma TwoFields(t: Table)
    requires t.Shared? ==> t.symbols != []
    ensures AvroTree.Decode(TWO_ENUMS, t, [0, 0]) ==
            Good(JObj([Member([0x61], JStr(SymbolsOf(t, [SYM_A])[0])), Member([0x62], JStr(SymbolsOf(t, [SYM_B])[0]))]),
                 [])
  {
    hide ReadLong, Suffix;
    var fields := TWO_ENUMS.fields;
    ZeroByte([0]);
    ZeroByte([]);
    assert [0, 0] == [0] + [0] && [0] == [0] + [];
    var m1, m2 := Member([0x61], JStr(SymbolsOf(t, [SYM_A])[0])), Member([0x62], JStr(SymbolsOf(t, [SYM_B])[0]));
    assert AvroTree.Decode(fields[1].type_, t, [0]) == Good(m2.value, []);
    assert AvroTree.Decode(fields[0].type_, t, [0, 0]) == Good(m1.value, [0]);
    assert [m1] + [m2] == [m1, m2] && [] + [m1] == [m1];
    assert AvroTree.DecodeFields(fields, 2, t, [], [m1, m2]) == Entries([m1, m2], []);
    assert AvroTree.DecodeFields(fields, 1, t, [0], [m1]) == Entries([m1, m2], []);
    assert AvroTree.DecodeFields(fields, 0, t, [0, 0], []) == Entries([m1, m2], []);
  }
}
