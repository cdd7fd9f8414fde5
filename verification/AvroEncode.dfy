/** The encoder from JSON to Avro binary over schema trees, and the round trip through the decoder. */
module AvroEncode {
  import opened Machine
  import opened Varint
  import opened JsonText
  import opened AvroWire
  import opened AvroTree

  /**
   The JSON library's view of a value that may be missing: its coercions, its members and
   items in order, and lookup by name.
   */
  datatype Reader = Reader(
    asBool: Option<Json> -> bool,
    asInt: Option<Json> -> Int64,
    asFloat: (Option<Json>, nat) -> nat,
    asString: Option<Json> -> seq<byte>,
    pairs: Option<Json> -> seq<Member>,
    get: (Json, Name) -> Option<Json>)

  function EncodeRun(b: seq<byte>): seq<byte> {
    EncodeLong(LenLong(|b|)) + b
  }

  /** The first position of a symbol, or the table's length. */
  function IndexIn(table: seq<Name>, sym: Name): (k: nat)
    ensures k <= |table| && (k < |table| ==> table[k] == sym)
    ensures forall i :: 0 <= i < k ==> table[i] != sym
  {
    if table == [] || table[0] == sym then 0 else 1 + IndexIn(table[1..], sym)
  }

  /** Cut or zero-padded to the fixed size. */
  function Padded(b: seq<byte>, size: nat): (r: seq<byte>)
    ensures |r| == size
  {
    if |b| >= size then b[..size] else b + seq(size - |b|, _ => 0)
  }

  function EncodeScalar(k: Kind, size: nat, symbols: seq<Name>, g: Reader, v: Option<Json>): seq<byte>
    requires IsScalar(k)
  {
    match k
    case KNull => []
    case KBool => [if g.asBool(v) then 1 else 0]
    case KInt | KLong => EncodeLong(g.asInt(v))
    case KFloat => LowBytes(g.asFloat(v, 4), 4)
    case KDouble => LowBytes(g.asFloat(v, 8), 8)
    case KBytes => EncodeRun(HexOrBytes(g.asString(v)))
    case KString => EncodeRun(g.asString(v))
    case KEnum =>
      var idx := IndexIn(symbols, g.asString(v));
      EncodeLong(if idx < |symbols| then LenLong(idx) else g.asInt(v))
    case KFixed => Padded(HexOrBytes(g.asString(v)), size)
  }

  /** The object whose members a record is encoded from: a missing value counts as an empty object. */
  function ObjectOf(v: Option<Json>): Json {
    if v.Some? then v.value else JObj([])
  }

  predicate IsNull(v: Option<Json>) {
    v.None? || v.value.JNull?
  }

  /** The first arm from k on that is (or is not) null; the number of arms if there is none. */
  function FirstArm(arms: seq<Schema>, k: nat, wantNull: bool): (a: nat)
    requires k <= |arms|
    ensures k <= a <= |arms| && (a < |arms| ==> arms[a].Null? == wantNull)
    ensures forall i :: k <= i < a ==> arms[i].Null? != wantNull
    decreases |arms| - k
  {
    if k == |arms| || arms[k].Null? == wantNull then k else FirstArm(arms, k + 1, wantNull)
  }

  function Encode(s: Schema, t: Table, g: Reader, v: Option<Json>): seq<byte>
    decreases s, 0
  {
    match s
    case Null => EncodeScalar(KNull, 0, [], g, v)
    case Prim(k) => if IsPrim(k) then EncodeScalar(k, 0, [], g, v) else []
    case Enum(symbols) => EncodeScalar(KEnum, 0, SymbolsOf(t, symbols), g, v)
    case Fixed(size) => EncodeScalar(KFixed, size, [], g, v)
    case Record(_, fields) => EncodeFields(fields, 0, t, g, ObjectOf(v))
    case Array(items) => EncodeList(items, false, t, g, g.pairs(v))
    case Map(values) => EncodeList(values, true, t, g, g.pairs(v))
    case Union(arms) =>
      var a := FirstArm(arms, 0, IsNull(v));
      if a == |arms| then EncodeLong(0)
      else EncodeLong(LenLong(a)) + if IsNull(v) then [] else Encode(arms[a], t, g, v)
    case Other | Ref => []
  }

  function EncodeFields(fields: seq<Field>, k: nat, t: Table, g: Reader, obj: Json): seq<byte>
    requires k <= |fields|
    decreases fields, |fields| - k
  {
    if k == |fields| then []
    else Encode(fields[k].type_, t, g, g.get(obj, fields[k].name)) + EncodeFields(fields, k + 1, t, g, obj)
  }

  /** One block with all items, if there are any, then the end marker. */
  function EncodeList(s: Schema, isMap: bool, t: Table, g: Reader, ms: seq<Member>): seq<byte>
    decreases s, 2
  {
    (if ms == [] then [] else EncodeLong(LenLong(|ms|)) + EncodeItems(s, isMap, t, g, ms)) + EncodeLong(0)
  }

  function EncodeItems(s: Schema, isMap: bool, t: Table, g: Reader, ms: seq<Member>): seq<byte>
    decreases s, 1, |ms|
  {
    if ms == [] then []
    else
      var key := if isMap then EncodeRun(ms[0].key) else [];
      key + Encode(s, t, g, Some(ms[0].value)) + EncodeItems(s, isMap, t, g, ms[1..])
  }

  // ---------- well-typed values ----------

  /** A reader that answers every value of the asked kind faithfully, and is neutral elsewhere. */
  function PlainReader(): Reader {
    Reader(
      (v: Option<Json>) => v.Some? && v.value.JBool? && v.value.b,
      (v: Option<Json>) => if v.Some? && v.value.JInt? then v.value.n else 0,
      (v: Option<Json>, width: nat) => if v.Some? && v.value.JReal? then v.value.bits else 0,
      (v: Option<Json>) => if v.Some? && v.value.JStr? then v.value.s else [],
      (v: Option<Json>) =>
        if v.Some? && v.value.JArr? then Keyless(v.value.items)
        else if v.Some? && v.value.JObj? then v.value.members else [],
      (j: Json, name: Name) => if j.JObj? then FirstMember(j.members, name) else None)
  }

  function Keyless(items: seq<Json>): (ms: seq<Member>)
    ensures Values(ms) == items
  {
    if items == [] then []
    else
      var front := Keyless(items[..|items| - 1]);
      var ms := front + [Member([], items[|items| - 1])];
      assert ms[..|ms| - 1] == front;
      ms
  }

  function FirstMember(ms: seq<Member>, name: Name): Option<Json> {
    if ms == [] then None else if ms[0].key == name then Some(ms[0].value) else FirstMember(ms[1..], name)
  }

  lemma {:induction false} FirstMemberIs(ms: seq<Member>, name: Name, k: nat)
    requires k < |ms| && ms[k].key == name && forall i :: 0 <= i < k ==> ms[i].key != name
    ensures FirstMember(ms, name) == Some(ms[k].value)
  {
    if k > 0 {
      FirstMemberIs(ms[1..], name, k - 1);
    }
  }

  predicate Long(b: seq<byte>) {
    |b| < W63
  }

  predicate IsHexText(s: seq<byte>) {
    HexText(HexOrBytes(s)) == s
  }

  ghost predicate DistinctFields(fields: seq<Field>) {
    forall i, j :: 0 <= i < j < |fields| ==> fields[i].name != fields[j].name
  }

  ghost predicate ScalarTyped(k: Kind, size: nat, symbols: seq<Name>, j: Json)
    requires IsScalar(k)
  {
    match k
    case KNull => j.JNull?
    case KBool => j.JBool?
    case KInt | KLong => j.JInt?
    case KFloat => j.JReal? && j.width == 4 && j.bits < 0x1_0000_0000
    case KDouble => j.JReal? && j.width == 8 && j.bits < W64
    case KBytes => j.JStr? && IsHexText(j.s) && Long(j.s)
    case KString => j.JStr? && Long(j.s)
    case KEnum => j.JStr? && j.s in symbols && |symbols| < W63
    case KFixed => j.JStr? && IsHexText(j.s) && |j.s| == 2 * size
  }

  /** The JSON values the encoder is meant for: unions carry null or a value of the first other arm. */
  ghost predicate Typed(s: Schema, t: Table, j: Json)
    decreases s
  {
    match s
    case Null => j.JNull?
    case Prim(k) => IsPrim(k) && ScalarTyped(k, 0, [], j)
    case Enum(symbols) => ScalarTyped(KEnum, 0, SymbolsOf(t, symbols), j)
    case Fixed(size) => ScalarTyped(KFixed, size, [], j)
    case Record(_, fields) =>
      && j.JObj? && |j.members| == |fields|
      && forall k :: 0 <= k < |fields| ==>
           j.members[k].key == fields[k].name && Typed(fields[k].type_, t, j.members[k].value)
    case Array(items) => j.JArr? && |j.items| < W63 && forall k :: 0 <= k < |j.items| ==> Typed(items, t, j.items[k])
    case Map(values) =>
      && j.JObj? && |j.members| < W63
      && forall k :: 0 <= k < |j.members| ==> Long(j.members[k].key) && Typed(values, t, j.members[k].value)
    case Union(arms) =>
      && |arms| < W63
      && var a := FirstArm(arms, 0, j.JNull?);
         a < |arms| && Typed(arms[a], t, j)
    case Other | Ref => false
  }

  // ---------- what is asked of the JSON library ----------

  /** The library reads this scalar faithfully. */
  ghost predicate ScalarFaithful(g: Reader, k: Kind, j: Json)
    requires IsScalar(k)
  {
    match k
    case KNull => true
    case KBool => j.JBool? ==> g.asBool(Some(j)) == j.b
    case KInt | KLong => j.JInt? ==> g.asInt(Some(j)) == j.n
    case KFloat | KDouble => j.JReal? ==> g.asFloat(Some(j), j.width) == j.bits
    case KBytes | KString | KEnum | KFixed => j.JStr? ==> g.asString(Some(j)) == j.s
  }

  /**
   The library's answers on this document are faithful where its schema has them asked: scalars
   by kind, record fields by name, and the items of arrays and entries of maps in order.
   */
  ghost predicate Faithful(g: Reader, s: Schema, j: Json)
    decreases s
  {
    match s
    case Null | Other | Ref => true
    case Prim(k) => IsPrim(k) ==> ScalarFaithful(g, k, j)
    case Enum(_) => ScalarFaithful(g, KEnum, j)
    case Fixed(_) => ScalarFaithful(g, KFixed, j)
    case Record(_, fields) =>
      j.JObj? && |j.members| == |fields| ==>
        forall k :: 0 <= k < |fields| ==>
          FieldFaithful(g, j, k, fields[k].name) && Faithful(g, fields[k].type_, j.members[k].value)
    case Array(items) =>
      j.JArr? ==>
        && Values(g.pairs(Some(j))) == j.items
        && forall k :: 0 <= k < |j.items| ==> Faithful(g, items, j.items[k])
    case Map(values) =>
      j.JObj? ==>
        && g.pairs(Some(j)) == j.members
        && forall k :: 0 <= k < |j.members| ==> Faithful(g, values, j.members[k].value)
    case Union(arms) =>
      var a := FirstArm(arms, 0, j.JNull?);
      a < |arms| ==> Faithful(g, arms[a], j)
  }

  /** Asked for the name of its k-th member, an object gives that member's value. */
  ghost predicate FieldFaithful(g: Reader, j: Json, k: nat, name: Name)
    requires j.JObj? && k < |j.members|
  {
    g.get(j, name) == Some(j.members[k].value)
  }

  /** No name is asked for twice in a record, anywhere in the schema. */
  ghost predicate NamesDiffer(s: Schema)
    decreases s
  {
    match s
    case Record(_, fields) => DistinctFields(fields) && forall k :: 0 <= k < |fields| ==> NamesDiffer(fields[k].type_)
    case Array(items) => NamesDiffer(items)
    case Map(values) => NamesDiffer(values)
    case Union(arms) => forall k :: 0 <= k < |arms| ==> NamesDiffer(arms[k])
    case _ => true
  }

  /** The plain reader is faithful on every document of every schema whose records name their fields apart. */
  lemma {:induction false} PlainIsFaithful(s: Schema, t: Table, j: Json)
    requires Typed(s, t, j) && NamesDiffer(s)
    ensures Faithful(PlainReader(), s, j)
    decreases s
  {
    hide ScalarTyped, FirstArm, FirstMember;
    match s
    case Record(_, fields) =>
      forall k | 0 <= k < |fields|
        ensures FieldFaithful(PlainReader(), j, k, fields[k].name)
        ensures Faithful(PlainReader(), fields[k].type_, j.members[k].value)
      {
        FirstMemberIs(j.members, fields[k].name, k);
        PlainIsFaithful(fields[k].type_, t, j.members[k].value);
      }
    case Array(items) =>
      forall k | 0 <= k < |j.items|
        ensures Faithful(PlainReader(), items, j.items[k])
      {
        PlainIsFaithful(items, t, j.items[k]);
      }
    case Map(values) =>
      forall k | 0 <= k < |j.members|
        ensures Faithful(PlainReader(), values, j.members[k].value)
      {
        PlainIsFaithful(values, t, j.members[k].value);
      }
    case Union(arms) => PlainIsFaithful(arms[FirstArm(arms, 0, j.JNull?)], t, j);
    case _ =>
  }

  // ---------- round trip ----------

  lemma RunRoundTrip(b: seq<byte>, rest: seq<byte>)
    requires Long(b)
    ensures ReadRun(EncodeRun(b) + rest) == Bytes(b, rest)
  {
    hide EncodeLong, ReadLong;
    LenLongIs(|b|);
    LongRoundTrip(|b|, b + rest);
    assert EncodeRun(b) + rest == EncodeLong(|b|) + (b + rest);
    assert (b + rest)[..|b|] == b && (b + rest)[|b|..] == rest;
  }

  lemma Pow256Is()
    ensures Pow256(4) == 0x1_0000_0000 && Pow256(8) == W64
  {
    assert Pow256(2) == 0x1_0000;
    assert Pow256(4) == 0x100 * 0x100 * Pow256(2);
    assert Pow256(6) == 0x100 * 0x100 * Pow256(4);
    assert Pow256(8) == 0x100 * 0x100 * Pow256(6);
  }

  lemma ScalarRoundTrip(k: Kind, size: nat, symbols: seq<Name>, g: Reader, j: Json, rest: seq<byte>)
    requires IsScalar(k) && ScalarFaithful(g, k, j) && ScalarTyped(k, size, symbols, j)
    ensures Scalar(k, size, symbols, EncodeScalar(k, size, symbols, g, Some(j)) + rest) == Good(j, rest)
  {
    hide EncodeLong, ReadLong, HexText, HexOrBytes, LittleEndian, LowBytes, EncodeRun, ReadRun, LenLong;
    var b := EncodeScalar(k, size, symbols, g, Some(j));
    var src := b + rest;
    assert src[..|b|] == b && src[|b|..] == rest;
    match k
    case KInt | KLong => LongRoundTrip(j.n, rest);
    case KFloat => Pow256Is(); LowBytesRoundTrip(j.bits, 4, Pow256(4));
    case KDouble => Pow256Is(); LowBytesRoundTrip(j.bits, 8, Pow256(8));
    case KBytes =>
      HexShorter(j.s);
      RunRoundTrip(HexOrBytes(j.s), rest);
    case KString => RunRoundTrip(j.s, rest);
    case KEnum =>
      var idx := IndexIn(symbols, j.s);
      LenLongIs(idx);
      LongRoundTrip(idx, rest);
    case KFixed =>
      HexShorter(j.s);
      assert HexOrBytes(j.s)[..size] == HexOrBytes(j.s) == b;
    case _ =>
  }

  lemma HexShorter(s: seq<byte>)
    requires IsHexText(s)
    ensures 2 * |HexOrBytes(s)| == |s|
  {}

  /**
   Decoding what was encoded from a well-typed value, with anything behind it, gives the value and
   what was behind it.
   */
  lemma {:induction false} RoundTrip(s: Schema, t: Table, g: Reader, j: Json, rest: seq<byte>)
    requires Faithful(g, s, j) && Typed(s, t, j)
    ensures Decode(s, t, Encode(s, t, g, Some(j)) + rest) == Good(j, rest)
    decreases s, 0
  {
    hide Scalar, EncodeScalar, ScalarTyped, ScalarFaithful, EncodeLong, ReadLong, Suffix, EncodeFields, EncodeList,
         DecodeFields, DecodeBlocks, FirstArm;
    match s
    case Null =>
      NullTyped(g, j);
      ScalarRoundTrip(KNull, 0, [], g, j, rest);
    case Prim(k) => ScalarRoundTrip(k, 0, [], g, j, rest);
    case Enum(symbols) => ScalarRoundTrip(KEnum, 0, SymbolsOf(t, symbols), g, j, rest);
    case Fixed(size) => ScalarRoundTrip(KFixed, size, [], g, j, rest);
    case Record(_, fields) => FieldsRoundTrip(fields, 0, t, g, j.members, rest, []);
    case Array(items) =>
      ArrayPairs(g, j.items);
      ListRoundTrip(items, false, t, g, g.pairs(Some(j)), rest);
    case Map(values) =>
      ListRoundTrip(values, true, t, g, g.pairs(Some(j)), rest);
    case Union(arms) => UnionRoundTrip(arms, t, g, j, rest);
    case Other | Ref =>
  }

  lemma NullTyped(g: Reader, j: Json)
    requires j.JNull?
    ensures ScalarTyped(KNull, 0, [], j) && ScalarFaithful(g, KNull, j)
  {}

  lemma ArrayPairs(g: Reader, items: seq<Json>)
    requires Values(g.pairs(Some(JArr(items)))) == items
    ensures |g.pairs(Some(JArr(items)))| == |items|
    ensures forall k :: 0 <= k < |items| ==> g.pairs(Some(JArr(items)))[k].value == items[k]
  {
    ValuesAt(g.pairs(Some(JArr(items))));
  }

  lemma {:induction false} ValuesAt(ms: seq<Member>)
    ensures forall k :: 0 <= k < |ms| ==> Values(ms)[k] == ms[k].value
  {
    if ms != [] {
      ValuesAt(ms[..|ms| - 1]);
    }
  }

  lemma {:induction false} UnionRoundTrip(arms: seq<Schema>, t: Table, g: Reader, j: Json, rest: seq<byte>)
    requires Faithful(g, Union(arms), j) && Typed(Union(arms), t, j)
    ensures Decode(Union(arms), t, Encode(Union(arms), t, g, Some(j)) + rest) == Good(j, rest)
    decreases arms, 0
  {
    hide Scalar, EncodeScalar, ScalarTyped, ScalarFaithful, EncodeLong, ReadLong, Suffix;
    var a := FirstArm(arms, 0, j.JNull?);
    var tail := (if j.JNull? then [] else Encode(arms[a], t, g, Some(j))) + rest;
    LenLongIs(a);
    LongRoundTrip(a, tail);
    assert Encode(Union(arms), t, g, Some(j)) + rest == EncodeLong(a) + tail;
    if j.JNull? {
      NullTyped(g, j);
      ScalarRoundTrip(KNull, 0, [], g, j, rest);
      NullEncodesNothing(g, j);
      assert tail == rest;
    } else {
      RoundTrip(arms[a], t, g, j, rest);
    }
  }

  lemma NullEncodesNothing(g: Reader, j: Json)
    ensures EncodeScalar(KNull, 0, [], g, Some(j)) == []
  {}

  lemma {:induction false} FieldsRoundTrip(fields: seq<Field>, k: nat, t: Table, g: Reader, ms: seq<Member>,
      rest: seq<byte>, acc: seq<Member>)
    requires k <= |fields| && |ms| == |fields|
    requires forall i :: 0 <= i < |fields| ==>
      FieldFaithful(g, JObj(ms), i, fields[i].name) && Faithful(g, fields[i].type_, ms[i].value)
    requires forall i :: 0 <= i < |fields| ==> ms[i].key == fields[i].name && Typed(fields[i].type_, t, ms[i].value)
    ensures DecodeFields(fields, k, t, EncodeFields(fields, k, t, g, JObj(ms)) + rest, acc) ==
            Entries(acc + ms[k..], rest)
    decreases fields, |fields| - k
  {
    hide Faithful, Typed, Suffix, Decode, Encode;
    if k < |fields| {
      var f := fields[k];
      var b, tail := Encode(f.type_, t, g, Some(ms[k].value)), EncodeFields(fields, k + 1, t, g, JObj(ms)) + rest;
      RoundTrip(f.type_, t, g, ms[k].value, tail);
      assert EncodeFields(fields, k, t, g, JObj(ms)) + rest == b + tail;
      FieldsRoundTrip(fields, k + 1, t, g, ms, rest, acc + [Member(f.name, ms[k].value)]);
      assert acc + [ms[k]] + ms[k + 1..] == acc + ms[k..];
    }
  }

  ghost predicate EntriesFaithful(g: Reader, s: Schema, ms: seq<Member>) {
    forall k :: 0 <= k < |ms| ==> Faithful(g, s, ms[k].value)
  }

  lemma {:induction false} ListRoundTrip(s: Schema, isMap: bool, t: Table, g: Reader, ms: seq<Member>, rest: seq<byte>)
    requires |ms| < W63 && EntriesTyped(s, isMap, t, ms) && EntriesFaithful(g, s, ms)
    ensures var r := DecodeBlocks(s, isMap, t, EncodeList(s, isMap, t, g, ms) + rest, []);
            r == Entries(Plain(isMap, ms), rest) && Listing(isMap, r.entries) == Listing(isMap, ms)
    decreases s, 2
  {
    hide EntriesFaithful, EntriesTyped, Suffix, DecodeItems, EncodeItems, EncodeLong, ReadLong, Values, Plain;
    PlainListing(isMap, ms);
    LongRoundTrip(0, rest);
    if ms == [] {
      assert EncodeList(s, isMap, t, g, ms) + rest == EncodeLong(0) + rest;
    } else {
      LenLongIs(|ms|);
      var end := EncodeLong(0) + rest;
      var body := EncodeItems(s, isMap, t, g, ms) + end;
      LongRoundTrip(|ms|, body);
      assert EncodeList(s, isMap, t, g, ms) + rest == EncodeLong(|ms|) + body;
      ItemsRoundTrip(s, isMap, t, g, ms, end, []);
      assert [] + Plain(isMap, ms) == Plain(isMap, ms);
    }
  }

  lemma {:induction false} ItemsRoundTrip(s: Schema, isMap: bool, t: Table, g: Reader, ms: seq<Member>, rest: seq<byte>,
      acc: seq<Member>)
    requires EntriesTyped(s, isMap, t, ms) && EntriesFaithful(g, s, ms)
    ensures DecodeItems(s, isMap, t, |ms|, EncodeItems(s, isMap, t, g, ms) + rest, acc) ==
            Entries(acc + Plain(isMap, ms), rest)
    decreases s, 1, |ms|
  {
    hide Faithful, Suffix, Decode, Encode, EncodeItems, ReadKey, Typed, KeyBytes, Plain;
    if ms == [] {
      NothingEncoded(s, isMap, t, g, rest);
      assert acc + Plain(isMap, ms) == acc;
    } else {
      var m := ms[0];
      var tail := EncodeItems(s, isMap, t, g, ms[1..]) + rest;
      var value := Encode(s, t, g, Some(m.value));
      var key := if isMap then m.key else [];
      ItemsSplit(s, isMap, t, g, ms, rest);
      KeyRoundTrip(isMap, m.key, value + tail);
      RoundTrip(s, t, g, m.value, tail);
      ItemsRoundTrip(s, isMap, t, g, ms[1..], rest, acc + [Member(key, m.value)]);
      PlainSplit(isMap, ms, acc);
    }
  }

  function KeyBytes(isMap: bool, key: seq<byte>): seq<byte> {
    if isMap then EncodeRun(key) else []
  }

  lemma NothingEncoded(s: Schema, isMap: bool, t: Table, g: Reader, rest: seq<byte>)
    ensures EncodeItems(s, isMap, t, g, []) + rest == rest
  {}

  lemma ItemsSplit(s: Schema, isMap: bool, t: Table, g: Reader, ms: seq<Member>, rest: seq<byte>)
    requires ms != []
    ensures EncodeItems(s, isMap, t, g, ms) + rest ==
            KeyBytes(isMap, ms[0].key)
                + (Encode(s, t, g, Some(ms[0].value)) + (EncodeItems(s, isMap, t, g, ms[1..]) + rest))
  {
    hide Encode, EncodeRun;
  }

  lemma KeyRoundTrip(isMap: bool, key: seq<byte>, rest: seq<byte>)
    requires isMap ==> Long(key)
    ensures ReadKey(isMap, KeyBytes(isMap, key) + rest) == Bytes(if isMap then key else [], rest)
  {
    hide EncodeRun, ReadRun;
    if isMap {
      RunRoundTrip(key, rest);
    } else {
      assert [] + rest == rest;
    }
  }

  lemma PlainSplit(isMap: bool, ms: seq<Member>, acc: seq<Member>)
    requires ms != []
    ensures acc + [Member(if isMap then ms[0].key else [], ms[0].value)] + Plain(isMap, ms[1..]) ==
            acc + Plain(isMap, ms)
  {
    Assoc(acc, [Member(if isMap then ms[0].key else [], ms[0].value)], Plain(isMap, ms[1..]));
  }

  /** Array items come back without keys. */
  function Plain(isMap: bool, ms: seq<Member>): (r: seq<Member>)
    ensures |r| == |ms|
  {
    if ms == [] then [] else [Member(if isMap then ms[0].key else [], ms[0].value)] + Plain(isMap, ms[1..])
  }

  lemma {:induction false} PlainAt(isMap: bool, ms: seq<Member>)
    ensures forall k :: 0 <= k < |ms| ==> Plain(isMap, ms)[k] == Member(if isMap then ms[k].key else [], ms[k].value)
  {
    if ms != [] {
      PlainAt(isMap, ms[1..]);
    }
  }

  lemma PlainListing(isMap: bool, ms: seq<Member>)
    ensures Listing(isMap, Plain(isMap, ms)) == Listing(isMap, ms)
    ensures ms == [] ==> Plain(isMap, ms) == []
  {
    PlainAt(isMap, ms);
    ValuesAt(ms);
    ValuesAt(Plain(isMap, ms));
    assert isMap ==> Plain(isMap, ms) == ms;
    assert Values(Plain(isMap, ms)) == Values(ms);
  }

  /** Every entry is well-typed, and its key has an encodable length. */
  ghost predicate EntriesTyped(s: Schema, isMap: bool, t: Table, ms: seq<Member>) {
    forall k :: 0 <= k < |ms| ==> (isMap ==> Long(ms[k].key)) && Typed(s, t, ms[k].value)
  }
}
