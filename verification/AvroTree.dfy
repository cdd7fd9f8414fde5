/** Avro schemas as trees, and the direct recursive decoder over them. */
module AvroTree {
  import opened Machine
  import opened JsonText
  import opened AvroWire

  type Name = seq<byte>

  /** A parsed schema; Other stands for a primitive type the compiler does not know, Ref for a named reference. */
  datatype Schema =
    | Null
    | Prim(kind: Kind)
    | Other
    | Record(name: Name, fields: seq<Field>)
    | Enum(symbols: seq<Name>)
    | Array(items: Schema)
    | Map(values: Schema)
    | Union(arms: seq<Schema>)
    | Fixed(size: nat)
    | Ref
  datatype Field = Field(name: Name, type_: Schema)

  /** The enum symbols a decoder uses: one table for all enums, or each enum's own. */
  datatype Table = Shared(symbols: seq<Name>) | Own

  function SymbolsOf(t: Table, own: seq<Name>): seq<Name> {
    if t.Shared? then t.symbols else own
  }

  predicate IsPrim(k: Kind) {
    k in {KBool, KInt, KLong, KFloat, KDouble, KBytes, KString}
  }

  /** The op kind of a schema that compiles; unsupported ones have none. */
  function KindOf(s: Schema): Option<Kind> {
    match s
    case Null => Some(KNull)
    case Prim(k) => if IsPrim(k) then Some(k) else None
    case Record(_, _) => Some(KRecord)
    case Enum(_) => Some(KEnum)
    case Array(_) => Some(KArray)
    case Map(_) => Some(KMap)
    case Union(_) => Some(KUnion)
    case Fixed(_) => Some(KFixed)
    case Other | Ref => None
  }

  // ---------- direct decoding ----------

  /** Decodes one value; schemas that do not compile decode nothing. */
  function Decode(s: Schema, t: Table, src: seq<byte>): (r: Outcome)
    ensures Suffix(r.rest, src)
    decreases s, 0
  {
    match s
    case Null => Scalar(KNull, 0, [], src)
    case Prim(k) => if IsPrim(k) then Scalar(k, 0, [], src) else Bad(src)
    case Enum(symbols) => Scalar(KEnum, 0, SymbolsOf(t, symbols), src)
    case Fixed(size) => Scalar(KFixed, size, [], src)
    case Record(_, fields) => ToOutcome(true, DecodeFields(fields, 0, t, src, []))
    case Array(items) => ToOutcome(false, DecodeBlocks(items, false, t, src, []))
    case Map(values) => ToOutcome(true, DecodeBlocks(values, true, t, src, []))
    case Union(arms) => (
      match ReadArm(src, |arms|)
      case NoArm(rest) => Bad(rest)
      case Arm(k, rest) => Decode(arms[k], t, rest))
    case Other | Ref => Bad(src)
  }

  /** Fields k onward, appended to the ones already decoded. */
  function DecodeFields(fields: seq<Field>, k: nat, t: Table, src: seq<byte>, acc: seq<Member>): (r: Listed)
    requires k <= |fields|
    ensures Suffix(r.rest, src)
    decreases fields, |fields| - k
  {
    if k == |fields| then Entries(acc, src)
    else
      match Decode(fields[k].type_, t, src)
      case Bad(rest) => Broken(rest)
      case Good(j, rest) => DecodeFields(fields, k + 1, t, rest, acc + [Member(fields[k].name, j)])
  }

  /** Blocks until the zero count. */
  function DecodeBlocks(s: Schema, isMap: bool, t: Table, src: seq<byte>, acc: seq<Member>): (r: Listed)
    ensures Suffix(r.rest, src)
    decreases s, 2, |src|
  {
    match ReadBlock(src)
    case NoBlock(rest) => Broken(rest)
    case End(rest) => Entries(acc, rest)
    case Items(count, rest) =>
      match DecodeItems(s, isMap, t, count, rest, acc)
      case Broken(rest') => Broken(rest')
      case Entries(acc', rest') => DecodeBlocks(s, isMap, t, rest', acc')
  }

  /** The items of one block, each preceded by its key in a map. */
  function DecodeItems(s: Schema, isMap: bool, t: Table, count: nat, src: seq<byte>, acc: seq<Member>): (r: Listed)
    ensures Suffix(r.rest, src)
    decreases s, 1, count
  {
    if count == 0 then Entries(acc, src)
    else
      match ReadKey(isMap, src)
      case NoBytes(rest) => Broken(rest)
      case Bytes(key, rest) =>
        match Decode(s, t, rest)
        case Bad(rest') => Broken(rest')
        case Good(j, rest') => DecodeItems(s, isMap, t, count - 1, rest', acc + [Member(key, j)])
  }
}
