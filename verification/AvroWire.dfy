/** What both decoders share: op kinds, scalar values and block headers of the Avro binary encoding. */
module AvroWire {
  import opened Machine
  import opened Varint
  import opened JsonText

  datatype Kind =
    | KNull | KBool | KInt | KLong | KFloat | KDouble | KBytes | KString
    | KRecord | KEnum | KArray | KMap | KUnion | KFixed

  /** A decoded value and the input after it, or the input at the point of failure. */
  datatype Outcome = Good(json: Json, rest: seq<byte>) | Bad(rest: seq<byte>)

  /** Decoded array items (with empty keys) or map entries, and the input after them. */
  datatype Listed = Entries(entries: seq<Member>, rest: seq<byte>) | Broken(rest: seq<byte>)

  predicate Suffix(rest: seq<byte>, src: seq<byte>) {
    |rest| <= |src| && rest == src[|src| - |rest|..]
  }

  /** A length-prefixed run of bytes. */
  datatype Run = Bytes(bytes: seq<byte>, rest: seq<byte>) | NoBytes(rest: seq<byte>)

  function ReadRun(src: seq<byte>): (r: Run)
    ensures Suffix(r.rest, src)
    ensures r.Bytes? ==> |r.rest| < |src|
  {
    match ReadLong(src)
    case None => NoBytes(src)
    case Some(g) =>
      var s := src[g.used..];
      if g.value < 0 || g.value > |s| then NoBytes(s) else Bytes(s[..g.value], s[g.value..])
  }

  /** The key of a map entry; array items have none. */
  function ReadKey(isMap: bool, src: seq<byte>): (r: Run)
    ensures Suffix(r.rest, src)
  {
    if isMap then ReadRun(src) else Bytes([], src)
  }

  predicate IsScalar(k: Kind) {
    !k.KRecord? && !k.KArray? && !k.KMap? && !k.KUnion?
  }

  /** Every kind without children. Enum symbols are looked up in a table; other indices print as numbers. */
  function Scalar(k: Kind, size: nat, symbols: seq<seq<byte>>, src: seq<byte>): (r: Outcome)
    requires IsScalar(k)
    ensures Suffix(r.rest, src)
  {
    match k
    case KNull => Good(JNull, src)
    case KBool => if |src| < 1 then Bad(src) else Good(JBool(src[0] != 0), src[1..])
    case KInt | KLong => (
      match ReadLong(src)
      case None => Bad(src)
      case Some(g) => Good(JInt(g.value), src[g.used..]))
    case KFloat => if |src| < 4 then Bad(src) else Good(JReal(LittleEndian(src[..4]), 4), src[4..])
    case KDouble => if |src| < 8 then Bad(src) else Good(JReal(LittleEndian(src[..8]), 8), src[8..])
    case KBytes => (
      match ReadRun(src)
      case NoBytes(rest) => Bad(rest)
      case Bytes(b, rest) => Good(JStr(HexText(b)), rest))
    case KString => (
      match ReadRun(src)
      case NoBytes(rest) => Bad(rest)
      case Bytes(b, rest) => Good(JStr(b), rest))
    case KEnum => (
      match ReadLong(src)
      case None => Bad(src)
      case Some(g) =>
        Good(if 0 <= g.value < |symbols| then JStr(symbols[g.value]) else JInt(g.value), src[g.used..]))
    case KFixed => if |src| < size then Bad(src) else Good(JStr(HexText(src[..size])), src[size..])
  }

  /** The head of an array or map block. */
  datatype Block = Items(count: nat, rest: seq<byte>) | End(rest: seq<byte>) | NoBlock(rest: seq<byte>)

  /** Negating the least 64-bit integer gives itself, so such a block has no items. */
  function AbsCount(count: Int64): nat {
    if count >= 0 then count else if count == -W63 then 0 else -(count as int)
  }

  /** Zero ends the list; a negative count is followed by the block's size in bytes, which is not used. */
  function ReadBlock(src: seq<byte>): (r: Block)
    ensures Suffix(r.rest, src)
    ensures !r.NoBlock? ==> |r.rest| < |src|
  {
    match ReadLong(src)
    case None => NoBlock(src)
    case Some(g) =>
      var s := src[g.used..];
      if g.value == 0 then End(s)
      else if g.value > 0 then Items(g.value, s)
      else
        match ReadLong(s)
        case None => NoBlock(s)
        case Some(h) => Items(AbsCount(g.value), s[h.used..])
  }

  /**
   Both forms of a block head: a positive count, or a negative one with any byte size behind it,
   announce the same items.
   */
  lemma BlockForms(n: Int64, size: Int64, rest: seq<byte>)
    ensures n == 0 ==> ReadBlock(EncodeLong(n) + rest) == End(rest)
    ensures n > 0 ==> ReadBlock(EncodeLong(n) + rest) == Items(n, rest)
    ensures -W63 < n < 0 ==> ReadBlock(EncodeLong(n) + (EncodeLong(size) + rest)) == Items(-(n as int), rest)
    ensures n == -W63 ==> ReadBlock(EncodeLong(n) + (EncodeLong(size) + rest)) == Items(0, rest)
  {
    hide EncodeLong, ReadLong, Suffix;
    LongRoundTrip(n, rest);
    LongRoundTrip(n, EncodeLong(size) + rest);
    LongRoundTrip(size, rest);
  }

  /** A union's arm number, or none if it is missing or out of range. */
  datatype Arm = Arm(index: nat, rest: seq<byte>) | NoArm(rest: seq<byte>)

  function ReadArm(src: seq<byte>, arms: nat): (r: Arm)
    ensures Suffix(r.rest, src)
    ensures r.Arm? ==> r.index < arms
  {
    match ReadLong(src)
    case None => NoArm(src)
    case Some(g) =>
      var s := src[g.used..];
      if g.value < 0 || g.value >= arms then NoArm(s) else Arm(g.value, s)
  }

  function Values(entries: seq<Member>): (v: seq<Json>)
    ensures |v| == |entries|
  {
    if entries == [] then [] else Values(entries[..|entries| - 1]) + [entries[|entries| - 1].value]
  }

  /** Arrays keep the values, maps the keys too. */
  function Listing(isMap: bool, entries: seq<Member>): Json {
    if isMap then JObj(entries) else JArr(Values(entries))
  }

  function ToOutcome(isMap: bool, l: Listed): Outcome {
    match l
    case Entries(entries, rest) => Good(Listing(isMap, entries), rest)
    case Broken(rest) => Bad(rest)
  }
}
