/** JSON values and their text, as the decoder prints them byte by byte. */
module JsonText {
  import opened Machine
  import opened Varint

  const QUOTE: byte := 0x22
  const BACKSLASH: byte := 0x5C
  const COMMA: byte := 0x2C
  const COLON: byte := 0x3A
  const LBRACKET: byte := 0x5B
  const RBRACKET: byte := 0x5D
  const LBRACE: byte := 0x7B
  const RBRACE: byte := 0x7D
  const MINUS: byte := 0x2D
  const ZERO: byte := 0x30
  const SMALL_A: byte := 0x61
  const NULL_TEXT: seq<byte> := [0x6E, 0x75, 0x6C, 0x6C]
  const TRUE_TEXT: seq<byte> := [0x74, 0x72, 0x75, 0x65]
  const FALSE_TEXT: seq<byte> := [0x66, 0x61, 0x6C, 0x73, 0x65]

  /** A JSON value; floating-point numbers are kept as their IEEE bit pattern and width in bytes. */
  datatype Json =
    | JNull
    | JBool(b: bool)
    | JInt(n: Int64)
    | JReal(bits: nat, width: nat)
    | JStr(s: seq<byte>)
    | JArr(items: seq<Json>)
    | JObj(members: seq<Member>)
  datatype Member = Member(key: seq<byte>, value: Json)

  /** The text of a floating-point value, given its bits and width. */
  type FloatText = (nat, nat) -> seq<byte>

  // ---------- integers ----------

  function Digits(u: nat): (d: seq<byte>)
    ensures d != []
  {
    if u < 10 then [ZERO + u] else Digits(u / 10) + [ZERO + u % 10]
  }

  function IntText(n: Int64): seq<byte> {
    if n < 0 then [MINUS] + Digits(-(n as int)) else Digits(n)
  }

  function Pow10(k: nat): nat {
    if k == 0 then 1 else 10 * Pow10(k - 1)
  }

  lemma Pow10Nineteen()
    ensures Pow10(19) == 10_000_000_000_000_000_000
  {
    assert Pow10(5) == 100_000;
    assert Pow10(10) == 100_000 * Pow10(5);
    assert Pow10(15) == 100_000 * Pow10(10);
    assert Pow10(19) == 10_000 * Pow10(15);
  }

  /** Writes the digits at the end of the buffer; at least one byte stays free in front of them. */
  method FillDigits(buf: array<byte>, size: nat) returns (pos: nat)
    requires 0 < buf.Length && 0 < size < Pow10(buf.Length - 1)
    modifies buf
    ensures 0 < pos <= buf.Length && buf[pos..] == Digits(size)
  {
    hide Pow10, Digits, Lead;
    pos := buf.Length;
    var u: nat := size;
    LeadIs(size);
    while u > 0
      invariant 0 < pos <= buf.Length && u < Pow10(pos - 1)
      invariant Lead(size) == Lead(u) + buf[pos..]
    {
      DropDigit(u, pos - 1);
      LeadStep(u);
      var d: byte := ZERO + u % 10;
      ghost var tail := buf[pos..];
      pos := pos - 1;
      buf[pos] := d;
      assert buf[pos..] == [d] + tail;
      assert Lead(u / 10) + [d] + tail == Lead(u / 10) + ([d] + tail);
      u := u / 10;
    }
    LeadIs(0);
  }

  /** The 20-byte buffer always suffices: 19 digits and a sign. */
  method AppendInt64(dst: seq<byte>, n: Int64) returns (out: seq<byte>)
    ensures out == dst + IntText(n)
  {
    if n == 0 {
      return dst + [ZERO];
    }
    hide Pow10, Digits;
    Pow10Nineteen();
    var buf := new byte[20];
    var size: nat := if n < 0 then -(n as int) else n;
    var pos := FillDigits(buf, size);
    if n < 0 {
      ghost var tail := buf[pos..];
      pos := pos - 1;
      buf[pos] := MINUS;
      assert buf[pos..] == [MINUS] + tail;
    }
    return dst + buf[pos..];
  }

  /** The digits of u, none for zero. */
  function Lead(u: nat): seq<byte> {
    if u == 0 then [] else Digits(u)
  }

  lemma LeadIs(u: nat)
    ensures u == 0 ==> Lead(u) == []
    ensures u > 0 ==> Lead(u) == Digits(u)
  {}

  lemma LeadStep(u: nat)
    requires u > 0
    ensures Lead(u) == Lead(u / 10) + [ZERO + u % 10]
  {}

  lemma DropDigit(u: nat, k: nat)
    requires 0 < u < Pow10(k)
    ensures k > 0 && u / 10 < Pow10(k - 1)
  {}

  function DigitsValue(d: seq<byte>): nat
    requires forall i :: 0 <= i < |d| ==> ZERO <= d[i] < ZERO + 10
  {
    if d == [] then 0 else 10 * DigitsValue(d[..|d| - 1]) + (d[|d| - 1] - ZERO)
  }

  /** The decimal text of a number reads back as that number. */
  lemma {:induction false} DigitsReadBack(u: nat)
    ensures forall i :: 0 <= i < |Digits(u)| ==> ZERO <= Digits(u)[i] < ZERO + 10
    ensures DigitsValue(Digits(u)) == u
  {
    if u >= 10 {
      DigitsReadBack(u / 10);
      assert Digits(u)[..|Digits(u)| - 1] == Digits(u / 10);
    }
  }

  // ---------- strings ----------

  function HexNibble(n: byte): byte
    requires n < 16
  {
    if n < 10 then ZERO + n else SMALL_A + n - 10
  }

  function EscapeByte(c: byte): seq<byte> {
    if c == QUOTE then [BACKSLASH, QUOTE]
    else if c == BACKSLASH then [BACKSLASH, BACKSLASH]
    else if c == 0x0A then [BACKSLASH, 0x6E]
    else if c == 0x0D then [BACKSLASH, 0x72]
    else if c == 0x09 then [BACKSLASH, 0x74]
    else if c < 0x20 then [BACKSLASH, 0x75, ZERO, ZERO, HexNibble(c / 16), HexNibble(c % 16)]
    else [c]
  }

  function EscapeText(s: seq<byte>): seq<byte> {
    if s == [] then [] else EscapeText(s[..|s| - 1]) + EscapeByte(s[|s| - 1])
  }

  function StringText(s: seq<byte>): seq<byte> {
    [QUOTE] + EscapeText(s) + [QUOTE]
  }

  method AppendEscaped(dst: seq<byte>, c: byte) returns (out: seq<byte>)
    ensures out == dst + EscapeByte(c)
  {
    match c
    case 0x22 => out := dst + [BACKSLASH, QUOTE];
    case 0x5C => out := dst + [BACKSLASH, BACKSLASH];
    case 0x0A => out := dst + [BACKSLASH, 0x6E];
    case 0x0D => out := dst + [BACKSLASH, 0x72];
    case 0x09 => out := dst + [BACKSLASH, 0x74];
    case _ =>
      if c < 0x20 {
        out := dst + [BACKSLASH, 0x75, ZERO, ZERO, HexNibble(c / 16), HexNibble(c % 16)];
      } else {
        out := dst + [c];
      }
  }

  method AppendJSONString(dst: seq<byte>, s: seq<byte>) returns (out: seq<byte>)
    ensures out == dst + StringText(s)
  {
    hide EscapeByte;
    out := dst + [QUOTE];
    for i := 0 to |s|
      invariant out == dst + [QUOTE] + EscapeText(s[..i])
    {
      assert s[..i + 1][..i] == s[..i];
      out := AppendEscaped(out, s[i]);
    }
    assert s[..|s|] == s;
    out := out + [QUOTE];
  }

  // ---------- hex ----------

  function HexText(b: seq<byte>): (h: seq<byte>)
    ensures |h| == 2 * |b|
  {
    if b == [] then [] else HexText(b[..|b| - 1]) + [HexNibble(b[|b| - 1] / 16), HexNibble(b[|b| - 1] % 16)]
  }

  /** Prints bytes as a quoted hex string. */
  method AppendJSONBytes(dst: seq<byte>, b: seq<byte>) returns (out: seq<byte>)
    ensures out == dst + [QUOTE] + HexText(b) + [QUOTE]
  {
    out := dst + [QUOTE];
    for i := 0 to |b|
      invariant out == dst + [QUOTE] + HexText(b[..i])
    {
      assert b[..i + 1][..i] == b[..i];
      out := out + [HexNibble(b[i] / 16), HexNibble(b[i] % 16)];
    }
    assert b[..|b|] == b;
    out := out + [QUOTE];
  }

  /** Hex text needs no escaping, so the printed bytes are the text of a JSON string. */
  lemma {:induction false} HexNeedsNoEscape(h: seq<byte>)
    requires forall i :: 0 <= i < |h| ==> h[i] >= 0x20 && h[i] != QUOTE && h[i] != BACKSLASH
    ensures EscapeText(h) == h
  {
    hide EscapeByte;
    if h != [] {
      var front, last := h[..|h| - 1], h[|h| - 1];
      HexNeedsNoEscape(front);
      PlainByte(last);
      assert h == front + [last];
    }
  }

  lemma PlainByte(c: byte)
    requires c >= 0x20 && c != QUOTE && c != BACKSLASH
    ensures EscapeByte(c) == [c]
  {}

  lemma {:induction false} HexIsPlain(b: seq<byte>)
    ensures forall i :: 0 <= i < |HexText(b)| ==> HexVal(HexText(b)[i]).Some?
    ensures forall i :: 0 <= i < |HexText(b)| ==>
              HexText(b)[i] >= 0x20 && HexText(b)[i] != QUOTE && HexText(b)[i] != BACKSLASH
  {
    if b != [] {
      HexIsPlain(b[..|b| - 1]);
    }
  }

  function HexVal(c: byte): (v: Option<byte>)
    ensures v.Some? ==> v.value < 16
  {
    if 0x30 <= c <= 0x39 then Some(c - 0x30)
    else if 0x61 <= c <= 0x66 then Some(c - 0x61 + 10)
    else if 0x41 <= c <= 0x46 then Some(c - 0x41 + 10)
    else None
  }

  predicate AllHex(s: seq<byte>) {
    forall i :: 0 <= i < |s| ==> HexVal(s[i]).Some?
  }

  function HexPairs(s: seq<byte>): (b: seq<byte>)
    requires |s| % 2 == 0 && AllHex(s)
    ensures 2 * |b| == |s|
  {
    if s == [] then [] else HexPairs(s[..|s| - 2]) + [16 * HexVal(s[|s| - 2]).value + HexVal(s[|s| - 1]).value]
  }

  /** The decoded bytes of a hex string of even length, or the string itself. */
  function HexOrBytes(s: seq<byte>): seq<byte> {
    if |s| % 2 == 0 && AllHex(s) then HexPairs(s) else s
  }

  method HexDecodeOrBytes(s: seq<byte>) returns (out: seq<byte>)
    ensures out == HexOrBytes(s)
  {
    hide HexVal, HexPairs, AllHex;
    if |s| % 2 != 0 {
      return s;
    }
    var bytes := new byte[|s| / 2](_ => 0);
    var i := 0;
    NoPairs(s);
    while i < |s|
      invariant 0 <= i <= |s| && i % 2 == 0
      invariant AllHex(s[..i]) && bytes[..i / 2] == HexPairs(s[..i])
    {
      var hi, lo := HexVal(s[i]), HexVal(s[i + 1]);
      if hi.None? || lo.None? {
        NotHex(s, i);
        return s;
      }
      NextPair(s, i);
      bytes[i / 2] := 16 * hi.value + lo.value;
      assert bytes[..i / 2 + 1] == bytes[..i / 2] + [bytes[i / 2]];
      i := i + 2;
    }
    assert s[..|s|] == s;
    return bytes[..];
  }

  lemma NoPairs(s: seq<byte>)
    ensures AllHex(s[..0]) && HexPairs(s[..0]) == []
  {}

  /** Two more hex digits give one more byte. */
  lemma NextPair(s: seq<byte>, i: nat)
    requires i + 2 <= |s| && i % 2 == 0 && AllHex(s[..i]) && HexVal(s[i]).Some? && HexVal(s[i + 1]).Some?
    ensures AllHex(s[..i + 2]) && (i + 2) / 2 == i / 2 + 1
    ensures HexPairs(s[..i + 2]) == HexPairs(s[..i]) + [16 * HexVal(s[i]).value + HexVal(s[i + 1]).value]
  {
    hide HexVal;
    assert s[..i + 2][..i] == s[..i];
  }

  lemma NotHex(s: seq<byte>, i: nat)
    requires i + 1 < |s| && (HexVal(s[i]).None? || HexVal(s[i + 1]).None?)
    ensures !AllHex(s)
  {
    hide HexVal;
  }

  /** Hex round trip: what was printed is read back as the same bytes. */
  lemma {:induction false} HexRoundTrip(b: seq<byte>)
    ensures HexOrBytes(HexText(b)) == b
  {
    hide HexVal, HexNibble, HexText, HexPairs;
    HexIsPlain(b);
    HexPairsBack(b);
  }

  lemma {:induction false} HexPairsBack(b: seq<byte>)
    ensures |HexText(b)| % 2 == 0 && AllHex(HexText(b)) && HexPairs(HexText(b)) == b
  {
    hide HexVal, HexNibble;
    HexIsPlain(b);
    if b != [] {
      var front, last := b[..|b| - 1], b[|b| - 1];
      HexPairsBack(front);
      NibbleRoundTrip(last / 16);
      NibbleRoundTrip(last % 16);
      var h := HexText(b);
      assert h[..|h| - 2] == HexText(front);
      assert 16 * (last / 16) + last % 16 == last;
      assert b == front + [last];
    }
  }

  lemma NibbleRoundTrip(n: byte)
    requires n < 16
    ensures HexVal(HexNibble(n)) == Some(n)
  {}

  // ---------- values ----------

  function Text(ft: FloatText, j: Json): seq<byte>
    decreases j
  {
    match j
    case JNull => NULL_TEXT
    case JBool(b) => if b then TRUE_TEXT else FALSE_TEXT
    case JInt(n) => IntText(n)
    case JReal(bits, width) => ft(bits, width)
    case JStr(s) => StringText(s)
    case JArr(items) => [LBRACKET] + ItemsText(ft, items) + [RBRACKET]
    case JObj(members) => [LBRACE] + MembersText(ft, members) + [RBRACE]
  }

  function ItemsText(ft: FloatText, items: seq<Json>): seq<byte>
    decreases items
  {
    if items == [] then []
    else ItemsText(ft, items[..|items| - 1]) + (if |items| == 1 then [] else [COMMA]) + Text(ft, items[|items| - 1])
  }

  function MembersText(ft: FloatText, members: seq<Member>): seq<byte>
    decreases members
  {
    if members == [] then []
    else
      MembersText(ft, members[..|members| - 1]) + (if |members| == 1 then [] else [COMMA])
      + StringText(members[|members| - 1].key) + [COLON] + Text(ft, members[|members| - 1].value)
  }
}
