/**
 A reader for JSON text, and the proof that it takes every printed value back: what the
 decoder prints is one complete JSON value, and nothing of it is lost.
 */
module JsonParse {
  import opened Machine
  import opened Varint
  import opened JsonText

  /** A parsed document; numbers are kept as their text. */
  datatype Doc =
    | DNull
    | DBool(b: bool)
    | DNum(text: seq<byte>)
    | DStr(s: seq<byte>)
    | DArr(items: seq<Doc>)
    | DObj(members: seq<DocMember>)
  datatype DocMember = DocMember(key: seq<byte>, value: Doc)

  datatype Parsed<+T> = Parsed(value: T, rest: seq<byte>)

  predicate NumberByte(c: byte) {
    0x30 <= c <= 0x39 || c == 0x2B || c == 0x2D || c == 0x2E || c == 0x45 || c == 0x65
  }

  // ---------- numbers, as section 6 of RFC 8259 has them ----------

  predicate Digit(c: byte) {
    0x30 <= c <= 0x39
  }

  /** The end of the run of digits from i on. */
  function DigitsEnd(t: seq<byte>, i: nat): (e: nat)
    requires i <= |t|
    ensures i <= e <= |t| && (e < |t| ==> !Digit(t[e])) && forall k :: i <= k < e ==> Digit(t[k])
    decreases |t| - i
  {
    if i == |t| || !Digit(t[i]) then i else DigitsEnd(t, i + 1)
  }

  /** An optional minus, digits without a leading zero, an optional fraction, an optional exponent. */
  predicate NumberText(t: seq<byte>) {
    var a := if t != [] && t[0] == MINUS then 1 else 0;
    var b := DigitsEnd(t, a);
    b > a && (t[a] == ZERO ==> b == a + 1) && FractionText(t, b)
  }

  predicate FractionText(t: seq<byte>, b: nat)
    requires b <= |t|
  {
    if b < |t| && t[b] == 0x2E then DigitsEnd(t, b + 1) > b + 1 && ExponentText(t, DigitsEnd(t, b + 1))
    else ExponentText(t, b)
  }

  predicate ExponentText(t: seq<byte>, c: nat)
    requires c <= |t|
  {
    || c == |t|
    || ((t[c] == 0x65 || t[c] == 0x45)
        && var d := if c + 1 < |t| && (t[c + 1] == 0x2B || t[c + 1] == MINUS) then c + 2 else c + 1;
           d < |t| && DigitsEnd(t, d) == |t|)
  }

  lemma NumberTextRun(t: seq<byte>)
    requires NumberText(t)
    ensures t != [] && forall i :: 0 <= i < |t| ==> NumberByte(t[i])
  {}

  // ---------- the reader ----------

  /** The length of the leading run of number characters. */
  function NumberLength(src: seq<byte>): (n: nat)
    ensures n <= |src| && (n < |src| ==> !NumberByte(src[n])) && forall i :: 0 <= i < n ==> NumberByte(src[i])
  {
    if src == [] || !NumberByte(src[0]) then 0
    else
      assert forall i :: 1 <= i < |src| ==> src[i] == src[1..][i - 1];
      1 + NumberLength(src[1..])
  }

  /** A byte after a backslash and how many bytes the escape takes behind it. */
  function Unescape(src: seq<byte>): Option<(byte, nat)> {
    if src == [] then None
    else if src[0] in {QUOTE, BACKSLASH, 0x2F} then Some((src[0], 1))
    else if src[0] == 0x6E then Some((0x0A, 1))
    else if src[0] == 0x72 then Some((0x0D, 1))
    else if src[0] == 0x74 then Some((0x09, 1))
    else if src[0] == 0x75 && |src| >= 5 && src[1] == ZERO && src[2] == ZERO then
      var high, low := HexVal(src[3]), HexVal(src[4]);
      if high.Some? && low.Some? && high.value < 8 then Some((16 * high.value + low.value, 5)) else None
    else None
  }

  /** The bytes up to the closing quote, escapes resolved. */
  function ParseString(src: seq<byte>, acc: seq<byte>): (r: Option<Parsed<seq<byte>>>)
    ensures r.Some? ==> |r.value.rest| < |src|
    decreases |src|
  {
    if src == [] then None
    else if src[0] == QUOTE then Some(Parsed(acc, src[1..]))
    else if src[0] == BACKSLASH then
      match Unescape(src[1..])
      case None => None
      case Some(u) => if u.1 > |src| - 1 then None else ParseString(src[1 + u.1..], acc + [u.0])
    else if src[0] < 0x20 then None
    else ParseString(src[1..], acc + [src[0]])
  }

  function ParseValue(src: seq<byte>): (r: Option<Parsed<Doc>>)
    ensures r.Some? ==> |r.value.rest| < |src|
    decreases |src|, 1
  {
    if src == [] then None
    else if NULL_TEXT <= src then Some(Parsed(DNull, src[4..]))
    else if TRUE_TEXT <= src then Some(Parsed(DBool(true), src[4..]))
    else if FALSE_TEXT <= src then Some(Parsed(DBool(false), src[5..]))
    else if src[0] == QUOTE then
      match ParseString(src[1..], [])
      case None => None
      case Some(p) => Some(Parsed(DStr(p.value), p.rest))
    else if src[0] == LBRACKET then
      if |src| > 1 && src[1] == RBRACKET then Some(Parsed(DArr([]), src[2..])) else ParseItems(src[1..], [])
    else if src[0] == LBRACE then
      if |src| > 1 && src[1] == RBRACE then Some(Parsed(DObj([]), src[2..])) else ParseMembers(src[1..], [])
    else
      var n := NumberLength(src);
      if NumberText(src[..n]) then Some(Parsed(DNum(src[..n]), src[n..])) else None
  }

  /** Values separated by commas, up to the closing bracket. */
  function ParseItems(src: seq<byte>, acc: seq<Doc>): (r: Option<Parsed<Doc>>)
    ensures r.Some? ==> |r.value.rest| < |src|
    decreases |src|, 2
  {
    match ParseValue(src)
    case None => None
    case Some(p) =>
      if p.rest == [] then None
      else if p.rest[0] == COMMA then ParseItems(p.rest[1..], acc + [p.value])
      else if p.rest[0] == RBRACKET then Some(Parsed(DArr(acc + [p.value]), p.rest[1..]))
      else None
  }

  /** Keys and values separated by commas, up to the closing brace. */
  function ParseMembers(src: seq<byte>, acc: seq<DocMember>): (r: Option<Parsed<Doc>>)
    ensures r.Some? ==> |r.value.rest| < |src|
    decreases |src|, 2
  {
    if src == [] || src[0] != QUOTE then None
    else
      match ParseString(src[1..], [])
      case None => None
      case Some(k) =>
        if k.rest == [] || k.rest[0] != COLON then None
        else
          match ParseValue(k.rest[1..])
          case None => None
          case Some(p) =>
            var m := DocMember(k.value, p.value);
            if p.rest == [] then None
            else if p.rest[0] == COMMA then ParseMembers(p.rest[1..], acc + [m])
            else if p.rest[0] == RBRACE then Some(Parsed(DObj(acc + [m]), p.rest[1..]))
            else None
  }

  // ---------- the document of a value ----------

  /** Plain text between quotes. */
  predicate QuotedText(t: seq<byte>) {
    |t| >= 2 && t[0] == QUOTE && t[|t| - 1] == QUOTE
    && forall i :: 1 <= i < |t| - 1 ==> 0x20 <= t[i] < 0x80 && t[i] != QUOTE && t[i] != BACKSLASH
  }

  /** Floating-point values print as numbers, or as quoted words for the special ones. */
  ghost predicate FloatTextOk(ft: FloatText) {
    forall bits, width :: NumberText(ft(bits, width)) || QuotedText(ft(bits, width))
  }

  function FloatDoc(t: seq<byte>): Doc {
    if QuotedText(t) then DStr(t[1..|t| - 1]) else DNum(t)
  }

  function DocOf(ft: FloatText, j: Json): Doc
    decreases j
  {
    match j
    case JNull => DNull
    case JBool(b) => DBool(b)
    case JInt(n) => DNum(IntText(n))
    case JReal(bits, width) => FloatDoc(ft(bits, width))
    case JStr(s) => DStr(s)
    case JArr(items) => DArr(DocsOf(ft, items))
    case JObj(members) => DObj(DocMembersOf(ft, members))
  }

  function DocsOf(ft: FloatText, items: seq<Json>): seq<Doc>
    decreases items
  {
    if items == [] then [] else [DocOf(ft, items[0])] + DocsOf(ft, items[1..])
  }

  function DocMembersOf(ft: FloatText, members: seq<Member>): seq<DocMember>
    decreases members
  {
    if members == [] then []
    else [DocMember(members[0].key, DocOf(ft, members[0].value))] + DocMembersOf(ft, members[1..])
  }

  // ---------- strings read back ----------

  lemma {:induction false} EscapeFront(s: seq<byte>)
    requires s != []
    ensures EscapeText(s) == EscapeByte(s[0]) + EscapeText(s[1..])
  {
    hide EscapeByte;
    if |s| == 1 {
      assert s[..0] == [] && s[1..] == [];
    } else {
      var front, last := s[..|s| - 1], s[|s| - 1];
      EscapeFront(front);
      assert front[1..] == s[1..][..|s| - 2] && s[1..][|s| - 2] == last;
      Assoc(EscapeByte(s[0]), EscapeText(front[1..]), EscapeByte(last));
    }
  }

  /** One escaped byte is read as that byte. */
  lemma EscapedByteBack(c: byte, rest: seq<byte>, acc: seq<byte>)
    ensures ParseString(EscapeByte(c) + rest, acc) == ParseString(rest, acc + [c])
  {
    var src := EscapeByte(c) + rest;
    if c == QUOTE || c == BACKSLASH || c == 0x0A || c == 0x0D || c == 0x09 {
      assert src[1..][0] == EscapeByte(c)[1] && src[2..] == rest;
    } else if c < 0x20 {
      NibbleRoundTrip(c / 16);
      NibbleRoundTrip(c % 16);
      assert src[1..][0] == 0x75 && src[1..][1] == ZERO && src[1..][2] == ZERO;
      assert src[1..][3] == HexNibble(c / 16) && src[1..][4] == HexNibble(c % 16);
      assert src[6..] == rest;
      assert Unescape(src[1..]) == Some((c, 5));
    } else {
      assert src[1..] == rest;
    }
  }

  lemma {:induction false} StringBack(s: seq<byte>, rest: seq<byte>, acc: seq<byte>)
    ensures ParseString(EscapeText(s) + [QUOTE] + rest, acc) == Some(Parsed(acc + s, rest))
    decreases |s|
  {
    hide EscapeByte, EscapeText;
    if s == [] {
      EmptyText();
      assert EscapeText(s) + [QUOTE] + rest == [QUOTE] + rest;
      assert ([QUOTE] + rest)[1..] == rest && acc + s == acc;
    } else {
      EscapeFront(s);
      var tail := EscapeText(s[1..]) + [QUOTE] + rest;
      assert EscapeText(s) + [QUOTE] + rest == EscapeByte(s[0]) + tail;
      EscapedByteBack(s[0], tail, acc);
      StringBack(s[1..], rest, acc + [s[0]]);
      assert acc + [s[0]] + s[1..] == acc + s;
    }
  }

  lemma EmptyText()
    ensures EscapeText([]) == []
  {}

  /** A printed string, after its opening quote. */
  lemma QuotedBack(s: seq<byte>, rest: seq<byte>)
    ensures var src := StringText(s) + rest;
            src[0] == QUOTE && ParseString(src[1..], []) == Some(Parsed(s, rest))
  {
    hide EscapeText, ParseString;
    var src := StringText(s) + rest;
    assert src[1..] == EscapeText(s) + [QUOTE] + rest;
    StringBack(s, rest, []);
    assert [] + s == s;
  }

  // ---------- lists in reading order ----------

  function ItemsTail(ft: FloatText, items: seq<Json>): seq<byte> {
    if items == [] then [] else [COMMA] + Text(ft, items[0]) + ItemsTail(ft, items[1..])
  }

  lemma {:induction false} ItemsTailEnd(ft: FloatText, items: seq<Json>, last: Json)
    ensures ItemsTail(ft, items + [last]) == ItemsTail(ft, items) + ([COMMA] + Text(ft, last))
    decreases |items|
  {
    hide Text;
    if items == [] {
      assert ([] + [last])[1..] == [];
      assert ItemsTail(ft, [last]) == [COMMA] + Text(ft, last) + [];
    } else {
      ItemsTailEnd(ft, items[1..], last);
      assert (items + [last])[1..] == items[1..] + [last];
      Assoc([COMMA] + Text(ft, items[0]), ItemsTail(ft, items[1..]), [COMMA] + Text(ft, last));
    }
  }

  lemma {:induction false} ItemsFront(ft: FloatText, items: seq<Json>)
    requires items != []
    ensures ItemsText(ft, items) == Text(ft, items[0]) + ItemsTail(ft, items[1..])
    decreases |items|
  {
    hide Text, ItemsTail;
    var front, last := items[..|items| - 1], items[|items| - 1];
    if |items| == 1 {
      NoTail(ft);
      assert front == [] && items[1..] == [];
    } else {
      ItemsFront(ft, front);
      ItemsTailEnd(ft, front[1..], last);
      assert front[1..] + [last] == items[1..];
      Assoc(Text(ft, items[0]), ItemsTail(ft, front[1..]), [COMMA] + Text(ft, last));
      Assoc(ItemsText(ft, front), [COMMA], Text(ft, last));
    }
  }

  lemma NoTail(ft: FloatText)
    ensures ItemsTail(ft, []) == [] && MembersTail(ft, []) == []
  {}

  function MemberText(ft: FloatText, m: Member): seq<byte> {
    StringText(m.key) + [COLON] + Text(ft, m.value)
  }

  function MembersTail(ft: FloatText, members: seq<Member>): seq<byte> {
    if members == [] then [] else [COMMA] + MemberText(ft, members[0]) + MembersTail(ft, members[1..])
  }

  lemma {:induction false} MembersTailEnd(ft: FloatText, members: seq<Member>, last: Member)
    ensures MembersTail(ft, members + [last]) == MembersTail(ft, members) + ([COMMA] + MemberText(ft, last))
    decreases |members|
  {
    hide MemberText;
    if members == [] {
      assert ([] + [last])[1..] == [];
      assert MembersTail(ft, [last]) == [COMMA] + MemberText(ft, last) + [];
    } else {
      MembersTailEnd(ft, members[1..], last);
      assert (members + [last])[1..] == members[1..] + [last];
      Assoc([COMMA] + MemberText(ft, members[0]), MembersTail(ft, members[1..]), [COMMA] + MemberText(ft, last));
    }
  }

  lemma {:induction false} MembersFront(ft: FloatText, members: seq<Member>)
    requires members != []
    ensures MembersText(ft, members) == MemberText(ft, members[0]) + MembersTail(ft, members[1..])
    decreases |members|
  {
    hide Text, StringText, MembersTail;
    var front, last := members[..|members| - 1], members[|members| - 1];
    var sep: seq<byte> := if |members| == 1 then [] else [COMMA];
    assert MembersText(ft, members) == MembersText(ft, front) + sep + MemberText(ft, last);
    if |members| == 1 {
      NoTail(ft);
      assert front == [] && members[1..] == [];
    } else {
      MembersFront(ft, front);
      MembersTailEnd(ft, front[1..], last);
      assert front[1..] + [last] == members[1..];
      Assoc(MemberText(ft, members[0]), MembersTail(ft, front[1..]), [COMMA] + MemberText(ft, last));
      Assoc(MembersText(ft, front), [COMMA], MemberText(ft, last));
    }
  }

  // ---------- values read back ----------

  /** What follows a value does not continue a number. */
  predicate Ends(rest: seq<byte>) {
    rest == [] || !NumberByte(rest[0])
  }

  lemma NumberSpan(t: seq<byte>, rest: seq<byte>)
    requires NumberText(t) && Ends(rest)
    ensures NumberLength(t + rest) == |t| && (t + rest)[..|t|] == t && (t + rest)[|t|..] == rest
  {
    hide NumberText;
    NumberTextRun(t);
    assert forall i :: 0 <= i < |t| ==> (t + rest)[i] == t[i];
    assert rest != [] ==> (t + rest)[|t|] == rest[0];
  }

  /** A value that does not start like a word is told apart by its first byte. */
  lemma ByFirstByte(src: seq<byte>)
    requires src != [] && src[0] != NULL_TEXT[0] && src[0] != TRUE_TEXT[0] && src[0] != FALSE_TEXT[0]
    ensures ParseValue(src) ==
            if src[0] == QUOTE then
              var p := ParseString(src[1..], []);
              (if p.None? then None else Some(Parsed(DStr(p.value.value), p.value.rest)))
            else if src[0] == LBRACKET then
              (if |src| > 1 && src[1] == RBRACKET then Some(Parsed(DArr([]), src[2..])) else ParseItems(src[1..], []))
            else if src[0] == LBRACE then
              (if |src| > 1 && src[1] == RBRACE then Some(Parsed(DObj([]), src[2..])) else ParseMembers(src[1..], []))
            else
              var n := NumberLength(src);
              if NumberText(src[..n]) then Some(Parsed(DNum(src[..n]), src[n..])) else None
  {
    hide ParseString, ParseItems, ParseMembers, NumberLength, NumberText;
  }

  lemma NumberBack(t: seq<byte>, rest: seq<byte>)
    requires NumberText(t) && Ends(rest)
    ensures ParseValue(t + rest) == Some(Parsed(DNum(t), rest))
  {
    hide ParseValue, NumberLength, ParseString, ParseItems, ParseMembers, NumberText;
    NumberSpan(t, rest);
    NumberTextRun(t);
    assert (t + rest)[0] == t[0] && NumberByte(t[0]);
    ByFirstByte(t + rest);
  }

  lemma StringValueBack(s: seq<byte>, rest: seq<byte>)
    ensures ParseValue(StringText(s) + rest) == Some(Parsed(DStr(s), rest))
  {
    hide ParseValue, StringText, NumberLength, ParseString, ParseItems, ParseMembers;
    StringTextSome(s);
    QuotedBack(s, rest);
    ByFirstByte(StringText(s) + rest);
  }

  lemma StringTextSome(s: seq<byte>)
    ensures StringText(s) != []
  {}

  /** Decimal text: digits only, and no leading zero but that of zero itself. */
  lemma {:induction false} DigitsPlain(u: nat)
    ensures forall i :: 0 <= i < |Digits(u)| ==> Digit(Digits(u)[i])
    ensures u > 0 ==> Digits(u)[0] != ZERO
    ensures u == 0 ==> Digits(u) == [ZERO]
  {
    if u >= 10 {
      DigitsPlain(u / 10);
    }
  }

  /** Every printed integer is a JSON number. */
  lemma IntIsNumber(n: Int64)
    ensures NumberText(IntText(n))
  {
    hide Digits;
    DigitsPlain(if n < 0 then -(n as int) else n);
  }

  lemma {:induction false} PlainStringBack(s: seq<byte>, rest: seq<byte>, acc: seq<byte>)
    requires forall i :: 0 <= i < |s| ==> s[i] >= 0x20 && s[i] != QUOTE && s[i] != BACKSLASH
    ensures ParseString(s + [QUOTE] + rest, acc) == Some(Parsed(acc + s, rest))
  {
    HexNeedsNoEscape(s);
    StringBack(s, rest, acc);
  }

  lemma FloatBack(t: seq<byte>, rest: seq<byte>)
    requires NumberText(t) || QuotedText(t)
    requires Ends(rest)
    ensures ParseValue(t + rest) == Some(Parsed(FloatDoc(t), rest))
  {
    hide ParseValue, ParseString, NumberLength, ParseItems, ParseMembers, NumberText;
    if QuotedText(t) {
      var s := t[1..|t| - 1];
      PlainStringBack(s, rest, []);
      assert (t + rest)[1..] == s + [QUOTE] + rest;
      assert [] + s == s;
      assert (t + rest)[0] == QUOTE;
      ByFirstByte(t + rest);
    } else {
      NumberBack(t, rest);
    }
  }

  /**
   Every printed value is one JSON value: the reader takes it back whole, leaves exactly what
   followed it, and nothing of it is lost.
   */
  lemma {:induction false} TextBack(ft: FloatText, j: Json, rest: seq<byte>)
    requires FloatTextOk(ft) && Ends(rest)
    ensures ParseValue(Text(ft, j) + rest) == Some(Parsed(DocOf(ft, j), rest))
    decreases j, 1
  {
    hide StringText, IntText, ParseString, NumberLength, ItemsText, MembersText, FloatTextOk, ParseItems, ParseMembers,
         FloatDoc, NumberText;
    match j
    case JNull => assert (NULL_TEXT + rest)[4..] == rest;
    case JBool(b) =>
      assert (TRUE_TEXT + rest)[4..] == rest && (FALSE_TEXT + rest)[5..] == rest;
      assert (TRUE_TEXT + rest)[0] == TRUE_TEXT[0] && (FALSE_TEXT + rest)[0] == FALSE_TEXT[0];
    case JInt(n) =>
      IntIsNumber(n);
      NumberBack(IntText(n), rest);
    case JReal(bits, width) =>
      FloatTextIs(ft, bits, width);
      FloatBack(ft(bits, width), rest);
    case JStr(s) => StringValueBack(s, rest);
    case JArr(items) => ArrayBack(ft, items, rest);
    case JObj(members) => ObjectBack(ft, members, rest);
  }

  lemma FloatTextIs(ft: FloatText, bits: nat, width: nat)
    requires FloatTextOk(ft)
    ensures NumberText(ft(bits, width)) || QuotedText(ft(bits, width))
  {}

  lemma {:induction false} ArrayBack(ft: FloatText, items: seq<Json>, rest: seq<byte>)
    requires FloatTextOk(ft) && Ends(rest)
    ensures ParseValue([LBRACKET] + ItemsText(ft, items) + [RBRACKET] + rest) ==
            Some(Parsed(DArr(DocsOf(ft, items)), rest))
    decreases items, 3
  {
    hide Text, NumberLength, ParseString, ItemsTail, FloatTextOk, ParseItems, ParseMembers, ParseValue;
    var src := [LBRACKET] + ItemsText(ft, items) + [RBRACKET] + rest;
    assert src[0] == LBRACKET;
    ByFirstByte(src);
    if items == [] {
      assert src[1] == RBRACKET && src[2..] == rest;
    } else {
      ItemsFront(ft, items);
      var body := Text(ft, items[0]) + ItemsTail(ft, items[1..]) + [RBRACKET] + rest;
      assert src[1..] == body;
      ItemsBack(ft, items, rest, []);
      NotBracket(ft, items[0]);
      assert src[1] == Text(ft, items[0])[0];
      assert [] + DocsOf(ft, items) == DocsOf(ft, items);
    }
  }

  /** No value starts with a closing bracket or brace. */
  lemma NotBracket(ft: FloatText, j: Json)
    requires FloatTextOk(ft)
    ensures Text(ft, j) != [] && Text(ft, j)[0] != RBRACKET && Text(ft, j)[0] != RBRACE
  {
    hide NumberText;
    match j
    case JInt(n) =>
      IntIsNumber(n);
      NumberTextRun(IntText(n));
    case JReal(bits, width) =>
      FloatTextIs(ft, bits, width);
      if NumberText(ft(bits, width)) {
        NumberTextRun(ft(bits, width));
      }
    case _ =>
  }

  lemma {:induction false} ItemsBack(ft: FloatText, items: seq<Json>, rest: seq<byte>, acc: seq<Doc>)
    requires FloatTextOk(ft) && items != []
    ensures ParseItems(Text(ft, items[0]) + ItemsTail(ft, items[1..]) + [RBRACKET] + rest, acc) ==
            Some(Parsed(DArr(acc + DocsOf(ft, items)), rest))
    decreases items, 2
  {
    hide Text, DocOf, NumberLength, ParseString, FloatTextOk, ParseValue, ParseMembers;
    var tail := ItemsTail(ft, items[1..]) + [RBRACKET] + rest;
    assert Text(ft, items[0]) + ItemsTail(ft, items[1..]) + [RBRACKET] + rest == Text(ft, items[0]) + tail;
    TextBack(ft, items[0], tail);
    var d := DocOf(ft, items[0]);
    if |items| == 1 {
      assert items[1..] == [] && tail == [RBRACKET] + rest && tail[1..] == rest;
      assert DocsOf(ft, items) == [d] + [];
      assert acc + [d] == acc + DocsOf(ft, items);
    } else {
      var next := items[1..];
      assert tail[1..] == Text(ft, next[0]) + ItemsTail(ft, next[1..]) + [RBRACKET] + rest;
      ItemsBack(ft, next, rest, acc + [d]);
      Assoc(acc, [d], DocsOf(ft, next));
    }
  }

  lemma {:induction false} ObjectBack(ft: FloatText, members: seq<Member>, rest: seq<byte>)
    requires FloatTextOk(ft) && Ends(rest)
    ensures ParseValue([LBRACE] + MembersText(ft, members) + [RBRACE] + rest) ==
            Some(Parsed(DObj(DocMembersOf(ft, members)), rest))
    decreases members, 3
  {
    hide MemberText, NumberLength, ParseString, MembersTail, FloatTextOk, ParseItems, ParseMembers, ParseValue;
    var src := [LBRACE] + MembersText(ft, members) + [RBRACE] + rest;
    assert src[0] == LBRACE;
    ByFirstByte(src);
    if members == [] {
      assert src[1] == RBRACE && src[2..] == rest;
    } else {
      MembersStart(ft, members, rest);
      MembersBack(ft, members, rest, []);
      assert [] + DocMembersOf(ft, members) == DocMembersOf(ft, members);
    }
  }

  /** Past the brace the text goes on with the first member, so not with the closing brace. */
  lemma MembersStart(ft: FloatText, members: seq<Member>, rest: seq<byte>)
    requires members != []
    ensures var src := [LBRACE] + MembersText(ft, members) + [RBRACE] + rest;
            && |src| > 1 && src[1] != RBRACE
            && src[1..] == MemberText(ft, members[0]) + MembersTail(ft, members[1..]) + [RBRACE] + rest
  {
    hide MemberText, MembersTail, MembersText;
    MembersFront(ft, members);
    StartsQuoted(ft, members[0]);
  }

  lemma StartsQuoted(ft: FloatText, m: Member)
    ensures MemberText(ft, m) != [] && MemberText(ft, m)[0] == QUOTE
  {}

  lemma {:induction false} MembersBack(ft: FloatText, members: seq<Member>, rest: seq<byte>, acc: seq<DocMember>)
    requires FloatTextOk(ft) && members != []
    ensures ParseMembers(MemberText(ft, members[0]) + MembersTail(ft, members[1..]) + [RBRACE] + rest, acc) ==
            Some(Parsed(DObj(acc + DocMembersOf(ft, members)), rest))
    decreases members, 2
  {
    hide MemberText, DocOf, FloatTextOk, ParseValue, ParseMembers;
    var m := members[0];
    var tail := MembersTail(ft, members[1..]) + [RBRACE] + rest;
    assert MemberText(ft, m) + MembersTail(ft, members[1..]) + [RBRACE] + rest == MemberText(ft, m) + tail;
    TextBack(ft, m.value, tail);
    var d := DocMember(m.key, DocOf(ft, m.value));
    MemberStep(ft, m, tail, d.value, acc);
    if |members| == 1 {
      assert members[1..] == [] && tail == [RBRACE] + rest && tail[1..] == rest;
      assert DocMembersOf(ft, members) == [d] + [];
      assert acc + [d] == acc + DocMembersOf(ft, members);
    } else {
      var next := members[1..];
      assert tail[1..] == MemberText(ft, next[0]) + MembersTail(ft, next[1..]) + [RBRACE] + rest;
      MembersBack(ft, next, rest, acc + [d]);
      Assoc(acc, [d], DocMembersOf(ft, next));
    }
  }

  /** One key and value, then what its separator says. */
  lemma MemberStep(ft: FloatText, m: Member, tail: seq<byte>, d: Doc, acc: seq<DocMember>)
    requires tail != [] && (tail[0] == COMMA || tail[0] == RBRACE)
             && ParseValue(Text(ft, m.value) + tail) == Some(Parsed(d, tail))
    ensures ParseMembers(MemberText(ft, m) + tail, acc) ==
            if tail[0] == COMMA then ParseMembers(tail[1..], acc + [DocMember(m.key, d)])
            else Some(Parsed(DObj(acc + [DocMember(m.key, d)]), tail[1..]))
  {
    hide Text, StringText, ParseString, ParseValue;
    var afterKey := [COLON] + (Text(ft, m.value) + tail);
    assert MemberText(ft, m) + tail == StringText(m.key) + afterKey;
    StringTextSome(m.key);
    QuotedBack(m.key, afterKey);
    assert afterKey[1..] == Text(ft, m.value) + tail;
  }

  /** What the decoder prints for a record is one whole JSON object. */
  lemma PrintedObject(ft: FloatText, members: seq<Member>)
    requires FloatTextOk(ft)
    ensures ParseValue(Text(ft, JObj(members))) == Some(Parsed(DObj(DocMembersOf(ft, members)), []))
  {
    hide ParseValue, MembersText, FloatTextOk, DocMembersOf;
    TextBack(ft, JObj(members), []);
    assert Text(ft, JObj(members)) + [] == Text(ft, JObj(members));
  }

  /** Values that print alike have the same document: nothing but the kind of a number is left open by the text. */
  lemma TextDetermines(ft: FloatText, j: Json, k: Json)
    requires FloatTextOk(ft) && Text(ft, j) == Text(ft, k)
    ensures DocOf(ft, j) == DocOf(ft, k)
  {
    hide ParseValue, Text, DocOf, FloatTextOk;
    TextBack(ft, j, []);
    TextBack(ft, k, []);
  }
}
