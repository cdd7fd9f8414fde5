/**
 When the printed text is UTF-8, as JSON text has to be (section 8.1 of RFC 8259): the decoder
 copies string bytes from 0x80 up, so the text is well-formed exactly when every string is.
 */
module JsonUtf8 {
  import opened Machine
  import opened Varint
  import opened JsonText
  import opened JsonParse
  import opened AvroWire
  import opened AvroTree

  // ---------- the grammar ----------

  predicate Tail(b: byte) {
    0x80 <= b <= 0xBF
  }

  /** One encoded character, as section 4 of RFC 3629 lists them. */
  predicate Char(c: seq<byte>) {
    || (|c| == 1 && c[0] <= 0x7F)
    || (|c| == 2 && 0xC2 <= c[0] <= 0xDF && Tail(c[1]))
    || (|c| == 3 && c[0] == 0xE0 && 0xA0 <= c[1] <= 0xBF && Tail(c[2]))
    || (|c| == 3 && 0xE1 <= c[0] <= 0xEC && Tail(c[1]) && Tail(c[2]))
    || (|c| == 3 && c[0] == 0xED && 0x80 <= c[1] <= 0x9F && Tail(c[2]))
    || (|c| == 3 && 0xEE <= c[0] <= 0xEF && Tail(c[1]) && Tail(c[2]))
    || (|c| == 4 && c[0] == 0xF0 && 0x90 <= c[1] <= 0xBF && Tail(c[2]) && Tail(c[3]))
    || (|c| == 4 && 0xF1 <= c[0] <= 0xF3 && Tail(c[1]) && Tail(c[2]) && Tail(c[3]))
    || (|c| == 4 && c[0] == 0xF4 && 0x80 <= c[1] <= 0x8F && Tail(c[2]) && Tail(c[3]))
  }

  /** A sequence of encoded characters. */
  ghost predicate Utf8(s: seq<byte>)
    decreases |s|
  {
    s == [] || exists n :: 0 < n <= |s| && Char(s[..n]) && Utf8(s[n..])
  }

  // ---------- byte by byte ----------

  /** Between characters, inside one with its next byte bounded, or past an error. */
  datatype Scan = Between | Inside(left: nat, low: byte, high: byte) | Broke

  function FirstOf(b: byte): Scan {
    if b <= 0x7F then Between
    else if b < 0xC2 || b > 0xF4 then Broke
    else if b <= 0xDF then Inside(1, 0x80, 0xBF)
    else if b <= 0xEF then Inside(2, if b == 0xE0 then 0xA0 else 0x80, if b == 0xED then 0x9F else 0xBF)
    else Inside(3, if b == 0xF0 then 0x90 else 0x80, if b == 0xF4 then 0x8F else 0xBF)
  }

  function Next(st: Scan, b: byte): Scan {
    match st
    case Between => FirstOf(b)
    case Inside(left, low, high) =>
      if !(low <= b <= high) then Broke else if left <= 1 then Between else Inside(left - 1, 0x80, 0xBF)
    case Broke => Broke
  }

  function After(st: Scan, s: seq<byte>): Scan {
    if s == [] then st else Next(After(st, s[..|s| - 1]), s[|s| - 1])
  }

  lemma {:induction false} AfterJoin(st: Scan, a: seq<byte>, b: seq<byte>)
    ensures After(st, a + b) == After(After(st, a), b)
    decreases |b|
  {
    hide Next;
    if b == [] {
      assert a + b == a;
    } else {
      AfterJoin(st, a, b[..|b| - 1]);
      assert (a + b)[..|a + b| - 1] == a + b[..|b| - 1];
    }
  }

  lemma AfterOne(st: Scan, b: byte)
    ensures After(st, [b]) == Next(st, b)
  {
    assert [b][..0] == [];
  }

  lemma AfterFront(st: Scan, s: seq<byte>)
    requires s != []
    ensures After(st, s) == After(Next(st, s[0]), s[1..])
  {
    hide Next, After;
    AfterOne(st, s[0]);
    AfterJoin(st, [s[0]], s[1..]);
    assert [s[0]] + s[1..] == s;
  }

  lemma {:induction false} StaysBroken(s: seq<byte>)
    ensures After(Broke, s) == Broke
    decreases |s|
  {
    if s != [] {
      StaysBroken(s[..|s| - 1]);
    }
  }

  // ---------- the scan decides the grammar ----------

  /** A scan that is inside a character and ends between two reads the bytes it waits for first. */
  lemma {:induction false} InsideReads(left: nat, low: byte, high: byte, s: seq<byte>)
    requires left > 0
    ensures After(Inside(left, low, high), s) == Between <==>
            && left <= |s| && low <= s[0] <= high && (forall i :: 1 <= i < left ==> Tail(s[i]))
            && After(Between, s[left..]) == Between
    decreases left
  {
    hide After;
    if s == [] {
      EmptyScan(Inside(left, low, high));
    } else {
      AfterFront(Inside(left, low, high), s);
      if !(low <= s[0] <= high) {
        StaysBroken(s[1..]);
      } else if left > 1 {
        InsideReads(left - 1, 0x80, 0xBF, s[1..]);
        TailsShift(s, left);
      }
    }
  }

  lemma EmptyScan(st: Scan)
    ensures After(st, []) == st
  {}

  lemma TailsShift(s: seq<byte>, left: nat)
    requires s != [] && left > 1
    ensures left <= |s| ==> s[1..][left - 1..] == s[left..]
    ensures left <= |s| ==>
              ((forall i :: 1 <= i < left ==> Tail(s[i])) <==>
               Tail(s[1..][0]) && forall i :: 1 <= i < left - 1 ==> Tail(s[1..][i]))
  {
    if left <= |s| {
      assert forall i :: 1 <= i < left ==> s[i] == s[1..][i - 1];
      assert forall i :: 1 <= i < left - 1 ==> s[1..][i] == s[i + 1];
    }
  }

  lemma CharLands(c: seq<byte>)
    requires Char(c)
    ensures After(Between, c) == Between
  {
    hide After;
    AfterFront(Between, c);
    EmptyScan(Between);
    var st := FirstOf(c[0]);
    if st.Inside? {
      InsideReads(st.left, st.low, st.high, c[1..]);
    }
  }

  /** A scan that lands between characters has read a first one. */
  lemma LandsOnChar(s: seq<byte>)
    requires s != [] && After(Between, s) == Between
    ensures exists n :: 0 < n <= |s| && Char(s[..n]) && After(Between, s[n..]) == Between
  {
    hide After;
    AfterFront(Between, s);
    var st := FirstOf(s[0]);
    match st
    case Between => assert Char(s[..1]);
    case Inside(left, low, high) =>
      InsideReads(left, low, high, s[1..]);
      assert s[1..][left..] == s[left + 1..];
      assert forall i :: 0 <= i < left ==> s[1..][i] == s[..left + 1][i + 1];
      assert Char(s[..left + 1]);
    case Broke => StaysBroken(s[1..]);
  }

  /** The scan over all bytes ends between characters exactly on UTF-8. */
  lemma {:induction false} ScanDecides(s: seq<byte>)
    ensures Utf8(s) <==> After(Between, s) == Between
    decreases |s|
  {
    hide After, Char;
    EmptyScan(Between);
    if s != [] {
      if Utf8(s) {
        var n :| 0 < n <= |s| && Char(s[..n]) && Utf8(s[n..]);
        CharLands(s[..n]);
        ScanDecides(s[n..]);
        AfterJoin(Between, s[..n], s[n..]);
        assert s[..n] + s[n..] == s;
      }
      if After(Between, s) == Between {
        LandsOnChar(s);
        var n :| 0 < n <= |s| && Char(s[..n]) && After(Between, s[n..]) == Between;
        ScanDecides(s[n..]);
      }
    }
  }

  // ---------- escaping ----------

  /** Inside a character only bytes from 0x80 up can follow. */
  predicate Multibyte(st: Scan) {
    st.Inside? ==> st.low >= 0x80
  }

  lemma {:induction false} AfterMultibyte(st: Scan, s: seq<byte>)
    requires Multibyte(st)
    ensures Multibyte(After(st, s))
    decreases |s|
  {
    if s != [] {
      AfterMultibyte(st, s[..|s| - 1]);
    }
  }

  predicate Ascii(t: seq<byte>) {
    forall i :: 0 <= i < |t| ==> t[i] < 0x80
  }

  lemma {:induction false} AsciiScan(st: Scan, t: seq<byte>)
    requires Multibyte(st) && Ascii(t) && t != []
    ensures After(st, t) == if st.Between? then Between else Broke
    decreases |t|
  {
    var front := t[..|t| - 1];
    if front != [] {
      AsciiScan(st, front);
    }
  }

  /** Escaping a byte moves the scan as the byte itself does. */
  lemma EscapeByteScan(st: Scan, c: byte)
    requires Multibyte(st)
    ensures After(st, EscapeByte(c)) == Next(st, c)
  {
    hide After;
    AfterOne(st, c);
    if c < 0x80 {
      AsciiScan(st, EscapeByte(c));
      AsciiScan(st, [c]);
    }
  }

  lemma {:induction false} EscapeTextScan(st: Scan, s: seq<byte>)
    requires Multibyte(st)
    ensures After(st, EscapeText(s)) == After(st, s)
    decreases |s|
  {
    hide Next, EscapeByte;
    if s != [] {
      var front, last := s[..|s| - 1], s[|s| - 1];
      EscapeTextScan(st, front);
      AfterMultibyte(st, front);
      EscapeByteScan(After(st, front), last);
      AfterJoin(st, EscapeText(front), EscapeByte(last));
    }
  }

  /** Escaping neither breaks nor repairs an encoding. */
  lemma EscapeKeepsUtf8(s: seq<byte>)
    ensures Utf8(EscapeText(s)) <==> Utf8(s)
  {
    hide After, EscapeText, Utf8;
    ScanDecides(s);
    ScanDecides(EscapeText(s));
    EscapeTextScan(Between, s);
  }

  // ---------- whole values ----------

  /** The scan over a piece of text that is well-formed exactly when ok holds. */
  ghost predicate Lands(t: seq<byte>, ok: bool) {
    After(Between, t) == if ok then Between else Broke
  }

  lemma LandsJoin(a: seq<byte>, okA: bool, b: seq<byte>, okB: bool)
    requires Lands(a, okA) && Lands(b, okB)
    ensures Lands(a + b, okA && okB)
  {
    hide After;
    AfterJoin(Between, a, b);
    StaysBroken(b);
  }

  lemma AsciiLands(t: seq<byte>)
    requires Ascii(t)
    ensures Lands(t, true)
  {
    hide After;
    EmptyScan(Between);
    if t != [] {
      AsciiScan(Between, t);
    }
  }

  lemma StringLands(s: seq<byte>)
    ensures Lands(StringText(s), Utf8(s))
  {
    hide After, EscapeText, Utf8;
    ScanDecides(s);
    EscapeTextScan(Between, s);
    AfterMultibyte(Between, s);
    AsciiLands([QUOTE]);
    AfterJoin(Between, [QUOTE], EscapeText(s));
    AfterJoin(Between, [QUOTE] + EscapeText(s), [QUOTE]);
    AsciiScan(After(Between, s), [QUOTE]);
  }

  /** Every string and key of the value is UTF-8. */
  ghost predicate StringsUtf8(j: Json)
    decreases j
  {
    match j
    case JStr(s) => Utf8(s)
    case JArr(items) => ItemsUtf8(items)
    case JObj(members) => MembersUtf8(members)
    case _ => true
  }

  ghost predicate ItemsUtf8(items: seq<Json>)
    decreases items
  {
    forall i :: 0 <= i < |items| ==> StringsUtf8(items[i])
  }

  ghost predicate MembersUtf8(members: seq<Member>)
    decreases members
  {
    forall i :: 0 <= i < |members| ==> Utf8(members[i].key) && StringsUtf8(members[i].value)
  }

  lemma NumberIsAscii(t: seq<byte>)
    requires NumberText(t) || QuotedText(t)
    ensures Ascii(t)
  {
    hide NumberText;
    if NumberText(t) {
      NumberTextRun(t);
    }
  }

  lemma {:induction false} TextLands(ft: FloatText, j: Json)
    requires FloatTextOk(ft)
    ensures Lands(Text(ft, j), StringsUtf8(j))
    decreases j, 1
  {
    hide Lands, Utf8, IntText, StringText, ItemsText, MembersText, NumberText, QuotedText, ItemsUtf8, MembersUtf8;
    match j
    case JNull => AsciiLands(NULL_TEXT);
    case JBool(b) =>
      AsciiLands(TRUE_TEXT);
      AsciiLands(FALSE_TEXT);
    case JInt(n) =>
      IntIsNumber(n);
      NumberIsAscii(IntText(n));
      AsciiLands(IntText(n));
    case JReal(bits, width) =>
      NumberIsAscii(ft(bits, width));
      AsciiLands(ft(bits, width));
    case JStr(s) => StringLands(s);
    case JArr(items) =>
      ItemsLand(ft, items);
      Bracketed(LBRACKET, ItemsText(ft, items), RBRACKET, ItemsUtf8(items));
    case JObj(members) =>
      MembersLand(ft, members);
      Bracketed(LBRACE, MembersText(ft, members), RBRACE, MembersUtf8(members));
  }

  lemma Bracketed(open: byte, t: seq<byte>, close: byte, ok: bool)
    requires open < 0x80 && close < 0x80 && Lands(t, ok)
    ensures Lands([open] + t + [close], ok)
  {
    hide Lands;
    AsciiLands([open]);
    AsciiLands([close]);
    LandsJoin([open], true, t, ok);
    LandsJoin([open] + t, ok, [close], true);
  }

  lemma {:induction false} ItemsLand(ft: FloatText, items: seq<Json>)
    requires FloatTextOk(ft)
    ensures Lands(ItemsText(ft, items), ItemsUtf8(items))
    decreases items, 0
  {
    hide Lands, Text, StringsUtf8, FloatTextOk;
    AsciiLands([]);
    if items != [] {
      var front, last := items[..|items| - 1], items[|items| - 1];
      var sep: seq<byte> := if |items| == 1 then [] else [COMMA];
      ItemsLand(ft, front);
      TextLands(ft, last);
      AsciiLands(sep);
      LandsJoin(ItemsText(ft, front), ItemsUtf8(front), sep, true);
      LandsJoin(ItemsText(ft, front) + sep, ItemsUtf8(front), Text(ft, last), StringsUtf8(last));
      assert ItemsUtf8(items) <==> ItemsUtf8(front) && StringsUtf8(last);
    }
  }

  lemma {:induction false} MembersLand(ft: FloatText, members: seq<Member>)
    requires FloatTextOk(ft)
    ensures Lands(MembersText(ft, members), MembersUtf8(members))
    decreases members, 0
  {
    hide Lands, Text, StringsUtf8, Utf8, StringText, FloatTextOk;
    AsciiLands([]);
    if members != [] {
      var front, last := members[..|members| - 1], members[|members| - 1];
      var sep: seq<byte> := if |members| == 1 then [] else [COMMA];
      MembersLand(ft, front);
      StringLands(last.key);
      TextLands(ft, last.value);
      AsciiLands(sep);
      AsciiLands([COLON]);
      var a := MembersText(ft, front) + sep;
      LandsJoin(MembersText(ft, front), MembersUtf8(front), sep, true);
      LandsJoin(a, MembersUtf8(front), StringText(last.key), Utf8(last.key));
      LandsJoin(a + StringText(last.key), MembersUtf8(front) && Utf8(last.key), [COLON], true);
      LandsJoin(a + StringText(last.key) + [COLON], MembersUtf8(front) && Utf8(last.key), Text(ft, last.value),
               StringsUtf8(last.value));
      assert MembersUtf8(members) <==> MembersUtf8(front) && Utf8(last.key) && StringsUtf8(last.value);
    }
  }

  /** A printed value is UTF-8 exactly when all its strings and keys are. */
  lemma TextUtf8Iff(ft: FloatText, j: Json)
    requires FloatTextOk(ft)
    ensures Utf8(Text(ft, j)) <==> StringsUtf8(j)
  {
    hide After, Text, Utf8, StringsUtf8, FloatTextOk;
    TextLands(ft, j);
    ScanDecides(Text(ft, j));
  }

  /** Text in UTF-8 that is one object and nothing more. */
  ghost predicate JsonObject(t: seq<byte>) {
    Utf8(t) && exists ms :: ParseValue(t) == Some(Parsed(DObj(ms), []))
  }

  /** What is printed for a record is a JSON object exactly when its strings and keys are UTF-8. */
  lemma PrintedIsJsonIff(ft: FloatText, members: seq<Member>)
    requires FloatTextOk(ft)
    ensures JsonObject(Text(ft, JObj(members))) <==> StringsUtf8(JObj(members))
  {
    hide ParseValue, Text, Utf8, StringsUtf8, FloatTextOk;
    TextUtf8Iff(ft, JObj(members));
    PrintedObject(ft, members);
  }

  const ONE_STRING := Record([0x72], [Field([0x61], Prim(KString))])

  /** A string field of the one byte 0xFF is decoded and printed, and the text is no JSON. */
  lemma PrintsBadString(ft: FloatText)
    requires FloatTextOk(ft)
    ensures AvroTree.Decode(ONE_STRING, Own, [2, 0xFF]) == Good(JObj([Member([0x61], JStr([0xFF]))]), [])
    ensures !JsonObject(Text(ft, JObj([Member([0x61], JStr([0xFF]))])))
  {
    hide ReadRun, Suffix, Text, JsonObject, FloatTextOk;
    var m := Member([0x61], JStr([0xFF]));
    BadRun();
    assert AvroTree.Decode(ONE_STRING.fields[0].type_, Own, [2, 0xFF]) == Good(m.value, []);
    assert AvroTree.DecodeFields(ONE_STRING.fields, 1, Own, [], [m]) == Entries([m], []);
    assert AvroTree.DecodeFields(ONE_STRING.fields, 0, Own, [2, 0xFF], []) == Entries([m], []);
    PrintedIsJsonIff(ft, [m]);
    BadByte();
    assert !StringsUtf8(m.value);
    assert [m][0] == m;
    assert !MembersUtf8([m]);
  }

  lemma BadRun()
    ensures ReadRun([2, 0xFF]) == Bytes([0xFF], [])
  {
    hide ReadLong;
    assert EncodeLong(1) == [2];
    LongRoundTrip(1, [0xFF]);
    assert [2] + [0xFF] == [2, 0xFF];
    assert [0xFF][..1] == [0xFF];
  }

  lemma BadByte()
    ensures !Utf8([0xFF])
  {
    hide Utf8;
    ScanDecides([0xFF]);
    AfterOne(Between, 0xFF);
  }
}
