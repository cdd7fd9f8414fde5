/**
 The decoder as it runs: text is appended to an output buffer while input is used up. Every
 method is proved against the tree-valued decoder of module AvroProgram. Skipping changes
 neither what is consumed nor what fails, and leaves the output alone.
 */
module AvroExecute {
  import opened Machine
  import opened Varint
  import opened JsonText
  import opened AvroWire
  import opened AvroProgram

  /** What a decoding method hands back for a known outcome. */
  ghost predicate Appended(ft: FloatText, dst: seq<byte>, skip: bool, r: Outcome, out: seq<byte>, rest: seq<byte>,
      ok: bool) {
    && ok == r.Good? && rest == r.rest && dst <= out
    && (skip ==> out == dst)
    && (!skip && ok ==> out == dst + Text(ft, r.json))
  }

  lemma ArrayGrows(ft: FloatText, acc: seq<Member>, m: Member)
    ensures ItemsText(ft, Values(acc + [m])) ==
            ItemsText(ft, Values(acc)) + (if acc == [] then [] else [COMMA]) + Text(ft, m.value)
  {
    hide Text;
    assert (acc + [m])[..|acc|] == acc;
    assert Values(acc + [m]) == Values(acc) + [m.value];
    assert (Values(acc) + [m.value])[..|acc|] == Values(acc);
  }

  lemma ObjectGrows(ft: FloatText, acc: seq<Member>, m: Member)
    ensures MembersText(ft, acc + [m]) ==
            MembersText(ft, acc) + (if acc == [] then [] else [COMMA]) + StringText(m.key) + [COLON] + Text(ft, m.value)
  {
    hide Text, StringText;
    assert (acc + [m])[..|acc|] == acc;
  }

  /** The text between the brackets of an array, or between the braces of a map. */
  ghost function ListText(ft: FloatText, isMap: bool, acc: seq<Member>): seq<byte> {
    if isMap then MembersText(ft, acc) else ItemsText(ft, Values(acc))
  }

  /** What stands before an element: a comma unless it is the first, and its key in an object. */
  function Lead(isMap: bool, first: bool, key: seq<byte>): seq<byte> {
    (if first then [] else [COMMA]) + if isMap then StringText(key) + [COLON] else []
  }

  lemma ListGrows(ft: FloatText, isMap: bool, acc: seq<Member>, m: Member)
    ensures ListText(ft, isMap, acc + [m]) ==
            ListText(ft, isMap, acc) + Lead(isMap, acc == [], m.key) + Text(ft, m.value)
  {
    hide Text, StringText, MembersText, ItemsText, Values;
    if isMap {
      ObjectGrows(ft, acc, m);
    } else {
      ArrayGrows(ft, acc, m);
    }
  }

  lemma OutputGrows(ft: FloatText, isMap: bool, open: seq<byte>, acc: seq<Member>, m: Member)
    ensures open + ListText(ft, isMap, acc + [m]) ==
            open + ListText(ft, isMap, acc) + Lead(isMap, acc == [], m.key) + Text(ft, m.value)
  {
    hide ListText, Lead, Text;
    ListGrows(ft, isMap, acc, m);
  }

  method AppendLead(dst: seq<byte>, isMap: bool, first: bool, key: seq<byte>) returns (out: seq<byte>)
    ensures out == dst + Lead(isMap, first, key)
  {
    hide StringText;
    out := dst;
    if !first {
      out := out + [COMMA];
    }
    if isMap {
      out := AppendJSONString(out, key);
      out := out + [COLON];
    }
  }

  method AppendFloat(dst: seq<byte>, ft: FloatText, bits: nat, width: nat) returns (out: seq<byte>)
    ensures out == dst + ft(bits, width)
  {
    out := dst + ft(bits, width);
  }

  // ---------- prefixes ----------

  /** A length and that many bytes; a negative or too large length fails behind the length. */
  method NextRun(src: seq<byte>) returns (r: Run)
    ensures r == ReadRun(src)
  {
    var g := ReadLongValue(src);
    if g.None? {
      return NoBytes(src);
    }
    var rest := src[g.value.used..];
    if g.value.value < 0 || g.value.value > |rest| {
      return NoBytes(rest);
    }
    return Bytes(rest[..g.value.value], rest[g.value.value..]);
  }

  /** A block count; a negative one is followed by a byte size that is read and dropped. */
  method NextBlock(src: seq<byte>) returns (b: Block)
    ensures b == ReadBlock(src)
  {
    var g := ReadLongValue(src);
    if g.None? {
      return NoBlock(src);
    }
    var rest := src[g.value.used..];
    var count := g.value.value;
    if count == 0 {
      return End(rest);
    }
    var absCount: int := count;
    if count < 0 {
      var size := ReadLongValue(rest);
      if size.None? {
        return NoBlock(rest);
      }
      rest := rest[size.value.used..];
      absCount := LenLong(-(count as int));
    }
    NegatedCount(count);
    return Items(if absCount > 0 then absCount else 0, rest);
  }

  lemma NegatedCount(count: Int64)
    ensures count < 0 ==> LenLong(-(count as int)) == if count == -W63 then count else -(count as int)
  {}

  method NextArm(src: seq<byte>, arms: nat) returns (a: Arm)
    ensures a == ReadArm(src, arms)
  {
    var g := ReadLongValue(src);
    if g.None? {
      return NoArm(src);
    }
    var rest := src[g.value.used..];
    if g.value.value < 0 || g.value.value >= arms {
      return NoArm(rest);
    }
    return Arm(g.value.value, rest);
  }

  /** Kinds without children. */
  method DecodeScalar(ft: FloatText, dst: seq<byte>, src: seq<byte>, p: Program, op: Op, skip: bool)
    returns (out: seq<byte>, rest: seq<byte>, ok: bool)
    requires IsScalar(op.kind)
    ensures Appended(ft, dst, skip, Scalar(op.kind, op.param, p.symbols, src), out, rest, ok)
  {
    hide StringText, IntText, HexText, LittleEndian, ReadLong, ReadRun, Suffix;
    out, rest := dst, src;
    match op.kind
    case KNull =>
      if !skip {
        out := out + NULL_TEXT;
      }
      return out, rest, true;
    case KBool =>
      if |src| < 1 {
        return out, rest, false;
      }
      rest := src[1..];
      if !skip {
        out := out + if src[0] != 0 then TRUE_TEXT else FALSE_TEXT;
      }
      return out, rest, true;
    case KInt | KLong =>
      var g := ReadLongValue(src);
      if g.None? {
        return out, rest, false;
      }
      rest := src[g.value.used..];
      if !skip {
        out := AppendInt64(out, g.value.value);
      }
      return out, rest, true;
    case KFloat =>
      if |src| < 4 {
        return out, rest, false;
      }
      rest := src[4..];
      if !skip {
        out := AppendFloat(out, ft, LittleEndian(src[..4]), 4);
      }
      return out, rest, true;
    case KDouble =>
      if |src| < 8 {
        return out, rest, false;
      }
      rest := src[8..];
      if !skip {
        out := AppendFloat(out, ft, LittleEndian(src[..8]), 8);
      }
      return out, rest, true;
    case KBytes =>
      var run := NextRun(src);
      rest := run.rest;
      if run.NoBytes? {
        return out, rest, false;
      }
      if !skip {
        out := AppendHex(out, run.bytes);
      }
      return out, rest, true;
    case KString =>
      var run := NextRun(src);
      rest := run.rest;
      if run.NoBytes? {
        return out, rest, false;
      }
      if !skip {
        out := AppendJSONString(out, run.bytes);
      }
      return out, rest, true;
    case KEnum =>
      var g := ReadLongValue(src);
      if g.None? {
        return out, rest, false;
      }
      rest := src[g.value.used..];
      if !skip {
        if 0 <= g.value.value < |p.symbols| {
          out := AppendJSONString(out, p.symbols[g.value.value]);
        } else {
          out := AppendInt64(out, g.value.value);
        }
      }
      return out, rest, true;
    case KFixed =>
      if |src| < op.param {
        return out, rest, false;
      }
      rest := src[op.param..];
      if !skip {
        out := AppendHex(out, src[..op.param]);
      }
      return out, rest, true;
  }

  /** The hex string of some bytes is a JSON string that needs no escapes. */
  method AppendHex(dst: seq<byte>, b: seq<byte>) returns (out: seq<byte>)
    ensures out == dst + StringText(HexText(b))
  {
    HexIsPlain(b);
    HexNeedsNoEscape(HexText(b));
    out := AppendJSONBytes(dst, b);
  }

  // ---------- values with children ----------

  method DecodeValue(ft: FloatText, dst: seq<byte>, src: seq<byte>, p: Program, i: nat, skip: bool)
    returns (out: seq<byte>, rest: seq<byte>, ok: bool)
    requires Layered(p) && i < |p.ops|
    ensures Appended(ft, dst, skip, AvroProgram.Decode(p, i, src), out, rest, ok)
    decreases |p.ops| - i, 3
  {
    hide Layered, Scalar, ReadArm;
    var kids := ChildOpsFor(p, i);
    KidsAfter(p, i);
    match p.ops[i].kind
    case KRecord =>
      if skip {
        var tmp;
        tmp, rest, ok := DecodeRecord(ft, [], src, p, i, kids);
        return dst, rest, ok;
      }
      out, rest, ok := DecodeRecord(ft, dst, src, p, i, kids);
    case KArray => out, rest, ok := DecodeArray(ft, dst, src, p, i, skip);
    case KMap => out, rest, ok := DecodeMap(ft, dst, src, p, i, skip);
    case KUnion =>
      var a := NextArm(src, |kids|);
      if a.NoArm? {
        return dst, a.rest, false;
      }
      out, rest, ok := DecodeValue(ft, dst, a.rest, p, kids[a.index], skip);
    case _ => out, rest, ok := DecodeScalar(ft, dst, src, p, p.ops[i], skip);
  }

  method DecodeRecord(ft: FloatText, dst: seq<byte>, src: seq<byte>, p: Program, ghost i: nat, kids: seq<nat>)
    returns (out: seq<byte>, rest: seq<byte>, ok: bool)
    requires Layered(p) && i < |p.ops| && forall m :: 0 <= m < |kids| ==> i < kids[m] < |p.ops|
    ensures Appended(ft, dst, false, ToOutcome(true, AvroProgram.DecodeFields(p, i, kids, 0, src, [])), out, rest, ok)
    decreases |p.ops| - i, 2
  {
    hide Layered, AvroProgram.Decode, ListText, Lead, Text, Suffix;
    NoItems(ft, true);
    out, rest := dst + [LBRACE], src;
    var first := true;
    ghost var acc: seq<Member> := [];
    for k := 0 to |kids|
      invariant first == (acc == []) && out == dst + [LBRACE] + ListText(ft, true, acc)
      invariant AvroProgram.DecodeFields(p, i, kids, k, rest, acc) == AvroProgram.DecodeFields(p, i, kids, 0, src, [])
    {
      var op := p.ops[kids[k]];
      NameFits(p, kids[k]);
      ghost var r := AvroProgram.Decode(p, kids[k], rest);
      if !op.skip {
        out := AppendLead(out, true, first, FieldName(p, op));
        first := false;
      }
      out, rest, ok := DecodeValue(ft, out, rest, p, kids[k], op.skip);
      if !ok {
        return;
      }
      if !op.skip {
        ghost var m := Member(FieldName(p, op), r.json);
        OutputGrows(ft, true, dst + [LBRACE], acc, m);
        acc := acc + [m];
      }
    }
    ObjectText(ft, acc);
    out := out + [RBRACE];
    ok := true;
  }

  lemma ObjectText(ft: FloatText, acc: seq<Member>)
    ensures Text(ft, JObj(acc)) == [LBRACE] + ListText(ft, true, acc) + [RBRACE]
    ensures Text(ft, JArr(Values(acc))) == [LBRACKET] + ListText(ft, false, acc) + [RBRACKET]
  {}

  /** What a list method hands back for known entries: open is the text up to the current position. */
  ghost predicate ListAppended(ft: FloatText, isMap: bool, open: seq<byte>, skip: bool, r: Listed, out: seq<byte>,
      rest: seq<byte>, ok: bool) {
    && ok == r.Entries? && rest == r.rest && open <= out
    && (skip ==> out == open)
    && (!skip && ok ==> out == open + ListText(ft, isMap, r.entries))
  }

  /** The items of one block; open is the output before the list's first item. */
  method DecodeItems(ft: FloatText, ghost open: seq<byte>, dst: seq<byte>, src: seq<byte>, p: Program, i: nat,
      isMap: bool, skip: bool,
                     count: nat, first0: bool, ghost acc0: seq<Member>)
    returns (out: seq<byte>, rest: seq<byte>, ok: bool, first: bool)
    requires Layered(p) && i < |p.ops| && ChildOpsFor(p, i) != []
    requires dst == (if skip then open else open + ListText(ft, isMap, acc0)) && (!skip ==> first0 == (acc0 == []))
    ensures ListAppended(ft, isMap, open, skip, AvroProgram.DecodeItems(p, i, isMap, count, src, acc0), out, rest, ok)
    ensures ok && !skip ==> first == (AvroProgram.DecodeItems(p, i, isMap, count, src, acc0).entries == [])
    decreases |p.ops| - i, 1
  {
    hide Layered, AvroProgram.Decode, ReadRun, ListText, Lead, Text, Suffix;
    KidsAfter(p, i);
    out, rest, first := dst, src, first0;
    ghost var acc := acc0;
    for j := 0 to count
      invariant out == (if skip then open else open + ListText(ft, isMap, acc)) && (!skip ==> first == (acc == []))
      invariant AvroProgram.DecodeItems(p, i, isMap, count - j, rest, acc) ==
                AvroProgram.DecodeItems(p, i, isMap, count, src, acc0)
    {
      var key := Bytes([], rest);
      if isMap {
        key := NextRun(rest);
      }
      if key.NoBytes? {
        return out, key.rest, false, first;
      }
      if !skip {
        out := AppendLead(out, isMap, first, key.bytes);
      }
      first := false;
      ghost var r := AvroProgram.Decode(p, ChildOpsFor(p, i)[0], key.rest);
      out, rest, ok := DecodeValue(ft, out, key.rest, p, ChildOpsFor(p, i)[0], skip);
      if !ok {
        return;
      }
      ghost var m := Member(key.bytes, r.json);
      OutputGrows(ft, isMap, open, acc, m);
      acc := acc + [m];
    }
    ok := true;
  }

  /** Blocks until the end of the list. */
  method DecodeBlocks(ft: FloatText, dst: seq<byte>, src: seq<byte>, p: Program, i: nat, isMap: bool, skip: bool)
    returns (out: seq<byte>, rest: seq<byte>, ok: bool)
    requires Layered(p) && i < |p.ops|
    ensures ListAppended(ft, isMap, dst, skip, AvroProgram.DecodeBlocks(p, i, isMap, src, []), out, rest, ok)
    decreases |p.ops| - i, 2, 0
  {
    hide Layered, AvroProgram.Decode, AvroProgram.DecodeItems, ReadBlock, ListText;
    NoItems(ft, isMap);
    out, rest := dst, src;
    var first := true;
    ghost var acc: seq<Member> := [];
    while true
      invariant out == (if skip then dst else dst + ListText(ft, isMap, acc)) && (!skip ==> first == (acc == []))
      invariant AvroProgram.DecodeBlocks(p, i, isMap, rest, acc) == AvroProgram.DecodeBlocks(p, i, isMap, src, [])
      decreases |rest|
    {
      var b := NextBlock(rest);
      rest := b.rest;
      if b.NoBlock? {
        return out, rest, false;
      }
      if b.End? {
        return out, rest, true;
      }
      if ChildOpsFor(p, i) == [] {
        return out, rest, false;
      }
      ghost var r := AvroProgram.DecodeItems(p, i, isMap, b.count, rest, acc);
      out, rest, ok, first := DecodeItems(ft, dst, out, rest, p, i, isMap, skip, b.count, first, acc);
      if !ok {
        return;
      }
      acc := r.entries;
    }
  }

  lemma NoItems(ft: FloatText, isMap: bool)
    ensures ListText(ft, isMap, []) == []
  {}

  method DecodeArray(ft: FloatText, dst: seq<byte>, src: seq<byte>, p: Program, i: nat, skip: bool)
    returns (out: seq<byte>, rest: seq<byte>, ok: bool)
    requires Layered(p) && i < |p.ops|
    ensures Appended(ft, dst, skip, ToOutcome(false, AvroProgram.DecodeBlocks(p, i, false, src, [])), out, rest, ok)
    decreases |p.ops| - i, 2, 1
  {
    hide Layered, AvroProgram.DecodeBlocks, ItemsText;
    out := if skip then dst else dst + [LBRACKET];
    out, rest, ok := DecodeBlocks(ft, out, src, p, i, false, skip);
    if ok && !skip {
      out := out + [RBRACKET];
    }
  }

  method DecodeMap(ft: FloatText, dst: seq<byte>, src: seq<byte>, p: Program, i: nat, skip: bool)
    returns (out: seq<byte>, rest: seq<byte>, ok: bool)
    requires Layered(p) && i < |p.ops|
    ensures Appended(ft, dst, skip, ToOutcome(true, AvroProgram.DecodeBlocks(p, i, true, src, [])), out, rest, ok)
    decreases |p.ops| - i, 2, 1
  {
    hide Layered, AvroProgram.DecodeBlocks, MembersText;
    out := if skip then dst else dst + [LBRACE];
    out, rest, ok := DecodeBlocks(ft, out, src, p, i, true, skip);
    if ok && !skip {
      out := out + [RBRACE];
    }
  }

  /** The entry point: the fields below the root as one JSON object; for a record root, the decoded record. */
  method AppendAvroToJSON(ft: FloatText, dst: seq<byte>, src: seq<byte>, p: Program) returns (out: seq<byte>, ok: bool)
    requires Layered(p) && |p.ops| > 0
    ensures forall m :: 0 <= m < |ChildOpsFor(p, 0)| ==> 0 < ChildOpsFor(p, 0)[m] < |p.ops|
    ensures var r := ToOutcome(true, AvroProgram.DecodeFields(p, 0, ChildOpsFor(p, 0), 0, src, []));
            && ok == r.Good? && dst <= out && (ok ==> out == dst + Text(ft, r.json))
            && (p.ops[0].kind.KRecord? ==> r == AvroProgram.Decode(p, 0, src))
  {
    KidsAfter(p, 0);
    var rest;
    out, rest, ok := DecodeRecord(ft, dst, src, p, 0, ChildOpsFor(p, 0));
  }
}
