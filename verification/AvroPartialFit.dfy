/**
 Which skips are right. For any choice of skipped ops the decode equals the full decode
 restricted to the path, on every input, if and only if the skips fit the path wherever some
 input reaches them.
 */
module AvroPartialFit {
  import opened Machine
  import opened Varint
  import opened JsonText
  import opened AvroWire
  import opened AvroTree
  import opened AvroProgram
  import opened AvroEncode
  import opened AvroEnums
  import opened AvroPartial

  // ---------- skips that fit a path ----------

  predicate OnPath(name: Name, path: seq<Name>) {
    path == [] || name == path[0]
  }

  function Tail(path: seq<Name>): seq<Name> {
    if path == [] then [] else path[1..]
  }

  /** The m-th child of op i. */
  function ChildAt(p: Program, i: nat, m: nat): nat {
    if i < |p.childOps| && m < |p.childOps[i]| then p.childOps[i][m] else 0
  }

  /**
   The skipped ops fit the path below op i: of a record the fields off the path are skipped and
   those on it are not; past the path's end nothing is; a path cannot go on into a map that can
   hold anything. Values that no input decodes to do not matter.
   */
  ghost predicate SkipsFit(p: Program, off: set<nat>, i: nat, s: Schema, path: seq<Name>)
    decreases s
  {
    Decodable(s) ==>
      match s
      case Record(_, fields) =>
        forall m :: 0 <= m < |fields| ==>
          if OnPath(fields[m].name, path)
          then ChildAt(p, i, m) !in off && SkipsFit(p, off, ChildAt(p, i, m), fields[m].type_, Tail(path))
          else ChildAt(p, i, m) in off
      case Array(items) => SkipsFit(p, off, ChildAt(p, i, 0), items, [])
      case Map(values) => if path == [] then SkipsFit(p, off, ChildAt(p, i, 0), values, []) else !Decodable(values)
      case Union(arms) => forall k :: 0 <= k < |arms| ==> SkipsFit(p, off, ChildAt(p, i, k), arms[k], path)
      case _ => true
  }

  ghost function Skipped(q: Program): (off: set<nat>)
    ensures forall o :: o in off <==> 0 <= o < |q.ops| && q.ops[o].skip
  {
    set o | 0 <= o < |q.ops| && q.ops[o].skip
  }

  /** The members a record shows under a path. */
  function Shown(ms: seq<Member>, path: seq<Name>): seq<Member> {
    if path == [] then ms else Along(ms, path)
  }

  lemma ShownGrows(acc: seq<Member>, m: Member, path: seq<Name>)
    ensures Shown(acc + [m], path) ==
            if OnPath(m.key, path) then Shown(acc, path) + [Member(m.key, Restrict(m.value, Tail(path)))]
            else Shown(acc, path)
  {
    hide Along;
    if path == [] {
      assert Restrict(m.value, []) == m.value;
    } else {
      AlongGrows(acc, m, path);
    }
  }

  function ShownListed(l: Listed, path: seq<Name>): Listed {
    if l.Entries? then Entries(Shown(l.entries, path), l.rest) else l
  }

  /** A program laid out for a schema, and the same program with some ops skipped. */
  ghost predicate Pair(p: Program, q: Program, i: nat, s: Schema, name: Name) {
    Layered(p) && Layered(q) && FlagsOnly(p, q) && Laid(p, i, s, name)
  }

  lemma PairAt(p: Program, q: Program, i: nat, s: Schema, name: Name)
    requires Pair(p, q, i, s, name)
    ensures i < |p.ops| == |q.ops| && i < |p.childOps| && q.childOps == p.childOps && |p.childOps[i]| == |Kids(s)|
    ensures KindOf(s) == Some(p.ops[i].kind) && q.ops[i].kind == p.ops[i].kind
    ensures q.ops[i].param == p.ops[i].param && q.symbols == p.symbols && !p.ops[i].skip
    ensures forall m :: 0 <= m < |p.childOps[i]| ==> i < p.childOps[i][m] < |p.ops|
    ensures p.ops[i].nameOff + p.ops[i].nameLen <= |p.slab| && q.ops[i].nameOff + q.ops[i].nameLen <= |q.slab|
    ensures FieldName(q, q.ops[i]) == FieldName(p, p.ops[i]) == name
  {
    hide Kids, Starts;
    LaidAt(p, i, s, name);
  }

  lemma PairKid(p: Program, q: Program, i: nat, s: Schema, name: Name, k: nat)
    requires Pair(p, q, i, s, name) && k < |Kids(s)|
    ensures Kids(s)[k].type_ < s && Pair(p, q, ChildAt(p, i, k), Kids(s)[k].type_, Kids(s)[k].name)
    ensures i < |p.childOps| && k < |p.childOps[i]| && ChildAt(p, i, k) == p.childOps[i][k]
  {
    hide Kids, Layered, FlagsOnly, Laid;
    LaidKid(p, i, s, name, k);
  }

  // ---------- fitting skips decode right ----------

  lemma ScalarNotObject(k: Kind, size: nat, symbols: seq<seq<byte>>, src: seq<byte>, path: seq<Name>)
    requires IsScalar(k)
    ensures RestrictOutcome(Scalar(k, size, symbols, src), path) == Scalar(k, size, symbols, src)
  {
    hide ReadLong, ReadRun, HexText, LittleEndian, Suffix;
  }

  lemma RestrictWhole(r: Outcome)
    ensures RestrictOutcome(r, []) == r
  {}

  lemma {:induction false} FitDecodes(p: Program, q: Program, i: nat, s: Schema, name: Name, path: seq<Name>,
      src: seq<byte>)
    requires Pair(p, q, i, s, name) && SkipsFit(p, Skipped(q), i, s, path)
    ensures i < |p.ops| == |q.ops|
    ensures AvroProgram.Decode(q, i, src) == RestrictOutcome(AvroProgram.Decode(p, i, src), path)
    decreases s, 2
  {
    hide Pair, Suffix, Scalar, ReadArm, Restrict, Decodable, Layered, FlagsOnly, FieldName, Laid,
         AvroProgram.DecodeFields, AvroProgram.DecodeBlocks;
    PairAt(p, q, i, s, name);
    PairParts(p, q, i, s, name);
    if !Decodable(s) {
      UndecodableBad(p, q, i, s, name, src);
    } else {
      match s
      case Record(_, fields) =>
        FitFields(p, q, i, s, name, path, 0, src, []);
        assert Shown([], path) == [];
        ShownRecord(AvroProgram.DecodeFields(p, i, p.childOps[i], 0, src, []), path);
      case Array(items) => FitArray(p, q, i, s, name, path, src);
      case Map(values) => FitMap(p, q, i, s, name, path, src);
      case Union(arms) =>
        var a := ReadArm(src, |arms|);
        if a.Arm? {
          PairKid(p, q, i, s, name, a.index);
          FitDecodes(p, q, ChildAt(p, i, a.index), arms[a.index], [], path, a.rest);
        }
      case _ => FitScalar(p, q, i, s, name, path, src);
    }
  }

  lemma FitScalar(p: Program, q: Program, i: nat, s: Schema, name: Name, path: seq<Name>, src: seq<byte>)
    requires Pair(p, q, i, s, name) && !s.Record? && !s.Array? && !s.Map? && !s.Union?
    ensures i < |p.ops| == |q.ops| && Layered(p) && Layered(q)
    ensures AvroProgram.Decode(q, i, src) == RestrictOutcome(AvroProgram.Decode(p, i, src), path)
  {
    hide Scalar, Restrict;
    PairAt(p, q, i, s, name);
    ScalarNotObject(p.ops[i].kind, p.ops[i].param, p.symbols, src, path);
  }

  lemma PairParts(p: Program, q: Program, i: nat, s: Schema, name: Name)
    requires Pair(p, q, i, s, name)
    ensures Layered(p) && Layered(q) && FlagsOnly(p, q) && Laid(p, i, s, name)
  {}

  lemma ShownRecord(l: Listed, path: seq<Name>)
    ensures ToOutcome(true, ShownListed(l, path)) == RestrictOutcome(ToOutcome(true, l), path)
  {
    hide Along;
  }

  lemma UndecodableBad(p: Program, q: Program, i: nat, s: Schema, name: Name, src: seq<byte>)
    requires Pair(p, q, i, s, name) && !Decodable(s)
    ensures i < |p.ops| == |q.ops|
    ensures AvroProgram.Decode(p, i, src).Bad? && AvroProgram.Decode(q, i, src) == AvroProgram.Decode(p, i, src)
  {
    hide Pair, AvroProgram.Decode, AvroTree.Decode, Decodable, Layered, FlagsOnly, Laid;
    PairAt(p, q, i, s, name);
    PairParts(p, q, i, s, name);
    DecodesTree(p, i, s, name, src);
    UndecodableFails(s, Shared(p.symbols), src);
    SameConsumption(p, q, i, src);
  }

  lemma {:induction false} FitFields(p: Program, q: Program, i: nat, s: Schema, name: Name, path: seq<Name>, k: nat,
      src: seq<byte>, acc: seq<Member>)
    requires Pair(p, q, i, s, name) && s.Record? && Decodable(s) && SkipsFit(p, Skipped(q), i, s, path)
    requires Layered(p) && Layered(q) && i < |p.ops| == |q.ops| && i < |p.childOps| && k <= |p.childOps[i]|
    requires forall m :: 0 <= m < |p.childOps[i]| ==> i < p.childOps[i][m] < |p.ops|
    ensures AvroProgram.DecodeFields(q, i, p.childOps[i], k, src, Shown(acc, path))
            == ShownListed(AvroProgram.DecodeFields(p, i, p.childOps[i], k, src, acc), path)
    decreases s, 1, |p.childOps[i]| - k
  {
    hide Pair, Suffix, FieldName, AvroProgram.Decode, Shown, Restrict, Decodable, Layered, OnPath, Tail;
    PairAt(p, q, i, s, name);
    if k < |p.childOps[i]| {
      var kid, f := p.childOps[i][k], s.fields[k];
      PairKid(p, q, i, s, name, k);
      PairAt(p, q, kid, f.type_, f.name);
      var r := AvroProgram.Decode(p, kid, src);
      if OnPath(f.name, path) {
        FitDecodes(p, q, kid, f.type_, f.name, Tail(path), src);
      } else {
        PairConsumes(p, q, kid, f.type_, f.name, src);
      }
      if r.Good? {
        var m := Member(f.name, r.json);
        ShownGrows(acc, m, path);
        FitFields(p, q, i, s, name, path, k + 1, r.rest, acc + [m]);
      }
    }
  }

  lemma PairConsumes(p: Program, q: Program, i: nat, s: Schema, name: Name, src: seq<byte>)
    requires Pair(p, q, i, s, name)
    ensures i < |p.ops| == |q.ops| && Layered(p) && Layered(q)
    ensures AvroProgram.Decode(q, i, src).Good? == AvroProgram.Decode(p, i, src).Good?
            && AvroProgram.Decode(q, i, src).rest == AvroProgram.Decode(p, i, src).rest
  {
    hide AvroProgram.Decode, Layered, Laid, FlagsOnly;
    PairAt(p, q, i, s, name);
    SameConsumption(p, q, i, src);
  }

  lemma {:induction false} FitArray(p: Program, q: Program, i: nat, s: Schema, name: Name, path: seq<Name>,
      src: seq<byte>)
    requires Pair(p, q, i, s, name) && s.Array? && SkipsFit(p, Skipped(q), i, s, path)
    ensures i < |p.ops| == |q.ops| && Layered(p) && Layered(q)
    ensures AvroProgram.Decode(q, i, src) == RestrictOutcome(AvroProgram.Decode(p, i, src), path)
    decreases s, 1
  {
    hide Pair, Suffix, Layered, AvroProgram.DecodeBlocks, SkipsFit;
    PairAt(p, q, i, s, name);
    PairConsumes(p, q, i, s, name, src);
    FitItems(p, q, i, s, name, path);
    SameChildSameBlocks(p, q, i, false, src, []);
  }

  /** Whole items decode alike. */
  lemma {:induction false} FitItems(p: Program, q: Program, i: nat, s: Schema, name: Name, path: seq<Name>)
    requires Pair(p, q, i, s, name) && (s.Array? || (s.Map? && path == [])) && SkipsFit(p, Skipped(q), i, s, path)
    ensures i < |p.ops| == |q.ops| && Layered(p) && Layered(q) && SameChild(p, q, i)
    decreases s, 0
  {
    hide Pair, Suffix, Layered, AvroProgram.Decode, Restrict;
    PairAt(p, q, i, s, name);
    PairConsumes(p, q, i, s, name, []);
    PairKid(p, q, i, s, name, 0);
    var item := Kids(s)[0].type_;
    var c := ChildAt(p, i, 0);
    forall src
      ensures AvroProgram.Decode(q, c, src) == AvroProgram.Decode(p, c, src)
    {
      FitDecodes(p, q, c, item, [], [], src);
      RestrictWhole(AvroProgram.Decode(p, c, src));
    }
  }

  ghost predicate SameChild(p: Program, q: Program, i: nat)
    requires Layered(p) && Layered(q) && i < |p.ops| == |q.ops|
  {
    && i < |p.childOps| && p.childOps == q.childOps && p.childOps[i] != []
    && forall src :: AvroProgram.Decode(q, p.childOps[i][0], src) == AvroProgram.Decode(p, p.childOps[i][0], src)
  }

  lemma {:induction false} SameChildSameBlocks(p: Program, q: Program, i: nat, isMap: bool, src: seq<byte>,
      acc: seq<Member>)
    requires Layered(p) && Layered(q) && i < |p.ops| == |q.ops| && SameChild(p, q, i)
    ensures AvroProgram.DecodeBlocks(q, i, isMap, src, acc) == AvroProgram.DecodeBlocks(p, i, isMap, src, acc)
    decreases |src|
  {
    hide Layered, SameChild, ReadBlock, AvroProgram.DecodeItems;
    SameChildKids(p, q, i);
    var b := ReadBlock(src);
    if b.Items? {
      SameChildSameItems(p, q, i, isMap, b.count, b.rest, acc);
      var r := AvroProgram.DecodeItems(p, i, isMap, b.count, b.rest, acc);
      if r.Entries? {
        SameChildSameBlocks(p, q, i, isMap, r.rest, r.entries);
      }
    }
  }

  lemma SameChildKids(p: Program, q: Program, i: nat)
    requires Layered(p) && Layered(q) && i < |p.ops| == |q.ops| && SameChild(p, q, i)
    ensures ChildOpsFor(p, i) == ChildOpsFor(q, i) != []
  {
    hide AvroProgram.Decode;
  }

  lemma {:induction false} SameChildSameItems(p: Program, q: Program, i: nat, isMap: bool, count: nat, src: seq<byte>,
      acc: seq<Member>)
    requires Layered(p) && Layered(q) && i < |p.ops| == |q.ops| && SameChild(p, q, i)
    ensures ChildOpsFor(p, i) == ChildOpsFor(q, i) != []
    ensures AvroProgram.DecodeItems(q, i, isMap, count, src, acc) ==
            AvroProgram.DecodeItems(p, i, isMap, count, src, acc)
    decreases count
  {
    hide Layered, ReadKey, AvroProgram.Decode, Suffix;
    KidIndex(p, i);
    if count > 0 {
      var key := ReadKey(isMap, src);
      if key.Bytes? {
        var r := AvroProgram.Decode(p, p.childOps[i][0], key.rest);
        if r.Good? {
          SameChildSameItems(p, q, i, isMap, count - 1, r.rest, acc + [Member(key.bytes, r.json)]);
        }
      }
    }
  }

  lemma {:induction false} FitMap(p: Program, q: Program, i: nat, s: Schema, name: Name, path: seq<Name>,
      src: seq<byte>)
    requires Pair(p, q, i, s, name) && s.Map? && SkipsFit(p, Skipped(q), i, s, path)
    ensures i < |p.ops| == |q.ops| && Layered(p) && Layered(q)
    ensures AvroProgram.Decode(q, i, src) == RestrictOutcome(AvroProgram.Decode(p, i, src), path)
    decreases s, 1
  {
    hide Pair, Suffix, Layered, AvroProgram.DecodeBlocks, Decodable;
    PairAt(p, q, i, s, name);
    PairConsumes(p, q, i, s, name, src);
    MapDecodable(s);
    if path == [] {
      FitItems(p, q, i, s, name, path);
      SameChildSameBlocks(p, q, i, true, src, []);
    } else {
      PairKid(p, q, i, s, name, 0);
      forall rest
        ensures AvroProgram.Decode(p, ChildAt(p, i, 0), rest).Bad? && AvroProgram.Decode(q, ChildAt(p, i, 0), rest).Bad?
      {
        UndecodableBad(p, q, ChildAt(p, i, 0), s.values, [], rest);
      }
      OnlyEmptyMaps(p, i, src, []);
      OnlyEmptyMaps(q, i, src, []);
      assert Along([], path) == [];
      assert Restrict(JObj([]), path) == JObj([]);
    }
  }

  lemma MapDecodable(s: Schema)
    requires s.Map? || s.Array?
    ensures Decodable(s)
  {}

  /** When no item decodes, only the empty map does. */
  lemma {:induction false} OnlyEmptyMaps(p: Program, i: nat, src: seq<byte>, acc: seq<Member>)
    requires Layered(p) && i < |p.ops| && i < |p.childOps| && p.childOps[i] != []
    requires forall rest :: AvroProgram.Decode(p, p.childOps[i][0], rest).Bad?
    ensures var r := AvroProgram.DecodeBlocks(p, i, true, src, acc); r.Entries? ==> r.entries == acc
    decreases |src|
  {
    hide Layered, ReadBlock, AvroProgram.Decode, ReadKey;
    KidIndex(p, i);
    var b := ReadBlock(src);
    if b.Items? {
      if b.count == 0 {
        OnlyEmptyMaps(p, i, b.rest, acc);
      } else {
        var key := ReadKey(true, b.rest);
        assert key.Bytes? ==> AvroProgram.Decode(p, p.childOps[i][0], key.rest).Bad?;
        assert AvroProgram.DecodeItems(p, i, true, b.count, b.rest, acc).Broken?;
      }
    }
  }

  // ---------- skips that do not fit show ----------

  /** An op with children behind it. */
  ghost predicate Node(p: Program, i: nat) {
    && Layered(p) && i < |p.ops| && i < |p.childOps|
    && forall m :: 0 <= m < |p.childOps[i]| ==> i < p.childOps[i][m] < |p.ops|
  }

  /** The fields of op i from the k-th on. */
  ghost function FieldsFrom(p: Program, i: nat, k: nat, src: seq<byte>, acc: seq<Member>): Listed
    requires Node(p, i) && k <= |p.childOps[i]|
  {
    AvroProgram.DecodeFields(p, i, p.childOps[i], k, src, acc)
  }

  lemma PairNode(p: Program, q: Program, i: nat, s: Schema, name: Name)
    requires Pair(p, q, i, s, name)
    ensures Node(p, i) && Node(q, i) && q.childOps == p.childOps && |p.ops| == |q.ops| && |p.childOps[i]| == |Kids(s)|
  {
    hide Laid, FlagsOnly, Layered, Kids;
    PairAt(p, q, i, s, name);
  }

  lemma FieldsStep(p: Program, i: nat, k: nat, src: seq<byte>, acc: seq<Member>)
    requires Node(p, i) && k < |p.childOps[i]|
    ensures var c := p.childOps[i][k];
            && p.ops[c].nameOff + p.ops[c].nameLen <= |p.slab|
            && FieldsFrom(p, i, k, src, acc) ==
               match AvroProgram.Decode(p, c, src)
               case Bad(rest) => Broken(rest)
               case Good(j, rest) =>
                 FieldsFrom(p, i, k + 1, rest, if p.ops[c].skip then acc else acc + [Member(FieldName(p, p.ops[c]), j)])
  {
    hide AvroProgram.Decode, Suffix, FieldName;
  }

  lemma {:induction false} FieldsExtend(p: Program, i: nat, k: nat, src: seq<byte>, acc: seq<Member>)
    requires Node(p, i) && k <= |p.childOps[i]|
    ensures var r := FieldsFrom(p, i, k, src, acc); r.Entries? ==> acc <= r.entries
    decreases |p.childOps[i]| - k
  {
    hide AvroProgram.Decode, FieldsFrom, FieldName, Layered;
    if k == |p.childOps[i]| {
      FieldsEnd(p, i, src, acc);
    } else {
      FieldsStep(p, i, k, src, acc);
      var c := p.childOps[i][k];
      NodeChild(p, i, k);
      var r := AvroProgram.Decode(p, c, src);
      if r.Good? {
        FieldsExtend(p, i, k + 1, r.rest,
                     if p.ops[c].skip then acc else acc + [Member(FieldName(p, p.ops[c]), r.json)]);
      }
    }
  }

  lemma NodeChild(p: Program, i: nat, k: nat)
    requires Node(p, i) && k < |p.childOps[i]|
    ensures Layered(p) && p.childOps[i][k] < |p.ops|
    ensures p.ops[p.childOps[i][k]].nameOff + p.ops[p.childOps[i][k]].nameLen <= |p.slab|
  {}

  lemma FieldsEnd(p: Program, i: nat, src: seq<byte>, acc: seq<Member>)
    requires Node(p, i)
    ensures FieldsFrom(p, i, |p.childOps[i]|, src, acc) == Entries(acc, src)
  {
    hide AvroProgram.Decode, Suffix;
  }

  // ---------- bytes on which both programs succeed ----------

  ghost predicate Sampled(p: Program, q: Program, i: nat, b: seq<byte>)
    requires Layered(p) && Layered(q) && i < |p.ops| == |q.ops|
  {
    forall rest :: SampledBefore(p, q, i, b, rest)
  }

  ghost predicate SampledBefore(p: Program, q: Program, i: nat, b: seq<byte>, rest: seq<byte>)
    requires Layered(p) && Layered(q) && i < |p.ops| == |q.ops|
  {
    var r, r' := AvroProgram.Decode(p, i, b + rest), AvroProgram.Decode(q, i, b + rest);
    r.Good? && r'.Good? && r.rest == rest == r'.rest
  }

  lemma PairSample(p: Program, q: Program, i: nat, s: Schema, name: Name) returns (b: seq<byte>)
    requires Pair(p, q, i, s, name) && Decodable(s) && Small(s)
    ensures Layered(p) && Layered(q) && i < |p.ops| == |q.ops| && Sampled(p, q, i, b)
  {
    hide AvroProgram.Decode, AvroTree.Decode, Layered, Laid, FlagsOnly, Decodable, Small;
    PairAt(p, q, i, s, name);
    b := SampleOf(s);
    forall rest
      ensures SampledBefore(p, q, i, b, rest)
    {
      DecodesTree(p, i, s, name, b + rest);
      PairConsumes(p, q, i, s, name, b + rest);
      assert AvroTree.Decode(s, Shared(p.symbols), b + rest).Good?;
    }
  }

  /** The fields from the k-th on decode in both programs, whatever came before. */
  ghost predicate FieldsSampled(p: Program, q: Program, i: nat, k: nat, b: seq<byte>)
    requires Node(p, i) && Node(q, i) && p.childOps == q.childOps && k <= |p.childOps[i]|
  {
    forall rest, acc, acc' :: FieldsSampledBefore(p, q, i, k, b, rest, acc, acc')
  }

  ghost predicate FieldsSampledBefore(p: Program, q: Program, i: nat, k: nat, b: seq<byte>, rest: seq<byte>,
      acc: seq<Member>, acc': seq<Member>)
    requires Node(p, i) && Node(q, i) && p.childOps == q.childOps && k <= |p.childOps[i]|
  {
    var r, r' := FieldsFrom(p, i, k, b + rest, acc), FieldsFrom(q, i, k, b + rest, acc');
    r.Entries? && r'.Entries? && r.rest == rest == r'.rest
  }

  lemma RecordSample(p: Program, q: Program, i: nat, s: Schema, name: Name, k: nat) returns (b: seq<byte>)
    requires Pair(p, q, i, s, name) && s.Record? && Decodable(s) && Small(s) && k <= |s.fields|
    ensures Node(p, i) && Node(q, i) && p.childOps == q.childOps && |p.childOps[i]| == |s.fields|
    ensures FieldsSampled(p, q, i, k, b)
  {
    hide AvroTree.DecodeFields, AvroProgram.DecodeFields, Laid, FlagsOnly, Layered;
    PairNode(p, q, i, s, name);
    b := SampleFields(s.fields, k);
    forall rest, acc: seq<Member>, acc': seq<Member>
      ensures FieldsSampledBefore(p, q, i, k, b, rest, acc, acc')
    {
      FieldsDecodeTree(p, i, s, name, k, b + rest, acc);
      SameFields(p, q, i, p.childOps[i], k, b + rest, acc, acc');
      assert AvroTree.DecodeFields(s.fields, k, Shared(p.symbols), b + rest, acc).Entries?;
    }
  }

  // ---------- inputs that tell ----------

  /** The bytes decode in both programs, and the skipping one does not print the restricted value. */
  ghost predicate Misread(p: Program, q: Program, i: nat, path: seq<Name>, b: seq<byte>)
    requires Layered(p) && Layered(q) && i < |p.ops| == |q.ops|
  {
    forall rest :: MisreadBefore(p, q, i, path, b, rest)
  }

  ghost predicate MisreadBefore(p: Program, q: Program, i: nat, path: seq<Name>, b: seq<byte>, rest: seq<byte>)
    requires Layered(p) && Layered(q) && i < |p.ops| == |q.ops|
  {
    var r, r' := AvroProgram.Decode(p, i, b + rest), AvroProgram.Decode(q, i, b + rest);
    SampledBefore(p, q, i, b, rest) && r'.json != Restrict(r.json, path)
  }

  lemma AlongKeys(ms: seq<Member>, path: seq<Name>)
    requires path != []
    ensures forall n :: 0 <= n < |Along(ms, path)| ==> Along(ms, path)[n].key == path[0]
    decreases |ms|
  {
    hide Restrict;
    if ms != [] {
      AlongKeys(ms[..|ms| - 1], path);
    }
  }

  /** A field that is not skipped shows up under its name. */
  lemma {:induction false} KeyPrinted(q: Program, i: nat, j: nat, k: nat, src: seq<byte>, acc: seq<Member>)
    requires Node(q, i) && j <= k < |q.childOps[i]| && !q.ops[q.childOps[i][k]].skip
    requires FieldsFrom(q, i, j, src, acc).Entries?
    ensures var c := q.childOps[i][k];
            && q.ops[c].nameOff + q.ops[c].nameLen <= |q.slab|
            && exists m :: m in FieldsFrom(q, i, j, src, acc).entries && m.key == FieldName(q, q.ops[c])
    decreases k - j
  {
    hide AvroProgram.Decode, FieldsFrom, FieldName, Layered;
    NodeChild(q, i, k);
    NodeChild(q, i, j);
    FieldsStep(q, i, j, src, acc);
    var c := q.childOps[i][j];
    var r := AvroProgram.Decode(q, c, src);
    if j == k {
      var m := Member(FieldName(q, q.ops[c]), r.json);
      FieldsExtend(q, i, j + 1, r.rest, acc + [m]);
      assert (acc + [m])[|acc|] == m;
      assert m in FieldsFrom(q, i, j, src, acc).entries;
    } else {
      KeyPrinted(q, i, j + 1, k, r.rest, if q.ops[c].skip then acc else acc + [Member(FieldName(q, q.ops[c]), r.json)]);
    }
  }

  /** Members missing: fields on the path that are skipped make the list shorter, and no other field is printed. */
  lemma {:induction false} FewerPrinted(p: Program, q: Program, i: nat, s: Schema, name: Name, path: seq<Name>, j: nat,
      src: seq<byte>, acc: seq<Member>, acc': seq<Member>)
    requires Pair(p, q, i, s, name) && s.Record? && Node(p, i) && Node(q, i) && p.childOps == q.childOps
    requires j <= |p.childOps[i]| == |s.fields| && |acc'| <= |Shown(acc, path)|
    requires FieldsFrom(p, i, j, src, acc).Entries? && FieldsFrom(q, i, j, src, acc').Entries?
    requires forall m :: 0 <= m < |s.fields| && !OnPath(s.fields[m].name, path) ==> p.childOps[i][m] in Skipped(q)
    ensures var e, e' := FieldsFrom(p, i, j, src, acc).entries, FieldsFrom(q, i, j, src, acc').entries;
            && |e'| <= |Shown(e, path)|
            && (|acc'| < |Shown(acc, path)|
                || (exists m :: j <= m < |s.fields| && OnPath(s.fields[m].name, path) && p.childOps[i][m] in Skipped(q))
                ==> |e'| < |Shown(e, path)|)
    decreases |s.fields| - j
  {
    hide AvroProgram.Decode, FieldsFrom, FieldName, Layered, Pair, Shown, OnPath, Restrict;
    if j == |s.fields| {
      FieldsEnd(p, i, src, acc);
      FieldsEnd(q, i, src, acc');
    } else {
      var c, f := p.childOps[i][j], s.fields[j];
      PairKid(p, q, i, s, name, j);
      PairAt(p, q, c, f.type_, f.name);
      PairConsumes(p, q, c, f.type_, f.name, src);
      FieldsStep(p, i, j, src, acc);
      FieldsStep(q, i, j, src, acc');
      var r, r' := AvroProgram.Decode(p, c, src), AvroProgram.Decode(q, c, src);
      var m := Member(f.name, r.json);
      ShownGrows(acc, m, path);
      FewerPrinted(p, q, i, s, name, path, j + 1, r.rest, acc + [m],
                   if q.ops[c].skip then acc' else acc' + [Member(f.name, r'.json)]);
    }
  }

  ghost predicate Apart(a: seq<Member>, b: seq<Member>) {
    exists n :: 0 <= n < |a| && n < |b| && a[n] != b[n]
  }

  lemma {:induction false} ShownPrefix(a: seq<Member>, b: seq<Member>, path: seq<Name>)
    requires a <= b
    ensures Shown(a, path) <= Shown(b, path)
    decreases |b|
  {
    hide Shown;
    if a != b {
      var front := b[..|b| - 1];
      assert a <= front;
      ShownPrefix(a, front, path);
      assert b == front + [b[|b| - 1]];
      ShownGrows(front, b[|b| - 1], path);
    }
  }

  /** Lists that differ at some place still do after more fields. */
  lemma ApartStays(p: Program, q: Program, i: nat, k: nat, src: seq<byte>, acc: seq<Member>, acc': seq<Member>,
      path: seq<Name>)
    requires Node(p, i) && Node(q, i) && p.childOps == q.childOps && k <= |p.childOps[i]|
    requires FieldsFrom(p, i, k, src, acc).Entries? && FieldsFrom(q, i, k, src, acc').Entries?
    requires Apart(acc', Shown(acc, path))
    ensures Apart(FieldsFrom(q, i, k, src, acc').entries, Shown(FieldsFrom(p, i, k, src, acc).entries, path))
  {
    hide FieldsFrom, Shown, Layered;
    FieldsExtend(p, i, k, src, acc);
    FieldsExtend(q, i, k, src, acc');
    var e, e' := FieldsFrom(p, i, k, src, acc).entries, FieldsFrom(q, i, k, src, acc').entries;
    ShownPrefix(acc, e, path);
    var n :| 0 <= n < |acc'| && n < |Shown(acc, path)| && acc'[n] != Shown(acc, path)[n];
    assert e'[n] == acc'[n] && Shown(e, path)[n] == Shown(acc, path)[n];
  }

  /** From field j on the bytes decode in both programs, and the printed members come apart. */
  ghost predicate FieldsMisread(p: Program, q: Program, i: nat, path: seq<Name>, j: nat, b: seq<byte>)
    requires Node(p, i) && Node(q, i) && p.childOps == q.childOps && j <= |p.childOps[i]|
  {
    forall rest, acc, acc' :: |acc'| == |Shown(acc, path)| ==> FieldsMisreadBefore(p, q, i, path, j, b, rest, acc, acc')
  }

  ghost predicate FieldsMisreadBefore(p: Program, q: Program, i: nat, path: seq<Name>, j: nat, b: seq<byte>,
      rest: seq<byte>, acc: seq<Member>, acc': seq<Member>)
    requires Node(p, i) && Node(q, i) && p.childOps == q.childOps && j <= |p.childOps[i]|
  {
    && FieldsSampledBefore(p, q, i, j, b, rest, acc, acc')
    && Apart(FieldsFrom(q, i, j, b + rest, acc').entries, Shown(FieldsFrom(p, i, j, b + rest, acc).entries, path))
  }

  /** All fields of a record are skipped or not as the path demands. */
  ghost predicate FlagsFit(q: Program, kids: seq<nat>, fields: seq<Field>, path: seq<Name>) {
    |kids| == |fields| && forall m :: 0 <= m < |fields| ==> (kids[m] in Skipped(q) <==> !OnPath(fields[m].name, path))
  }

  /** The field that is misread itself. */
  lemma ThisFieldApart(p: Program, q: Program, i: nat, s: Schema, name: Name, path: seq<Name>, k: nat, w: seq<byte>,
      others: seq<byte>, rest: seq<byte>, acc: seq<Member>, acc': seq<Member>)
    requires Pair(p, q, i, s, name) && s.Record? && Node(p, i) && Node(q, i) && p.childOps == q.childOps
    requires FlagsFit(q, p.childOps[i], s.fields, path) && k < |s.fields| && OnPath(s.fields[k].name, path)
    requires p.childOps[i][k] < |p.ops| == |q.ops| && Misread(p, q, p.childOps[i][k], Tail(path), w)
    requires FieldsSampled(p, q, i, k + 1, others) && |acc'| == |Shown(acc, path)|
    ensures FieldsMisreadBefore(p, q, i, path, k, w + others, rest, acc, acc')
  {
    hide AvroProgram.Decode, FieldsFrom, FieldName, Layered, Pair, Shown, OnPath, Restrict, Tail, Apart;
    var c, f := p.childOps[i][k], s.fields[k];
    PairKid(p, q, i, s, name, k);
    PairAt(p, q, c, f.type_, f.name);
    Assoc(w, others, rest);
    var src := w + (others + rest);
    assert MisreadBefore(p, q, c, Tail(path), w, others + rest);
    FieldsStep(p, i, k, src, acc);
    FieldsStep(q, i, k, src, acc');
    var r, r' := AvroProgram.Decode(p, c, src), AvroProgram.Decode(q, c, src);
    var m, m' := Member(f.name, r.json), Member(f.name, r'.json);
    ShownGrows(acc, m, path);
    ApartHere(acc', m', Shown(acc, path), Member(f.name, Restrict(r.json, Tail(path))));
    assert FieldsSampledBefore(p, q, i, k + 1, others, rest, acc + [m], acc' + [m']);
    ApartStays(p, q, i, k + 1, others + rest, acc + [m], acc' + [m'], path);
  }

  lemma ApartHere(a: seq<Member>, m: Member, b: seq<Member>, n: Member)
    requires |a| == |b| && m != n
    ensures Apart(a + [m], b + [n])
  {
    assert (a + [m])[|a|] != (b + [n])[|a|];
  }

  /** A field before it. */
  lemma EarlierFieldApart(p: Program, q: Program, i: nat, s: Schema, name: Name, path: seq<Name>, j: nat,
      first: seq<byte>, w: seq<byte>, rest: seq<byte>, acc: seq<Member>, acc': seq<Member>)
    requires Pair(p, q, i, s, name) && s.Record? && Node(p, i) && Node(q, i) && p.childOps == q.childOps
    requires FlagsFit(q, p.childOps[i], s.fields, path) && j < |s.fields|
    requires p.childOps[i][j] < |p.ops| == |q.ops| && Sampled(p, q, p.childOps[i][j], first)
    requires FieldsMisread(p, q, i, path, j + 1, w) && |acc'| == |Shown(acc, path)|
    ensures FieldsMisreadBefore(p, q, i, path, j, first + w, rest, acc, acc')
  {
    hide AvroProgram.Decode, FieldsFrom, FieldName, Layered, Pair, Shown, OnPath, Restrict, Tail, Apart;
    var c, f := p.childOps[i][j], s.fields[j];
    PairKid(p, q, i, s, name, j);
    PairAt(p, q, c, f.type_, f.name);
    Assoc(first, w, rest);
    var src := first + (w + rest);
    assert SampledBefore(p, q, c, first, w + rest);
    FieldsStep(p, i, j, src, acc);
    FieldsStep(q, i, j, src, acc');
    var r, r' := AvroProgram.Decode(p, c, src), AvroProgram.Decode(q, c, src);
    var m := Member(f.name, r.json);
    ShownGrows(acc, m, path);
    var next' := if q.ops[c].skip then acc' else acc' + [Member(f.name, r'.json)];
    assert FieldsMisreadBefore(p, q, i, path, j + 1, w, rest, acc + [m], next');
  }

  /** From skips that do not fit, an input on which the partial decode is not the restricted full decode. */
  lemma {:induction false} MisfitTells(p: Program, q: Program, i: nat, s: Schema, name: Name, path: seq<Name>)
      returns (b: seq<byte>)
    requires Pair(p, q, i, s, name) && Small(s) && !SkipsFit(p, Skipped(q), i, s, path)
    ensures Layered(p) && Layered(q) && i < |p.ops| == |q.ops| && Misread(p, q, i, path, b)
    decreases s, 2
  {
    hide Pair, Layered, Misread, Decodable, AvroProgram.Decode, OnPath, Tail;
    PairNode(p, q, i, s, name);
    PairConsumes(p, q, i, s, name, []);
    match s
    case Record(_, fields) => b := MisfitRecord(p, q, i, s, name, path);
    case Array(items) =>
      PairKid(p, q, i, s, name, 0);
      var w := MisfitTells(p, q, ChildAt(p, i, 0), items, [], []);
      b := ItemMisread(p, q, i, s, name, path, w);
    case Map(values) =>
      PairKid(p, q, i, s, name, 0);
      if path == [] {
        var w := MisfitTells(p, q, ChildAt(p, i, 0), values, [], []);
        b := ItemMisread(p, q, i, s, name, path, w);
      } else {
        var w := PairSample(p, q, ChildAt(p, i, 0), values, []);
        b := EntryMisread(p, q, i, s, name, path, w);
      }
    case Union(arms) =>
      var k :| 0 <= k < |arms| && !SkipsFit(p, Skipped(q), ChildAt(p, i, k), arms[k], path);
      PairKid(p, q, i, s, name, k);
      var w := MisfitTells(p, q, ChildAt(p, i, k), arms[k], [], path);
      b := ArmMisread(p, q, i, s, name, path, k, w);
    case _ =>
  }

  lemma ArmMisread(p: Program, q: Program, i: nat, s: Schema, name: Name, path: seq<Name>, k: nat, w: seq<byte>)
      returns (b: seq<byte>)
    requires Pair(p, q, i, s, name) && s.Union? && k < |s.arms| < W63
    requires Layered(p) && Layered(q) && i < |p.ops| == |q.ops| && ChildAt(p, i, k) < |p.ops|
    requires Misread(p, q, ChildAt(p, i, k), path, w)
    ensures Misread(p, q, i, path, b)
  {
    hide Pair, Layered, EncodeLong, ReadLong, Suffix, Restrict;
    PairAt(p, q, i, s, name);
    b := EncodeLong(k) + w;
    forall rest
      ensures MisreadBefore(p, q, i, path, b, rest)
    {
      assert MisreadBefore(p, q, ChildAt(p, i, k), path, w, rest);
      Assoc(EncodeLong(k), w, rest);
      LongRoundTrip(k, w + rest);
    }
  }

  /** Decoding a list of one item. */
  lemma OneItemList(p: Program, i: nat, isMap: bool, key: seq<byte>, w: seq<byte>, rest: seq<byte>)
      returns (src: seq<byte>)
    requires Node(p, i) && p.childOps[i] != [] && (if isMap then Long(key) else key == [])
    requires var r := AvroProgram.Decode(p, p.childOps[i][0], w + (EncodeLong(0) + rest));
             r.Good? && r.rest == EncodeLong(0) + rest
    ensures src == EncodeLong(1) + (KeyBytes(isMap, key) + (w + EncodeLong(0))) + rest
    ensures AvroProgram.DecodeBlocks(p, i, isMap, src, []) ==
            Entries([Member(key, AvroProgram.Decode(p, p.childOps[i][0], w + (EncodeLong(0) + rest)).json)], rest)
  {
    hide EncodeLong, ReadLong, Suffix, AvroProgram.Decode, KeyBytes, ReadKey, Layered;
    var after := EncodeLong(0) + rest;
    var body := KeyBytes(isMap, key) + (w + after);
    src := EncodeLong(1) + (KeyBytes(isMap, key) + (w + EncodeLong(0))) + rest;
    assert src == EncodeLong(1) + body;
    LongRoundTrip(1, body);
    KeyRoundTrip(isMap, key, w + after);
    LongRoundTrip(0, rest);
    var j := AvroProgram.Decode(p, p.childOps[i][0], w + after).json;
    assert AvroProgram.DecodeItems(p, i, isMap, 1, body, []) ==
           AvroProgram.DecodeItems(p, i, isMap, 0, after, [] + [Member(key, j)]);
  }

  /** A list of one item that is misread. */
  lemma ItemMisread(p: Program, q: Program, i: nat, s: Schema, name: Name, path: seq<Name>, w: seq<byte>)
      returns (b: seq<byte>)
    requires Pair(p, q, i, s, name) && (s.Array? || (s.Map? && path == []))
    requires Node(p, i) && Node(q, i) && p.childOps == q.childOps && |p.ops| == |q.ops| && p.childOps[i] != []
    requires Misread(p, q, p.childOps[i][0], [], w)
    ensures Misread(p, q, i, path, b)
  {
    hide Pair, Layered, EncodeLong, KeyBytes, AvroProgram.Decode, Restrict, Listing, AvroProgram.DecodeBlocks;
    var isMap := s.Map?;
    b := EncodeLong(1) + (KeyBytes(isMap, []) + (w + EncodeLong(0)));
    forall rest
      ensures MisreadBefore(p, q, i, path, b, rest)
    {
      var c, after := p.childOps[i][0], EncodeLong(0) + rest;
      assert MisreadBefore(p, q, c, [], w, after);
      var j, j' := AvroProgram.Decode(p, c, w + after).json, AvroProgram.Decode(q, c, w + after).json;
      RestrictWhole(Good(j, []));
      var src := OneItemList(p, i, isMap, [], w, rest);
      src := OneItemList(q, i, isMap, [], w, rest);
      ListOutcome(p, q, i, s, name, src);
      OneListed(isMap, j, j');
      ListingWhole(isMap, [Member([], j)], path);
    }
  }

  lemma ListingWhole(isMap: bool, ms: seq<Member>, path: seq<Name>)
    requires isMap ==> path == []
    ensures Restrict(Listing(isMap, ms), path) == Listing(isMap, ms)
  {}

  lemma ListOutcome(p: Program, q: Program, i: nat, s: Schema, name: Name, src: seq<byte>)
    requires Pair(p, q, i, s, name) && (s.Array? || s.Map?) && Layered(p) && Layered(q) && i < |p.ops| == |q.ops|
    ensures AvroProgram.Decode(p, i, src) == ToOutcome(s.Map?, AvroProgram.DecodeBlocks(p, i, s.Map?, src, []))
    ensures AvroProgram.Decode(q, i, src) == ToOutcome(s.Map?, AvroProgram.DecodeBlocks(q, i, s.Map?, src, []))
  {
    hide Pair, Layered, AvroProgram.DecodeBlocks;
    PairAt(p, q, i, s, name);
  }

  /** A map of one entry, whose key is not the one the path asks for. */
  lemma EntryMisread(p: Program, q: Program, i: nat, s: Schema, name: Name, path: seq<Name>, w: seq<byte>)
      returns (b: seq<byte>)
    requires Pair(p, q, i, s, name) && s.Map? && path != []
    requires Node(p, i) && Node(q, i) && p.childOps == q.childOps && |p.ops| == |q.ops| && p.childOps[i] != []
    requires Sampled(p, q, p.childOps[i][0], w)
    ensures Misread(p, q, i, path, b)
  {
    hide Pair, Layered, EncodeLong, AvroProgram.DecodeBlocks, KeyBytes;
    PairAt(p, q, i, s, name);
    var key: seq<byte> := if path[0] == [] then [0] else [];
    b := EncodeLong(1) + (KeyBytes(true, key) + (w + EncodeLong(0)));
    forall rest
      ensures MisreadBefore(p, q, i, path, b, rest)
    {
      var c, after := p.childOps[i][0], EncodeLong(0) + rest;
      assert SampledBefore(p, q, c, w, after);
      var src := OneItemList(p, i, true, key, w, rest);
      src := OneItemList(q, i, true, key, w, rest);
      var ms := [Member(key, AvroProgram.Decode(p, c, w + after).json)];
      assert ms[..0] == [] && Along([], path) == [];
      assert Along(ms, path) == [];
    }
  }

  lemma {:induction false} MisfitRecord(p: Program, q: Program, i: nat, s: Schema, name: Name, path: seq<Name>)
      returns (b: seq<byte>)
    requires Pair(p, q, i, s, name) && s.Record? && Small(s) && !SkipsFit(p, Skipped(q), i, s, path)
    ensures Layered(p) && Layered(q) && i < |p.ops| == |q.ops| && Misread(p, q, i, path, b)
    decreases s, 1
  {
    hide Pair, Layered, Misread, OnPath, Tail, Node;
    PairNode(p, q, i, s, name);
    PairConsumes(p, q, i, s, name, []);
    NodeShape(p, i);
    if k :| 0 <= k < |s.fields| && !OnPath(s.fields[k].name, path) && p.childOps[i][k] !in Skipped(q) {
      b := ForeignMisread(p, q, i, s, name, path, k);
    } else if k :| 0 <= k < |s.fields| && OnPath(s.fields[k].name, path) && p.childOps[i][k] in Skipped(q) {
      b := MissingMisread(p, q, i, s, name, path, k);
    } else {
      var k :| 0 <= k < |s.fields| && OnPath(s.fields[k].name, path)
            && !SkipsFit(p, Skipped(q), ChildAt(p, i, k), s.fields[k].type_, Tail(path));
      b := MisfitFrom(p, q, i, s, name, path, 0, k);
      FieldsMisreadRecord(p, q, i, s, name, path, b);
    }
  }

  lemma NodeShape(p: Program, i: nat)
    requires Node(p, i)
    ensures Layered(p) && i < |p.ops| && i < |p.childOps|
  {}

  lemma RecordOutcome(p: Program, q: Program, i: nat, s: Schema, name: Name, src: seq<byte>)
    requires Pair(p, q, i, s, name) && s.Record? && Node(p, i) && Node(q, i) && p.childOps == q.childOps
    ensures AvroProgram.Decode(p, i, src) == ToOutcome(true, FieldsFrom(p, i, 0, src, []))
    ensures AvroProgram.Decode(q, i, src) == ToOutcome(true, FieldsFrom(q, i, 0, src, []))
  {
    hide Pair, Layered, AvroProgram.DecodeFields;
    PairAt(p, q, i, s, name);
  }

  lemma ShownEmpty(path: seq<Name>)
    ensures Shown([], path) == []
  {}

  lemma FieldsMisreadRecord(p: Program, q: Program, i: nat, s: Schema, name: Name, path: seq<Name>, b: seq<byte>)
    requires Pair(p, q, i, s, name) && s.Record? && Node(p, i) && Node(q, i) && p.childOps == q.childOps
    requires |p.ops| == |q.ops| && FieldsMisread(p, q, i, path, 0, b)
    ensures Misread(p, q, i, path, b)
  {
    hide Pair, Layered, FieldsFrom, AvroProgram.Decode, Along;
    ShownEmpty(path);
    forall rest
      ensures MisreadBefore(p, q, i, path, b, rest)
    {
      RecordOutcome(p, q, i, s, name, b + rest);
      assert FieldsMisreadBefore(p, q, i, path, 0, b, rest, [], []);
    }
  }

  lemma ForeignMisread(p: Program, q: Program, i: nat, s: Schema, name: Name, path: seq<Name>, k: nat)
      returns (b: seq<byte>)
    requires Pair(p, q, i, s, name) && s.Record? && Decodable(s) && Small(s) && k < |s.fields|
    requires Node(p, i) && Node(q, i) && p.childOps == q.childOps && |p.ops| == |q.ops|
    requires |p.childOps[i]| == |s.fields| && p.childOps[i][k] < |q.ops|
    requires !OnPath(s.fields[k].name, path) && p.childOps[i][k] !in Skipped(q)
    ensures Misread(p, q, i, path, b)
  {
    hide Pair, Layered, FieldsFrom, AvroProgram.Decode, Along, FieldName;
    b := RecordSample(p, q, i, s, name, 0);
    PairKid(p, q, i, s, name, k);
    PairAt(p, q, p.childOps[i][k], s.fields[k].type_, s.fields[k].name);
    forall rest
      ensures MisreadBefore(p, q, i, path, b, rest)
    {
      RecordOutcome(p, q, i, s, name, b + rest);
      assert FieldsSampledBefore(p, q, i, 0, b, rest, [], []);
      KeyPrinted(q, i, 0, k, b + rest, []);
      var e, e' := FieldsFrom(p, i, 0, b + rest, []).entries, FieldsFrom(q, i, 0, b + rest, []).entries;
      AlongKeys(e, path);
      var m :| m in e' && m.key == s.fields[k].name;
      assert m !in Along(e, path);
    }
  }

  lemma MissingMisread(p: Program, q: Program, i: nat, s: Schema, name: Name, path: seq<Name>, k: nat)
      returns (b: seq<byte>)
    requires Pair(p, q, i, s, name) && s.Record? && Decodable(s) && Small(s) && k < |s.fields|
    requires Node(p, i) && Node(q, i) && p.childOps == q.childOps && |p.ops| == |q.ops|
    requires |p.childOps[i]| == |s.fields| && OnPath(s.fields[k].name, path) && p.childOps[i][k] in Skipped(q)
    requires forall m :: 0 <= m < |s.fields| && !OnPath(s.fields[m].name, path) ==> p.childOps[i][m] in Skipped(q)
    ensures Misread(p, q, i, path, b)
  {
    hide Pair, Layered, FieldsFrom, AvroProgram.Decode, Along, OnPath;
    b := RecordSample(p, q, i, s, name, 0);
    forall rest
      ensures MisreadBefore(p, q, i, path, b, rest)
    {
      RecordOutcome(p, q, i, s, name, b + rest);
      assert FieldsSampledBefore(p, q, i, 0, b, rest, [], []);
      FewerPrinted(p, q, i, s, name, path, 0, b + rest, [], []);
    }
  }

  lemma {:induction false} MisfitFrom(p: Program, q: Program, i: nat, s: Schema, name: Name, path: seq<Name>, j: nat,
      k: nat) returns (b: seq<byte>)
    requires Pair(p, q, i, s, name) && s.Record? && Decodable(s) && Small(s) && j <= k < |s.fields|
    requires Node(p, i) && Node(q, i) && p.childOps == q.childOps && |p.childOps[i]| == |s.fields|
    requires FlagsFit(q, p.childOps[i], s.fields, path) && OnPath(s.fields[k].name, path)
    requires !SkipsFit(p, Skipped(q), ChildAt(p, i, k), s.fields[k].type_, Tail(path))
    ensures FieldsMisread(p, q, i, path, j, b)
    decreases s, 0, k - j
  {
    hide Pair, Layered, FieldsFrom, AvroProgram.Decode, OnPath, Tail, SkipsFit, Misread, FieldsMisreadBefore, Sampled,
         FieldsSampled, FlagsFit, Shown;
    PairKid(p, q, i, s, name, j);
    if j == k {
      var w := MisfitTells(p, q, ChildAt(p, i, k), s.fields[k].type_, s.fields[k].name, Tail(path));
      var others := RecordSample(p, q, i, s, name, k + 1);
      b := w + others;
      forall rest, acc: seq<Member>, acc': seq<Member> | |acc'| == |Shown(acc, path)|
        ensures FieldsMisreadBefore(p, q, i, path, j, b, rest, acc, acc')
      {
        ThisFieldApart(p, q, i, s, name, path, k, w, others, rest, acc, acc');
      }
    } else {
      var first := PairSample(p, q, ChildAt(p, i, j), s.fields[j].type_, s.fields[j].name);
      var w := MisfitFrom(p, q, i, s, name, path, j + 1, k);
      b := first + w;
      forall rest, acc: seq<Member>, acc': seq<Member> | |acc'| == |Shown(acc, path)|
        ensures FieldsMisreadBefore(p, q, i, path, j, b, rest, acc, acc')
      {
        EarlierFieldApart(p, q, i, s, name, path, j, first, w, rest, acc, acc');
      }
    }
  }

  /** On this input q decodes to the full decode restricted to the path: same rest, same failures. */
  ghost predicate RightOn(p: Program, q: Program, i: nat, path: seq<Name>, src: seq<byte>)
    requires Layered(p) && Layered(q) && i < |p.ops| == |q.ops|
  {
    AvroProgram.Decode(q, i, src) == RestrictOutcome(AvroProgram.Decode(p, i, src), path)
  }

  /**
   Whatever ops are skipped: the decode is the full decode restricted to the path, on every
   input, exactly when the skips fit the path.
   */
  lemma SkipsRightIff(p: Program, q: Program, i: nat, s: Schema, name: Name, path: seq<Name>)
    requires Pair(p, q, i, s, name) && Small(s)
    ensures Layered(p) && Layered(q) && i < |p.ops| == |q.ops|
    ensures (forall src :: RightOn(p, q, i, path, src)) <==> SkipsFit(p, Skipped(q), i, s, path)
  {
    hide Pair, AvroProgram.Decode, SkipsFit, Layered, Restrict, Small;
    PairConsumes(p, q, i, s, name, []);
    if SkipsFit(p, Skipped(q), i, s, path) {
      forall src
        ensures RightOn(p, q, i, path, src)
      {
        FitDecodes(p, q, i, s, name, path, src);
      }
    } else {
      var b := MisfitTells(p, q, i, s, name, path);
      assert MisreadBefore(p, q, i, path, b, []);
      assert !RightOn(p, q, i, path, b + []);
    }
  }
}
