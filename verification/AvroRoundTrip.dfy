/** The whole way of a document: compile its schema, encode it, decode the bytes, and get its text. */
module AvroRoundTrip {
  import opened Machine
  import opened JsonText
  import opened AvroWire
  import opened AvroTree
  import opened AvroProgram
  import opened AvroExecute
  import opened AvroEncode
  import opened AvroEncoder
  import opened AvroCompile
  import opened AvroCompiler

  /** What a compiled program encodes it decodes again, whatever follows. */
  lemma CompiledRoundTrip(s: Schema, slots: SlotMap, g: Reader, j: Json, rest: seq<byte>)
    requires Compile(s, slots).Some? && WithinWidths(s, Compile(s, slots).value)
    requires Faithful(g, s, j) && Typed(s, Shared(AllSymbols(s)), j)
    ensures var p := Compile(s, slots).value;
            && Layered(p) && |p.ops| > 0
            && AvroProgram.Decode(p, 0, AvroEncoder.Encode(p, 0, g, Some(j)) + rest) == Good(j, rest)
  {
    hide Compile, WithinWidths, Layered, Laid, Faithful, Typed, AvroEncoder.Encode, AvroProgram.Decode, AllSymbols,
         Starts, Size, Compilable;
    CompileLayout(s, slots);
    ProgramRoundTrip(Compile(s, slots).value, 0, s, [], g, j, rest);
  }

  /** Both entry points in a row: a document that fits its record schema comes back as its own text. */
  method Transcode(s: Schema, slots: SlotMap, ft: FloatText, g: Reader, json: Json) returns (text: Option<seq<byte>>)
    requires s.Record? && Faithful(g, s, json) && Typed(s, Shared(AllSymbols(s)), json)
    requires Compile(s, slots).Some? ==> WithinWidths(s, Compile(s, slots).value)
    ensures text == if Compilable(s, {}) then Some(Text(ft, json)) else None
  {
    hide Compile, WithinWidths, Layered, Faithful, Typed, AvroEncoder.Encode, AvroProgram.Decode, AllSymbols,
        Compilable,
         AvroProgram.DecodeFields, AvroEncoder.EncodeFields;
    var compiled := CompileSchema(s, slots);
    if compiled.None? {
      return None;
    }
    var p := compiled.value;
    CompiledRoundTrip(s, slots, g, json, []);
    RootIsRecord(s, slots);
    var avro := AppendJSONToAvro([], p, g, json);
    assert avro == AvroEncoder.Encode(p, 0, g, Some(json)) + [];
    var out, ok := AppendAvroToJSON(ft, [], avro, p);
    assert [] + Text(ft, json) == Text(ft, json);
    return if ok then Some(out) else None;
  }

  lemma RootIsRecord(s: Schema, slots: SlotMap)
    requires s.Record? && Compile(s, slots).Some? && WithinWidths(s, Compile(s, slots).value)
    ensures |Compile(s, slots).value.ops| > 0 && Compile(s, slots).value.ops[0].kind.KRecord?
  {
    hide Compile, WithinWidths, Layered, Laid, AllSymbols, Starts, Size, Compilable;
    CompileLayout(s, slots);
    LaidAt(Compile(s, slots).value, 0, s, []);
  }
}
