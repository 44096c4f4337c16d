// The schema-driven block codec of src/deploy.rs: `encode` writes the values of a JSON
// object into a zeroed byte block, `decode_as_map` reads them back.
module BlockCodec {
  import opened Prelude
  import opened Codecs
  import opened Fields

  datatype Property = Property(name: string, typeName: string, offset: nat, count: nat, byteSize: Option<nat>)

  datatype BlockDefinition = BlockDefinition(javaType: string, blockSize: nat, properties: seq<Property>)

  /** The name is lowercased first, so mixed-case names fall through to one byte. */
  function TypeSize(typeName: string): nat {
    var t := ToLower(typeName);
    if t in {"boolean", "bool", "byte", "char"} then 1
    else if t in {"integer", "int", "word"} then 2
    else if t in {"dint", "dword", "real", "float", "ip", "ipaddress"} then 4
    else if t in {"lint", "long", "datetime", "bigdecimal"} then 8
    else if t == "string" then 256
    else if t == "wstring" then 512
    else 1
  }

  /** Finding: for the fixed-width codecs the type's size is the codec's width exactly for
      the lower-case names; the two mixed-case ones get one byte and need an override. */
  lemma TypeSizesMatchExceptMixedCase(name: string)
    requires Lookup(name).Some? && FixedWidth(Lookup(name).value).Some?
    ensures TypeSize(name) == FixedWidth(Lookup(name).value).value
            <==> name !in {"intAsBigDecimal", "longAsInt"}
  {
    if name in {"intAsBigDecimal", "longAsInt"} {
      assert ToLower("intAsBigDecimal") == "intasbigdecimal" && ToLower("longAsInt") == "longasint";
    } else if name in {"boolean", "byte", "char", "ip"} {
      assert ToLower(name) == name;
    } else {
      IntegerNamesAreLowerCase(name);
    }
  }

  lemma IntegerNamesAreLowerCase(name: string)
    requires name in {"integer", "word", "dint", "dword", "lint"}
    ensures ToLower(name) == name
  {
  }

  /** An explicit byte size overrides the size of the type. */
  function Resolve(p: Property): Field {
    Field(p.name, Lookup(p.typeName), p.offset, p.byteSize.GetOr(TypeSize(p.typeName)), p.count)
  }

  function FieldsOf(def: BlockDefinition): (fs: seq<Field>)
    ensures |fs| == |def.properties|
  {
    seq(|def.properties|, i requires 0 <= i < |def.properties| => Resolve(def.properties[i]))
  }

  // ----- encode: the writes it performs, in order -----

  /** Slicing `bytes[start..end]` and `encoded[..end - start]`, which may both panic. */
  predicate Overruns(size: nat, s: Slot) {
    s.start > size || |s.data| < Min(s.start + s.width, size) - s.start
  }

  function Put(bytes: Outcome<seq<Byte>>, s: Slot): Outcome<seq<Byte>> {
    if !bytes.Done? then bytes
    else
      var b := bytes.value;
      if Overruns(|b|, s) then Panic
      else
        var end := Min(s.start + s.width, |b|);
        Done(b[..s.start] + s.data[..end - s.start] + b[end..])
  }

  function PutAll(bytes: Outcome<seq<Byte>>, slots: seq<Slot>): Outcome<seq<Byte>> {
    if slots == [] then bytes else Put(PutAll(bytes, Front(slots)), Last(slots))
  }

  function EncodeObject(foreign: Foreign, def: BlockDefinition, content: Content): Outcome<seq<Byte>> {
    PutAll(Done(Zeros(def.blockSize)), AllSlots(foreign, FieldsOf(def), content))
  }

  function EncodeContent(foreign: Foreign, content: Json, javaType: string,
                         cache: map<string, BlockDefinition>): Outcome<seq<Byte>> {
    if !content.JObject? then Failed("Content must be a JSON object")
    else if javaType !in cache then Failed("Missing DataBlockDefinition for type: " + javaType)
    else EncodeObject(foreign, cache[javaType], content.fields)
  }

  lemma {:induction false} PutAllConcat(bytes: Outcome<seq<Byte>>, s: seq<Slot>, t: seq<Slot>)
    ensures PutAll(bytes, s + t) == PutAll(PutAll(bytes, s), t)
  {
    if t == [] {
      assert s + t == s;
    } else {
      PutAllConcat(bytes, s, Front(t));
      assert Front(s + t) == s + Front(t);
    }
  }

  lemma {:induction false} PanicIsFinal(slots: seq<Slot>)
    ensures PutAll(Panic, slots) == Panic
  {
    if slots != [] {
      PanicIsFinal(Front(slots));
    }
  }

  /** copy_from_slice into `bytes[start..]`, byte by byte. */
  method CopyFromSlice(bytes: array<Byte>, start: nat, source: seq<Byte>)
    requires start + |source| <= bytes.Length
    modifies bytes
    ensures bytes[..] == old(bytes[..start]) + source + old(bytes[start + |source|..])
  {
    for i := 0 to |source|
      invariant bytes[..start + i] == old(bytes[..start]) + source[..i]
      invariant bytes[start + i..] == old(bytes[start + i..])
    {
      bytes[start + i] := source[i];
      assert bytes[..start + i + 1] == bytes[..start + i] + [source[i]];
      assert source[..i + 1] == source[..i] + [source[i]];
    }
    assert bytes[..] == bytes[..start + |source|] + bytes[start + |source|..];
  }

  method EncodeElement(foreign: Foreign, bytes: array<Byte>, f: Field, i: nat, v: Json) returns (panicked: bool)
    modifies bytes
    ensures PutAll(Done(old(bytes[..])), ElementSlot(foreign, f, i, v))
            == if panicked then Panic else Done(bytes[..])
  {
    panicked := false;
    ghost var slots := ElementSlot(foreign, f, i, v);
    var codec := f.codec;
    if codec.Some? {
      var encoded := EncodeValue(foreign, codec.value, v);
      if encoded.Ok? {
        assert Front(slots) == [];
        var start := ElementStart(f, i);
        var end := Min(start + f.width, bytes.Length);
        if start > end || |encoded.value| < end - start {
          return true;
        }
        CopyFromSlice(bytes, start, encoded.value[..end - start]);
      }
    }
  }

  method EncodeArray(foreign: Foreign, bytes: array<Byte>, f: Field, items: seq<Json>) returns (panicked: bool)
    modifies bytes
    ensures PutAll(Done(old(bytes[..])), ArraySlots(foreign, f, items))
            == if panicked then Panic else Done(bytes[..])
  {
    ghost var start := Done(bytes[..]);
    for i := 0 to |items|
      invariant PutAll(start, ArraySlots(foreign, f, items[..i])) == Done(bytes[..])
    {
      ArraySlotsOfPrefix(foreign, f, items, i);
      PutAllConcat(start, ArraySlots(foreign, f, items[..i]), ElementSlot(foreign, f, i, items[i]));
      panicked := EncodeElement(foreign, bytes, f, i, items[i]);
      if panicked {
        ArrayPanicSpreads(foreign, start, f, items, i + 1);
        return true;
      }
    }
    assert items[..|items|] == items;
    return false;
  }

  method EncodeProperty(foreign: Foreign, bytes: array<Byte>, f: Field, content: Content) returns (panicked: bool)
    modifies bytes
    ensures PutAll(Done(old(bytes[..])), PropertySlots(foreign, f, content))
            == if panicked then Panic else Done(bytes[..])
  {
    panicked := false;
    if f.name in content {
      var value := content[f.name];
      if f.count == 1 {
        panicked := EncodeElement(foreign, bytes, f, 0, value);
      } else if value.JArray? {
        panicked := EncodeArray(foreign, bytes, f, value.items[..Min(|value.items|, f.count)]);
      }
    }
  }

  method Encode(foreign: Foreign, content: Json, javaType: string, cache: map<string, BlockDefinition>)
    returns (r: Outcome<seq<Byte>>)
    ensures r == EncodeContent(foreign, content, javaType, cache)
  {
    if !content.JObject? {
      return Failed("Content must be a JSON object");
    }
    if javaType !in cache {
      return Failed("Missing DataBlockDefinition for type: " + javaType);
    }
    var def, fields := cache[javaType], content.fields;
    var fs := FieldsOf(def);
    var bytes := new Byte[def.blockSize](_ => 0);
    ghost var zero := Done(Zeros(def.blockSize));
    assert bytes[..] == Zeros(def.blockSize);
    for n := 0 to |fs|
      invariant PutAll(zero, AllSlots(foreign, fs[..n], fields)) == Done(bytes[..])
    {
      SlotsOfPrefix(foreign, fs, n, fields);
      PutAllConcat(zero, AllSlots(foreign, fs[..n], fields), PropertySlots(foreign, fs[n], fields));
      var panicked := EncodeProperty(foreign, bytes, fs[n], fields);
      if panicked {
        PanicSpreads(foreign, zero, fs, n + 1, fields);
        return Panic;
      }
    }
    assert fs[..|fs|] == fs;
    return Done(bytes[..]);
  }

  lemma PanicSpreads(foreign: Foreign, bytes: Outcome<seq<Byte>>, fs: seq<Field>, n: nat, content: Content)
    requires n <= |fs| && PutAll(bytes, AllSlots(foreign, fs[..n], content)) == Panic
    ensures PutAll(bytes, AllSlots(foreign, fs, content)) == Panic
    decreases |fs| - n
  {
    if n == |fs| {
      assert fs[..n] == fs;
    } else {
      SlotsOfPrefix(foreign, fs, n, content);
      PutAllConcat(bytes, AllSlots(foreign, fs[..n], content), PropertySlots(foreign, fs[n], content));
      PanicIsFinal(PropertySlots(foreign, fs[n], content));
      PanicSpreads(foreign, bytes, fs, n + 1, content);
    }
  }

  lemma ArrayPanicSpreads(foreign: Foreign, bytes: Outcome<seq<Byte>>, f: Field, items: seq<Json>, n: nat)
    requires n <= |items| && PutAll(bytes, ArraySlots(foreign, f, items[..n])) == Panic
    ensures PutAll(bytes, ArraySlots(foreign, f, items)) == Panic
    decreases |items| - n
  {
    if n == |items| {
      assert items[..n] == items;
    } else {
      ArraySlotsOfPrefix(foreign, f, items, n);
      PutAllConcat(bytes, ArraySlots(foreign, f, items[..n]), ElementSlot(foreign, f, n, items[n]));
      PanicIsFinal(ElementSlot(foreign, f, n, items[n]));
      ArrayPanicSpreads(foreign, bytes, f, items, n + 1);
    }
  }

  // ----- decode_as_map -----

  /** Elements that do not decode are left out of the array. */
  function Pushed(r: Result<Json>): seq<Json> {
    match r
    case Ok(v) => [v]
    case Err(_) => []
  }

  function DecodeItem(foreign: Foreign, c: Codec, data: seq<Byte>, start: nat, width: nat): seq<Json> {
    if start >= |data| then []
    else Pushed(DecodeValue(foreign, c, data[start..Min(start + width, |data|)]))
  }

  function DecodeItems(foreign: Foreign, c: Codec, f: Field, data: seq<Byte>, n: nat): seq<Json> {
    if n == 0 then []
    else DecodeItems(foreign, c, f, data, n - 1) + DecodeItem(foreign, c, data, ElementStart(f, n - 1), f.width)
  }

  function DecodeProperty(foreign: Foreign, f: Field, data: seq<Byte>): Option<Json> {
    match f.codec
    case None => None
    case Some(c) =>
      if f.offset >= |data| then None
      else if f.count == 1 then
        DecodeValue(foreign, c, data[f.offset..Min(ExtentEnd(f), |data|)]).ToOption()
      else
        var items := DecodeItems(foreign, c, f, data, f.count);
        if items == [] then None else Some(JArray(items))
  }

  function DecodeProperties(foreign: Foreign, fs: seq<Field>, data: seq<Byte>): Content {
    if fs == [] then map[]
    else
      var before := DecodeProperties(foreign, Front(fs), data);
      match DecodeProperty(foreign, Last(fs), data)
      case Some(v) => before[Last(fs).name := v]
      case None => before
  }

  method DecodeAsMap(foreign: Foreign, data: seq<Byte>, javaType: string, cache: map<string, BlockDefinition>)
    returns (r: Result<Content>)
    ensures r == if javaType in cache then Ok(DecodeProperties(foreign, FieldsOf(cache[javaType]), data))
                 else Err("Missing DataBlockDefinition for type: " + javaType)
  {
    if javaType !in cache {
      return Err("Missing DataBlockDefinition for type: " + javaType);
    }
    hide DecodeProperty;
    var fs := FieldsOf(cache[javaType]);
    var content: Content := map[];
    for n := 0 to |fs|
      invariant content == DecodeProperties(foreign, fs[..n], data)
    {
      assert Front(fs[..n + 1]) == fs[..n];
      var value := DecodeField(foreign, fs[n], data);
      if value.Some? {
        content := content[fs[n].name := value.value];
      }
    }
    assert fs[..|fs|] == fs;
    return Ok(content);
  }

  /** The body of the loop over the properties: the value to insert, if any. */
  method DecodeField(foreign: Foreign, f: Field, data: seq<Byte>) returns (value: Option<Json>)
    ensures value == DecodeProperty(foreign, f, data)
  {
    hide DecodeValue, DecodeItems;
    if f.offset >= |data| || f.codec.None? {
      return None;
    }
    if f.count == 1 {
      var decoded := DecodeValue(foreign, f.codec.value, data[f.offset..Min(f.offset + f.width * f.count, |data|)]);
      return if decoded.Ok? then Some(decoded.value) else None;
    }
    var items := DecodeArray(foreign, f.codec.value, f, data);
    return if items == [] then None else Some(JArray(items));
  }

  method DecodeElement(foreign: Foreign, c: Codec, data: seq<Byte>, start: nat, width: nat) returns (item: seq<Json>)
    requires start < |data|
    ensures item == DecodeItem(foreign, c, data, start, width)
  {
    var value := DecodeValue(foreign, c, data[start..Min(start + width, |data|)]);
    item := if value.Ok? then [value.value] else [];
  }

  method DecodeArray(foreign: Foreign, c: Codec, f: Field, data: seq<Byte>) returns (items: seq<Json>)
    ensures items == DecodeItems(foreign, c, f, data, f.count)
  {
    items := [];
    for i := 0 to f.count
      invariant items == DecodeItems(foreign, c, f, data, i)
    {
      var start := ElementStart(f, i);
      if start >= |data| {
        NothingPastTheEnd(foreign, c, f, data, i, f.count);
        break;
      }
      var item := DecodeElement(foreign, c, data, start, f.width);
      items := items + item;
    }
  }

  lemma {:induction false} NothingPastTheEnd(foreign: Foreign, c: Codec, f: Field, data: seq<Byte>, i: nat, n: nat)
    requires i <= n && ElementStart(f, i) >= |data|
    ensures DecodeItems(foreign, c, f, data, n) == DecodeItems(foreign, c, f, data, i)
  {
    hide DecodeValue;
    if i < n {
      NothingPastTheEnd(foreign, c, f, data, i, n - 1);
      LaterElementsStartLater(f, i, n - 1);
      assert DecodeItem(foreign, c, data, ElementStart(f, n - 1), f.width) == [];
    }
  }

}
