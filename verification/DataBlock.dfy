// The second block codec, src/codec/data_block.rs: its size computation, its encoder that
// skips what does not fit, and its decoder.
module DataBlock {
  import opened Prelude
  import opened Codecs
  import opened Fields
  import opened BlockCodec
  import opened BlockRoundTrip

  datatype PropertyType =
    | TBoolean | TByte | TInteger | TWord | TDWord | TDInt | TLInt | TReal | TString | TWString
    | TDateTime | TBigDecimal | TIpAddress | TLong | TLongAsInt | TLongAsDateTime | TIntegerAsBigDecimal

  datatype DataBlockProperty =
    DataBlockProperty(name: string, propertyType: PropertyType, offset: nat, count: nat, byteSize: Option<nat>)

  /** The registry name asked for; the last three and "long" are names no codec has. */
  function TypeName(t: PropertyType): string {
    match t
    case TBoolean => "boolean" case TByte => "byte" case TInteger => "integer" case TWord => "word"
    case TDWord => "dword" case TDInt => "dint" case TLInt => "lint" case TReal => "real"
    case TString => "string" case TWString => "wstring" case TDateTime => "datetime"
    case TBigDecimal => "bigdecimal" case TIpAddress => "ip" case TLong => "long"
    case TLongAsInt => "longasint" case TLongAsDateTime => "longasdatetime"
    case TIntegerAsBigDecimal => "integerasbigdecimal"
  }

  function TypeBytes(t: PropertyType): nat {
    match t
    case TBoolean | TByte => 1
    case TInteger | TWord => 2
    case TDWord | TDInt | TReal | TIpAddress | TLongAsInt => 4
    case TLInt | TDateTime | TBigDecimal | TLong | TLongAsDateTime | TIntegerAsBigDecimal => 8
    case TString => 256
    case TWString => 512
  }

  function ResolveBlock(p: DataBlockProperty): Field {
    Field(p.name, Lookup(TypeName(p.propertyType)), p.offset, p.byteSize.GetOr(TypeBytes(p.propertyType)), p.count)
  }

  function BlockFields(ps: seq<DataBlockProperty>): (fs: seq<Field>)
    ensures |fs| == |ps|
  {
    seq(|ps|, i requires 0 <= i < |ps| => ResolveBlock(ps[i]))
  }

  // ----- encode: skip what passes the end, panic on a width mismatch -----

  function PutFitting(bytes: Outcome<seq<Byte>>, s: Slot): Outcome<seq<Byte>> {
    if !bytes.Done? || s.start + s.width > |bytes.value| then bytes
    else if |s.data| != s.width then Panic
    else Done(bytes.value[..s.start] + s.data + bytes.value[s.start + s.width..])
  }

  function PutAllFitting(bytes: Outcome<seq<Byte>>, slots: seq<Slot>): Outcome<seq<Byte>> {
    if slots == [] then bytes else PutFitting(PutAllFitting(bytes, Front(slots)), Last(slots))
  }

  lemma {:induction false} PutAllFittingConcat(bytes: Outcome<seq<Byte>>, s: seq<Slot>, t: seq<Slot>)
    ensures PutAllFitting(bytes, s + t) == PutAllFitting(PutAllFitting(bytes, s), t)
  {
    if t == [] {
      assert s + t == s;
    } else {
      PutAllFittingConcat(bytes, s, Front(t));
      assert Front(s + t) == s + Front(t);
    }
  }

  /** An element of the wrong length panics if it would fit; what does not fit is skipped. */
  lemma {:induction false} FittingPanicsExactlyWhen(bytes: seq<Byte>, slots: seq<Slot>)
    ensures PutAllFitting(Done(bytes), slots) == Panic
            <==> exists s :: s in slots && s.start + s.width <= |bytes| && |s.data| != s.width
    ensures var r := PutAllFitting(Done(bytes), slots); r == Panic || (r.Done? && |r.value| == |bytes|)
  {
    if slots != [] {
      FittingPanicsExactlyWhen(bytes, Front(slots));
      assert slots == Front(slots) + [Last(slots)];
    }
  }

  /** The elements inside a block of this size. */
  function Inside(slots: seq<Slot>, size: nat): (inside: seq<Slot>)
    ensures |inside| <= |slots|
  {
    if slots == [] then []
    else if Last(slots).start + Last(slots).width <= size then Inside(Front(slots), size) + [Last(slots)]
    else Inside(Front(slots), size)
  }

  /** Without a panic every byte is that of the last element inside the block that covers it,
      and 0 where there is none: an element that passes the end writes nothing at all. */
  lemma {:induction false} BytesComeFromElementsInside(size: nat, slots: seq<Slot>, b: nat)
    requires PutAllFitting(Done(Zeros(size)), slots).Done? && b < size
    ensures |PutAllFitting(Done(Zeros(size)), slots).value| == size
    ensures PutAllFitting(Done(Zeros(size)), slots).value[b] == LastWriter(Inside(slots, size), b).GetOr(0)
  {
    if slots != [] {
      BytesComeFromElementsInside(size, Front(slots), b);
    }
  }

  lemma {:induction false} FittingPanicIsFinal(slots: seq<Slot>)
    ensures PutAllFitting(Panic, slots) == Panic
  {
    if slots != [] {
      FittingPanicIsFinal(Front(slots));
    }
  }

  // ----- decode: only the first element's bytes are sliced -----

  function BlockItems(foreign: Foreign, c: Codec, slice: seq<Byte>, width: nat, n: nat): seq<Json> {
    if n == 0 then []
    else
      var before := BlockItems(foreign, c, slice, width, n - 1);
      if n * width > |slice| then before
      else before + Pushed(DecodeValue(foreign, c, SliceOf(slice, n, width)))
  }

  /** Element `n - 1` of a slice that holds `n` elements of `width` bytes. */
  function SliceOf(slice: seq<Byte>, n: nat, width: nat): seq<Byte>
    requires n > 0 && n * width <= |slice|
  {
    MultiplesAreOrdered(n - 1, n, width);
    slice[(n - 1) * width..n * width]
  }

  function BlockProperty(foreign: Foreign, f: Field, bytes: seq<Byte>): Option<Json> {
    if f.codec.None? || f.offset + f.width > |bytes| then None
    else
      var slice := bytes[f.offset..f.offset + f.width];
      if f.count == 1 then DecodeValue(foreign, f.codec.value, slice).ToOption()
      else
        var items := BlockItems(foreign, f.codec.value, slice, f.width, f.count);
        if items == [] then None else Some(JArray(items))
  }

  function BlockValues(foreign: Foreign, fs: seq<Field>, bytes: seq<Byte>): Content {
    if fs == [] then map[]
    else
      var before := BlockValues(foreign, Front(fs), bytes);
      match BlockProperty(foreign, Last(fs), bytes)
      case Some(v) => before[Last(fs).name := v]
      case None => before
  }

  function SumOfWidths(fs: seq<Field>): nat {
    if fs == [] then 0 else SumOfWidths(Front(fs)) + Last(fs).width * Last(fs).count
  }

  /** The in-memory data block, with the fields of its definition. */
  class Block {
    var properties: seq<DataBlockProperty>
    var totalSize: nat
    var bytes: seq<Byte>
    var values: Content

    constructor (properties: seq<DataBlockProperty>, totalSize: nat, bytes: seq<Byte>)
      ensures this.properties == properties && this.totalSize == totalSize
      ensures this.bytes == bytes && values == map[]
    {
      this.properties, this.totalSize, this.bytes, values := properties, totalSize, bytes, map[];
    }

    method CalculateSize()
      modifies `totalSize
      ensures totalSize == SumOfWidths(BlockFields(properties))
    {
      var fs := BlockFields(properties);
      var sum := 0;
      for i := 0 to |fs|
        invariant sum == SumOfWidths(fs[..i])
      {
        assert Front(fs[..i + 1]) == fs[..i];
        sum := sum + fs[i].width * fs[i].count;
      }
      assert fs[..|fs|] == fs;
      totalSize := sum;
    }

    method Encode(foreign: Foreign, content: Content) returns (r: Outcome<seq<Byte>>)
      ensures r == PutAllFitting(Done(Zeros(totalSize)), AllSlots(foreign, BlockFields(properties), content))
    {
      hide PropertySlots;
      var fs := BlockFields(properties);
      r := Done(Zeros(totalSize));
      ghost var zero := r;
      for n := 0 to |fs|
        invariant r == PutAllFitting(zero, AllSlots(foreign, fs[..n], content))
      {
        var f := fs[n];
        SlotsOfPrefix(foreign, fs, n, content);
        PutAllFittingConcat(zero, AllSlots(foreign, fs[..n], content), PropertySlots(foreign, f, content));
        r := EncodeProperty(foreign, r, f, content);
      }
      assert fs[..|fs|] == fs;
    }

    static method EncodeProperty(foreign: Foreign, before: Outcome<seq<Byte>>, f: Field, content: Content)
      returns (after: Outcome<seq<Byte>>)
      ensures after == PutAllFitting(before, PropertySlots(foreign, f, content))
    {
      hide ElementSlot, ArraySlots;
      after := before;
      if f.name in content {
        if f.count == 1 {
          after := EncodeElement(foreign, before, f, 0, content[f.name]);
        } else if content[f.name].JArray? {
          var items := content[f.name].items;
          after := EncodeArray(foreign, before, f, items[..Min(|items|, f.count)]);
        }
      }
    }

    static method EncodeElement(foreign: Foreign, before: Outcome<seq<Byte>>, f: Field, i: nat, v: Json)
      returns (after: Outcome<seq<Byte>>)
      ensures after == PutAllFitting(before, ElementSlot(foreign, f, i, v))
    {
      hide EncodeValue;
      after := before;
      ghost var slots := ElementSlot(foreign, f, i, v);
      if before.Done? && f.codec.Some? {
        var start := ElementStart(f, i);
        var end := start + f.width;
        var encoded := EncodeValue(foreign, f.codec.value, v);
        if encoded.Ok? {
          assert slots == [Slot(start, f.width, encoded.value)] && Front(slots) == [];
          if end <= |before.value| {
            after := if |encoded.value| != end - start then Panic
                     else Done(before.value[..start] + encoded.value + before.value[end..]);
          }
        }
      } else if slots != [] {
        assert Front(slots) == [];
      }
    }

    static method EncodeArray(foreign: Foreign, before: Outcome<seq<Byte>>, f: Field, items: seq<Json>)
      returns (after: Outcome<seq<Byte>>)
      ensures after == PutAllFitting(before, ArraySlots(foreign, f, items))
    {
      after := before;
      for i := 0 to |items|
        invariant after == PutAllFitting(before, ArraySlots(foreign, f, items[..i]))
      {
        ArraySlotsOfPrefix(foreign, f, items, i);
        PutAllFittingConcat(before, ArraySlots(foreign, f, items[..i]), ElementSlot(foreign, f, i, items[i]));
        after := EncodeElement(foreign, after, f, i, items[i]);
      }
      assert items[..|items|] == items;
    }

    method Decode(foreign: Foreign)
      modifies `values
      ensures values == BlockValues(foreign, BlockFields(properties), bytes)
    {
      var fs := BlockFields(properties);
      values := map[];
      for n := 0 to |fs|
        invariant values == BlockValues(foreign, fs[..n], bytes)
      {
        assert Front(fs[..n + 1]) == fs[..n];
        var v := DecodeField(foreign, fs[n]);
        if v.Some? {
          values := values[fs[n].name := v.value];
        }
      }
      assert fs[..|fs|] == fs;
    }

    method DecodeField(foreign: Foreign, f: Field) returns (v: Option<Json>)
      ensures v == BlockProperty(foreign, f, bytes)
    {
      hide DecodeValue;
      if f.codec.None? || f.offset + f.width > |bytes| {
        return None;
      }
      var slice := bytes[f.offset..f.offset + f.width];
      if f.count == 1 {
        return DecodeValue(foreign, f.codec.value, slice).ToOption();
      }
      var items := [];
      for i := 0 to f.count
        invariant items == BlockItems(foreign, f.codec.value, slice, f.width, i)
      {
        MultiplesAreOrdered(i, i + 1, f.width);
        var start := i * f.width;
        var end := start + f.width;
        assert end == (i + 1) * f.width;
        if end <= |slice| {
          assert SliceOf(slice, i + 1, f.width) == slice[start..end];
          items := items + Pushed(DecodeValue(foreign, f.codec.value, slice[start..end]));
        }
      }
      return if items == [] then None else Some(JArray(items));
    }
  }

  /** Where names repeat, the values show the last property of the name that decodes. */
  lemma {:induction false} LaterValuesWin(foreign: Foreign, fs: seq<Field>, bytes: seq<Byte>, k: nat)
    requires k < |fs| && BlockProperty(foreign, fs[k], bytes).Some?
    requires forall j :: k < j < |fs| ==> fs[j].name != fs[k].name || BlockProperty(foreign, fs[j], bytes).None?
    ensures Shows(BlockValues(foreign, fs, bytes), fs[k], BlockProperty(foreign, fs[k], bytes))
  {
    hide BlockProperty;
    if k < |fs| - 1 {
      LaterValuesWin(foreign, Front(fs), bytes, k);
      assert fs[|fs| - 1] == Last(fs);
    }
  }

  lemma {:induction false} NoOtherValues(foreign: Foreign, fs: seq<Field>, bytes: seq<Byte>, name: string)
    requires forall j :: 0 <= j < |fs| ==> fs[j].name != name || BlockProperty(foreign, fs[j], bytes).None?
    ensures name !in BlockValues(foreign, fs, bytes)
  {
    hide BlockProperty;
    if fs != [] {
      NoOtherValues(foreign, Front(fs), bytes, name);
      assert fs[|fs| - 1] == Last(fs);
    }
  }

  /** The codec each type is looked up to; the four without one are never coded. */
  lemma TypesReachTheirCodecs(t: PropertyType)
    ensures Lookup(TypeName(t)) ==
            match t
            case TBoolean => Some(BooleanCodec) case TByte => Some(ByteCodec) case TInteger => Some(IntegerCodec)
            case TWord => Some(WordCodec) case TDWord => Some(DWordCodec) case TDInt => Some(DIntCodec)
            case TLInt => Some(LIntCodec) case TReal => Some(RealCodec) case TString => Some(StringCodec)
            case TWString => Some(WStringCodec) case TDateTime => Some(DateTimeCodec)
            case TBigDecimal => Some(BigDecimalCodec) case TIpAddress => Some(IpCodec)
            case TLong => None case TLongAsInt => None case TLongAsDateTime => None case TIntegerAsBigDecimal => None
  {
  }

  /** The two size tables agree except on three types, which the other one takes for a byte. */
  lemma SizeTablesAgreeExactly(t: PropertyType)
    ensures TypeSize(TypeName(t)) == TypeBytes(t) <==> t !in {TLongAsInt, TLongAsDateTime, TIntegerAsBigDecimal}
    ensures t in {TLongAsInt, TLongAsDateTime, TIntegerAsBigDecimal} ==>
              TypeSize(TypeName(t)) == 1 && TypeBytes(t) == if t == TLongAsInt then 4 else 8
  {
    TypeNamesAreLowerCase(t);
    hide ToLower;
  }

  // ----- the two encoders agree -----

  /** The same schema in the two representations. */
  function Shared(p: DataBlockProperty): Property {
    Property(p.name, TypeName(p.propertyType), p.offset, p.count, p.byteSize)
  }

  function SharedDefinition(ps: seq<DataBlockProperty>, javaType: string, size: nat): BlockDefinition {
    BlockDefinition(javaType, size, seq(|ps|, i requires 0 <= i < |ps| => Shared(ps[i])))
  }

  /** Every type that has a codec has the same size in both tables; the sizes of the names
      without one never matter. */
  lemma SharedFieldsAgree(p: DataBlockProperty)
    ensures var f, g := Resolve(Shared(p)), ResolveBlock(p);
            && f.codec == g.codec && f.offset == g.offset && f.name == g.name && f.count == g.count
            && (f.codec.Some? ==> f == g)
  {
    SharedTypeSizes(p.propertyType);
  }

  lemma SharedTypeSizes(t: PropertyType)
    ensures Lookup(TypeName(t)).Some? ==> TypeSize(TypeName(t)) == TypeBytes(t)
  {
    TypeNamesAreLowerCase(t);
    hide ToLower;
    if TypeBytes(t) <= 2 {
    } else if TypeBytes(t) == 4 {
    } else {
    }
  }

  lemma TypeNamesAreLowerCase(t: PropertyType)
    ensures ToLower(TypeName(t)) == TypeName(t)
  {
    match t
    case TBoolean => case TByte => case TInteger => case TWord => case TDWord => case TDInt =>
    case TLInt => case TReal => case TString => case TWString => case TDateTime => case TBigDecimal =>
    case TIpAddress => case TLong => case TLongAsInt => case TLongAsDateTime => case TIntegerAsBigDecimal =>
  }

  lemma SharedElementSlots(foreign: Foreign, p: DataBlockProperty, i: nat, v: Json)
    ensures ElementSlot(foreign, Resolve(Shared(p)), i, v) == ElementSlot(foreign, ResolveBlock(p), i, v)
  {
    SharedFieldsAgree(p);
  }

  lemma {:induction false} SharedArraySlots(foreign: Foreign, p: DataBlockProperty, items: seq<Json>)
    ensures ArraySlots(foreign, Resolve(Shared(p)), items) == ArraySlots(foreign, ResolveBlock(p), items)
  {
    if items != [] {
      SharedArraySlots(foreign, p, Front(items));
      SharedElementSlots(foreign, p, |items| - 1, Last(items));
    }
  }

  lemma {:induction false} SharedSlots(foreign: Foreign, ps: seq<DataBlockProperty>, javaType: string,
                                       size: nat, content: Content)
    ensures AllSlots(foreign, FieldsOf(SharedDefinition(ps, javaType, size)), content)
            == AllSlots(foreign, BlockFields(ps), content)
  {
    var fs, gs := FieldsOf(SharedDefinition(ps, javaType, size)), BlockFields(ps);
    if ps != [] {
      var p := Last(ps);
      SharedSlots(foreign, Front(ps), javaType, size, content);
      assert Front(fs) == FieldsOf(SharedDefinition(Front(ps), javaType, size));
      assert Front(gs) == BlockFields(Front(ps));
      SharedPropertySlots(foreign, p, content);
    }
  }

  lemma SharedPropertySlots(foreign: Foreign, p: DataBlockProperty, content: Content)
    ensures PropertySlots(foreign, Resolve(Shared(p)), content) == PropertySlots(foreign, ResolveBlock(p), content)
  {
    hide Lookup, TypeName, TypeSize, TypeBytes, ElementSlot;
    SharedFieldsAgree(p);
    if p.name in content {
      SharedElementSlots(foreign, p, 0, content[p.name]);
      if content[p.name].JArray? {
        var items := content[p.name].items;
        SharedArraySlots(foreign, p, items[..Min(|items|, p.count)]);
      }
    }
  }

  lemma {:induction false} SameBytesWithoutPanic(bytes: seq<Byte>, slots: seq<Slot>)
    requires forall s :: s in slots ==> s.start + s.width <= |bytes| && |s.data| == s.width
    ensures PutAllFitting(Done(bytes), slots) == PutAll(Done(bytes), slots)
    ensures PutAll(Done(bytes), slots).Done? && |PutAll(Done(bytes), slots).value| == |bytes|
  {
    if slots != [] {
      var s := Last(slots);
      assert slots == Front(slots) + [s];
      SameBytesWithoutPanic(bytes, Front(slots));
      assert s in slots && s.data[..s.width] == s.data;
    }
  }

  /** For one schema, one block size and elements inside the block, the two independent
      encoders have the same outcome, byte for byte, overlaps and arrays included, exactly
      when all encoded elements have their reserved width, or some element is too short and
      both panic. They differ only when an element is too long: one truncates, one panics. */
  lemma EncodersAgree(foreign: Foreign, ps: seq<DataBlockProperty>, javaType: string, size: nat, content: Content)
    requires forall s :: s in AllSlots(foreign, BlockFields(ps), content) ==> s.start + s.width <= size
    ensures var slots := AllSlots(foreign, BlockFields(ps), content);
            EncodeObject(foreign, SharedDefinition(ps, javaType, size), content)
            == PutAllFitting(Done(Zeros(size)), slots)
            <==> (forall s :: s in slots ==> |s.data| == s.width) || (exists s :: s in slots && |s.data| < s.width)
  {
    var slots := AllSlots(foreign, BlockFields(ps), content);
    SharedSlots(foreign, ps, javaType, size, content);
    EncodePanicsExactlyWhen(Zeros(size), slots);
    FittingPanicsExactlyWhen(Zeros(size), slots);
    if forall s :: s in slots ==> |s.data| == s.width {
      SameBytesWithoutPanic(Zeros(size), slots);
    }
  }

  // ----- the decoders -----

  lemma {:induction false} OneItemPerSlice(foreign: Foreign, c: Codec, slice: seq<Byte>, n: nat)
    requires slice != [] && n > 0
    ensures BlockItems(foreign, c, slice, |slice|, n) == Pushed(DecodeValue(foreign, c, slice))
  {
    hide DecodeValue;
    MultiplesAreOrdered(1, n, |slice|);
    if n > 1 {
      OneItemPerSlice(foreign, c, slice, n - 1);
    } else {
      assert BlockItems(foreign, c, slice, |slice|, 0) == [];
      assert SliceOf(slice, 1, |slice|) == slice;
    }
  }

  /** Element `i` of an array field does not decode. */
  predicate Undecodable(foreign: Foreign, c: Codec, f: Field, bytes: seq<Byte>, i: nat)
    requires i < f.count && ExtentEnd(f) <= |bytes|
  {
    ElementLiesInTheBlock(f, i, |bytes|);
    DecodeValue(foreign, c, bytes[ElementStart(f, i)..ElementStart(f, i) + f.width]).Err?
  }

  lemma ItemOfElement(foreign: Foreign, c: Codec, f: Field, bytes: seq<Byte>, i: nat)
    requires f.width > 0 && i < f.count && ExtentEnd(f) <= |bytes|
    ensures var item := DecodeItem(foreign, c, bytes, ElementStart(f, i), f.width);
            |item| <= 1 && (item == [] <==> Undecodable(foreign, c, f, bytes, i))
  {
    hide DecodeValue;
    ElementLiesInTheBlock(f, i, |bytes|);
  }

  /** The decoded items begin with those of the first element, and nothing follows exactly
      when every later element fails to decode. */
  lemma {:induction false} ItemsAfterTheFirst(foreign: Foreign, c: Codec, f: Field, bytes: seq<Byte>, n: nat)
    requires f.width > 0 && 0 < n <= f.count && ExtentEnd(f) <= |bytes|
    ensures var first := DecodeItem(foreign, c, bytes, f.offset, f.width);
            var items := DecodeItems(foreign, c, f, bytes, n);
            && |first| <= |items| && items[..|first|] == first
            && (items == first <==> forall i :: 1 <= i < n ==> Undecodable(foreign, c, f, bytes, i))
  {
    hide DecodeItem, Undecodable;
    if n == 1 {
      assert DecodeItems(foreign, c, f, bytes, 0) == [] && ElementStart(f, 0) == f.offset;
    } else {
      ItemsAfterTheFirst(foreign, c, f, bytes, n - 1);
      ItemOfElement(foreign, c, f, bytes, n - 1);
    }
  }

  /** This decoder returns of a field what the other one returns of its first element, if that
      lies inside the bytes, no matter where the others lie; otherwise nothing. */
  lemma DecodesOneElement(foreign: Foreign, f: Field, bytes: seq<Byte>)
    requires f.codec.Some? && f.width > 0 && f.count > 0
    ensures var first := DecodeProperty(foreign, f.(count := 1), bytes);
            BlockProperty(foreign, f, bytes)
            == if f.offset + f.width > |bytes| then None
               else if f.count == 1 || first.None? then first else Some(JArray([first.value]))
  {
    hide DecodeValue;
    if f.offset + f.width <= |bytes| {
      assert ExtentEnd(f.(count := 1)) == f.offset + f.width;
      OneItemPerSlice(foreign, f.codec.value, bytes[f.offset..f.offset + f.width], f.count);
    }
  }

  /** Of a field inside the bytes this decoder returns what the other one returns of its
      first element. So the two agree exactly when every element from the second on fails to
      decode, in particular on scalars. */
  lemma ArraysDecodeOnlyTheirFirstElement(foreign: Foreign, f: Field, bytes: seq<Byte>)
    requires f.codec.Some? && f.width > 0 && f.count > 0 && ExtentEnd(f) <= |bytes|
    ensures var first := DecodeProperty(foreign, f.(count := 1), bytes);
            BlockProperty(foreign, f, bytes)
            == if f.count == 1 || first.None? then first else Some(JArray([first.value]))
    ensures BlockProperty(foreign, f, bytes) == DecodeProperty(foreign, f, bytes)
            <==> forall i :: 1 <= i < f.count ==> Undecodable(foreign, f.codec.value, f, bytes, i)
  {
    hide DecodeValue, Undecodable;
    var c := f.codec.value;
    MultiplesAreOrdered(1, f.count, f.width);
    var slice := bytes[f.offset..f.offset + f.width];
    assert ExtentEnd(f.(count := 1)) == f.offset + f.width;
    OneItemPerSlice(foreign, c, slice, f.count);
    ItemsAfterTheFirst(foreign, c, f, bytes, f.count);
    assert DecodeItem(foreign, c, bytes, f.offset, f.width) == Pushed(DecodeValue(foreign, c, slice));
  }

  /** For fixed-width fields the decoders agree on scalars and on nothing else. */
  lemma FixedWidthDecodersAgreeExactlyOnScalars(foreign: Foreign, f: Field, bytes: seq<Byte>)
    requires f.codec.Some? && HasFixedWidth(f) && f.width > 0 && f.count > 0 && ExtentEnd(f) <= |bytes|
    ensures BlockProperty(foreign, f, bytes) == DecodeProperty(foreign, f, bytes) <==> f.count == 1
  {
    hide DecodeValue, EncodeValue;
    ArraysDecodeOnlyTheirFirstElement(foreign, f, bytes);
    if f.count > 1 {
      ElementLiesInTheBlock(f, 1, |bytes|);
      BytesRoundTrip(foreign, f.codec.value, bytes[ElementStart(f, 1)..ElementStart(f, 1) + f.width]);
      assert !Undecodable(foreign, f.codec.value, f, bytes, 1);
    }
  }
}
