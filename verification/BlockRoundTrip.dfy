// What the block codec guarantees: when it panics, which write every byte comes from,
// and that decoding an encoded block returns the values that went in.
module BlockRoundTrip {
  import opened Prelude
  import opened BigEndian
  import opened Codecs
  import opened Fields
  import opened BlockCodec

  // ----- panics -----

  /** Encoding panics exactly when some encoded element starts past the block or is shorter
      than the bytes it is sliced to; otherwise it returns a block of the defined size. */
  lemma {:induction false} EncodePanicsExactlyWhen(bytes: seq<Byte>, slots: seq<Slot>)
    ensures PutAll(Done(bytes), slots) == Panic
            <==> exists s :: s in slots && (s.start > |bytes| || |s.data| < Min(s.start + s.width, |bytes|) - s.start)
    ensures var r := PutAll(Done(bytes), slots); r == Panic || (r.Done? && |r.value| == |bytes|)
  {
    if slots != [] {
      EncodePanicsExactlyWhen(bytes, Front(slots));
      assert slots == Front(slots) + [Last(slots)];
    }
  }

  // ----- the last writer of every byte -----

  predicate Covers(s: Slot, b: nat) {
    s.start <= b < s.start + s.width && b - s.start < |s.data|
  }

  function LastWriter(slots: seq<Slot>, b: nat): Option<Byte> {
    if slots == [] then None
    else if Covers(Last(slots), b) then Some(Last(slots).data[b - Last(slots).start])
    else LastWriter(Front(slots), b)
  }

  /** Each byte of the block is what the last element covering it wrote there, and 0 where
      no element reaches: overlapping properties resolve to the later one. */
  lemma {:induction false} BytesComeFromTheirLastWriter(size: nat, slots: seq<Slot>, b: nat)
    requires PutAll(Done(Zeros(size)), slots).Done? && b < size
    ensures |PutAll(Done(Zeros(size)), slots).value| == size
    ensures PutAll(Done(Zeros(size)), slots).value[b] == LastWriter(slots, b).GetOr(0)
  {
    if slots != [] {
      BytesComeFromTheirLastWriter(size, Front(slots), b);
    }
  }

  lemma {:induction false} LastWriterConcat(s: seq<Slot>, t: seq<Slot>, b: nat)
    ensures LastWriter(s + t, b) == if LastWriter(t, b).Some? then LastWriter(t, b) else LastWriter(s, b)
  {
    if t == [] {
      assert s + t == s;
    } else {
      LastWriterConcat(s, Front(t), b);
      assert Front(s + t) == s + Front(t);
    }
  }

  // ----- well-formed definitions -----

  predicate Within(f: Field, b: nat) {
    f.offset <= b < ExtentEnd(f)
  }

  predicate Disjoint(f: Field, g: Field) {
    ExtentEnd(f) <= g.offset || ExtentEnd(g) <= f.offset
    || ExtentEnd(f) == f.offset || ExtentEnd(g) == g.offset
  }

  /** Unique names, and extents that lie in the block and do not overlap. */
  predicate WellFormed(fs: seq<Field>, size: nat) {
    && (forall f :: f in fs ==> f.width > 0 && ExtentEnd(f) <= size)
    && (forall i, j :: 0 <= i < j < |fs| ==> fs[i].name != fs[j].name && Disjoint(fs[i], fs[j]))
  }

  /** What one field needs, whatever the rest of the definition and content look like: it
      lies in the block, no other field has its name or touches its bytes, and its own
      elements encode to the bytes reserved for them. */
  ghost predicate Isolated(foreign: Foreign, fs: seq<Field>, size: nat, content: Content, k: nat) {
    && k < |fs| && fs[k].width > 0 && ExtentEnd(fs[k]) <= size
    && (forall j :: 0 <= j < |fs| && j != k ==> fs[j].name != fs[k].name && Disjoint(fs[j], fs[k]))
    && (forall s :: s in PropertySlots(foreign, fs[k], content) ==> |s.data| == s.width)
  }

  /** Every element that encodes at all encodes to exactly the bytes reserved for it. */
  ghost predicate WidthsMatch(foreign: Foreign, fs: seq<Field>, content: Content) {
    forall s :: s in AllSlots(foreign, fs, content) ==> |s.data| == s.width
  }

  /** The value written at element `i`, and the bytes it takes: zeros if nothing is written. */
  function ElementValue(f: Field, content: Content, i: nat): Option<Json> {
    if f.name !in content then None
    else if f.count == 1 then Some(content[f.name])
    else if content[f.name].JArray? && i < |content[f.name].items| then Some(content[f.name].items[i])
    else None
  }

  function ElementBytes(foreign: Foreign, f: Field, content: Content, i: nat): seq<Byte> {
    match (f.codec, ElementValue(f, content, i))
    case (Some(c), Some(v)) => (match EncodeValue(foreign, c, v) case Ok(b) => b case Err(_) => Zeros(f.width))
    case _ => Zeros(f.width)
  }

  /** What reading back should give, said without offsets: the decoded bytes of each element. */
  function ExpectedItems(foreign: Foreign, c: Codec, f: Field, content: Content, n: nat): seq<Json> {
    if n == 0 then []
    else
      ExpectedItems(foreign, c, f, content, n - 1)
      + Pushed(DecodeValue(foreign, c, ElementBytes(foreign, f, content, n - 1)))
  }

  function ExpectedProperty(foreign: Foreign, f: Field, content: Content): Option<Json> {
    match f.codec
    case None => None
    case Some(c) =>
      if f.count == 1 then DecodeValue(foreign, c, ElementBytes(foreign, f, content, 0)).ToOption()
      else
        var items := ExpectedItems(foreign, c, f, content, f.count);
        if items == [] then None else Some(JArray(items))
  }

  // ----- the writes of one property -----

  /** The slot, if any, of element `i` among the slots of its property. */
  function SlotOfElement(foreign: Foreign, f: Field, content: Content, i: nat): seq<Slot> {
    match ElementValue(f, content, i)
    case Some(v) => ElementSlot(foreign, f, i, v)
    case None => []
  }

  lemma {:induction false} ArrayWriters(foreign: Foreign, f: Field, items: seq<Json>, i: nat, b: nat)
    requires ElementStart(f, i) <= b < ElementStart(f, i) + f.width
    ensures LastWriter(ArraySlots(foreign, f, items), b)
            == if i < |items| then LastWriter(ElementSlot(foreign, f, i, items[i]), b) else None
  {
    if items != [] {
      var last := |items| - 1;
      ArrayWriters(foreign, f, Front(items), i, b);
      var slots := ElementSlot(foreign, f, last, Last(items));
      LastWriterConcat(ArraySlots(foreign, f, Front(items)), slots, b);
      if i < last {
        LaterElementsStartLater(f, i, last);
      } else if last < i {
        LaterElementsStartLater(f, last, i);
      }
      if i != last {
        NotAWriter(slots, b);
      }
    }
  }

  lemma NotAWriter(slots: seq<Slot>, b: nat)
    requires |slots| <= 1 && forall s :: s in slots ==> !Covers(s, b)
    ensures LastWriter(slots, b) == None
  {
    if slots != [] {
      assert Last(slots) in slots;
      assert Front(slots) == [];
    }
  }

  /** Inside element `i`, only the slot of element `i` writes. */
  lemma PropertyWriters(foreign: Foreign, f: Field, content: Content, i: nat, b: nat)
    requires i < f.count && ElementStart(f, i) <= b < ElementStart(f, i) + f.width
    ensures LastWriter(PropertySlots(foreign, f, content), b)
            == LastWriter(SlotOfElement(foreign, f, content, i), b)
  {
    if f.name in content && f.count != 1 && content[f.name].JArray? {
      var items := content[f.name].items;
      ArrayWriters(foreign, f, items[..Min(|items|, f.count)], i, b);
    }
  }

  lemma {:induction false} ArraySlotsStayWithin(foreign: Foreign, f: Field, items: seq<Json>, s: Slot)
    requires |items| <= f.count && s in ArraySlots(foreign, f, items)
    ensures f.offset <= s.start && s.start + s.width <= ExtentEnd(f)
  {
    if s in ArraySlots(foreign, f, Front(items)) {
      ArraySlotsStayWithin(foreign, f, Front(items), s);
    } else {
      MultiplesAreOrdered(|items| - 1, f.count, f.width);
      MultiplesAreOrdered(0, |items| - 1, f.width);
    }
  }

  lemma SlotsStayWithin(foreign: Foreign, f: Field, content: Content, s: Slot)
    requires s in PropertySlots(foreign, f, content)
    ensures f.offset <= s.start && s.start + s.width <= ExtentEnd(f)
  {
    if f.count != 1 {
      var items := content[f.name].items;
      ArraySlotsStayWithin(foreign, f, items[..Min(|items|, f.count)], s);
    }
  }

  lemma {:induction false} NoWriterOutside(slots: seq<Slot>, b: nat)
    requires forall s :: s in slots ==> !Covers(s, b)
    ensures LastWriter(slots, b) == None
  {
    if slots != [] {
      assert Last(slots) in slots;
      forall s | s in Front(slots) ensures s in slots {}
      NoWriterOutside(Front(slots), b);
    }
  }

  lemma OtherPropertiesDoNotWrite(foreign: Foreign, g: Field, content: Content, b: nat)
    requires !Within(g, b)
    ensures LastWriter(PropertySlots(foreign, g, content), b) == None
  {
    forall s | s in PropertySlots(foreign, g, content) ensures !Covers(s, b) {
      SlotsStayWithin(foreign, g, content, s);
    }
    NoWriterOutside(PropertySlots(foreign, g, content), b);
  }

  /** With disjoint extents, a byte of property `fs[k]` is written by that property alone,
      and a byte outside every extent by none. */
  lemma {:induction false} OnlyItsPropertyWrites(foreign: Foreign, fs: seq<Field>, content: Content, k: int, b: nat)
    requires -1 <= k < |fs| && (k >= 0 ==> Within(fs[k], b))
    requires forall j :: 0 <= j < |fs| && j != k ==> !Within(fs[j], b)
    ensures LastWriter(AllSlots(foreign, fs, content), b)
            == if k >= 0 then LastWriter(PropertySlots(foreign, fs[k], content), b) else None
  {
    if fs != [] {
      var n := |fs| - 1;
      LastWriterConcat(AllSlots(foreign, Front(fs), content), PropertySlots(foreign, Last(fs), content), b);
      if k == n {
        OnlyItsPropertyWrites(foreign, Front(fs), content, -1, b);
      } else {
        OnlyItsPropertyWrites(foreign, Front(fs), content, k, b);
        OtherPropertiesDoNotWrite(foreign, Last(fs), content, b);
      }
    }
  }

  lemma {:induction false} PropertySlotsAreAmongAll(foreign: Foreign, fs: seq<Field>, content: Content,
                                                    f: Field, s: Slot)
    requires f in fs && s in PropertySlots(foreign, f, content)
    ensures s in AllSlots(foreign, fs, content)
  {
    if f != Last(fs) {
      assert f in Front(fs);
      PropertySlotsAreAmongAll(foreign, Front(fs), content, f, s);
    }
  }

  lemma {:induction false} AllSlotsHaveAProperty(foreign: Foreign, fs: seq<Field>, content: Content, s: Slot)
      returns (f: Field)
    requires s in AllSlots(foreign, fs, content)
    ensures f in fs && s in PropertySlots(foreign, f, content)
  {
    if s in PropertySlots(foreign, Last(fs), content) {
      f := Last(fs);
    } else {
      f := AllSlotsHaveAProperty(foreign, Front(fs), content, s);
    }
  }

  lemma ElementSlotIsAmongPropertySlots(foreign: Foreign, f: Field, content: Content, i: nat, s: Slot)
    requires i < f.count && s in SlotOfElement(foreign, f, content, i)
    ensures s in PropertySlots(foreign, f, content)
  {
    if f.count != 1 {
      var items := content[f.name].items;
      var taken := items[..Min(|items|, f.count)];
      assert taken[i] == items[i];
      ArraySlotsHoldEach(foreign, f, taken, i);
    }
  }

  // ----- overlaps and shared names -----

  lemma {:induction false} LaterFieldsDoNotCover(foreign: Foreign, fs: seq<Field>, content: Content, k: nat, b: nat)
    requires k < |fs| && forall j :: k < j < |fs| ==> !Within(fs[j], b)
    ensures LastWriter(PropertySlots(foreign, fs[k], content), b).Some? ==>
              LastWriter(AllSlots(foreign, fs, content), b) == LastWriter(PropertySlots(foreign, fs[k], content), b)
  {
    hide PropertySlots, Within;
    LastWriterConcat(AllSlots(foreign, Front(fs), content), PropertySlots(foreign, Last(fs), content), b);
    if k < |fs| - 1 {
      LaterFieldsDoNotCover(foreign, Front(fs), content, k, b);
      OtherPropertiesDoNotWrite(foreign, fs[|fs| - 1], content, b);
    }
  }

  lemma ElementWritesItsByte(foreign: Foreign, f: Field, content: Content, i: nat, b: nat)
    requires i < f.count && SlotOfElement(foreign, f, content, i) != []
    requires ElementStart(f, i) <= b < ElementStart(f, i) + Min(f.width, |ElementBytes(foreign, f, content, i)|)
    ensures LastWriter(PropertySlots(foreign, f, content), b)
            == Some(ElementBytes(foreign, f, content, i)[b - ElementStart(f, i)])
  {
    hide EncodeValue, PropertySlots;
    PropertyWriters(foreign, f, content, i, b);
    assert SlotOfElement(foreign, f, content, i)
        == [Slot(ElementStart(f, i), f.width, ElementBytes(foreign, f, content, i))];
  }

  /** Where properties overlap, the later one stands: a byte that an encoded element covers is
      that element's own, whatever earlier properties wrote, unless a later property reaches
      it; also in an element that is clipped at the end of the block. */
  lemma LaterPropertiesWin(foreign: Foreign, def: BlockDefinition, content: Content, k: nat, i: nat, b: nat)
    requires EncodeObject(foreign, def, content).Done? && b < def.blockSize
    requires k < |FieldsOf(def)| && i < FieldsOf(def)[k].count
    requires SlotOfElement(foreign, FieldsOf(def)[k], content, i) != []
    requires forall j :: k < j < |FieldsOf(def)| ==> !Within(FieldsOf(def)[j], b)
    ensures |EncodeObject(foreign, def, content).value| == def.blockSize
    ensures var f := FieldsOf(def)[k];
            var own := ElementBytes(foreign, f, content, i);
            ElementStart(f, i) <= b < ElementStart(f, i) + Min(f.width, |own|) ==>
              EncodeObject(foreign, def, content).value[b] == own[b - ElementStart(f, i)]
  {
    hide EncodeValue, PropertySlots, AllSlots, FieldsOf, PutAll, Within, LastWriter, ElementBytes, SlotOfElement,
         ElementStart;
    var fs, f := FieldsOf(def), FieldsOf(def)[k];
    BytesComeFromTheirLastWriter(def.blockSize, AllSlots(foreign, fs, content), b);
    if ElementStart(f, i) <= b < ElementStart(f, i) + Min(f.width, |ElementBytes(foreign, f, content, i)|) {
      ElementWritesItsByte(foreign, f, content, i, b);
      LaterFieldsDoNotCover(foreign, fs, content, k, b);
    }
  }

  /** Where names repeat, the decoded map shows the last property of the name that decodes. */
  lemma {:induction false} LaterNamesWin(foreign: Foreign, fs: seq<Field>, data: seq<Byte>, k: nat)
    requires k < |fs| && DecodeProperty(foreign, fs[k], data).Some?
    requires forall j :: k < j < |fs| ==> fs[j].name != fs[k].name || DecodeProperty(foreign, fs[j], data).None?
    ensures Shows(DecodeProperties(foreign, fs, data), fs[k], DecodeProperty(foreign, fs[k], data))
  {
    hide DecodeProperty;
    if k < |fs| - 1 {
      LaterNamesWin(foreign, Front(fs), data, k);
      assert fs[|fs| - 1] == Last(fs);
    }
  }

  // ----- data that end early -----

  /** A string reads back wherever the data end behind it: the property's slot, 256 bytes by
      default, need not lie inside the data. */
  lemma ClippedStringsDecode(foreign: Foreign, f: Field, data: seq<Byte>, s: string)
    requires f.codec == Some(StringCodec) && f.count == 1
    requires EncodeValue(foreign, StringCodec, JString(s)).Ok?
    requires var wire := EncodeValue(foreign, StringCodec, JString(s)).value;
             |wire| <= f.width && f.offset + |wire| <= |data| && data[f.offset..f.offset + |wire|] == wire
    ensures DecodeProperty(foreign, f, data) == Some(JString(s))
  {
    var wire := EncodeValue(foreign, StringCodec, JString(s)).value;
    var end := Min(ExtentEnd(f), |data|);
    StringsOnTheWire(foreign, JString(s));
    StringRoundTrip(foreign, s, data[f.offset + |wire|..end]);
    hide EncodeValue, DecodeValue;
    assert data[f.offset..end] == wire + data[f.offset + |wire|..end];
  }

  lemma CutItem(foreign: Foreign, f: Field, data: seq<Byte>, i: nat)
    requires f.codec.Some? && HasFixedWidth(f) && f.width > 0
    ensures var item := DecodeItem(foreign, f.codec.value, data, ElementStart(f, i), f.width);
            if ElementStart(f, i) + f.width > |data| then item == []
            else |item| == 1 && Ok(item[0]) == DecodeValue(foreign, f.codec.value,
                   data[ElementStart(f, i)..ElementStart(f, i) + f.width])
  {
    hide DecodeValue, FixedWidth, ElementStart;
    var start := ElementStart(f, i);
    if start < |data| {
      ShortBytesFail(foreign, f.codec.value, data[start..Min(start + f.width, |data|)]);
    }
  }

  lemma {:induction false} WholeItems(foreign: Foreign, f: Field, data: seq<Byte>, m: nat, n: nat)
    requires f.codec.Some? && HasFixedWidth(f) && f.width > 0
    requires forall i :: 0 <= i < n ==> (i < m <==> ElementStart(f, i) + f.width <= |data|)
    ensures var items := DecodeItems(foreign, f.codec.value, f, data, n);
            && |items| == Min(m, n)
            && forall i :: 0 <= i < |items| ==>
                 ElementStart(f, i) + f.width <= |data| &&
                 Ok(items[i]) == DecodeValue(foreign, f.codec.value,
                                             data[ElementStart(f, i)..ElementStart(f, i) + f.width])
  {
    hide DecodeValue, DecodeItem, FixedWidth, ElementStart;
    if n > 0 {
      WholeItems(foreign, f, data, m, n - 1);
      CutItem(foreign, f, data, n - 1);
    }
  }

  lemma WholeElement(f: Field, data: seq<Byte>, m: nat, i: nat)
    requires m <= f.count && i < f.count
    requires m > 0 ==> ElementStart(f, m) <= |data|
    requires m < f.count ==> |data| < ElementStart(f, m + 1)
    ensures i < m <==> ElementStart(f, i) + f.width <= |data|
  {
    assert ElementStart(f, i) + f.width == ElementStart(f, i + 1);
    if i < m {
      LaterElementsStartLater(f, i + 1, m);
    } else {
      LaterElementsStartLater(f, m + 1, i + 1);
    }
  }

  /** Of a fixed-width property the data end in, exactly the elements they hold in full are
      decoded, each from its own bytes: a scalar cut short is absent, an array cut short has
      its first `m` elements. */
  lemma CutFieldsKeepWholeElements(foreign: Foreign, f: Field, data: seq<Byte>, m: nat)
    requires f.codec.Some? && HasFixedWidth(f) && f.width > 0 && m <= f.count
    requires m > 0 ==> ElementStart(f, m) <= |data|
    requires m < f.count ==> |data| < ElementStart(f, m + 1)
    ensures var v := DecodeProperty(foreign, f, data);
            && (v.Some? <==> m > 0)
            && (v.Some? && f.count != 1 ==> v.value.JArray? && |v.value.items| == m)
            && forall i :: 0 <= i < m ==>
                 ElementStart(f, i) + f.width <= |data| && v.Some? && (f.count == 1 || v.value.JArray?) &&
                 Ok(if f.count == 1 then v.value else v.value.items[i])
                 == DecodeValue(foreign, f.codec.value, data[ElementStart(f, i)..ElementStart(f, i) + f.width])
  {
    forall i: nat | i < f.count ensures i < m <==> ElementStart(f, i) + f.width <= |data| {
      WholeElement(f, data, m, i);
    }
    WholeItems(foreign, f, data, m, f.count);
    PropertyOfItems(foreign, f, data);
    hide DecodeValue, FixedWidth, ElementStart, DecodeItems, DecodeProperty;
  }

  /** Also where the data end early, a property is what its elements decode to. */
  lemma PropertyOfItems(foreign: Foreign, f: Field, data: seq<Byte>)
    requires f.codec.Some?
    ensures var items := DecodeItems(foreign, f.codec.value, f, data, f.count);
            DecodeProperty(foreign, f, data)
            == if items == [] then None else if f.count == 1 then Some(items[0]) else Some(JArray(items))
  {
    hide DecodeValue;
    assert ElementStart(f, 0) == f.offset;
    if f.offset >= |data| {
      NothingPastTheEnd(foreign, f.codec.value, f, data, 0, f.count);
    } else if f.count == 1 {
      assert DecodeItems(foreign, f.codec.value, f, data, 0) == [];
      assert ExtentEnd(f) == f.offset + f.width;
    }
  }

  // ----- the round trip -----

  lemma WellFormedNeverPanics(foreign: Foreign, def: BlockDefinition, content: Content)
    requires WellFormed(FieldsOf(def), def.blockSize)
    requires WidthsMatch(foreign, FieldsOf(def), content)
    ensures var r := EncodeObject(foreign, def, content); r.Done? && |r.value| == def.blockSize
  {
    var slots := AllSlots(foreign, FieldsOf(def), content);
    EncodePanicsExactlyWhen(Zeros(def.blockSize), slots);
    forall s | s in slots ensures !Overruns(def.blockSize, s) {
      var f := AllSlotsHaveAProperty(foreign, FieldsOf(def), content, s);
      SlotsStayWithin(foreign, f, content, s);
    }
  }

  /** In a well-formed definition with matching widths every field is isolated. */
  lemma WellFormedFieldsAreIsolated(foreign: Foreign, fs: seq<Field>, size: nat, content: Content, k: nat)
    requires WellFormed(fs, size) && WidthsMatch(foreign, fs, content) && k < |fs|
    ensures Isolated(foreign, fs, size, content, k)
  {
    assert fs[k] in fs;
    forall s | s in PropertySlots(foreign, fs[k], content) ensures |s.data| == s.width {
      PropertySlotsAreAmongAll(foreign, fs, content, fs[k], s);
    }
  }

  lemma ElementBytesFillTheirSlot(foreign: Foreign, f: Field, content: Content, i: nat)
    requires forall s :: s in PropertySlots(foreign, f, content) ==> |s.data| == s.width
    requires i < f.count && f.codec.Some?
    ensures |ElementBytes(foreign, f, content, i)| == f.width
  {
    hide EncodeValue;
    var own := SlotOfElement(foreign, f, content, i);
    if own != [] {
      assert own[0] in own;
      ElementSlotIsAmongPropertySlots(foreign, f, content, i, own[0]);
      assert |own[0].data| == own[0].width;
    }
  }

  lemma EncodedByte(foreign: Foreign, def: BlockDefinition, content: Content, k: nat, i: nat, b: nat)
    requires Isolated(foreign, FieldsOf(def), def.blockSize, content, k)
    requires EncodeObject(foreign, def, content).Done?
    requires var f := FieldsOf(def)[k];
             && i < f.count && f.codec.Some?
             && ElementStart(f, i) <= b < ElementStart(f, i) + f.width
             && |ElementBytes(foreign, f, content, i)| == f.width
    ensures b < |EncodeObject(foreign, def, content).value| == def.blockSize
    ensures var f := FieldsOf(def)[k];
            EncodeObject(foreign, def, content).value[b]
            == ElementBytes(foreign, f, content, i)[b - ElementStart(f, i)]
  {
    hide EncodeValue, ElementBytes, SlotOfElement, LastWriter, AllSlots, PropertySlots, PutAll, FieldsOf;
    var fs, f := FieldsOf(def), FieldsOf(def)[k];
    MultiplesAreOrdered(i, f.count, f.width);
    MultiplesAreOrdered(0, i, f.width);
    BytesComeFromTheirLastWriter(def.blockSize, AllSlots(foreign, fs, content), b);
    OnlyItsPropertyWrites(foreign, fs, content, k, b);
    PropertyWriters(foreign, f, content, i, b);
    OwnByte(foreign, f, content, i, b);
  }

  lemma EncodedSize(foreign: Foreign, def: BlockDefinition, content: Content)
    requires EncodeObject(foreign, def, content).Done?
    ensures |EncodeObject(foreign, def, content).value| == def.blockSize
  {
    EncodePanicsExactlyWhen(Zeros(def.blockSize), AllSlots(foreign, FieldsOf(def), content));
  }

  lemma ElementLiesInTheBlock(f: Field, i: nat, size: nat)
    requires i < f.count && ExtentEnd(f) <= size
    ensures ElementStart(f, i) + f.width <= size
  {
    MultiplesAreOrdered(i, f.count, f.width);
  }

  /** Whenever encoding succeeds, the bytes of each element of an isolated field are that
      element's own bytes. */
  lemma EncodedElement(foreign: Foreign, def: BlockDefinition, content: Content, k: nat, i: nat)
    requires Isolated(foreign, FieldsOf(def), def.blockSize, content, k)
    requires i < FieldsOf(def)[k].count && FieldsOf(def)[k].codec.Some?
    requires EncodeObject(foreign, def, content).Done?
    ensures var f := FieldsOf(def)[k];
            ElementAt(f, EncodeObject(foreign, def, content).value, i, ElementBytes(foreign, f, content, i))
  {
    hide EncodeObject, ElementBytes, FieldsOf, ElementStart, ExtentEnd, PropertySlots, Disjoint;
    var f := FieldsOf(def)[k];
    var start := ElementStart(f, i);
    EncodedSize(foreign, def, content);
    var bytes := EncodeObject(foreign, def, content).value;
    ElementLiesInTheBlock(f, i, def.blockSize);
    ElementBytesFillTheirSlot(foreign, f, content, i);
    var expected := ElementBytes(foreign, f, content, i);
    forall b | start <= b < start + f.width ensures bytes[b] == expected[b - start] {
      EncodedByte(foreign, def, content, k, i, b);
    }
    assert bytes[start..start + f.width] == expected;
  }

  lemma OwnByte(foreign: Foreign, f: Field, content: Content, i: nat, b: nat)
    requires f.codec.Some?
    requires ElementStart(f, i) <= b < ElementStart(f, i) + f.width
    requires |ElementBytes(foreign, f, content, i)| == f.width
    ensures LastWriter(SlotOfElement(foreign, f, content, i), b).GetOr(0)
            == ElementBytes(foreign, f, content, i)[b - ElementStart(f, i)]
  {
    var own := SlotOfElement(foreign, f, content, i);
    if own != [] {
      assert own == [Slot(ElementStart(f, i), f.width, ElementBytes(foreign, f, content, i))];
    }
  }

  /** Reading a property depends only on the bytes of its elements. */
  predicate ElementAt(f: Field, data: seq<Byte>, i: nat, bytes: seq<Byte>) {
    && ElementStart(f, i) + f.width <= |data|
    && data[ElementStart(f, i)..ElementStart(f, i) + f.width] == bytes
  }

  lemma {:induction false} ItemsAreLocal(foreign: Foreign, c: Codec, f: Field,
                                         data: seq<Byte>, content: Content, n: nat)
    requires f.width > 0
    requires forall i :: 0 <= i < n ==> ElementAt(f, data, i, ElementBytes(foreign, f, content, i))
    ensures DecodeItems(foreign, c, f, data, n) == ExpectedItems(foreign, c, f, content, n)
  {
    hide DecodeValue, ElementBytes;
    if n > 0 {
      ItemsAreLocal(foreign, c, f, data, content, n - 1);
      assert ElementAt(f, data, n - 1, ElementBytes(foreign, f, content, n - 1));
    }
  }

  lemma PropertyIsLocal(foreign: Foreign, f: Field, data: seq<Byte>, content: Content)
    requires f.width > 0
    requires forall i :: 0 <= i < f.count ==> ElementAt(f, data, i, ElementBytes(foreign, f, content, i))
    ensures DecodeProperty(foreign, f, data) == ExpectedProperty(foreign, f, content)
  {
    hide DecodeValue, ElementBytes;
    match f.codec
    case None =>
    case Some(c) =>
      ItemsAreLocal(foreign, c, f, data, content, f.count);
      if f.count == 1 {
        assert ElementAt(f, data, 0, ElementBytes(foreign, f, content, 0));
        assert ElementStart(f, 0) == f.offset;
      } else if f.count > 1 {
        assert ElementAt(f, data, 0, ElementBytes(foreign, f, content, 0));
        assert ElementStart(f, 0) == f.offset;
      }
  }

  lemma {:induction false} DecodedByName(foreign: Foreign, fs: seq<Field>, data: seq<Byte>, k: nat)
    requires k < |fs| && forall j :: 0 <= j < |fs| && j != k ==> fs[j].name != fs[k].name
    ensures var m := DecodeProperties(foreign, fs, data);
            var v := DecodeProperty(foreign, fs[k], data);
            (fs[k].name in m <==> v.Some?) && (v.Some? ==> m[fs[k].name] == v.value)
  {
    if k < |fs| - 1 {
      DecodedByName(foreign, Front(fs), data, k);
    } else {
      NamesAreOfProperties(foreign, Front(fs), data);
    }
  }

  lemma {:induction false} NamesAreOfProperties(foreign: Foreign, fs: seq<Field>, data: seq<Byte>)
    ensures forall name :: name in DecodeProperties(foreign, fs, data) ==> exists f :: f in fs && f.name == name
  {
    if fs != [] {
      NamesAreOfProperties(foreign, Front(fs), data);
      assert Last(fs) in fs;
      forall f | f in Front(fs) ensures f in fs {}
    }
  }

  /** The decoded map holds this value of the field, or does not hold its name. */
  predicate Shows(m: Content, f: Field, v: Option<Json>) {
    (f.name in m <==> v.Some?) && (v.Some? ==> m[f.name] == v.value)
  }

  /** Data that hold an isolated field's element bytes decode to its normalised value. */
  lemma IsolatedFieldDecodes(foreign: Foreign, fs: seq<Field>, size: nat, content: Content, k: nat, data: seq<Byte>)
    requires Isolated(foreign, fs, size, content, k)
    requires fs[k].codec.Some? ==>
               forall i :: 0 <= i < fs[k].count ==> ElementAt(fs[k], data, i, ElementBytes(foreign, fs[k], content, i))
    ensures Shows(DecodeProperties(foreign, fs, data), fs[k], ExpectedProperty(foreign, fs[k], content))
  {
    hide ElementAt, ElementBytes, DecodeProperties, PropertySlots, Disjoint;
    if fs[k].codec.Some? {
      PropertyIsLocal(foreign, fs[k], data, content);
    }
    DecodedByName(foreign, fs, data, k);
  }

  /** The round trip of one field: whenever encoding succeeds, decoding gives an isolated
      field its normalised value, even if other fields overlap or leave the block. */
  lemma FieldRoundTrip(foreign: Foreign, def: BlockDefinition, content: Content, k: nat)
    requires Isolated(foreign, FieldsOf(def), def.blockSize, content, k)
    requires EncodeObject(foreign, def, content).Done?
    ensures var m := DecodeProperties(foreign, FieldsOf(def), EncodeObject(foreign, def, content).value);
            Shows(m, FieldsOf(def)[k], ExpectedProperty(foreign, FieldsOf(def)[k], content))
  {
    hide ElementAt, ElementBytes, DecodeProperties, ExpectedProperty, EncodeObject, FieldsOf, Shows;
    var fs := FieldsOf(def);
    var bytes := EncodeObject(foreign, def, content).value;
    if fs[k].codec.Some? {
      forall i | 0 <= i < fs[k].count ensures ElementAt(fs[k], bytes, i, ElementBytes(foreign, fs[k], content, i)) {
        EncodedElement(foreign, def, content, k, i);
      }
    }
    IsolatedFieldDecodes(foreign, fs, def.blockSize, content, k, bytes);
  }

  /** Decoding an encoded block gives every property its normalised value: each element
      decodes from its own encoded bytes, elements of short arrays and absent properties
      from zero bytes; and bytes outside all properties stay 0. */
  lemma BlockRoundTrip(foreign: Foreign, def: BlockDefinition, content: Content)
    requires WellFormed(FieldsOf(def), def.blockSize)
    requires WidthsMatch(foreign, FieldsOf(def), content)
    ensures var r := EncodeObject(foreign, def, content);
            && r.Done? && |r.value| == def.blockSize
            && (forall b :: 0 <= b < def.blockSize && (forall f :: f in FieldsOf(def) ==> !Within(f, b)) ==>
                  r.value[b] == 0)
            && forall f :: f in FieldsOf(def) ==>
                 Shows(DecodeProperties(foreign, FieldsOf(def), r.value), f, ExpectedProperty(foreign, f, content))
  {
    hide DecodeProperties, ExpectedProperty, Shows;
    WellFormedNeverPanics(foreign, def, content);
    var fs := FieldsOf(def);
    var bytes := EncodeObject(foreign, def, content).value;
    forall b | 0 <= b < def.blockSize && (forall f :: f in fs ==> !Within(f, b)) ensures bytes[b] == 0 {
      BytesComeFromTheirLastWriter(def.blockSize, AllSlots(foreign, fs, content), b);
      OnlyItsPropertyWrites(foreign, fs, content, -1, b);
    }
    forall f | f in fs
      ensures Shows(DecodeProperties(foreign, fs, bytes), f, ExpectedProperty(foreign, f, content))
    {
      var k :| 0 <= k < |fs| && fs[k] == f;
      WellFormedFieldsAreIsolated(foreign, fs, def.blockSize, content, k);
      FieldRoundTrip(foreign, def, content, k);
    }
  }

  // ----- the expected values of fixed-width fields -----

  predicate HasFixedWidth(f: Field) {
    f.codec.Some? ==> FixedWidth(f.codec.value) == Some(f.width)
  }

  /** With fixed-width types whose sizes are not overridden wrongly, every content fits. */
  lemma FixedWidthsMatch(foreign: Foreign, fs: seq<Field>, content: Content)
    requires forall f :: f in fs ==> HasFixedWidth(f)
    ensures WidthsMatch(foreign, fs, content)
  {
    forall s | s in AllSlots(foreign, fs, content) ensures |s.data| == s.width {
      var f := AllSlotsHaveAProperty(foreign, fs, content, s);
      SlotHoldsAnEncoding(foreign, f, content, s);
    }
  }

  lemma SlotHoldsAnEncoding(foreign: Foreign, f: Field, content: Content, s: Slot)
    requires HasFixedWidth(f) && s in PropertySlots(foreign, f, content)
    ensures |s.data| == s.width
  {
    hide EncodeValue, FixedWidth;
    if f.count == 1 {
      EncodingsHaveFixedWidth(foreign, f.codec.value, content[f.name]);
    } else {
      var items := content[f.name].items;
      ArraySlotHoldsAnEncoding(foreign, f, items[..Min(|items|, f.count)], s);
    }
  }

  lemma {:induction false} ArraySlotHoldsAnEncoding(foreign: Foreign, f: Field, items: seq<Json>, s: Slot)
    requires HasFixedWidth(f) && s in ArraySlots(foreign, f, items)
    ensures |s.data| == s.width
  {
    hide EncodeValue, FixedWidth;
    if s in ArraySlots(foreign, f, Front(items)) {
      ArraySlotHoldsAnEncoding(foreign, f, Front(items), s);
    } else {
      EncodingsHaveFixedWidth(foreign, f.codec.value, Last(items));
    }
  }

  lemma ElementBytesHaveFixedWidth(foreign: Foreign, f: Field, content: Content, i: nat)
    requires f.codec.Some? && HasFixedWidth(f)
    ensures |ElementBytes(foreign, f, content, i)| == f.width
    ensures DecodeValue(foreign, f.codec.value, ElementBytes(foreign, f, content, i)).Ok?
  {
    hide EncodeValue, DecodeValue, FixedWidth;
    var v := ElementValue(f, content, i);
    if v.Some? && EncodeValue(foreign, f.codec.value, v.value).Ok? {
      EncodingsHaveFixedWidth(foreign, f.codec.value, v.value);
    }
    BytesRoundTrip(foreign, f.codec.value, ElementBytes(foreign, f, content, i));
  }

  lemma {:induction false} ExpectedItemsAreComplete(foreign: Foreign, f: Field, content: Content, n: nat)
    requires f.codec.Some? && HasFixedWidth(f)
    ensures var items := ExpectedItems(foreign, f.codec.value, f, content, n);
            && |items| == n
            && forall i :: 0 <= i < n ==>
                 Ok(items[i]) == DecodeValue(foreign, f.codec.value, ElementBytes(foreign, f, content, i))
  {
    hide DecodeValue, ElementBytes;
    if n > 0 {
      ExpectedItemsAreComplete(foreign, f, content, n - 1);
      ElementBytesHaveFixedWidth(foreign, f, content, n - 1);
    }
  }

  /** An array field reads back with exactly `count` elements, each from its own bytes; the
      elements beyond a short array, or all of them if the property is absent, are zero. */
  lemma ArraysArePadded(foreign: Foreign, f: Field, content: Content)
    requires f.codec.Some? && HasFixedWidth(f) && f.count > 1
    ensures var v := ExpectedProperty(foreign, f, content);
            && v.Some? && v.value.JArray? && |v.value.items| == f.count
            && forall i :: 0 <= i < f.count ==>
                 && Ok(v.value.items[i]) == DecodeValue(foreign, f.codec.value, ElementBytes(foreign, f, content, i))
                 && (ElementValue(f, content, i).None? ==> ElementBytes(foreign, f, content, i) == Zeros(f.width))
  {
    hide DecodeValue, FixedWidth;
    ExpectedItemsAreComplete(foreign, f, content, f.count);
  }

  /** A scalar number that fits its type reads back as itself, an absent one as 0. */
  lemma NumbersReadBack(foreign: Foreign, f: Field, content: Content)
    requires f.codec.Some? && HasFixedWidth(f) && f.count == 1
    requires f.codec.value in {ByteCodec, WordCodec, DWordCodec, IntegerCodec, DIntCodec, LIntCodec}
    requires f.name in content ==> content[f.name].JInt?
    ensures f.name !in content ==> ExpectedProperty(foreign, f, content) == Some(JInt(0))
    ensures f.name in content ==>
            var n := content[f.name].n;
            var (k, signed) := IntegerShape(f.codec.value).value;
            ExpectedProperty(foreign, f, content) == Some(content[f.name])
            <==> if signed then FitsSigned(k, n) else 0 <= n < Pow256(k)
  {
    hide EncodeValue, DecodeValue;
    ZeroBytes(foreign, f.codec.value);
    if f.name in content {
      NumberSurvivesExactlyWhenItFits(foreign, f.codec.value, content[f.name].n);
    }
  }
}
