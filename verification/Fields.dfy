// Fields of a block, as both definitions in the source resolve to, and the writes that
// encoding performs: one slot per encoded element, in the order of the loops.
module Fields {
  import opened Prelude
  import opened Codecs

  type Content = map<string, Json>

  /** A property with its codec looked up and its element width settled. */
  datatype Field = Field(name: string, codec: Option<Codec>, offset: nat, width: nat, count: nat)

  function ElementStart(f: Field, i: nat): nat {
    f.offset + i * f.width
  }

  function ExtentEnd(f: Field): nat {
    f.offset + f.count * f.width
  }

  /** One encoded element on its way into the block. */
  datatype Slot = Slot(start: nat, width: nat, data: seq<Byte>)

  /** No slot when the type has no codec or the codec refuses the value. */
  function ElementSlot(foreign: Foreign, f: Field, i: nat, v: Json): seq<Slot> {
    match f.codec
    case None => []
    case Some(c) =>
      match EncodeValue(foreign, c, v)
      case Ok(b) => [Slot(ElementStart(f, i), f.width, b)]
      case Err(_) => []
  }

  function ArraySlots(foreign: Foreign, f: Field, items: seq<Json>): seq<Slot> {
    if items == [] then []
    else ArraySlots(foreign, f, Front(items)) + ElementSlot(foreign, f, |items| - 1, Last(items))
  }

  function PropertySlots(foreign: Foreign, f: Field, content: Content): seq<Slot> {
    if f.name !in content then []
    else
      var v := content[f.name];
      if f.count == 1 then ElementSlot(foreign, f, 0, v)
      else if v.JArray? then ArraySlots(foreign, f, v.items[..Min(|v.items|, f.count)])
      else []
  }

  function AllSlots(foreign: Foreign, fs: seq<Field>, content: Content): seq<Slot> {
    if fs == [] then [] else AllSlots(foreign, Front(fs), content) + PropertySlots(foreign, Last(fs), content)
  }

  lemma SlotsOfPrefix(foreign: Foreign, fs: seq<Field>, n: nat, content: Content)
    requires n < |fs|
    ensures AllSlots(foreign, fs[..n + 1], content)
            == AllSlots(foreign, fs[..n], content) + PropertySlots(foreign, fs[n], content)
  {
    assert Front(fs[..n + 1]) == fs[..n];
  }

  lemma ArraySlotsOfPrefix(foreign: Foreign, f: Field, items: seq<Json>, n: nat)
    requires n < |items|
    ensures ArraySlots(foreign, f, items[..n + 1])
            == ArraySlots(foreign, f, items[..n]) + ElementSlot(foreign, f, n, items[n])
  {
    assert Front(items[..n + 1]) == items[..n];
  }

  lemma {:induction false} ArraySlotsHoldEach(foreign: Foreign, f: Field, items: seq<Json>, i: nat)
    requires i < |items|
    ensures forall s :: s in ElementSlot(foreign, f, i, items[i]) ==> s in ArraySlots(foreign, f, items)
  {
    if i < |items| - 1 {
      ArraySlotsHoldEach(foreign, f, Front(items), i);
    }
  }

  lemma LaterElementsStartLater(f: Field, i: nat, j: nat)
    requires i <= j
    ensures ElementStart(f, i) <= ElementStart(f, j)
    ensures i < j ==> ElementStart(f, i) + f.width <= ElementStart(f, j)
  {
    MultiplesAreOrdered(i, j, f.width);
  }

  lemma MultiplesAreOrdered(i: nat, j: nat, w: nat)
    requires i <= j
    ensures i * w <= j * w
    ensures i < j ==> i * w + w <= j * w
    decreases j - i
  {
    if i < j {
      MultiplesAreOrdered(i, j - 1, w);
      assert j * w == (j - 1) * w + w;
    }
  }
}
