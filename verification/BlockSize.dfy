// When the computed size of a data block is enough for its properties
// (src/codec/data_block.rs:127-131 with the bounds checks of 235 and 246).
module BlockSize {
  import opened Prelude
  import opened Codecs
  import opened Fields
  import opened BlockRoundTrip
  import opened DataBlock

  /** The bytes from `low` up to but not including `high`. */
  function Range(low: int, high: int): (r: set<int>)
    ensures forall b :: b in r <==> low <= b < high
    ensures low <= high ==> |r| == high - low
    decreases high - low
  {
    if low >= high then {} else Range(low, high - 1) + {high - 1}
  }

  /** The bytes some field occupies. */
  ghost function Covered(fs: seq<Field>): set<int> {
    if fs == [] then {} else Covered(Front(fs)) + Range(Last(fs).offset, ExtentEnd(Last(fs)))
  }

  function LargestEnd(fs: seq<Field>): nat {
    if fs == [] then 0
    else if ExtentEnd(Last(fs)) > LargestEnd(Front(fs)) then ExtentEnd(Last(fs)) else LargestEnd(Front(fs))
  }

  predicate PairwiseDisjoint(fs: seq<Field>) {
    forall i, j :: 0 <= i < j < |fs| ==> Disjoint(fs[i], fs[j])
  }

  /** The fields fill the block from its first byte to its last without a gap. */
  ghost predicate TileTheBlock(fs: seq<Field>) {
    Covered(fs) == Range(0, LargestEnd(fs))
  }

  lemma {:induction false} CoveredByteHasAField(fs: seq<Field>, b: nat)
    ensures b in Covered(fs) ==> exists i :: 0 <= i < |fs| && Within(fs[i], b)
  {
    hide ExtentEnd;
    if b in Covered(fs) {
      if b in Range(Last(fs).offset, ExtentEnd(Last(fs))) {
        assert Within(fs[|fs| - 1], b);
      } else {
        CoveredByteHasAField(Front(fs), b);
        var i :| 0 <= i < |Front(fs)| && Within(Front(fs)[i], b);
        assert Within(fs[i], b);
      }
    }
  }

  lemma {:induction false} CoveredIsBelowLargestEnd(fs: seq<Field>)
    ensures Covered(fs) <= Range(0, LargestEnd(fs))
  {
    hide ExtentEnd;
    if fs != [] {
      CoveredIsBelowLargestEnd(Front(fs));
    }
  }

  lemma FieldBytes(f: Field)
    ensures |Range(f.offset, ExtentEnd(f))| == f.width * f.count
  {
    MultiplesAreOrdered(0, f.count, f.width);
  }

  lemma {:induction false} DisjointWidthsAddUp(fs: seq<Field>)
    requires PairwiseDisjoint(fs)
    ensures SumOfWidths(fs) == |Covered(fs)|
  {
    if fs != [] {
      hide ExtentEnd, Range, Disjoint;
      var front, last := Front(fs), Last(fs);
      assert PairwiseDisjoint(front);
      DisjointWidthsAddUp(front);
      FieldBytes(last);
      LastFieldIsApart(fs);
      DisjointUnion(Covered(front), Range(last.offset, ExtentEnd(last)));
    }
  }

  lemma DisjointUnion(a: set<int>, b: set<int>)
    requires a !! b
    ensures |a + b| == |a| + |b|
  {
  }

  lemma LastFieldIsApart(fs: seq<Field>)
    requires fs != [] && PairwiseDisjoint(fs)
    ensures Covered(Front(fs)) !! Range(Last(fs).offset, ExtentEnd(Last(fs)))
  {
    hide ExtentEnd;
    var front, last := Front(fs), Last(fs);
    CoveredIsBelowLargestEnd(front);
    forall b | b in Covered(front) ensures b !in Range(last.offset, ExtentEnd(last)) {
      CoveredByteHasAField(front, b);
      var i :| 0 <= i < |front| && Within(front[i], b);
      assert Disjoint(fs[i], fs[|fs| - 1]);
    }
  }

  lemma SubsetOfEqualSize(a: set<int>, b: set<int>)
    requires a <= b
    ensures |a| <= |b| && (|a| == |b| <==> a == b)
  {
    assert b == a + (b - a) && a !! b - a;
    assert |b| == |a| + |b - a|;
  }

  lemma {:induction false} LargestEndIsLargest(fs: seq<Field>, size: nat)
    ensures (forall f :: f in fs ==> ExtentEnd(f) <= size) <==> LargestEnd(fs) <= size
  {
    if fs != [] {
      LargestEndIsLargest(Front(fs), size);
      assert fs == Front(fs) + [Last(fs)];
    }
  }

  /** The last element of a field is in the content and encodes. */
  predicate EncodesToItsEnd(foreign: Foreign, f: Field, content: Content) {
    f.count > 0 && SlotOfElement(foreign, f, content, f.count - 1) != []
  }

  lemma LastElementEndsTheExtent(foreign: Foreign, f: Field, content: Content) returns (s: Slot)
    requires EncodesToItsEnd(foreign, f, content)
    ensures s in PropertySlots(foreign, f, content) && s.start + s.width == ExtentEnd(f)
  {
    s := SlotOfElement(foreign, f, content, f.count - 1)[0];
    ElementSlotIsAmongPropertySlots(foreign, f, content, f.count - 1, s);
    hide EncodeValue, PropertySlots;
    assert (f.count - 1) * f.width + f.width == f.count * f.width;
  }

  /** Every element that encodes lies inside a block of this size; the encoder skips the others. */
  ghost predicate SkipsNothing(foreign: Foreign, fs: seq<Field>, content: Content, size: nat) {
    forall s :: s in AllSlots(foreign, fs, content) ==> s.start + s.width <= size
  }

  lemma FieldsInsideSkipNothing(foreign: Foreign, fs: seq<Field>, content: Content, size: nat)
    requires forall f :: f in fs ==> ExtentEnd(f) <= size
    ensures SkipsNothing(foreign, fs, content, size)
  {
    forall s | s in AllSlots(foreign, fs, content) ensures s.start + s.width <= size {
      var f := AllSlotsHaveAProperty(foreign, fs, content, s);
      SlotsStayWithin(foreign, f, content, s);
    }
  }

  lemma SkippingNothingMeansInside(foreign: Foreign, fs: seq<Field>, content: Content, size: nat)
    requires forall f :: f in fs ==> EncodesToItsEnd(foreign, f, content)
    requires SkipsNothing(foreign, fs, content, size)
    ensures forall f :: f in fs ==> ExtentEnd(f) <= size
  {
    hide EncodesToItsEnd, ExtentEnd, AllSlots, PropertySlots;
    forall f | f in fs ensures ExtentEnd(f) <= size {
      var s := LastElementEndsTheExtent(foreign, f, content);
      PropertySlotsAreAmongAll(foreign, fs, content, f, s);
    }
  }

  /** For disjoint fields the computed size never exceeds the largest end, and it reaches it,
      so that every field lies inside the block, exactly when the fields tile the block. */
  lemma ComputedSizeFitsExactlyTilings(fs: seq<Field>)
    requires PairwiseDisjoint(fs)
    ensures SumOfWidths(fs) <= LargestEnd(fs)
    ensures SumOfWidths(fs) == LargestEnd(fs) <==> TileTheBlock(fs)
    ensures (forall f :: f in fs ==> ExtentEnd(f) <= SumOfWidths(fs)) <==> TileTheBlock(fs)
  {
    DisjointWidthsAddUp(fs);
    CoveredIsBelowLargestEnd(fs);
    SubsetOfEqualSize(Covered(fs), Range(0, LargestEnd(fs)));
    LargestEndIsLargest(fs, SumOfWidths(fs));
  }

  /** In a block of the computed size, fields that tile it lose no element, whatever the
      content; and if every field encodes up to its last element, a single gap makes the
      encoder skip one. */
  lemma GapsDropElements(foreign: Foreign, fs: seq<Field>, content: Content)
    requires PairwiseDisjoint(fs)
    ensures TileTheBlock(fs) ==> SkipsNothing(foreign, fs, content, SumOfWidths(fs))
    ensures (forall f :: f in fs ==> EncodesToItsEnd(foreign, f, content)) ==>
            (SkipsNothing(foreign, fs, content, SumOfWidths(fs)) <==> TileTheBlock(fs))
  {
    hide EncodesToItsEnd, SkipsNothing, TileTheBlock, ExtentEnd;
    var size := SumOfWidths(fs);
    ComputedSizeFitsExactlyTilings(fs);
    if TileTheBlock(fs) {
      FieldsInsideSkipNothing(foreign, fs, content, size);
    } else if (forall f :: f in fs ==> EncodesToItsEnd(foreign, f, content))
              && SkipsNothing(foreign, fs, content, size) {
      SkippingNothingMeansInside(foreign, fs, content, size);
    }
  }
}
