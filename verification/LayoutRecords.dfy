/**
 When the size alone decides about lowering, closed forms of some layouts, and layout records.
 */
module LayoutRecords {
  import opened Basics
  import opened Divisibility
  import opened AggregateLayout
  import opened LayoutTheorems
  import LayoutRules
  import opened LayoutPlacement

  // ----- when the size alone decides -----

  /** Somewhere in `m` an empty array has an element that is larger than the maximum. */
  ghost predicate HasOversizedEmpty(m: Model, pointerBytes: nat, maximum: int)
    requires WellFormed(m) && PowerOfTwo(pointerBytes)
  {
    match m
    case Scalar(_) => false
    case ArrayOf(element, count) =>
      || (count == Some(0) && Exact(element, pointerBytes).size > maximum)
      || HasOversizedEmpty(element, pointerBytes, maximum)
    case Struct(fields) => exists f :: f in fields && HasOversizedEmpty(f, pointerBytes, maximum)
    case Tuple(elements) => exists f :: f in elements && HasOversizedEmpty(f, pointerBytes, maximum)
    case OptionOf(payload) => HasOversizedEmpty(payload.value, pointerBytes, maximum)
    case ResultOf(ok, error) =>
      HasOversizedEmpty(ok.value, pointerBytes, maximum) || HasOversizedEmpty(error.value, pointerBytes, maximum)
    case Enum(variants) => exists v :: v in variants && v.Some? && HasOversizedEmpty(v.value, pointerBytes, maximum)
  }

  /** An oversized model that fits itself is an empty array or has an oversized part. */
  lemma OversizedPart(m: Model, pointerBytes: nat, maximum: int) returns (k: nat)
    requires WellFormed(m) && PowerOfTwo(pointerBytes)
    requires Oversized(m, pointerBytes, maximum) && Exact(m, pointerBytes).size <= maximum
    requires !(m.ArrayOf? && m.count == Some(0))
    ensures HasPart(m, k) && WellFormed(Part(m, k)) && Oversized(Part(m, k), pointerBytes, maximum) && Part(m, k) < m
  {
    match m
    case ArrayOf(_, _) => k := 0;
    case Struct(fields) =>
      var f :| f in fields && Oversized(f, pointerBytes, maximum);
      k :| k < |fields| && fields[k] == f;
    case Tuple(elements) =>
      var f :| f in elements && Oversized(f, pointerBytes, maximum);
      k :| k < |elements| && elements[k] == f;
    case OptionOf(_) => k := 1;
    case ResultOf(ok, _) => k := if Oversized(ok.value, pointerBytes, maximum) then 0 else 1;
    case Enum(variants) =>
      var v :| v in variants && v.Some? && Oversized(v.value, pointerBytes, maximum);
      k :| k < |variants| && variants[k] == v;
  }

  lemma EmptyInPart(m: Model, pointerBytes: nat, maximum: int, k: nat)
    requires WellFormed(m) && PowerOfTwo(pointerBytes) && HasPart(m, k) && WellFormed(Part(m, k))
    requires HasOversizedEmpty(Part(m, k), pointerBytes, maximum)
    ensures HasOversizedEmpty(m, pointerBytes, maximum)
  {
    match m
    case ArrayOf(_, _) =>
    case Struct(fields) => assert fields[k] in fields;
    case Tuple(elements) => assert elements[k] in elements;
    case OptionOf(_) =>
    case ResultOf(_, _) =>
    case Enum(variants) => assert variants[k] in variants;
  }

  /** What is oversized is too large itself or holds an empty array of something too large. */
  lemma {:induction false} OversizedHasCause(m: Model, pointerBytes: nat, maximum: int)
    requires WellFormed(m) && PowerOfTwo(pointerBytes) && Oversized(m, pointerBytes, maximum)
    ensures Exact(m, pointerBytes).size > maximum || HasOversizedEmpty(m, pointerBytes, maximum)
    decreases m
  {
    if Exact(m, pointerBytes).size <= maximum {
      if m.ArrayOf? && m.count == Some(0) {
        OversizedHasCause(m.element, pointerBytes, maximum);
      } else {
        var k := OversizedPart(m, pointerBytes, maximum);
        OversizedHasCause(Part(m, k), pointerBytes, maximum);
        PartFits(m, pointerBytes, k);
        EmptyInPart(m, pointerBytes, maximum, k);
      }
    }
  }

  lemma {:induction false} EmptyIsOversized(m: Model, pointerBytes: nat, maximum: int)
    requires WellFormed(m) && PowerOfTwo(pointerBytes) && HasOversizedEmpty(m, pointerBytes, maximum)
    ensures Oversized(m, pointerBytes, maximum)
    decreases m
  {
    match m
    case ArrayOf(element, _) =>
      if HasOversizedEmpty(element, pointerBytes, maximum) {
        EmptyIsOversized(element, pointerBytes, maximum);
      }
    case Struct(fields) =>
      var f :| f in fields && HasOversizedEmpty(f, pointerBytes, maximum);
      EmptyIsOversized(f, pointerBytes, maximum);
    case Tuple(elements) =>
      var f :| f in elements && HasOversizedEmpty(f, pointerBytes, maximum);
      EmptyIsOversized(f, pointerBytes, maximum);
    case OptionOf(payload) => EmptyIsOversized(payload.value, pointerBytes, maximum);
    case ResultOf(ok, error) =>
      if HasOversizedEmpty(ok.value, pointerBytes, maximum) {
        EmptyIsOversized(ok.value, pointerBytes, maximum);
      } else {
        EmptyIsOversized(error.value, pointerBytes, maximum);
      }
    case Enum(variants) =>
      var v :| v in variants && v.Some? && HasOversizedEmpty(v.value, pointerBytes, maximum);
      EmptyIsOversized(v.value, pointerBytes, maximum);
  }

  /** Lowering is required exactly for a size above the maximum or an empty array of something above it. */
  lemma LoweringRequiredIff(m: Model, pointerBytes: nat, maximum: int)
    requires WellFormed(m) && ValidTarget(pointerBytes, maximum)
    ensures Bounded(m, pointerBytes, maximum) == Err(LoweringRequired) <==>
            Exact(m, pointerBytes).size > maximum || HasOversizedEmpty(m, pointerBytes, maximum)
  {
    AcceptedIffFits(m, pointerBytes, maximum);
    if Oversized(m, pointerBytes, maximum) {
      OversizedHasCause(m, pointerBytes, maximum);
    } else if HasOversizedEmpty(m, pointerBytes, maximum) {
      EmptyIsOversized(m, pointerBytes, maximum);
    }
  }

  /** The size alone gives the verdict exactly when it is too large or no empty array hides something too large. */
  lemma SizeDecidesIff(m: Model, pointerBytes: nat, maximum: int)
    requires WellFormed(m) && ValidTarget(pointerBytes, maximum)
    ensures var tooLarge := Exact(m, pointerBytes).size > maximum;
            (Bounded(m, pointerBytes, maximum) == Err(LoweringRequired) <==> tooLarge) <==>
            (tooLarge || !HasOversizedEmpty(m, pointerBytes, maximum))
  {
    LoweringRequiredIff(m, pointerBytes, maximum);
  }

  ghost predicate NoEmptyArrays(m: Model) {
    match m
    case Scalar(_) => true
    case ArrayOf(element, count) => count != Some(0) && NoEmptyArrays(element)
    case Struct(fields) => forall f :: f in fields ==> NoEmptyArrays(f)
    case Tuple(elements) => forall f :: f in elements ==> NoEmptyArrays(f)
    case OptionOf(payload) => payload.Some? ==> NoEmptyArrays(payload.value)
    case ResultOf(ok, error) => (ok.Some? ==> NoEmptyArrays(ok.value)) && (error.Some? ==> NoEmptyArrays(error.value))
    case Enum(variants) => forall v :: v in variants && v.Some? ==> NoEmptyArrays(v.value)
    case UnsupportedKind => true
  }

  /** In particular, the size alone decides for every model without empty arrays. */
  lemma {:induction false} NoEmptyArraysHideNothing(m: Model, pointerBytes: nat, maximum: int)
    requires WellFormed(m) && PowerOfTwo(pointerBytes) && NoEmptyArrays(m)
    ensures !HasOversizedEmpty(m, pointerBytes, maximum)
    decreases m
  {
    match m
    case Scalar(_) =>
    case ArrayOf(element, _) => NoEmptyArraysHideNothing(element, pointerBytes, maximum);
    case Struct(fields) =>
      forall f | f in fields ensures !HasOversizedEmpty(f, pointerBytes, maximum) {
        NoEmptyArraysHideNothing(f, pointerBytes, maximum);
      }
    case Tuple(elements) =>
      forall f | f in elements ensures !HasOversizedEmpty(f, pointerBytes, maximum) {
        NoEmptyArraysHideNothing(f, pointerBytes, maximum);
      }
    case OptionOf(payload) => NoEmptyArraysHideNothing(payload.value, pointerBytes, maximum);
    case ResultOf(ok, error) =>
      NoEmptyArraysHideNothing(ok.value, pointerBytes, maximum);
      NoEmptyArraysHideNothing(error.value, pointerBytes, maximum);
    case Enum(variants) =>
      forall v | v in variants && v.Some? ensures !HasOversizedEmpty(v.value, pointerBytes, maximum) {
        NoEmptyArraysHideNothing(v.value, pointerBytes, maximum);
      }
  }

  /** Arrays of 4096 elements, nested `depth` times around a 64-bit integer. */
  function Nested(depth: nat): Model {
    if depth == 0 then Scalar("u64") else ArrayOf(Nested(depth - 1), Some(FIELD_LIMIT))
  }

  function NestedSize(depth: nat): nat {
    if depth == 0 then 8 else NestedSize(depth - 1) * FIELD_LIMIT
  }

  lemma {:induction false} NestedLayout(depth: nat, pointerBytes: nat)
    requires PowerOfTwo(pointerBytes)
    ensures WellFormed(Nested(depth)) && Exact(Nested(depth), pointerBytes).size == NestedSize(depth)
  {
    if depth == 0 {
    } else {
      NestedLayout(depth - 1, pointerBytes);
    }
  }

  lemma EmptyArrayMisleads(element: Model, pointerBytes: nat, maximum: int)
    requires WellFormed(element) && ValidTarget(pointerBytes, maximum) && Exact(element, pointerBytes).size > maximum
    ensures var m := ArrayOf(element, Some(0));
            && WellFormed(m) && Exact(m, pointerBytes).size == 0
            && Bounded(m, pointerBytes, maximum) == Err(LoweringRequired)
  {
    LoweringRequiredIff(ArrayOf(element, Some(0)), pointerBytes, maximum);
  }

  lemma RealTarget(pointerBytes: nat)
    requires pointerBytes == 8
    ensures ValidTarget(pointerBytes, MAXIMUM)
  {
    assert PowerOfTwo(1) && PowerOfTwo(2) && PowerOfTwo(4) && PowerOfTwo(8);
  }

  /** A real input: an empty array of six nested arrays is refused under 2^64-1 although its own size is zero. */
  lemma SizeCanMislead(pointerBytes: nat)
    requires pointerBytes == 8
    ensures var m := ArrayOf(Nested(6), Some(0));
            && PowerOfTwo(pointerBytes) && WellFormed(m) && Exact(m, pointerBytes).size == 0
            && Bounded(m, pointerBytes, MAXIMUM) == Err(LoweringRequired)
  {
    RealTarget(pointerBytes);
    NestedLayout(6, pointerBytes);
    NestedSizes();
    EmptyArrayMisleads(Nested(6), pointerBytes, MAXIMUM);
  }

  lemma NestedSizes()
    ensures NestedSize(6) > MAXIMUM
  {
    assert NestedSize(1) == 0x8000;
    assert NestedSize(2) == 0x800_0000;
    assert NestedSize(3) == 0x80_0000_0000;
    assert NestedSize(4) == 0x8_0000_0000_0000;
    assert NestedSize(5) == 0x8000_0000_0000_0000;
  }

  // ----- closed forms -----

  /** An option costs its payload's alignment on top of its payload's size. */
  lemma OptionClosedForm(payload: Model, pointerBytes: nat)
    requires WellFormed(payload) && PowerOfTwo(pointerBytes)
    ensures var p, l := Exact(payload, pointerBytes), Exact(OptionOf(Some(payload)), pointerBytes);
            && l.align == p.align
            && l.size == p.size + p.align
            && l.tag.Some? && l.tag.value.width == 1 && l.tag.value.payloadOffset == p.align
  {
    var variants := [None, Some(payload)];
    ExactVariantAt(variants, pointerBytes, 0);
    ExactVariantAt(variants, pointerBytes, 1);
    assert ExactVariants(variants, pointerBytes) == [Layout(0, 1, [], None), Exact(payload, pointerBytes)];
    UnitOrPayload(Exact(payload, pointerBytes));
    assert Exact(OptionOf(Some(payload)), pointerBytes) == ExactEnum(variants, pointerBytes);
  }

  lemma UnitOrPayload(p: Layout)
    requires Good(p)
    ensures var l := TaggedUnion(1, [Layout(0, 1, [], None), p]);
            l.align == p.align && l.tag.value.payloadOffset == p.align && l.size == p.size + p.align
  {
    UnitOrPayloadSealed(p);
    UnitOrPayloadSize(p);
  }

  lemma UnitOrPayloadSealed(p: Layout)
    requires Good(p)
    ensures var l := Sealed(1, [Layout(0, 1, [], None), p], p.align);
            && TaggedUnion(1, [Layout(0, 1, [], None), p]) == l
            && l.align == p.align && l.tag.value.payloadOffset == p.align
  {
    PairMaxima(Layout(0, 1, [], None), p);
    RoundUpFirst(p.align);
  }

  lemma UnitOrPayloadSize(p: Layout)
    requires Good(p)
    ensures Sealed(1, [Layout(0, 1, [], None), p], p.align).size == p.size + p.align
  {
    PairMaxima(Layout(0, 1, [], None), p);
    RoundUpSum(p.align, p.size);
    SealedSize(1, [Layout(0, 1, [], None), p], p.align, p.size, p.align, p.align + p.size);
  }

  lemma SealedSize(width: nat, payloads: seq<Layout>, payloadOffset: nat, size: nat, align: nat, r: nat)
    requires width > 0 && payloads != [] && MaxSize(payloads) == size && Max(width, MaxAlign(payloads)) == align
    requires RoundUp(payloadOffset + size, align) == r
    ensures Sealed(width, payloads, payloadOffset).size == r
  {
  }

  lemma PairMaxima(a: Layout, b: Layout)
    ensures MaxSize([a, b]) == Max(a.size, b.size) && MaxAlign([a, b]) == Max(a.align, b.align)
  {
    assert [a, b][..1] == [a];
    assert [a][..0] == [];
    assert MaxSize([a]) == a.size && MaxAlign([a]) == a.align;
  }

  lemma {:induction false} AlignmentAtMostEight(m: Model, pointerBytes: nat)
    requires WellFormed(m) && PowerOfTwo(pointerBytes) && pointerBytes <= 8
    ensures Exact(m, pointerBytes).align <= 8
    decreases Size(m), 1
  {
    match m
    case Scalar(_) =>
    case ArrayOf(element, _) => AlignmentAtMostEight(element, pointerBytes);
    case Struct(fields) => FieldAlignments(fields, pointerBytes);
    case Tuple(elements) => FieldAlignments(elements, pointerBytes);
    case OptionOf(payload) =>
      SizeVariantsPair(None, payload);
      EnumAlignment([None, payload], pointerBytes);
    case ResultOf(ok, error) =>
      SizeVariantsPair(ok, error);
      EnumAlignment([ok, error], pointerBytes);
    case Enum(variants) => EnumAlignment(variants, pointerBytes);
  }

  lemma EnumAlignment(variants: seq<Option<Model>>, pointerBytes: nat)
    requires 0 < |variants| <= FIELD_LIMIT && (forall v :: v in variants && v.Some? ==> WellFormed(v.value))
    requires PowerOfTwo(pointerBytes) && pointerBytes <= 8
    ensures ExactEnum(variants, pointerBytes).align <= 8
    decreases SizeVariants(variants), 2
  {
    VariantAlignments(variants, pointerBytes);
  }

  lemma {:induction false} FieldAlignments(fields: seq<Model>, pointerBytes: nat)
    requires (forall f :: f in fields ==> WellFormed(f)) && PowerOfTwo(pointerBytes) && pointerBytes <= 8
    ensures ExactFields(fields, pointerBytes).align <= 8
    decreases SizeAll(fields), 1
  {
    if fields == [] {
    } else {
      FieldAlignments(fields[..|fields| - 1], pointerBytes);
      AlignmentAtMostEight(fields[|fields| - 1], pointerBytes);
    }
  }

  lemma {:induction false} VariantAlignments(variants: seq<Option<Model>>, pointerBytes: nat)
    requires (forall v :: v in variants && v.Some? ==> WellFormed(v.value)) && PowerOfTwo(pointerBytes) &&
             pointerBytes <= 8
    ensures MaxAlign(ExactVariants(variants, pointerBytes)) <= 8
    decreases SizeVariants(variants), 1
  {
    if variants == [] {
    } else {
      var n := |variants| - 1;
      VariantAlignments(variants[..n], pointerBytes);
      if variants[n].Some? {
        assert SizeOption(variants[n]) == Size(variants[n].value);
        AlignmentAtMostEight(variants[n].value, pointerBytes);
      }
      assert ExactVariants(variants, pointerBytes)[..n] == ExactVariants(variants[..n], pointerBytes);
    }
  }

  // ----- layout records -----

  datatype Target = Target(triple: string, profile: string, byteOrder: string, pointerWidthBits: int)

  datatype Passing = DirectValue | IndirectPointer | CallerProvidedStorage

  datatype Record = Record(
    target: Target, layoutId: Option<string>, layout: Layout, argumentPassing: Passing, returnPassing: Passing)

  predicate Supported(t: Target) {
    && (t.triple, t.profile) in {("aarch64-apple-darwin", "aapcs64-v1"), ("x86_64-unknown-linux-gnu", "sysv64-v1")}
    && t.byteOrder == "little"
    && t.pointerWidthBits == 64
  }

  const MAXIMUM: int := 0xFFFF_FFFF_FFFF_FFFF

  datatype RecordResult = Recorded(record: Record) | UnsupportedTarget | Failed(error: Error)

  method ComputeLayoutRecord(target: Target, layoutId: Option<string>, m: Model) returns (r: RecordResult)
    ensures r.UnsupportedTarget? <==>
            !(|| target == Target("aarch64-apple-darwin", "aapcs64-v1", "little", 64)
              || target == Target("x86_64-unknown-linux-gnu", "sysv64-v1", "little", 64))
    ensures r.Recorded? <==>
            && !r.UnsupportedTarget? && WellFormed(m) && Exact(m, 8).size <= 0xFFFF_FFFF_FFFF_FFFF
            && !HasOversizedEmpty(m, 8, 0xFFFF_FFFF_FFFF_FFFF)
    ensures r.Failed? && r.error.Malformed? ==> LayoutRules.HasDefect(m, r.error.defect)
    ensures r.Recorded? ==> LayoutRules.IsLayout(m, 8, r.record.layout)
    ensures r.Recorded? ==>
              && r.record.target == target && r.record.layoutId == layoutId && r.record.layout == Exact(m, 8)
              && r.record.argumentPassing == (if Exact(m, 8).size <= 16 then DirectValue else IndirectPointer)
              && r.record.returnPassing == (if Exact(m, 8).size <= 16 then DirectValue else CallerProvidedStorage)
  {
    if !Supported(target) {
      return UnsupportedTarget;
    }
    var pointerBytes := target.pointerWidthBits / 8;
    RecordIff(m, pointerBytes);
    var layout := ComputeTypeLayout(m, pointerBytes, MAXIMUM);
    if layout.Err? {
      if layout.error.Malformed? {
        LayoutRules.ReportedDefect(m, pointerBytes, MAXIMUM, layout.error.defect);
      }
      return Failed(layout.error);
    }
    AlignmentAtMostEight(m, pointerBytes);
    LayoutRules.ExactIsLayout(m, pointerBytes);
    var l := layout.value;
    var direct := l.size <= pointerBytes * 2 && l.align <= pointerBytes;
    r := Recorded(Record(
      target, layoutId, l,
      if direct then DirectValue else IndirectPointer, if direct then DirectValue else CallerProvidedStorage));
  }

  lemma RecordIff(m: Model, pointerBytes: nat)
    requires pointerBytes == 8
    ensures PowerOfTwo(pointerBytes)
    ensures Bounded(m, pointerBytes, MAXIMUM).Ok? <==>
            WellFormed(m) && Exact(m, pointerBytes).size <= MAXIMUM && !HasOversizedEmpty(m, pointerBytes, MAXIMUM)
    ensures Bounded(m, pointerBytes, MAXIMUM).Ok? ==> Bounded(m, pointerBytes, MAXIMUM).value == Exact(m, pointerBytes)
  {
    RealTarget(pointerBytes);
    AcceptedIffFits(m, pointerBytes, MAXIMUM);
    if WellFormed(m) {
      LoweringRequiredIff(m, pointerBytes, MAXIMUM);
    }
  }
}
