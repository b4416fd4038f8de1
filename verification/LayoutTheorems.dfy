/**
 The layout over unbounded integers, and that the checker's bounded arithmetic is exact: an
 accepted layout equals it, and overflow is reported exactly when some needed size is too large.
 */
module LayoutTheorems {
  import opened Basics
  import opened Divisibility
  import opened AggregateLayout

  // ----- the unbounded layout -----

  /** Both target profiles satisfy this; scalars are never compared with the maximum. */
  ghost predicate ValidTarget(pointerBytes: nat, maximum: int) {
    PowerOfTwo(pointerBytes) && 8 <= maximum && pointerBytes <= maximum
  }

  ghost predicate WellFormed(m: Model) {
    match m
    case Scalar(name) => ScalarBytes(name, 1).Some?
    case ArrayOf(element, count) => WellFormed(element) && count.Some? && 0 <= count.value <= FIELD_LIMIT
    case Struct(fields) => 0 < |fields| <= FIELD_LIMIT && forall f :: f in fields ==> WellFormed(f)
    case Tuple(elements) => 0 < |elements| <= FIELD_LIMIT && forall f :: f in elements ==> WellFormed(f)
    case OptionOf(payload) => payload.Some? && WellFormed(payload.value)
    case ResultOf(ok, error) => ok.Some? && error.Some? && WellFormed(ok.value) && WellFormed(error.value)
    case Enum(variants) =>
      0 < |variants| <= FIELD_LIMIT && forall v :: v in variants && v.Some? ==> WellFormed(v.value)
    case UnsupportedKind => false
  }

  /** The alignment is a power of two that divides the size. */
  ghost predicate Good(l: Layout) {
    PowerOfTwo(l.align) && Divides(l.align, l.size)
  }

  ghost function Exact(m: Model, pointerBytes: nat): (l: Layout)
    requires WellFormed(m) && PowerOfTwo(pointerBytes)
    ensures Good(l)
    decreases Size(m), 1
  {
    match m
    case Scalar(name) =>
      assert PowerOfTwo(1) && PowerOfTwo(2) && PowerOfTwo(4) && PowerOfTwo(8);
      var bytes := ScalarBytes(name, pointerBytes).value;
      Layout(bytes, bytes, [], None)
    case ArrayOf(element, count) =>
      ExactArray(Exact(element, pointerBytes), count.value)
    case Struct(fields) => ExactRecord(fields, pointerBytes)
    case Tuple(elements) => ExactRecord(elements, pointerBytes)
    case OptionOf(payload) =>
      SizeVariantsPair(None, payload);
      ExactEnum([None, payload], pointerBytes)
    case ResultOf(ok, error) =>
      SizeVariantsPair(ok, error);
      ExactEnum([ok, error], pointerBytes)
    case Enum(variants) => ExactEnum(variants, pointerBytes)
  }

  /** The stride rounds the element size up, which changes nothing: it is a multiple already. */
  ghost function ExactArray(e: Layout, count: nat): (l: Layout)
    requires Good(e)
    ensures Good(l)
    ensures l == Layout(e.size * count, e.align, Strides(e.size, count), None)
  {
    RoundUpAligned(e.size, e.align);
    ProductDivides(e.align, e.size, count);
    var stride := RoundUp(e.size, e.align);
    Layout(stride * count, e.align, Strides(stride, count), None)
  }

  ghost function ExactRecord(fields: seq<Model>, pointerBytes: nat): (l: Layout)
    requires (forall f :: f in fields ==> WellFormed(f)) && PowerOfTwo(pointerBytes)
    ensures Good(l)
    decreases SizeAll(fields), 2
  {
    var p := ExactFields(fields, pointerBytes);
    RoundUpDivides(p.offset, p.align);
    Layout(RoundUp(p.offset, p.align), p.align, p.offsets, None)
  }

  ghost function ExactFields(fields: seq<Model>, pointerBytes: nat): (p: Placement)
    requires (forall f :: f in fields ==> WellFormed(f)) && PowerOfTwo(pointerBytes)
    ensures PowerOfTwo(p.align) && |p.offsets| == |fields|
    decreases SizeAll(fields), 1
  {
    if fields == [] then Placement(0, 1, [])
    else
      var p := ExactFields(fields[..|fields| - 1], pointerBytes);
      var l := Exact(fields[|fields| - 1], pointerBytes);
      Placed(p, l)
  }

  ghost function Placed(p: Placement, l: Layout): (r: Placement)
    requires l.align > 0
  {
    var offset := RoundUp(p.offset, l.align);
    Placement(offset + l.size, Max(p.align, l.align), p.offsets + [offset])
  }

  ghost function ExactVariant(variant: Option<Model>, pointerBytes: nat): (l: Layout)
    requires variant.Some? ==> WellFormed(variant.value)
    requires PowerOfTwo(pointerBytes)
    ensures Good(l)
    decreases SizeOption(variant), 2
  {
    match variant
    case None => Layout(0, 1, [], None)
    case Some(p) => Exact(p, pointerBytes)
  }

  ghost function ExactVariants(variants: seq<Option<Model>>, pointerBytes: nat): (ls: seq<Layout>)
    requires (forall v :: v in variants && v.Some? ==> WellFormed(v.value)) && PowerOfTwo(pointerBytes)
    ensures |ls| == |variants| && forall l :: l in ls ==> Good(l)
    decreases SizeVariants(variants), 1
  {
    if variants == [] then []
    else
      ExactVariants(variants[..|variants| - 1], pointerBytes) + [ExactVariant(variants[|variants| - 1], pointerBytes)]
  }

  ghost function ExactEnum(variants: seq<Option<Model>>, pointerBytes: nat): (l: Layout)
    requires 0 < |variants| <= FIELD_LIMIT && (forall v :: v in variants && v.Some? ==> WellFormed(v.value))
    requires PowerOfTwo(pointerBytes)
    ensures Good(l) && l.tag.Some? && l.tag.value.width in {1, 2}
    decreases SizeVariants(variants), 2
  {
    assert PowerOfTwo(1) && PowerOfTwo(2);
    TaggedUnion(TagWidth(|variants| - 1).value, ExactVariants(variants, pointerBytes))
  }

  lemma MaxAlignPower(payloads: seq<Layout>)
    requires payloads != [] && forall p :: p in payloads ==> Good(p)
    ensures PowerOfTwo(MaxAlign(payloads))
  {
    var _, j := MaximaAttained(payloads);
    assert payloads[j] in payloads;
  }

  /** A tag at offset zero, then every payload at one shared offset. */
  ghost function TaggedUnion(width: nat, payloads: seq<Layout>): (l: Layout)
    requires PowerOfTwo(width) && payloads != [] && forall p :: p in payloads ==> Good(p)
    ensures Good(l) && l.tag.Some? && l.tag.value.width == width
  {
    MaxAlignPower(payloads);
    Sealed(width, payloads, RoundUp(width, MaxAlign(payloads)))
  }

  ghost function Sealed(width: nat, payloads: seq<Layout>, payloadOffset: nat): (l: Layout)
    requires width > 0 && payloads != []
    ensures l.align == Max(width, MaxAlign(payloads)) && Divides(l.align, l.size) && l.tag.Some? &&
            l.tag.value.width == width
    ensures payloadOffset + MaxSize(payloads) <= l.size
  {
    var align := Max(width, MaxAlign(payloads));
    RoundUpDivides(payloadOffset + MaxSize(payloads), align);
    EnumLayout(width, payloads, payloadOffset, align, RoundUp(payloadOffset + MaxSize(payloads), align))
  }

  lemma {:induction false} ExactVariantAt(variants: seq<Option<Model>>, pointerBytes: nat, i: nat)
    requires (forall v :: v in variants && v.Some? ==> WellFormed(v.value)) && PowerOfTwo(pointerBytes)
    requires i < |variants|
    ensures ExactVariants(variants, pointerBytes)[i] == ExactVariant(variants[i], pointerBytes)
  {
    if i < |variants| - 1 {
      ExactVariantAt(variants[..|variants| - 1], pointerBytes, i);
    }
  }

  // ----- the bounded arithmetic is exact -----

  /** Some layout needed for `m` is larger than the maximum. */
  ghost predicate Oversized(m: Model, pointerBytes: nat, maximum: int)
    requires WellFormed(m) && PowerOfTwo(pointerBytes)
  {
    || Exact(m, pointerBytes).size > maximum
    || match m
       case Scalar(_) => false
       case ArrayOf(element, _) => Oversized(element, pointerBytes, maximum)
       case Struct(fields) => exists f :: f in fields && Oversized(f, pointerBytes, maximum)
       case Tuple(elements) => exists f :: f in elements && Oversized(f, pointerBytes, maximum)
       case OptionOf(payload) => Oversized(payload.value, pointerBytes, maximum)
       case ResultOf(ok, error) =>
         Oversized(ok.value, pointerBytes, maximum) || Oversized(error.value, pointerBytes, maximum)
       case Enum(variants) => exists v :: v in variants && v.Some? && Oversized(v.value, pointerBytes, maximum)
  }

  /** The verdict on a well-formed model. */
  ghost function Expected(m: Model, pointerBytes: nat, maximum: int): Result<Layout>
    requires WellFormed(m) && PowerOfTwo(pointerBytes)
  {
    if Oversized(m, pointerBytes, maximum) then Err(LoweringRequired) else Ok(Exact(m, pointerBytes))
  }

  lemma AlignUpExact(v: nat, a: nat, maximum: int)
    requires PowerOfTwo(a)
    ensures AlignUp(v, a, maximum) == if RoundUp(v, a) <= maximum then Ok(RoundUp(v, a)) else Err(LoweringRequired)
  {
    SingleBitIsPower(a);
  }

  lemma {:induction false} BoundedIsExpected(m: Model, pointerBytes: nat, maximum: int)
    requires WellFormed(m) && ValidTarget(pointerBytes, maximum)
    ensures Bounded(m, pointerBytes, maximum) == Expected(m, pointerBytes, maximum)
    decreases Size(m), 1
  {
    match m
    case Scalar(_) =>
    case ArrayOf(element, count) =>
      BoundedIsExpected(element, pointerBytes, maximum);
      ArrayExpected(element, count.value, pointerBytes, maximum);
    case Struct(fields) => RecordExact(fields, pointerBytes, maximum);
    case Tuple(elements) => RecordExact(elements, pointerBytes, maximum);
    case OptionOf(payload) =>
      SizeVariantsPair(None, payload);
      EnumExact([None, payload], pointerBytes, maximum);
      PairOversized(None, payload, pointerBytes, maximum);
    case ResultOf(ok, error) =>
      SizeVariantsPair(ok, error);
      EnumExact([ok, error], pointerBytes, maximum);
      PairOversized(ok, error, pointerBytes, maximum);
    case Enum(variants) => EnumExact(variants, pointerBytes, maximum);
  }

  lemma PairOversized(a: Option<Model>, b: Option<Model>, pointerBytes: nat, maximum: int)
    requires (a.Some? ==> WellFormed(a.value)) && (b.Some? ==> WellFormed(b.value)) && PowerOfTwo(pointerBytes)
    ensures VariantsOversized([a, b], pointerBytes, maximum) <==>
            (a.Some? && Oversized(a.value, pointerBytes, maximum)) ||
              (b.Some? && Oversized(b.value, pointerBytes, maximum))
  {
    assert a in [a, b] && b in [a, b];
  }

  lemma ArrayExpected(element: Model, count: nat, pointerBytes: nat, maximum: int)
    requires WellFormed(element) && ValidTarget(pointerBytes, maximum) && count <= FIELD_LIMIT
    requires Bounded(element, pointerBytes, maximum) == Expected(element, pointerBytes, maximum)
    ensures var m := ArrayOf(element, Some(count));
            Bounded(m, pointerBytes, maximum) == Expected(m, pointerBytes, maximum)
  {
    if !Oversized(element, pointerBytes, maximum) {
      ArrayExact(Exact(element, pointerBytes), count, maximum);
    }
  }

  lemma QuotientBound(stride: nat, count: nat, maximum: int)
    requires count > 0 && maximum >= 0
    ensures stride > maximum / count <==> stride * count > maximum
  {
    var q, r := maximum / count, maximum % count;
    assert maximum == q * count + r;
    if stride > q {
      assert stride * count >= (q + 1) * count;
    } else {
      assert stride * count <= q * count;
    }
  }

  lemma ArrayExact(e: Layout, count: nat, maximum: int)
    requires Good(e) && e.size <= maximum && count <= FIELD_LIMIT
    ensures AlignUp(e.size, e.align, maximum) == Ok(e.size)
    ensures BoundedArray(e.size, e.align, count, maximum) ==
            if ExactArray(e, count).size > maximum then Err(LoweringRequired) else Ok(ExactArray(e, count))
  {
    AlignUpExact(e.size, e.align, maximum);
    RoundUpAligned(e.size, e.align);
    if count > 0 {
      QuotientBound(e.size, count, maximum);
    }
  }

  ghost predicate FieldsOversized(fields: seq<Model>, pointerBytes: nat, maximum: int)
    requires (forall f :: f in fields ==> WellFormed(f)) && PowerOfTwo(pointerBytes)
  {
    || (exists f :: f in fields && Oversized(f, pointerBytes, maximum))
    || ExactFields(fields, pointerBytes).offset > maximum
  }

  lemma PlaceFieldExact(p: Placement, l: Layout, maximum: int)
    requires PowerOfTwo(l.align)
    ensures PlaceField(p, l, maximum) ==
            if Placed(p, l).offset > maximum then Err(LoweringRequired) else Ok(Placed(p, l))
    ensures p.offset <= Placed(p, l).offset && l.size <= Placed(p, l).offset
  {
    AlignUpExact(p.offset, l.align, maximum);
  }

  lemma FieldsOversizedStep(fields: seq<Model>, pointerBytes: nat, maximum: int)
    requires fields != [] && (forall f :: f in fields ==> WellFormed(f)) && PowerOfTwo(pointerBytes)
    ensures var front, last := fields[..|fields| - 1], fields[|fields| - 1];
            FieldsOversized(fields, pointerBytes, maximum) <==>
            FieldsOversized(front, pointerBytes, maximum) || Oversized(last, pointerBytes, maximum) ||
            ExactFields(fields, pointerBytes).offset > maximum
  {
    var front, last := fields[..|fields| - 1], fields[|fields| - 1];
    assert forall f :: f in fields <==> f in front || f == last;
    assert ExactFields(front, pointerBytes).offset <= ExactFields(fields, pointerBytes).offset;
  }

  lemma {:induction false} FieldsExact(fields: seq<Model>, pointerBytes: nat, maximum: int)
    requires (forall f :: f in fields ==> WellFormed(f)) && ValidTarget(pointerBytes, maximum)
    ensures BoundedFields(fields, pointerBytes, maximum) ==
            if FieldsOversized(fields, pointerBytes, maximum) then Err(LoweringRequired)
            else Ok(ExactFields(fields, pointerBytes))
    decreases SizeAll(fields), 1
  {
    if fields == [] {
    } else {
      var n := |fields| - 1;
      var front, last := fields[..n], fields[n];
      assert forall f :: f in fields <==> f in front || f == last;
      FieldsExact(front, pointerBytes, maximum);
      BoundedIsExpected(last, pointerBytes, maximum);
      PlaceFieldExact(ExactFields(front, pointerBytes), Exact(last, pointerBytes), maximum);
      FieldsOversizedStep(fields, pointerBytes, maximum);
    }
  }

  lemma RecordExact(fields: seq<Model>, pointerBytes: nat, maximum: int)
    requires 0 < |fields| <= FIELD_LIMIT && (forall f :: f in fields ==> WellFormed(f)) &&
             ValidTarget(pointerBytes, maximum)
    ensures BoundedRecord(fields, pointerBytes, maximum) ==
            if (exists f :: f in fields && Oversized(f, pointerBytes, maximum)) ||
              ExactRecord(fields, pointerBytes).size > maximum
            then Err(LoweringRequired) else Ok(ExactRecord(fields, pointerBytes))
    decreases SizeAll(fields), 2
  {
    FieldsExact(fields, pointerBytes, maximum);
    var p := ExactFields(fields, pointerBytes);
    AlignUpExact(p.offset, p.align, maximum);
  }

  ghost predicate VariantsOversized(variants: seq<Option<Model>>, pointerBytes: nat, maximum: int)
    requires (forall v :: v in variants && v.Some? ==> WellFormed(v.value)) && PowerOfTwo(pointerBytes)
  {
    exists v :: v in variants && v.Some? && Oversized(v.value, pointerBytes, maximum)
  }

  lemma {:induction false} VariantsExact(variants: seq<Option<Model>>, pointerBytes: nat, maximum: int)
    requires (forall v :: v in variants && v.Some? ==> WellFormed(v.value)) && ValidTarget(pointerBytes, maximum)
    ensures BoundedVariants(variants, pointerBytes, maximum) ==
            if VariantsOversized(variants, pointerBytes, maximum) then Err(LoweringRequired)
            else Ok(ExactVariants(variants, pointerBytes))
    decreases SizeVariants(variants), 1
  {
    if variants == [] {
    } else {
      var n := |variants| - 1;
      var front, last := variants[..n], variants[n];
      assert forall v :: v in variants <==> v in front || v == last;
      VariantsExact(front, pointerBytes, maximum);
      if last.Some? {
        assert SizeOption(last) == Size(last.value);
        BoundedIsExpected(last.value, pointerBytes, maximum);
      }
    }
  }

  lemma EnumExact(variants: seq<Option<Model>>, pointerBytes: nat, maximum: int)
    requires 0 < |variants| <= FIELD_LIMIT && (forall v :: v in variants && v.Some? ==> WellFormed(v.value))
    requires ValidTarget(pointerBytes, maximum)
    ensures Bounded(Enum(variants), pointerBytes, maximum) ==
            if VariantsOversized(variants, pointerBytes, maximum) || ExactEnum(variants, pointerBytes).size > maximum
            then Err(LoweringRequired) else Ok(ExactEnum(variants, pointerBytes))
    decreases SizeVariants(variants), 2
  {
    VariantsExact(variants, pointerBytes, maximum);
    EnumSteps(variants, pointerBytes, maximum);
    EnumFits(variants, pointerBytes, maximum);
  }

  /** The tag width never fails, so an enum fails only through a variant or the union. */
  lemma EnumSteps(variants: seq<Option<Model>>, pointerBytes: nat, maximum: int)
    requires 0 < |variants| <= FIELD_LIMIT
    ensures TagWidth(|variants| - 1).Ok?
    ensures var payloads := BoundedVariants(variants, pointerBytes, maximum);
            Bounded(Enum(variants), pointerBytes, maximum) ==
            if payloads.Err? then Err(payloads.error)
            else BoundedEnum(TagWidth(|variants| - 1).value, payloads.value, maximum)
  {
  }

  lemma EnumFits(variants: seq<Option<Model>>, pointerBytes: nat, maximum: int)
    requires 0 < |variants| <= FIELD_LIMIT && (forall v :: v in variants && v.Some? ==> WellFormed(v.value))
    requires PowerOfTwo(pointerBytes)
    ensures var l := ExactEnum(variants, pointerBytes);
            BoundedEnum(TagWidth(|variants| - 1).value, ExactVariants(variants, pointerBytes), maximum) ==
            if l.size > maximum then Err(LoweringRequired) else Ok(l)
  {
    assert PowerOfTwo(1) && PowerOfTwo(2);
    TaggedUnionExact(TagWidth(|variants| - 1).value, ExactVariants(variants, pointerBytes), maximum);
  }

  lemma SealedExact(width: nat, payloads: seq<Layout>, payloadOffset: nat, maximum: int)
    requires payloads != [] && PowerOfTwo(Max(width, MaxAlign(payloads))) && width > 0
    ensures SealEnum(width, payloads, payloadOffset, maximum) ==
            if Sealed(width, payloads, payloadOffset).size > maximum then Err(LoweringRequired)
            else Ok(Sealed(width, payloads, payloadOffset))
  {
    AlignUpExact(payloadOffset + MaxSize(payloads), Max(width, MaxAlign(payloads)), maximum);
  }

  lemma TaggedUnionExact(width: nat, payloads: seq<Layout>, maximum: int)
    requires PowerOfTwo(width) && payloads != [] && forall p :: p in payloads ==> Good(p)
    ensures BoundedEnum(width, payloads, maximum) ==
            if TaggedUnion(width, payloads).size > maximum then Err(LoweringRequired)
              else Ok(TaggedUnion(width, payloads))
  {
    MaxAlignPower(payloads);
    UnionExact(width, payloads, maximum);
  }

  lemma UnionExact(width: nat, payloads: seq<Layout>, maximum: int)
    requires PowerOfTwo(width) && payloads != [] && PowerOfTwo(MaxAlign(payloads))
    ensures var l := Sealed(width, payloads, RoundUp(width, MaxAlign(payloads)));
            BoundedEnum(width, payloads, maximum) == if l.size > maximum then Err(LoweringRequired) else Ok(l)
  {
    var offset := RoundUp(width, MaxAlign(payloads));
    AlignUpExact(width, MaxAlign(payloads), maximum);
    BoundedEnumSteps(width, payloads, offset, maximum);
    SealedExact(width, payloads, offset, maximum);
  }

  lemma BoundedEnumSteps(width: nat, payloads: seq<Layout>, offset: nat, maximum: int)
    requires payloads != []
    requires AlignUp(width, MaxAlign(payloads), maximum) ==
             if offset <= maximum then Ok(offset) else Err(LoweringRequired)
    ensures BoundedEnum(width, payloads, maximum) ==
            if offset + MaxSize(payloads) > maximum then Err(LoweringRequired)
            else SealEnum(width, payloads, offset, maximum)
  {
  }

  // ----- exactly which models are accepted -----

  lemma {:induction false} AcceptedIsWellFormed(m: Model, pointerBytes: nat, maximum: int)
    requires Bounded(m, pointerBytes, maximum).Ok?
    ensures WellFormed(m)
    decreases Size(m), 1
  {
    match m
    case Scalar(_) =>
    case ArrayOf(element, _) => AcceptedIsWellFormed(element, pointerBytes, maximum);
    case Struct(fields) => AcceptedFields(fields, pointerBytes, maximum);
    case Tuple(elements) => AcceptedFields(elements, pointerBytes, maximum);
    case OptionOf(payload) =>
      SizeVariantsPair(None, payload);
      AcceptedVariants([None, payload], pointerBytes, maximum);
      assert payload in [None, payload];
    case ResultOf(ok, error) =>
      SizeVariantsPair(ok, error);
      AcceptedVariants([ok, error], pointerBytes, maximum);
      assert ok in [ok, error] && error in [ok, error];
    case Enum(variants) => AcceptedVariants(variants, pointerBytes, maximum);
  }

  lemma {:induction false} AcceptedFields(fields: seq<Model>, pointerBytes: nat, maximum: int)
    requires BoundedFields(fields, pointerBytes, maximum).Ok?
    ensures forall f :: f in fields ==> WellFormed(f)
    decreases SizeAll(fields), 1
  {
    if fields == [] {
    } else {
      var n := |fields| - 1;
      AcceptedFields(fields[..n], pointerBytes, maximum);
      AcceptedIsWellFormed(fields[n], pointerBytes, maximum);
      assert forall f :: f in fields <==> f in fields[..n] || f == fields[n];
    }
  }

  lemma {:induction false} AcceptedVariants(variants: seq<Option<Model>>, pointerBytes: nat, maximum: int)
    requires BoundedVariants(variants, pointerBytes, maximum).Ok?
    ensures forall v :: v in variants && v.Some? ==> WellFormed(v.value)
    decreases SizeVariants(variants), 1
  {
    if variants == [] {
    } else {
      var n := |variants| - 1;
      AcceptedVariants(variants[..n], pointerBytes, maximum);
      if variants[n].Some? {
        assert SizeOption(variants[n]) == Size(variants[n].value);
        AcceptedIsWellFormed(variants[n].value, pointerBytes, maximum);
      }
      assert forall v :: v in variants <==> v in variants[..n] || v == variants[n];
    }
  }

  /** Accepted means well formed and nowhere oversized, and then the layout is the unbounded one. */
  lemma AcceptedIffFits(m: Model, pointerBytes: nat, maximum: int)
    requires ValidTarget(pointerBytes, maximum)
    ensures Bounded(m, pointerBytes, maximum).Ok? <==> WellFormed(m) && !Oversized(m, pointerBytes, maximum)
    ensures Bounded(m, pointerBytes, maximum).Ok? ==> Bounded(m, pointerBytes, maximum).value == Exact(m, pointerBytes)
    ensures WellFormed(m) ==>
              (Bounded(m, pointerBytes, maximum) == Err(LoweringRequired) <==> Oversized(m, pointerBytes, maximum))
  {
    if WellFormed(m) {
      BoundedIsExpected(m, pointerBytes, maximum);
    }
    if Bounded(m, pointerBytes, maximum).Ok? {
      AcceptedIsWellFormed(m, pointerBytes, maximum);
    }
  }
}
