/**
 Where the parts of an aggregate lie: at every depth they are aligned, inside their parent and
 apart from each other, and tags lie before payloads.
 */
module LayoutPlacement {
  import opened Basics
  import opened Divisibility
  import opened AggregateLayout
  import opened LayoutTheorems

  // ----- placement of the direct parts -----

  lemma {:induction false} PowersDivide(a: int, b: int)
    requires PowerOfTwo(a) && PowerOfTwo(b) && a <= b
    ensures Divides(a, b)
  {
    if a == 1 {
      OneDivides(b);
    } else {
      PowersDivide(a / 2, b / 2);
      DoubleDivides(a / 2, b / 2);
    }
  }

  lemma LastPlaced(p: Placement, l: Layout)
    requires l.align > 0
    ensures var r := Placed(p, l);
            && |r.offsets| == |p.offsets| + 1
            && r.offsets[..|p.offsets|] == p.offsets
            && r.offsets[|p.offsets|] == RoundUp(p.offset, l.align)
            && r.offset == r.offsets[|p.offsets|] + l.size
            && p.offset <= r.offset && p.align <= r.align && l.align <= r.align
            && Divides(l.align, r.offsets[|p.offsets|])
  {
    RoundUpDivides(p.offset, l.align);
  }

  ghost predicate Positive(layouts: seq<Layout>) {
    forall i :: 0 <= i < |layouts| ==> layouts[i].align > 0
  }

  /** The same placement, from the layouts of the fields alone. */
  ghost function PlaceAll(layouts: seq<Layout>): (p: Placement)
    requires Positive(layouts)
    ensures |p.offsets| == |layouts|
  {
    if layouts == [] then Placement(0, 1, [])
    else Placed(PlaceAll(layouts[..|layouts| - 1]), layouts[|layouts| - 1])
  }

  ghost function LayoutsOf(fields: seq<Model>, pointerBytes: nat): (layouts: seq<Layout>)
    requires (forall f :: f in fields ==> WellFormed(f)) && PowerOfTwo(pointerBytes)
    ensures Positive(layouts)
  {
    seq(|fields|, i requires 0 <= i < |fields| => Exact(fields[i], pointerBytes))
  }

  lemma LayoutsPrefix(fields: seq<Model>, pointerBytes: nat, i: nat)
    requires (forall f :: f in fields ==> WellFormed(f)) && PowerOfTwo(pointerBytes) && i <= |fields|
    ensures LayoutsOf(fields[..i], pointerBytes) == LayoutsOf(fields, pointerBytes)[..i]
  {
  }

  lemma {:induction false} FieldsArePlaced(fields: seq<Model>, pointerBytes: nat)
    requires (forall f :: f in fields ==> WellFormed(f)) && PowerOfTwo(pointerBytes)
    ensures ExactFields(fields, pointerBytes) == PlaceAll(LayoutsOf(fields, pointerBytes))
  {
    if fields == [] {
    } else {
      var n := |fields| - 1;
      FieldsArePlaced(fields[..n], pointerBytes);
      LayoutsPrefix(fields, pointerBytes, n);
    }
  }

  lemma {:induction false} PlacedFits(layouts: seq<Layout>, i: nat)
    requires Positive(layouts) && i < |layouts|
    ensures var p, l := PlaceAll(layouts), layouts[i];
            Divides(l.align, p.offsets[i]) && p.offsets[i] + l.size <= p.offset && l.align <= p.align
  {
    var n := |layouts| - 1;
    LastPlaced(PlaceAll(layouts[..n]), layouts[n]);
    if i < n {
      PlacedFits(layouts[..n], i);
    }
  }

  lemma {:induction false} PlacedApart(layouts: seq<Layout>, i: nat, j: nat)
    requires Positive(layouts) && i < j < |layouts|
    ensures PlaceAll(layouts).offsets[i] + layouts[i].size <= PlaceAll(layouts).offsets[j]
  {
    var n := |layouts| - 1;
    if j < n {
      PlacedApart(layouts[..n], i, j);
    } else {
      PlacedFits(layouts[..n], i);
    }
  }

  lemma {:induction false} PlacedPrefix(layouts: seq<Layout>, i: nat)
    requires Positive(layouts) && i < |layouts|
    ensures PlaceAll(layouts).offsets[i] == PlaceAll(layouts[..i + 1]).offsets[i]
  {
    var n := |layouts| - 1;
    if i == n {
      assert layouts[..i + 1] == layouts;
    } else {
      PlacedPrefix(layouts[..n], i);
      assert layouts[..n][..i + 1] == layouts[..i + 1];
    }
  }

  lemma PlacedTight(layouts: seq<Layout>, i: nat)
    requires Positive(layouts) && i < |layouts|
    ensures PlaceAll(layouts).offsets[i] == RoundUp(PlaceAll(layouts[..i]).offset, layouts[i].align)
    ensures PlaceAll(layouts[..i + 1]).offset == PlaceAll(layouts).offsets[i] + layouts[i].size
  {
    PlacedPrefix(layouts, i);
    PlaceAllSnoc(layouts, i);
  }

  lemma PlaceAllSnoc(layouts: seq<Layout>, i: nat)
    requires Positive(layouts) && i < |layouts|
    ensures PlaceAll(layouts[..i + 1]) == Placed(PlaceAll(layouts[..i]), layouts[i])
  {
    assert layouts[..i + 1][..i] == layouts[..i];
  }

  /** Field `i` is aligned, inside the record and no more aligned than the record. */
  lemma FieldPlaced(fields: seq<Model>, pointerBytes: nat, i: nat)
    requires (forall f :: f in fields ==> WellFormed(f)) && PowerOfTwo(pointerBytes) && i < |fields|
    ensures var p, l := ExactFields(fields, pointerBytes), Exact(fields[i], pointerBytes);
            Divides(l.align, p.offsets[i]) && p.offsets[i] + l.size <= p.offset && l.align <= p.align
  {
    FieldsArePlaced(fields, pointerBytes);
    PlacedFits(LayoutsOf(fields, pointerBytes), i);
  }

  /** Nothing is wasted: a field starts at the first aligned offset after the fields before it. */
  lemma FieldTight(fields: seq<Model>, pointerBytes: nat, i: nat)
    requires (forall f :: f in fields ==> WellFormed(f)) && PowerOfTwo(pointerBytes) && i < |fields|
    ensures var p, l := ExactFields(fields, pointerBytes), Exact(fields[i], pointerBytes);
            && p.offsets[i] == RoundUp(ExactFields(fields[..i], pointerBytes).offset, l.align)
            && ExactFields(fields[..i + 1], pointerBytes).offset == p.offsets[i] + l.size
  {
    var layouts := LayoutsOf(fields, pointerBytes);
    FieldsArePlaced(fields, pointerBytes);
    FieldsArePlaced(fields[..i], pointerBytes);
    FieldsArePlaced(fields[..i + 1], pointerBytes);
    LayoutsPrefix(fields, pointerBytes, i);
    LayoutsPrefix(fields, pointerBytes, i + 1);
    PlacedTight(layouts, i);
  }

  lemma FieldsApart(fields: seq<Model>, pointerBytes: nat, i: nat, j: nat)
    requires (forall f :: f in fields ==> WellFormed(f)) && PowerOfTwo(pointerBytes) && i < j < |fields|
    ensures var offsets := ExactFields(fields, pointerBytes).offsets;
            offsets[i] + Exact(fields[i], pointerBytes).size <= offsets[j]
  {
    FieldsArePlaced(fields, pointerBytes);
    PlacedApart(LayoutsOf(fields, pointerBytes), i, j);
  }

  // ----- parts at any depth -----

  /** The parts of a model: array elements, fields, or the payload of one variant. */
  ghost predicate HasPart(m: Model, k: nat) {
    match m
    case Scalar(_) => false
    case ArrayOf(_, count) => count.Some? && k < count.value
    case Struct(fields) => k < |fields|
    case Tuple(elements) => k < |elements|
    case OptionOf(payload) => k == 1 && payload.Some?
    case ResultOf(ok, error) => if k == 0 then ok.Some? else k == 1 && error.Some?
    case Enum(variants) => k < |variants| && variants[k].Some?
    case UnsupportedKind => false
  }

  ghost function Part(m: Model, k: nat): Model
    requires HasPart(m, k)
  {
    match m
    case ArrayOf(element, _) => element
    case Struct(fields) => fields[k]
    case Tuple(elements) => elements[k]
    case OptionOf(payload) => payload.value
    case ResultOf(ok, error) => if k == 0 then ok.value else error.value
    case Enum(variants) => variants[k].value
  }

  /** Array elements and fields exist side by side; variants share one place. */
  predicate SideBySide(m: Model) {
    m.ArrayOf? || m.Struct? || m.Tuple?
  }

  ghost function PartOffset(m: Model, pointerBytes: nat, k: nat): nat
    requires WellFormed(m) && PowerOfTwo(pointerBytes) && HasPart(m, k)
  {
    match m
    case ArrayOf(element, count) => ExactArray(Exact(element, pointerBytes), count.value).offsets[k]
    case Struct(fields) => ExactRecord(fields, pointerBytes).offsets[k]
    case Tuple(elements) => ExactRecord(elements, pointerBytes).offsets[k]
    case OptionOf(_) => Exact(m, pointerBytes).tag.value.payloadOffset
    case ResultOf(_, _) => Exact(m, pointerBytes).tag.value.payloadOffset
    case Enum(_) => Exact(m, pointerBytes).tag.value.payloadOffset
  }

  /** Where the parts are is what the layout reports. */
  lemma PartOffsetReported(m: Model, pointerBytes: nat, k: nat)
    requires WellFormed(m) && PowerOfTwo(pointerBytes) && HasPart(m, k)
    ensures var l := Exact(m, pointerBytes);
            if SideBySide(m) then k < |l.offsets| && PartOffset(m, pointerBytes, k) == l.offsets[k]
            else l.tag.Some? && PartOffset(m, pointerBytes, k) == l.tag.value.payloadOffset
  {
    match m
    case ArrayOf(element, count) =>
    case Struct(fields) =>
    case Tuple(elements) =>
    case _ =>
  }

  lemma PartWellFormed(m: Model, k: nat)
    requires WellFormed(m) && HasPart(m, k)
    ensures WellFormed(Part(m, k))
  {
    match m
    case Struct(fields) => assert fields[k] in fields;
    case Tuple(elements) => assert elements[k] in elements;
    case Enum(variants) => assert variants[k] in variants;
    case _ =>
  }

  /** Layout `inner` placed at `offset` fits inside `outer` and is aligned there. */
  ghost predicate Nests(outer: Layout, offset: nat, inner: Layout) {
    && inner.align > 0 && outer.align > 0
    && Divides(inner.align, offset)
    && offset + inner.size <= outer.size
    && Divides(inner.align, outer.align)
  }

  lemma RecordPartFits(fields: seq<Model>, pointerBytes: nat, k: nat)
    requires (forall f :: f in fields ==> WellFormed(f)) && PowerOfTwo(pointerBytes) && k < |fields|
    ensures var l := ExactRecord(fields, pointerBytes);
            Nests(l, l.offsets[k], Exact(fields[k], pointerBytes))
  {
    FieldPlaced(fields, pointerBytes, k);
    PowersDivide(Exact(fields[k], pointerBytes).align, ExactFields(fields, pointerBytes).align);
  }

  lemma ArrayPartFits(e: Layout, count: nat, k: nat)
    requires Good(e) && k < count
    ensures Nests(ExactArray(e, count), ExactArray(e, count).offsets[k], e)
  {
    ProductDivides(e.align, e.size, k);
    ProductOrder(e.size, k, count);
  }

  /** Every payload is aligned at the shared offset, past the tag and inside the whole. */
  lemma PayloadFits(width: nat, payloads: seq<Layout>, k: nat)
    requires PowerOfTwo(width) && payloads != [] && (forall p :: p in payloads ==> Good(p)) && k < |payloads|
    ensures var l := TaggedUnion(width, payloads);
            && l.tag.Some?
            && width <= l.tag.value.payloadOffset
            && Nests(l, l.tag.value.payloadOffset, payloads[k])
            && |l.tag.value.variantOffsets| == |payloads|
            && l.tag.value.variantOffsets[k] == Shift(payloads[k].offsets, l.tag.value.payloadOffset)
  {
    MaxAlignPower(payloads);
    var l, p, a := TaggedUnion(width, payloads), payloads[k], MaxAlign(payloads);
    assert p in payloads;
    PowersDivide(p.align, a);
    RoundUpDivides(width, a);
    DividesTransitive(p.align, a, RoundUp(width, a));
    PowersDivide(p.align, l.align);
  }

  lemma PartFits(m: Model, pointerBytes: nat, k: nat)
    requires WellFormed(m) && PowerOfTwo(pointerBytes) && HasPart(m, k)
    ensures WellFormed(Part(m, k))
    ensures Nests(Exact(m, pointerBytes), PartOffset(m, pointerBytes, k), Exact(Part(m, k), pointerBytes))
    ensures !SideBySide(m) ==> Exact(m, pointerBytes).tag.value.width <= PartOffset(m, pointerBytes, k)
  {
    PartWellFormed(m, k);
    match m
    case ArrayOf(element, count) => ArrayPartFits(Exact(element, pointerBytes), count.value, k);
    case Struct(fields) => RecordPartFits(fields, pointerBytes, k);
    case Tuple(elements) => RecordPartFits(elements, pointerBytes, k);
    case OptionOf(payload) => VariantFits([None, payload], pointerBytes, k);
    case ResultOf(ok, error) => VariantFits([ok, error], pointerBytes, k);
    case Enum(variants) => VariantFits(variants, pointerBytes, k);
  }

  lemma VariantFits(variants: seq<Option<Model>>, pointerBytes: nat, k: nat)
    requires 0 < |variants| <= FIELD_LIMIT && (forall v :: v in variants && v.Some? ==> WellFormed(v.value))
    requires PowerOfTwo(pointerBytes) && k < |variants| && variants[k].Some?
    ensures WellFormed(variants[k].value)
    ensures var l := ExactEnum(variants, pointerBytes);
            && l.tag.value.width <= l.tag.value.payloadOffset
            && Nests(l, l.tag.value.payloadOffset, Exact(variants[k].value, pointerBytes))
  {
    assert PowerOfTwo(1) && PowerOfTwo(2);
    assert variants[k] in variants;
    ExactVariantAt(variants, pointerBytes, k);
    PayloadFits(TagWidth(|variants| - 1).value, ExactVariants(variants, pointerBytes), k);
  }

  lemma ProductOrder(size: nat, i: nat, j: nat)
    requires i < j
    ensures size * i + size <= size * j
  {
    assert size * i + size == size * (i + 1);
  }

  lemma PartsApart(m: Model, pointerBytes: nat, i: nat, j: nat)
    requires WellFormed(m) && PowerOfTwo(pointerBytes) && SideBySide(m) && i < j && HasPart(m, i) && HasPart(m, j)
    ensures WellFormed(Part(m, i))
    ensures PartOffset(m, pointerBytes, i) + Exact(Part(m, i), pointerBytes).size <= PartOffset(m, pointerBytes, j)
  {
    PartWellFormed(m, i);
    match m
    case ArrayOf(element, _) =>
      ProductOrder(Exact(element, pointerBytes).size, i, j);
    case Struct(fields) => FieldsApart(fields, pointerBytes, i, j);
    case Tuple(elements) => FieldsApart(elements, pointerBytes, i, j);
  }

  ghost predicate IsPath(m: Model, path: seq<nat>)
    decreases |path|
  {
    path == [] || (HasPart(m, path[0]) && IsPath(Part(m, path[0]), path[1..]))
  }

  ghost function At(m: Model, path: seq<nat>): Model
    requires IsPath(m, path)
    decreases |path|
  {
    if path == [] then m else At(Part(m, path[0]), path[1..])
  }

  lemma {:induction false} AtWellFormed(m: Model, path: seq<nat>)
    requires WellFormed(m) && IsPath(m, path)
    ensures WellFormed(At(m, path))
    decreases |path|
  {
    if path == [] {
    } else {
      PartWellFormed(m, path[0]);
      AtWellFormed(Part(m, path[0]), path[1..]);
    }
  }

  /** The distance from the start of `m` to the part at `path`. */
  ghost function OffsetAt(m: Model, pointerBytes: nat, path: seq<nat>): nat
    requires WellFormed(m) && PowerOfTwo(pointerBytes) && IsPath(m, path)
    decreases |path|
  {
    if path == [] then 0
    else
      PartWellFormed(m, path[0]);
      PartOffset(m, pointerBytes, path[0]) + OffsetAt(Part(m, path[0]), pointerBytes, path[1..])
  }

  lemma NestsTransitive(a: Layout, b: Layout, c: Layout, x: nat, y: nat)
    requires Nests(a, x, b) && Nests(b, y, c)
    ensures Nests(a, x + y, c)
  {
    DividesTransitive(c.align, b.align, x);
    SumDivides(c.align, x, y);
    DividesTransitive(c.align, b.align, a.align);
  }

  /** A part at any depth is aligned from the start of the whole and lies inside it. */
  lemma {:induction false} DeepPartFits(m: Model, pointerBytes: nat, path: seq<nat>)
    requires WellFormed(m) && PowerOfTwo(pointerBytes) && IsPath(m, path)
    ensures WellFormed(At(m, path))
    ensures Nests(Exact(m, pointerBytes), OffsetAt(m, pointerBytes, path), Exact(At(m, path), pointerBytes))
    decreases |path|
  {
    AtWellFormed(m, path);
    if path == [] {
    } else {
      var part, rest := Part(m, path[0]), path[1..];
      PartFits(m, pointerBytes, path[0]);
      DeepPartFits(part, pointerBytes, rest);
      assert At(m, path) == At(part, rest);
      NestsTransitive(
        Exact(m, pointerBytes), Exact(part, pointerBytes), Exact(At(part, rest), pointerBytes),
        PartOffset(m, pointerBytes, path[0]), OffsetAt(part, pointerBytes, rest));
    }
  }

  lemma DeepPartAligned(m: Model, pointerBytes: nat, path: seq<nat>)
    requires WellFormed(m) && PowerOfTwo(pointerBytes) && IsPath(m, path)
    ensures WellFormed(At(m, path))
    ensures OffsetAt(m, pointerBytes, path) % Exact(At(m, path), pointerBytes).align == 0
  {
    DeepPartFits(m, pointerBytes, path);
    DividesMeans(Exact(At(m, path), pointerBytes).align, OffsetAt(m, pointerBytes, path));
  }

  /** The paths part ways at different elements or fields of one aggregate, the first going to the earlier one. */
  ghost predicate Diverge(m: Model, p: seq<nat>, q: seq<nat>)
    requires IsPath(m, p) && IsPath(m, q)
    decreases |p|
  {
    p != [] && q != [] &&
    if p[0] == q[0] then Diverge(Part(m, p[0]), p[1..], q[1..]) else SideBySide(m) && p[0] < q[0]
  }

  /** Parts at any depth that do not belong to different variants of one value never overlap. */
  lemma {:induction false} DeepPartsApart(m: Model, pointerBytes: nat, p: seq<nat>, q: seq<nat>)
    requires WellFormed(m) && PowerOfTwo(pointerBytes) && IsPath(m, p) && IsPath(m, q) && Diverge(m, p, q)
    ensures WellFormed(At(m, p))
    ensures OffsetAt(m, pointerBytes, p) + Exact(At(m, p), pointerBytes).size <= OffsetAt(m, pointerBytes, q)
    decreases |p|
  {
    AtWellFormed(m, p);
    PartWellFormed(m, p[0]);
    if p[0] == q[0] {
      DeepPartsApart(Part(m, p[0]), pointerBytes, p[1..], q[1..]);
    } else {
      PartsApart(m, pointerBytes, p[0], q[0]);
      DeepPartFits(Part(m, p[0]), pointerBytes, p[1..]);
    }
  }

  lemma {:induction false} PathCompose(m: Model, p: seq<nat>, q: seq<nat>)
    requires IsPath(m, p) && IsPath(At(m, p), q)
    ensures IsPath(m, p + q) && At(m, p + q) == At(At(m, p), q)
    decreases |p|
  {
    if p == [] {
      assert p + q == q;
    } else {
      PathCompose(Part(m, p[0]), p[1..], q);
      assert (p + q)[1..] == p[1..] + q;
    }
  }

  lemma OffsetUnfolds(m: Model, pointerBytes: nat, path: seq<nat>)
    requires WellFormed(m) && PowerOfTwo(pointerBytes) && IsPath(m, path) && path != []
    ensures WellFormed(Part(m, path[0]))
    ensures OffsetAt(m, pointerBytes, path) ==
            PartOffset(m, pointerBytes, path[0]) + OffsetAt(Part(m, path[0]), pointerBytes, path[1..])
  {
    PartWellFormed(m, path[0]);
  }

  lemma OffsetCompose(m: Model, pointerBytes: nat, p: seq<nat>, q: seq<nat>)
    requires WellFormed(m) && PowerOfTwo(pointerBytes) && IsPath(m, p) && IsPath(At(m, p), q)
    ensures IsPath(m, p + q) && At(m, p + q) == At(At(m, p), q)
    ensures WellFormed(At(m, p))
    ensures OffsetAt(m, pointerBytes, p + q) == OffsetAt(m, pointerBytes, p) + OffsetAt(At(m, p), pointerBytes, q)
  {
    AtWellFormed(m, p);
    PathCompose(m, p, q);
    OffsetsAdd(m, pointerBytes, p, q);
  }

  lemma {:induction false} OffsetsAdd(m: Model, pointerBytes: nat, p: seq<nat>, q: seq<nat>)
    requires WellFormed(m) && PowerOfTwo(pointerBytes) && IsPath(m, p) && IsPath(At(m, p), q) && IsPath(m, p + q)
    requires WellFormed(At(m, p))
    ensures OffsetAt(m, pointerBytes, p + q) == OffsetAt(m, pointerBytes, p) + OffsetAt(At(m, p), pointerBytes, q)
    decreases |p|
  {
    if p == [] {
      assert p + q == q;
    } else {
      assert (p + q)[1..] == p[1..] + q && (p + q)[0] == p[0];
      OffsetUnfolds(m, pointerBytes, p);
      OffsetUnfolds(m, pointerBytes, p + q);
      OffsetsAdd(Part(m, p[0]), pointerBytes, p[1..], q);
    }
  }

  /** At any depth, whatever lies inside a variant starts past the tag of its enum. */
  lemma TagApart(m: Model, pointerBytes: nat, p: seq<nat>, q: seq<nat>)
    requires WellFormed(m) && PowerOfTwo(pointerBytes) && IsPath(m, p) && IsPath(At(m, p), q) && q != []
    requires !SideBySide(At(m, p))
    ensures WellFormed(At(m, p)) && IsPath(m, p + q)
    ensures Exact(At(m, p), pointerBytes).tag.Some?
    ensures OffsetAt(m, pointerBytes, p) + Exact(At(m, p), pointerBytes).tag.value.width <=
            OffsetAt(m, pointerBytes, p + q)
  {
    OffsetCompose(m, pointerBytes, p, q);
    PartFits(At(m, p), pointerBytes, q[0]);
  }
}
