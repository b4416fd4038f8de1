/**
 What a layout is, without computing one: each offset is the first free multiple of the
 alignment, each size the first multiple that covers its parts. Every well-formed model has
 exactly one such layout, the one that is computed.
 */
module LayoutRules {
  import opened Basics
  import opened Divisibility
  import opened AggregateLayout
  import opened LayoutTheorems
  import LayoutPlacement

  // ----- the rules -----

  /** The first multiple of `a` at or after `v`. */
  ghost predicate FirstMultiple(v: int, a: int, r: int) {
    a > 0 && r % a == 0 && v <= r < v + a
  }

  ghost predicate ScalarLaid(name: string, pointerBytes: nat, l: Layout) {
    && l.offsets == [] && l.tag.None? && l.align == l.size
    && (|| (name in {"bool", "u8"} && l.size == 1)
        || (name == "u16" && l.size == 2)
        || (name == "u32" && l.size == 4)
        || (name in {"u64", "i64"} && l.size == 8)
        || (name == "pointer" && l.size == pointerBytes))
  }

  /** Elements back to back, aligned as the element is. */
  ghost predicate ArrayLaid(e: Layout, count: nat, l: Layout) {
    && l.size == e.size * count && l.align == e.align && l.tag.None?
    && |l.offsets| == count && forall i :: 0 <= i < count ==> l.offsets[i] == e.size * i
  }

  ghost predicate LargestAlign(ls: seq<Layout>, n: nat) {
    (forall i :: 0 <= i < |ls| ==> ls[i].align <= n) && exists i :: 0 <= i < |ls| && ls[i].align == n
  }

  ghost predicate LargestSize(ls: seq<Layout>, n: nat) {
    (forall i :: 0 <= i < |ls| ==> ls[i].size <= n) && exists i :: 0 <= i < |ls| && ls[i].size == n
  }

  /** Where field `i` may start at the earliest: at zero, or where the field before it ends. */
  function Start(ls: seq<Layout>, offsets: seq<nat>, i: nat): nat
    requires i <= |ls| == |offsets|
  {
    if i == 0 then 0 else offsets[i - 1] + ls[i - 1].size
  }

  ghost predicate FieldAt(ls: seq<Layout>, offsets: seq<nat>, i: nat)
    requires i < |ls| == |offsets|
  {
    FirstMultiple(Start(ls, offsets, i), ls[i].align, offsets[i])
  }

  /** Fields in order, each at the first aligned offset, and the size padded to the largest alignment. */
  ghost predicate RecordLaid(ls: seq<Layout>, l: Layout) {
    && ls != [] && |l.offsets| == |ls| && l.tag.None?
    && (forall i :: 0 <= i < |ls| ==> FieldAt(ls, l.offsets, i))
    && LargestAlign(ls, l.align)
    && FirstMultiple(Start(ls, l.offsets, |ls|), l.align, l.size)
  }

  ghost predicate AtMostAs(a: Layout, b: Layout) {
    a.size < b.size || (a.size == b.size && a.align <= b.align)
  }

  /** No variant exceeds variant `k` in size, then alignment, and every earlier one is strictly below it. */
  ghost predicate FirstWidest(ls: seq<Layout>, k: int) {
    && 0 <= k < |ls|
    && (forall i :: 0 <= i < |ls| ==> AtMostAs(ls[i], ls[k]))
    && forall i :: 0 <= i < k ==> !AtMostAs(ls[k], ls[i])
  }

  ghost predicate Shifted(offsets: seq<nat>, base: nat, r: seq<nat>) {
    |r| == |offsets| && forall i :: 0 <= i < |r| ==> r[i] == base + offsets[i]
  }

  /** The tag at zero, then every payload at the first offset that suits them all. */
  ghost predicate UnionLaid(ls: seq<Layout>, l: Layout, size: nat, align: nat, k: int)
    requires 0 <= k < |ls|
  {
    && l.tag.Some?
    && var t := l.tag.value;
       && t.width == (if |ls| <= 0x100 then 1 else 2)
       && FirstMultiple(t.width, align, t.payloadOffset)
       && l.align == (if t.width < align then align else t.width)
       && FirstMultiple(t.payloadOffset + size, l.align, l.size)
       && Shifted(ls[k].offsets, t.payloadOffset, l.offsets)
       && |t.variantOffsets| == |ls|
       && forall v :: 0 <= v < |ls| ==> Shifted(ls[v].offsets, t.payloadOffset, t.variantOffsets[v])
  }

  ghost predicate EnumLaid(ls: seq<Layout>, l: Layout) {
    exists size, align, k ::
      LargestSize(ls, size) && LargestAlign(ls, align) && FirstWidest(ls, k) && UnionLaid(ls, l, size, align, k)
  }

  /** The layout of a model: there is one for well-formed models only. */
  ghost predicate IsLayout(m: Model, pointerBytes: nat, l: Layout)
    decreases Size(m), 0
  {
    match m
    case Scalar(name) => ScalarLaid(name, pointerBytes, l)
    case ArrayOf(element, count) =>
      && count.Some? && 0 <= count.value <= 4096
      && exists e :: IsLayout(element, pointerBytes, e) && ArrayLaid(e, count.value, l)
    case Struct(fields) => RecordOf(fields, pointerBytes, l)
    case Tuple(elements) => RecordOf(elements, pointerBytes, l)
    case OptionOf(payload) =>
      payload.Some? && (SizeVariantsPair(None, payload); UnionOf([None, payload], pointerBytes, l))
    case ResultOf(ok, error) =>
      ok.Some? && error.Some? && (SizeVariantsPair(ok, error); UnionOf([ok, error], pointerBytes, l))
    case Enum(variants) => UnionOf(variants, pointerBytes, l)
    case UnsupportedKind => false
  }

  ghost predicate RecordOf(fields: seq<Model>, pointerBytes: nat, l: Layout)
    decreases SizeAll(fields), 2
  {
    1 <= |fields| <= 4096 && exists ls: seq<Layout> :: RecordLaid(ls, l) && AllLaid(fields, pointerBytes, ls)
  }

  ghost predicate AllLaid(fields: seq<Model>, pointerBytes: nat, ls: seq<Layout>)
    decreases SizeAll(fields), 1
  {
    && |ls| == |fields|
    && forall i :: 0 <= i < |fields| ==> (FieldSmaller(fields, i); IsLayout(fields[i], pointerBytes, ls[i]))
  }

  ghost predicate UnionOf(variants: seq<Option<Model>>, pointerBytes: nat, l: Layout)
    decreases SizeVariants(variants), 3
  {
    1 <= |variants| <= 4096 && exists ls: seq<Layout> :: EnumLaid(ls, l) && VariantsLaid(variants, pointerBytes, ls)
  }

  ghost predicate VariantsLaid(variants: seq<Option<Model>>, pointerBytes: nat, ls: seq<Layout>)
    decreases SizeVariants(variants), 2
  {
    && |ls| == |variants|
    && forall i :: 0 <= i < |variants| ==>
         (VariantSmaller(variants, i); VariantLaid(variants[i], pointerBytes, ls[i]))
  }

  /** A variant without payload takes no space. */
  ghost predicate VariantLaid(variant: Option<Model>, pointerBytes: nat, l: Layout)
    decreases SizeOption(variant), 1
  {
    match variant
    case None => l == Layout(0, 1, [], None)
    case Some(p) => IsLayout(p, pointerBytes, l)
  }

  // ----- there is at most one -----

  lemma FirstMultipleUnique(v: int, a: int, r: int, s: int)
    requires FirstMultiple(v, a, r) && FirstMultiple(v, a, s)
    ensures r == s
  {
    var q := r / a - s / a;
    assert r - s == a * q && -a < a * q < a;
    OnlySmallMultiple(a, q);
  }

  lemma {:induction false} OffsetUnique(ls: seq<Layout>, a: seq<nat>, b: seq<nat>, i: nat)
    requires |a| == |b| == |ls| && i < |ls|
    requires forall j :: 0 <= j < |ls| ==> FieldAt(ls, a, j) && FieldAt(ls, b, j)
    ensures a[i] == b[i]
  {
    if i > 0 {
      OffsetUnique(ls, a, b, i - 1);
    }
    assert FieldAt(ls, a, i) && FieldAt(ls, b, i);
    FirstMultipleUnique(Start(ls, a, i), ls[i].align, a[i], b[i]);
  }

  lemma RecordUnique(ls: seq<Layout>, a: Layout, b: Layout)
    requires RecordLaid(ls, a) && RecordLaid(ls, b)
    ensures a == b
  {
    forall i | 0 <= i < |ls| ensures a.offsets[i] == b.offsets[i] {
      OffsetUnique(ls, a.offsets, b.offsets, i);
    }
    assert a.offsets == b.offsets;
    FirstMultipleUnique(Start(ls, a.offsets, |ls|), a.align, a.size, b.size);
  }

  lemma ShiftedUnique(offsets: seq<nat>, base: nat, r: seq<nat>, s: seq<nat>)
    requires Shifted(offsets, base, r) && Shifted(offsets, base, s)
    ensures r == s
  {
  }

  lemma UnionUnique(ls: seq<Layout>, a: Layout, b: Layout, size: nat, align: nat, k: int)
    requires 0 <= k < |ls| && UnionLaid(ls, a, size, align, k) && UnionLaid(ls, b, size, align, k)
    ensures a == b
  {
    var t, u := a.tag.value, b.tag.value;
    FirstMultipleUnique(t.width, align, t.payloadOffset, u.payloadOffset);
    FirstMultipleUnique(t.payloadOffset + size, a.align, a.size, b.size);
    ShiftedUnique(ls[k].offsets, t.payloadOffset, a.offsets, b.offsets);
    forall v | 0 <= v < |ls| ensures t.variantOffsets[v] == u.variantOffsets[v] {
      ShiftedUnique(ls[v].offsets, t.payloadOffset, t.variantOffsets[v], u.variantOffsets[v]);
    }
    assert t.variantOffsets == u.variantOffsets;
  }

  lemma WidestUnique(ls: seq<Layout>, j: int, k: int)
    requires FirstWidest(ls, j) && FirstWidest(ls, k)
    ensures j == k
  {
    assert AtMostAs(ls[j], ls[k]) && AtMostAs(ls[k], ls[j]);
  }

  lemma LargestUnique(ls: seq<Layout>, a: nat, b: nat)
    ensures LargestSize(ls, a) && LargestSize(ls, b) ==> a == b
    ensures LargestAlign(ls, a) && LargestAlign(ls, b) ==> a == b
  {
  }

  lemma EnumUnique(ls: seq<Layout>, a: Layout, b: Layout)
    requires EnumLaid(ls, a) && EnumLaid(ls, b)
    ensures a == b
  {
    var size, align, k := Shape(ls, a);
    var size', align', k' := Shape(ls, b);
    LargestUnique(ls, size, size');
    LargestUnique(ls, align, align');
    WidestUnique(ls, k, k');
    UnionUnique(ls, a, b, size, align, k);
  }

  lemma Shape(ls: seq<Layout>, l: Layout) returns (size: nat, align: nat, k: int)
    requires EnumLaid(ls, l)
    ensures LargestSize(ls, size) && LargestAlign(ls, align) && FirstWidest(ls, k) && UnionLaid(ls, l, size, align, k)
  {
    size, align, k :|
      LargestSize(ls, size) && LargestAlign(ls, align) && FirstWidest(ls, k) && UnionLaid(ls, l, size, align, k);
  }

  lemma {:induction false} AllUnique(fields: seq<Model>, pointerBytes: nat, ls: seq<Layout>, ks: seq<Layout>)
    requires AllLaid(fields, pointerBytes, ls) && AllLaid(fields, pointerBytes, ks)
    ensures ls == ks
    decreases SizeAll(fields), 0
  {
    forall i | 0 <= i < |fields| ensures ls[i] == ks[i] {
      FieldSmaller(fields, i);
      LayoutUnique(fields[i], pointerBytes, ls[i], ks[i]);
    }
  }

  lemma {:induction false} RecordOfUnique(fields: seq<Model>, pointerBytes: nat, a: Layout, b: Layout)
    requires RecordOf(fields, pointerBytes, a) && RecordOf(fields, pointerBytes, b)
    ensures a == b
    decreases SizeAll(fields), 1
  {
    var ls: seq<Layout> :| RecordLaid(ls, a) && AllLaid(fields, pointerBytes, ls);
    var ks: seq<Layout> :| RecordLaid(ks, b) && AllLaid(fields, pointerBytes, ks);
    AllUnique(fields, pointerBytes, ls, ks);
    RecordUnique(ls, a, b);
  }

  lemma {:induction false} VariantsUnique(
    variants: seq<Option<Model>>, pointerBytes: nat, ls: seq<Layout>, ks: seq<Layout>)
    requires VariantsLaid(variants, pointerBytes, ls) && VariantsLaid(variants, pointerBytes, ks)
    ensures ls == ks
    decreases SizeVariants(variants), 0
  {
    forall i | 0 <= i < |variants| ensures ls[i] == ks[i] {
      VariantSmaller(variants, i);
      VariantUnique(variants[i], pointerBytes, ls[i], ks[i]);
    }
  }

  lemma {:induction false} VariantUnique(variant: Option<Model>, pointerBytes: nat, a: Layout, b: Layout)
    requires VariantLaid(variant, pointerBytes, a) && VariantLaid(variant, pointerBytes, b)
    ensures a == b
    decreases SizeOption(variant), 2
  {
    if variant.Some? {
      LayoutUnique(variant.value, pointerBytes, a, b);
    }
  }

  lemma {:induction false} UnionOfUnique(variants: seq<Option<Model>>, pointerBytes: nat, a: Layout, b: Layout)
    requires UnionOf(variants, pointerBytes, a) && UnionOf(variants, pointerBytes, b)
    ensures a == b
    decreases SizeVariants(variants), 1
  {
    var ls: seq<Layout> :| EnumLaid(ls, a) && VariantsLaid(variants, pointerBytes, ls);
    var ks: seq<Layout> :| EnumLaid(ks, b) && VariantsLaid(variants, pointerBytes, ks);
    VariantsUnique(variants, pointerBytes, ls, ks);
    EnumUnique(ls, a, b);
  }

  lemma {:induction false} ArrayUnique(element: Model, count: nat, pointerBytes: nat, a: Layout, b: Layout)
    requires exists e :: IsLayout(element, pointerBytes, e) && ArrayLaid(e, count, a)
    requires exists e :: IsLayout(element, pointerBytes, e) && ArrayLaid(e, count, b)
    ensures a == b
    decreases Size(element), 2
  {
    var e :| IsLayout(element, pointerBytes, e) && ArrayLaid(e, count, a);
    var f :| IsLayout(element, pointerBytes, f) && ArrayLaid(f, count, b);
    LayoutUnique(element, pointerBytes, e, f);
    assert a.offsets == b.offsets;
  }

  /** A model has at most one layout. */
  lemma {:induction false} LayoutUnique(m: Model, pointerBytes: nat, a: Layout, b: Layout)
    requires IsLayout(m, pointerBytes, a) && IsLayout(m, pointerBytes, b)
    ensures a == b
    decreases Size(m), 1
  {
    match m
    case Scalar(_) =>
    case ArrayOf(element, count) => ArrayUnique(element, count.value, pointerBytes, a, b);
    case Struct(fields) => RecordOfUnique(fields, pointerBytes, a, b);
    case Tuple(elements) => RecordOfUnique(elements, pointerBytes, a, b);
    case OptionOf(payload) =>
      SizeVariantsPair(None, payload);
      UnionOfUnique([None, payload], pointerBytes, a, b);
    case ResultOf(ok, error) =>
      SizeVariantsPair(ok, error);
      UnionOfUnique([ok, error], pointerBytes, a, b);
    case Enum(variants) => UnionOfUnique(variants, pointerBytes, a, b);
  }

  // ----- and the computed one is it -----

  lemma RoundUpIsFirst(v: nat, a: nat)
    requires a > 0
    ensures FirstMultiple(v, a, RoundUp(v, a))
  {
    RoundUpDivides(v, a);
    DividesMeans(a, RoundUp(v, a));
  }

  lemma {:induction false} PlacedAlign(ls: seq<Layout>)
    requires ls != [] && LayoutPlacement.Positive(ls)
    ensures LargestAlign(ls, LayoutPlacement.PlaceAll(ls).align)
  {
    var n := |ls| - 1;
    var front := ls[..n];
    if n == 0 {
      assert LayoutPlacement.PlaceAll(front).align == 1;
      assert ls[0] in ls;
    } else {
      PlacedAlign(front);
      LargestSnoc(ls, LayoutPlacement.PlaceAll(front).align);
    }
  }

  lemma LargestSnoc(ls: seq<Layout>, a: nat)
    requires |ls| > 1 && LargestAlign(ls[..|ls| - 1], a)
    ensures LargestAlign(ls, Max(a, ls[|ls| - 1].align))
  {
    var n := |ls| - 1;
    var i :| 0 <= i < n && ls[..n][i].align == a;
    assert forall k :: 0 <= k < n ==> ls[..n][k] == ls[k];
    assert ls[i].align == a && ls[n].align <= Max(a, ls[n].align);
  }

  lemma RecordIsLaid(fields: seq<Model>, pointerBytes: nat, ls: seq<Layout>)
    requires fields != [] && (forall f :: f in fields ==> WellFormed(f)) && PowerOfTwo(pointerBytes)
    requires ls == LayoutPlacement.LayoutsOf(fields, pointerBytes)
    ensures RecordLaid(ls, ExactRecord(fields, pointerBytes))
  {
    var p := ExactFields(fields, pointerBytes);
    forall i | 0 <= i <= |fields| ensures Start(ls, p.offsets, i) == ExactFields(fields[..i], pointerBytes).offset {
      if i > 0 {
        LayoutPlacement.FieldTight(fields, pointerBytes, i - 1);
      }
    }
    forall i | 0 <= i < |ls| ensures FieldAt(ls, p.offsets, i) {
      LayoutPlacement.FieldTight(fields, pointerBytes, i);
      RoundUpIsFirst(ExactFields(fields[..i], pointerBytes).offset, ls[i].align);
    }
    LayoutPlacement.FieldsArePlaced(fields, pointerBytes);
    PlacedAlign(ls);
    assert fields[..|fields|] == fields;
    RoundUpIsFirst(p.offset, p.align);
  }

  lemma {:induction false} WidestIsFirst(ls: seq<Layout>) returns (k: int)
    requires ls != []
    ensures FirstWidest(ls, k) && ls[k] == Widest(ls)
  {
    var n := |ls| - 1;
    k := n;
    if n > 0 {
      var front := ls[..n];
      var j := WidestIsFirst(front);
      assert forall i :: 0 <= i < n ==> front[i] == ls[i];
      if !Narrower(Widest(front), ls[n]) {
        k := j;
      }
    }
  }

  lemma MaximaAreLargest(ls: seq<Layout>)
    requires ls != []
    ensures LargestSize(ls, MaxSize(ls)) && LargestAlign(ls, MaxAlign(ls))
  {
    var i, j := MaximaAttained(ls);
    assert forall k :: 0 <= k < |ls| ==> ls[k] in ls;
  }

  lemma ShiftIsShifted(offsets: seq<nat>, base: nat)
    ensures Shifted(offsets, base, Shift(offsets, base))
  {
  }

  /** A union with these parts, whatever computes it. */
  lemma UnionFromParts(ls: seq<Layout>, l: Layout, size: nat, align: nat, k: int)
    requires 0 <= k < |ls| && l.tag.Some? && align > 0
    requires var t := l.tag.value;
             && t.width == (if |ls| <= 0x100 then 1 else 2)
             && t.payloadOffset == RoundUp(t.width, align)
             && l.align == Max(t.width, align)
             && l.size == RoundUp(t.payloadOffset + size, l.align)
             && l.offsets == Shift(ls[k].offsets, t.payloadOffset)
             && t.variantOffsets == ShiftAll(ls, t.payloadOffset)
    ensures UnionLaid(ls, l, size, align, k)
  {
    var t := l.tag.value;
    RoundUpIsFirst(t.width, align);
    RoundUpIsFirst(t.payloadOffset + size, l.align);
    ShiftIsShifted(ls[k].offsets, t.payloadOffset);
    forall v | 0 <= v < |ls| ensures Shifted(ls[v].offsets, t.payloadOffset, t.variantOffsets[v]) {
      ShiftIsShifted(ls[v].offsets, t.payloadOffset);
    }
  }

  lemma UnionIsLaid(width: nat, ls: seq<Layout>)
    requires PowerOfTwo(width) && ls != [] && forall p :: p in ls ==> Good(p)
    requires width == if |ls| <= 0x100 then 1 else 2
    ensures EnumLaid(ls, TaggedUnion(width, ls))
  {
    MaximaAreLargest(ls);
    MaxAlignPower(ls);
    var k := WidestIsFirst(ls);
    UnionFromParts(ls, TaggedUnion(width, ls), MaxSize(ls), MaxAlign(ls), k);
  }

  lemma EnumIsLaid(variants: seq<Option<Model>>, pointerBytes: nat)
    requires 0 < |variants| <= FIELD_LIMIT && (forall v :: v in variants && v.Some? ==> WellFormed(v.value))
    requires PowerOfTwo(pointerBytes)
    ensures EnumLaid(ExactVariants(variants, pointerBytes), ExactEnum(variants, pointerBytes))
  {
    assert PowerOfTwo(1) && PowerOfTwo(2);
    UnionIsLaid(TagWidth(|variants| - 1).value, ExactVariants(variants, pointerBytes));
  }

  lemma {:induction false} RecordIsLayout(fields: seq<Model>, pointerBytes: nat)
    requires 0 < |fields| <= FIELD_LIMIT && (forall f :: f in fields ==> WellFormed(f)) && PowerOfTwo(pointerBytes)
    ensures RecordOf(fields, pointerBytes, ExactRecord(fields, pointerBytes))
    decreases SizeAll(fields), 0
  {
    var ls := LayoutPlacement.LayoutsOf(fields, pointerBytes);
    forall i | 0 <= i < |fields| ensures IsLayout(fields[i], pointerBytes, ls[i]) {
      FieldSmaller(fields, i);
      ExactIsLayout(fields[i], pointerBytes);
    }
    assert AllLaid(fields, pointerBytes, ls);
    RecordIsLaid(fields, pointerBytes, ls);
  }

  lemma {:induction false} UnionIsLayout(variants: seq<Option<Model>>, pointerBytes: nat)
    requires 0 < |variants| <= FIELD_LIMIT && (forall v :: v in variants && v.Some? ==> WellFormed(v.value))
    requires PowerOfTwo(pointerBytes)
    ensures UnionOf(variants, pointerBytes, ExactEnum(variants, pointerBytes))
    decreases SizeVariants(variants), 0
  {
    var ls := ExactVariants(variants, pointerBytes);
    forall i | 0 <= i < |variants| ensures VariantLaid(variants[i], pointerBytes, ls[i]) {
      ExactVariantAt(variants, pointerBytes, i);
      VariantSmaller(variants, i);
      VariantIsLayout(variants[i], pointerBytes);
    }
    assert VariantsLaid(variants, pointerBytes, ls);
    EnumIsLaid(variants, pointerBytes);
  }

  lemma {:induction false} VariantIsLayout(variant: Option<Model>, pointerBytes: nat)
    requires (variant.Some? ==> WellFormed(variant.value)) && PowerOfTwo(pointerBytes)
    ensures VariantLaid(variant, pointerBytes, ExactVariant(variant, pointerBytes))
    decreases SizeOption(variant), 2
  {
    if variant.Some? {
      ExactIsLayout(variant.value, pointerBytes);
    }
  }

  lemma {:induction false} ExactIsLayout(m: Model, pointerBytes: nat)
    requires WellFormed(m) && PowerOfTwo(pointerBytes)
    ensures IsLayout(m, pointerBytes, Exact(m, pointerBytes))
    decreases Size(m), 1
  {
    match m
    case Scalar(_) =>
    case ArrayOf(element, count) =>
      ExactIsLayout(element, pointerBytes);
      assert ArrayLaid(Exact(element, pointerBytes), count.value, Exact(m, pointerBytes));
    case Struct(fields) => RecordIsLayout(fields, pointerBytes);
    case Tuple(elements) => RecordIsLayout(elements, pointerBytes);
    case OptionOf(payload) =>
      SizeVariantsPair(None, payload);
      UnionIsLayout([None, payload], pointerBytes);
    case ResultOf(ok, error) =>
      SizeVariantsPair(ok, error);
      UnionIsLayout([ok, error], pointerBytes);
    case Enum(variants) => UnionIsLayout(variants, pointerBytes);
  }

  // ----- layouts and acceptance -----

  /** Only well-formed models have a layout. */
  lemma {:induction false} LaidIsWellFormed(m: Model, pointerBytes: nat, l: Layout)
    requires IsLayout(m, pointerBytes, l)
    ensures WellFormed(m)
    decreases Size(m), 1
  {
    match m
    case Scalar(_) =>
    case ArrayOf(element, count) =>
      var e :| IsLayout(element, pointerBytes, e) && ArrayLaid(e, count.value, l);
      LaidIsWellFormed(element, pointerBytes, e);
    case Struct(fields) => FieldsWellFormed(fields, pointerBytes, l);
    case Tuple(elements) => FieldsWellFormed(elements, pointerBytes, l);
    case OptionOf(payload) =>
      SizeVariantsPair(None, payload);
      VariantsWellFormed([None, payload], pointerBytes, l);
      assert payload in [None, payload];
    case ResultOf(ok, error) =>
      SizeVariantsPair(ok, error);
      VariantsWellFormed([ok, error], pointerBytes, l);
      assert ok in [ok, error] && error in [ok, error];
    case Enum(variants) => VariantsWellFormed(variants, pointerBytes, l);
  }

  lemma {:induction false} FieldsWellFormed(fields: seq<Model>, pointerBytes: nat, l: Layout)
    requires RecordOf(fields, pointerBytes, l)
    ensures 0 < |fields| <= FIELD_LIMIT && forall f :: f in fields ==> WellFormed(f)
    decreases SizeAll(fields), 0
  {
    var ls: seq<Layout> :| RecordLaid(ls, l) && AllLaid(fields, pointerBytes, ls);
    forall i | 0 <= i < |fields| ensures WellFormed(fields[i]) {
      FieldSmaller(fields, i);
      LaidIsWellFormed(fields[i], pointerBytes, ls[i]);
    }
  }

  lemma {:induction false} VariantsWellFormed(variants: seq<Option<Model>>, pointerBytes: nat, l: Layout)
    requires UnionOf(variants, pointerBytes, l)
    ensures 0 < |variants| <= FIELD_LIMIT && forall v :: v in variants && v.Some? ==> WellFormed(v.value)
    decreases SizeVariants(variants), 0
  {
    var ls: seq<Layout> :| EnumLaid(ls, l) && VariantsLaid(variants, pointerBytes, ls);
    forall i | 0 <= i < |variants| && variants[i].Some? ensures WellFormed(variants[i].value) {
      VariantSmaller(variants, i);
      assert VariantLaid(variants[i], pointerBytes, ls[i]);
      LaidIsWellFormed(variants[i].value, pointerBytes, ls[i]);
    }
  }

  /** The computed layout is the one and only layout. */
  lemma IsLayoutIff(m: Model, pointerBytes: nat, l: Layout)
    requires PowerOfTwo(pointerBytes)
    ensures IsLayout(m, pointerBytes, l) <==> WellFormed(m) && l == Exact(m, pointerBytes)
  {
    if IsLayout(m, pointerBytes, l) {
      LaidIsWellFormed(m, pointerBytes, l);
      ExactIsLayout(m, pointerBytes);
      LayoutUnique(m, pointerBytes, l, Exact(m, pointerBytes));
    }
    if WellFormed(m) {
      ExactIsLayout(m, pointerBytes);
    }
  }

  /** Whatever layout is accepted is the model's layout, and a model without one is refused. */
  lemma AcceptedIsLayout(m: Model, pointerBytes: nat, maximum: int)
    requires ValidTarget(pointerBytes, maximum)
    ensures Bounded(m, pointerBytes, maximum).Ok? ==> IsLayout(m, pointerBytes, Bounded(m, pointerBytes, maximum).value)
    ensures (forall l :: !IsLayout(m, pointerBytes, l)) ==> Bounded(m, pointerBytes, maximum).Err?
  {
    AcceptedIffFits(m, pointerBytes, maximum);
    if Bounded(m, pointerBytes, maximum).Ok? {
      IsLayoutIff(m, pointerBytes, Bounded(m, pointerBytes, maximum).value);
    }
  }

  // ----- a reported defect is there -----

  ghost predicate HasDefect(m: Model, d: Defect) {
    match m
    case Scalar(name) => d == UnknownScalar && name !in {"bool", "u8", "u16", "u32", "u64", "i64", "pointer"}
    case ArrayOf(element, count) =>
      || HasDefect(element, d)
      || (d == Count && (count.None? || count.value < 0))
      || (d == ArrayLimit && count.Some? && count.value > 4096)
    case Struct(fields) => FieldDefect(fields, d) || exists f :: f in fields && HasDefect(f, d)
    case Tuple(elements) => FieldDefect(elements, d) || exists f :: f in elements && HasDefect(f, d)
    case OptionOf(payload) => if payload.None? then d == PayloadMissing else HasDefect(payload.value, d)
    case ResultOf(ok, error) =>
      || (d == PayloadMissing && (ok.None? || error.None?))
      || (ok.Some? && HasDefect(ok.value, d)) || (error.Some? && HasDefect(error.value, d))
    case Enum(variants) =>
      || (d == VariantsMissing && |variants| == 0) || (d == VariantLimit && |variants| > 4096)
      || exists v :: v in variants && v.Some? && HasDefect(v.value, d)
    case UnsupportedKind => d == Kind
  }

  ghost predicate FieldDefect(fields: seq<Model>, d: Defect) {
    (d == FieldsMissing && |fields| == 0) || (d == FieldLimit && |fields| > 4096)
  }

  lemma AcceptedIsGood(m: Model, pointerBytes: nat, maximum: int)
    requires ValidTarget(pointerBytes, maximum) && Bounded(m, pointerBytes, maximum).Ok?
    ensures Good(Bounded(m, pointerBytes, maximum).value)
  {
    AcceptedIffFits(m, pointerBytes, maximum);
  }

  /** An error about the form of a model names a defect the model has. */
  lemma {:induction false} ReportedDefect(m: Model, pointerBytes: nat, maximum: int, d: Defect)
    requires ValidTarget(pointerBytes, maximum) && Bounded(m, pointerBytes, maximum) == Err(Malformed(d))
    ensures HasDefect(m, d)
    decreases Size(m), 1
  {
    match m
    case Scalar(_) =>
    case ArrayOf(element, count) => ArrayDefect(element, count, pointerBytes, maximum, d);
    case Struct(fields) => RecordDefect(fields, pointerBytes, maximum, d);
    case Tuple(elements) => RecordDefect(elements, pointerBytes, maximum, d);
    case OptionOf(payload) =>
      if payload.Some? {
        SizeVariantsPair(None, payload);
        EnumDefect([None, payload], pointerBytes, maximum, d);
      }
    case ResultOf(ok, error) =>
      if ok.Some? && error.Some? {
        SizeVariantsPair(ok, error);
        EnumDefect([ok, error], pointerBytes, maximum, d);
      }
    case Enum(variants) => EnumDefect(variants, pointerBytes, maximum, d);
    case UnsupportedKind =>
  }

  lemma {:induction false} ArrayDefect(
    element: Model, count: Option<int>, pointerBytes: nat, maximum: int, d: Defect)
    requires ValidTarget(pointerBytes, maximum)
    requires Bounded(ArrayOf(element, count), pointerBytes, maximum) == Err(Malformed(d))
    ensures HasDefect(ArrayOf(element, count), d)
    decreases Size(element), 2
  {
    if Bounded(element, pointerBytes, maximum).Ok? {
      var e := Bounded(element, pointerBytes, maximum).value;
      AcceptedIsGood(element, pointerBytes, maximum);
      AlignUpExact(e.size, e.align, maximum);
    } else {
      ReportedDefect(element, pointerBytes, maximum, d);
    }
  }

  lemma {:induction false} RecordDefect(fields: seq<Model>, pointerBytes: nat, maximum: int, d: Defect)
    requires ValidTarget(pointerBytes, maximum) && BoundedRecord(fields, pointerBytes, maximum) == Err(Malformed(d))
    ensures FieldDefect(fields, d) || exists f :: f in fields && HasDefect(f, d)
    decreases SizeAll(fields), 2
  {
    if 0 < |fields| <= 4096 {
      var p := BoundedFields(fields, pointerBytes, maximum);
      FieldsDefect(fields, pointerBytes, maximum, d);
      if p.Ok? {
        AlignUpExact(p.value.offset, p.value.align, maximum);
      }
    }
  }

  lemma {:induction false} FieldsDefect(fields: seq<Model>, pointerBytes: nat, maximum: int, d: Defect)
    requires ValidTarget(pointerBytes, maximum)
    ensures BoundedFields(fields, pointerBytes, maximum) == Err(Malformed(d)) ==>
              exists f :: f in fields && HasDefect(f, d)
    ensures BoundedFields(fields, pointerBytes, maximum).Ok? ==>
              PowerOfTwo(BoundedFields(fields, pointerBytes, maximum).value.align)
    decreases SizeAll(fields), 1
  {
    if fields == [] {
    } else {
      var n := |fields| - 1;
      var l := Bounded(fields[n], pointerBytes, maximum);
      FieldsDefect(fields[..n], pointerBytes, maximum, d);
      assert forall f :: f in fields <==> f in fields[..n] || f == fields[n];
      var p := BoundedFields(fields[..n], pointerBytes, maximum);
      if p.Ok? && l.Ok? {
        AcceptedIsGood(fields[n], pointerBytes, maximum);
        AlignUpExact(p.value.offset, l.value.align, maximum);
      } else if p.Ok? && l == Err(Malformed(d)) {
        ReportedDefect(fields[n], pointerBytes, maximum, d);
      }
    }
  }

  lemma {:induction false} EnumDefect(variants: seq<Option<Model>>, pointerBytes: nat, maximum: int, d: Defect)
    requires ValidTarget(pointerBytes, maximum) && Bounded(Enum(variants), pointerBytes, maximum) == Err(Malformed(d))
    ensures || (d == VariantsMissing && |variants| == 0) || (d == VariantLimit && |variants| > 4096)
            || exists v :: v in variants && v.Some? && HasDefect(v.value, d)
    decreases SizeVariants(variants), 2
  {
    if 0 < |variants| <= 4096 {
      EnumSteps(variants, pointerBytes, maximum);
      VariantsDefect(variants, pointerBytes, maximum, d);
      var payloads := BoundedVariants(variants, pointerBytes, maximum);
      if payloads.Ok? {
        assert PowerOfTwo(1) && PowerOfTwo(2);
        TaggedUnionExact(TagWidth(|variants| - 1).value, payloads.value, maximum);
      }
    }
  }

  lemma {:induction false} VariantsDefect(variants: seq<Option<Model>>, pointerBytes: nat, maximum: int, d: Defect)
    requires ValidTarget(pointerBytes, maximum)
    ensures BoundedVariants(variants, pointerBytes, maximum) == Err(Malformed(d)) ==>
              exists v :: v in variants && v.Some? && HasDefect(v.value, d)
    ensures BoundedVariants(variants, pointerBytes, maximum).Ok? ==>
              && |BoundedVariants(variants, pointerBytes, maximum).value| == |variants|
              && forall l :: l in BoundedVariants(variants, pointerBytes, maximum).value ==> Good(l)
    decreases SizeVariants(variants), 1
  {
    if variants == [] {
    } else {
      var n := |variants| - 1;
      VariantsDefect(variants[..n], pointerBytes, maximum, d);
      VariantDefect(variants[n], pointerBytes, maximum, d);
      var last := BoundedVariant(variants[n], pointerBytes, maximum);
      assert forall v :: v in variants <==> v in variants[..n] || v == variants[n];
      assert last == Err(Malformed(d)) ==> variants[n].Some? && HasDefect(variants[n].value, d);
    }
  }

  lemma {:induction false} VariantDefect(variant: Option<Model>, pointerBytes: nat, maximum: int, d: Defect)
    requires ValidTarget(pointerBytes, maximum)
    ensures BoundedVariant(variant, pointerBytes, maximum) == Err(Malformed(d)) ==>
              variant.Some? && HasDefect(variant.value, d)
    ensures BoundedVariant(variant, pointerBytes, maximum).Ok? ==>
              Good(BoundedVariant(variant, pointerBytes, maximum).value)
    decreases SizeOption(variant), 2
  {
    if variant.Some? {
      var r := Bounded(variant.value, pointerBytes, maximum);
      if r.Ok? {
        AcceptedIsGood(variant.value, pointerBytes, maximum);
      } else if r == Err(Malformed(d)) {
        ReportedDefect(variant.value, pointerBytes, maximum, d);
      }
    }
  }
}
