/**
 Dynamic Aggregate ABI v1: the size, alignment and field offsets of nested aggregates.
 `Bounded` is the checker's computation, with every step held below a maximum; `Exact`
 is the same layout over unbounded integers. LayoutTheorems relates the two.
 */
module AggregateLayout {
  import opened Basics
  import opened Divisibility

  datatype Model =
    | Scalar(name: string)
    | ArrayOf(element: Model, count: Option<int>)  // None: the count is not an integer
    | Struct(fields: seq<Model>)
    | Tuple(elements: seq<Model>)
    | OptionOf(payload: Option<Model>)
    | ResultOf(ok: Option<Model>, error: Option<Model>)
    | Enum(variants: seq<Option<Model>>)  // None: a variant without payload
    | UnsupportedKind

  /** What only enum-shaped layouts carry. */
  datatype Tag = Tag(width: nat, payloadOffset: nat, variantOffsets: seq<seq<nat>>)

  datatype Layout = Layout(size: nat, align: nat, offsets: seq<nat>, tag: Option<Tag>)

  datatype Defect =
    | Alignment | Negative | UnknownScalar | Count | ArrayLimit | FieldsMissing | FieldLimit
    | PayloadMissing | VariantsMissing | VariantLimit | Kind

  datatype Error = LoweringRequired | Malformed(defect: Defect)

  datatype Result<T> = Ok(value: T) | Err(error: Error)
  {
    predicate IsFailure() {
      Err?
    }

    function PropagateFailure<U>(): Result<U>
      requires Err?
    {
      Err(error)
    }

    function Extract(): T
      requires Ok?
    {
      value
    }
  }

  const FIELD_LIMIT: nat := 4096

  // ----- alignment -----

  function BitAnd(a: nat, b: nat): nat {
    if a == 0 || b == 0 then 0
    else 2 * BitAnd(a / 2, b / 2) + if a % 2 == 1 && b % 2 == 1 then 1 else 0
  }

  /** The checker's test for a power of two. */
  predicate SingleBit(n: int) {
    n > 0 && BitAnd(n, n - 1) == 0
  }

  ghost predicate PowerOfTwo(n: int) {
    n == 1 || (n > 1 && n % 2 == 0 && PowerOfTwo(n / 2))
  }

  lemma {:induction false} BitAndSelf(n: nat)
    ensures BitAnd(n, n) == n
  {
    if n == 0 {
    } else {
      BitAndSelf(n / 2);
    }
  }

  /** The bit test accepts exactly the powers of two. */
  lemma {:induction false} SingleBitIsPower(n: int)
    ensures SingleBit(n) <==> PowerOfTwo(n)
    decreases n
  {
    if n > 1 {
      if n % 2 == 0 {
        assert (n - 1) / 2 == n / 2 - 1;
        SingleBitIsPower(n / 2);
      } else {
        assert (n - 1) / 2 == n / 2;
        BitAndSelf(n / 2);
      }
    }
  }

  function AlignUp(v: int, alignment: int, maximum: int): Result<nat> {
    if !SingleBit(alignment) then Err(Malformed(Alignment))
    else if v < 0 then Err(Malformed(Negative))
    else
      var padding := Padding(v, alignment);
      if v > maximum - padding then Err(LoweringRequired) else Ok(v + padding)
  }

  // ----- scalars -----

  function ScalarBytes(name: string, pointerBytes: nat): Option<nat> {
    if name in {"bool", "u8"} then Some(1)
    else if name == "u16" then Some(2)
    else if name == "u32" then Some(4)
    else if name in {"u64", "i64"} then Some(8)
    else if name == "pointer" then Some(pointerBytes)
    else None
  }

  // ----- termination -----

  /** A measure under which an option or result counts as larger than the enum it stands for. */
  ghost function Size(m: Model): nat {
    match m
    case Scalar(_) => 0
    case UnsupportedKind => 0
    case ArrayOf(element, _) => 1 + Size(element)
    case Struct(fields) => 1 + SizeAll(fields)
    case Tuple(elements) => 1 + SizeAll(elements)
    case Enum(variants) => 1 + SizeVariants(variants)
    case OptionOf(payload) => 4 + SizeOption(payload)
    case ResultOf(ok, error) => 4 + SizeOption(ok) + SizeOption(error)
  }

  ghost function SizeOption(m: Option<Model>): nat {
    match m
    case None => 0
    case Some(p) => Size(p)
  }

  ghost function SizeAll(ms: seq<Model>): nat {
    if ms == [] then 0 else SizeAll(ms[..|ms| - 1]) + 1 + Size(ms[|ms| - 1])
  }

  ghost function SizeVariants(vs: seq<Option<Model>>): nat {
    if vs == [] then 0 else SizeVariants(vs[..|vs| - 1]) + 1 + SizeOption(vs[|vs| - 1])
  }

  lemma SizeVariantsPair(a: Option<Model>, b: Option<Model>)
    ensures SizeVariants([a, b]) == SizeOption(a) + SizeOption(b) + 2
  {
    assert [a, b][..1] == [a];
    assert SizeVariants([a]) == SizeVariants([a][..0]) + 1 + SizeOption(a);
  }

  // ----- the checker's bounded layout -----

  /** The running state of the field loop. */
  datatype Placement = Placement(offset: nat, align: nat, offsets: seq<nat>)

  function Max(a: nat, b: nat): nat {
    if a < b then b else a
  }

  function Bounded(m: Model, pointerBytes: nat, maximum: int): Result<Layout>
    decreases Size(m), 0
  {
    match m
    case Scalar(name) =>
      var bytes := ScalarBytes(name, pointerBytes);
      if bytes.None? then Err(Malformed(UnknownScalar)) else Ok(Layout(bytes.value, bytes.value, [], None))
    case ArrayOf(element, count) =>
      var e :- Bounded(element, pointerBytes, maximum);
      if count.None? || count.value < 0 then Err(Malformed(Count))
      else
        var stride :- AlignUp(e.size, e.align, maximum);
        BoundedArray(stride, e.align, count.value, maximum)
    case Struct(fields) => BoundedRecord(fields, pointerBytes, maximum)
    case Tuple(elements) => BoundedRecord(elements, pointerBytes, maximum)
    case OptionOf(payload) =>
      if payload.None? then Err(Malformed(PayloadMissing))
      else
        SizeVariantsPair(None, payload);
        Bounded(Enum([None, payload]), pointerBytes, maximum)
    case ResultOf(ok, error) =>
      if ok.None? || error.None? then Err(Malformed(PayloadMissing))
      else
        SizeVariantsPair(ok, error);
        Bounded(Enum([ok, error]), pointerBytes, maximum)
    case Enum(variants) =>
      if variants == [] then Err(Malformed(VariantsMissing))
      else if |variants| > FIELD_LIMIT then Err(Malformed(VariantLimit))
      else
        var width :- TagWidth(|variants| - 1);
        var payloads :- BoundedVariants(variants, pointerBytes, maximum);
        BoundedEnum(width, payloads, maximum)
    case UnsupportedKind => Err(Malformed(Kind))
  }

  function BoundedArray(stride: nat, align: nat, count: nat, maximum: int): Result<Layout> {
    if count != 0 && stride > maximum / count then Err(LoweringRequired)
    else if count > FIELD_LIMIT then Err(Malformed(ArrayLimit))
    else Ok(Layout(stride * count, align, Strides(stride, count), None))
  }

  function Strides(stride: nat, count: nat): seq<nat> {
    seq(count, i requires 0 <= i < count => stride * i)
  }

  function BoundedRecord(fields: seq<Model>, pointerBytes: nat, maximum: int): Result<Layout>
    decreases SizeAll(fields), 1
  {
    if fields == [] then Err(Malformed(FieldsMissing))
    else if |fields| > FIELD_LIMIT then Err(Malformed(FieldLimit))
    else
      var p :- BoundedFields(fields, pointerBytes, maximum);
      var size :- AlignUp(p.offset, p.align, maximum);
      Ok(Layout(size, p.align, p.offsets, None))
  }

  function BoundedFields(fields: seq<Model>, pointerBytes: nat, maximum: int): Result<Placement>
    decreases SizeAll(fields), 0
  {
    if fields == [] then Ok(Placement(0, 1, []))
    else
      var p :- BoundedFields(fields[..|fields| - 1], pointerBytes, maximum);
      var l :- Bounded(fields[|fields| - 1], pointerBytes, maximum);
      PlaceField(p, l, maximum)
  }

  function PlaceField(p: Placement, l: Layout, maximum: int): Result<Placement> {
    var offset :- AlignUp(p.offset, l.align, maximum);
    if offset > maximum - l.size then Err(LoweringRequired)
    else Ok(Placement(offset + l.size, Max(p.align, l.align), p.offsets + [offset]))
  }

  function BoundedVariants(variants: seq<Option<Model>>, pointerBytes: nat, maximum: int): Result<seq<Layout>>
    decreases SizeVariants(variants), 0
  {
    if variants == [] then Ok([])
    else
      var front :- BoundedVariants(variants[..|variants| - 1], pointerBytes, maximum);
      var last :- BoundedVariant(variants[|variants| - 1], pointerBytes, maximum);
      Ok(front + [last])
  }

  function BoundedVariant(variant: Option<Model>, pointerBytes: nat, maximum: int): Result<Layout>
    decreases SizeOption(variant), 1
  {
    match variant
    case None => Ok(Layout(0, 1, [], None))
    case Some(p) => Bounded(p, pointerBytes, maximum)
  }

  /** The first of 1, 2, 4, 8 bytes that can hold the ordinal. */
  function TagWidth(maxOrdinal: nat): Result<nat> {
    if maxOrdinal < 0x100 then Ok(1)
    else if maxOrdinal < 0x1_0000 then Ok(2)
    else if maxOrdinal < 0x1_0000_0000 then Ok(4)
    else if maxOrdinal < 0x1_0000_0000_0000_0000 then Ok(8)
    else Err(LoweringRequired)
  }

  function MaxSize(payloads: seq<Layout>): (r: nat)
    ensures forall l :: l in payloads ==> l.size <= r
  {
    if payloads == [] then 0
    else
      var n := |payloads| - 1;
      assert forall l :: l in payloads <==> l in payloads[..n] || l == payloads[n];
      Max(MaxSize(payloads[..n]), payloads[n].size)
  }

  function MaxAlign(payloads: seq<Layout>): (r: nat)
    ensures forall l :: l in payloads ==> l.align <= r
  {
    if payloads == [] then 0
    else
      var n := |payloads| - 1;
      assert forall l :: l in payloads <==> l in payloads[..n] || l == payloads[n];
      Max(MaxAlign(payloads[..n]), payloads[n].align)
  }

  /** The maxima are attained, each by some payload. */
  lemma {:induction false} MaximaAttained(payloads: seq<Layout>) returns (i: nat, j: nat)
    requires payloads != []
    ensures i < |payloads| && payloads[i].size == MaxSize(payloads)
    ensures j < |payloads| && payloads[j].align == MaxAlign(payloads)
  {
    var n := |payloads| - 1;
    i, j := n, n;
    if n > 0 {
      var i', j' := MaximaAttained(payloads[..n]);
      if payloads[n].size < payloads[i'].size {
        i := i';
      }
      if payloads[n].align < payloads[j'].align {
        j := j';
      }
    }
  }

  predicate Narrower(a: Layout, b: Layout) {
    a.size < b.size || (a.size == b.size && a.align < b.align)
  }

  /** The first payload that no other payload exceeds in size, then alignment. */
  function Widest(payloads: seq<Layout>): (r: Layout)
    requires payloads != []
    ensures r in payloads && forall l :: l in payloads ==> !Narrower(r, l)
  {
    var n := |payloads| - 1;
    if n == 0 then payloads[0]
    else
      var w := Widest(payloads[..n]);
      assert forall l :: l in payloads <==> l in payloads[..n] || l == payloads[n];
      if Narrower(w, payloads[n]) then payloads[n] else w
  }

  function Shift(offsets: seq<nat>, base: nat): seq<nat> {
    seq(|offsets|, i requires 0 <= i < |offsets| => base + offsets[i])
  }

  function ShiftAll(payloads: seq<Layout>, base: nat): seq<seq<nat>> {
    seq(|payloads|, i requires 0 <= i < |payloads| => Shift(payloads[i].offsets, base))
  }

  function EnumLayout(width: nat, payloads: seq<Layout>, payloadOffset: nat, align: nat, size: nat): Layout
    requires payloads != []
  {
    Layout(size, align, Shift(Widest(payloads).offsets, payloadOffset),
           Some(Tag(width, payloadOffset, ShiftAll(payloads, payloadOffset))))
  }

  function BoundedEnum(width: nat, payloads: seq<Layout>, maximum: int): Result<Layout> {
    if payloads == [] then Err(Malformed(VariantsMissing))
    else
      var payloadOffset :- AlignUp(width, MaxAlign(payloads), maximum);
      if payloadOffset > maximum - MaxSize(payloads) then Err(LoweringRequired)
      else SealEnum(width, payloads, payloadOffset, maximum)
  }

  function SealEnum(width: nat, payloads: seq<Layout>, payloadOffset: nat, maximum: int): Result<Layout>
    requires payloads != []
  {
    var align := Max(width, MaxAlign(payloads));
    var size :- AlignUp(payloadOffset + MaxSize(payloads), align, maximum);
    Ok(EnumLayout(width, payloads, payloadOffset, align, size))
  }

  // ----- the checker as written: recursion with loops -----

  method ComputeTypeLayout(m: Model, pointerBytes: nat, maximum: int) returns (r: Result<Layout>)
    ensures r == Bounded(m, pointerBytes, maximum)
    decreases Size(m), 2
  {
    match m
    case Scalar(name) =>
      var bytes := ScalarBytes(name, pointerBytes);
      r := if bytes.None? then Err(Malformed(UnknownScalar)) else Ok(Layout(bytes.value, bytes.value, [], None));
    case ArrayOf(element, count) =>
      var e := ComputeTypeLayout(element, pointerBytes, maximum);
      if e.Err? {
        return e;
      }
      if count.None? || count.value < 0 {
        return Err(Malformed(Count));
      }
      var stride := AlignUp(e.value.size, e.value.align, maximum);
      if stride.Err? {
        return Err(stride.error);
      }
      r := BoundedArray(stride.value, e.value.align, count.value, maximum);
    case Struct(fields) => r := ComputeRecord(fields, pointerBytes, maximum);
    case Tuple(elements) => r := ComputeRecord(elements, pointerBytes, maximum);
    case OptionOf(payload) =>
      if payload.None? {
        return Err(Malformed(PayloadMissing));
      }
      SizeVariantsPair(None, payload);
      r := ComputeTypeLayout(Enum([None, payload]), pointerBytes, maximum);
    case ResultOf(ok, error) =>
      if ok.None? || error.None? {
        return Err(Malformed(PayloadMissing));
      }
      SizeVariantsPair(ok, error);
      r := ComputeTypeLayout(Enum([ok, error]), pointerBytes, maximum);
    case Enum(variants) => r := ComputeEnum(variants, pointerBytes, maximum);
    case UnsupportedKind => r := Err(Malformed(Kind));
  }

  method ComputeRecord(fields: seq<Model>, pointerBytes: nat, maximum: int) returns (r: Result<Layout>)
    ensures r == BoundedRecord(fields, pointerBytes, maximum)
    decreases SizeAll(fields), 3
  {
    if fields == [] {
      return Err(Malformed(FieldsMissing));
    }
    if |fields| > FIELD_LIMIT {
      return Err(Malformed(FieldLimit));
    }
    var placed := Placement(0, 1, []);
    for i := 0 to |fields|
      invariant BoundedFields(fields[..i], pointerBytes, maximum) == Ok(placed)
    {
      assert fields[..i + 1][..i] == fields[..i];
      FieldSmaller(fields, i);
      var l := ComputeTypeLayout(fields[i], pointerBytes, maximum);
      if l.Err? {
        FailsEarly(fields, i + 1, pointerBytes, maximum);
        return Err(l.error);
      }
      var next := PlaceNext(placed, l.value, maximum);
      if next.Err? {
        FailsEarly(fields, i + 1, pointerBytes, maximum);
        return Err(next.error);
      }
      placed := next.value;
    }
    assert fields[..|fields|] == fields;
    var size := AlignUp(placed.offset, placed.align, maximum);
    r := if size.Err? then Err(size.error) else Ok(Layout(size.value, placed.align, placed.offsets, None));
  }

  /** One round of the field loop: align the running offset, record it, advance past the field. */
  method PlaceNext(p: Placement, l: Layout, maximum: int) returns (r: Result<Placement>)
    ensures r == PlaceField(p, l, maximum)
  {
    var aligned := AlignUp(p.offset, l.align, maximum);
    if aligned.Err? {
      return Err(aligned.error);
    }
    var offset := aligned.value;
    var offsets := p.offsets + [offset];
    if offset > maximum - l.size {
      return Err(LoweringRequired);
    }
    offset := offset + l.size;
    var align := Max(p.align, l.align);
    r := Ok(Placement(offset, align, offsets));
  }

  method ComputeEnum(variants: seq<Option<Model>>, pointerBytes: nat, maximum: int) returns (r: Result<Layout>)
    ensures r == Bounded(Enum(variants), pointerBytes, maximum)
    decreases SizeVariants(variants), 3
  {
    if variants == [] {
      return Err(Malformed(VariantsMissing));
    }
    if |variants| > FIELD_LIMIT {
      return Err(Malformed(VariantLimit));
    }
    var width := TagWidth(|variants| - 1);
    if width.Err? {
      return Err(width.error);
    }
    var payloads: seq<Layout> := [];
    for i := 0 to |variants|
      invariant BoundedVariants(variants[..i], pointerBytes, maximum) == Ok(payloads)
    {
      assert variants[..i + 1][..i] == variants[..i];
      var l: Result<Layout> := Ok(Layout(0, 1, [], None));
      if variants[i].Some? {
        VariantSmaller(variants, i);
        l := ComputeTypeLayout(variants[i].value, pointerBytes, maximum);
      }
      if l.Err? {
        VariantFailsEarly(variants, i + 1, pointerBytes, maximum);
        return Err(l.error);
      }
      payloads := payloads + [l.value];
    }
    assert variants[..|variants|] == variants;
    r := BoundedEnum(width.value, payloads, maximum);
  }

  lemma {:induction false} FieldSmaller(fields: seq<Model>, i: nat)
    requires i < |fields|
    ensures Size(fields[i]) < SizeAll(fields)
  {
    if i < |fields| - 1 {
      FieldSmaller(fields[..|fields| - 1], i);
    }
  }

  lemma {:induction false} VariantSmaller(variants: seq<Option<Model>>, i: nat)
    requires i < |variants|
    ensures SizeOption(variants[i]) < SizeVariants(variants)
  {
    if i < |variants| - 1 {
      VariantSmaller(variants[..|variants| - 1], i);
    }
  }

  /** An error in a prefix is the error of the whole. */
  lemma {:induction false} FailsEarly(fields: seq<Model>, i: nat, pointerBytes: nat, maximum: int)
    requires i <= |fields| && BoundedFields(fields[..i], pointerBytes, maximum).Err?
    ensures BoundedFields(fields, pointerBytes, maximum) == BoundedFields(fields[..i], pointerBytes, maximum)
  {
    if i < |fields| {
      var front := fields[..|fields| - 1];
      assert front[..i] == fields[..i];
      FailsEarly(front, i, pointerBytes, maximum);
    } else {
      assert fields[..i] == fields;
    }
  }

  lemma {:induction false} VariantFailsEarly(variants: seq<Option<Model>>, i: nat, pointerBytes: nat, maximum: int)
    requires i <= |variants| && BoundedVariants(variants[..i], pointerBytes, maximum).Err?
    ensures BoundedVariants(variants, pointerBytes, maximum) == BoundedVariants(variants[..i], pointerBytes, maximum)
  {
    if i < |variants| {
      var front := variants[..|variants| - 1];
      assert front[..i] == variants[..i];
      VariantFailsEarly(front, i, pointerBytes, maximum);
    } else {
      assert variants[..i] == variants;
    }
  }
}
