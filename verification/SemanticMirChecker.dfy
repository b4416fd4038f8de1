/**
 The Semantic MIR v1 checker itself: loops over blocks and instructions that decide the
 checks stated in SemanticMir.
 */
module SemanticMirChecker {
  import opened Basics
  import opened SemanticMir
  import opened SemanticMirRules

  ghost predicate JumpsBackBefore(f: Function, n: nat) {
    n > 0 && (JumpsBackBefore(f, n - 1) || JumpsBack(f, n - 1))
  }

  lemma {:induction false} BackEdgeFound(f: Function, n: nat)
    ensures JumpsBackBefore(f, n) <==> exists from: nat, to: nat :: from < n && BackEdge(f, from, to)
  {
    if n == 0 {
    } else {
      BackEdgeFound(f, n - 1);
    }
  }

  ghost predicate JumpsBack(f: Function, from: nat) {
    exists to :: BackEdge(f, from, to)
  }

  datatype Complaint =
    | OperandUnavailable | ResultMissing | PlaceUndeclared | PlaceBaseUnavailable | MutabilityMissing
    | RegionUndeclared | StoreEmpty | CalleeMissing | EffectsMissing | CapabilityMissing | ScopeUndeclared

  datatype Reason =
    | DuplicateBlocks
    | DuplicateDeclarations
    | PlaceBaseUndeclared
    | CleanupActionUndeclared
    | AtInstruction(block: nat, pc: nat, complaint: Complaint)
    | AtTerminator(block: nat)
    | FeatureEvidence
    | LoopWithoutBackEdge

  datatype Outcome = Accepted | Rejected(reason: Reason)

  /** What each complaint says is wrong with an instruction. */
  ghost predicate Lacks(f: Function, i: Instruction, available: set<Id>, complaint: Complaint) {
    match complaint
    case OperandUnavailable => exists k :: 0 <= k < |i.operands| && i.operands[k] !in available
    case ResultMissing =>
      i.result.None? && i.op in {Const, Copy, Move, Borrow, Load, Aggregate, Binary, Cast, Await}
    case PlaceUndeclared => i.op in {Load, Store, Borrow} && (i.place.None? || !NamesPlace(f, i.place.value))
    case PlaceBaseUnavailable =>
      && i.op in {Load, Store, Borrow} && i.place.Some?
      && exists k :: Designates(f.places, i.place.value, k) && f.places[k].base !in available
    case MutabilityMissing => i.op == Borrow && (i.mutability.None? || |i.mutability.value| == 0)
    case RegionUndeclared => i.op == Borrow && (i.region.None? || !NamesScope(f, i.region.value))
    case StoreEmpty => i.op == Store && |i.operands| == 0
    case CalleeMissing => i.op in {Call, CapabilityCall} && (i.callee.None? || |i.callee.value| == 0)
    case EffectsMissing => i.op in {Call, CapabilityCall} && (i.effects.None? || |i.effects.value| == 0)
    case CapabilityMissing => i.op == CapabilityCall && (i.capability.None? || |i.capability.value| == 0)
    case ScopeUndeclared => i.op == DeferScope && (i.cleanupScope.None? || !NamesScope(f, i.cleanupScope.value))
  }

  /** The place of each requirement in the order they are checked. */
  function Test(c: Complaint): nat {
    match c
    case OperandUnavailable => 0
    case ResultMissing => 1
    case PlaceUndeclared => 2
    case PlaceBaseUnavailable => 3
    case MutabilityMissing => 4
    case RegionUndeclared => 5
    case StoreEmpty => 6
    case CalleeMissing => 7
    case EffectsMissing => 8
    case CapabilityMissing => 9
    case ScopeUndeclared => 10
  }

  /** The first requirement an instruction fails, in the order they are checked. */
  function Complain(f: Function, i: Instruction, available: set<Id>): (r: Option<Complaint>)
    ensures r.None? <==> Executable(f, i, available)
  {
    var places, scopes := PlaceMap(f.places), ScopeMap(f.cleanupScopes);
    if !Subset(i.operands, available) then Some(OperandUnavailable)
    else if NeedsResult(i.op) && i.result.None? then Some(ResultMissing)
    else if UsesPlace(i.op) && (i.place.None? || i.place.value !in places) then Some(PlaceUndeclared)
    else if UsesPlace(i.op) && places[i.place.value] !in available then Some(PlaceBaseUnavailable)
    else if i.op == Borrow && !Present(i.mutability) then Some(MutabilityMissing)
    else if i.op == Borrow && (i.region.None? || i.region.value !in scopes) then Some(RegionUndeclared)
    else if i.op == Store && i.operands == [] then Some(StoreEmpty)
    else if i.op in {Call, CapabilityCall} && !Present(i.callee) then Some(CalleeMissing)
    else if i.op in {Call, CapabilityCall} && !Present(i.effects) then Some(EffectsMissing)
    else if i.op == CapabilityCall && !Present(i.capability) then Some(CapabilityMissing)
    else if i.op == DeferScope && (i.cleanupScope.None? || i.cleanupScope.value !in scopes) then Some(ScopeUndeclared)
    else None
  }

  /** A complaint names something the instruction lacks, and nothing that is checked earlier is lacking. */
  ghost predicate FirstLack(f: Function, i: Instruction, available: set<Id>, complaint: Complaint) {
    && Lacks(f, i, available, complaint)
    && forall earlier: Complaint :: Test(earlier) < Test(complaint) ==> !Lacks(f, i, available, earlier)
  }

  lemma ReferencesMean(f: Function, i: Instruction, available: set<Id>)
    ensures !Subset(i.operands, available) <==> Lacks(f, i, available, OperandUnavailable)
    ensures i.place.Some? ==> (i.place.value in PlaceMap(f.places) <==> NamesPlace(f, i.place.value))
    ensures i.region.Some? ==> (i.region.value in ScopeMap(f.cleanupScopes) <==> NamesScope(f, i.region.value))
    ensures i.cleanupScope.Some? ==>
              (i.cleanupScope.value in ScopeMap(f.cleanupScopes) <==> NamesScope(f, i.cleanupScope.value))
  {
    if i.place.Some? {
      PlaceMapHolds(f.places, i.place.value);
    }
    if i.region.Some? {
      ScopeMapMeans(f.cleanupScopes, i.region.value);
    }
    if i.cleanupScope.Some? {
      ScopeMapMeans(f.cleanupScopes, i.cleanupScope.value);
    }
  }

  lemma BaseMeans(f: Function, i: Instruction, available: set<Id>)
    requires i.place.Some? && i.place.value in PlaceMap(f.places) && i.op in {Load, Store, Borrow}
    ensures PlaceMap(f.places)[i.place.value] !in available <==> Lacks(f, i, available, PlaceBaseUnavailable)
  {
    var k := PlaceMapMeans(f.places, i.place.value);
    assert forall j :: Designates(f.places, i.place.value, j) ==> j == k;
  }

  /** Nothing is lacking that is tested before the complaint, or at all when there is none. */
  lemma LacksBefore(f: Function, i: Instruction, available: set<Id>, d: Complaint)
    requires Complain(f, i, available).Some? ==> Test(d) < Test(Complain(f, i, available).value)
    ensures !Lacks(f, i, available, d)
  {
    ReferencesMean(f, i, available);
    if i.place.Some? && i.place.value in PlaceMap(f.places) && i.op in {Load, Store, Borrow} {
      BaseMeans(f, i, available);
    }
  }

  lemma LacksIt(f: Function, i: Instruction, available: set<Id>)
    requires Complain(f, i, available).Some?
    ensures Lacks(f, i, available, Complain(f, i, available).value)
  {
    ReferencesMean(f, i, available);
    if i.place.Some? && i.place.value in PlaceMap(f.places) && i.op in {Load, Store, Borrow} {
      BaseMeans(f, i, available);
    }
  }

  /** The complaint is the first requirement that is not met, and there is one unless all are met. */
  lemma ComplainMeans(f: Function, i: Instruction, available: set<Id>)
    ensures Complain(f, i, available).Some? ==> FirstLack(f, i, available, Complain(f, i, available).value)
    ensures Complain(f, i, available).None? ==> forall c: Complaint :: !Lacks(f, i, available, c)
  {
    var r := Complain(f, i, available);
    if r.Some? {
      LacksIt(f, i, available);
    }
    forall c: Complaint | r.None? || Test(c) < Test(r.value) ensures !Lacks(f, i, available, c) {
      LacksBefore(f, i, available, c);
    }
  }

  /** The reason names something that is really wrong. */
  ghost predicate Justified(f: Function, features: set<string>, reason: Reason) {
    match reason
    case DuplicateBlocks => exists i, j :: 0 <= i < j < |f.blocks| && f.blocks[i].id == f.blocks[j].id
    case DuplicateDeclarations => !DeclarationsUnique(f)
    case PlaceBaseUndeclared => exists id :: id in PlaceMap(f.places) && PlaceMap(f.places)[id] !in Types(f)
    case CleanupActionUndeclared =>
      exists id, action ::
        id in ScopeMap(f.cleanupScopes) && action in ScopeMap(f.cleanupScopes)[id] && !DeclaresInstruction(f, action)
    case AtInstruction(b, pc, complaint) =>
      b < |f.blocks| && pc < |f.blocks[b].instructions| &&
      FirstLack(f, f.blocks[b].instructions[pc], Available(f.blocks[b], pc), complaint)
    case AtTerminator(b) =>
      b < |f.blocks| && !(TerminatorSafe(f, f.blocks[b]) && TerminatorTidy(f, f.blocks[b].terminator))
    case FeatureEvidence => BlocksFeatures(f.blocks) != features
    case LoopWithoutBackEdge => "loop" in features && !HasBackEdge(f)
  }

  function IdsOf(declarations: seq<Declaration>): seq<Id> {
    seq(|declarations|, i requires 0 <= i < |declarations| => declarations[i].id)
  }

  lemma {:induction false} DistinctByCount<T>(s: seq<T>)
    ensures |set x | x in s| <= |s|
    ensures |set x | x in s| == |s| <==> Distinct(s)
  {
    if s == [] {
    } else {
      var n := |s| - 1;
      var front, last := s[..n], s[n];
      DistinctByCount(front);
      assert (set x | x in s) == (set x | x in front) + {last};
      if last in front {
        assert (set x | x in s) == (set x | x in front);
        var i :| 0 <= i < n && front[i] == last;
        assert s[i] == s[n];
      } else {
        assert Distinct(front) ==> Distinct(s);
      }
    }
  }

  method Keys<K, V>(m: map<K, V>) returns (keys: seq<K>)
    ensures Distinct(keys)
    ensures forall k :: k in keys <==> k in m
  {
    keys := [];
    var rest := m.Keys;
    while rest != {}
      invariant rest <= m.Keys && Distinct(keys)
      invariant forall k :: k in keys <==> k in m && k !in rest
    {
      var k := PickAny(rest);
      assert k !in keys;
      keys := keys + [k];
      rest := rest - {k};
    }
  }

  lemma DistinctConcat<T>(a: seq<T>, b: seq<T>)
    ensures Distinct(a + b) <==> Distinct(a) && Distinct(b) && forall x :: x in a ==> x !in b
  {
    var c := a + b;
    if Distinct(c) {
      forall i, j | 0 <= i < |a| && 0 <= j < |b| ensures a[i] != b[j] {
        assert c[i] == a[i] && c[|a| + j] == b[j];
      }
      forall i, j | 0 <= i < j < |b| ensures b[i] != b[j] {
        assert c[|a| + i] == b[i] && c[|a| + j] == b[j];
      }
      forall i, j | 0 <= i < j < |a| ensures a[i] != a[j] {
        assert c[i] == a[i] && c[j] == a[j];
      }
    } else if Distinct(a) && Distinct(b) {
      var i, j :| 0 <= i < j < |c| && c[i] == c[j];
      assert i < |a| <= j;
      assert c[i] in a && c[j] in b;
    }
  }

  lemma IdsDistinct(declarations: seq<Declaration>)
    ensures Distinct(IdsOf(declarations)) <==> DistinctIds(declarations)
    ensures forall id :: id in IdsOf(declarations) <==> Names(declarations, id)
  {
    var ids := IdsOf(declarations);
    assert forall i :: 0 <= i < |ids| ==> ids[i] == declarations[i].id;
    forall id ensures id in ids <==> Names(declarations, id) {
      if id in ids {
        var i :| 0 <= i < |ids| && ids[i] == id;
        assert declarations[i] in declarations;
      }
      if Names(declarations, id) {
        var d :| d in declarations && d.id == id;
        var i :| 0 <= i < |declarations| && declarations[i] == d;
        assert ids[i] == id;
      }
    }
  }

  lemma Recorded(seen: seq<Declaration>, d: Declaration)
    ensures IdsOf(seen + [d]) == IdsOf(seen) + [d.id]
    ensures TypesOf(seen + [d]) == if d.Valued? then TypesOf(seen)[d.id := d.ty] else TypesOf(seen)
  {
    assert (seen + [d])[..|seen|] == seen;
  }

  lemma NextParameter(seen: seq<Declaration>, parameters: seq<Typed>, i: nat)
    requires i < |parameters|
    ensures seen + ParameterDeclarations(parameters[..i + 1]) ==
            seen + ParameterDeclarations(parameters[..i]) + [Valued(parameters[i].id, parameters[i].ty)]
  {
  }

  method CollectParameters(parameters: seq<Typed>, ids: seq<Id>, values: map<Id, string>, ghost seen: seq<Declaration>)
    returns (ids': seq<Id>, values': map<Id, string>)
    requires ids == IdsOf(seen) && values == TypesOf(seen)
    ensures ids' == IdsOf(seen + ParameterDeclarations(parameters))
    ensures values' == TypesOf(seen + ParameterDeclarations(parameters))
  {
    ids', values' := ids, values;
    ghost var now := seen;
    for i := 0 to |parameters|
      invariant now == seen + ParameterDeclarations(parameters[..i])
      invariant ids' == IdsOf(now) && values' == TypesOf(now)
    {
      var p := parameters[i];
      Recorded(now, Valued(p.id, p.ty));
      NextParameter(seen, parameters, i);
      values', ids', now := values'[p.id := p.ty], ids' + [p.id], now + [Valued(p.id, p.ty)];
    }
    assert parameters[..|parameters|] == parameters;
  }

  lemma NextInstruction(seen: seq<Declaration>, instructions: seq<Instruction>, i: nat)
    requires i < |instructions|
    ensures var r := instructions[i].result;
            seen + InstructionDeclarations(instructions[..i + 1]) ==
            seen + InstructionDeclarations(instructions[..i]) + [Named(instructions[i].id)] +
            if r.Some? then [Valued(r.value.id, r.value.ty)] else []
  {
    assert instructions[..i + 1][..i] == instructions[..i];
  }

  method CollectInstructions(
    instructions: seq<Instruction>, ids: seq<Id>, values: map<Id, string>, ghost seen: seq<Declaration>)
    returns (ids': seq<Id>, values': map<Id, string>)
    requires ids == IdsOf(seen) && values == TypesOf(seen)
    ensures ids' == IdsOf(seen + InstructionDeclarations(instructions))
    ensures values' == TypesOf(seen + InstructionDeclarations(instructions))
  {
    ids', values' := ids, values;
    ghost var now := seen;
    for i := 0 to |instructions|
      invariant now == seen + InstructionDeclarations(instructions[..i])
      invariant ids' == IdsOf(now) && values' == TypesOf(now)
    {
      var instruction := instructions[i];
      NextInstruction(seen, instructions, i);
      Recorded(now, Named(instruction.id));
      ids', now := ids' + [instruction.id], now + [Named(instruction.id)];
      if instruction.result.Some? {
        var r := instruction.result.value;
        Recorded(now, Valued(r.id, r.ty));
        values', ids', now := values'[r.id := r.ty], ids' + [r.id], now + [Valued(r.id, r.ty)];
      }
    }
    assert instructions[..|instructions|] == instructions;
  }

  method CollectBlock(block: Block, ids: seq<Id>, values: map<Id, string>, ghost seen: seq<Declaration>)
    returns (ids': seq<Id>, values': map<Id, string>)
    requires ids == IdsOf(seen) && values == TypesOf(seen)
    ensures ids' == IdsOf(seen + BlockDeclarations(block))
    ensures values' == TypesOf(seen + BlockDeclarations(block))
  {
    Recorded(seen, Named(block.id));
    ids' := ids + [block.id];
    ghost var now := seen + [Named(block.id)];
    ids', values' := CollectParameters(block.parameters, ids', values, now);
    now := now + ParameterDeclarations(block.parameters);
    ids', values' := CollectInstructions(block.instructions, ids', values', now);
    assert now + InstructionDeclarations(block.instructions) == seen + BlockDeclarations(block);
  }

  lemma BlocksSnoc(f: Function, b: nat)
    requires b < |f.blocks|
    ensures [Named(f.id)] + BlocksDeclarations(f.blocks[..b]) + BlockDeclarations(f.blocks[b]) ==
            [Named(f.id)] + BlocksDeclarations(f.blocks[..b + 1])
  {
    assert f.blocks[..b + 1][..b] == f.blocks[..b];
  }

  method CollectDeclarations(f: Function) returns (ids: seq<Id>, values: map<Id, string>)
    ensures ids == IdsOf(Declarations(f)) && values == Types(f)
  {
    ids, values := [f.id], map[];
    ghost var seen := [Named(f.id)];
    assert seen == [Named(f.id)] + BlocksDeclarations(f.blocks[..0]);
    for b := 0 to |f.blocks|
      invariant seen == [Named(f.id)] + BlocksDeclarations(f.blocks[..b])
      invariant ids == IdsOf(seen) && values == TypesOf(seen)
    {
      ids, values := CollectBlock(f.blocks[b], ids, values, seen);
      seen := seen + BlockDeclarations(f.blocks[b]);
      BlocksSnoc(f, b);
    }
    assert f.blocks[..|f.blocks|] == f.blocks;
  }

  /** The uniqueness test: all declared identifiers, with the place and scope keys appended. */
  method CheckDeclarations(f: Function, ids: seq<Id>) returns (ok: bool)
    requires ids == IdsOf(Declarations(f))
    ensures ok <==> DeclarationsUnique(f)
  {
    var places := Keys(PlaceMap(f.places));
    var scopes := Keys(ScopeMap(f.cleanupScopes));
    var all := ids + places + scopes;
    ok := |all| == |set id | id in all|;
    DistinctByCount(all);
    DistinctConcat(ids + places, scopes);
    DistinctConcat(ids, places);
    IdsDistinct(Declarations(f));
  }

  /** `block_by_id` and `block_order` in one map; a later block replaces an earlier one. */
  method IndexBlocks(blocks: seq<Block>) returns (order: map<Id, nat>)
    ensures forall id :: id in order <==> exists b :: b in blocks && b.id == id
    ensures forall id :: id in order ==> order[id] < |blocks| && blocks[order[id]].id == id
    ensures |order| == |blocks| <==> forall i, j :: 0 <= i < j < |blocks| ==> blocks[i].id != blocks[j].id
  {
    order := map[];
    for b := 0 to |blocks|
      invariant forall id :: id in order <==> exists k :: 0 <= k < b && blocks[k].id == id
      invariant forall id :: id in order ==> order[id] < b && blocks[order[id]].id == id
    {
      order := order[blocks[b].id := b];
    }
    IndexCounts(blocks, order);
  }

  lemma IndexCounts(blocks: seq<Block>, order: map<Id, nat>)
    requires forall id :: id in order <==> exists k :: 0 <= k < |blocks| && blocks[k].id == id
    ensures |order| == |blocks| <==> forall i, j :: 0 <= i < j < |blocks| ==> blocks[i].id != blocks[j].id
  {
    var ids := seq(|blocks|, i requires 0 <= i < |blocks| => blocks[i].id);
    DistinctByCount(ids);
    assert forall i :: 0 <= i < |ids| ==> ids[i] == blocks[i].id;
    assert order.Keys == set id | id in ids;
    assert |order| == |order.Keys|;
  }

  lemma {:induction false} AvailableTyped(f: Function, block: Block, pc: nat)
    requires DistinctIds(Declarations(f)) && block in f.blocks && pc <= |block.instructions|
    ensures forall id :: id in Available(block, pc) ==> id in Types(f)
    decreases pc
  {
    if pc == 0 {
      forall p | p in block.parameters ensures p.id in Types(f) {
        ParameterType(f, block, p);
      }
    } else {
      AvailableTyped(f, block, pc - 1);
      if block.instructions[pc - 1].result.Some? {
        ResultType(f, block, block.instructions[pc - 1]);
      }
    }
  }

  method CheckSuccessor(f: Function, s: Successor, available: set<Id>, order: map<Id, nat>, values: map<Id, string>)
    returns (ok: bool)
    requires values == Types(f) && forall id :: id in available ==> id in values
    requires Indexes(order, f.blocks)
    ensures ok <==> Fits(f, available, s)
    ensures ok ==> s.target in order
  {
    ok := false;
    if s.target !in order {
      return;
    }
    var k := order[s.target];
    var parameters := f.blocks[k].parameters;
    assert forall j: nat :: SuccessorFits(f, available, s, j) ==> j == k;
    if |s.arguments| != |parameters| || !Subset(s.arguments, available) {
      return;
    }
    for i := 0 to |s.arguments|
      invariant forall j :: 0 <= j < i ==> s.arguments[j] in values && values[s.arguments[j]] == parameters[j].ty
    {
      assert s.arguments[i] in s.arguments;
      if values[s.arguments[i]] != parameters[i].ty {
        return;
      }
    }
    assert SuccessorFits(f, available, s, k);
    ok := true;
  }

  /** What the block loop has learnt so far: features seen and whether a jump went back. */
  datatype Observations = Observations(features: set<string>, backEdge: bool)

  ghost predicate Indexes(order: map<Id, nat>, blocks: seq<Block>) {
    && (forall id :: id in order <==> exists b :: b in blocks && b.id == id)
    && (forall id :: id in order ==> order[id] < |blocks| && blocks[order[id]].id == id)
    && (forall i, j :: 0 <= i < j < |blocks| ==> blocks[i].id != blocks[j].id)
  }

  /** The successor names block `b` itself or an earlier one. */
  ghost predicate Backwards(f: Function, b: nat, s: Successor)
    requires b < |f.blocks|
  {
    exists to :: 0 <= to <= b && f.blocks[to].id == s.target
  }

  lemma TargetBackwards(f: Function, b: nat, order: map<Id, nat>, s: Successor)
    requires b < |f.blocks| && Indexes(order, f.blocks) && s.target in order
    ensures order[s.target] <= b <==> Backwards(f, b, s)
  {
  }

  lemma BackwardsMeans(f: Function, b: nat)
    requires b < |f.blocks|
    ensures var successors := f.blocks[b].terminator.successors;
            (exists j :: 0 <= j < |successors| && Backwards(f, b, successors[j])) <==> JumpsBack(f, b)
  {
    var successors := f.blocks[b].terminator.successors;
    if j :| 0 <= j < |successors| && Backwards(f, b, successors[j]) {
      var to :| 0 <= to <= b && f.blocks[to].id == successors[j].target;
      assert successors[j] in successors;
      assert BackEdge(f, b, to);
    }
    if JumpsBack(f, b) {
      var to: nat :| BackEdge(f, b, to);
      var s :| s in successors && s.target == f.blocks[to].id;
      var j :| 0 <= j < |successors| && successors[j] == s;
      assert Backwards(f, b, successors[j]);
    }
  }

  method CheckSuccessors(
    f: Function, b: nat, available: set<Id>, order: map<Id, nat>, values: map<Id, string>)
    returns (ok: bool, backEdge: bool)
    requires b < |f.blocks| && Indexes(order, f.blocks)
    requires values == Types(f) && forall id :: id in available ==> id in values
    ensures ok <==> forall s :: s in f.blocks[b].terminator.successors ==> Fits(f, available, s)
    ensures ok ==> (backEdge <==> JumpsBack(f, b))
  {
    var successors := f.blocks[b].terminator.successors;
    ok, backEdge := true, false;
    for i := 0 to |successors|
      invariant forall j :: 0 <= j < i ==> Fits(f, available, successors[j])
      invariant backEdge <==> exists j :: 0 <= j < i && Backwards(f, b, successors[j])
    {
      ok := CheckSuccessor(f, successors[i], available, order, values);
      if !ok {
        assert successors[i] in successors;
        return;
      }
      TargetBackwards(f, b, order, successors[i]);
      if order[successors[i].target] <= b {
        backEdge := true;
      }
    }
    BackwardsMeans(f, b);
  }

  method CheckTerminator(
    f: Function, b: nat, available: set<Id>, order: map<Id, nat>, values: map<Id, string>)
    returns (ok: bool, backEdge: bool)
    requires b < |f.blocks| && Indexes(order, f.blocks)
    requires available == Available(f.blocks[b], |f.blocks[b].instructions|)
    requires values == Types(f) && forall id :: id in available ==> id in values
    ensures ok <==> TerminatorSafe(f, f.blocks[b]) && TerminatorTidy(f, f.blocks[b].terminator)
    ensures ok ==> (backEdge <==> JumpsBack(f, b))
  {
    var t := f.blocks[b].terminator;
    ok, backEdge := false, false;
    if !Subset(t.operands, available) {
      return;
    }
    var minimum := MinimumSuccessors(t.op);
    if (if minimum == 0 then t.successors != [] else |t.successors| < minimum) {
      return;
    }
    ok, backEdge := CheckSuccessors(f, b, available, order, values);
    if ok {
      ok := forall scope :: scope in t.cleanupScopes ==> scope in ScopeMap(f.cleanupScopes);
    }
  }

  ghost predicate SafeUpTo(f: Function, block: Block, n: nat)
    requires n <= |block.instructions|
  {
    n == 0 || (SafeUpTo(f, block, n - 1) && ExecutableAt(f, block, n - 1))
  }

  lemma {:induction false} SafeUpToAll(f: Function, block: Block, n: nat)
    requires n <= |block.instructions|
    ensures SafeUpTo(f, block, n) <==> forall pc :: 0 <= pc < n ==> ExecutableAt(f, block, pc)
  {
    if n == 0 {
    } else {
      SafeUpToAll(f, block, n - 1);
    }
  }

  /** Instruction `pc` of block `b` is the first that is not executable. */
  ghost predicate FirstDefect(f: Function, b: nat, pc: nat) {
    && b < |f.blocks| && pc < |f.blocks[b].instructions|
    && !ExecutableAt(f, f.blocks[b], pc)
    && forall earlier :: 0 <= earlier < pc ==> ExecutableAt(f, f.blocks[b], earlier)
  }

  /** Walks one block, growing the set of available values. */
  method CheckInstructions(f: Function, b: nat, ghost features: set<string>)
    returns (failure: Option<Reason>, available: set<Id>, observed: set<string>)
    requires b < |f.blocks|
    ensures failure.None? ==>
            forall pc :: 0 <= pc < |f.blocks[b].instructions| ==> ExecutableAt(f, f.blocks[b], pc)
    ensures failure.Some? ==> !BlockSafe(f, f.blocks[b]) && Justified(f, features, failure.value)
    ensures failure.Some? ==> failure.value.AtInstruction? && FirstDefect(f, b, failure.value.pc)
    ensures failure.None? ==> available == Available(f.blocks[b], |f.blocks[b].instructions|)
    ensures failure.None? ==> observed == InstructionFeatures(f.blocks[b].instructions)
  {
    var block := f.blocks[b];
    failure, observed := None, {};
    available := set p | p in block.parameters :: p.id;
    for pc := 0 to |block.instructions|
      invariant available == Available(block, pc)
      invariant SafeUpTo(f, block, pc)
      invariant observed == InstructionFeatures(block.instructions[..pc])
    {
      var complaint := Complain(f, block.instructions[pc], available);
      if complaint.Some? {
        assert !ExecutableAt(f, block, pc);
        SafeUpToAll(f, block, pc);
        ComplainMeans(f, block.instructions[pc], available);
        failure := Some(AtInstruction(b, pc, complaint.value));
        return;
      }
      assert block.instructions[..pc + 1][..pc] == block.instructions[..pc];
      available := available + ResultIds(block.instructions[pc]);
      observed := observed + set x | x in block.instructions[pc].features;
    }
    assert block.instructions[..|block.instructions|] == block.instructions;
    SafeUpToAll(f, block, |block.instructions|);
  }

  method CheckBlock(f: Function, b: nat, order: map<Id, nat>, values: map<Id, string>, ghost features: set<string>)
    returns (failure: Option<Reason>, seen: Observations)
    requires b < |f.blocks| && Indexes(order, f.blocks) && DistinctIds(Declarations(f)) && values == Types(f)
    ensures failure.None? <==> BlockGood(f, f.blocks[b])
    ensures failure.Some? ==> Justified(f, features, failure.value)
    ensures failure.None? ==> seen.features == BlockFeatures(f.blocks[b])
    ensures failure.None? ==> (seen.backEdge <==> JumpsBack(f, b))
  {
    var available, observed;
    failure, available, observed := CheckInstructions(f, b, features);
    seen := Observations(observed, false);
    if failure.Some? {
      return;
    }
    AvailableTyped(f, f.blocks[b], |f.blocks[b].instructions|);
    var ok, backEdge := CheckTerminator(f, b, available, order, values);
    if !ok {
      failure := Some(AtTerminator(b));
      return;
    }
    seen := Observations(observed + (set x | x in f.blocks[b].terminator.features), backEdge);
  }

  ghost predicate BlockGood(f: Function, block: Block) {
    BlockSafe(f, block) && TerminatorTidy(f, block.terminator)
  }

  ghost predicate BlocksGood(f: Function, blocks: seq<Block>) {
    blocks == [] || (BlocksGood(f, blocks[..|blocks| - 1]) && BlockGood(f, blocks[|blocks| - 1]))
  }

  lemma {:induction false} BlocksGoodAll(f: Function, blocks: seq<Block>, block: Block)
    requires block in blocks
    ensures BlocksGood(f, blocks) ==> BlockGood(f, block)
  {
    var n := |blocks| - 1;
    if block != blocks[n] {
      assert block in blocks[..n];
      BlocksGoodAll(f, blocks[..n], block);
    }
  }

  lemma GoodMeansSafe(f: Function)
    ensures BlocksGood(f, f.blocks) <==>
            Safe(f) && forall block :: block in f.blocks ==> TerminatorTidy(f, block.terminator)
  {
    if BlocksGood(f, f.blocks) {
      forall block | block in f.blocks ensures BlockSafe(f, block) && TerminatorTidy(f, block.terminator) {
        BlocksGoodAll(f, f.blocks, block);
      }
    } else {
      var block := SomeBad(f, f.blocks);
      assert !BlockGood(f, block);
    }
  }

  lemma {:induction false} SomeBad(f: Function, blocks: seq<Block>) returns (block: Block)
    requires !BlocksGood(f, blocks)
    ensures block in blocks && !BlockGood(f, block)
  {
    var n := |blocks| - 1;
    if BlockGood(f, blocks[n]) {
      block := SomeBad(f, blocks[..n]);
    } else {
      block := blocks[n];
    }
  }

  method CheckBlocks(f: Function, order: map<Id, nat>, values: map<Id, string>, ghost features: set<string>)
    returns (failure: Option<Reason>, seen: Observations)
    requires Indexes(order, f.blocks) && DistinctIds(Declarations(f)) && values == Types(f)
    ensures failure.None? <==> BlocksGood(f, f.blocks)
    ensures failure.Some? ==> Justified(f, features, failure.value)
    ensures failure.None? ==> seen.features == BlocksFeatures(f.blocks) && (seen.backEdge <==> HasBackEdge(f))
  {
    failure, seen := None, Observations({}, false);
    for b := 0 to |f.blocks|
      invariant failure.None? && BlocksGood(f, f.blocks[..b])
      invariant seen.features == BlocksFeatures(f.blocks[..b])
      invariant seen.backEdge <==> JumpsBackBefore(f, b)
    {
      var here;
      failure, here := CheckBlock(f, b, order, values, features);
      if failure.Some? {
        BlocksGoodAll(f, f.blocks, f.blocks[b]);
        return;
      }
      assert f.blocks[..b + 1][..b] == f.blocks[..b];
      seen := Observations(seen.features + here.features, seen.backEdge || here.backEdge);
    }
    assert f.blocks[..|f.blocks|] == f.blocks;
    BackEdgeFound(f, |f.blocks|);
  }

  /** Accepts exactly the acceptable functions, and blames a real defect otherwise. */
  method ValidateExecutableFunction(f: Function, features: set<string>) returns (r: Outcome)
    ensures r.Accepted? <==> Acceptable(f, features)
    ensures r.Accepted? <==> Conforms(f, features)
    ensures r.Rejected? ==> Justified(f, features, r.reason)
  {
    AcceptableIffConforms(f, features);
    var order := IndexBlocks(f.blocks);
    if |order| != |f.blocks| {
      DuplicateBlocksRejected(f);
      return Rejected(DuplicateBlocks);
    }
    var ids, values := CollectDeclarations(f);
    var unique := CheckDeclarations(f, ids);
    if !unique {
      return Rejected(DuplicateDeclarations);
    }
    var reason := CheckReferences(f, values, features);
    if reason.Some? {
      return Rejected(reason.value);
    }
    var failure, seen := CheckBlocks(f, order, values, features);
    GoodMeansSafe(f);
    if failure.Some? {
      return Rejected(failure.value);
    }
    var gap := CheckFeatures(f, seen, features);
    r := if gap.Some? then Rejected(gap.value) else Accepted;
  }

  method CheckFeatures(f: Function, seen: Observations, features: set<string>) returns (reason: Option<Reason>)
    requires seen.features == BlocksFeatures(f.blocks) && (seen.backEdge <==> HasBackEdge(f))
    ensures reason.None? <==> FeaturesCovered(f, features)
    ensures reason.Some? ==> Justified(f, features, reason.value)
  {
    if seen.features != features {
      return Some(FeatureEvidence);
    }
    if "loop" in features && !seen.backEdge {
      return Some(LoopWithoutBackEdge);
    }
    reason := None;
  }

  lemma DuplicateBlocksRejected(f: Function)
    requires exists i, j :: 0 <= i < j < |f.blocks| && f.blocks[i].id == f.blocks[j].id
    ensures !DeclarationsUnique(f)
  {
    var i, j :| 0 <= i < j < |f.blocks| && f.blocks[i].id == f.blocks[j].id;
    if DeclarationsUnique(f) {
      var all := Declarations(f);
      assert forall a :: 0 <= a < |BlocksDeclarations(f.blocks)| ==> all[a + 1] == BlocksDeclarations(f.blocks)[a];
      BlockIndexUnique(f.blocks, i, j);
    }
  }

  method CheckReferences(f: Function, values: map<Id, string>, ghost features: set<string>)
    returns (reason: Option<Reason>)
    requires values == Types(f)
    ensures reason.None? <==> ReferencesDeclared(f)
    ensures reason.Some? ==> Justified(f, features, reason.value)
  {
    var places, scopes := PlaceMap(f.places), ScopeMap(f.cleanupScopes);
    if exists id :: id in places && places[id] !in values {
      return Some(PlaceBaseUndeclared);
    }
    var instructionIds := set block, i | block in f.blocks && i in block.instructions :: i.id;
    forall id ensures id in instructionIds <==> DeclaresInstruction(f, id) {
    }
    if exists id :: id in scopes && exists action :: action in scopes[id] && action !in instructionIds {
      var id :| id in scopes && exists action :: action in scopes[id] && action !in instructionIds;
      return Some(CleanupActionUndeclared);
    }
    reason := None;
  }
}
