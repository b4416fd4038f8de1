/**
 What makes an executable function acceptable, read off its records alone: fresh names,
 references that lead somewhere, no faulting run, and the declared features and no others.
 */
module SemanticMirRules {
  import opened Basics
  import opened SemanticMir

  // ----- the rules -----

  ghost predicate InstructionNames(i: Instruction, id: Id) {
    i.id == id || (i.result.Some? && i.result.value.id == id)
  }

  ghost predicate ParameterNames(parameters: seq<Typed>, id: Id) {
    exists k :: 0 <= k < |parameters| && parameters[k].id == id
  }

  ghost predicate SomeInstructionNames(instructions: seq<Instruction>, id: Id) {
    exists k :: 0 <= k < |instructions| && InstructionNames(instructions[k], id)
  }

  ghost predicate BlockNames(block: Block, id: Id) {
    block.id == id || ParameterNames(block.parameters, id) || SomeInstructionNames(block.instructions, id)
  }

  ghost predicate SomeBlockNames(blocks: seq<Block>, id: Id) {
    exists b :: 0 <= b < |blocks| && BlockNames(blocks[b], id)
  }

  ghost predicate Apart(a: Instruction, b: Instruction) {
    forall id :: InstructionNames(a, id) ==> !InstructionNames(b, id)
  }

  /** No instruction shares its identifier or its result with another, or with itself. */
  ghost predicate FreshInstructions(instructions: seq<Instruction>) {
    && (forall k :: 0 <= k < |instructions| && instructions[k].result.Some? ==>
          instructions[k].result.value.id != instructions[k].id)
    && (forall j, k :: 0 <= j < k < |instructions| ==> Apart(instructions[j], instructions[k]))
  }

  ghost predicate FreshParameters(parameters: seq<Typed>) {
    forall j, k :: 0 <= j < k < |parameters| ==> parameters[j].id != parameters[k].id
  }

  ghost predicate FreshBlock(block: Block) {
    && FreshParameters(block.parameters) && FreshInstructions(block.instructions)
    && !ParameterNames(block.parameters, block.id) && !SomeInstructionNames(block.instructions, block.id)
    && forall id :: ParameterNames(block.parameters, id) ==> !SomeInstructionNames(block.instructions, id)
  }

  ghost predicate BlocksApart(a: Block, b: Block) {
    forall id :: BlockNames(a, id) ==> !BlockNames(b, id)
  }

  ghost predicate FreshBlocks(blocks: seq<Block>) {
    && (forall b :: 0 <= b < |blocks| ==> FreshBlock(blocks[b]))
    && (forall a, b :: 0 <= a < b < |blocks| ==> BlocksApart(blocks[a], blocks[b]))
  }

  ghost predicate NamesPlace(f: Function, id: Id) {
    exists k :: 0 <= k < |f.places| && f.places[k].id == id
  }

  ghost predicate NamesScope(f: Function, id: Id) {
    exists k :: 0 <= k < |f.cleanupScopes| && f.cleanupScopes[k].id == id
  }

  /** Every identifier is declared once; only places may repeat among places, and scopes among scopes. */
  ghost predicate FreshNames(f: Function) {
    && FreshBlocks(f.blocks) && !SomeBlockNames(f.blocks, f.id)
    && (forall id :: NamesPlace(f, id) ==> id != f.id && !SomeBlockNames(f.blocks, id) && !NamesScope(f, id))
    && (forall id :: NamesScope(f, id) ==> id != f.id && !SomeBlockNames(f.blocks, id))
  }

  /** A parameter or a result somewhere in the function. */
  ghost predicate HoldsValue(f: Function, id: Id) {
    exists b :: 0 <= b < |f.blocks| && BlockHolds(f.blocks[b], id)
  }

  ghost predicate BlockHolds(block: Block, id: Id) {
    ParameterNames(block.parameters, id) || SomeResult(block.instructions, id)
  }

  ghost predicate SomeResult(instructions: seq<Instruction>, id: Id) {
    exists k :: 0 <= k < |instructions| && instructions[k].result.Some? && instructions[k].result.value.id == id
  }

  /** Scope `k` is the one its name stands for: the last of that name. */
  ghost predicate ScopeStands(scopes: seq<Scope>, k: int) {
    0 <= k < |scopes| && forall j :: k < j < |scopes| ==> scopes[j].id != scopes[k].id
  }

  ghost predicate PlacesBased(f: Function) {
    forall k, id :: Designates(f.places, id, k) ==> HoldsValue(f, f.places[k].base)
  }

  ghost predicate KnownInstruction(f: Function, id: Id) {
    exists b, i ::
      0 <= b < |f.blocks| && 0 <= i < |f.blocks[b].instructions| && f.blocks[b].instructions[i].id == id
  }

  ghost predicate ActionsKnown(f: Function) {
    forall k, a :: ScopeStands(f.cleanupScopes, k) && 0 <= a < |f.cleanupScopes[k].actions| ==>
      KnownInstruction(f, f.cleanupScopes[k].actions[a])
  }

  /** Final terminators lead nowhere, and every scope a terminator cleans up is declared. */
  ghost predicate TerminatorTidied(f: Function, t: Terminator) {
    && (t.op == Return || t.op == Unreachable ==> |t.successors| == 0)
    && forall k :: 0 <= k < |t.cleanupScopes| ==> NamesScope(f, t.cleanupScopes[k])
  }

  ghost predicate Shows(block: Block, feature: string) {
    feature in block.terminator.features ||
    exists i :: 0 <= i < |block.instructions| && feature in block.instructions[i].features
  }

  ghost predicate Observed(blocks: seq<Block>, feature: string) {
    exists b :: 0 <= b < |blocks| && Shows(blocks[b], feature)
  }

  ghost predicate JumpsTo(f: Function, from: nat, to: nat)
    requires from < |f.blocks| && to < |f.blocks|
  {
    var successors := f.blocks[from].terminator.successors;
    exists s :: 0 <= s < |successors| && successors[s].target == f.blocks[to].id
  }

  ghost predicate Loops(f: Function) {
    exists from: nat, to: nat :: to <= from < |f.blocks| && JumpsTo(f, from, to)
  }

  /** The acceptable functions, without a word about how they are checked. */
  ghost predicate Conforms(f: Function, features: set<string>) {
    && FreshNames(f) && PlacesBased(f) && ActionsKnown(f)
    && !CanFault(f)
    && (forall b :: 0 <= b < |f.blocks| ==> TerminatorTidied(f, f.blocks[b].terminator))
    && (forall feature :: feature in features <==> Observed(f.blocks, feature))
    && ("loop" in features ==> Loops(f))
  }

  // ----- fresh names are distinct declarations -----

  lemma DistinctAppend(a: seq<Declaration>, b: seq<Declaration>)
    ensures DistinctIds(a + b) <==>
            DistinctIds(a) && DistinctIds(b) && forall id :: Names(a, id) ==> !Names(b, id)
  {
    var c := a + b;
    if DistinctIds(c) {
      forall i, j | 0 <= i < j < |a| ensures a[i].id != a[j].id {
        assert c[i] == a[i] && c[j] == a[j];
      }
      forall i, j | 0 <= i < j < |b| ensures b[i].id != b[j].id {
        assert c[|a| + i] == b[i] && c[|a| + j] == b[j];
      }
      forall id | Names(a, id) ensures !Names(b, id) {
        var i :| 0 <= i < |a| && a[i].id == id;
        forall j | 0 <= j < |b| ensures b[j].id != id {
          assert c[i] == a[i] && c[|a| + j] == b[j];
        }
      }
    } else if DistinctIds(a) && DistinctIds(b) {
      var i, j :| 0 <= i < j < |c| && c[i].id == c[j].id;
      assert i < |a| <= j;
      assert c[i] in a && c[j] in b;
      assert Names(a, c[i].id) && Names(b, c[i].id);
    }
  }

  lemma NamesAppend(a: seq<Declaration>, b: seq<Declaration>, id: Id)
    ensures Names(a + b, id) <==> Names(a, id) || Names(b, id)
  {
  }

  lemma ParameterDeclarationsMean(parameters: seq<Typed>)
    ensures DistinctIds(ParameterDeclarations(parameters)) <==> FreshParameters(parameters)
    ensures forall id :: Names(ParameterDeclarations(parameters), id) <==> ParameterNames(parameters, id)
  {
    var ds := ParameterDeclarations(parameters);
    assert forall k :: 0 <= k < |ds| ==> ds[k].id == parameters[k].id;
    forall id ensures Names(ds, id) <==> ParameterNames(parameters, id) {
      if ParameterNames(parameters, id) {
        var k :| 0 <= k < |parameters| && parameters[k].id == id;
        assert ds[k] in ds;
      }
    }
  }

  function OwnDeclarations(i: Instruction): seq<Declaration> {
    [Named(i.id)] + if i.result.Some? then [Valued(i.result.value.id, i.result.value.ty)] else []
  }

  lemma OwnDeclarationsMean(i: Instruction)
    ensures DistinctIds(OwnDeclarations(i)) <==> (i.result.Some? ==> i.result.value.id != i.id)
    ensures forall id :: Names(OwnDeclarations(i), id) <==> InstructionNames(i, id)
  {
    var ds := OwnDeclarations(i);
    assert ds[0] == Named(i.id) && ds[0] in ds;
    if i.result.Some? {
      assert ds[1] == Valued(i.result.value.id, i.result.value.ty) && ds[1] in ds;
    }
  }

  lemma {:induction false} InstructionDeclarationsMean(instructions: seq<Instruction>)
    ensures DistinctIds(InstructionDeclarations(instructions)) <==> FreshInstructions(instructions)
    ensures forall id :: Names(InstructionDeclarations(instructions), id) <==> SomeInstructionNames(instructions, id)
  {
    if instructions == [] {
    } else {
      var n := |instructions| - 1;
      var front, last := instructions[..n], instructions[n];
      var before := InstructionDeclarations(front);
      InstructionDeclarationsMean(front);
      OwnDeclarationsMean(last);
      DistinctAppend(before, OwnDeclarations(last));
      assert InstructionDeclarations(instructions) == before + OwnDeclarations(last);
      SomeInstructionSnoc(instructions);
      FreshSnoc(instructions);
      forall id ensures Names(InstructionDeclarations(instructions), id) <==> SomeInstructionNames(instructions, id) {
        NamesAppend(before, OwnDeclarations(last), id);
      }
    }
  }

  lemma SomeInstructionSnoc(instructions: seq<Instruction>)
    requires instructions != []
    ensures var n := |instructions| - 1;
            forall id :: SomeInstructionNames(instructions, id) <==>
              SomeInstructionNames(instructions[..n], id) || InstructionNames(instructions[n], id)
  {
    var n := |instructions| - 1;
    forall id | SomeInstructionNames(instructions[..n], id) ensures SomeInstructionNames(instructions, id) {
      var k :| 0 <= k < n && InstructionNames(instructions[..n][k], id);
      assert InstructionNames(instructions[k], id);
    }
    forall id | SomeInstructionNames(instructions, id)
      ensures SomeInstructionNames(instructions[..n], id) || InstructionNames(instructions[n], id)
    {
      var k :| 0 <= k < |instructions| && InstructionNames(instructions[k], id);
      assert k < n ==> instructions[..n][k] == instructions[k];
    }
  }

  lemma FreshSnoc(instructions: seq<Instruction>)
    requires instructions != []
    ensures var n := |instructions| - 1;
            var front, last := instructions[..n], instructions[n];
            FreshInstructions(instructions) <==>
              && FreshInstructions(front) && (last.result.Some? ==> last.result.value.id != last.id)
              && forall id :: SomeInstructionNames(front, id) ==> !InstructionNames(last, id)
  {
    var n := |instructions| - 1;
    var front, last := instructions[..n], instructions[n];
    assert forall k :: 0 <= k < n ==> front[k] == instructions[k];
    if FreshInstructions(instructions) {
      forall id | SomeInstructionNames(front, id) ensures !InstructionNames(last, id) {
        var k :| 0 <= k < n && InstructionNames(front[k], id);
        assert Apart(instructions[k], instructions[n]);
      }
    }
    if forall id :: SomeInstructionNames(front, id) ==> !InstructionNames(last, id) {
      forall k | 0 <= k < n ensures Apart(instructions[k], last) {
        forall id | InstructionNames(instructions[k], id) ensures !InstructionNames(last, id) {
          assert InstructionNames(front[k], id);
        }
      }
    }
  }

  lemma BlockDeclarationsMean(block: Block)
    ensures DistinctIds(BlockDeclarations(block)) <==> FreshBlock(block)
    ensures forall id :: Names(BlockDeclarations(block), id) <==> BlockNames(block, id)
  {
    var head, middle, tail :=
      [Named(block.id)], ParameterDeclarations(block.parameters), InstructionDeclarations(block.instructions);
    ParameterDeclarationsMean(block.parameters);
    InstructionDeclarationsMean(block.instructions);
    assert forall id :: Names(head, id) <==> id == block.id by {
      assert head[0] in head;
    }
    DistinctAppend(head, middle);
    DistinctAppend(head + middle, tail);
    forall id ensures Names(head + middle, id) <==> Names(head, id) || Names(middle, id) {
      NamesAppend(head, middle, id);
    }
    forall id ensures Names(BlockDeclarations(block), id) <==> BlockNames(block, id) {
      NamesAppend(head + middle, tail, id);
    }
  }

  lemma {:induction false} BlocksDeclarationsMean(blocks: seq<Block>)
    ensures DistinctIds(BlocksDeclarations(blocks)) <==> FreshBlocks(blocks)
    ensures forall id :: Names(BlocksDeclarations(blocks), id) <==> SomeBlockNames(blocks, id)
  {
    if blocks == [] {
    } else {
      var n := |blocks| - 1;
      var before, own := BlocksDeclarations(blocks[..n]), BlockDeclarations(blocks[n]);
      BlocksDeclarationsMean(blocks[..n]);
      BlockDeclarationsMean(blocks[n]);
      DistinctAppend(before, own);
      SomeBlockSnoc(blocks);
      FreshBlocksSnoc(blocks);
      forall id ensures Names(BlocksDeclarations(blocks), id) <==> SomeBlockNames(blocks, id) {
        NamesAppend(before, own, id);
      }
    }
  }

  lemma SomeBlockSnoc(blocks: seq<Block>)
    requires blocks != []
    ensures var n := |blocks| - 1;
            forall id :: SomeBlockNames(blocks, id) <==> SomeBlockNames(blocks[..n], id) || BlockNames(blocks[n], id)
  {
    var n := |blocks| - 1;
    forall id | SomeBlockNames(blocks[..n], id) ensures SomeBlockNames(blocks, id) {
      var b :| 0 <= b < n && BlockNames(blocks[..n][b], id);
      assert BlockNames(blocks[b], id);
    }
    forall id | SomeBlockNames(blocks, id) ensures SomeBlockNames(blocks[..n], id) || BlockNames(blocks[n], id) {
      var b :| 0 <= b < |blocks| && BlockNames(blocks[b], id);
      assert b < n ==> blocks[..n][b] == blocks[b];
    }
  }

  lemma FreshBlocksSnoc(blocks: seq<Block>)
    requires blocks != []
    ensures var n := |blocks| - 1;
            FreshBlocks(blocks) <==>
              && FreshBlocks(blocks[..n]) && FreshBlock(blocks[n])
              && forall id :: SomeBlockNames(blocks[..n], id) ==> !BlockNames(blocks[n], id)
  {
    var n := |blocks| - 1;
    var front := blocks[..n];
    assert forall k :: 0 <= k < n ==> front[k] == blocks[k];
    if FreshBlocks(blocks) {
      forall id | SomeBlockNames(front, id) ensures !BlockNames(blocks[n], id) {
        var b :| 0 <= b < n && BlockNames(front[b], id);
        assert BlocksApart(blocks[b], blocks[n]);
      }
    }
    if forall id :: SomeBlockNames(front, id) ==> !BlockNames(blocks[n], id) {
      forall b | 0 <= b < n ensures BlocksApart(blocks[b], blocks[n]) {
        forall id | BlockNames(blocks[b], id) ensures !BlockNames(blocks[n], id) {
          assert BlockNames(front[b], id);
        }
      }
    }
  }

  lemma FreshNamesIff(f: Function)
    ensures DeclarationsUnique(f) <==> FreshNames(f)
  {
    var head, rest := [Named(f.id)], BlocksDeclarations(f.blocks);
    BlocksDeclarationsMean(f.blocks);
    DistinctAppend(head, rest);
    assert forall id :: Names(head, id) <==> id == f.id by {
      assert head[0] in head;
    }
    forall id ensures Names(Declarations(f), id) <==> id == f.id || SomeBlockNames(f.blocks, id) {
      NamesAppend(head, rest, id);
    }
    forall id
      ensures id in PlaceMap(f.places) <==> NamesPlace(f, id)
      ensures id in ScopeMap(f.cleanupScopes) <==> NamesScope(f, id)
    {
      var k := PlaceMapMeans(f.places, id);
      ScopeMapMeans(f.cleanupScopes, id);
      PlaceMapHolds(f.places, id);
    }
  }

  lemma {:induction false} PlaceMapHolds(places: seq<Place>, id: Id)
    ensures id in PlaceMap(places) <==> exists k :: 0 <= k < |places| && places[k].id == id
  {
    if places == [] {
    } else {
      var n := |places| - 1;
      PlaceMapHolds(places[..n], id);
      assert forall k :: 0 <= k < n ==> places[..n][k] == places[k];
    }
  }

  // ----- references -----

  lemma {:induction false} TypesHold(declarations: seq<Declaration>, id: Id)
    ensures id in TypesOf(declarations) <==> exists d :: d in declarations && d.Valued? && d.id == id
  {
    if declarations == [] {
    } else {
      var n := |declarations| - 1;
      TypesHold(declarations[..n], id);
      assert forall d :: d in declarations <==> d in declarations[..n] || d == declarations[n];
    }
  }

  ghost predicate Values(declarations: seq<Declaration>, id: Id) {
    exists d :: d in declarations && d.Valued? && d.id == id
  }

  lemma ValuesAppend(a: seq<Declaration>, b: seq<Declaration>, id: Id)
    ensures Values(a + b, id) <==> Values(a, id) || Values(b, id)
  {
  }

  lemma {:induction false} InstructionValues(instructions: seq<Instruction>, id: Id)
    ensures Values(InstructionDeclarations(instructions), id) <==> SomeResult(instructions, id)
  {
    if instructions == [] {
    } else {
      var n := |instructions| - 1;
      var own := OwnDeclarations(instructions[n]);
      InstructionValues(instructions[..n], id);
      ValuesAppend(InstructionDeclarations(instructions[..n]), own, id);
      assert InstructionDeclarations(instructions) == InstructionDeclarations(instructions[..n]) + own;
      assert forall k :: 0 <= k < n ==> instructions[..n][k] == instructions[k];
      if instructions[n].result.Some? {
        assert own[1] in own;
      }
    }
  }

  lemma BlockValues(block: Block, id: Id)
    ensures Values(BlockDeclarations(block), id) <==> BlockHolds(block, id)
  {
    var head, middle := [Named(block.id)], ParameterDeclarations(block.parameters);
    InstructionValues(block.instructions, id);
    ValuesAppend(head, middle, id);
    ValuesAppend(head + middle, InstructionDeclarations(block.instructions), id);
    if ParameterNames(block.parameters, id) {
      var k :| 0 <= k < |block.parameters| && block.parameters[k].id == id;
      assert middle[k] in middle;
    }
  }

  lemma {:induction false} BlocksValues(blocks: seq<Block>, id: Id)
    ensures Values(BlocksDeclarations(blocks), id) <==> exists b :: 0 <= b < |blocks| && BlockHolds(blocks[b], id)
  {
    if blocks == [] {
    } else {
      var n := |blocks| - 1;
      BlocksValues(blocks[..n], id);
      BlockValues(blocks[n], id);
      ValuesAppend(BlocksDeclarations(blocks[..n]), BlockDeclarations(blocks[n]), id);
      assert forall b :: 0 <= b < n ==> blocks[..n][b] == blocks[b];
    }
  }

  lemma HoldsValueIff(f: Function, id: Id)
    ensures id in Types(f) <==> HoldsValue(f, id)
  {
    TypesHold(Declarations(f), id);
    ValuesAppend([Named(f.id)], BlocksDeclarations(f.blocks), id);
    BlocksValues(f.blocks, id);
    assert Values(Declarations(f), id) <==> id in Types(f);
  }

  lemma PlacesBasedIff(f: Function)
    ensures PlacesDeclared(f) <==> PlacesBased(f)
  {
    if PlacesBased(f) {
      forall id | id in PlaceMap(f.places) ensures PlaceMap(f.places)[id] in Types(f) {
        var k := PlaceMapMeans(f.places, id);
        HoldsValueIff(f, f.places[k].base);
      }
    } else {
      var k, id :| Designates(f.places, id, k) && !HoldsValue(f, f.places[k].base);
      var j := PlaceMapMeans(f.places, id);
      assert j == k;
      HoldsValueIff(f, f.places[k].base);
    }
  }

  lemma {:induction false} ScopeMapStands(scopes: seq<Scope>, id: Id) returns (k: int)
    ensures id in ScopeMap(scopes) ==>
              ScopeStands(scopes, k) && scopes[k].id == id && ScopeMap(scopes)[id] == scopes[k].actions
    ensures id !in ScopeMap(scopes) ==> forall j :: 0 <= j < |scopes| ==> scopes[j].id != id
  {
    k := |scopes| - 1;
    if scopes != [] && scopes[k].id != id {
      var front := scopes[..k];
      k := ScopeMapStands(front, id);
      assert forall j :: 0 <= j < |front| ==> front[j] == scopes[j];
    }
  }

  lemma KnownIff(f: Function, id: Id)
    ensures DeclaresInstruction(f, id) <==> KnownInstruction(f, id)
  {
    if DeclaresInstruction(f, id) {
      var block, i :| block in f.blocks && i in block.instructions && i.id == id;
      var b :| 0 <= b < |f.blocks| && f.blocks[b] == block;
      var k :| 0 <= k < |block.instructions| && block.instructions[k] == i;
      assert f.blocks[b].instructions[k].id == id;
    }
  }

  lemma ActionsKnownIff(f: Function)
    ensures ActionsDeclared(f) <==> ActionsKnown(f)
  {
    var scopes := f.cleanupScopes;
    if ActionsKnown(f) {
      forall id, action | id in ScopeMap(scopes) && action in ScopeMap(scopes)[id]
        ensures DeclaresInstruction(f, action)
      {
        var k := ScopeMapStands(scopes, id);
        var a :| 0 <= a < |scopes[k].actions| && scopes[k].actions[a] == action;
        KnownIff(f, action);
        assert KnownInstruction(f, scopes[k].actions[a]);
      }
    } else {
      var k, a :| ScopeStands(scopes, k) && 0 <= a < |scopes[k].actions| && !KnownInstruction(f, scopes[k].actions[a]);
      var id, action := scopes[k].id, scopes[k].actions[a];
      var j := ScopeMapStands(scopes, id);
      assert j == k;
      KnownIff(f, action);
      assert action in ScopeMap(scopes)[id];
    }
  }

  // ----- terminators, features and loops -----

  lemma TidiedIff(f: Function, t: Terminator)
    ensures TerminatorTidy(f, t) <==> TerminatorTidied(f, t)
  {
    forall id ensures id in ScopeMap(f.cleanupScopes) <==> NamesScope(f, id) {
      ScopeMapMeans(f.cleanupScopes, id);
    }
    assert forall k :: 0 <= k < |t.cleanupScopes| ==> t.cleanupScopes[k] in t.cleanupScopes;
  }

  lemma {:induction false} InstructionFeaturesMean(instructions: seq<Instruction>, feature: string)
    ensures feature in InstructionFeatures(instructions) <==>
            exists i :: 0 <= i < |instructions| && feature in instructions[i].features
  {
    if instructions == [] {
    } else {
      var n := |instructions| - 1;
      InstructionFeaturesMean(instructions[..n], feature);
      assert forall k :: 0 <= k < n ==> instructions[..n][k] == instructions[k];
    }
  }

  lemma {:induction false} BlocksFeaturesMean(blocks: seq<Block>, feature: string)
    ensures feature in BlocksFeatures(blocks) <==> Observed(blocks, feature)
  {
    if blocks == [] {
    } else {
      var n := |blocks| - 1;
      BlocksFeaturesMean(blocks[..n], feature);
      InstructionFeaturesMean(blocks[n].instructions, feature);
      assert forall k :: 0 <= k < n ==> blocks[..n][k] == blocks[k];
    }
  }

  lemma LoopsIff(f: Function)
    ensures HasBackEdge(f) <==> Loops(f)
  {
    if HasBackEdge(f) {
      var from: nat, to: nat :| BackEdge(f, from, to);
      var s :| s in f.blocks[from].terminator.successors && s.target == f.blocks[to].id;
      assert JumpsTo(f, from, to);
    }
    if Loops(f) {
      var from: nat, to: nat :| to <= from < |f.blocks| && JumpsTo(f, from, to);
      assert BackEdge(f, from, to);
    }
  }

  lemma FeaturesIff(f: Function, features: set<string>)
    ensures FeaturesCovered(f, features) <==>
            (forall feature :: feature in features <==> Observed(f.blocks, feature)) &&
            ("loop" in features ==> Loops(f))
  {
    LoopsIff(f);
    forall feature ensures feature in BlocksFeatures(f.blocks) <==> Observed(f.blocks, feature) {
      BlocksFeaturesMean(f.blocks, feature);
    }
  }

  lemma AllTidiedIff(f: Function)
    ensures (forall block :: block in f.blocks ==> TerminatorTidy(f, block.terminator)) <==>
            forall b :: 0 <= b < |f.blocks| ==> TerminatorTidied(f, f.blocks[b].terminator)
  {
    forall b | 0 <= b < |f.blocks|
      ensures f.blocks[b] in f.blocks
      ensures TerminatorTidy(f, f.blocks[b].terminator) <==> TerminatorTidied(f, f.blocks[b].terminator)
    {
      TidiedIff(f, f.blocks[b].terminator);
    }
  }

  lemma ReferencesIff(f: Function)
    ensures ReferencesDeclared(f) <==> PlacesBased(f) && ActionsKnown(f)
  {
    PlacesBasedIff(f);
    ActionsKnownIff(f);
  }

  lemma SafeNamesIff(f: Function)
    ensures DeclarationsUnique(f) && Safe(f) <==> FreshNames(f) && !CanFault(f)
  {
    FreshNamesIff(f);
    if DeclarationsUnique(f) {
      SafeIffNoRunFaults(f);
    }
  }

  /** The checks accept exactly the functions that conform; in particular they are safe exactly when no run faults. */
  lemma AcceptableIffConforms(f: Function, features: set<string>)
    ensures Acceptable(f, features) <==> Conforms(f, features)
  {
    SafeNamesIff(f);
    ReferencesIff(f);
    AllTidiedIff(f);
    FeaturesIff(f, features);
  }
}
