/**
 Semantic MIR v1: the structural checker for block-argument functions, a small-step
 semantics for the functions it accepts, and the theorem that its dataflow checks are
 exactly what keeps every run from faulting.
 */
module SemanticMir {
  import opened Basics

  // ----- programs -----

  type Id = string

  datatype Typed = Typed(id: Id, ty: string)

  datatype Operation =
    | Const | Copy | Move | Borrow | Load | Store | Aggregate
    | Call | CapabilityCall | Binary | Cast | Await | Drop | DeferScope

  datatype Instruction = Instruction(
    id: Id, op: Operation, operands: seq<Id>, result: Option<Typed>, place: Option<Id>,
    mutability: Option<string>, region: Option<Id>, callee: Option<string>, effects: Option<seq<string>>,
    capability: Option<string>, cleanupScope: Option<Id>, features: seq<string>)

  datatype Jump = Goto | Branch | Match | Return | Panic | Unwind | Unreachable

  datatype Successor = Successor(target: Id, arguments: seq<Id>)

  datatype Terminator = Terminator(
    op: Jump, operands: seq<Id>, successors: seq<Successor>, cleanupScopes: seq<Id>, features: seq<string>)

  datatype Block = Block(id: Id, parameters: seq<Typed>, instructions: seq<Instruction>, terminator: Terminator)

  datatype Place = Place(id: Id, base: Id)

  datatype Scope = Scope(id: Id, actions: seq<Id>)

  datatype Function = Function(id: Id, places: seq<Place>, cleanupScopes: seq<Scope>, blocks: seq<Block>)

  predicate NeedsResult(op: Operation) {
    op in {Const, Copy, Move, Borrow, Load, Aggregate, Binary, Cast, Await}
  }

  predicate UsesPlace(op: Operation) {
    op in {Load, Store, Borrow}
  }

  function MinimumSuccessors(op: Jump): nat {
    match op
    case Goto => 1
    case Branch => 2
    case Match => 2
    case Return => 0
    case Panic => 1
    case Unwind => 1
    case Unreachable => 0
  }

  predicate Present<T(==)>(field: Option<seq<T>>) {
    field.Some? && field.value != []
  }

  // ----- what is declared where -----

  datatype Declaration = Named(id: Id) | Valued(id: Id, ty: string)

  function ParameterDeclarations(parameters: seq<Typed>): seq<Declaration> {
    seq(|parameters|, i requires 0 <= i < |parameters| => Valued(parameters[i].id, parameters[i].ty))
  }

  function InstructionDeclarations(instructions: seq<Instruction>): seq<Declaration> {
    if instructions == [] then []
    else
      var last := instructions[|instructions| - 1];
      InstructionDeclarations(instructions[..|instructions| - 1]) + [Named(last.id)] +
      if last.result.Some? then [Valued(last.result.value.id, last.result.value.ty)] else []
  }

  function BlockDeclarations(block: Block): seq<Declaration> {
    [Named(block.id)] + ParameterDeclarations(block.parameters) + InstructionDeclarations(block.instructions)
  }

  function BlocksDeclarations(blocks: seq<Block>): seq<Declaration> {
    if blocks == [] then []
    else BlocksDeclarations(blocks[..|blocks| - 1]) + BlockDeclarations(blocks[|blocks| - 1])
  }

  function Declarations(f: Function): seq<Declaration> {
    [Named(f.id)] + BlocksDeclarations(f.blocks)
  }

  /** The type recorded last for each value identifier. */
  function TypesOf(declarations: seq<Declaration>): map<Id, string> {
    if declarations == [] then map[]
    else
      var last := declarations[|declarations| - 1];
      var rest := TypesOf(declarations[..|declarations| - 1]);
      if last.Valued? then rest[last.id := last.ty] else rest
  }

  function Types(f: Function): map<Id, string> {
    TypesOf(Declarations(f))
  }

  /** Repeated place identifiers are not an error: the last one stands. */
  function PlaceMap(places: seq<Place>): map<Id, Id> {
    if places == [] then map[]
    else PlaceMap(places[..|places| - 1])[places[|places| - 1].id := places[|places| - 1].base]
  }

  function ScopeMap(scopes: seq<Scope>): map<Id, seq<Id>> {
    if scopes == [] then map[]
    else ScopeMap(scopes[..|scopes| - 1])[scopes[|scopes| - 1].id := scopes[|scopes| - 1].actions]
  }

  ghost predicate DistinctIds(declarations: seq<Declaration>) {
    forall i, j :: 0 <= i < j < |declarations| ==> declarations[i].id != declarations[j].id
  }

  ghost predicate Names(declarations: seq<Declaration>, id: Id) {
    exists d :: d in declarations && d.id == id
  }

  ghost predicate DeclarationsUnique(f: Function) {
    && DistinctIds(Declarations(f))
    && (forall id :: id in PlaceMap(f.places) ==> !Names(Declarations(f), id) && id !in ScopeMap(f.cleanupScopes))
    && (forall id :: id in ScopeMap(f.cleanupScopes) ==> !Names(Declarations(f), id))
  }

  // ----- the checks -----

  /** The values a block may read before instruction `pc`: its parameters and its own earlier results. */
  function Available(block: Block, pc: nat): set<Id>
    requires pc <= |block.instructions|
  {
    if pc == 0 then set p | p in block.parameters :: p.id
    else Available(block, pc - 1) + ResultIds(block.instructions[pc - 1])
  }

  /** The available values are the block's parameters and the results of earlier instructions of the same block. */
  lemma {:induction false} AvailableMeans(block: Block, pc: nat, id: Id)
    requires pc <= |block.instructions|
    ensures id in Available(block, pc) <==>
              || (exists p :: p in block.parameters && p.id == id)
              || (exists k :: 0 <= k < pc && id in ResultIds(block.instructions[k]))
  {
    if pc == 0 {
    } else {
      AvailableMeans(block, pc - 1, id);
    }
  }

  function ResultIds(i: Instruction): set<Id> {
    if i.result.Some? then {i.result.value.id} else {}
  }

  predicate Subset(ids: seq<Id>, available: set<Id>) {
    forall id :: id in ids ==> id in available
  }

  predicate PlaceReadable(f: Function, place: Option<Id>, available: set<Id>) {
    place.Some? && place.value in PlaceMap(f.places) && PlaceMap(f.places)[place.value] in available
  }

  /** Everything an instruction needs in order to execute. */
  predicate Executable(f: Function, i: Instruction, available: set<Id>) {
    && Subset(i.operands, available)
    && (NeedsResult(i.op) ==> i.result.Some?)
    && (UsesPlace(i.op) ==> PlaceReadable(f, i.place, available))
    && (i.op == Borrow ==> Present(i.mutability) && i.region.Some? && i.region.value in ScopeMap(f.cleanupScopes))
    && (i.op == Store ==> i.operands != [])
    && (i.op in {Call, CapabilityCall} ==> Present(i.callee) && Present(i.effects))
    && (i.op == CapabilityCall ==> Present(i.capability))
    && (i.op == DeferScope ==> i.cleanupScope.Some? && i.cleanupScope.value in ScopeMap(f.cleanupScopes))
  }

  /** A successor names block `k` and passes it available values of its parameter types. */
  ghost predicate SuccessorFits(f: Function, available: set<Id>, s: Successor, k: nat) {
    && k < |f.blocks|
    && f.blocks[k].id == s.target
    && |s.arguments| == |f.blocks[k].parameters|
    && Subset(s.arguments, available)
    && (forall i :: 0 <= i < |s.arguments| ==>
          s.arguments[i] in Types(f) && Types(f)[s.arguments[i]] == f.blocks[k].parameters[i].ty)
  }

  ghost predicate Fits(f: Function, available: set<Id>, s: Successor) {
    exists k :: SuccessorFits(f, available, s, k)
  }

  ghost predicate TerminatorSafe(f: Function, block: Block) {
    var available, t := Available(block, |block.instructions|), block.terminator;
    && Subset(t.operands, available)
    && (MinimumSuccessors(t.op) > 0 ==>
          |t.successors| >= MinimumSuccessors(t.op) &&
          forall s :: s in t.successors ==> Fits(f, available, s))
  }

  ghost predicate ExecutableAt(f: Function, block: Block, pc: nat)
    requires pc < |block.instructions|
  {
    Executable(f, block.instructions[pc], Available(block, pc))
  }

  ghost predicate BlockSafe(f: Function, block: Block) {
    && (forall pc :: 0 <= pc < |block.instructions| ==> ExecutableAt(f, block, pc))
    && TerminatorSafe(f, block)
  }

  /** The dataflow part of the checks. */
  ghost predicate Safe(f: Function) {
    forall block :: block in f.blocks ==> BlockSafe(f, block)
  }

  /** The rest of what is asked of a terminator. */
  ghost predicate TerminatorTidy(f: Function, t: Terminator) {
    && (MinimumSuccessors(t.op) == 0 ==> t.successors == [])
    && (forall scope :: scope in t.cleanupScopes ==> scope in ScopeMap(f.cleanupScopes))
  }

  ghost predicate BackEdge(f: Function, from: nat, to: nat) {
    && to <= from < |f.blocks|
    && exists s :: s in f.blocks[from].terminator.successors && s.target == f.blocks[to].id
  }

  ghost predicate HasBackEdge(f: Function) {
    exists from, to :: BackEdge(f, from, to)
  }

  function InstructionFeatures(instructions: seq<Instruction>): set<string> {
    if instructions == [] then {}
    else
      var n := |instructions| - 1;
      InstructionFeatures(instructions[..n]) + set x | x in instructions[n].features
  }

  function BlockFeatures(block: Block): set<string> {
    InstructionFeatures(block.instructions) + set x | x in block.terminator.features
  }

  function BlocksFeatures(blocks: seq<Block>): set<string> {
    if blocks == [] then {} else BlocksFeatures(blocks[..|blocks| - 1]) + BlockFeatures(blocks[|blocks| - 1])
  }

  ghost predicate DeclaresInstruction(f: Function, id: Id) {
    exists block, i :: block in f.blocks && i in block.instructions && i.id == id
  }

  ghost predicate PlacesDeclared(f: Function) {
    forall id :: id in PlaceMap(f.places) ==> PlaceMap(f.places)[id] in Types(f)
  }

  ghost predicate ActionsDeclared(f: Function) {
    forall id, action :: id in ScopeMap(f.cleanupScopes) && action in ScopeMap(f.cleanupScopes)[id] ==>
      DeclaresInstruction(f, action)
  }

  ghost predicate ReferencesDeclared(f: Function) {
    PlacesDeclared(f) && ActionsDeclared(f)
  }

  ghost predicate FeaturesCovered(f: Function, features: set<string>) {
    && BlocksFeatures(f.blocks) == features
    && ("loop" in features ==> HasBackEdge(f))
  }

  ghost predicate Acceptable(f: Function, features: set<string>) {
    && DeclarationsUnique(f)
    && ReferencesDeclared(f)
    && Safe(f)
    && (forall block :: block in f.blocks ==> TerminatorTidy(f, block.terminator))
    && FeaturesCovered(f, features)
  }

  // ----- runs -----

  datatype Value = Value(ty: string, payload: int)

  datatype State = Running(block: nat, pc: nat, env: map<Id, Value>) | Halted | Fault

  function Bind(parameters: seq<Typed>, arguments: seq<Id>, env: map<Id, Value>): map<Id, Value>
    requires |parameters| == |arguments| && Subset(arguments, env.Keys)
  {
    if parameters == [] then map[]
    else
      var n := |parameters| - 1;
      assert arguments[n] in arguments;
      Bind(parameters[..n], arguments[..n], env)[parameters[n].id := env[arguments[n]]]
  }

  /** The values held now let control enter block `k` through `s`. */
  ghost predicate Enters(f: Function, s: Successor, env: map<Id, Value>, k: nat) {
    && k < |f.blocks|
    && f.blocks[k].id == s.target
    && |s.arguments| == |f.blocks[k].parameters|
    && Subset(s.arguments, env.Keys)
    && (forall i :: 0 <= i < |s.arguments| ==>
      s.arguments[i] in env && env[s.arguments[i]].ty == f.blocks[k].parameters[i].ty)
  }

  ghost predicate Takes(f: Function, s: Successor, env: map<Id, Value>, t: State) {
    if exists k :: Enters(f, s, env, k)
    then exists k: nat :: Enters(f, s, env, k) && t == Running(k, 0, Bind(f.blocks[k].parameters, s.arguments, env))
    else t == Fault
  }

  /** Declared place `k` is the one `place` stands for: the last of that name. */
  ghost predicate Designates(places: seq<Place>, place: Id, k: int) {
    && 0 <= k < |places| && places[k].id == place
    && forall j :: k < j < |places| ==> places[j].id != place
  }

  /** The place is declared and its base is held. */
  ghost predicate Reachable(f: Function, place: Option<Id>, env: map<Id, Value>) {
    place.Some? && exists k :: Designates(f.places, place.value, k) && f.places[k].base in env
  }

  ghost predicate Declared(f: Function, scope: Option<Id>) {
    scope.Some? && exists k :: 0 <= k < |f.cleanupScopes| && f.cleanupScopes[k].id == scope.value
  }

  /** What the instruction needs at run time, operation by operation; without it the run faults. */
  ghost predicate Supplied(f: Function, i: Instruction, env: map<Id, Value>) {
    && (forall k :: 0 <= k < |i.operands| ==> i.operands[k] in env)
    && match i.op
       case Const => i.result.Some?
       case Copy => i.result.Some?
       case Move => i.result.Some?
       case Aggregate => i.result.Some?
       case Binary => i.result.Some?
       case Cast => i.result.Some?
       case Await => i.result.Some?
       case Load => i.result.Some? && Reachable(f, i.place, env)
       case Store => |i.operands| >= 1 && Reachable(f, i.place, env)
       case Borrow =>
         && i.result.Some? && Reachable(f, i.place, env)
         && i.mutability.Some? && |i.mutability.value| >= 1 && Declared(f, i.region)
       case Call => i.callee.Some? && |i.callee.value| >= 1 && i.effects.Some? && |i.effects.value| >= 1
       case CapabilityCall =>
         && i.callee.Some? && |i.callee.value| >= 1 && i.effects.Some? && |i.effects.value| >= 1
         && i.capability.Some? && |i.capability.value| >= 1
       case Drop => true
       case DeferScope => Declared(f, i.cleanupScope)
  }

  ghost predicate Executes(f: Function, i: Instruction, before: State, after: State)
    requires before.Running?
  {
    if !Supplied(f, i, before.env) then after == Fault
    else if i.result.None? then after == before.(pc := before.pc + 1)
    else exists payload: int :: after == Executed(i, before, payload)
  }

  /** The values the terminator reads are held, and a choice of ways has at least two. */
  ghost predicate Ready(t: Terminator, env: map<Id, Value>) {
    && (forall k :: 0 <= k < |t.operands| ==> t.operands[k] in env)
    && (t.op in {Goto, Panic, Unwind} ==> |t.successors| >= 1)
    && (t.op in {Branch, Match} ==> |t.successors| >= 2)
  }

  ghost predicate Jumps(f: Function, t: Terminator, env: map<Id, Value>, after: State) {
    if !Ready(t, env) then after == Fault
    else if t.op in {Return, Unreachable} then after == Halted
    else exists s :: s in t.successors && Takes(f, s, env, after)
  }

  function Executed(i: Instruction, before: State, payload: int): State
    requires before.Running? && i.result.Some?
  {
    Running(before.block, before.pc + 1, before.env[i.result.value.id := Value(i.result.value.ty, payload)])
  }

  /** One step: the next instruction, or a jump along any successor. */
  ghost predicate Step(f: Function, before: State, after: State) {
    && before.Running?
    && before.block < |f.blocks|
    && var block := f.blocks[before.block];
       if before.pc < |block.instructions| then Executes(f, block.instructions[before.pc], before, after)
       else before.pc == |block.instructions| && Jumps(f, block.terminator, before.env, after)
  }

  /** Some block entered with its parameters bound to values of their types. */
  ghost predicate Entry(f: Function, s: State) {
    && s.Running? && s.block < |f.blocks| && s.pc == 0
    && var parameters := f.blocks[s.block].parameters;
       && s.env.Keys == Available(f.blocks[s.block], 0)
       && forall p :: p in parameters ==> p.id in s.env && s.env[p.id].ty == p.ty
  }

  ghost predicate IsRun(f: Function, run: seq<State>) {
    && run != [] && Entry(f, run[0])
    && forall i, j :: 0 <= i && j == i + 1 && j < |run| ==> Step(f, run[i], run[j])
  }

  /** The state holds exactly the available values, each of its declared type. */
  ghost predicate WellTyped(f: Function, s: State) {
    s.Running? ==>
      && s.block < |f.blocks|
      && s.pc <= |f.blocks[s.block].instructions|
      && s.env.Keys == Available(f.blocks[s.block], s.pc)
      && forall id :: id in s.env ==> id in Types(f) && s.env[id].ty == Types(f)[id]
  }

  // ----- declarations determine types -----

  lemma {:induction false} TypeOfDeclared(declarations: seq<Declaration>, d: Declaration)
    requires DistinctIds(declarations) && d in declarations && d.Valued?
    ensures d.id in TypesOf(declarations) && TypesOf(declarations)[d.id] == d.ty
  {
    var n := |declarations| - 1;
    var last, rest := declarations[n], declarations[..n];
    if d != last {
      assert d in rest;
      TypeOfDeclared(rest, d);
      assert exists i :: 0 <= i < n && declarations[i] == d;
    }
  }

  lemma {:induction false} InstructionDeclares(instructions: seq<Instruction>, i: Instruction)
    requires i in instructions
    ensures Named(i.id) in InstructionDeclarations(instructions)
    ensures i.result.Some? ==> Valued(i.result.value.id, i.result.value.ty) in InstructionDeclarations(instructions)
  {
    var n := |instructions| - 1;
    if i != instructions[n] {
      assert i in instructions[..n];
      InstructionDeclares(instructions[..n], i);
    }
  }

  lemma {:induction false} BlockDeclares(blocks: seq<Block>, block: Block, d: Declaration)
    requires block in blocks && d in BlockDeclarations(block)
    ensures d in BlocksDeclarations(blocks)
  {
    var n := |blocks| - 1;
    if block != blocks[n] {
      assert block in blocks[..n];
      BlockDeclares(blocks[..n], block, d);
    }
  }

  lemma ParameterType(f: Function, block: Block, p: Typed)
    requires DistinctIds(Declarations(f)) && block in f.blocks && p in block.parameters
    ensures p.id in Types(f) && Types(f)[p.id] == p.ty
  {
    var d := Valued(p.id, p.ty);
    var i :| 0 <= i < |block.parameters| && block.parameters[i] == p;
    assert ParameterDeclarations(block.parameters)[i] == d;
    assert d in BlockDeclarations(block);
    BlockDeclares(f.blocks, block, d);
    TypeOfDeclared(Declarations(f), d);
  }

  lemma ResultType(f: Function, block: Block, i: Instruction)
    requires DistinctIds(Declarations(f)) && block in f.blocks && i in block.instructions && i.result.Some?
    ensures i.result.value.id in Types(f) && Types(f)[i.result.value.id] == i.result.value.ty
  {
    var d := Valued(i.result.value.id, i.result.value.ty);
    InstructionDeclares(block.instructions, i);
    assert d in BlockDeclarations(block);
    BlockDeclares(f.blocks, block, d);
    TypeOfDeclared(Declarations(f), d);
  }

  /** Block identifiers are declarations, so unique declarations give each target one block. */
  lemma {:induction false} BlockIndexUnique(blocks: seq<Block>, i: nat, j: nat)
    requires DistinctIds(BlocksDeclarations(blocks)) && i < j < |blocks|
    ensures blocks[i].id != blocks[j].id
  {
    var n := |blocks| - 1;
    var front, back := BlocksDeclarations(blocks[..n]), BlockDeclarations(blocks[n]);
    assert BlocksDeclarations(blocks) == front + back;
    if j < n {
      assert forall a :: 0 <= a < |front| ==> (front + back)[a] == front[a];
      BlockIndexUnique(blocks[..n], i, j);
    } else {
      assert blocks[i] == blocks[..n][i];
      BlockDeclares(blocks[..n], blocks[i], Named(blocks[i].id));
      FrontDiffers(front, back, Named(blocks[i].id));
    }
  }

  lemma FrontDiffers(front: seq<Declaration>, back: seq<Declaration>, d: Declaration)
    requires DistinctIds(front + back) && d in front && back != []
    ensures d.id != back[0].id
  {
    var a :| 0 <= a < |front| && front[a] == d;
    assert (front + back)[a] == front[a] && (front + back)[|front|] == back[0];
  }

  // ----- the checks are what the semantics needs -----

  lemma {:induction false} PlaceMapMeans(places: seq<Place>, id: Id) returns (k: int)
    ensures id in PlaceMap(places) ==> Designates(places, id, k) && PlaceMap(places)[id] == places[k].base
    ensures id !in PlaceMap(places) ==> forall j :: 0 <= j < |places| ==> places[j].id != id
  {
    k := |places| - 1;
    if places != [] && places[k].id != id {
      var front := places[..k];
      k := PlaceMapMeans(front, id);
      assert forall j :: 0 <= j < |front| ==> front[j] == places[j];
    }
  }

  lemma {:induction false} ScopeMapMeans(scopes: seq<Scope>, id: Id)
    ensures id in ScopeMap(scopes) <==> exists k :: 0 <= k < |scopes| && scopes[k].id == id
  {
    if scopes == [] {
    } else {
      var n := |scopes| - 1;
      ScopeMapMeans(scopes[..n], id);
      assert forall k :: 0 <= k < n ==> scopes[..n][k] == scopes[k];
    }
  }

  lemma ReachableIff(f: Function, place: Option<Id>, env: map<Id, Value>)
    ensures PlaceReadable(f, place, env.Keys) <==> Reachable(f, place, env)
  {
    if place.Some? {
      var k := PlaceMapMeans(f.places, place.value);
      assert forall j :: Designates(f.places, place.value, j) ==> j == k;
    }
  }

  lemma DeclaredIff(f: Function, scope: Option<Id>)
    ensures scope.Some? && scope.value in ScopeMap(f.cleanupScopes) <==> Declared(f, scope)
  {
    if scope.Some? {
      ScopeMapMeans(f.cleanupScopes, scope.value);
    }
  }

  /** The checks on an instruction are exactly what it needs at run time. */
  lemma ExecutableIffSupplied(f: Function, i: Instruction, env: map<Id, Value>)
    ensures Executable(f, i, env.Keys) <==> Supplied(f, i, env)
  {
    ReachableIff(f, i.place, env);
    DeclaredIff(f, i.region);
    DeclaredIff(f, i.cleanupScope);
    assert Subset(i.operands, env.Keys) <==> forall k :: 0 <= k < |i.operands| ==> i.operands[k] in env;
  }

  lemma ReadyIff(t: Terminator, env: map<Id, Value>)
    ensures Ready(t, env) <==>
            Subset(t.operands, env.Keys) && |t.successors| >= MinimumSuccessors(t.op)
    ensures t.op in {Return, Unreachable} <==> MinimumSuccessors(t.op) == 0
  {
    assert Subset(t.operands, env.Keys) <==> forall k :: 0 <= k < |t.operands| ==> t.operands[k] in env;
  }

  // ----- soundness -----

  lemma EntryWellTyped(f: Function, s: State)
    requires DistinctIds(Declarations(f)) && Entry(f, s)
    ensures WellTyped(f, s)
  {
    var block := f.blocks[s.block];
    forall id | id in s.env ensures id in Types(f) && s.env[id].ty == Types(f)[id] {
      var p :| p in block.parameters && p.id == id;
      ParameterType(f, block, p);
    }
  }

  lemma {:induction false} BindTyped(f: Function, parameters: seq<Typed>, arguments: seq<Id>, env: map<Id, Value>)
    requires |parameters| == |arguments| && Subset(arguments, env.Keys)
    requires forall p :: p in parameters ==> p.id in Types(f) && Types(f)[p.id] == p.ty
    requires forall i :: 0 <= i < |arguments| ==> arguments[i] in env && env[arguments[i]].ty == parameters[i].ty
    ensures forall id :: id in Bind(parameters, arguments, env) <==> exists p :: p in parameters && p.id == id
    ensures forall id :: id in Bind(parameters, arguments, env) ==>
              id in Types(f) && Bind(parameters, arguments, env)[id].ty == Types(f)[id]
  {
    if parameters == [] {
    } else {
      var n := |parameters| - 1;
      assert forall p :: p in parameters <==> p in parameters[..n] || p == parameters[n];
      BindTyped(f, parameters[..n], arguments[..n], env);
    }
  }

  lemma EnterWellTyped(f: Function, s: Successor, env: map<Id, Value>, k: nat)
    requires DistinctIds(Declarations(f)) && Enters(f, s, env, k)
    ensures WellTyped(f, Running(k, 0, Bind(f.blocks[k].parameters, s.arguments, env)))
  {
    var block := f.blocks[k];
    forall p | p in block.parameters ensures p.id in Types(f) && Types(f)[p.id] == p.ty {
      ParameterType(f, block, p);
    }
    BindTyped(f, block.parameters, s.arguments, env);
    var bound := Bind(block.parameters, s.arguments, env);
    assert forall id :: id in bound.Keys <==> id in Available(block, 0);
  }

  lemma ExecuteWellTyped(f: Function, before: State, after: State)
    requires DistinctIds(Declarations(f)) && WellTyped(f, before) && Step(f, before, after)
    requires before.pc < |f.blocks[before.block].instructions|
    ensures WellTyped(f, after)
  {
    var i := f.blocks[before.block].instructions[before.pc];
    if after.Running? {
      if i.result.None? {
        AdvanceWellTyped(f, before);
      } else {
        var payload: int :| after == Executed(i, before, payload);
        ResultType(f, f.blocks[before.block], i);
        BindWellTyped(f, before, payload);
      }
    }
  }

  lemma AdvanceWellTyped(f: Function, s: State)
    requires WellTyped(f, s) && s.Running? && s.pc < |f.blocks[s.block].instructions|
    requires f.blocks[s.block].instructions[s.pc].result.None?
    ensures WellTyped(f, s.(pc := s.pc + 1))
  {
    assert Available(f.blocks[s.block], s.pc + 1) == Available(f.blocks[s.block], s.pc);
  }

  lemma BindWellTyped(f: Function, s: State, payload: int)
    requires WellTyped(f, s) && s.Running? && s.pc < |f.blocks[s.block].instructions|
    requires var r := f.blocks[s.block].instructions[s.pc].result;
             r.Some? && r.value.id in Types(f) && Types(f)[r.value.id] == r.value.ty
    ensures WellTyped(f, Executed(f.blocks[s.block].instructions[s.pc], s, payload))
  {
    var i := f.blocks[s.block].instructions[s.pc];
    assert Executed(i, s, payload).env.Keys == s.env.Keys + {i.result.value.id};
  }

  lemma FitsEnters(f: Function, s: Successor, env: map<Id, Value>, k: nat)
    requires forall id :: id in env ==> id in Types(f) && env[id].ty == Types(f)[id]
    ensures SuccessorFits(f, env.Keys, s, k) <==> Enters(f, s, env, k)
  {
    assert forall i :: 0 <= i < |s.arguments| ==> s.arguments[i] in s.arguments;
  }

  lemma JumpSound(f: Function, before: State, after: State)
    requires DistinctIds(Declarations(f)) && WellTyped(f, before) && Step(f, before, after)
    requires before.pc == |f.blocks[before.block].instructions|
    ensures WellTyped(f, after)
    ensures TerminatorSafe(f, f.blocks[before.block]) ==> !after.Fault?
  {
    var block := f.blocks[before.block];
    var t, env := block.terminator, before.env;
    ReadyIff(t, env);
    if Ready(t, env) && t.op !in {Return, Unreachable} {
      var s :| s in t.successors && Takes(f, s, env, after);
      if after.Running? {
        var k: nat :| Enters(f, s, env, k) && after == Running(k, 0, Bind(f.blocks[k].parameters, s.arguments, env));
        EnterWellTyped(f, s, env, k);
      } else if TerminatorSafe(f, block) {
        var k :| SuccessorFits(f, env.Keys, s, k);
        FitsEnters(f, s, env, k);
      }
    }
  }

  /** A step from a well-typed state keeps types; in a safe function it does not fault. */
  lemma StepSound(f: Function, before: State, after: State)
    requires DistinctIds(Declarations(f)) && WellTyped(f, before) && Step(f, before, after)
    ensures WellTyped(f, after)
    ensures Safe(f) ==> !after.Fault?
  {
    var block := f.blocks[before.block];
    assert block in f.blocks;
    if before.pc < |block.instructions| {
      assert Safe(f) ==> ExecutableAt(f, block, before.pc);
      ExecutableIffSupplied(f, block.instructions[before.pc], before.env);
      ExecuteWellTyped(f, before, after);
    } else {
      JumpSound(f, before, after);
    }
  }

  /** Every state of every run of a safe function is well typed and no run faults. */
  lemma {:induction false} SafeRunsNeverFault(f: Function, run: seq<State>, n: nat)
    requires DistinctIds(Declarations(f)) && Safe(f) && IsRun(f, run) && n < |run|
    ensures WellTyped(f, run[n]) && !run[n].Fault?
  {
    if n == 0 {
      EntryWellTyped(f, run[0]);
    } else {
      SafeRunsNeverFault(f, run, n - 1);
      StepSound(f, run[n - 1], run[n]);
    }
  }

  lemma ExecuteProgress(f: Function, s: State)
    requires WellTyped(f, s) && s.Running? && s.pc < |f.blocks[s.block].instructions|
    requires Supplied(f, f.blocks[s.block].instructions[s.pc], s.env)
    ensures exists t :: Step(f, s, t) && t.Running? && t.block == s.block && t.pc == s.pc + 1
  {
    var i := f.blocks[s.block].instructions[s.pc];
    var t := if i.result.None? then s.(pc := s.pc + 1) else Executed(i, s, 0);
    assert Executes(f, i, s, t);
    assert Step(f, s, t);
  }

  lemma JumpProgress(f: Function, s: State)
    requires WellTyped(f, s) && s.Running? && s.pc == |f.blocks[s.block].instructions|
    requires TerminatorSafe(f, f.blocks[s.block])
    ensures exists t :: Step(f, s, t) && !t.Fault?
  {
    var t := f.blocks[s.block].terminator;
    ReadyIff(t, s.env);
    if MinimumSuccessors(t.op) == 0 {
      assert Step(f, s, Halted);
    } else {
      var succ := t.successors[0];
      assert succ in t.successors;
      var k: nat :| SuccessorFits(f, s.env.Keys, succ, k);
      FitsEnters(f, succ, s.env, k);
      var after := Running(k, 0, Bind(f.blocks[k].parameters, succ.arguments, s.env));
      assert Takes(f, succ, s.env, after);
      assert Step(f, s, after);
    }
  }

  /** A run of a safe function that has not halted can go on. */
  lemma SafeRunsProgress(f: Function, s: State)
    requires Safe(f) && WellTyped(f, s) && s.Running?
    ensures exists t :: Step(f, s, t) && !t.Fault?
  {
    var block := f.blocks[s.block];
    assert block in f.blocks;
    if s.pc < |block.instructions| {
      assert ExecutableAt(f, block, s.pc);
      ExecutableIffSupplied(f, block.instructions[s.pc], s.env);
      ExecuteProgress(f, s);
    } else {
      JumpProgress(f, s);
    }
  }

  // ----- completeness: an unsafe function has a faulting run -----

  ghost predicate CanFault(f: Function) {
    exists run: seq<State> :: IsRun(f, run) && run[|run| - 1].Fault?
  }

  /** Some run ends before instruction `pc` of block `b`. */
  ghost predicate Reaches(f: Function, b: nat, pc: nat, run: seq<State>) {
    IsRun(f, run) && var s := run[|run| - 1]; s.Running? && s.block == b && s.pc == pc && WellTyped(f, s)
  }

  lemma RunExtends(f: Function, run: seq<State>, s: State)
    requires IsRun(f, run) && Step(f, run[|run| - 1], s)
    ensures IsRun(f, run + [s])
  {
    var longer := run + [s];
    forall i, j | 0 <= i && j == i + 1 && j < |longer| ensures Step(f, longer[i], longer[j]) {
      if j < |run| {
        assert Step(f, run[i], run[j]);
      }
    }
  }

  function EntryValues(parameters: seq<Typed>): map<Id, Value> {
    if parameters == [] then map[]
    else
      var n := |parameters| - 1;
      EntryValues(parameters[..n])[parameters[n].id := Value(parameters[n].ty, 0)]
  }

  lemma {:induction false} EntryValuesTyped(f: Function, parameters: seq<Typed>)
    requires forall p :: p in parameters ==> p.id in Types(f) && Types(f)[p.id] == p.ty
    ensures forall id :: id in EntryValues(parameters) <==> exists p :: p in parameters && p.id == id
    ensures forall p :: p in parameters ==> p.id in EntryValues(parameters) && EntryValues(parameters)[p.id].ty == p.ty
  {
    if parameters == [] {
    } else {
      var n := |parameters| - 1;
      assert forall p :: p in parameters <==> p in parameters[..n] || p == parameters[n];
      EntryValuesTyped(f, parameters[..n]);
    }
  }

  /** Any block can be entered with values of its parameter types. */
  lemma EnterBlock(f: Function, b: nat) returns (run: seq<State>)
    requires DistinctIds(Declarations(f)) && b < |f.blocks|
    ensures Reaches(f, b, 0, run)
  {
    var block := f.blocks[b];
    forall p | p in block.parameters ensures p.id in Types(f) && Types(f)[p.id] == p.ty {
      ParameterType(f, block, p);
    }
    EntryValuesTyped(f, block.parameters);
    var env := EntryValues(block.parameters);
    assert forall id :: id in env.Keys <==> id in Available(block, 0);
    var s := Running(b, 0, env);
    assert Entry(f, s);
    EntryWellTyped(f, s);
    run := [s];
  }

  lemma PassPoint(f: Function, b: nat, pc: nat, run: seq<State>) returns (longer: seq<State>)
    requires DistinctIds(Declarations(f)) && b < |f.blocks| && pc < |f.blocks[b].instructions| && Reaches(f, b, pc, run)
    requires Supplied(f, f.blocks[b].instructions[pc], run[|run| - 1].env)
    ensures Reaches(f, b, pc + 1, longer)
  {
    var s := run[|run| - 1];
    ExecuteProgress(f, s);
    var t :| Step(f, s, t) && t.Running? && t.block == b && t.pc == pc + 1;
    RunExtends(f, run, t);
    StepSound(f, s, t);
    longer := run + [t];
  }

  /** Any block can be run to any of its points, unless a run faults on the way. */
  lemma {:induction false} ReachPoint(f: Function, b: nat, pc: nat)
    requires DistinctIds(Declarations(f)) && b < |f.blocks| && pc <= |f.blocks[b].instructions|
    ensures CanFault(f) || exists run: seq<State> :: Reaches(f, b, pc, run)
    decreases pc
  {
    if pc == 0 {
      var run := EnterBlock(f, b);
    } else {
      ReachPoint(f, b, pc - 1);
      if !CanFault(f) {
        var run: seq<State> :| Reaches(f, b, pc - 1, run);
        if Supplied(f, f.blocks[b].instructions[pc - 1], run[|run| - 1].env) {
          var longer := PassPoint(f, b, pc - 1, run);
          assert Reaches(f, b, pc, longer);
        } else {
          assert Step(f, run[|run| - 1], Fault);
          FaultExtends(f, run);
        }
      }
    }
  }

  lemma FaultExtends(f: Function, run: seq<State>)
    requires IsRun(f, run) && Step(f, run[|run| - 1], Fault)
    ensures CanFault(f)
  {
    RunExtends(f, run, Fault);
    assert (run + [Fault])[|run|].Fault?;
  }

  lemma UnsafeJumpFaults(f: Function, s: State)
    requires WellTyped(f, s) && s.Running? && s.pc == |f.blocks[s.block].instructions|
    requires !TerminatorSafe(f, f.blocks[s.block])
    ensures Step(f, s, Fault)
  {
    var t := f.blocks[s.block].terminator;
    ReadyIff(t, s.env);
    if Ready(t, s.env) {
      var succ :| succ in t.successors && !Fits(f, s.env.Keys, succ);
      forall k: nat ensures !Enters(f, succ, s.env, k) {
        FitsEnters(f, succ, s.env, k);
      }
      assert Takes(f, succ, s.env, Fault);
    }
  }

  lemma UnsafeFaults(f: Function)
    requires DistinctIds(Declarations(f)) && !Safe(f)
    ensures CanFault(f)
  {
    var block :| block in f.blocks && !BlockSafe(f, block);
    var b :| 0 <= b < |f.blocks| && f.blocks[b] == block;
    if !TerminatorSafe(f, block) {
      ReachPoint(f, b, |block.instructions|);
      if !CanFault(f) {
        var run: seq<State> :| Reaches(f, b, |block.instructions|, run);
        UnsafeJumpFaults(f, run[|run| - 1]);
        FaultExtends(f, run);
      }
    } else {
      var pc: nat :| pc < |block.instructions| && !ExecutableAt(f, block, pc);
      ReachPoint(f, b, pc);
      if !CanFault(f) {
        var run: seq<State> :| Reaches(f, b, pc, run);
        ExecutableIffSupplied(f, block.instructions[pc], run[|run| - 1].env);
        FaultExtends(f, run);
      }
    }
  }

  /** The dataflow checks hold exactly when no run, from any block, faults. */
  lemma SafeIffNoRunFaults(f: Function)
    requires DistinctIds(Declarations(f))
    ensures Safe(f) <==> !CanFault(f)
  {
    if Safe(f) && CanFault(f) {
      var run: seq<State> :| IsRun(f, run) && run[|run| - 1].Fault?;
      SafeRunsNeverFault(f, run, |run| - 1);
    }
    if !Safe(f) {
      UnsafeFaults(f);
    }
  }

  /** Whatever is executed next has what it needs. */
  ghost predicate NextSupplied(f: Function, s: State) {
    s.Running? ==>
      && s.block < |f.blocks|
      && var block := f.blocks[s.block];
         && s.pc <= |block.instructions|
         && (s.pc < |block.instructions| ==> Supplied(f, block.instructions[s.pc], s.env))
         && (s.pc == |block.instructions| ==> Ready(block.terminator, s.env))
  }

  lemma SafeNextSupplied(f: Function, s: State)
    requires Safe(f) && WellTyped(f, s)
    ensures NextSupplied(f, s)
  {
    if s.Running? {
      var block := f.blocks[s.block];
      assert block in f.blocks;
      if s.pc < |block.instructions| {
        assert ExecutableAt(f, block, s.pc);
        ExecutableIffSupplied(f, block.instructions[s.pc], s.env);
      } else {
        assert TerminatorSafe(f, block);
        ReadyIff(block.terminator, s.env);
      }
    }
  }

  /**
   What accepting a function guarantees: in every state of every run the next instruction or
   terminator has what it needs, no run faults, and none gets stuck before it halts.
   */
  lemma AcceptedRunsSafely(f: Function, features: set<string>, run: seq<State>)
    requires Acceptable(f, features) && IsRun(f, run)
    ensures forall n :: 0 <= n < |run| ==> WellTyped(f, run[n]) && !run[n].Fault? && NextSupplied(f, run[n])
    ensures run[|run| - 1].Halted? || exists t :: Step(f, run[|run| - 1], t) && !t.Fault? && IsRun(f, run + [t])
  {
    forall n | 0 <= n < |run| ensures WellTyped(f, run[n]) && !run[n].Fault? && NextSupplied(f, run[n]) {
      SafeRunsNeverFault(f, run, n);
      SafeNextSupplied(f, run[n]);
    }
    var last := run[|run| - 1];
    if last.Running? {
      SafeRunsProgress(f, last);
      var t :| Step(f, last, t) && !t.Fault?;
      RunExtends(f, run, t);
    }
  }

  // ----- without a back-edge every run is short -----

  function EntriesOf(run: seq<State>): seq<nat> {
    if run == [] then []
    else
      var s := run[|run| - 1];
      EntriesOf(run[..|run| - 1]) + if s.Running? && s.pc == 0 then [s.block] else []
  }

  /** Instructions and terminators in the blocks before `b`. */
  function Offset(f: Function, b: nat): nat
    requires b <= |f.blocks|
  {
    if b == 0 then 0 else Offset(f, b - 1) + |f.blocks[b - 1].instructions| + 1
  }

  lemma {:induction false} OffsetGrows(f: Function, a: nat, b: nat)
    requires a < b <= |f.blocks|
    ensures Offset(f, a) + |f.blocks[a].instructions| + 1 <= Offset(f, b)
    decreases b
  {
    if a < b - 1 {
      OffsetGrows(f, a, b - 1);
    }
  }

  lemma SuccessorIsBackEdge(f: Function, from: nat, to: nat, s: Successor)
    requires to <= from < |f.blocks| && s in f.blocks[from].terminator.successors && s.target == f.blocks[to].id
    ensures HasBackEdge(f)
  {
    assert BackEdge(f, from, to);
  }

  lemma ForwardStep(f: Function, before: State, after: State)
    requires WellTyped(f, before) && Step(f, before, after) && after.Running? && !HasBackEdge(f)
    ensures (after.block == before.block && after.pc == before.pc + 1) || (after.block > before.block && after.pc == 0)
  {
    var block := f.blocks[before.block];
    if before.pc == |block.instructions| {
      var s :| s in block.terminator.successors && Takes(f, s, before.env, after);
      assert after.block < |f.blocks| && f.blocks[after.block].id == s.target;
      if after.block <= before.block {
        SuccessorIsBackEdge(f, before.block, after.block, s);
      }
    }
  }

  /** Without a back-edge a run enters strictly later blocks and advances at every step. */
  lemma {:induction false} ForwardRunsBounded(f: Function, run: seq<State>)
    requires DistinctIds(Declarations(f)) && Safe(f) && IsRun(f, run) && !HasBackEdge(f)
    ensures |EntriesOf(run)| <= |f.blocks| && |run| <= Offset(f, |f.blocks|) + 1
  {
    ForwardRunPosition(f, run);
    SafeRunsNeverFault(f, run, |run| - 1);
    var s := run[|run| - 1];
    if s.Running? {
      OffsetGrows(f, s.block, |f.blocks|);
    } else if |run| > 1 {
      EndedRunBounded(f, run);
    }
  }

  lemma EndedRunBounded(f: Function, run: seq<State>)
    requires DistinctIds(Declarations(f)) && Safe(f) && IsRun(f, run) && !HasBackEdge(f) && |run| > 1
    ensures |run| <= Offset(f, |f.blocks|) + 1
  {
    var front := run[..|run| - 1];
    var before := front[|front| - 1];
    assert IsRun(f, front);
    SafeRunsNeverFault(f, front, |front| - 1);
    ForwardRunPosition(f, front);
    assert Step(f, before, run[|run| - 1]);
    OffsetGrows(f, before.block, |f.blocks|);
  }

  lemma {:induction false} ForwardRunPosition(f: Function, run: seq<State>)
    requires DistinctIds(Declarations(f)) && Safe(f) && IsRun(f, run) && !HasBackEdge(f)
    ensures var s := run[|run| - 1];
            s.Running? ==>
              && s.block < |f.blocks| && |EntriesOf(run)| <= s.block + 1
              && |run| <= Offset(f, s.block) + s.pc + 1
    ensures |EntriesOf(run)| <= |f.blocks|
    decreases |run|
  {
    SafeRunsNeverFault(f, run, |run| - 1);
    if |run| == 1 {
      assert EntriesOf(run[..0]) == [];
    } else {
      var n := |run| - 1;
      var front := run[..n];
      assert IsRun(f, front);
      ForwardRunPosition(f, front);
      SafeRunsNeverFault(f, run, n - 1);
      assert Step(f, run[n - 1], run[n]);
      if run[n].Running? {
        ForwardStep(f, run[n - 1], run[n]);
        if run[n].block > run[n - 1].block {
          OffsetGrows(f, run[n - 1].block, run[n].block);
        }
      }
    }
  }
}
