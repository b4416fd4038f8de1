/**
 Compatibility v1: public contracts, what makes one valid, and which pairs of contracts an
 accepted compatibility report allows as old and new.
 */
module Compatibility {
  import opened Basics
  import opened Lexicographic

  // ----- contracts and policies -----

  datatype Kind = Language | Stdlib | Cli | PackageKind | Abi | Schema | Artifact

  datatype Stability = Experimental | Stable | Deprecated

  datatype SemVersion = SemVersion(major: nat, minor: nat, patch: nat)

  datatype Migration = Migration(action: string, replacement: Option<string>)

  /** Dates are day numbers. */
  datatype Deprecation = Deprecation(announced: int, removeAfter: int, editions: seq<string>)

  datatype Surface = Surface(
    id: string, kind: Kind, version: SemVersion, stability: Stability, signature: string, sources: seq<string>,
    migration: Option<Migration>, replacement: Option<string>, deprecation: Option<Deprecation>)

  datatype Removal = Removal(action: string, replacement: string, removedIn: SemVersion, removedOn: int)

  datatype EditionStatus = ExperimentalEdition | SupportedEdition | DeprecatedEdition

  datatype Edition = Edition(
    id: string, status: EditionStatus, migration: Option<Migration>, replacement: Option<string>)

  datatype Compiler = Compiler(
    current: SemVersion, minimum: SemVersion, maximum: SemVersion, migration: Option<Migration>)

  datatype Contract = Contract(
    policyVersion: SemVersion, version: SemVersion, edition: Edition, compiler: Compiler,
    surfaces: seq<Surface>, migrations: map<string, Removal>)

  datatype Severity = Breaking | DeprecatedChange | Additive | CompatibleChange

  datatype PolicyTransition = PolicyTransition(from: SemVersion, severity: Option<Severity>, migration: Option<string>)

  /** `rest` stands for the parts of a policy that are only compared for equality. */
  datatype Policy = Policy(
    version: SemVersion, editions: map<string, EditionStatus>, currentEdition: string,
    current: SemVersion, minimum: SemVersion, maximum: SemVersion, rest: string, transition: Option<PolicyTransition>)

  const MINIMUM_DAYS: int := 180
  const MINIMUM_EDITIONS: nat := 2

  predicate Less(a: SemVersion, b: SemVersion) {
    a.major < b.major || (a.major == b.major && (a.minor < b.minor || (a.minor == b.minor && a.patch < b.patch)))
  }

  predicate AtMost(a: SemVersion, b: SemVersion) {
    a == b || Less(a, b)
  }

  function KindRank(k: Kind): nat {
    match k
    case Language => 0
    case Stdlib => 1
    case Cli => 2
    case PackageKind => 3
    case Abi => 4
    case Schema => 5
    case Artifact => 6
  }

  function StabilityRank(s: Stability): nat {
    match s
    case Experimental => 0
    case Stable => 1
    case Deprecated => 2
  }

  function CompareIds(a: string, b: string): int {
    CompareSeq(CompareChar, a, b)
  }

  // ----- validity of one contract -----

  predicate DeprecationValid(d: Deprecation, policy: Policy) {
    && d.removeAfter - d.announced >= MINIMUM_DAYS
    && |d.editions| >= MINIMUM_EDITIONS
    && (forall i, j :: 0 <= i < j < |d.editions| ==> CompareIds(d.editions[i], d.editions[j]) == -1)
    && (forall e :: e in d.editions ==> e in policy.editions)
  }

  predicate SurfaceValid(s: Surface, policy: Policy) {
    && (s.stability != Experimental ==> s.version.major >= 1)
    && if s.stability == Deprecated then
         && s.migration.Some? && s.replacement.Some?
         && s.migration.value.replacement in {None, s.replacement}
         && s.deprecation.Some? && DeprecationValid(s.deprecation.value, policy)
       else s.replacement.None? && s.deprecation.None?
  }

  /** Sorted by kind, then identifier. */
  predicate InOrder(a: Surface, b: Surface) {
    KindRank(a.kind) < KindRank(b.kind) || (a.kind == b.kind && CompareIds(a.id, b.id) <= 0)
  }

  function IndexOf(surfaces: seq<Surface>): map<string, Surface> {
    if surfaces == [] then map[]
    else IndexOf(surfaces[..|surfaces| - 1])[surfaces[|surfaces| - 1].id := surfaces[|surfaces| - 1]]
  }

  lemma {:induction false} IndexMeans(surfaces: seq<Surface>)
    ensures forall id :: id in IndexOf(surfaces) <==> exists s :: s in surfaces && s.id == id
    ensures forall id :: id in IndexOf(surfaces) ==> IndexOf(surfaces)[id] in surfaces && IndexOf(surfaces)[id].id == id
  {
    if surfaces == [] {
    } else {
      var n := |surfaces| - 1;
      IndexMeans(surfaces[..n]);
      assert forall s :: s in surfaces <==> s in surfaces[..n] || s == surfaces[n];
    }
  }

  ghost predicate UniqueIds(surfaces: seq<Surface>) {
    forall i, j :: 0 <= i < j < |surfaces| ==> surfaces[i].id != surfaces[j].id
  }

  ghost predicate Ordered(surfaces: seq<Surface>) {
    forall i, j :: 0 <= i && j == i + 1 && j < |surfaces| ==> InOrder(surfaces[i], surfaces[j])
  }

  ghost predicate Listed(surfaces: seq<Surface>, policy: Policy) {
    && UniqueIds(surfaces)
    && Ordered(surfaces)
    && (forall s :: s in surfaces ==> SurfaceValid(s, policy))
  }

  /** Following replacements from `id` reaches a surface that is not deprecated after exactly `n` steps. */
  ghost predicate ResolvesIn(indexed: map<string, Surface>, id: string, n: nat)
    decreases n
  {
    id in indexed &&
    if n == 0 then indexed[id].stability != Deprecated
    else
      && indexed[id].stability == Deprecated && indexed[id].replacement.Some?
      && ResolvesIn(indexed, indexed[id].replacement.value, n - 1)
  }

  ghost predicate Resolves(indexed: map<string, Surface>, id: string) {
    exists n: nat :: ResolvesIn(indexed, id, n)
  }

  ghost predicate ReplacementsResolve(indexed: map<string, Surface>) {
    forall id :: id in indexed ==> Resolves(indexed, id)
  }

  predicate HasKind(surfaces: seq<Surface>, k: Kind) {
    exists s :: s in surfaces && s.kind == k
  }

  ghost predicate AllKinds(surfaces: seq<Surface>) {
    forall k: Kind :: HasKind(surfaces, k)
  }

  predicate EditionValid(e: Edition, policy: Policy) {
    && (if e.status == DeprecatedEdition
        then e.migration.Some? && e.replacement.Some? && e.replacement.value != e.id
        else e.replacement.None?)
    && e.id == policy.currentEdition
    && e.id in policy.editions && policy.editions[e.id] == e.status
  }

  predicate CompilerValid(c: Compiler, policy: Policy) {
    && AtMost(c.minimum, c.current) && AtMost(c.current, c.maximum)
    && c.current == policy.current && c.minimum == policy.minimum && c.maximum == policy.maximum
  }

  ghost predicate ContractValid(c: Contract, policy: Policy) {
    && c.policyVersion == policy.version
    && EditionValid(c.edition, policy)
    && CompilerValid(c.compiler, policy)
    && c.surfaces != []
    && Listed(c.surfaces, policy)
    && ReplacementsResolve(IndexOf(c.surfaces))
    && AllKinds(c.surfaces)
  }

  predicate PolicyValid(p: Policy) {
    AtMost(p.minimum, p.current) && AtMost(p.current, p.maximum) && p.currentEdition in p.editions
  }

  // ----- one surface from old to new -----

  datatype Bump = NoBump | MajorBump | MinorBump | PatchBump

  function BumpKind(old_: SemVersion, new_: SemVersion): (b: Bump)
    ensures b == NoBump <==> AtMost(new_, old_)
    ensures b == MajorBump <==> new_.major > old_.major
    ensures b == MinorBump <==> new_.major == old_.major && new_.minor > old_.minor
  {
    if AtMost(new_, old_) then NoBump
    else if new_.major > old_.major then MajorBump
    else if new_.minor > old_.minor then MinorBump
    else PatchBump
  }

  datatype ChangeKind = Added | Removed | Modified | Deprecating

  /** A surface without its sources. */
  function Semantics(s: Surface): Surface {
    s.(sources := [])
  }

  predicate SignatureChanged(o: Surface, n: Surface) {
    o.kind != n.kind || o.signature != n.signature
  }

  /** The change and its severity, or `None` where the change is not allowed. */
  function Classify(o: Surface, n: Surface): Option<(ChangeKind, Severity)> {
    var bump := BumpKind(o.version, n.version);
    if bump == NoBump then None
    else if o.stability == Deprecated && (SignatureChanged(o, n) || n.stability != Deprecated) then None
    else if o.stability == Stable && n.stability == Experimental then None
    else if o.stability != Deprecated && n.stability == Deprecated then
      if SignatureChanged(o, n) || (o.stability == Stable && bump != MinorBump) then None
      else Some((Deprecating, DeprecatedChange))
    else if SignatureChanged(o, n) then
      if o.stability == Stable && bump != MajorBump then None else Some((Modified, Breaking))
    else if bump == MajorBump then Some((Modified, Breaking))
    else if o.stability == Experimental && n.stability == Stable then Some((Modified, Additive))
    else if bump == MinorBump then Some((Modified, Additive))
    else Some((Modified, CompatibleChange))
  }

  predicate NeedsMigration(s: Severity) {
    s == Breaking || s == DeprecatedChange
  }

  predicate SurfaceStep(o: Surface, n: Surface) {
    Semantics(o) == Semantics(n) ||
    (var c := Classify(o, n); c.Some? && (NeedsMigration(c.value.1) <==> n.migration.Some?))
  }

  predicate RemovalAllowed(old_: Contract, new_: Contract, o: Surface, r: Removal) {
    && o.stability == Deprecated
    && r.removedIn == new_.version
    && o.deprecation.Some? && r.removedOn >= o.deprecation.value.removeAfter
    && new_.version.major > old_.version.major
    && Some(r.replacement) == o.replacement
    && r.replacement in IndexOf(new_.surfaces)
  }

  // ----- the whole report -----

  /** What changed, for one surface, with the versions and advice that go into the report. */
  datatype Change = Change(
    change: ChangeKind, severity: Severity, kind: Kind, id: string, oldVersion: Option<SemVersion>,
    newVersion: Option<SemVersion>, migration: Option<string>, replacement: Option<string>)

  function ActionOf(m: Option<Migration>): Option<string> {
    if m.Some? then Some(m.value.action) else None
  }

  predicate AddedStep(before: map<string, Surface>, after: map<string, Surface>, historical: bool) {
    forall id :: id in after && id !in before ==> historical || after[id].migration.None?
  }

  predicate RemovedStep(old_: Contract, new_: Contract) {
    var before, after := IndexOf(old_.surfaces), IndexOf(new_.surfaces);
    forall id :: id in before && id !in after ==>
      id in new_.migrations && RemovalAllowed(old_, new_, before[id], new_.migrations[id])
  }

  predicate KeptStep(before: map<string, Surface>, after: map<string, Surface>) {
    forall id :: id in before && id in after ==> SurfaceStep(before[id], after[id])
  }

  predicate SurfacesStep(old_: Contract, new_: Contract, historical: bool) {
    var before, after := IndexOf(old_.surfaces), IndexOf(new_.surfaces);
    && new_.migrations.Keys == before.Keys - after.Keys
    && AddedStep(before, after, historical) && RemovedStep(old_, new_) && KeptStep(before, after)
  }

  predicate PolicyDrift(p: Policy, q: Policy) {
    p.(transition := None) != q.(transition := None)
  }

  predicate PolicyStep(p: Policy, q: Policy) {
    && AtMost(p.version, q.version)
    && if PolicyDrift(p, q) then
         && Less(p.version, q.version) && q.transition.Some? && q.transition.value.from == p.version
         && q.transition.value.severity.Some?
         && (if NeedsMigration(q.transition.value.severity.value)
             then q.transition.value.migration.Some? && q.transition.value.migration.value != ""
             else q.transition.value.migration.None?)
       else q.transition.None?
  }

  function PolicySeverity(p: Policy, q: Policy): Severity {
    if PolicyDrift(p, q) && q.transition.Some? && q.transition.value.severity.Some?
      then q.transition.value.severity.value else CompatibleChange
  }

  predicate CompilerChanged(o: Compiler, n: Compiler) {
    (o.current, o.minimum, o.maximum) != (n.current, n.minimum, n.maximum)
  }

  function CompilerSeverity(o: Compiler, n: Compiler): Severity {
    if Less(o.minimum, n.minimum) || Less(n.maximum, o.maximum) then Breaking
    else if Less(n.minimum, o.minimum) || Less(o.maximum, n.maximum) then Additive
    else CompatibleChange
  }

  predicate CompilerStep(o: Compiler, n: Compiler) {
    (CompilerChanged(o, n) && CompilerSeverity(o, n) == Breaking) <==> n.migration.Some?
  }

  function EditionRank(s: EditionStatus): nat {
    match s
    case ExperimentalEdition => 0
    case SupportedEdition => 1
    case DeprecatedEdition => 2
  }

  predicate EditionStep(o: Edition, n: Edition) {
    && (o.id == n.id ==> EditionRank(o.status) <= EditionRank(n.status))
    && (o.id != n.id ==> n.migration.Some?)
    && (o.id == n.id && o.status != DeprecatedEdition && n.status == DeprecatedEdition ==> n.migration.Some?)
  }

  function EditionSeverity(o: Edition, n: Edition): Severity {
    if o.id != n.id then Breaking
    else if o.status != DeprecatedEdition && n.status == DeprecatedEdition then DeprecatedChange
    else CompatibleChange
  }

  predicate EditionDrift(o: Edition, n: Edition) {
    (o.id, o.status) != (n.id, n.status)
  }

  /** The contract version never falls, rises with any drift, and rises far enough for the gravest change. */
  predicate VersionStep(old_: SemVersion, new_: SemVersion, drift: bool, severities: set<Severity>) {
    && AtMost(old_, new_)
    && (drift ==> Less(old_, new_))
    && (drift && old_.major > 0 ==>
          && (Breaking in severities ==> new_.major > old_.major)
          && (Breaking !in severities && (Additive in severities || DeprecatedChange in severities) ==>
                new_.major > old_.major || new_.minor > old_.minor))
    && (drift && old_.major == 0 && Breaking in severities ==> new_.major > old_.major || new_.minor > old_.minor)
  }

  function ChangeOf(
    before: map<string, Surface>, after: map<string, Surface>, removals: map<string, Removal>, id: string)
    : Option<Change>
    requires id in before || id in after
  {
    if id !in before then
      Some(Change(Added, Additive, after[id].kind, id, None, Some(after[id].version), None, None))
    else if id !in after then
      var removal := if id in removals then Some(removals[id]) else None;
      Some(Change(
        Removed, Breaking, before[id].kind, id, Some(before[id].version), None,
        if removal.Some? then Some(removal.value.action) else None,
        if removal.Some? then Some(removal.value.replacement) else None))
    else if Semantics(before[id]) == Semantics(after[id]) then None
    else
      var o, n, c := before[id], after[id], Classify(before[id], after[id]);
      if c.None? then None
      else
        Some(Change(
          c.value.0, c.value.1, n.kind, id, Some(o.version), Some(n.version), ActionOf(n.migration), n.replacement))
  }

  /** The change of one surface between two contracts. */
  function ChangeBetween(old_: Contract, new_: Contract, id: string): Option<Change>
    requires id in IndexOf(old_.surfaces) || id in IndexOf(new_.surfaces)
  {
    ChangeOf(IndexOf(old_.surfaces), IndexOf(new_.surfaces), new_.migrations, id)
  }

  /** Every change between two contracts. */
  function ChangeSet(old_: Contract, new_: Contract): set<Change> {
    var before, after := IndexOf(old_.surfaces), IndexOf(new_.surfaces);
    set id | id in before.Keys + after.Keys && ChangeBetween(old_, new_, id).Some? ::
      ChangeBetween(old_, new_, id).value
  }

  function Severities(changes: set<Change>, old_: Contract, new_: Contract, p: Policy, q: Policy): set<Severity> {
    (set c | c in changes :: c.severity) + {EditionSeverity(old_.edition, new_.edition)} +
    (if CompilerChanged(old_.compiler, new_.compiler) then {CompilerSeverity(old_.compiler, new_.compiler)} else {}) +
    (if PolicyDrift(p, q) then {PolicySeverity(p, q)} else {})
  }

  predicate Drift(changes: set<Change>, old_: Contract, new_: Contract, p: Policy, q: Policy) {
    changes != {} || EditionDrift(old_.edition, new_.edition) || CompilerChanged(old_.compiler, new_.compiler) ||
      PolicyDrift(p, q)
  }

  /** A compatibility report is produced for this pair of contracts under these policies. */
  ghost predicate Accepted(old_: Contract, new_: Contract, p: Policy, q: Policy, historical: bool) {
    && PolicyValid(p) && PolicyValid(q) && PolicyStep(p, q)
    && ContractValid(old_, p) && ContractValid(new_, q)
    && SurfacesStep(old_, new_, historical)
    && CompilerStep(old_.compiler, new_.compiler)
    && EditionStep(old_.edition, new_.edition)
    && var changes := ChangeSet(old_, new_);
       VersionStep(old_.version, new_.version, Drift(changes, old_, new_, p, q), Severities(changes, old_, new_, p, q))
  }
}
