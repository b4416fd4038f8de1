/**
 The compatibility checker as written: it indexes and validates both contracts, walks the
 replacement chains, and collects and sorts the changes of an acceptable step.
 */
module CompatibilityChecker {
  import opened Basics
  import opened Lexicographic
  import opened Compatibility
  import opened CompatibilityRules

  datatype ContractError =
    | PolicyVersionMismatch | EditionInvalid | CompilerInvalid | NoSurfaces
    | DuplicateSurface(id: string) | Unsorted | SurfaceInvalid(id: string)
    | ReplacementUnresolved(id: string) | KindMissing

  datatype Indexed = Ok(surfaces: map<string, Surface>) | Bad(error: ContractError)

  // ----- one contract -----

  /** Indexes the surfaces, stopping at the first one that is repeated, misplaced or invalid. */
  method IndexSurfaces(surfaces: seq<Surface>, policy: Policy) returns (r: Indexed)
    ensures r.Ok? <==> Listed(surfaces, policy)
    ensures r.Ok? ==> r.surfaces == IndexOf(surfaces)
  {
    var indexed: map<string, Surface> := map[];
    for i := 0 to |surfaces|
      invariant indexed == IndexOf(surfaces[..i])
      invariant Listed(surfaces[..i], policy)
    {
      var s := surfaces[i];
      NotListed(surfaces, i, policy);
      if s.id in indexed {
        return Bad(DuplicateSurface(s.id));
      }
      if i > 0 && !InOrder(surfaces[i - 1], s) {
        return Bad(Unsorted);
      }
      if !SurfaceValid(s, policy) {
        return Bad(SurfaceInvalid(s.id));
      }
      ListedSnoc(surfaces[..i], s, policy);
      assert surfaces[..i + 1] == surfaces[..i] + [s] && surfaces[..i + 1][..i] == surfaces[..i];
      indexed := indexed[s.id := s];
    }
    assert surfaces[..|surfaces|] == surfaces;
    r := Ok(indexed);
  }

  /** A repeated, misplaced or invalid surface spoils the list. */
  lemma NotListed(surfaces: seq<Surface>, i: nat, policy: Policy)
    requires i < |surfaces|
    ensures surfaces[i].id in IndexOf(surfaces[..i]) ==> !UniqueIds(surfaces)
    ensures i > 0 && !InOrder(surfaces[i - 1], surfaces[i]) ==> !Ordered(surfaces)
    ensures !SurfaceValid(surfaces[i], policy) ==> !Listed(surfaces, policy)
  {
    var front, id := surfaces[..i], surfaces[i].id;
    if id in IndexOf(front) {
      IndexMeans(front);
      var x :| x in front && x.id == id;
      var k :| 0 <= k < |front| && front[k] == x;
      assert surfaces[k].id == surfaces[i].id;
    }
    assert surfaces[i] in surfaces;
  }

  lemma ListedSnoc(front: seq<Surface>, s: Surface, policy: Policy)
    requires Listed(front, policy) && s.id !in IndexOf(front) && SurfaceValid(s, policy)
    requires front != [] ==> InOrder(front[|front| - 1], s)
    ensures Listed(front + [s], policy)
  {
    IndexMeans(front);
    UniqueSnoc(front, s);
    OrderedSnoc(front, s);
  }

  lemma UniqueSnoc(front: seq<Surface>, s: Surface)
    requires UniqueIds(front) && forall x :: x in front ==> x.id != s.id
    ensures UniqueIds(front + [s])
  {
    var all := front + [s];
    forall i, j | 0 <= i < j < |all| ensures all[i].id != all[j].id {
      if j == |front| {
        assert front[i] in front;
      }
    }
  }

  lemma OrderedSnoc(front: seq<Surface>, s: Surface)
    requires Ordered(front) && (front != [] ==> InOrder(front[|front| - 1], s))
    ensures Ordered(front + [s])
  {
  }

  /** Names that only replace each other never resolve. */
  lemma {:induction false} TrappedNeverResolves(indexed: map<string, Surface>, trap: set<string>, id: string, n: nat)
    requires id in trap
    requires forall x :: x in trap ==>
               x in indexed && indexed[x].stability == Deprecated &&
                 (indexed[x].replacement.Some? ==> indexed[x].replacement.value in trap)
    ensures !ResolvesIn(indexed, id, n)
    decreases n
  {
    if n > 0 && indexed[id].replacement.Some? {
      TrappedNeverResolves(indexed, trap, indexed[id].replacement.value, n - 1);
    }
  }

  lemma ResolveStep(indexed: map<string, Surface>, id: string)
    requires id in indexed && indexed[id].stability == Deprecated && indexed[id].replacement.Some?
    ensures Resolves(indexed, id) <==> Resolves(indexed, indexed[id].replacement.value)
  {
    var next := indexed[id].replacement.value;
    if Resolves(indexed, id) {
      var n: nat :| ResolvesIn(indexed, id, n);
      assert ResolvesIn(indexed, next, n - 1);
    }
    if Resolves(indexed, next) {
      var n: nat :| ResolvesIn(indexed, next, n);
      assert ResolvesIn(indexed, id, n + 1);
    }
  }

  /** The walk along replacements from one deprecated surface. */
  method WalkReplacements(indexed: map<string, Surface>, id: string) returns (ok: bool)
    requires id in indexed && indexed[id].stability == Deprecated
    requires forall x :: x in indexed && indexed[x].stability == Deprecated ==> indexed[x].replacement.Some?
    ensures ok <==> Resolves(indexed, id)
  {
    var replacement := indexed[id].replacement.value;
    ResolveStep(indexed, id);
    if replacement == id || replacement !in indexed {
      if replacement == id {
        forall n: nat ensures !ResolvesIn(indexed, id, n) {
          TrappedNeverResolves(indexed, {id}, id, n);
        }
      }
      return false;
    }
    var seen, cursor := {id}, replacement;
    while indexed[cursor].stability == Deprecated
      invariant cursor in indexed && seen <= indexed.Keys
      invariant forall x :: x in seen ==>
                  indexed[x].stability == Deprecated &&
                    (indexed[x].replacement.value in seen || indexed[x].replacement.value == cursor)
      invariant Resolves(indexed, id) <==> Resolves(indexed, cursor)
      decreases indexed.Keys - seen
    {
      if cursor in seen {
        forall n: nat ensures !ResolvesIn(indexed, cursor, n) {
          TrappedNeverResolves(indexed, seen, cursor, n);
        }
        return false;
      }
      ResolveStep(indexed, cursor);
      seen := seen + {cursor};
      cursor := indexed[cursor].replacement.value;
      if cursor !in indexed {
        return false;
      }
    }
    assert ResolvesIn(indexed, cursor, 0);
    ok := true;
  }

  method CheckReplacements(indexed: map<string, Surface>) returns (bad: Option<string>)
    requires forall x :: x in indexed && indexed[x].stability == Deprecated ==> indexed[x].replacement.Some?
    ensures bad.None? <==> ReplacementsResolve(indexed)
    ensures bad.Some? ==> bad.value in indexed && !Resolves(indexed, bad.value)
  {
    var rest := indexed.Keys;
    while rest != {}
      invariant rest <= indexed.Keys
      invariant forall id :: id in indexed && id !in rest ==> Resolves(indexed, id)
    {
      var id := PickAny(rest);
      if indexed[id].stability == Deprecated {
        var ok := WalkReplacements(indexed, id);
        if !ok {
          return Some(id);
        }
      } else {
        assert ResolvesIn(indexed, id, 0);
      }
      rest := rest - {id};
    }
    bad := None;
  }

  method CheckKinds(surfaces: seq<Surface>) returns (ok: bool)
    ensures ok <==> AllKinds(surfaces)
  {
    ok := HasKind(surfaces, Language) && HasKind(surfaces, Stdlib) && HasKind(surfaces, Cli) &&
          HasKind(surfaces, PackageKind) && HasKind(surfaces, Abi) && HasKind(surfaces, Schema) &&
          HasKind(surfaces, Artifact);
    if ok {
      forall k: Kind ensures HasKind(surfaces, k) {
        match k
        case _ =>
      }
    }
  }

  method ValidateContract(c: Contract, policy: Policy) returns (r: Indexed)
    ensures r.Ok? <==> ContractValid(c, policy)
    ensures r.Ok? ==> r.surfaces == IndexOf(c.surfaces)
  {
    if c.policyVersion != policy.version {
      return Bad(PolicyVersionMismatch);
    }
    if !EditionValid(c.edition, policy) {
      return Bad(EditionInvalid);
    }
    if !CompilerValid(c.compiler, policy) {
      return Bad(CompilerInvalid);
    }
    if c.surfaces == [] {
      return Bad(NoSurfaces);
    }
    r := IndexSurfaces(c.surfaces, policy);
    if r.Bad? {
      return;
    }
    IndexMeans(c.surfaces);
    var bad := CheckReplacements(r.surfaces);
    if bad.Some? {
      return Bad(ReplacementUnresolved(bad.value));
    }
    var kinds := CheckKinds(c.surfaces);
    if !kinds {
      return Bad(KindMissing);
    }
  }

  // ----- sorting changes -----

  function SeverityRank(s: Severity): nat {
    match s
    case Breaking => 0
    case DeprecatedChange => 1
    case Additive => 2
    case CompatibleChange => 3
  }

  /** Gravest first, then by kind and identifier. */
  predicate SortsBefore(a: Change, b: Change) {
    || SeverityRank(a.severity) < SeverityRank(b.severity)
    || (a.severity == b.severity &&
        (KindRank(a.kind) < KindRank(b.kind) || (a.kind == b.kind && CompareIds(a.id, b.id) == -1)))
  }

  ghost predicate SortedChanges(changes: seq<Change>) {
    forall i, j :: 0 <= i < j < |changes| ==> SortsBefore(changes[i], changes[j])
  }

  lemma SortsBeforeOrder(a: Change, b: Change, c: Change)
    ensures SortsBefore(a, b) && SortsBefore(b, c) ==> SortsBefore(a, c)
    ensures a.id != b.id ==> SortsBefore(a, b) || SortsBefore(b, a)
  {
    CharOrder();
    SeqAntisymmetric(CompareChar, a.id, b.id);
    if CompareIds(a.id, b.id) == -1 && CompareIds(b.id, c.id) == -1 {
      SeqTransitive(CompareChar, a.id, b.id, c.id);
    }
  }

  const GRAVEST_FIRST: seq<Severity> := [Breaking, DeprecatedChange, Additive, CompatibleChange]

  ghost predicate Graver(a: Severity, b: Severity) {
    exists i, j :: 0 <= i < j < |GRAVEST_FIRST| && GRAVEST_FIRST[i] == a && GRAVEST_FIRST[j] == b
  }

  /** Gravest first, then by kind, then by the code points of the identifier. */
  ghost predicate ListedBefore(a: Change, b: Change) {
    || Graver(a.severity, b.severity)
    || (a.severity == b.severity && (KindBefore(a.kind, b.kind) || (a.kind == b.kind && TextBefore(a.id, b.id))))
  }

  lemma GraverIff(a: Severity, b: Severity)
    ensures SeverityRank(a) < SeverityRank(b) <==> Graver(a, b)
  {
    SeverityAt(a);
    SeverityAt(b);
    assert SeverityRank(a) < SeverityRank(b) ==> Graver(a, b);
    forall i, j | 0 <= i < j < |GRAVEST_FIRST| && GRAVEST_FIRST[i] == a && GRAVEST_FIRST[j] == b
      ensures SeverityRank(a) < SeverityRank(b)
    {
      assert SeverityRank(GRAVEST_FIRST[i]) == i && SeverityRank(GRAVEST_FIRST[j]) == j;
    }
  }

  lemma SeverityAt(s: Severity)
    ensures GRAVEST_FIRST[SeverityRank(s)] == s
  {
  }

  lemma ListedBeforeIff(a: Change, b: Change)
    ensures SortsBefore(a, b) <==> ListedBefore(a, b)
  {
    GraverIff(a.severity, b.severity);
    KindBeforeIff(a.kind, b.kind);
    TextBeforeIff(a.id, b.id);
  }

  lemma SortedIsListed(changes: seq<Change>)
    requires SortedChanges(changes)
    ensures forall i, j :: 0 <= i < j < |changes| ==> ListedBefore(changes[i], changes[j])
  {
    forall i, j | 0 <= i < j < |changes| ensures ListedBefore(changes[i], changes[j]) {
      ListedBeforeIff(changes[i], changes[j]);
    }
  }

  /** Puts a change for a new surface at its place. */
  method Insert(changes: seq<Change>, c: Change) returns (r: seq<Change>)
    requires SortedChanges(changes) && forall x :: x in changes ==> x.id != c.id
    ensures SortedChanges(r) && |r| == |changes| + 1
    ensures forall x :: x in r <==> x in changes || x == c
  {
    var k := 0;
    while k < |changes| && SortsBefore(changes[k], c)
      invariant 0 <= k <= |changes|
      invariant forall i :: 0 <= i < k ==> SortsBefore(changes[i], c)
    {
      k := k + 1;
    }
    r := changes[..k] + [c] + changes[k..];
    AfterInserted(changes, c, k);
    InsertedSorted(changes, c, k);
    assert forall x :: x in changes <==> x in changes[..k] || x in changes[k..];
  }

  /** Once `c` no longer sorts after an element, it sorts before it and everything behind it. */
  lemma AfterInserted(changes: seq<Change>, c: Change, k: nat)
    requires SortedChanges(changes) && (forall x :: x in changes ==> x.id != c.id)
    requires k <= |changes| && (k < |changes| ==> !SortsBefore(changes[k], c))
    ensures forall i :: k <= i < |changes| ==> SortsBefore(c, changes[i])
  {
    forall i | k <= i < |changes| ensures SortsBefore(c, changes[i]) {
      assert changes[k] in changes;
      SortsBeforeOrder(changes[k], c, c);
      SortsBeforeOrder(c, changes[k], changes[i]);
    }
  }

  lemma InsertedSorted(changes: seq<Change>, c: Change, k: nat)
    requires SortedChanges(changes) && k <= |changes|
    requires forall i :: 0 <= i < k ==> SortsBefore(changes[i], c)
    requires forall i :: k <= i < |changes| ==> SortsBefore(c, changes[i])
    ensures SortedChanges(changes[..k] + [c] + changes[k..])
  {
    var r := changes[..k] + [c] + changes[k..];
    forall i, j | 0 <= i < j < |r| ensures SortsBefore(r[i], r[j]) {
      assert r[i] == if i < k then changes[i] else if i == k then c else changes[i - 1];
      assert r[j] == if j < k then changes[j] else if j == k then c else changes[j - 1];
    }
  }

  // ----- the report -----

  datatype Report = Report(changes: seq<Change>, breaking: nat, additive: nat, deprecated: nat, compatible: nat)

  datatype Refusal =
    | PolicyRefused | OldInvalid(error: ContractError) | NewInvalid(error: ContractError) | MigrationKeysDiffer
    | SurfaceRefused(id: string) | CompilerRefused | EditionRefused | VersionRefused

  datatype Outcome = Reported(report: Report) | Refused(refusal: Refusal)

  /** One surface may be added, removed or changed as it is. */
  predicate IdAllowed(old_: Contract, new_: Contract, historical: bool, id: string) {
    var before, after := IndexOf(old_.surfaces), IndexOf(new_.surfaces);
    if id in after && id !in before then historical || after[id].migration.None?
    else if id in before && id !in after
      then id in new_.migrations && RemovalAllowed(old_, new_, before[id], new_.migrations[id])
    else if id in before then SurfaceStep(before[id], after[id])
    else true
  }

  lemma SurfacesStepMeans(old_: Contract, new_: Contract, historical: bool)
    ensures SurfacesStep(old_, new_, historical) <==>
            new_.migrations.Keys == IndexOf(old_.surfaces).Keys - IndexOf(new_.surfaces).Keys &&
            forall id :: id in IndexOf(old_.surfaces).Keys + IndexOf(new_.surfaces).Keys ==>
              IdAllowed(old_, new_, historical, id)
  {
    var before, after := IndexOf(old_.surfaces), IndexOf(new_.surfaces);
    if forall id :: id in before.Keys + after.Keys ==> IdAllowed(old_, new_, historical, id) {
      forall id | id in before || id in after ensures IdAllowed(old_, new_, historical, id) {
        assert id in before.Keys + after.Keys;
      }
    }
  }

  ghost predicate Collected(old_: Contract, new_: Contract, ids: set<string>, changes: seq<Change>) {
    var before, after := IndexOf(old_.surfaces), IndexOf(new_.surfaces);
    && (forall id :: id in ids ==> id in before || id in after)
    && (forall c :: c in changes ==> c.id in ids && ChangeBetween(old_, new_, c.id) == Some(c))
    && (forall id :: id in ids && ChangeBetween(old_, new_, id).Some? ==>
      ChangeBetween(old_, new_, id).value in changes)
  }

  lemma CollectedAll(old_: Contract, new_: Contract, changes: seq<Change>)
    requires Collected(old_, new_, IndexOf(old_.surfaces).Keys + IndexOf(new_.surfaces).Keys, changes)
    ensures forall c :: c in changes <==> c in ChangeSet(old_, new_)
  {
  }

  /** Adds the changes of one group of surfaces, or stops at a surface that must not change so. */
  method CollectGroup(
    old_: Contract, new_: Contract, historical: bool, group: set<string>, changes: seq<Change>, ghost done: set<string>)
    returns (refused: Option<string>, changes': seq<Change>)
    requires SortedChanges(changes) && Collected(old_, new_, done, changes)
    requires forall id :: id in group ==> id !in done && (id in IndexOf(old_.surfaces) || id in IndexOf(new_.surfaces))
    ensures refused.None? <==> forall id :: id in group ==> IdAllowed(old_, new_, historical, id)
    ensures refused.Some? ==> refused.value in group && !IdAllowed(old_, new_, historical, refused.value)
    ensures refused.None? ==> SortedChanges(changes') && Collected(old_, new_, done + group, changes')
  {
    changes' := changes;
    var rest := group;
    ghost var seen := done;
    while rest != {}
      invariant rest <= group && seen == done + (group - rest)
      invariant forall id :: id in group && id !in rest ==> IdAllowed(old_, new_, historical, id)
      invariant SortedChanges(changes') && Collected(old_, new_, seen, changes')
    {
      var id := PickAny(rest);
      if !IdAllowed(old_, new_, historical, id) {
        return Some(id), changes';
      }
      var change := ChangeBetween(old_, new_, id);
      ghost var earlier := changes';
      if change.Some? {
        changes' := Insert(changes', change.value);
      }
      CollectedSnoc(old_, new_, seen, earlier, id, changes');
      rest, seen := rest - {id}, seen + {id};
    }
    assert done + (group - rest) == done + group;
    refused := None;
  }

  lemma CollectedSnoc(
    old_: Contract, new_: Contract, ids: set<string>, changes: seq<Change>, id: string, changes': seq<Change>)
    requires Collected(old_, new_, ids, changes) && (id in IndexOf(old_.surfaces) || id in IndexOf(new_.surfaces))
    requires var change := ChangeBetween(old_, new_, id);
             if change.Some?
             then forall c :: c in changes' <==> c in changes || c == change.value
             else changes' == changes
    ensures Collected(old_, new_, ids + {id}, changes')
  {
  }

  function CountSeverity(changes: seq<Change>, s: Severity): nat {
    if changes == [] then 0
    else CountSeverity(changes[..|changes| - 1], s) + if changes[|changes| - 1].severity == s then 1 else 0
  }

  /** The places of the changes with one severity. */
  function PlacesOf(changes: seq<Change>, s: Severity): set<int> {
    PlacesBefore(changes, s, |changes|)
  }

  function PlacesBefore(changes: seq<Change>, s: Severity, n: nat): set<int>
    requires n <= |changes|
  {
    set i | 0 <= i < n && changes[i].severity == s
  }

  lemma {:induction false} CountBefore(changes: seq<Change>, s: Severity, n: nat)
    requires n <= |changes|
    ensures CountSeverity(changes[..n], s) == |PlacesBefore(changes, s, n)|
  {
    if n == 0 {
      assert PlacesBefore(changes, s, 0) == {};
    } else {
      CountBefore(changes, s, n - 1);
      var front := PlacesBefore(changes, s, n - 1);
      assert changes[..n][..n - 1] == changes[..n - 1];
      if changes[n - 1].severity == s {
        assert PlacesBefore(changes, s, n) == front + {n - 1};
      } else {
        assert PlacesBefore(changes, s, n) == front;
      }
    }
  }

  lemma CountMeans(changes: seq<Change>, s: Severity)
    ensures CountSeverity(changes, s) == |PlacesOf(changes, s)|
  {
    CountBefore(changes, s, |changes|);
    assert changes[..|changes|] == changes;
  }

  /** Every change falls under exactly one of the four counts. */
  lemma {:induction false} CountsCover(changes: seq<Change>)
    ensures CountSeverity(changes, Breaking) + CountSeverity(changes, Additive) +
            CountSeverity(changes, DeprecatedChange) + CountSeverity(changes, CompatibleChange) == |changes|
  {
    if changes == [] {
    } else {
      CountsCover(changes[..|changes| - 1]);
    }
  }

  /** Added surfaces first, then removed, then kept ones. */
  method CollectChanges(old_: Contract, new_: Contract, historical: bool)
    returns (refused: Option<string>, changes: seq<Change>)
    ensures refused.None? <==>
            forall id :: id in IndexOf(old_.surfaces).Keys + IndexOf(new_.surfaces).Keys ==>
              IdAllowed(old_, new_, historical, id)
    ensures refused.None? ==> SortedChanges(changes) && forall c :: c in changes <==> c in ChangeSet(old_, new_)
    ensures refused.Some? ==>
              && (refused.value in IndexOf(old_.surfaces) || refused.value in IndexOf(new_.surfaces))
              && !IdAllowed(old_, new_, historical, refused.value)
  {
    var before, after := IndexOf(old_.surfaces).Keys, IndexOf(new_.surfaces).Keys;
    changes := [];
    refused, changes := CollectGroup(old_, new_, historical, after - before, changes, {});
    if refused.Some? {
      return;
    }
    refused, changes := CollectGroup(old_, new_, historical, before - after, changes, {} + (after - before));
    if refused.Some? {
      return;
    }
    refused, changes := CollectGroup(old_, new_, historical, before * after, changes,
      {} + (after - before) + (before - after));
    if refused.Some? {
      return;
    }
    assert {} + (after - before) + (before - after) + before * after == before + after;
    CollectedAll(old_, new_, changes);
  }

  /** What a refusal says is wrong, in the terms of the rules. */
  ghost predicate Grounds(old_: Contract, new_: Contract, p: Policy, q: Policy, historical: bool, refusal: Refusal) {
    match refusal
    case PolicyRefused => !PolicySound(p) || !PolicySound(q) || !PolicyMayChange(p, q)
    case OldInvalid(_) => !ContractSound(old_, p)
    case NewInvalid(_) => !ContractSound(new_, q)
    case MigrationKeysDiffer => !RemovalsFit(old_, new_)
    case SurfaceRefused(id) => !SurfaceMay(old_, new_, historical, id)
    case CompilerRefused => !(new_.compiler.migration.Some? <==> Narrowed(old_.compiler, new_.compiler))
    case EditionRefused => !EditionMayChange(old_.edition, new_.edition)
    case VersionRefused => !VersionMayChange(old_, new_, p, q)
  }

  /** The same in the terms of the checks, with what was already established. */
  ghost predicate Failed(old_: Contract, new_: Contract, p: Policy, q: Policy, historical: bool, refusal: Refusal) {
    match refusal
    case PolicyRefused => !PolicyValid(p) || !PolicyValid(q) || !PolicyStep(p, q)
    case OldInvalid(_) => !ContractValid(old_, p)
    case NewInvalid(_) => !ContractValid(new_, q)
    case MigrationKeysDiffer => new_.migrations.Keys != IndexOf(old_.surfaces).Keys - IndexOf(new_.surfaces).Keys
    case SurfaceRefused(id) =>
      ContractValid(old_, p) && ContractValid(new_, q) && !IdAllowed(old_, new_, historical, id)
    case CompilerRefused => !CompilerStep(old_.compiler, new_.compiler)
    case EditionRefused => !EditionStep(old_.edition, new_.edition)
    case VersionRefused =>
      && ContractValid(old_, p) && ContractValid(new_, q) && SurfacesStep(old_, new_, historical)
      && var changes := ChangeSet(old_, new_);
         !VersionStep(old_.version, new_.version, Drift(changes, old_, new_, p, q),
            Severities(changes, old_, new_, p, q))
  }

  /** What the rules allow for one surface is allowed. */
  lemma SurfaceMayAllowed(old_: Contract, new_: Contract, historical: bool, id: string)
    requires UniqueIds(old_.surfaces) && UniqueIds(new_.surfaces)
    ensures SurfaceMay(old_, new_, historical, id) ==> IdAllowed(old_, new_, historical, id)
  {
    OffersIff(old_, id);
    OffersIff(new_, id);
    if Offers(old_, id) && Offers(new_, id) {
      var i := PlaceOf(old_, id);
      var j := PlaceOf(new_, id);
      assert Kept(old_, new_, i, j);
      MayBecomeIff(old_.surfaces[i], new_.surfaces[j]);
    } else if Offers(old_, id) {
      var i := PlaceOf(old_, id);
      if id in new_.migrations {
        MayGoIff(old_, new_, old_.surfaces[i], new_.migrations[id]);
      }
    } else if Offers(new_, id) {
      var j := PlaceOf(new_, id);
    }
  }

  lemma FailedIsGrounds(old_: Contract, new_: Contract, p: Policy, q: Policy, historical: bool, refusal: Refusal)
    requires Failed(old_, new_, p, q, historical, refusal)
    ensures Grounds(old_, new_, p, q, historical, refusal)
  {
    match refusal
    case PolicyRefused =>
      PolicyIff(p, q);
      PolicyIff(q, q);
    case OldInvalid(_) => ContractSoundIff(old_, p);
    case NewInvalid(_) => ContractSoundIff(new_, q);
    case MigrationKeysDiffer => RemovalsFitIff(old_, new_);
    case SurfaceRefused(id) => SurfaceMayAllowed(old_, new_, historical, id);
    case CompilerRefused => CompilerIff(old_.compiler, new_.compiler);
    case EditionRefused => EditionIff(old_.edition, new_.edition);
    case VersionRefused =>
      SurfacesMayChangeIff(old_, new_, historical);
      VersionIff(old_, new_, p, q);
  }

  /** A report is produced exactly for the acceptable steps, and lists every change once, gravest first. */
  method CompatibilityReport(old_: Contract, new_: Contract, p: Policy, q: Policy, historical: bool)
    returns (r: Outcome)
    ensures r.Reported? <==> Reportable(old_, new_, p, q, historical)
    ensures r.Reported? <==> Accepted(old_, new_, p, q, historical)
    ensures r.Reported? ==> forall c :: c in r.report.changes <==> Reports(old_, new_, c)
    ensures r.Reported? ==>
              forall i, j :: 0 <= i < j < |r.report.changes| ==> ListedBefore(r.report.changes[i], r.report.changes[j])
    ensures r.Reported? ==>
              && r.report.breaking + r.report.additive + r.report.deprecated + r.report.compatible == |r.report.changes|
              && r.report.breaking == |PlacesOf(r.report.changes, Breaking)|
              && r.report.additive == |PlacesOf(r.report.changes, Additive)|
              && r.report.deprecated == |PlacesOf(r.report.changes, DeprecatedChange)|
    ensures r.Refused? ==> Grounds(old_, new_, p, q, historical, r.refusal)
  {
    AcceptedIffReportable(old_, new_, p, q, historical);
    r := Compare(old_, new_, p, q, historical);
    if r.Reported? {
      var changes := r.report.changes;
      SortedIsListed(changes);
      AllReported(old_, new_, historical);
      CountMeans(changes, Breaking);
      CountMeans(changes, Additive);
      CountMeans(changes, DeprecatedChange);
    } else {
      FailedIsGrounds(old_, new_, p, q, historical, r.refusal);
    }
  }

  lemma AllReported(old_: Contract, new_: Contract, historical: bool)
    requires UniqueIds(old_.surfaces) && UniqueIds(new_.surfaces) && SurfacesStep(old_, new_, historical)
    ensures forall c :: c in ChangeSet(old_, new_) <==> Reports(old_, new_, c)
  {
    SurfacesMayChangeIff(old_, new_, historical);
    forall c ensures c in ChangeSet(old_, new_) <==> Reports(old_, new_, c) {
      ChangesMean(old_, new_, c);
    }
  }

  method Compare(old_: Contract, new_: Contract, p: Policy, q: Policy, historical: bool) returns (r: Outcome)
    ensures r.Reported? <==> Accepted(old_, new_, p, q, historical)
    ensures r.Reported? ==> SortedChanges(r.report.changes)
    ensures r.Reported? ==> forall c :: c in r.report.changes <==> c in ChangeSet(old_, new_)
    ensures r.Reported? ==>
              && r.report.breaking + r.report.additive + r.report.deprecated + r.report.compatible == |r.report.changes|
              && r.report.breaking == CountSeverity(r.report.changes, Breaking)
              && r.report.additive == CountSeverity(r.report.changes, Additive)
              && r.report.deprecated == CountSeverity(r.report.changes, DeprecatedChange)
    ensures r.Refused? ==> Failed(old_, new_, p, q, historical, r.refusal)
  {
    if !PolicyValid(p) || !PolicyValid(q) || !PolicyStep(p, q) {
      return Refused(PolicyRefused);
    }
    var before := ValidateContract(old_, p);
    if before.Bad? {
      return Refused(OldInvalid(before.error));
    }
    var after := ValidateContract(new_, q);
    if after.Bad? {
      return Refused(NewInvalid(after.error));
    }
    SurfacesStepMeans(old_, new_, historical);
    if new_.migrations.Keys != before.surfaces.Keys - after.surfaces.Keys {
      return Refused(MigrationKeysDiffer);
    }
    var refused, changes := CollectChanges(old_, new_, historical);
    if refused.Some? {
      return Refused(SurfaceRefused(refused.value));
    }
    if !CompilerStep(old_.compiler, new_.compiler) {
      return Refused(CompilerRefused);
    }
    if !EditionStep(old_.edition, new_.edition) {
      return Refused(EditionRefused);
    }
    var all := set c | c in changes;
    assert all == ChangeSet(old_, new_);
    if !VersionStep(old_.version, new_.version, Drift(all, old_, new_, p, q), Severities(all, old_, new_, p, q)) {
      return Refused(VersionRefused);
    }
    CountsCover(changes);
    r := Reported(Report(
      changes, CountSeverity(changes, Breaking), CountSeverity(changes, Additive),
      CountSeverity(changes, DeprecatedChange), CountSeverity(changes, CompatibleChange)));
  }
}
