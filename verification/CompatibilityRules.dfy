/**
 The compatibility rules read off two contracts and two policies: what a valid contract is,
 what may happen to a surface and how grave it is, and how far the contract's version must
 then rise. Lists are lists here; nothing is indexed, ranked or classified.
 */
module CompatibilityRules {
  import opened Basics
  import opened Lexicographic
  import opened Compatibility
  import opened CompatibilityHistory

  // ----- versions and texts -----

  /** `b` is a later version than `a`. */
  ghost predicate Later(a: SemVersion, b: SemVersion) {
    || b.major > a.major
    || (b.major == a.major && b.minor > a.minor)
    || (b.major == a.major && b.minor == a.minor && b.patch > a.patch)
  }

  ghost predicate TextBefore(s: string, t: string) {
    exists k: nat :: TextBelow(s, t, k)
  }

  const KINDS: seq<Kind> := [Language, Stdlib, Cli, PackageKind, Abi, Schema, Artifact]

  ghost predicate KindBefore(a: Kind, b: Kind) {
    exists i, j :: 0 <= i < j < |KINDS| && KINDS[i] == a && KINDS[j] == b
  }

  // ----- one contract -----

  ghost predicate DeprecationSound(d: Deprecation, policy: Policy) {
    && d.removeAfter >= d.announced + 180 && |d.editions| >= 2
    && (forall i, j :: 0 <= i < j < |d.editions| ==> TextBefore(d.editions[i], d.editions[j]))
    && forall i :: 0 <= i < |d.editions| ==> d.editions[i] in policy.editions
  }

  ghost predicate SurfaceSound(s: Surface, policy: Policy) {
    match s.stability
    case Experimental => s.replacement.None? && s.deprecation.None?
    case Stable => s.version.major >= 1 && s.replacement.None? && s.deprecation.None?
    case Deprecated =>
      && s.version.major >= 1 && s.migration.Some? && s.replacement.Some? && s.deprecation.Some?
      && (s.migration.value.replacement.Some? ==> s.migration.value.replacement == s.replacement)
      && DeprecationSound(s.deprecation.value, policy)
  }

  /** Each surface of the list replaces the one before it; all but the last are deprecated. */
  ghost predicate LeadsOut(surfaces: seq<Surface>, path: seq<Surface>) {
    && |path| >= 1 && (forall i :: 0 <= i < |path| ==> path[i] in surfaces)
    && (forall i :: 0 <= i < |path| - 1 ==> path[i].stability == Deprecated)
    && (forall i, j :: 0 <= i && j == i + 1 && j < |path| ==> path[i].replacement == Some(path[j].id))
    && path[|path| - 1].stability != Deprecated
  }

  ghost predicate HasWayOut(surfaces: seq<Surface>, s: Surface) {
    exists path: seq<Surface> :: LeadsOut(surfaces, path) && path[0] == s
  }

  ghost predicate SurfacesSound(surfaces: seq<Surface>, policy: Policy) {
    && |surfaces| >= 1
    && (forall i, j :: 0 <= i < j < |surfaces| ==> surfaces[i].id != surfaces[j].id)
    && (forall i, j :: 0 <= i && j == i + 1 && j < |surfaces| ==>
          || KindBefore(surfaces[i].kind, surfaces[j].kind)
          || (surfaces[i].kind == surfaces[j].kind && TextBefore(surfaces[i].id, surfaces[j].id)))
    && (forall i :: 0 <= i < |surfaces| ==> SurfaceSound(surfaces[i], policy))
    && (forall i :: 0 <= i < |surfaces| ==> HasWayOut(surfaces, surfaces[i]))
    && forall k: Kind :: OffersKind(surfaces, k)
  }

  ghost predicate OffersKind(surfaces: seq<Surface>, k: Kind) {
    exists i :: 0 <= i < |surfaces| && surfaces[i].kind == k
  }

  ghost predicate EditionSound(e: Edition, policy: Policy) {
    && e.id == policy.currentEdition && e.id in policy.editions && policy.editions[e.id] == e.status
    && match e.status
       case DeprecatedEdition => e.migration.Some? && e.replacement.Some? && e.replacement != Some(e.id)
       case _ => e.replacement.None?
  }

  ghost predicate CompilerSound(c: Compiler, policy: Policy) {
    && !Later(c.current, c.minimum) && !Later(c.maximum, c.current)
    && (c.current, c.minimum, c.maximum) == (policy.current, policy.minimum, policy.maximum)
  }

  ghost predicate ContractSound(c: Contract, policy: Policy) {
    && c.policyVersion == policy.version && EditionSound(c.edition, policy) && CompilerSound(c.compiler, policy)
    && SurfacesSound(c.surfaces, policy)
  }

  // ----- one surface -----

  /** Nothing but the sources differs. */
  ghost predicate Unchanged(o: Surface, n: Surface) {
    && o.id == n.id && o.kind == n.kind && o.version == n.version && o.stability == n.stability
    && o.signature == n.signature && o.migration == n.migration && o.replacement == n.replacement
    && o.deprecation == n.deprecation
  }

  ghost predicate SameSignature(o: Surface, n: Surface) {
    o.kind == n.kind && o.signature == n.signature
  }

  ghost predicate OnlyPatchRises(a: SemVersion, b: SemVersion) {
    a.major == b.major && a.minor == b.minor && a.patch < b.patch
  }

  ghost predicate MinorRises(a: SemVersion, b: SemVersion) {
    a.major == b.major && a.minor < b.minor
  }

  ghost predicate BecomesStable(o: Surface, n: Surface) {
    o.stability == Experimental && n.stability == Stable
  }

  /** Compatible: the patch number alone rises; stability and signature stay. */
  ghost predicate IsCompatible(o: Surface, n: Surface) {
    OnlyPatchRises(o.version, n.version) && o.stability == n.stability && SameSignature(o, n)
  }

  /** Additive: the major number and the signature stay; the minor number rises or the surface becomes stable. */
  ghost predicate IsAdditive(o: Surface, n: Surface) {
    && SameSignature(o, n)
    && (|| (MinorRises(o.version, n.version) && (o.stability == n.stability || BecomesStable(o, n)))
        || (OnlyPatchRises(o.version, n.version) && BecomesStable(o, n)))
  }

  /** Deprecating: deprecated now and not before, with its signature; a stable surface raises the minor number. */
  ghost predicate IsDeprecating(o: Surface, n: Surface) {
    && o.stability != Deprecated && n.stability == Deprecated && SameSignature(o, n)
    && if o.stability == Stable then MinorRises(o.version, n.version) else Later(o.version, n.version)
  }

  /**
   Breaking: the major number rises, or an experimental surface changes its signature under any
   later version; stability stays or becomes stable, and a deprecated surface keeps its signature.
   */
  ghost predicate IsBreaking(o: Surface, n: Surface) {
    && (o.stability == n.stability || BecomesStable(o, n))
    && (o.stability == Deprecated ==> SameSignature(o, n))
    && (|| n.version.major > o.version.major
        || (o.stability == Experimental && !SameSignature(o, n) && Later(o.version, n.version)))
  }

  /** What may happen to a surface that stays: grave changes come with a migration, light ones without. */
  ghost predicate MayBecome(o: Surface, n: Surface) {
    || Unchanged(o, n)
    || ((IsBreaking(o, n) || IsDeprecating(o, n)) && n.migration.Some?)
    || ((IsAdditive(o, n) || IsCompatible(o, n)) && n.migration.None?)
  }

  ghost predicate Offers(c: Contract, id: string) {
    exists i :: 0 <= i < |c.surfaces| && c.surfaces[i].id == id
  }

  /**
   A surface may go when it was deprecated, its removal date has passed, the contract's major
   number rises, and what replaces it stays.
   */
  ghost predicate MayGo(a: Contract, b: Contract, o: Surface, r: Removal) {
    && o.stability == Deprecated && o.deprecation.Some? && r.removedOn >= o.deprecation.value.removeAfter
    && r.removedIn == b.version && b.version.major > a.version.major
    && o.replacement == Some(r.replacement) && Offers(b, r.replacement)
  }

  /** Surface `i` of the old contract stays, as surface `j` of the new one. */
  ghost predicate Kept(a: Contract, b: Contract, i: int, j: int) {
    0 <= i < |a.surfaces| && 0 <= j < |b.surfaces| && a.surfaces[i].id == b.surfaces[j].id
  }

  ghost predicate KeptMayChange(a: Contract, b: Contract) {
    forall i, j :: Kept(a, b, i, j) ==> MayBecome(a.surfaces[i], b.surfaces[j])
  }

  ghost predicate GoneMayGo(a: Contract, b: Contract) {
    forall i :: 0 <= i < |a.surfaces| && !Offers(b, a.surfaces[i].id) ==>
      a.surfaces[i].id in b.migrations && MayGo(a, b, a.surfaces[i], b.migrations[a.surfaces[i].id])
  }

  ghost predicate NewMayCome(a: Contract, b: Contract, historical: bool) {
    forall j :: 0 <= j < |b.surfaces| && !Offers(a, b.surfaces[j].id) ==>
      historical || b.surfaces[j].migration.None?
  }

  /** Removals are recorded for the surfaces that are gone and for no others. */
  ghost predicate RemovalsFit(a: Contract, b: Contract) {
    forall id :: id in b.migrations <==> Offers(a, id) && !Offers(b, id)
  }

  ghost predicate SurfacesMayChange(a: Contract, b: Contract, historical: bool) {
    KeptMayChange(a, b) && GoneMayGo(a, b) && NewMayCome(a, b, historical) && RemovalsFit(a, b)
  }

  /** The same rules for the surface of one identifier. */
  ghost predicate SurfaceMay(a: Contract, b: Contract, historical: bool, id: string) {
    && (forall i, j :: Kept(a, b, i, j) && a.surfaces[i].id == id ==> MayBecome(a.surfaces[i], b.surfaces[j]))
    && (forall i :: 0 <= i < |a.surfaces| && a.surfaces[i].id == id && !Offers(b, id) ==>
          id in b.migrations && MayGo(a, b, a.surfaces[i], b.migrations[id]))
    && (forall j :: 0 <= j < |b.surfaces| && b.surfaces[j].id == id && !Offers(a, id) ==>
          historical || b.surfaces[j].migration.None?)
  }

  // ----- compiler, edition and policy -----

  ghost predicate Narrowed(o: Compiler, n: Compiler) {
    Later(o.minimum, n.minimum) || Later(n.maximum, o.maximum)
  }

  ghost predicate Widened(o: Compiler, n: Compiler) {
    Later(n.minimum, o.minimum) || Later(o.maximum, n.maximum)
  }

  ghost predicate CompilerDiffers(o: Compiler, n: Compiler) {
    o.current != n.current || o.minimum != n.minimum || o.maximum != n.maximum
  }

  ghost predicate NewlyDeprecated(o: Edition, n: Edition) {
    o.id == n.id && o.status != DeprecatedEdition && n.status == DeprecatedEdition
  }

  /** The status of an edition only moves forward; a new or newly deprecated edition comes with a migration. */
  ghost predicate EditionMayChange(o: Edition, n: Edition) {
    && (o.id == n.id && o.status == SupportedEdition ==> n.status != ExperimentalEdition)
    && (o.id == n.id && o.status == DeprecatedEdition ==> n.status == DeprecatedEdition)
    && (o.id != n.id || NewlyDeprecated(o, n) ==> n.migration.Some?)
  }

  ghost predicate PolicySound(p: Policy) {
    !Later(p.current, p.minimum) && !Later(p.maximum, p.current) && p.currentEdition in p.editions
  }

  /** Anything but the transition differs. */
  ghost predicate PolicyDiffers(p: Policy, q: Policy) {
    || p.version != q.version || p.editions != q.editions || p.currentEdition != q.currentEdition
    || p.current != q.current || p.minimum != q.minimum || p.maximum != q.maximum || p.rest != q.rest
  }

  /** A changed policy has a later version and says how grave the change is, with advice exactly when it is grave. */
  ghost predicate PolicyMayChange(p: Policy, q: Policy) {
    if !PolicyDiffers(p, q) then q.transition.None?
    else
      && Later(p.version, q.version) && q.transition.Some?
      && var t := q.transition.value;
         && t.from == p.version && t.severity.Some?
         && match t.severity.value
            case Breaking => t.migration.Some? && |t.migration.value| >= 1
            case DeprecatedChange => t.migration.Some? && |t.migration.value| >= 1
            case Additive => t.migration.None?
            case CompatibleChange => t.migration.None?
  }

  ghost predicate PolicyDeclares(p: Policy, q: Policy, severity: Severity) {
    PolicyDiffers(p, q) && q.transition.Some? && q.transition.value.severity == Some(severity)
  }

  // ----- the whole step -----

  ghost predicate SomeGone(a: Contract, b: Contract) {
    exists i :: 0 <= i < |a.surfaces| && !Offers(b, a.surfaces[i].id)
  }

  ghost predicate SomeNew(a: Contract, b: Contract) {
    exists j :: 0 <= j < |b.surfaces| && !Offers(a, b.surfaces[j].id)
  }

  ghost predicate SomeChanged(a: Contract, b: Contract) {
    exists i, j :: Kept(a, b, i, j) && !Unchanged(a.surfaces[i], b.surfaces[j])
  }

  ghost predicate SomeBreaking(a: Contract, b: Contract) {
    exists i, j :: Kept(a, b, i, j) && IsBreaking(a.surfaces[i], b.surfaces[j])
  }

  ghost predicate SomeDeprecating(a: Contract, b: Contract) {
    exists i, j :: Kept(a, b, i, j) && IsDeprecating(a.surfaces[i], b.surfaces[j])
  }

  ghost predicate SomeAdditive(a: Contract, b: Contract) {
    exists i, j :: Kept(a, b, i, j) && IsAdditive(a.surfaces[i], b.surfaces[j])
  }

  ghost predicate AnyDrift(a: Contract, b: Contract, p: Policy, q: Policy) {
    || SomeGone(a, b) || SomeNew(a, b) || SomeChanged(a, b)
    || a.edition.id != b.edition.id || a.edition.status != b.edition.status
    || CompilerDiffers(a.compiler, b.compiler) || PolicyDiffers(p, q)
  }

  ghost predicate BreakingDrift(a: Contract, b: Contract, p: Policy, q: Policy) {
    || SomeGone(a, b) || SomeBreaking(a, b)
    || a.edition.id != b.edition.id || Narrowed(a.compiler, b.compiler) || PolicyDeclares(p, q, Breaking)
  }

  ghost predicate DeprecatingDrift(a: Contract, b: Contract, p: Policy, q: Policy) {
    SomeDeprecating(a, b) || NewlyDeprecated(a.edition, b.edition) || PolicyDeclares(p, q, DeprecatedChange)
  }

  ghost predicate AdditiveDrift(a: Contract, b: Contract, p: Policy, q: Policy) {
    || SomeNew(a, b) || SomeAdditive(a, b)
    || (Widened(a.compiler, b.compiler) && !Narrowed(a.compiler, b.compiler)) || PolicyDeclares(p, q, Additive)
  }

  /** The version never falls, rises with any drift, and rises far enough for the gravest part of it. */
  ghost predicate VersionMayChange(a: Contract, b: Contract, p: Policy, q: Policy) {
    var old_, new_ := a.version, b.version;
    && !Later(new_, old_)
    && (AnyDrift(a, b, p, q) ==> Later(old_, new_))
    && (BreakingDrift(a, b, p, q) ==> new_.major > old_.major || (old_.major == 0 && new_.minor > old_.minor))
    && (!BreakingDrift(a, b, p, q) && (AdditiveDrift(a, b, p, q) || DeprecatingDrift(a, b, p, q)) && old_.major >= 1 ==>
          new_.major > old_.major || new_.minor > old_.minor)
  }

  /** The steps for which there is a report. */
  ghost predicate Reportable(a: Contract, b: Contract, p: Policy, q: Policy, historical: bool) {
    && PolicySound(p) && PolicySound(q) && PolicyMayChange(p, q)
    && ContractSound(a, p) && ContractSound(b, q)
    && SurfacesMayChange(a, b, historical)
    && (b.compiler.migration.Some? <==> Narrowed(a.compiler, b.compiler))
    && EditionMayChange(a.edition, b.edition)
    && VersionMayChange(a, b, p, q)
  }

  // ----- what is reported -----

  ghost predicate ReportsNew(a: Contract, b: Contract, c: Change, j: int) {
    && 0 <= j < |b.surfaces| && !Offers(a, b.surfaces[j].id)
    && var n := b.surfaces[j];
       c == Change(Added, Additive, n.kind, n.id, None, Some(n.version), None, None)
  }

  ghost predicate ReportsGone(a: Contract, b: Contract, c: Change, i: int) {
    && 0 <= i < |a.surfaces| && !Offers(b, a.surfaces[i].id) && a.surfaces[i].id in b.migrations
    && var o := a.surfaces[i];
       var r := b.migrations[o.id];
       c == Change(Removed, Breaking, o.kind, o.id, Some(o.version), None, Some(r.action), Some(r.replacement))
  }

  ghost predicate ReportsKept(a: Contract, b: Contract, c: Change, i: int, j: int) {
    && Kept(a, b, i, j)
    && var o, n := a.surfaces[i], b.surfaces[j];
       && c.kind == n.kind && c.id == n.id && c.oldVersion == Some(o.version) && c.newVersion == Some(n.version)
       && c.replacement == n.replacement
       && c.migration == (if n.migration.Some? then Some(n.migration.value.action) else None)
       && match c.severity
          case Breaking => c.change == Modified && IsBreaking(o, n)
          case DeprecatedChange => c.change == Deprecating && IsDeprecating(o, n)
          case Additive => c.change == Modified && IsAdditive(o, n)
          case CompatibleChange => c.change == Modified && IsCompatible(o, n)
  }

  ghost predicate Reports(a: Contract, b: Contract, c: Change) {
    || (exists j :: ReportsNew(a, b, c, j))
    || (exists i :: ReportsGone(a, b, c, i))
    || (exists i, j :: ReportsKept(a, b, c, i, j))
  }

  lemma UnchangedIff(o: Surface, n: Surface)
    ensures Semantics(o) == Semantics(n) <==> Unchanged(o, n)
  {
    var a, b := Semantics(o), Semantics(n);
    assert a.id == o.id && a.kind == o.kind && a.version == o.version && a.stability == o.stability;
    assert a.signature == o.signature && a.migration == o.migration && a.replacement == o.replacement;
    assert b.id == n.id && b.kind == n.kind && b.version == n.version && b.stability == n.stability;
    assert b.signature == n.signature && b.migration == n.migration && b.replacement == n.replacement;
    assert a.deprecation == o.deprecation && b.deprecation == n.deprecation && a.sources == b.sources;
  }

  /** Each severity, and the refusal, exactly. */
  lemma SeverityIff(o: Surface, n: Surface)
    ensures Classify(o, n) == Some((Modified, CompatibleChange)) <==> IsCompatible(o, n)
    ensures Classify(o, n) == Some((Modified, Additive)) <==> IsAdditive(o, n)
    ensures Classify(o, n) == Some((Deprecating, DeprecatedChange)) <==> IsDeprecating(o, n)
    ensures Classify(o, n) == Some((Modified, Breaking)) <==> IsBreaking(o, n)
    ensures Classify(o, n).None? <==>
            !IsCompatible(o, n) && !IsAdditive(o, n) && !IsDeprecating(o, n) && !IsBreaking(o, n)
  {
  }

  lemma MayBecomeIff(o: Surface, n: Surface)
    ensures SurfaceStep(o, n) <==> MayBecome(o, n)
  {
    UnchangedIff(o, n);
    SeverityIff(o, n);
  }

  // ----- the contract rules are the contract's validity -----

  lemma LaterIff(a: SemVersion, b: SemVersion)
    ensures Less(a, b) <==> Later(a, b)
    ensures AtMost(b, a) <==> !Later(a, b)
  {
  }

  lemma TextBeforeIff(a: string, b: string)
    ensures CompareIds(a, b) == -1 <==> TextBefore(a, b)
    ensures CompareIds(a, b) <= 0 <==> a == b || TextBefore(a, b)
  {
    CharOrder();
    SeqAntisymmetric(CompareChar, a, b);
    TextBelowIff(a, b);
  }

  lemma KindBeforeIff(a: Kind, b: Kind)
    ensures KindRank(a) < KindRank(b) <==> KindBefore(a, b)
  {
    RankIs(a);
    RankIs(b);
    assert KindRank(a) < KindRank(b) ==> KindBefore(a, b);
    forall i, j | 0 <= i < j < |KINDS| && KINDS[i] == a && KINDS[j] == b ensures KindRank(a) < KindRank(b) {
      assert KindRank(KINDS[i]) == i && KindRank(KINDS[j]) == j;
    }
  }

  lemma RankIs(k: Kind)
    ensures KINDS[KindRank(k)] == k
  {
  }

  lemma DeprecationSoundIff(d: Deprecation, policy: Policy)
    ensures DeprecationValid(d, policy) <==> DeprecationSound(d, policy)
  {
    forall i, j | 0 <= i < j < |d.editions|
      ensures CompareIds(d.editions[i], d.editions[j]) == -1 <==> TextBefore(d.editions[i], d.editions[j])
    {
      TextBeforeIff(d.editions[i], d.editions[j]);
    }
    assert forall i :: 0 <= i < |d.editions| ==> d.editions[i] in d.editions;
  }

  lemma SurfaceSoundIff(s: Surface, policy: Policy)
    ensures SurfaceValid(s, policy) <==> SurfaceSound(s, policy)
  {
    if s.deprecation.Some? {
      DeprecationSoundIff(s.deprecation.value, policy);
    }
  }

  lemma OrderedIff(surfaces: seq<Surface>)
    requires UniqueIds(surfaces)
    ensures Ordered(surfaces) <==>
            forall i, j :: 0 <= i && j == i + 1 && j < |surfaces| ==>
              || KindBefore(surfaces[i].kind, surfaces[j].kind)
              || (surfaces[i].kind == surfaces[j].kind && TextBefore(surfaces[i].id, surfaces[j].id))
  {
    forall i, j | 0 <= i && j == i + 1 && j < |surfaces|
      ensures InOrder(surfaces[i], surfaces[j]) <==>
              || KindBefore(surfaces[i].kind, surfaces[j].kind)
              || (surfaces[i].kind == surfaces[j].kind && TextBefore(surfaces[i].id, surfaces[j].id))
    {
      KindBeforeIff(surfaces[i].kind, surfaces[j].kind);
      TextBeforeIff(surfaces[i].id, surfaces[j].id);
    }
  }

  /** In a list without repeated identifiers the index finds every surface. */
  lemma IndexFinds(surfaces: seq<Surface>, s: Surface)
    requires UniqueIds(surfaces) && s in surfaces
    ensures s.id in IndexOf(surfaces) && IndexOf(surfaces)[s.id] == s
  {
    IndexMeans(surfaces);
    var t := IndexOf(surfaces)[s.id];
    var i :| 0 <= i < |surfaces| && surfaces[i] == s;
    var j :| 0 <= j < |surfaces| && surfaces[j] == t;
    SameIndex(surfaces, i, j);
  }

  lemma SameIndex(surfaces: seq<Surface>, i: nat, j: nat)
    requires UniqueIds(surfaces) && i < |surfaces| && j < |surfaces| && surfaces[i].id == surfaces[j].id
    ensures i == j
  {
  }

  lemma {:induction false} PathResolves(surfaces: seq<Surface>, path: seq<Surface>)
    requires UniqueIds(surfaces) && LeadsOut(surfaces, path)
    ensures ResolvesIn(IndexOf(surfaces), path[0].id, |path| - 1)
    decreases |path|
  {
    IndexFinds(surfaces, path[0]);
    if |path| > 1 {
      var rest := path[1..];
      assert rest[0] == path[1] && rest[|rest| - 1] == path[|path| - 1];
      assert forall i :: 0 <= i < |rest| ==> rest[i] == path[i + 1];
      assert LeadsOut(surfaces, rest);
      PathResolves(surfaces, rest);
    }
  }

  lemma {:induction false} ResolvingLeadsOut(surfaces: seq<Surface>, id: string, n: nat) returns (path: seq<Surface>)
    requires ResolvesIn(IndexOf(surfaces), id, n)
    ensures LeadsOut(surfaces, path) && path[0] == IndexOf(surfaces)[id]
    decreases n
  {
    IndexMeans(surfaces);
    var s := IndexOf(surfaces)[id];
    if n == 0 {
      path := [s];
    } else {
      var rest := ResolvingLeadsOut(surfaces, s.replacement.value, n - 1);
      path := [s] + rest;
      assert forall i :: 0 <= i < |rest| ==> path[i + 1] == rest[i];
    }
  }

  lemma WayOutIff(surfaces: seq<Surface>, s: Surface)
    requires UniqueIds(surfaces) && s in surfaces
    ensures Resolves(IndexOf(surfaces), s.id) <==> HasWayOut(surfaces, s)
  {
    IndexFinds(surfaces, s);
    if Resolves(IndexOf(surfaces), s.id) {
      var n: nat :| ResolvesIn(IndexOf(surfaces), s.id, n);
      var path := ResolvingLeadsOut(surfaces, s.id, n);
    }
    if HasWayOut(surfaces, s) {
      var path: seq<Surface> :| LeadsOut(surfaces, path) && path[0] == s;
      PathResolves(surfaces, path);
    }
  }

  lemma WaysOutIff(surfaces: seq<Surface>)
    requires UniqueIds(surfaces)
    ensures ReplacementsResolve(IndexOf(surfaces)) <==>
            forall i :: 0 <= i < |surfaces| ==> HasWayOut(surfaces, surfaces[i])
  {
    IndexMeans(surfaces);
    forall i | 0 <= i < |surfaces|
      ensures surfaces[i].id in IndexOf(surfaces)
      ensures Resolves(IndexOf(surfaces), surfaces[i].id) <==> HasWayOut(surfaces, surfaces[i])
    {
      IndexFinds(surfaces, surfaces[i]);
      WayOutIff(surfaces, surfaces[i]);
    }
  }

  lemma KindsIff(surfaces: seq<Surface>)
    ensures AllKinds(surfaces) <==> forall k: Kind :: OffersKind(surfaces, k)
  {
    forall k: Kind ensures HasKind(surfaces, k) <==> OffersKind(surfaces, k) {
    }
  }

  lemma ListedIff(surfaces: seq<Surface>, policy: Policy)
    ensures Listed(surfaces, policy) <==>
            && UniqueIds(surfaces) && Ordered(surfaces)
            && forall i :: 0 <= i < |surfaces| ==> SurfaceSound(surfaces[i], policy)
  {
    forall i | 0 <= i < |surfaces| ensures SurfaceValid(surfaces[i], policy) <==> SurfaceSound(surfaces[i], policy) {
      SurfaceSoundIff(surfaces[i], policy);
    }
    assert forall i :: 0 <= i < |surfaces| ==> surfaces[i] in surfaces;
  }

  lemma SurfacesSoundIff(surfaces: seq<Surface>, policy: Policy)
    ensures surfaces != [] && Listed(surfaces, policy) && ReplacementsResolve(IndexOf(surfaces)) && AllKinds(surfaces)
            <==> SurfacesSound(surfaces, policy)
  {
    ListedIff(surfaces, policy);
    KindsIff(surfaces);
    if UniqueIds(surfaces) {
      OrderedIff(surfaces);
      WaysOutIff(surfaces);
    }
  }

  lemma ContractSoundIff(c: Contract, policy: Policy)
    ensures ContractValid(c, policy) <==> ContractSound(c, policy)
  {
    LaterIff(c.compiler.current, c.compiler.minimum);
    LaterIff(c.compiler.maximum, c.compiler.current);
    SurfacesSoundIff(c.surfaces, policy);
  }

  // ----- the rules for a step are its acceptance -----

  lemma OffersIff(c: Contract, id: string)
    ensures id in IndexOf(c.surfaces) <==> Offers(c, id)
  {
    IndexMeans(c.surfaces);
  }

  /** In a list without repeated identifiers the index is the list. */
  lemma IndexIs(c: Contract, i: nat)
    requires UniqueIds(c.surfaces) && i < |c.surfaces|
    ensures c.surfaces[i].id in IndexOf(c.surfaces) && IndexOf(c.surfaces)[c.surfaces[i].id] == c.surfaces[i]
  {
    IndexFinds(c.surfaces, c.surfaces[i]);
  }

  /** And every identifier in the index is somewhere in the list. */
  lemma PlaceOf(c: Contract, id: string) returns (i: nat)
    requires UniqueIds(c.surfaces) && id in IndexOf(c.surfaces)
    ensures i < |c.surfaces| && c.surfaces[i] == IndexOf(c.surfaces)[id] && c.surfaces[i].id == id
  {
    IndexMeans(c.surfaces);
    var s := IndexOf(c.surfaces)[id];
    i :| 0 <= i < |c.surfaces| && c.surfaces[i] == s;
  }

  lemma MayGoIff(a: Contract, b: Contract, o: Surface, r: Removal)
    ensures RemovalAllowed(a, b, o, r) <==> MayGo(a, b, o, r)
  {
    OffersIff(b, r.replacement);
  }

  lemma KeptIff(a: Contract, b: Contract)
    requires UniqueIds(a.surfaces) && UniqueIds(b.surfaces)
    ensures KeptStep(IndexOf(a.surfaces), IndexOf(b.surfaces)) <==> KeptMayChange(a, b)
  {
    if KeptStep(IndexOf(a.surfaces), IndexOf(b.surfaces)) {
      forall i, j | Kept(a, b, i, j) ensures MayBecome(a.surfaces[i], b.surfaces[j]) {
        IndexIs(a, i);
        IndexIs(b, j);
        MayBecomeIff(a.surfaces[i], b.surfaces[j]);
      }
    }
    if KeptMayChange(a, b) {
      forall id | id in IndexOf(a.surfaces) && id in IndexOf(b.surfaces)
        ensures SurfaceStep(IndexOf(a.surfaces)[id], IndexOf(b.surfaces)[id])
      {
        var i := PlaceOf(a, id);
        var j := PlaceOf(b, id);
        assert Kept(a, b, i, j);
        MayBecomeIff(a.surfaces[i], b.surfaces[j]);
      }
    }
  }

  lemma GoneIff(a: Contract, b: Contract)
    requires UniqueIds(a.surfaces)
    ensures RemovedStep(a, b) <==> GoneMayGo(a, b)
  {
    if RemovedStep(a, b) {
      forall i | 0 <= i < |a.surfaces| && !Offers(b, a.surfaces[i].id)
        ensures a.surfaces[i].id in b.migrations && MayGo(a, b, a.surfaces[i], b.migrations[a.surfaces[i].id])
      {
        IndexIs(a, i);
        OffersIff(b, a.surfaces[i].id);
        MayGoIff(a, b, a.surfaces[i], b.migrations[a.surfaces[i].id]);
      }
    }
    if GoneMayGo(a, b) {
      forall id | id in IndexOf(a.surfaces) && id !in IndexOf(b.surfaces)
        ensures id in b.migrations && RemovalAllowed(a, b, IndexOf(a.surfaces)[id], b.migrations[id])
      {
        var i := PlaceOf(a, id);
        OffersIff(b, id);
        MayGoIff(a, b, IndexOf(a.surfaces)[id], b.migrations[id]);
      }
    }
  }

  lemma NewIff(a: Contract, b: Contract, historical: bool)
    requires UniqueIds(b.surfaces)
    ensures AddedStep(IndexOf(a.surfaces), IndexOf(b.surfaces), historical) <==> NewMayCome(a, b, historical)
  {
    if AddedStep(IndexOf(a.surfaces), IndexOf(b.surfaces), historical) {
      forall j | 0 <= j < |b.surfaces| && !Offers(a, b.surfaces[j].id)
        ensures historical || b.surfaces[j].migration.None?
      {
        IndexIs(b, j);
        OffersIff(a, b.surfaces[j].id);
      }
    }
    if NewMayCome(a, b, historical) {
      forall id | id in IndexOf(b.surfaces) && id !in IndexOf(a.surfaces)
        ensures historical || IndexOf(b.surfaces)[id].migration.None?
      {
        var j := PlaceOf(b, id);
        OffersIff(a, id);
      }
    }
  }

  lemma RemovalsFitIff(a: Contract, b: Contract)
    ensures b.migrations.Keys == IndexOf(a.surfaces).Keys - IndexOf(b.surfaces).Keys <==> RemovalsFit(a, b)
  {
    forall id
      ensures id in IndexOf(a.surfaces).Keys - IndexOf(b.surfaces).Keys <==> Offers(a, id) && !Offers(b, id)
    {
      OffersIff(a, id);
      OffersIff(b, id);
    }
    if RemovalsFit(a, b) {
      assert forall id :: id in b.migrations.Keys <==> id in IndexOf(a.surfaces).Keys - IndexOf(b.surfaces).Keys;
    }
  }

  lemma SurfacesMayChangeIff(a: Contract, b: Contract, historical: bool)
    requires UniqueIds(a.surfaces) && UniqueIds(b.surfaces)
    ensures SurfacesStep(a, b, historical) <==> SurfacesMayChange(a, b, historical)
  {
    KeptIff(a, b);
    GoneIff(a, b);
    NewIff(a, b, historical);
    RemovalsFitIff(a, b);
  }

  lemma CompilerIff(o: Compiler, n: Compiler)
    ensures CompilerStep(o, n) <==> (n.migration.Some? <==> Narrowed(o, n))
    ensures CompilerChanged(o, n) <==> CompilerDiffers(o, n)
    ensures CompilerSeverity(o, n) == Breaking <==> Narrowed(o, n)
    ensures CompilerSeverity(o, n) == Additive <==> Widened(o, n) && !Narrowed(o, n)
    ensures CompilerSeverity(o, n) == CompatibleChange <==> o.minimum == n.minimum && o.maximum == n.maximum
    ensures Narrowed(o, n) || Widened(o, n) ==> CompilerDiffers(o, n)
  {
  }

  lemma EditionIff(o: Edition, n: Edition)
    ensures EditionStep(o, n) <==> EditionMayChange(o, n)
    ensures EditionSeverity(o, n) == Breaking <==> o.id != n.id
    ensures EditionSeverity(o, n) == DeprecatedChange <==> NewlyDeprecated(o, n)
    ensures EditionSeverity(o, n) == CompatibleChange <==> o.id == n.id && !NewlyDeprecated(o, n)
    ensures EditionDrift(o, n) <==> o.id != n.id || o.status != n.status
  {
  }

  lemma PolicyDiffersIff(p: Policy, q: Policy)
    ensures PolicyDrift(p, q) <==> PolicyDiffers(p, q)
  {
    var a, b := p.(transition := None), q.(transition := None);
    assert a.version == p.version && a.editions == p.editions && a.currentEdition == p.currentEdition;
    assert a.current == p.current && a.minimum == p.minimum && a.maximum == p.maximum && a.rest == p.rest;
    assert b.version == q.version && b.editions == q.editions && b.currentEdition == q.currentEdition;
    assert b.current == q.current && b.minimum == q.minimum && b.maximum == q.maximum && b.rest == q.rest;
  }

  lemma PolicyIff(p: Policy, q: Policy)
    ensures PolicyValid(p) <==> PolicySound(p)
    ensures PolicyStep(p, q) <==> PolicyMayChange(p, q)
    ensures PolicyDrift(p, q) ==>
              forall s :: s != CompatibleChange ==> (PolicySeverity(p, q) == s <==> PolicyDeclares(p, q, s))
  {
    PolicyDiffersIff(p, q);
    LaterIff(p.current, p.minimum);
    LaterIff(p.maximum, p.current);
    LaterIff(p.version, q.version);
  }

  // ----- the changes of a step are what is reported -----

  ghost predicate Settled(a: Contract, b: Contract) {
    UniqueIds(a.surfaces) && UniqueIds(b.surfaces) && SurfacesMayChange(a, b, true)
  }

  lemma NewChange(a: Contract, b: Contract, c: Change, j: nat)
    requires UniqueIds(b.surfaces) && j < |b.surfaces| && !Offers(a, b.surfaces[j].id)
    ensures b.surfaces[j].id in IndexOf(b.surfaces)
    ensures ChangeBetween(a, b, b.surfaces[j].id) == Some(c) <==> ReportsNew(a, b, c, j)
  {
    IndexIs(b, j);
    OffersIff(a, b.surfaces[j].id);
  }

  lemma GoneChange(a: Contract, b: Contract, c: Change, i: nat)
    requires UniqueIds(a.surfaces) && i < |a.surfaces|
    requires !Offers(b, a.surfaces[i].id) && a.surfaces[i].id in b.migrations
    ensures a.surfaces[i].id in IndexOf(a.surfaces)
    ensures ChangeBetween(a, b, a.surfaces[i].id) == Some(c) <==> ReportsGone(a, b, c, i)
  {
    IndexIs(a, i);
    OffersIff(b, a.surfaces[i].id);
  }

  lemma KeptChange(a: Contract, b: Contract, c: Change, i: nat, j: nat)
    requires UniqueIds(a.surfaces) && UniqueIds(b.surfaces) && Kept(a, b, i, j)
    ensures a.surfaces[i].id in IndexOf(a.surfaces)
    ensures ChangeBetween(a, b, a.surfaces[i].id) == Some(c) <==> ReportsKept(a, b, c, i, j)
  {
    IndexIs(a, i);
    IndexIs(b, j);
    UnchangedIff(a.surfaces[i], b.surfaces[j]);
    SeverityIff(a.surfaces[i], b.surfaces[j]);
  }

  lemma InChangeSet(a: Contract, b: Contract, id: string, c: Change)
    requires (id in IndexOf(a.surfaces) || id in IndexOf(b.surfaces)) && ChangeBetween(a, b, id) == Some(c)
    ensures c in ChangeSet(a, b)
  {
    assert id in IndexOf(a.surfaces).Keys + IndexOf(b.surfaces).Keys;
  }

  /** The change set holds exactly what is to be reported. */
  lemma ChangesMean(a: Contract, b: Contract, c: Change)
    requires Settled(a, b)
    ensures c in ChangeSet(a, b) <==> Reports(a, b, c)
  {
    if c in ChangeSet(a, b) {
      ChangeReported(a, b, c);
    }
    if j :| ReportsNew(a, b, c, j) {
      NewChange(a, b, c, j);
      InChangeSet(a, b, b.surfaces[j].id, c);
    } else if i :| ReportsGone(a, b, c, i) {
      GoneChange(a, b, c, i);
      InChangeSet(a, b, a.surfaces[i].id, c);
    } else if i, j :| ReportsKept(a, b, c, i, j) {
      KeptChange(a, b, c, i, j);
      InChangeSet(a, b, a.surfaces[i].id, c);
    }
  }

  lemma ChangeReported(a: Contract, b: Contract, c: Change)
    requires Settled(a, b) && c in ChangeSet(a, b)
    ensures Reports(a, b, c)
  {
    var id :| id in IndexOf(a.surfaces).Keys + IndexOf(b.surfaces).Keys && ChangeBetween(a, b, id) == Some(c);
    OffersIff(a, id);
    OffersIff(b, id);
    if !Offers(a, id) {
      var j := PlaceOf(b, id);
      NewChange(a, b, c, j);
    } else {
      var i := PlaceOf(a, id);
      if Offers(b, id) {
        var j := PlaceOf(b, id);
        KeptChange(a, b, c, i, j);
      } else {
        GoneChange(a, b, c, i);
      }
    }
  }

  // ----- how grave a step is -----

  ghost predicate Among(a: Contract, b: Contract, s: Severity) {
    exists c :: c in ChangeSet(a, b) && c.severity == s
  }

  function KeptRecord(o: Surface, n: Surface, change: ChangeKind, severity: Severity): Change {
    Change(change, severity, n.kind, n.id, Some(o.version), Some(n.version), ActionOf(n.migration), n.replacement)
  }

  lemma GoneIsBreaking(a: Contract, b: Contract)
    requires Settled(a, b) && SomeGone(a, b)
    ensures Among(a, b, Breaking)
  {
    var i :| 0 <= i < |a.surfaces| && !Offers(b, a.surfaces[i].id);
    var o := a.surfaces[i];
    var r := b.migrations[o.id];
    var c := Change(Removed, Breaking, o.kind, o.id, Some(o.version), None, Some(r.action), Some(r.replacement));
    assert ReportsGone(a, b, c, i);
    ChangesMean(a, b, c);
  }

  lemma NewIsAdditive(a: Contract, b: Contract)
    requires Settled(a, b) && SomeNew(a, b)
    ensures Among(a, b, Additive)
  {
    var j :| 0 <= j < |b.surfaces| && !Offers(a, b.surfaces[j].id);
    var n := b.surfaces[j];
    var c := Change(Added, Additive, n.kind, n.id, None, Some(n.version), None, None);
    assert ReportsNew(a, b, c, j);
    ChangesMean(a, b, c);
  }

  lemma KeptIsAmong(a: Contract, b: Contract, i: nat, j: nat)
    requires Settled(a, b) && Kept(a, b, i, j)
    ensures IsBreaking(a.surfaces[i], b.surfaces[j]) ==> Among(a, b, Breaking)
    ensures IsDeprecating(a.surfaces[i], b.surfaces[j]) ==> Among(a, b, DeprecatedChange)
    ensures IsAdditive(a.surfaces[i], b.surfaces[j]) ==> Among(a, b, Additive)
    ensures IsCompatible(a.surfaces[i], b.surfaces[j]) ==> Among(a, b, CompatibleChange)
  {
    var o, n := a.surfaces[i], b.surfaces[j];
    ReportKept(a, b, i, j, KeptRecord(o, n, Modified, Breaking));
    ReportKept(a, b, i, j, KeptRecord(o, n, Deprecating, DeprecatedChange));
    ReportKept(a, b, i, j, KeptRecord(o, n, Modified, Additive));
    ReportKept(a, b, i, j, KeptRecord(o, n, Modified, CompatibleChange));
  }

  lemma ReportKept(a: Contract, b: Contract, i: nat, j: nat, c: Change)
    requires Settled(a, b)
    ensures ReportsKept(a, b, c, i, j) ==> c in ChangeSet(a, b)
  {
    if ReportsKept(a, b, c, i, j) {
      ChangesMean(a, b, c);
    }
  }

  lemma AmongMeans(a: Contract, b: Contract)
    requires Settled(a, b)
    ensures Among(a, b, Breaking) <==> SomeGone(a, b) || SomeBreaking(a, b)
    ensures Among(a, b, DeprecatedChange) <==> SomeDeprecating(a, b)
    ensures Among(a, b, Additive) <==> SomeNew(a, b) || SomeAdditive(a, b)
  {
    ExplainedIsAmong(a, b, Breaking);
    ExplainedIsAmong(a, b, DeprecatedChange);
    ExplainedIsAmong(a, b, Additive);
    AmongIsExplained(a, b, Breaking);
    AmongIsExplained(a, b, DeprecatedChange);
    AmongIsExplained(a, b, Additive);
  }

  lemma ExplainedIsAmong(a: Contract, b: Contract, s: Severity)
    requires Settled(a, b) && s != CompatibleChange
    ensures Explained(a, b, s) ==> Among(a, b, s)
  {
    match s
    case Breaking =>
      if SomeGone(a, b) {
        GoneIsBreaking(a, b);
      } else if i, j :| Kept(a, b, i, j) && IsBreaking(a.surfaces[i], b.surfaces[j]) {
        KeptIsAmong(a, b, i, j);
      }
    case DeprecatedChange =>
      if i, j :| Kept(a, b, i, j) && IsDeprecating(a.surfaces[i], b.surfaces[j]) {
        KeptIsAmong(a, b, i, j);
      }
    case Additive =>
      if SomeNew(a, b) {
        NewIsAdditive(a, b);
      } else if i, j :| Kept(a, b, i, j) && IsAdditive(a.surfaces[i], b.surfaces[j]) {
        KeptIsAmong(a, b, i, j);
      }
  }

  lemma AmongIsExplained(a: Contract, b: Contract, s: Severity)
    requires Settled(a, b)
    ensures Among(a, b, s) ==> Explained(a, b, s)
  {
    if c :| c in ChangeSet(a, b) && c.severity == s {
      ChangeExplained(a, b, c);
    }
  }

  /** Something happened that has this severity. */
  ghost predicate Explained(a: Contract, b: Contract, s: Severity) {
    match s
    case Breaking => SomeGone(a, b) || SomeBreaking(a, b)
    case DeprecatedChange => SomeDeprecating(a, b)
    case Additive => SomeNew(a, b) || SomeAdditive(a, b)
    case CompatibleChange => true
  }

  lemma ChangeExplained(a: Contract, b: Contract, c: Change)
    requires Settled(a, b) && c in ChangeSet(a, b)
    ensures Explained(a, b, c.severity)
    ensures SomeGone(a, b) || SomeNew(a, b) || SomeChanged(a, b)
  {
    ChangeReported(a, b, c);
    if i, j :| ReportsKept(a, b, c, i, j) {
      assert Kept(a, b, i, j) && !Unchanged(a.surfaces[i], b.surfaces[j]);
    }
  }

  lemma DriftMeans(a: Contract, b: Contract)
    requires Settled(a, b)
    ensures ChangeSet(a, b) != {} <==> SomeGone(a, b) || SomeNew(a, b) || SomeChanged(a, b)
  {
    if SomeGone(a, b) {
      GoneIsBreaking(a, b);
    }
    if SomeNew(a, b) {
      NewIsAdditive(a, b);
    }
    if SomeChanged(a, b) {
      ChangedIsAmong(a, b);
    }
    if ChangeSet(a, b) != {} {
      var c :| c in ChangeSet(a, b);
      ChangeExplained(a, b, c);
    }
  }

  lemma ChangedIsAmong(a: Contract, b: Contract)
    requires Settled(a, b) && SomeChanged(a, b)
    ensures ChangeSet(a, b) != {}
  {
    var i, j :| Kept(a, b, i, j) && !Unchanged(a.surfaces[i], b.surfaces[j]);
    KeptIsAmong(a, b, i, j);
    assert MayBecome(a.surfaces[i], b.surfaces[j]);
  }

  lemma SeveritiesAre(changes: set<Change>, a: Contract, b: Contract, p: Policy, q: Policy, s: Severity)
    ensures s in Severities(changes, a, b, p, q) <==>
            || (exists c :: c in changes && c.severity == s)
            || EditionSeverity(a.edition, b.edition) == s
            || (CompilerChanged(a.compiler, b.compiler) && CompilerSeverity(a.compiler, b.compiler) == s)
            || (PolicyDrift(p, q) && PolicySeverity(p, q) == s)
  {
  }

  lemma SeveritiesMean(a: Contract, b: Contract, p: Policy, q: Policy)
    requires Settled(a, b)
    ensures var all := Severities(ChangeSet(a, b), a, b, p, q);
            && (Breaking in all <==> BreakingDrift(a, b, p, q))
            && (DeprecatedChange in all <==> DeprecatingDrift(a, b, p, q))
            && (Additive in all <==> AdditiveDrift(a, b, p, q))
  {
    AmongMeans(a, b);
    CompilerIff(a.compiler, b.compiler);
    EditionIff(a.edition, b.edition);
    PolicyIff(p, q);
    PolicyDiffersIff(p, q);
    SeveritiesAre(ChangeSet(a, b), a, b, p, q, Breaking);
    SeveritiesAre(ChangeSet(a, b), a, b, p, q, DeprecatedChange);
    SeveritiesAre(ChangeSet(a, b), a, b, p, q, Additive);
  }

  lemma VersionIff(a: Contract, b: Contract, p: Policy, q: Policy)
    requires Settled(a, b)
    ensures var changes := ChangeSet(a, b);
            VersionStep(a.version, b.version, Drift(changes, a, b, p, q), Severities(changes, a, b, p, q)) <==>
            VersionMayChange(a, b, p, q)
  {
    SeveritiesMean(a, b, p, q);
    DriftMeans(a, b);
    CompilerIff(a.compiler, b.compiler);
    EditionIff(a.edition, b.edition);
    PolicyDiffersIff(p, q);
    LaterIff(a.version, b.version);
    LaterIff(b.version, a.version);
  }

  /** A report is produced exactly for the steps these rules allow. */
  lemma AcceptedIffReportable(a: Contract, b: Contract, p: Policy, q: Policy, historical: bool)
    ensures Accepted(a, b, p, q, historical) <==> Reportable(a, b, p, q, historical)
  {
    PolicyIff(p, q);
    PolicyIff(q, q);
    ContractSoundIff(a, p);
    ContractSoundIff(b, q);
    CompilerIff(a.compiler, b.compiler);
    EditionIff(a.edition, b.edition);
    if ContractValid(a, p) && ContractValid(b, q) {
      SurfacesMayChangeIff(a, b, historical);
      if SurfacesStep(a, b, historical) {
        VersionIff(a, b, p, q);
      }
    }
  }
}
