/**
 Histories of accepted compatibility steps: what a reader of any two contracts in a history
 can rely on while a surface stays present, and what must have happened before it vanishes.
 */
module CompatibilityHistory {
  import opened Basics
  import opened Compatibility

  /** Contracts with their policies, each step accepted. */
  datatype Release = Release(contract: Contract, policy: Policy)

  ghost predicate StepAccepted(a: Release, b: Release) {
    exists historical :: Accepted(a.contract, b.contract, a.policy, b.policy, historical)
  }

  ghost predicate StepAt(h: seq<Release>, k: nat)
    requires k + 1 < |h|
  {
    StepAccepted(h[k], h[k + 1])
  }

  ghost predicate IsHistory(h: seq<Release>) {
    forall k: nat :: k + 1 < |h| ==> StepAt(h, k)
  }

  function SurfacesOf(r: Release): map<string, Surface> {
    IndexOf(r.contract.surfaces)
  }

  /** The surface is in every release from `i` to `j`. */
  ghost predicate Present(h: seq<Release>, id: string, i: nat, j: nat) {
    i <= j < |h| && forall k :: i <= k <= j ==> id in SurfacesOf(h[k])
  }

  // ----- one step -----

  lemma StepSurface(h: seq<Release>, id: string, k: nat)
    requires IsHistory(h) && k + 1 < |h| && id in SurfacesOf(h[k]) && id in SurfacesOf(h[k + 1])
    ensures SurfaceStep(SurfacesOf(h[k])[id], SurfacesOf(h[k + 1])[id])
  {
    assert StepAt(h, k);
  }

  /** A version that does not rise means nothing but sources changed. */
  lemma SurfaceStepVersion(o: Surface, n: Surface)
    requires SurfaceStep(o, n)
    ensures AtMost(o.version, n.version)
    ensures o.version == n.version ==> Semantics(o) == Semantics(n)
    ensures StabilityRank(o.stability) <= StabilityRank(n.stability)
    ensures o.stability == Stable && o.version.major == n.version.major ==>
            o.kind == n.kind && o.signature == n.signature
    ensures o.stability == Deprecated ==> o.kind == n.kind && o.signature == n.signature
  {
    if Semantics(o) == Semantics(n) {
      assert o.version == Semantics(o).version && n.version == Semantics(n).version;
      assert o.kind == Semantics(o).kind && o.signature == Semantics(o).signature &&
        o.stability == Semantics(o).stability;
      assert n.kind == Semantics(n).kind && n.signature == Semantics(n).signature &&
        n.stability == Semantics(n).stability;
    }
  }

  lemma AtMostTransitive(a: SemVersion, b: SemVersion, c: SemVersion)
    requires AtMost(a, b) && AtMost(b, c)
    ensures AtMost(a, c)
    ensures a == c ==> a == b
    ensures a.major == c.major ==> a.major == b.major
  {
  }

  // ----- while a surface stays -----

  /**
   Versions never fall, and a version fixes the semantics: two releases that agree on it agree on
   everything but sources.
   */
  lemma {:induction false} VersionFixesSemantics(h: seq<Release>, id: string, i: nat, j: nat)
    requires IsHistory(h) && Present(h, id, i, j)
    ensures var o, n := SurfacesOf(h[i])[id], SurfacesOf(h[j])[id];
            AtMost(o.version, n.version) && (o.version == n.version ==> Semantics(o) == Semantics(n))
    decreases j
  {
    if i < j {
      VersionFixesSemantics(h, id, i, j - 1);
      var o, m, n := SurfacesOf(h[i])[id], SurfacesOf(h[j - 1])[id], SurfacesOf(h[j])[id];
      StepSurface(h, id, j - 1);
      SurfaceStepVersion(m, n);
      AtMostTransitive(o.version, m.version, n.version);
    }
  }

  /** Stability only moves from experimental to stable to deprecated. */
  lemma {:induction false} StabilityNeverFalls(h: seq<Release>, id: string, i: nat, j: nat)
    requires IsHistory(h) && Present(h, id, i, j)
    ensures StabilityRank(SurfacesOf(h[i])[id].stability) <= StabilityRank(SurfacesOf(h[j])[id].stability)
    decreases j
  {
    if i < j {
      StabilityNeverFalls(h, id, i, j - 1);
      StepSurface(h, id, j - 1);
      SurfaceStepVersion(SurfacesOf(h[j - 1])[id], SurfacesOf(h[j])[id]);
    }
  }

  /** From a stable release on, every version with the same major number keeps kind and signature. */
  lemma {:induction false} MajorFixesSignature(h: seq<Release>, id: string, i: nat, j: nat)
    requires IsHistory(h) && Present(h, id, i, j)
    requires SurfacesOf(h[i])[id].stability != Experimental
    requires SurfacesOf(h[i])[id].version.major == SurfacesOf(h[j])[id].version.major
    ensures !SignatureChanged(SurfacesOf(h[i])[id], SurfacesOf(h[j])[id])
    decreases j
  {
    if i < j {
      var o, m, n := SurfacesOf(h[i])[id], SurfacesOf(h[j - 1])[id], SurfacesOf(h[j])[id];
      VersionFixesSemantics(h, id, i, j - 1);
      StepSurface(h, id, j - 1);
      SurfaceStepVersion(m, n);
      AtMostTransitive(o.version, m.version, n.version);
      MajorFixesSignature(h, id, i, j - 1);
      StabilityNeverFalls(h, id, i, j - 1);
    }
  }

  /** A deprecated surface carries a migration, so any change of it is a breaking one under a new major number. */
  lemma DeprecatedStep(o: Surface, n: Surface, policy: Policy)
    requires SurfaceStep(o, n) && o.stability == Deprecated && SurfaceValid(n, policy)
    ensures n.stability == Deprecated && !SignatureChanged(o, n)
    ensures Semantics(o) == Semantics(n) ||
            (Classify(o, n) == Some((Modified, Breaking)) && o.version.major < n.version.major)
  {
    SurfaceStepVersion(o, n);
  }

  lemma SurfaceIsValid(a: Release, b: Release, id: string)
    requires StepAccepted(a, b)
    ensures id in SurfacesOf(a) ==> SurfaceValid(SurfacesOf(a)[id], a.policy)
    ensures id in SurfacesOf(b) ==> SurfaceValid(SurfacesOf(b)[id], b.policy)
  {
    IndexMeans(a.contract.surfaces);
    IndexMeans(b.contract.surfaces);
  }

  /** Kind and signature stay, and so does everything else until the surface's major number rises. */
  ghost predicate Frozen(o: Surface, n: Surface) {
    !SignatureChanged(o, n) && (Semantics(o) == Semantics(n) || o.version.major < n.version.major)
  }

  lemma FrozenStep(h: seq<Release>, id: string, k: nat)
    requires IsHistory(h) && Present(h, id, k, k + 1) && SurfacesOf(h[k])[id].stability == Deprecated
    ensures SurfacesOf(h[k + 1])[id].stability == Deprecated
    ensures Frozen(SurfacesOf(h[k])[id], SurfacesOf(h[k + 1])[id])
  {
    StepSurface(h, id, k);
    assert StepAt(h, k);
    SurfaceIsValid(h[k], h[k + 1], id);
    DeprecatedStep(SurfacesOf(h[k])[id], SurfacesOf(h[k + 1])[id], h[k + 1].policy);
  }

  lemma FrozenAlong(o: Surface, m: Surface, n: Surface)
    requires Frozen(o, m) && Frozen(m, n)
    ensures Frozen(o, n)
  {
    assert Semantics(o).version == o.version && Semantics(m).version == m.version && Semantics(n).version == n.version;
  }

  /**
   Once deprecated, kind and signature are frozen whatever the version, and the whole record
   (announcement, removal date, editions, migration and replacement) is frozen until the
   surface's major number rises.
   */
  lemma {:induction false} DeprecationFreezes(h: seq<Release>, id: string, i: nat, j: nat)
    requires IsHistory(h) && Present(h, id, i, j) && SurfacesOf(h[i])[id].stability == Deprecated
    ensures SurfacesOf(h[j])[id].stability == Deprecated
    ensures Frozen(SurfacesOf(h[i])[id], SurfacesOf(h[j])[id])
    decreases j
  {
    if i < j {
      DeprecationFreezes(h, id, i, j - 1);
      FrozenStep(h, id, j - 1);
      FrozenAlong(SurfacesOf(h[i])[id], SurfacesOf(h[j - 1])[id], SurfacesOf(h[j])[id]);
    }
  }

  // ----- replacements -----

  /** The number of replacement steps is determined. */
  lemma {:induction false} StepsUnique(indexed: map<string, Surface>, id: string, n: nat, m: nat)
    requires ResolvesIn(indexed, id, n) && ResolvesIn(indexed, id, m)
    ensures n == m
    decreases n
  {
    if n > 0 && m > 0 {
      StepsUnique(indexed, indexed[id].replacement.value, n - 1, m - 1);
    }
  }

  ghost predicate IsReplacementPath(indexed: map<string, Surface>, path: seq<string>) {
    && path != [] && Distinct(path)
    && (forall x :: x in path ==> x in indexed)
    && (forall i, j :: 0 <= i && j == i + 1 && j < |path| ==>
          indexed[path[i]].stability == Deprecated && indexed[path[i]].replacement == Some(path[j]))
    && indexed[path[|path| - 1]].stability != Deprecated
  }

  /** A replacement chain that resolves is a path without repetition to a surface that is not deprecated. */
  lemma {:induction false} ResolvingPath(indexed: map<string, Surface>, id: string, n: nat) returns (path: seq<string>)
    requires ResolvesIn(indexed, id, n)
    ensures |path| == n + 1 && path[0] == id && IsReplacementPath(indexed, path)
    ensures forall i :: 0 <= i < |path| ==> ResolvesIn(indexed, path[i], n - i)
    decreases n
  {
    if n == 0 {
      path := [id];
    } else {
      var rest := ResolvingPath(indexed, indexed[id].replacement.value, n - 1);
      path := [id] + rest;
      forall i | 0 <= i < |rest| ensures rest[i] != id {
        if rest[i] == id {
          StepsUnique(indexed, id, n, n - 1 - i);
        }
      }
      forall i | 0 <= i < |path| ensures ResolvesIn(indexed, path[i], n - i) {
        if i > 0 {
          assert path[i] == rest[i - 1];
        }
      }
    }
  }

  // ----- when a surface vanishes -----

  /** What a reader may conclude when a surface is gone from the next release. */
  ghost predicate ProperlyRemoved(a: Release, b: Release, id: string, path: seq<string>)
    requires id in SurfacesOf(a)
  {
    var o := SurfacesOf(a)[id];
    && o.stability == Deprecated && o.deprecation.Some?
    && b.contract.version.major > a.contract.version.major
    && id in b.contract.migrations
    && var r := b.contract.migrations[id];
       && r.removedIn == b.contract.version
       && r.removedOn >= o.deprecation.value.removeAfter && r.removedOn >= o.deprecation.value.announced + 180
       && o.replacement == Some(r.replacement)
       && IsReplacementPath(SurfacesOf(b), path) && path[0] == r.replacement
  }

  /** And conversely a surface that could go so may go. */
  lemma ProperRemovalAllowed(a: Release, b: Release, id: string, path: seq<string>)
    requires id in SurfacesOf(a) && ProperlyRemoved(a, b, id, path)
    ensures RemovalAllowed(a.contract, b.contract, SurfacesOf(a)[id], b.contract.migrations[id])
  {
    assert path[0] in path;
  }

  lemma VanishingStep(a: Release, b: Release, id: string) returns (path: seq<string>)
    requires StepAccepted(a, b) && id in SurfacesOf(a) && id !in SurfacesOf(b)
    ensures ProperlyRemoved(a, b, id, path)
  {
    var historical :| Accepted(a.contract, b.contract, a.policy, b.policy, historical);
    var o, r := SurfacesOf(a)[id], b.contract.migrations[id];
    SurfaceIsValid(a, b, id);
    assert RemovalAllowed(a.contract, b.contract, o, r);
    var n: nat :| ResolvesIn(SurfacesOf(b), r.replacement, n);
    path := ResolvingPath(SurfacesOf(b), r.replacement, n);
  }

  /**
   A surface present from `i` to `j` and gone at `j + 1` was deprecated at `j`, was frozen since
   any earlier deprecated release, and left a replacement behind.
   */
  lemma VanishesOnlyAfterDeprecation(h: seq<Release>, id: string, i: nat, j: nat) returns (path: seq<string>)
    requires IsHistory(h) && Present(h, id, i, j) && j + 1 < |h| && id !in SurfacesOf(h[j + 1])
    ensures ProperlyRemoved(h[j], h[j + 1], id, path)
    ensures forall k :: i <= k <= j && SurfacesOf(h[k])[id].stability == Deprecated ==>
              Frozen(SurfacesOf(h[k])[id], SurfacesOf(h[j])[id])
  {
    assert StepAt(h, j);
    path := VanishingStep(h[j], h[j + 1], id);
    forall k | i <= k <= j && SurfacesOf(h[k])[id].stability == Deprecated
      ensures Frozen(SurfacesOf(h[k])[id], SurfacesOf(h[j])[id])
    {
      DeprecationFreezes(h, id, k, j);
    }
  }

  // ----- what one step says about the contract's own version -----

  ghost function SeveritiesOf(a: Release, b: Release): set<Severity> {
    Severities(ChangeSet(a.contract, b.contract), a.contract, b.contract, a.policy, b.policy)
  }

  ghost predicate DriftOf(a: Release, b: Release) {
    Drift(ChangeSet(a.contract, b.contract), a.contract, b.contract, a.policy, b.policy)
  }

  lemma VersionStepOf(a: Release, b: Release)
    requires StepAccepted(a, b)
    ensures VersionStep(a.contract.version, b.contract.version, DriftOf(a, b), SeveritiesOf(a, b))
  {
  }

  /** A change of one surface counts towards the version of the contract. */
  lemma ChangeCounts(a: Release, b: Release, id: string)
    requires id in SurfacesOf(a) || id in SurfacesOf(b)
    requires ChangeBetween(a.contract, b.contract, id).Some?
    ensures ChangeBetween(a.contract, b.contract, id).value.severity in SeveritiesOf(a, b) && DriftOf(a, b)
  {
    assert id in SurfacesOf(a).Keys + SurfacesOf(b).Keys;
    assert ChangeBetween(a.contract, b.contract, id).value in ChangeSet(a.contract, b.contract);
  }

  lemma KeptSurface(a: Release, b: Release, id: string)
    requires StepAccepted(a, b) && id in SurfacesOf(a) && id in SurfacesOf(b)
    ensures var o, n := SurfacesOf(a)[id], SurfacesOf(b)[id];
            if Semantics(o) == Semantics(n) then o.stability == n.stability && !SignatureChanged(o, n)
            else Classify(o, n).Some? && Classify(o, n).value.1 in SeveritiesOf(a, b) && DriftOf(a, b)
  {
    var o, n := SurfacesOf(a)[id], SurfacesOf(b)[id];
    if Semantics(o) == Semantics(n) {
      assert o.kind == Semantics(o).kind && o.signature == Semantics(o).signature &&
        o.stability == Semantics(o).stability;
      assert n.kind == Semantics(n).kind && n.signature == Semantics(n).signature &&
        n.stability == Semantics(n).stability;
    } else {
      assert SurfaceStep(o, n);
      ChangeCounts(a, b, id);
    }
  }

  // ----- the contract's own version over a history -----

  lemma StepVersion(h: seq<Release>, k: nat)
    requires IsHistory(h) && k + 1 < |h|
    ensures AtMost(h[k].contract.version, h[k + 1].contract.version)
  {
    assert StepAt(h, k);
  }

  lemma {:induction false} ContractVersionNeverFalls(h: seq<Release>, i: nat, j: nat)
    requires IsHistory(h) && i <= j < |h|
    ensures AtMost(h[i].contract.version, h[j].contract.version)
    decreases j
  {
    if i < j {
      ContractVersionNeverFalls(h, i, j - 1);
      StepVersion(h, j - 1);
      AtMostTransitive(h[i].contract.version, h[j - 1].contract.version, h[j].contract.version);
    }
  }

  /** Same surfaces, except for their sources. */
  ghost predicate SameSurfaces(a: Release, b: Release) {
    && SurfacesOf(a).Keys == SurfacesOf(b).Keys
    && forall id :: id in SurfacesOf(a) ==> Semantics(SurfacesOf(a)[id]) == Semantics(SurfacesOf(b)[id])
  }

  lemma SameVersionStep(a: Release, b: Release)
    requires StepAccepted(a, b) && a.contract.version == b.contract.version
    ensures SameSurfaces(a, b)
  {
    VersionStepOf(a, b);
    forall id | id in SurfacesOf(a) || id in SurfacesOf(b)
      ensures id in SurfacesOf(a) && id in SurfacesOf(b) && Semantics(SurfacesOf(a)[id]) == Semantics(SurfacesOf(b)[id])
    {
      if ChangeBetween(a.contract, b.contract, id).Some? {
        ChangeCounts(a, b, id);
      } else {
        UnchangedSurface(a, b, id);
      }
    }
  }

  lemma UnchangedSurface(a: Release, b: Release, id: string)
    requires StepAccepted(a, b) && (id in SurfacesOf(a) || id in SurfacesOf(b))
    requires ChangeBetween(a.contract, b.contract, id).None?
    ensures id in SurfacesOf(a) && id in SurfacesOf(b) && Semantics(SurfacesOf(a)[id]) == Semantics(SurfacesOf(b)[id])
  {
    assert SurfaceStep(SurfacesOf(a)[id], SurfacesOf(b)[id]);
  }

  /** A contract version identifies the public surfaces: releases that share it have the same ones. */
  lemma {:induction false} ContractVersionFixesSurfaces(h: seq<Release>, i: nat, j: nat)
    requires IsHistory(h) && i <= j < |h| && h[i].contract.version == h[j].contract.version
    ensures SameSurfaces(h[i], h[j])
    decreases j
  {
    if i < j {
      ContractVersionNeverFalls(h, i, j - 1);
      StepVersion(h, j - 1);
      AtMostTransitive(h[i].contract.version, h[j - 1].contract.version, h[j].contract.version);
      ContractVersionFixesSurfaces(h, i, j - 1);
      assert StepAt(h, j - 1);
      SameVersionStep(h[j - 1], h[j]);
    }
  }
}
