/**
 What the version of a whole contract promises: over any accepted history, releases with the
 same major number (the same minor number before 1.0) only add surfaces, and releases that
 differ in the patch number alone offer the same ones.
 */
module CompatibilityPromise {
  import opened Compatibility
  import opened CompatibilityHistory

  // ----- severities -----

  /**
   A changed signature is breaking; a compatible change touches neither stability nor signature and
   bumps the patch only.
   */
  lemma ClassifyMeans(o: Surface, n: Surface)
    requires Classify(o, n).Some?
    ensures SignatureChanged(o, n) ==> Classify(o, n).value.1 == Breaking
    ensures Classify(o, n).value.1 == CompatibleChange ==>
              && o.stability == n.stability && !SignatureChanged(o, n)
              && o.version.major == n.version.major && o.version.minor == n.version.minor
  {
  }

  // ----- the same compatibility track -----

  /** The same major number, and before 1.0 the same minor number too. */
  predicate SameTrack(a: SemVersion, b: SemVersion) {
    a.major == b.major && (a.major == 0 ==> a.minor == b.minor)
  }

  /** Every surface of `a` is still there, with its kind and signature. */
  ghost predicate Keeps(a: Release, b: Release) {
    forall id :: id in SurfacesOf(a) ==>
      id in SurfacesOf(b) && !SignatureChanged(SurfacesOf(a)[id], SurfacesOf(b)[id])
  }

  lemma NoBreakingOnTrack(a: Release, b: Release)
    requires StepAccepted(a, b) && SameTrack(a.contract.version, b.contract.version)
    requires DriftOf(a, b)
    ensures Breaking !in SeveritiesOf(a, b)
  {
    VersionStepOf(a, b);
  }

  lemma NothingRemoved(a: Release, b: Release, id: string)
    requires StepAccepted(a, b) && a.contract.version.major == b.contract.version.major && id in SurfacesOf(a)
    ensures id in SurfacesOf(b)
  {
  }

  lemma TrackStep(a: Release, b: Release)
    requires StepAccepted(a, b) && SameTrack(a.contract.version, b.contract.version)
    ensures Keeps(a, b)
  {
    forall id | id in SurfacesOf(a)
      ensures id in SurfacesOf(b) && !SignatureChanged(SurfacesOf(a)[id], SurfacesOf(b)[id])
    {
      NothingRemoved(a, b, id);
      KeptSurface(a, b, id);
      var o, n := SurfacesOf(a)[id], SurfacesOf(b)[id];
      if Semantics(o) != Semantics(n) {
        ClassifyMeans(o, n);
        NoBreakingOnTrack(a, b);
      }
    }
  }

  lemma TrackBetween(a: SemVersion, b: SemVersion, c: SemVersion)
    requires AtMost(a, b) && AtMost(b, c) && SameTrack(a, c)
    ensures SameTrack(a, b) && SameTrack(b, c)
    ensures a.minor == c.minor ==> a.minor == b.minor
  {
  }

  /** Over any accepted history, a later release on the same track keeps every surface with its kind and signature. */
  lemma {:induction false} TrackKeepsSurfaces(h: seq<Release>, i: nat, j: nat)
    requires IsHistory(h) && i <= j < |h| && SameTrack(h[i].contract.version, h[j].contract.version)
    ensures Keeps(h[i], h[j])
    decreases j
  {
    if i < j {
      ContractVersionNeverFalls(h, i, j - 1);
      StepVersion(h, j - 1);
      TrackBetween(h[i].contract.version, h[j - 1].contract.version, h[j].contract.version);
      TrackKeepsSurfaces(h, i, j - 1);
      assert StepAt(h, j - 1);
      TrackStep(h[j - 1], h[j]);
    }
  }

  // ----- deprecated surfaces on one track -----

  lemma DeprecatedOnTrack(a: Release, b: Release, id: string)
    requires StepAccepted(a, b) && SameTrack(a.contract.version, b.contract.version)
    requires id in SurfacesOf(a) && SurfacesOf(a)[id].stability == Deprecated
    ensures id in SurfacesOf(b) && Semantics(SurfacesOf(a)[id]) == Semantics(SurfacesOf(b)[id])
  {
    NothingRemoved(a, b, id);
    KeptSurface(a, b, id);
    SurfaceIsValid(a, b, id);
    var o, n := SurfacesOf(a)[id], SurfacesOf(b)[id];
    if Semantics(o) != Semantics(n) {
      assert SurfaceStep(o, n);
      DeprecatedStep(o, n, b.policy);
      NoBreakingOnTrack(a, b);
    }
  }

  /**
   Over any accepted history, a later release on the same track repeats the whole record of a
   deprecated surface: announcement, removal date, editions, migration and replacement.
   */
  lemma {:induction false} TrackFixesDeprecated(h: seq<Release>, i: nat, j: nat, id: string)
    requires IsHistory(h) && i <= j < |h| && SameTrack(h[i].contract.version, h[j].contract.version)
    requires id in SurfacesOf(h[i]) && SurfacesOf(h[i])[id].stability == Deprecated
    ensures id in SurfacesOf(h[j]) && Semantics(SurfacesOf(h[i])[id]) == Semantics(SurfacesOf(h[j])[id])
    decreases j
  {
    if i < j {
      ContractVersionNeverFalls(h, i, j - 1);
      StepVersion(h, j - 1);
      TrackBetween(h[i].contract.version, h[j - 1].contract.version, h[j].contract.version);
      TrackFixesDeprecated(h, i, j - 1, id);
      SameStability(SurfacesOf(h[i])[id], SurfacesOf(h[j - 1])[id]);
      assert StepAt(h, j - 1);
      DeprecatedOnTrack(h[j - 1], h[j], id);
    }
  }

  lemma SameStability(o: Surface, n: Surface)
    requires Semantics(o) == Semantics(n)
    ensures o.stability == n.stability
  {
    assert Semantics(o).stability == o.stability && Semantics(n).stability == n.stability;
  }

  // ----- patch releases -----

  /** The same surfaces at the same stability, with their kinds and signatures. */
  ghost predicate SameOffer(a: Release, b: Release) {
    && SurfacesOf(a).Keys == SurfacesOf(b).Keys
    && forall id :: id in SurfacesOf(a) ==>
         && SurfacesOf(a)[id].stability == SurfacesOf(b)[id].stability
         && !SignatureChanged(SurfacesOf(a)[id], SurfacesOf(b)[id])
  }

  predicate SamePatchLine(a: SemVersion, b: SemVersion) {
    a.major == b.major && a.major > 0 && a.minor == b.minor
  }

  lemma OnlyCompatibleOnPatch(a: Release, b: Release)
    requires StepAccepted(a, b) && SamePatchLine(a.contract.version, b.contract.version)
    requires DriftOf(a, b)
    ensures Breaking !in SeveritiesOf(a, b) && Additive !in SeveritiesOf(a, b) &&
            DeprecatedChange !in SeveritiesOf(a, b)
  {
    VersionStepOf(a, b);
  }

  lemma NothingAdded(a: Release, b: Release, id: string)
    requires StepAccepted(a, b) && SamePatchLine(a.contract.version, b.contract.version) && id in SurfacesOf(b)
    ensures id in SurfacesOf(a)
  {
    if id !in SurfacesOf(a) {
      ChangeCounts(a, b, id);
      OnlyCompatibleOnPatch(a, b);
    }
  }

  lemma PatchStep(a: Release, b: Release)
    requires StepAccepted(a, b) && SamePatchLine(a.contract.version, b.contract.version)
    ensures SameOffer(a, b)
  {
    forall id ensures id in SurfacesOf(a).Keys <==> id in SurfacesOf(b).Keys {
      if id in SurfacesOf(a) {
        NothingRemoved(a, b, id);
      } else if id in SurfacesOf(b) {
        NothingAdded(a, b, id);
      }
    }
    forall id | id in SurfacesOf(a)
      ensures SurfacesOf(a)[id].stability == SurfacesOf(b)[id].stability
      ensures !SignatureChanged(SurfacesOf(a)[id], SurfacesOf(b)[id])
    {
      PatchKeeps(a, b, id);
    }
  }

  lemma PatchKeeps(a: Release, b: Release, id: string)
    requires StepAccepted(a, b) && SamePatchLine(a.contract.version, b.contract.version)
    requires id in SurfacesOf(a) && id in SurfacesOf(b)
    ensures SurfacesOf(a)[id].stability == SurfacesOf(b)[id].stability
    ensures !SignatureChanged(SurfacesOf(a)[id], SurfacesOf(b)[id])
  {
    KeptSurface(a, b, id);
    var o, n := SurfacesOf(a)[id], SurfacesOf(b)[id];
    if Semantics(o) != Semantics(n) {
      ClassifyMeans(o, n);
      OnlyCompatibleOnPatch(a, b);
    }
  }

  /** Over any accepted history, releases of one minor line from 1.0 on offer the same surfaces. */
  lemma {:induction false} PatchFixesOffer(h: seq<Release>, i: nat, j: nat)
    requires IsHistory(h) && i <= j < |h| && SamePatchLine(h[i].contract.version, h[j].contract.version)
    ensures SameOffer(h[i], h[j])
    decreases j
  {
    if i < j {
      ContractVersionNeverFalls(h, i, j - 1);
      StepVersion(h, j - 1);
      TrackBetween(h[i].contract.version, h[j - 1].contract.version, h[j].contract.version);
      PatchFixesOffer(h, i, j - 1);
      assert StepAt(h, j - 1);
      PatchStep(h[j - 1], h[j]);
    }
  }
}
