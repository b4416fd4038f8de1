/**
 What a trusted verdict means: every reason is absent exactly when an unbroken chain leads
 from the out-of-band anchor through both roots to the index and the package.
 */
module TrustTheorems {
  import opened Basics
  import opened Transcripts
  import opened TrustTypes
  import opened TrustKeys
  import opened SignatureEvidence
  import opened Freshness
  import opened TrustVerdict
  import Delegation
  import KeySupersession

  // ----- the decision -----

  lemma {:induction false} SelectMeans(precedence: seq<Reason>, failures: set<Reason>)
    ensures forall r :: r in Select(precedence, failures) <==> r in precedence && r in failures
  {
    if precedence == [] {
    } else {
      SelectMeans(precedence[1..], failures);
      assert forall r :: r in precedence <==> r == precedence[0] || r in precedence[1..];
    }
  }

  ghost predicate NoneBefore(precedence: seq<Reason>, failures: set<Reason>, i: nat)
    requires i <= |precedence|
  {
    forall j :: 0 <= j < i ==> precedence[j] !in failures
  }

  /** `r` failed, and nothing of higher precedence did. */
  ghost predicate IsFirst(precedence: seq<Reason>, failures: set<Reason>, r: Reason) {
    exists i :: 0 <= i < |precedence| && precedence[i] == r && NoneBefore(precedence, failures, i)
  }

  /** The first selected reason is the first of the precedence list that failed. */
  lemma {:induction false} SelectFirst(precedence: seq<Reason>, failures: set<Reason>)
    requires Select(precedence, failures) != []
    ensures IsFirst(precedence, failures, Select(precedence, failures)[0])
  {
    if precedence[0] in failures {
      assert precedence[0] == Select(precedence, failures)[0];
    } else {
      SelectFirst(precedence[1..], failures);
      var rest := precedence[1..];
      var i :| 0 <= i < |rest| && rest[i] == Select(precedence, failures)[0] && NoneBefore(rest, failures, i);
      assert precedence[i + 1] == Select(precedence, failures)[0];
      forall j | 0 <= j < i + 1 ensures precedence[j] !in failures {
        if j > 0 {
          assert precedence[1..][j - 1] == precedence[j];
        }
      }
    }
  }

  /** `a` stands somewhere before `b`. */
  ghost predicate Before(precedence: seq<Reason>, a: Reason, b: Reason) {
    exists i, j :: 0 <= i < j < |precedence| && precedence[i] == a && precedence[j] == b
  }

  ghost predicate InOrder(precedence: seq<Reason>, listed: seq<Reason>) {
    forall a, b :: 0 <= a < b < |listed| ==> Before(precedence, listed[a], listed[b])
  }

  lemma BeforeInTail(precedence: seq<Reason>, a: Reason, b: Reason)
    requires precedence != [] && Before(precedence[1..], a, b)
    ensures Before(precedence, a, b)
  {
    var rest := precedence[1..];
    var i, j :| 0 <= i < j < |rest| && rest[i] == a && rest[j] == b;
    assert precedence[i + 1] == a && precedence[j + 1] == b;
  }

  lemma {:induction false} SelectInOrder(precedence: seq<Reason>, failures: set<Reason>)
    ensures InOrder(precedence, Select(precedence, failures))
  {
    if precedence == [] {
    } else {
      var rest, listed := Select(precedence[1..], failures), Select(precedence, failures);
      var shift := |listed| - |rest|;
      SelectInOrder(precedence[1..], failures);
      SelectMeans(precedence[1..], failures);
      forall a, b | 0 <= a < b < |listed| ensures Before(precedence, listed[a], listed[b]) {
        assert listed[b] == rest[b - shift];
        if a >= shift {
          assert Before(precedence[1..], rest[a - shift], rest[b - shift]);
          BeforeInTail(precedence, listed[a], listed[b]);
        } else {
          assert rest[b - shift] in precedence[1..];
        }
      }
    }
  }

  lemma PrecedenceComplete(r: Reason)
    ensures r in PRECEDENCE
  {
  }

  /** Trusted means no reason at all; a rejection lists all reasons by precedence and is led by the first. */
  lemma DecisionMeans(failures: set<Reason>)
    ensures Decide(failures).Trusted? <==> failures == {}
    ensures Decide(failures).Rejected? ==> forall r :: r in Decide(failures).reasons <==> r in failures
    ensures Decide(failures).Rejected? ==>
              && IsFirst(PRECEDENCE, failures, Decide(failures).primary)
              && Decide(failures).reasons != [] && Decide(failures).primary == Decide(failures).reasons[0]
              && InOrder(PRECEDENCE, Decide(failures).reasons)
  {
    SelectInOrder(PRECEDENCE, failures);
    SelectMeans(PRECEDENCE, failures);
    forall r ensures r in PRECEDENCE {
      PrecedenceComplete(r);
    }
    if Select(PRECEDENCE, failures) != [] {
      SelectFirst(PRECEDENCE, failures);
      assert Select(PRECEDENCE, failures)[0] in Select(PRECEDENCE, failures);
    }
    if failures != {} {
      var r :| r in failures;
      assert r in Select(PRECEDENCE, failures);
    }
  }

  // ----- roots -----

  ghost predicate TablesSound(c: Crypto, signed: RootSigned) {
    && KeysSound(c, signed.keys)
    && KeySupersession.LocalRules(Records(TableOf(signed.keys)))
    && Delegation.RolesSound(signed.roles, TableOf(signed.keys).Keys)
  }

  lemma TablesSoundIff(c: Crypto, signed: RootSigned)
    ensures TableFailures(c, signed) == {} <==> TablesSound(c, signed)
  {
    NoKeyFailures(c, signed.keys);
    var sound := KeyFailures(c, signed.keys);
    assert TableFailures(c, signed) == {} ==> sound == {};
    assert DelegationInvalid in When(true, DelegationInvalid) &&
      KeySupersessionInvalid in When(true, KeySupersessionInvalid);
  }

  /**
   The old root's keys vouch for both roots, the new root's keys for the new one, and the latter
   list the same signers twice.
   */
  ghost predicate RootsAttested(c: Crypto, k: Codec, x: Input) {
    && Attested(c, OldSelf(k, x), x.trusted.signatures)
    && Attested(c, OldOverNew(k, x), x.transition.byOld)
    && Attested(c, NewOverNew(k, x), x.transition.byNew)
    && Attested(c, NewOverNew(k, x), x.candidate.signatures)
    && KeysOf(x.transition.byNew.value) == KeysOf(x.candidate.signatures.value)
    && KeysOf(x.transition.byOld.value) != {} && KeysOf(x.transition.byNew.value) != {}
  }

  lemma RootsAttestedIff(c: Crypto, k: Codec, x: Input)
    ensures RootEvidenceFailures(c, k, x) == {} <==> RootsAttested(c, k, x)
  {
    NoFailuresMeansAttested(c, OldSelf(k, x), x.trusted.signatures);
    NoFailuresMeansAttested(c, OldOverNew(k, x), x.transition.byOld);
    NoFailuresMeansAttested(c, NewOverNew(k, x), x.transition.byNew);
    NoFailuresMeansAttested(c, NewOverNew(k, x), x.candidate.signatures);
    EmptyUnion5(
      EvidenceFailures(c, OldSelf(k, x), x.trusted.signatures),
      EvidenceFailures(c, OldOverNew(k, x), x.transition.byOld),
      EvidenceFailures(c, NewOverNew(k, x), x.transition.byNew),
      EvidenceFailures(c, NewOverNew(k, x), x.candidate.signatures),
      SignerFailures(c, k, x));
  }

  lemma EmptyUnion5(a: set<Reason>, b: set<Reason>, c: set<Reason>, d: set<Reason>, e: set<Reason>)
    ensures a + b + c + d + e == {} <==> a == {} && b == {} && c == {} && d == {} && e == {}
  {
    forall r ensures r in a + b + c + d + e <==> r in a || r in b || r in c || r in d || r in e {
    }
  }

  lemma EmptyUnion4(a: set<Reason>, b: set<Reason>, c: set<Reason>, d: set<Reason>)
    ensures a + b + c + d == {} <==> a == {} && b == {} && c == {} && d == {}
  {
    EmptyUnion5(a, b, c, d, {});
    assert a + b + c + d + {} == a + b + c + d;
  }

  lemma WhenEmpty(condition: bool, reason: Reason)
    ensures When(condition, reason) == {} <==> !condition
  {
    assert reason in {reason};
  }

  /** The anchored old root vouches for the candidate, which succeeds it and vouches for itself. */
  ghost predicate RootTrusted(c: Crypto, k: Codec, x: Input) {
    && TablesSound(c, x.trusted.signed) && TablesSound(c, x.candidate.signed)
    && RootsRecorded(c, k, x) && AnchorMatches(c, k, x)
    && RotationValid(x) && !RootExpired(x) && !RootRolledBack(x)
    && RootsAttested(c, k, x)
  }

  lemma RootTrustedIff(c: Crypto, k: Codec, x: Input)
    ensures RootFailures(c, k, x) == {} <==> RootTrusted(c, k, x)
  {
    var a, b := TableFailures(c, x.trusted.signed), TableFailures(c, x.candidate.signed);
    var d := When(!RootsRecorded(c, k, x), RootDigestMismatch);
    var e := When(!AnchorMatches(c, k, x), RootBootstrapMismatch);
    var f := When(!RotationValid(x), RootRotationInvalid);
    var g := When(RootExpired(x), MetadataExpired);
    var h := RootEvidenceFailures(c, k, x);
    var i := When(RootRolledBack(x), RootRollback);
    EmptyUnion5(a, b, d, e, f);
    EmptyUnion4(a + b + d + e + f, g, h, i);
    TablesSoundIff(c, x.trusted.signed);
    TablesSoundIff(c, x.candidate.signed);
    WhenEmpty(!RootsRecorded(c, k, x), RootDigestMismatch);
    WhenEmpty(!AnchorMatches(c, k, x), RootBootstrapMismatch);
    WhenEmpty(!RotationValid(x), RootRotationInvalid);
    WhenEmpty(RootExpired(x), MetadataExpired);
    WhenEmpty(RootRolledBack(x), RootRollback);
    RootsAttestedIff(c, k, x);
  }

  // ----- index and package -----

  /** The index is recorded, current, attested at the agreed threshold, and fresh. */
  ghost predicate IndexTrusted(c: Crypto, k: Codec, x: Input) {
    && IndexBytes(k, x.index.signed).Some? && IndexRecorded(c, k, x) && !IndexExpired(x)
    && Attested(c, IndexDemand(k, x), x.index.signatures)
    && IndexThresholdAgreed(k, x)
    && IndexFresh(x.expectation.freshness, SnapshotOf(c, k, x))
  }

  /** Not below the marks, bound like everything seen before, with the marks themselves seen. */
  ghost predicate IndexFresh(t: TrustedState, s: Snapshot) {
    && AboveMarks(t, s)
    && (forall e :: e in SeenOf(t) && e.Some? ==> Compatible(e.value, s))
    && (exists e :: e in SeenOf(t) && e.Some? && Anchored(t, s, e.value))
  }

  lemma IndexFreshIff(t: TrustedState, s: Snapshot)
    ensures FreshnessFailures(t, s) == {} <==> IndexFresh(t, s)
  {
    FreshnessMeans(t, s);
  }

  lemma IndexTrustedIff(c: Crypto, k: Codec, x: Input)
    ensures IndexFailures(c, k, x) == {} <==> IndexTrusted(c, k, x)
    ensures IndexTrusted(c, k, x) ==> IndexAuthenticated(c, k, x)
  {
    var d := IndexDemand(k, x);
    NoFailuresMeansAttested(c, d, x.index.signatures);
    IndexFreshIff(x.expectation.freshness, SnapshotOf(c, k, x));
    EmptyUnion5(
      When(IndexBytes(k, x.index.signed).None? || !IndexRecorded(c, k, x), IndexDigestMismatch),
      When(IndexExpired(x), MetadataExpired),
      EvidenceFailures(c, d, x.index.signatures),
      When(d.role.Some? && !IndexThresholdAgreed(k, x), IndexThresholdNotMet),
      FreshnessStage(c, k, x));
    WhenEmpty(IndexBytes(k, x.index.signed).None? || !IndexRecorded(c, k, x), IndexDigestMismatch);
    WhenEmpty(IndexExpired(x), MetadataExpired);
    WhenEmpty(d.role.Some? && !IndexThresholdAgreed(k, x), IndexThresholdNotMet);
  }

  /** The package is granted, recorded, attested by every required key, not a downgrade and not ahead of the index. */
  ghost predicate PackageTrusted(c: Crypto, k: Codec, x: Input) {
    && !Downgraded(x) && ExactGrant(x)
    && PackageBytes(k, x).Some? && PackageRecorded(c, k, x)
    && Attested(c, PackageDemand(k, x), x.package.signatures)
    && PackageThresholdAgreed(k, x)
    && (IndexAuthenticated(c, k, x) ==> !BeforePublication(x))
  }

  lemma PackageTrustedIff(c: Crypto, k: Codec, x: Input)
    ensures PackageFailures(c, k, x) == {} <==> PackageTrusted(c, k, x)
  {
    var d := PackageDemand(k, x);
    NoFailuresMeansAttested(c, d, x.package.signatures);
    var first := When(Downgraded(x), VersionDowngrade);
    var second := When(!ExactGrant(x), NamespaceGrantMismatch);
    var third := When(PackageBytes(k, x).None? || !PackageRecorded(c, k, x), SignatureInvalid);
    var fifth := When(d.role.Some? && !PackageThresholdAgreed(k, x), PackageThresholdNotMet);
    var sixth := When(IndexAuthenticated(c, k, x) && PackageAuthenticated(c, k, x) &&
      BeforePublication(x), MetadataReplayed);
    EmptyUnion5(first, second, third, EvidenceFailures(c, d, x.package.signatures), fifth);
    EmptyUnion4(first + second + third + EvidenceFailures(c, d, x.package.signatures) + fifth, sixth, {}, {});
    WhenEmpty(Downgraded(x), VersionDowngrade);
    WhenEmpty(!ExactGrant(x), NamespaceGrantMismatch);
    WhenEmpty(PackageBytes(k, x).None? || !PackageRecorded(c, k, x), SignatureInvalid);
    WhenEmpty(d.role.Some? && !PackageThresholdAgreed(k, x), PackageThresholdNotMet);
    WhenEmpty(IndexAuthenticated(c, k, x) && PackageAuthenticated(c, k, x) && BeforePublication(x), MetadataReplayed);
  }

  // ----- the whole verdict -----

  /** All reported reasons; `others` are those of the checks outside this model. */
  ghost function AllFailures(c: Crypto, k: Codec, x: Input, others: set<Reason>): set<Reason> {
    RootFailures(c, k, x) + IndexFailures(c, k, x) + PackageFailures(c, k, x) + others
  }

  /** A verdict is trusted exactly when the roots, the index and the package are, and nothing else was reported. */
  lemma TrustedIff(c: Crypto, k: Codec, x: Input, others: set<Reason>)
    ensures Decide(AllFailures(c, k, x, others)).Trusted? <==>
            RootTrusted(c, k, x) && IndexTrusted(c, k, x) && PackageTrusted(c, k, x) && others == {}
  {
    DecisionMeans(AllFailures(c, k, x, others));
    EmptyUnion4(RootFailures(c, k, x), IndexFailures(c, k, x), PackageFailures(c, k, x), others);
    RootTrustedIff(c, k, x);
    IndexTrustedIff(c, k, x);
    PackageTrustedIff(c, k, x);
  }

  /**
   At least `threshold` keys of the demand's role, different in identifier and fingerprint, signed
   `message` in `list`.
   */
  ghost predicate Endorsed(
    c: Crypto, d: Demand, list: Option<Signatures>, message: Option<Bytes>, threshold: Option<int>)
  {
    && Some(d.message) == message && list.Some? && d.role.Some? && threshold == d.role.value.threshold
    && exists signers: set<string> ::
         && |signers| >= RoleThreshold(d.role.value)
         && forall id :: id in signers ==> SignedBy(c, d, d.role.value, list.value, id) && FiledKey(c, d, id)
  }

  /** The key is filed under its own fingerprint, so that no other key of the table shares it. */
  ghost predicate FiledKey(c: Crypto, d: Demand, id: string) {
    id in d.keys && Fingerprint(c, d.keys[id]) == Some(id)
  }

  /** A version one above and a later sequence. */
  ghost predicate Succeeds(next: RootSigned, prior: RootSigned) {
    && prior.version.Some? && next.version.Some? && next.version.value == prior.version.value + 1
    && prior.sequence.Some? && next.sequence.Some? && next.sequence.value > prior.sequence.value
  }

  ghost predicate RequiredKeysSigned(c: Crypto, k: Codec, x: Input) {
    var d := PackageDemand(k, x);
    && d.role.Some? && x.package.signatures.Some?
    && forall id :: id in x.expectation.requiredKeys ==> SignedBy(c, d, d.role.value, x.package.signatures.value, id)
  }

  /** The anchored old root, and the candidate that succeeds it, endorsed by the root roles of both. */
  ghost predicate RootLinks(c: Crypto, k: Codec, x: Input) {
    var candidate := RootBytes(k, x.candidate.signed);
    && RootsEncode(k, x) && AnchorMatches(c, k, x) && Succeeds(x.candidate.signed, x.trusted.signed)
    && Endorsed(c, OldOverNew(k, x), x.transition.byOld, candidate,
      ThresholdOf(x.trusted.signed, Some(Delegation.ROOT)))
    && Endorsed(c, NewOverNew(k, x), x.transition.byNew, candidate,
      ThresholdOf(x.candidate.signed, Some(Delegation.ROOT)))
  }

  /** The index, endorsed at the threshold asked for and fresh. */
  ghost predicate IndexLink(c: Crypto, k: Codec, x: Input) {
    && Endorsed(c, IndexDemand(k, x), x.index.signatures, IndexBytes(k, x.index.signed), x.expectation.indexThreshold)
    && IndexFresh(x.expectation.freshness, SnapshotOf(c, k, x))
  }

  /** The package is endorsed, by every required key too, under an exact grant. */
  ghost predicate PackageLinks(c: Crypto, k: Codec, x: Input) {
    && Endorsed(c, PackageDemand(k, x), x.package.signatures, PackageBytes(k, x), Some(x.expectation.packageThreshold))
    && RequiredKeysSigned(c, k, x)
    && exists g :: g in x.candidate.signed.grants && g.Some? && GrantMatches(g.value, x.expectation)
  }

  function ThresholdOf(signed: RootSigned, role: Option<string>): Option<int> {
    if RoleAt(signed, role).Some? then RoleAt(signed, role).value.threshold else None
  }

  lemma AttestedEndorses(c: Crypto, signed: RootSigned, d: Demand, list: Option<Signatures>)
    requires Attested(c, d, list) && KeysSound(c, signed.keys) && d.keys == TableOf(signed.keys)
    ensures Endorsed(c, d, list, Some(d.message), d.role.value.threshold)
    ensures forall id :: id in d.required ==> SignedBy(c, d, d.role.value, list.value, id)
  {
    var signers := KeysOf(list.value);
    forall id | id in signers ensures SignedBy(c, d, d.role.value, list.value, id) && FiledKey(c, d, id) {
      var s :| s in list.value && s.Some? && s.value.keyId.Some? && s.value.keyId.value == id;
      assert HoldsUp(c, d, d.role.value, s);
      FiledUnderFingerprint(c, signed.keys, id);
    }
    PrintsOfFiled(c, d, signers);
  }

  lemma RootEndorsed(c: Crypto, k: Codec, x: Input, signed: RootSigned, list: Option<Signatures>)
    requires RootsEncode(k, x) && KeysSound(c, signed.keys)
    requires Attested(c, RootDemand(signed, RootRaws(k, x).1, x.candidate.signed.sequence, TimeOf(x.expectation)), list)
    ensures var d := RootDemand(signed, RootRaws(k, x).1, x.candidate.signed.sequence, TimeOf(x.expectation));
            Endorsed(c, d, list, RootBytes(k, x.candidate.signed), ThresholdOf(signed, Some(Delegation.ROOT)))
  {
    var d := RootDemand(signed, RootRaws(k, x).1, x.candidate.signed.sequence, TimeOf(x.expectation));
    AttestedEndorses(c, signed, d, list);
  }

  lemma RootTrustedLinks(c: Crypto, k: Codec, x: Input)
    requires RootsEncode(k, x) && AnchorMatches(c, k, x) && RotationValid(x)
    requires KeysSound(c, x.trusted.signed.keys) && KeysSound(c, x.candidate.signed.keys)
    requires Attested(c, OldOverNew(k, x), x.transition.byOld) && Attested(c, NewOverNew(k, x), x.transition.byNew)
    ensures RootLinks(c, k, x)
  {
    RootEndorsed(c, k, x, x.trusted.signed, x.transition.byOld);
    RootEndorsed(c, k, x, x.candidate.signed, x.transition.byNew);
  }

  lemma IndexTrustedLink(c: Crypto, k: Codec, x: Input)
    requires IndexTrusted(c, k, x) && KeysSound(c, x.candidate.signed.keys)
    ensures IndexLink(c, k, x)
  {
    AttestedEndorses(c, x.candidate.signed, IndexDemand(k, x), x.index.signatures);
  }

  lemma PackageTrustedLinks(c: Crypto, k: Codec, x: Input)
    requires PackageTrusted(c, k, x) && KeysSound(c, x.candidate.signed.keys)
    ensures PackageLinks(c, k, x)
  {
    AttestedEndorses(c, x.candidate.signed, PackageDemand(k, x), x.package.signatures);
  }

  /** From the anchor through both roots to the index and the package. */
  lemma TrustedChain(c: Crypto, k: Codec, x: Input, others: set<Reason>)
    requires Decide(AllFailures(c, k, x, others)).Trusted?
    ensures RootLinks(c, k, x) && IndexLink(c, k, x) && PackageLinks(c, k, x)
  {
    TrustedIff(c, k, x, others);
    RootTrustedLinks(c, k, x);
    IndexTrustedLink(c, k, x);
    PackageTrustedLinks(c, k, x);
  }

  // ----- what the signed bytes mean -----

  /** Whenever the transcripts exist, what root, index and package keys sign are three different messages. */
  lemma MessagesSeparated(k: Codec, x: Input)
    requires RootsEncode(k, x) && IndexBytes(k, x.index.signed).Some? && PackageBytes(k, x).Some?
    ensures NewOverNew(k, x).message != IndexDemand(k, x).message
    ensures NewOverNew(k, x).message != PackageDemand(k, x).message
    ensures IndexDemand(k, x).message != PackageDemand(k, x).message
  {
    var root, index, p := k.root(x.candidate.signed).value, k.index(x.index.signed).value, SignedFields(k, x).value;
    TranscriptsSeparated(root, index, p, NewOverNew(k, x).message);
    TranscriptsSeparated(root, index, p, IndexDemand(k, x).message);
  }

  /**
   The fields carry a version that is high enough, the threshold that was met and, where the
   package gives its floors as integers, floors the index reaches.
   */
  ghost predicate Binds(k: Codec, x: Input, q: PackageFields) {
    && VersionBound(k, x, q.version)
    && Covers(q.packageThreshold, Number(x.expectation.packageThreshold))
    && PackageThresholdAgreed(k, x)
    && (IntegerFloors(x.package) ==>
          && FloorReached(q.indexGeneration, x.package.generation.value.n, x.index.signed.generation)
          && FloorReached(q.indexSequence, x.package.sequence.value.n, x.index.signed.sequence))
  }

  ghost predicate VersionBound(k: Codec, x: Input, field: FieldValue) {
    && x.package.version.Some? && x.package.version.value.Str? && x.expectation.minimumVersion.Some?
    && SemVer.CompareSemver(x.package.version.value.text, x.expectation.minimumVersion.value) >= 0
    && k.utf8(x.package.version.value.text).Some? && Covers(field, Text(k.utf8(x.package.version.value.text).value))
  }

  ghost predicate FloorReached(field: FieldValue, floor: int, position: int) {
    Covers(field, Number(floor)) && floor <= position
  }

  /** Whatever package the signed bytes encode is the one that was checked, up to the kinds of its fields. */
  lemma SignedPackageIsChecked(c: Crypto, k: Codec, x: Input, others: set<Reason>, q: PackageFields)
    requires Decide(AllFailures(c, k, x, others)).Trusted?
    requires PackageTranscript(q) == Some(PackageDemand(k, x).message)
    ensures Binds(k, x, q)
    ensures SignedFields(k, x).Some?
    ensures Some(q) == SignedFields(k, x) <==> SameKinds(FieldValues(q), FieldValues(SignedFields(k, x).value))
  {
    TrustedIff(c, k, x, others);
    IndexTrustedIff(c, k, x);
    PackageTranscriptInjective(q, SignedFields(k, x).value);
    CheckedFieldsAlike(q, SignedFields(k, x).value);
    PackageIsChecked(c, k, x, q);
  }

  lemma PackageIsChecked(c: Crypto, k: Codec, x: Input, q: PackageFields)
    requires PackageTrusted(c, k, x) && IndexAuthenticated(c, k, x)
    requires CheckedAlike(q, SignedFields(k, x).value)
    ensures Binds(k, x, q)
  {
  }
}
