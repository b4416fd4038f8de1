/**
 Which reason a rejection gives, and when: every reason of the verdict read off the documents,
 so that a rejection names what is wrong and nothing else.
 */
module TrustReasons {
  import opened Basics
  import opened Transcripts
  import opened TrustTypes
  import opened TrustVerdict
  import opened TrustRules
  import opened SignatureEvidence
  import opened TrustConformance
  import Delegation
  import Freshness
  import KeySupersession
  import SemVer
  import TrustKeys
  import TrustTheorems

  // ----- keys -----

  /** When a key that may not sign is not yet valid, retired or revoked, in this order. */
  lemma IneligibleMeans(e: KeyEntry, sequence: int, time: int)
    ensures var r := e.record;
            var started := r.validFrom.Some? && r.validFrom.value <= sequence;
            var revoked :=
              || !r.revocation.Effective?
              || (r.revocation.sequence.Some? && sequence >= r.revocation.sequence.value)
              || (e.revokedAt.Some? && time >= e.revokedAt.value);
            var reason := TrustKeys.Ineligible(e, sequence, time);
            && (reason == Some(KeyNotYetValid) <==> !started)
            && (reason == Some(KeyRetired) <==> started && r.status == KeySupersession.Retired)
            && (reason == Some(KeyRevoked) <==> started && r.status == KeySupersession.Revoked && revoked)
            && (reason.Some? ==> reason.value in {KeyNotYetValid, KeyRetired, KeyRevoked})
  {
  }

  ghost predicate BadKey(c: Crypto, entry: Option<KeyEntry>) {
    entry.None? || !c.validKey(if entry.value.material.Some? then entry.value.material.value.publicKey else None)
  }

  ghost predicate Misfiled(c: Crypto, entry: Option<KeyEntry>) {
    && entry.Some?
    && (entry.value.id.None? || entry.value.material.None? ||
        c.fingerprint(entry.value.material.value) != entry.value.id)
  }

  ghost predicate SameKey(e: Option<KeyEntry>, f: Option<KeyEntry>) {
    && e.Some? && f.Some?
    && (|| (e.value.id.Some? && e.value.id == f.value.id)
        || (e.value.material.Some? && f.value.material.Some? && e.value.material.value.publicKey.Some? &&
            e.value.material.value.publicKey == f.value.material.value.publicKey))
  }

  ghost predicate KeysReport(c: Crypto, keys: Entries, r: Reason) {
    || (r == KeyMalformed && exists i :: 0 <= i < |keys| && BadKey(c, keys[i]))
    || (r == KeyIdMismatch && exists i :: 0 <= i < |keys| && Misfiled(c, keys[i]))
    || (r == DuplicateKey && exists i, j :: 0 <= i < j < |keys| && SameKey(keys[i], keys[j]))
  }

  lemma EntryReports(c: Crypto, before: Entries, entry: Option<KeyEntry>, r: Reason)
    ensures r in TrustKeys.EntryFailures(c, before, entry) <==>
            || (r == KeyMalformed && BadKey(c, entry))
            || (r == KeyIdMismatch && Misfiled(c, entry))
            || (r == DuplicateKey && exists i :: 0 <= i < |before| && SameKey(before[i], entry))
  {
    if entry.Some? {
      RepeatsIff(before, entry);
    }
  }

  lemma RepeatsIff(before: Entries, entry: Option<KeyEntry>)
    requires entry.Some?
    ensures var p, id := TrustKeys.PublicKey(entry.value), entry.value.id;
            (p.Some? && p.value in TrustKeys.PublicKeys(before)) ||
            (id.Some? && id.value in TrustKeys.TableOf(before)) <==>
            exists i :: 0 <= i < |before| && SameKey(before[i], entry)
  {
    TrustKeys.TableKeys(before);
    var p := TrustKeys.PublicKey(entry.value);
    if p.Some? && p.value in TrustKeys.PublicKeys(before) {
      var e :| e in before && e.Some? && TrustKeys.PublicKey(e.value) == p;
      var i :| 0 <= i < |before| && before[i] == e;
      assert SameKey(before[i], entry);
    }
    if i :| 0 <= i < |before| && SameKey(before[i], entry) {
      assert before[i] in before;
      if entry.value.id.Some? && before[i].value.id == entry.value.id {
        assert TrustKeys.HasId(before, entry.value.id.value);
      }
    }
  }

  lemma {:induction false} KeysReportIff(c: Crypto, keys: Entries, r: Reason)
    ensures r in TrustKeys.KeyFailures(c, keys) <==> KeysReport(c, keys, r)
  {
    if keys == [] {
    } else {
      var n := |keys| - 1;
      KeysReportIff(c, keys[..n], r);
      EntryReports(c, keys[..n], keys[n], r);
      KeysReportSnoc(c, keys, r);
    }
  }

  lemma KeysReportSnoc(c: Crypto, keys: Entries, r: Reason)
    requires keys != []
    ensures var n := |keys| - 1;
            KeysReport(c, keys, r) <==>
            || KeysReport(c, keys[..n], r)
            || (r == KeyMalformed && BadKey(c, keys[n]))
            || (r == KeyIdMismatch && Misfiled(c, keys[n]))
            || (r == DuplicateKey && exists i :: 0 <= i < n && SameKey(keys[..n][i], keys[n]))
  {
    var n := |keys| - 1;
    assert forall i :: 0 <= i < n ==> keys[..n][i] == keys[i];
    if r == DuplicateKey && KeysReport(c, keys[..n], r) {
      var i, j :| 0 <= i < j < n && SameKey(keys[..n][i], keys[..n][j]);
      assert SameKey(keys[i], keys[j]);
    }
  }

  // ----- signatures -----

  /** The first fault of a signature that does not hold. */
  ghost predicate FirstFault(c: Crypto, d: Demand, role: Role, s: Option<Signature>, r: Reason) {
    if s.None? then r == SignatureMalformed
    else if s.value.keyId.None? || s.value.keyId.value !in d.keys then r == KeyUnknown
    else
      var id := s.value.keyId.value;
      var e := d.keys[id];
      if role.keyIds.None? || id !in role.keyIds.value then r == DelegationInvalid
      else if d.context == PackageContext && !(d.granted && e.record.publisher == d.publisher)
        then r == SignerPublisherMismatch
      else if !TrustKeys.Usable(e, d.sequence, d.time) then TrustKeys.Ineligible(e, d.sequence, d.time) == Some(r)
      else
        var fault := c.signatureFault(TrustKeys.PublicKey(e), d.message, s.value.value);
        if fault.Some? then r == fault.value
        else r == KeyMalformed && TrustKeys.Fingerprint(c, e).None?
  }

  lemma FirstFaultIff(c: Crypto, d: Demand, role: Role, s: Option<Signature>, r: Reason)
    ensures Defect(c, d, role, s) == Some(r) <==> !HoldsUp(c, d, role, s) && FirstFault(c, d, role, s, r)
  {
    CountsIff(c, d, role, s);
    if s.Some? && s.value.keyId.Some? && s.value.keyId.value in d.keys {
      TrustKeys.EligibleIff(d.keys[s.value.keyId.value], d.sequence, d.time);
    }
  }

  /** The keys whose signatures hold. */
  ghost function Holders(c: Crypto, d: Demand, role: Role, list: Signatures): set<string> {
    set s | s in list && HoldsUp(c, d, role, s) :: s.value.keyId.value
  }

  /** What a list that is too short is reported as. */
  function Short(context: Context): Reason {
    match context
    case RootContext => RootThresholdNotMet
    case IndexContext => IndexThresholdNotMet
    case PackageContext => PackageThresholdNotMet
  }

  ghost predicate TooFew(c: Crypto, d: Demand, role: Role, list: Signatures) {
    var holders := Holders(c, d, role, list);
    || |Prints(c, d, holders)| < (if role.threshold.Some? then role.threshold.value else 1)
    || exists id :: id in d.required && id !in holders
  }

  ghost predicate SomeFault(c: Crypto, d: Demand, role: Role, list: Signatures, r: Reason) {
    exists s :: s in list && !HoldsUp(c, d, role, s) && SignatureReports(c, d, role, s, r)
  }

  ghost predicate EvidenceReports(c: Crypto, d: Demand, list: Option<Signatures>, r: Reason) {
    if list.None? || d.role.None? then r == Short(d.context)
    else
      || SomeFault(c, d, d.role.value, list.value, r)
      || (r == Short(d.context) && TooFew(c, d, d.role.value, list.value))
  }

  /** Roots and indexes report any fault as one reason; packages report the fault. */
  ghost predicate SignatureReports(c: Crypto, d: Demand, role: Role, s: Option<Signature>, r: Reason) {
    match d.context
    case RootContext => r == RootSignatureInvalid
    case IndexContext => r == IndexSignatureInvalid
    case PackageContext => FirstFault(c, d, role, s, r)
  }

  lemma HoldersAre(c: Crypto, d: Demand, role: Role, list: Signatures)
    ensures SignatureEvidence.Signers(c, d, role, list) == Holders(c, d, role, list)
    ensures Fingerprints(c, d, role, list) == Prints(c, d, Holders(c, d, role, list))
  {
    forall s | s in list ensures Counts(c, d, role, s) <==> HoldsUp(c, d, role, s) {
      CountsIff(c, d, role, s);
    }
    FingerprintsArePrints(c, d, role, list);
  }

  lemma DefectsMean(c: Crypto, d: Demand, role: Role, list: Signatures, r: Reason)
    ensures r in Defects(c, d, role, list) <==> SomeFault(c, d, role, list, r)
  {
    forall s | s in list
      ensures Counts(c, d, role, s) <==> HoldsUp(c, d, role, s)
      ensures !HoldsUp(c, d, role, s) ==>
                (ReportAs(d.context, Defect(c, d, role, s).value) == r <==> SignatureReports(c, d, role, s, r))
    {
      CountsIff(c, d, role, s);
      FirstFaultIff(c, d, role, s, r);
    }
  }

  lemma EvidenceReportsIff(c: Crypto, d: Demand, list: Option<Signatures>, r: Reason)
    ensures r in EvidenceFailures(c, d, list) <==> EvidenceReports(c, d, list, r)
  {
    if list.Some? && d.role.Some? {
      DefectsMean(c, d, d.role.value, list.value, r);
      HoldersAre(c, d, d.role.value, list.value);
    }
  }

  // ----- the roots -----

  /** The bytes the roots are checked by: empty for both when either has no transcript. */
  function RootBytesChecked(k: Codec, x: Input): (Bytes, Bytes) {
    var prior, next := RootMessage(k, x.trusted.signed), RootMessage(k, x.candidate.signed);
    if prior.Some? && next.Some? then (prior.value, next.value) else ([], [])
  }

  ghost predicate RootsUnrecorded(c: Crypto, k: Codec, x: Input) {
    var prior, next := RootMessage(k, x.trusted.signed), RootMessage(k, x.candidate.signed);
    || prior.None? || next.None?
    || x.trusted.bytes != prior || x.trusted.digest != Some(c.digest(prior.value))
    || x.candidate.bytes != next || x.candidate.digest != Some(c.digest(next.value))
  }

  ghost predicate Unanchored(c: Crypto, k: Codec, x: Input) {
    var prior := x.trusted.signed;
    x.expectation.anchor != Some(Anchor(prior.version, prior.sequence, c.digest(RootBytesChecked(k, x).0)))
  }

  /** Not the announced next version and later sequence, or a date is missing or out of order. */
  ghost predicate RotationBroken(x: Input) {
    var prior, next := x.trusted.signed, x.candidate.signed;
    || prior.version.None? || next.version != Some(prior.version.value + 1)
    || prior.sequence.None? || next.sequence.None? || next.sequence.value <= prior.sequence.value
    || x.transition.from != prior.version || x.transition.to != next.version
    || prior.expiresAt.None? || next.issuedAt.None? || next.expiresAt.None?
    || next.issuedAt.value >= prior.expiresAt.value || next.issuedAt.value >= next.expiresAt.value
  }

  ghost predicate RootOutOfDate(x: Input) {
    var prior, next := x.trusted.signed, x.candidate.signed;
    || (prior.expiresAt.Some? && next.issuedAt.Some? && next.issuedAt.value >= prior.expiresAt.value)
    || (next.expiresAt.Some? && Time(x) >= next.expiresAt.value)
  }

  ghost predicate Under(value: Option<int>, mark: Option<int>) {
    value.Some? && mark.Some? && mark.value > value.value
  }

  ghost predicate UnderAMark(x: Input) {
    var next, e := x.candidate.signed, x.expectation;
    || Under(next.version, e.highestRootVersion) || Under(next.version, e.lockRootVersion)
    || Under(next.sequence, e.highestRootSequence) || Under(next.sequence, e.lockRootSequence)
  }

  ghost predicate TablesReport(c: Crypto, signed: RootSigned, r: Reason) {
    || KeysReport(c, signed.keys, r)
    || (r == KeySupersessionInvalid &&
        !KeySupersession.LocalRules(TrustKeys.Records(TrustKeys.TableOf(signed.keys))))
    || (r == DelegationInvalid && !Delegation.RolesSound(signed.roles, TrustKeys.TableOf(signed.keys).Keys))
  }

  /** The new root's own signers are not those of the transition, or nobody signed for the transition. */
  ghost predicate SignersDiffer(c: Crypto, k: Codec, x: Input) {
    var byNew := SignatureEvidence.SignersOf(c, NewOverNew(k, x), x.transition.byNew);
    || byNew != SignatureEvidence.SignersOf(c, NewOverNew(k, x), x.candidate.signatures)
    || byNew == {} || SignatureEvidence.SignersOf(c, OldOverNew(k, x), x.transition.byOld) == {}
  }

  ghost predicate RootReports(c: Crypto, k: Codec, x: Input, r: Reason) {
    || TablesReport(c, x.trusted.signed, r) || TablesReport(c, x.candidate.signed, r)
    || (r == RootDigestMismatch && RootsUnrecorded(c, k, x))
    || (r == RootBootstrapMismatch && Unanchored(c, k, x))
    || (r == RootRotationInvalid && RotationBroken(x))
    || (r == MetadataExpired && RootOutOfDate(x))
    || EvidenceReports(c, OldSelf(k, x), x.trusted.signatures, r)
    || EvidenceReports(c, OldOverNew(k, x), x.transition.byOld, r)
    || EvidenceReports(c, NewOverNew(k, x), x.transition.byNew, r)
    || EvidenceReports(c, NewOverNew(k, x), x.candidate.signatures, r)
    || (r == RootThresholdNotMet && SignersDiffer(c, k, x))
    || (r == RootRollback && UnderAMark(x))
  }

  lemma TablesReportIff(c: Crypto, signed: RootSigned, r: Reason)
    ensures r in TableFailures(c, signed) <==> TablesReport(c, signed, r)
  {
    KeysReportIff(c, signed.keys, r);
  }

  lemma RootConditions(c: Crypto, k: Codec, x: Input)
    ensures !RootsRecorded(c, k, x) <==> RootsUnrecorded(c, k, x)
    ensures !AnchorMatches(c, k, x) <==> Unanchored(c, k, x)
    ensures !RotationValid(x) <==> RotationBroken(x)
    ensures RootExpired(x) <==> RootOutOfDate(x)
    ensures RootRolledBack(x) <==> UnderAMark(x)
  {
  }

  lemma RootEvidenceReports(c: Crypto, k: Codec, x: Input, r: Reason)
    ensures r in RootEvidenceFailures(c, k, x) <==>
            || EvidenceReports(c, OldSelf(k, x), x.trusted.signatures, r)
            || EvidenceReports(c, OldOverNew(k, x), x.transition.byOld, r)
            || EvidenceReports(c, NewOverNew(k, x), x.transition.byNew, r)
            || EvidenceReports(c, NewOverNew(k, x), x.candidate.signatures, r)
            || (r == RootThresholdNotMet && SignersDiffer(c, k, x))
  {
    EvidenceReportsIff(c, OldSelf(k, x), x.trusted.signatures, r);
    EvidenceReportsIff(c, OldOverNew(k, x), x.transition.byOld, r);
    EvidenceReportsIff(c, NewOverNew(k, x), x.transition.byNew, r);
    EvidenceReportsIff(c, NewOverNew(k, x), x.candidate.signatures, r);
    SignerFailuresMean(c, k, x, r);
  }

  lemma SignerFailuresMean(c: Crypto, k: Codec, x: Input, r: Reason)
    ensures r in SignerFailures(c, k, x) <==> r == RootThresholdNotMet && SignersDiffer(c, k, x)
  {
  }

  lemma RootFailuresHold(c: Crypto, k: Codec, x: Input, r: Reason)
    ensures r in RootFailures(c, k, x) <==>
            || r in TableFailures(c, x.trusted.signed) || r in TableFailures(c, x.candidate.signed)
            || r in When(!RootsRecorded(c, k, x), RootDigestMismatch)
            || r in When(!AnchorMatches(c, k, x), RootBootstrapMismatch)
            || r in When(!RotationValid(x), RootRotationInvalid) || r in When(RootExpired(x), MetadataExpired)
            || r in RootEvidenceFailures(c, k, x) || r in When(RootRolledBack(x), RootRollback)
  {
  }

  /** Each reason given for the roots, exactly. */
  lemma RootReportsIff(c: Crypto, k: Codec, x: Input, r: Reason)
    ensures r in RootFailures(c, k, x) <==> RootReports(c, k, x, r)
  {
    RootFailuresHold(c, k, x, r);
    TablesReportIff(c, x.trusted.signed, r);
    TablesReportIff(c, x.candidate.signed, r);
    RootConditions(c, k, x);
    RootEvidenceReports(c, k, x, r);
  }

  // ----- index and package -----

  /** The index is recorded and enough keys of a role with the expected threshold signed it. */
  ghost predicate IndexEstablished(c: Crypto, k: Codec, x: Input) {
    var raw, role := IndexMessage(k, x), RoleAt(x.candidate.signed, x.expectation.indexRole);
    var bytes := if raw.Some? then raw.value else [];
    && x.index.bytes == Some(bytes) && x.index.digest == Some(c.digest(bytes))
    && role.Some? && role.value.threshold == x.expectation.indexThreshold
    && SignatureEvidence.CountOf(c, IndexDemand(k, x), x.index.signatures) >=
         (if role.value.threshold.Some? then role.value.threshold.value else 1)
  }

  ghost predicate IndexReports(c: Crypto, k: Codec, x: Input, r: Reason) {
    var raw, role := IndexMessage(k, x), RoleAt(x.candidate.signed, x.expectation.indexRole);
    || (r == IndexDigestMismatch &&
        (raw.None? || x.index.bytes != raw || x.index.digest != Some(c.digest(raw.value))))
    || (r == MetadataExpired && (x.index.signed.expiresAt.None? || Time(x) >= x.index.signed.expiresAt.value))
    || EvidenceReports(c, IndexDemand(k, x), x.index.signatures, r)
    || (r == IndexThresholdNotMet && role.Some? && role.value.threshold != x.expectation.indexThreshold)
    || (IndexEstablished(c, k, x) && r in Freshness.FreshnessFailures(x.expectation.freshness, SnapshotOf(c, k, x)))
  }

  lemma IndexEstablishedIff(c: Crypto, k: Codec, x: Input)
    ensures IndexAuthenticated(c, k, x) <==> IndexEstablished(c, k, x)
  {
  }

  lemma IndexFailuresHold(c: Crypto, k: Codec, x: Input, r: Reason)
    ensures r in IndexFailures(c, k, x) <==>
            || (r == IndexDigestMismatch && (IndexBytes(k, x.index.signed).None? || !IndexRecorded(c, k, x)))
            || (r == MetadataExpired && IndexExpired(x))
            || r in EvidenceFailures(c, IndexDemand(k, x), x.index.signatures)
            || (r == IndexThresholdNotMet && IndexDemand(k, x).role.Some? && !IndexThresholdAgreed(k, x))
            || r in FreshnessStage(c, k, x)
  {
  }

  /** Each reason given for the index, exactly; `Freshness.FreshnessMeans` tells the reasons of its last part apart. */
  lemma IndexReportsIff(c: Crypto, k: Codec, x: Input, r: Reason)
    ensures r in IndexFailures(c, k, x) <==> IndexReports(c, k, x, r)
  {
    IndexFailuresHold(c, k, x, r);
    EvidenceReportsIff(c, IndexDemand(k, x), x.index.signatures, r);
    IndexEstablishedIff(c, k, x);
  }

  ghost predicate PackageUnrecorded(c: Crypto, k: Codec, x: Input) {
    !exists q :: SignsFields(k, x, q) && PackageTranscript(q).Some? && PackageMatches(c, x, PackageTranscript(q).value)
  }

  ghost predicate PackageReports(c: Crypto, k: Codec, x: Input, r: Reason) {
    var role := RoleAt(x.candidate.signed, x.expectation.packageRole);
    || (r == VersionDowngrade && !NotBelowMinimum(x))
    || (r == NamespaceGrantMismatch && !Granted(x))
    || (r == SignatureInvalid && PackageUnrecorded(c, k, x))
    || EvidenceReports(c, PackageDemand(k, x), x.package.signatures, r)
    || (r == PackageThresholdNotMet && role.Some? && role.value.threshold != Some(x.expectation.packageThreshold))
    || (r == MetadataReplayed && IndexEstablished(c, k, x) && PackageAuthenticated(c, k, x) && !FloorsReached(x))
  }

  lemma PackageUnrecordedIff(c: Crypto, k: Codec, x: Input)
    ensures PackageBytes(k, x).None? || !PackageRecorded(c, k, x) <==> PackageUnrecorded(c, k, x)
  {
    forall q ensures SignedFields(k, x) == Some(q) <==> SignsFields(k, x, q) {
      SignedFieldsIff(k, x, q);
    }
    if PackageBytes(k, x).Some? && PackageRecorded(c, k, x) {
      assert SignsFields(k, x, SignedFields(k, x).value);
    }
  }

  lemma InUnion(
    a: set<Reason>, b: set<Reason>, c: set<Reason>, d: set<Reason>, e: set<Reason>, f: set<Reason>, r: Reason)
    ensures r in a + b + c + d + e + f <==> r in a || r in b || r in c || r in d || r in e || r in f
  {
  }

  lemma WhenMeans(condition: bool, reason: Reason, r: Reason)
    ensures r in When(condition, reason) <==> r == reason && condition
  {
  }

  lemma PackageFailuresHold(c: Crypto, k: Codec, x: Input, r: Reason)
    ensures r in PackageFailures(c, k, x) <==>
            || (r == VersionDowngrade && Downgraded(x)) || (r == NamespaceGrantMismatch && !ExactGrant(x))
            || (r == SignatureInvalid && (PackageBytes(k, x).None? || !PackageRecorded(c, k, x)))
            || r in EvidenceFailures(c, PackageDemand(k, x), x.package.signatures)
            || (r == PackageThresholdNotMet && PackageDemand(k, x).role.Some? && !PackageThresholdAgreed(k, x))
            || (r == MetadataReplayed && IndexAuthenticated(c, k, x) && PackageAuthenticated(c, k, x) &&
                BeforePublication(x))
  {
    var downgraded, granted, agreed := Downgraded(x), ExactGrant(x), PackageThresholdAgreed(k, x);
    var unrecorded := PackageBytes(k, x).None? || !PackageRecorded(c, k, x);
    var early := IndexAuthenticated(c, k, x) && PackageAuthenticated(c, k, x) && BeforePublication(x);
    var named := PackageDemand(k, x).role.Some?;
    InUnion(When(downgraded, VersionDowngrade), When(!granted, NamespaceGrantMismatch),
            When(unrecorded, SignatureInvalid), EvidenceFailures(c, PackageDemand(k, x), x.package.signatures),
            When(named && !agreed, PackageThresholdNotMet), When(early, MetadataReplayed), r);
    WhenMeans(downgraded, VersionDowngrade, r);
    WhenMeans(!granted, NamespaceGrantMismatch, r);
    WhenMeans(unrecorded, SignatureInvalid, r);
    WhenMeans(named && !agreed, PackageThresholdNotMet, r);
    WhenMeans(early, MetadataReplayed, r);
  }

  lemma PackageConditions(c: Crypto, k: Codec, x: Input)
    ensures Downgraded(x) <==> !NotBelowMinimum(x)
    ensures ExactGrant(x) <==> Granted(x)
    ensures BeforePublication(x) <==> !FloorsReached(x)
    ensures PackageBytes(k, x).None? || !PackageRecorded(c, k, x) <==> PackageUnrecorded(c, k, x)
    ensures IndexAuthenticated(c, k, x) <==> IndexEstablished(c, k, x)
  {
    NotBelowMinimumIff(x);
    GrantedIff(x);
    FloorsIff(x);
    PackageUnrecordedIff(c, k, x);
    IndexEstablishedIff(c, k, x);
  }

  lemma PackageThresholdMeans(k: Codec, x: Input)
    ensures PackageDemand(k, x).role.Some? && !PackageThresholdAgreed(k, x) <==>
            var role := RoleAt(x.candidate.signed, x.expectation.packageRole);
            role.Some? && role.value.threshold != Some(x.expectation.packageThreshold)
  {
  }

  /** Each reason given for the package, exactly. */
  lemma PackageReportsIff(c: Crypto, k: Codec, x: Input, r: Reason)
    ensures r in PackageFailures(c, k, x) <==> PackageReports(c, k, x, r)
  {
    PackageFailuresHold(c, k, x, r);
    PackageConditions(c, k, x);
    PackageThresholdMeans(k, x);
    EvidenceReportsIff(c, PackageDemand(k, x), x.package.signatures, r);
  }

  // ----- the verdict -----

  /** Some stage, or another check, finds this wrong. */
  ghost predicate Reported(c: Crypto, k: Codec, x: Input, others: set<Reason>, r: Reason) {
    RootReports(c, k, x, r) || IndexReports(c, k, x, r) || PackageReports(c, k, x, r) || r in others
  }

  lemma ReportedIff(c: Crypto, k: Codec, x: Input, others: set<Reason>, r: Reason)
    ensures r in TrustTheorems.AllFailures(c, k, x, others) <==> Reported(c, k, x, others, r)
  {
    RootReportsIff(c, k, x, r);
    IndexReportsIff(c, k, x, r);
    PackageReportsIff(c, k, x, r);
  }

  /** A rejection lists exactly the reasons found in the documents, by precedence and led by the first. */
  lemma RejectedMeans(c: Crypto, k: Codec, x: Input, others: set<Reason>, v: Verdict)
    requires v.Rejected? && v == Decide(TrustTheorems.AllFailures(c, k, x, others))
    ensures forall r :: r in v.reasons <==> Reported(c, k, x, others, r)
    ensures TrustTheorems.InOrder(PRECEDENCE, v.reasons) && v.reasons != [] && v.primary == v.reasons[0]
  {
    TrustTheorems.DecisionMeans(TrustTheorems.AllFailures(c, k, x, others));
    forall r ensures r in v.reasons <==> Reported(c, k, x, others, r) {
      ReportedIff(c, k, x, others, r);
    }
  }
}
