/**
 The evaluator as written: one shared set of reasons that every stage adds to, and a
 decision at the end.
 */
module TrustEvaluator {
  import opened Basics
  import opened TrustTypes
  import opened TrustKeys
  import opened SignatureEvidence
  import opened Freshness
  import opened TrustVerdict
  import opened TrustTheorems
  import Delegation
  import KeySupersession
  import TrustConformance
  import TrustReasons
  import TrustRules

  class Evaluator {
    var failures: set<Reason>

    constructor ()
      ensures failures == {}
    {
      failures := {};
    }

    method Note(condition: bool, reason: Reason)
      modifies this
      ensures failures == old(failures) + When(condition, reason)
    {
      if condition {
        failures := failures + {reason};
      }
    }

    /** Files the keys by identifier while watching for malformed, misfiled and repeated keys. */
    method KeyMaps(c: Crypto, entries: seq<Option<KeyEntry>>) returns (keys: KeyTable)
      modifies this
      ensures keys == TableOf(entries)
      ensures failures == old(failures) + KeyFailures(c, entries)
    {
      keys := map[];
      var seenPublic: set<string> := {};
      for i := 0 to |entries|
        invariant keys == TableOf(entries[..i])
        invariant seenPublic == PublicKeys(entries[..i])
        invariant failures == old(failures) + KeyFailures(c, entries[..i])
      {
        assert entries[..i + 1][..i] == entries[..i];
        PublicKeysSnoc(entries, i);
        keys, seenPublic := FileKey(c, entries[..i], entries[i], keys, seenPublic);
      }
      assert entries[..|entries|] == entries;
    }

    method FileKey(
      c: Crypto, ghost before: seq<Option<KeyEntry>>, next: Option<KeyEntry>, keys: KeyTable, seenPublic: set<string>)
      returns (keys': KeyTable, seenPublic': set<string>)
      requires keys == TableOf(before) && seenPublic == PublicKeys(before)
      modifies this
      ensures failures == old(failures) + EntryFailures(c, before, next)
      ensures keys' == if next.Some? && next.value.id.Some? then keys[next.value.id.value := next.value] else keys
      ensures seenPublic' ==
              if next.Some? && PublicKey(next.value).Some?
              then seenPublic + {PublicKey(next.value).value}
              else seenPublic
    {
      keys', seenPublic' := keys, seenPublic;
      if next.None? {
        failures := failures + {KeyMalformed};
        return;
      }
      var entry, publicKey := next.value, PublicKey(next.value);
      if !c.validKey(publicKey) {
        failures := failures + {KeyMalformed};
      }
      if entry.id.None? || Fingerprint(c, entry) != entry.id {
        failures := failures + {KeyIdMismatch};
      }
      if publicKey.Some? {
        if publicKey.value in seenPublic {
          failures := failures + {DuplicateKey};
        }
        seenPublic' := seenPublic + {publicKey.value};
      }
      if entry.id.Some? {
        if entry.id.value in keys {
          failures := failures + {DuplicateKey};
        }
        keys' := keys[entry.id.value := entry];
      }
    }

    method ValidateKeySupersession(keys: KeyTable)
      modifies this
      ensures failures == old(failures) + When(!KeySupersession.LocalRules(Records(keys)), KeySupersessionInvalid)
    {
      var invalid := KeySupersession.SupersessionInvalid(Records(keys));
      Note(invalid, KeySupersessionInvalid);
    }

    method RoleMaps(entries: seq<Option<Role>>, keys: set<string>) returns (roles: Delegation.RoleTable)
      modifies this
      ensures roles == Delegation.TableOf(entries)
      ensures failures == old(failures) + When(!Delegation.RolesSound(entries, keys), DelegationInvalid)
    {
      var sound;
      roles, sound := Delegation.RoleMaps(entries, keys);
      Note(!sound, DelegationInvalid);
    }

    /** Counts the signatures that hold up, by key and by fingerprint. */
    method CollectEvidence(c: Crypto, d: Demand, list: Option<Signatures>) returns (signers: set<string>, count: nat)
      modifies this
      ensures signers == SignersOf(c, d, list) && count == CountOf(c, d, list)
      ensures failures == old(failures) + EvidenceFailures(c, d, list)
    {
      signers, count := {}, 0;
      if list.None? || d.role.None? {
        failures := failures + {ThresholdReason(d.context)};
        return;
      }
      var role, signatures := d.role.value, list.value;
      var fingerprints: set<string> := {};
      for i := 0 to |signatures|
        invariant signers == Signers(c, d, role, signatures[..i])
        invariant fingerprints == Fingerprints(c, d, role, signatures[..i])
        invariant failures == old(failures) + Defects(c, d, role, signatures[..i])
      {
        EvidenceSnoc(c, d, role, signatures, i);
        var defect := Defect(c, d, role, signatures[i]);
        if defect.Some? {
          failures := failures + {ReportAs(d.context, defect.value)};
        } else {
          var id := signatures[i].value.keyId.value;
          signers := signers + {id};
          fingerprints := fingerprints + {Fingerprint(c, d.keys[id]).value};
        }
      }
      assert signatures[..|signatures|] == signatures;
      count := |fingerprints|;
      Note(count < RoleThreshold(role), ThresholdReason(d.context));
      Note(!(d.required <= signers), ThresholdReason(d.context));
    }

    method EvaluateTables(c: Crypto, signed: RootSigned)
      modifies this
      ensures failures == old(failures) + TableFailures(c, signed)
    {
      var keys := KeyMaps(c, signed.keys);
      ValidateKeySupersession(keys);
      var _ := RoleMaps(signed.roles, keys.Keys);
    }

    method EvaluateRootSignatures(c: Crypto, k: Codec, x: Input)
      modifies this
      ensures failures == old(failures) + RootEvidenceFailures(c, k, x)
    {
      var _, _ := CollectEvidence(c, OldSelf(k, x), x.trusted.signatures);
      var byOld, _ := CollectEvidence(c, OldOverNew(k, x), x.transition.byOld);
      var byNew, _ := CollectEvidence(c, NewOverNew(k, x), x.transition.byNew);
      var own, _ := CollectEvidence(c, NewOverNew(k, x), x.candidate.signatures);
      Note(byNew != own || byOld == {} || byNew == {}, RootThresholdNotMet);
    }

    method EvaluateRoot(c: Crypto, k: Codec, x: Input)
      modifies this
      ensures failures == old(failures) + RootFailures(c, k, x)
    {
      EvaluateTables(c, x.trusted.signed);
      EvaluateTables(c, x.candidate.signed);
      Note(!RootsRecorded(c, k, x), RootDigestMismatch);
      Note(!AnchorMatches(c, k, x), RootBootstrapMismatch);
      Note(!RotationValid(x), RootRotationInvalid);
      Note(RootExpired(x), MetadataExpired);
      EvaluateRootSignatures(c, k, x);
      Note(RootRolledBack(x), RootRollback);
      Regroup(old(failures),
        TableFailures(c, x.trusted.signed), TableFailures(c, x.candidate.signed),
        When(!RootsRecorded(c, k, x), RootDigestMismatch), When(!AnchorMatches(c, k, x), RootBootstrapMismatch),
        When(!RotationValid(x), RootRotationInvalid), When(RootExpired(x), MetadataExpired),
        RootEvidenceFailures(c, k, x), When(RootRolledBack(x), RootRollback));
    }

    method AuthenticateIndex(c: Crypto, k: Codec, x: Input) returns (authenticated: bool)
      modifies this
      ensures failures == old(failures) + EvidenceFailures(c, IndexDemand(k, x), x.index.signatures) +
                          When(IndexDemand(k, x).role.Some? && !IndexThresholdAgreed(k, x), IndexThresholdNotMet)
      ensures authenticated == IndexAuthenticated(c, k, x)
    {
      var demand := IndexDemand(k, x);
      var _, count := CollectEvidence(c, demand, x.index.signatures);
      Note(demand.role.Some? && !IndexThresholdAgreed(k, x), IndexThresholdNotMet);
      authenticated := IndexRecorded(c, k, x) && IndexThresholdAgreed(k, x) &&
        count >= RoleThreshold(demand.role.value);
    }

    method EvaluateIndex(c: Crypto, k: Codec, x: Input) returns (authenticated: bool)
      modifies this
      ensures failures == old(failures) + IndexFailures(c, k, x)
      ensures authenticated == IndexAuthenticated(c, k, x)
    {
      Note(IndexBytes(k, x.index.signed).None? || !IndexRecorded(c, k, x), IndexDigestMismatch);
      Note(IndexExpired(x), MetadataExpired);
      authenticated := AuthenticateIndex(c, k, x);
      if authenticated {
        failures := failures + FreshnessFailures(x.expectation.freshness, SnapshotOf(c, k, x));
      }
      Regroup(old(failures),
        When(IndexBytes(k, x.index.signed).None? || !IndexRecorded(c, k, x), IndexDigestMismatch),
        When(IndexExpired(x), MetadataExpired),
        EvidenceFailures(c, IndexDemand(k, x), x.index.signatures),
        When(IndexDemand(k, x).role.Some? && !IndexThresholdAgreed(k, x), IndexThresholdNotMet),
        FreshnessStage(c, k, x), {}, {}, {});
    }

    method AuthenticatePackage(c: Crypto, k: Codec, x: Input) returns (authenticated: bool)
      modifies this
      ensures failures == old(failures) + EvidenceFailures(c, PackageDemand(k, x), x.package.signatures) +
                          When(PackageDemand(k, x).role.Some? && !PackageThresholdAgreed(k, x), PackageThresholdNotMet)
      ensures authenticated == PackageAuthenticated(c, k, x)
    {
      var demand := PackageDemand(k, x);
      var signers, count := CollectEvidence(c, demand, x.package.signatures);
      Note(demand.role.Some? && !PackageThresholdAgreed(k, x), PackageThresholdNotMet);
      authenticated :=
        PackageRecorded(c, k, x) && PackageThresholdAgreed(k, x) &&
        count >= x.expectation.packageThreshold && x.expectation.requiredKeys <= signers;
    }

    method EvaluatePackage(c: Crypto, k: Codec, x: Input, indexAuthenticated: bool)
      requires indexAuthenticated == IndexAuthenticated(c, k, x)
      modifies this
      ensures failures == old(failures) + PackageFailures(c, k, x)
    {
      Note(Downgraded(x), VersionDowngrade);
      Note(!ExactGrant(x), NamespaceGrantMismatch);
      Note(PackageBytes(k, x).None? || !PackageRecorded(c, k, x), SignatureInvalid);
      var authenticated := AuthenticatePackage(c, k, x);
      Note(indexAuthenticated && authenticated && BeforePublication(x), MetadataReplayed);
      Regroup(old(failures),
        When(Downgraded(x), VersionDowngrade), When(!ExactGrant(x), NamespaceGrantMismatch),
        When(PackageBytes(k, x).None? || !PackageRecorded(c, k, x), SignatureInvalid),
        EvidenceFailures(c, PackageDemand(k, x), x.package.signatures),
        When(PackageDemand(k, x).role.Some? && !PackageThresholdAgreed(k, x), PackageThresholdNotMet),
        When(indexAuthenticated && authenticated && BeforePublication(x), MetadataReplayed), {}, {});
    }
  }

  /** Adding reasons stage by stage adds their union; unused places are empty. */
  lemma Regroup(base: set<Reason>, a: set<Reason>, b: set<Reason>, c: set<Reason>, d: set<Reason>,
                e: set<Reason>, f: set<Reason>, g: set<Reason>, h: set<Reason>)
    ensures base + a + b + c + d + e + f + g + h == base + (a + b + c + d + e + f + g + h)
    ensures base + a + b + c + d + e + f == base + (a + b + c + d + e + f)
    ensures base + a + b + c + d + e == base + (a + b + c + d + e)
    ensures base + a + b + c + d + {} == base + a + b + c + d && a + b + c + d + {} == a + b + c + d
  {
  }

  lemma PublicKeysSnoc(entries: seq<Option<KeyEntry>>, i: nat)
    requires i < |entries|
    ensures PublicKeys(entries[..i + 1]) ==
            PublicKeys(entries[..i]) +
            (if entries[i].Some? && PublicKey(entries[i].value).Some? then {PublicKey(entries[i].value).value} else {})
  {
    assert forall e :: e in entries[..i + 1] <==> e in entries[..i] || e == entries[i];
  }

  lemma EvidenceSnoc(c: Crypto, d: Demand, role: Role, list: Signatures, i: nat)
    requires i < |list|
    ensures var s := list[i];
            if Counts(c, d, role, s) then
              && Signers(c, d, role, list[..i + 1]) == Signers(c, d, role, list[..i]) + {s.value.keyId.value}
              && Fingerprints(c, d, role, list[..i + 1]) ==
                 Fingerprints(c, d, role, list[..i]) + {Fingerprint(c, d.keys[s.value.keyId.value]).value}
              && Defects(c, d, role, list[..i + 1]) == Defects(c, d, role, list[..i])
            else
              && Signers(c, d, role, list[..i + 1]) == Signers(c, d, role, list[..i])
              && Fingerprints(c, d, role, list[..i + 1]) == Fingerprints(c, d, role, list[..i])
              && Defects(c, d, role, list[..i + 1]) ==
                 Defects(c, d, role, list[..i]) + {ReportAs(d.context, Defect(c, d, role, s).value)}
  {
    assert forall s :: s in list[..i + 1] <==> s in list[..i] || s == list[i];
  }

  /** The three stages share one evaluator and its set of failures. */
  method CollectFailures(c: Crypto, k: Codec, x: Input, others: set<Reason>) returns (failures: set<Reason>)
    ensures failures == AllFailures(c, k, x, others)
  {
    var evaluator := new Evaluator();
    evaluator.EvaluateRoot(c, k, x);
    var authenticated := evaluator.EvaluateIndex(c, k, x);
    evaluator.EvaluatePackage(c, k, x, authenticated);
    failures := evaluator.failures + others;
    StartEmpty(RootFailures(c, k, x), IndexFailures(c, k, x), PackageFailures(c, k, x), others);
  }

  lemma StartEmpty(a: set<Reason>, b: set<Reason>, c: set<Reason>, d: set<Reason>)
    ensures {} + a + b + c + d == a + b + c + d
  {
  }

  /**
   The verdict is trusted exactly when the rules on the documents hold; otherwise it lists, by
   precedence, every reason they give and no other, led by the gravest.
   */
  method Evaluate(c: Crypto, k: Codec, x: Input, others: set<Reason>) returns (v: Verdict)
    ensures v == Decide(AllFailures(c, k, x, others))
    ensures v.Trusted? <==>
            && TrustRules.RootRules(c, k, x) && TrustRules.IndexRules(c, k, x)
            && TrustRules.PackageRules(c, k, x) && others == {}
    ensures v.Rejected? ==>
              && (forall r :: r in v.reasons <==> TrustReasons.Reported(c, k, x, others, r))
              && InOrder(PRECEDENCE, v.reasons) && v.reasons != [] && v.primary == v.reasons[0]
  {
    var failures := CollectFailures(c, k, x, others);
    v := Decide(failures);
    TrustConformance.TrustedIffRules(c, k, x, others);
    if v.Rejected? {
      TrustReasons.RejectedMeans(c, k, x, others, v);
    }
  }
}
