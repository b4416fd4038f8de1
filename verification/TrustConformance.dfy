/**
 The verifier follows the rules: its tables, walks and counts amount to what TrustRules reads
 off the documents, so a verdict is trusted exactly when those rules hold.
 */
module TrustConformance {
  import opened Basics
  import opened Transcripts
  import opened TrustTypes
  import opened TrustVerdict
  import opened TrustRules
  import Delegation
  import Freshness
  import KeySupersession
  import SemVer
  import SignatureEvidence
  import TrustKeys
  import TrustTheorems

  // ----- keys -----

  lemma KeyFiledIff(c: Crypto, entry: Option<KeyEntry>)
    ensures KeyFiled(c, entry) <==>
            && entry.Some? && c.validKey(TrustKeys.PublicKey(entry.value)) && entry.value.id.Some?
            && TrustKeys.Fingerprint(c, entry.value) == entry.value.id
  {
  }

  lemma KeysFiledIff(c: Crypto, keys: Entries)
    ensures TrustKeys.KeysSound(c, keys) <==> KeysFiled(c, keys)
  {
    forall i | 0 <= i < |keys|
      ensures KeyFiled(c, keys[i]) <==>
              && keys[i].Some? && c.validKey(TrustKeys.PublicKey(keys[i].value)) && keys[i].value.id.Some?
              && TrustKeys.Fingerprint(c, keys[i].value) == keys[i].value.id
    {
      KeyFiledIff(c, keys[i]);
    }
  }

  /** In a sound list the table holds exactly the entries. */
  lemma EntryFiled(c: Crypto, keys: Entries, id: string, e: KeyEntry)
    requires TrustKeys.KeysSound(c, keys)
    ensures (id in TrustKeys.TableOf(keys) && TrustKeys.TableOf(keys)[id] == e) <==>
            Some(e) in keys && e.id == Some(id)
  {
    TrustKeys.TableKeys(keys);
    if Some(e) in keys && e.id == Some(id) {
      var i :| 0 <= i < |keys| && keys[i] == Some(e);
      assert TrustKeys.HasId(keys, id);
      var f := TrustKeys.TableOf(keys)[id];
      var j :| 0 <= j < |keys| && keys[j] == Some(f);
      OneEntry(c, keys, i, j);
    }
  }

  lemma OneEntry(c: Crypto, keys: Entries, i: nat, j: nat)
    requires TrustKeys.KeysSound(c, keys) && i < |keys| && j < |keys| && keys[i].value.id == keys[j].value.id
    ensures i == j
  {
  }

  lemma FiledKey(c: Crypto, keys: Entries, id: string)
    requires TrustKeys.KeysSound(c, keys)
    ensures id in TrustKeys.TableOf(keys) <==> ListsKey(keys, id)
  {
    TrustKeys.TableKeys(keys);
    if id in TrustKeys.TableOf(keys) {
      EntryFiled(c, keys, id, TrustKeys.TableOf(keys)[id]);
    }
    if e :| Some(e) in keys && e.id == Some(id) {
      EntryFiled(c, keys, id, e);
    }
  }

  lemma PredecessorIff(c: Crypto, keys: Entries, id: string, e: KeyEntry, p: string)
    requires TrustKeys.KeysSound(c, keys) && Some(e) in keys && e.id == Some(id)
    ensures id in TrustKeys.Records(TrustKeys.TableOf(keys))
    ensures KeySupersession.MaySupersede(TrustKeys.Records(TrustKeys.TableOf(keys)), id, p) <==>
            HasPredecessor(keys, e, p)
  {
    EntryFiled(c, keys, id, e);
    var table := TrustKeys.TableOf(keys);
    if p in table {
      EntryFiled(c, keys, p, table[p]);
    }
    if f :| Some(f) in keys && f.id == Some(p) && Precedes(f, e) {
      EntryFiled(c, keys, p, f);
    }
  }

  lemma ProperlyIff(c: Crypto, keys: Entries, id: string, e: KeyEntry)
    requires TrustKeys.KeysSound(c, keys) && Some(e) in keys && e.id == Some(id)
    ensures id in TrustKeys.Records(TrustKeys.TableOf(keys))
    ensures KeySupersession.KeyRules(TrustKeys.Records(TrustKeys.TableOf(keys)), id) <==> SupersedesProperly(keys, e)
  {
    EntryFiled(c, keys, id, e);
    var records := TrustKeys.Records(TrustKeys.TableOf(keys));
    assert records[id] == e.record;
    forall p ensures KeySupersession.MaySupersede(records, id, p) <==> HasPredecessor(keys, e, p) {
      PredecessorIff(c, keys, id, e, p);
    }
  }

  lemma SupersessionIff(c: Crypto, keys: Entries)
    requires TrustKeys.KeysSound(c, keys)
    ensures KeySupersession.LocalRules(TrustKeys.Records(TrustKeys.TableOf(keys))) <==> AllSupersedeProperly(keys)
  {
    var table := TrustKeys.TableOf(keys);
    var records := TrustKeys.Records(table);
    if KeySupersession.LocalRules(records) {
      forall e | Some(e) in keys ensures SupersedesProperly(keys, e) {
        ProperlyIff(c, keys, e.id.value, e);
      }
    }
    if AllSupersedeProperly(keys) {
      forall id | id in records ensures KeySupersession.KeyRules(records, id) {
        EntryFiled(c, keys, id, table[id]);
        ProperlyIff(c, keys, id, table[id]);
      }
    }
  }

  // ----- roles -----

  lemma RepeatsIff(s: seq<string>)
    ensures !Delegation.Repeats(s) <==> forall i, j :: 0 <= i < j < |s| ==> s[i] != s[j]
  {
  }

  lemma StaffedIff(c: Crypto, keys: Entries, role: Role)
    requires TrustKeys.KeysSound(c, keys)
    ensures role.id.Some? && Delegation.Staffed(role, TrustKeys.TableOf(keys).Keys) <==> RoleStaffed(keys, role)
  {
    if role.keyIds.Some? {
      var ids := role.keyIds.value;
      RepeatsIff(ids);
      forall i | 0 <= i < |ids| ensures ids[i] in TrustKeys.TableOf(keys).Keys <==> ListsKey(keys, ids[i]) {
        FiledKey(c, keys, ids[i]);
      }
      assert forall i :: 0 <= i < |ids| ==> ids[i] in ids;
    }
  }

  ghost predicate Unique(roles: Roles) {
    forall i, j :: 0 <= i < j < |roles| && roles[i].Some? && roles[j].Some? ==> roles[i].value.id != roles[j].value.id
  }

  lemma {:induction false} RoleTable(roles: Roles)
    ensures forall id :: id in Delegation.TableOf(roles) <==>
              exists i :: 0 <= i < |roles| && roles[i].Some? && roles[i].value.id == Some(id)
    ensures forall id :: id in Delegation.TableOf(roles) ==>
              Some(Delegation.TableOf(roles)[id]) in roles && Delegation.TableOf(roles)[id].id == Some(id)
  {
    if roles == [] {
    } else {
      var n := |roles| - 1;
      RoleTable(roles[..n]);
      assert forall i :: 0 <= i < n ==> roles[..n][i] == roles[i];
      assert forall r :: r in roles <==> r in roles[..n] || r == roles[n];
    }
  }

  lemma RoleFiled(roles: Roles, id: string, role: Role)
    requires Unique(roles)
    ensures (id in Delegation.TableOf(roles) && Delegation.TableOf(roles)[id] == role) <==>
            Some(role) in roles && role.id == Some(id)
  {
    RoleTable(roles);
    if Some(role) in roles && role.id == Some(id) {
      var i :| 0 <= i < |roles| && roles[i] == Some(role);
      var other := Delegation.TableOf(roles)[id];
      var j :| 0 <= j < |roles| && roles[j] == Some(other);
      OneRole(roles, i, j);
    }
  }

  lemma OneRole(roles: Roles, i: nat, j: nat)
    requires Unique(roles) && i < |roles| && j < |roles| && roles[i].Some? && roles[j].Some?
    requires roles[i].value.id == roles[j].value.id
    ensures i == j
  {
  }

  ghost predicate AllStaffed(roles: Roles, keys: set<string>) {
    forall i :: 0 <= i < |roles| ==>
      roles[i].Some? && roles[i].value.id.Some? && Delegation.Staffed(roles[i].value, keys)
  }

  lemma {:induction false} AcceptedIff(roles: Roles, keys: set<string>)
    ensures Delegation.EntriesAccepted(roles, keys) <==> AllStaffed(roles, keys) && Unique(roles)
  {
    if roles == [] {
    } else {
      var n := |roles| - 1;
      AcceptedIff(roles[..n], keys);
      AcceptedSnoc(roles, keys);
    }
  }

  lemma AcceptedSnoc(roles: Roles, keys: set<string>)
    requires roles != []
    ensures var n := |roles| - 1;
            AllStaffed(roles, keys) && Unique(roles) <==>
            AllStaffed(roles[..n], keys) && Unique(roles[..n]) && Delegation.EntryAccepted(roles[..n], roles[n], keys)
  {
    var n := |roles| - 1;
    var front := roles[..n];
    RoleTable(front);
    assert forall i :: 0 <= i < n ==> front[i] == roles[i];
    if AllStaffed(front, keys) && Unique(front) && Delegation.EntryAccepted(front, roles[n], keys) {
      forall i | 0 <= i < n ensures roles[i].value.id != roles[n].value.id {
        assert front[i].Some? && front[i].value.id.Some?;
      }
    }
  }

  lemma {:induction false} PathReaches(roles: Roles, path: seq<string>)
    requires Unique(roles) && LeadsBack(roles, path)
    ensures Delegation.Reaches(Delegation.TableOf(roles), path[0], |path| - 1)
    decreases |path|
  {
    if |path| > 1 {
      var rest := path[1..];
      assert forall i :: 0 <= i < |rest| ==> rest[i] == path[i + 1];
      assert LeadsBack(roles, rest);
      PathReaches(roles, rest);
      assert DelegatesTo(roles, path[0], path[1]);
      var role :| Some(role) in roles && role.id == Some(path[0]) && role.delegatedBy == Some(path[1]);
      RoleFiled(roles, path[0], role);
    }
  }

  lemma {:induction false} ReachesPath(roles: Roles, id: string, n: nat) returns (path: seq<string>)
    requires Unique(roles) && Delegation.Reaches(Delegation.TableOf(roles), id, n)
    ensures LeadsBack(roles, path) && path[0] == id
    decreases n
  {
    if id == "root" {
      path := [id];
    } else {
      var role := Delegation.TableOf(roles)[id];
      RoleFiled(roles, id, role);
      var rest := ReachesPath(roles, role.delegatedBy.value, n - 1);
      path := [id] + rest;
      assert forall i :: 0 <= i < |rest| ==> path[i + 1] == rest[i];
      assert DelegatesTo(roles, id, rest[0]);
    }
  }

  lemma RootedIff(roles: Roles, id: string)
    requires Unique(roles)
    ensures Delegation.Delegated(Delegation.TableOf(roles), id) <==> Rooted(roles, id)
  {
    if Delegation.Delegated(Delegation.TableOf(roles), id) {
      var n: nat :| Delegation.Reaches(Delegation.TableOf(roles), id, n);
      var path := ReachesPath(roles, id, n);
    }
    if path: seq<string> :| LeadsBack(roles, path) && path[0] == id {
      PathReaches(roles, path);
    }
  }

  lemma DelegationsIff(roles: Roles)
    requires Unique(roles) && forall i :: 0 <= i < |roles| ==> roles[i].Some? && roles[i].value.id.Some?
    ensures Delegation.DelegationsSound(Delegation.TableOf(roles)) <==>
            && (forall role :: Some(role) in roles ==> Rooted(roles, role.id.value))
            && (forall role :: Some(role) in roles && role.id == Some("root") ==> role.delegatedBy.None?)
  {
    var table := Delegation.TableOf(roles);
    forall role | Some(role) in roles ensures role.id.value in table && table[role.id.value] == role {
      RoleFiled(roles, role.id.value, role);
    }
    forall id ensures Delegation.Delegated(table, id) <==> Rooted(roles, id) {
      RootedIff(roles, id);
    }
    forall id | id in table ensures Some(table[id]) in roles && table[id].id == Some(id) {
      RoleFiled(roles, id, table[id]);
    }
  }

  lemma StaffIff(c: Crypto, keys: Entries, roles: Roles)
    requires TrustKeys.KeysSound(c, keys)
    ensures AllStaffed(roles, TrustKeys.TableOf(keys).Keys) <==>
            forall i :: 0 <= i < |roles| ==> roles[i].Some? && RoleStaffed(keys, roles[i].value)
  {
    forall i | 0 <= i < |roles| && roles[i].Some?
      ensures roles[i].value.id.Some? && Delegation.Staffed(roles[i].value, TrustKeys.TableOf(keys).Keys) <==>
              RoleStaffed(keys, roles[i].value)
    {
      StaffedIff(c, keys, roles[i].value);
    }
  }

  lemma RolesIff(c: Crypto, keys: Entries, roles: Roles)
    requires TrustKeys.KeysSound(c, keys)
    ensures Delegation.RolesSound(roles, TrustKeys.TableOf(keys).Keys) <==> RolesOrdered(keys, roles)
  {
    AcceptedIff(roles, TrustKeys.TableOf(keys).Keys);
    StaffIff(c, keys, roles);
    if AllStaffed(roles, TrustKeys.TableOf(keys).Keys) && Unique(roles) {
      DelegationsIff(roles);
    }
  }

  lemma BodySoundIff(c: Crypto, signed: RootSigned)
    ensures TrustTheorems.TablesSound(c, signed) <==> BodySound(c, signed)
  {
    KeysFiledIff(c, signed.keys);
    if TrustKeys.KeysSound(c, signed.keys) {
      SupersessionIff(c, signed.keys);
      RolesIff(c, signed.keys, signed.roles);
    }
  }

  // ----- signatures -----

  lemma RoleAtIff(c: Crypto, signed: RootSigned, name: Option<string>, role: Role)
    requires BodySound(c, signed)
    ensures RoleAt(signed, name) == Some(role) <==> name.Some? && Some(role) in signed.roles && role.id == name
  {
    if name.Some? {
      RoleFiled(signed.roles, name.value, role);
    }
  }

  /** The demand asks for this matter, of the keys of this root. */
  ghost predicate Asks(signed: RootSigned, d: SignatureEvidence.Demand, m: Matter) {
    && d.keys == TrustKeys.TableOf(signed.keys)
    && d.message == m.message && d.sequence == m.sequence && d.time == m.time
    && (d.context == SignatureEvidence.PackageContext <==> m.publisher.Some?)
    && (m.publisher.Some? ==> d.granted && d.publisher == m.publisher.value)
  }

  lemma SignsIff(c: Crypto, signed: RootSigned, d: SignatureEvidence.Demand, role: Role, m: Matter,
                 s: Option<Signature>)
    requires TrustKeys.KeysSound(c, signed.keys) && Asks(signed, d, m) && role.keyIds.Some?
    ensures SignatureEvidence.HoldsUp(c, d, role, s) <==> Signs(c, signed.keys, role, m, s)
  {
    if s.Some? && s.value.keyId.Some? {
      var id := s.value.keyId.value;
      if id in d.keys {
        EntryFiled(c, signed.keys, id, d.keys[id]);
        TrustKeys.FiledUnderFingerprint(c, signed.keys, id);
      }
      if e :| Some(e) in signed.keys && e.id == s.value.keyId && SignsAs(c, m, e, s.value) {
        EntryFiled(c, signed.keys, id, e);
      }
    }
  }

  lemma SignersAre(list: Signatures)
    ensures Signers(Some(list)) == SignatureEvidence.KeysOf(list)
  {
  }

  lemma MeetsIff(c: Crypto, signed: RootSigned, d: SignatureEvidence.Demand, role: Role, m: Matter,
                 list: Option<Signatures>)
    requires TrustKeys.KeysSound(c, signed.keys) && Asks(signed, d, m)
    requires d.role == Some(role) && role.keyIds.Some? && role.threshold.Some?
    ensures SignatureEvidence.Attested(c, d, list) <==>
            Meets(c, signed.keys, role, m, list) && d.required <= Signers(list)
  {
    if list.Some? {
      SignersAre(list.value);
      forall s | s in list.value
        ensures SignatureEvidence.HoldsUp(c, d, role, s) <==> Signs(c, signed.keys, role, m, s)
      {
        SignsIff(c, signed, d, role, m, s);
      }
      if forall s :: s in list.value ==> SignatureEvidence.HoldsUp(c, d, role, s) {
        PrintsAreSigners(c, signed, d, role, list.value);
      }
    }
  }

  lemma PrintsAreSigners(c: Crypto, signed: RootSigned, d: SignatureEvidence.Demand, role: Role, list: Signatures)
    requires TrustKeys.KeysSound(c, signed.keys) && d.keys == TrustKeys.TableOf(signed.keys)
    requires forall s :: s in list ==> SignatureEvidence.HoldsUp(c, d, role, s)
    ensures SignatureEvidence.Prints(c, d, SignatureEvidence.KeysOf(list)) == SignatureEvidence.KeysOf(list)
  {
    var ids := SignatureEvidence.KeysOf(list);
    forall id | id in ids ensures id in d.keys && TrustKeys.Fingerprint(c, d.keys[id]) == Some(id) {
      var s :| s in list && s.Some? && s.value.keyId.Some? && s.value.keyId.value == id;
      assert SignatureEvidence.HoldsUp(c, d, role, s);
      TrustKeys.FiledUnderFingerprint(c, signed.keys, id);
    }
    SignatureEvidence.PrintsOfFiled(c, d, ids);
  }

  lemma VouchedIff(
    c: Crypto, signed: RootSigned, d: SignatureEvidence.Demand, name: Option<string>, threshold: Option<Option<int>>,
    m: Matter, list: Option<Signatures>)
    requires BodySound(c, signed) && Asks(signed, d, m) && d.role == RoleAt(signed, name)
    ensures (&& SignatureEvidence.Attested(c, d, list)
             && (threshold.Some? ==> d.role.value.threshold == threshold.value)) <==>
            Vouched(c, signed, name, threshold, m, list) && d.required <= Signers(list)
  {
    KeysFiledIff(c, signed.keys);
    if d.role.Some? {
      var role := d.role.value;
      RoleAtIff(c, signed, name, role);
      var i :| 0 <= i < |signed.roles| && signed.roles[i] == Some(role);
      assert RoleStaffed(signed.keys, role);
      MeetsIff(c, signed, d, role, m, list);
    }
    if Vouched(c, signed, name, threshold, m, list) {
      var role :| Some(role) in signed.roles && name.Some? && role.id == name && Meets(c, signed.keys, role, m, list) &&
                  (threshold.Some? ==> role.threshold == threshold.value);
      RoleAtIff(c, signed, name, role);
    }
  }

  // ----- the roots -----

  lemma RootsMatchIff(c: Crypto, k: Codec, x: Input)
    ensures RootsRecorded(c, k, x) && AnchorMatches(c, k, x) <==> RootsMatch(c, k, x)
  {
  }

  lemma AdvancesIff(x: Input)
    ensures RotationValid(x) && !RootExpired(x) && !RootRolledBack(x) <==> Advances(x) && InTime(x)
  {
  }

  lemma RootDemandAsks(c: Crypto, signed: RootSigned, message: Bytes, sequence: int, x: Input)
    ensures Asks(signed, RootDemand(signed, message, Some(sequence), TimeOf(x.expectation)),
                 Matter(message, sequence, Time(x), None))
  {
  }

  lemma RootVouchedIff(c: Crypto, signed: RootSigned, message: Bytes, sequence: int, x: Input, list: Option<Signatures>)
    requires BodySound(c, signed)
    ensures SignatureEvidence.Attested(c, RootDemand(signed, message, Some(sequence), TimeOf(x.expectation)), list) <==>
            Vouched(c, signed, Some("root"), None, Matter(message, sequence, Time(x), None), list)
  {
    RootDemandAsks(c, signed, message, sequence, x);
    VouchedIff(c, signed, RootDemand(signed, message, Some(sequence), TimeOf(x.expectation)), Some("root"), None,
               Matter(message, sequence, Time(x), None), list);
  }

  lemma RootsVouchedIff(c: Crypto, k: Codec, x: Input)
    requires BodySound(c, x.trusted.signed) && BodySound(c, x.candidate.signed)
    requires RootsMatch(c, k, x) && Advances(x)
    ensures TrustTheorems.RootsAttested(c, k, x) <==> RootsVouched(c, k, x)
  {
    var prior, next := x.trusted.signed, x.candidate.signed;
    var raws := RootRaws(k, x);
    RootVouchedIff(c, prior, raws.0, prior.sequence.value, x, x.trusted.signatures);
    RootVouchedIff(c, prior, raws.1, next.sequence.value, x, x.transition.byOld);
    RootVouchedIff(c, next, raws.1, next.sequence.value, x, x.transition.byNew);
    RootVouchedIff(c, next, raws.1, next.sequence.value, x, x.candidate.signatures);
    SignersOf(x.transition.byOld);
    SignersOf(x.transition.byNew);
    SignersOf(x.candidate.signatures);
  }

  lemma SignersOf(list: Option<Signatures>)
    ensures list.Some? ==> Signers(list) == SignatureEvidence.KeysOf(list.value)
  {
    if list.Some? {
      SignersAre(list.value);
    }
  }

  lemma RootRulesIff(c: Crypto, k: Codec, x: Input)
    ensures TrustTheorems.RootTrusted(c, k, x) <==> RootRules(c, k, x)
  {
    BodySoundIff(c, x.trusted.signed);
    BodySoundIff(c, x.candidate.signed);
    RootsMatchIff(c, k, x);
    AdvancesIff(x);
    if BodySound(c, x.trusted.signed) && BodySound(c, x.candidate.signed) && RootsMatch(c, k, x) && Advances(x) {
      RootsVouchedIff(c, k, x);
    }
  }

  // ----- the index -----

  lemma IndexVouchedIff(c: Crypto, k: Codec, x: Input)
    requires BodySound(c, x.candidate.signed) && IndexMessage(k, x).Some?
    ensures SignatureEvidence.Attested(c, IndexDemand(k, x), x.index.signatures) && IndexThresholdAgreed(k, x) <==>
            Vouched(c, x.candidate.signed, x.expectation.indexRole, Some(x.expectation.indexThreshold),
                    Matter(IndexMessage(k, x).value, x.index.signed.sequence, Time(x), None), x.index.signatures)
  {
    var m := Matter(IndexMessage(k, x).value, x.index.signed.sequence, Time(x), None);
    VouchedIff(c, x.candidate.signed, IndexDemand(k, x), x.expectation.indexRole, Some(x.expectation.indexThreshold), m,
               x.index.signatures);
  }

  lemma IndexRulesIff(c: Crypto, k: Codec, x: Input)
    requires BodySound(c, x.candidate.signed)
    ensures TrustTheorems.IndexTrusted(c, k, x) <==> IndexRules(c, k, x)
  {
    if IndexMessage(k, x).Some? {
      IndexVouchedIff(c, k, x);
    }
  }

  // ----- the package -----

  lemma GrantedIff(x: Input)
    ensures ExactGrant(x) <==> Granted(x)
  {
    if ExactGrant(x) {
      var g :| g in x.candidate.signed.grants && g.Some? && GrantMatches(g.value, x.expectation);
      assert Some(g.value) in x.candidate.signed.grants;
    }
  }

  lemma AtLeastIff(s: string, t: string)
    ensures SemVer.CompareSemver(s, t) >= 0 <==>
            exists v, w :: SemVer.Denotes(s, v) && SemVer.Denotes(t, w) && !SemVer.Precedes(v, w)
  {
    SemVer.IsVersionIff(s);
    SemVer.IsVersionIff(t);
    if SemVer.ParseVersion(s).Some? && SemVer.ParseVersion(t).Some? {
      var v, w := SemVer.ParseVersion(s).value, SemVer.ParseVersion(t).value;
      SemVer.ComparesByPrecedence(v, w);
      SemVer.VersionAntisymmetric(v, w);
      assert SemVer.Denotes(s, v) && SemVer.Denotes(t, w);
    }
  }

  lemma NotBelowMinimumIff(x: Input)
    ensures !Downgraded(x) <==> NotBelowMinimum(x)
  {
    if x.package.version.Some? && x.package.version.value.Str? && x.expectation.minimumVersion.Some? {
      AtLeastIff(x.package.version.value.text, x.expectation.minimumVersion.value);
    }
  }

  lemma SignedFieldsIff(k: Codec, x: Input, q: PackageFields)
    ensures SignedFields(k, x) == Some(q) <==> SignsFields(k, x, q)
  {
    FieldForIff(k, x.package.version, q.version);
    FieldForIff(k, x.package.generation, q.indexGeneration);
    FieldForIff(k, x.package.sequence, q.indexSequence);
  }

  lemma FieldForIff(k: Codec, v: Option<Scalar>, field: FieldValue)
    ensures Encodable(k, v) == Some(field) <==> FieldFor(k, v, field)
  {
  }

  lemma PackageVouchedIff(c: Crypto, k: Codec, x: Input, raw: Bytes)
    requires BodySound(c, x.candidate.signed) && PackageBytes(k, x) == Some(raw) && ExactGrant(x)
    ensures (&& SignatureEvidence.Attested(c, PackageDemand(k, x), x.package.signatures)
             && PackageThresholdAgreed(k, x)) <==>
            && Vouched(c, x.candidate.signed, x.expectation.packageRole, Some(Some(x.expectation.packageThreshold)),
                       Matter(raw, x.index.signed.sequence, Time(x), Some(x.expectation.request.publisher)),
                       x.package.signatures)
            && x.expectation.requiredKeys <= Signers(x.package.signatures)
  {
    var m := Matter(raw, x.index.signed.sequence, Time(x), Some(x.expectation.request.publisher));
    VouchedIff(c, x.candidate.signed, PackageDemand(k, x), x.expectation.packageRole,
               Some(Some(x.expectation.packageThreshold)), m, x.package.signatures);
  }

  lemma FloorsIff(x: Input)
    ensures !BeforePublication(x) <==> FloorsReached(x)
  {
  }

  /** The part of the rules about the signed bytes, for the fields that are signed. */
  ghost predicate BytesRules(c: Crypto, k: Codec, x: Input, q: PackageFields) {
    && PackageTranscript(q).Some? && PackageMatches(c, x, PackageTranscript(q).value)
    && Vouched(c, x.candidate.signed, x.expectation.packageRole, Some(Some(x.expectation.packageThreshold)),
               Matter(PackageTranscript(q).value, x.index.signed.sequence, Time(x),
                      Some(x.expectation.request.publisher)),
               x.package.signatures)
    && x.expectation.requiredKeys <= Signers(x.package.signatures)
  }

  lemma BytesRulesIff(c: Crypto, k: Codec, x: Input, q: PackageFields)
    requires BodySound(c, x.candidate.signed) && ExactGrant(x) && SignedFields(k, x) == Some(q)
    ensures BytesRules(c, k, x, q) <==>
            && PackageBytes(k, x).Some? && PackageRecorded(c, k, x)
            && SignatureEvidence.Attested(c, PackageDemand(k, x), x.package.signatures) && PackageThresholdAgreed(k, x)
  {
    if PackageTranscript(q).Some? {
      PackageVouchedIff(c, k, x, PackageTranscript(q).value);
    }
  }

  lemma PackageRulesMean(c: Crypto, k: Codec, x: Input)
    ensures PackageRules(c, k, x) <==>
            && NotBelowMinimum(x) && Granted(x) && FloorsReached(x)
            && SignedFields(k, x).Some? && BytesRules(c, k, x, SignedFields(k, x).value)
  {
    forall q ensures SignedFields(k, x) == Some(q) <==> SignsFields(k, x, q) {
      SignedFieldsIff(k, x, q);
    }
    if SignedFields(k, x).Some? {
      assert SignsFields(k, x, SignedFields(k, x).value);
    }
  }

  lemma PackageRulesIff(c: Crypto, k: Codec, x: Input)
    requires BodySound(c, x.candidate.signed) && IndexAuthenticated(c, k, x)
    ensures TrustTheorems.PackageTrusted(c, k, x) <==> PackageRules(c, k, x)
  {
    GrantedIff(x);
    NotBelowMinimumIff(x);
    FloorsIff(x);
    PackageRulesMean(c, k, x);
    if ExactGrant(x) && SignedFields(k, x).Some? {
      BytesRulesIff(c, k, x, SignedFields(k, x).value);
    }
  }

  /** A verdict is trusted exactly when the rules hold and no other check reported anything. */
  lemma TrustedIffRules(c: Crypto, k: Codec, x: Input, others: set<Reason>)
    ensures Decide(TrustTheorems.AllFailures(c, k, x, others)).Trusted? <==>
            RootRules(c, k, x) && IndexRules(c, k, x) && PackageRules(c, k, x) && others == {}
  {
    TrustTheorems.TrustedIff(c, k, x, others);
    RootRulesIff(c, k, x);
    if RootRules(c, k, x) {
      IndexRulesIff(c, k, x);
      TrustTheorems.IndexTrustedIff(c, k, x);
      if TrustTheorems.IndexTrusted(c, k, x) {
        PackageRulesIff(c, k, x);
      }
    }
  }
}
