/**
 Threshold signatures: which signatures of a list count for a role, and when a list meets
 the role's threshold. Thresholds are counted over distinct key fingerprints.
 */
module SignatureEvidence {
  import opened Basics
  import opened Transcripts
  import opened TrustTypes
  import opened TrustKeys

  datatype Context = RootContext | IndexContext | PackageContext

  /** What a list of signatures is checked against. `required` and the publisher only matter for packages. */
  datatype Demand = Demand(
    context: Context, role: Option<Role>, keys: KeyTable, message: Bytes, sequence: int, time: int,
    required: set<string>, publisher: Option<string>, granted: bool)

  function ThresholdReason(context: Context): Reason {
    match context
    case RootContext => RootThresholdNotMet
    case IndexContext => IndexThresholdNotMet
    case PackageContext => PackageThresholdNotMet
  }

  /** Packages report the precise defect; root and index fold all defects into one code. */
  function ReportAs(context: Context, precise: Reason): Reason {
    match context
    case RootContext => RootSignatureInvalid
    case IndexContext => IndexSignatureInvalid
    case PackageContext => precise
  }

  function RoleKeys(role: Role): seq<string> {
    if role.keyIds.Some? then role.keyIds.value else []
  }

  function RoleThreshold(role: Role): int {
    if role.threshold.Some? then role.threshold.value else 1
  }

  /** The first reason a signature does not count, if any. */
  function Defect(c: Crypto, d: Demand, role: Role, s: Option<Signature>): Option<Reason> {
    if s.None? then Some(SignatureMalformed)
    else if s.value.keyId.None? || s.value.keyId.value !in d.keys then Some(KeyUnknown)
    else
      var id := s.value.keyId.value;
      var key := d.keys[id];
      if id !in RoleKeys(role) then Some(DelegationInvalid)
      else if d.context == PackageContext && (!d.granted || key.record.publisher != d.publisher)
        then Some(SignerPublisherMismatch)
      else
        var ineligible := Ineligible(key, d.sequence, d.time);
        if ineligible.Some? then ineligible
        else
          var fault := c.signatureFault(PublicKey(key), d.message, s.value.value);
          if fault.Some? then fault
          else if Fingerprint(c, key).None? then Some(KeyMalformed)
          else None
  }

  predicate Counts(c: Crypto, d: Demand, role: Role, s: Option<Signature>) {
    Defect(c, d, role, s).None?
  }

  function Signers(c: Crypto, d: Demand, role: Role, list: Signatures): set<string> {
    set s | s in list && Counts(c, d, role, s) :: s.value.keyId.value
  }

  function Fingerprints(c: Crypto, d: Demand, role: Role, list: Signatures): set<string> {
    set s | s in list && Counts(c, d, role, s) :: Fingerprint(c, d.keys[s.value.keyId.value]).value
  }

  function Defects(c: Crypto, d: Demand, role: Role, list: Signatures): set<Reason> {
    set s | s in list && !Counts(c, d, role, s) :: ReportAs(d.context, Defect(c, d, role, s).value)
  }

  function EvidenceFailures(c: Crypto, d: Demand, list: Option<Signatures>): set<Reason> {
    if list.None? || d.role.None? then {ThresholdReason(d.context)}
    else
      var role := d.role.value;
      Defects(c, d, role, list.value) +
      (if |Fingerprints(c, d, role, list.value)| < RoleThreshold(role) then {ThresholdReason(d.context)} else {}) +
      (if d.required <= Signers(c, d, role, list.value) then {} else {ThresholdReason(d.context)})
  }

  function SignersOf(c: Crypto, d: Demand, list: Option<Signatures>): set<string> {
    if list.None? || d.role.None? then {} else Signers(c, d, d.role.value, list.value)
  }

  function CountOf(c: Crypto, d: Demand, list: Option<Signatures>): nat {
    if list.None? || d.role.None? then 0 else |Fingerprints(c, d, d.role.value, list.value)|
  }

  // ----- what a list without failures shows -----

  /** The signature is the demand's message signed by a key of the role that was entitled to sign. */
  ghost predicate HoldsUp(c: Crypto, d: Demand, role: Role, s: Option<Signature>) {
    && s.Some? && s.value.keyId.Some?
    && var id := s.value.keyId.value;
       && id in d.keys && id in RoleKeys(role)
       && Usable(d.keys[id], d.sequence, d.time)
       && (d.context == PackageContext ==> d.granted && d.keys[id].record.publisher == d.publisher)
       && c.signatureFault(PublicKey(d.keys[id]), d.message, s.value.value).None?
       && Fingerprint(c, d.keys[id]).Some?
  }

  lemma CountsIff(c: Crypto, d: Demand, role: Role, s: Option<Signature>)
    ensures Counts(c, d, role, s) <==> HoldsUp(c, d, role, s)
  {
    if s.Some? && s.value.keyId.Some? && s.value.keyId.value in d.keys {
      EligibleIff(d.keys[s.value.keyId.value], d.sequence, d.time);
    }
  }

  ghost predicate SignedBy(c: Crypto, d: Demand, role: Role, list: Signatures, id: string) {
    exists s :: s in list && HoldsUp(c, d, role, s) && s.value.keyId.value == id
  }

  /** The keys named in a list. */
  ghost function KeysOf(list: Signatures): set<string> {
    set s | s in list && s.Some? && s.value.keyId.Some? :: s.value.keyId.value
  }

  /** The distinct fingerprints of some keys. */
  ghost function Prints(c: Crypto, d: Demand, ids: set<string>): set<string> {
    set id | id in ids && id in d.keys && Fingerprint(c, d.keys[id]).Some? :: Fingerprint(c, d.keys[id]).value
  }

  /** Every signature holds up, enough different fingerprints signed, and every required key did. */
  ghost predicate Attested(c: Crypto, d: Demand, list: Option<Signatures>) {
    && list.Some? && d.role.Some?
    && (forall s :: s in list.value ==> HoldsUp(c, d, d.role.value, s))
    && |Prints(c, d, KeysOf(list.value))| >= RoleThreshold(d.role.value)
    && d.required <= KeysOf(list.value)
  }

  lemma FingerprintsArePrints(c: Crypto, d: Demand, role: Role, list: Signatures)
    ensures Fingerprints(c, d, role, list) == Prints(c, d, Signers(c, d, role, list))
  {
    var signers := Signers(c, d, role, list);
    forall x ensures x in Fingerprints(c, d, role, list) <==> x in Prints(c, d, signers) {
      if x in Fingerprints(c, d, role, list) {
        var s :| s in list && Counts(c, d, role, s) && Fingerprint(c, d.keys[s.value.keyId.value]).value == x;
        assert s.value.keyId.value in signers;
      }
      if x in Prints(c, d, signers) {
        var id :| id in signers && id in d.keys && Fingerprint(c, d.keys[id]).Some? &&
          Fingerprint(c, d.keys[id]).value == x;
        var s :| s in list && Counts(c, d, role, s) && s.value.keyId.value == id;
      }
    }
  }

  lemma AllCount(c: Crypto, d: Demand, role: Role, list: Signatures)
    ensures Defects(c, d, role, list) == {} <==> forall s :: s in list ==> HoldsUp(c, d, role, s)
    ensures Defects(c, d, role, list) == {} ==> Signers(c, d, role, list) == KeysOf(list)
  {
    forall s | s in list ensures Counts(c, d, role, s) <==> HoldsUp(c, d, role, s) {
      CountsIff(c, d, role, s);
    }
    forall s | s in list && !Counts(c, d, role, s) ensures Defects(c, d, role, list) != {} {
      assert ReportAs(d.context, Defect(c, d, role, s).value) in Defects(c, d, role, list);
    }
  }

  /** No failure is reported exactly for an attested list; its signers and their count are then those of the list. */
  lemma NoFailuresMeansAttested(c: Crypto, d: Demand, list: Option<Signatures>)
    ensures EvidenceFailures(c, d, list) == {} <==> Attested(c, d, list)
    ensures Attested(c, d, list) ==>
              && SignersOf(c, d, list) == KeysOf(list.value)
              && CountOf(c, d, list) == |Prints(c, d, KeysOf(list.value))|
  {
    if list.Some? && d.role.Some? {
      AllCount(c, d, d.role.value, list.value);
      FingerprintsArePrints(c, d, d.role.value, list.value);
    }
  }

  /** In a table filed under fingerprints, different keys have different fingerprints. */
  lemma PrintsOfFiled(c: Crypto, d: Demand, ids: set<string>)
    requires forall id :: id in ids ==> id in d.keys && Fingerprint(c, d.keys[id]) == Some(id)
    ensures Prints(c, d, ids) == ids
  {
    forall id | id in ids ensures id in Prints(c, d, ids) {
      assert Fingerprint(c, d.keys[id]).value == id;
    }
  }

  /** Neither the order nor the repetition of signatures matters. */
  lemma OnlyTheSetMatters(c: Crypto, d: Demand, a: Signatures, b: Signatures)
    requires forall s :: s in a <==> s in b
    ensures EvidenceFailures(c, d, Some(a)) == EvidenceFailures(c, d, Some(b))
    ensures SignersOf(c, d, Some(a)) == SignersOf(c, d, Some(b))
    ensures CountOf(c, d, Some(a)) == CountOf(c, d, Some(b))
  {
    if d.role.Some? {
      var role := d.role.value;
      assert Signers(c, d, role, a) == Signers(c, d, role, b);
      assert Fingerprints(c, d, role, a) == Fingerprints(c, d, role, b);
      assert Defects(c, d, role, a) == Defects(c, d, role, b);
    }
  }
}
