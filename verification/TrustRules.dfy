/**
 When a package is to be trusted, read off the documents alone: sound keys and roles, a chain
 of roots from the anchor, dates, high marks, thresholds of usable signers, an exact grant.
 */
module TrustRules {
  import opened Basics
  import opened Transcripts
  import opened TrustTypes
  import opened TrustVerdict
  import Freshness
  import KeySupersession
  import SemVer
  import SignatureEvidence
  import TrustKeys
  import TrustTheorems

  type Entries = seq<Option<KeyEntry>>

  // ----- keys -----

  /** Every entry is a valid key filed under its own fingerprint; no identifier and no public key repeats. */
  ghost predicate KeysFiled(c: Crypto, keys: Entries) {
    && (forall i :: 0 <= i < |keys| ==> KeyFiled(c, keys[i]))
    && forall i, j :: 0 <= i < j < |keys| ==> KeysDiffer(keys[i].value, keys[j].value)
  }

  ghost predicate KeyFiled(c: Crypto, entry: Option<KeyEntry>) {
    && entry.Some? && entry.value.id.Some? && entry.value.material.Some?
    && c.validKey(entry.value.material.value.publicKey)
    && c.fingerprint(entry.value.material.value) == entry.value.id
  }

  ghost predicate KeysDiffer(e: KeyEntry, f: KeyEntry)
    requires e.material.Some? && f.material.Some?
  {
    var p, q := e.material.value.publicKey, f.material.value.publicKey;
    e.id != f.id && (p.Some? && q.Some? ==> p != q)
  }

  /** A revoked key says since when, not before it was valid; any other key has no revocation. */
  ghost predicate RevocationFits(r: KeySupersession.Key) {
    if r.status == KeySupersession.Revoked then
      && r.validFrom.Some? && r.revocation.Effective? && r.revocation.sequence.Some?
      && r.validFrom.value <= r.revocation.sequence.value
    else r.revocation == KeySupersession.NoRevocation
  }

  /** An older, retired or revoked key of the same publisher. */
  ghost predicate Precedes(f: KeyEntry, e: KeyEntry) {
    && f.id != e.id && f.record.publisher == e.record.publisher
    && (f.record.status == KeySupersession.Retired || f.record.status == KeySupersession.Revoked)
    && f.record.validFrom.Some? && e.record.validFrom.Some? && f.record.validFrom.value < e.record.validFrom.value
  }

  ghost predicate HasPredecessor(keys: Entries, e: KeyEntry, p: string) {
    exists f :: Some(f) in keys && f.id == Some(p) && Precedes(f, e)
  }

  ghost predicate SupersedesProperly(keys: Entries, e: KeyEntry) {
    var list := e.record.supersedes;
    && list.Some?
    && (forall i, j :: 0 <= i < j < |list.value| ==> list.value[i] != list.value[j])
    && (|list.value| >= 1 ==> e.record.status == KeySupersession.Active)
    && RevocationFits(e.record)
    && forall p :: KeySupersession.KeyId(p) in list.value ==> HasPredecessor(keys, e, p)
  }

  ghost predicate AllSupersedeProperly(keys: Entries) {
    forall e :: Some(e) in keys ==> SupersedesProperly(keys, e)
  }

  // ----- roles -----

  type Roles = seq<Option<Role>>

  /** Distinct keys of the root, at least as many as the threshold. */
  ghost predicate RoleStaffed(keys: Entries, role: Role) {
    && role.id.Some? && role.keyIds.Some? && role.threshold.Some?
    && role.threshold.value <= |role.keyIds.value|
    && (forall i, j :: 0 <= i < j < |role.keyIds.value| ==> role.keyIds.value[i] != role.keyIds.value[j])
    && forall i :: 0 <= i < |role.keyIds.value| ==> ListsKey(keys, role.keyIds.value[i])
  }

  ghost predicate ListsKey(keys: Entries, id: string) {
    exists e :: Some(e) in keys && e.id == Some(id)
  }

  ghost predicate DelegatesTo(roles: Roles, from: string, to: string) {
    exists role :: Some(role) in roles && role.id == Some(from) && role.delegatedBy == Some(to)
  }

  /** A path of delegations from a role back to the root role. */
  ghost predicate LeadsBack(roles: Roles, path: seq<string>) {
    && |path| >= 1 && path[|path| - 1] == "root"
    && forall i, j :: 0 <= i && j == i + 1 && j < |path| ==> DelegatesTo(roles, path[i], path[j])
  }

  ghost predicate Rooted(roles: Roles, id: string) {
    exists path: seq<string> :: LeadsBack(roles, path) && path[0] == id
  }

  ghost predicate RolesOrdered(keys: Entries, roles: Roles) {
    && (forall i :: 0 <= i < |roles| ==> roles[i].Some? && RoleStaffed(keys, roles[i].value))
    && (forall i, j :: 0 <= i < j < |roles| ==> roles[i].value.id != roles[j].value.id)
    && (forall role :: Some(role) in roles ==> Rooted(roles, role.id.value))
    && (forall role :: Some(role) in roles && role.id == Some("root") ==> role.delegatedBy.None?)
  }

  ghost predicate BodySound(c: Crypto, signed: RootSigned) {
    KeysFiled(c, signed.keys) && AllSupersedeProperly(signed.keys) && RolesOrdered(signed.keys, signed.roles)
  }

  // ----- signatures -----

  /** What a list of signatures is to cover, and when; packages also ask for a publisher. */
  datatype Matter = Matter(message: Bytes, sequence: int, time: int, publisher: Option<Option<string>>)

  /** A key of the root that the role names, usable at that time, signed the message. */
  ghost predicate Signs(c: Crypto, keys: Entries, role: Role, m: Matter, s: Option<Signature>) {
    && s.Some? && s.value.keyId.Some? && role.keyIds.Some? && s.value.keyId.value in role.keyIds.value
    && exists e :: Some(e) in keys && e.id == s.value.keyId && SignsAs(c, m, e, s.value)
  }

  ghost predicate SignsAs(c: Crypto, m: Matter, e: KeyEntry, s: Signature) {
    && TrustKeys.Usable(e, m.sequence, m.time) && e.material.Some?
    && c.signatureFault(e.material.value.publicKey, m.message, s.value).None?
    && (m.publisher.Some? ==> e.record.publisher == m.publisher.value)
  }

  /** The keys a list names. */
  ghost function Signers(list: Option<Signatures>): set<string> {
    if list.None? then {}
    else set s | s in list.value && s.Some? && s.value.keyId.Some? :: s.value.keyId.value
  }

  /** Every signature in the list holds, and as many different keys signed as the role asks for. */
  ghost predicate Meets(c: Crypto, keys: Entries, role: Role, m: Matter, list: Option<Signatures>) {
    && list.Some? && role.threshold.Some? && |Signers(list)| >= role.threshold.value
    && forall s :: s in list.value ==> Signs(c, keys, role, m, s)
  }

  /** The role of that name in the root, and the threshold it must have if one is given. */
  ghost predicate Vouched(
    c: Crypto, signed: RootSigned, name: Option<string>, threshold: Option<Option<int>>, m: Matter,
    list: Option<Signatures>)
  {
    exists role ::
      && Some(role) in signed.roles && name.Some? && role.id == name
      && (threshold.Some? ==> role.threshold == threshold.value)
      && Meets(c, signed.keys, role, m, list)
  }

  // ----- the roots -----

  /** Without a readable time the last second of the year 9999 stands for it. */
  function Time(x: Input): int {
    if x.expectation.time.Some? then x.expectation.time.value else 253402300799
  }

  ghost predicate AtLeast(value: Option<int>, mark: Option<int>) {
    value.Some? && (mark.Some? ==> mark.value <= value.value)
  }

  function RootMessage(k: Codec, signed: RootSigned): Option<Bytes> {
    if k.root(signed).None? then None else RootTranscript(k.root(signed).value)
  }

  /** The next version and a later sequence, as announced, above every high mark. */
  ghost predicate Advances(x: Input) {
    var prior, next, e := x.trusted.signed, x.candidate.signed, x.expectation;
    && prior.version.Some? && next.version == Some(prior.version.value + 1)
    && prior.sequence.Some? && next.sequence.Some? && prior.sequence.value < next.sequence.value
    && x.transition.from == prior.version && x.transition.to == next.version
    && AtLeast(next.version, e.highestRootVersion) && AtLeast(next.version, e.lockRootVersion)
    && AtLeast(next.sequence, e.highestRootSequence) && AtLeast(next.sequence, e.lockRootSequence)
  }

  /** Issued while the old root was valid, and not expired yet. */
  ghost predicate InTime(x: Input) {
    var prior, next := x.trusted.signed, x.candidate.signed;
    && prior.expiresAt.Some? && next.issuedAt.Some? && next.expiresAt.Some?
    && next.issuedAt.value < prior.expiresAt.value && next.issuedAt.value < next.expiresAt.value
    && Time(x) < next.expiresAt.value
  }

  /** The recorded bytes and digests are those of the roots, and the anchor names the old one. */
  ghost predicate RootsMatch(c: Crypto, k: Codec, x: Input) {
    var prior, next := RootMessage(k, x.trusted.signed), RootMessage(k, x.candidate.signed);
    && prior.Some? && next.Some?
    && x.trusted.bytes == prior && x.trusted.digest == Some(c.digest(prior.value))
    && x.candidate.bytes == next && x.candidate.digest == Some(c.digest(next.value))
    && x.expectation.anchor ==
         Some(Anchor(x.trusted.signed.version, x.trusted.signed.sequence, c.digest(prior.value)))
  }

  /** The old root vouches for itself and the new one, and the new one for itself twice, by the same keys. */
  ghost predicate RootsVouched(c: Crypto, k: Codec, x: Input)
    requires RootsMatch(c, k, x) && Advances(x)
  {
    var prior, next := x.trusted.signed, x.candidate.signed;
    var old_ := Matter(RootMessage(k, prior).value, prior.sequence.value, Time(x), None);
    var new_ := Matter(RootMessage(k, next).value, next.sequence.value, Time(x), None);
    && Vouched(c, prior, Some("root"), None, old_, x.trusted.signatures)
    && Vouched(c, prior, Some("root"), None, new_, x.transition.byOld)
    && Vouched(c, next, Some("root"), None, new_, x.transition.byNew)
    && Vouched(c, next, Some("root"), None, new_, x.candidate.signatures)
    && Signers(x.transition.byOld) != {} && Signers(x.transition.byNew) != {}
    && Signers(x.transition.byNew) == Signers(x.candidate.signatures)
  }

  ghost predicate RootRules(c: Crypto, k: Codec, x: Input) {
    && BodySound(c, x.trusted.signed) && BodySound(c, x.candidate.signed)
    && RootsMatch(c, k, x) && Advances(x) && InTime(x) && RootsVouched(c, k, x)
  }

  // ----- index and package -----

  function IndexMessage(k: Codec, x: Input): Option<Bytes> {
    if k.index(x.index.signed).None? then None else IndexTranscript(k.index(x.index.signed).value)
  }

  ghost predicate IndexRules(c: Crypto, k: Codec, x: Input) {
    var raw, signed, e := IndexMessage(k, x), x.index.signed, x.expectation;
    && raw.Some? && x.index.bytes == raw && x.index.digest == Some(c.digest(raw.value))
    && signed.expiresAt.Some? && Time(x) < signed.expiresAt.value
    && Vouched(c, x.candidate.signed, e.indexRole, Some(e.indexThreshold),
               Matter(raw.value, signed.sequence, Time(x), None), x.index.signatures)
    && TrustTheorems.IndexFresh(
         e.freshness, Freshness.Snapshot(signed.generation, signed.sequence, signed.snapshotId, c.digest(raw.value)))
  }

  /** The field for a JSON value: integers are numbers, texts their normalized UTF-8. */
  ghost predicate FieldFor(k: Codec, v: Option<Scalar>, field: FieldValue) {
    && v.Some?
    && match v.value
       case Integer(n) => field == Number(n)
       case Str(text) => k.utf8(text).Some? && field == Text(k.utf8(text).value)
  }

  /** The fields the package keys sign. */
  ghost predicate SignsFields(k: Codec, x: Input, q: PackageFields) {
    && x.package.body == Some(q.body) && FieldFor(k, x.package.version, q.version)
    && FieldFor(k, x.package.generation, q.indexGeneration) && FieldFor(k, x.package.sequence, q.indexSequence)
    && q.packageThreshold == Number(x.expectation.packageThreshold)
  }

  ghost predicate NotBelowMinimum(x: Input) {
    && x.package.version.Some? && x.package.version.value.Str? && x.expectation.minimumVersion.Some?
    && exists v, w :: SemVer.Denotes(x.package.version.value.text, v) &&
                      SemVer.Denotes(x.expectation.minimumVersion.value, w) && !SemVer.Precedes(v, w)
  }

  /** A grant for exactly what is requested, to the role that signs. */
  ghost predicate Granted(x: Input) {
    var e := x.expectation;
    exists g :: Some(g) in x.candidate.signed.grants &&
                g.publisher == e.request.publisher && g.namespace == e.request.namespace && g.role == e.packageRole &&
                e.request.name in g.names && e.request.registry in g.registries && e.request.source in g.sources
  }

  /** Floors given as integers have been reached by the index. */
  ghost predicate FloorsReached(x: Input) {
    var generation, sequence := x.package.generation, x.package.sequence;
    generation.Some? && sequence.Some? && generation.value.Integer? && sequence.value.Integer? ==>
      generation.value.n <= x.index.signed.generation && sequence.value.n <= x.index.signed.sequence
  }

  ghost predicate PackageMatches(c: Crypto, x: Input, raw: Bytes) {
    x.package.bytes == Some(raw) && x.package.digest == Some(c.digest(raw)) && x.package.fieldOrder == PACKAGE_FIELDS
  }

  ghost predicate PackageRules(c: Crypto, k: Codec, x: Input) {
    var e := x.expectation;
    && NotBelowMinimum(x) && Granted(x) && FloorsReached(x)
    && exists q :: SignsFields(k, x, q) && PackageTranscript(q).Some? &&
         PackageMatches(c, x, PackageTranscript(q).value) &&
         Vouched(c, x.candidate.signed, e.packageRole, Some(Some(e.packageThreshold)),
                 Matter(PackageTranscript(q).value, x.index.signed.sequence, Time(x), Some(e.request.publisher)),
                 x.package.signatures) &&
         e.requiredKeys <= Signers(x.package.signatures)
  }
}
