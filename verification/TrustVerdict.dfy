/**
 The package trust verdict: root rotation, index authentication and freshness, package
 authentication, and one decision over all reported reasons.
 */
module TrustVerdict {
  import opened Basics
  import opened Transcripts
  import opened TrustTypes
  import opened TrustKeys
  import opened SignatureEvidence
  import opened Freshness
  import Delegation
  import SemVer
  import KeySupersession

  // ----- inputs -----

  datatype Grant = Grant(
    publisher: Option<string>, namespace: Option<string>, names: seq<string>, registries: seq<string>,
    sources: seq<string>, role: Option<string>)

  /** `None` fields are missing or of the wrong type; times are seconds. */
  datatype RootSigned = RootSigned(
    version: Option<int>, sequence: Option<int>, issuedAt: Option<int>, expiresAt: Option<int>,
    keys: seq<Option<KeyEntry>>, roles: seq<Option<Role>>, grants: seq<Option<Grant>>)

  datatype IndexSigned = IndexSigned(generation: int, sequence: int, expiresAt: Option<int>, snapshotId: Option<string>)

  /** A signed body with the transcript bytes and digest recorded beside it. */
  datatype Envelope<T> = Envelope(
    signed: T, bytes: Option<Bytes>, digest: Option<string>, signatures: Option<Signatures>)

  datatype Transition = Transition(
    from: Option<int>, to: Option<int>, byOld: Option<Signatures>, byNew: Option<Signatures>)

  /** What a transcript can encode of a JSON value. */
  datatype Scalar = Integer(n: int) | Str(text: string)

  /**
   `body` is `None` when something the transcript needs from it is missing or cannot be encoded;
   a version or floor is `None` when it is missing or neither a text nor an integer.
   */
  datatype Package = Package(
    body: Option<PackageBody>, version: Option<Scalar>, generation: Option<Scalar>, sequence: Option<Scalar>,
    fieldOrder: seq<string>, bytes: Option<Bytes>, digest: Option<string>, signatures: Option<Signatures>)

  datatype Anchor = Anchor(version: Option<int>, sequence: Option<int>, digest: string)

  datatype Request = Request(
    publisher: Option<string>, namespace: Option<string>, name: string, registry: string, source: string)

  datatype Expectation = Expectation(
    time: Option<int>, anchor: Option<Anchor>, highestRootVersion: Option<int>, highestRootSequence: Option<int>,
    lockRootVersion: Option<int>, lockRootSequence: Option<int>, freshness: TrustedState,
    indexRole: Option<string>, indexThreshold: Option<int>, packageRole: Option<string>, packageThreshold: int,
    requiredKeys: set<string>, minimumVersion: Option<string>, request: Request)

  datatype Input = Input(
    trusted: Envelope<RootSigned>, candidate: Envelope<RootSigned>, transition: Transition,
    index: Envelope<IndexSigned>, package: Package, expectation: Expectation)

  /** Canonical encodings of the signed bodies, and UTF-8 of normalized text. */
  datatype Codec = Codec(
    root: RootSigned -> Option<Bytes>, index: IndexSigned -> Option<Bytes>, utf8: string -> Option<Bytes>)

  /** Without a readable verification time everything counts as expired. */
  const LATEST_TIME: int := 253402300799

  function TimeOf(x: Expectation): int {
    if x.time.Some? then x.time.value else LATEST_TIME
  }

  // ----- transcripts -----

  function RootBytes(k: Codec, signed: RootSigned): Option<Bytes> {
    var payload := k.root(signed);
    if payload.None? then None else RootTranscript(payload.value)
  }

  /** If either root has no transcript, both are treated as empty. */
  function RootRaws(k: Codec, x: Input): (Bytes, Bytes) {
    var prior, next := RootBytes(k, x.trusted.signed), RootBytes(k, x.candidate.signed);
    if prior.None? || next.None? then ([], []) else (prior.value, next.value)
  }

  predicate RootsEncode(k: Codec, x: Input) {
    RootBytes(k, x.trusted.signed).Some? && RootBytes(k, x.candidate.signed).Some?
  }

  function IndexBytes(k: Codec, signed: IndexSigned): Option<Bytes> {
    var payload := k.index(signed);
    if payload.None? then None else IndexTranscript(payload.value)
  }

  function IndexRaw(k: Codec, x: Input): Bytes {
    var raw := IndexBytes(k, x.index.signed);
    if raw.None? then [] else raw.value
  }

  /** The kind of a field follows the JSON value; text must be normalized. */
  function Encodable(k: Codec, v: Option<Scalar>): Option<FieldValue> {
    match v
    case None => None
    case Some(Integer(n)) => Some(Number(n))
    case Some(Str(text)) => if k.utf8(text).None? then None else Some(Text(k.utf8(text).value))
  }

  /** What the package keys sign: the package's own version and floors, and the threshold asked for. */
  function SignedFields(k: Codec, x: Input): Option<PackageFields> {
    var p := x.package;
    var version, generation, sequence :=
      Encodable(k, p.version), Encodable(k, p.generation), Encodable(k, p.sequence);
    if p.body.None? || version.None? || generation.None? || sequence.None? then None
    else Some(PackageFields(
      p.body.value, version.value, generation.value, sequence.value, Number(x.expectation.packageThreshold)))
  }

  function PackageBytes(k: Codec, x: Input): Option<Bytes> {
    var fields := SignedFields(k, x);
    if fields.None? then None else PackageTranscript(fields.value)
  }

  function PackageRaw(k: Codec, x: Input): Bytes {
    var raw := PackageBytes(k, x);
    if raw.None? then [] else raw.value
  }

  predicate Recorded(c: Crypto, bytes: Option<Bytes>, digest: Option<string>, raw: Bytes) {
    bytes == Some(raw) && digest == Some(c.digest(raw))
  }

  // ----- demands on signatures -----

  function RoleAt(signed: RootSigned, id: Option<string>): Option<Role> {
    var roles := Delegation.TableOf(signed.roles);
    if id.Some? && id.value in roles then Some(roles[id.value]) else None
  }

  function IntOr(x: Option<int>, default: int): int {
    if x.Some? then x.value else default
  }

  /** The root role of `signed` asked to sign `message` at `sequence`. */
  function RootDemand(signed: RootSigned, message: Bytes, sequence: Option<int>, time: int): Demand {
    Demand(RootContext, RoleAt(signed, Some(Delegation.ROOT)), TableOf(signed.keys),
           message, IntOr(sequence, 0), time, {}, None, true)
  }

  function OldSelf(k: Codec, x: Input): Demand {
    RootDemand(x.trusted.signed, RootRaws(k, x).0, x.trusted.signed.sequence, TimeOf(x.expectation))
  }

  function OldOverNew(k: Codec, x: Input): Demand {
    RootDemand(x.trusted.signed, RootRaws(k, x).1, x.candidate.signed.sequence, TimeOf(x.expectation))
  }

  function NewOverNew(k: Codec, x: Input): Demand {
    RootDemand(x.candidate.signed, RootRaws(k, x).1, x.candidate.signed.sequence, TimeOf(x.expectation))
  }

  function IndexDemand(k: Codec, x: Input): Demand {
    Demand(IndexContext, RoleAt(x.candidate.signed, x.expectation.indexRole), TableOf(x.candidate.signed.keys),
           IndexRaw(k, x), x.index.signed.sequence, TimeOf(x.expectation), {}, None, true)
  }

  function PackageDemand(k: Codec, x: Input): Demand {
    Demand(PackageContext, RoleAt(x.candidate.signed, x.expectation.packageRole), TableOf(x.candidate.signed.keys),
           PackageRaw(k, x), x.index.signed.sequence, TimeOf(x.expectation), x.expectation.requiredKeys,
           x.expectation.request.publisher, ExactGrant(x))
  }

  predicate GrantMatches(g: Grant, e: Expectation) {
    && g.publisher == e.request.publisher && g.namespace == e.request.namespace
    && e.request.name in g.names && e.request.registry in g.registries && e.request.source in g.sources
    && g.role == e.packageRole
  }

  predicate ExactGrant(x: Input) {
    exists g :: g in x.candidate.signed.grants && g.Some? && GrantMatches(g.value, x.expectation)
  }

  // ----- root -----

  function When(condition: bool, reason: Reason): set<Reason> {
    if condition then {reason} else {}
  }

  ghost function TableFailures(c: Crypto, signed: RootSigned): set<Reason> {
    KeyFailures(c, signed.keys) +
    When(!KeySupersession.LocalRules(Records(TableOf(signed.keys))), KeySupersessionInvalid) +
    When(!Delegation.RolesSound(signed.roles, TableOf(signed.keys).Keys), DelegationInvalid)
  }

  /** The next version, a later sequence, the declared transition, and issued while the old root was valid. */
  predicate RotationValid(x: Input) {
    var prior, next := x.trusted.signed, x.candidate.signed;
    && prior.version.Some? && prior.sequence.Some? && next.version.Some? && next.sequence.Some?
    && next.version.value == prior.version.value + 1
    && next.sequence.value > prior.sequence.value
    && x.transition.from == prior.version && x.transition.to == next.version
    && prior.expiresAt.Some? && next.issuedAt.Some? && next.expiresAt.Some?
    && next.issuedAt.value < prior.expiresAt.value
    && next.issuedAt.value < next.expiresAt.value
  }

  predicate RootExpired(x: Input) {
    var prior, next := x.trusted.signed, x.candidate.signed;
    || (prior.expiresAt.Some? && next.issuedAt.Some? && prior.expiresAt.value <= next.issuedAt.value)
    || (next.expiresAt.Some? && next.expiresAt.value <= TimeOf(x.expectation))
  }

  predicate Below(value: Option<int>, mark: Option<int>) {
    value.Some? && mark.Some? && value.value < mark.value
  }

  predicate RootRolledBack(x: Input) {
    var e, next := x.expectation, x.candidate.signed;
    || Below(next.version, e.highestRootVersion) || Below(next.version, e.lockRootVersion)
    || Below(next.sequence, e.highestRootSequence) || Below(next.sequence, e.lockRootSequence)
  }

  predicate AnchorMatches(c: Crypto, k: Codec, x: Input) {
    x.expectation.anchor ==
      Some(Anchor(x.trusted.signed.version, x.trusted.signed.sequence, c.digest(RootRaws(k, x).0)))
  }

  predicate RootsRecorded(c: Crypto, k: Codec, x: Input) {
    && RootsEncode(k, x)
    && Recorded(c, x.trusted.bytes, x.trusted.digest, RootRaws(k, x).0)
    && Recorded(c, x.candidate.bytes, x.candidate.digest, RootRaws(k, x).1)
  }

  function SignerFailures(c: Crypto, k: Codec, x: Input): set<Reason> {
    var byNew := SignersOf(c, NewOverNew(k, x), x.transition.byNew);
    When(byNew != SignersOf(c, NewOverNew(k, x), x.candidate.signatures) ||
         SignersOf(c, OldOverNew(k, x), x.transition.byOld) == {} || byNew == {},
         RootThresholdNotMet)
  }

  function RootEvidenceFailures(c: Crypto, k: Codec, x: Input): set<Reason> {
    EvidenceFailures(c, OldSelf(k, x), x.trusted.signatures) +
    EvidenceFailures(c, OldOverNew(k, x), x.transition.byOld) +
    EvidenceFailures(c, NewOverNew(k, x), x.transition.byNew) +
    EvidenceFailures(c, NewOverNew(k, x), x.candidate.signatures) +
    SignerFailures(c, k, x)
  }

  ghost function RootFailures(c: Crypto, k: Codec, x: Input): set<Reason> {
    TableFailures(c, x.trusted.signed) + TableFailures(c, x.candidate.signed) +
    When(!RootsRecorded(c, k, x), RootDigestMismatch) +
    When(!AnchorMatches(c, k, x), RootBootstrapMismatch) +
    When(!RotationValid(x), RootRotationInvalid) +
    When(RootExpired(x), MetadataExpired) +
    RootEvidenceFailures(c, k, x) +
    When(RootRolledBack(x), RootRollback)
  }

  // ----- index -----

  predicate IndexRecorded(c: Crypto, k: Codec, x: Input) {
    Recorded(c, x.index.bytes, x.index.digest, IndexRaw(k, x))
  }

  predicate IndexThresholdAgreed(k: Codec, x: Input) {
    var role := IndexDemand(k, x).role;
    role.Some? && role.value.threshold == x.expectation.indexThreshold
  }

  predicate IndexAuthenticated(c: Crypto, k: Codec, x: Input) {
    && IndexRecorded(c, k, x)
    && IndexThresholdAgreed(k, x)
    && CountOf(c, IndexDemand(k, x), x.index.signatures) >= RoleThreshold(IndexDemand(k, x).role.value)
  }

  function SnapshotOf(c: Crypto, k: Codec, x: Input): Snapshot {
    Snapshot(x.index.signed.generation, x.index.signed.sequence, x.index.signed.snapshotId, c.digest(IndexRaw(k, x)))
  }

  predicate IndexExpired(x: Input) {
    x.index.signed.expiresAt.None? || x.index.signed.expiresAt.value <= TimeOf(x.expectation)
  }

  /** Freshness is only judged for an authenticated index. */
  function FreshnessStage(c: Crypto, k: Codec, x: Input): set<Reason> {
    if IndexAuthenticated(c, k, x) then FreshnessFailures(x.expectation.freshness, SnapshotOf(c, k, x)) else {}
  }

  function IndexFailures(c: Crypto, k: Codec, x: Input): set<Reason> {
    When(IndexBytes(k, x.index.signed).None? || !IndexRecorded(c, k, x), IndexDigestMismatch) +
    When(IndexExpired(x), MetadataExpired) +
    EvidenceFailures(c, IndexDemand(k, x), x.index.signatures) +
    When(IndexDemand(k, x).role.Some? && !IndexThresholdAgreed(k, x), IndexThresholdNotMet) +
    FreshnessStage(c, k, x)
  }

  // ----- package -----

  predicate PackageRecorded(c: Crypto, k: Codec, x: Input) {
    x.package.fieldOrder == PACKAGE_FIELDS && Recorded(c, x.package.bytes, x.package.digest, PackageRaw(k, x))
  }

  predicate PackageThresholdAgreed(k: Codec, x: Input) {
    var role := PackageDemand(k, x).role;
    role.Some? && role.value.threshold == Some(x.expectation.packageThreshold)
  }

  predicate PackageAuthenticated(c: Crypto, k: Codec, x: Input) {
    && PackageRecorded(c, k, x)
    && PackageThresholdAgreed(k, x)
    && CountOf(c, PackageDemand(k, x), x.package.signatures) >= x.expectation.packageThreshold
    && x.expectation.requiredKeys <= SignersOf(c, PackageDemand(k, x), x.package.signatures)
  }

  /** Both publication floors are integers; only then are they compared with the index. */
  predicate IntegerFloors(p: Package) {
    p.generation.Some? && p.generation.value.Integer? && p.sequence.Some? && p.sequence.value.Integer?
  }

  /** The index is older than the position the package says it was published at. */
  predicate BeforePublication(x: Input) {
    && IntegerFloors(x.package)
    && (|| x.package.generation.value.n > x.index.signed.generation
        || x.package.sequence.value.n > x.index.signed.sequence)
  }

  /** Below the minimum, or one of the two versions is not a text. */
  predicate Downgraded(x: Input) {
    || x.package.version.None? || !x.package.version.value.Str? || x.expectation.minimumVersion.None?
    || SemVer.CompareSemver(x.package.version.value.text, x.expectation.minimumVersion.value) < 0
  }

  function PackageFailures(c: Crypto, k: Codec, x: Input): set<Reason> {
    When(Downgraded(x), VersionDowngrade) +
    When(!ExactGrant(x), NamespaceGrantMismatch) +
    When(PackageBytes(k, x).None? || !PackageRecorded(c, k, x), SignatureInvalid) +
    EvidenceFailures(c, PackageDemand(k, x), x.package.signatures) +
    When(PackageDemand(k, x).role.Some? && !PackageThresholdAgreed(k, x), PackageThresholdNotMet) +
    When(IndexAuthenticated(c, k, x) && PackageAuthenticated(c, k, x) && BeforePublication(x), MetadataReplayed)
  }

  // ----- decision -----

  datatype Verdict = Trusted | Rejected(primary: Reason, reasons: seq<Reason>)

  function Select(precedence: seq<Reason>, failures: set<Reason>): seq<Reason> {
    if precedence == [] then []
    else (if precedence[0] in failures then [precedence[0]] else []) + Select(precedence[1..], failures)
  }

  function Decide(failures: set<Reason>): Verdict {
    var ordered := Select(PRECEDENCE, failures);
    if ordered == [] then Trusted else Rejected(ordered[0], ordered)
  }
}
