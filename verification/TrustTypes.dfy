/**
 The vocabulary of package trust: reason codes and their precedence, keys, roles, signatures
 and the cryptographic functions, which stay abstract.
 */
module TrustTypes {
  import opened Basics
  import KeySupersession
  import opened Transcripts

  datatype Reason =
    | OfflineInputMissing | RootBootstrapMismatch | MetadataExpired | RootRotationInvalid | RootDigestMismatch
    | RootSignatureInvalid | RootThresholdNotMet | RootRollback | RollbackDetected | MetadataReplayed
    | VersionDowngrade | IndexDigestMismatch | IndexSignatureInvalid | IndexThresholdNotMet | DuplicateRelease
    | DuplicateTargetPath | DuplicatePackageCoordinate | TargetPathInvalid | ArchiveDigestMismatch
    | ManifestDigestMismatch | ProvenanceStatementMismatch | ProvenancePredicateMismatch | ProvenanceSubjectMismatch
    | DelegationInvalid | NamespaceGrantMismatch | DuplicateKey | KeyMalformed | KeyIdMismatch
    | KeySupersessionInvalid | KeyUnknown | KeyRevoked | KeyRetired | KeyNotYetValid | SignerPublisherMismatch
    | PublisherMismatch | NamespaceMismatch | PackageNameMismatch | PackageVersionMismatch | SourceMismatch
    | TargetPathMismatch | SignatureMalformed | SignatureInvalid | PackageThresholdNotMet | OfflineLockMismatch

  const PRECEDENCE: seq<Reason> := [
    OfflineInputMissing, RootBootstrapMismatch, MetadataExpired, RootRotationInvalid, RootDigestMismatch,
    RootSignatureInvalid, RootThresholdNotMet, RootRollback, RollbackDetected, MetadataReplayed,
    VersionDowngrade, IndexDigestMismatch, IndexSignatureInvalid, IndexThresholdNotMet, DuplicateRelease,
    DuplicateTargetPath, DuplicatePackageCoordinate, TargetPathInvalid, ArchiveDigestMismatch,
    ManifestDigestMismatch, ProvenanceStatementMismatch, ProvenancePredicateMismatch, ProvenanceSubjectMismatch,
    DelegationInvalid, NamespaceGrantMismatch, DuplicateKey, KeyMalformed, KeyIdMismatch,
    KeySupersessionInvalid, KeyUnknown, KeyRevoked, KeyRetired, KeyNotYetValid, SignerPublisherMismatch,
    PublisherMismatch, NamespaceMismatch, PackageNameMismatch, PackageVersionMismatch, SourceMismatch,
    TargetPathMismatch, SignatureMalformed, SignatureInvalid, PackageThresholdNotMet, OfflineLockMismatch]

  /** A key's material as the contract identifies it: its public key and its canonical bytes. */
  datatype Material = Material(publicKey: Option<string>, canonical: Bytes)

  /** `None` fields are missing or of the wrong type. */
  datatype KeyEntry = KeyEntry(
    id: Option<string>, material: Option<Material>, record: KeySupersession.Key, revokedAt: Option<int>)

  datatype Role = Role(
    id: Option<string>, keyIds: Option<seq<string>>, threshold: Option<int>, delegatedBy: Option<string>)

  datatype Signature = Signature(keyId: Option<string>, value: Option<string>)

  /** A list of signatures; an entry `None` is not an object. */
  type Signatures = seq<Option<Signature>>

  /** Key validity, key fingerprints, digests and signature checks. */
  datatype Crypto = Crypto(
    validKey: Option<string> -> bool,
    fingerprint: Material -> Option<string>,
    digest: Bytes -> string,
    signatureFault: (Option<string>, Bytes, Option<string>) -> Option<Reason>)
}
