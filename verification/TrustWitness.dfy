/**
 Trusted verdicts exist: whoever holds one usable key can sign a root, an index and a package
 that the verifier trusts, so the theorems about trusted inputs are not vacuous.
 */
module TrustWitness {
  import opened Basics
  import opened Transcripts
  import opened TrustTypes
  import opened TrustKeys
  import opened SignatureEvidence
  import opened Freshness
  import opened TrustVerdict
  import opened TrustTheorems
  import Delegation
  import KeySupersession
  import SemVer

  // ----- one key that holds every role -----

  /** The key's material and identifier, how it signs, and the version it publishes. */
  datatype Holder = Holder(
    c: Crypto, k: Codec, material: Material, id: string, sign: Bytes -> string, version: string, body: PackageBody)

  const REQUEST := Request(Some("publisher"), Some("namespace"), "name", "registry", "source")

  const GRANT := Grant(REQUEST.publisher, REQUEST.namespace, ["name"], ["registry"], ["source"], Some(Delegation.ROOT))

  const INDEX := IndexSigned(0, 2, Some(10), Some("snapshot"))

  function Entry(h: Holder): KeyEntry {
    KeyEntry(Some(h.id), Some(h.material),
      KeySupersession.Key(Some([]), KeySupersession.Active, KeySupersession.NoRevocation, Some(0), REQUEST.publisher),
      None)
  }

  function RootRole(h: Holder): Role {
    Role(Some(Delegation.ROOT), Some([h.id]), Some(1), None)
  }

  function Root(h: Holder, version: int): RootSigned {
    RootSigned(
      Some(version), Some(version), Some(0), Some(10), [Some(Entry(h))], [Some(RootRole(h))], [Some(GRANT)])
  }

  function Fields(h: Holder): PackageFields
    requires h.k.utf8(h.version).Some?
  {
    PackageFields(h.body, Text(h.k.utf8(h.version).value), Number(0), Number(0), Number(1))
  }

  /** The key is valid and filed under its fingerprint, and its signatures hold. */
  ghost predicate Signs(h: Holder) {
    && h.c.validKey(h.material.publicKey) && h.c.fingerprint(h.material) == Some(h.id)
    && forall message: Bytes :: h.c.signatureFault(h.material.publicKey, message, Some(h.sign(message))).None?
  }

  ghost predicate Encodes(h: Holder) {
    && RootBytes(h.k, Root(h, 1)).Some? && RootBytes(h.k, Root(h, 2)).Some? && IndexBytes(h.k, INDEX).Some?
    && h.k.utf8(h.version).Some? && PackageTranscript(Fields(h)).Some?
  }

  // ----- what the holder publishes -----

  function Signed(h: Holder, message: Bytes): Option<Signatures> {
    Some([Some(Signature(Some(h.id), Some(h.sign(message))))])
  }

  function Wrap<T>(h: Holder, signed: T, raw: Bytes): Envelope<T> {
    Envelope(signed, Some(raw), Some(h.c.digest(raw)), Signed(h, raw))
  }

  ghost function Published(h: Holder): Package
    requires Encodes(h)
  {
    var raw := PackageTranscript(Fields(h)).value;
    Package(Some(h.body), Some(Str(h.version)), Some(Integer(0)), Some(Integer(0)), PACKAGE_FIELDS,
      Some(raw), Some(h.c.digest(raw)), Signed(h, raw))
  }

  ghost function Expected(h: Holder): Expectation
    requires Encodes(h)
  {
    var prior, index := RootBytes(h.k, Root(h, 1)).value, IndexBytes(h.k, INDEX).value;
    Expectation(
      Some(1), Some(Anchor(Some(1), Some(1), h.c.digest(prior))), None, None, None, None,
      TrustedState(None, None, Some([Some(Snapshot(0, 2, INDEX.snapshotId, h.c.digest(index)))])),
      Some(Delegation.ROOT), Some(1), Some(Delegation.ROOT), 1, {h.id}, Some(h.version), REQUEST)
  }

  ghost function InputOf(h: Holder): Input
    requires Encodes(h)
  {
    var prior, next := RootBytes(h.k, Root(h, 1)).value, RootBytes(h.k, Root(h, 2)).value;
    Input(
      Wrap(h, Root(h, 1), prior), Wrap(h, Root(h, 2), next),
      Transition(Some(1), Some(2), Signed(h, next), Signed(h, next)),
      Wrap(h, INDEX, IndexBytes(h.k, INDEX).value), Published(h), Expected(h))
  }

  // ----- every stage is passed -----

  lemma Tables(h: Holder, version: int)
    ensures TableOf(Root(h, version).keys) == map[h.id := Entry(h)]
    ensures Delegation.TableOf(Root(h, version).roles) == map[Delegation.ROOT := RootRole(h)]
    ensures RoleAt(Root(h, version), Some(Delegation.ROOT)) == Some(RootRole(h))
  {
    assert [Some(Entry(h))][..0] == [] && [Some(RootRole(h))][..0] == [];
  }

  lemma RolesPass(h: Holder, roles: seq<Option<Role>>)
    requires roles == [Some(RootRole(h))]
    ensures Delegation.RolesSound(roles, {h.id})
  {
    Tables(h, 1);
    assert roles[..0] == [];
    assert Delegation.EntriesAccepted(roles[..0], {h.id});
    assert Delegation.Reaches(Delegation.TableOf(roles), Delegation.ROOT, 0);
  }

  lemma RulesPass(h: Holder, keys: KeySupersession.Keys)
    requires keys == map[h.id := Entry(h).record]
    ensures KeySupersession.LocalRules(keys)
  {
    assert KeySupersession.TextItems([]) == [];
  }

  lemma RootTablesSound(h: Holder, version: int)
    requires Signs(h)
    ensures TablesSound(h.c, Root(h, version))
  {
    Tables(h, version);
    var table := TableOf(Root(h, version).keys);
    assert table.Keys == {h.id} && Records(table) == map[h.id := Entry(h).record];
    RolesPass(h, Root(h, version).roles);
    RulesPass(h, Records(table));
  }

  /** The role, the keys and the time of every demand on this input. */
  function DemandOf(
    h: Holder, context: Context, message: Bytes, sequence: int, required: set<string>, publisher: Option<string>)
    : Demand
  {
    Demand(context, Some(RootRole(h)), map[h.id := Entry(h)], message, sequence, 1, required, publisher, true)
  }

  /** One signature of the only key meets a threshold of one. */
  lemma OneSignatureAttests(h: Holder, d: Demand)
    requires Signs(h) && d == DemandOf(h, d.context, d.message, d.sequence, d.required, d.publisher)
    requires d.sequence >= 0 && d.required <= {h.id}
    requires d.context == PackageContext ==> d.publisher == REQUEST.publisher
    ensures Attested(h.c, d, Signed(h, d.message))
    ensures KeysOf(Signed(h, d.message).value) == {h.id}
  {
    var list := Signed(h, d.message).value;
    assert list[0] in list;
    assert KeysOf(list) == {h.id};
    PrintsOfFiled(h.c, d, {h.id});
    assert HoldsUp(h.c, d, RootRole(h), list[0]);
  }

  lemma RootDemands(h: Holder)
    requires Encodes(h)
    ensures var prior, next := RootBytes(h.k, Root(h, 1)).value, RootBytes(h.k, Root(h, 2)).value;
            && OldSelf(h.k, InputOf(h)) == DemandOf(h, RootContext, prior, 1, {}, None)
            && OldOverNew(h.k, InputOf(h)) == DemandOf(h, RootContext, next, 2, {}, None)
            && NewOverNew(h.k, InputOf(h)) == DemandOf(h, RootContext, next, 2, {}, None)
  {
    Tables(h, 1);
    Tables(h, 2);
  }

  lemma RootsPass(h: Holder)
    requires Signs(h) && Encodes(h)
    ensures RootsAttested(h.c, h.k, InputOf(h))
  {
    var x := InputOf(h);
    RootDemands(h);
    OneSignatureAttests(h, OldSelf(h.k, x));
    OneSignatureAttests(h, NewOverNew(h.k, x));
  }

  lemma RotationPasses(h: Holder)
    requires Encodes(h)
    ensures RootsRecorded(h.c, h.k, InputOf(h)) && AnchorMatches(h.c, h.k, InputOf(h))
    ensures RotationValid(InputOf(h)) && !RootExpired(InputOf(h)) && !RootRolledBack(InputOf(h))
  {
  }

  lemma RootPasses(h: Holder)
    requires Signs(h) && Encodes(h)
    ensures RootTrusted(h.c, h.k, InputOf(h))
  {
    RootTablesSound(h, 1);
    RootTablesSound(h, 2);
    RotationPasses(h);
    RootsPass(h);
  }

  lemma IndexDemandIs(h: Holder)
    requires Encodes(h)
    ensures IndexDemand(h.k, InputOf(h)) ==
            DemandOf(h, IndexContext, IndexBytes(h.k, INDEX).value, 2, {}, None)
  {
    Tables(h, 2);
  }

  lemma SeenIsFresh(s: Snapshot)
    ensures IndexFresh(TrustedState(None, None, Some([Some(s)])), s)
  {
    var t := TrustedState(None, None, Some([Some(s)]));
    assert SeenOf(t)[0] == Some(s) && Some(s) in SeenOf(t) && Anchored(t, s, s);
  }

  lemma IndexAttested(h: Holder)
    requires Signs(h) && Encodes(h)
    ensures Attested(h.c, IndexDemand(h.k, InputOf(h)), InputOf(h).index.signatures)
    ensures IndexThresholdAgreed(h.k, InputOf(h))
  {
    IndexDemandIs(h);
    OneSignatureAttests(h, IndexDemand(h.k, InputOf(h)));
  }

  lemma IndexCurrent(h: Holder)
    requires Encodes(h)
    ensures IndexRecorded(h.c, h.k, InputOf(h)) && !IndexExpired(InputOf(h))
    ensures IndexFresh(InputOf(h).expectation.freshness, SnapshotOf(h.c, h.k, InputOf(h)))
  {
    SeenIsFresh(SnapshotOf(h.c, h.k, InputOf(h)));
  }

  lemma IndexPasses(h: Holder)
    requires Signs(h) && Encodes(h)
    ensures IndexTrusted(h.c, h.k, InputOf(h))
  {
    IndexAttested(h);
    IndexCurrent(h);
  }

  lemma GrantPasses(h: Holder)
    requires Encodes(h)
    ensures ExactGrant(InputOf(h))
  {
    assert Some(GRANT) in InputOf(h).candidate.signed.grants;
    assert GrantMatches(GRANT, InputOf(h).expectation);
  }

  lemma PackageDemandIs(h: Holder)
    requires Encodes(h)
    ensures SignedFields(h.k, InputOf(h)) == Some(Fields(h))
    ensures PackageDemand(h.k, InputOf(h)) ==
            DemandOf(h, PackageContext, PackageTranscript(Fields(h)).value, 2, {h.id}, REQUEST.publisher)
  {
    Tables(h, 2);
    GrantPasses(h);
  }

  lemma PackageAttested(h: Holder)
    requires Signs(h) && Encodes(h)
    ensures Attested(h.c, PackageDemand(h.k, InputOf(h)), InputOf(h).package.signatures)
    ensures PackageThresholdAgreed(h.k, InputOf(h))
  {
    PackageDemandIs(h);
    OneSignatureAttests(h, PackageDemand(h.k, InputOf(h)));
  }

  lemma PackageCurrent(h: Holder)
    requires Encodes(h)
    ensures PackageBytes(h.k, InputOf(h)).Some? && PackageRecorded(h.c, h.k, InputOf(h))
    ensures !BeforePublication(InputOf(h))
  {
    PackageDemandIs(h);
  }

  lemma VersionPasses(h: Holder)
    requires Encodes(h) && SemVer.ParseVersion(h.version).Some?
    ensures !Downgraded(InputOf(h))
  {
    SemVer.SemverOrder(h.version, h.version, h.version);
  }

  lemma PackagePasses(h: Holder)
    requires Signs(h) && Encodes(h) && SemVer.ParseVersion(h.version).Some?
    ensures PackageTrusted(h.c, h.k, InputOf(h))
  {
    GrantPasses(h);
    PackageAttested(h);
    PackageCurrent(h);
    VersionPasses(h);
  }

  /** Whoever holds a usable key has an input that is trusted. */
  lemma HolderIsTrusted(h: Holder)
    requires Signs(h) && Encodes(h) && SemVer.ParseVersion(h.version).Some?
    ensures Decide(AllFailures(h.c, h.k, InputOf(h), {})).Trusted?
    ensures PackageTranscript(Fields(h)) == Some(PackageDemand(h.k, InputOf(h)).message)
  {
    RootPasses(h);
    IndexPasses(h);
    PackagePasses(h);
    PackageDemandIs(h);
    TrustedIff(h.c, h.k, InputOf(h), {});
  }

  // ----- a holder -----

  const VERSION := SemVer.Version(1, 0, 0, [])

  const EMPTY := Text([])

  const EMPTY_BODY := PackageBody(
    EMPTY, EMPTY, EMPTY, EMPTY, [], EMPTY, [], EMPTY, EMPTY, EMPTY, EMPTY, EMPTY, EMPTY, [], EMPTY, EMPTY, EMPTY, [])

  /** Every key is valid and every signature holds; everything encodes to nothing. */
  ghost function Sample(): Holder {
    Holder(
      Crypto(_ => true, _ => Some("key"), _ => "digest", (_, _, _) => None),
      Codec(_ => Some([]), _ => Some([]), _ => Some([])),
      Material(None, []), "key", _ => "signature", SemVer.RenderVersion(VERSION), EMPTY_BODY)
  }

  lemma {:induction false} LimitAbove(width: nat)
    ensures Limit(width) > width
    ensures width >= 2 ==> Limit(width) >= 0x1_0000
  {
    if width == 0 {
    } else {
      LimitAbove(width - 1);
    }
  }

  predicate Short(v: FieldValue) {
    v in {Text([]), Raw([]), Number(0), Number(1)}
  }

  lemma ShortFieldEncodes(tag: Bytes, v: FieldValue)
    requires |tag| < 256 && Short(v)
    ensures EncodeField(tag, v).Some?
  {
    LimitAbove(2);
    LimitAbove(8);
  }

  lemma ShortTranscript(domain: Bytes, labels: seq<Bytes>, values: seq<FieldValue>)
    requires |domain| < 256 && |labels| == |values| < 256
    requires forall i :: 0 <= i < |labels| ==> |labels[i]| < 256 && Short(values[i])
    ensures FieldsTranscript(domain, labels, values).Some?
  {
    LimitAbove(2);
    forall i | 0 <= i < |labels| ensures EncodeField(labels[i], values[i]).Some? {
      ShortFieldEncodes(labels[i], values[i]);
    }
    EncodeFieldsIff(labels, values);
  }

  lemma EmptyMetadata(domain: Bytes)
    requires |domain| < 256
    ensures MetadataTranscript(domain, []).Some?
  {
    LimitAbove(2);
    LimitAbove(8);
  }

  lemma SampleEncodes()
    ensures Encodes(Sample())
  {
    EmptyMetadata(Ascii(ROOT_DOMAIN));
    EmptyMetadata(Ascii(INDEX_DOMAIN));
    SampleFields(Fields(Sample()));
  }

  lemma SampleFields(p: PackageFields)
    requires p == PackageFields(EMPTY_BODY, EMPTY, Number(0), Number(0), Number(1))
    ensures PackageTranscript(p).Some?
  {
    assert forall i :: 0 <= i < |PACKAGE_FIELDS| ==> |PACKAGE_FIELDS[i]| < 256;
    ShortTranscript(Ascii(PACKAGE_DOMAIN), Labels(PACKAGE_FIELDS), FieldValues(p));
  }

  /** A trusted input, with a package that its signed bytes encode. */
  lemma TrustedExists() returns (c: Crypto, k: Codec, x: Input, q: PackageFields)
    ensures Decide(AllFailures(c, k, x, {})).Trusted?
    ensures PackageTranscript(q) == Some(PackageDemand(k, x).message)
  {
    var h := Sample();
    SampleEncodes();
    SemVer.RenderedParses(VERSION);
    HolderIsTrusted(h);
    c, k, x, q := h.c, h.k, InputOf(h), Fields(h);
  }
}
