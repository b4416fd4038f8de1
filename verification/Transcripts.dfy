/**
 Signing transcripts of the package trust contract: length-framed byte strings under a
 domain label. A parser recovers every part, so what a signature covers is unambiguous.
 */
module Transcripts {
  import opened Basics

  type Bytes = seq<Byte>

  // ----- fixed-width big-endian integers -----

  function Limit(width: nat): nat {
    if width == 0 then 1 else 256 * Limit(width - 1)
  }

  function BigEndian(n: nat, width: nat): (r: Bytes)
    ensures |r| == width
  {
    if width == 0 then [] else BigEndian(n / 256, width - 1) + [n % 256]
  }

  function FromBigEndian(b: Bytes): nat {
    if b == [] then 0 else 256 * FromBigEndian(b[..|b| - 1]) + b[|b| - 1]
  }

  lemma {:induction false} BigEndianRoundTrip(n: nat, width: nat)
    requires n < Limit(width)
    ensures FromBigEndian(BigEndian(n, width)) == n
  {
    if width == 0 {
    } else {
      BigEndianRoundTrip(n / 256, width - 1);
      var b := BigEndian(n, width);
      assert b[..width - 1] == BigEndian(n / 256, width - 1);
    }
  }

  lemma {:induction false} FromBigEndianRoundTrip(b: Bytes)
    ensures FromBigEndian(b) < Limit(|b|)
    ensures BigEndian(FromBigEndian(b), |b|) == b
  {
    if b == [] {
    } else {
      FromBigEndianRoundTrip(b[..|b| - 1]);
    }
  }

  // ----- frames -----

  /** A length of `width` bytes, then the payload; packing fails when the length does not fit. */
  function Frame(width: nat, payload: Bytes): Option<Bytes> {
    if |payload| < Limit(width) then Some(BigEndian(|payload|, width) + payload) else None
  }

  function ParseFrame(width: nat, b: Bytes): Option<(Bytes, Bytes)> {
    if |b| < width then None
    else
      var n := FromBigEndian(b[..width]);
      if |b| < width + n then None else Some((b[width..width + n], b[width + n..]))
  }

  lemma FrameParses(width: nat, payload: Bytes, rest: Bytes)
    requires Frame(width, payload).Some?
    ensures ParseFrame(width, Frame(width, payload).value + rest) == Some((payload, rest))
  {
    var b := Frame(width, payload).value + rest;
    BigEndianRoundTrip(|payload|, width);
    assert b[..width] == BigEndian(|payload|, width);
    assert b[width..width + |payload|] == payload;
    assert b[width + |payload|..] == rest;
  }

  lemma ParsedFrameEncodes(width: nat, b: Bytes)
    requires ParseFrame(width, b).Some?
    ensures var (payload, rest) := ParseFrame(width, b).value;
            Frame(width, payload).Some? && Frame(width, payload).value + rest == b
  {
    FromBigEndianRoundTrip(b[..width]);
    var n := FromBigEndian(b[..width]);
    assert b[..width] + b[width..width + n] + b[width + n..] == b;
  }

  // ----- metadata transcripts -----

  /** The bytes of an ASCII label. */
  function Ascii(s: string): (r: Bytes)
    ensures |r| == |s|
  {
    seq(|s|, i requires 0 <= i < |s| => AsciiByte(s[i]))
  }

  function AsciiByte(c: char): Byte {
    c as int % 128
  }

  const ROOT_DOMAIN := "AXIOM-TRUST-ROOT-V1"
  const INDEX_DOMAIN := "AXIOM-REGISTRY-INDEX-V2"
  const PACKAGE_DOMAIN := "AXIOM-PACKAGE-TRUST-V1"

  function MetadataTranscript(domain: Bytes, payload: Bytes): Option<Bytes> {
    var d, p := Frame(2, domain), Frame(8, payload);
    if d.None? || p.None? then None else Some(d.value + p.value)
  }

  function RootTranscript(payload: Bytes): Option<Bytes> {
    MetadataTranscript(Ascii(ROOT_DOMAIN), payload)
  }

  function IndexTranscript(payload: Bytes): Option<Bytes> {
    MetadataTranscript(Ascii(INDEX_DOMAIN), payload)
  }

  function ParseMetadata(b: Bytes): Option<(Bytes, Bytes)> {
    var d := ParseFrame(2, b);
    if d.None? then None
    else
      var p := ParseFrame(8, d.value.1);
      if p.None? || p.value.1 != [] then None else Some((d.value.0, p.value.0))
  }

  /** Parsing and building metadata transcripts are inverse to each other. */
  lemma MetadataRoundTrip(domain: Bytes, payload: Bytes, b: Bytes)
    ensures MetadataTranscript(domain, payload) == Some(b) <==> ParseMetadata(b) == Some((domain, payload))
  {
    if MetadataTranscript(domain, payload) == Some(b) {
      var p := Frame(8, payload).value;
      FrameParses(2, domain, p);
      FrameParses(8, payload, []);
      assert p + [] == p;
    }
    if ParseMetadata(b) == Some((domain, payload)) {
      ParsedFrameEncodes(2, b);
      var rest := ParseFrame(2, b).value.1;
      ParsedFrameEncodes(8, rest);
      assert Frame(8, payload).value + [] == Frame(8, payload).value;
    }
  }

  /** Root and index transcripts carry their payload under their own domain. */
  lemma SignedMetadata(payload: Bytes, b: Bytes)
    ensures RootTranscript(payload) == Some(b) <==> ParseMetadata(b) == Some((Ascii("AXIOM-TRUST-ROOT-V1"), payload))
    ensures IndexTranscript(payload) == Some(b) <==>
            ParseMetadata(b) == Some((Ascii("AXIOM-REGISTRY-INDEX-V2"), payload))
  {
    MetadataRoundTrip(Ascii(ROOT_DOMAIN), payload, b);
    MetadataRoundTrip(Ascii(INDEX_DOMAIN), payload, b);
  }

  // ----- package transcripts -----

  datatype FieldValue = Number(n: int) | Text(utf8: Bytes) | Raw(bytes: Bytes)

  function EncodeValue(v: FieldValue): Option<Bytes> {
    match v
    case Number(n) => if 0 <= n < Limit(8) then Some(BigEndian(n, 8)) else None
    case Text(utf8) => Some(utf8)
    case Raw(bytes) => Some(bytes)
  }

  /** A labelled field: the label framed with two bytes, the value with eight. */
  function EncodeField(tag: Bytes, v: FieldValue): Option<Bytes> {
    var e := EncodeValue(v);
    if e.None? then None
    else
      var l, f := Frame(2, tag), Frame(8, e.value);
      if l.None? || f.None? then None else Some(l.value + f.value)
  }

  function EncodeFields(labels: seq<Bytes>, values: seq<FieldValue>): Option<Bytes>
    requires |labels| == |values|
  {
    if labels == [] then Some([])
    else
      var first, rest := EncodeField(labels[0], values[0]), EncodeFields(labels[1..], values[1..]);
      if first.None? || rest.None? then None else Some(first.value + rest.value)
  }

  function ParseField(b: Bytes): Option<((Bytes, Bytes), Bytes)> {
    var l := ParseFrame(2, b);
    if l.None? then None
    else
      var f := ParseFrame(8, l.value.1);
      if f.None? then None else Some(((l.value.0, f.value.0), f.value.1))
  }

  function ParseFields(count: nat, b: Bytes): Option<seq<(Bytes, Bytes)>> {
    if count == 0 then (if b == [] then Some([]) else None)
    else
      var first := ParseField(b);
      if first.None? then None
      else
        var rest := ParseFields(count - 1, first.value.1);
        if rest.None? then None else Some([first.value.0] + rest.value)
  }

  function Header(domain: Bytes, count: nat): Option<Bytes> {
    var d := Frame(2, domain);
    if d.None? || count >= Limit(2) then None else Some(d.value + BigEndian(count, 2))
  }

  function FieldsTranscript(domain: Bytes, labels: seq<Bytes>, values: seq<FieldValue>): Option<Bytes>
    requires |labels| == |values|
  {
    var h, f := Header(domain, |labels|), EncodeFields(labels, values);
    if h.None? || f.None? then None else Some(h.value + f.value)
  }

  /** Recovers the domain and, field by field, the label and the encoded value. */
  function ParseTranscript(b: Bytes): Option<(Bytes, seq<(Bytes, Bytes)>)> {
    var d := ParseFrame(2, b);
    if d.None? || |d.value.1| < 2 then None
    else
      var fields := ParseFields(FromBigEndian(d.value.1[..2]), d.value.1[2..]);
      if fields.None? then None else Some((d.value.0, fields.value))
  }

  function EncodedPairs(labels: seq<Bytes>, values: seq<FieldValue>): (r: seq<(Bytes, Bytes)>)
    requires |labels| == |values| && forall v :: v in values ==> EncodeValue(v).Some?
    ensures |r| == |labels|
    ensures forall i :: 0 <= i < |r| ==> r[i].0 == labels[i] && Some(r[i].1) == EncodeValue(values[i])
  {
    if labels == [] then []
    else [(labels[0], EncodeValue(values[0]).value)] + EncodedPairs(labels[1..], values[1..])
  }

  lemma {:induction false} EncodedValues(labels: seq<Bytes>, values: seq<FieldValue>)
    requires |labels| == |values| && EncodeFields(labels, values).Some?
    ensures forall v :: v in values ==> EncodeValue(v).Some?
  {
    if labels == [] {
    } else {
      EncodedValues(labels[1..], values[1..]);
      assert forall v :: v in values <==> v == values[0] || v in values[1..];
    }
  }

  lemma FieldParses(tag: Bytes, v: FieldValue, rest: Bytes)
    requires EncodeField(tag, v).Some?
    ensures ParseField(EncodeField(tag, v).value + rest) == Some(((tag, EncodeValue(v).value), rest))
  {
    TwoFramesParse(2, 8, tag, EncodeValue(v).value, rest);
  }

  lemma TwoFramesParse(first: nat, second: nat, a: Bytes, b: Bytes, rest: Bytes)
    requires Frame(first, a).Some? && Frame(second, b).Some?
    ensures var f, g := Frame(first, a).value, Frame(second, b).value;
            ParseFrame(first, f + g + rest) == Some((a, g + rest)) && ParseFrame(second, g + rest) == Some((b, rest))
  {
    var f, g := Frame(first, a).value, Frame(second, b).value;
    assert f + g + rest == f + (g + rest);
    FrameParses(first, a, g + rest);
    FrameParses(second, b, rest);
  }

  lemma {:induction false} FieldsParse(labels: seq<Bytes>, values: seq<FieldValue>)
    requires |labels| == |values| && EncodeFields(labels, values).Some?
    requires forall v :: v in values ==> EncodeValue(v).Some?
    ensures ParseFields(|labels|, EncodeFields(labels, values).value) == Some(EncodedPairs(labels, values))
  {
    if labels == [] {
    } else {
      FieldsParse(labels[1..], values[1..]);
      FieldParses(labels[0], values[0], EncodeFields(labels[1..], values[1..]).value);
    }
  }

  /** A parser recovers the domain and every field of a transcript. */
  lemma TranscriptParses(domain: Bytes, labels: seq<Bytes>, values: seq<FieldValue>)
    requires |labels| == |values| && FieldsTranscript(domain, labels, values).Some?
    ensures forall v :: v in values ==> EncodeValue(v).Some?
    ensures ParseTranscript(FieldsTranscript(domain, labels, values).value) ==
            Some((domain, EncodedPairs(labels, values)))
  {
    EncodedValues(labels, values);
    FieldsParse(labels, values);
    HeaderParses(domain, |labels|, EncodeFields(labels, values).value);
  }

  lemma HeaderParses(domain: Bytes, count: nat, fields: Bytes)
    requires Header(domain, count).Some?
    ensures var d := ParseFrame(2, Header(domain, count).value + fields);
            d == Some((domain, BigEndian(count, 2) + fields)) &&
            FromBigEndian(d.value.1[..2]) == count && d.value.1[2..] == fields
  {
    var rest := BigEndian(count, 2) + fields;
    assert Header(domain, count).value + fields == Frame(2, domain).value + rest;
    FrameParses(2, domain, rest);
    assert rest[..2] == BigEndian(count, 2) && rest[2..] == fields;
    BigEndianRoundTrip(count, 2);
  }

  // ----- and back: whatever parses is rebuilt -----

  /** The field has these bytes as its label and its encoded value. */
  predicate Renders(tag: Bytes, v: FieldValue, pair: (Bytes, Bytes)) {
    tag == pair.0 && EncodeValue(v) == Some(pair.1)
  }

  ghost predicate RendersAll(labels: seq<Bytes>, values: seq<FieldValue>, pairs: seq<(Bytes, Bytes)>) {
    && |labels| == |values| == |pairs|
    && forall i :: 0 <= i < |pairs| ==> Renders(labels[i], values[i], pairs[i])
  }

  lemma ParsedFieldEncodes(tag: Bytes, v: FieldValue, b: Bytes)
    requires ParseField(b).Some? && Renders(tag, v, ParseField(b).value.0)
    ensures EncodeField(tag, v).Some? && EncodeField(tag, v).value + ParseField(b).value.1 == b
  {
    ParsedFrameEncodes(2, b);
    ParsedFrameEncodes(8, ParseFrame(2, b).value.1);
    var l, f := Frame(2, tag).value, Frame(8, EncodeValue(v).value).value;
    assert l + f + ParseField(b).value.1 == l + (f + ParseField(b).value.1);
  }

  lemma RendersRest(labels: seq<Bytes>, values: seq<FieldValue>, pairs: seq<(Bytes, Bytes)>)
    requires RendersAll(labels, values, pairs) && labels != []
    ensures Renders(labels[0], values[0], pairs[0]) && RendersAll(labels[1..], values[1..], pairs[1..])
  {
    forall i | 0 <= i < |pairs| - 1 ensures Renders(labels[1..][i], values[1..][i], pairs[1..][i]) {
      assert Renders(labels[i + 1], values[i + 1], pairs[i + 1]);
    }
  }

  lemma ParsedStep(count: nat, pairs: seq<(Bytes, Bytes)>, b: Bytes) returns (rest: Bytes)
    requires ParseFields(count, b) == Some(pairs) && count > 0
    ensures pairs != [] && ParseField(b) == Some((pairs[0], rest)) && ParseFields(count - 1, rest) == Some(pairs[1..])
  {
    rest := ParseField(b).value.1;
    assert pairs == [ParseField(b).value.0] + ParseFields(count - 1, rest).value;
  }

  lemma EncodeStep(labels: seq<Bytes>, values: seq<FieldValue>, b: Bytes, rest: Bytes)
    requires |labels| == |values| && labels != [] && EncodeFields(labels[1..], values[1..]) == Some(rest)
    requires ParseField(b).Some? && ParseField(b).value.1 == rest
    requires Renders(labels[0], values[0], ParseField(b).value.0)
    ensures EncodeFields(labels, values) == Some(b)
  {
    ParsedFieldEncodes(labels[0], values[0], b);
  }

  lemma {:induction false} ParsedFieldsEncode(
    labels: seq<Bytes>, values: seq<FieldValue>, pairs: seq<(Bytes, Bytes)>, b: Bytes)
    requires RendersAll(labels, values, pairs) && ParseFields(|pairs|, b) == Some(pairs)
    ensures EncodeFields(labels, values) == Some(b)
    decreases |pairs|
  {
    if pairs == [] {
    } else {
      var rest := ParsedStep(|pairs|, pairs, b);
      RendersRest(labels, values, pairs);
      ParsedFieldsEncode(labels[1..], values[1..], pairs[1..], rest);
      EncodeStep(labels, values, b, rest);
    }
  }

  lemma {:induction false} ParsedLength(count: nat, b: Bytes)
    requires ParseFields(count, b).Some?
    ensures |ParseFields(count, b).value| == count
  {
    if count == 0 {
    } else {
      ParsedLength(count - 1, ParseField(b).value.1);
    }
  }

  lemma ParsedHeaderEncodes(b: Bytes)
    requires ParseFrame(2, b).Some? && |ParseFrame(2, b).value.1| >= 2
    ensures var (domain, rest) := ParseFrame(2, b).value;
            var h := Header(domain, FromBigEndian(rest[..2]));
            h.Some? && h.value + rest[2..] == b
  {
    ParsedFrameEncodes(2, b);
    var (domain, rest) := ParseFrame(2, b).value;
    FromBigEndianRoundTrip(rest[..2]);
    Reassociate(Frame(2, domain).value, rest, 2);
  }

  lemma Reassociate(a: Bytes, b: Bytes, n: nat)
    requires n <= |b|
    ensures a + b[..n] + b[n..] == a + b
  {
  }

  /**
   Building and parsing field transcripts are inverse to each other: a byte string is the
   transcript of some fields exactly when it parses to their domain, labels and encoded values.
   */
  lemma TranscriptRoundTrip(domain: Bytes, labels: seq<Bytes>, values: seq<FieldValue>, b: Bytes)
    requires |labels| == |values|
    ensures FieldsTranscript(domain, labels, values) == Some(b) <==>
            var parsed := ParseTranscript(b);
            parsed.Some? && parsed.value.0 == domain && RendersAll(labels, values, parsed.value.1)
  {
    if FieldsTranscript(domain, labels, values) == Some(b) {
      TranscriptParses(domain, labels, values);
    }
    var parsed := ParseTranscript(b);
    if parsed.Some? && parsed.value.0 == domain && RendersAll(labels, values, parsed.value.1) {
      var rest := ParseFrame(2, b).value.1;
      ParsedHeaderEncodes(b);
      ParsedLength(FromBigEndian(rest[..2]), rest[2..]);
      ParsedFieldsEncode(labels, values, parsed.value.1, rest[2..]);
    }
  }

  /** Nothing else parses: every accepted byte string is the transcript of the bytes it parsed to. */
  lemma ParsedTranscriptEncodes(b: Bytes)
    requires ParseTranscript(b).Some?
    ensures var (domain, pairs) := ParseTranscript(b).value;
            FieldsTranscript(domain, LabelsOf(pairs), RawsOf(pairs)) == Some(b)
  {
    var (domain, pairs) := ParseTranscript(b).value;
    assert RendersAll(LabelsOf(pairs), RawsOf(pairs), pairs);
    TranscriptRoundTrip(domain, LabelsOf(pairs), RawsOf(pairs), b);
  }

  function LabelsOf(pairs: seq<(Bytes, Bytes)>): seq<Bytes> {
    seq(|pairs|, i requires 0 <= i < |pairs| => pairs[i].0)
  }

  function RawsOf(pairs: seq<(Bytes, Bytes)>): seq<FieldValue> {
    seq(|pairs|, i requires 0 <= i < |pairs| => Raw(pairs[i].1))
  }

  /** The fields have a transcript body exactly when each of them can be encoded. */
  lemma {:induction false} EncodeFieldsIff(labels: seq<Bytes>, values: seq<FieldValue>)
    requires |labels| == |values|
    ensures EncodeFields(labels, values).Some? <==>
            forall i :: 0 <= i < |labels| ==> EncodeField(labels[i], values[i]).Some?
  {
    if labels == [] {
    } else {
      EncodeFieldsIff(labels[1..], values[1..]);
      assert forall i :: 0 <= i < |labels| - 1 ==> labels[1..][i] == labels[i + 1] && values[1..][i] == values[i + 1];
    }
  }

  // ----- the package's own fields -----

  /** What a package says about its archive, origin and provenance; digests are decoded, the rest is taken as given. */
  datatype PackageBody = PackageBody(
    signatureAlgorithm: FieldValue, signatureVersion: FieldValue, signatureMessageMode: FieldValue,
    archiveDigestAlgorithm: FieldValue, archiveDigest: Bytes, archiveLength: FieldValue, manifestDigest: Bytes,
    namespace: FieldValue, name: FieldValue, targetPath: FieldValue,
    registryIdentity: FieldValue, sourceIdentity: FieldValue, publisherIdentity: FieldValue,
    statementDigest: Bytes, statementType: FieldValue, predicateType: FieldValue, subjectName: FieldValue,
    subjectDigest: Bytes)

  /** The body with what the verifier checks itself: the version, the publication floors and the threshold. */
  datatype PackageFields = PackageFields(
    body: PackageBody, version: FieldValue, indexGeneration: FieldValue, indexSequence: FieldValue,
    packageThreshold: FieldValue)

  function FieldValues(p: PackageFields): (r: seq<FieldValue>)
    ensures |r| == 23
  {
    var b := p.body;
    [Number(1), b.signatureAlgorithm, b.signatureVersion, b.signatureMessageMode,
     b.archiveDigestAlgorithm, Raw(b.archiveDigest), b.archiveLength, Raw(b.manifestDigest),
     b.namespace, b.name, p.version, b.targetPath, b.registryIdentity, b.sourceIdentity, b.publisherIdentity,
     Raw(b.statementDigest), b.statementType, b.predicateType, b.subjectName, Raw(b.subjectDigest),
     p.indexGeneration, p.indexSequence, p.packageThreshold]
  }

  const PACKAGE_FIELDS: seq<string> := [
    "transcript_format_version", "signature_algorithm", "signature_version", "signature_message_mode",
    "archive_digest_algorithm", "archive_digest", "archive_length", "manifest_digest",
    "package_namespace", "package_name", "package_version", "target_path",
    "registry_identity", "source_identity", "publisher_identity",
    "provenance_statement_digest", "provenance_statement_type", "provenance_predicate_type",
    "provenance_subject_name", "provenance_subject_digest",
    "index_generation", "index_sequence", "package_signature_threshold"]

  function Labels(names: seq<string>): (r: seq<Bytes>)
    ensures |r| == |names|
  {
    seq(|names|, i requires 0 <= i < |names| => Ascii(names[i]))
  }

  function PackageTranscript(p: PackageFields): Option<Bytes> {
    FieldsTranscript(Ascii(PACKAGE_DOMAIN), Labels(PACKAGE_FIELDS), FieldValues(p))
  }

  /** The field at position `i` has this label and this value. */
  ghost predicate Field(fields: seq<(Bytes, Bytes)>, i: nat, tag: string, v: FieldValue) {
    i < |fields| && fields[i].0 == Ascii(tag) && EncodeValue(v) == Some(fields[i].1)
  }

  /** How the package was signed. */
  ghost predicate HoldsSigning(p: PackageFields, f: seq<(Bytes, Bytes)>) {
    && Field(f, 0, "transcript_format_version", Number(1))
    && Field(f, 1, "signature_algorithm", p.body.signatureAlgorithm)
    && Field(f, 2, "signature_version", p.body.signatureVersion)
    && Field(f, 3, "signature_message_mode", p.body.signatureMessageMode)
  }

  /** Which archive and manifest it holds. */
  ghost predicate HoldsArchive(p: PackageFields, f: seq<(Bytes, Bytes)>) {
    && Field(f, 4, "archive_digest_algorithm", p.body.archiveDigestAlgorithm)
    && Field(f, 5, "archive_digest", Raw(p.body.archiveDigest))
    && Field(f, 6, "archive_length", p.body.archiveLength)
    && Field(f, 7, "manifest_digest", Raw(p.body.manifestDigest))
  }

  /** Which package it is, and where it comes from. */
  ghost predicate HoldsCoordinates(p: PackageFields, f: seq<(Bytes, Bytes)>) {
    && Field(f, 8, "package_namespace", p.body.namespace)
    && Field(f, 9, "package_name", p.body.name)
    && Field(f, 10, "package_version", p.version)
    && Field(f, 11, "target_path", p.body.targetPath)
    && Field(f, 12, "registry_identity", p.body.registryIdentity)
    && Field(f, 13, "source_identity", p.body.sourceIdentity)
    && Field(f, 14, "publisher_identity", p.body.publisherIdentity)
  }

  /** How it was built, and when it was published. */
  ghost predicate HoldsProvenance(p: PackageFields, f: seq<(Bytes, Bytes)>) {
    && Field(f, 15, "provenance_statement_digest", Raw(p.body.statementDigest))
    && Field(f, 16, "provenance_statement_type", p.body.statementType)
    && Field(f, 17, "provenance_predicate_type", p.body.predicateType)
    && Field(f, 18, "provenance_subject_name", p.body.subjectName)
    && Field(f, 19, "provenance_subject_digest", Raw(p.body.subjectDigest))
    && Field(f, 20, "index_generation", p.indexGeneration)
    && Field(f, 21, "index_sequence", p.indexSequence)
    && Field(f, 22, "package_signature_threshold", p.packageThreshold)
  }

  /** Under every label stands the value of the same position. */
  ghost predicate HoldsAll(p: PackageFields, f: seq<(Bytes, Bytes)>) {
    && |f| == |PACKAGE_FIELDS| == 23
    && forall i :: 0 <= i < 23 ==> f[i].0 == Ascii(PACKAGE_FIELDS[i]) && EncodeValue(FieldValues(p)[i]) == Some(f[i].1)
  }

  lemma HoldsSigningEach(p: PackageFields, f: seq<(Bytes, Bytes)>)
    requires HoldsAll(p, f)
    ensures HoldsSigning(p, f)
  {
    assert Field(f, 0, PACKAGE_FIELDS[0], FieldValues(p)[0]) && Field(f, 1, PACKAGE_FIELDS[1], FieldValues(p)[1]);
    assert Field(f, 2, PACKAGE_FIELDS[2], FieldValues(p)[2]) && Field(f, 3, PACKAGE_FIELDS[3], FieldValues(p)[3]);
  }

  lemma HoldsArchiveEach(p: PackageFields, f: seq<(Bytes, Bytes)>)
    requires HoldsAll(p, f)
    ensures HoldsArchive(p, f)
  {
  }

  lemma HoldsCoordinatesEach(p: PackageFields, f: seq<(Bytes, Bytes)>)
    requires HoldsAll(p, f)
    ensures HoldsCoordinates(p, f)
  {
  }

  lemma HoldsProvenanceEach(p: PackageFields, f: seq<(Bytes, Bytes)>)
    requires HoldsAll(p, f)
    ensures HoldsProvenance(p, f)
  {
  }

  /** A package transcript holds 23 fields, each with its own value under its own label. */
  lemma PackageTranscriptHolds(p: PackageFields)
    requires PackageTranscript(p).Some?
    ensures ParseTranscript(PackageTranscript(p).value).Some?
    ensures var (domain, f) := ParseTranscript(PackageTranscript(p).value).value;
            && domain == Ascii("AXIOM-PACKAGE-TRUST-V1") && |f| == 23
            && HoldsSigning(p, f) && HoldsArchive(p, f) && HoldsCoordinates(p, f) && HoldsProvenance(p, f)
  {
    TranscriptParses(Ascii(PACKAGE_DOMAIN), Labels(PACKAGE_FIELDS), FieldValues(p));
    var f := ParseTranscript(PackageTranscript(p).value).value.1;
    HoldsSigningEach(p, f);
    HoldsArchiveEach(p, f);
    HoldsCoordinatesEach(p, f);
    HoldsProvenanceEach(p, f);
  }

  predicate SameKind(a: FieldValue, b: FieldValue) {
    (a.Number? && b.Number?) || (a.Text? && b.Text?) || (a.Raw? && b.Raw?)
  }

  /** Values with the same encoding are equal exactly when they are of the same kind. */
  lemma EncodeValueInjective(a: FieldValue, b: FieldValue)
    requires EncodeValue(a).Some? && EncodeValue(a) == EncodeValue(b)
    ensures a == b <==> SameKind(a, b)
  {
    if a.Number? && b.Number? {
      BigEndianRoundTrip(a.n, 8);
      BigEndianRoundTrip(b.n, 8);
    }
  }

  /** The kind of each field matters: a number and a text can have the same encoding. */
  lemma KindsCanCollide(n: nat)
    requires n < Limit(8)
    ensures EncodeValue(Number(n)) == EncodeValue(Text(BigEndian(n, 8)))
  {
  }

  ghost predicate SameEncodings(a: seq<FieldValue>, b: seq<FieldValue>) {
    |a| == |b| && forall i :: 0 <= i < |a| ==> EncodeValue(a[i]).Some? && EncodeValue(a[i]) == EncodeValue(b[i])
  }

  ghost predicate SameKinds(a: seq<FieldValue>, b: seq<FieldValue>) {
    |a| == |b| && forall i :: 0 <= i < |a| ==> SameKind(a[i], b[i])
  }

  /** Under the same labels, equal transcripts mean equal encodings, field by field and whatever their kinds. */
  lemma TranscriptFixesEncodings(domain: Bytes, labels: seq<Bytes>, a: seq<FieldValue>, b: seq<FieldValue>)
    requires |labels| == |a| == |b|
    requires FieldsTranscript(domain, labels, a).Some? &&
             FieldsTranscript(domain, labels, a) == FieldsTranscript(domain, labels, b)
    ensures SameEncodings(a, b)
  {
    TranscriptParses(domain, labels, a);
    TranscriptParses(domain, labels, b);
    forall i | 0 <= i < |a| ensures EncodeValue(a[i]).Some? && EncodeValue(a[i]) == EncodeValue(b[i]) {
      assert a[i] in a && b[i] in b;
      assert EncodedPairs(labels, a)[i] == EncodedPairs(labels, b)[i];
    }
  }

  lemma SameEncodingsEqual(a: seq<FieldValue>, b: seq<FieldValue>)
    requires SameEncodings(a, b)
    ensures a == b <==> SameKinds(a, b)
  {
    forall i | 0 <= i < |a| ensures a[i] == b[i] <==> SameKind(a[i], b[i]) {
      EncodeValueInjective(a[i], b[i]);
    }
  }

  /** Equal transcripts have equal values exactly when the kinds agree position by position. */
  lemma FieldsInjective(domain: Bytes, labels: seq<Bytes>, a: seq<FieldValue>, b: seq<FieldValue>)
    requires |labels| == |a| == |b|
    requires FieldsTranscript(domain, labels, a).Some? &&
             FieldsTranscript(domain, labels, a) == FieldsTranscript(domain, labels, b)
    ensures a == b <==> SameKinds(a, b)
  {
    TranscriptFixesEncodings(domain, labels, a, b);
    SameEncodingsEqual(a, b);
  }

  /** Two packages with the same transcript encode every field alike; they are equal exactly when the kinds agree. */
  lemma PackageTranscriptInjective(p: PackageFields, q: PackageFields)
    requires PackageTranscript(p).Some? && PackageTranscript(p) == PackageTranscript(q)
    ensures SameEncodings(FieldValues(p), FieldValues(q))
    ensures p == q <==> SameKinds(FieldValues(p), FieldValues(q))
  {
    TranscriptFixesEncodings(Ascii(PACKAGE_DOMAIN), Labels(PACKAGE_FIELDS), FieldValues(p), FieldValues(q));
    SameEncodingsEqual(FieldValues(p), FieldValues(q));
    if FieldValues(p) == FieldValues(q) {
      FieldValuesInjective(p, q);
    }
  }

  lemma FieldValuesInjective(p: PackageFields, q: PackageFields)
    requires FieldValues(p) == FieldValues(q)
    ensures p == q
  {
    var a, b := FieldValues(p), FieldValues(q);
    assert a[1] == b[1] && a[2] == b[2] && a[3] == b[3] && a[4] == b[4] && a[5] == b[5] && a[6] == b[6];
    assert a[7] == b[7] && a[8] == b[8] && a[9] == b[9] && a[10] == b[10] && a[11] == b[11] && a[12] == b[12];
    assert a[13] == b[13] && a[14] == b[14] && a[15] == b[15] && a[16] == b[16] && a[17] == b[17] && a[18] == b[18];
    assert a[19] == b[19] && a[20] == b[20] && a[21] == b[21] && a[22] == b[22];
  }

  /** The field encodes this value, whatever its own kind; a field of the same kind is the value. */
  ghost predicate Covers(field: FieldValue, v: FieldValue) {
    && EncodeValue(field).Some? && EncodeValue(field) == EncodeValue(v)
    && (SameKind(field, v) ==> field == v)
  }

  /** The fields the verifier checks itself encode the same values. */
  ghost predicate CheckedAlike(q: PackageFields, p: PackageFields) {
    && Covers(q.version, p.version) && Covers(q.packageThreshold, p.packageThreshold)
    && Covers(q.indexGeneration, p.indexGeneration) && Covers(q.indexSequence, p.indexSequence)
  }

  lemma CheckedFieldsAlike(q: PackageFields, p: PackageFields)
    requires SameEncodings(FieldValues(q), FieldValues(p))
    ensures CheckedAlike(q, p)
  {
    CoversAt(FieldValues(q), FieldValues(p), 10);
    CoversAt(FieldValues(q), FieldValues(p), 20);
    CoversAt(FieldValues(q), FieldValues(p), 21);
    CoversAt(FieldValues(q), FieldValues(p), 22);
  }

  lemma CoversAt(a: seq<FieldValue>, b: seq<FieldValue>, i: nat)
    requires SameEncodings(a, b) && i < |a|
    ensures Covers(a[i], b[i])
  {
    EncodeValueInjective(a[i], b[i]);
  }

  // ----- the three kinds of transcript never coincide -----

  /** The first frame of a transcript is its domain. */
  lemma DomainOfMetadata(domain: Bytes, payload: Bytes, b: Bytes)
    requires MetadataTranscript(domain, payload) == Some(b)
    ensures ParseFrame(2, b).Some? && ParseFrame(2, b).value.0 == domain
  {
    FrameParses(2, domain, Frame(8, payload).value);
  }

  lemma DomainOfFields(domain: Bytes, labels: seq<Bytes>, values: seq<FieldValue>, b: Bytes)
    requires |labels| == |values| && FieldsTranscript(domain, labels, values) == Some(b)
    ensures ParseFrame(2, b).Some? && ParseFrame(2, b).value.0 == domain
  {
    var rest := BigEndian(|labels|, 2) + EncodeFields(labels, values).value;
    assert b == Frame(2, domain).value + rest;
    FrameParses(2, domain, rest);
  }

  /** No byte string is two kinds of transcript. */
  lemma TranscriptsSeparated(root: Bytes, index: Bytes, p: PackageFields, b: Bytes)
    ensures !(RootTranscript(root) == Some(b) && IndexTranscript(index) == Some(b))
    ensures !(RootTranscript(root) == Some(b) && PackageTranscript(p) == Some(b))
    ensures !(IndexTranscript(index) == Some(b) && PackageTranscript(p) == Some(b))
  {
    DomainsDiffer();
    if RootTranscript(root) == Some(b) {
      DomainOfMetadata(Ascii(ROOT_DOMAIN), root, b);
    }
    if IndexTranscript(index) == Some(b) {
      DomainOfMetadata(Ascii(INDEX_DOMAIN), index, b);
    }
    if PackageTranscript(p) == Some(b) {
      DomainOfFields(Ascii(PACKAGE_DOMAIN), Labels(PACKAGE_FIELDS), FieldValues(p), b);
    }
  }

  lemma DomainsDiffer()
    ensures Ascii(ROOT_DOMAIN) != Ascii(INDEX_DOMAIN)
    ensures Ascii(ROOT_DOMAIN) != Ascii(PACKAGE_DOMAIN)
    ensures Ascii(INDEX_DOMAIN) != Ascii(PACKAGE_DOMAIN)
  {
    assert |ROOT_DOMAIN| == 19 && |INDEX_DOMAIN| == 23 && |PACKAGE_DOMAIN| == 22;
  }

  lemma PackageFieldCount()
    ensures |Labels(PACKAGE_FIELDS)| == 23
  {
    assert |PACKAGE_FIELDS| == 23;
  }
}
