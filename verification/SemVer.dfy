/**
 Version precedence in the package trust contract: a parser for versions and the comparison
 of section 11 of SemVer 2.0.0.
 */
module SemVer {
  import opened Basics
  import opened Lexicographic
  import opened Text

  datatype Identifier = Numeric(n: nat) | Alphanumeric(text: string)

  datatype Version = Version(major: nat, minor: nat, patch: nat, prerelease: seq<Identifier>)

  // ----- text -----

  function Before(s: string, mark: char): string {
    if s == [] || s[0] == mark then [] else [s[0]] + Before(s[1..], mark)
  }

  /** What follows the first `mark`, or nothing when there is none. */
  function After(s: string, mark: char): Option<string> {
    if s == [] then None else if s[0] == mark then Some(s[1..]) else After(s[1..], mark)
  }

  lemma {:induction false} PartitionJoins(s: string, mark: char)
    ensures mark !in Before(s, mark)
    ensures s == Before(s, mark) + if After(s, mark).Some? then [mark] + After(s, mark).value else []
  {
    if s != [] && s[0] != mark {
      PartitionJoins(s[1..], mark);
    }
  }

  // ----- decimal numbers -----

  predicate IsDigit(c: char) {
    '0' <= c <= '9'
  }

  predicate AllDigits(s: string) {
    s != [] && forall c :: c in s ==> IsDigit(c)
  }

  predicate LeadingZero(s: string) {
    |s| > 1 && s[0] == '0'
  }

  function DigitValue(c: char): nat
    requires IsDigit(c)
  {
    c as int - '0' as int
  }

  function ToNat(s: string): nat
    requires forall c :: c in s ==> IsDigit(c)
  {
    if s == [] then 0
    else
      assert s[|s| - 1] in s;
      10 * ToNat(s[..|s| - 1]) + DigitValue(s[|s| - 1])
  }

  function Digit(n: nat): char
    requires n < 10
  {
    (n + '0' as int) as char
  }

  function Decimal(n: nat): string {
    if n < 10 then [Digit(n)] else Decimal(n / 10) + [Digit(n % 10)]
  }

  lemma {:induction false} PositiveNumber(s: string)
    requires AllDigits(s) && s[0] != '0'
    ensures ToNat(s) > 0
  {
    if |s| > 1 {
      PositiveNumber(s[..|s| - 1]);
    } else {
      assert s[0] in s;
      assert s[..0] == [];
    }
  }

  lemma DecimalAppends(front: nat, last: nat)
    requires front > 0 && last < 10
    ensures Decimal(10 * front + last) == Decimal(front) + [Digit(last)]
  {
    var n := 10 * front + last;
    assert n / 10 == front && n % 10 == last;
  }

  /** A number written without a leading zero is written in the only possible way. */
  lemma {:induction false} DecimalRoundTrip(s: string)
    requires AllDigits(s) && !LeadingZero(s)
    ensures Decimal(ToNat(s)) == s
  {
    var n := |s| - 1;
    var front := s[..n];
    assert s[n] in s;
    if n == 0 {
      assert front == [];
      assert s == [s[0]];
    } else {
      DecimalRoundTrip(front);
      PositiveNumber(front);
      DecimalAppends(ToNat(front), DigitValue(s[n]));
      assert s == front + [s[n]];
    }
  }

  // ----- parsing and rendering -----

  predicate IdentifierChar(c: char) {
    IsDigit(c) || 'a' <= c <= 'z' || 'A' <= c <= 'Z' || c == '-'
  }

  function ParseIdentifier(item: string): Option<Identifier> {
    if item == [] || exists c :: c in item && !IdentifierChar(c) then None
    else if AllDigits(item) then (if LeadingZero(item) then None else Some(Numeric(ToNat(item))))
    else Some(Alphanumeric(item))
  }

  function ParseIdentifiers(items: seq<string>): Option<seq<Identifier>> {
    if items == [] then Some([])
    else
      var first, rest := ParseIdentifier(items[0]), ParseIdentifiers(items[1..]);
      if first.None? || rest.None? then None else Some([first.value] + rest.value)
  }

  predicate CorePart(part: string) {
    AllDigits(part) && !LeadingZero(part)
  }

  function ParseVersion(s: string): Option<Version> {
    var text := Before(s, '+');
    var parts, tail := Split(Before(text, '-'), '.'), After(text, '-');
    if |parts| != 3 || !CorePart(parts[0]) || !CorePart(parts[1]) || !CorePart(parts[2]) then None
    else
      var pre := if tail.None? then Some([]) else ParseIdentifiers(Split(tail.value, '.'));
      if pre.None? then None
      else Some(Version(ToNat(parts[0]), ToNat(parts[1]), ToNat(parts[2]), pre.value))
  }

  function RenderIdentifier(i: Identifier): string {
    match i
    case Numeric(n) => Decimal(n)
    case Alphanumeric(text) => text
  }

  function RenderIdentifiers(ids: seq<Identifier>): (r: seq<string>)
    ensures |r| == |ids|
  {
    if ids == [] then [] else [RenderIdentifier(ids[0])] + RenderIdentifiers(ids[1..])
  }

  function RenderVersion(v: Version): string {
    var core := Decimal(v.major) + "." + Decimal(v.minor) + "." + Decimal(v.patch);
    if v.prerelease == [] then core else core + "-" + Join(RenderIdentifiers(v.prerelease), '.')
  }

  lemma {:induction false} IdentifiersRender(items: seq<string>)
    requires ParseIdentifiers(items).Some?
    ensures RenderIdentifiers(ParseIdentifiers(items).value) == items
  {
    if items == [] {
    } else {
      IdentifiersRender(items[1..]);
      if AllDigits(items[0]) {
        DecimalRoundTrip(items[0]);
      }
    }
  }

  lemma CoreRenders(core: string, parts: seq<string>)
    requires parts == Split(core, '.') && |parts| == 3 && CorePart(parts[0]) && CorePart(parts[1]) && CorePart(parts[2])
    ensures core == Decimal(ToNat(parts[0])) + "." + Decimal(ToNat(parts[1])) + "." + Decimal(ToNat(parts[2]))
  {
    DecimalRoundTrip(parts[0]);
    DecimalRoundTrip(parts[1]);
    DecimalRoundTrip(parts[2]);
    SplitJoins(core, '.');
    var tail := parts[1..];
    assert tail[1..] == [parts[2]];
    assert Join(tail[1..], '.') == parts[2];
    assert Join(tail, '.') == parts[1] + "." + parts[2];
  }

  /** A version renders back to its text before the build metadata, so parsing loses nothing. */
  lemma VersionRoundTrip(s: string)
    requires ParseVersion(s).Some?
    ensures RenderVersion(ParseVersion(s).value) == Before(s, '+')
  {
    var text := Before(s, '+');
    var core, tail := Before(text, '-'), After(text, '-');
    PartitionJoins(text, '-');
    CoreRenders(core, Split(core, '.'));
    if tail.Some? {
      var items := Split(tail.value, '.');
      SplitJoins(tail.value, '.');
      IdentifiersRender(items);
      assert ParseIdentifiers(items).value != [];
      assert text == core + ("-" + tail.value);
    }
  }

  // ----- and back: whatever renders is parsed -----

  /** Letters, digits and hyphens only. */
  predicate Plain(s: string) {
    forall c :: c in s ==> c == '-' || '0' <= c <= '9' || 'A' <= c <= 'Z' || 'a' <= c <= 'z'
  }

  /** A text identifier must not be empty, leave the alphabet, or look like a number. */
  predicate Canonical(i: Identifier) {
    i.Numeric? || (i.text != [] && Plain(i.text) && exists c :: c in i.text && !('0' <= c <= '9'))
  }

  lemma {:induction false} DecimalDigits(n: nat)
    ensures CorePart(Decimal(n)) && ToNat(Decimal(n)) == n
    ensures n > 0 ==> Decimal(n)[0] != '0'
  {
    var s := Decimal(n);
    if n < 10 {
      assert s[..0] == [];
    } else {
      DecimalDigits(n / 10);
      assert s[..|s| - 1] == Decimal(n / 10);
      assert forall c :: c in s <==> c in Decimal(n / 10) || c == Digit(n % 10);
    }
  }

  lemma RenderedIdentifier(i: Identifier)
    requires Canonical(i)
    ensures ParseIdentifier(RenderIdentifier(i)) == Some(i)
    ensures Plain(RenderIdentifier(i))
  {
    if i.Numeric? {
      DecimalDigits(i.n);
    }
  }

  lemma {:induction false} RenderedIdentifiers(ids: seq<Identifier>)
    requires forall i :: i in ids ==> Canonical(i)
    ensures ParseIdentifiers(RenderIdentifiers(ids)) == Some(ids)
    ensures forall p :: p in RenderIdentifiers(ids) ==> Plain(p)
  {
    if ids == [] {
    } else {
      RenderedIdentifier(ids[0]);
      RenderedIdentifiers(ids[1..]);
      assert ids == [ids[0]] + ids[1..];
    }
  }

  lemma {:induction false} ParsedAreCanonical(items: seq<string>)
    requires ParseIdentifiers(items).Some?
    ensures forall i :: i in ParseIdentifiers(items).value ==> Canonical(i)
  {
    if items == [] {
    } else {
      ParsedAreCanonical(items[1..]);
    }
  }

  lemma {:induction false} CutAt(a: string, b: string, mark: char)
    requires mark !in a
    ensures Before(a + [mark] + b, mark) == a && After(a + [mark] + b, mark) == Some(b)
  {
    var s := a + [mark] + b;
    if a == [] {
      assert s[1..] == b;
    } else {
      CutAt(a[1..], b, mark);
      assert s[1..] == a[1..] + [mark] + b;
    }
  }

  lemma {:induction false} CutNowhere(s: string, mark: char)
    requires mark !in s
    ensures Before(s, mark) == s && After(s, mark).None?
  {
    if s == [] {
    } else {
      CutNowhere(s[1..], mark);
    }
  }

  lemma CoreParts(a: string, b: string, c: string)
    requires CorePart(a) && CorePart(b) && CorePart(c)
    ensures Split(a + "." + b + "." + c, '.') == [a, b, c]
    ensures forall x :: x in a + "." + b + "." + c ==> IsDigit(x) || x == '.'
  {
    assert '.' !in a && '.' !in b && '.' !in c;
    SplitWithoutMark(a, '.');
    SplitWithoutMark(b, '.');
    SplitWithoutMark(c, '.');
    SplitConcat(b, c, '.');
    SplitConcat(a, b + "." + c, '.');
    assert a + "." + b + "." + c == a + "." + (b + "." + c);
  }

  lemma {:induction false} JoinedChars(parts: seq<string>)
    requires parts != [] && forall p :: p in parts ==> Plain(p)
    ensures forall c :: c in Join(parts, '.') ==> IdentifierChar(c) || c == '.'
  {
    assert Plain(parts[0]);
    if |parts| > 1 {
      JoinedChars(parts[1..]);
    }
  }

  lemma RenderedTail(core: string, ids: seq<Identifier>)
    requires ids != [] && forall i :: i in ids ==> Canonical(i)
    requires forall x :: x in core ==> IsDigit(x) || x == '.'
    ensures var tail := Join(RenderIdentifiers(ids), '.');
            var s := core + "-" + tail;
            && Before(s, '+') == s && Before(s, '-') == core && After(s, '-') == Some(tail)
            && ParseIdentifiers(Split(tail, '.')) == Some(ids)
  {
    var items := RenderIdentifiers(ids);
    RenderedIdentifiers(ids);
    JoinedChars(items);
    JoinSplits(items, '.');
    var tail := Join(items, '.');
    assert '+' !in core && '+' !in "-" && '+' !in tail;
    CutNowhere(core + "-" + tail, '+');
    CutAt(core, tail, '-');
  }

  /** Rendering a version and parsing it again gives the version exactly when its identifiers are canonical. */
  lemma RenderedParses(v: Version)
    ensures ParseVersion(RenderVersion(v)) == Some(v) <==> forall i :: i in v.prerelease ==> Canonical(i)
  {
    var a, b, c := Decimal(v.major), Decimal(v.minor), Decimal(v.patch);
    var core := a + "." + b + "." + c;
    DecimalDigits(v.major);
    DecimalDigits(v.minor);
    DecimalDigits(v.patch);
    CoreParts(a, b, c);
    if forall i :: i in v.prerelease ==> Canonical(i) {
      if v.prerelease == [] {
        CutNowhere(core, '+');
        CutNowhere(core, '-');
      } else {
        RenderedTail(core, v.prerelease);
      }
    }
    ParsedVersionCanonical(RenderVersion(v));
  }

  lemma ParsedVersionCanonical(s: string)
    ensures ParseVersion(s).Some? ==> forall i :: i in ParseVersion(s).value.prerelease ==> Canonical(i)
  {
    var tail := After(Before(s, '+'), '-');
    if ParseVersion(s).Some? && tail.Some? {
      ParsedAreCanonical(Split(tail.value, '.'));
    }
  }

  // ----- precedence -----

  function CompareText(a: string, b: string): int {
    CompareSeq(CompareChar, a, b)
  }

  /** Numbers numerically, texts by code point, and every number before every text. */
  function CompareIdentifier(a: Identifier, b: Identifier): int {
    match (a, b)
    case (Numeric(m), Numeric(n)) => CompareInt(m, n)
    case (Numeric(_), Alphanumeric(_)) => -1
    case (Alphanumeric(_), Numeric(_)) => 1
    case (Alphanumeric(s), Alphanumeric(t)) => CompareText(s, t)
  }

  function ComparePrerelease(a: seq<Identifier>, b: seq<Identifier>): int {
    if a == [] && b == [] then 0
    else if a == [] then 1
    else if b == [] then -1
    else CompareSeq(CompareIdentifier, a, b)
  }

  function CompareVersion(a: Version, b: Version): int {
    if a.major != b.major then CompareInt(a.major, b.major)
    else if a.minor != b.minor then CompareInt(a.minor, b.minor)
    else if a.patch != b.patch then CompareInt(a.patch, b.patch)
    else ComparePrerelease(a.prerelease, b.prerelease)
  }

  /** Texts that do not parse compare as lower, whatever they are compared with. */
  function CompareSemver(left: string, right: string): int {
    var l, r := ParseVersion(left), ParseVersion(right);
    if l.None? || r.None? then -1 else CompareVersion(l.value, r.value)
  }

  lemma IdentifierOrder()
    ensures IsOrder(CompareIdentifier)
  {
    CharOrder();
    forall a, b
      ensures CompareIdentifier(a, b) in {-1, 0, 1} && CompareIdentifier(a, b) == -CompareIdentifier(b, a)
      ensures CompareIdentifier(a, b) == 0 <==> a == b
    {
      if a.Alphanumeric? && b.Alphanumeric? {
        SeqAntisymmetric(CompareChar, a.text, b.text);
      }
    }
    forall a, b, c | CompareIdentifier(a, b) == -1 && CompareIdentifier(b, c) == -1
      ensures CompareIdentifier(a, c) == -1
    {
      if a.Alphanumeric? && b.Alphanumeric? && c.Alphanumeric? {
        SeqTransitive(CompareChar, a.text, b.text, c.text);
      }
    }
  }

  lemma VersionAntisymmetric(a: Version, b: Version)
    ensures CompareVersion(a, b) in {-1, 0, 1}
    ensures CompareVersion(a, b) == -CompareVersion(b, a)
    ensures CompareVersion(a, b) == 0 <==> a == b
  {
    IdentifierOrder();
    SeqAntisymmetric(CompareIdentifier, a.prerelease, b.prerelease);
  }

  lemma VersionTransitive(a: Version, b: Version, c: Version)
    requires CompareVersion(a, b) == -1 && CompareVersion(b, c) == -1
    ensures CompareVersion(a, c) == -1
  {
    IdentifierOrder();
    if a.prerelease != [] && b.prerelease != [] && c.prerelease != [] &&
       CompareSeq(CompareIdentifier, a.prerelease, b.prerelease) == -1 &&
       CompareSeq(CompareIdentifier, b.prerelease, c.prerelease) == -1 {
      SeqTransitive(CompareIdentifier, a.prerelease, b.prerelease, c.prerelease);
    }
  }

  /** Numbers by size, every number below every text, texts by their first difference. */
  ghost predicate IdentifierBelow(a: Identifier, b: Identifier) {
    match (a, b)
    case (Numeric(m), Numeric(n)) => m < n
    case (Numeric(_), Alphanumeric(_)) => true
    case (Alphanumeric(_), Numeric(_)) => false
    case (Alphanumeric(s), Alphanumeric(t)) => exists k: nat :: TextBelow(s, t, k)
  }

  /** The first `k` identifiers agree, and the next decides, or the shorter list comes first. */
  ghost predicate PrereleaseBelow(a: seq<Identifier>, b: seq<Identifier>, k: nat) {
    && k <= |a| && k <= |b| && a[..k] == b[..k]
    && if k < |a| && k < |b| then IdentifierBelow(a[k], b[k]) else k == |a| && k < |b|
  }

  /** Section 11 of SemVer 2.0.0, clause by clause. */
  ghost predicate Precedes(a: Version, b: Version) {
    || a.major < b.major
    || (a.major == b.major && a.minor < b.minor)
    || (a.major == b.major && a.minor == b.minor && a.patch < b.patch)
    || (a.major == b.major && a.minor == b.minor && a.patch == b.patch && a.prerelease != [] &&
        (b.prerelease == [] || exists k: nat :: PrereleaseBelow(a.prerelease, b.prerelease, k)))
  }

  lemma IdentifierBelowIff(a: Identifier, b: Identifier)
    ensures CompareIdentifier(a, b) == -1 <==> IdentifierBelow(a, b)
  {
    if a.Alphanumeric? && b.Alphanumeric? {
      TextBelowIff(a.text, b.text);
    }
  }

  lemma PrereleaseBelowIff(a: seq<Identifier>, b: seq<Identifier>)
    ensures CompareSeq(CompareIdentifier, a, b) == -1 <==> exists k: nat :: PrereleaseBelow(a, b, k)
  {
    IdentifierOrder();
    SeqLessMeans(CompareIdentifier, a, b);
    forall k: nat ensures FirstDifference(CompareIdentifier, a, b, k) <==> PrereleaseBelow(a, b, k) {
      if k < |a| && k < |b| {
        IdentifierBelowIff(a[k], b[k]);
      }
    }
  }

  /** The comparison gives each of its three answers exactly by precedence. */
  lemma ComparesByPrecedence(a: Version, b: Version)
    ensures CompareVersion(a, b) == -1 <==> Precedes(a, b)
    ensures CompareVersion(a, b) == 1 <==> Precedes(b, a)
    ensures CompareVersion(a, b) == 0 <==> a == b
  {
    VersionAntisymmetric(a, b);
    PrereleaseBelowIff(a.prerelease, b.prerelease);
    PrereleaseBelowIff(b.prerelease, a.prerelease);
  }

  /** The text, up to any build metadata, is the version written out. */
  ghost predicate Denotes(s: string, v: Version) {
    RenderVersion(v) == Before(s, '+') && forall i :: i in v.prerelease ==> Canonical(i)
  }

  lemma ParsesIff(s: string, v: Version)
    ensures ParseVersion(s) == Some(v) <==> Denotes(s, v)
  {
    if ParseVersion(s) == Some(v) {
      VersionRoundTrip(s);
      ParsedVersionCanonical(s);
    }
    if Denotes(s, v) {
      RenderedParses(v);
      PartitionJoins(s, '+');
      CutNowhere(Before(s, '+'), '+');
    }
  }

  ghost predicate IsVersion(s: string) {
    exists v :: Denotes(s, v)
  }

  lemma IsVersionIff(s: string)
    ensures IsVersion(s) <==> ParseVersion(s).Some?
    ensures ParseVersion(s).Some? ==> forall v :: Denotes(s, v) <==> v == ParseVersion(s).value
  {
    forall v ensures Denotes(s, v) <==> ParseVersion(s) == Some(v) {
      ParsesIff(s, v);
    }
    if ParseVersion(s).Some? {
      assert Denotes(s, ParseVersion(s).value);
    }
  }

  /** Every answer of the comparison, in terms of the texts: one that is no version makes it -1 on either side. */
  lemma CompareMeans(x: string, y: string)
    ensures CompareSemver(x, y) == -1 <==>
            !IsVersion(x) || !IsVersion(y) || exists v, w :: Denotes(x, v) && Denotes(y, w) && Precedes(v, w)
    ensures CompareSemver(x, y) == 1 <==> exists v, w :: Denotes(x, v) && Denotes(y, w) && Precedes(w, v)
    ensures CompareSemver(x, y) == 0 <==> exists v :: Denotes(x, v) && Denotes(y, v)
  {
    IsVersionIff(x);
    IsVersionIff(y);
    if ParseVersion(x).Some? && ParseVersion(y).Some? {
      var v, w := ParseVersion(x).value, ParseVersion(y).value;
      ComparesByPrecedence(v, w);
      assert Denotes(x, v) && Denotes(y, w);
    }
  }

  /** On texts that parse the comparison is a total order that ignores build metadata only. */
  lemma SemverOrder(x: string, y: string, z: string)
    requires ParseVersion(x).Some? && ParseVersion(y).Some? && ParseVersion(z).Some?
    ensures CompareSemver(x, y) == -CompareSemver(y, x)
    ensures CompareSemver(x, y) == 0 <==> Before(x, '+') == Before(y, '+')
    ensures CompareSemver(x, y) <= 0 && CompareSemver(y, z) <= 0 ==> CompareSemver(x, z) <= 0
    ensures CompareSemver(x, y) == -1 <==> Precedes(ParseVersion(x).value, ParseVersion(y).value)
  {
    var a, b, c := ParseVersion(x).value, ParseVersion(y).value, ParseVersion(z).value;
    VersionAntisymmetric(a, b);
    VersionAntisymmetric(b, c);
    VersionAntisymmetric(a, c);
    if CompareVersion(a, b) == -1 && CompareVersion(b, c) == -1 {
      VersionTransitive(a, b, c);
    }
    ComparesByPrecedence(a, b);
    VersionRoundTrip(x);
    VersionRoundTrip(y);
    if Before(x, '+') == Before(y, '+') {
      assert ParseVersion(x) == ParseVersion(y);
    }
  }
}
