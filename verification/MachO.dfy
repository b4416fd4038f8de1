/**
 The Mach-O normalizer of the benchmark script: it zeroes the UUID and the code signature
 of a thin binary so that two builds can be compared byte by byte.
 */
module MachO {
  import opened Basics

  // ----- reading -----

  function LittleEndian(b: seq<Byte>): nat {
    if b == [] then 0 else b[0] + 256 * LittleEndian(b[1..])
  }

  /** A slice is cut off at the end of the buffer. */
  function Slice(raw: seq<Byte>, lo: nat, hi: nat): seq<Byte>
    requires lo <= hi
  {
    if hi <= |raw| then raw[lo..hi] else if lo <= |raw| then raw[lo..] else []
  }

  function ByteAt(raw: seq<Byte>, k: nat): nat {
    if k < |raw| then raw[k] else 0
  }

  /** A little-endian word; bytes past the end count as zero. */
  function Word(raw: seq<Byte>, offset: nat): nat {
    ByteAt(raw, offset) + 0x100 * ByteAt(raw, offset + 1) +
    0x1_0000 * ByteAt(raw, offset + 2) + 0x100_0000 * ByteAt(raw, offset + 3)
  }

  /** A word is the number in the slice the source decodes, also when the slice is cut short. */
  lemma WordDecodesSlice(raw: seq<Byte>, offset: nat)
    ensures Word(raw, offset) == LittleEndian(Slice(raw, offset, offset + 4))
  {
    LittleEndianFrom(raw, offset, 4);
    LittleEndianFrom(raw, offset + 1, 3);
    LittleEndianFrom(raw, offset + 2, 2);
    LittleEndianFrom(raw, offset + 3, 1);
    assert Slice(raw, offset + 4, offset + 4) == [];
  }

  lemma LittleEndianFrom(raw: seq<Byte>, offset: nat, n: nat)
    requires n > 0
    ensures LittleEndian(Slice(raw, offset, offset + n)) ==
            ByteAt(raw, offset) + 256 * LittleEndian(Slice(raw, offset + 1, offset + n))
  {
    if offset < |raw| {
      assert Slice(raw, offset, offset + n)[1..] == Slice(raw, offset + 1, offset + n);
    }
  }

  const MAGIC_64: seq<Byte> := [0xCF, 0xFA, 0xED, 0xFE]
  const MAGIC_32: seq<Byte> := [0xCE, 0xFA, 0xED, 0xFE]

  predicate IsThin(raw: seq<Byte>) {
    |raw| >= 4 && (raw[..4] == MAGIC_64 || raw[..4] == MAGIC_32)
  }

  function HeaderSize(raw: seq<Byte>): nat
    requires IsThin(raw)
  {
    if raw[..4] == MAGIC_64 then 32 else 28
  }

  /** The command at `cursor` has a readable header and fits the buffer. */
  predicate Fits(raw: seq<Byte>, cursor: nat) {
    cursor + 8 <= |raw| && Word(raw, cursor + 4) >= 8 && cursor + Word(raw, cursor + 4) <= |raw|
  }

  /** The cursors of the commands the loop walks before it breaks or runs out of commands. */
  function Walk(raw: seq<Byte>, cursor: nat, remaining: nat): seq<nat>
    decreases remaining
  {
    if remaining == 0 || !Fits(raw, cursor) then []
    else [cursor] + Walk(raw, cursor + Word(raw, cursor + 4), remaining - 1)
  }

  function Commands(raw: seq<Byte>): seq<nat>
    requires IsThin(raw)
  {
    Walk(raw, HeaderSize(raw), Word(raw, 16))
  }

  const UUID: nat := 0x1B
  const CODE_SIGNATURE: nat := 0x1D

  predicate IsSignature(raw: seq<Byte>, c: nat) {
    Word(raw, c) == CODE_SIGNATURE && Word(raw, c + 4) >= 16
  }

  /** The bytes a command makes the normalizer clear, from the first to before the second. */
  function Cleared(raw: seq<Byte>, c: nat): (r: (nat, nat))
    requires Fits(raw, c)
    ensures r.0 <= r.1 <= |raw|
  {
    if Word(raw, c) == UUID && Word(raw, c + 4) >= 24 then (c + 8, c + 24)
    else if IsSignature(raw, c) && Word(raw, c + 8) < |raw| then
      var end := Word(raw, c + 8) + Word(raw, c + 12);
      (Word(raw, c + 8), if end < |raw| then end else |raw|)
    else (0, 0)
  }

  predicate Clears(raw: seq<Byte>, c: nat, k: nat) {
    Fits(raw, c) && Cleared(raw, c).0 <= k < Cleared(raw, c).1
  }

  predicate ClearedBy(raw: seq<Byte>, commands: seq<nat>, k: nat) {
    exists c :: c in commands && Clears(raw, c, k)
  }

  /** Only UUID bodies and signature ranges change, and only to zero. */
  ghost predicate IsCleared(raw: seq<Byte>, commands: seq<nat>, r: seq<Byte>) {
    |r| == |raw| && forall k :: 0 <= k < |raw| ==> r[k] == if ClearedBy(raw, commands, k) then 0 else raw[k]
  }

  ghost function Normalize(raw: seq<Byte>): (r: seq<Byte>)
    ensures |r| == |raw|
    ensures !IsThin(raw) ==> r == raw
    ensures IsThin(raw) ==> IsCleared(raw, Commands(raw), r)
  {
    if !IsThin(raw) then raw
    else seq(|raw|, k requires 0 <= k < |raw| => if ClearedBy(raw, Commands(raw), k) then 0 else raw[k])
  }

  // ----- the normalizer as written -----

  method ClearRange(a: array<Byte>, lo: nat, hi: nat)
    requires lo <= hi <= a.Length
    modifies a
    ensures forall k :: 0 <= k < a.Length ==> a[k] == if lo <= k < hi then 0 else old(a[k])
  {
    for i := lo to hi
      invariant forall k :: 0 <= k < a.Length ==> a[k] == if lo <= k < i then 0 else old(a[k])
    {
      a[i] := 0;
    }
  }

  /** Edits a copy in place while reading the original; the result is the normal form. */
  method NormalizedMachO(raw: seq<Byte>) returns (r: seq<Byte>)
    ensures r == Normalize(raw)
  {
    if !IsThin(raw) {
      return raw;
    }
    var normalized := new Byte[|raw|](i requires 0 <= i < |raw| => raw[i]);
    assert normalized[..] == raw;
    ClearCommands(raw, normalized, HeaderSize(raw), Word(raw, 16));
    r := normalized[..];
    NormalizeUnique(raw, r);
  }

  method ClearCommands(raw: seq<Byte>, normalized: array<Byte>, start: nat, count: nat)
    requires IsCleared(raw, [], normalized[..])
    modifies normalized
    ensures IsCleared(raw, Walk(raw, start, count), normalized[..])
  {
    var cursor: nat := start;
    ghost var walked: seq<nat> := [];
    for i := 0 to count
      invariant Walk(raw, start, count) == walked + Walk(raw, cursor, count - i)
      invariant IsCleared(raw, walked, normalized[..])
    {
      var size := SizeAt(raw, cursor);
      if size.None? {
        assert Walk(raw, cursor, count - i) == [];
        break;
      }
      ClearCommand(raw, walked, cursor, normalized);
      WalkStep(raw, walked, cursor, count - i);
      walked := walked + [cursor];
      cursor := cursor + size.value;
    }
    assert walked + [] == walked;
  }

  /** The size of the command at `cursor`, or `None` where the walk breaks off. */
  method SizeAt(raw: seq<Byte>, cursor: nat) returns (size: Option<nat>)
    ensures size == if Fits(raw, cursor) then Some(Word(raw, cursor + 4)) else None
  {
    if cursor + 8 > |raw| {
      return None;
    }
    var commandSize := Word(raw, cursor + 4);
    if commandSize < 8 || cursor + commandSize > |raw| {
      return None;
    }
    size := Some(commandSize);
  }

  method ClearCommand(raw: seq<Byte>, ghost walked: seq<nat>, c: nat, normalized: array<Byte>)
    requires Fits(raw, c) && IsCleared(raw, walked, normalized[..])
    modifies normalized
    ensures IsCleared(raw, walked + [c], normalized[..])
  {
    ClearRangeOf(raw, c, normalized);
    ClearedSnoc(raw, walked, c, old(normalized[..]), normalized[..]);
  }

  method ClearRangeOf(raw: seq<Byte>, c: nat, normalized: array<Byte>)
    requires Fits(raw, c) && normalized.Length == |raw|
    modifies normalized
    ensures forall k :: 0 <= k < |raw| ==>
              normalized[k] == if Cleared(raw, c).0 <= k < Cleared(raw, c).1 then 0 else old(normalized[k])
  {
    var command, size := Word(raw, c), Word(raw, c + 4);
    if command == UUID && size >= 24 {
      ClearRange(normalized, c + 8, c + 24);
    } else if command == CODE_SIGNATURE && size >= 16 {
      var dataOffset, dataSize := Word(raw, c + 8), Word(raw, c + 12);
      if dataOffset < |raw| {
        var end := if dataOffset + dataSize < |raw| then dataOffset + dataSize else |raw|;
        ClearRange(normalized, dataOffset, end);
      }
    }
  }

  lemma WalkStep(raw: seq<Byte>, walked: seq<nat>, cursor: nat, remaining: nat)
    requires remaining > 0 && Fits(raw, cursor)
    ensures walked + Walk(raw, cursor, remaining) ==
            walked + [cursor] + Walk(raw, cursor + Word(raw, cursor + 4), remaining - 1)
  {
  }

  lemma NormalizeUnique(raw: seq<Byte>, r: seq<Byte>)
    requires IsThin(raw) && IsCleared(raw, Commands(raw), r)
    ensures r == Normalize(raw)
  {
    assert forall k :: 0 <= k < |raw| ==> r[k] == Normalize(raw)[k];
  }

  lemma ClearedSnoc(raw: seq<Byte>, walked: seq<nat>, c: nat, before: seq<Byte>, after: seq<Byte>)
    requires Fits(raw, c) && IsCleared(raw, walked, before) && |after| == |raw|
    requires forall k :: 0 <= k < |raw| ==>
               after[k] == if Cleared(raw, c).0 <= k < Cleared(raw, c).1 then 0 else before[k]
    ensures IsCleared(raw, walked + [c], after)
  {
    forall k | 0 <= k < |raw| ensures after[k] == if ClearedBy(raw, walked + [c], k) then 0 else raw[k] {
      assert ClearedBy(raw, walked + [c], k) <==> ClearedBy(raw, walked, k) || Clears(raw, c, k) by {
        if ClearedBy(raw, walked, k) {
          var d :| d in walked && Clears(raw, d, k);
          assert d in walked + [c];
        }
        assert c in walked + [c];
      }
    }
  }

  // ----- the normal form, from the layout of the image -----

  /** The magic number of a thin image, and where its first command starts. */
  ghost predicate Starts(raw: seq<Byte>, first: nat) {
    && |raw| >= 4 && raw[1] == 0xFA && raw[2] == 0xED && raw[3] == 0xFE
    && ((raw[0] == 0xCF && first == 32) || (raw[0] == 0xCE && first == 28))
  }

  ghost predicate CommandAt(raw: seq<Byte>, c: nat) {
    c + 8 <= |raw| && 8 <= Word(raw, c + 4) <= |raw| - c
  }

  /**
   The cursors at which commands stand, each right behind the one before, and last the cursor behind
   them all: as many as announced, or up to the first that is no command.
   */
  ghost predicate LaysOut(raw: seq<Byte>, first: nat, announced: nat, cursors: seq<nat>) {
    && 1 <= |cursors| <= announced + 1 && cursors[0] == first
    && (forall i :: 0 <= i < |cursors| - 1 ==>
          CommandAt(raw, cursors[i]) && cursors[i + 1] == cursors[i] + Word(raw, cursors[i] + 4))
    && (|cursors| == announced + 1 || !CommandAt(raw, cursors[|cursors| - 1]))
  }

  /** Byte `k` is in the identifier or in the signature that the command at `c` gives. */
  ghost predicate Volatile(raw: seq<Byte>, c: nat, k: nat) {
    || (Word(raw, c) == 0x1B && Word(raw, c + 4) >= 24 && c + 8 <= k < c + 24)
    || (Word(raw, c) == 0x1D && Word(raw, c + 4) >= 16 &&
        Word(raw, c + 8) <= k < Word(raw, c + 8) + Word(raw, c + 12))
  }

  lemma StartsIff(raw: seq<Byte>, first: nat)
    ensures Starts(raw, first) <==> IsThin(raw) && HeaderSize(raw) == first
  {
    if |raw| >= 4 {
      assert raw[..4] == [raw[0], raw[1], raw[2], raw[3]];
    }
  }

  lemma ClearsIff(raw: seq<Byte>, c: nat, k: nat)
    ensures Clears(raw, c, k) <==> CommandAt(raw, c) && Volatile(raw, c, k) && k < |raw|
  {
  }

  lemma {:induction false} WalkLaysOut(raw: seq<Byte>, first: nat, announced: nat) returns (cursors: seq<nat>)
    ensures LaysOut(raw, first, announced, cursors)
    decreases announced
  {
    cursors := [first];
    if announced > 0 && Fits(raw, first) {
      var rest := WalkLaysOut(raw, first + Word(raw, first + 4), announced - 1);
      cursors := [first] + rest;
    }
  }

  lemma {:induction false} LaidOutIsWalked(raw: seq<Byte>, first: nat, announced: nat, cursors: seq<nat>)
    requires LaysOut(raw, first, announced, cursors)
    ensures Walk(raw, first, announced) == cursors[..|cursors| - 1]
    decreases announced
  {
    if |cursors| > 1 {
      assert CommandAt(raw, cursors[0]);
      LaidOutIsWalked(raw, cursors[1], announced - 1, cursors[1..]);
      assert cursors[..|cursors| - 1] == [first] + cursors[1..][..|cursors| - 2];
    } else {
      assert cursors == [first];
    }
  }

  ghost predicate SomeVolatile(raw: seq<Byte>, commands: seq<nat>, k: nat) {
    exists c :: c in commands && CommandAt(raw, c) && Volatile(raw, c, k)
  }

  ghost predicate OnlyVolatileCleared(raw: seq<Byte>, commands: seq<nat>, r: seq<Byte>) {
    |r| == |raw| && forall k :: 0 <= k < |raw| ==> r[k] == if SomeVolatile(raw, commands, k) then 0 else raw[k]
  }

  lemma ClearedAreVolatile(raw: seq<Byte>)
    requires IsThin(raw)
    ensures OnlyVolatileCleared(raw, Commands(raw), Normalize(raw))
  {
    forall k | 0 <= k < |raw|
      ensures ClearedBy(raw, Commands(raw), k) <==> SomeVolatile(raw, Commands(raw), k)
    {
      forall c: nat ensures Clears(raw, c, k) <==> CommandAt(raw, c) && Volatile(raw, c, k) {
        ClearsIff(raw, c, k);
      }
    }
  }

  /** The commands of a thin image are laid out somehow; however they are, exactly their volatile bytes become zero. */
  lemma NormalizeMeans(raw: seq<Byte>, first: nat)
    requires Starts(raw, first)
    ensures exists cursors :: LaysOut(raw, first, Word(raw, 16), cursors)
    ensures forall cursors :: LaysOut(raw, first, Word(raw, 16), cursors) ==>
              OnlyVolatileCleared(raw, cursors[..|cursors| - 1], Normalize(raw))
  {
    StartsIff(raw, first);
    var _ := WalkLaysOut(raw, first, Word(raw, 16));
    forall cursors | LaysOut(raw, first, Word(raw, 16), cursors)
      ensures OnlyVolatileCleared(raw, cursors[..|cursors| - 1], Normalize(raw))
    {
      LaidOutIsWalked(raw, first, Word(raw, 16), cursors);
      ClearedAreVolatile(raw);
    }
  }

  /** An image without either magic number stays as it is. */
  lemma OthersStay(raw: seq<Byte>)
    requires forall first :: !Starts(raw, first)
    ensures Normalize(raw) == raw
  {
    if IsThin(raw) {
      StartsIff(raw, HeaderSize(raw));
    }
  }

  // ----- normalizing twice -----

  /** The walk from `cursor` looks at byte `k`: a header, or the range of a signature. */
  ghost predicate Reads(raw: seq<Byte>, cursor: nat, remaining: nat, k: nat)
    decreases remaining
  {
    remaining > 0 && cursor + 8 <= |raw| &&
    (|| cursor <= k < cursor + 8
     || (Fits(raw, cursor) && IsSignature(raw, cursor) && cursor + 8 <= k < cursor + 16)
     || (Fits(raw, cursor) && Reads(raw, cursor + Word(raw, cursor + 4), remaining - 1, k)))
  }

  lemma SameWord(a: seq<Byte>, b: seq<Byte>, offset: nat)
    requires |a| == |b| && forall k :: offset <= k < offset + 4 && k < |a| ==> a[k] == b[k]
    ensures Word(a, offset) == Word(b, offset)
  {
  }

  ghost predicate SameClears(a: seq<Byte>, b: seq<Byte>, c: nat) {
    forall k :: Clears(a, c, k) <==> Clears(b, c, k)
  }

  lemma SameCommand(a: seq<Byte>, b: seq<Byte>, c: nat)
    requires |a| == |b| && c + 8 <= |a|
    requires forall k :: c <= k < c + 8 ==> a[k] == b[k]
    requires Fits(a, c) && IsSignature(a, c) ==> forall k :: c + 8 <= k < c + 16 ==> a[k] == b[k]
    ensures Word(a, c + 4) == Word(b, c + 4) && (Fits(a, c) <==> Fits(b, c))
    ensures SameClears(a, b, c)
  {
    SameWord(a, b, c);
    SameWord(a, b, c + 4);
    if Fits(a, c) && IsSignature(a, c) {
      SameWord(a, b, c + 8);
      SameWord(a, b, c + 12);
    }
  }

  /** Buffers that agree on what the walk reads are walked alike and cleared alike. */
  lemma {:induction false} SameWalk(a: seq<Byte>, b: seq<Byte>, cursor: nat, remaining: nat)
    requires |a| == |b| && forall k :: 0 <= k < |a| && Reads(a, cursor, remaining, k) ==> a[k] == b[k]
    ensures Walk(a, cursor, remaining) == Walk(b, cursor, remaining)
    ensures forall c :: c in Walk(a, cursor, remaining) ==> SameClears(a, b, c)
    decreases remaining
  {
    if remaining > 0 && cursor + 8 <= |a| {
      forall k | cursor <= k < cursor + 8 ensures a[k] == b[k] {
        assert Reads(a, cursor, remaining, k);
      }
      if Fits(a, cursor) && IsSignature(a, cursor) {
        forall k | cursor + 8 <= k < cursor + 16 ensures a[k] == b[k] {
          assert Reads(a, cursor, remaining, k);
        }
      }
      SameCommand(a, b, cursor);
      if Fits(a, cursor) {
        var next := cursor + Word(a, cursor + 4);
        forall k | 0 <= k < |a| && Reads(a, next, remaining - 1, k) ensures a[k] == b[k] {
          assert Reads(a, cursor, remaining, k);
        }
        SameWalk(a, b, next, remaining - 1);
      }
    }
  }

  // ----- exactly when normalizing again changes nothing -----

  /** An image is in normal form exactly when it is not thin or holds only zeros where it would be cleared. */
  lemma NormalIff(x: seq<Byte>)
    ensures Normalize(x) == x <==>
            !IsThin(x) || forall k :: 0 <= k < |x| && ClearedBy(x, Commands(x), k) ==> x[k] == 0
  {
    if IsThin(x) {
      var n := Normalize(x);
      if n == x {
        forall k | 0 <= k < |x| && ClearedBy(x, Commands(x), k) ensures x[k] == 0 {
          assert n[k] == 0;
        }
      } else {
        var k :| 0 <= k < |x| && n[k] != x[k];
        assert ClearedBy(x, Commands(x), k);
      }
    }
  }

  ghost predicate MagicCleared(raw: seq<Byte>)
    requires IsThin(raw)
  {
    exists k :: 0 <= k < 4 && ClearedBy(raw, Commands(raw), k)
  }

  /** Clearing any magic byte ends the image's being thin. */
  lemma ThinUnlessMagicCleared(raw: seq<Byte>)
    requires IsThin(raw)
    ensures IsThin(Normalize(raw)) <==> !MagicCleared(raw)
  {
    var n := Normalize(raw);
    if MagicCleared(raw) {
      var k :| 0 <= k < 4 && ClearedBy(raw, Commands(raw), k);
      ZeroMagicNotThin(n, k);
    } else {
      assert forall k :: 0 <= k < 4 ==> n[k] == raw[k];
      SameMagic(raw, n);
    }
  }

  lemma ZeroMagicNotThin(x: seq<Byte>, k: nat)
    requires |x| >= 4 && k < 4 && x[k] == 0
    ensures !IsThin(x)
  {
    assert x[..4][k] == 0 && MAGIC_64[k] != 0 && MAGIC_32[k] != 0;
  }

  lemma SameMagic(a: seq<Byte>, b: seq<Byte>)
    requires |a| == |b| && IsThin(a) && forall k :: 0 <= k < 4 ==> b[k] == a[k]
    ensures IsThin(b)
  {
    assert b[..4] == a[..4];
  }

  /** What the commands of the cleared image name was cleared before or is zero. */
  ghost predicate ClearsNothingNew(raw: seq<Byte>)
    requires IsThin(raw)
  {
    var n := Normalize(raw);
    IsThin(n) ==>
      forall k :: 0 <= k < |raw| && ClearedBy(n, Commands(n), k) ==> ClearedBy(raw, Commands(raw), k) || raw[k] == 0
  }

  lemma IdempotentIff(raw: seq<Byte>)
    ensures Normalize(Normalize(raw)) == Normalize(raw) <==>
            !IsThin(raw) || MagicCleared(raw) || ClearsNothingNew(raw)
  {
    if IsThin(raw) {
      var n := Normalize(raw);
      ThinUnlessMagicCleared(raw);
      NormalIff(n);
      if IsThin(n) {
        forall k | 0 <= k < |raw| ensures n[k] == 0 <==> ClearedBy(raw, Commands(raw), k) || raw[k] == 0 {
        }
      }
    }
  }

  // ----- a sufficient condition on the input alone -----

  /** Nothing the walk reads changes: what is cleared there is zero already. */
  ghost predicate Undisturbed(raw: seq<Byte>)
    requires IsThin(raw)
  {
    forall k :: 0 <= k < |raw| && ClearedBy(raw, Commands(raw), k) && raw[k] != 0 ==>
      !Reads(raw, HeaderSize(raw), Word(raw, 16), k)
  }

  lemma {:induction false} ShorterWalk(raw: seq<Byte>, cursor: nat, fewer: nat, remaining: nat)
    requires fewer <= remaining
    ensures Walk(raw, cursor, fewer) <= Walk(raw, cursor, remaining)
    decreases remaining
  {
    if fewer > 0 && Fits(raw, cursor) {
      ShorterWalk(raw, cursor + Word(raw, cursor + 4), fewer - 1, remaining - 1);
    }
  }

  lemma ClearingLowersWord(a: seq<Byte>, b: seq<Byte>, offset: nat)
    requires |a| == |b| && forall k :: 0 <= k < |a| ==> b[k] == a[k] || b[k] == 0
    ensures Word(b, offset) <= Word(a, offset)
  {
    ClearingLowersByte(a, b, offset);
    ClearingLowersByte(a, b, offset + 1);
    ClearingLowersByte(a, b, offset + 2);
    ClearingLowersByte(a, b, offset + 3);
  }

  lemma ClearingLowersByte(a: seq<Byte>, b: seq<Byte>, k: nat)
    requires |a| == |b| && forall k :: 0 <= k < |a| ==> b[k] == a[k] || b[k] == 0
    ensures ByteAt(b, k) <= ByteAt(a, k)
  {
  }

  /**
   Then normalizing again changes nothing. A cleared magic ends the matter; a lowered command
   count only shortens the second walk.
   */
  lemma UndisturbedIsIdempotent(raw: seq<Byte>)
    requires IsThin(raw) && Undisturbed(raw)
    ensures Normalize(Normalize(raw)) == Normalize(raw)
  {
    IdempotentIff(raw);
    if !MagicCleared(raw) {
      SecondWalkRepeats(raw);
    }
  }

  lemma SecondWalkRepeats(raw: seq<Byte>)
    requires IsThin(raw) && Undisturbed(raw) && !MagicCleared(raw)
    ensures ClearsNothingNew(raw)
  {
    var n, h, count := Normalize(raw), HeaderSize(raw), Word(raw, 16);
    ThinUnlessMagicCleared(raw);
    assert n[..4] == raw[..4];
    SameWalk(raw, n, h, count);
    ClearingLowersWord(raw, n, 16);
    ShorterWalk(n, h, Word(n, 16), count);
    forall k | 0 <= k < |raw| && ClearedBy(n, Commands(n), k) ensures ClearedBy(raw, Commands(raw), k) {
      var c :| c in Commands(n) && Clears(n, c, k);
      assert c in Commands(raw) && SameClears(raw, n, c);
    }
  }

  // ----- the usual case: signatures lie after the load commands -----

  /** Where the walk stops. */
  ghost function End(raw: seq<Byte>, cursor: nat, remaining: nat): nat
    decreases remaining
  {
    if remaining == 0 || !Fits(raw, cursor) then cursor
    else End(raw, cursor + Word(raw, cursor + 4), remaining - 1)
  }

  lemma {:induction false} WalkBounds(raw: seq<Byte>, cursor: nat, remaining: nat)
    ensures cursor <= End(raw, cursor, remaining)
    ensures forall c :: c in Walk(raw, cursor, remaining) ==>
            cursor <= c && c + Word(raw, c + 4) <= End(raw, cursor, remaining)
    decreases remaining
  {
    if remaining > 0 && Fits(raw, cursor) {
      WalkBounds(raw, cursor + Word(raw, cursor + 4), remaining - 1);
    }
  }

  /** All declared commands were walked, and every signature range starts at or after their end. */
  ghost predicate SignaturesLast(raw: seq<Byte>)
    requires IsThin(raw)
  {
    && |Commands(raw)| == Word(raw, 16)
    && forall c :: c in Commands(raw) && IsSignature(raw, c) ==>
         Word(raw, c + 8) >= End(raw, HeaderSize(raw), Word(raw, 16))
  }

  /** What the walk reads lies before its end, and no UUID body is among it. */
  lemma {:induction false} ReadsSpareBodies(raw: seq<Byte>, cursor: nat, remaining: nat, k: nat)
    requires |Walk(raw, cursor, remaining)| == remaining && Reads(raw, cursor, remaining, k)
    ensures cursor <= k < End(raw, cursor, remaining)
    ensures forall c :: c in Walk(raw, cursor, remaining) && Word(raw, c) == UUID ==>
            !(c + 8 <= k < c + 24 && Word(raw, c + 4) >= 24)
    decreases remaining
  {
    var next := cursor + Word(raw, cursor + 4);
    WalkBounds(raw, cursor, remaining);
    assert Fits(raw, cursor);
    WalkBounds(raw, next, remaining - 1);
    if Reads(raw, next, remaining - 1, k) {
      ReadsSpareBodies(raw, next, remaining - 1, k);
    }
  }

  lemma SignaturesLastUndisturbed(raw: seq<Byte>)
    requires IsThin(raw) && SignaturesLast(raw)
    ensures Undisturbed(raw)
  {
    var h, n := HeaderSize(raw), Word(raw, 16);
    WalkBounds(raw, h, n);
    forall k | 0 <= k < |raw| && ClearedBy(raw, Commands(raw), k)
      ensures !Reads(raw, h, n, k)
    {
      var c :| c in Commands(raw) && Clears(raw, c, k);
      if Reads(raw, h, n, k) {
        ReadsSpareBodies(raw, h, n, k);
      }
    }
  }

  lemma SignaturesLastIdempotent(raw: seq<Byte>)
    requires IsThin(raw) && SignaturesLast(raw)
    ensures Normalize(Normalize(raw)) == Normalize(raw)
  {
    SignaturesLastUndisturbed(raw);
    UndisturbedIsIdempotent(raw);
  }

  // ----- in general: repetition settles -----

  /** A thin header with one signature command at 28 whose range starts inside the command itself. */
  ghost function SelfClearingByte(k: nat): Byte {
    if k == 0 then 0xCE else if k == 1 then 0xFA else if k == 2 then 0xED else if k == 3 then 0xFE
    else if k == 16 then 1 else if k == 28 then 0x1D else if k == 32 then 16 else if k == 36 then 36
    else if k == 40 then 1 else 0
  }

  ghost function SelfClearing(): seq<Byte> {
    seq(44, k requires 0 <= k < 44 => SelfClearingByte(k))
  }

  ghost function Repeat(step: seq<Byte> -> seq<Byte>, raw: seq<Byte>, n: nat): seq<Byte>
    decreases n
  {
    if n == 0 then raw else Repeat(step, step(raw), n - 1)
  }

  function NonZero(raw: seq<Byte>): nat {
    if raw == [] then 0 else NonZero(raw[..|raw| - 1]) + if raw[|raw| - 1] != 0 then 1 else 0
  }

  /** Clearing bytes lowers the number of non-zero bytes unless nothing changes. */
  lemma {:induction false} ClearingCounts(a: seq<Byte>, b: seq<Byte>)
    requires |a| == |b| && forall k :: 0 <= k < |a| ==> b[k] == a[k] || b[k] == 0
    ensures NonZero(b) <= NonZero(a) && (NonZero(b) == NonZero(a) ==> a == b)
  {
    if a == [] {
    } else {
      var n := |a| - 1;
      ClearingCounts(a[..n], b[..n]);
      assert a == a[..n] + [a[n]] && b == b[..n] + [b[n]];
    }
  }

  /** A step that never adds non-zero bytes and removes one unless it changes nothing. */
  ghost predicate Clearing(step: seq<Byte> -> seq<Byte>) {
    forall raw: seq<Byte> ::
      NonZero(step(raw)) <= NonZero(raw) && (NonZero(step(raw)) == NonZero(raw) ==> step(raw) == raw)
  }

  lemma {:induction false} ClearingSettles(step: seq<Byte> -> seq<Byte>, raw: seq<Byte>) returns (n: nat)
    requires Clearing(step)
    ensures n <= NonZero(raw) && step(Repeat(step, raw, n)) == Repeat(step, raw, n)
    decreases NonZero(raw)
  {
    if step(raw) == raw {
      n := 0;
    } else {
      var m := ClearingSettles(step, step(raw));
      n := m + 1;
    }
  }

  lemma PassCounts(raw: seq<Byte>)
    ensures NonZero(Normalize(raw)) <= NonZero(raw)
    ensures NonZero(Normalize(raw)) == NonZero(raw) ==> Normalize(raw) == raw
  {
    var once := Normalize(raw);
    assert forall k :: 0 <= k < |raw| ==> once[k] == raw[k] || once[k] == 0;
    ClearingCounts(raw, once);
  }

  /** Repeating the normalizer reaches a fixed point within as many passes as there are non-zero bytes. */
  lemma RepetitionSettles(raw: seq<Byte>) returns (n: nat)
    ensures n <= NonZero(raw)
    ensures Normalize(Repeat(x => Normalize(x), raw, n)) == Repeat(x => Normalize(x), raw, n)
  {
    var step: seq<Byte> -> seq<Byte> := x => Normalize(x);
    forall x: seq<Byte>
      ensures NonZero(step(x)) <= NonZero(x) && (NonZero(step(x)) == NonZero(x) ==> step(x) == x)
    {
      PassCounts(x);
    }
    n := ClearingSettles(step, raw);
  }

  lemma SelfClearingWord(raw: seq<Byte>, offset: nat)
    requires raw == SelfClearing() && offset + 4 <= |raw|
    requires raw[offset + 1] == 0 && raw[offset + 2] == 0 && raw[offset + 3] == 0
    ensures Word(raw, offset) == raw[offset]
  {
  }

  lemma SelfClearingWords(raw: seq<Byte>)
    requires raw == SelfClearing()
    ensures |raw| == 44 && raw[..4] == MAGIC_32
    ensures Word(raw, 16) == 1 && Word(raw, 28) == CODE_SIGNATURE && Word(raw, 32) == 16
    ensures Word(raw, 36) == 36 && Word(raw, 40) == 1
  {
    SelfClearingWord(raw, 16);
    SelfClearingWord(raw, 28);
    SelfClearingWord(raw, 32);
    SelfClearingWord(raw, 36);
    SelfClearingWord(raw, 40);
  }

  /** Without the condition on signatures, normalizing twice can differ from normalizing once. */
  lemma SelfClearingNotIdempotent()
    ensures IsThin(SelfClearing()) && !SignaturesLast(SelfClearing())
    ensures Normalize(Normalize(SelfClearing())) != Normalize(SelfClearing())
  {
    var raw := SelfClearing();
    SelfClearingWords(raw);
    FirstPass(raw);
    assert 28 in Commands(raw) && IsSignature(raw, 28);
    SecondPass(raw, Normalize(raw));
  }

  lemma FirstPass(raw: seq<Byte>)
    requires raw == SelfClearing()
    ensures IsThin(raw) && HeaderSize(raw) == 28 && Commands(raw) == [28] && End(raw, 28, 1) == 44
    ensures Normalize(raw) == raw[36 := 0]
  {
    SelfClearingWords(raw);
    assert MAGIC_32 != MAGIC_64 by { assert MAGIC_32[0] != MAGIC_64[0]; }
    assert Walk(raw, 44, 0) == [];
    assert Commands(raw) == [28];
    forall k | 0 <= k < |raw| ensures Normalize(raw)[k] == raw[36 := 0][k] {
      assert 28 in Commands(raw);
      assert ClearedBy(raw, Commands(raw), k) <==> k == 36;
    }
  }

  lemma SecondPass(raw: seq<Byte>, n: seq<Byte>)
    requires raw == SelfClearing() && n == raw[36 := 0]
    ensures Normalize(n) != n
  {
    SelfClearingWords(raw);
    assert n[..4] == MAGIC_32;
    assert MAGIC_32 != MAGIC_64 by { assert MAGIC_32[0] != MAGIC_64[0]; }
    SameWord(raw, n, 16);
    SameWord(raw, n, 28);
    SameWord(raw, n, 32);
    SameWord(raw, n, 40);
    assert Walk(n, 44, 0) == [];
    assert Commands(n) == [28];
    assert Clears(n, 28, 0);
    assert 28 in Commands(n) && ClearedBy(n, Commands(n), 0);
    assert Normalize(n)[0] == 0 && n[0] == 0xCE;
  }
}
