/**
 The ownership rules on event records as they are written: what a record introduces, ends,
 shares, locks and returns is read off its own members, and so is what may follow.
 */
module LifecycleRecords {
  import opened Basics
  import opened Lifecycle
  import Trace = LifecycleTrace

  type Records = seq<Option<Record>>

  // ----- what a record says -----

  /** The record is an object whose operation is this text. */
  predicate Does(r: Option<Record>, op: string) {
    r.Some? && r.value.op == Text(op)
  }

  /** The record acts on this value; a missing, null or otherwise false member stands for the empty name. */
  predicate ActsOn(r: Option<Record>, x: string) {
    r.Some? && (r.value.value == Text(x) || (r.value.value in {Absent, Null, Zero} && x == ""))
  }

  /** The record clones or moves from this value; only a missing member stands for the empty name. */
  predicate TakesFrom(r: Option<Record>, x: string) {
    r.Some? && (r.value.source == Text(x) || (r.value.source == Absent && x == ""))
  }

  predicate HasSource(r: Option<Record>) {
    r.Some? && (r.value.source.Text? || r.value.source == Absent)
  }

  predicate Introduces(r: Option<Record>, x: string) {
    || (Does(r, "create") && r.value.value == Text(x))
    || ((Does(r, "clone") || Does(r, "move")) && HasSource(r) && r.value.target == Text(x))
  }

  predicate Ends(r: Option<Record>, x: string) {
    (Does(r, "move") && TakesFrom(r, x)) || (Does(r, "drop") && r.value.value == Text(x))
  }

  predicate Shares(r: Option<Record>, x: string, b: string) {
    Does(r, "borrow_shared") && ActsOn(r, x) && r.value.borrow == Text(b)
  }

  predicate Locks(r: Option<Record>, x: string, b: string) {
    Does(r, "borrow_mut") && ActsOn(r, x) && r.value.borrow == Text(b)
  }

  predicate Returns(r: Option<Record>, x: string, b: string) {
    Does(r, "end_borrow") && ActsOn(r, x) && r.value.borrow == Text(b)
  }

  // ----- what the first `n` records leave behind -----

  ghost predicate Known(records: Records, n: nat, x: string)
    requires n <= |records|
  {
    exists j :: 0 <= j < n && Introduces(records[j], x)
  }

  ghost predicate Ended(records: Records, n: nat, x: string)
    requires n <= |records|
  {
    exists j :: 0 <= j < n && Ends(records[j], x)
  }

  ghost predicate Owned(records: Records, n: nat, x: string)
    requires n <= |records|
  {
    Known(records, n, x) && !Ended(records, n, x)
  }

  ghost predicate NotReturned(records: Records, j: nat, n: nat, x: string, b: string)
    requires n <= |records|
  {
    forall k :: j < k < n ==> !Returns(records[k], x, b)
  }

  ghost predicate SharedBy(records: Records, n: nat, x: string, b: string)
    requires n <= |records|
  {
    exists j :: 0 <= j < n && Shares(records[j], x, b) && NotReturned(records, j, n, x, b)
  }

  ghost predicate LockedBy(records: Records, n: nat, x: string, b: string)
    requires n <= |records|
  {
    exists j :: 0 <= j < n && Locks(records[j], x, b) && NotReturned(records, j, n, x, b)
  }

  ghost predicate Unlocked(records: Records, n: nat, x: string)
    requires n <= |records|
  {
    forall b :: !LockedBy(records, n, x, b)
  }

  ghost predicate Free(records: Records, n: nat, x: string)
    requires n <= |records|
  {
    Unlocked(records, n, x) && forall b :: !SharedBy(records, n, x, b)
  }

  /** The target is a text that names nothing yet. */
  ghost predicate Fresh(records: Records, n: nat, target: Member)
    requires n <= |records|
  {
    target.Text? && !Known(records, n, target.text)
  }

  // ----- the rules -----

  /** The record takes from a value that is owned, and unlocked or altogether free. */
  ghost predicate TakesOwned(records: Records, i: nat, free: bool)
    requires i < |records|
  {
    exists x :: TakesFrom(records[i], x) && Owned(records, i, x) &&
                if free then Free(records, i, x) else Unlocked(records, i, x)
  }

  ghost predicate ActsOnOwned(records: Records, i: nat, free: bool)
    requires i < |records|
  {
    exists x :: ActsOn(records[i], x) && Owned(records, i, x) &&
                if free then Free(records, i, x) else Unlocked(records, i, x)
  }

  /** The borrow given back is open; giving back none is allowed where nothing is locked. */
  ghost predicate EndsBorrow(records: Records, i: nat, x: string)
    requires i < |records| && records[i].Some?
  {
    match records[i].value.borrow
    case Text(b) => LockedBy(records, i, x, b) || SharedBy(records, i, x, b)
    case Absent => Unlocked(records, i, x)
    case Null => Unlocked(records, i, x)
    case Zero => false
    case Other => false
  }

  ghost predicate Permitted(records: Records, i: nat)
    requires i < |records|
  {
    var r := records[i];
    || (Does(r, "create") && Fresh(records, i, r.value.value))
    || (Does(r, "clone") && TakesOwned(records, i, false) && Fresh(records, i, r.value.target))
    || (Does(r, "move") && TakesOwned(records, i, true) && Fresh(records, i, r.value.target))
    || (Does(r, "use") && ActsOnOwned(records, i, false))
    || (Does(r, "mutate") && ActsOnOwned(records, i, true))
    || (Does(r, "borrow_shared") && ActsOnOwned(records, i, false) &&
        r.value.borrow.Text? && |r.value.borrow.text| >= 1)
    || (Does(r, "borrow_mut") && ActsOnOwned(records, i, true) &&
        r.value.borrow.Text? && |r.value.borrow.text| >= 1)
    || (Does(r, "end_borrow") && exists x :: ActsOn(r, x) && Owned(records, i, x) && EndsBorrow(records, i, x))
    || (Does(r, "drop") && r.value.value.Text? &&
        Owned(records, i, r.value.value.text) && Free(records, i, r.value.value.text))
    || (Does(r, "early_exit") && i == |records| - 1 &&
        forall x :: Owned(records, i, x) ==> Free(records, i, x))
  }

  ghost predicate AllPermitted(records: Records, n: nat)
    requires n <= |records|
  {
    forall i :: 0 <= i < n ==> Permitted(records, i)
  }

  /** Every record is permitted, and the list exits early or leaves nothing owned. */
  ghost predicate Sound(records: Records) {
    var n := |records|;
    AllPermitted(records, n) && ((n > 0 && Does(records[n - 1], "early_exit")) || forall x :: !Owned(records, n, x))
  }

  ghost predicate DroppedBefore(records: Records, n: nat, x: string)
    requires n <= |records|
  {
    exists j :: 0 <= j < n && Does(records[j], "drop") && records[j].value.value == Text(x)
  }

  /** The record uses, mutates or borrows a value. */
  predicate Touches(r: Option<Record>) {
    || Does(r, "use") || Does(r, "mutate") || Does(r, "borrow_shared") || Does(r, "borrow_mut")
    || Does(r, "end_borrow")
  }

  /** What a record that is not permitted is reported as. */
  ghost function Blame(records: Records, i: nat): Diagnostic
    requires i < |records|
  {
    var r := records[i];
    if r.None? || !r.value.op.Text? then LifecycleEventInvalid
    else if Does(r, "create") then DuplicateValue
    else if Does(r, "clone") then
      if !(exists x :: TakesFrom(r, x) && Owned(records, i, x)) then UseAfterMove
      else if !TakesOwned(records, i, false) then CloneWhileMutablyBorrowed else DuplicateValue
    else if Does(r, "move") then
      if !(exists x :: TakesFrom(r, x) && Owned(records, i, x)) then UseAfterMove
      else if !TakesOwned(records, i, true) then MoveWhileBorrowed else DuplicateValue
    else if Does(r, "drop") then
      if r.value.value.Text? && DroppedBefore(records, i, r.value.value.text) then DoubleDrop
      else if !(r.value.value.Text? && Owned(records, i, r.value.value.text)) then UseAfterMove
      else DropWhileBorrowed
    else if Does(r, "early_exit") then (if i != |records| - 1 then EventsAfterExit else ExitWithLiveBorrow)
    else if !Touches(r) then UnsupportedOperation
    else if !(exists x :: ActsOn(r, x) && Owned(records, i, x)) then UseAfterMove
    else TouchBlame(r)
  }

  /** The same for a record that acts on an owned value. */
  function TouchBlame(r: Option<Record>): Diagnostic
    requires Touches(r)
  {
    if Does(r, "use") then UseWhileMutablyBorrowed
    else if Does(r, "mutate") then MutationWhileBorrowed
    else if Does(r, "end_borrow") then UnknownBorrow
    else if !(r.value.borrow.Text? && |r.value.borrow.text| >= 1) then BorrowIdRequired
    else BorrowConflict
  }

  // ----- a record read is an event -----

  lemma IntroducesIff(r: Option<Record>, x: string)
    ensures Trace.Introduces(Read(r), x) <==> Introduces(r, x)
  {
  }

  lemma EndsIff(r: Option<Record>, x: string)
    ensures Trace.Ends(Read(r), x) <==> Ends(r, x)
  {
  }

  lemma BorrowsIff(r: Option<Record>, x: string, b: string)
    ensures Trace.Shares(Read(r), x, b) <==> Shares(r, x, b)
    ensures Trace.Locks(Read(r), x, b) <==> Locks(r, x, b)
    ensures Trace.Returns(Read(r), x, b) <==> Returns(r, x, b)
  {
  }

  lemma OwnedIff(records: Records, n: nat, x: string)
    requires n <= |records|
    ensures Trace.Known(ReadAll(records), n, x) <==> Known(records, n, x)
    ensures Trace.Owned(ReadAll(records), n, x) <==> Owned(records, n, x)
  {
    var events := ReadAll(records);
    forall j | 0 <= j < n
      ensures Trace.Introduces(events[j], x) <==> Introduces(records[j], x)
      ensures Trace.Ends(events[j], x) <==> Ends(records[j], x)
    {
      IntroducesIff(records[j], x);
      EndsIff(records[j], x);
    }
  }

  lemma NotReturnedIff(records: Records, j: nat, n: nat, x: string, b: string)
    requires n <= |records|
    ensures Trace.NotReturned(ReadAll(records), j, n, x, b) <==> NotReturned(records, j, n, x, b)
  {
    forall k | j < k < n ensures Trace.Returns(ReadAll(records)[k], x, b) <==> Returns(records[k], x, b) {
      BorrowsIff(records[k], x, b);
    }
  }

  lemma HeldIff(records: Records, n: nat, x: string, b: string)
    requires n <= |records|
    ensures Trace.SharedBy(ReadAll(records), n, x, b) <==> SharedBy(records, n, x, b)
    ensures Trace.LockedBy(ReadAll(records), n, x, b) <==> LockedBy(records, n, x, b)
  {
    var events := ReadAll(records);
    forall j | 0 <= j < n
      ensures Trace.Shares(events[j], x, b) <==> Shares(records[j], x, b)
      ensures Trace.Locks(events[j], x, b) <==> Locks(records[j], x, b)
      ensures Trace.NotReturned(events, j, n, x, b) <==> NotReturned(records, j, n, x, b)
    {
      BorrowsIff(records[j], x, b);
      NotReturnedIff(records, j, n, x, b);
    }
  }

  lemma FreeIff(records: Records, n: nat, x: string)
    requires n <= |records|
    ensures Trace.Unlocked(ReadAll(records), n, x) <==> Unlocked(records, n, x)
    ensures Trace.Free(ReadAll(records), n, x) <==> Free(records, n, x)
  {
    forall b
      ensures Trace.SharedBy(ReadAll(records), n, x, b) <==> SharedBy(records, n, x, b)
      ensures Trace.LockedBy(ReadAll(records), n, x, b) <==> LockedBy(records, n, x, b)
    {
      HeldIff(records, n, x, b);
    }
  }

  /** Everything about one name, at once. */
  lemma NameIff(records: Records, n: nat, x: string)
    requires n <= |records|
    ensures Trace.Known(ReadAll(records), n, x) <==> Known(records, n, x)
    ensures Trace.Owned(ReadAll(records), n, x) <==> Owned(records, n, x)
    ensures Trace.Unlocked(ReadAll(records), n, x) <==> Unlocked(records, n, x)
    ensures Trace.Free(ReadAll(records), n, x) <==> Free(records, n, x)
  {
    OwnedIff(records, n, x);
    FreeIff(records, n, x);
  }

  // ----- the rules on records are the rules on events -----

  lemma EventAt(records: Records, i: nat)
    requires i < |records|
    ensures |ReadAll(records)| == |records| && ReadAll(records)[i] == Read(records[i])
  {
  }

  lemma CreateIff(records: Records, i: nat)
    requires i < |records| && Does(records[i], "create")
    ensures Trace.Permitted(ReadAll(records), i) <==> Permitted(records, i)
    ensures Trace.Blame(ReadAll(records), i) == Blame(records, i)
  {
    EventAt(records, i);
    var target := records[i].value.value;
    if target.Text? {
      NameIff(records, i, target.text);
    }
  }

  /** The value a record takes from, if it has one; there is only one. */
  lemma SourceOf(r: Option<Record>)
    requires r.Some?
    ensures HasSource(r) <==> SourceName(r.value.source).Some?
    ensures HasSource(r) ==> forall x :: TakesFrom(r, x) <==> x == SourceName(r.value.source).value
    ensures !HasSource(r) ==> forall x :: !TakesFrom(r, x)
  {
  }

  lemma ValueOf(r: Option<Record>)
    requires r.Some?
    ensures ValueName(r.value.value).Some? ==> forall x :: ActsOn(r, x) <==> x == ValueName(r.value.value).value
    ensures ValueName(r.value.value).None? ==> forall x :: !ActsOn(r, x)
  {
  }

  lemma TakesIff(records: Records, i: nat)
    requires i < |records| && records[i].Some?
    ensures var source := SourceName(records[i].value.source);
            var events := ReadAll(records);
            && (TakesOwned(records, i, false) <==>
                source.Some? && Trace.Owned(events, i, source.value) && Trace.Unlocked(events, i, source.value))
            && (TakesOwned(records, i, true) <==>
                source.Some? && Trace.Owned(events, i, source.value) && Trace.Free(events, i, source.value))
            && ((exists x :: TakesFrom(records[i], x) && Owned(records, i, x)) <==>
                source.Some? && Trace.Owned(events, i, source.value))
  {
    SourceOf(records[i]);
    var source := SourceName(records[i].value.source);
    if source.Some? {
      NameIff(records, i, source.value);
      assert TakesFrom(records[i], source.value);
    }
  }

  lemma ActsIff(records: Records, i: nat)
    requires i < |records| && records[i].Some?
    ensures var name := ValueName(records[i].value.value);
            var events := ReadAll(records);
            && (ActsOnOwned(records, i, false) <==>
                name.Some? && Trace.Owned(events, i, name.value) && Trace.Unlocked(events, i, name.value))
            && (ActsOnOwned(records, i, true) <==>
                name.Some? && Trace.Owned(events, i, name.value) && Trace.Free(events, i, name.value))
            && ((exists x :: ActsOn(records[i], x) && Owned(records, i, x)) <==>
                name.Some? && Trace.Owned(events, i, name.value))
  {
    ValueOf(records[i]);
    var name := ValueName(records[i].value.value);
    if name.Some? {
      NameIff(records, i, name.value);
      assert ActsOn(records[i], name.value);
    }
  }

  lemma CloneIff(records: Records, i: nat)
    requires i < |records| && Does(records[i], "clone")
    ensures Trace.Permitted(ReadAll(records), i) <==> Permitted(records, i)
    ensures Trace.Blame(ReadAll(records), i) == Blame(records, i)
  {
    EventAt(records, i);
    TakesIff(records, i);
    FreshIff(records, i, records[i].value.target);
  }

  lemma MoveIff(records: Records, i: nat)
    requires i < |records| && Does(records[i], "move")
    ensures Trace.Permitted(ReadAll(records), i) <==> Permitted(records, i)
    ensures Trace.Blame(ReadAll(records), i) == Blame(records, i)
  {
    EventAt(records, i);
    TakesIff(records, i);
    FreshIff(records, i, records[i].value.target);
  }

  lemma FreshIff(records: Records, n: nat, target: Member)
    requires n <= |records|
    ensures Fresh(records, n, target) <==>
            TextOf(target).Some? && !Trace.Known(ReadAll(records), n, TextOf(target).value)
  {
    if target.Text? {
      OwnedIff(records, n, target.text);
    }
  }

  lemma UseIff(records: Records, i: nat)
    requires i < |records| && (Does(records[i], "use") || Does(records[i], "mutate"))
    ensures Trace.Permitted(ReadAll(records), i) <==> Permitted(records, i)
    ensures Trace.Blame(ReadAll(records), i) == Blame(records, i)
  {
    EventAt(records, i);
    ActsIff(records, i);
  }

  lemma BorrowSharedIff(records: Records, i: nat)
    requires i < |records| && Does(records[i], "borrow_shared")
    ensures Trace.Permitted(ReadAll(records), i) <==> Permitted(records, i)
  {
    EventAt(records, i);
    ActsIff(records, i);
  }

  lemma BorrowMutIff(records: Records, i: nat)
    requires i < |records| && Does(records[i], "borrow_mut")
    ensures Trace.Permitted(ReadAll(records), i) <==> Permitted(records, i)
  {
    EventAt(records, i);
    ActsIff(records, i);
  }

  lemma BorrowBlame(records: Records, i: nat)
    requires i < |records| && (Does(records[i], "borrow_shared") || Does(records[i], "borrow_mut"))
    ensures Trace.Blame(ReadAll(records), i) == Blame(records, i)
  {
    EventAt(records, i);
    ActsIff(records, i);
    BlameTouching(records, i);
  }

  lemma BlameTouching(records: Records, i: nat)
    requires i < |records| && Touches(records[i])
    ensures Blame(records, i) ==
            if !(exists x :: ActsOn(records[i], x) && Owned(records, i, x)) then UseAfterMove
            else TouchBlame(records[i])
  {
  }

  lemma EndBorrowIff(records: Records, i: nat)
    requires i < |records| && Does(records[i], "end_borrow")
    ensures Trace.Permitted(ReadAll(records), i) <==> Permitted(records, i)
  {
    EventAt(records, i);
    EndsBorrowIff(records, i);
  }

  lemma EndsBorrowIff(records: Records, i: nat)
    requires i < |records| && records[i].Some?
    ensures var events, name, borrow := ReadAll(records), ValueName(records[i].value.value), records[i].value.borrow;
            (exists x :: ActsOn(records[i], x) && Owned(records, i, x) && EndsBorrow(records, i, x)) <==>
            && name.Some? && Trace.Owned(events, i, name.value)
            && match borrow
               case Text(b) => Trace.LockedBy(events, i, name.value, b) || Trace.SharedBy(events, i, name.value, b)
               case Absent => Trace.Unlocked(events, i, name.value)
               case Null => Trace.Unlocked(events, i, name.value)
               case _ => false
  {
    ValueOf(records[i]);
    var name, borrow := ValueName(records[i].value.value), records[i].value.borrow;
    if name.Some? {
      NameIff(records, i, name.value);
      if borrow.Text? {
        HeldIff(records, i, name.value, borrow.text);
      }
      assert ActsOn(records[i], name.value);
    }
  }

  lemma EndBorrowBlame(records: Records, i: nat)
    requires i < |records| && Does(records[i], "end_borrow")
    ensures Trace.Blame(ReadAll(records), i) == Blame(records, i)
  {
    EventAt(records, i);
    ActsIff(records, i);
    BlameTouching(records, i);
  }

  lemma DropIff(records: Records, i: nat)
    requires i < |records| && Does(records[i], "drop")
    ensures Trace.Permitted(ReadAll(records), i) <==> Permitted(records, i)
    ensures Trace.Blame(ReadAll(records), i) == Blame(records, i)
  {
    EventAt(records, i);
    var value := records[i].value.value;
    if value.Text? {
      NameIff(records, i, value.text);
      DroppedIff(records, i, value.text);
    }
  }

  lemma DroppedIff(records: Records, n: nat, x: string)
    requires n <= |records|
    ensures Trace.DroppedBefore(ReadAll(records), n, x) <==> DroppedBefore(records, n, x)
  {
    forall j | 0 <= j < n
      ensures ReadAll(records)[j] == Drop(x) <==> Does(records[j], "drop") && records[j].value.value == Text(x)
    {
      ReadsDrop(records[j], x);
    }
  }

  lemma ReadsDrop(r: Option<Record>, x: string)
    ensures Read(r) == Drop(x) <==> Does(r, "drop") && r.value.value == Text(x)
  {
  }

  lemma ExitIff(records: Records, i: nat)
    requires i < |records| && Does(records[i], "early_exit")
    ensures Trace.Permitted(ReadAll(records), i) <==> Permitted(records, i)
    ensures Trace.Blame(ReadAll(records), i) == Blame(records, i)
  {
    EventAt(records, i);
    forall x
      ensures Trace.Owned(ReadAll(records), i, x) <==> Owned(records, i, x)
      ensures Trace.Free(ReadAll(records), i, x) <==> Free(records, i, x)
    {
      NameIff(records, i, x);
    }
  }

  const OPERATIONS: seq<string> := [
    "create", "clone", "move", "use", "mutate", "borrow_shared", "borrow_mut", "end_borrow", "drop", "early_exit"]

  lemma OtherIff(records: Records, i: nat)
    requires i < |records|
    requires forall k :: 0 <= k < |OPERATIONS| ==> !Does(records[i], OPERATIONS[k])
    ensures Trace.Permitted(ReadAll(records), i) <==> Permitted(records, i)
    ensures Trace.Blame(ReadAll(records), i) == Blame(records, i)
  {
    EventAt(records, i);
    assert OPERATIONS[0] == "create" && OPERATIONS[1] == "clone" && OPERATIONS[2] == "move" && OPERATIONS[3] == "use";
    assert OPERATIONS[4] == "mutate" && OPERATIONS[5] == "borrow_shared" && OPERATIONS[6] == "borrow_mut";
    assert OPERATIONS[7] == "end_borrow" && OPERATIONS[8] == "drop" && OPERATIONS[9] == "early_exit";
  }

  lemma PermittedIff(records: Records, i: nat)
    requires i < |records|
    ensures Trace.Permitted(ReadAll(records), i) <==> Permitted(records, i)
    ensures Trace.Blame(ReadAll(records), i) == Blame(records, i)
  {
    var r := records[i];
    if Does(r, "create") {
      CreateIff(records, i);
    } else if Does(r, "clone") {
      CloneIff(records, i);
    } else if Does(r, "move") {
      MoveIff(records, i);
    } else if Does(r, "use") || Does(r, "mutate") {
      UseIff(records, i);
    } else if Does(r, "borrow_shared") {
      BorrowSharedIff(records, i);
      BorrowBlame(records, i);
    } else if Does(r, "borrow_mut") {
      BorrowMutIff(records, i);
      BorrowBlame(records, i);
    } else if Does(r, "end_borrow") {
      EndBorrowIff(records, i);
      EndBorrowBlame(records, i);
    } else if Does(r, "drop") {
      DropIff(records, i);
    } else if Does(r, "early_exit") {
      ExitIff(records, i);
    } else {
      OtherIff(records, i);
    }
  }

  // ----- what the outcome means -----

  lemma AllPermittedIff(records: Records, n: nat)
    requires n <= |records|
    ensures Trace.AllPermitted(ReadAll(records), n) <==> AllPermitted(records, n)
  {
    forall i | 0 <= i < n ensures Trace.Permitted(ReadAll(records), i) <==> Permitted(records, i) {
      PermittedIff(records, i);
    }
  }

  lemma ReadsExit(r: Option<Record>)
    ensures Read(r).EarlyExit? <==> Does(r, "early_exit")
  {
  }

  lemma NothingOwnedIff(records: Records, n: nat)
    requires n <= |records|
    ensures (forall x :: !Trace.Owned(ReadAll(records), n, x)) <==> forall x :: !Owned(records, n, x)
  {
    forall x ensures Trace.Owned(ReadAll(records), n, x) <==> Owned(records, n, x) {
      OwnedIff(records, n, x);
    }
  }

  /** A list of records is accepted exactly when it is sound. */
  lemma AcceptedIffSound(records: Records)
    ensures Verdict(ReadAll(records)).Accepted? <==> Sound(records)
  {
    var n, events := |records|, ReadAll(records);
    Trace.AcceptedIffPermitted(events);
    AllPermittedIff(records, n);
    NothingOwnedIff(records, n);
    if n > 0 {
      ReadsExit(records[n - 1]);
    }
  }

  /** Record `i` is the first that is not permitted. */
  ghost predicate FirstRefused(records: Records, i: nat) {
    i < |records| && AllPermitted(records, i) && !Permitted(records, i)
  }

  /** A rejection reports what is wrong with the first record that is not permitted. */
  lemma RejectedIff(records: Records, d: Diagnostic)
    ensures (Verdict(ReadAll(records)).Rejected? && Verdict(ReadAll(records)).diagnostic == d) <==>
            exists i :: FirstRefused(records, i) && Blame(records, i) == d
  {
    var events := ReadAll(records);
    Trace.RejectedIff(events, d);
    forall i: nat
      ensures Trace.FirstRefused(events, i) <==> FirstRefused(records, i)
      ensures FirstRefused(records, i) ==> Trace.Blame(events, i) == Blame(records, i)
    {
      if i < |records| {
        AllPermittedIff(records, i);
        PermittedIff(records, i);
      }
    }
  }

  ghost predicate IntroducedBefore(records: Records, x: string, y: string) {
    exists i, j :: 0 <= i < j < |records| && Introduces(records[i], x) && Introduces(records[j], y)
  }

  lemma IntroducedBeforeIff(records: Records, x: string, y: string)
    ensures Trace.IntroducedBefore(ReadAll(records), x, y) <==> IntroducedBefore(records, x, y)
  {
    forall i | 0 <= i < |records|
      ensures Trace.Introduces(ReadAll(records)[i], x) <==> Introduces(records[i], x)
      ensures Trace.Introduces(ReadAll(records)[i], y) <==> Introduces(records[i], y)
    {
      IntroducesIff(records[i], x);
      IntroducesIff(records[i], y);
    }
  }

  /** What is undischarged is what is owned at the end, in the order it was introduced. */
  lemma RaisedMeans(records: Records)
    requires Verdict(ReadAll(records)).Raised?
    ensures var rest := Verdict(ReadAll(records)).undischarged;
            && (forall x :: x in rest <==> Owned(records, |records|, x))
            && (forall a, b :: 0 <= a < b < |rest| ==> IntroducedBefore(records, rest[a], rest[b]))
  {
    var rest := Verdict(ReadAll(records)).undischarged;
    Trace.RaisedMeans(ReadAll(records));
    forall x ensures Trace.Owned(ReadAll(records), |records|, x) <==> Owned(records, |records|, x) {
      OwnedIff(records, |records|, x);
    }
    forall a, b | 0 <= a < b < |rest| ensures IntroducedBefore(records, rest[a], rest[b]) {
      IntroducedBeforeIff(records, rest[a], rest[b]);
    }
  }

  /** The values of the drop records, in order. */
  ghost function DropsIn(records: Records, n: nat): seq<string>
    requires n <= |records|
  {
    if n == 0 then []
    else
      var r := records[n - 1];
      DropsIn(records, n - 1) + if Does(r, "drop") && r.value.value.Text? then [r.value.value.text] else []
  }

  lemma {:induction false} DropsInIff(records: Records, n: nat)
    requires n <= |records|
    ensures Trace.DropsIn(ReadAll(records), n) == DropsIn(records, n)
  {
    if n == 0 {
    } else {
      DropsInIff(records, n - 1);
      EventAt(records, n - 1);
      DropRead(records[n - 1]);
    }
  }

  lemma DropRead(r: Option<Record>)
    ensures Read(r).Drop? <==> Does(r, "drop") && r.value.value.Text?
    ensures Read(r).Drop? ==> Read(r).name == r.value.value.text
  {
  }

  ghost predicate LatestFirst(records: Records, n: nat, names: seq<string>)
    requires n <= |records|
  {
    && (forall x :: x in names <==> Owned(records, n, x))
    && forall a, b :: 0 <= a < b < |names| ==> IntroducedBefore(records, names[b], names[a])
  }

  lemma LatestFirstIff(records: Records, n: nat, names: seq<string>)
    requires n <= |records| && Trace.LatestFirst(ReadAll(records), n, names)
    ensures LatestFirst(records, n, names)
  {
    forall x ensures Trace.Owned(ReadAll(records), n, x) <==> Owned(records, n, x) {
      OwnedIff(records, n, x);
    }
    forall a, b | 0 <= a < b < |names| ensures IntroducedBefore(records, names[b], names[a]) {
      IntroducedBeforeIff(records, names[b], names[a]);
    }
  }

  /** The accepted drop order: the drop records in order, then at an early exit what is owned, latest first. */
  lemma AcceptedDrops(records: Records) returns (rest: seq<string>)
    requires Verdict(ReadAll(records)).Accepted?
    ensures Distinct(Verdict(ReadAll(records)).dropOrder)
    ensures var order, n := Verdict(ReadAll(records)).dropOrder, |records|;
            if n > 0 && Does(records[n - 1], "early_exit")
            then order == DropsIn(records, n - 1) + rest && LatestFirst(records, n - 1, rest)
            else order == DropsIn(records, n)
  {
    var n := |records|;
    rest := Trace.AcceptedDrops(ReadAll(records));
    DropsInIff(records, n);
    if n > 0 {
      ReadsExit(records[n - 1]);
      DropsInIff(records, n - 1);
      if Does(records[n - 1], "early_exit") {
        LatestFirstIff(records, n - 1, rest);
      }
    }
  }
}
