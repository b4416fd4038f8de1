/**
 The ownership rules without the machine: what an event may do is read off the events before
 it, and the machine accepts exactly the traces in which every event is permitted so.
 */
module LifecycleTrace {
  import opened Basics
  import opened Lifecycle
  import opened LifecycleTheorems

  // ----- what single events do to a name -----

  predicate Introduces(e: Event, x: string) {
    (e.Create? || e.Clone? || e.Move?) && e.target == Some(x)
  }

  predicate Ends(e: Event, x: string) {
    (e.Move? && e.source == x) || (e.Drop? && e.name == x)
  }

  predicate Shares(e: Event, x: string, b: string) {
    e.BorrowShared? && e.name == x && e.borrow == Some(b)
  }

  predicate Locks(e: Event, x: string, b: string) {
    e.BorrowMut? && e.name == x && e.borrow == Some(b)
  }

  predicate Returns(e: Event, x: string, b: string) {
    e.EndBorrow? && e.name == x && e.borrow == Some(b)
  }

  // ----- what the first `n` events leave behind -----

  ghost predicate Known(events: seq<Event>, n: nat, x: string)
    requires n <= |events|
  {
    exists j :: 0 <= j < n && Introduces(events[j], x)
  }

  ghost predicate Ended(events: seq<Event>, n: nat, x: string)
    requires n <= |events|
  {
    exists j :: 0 <= j < n && Ends(events[j], x)
  }

  ghost predicate Owned(events: seq<Event>, n: nat, x: string)
    requires n <= |events|
  {
    Known(events, n, x) && !Ended(events, n, x)
  }

  ghost predicate NotReturned(events: seq<Event>, j: nat, n: nat, x: string, b: string)
    requires n <= |events|
  {
    forall k :: j < k < n ==> !Returns(events[k], x, b)
  }

  ghost predicate SharedBy(events: seq<Event>, n: nat, x: string, b: string)
    requires n <= |events|
  {
    exists j :: 0 <= j < n && Shares(events[j], x, b) && NotReturned(events, j, n, x, b)
  }

  ghost predicate LockedBy(events: seq<Event>, n: nat, x: string, b: string)
    requires n <= |events|
  {
    exists j :: 0 <= j < n && Locks(events[j], x, b) && NotReturned(events, j, n, x, b)
  }

  ghost predicate Unlocked(events: seq<Event>, n: nat, x: string)
    requires n <= |events|
  {
    forall b :: !LockedBy(events, n, x, b)
  }

  ghost predicate Free(events: seq<Event>, n: nat, x: string)
    requires n <= |events|
  {
    Unlocked(events, n, x) && forall b :: !SharedBy(events, n, x, b)
  }

  /** The ownership rules: event `i` judged by the events before it. */
  ghost predicate Permitted(events: seq<Event>, i: nat)
    requires i < |events|
  {
    match events[i]
    case Create(name) => name.Some? && !Known(events, i, name.value)
    case Clone(source, target) =>
      Owned(events, i, source) && Unlocked(events, i, source) && target.Some? && !Known(events, i, target.value)
    case Move(source, target) =>
      Owned(events, i, source) && Free(events, i, source) && target.Some? && !Known(events, i, target.value)
    case Use(name) => Owned(events, i, name) && Unlocked(events, i, name)
    case Mutate(name) => Owned(events, i, name) && Free(events, i, name)
    case BorrowShared(name, borrow) =>
      Owned(events, i, name) && borrow.Some? && borrow.value != "" && Unlocked(events, i, name)
    case BorrowMut(name, borrow) =>
      Owned(events, i, name) && borrow.Some? && borrow.value != "" && Free(events, i, name)
    case EndBorrow(name, borrow) =>
      Owned(events, i, name) &&
      if borrow.None? then Unlocked(events, i, name)
      else LockedBy(events, i, name, borrow.value) || SharedBy(events, i, name, borrow.value)
    case EndForeign(_) => false
    case Drop(name) => Owned(events, i, name) && Free(events, i, name)
    case NamesNothing => false
    case EarlyExit => i == |events| - 1 && forall x :: Owned(events, i, x) ==> Free(events, i, x)
    case UnsupportedEvent => false
    case InvalidEvent => false
  }

  // ----- one more event -----

  lemma KnownStep(events: seq<Event>, n: nat, x: string)
    requires n < |events|
    ensures Known(events, n + 1, x) <==> Known(events, n, x) || Introduces(events[n], x)
    ensures Ended(events, n + 1, x) <==> Ended(events, n, x) || Ends(events[n], x)
  {
  }

  lemma SharedStep(events: seq<Event>, n: nat, x: string, b: string)
    requires n < |events|
    ensures SharedBy(events, n + 1, x, b) <==>
            Shares(events[n], x, b) || (SharedBy(events, n, x, b) && !Returns(events[n], x, b))
  {
    if SharedBy(events, n, x, b) && !Returns(events[n], x, b) {
      var j :| 0 <= j < n && Shares(events[j], x, b) && NotReturned(events, j, n, x, b);
      assert NotReturned(events, j, n + 1, x, b);
    }
    if Shares(events[n], x, b) {
      assert NotReturned(events, n, n + 1, x, b);
    }
    if SharedBy(events, n + 1, x, b) && !Shares(events[n], x, b) {
      var j :| 0 <= j < n + 1 && Shares(events[j], x, b) && NotReturned(events, j, n + 1, x, b);
      assert NotReturned(events, j, n, x, b);
    }
  }

  lemma LockedStep(events: seq<Event>, n: nat, x: string, b: string)
    requires n < |events|
    ensures LockedBy(events, n + 1, x, b) <==>
            Locks(events[n], x, b) || (LockedBy(events, n, x, b) && !Returns(events[n], x, b))
  {
    if LockedBy(events, n, x, b) && !Returns(events[n], x, b) {
      var j :| 0 <= j < n && Locks(events[j], x, b) && NotReturned(events, j, n, x, b);
      assert NotReturned(events, j, n + 1, x, b);
    }
    if Locks(events[n], x, b) {
      assert NotReturned(events, n, n + 1, x, b);
    }
    if LockedBy(events, n + 1, x, b) && !Locks(events[n], x, b) {
      var j :| 0 <= j < n + 1 && Locks(events[j], x, b) && NotReturned(events, j, n + 1, x, b);
      assert NotReturned(events, j, n, x, b);
    }
  }

  // ----- the machine's table tells the same story -----

  ghost predicate InShared(w: World, x: string, b: string) {
    x in w.values && b in w.values[x].shared
  }

  ghost predicate IsMutable(w: World, x: string, b: string) {
    x in w.values && w.values[x].mutable == Some(b)
  }

  /** The table entry of `x` records what the first `n` events did to `x`. */
  ghost predicate AgreesOn(events: seq<Event>, n: nat, w: World, x: string)
    requires n <= |events|
  {
    && (Known(events, n, x) <==> x in w.values)
    && (Ended(events, n, x) <==> x in w.values && w.values[x].state != Live)
    && (forall b :: SharedBy(events, n, x, b) <==> InShared(w, x, b))
    && (forall b :: LockedBy(events, n, x, b) <==> IsMutable(w, x, b))
  }

  lemma AgreesStart(events: seq<Event>, x: string)
    ensures AgreesOn(events, 0, EMPTY, x)
  {
  }

  /** What one accepted event does to the entry of `x`, in the terms of the trace. */
  lemma EntryAfter(w: World, e: Event, last: bool, x: string)
    requires Apply(w, e, last).Next? && !e.EarlyExit?
    ensures var v := Apply(w, e, last).world.values;
            && (x in v <==> x in w.values || Introduces(e, x))
            && (x in v && v[x].state != Live <==> (x in w.values && w.values[x].state != Live) || Ends(e, x))
  {
  }

  lemma SharedAfter(w: World, e: Event, last: bool, x: string, b: string)
    requires Apply(w, e, last).Next? && !e.EarlyExit? && (x in w.values ==> BorrowsExclude(w.values[x]))
    ensures InShared(Apply(w, e, last).world, x, b) <==> Shares(e, x, b) || (InShared(w, x, b) && !Returns(e, x, b))
  {
  }

  lemma MutableAfter(w: World, e: Event, last: bool, x: string, b: string)
    requires Apply(w, e, last).Next? && !e.EarlyExit? && (x in w.values ==> BorrowsExclude(w.values[x]))
    ensures IsMutable(Apply(w, e, last).world, x, b) <==> Locks(e, x, b) || (IsMutable(w, x, b) && !Returns(e, x, b))
  {
  }

  lemma AgreesStep(events: seq<Event>, n: nat, w: World, next: World, x: string)
    requires n < |events| && Consistent(w) && AgreesOn(events, n, w, x) && !events[n].EarlyExit?
    requires Apply(w, events[n], n + 1 == |events|) == Next(next)
    ensures AgreesOn(events, n + 1, next, x)
  {
    var e, last := events[n], n + 1 == |events|;
    KnownStep(events, n, x);
    EntryAfter(w, e, last, x);
    forall b ensures SharedBy(events, n + 1, x, b) <==> InShared(next, x, b) {
      SharedStep(events, n, x, b);
      SharedAfter(w, e, last, x, b);
    }
    forall b ensures LockedBy(events, n + 1, x, b) <==> IsMutable(next, x, b) {
      LockedStep(events, n, x, b);
      MutableAfter(w, e, last, x, b);
    }
  }

  lemma AgreesMeans(events: seq<Event>, n: nat, w: World, x: string)
    requires n <= |events| && AgreesOn(events, n, w, x)
    ensures Owned(events, n, x) <==> IsLive(w, x)
    ensures x in w.values ==> (Unlocked(events, n, x) <==> w.values[x].mutable.None?)
    ensures x in w.values ==> (Free(events, n, x) <==> !w.values[x].Borrowed())
  {
    if x in w.values {
      var v := w.values[x];
      if v.mutable.Some? {
        assert IsMutable(w, x, v.mutable.value);
        assert LockedBy(events, n, x, v.mutable.value);
      }
      if v.shared != {} {
        var b :| b in v.shared;
        assert InShared(w, x, b);
        assert SharedBy(events, n, x, b);
      }
    }
  }

  ghost predicate Agrees(events: seq<Event>, n: nat, w: World)
    requires n <= |events|
  {
    forall x :: AgreesOn(events, n, w, x)
  }

  /** The machine takes an event exactly when the rules permit it. */
  lemma AppliesIffPermitted(events: seq<Event>, n: nat, w: World)
    requires n < |events| && Consistent(w) && Agrees(events, n, w)
    ensures Apply(w, events[n], n + 1 == |events|).Next? <==> Permitted(events, n)
  {
    match events[n]
    case Create(name) =>
      if name.Some? {
        AgreesMeans(events, n, w, name.value);
      }
    case Clone(source, target) => TransferIff(events, n, w, source, target);
    case Move(source, target) => TransferIff(events, n, w, source, target);
    case Use(name) => AgreesMeans(events, n, w, name);
    case Mutate(name) => AgreesMeans(events, n, w, name);
    case BorrowShared(name, _) => AgreesMeans(events, n, w, name);
    case BorrowMut(name, _) => AgreesMeans(events, n, w, name);
    case EndBorrow(name, _) => AgreesMeans(events, n, w, name);
    case Drop(name) => AgreesMeans(events, n, w, name);
    case EarlyExit => ExitIff(events, n, w);
    case EndForeign(_) =>
    case NamesNothing =>
    case UnsupportedEvent =>
    case InvalidEvent =>
  }

  lemma TransferIff(events: seq<Event>, n: nat, w: World, source: string, target: Option<string>)
    requires n <= |events| && Agrees(events, n, w)
    ensures AgreesOn(events, n, w, source) && (target.Some? ==> AgreesOn(events, n, w, target.value))
    ensures Owned(events, n, source) <==> IsLive(w, source)
    ensures source in w.values ==> (Unlocked(events, n, source) <==> w.values[source].mutable.None?)
    ensures source in w.values ==> (Free(events, n, source) <==> !w.values[source].Borrowed())
  {
    AgreesMeans(events, n, w, source);
  }

  lemma ExitIff(events: seq<Event>, n: nat, w: World)
    requires n <= |events| && Consistent(w) && Agrees(events, n, w)
    ensures Unwind(w, |w.creationOrder|).Next? <==> forall x :: Owned(events, n, x) ==> Free(events, n, x)
  {
    ExitDischarges(w);
    forall x ensures Owned(events, n, x) <==> IsLive(w, x) {
      AgreesMeans(events, n, w, x);
    }
    forall x | IsLive(w, x) ensures Free(events, n, x) <==> !w.values[x].Borrowed() {
      AgreesMeans(events, n, w, x);
    }
  }

  ghost predicate AllPermitted(events: seq<Event>, n: nat)
    requires n <= |events|
  {
    forall i :: 0 <= i < n ==> Permitted(events, i)
  }

  lemma AllPermittedSnoc(events: seq<Event>, n: nat)
    requires n < |events|
    ensures AllPermitted(events, n + 1) <==> AllPermitted(events, n) && Permitted(events, n)
  {
  }

  /** As long as every event is permitted the machine runs, and its table agrees with the trace. */
  lemma {:induction false} RunsIffPermitted(events: seq<Event>, n: nat)
    requires n <= |events|
    ensures Play(events, n).Next? <==> AllPermitted(events, n)
    ensures Play(events, n).Next? && (n == 0 || !events[n - 1].EarlyExit?) ==> Agrees(events, n, Play(events, n).world)
  {
    if n == 0 {
      forall x ensures AgreesOn(events, 0, EMPTY, x) {
        AgreesStart(events, x);
      }
    } else {
      RunsIffPermitted(events, n - 1);
      AllPermittedSnoc(events, n - 1);
      if Play(events, n - 1).Next? {
        NoEarlierExit(events, n - 1);
        ReachableConsistent(events, n - 1);
        RunStep(events, n - 1, Play(events, n - 1).world);
      }
    }
  }

  lemma NoEarlierExit(events: seq<Event>, n: nat)
    requires n < |events| && AllPermitted(events, n)
    ensures n == 0 || !events[n - 1].EarlyExit?
  {
    assert n > 0 ==> Permitted(events, n - 1);
  }

  lemma RunStep(events: seq<Event>, n: nat, w: World)
    requires n < |events| && Consistent(w) && Agrees(events, n, w)
    ensures var s := Apply(w, events[n], n + 1 == |events|);
            && (s.Next? <==> Permitted(events, n))
            && (s.Next? && !events[n].EarlyExit? ==> Agrees(events, n + 1, s.world))
  {
    AppliesIffPermitted(events, n, w);
    var s := Apply(w, events[n], n + 1 == |events|);
    if s.Next? && !events[n].EarlyExit? {
      var m, after := n + 1, s.world;
      forall x ensures AgreesOn(events, m, after, x) {
        AgreesStep(events, n, w, after, x);
      }
    }
  }

  /** A trace is accepted exactly when every event is permitted and it exits early or nothing is owned at its end. */
  lemma AcceptedIffPermitted(events: seq<Event>)
    ensures Verdict(events).Accepted? <==>
            && AllPermitted(events, |events|)
            && ((events != [] && events[|events| - 1].EarlyExit?) || forall x :: !Owned(events, |events|, x))
  {
    var n := |events|;
    RunsIffPermitted(events, n);
    if Play(events, n).Next? {
      var w := Play(events, n).world;
      ReachableConsistent(events, n);
      if n > 0 && events[n - 1].EarlyExit? {
        EarlyExitDischarges(events, Play(events, n - 1).world);
      } else {
        NothingOwned(events, w);
      }
    }
  }

  lemma NothingOwned(events: seq<Event>, w: World)
    requires Consistent(w) && Agrees(events, |events|, w)
    ensures LiveNames(w.values, w.creationOrder) == [] <==> forall x :: !Owned(events, |events|, x)
  {
    var live := LiveNames(w.values, w.creationOrder);
    forall x ensures Owned(events, |events|, x) <==> x in live {
      AgreesMeans(events, |events|, w, x);
      LiveNamesMeans(w.values, w.creationOrder, x);
    }
    if live != [] {
      assert live[0] in live;
    }
  }

  // ----- what a refusal says -----

  ghost predicate DroppedBefore(events: seq<Event>, n: nat, x: string)
    requires n <= |events|
  {
    exists j :: 0 <= j < n && events[j] == Drop(x)
  }

  /** The diagnostic for an event that is not permitted, by the events before it. */
  ghost function Blame(events: seq<Event>, i: nat): Diagnostic
    requires i < |events|
  {
    match events[i]
    case Create(_) => DuplicateValue
    case Clone(source, _) =>
      if !Owned(events, i, source) then UseAfterMove
      else if !Unlocked(events, i, source) then CloneWhileMutablyBorrowed else DuplicateValue
    case Move(source, _) =>
      if !Owned(events, i, source) then UseAfterMove
      else if !Free(events, i, source) then MoveWhileBorrowed else DuplicateValue
    case Use(name) => if !Owned(events, i, name) then UseAfterMove else UseWhileMutablyBorrowed
    case Mutate(name) => if !Owned(events, i, name) then UseAfterMove else MutationWhileBorrowed
    case BorrowShared(name, borrow) =>
      if !Owned(events, i, name) then UseAfterMove
      else if borrow.None? || borrow.value == "" then BorrowIdRequired else BorrowConflict
    case BorrowMut(name, borrow) =>
      if !Owned(events, i, name) then UseAfterMove
      else if borrow.None? || borrow.value == "" then BorrowIdRequired else BorrowConflict
    case EndBorrow(name, _) => if !Owned(events, i, name) then UseAfterMove else UnknownBorrow
    case EndForeign(name) => if !Owned(events, i, name) then UseAfterMove else UnknownBorrow
    case Drop(name) =>
      if DroppedBefore(events, i, name) then DoubleDrop
      else if !Owned(events, i, name) then UseAfterMove else DropWhileBorrowed
    case NamesNothing => UseAfterMove
    case EarlyExit => if i != |events| - 1 then EventsAfterExit else ExitWithLiveBorrow
    case UnsupportedEvent => UnsupportedOperation
    case InvalidEvent => LifecycleEventInvalid
  }

  ghost predicate DroppedAgree(events: seq<Event>, n: nat, w: World)
    requires n <= |events|
  {
    forall x :: x in w.values && w.values[x].state == Dropped <==> DroppedBefore(events, n, x)
  }

  lemma DroppedStep(events: seq<Event>, n: nat, w: World, next: World, x: string)
    requires n < |events| && !events[n].EarlyExit? && Apply(w, events[n], n + 1 == |events|) == Next(next)
    requires x in w.values && w.values[x].state == Dropped <==> DroppedBefore(events, n, x)
    ensures x in next.values && next.values[x].state == Dropped <==> DroppedBefore(events, n + 1, x)
  {
    assert DroppedBefore(events, n + 1, x) <==> DroppedBefore(events, n, x) || events[n] == Drop(x);
  }

  lemma {:induction false} RunsDropped(events: seq<Event>, n: nat)
    requires n <= |events| && Play(events, n).Next? && (n == 0 || !events[n - 1].EarlyExit?)
    ensures DroppedAgree(events, n, Play(events, n).world)
  {
    if n == 0 {
    } else {
      var before := Play(events, n - 1);
      RunsIffPermitted(events, n - 1);
      NoEarlierExit(events, n - 1);
      RunsDropped(events, n - 1);
      forall x ensures x in Play(events, n).world.values && Play(events, n).world.values[x].state == Dropped <==>
        DroppedBefore(events, n, x) {
        DroppedStep(events, n - 1, before.world, Play(events, n).world, x);
      }
    }
  }

  lemma {:induction false} UnwindStops(w: World, n: nat)
    requires n <= |w.creationOrder| && Unwind(w, n).Stop?
    ensures Unwind(w, n).diagnostic == ExitWithLiveBorrow
    decreases n
  {
    var name := w.creationOrder[n - 1];
    if !IsLive(w, name) {
      UnwindStops(w, n - 1);
    } else if !w.values[name].Borrowed() {
      UnwindStops(Discharge(w, name), n - 1);
    }
  }

  /** The machine's diagnostic is the one the trace calls for. */
  lemma BlameIsRight(events: seq<Event>, n: nat, w: World)
    requires n < |events| && Agrees(events, n, w) && DroppedAgree(events, n, w)
    requires Apply(w, events[n], n + 1 == |events|).Stop?
    ensures Apply(w, events[n], n + 1 == |events|).diagnostic == Blame(events, n)
  {
    match events[n]
    case Create(_) =>
    case Clone(source, target) => TransferIff(events, n, w, source, target);
    case Move(source, target) => TransferIff(events, n, w, source, target);
    case Use(name) => AgreesMeans(events, n, w, name);
    case Mutate(name) => AgreesMeans(events, n, w, name);
    case BorrowShared(name, _) => AgreesMeans(events, n, w, name);
    case BorrowMut(name, _) => AgreesMeans(events, n, w, name);
    case EndBorrow(name, _) => AgreesMeans(events, n, w, name);
    case EndForeign(name) => AgreesMeans(events, n, w, name);
    case Drop(name) => AgreesMeans(events, n, w, name);
    case EarlyExit =>
      if n + 1 == |events| {
        UnwindStops(w, |w.creationOrder|);
      }
    case NamesNothing =>
    case UnsupportedEvent =>
    case InvalidEvent =>
  }

  /** Event `i` is the first that is not permitted. */
  ghost predicate FirstRefused(events: seq<Event>, i: nat) {
    i < |events| && AllPermitted(events, i) && !Permitted(events, i)
  }

  /** A run that stopped stopped at the first event that is not permitted, with the diagnostic it calls for. */
  lemma {:induction false} StopsBlaming(events: seq<Event>, n: nat) returns (i: nat)
    requires n <= |events| && Play(events, n).Stop?
    ensures FirstRefused(events, i) && Play(events, n).diagnostic == Blame(events, i)
  {
    if Play(events, n - 1).Stop? {
      i := StopsBlaming(events, n - 1);
    } else {
      i := n - 1;
      RunsIffPermitted(events, i);
      RunsIffPermitted(events, n);
      AllPermittedSnoc(events, i);
      NoEarlierExit(events, i);
      RunsDropped(events, i);
      BlameIsRight(events, i, Play(events, i).world);
    }
  }

  /** A rejection names the diagnostic of the first event that is not permitted, and there is one exactly then. */
  lemma RejectedIff(events: seq<Event>, d: Diagnostic)
    ensures (Verdict(events).Rejected? && Verdict(events).diagnostic == d) <==>
            exists i :: FirstRefused(events, i) && Blame(events, i) == d
  {
    if Verdict(events).Rejected? {
      var i := StopsBlaming(events, |events|);
      forall j | FirstRefused(events, j) ensures j == i {
        OneFirst(events, i, j);
      }
    } else {
      RunsIffPermitted(events, |events|);
    }
  }

  lemma OneFirst(events: seq<Event>, i: nat, j: nat)
    requires FirstRefused(events, i) && FirstRefused(events, j)
    ensures i == j
  {
    if i < j {
      EarlierPermitted(events, j, i);
    } else if j < i {
      EarlierPermitted(events, i, j);
    }
  }

  lemma EarlierPermitted(events: seq<Event>, n: nat, i: nat)
    requires i < n <= |events| && AllPermitted(events, n)
    ensures Permitted(events, i)
  {
  }

  // ----- what is left over -----

  ghost predicate IntroducedBefore(events: seq<Event>, x: string, y: string) {
    exists i, j :: 0 <= i < j < |events| && Introduces(events[i], x) && Introduces(events[j], y)
  }

  lemma OrderStep(w: World, e: Event, last: bool)
    requires Apply(w, e, last).Next?
    ensures var order := Apply(w, e, last).world.creationOrder;
            order == w.creationOrder || exists x :: Introduces(e, x) && order == w.creationOrder + [x]
  {
    match e
    case EarlyExit => UnwindFrame(w, |w.creationOrder|);
    case Create(name) => assert Introduces(e, name.value);
    case Clone(_, target) => assert Introduces(e, target.value);
    case Move(_, target) => assert Introduces(e, target.value);
    case _ =>
  }

  lemma {:induction false} OrderIntroduced(events: seq<Event>, n: nat, p: nat) returns (i: nat)
    requires n <= |events| && Play(events, n).Next? && p < |Play(events, n).world.creationOrder|
    ensures i < n && Introduces(events[i], Play(events, n).world.creationOrder[p])
    decreases n
  {
    var w := Play(events, n - 1).world;
    OrderStep(w, events[n - 1], n == |events|);
    if p < |w.creationOrder| {
      i := OrderIntroduced(events, n - 1, p);
    } else {
      i := n - 1;
    }
  }

  lemma {:induction false} OrderFollows(events: seq<Event>, n: nat, p: nat, q: nat) returns (i: nat, j: nat)
    requires n <= |events| && Play(events, n).Next? && p < q < |Play(events, n).world.creationOrder|
    ensures i < j < n
    ensures var order := Play(events, n).world.creationOrder;
            Introduces(events[i], order[p]) && Introduces(events[j], order[q])
    decreases n
  {
    var w := Play(events, n - 1).world;
    OrderStep(w, events[n - 1], n == |events|);
    if q < |w.creationOrder| {
      i, j := OrderFollows(events, n - 1, p, q);
    } else {
      i := OrderIntroduced(events, n - 1, p);
      j := n - 1;
    }
  }

  lemma {:induction false} LiveNamesOrder(values: map<string, Value>, order: seq<string>, a: nat, b: nat)
    returns (p: nat, q: nat)
    requires a < b < |LiveNames(values, order)|
    ensures p < q < |order| && order[p] == LiveNames(values, order)[a] && order[q] == LiveNames(values, order)[b]
  {
    var n := |order| - 1;
    var front := LiveNames(values, order[..n]);
    if b < |front| {
      p, q := LiveNamesOrder(values, order[..n], a, b);
    } else {
      q := n;
      LiveNamesMeans(values, order[..n], front[a]);
      p :| 0 <= p < n && order[..n][p] == front[a];
    }
  }

  /** A trace that ends with something owned is refused with the owned names in the order they were introduced. */
  lemma RaisedMeans(events: seq<Event>)
    requires Verdict(events).Raised?
    ensures var rest := Verdict(events).undischarged;
            && (forall x :: x in rest <==> Owned(events, |events|, x))
            && (forall a, b :: 0 <= a < b < |rest| ==> IntroducedBefore(events, rest[a], rest[b]))
  {
    var n := |events|;
    var w, rest := Play(events, n).world, Verdict(events).undischarged;
    RunsIffPermitted(events, n);
    ReachableConsistent(events, n);
    if n > 0 && events[n - 1].EarlyExit? {
      EarlyExitDischarges(events, Play(events, n - 1).world);
    } else {
      LeftOwned(events, n, w);
      forall a, b | 0 <= a < b < |rest| ensures IntroducedBefore(events, rest[a], rest[b]) {
        LeftOrdered(events, n, a, b);
      }
    }
  }

  // ----- in which order values are dropped -----

  /** The names of the drop events, in order. */
  function DropsIn(events: seq<Event>, n: nat): seq<string>
    requires n <= |events|
  {
    if n == 0 then [] else DropsIn(events, n - 1) + if events[n - 1].Drop? then [events[n - 1].name] else []
  }

  lemma {:induction false} DropOrderFollows(events: seq<Event>, n: nat)
    requires n <= |events| && Play(events, n).Next? && (n == 0 || !events[n - 1].EarlyExit?)
    ensures Play(events, n).world.dropOrder == DropsIn(events, n)
  {
    if n == 0 {
    } else {
      RunsIffPermitted(events, n - 1);
      NoEarlierExit(events, n - 1);
      DropOrderFollows(events, n - 1);
      DropStep(Play(events, n - 1).world, events[n - 1], n == |events|);
    }
  }

  lemma DropStep(w: World, e: Event, last: bool)
    requires Apply(w, e, last).Next? && !e.EarlyExit?
    ensures Apply(w, e, last).world.dropOrder == w.dropOrder + if e.Drop? then [e.name] else []
  {
  }

  /** The owned names, latest introduced first. */
  ghost predicate LatestFirst(events: seq<Event>, n: nat, names: seq<string>)
    requires n <= |events|
  {
    && (forall x :: x in names <==> Owned(events, n, x))
    && forall a, b :: 0 <= a < b < |names| ==> IntroducedBefore(events, names[b], names[a])
  }

  /** An accepted trace drops what it says it drops, in that order, and at an early exit what is still owned. */
  lemma AcceptedDrops(events: seq<Event>) returns (rest: seq<string>)
    requires Verdict(events).Accepted?
    ensures Distinct(Verdict(events).dropOrder)
    ensures if events != [] && events[|events| - 1].EarlyExit?
            then Verdict(events).dropOrder == DropsIn(events, |events| - 1) + rest &&
                 LatestFirst(events, |events| - 1, rest)
            else Verdict(events).dropOrder == DropsIn(events, |events|)
  {
    var n := |events|;
    NoDoubleDrop(events);
    RunsIffPermitted(events, n);
    rest := [];
    if n > 0 && events[n - 1].EarlyExit? {
      var w := Play(events, n - 1).world;
      AllPermittedSnoc(events, n - 1);
      RunsIffPermitted(events, n - 1);
      NoEarlierExit(events, n - 1);
      DropOrderFollows(events, n - 1);
      EarlyExitDischarges(events, w);
      rest := Reversed(LiveNames(w.values, w.creationOrder));
      ReachableConsistent(events, n - 1);
      LeftLatestFirst(events, n - 1, w);
    } else {
      DropOrderFollows(events, n);
    }
  }

  lemma LeftLatestFirst(events: seq<Event>, n: nat, w: World)
    requires n <= |events| && Play(events, n) == Next(w) && Consistent(w) && Agrees(events, n, w)
    ensures LatestFirst(events, n, Reversed(LiveNames(w.values, w.creationOrder)))
  {
    ReversedMeans(LiveNames(w.values, w.creationOrder));
    LeftOwned(events, n, w);
    LeftReversed(events, n);
  }

  lemma LeftReversed(events: seq<Event>, n: nat)
    requires n <= |events| && Play(events, n).Next?
    ensures var w := Play(events, n).world;
            var names := Reversed(LiveNames(w.values, w.creationOrder));
            forall a, b :: 0 <= a < b < |names| ==> IntroducedBefore(events, names[b], names[a])
  {
    var w := Play(events, n).world;
    var live := LiveNames(w.values, w.creationOrder);
    ReversedMeans(live);
    forall a, b | 0 <= a < b < |live| ensures IntroducedBefore(events, Reversed(live)[b], Reversed(live)[a]) {
      LeftOrdered(events, n, |live| - 1 - b, |live| - 1 - a);
    }
  }

  lemma LeftOwned(events: seq<Event>, n: nat, w: World)
    requires n <= |events| && Consistent(w) && Agrees(events, n, w)
    ensures forall x :: x in LiveNames(w.values, w.creationOrder) <==> Owned(events, n, x)
  {
    forall x ensures x in LiveNames(w.values, w.creationOrder) <==> Owned(events, n, x) {
      AgreesMeans(events, n, w, x);
      LiveNamesMeans(w.values, w.creationOrder, x);
    }
  }

  lemma LeftOrdered(events: seq<Event>, n: nat, a: nat, b: nat)
    requires n <= |events| && Play(events, n).Next?
    requires var w := Play(events, n).world; a < b < |LiveNames(w.values, w.creationOrder)|
    ensures var live := LiveNames(Play(events, n).world.values, Play(events, n).world.creationOrder);
            IntroducedBefore(events, live[a], live[b])
  {
    var w := Play(events, n).world;
    var p, q := LiveNamesOrder(w.values, w.creationOrder, a, b);
    var i, j := OrderFollows(events, n, p, q);
  }

  lemma ReversedMeans(s: seq<string>)
    ensures |Reversed(s)| == |s| && forall i :: 0 <= i < |s| ==> Reversed(s)[i] == s[|s| - 1 - i]
    ensures forall x :: x in Reversed(s) <==> x in s
  {
    assert forall i :: 0 <= i < |s| ==> s[i] == Reversed(s)[|s| - 1 - i];
  }
}
