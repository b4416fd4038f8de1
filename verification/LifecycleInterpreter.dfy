/**
 The lifecycle interpreter as written: a loop over event records that updates the table of
 values, the creation order and the drop order.
 */
module LifecycleInterpreter {
  import opened Basics
  import opened Lifecycle
  import opened LifecycleRecords

  /** Accepts exactly the sound lists of records, and otherwise reports the first record that is not permitted. */
  method ExecuteLifecycle(records: seq<Option<Record>>) returns (r: Outcome)
    ensures r == Verdict(ReadAll(records))
    ensures r.Accepted? <==> Sound(records)
    ensures r.Rejected? ==> exists i :: FirstRefused(records, i) && Blame(records, i) == r.diagnostic
  {
    r := Interpret(records);
    AcceptedIffSound(records);
    if r.Rejected? {
      RejectedIff(records, r.diagnostic);
    }
  }

  method Interpret(records: seq<Option<Record>>) returns (r: Outcome)
    ensures r == Verdict(ReadAll(records))
  {
    ghost var events := ReadAll(records);
    var values: map<string, Value>, creationOrder: seq<string>, dropOrder: seq<string> := map[], [], [];
    for i := 0 to |records|
      invariant Play(events, i) == Next(World(values, creationOrder, dropOrder))
    {
      var failure: Option<Diagnostic>;
      failure, values, creationOrder, dropOrder :=
        Execute(Read(records[i]), i + 1 == |records|, values, creationOrder, dropOrder);
      if failure.Some? {
        StopsForGood(events, i + 1, |events|);
        return Rejected(failure.value, dropOrder);
      }
    }
    var undischarged := LiveNames(values, creationOrder);
    r := if undischarged == [] then Accepted(dropOrder) else Raised(undischarged);
  }

  ghost function AsStep(failure: Option<Diagnostic>, w: World): Step {
    if failure.Some? then Stop(failure.value, w) else Next(w)
  }

  /** The body of the event loop, on the interpreter's own variables. */
  method Execute(e: Event, last: bool, values: map<string, Value>, creationOrder: seq<string>, dropOrder: seq<string>)
    returns (
      failure: Option<Diagnostic>, values': map<string, Value>, creationOrder': seq<string>, dropOrder': seq<string>)
    ensures AsStep(failure, World(values', creationOrder', dropOrder')) ==
            Apply(World(values, creationOrder, dropOrder), e, last)
  {
    failure, values', creationOrder', dropOrder' := None, values, creationOrder, dropOrder;
    match e
    case Create(name) =>
      if name.None? || name.value in values {
        failure := Some(DuplicateValue);
        return;
      }
      values' := values[name.value := FRESH];
      creationOrder' := creationOrder + [name.value];
    case Clone(source, target) =>
      if source !in values || values[source].state != Live {
        failure := Some(UseAfterMove);
      } else if values[source].mutable.Some? {
        failure := Some(CloneWhileMutablyBorrowed);
      } else if target.None? || target.value in values {
        failure := Some(DuplicateValue);
      } else {
        values' := values[target.value := FRESH];
        creationOrder' := creationOrder + [target.value];
      }
    case Move(source, target) =>
      if source !in values || values[source].state != Live {
        failure := Some(UseAfterMove);
      } else if values[source].Borrowed() {
        failure := Some(MoveWhileBorrowed);
      } else if target.None? || target.value in values {
        failure := Some(DuplicateValue);
      } else {
        values' := values[source := values[source].(state := Moved)];
        values' := values'[target.value := FRESH];
        creationOrder' := creationOrder + [target.value];
      }
    case Drop(name) =>
      if name !in values {
        failure := Some(UseAfterMove);
      } else if values[name].state == Dropped {
        failure := Some(DoubleDrop);
      } else if values[name].state != Live {
        failure := Some(UseAfterMove);
      } else if values[name].Borrowed() {
        failure := Some(DropWhileBorrowed);
      } else {
        values' := values[name := values[name].(state := Dropped)];
        dropOrder' := dropOrder + [name];
      }
    case NamesNothing => failure := Some(UseAfterMove);
    case EarlyExit =>
      if !last {
        failure := Some(EventsAfterExit);
        return;
      }
      failure, values', dropOrder' := ExitEarly(values, creationOrder, dropOrder);
    case UnsupportedEvent => failure := Some(UnsupportedOperation);
    case InvalidEvent => failure := Some(LifecycleEventInvalid);
    case _ => failure, values' := ExecuteAccess(e, last, values, creationOrder, dropOrder);
  }

  /** Uses and borrows, which touch one live value. */
  method ExecuteAccess(
    e: Event, ghost last: bool, values: map<string, Value>,
    ghost creationOrder: seq<string>, ghost dropOrder: seq<string>)
    returns (failure: Option<Diagnostic>, values': map<string, Value>)
    requires e.Use? || e.Mutate? || e.BorrowShared? || e.BorrowMut? || e.EndBorrow? || e.EndForeign?
    ensures AsStep(failure, World(values', creationOrder, dropOrder)) ==
            Apply(World(values, creationOrder, dropOrder), e, last)
  {
    failure, values' := None, values;
    var name := e.name;
    if name !in values || values[name].state != Live {
      failure := Some(UseAfterMove);
      return;
    }
    var v := values[name];
    match e
    case Use(_) =>
      if v.mutable.Some? {
        failure := Some(UseWhileMutablyBorrowed);
      }
    case Mutate(_) =>
      if v.Borrowed() {
        failure := Some(MutationWhileBorrowed);
      }
    case BorrowShared(_, borrow) =>
      if borrow.None? || borrow.value == "" {
        failure := Some(BorrowIdRequired);
      } else if v.mutable.Some? {
        failure := Some(BorrowConflict);
      } else {
        values' := values[name := v.(shared := v.shared + {borrow.value})];
      }
    case BorrowMut(_, borrow) =>
      if borrow.None? || borrow.value == "" {
        failure := Some(BorrowIdRequired);
      } else if v.Borrowed() {
        failure := Some(BorrowConflict);
      } else {
        values' := values[name := v.(mutable := borrow)];
      }
    case EndBorrow(_, borrow) =>
      if v.mutable == borrow {
        values' := values[name := v.(mutable := None)];
      } else if borrow.None? || borrow.value !in v.shared {
        failure := Some(UnknownBorrow);
      } else {
        values' := values[name := v.(shared := v.shared - {borrow.value})];
      }
    case EndForeign(_) => failure := Some(UnknownBorrow);
  }

  method ExitEarly(values: map<string, Value>, creationOrder: seq<string>, dropOrder: seq<string>)
    returns (failure: Option<Diagnostic>, values': map<string, Value>, dropOrder': seq<string>)
    ensures AsStep(failure, World(values', creationOrder, dropOrder')) ==
            Unwind(World(values, creationOrder, dropOrder), |creationOrder|)
  {
    failure, values', dropOrder' := None, values, dropOrder;
    var n := |creationOrder|;
    while n > 0
      invariant 0 <= n <= |creationOrder| && failure.None?
      invariant Unwind(World(values, creationOrder, dropOrder), |creationOrder|) ==
                Unwind(World(values', creationOrder, dropOrder'), n)
    {
      n := n - 1;
      var name := creationOrder[n];
      if name in values' && values'[name].state == Live {
        if values'[name].Borrowed() {
          failure := Some(ExitWithLiveBorrow);
          return;
        }
        values' := values'[name := values'[name].(state := Dropped)];
        dropOrder' := dropOrder' + [name];
      }
    }
  }
}
