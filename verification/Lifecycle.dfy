/**
 The ownership machine of Dynamic Aggregate ABI v1: a trace of create, clone, move, borrow,
 drop and early-exit events is played against a table of named values, and every value must
 end up dropped exactly once.
 */
module Lifecycle {
  import opened Basics

  datatype Ownership = Live | Moved | Dropped

  datatype Value = Value(state: Ownership, shared: set<string>, mutable: Option<string>)
  {
    predicate Borrowed() {
      shared != {} || mutable.Some?
    }
  }

  /** What an event does, once its members are read; a target or borrow identifier `None` is not a string. */
  datatype Event =
    | Create(target: Option<string>)
    | Clone(source: string, target: Option<string>)
    | Move(source: string, target: Option<string>)
    | Use(name: string)
    | Mutate(name: string)
    | BorrowShared(name: string, borrow: Option<string>)
    | BorrowMut(name: string, borrow: Option<string>)
    | EndBorrow(name: string, borrow: Option<string>)  // None: no identifier is given
    | EndForeign(name: string)  // the identifier is given and not a string
    | Drop(name: string)
    | NamesNothing  // the value acted on is given and not a string
    | EarlyExit
    | UnsupportedEvent
    | InvalidEvent

  datatype Diagnostic =
    | UseAfterMove | DuplicateValue | CloneWhileMutablyBorrowed | MoveWhileBorrowed
    | UseWhileMutablyBorrowed | MutationWhileBorrowed | BorrowIdRequired | BorrowConflict
    | UnknownBorrow | DoubleDrop | DropWhileBorrowed | EventsAfterExit | ExitWithLiveBorrow
    | UnsupportedOperation | LifecycleEventInvalid

  datatype World = World(values: map<string, Value>, creationOrder: seq<string>, dropOrder: seq<string>)

  /** A rejected step keeps the world it had reached: an early exit may stop half way. */
  datatype Step = Next(world: World) | Stop(diagnostic: Diagnostic, world: World)

  datatype Outcome =
    | Accepted(dropOrder: seq<string>)
    | Rejected(diagnostic: Diagnostic, dropOrder: seq<string>)
    | Raised(undischarged: seq<string>)

  // ----- one event -----

  predicate IsLive(w: World, name: string) {
    name in w.values && w.values[name].state == Live
  }

  const FRESH := Value(Live, {}, None)

  function Introduce(w: World, name: string): World {
    w.(values := w.values[name := FRESH], creationOrder := w.creationOrder + [name])
  }

  function Update(w: World, name: string, v: Value): World {
    w.(values := w.values[name := v])
  }

  function Discharge(w: World, name: string): World
    requires name in w.values
  {
    w.(values := w.values[name := w.values[name].(state := Dropped)], dropOrder := w.dropOrder + [name])
  }

  function Apply(w: World, e: Event, last: bool): Step {
    match e
    case Create(name) =>
      if name.None? || name.value in w.values then Stop(DuplicateValue, w) else Next(Introduce(w, name.value))
    case Clone(source, target) =>
      if !IsLive(w, source) then Stop(UseAfterMove, w)
      else if w.values[source].mutable.Some? then Stop(CloneWhileMutablyBorrowed, w)
      else if target.None? || target.value in w.values then Stop(DuplicateValue, w)
      else Next(Introduce(w, target.value))
    case Move(source, target) =>
      if !IsLive(w, source) then Stop(UseAfterMove, w)
      else if w.values[source].Borrowed() then Stop(MoveWhileBorrowed, w)
      else if target.None? || target.value in w.values then Stop(DuplicateValue, w)
      else Next(Introduce(Update(w, source, w.values[source].(state := Moved)), target.value))
    case Use(name) =>
      if !IsLive(w, name) then Stop(UseAfterMove, w)
      else if w.values[name].mutable.Some? then Stop(UseWhileMutablyBorrowed, w)
      else Next(w)
    case Mutate(name) =>
      if !IsLive(w, name) then Stop(UseAfterMove, w)
      else if w.values[name].Borrowed() then Stop(MutationWhileBorrowed, w)
      else Next(w)
    case BorrowShared(name, borrow) =>
      if !IsLive(w, name) then Stop(UseAfterMove, w)
      else if borrow.None? || borrow.value == "" then Stop(BorrowIdRequired, w)
      else
        var v := w.values[name];
        if v.mutable.Some? then Stop(BorrowConflict, w)
        else Next(Update(w, name, v.(shared := v.shared + {borrow.value})))
    case BorrowMut(name, borrow) =>
      if !IsLive(w, name) then Stop(UseAfterMove, w)
      else if borrow.None? || borrow.value == "" then Stop(BorrowIdRequired, w)
      else
        var v := w.values[name];
        if v.Borrowed() then Stop(BorrowConflict, w)
        else Next(Update(w, name, v.(mutable := borrow)))
    case EndBorrow(name, borrow) =>
      if !IsLive(w, name) then Stop(UseAfterMove, w)
      else
        var v := w.values[name];
        // A missing borrow id matches an absent mutable borrow, and then nothing changes.
        if v.mutable == borrow then Next(Update(w, name, v.(mutable := None)))
        else if borrow.None? || borrow.value !in v.shared then Stop(UnknownBorrow, w)
        else Next(Update(w, name, v.(shared := v.shared - {borrow.value})))
    case EndForeign(name) => if !IsLive(w, name) then Stop(UseAfterMove, w) else Stop(UnknownBorrow, w)
    case Drop(name) =>
      if name !in w.values then Stop(UseAfterMove, w)
      else if w.values[name].state == Dropped then Stop(DoubleDrop, w)
      else if !IsLive(w, name) then Stop(UseAfterMove, w)
      else if w.values[name].Borrowed() then Stop(DropWhileBorrowed, w)
      else Next(Discharge(w, name))
    case NamesNothing => Stop(UseAfterMove, w)
    case EarlyExit =>
      if !last then Stop(EventsAfterExit, w) else Unwind(w, |w.creationOrder|)
    case UnsupportedEvent => Stop(UnsupportedOperation, w)
    case InvalidEvent => Stop(LifecycleEventInvalid, w)
  }

  /** Discharges the live values among the first `n` introduced, latest first. */
  function Unwind(w: World, n: nat): Step
    requires n <= |w.creationOrder|
    decreases n
  {
    if n == 0 then Next(w)
    else
      var name := w.creationOrder[n - 1];
      if !IsLive(w, name) then Unwind(w, n - 1)
      else if w.values[name].Borrowed() then Stop(ExitWithLiveBorrow, w)
      else Unwind(Discharge(w, name), n - 1)
  }

  // ----- a trace -----

  const EMPTY := World(map[], [], [])

  /** The world after the first `n` events, or where an event stopped it. */
  function Play(events: seq<Event>, n: nat): Step
    requires n <= |events|
  {
    if n == 0 then Next(EMPTY)
    else
      match Play(events, n - 1)
      case Next(w) => Apply(w, events[n - 1], n == |events|)
      case Stop(d, w) => Stop(d, w)
  }

  function LiveNames(values: map<string, Value>, order: seq<string>): seq<string> {
    if order == [] then []
    else
      var n := |order| - 1;
      LiveNames(values, order[..n]) +
      if order[n] in values && values[order[n]].state == Live then [order[n]] else []
  }

  function Verdict(events: seq<Event>): Outcome {
    match Play(events, |events|)
    case Stop(d, w) => Rejected(d, w.dropOrder)
    case Next(w) =>
      var undischarged := LiveNames(w.values, w.creationOrder);
      if undischarged == [] then Accepted(w.dropOrder) else Raised(undischarged)
  }

  lemma {:induction false} StopsForGood(events: seq<Event>, i: nat, n: nat)
    requires i <= n <= |events| && Play(events, i).Stop?
    ensures Play(events, n) == Play(events, i)
    decreases n
  {
    if i < n {
      StopsForGood(events, i, n - 1);
    }
  }

  // ----- reading event records -----

  /** A member of an event record; `Zero` is another value that counts as false, `Other` any other non-string. */
  datatype Member = Absent | Null | Text(text: string) | Zero | Other

  datatype Record = Record(op: Member, value: Member, source: Member, target: Member, borrow: Member)

  function TextOf(m: Member): Option<string> {
    if m.Text? then Some(m.text) else None
  }

  /** The value acted on; whatever counts as false reads as the empty name, other non-strings name nothing. */
  function ValueName(m: Member): Option<string> {
    if m.Text? then Some(m.text) else if m.Other? then None else Some("")
  }

  /** The source of a clone or move; only a missing one reads as the empty name. */
  function SourceName(m: Member): Option<string> {
    if m.Text? then Some(m.text) else if m.Absent? then Some("") else None
  }

  /** `None` is a record that is not an object. */
  function Read(record: Option<Record>): Event {
    if record.None? || !record.value.op.Text? then InvalidEvent
    else
      var r, op := record.value, record.value.op.text;
      if op == "create" then Create(TextOf(r.value))
      else if op == "clone" || op == "move" then
        var source := SourceName(r.source);
        if source.None? then NamesNothing
        else if op == "clone" then Clone(source.value, TextOf(r.target)) else Move(source.value, TextOf(r.target))
      else if op == "drop" then (if r.value.Text? then Drop(r.value.text) else NamesNothing)
      else if op == "early_exit" then EarlyExit
      else ReadAccess(r, op)
  }

  function ReadAccess(r: Record, op: string): Event {
    var name := ValueName(r.value);
    if op !in {"use", "mutate", "borrow_shared", "borrow_mut", "end_borrow"} then UnsupportedEvent
    else if name.None? then NamesNothing
    else if op == "use" then Use(name.value)
    else if op == "mutate" then Mutate(name.value)
    else if op == "borrow_shared" then BorrowShared(name.value, TextOf(r.borrow))
    else if op == "borrow_mut" then BorrowMut(name.value, TextOf(r.borrow))
    else if r.borrow.Text? || r.borrow.Absent? || r.borrow.Null? then EndBorrow(name.value, TextOf(r.borrow))
    else EndForeign(name.value)
  }

  function ReadAll(records: seq<Option<Record>>): seq<Event> {
    seq(|records|, i requires 0 <= i < |records| => Read(records[i]))
  }
}
