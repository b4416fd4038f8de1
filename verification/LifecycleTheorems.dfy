/**
 What every run of the ownership machine keeps: borrow exclusion, one drop per name, and,
 once a run is accepted, one discharged obligation per created or cloned value.
 */
module LifecycleTheorems {
  import opened Basics
  import opened Lifecycle

  // ----- what every world satisfies -----

  /** Mutable and shared borrows exclude each other; moved and dropped values are not borrowed. */
  ghost predicate BorrowsExclude(v: Value) {
    (v.mutable.Some? ==> v.shared == {}) && (v.state != Live ==> !v.Borrowed())
  }

  ghost predicate Consistent(w: World) {
    && Distinct(w.creationOrder)
    && (forall x :: x in w.creationOrder <==> x in w.values)
    && Distinct(w.dropOrder)
    && (forall x :: x in w.dropOrder <==> x in w.values && w.values[x].state == Dropped)
    && (forall x :: x in w.values ==> BorrowsExclude(w.values[x]))
  }

  lemma DistinctSnoc<T>(s: seq<T>, x: T)
    requires Distinct(s) && x !in s
    ensures Distinct(s + [x])
  {
  }

  lemma DischargeKeeps(w: World, name: string)
    requires Consistent(w) && IsLive(w, name) && !w.values[name].Borrowed()
    ensures Consistent(Discharge(w, name))
  {
    DistinctSnoc(w.dropOrder, name);
  }

  lemma IntroduceKeeps(w: World, name: string)
    requires Consistent(w) && name !in w.values
    ensures Consistent(Introduce(w, name))
  {
    DistinctSnoc(w.creationOrder, name);
  }

  lemma UpdateKeeps(w: World, name: string, v: Value)
    requires Consistent(w) && IsLive(w, name) && v.state != Dropped && BorrowsExclude(v)
    ensures Consistent(Update(w, name, v))
  {
  }

  lemma {:induction false} UnwindKeeps(w: World, n: nat)
    requires Consistent(w) && n <= |w.creationOrder|
    ensures Consistent(Unwind(w, n).world)
    decreases n
  {
    if n == 0 {
    } else {
      var name := w.creationOrder[n - 1];
      if !IsLive(w, name) {
        UnwindKeeps(w, n - 1);
      } else if !w.values[name].Borrowed() {
        DischargeKeeps(w, name);
        UnwindKeeps(Discharge(w, name), n - 1);
      }
    }
  }

  /** Every event, accepted or not, leaves a consistent world. */
  lemma ApplyKeeps(w: World, e: Event, last: bool)
    requires Consistent(w)
    ensures Consistent(Apply(w, e, last).world)
  {
    if Apply(w, e, last).Next? {
      match e
      case Create(name) => IntroduceKeeps(w, name.value);
      case Clone(_, target) => IntroduceKeeps(w, target.value);
      case Move(source, target) =>
        UpdateKeeps(w, source, w.values[source].(state := Moved));
        IntroduceKeeps(Update(w, source, w.values[source].(state := Moved)), target.value);
      case BorrowShared(name, borrow) =>
        var v := w.values[name];
        UpdateKeeps(w, name, v.(shared := v.shared + {borrow.value}));
      case BorrowMut(name, borrow) => UpdateKeeps(w, name, w.values[name].(mutable := borrow));
      case EndBorrow(name, borrow) =>
        var v := w.values[name];
        if v.mutable == borrow {
          UpdateKeeps(w, name, v.(mutable := None));
        } else {
          UpdateKeeps(w, name, v.(shared := v.shared - {borrow.value}));
        }
      case Drop(name) => DischargeKeeps(w, name);
      case EarlyExit => UnwindKeeps(w, |w.creationOrder|);
      case _ =>
    } else if e.EarlyExit? && last {
      UnwindKeeps(w, |w.creationOrder|);
    }
  }

  lemma {:induction false} ReachableConsistent(events: seq<Event>, n: nat)
    requires n <= |events|
    ensures Consistent(Play(events, n).world)
  {
    if n == 0 {
    } else {
      ReachableConsistent(events, n - 1);
      if Play(events, n - 1).Next? {
        ApplyKeeps(Play(events, n - 1).world, events[n - 1], n == |events|);
      }
    }
  }

  /** Accepted, rejected or cut short, no run drops a name twice. */
  lemma NoDoubleDrop(events: seq<Event>)
    ensures var r := Verdict(events);
            (r.Accepted? ==> Distinct(r.dropOrder)) && (r.Rejected? ==> Distinct(r.dropOrder))
  {
    ReachableConsistent(events, |events|);
  }

  // ----- early exit -----

  function Reversed(s: seq<string>): seq<string> {
    if s == [] then [] else [s[|s| - 1]] + Reversed(s[..|s| - 1])
  }

  lemma {:induction false} LiveNamesMeans(values: map<string, Value>, order: seq<string>, x: string)
    ensures x in LiveNames(values, order) <==> x in order && x in values && values[x].state == Live
  {
    if order == [] {
    } else {
      var n := |order| - 1;
      LiveNamesMeans(values, order[..n], x);
      assert x in order <==> x in order[..n] || x == order[n];
    }
  }

  lemma {:induction false} LiveNamesSame(a: map<string, Value>, b: map<string, Value>, order: seq<string>)
    requires forall x :: x in order ==> (x in a && a[x].state == Live <==> x in b && b[x].state == Live)
    ensures LiveNames(a, order) == LiveNames(b, order)
  {
    if order == [] {
    } else {
      assert forall x :: x in order[..|order| - 1] ==> x in order;
      LiveNamesSame(a, b, order[..|order| - 1]);
    }
  }

  lemma {:induction false} UnwindFrame(w: World, n: nat)
    requires n <= |w.creationOrder|
    ensures var r := Unwind(w, n).world;
            && r.creationOrder == w.creationOrder && r.values.Keys == w.values.Keys
            && forall x :: x in w.values && (!IsLive(w, x) || x !in w.creationOrder[..n]) ==> r.values[x] == w.values[x]
    decreases n
  {
    if n == 0 {
    } else {
      var name := w.creationOrder[n - 1];
      assert forall x :: x in w.creationOrder[..n] <==> x in w.creationOrder[..n - 1] || x == name;
      if !IsLive(w, name) {
        UnwindFrame(w, n - 1);
      } else if !w.values[name].Borrowed() {
        UnwindFrame(Discharge(w, name), n - 1);
      }
    }
  }

  /** Unwinding stops exactly at a borrowed live value; otherwise nothing it passed stays live. */
  lemma {:induction false} UnwindClears(w: World, n: nat)
    requires Consistent(w) && n <= |w.creationOrder|
    ensures Unwind(w, n).Next? <==> forall x :: x in w.creationOrder[..n] && IsLive(w, x) ==> !w.values[x].Borrowed()
    ensures Unwind(w, n).Next? ==> forall x :: x in w.creationOrder[..n] ==> !IsLive(Unwind(w, n).world, x)
    decreases n
  {
    if n == 0 {
    } else {
      var name, prefix := w.creationOrder[n - 1], w.creationOrder[..n - 1];
      assert forall x :: x in w.creationOrder[..n] <==> x in prefix || x == name;
      assert name !in prefix;
      if !IsLive(w, name) {
        UnwindClears(w, n - 1);
        UnwindFrame(w, n - 1);
      } else if !w.values[name].Borrowed() {
        var d := Discharge(w, name);
        DischargeKeeps(w, name);
        UnwindClears(d, n - 1);
        UnwindFrame(d, n - 1);
      }
    }
  }

  /** The live values are dropped latest first. */
  lemma {:induction false} UnwindDrops(w: World, n: nat)
    requires Distinct(w.creationOrder) && n <= |w.creationOrder| && Unwind(w, n).Next?
    ensures Unwind(w, n).world.dropOrder == w.dropOrder + Reversed(LiveNames(w.values, w.creationOrder[..n]))
    decreases n
  {
    if n == 0 {
      assert w.creationOrder[..0] == [];
    } else {
      var name, prefix := w.creationOrder[n - 1], w.creationOrder[..n - 1];
      LiveNamesSnoc(w.values, w.creationOrder, n);
      if !IsLive(w, name) {
        UnwindDrops(w, n - 1);
      } else {
        assert name !in prefix;
        DischargeDrops(w, name, prefix);
        UnwindDrops(Discharge(w, name), n - 1);
        DropsAppend(w.dropOrder, name, LiveNames(w.values, prefix));
      }
    }
  }

  lemma DropsAppend(drops: seq<string>, name: string, live: seq<string>)
    ensures drops + [name] + Reversed(live) == drops + Reversed(live + [name])
  {
    ReversedSnoc(live, name);
    assert drops + [name] + Reversed(live) == drops + ([name] + Reversed(live));
  }

  lemma LiveNamesSnoc(values: map<string, Value>, order: seq<string>, n: nat)
    requires 0 < n <= |order|
    ensures var name := order[n - 1];
            var live := LiveNames(values, order[..n - 1]);
            LiveNames(values, order[..n]) ==
            if name in values && values[name].state == Live then live + [name] else live
  {
    assert order[..n][..n - 1] == order[..n - 1];
  }

  lemma DischargeDrops(w: World, name: string, prefix: seq<string>)
    requires IsLive(w, name) && name !in prefix
    ensures var d := Discharge(w, name);
            d.dropOrder == w.dropOrder + [name] && LiveNames(d.values, prefix) == LiveNames(w.values, prefix)
  {
    LiveNamesSame(w.values, Discharge(w, name).values, prefix);
  }

  lemma ReversedSnoc(s: seq<string>, x: string)
    ensures Reversed(s + [x]) == [x] + Reversed(s)
  {
    assert (s + [x])[..|s|] == s;
  }

  lemma {:induction false} NoneLive(values: map<string, Value>, order: seq<string>)
    requires forall x :: x in order ==> !(x in values && values[x].state == Live)
    ensures LiveNames(values, order) == []
  {
    if LiveNames(values, order) != [] {
      var x := LiveNames(values, order)[0];
      LiveNamesMeans(values, order, x);
    }
  }

  /** A successful early exit drops exactly the live values in reverse order and the run is then accepted. */
  lemma EarlyExitDischarges(events: seq<Event>, w: World)
    requires events != [] && events[|events| - 1].EarlyExit? && Play(events, |events| - 1) == Next(w)
    ensures Play(events, |events|).Next? <==>
            forall x :: x in w.values && w.values[x].state == Live ==> !w.values[x].Borrowed()
    ensures Play(events, |events|).Next? ==>
            Verdict(events) == Accepted(w.dropOrder + Reversed(LiveNames(w.values, w.creationOrder)))
  {
    ReachableConsistent(events, |events| - 1);
    ExitDischarges(w);
    ExitIsUnwind(events, w);
  }

  lemma ExitIsUnwind(events: seq<Event>, w: World)
    requires events != [] && events[|events| - 1].EarlyExit? && Play(events, |events| - 1) == Next(w)
    ensures Play(events, |events|) == Unwind(w, |w.creationOrder|)
  {
    assert events[|events| - 1] == EarlyExit;
  }

  lemma ExitDischarges(w: World)
    requires Consistent(w)
    ensures var r := Unwind(w, |w.creationOrder|);
            && (r.Next? <==> forall x :: x in w.values && w.values[x].state == Live ==> !w.values[x].Borrowed())
            && (r.Next? ==> r.world.dropOrder == w.dropOrder + Reversed(LiveNames(w.values, w.creationOrder)))
            && (r.Next? ==> LiveNames(r.world.values, r.world.creationOrder) == [])
  {
    var n := |w.creationOrder|;
    assert w.creationOrder[..n] == w.creationOrder;
    UnwindClears(w, n);
    UnwindFrame(w, n);
    if Unwind(w, n).Next? {
      UnwindDrops(w, n);
      NoneLive(Unwind(w, n).world.values, w.creationOrder);
    }
  }

  // ----- dead names stay dead -----

  ghost predicate Mentions(e: Event, name: string) {
    match e
    case Create(n) => n == Some(name)
    case Clone(source, target) => source == name || target == Some(name)
    case Move(source, target) => source == name || target == Some(name)
    case Use(n) => n == name
    case Mutate(n) => n == name
    case BorrowShared(n, _) => n == name
    case BorrowMut(n, _) => n == name
    case EndBorrow(n, _) => n == name
    case Drop(n) => n == name
    case EndForeign(n) => n == name
    case _ => false
  }

  lemma DeadUntouched(w: World, e: Event, last: bool, name: string)
    requires Consistent(w) && name in w.values && !IsLive(w, name) && Apply(w, e, last).Next?
    ensures !Mentions(e, name)
    ensures name in Apply(w, e, last).world.values && Apply(w, e, last).world.values[name] == w.values[name]
  {
    if e.EarlyExit? {
      UnwindFrame(w, |w.creationOrder|);
    }
  }

  /** `name` is known, holds `v`, and `v` is moved or dropped. */
  ghost predicate DeadAs(s: Step, name: string, v: Value) {
    s.Next? && name in s.world.values && s.world.values[name] == v && v.state != Live
  }

  lemma StepBack(events: seq<Event>, m: nat)
    requires 0 < m <= |events| && Play(events, m).Next?
    ensures Play(events, m - 1).Next?
    ensures Play(events, m) == Apply(Play(events, m - 1).world, events[m - 1], m == |events|)
  {
  }

  lemma DeadStep(events: seq<Event>, m: nat, name: string, v: Value)
    requires m < |events| && DeadAs(Play(events, m), name, v) && Play(events, m + 1).Next?
    ensures DeadAs(Play(events, m + 1), name, v) && !Mentions(events[m], name)
  {
    ReachableConsistent(events, m);
    StepBack(events, m + 1);
    DeadUntouched(Play(events, m).world, events[m], m + 1 == |events|, name);
  }

  /** Once moved or dropped, a name keeps its record in the rest of the run. */
  lemma {:induction false} DeadForever(events: seq<Event>, n: nat, m: nat, name: string, v: Value)
    requires n <= m <= |events| && Play(events, m).Next? && DeadAs(Play(events, n), name, v)
    ensures DeadAs(Play(events, m), name, v)
    decreases m
  {
    if n < m {
      StepBack(events, m);
      DeadForever(events, n, m - 1, name, v);
      DeadStep(events, m - 1, name, v);
    }
  }

  /** Once moved or dropped, a name is never used, borrowed, dropped or introduced again. */
  lemma {:induction false} DeadNeverMentioned(events: seq<Event>, n: nat, i: nat, m: nat, name: string, v: Value)
    requires n <= i < m <= |events| && Play(events, m).Next? && DeadAs(Play(events, n), name, v)
    ensures !Mentions(events[i], name)
    decreases m
  {
    StepBack(events, m);
    if i == m - 1 {
      DeadForever(events, n, i, name, v);
      DeadStep(events, i, name, v);
    } else {
      DeadNeverMentioned(events, n, i, m - 1, name, v);
    }
  }
}
