/**
 Following moves: every created or cloned value starts a chain of names, a move hands the
 obligation to the next name, and an accepted run drops the last name of each chain and
 nothing else.
 */
module LifecycleChains {
  import opened Basics
  import opened Lifecycle
  import opened LifecycleTheorems

  /** The names introduced by create and clone in the first `n` events, in order. */
  function Introduced(events: seq<Event>, n: nat): seq<string>
    requires n <= |events|
  {
    if n == 0 then []
    else
      Introduced(events, n - 1) +
      match events[n - 1]
      case Create(name) => (if name.Some? then [name.value] else [])
      case Clone(_, target) => (if target.Some? then [target.value] else [])
      case _ => []
  }

  /** Hands the chain that ends in `source` on to `target`. */
  function Extend(chains: seq<seq<string>>, source: string, target: string): seq<seq<string>> {
    if chains == [] then []
    else if chains[0] != [] && chains[0][|chains[0]| - 1] == source then [chains[0] + [target]] + chains[1..]
    else [chains[0]] + Extend(chains[1..], source, target)
  }

  /** One chain per created or cloned value; moves extend chains. */
  function Chains(events: seq<Event>, n: nat): seq<seq<string>>
    requires n <= |events|
  {
    if n == 0 then []
    else
      var before := Chains(events, n - 1);
      match events[n - 1]
      case Create(name) => (if name.Some? then before + [[name.value]] else before)
      case Clone(_, target) => (if target.Some? then before + [[target.value]] else before)
      case Move(source, target) => (if target.Some? then Extend(before, source, target.value) else before)
      case _ => before
  }

  ghost predicate Occurs(chains: seq<seq<string>>, k: int, i: int, x: string) {
    0 <= k < |chains| && 0 <= i < |chains[k]| && chains[k][i] == x
  }

  ghost predicate Disjoint(chains: seq<seq<string>>) {
    forall k, i, l, j, x :: Occurs(chains, k, i, x) && Occurs(chains, l, j, x) ==> k == l && i == j
  }

  ghost predicate Ends(chains: seq<seq<string>>, k: int, x: string) {
    0 <= k < |chains| && chains[k] != [] && chains[k][|chains[k]| - 1] == x
  }

  /** The chains list every name once; a name is moved exactly when its chain goes on after it. */
  ghost predicate Lineage(chains: seq<seq<string>>, w: World) {
    && (forall k :: 0 <= k < |chains| ==> chains[k] != [])
    && Disjoint(chains)
    && (forall k, i, x :: Occurs(chains, k, i, x) ==>
          x in w.values && (w.values[x].state == Moved <==> i < |chains[k]| - 1))
    && (forall x :: x in w.values ==> exists k, i :: Occurs(chains, k, i, x))
  }

  ghost predicate SameMoved(before: World, after: World) {
    && after.values.Keys == before.values.Keys
    && forall x :: x in before.values ==> (after.values[x].state == Moved <==> before.values[x].state == Moved)
  }

  lemma LineageSame(chains: seq<seq<string>>, before: World, after: World)
    requires Lineage(chains, before) && SameMoved(before, after)
    ensures Lineage(chains, after)
  {
  }

  lemma LineageAdd(chains: seq<seq<string>>, w: World, name: string)
    requires Lineage(chains, w) && name !in w.values
    ensures Lineage(chains + [[name]], Introduce(w, name))
  {
    var longer := chains + [[name]];
    forall k, i, x | Occurs(longer, k, i, x)
      ensures if k < |chains| then Occurs(chains, k, i, x) else k == |chains| && i == 0 && x == name
    {
    }
    forall x | x in Introduce(w, name).values ensures exists k, i :: Occurs(longer, k, i, x) {
      if x == name {
        assert Occurs(longer, |chains|, 0, x);
      } else {
        var k, i :| Occurs(chains, k, i, x);
        assert Occurs(longer, k, i, x);
      }
    }
  }

  lemma {:induction false} ExtendAt(chains: seq<seq<string>>, k: nat, source: string, target: string)
    requires (forall l :: 0 <= l < |chains| ==> chains[l] != []) && Ends(chains, k, source)
    requires forall l :: Ends(chains, l, source) ==> l == k
    ensures Extend(chains, source, target) == chains[k := chains[k] + [target]]
  {
    if k > 0 {
      assert !Ends(chains, 0, source);
      var rest := chains[1..];
      assert forall l :: Ends(rest, l, source) ==> Ends(chains, l + 1, source);
      ExtendAt(rest, k - 1, source, target);
      assert Extend(chains, source, target) == [chains[0]] + rest[k - 1 := rest[k - 1] + [target]];
    } else {
      assert Extend(chains, source, target) == [chains[0] + [target]] + chains[1..];
    }
  }

  /** A live name ends a chain. */
  lemma LiveEnds(chains: seq<seq<string>>, w: World, name: string) returns (k: nat)
    requires Lineage(chains, w) && IsLive(w, name)
    ensures Ends(chains, k, name)
    ensures forall l :: Ends(chains, l, name) ==> l == k
  {
    var k', i :| Occurs(chains, k', i, name);
    k := k';
    forall l | Ends(chains, l, name) ensures l == k {
      assert Occurs(chains, l, |chains[l]| - 1, name);
    }
  }

  ghost function AfterMove(w: World, source: string, target: string): World
    requires source in w.values
  {
    Introduce(Update(w, source, w.values[source].(state := Moved)), target)
  }

  lemma LineageMove(chains: seq<seq<string>>, w: World, source: string, target: string)
    requires Lineage(chains, w) && IsLive(w, source) && target !in w.values
    ensures Lineage(Extend(chains, source, target), AfterMove(w, source, target))
  {
    var k := LiveEnds(chains, w, source);
    ExtendAt(chains, k, source, target);
    var after, n := Extend(chains, source, target), |chains[k]|;
    forall l, i, x | Occurs(after, l, i, x)
      ensures Occurs(chains, l, i, x) || (l == k && i == n && x == target)
    {
    }
    assert forall i :: 0 <= i < n ==> after[k][i] == chains[k][i];
    forall l, i, x | Occurs(after, l, i, x)
      ensures x in AfterMove(w, source, target).values
      ensures AfterMove(w, source, target).values[x].state == Moved <==> i < |after[l]| - 1
    {
      if Occurs(chains, l, i, x) {
        assert Occurs(chains, k, n - 1, source);
      }
    }
    forall x | x in AfterMove(w, source, target).values ensures exists l, i :: Occurs(after, l, i, x) {
      if x == target {
        assert Occurs(after, k, n, x);
      } else {
        var l, i :| Occurs(chains, l, i, x);
        assert Occurs(after, l, i, x);
      }
    }
  }

  lemma {:induction false} UnwindSameMoved(w: World, n: nat)
    requires n <= |w.creationOrder|
    ensures SameMoved(w, Unwind(w, n).world)
    decreases n
  {
    if n == 0 {
    } else {
      var name := w.creationOrder[n - 1];
      if !IsLive(w, name) {
        UnwindSameMoved(w, n - 1);
      } else if !w.values[name].Borrowed() {
        UnwindSameMoved(Discharge(w, name), n - 1);
      }
    }
  }

  ghost predicate Introduces(e: Event) {
    e.Create? || e.Clone? || e.Move?
  }

  lemma ApplySameMoved(w: World, e: Event, last: bool)
    requires Apply(w, e, last).Next? && !Introduces(e)
    ensures SameMoved(w, Apply(w, e, last).world)
  {
    if e.EarlyExit? {
      UnwindSameMoved(w, |w.creationOrder|);
    }
  }

  lemma {:induction false} ChainsTrackOwnership(events: seq<Event>, n: nat)
    requires n <= |events| && Play(events, n).Next?
    ensures Lineage(Chains(events, n), Play(events, n).world)
  {
    if n == 0 {
    } else {
      StepBack(events, n);
      ChainsTrackOwnership(events, n - 1);
      LineageStep(Chains(events, n - 1), Play(events, n - 1).world, events, n);
    }
  }

  lemma LineageStep(before: seq<seq<string>>, w: World, events: seq<Event>, n: nat)
    requires 0 < n <= |events| && before == Chains(events, n - 1) && Lineage(before, w)
    requires Apply(w, events[n - 1], n == |events|).Next?
    ensures Lineage(Chains(events, n), Apply(w, events[n - 1], n == |events|).world)
  {
    match events[n - 1]
    case Create(name) => LineageAdd(before, w, name.value);
    case Clone(_, target) => LineageAdd(before, w, target.value);
    case Move(source, target) => LineageMove(before, w, source, target.value);
    case _ =>
      ApplySameMoved(w, events[n - 1], n == |events|);
      LineageSame(before, w, Apply(w, events[n - 1], n == |events|).world);
  }

  // ----- chains are made of the trace's own events -----

  /** Each step along a chain is a move event of the trace. */
  ghost predicate Linked(chains: seq<seq<string>>, events: seq<Event>, n: nat)
    requires n <= |events|
  {
    forall k, i, x, y :: Occurs(chains, k, i, x) && Occurs(chains, k, i + 1, y) ==> Move(x, Some(y)) in events[..n]
  }

  ghost predicate HeadsAre(chains: seq<seq<string>>, names: seq<string>) {
    |chains| == |names| && forall k :: 0 <= k < |chains| ==> chains[k] != [] && chains[k][0] == names[k]
  }

  lemma LinkedLonger(chains: seq<seq<string>>, events: seq<Event>, n: nat, m: nat)
    requires n <= m <= |events| && Linked(chains, events, n)
    ensures Linked(chains, events, m)
  {
    assert forall e :: e in events[..n] ==> e in events[..m];
  }

  lemma LinkedAdd(chains: seq<seq<string>>, events: seq<Event>, n: nat, name: string)
    requires n <= |events| && Linked(chains, events, n)
    ensures Linked(chains + [[name]], events, n)
  {
    forall k, i, x, y | Occurs(chains + [[name]], k, i, x) && Occurs(chains + [[name]], k, i + 1, y)
      ensures Move(x, Some(y)) in events[..n]
    {
      assert Occurs(chains, k, i, x) && Occurs(chains, k, i + 1, y);
    }
  }

  lemma LinkedMove(chains: seq<seq<string>>, w: World, events: seq<Event>, n: nat, source: string, target: string)
    requires n <= |events| && Linked(chains, events, n) && Lineage(chains, w) && IsLive(w, source)
    requires Move(source, Some(target)) in events[..n]
    ensures Linked(Extend(chains, source, target), events, n)
    ensures |Extend(chains, source, target)| == |chains|
    ensures forall k :: 0 <= k < |chains| ==>
              chains[k] != [] && Extend(chains, source, target)[k] != [] &&
                Extend(chains, source, target)[k][0] == chains[k][0]
  {
    var k := LiveEnds(chains, w, source);
    ExtendAt(chains, k, source, target);
    var after := Extend(chains, source, target);
    forall l, i, x, y | Occurs(after, l, i, x) && Occurs(after, l, i + 1, y)
      ensures Move(x, Some(y)) in events[..n]
    {
      if l == k && i + 1 == |chains[k]| {
        assert x == source && y == target;
      } else {
        assert Occurs(chains, l, i, x) && Occurs(chains, l, i + 1, y);
      }
    }
  }

  lemma {:induction false} ChainsFollowEvents(events: seq<Event>, n: nat)
    requires n <= |events| && Play(events, n).Next?
    ensures Linked(Chains(events, n), events, n)
    ensures HeadsAre(Chains(events, n), Introduced(events, n))
  {
    if n == 0 {
    } else {
      StepBack(events, n);
      ChainsFollowEvents(events, n - 1);
      ChainsTrackOwnership(events, n - 1);
      FollowStep(Chains(events, n - 1), Play(events, n - 1).world, events, n);
    }
  }

  lemma FollowStep(before: seq<seq<string>>, w: World, events: seq<Event>, n: nat)
    requires 0 < n <= |events| && before == Chains(events, n - 1) && Lineage(before, w)
    requires Linked(before, events, n - 1) && HeadsAre(before, Introduced(events, n - 1))
    requires Apply(w, events[n - 1], n == |events|).Next?
    ensures Linked(Chains(events, n), events, n)
    ensures HeadsAre(Chains(events, n), Introduced(events, n))
  {
    LinkedLonger(before, events, n - 1, n);
    assert events[..n][n - 1] == events[n - 1];
    match events[n - 1]
    case Create(name) => LinkedAdd(before, events, n, name.value);
    case Clone(_, target) => LinkedAdd(before, events, n, target.value);
    case Move(source, target) => LinkedMove(before, w, events, n, source, target.value);
    case _ =>
  }

  // ----- exactly once -----

  function Lasts(chains: seq<seq<string>>): seq<string>
    requires forall k :: 0 <= k < |chains| ==> chains[k] != []
  {
    seq(|chains|, k requires 0 <= k < |chains| => chains[k][|chains[k]| - 1])
  }

  lemma {:induction false} SameElementsSameLength(a: seq<string>, b: seq<string>)
    requires Distinct(a) && Distinct(b) && forall x :: x in a <==> x in b
    ensures |a| == |b|
  {
    DistinctCount(a);
    DistinctCount(b);
    assert (set x | x in a) == (set x | x in b);
  }

  lemma {:induction false} DistinctCount(s: seq<string>)
    requires Distinct(s)
    ensures |set x | x in s| == |s|
  {
    if s == [] {
    } else {
      var n := |s| - 1;
      DistinctCount(s[..n]);
      assert (set x | x in s) == (set x | x in s[..n]) + {s[n]};
      assert s[n] !in s[..n];
    }
  }

  lemma LastsDistinct(chains: seq<seq<string>>)
    requires (forall k :: 0 <= k < |chains| ==> chains[k] != []) && Disjoint(chains)
    ensures Distinct(Lasts(chains))
  {
    forall k, l | 0 <= k < l < |chains| ensures Lasts(chains)[k] != Lasts(chains)[l] {
      assert Occurs(chains, k, |chains[k]| - 1, Lasts(chains)[k]);
      assert Occurs(chains, l, |chains[l]| - 1, Lasts(chains)[l]);
    }
  }

  /** With nothing live, the dropped names are the ends of the chains. */
  lemma DroppedAreLasts(chains: seq<seq<string>>, w: World)
    requires Lineage(chains, w) && Consistent(w) && forall x :: x in w.values ==> w.values[x].state != Live
    ensures forall x :: x in w.dropOrder <==> x in Lasts(chains)
  {
    forall x ensures x in w.dropOrder <==> x in Lasts(chains) {
      if x in w.dropOrder {
        var k, i :| Occurs(chains, k, i, x);
        assert Lasts(chains)[k] == x;
      }
      if x in Lasts(chains) {
        var k :| 0 <= k < |chains| && Lasts(chains)[k] == x;
        assert Occurs(chains, k, |chains[k]| - 1, x);
      }
    }
  }

  /**
   In an accepted run the chains start at the created and cloned values, follow the trace's
   moves, share no name, and their ends are the dropped names, each dropped once; so drops
   and introductions are equally many.
   */
  lemma AcceptedExactlyOnce(events: seq<Event>)
    requires Verdict(events).Accepted?
    ensures var chains, drops := Chains(events, |events|), Verdict(events).dropOrder;
            && HeadsAre(chains, Introduced(events, |events|))
            && Linked(chains, events, |events|)
            && Disjoint(chains)
            && Distinct(drops)
            && (forall x :: x in drops <==> x in Lasts(chains))
            && |drops| == |Introduced(events, |events|)|
  {
    var n := |events|;
    ReachableConsistent(events, n);
    ChainsTrackOwnership(events, n);
    ChainsFollowEvents(events, n);
    var w := Play(events, n).world;
    forall x | x in w.values ensures w.values[x].state != Live {
      LiveNamesMeans(w.values, w.creationOrder, x);
    }
    Conclude(Chains(events, n), w);
  }

  lemma Conclude(chains: seq<seq<string>>, w: World)
    requires Lineage(chains, w) && Consistent(w) && forall x :: x in w.values ==> w.values[x].state != Live
    ensures forall x :: x in w.dropOrder <==> x in Lasts(chains)
    ensures |w.dropOrder| == |chains|
  {
    DroppedAreLasts(chains, w);
    LastsDistinct(chains);
    SameElementsSameLength(w.dropOrder, Lasts(chains));
  }
}
