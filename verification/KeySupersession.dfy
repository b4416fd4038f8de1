/**
 Key supersession in a trust root: per-key rules on who may supersede whom, and a
 depth-first search for cycles over the same lists.
 */
module KeySupersession {
  import opened Basics
  import opened Digraph

  datatype Status = Active | Retired | Revoked | UnknownStatus

  /** `Damaged` stands for a present revocation that is not an object. */
  datatype Revocation = NoRevocation | Damaged | Effective(sequence: Option<int>)

  /** The payload of an entry that is not a string only tells it from other such entries. */
  datatype Item = KeyId(id: string) | NotText(value: int)

  /** `None` stands for a member that is missing or of the wrong type. */
  datatype Key = Key(
    supersedes: Option<seq<Item>>, status: Status, revocation: Revocation,
    validFrom: Option<int>, publisher: Option<string>)

  type Keys = map<string, Key>

  // ----- the rules for one key -----

  predicate ListWellFormed(key: Key) {
    key.supersedes.Some? &&
    forall i, j :: 0 <= i < j < |key.supersedes.value| ==> key.supersedes.value[i] != key.supersedes.value[j]
  }

  predicate RevocationCoherent(key: Key) {
    if key.status == Revoked then
      key.revocation.Effective? && key.validFrom.Some? && key.revocation.sequence.Some? &&
      key.revocation.sequence.value >= key.validFrom.value
    else key.revocation == NoRevocation
  }

  predicate MaySupersede(keys: Keys, id: string, predecessor: string)
    requires id in keys
  {
    && predecessor in keys
    && predecessor != id
    && keys[predecessor].publisher == keys[id].publisher
    && keys[predecessor].status in {Retired, Revoked}
    && keys[id].validFrom.Some?
    && keys[predecessor].validFrom.Some?
    && keys[id].validFrom.value > keys[predecessor].validFrom.value
  }

  function TextItems(items: seq<Item>): (r: seq<string>)
    ensures forall s :: s in r <==> KeyId(s) in items
  {
    if items == [] then []
    else
      assert forall s :: KeyId(s) in items <==> KeyId(s) == items[0] || KeyId(s) in items[1..];
      (if items[0].KeyId? then [items[0].id] else []) + TextItems(items[1..])
  }

  predicate KeyRules(keys: Keys, id: string)
    requires id in keys
  {
    var key := keys[id];
    && ListWellFormed(key)
    && RevocationCoherent(key)
    && (key.supersedes.value != [] ==> key.status == Active)
    && forall p :: p in TextItems(key.supersedes.value) ==> MaySupersede(keys, id, p)
  }

  ghost predicate LocalRules(keys: Keys) {
    forall id :: id in keys ==> KeyRules(keys, id)
  }

  /** The predecessor lists the search follows; a malformed list is left out. */
  function Lists(keys: Keys): map<string, seq<string>> {
    map id | id in keys && ListWellFormed(keys[id]) :: TextItems(keys[id].supersedes.value)
  }

  function ListOf(lists: map<string, seq<string>>, id: string): seq<string> {
    if id in lists then lists[id] else []
  }

  ghost function GraphOf(nodes: set<string>, lists: map<string, seq<string>>): map<string, set<string>> {
    map id | id in nodes :: set p | p in ListOf(lists, id)
  }

  ghost function SupersessionGraph(keys: Keys): map<string, set<string>> {
    GraphOf(keys.Keys, Lists(keys))
  }

  // ----- the search -----

  /** `todo` holds the keys not reached yet; `rank` orders the visited ones by when they were finished. */
  datatype Moment = Moment(
    visiting: set<string>, visited: set<string>, cyclic: bool,
    todo: set<string>, stack: seq<string>, rank: map<string, nat>, clock: nat)
  {
    ghost predicate Sound(g: map<string, set<string>>) {
      && (forall x :: x in visiting <==> x in stack)
      && (forall x :: x in visiting ==> x in g && x !in visited)
      && (forall x :: x in visited ==> x in g)
      && (forall x :: x in todo <==> x in g && x !in visiting && x !in visited)
      && Distinct(stack) && IsPath(g, stack)
      && rank.Keys == visited && (forall x :: x in rank ==> rank[x] < clock)
      && (cyclic ==> !Acyclic(g))
      && (!cyclic ==> forall a, b :: a in visited && Edge(g, a, b) ==> b in rank && rank[b] < rank[a])
    }

    ghost predicate Extends(earlier: Moment) {
      && visiting == earlier.visiting && stack == earlier.stack
      && (forall x :: x in earlier.visited ==> x in visited)
      && (earlier.cyclic ==> cyclic)
      && todo <= earlier.todo
    }

    ghost function Entered(id: string): Moment {
      this.(visiting := visiting + {id}, todo := todo - {id}, stack := stack + [id])
    }

    ghost function Left(id: string): Moment
      requires stack != []
    {
      this.(visiting := visiting - {id}, visited := visited + {id}, stack := stack[..|stack| - 1],
            rank := rank[id := clock], clock := clock + 1)
    }
  }

  lemma EnterKeeps(g: map<string, set<string>>, m: Moment, id: string)
    requires m.Sound(g) && id in g && id !in m.visiting && id !in m.visited
    requires m.stack != [] ==> Edge(g, m.stack[|m.stack| - 1], id)
    ensures m.Entered(id).Sound(g)
  {
    PathExtends(g, m.stack, id);
  }

  lemma LeaveKeeps(g: map<string, set<string>>, m: Moment, id: string)
    requires m.Sound(g) && m.stack != [] && m.stack[|m.stack| - 1] == id
    requires !m.cyclic ==> forall b :: Edge(g, id, b) ==> b in m.visited
    ensures m.Left(id).Sound(g)
  {
    var n := m.Left(id);
    assert m.stack == n.stack + [id];
    assert forall x :: x in m.stack <==> x in n.stack || x == id;
    assert id !in n.stack;
    if !m.cyclic {
      forall a, b | a in n.visited && Edge(g, a, b) ensures b in n.rank && n.rank[b] < n.rank[a] {
        if a != id {
          assert a in m.visited;
        }
      }
    }
  }

  /** Meeting a key that is being visited closes a cycle. */
  lemma MeetingCloses(g: map<string, set<string>>, stack: seq<string>, id: string)
    requires IsPath(g, stack) && id in stack && Edge(g, stack[|stack| - 1], id)
    ensures !Acyclic(g)
  {
    var i :| 0 <= i < |stack| && stack[i] == id;
    PathSuffix(g, stack, i);
    PathExtends(g, stack[i..], id);
    assert IsCycle(g, stack[i..] + [id]);
  }

  lemma ExtendsTransitive(a: Moment, b: Moment, c: Moment)
    requires b.Extends(a) && c.Extends(b)
    ensures c.Extends(a)
  {
  }

  lemma ExploreExtends(before: Moment, id: string, after: Moment)
    requires id !in before.visiting && after.Extends(before.Entered(id))
    ensures after.stack != [] && after.Left(id).Extends(before)
  {
    assert after.visiting - {id} == before.visiting;
  }

  ghost predicate Covered(all: set<string>, list: seq<string>, visited: set<string>) {
    forall x :: x in list && x in all ==> x in visited
  }

  lemma CoveredSnoc(all: set<string>, list: seq<string>, i: nat, before: set<string>, after: set<string>)
    requires i < |list|
    requires forall x :: x in before ==> x in after
    ensures Covered(all, list[..i], before) && (list[i] in all ==> list[i] in after) ==>
            Covered(all, list[..i + 1], after)
  {
    assert forall x :: x in list[..i + 1] <==> x in list[..i] || x == list[i];
  }

  class Search {
    const keys: set<string>
    const lists: map<string, seq<string>>
    ghost const graph: map<string, set<string>>
    var visiting: set<string>
    var visited: set<string>
    var cyclic: bool
    ghost var todo: set<string>
    ghost var stack: seq<string>
    ghost var rank: map<string, nat>
    ghost var clock: nat

    ghost function Now(): Moment
      reads this
    {
      Moment(visiting, visited, cyclic, todo, stack, rank, clock)
    }

    /** The graph has the keys as nodes and the lists as edges. */
    ghost predicate Tied() {
      graph.Keys == keys && forall a, b :: Edge(graph, a, b) <==> a in keys && b in keys && b in ListOf(lists, a)
    }

    constructor (k: set<string>, l: map<string, seq<string>>)
      ensures keys == k && lists == l && graph == GraphOf(k, l) && Tied()
      ensures Now().Sound(graph) && !cyclic && stack == []
    {
      keys, lists, graph, visiting, visited, cyclic := k, l, GraphOf(k, l), {}, {}, false;
      todo, stack, rank, clock := k, [], map[], 0;
    }

    method Visit(id: string)
      requires Tied() && Now().Sound(graph) && id in keys
      requires if stack == [] then id !in visiting else Edge(graph, stack[|stack| - 1], id)
      modifies this
      ensures Now().Sound(graph) && Now().Extends(old(Now()))
      ensures cyclic || id in visited
      decreases todo, 1
    {
      if id in visiting {
        MeetingCloses(graph, stack, id);
        cyclic := true;
        return;
      }
      if id in visited {
        return;
      }
      Explore(id);
    }

    method Explore(id: string)
      requires Tied() && Now().Sound(graph) && id in keys && id !in visiting && id !in visited
      requires stack != [] ==> Edge(graph, stack[|stack| - 1], id)
      modifies this
      ensures Now().Sound(graph) && Now().Extends(old(Now())) && id in visited
      decreases todo, 0
    {
      ghost var before := Now();
      EnterKeeps(graph, before, id);
      Enter(id);
      VisitPredecessors(id);
      ExploreExtends(before, id, Now());
      LeaveKeeps(graph, Now(), id);
      Leave(id);
    }

    method Enter(id: string)
      modifies this
      ensures Now() == old(Now()).Entered(id)
    {
      visiting := visiting + {id};
      todo, stack := todo - {id}, stack + [id];
    }

    method Leave(id: string)
      requires stack != []
      modifies this
      ensures Now() == old(Now()).Left(id)
    {
      visiting := visiting - {id};
      visited := visited + {id};
      stack, rank, clock := stack[..|stack| - 1], rank[id := clock], clock + 1;
    }

    method VisitPredecessors(id: string)
      requires Tied() && Now().Sound(graph) && id in keys && stack != [] && stack[|stack| - 1] == id
      modifies this
      ensures Now().Sound(graph) && Now().Extends(old(Now()))
      ensures !cyclic ==> forall b :: Edge(graph, id, b) ==> b in visited
      decreases todo, 3
    {
      var list := ListOf(lists, id);
      ghost var start, now := Now(), Now();
      for i := 0 to |list|
        invariant now == Now() && now.Sound(graph) && now.Extends(start)
        invariant !now.cyclic ==> Covered(keys, list[..i], now.visited)
      {
        ghost var before := now;
        assert list[i] in list;
        Follow(id, list[i]);
        now := Now();
        ExtendsTransitive(start, before, now);
        CoveredSnoc(keys, list, i, before.visited, now.visited);
      }
      assert list[..|list|] == list;
    }

    method Follow(id: string, predecessor: string)
      requires Tied() && Now().Sound(graph) && id in keys && stack != [] && stack[|stack| - 1] == id
      requires predecessor in ListOf(lists, id)
      modifies this
      ensures Now().Sound(graph) && Now().Extends(old(Now()))
      ensures cyclic || (predecessor in keys ==> predecessor in visited)
      decreases todo, 2
    {
      if predecessor in keys {
        Visit(predecessor);
      }
    }
  }

  /** The search flags exactly the cyclic supersession graphs. */
  method HasCycle(keys: Keys) returns (cyclic: bool)
    ensures cyclic <==> !Acyclic(SupersessionGraph(keys))
  {
    var lists := Lists(keys);
    var search := new Search(keys.Keys, lists);
    var rest := lists.Keys;
    while rest != {}
      invariant rest <= lists.Keys && search.keys == keys.Keys && search.lists == lists
      invariant search.graph == SupersessionGraph(keys) && search.Tied()
      invariant search.Now().Sound(search.graph) && search.stack == []
      invariant !search.cyclic ==> forall id :: id in lists && id !in rest ==> id in search.visited
    {
      var id := PickAny(rest);
      search.Visit(id);
      rest := rest - {id};
    }
    cyclic := search.cyclic;
    if !cyclic {
      DescendingIsAcyclic(search.graph, search.rank);
    }
  }

  // ----- the search is redundant -----

  /** Under the per-key rules a superseded key supersedes nothing. */
  lemma PredecessorsAreLeaves(keys: Keys, a: string, b: string)
    requires LocalRules(keys) && Edge(SupersessionGraph(keys), a, b)
    ensures ListOf(Lists(keys), b) == []
  {
    assert KeyRules(keys, a) && KeyRules(keys, b);
    assert MaySupersede(keys, a, b);
  }

  lemma RulesExcludeCycles(keys: Keys)
    requires LocalRules(keys)
    ensures Acyclic(SupersessionGraph(keys))
  {
    var g, lists := SupersessionGraph(keys), Lists(keys);
    var rank := map id | id in keys :: if ListOf(lists, id) == [] then 0 else 1;
    forall a, b | Edge(g, a, b) ensures a in rank && b in rank && rank[b] < rank[a] {
      PredecessorsAreLeaves(keys, a, b);
      assert b in ListOf(lists, a);
    }
    DescendingIsAcyclic(g, rank);
  }

  /** The verdict on a key table: the rules for every key decide it, with or without the search. */
  method SupersessionInvalid(keys: Keys) returns (invalid: bool)
    ensures invalid <==> !LocalRules(keys)
  {
    invalid := false;
    var rest := keys.Keys;
    while rest != {}
      invariant rest <= keys.Keys
      invariant invalid <==> exists id :: id in keys && id !in rest && !KeyRules(keys, id)
    {
      var id := PickAny(rest);
      if !KeyRules(keys, id) {
        invalid := true;
      }
      rest := rest - {id};
    }
    var cyclic := HasCycle(keys);
    if cyclic {
      if !invalid {
        RulesExcludeCycles(keys);
      }
      invalid := true;
    }
  }
}
