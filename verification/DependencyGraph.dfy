/**
 The issue dependency checker of the production readiness ledger: it collects a graph
 from loosely typed rows and runs a three-colour depth-first search that reports each
 cycle it closes.
 */
module DependencyGraph {
  import opened Basics
  import opened Digraph

  /** A JSON value, as far as the checker tells values apart. */
  datatype Value = Int(n: int) | Bool(b: bool) | Array(items: seq<Value>) | Other

  /** A missing member reads as `Other`. */
  datatype Row = Object(governingIssue: Value, dependencies: Value) | NonObject

  datatype Message = SelfDependency(issue: int) | Cycle(path: seq<int>)

  datatype Colour = Visiting | Done

  // ----- collecting the graph -----

  predicate Usable(row: Row) {
    row.Object? && row.governingIssue.Int? && row.governingIssue.n >= 1 && row.dependencies.Array?
  }

  function ValidDependencies(row: Row): set<int>
    requires Usable(row)
  {
    set v | v in row.dependencies.items && v.Int? && v.n > 0 :: v.n
  }

  /** The row is about a positive issue number and has a list of dependencies. */
  ghost predicate About(row: Row, issue: int) {
    row.Object? && row.governingIssue == Int(issue) && issue >= 1 && row.dependencies.Array?
  }

  /** Some row about `issue` lists `dependency`. */
  ghost predicate Declares(rows: seq<Row>, issue: int, dependency: int) {
    exists row :: row in rows && About(row, issue) && Int(dependency) in row.dependencies.items && dependency > 0
  }

  ghost predicate Governs(rows: seq<Row>, issue: int) {
    exists row :: row in rows && About(row, issue)
  }

  ghost predicate IsGraphOf(rows: seq<Row>, graph: map<int, set<int>>) {
    && (forall k :: k in graph <==> Governs(rows, k))
    && (forall k, d :: k in graph ==> (d in graph[k] <==> Declares(rows, k, d)))
  }

  /** One message for each row that lists its own issue, in row order. */
  ghost function SelfErrors(rows: seq<Row>): seq<Message> {
    if rows == [] then []
    else
      var row := rows[|rows| - 1];
      SelfErrors(rows[..|rows| - 1]) +
      if Usable(row) && Int(row.governingIssue.n) in row.dependencies.items
      then [SelfDependency(row.governingIssue.n)]
      else []
  }

  ghost function EdgeCount(rows: seq<Row>): nat {
    if rows == [] then 0
    else
      var row := rows[|rows| - 1];
      EdgeCount(rows[..|rows| - 1]) + if Usable(row) then |ValidDependencies(row)| else 0
  }

  lemma DependencyListed(row: Row, d: int)
    requires Usable(row)
    ensures d in ValidDependencies(row) <==> d > 0 && Int(d) in row.dependencies.items
  {
    if d > 0 && Int(d) in row.dependencies.items {
      assert Int(d).n == d;
    }
  }

  /** What the rows declare, merged per governing issue. */
  ghost function GraphOf(rows: seq<Row>): (graph: map<int, set<int>>)
    ensures forall k :: k in graph <==> Governs(rows, k)
    ensures forall k, d :: k in graph ==> (d in graph[k] <==> Declares(rows, k, d))
  {
    if rows == [] then map[]
    else
      var row, rest := rows[|rows| - 1], rows[..|rows| - 1];
      var graph := Merge(GraphOf(rest), row);
      assert IsGraphOf(rows, graph) by {
        assert rest + [row] == rows;
        RowMerged(rest, row, GraphOf(rest));
      }
      graph
  }

  function Merge(graph: map<int, set<int>>, row: Row): map<int, set<int>> {
    if Usable(row) then
      var issue := row.governingIssue.n;
      graph[issue := (if issue in graph then graph[issue] else {}) + ValidDependencies(row)]
    else graph
  }

  method CollectGraph(rows: seq<Row>)
    returns (graph: map<int, set<int>>, errors: seq<Message>, edgeCount: nat)
    ensures graph == GraphOf(rows)
    ensures errors == SelfErrors(rows)
    ensures edgeCount == EdgeCount(rows)
  {
    graph, errors, edgeCount := map[], [], 0;
    for i := 0 to |rows|
      invariant graph == GraphOf(rows[..i])
      invariant errors == SelfErrors(rows[..i])
      invariant edgeCount == EdgeCount(rows[..i])
    {
      var row := rows[i];
      assert rows[..i + 1][..i] == rows[..i];
      if Usable(row) {
        var issue := row.governingIssue.n;
        var valid := ValidDependencies(row);
        DependencyListed(row, issue);
        if issue in valid {
          errors := errors + [SelfDependency(issue)];
        }
        graph := graph[issue := (if issue in graph then graph[issue] else {}) + valid];
        edgeCount := edgeCount + |valid|;
      }
    }
    assert rows[..|rows|] == rows;
  }

  lemma RowMerged(rows: seq<Row>, row: Row, before: map<int, set<int>>)
    requires IsGraphOf(rows, before)
    ensures IsGraphOf(rows + [row], Merge(before, row))
  {
    var after := Merge(before, row);
    forall k ensures k in after <==> Governs(rows + [row], k) {
      GovernsSnoc(rows, row, k);
    }
    forall k, d | k in after ensures d in after[k] <==> Declares(rows + [row], k, d) {
      GovernsSnoc(rows, row, k);
      DeclaresSnoc(rows, row, k, d);
      if Usable(row) {
        DependencyListed(row, d);
      }
      if Declares(rows, k, d) {
        assert Governs(rows, k);
      }
    }
  }

  lemma GovernsSnoc(rows: seq<Row>, row: Row, k: int)
    ensures Governs(rows + [row], k) <==> Governs(rows, k) || (Usable(row) && row.governingIssue.n == k)
  {
    if Governs(rows, k) {
      var r :| r in rows && About(r, k);
      assert r in rows + [row];
    }
    if Usable(row) && row.governingIssue.n == k {
      assert row in rows + [row];
    }
  }

  lemma DeclaresSnoc(rows: seq<Row>, row: Row, k: int, d: int)
    ensures Declares(rows + [row], k, d) <==>
            Declares(rows, k, d) ||
              (Usable(row) && row.governingIssue.n == k && Int(d) in row.dependencies.items && d > 0)
  {
    if Declares(rows, k, d) {
      var r :| r in rows && About(r, k) && Int(d) in r.dependencies.items && d > 0;
      assert r in rows + [row];
    }
    if Usable(row) && row.governingIssue.n == k && Int(d) in row.dependencies.items && d > 0 {
      assert row in rows + [row];
    }
  }

  // ----- the search -----

  ghost predicate Ascending(s: seq<int>) {
    forall i, j :: 0 <= i < j < |s| ==> s[i] < s[j]
  }

  method Smallest(s: set<int>) returns (m: int)
    requires s != {}
    ensures m in s && forall x :: x in s ==> m <= x
  {
    m := PickAny(s);
    var rest := s - {m};
    while rest != {}
      invariant m in s && rest <= s
      invariant forall x :: x in s && x !in rest ==> m <= x
    {
      var x := PickAny(rest);
      if x < m {
        m := x;
      }
      rest := rest - {x};
    }
  }

  method SortedElements(s: set<int>) returns (r: seq<int>)
    ensures Ascending(r)
    ensures forall x :: x in r <==> x in s
  {
    r := [];
    var rest := s;
    while rest != {}
      invariant rest <= s && Ascending(r)
      invariant forall x :: x in r <==> x in s && x !in rest
      invariant forall x, y :: x in r && y in rest ==> x < y
    {
      var m := Smallest(rest);
      assert forall i :: 0 <= i < |r| ==> r[i] in r;
      r := r + [m];
      rest := rest - {m};
    }
  }

  /** A cycle as the checker reports it: real, and without a repeated issue before it closes. */
  ghost predicate Genuine(graph: map<int, set<int>>, m: Message) {
    m.Cycle? ==> IsCycle(graph, m.path) && Distinct(m.path[..|m.path| - 1])
  }

  /** `m` reports a cycle whose last edge is `a -> b`. */
  ghost predicate Closes(m: Message, a: int, b: int) {
    m.Cycle? && |m.path| >= 2 && m.path[|m.path| - 2] == a && m.path[|m.path| - 1] == b
  }

  ghost predicate Reported(errors: seq<Message>, a: int, b: int) {
    exists m :: m in errors && Closes(m, a, b)
  }

  /** The last edges of all reported cycles. */
  ghost function ClosingEdges(errors: seq<Message>): (cut: set<(int, int)>)
    ensures forall a, b :: (a, b) in cut <==> Reported(errors, a, b)
  {
    var cut := set m | m in errors && m.Cycle? && |m.path| >= 2 :: (m.path[|m.path| - 2], m.path[|m.path| - 1]);
    assert forall a, b :: (a, b) in cut <==> Reported(errors, a, b) by {
      forall a, b ensures (a, b) in cut <==> Reported(errors, a, b) {
        if Reported(errors, a, b) {
          var m :| m in errors && Closes(m, a, b);
          assert m in errors && m.Cycle?;
        }
      }
    }
    cut
  }

  ghost predicate CyclesDistinct(errors: seq<Message>) {
    forall i, j :: 0 <= i < j < |errors| && errors[i].Cycle? ==> errors[i] != errors[j]
  }

  lemma Shrinks(all: set<int>, before: set<int>, after: set<int>, x: int)
    requires before <= after && x in all && x in after && x !in before
    ensures all - after < all - before
  {
    assert x in all - before && x !in all - after;
  }

  lemma NoLarger(all: set<int>, before: set<int>, after: set<int>)
    requires before <= after
    ensures all - after == all - before || all - after < all - before
  {
  }

  /** Nothing that can be reached from `z` repeats once the closing edges of these messages are cut. */
  ghost predicate Exhausted(graph: map<int, set<int>>, earlier: seq<Message>, z: int) {
    forall p: seq<int> ::
      p != [] && p[0] == z && IsPath(Without(graph, ClosingEdges(earlier)), p) ==> Distinct(p)
  }

  /** Before the edge `a -> b` every smaller dependency of `a` was either reported or exhausted. */
  ghost predicate SmallerFirst(graph: map<int, set<int>>, earlier: seq<Message>, a: int, b: int) {
    forall z :: Edge(graph, a, z) && z < b ==> Reported(earlier, a, z) || Exhausted(graph, earlier, z)
  }

  /** The smaller issues came before the start of the path, and at every step the smaller dependencies. */
  ghost predicate Leftmost(graph: map<int, set<int>>, earlier: seq<Message>, path: seq<int>) {
    && path != [] && (forall z :: z in graph && z < path[0] ==> Exhausted(graph, earlier, z))
    && forall i, j :: 0 <= i && j == i + 1 && j < |path| ==> SmallerFirst(graph, earlier, path[i], path[j])
  }

  /** The cycle ends a path before which, in ascending order, no cycle is left. */
  ghost predicate NextInOrder(graph: map<int, set<int>>, earlier: seq<Message>, cycle: seq<int>) {
    exists lead: seq<int> :: IsPath(graph, lead + cycle) && Leftmost(graph, earlier, lead + cycle)
  }

  /** The cycles are reported in ascending order of the paths that lead to them. */
  ghost predicate AllInOrder(graph: map<int, set<int>>, errors: seq<Message>) {
    forall k :: 0 <= k < |errors| && errors[k].Cycle? ==> NextInOrder(graph, errors[..k], errors[k].path)
  }

  /** The search at one moment; `rank` holds the finishing times of the issues that are done. */
  datatype Moment = Moment(
    state: map<int, Colour>, stack: seq<int>, errors: seq<Message>, rank: map<int, nat>, clock: nat)
  {
    predicate Open(issue: int) {
      issue in state && state[issue] == Visiting
    }

    predicate Finished(issue: int) {
      issue in state && state[issue] == Done
    }

    /** The edge either goes down in finishing time or closes a reported cycle. */
    ghost predicate Settled(a: int, b: int) {
      (a in rank && b in rank && rank[b] < rank[a]) || Reported(errors, a, b)
    }

    ghost predicate StackIsOpen() {
      (forall x :: x in stack <==> Open(x)) && Distinct(stack)
    }

    ghost predicate Ranked() {
      (forall x :: x in rank <==> Finished(x)) && (forall x :: x in rank ==> rank[x] < clock)
    }

    ghost predicate Sound(graph: map<int, set<int>>) {
      && state.Keys <= graph.Keys
      && StackIsOpen()
      && IsPath(graph, stack)
      && Ranked()
      && (forall m :: m in errors ==> Genuine(graph, m))
      && CyclesDistinct(errors)
      && (forall a, b :: Finished(a) && Edge(graph, a, b) ==> Settled(a, b))
    }

    /** What a visit leaves alone: the stack, every colour it met, every message. */
    ghost predicate Extends(earlier: Moment) {
      && stack == earlier.stack
      && earlier.errors <= errors
      && (forall i :: |earlier.errors| <= i < |errors| ==> errors[i].Cycle?)
      && (forall x :: x in earlier.state ==> x in state && state[x] == earlier.state[x])
      && (forall x :: x in state && x !in earlier.state ==> state[x] == Done)
    }

    /** The smaller dependencies of `a` are finished or reported. */
    ghost predicate Behind(graph: map<int, set<int>>, a: int, b: int) {
      forall z :: Edge(graph, a, z) && z < b ==> Finished(z) || Reported(errors, a, z)
    }

    /** The issues smaller than the first one on the stack are finished. */
    ghost predicate BehindRoot(graph: map<int, set<int>>, root: int) {
      forall z :: z in graph && z < root ==> Finished(z)
    }

    ghost predicate Tidy(graph: map<int, set<int>>) {
      && (stack != [] ==> BehindRoot(graph, stack[0]))
      && (forall i, j :: 0 <= i && j == i + 1 && j < |stack| ==> Behind(graph, stack[i], stack[j]))
      && AllInOrder(graph, errors)
    }

    ghost function Entered(issue: int): Moment {
      this.(state := state[issue := Visiting], stack := stack + [issue])
    }

    ghost function Left(issue: int): Moment
      requires stack != []
    {
      this.(state := state[issue := Done], stack := stack[..|stack| - 1],
            rank := rank[issue := clock], clock := clock + 1)
    }
  }

  // ----- smaller dependencies come first -----

  lemma {:induction false} FinishedDescends(graph: map<int, set<int>>, m: Moment, p: seq<int>, j: nat)
    requires m.Sound(graph) && j < |p| && m.Finished(p[0]) && IsPath(Without(graph, ClosingEdges(m.errors)), p)
    ensures p[j] in m.rank && forall i :: 0 <= i < j ==> p[i] in m.rank && m.rank[p[j]] < m.rank[p[i]]
  {
    if j > 0 {
      FinishedDescends(graph, m, p, j - 1);
      var cut := Without(graph, ClosingEdges(m.errors));
      assert Edge(cut, p[j - 1], p[j]) && (p[j - 1], p[j]) !in ClosingEdges(m.errors);
      assert m.Settled(p[j - 1], p[j]);
    }
  }

  lemma FinishedIsExhausted(graph: map<int, set<int>>, m: Moment, z: int)
    requires m.Sound(graph) && m.Finished(z)
    ensures Exhausted(graph, m.errors, z)
  {
    forall p: seq<int> | p != [] && p[0] == z && IsPath(Without(graph, ClosingEdges(m.errors)), p)
      ensures Distinct(p)
    {
      forall i, j | 0 <= i < j < |p| ensures p[i] != p[j] {
        FinishedDescends(graph, m, p, j);
      }
    }
  }

  lemma BehindIsFirst(graph: map<int, set<int>>, m: Moment, a: int, b: int)
    requires m.Sound(graph) && m.Behind(graph, a, b)
    ensures SmallerFirst(graph, m.errors, a, b)
  {
    forall z | Edge(graph, a, z) && z < b ensures Reported(m.errors, a, z) || Exhausted(graph, m.errors, z) {
      if m.Finished(z) {
        FinishedIsExhausted(graph, m, z);
      }
    }
  }

  lemma BehindStays(graph: map<int, set<int>>, m: Moment, n: Moment, a: int, b: int)
    requires m.Behind(graph, a, b) && m.errors <= n.errors && forall x :: m.Finished(x) ==> n.Finished(x)
    ensures n.Behind(graph, a, b)
  {
    forall z | Edge(graph, a, z) && z < b ensures n.Finished(z) || Reported(n.errors, a, z) {
      if Reported(m.errors, a, z) {
        ReportedStays(m.errors, n.errors, a, z);
      }
    }
  }

  lemma EnterTidy(graph: map<int, set<int>>, m: Moment, issue: int)
    requires m.Tidy(graph) && issue !in m.state
    requires if m.stack == [] then m.BehindRoot(graph, issue) else m.Behind(graph, m.stack[|m.stack| - 1], issue)
    ensures m.Entered(issue).Tidy(graph)
  {
    var n := m.Entered(issue);
    forall i, j | 0 <= i && j == i + 1 && j < |n.stack| ensures n.Behind(graph, n.stack[i], n.stack[j]) {
      BehindStays(graph, m, n, n.stack[i], n.stack[j]);
    }
  }

  lemma LeaveTidy(graph: map<int, set<int>>, m: Moment, issue: int)
    requires m.Tidy(graph) && m.stack != []
    ensures m.Left(issue).Tidy(graph)
  {
    var n := m.Left(issue);
    forall i, j | 0 <= i && j == i + 1 && j < |n.stack| ensures n.Behind(graph, n.stack[i], n.stack[j]) {
      BehindStays(graph, m, n, n.stack[i], n.stack[j]);
    }
  }

  lemma StackIsLeftmost(graph: map<int, set<int>>, m: Moment, issue: int)
    requires m.Sound(graph) && m.Tidy(graph) && m.stack != []
    requires m.Behind(graph, m.stack[|m.stack| - 1], issue)
    ensures Leftmost(graph, m.errors, m.stack + [issue])
  {
    var path := m.stack + [issue];
    forall z | z in graph && z < path[0] ensures Exhausted(graph, m.errors, z) {
      FinishedIsExhausted(graph, m, z);
    }
    forall i, j | 0 <= i && j == i + 1 && j < |path| ensures SmallerFirst(graph, m.errors, path[i], path[j]) {
      BehindIsFirst(graph, m, path[i], path[j]);
    }
  }

  /** A cycle closed by the top of a tidy stack is the next in order. */
  lemma ClosedIsNext(graph: map<int, set<int>>, m: Moment, start: nat, issue: int)
    requires m.Sound(graph) && m.Tidy(graph) && start < |m.stack| && Edge(graph, m.stack[|m.stack| - 1], issue)
    requires m.Behind(graph, m.stack[|m.stack| - 1], issue)
    ensures NextInOrder(graph, m.errors, m.stack[start..] + [issue])
  {
    StackIsLeftmost(graph, m, issue);
    PathExtends(graph, m.stack, issue);
    assert m.stack + [issue] == m.stack[..start] + (m.stack[start..] + [issue]);
  }

  lemma ReportTidy(graph: map<int, set<int>>, m: Moment, message: Message)
    requires m.Tidy(graph) && message.Cycle? && NextInOrder(graph, m.errors, message.path)
    ensures m.(errors := m.errors + [message]).Tidy(graph)
  {
    var n := m.(errors := m.errors + [message]);
    forall i, j | 0 <= i && j == i + 1 && j < |n.stack| ensures n.Behind(graph, n.stack[i], n.stack[j]) {
      BehindStays(graph, m, n, n.stack[i], n.stack[j]);
    }
    forall k | 0 <= k < |n.errors| && n.errors[k].Cycle? ensures NextInOrder(graph, n.errors[..k], n.errors[k].path) {
      assert n.errors[..k] == m.errors[..k];
      assert k == |m.errors| ==> n.errors[..k] == m.errors;
    }
  }

  lemma HandledIsBehind(graph: map<int, set<int>>, m: Moment, issue: int, dependencies: seq<int>, i: nat)
    requires issue in graph && (forall x :: x in dependencies <==> x in graph[issue]) && Ascending(dependencies)
    requires HandledUpTo(graph, m, issue, dependencies, i) && i < |dependencies|
    ensures m.Behind(graph, issue, dependencies[i])
  {
    forall z | Edge(graph, issue, z) && z < dependencies[i] ensures m.Finished(z) || Reported(m.errors, issue, z) {
      var j :| 0 <= j < |dependencies| && dependencies[j] == z;
    }
  }

  // ----- the search keeps its invariant -----

  lemma EnterKeeps(graph: map<int, set<int>>, m: Moment, issue: int)
    requires m.Sound(graph) && issue in graph && issue !in m.state
    requires m.stack != [] ==> Edge(graph, m.stack[|m.stack| - 1], issue)
    ensures m.Entered(issue).Sound(graph)
  {
    var n := m.Entered(issue);
    PathExtends(graph, m.stack, issue);
    assert issue !in m.stack;
    assert n.StackIsOpen();
    assert n.Ranked();
    forall a, b | n.Finished(a) && Edge(graph, a, b) ensures n.Settled(a, b) {
      assert m.Finished(a) && m.Settled(a, b);
    }
  }

  lemma LeaveKeeps(graph: map<int, set<int>>, m: Moment, issue: int)
    requires m.Sound(graph) && m.stack != [] && m.stack[|m.stack| - 1] == issue
    requires forall b :: Edge(graph, issue, b) ==> m.Finished(b) || Reported(m.errors, issue, b)
    ensures m.Left(issue).Sound(graph)
  {
    var n := m.Left(issue);
    assert m.stack == n.stack + [issue];
    assert issue in m.stack && m.Open(issue);
    assert issue !in n.stack;
    assert forall x :: x in m.stack <==> x in n.stack || x == issue;
    assert n.StackIsOpen();
    assert n.Ranked();
    forall a, b | n.Finished(a) && Edge(graph, a, b) ensures n.Settled(a, b) {
      if a != issue {
        assert m.Finished(a) && m.Settled(a, b);
      }
    }
  }

  lemma VisitExtends(m: Moment, issue: int, n: Moment)
    requires issue !in m.state && n.Extends(m.Entered(issue))
    ensures n.stack != [] && n.Left(issue).Extends(m)
  {
    var e := m.Entered(issue);
    assert e.state.Keys == m.state.Keys + {issue};
    forall x | x in m.state ensures x in n.state && n.state[x] == m.state[x] && x != issue {
      assert x in e.state;
    }
  }

  lemma ReportKeeps(graph: map<int, set<int>>, m: Moment, message: Message)
    requires m.Sound(graph) && message.Cycle? && Genuine(graph, message) && message !in m.errors
    ensures m.(errors := m.errors + [message]).Sound(graph)
  {
    var n := m.(errors := m.errors + [message]);
    assert n.StackIsOpen() && n.Ranked();
    forall a, b | n.Finished(a) && Edge(graph, a, b) ensures n.Settled(a, b) {
      assert m.Finished(a) && m.Settled(a, b);
      if Reported(m.errors, a, b) {
        ReportedStays(m.errors, n.errors, a, b);
      }
    }
  }

  lemma ReportedStays(earlier: seq<Message>, later: seq<Message>, a: int, b: int)
    requires earlier <= later && Reported(earlier, a, b)
    ensures Reported(later, a, b)
  {
    var m :| m in earlier && Closes(m, a, b);
    assert m in later;
  }

  lemma ExtendsTransitive(a: Moment, b: Moment, c: Moment)
    requires b.Extends(a) && c.Extends(b)
    ensures c.Extends(a)
  {
  }

  lemma AllFinished(graph: map<int, set<int>>, m: Moment)
    requires m.Sound(graph) && forall x :: x in graph ==> m.Finished(x)
    ensures Acyclic(Without(graph, ClosingEdges(m.errors)))
  {
    var cut := Without(graph, ClosingEdges(m.errors));
    forall a, b | Edge(cut, a, b)
      ensures a in m.rank && b in m.rank && m.rank[b] < m.rank[a]
    {
      assert m.Finished(a) && Edge(graph, a, b) && (a, b) !in ClosingEdges(m.errors);
      assert m.Settled(a, b);
    }
    DescendingIsAcyclic(cut, m.rank);
  }

  class Search {
    const graph: map<int, set<int>>
    var state: map<int, Colour>
    var stack: seq<int>
    var errors: seq<Message>
    ghost var rank: map<int, nat>
    ghost var clock: nat

    ghost function Now(): Moment
      reads this
    {
      Moment(state, stack, errors, rank, clock)
    }

    constructor (g: map<int, set<int>>, initial: seq<Message>)
      requires forall m :: m in initial ==> m.SelfDependency?
      ensures graph == g && errors == initial && state == map[] && stack == []
      ensures Now().Sound(graph) && Now().Tidy(graph)
    {
      assert forall i :: 0 <= i < |initial| ==> initial[i] in initial;
      graph, errors, state, stack := g, initial, map[], [];
      rank, clock := map[], 0;
    }

    /** The position of an issue that is on the stack, so the lookup cannot fail. */
    method IndexOf(issue: int) returns (start: nat)
      requires issue in stack
      ensures start < |stack| && stack[start] == issue
      ensures issue !in stack[..start]
    {
      start := 0;
      while stack[start] != issue
        invariant start < |stack|
        invariant issue !in stack[..start]
        decreases |stack| - start
      {
        start := start + 1;
      }
    }

    method Visit(issue: int)
      requires Now().Sound(graph) && Now().Tidy(graph) && issue in graph
      requires if stack == [] then !Now().Open(issue) else Edge(graph, stack[|stack| - 1], issue)
      requires if stack == [] then Now().BehindRoot(graph, issue) else Now().Behind(graph, stack[|stack| - 1], issue)
      modifies this
      ensures Now().Sound(graph) && Now().Tidy(graph) && Now().Extends(old(Now()))
      ensures Now().Finished(issue) || (stack != [] && Reported(errors, stack[|stack| - 1], issue))
      decreases graph.Keys - state.Keys, 1
    {
      if issue in state && state[issue] == Done {
        return;
      }
      if issue in state && state[issue] == Visiting {
        ReportCycle(issue);
        return;
      }
      Explore(issue);
    }

    /** The part of a visit that runs on an issue without a colour. */
    method Explore(issue: int)
      requires Now().Sound(graph) && Now().Tidy(graph) && issue in graph && issue !in state
      requires stack != [] ==> Edge(graph, stack[|stack| - 1], issue)
      requires if stack == [] then Now().BehindRoot(graph, issue) else Now().Behind(graph, stack[|stack| - 1], issue)
      modifies this
      ensures Now().Sound(graph) && Now().Tidy(graph) && Now().Extends(old(Now())) && Now().Finished(issue)
      decreases graph.Keys - state.Keys, 0
    {
      ghost var before := Now();
      EnterKeeps(graph, before, issue);
      EnterTidy(graph, before, issue);
      Enter(issue);
      Shrinks(graph.Keys, old(state.Keys), state.Keys, issue);
      VisitDependencies(issue);
      VisitExtends(before, issue, Now());
      LeaveKeeps(graph, Now(), issue);
      LeaveTidy(graph, Now(), issue);
      Leave(issue);
    }

    method Enter(issue: int)
      modifies this`state, this`stack
      ensures Now() == old(Now()).Entered(issue)
    {
      state := state[issue := Visiting];
      stack := stack + [issue];
    }

    method Leave(issue: int)
      requires stack != []
      modifies this
      ensures Now() == old(Now()).Left(issue)
    {
      stack := stack[..|stack| - 1];
      state := state[issue := Done];
      rank, clock := rank[issue := clock], clock + 1;
    }

    method ReportCycle(issue: int)
      requires Now().Sound(graph) && Now().Tidy(graph) && issue in stack && Edge(graph, stack[|stack| - 1], issue)
      requires Now().Behind(graph, stack[|stack| - 1], issue)
      modifies this`errors
      ensures Now().Sound(graph) && Now().Tidy(graph) && Now().Extends(old(Now()))
      ensures Reported(errors, stack[|stack| - 1], issue)
      ensures |errors| <= |old(errors)| + 1
    {
      var start := IndexOf(issue);
      var cycle := stack[start..] + [issue];
      PathSuffix(graph, stack, start);
      PathExtends(graph, stack[start..], issue);
      var message := Cycle(cycle);
      assert cycle[..|cycle| - 1] == stack[start..];
      assert Genuine(graph, message);
      if message !in errors {
        ReportKeeps(graph, Now(), message);
        ClosedIsNext(graph, Now(), start, issue);
        ReportTidy(graph, Now(), message);
        errors := errors + [message];
      }
      assert message in errors && Closes(message, stack[|stack| - 1], issue);
    }

    method VisitDependencies(issue: int)
      requires Now().Sound(graph) && Now().Tidy(graph) && issue in graph && stack != [] && stack[|stack| - 1] == issue
      modifies this
      ensures Now().Sound(graph) && Now().Tidy(graph) && Now().Extends(old(Now()))
      ensures forall b :: Edge(graph, issue, b) ==> Now().Finished(b) || Reported(errors, issue, b)
      decreases graph.Keys - state.Keys, 2
    {
      var dependencies := SortedElements(graph[issue]);
      for i := 0 to |dependencies|
        invariant Now().Sound(graph) && Now().Tidy(graph) && Now().Extends(old(Now()))
        invariant HandledUpTo(graph, Now(), issue, dependencies, i)
      {
        var dependency := dependencies[i];
        if dependency in graph {
          ghost var before := Now();
          StateGrows(old(Now()), before);
          NoLarger(graph.Keys, old(state.Keys), state.Keys);
          HandledIsBehind(graph, before, issue, dependencies, i);
          Visit(dependency);
          ExtendsTransitive(old(Now()), before, Now());
          HandledStays(graph, before, Now(), issue, dependencies, i);
        }
      }
      AllHandled(graph, Now(), issue, dependencies);
    }
  }

  lemma StateGrows(earlier: Moment, m: Moment)
    requires m.Extends(earlier)
    ensures earlier.state.Keys <= m.state.Keys
  {
    forall x | x in earlier.state.Keys ensures x in m.state.Keys {
      assert x in earlier.state;
    }
  }

  /** Each of the first `i` dependencies that governs rows is finished or closes a reported cycle. */
  ghost predicate HandledUpTo(graph: map<int, set<int>>, m: Moment, issue: int, dependencies: seq<int>, i: nat) {
    && i <= |dependencies|
    && forall j :: 0 <= j < i && dependencies[j] in graph ==>
         m.Finished(dependencies[j]) || Reported(m.errors, issue, dependencies[j])
  }

  lemma HandledStays(graph: map<int, set<int>>, m: Moment, n: Moment, issue: int, dependencies: seq<int>, i: nat)
    requires HandledUpTo(graph, m, issue, dependencies, i) && n.Extends(m)
    ensures HandledUpTo(graph, n, issue, dependencies, i)
  {
    forall j | 0 <= j < i && dependencies[j] in graph
      ensures n.Finished(dependencies[j]) || Reported(n.errors, issue, dependencies[j])
    {
      if Reported(m.errors, issue, dependencies[j]) {
        ReportedStays(m.errors, n.errors, issue, dependencies[j]);
      }
    }
  }

  lemma AllHandled(graph: map<int, set<int>>, m: Moment, issue: int, dependencies: seq<int>)
    requires issue in graph && forall x :: x in dependencies <==> x in graph[issue]
    requires HandledUpTo(graph, m, issue, dependencies, |dependencies|)
    ensures forall b :: Edge(graph, issue, b) ==> m.Finished(b) || Reported(m.errors, issue, b)
  {
    forall b | Edge(graph, issue, b) ensures m.Finished(b) || Reported(m.errors, issue, b) {
      var j :| 0 <= j < |dependencies| && dependencies[j] == b;
    }
  }

  lemma SelfErrorsAreSelf(rows: seq<Row>)
    ensures forall m :: m in SelfErrors(rows) ==> m.SelfDependency? && Declares(rows, m.issue, m.issue)
  {
    if rows != [] {
      var row, rest := rows[|rows| - 1], rows[..|rows| - 1];
      assert rows == rest + [row];
      SelfErrorsAreSelf(rest);
      forall m | m in SelfErrors(rows) ensures m.SelfDependency? && Declares(rows, m.issue, m.issue) {
        if m in SelfErrors(rest) {
          DeclaresSnoc(rest, row, m.issue, m.issue);
        } else {
          DeclaresSnoc(rest, row, m.issue, m.issue);
        }
      }
    }
  }

  /** The reported cycles are real, so an acyclic graph yields none; with none reported nothing is cut. */
  lemma NoErrorsMeansAcyclic(rows: seq<Row>, errors: seq<Message>)
    requires SelfErrors(rows) <= errors
    requires forall m :: m in errors[|SelfErrors(rows)|..] ==> m.Cycle? && Genuine(GraphOf(rows), m)
    requires Acyclic(Without(GraphOf(rows), ClosingEdges(errors)))
    ensures errors == [] <==> Acyclic(GraphOf(rows))
  {
    var g := GraphOf(rows);
    SelfErrorsAreSelf(rows);
    if errors == [] {
      assert forall a, b :: !Reported(errors, a, b);
      assert forall a, b :: Edge(Without(g, ClosingEdges(errors)), a, b) <==> Edge(g, a, b);
      forall p: seq<int> | IsCycle(g, p) ensures false {
        assert IsCycle(Without(g, ClosingEdges(errors)), p);
      }
    } else if |SelfErrors(rows)| > 0 {
      var issue := errors[0].issue;
      assert errors[0] in SelfErrors(rows) && Declares(rows, issue, issue) && Governs(rows, issue);
      assert IsCycle(g, [issue, issue]);
    } else {
      assert errors[0] in errors[0..] && IsCycle(g, errors[0].path);
    }
  }

  /** The whole checker. */
  method DependencyGraphErrors(rows: seq<Row>) returns (errors: seq<Message>, edgeCount: nat)
    ensures errors == [] <==> Acyclic(GraphOf(rows))
    ensures SelfErrors(rows) <= errors
    ensures forall m :: m in errors[|SelfErrors(rows)|..] ==> m.Cycle? && Genuine(GraphOf(rows), m)
    ensures CyclesDistinct(errors) && AllInOrder(GraphOf(rows), errors)
    ensures Acyclic(Without(GraphOf(rows), ClosingEdges(errors)))
    ensures edgeCount == EdgeCount(rows)
  {
    var graph, initial, count := CollectGraph(rows);
    edgeCount := count;
    SelfErrorsAreSelf(rows);
    errors := SearchAll(graph, initial);
    NoErrorsMeansAcyclic(rows, errors);
  }

  /** Visits every governing issue, in ascending order. */
  method SearchAll(graph: map<int, set<int>>, initial: seq<Message>) returns (errors: seq<Message>)
    requires forall m :: m in initial ==> m.SelfDependency?
    ensures initial <= errors
    ensures forall m :: m in errors[|initial|..] ==> m.Cycle? && Genuine(graph, m)
    ensures CyclesDistinct(errors) && AllInOrder(graph, errors)
    ensures Acyclic(Without(graph, ClosingEdges(errors)))
  {
    var search := new Search(graph, initial);
    ghost var start := search.Now();
    var issues := SortedElements(graph.Keys);
    for i := 0 to |issues|
      invariant search.graph == graph && search.Now().Sound(graph) && search.Now().Tidy(graph)
      invariant search.Now().Extends(start)
      invariant FinishedUpTo(search.Now(), issues, i)
    {
      ghost var before := search.Now();
      SmallerFinished(graph, before, issues, i);
      search.Visit(issues[i]);
      ExtendsTransitive(start, before, search.Now());
      FinishedStays(before, search.Now(), issues, i);
    }
    errors := search.errors;
    AllFinished(graph, search.Now());
  }

  ghost predicate FinishedUpTo(m: Moment, issues: seq<int>, i: nat) {
    i <= |issues| && forall j :: 0 <= j < i ==> m.Finished(issues[j])
  }

  lemma SmallerFinished(graph: map<int, set<int>>, m: Moment, issues: seq<int>, i: nat)
    requires FinishedUpTo(m, issues, i) && i < |issues|
    requires Ascending(issues) && forall x :: x in issues <==> x in graph
    ensures m.BehindRoot(graph, issues[i])
  {
    forall z | z in graph && z < issues[i] ensures m.Finished(z) {
      var j :| 0 <= j < |issues| && issues[j] == z;
    }
  }

  lemma FinishedStays(m: Moment, n: Moment, issues: seq<int>, i: nat)
    requires FinishedUpTo(m, issues, i) && n.Extends(m)
    ensures FinishedUpTo(n, issues, i)
  {
  }
}
