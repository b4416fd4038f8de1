/**
 Directed graphs as the checkers hold them: an adjacency map from each declared node
 to its neighbours. A neighbour that is not itself declared carries no edge.
 */
module Digraph {

  ghost predicate Edge<T>(g: map<T, set<T>>, a: T, b: T) {
    a in g && b in g && b in g[a]
  }

  ghost predicate IsPath<T>(g: map<T, set<T>>, p: seq<T>) {
    forall i, j :: 0 <= i && j == i + 1 && j < |p| ==> Edge(g, p[i], p[j])
  }

  /** A closed path of at least one edge; `[a, a]` is a self-loop. */
  ghost predicate IsCycle<T>(g: map<T, set<T>>, p: seq<T>) {
    |p| >= 2 && p[0] == p[|p| - 1] && IsPath(g, p)
  }

  ghost predicate Acyclic<T(!new)>(g: map<T, set<T>>) {
    forall p: seq<T> :: !IsCycle(g, p)
  }

  /** The graph left after deleting a set of edges. */
  ghost function Without<T(!new)>(g: map<T, set<T>>, cut: set<(T, T)>): (h: map<T, set<T>>)
    ensures h.Keys == g.Keys
    ensures forall a, b :: Edge(h, a, b) <==> Edge(g, a, b) && (a, b) !in cut
  {
    map a | a in g :: set b | b in g[a] && (a, b) !in cut
  }

  /** Every edge goes down in `rank`. */
  ghost predicate Descends<T(!new)>(g: map<T, set<T>>, rank: map<T, nat>) {
    forall a, b :: Edge(g, a, b) ==> a in rank && b in rank && rank[b] < rank[a]
  }

  lemma {:induction false} PathDescends<T(!new)>(g: map<T, set<T>>, rank: map<T, nat>, p: seq<T>)
    requires Descends(g, rank) && IsPath(g, p) && |p| >= 2
    ensures p[0] in rank && p[|p| - 1] in rank && rank[p[|p| - 1]] < rank[p[0]]
    decreases |p|
  {
    assert Edge(g, p[0], p[1]);
    if |p| > 2 {
      PathDescends(g, rank, p[1..]);
    }
  }

  lemma DescendingIsAcyclic<T(!new)>(g: map<T, set<T>>, rank: map<T, nat>)
    requires Descends(g, rank)
    ensures Acyclic(g)
  {
    forall p: seq<T> | IsCycle(g, p)
      ensures false
    {
      PathDescends(g, rank, p);
    }
  }

  lemma PathExtends<T>(g: map<T, set<T>>, p: seq<T>, x: T)
    requires IsPath(g, p)
    requires p != [] ==> Edge(g, p[|p| - 1], x)
    ensures IsPath(g, p + [x])
  {
  }

  lemma PathSuffix<T>(g: map<T, set<T>>, p: seq<T>, k: nat)
    requires IsPath(g, p) && k <= |p|
    ensures IsPath(g, p[k..])
  {
  }
}
