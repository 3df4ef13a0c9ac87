/**
 * An undirected weighted multigraph on the vertices 0 .. numNodes-1. Each
 * vertex owns a list of (neighbour, weight) records, newest first; adding an
 * edge prepends one record to each endpoint's list and never removes
 * duplicates.
 */
module Graphs {

  /** One adjacency record: the neighbour reached and the weight of the edge. */
  datatype Edge = Edge(vertex: int, weight: int)

  /** Every record names a vertex of the graph. */
  ghost predicate InRange(adj: seq<seq<Edge>>) {
    forall u, j :: 0 <= u < |adj| && 0 <= j < |adj[u]| ==> 0 <= adj[u][j].vertex < |adj|
  }

  /** Every record carries a non-negative weight. */
  ghost predicate NonNegative(adj: seq<seq<Edge>>) {
    forall u, j :: 0 <= u < |adj| && 0 <= j < |adj[u]| ==> adj[u][j].weight >= 0
  }

  /**
   * Undirectedness of a multigraph: u's list holds the record (v, w) exactly
   * as many times as v's list holds (u, w).
   */
  ghost predicate Symmetric(adj: seq<seq<Edge>>) {
    forall u, v, w :: 0 <= u < |adj| && 0 <= v < |adj| ==>
      multiset(adj[u])[Edge(v, w)] == multiset(adj[v])[Edge(u, w)]
  }

  /**
   * vs is a walk whose i-th step uses an edge of weight ws[i]: every vertex
   * is in the graph and each step follows a record of the adjacency list.
   */
  ghost predicate IsWalk(adj: seq<seq<Edge>>, vs: seq<int>, ws: seq<int>) {
    && |vs| == |ws| + 1
    && (forall i :: 0 <= i < |vs| ==> 0 <= vs[i] < |adj|)
    && (forall i :: 0 <= i < |ws| ==> Edge(vs[i + 1], ws[i]) in adj[vs[i]])
  }

  /** Some walk leads from s to t. */
  ghost predicate Reachable(adj: seq<seq<Edge>>, s: int, t: int) {
    exists vs, ws :: IsWalk(adj, vs, ws) && vs[0] == s && vs[|vs| - 1] == t
  }

  /** The total weight of a walk. */
  function Sum(ws: seq<int>): int {
    if ws == [] then 0 else Sum(ws[..|ws| - 1]) + ws[|ws| - 1]
  }

  lemma SumAppend(ws: seq<int>, w: int)
    ensures Sum(ws + [w]) == Sum(ws) + w
  {
    assert (ws + [w])[..|ws|] == ws;
  }

  /** In an undirected graph a record (v, w) in u's list has its twin (u, w) in v's list. */
  lemma EdgeTwin(adj: seq<seq<Edge>>, u: int, v: int, w: int)
    requires Symmetric(adj) && 0 <= u < |adj| && 0 <= v < |adj|
    ensures Edge(v, w) in adj[u] <==> Edge(u, w) in adj[v]
  {
    assert multiset(adj[u])[Edge(v, w)] == multiset(adj[v])[Edge(u, w)];
  }

  /** Every walk of an undirected graph can be followed backwards at the same cost. */
  lemma {:induction false} WalkReverses(adj: seq<seq<Edge>>, vs: seq<int>, ws: seq<int>)
    requires Symmetric(adj) && IsWalk(adj, vs, ws)
    ensures IsWalk(adj, Reverse(vs), Reverse(ws))
    ensures Sum(Reverse(ws)) == Sum(ws)
    decreases |ws|
  {
    if ws != [] {
      var n := |ws|;
      var vs', ws' := vs[1..], ws[1..];
      assert IsWalk(adj, vs', ws') by {
        forall i | 0 <= i < |ws'|
          ensures Edge(vs'[i + 1], ws'[i]) in adj[vs'[i]]
        {
          assert vs'[i + 1] == vs[i + 2] && ws'[i] == ws[i + 1] && vs'[i] == vs[i + 1];
        }
      }
      WalkReverses(adj, vs', ws');
      EdgeTwin(adj, vs[0], vs[1], ws[0]);
      assert Reverse(vs) == Reverse(vs') + [vs[0]];
      assert Reverse(ws) == Reverse(ws') + [ws[0]];
      SumAppend(Reverse(ws'), ws[0]);
      SumPrepend(ws[0], ws');
      assert ws == [ws[0]] + ws';
      var rv, rw := Reverse(vs), Reverse(ws);
      forall i | 0 <= i < |rw|
        ensures Edge(rv[i + 1], rw[i]) in adj[rv[i]]
      {
        if i < |rw| - 1 {
          assert rv[i] == Reverse(vs')[i] && rv[i + 1] == Reverse(vs')[i + 1] && rw[i] == Reverse(ws')[i];
        } else {
          assert rv[i] == vs[1] && rv[i + 1] == vs[0] && rw[i] == ws[0];
        }
      }
    }
  }

  lemma {:induction false} SumPrepend(w: int, ws: seq<int>)
    ensures Sum([w] + ws) == w + Sum(ws)
    decreases |ws|
  {
    if ws != [] {
      var init := ws[..|ws| - 1];
      assert ([w] + ws)[..|ws|] == [w] + init;
      SumPrepend(w, init);
    }
  }

  function Reverse<T>(s: seq<T>): (r: seq<T>)
    ensures |r| == |s| && forall i :: 0 <= i < |s| ==> r[i] == s[|s| - 1 - i]
  {
    if s == [] then [] else Reverse(s[1..]) + [s[0]]
  }

  /**
   * A vertex without records cannot be reached from any other vertex of an
   * undirected graph: the last step into it would need a record in its own list.
   */
  lemma IsolatedUnreachable(adj: seq<seq<Edge>>, s: int, t: int)
    requires Symmetric(adj) && 0 <= t < |adj| && adj[t] == [] && s != t
    ensures !Reachable(adj, s, t)
  {
    forall vs, ws | IsWalk(adj, vs, ws) && vs[0] == s
      ensures vs[|vs| - 1] != t
    {
      var n := |ws|;
      if n > 0 {
        assert Edge(vs[n], ws[n - 1]) in adj[vs[n - 1]];
        EdgeTwin(adj, vs[n - 1], vs[n], ws[n - 1]);
      }
    }
  }

  class Graph {
    const numNodes: nat
    var adj: seq<seq<Edge>>

    /** The adjacency lists cover exactly the vertices, name only vertices and come in twins. */
    ghost predicate Valid()
      reads this
    {
      |adj| == numNodes && InRange(adj) && Symmetric(adj)
    }

    /** A graph of n vertices and no edges. */
    constructor(n: nat)
      ensures Valid() && numNodes == n
      ensures |adj| == n && forall u :: 0 <= u < n ==> adj[u] == []
    {
      numNodes := n;
      adj := seq(n, _ => []);
    }

    /**
     * Adds the undirected edge {u, v} of the given weight: (v, weight) goes
     * to the head of u's list and then (u, weight) to the head of v's list.
     * pathfinder.cpp does not check the endpoints before indexing.
     */
    method AddEdge(u: int, v: int, weight: int)
      requires Valid()
      requires 0 <= u < numNodes && 0 <= v < numNodes
      modifies this
      ensures Valid()
      ensures |adj| == old(|adj|)
      ensures u != v ==> adj[u] == [Edge(v, weight)] + old(adj[u])
      ensures u != v ==> adj[v] == [Edge(u, weight)] + old(adj[v])
      ensures u == v ==> adj[u] == [Edge(u, weight), Edge(u, weight)] + old(adj[u])
      ensures forall x :: 0 <= x < |adj| && x != u && x != v ==> adj[x] == old(adj[x])
    {
      ghost var before := adj;
      adj := adj[u := [Edge(v, weight)] + adj[u]];
      adj := adj[v := [Edge(u, weight)] + adj[v]];
      PushedBoth(before, adj, u, v, weight);
      AddEdgeKeepsSymmetry(before, adj, u, v, weight);
    }
  }

  /** Prepending a pair of twin records keeps the lists in twins. */
  lemma AddEdgeKeepsSymmetry(a: seq<seq<Edge>>, b: seq<seq<Edge>>, u: int, v: int, w: int)
    requires Symmetric(a) && InRange(a) && 0 <= u < |a| && 0 <= v < |a|
    requires |b| == |a|
    requires forall x :: 0 <= x < |a| ==> b[x] == Prepended(a[x], x, u, v, w)
    ensures Symmetric(b) && InRange(b)
  {
    forall x, y, z | 0 <= x < |b| && 0 <= y < |b|
      ensures multiset(b[x])[Edge(y, z)] == multiset(b[y])[Edge(x, z)]
    {
      assert multiset(a[x])[Edge(y, z)] == multiset(a[y])[Edge(x, z)];
      PrependedCount(a[x], x, u, v, w, Edge(y, z));
      PrependedCount(a[y], y, u, v, w, Edge(x, z));
    }
    forall x, j | 0 <= x < |b| && 0 <= j < |b[x]|
      ensures 0 <= b[x][j].vertex < |b|
    {
      PrependedInRange(a, x, u, v, w, j);
    }
  }

  /** Vertex x's list after the records of the edge {u, v} of weight w are pushed on the lists' heads. */
  function Prepended(l: seq<Edge>, x: int, u: int, v: int, w: int): seq<Edge> {
    (if x == v then [Edge(u, w)] else []) + (if x == u then [Edge(v, w)] else []) + l
  }

  /** The two pushes of AddEdge, in their order, give Prepended on every list. */
  lemma PushedBoth(a: seq<seq<Edge>>, b: seq<seq<Edge>>, u: int, v: int, w: int)
    requires 0 <= u < |a| && 0 <= v < |a|
    requires b == a[u := [Edge(v, w)] + a[u]][v := [Edge(u, w)] + a[u := [Edge(v, w)] + a[u]][v]]
    ensures |b| == |a| && forall x :: 0 <= x < |a| ==> b[x] == Prepended(a[x], x, u, v, w)
    ensures u != v ==> b[u] == [Edge(v, w)] + a[u] && b[v] == [Edge(u, w)] + a[v]
    ensures u == v ==> b[u] == [Edge(u, w), Edge(u, w)] + a[u]
    ensures forall x :: 0 <= x < |a| && x != u && x != v ==> b[x] == a[x]
  {
    forall x | 0 <= x < |a|
      ensures b[x] == Prepended(a[x], x, u, v, w)
    {
      if x == u && x == v {
        assert b[x] == [Edge(u, w)] + ([Edge(v, w)] + a[x]);
      }
    }
  }

  /** How often a record occurs in a list after the pushes of one edge. */
  lemma PrependedCount(l: seq<Edge>, x: int, u: int, v: int, w: int, e: Edge)
    ensures multiset(Prepended(l, x, u, v, w))[e] ==
      multiset(l)[e] + (if x == v && e == Edge(u, w) then 1 else 0) + (if x == u && e == Edge(v, w) then 1 else 0)
  {
    var p1: seq<Edge> := if x == v then [Edge(u, w)] else [];
    var p2: seq<Edge> := if x == u then [Edge(v, w)] else [];
    assert Prepended(l, x, u, v, w) == p1 + p2 + l;
    assert multiset(p1 + p2 + l) == multiset(p1) + multiset(p2) + multiset(l);
  }

  /** The pushes of an edge between vertices add only records naming vertices. */
  lemma PrependedInRange(a: seq<seq<Edge>>, x: int, u: int, v: int, w: int, j: int)
    requires InRange(a) && 0 <= u < |a| && 0 <= v < |a| && 0 <= x < |a|
    requires 0 <= j < |Prepended(a[x], x, u, v, w)|
    ensures 0 <= Prepended(a[x], x, u, v, w)[j].vertex < |a|
  {
    var b := Prepended(a[x], x, u, v, w);
    var k := j - (|b| - |a[x]|);
    if k >= 0 {
      assert b[j] == a[x][k];
    }
  }
}
