/**
 * A* search over a Graph with the MinHeap as its frontier, and the
 * reconstruction of the path from the parent links it leaves behind.
 */
module Search {
  import opened Heap
  import opened Graphs

  /** A g- or f-score. The INT_MAX of pathfinder.cpp, "not reached yet", is Infinite. */
  datatype Dist = Infinite | Finite(value: nat)

  /** What a search reports: the distance and the path, or that there is none. */
  datatype Outcome = Found(distance: nat, path: seq<int>) | NotFound

  /** The placeholder heuristic: the absolute difference of the two vertex numbers. */
  function Heuristic(node1: int, node2: int): (h: nat)
    ensures h == 0 <==> node1 == node2
    ensures h == node1 - node2 || h == node2 - node1
  {
    if node1 >= node2 then node1 - node2 else node2 - node1
  }

  // ---------------------------------------------------------------------
  // Path reconstruction
  // ---------------------------------------------------------------------

  /** (key, stamp) of a is lexicographically below that of b. */
  ghost predicate Precedes(key: seq<nat>, stamp: seq<nat>, a: int, b: int)
    requires 0 <= a < |key| && 0 <= b < |key| && |stamp| == |key|
  {
    key[a] < key[b] || (key[a] == key[b] && stamp[a] < stamp[b])
  }

  /**
   * Every parent link goes to a vertex of the graph that precedes its child
   * in the (key, stamp) order, so following links always ends at a root
   * (a vertex whose parent is -1).
   */
  ghost predicate Ranked(parent: seq<int>, key: seq<nat>, stamp: seq<nat>) {
    && |key| == |parent| && |stamp| == |parent|
    && forall v :: 0 <= v < |parent| && parent[v] != -1 ==>
         0 <= parent[v] < |parent| && Precedes(key, stamp, parent[v], v)
  }

  /** The chain of parent links from x's root down to x, the order pathfinder.cpp prints it in. */
  ghost predicate IsChain(parent: seq<int>, path: seq<int>) {
    && 0 < |path|
    && (forall i :: 0 <= i < |path| ==> 0 <= path[i] < |parent|)
    && parent[path[0]] == -1
    && (forall i :: 0 < i < |path| ==> parent[path[i]] == path[i - 1])
  }

  /**
   * The path from the root of j's parent chain to j. The rank arguments are
   * ghost: they only show that the recursion ends.
   */
  function PathTo(parent: seq<int>, j: int, ghost key: seq<nat>, ghost stamp: seq<nat>): (path: seq<int>)
    requires Ranked(parent, key, stamp) && 0 <= j < |parent|
    ensures IsChain(parent, path) && path[|path| - 1] == j
    decreases key[j], stamp[j]
  {
    if parent[j] == -1 then [j] else PathTo(parent, parent[j], key, stamp) + [j]
  }

  /** The parent chain of a vertex is unique, so PathTo returns the one chain that ends at j. */
  lemma {:induction false} ChainIsUnique(parent: seq<int>, key: seq<nat>, stamp: seq<nat>, path: seq<int>)
    requires Ranked(parent, key, stamp) && IsChain(parent, path)
    ensures path == PathTo(parent, path[|path| - 1], key, stamp)
    decreases |path|
  {
    var j := path[|path| - 1];
    if |path| == 1 {
    } else {
      var init := path[..|path| - 1];
      assert IsChain(parent, init);
      ChainIsUnique(parent, key, stamp, init);
      assert parent[j] == init[|init| - 1];
    }
  }

  // ---------------------------------------------------------------------
  // Search state and its invariant
  // ---------------------------------------------------------------------

  /**
   * Ghost bookkeeping of one search: when each vertex was last improved
   * (stamp, below clock), the weight of the record its parent link uses
   * (via), and a walk from the source with its weights that witnesses the
   * vertex's g-score (walks, costs).
   */
  datatype Trace = Trace(stamp: seq<nat>, clock: nat, via: seq<int>, walks: seq<seq<int>>, costs: seq<seq<int>>)

  /** Some entry of the heap is for vertex v. */
  ghost predicate InHeap(heap: seq<Entry>, v: int) {
    exists e :: e in heap && e.v == v
  }

  /** The first k records of v's list all lead to vertices with a finite g-score. */
  ghost predicate ExpandedUpTo(adj: seq<seq<Edge>>, g: seq<Dist>, v: int, k: nat)
    requires 0 <= v < |adj|
  {
    forall j :: 0 <= j < k && j < |adj[v]| ==> 0 <= adj[v][j].vertex < |g| && g[adj[v][j].vertex].Finite?
  }

  /**
   * Every reached vertex is still waiting in the heap or is not the target
   * and has had its records relaxed; vertex u is being relaxed and has had
   * its first k records done (u == -1 when no vertex is being relaxed).
   */
  ghost predicate Accounted(adj: seq<seq<Edge>>, target: int, g: seq<Dist>, heap: seq<Entry>, u: int, k: nat)
    requires |g| == |adj|
  {
    forall v :: 0 <= v < |g| ==> Settled(adj, target, g, heap, u, k, v)
  }

  /** Vertex v, if reached, is waiting in the heap or is not the target and has had its records relaxed. */
  ghost predicate Settled(adj: seq<seq<Edge>>, target: int, g: seq<Dist>, heap: seq<Entry>, u: int, k: nat, v: int)
    requires |g| == |adj| && 0 <= v < |g|
  {
    g[v].Finite? ==> InHeap(heap, v) || (v != target && ExpandedUpTo(adj, g, v, if v == u then k else |adj[v]|))
  }

  /** The parent link of v is a record of its parent's list and does not lead upwards. */
  ghost predicate Link(adj: seq<seq<Edge>>, g: seq<Dist>, parent: seq<int>, tr: Trace, v: int)
    requires |g| == |adj| == |parent| == |tr.stamp| == |tr.via| && 0 <= v < |g|
  {
    var p := parent[v];
    && 0 <= p < |g| && g[p].Finite? && g[v].Finite? && tr.via[v] >= 0
    && Edge(v, tr.via[v]) in adj[p]
    && g[p].value + tr.via[v] <= g[v].value
    && (g[p].value + tr.via[v] == g[v].value ==> tr.stamp[p] < tr.stamp[v])
  }

  /** Apart from the source, exactly the reached vertices have a parent, and every parent link is a Link. */
  ghost predicate ParentLinks(adj: seq<seq<Edge>>, src: int, g: seq<Dist>, parent: seq<int>, tr: Trace)
    requires |g| == |adj| == |parent| == |tr.stamp| == |tr.via|
  {
    && (forall v :: 0 <= v < |g| ==> tr.stamp[v] < tr.clock)
    && (forall v {:trigger parent[v]} :: 0 <= v < |g| && v != src ==> (parent[v] == -1 <==> g[v].Infinite?))
    && (forall v :: 0 <= v < |g| && parent[v] != -1 ==> Link(adj, g, parent, tr, v))
  }

  /** Every finite g-score is the weight of a walk from the source to its vertex. */
  ghost predicate Witnessed(adj: seq<seq<Edge>>, src: int, g: seq<Dist>, tr: Trace)
    requires |g| == |tr.walks| == |tr.costs|
  {
    forall v :: 0 <= v < |g| ==> Witness(adj, src, g, tr, v)
  }

  /** If v is reached, the walk recorded for v leads from the source to v and weighs g[v]. */
  ghost predicate Witness(adj: seq<seq<Edge>>, src: int, g: seq<Dist>, tr: Trace, v: int)
    requires |g| == |tr.walks| == |tr.costs| && 0 <= v < |g|
  {
    g[v].Finite? ==>
      && IsWalk(adj, tr.walks[v], tr.costs[v])
      && tr.walks[v][0] == src && tr.walks[v][|tr.walks[v]| - 1] == v
      && Sum(tr.costs[v]) == g[v].value
  }

  /** f = g + h for every reached vertex. */
  ghost predicate FScores(target: int, g: seq<Dist>, f: seq<Dist>)
    requires |g| == |f|
  {
    forall v :: 0 <= v < |g| ==> FScore(target, g, f, v)
  }

  /** If v is reached, f[v] = g[v] + h(v). */
  ghost predicate FScore(target: int, g: seq<Dist>, f: seq<Dist>, v: int)
    requires |g| == |f| && 0 <= v < |g|
  {
    g[v].Finite? ==> f[v] == Finite(g[v].value + Heuristic(v, target))
  }

  /** Every entry in the heap is for a reached vertex. */
  ghost predicate HeapSound(g: seq<Dist>, heap: seq<Entry>) {
    forall e :: e in heap ==> 0 <= e.v < |g| && g[e.v].Finite?
  }

  /** The invariant of the search loop. */
  ghost predicate Inv(adj: seq<seq<Edge>>, src: int, target: int, g: seq<Dist>, f: seq<Dist>, parent: seq<int>,
                      tr: Trace, heap: seq<Entry>, u: int, k: nat)
  {
    var n := |adj|;
    && |g| == n && |f| == n && |parent| == n
    && |tr.stamp| == n && |tr.via| == n && |tr.walks| == n && |tr.costs| == n
    && InRange(adj) && NonNegative(adj)
    && 0 <= src < n && g[src] == Finite(0) && parent[src] == -1
    && ParentLinks(adj, src, g, parent, tr)
    && Witnessed(adj, src, g, tr)
    && FScores(target, g, f)
    && HeapSound(g, heap)
    && Accounted(adj, target, g, heap, u, k)
  }

  /** g' is nowhere worse than g: reached vertices stay reached, with a score no larger. */
  ghost predicate NoWorse(g': seq<Dist>, g: seq<Dist>) {
    |g'| == |g| && forall v :: 0 <= v < |g| && g[v].Finite? ==> g'[v].Finite? && g'[v].value <= g[v].value
  }

  /** Score a is strictly better than score b: a reaches a vertex b does not, or both do and a is smaller. */
  predicate Lower(a: Dist, b: Dist) {
    a.Finite? && (b.Infinite? || a.value < b.value)
  }

  /** g' is nowhere worse than g and strictly better for some vertex. */
  ghost predicate Better(g': seq<Dist>, g: seq<Dist>) {
    NoWorse(g', g) && exists v :: 0 <= v < |g| && Lower(g'[v], g[v])
  }

  /** Improvements compose, and a strict improvement in either step is strict overall. */
  lemma BetterTrans(a: seq<Dist>, b: seq<Dist>, c: seq<Dist>)
    requires NoWorse(a, b) && NoWorse(b, c)
    ensures NoWorse(a, c)
    ensures Better(a, b) || Better(b, c) ==> Better(a, c)
  {
    if Better(a, b) {
      var v :| 0 <= v < |b| && Lower(a[v], b[v]);
      assert Lower(a[v], c[v]);
    } else if Better(b, c) {
      var v :| 0 <= v < |c| && Lower(b[v], c[v]);
      assert Lower(a[v], c[v]);
    }
  }

  /** The number of vertices not reached yet. */
  function Unreached(g: seq<Dist>): nat {
    if g == [] then 0 else Unreached(g[..|g| - 1]) + (if g[|g| - 1].Infinite? then 1 else 0)
  }

  /** The sum of the finite g-scores. */
  function FiniteSum(g: seq<Dist>): nat {
    if g == [] then 0 else FiniteSum(g[..|g| - 1]) + (if g[|g| - 1].Finite? then g[|g| - 1].value else 0)
  }

  /**
   * Improving scores decreases (Unreached, FiniteSum) lexicographically:
   * each relaxation either reaches a new vertex or lowers a finite score.
   */
  lemma {:induction false} ImprovementDecreases(g': seq<Dist>, g: seq<Dist>)
    requires NoWorse(g', g)
    ensures Unreached(g') <= Unreached(g)
    ensures Unreached(g') == Unreached(g) ==> FiniteSum(g') <= FiniteSum(g)
    ensures Better(g', g) ==> Unreached(g') < Unreached(g) || FiniteSum(g') < FiniteSum(g)
    decreases |g|
  {
    if g != [] {
      var n := |g|;
      var p', p := g'[..n - 1], g[..n - 1];
      assert NoWorse(p', p);
      ImprovementDecreases(p', p);
      if Better(g', g) {
        var v :| 0 <= v < n && Lower(g'[v], g[v]);
        if v < n - 1 {
          assert Lower(p'[v], p[v]);
          assert Better(p', p);
        }
      }
    }
  }

  // ---------------------------------------------------------------------
  // The steps of the search preserve the invariant
  // ---------------------------------------------------------------------

  /** The state right after initialisation satisfies the invariant. */
  lemma InitInv(adj: seq<seq<Edge>>, src: int, target: int, g: seq<Dist>, f: seq<Dist>, parent: seq<int>,
                tr: Trace, heap: seq<Entry>)
    requires InRange(adj) && NonNegative(adj) && 0 <= src < |adj|
    requires g == seq(|adj|, _ => Infinite)[src := Finite(0)]
    requires f == seq(|adj|, _ => Infinite)[src := Finite(Heuristic(src, target))]
    requires parent == seq(|adj|, _ => -1)
    requires tr == Trace(seq(|adj|, _ => 0), 1, seq(|adj|, _ => 0), seq(|adj|, _ => [src]), seq(|adj|, _ => []))
    requires multiset(heap) == multiset{Entry(src, Heuristic(src, target))}
    ensures Inv(adj, src, target, g, f, parent, tr, heap, -1, 0)
  {
    forall e | e in heap
      ensures e == Entry(src, Heuristic(src, target))
    {
      assert e in multiset(heap);
    }
    assert Entry(src, Heuristic(src, target)) in multiset(heap);
    assert InHeap(heap, src);
  }

  /**
   * Popping an entry of a vertex other than the target: the popped vertex is
   * reached, and it becomes the vertex being relaxed, from its record 0 on.
   */
  lemma PopInv(adj: seq<seq<Edge>>, src: int, target: int, g: seq<Dist>, f: seq<Dist>, parent: seq<int>,
               tr: Trace, heap: seq<Entry>, heap': seq<Entry>, top: Entry)
    requires Inv(adj, src, target, g, f, parent, tr, heap, -1, 0)
    requires multiset(heap') + multiset{top} == multiset(heap)
    requires top.v != target
    ensures 0 <= top.v < |adj| && g[top.v].Finite?
    ensures Inv(adj, src, target, g, f, parent, tr, heap', top.v, 0)
  {
    assert top in multiset(heap);
    forall e | e in heap'
      ensures e in heap
    {
      assert e in multiset(heap');
      assert e in multiset(heap);
    }
    forall v | 0 <= v < |g|
      ensures Settled(adj, target, g, heap', top.v, 0, v)
    {
      assert Settled(adj, target, g, heap, -1, 0, v);
      if v != top.v && InHeap(heap, v) {
        var e :| e in heap && e.v == v;
        assert e in multiset(heap);
        assert e in multiset(heap');
      }
    }
  }

  /** Scores that only improve keep "the first k records of v lead to reached vertices". */
  lemma ExpandedMono(adj: seq<seq<Edge>>, g: seq<Dist>, g': seq<Dist>, v: int, k: nat)
    requires 0 <= v < |adj| && NoWorse(g', g) && ExpandedUpTo(adj, g, v, k)
    ensures ExpandedUpTo(adj, g', v, k)
  {
  }

  /** The ghost bookkeeping of one improvement of v through u's record (v, w). */
  ghost function Record(tr: Trace, u: int, v: int, w: int): Trace
    requires 0 <= u < |tr.walks| && 0 <= v < |tr.walks| && |tr.costs| == |tr.walks|
    requires |tr.stamp| == |tr.walks| && |tr.via| == |tr.walks|
  {
    Trace(tr.stamp[v := tr.clock], tr.clock + 1, tr.via[v := w],
          tr.walks[v := tr.walks[u] + [v]], tr.costs[v := tr.costs[u] + [w]])
  }

  /** A walk ending at x extends by any record (v, w) of x's list. */
  lemma WalkExtends(adj: seq<seq<Edge>>, vs: seq<int>, ws: seq<int>, v: int, w: int)
    requires IsWalk(adj, vs, ws) && 0 <= v < |adj| && Edge(v, w) in adj[vs[|vs| - 1]]
    ensures IsWalk(adj, vs + [v], ws + [w])
  {
    var vs', ws' := vs + [v], ws + [w];
    forall i | 0 <= i < |ws'|
      ensures Edge(vs'[i + 1], ws'[i]) in adj[vs'[i]]
    {
      if i < |ws| {
        assert vs'[i + 1] == vs[i + 1] && ws'[i] == ws[i] && vs'[i] == vs[i];
      }
    }
  }

  /**
   * The situation of a relaxation: u's k-th record is (v, w), and d = g[u] + w
   * improves g[v]; heap' is the heap after pushing v with score d + h(v).
   */
  ghost predicate Improves(adj: seq<seq<Edge>>, target: int, g: seq<Dist>, heap: seq<Entry>, heap': seq<Entry>,
                           u: int, k: nat, v: int, w: int, d: nat)
  {
    && |g| == |adj| && 0 <= u < |adj| && u != target && g[u].Finite? && k < |adj[u]|
    && adj[u][k] == Edge(v, w) && d == g[u].value + w && 0 <= v < |adj|
    && (g[v].Infinite? || d < g[v].value)
    && multiset(heap') == multiset(heap) + multiset{Entry(v, d + Heuristic(v, target))}
  }

  /**
   * Facts of one improvement: the weight is non-negative, v is neither u nor
   * the source, (v, w) is a record of u's list, and the scores strictly improve.
   */
  lemma RelaxBasics(adj: seq<seq<Edge>>, src: int, target: int, g: seq<Dist>, f: seq<Dist>, parent: seq<int>,
                    tr: Trace, heap: seq<Entry>, heap': seq<Entry>, u: int, k: nat, v: int, w: int, d: nat)
    requires Inv(adj, src, target, g, f, parent, tr, heap, u, k)
    requires Improves(adj, target, g, heap, heap', u, k, v, w, d)
    ensures w >= 0 && v != u && v != src && Edge(v, w) in adj[u]
    ensures Better(g[v := Finite(d)], g)
  {
    assert adj[u][k] in adj[u];
    assert Lower(g[v := Finite(d)][v], g[v]);
  }

  /** Lowering g[v] to g[u] + w through u's record (v, w) keeps every parent link a Link. */
  lemma RelaxLinks(adj: seq<seq<Edge>>, src: int, target: int, g: seq<Dist>, f: seq<Dist>, parent: seq<int>,
                   tr: Trace, heap: seq<Entry>, heap': seq<Entry>, u: int, k: nat, v: int, w: int, d: nat)
    requires Inv(adj, src, target, g, f, parent, tr, heap, u, k)
    requires Improves(adj, target, g, heap, heap', u, k, v, w, d)
    ensures ParentLinks(adj, src, g[v := Finite(d)], parent[v := u], Record(tr, u, v, w))
  {
    RelaxBasics(adj, src, target, g, f, parent, tr, heap, heap', u, k, v, w, d);
    var g', parent', tr' := g[v := Finite(d)], parent[v := u], Record(tr, u, v, w);
    forall x | 0 <= x < |g'| && parent'[x] != -1
      ensures Link(adj, g', parent', tr', x)
    {
      if x != v {
        assert Link(adj, g, parent, tr, x);
      }
    }
  }

  /** The walk to u followed by the record (v, w) witnesses the new g[v]. */
  lemma RelaxWitness(adj: seq<seq<Edge>>, src: int, target: int, g: seq<Dist>, f: seq<Dist>, parent: seq<int>,
                     tr: Trace, heap: seq<Entry>, heap': seq<Entry>, u: int, k: nat, v: int, w: int, d: nat)
    requires Inv(adj, src, target, g, f, parent, tr, heap, u, k)
    requires Improves(adj, target, g, heap, heap', u, k, v, w, d)
    ensures Witnessed(adj, src, g[v := Finite(d)], Record(tr, u, v, w))
  {
    RelaxBasics(adj, src, target, g, f, parent, tr, heap, heap', u, k, v, w, d);
    var g', tr' := g[v := Finite(d)], Record(tr, u, v, w);
    assert Witness(adj, src, g, tr, u);
    WalkExtends(adj, tr.walks[u], tr.costs[u], v, w);
    SumAppend(tr.costs[u], w);
    forall x | 0 <= x < |g'|
      ensures Witness(adj, src, g', tr', x)
    {
      if x != v {
        assert Witness(adj, src, g, tr, x);
      }
    }
  }

  /** Pushing an entry for the newly improved v keeps the heap sound and every reached vertex accounted for. */
  lemma RelaxAccounted(adj: seq<seq<Edge>>, src: int, target: int, g: seq<Dist>, f: seq<Dist>, parent: seq<int>,
                       tr: Trace, heap: seq<Entry>, heap': seq<Entry>, u: int, k: nat, v: int, w: int, d: nat)
    requires Inv(adj, src, target, g, f, parent, tr, heap, u, k)
    requires Improves(adj, target, g, heap, heap', u, k, v, w, d)
    ensures HeapSound(g[v := Finite(d)], heap')
    ensures Accounted(adj, target, g[v := Finite(d)], heap', u, k + 1)
  {
    RelaxBasics(adj, src, target, g, f, parent, tr, heap, heap', u, k, v, w, d);
    var g' := g[v := Finite(d)];
    var entry := Entry(v, d + Heuristic(v, target));
    forall h | h in heap'
      ensures 0 <= h.v < |g'| && g'[h.v].Finite?
    {
      assert h in multiset(heap');
      if h != entry {
        assert h in multiset(heap);
      }
    }
    assert entry in multiset(heap');
    var next := k + 1;
    forall x | 0 <= x < |g'|
      ensures Settled(adj, target, g', heap', u, next, x)
    {
      assert Settled(adj, target, g, heap, u, k, x);
      if g'[x].Infinite? {
      } else if x == v {
        assert InHeap(heap', v);
      } else if InHeap(heap, x) {
        var h :| h in heap && h.v == x;
        assert h in multiset(heap);
        assert h in multiset(heap');
      } else {
        ExpandedMono(adj, g, g', x, if x == u then k else |adj[x]|);
      }
    }
  }

  /** Relaxing u's k-th record (v, w) when d = g[u] + w improves g[v] keeps the invariant. */
  lemma RelaxInv(adj: seq<seq<Edge>>, src: int, target: int, g: seq<Dist>, f: seq<Dist>, parent: seq<int>,
                 tr: Trace, heap: seq<Entry>, heap': seq<Entry>, u: int, k: nat, v: int, w: int, d: nat)
    requires Inv(adj, src, target, g, f, parent, tr, heap, u, k)
    requires Improves(adj, target, g, heap, heap', u, k, v, w, d)
    ensures Better(g[v := Finite(d)], g)
    ensures Inv(adj, src, target, g[v := Finite(d)], f[v := Finite(d + Heuristic(v, target))],
                parent[v := u], Record(tr, u, v, w), heap', u, k + 1)
  {
    RelaxBasics(adj, src, target, g, f, parent, tr, heap, heap', u, k, v, w, d);
    RelaxLinks(adj, src, target, g, f, parent, tr, heap, heap', u, k, v, w, d);
    RelaxWitness(adj, src, target, g, f, parent, tr, heap, heap', u, k, v, w, d);
    RelaxAccounted(adj, src, target, g, f, parent, tr, heap, heap', u, k, v, w, d);
    var g', f' := g[v := Finite(d)], f[v := Finite(d + Heuristic(v, target))];
    forall x | 0 <= x < |g'|
      ensures FScore(target, g', f', x)
    {
      if x != v {
        assert FScore(target, g, f, x);
      }
    }
  }

  /** Skipping u's k-th record (v, w) when g[u] + w does not improve g[v] keeps the invariant. */
  lemma SkipInv(adj: seq<seq<Edge>>, src: int, target: int, g: seq<Dist>, f: seq<Dist>, parent: seq<int>,
                tr: Trace, heap: seq<Entry>, u: int, k: nat)
    requires Inv(adj, src, target, g, f, parent, tr, heap, u, k)
    requires 0 <= u < |adj| && g[u].Finite? && k < |adj[u]|
    requires var e := adj[u][k]; 0 <= e.vertex < |g| && g[e.vertex].Finite?
    ensures Inv(adj, src, target, g, f, parent, tr, heap, u, k + 1)
  {
    var next := k + 1;
    forall x | 0 <= x < |g|
      ensures Settled(adj, target, g, heap, u, next, x)
    {
      assert Settled(adj, target, g, heap, u, k, x);
    }
  }

  /** Once all of u's records are relaxed, u is no longer an exception. */
  lemma FinishInv(adj: seq<seq<Edge>>, src: int, target: int, g: seq<Dist>, f: seq<Dist>, parent: seq<int>,
                  tr: Trace, heap: seq<Entry>, u: int)
    requires 0 <= u < |adj|
    requires Inv(adj, src, target, g, f, parent, tr, heap, u, |adj[u]|)
    ensures Inv(adj, src, target, g, f, parent, tr, heap, -1, 0)
  {
    forall x | 0 <= x < |g|
      ensures Settled(adj, target, g, heap, -1, 0, x)
    {
      assert Settled(adj, target, g, heap, u, |adj[u]|, x);
    }
  }

  // ---------------------------------------------------------------------
  // Outcomes
  // ---------------------------------------------------------------------

  /** The (key, stamp) rank of the reached vertices; unreached ones have no parent. */
  ghost function Keys(g: seq<Dist>): (key: seq<nat>)
    ensures |key| == |g| && forall v :: 0 <= v < |g| && g[v].Finite? ==> key[v] == g[v].value
  {
    seq(|g|, i requires 0 <= i < |g| => if g[i].Finite? then g[i].value else 0)
  }

  /** The parent links rank the vertices by (g-score, stamp), so PathTo may follow them. */
  lemma LinksAreRanked(adj: seq<seq<Edge>>, src: int, target: int, g: seq<Dist>, f: seq<Dist>, parent: seq<int>,
                       tr: Trace, heap: seq<Entry>, u: int, k: nat)
    requires Inv(adj, src, target, g, f, parent, tr, heap, u, k)
    ensures Ranked(parent, Keys(g), tr.stamp)
  {
    var key := Keys(g);
    forall v | 0 <= v < |parent| && parent[v] != -1
      ensures 0 <= parent[v] < |parent| && Precedes(key, tr.stamp, parent[v], v)
    {
      assert Link(adj, g, parent, tr, v);
    }
  }

  /** The weights of the records the parent links of a chain use. */
  ghost function ChainCosts(path: seq<int>, via: seq<int>): (ws: seq<int>)
    requires 0 < |path| && forall i :: 0 <= i < |path| ==> 0 <= path[i] < |via|
    ensures |ws| == |path| - 1
  {
    seq(|path| - 1, i requires 0 <= i < |path| - 1 => via[path[i + 1]])
  }

  /** The weights of a chain are those of the chain without its last vertex, then the last link's. */
  lemma ChainCostsGrow(path: seq<int>, via: seq<int>)
    requires 1 < |path| && forall i :: 0 <= i < |path| ==> 0 <= path[i] < |via|
    ensures ChainCosts(path, via) == ChainCosts(path[..|path| - 1], via) + [via[path[|path| - 1]]]
  {
  }

  /**
   * A parent chain ending at a reached vertex is a walk through reached
   * vertices, and its weight is at most the g-score difference of its ends.
   */
  lemma {:induction false} ChainIsWalk(adj: seq<seq<Edge>>, g: seq<Dist>, parent: seq<int>, tr: Trace,
                                        path: seq<int>)
    requires |g| == |adj| == |parent| == |tr.stamp| == |tr.via|
    requires forall v :: 0 <= v < |g| && parent[v] != -1 ==> Link(adj, g, parent, tr, v)
    requires IsChain(parent, path) && g[path[|path| - 1]].Finite?
    ensures forall i :: 0 <= i < |path| ==> g[path[i]].Finite?
    ensures IsWalk(adj, path, ChainCosts(path, tr.via))
    ensures Sum(ChainCosts(path, tr.via)) <= g[path[|path| - 1]].value - g[path[0]].value
    decreases |path|
  {
    var n := |path|;
    if n > 1 {
      var init := path[..n - 1];
      var last := path[n - 1];
      assert parent[last] == path[n - 2] != -1;
      assert Link(adj, g, parent, tr, last);
      assert IsChain(parent, init);
      ChainIsWalk(adj, g, parent, tr, init);
      ChainCostsGrow(path, tr.via);
      SumAppend(ChainCosts(init, tr.via), tr.via[last]);
      WalkExtends(adj, init, ChainCosts(init, tr.via), last, tr.via[last]);
      assert init + [last] == path;
    } else {
      assert ChainCosts(path, tr.via) == [];
    }
  }

  /** The path reported when the target is popped starts at src and costs at most the reported distance. */
  lemma FoundPath(adj: seq<seq<Edge>>, src: int, target: int, g: seq<Dist>, f: seq<Dist>, parent: seq<int>,
                  tr: Trace, heap: seq<Entry>, u: int, k: nat)
    requires Inv(adj, src, target, g, f, parent, tr, heap, u, k)
    requires 0 <= target < |adj| && g[target].Finite?
    ensures Ranked(parent, Keys(g), tr.stamp)
    ensures var path := PathTo(parent, target, Keys(g), tr.stamp);
      && IsWalk(adj, path, ChainCosts(path, tr.via))
      && path[0] == src && path[|path| - 1] == target
      && Sum(ChainCosts(path, tr.via)) <= g[target].value
  {
    LinksAreRanked(adj, src, target, g, f, parent, tr, heap, u, k);
    var path := PathTo(parent, target, Keys(g), tr.stamp);
    ChainIsWalk(adj, g, parent, tr, path);
  }

  /** When every reached vertex has had its records relaxed, walks from the source stay among reached vertices. */
  lemma {:induction false} WalkStaysReached(adj: seq<seq<Edge>>, g: seq<Dist>, vs: seq<int>, ws: seq<int>, i: nat)
    requires |g| == |adj| && IsWalk(adj, vs, ws) && g[vs[0]].Finite? && i < |vs|
    requires forall v :: 0 <= v < |g| && g[v].Finite? ==> ExpandedUpTo(adj, g, v, |adj[v]|)
    ensures g[vs[i]].Finite?
    decreases i
  {
    if i > 0 {
      WalkStaysReached(adj, g, vs, ws, i - 1);
      var x := vs[i - 1];
      assert Edge(vs[i], ws[i - 1]) in adj[x];
      var j :| 0 <= j < |adj[x]| && adj[x][j] == Edge(vs[i], ws[i - 1]);
      assert ExpandedUpTo(adj, g, x, |adj[x]|);
    }
  }

  /** If the heap runs empty, no walk leads from the source to the target. */
  lemma ExhaustedMeansUnreachable(adj: seq<seq<Edge>>, src: int, target: int, g: seq<Dist>, f: seq<Dist>,
                                  parent: seq<int>, tr: Trace)
    requires Inv(adj, src, target, g, f, parent, tr, [], -1, 0)
    ensures !Reachable(adj, src, target)
  {
    forall v | 0 <= v < |g| && g[v].Finite?
      ensures v != target && ExpandedUpTo(adj, g, v, |adj[v]|)
    {
      assert Settled(adj, target, g, [], -1, 0, v);
      assert !InHeap([], v);
    }
    forall vs, ws | IsWalk(adj, vs, ws) && vs[0] == src
      ensures vs[|vs| - 1] != target
    {
      WalkStaysReached(adj, g, vs, ws, |vs| - 1);
    }
  }

  // ---------------------------------------------------------------------
  // The search
  // ---------------------------------------------------------------------

  /**
   * The effect of relaxing record k of u's list, (v, w): when u's score plus
   * w beats v's score, v gets that score, the matching f-score and parent u,
   * and v is pushed with its new f-score; otherwise nothing changes.
   */
  ghost predicate Relaxation(adj: seq<seq<Edge>>, target: int, u: int, k: nat,
                             g0: seq<Dist>, f0: seq<Dist>, parent0: seq<int>, heap0: seq<Entry>,
                             g: seq<Dist>, f: seq<Dist>, parent: seq<int>, heap: seq<Entry>)
    requires |g0| == |adj| && |f0| == |adj| && |parent0| == |adj|
    requires 0 <= u < |adj| && k < |adj[u]| && g0[u].Finite?
    requires 0 <= adj[u][k].vertex < |g0| && adj[u][k].weight >= 0
  {
    var v, d := adj[u][k].vertex, g0[u].value + adj[u][k].weight;
    if g0[v].Infinite? || d < g0[v].value then
      && g == g0[v := Finite(d)]
      && f == f0[v := Finite(d + Heuristic(v, target))]
      && parent == parent0[v := u]
      && multiset(heap) == multiset(heap0) + multiset{Entry(v, d + Heuristic(v, target))}
    else
      g == g0 && f == f0 && parent == parent0 && heap == heap0
  }

  /**
   * Relaxes u's k-th record (v, weight): when g[u] + weight < g[v], v gets the
   * new g- and f-score, u as its parent, and a new heap entry.
   */
  method RelaxRecord(adj: seq<seq<Edge>>, minHeap: MinHeap, target: int, u: int, k: nat,
                     g0: seq<Dist>, f0: seq<Dist>, parent0: seq<int>)
    returns (g: seq<Dist>, f: seq<Dist>, parent: seq<int>)
    requires minHeap.Valid()
    requires |g0| == |adj| && |f0| == |adj| && |parent0| == |adj|
    requires 0 <= u < |adj| && k < |adj[u]| && g0[u].Finite?
    requires 0 <= adj[u][k].vertex < |g0| && adj[u][k].weight >= 0
    modifies minHeap
    ensures minHeap.Valid()
    ensures Relaxation(adj, target, u, k, g0, f0, parent0, old(minHeap.heap), g, f, parent, minHeap.heap)
  {
    g, f, parent := g0, f0, parent0;
    var v := adj[u][k].vertex;
    var weight := adj[u][k].weight;
    if g[v].Infinite? || g[u].value + weight < g[v].value {
      var d := g[u].value + weight;
      g := g[v := Finite(d)];
      f := f[v := Finite(d + Heuristic(v, target))];
      parent := parent[v := u];
      minHeap.Insert(Entry(v, d + Heuristic(v, target)));
    }
  }

  /** The invariant survives one relaxation step, and the scores only improve. */
  lemma RelaxationKeepsInv(adj: seq<seq<Edge>>, src: int, target: int, u: int, k: nat,
                           g0: seq<Dist>, f0: seq<Dist>, parent0: seq<int>, tr0: Trace, heap0: seq<Entry>,
                           g: seq<Dist>, f: seq<Dist>, parent: seq<int>, heap: seq<Entry>)
    returns (tr: Trace)
    requires Inv(adj, src, target, g0, f0, parent0, tr0, heap0, u, k)
    requires 0 <= u < |adj| && u != target && g0[u].Finite? && k < |adj[u]|
    requires Relaxation(adj, target, u, k, g0, f0, parent0, heap0, g, f, parent, heap)
    ensures Inv(adj, src, target, g, f, parent, tr, heap, u, k + 1)
    ensures NoWorse(g, g0)
    ensures Better(g, g0) || heap == heap0
  {
    var v, w := adj[u][k].vertex, adj[u][k].weight;
    var d := g0[u].value + w;
    if g0[v].Infinite? || d < g0[v].value {
      assert Improves(adj, target, g0, heap0, heap, u, k, v, w, d);
      RelaxInv(adj, src, target, g0, f0, parent0, tr0, heap0, heap, u, k, v, w, d);
      tr := Record(tr0, u, v, w);
    } else {
      tr := tr0;
      SkipInv(adj, src, target, g0, f0, parent0, tr0, heap0, u, k);
    }
  }

  /** Record j of u's list leads to a reached vertex whose score is at most base plus the record's weight. */
  ghost predicate Bounded(adj: seq<seq<Edge>>, g: seq<Dist>, u: int, j: int, base: nat)
    requires 0 <= u < |adj| && 0 <= j < |adj[u]|
  {
    var e := adj[u][j];
    0 <= e.vertex < |g| && g[e.vertex].Finite? && g[e.vertex].value <= base + e.weight
  }

  /** Some record among the first k of u's list leads to x. */
  ghost predicate Targeted(adj: seq<seq<Edge>>, u: int, k: nat, x: int)
    requires 0 <= u < |adj| && k <= |adj[u]|
  {
    exists j :: 0 <= j < k && adj[u][j].vertex == x
  }

  /**
   * What relaxing the first k records of u's list did to (g0, f0, parent0):
   * g[u] is unchanged, each of those records leads to a vertex scored at
   * most g[u] plus its weight, and every other vertex is Kept.
   */
  ghost predicate RelaxedUpTo(adj: seq<seq<Edge>>, u: int, k: nat,
                              g0: seq<Dist>, f0: seq<Dist>, parent0: seq<int>,
                              g: seq<Dist>, f: seq<Dist>, parent: seq<int>)
    requires |g0| == |adj| && |f0| == |adj| && |parent0| == |adj|
    requires |g| == |adj| && |f| == |adj| && |parent| == |adj|
    requires 0 <= u < |adj| && k <= |adj[u]| && g0[u].Finite?
  {
    && g[u] == g0[u]
    && (forall j :: 0 <= j < k ==> Bounded(adj, g, u, j, g0[u].value))
    && (forall x :: 0 <= x < |g| ==> Kept(adj, u, k, g0, f0, parent0, g, f, parent, x))
  }

  /**
   * Vertex x's parent, if changed, is u; x keeps its g, f and parent when
   * none of the first k records of u's list leads to it; if its g changed,
   * its parent is u and one of those records set its g; if its g did not
   * change, neither did its parent.
   */
  ghost predicate Kept(adj: seq<seq<Edge>>, u: int, k: nat,
                       g0: seq<Dist>, f0: seq<Dist>, parent0: seq<int>,
                       g: seq<Dist>, f: seq<Dist>, parent: seq<int>, x: int)
    requires |g0| == |adj| && |f0| == |adj| && |parent0| == |adj|
    requires |g| == |adj| && |f| == |adj| && |parent| == |adj|
    requires 0 <= u < |adj| && k <= |adj[u]| && 0 <= x < |adj| && g0[u].Finite?
  {
    && (parent[x] != parent0[x] ==> parent[x] == u)
    && (!Targeted(adj, u, k, x) ==> g[x] == g0[x] && f[x] == f0[x] && parent[x] == parent0[x])
    && (g[x] != g0[x] ==> parent[x] == u && SetBy(adj, u, k, g0[u].value, g, x))
    && (g[x] == g0[x] ==> parent[x] == parent0[x])
  }

  /** One of the first k records of u's list, (x, w), gives x the score base + w. */
  ghost predicate SetBy(adj: seq<seq<Edge>>, u: int, k: nat, base: nat, g: seq<Dist>, x: int)
    requires 0 <= u < |adj| && k <= |adj[u]| && 0 <= x < |g|
  {
    exists j :: 0 <= j < k && adj[u][j].vertex == x && g[x].Finite? && g[x].value == base + adj[u][j].weight
  }

  /** One more relaxation extends what the first k relaxations of u's records did to the first k + 1. */
  lemma RelaxationProgress(adj: seq<seq<Edge>>, target: int, u: int, k: nat,
                           g0: seq<Dist>, f0: seq<Dist>, parent0: seq<int>,
                           gk: seq<Dist>, fk: seq<Dist>, parentk: seq<int>, heapk: seq<Entry>,
                           g: seq<Dist>, f: seq<Dist>, parent: seq<int>, heap: seq<Entry>)
    requires |g0| == |adj| && |f0| == |adj| && |parent0| == |adj|
    requires |gk| == |adj| && |fk| == |adj| && |parentk| == |adj|
    requires 0 <= u < |adj| && k < |adj[u]| && g0[u].Finite?
    requires 0 <= adj[u][k].vertex < |adj| && adj[u][k].weight >= 0
    requires RelaxedUpTo(adj, u, k, g0, f0, parent0, gk, fk, parentk) && NoWorse(gk, g0)
    requires Relaxation(adj, target, u, k, gk, fk, parentk, heapk, g, f, parent, heap)
    ensures |g| == |adj| && |f| == |adj| && |parent| == |adj|
    ensures RelaxedUpTo(adj, u, k + 1, g0, f0, parent0, g, f, parent)
  {
    var v := adj[u][k].vertex;
    var d := gk[u].value + adj[u][k].weight;
    var improves := gk[v].Infinite? || d < gk[v].value;
    assert NoWorse(g, gk);
    forall j | 0 <= j < k + 1
      ensures Bounded(adj, g, u, j, g0[u].value)
    {
      if j < k {
        assert Bounded(adj, gk, u, j, g0[u].value);
      }
    }
    var next := k + 1;
    forall x | 0 <= x < |g|
      ensures Kept(adj, u, next, g0, f0, parent0, g, f, parent, x)
    {
      assert Kept(adj, u, k, g0, f0, parent0, gk, fk, parentk, x);
      TargetedGrows(adj, u, k, x);
      if improves && x == v {
        assert adj[u][k].vertex == x && g[x].Finite? && g[x].value == g0[u].value + adj[u][k].weight;
        assert SetBy(adj, u, next, g0[u].value, g, x);
      } else if g[x] != g0[x] {
        var j :| 0 <= j < k && adj[u][j].vertex == x && gk[x].Finite? && gk[x].value == g0[u].value + adj[u][j].weight;
        assert SetBy(adj, u, next, g0[u].value, g, x);
      }
    }
  }

  /** The records among the first k + 1 lead to those the first k lead to, and to the vertex of record k. */
  lemma TargetedGrows(adj: seq<seq<Edge>>, u: int, k: nat, x: int)
    requires 0 <= u < |adj| && k < |adj[u]|
    ensures Targeted(adj, u, k + 1, x) <==> Targeted(adj, u, k, x) || adj[u][k].vertex == x
  {
    if Targeted(adj, u, k, x) {
      var j :| 0 <= j < k && adj[u][j].vertex == x;
      assert 0 <= j < k + 1;
    }
    if Targeted(adj, u, k + 1, x) && adj[u][k].vertex != x {
      var j :| 0 <= j < k + 1 && adj[u][j].vertex == x;
      assert j < k;
    }
  }

  /**
   * What relaxing the first k records of u's list did to the heap: nothing
   * was removed, every vertex whose g-score changed is waiting with its new
   * f-score, and every added entry is for a vertex one of those records
   * leads to.
   */
  ghost predicate HeapGrown(adj: seq<seq<Edge>>, target: int, u: int, k: nat, g0: seq<Dist>, heap0: seq<Entry>,
                            g: seq<Dist>, heap: seq<Entry>)
    requires |g0| == |adj| && |g| == |adj| && 0 <= u < |adj| && k <= |adj[u]|
  {
    && multiset(heap0) <= multiset(heap)
    && (forall x :: 0 <= x < |g| ==> Repushed(target, g0, g, heap, x))
    && (forall e :: e in multiset(heap) - multiset(heap0) ==> Targeted(adj, u, k, e.v))
  }

  /** If x's g-score changed from g0 to g, x is waiting in the heap with its new f-score. */
  ghost predicate Repushed(target: int, g0: seq<Dist>, g: seq<Dist>, heap: seq<Entry>, x: int)
    requires |g0| == |g| && 0 <= x < |g|
  {
    g[x] != g0[x] ==> g[x].Finite? && Entry(x, g[x].value + Heuristic(x, target)) in multiset(heap)
  }

  /** One more relaxation extends what the first k relaxations did to the heap to the first k + 1. */
  lemma HeapProgress(adj: seq<seq<Edge>>, target: int, u: int, k: nat,
                     g0: seq<Dist>, heap0: seq<Entry>,
                     gk: seq<Dist>, fk: seq<Dist>, parentk: seq<int>, heapk: seq<Entry>,
                     g: seq<Dist>, f: seq<Dist>, parent: seq<int>, heap: seq<Entry>)
    requires |g0| == |adj| && |gk| == |adj| && |fk| == |adj| && |parentk| == |adj|
    requires 0 <= u < |adj| && k < |adj[u]| && gk[u].Finite?
    requires 0 <= adj[u][k].vertex < |adj| && adj[u][k].weight >= 0
    requires HeapGrown(adj, target, u, k, g0, heap0, gk, heapk)
    requires Relaxation(adj, target, u, k, gk, fk, parentk, heapk, g, f, parent, heap)
    ensures |g| == |adj|
    ensures HeapGrown(adj, target, u, k + 1, g0, heap0, g, heap)
  {
    var v, d := adj[u][k].vertex, gk[u].value + adj[u][k].weight;
    var next := k + 1;
    if gk[v].Infinite? || d < gk[v].value {
      var entry := Entry(v, d + Heuristic(v, target));
      assert multiset(heap) == multiset(heapk) + multiset{entry};
      assert multiset(heap) - multiset(heap0) == (multiset(heapk) - multiset(heap0)) + multiset{entry};
      forall x | 0 <= x < |g|
        ensures Repushed(target, g0, g, heap, x)
      {
        assert Repushed(target, g0, gk, heapk, x);
      }
      forall e | e in multiset(heap) - multiset(heap0)
        ensures Targeted(adj, u, next, e.v)
      {
        TargetedGrows(adj, u, k, e.v);
      }
    } else {
      forall e | e in multiset(heap) - multiset(heap0)
        ensures Targeted(adj, u, next, e.v)
      {
        TargetedGrows(adj, u, k, e.v);
      }
    }
  }

  /** Spelled out for the whole list: what relaxing all of u's records did to (g0, f0, parent0). */
  lemma RelaxedAll(adj: seq<seq<Edge>>, u: int, g0: seq<Dist>, f0: seq<Dist>, parent0: seq<int>,
                   g: seq<Dist>, f: seq<Dist>, parent: seq<int>)
    requires |g0| == |adj| && |f0| == |adj| && |parent0| == |adj|
    requires |g| == |adj| && |f| == |adj| && |parent| == |adj|
    requires 0 <= u < |adj| && g0[u].Finite?
    requires RelaxedUpTo(adj, u, |adj[u]|, g0, f0, parent0, g, f, parent)
    ensures g[u] == g0[u]
    ensures forall j :: 0 <= j < |adj[u]| ==>
      var v := adj[u][j].vertex; 0 <= v < |g| && g[v].Finite? && g[v].value <= g0[u].value + adj[u][j].weight
    ensures forall x :: 0 <= x < |g| && parent[x] != parent0[x] ==> parent[x] == u
    ensures forall x :: 0 <= x < |g| && (forall j :: 0 <= j < |adj[u]| ==> adj[u][j].vertex != x) ==>
      g[x] == g0[x] && f[x] == f0[x] && parent[x] == parent0[x]
    ensures forall x :: 0 <= x < |g| && g[x] != g0[x] ==>
      && parent[x] == u
      && exists j :: 0 <= j < |adj[u]| && adj[u][j].vertex == x && g[x].Finite? && g[x].value == g0[u].value + adj[u][j].weight
    ensures forall x :: 0 <= x < |g| && g[x] == g0[x] ==> parent[x] == parent0[x]
  {
    forall x | 0 <= x < |g| && g[x] != g0[x]
      ensures parent[x] == u
      ensures exists j :: 0 <= j < |adj[u]| && adj[u][j].vertex == x && g[x].Finite? && g[x].value == g0[u].value + adj[u][j].weight
    {
      assert Kept(adj, u, |adj[u]|, g0, f0, parent0, g, f, parent, x);
      assert SetBy(adj, u, |adj[u]|, g0[u].value, g, x);
    }
    forall x | 0 <= x < |g| && g[x] == g0[x]
      ensures parent[x] == parent0[x]
    {
      assert Kept(adj, u, |adj[u]|, g0, f0, parent0, g, f, parent, x);
    }
    forall j | 0 <= j < |adj[u]|
      ensures var v := adj[u][j].vertex; 0 <= v < |g| && g[v].Finite? && g[v].value <= g0[u].value + adj[u][j].weight
    {
      assert Bounded(adj, g, u, j, g0[u].value);
    }
    forall x | 0 <= x < |g| && parent[x] != parent0[x]
      ensures parent[x] == u
    {
      assert Kept(adj, u, |adj[u]|, g0, f0, parent0, g, f, parent, x);
    }
    forall x | 0 <= x < |g| && (forall j :: 0 <= j < |adj[u]| ==> adj[u][j].vertex != x)
      ensures g[x] == g0[x] && f[x] == f0[x] && parent[x] == parent0[x]
    {
      assert Kept(adj, u, |adj[u]|, g0, f0, parent0, g, f, parent, x);
      assert !Targeted(adj, u, |adj[u]|, x);
    }
  }

  /** Relaxes every record of u's list in order. */
  method RelaxNeighbours(adj: seq<seq<Edge>>, minHeap: MinHeap, src: int, target: int, u: int,
                         g0: seq<Dist>, f0: seq<Dist>, parent0: seq<int>, ghost tr0: Trace)
    returns (g: seq<Dist>, f: seq<Dist>, parent: seq<int>, ghost tr: Trace)
    requires minHeap.Valid()
    requires Inv(adj, src, target, g0, f0, parent0, tr0, minHeap.heap, u, 0)
    requires 0 <= u < |adj| && u != target && g0[u].Finite?
    modifies minHeap
    ensures minHeap.Valid()
    ensures Inv(adj, src, target, g, f, parent, tr, minHeap.heap, -1, 0)
    ensures NoWorse(g, g0)
    ensures Better(g, g0) || |minHeap.heap| == old(|minHeap.heap|)
    ensures RelaxedUpTo(adj, u, |adj[u]|, g0, f0, parent0, g, f, parent)
    ensures HeapGrown(adj, target, u, |adj[u]|, g0, old(minHeap.heap), g, minHeap.heap)
  {
    g, f, parent, tr := g0, f0, parent0, tr0;
    var k := 0;
    while k < |adj[u]|
      invariant 0 <= k <= |adj[u]|
      invariant minHeap.Valid()
      invariant Inv(adj, src, target, g, f, parent, tr, minHeap.heap, u, k)
      invariant NoWorse(g, g0)
      invariant Better(g, g0) || |minHeap.heap| == old(|minHeap.heap|)
      invariant RelaxedUpTo(adj, u, k, g0, f0, parent0, g, f, parent)
      invariant HeapGrown(adj, target, u, k, g0, old(minHeap.heap), g, minHeap.heap)
    {
      ghost var gk := g;
      ghost var fk, parentk, trk, heapk := f, parent, tr, minHeap.heap;
      assert adj[u][k] in adj[u];
      g, f, parent := RelaxRecord(adj, minHeap, target, u, k, g, f, parent);
      tr := RelaxationKeepsInv(adj, src, target, u, k, gk, fk, parentk, trk, heapk, g, f, parent, minHeap.heap);
      RelaxationProgress(adj, target, u, k, g0, f0, parent0, gk, fk, parentk, heapk, g, f, parent, minHeap.heap);
      HeapProgress(adj, target, u, k, g0, old(minHeap.heap), gk, fk, parentk, heapk, g, f, parent, minHeap.heap);
      BetterTrans(g, gk, g0);
      k := k + 1;
    }
    FinishInv(adj, src, target, g, f, parent, tr, minHeap.heap, u);
  }

  /**
   * A* from src towards target. Pops the entry with the smallest f-score
   * (ignoring the score it was pushed with); stops when the target is
   * popped, reporting g[target] and the parent chain; otherwise relaxes the
   * popped vertex's records. Weights must be non-negative; src is used as an
   * index unchecked, target is never used as an index.
   */
  method AStar(graph: Graph, src: int, target: int)
    returns (result: Outcome, ghost pathCosts: seq<int>, ghost walk: seq<int>, ghost walkCosts: seq<int>)
    requires graph.Valid() && NonNegative(graph.adj)
    requires 0 <= src < graph.numNodes
    ensures result.Found? ==>
      && IsWalk(graph.adj, result.path, pathCosts)
      && result.path[0] == src && result.path[|result.path| - 1] == target
      && Sum(pathCosts) <= result.distance
    ensures result.Found? ==>
      && IsWalk(graph.adj, walk, walkCosts)
      && walk[0] == src && walk[|walk| - 1] == target
      && Sum(walkCosts) == result.distance
    ensures result.NotFound? ==> !Reachable(graph.adj, src, target)
    ensures src == target ==> result == Found(0, [src])
  {
    var numNodes := graph.numNodes;
    var g := seq(numNodes, _ => Infinite);
    var f := seq(numNodes, _ => Infinite);
    var parent := seq(numNodes, _ => -1);
    var minHeap := new MinHeap();

    g := g[src := Finite(0)];
    f := f[src := Finite(Heuristic(src, target))];
    minHeap.Insert(Entry(src, f[src].value));
    ghost var tr := Trace(seq(numNodes, _ => 0), 1, seq(numNodes, _ => 0), seq(numNodes, _ => [src]), seq(numNodes, _ => []));
    InitInv(graph.adj, src, target, g, f, parent, tr, minHeap.heap);
    assert minHeap.heap == [Entry(src, Heuristic(src, target))];

    var empty := minHeap.IsEmpty();
    while !empty
      invariant minHeap.Valid() && fresh(minHeap)
      invariant empty <==> minHeap.heap == []
      invariant Inv(graph.adj, src, target, g, f, parent, tr, minHeap.heap, -1, 0)
      invariant src == target ==> minHeap.heap == [Entry(src, Heuristic(src, target))]
      decreases Unreached(g), FiniteSum(g), |minHeap.heap|
    {
      ghost var heapBefore := minHeap.heap;
      var top := minHeap.ExtractMin();
      var u := top.v;

      if u == target {
        assert top in multiset(heapBefore);
        assert g[u].Finite?;
        FoundPath(graph.adj, src, target, g, f, parent, tr, heapBefore, -1, 0);
        var path := PathTo(parent, u, Keys(g), tr.stamp);
        result := Found(g[u].value, path);
        pathCosts := ChainCosts(path, tr.via);
        assert Witness(graph.adj, src, g, tr, u);
        walk, walkCosts := tr.walks[u], tr.costs[u];
        return;
      }

      PopInv(graph.adj, src, target, g, f, parent, tr, heapBefore, minHeap.heap, top);
      ghost var gBefore := g;
      g, f, parent, tr := RelaxNeighbours(graph.adj, minHeap, src, target, u, g, f, parent, tr);
      ImprovementDecreases(g, gBefore);
      empty := minHeap.IsEmpty();
    }

    ExhaustedMeansUnreachable(graph.adj, src, target, g, f, parent, tr);
    result := NotFound;
    pathCosts, walk, walkCosts := [], [], [];
  }
}
