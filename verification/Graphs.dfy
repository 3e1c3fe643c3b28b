/** Dependency graphs: who depends on whom, cycles, and orders that respect the
    dependencies. */
module Graphs {
  import opened Text

  /** Every node with the nodes it depends on, repeats allowed. */
  type Graph = map<string, seq<string>>

  predicate Edge(g: Graph, n: string, d: string)
  {
    n in g && d in g[n]
  }

  /** Dependencies are nodes themselves. */
  ghost predicate Closed(g: Graph)
  {
    forall n, d :: Edge(g, n, d) ==> d in g
  }

  /** A walk along dependencies that ends where it began. */
  ghost predicate IsCycle(g: Graph, c: seq<string>)
  {
    |c| >= 2 && c[0] == c[|c| - 1] && IsWalk(g, c)
  }

  ghost predicate IsWalk(g: Graph, w: seq<string>)
  {
    forall i :: 0 <= i < |w| - 1 ==> Edge(g, w[i], w[i + 1])
  }

  ghost predicate Cyclic(g: Graph)
  {
    exists c :: IsCycle(g, c)
  }

  /** Each node once, after everything it depends on. */
  ghost predicate Ordered(g: Graph, order: seq<string>)
  {
    && (forall i :: 0 <= i < |order| ==> order[i] in g)
    && Distinct(order)
    && (forall i, d :: 0 <= i < |order| && d in g[order[i]] ==> d in order[..i])
  }

  /** An order of all the nodes. */
  ghost predicate StartOrder(g: Graph, order: seq<string>)
  {
    Ordered(g, order) && forall n :: n in g ==> n in order
  }

  /** A node whose dependencies are all there can come next. */
  lemma OrderedSnoc(g: Graph, order: seq<string>, node: string)
    requires Ordered(g, order) && node in g && node !in order
    requires forall d :: d in g[node] ==> d in order
    ensures Ordered(g, order + [node])
  {
    var more := order + [node];
    forall i, d | 0 <= i < |more| && d in g[more[i]] ensures d in more[..i] {
      if i < |order| {
        assert d in order[..i] && more[..i] == order[..i];
      } else {
        assert more[..i] == order;
      }
    }
  }

  lemma {:induction false} WalksGoBack(g: Graph, order: seq<string>, w: seq<string>, i: nat, j: nat)
    requires Ordered(g, order) && IsWalk(g, w) && |w| >= 2
    requires i < |order| && w[0] == order[i] && j < |order| && w[|w| - 1] == order[j]
    ensures j < i
    decreases |w|
  {
    assert Edge(g, w[0], w[1]);
    assert w[1] in order[..i];
    var k :| 0 <= k < i && order[..i][k] == w[1];
    if |w| == 2 {
      assert order[k] == order[j];
    } else {
      var rest := w[1..];
      assert IsWalk(g, rest) by {
        forall m | 0 <= m < |rest| - 1 ensures Edge(g, rest[m], rest[m + 1]) { assert Edge(g, w[m + 1], w[m + 2]); }
      }
      WalksGoBack(g, order, rest, k, j);
    }
  }

  /** A graph that can be ordered has no cycle. */
  lemma OrderedIsAcyclic(g: Graph, order: seq<string>)
    requires StartOrder(g, order)
    ensures !Cyclic(g)
  {
    forall c ensures !IsCycle(g, c) {
      if |c| >= 2 && c[0] == c[|c| - 1] && IsWalk(g, c) {
        assert Edge(g, c[0], c[1]);
        var i :| 0 <= i < |order| && order[i] == c[0];
        WalksGoBack(g, order, c, i, i);
      }
    }
  }

  ghost predicate DependsInto(g: Graph, n: string, s: set<string>)
  {
    exists d :: d in s && Edge(g, n, d)
  }

  /** Every one of the nodes waits for another of them. */
  ghost predicate Stuck(g: Graph, s: set<string>)
  {
    forall n {:trigger DependsInto(g, n, s)} :: n in s ==> DependsInto(g, n, s)
  }

  /** Nodes each of which depends on another of them contain a cycle. */
  lemma StuckNodesHaveACycle(g: Graph, stuck: set<string>)
    requires stuck != {} && Stuck(g, stuck)
    ensures Cyclic(g)
  {
    var n :| n in stuck;
    GrowWalk(g, stuck, [n]);
  }

  lemma {:induction false} GrowWalk(g: Graph, stuck: set<string>, w: seq<string>)
    requires Stuck(g, stuck)
    requires w != [] && IsWalk(g, w) && (forall i :: 0 <= i < |w| ==> w[i] in stuck)
    requires Distinct(w)
    ensures Cyclic(g)
    decreases |stuck| - |w|
  {
    var last := w[|w| - 1];
    assert DependsInto(g, last, stuck);
    var d :| d in stuck && Edge(g, last, d);
    var longer := w + [d];
    assert IsWalk(g, longer);
    if k :| 0 <= k < |w| && w[k] == d {
      var c := longer[k..];
      assert c[0] == d == c[|c| - 1];
      assert IsWalk(g, c) by {
        forall m | 0 <= m < |c| - 1 ensures Edge(g, c[m], c[m + 1]) {
          assert Edge(g, longer[k + m], longer[k + m + 1]);
        }
      }
      assert IsCycle(g, c);
    } else {
      DistinctFit(longer, stuck);
      GrowWalk(g, stuck, longer);
    }
  }

  lemma {:induction false} DistinctFit(w: seq<string>, s: set<string>)
    requires forall i :: 0 <= i < |w| ==> w[i] in s
    requires Distinct(w)
    ensures |w| <= |s|
  {
    if w != [] {
      var front, last := w[..|w| - 1], w[|w| - 1];
      assert forall i :: 0 <= i < |front| ==> front[i] != last;
      DistinctFit(front, s - {last});
    }
  }

  /** `x` depends on `y`, directly or through others. */
  ghost predicate Depends(g: Graph, x: string, y: string)
  {
    exists w :: |w| >= 2 && IsWalk(g, w) && w[0] == x && w[|w| - 1] == y
  }

  /** In a start order everything comes after all it depends on, however indirectly. */
  lemma DependenciesStartFirst(g: Graph, order: seq<string>, i: nat, j: nat)
    requires Ordered(g, order) && i < |order| && j < |order| && Depends(g, order[i], order[j])
    ensures j < i
  {
    var w :| |w| >= 2 && IsWalk(g, w) && w[0] == order[i] && w[|w| - 1] == order[j];
    WalksGoBack(g, order, w, i, j);
  }

  /** Every dependency has a lower rank than the node that needs it. */
  ghost predicate Ranked(g: Graph, rank: map<string, nat>)
  {
    forall n, d :: Edge(g, n, d) ==> n in rank && d in rank && rank[d] < rank[n]
  }

  lemma {:induction false} WalksGoDown(g: Graph, rank: map<string, nat>, w: seq<string>)
    requires Ranked(g, rank) && IsWalk(g, w) && |w| >= 2
    ensures w[0] in rank && w[|w| - 1] in rank && rank[w[|w| - 1]] < rank[w[0]]
    decreases |w|
  {
    assert Edge(g, w[0], w[1]);
    if |w| > 2 {
      var rest := w[1..];
      assert IsWalk(g, rest) by {
        forall m | 0 <= m < |rest| - 1 ensures Edge(g, rest[m], rest[m + 1]) { assert Edge(g, w[m + 1], w[m + 2]); }
      }
      WalksGoDown(g, rank, rest);
    }
  }

  lemma RankedIsAcyclic(g: Graph, rank: map<string, nat>)
    requires Ranked(g, rank)
    ensures !Cyclic(g)
  {
    forall c ensures !IsCycle(g, c) {
      if |c| >= 2 && IsWalk(g, c) { WalksGoDown(g, rank, c); }
    }
  }

  /** An edge to something that is no node, if there is one, searched for in
      whatever order the nodes are walked. */
  method FindUnknown(g: Graph) returns (r: Option<(string, string)>)
    ensures r.None? <==> Closed(g)
    ensures r.Some? ==> Edge(g, r.value.0, r.value.1) && r.value.1 !in g
  {
    var todo := g.Keys;
    while todo != {}
      invariant todo <= g.Keys
      invariant forall n, d :: Edge(g, n, d) && n !in todo ==> d in g
      decreases |todo|
    {
      var n :| n in todo;
      for i := 0 to |g[n]|
        invariant forall d :: d in g[n][..i] ==> d in g
      {
        var d := g[n][i];
        if d !in g {
          assert Edge(g, n, d);
          return Some((n, d));
        }
        assert g[n][..i + 1] == g[n][..i] + [d];
      }
      assert g[n][..|g[n]|] == g[n];
      todo := todo - {n};
    }
    r := None;
  }
}
