/** Kahn's algorithm as the dependency graph runs it, repeated dependencies
    included. */
module KahnSort {
  import opened Text
  import opened Graphs

  /** How many entries are not done yet. */
  function Waiting(s: seq<string>, done: set<string>): nat
  {
    if s == [] then 0
    else Waiting(s[..|s| - 1], done) + if s[|s| - 1] in done then 0 else 1
  }

  lemma CountSnoc(s: seq<string>, x: string)
    requires s != []
    ensures Count(s, x) == Count(s[..|s| - 1], x) + if s[|s| - 1] == x then 1 else 0
  {
    assert s == s[..|s| - 1] + [s[|s| - 1]];
  }

  lemma {:induction false} WaitingZero(s: seq<string>, done: set<string>)
    ensures Waiting(s, done) == 0 <==> forall i :: 0 <= i < |s| ==> s[i] in done
    ensures Waiting(s, {}) == |s|
  {
    if s != [] {
      WaitingZero(s[..|s| - 1], done);
    }
  }

  /** One more node done takes away its occurrences. */
  lemma {:induction false} WaitingAfter(s: seq<string>, done: set<string>, x: string)
    requires x !in done
    ensures Waiting(s, done) == Waiting(s, done + {x}) + Count(s, x)
  {
    if s != [] {
      WaitingAfter(s[..|s| - 1], done, x);
      CountSnoc(s, x);
    }
  }

  /** `rev` lists, for every node, the nodes that depend on it, as often as they do. */
  ghost predicate Mirrors(g: Graph, rev: Graph)
  {
    && rev.Keys == g.Keys
    && forall m, n {:trigger Mirrored(g, rev, m, n)} :: m in g && n in g ==> Mirrored(g, rev, m, n)
  }

  ghost predicate Mirrored(g: Graph, rev: Graph, m: string, n: string)
  {
    m in rev && n in g && Count(rev[m], n) == Count(g[n], m)
  }

  ghost predicate Within(g: Graph, rev: Graph)
  {
    forall m, n :: m in rev && n in rev[m] ==> n in g
  }

  type Degrees = map<string, nat>

  /** Degrees count what is missing, less what has just been subtracted. */
  ghost predicate DegreesAre(g: Graph, deg: Degrees, done: set<string>, taken: seq<string>)
  {
    && (forall n :: n in deg <==> n in g)
    && forall n :: n in g ==> deg[n] + Count(taken, n) == Waiting(g[n], done)
  }

  /** The queue holds the nodes of degree zero that are not in the result. */
  ghost predicate QueueIs(g: Graph, deg: Degrees, queue: seq<string>, result: seq<string>)
  {
    && (forall n :: n in g && n in deg ==> (deg[n] == 0 <==> n in queue || n in result))
    && (forall i :: 0 <= i < |queue| ==> queue[i] in g && queue[i] !in result)
    && Distinct(queue)
  }

  /** Start: every degree is the number of dependencies. */
  method Init(g: Graph) returns (deg: Degrees, queue: seq<string>)
    ensures DegreesAre(g, deg, {}, []) && QueueIs(g, deg, queue, [])
  {
    deg, queue := map[], [];
    var todo := g.Keys;
    while todo != {}
      invariant todo <= g.Keys
      invariant forall n :: n in deg <==> n in g && n !in todo
      invariant forall n :: n in deg ==> deg[n] == |g[n]|
      invariant forall n :: n in queue <==> n in deg && deg[n] == 0
      invariant Distinct(queue)
      decreases |todo|
    {
      var n :| n in todo;
      deg := deg[n := |g[n]|];
      if |g[n]| == 0 { queue := queue + [n]; }
      todo := todo - {n};
    }
    forall n | n in g ensures Waiting(g[n], {}) == |g[n]| { WaitingZero(g[n], {}); }
  }

  /** Subtract one dependent of the node just taken. */
  method Decrement(g: Graph, deg: Degrees, queue: seq<string>, dependent: string,
                   ghost done: set<string>, ghost taken: seq<string>, ghost result: seq<string>)
    returns (deg': Degrees, queue': seq<string>)
    requires DegreesAre(g, deg, done, taken) && QueueIs(g, deg, queue, result)
    requires dependent in g && Count(taken, dependent) < Waiting(g[dependent], done)
    ensures DegreesAre(g, deg', done, taken + [dependent]) && QueueIs(g, deg', queue', result)
  {
    assert deg[dependent] >= 1;
    deg' := deg[dependent := deg[dependent] - 1];
    queue' := queue;
    if deg'[dependent] == 0 { queue' := queue' + [dependent]; }
    forall n | n in g ensures deg'[n] + Count(taken + [dependent], n) == Waiting(g[n], done) {
      CountSnoc(taken + [dependent], n);
      assert (taken + [dependent])[..|taken|] == taken;
    }
  }

  /** A dependent not yet subtracted still waits for the node. */
  lemma EnoughLeft(g: Graph, rev: Graph, node: string, taken: seq<string>, done: set<string>)
    requires Mirrors(g, rev) && Within(g, rev) && node in g && node !in done && taken < rev[node]
    ensures rev[node][|taken|] in g
    ensures Count(taken, rev[node][|taken|]) < Waiting(g[rev[node][|taken|]], done)
    ensures taken + [rev[node][|taken|]] <= rev[node]
  {
    var s, n := rev[node], rev[node][|taken|];
    assert n in s;
    WaitingAfter(g[n], done, node);
    assert Mirrored(g, rev, node, n);
    assert s == taken + [n] + s[|taken| + 1..];
  }

  /** Take a node of degree zero and subtract all its dependents. */
  method TakeNode(g: Graph, rev: Graph, deg: Degrees, queue: seq<string>, node: string,
                  ghost done: set<string>, ghost result: seq<string>)
    returns (deg': Degrees, queue': seq<string>)
    requires Mirrors(g, rev) && Within(g, rev) && node in g && node !in done
    requires DegreesAre(g, deg, done, []) && QueueIs(g, deg, queue, result)
    ensures DegreesAre(g, deg', done + {node}, []) && QueueIs(g, deg', queue', result)
  {
    deg', queue' := deg, queue;
    var dependents := rev[node];
    ghost var taken := [];
    for j := 0 to |dependents|
      invariant |taken| == j && taken <= dependents
      invariant DegreesAre(g, deg', done, taken) && QueueIs(g, deg', queue', result)
    {
      EnoughLeft(g, rev, node, taken, done);
      deg', queue' := Decrement(g, deg', queue', dependents[j], done, taken, result);
      taken := taken + [dependents[j]];
    }
    assert taken == dependents;
    AllTaken(g, rev, deg', done, node);
  }

  lemma AllTaken(g: Graph, rev: Graph, deg: Degrees, done: set<string>, node: string)
    requires Mirrors(g, rev) && node in g && node !in done
    requires DegreesAre(g, deg, done, rev[node])
    ensures DegreesAre(g, deg, done + {node}, [])
  {
    forall n | n in g ensures deg[n] + Count([], n) == Waiting(g[n], done + {node}) {
      WaitingAfter(g[n], done, node);
      assert Mirrored(g, rev, node, n);
    }
  }

  lemma TakeKeepsOrder(g: Graph, deg: Degrees, queue: seq<string>, result: seq<string>)
    requires Ordered(g, result) && DegreesAre(g, deg, Elements(result), []) && QueueIs(g, deg, queue, result)
    requires queue != []
    ensures Ordered(g, result + [queue[0]])
    ensures QueueIs(g, deg, queue[1..], result + [queue[0]])
  {
    var node := queue[0];
    assert queue[0] in queue && deg[node] == 0;
    WaitingZero(g[node], Elements(result));
    OrderedSnoc(g, result, node);
    assert forall n :: n in queue <==> n == node || n in queue[1..];
  }

  ghost predicate InProgress(g: Graph, deg: Degrees, queue: seq<string>, result: seq<string>)
  {
    && Ordered(g, result)
    && DegreesAre(g, deg, Elements(result), [])
    && QueueIs(g, deg, queue, result)
  }

  /** Move the front of the queue to the result. */
  method Step(g: Graph, rev: Graph, deg: Degrees, queue: seq<string>, ghost result: seq<string>)
    returns (deg': Degrees, queue': seq<string>)
    requires Mirrors(g, rev) && Within(g, rev) && InProgress(g, deg, queue, result) && queue != []
    ensures InProgress(g, deg', queue', result + [queue[0]])
    ensures |result| < |g|
  {
    TakeKeepsOrder(g, deg, queue, result);
    OrderFits(g, result + [queue[0]]);
    deg', queue' := TakeNode(g, rev, deg, queue[1..], queue[0], Elements(result), result + [queue[0]]);
    assert Elements(result + [queue[0]]) == Elements(result) + {queue[0]};
  }

  /** The order, or nothing when the nodes left over wait for each other. */
  method TopologicalSort(g: Graph, rev: Graph) returns (r: Option<seq<string>>)
    requires Closed(g) && Mirrors(g, rev) && Within(g, rev)
    ensures r.Some? ==> StartOrder(g, r.value)
    ensures r.Some? <==> !Cyclic(g)
  {
    var deg, queue := Init(g);
    var result: seq<string> := [];
    assert Elements(result) == {};
    while queue != []
      invariant InProgress(g, deg, queue, result)
      decreases |g| - |result|
    {
      var node := queue[0];
      deg, queue := Step(g, rev, deg, queue, result);
      result := result + [node];
    }
    Outcome(g, deg, result);
    r := if |result| != |g| then None else Some(result);
  }

  lemma OrderFits(g: Graph, result: seq<string>)
    requires Ordered(g, result)
    ensures |result| <= |g|
    ensures |result| == |g| ==> forall n :: n in g ==> n in result
  {
    DistinctFit(result, g.Keys);
    if n :| n in g && n !in result {
      DistinctFit(result, g.Keys - {n});
    }
  }

  /** With an empty queue, what is not in the result is stuck. */
  lemma Outcome(g: Graph, deg: Degrees, result: seq<string>)
    requires Closed(g) && Ordered(g, result)
    requires DegreesAre(g, deg, Elements(result), []) && QueueIs(g, deg, [], result)
    ensures |result| == |g| ==> StartOrder(g, result) && !Cyclic(g)
    ensures |result| != |g| ==> Cyclic(g)
  {
    OrderFits(g, result);
    if |result| == |g| {
      OrderedIsAcyclic(g, result);
    } else {
      var stuck := g.Keys - Elements(result);
      if stuck == {} {
        AllListed(g, result);
      }
      forall n | n in stuck ensures DependsInto(g, n, stuck) {
        WaitingZero(g[n], Elements(result));
        assert deg[n] != 0;
        var i :| 0 <= i < |g[n]| && g[n][i] !in Elements(result);
        assert Edge(g, n, g[n][i]);
      }
      StuckNodesHaveACycle(g, stuck);
    }
  }

  lemma AllListed(g: Graph, result: seq<string>)
    requires Ordered(g, result) && g.Keys - Elements(result) == {}
    ensures |result| == |g|
  {
    assert Elements(result) == g.Keys by {
      forall n | n in g ensures n in Elements(result) { assert n !in g.Keys - Elements(result); }
    }
    DistinctLength(result);
  }
}

/** The depth-first search for a cycle, with its three colours and the parent
    links from which a found cycle is read back. */
module CycleSearch {
  import opened Text
  import opened Graphs

  datatype Color = White | Gray | Black

  type Colors = map<string, Color>
  type Parents = map<string, Option<string>>

  function Reverse(s: seq<string>): seq<string>
  {
    if s == [] then [] else Reverse(s[1..]) + [s[0]]
  }

  lemma {:induction false} ReverseSnoc(s: seq<string>, x: string)
    ensures Reverse(s + [x]) == [x] + Reverse(s)
  {
    if s == [] {
      assert s + [x] == [x];
    } else {
      ReverseSnoc(s[1..], x);
      assert (s + [x])[1..] == s[1..] + [x];
    }
  }

  lemma {:induction false} ReverseTwice(s: seq<string>)
    ensures Reverse(Reverse(s)) == s
  {
    if s != [] {
      ReverseTwice(s[1..]);
      ReverseSnoc(Reverse(s[1..]), s[0]);
    }
  }

  /** A cycle that visits no node twice. */
  ghost predicate SimpleCycle(g: Graph, c: seq<string>)
  {
    IsCycle(g, c) && forall i, j :: 0 <= i < j < |c| - 1 ==> c[i] != c[j]
  }

  /** The parent links lead back along the path. */
  ghost predicate Linked(g: Graph, parent: Parents, path: seq<string>)
  {
    && IsWalk(g, path)
    && (forall i :: 0 < i < |path| ==> path[i] in parent && parent[path[i]] == Some(path[i - 1]))
    && Distinct(path)
  }

  /** The gray nodes are the path; the black ones can be started in `order`. */
  ghost predicate Painted(g: Graph, color: Colors, path: seq<string>, order: seq<string>)
  {
    && (forall n :: n in color <==> n in g)
    && (forall n :: n in color ==> (color[n] == Gray <==> n in path))
    && (forall n :: n in path ==> n in g)
    && (forall n :: n in color ==> (color[n] == Black <==> n in order))
    && Ordered(g, order)
  }

  ghost function Whites(color: Colors): set<string>
  {
    set n | n in color && color[n] == White
  }

  /** Walk the parent links from `node` back to `dep`. */
  method ReadCycle(parent: Parents, node: string, dep: string, ghost g: Graph, ghost path: seq<string>)
    returns (cycle: seq<string>)
    requires Linked(g, parent, path) && path != [] && path[|path| - 1] == node
    requires dep in path && Edge(g, node, dep)
    ensures SimpleCycle(g, cycle)
  {
    ghost var k :| 0 <= k < |path| && path[k] == dep;
    ghost var i := |path| - 1;
    ghost var tail := [dep];
    cycle := [dep];
    ReverseCons(dep, []);
    var current := node;
    while current != dep
      invariant k <= i < |path| && current == path[i]
      invariant tail == path[i + 1..] + [dep]
      invariant cycle == Reverse(tail)
      decreases i
    {
      ReverseCons(current, tail);
      TailFrom(path, i, dep);
      cycle := cycle + [current];
      tail := [current] + tail;
      assert k < i && parent[path[i]] == Some(path[i - 1]);
      if current in parent && parent[current].Some? {
        current := parent[current].value;
      } else {
        break;
      }
      i := i - 1;
    }
    assert i == k;
    ReverseCons(dep, tail);
    TailFrom(path, k, dep);
    cycle := cycle + [dep];
    ReverseTwice([dep] + tail);
    ClosedPath(g, path, k, dep);
    cycle := Reverse(cycle);
  }

  lemma ReverseCons(x: string, s: seq<string>)
    ensures Reverse([x] + s) == Reverse(s) + [x]
  {
    assert ([x] + s)[1..] == s;
  }

  lemma TailFrom(path: seq<string>, i: nat, dep: string)
    requires i < |path|
    ensures [path[i]] + (path[i + 1..] + [dep]) == path[i..] + [dep]
  {
  }

  lemma ClosedPath(g: Graph, path: seq<string>, k: nat, dep: string)
    requires IsWalk(g, path) && k < |path| && path[k] == dep && Edge(g, path[|path| - 1], dep)
    requires Distinct(path)
    ensures SimpleCycle(g, path[k..] + [dep])
  {
    var c := path[k..] + [dep];
    forall m | 0 <= m < |c| - 1 ensures Edge(g, c[m], c[m + 1]) {
      if m < |c| - 2 { assert Edge(g, path[k + m], path[k + m + 1]); }
    }
  }

  /** Enter a white node: it turns gray at the end of the path. */
  lemma Enter(g: Graph, color: Colors, parent: Parents, path: seq<string>, order: seq<string>, node: string)
    requires Painted(g, color, path, order) && Linked(g, parent, path)
    requires node in color && color[node] == White
    requires path != [] ==> Edge(g, path[|path| - 1], node) && node in parent && parent[node] == Some(path[|path| - 1])
    ensures Painted(g, color[node := Gray], path + [node], order) && Linked(g, parent, path + [node])
    ensures Whites(color[node := Gray]) == Whites(color) - {node}
    ensures |Whites(color[node := Gray])| < |Whites(color)|
  {
    assert node in Whites(color);
    assert Whites(color[node := Gray]) == Whites(color) - {node};
    var longer := path + [node];
    forall i | 0 <= i < |longer| - 1 ensures Edge(g, longer[i], longer[i + 1]) {
      if i < |path| - 1 { assert Edge(g, path[i], path[i + 1]); }
    }
  }

  /** Leave a gray node whose dependencies are black: it turns black, next in order. */
  lemma Leave(g: Graph, color: Colors, path: seq<string>, order: seq<string>, node: string)
    requires Painted(g, color, path + [node], order) && node !in path
    requires forall d :: d in g[node] ==> d in color && color[d] == Black
    ensures Painted(g, color[node := Black], path, order + [node])
    ensures Whites(color[node := Black]) == Whites(color)
  {
    assert node in path + [node];
    assert color[node] == Gray;
    assert Whites(color[node := Black]) == Whites(color);
    OrderedSnoc(g, order, node);
    forall n | n in color ensures n in path + [node] <==> n in path || n == node {}
  }

  lemma NewParent(g: Graph, parent: Parents, path: seq<string>, dep: string, node: string)
    requires Linked(g, parent, path) && dep !in path
    ensures Linked(g, parent[dep := Some(node)], path)
  {
    forall i | 0 < i < |path| ensures path[i] in parent && parent[dep := Some(node)][path[i]] == Some(path[i - 1]) {
      assert path[i] in path;
    }
  }

  /** What a search that found nothing leaves behind. */
  ghost predicate Advanced(color: Colors, color': Colors)
  {
    && Whites(color') <= Whites(color)
    && forall n :: n in color && color[n] == Black ==> n in color' && color'[n] == Black
  }

  ghost predicate AllBlack(color: Colors, deps: seq<string>, n: nat)
    requires n <= |deps|
  {
    forall j :: 0 <= j < n ==> deps[j] in color && color[deps[j]] == Black
  }

  lemma OneMoreBlack(color: Colors, deps: seq<string>, n: nat)
    requires n < |deps| && AllBlack(color, deps, n) && deps[n] in color && color[deps[n]] == Black
    ensures AllBlack(color, deps, n + 1)
  {
  }

  lemma AdvancedTwice(a: Colors, b: Colors, c: Colors, deps: seq<string>, n: nat)
    requires Advanced(a, b) && Advanced(b, c) && n <= |deps| && AllBlack(b, deps, n)
    ensures Advanced(a, c) && AllBlack(c, deps, n)
  {
  }

  /** Search from a white node: a cycle, or the node and all it needs turn black. */
  method Search(g: Graph, node: string, color: Colors, parent: Parents,
                ghost path: seq<string>, ghost order: seq<string>)
    returns (cycle: Option<seq<string>>, color': Colors, parent': Parents, ghost order': seq<string>)
    requires Closed(g) && Painted(g, color, path, order) && Linked(g, parent, path)
    requires node in color && color[node] == White
    requires path != [] ==> Edge(g, path[|path| - 1], node) && node in parent && parent[node] == Some(path[|path| - 1])
    ensures cycle.Some? ==> SimpleCycle(g, cycle.value)
    ensures cycle.None? ==> Painted(g, color', path, order') && Linked(g, parent', path)
    ensures cycle.None? ==> Advanced(color, color') && node in color' && color'[node] == Black
    decreases |Whites(color)|
  {
    Enter(g, color, parent, path, order, node);
    color', parent', order' := color[node := Gray], parent, order;
    ghost var p := path + [node];
    ghost var gray := color';
    var deps := g[node];
    for i := 0 to |deps|
      invariant Painted(g, color', p, order') && Linked(g, parent', p) && Advanced(gray, color')
      invariant AllBlack(color', deps, i)
    {
      var dep := deps[i];
      assert Edge(g, node, dep);
      if color'[dep] == White {
        NewParent(g, parent', p, dep, node);
        FewerWhites(color, gray, color');
        parent' := parent'[dep := Some(node)];
        ghost var before := color';
        cycle, color', parent', order' := Search(g, dep, color', parent', p, order');
        if cycle.Some? { return; }
        AdvancedTwice(gray, before, color', deps, i);
      } else if color'[dep] == Gray {
        var c := ReadCycle(parent', node, dep, g, p);
        return Some(c), color', parent', order';
      }
      OneMoreBlack(color', deps, i);
    }
    NotOnOwnPath(g, parent', path, node);
    Leave(g, color', path, order', node);
    color' := color'[node := Black];
    order' := order' + [node];
    cycle := None;
  }

  lemma FewerWhites(color: Colors, gray: Colors, color': Colors)
    requires |Whites(gray)| < |Whites(color)| && Advanced(gray, color')
    ensures |Whites(color')| < |Whites(color)|
  {
    SubsetSize(Whites(color'), Whites(gray));
  }

  /** Search from every node still white: a cycle is found exactly when there is one. */
  method DetectCycle(g: Graph) returns (cycle: Option<seq<string>>)
    requires Closed(g)
    ensures cycle.Some? ==> SimpleCycle(g, cycle.value)
    ensures cycle.Some? <==> Cyclic(g)
  {
    var color: Colors := map n | n in g :: White;
    var parent: Parents := map n | n in g :: None;
    ghost var order: seq<string> := [];
    var todo := g.Keys;
    while todo != {}
      invariant todo <= g.Keys
      invariant Painted(g, color, [], order) && Linked(g, parent, [])
      invariant forall n :: n in g && n !in todo ==> n in color && color[n] == Black
      decreases |todo|
    {
      var start :| start in todo;
      if color[start] == White {
        cycle, color, parent, order := Search(g, start, color, parent, [], order);
        if cycle.Some? {
          assert IsCycle(g, cycle.value);
          return;
        }
      }
      todo := todo - {start};
    }
    OrderedIsAcyclic(g, order);
    cycle := None;
  }

  lemma NotOnOwnPath(g: Graph, parent: Parents, path: seq<string>, node: string)
    requires Linked(g, parent, path + [node])
    ensures node !in path && Linked(g, parent, path)
  {
    var longer := path + [node];
    forall i | 0 <= i < |path| ensures path[i] != node { assert longer[i] != longer[|path|]; }
    forall i | 0 <= i < |path| - 1 ensures Edge(g, path[i], path[i + 1]) { assert Edge(g, longer[i], longer[i + 1]); }
    forall i | 0 < i < |path| ensures path[i] in parent && parent[path[i]] == Some(path[i - 1]) {
      assert longer[i] in parent && parent[longer[i]] == Some(longer[i - 1]);
    }
    forall i, j | 0 <= i < j < |path| ensures path[i] != path[j] { assert longer[i] != longer[j]; }
  }
}

/** The dependency graph of a deployment: built from the services' declared
    dependencies, or refused with the reason. */
module StartupOrder {
  import opened Text
  import opened Graphs
  import opened KahnSort
  import opened CycleSearch

  datatype DependencyError =
    | SelfDependency(service: string)
    | MissingService(service: string, missing: string)
    | CyclicDependency(cycle: seq<string>)
    | UnresolvedCycles

  datatype DependencyGraph = DependencyGraph(adjacency: Graph, reverse: Graph, startupOrder: seq<string>)

  datatype BuildResult = Built(graph: DependencyGraph) | Refused(error: DependencyError)

  /** The reason given is true of the services. */
  ghost predicate Justified(services: Graph, e: DependencyError)
  {
    match e
    case SelfDependency(s) => Edge(services, s, s)
    case MissingService(s, m) => Edge(services, s, m) && m !in services
    case CyclicDependency(c) => SimpleCycle(services, c) && Closed(services) && |c| > 2
    case UnresolvedCycles => false
  }

  /** The graph of the services, with a true mirror and an order that respects it. */
  ghost predicate GraphOf(services: Graph, d: DependencyGraph)
  {
    && d.adjacency == services && Closed(services)
    && Mirrors(services, d.reverse) && Within(services, d.reverse)
    && StartOrder(services, d.startupOrder)
  }

  ghost predicate Sound(services: Graph, name: string)
  {
    forall d :: Edge(services, name, d) ==> d != name && d in services
  }

  ghost predicate AllSound(services: Graph)
  {
    forall n {:trigger Sound(services, n)} :: n in services ==> Sound(services, n)
  }

  /** One edge added to both lists. */
  lemma EdgeAdded(adjacency: Graph, reverse: Graph, name: string, dep: string)
    requires Mirrors(adjacency, reverse) && Within(adjacency, reverse) && name in adjacency && dep in adjacency
    ensures Mirrors(adjacency[name := adjacency[name] + [dep]], reverse[dep := reverse[dep] + [name]])
    ensures Within(adjacency[name := adjacency[name] + [dep]], reverse[dep := reverse[dep] + [name]])
  {
    var a, r := adjacency[name := adjacency[name] + [dep]], reverse[dep := reverse[dep] + [name]];
    forall m, n | m in a && n in a ensures Mirrored(a, r, m, n) { assert Mirrored(adjacency, reverse, m, n); }
  }

  /** The edges of one service, or the first thing wrong with them. */
  method AddDependencies(services: Graph, name: string, adjacency: Graph, reverse: Graph)
    returns (e: Option<DependencyError>, adjacency': Graph, reverse': Graph)
    requires name in services && adjacency.Keys == services.Keys && adjacency[name] == []
    requires Mirrors(adjacency, reverse) && Within(adjacency, reverse)
    ensures e.Some? ==> Justified(services, e.value) && !Sound(services, name)
    ensures e.None? ==> Sound(services, name) && adjacency' == adjacency[name := services[name]]
    ensures e.None? ==> Mirrors(adjacency', reverse') && Within(adjacency', reverse')
  {
    adjacency', reverse' := adjacency, reverse;
    var deps := services[name];
    for i := 0 to |deps|
      invariant adjacency' == adjacency[name := deps[..i]]
      invariant Mirrors(adjacency', reverse') && Within(adjacency', reverse')
      invariant forall j :: 0 <= j < i ==> deps[j] != name && deps[j] in services
    {
      var dep := deps[i];
      assert Edge(services, name, dep);
      if dep == name { return Some(SelfDependency(name)), adjacency', reverse'; }
      if dep !in services { return Some(MissingService(name, dep)), adjacency', reverse'; }
      EdgeAdded(adjacency', reverse', name, dep);
      assert deps[..i] + [dep] == deps[..i + 1];
      adjacency' := adjacency'[name := adjacency'[name] + [dep]];
      reverse' := reverse'[dep := reverse'[dep] + [name]];
    }
    assert deps[..|deps|] == deps;
    e := None;
  }

  /** Both adjacency lists of all the services, walked in any order. */
  method AddAll(services: Graph) returns (e: Option<DependencyError>, adjacency: Graph, reverse: Graph)
    ensures e.Some? ==> Justified(services, e.value) && !AllSound(services)
    ensures e.None? ==> adjacency == services && AllSound(services)
    ensures e.None? ==> Mirrors(services, reverse) && Within(services, reverse)
  {
    adjacency := map n | n in services :: [];
    reverse := map n | n in services :: [];
    var todo := services.Keys;
    while todo != {}
      invariant todo <= services.Keys && Added(services, adjacency, todo)
      invariant Mirrors(adjacency, reverse) && Within(adjacency, reverse)
      decreases |todo|
    {
      var name :| name in todo;
      SameKeys(services, adjacency, todo);
      ghost var before := adjacency;
      e, adjacency, reverse := AddDependencies(services, name, adjacency, reverse);
      if e.Some? { return; }
      AddedOne(services, before, todo, name);
      todo := todo - {name};
    }
    AllAdded(services, adjacency);
    e := None;
  }

  /** All but `todo` have their dependencies listed, and nothing is wrong with them. */
  ghost predicate Added(services: Graph, adjacency: Graph, todo: set<string>)
  {
    && (forall n :: n in adjacency <==> n in services)
    && (forall n :: n in adjacency && n in services ==> adjacency[n] == if n in todo then [] else services[n])
    && (forall n {:trigger Sound(services, n)} :: n in services && n !in todo ==> Sound(services, n))
  }

  lemma SameKeys(services: Graph, adjacency: Graph, todo: set<string>)
    requires Added(services, adjacency, todo)
    ensures adjacency.Keys == services.Keys
  {
  }

  lemma AddedOne(services: Graph, adjacency: Graph, todo: set<string>, name: string)
    requires Added(services, adjacency, todo) && name in services && Sound(services, name)
    ensures Added(services, adjacency[name := services[name]], todo - {name})
  {
  }

  lemma AllAdded(services: Graph, adjacency: Graph)
    requires Added(services, adjacency, {})
    ensures adjacency == services && AllSound(services)
  {
  }

  lemma SoundIff(services: Graph)
    ensures AllSound(services) <==> Closed(services) && forall n :: !Edge(services, n, n)
  {
    if AllSound(services) {
      forall n, d | Edge(services, n, d) ensures d in services && d != n { assert Sound(services, n); }
    }
  }

  lemma LoopIsCyclic(services: Graph, n: string)
    requires Edge(services, n, n)
    ensures Cyclic(services)
  {
    assert IsCycle(services, [n, n]);
  }

  /** A graph comes back exactly when every dependency exists and none is
      circular; a refusal names a real fault. The order exists whenever the
      cycle search finds nothing, so the last error never happens. */
  method Build(services: Graph) returns (r: BuildResult)
    ensures r.Built? <==> Closed(services) && !Cyclic(services)
    ensures r.Built? ==> GraphOf(services, r.graph)
    ensures r.Refused? ==> Justified(services, r.error)
  {
    var e, adjacency, reverse := AddAll(services);
    SoundIff(services);
    if e.Some? {
      assert !Closed(services) || Cyclic(services) by {
        if m :| Edge(services, m, m) { LoopIsCyclic(services, m); }
      }
      return Refused(e.value);
    }
    var cycle := DetectCycle(adjacency);
    if cycle.Some? {
      assert Edge(services, cycle.value[0], cycle.value[1]);
      return Refused(CyclicDependency(cycle.value));
    }
    var order := TopologicalSort(adjacency, reverse);
    if order.None? { return Refused(UnresolvedCycles); }
    r := Built(DependencyGraph(adjacency, reverse, order.value));
  }

  /** The services that directly depend on one are those with an edge to it. */
  lemma DependentsAre(services: Graph, d: DependencyGraph, service: string, n: string)
    requires GraphOf(services, d) && service in services
    ensures n in d.reverse[service] <==> Edge(services, n, service)
  {
    if n in services {
      assert Mirrored(services, d.reverse, service, n);
      assert n in multiset(d.reverse[service]) <==> service in multiset(services[n]);
    }
  }

  ghost predicate Found(g: Graph, a: string, x: string)
  {
    x == a || Depends(g, a, x)
  }

  lemma FoundNext(g: Graph, a: string, x: string, y: string)
    requires Found(g, a, x) && Edge(g, x, y)
    ensures Depends(g, a, y)
  {
    if x == a {
      assert IsWalk(g, [a, y]);
    } else {
      var w :| |w| >= 2 && IsWalk(g, w) && w[0] == a && w[|w| - 1] == x;
      var longer := w + [y];
      forall m | 0 <= m < |longer| - 1 ensures Edge(g, longer[m], longer[m + 1]) {
        if m < |w| - 1 { assert Edge(g, w[m], w[m + 1]); }
      }
      assert IsWalk(g, longer);
    }
  }

  /** The targets of `x`'s edges are not `b` and are seen or waiting. */
  ghost predicate Expanded(g: Graph, x: string, b: string, visited: set<string>, stack: seq<string>)
  {
    forall d :: Edge(g, x, d) ==> d != b && (d in visited || d in stack)
  }

  ghost predicate AllExpanded(g: Graph, b: string, visited: set<string>, stack: seq<string>)
  {
    forall x {:trigger Expanded(g, x, b, visited, stack)} :: x in visited ==> Expanded(g, x, b, visited, stack)
  }

  ghost predicate AllFound(g: Graph, a: string, stack: seq<string>)
  {
    forall y {:trigger Found(g, a, y)} :: y in stack ==> Found(g, a, y)
  }

  lemma {:induction false} WalkStays(g: Graph, visited: set<string>, b: string, w: seq<string>)
    requires AllExpanded(g, b, visited, [])
    requires IsWalk(g, w) && |w| >= 2 && w[0] in visited
    ensures w[|w| - 1] != b
    decreases |w|
  {
    assert Edge(g, w[0], w[1]) && Expanded(g, w[0], b, visited, []);
    if |w| > 2 {
      var rest := w[1..];
      forall m | 0 <= m < |rest| - 1 ensures Edge(g, rest[m], rest[m + 1]) { assert Edge(g, w[m + 1], w[m + 2]); }
      WalkStays(g, visited, b, rest);
    }
  }

  lemma NotReached(g: Graph, a: string, b: string, visited: set<string>)
    requires AllExpanded(g, b, visited, []) && a in visited
    ensures !Depends(g, a, b)
  {
    forall w | |w| >= 2 && IsWalk(g, w) && w[0] == a ensures w[|w| - 1] != b { WalkStays(g, visited, b, w); }
  }

  /** Push the dependencies of `x`, unless one of them is `b`. */
  method Push(g: Graph, a: string, b: string, x: string, visited: set<string>, stack: seq<string>)
    returns (found: bool, stack': seq<string>)
    requires Closed(g) && Found(g, a, x) && x in visited && AllFound(g, a, stack)
    ensures found ==> Depends(g, a, b)
    ensures !found ==> stack <= stack' && Expanded(g, x, b, visited, stack') && AllFound(g, a, stack')
    ensures !found ==> forall y :: y in stack' ==> y in stack || y in g
  {
    stack' := stack;
    if x in g {
      var deps := g[x];
      for i := 0 to |deps|
        invariant stack <= stack' && AllFound(g, a, stack')
        invariant forall y :: y in stack' ==> y in stack || y in g
        invariant forall j :: 0 <= j < i ==> deps[j] != b && (deps[j] in visited || deps[j] in stack')
      {
        assert Edge(g, x, deps[i]);
        FoundNext(g, a, x, deps[i]);
        if deps[i] == b { return true, stack'; }
        if deps[i] !in visited { stack' := stack' + [deps[i]]; }
      }
    }
    found := false;
  }

  /** After a node left the stack, all that is seen stays expanded. */
  lemma StillExpanded(g: Graph, b: string, visited: set<string>, stack: seq<string>, x: string, stack': seq<string>)
    requires AllExpanded(g, b, visited, stack)
    requires forall y :: y in stack ==> y == x || y in stack'
    requires x in visited || Expanded(g, x, b, visited + {x}, stack')
    ensures AllExpanded(g, b, visited + {x}, stack')
  {
    forall n | n in visited + {x} ensures Expanded(g, n, b, visited + {x}, stack') {
      if n in visited { assert Expanded(g, n, b, visited, stack); }
    }
  }

  ghost predicate Searching(g: Graph, a: string, b: string, visited: set<string>, stack: seq<string>)
  {
    && AllFound(g, a, stack) && AllExpanded(g, b, visited, stack)
    && (a in visited || a in stack)
    && (forall y :: y in visited || y in stack ==> y == a || y in g)
  }

  /** Look at the top of the stack. */
  method Visit(g: Graph, a: string, b: string, visited: set<string>, stack: seq<string>)
    returns (found: bool, visited': set<string>, stack': seq<string>)
    requires Closed(g) && Searching(g, a, b, visited, stack) && stack != []
    ensures found ==> Depends(g, a, b)
    ensures !found ==> Searching(g, a, b, visited', stack')
    ensures !found ==> visited' == visited + {stack[|stack| - 1]}
    ensures !found && stack[|stack| - 1] in visited ==> |stack'| < |stack|
  {
    var current := stack[|stack| - 1];
    var rest := stack[..|stack| - 1];
    assert stack == rest + [current];
    assert Found(g, a, current);
    visited', stack' := visited + {current}, rest;
    found := false;
    if current !in visited {
      found, stack' := Push(g, a, b, current, visited', rest);
      if found { return; }
    }
    StillExpanded(g, b, visited, stack, current, stack');
  }

  /** Whether `a` depends on `b`, directly or not. */
  method DependsOn(services: Graph, d: DependencyGraph, a: string, b: string) returns (r: bool)
    requires GraphOf(services, d)
    ensures r <==> Depends(services, a, b)
  {
    if a == b {
      NotOnItself(services, d.startupOrder, a);
      return false;
    }
    var visited: set<string> := {};
    var stack := [a];
    ghost var all := services.Keys + {a};
    while stack != []
      invariant Searching(services, a, b, visited, stack)
      decreases |all - visited|, |stack|
    {
      ghost var current, before := stack[|stack| - 1], visited;
      r, visited, stack := Visit(d.adjacency, a, b, visited, stack);
      if r { return; }
      SmallerRest(all, before, current);
    }
    NotReached(services, a, b, visited);
    r := false;
  }

  lemma NotOnItself(g: Graph, order: seq<string>, a: string)
    requires StartOrder(g, order)
    ensures !Depends(g, a, a)
  {
    OrderedIsAcyclic(g, order);
    forall w | |w| >= 2 && IsWalk(g, w) && w[0] == a ensures w[|w| - 1] != a { assert !IsCycle(g, w); }
  }

  lemma SmallerRest(all: set<string>, visited: set<string>, x: string)
    requires x in all
    ensures x in visited ==> visited + {x} == visited
    ensures x !in visited ==> |all - (visited + {x})| < |all - visited|
  {
    if x !in visited { assert all - visited == (all - (visited + {x})) + {x}; }
  }

  /** Whatever a service depends on, directly or not, is started before it. */
  lemma StartsAfterAllItNeeds(services: Graph, d: DependencyGraph, i: nat, j: nat)
    requires GraphOf(services, d) && i < |d.startupOrder| && j < |d.startupOrder|
    requires Depends(services, d.startupOrder[i], d.startupOrder[j])
    ensures j < i
  {
    DependenciesStartFirst(services, d.startupOrder, i, j);
  }
}
