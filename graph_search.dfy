/**
  Breadth-first traversal, path reconstruction, reachability and targeted
  search over an adjacency map (graph_search.py).

  The graph maps every node to its ordered list of neighbours; the discovery
  record ("came_from") maps every discovered node to the node it was
  discovered from, and the start node to None.
 */
module GraphSearch {
  import opened Wrappers

  /** Adjacency map: node -> ordered neighbour list. */
  type Graph<T> = map<T, seq<T>>

  /** Discovery record: node -> predecessor; the start node maps to None. */
  type CameFrom<T> = map<T, Option<T>>

  // ---------------------------------------------------------------------
  // Graph vocabulary used by the specifications
  // ---------------------------------------------------------------------

  /** Every listed neighbour is itself a key of the graph. */
  ghost predicate Closed<T(!new)>(g: Graph<T>) {
    forall n, i :: n in g && 0 <= i < |g[n]| ==> g[n][i] in g
  }

  /** There is a directed edge a -> b. */
  ghost predicate Edge<T(!new)>(g: Graph<T>, a: T, b: T) {
    a in g && b in g[a]
  }

  /** p is a non-empty walk along directed edges. */
  ghost predicate IsPath<T(!new)>(g: Graph<T>, p: seq<T>) {
    |p| > 0 && forall i :: 0 <= i < |p| - 1 ==> Edge(g, p[i], p[i + 1])
  }

  ghost predicate PathFromTo<T(!new)>(g: Graph<T>, p: seq<T>, s: T, t: T) {
    IsPath(g, p) && p[0] == s && p[|p| - 1] == t
  }

  ghost predicate Reachable<T(!new)>(g: Graph<T>, s: T, t: T) {
    exists p :: PathFromTo(g, p, s, t)
  }

  /** p is a path from s to t with the least number of edges. */
  ghost predicate IsShortestPath<T(!new)>(g: Graph<T>, p: seq<T>, s: T, t: T) {
    PathFromTo(g, p, s, t) && forall q :: PathFromTo(g, q, s, t) ==> |p| <= |q|
  }

  /** The fewest edges on any path from s to t is k. */
  ghost predicate IsDistance<T(!new)>(g: Graph<T>, s: T, t: T, k: nat) {
    && (exists p :: PathFromTo(g, p, s, t) && |p| == k + 1)
    && (forall p :: PathFromTo(g, p, s, t) ==> k + 1 <= |p|)
  }

  // ---------------------------------------------------------------------
  // Discovery records and predecessor chains
  // ---------------------------------------------------------------------

  /** The node reached from v by following n predecessor links, if any. */
  ghost function Ancestor<T(!new)>(cameFrom: CameFrom<T>, v: T, n: nat): Option<T>
    decreases n
  {
    if n == 0 then Some(v)
    else if v in cameFrom && cameFrom[v].Some? then Ancestor(cameFrom, cameFrom[v].value, n - 1)
    else None
  }

  /** Following predecessors from v reaches s in finitely many steps. */
  ghost predicate Leads<T(!new)>(cameFrom: CameFrom<T>, v: T, s: T) {
    exists n: nat :: Ancestor(cameFrom, v, n) == Some(s)
  }

  /**
    The docstring contract of a discovery record: it holds the start node,
    mapped to None; if came_from[B] == A then A is a key and B was found
    among A's neighbours; and every key leads back to the start.
   */
  ghost predicate DiscoveryRecord<T(!new)>(g: Graph<T>, s: T, cameFrom: CameFrom<T>) {
    && s in cameFrom && cameFrom[s] == None
    && (forall v :: v in cameFrom && v != s ==>
          cameFrom[v].Some? && cameFrom[v].value in cameFrom && Edge(g, cameFrom[v].value, v))
    && (forall v :: v in cameFrom ==> Leads(cameFrom, v, s))
  }

  /**
    p is what path reconstruction yields: it runs from s to e, each node's
    recorded predecessor is the node before it, and s occurs only at the head.
   */
  ghost predicate IsBacktrack<T(!new)>(cameFrom: CameFrom<T>, s: T, e: T, p: seq<T>) {
    && |p| > 0 && p[0] == s && p[|p| - 1] == e
    && (forall i :: 0 < i < |p| ==> p[i] in cameFrom && cameFrom[p[i]] == Some(p[i - 1]))
    && (forall i :: 0 < i < |p| ==> p[i] != s)
  }

  // ---------------------------------------------------------------------
  // Reference definition of breadth-first exploration
  // ---------------------------------------------------------------------

  /**
    Expanding node u: its neighbours nbrs are scanned in order, and each one
    not yet in the record is recorded as discovered from u and appended to
    the FIFO frontier.
   */
  function Discover<T(==,!new)>(u: T, nbrs: seq<T>, frontier: seq<T>, cameFrom: CameFrom<T>): (r: (seq<T>, CameFrom<T>))
    ensures forall v :: v in r.1 <==> v in cameFrom || v in nbrs
    ensures |frontier| <= |r.0| && r.0[..|frontier|] == frontier
    ensures |r.0| - |frontier| == |r.1| - |cameFrom|
    decreases |nbrs|
  {
    if nbrs == [] then (frontier, cameFrom)
    else if nbrs[0] in cameFrom then Discover(u, nbrs[1..], frontier, cameFrom)
    else
      var r := Discover(u, nbrs[1..], frontier + [nbrs[0]], cameFrom[nbrs[0] := Some(u)]);
      assert r.0[..|frontier|] == (frontier + [nbrs[0]])[..|frontier|];
      r
  }

  /** Expanding u keeps earlier entries and records every new one as discovered from u. */
  lemma {:induction false} DiscoverRecords<T(!new)>(u: T, nbrs: seq<T>, frontier: seq<T>, cameFrom: CameFrom<T>)
    ensures var r := Discover(u, nbrs, frontier, cameFrom);
      && (forall v :: v in cameFrom ==> r.1[v] == cameFrom[v])
      && (forall v :: v in r.1 && v !in cameFrom ==> r.1[v] == Some(u))
    decreases |nbrs|
  {
    if nbrs == [] {
    } else if nbrs[0] in cameFrom {
      DiscoverRecords(u, nbrs[1..], frontier, cameFrom);
    } else {
      DiscoverRecords(u, nbrs[1..], frontier + [nbrs[0]], cameFrom[nbrs[0] := Some(u)]);
    }
  }

  /** The nodes expanding u appends to the frontier are exactly the new entries, each once. */
  lemma DiscoverQueues<T(!new)>(u: T, nbrs: seq<T>, frontier: seq<T>, cameFrom: CameFrom<T>)
    ensures var r := Discover(u, nbrs, frontier, cameFrom);
      && (forall v :: v in r.1 && v !in cameFrom ==> v in r.0[|frontier|..])
      && (forall i :: |frontier| <= i < |r.0| ==> r.0[i] in r.1 && r.0[i] !in cameFrom)
      && (forall i, j :: |frontier| <= i < j < |r.0| ==> r.0[i] != r.0[j])
  {
    DiscoverQueuesNew(u, nbrs, frontier, cameFrom);
    DiscoverQueuesFresh(u, nbrs, frontier, cameFrom);
    DiscoverQueuesDistinct(u, nbrs, frontier, cameFrom);
  }

  /** Appending x to the frontier and then more: the tail after frontier starts with x. */
  lemma AppendedTail<T>(frontier: seq<T>, x: T, r: seq<T>)
    requires |frontier| + 1 <= |r| && r[..|frontier| + 1] == frontier + [x]
    ensures r[|frontier|] == x && r[|frontier|..] == [x] + r[|frontier| + 1..]
  {
    assert r[|frontier|] == (frontier + [x])[|frontier|];
  }

  lemma {:induction false} DiscoverQueuesNew<T(!new)>(u: T, nbrs: seq<T>, frontier: seq<T>, cameFrom: CameFrom<T>)
    ensures var r := Discover(u, nbrs, frontier, cameFrom);
      forall v :: v in r.1 && v !in cameFrom ==> v in r.0[|frontier|..]
    decreases |nbrs|
  {
    if nbrs == [] {
    } else if nbrs[0] in cameFrom {
      DiscoverQueuesNew(u, nbrs[1..], frontier, cameFrom);
    } else {
      var x := nbrs[0];
      DiscoverQueuesNew(u, nbrs[1..], frontier + [x], cameFrom[x := Some(u)]);
      var r := Discover(u, nbrs[1..], frontier + [x], cameFrom[x := Some(u)]);
      AppendedTail(frontier, x, r.0);
    }
  }

  lemma {:induction false} DiscoverQueuesFresh<T(!new)>(u: T, nbrs: seq<T>, frontier: seq<T>, cameFrom: CameFrom<T>)
    ensures var r := Discover(u, nbrs, frontier, cameFrom);
      forall i :: |frontier| <= i < |r.0| ==> r.0[i] in r.1 && r.0[i] !in cameFrom
    decreases |nbrs|
  {
    var r := Discover(u, nbrs, frontier, cameFrom);
    if nbrs == [] {
    } else if nbrs[0] in cameFrom {
      DiscoverQueuesFresh(u, nbrs[1..], frontier, cameFrom);
      assert r == Discover(u, nbrs[1..], frontier, cameFrom);
    } else {
      var x := nbrs[0];
      DiscoverQueuesFresh(u, nbrs[1..], frontier + [x], cameFrom[x := Some(u)]);
      assert r == Discover(u, nbrs[1..], frontier + [x], cameFrom[x := Some(u)]);
      AppendedTail(frontier, x, r.0);
      forall i | |frontier| <= i < |r.0| ensures r.0[i] in r.1 && r.0[i] !in cameFrom {
        if i > |frontier| {
          assert |frontier + [x]| <= i;
        }
      }
    }
  }

  lemma {:induction false} DiscoverQueuesDistinct<T(!new)>(u: T, nbrs: seq<T>, frontier: seq<T>, cameFrom: CameFrom<T>)
    ensures var r := Discover(u, nbrs, frontier, cameFrom);
      forall i, j :: |frontier| <= i < j < |r.0| ==> r.0[i] != r.0[j]
    decreases |nbrs|
  {
    var r := Discover(u, nbrs, frontier, cameFrom);
    if nbrs == [] {
    } else if nbrs[0] in cameFrom {
      DiscoverQueuesDistinct(u, nbrs[1..], frontier, cameFrom);
      assert r == Discover(u, nbrs[1..], frontier, cameFrom);
    } else {
      var x := nbrs[0];
      DiscoverQueuesDistinct(u, nbrs[1..], frontier + [x], cameFrom[x := Some(u)]);
      DiscoverQueuesFresh(u, nbrs[1..], frontier + [x], cameFrom[x := Some(u)]);
      assert r == Discover(u, nbrs[1..], frontier + [x], cameFrom[x := Some(u)]);
      AppendedTail(frontier, x, r.0);
      forall i, j | |frontier| <= i < j < |r.0| ensures r.0[i] != r.0[j] {
        assert |frontier + [x]| <= j;
        if i == |frontier| {
          assert r.0[j] !in cameFrom[x := Some(u)];
        } else {
          assert |frontier + [x]| <= i;
        }
      }
    }
  }

  lemma SubsetCard<T(!new)>(a: set<T>, b: set<T>)
    requires a <= b
    ensures |a| <= |b|
  {
    assert b == a + (b - a);
  }

  /** Expanding a node of a closed graph keeps record and frontier inside the graph. */
  lemma DiscoverInGraph<T(!new)>(g: Graph<T>, u: T, frontier: seq<T>, cameFrom: CameFrom<T>)
    requires Closed(g) && u in g
    requires cameFrom.Keys <= g.Keys
    requires forall i :: 0 <= i < |frontier| ==> frontier[i] in g
    ensures Discover(u, g[u], frontier, cameFrom).1.Keys <= g.Keys
    ensures |Discover(u, g[u], frontier, cameFrom).1| <= |g|
    ensures forall i :: 0 <= i < |Discover(u, g[u], frontier, cameFrom).0| ==> Discover(u, g[u], frontier, cameFrom).0[i] in g
  {
    var r := Discover(u, g[u], frontier, cameFrom);
    DiscoverQueues(u, g[u], frontier, cameFrom);
    assert r.1.Keys <= g.Keys;
    forall i | 0 <= i < |r.0| ensures r.0[i] in g {
      if i < |frontier| {
        assert r.0[i] == r.0[..|frontier|][i];
      }
    }
    SubsetCard(r.1.Keys, g.Keys);
  }

  /**
    Breadth-first exploration from a given frontier and record: nodes are
    dequeued in FIFO order and expanded with Discover. It stops when the
    frontier is empty or, when stop is Some(e), as soon as e is in the
    record; the check happens before each dequeue, so the node whose
    expansion discovered e still has its whole neighbour list scanned.
   */
  function Bfs<T(==,!new)>(g: Graph<T>, stop: Option<T>, frontier: seq<T>, cameFrom: CameFrom<T>): (r: CameFrom<T>)
    requires Closed(g)
    requires cameFrom.Keys <= g.Keys
    requires forall i :: 0 <= i < |frontier| ==> frontier[i] in g
    ensures cameFrom.Keys <= r.Keys <= g.Keys
    decreases |g| - |cameFrom| + |frontier|
  {
    SubsetCard(cameFrom.Keys, g.Keys);
    if frontier == [] || (stop.Some? && stop.value in cameFrom) then cameFrom
    else
      DiscoverInGraph(g, frontier[0], frontier[1..], cameFrom);
      var next := Discover(frontier[0], g[frontier[0]], frontier[1..], cameFrom);
      Bfs(g, stop, next.0, next.1)
  }

  /** The record of a full traversal from s. */
  function Traversal<T(==,!new)>(g: Graph<T>, s: T): (r: CameFrom<T>)
    requires Closed(g) && s in g
    ensures s in r && r.Keys <= g.Keys
  {
    Bfs(g, None, [s], map[s := None])
  }

  /** The record of a search from s that stops once e is discovered. */
  function SearchRecord<T(==,!new)>(g: Graph<T>, s: T, e: T): (r: CameFrom<T>)
    requires Closed(g) && s in g
    ensures s in r && r.Keys <= g.Keys
  {
    Bfs(g, Some(e), [s], map[s := None])
  }

  // ---------------------------------------------------------------------
  // Soundness of breadth-first exploration
  // ---------------------------------------------------------------------

  /**
    v's recorded predecessor is a recorded node with an edge to v, one
    layer nearer the start.
   */
  ghost predicate TreeEdge<T(!new)>(g: Graph<T>, cameFrom: CameFrom<T>, depth: map<T, nat>, v: T) {
    && v in cameFrom && v in depth && cameFrom[v].Some?
    && cameFrom[v].value in cameFrom && cameFrom[v].value in depth
    && Edge(g, cameFrom[v].value, v)
    && depth[v] == depth[cameFrom[v].value] + 1
  }

  /**
    The record is a breadth-first tree rooted at s whose layers are the
    distances from s: depth[v] never exceeds the length of a path to v.
   */
  ghost predicate Layered<T(!new)>(g: Graph<T>, s: T, cameFrom: CameFrom<T>, depth: map<T, nat>) {
    && cameFrom.Keys == depth.Keys
    && s in cameFrom && cameFrom[s] == None && depth[s] == 0
    && (forall v :: v in cameFrom && v != s ==> TreeEdge(g, cameFrom, depth, v))
    && (forall v, p :: v in cameFrom && PathFromTo(g, p, s, v) ==> depth[v] < |p|)
  }

  /** Every node on a path from s is in the record. */
  ghost predicate Complete<T(!new)>(g: Graph<T>, s: T, cameFrom: CameFrom<T>) {
    forall v, p :: PathFromTo(g, p, s, v) ==> v in cameFrom
  }

  /**
    The loop invariant of breadth-first exploration. depth gives each
    recorded node its layer, done holds the expanded nodes and layer is the
    layer of the node expanded last; the frontier holds the recorded nodes
    not yet expanded, once each, in non-decreasing layer order.
   */
  ghost predicate BfsInv<T(!new)>(g: Graph<T>, s: T, stop: Option<T>, frontier: seq<T>, cameFrom: CameFrom<T>,
                                  depth: map<T, nat>, done: set<T>, layer: nat)
  {
    && Closed(g) && s in g
    && cameFrom.Keys == depth.Keys && cameFrom.Keys <= g.Keys
    && s in cameFrom && cameFrom[s] == None && depth[s] == 0
    && (forall v :: v in cameFrom && v != s ==> TreeEdge(g, cameFrom, depth, v))
    && done <= cameFrom.Keys
    && (forall a, i :: a in done && a in g && 0 <= i < |g[a]| ==> g[a][i] in depth && depth[g[a][i]] <= depth[a] + 1)
    && (forall v :: v in cameFrom && v !in done ==> v in frontier)
    && (forall i :: 0 <= i < |frontier| ==> frontier[i] in depth && frontier[i] !in done && layer <= depth[frontier[i]])
    && (forall i, j :: 0 <= i < j < |frontier| ==> frontier[i] != frontier[j] && depth[frontier[i]] <= depth[frontier[j]])
    && (forall v :: v in depth ==> depth[v] <= layer + 1)
    && (stop.Some? && stop.value in depth ==> forall v :: v in depth ==> depth[v] <= depth[stop.value])
  }

  lemma BfsInvInit<T(!new)>(g: Graph<T>, s: T, stop: Option<T>)
    requires Closed(g) && s in g
    ensures BfsInv(g, s, stop, [s], map[s := None], map[s := 0], {}, 0)
  {
  }

  /** Layers after expanding u: new entries lie one layer beyond u. */
  ghost function StepDepth<T(!new)>(cameFrom: CameFrom<T>, depth: map<T, nat>, u: T, cf: CameFrom<T>): map<T, nat>
    requires u in depth && cameFrom.Keys <= depth.Keys
  {
    map v | v in cf :: if v in cameFrom then depth[v] else depth[u] + 1
  }

  /** The record after expanding the frontier's head is still a layered tree. */
  lemma BfsStepTree<T(!new)>(g: Graph<T>, s: T, stop: Option<T>, frontier: seq<T>, cameFrom: CameFrom<T>,
                             depth: map<T, nat>, done: set<T>, layer: nat)
    requires BfsInv(g, s, stop, frontier, cameFrom, depth, done, layer)
    requires frontier != [] && !(stop.Some? && stop.value in cameFrom)
    ensures var u := frontier[0];
      var next := Discover(u, g[u], frontier[1..], cameFrom);
      var depth' := StepDepth(cameFrom, depth, u, next.1);
      && next.1.Keys == depth'.Keys && next.1.Keys <= g.Keys
      && s in next.1 && next.1[s] == None && depth'[s] == 0
      && (forall v :: v in next.1 && v != s ==> TreeEdge(g, next.1, depth', v))
      && (forall v :: v in depth' ==> depth'[v] <= depth[u] + 1)
      && (stop.Some? && stop.value in depth' ==> forall v :: v in depth' ==> depth'[v] <= depth'[stop.value])
  {
    var u := frontier[0];
    var next := Discover(u, g[u], frontier[1..], cameFrom);
    DiscoverInGraph(g, u, frontier[1..], cameFrom);
    DiscoverRecords(u, g[u], frontier[1..], cameFrom);
    var cf := next.1;
    var depth' := StepDepth(cameFrom, depth, u, cf);
    forall v | v in cf && v != s ensures TreeEdge(g, cf, depth', v) {
      if v !in cameFrom {
        assert v in g[u];
      }
    }
  }

  /** After expanding u, u and the earlier expanded nodes have all their neighbours recorded. */
  lemma BfsStepDone<T(!new)>(g: Graph<T>, s: T, stop: Option<T>, frontier: seq<T>, cameFrom: CameFrom<T>,
                             depth: map<T, nat>, done: set<T>, layer: nat)
    requires BfsInv(g, s, stop, frontier, cameFrom, depth, done, layer)
    requires frontier != []
    ensures var u := frontier[0];
      var next := Discover(u, g[u], frontier[1..], cameFrom);
      var depth' := StepDepth(cameFrom, depth, u, next.1);
      forall a, i :: a in done + {u} && a in g && 0 <= i < |g[a]| ==> g[a][i] in depth' && depth'[g[a][i]] <= depth'[a] + 1
  {
    var u := frontier[0];
    var next := Discover(u, g[u], frontier[1..], cameFrom);
    DiscoverRecords(u, g[u], frontier[1..], cameFrom);
  }

  /** After expanding u, the frontier again holds every recorded node not yet expanded. */
  lemma BfsStepQueued<T(!new)>(g: Graph<T>, s: T, stop: Option<T>, frontier: seq<T>, cameFrom: CameFrom<T>,
                               depth: map<T, nat>, done: set<T>, layer: nat)
    requires BfsInv(g, s, stop, frontier, cameFrom, depth, done, layer)
    requires frontier != []
    ensures var u := frontier[0];
      var next := Discover(u, g[u], frontier[1..], cameFrom);
      && done + {u} <= next.1.Keys
      && (forall v :: v in next.1 && v !in done + {u} ==> v in next.0)
  {
    var u := frontier[0];
    var rest := frontier[1..];
    var next := Discover(u, g[u], rest, cameFrom);
    DiscoverQueues(u, g[u], rest, cameFrom);
    var q, cf := next.0, next.1;
    forall v | v in cf && v !in done + {u} ensures v in q {
      if v in cameFrom {
        var k :| 0 <= k < |frontier| && frontier[k] == v;
        assert k != 0;
        assert q[k - 1] == q[..|rest|][k - 1] == v;
      } else {
        assert v in q[|rest|..];
      }
    }
  }

  /** After expanding u, the frontier holds unexpanded nodes, once each, in non-decreasing layer order. */
  lemma BfsStepOrder<T(!new)>(g: Graph<T>, s: T, stop: Option<T>, frontier: seq<T>, cameFrom: CameFrom<T>,
                              depth: map<T, nat>, done: set<T>, layer: nat)
    requires BfsInv(g, s, stop, frontier, cameFrom, depth, done, layer)
    requires frontier != []
    ensures var u := frontier[0];
      var next := Discover(u, g[u], frontier[1..], cameFrom);
      var q, depth' := next.0, StepDepth(cameFrom, depth, u, next.1);
      && (forall i :: 0 <= i < |q| ==> q[i] in depth' && q[i] !in done + {u} && depth[u] <= depth'[q[i]])
      && (forall i, j :: 0 <= i < j < |q| ==> q[i] != q[j] && depth'[q[i]] <= depth'[q[j]])
  {
    var u := frontier[0];
    var rest := frontier[1..];
    var next := Discover(u, g[u], rest, cameFrom);
    DiscoverQueues(u, g[u], rest, cameFrom);
    var q, cf := next.0, next.1;
    var depth' := StepDepth(cameFrom, depth, u, cf);
    assert forall i :: 0 <= i < |rest| ==> q[i] == frontier[i + 1] by {
      forall i | 0 <= i < |rest| ensures q[i] == frontier[i + 1] {
        assert q[i] == q[..|rest|][i];
      }
    }
    forall i | 0 <= i < |q| ensures q[i] in depth' && q[i] !in done + {u} && depth[u] <= depth'[q[i]] {
      if i < |rest| {
        assert q[i] == frontier[i + 1];
      }
    }
    forall i, j | 0 <= i < j < |q| ensures q[i] != q[j] && depth'[q[i]] <= depth'[q[j]] {
      if j < |rest| {
        assert q[i] == frontier[i + 1] && q[j] == frontier[j + 1];
      } else if i < |rest| {
        assert q[i] == frontier[i + 1];
      }
    }
  }

  /** Expanding the head of the frontier preserves the invariant. */
  lemma BfsInvStep<T(!new)>(g: Graph<T>, s: T, stop: Option<T>, frontier: seq<T>, cameFrom: CameFrom<T>,
                            depth: map<T, nat>, done: set<T>, layer: nat)
    returns (depth': map<T, nat>, done': set<T>, layer': nat)
    requires BfsInv(g, s, stop, frontier, cameFrom, depth, done, layer)
    requires frontier != [] && !(stop.Some? && stop.value in cameFrom)
    ensures var next := Discover(frontier[0], g[frontier[0]], frontier[1..], cameFrom);
      BfsInv(g, s, stop, next.0, next.1, depth', done', layer')
  {
    var u := frontier[0];
    var next := Discover(u, g[u], frontier[1..], cameFrom);
    depth' := StepDepth(cameFrom, depth, u, next.1);
    done' := done + {u};
    layer' := depth[u];
    BfsStepTree(g, s, stop, frontier, cameFrom, depth, done, layer);
    BfsStepDone(g, s, stop, frontier, cameFrom, depth, done, layer);
    BfsStepQueued(g, s, stop, frontier, cameFrom, depth, done, layer);
    BfsStepOrder(g, s, stop, frontier, cameFrom, depth, done, layer);
  }

  /**
    Along any path from s, the record (with its expanded nodes) bounds the
    layer of the path's last node by the path's length, unless the path is
    longer than every layer still open.
   */
  lemma {:induction false} PathLowerBound<T(!new)>(g: Graph<T>, s: T, depth: map<T, nat>, done: set<T>, layer: nat, p: seq<T>)
    requires s in depth && depth[s] == 0 && done <= depth.Keys
    requires forall a, i :: a in done && a in g && 0 <= i < |g[a]| ==> g[a][i] in depth && depth[g[a][i]] <= depth[a] + 1
    requires forall v :: v in depth && v !in done ==> layer <= depth[v]
    requires IsPath(g, p) && p[0] == s
    ensures |p| > layer + 1 || (p[|p| - 1] in depth && depth[p[|p| - 1]] < |p|)
    decreases |p|
  {
    if |p| > 1 {
      var p' := p[..|p| - 1];
      assert IsPath(g, p') by {
        forall i | 0 <= i < |p'| - 1 ensures Edge(g, p'[i], p'[i + 1]) {
          assert p'[i] == p[i] && p'[i + 1] == p[i + 1];
        }
      }
      PathLowerBound(g, s, depth, done, layer, p');
      var a, b := p[|p| - 2], p[|p| - 1];
      assert Edge(g, a, b);
      if |p| <= layer + 1 && a in done {
        var i :| 0 <= i < |g[a]| && g[a][i] == b;
      }
    }
  }

  /**
    Exploration from any state satisfying the invariant ends in a layered
    record; it is complete unless it stopped at stop, and then no recorded
    node lies beyond stop's layer.
   */
  lemma {:induction false} BfsSound<T(!new)>(g: Graph<T>, s: T, stop: Option<T>, frontier: seq<T>, cameFrom: CameFrom<T>,
                                             depth: map<T, nat>, done: set<T>, layer: nat)
    returns (dist: map<T, nat>)
    requires BfsInv(g, s, stop, frontier, cameFrom, depth, done, layer)
    ensures var r := Bfs(g, stop, frontier, cameFrom);
      && Layered(g, s, r, dist)
      && ((stop.Some? && stop.value in r) || Complete(g, s, r))
      && (stop.Some? && stop.value in r ==> forall v :: v in r ==> dist[v] <= dist[stop.value])
      && (stop.Some? && stop.value in r ==> forall v, p :: PathFromTo(g, p, s, v) && |p| <= dist[stop.value] ==> v in r)
    decreases |g| - |cameFrom| + |frontier|
  {
    SubsetCard(cameFrom.Keys, g.Keys);
    if frontier == [] || (stop.Some? && stop.value in cameFrom) {
      dist := depth;
      forall v, p | v in cameFrom && PathFromTo(g, p, s, v) ensures depth[v] < |p| {
        PathLowerBound(g, s, depth, done, layer, p);
      }
      if frontier == [] {
        forall v, p | PathFromTo(g, p, s, v) ensures v in cameFrom {
          PathLowerBound(g, s, depth, done, |p|, p);
        }
      }
      if stop.Some? && stop.value in cameFrom {
        forall v, p | PathFromTo(g, p, s, v) && |p| <= depth[stop.value] ensures v in cameFrom {
          PathLowerBound(g, s, depth, done, layer, p);
        }
      }
    } else {
      var depth', done', layer' := BfsInvStep(g, s, stop, frontier, cameFrom, depth, done, layer);
      var next := Discover(frontier[0], g[frontier[0]], frontier[1..], cameFrom);
      DiscoverInGraph(g, frontier[0], frontier[1..], cameFrom);
      dist := BfsSound(g, s, stop, next.0, next.1, depth', done', layer');
    }
  }

  /** Exploration from the initial state satisfies the soundness properties. */
  lemma BfsFromStart<T(!new)>(g: Graph<T>, s: T, stop: Option<T>) returns (dist: map<T, nat>)
    requires Closed(g) && s in g
    ensures var r := Bfs(g, stop, [s], map[s := None]);
      && Layered(g, s, r, dist)
      && ((stop.Some? && stop.value in r) || Complete(g, s, r))
      && (stop.Some? && stop.value in r ==> forall v :: v in r ==> dist[v] <= dist[stop.value])
      && (stop.Some? && stop.value in r ==> forall v, p :: PathFromTo(g, p, s, v) && |p| <= dist[stop.value] ==> v in r)
  {
    BfsInvInit(g, s, stop);
    dist := BfsSound(g, s, stop, [s], map[s := None], map[s := 0], {}, 0);
  }

  /**
    In a layered record, the predecessor chain of v is a path from s with
    depth[v] edges, and following depth[v] predecessors from v reaches s.
   */
  lemma {:induction false} LayeredChain<T(!new)>(g: Graph<T>, s: T, cameFrom: CameFrom<T>, depth: map<T, nat>, v: T)
    returns (p: seq<T>)
    requires Layered(g, s, cameFrom, depth) && v in cameFrom
    ensures IsBacktrack(cameFrom, s, v, p) && PathFromTo(g, p, s, v) && |p| == depth[v] + 1
    ensures Ancestor(cameFrom, v, depth[v]) == Some(s)
    decreases depth[v]
  {
    if v == s {
      p := [s];
    } else {
      assert TreeEdge(g, cameFrom, depth, v);
      var u := cameFrom[v].value;
      var q := LayeredChain(g, s, cameFrom, depth, u);
      p := q + [v];
      ExtendBacktrack(cameFrom, s, u, v, q);
      ExtendPath(g, s, u, v, q);
    }
  }

  /** A backtrack path to u extends by a node v recorded as found from u. */
  lemma ExtendBacktrack<T(!new)>(cameFrom: CameFrom<T>, s: T, u: T, v: T, q: seq<T>)
    requires IsBacktrack(cameFrom, s, u, q) && v in cameFrom && cameFrom[v] == Some(u) && v != s
    ensures IsBacktrack(cameFrom, s, v, q + [v])
  {
    var p := q + [v];
    assert forall i :: 0 <= i < |q| ==> p[i] == q[i];
  }

  /** A path from s to u extends along an edge from u to v. */
  lemma ExtendPath<T(!new)>(g: Graph<T>, s: T, u: T, v: T, q: seq<T>)
    requires PathFromTo(g, q, s, u) && Edge(g, u, v)
    ensures PathFromTo(g, q + [v], s, v)
  {
    var p := q + [v];
    assert forall i :: 0 <= i < |q| ==> p[i] == q[i];
  }

  /** The result of path reconstruction is determined by the record, start and end. */
  lemma {:induction false} BacktrackDetermined<T(!new)>(cameFrom: CameFrom<T>, s: T, e: T, p: seq<T>, q: seq<T>)
    requires IsBacktrack(cameFrom, s, e, p) && IsBacktrack(cameFrom, s, e, q)
    ensures p == q
    decreases |p|
  {
    if |p| > 1 {
      assert p[|p| - 1] != s;
      assert |q| > 1;
      var p', q' := p[..|p| - 1], q[..|q| - 1];
      assert p'[|p'| - 1] == q'[|q'| - 1];
      BacktrackDetermined(cameFrom, s, p'[|p'| - 1], p', q');
      assert p == p' + [e] && q == q' + [e];
    }
  }

  /**
    Every key of the record, whether from a full traversal or a search,
    maps to a node it was discovered from, and leads back to the start,
    which maps to None.
   */
  lemma RecordIsDiscoveryTree<T(!new)>(g: Graph<T>, s: T, stop: Option<T>)
    requires Closed(g) && s in g
    ensures DiscoveryRecord(g, s, Bfs(g, stop, [s], map[s := None]))
  {
    var r := Bfs(g, stop, [s], map[s := None]);
    var dist := BfsFromStart(g, s, stop);
    forall v | v in r ensures Leads(r, v, s) {
      var _ := LayeredChain(g, s, r, dist, v);
    }
    forall v | v in r && v != s
      ensures r[v].Some? && r[v].value in r && Edge(g, r[v].value, v)
    {
      assert TreeEdge(g, r, dist, v);
    }
  }

  /**
    Breadth-first layers: each recorded node lies at its distance from the
    start, and each predecessor is exactly one layer nearer the start.
   */
  lemma RecordLayersAreDistances<T(!new)>(g: Graph<T>, s: T, stop: Option<T>) returns (dist: map<T, nat>)
    requires Closed(g) && s in g
    ensures var r := Bfs(g, stop, [s], map[s := None]);
      && dist.Keys == r.Keys
      && (forall v :: v in r ==> IsDistance(g, s, v, dist[v]))
      && (forall v :: v in r && v != s ==> r[v].Some? && r[v].value in dist && dist[v] == dist[r[v].value] + 1)
  {
    var r := Bfs(g, stop, [s], map[s := None]);
    dist := BfsFromStart(g, s, stop);
    forall v | v in r ensures IsDistance(g, s, v, dist[v]) {
      var p := LayeredChain(g, s, r, dist, v);
    }
    forall v | v in r && v != s ensures r[v].Some? && r[v].value in dist && dist[v] == dist[r[v].value] + 1 {
      assert TreeEdge(g, r, dist, v);
    }
  }

  /** The keys of a full traversal are exactly the nodes reachable from the start. */
  lemma TraversalIsReachableSet<T(!new)>(g: Graph<T>, s: T)
    requires Closed(g) && s in g
    ensures forall v :: v in Traversal(g, s) <==> Reachable(g, s, v)
  {
    var r := Traversal(g, s);
    var dist := BfsFromStart(g, s, None);
    forall v | v in r ensures Reachable(g, s, v) {
      var p := LayeredChain(g, s, r, dist, v);
    }
  }

  /** No edge leaves the node set inside. */
  ghost predicate EdgeClosed<T(!new)>(g: Graph<T>, inside: set<T>) {
    forall v, w :: v in inside && v in g && w in g[v] ==> w in inside
  }

  /** A path that starts in an edge-closed set stays in it. */
  lemma {:induction false} PathStaysInside<T(!new)>(g: Graph<T>, inside: set<T>, p: seq<T>)
    requires IsPath(g, p) && p[0] in inside && EdgeClosed(g, inside)
    ensures p[|p| - 1] in inside
    decreases |p|
  {
    if |p| > 1 {
      var q := p[..|p| - 1];
      assert IsPath(g, q) by {
        forall i | 0 <= i < |q| - 1 ensures Edge(g, q[i], q[i + 1]) {
          assert Edge(g, p[i], p[i + 1]);
        }
      }
      PathStaysInside(g, inside, q);
      assert Edge(g, p[|p| - 2], p[|p| - 1]);
    }
  }

  /** Every node reachable from a member of an edge-closed set is in the set. */
  lemma ReachableWithin<T(!new)>(g: Graph<T>, s: T, inside: set<T>)
    requires s in inside && EdgeClosed(g, inside)
    ensures forall t :: Reachable(g, s, t) ==> t in inside
  {
    forall t | Reachable(g, s, t) ensures t in inside {
      var p :| PathFromTo(g, p, s, t);
      PathStaysInside(g, inside, p);
    }
  }

  /**
    A traversal records exactly an edge-closed set around s whose every
    member is reachable from s.
   */
  lemma TraversalKeysExactly<T(!new)>(g: Graph<T>, s: T, inside: set<T>)
    requires Closed(g) && s in g && s in inside && EdgeClosed(g, inside)
    requires forall t :: t in inside ==> Reachable(g, s, t)
    ensures Traversal(g, s).Keys == inside
  {
    TraversalIsReachableSet(g, s);
    ReachableWithin(g, s, inside);
  }

  /**
    A search discovers the end node exactly when it is reachable. It then
    records every node nearer to the start than the end node and none
    farther away; otherwise it records the whole reachable set.
   */
  lemma SearchStopsAtEndLayer<T(!new)>(g: Graph<T>, s: T, e: T) returns (dist: map<T, nat>)
    requires Closed(g) && s in g
    ensures var r := SearchRecord(g, s, e);
      && (e in r <==> Reachable(g, s, e))
      && dist.Keys == r.Keys
      && (forall v :: v in r ==> IsDistance(g, s, v, dist[v]))
      && (e in r ==> forall v :: v in r ==> dist[v] <= dist[e])
      && (e in r ==> forall v, p :: PathFromTo(g, p, s, v) && |p| <= dist[e] ==> v in r)
      && (e !in r ==> forall v :: v in r <==> Reachable(g, s, v))
  {
    var r := SearchRecord(g, s, e);
    dist := BfsFromStart(g, s, Some(e));
    forall v | v in r ensures IsDistance(g, s, v, dist[v]) {
      var p := LayeredChain(g, s, r, dist, v);
    }
  }

  /** Reconstructing the path to any recorded node yields a shortest path. */
  lemma BacktrackIsShortest<T(!new)>(g: Graph<T>, s: T, stop: Option<T>, e: T, p: seq<T>)
    requires Closed(g) && s in g
    requires IsBacktrack(Bfs(g, stop, [s], map[s := None]), s, e, p)
    ensures IsShortestPath(g, p, s, e)
  {
    var r := Bfs(g, stop, [s], map[s := None]);
    var dist := BfsFromStart(g, s, stop);
    assert e in r;
    var chain := LayeredChain(g, s, r, dist, e);
    BacktrackDetermined(r, s, e, p, chain);
  }

  /**
    What a search returns: the search record, and a path exactly when the
    end node was discovered, namely the one path reconstruction yields.
   */
  ghost predicate SearchOutcome<T(!new)>(g: Graph<T>, s: T, e: T, cameFrom: CameFrom<T>, path: Option<seq<T>>) {
    && Closed(g) && s in g
    && cameFrom == SearchRecord(g, s, e)
    && (path.Some? <==> e in cameFrom)
    && (path.Some? ==> IsBacktrack(cameFrom, s, e, path.value))
  }

  // ---------------------------------------------------------------------
  // The engine and the four operations
  // ---------------------------------------------------------------------

  /**
    The breadth-first engine: a FIFO frontier drained in a loop, with the
    record updated as each dequeued node's neighbours are scanned.
   */
  method Explore<T(==,!new)>(g: Graph<T>, start: T, stop: Option<T>) returns (cameFrom: CameFrom<T>)
    requires Closed(g) && start in g
    ensures cameFrom == Bfs(g, stop, [start], map[start := None])
  {
    var frontier := [start];
    cameFrom := map[start := None];
    while frontier != [] && !(stop.Some? && stop.value in cameFrom)
      invariant cameFrom.Keys <= g.Keys
      invariant forall i :: 0 <= i < |frontier| ==> frontier[i] in g
      invariant Bfs(g, stop, frontier, cameFrom) == Bfs(g, stop, [start], map[start := None])
      decreases |g| - |cameFrom| + |frontier|
    {
      ghost var before := (frontier, cameFrom);
      var current := frontier[0];
      frontier := frontier[1..];
      var nbrs := g[current];
      DiscoverInGraph(g, current, frontier, cameFrom);
      ghost var next := Discover(current, nbrs, frontier, cameFrom);
      assert Bfs(g, stop, before.0, before.1) == Bfs(g, stop, next.0, next.1);
      for k := 0 to |nbrs|
        invariant Discover(current, nbrs[k..], frontier, cameFrom) == next
      {
        var neighbour := nbrs[k];
        assert nbrs[k..][1..] == nbrs[k + 1..];
        if neighbour !in cameFrom {
          cameFrom := cameFrom[neighbour := Some(current)];
          frontier := frontier + [neighbour];
        }
      }
      assert (frontier, cameFrom) == next;
    }
  }

  /** Traverse the graph breadth-first from start (breadth_first_traverse). */
  method BreadthFirstTraverse<T(==,!new)>(g: Graph<T>, start: T) returns (cameFrom: CameFrom<T>)
    requires Closed(g) && start in g
    ensures cameFrom == Traversal(g, start)
    ensures DiscoveryRecord(g, start, cameFrom)
    ensures forall v :: v in cameFrom <==> Reachable(g, start, v)
  {
    cameFrom := Explore(g, start, None);
    RecordIsDiscoveryTree(g, start, None);
    TraversalIsReachableSet(g, start);
  }

  /**
    Reconstruct the path from start to end by following predecessors back
    from end (path_backtrack). The record must lead from end back to start,
    as every record of a traversal from start does.
   */
  method PathBacktrack<T(==,!new)>(start: T, end: T, cameFrom: CameFrom<T>) returns (path: seq<T>)
    requires Leads(cameFrom, end, start)
    ensures IsBacktrack(cameFrom, start, end, path)
    ensures start == end ==> path == [start]
  {
    ghost var n: nat :| Ancestor(cameFrom, end, n) == Some(start);
    var node := end;
    path := [end];
    ghost var k := 0;
    while node != start
      invariant 0 <= k <= n
      invariant Ancestor(cameFrom, node, n - k) == Some(start)
      invariant |path| > 0 && path[0] == node && path[|path| - 1] == end
      invariant forall i :: 0 < i < |path| ==> path[i] in cameFrom && cameFrom[path[i]] == Some(path[i - 1])
      invariant forall i :: 0 < i < |path| ==> path[i] != start
      decreases n - k
    {
      var previous := cameFrom[node].value;
      path := [previous] + path;
      node := previous;
      k := k + 1;
    }
  }

  /** The set of nodes reachable from start (get_reachable_nodes). */
  method GetReachableNodes<T(==,!new)>(g: Graph<T>, start: T) returns (reachable: set<T>)
    requires Closed(g) && start in g
    ensures reachable == Traversal(g, start).Keys
    ensures forall v :: v in reachable <==> Reachable(g, start, v)
  {
    var cameFrom := BreadthFirstTraverse(g, start);
    reachable := cameFrom.Keys;
  }

  /**
    Search breadth-first from start for end, stopping once end has been
    discovered (breadth_first_search). The path is None exactly when end is
    unreachable, and then the record holds every reachable node; otherwise
    it is a shortest path, and the record holds every node nearer to start
    than end and none farther away.
   */
  method BreadthFirstSearch<T(==,!new)>(g: Graph<T>, start: T, end: T) returns (cameFrom: CameFrom<T>, path: Option<seq<T>>)
    requires Closed(g) && start in g
    ensures SearchOutcome(g, start, end, cameFrom, path)
    ensures DiscoveryRecord(g, start, cameFrom)
    ensures path.None? <==> !Reachable(g, start, end)
    ensures path.Some? ==> IsShortestPath(g, path.value, start, end)
    ensures path.Some? ==> forall v :: v in cameFrom ==> exists q :: PathFromTo(g, q, start, v) && |q| <= |path.value|
    ensures path.Some? ==> forall v, q :: PathFromTo(g, q, start, v) && |q| < |path.value| ==> v in cameFrom
    ensures path.None? ==> forall v :: v in cameFrom <==> Reachable(g, start, v)
  {
    cameFrom := Explore(g, start, Some(end));
    RecordIsDiscoveryTree(g, start, Some(end));
    ghost var dist := SearchStopsAtEndLayer(g, start, end);
    if end in cameFrom {
      var p := PathBacktrack(start, end, cameFrom);
      BacktrackIsShortest(g, start, Some(end), end, p);
      path := Some(p);
      forall v | v in cameFrom ensures exists q :: PathFromTo(g, q, start, v) && |q| <= |p| {
        assert IsDistance(g, start, v, dist[v]) && IsDistance(g, start, end, dist[end]);
        var q :| PathFromTo(g, q, start, v) && |q| == dist[v] + 1;
      }
    } else {
      path := None;
    }
  }
}
