/**
 DAG scheduling by string keys: Kahn's method with a FIFO queue, loading a DAG, and
 the ready-set query over a loaded DAG.
 */
module Scheduler {
  import opened Graphs
  import opened Strings
  import opened Tasks

  /** Edges lead from a key to a key that must run after it; neither need be listed. */
  datatype TaskDag = TaskDag(tasks: map<string, Task>, edges: seq<(string, string)>)

  function Sources(edges: seq<(string, string)>, k: string): set<string> {
    set e | e in edges && e.1 == k :: e.0
  }

  function Sinks(edges: seq<(string, string)>, k: string): set<string> {
    set e | e in edges && e.0 == k :: e.1
  }

  /** Every listed key with the keys it waits for, listed or not. */
  ghost function DagGraph(dag: TaskDag): (g: map<string, set<string>>)
    ensures g.Keys == dag.tasks.Keys
  {
    map k | k in dag.tasks :: Sources(dag.edges, k)
  }

  function Lookup(m: map<string, set<string>>, k: string): set<string> {
    if k in m then m[k] else {}
  }

  // ---------------------------------------------------------------- the order of a FIFO queue

  /** How many nodes were placed when `v` became ready (all of them, if it has not). */
  ghost function Release(g: map<string, set<string>>, order: seq<string>, v: string): nat
    requires v in g
  {
    if order == [] then 0
    else if g[v] <= Elems(order[..|order| - 1]) then Release(g, order[..|order| - 1], v)
    else |order|
  }

  /** Earlier release first; nodes released together by key. */
  ghost predicate Before(g: map<string, set<string>>, order: seq<string>, a: string, b: string)
    requires a in g && b in g
  {
    var ra, rb := Release(g, order, a), Release(g, order, b);
    ra < rb || (ra == rb && StrLess(a, b))
  }

  /** The nodes of `s` stand in the order in which `order` releases them. */
  ghost predicate Fifo(g: map<string, set<string>>, order: seq<string>, s: seq<string>) {
    && (forall i :: 0 <= i < |s| ==> s[i] in g)
    && (forall i, j :: 0 <= i < j < |s| ==> Before(g, order, s[i], s[j]))
  }

  lemma ReleaseStable(g: map<string, set<string>>, order: seq<string>, x: string, v: string)
    requires v in g && g[v] <= Elems(order)
    ensures Release(g, order + [x], v) == Release(g, order, v)
  {
    assert (order + [x])[..|order|] == order;
  }

  lemma {:induction false} ReleaseBound(g: map<string, set<string>>, order: seq<string>, v: string)
    requires v in g
    ensures Release(g, order, v) <= |order|
  {
    if order != [] {
      ReleaseBound(g, order[..|order| - 1], v);
    }
  }

  /** The release of a placed node is decided by the part of the order before it. */
  lemma {:induction false} ReleaseOfPrefix(g: map<string, set<string>>, order: seq<string>, n: nat, v: string)
    requires v in g && n <= |order| && g[v] <= Elems(order[..n])
    ensures Release(g, order, v) == Release(g, order[..n], v)
  {
    if n < |order| {
      var m := |order| - 1;
      assert order[..m][..n] == order[..n];
      assert Elems(order[..n]) <= Elems(order[..m]);
      ReleaseOfPrefix(g, order[..m], n, v);
    } else {
      assert order[..n] == order;
    }
  }

  /** Two complete FIFO orders of one graph agree on ever longer prefixes. */
  lemma {:induction false} FifoPrefixesAgree(g: map<string, set<string>>, a: seq<string>, b: seq<string>, n: nat)
    requires Placed(g, a) && Placed(g, b) && Fifo(g, a, a) && Fifo(g, b, b)
    requires Elems(a) == Elems(b) && n <= |a| && n <= |b|
    ensures a[..n] == b[..n]
  {
    if n > 0 {
      var m := n - 1;
      FifoPrefixesAgree(g, a, b, m);
      var x, y := a[m], b[m];
      if x != y {
        NotLater(g, a, b, m);
        NotLater(g, b, a, m);
        StrLeqAntisymmetric(x, y);
        assert false;
      }
      assert a[..n] == a[..m] + [x] && b[..n] == b[..m] + [y];
    }
  }

  /** Where two FIFO orders first differ, the node of the first comes before the node of the second. */
  lemma NotLater(g: map<string, set<string>>, a: seq<string>, b: seq<string>, m: nat)
    requires Placed(g, a) && Placed(g, b) && Fifo(g, a, a) && Elems(a) == Elems(b)
    requires m < |a| && m < |b| && a[..m] == b[..m] && a[m] != b[m]
    ensures Before(g, a[..m], a[m], b[m])
  {
    assert b[m] in Elems(a);
    var j :| 0 <= j < |a| && a[j] == b[m];
    forall i | 0 <= i < m ensures a[i] != b[m] {
      assert a[i] == a[..m][i] == b[..m][i] == b[i];
    }
    assert Before(g, a, a[m], a[j]);
    ReleaseOfPrefix(g, a, m, a[m]);
    ReleaseOfPrefix(g, a, m, b[m]);
  }

  /** The order Kahn's method finds with a FIFO queue is the only one of its kind. */
  lemma FifoIsUnique(g: map<string, set<string>>, a: seq<string>, b: seq<string>)
    requires Placed(g, a) && Placed(g, b) && Fifo(g, a, a) && Fifo(g, b, b)
    requires Elems(a) == g.Keys == Elems(b)
    ensures a == b
  {
    PlacedIsComplete(g, a);
    PlacedIsComplete(g, b);
    FifoPrefixesAgree(g, a, b, |a|);
    assert a == a[..|a|] && b == b[..|b|];
  }

  // ---------------------------------------------------------------- Kahn's method

  /** Forward and reverse adjacency describe one relation. */
  ghost predicate Dual(dependents: map<string, set<string>>, dependencies: map<string, set<string>>) {
    forall u, v :: v in Lookup(dependents, u) <==> u in Lookup(dependencies, v)
  }

  ghost predicate Degrees(g: map<string, set<string>>, done: set<string>, inDegree: map<string, nat>) {
    inDegree.Keys == g.Keys && forall v :: v in g ==> inDegree[v] == |g[v] - done|
  }

  /** What the main loop keeps: the queue holds the ready nodes, in FIFO order behind the placed ones. */
  ghost predicate QueueState(
    g: map<string, set<string>>, inDegree: map<string, nat>, queue: seq<string>, order: seq<string>)
  {
    && Placed(g, order)
    && Degrees(g, Elems(order), inDegree)
    && (forall v :: v in queue <==> Ready(g, Elems(order), v))
    && Distinct(order + queue)
    && Fifo(g, order, order + queue)
  }

  lemma DegreeZero(deps: set<string>, done: set<string>)
    ensures |deps - done| == 0 <==> deps <= done
  {
    if deps <= done {
      assert deps - done == {};
    } else {
      var x := Outsider(deps, done);
      assert x in deps - done;
    }
  }

  /** Placing `u` lowers the degree of exactly the nodes waiting for it, to zero where it was the last. */
  lemma DegreeDrops(deps: set<string>, done: set<string>, u: string)
    requires u !in done
    ensures |deps - (done + {u})| == |deps - done| - (if u in deps then 1 else 0)
    ensures u in deps ==> (|deps - done| == 1 <==> deps <= done + {u})
  {
    if u in deps {
      assert deps - done == (deps - (done + {u})) + {u};
    } else {
      assert deps - done == deps - (done + {u});
    }
    DegreeZero(deps, done + {u});
  }

  /** Decrement the in-degree of every listed successor, collecting those that reach zero. */
  method ReleaseSuccessors(succs: seq<string>, inDegree0: map<string, nat>)
    returns (inDegree: map<string, nat>, released: seq<string>)
    requires Ascending(succs)
    requires forall v :: v in succs && v in inDegree0 ==> inDegree0[v] > 0
    ensures inDegree.Keys == inDegree0.Keys
    ensures forall v :: v in inDegree ==> inDegree[v] + (if v in succs then 1 else 0) == inDegree0[v]
    ensures Ascending(released)
    ensures forall v :: v in released <==> v in succs && v in inDegree0 && inDegree0[v] == 1
  {
    inDegree, released := inDegree0, [];
    for k := 0 to |succs|
      invariant inDegree.Keys == inDegree0.Keys
      invariant forall v :: v in inDegree ==> inDegree[v] + (if v in succs[..k] then 1 else 0) == inDegree0[v]
      invariant Ascending(released)
      invariant forall v :: v in released <==> v in succs[..k] && v in inDegree0 && inDegree0[v] == 1
    {
      var succ := succs[k];
      assert succs[..k + 1] == succs[..k] + [succ];
      forall x | x in succs[..k] ensures StrLess(x, succ) {
        var i :| 0 <= i < k && succs[i] == x;
      }
      if succ in inDegree {
        inDegree := inDegree[succ := inDegree[succ] - 1];
        if inDegree[succ] == 0 {
          released := released + [succ];
        }
      }
    }
    assert succs[..|succs|] == succs;
  }

  lemma NextDegrees(
    g: map<string, set<string>>, order: seq<string>, u: string, inDegree0: map<string, nat>, inDegree: map<string, nat>)
    requires Degrees(g, Elems(order), inDegree0) && u !in Elems(order)
    requires inDegree.Keys == inDegree0.Keys
    requires forall v :: v in g ==> inDegree[v] + (if u in g[v] then 1 else 0) == inDegree0[v]
    ensures Degrees(g, Elems(order + [u]), inDegree)
  {
    DistinctSnoc(order, u);
    forall v | v in g ensures inDegree[v] == |g[v] - Elems(order + [u])| {
      DegreeDrops(g[v], Elems(order), u);
    }
  }

  /** The nodes whose last dependency is `u` are exactly those that become ready with it. */
  lemma NextReady(
    g: map<string, set<string>>, order: seq<string>, queue: seq<string>, released: seq<string>)
    requires Placed(g, order) && queue != [] && Distinct(order + queue)
    requires forall v :: v in queue <==> Ready(g, Elems(order), v)
    requires forall v :: v in released <==> v in g && queue[0] in g[v] && |g[v] - Elems(order)| == 1
    ensures forall v :: v in queue[1..] + released <==> Ready(g, Elems(order + [queue[0]]), v)
    ensures forall v :: v in released ==> v !in order + queue
  {
    var u, done := queue[0], Elems(order);
    assert u in queue;
    DistinctSnoc(order, u);
    assert queue == [u] + queue[1..];
    assert (order + queue)[|order|] == u;
    assert u !in queue[1..] by {
      assert forall j :: 0 < j < |queue| ==> (order + queue)[|order| + j] == queue[j];
    }
    forall v | v in g ensures v in released <==> u in g[v] && g[v] <= done + {u} {
      DegreeDrops(g[v], done, u);
    }
    forall v | v in g && v in done ensures u !in g[v] {
      PlacedDependencies(g, order, v);
    }
    forall v ensures v in queue[1..] + released <==> Ready(g, done + {u}, v) {
      assert v in queue[1..] + released <==> v in queue[1..] || v in released;
      assert v in queue <==> v == u || v in queue[1..];
    }
  }

  /** Fresh nodes, released together by the node just placed, go to the back of the queue in key order. */
  lemma NextFifo(g: map<string, set<string>>, order: seq<string>, u: string, all: seq<string>, released: seq<string>)
    requires Fifo(g, order, all) && forall v :: v in all ==> v in g && g[v] <= Elems(order)
    requires Ascending(released)
    requires forall v :: v in released ==> v in g && !(g[v] <= Elems(order))
    ensures Fifo(g, order + [u], all + released)
  {
    var next, more := order + [u], all + released;
    assert next[..|order|] == order;
    forall v | v in released ensures v in g && Release(g, next, v) == |next| {
    }
    forall v | v in all ensures v in g && Release(g, next, v) == Release(g, order, v) <= |order| {
      ReleaseStable(g, order, u, v);
      ReleaseBound(g, order, v);
    }
    forall i | 0 <= i < |more| ensures more[i] in g {
      assert more[i] in all || more[i] in released;
    }
    forall i, j | 0 <= i < j < |more| ensures Before(g, next, more[i], more[j]) {
      if j < |all| {
        assert all[i] in all && all[j] in all && Before(g, order, all[i], all[j]);
      } else if i < |all| {
        assert all[i] in all && released[j - |all|] in released;
      } else {
        assert released[i - |all|] in released && released[j - |all|] in released;
      }
    }
  }

  lemma PlaceFront(
    g: map<string, set<string>>, inDegree0: map<string, nat>, inDegree: map<string, nat>,
    queue: seq<string>, released: seq<string>, order: seq<string>)
    requires QueueState(g, inDegree0, queue, order) && queue != []
    requires inDegree.Keys == inDegree0.Keys
    requires forall v :: v in g ==> inDegree[v] + (if queue[0] in g[v] then 1 else 0) == inDegree0[v]
    requires Ascending(released)
    requires forall v :: v in released <==> v in g && queue[0] in g[v] && |g[v] - Elems(order)| == 1
    ensures QueueState(g, inDegree, queue[1..] + released, order + [queue[0]])
    ensures |order| + 1 <= |g|
  {
    var u, all := queue[0], order + queue;
    assert u in queue && Ready(g, Elems(order), u);
    PlacedSnoc(g, order, u);
    NextDegrees(g, order, u, inDegree0, inDegree);
    NextReady(g, order, queue, released);
    Regroup(order, queue, released);
    AscendingIsDistinct(released);
    DistinctConcat(all, released);
    NextReleases(g, order, queue, released);
    NextFifo(g, order, u, all, released);
  }

  lemma Regroup(order: seq<string>, queue: seq<string>, released: seq<string>)
    requires queue != []
    ensures order + [queue[0]] + (queue[1..] + released) == order + queue + released
  {
    assert queue == [queue[0]] + queue[1..];
  }

  lemma NextReleases(g: map<string, set<string>>, order: seq<string>, queue: seq<string>, released: seq<string>)
    requires Placed(g, order) && queue != [] && queue[0] !in Elems(order)
    requires forall v :: v in queue <==> Ready(g, Elems(order), v)
    requires forall v :: v in released <==> v in g && queue[0] in g[v] && |g[v] - Elems(order)| == 1
    ensures forall v :: v in order + queue ==> v in g && g[v] <= Elems(order)
    ensures forall v :: v in released ==> v in g && !(g[v] <= Elems(order))
  {
    forall v | v in order + queue ensures v in g && g[v] <= Elems(order) {
      if v in order {
        PlacedDependencies(g, order, v);
      } else {
        assert v in queue;
      }
    }
    forall v | v in released ensures !(g[v] <= Elems(order)) {
      DegreeZero(g[v], Elems(order));
    }
  }

  lemma AscendingIsDistinct(s: seq<string>)
    requires Ascending(s)
    ensures Distinct(s)
  {
  }

  /** What a call of the sort may return. */
  ghost predicate KahnOutcome(g: map<string, set<string>>, r: Result<seq<string>>) {
    match r
    case Ok(order) =>
      Acyclic(g) && Closed(g) && Placed(g, order) && Elems(order) == g.Keys && Fifo(g, order, order)
    case Err(e) =>
      e == CyclicDAG && !(Acyclic(g) && Closed(g))
  }

  ghost function Dependencies(keys: set<string>, dependencies: map<string, set<string>>)
    : (g: map<string, set<string>>)
    ensures g.Keys == keys
  {
    map k | k in keys :: Lookup(dependencies, k)
  }

  lemma DualAt(keys: set<string>, dependents: map<string, set<string>>, dependencies: map<string, set<string>>, u: string)
    requires Dual(dependents, dependencies)
    ensures var g := Dependencies(keys, dependencies);
            forall v :: v in g ==> (v in Lookup(dependents, u) <==> u in g[v])
  {
  }

  lemma InitialDegrees(g: map<string, set<string>>, inDegree: map<string, nat>)
    requires inDegree.Keys == g.Keys && forall v :: v in g ==> inDegree[v] == |g[v]|
    ensures Degrees(g, {}, inDegree)
  {
    assert forall v :: v in g ==> g[v] - {} == g[v];
  }

  lemma InitialFifo(g: map<string, set<string>>, queue: seq<string>)
    requires Ascending(queue) && Elems(queue) <= g.Keys
    ensures Fifo(g, [], queue)
  {
    forall i | 0 <= i < |queue| ensures queue[i] in g {
      assert queue[i] in Elems(queue);
    }
  }

  lemma InitialQueue(g: map<string, set<string>>, inDegree: map<string, nat>, queue: seq<string>)
    requires Degrees(g, {}, inDegree) && Ascending(queue)
    requires Elems(queue) == set v | v in inDegree && inDegree[v] == 0
    ensures QueueState(g, inDegree, queue, [])
  {
    assert Elems<string>([]) == {};
    assert [] + queue == queue;
    AscendingIsDistinct(queue);
    forall v ensures v in queue <==> Ready(g, {}, v) {
      assert v in queue <==> v in Elems(queue);
      if v in g {
        DegreeZero(g[v], {});
      }
    }
    InitialFifo(g, queue);
  }

  lemma EmptyQueueDecides(g: map<string, set<string>>, inDegree: map<string, nat>, order: seq<string>)
    requires QueueState(g, inDegree, [], order)
    ensures KahnOutcome(g, if |order| != |g| then Err(CyclicDAG) else Ok(order))
  {
    StuckDecidesCycles(g, order);
    PlacedIsComplete(g, order);
    assert order + [] == order;
  }

  /** One round: the front of the queue joins the order and its successors are released. */
  method PlaceNext(
    ghost g: map<string, set<string>>, dependents: map<string, set<string>>,
    inDegree0: map<string, nat>, queue0: seq<string>, order0: seq<string>)
    returns (inDegree: map<string, nat>, queue: seq<string>, order: seq<string>)
    requires QueueState(g, inDegree0, queue0, order0) && queue0 != []
    requires forall v :: v in g ==> (v in Lookup(dependents, queue0[0]) <==> queue0[0] in g[v])
    ensures QueueState(g, inDegree, queue, order)
    ensures |order| == |order0| + 1 <= |g|
  {
    var node := queue0[0];
    assert node in queue0;
    var succs := SortedKeys(Lookup(dependents, node));
    assert forall v :: v in succs <==> v in Elems(succs);
    WaitingHavePositiveDegree(g, inDegree0, order0, node);
    var released;
    inDegree, released := ReleaseSuccessors(succs, inDegree0);
    PlaceFront(g, inDegree0, inDegree, queue0, released, order0);
    order, queue := order0 + [node], queue0[1..] + released;
  }

  method KahnSort(keys: set<string>, dependents: map<string, set<string>>, dependencies: map<string, set<string>>)
    returns (r: Result<seq<string>>)
    requires Dual(dependents, dependencies)
    ensures KahnOutcome(Dependencies(keys, dependencies), r)
  {
    ghost var g := Dependencies(keys, dependencies);
    var inDegree: map<string, nat> := map k | k in keys :: |Lookup(dependencies, k)|;
    var queue := SortedKeys(set v | v in inDegree.Keys && inDegree[v] == 0);
    var order: seq<string> := [];
    InitialDegrees(g, inDegree);
    InitialQueue(g, inDegree, queue);
    while queue != []
      invariant QueueState(g, inDegree, queue, order)
      decreases |g| - |order|
    {
      DualAt(keys, dependents, dependencies, queue[0]);
      inDegree, queue, order := PlaceNext(g, dependents, inDegree, queue, order);
    }
    EmptyQueueDecides(g, inDegree, order);
    if |order| != |keys| {
      return Err(CyclicDAG);
    }
    return Ok(order);
  }

  lemma WaitingHavePositiveDegree(g: map<string, set<string>>, inDegree: map<string, nat>, order: seq<string>, u: string)
    requires Degrees(g, Elems(order), inDegree) && u !in Elems(order)
    ensures forall v :: v in g && u in g[v] ==> inDegree[v] > 0
  {
    forall v | v in g && u in g[v] ensures inDegree[v] > 0 {
      DegreeZero(g[v], Elems(order));
    }
  }

  // ---------------------------------------------------------------- loading

  /** Adjacency maps agree with an edge list, read as sets. */
  ghost predicate Adjacency(
    edges: seq<(string, string)>, dependents: map<string, set<string>>, dependencies: map<string, set<string>>)
  {
    forall k :: Lookup(dependents, k) == Sinks(edges, k) && Lookup(dependencies, k) == Sources(edges, k)
  }

  lemma AddEdge(edges: seq<(string, string)>, e: (string, string), k: string)
    ensures Sources(edges + [e], k) == Sources(edges, k) + (if e.1 == k then {e.0} else {})
    ensures Sinks(edges + [e], k) == Sinks(edges, k) + (if e.0 == k then {e.1} else {})
  {
    assert forall x :: x in edges + [e] <==> x in edges || x == e;
  }

  lemma AdjacencyNext(
    edges: seq<(string, string)>, e: (string, string),
    dependents: map<string, set<string>>, dependencies: map<string, set<string>>)
    requires Adjacency(edges, dependents, dependencies)
    ensures Adjacency(edges + [e], dependents[e.0 := Lookup(dependents, e.0) + {e.1}],
                      dependencies[e.1 := Lookup(dependencies, e.1) + {e.0}])
  {
    forall k
      ensures Lookup(dependents[e.0 := Lookup(dependents, e.0) + {e.1}], k) == Sinks(edges + [e], k)
      ensures Lookup(dependencies[e.1 := Lookup(dependencies, e.1) + {e.0}], k) == Sources(edges + [e], k)
    {
      AddEdge(edges, e, k);
      assert Lookup(dependents, k) == Sinks(edges, k) && Lookup(dependencies, k) == Sources(edges, k);
    }
  }

  lemma AdjacencyIsDual(
    edges: seq<(string, string)>, dependents: map<string, set<string>>, dependencies: map<string, set<string>>)
    requires Adjacency(edges, dependents, dependencies)
    ensures Dual(dependents, dependencies)
  {
    forall u, v ensures v in Lookup(dependents, u) <==> u in Lookup(dependencies, v) {
      assert v in Sinks(edges, u) <==> (u, v) in edges;
      assert u in Sources(edges, v) <==> (u, v) in edges;
    }
  }

  method BuildAdjacency(dag: TaskDag)
    returns (dependents: map<string, set<string>>, dependencies: map<string, set<string>>)
    ensures Adjacency(dag.edges, dependents, dependencies)
    ensures Dual(dependents, dependencies)
    ensures Dependencies(dag.tasks.Keys, dependencies) == DagGraph(dag)
  {
    dependents, dependencies := map k | k in dag.tasks.Keys :: {}, map k | k in dag.tasks.Keys :: {};
    for j := 0 to |dag.edges|
      invariant Adjacency(dag.edges[..j], dependents, dependencies)
    {
      var e := dag.edges[j];
      assert dag.edges[..j + 1] == dag.edges[..j] + [e];
      AdjacencyNext(dag.edges[..j], e, dependents, dependencies);
      dependents := dependents[e.0 := Lookup(dependents, e.0) + {e.1}];
      dependencies := dependencies[e.1 := Lookup(dependencies, e.1) + {e.0}];
    }
    assert dag.edges[..|dag.edges|] == dag.edges;
    AdjacencyIsDual(dag.edges, dependents, dependencies);
  }

  /** A topological order of the listed keys; it exists exactly for an acyclic DAG without unlisted sources. */
  method TopologicalSort(dag: TaskDag) returns (r: Result<seq<string>>)
    ensures KahnOutcome(DagGraph(dag), r)
  {
    var dependents, dependencies := BuildAdjacency(dag);
    r := KahnSort(dag.tasks.Keys, dependents, dependencies);
  }

  /** The order found does not depend on the order of map iteration or of the edge list. */
  lemma OrderIsDetermined(d: TaskDag, e: TaskDag, r: Result<seq<string>>, q: Result<seq<string>>)
    requires d.tasks.Keys == e.tasks.Keys && Elems(d.edges) == Elems(e.edges)
    requires KahnOutcome(DagGraph(d), r) && KahnOutcome(DagGraph(e), q)
    ensures r == q
  {
    forall k | k in d.tasks ensures Sources(d.edges, k) == Sources(e.edges, k) {
      assert forall x :: x in d.edges <==> x in Elems(d.edges);
      assert forall x :: x in e.edges <==> x in Elems(e.edges);
    }
    assert DagGraph(d) == DagGraph(e);
    if r.Ok? {
      FifoIsUnique(DagGraph(d), r.value, q.value);
    }
  }

  // ---------------------------------------------------------------- the ready set

  ghost predicate DistinctTaskIds(tasks: map<string, Task>) {
    forall j, k :: j in tasks && k in tasks && tasks[j].id == tasks[k].id ==> j == k
  }

  /** Every known id names a listed key with that id, and every listed task's id is known. */
  ghost predicate IdIndex(tasks: map<string, Task>, idToKey: map<TaskId, string>) {
    && (forall k :: k in tasks ==> tasks[k].id in idToKey)
    && (forall i :: i in idToKey ==> idToKey[i] in tasks && tasks[idToKey[i]].id == i)
  }

  function CompletedKeys(idToKey: map<TaskId, string>, completed: set<TaskId>): set<string> {
    set i | i in completed && i in idToKey :: idToKey[i]
  }

  ghost predicate KeyIsReady(
    tasks: map<string, Task>, dependencies: map<string, set<string>>, idToKey: map<TaskId, string>,
    completed: set<TaskId>, k: string)
  {
    k in tasks && tasks[k].id !in completed && Lookup(dependencies, k) <= CompletedKeys(idToKey, completed)
  }

  /** With distinct ids, a key is completed exactly when its task is. */
  lemma CompletedKeysExactly(tasks: map<string, Task>, idToKey: map<TaskId, string>, completed: set<TaskId>, k: string)
    requires DistinctTaskIds(tasks) && IdIndex(tasks, idToKey)
    ensures k in CompletedKeys(idToKey, completed) <==> k in tasks && tasks[k].id in completed
  {
    if k in tasks && tasks[k].id in completed {
      assert idToKey[tasks[k].id] == k;
    }
  }

  /** Progress: whatever set of tasks is completed, if one is missing then some task is ready. */
  lemma ReadyUnlessDone(
    dag: TaskDag, dependencies: map<string, set<string>>, idToKey: map<TaskId, string>,
    completed: set<TaskId>, missing: string) returns (k: string)
    requires Acyclic(DagGraph(dag)) && Closed(DagGraph(dag))
    requires DistinctTaskIds(dag.tasks) && IdIndex(dag.tasks, idToKey)
    requires Dependencies(dag.tasks.Keys, dependencies) == DagGraph(dag)
    requires missing in dag.tasks && dag.tasks[missing].id !in completed
    ensures KeyIsReady(dag.tasks, dependencies, idToKey, completed, k)
  {
    var g := DagGraph(dag);
    var open := set x | x in dag.tasks && dag.tasks[x].id !in completed;
    assert missing in open;
    k := MinimalNode(g, open);
    assert Lookup(dependencies, k) == Dependencies(dag.tasks.Keys, dependencies)[k] == g[k];
    forall d | d in g[k] ensures d in CompletedKeys(idToKey, completed) {
      assert d in g && d !in g[k] * open;
      CompletedKeysExactly(dag.tasks, idToKey, completed, d);
    }
  }

  /** Highest priority first. */
  ghost predicate ByPriority(s: seq<Task>) {
    forall i, j :: 0 <= i < j < |s| ==> s[i].priority.Rank() >= s[j].priority.Rank()
  }

  /** Insert behind the tasks of at least the same priority. */
  function InsertByPriority(s: seq<Task>, t: Task): seq<Task> {
    if s == [] || s[|s| - 1].priority.Rank() >= t.priority.Rank() then s + [t]
    else InsertByPriority(s[..|s| - 1], t) + [s[|s| - 1]]
  }

  lemma ByPrioritySnoc(s: seq<Task>, x: Task)
    requires ByPriority(s) && forall y :: y in s ==> y.priority.Rank() >= x.priority.Rank()
    ensures ByPriority(s + [x])
  {
  }

  lemma {:induction false} InsertAddsOne(s: seq<Task>, t: Task)
    ensures multiset(InsertByPriority(s, t)) == multiset(s) + multiset{t}
  {
    if s != [] {
      var n := |s| - 1;
      InsertAddsOne(s[..n], t);
      assert s == s[..n] + [s[n]];
    }
  }

  lemma InsertMembers(s: seq<Task>, t: Task, y: Task)
    requires y in InsertByPriority(s, t)
    ensures y == t || y in s
  {
    InsertAddsOne(s, t);
    assert y in multiset(InsertByPriority(s, t));
  }

  lemma {:induction false} InsertKeepsOrder(s: seq<Task>, t: Task)
    requires ByPriority(s)
    ensures ByPriority(InsertByPriority(s, t))
  {
    if s == [] || s[|s| - 1].priority.Rank() >= t.priority.Rank() {
      forall y | y in s ensures y.priority.Rank() >= t.priority.Rank() {
        var i :| 0 <= i < |s| && s[i] == y;
      }
      ByPrioritySnoc(s, t);
    } else {
      var n := |s| - 1;
      var r := InsertByPriority(s[..n], t);
      InsertKeepsOrder(s[..n], t);
      forall y | y in r ensures y.priority.Rank() >= s[n].priority.Rank() {
        InsertMembers(s[..n], t, y);
      }
      ByPrioritySnoc(r, s[n]);
    }
  }

  /** The stable sort of the collected tasks. */
  method SortByPriority(s: seq<Task>) returns (r: seq<Task>)
    ensures multiset(r) == multiset(s) && ByPriority(r)
  {
    r := [];
    for k := 0 to |s|
      invariant multiset(r) == multiset(s[..k]) && ByPriority(r)
    {
      assert s[..k + 1] == s[..k] + [s[k]];
      InsertKeepsOrder(r, s[k]);
      InsertAddsOne(r, s[k]);
      r := InsertByPriority(r, s[k]);
    }
    assert s[..|s|] == s;
  }

  class Scheduler {
    var dagTasks: map<string, Task>
    var dependents: map<string, set<string>>
    var dependencies: map<string, set<string>>
    var idToKey: map<TaskId, string>

    constructor ()
      ensures dagTasks == map[] && dependents == map[] && dependencies == map[] && idToKey == map[]
    {
      dagTasks, dependents, dependencies, idToKey := map[], map[], map[], map[];
    }

    /** The scheduler holds exactly this DAG. */
    ghost predicate Holds(dag: TaskDag)
      reads this
    {
      && dagTasks == dag.tasks
      && Adjacency(dag.edges, dependents, dependencies)
      && Dependencies(dag.tasks.Keys, dependencies) == DagGraph(dag)
      && IdIndex(dagTasks, idToKey)
    }

    /**
     Loading fails exactly when some listed key is on a cycle or follows an unlisted key;
     it then leaves the scheduler as it was.
     */
    method LoadDag(dag: TaskDag) returns (r: Result<()>)
      modifies this
      ensures r.Ok? <==> Acyclic(DagGraph(dag)) && Closed(DagGraph(dag))
      ensures r.Ok? ==> Holds(dag)
      ensures r.Err? ==> r.error == CyclicDAG && unchanged(this)
    {
      var forward, backward := BuildAdjacency(dag);
      var sorted := KahnSort(dag.tasks.Keys, forward, backward);
      if sorted.Err? {
        return Err(sorted.error);
      }
      var index := IndexIds(dag.tasks);
      dagTasks, dependents, dependencies, idToKey := dag.tasks, forward, backward, index;
      return Ok(());
    }

    /**
     The tasks that may run next: `keys` lists each ready key once, and the result holds
     their tasks, by descending priority.
     */
    method ReadyTasks(completed: set<TaskId>) returns (ready: seq<Task>, ghost keys: seq<string>)
      ensures Distinct(keys)
      ensures forall k :: k in keys <==> KeyIsReady(dagTasks, dependencies, idToKey, completed, k)
      ensures multiset(ready) == multiset(TasksOf(dagTasks, keys)) && ByPriority(ready)
    {
      var found: seq<Task> := [];
      keys := [];
      var rest := dagTasks.Keys;
      var finished := CompletedKeys(idToKey, completed);
      while rest != {}
        invariant rest <= dagTasks.Keys && Distinct(keys)
        invariant forall k :: k in keys <==> k !in rest && KeyIsReady(dagTasks, dependencies, idToKey, completed, k)
        invariant found == TasksOf(dagTasks, keys)
      {
        var k := AnyOf(rest);
        rest := rest - {k};
        if dagTasks[k].id !in completed && Lookup(dependencies, k) <= finished {
          DistinctSnoc(keys, k);
          assert (keys + [k])[..|keys|] == keys;
          found, keys := found + [dagTasks[k]], keys + [k];
        }
      }
      ready := SortByPriority(found);
    }
  }

  ghost function TasksOf(tasks: map<string, Task>, keys: seq<string>): seq<Task> {
    if keys == [] then []
    else
      var n := |keys| - 1;
      TasksOf(tasks, keys[..n]) + if keys[n] in tasks then [tasks[keys[n]]] else []
  }

  /** Map every task id back to a key; a shared id keeps whichever key is visited last. */
  method IndexIds(tasks: map<string, Task>) returns (index: map<TaskId, string>)
    ensures IdIndex(tasks, index)
  {
    index := map[];
    var rest := tasks.Keys;
    while rest != {}
      invariant rest <= tasks.Keys
      invariant forall k :: k in tasks && k !in rest ==> tasks[k].id in index
      invariant forall i :: i in index ==> index[i] in tasks && tasks[index[i]].id == i
    {
      var k := AnyOf(rest);
      rest := rest - {k};
      index := index[tasks[k].id := k];
    }
  }

  // ---------------------------------------------------------------- the order in plain terms

  /** Every edge to a listed key leads forward in the order. */
  lemma EdgesLeadForward(dag: TaskDag, order: seq<string>, from: string, to: string) returns (i: nat, j: nat)
    requires KahnOutcome(DagGraph(dag), Ok(order)) && (from, to) in dag.edges && to in dag.tasks
    ensures i < j < |order| && order[i] == from && order[j] == to
  {
    assert (from, to).1 == to;
    assert from in DagGraph(dag)[to];
    assert to in Elems(order);
    j :| 0 <= j < |order| && order[j] == to;
    assert from in Elems(order[..j]);
    i :| 0 <= i < j && order[i] == from;
  }

  /** A closed walk against the edges, over listed keys. */
  ghost predicate EdgeCycle(dag: TaskDag, p: seq<string>) {
    && |p| > 1 && p[0] == p[|p| - 1]
    && forall i, j :: 0 <= i && j == i + 1 && j < |p| ==> p[i] in dag.tasks && (p[j], p[i]) in dag.edges
  }

  /** The sort fails exactly if an edge leads from an unlisted to a listed key, or edges run in a circle. */
  lemma RejectedExactly(dag: TaskDag, r: Result<seq<string>>)
    requires KahnOutcome(DagGraph(dag), r)
    ensures r.Err? <==> (exists e :: e in dag.edges && e.0 !in dag.tasks && e.1 in dag.tasks)
                        || exists p :: EdgeCycle(dag, p)
  {
    ClosedExactly(dag);
    AcyclicExactly(dag);
  }

  lemma ClosedExactly(dag: TaskDag)
    ensures !Closed(DagGraph(dag)) <==> exists e :: e in dag.edges && e.0 !in dag.tasks && e.1 in dag.tasks
  {
    var g := DagGraph(dag);
    if e :| e in dag.edges && e.0 !in dag.tasks && e.1 in dag.tasks {
      assert e.0 in g[e.1];
    } else {
      forall v, d | v in g && d in g[v] ensures d in g {
        var e :| e in dag.edges && e.1 == v && e.0 == d;
      }
    }
  }

  lemma AcyclicExactly(dag: TaskDag)
    ensures !Acyclic(DagGraph(dag)) <==> exists p :: EdgeCycle(dag, p)
  {
    var g := DagGraph(dag);
    if p :| EdgeCycle(dag, p) {
      CycleExactly(dag, p, p[0]);
      assert Ancestor(g, p[0], p[0]);
    } else {
      forall v, p ensures !PathFromTo(g, p, v, v) {
        CycleExactly(dag, p, v);
      }
    }
  }

  lemma CycleExactly(dag: TaskDag, p: seq<string>, v: string)
    ensures PathFromTo(DagGraph(dag), p, v, v) <==> EdgeCycle(dag, p) && p[0] == v
  {
    forall i, j | 0 <= i && j == i + 1 && j < |p|
      ensures Edge(DagGraph(dag), p[i], p[j]) <==> p[i] in dag.tasks && (p[j], p[i]) in dag.edges
    {
      EdgeExactly(dag, p[i], p[j]);
    }
  }

  lemma EdgeExactly(dag: TaskDag, v: string, d: string)
    ensures Edge(DagGraph(dag), v, d) <==> v in dag.tasks && (d, v) in dag.edges
  {
    if v in dag.tasks && (d, v) in dag.edges {
      assert (d, v).1 == v && (d, v).0 == d;
    }
  }

  /** Of the first `n` keys placed, the ones `k` waits for are all there. */
  ghost predicate ReadyAfter(dag: TaskDag, order: seq<string>, n: nat, k: string)
    requires n <= |order|
  {
    forall e :: e in dag.edges && e.1 == k ==> e.0 in order[..n]
  }

  lemma {:induction false} ReleaseExactly(g: map<string, set<string>>, order: seq<string>, v: string, n: nat)
    requires v in g && n <= |order| && g[v] <= Elems(order)
    ensures Release(g, order, v) <= n <==> g[v] <= Elems(order[..n])
  {
    if order != [] {
      var m := |order| - 1;
      var earlier := order[..m];
      if n == |order| {
        ReleaseBound(g, order, v);
        assert order[..n] == order;
      } else {
        assert order[..n] == earlier[..n];
        if g[v] <= Elems(earlier) {
          ReleaseExactly(g, earlier, v, n);
        } else {
          assert Elems(earlier[..n]) <= Elems(earlier);
        }
      }
    }
  }

  lemma ReadyAfterExactly(dag: TaskDag, order: seq<string>, n: nat, k: string)
    requires n <= |order| && k in dag.tasks
    ensures ReadyAfter(dag, order, n, k) <==> DagGraph(dag)[k] <= Elems(order[..n])
  {
    var g := DagGraph(dag);
    if ReadyAfter(dag, order, n, k) {
      forall d | d in g[k] ensures d in Elems(order[..n]) {
        var e :| e in dag.edges && e.1 == k && e.0 == d;
      }
    }
    if g[k] <= Elems(order[..n]) {
      forall e | e in dag.edges && e.1 == k ensures e.0 in order[..n] {
        assert e.0 in g[k];
      }
    }
  }

  /**
   First ready, first placed: of two keys, the one placed first was ready at a point where the other was
   not, or both became ready together and its name comes first.
   */
  lemma FirstReadyFirst(dag: TaskDag, order: seq<string>, i: nat, j: nat)
    requires KahnOutcome(DagGraph(dag), Ok(order)) && i < j < |order|
    ensures || (exists n: nat :: n <= |order| && ReadyAfter(dag, order, n, order[i]) && !ReadyAfter(dag, order, n, order[j]))
            || (&& (forall n: nat :: n <= |order| ==> (ReadyAfter(dag, order, n, order[i]) <==> ReadyAfter(dag, order, n, order[j])))
                && (order[i] <= order[j] || exists k: nat :: SmallerAt(order[i], order[j], k)))
  {
    var g, a, b := DagGraph(dag), order[i], order[j];
    assert Before(g, order, a, b);
    var ra := Release(g, order, a);
    ReleaseBound(g, order, a);
    forall n: nat | n <= |order|
      ensures ReadyAfter(dag, order, n, a) <==> Release(g, order, a) <= n
      ensures ReadyAfter(dag, order, n, b) <==> Release(g, order, b) <= n
    {
      PlacedNeeds(dag, order, a, n);
      PlacedNeeds(dag, order, b, n);
    }
    if ra < Release(g, order, b) {
      assert ReadyAfter(dag, order, ra, a) && !ReadyAfter(dag, order, ra, b);
    }
    StrLeqExactly(a, b);
  }

  lemma PlacedNeeds(dag: TaskDag, order: seq<string>, k: string, n: nat)
    requires KahnOutcome(DagGraph(dag), Ok(order)) && k in order && n <= |order|
    ensures k in dag.tasks
    ensures ReadyAfter(dag, order, n, k) <==> Release(DagGraph(dag), order, k) <= n
  {
    assert k in Elems(order);
    ReleaseExactly(DagGraph(dag), order, k, n);
    ReadyAfterExactly(dag, order, n, k);
  }

  /** Higher priorities first: critical, high, normal, low, background. */
  lemma UrgentFirst(ready: seq<Task>, i: nat, j: nat)
    requires ByPriority(ready) && i < j < |ready|
    ensures ready[i].priority == High ==> ready[j].priority != Critical
    ensures ready[i].priority == Normal ==> ready[j].priority != Critical && ready[j].priority != High
    ensures ready[i].priority == Low ==> ready[j].priority == Low || ready[j].priority == Background
    ensures ready[i].priority == Background ==> ready[j].priority == Background
  {
    assert ready[i].priority.Rank() >= ready[j].priority.Rank();
  }

  /** With distinct ids a key is ready exactly if its task is not completed and all tasks before it are. */
  lemma ReadyExactly(
    dag: TaskDag, dependencies: map<string, set<string>>, idToKey: map<TaskId, string>, completed: set<TaskId>, k: string)
    requires DistinctTaskIds(dag.tasks) && IdIndex(dag.tasks, idToKey)
    requires Dependencies(dag.tasks.Keys, dependencies) == DagGraph(dag)
    ensures KeyIsReady(dag.tasks, dependencies, idToKey, completed, k)
            <==> && k in dag.tasks && dag.tasks[k].id !in completed
                 && forall e :: e in dag.edges && e.1 == k ==> e.0 in dag.tasks && dag.tasks[e.0].id in completed
  {
    forall d ensures d in CompletedKeys(idToKey, completed) <==> d in dag.tasks && dag.tasks[d].id in completed {
      CompletedKeysExactly(dag.tasks, idToKey, completed, d);
    }
    if k in dag.tasks {
      SourcesCompleted(dag, CompletedKeys(idToKey, completed), k);
      assert Dependencies(dag.tasks.Keys, dependencies)[k] == Sources(dag.edges, k);
    }
  }

  lemma SourcesCompleted(dag: TaskDag, done: set<string>, k: string)
    ensures Sources(dag.edges, k) <= done <==> forall e :: e in dag.edges && e.1 == k ==> e.0 in done
  {
    if Sources(dag.edges, k) <= done {
      forall e | e in dag.edges && e.1 == k ensures e.0 in done {
        assert e.0 in Sources(dag.edges, k);
      }
    }
  }
}
