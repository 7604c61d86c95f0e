/**
 Topological sort of a task list: Kahn's method with a max-heap over (priority, id).
 */
module TaskSort {
  import opened Graphs
  import opened Tasks

  // ---------------------------------------------------------------- meaning

  function Ids(tasks: seq<Task>): set<TaskId> {
    set k | 0 <= k < |tasks| :: tasks[k].id
  }

  ghost predicate DistinctIds(tasks: seq<Task>) {
    forall i, j :: 0 <= i < j < |tasks| ==> tasks[i].id != tasks[j].id
  }

  ghost predicate DependsOn(tasks: seq<Task>, v: TaskId, d: TaskId) {
    exists k :: 0 <= k < |tasks| && tasks[k].id == v && d in tasks[k].dependencies
  }

  /** The dependency graph restricted to the listed ids. */
  ghost function ListedGraph(tasks: seq<Task>): (g: map<TaskId, set<TaskId>>)
    ensures g.Keys == Ids(tasks)
  {
    map v | v in Ids(tasks) :: set d | d in Ids(tasks) && DependsOn(tasks, v, d)
  }

  /** Rank of every listed id; a later entry for the same id overrides an earlier one. */
  function Ranks(tasks: seq<Task>): (m: map<TaskId, nat>)
    ensures m.Keys == Ids(tasks)
  {
    if tasks == [] then map[]
    else
      var n := |tasks| - 1;
      assert Ids(tasks) == Ids(tasks[..n]) + {tasks[n].id};
      Ranks(tasks[..n])[tasks[n].id := tasks[n].priority.Rank()]
  }

  /** The ordering of heap entries: priority first, then id. */
  predicate EntryLeq(a: (nat, TaskId), b: (nat, TaskId)) {
    a.0 < b.0 || (a.0 == b.0 && a.1 <= b.1)
  }

  /** Every position holds the greatest (priority, id) among the tasks that could stand there. */
  ghost predicate Greedy(g: map<TaskId, set<TaskId>>, rank: map<TaskId, nat>, order: seq<TaskId>)
    requires g.Keys <= rank.Keys
  {
    && Placed(g, order)
    && forall i, v :: 0 <= i < |order| && Ready(g, Elems(order[..i]), v)
                      ==> EntryLeq((rank[v], v), (rank[order[i]], order[i]))
  }

  /** What a call of the sort may return. */
  ghost predicate SortOutcome(tasks: seq<Task>, r: Result<seq<TaskId>>) {
    var g := ListedGraph(tasks);
    match r
    case Ok(order) =>
      DistinctIds(tasks) && Acyclic(g) && Elems(order) == Ids(tasks) && Greedy(g, Ranks(tasks), order)
    case Err(e) =>
      e == CyclicDAG && !(DistinctIds(tasks) && Acyclic(g))
  }

  // ---------------------------------------------------------------- uniqueness

  /** Two greedy orders of one graph, covering it, agree on ever longer prefixes. */
  lemma {:induction false} GreedyPrefixesAgree(
    g: map<TaskId, set<TaskId>>, rank: map<TaskId, nat>, a: seq<TaskId>, b: seq<TaskId>, n: nat)
    requires g.Keys <= rank.Keys
    requires Greedy(g, rank, a) && Greedy(g, rank, b) && n <= |a| && n <= |b|
    ensures a[..n] == b[..n]
  {
    if n > 0 {
      GreedyPrefixesAgree(g, rank, a, b, n - 1);
      var m := n - 1;
      assert Ready(g, Elems(a[..m]), a[m]);
      assert Ready(g, Elems(b[..m]), b[m]);
      assert a[m] == b[m];
      assert a[..n] == a[..m] + [a[m]] && b[..n] == b[..m] + [b[m]];
    }
  }

  lemma GreedyIsUnique(g: map<TaskId, set<TaskId>>, rank: map<TaskId, nat>, a: seq<TaskId>, b: seq<TaskId>)
    requires g.Keys <= rank.Keys
    requires Greedy(g, rank, a) && Greedy(g, rank, b)
    requires Elems(a) == g.Keys == Elems(b)
    ensures a == b
  {
    PlacedIsComplete(g, a);
    PlacedIsComplete(g, b);
    GreedyPrefixesAgree(g, rank, a, b, |a|);
    assert a == a[..|a|] && b == b[..|b|];
  }

  lemma {:induction false} RankOfTask(tasks: seq<Task>, k: nat)
    requires DistinctIds(tasks) && k < |tasks|
    ensures tasks[k].id in Ids(tasks) && Ranks(tasks)[tasks[k].id] == tasks[k].priority.Rank()
  {
    var n := |tasks| - 1;
    if k < n {
      RankOfTask(tasks[..n], k);
    }
  }

  /** With equal contents, an entry of one list is an entry of the other. */
  lemma SameContents(s: seq<Task>, t: seq<Task>)
    requires multiset(s) == multiset(t)
    ensures forall x :: x in s <==> x in t
    ensures |s| == |t|
  {
    forall x ensures x in s <==> x in t {
      assert x in s <==> x in multiset(s);
      assert x in t <==> x in multiset(t);
    }
    assert |multiset(s)| == |s| && |multiset(t)| == |t|;
  }

  /** The listed ids, in list order. */
  ghost function IdList(s: seq<Task>): seq<TaskId> {
    seq(|s|, i requires 0 <= i < |s| => s[i].id)
  }

  lemma DistinctIdsByContents(s: seq<Task>)
    ensures DistinctIds(s) <==> |Ids(s)| == |s|
    ensures |Ids(s)| <= |s|
  {
    var l := IdList(s);
    DistinctCardinality(l);
    assert forall k :: 0 <= k < |s| ==> l[k] == s[k].id;
    if Distinct(l) {
      forall i, j | 0 <= i < j < |s| ensures s[i].id != s[j].id {
        assert l[i] != l[j];
      }
    }
    forall v ensures v in Elems(l) <==> v in Ids(s) {
      if v in Ids(s) {
        var k :| 0 <= k < |s| && s[k].id == v;
        assert l[k] == v;
      }
    }
    assert Elems(l) == Ids(s);
  }

  lemma IdsMembership(s: seq<Task>)
    ensures Ids(s) == set x | x in s :: x.id
  {
    forall i ensures i in Ids(s) <==> exists x :: x in s && x.id == i {
      if i in Ids(s) {
        var k :| 0 <= k < |s| && s[k].id == i;
        assert s[k] in s;
      }
    }
  }

  lemma DependsOnByContents(s: seq<Task>, v: TaskId, d: TaskId)
    ensures DependsOn(s, v, d) <==> exists x :: x in s && x.id == v && d in x.dependencies
  {
    if DependsOn(s, v, d) {
      var k :| 0 <= k < |s| && s[k].id == v && d in s[k].dependencies;
      assert s[k] in s;
    }
  }

  lemma IdsByContents(s: seq<Task>, t: seq<Task>)
    requires multiset(s) == multiset(t)
    ensures Ids(s) == Ids(t)
    ensures DistinctIds(s) <==> DistinctIds(t)
  {
    SameContents(s, t);
    IdsMembership(s);
    IdsMembership(t);
    DistinctIdsByContents(s);
    DistinctIdsByContents(t);
  }

  /** Equal ids and equal dependencies make one graph. */
  lemma GraphFromDependencies(s: seq<Task>, t: seq<Task>)
    requires Ids(s) == Ids(t) && forall v, d :: DependsOn(s, v, d) <==> DependsOn(t, v, d)
    ensures ListedGraph(s) == ListedGraph(t)
  {
    var g, h := ListedGraph(s), ListedGraph(t);
    forall v | v in Ids(s) ensures g[v] == h[v] {
      assert forall d :: d in g[v] <==> d in Ids(s) && DependsOn(s, v, d);
      assert forall d :: d in h[v] <==> d in Ids(t) && DependsOn(t, v, d);
    }
    assert g.Keys == h.Keys;
  }

  lemma GraphByContents(s: seq<Task>, t: seq<Task>)
    requires multiset(s) == multiset(t)
    ensures ListedGraph(s) == ListedGraph(t)
  {
    IdsByContents(s, t);
    SameContents(s, t);
    forall v, d ensures DependsOn(s, v, d) <==> DependsOn(t, v, d) {
      DependsOnByContents(s, v, d);
      DependsOnByContents(t, v, d);
    }
    GraphFromDependencies(s, t);
  }

  lemma RanksByContents(s: seq<Task>, t: seq<Task>)
    requires multiset(s) == multiset(t) && DistinctIds(s) && DistinctIds(t)
    ensures Ranks(s) == Ranks(t)
  {
    SameContents(s, t);
    IdsByContents(s, t);
    forall v | v in Ids(s) ensures Ranks(s)[v] == Ranks(t)[v] {
      var k :| 0 <= k < |s| && s[k].id == v;
      assert s[k] in t;
      var j :| 0 <= j < |t| && t[j] == s[k];
      RankOfTask(s, k);
      RankOfTask(t, j);
    }
  }

  /** The outcome depends on the tasks listed, not on the order in which they are listed. */
  lemma OutcomeIgnoresListOrder(s: seq<Task>, t: seq<Task>, r: Result<seq<TaskId>>, q: Result<seq<TaskId>>)
    requires multiset(s) == multiset(t)
    requires SortOutcome(s, r) && SortOutcome(t, q)
    ensures r == q
  {
    GraphByContents(s, t);
    IdsByContents(s, t);
    if r.Ok? {
      assert q.Ok?;
      RanksByContents(s, t);
      GreedyIsUnique(ListedGraph(s), Ranks(s), r.value, q.value);
    }
  }

  /** The lists agree task by task, up to repeated and reordered dependency entries. */
  ghost predicate SameUpToRepeats(s: seq<Task>, t: seq<Task>) {
    && |s| == |t|
    && forall k :: 0 <= k < |s| ==>
         s[k].id == t[k].id && s[k].priority == t[k].priority && Elems(s[k].dependencies) == Elems(t[k].dependencies)
  }

  lemma {:induction false} RanksUpToRepeats(s: seq<Task>, t: seq<Task>)
    requires SameUpToRepeats(s, t)
    ensures Ids(s) == Ids(t) && Ranks(s) == Ranks(t)
  {
    if s != [] {
      var n := |s| - 1;
      RanksUpToRepeats(s[..n], t[..n]);
      assert Ids(s) == Ids(s[..n]) + {s[n].id} && Ids(t) == Ids(t[..n]) + {t[n].id};
    }
  }

  lemma DependsUpToRepeats(s: seq<Task>, t: seq<Task>, v: TaskId, d: TaskId)
    requires SameUpToRepeats(s, t) && DependsOn(s, v, d)
    ensures DependsOn(t, v, d)
  {
    var k :| 0 <= k < |s| && s[k].id == v && d in s[k].dependencies;
    assert d in Elems(t[k].dependencies);
  }

  lemma GraphUpToRepeats(s: seq<Task>, t: seq<Task>)
    requires SameUpToRepeats(s, t)
    ensures ListedGraph(s) == ListedGraph(t)
  {
    RanksUpToRepeats(s, t);
    forall v, d ensures DependsOn(s, v, d) <==> DependsOn(t, v, d) {
      if DependsOn(s, v, d) {
        DependsUpToRepeats(s, t, v, d);
      } else if DependsOn(t, v, d) {
        DependsUpToRepeats(t, s, v, d);
      }
    }
    GraphFromDependencies(s, t);
  }

  /** Repeated dependency entries are harmless: the outcome is the same without them. */
  lemma RepeatsAreHarmless(s: seq<Task>, t: seq<Task>, r: Result<seq<TaskId>>, q: Result<seq<TaskId>>)
    requires SameUpToRepeats(s, t) && SortOutcome(s, r) && SortOutcome(t, q)
    ensures r == q
  {
    RanksUpToRepeats(s, t);
    GraphUpToRepeats(s, t);
    assert DistinctIds(s) <==> DistinctIds(t);
    if r.Ok? {
      assert q.Ok?;
      GreedyIsUnique(ListedGraph(s), Ranks(s), r.value, q.value);
    }
  }

  /** Two tasks under one id, with nothing to wait for: reported as a cycle although there is none. */
  lemma RepeatedIdIsRejected(t: Task, r: Result<seq<TaskId>>)
    requires t.dependencies == [] && SortOutcome([t, t], r)
    ensures Acyclic(ListedGraph([t, t])) && r == Err(CyclicDAG)
  {
    var tasks := [t, t];
    assert tasks[0].id == tasks[1].id;
    var g := ListedGraph(tasks);
    forall v | v in g ensures g[v] == {} {
      forall d ensures !DependsOn(tasks, v, d) {
      }
    }
    forall v, p ensures !PathFromTo(g, p, v, v) {
      assert |p| > 1 ==> !Edge(g, p[0], p[1]);
    }
  }

  // ---------------------------------------------------------------- in-degree bookkeeping

  /** Edges (dependency, dependent) leading to `v` from a node not yet placed. */
  ghost function Waiting(edges: seq<(TaskId, TaskId)>, done: set<TaskId>, v: TaskId): nat {
    if edges == [] then 0
    else
      var e := edges[|edges| - 1];
      Waiting(edges[..|edges| - 1], done, v) + if e.1 == v && e.0 !in done then 1 else 0
  }

  /** Targets of the edges leaving `u`, in edge order. */
  ghost function Targets(edges: seq<(TaskId, TaskId)>, u: TaskId): seq<TaskId> {
    if edges == [] then []
    else
      var e := edges[|edges| - 1];
      Targets(edges[..|edges| - 1], u) + if e.0 == u then [e.1] else []
  }

  function Children(dependents: map<TaskId, seq<TaskId>>, u: TaskId): seq<TaskId> {
    if u in dependents then dependents[u] else []
  }

  ghost predicate Routes(edges: seq<(TaskId, TaskId)>, dependents: map<TaskId, seq<TaskId>>) {
    forall u :: Children(dependents, u) == Targets(edges, u)
  }

  ghost predicate Tallies(edges: seq<(TaskId, TaskId)>, done: set<TaskId>, inDegree: map<TaskId, nat>) {
    forall v :: v in inDegree ==> inDegree[v] == Waiting(edges, done, v)
  }

  lemma {:induction false} NoneWaiting(edges: seq<(TaskId, TaskId)>, done: set<TaskId>, v: TaskId)
    ensures Waiting(edges, done, v) == 0 <==> forall e :: e in edges && e.1 == v ==> e.0 in done
  {
    if edges != [] {
      var n := |edges| - 1;
      NoneWaiting(edges[..n], done, v);
      assert edges == edges[..n] + [edges[n]];
    }
  }

  /** Placing `u` lowers the tally of `v` by the number of edges from `u` to `v`. */
  lemma {:induction false} PlacingLowersTally(
    edges: seq<(TaskId, TaskId)>, done: set<TaskId>, u: TaskId, v: TaskId)
    requires u !in done
    ensures Waiting(edges, done + {u}, v) + multiset(Targets(edges, u))[v] == Waiting(edges, done, v)
  {
    if edges != [] {
      PlacingLowersTally(edges[..|edges| - 1], done, u, v);
    }
  }

  lemma {:induction false} TargetIsEdge(edges: seq<(TaskId, TaskId)>, u: TaskId, v: TaskId)
    requires v in Targets(edges, u)
    ensures (u, v) in edges
  {
    var n := |edges| - 1;
    if edges[n] != (u, v) {
      TargetIsEdge(edges[..n], u, v);
    }
  }

  /** `edges` holds exactly the dependencies between listed ids, in the first `k` tasks. */
  ghost predicate EdgesOf(tasks: seq<Task>, k: nat, ids: set<TaskId>, edges: seq<(TaskId, TaskId)>)
    requires k <= |tasks|
  {
    forall e :: e in edges <==> e.0 in ids && DependsOn(tasks[..k], e.1, e.0)
  }

  /** An edge for each of the first `j` dependency entries of a task that is listed, repeats included. */
  ghost function Entries(t: Task, j: nat, ids: set<TaskId>): seq<(TaskId, TaskId)>
    requires j <= |t.dependencies|
  {
    if j == 0 then []
    else Entries(t, j - 1, ids) + if t.dependencies[j - 1] in ids then [(t.dependencies[j - 1], t.id)] else []
  }

  /** The listed dependency entries of the first `k` tasks, in list order. */
  ghost function EdgeList(tasks: seq<Task>, k: nat, ids: set<TaskId>): seq<(TaskId, TaskId)>
    requires k <= |tasks|
  {
    if k == 0 then [] else EdgeList(tasks, k - 1, ids) + Entries(tasks[k - 1], |tasks[k - 1].dependencies|, ids)
  }

  lemma {:induction false} EntriesExactly(t: Task, j: nat, ids: set<TaskId>)
    requires j <= |t.dependencies|
    ensures forall e :: e in Entries(t, j, ids) <==> e.0 in ids && e.1 == t.id && e.0 in t.dependencies[..j]
    decreases j
  {
    if j > 0 {
      EntriesExactly(t, j - 1, ids);
      assert t.dependencies[..j] == t.dependencies[..j - 1] + [t.dependencies[j - 1]];
    }
  }

  lemma {:induction false} EdgeListExactly(tasks: seq<Task>, k: nat, ids: set<TaskId>)
    requires k <= |tasks|
    ensures EdgesOf(tasks, k, ids, EdgeList(tasks, k, ids))
    decreases k
  {
    if k > 0 {
      var t := tasks[k - 1];
      EdgeListExactly(tasks, k - 1, ids);
      EntriesExactly(t, |t.dependencies|, ids);
      assert t.dependencies[..|t.dependencies|] == t.dependencies;
      forall e: (TaskId, TaskId)
        ensures e in EdgeList(tasks, k, ids) <==> e.0 in ids && DependsOn(tasks[..k], e.1, e.0)
      {
        DependsOnNext(tasks, k - 1, e.1, e.0);
      }
    }
  }

  lemma ReadyMeansNoneWaiting(
    tasks: seq<Task>, edges: seq<(TaskId, TaskId)>, done: set<TaskId>, v: TaskId)
    requires EdgesOf(tasks, |tasks|, Ids(tasks), edges) && v in Ids(tasks)
    ensures Waiting(edges, done, v) == 0 <==> ListedGraph(tasks)[v] <= done
  {
    NoneWaiting(edges, done, v);
    assert tasks[..|tasks|] == tasks;
    var deps := ListedGraph(tasks)[v];
    forall u | u in deps ensures (u, v) in edges {
      assert (u, v).0 == u && (u, v).1 == v;
    }
  }

  lemma DependsOnNext(tasks: seq<Task>, k: nat, v: TaskId, d: TaskId)
    requires k < |tasks|
    ensures DependsOn(tasks[..k + 1], v, d)
            <==> DependsOn(tasks[..k], v, d) || (tasks[k].id == v && d in tasks[k].dependencies)
  {
    var s := tasks[..k + 1];
    assert s[k] == tasks[k];
    if DependsOn(tasks[..k], v, d) {
      var j :| 0 <= j < k && tasks[..k][j].id == v && d in tasks[..k][j].dependencies;
      assert s[j] == tasks[..k][j];
    }
    if DependsOn(s, v, d) {
      var j :| 0 <= j < k + 1 && s[j].id == v && d in s[j].dependencies;
      assert j < k ==> s[j] == tasks[..k][j];
    }
  }

  lemma RecordEdge(
    edges: seq<(TaskId, TaskId)>, inDegree: map<TaskId, nat>, dependents: map<TaskId, seq<TaskId>>,
    u: TaskId, v: TaskId)
    requires Tallies(edges, {}, inDegree) && Routes(edges, dependents) && v in inDegree
    ensures Tallies(edges + [(u, v)], {}, inDegree[v := inDegree[v] + 1])
    ensures Routes(edges + [(u, v)], dependents[u := Children(dependents, u) + [v]])
  {
    var more := edges + [(u, v)];
    assert more[..|more| - 1] == edges;
    forall w ensures Children(dependents[u := Children(dependents, u) + [v]], w) == Targets(more, w) {
      assert Children(dependents, w) == Targets(edges, w);
    }
  }

  /** In-degrees and dependents of the listed ids, as far as the edges go. */
  ghost predicate Tallied(
    ids: set<TaskId>, edges: seq<(TaskId, TaskId)>, inDegree: map<TaskId, nat>, dependents: map<TaskId, seq<TaskId>>)
  {
    inDegree.Keys == ids && Tallies(edges, {}, inDegree) && Routes(edges, dependents)
  }

  /** Count one dependency entry, if the dependency is listed. */
  method TallyEntry(
    dep: TaskId, id: TaskId, ids: set<TaskId>, ghost edges: seq<(TaskId, TaskId)>, ghost more: seq<(TaskId, TaskId)>,
    inDegree0: map<TaskId, nat>, dependents0: map<TaskId, seq<TaskId>>)
    returns (inDegree: map<TaskId, nat>, dependents: map<TaskId, seq<TaskId>>)
    requires Tallied(ids, edges, inDegree0, dependents0) && id in ids
    requires more == if dep in ids then edges + [(dep, id)] else edges
    ensures Tallied(ids, more, inDegree, dependents)
  {
    inDegree, dependents := inDegree0, dependents0;
    if dep in ids {
      RecordEdge(edges, inDegree, dependents, dep, id);
      inDegree := inDegree[id := inDegree[id] + 1];
      dependents := dependents[dep := Children(dependents, dep) + [id]];
    }
  }

  /** Count every listed dependency entry of one task, and record the task with the dependency. */
  method TallyTask(
    task: Task, ids: set<TaskId>, ghost edges: seq<(TaskId, TaskId)>,
    inDegree0: map<TaskId, nat>, dependents0: map<TaskId, seq<TaskId>>)
    returns (inDegree: map<TaskId, nat>, dependents: map<TaskId, seq<TaskId>>)
    requires Tallied(ids, edges, inDegree0, dependents0) && task.id in ids
    ensures Tallied(ids, edges + Entries(task, |task.dependencies|, ids), inDegree, dependents)
  {
    inDegree, dependents := inDegree0, dependents0;
    assert edges + Entries(task, 0, ids) == edges;
    for j := 0 to |task.dependencies|
      invariant Tallied(ids, edges + Entries(task, j, ids), inDegree, dependents)
    {
      EntriesNext(task, j, ids, edges);
      inDegree, dependents :=
        TallyEntry(task.dependencies[j], task.id, ids,
                   edges + Entries(task, j, ids), edges + Entries(task, j + 1, ids), inDegree, dependents);
    }
  }

  lemma EntriesNext(t: Task, j: nat, ids: set<TaskId>, edges: seq<(TaskId, TaskId)>)
    requires j < |t.dependencies|
    ensures edges + Entries(t, j + 1, ids)
            == if t.dependencies[j] in ids then edges + Entries(t, j, ids) + [(t.dependencies[j], t.id)]
               else edges + Entries(t, j, ids)
  {
  }

  /** In-degrees and dependents of all tasks. */
  method TallyDependencies(tasks: seq<Task>) returns (inDegree: map<TaskId, nat>, dependents: map<TaskId, seq<TaskId>>)
    ensures Tallied(Ids(tasks), EdgeList(tasks, |tasks|, Ids(tasks)), inDegree, dependents)
  {
    var ids := Ids(tasks);
    inDegree, dependents := map v | v in ids :: 0, map[];
    for k := 0 to |tasks|
      invariant Tallied(ids, EdgeList(tasks, k, ids), inDegree, dependents)
    {
      inDegree, dependents := TallyTask(tasks[k], ids, EdgeList(tasks, k, ids), inDegree, dependents);
    }
  }

  // ---------------------------------------------------------------- the sort

  /** The heap holds exactly the unplaced ids with in-degree zero, each keyed by its rank. */
  ghost predicate HeapHolds(
    rank: map<TaskId, nat>, inDegree: map<TaskId, nat>, done: set<TaskId>, heap: set<(nat, TaskId)>)
    requires inDegree.Keys <= rank.Keys
  {
    forall e :: e in heap <==> e.1 in inDegree && e.1 !in done && inDegree[e.1] == 0 && e.0 == rank[e.1]
  }

  lemma {:induction false} HeapHasTop(heap: set<(nat, TaskId)>) returns (top: (nat, TaskId))
    requires heap != {}
    ensures top in heap && forall e :: e in heap ==> EntryLeq(e, top)
  {
    var e :| e in heap;
    if heap == {e} {
      top := e;
    } else {
      var other := HeapHasTop(heap - {e});
      top := if EntryLeq(e, other) then other else e;
      forall x | x in heap ensures EntryLeq(x, top) {
        assert x == e || x in heap - {e};
      }
    }
  }

  method PeekTop(heap: set<(nat, TaskId)>) returns (top: (nat, TaskId))
    requires heap != {}
    ensures top in heap && forall e :: e in heap ==> EntryLeq(e, top)
  {
    var _ := HeapHasTop(heap);
    top :| top in heap && forall e :: e in heap ==> EntryLeq(e, top);
  }

  /** Decrement the in-degree of every child, pushing those that reach zero. */
  method ReleaseChildren(
    children: seq<TaskId>, rank: map<TaskId, nat>, inDegree0: map<TaskId, nat>,
    ghost done: set<TaskId>, heap0: set<(nat, TaskId)>)
    returns (inDegree: map<TaskId, nat>, heap: set<(nat, TaskId)>)
    requires inDegree0.Keys <= rank.Keys
    requires forall v :: v in children ==> v in inDegree0 && v !in done
    requires forall v :: v in inDegree0 ==> multiset(children)[v] <= inDegree0[v]
    requires HeapHolds(rank, inDegree0, done, heap0)
    ensures inDegree.Keys == inDegree0.Keys
    ensures forall v :: v in inDegree ==> inDegree[v] + multiset(children)[v] == inDegree0[v]
    ensures HeapHolds(rank, inDegree, done, heap)
  {
    inDegree, heap := inDegree0, heap0;
    for j := 0 to |children|
      invariant inDegree.Keys == inDegree0.Keys
      invariant forall v :: v in inDegree ==> inDegree[v] + multiset(children[..j])[v] == inDegree0[v]
      invariant HeapHolds(rank, inDegree, done, heap)
    {
      var child := children[j];
      TallyStaysPositive(children, j);
      assert multiset(children[..j + 1]) == multiset(children[..j]) + multiset{child} by {
        assert children[..j + 1] == children[..j] + [child];
      }
      inDegree := inDegree[child := inDegree[child] - 1];
      if inDegree[child] == 0 {
        assert (rank[child], child) !in heap;
        heap := heap + {(rank[child], child)};
      }
    }
    assert children[..|children|] == children;
  }

  lemma TallyStaysPositive(children: seq<TaskId>, j: nat)
    requires j < |children|
    ensures multiset(children[..j])[children[j]] < multiset(children)[children[j]]
  {
    assert children == children[..j] + [children[j]] + children[j + 1..];
  }

  /** Taking the top of the heap extends a greedy order. */
  lemma GreedyExtends(tasks: seq<Task>, edges: seq<(TaskId, TaskId)>, inDegree: map<TaskId, nat>,
                      heap: set<(nat, TaskId)>, order: seq<TaskId>, top: (nat, TaskId))
    requires inDegree.Keys == Ids(tasks)
    requires EdgesOf(tasks, |tasks|, Ids(tasks), edges) && Tallies(edges, Elems(order), inDegree)
    requires HeapHolds(Ranks(tasks), inDegree, Elems(order), heap)
    requires Greedy(ListedGraph(tasks), Ranks(tasks), order)
    requires top in heap && forall e :: e in heap ==> EntryLeq(e, top)
    ensures Greedy(ListedGraph(tasks), Ranks(tasks), order + [top.1])
    ensures Waiting(edges, Elems(order), top.1) == 0
  {
    var g, rank, more := ListedGraph(tasks), Ranks(tasks), order + [top.1];
    assert Waiting(edges, Elems(order), top.1) == 0;
    ReadyMeansNoneWaiting(tasks, edges, Elems(order), top.1);
    assert more[..|order|] == order;
    assert forall i :: 0 <= i < |order| ==> more[..i] == order[..i];
    forall v | Ready(g, Elems(order), v) ensures EntryLeq((rank[v], v), top) {
      ReadyMeansNoneWaiting(tasks, edges, Elems(order), v);
      assert (rank[v], v) in heap;
    }
  }

  /** Placing `u`, whose dependencies are all placed, never drives an in-degree below zero. */
  lemma ChildrenAreUnplaced(edges: seq<(TaskId, TaskId)>, done: set<TaskId>, u: TaskId)
    requires u !in done && Waiting(edges, done, u) == 0
    requires forall v :: v in done ==> Waiting(edges, done, v) == 0
    ensures forall v :: v in Targets(edges, u) ==> v !in done + {u}
    ensures forall v :: Waiting(edges, done + {u}, v) + multiset(Targets(edges, u))[v] == Waiting(edges, done, v)
  {
    forall v ensures Waiting(edges, done + {u}, v) + multiset(Targets(edges, u))[v] == Waiting(edges, done, v) {
      PlacingLowersTally(edges, done, u, v);
    }
    forall v | v in Targets(edges, u) ensures v !in done + {u} {
      assert v in multiset(Targets(edges, u));
      assert multiset(Targets(edges, u))[v] > 0;
    }
  }

  lemma PlacedHaveNoneWaiting(tasks: seq<Task>, edges: seq<(TaskId, TaskId)>, order: seq<TaskId>)
    requires EdgesOf(tasks, |tasks|, Ids(tasks), edges) && Placed(ListedGraph(tasks), order)
    ensures forall v :: v in Elems(order) ==> Waiting(edges, Elems(order), v) == 0
  {
    forall v | v in Elems(order) ensures Waiting(edges, Elems(order), v) == 0 {
      var i :| 0 <= i < |order| && order[i] == v;
      assert Elems(order[..i]) <= Elems(order);
      ReadyMeansNoneWaiting(tasks, edges, Elems(order), v);
    }
  }

  lemma ChildrenAreListed(tasks: seq<Task>, edges: seq<(TaskId, TaskId)>, u: TaskId)
    requires EdgesOf(tasks, |tasks|, Ids(tasks), edges)
    ensures forall v :: v in Targets(edges, u) ==> v in Ids(tasks)
  {
    forall v | v in Targets(edges, u) ensures v in Ids(tasks) {
      TargetIsEdge(edges, u, v);
      assert tasks[..|tasks|] == tasks;
      assert (u, v).1 == v;
    }
  }

  /** What the main loop keeps. */
  ghost predicate KahnState(
    tasks: seq<Task>, edges: seq<(TaskId, TaskId)>, dependents: map<TaskId, seq<TaskId>>,
    inDegree: map<TaskId, nat>, heap: set<(nat, TaskId)>, order: seq<TaskId>)
  {
    && inDegree.Keys == Ids(tasks)
    && EdgesOf(tasks, |tasks|, Ids(tasks), edges)
    && Routes(edges, dependents)
    && Greedy(ListedGraph(tasks), Ranks(tasks), order)
    && Tallies(edges, Elems(order), inDegree)
    && HeapHolds(Ranks(tasks), inDegree, Elems(order), heap)
  }

  lemma HeapAfterPop(
    rank: map<TaskId, nat>, inDegree: map<TaskId, nat>, done: set<TaskId>, heap: set<(nat, TaskId)>, top: (nat, TaskId))
    requires inDegree.Keys <= rank.Keys && HeapHolds(rank, inDegree, done, heap) && top in heap
    ensures HeapHolds(rank, inDegree, done + {top.1}, heap - {top})
  {
  }

  /** The children of the popped id are listed and unplaced, and what they still wait for without it. */
  lemma PoppingReleases(
    tasks: seq<Task>, edges: seq<(TaskId, TaskId)>, dependents: map<TaskId, seq<TaskId>>,
    inDegree: map<TaskId, nat>, heap: set<(nat, TaskId)>, order: seq<TaskId>, top: (nat, TaskId), done: set<TaskId>)
    requires KahnState(tasks, edges, dependents, inDegree, heap, order) && top in heap && done == Elems(order) + {top.1}
    ensures var children := Children(dependents, top.1);
            && (forall v :: v in children ==> v in inDegree && v !in done)
            && (forall v :: v in inDegree ==> inDegree[v] == Waiting(edges, done, v) + multiset(children)[v])
  {
    PlacedHaveNoneWaiting(tasks, edges, order);
    ChildrenAreUnplaced(edges, Elems(order), top.1);
    ChildrenAreListed(tasks, edges, top.1);
  }

  lemma PoppingIsSound(
    tasks: seq<Task>, edges: seq<(TaskId, TaskId)>, dependents: map<TaskId, seq<TaskId>>,
    inDegree: map<TaskId, nat>, heap: set<(nat, TaskId)>, order: seq<TaskId>, top: (nat, TaskId))
    requires KahnState(tasks, edges, dependents, inDegree, heap, order)
    requires top in heap && forall e :: e in heap ==> EntryLeq(e, top)
    ensures var done, children := Elems(order + [top.1]), Children(dependents, top.1);
            && Greedy(ListedGraph(tasks), Ranks(tasks), order + [top.1])
            && |order| + 1 <= |Ids(tasks)|
            && (forall v :: v in children ==> v in inDegree && v !in done)
            && (forall v :: v in inDegree ==>
                              inDegree[v] == Waiting(edges, done, v) + multiset(children)[v])
            && HeapHolds(Ranks(tasks), inDegree, done, heap - {top})
  {
    GreedyExtends(tasks, edges, inDegree, heap, order, top);
    assert Elems(order + [top.1]) == Elems(order) + {top.1};
    PoppingReleases(tasks, edges, dependents, inDegree, heap, order, top, Elems(order) + {top.1});
    HeapAfterPop(Ranks(tasks), inDegree, Elems(order), heap, top);
    PlacedIsComplete(ListedGraph(tasks), order + [top.1]);
  }

  lemma TallyAfterRelease(
    edges: seq<(TaskId, TaskId)>, done: set<TaskId>, children: seq<TaskId>,
    before: map<TaskId, nat>, after: map<TaskId, nat>)
    requires before.Keys == after.Keys
    requires forall v :: v in before ==> before[v] == Waiting(edges, done, v) + multiset(children)[v]
    requires forall v :: v in after ==> after[v] + multiset(children)[v] == before[v]
    ensures Tallies(edges, done, after)
  {
  }

  /** One round: the popped id joins the order and its children are released. */
  method PlaceNext(
    tasks: seq<Task>, ghost edges: seq<(TaskId, TaskId)>, dependents: map<TaskId, seq<TaskId>>,
    rank: map<TaskId, nat>, inDegree0: map<TaskId, nat>, heap0: set<(nat, TaskId)>, order0: seq<TaskId>)
    returns (inDegree: map<TaskId, nat>, heap: set<(nat, TaskId)>, order: seq<TaskId>)
    requires KahnState(tasks, edges, dependents, inDegree0, heap0, order0)
    requires heap0 != {} && rank == Ranks(tasks)
    ensures KahnState(tasks, edges, dependents, inDegree, heap, order)
    ensures |order| == |order0| + 1 <= |Ids(tasks)|
  {
    var top := PeekTop(heap0);
    PoppingIsSound(tasks, edges, dependents, inDegree0, heap0, order0, top);
    order := order0 + [top.1];
    var children := Children(dependents, top.1);
    inDegree, heap := ReleaseChildren(children, rank, inDegree0, Elems(order), heap0 - {top});
    TallyAfterRelease(edges, Elems(order), children, inDegree0, inDegree);
  }

  /** When the heap is empty the order cannot be extended, so its length decides. */
  lemma EmptyHeapDecides(
    tasks: seq<Task>, edges: seq<(TaskId, TaskId)>, dependents: map<TaskId, seq<TaskId>>,
    inDegree: map<TaskId, nat>, heap: set<(nat, TaskId)>, order: seq<TaskId>)
    requires KahnState(tasks, edges, dependents, inDegree, heap, order) && heap == {}
    ensures |order| == |tasks| <==> DistinctIds(tasks) && Acyclic(ListedGraph(tasks))
    ensures |order| == |tasks| ==> Elems(order) == Ids(tasks)
  {
    var g := ListedGraph(tasks);
    forall v | v in g && v !in Elems(order) ensures !Ready(g, Elems(order), v) {
      ReadyMeansNoneWaiting(tasks, edges, Elems(order), v);
      assert (Ranks(tasks)[v], v) !in heap;
    }
    StuckDecidesCycles(g, order);
    PlacedIsComplete(g, order);
    DistinctIdsByContents(tasks);
    assert Closed(g);
  }

  /**
   The sort succeeds exactly on lists of distinct ids with an acyclic graph, and
   then returns the greedy order of that graph.
   */
  method TopologicalSortTasks(tasks: seq<Task>) returns (r: Result<seq<TaskId>>)
    ensures SortOutcome(tasks, r)
  {
    var rank := Ranks(tasks);
    var inDegree, dependents := TallyDependencies(tasks);
    ghost var edges := EdgeList(tasks, |tasks|, Ids(tasks));
    EdgeListExactly(tasks, |tasks|, Ids(tasks));
    var heap := set v | v in inDegree.Keys && inDegree[v] == 0 :: (rank[v], v);
    var order: seq<TaskId> := [];
    assert Elems(order) == {};
    while heap != {}
      invariant KahnState(tasks, edges, dependents, inDegree, heap, order)
      decreases |Ids(tasks)| - |order|
    {
      inDegree, heap, order := PlaceNext(tasks, edges, dependents, rank, inDegree, heap, order);
    }
    EmptyHeapDecides(tasks, edges, dependents, inDegree, heap, order);
    if |order| != |tasks| {
      return Err(CyclicDAG);
    }
    return Ok(order);
  }

  // ---------------------------------------------------------------- the order in plain terms

  lemma DependsOnOwn(tasks: seq<Task>, a: nat, d: TaskId)
    requires DistinctIds(tasks) && a < |tasks|
    ensures DependsOn(tasks, tasks[a].id, d) <==> d in tasks[a].dependencies
  {
    if DependsOn(tasks, tasks[a].id, d) {
      var k :| 0 <= k < |tasks| && tasks[k].id == tasks[a].id && d in tasks[k].dependencies;
      assert k == a;
    }
  }

  lemma ListedDependencies(tasks: seq<Task>, a: nat, d: TaskId)
    requires DistinctIds(tasks) && a < |tasks|
    ensures tasks[a].id in ListedGraph(tasks)
    ensures d in ListedGraph(tasks)[tasks[a].id] <==> d in Ids(tasks) && d in tasks[a].dependencies
  {
    DependsOnOwn(tasks, a, d);
  }

  /** In the order, each task stands behind all its listed dependencies. */
  lemma DependenciesFirst(tasks: seq<Task>, order: seq<TaskId>, a: nat, d: TaskId) returns (i: nat, j: nat)
    requires SortOutcome(tasks, Ok(order)) && a < |tasks| && d in tasks[a].dependencies && d in Ids(tasks)
    ensures i < j < |order| && order[i] == d && order[j] == tasks[a].id
  {
    ListedDependencies(tasks, a, d);
    assert tasks[a].id in Elems(order);
    j :| 0 <= j < |order| && order[j] == tasks[a].id;
    assert d in Elems(order[..j]);
    i :| 0 <= i < j && order[i] == d;
  }

  /**
   Where task `b` stands, no task `a` could stand instead that is more urgent (critical, high, normal,
   low, background) or equally urgent with a higher id.
   */
  lemma UrgentFirst(tasks: seq<Task>, order: seq<TaskId>, i: nat, a: nat, b: nat)
    requires SortOutcome(tasks, Ok(order)) && a < |tasks| && b < |tasks|
    requires i < |order| && order[i] == tasks[b].id && tasks[a].id !in order[..i]
    requires forall d :: d in tasks[a].dependencies && d in Ids(tasks) ==> d in order[..i]
    ensures tasks[b].priority == High ==> tasks[a].priority != Critical
    ensures tasks[b].priority == Normal ==> tasks[a].priority != Critical && tasks[a].priority != High
    ensures tasks[b].priority == Low ==> tasks[a].priority == Low || tasks[a].priority == Background
    ensures tasks[b].priority == Background ==> tasks[a].priority == Background
    ensures tasks[b].priority == tasks[a].priority ==> tasks[a].id <= tasks[b].id
  {
    var g, v := ListedGraph(tasks), tasks[a].id;
    assert Ready(g, Elems(order[..i]), v) by {
      forall d | d in Ids(tasks) && DependsOn(tasks, v, d) ensures d in Elems(order[..i]) {
        DependsOnOwn(tasks, a, d);
      }
    }
    RankOfTask(tasks, a);
    RankOfTask(tasks, b);
    assert EntryLeq((Ranks(tasks)[v], v), (Ranks(tasks)[order[i]], order[i]));
  }

  /** Dependencies outside the list do not count: tasks that have no others are accepted. */
  lemma OutsideDependenciesAreIgnored(tasks: seq<Task>, r: Result<seq<TaskId>>)
    requires DistinctIds(tasks) && SortOutcome(tasks, r)
    requires forall k, d :: 0 <= k < |tasks| && d in tasks[k].dependencies ==> d !in Ids(tasks)
    ensures r.Ok?
  {
    var g := ListedGraph(tasks);
    forall v | v in g ensures g[v] == {} {
      forall d | d in Ids(tasks) ensures !DependsOn(tasks, v, d) {
      }
    }
    forall v, p ensures !PathFromTo(g, p, v, v) {
      assert |p| > 1 ==> !Edge(g, p[0], p[1]);
    }
  }
}
