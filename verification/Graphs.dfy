/**
 Finite dependency graphs, shared by both topological sorts and by the wave runner.

 A graph maps every node to the set of nodes it waits for.  A dependency need not
 itself be a node: such a dependency can never be placed.
 */
module Graphs {

  function Elems<T>(s: seq<T>): set<T> {
    set x | x in s
  }

  lemma ElemsEmpty<T>(s: seq<T>)
    ensures Elems(s) == {} <==> s == []
  {
    if s != [] {
      assert s[0] in Elems(s);
    }
  }

  ghost predicate Distinct<T(!new)>(s: seq<T>) {
    forall i, j :: 0 <= i < j < |s| ==> s[i] != s[j]
  }

  ghost predicate Edge<T>(g: map<T, set<T>>, from: T, to: T) {
    from in g && to in g[from]
  }

  /** A walk along dependency edges: every element depends on the next one. */
  ghost predicate IsPath<T>(g: map<T, set<T>>, p: seq<T>) {
    forall i, j :: 0 <= i && j == i + 1 && j < |p| ==> Edge(g, p[i], p[j])
  }

  ghost predicate PathFromTo<T>(g: map<T, set<T>>, p: seq<T>, a: T, b: T) {
    |p| >= 2 && IsPath(g, p) && p[0] == a && p[|p| - 1] == b
  }

  /** `b` is a proper ancestor of `a`: it is reached over at least one dependency edge. */
  ghost predicate Ancestor<T(!new)>(g: map<T, set<T>>, a: T, b: T) {
    exists p :: PathFromTo(g, p, a, b)
  }

  ghost predicate Acyclic<T(!new)>(g: map<T, set<T>>) {
    forall v :: !Ancestor(g, v, v)
  }

  /** Every dependency is itself a node. */
  ghost predicate Closed<T(!new)>(g: map<T, set<T>>) {
    forall v :: v in g ==> g[v] <= g.Keys
  }

  /** `order` lists distinct nodes, each after everything it depends on. */
  ghost predicate Placed<T(!new)>(g: map<T, set<T>>, order: seq<T>) {
    && Distinct(order)
    && forall i :: 0 <= i < |order| ==> order[i] in g && g[order[i]] <= Elems(order[..i])
  }

  /** Node `v` may be placed next: it is not placed yet and everything it waits for is. */
  ghost predicate Ready<T>(g: map<T, set<T>>, done: set<T>, v: T) {
    v in g && v !in done && g[v] <= done
  }

  /** Nothing can be placed after `order`. */
  ghost predicate Stuck<T(!new)>(g: map<T, set<T>>, order: seq<T>) {
    forall v :: !Ready(g, Elems(order), v)
  }

  /** Every member of `s` waits for a member of `s`. */
  ghost predicate SelfWaiting<T(!new)>(g: map<T, set<T>>, s: set<T>) {
    forall x :: x in s ==> x in g && g[x] * s != {}
  }

  // ---------------------------------------------------------------- walks

  lemma AncestorStep<T(!new)>(g: map<T, set<T>>, a: T, b: T)
    requires Edge(g, a, b)
    ensures Ancestor(g, a, b)
  {
    assert PathFromTo(g, [a, b], a, b);
  }

  lemma AncestorTransitive<T(!new)>(g: map<T, set<T>>, a: T, b: T, c: T)
    requires Edge(g, a, b) && Ancestor(g, b, c)
    ensures Ancestor(g, a, c)
  {
    var p :| PathFromTo(g, p, b, c);
    assert PathFromTo(g, [a] + p, a, c);
  }

  lemma AncestorInClosed<T(!new)>(g: map<T, set<T>>, a: T, b: T)
    requires Closed(g) && Ancestor(g, a, b)
    ensures b in g
  {
    var p :| PathFromTo(g, p, a, b);
    assert Edge(g, p[|p| - 2], p[|p| - 1]);
  }

  lemma {:induction false} Pigeonhole<T>(p: seq<T>, s: set<T>) returns (i: nat, j: nat)
    requires |p| > |s|
    requires forall k :: 0 <= k < |p| ==> p[k] in s
    ensures i < j < |p| && p[i] == p[j]
  {
    var n := |p| - 1;
    if k :| 0 <= k < n && p[k] == p[n] {
      i, j := k, n;
    } else {
      i, j := Pigeonhole(p[..n], s - {p[n]});
    }
  }

  /** A walk of any length can be built inside a set in which every node depends on another. */
  lemma {:induction false} Walk<T(!new)>(g: map<T, set<T>>, s: set<T>, v: T, n: nat) returns (p: seq<T>)
    requires v in s
    requires SelfWaiting(g, s)
    ensures |p| == n + 1 && IsPath(g, p) && p[0] == v
    ensures forall k :: 0 <= k < |p| ==> p[k] in s
  {
    if n == 0 {
      p := [v];
    } else {
      var y :| y in g[v] * s;
      var q := Walk(g, s, y, n - 1);
      p := [v] + q;
    }
  }

  /** A nonempty set of nodes that all wait for one of themselves contains a cycle. */
  lemma SelfWaitingSetHasCycle<T(!new)>(g: map<T, set<T>>, s: set<T>)
    requires s != {}
    requires SelfWaiting(g, s)
    ensures !Acyclic(g)
  {
    var v :| v in s;
    var p := Walk(g, s, v, |s|);
    var i, j := Pigeonhole(p, s);
    var q := p[i..j + 1];
    assert PathFromTo(g, q, p[i], p[i]);
    assert Ancestor(g, p[i], p[i]);
  }

  // ---------------------------------------------------------------- placements

  lemma DistinctSnoc<T(!new)>(s: seq<T>, x: T)
    ensures Distinct(s + [x]) <==> Distinct(s) && x !in s
    ensures Elems(s + [x]) == Elems(s) + {x}
  {
    var c := s + [x];
    assert forall i :: 0 <= i < |s| ==> c[i] == s[i];
    if x in s {
      var k :| 0 <= k < |s| && s[k] == x;
      assert c[k] == c[|s|];
    }
  }

  lemma {:induction false} DistinctCardinality<T(!new)>(s: seq<T>)
    ensures |Elems(s)| <= |s|
    ensures |Elems(s)| == |s| <==> Distinct(s)
  {
    if s != [] {
      var n := |s| - 1;
      DistinctCardinality(s[..n]);
      DistinctSnoc(s[..n], s[n]);
      assert s == s[..n] + [s[n]];
    }
  }

  /** Some element of a nonempty set. */
  method AnyOf<T>(s: set<T>) returns (x: T)
    requires s != {}
    ensures x in s
  {
    x :| x in s;
  }

  lemma Outsider<T>(a: set<T>, b: set<T>) returns (x: T)
    requires !(a <= b)
    ensures x in a && x !in b
  {
    x :| x in a && x !in b;
  }

  lemma DistinctConcat<T(!new)>(a: seq<T>, b: seq<T>)
    requires Distinct(a) && Distinct(b) && forall x :: x in a ==> x !in b
    ensures Distinct(a + b)
  {
    var c := a + b;
    forall i, j | 0 <= i < j < |c| ensures c[i] != c[j] {
      if i < |a| <= j {
        assert a[i] in a && b[j - |a|] in b;
      }
    }
  }

  lemma SubsetOfSameSize<T>(a: set<T>, b: set<T>)
    requires a <= b && |a| >= |b|
    ensures a == b
  {
    if x :| x in b && x !in a {
      assert |b| == |b - {x}| + 1;
      SubsetSize(a, b - {x});
    }
  }

  lemma {:induction false} SubsetSize<T>(a: set<T>, b: set<T>)
    requires a <= b
    ensures |a| <= |b|
  {
    if a != {} {
      var x :| x in a;
      SubsetSize(a - {x}, b - {x});
    }
  }

  lemma PlacedIsComplete<T(!new)>(g: map<T, set<T>>, order: seq<T>)
    requires Placed(g, order)
    ensures |order| <= |g|
    ensures |order| == |g| <==> Elems(order) == g.Keys
  {
    DistinctCardinality(order);
    assert |Elems(order)| == |order|;
    assert Elems(order) <= g.Keys;
    SubsetSize(Elems(order), g.Keys);
    if |order| == |g| {
      SubsetOfSameSize(Elems(order), g.Keys);
    }
  }

  lemma PlacedSnoc<T(!new)>(g: map<T, set<T>>, order: seq<T>, u: T)
    requires Placed(g, order) && Ready(g, Elems(order), u)
    ensures Placed(g, order + [u]) && |order| + 1 <= |g|
  {
    var next := order + [u];
    DistinctSnoc(order, u);
    assert next[..|order|] == order;
    assert forall i :: 0 <= i < |order| ==> next[..i] == order[..i];
    PlacedIsComplete(g, next);
  }

  /** The dependencies of placed nodes are placed. */
  lemma PlacedDependencies<T(!new)>(g: map<T, set<T>>, order: seq<T>, v: T)
    requires Placed(g, order) && v in Elems(order)
    ensures v in g && g[v] <= Elems(order)
  {
    var i :| 0 <= i < |order| && order[i] == v;
    assert Elems(order[..i]) <= Elems(order);
  }

  /** Walking along dependencies from a placed node moves strictly towards the front. */
  lemma {:induction false} PathDescends<T(!new)>(g: map<T, set<T>>, order: seq<T>, p: seq<T>, i: nat)
    requires Placed(g, order) && IsPath(g, p) && |p| >= 2
    requires i < |order| && order[i] == p[0]
    ensures exists j :: 0 <= j < i && order[j] == p[|p| - 1]
  {
    assert Edge(g, p[0], p[1]);
    assert p[1] in order[..i];
    var j :| 0 <= j < i && order[j] == p[1];
    if |p| > 2 {
      PathDescends(g, order, p[1..], j);
    }
  }

  lemma OrderedIsAcyclic<T(!new)>(g: map<T, set<T>>, order: seq<T>)
    requires Placed(g, order) && Elems(order) == g.Keys
    ensures Acyclic(g) && Closed(g)
  {
    forall v | v in g ensures g[v] <= g.Keys {
      assert v in Elems(order);
      var i :| 0 <= i < |order| && order[i] == v;
      assert Elems(order[..i]) <= Elems(order);
    }
    forall v ensures !Ancestor(g, v, v) {
      if Ancestor(g, v, v) {
        var p :| PathFromTo(g, p, v, v);
        assert Edge(g, p[0], p[1]);
        assert v in Elems(order);
        var i :| 0 <= i < |order| && order[i] == v;
        PathDescends(g, order, p, i);
        assert false;
      }
    }
  }

  /**
   Completeness of cycle detection by Kahn's method: a placement that cannot be
   extended covers the graph exactly when the graph is acyclic and has no
   dependency outside itself.
   */
  lemma StuckDecidesCycles<T(!new)>(g: map<T, set<T>>, order: seq<T>)
    requires Placed(g, order) && Stuck(g, order)
    ensures |order| == |g| <==> Acyclic(g) && Closed(g)
  {
    PlacedIsComplete(g, order);
    if |order| == |g| {
      OrderedIsAcyclic(g, order);
    } else if Closed(g) {
      var left := g.Keys - Elems(order);
      assert Elems(order) <= g.Keys;
      assert Elems(order) + left == g.Keys;
      forall x | x in left ensures g[x] * left != {} {
        assert !Ready(g, Elems(order), x);
        var y :| y in g[x] && y !in Elems(order);
        assert y in g[x] * left;
      }
      SelfWaitingSetHasCycle(g, left);
    }
  }

  /** In an acyclic graph every nonempty set of nodes has a member waiting for none of the others. */
  lemma MinimalNode<T(!new)>(g: map<T, set<T>>, s: set<T>) returns (v: T)
    requires Acyclic(g) && s <= g.Keys && s != {}
    ensures v in s && g[v] * s == {}
  {
    if SelfWaiting(g, s) {
      SelfWaitingSetHasCycle(g, s);
      assert false;
    }
    v :| v in s && g[v] * s == {};
  }
}
