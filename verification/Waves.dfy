/**
 The meaning of wave execution: given which tasks succeed, the waves of a run are
 determined, and with them the tasks that never start.
 */
module Waves {
  import opened Graphs

  /** How an executed task ends.  A panic leaves no result behind. */
  datatype Outcome = Succeeds | Fails | Panics

  /** Tasks not yet started, and tasks that succeeded. */
  datatype Progress<T> = Progress(remaining: set<T>, completed: set<T>)

  ghost function Front<T(!new)>(g: map<T, set<T>>, p: Progress<T>): set<T> {
    set t | t in p.remaining && t in g && g[t] <= p.completed
  }

  ghost function Succeeding<T(!new)>(outcome: T -> Outcome, s: set<T>): set<T> {
    set t | t in s && outcome(t) == Succeeds
  }

  /** Progress at the head of the loop after `n` waves. */
  ghost function At<T(!new)>(g: map<T, set<T>>, outcome: T -> Outcome, n: nat): Progress<T> {
    if n == 0 then Progress(g.Keys, {})
    else
      var p := At(g, outcome, n - 1);
      Progress(p.remaining - Front(g, p), p.completed + Succeeding(outcome, Front(g, p)))
  }

  ghost function Wave<T(!new)>(g: map<T, set<T>>, outcome: T -> Outcome, n: nat): set<T> {
    Front(g, At(g, outcome, n))
  }

  ghost function Started<T(!new)>(g: map<T, set<T>>, outcome: T -> Outcome, n: nat): set<T> {
    g.Keys - At(g, outcome, n).remaining
  }

  ghost predicate WaveFailed<T(!new)>(g: map<T, set<T>>, outcome: T -> Outcome, n: nat) {
    Succeeding(outcome, Wave(g, outcome, n)) != Wave(g, outcome, n)
  }

  /** How the loop is left. */
  datatype Exit = Finished | Halted | Deadlocked | Stopped

  /** No task remaining after `n` waves can run although some remain. */
  ghost predicate NoneRunnable<T(!new)>(g: map<T, set<T>>, outcome: T -> Outcome, n: nat) {
    At(g, outcome, n).remaining != {} && Wave(g, outcome, n) == {}
  }

  /** Wave `n` runs, and is followed by another test at the head of the loop. */
  ghost predicate Continues<T(!new)>(g: map<T, set<T>>, outcome: T -> Outcome, cancel: nat -> bool, n: nat) {
    && !cancel(n)
    && Wave(g, outcome, n) != {}
    && !(WaveFailed(g, outcome, n) && NoneRunnable(g, outcome, n + 1))
  }

  /** The first `n` waves all run to the next loop test. */
  ghost predicate AllContinue<T(!new)>(
    g: map<T, set<T>>, outcome: T -> Outcome, cancel: nat -> bool, n: nat)
  {
    n == 0 || (AllContinue(g, outcome, cancel, n - 1) && Continues(g, outcome, cancel, n - 1))
  }

  /** A run makes exactly `n` waves and then leaves through `exit`. */
  ghost predicate EndsAt<T(!new)>(
    g: map<T, set<T>>, outcome: T -> Outcome, cancel: nat -> bool, n: nat, exit: Exit)
  {
    match exit
    case Finished =>
      AllContinue(g, outcome, cancel, n) && At(g, outcome, n).remaining == {}
    case Stopped =>
      AllContinue(g, outcome, cancel, n) && At(g, outcome, n).remaining != {} && cancel(n)
    case Deadlocked =>
      AllContinue(g, outcome, cancel, n) && NoneRunnable(g, outcome, n) && !cancel(n)
    case Halted =>
      && n > 0 && AllContinue(g, outcome, cancel, n - 1)
      && !cancel(n - 1) && Wave(g, outcome, n - 1) != {}
      && WaveFailed(g, outcome, n - 1) && NoneRunnable(g, outcome, n)
  }

  // ---------------------------------------------------------------- every run

  lemma {:induction false} ProgressShape<T(!new)>(g: map<T, set<T>>, outcome: T -> Outcome, n: nat)
    ensures var p := At(g, outcome, n);
            && p.remaining <= g.Keys
            && p.completed == Succeeding(outcome, g.Keys - p.remaining)
  {
    if n > 0 {
      ProgressShape(g, outcome, n - 1);
    }
  }

  lemma {:induction false} RemainingShrinks<T(!new)>(g: map<T, set<T>>, outcome: T -> Outcome, m: nat, n: nat)
    requires m <= n
    ensures At(g, outcome, n).remaining <= At(g, outcome, m).remaining
    ensures At(g, outcome, m).completed <= At(g, outcome, n).completed
  {
    if m < n {
      RemainingShrinks(g, outcome, m, n - 1);
    }
  }

  /** No task is started in two waves. */
  lemma StartsOnce<T(!new)>(g: map<T, set<T>>, outcome: T -> Outcome, m: nat, n: nat)
    requires m < n
    ensures Wave(g, outcome, m) !! Wave(g, outcome, n)
  {
    RemainingShrinks(g, outcome, m + 1, n);
  }

  /** A started task was started in one of the waves made so far. */
  lemma {:induction false} StartedInSomeWave<T(!new)>(
    g: map<T, set<T>>, outcome: T -> Outcome, n: nat, t: T) returns (m: nat)
    requires t in Started(g, outcome, n)
    ensures m < n && t in Wave(g, outcome, m)
  {
    if t in Wave(g, outcome, n - 1) {
      m := n - 1;
    } else {
      m := StartedInSomeWave(g, outcome, n - 1, t);
    }
  }

  /** A task starts only after each dependency succeeded in a strictly earlier wave. */
  lemma DependencyRanEarlier<T(!new)>(
    g: map<T, set<T>>, outcome: T -> Outcome, n: nat, t: T, d: T) returns (m: nat)
    requires t in Wave(g, outcome, n) && d in g[t]
    ensures m < n && d in Wave(g, outcome, m) && outcome(d) == Succeeds
  {
    ProgressShape(g, outcome, n);
    m := StartedInSomeWave(g, outcome, n, d);
  }

  /** After the first wave, a task starts directly after one of its dependencies. */
  lemma StartsWithoutDelay<T(!new)>(g: map<T, set<T>>, outcome: T -> Outcome, n: nat, t: T) returns (d: T)
    requires n > 0 && t in Wave(g, outcome, n)
    ensures d in g[t] && d in Wave(g, outcome, n - 1)
  {
    var p := At(g, outcome, n - 1);
    assert t in p.remaining && t !in Front(g, p);
    d := Outsider(g[t], p.completed);
  }

  /** No dependency chain below a started task is longer than its wave number. */
  lemma {:induction false} ChainsFitWave<T(!new)>(
    g: map<T, set<T>>, outcome: T -> Outcome, n: nat, t: T, p: seq<T>)
    requires t in Wave(g, outcome, n) && |p| >= 1 && p[0] == t && IsPath(g, p)
    ensures |p| - 1 <= n
    decreases |p|
  {
    if |p| > 1 {
      assert Edge(g, p[0], p[1]);
      var m := DependencyRanEarlier(g, outcome, n, t, p[1]);
      ChainsFitWave(g, outcome, m, p[1], p[1..]);
    }
  }

  /** The wave number of a task is the length of its longest dependency chain. */
  lemma {:induction false} WaveIsDepth<T(!new)>(g: map<T, set<T>>, outcome: T -> Outcome, n: nat, t: T)
    returns (p: seq<T>)
    requires t in Wave(g, outcome, n)
    ensures |p| == n + 1 && p[0] == t && IsPath(g, p)
    ensures forall q :: |q| >= 1 && q[0] == t && IsPath(g, q) ==> |q| <= |p|
  {
    if n == 0 {
      p := [t];
    } else {
      var d := StartsWithoutDelay(g, outcome, n, t);
      var q := WaveIsDepth(g, outcome, n - 1, d);
      p := [t] + q;
      assert Edge(g, t, d);
    }
    forall q | |q| >= 1 && q[0] == t && IsPath(g, q) ensures |q| <= |p| {
      ChainsFitWave(g, outcome, n, t, q);
    }
  }

  // ---------------------------------------------------------------- which tasks never start

  /** `a` can never be counted as completed: it is not in the crew, or it ran and did not succeed. */
  ghost predicate Bad<T(!new)>(g: map<T, set<T>>, outcome: T -> Outcome, n: nat, a: T) {
    a !in g || (a in Started(g, outcome, n) && outcome(a) != Succeeds)
  }

  ghost predicate Blocked<T(!new)>(g: map<T, set<T>>, outcome: T -> Outcome, n: nat, t: T) {
    exists a :: Ancestor(g, t, a) && Bad(g, outcome, n, a)
  }

  lemma {:induction false} StartedAncestorsSucceed<T(!new)>(
    g: map<T, set<T>>, outcome: T -> Outcome, n: nat, p: seq<T>)
    requires |p| >= 2 && IsPath(g, p) && p[0] in Started(g, outcome, n)
    ensures p[|p| - 1] in Started(g, outcome, n) && outcome(p[|p| - 1]) == Succeeds
  {
    assert Edge(g, p[0], p[1]);
    var m := StartedInSomeWave(g, outcome, n, p[0]);
    var k := DependencyRanEarlier(g, outcome, m, p[0], p[1]);
    RemainingShrinks(g, outcome, k + 1, n);
    if |p| > 2 {
      StartedAncestorsSucceed(g, outcome, n, p[1..]);
    }
  }

  lemma StuckTaskIsBlocked<T(!new)>(g: map<T, set<T>>, outcome: T -> Outcome, n: nat, t: T)
    requires Wave(g, outcome, n) == {} && t in At(g, outcome, n).remaining
    requires t in g
    ensures exists d :: d in g[t] && (Bad(g, outcome, n, d) || d in At(g, outcome, n).remaining)
  {
    ProgressShape(g, outcome, n);
    assert t !in Wave(g, outcome, n);
    var d := Outsider(g[t], At(g, outcome, n).completed);
    assert Bad(g, outcome, n, d) || d in At(g, outcome, n).remaining;
  }

  /**
   Once no remaining task is runnable, the tasks never started are exactly those with
   an ancestor that failed, panicked or is not part of the crew.
   */
  lemma NeverStartedExactly<T(!new)>(g: map<T, set<T>>, outcome: T -> Outcome, n: nat, t: T)
    requires Acyclic(g) && Wave(g, outcome, n) == {} && t in g
    ensures t !in Started(g, outcome, n) <==> Blocked(g, outcome, n, t)
  {
    ProgressShape(g, outcome, n);
    if t in Started(g, outcome, n) && Blocked(g, outcome, n, t) {
      var a :| Ancestor(g, t, a) && Bad(g, outcome, n, a);
      var p :| PathFromTo(g, p, t, a);
      StartedAncestorsSucceed(g, outcome, n, p);
      assert false;
    }
    var s := set x | x in At(g, outcome, n).remaining && !Blocked(g, outcome, n, x);
    if s != {} {
      var v := MinimalNode(g, s);
      StuckTaskIsBlocked(g, outcome, n, v);
      var d :| d in g[v] && (Bad(g, outcome, n, d) || d in At(g, outcome, n).remaining);
      assert Edge(g, v, d);
      if Bad(g, outcome, n, d) {
        AncestorStep(g, v, d);
      } else {
        assert d !in g[v] * s;
        var a :| Ancestor(g, d, a) && Bad(g, outcome, n, a);
        AncestorTransitive(g, v, d, a);
      }
      assert false;
    }
    assert t !in s;
  }

  // ---------------------------------------------------------------- exits

  /** Whatever the exit, unless the run was cancelled nothing is left to run. */
  lemma ExitIsQuiescent<T(!new)>(g: map<T, set<T>>, outcome: T -> Outcome, cancel: nat -> bool, n: nat, exit: Exit)
    requires EndsAt(g, outcome, cancel, n, exit) && exit != Stopped
    ensures Wave(g, outcome, n) == {}
  {
  }

  /** If every dependency is in the crew and nothing fails, every task runs and the loop ends normally. */
  lemma CleanRunFinishes<T(!new)>(g: map<T, set<T>>, outcome: T -> Outcome, cancel: nat -> bool, n: nat, exit: Exit)
    requires Acyclic(g) && Closed(g) && EndsAt(g, outcome, cancel, n, exit) && exit != Stopped
    requires forall t :: t in Started(g, outcome, n) ==> outcome(t) == Succeeds
    ensures exit == Finished && Started(g, outcome, n) == g.Keys
  {
    forall t | t in g ensures t in Started(g, outcome, n) {
      NeverStartedExactly(g, outcome, n, t);
      forall a | Ancestor(g, t, a) ensures !Bad(g, outcome, n, a) {
        AncestorInClosed(g, t, a);
      }
    }
    ProgressShape(g, outcome, n);
    assert At(g, outcome, n).remaining == {};
  }

  lemma SucceedingWithOneMore<T(!new)>(outcome: T -> Outcome, s: set<T>, x: T)
    ensures Succeeding(outcome, s + {x})
            == if outcome(x) == Succeeds then Succeeding(outcome, s) + {x} else Succeeding(outcome, s)
  {
  }

  lemma AllSucceed<T(!new)>(outcome: T -> Outcome, w: set<T>)
    ensures Succeeding(outcome, w) == w <==> forall t :: t in w ==> outcome(t) == Succeeds
  {
    if Succeeding(outcome, w) != w {
      var t := Outsider(w, Succeeding(outcome, w));
    }
  }

  /**
   The deadlock error is reached exactly when some task is blocked and no task of the
   deepest executed wave failed: a failure seen only in an earlier wave does not halt the loop.
   */
  lemma DeadlockExactly<T(!new)>(g: map<T, set<T>>, outcome: T -> Outcome, cancel: nat -> bool, n: nat, exit: Exit)
    requires Acyclic(g) && EndsAt(g, outcome, cancel, n, exit) && exit != Stopped
    ensures exit == Deadlocked <==>
            && (exists t :: t in g && Blocked(g, outcome, n, t))
            && (n == 0 || forall t :: t in Wave(g, outcome, n - 1) ==> outcome(t) == Succeeds)
  {
    ProgressShape(g, outcome, n);
    var left := At(g, outcome, n).remaining;
    forall t | t in g ensures t in left <==> Blocked(g, outcome, n, t) {
      NeverStartedExactly(g, outcome, n, t);
    }
    if n > 0 {
      AllSucceed(outcome, Wave(g, outcome, n - 1));
      assert exit == Deadlocked ==> Continues(g, outcome, cancel, n - 1);
    }
    if exit == Deadlocked {
      assert !(left <= {});
      var t := Outsider(left, {});
      assert t in g && Blocked(g, outcome, n, t);
    }
  }

  /** One round, with its sets given by their members. */
  lemma RoundByHand<T(!new)>(
    g: map<T, set<T>>, outcome: T -> Outcome, n: nat, p: Progress<T>, w: set<T>, q: Progress<T>)
    requires At(g, outcome, n) == p && p.remaining <= g.Keys
    requires forall t :: t in w <==> t in p.remaining && g[t] <= p.completed
    requires forall t :: t in q.remaining <==> t in p.remaining && t !in w
    requires forall t :: t in q.completed <==> t in p.completed || (t in w && outcome(t) == Succeeds)
    ensures Wave(g, outcome, n) == w && At(g, outcome, n + 1) == q
  {
    assert Front(g, p) == w;
    assert p.remaining - w == q.remaining && p.completed + Succeeding(outcome, w) == q.completed;
  }

  // ---------------------------------------------------------------- the end of a run

  lemma {:induction false} EarlierContinue<T(!new)>(
    g: map<T, set<T>>, outcome: T -> Outcome, cancel: nat -> bool, n: nat, k: nat)
    requires AllContinue(g, outcome, cancel, n) && k < n
    ensures AllContinue(g, outcome, cancel, k) && Continues(g, outcome, cancel, k)
  {
    if k < n - 1 {
      EarlierContinue(g, outcome, cancel, n - 1, k);
    }
  }

  /** No wave starts at a test that finds the run cancelled, and a run is stopped exactly where it is cancelled with tasks left. */
  lemma CancellationExactly<T(!new)>(
    g: map<T, set<T>>, outcome: T -> Outcome, cancel: nat -> bool, n: nat, exit: Exit, k: nat)
    requires EndsAt(g, outcome, cancel, n, exit)
    ensures k < n ==> !cancel(k)
    ensures exit == Stopped ==> cancel(n) && exists t :: t in g && t !in Started(g, outcome, n)
    ensures exit == Finished <==> Started(g, outcome, n) == g.Keys
  {
    ProgressShape(g, outcome, n);
    if k < n {
      if exit == Halted {
        if k < n - 1 {
          EarlierContinue(g, outcome, cancel, n - 1, k);
        }
      } else {
        EarlierContinue(g, outcome, cancel, n, k);
      }
    }
    if exit != Finished {
      var t := Outsider(At(g, outcome, n).remaining, {});
      assert t in g && t !in Started(g, outcome, n);
    }
  }

  lemma NotBothEnd<T(!new)>(
    g: map<T, set<T>>, outcome: T -> Outcome, cancel: nat -> bool, n: nat, e: Exit, m: nat, f: Exit)
    requires EndsAt(g, outcome, cancel, n, e) && EndsAt(g, outcome, cancel, m, f)
    ensures m <= n
  {
    if n < m {
      if f == Halted {
        if n < m - 1 {
          EarlierContinue(g, outcome, cancel, m - 1, n);
        }
      } else {
        EarlierContinue(g, outcome, cancel, m, n);
      }
      RunsOn(g, outcome, cancel, n, e);
    }
  }

  /** Where a run ends, no further wave is made. */
  lemma RunsOn<T(!new)>(g: map<T, set<T>>, outcome: T -> Outcome, cancel: nat -> bool, n: nat, e: Exit)
    requires EndsAt(g, outcome, cancel, n, e)
    ensures cancel(n) || Wave(g, outcome, n) == {}
  {
    ProgressShape(g, outcome, n);
  }

  /** Outcomes and cancellation determine the number of waves and the exit. */
  lemma RunIsDetermined<T(!new)>(
    g: map<T, set<T>>, outcome: T -> Outcome, cancel: nat -> bool, n: nat, e: Exit, m: nat, f: Exit)
    requires EndsAt(g, outcome, cancel, n, e) && EndsAt(g, outcome, cancel, m, f)
    ensures n == m && e == f
  {
    NotBothEnd(g, outcome, cancel, n, e, m, f);
    NotBothEnd(g, outcome, cancel, m, f, n, e);
  }
}
