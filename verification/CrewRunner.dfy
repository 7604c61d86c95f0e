/**
 DAG execution of a crew: tasks run in waves, in any completion order within a wave,
 and may succeed, fail, panic or be cut off by cancellation between waves.
 */
module CrewRunner {
  import opened Graphs
  import opened Tasks
  import opened Waves
  import TaskSort

  datatype TaskResult<T> = TaskResult(taskId: T, status: TaskStatus)

  datatype Event<T> = TaskStarted(id: T) | TaskCompleted(done: T, status: TaskStatus)

  /** The dependency set of every task, whether or not the dependencies are in the crew. */
  function DepSets(tasks: seq<Task>): (g: map<TaskId, set<TaskId>>)
    ensures g.Keys == TaskSort.Ids(tasks)
  {
    if tasks == [] then map[]
    else
      var n := |tasks| - 1;
      assert TaskSort.Ids(tasks) == TaskSort.Ids(tasks[..n]) + {tasks[n].id};
      DepSets(tasks[..n])[tasks[n].id := Elems(tasks[n].dependencies)]
  }

  function StatusOf(o: Outcome): TaskStatus {
    match o
    case Succeeds => Completed
    case Fails => Failed
    case Panics => Queued  // nothing overwrites the status set at launch
  }

  // ---------------------------------------------------------------- the graph of a sorted crew

  /** The crews the sort accepts. */
  ghost predicate Accepted(tasks: seq<Task>) {
    TaskSort.DistinctIds(tasks) && Acyclic(TaskSort.ListedGraph(tasks))
  }

  lemma {:induction false} DepSetsAt(tasks: seq<Task>, k: nat)
    requires TaskSort.DistinctIds(tasks) && k < |tasks|
    ensures tasks[k].id in DepSets(tasks) && DepSets(tasks)[tasks[k].id] == Elems(tasks[k].dependencies)
  {
    var n := |tasks| - 1;
    if k < n {
      DepSetsAt(tasks[..n], k);
    }
  }

  /** Inside the crew, the unrestricted dependencies are the ones the sort sees. */
  lemma DepSetsRestrict(tasks: seq<Task>, v: TaskId)
    requires TaskSort.DistinctIds(tasks) && v in DepSets(tasks)
    ensures DepSets(tasks)[v] * TaskSort.Ids(tasks) == TaskSort.ListedGraph(tasks)[v]
  {
    var k :| 0 <= k < |tasks| && tasks[k].id == v;
    DepSetsAt(tasks, k);
    forall d ensures TaskSort.DependsOn(tasks, v, d) <==> d in DepSets(tasks)[v] {
      if TaskSort.DependsOn(tasks, v, d) {
        var j :| 0 <= j < |tasks| && tasks[j].id == v && d in tasks[j].dependencies;
        assert j == k;
      }
    }
  }

  lemma ClosedCrewGraph(tasks: seq<Task>)
    requires TaskSort.DistinctIds(tasks) && Closed(DepSets(tasks))
    ensures TaskSort.ListedGraph(tasks) == DepSets(tasks)
  {
    forall v | v in DepSets(tasks) ensures TaskSort.ListedGraph(tasks)[v] == DepSets(tasks)[v] {
      DepSetsRestrict(tasks, v);
    }
  }

  /** A crew accepted by the sort has no dependency cycle, counting outside dependencies too. */
  lemma SortedCrewIsAcyclic(tasks: seq<Task>)
    requires Accepted(tasks)
    ensures Acyclic(DepSets(tasks))
  {
    var g, h := DepSets(tasks), TaskSort.ListedGraph(tasks);
    forall v ensures !Ancestor(g, v, v) {
      if Ancestor(g, v, v) {
        var p :| PathFromTo(g, p, v, v);
        forall i, j | 0 <= i && j == i + 1 && j < |p| ensures Edge(h, p[i], p[j]) {
          assert Edge(g, p[i], p[j]);
          assert j < |p| - 1 ==> Edge(g, p[j], p[j + 1]);
          assert j == |p| - 1 ==> p[j] == p[0] && Edge(g, p[0], p[1]);
          DepSetsRestrict(tasks, p[i]);
        }
        assert PathFromTo(h, p, v, v);
        assert Ancestor(h, v, v);
        assert false;
      }
    }
  }

  // ---------------------------------------------------------------- what a run leaves behind

  /** One wave: the order in which its tasks were launched, and the order in which they ended. */
  datatype Round<T> = Round(starts: seq<T>, joins: seq<T>)

  ghost predicate RoundFor<T(!new)>(wave: set<T>, round: Round<T>) {
    Distinct(round.starts) && Elems(round.starts) == wave && Distinct(round.joins) && Elems(round.joins) == wave
  }

  /** `rounds` are the first |rounds| waves, launched and joined in any order. */
  ghost predicate RoundsFor<T(!new)>(g: map<T, set<T>>, outcome: T -> Outcome, rounds: seq<Round<T>>) {
    var m := |rounds| - 1;
    m < 0 || (RoundsFor(g, outcome, rounds[..m]) && RoundFor(Wave(g, outcome, m), rounds[m]))
  }

  function StartEvents<T(!new)>(starts: seq<T>): seq<Event<T>> {
    if starts == [] then [] else StartEvents(starts[..|starts| - 1]) + [TaskStarted(starts[|starts| - 1])]
  }

  function JoinEvents<T(!new)>(outcome: T -> Outcome, joins: seq<T>): seq<Event<T>> {
    if joins == [] then []
    else
      var id := joins[|joins| - 1];
      JoinEvents(outcome, joins[..|joins| - 1])
      + if outcome(id) == Panics then [] else [TaskCompleted(id, StatusOf(outcome(id)))]
  }

  function JoinResults<T(!new)>(outcome: T -> Outcome, joins: seq<T>): seq<TaskResult<T>> {
    if joins == [] then []
    else
      var id := joins[|joins| - 1];
      JoinResults(outcome, joins[..|joins| - 1])
      + if outcome(id) == Panics then [] else [TaskResult(id, StatusOf(outcome(id)))]
  }

  function Log<T(!new)>(outcome: T -> Outcome, rounds: seq<Round<T>>): seq<Event<T>> {
    if rounds == [] then []
    else
      var last := rounds[|rounds| - 1];
      Log(outcome, rounds[..|rounds| - 1]) + StartEvents(last.starts) + JoinEvents(outcome, last.joins)
  }

  function Results<T(!new)>(outcome: T -> Outcome, rounds: seq<Round<T>>): seq<TaskResult<T>> {
    if rounds == [] then []
    else Results(outcome, rounds[..|rounds| - 1]) + JoinResults(outcome, rounds[|rounds| - 1].joins)
  }

  /** Statuses once the tasks `joined` have ended and the tasks `launched` were started. */
  ghost function Statuses<T(!new)>(
    outcome: T -> Outcome, launched: set<T>, joined: set<T>, before: map<T, TaskStatus>)
    : map<T, TaskStatus>
  {
    map t | t in before :: if t in joined then StatusOf(outcome(t)) else if t in launched then Queued else before[t]
  }

  /** Statuses, results and event log are those left by `rounds`. */
  ghost predicate RunsAs<T(!new)>(
    g: map<T, set<T>>, outcome: T -> Outcome, rounds: seq<Round<T>>, before: map<T, TaskStatus>,
    status: map<T, TaskStatus>, results: seq<TaskResult<T>>, log: seq<Event<T>>)
  {
    && RoundsFor(g, outcome, rounds)
    && status == Statuses(outcome, Started(g, outcome, |rounds|), Started(g, outcome, |rounds|), before)
    && results == Results(outcome, rounds)
    && log == Log(outcome, rounds)
  }

  lemma StatusesOnJoin<T(!new)>(
    outcome: T -> Outcome, launched: set<T>, joined: set<T>, before: map<T, TaskStatus>, id: T)
    requires id in launched && id !in joined && id in before
    ensures var next := Statuses(outcome, launched, joined + {id}, before);
            && next == Statuses(outcome, launched, joined, before)[id := StatusOf(outcome(id))]
            && (outcome(id) == Panics ==> next == Statuses(outcome, launched, joined, before))
  {
  }

  /** The members of `a`, in the order of `s`. */
  ghost function Restrict<T(!new)>(s: seq<T>, a: set<T>): seq<T> {
    if s == [] then [] else Restrict(s[..|s| - 1], a) + if s[|s| - 1] in a then [s[|s| - 1]] else []
  }

  lemma {:induction false} RestrictExactly<T(!new)>(s: seq<T>, a: set<T>)
    ensures Elems(Restrict(s, a)) == Elems(s) * a
    ensures Distinct(s) ==> Distinct(Restrict(s, a))
  {
    if s != [] {
      var n := |s| - 1;
      RestrictExactly(s[..n], a);
      assert s == s[..n] + [s[n]];
      DistinctSnoc(s[..n], s[n]);
      DistinctSnoc(Restrict(s[..n], a), s[n]);
      assert Elems(s) == Elems(s[..n]) + {s[n]};
      if s[n] in a {
        assert Elems(Restrict(s, a)) == Elems(Restrict(s[..n], a)) + {s[n]};
      } else {
        assert Restrict(s, a) == Restrict(s[..n], a);
      }
    } else {
      ElemsEmpty(s);
    }
  }

  lemma {:induction false} RestrictTwice<T(!new)>(s: seq<T>, a: set<T>, b: set<T>)
    requires b <= a
    ensures Restrict(Restrict(s, a), b) == Restrict(s, b)
  {
    if s != [] {
      var n := |s| - 1;
      RestrictTwice(s[..n], a, b);
      var r := Restrict(s[..n], a);
      assert (r + [s[n]])[..|r|] == r && r + [] == r;
    }
  }

  lemma {:induction false} RestrictAll<T(!new)>(s: seq<T>, a: set<T>)
    requires Elems(s) <= a
    ensures Restrict(s, a) == s
  {
    if s != [] {
      var n := |s| - 1;
      assert s[n] in Elems(s) && Elems(s[..n]) <= Elems(s);
      RestrictAll(s[..n], a);
      assert s == s[..n] + [s[n]];
    }
  }

  /** Split the remaining tasks, in order, into those whose dependencies are all completed and the others. */
  method Partition<T(!new)>(remaining: seq<T>, g: map<T, set<T>>, completed: set<T>)
    returns (ready: seq<T>, notReady: seq<T>)
    requires Elems(remaining) <= g.Keys
    ensures |ready| + |notReady| == |remaining|
    ensures ready == Restrict(remaining, Front(g, Progress(Elems(remaining), completed)))
    ensures notReady == Restrict(remaining, Elems(remaining) - Front(g, Progress(Elems(remaining), completed)))
  {
    ready, notReady := [], [];
    ghost var front := Front(g, Progress(Elems(remaining), completed));
    for k := 0 to |remaining|
      invariant |ready| + |notReady| == k
      invariant ready == Restrict(remaining[..k], front)
      invariant notReady == Restrict(remaining[..k], Elems(remaining) - front)
    {
      var id := remaining[k];
      assert remaining[..k + 1][..k] == remaining[..k] && id in Elems(remaining);
      if g[id] <= completed {
        ready := ready + [id];
      } else {
        notReady := notReady + [id];
      }
    }
    assert remaining[..|remaining|] == remaining;
  }

  lemma StillInOrder<T(!new)>(g: map<T, set<T>>, outcome: T -> Outcome, n: nat, order: seq<T>)
    ensures var remaining := Restrict(order, At(g, outcome, n).remaining);
            && Restrict(remaining, Wave(g, outcome, n)) == Restrict(order, Wave(g, outcome, n))
            && Restrict(remaining, At(g, outcome, n + 1).remaining) == Restrict(order, At(g, outcome, n + 1).remaining)
  {
    RestrictTwice(order, At(g, outcome, n).remaining, Wave(g, outcome, n));
    RestrictTwice(order, At(g, outcome, n).remaining, At(g, outcome, n + 1).remaining);
  }

  /** What the loop holds at test `n`: the tasks still to start, in sorted order, and those completed. */
  ghost predicate AtHead<T(!new)>(
    g: map<T, set<T>>, outcome: T -> Outcome, order: seq<T>, n: nat, remaining: seq<T>, completed: set<T>)
  {
    && Distinct(remaining) && Progress(Elems(remaining), completed) == At(g, outcome, n)
    && remaining == Restrict(order, At(g, outcome, n).remaining)
  }

  lemma SplitOfRemaining<T(!new)>(g: map<T, set<T>>, outcome: T -> Outcome, order: seq<T>, n: nat, remaining: seq<T>)
    requires Distinct(remaining) && Elems(remaining) == At(g, outcome, n).remaining
    ensures var ready, notReady := Restrict(remaining, Wave(g, outcome, n)), Restrict(remaining, At(g, outcome, n + 1).remaining);
            && Distinct(ready) && Elems(ready) == Wave(g, outcome, n)
            && Distinct(notReady) && Elems(notReady) == At(g, outcome, n + 1).remaining
  {
    RestrictExactly(remaining, Wave(g, outcome, n));
    RestrictExactly(remaining, At(g, outcome, n + 1).remaining);
  }

  /** The split at loop test `n`; nothing is ready exactly when no remaining task is runnable. */
  method Layer<T(!new)>(
    remaining: seq<T>, g: map<T, set<T>>, completed: set<T>,
    ghost outcome: T -> Outcome, ghost order: seq<T>, ghost n: nat)
    returns (ready: seq<T>, notReady: seq<T>)
    requires remaining != [] && AtHead(g, outcome, order, n, remaining, completed)
    ensures ready == Restrict(order, Wave(g, outcome, n)) && Distinct(ready) && Elems(ready) == Wave(g, outcome, n)
    ensures AtHead(g, outcome, order, n + 1, notReady, At(g, outcome, n + 1).completed)
    ensures |ready| + |notReady| == |remaining|
    ensures ready == [] <==> NoneRunnable(g, outcome, n)
    ensures ready != [] <==> Wave(g, outcome, n) != {}
  {
    ProgressShape(g, outcome, n);
    ready, notReady := Partition(remaining, g, completed);
    SplitOfRemaining(g, outcome, order, n, remaining);
    StillInOrder(g, outcome, n, order);
    ElemsEmpty(remaining);
    ElemsEmpty(ready);
  }

  /** Launch every task of a wave; `log` is what that emits. */
  method Launch<T(!new)>(
    ready: seq<T>, status0: map<T, TaskStatus>,
    ghost outcome: T -> Outcome, ghost ended: set<T>, ghost before: map<T, TaskStatus>)
    returns (status: map<T, TaskStatus>, log: seq<Event<T>>)
    requires status0 == Statuses(outcome, ended, ended, before)
    requires Elems(ready) <= before.Keys && Elems(ready) !! ended
    ensures status == Statuses(outcome, ended + Elems(ready), ended, before)
    ensures log == StartEvents(ready)
  {
    status, log := status0, [];
    for k := 0 to |ready|
      invariant status == Statuses(outcome, ended + Elems(ready[..k]), ended, before)
      invariant log == StartEvents(ready[..k])
    {
      var id := ready[k];
      assert ready[..k + 1][..k] == ready[..k];
      assert Elems(ready[..k + 1]) == Elems(ready[..k]) + {id};
      status := status[id := Queued];
      log := log + [TaskStarted(id)];
    }
    assert ready[..|ready|] == ready;
  }

  /** What has been gathered from the tasks joined so far in a wave. */
  datatype Ledger<T> = Ledger(
    succeeded: set<T>, status: map<T, TaskStatus>, results: seq<TaskResult<T>>, log: seq<Event<T>>, failed: bool)

  /** The ledger with one more task joined. */
  function Booked<T(!new)>(l: Ledger<T>, id: T, o: Outcome): Ledger<T> {
    var s := StatusOf(o);
    match o
    case Panics => l.(failed := true)
    case Fails =>
      Ledger(l.succeeded, l.status[id := s], l.results + [TaskResult(id, s)], l.log + [TaskCompleted(id, s)], true)
    case Succeeds =>
      Ledger(l.succeeded + {id}, l.status[id := s], l.results + [TaskResult(id, s)],
             l.log + [TaskCompleted(id, s)], l.failed)
  }

  ghost function Gathered<T(!new)>(outcome: T -> Outcome, status0: map<T, TaskStatus>, joins: seq<T>): Ledger<T> {
    if joins == [] then Ledger({}, status0, [], [], false)
    else Booked(Gathered(outcome, status0, joins[..|joins| - 1]), joins[|joins| - 1], outcome(joins[|joins| - 1]))
  }

  lemma {:induction false} GatheredStatuses<T(!new)>(
    outcome: T -> Outcome, launched: set<T>, ended: set<T>, before: map<T, TaskStatus>, joins: seq<T>)
    requires Distinct(joins) && Elems(joins) <= launched - ended && Elems(joins) <= before.Keys
    ensures Gathered(outcome, Statuses(outcome, launched, ended, before), joins).status
            == Statuses(outcome, launched, ended + Elems(joins), before)
  {
    if joins == [] {
      assert ended + Elems(joins) == ended;
    } else {
      var n := |joins| - 1;
      var id, rest := joins[n], Elems(joins[..n]);
      DistinctSnoc(joins[..n], id);
      assert joins == joins[..n] + [id];
      assert id in Elems(joins);
      GatheredStatuses(outcome, launched, ended, before, joins[..n]);
      StatusesOnJoin(outcome, launched, ended + rest, before, id);
      assert ended + rest + {id} == ended + Elems(joins);
    }
  }

  lemma {:induction false} GatheredMeans<T(!new)>(outcome: T -> Outcome, status0: map<T, TaskStatus>, joins: seq<T>)
    ensures var l := Gathered(outcome, status0, joins);
            && l.succeeded == Succeeding(outcome, Elems(joins))
            && l.results == JoinResults(outcome, joins)
            && l.log == JoinEvents(outcome, joins)
            && (l.failed <==> exists t :: t in Elems(joins) && outcome(t) != Succeeds)
  {
    if joins == [] {
    } else {
      var n := |joins| - 1;
      var id, rest := joins[n], Elems(joins[..n]);
      DistinctSnoc(joins[..n], id);
      assert joins == joins[..n] + [id];
      assert Elems(joins) == rest + {id};
      SucceedingWithOneMore(outcome, rest, id);
      GatheredMeans(outcome, status0, joins[..n]);
    }
  }

  /** Record one finished task. */
  method Book<T(!new)>(l: Ledger<T>, id: T, o: Outcome) returns (m: Ledger<T>)
    ensures m == Booked(l, id, o)
  {
    m := l;
    if o == Panics {
      m := m.(failed := true);
    } else {
      m := m.(status := m.status[id := StatusOf(o)], log := m.log + [TaskCompleted(id, StatusOf(o))]);
      if StatusOf(o) == Failed {
        m := m.(failed := true);
      } else {
        m := m.(succeeded := m.succeeded + {id});
      }
      m := m.(results := m.results + [TaskResult(id, StatusOf(o))]);
    }
  }

  lemma GatheredOneMore<T(!new)>(outcome: T -> Outcome, status0: map<T, TaskStatus>, joins: seq<T>, id: T)
    ensures Gathered(outcome, status0, joins + [id]) == Booked(Gathered(outcome, status0, joins), id, outcome(id))
  {
    assert (joins + [id])[..|joins|] == joins;
  }

  lemma JoinedOneMore<T(!new)>(wave: set<T>, joins: seq<T>, id: T)
    requires Distinct(joins) && Elems(joins) <= wave && id in wave - Elems(joins)
    ensures Distinct(joins + [id]) && Elems(joins + [id]) <= wave
    ensures wave - Elems(joins + [id]) == wave - Elems(joins) - {id}
  {
    DistinctSnoc(joins, id);
  }

  /** Collect a wave's outcomes in whatever order its tasks finish. */
  method Join<T(!new)>(wave: set<T>, outcome: T -> Outcome, status0: map<T, TaskStatus>)
    returns (ledger: Ledger<T>, joins: seq<T>)
    ensures Distinct(joins) && Elems(joins) == wave
    ensures ledger == Gathered(outcome, status0, joins)
  {
    ledger, joins := Ledger({}, status0, [], [], false), [];
    var pending := wave;
    while pending != {}
      invariant Distinct(joins) && Elems(joins) <= wave && pending == wave - Elems(joins)
      invariant ledger == Gathered(outcome, status0, joins)
    {
      var id := AnyOf(pending);
      JoinedOneMore(wave, joins, id);
      GatheredOneMore(outcome, status0, joins, id);
      ledger := Book(ledger, id, outcome(id));
      pending, joins := pending - {id}, joins + [id];
    }
    assert Elems(joins) + pending == wave;
  }

  /** A wave launched and joined leaves statuses as one more round does. */
  lemma WaveStatuses<T(!new)>(
    g: map<T, set<T>>, outcome: T -> Outcome, n: nat, before: map<T, TaskStatus>, joins: seq<T>)
    requires Distinct(joins) && Elems(joins) == Wave(g, outcome, n) && before.Keys == g.Keys
    ensures var ended, now := Started(g, outcome, n), Started(g, outcome, n + 1);
            && now == ended + Elems(joins) && ended !! Elems(joins) && Elems(joins) <= g.Keys
            && Gathered(outcome, Statuses(outcome, now, ended, before), joins).status == Statuses(outcome, now, now, before)
  {
    ProgressShape(g, outcome, n);
    var ended := Started(g, outcome, n);
    assert ended + Elems(joins) == Started(g, outcome, n + 1);
    GatheredStatuses(outcome, ended + Elems(joins), ended, before, joins);
  }

  lemma OneMoreRound<T(!new)>(
    g: map<T, set<T>>, outcome: T -> Outcome, rounds: seq<Round<T>>, before: map<T, TaskStatus>, ready: seq<T>, joins: seq<T>)
    requires RoundsFor(g, outcome, rounds) && RoundFor(Wave(g, outcome, |rounds|), Round(ready, joins))
    ensures var more := rounds + [Round(ready, joins)];
            && RoundsFor(g, outcome, more)
            && Results(outcome, more) == Results(outcome, rounds) + JoinResults(outcome, joins)
            && Log(outcome, more) == Log(outcome, rounds) + StartEvents(ready) + JoinEvents(outcome, joins)
  {
    assert (rounds + [Round(ready, joins)])[..|rounds|] == rounds;
  }

  /** Run the next wave to its end. */
  method RunWave<T(!new)>(
    ready: seq<T>, outcome: T -> Outcome, completed0: set<T>, status0: map<T, TaskStatus>,
    results0: seq<TaskResult<T>>, log0: seq<Event<T>>,
    ghost g: map<T, set<T>>, ghost rounds: seq<Round<T>>, ghost before: map<T, TaskStatus>)
    returns (completed: set<T>, status: map<T, TaskStatus>, results: seq<TaskResult<T>>, log: seq<Event<T>>,
             waveFailed: bool, round: Round<T>)
    requires Distinct(ready) && Elems(ready) == Wave(g, outcome, |rounds|) && before.Keys == g.Keys
    requires completed0 == At(g, outcome, |rounds|).completed
    requires RunsAs(g, outcome, rounds, before, status0, results0, log0)
    ensures completed == At(g, outcome, |rounds| + 1).completed
    ensures waveFailed <==> WaveFailed(g, outcome, |rounds|)
    ensures RunsAs(g, outcome, rounds + [round], before, status, results, log) && round.starts == ready
  {
    WaveStatuses(g, outcome, |rounds|, before, ready);
    var launched, starts := Launch(ready, status0, outcome, Started(g, outcome, |rounds|), before);
    var ledger, joins := Join(Elems(ready), outcome, launched);
    WaveStatuses(g, outcome, |rounds|, before, joins);
    GatheredMeans(outcome, launched, joins);
    AllSucceed(outcome, Elems(joins));
    completed, results, log := completed0 + ledger.succeeded, results0 + ledger.results, log0 + starts + ledger.log;
    status, waveFailed, round := ledger.status, ledger.failed, Round(ready, joins);
    OneMoreRound(g, outcome, rounds, before, ready, joins);
  }

  /** Every wave was launched in the given order. */
  ghost predicate LaunchedInOrder<T(!new)>(order: seq<T>, rounds: seq<Round<T>>) {
    var m := |rounds| - 1;
    m < 0 || (LaunchedInOrder(order, rounds[..m]) && rounds[m].starts == Restrict(order, Elems(rounds[m].starts)))
  }

  lemma LaunchedOneMore<T(!new)>(order: seq<T>, rounds: seq<Round<T>>, round: Round<T>)
    requires LaunchedInOrder(order, rounds) && round.starts == Restrict(order, Elems(round.starts))
    ensures LaunchedInOrder(order, rounds + [round])
  {
    assert (rounds + [round])[..|rounds|] == rounds;
  }

  /** Whether the loop goes on after wave `n`, or halts because a failure left nothing to run. */
  method GoesOn<T(!new)>(
    remaining: seq<T>, g: map<T, set<T>>, completed: set<T>, waveFailed: bool,
    ghost outcome: T -> Outcome, ghost order: seq<T>, ghost cancel: nat -> bool, ghost n: nat)
    returns (on: bool)
    requires AtHead(g, outcome, order, n + 1, remaining, completed) && (waveFailed <==> WaveFailed(g, outcome, n))
    requires AllContinue(g, outcome, cancel, n) && !cancel(n) && Wave(g, outcome, n) != {}
    ensures on ==> AllContinue(g, outcome, cancel, n + 1)
    ensures !on ==> EndsAt(g, outcome, cancel, n + 1, Halted)
  {
    ElemsEmpty(remaining);
    if waveFailed && remaining != [] {
      var runnable, _ := Layer(remaining, g, completed, outcome, order, n + 1);
      return runnable != [];
    }
    return true;
  }

  /** The loop at its head after the given rounds. */
  ghost predicate Looping<T(!new)>(
    order: seq<T>, outcome: T -> Outcome, cancel: nat -> bool, g: map<T, set<T>>, before: map<T, TaskStatus>, s: Loop<T>)
  {
    && before.Keys == g.Keys && RunsAs(g, outcome, s.rounds, before, s.status, s.results, s.log)
    && AtHead(g, outcome, order, |s.rounds|, s.remaining, s.completed) && LaunchedInOrder(order, s.rounds)
    && AllContinue(g, outcome, cancel, |s.rounds|)
  }

  /** The variables of the loop. */
  datatype Loop<T> = Loop(
    remaining: seq<T>, completed: set<T>, status: map<T, TaskStatus>, results: seq<TaskResult<T>>, log: seq<Event<T>>,
    rounds: seq<Round<T>>)

  lemma LoopStarts<T(!new)>(
    order: seq<T>, outcome: T -> Outcome, cancel: nat -> bool, g: map<T, set<T>>, before: map<T, TaskStatus>)
    requires Distinct(order) && Elems(order) == g.Keys == before.Keys
    ensures Looping(order, outcome, cancel, g, before, Loop(order, {}, before, [], [], []))
  {
    RestrictAll(order, g.Keys);
    assert Started(g, outcome, 0) == {};
  }

  /** The exits from the head of the loop. */
  lemma LoopEnds<T(!new)>(
    order: seq<T>, outcome: T -> Outcome, cancel: nat -> bool, g: map<T, set<T>>, before: map<T, TaskStatus>, s: Loop<T>,
    exit: Exit)
    requires Looping(order, outcome, cancel, g, before, s)
    requires match exit
             case Finished => s.remaining == []
             case Stopped => s.remaining != [] && cancel(|s.rounds|)
             case Deadlocked => NoneRunnable(g, outcome, |s.rounds|) && !cancel(|s.rounds|)
             case Halted => false
    ensures EndsAt(g, outcome, cancel, |s.rounds|, exit)
  {
    ElemsEmpty(s.remaining);
  }

  /** One pass through the loop that finds ready tasks. */
  method MakeWave<T(!new)>(
    order: seq<T>, outcome: T -> Outcome, ghost cancel: nat -> bool, g: map<T, set<T>>, ghost before: map<T, TaskStatus>,
    s: Loop<T>, ready: seq<T>, notReady: seq<T>)
    returns (t: Loop<T>, on: bool)
    requires Looping(order, outcome, cancel, g, before, s) && !cancel(|s.rounds|) && ready != []
    requires ready == Restrict(order, Wave(g, outcome, |s.rounds|)) && Distinct(ready)
    requires Elems(ready) == Wave(g, outcome, |s.rounds|) != {}
    requires AtHead(g, outcome, order, |s.rounds| + 1, notReady, At(g, outcome, |s.rounds| + 1).completed)
    ensures t.remaining == notReady && |t.rounds| == |s.rounds| + 1
    ensures RunsAs(g, outcome, t.rounds, before, t.status, t.results, t.log) && LaunchedInOrder(order, t.rounds)
    ensures on ==> Looping(order, outcome, cancel, g, before, t)
    ensures !on ==> EndsAt(g, outcome, cancel, |t.rounds|, Halted)
  {
    var completed, status, results, log, waveFailed, round :=
      RunWave(ready, outcome, s.completed, s.status, s.results, s.log, g, s.rounds, before);
    LaunchedOneMore(order, s.rounds, round);
    on := GoesOn(notReady, g, completed, waveFailed, outcome, order, cancel, |s.rounds|);
    t := Loop(notReady, completed, status, results, log, s.rounds + [round]);
  }

  /** Walk the layers of a sorted crew. */
  method RunWaves<T(!new)>(
    order: seq<T>, outcome: T -> Outcome, cancel: nat -> bool,
    g: map<T, set<T>>, before: map<T, TaskStatus>)
    returns (end: Loop<T>, exit: Exit)
    requires Distinct(order) && Elems(order) == g.Keys == before.Keys
    ensures EndsAt(g, outcome, cancel, |end.rounds|, exit)
    ensures RunsAs(g, outcome, end.rounds, before, end.status, end.results, end.log)
    ensures LaunchedInOrder(order, end.rounds)
  {
    end, exit := Loop(order, {}, before, [], [], []), Finished;
    LoopStarts(order, outcome, cancel, g, before);
    while end.remaining != []
      invariant Looping(order, outcome, cancel, g, before, end)
      decreases |end.remaining|
    {
      if cancel(|end.rounds|) {
        LoopEnds(order, outcome, cancel, g, before, end, Stopped);
        return end, Stopped;
      }
      var ready, notReady := Layer(end.remaining, g, end.completed, outcome, order, |end.rounds|);
      if ready == [] {
        LoopEnds(order, outcome, cancel, g, before, end, Deadlocked);
        return end, Deadlocked;
      }
      var on;
      end, on := MakeWave(order, outcome, cancel, g, before, end, ready, notReady);
      if !on {
        return end, Halted;
      }
    }
    LoopEnds(order, outcome, cancel, g, before, end, Finished);
  }

  class CrewRunner {
    const tasks: seq<Task>
    /** The status of the specification's tasks, by id. */
    var status: map<TaskId, TaskStatus>

    constructor (tasks: seq<Task>)
      ensures this.tasks == tasks
      ensures status.Keys == TaskSort.Ids(tasks)
    {
      this.tasks := tasks;
      status := map t | t in TaskSort.Ids(tasks) :: Pending;
    }

    /**
     Run the crew.  `log` is the stream of emitted events; `rounds` and `exit` say which waves
     were made and how the loop was left, in the run determined by `outcome` and `cancel`; each
     wave is launched in the order the sort gave.
     */
    method RunDag(outcome: TaskId -> Outcome, cancel: nat -> bool)
      returns (r: Result<seq<TaskResult<TaskId>>>, log: seq<Event<TaskId>>, rounds: seq<Round<TaskId>>, exit: Exit,
               order: Result<seq<TaskId>>)
      requires status.Keys == TaskSort.Ids(tasks)
      modifies this
      ensures TaskSort.SortOutcome(tasks, order) && (Accepted(tasks) <==> order.Ok?)
      ensures order.Ok? ==> LaunchedInOrder(order.value, rounds)
      ensures !Accepted(tasks) ==> r == Err(CyclicDAG) && status == old(status) && log == []
      ensures Accepted(tasks) ==>
                && EndsAt(DepSets(tasks), outcome, cancel, |rounds|, exit)
                && RunsAs(DepSets(tasks), outcome, rounds, old(status), status, Results(outcome, rounds), log)
                && r == if exit == Deadlocked then Err(Deadlock) else Ok(Results(outcome, rounds))
    {
      rounds, exit, log := [], Finished, [];
      order := TaskSort.TopologicalSortTasks(tasks);
      if order.Err? {
        return Err(order.error), log, rounds, exit, order;
      }
      var end;
      end, exit := RunWaves(order.value, outcome, cancel, DepSets(tasks), status);
      status, log, rounds := end.status, end.log, end.rounds;
      r := if exit == Deadlocked then Err(Deadlock) else Ok(end.results);
    }
  }

  // ---------------------------------------------------------------- what a run leaves behind, exactly

  /** The events that belong to a run which started the tasks `ended`. */
  ghost predicate EventOf<T(!new)>(outcome: T -> Outcome, ended: set<T>, e: Event<T>) {
    match e
    case TaskStarted(t) => t in ended
    case TaskCompleted(t, s) => t in ended && outcome(t) != Panics && s == StatusOf(outcome(t))
  }

  lemma {:induction false} StartEventsExactly<T(!new)>(starts: seq<T>)
    ensures forall e :: e in StartEvents(starts) <==> e.TaskStarted? && e.id in starts
    ensures Distinct(starts) ==> Distinct(StartEvents(starts))
  {
    if starts != [] {
      var n := |starts| - 1;
      StartEventsExactly(starts[..n]);
      assert starts == starts[..n] + [starts[n]];
      assert Distinct(starts) ==> starts[n] !in starts[..n];
      if Distinct(starts) {
        DistinctConcat(StartEvents(starts[..n]), [TaskStarted(starts[n])]);
      }
    }
  }

  lemma {:induction false} JoinEventsExactly<T(!new)>(outcome: T -> Outcome, joins: seq<T>)
    ensures forall e :: e in JoinEvents(outcome, joins) <==> e.TaskCompleted? && EventOf(outcome, Elems(joins), e)
    ensures forall x :: x in JoinResults(outcome, joins) <==>
                        x.taskId in joins && outcome(x.taskId) != Panics && x.status == StatusOf(outcome(x.taskId))
    ensures Distinct(joins) ==> Distinct(JoinEvents(outcome, joins)) && Distinct(JoinResults(outcome, joins))
  {
    if joins != [] {
      var n := |joins| - 1;
      var id := joins[n];
      JoinEventsExactly(outcome, joins[..n]);
      assert joins == joins[..n] + [id];
      assert Distinct(joins) ==> id !in joins[..n];
      if Distinct(joins) && outcome(id) != Panics {
        DistinctConcat(JoinEvents(outcome, joins[..n]), [TaskCompleted(id, StatusOf(outcome(id)))]);
        DistinctConcat(JoinResults(outcome, joins[..n]), [TaskResult(id, StatusOf(outcome(id)))]);
      }
    }
  }

  lemma LastRoundStarted<T(!new)>(g: map<T, set<T>>, outcome: T -> Outcome, n: nat)
    requires n > 0
    ensures var earlier, w := Started(g, outcome, n - 1), Wave(g, outcome, n - 1);
            earlier !! w && Started(g, outcome, n) == earlier + w
  {
    ProgressShape(g, outcome, n - 1);
  }

  /** Every event of a run is emitted exactly once: one start per started task, one end unless it panicked. */
  lemma {:induction false} LogExactly<T(!new)>(g: map<T, set<T>>, outcome: T -> Outcome, rounds: seq<Round<T>>)
    requires RoundsFor(g, outcome, rounds)
    ensures Distinct(Log(outcome, rounds))
    ensures forall e :: e in Log(outcome, rounds) <==> EventOf(outcome, Started(g, outcome, |rounds|), e)
  {
    if rounds == [] {
      assert Started(g, outcome, 0) == {};
    } else {
      var n := |rounds| - 1;
      var earlier, last := Log(outcome, rounds[..n]), rounds[n];
      LogExactly(g, outcome, rounds[..n]);
      LastRoundStarted(g, outcome, n + 1);
      StartEventsExactly(last.starts);
      JoinEventsExactly(outcome, last.joins);
      DistinctConcat(earlier, StartEvents(last.starts));
      DistinctConcat(earlier + StartEvents(last.starts), JoinEvents(outcome, last.joins));
    }
  }

  /** A run returns exactly one result for every started task that did not panic. */
  lemma {:induction false} ResultsExactly<T(!new)>(g: map<T, set<T>>, outcome: T -> Outcome, rounds: seq<Round<T>>)
    requires RoundsFor(g, outcome, rounds)
    ensures Distinct(Results(outcome, rounds))
    ensures forall x :: x in Results(outcome, rounds) <==>
                        && x.taskId in Started(g, outcome, |rounds|) && outcome(x.taskId) != Panics
                        && x.status == StatusOf(outcome(x.taskId))
  {
    if rounds == [] {
      assert Started(g, outcome, 0) == {};
    } else {
      var n := |rounds| - 1;
      ResultsExactly(g, outcome, rounds[..n]);
      LastRoundStarted(g, outcome, n + 1);
      JoinEventsExactly(outcome, rounds[n].joins);
      DistinctConcat(Results(outcome, rounds[..n]), JoinResults(outcome, rounds[n].joins));
    }
  }

  /** A start is emitted only after the successful end of all its dependencies. */
  ghost predicate StartsAfterDependencies<T(!new)>(g: map<T, set<T>>, log: seq<Event<T>>) {
    forall i, d :: 0 <= i < |log| && log[i].TaskStarted? && log[i].id in g && d in g[log[i].id]
                   ==> TaskCompleted(d, Completed) in log[..i]
  }

  lemma OrderedAppend<T(!new)>(g: map<T, set<T>>, log: seq<Event<T>>, more: seq<Event<T>>)
    requires StartsAfterDependencies(g, log)
    requires forall e, d :: e in more && e.TaskStarted? && e.id in g && d in g[e.id] ==> TaskCompleted(d, Completed) in log
    ensures StartsAfterDependencies(g, log + more)
  {
    var all := log + more;
    forall i, d | 0 <= i < |all| && all[i].TaskStarted? && all[i].id in g && d in g[all[i].id]
      ensures TaskCompleted(d, Completed) in all[..i]
    {
      if i < |log| {
        assert all[..i] == log[..i];
      } else {
        assert all[i] == more[i - |log|];
        assert all[..i] == log + more[..i - |log|];
      }
    }
  }

  lemma {:induction false} LogIsOrdered<T(!new)>(g: map<T, set<T>>, outcome: T -> Outcome, rounds: seq<Round<T>>)
    requires RoundsFor(g, outcome, rounds)
    ensures StartsAfterDependencies(g, Log(outcome, rounds))
  {
    if rounds != [] {
      var n := |rounds| - 1;
      var earlier, last := Log(outcome, rounds[..n]), rounds[n];
      LogIsOrdered(g, outcome, rounds[..n]);
      LogExactly(g, outcome, rounds[..n]);
      StartEventsExactly(last.starts);
      JoinEventsExactly(outcome, last.joins);
      forall e, d | e in StartEvents(last.starts) && e.id in g && d in g[e.id]
        ensures TaskCompleted(d, Completed) in earlier
      {
        assert e.id in Elems(last.starts);
        ProgressShape(g, outcome, n);
        assert EventOf(outcome, Started(g, outcome, n), TaskCompleted(d, Completed));
      }
      OrderedAppend(g, earlier, StartEvents(last.starts));
      OrderedAppend(g, earlier + StartEvents(last.starts), JoinEvents(outcome, last.joins));
    }
  }

  /** What each outcome leaves behind, in the task's status, in the results and in the event stream. */
  lemma OutcomesShow<T(!new)>(
    g: map<T, set<T>>, outcome: T -> Outcome, rounds: seq<Round<T>>, before: map<T, TaskStatus>,
    status: map<T, TaskStatus>, results: seq<TaskResult<T>>, log: seq<Event<T>>, t: T)
    requires RunsAs(g, outcome, rounds, before, status, results, log) && before.Keys == g.Keys && t in g
    requires TaskStarted(t) in log
    ensures outcome(t) == Succeeds <==> TaskResult(t, Completed) in results
    ensures outcome(t) == Succeeds <==> TaskCompleted(t, Completed) in log
    ensures outcome(t) == Succeeds <==> t in status && status[t] == Completed
    ensures outcome(t) == Fails <==> TaskResult(t, Failed) in results
    ensures outcome(t) == Fails <==> TaskCompleted(t, Failed) in log
    ensures outcome(t) == Fails <==> t in status && status[t] == Failed
    ensures outcome(t) == Panics <==> forall s :: TaskResult(t, s) !in results
    ensures outcome(t) == Panics <==> forall s :: TaskCompleted(t, s) !in log
    ensures outcome(t) == Panics <==> t in status && status[t] == Queued
  {
    var started := Started(g, outcome, |rounds|);
    LogExactly(g, outcome, rounds);
    ResultsExactly(g, outcome, rounds);
    assert EventOf(outcome, started, TaskStarted(t));
    forall s ensures TaskCompleted(t, s) in log <==> outcome(t) != Panics && s == StatusOf(outcome(t)) {
      assert TaskCompleted(t, s) in log <==> EventOf(outcome, started, TaskCompleted(t, s));
    }
    forall s ensures TaskResult(t, s) in results <==> outcome(t) != Panics && s == StatusOf(outcome(t)) {
      assert TaskResult(t, s).taskId == t && TaskResult(t, s).status == s;
    }
  }

  /** A task that is not started keeps its status and appears in neither results nor events. */
  lemma UnstartedShowsNothing<T(!new)>(
    g: map<T, set<T>>, outcome: T -> Outcome, rounds: seq<Round<T>>, before: map<T, TaskStatus>,
    status: map<T, TaskStatus>, results: seq<TaskResult<T>>, log: seq<Event<T>>, t: T)
    requires RunsAs(g, outcome, rounds, before, status, results, log) && before.Keys == g.Keys && t in g
    requires TaskStarted(t) !in log
    ensures t in status && status[t] == before[t]
    ensures forall s :: TaskResult(t, s) !in results && TaskCompleted(t, s) !in log
  {
    var started := Started(g, outcome, |rounds|);
    LogExactly(g, outcome, rounds);
    ResultsExactly(g, outcome, rounds);
    assert TaskStarted(t) in log <==> EventOf(outcome, started, TaskStarted(t));
    forall s ensures TaskResult(t, s) !in results && TaskCompleted(t, s) !in log {
      assert TaskResult(t, s).taskId == t;
      assert TaskCompleted(t, s) in log <==> EventOf(outcome, started, TaskCompleted(t, s));
    }
  }

  // ---------------------------------------------------------------- the whole run

  /**
   At whichever exit an uncancelled run takes, the tasks whose start was emitted are exactly
   those without an ancestor that failed, panicked or lies outside the crew.
   */
  lemma StartedExactly(
    tasks: seq<Task>, outcome: TaskId -> Outcome, cancel: nat -> bool, rounds: seq<Round<TaskId>>, exit: Exit, t: TaskId)
    requires Accepted(tasks) && t in TaskSort.Ids(tasks) && exit != Stopped
    requires RoundsFor(DepSets(tasks), outcome, rounds) && EndsAt(DepSets(tasks), outcome, cancel, |rounds|, exit)
    ensures TaskStarted(t) in Log(outcome, rounds) <==> !Blocked(DepSets(tasks), outcome, |rounds|, t)
  {
    var g := DepSets(tasks);
    SortedCrewIsAcyclic(tasks);
    ExitIsQuiescent(g, outcome, cancel, |rounds|, exit);
    NeverStartedExactly(g, outcome, |rounds|, t);
    LogExactly(g, outcome, rounds);
    assert EventOf(outcome, Started(g, outcome, |rounds|), TaskStarted(t)) <==> t in Started(g, outcome, |rounds|);
  }

  /**
   With every dependency in the crew and no failure or panic, an uncancelled run never meets the
   deadlock branch and returns exactly one successful result per task.
   */
  lemma CleanRunIsComplete(
    tasks: seq<Task>, outcome: TaskId -> Outcome, cancel: nat -> bool, rounds: seq<Round<TaskId>>, exit: Exit)
    requires Accepted(tasks) && Closed(DepSets(tasks)) && exit != Stopped
    requires RoundsFor(DepSets(tasks), outcome, rounds) && EndsAt(DepSets(tasks), outcome, cancel, |rounds|, exit)
    requires forall t :: TaskStarted(t) in Log(outcome, rounds) ==> outcome(t) == Succeeds
    ensures exit == Finished
    ensures Distinct(Results(outcome, rounds))
    ensures forall x :: x in Results(outcome, rounds) <==> x.taskId in TaskSort.Ids(tasks) && x.status == Completed
  {
    var g := DepSets(tasks);
    SortedCrewIsAcyclic(tasks);
    LogExactly(g, outcome, rounds);
    forall t | t in Started(g, outcome, |rounds|) ensures outcome(t) == Succeeds {
      assert EventOf(outcome, Started(g, outcome, |rounds|), TaskStarted(t));
    }
    CleanRunFinishes(g, outcome, cancel, |rounds|, exit);
    ResultsExactly(g, outcome, rounds);
  }

  const SAMPLE_CREW := [Task(1, Normal, Pending, []), Task(2, Normal, Pending, [1]),
                        Task(3, Normal, Pending, []), Task(4, Normal, Pending, [3])]

  lemma SampleGraph() returns (g: map<TaskId, set<TaskId>>)
    ensures g == DepSets(SAMPLE_CREW) && IsSample(g)
    ensures TaskSort.DistinctIds(SAMPLE_CREW)
  {
    var s := SAMPLE_CREW;
    g := DepSets(s);
    assert s[0].id == 1 && s[1].id == 2 && s[2].id == 3 && s[3].id == 4;
    DepSetsAt(s, 0);
    DepSetsAt(s, 1);
    DepSetsAt(s, 2);
    DepSetsAt(s, 3);
    forall t ensures t in TaskSort.Ids(s) <==> t in {1, 2, 3, 4} {
    }
    ElemsEmpty<TaskId>([]);
    assert Elems([1]) == {1} && Elems([3]) == {3};
  }

  lemma SampleCrewIsAccepted()
    ensures Accepted(SAMPLE_CREW) && Closed(DepSets(SAMPLE_CREW))
  {
    var g := SampleGraph();
    SampleIsAcyclic(g);
    ClosedCrewGraph(SAMPLE_CREW);
  }

  lemma SampleIsAcyclic(g: map<TaskId, set<TaskId>>)
    requires IsSample(g)
    ensures Acyclic(g) && Closed(g)
  {
    var order := [1, 2, 3, 4];
    assert order[..1] == [1] && order[..3] == [1, 2, 3];
    assert 1 in Elems(order[..1]) && 3 in Elems(order[..3]);
    assert Placed(g, order);
    forall t ensures t in Elems(order) <==> t in g {
    }
    OrderedIsAcyclic(g, order);
  }

  /**
   The deadlock branch is reachable after a successful sort: task 1 fails in the first wave
   beside task 3, task 4 then runs cleanly, and task 2 is found waiting for task 1.
   */
  lemma DeadlockIsReachable(outcome: TaskId -> Outcome, cancel: nat -> bool)
    requires outcome(1) == Fails && forall t :: t != 1 ==> outcome(t) == Succeeds
    requires forall n :: !cancel(n)
    ensures Accepted(SAMPLE_CREW) && Closed(DepSets(SAMPLE_CREW))
    ensures EndsAt(DepSets(SAMPLE_CREW), outcome, cancel, 2, Deadlocked)
  {
    SampleCrewIsAccepted();
    var g := SampleGraph();
    FirstSampleRound(g, outcome);
    LaterSampleRounds(g, outcome);
    SampleContinues(g, outcome, cancel);
  }

  ghost predicate IsSample(g: map<TaskId, set<TaskId>>) {
    g.Keys == {1, 2, 3, 4} && g[1] == {} && g[2] == {1} && g[3] == {} && g[4] == {3}
  }

  lemma FirstSampleRound(g: map<TaskId, set<TaskId>>, outcome: TaskId -> Outcome)
    requires IsSample(g) && outcome(1) == Fails && outcome(3) == Succeeds
    ensures Wave(g, outcome, 0) == {1, 3} && At(g, outcome, 1) == Progress({2, 4}, {3})
  {
    RoundByHand(g, outcome, 0, Progress(g.Keys, {}), {1, 3}, Progress({2, 4}, {3}));
  }

  lemma LaterSampleRounds(g: map<TaskId, set<TaskId>>, outcome: TaskId -> Outcome)
    requires IsSample(g) && outcome(4) == Succeeds && At(g, outcome, 1) == Progress({2, 4}, {3})
    ensures Wave(g, outcome, 1) == {4} && Wave(g, outcome, 2) == {} && At(g, outcome, 2) == Progress({2}, {3, 4})
  {
    var p1, p2 := Progress({2, 4}, {3}), Progress({2}, {3, 4});
    RoundByHand(g, outcome, 1, p1, {4}, p2);
    RoundByHand(g, outcome, 2, p2, {}, p2);
  }

  lemma SampleContinues(g: map<TaskId, set<TaskId>>, outcome: TaskId -> Outcome, cancel: nat -> bool)
    requires Wave(g, outcome, 0) == {1, 3} && Wave(g, outcome, 1) == {4} && Wave(g, outcome, 2) == {}
    requires outcome(4) == Succeeds && !cancel(0) && !cancel(1) && !cancel(2)
    requires At(g, outcome, 2).remaining == {2}
    ensures EndsAt(g, outcome, cancel, 2, Deadlocked)
  {
    assert 1 in Wave(g, outcome, 0) && 4 in Wave(g, outcome, 1) && 2 in At(g, outcome, 2).remaining;
    assert Continues(g, outcome, cancel, 0);
    AllSucceed(outcome, {4});
    assert Continues(g, outcome, cancel, 1);
    assert AllContinue(g, outcome, cancel, 1);
  }
}
