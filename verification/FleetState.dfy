/**
 Distributed crew runs: phases, named barriers, node removal and eviction, as a state
 machine over the manager's two maps.
 */
module FleetState {
  import opened Graphs
  import opened Wrappers

  type NodeId = string
  type RunId = nat

  const MAX_RETAINED_RUNS: nat := 1000

  datatype Phase =
    | Initializing
    | Running
    | WaitingBarrier(barrier: string)
    | Checkpointing
    | Completed
    | Failed(reason: string)
    | Cancelled
  {
    predicate Terminal() {
      Completed? || Failed? || Cancelled?
    }
  }

  datatype NodeProgress = NodeProgress(tasksCompleted: nat, tasksTotal: nat, currentTask: Option<string>)

  datatype CrewRun = CrewRun(
    phase: Phase,
    participants: set<NodeId>,
    progress: map<NodeId, NodeProgress>,
    checkpoints: seq<string>)

  datatype BarrierResult = Waiting(missing: nat) | AllReached | UnknownRun | UnknownNode

  /** Runs by id, and for each run the nodes arrived at each of its barriers. */
  datatype Manager = Manager(runs: map<RunId, CrewRun>, barriers: map<RunId, map<string, set<NodeId>>>)

  datatype Op =
    | Create(id: RunId, nodes: set<NodeId>, tasksPerNode: nat)
    | Report(run: RunId, node: NodeId, completed: nat, task: Option<string>)
    | Reach(run: RunId, node: NodeId, barrier: string)
    | Force(run: RunId, barrier: string)
    | Remove(run: RunId, node: NodeId)
    | Checkpoint(run: RunId, name: string)
    | Finish(run: RunId, phase: Phase)

  // ---------------------------------------------------------------- the operations

  function Evicted(m: Manager): Manager {
    if |m.runs| < MAX_RETAINED_RUNS then m
    else
      var gone := set r | r in m.runs && m.runs[r].phase.Terminal();
      Manager(m.runs - gone, m.barriers - gone)
  }

  function NewRun(nodes: set<NodeId>, tasksPerNode: nat): CrewRun {
    CrewRun(Initializing, nodes, map n | n in nodes :: NodeProgress(0, tasksPerNode, None), [])
  }

  function Barriers(m: Manager, run: RunId): map<string, set<NodeId>> {
    if run in m.barriers then m.barriers[run] else map[]
  }

  function Arrived(m: Manager, run: RunId, barrier: string): set<NodeId> {
    var b := Barriers(m, run);
    if barrier in b then b[barrier] else {}
  }

  function Started(phase: Phase): Phase {
    if phase == Initializing then Running else phase
  }

  /** The barriers every remaining participant has reached. */
  function Satisfied(barriers: map<string, set<NodeId>>, participants: set<NodeId>): set<string> {
    set b | b in barriers && participants <= barriers[b]
  }

  function WithPhase(m: Manager, run: RunId, phase: Phase): Manager
    requires run in m.runs
  {
    m.(runs := m.runs[run := m.runs[run].(phase := phase)])
  }

  /** Whether the length test of `reach_barrier` passes, given the nodes arrived. */
  predicate LengthTest(arrived: set<NodeId>, participants: set<NodeId>) {
    |arrived| >= |participants|
  }

  function ReachResult(arrived: set<NodeId>, participants: set<NodeId>): BarrierResult {
    if LengthTest(arrived, participants) then AllReached else Waiting(|participants| - |arrived|)
  }

  function AfterReach(m: Manager, run: RunId, node: NodeId, barrier: string): Manager
    requires run in m.runs
  {
    var arrived := Arrived(m, run, barrier) + {node};
    var phase := if LengthTest(arrived, m.runs[run].participants) then Running else WaitingBarrier(barrier);
    var next := m.(barriers := m.barriers[run := Barriers(m, run)[barrier := arrived]]);
    WithPhase(next, run, phase)
  }

  function AfterForce(m: Manager, run: RunId, barrier: string): Manager
    requires run in m.runs
  {
    var next := if run in m.barriers then m.(barriers := m.barriers[run := m.barriers[run] - {barrier}]) else m;
    WithPhase(next, run, Running)
  }

  function AfterRemove(m: Manager, run: RunId, node: NodeId): Manager
    requires run in m.runs
  {
    var r := m.runs[run];
    var left := r.(participants := r.participants - {node}, progress := r.progress - {node});
    if run !in m.barriers then m.(runs := m.runs[run := left])
    else
      var done := Satisfied(m.barriers[run], left.participants);
      var phase := if r.phase.WaitingBarrier? && r.phase.barrier in done then Running else r.phase;
      Manager(m.runs[run := left.(phase := phase)], m.barriers[run := m.barriers[run] - done])
  }

  /** The manager after one operation; an unknown run or node changes nothing. */
  function Apply(m: Manager, op: Op): Manager {
    match op
    case Create(id, nodes, tasksPerNode) =>
      var e := Evicted(m);
      e.(runs := e.runs[id := NewRun(nodes, tasksPerNode)])
    case Report(run, node, completed, task) =>
      if run !in m.runs || node !in m.runs[run].progress then m
      else
        var r := m.runs[run];
        var p := r.progress[node].(tasksCompleted := completed, currentTask := task);
        m.(runs := m.runs[run := r.(phase := Started(r.phase), progress := r.progress[node := p])])
    case Reach(run, node, barrier) =>
      if run !in m.runs || node !in m.runs[run].participants then m else AfterReach(m, run, node, barrier)
    case Force(run, barrier) => if run !in m.runs then m else AfterForce(m, run, barrier)
    case Remove(run, node) => if run !in m.runs then m else AfterRemove(m, run, node)
    case Checkpoint(run, name) =>
      if run !in m.runs then m
      else
        var r := m.runs[run];
        m.(runs := m.runs[run := r.(phase := Started(r.phase), checkpoints := r.checkpoints + [name])])
    case Finish(run, phase) => if run !in m.runs then m else WithPhase(m, run, phase)
  }

  /** Run ids are fresh when handed out, and a run is finished only with a terminal phase. */
  ghost predicate Legal(m: Manager, op: Op) {
    match op
    case Create(id, nodes, tasksPerNode) => id !in m.runs
    case Finish(run, phase) => phase.Terminal()
    case _ => true
  }

  // ---------------------------------------------------------------- no lost wakeup

  /** A waiting run has a tracked barrier and a participant still to arrive at it. */
  ghost predicate CanWake(m: Manager, run: RunId)
    requires run in m.runs
  {
    var r := m.runs[run];
    r.phase.WaitingBarrier? ==>
      && run in m.barriers && r.phase.barrier in m.barriers[run]
      && !(r.participants <= m.barriers[run][r.phase.barrier])
  }

  ghost predicate Consistent(m: Manager) {
    && m.barriers.Keys <= m.runs.Keys
    && forall r :: r in m.runs ==> CanWake(m, r) && m.runs[r].progress.Keys == m.runs[r].participants
  }

  lemma TooFewToCover(arrived: set<NodeId>, participants: set<NodeId>)
    requires !LengthTest(arrived, participants)
    ensures !(participants <= arrived)
  {
    if participants <= arrived {
      SubsetSize(participants, arrived);
    }
  }

  lemma ReachKeepsConsistent(m: Manager, run: RunId, node: NodeId, barrier: string)
    requires Consistent(m) && run in m.runs
    ensures Consistent(AfterReach(m, run, node, barrier))
  {
    var n := AfterReach(m, run, node, barrier);
    var arrived := Arrived(m, run, barrier) + {node};
    if !LengthTest(arrived, m.runs[run].participants) {
      TooFewToCover(arrived, m.runs[run].participants);
    }
    forall r | r in n.runs ensures CanWake(n, r) && n.runs[r].progress.Keys == n.runs[r].participants {
      assert CanWake(m, r);
    }
  }

  lemma RemoveKeepsConsistent(m: Manager, run: RunId, node: NodeId)
    requires Consistent(m) && run in m.runs
    ensures Consistent(AfterRemove(m, run, node))
  {
    var n := AfterRemove(m, run, node);
    forall r | r in n.runs ensures CanWake(n, r) && n.runs[r].progress.Keys == n.runs[r].participants {
      assert CanWake(m, r);
    }
  }

  lemma CreateKeepsConsistent(m: Manager, id: RunId, nodes: set<NodeId>, tasksPerNode: nat)
    requires Consistent(m) && id !in m.runs
    ensures Consistent(Apply(m, Create(id, nodes, tasksPerNode)))
  {
    var n := Apply(m, Create(id, nodes, tasksPerNode));
    forall r | r in n.runs ensures CanWake(n, r) && n.runs[r].progress.Keys == n.runs[r].participants {
      if r != id {
        assert CanWake(m, r);
      }
    }
  }

  /** Every operation keeps the manager consistent. */
  lemma ApplyKeepsConsistent(m: Manager, op: Op)
    requires Consistent(m) && Legal(m, op)
    ensures Consistent(Apply(m, op))
  {
    var n := Apply(m, op);
    match op
    case Create(id, nodes, tasksPerNode) => CreateKeepsConsistent(m, id, nodes, tasksPerNode);
    case Reach(run, node, barrier) =>
      if n != m {
        ReachKeepsConsistent(m, run, node, barrier);
      }
    case Remove(run, node) =>
      if n != m {
        RemoveKeepsConsistent(m, run, node);
      }
    case _ =>
      forall r | r in n.runs ensures CanWake(n, r) && n.runs[r].progress.Keys == n.runs[r].participants {
        assert CanWake(m, r);
      }
  }

  const EMPTY: Manager := Manager(map[], map[])

  function After(m: Manager, ops: seq<Op>): Manager {
    if ops == [] then m else Apply(After(m, ops[..|ops| - 1]), ops[|ops| - 1])
  }

  ghost predicate AllLegal(m: Manager, ops: seq<Op>) {
    ops == [] || (AllLegal(m, ops[..|ops| - 1]) && Legal(After(m, ops[..|ops| - 1]), ops[|ops| - 1]))
  }

  /**
   No lost wakeup, in every reachable state: a run waiting at a barrier has an entry for it and a
   participant that has not arrived; and progress is kept for exactly the participants.
   */
  lemma {:induction false} AlwaysConsistent(ops: seq<Op>)
    requires AllLegal(EMPTY, ops)
    ensures Consistent(After(EMPTY, ops))
  {
    if ops != [] {
      AlwaysConsistent(ops[..|ops| - 1]);
      ApplyKeepsConsistent(After(EMPTY, ops[..|ops| - 1]), ops[|ops| - 1]);
    }
  }

  // ---------------------------------------------------------------- what the length test decides

  /**
   With `dead` arrived nodes that no longer take part and `missing` participants, the length test
   passes exactly when there are at least as many dead as missing ones.
   */
  lemma ReachResultExactly(arrived: set<NodeId>, participants: set<NodeId>)
    ensures var dead, missing := arrived - participants, participants - arrived;
            ReachResult(arrived, participants)
            == if |dead| >= |missing| then AllReached else Waiting(|missing| - |dead|)
  {
    var both := arrived * participants;
    assert arrived == (arrived - participants) + both;
    assert participants == (participants - arrived) + both;
  }

  /** The answer "all reached" is right exactly when nobody is missing or the dead are too few to hide it. */
  lemma AllReachedIsRightExactly(arrived: set<NodeId>, participants: set<NodeId>)
    ensures (ReachResult(arrived, participants) == AllReached <==> participants <= arrived)
            <==> (participants <= arrived || |arrived - participants| < |participants - arrived|)
  {
    ReachResultExactly(arrived, participants);
    if participants <= arrived {
      assert participants - arrived == {};
    }
  }

  /** Without dead nodes the length test and the subset test agree, and the count is the number missing. */
  lemma LengthTestWithoutDead(arrived: set<NodeId>, participants: set<NodeId>)
    requires arrived <= participants
    ensures LengthTest(arrived, participants) <==> participants <= arrived
    ensures ReachResult(arrived, participants)
            == if participants <= arrived then AllReached else Waiting(|participants - arrived|)
  {
    ReachResultExactly(arrived, participants);
    assert arrived - participants == {};
    if participants <= arrived {
      assert participants - arrived == {};
    } else {
      var n := Outsider(participants, arrived);
      assert n in participants - arrived;
    }
  }

  /** Arrived nodes are participants, at every barrier of every run. */
  ghost predicate NoDead(m: Manager) {
    forall r, b :: r in m.runs && b in Barriers(m, r) ==> Barriers(m, r)[b] <= m.runs[r].participants
  }

  /** The node has arrived at a barrier that another participant has yet to reach. */
  ghost predicate LeavesDead(m: Manager, run: RunId, node: NodeId) {
    && run in m.runs
    && exists b :: b in Barriers(m, run) && node in Barriers(m, run)[b] && StillPending(m, run, node, b)
  }

  ghost predicate StillPending(m: Manager, run: RunId, node: NodeId, barrier: string)
    requires run in m.runs && barrier in Barriers(m, run)
  {
    !(m.runs[run].participants - {node} <= Barriers(m, run)[barrier])
  }

  lemma RemoveKeepsNoDeadExactly(m: Manager, run: RunId, node: NodeId)
    requires NoDead(m) && run in m.runs
    ensures NoDead(AfterRemove(m, run, node)) <==> !LeavesDead(m, run, node)
  {
    var n := AfterRemove(m, run, node);
    if b :| b in Barriers(m, run) && node in Barriers(m, run)[b] && StillPending(m, run, node, b) {
      assert b in Barriers(n, run) && Barriers(n, run)[b] == Barriers(m, run)[b];
    } else {
      forall r, b | r in n.runs && b in Barriers(n, r) ensures Barriers(n, r)[b] <= n.runs[r].participants {
        assert b in Barriers(m, r) && Barriers(n, r)[b] == Barriers(m, r)[b];
        assert r == run ==> StillPending(m, run, node, b);
      }
    }
  }

  lemma ReachKeepsNoDead(m: Manager, run: RunId, node: NodeId, barrier: string)
    requires NoDead(m) && run in m.runs && node in m.runs[run].participants
    ensures NoDead(AfterReach(m, run, node, barrier))
  {
    var n := AfterReach(m, run, node, barrier);
    forall r, b | r in n.runs && b in Barriers(n, r) ensures Barriers(n, r)[b] <= n.runs[r].participants {
      assert b in Barriers(m, r) ==> Barriers(m, r)[b] <= m.runs[r].participants;
    }
  }

  /** Only the removal of a node already arrived at a pending barrier leaves a dead one behind. */
  lemma NoDeadKeptExactly(m: Manager, op: Op)
    requires Consistent(m) && NoDead(m) && Legal(m, op)
    ensures NoDead(Apply(m, op)) <==> !(op.Remove? && LeavesDead(m, op.run, op.node))
  {
    var n := Apply(m, op);
    match op
    case Reach(run, node, barrier) =>
      if run in m.runs && node in m.runs[run].participants {
        ReachKeepsNoDead(m, run, node, barrier);
      }
    case Remove(run, node) =>
      if run in m.runs {
        RemoveKeepsNoDeadExactly(m, run, node);
      }
    case _ =>
      forall r, b | r in n.runs && b in Barriers(n, r) ensures Barriers(n, r)[b] <= n.runs[r].participants {
        assert b in Barriers(m, r) && Barriers(n, r)[b] == Barriers(m, r)[b];
      }
  }

  /** No removal in the run takes away a node that has arrived at a barrier still pending. */
  ghost predicate Careful(m: Manager, ops: seq<Op>) {
    ops == []
    || (var before := After(m, ops[..|ops| - 1]);
        var op := ops[|ops| - 1];
        Careful(m, ops[..|ops| - 1]) && !(op.Remove? && LeavesDead(before, op.run, op.node)))
  }

  lemma {:induction false} CarefulRunsLeaveNoDead(ops: seq<Op>)
    requires AllLegal(EMPTY, ops) && Careful(EMPTY, ops)
    ensures NoDead(After(EMPTY, ops))
  {
    if ops != [] {
      var earlier := ops[..|ops| - 1];
      CarefulRunsLeaveNoDead(earlier);
      AlwaysConsistent(earlier);
      NoDeadKeptExactly(After(EMPTY, earlier), ops[|ops| - 1]);
    }
  }

  /** After every careful run the answer at a barrier is right, and counts the participants still missing. */
  lemma CarefulRunsAnswerRightly(ops: seq<Op>, run: RunId, node: NodeId, barrier: string)
    requires AllLegal(EMPTY, ops) && Careful(EMPTY, ops)
    requires run in After(EMPTY, ops).runs && node in After(EMPTY, ops).runs[run].participants
    ensures var m := After(EMPTY, ops);
            var participants, arrived := m.runs[run].participants, Arrived(m, run, barrier) + {node};
            ReachResult(arrived, participants)
            == if participants <= arrived then AllReached else Waiting(|participants - arrived|)
  {
    var m := After(EMPTY, ops);
    CarefulRunsLeaveNoDead(ops);
    assert barrier in Barriers(m, run) ==> Barriers(m, run)[barrier] <= m.runs[run].participants;
    LengthTestWithoutDead(Arrived(m, run, barrier) + {node}, m.runs[run].participants);
  }

  lemma AfterOneMore(m: Manager, ops: seq<Op>, op: Op)
    ensures After(m, ops + [op]) == Apply(After(m, ops), op)
  {
    assert (ops + [op])[..|ops|] == ops;
  }

  /** One node of three arrives and is removed: its entry stays, and another node stands alone. */
  lemma RemovedAfterArriving(run: RunId, a: NodeId, others: set<NodeId>, barrier: string)
    requires a !in others && |others| == 2
    ensures var m := Apply(Apply(Apply(EMPTY, Create(run, others + {a}, 1)), Reach(run, a, barrier)), Remove(run, a));
            run in m.runs && m.runs[run].participants == others && Arrived(m, run, barrier) == {a}
  {
    var m1 := Apply(EMPTY, Create(run, others + {a}, 1));
    assert m1.runs[run].participants == others + {a} && Arrived(m1, run, barrier) + {a} == {a};
    var m2 := Apply(m1, Reach(run, a, barrier));
    assert m2.barriers[run] == map[barrier := {a}] && m2.runs[run].participants == others + {a};
    assert !(others <= {a}) by {
      if others <= {a} {
        SubsetSize(others, {a});
      }
    }
    assert others + {a} - {a} == others;
  }

  /** A barrier can be reported reached by all while a participant is still missing. */
  lemma PrematureBarrier(run: RunId, a: NodeId, b: NodeId, c: NodeId, barrier: string)
    requires a != b && b != c && a != c
    ensures var m := After(EMPTY, [] + [Create(run, {b, c} + {a}, 1)] + [Reach(run, a, barrier)] + [Remove(run, a)]);
            && run in m.runs && c in m.runs[run].participants
            && c !in Arrived(m, run, barrier) + {b}
            && ReachResult(Arrived(m, run, barrier) + {b}, m.runs[run].participants) == AllReached
  {
    var create, reach, remove := Create(run, {b, c} + {a}, 1), Reach(run, a, barrier), Remove(run, a);
    AfterOneMore(EMPTY, [], create);
    AfterOneMore(EMPTY, [] + [create], reach);
    AfterOneMore(EMPTY, [] + [create] + [reach], remove);
    RemovedAfterArriving(run, a, {b, c}, barrier);
    assert |{a} + {b}| == 2;
  }

  // ---------------------------------------------------------------- using a barrier again

  /** Every participant has arrived, and the entry is still there. */
  ghost predicate Open(m: Manager, run: RunId, barrier: string) {
    run in m.runs && barrier in Barriers(m, run) && m.runs[run].participants <= Barriers(m, run)[barrier]
  }

  /** The operations that forget a barrier of a run. */
  ghost predicate Closes(m: Manager, op: Op, run: RunId, barrier: string) {
    || (op.Force? && op.run == run && op.barrier == barrier)
    || (op.Remove? && op.run == run)
    || (op.Create? && run !in Evicted(m).runs)
  }

  lemma OpenIsKept(m: Manager, op: Op, run: RunId, barrier: string)
    requires Open(m, run, barrier) && Legal(m, op) && !Closes(m, op, run, barrier)
    ensures Open(Apply(m, op), run, barrier)
  {
    if op.Reach? && op.run in m.runs && op.node in m.runs[op.run].participants {
      ReachKeepsOpen(m, op.run, op.node, op.barrier, run, barrier);
    } else if op.Create? {
      assert Apply(m, op).runs[run] == m.runs[run];
    }
  }

  lemma ReachKeepsOpen(m: Manager, at: RunId, node: NodeId, name: string, run: RunId, barrier: string)
    requires Open(m, run, barrier) && at in m.runs
    ensures Open(AfterReach(m, at, node, name), run, barrier)
  {
    var n := AfterReach(m, at, node, name);
    assert n.runs[run].participants == m.runs[run].participants;
    assert barrier in Barriers(n, run) && Barriers(m, run)[barrier] <= Barriers(n, run)[barrier];
  }

  /** A barrier once reached by all is not reset: it stays open exactly until an operation closes it. */
  lemma OpenIsLeftExactly(m: Manager, op: Op, run: RunId, barrier: string)
    requires Open(m, run, barrier) && Legal(m, op)
    ensures Open(Apply(m, op), run, barrier) <==> !Closes(m, op, run, barrier)
  {
    if !Closes(m, op, run, barrier) {
      OpenIsKept(m, op, run, barrier);
    }
  }

  /** Open before the operations and after each of them. */
  ghost predicate OpenThroughout(m: Manager, ops: seq<Op>, run: RunId, barrier: string) {
    Open(After(m, ops), run, barrier) && (ops == [] || OpenThroughout(m, ops[..|ops| - 1], run, barrier))
  }

  ghost predicate NoneCloses(m: Manager, ops: seq<Op>, run: RunId, barrier: string) {
    ops == []
    || (var earlier := ops[..|ops| - 1];
        NoneCloses(m, earlier, run, barrier) && !Closes(After(m, earlier), ops[|ops| - 1], run, barrier))
  }

  lemma OpenAnswersAll(m: Manager, run: RunId, barrier: string, node: NodeId)
    requires Open(m, run, barrier)
    ensures ReachResult(Arrived(m, run, barrier) + {node}, m.runs[run].participants) == AllReached
  {
    SubsetSize(m.runs[run].participants, Arrived(m, run, barrier) + {node});
  }

  /**
   Over any operations a barrier reached by all stays open exactly as long as none of them forces it,
   removes a node of the run or evicts the run; until then every arrival is told "all reached".
   */
  lemma {:induction false} ReachedBarrierStaysOpen(m: Manager, ops: seq<Op>, run: RunId, barrier: string, node: NodeId)
    requires Open(m, run, barrier) && AllLegal(m, ops)
    ensures OpenThroughout(m, ops, run, barrier) <==> NoneCloses(m, ops, run, barrier)
    ensures NoneCloses(m, ops, run, barrier) ==>
              var n := After(m, ops);
              run in n.runs && ReachResult(Arrived(n, run, barrier) + {node}, n.runs[run].participants) == AllReached
  {
    if ops != [] {
      var earlier := ops[..|ops| - 1];
      ReachedBarrierStaysOpen(m, earlier, run, barrier, node);
      if OpenThroughout(m, earlier, run, barrier) {
        OpenIsLeftExactly(After(m, earlier), ops[|ops| - 1], run, barrier);
      }
    }
    if NoneCloses(m, ops, run, barrier) {
      OpenAnswersAll(After(m, ops), run, barrier, node);
    }
  }

  /** The first arrivals of both participants of a run: one waits, the other opens the barrier. */
  lemma FirstUse(run: RunId, a: NodeId, b: NodeId, barrier: string)
    requires a != b
    ensures var m1 := Apply(EMPTY, Create(run, {a, b}, 1));
            var m2 := Apply(m1, Reach(run, a, barrier));
            var m3 := Apply(m2, Reach(run, b, barrier));
            && ReachResult(Arrived(m1, run, barrier) + {a}, {a, b}) == Waiting(1)
            && m3.runs[run].participants == {a, b} && Open(m3, run, barrier)
  {
    var m1 := Apply(EMPTY, Create(run, {a, b}, 1));
    assert |{a}| == 1 && |{a, b}| == 2;
    assert m1.runs[run].participants == {a, b} && Arrived(m1, run, barrier) + {a} == {a};
    var m2 := Apply(m1, Reach(run, a, barrier));
    assert m2.runs[run].participants == {a, b} && Arrived(m2, run, barrier) == {a};
    assert {a} + {b} == {a, b};
  }

  /** On its second use the barrier does not wait: the first to come again is told all have. */
  lemma SecondUseDoesNotWait(run: RunId, a: NodeId, b: NodeId, barrier: string)
    requires a != b
    ensures var create, ra, rb := Create(run, {a, b}, 1), Reach(run, a, barrier), Reach(run, b, barrier);
            var first, second := After(EMPTY, [] + [create]), After(EMPTY, [] + [create] + [ra] + [rb]);
            && run in first.runs && run in second.runs && second.runs[run].participants == {a, b}
            && ReachResult(Arrived(first, run, barrier) + {a}, {a, b}) == Waiting(1)
            && ReachResult(Arrived(second, run, barrier) + {a}, {a, b}) == AllReached
  {
    var create, ra, rb := Create(run, {a, b}, 1), Reach(run, a, barrier), Reach(run, b, barrier);
    AfterOneMore(EMPTY, [], create);
    AfterOneMore(EMPTY, [] + [create], ra);
    AfterOneMore(EMPTY, [] + [create] + [ra], rb);
    FirstUse(run, a, b, barrier);
    OpenAnswersAll(After(EMPTY, [] + [create] + [ra] + [rb]), run, barrier, a);
  }

  // ---------------------------------------------------------------- terminal phases

  /** The operations that can take a run out of a terminal phase. */
  ghost predicate Revives(m: Manager, op: Op, run: RunId)
    requires run in m.runs
  {
    || (op.Force? && op.run == run)
    || (op.Reach? && op.run == run && op.node in m.runs[run].participants)
  }

  lemma TerminalIsLeftExactly(m: Manager, op: Op, run: RunId)
    requires run in m.runs && m.runs[run].phase.Terminal() && Legal(m, op)
    ensures run in Apply(m, op).runs ==> (Apply(m, op).runs[run].phase.Terminal() <==> !Revives(m, op, run))
    ensures run !in Apply(m, op).runs <==> op.Create? && |m.runs| >= MAX_RETAINED_RUNS
  {
  }

  /** A completed run is running again after its barrier, never used, is forced. */
  lemma CompletedRunIsRevived(run: RunId, nodes: set<NodeId>, barrier: string)
    ensures var create, finish, force := Create(run, nodes, 1), Finish(run, Completed), Force(run, barrier);
            var done, revived := After(EMPTY, [] + [create] + [finish]), After(EMPTY, [] + [create] + [finish] + [force]);
            && run in done.runs && done.runs[run].phase == Completed
            && run in revived.runs && revived.runs[run].phase == Running
  {
    var create, finish, force := Create(run, nodes, 1), Finish(run, Completed), Force(run, barrier);
    AfterOneMore(EMPTY, [], create);
    AfterOneMore(EMPTY, [] + [create], finish);
    AfterOneMore(EMPTY, [] + [create] + [finish], force);
  }

  // ---------------------------------------------------------------- the operations in plain terms

  /** After an arrival the run waits at that barrier exactly if someone is missing, and runs exactly if nobody is. */
  lemma PhaseAfterReach(m: Manager, run: RunId, node: NodeId, barrier: string)
    requires run in m.runs && node in m.runs[run].participants
    ensures var n := Apply(m, Reach(run, node, barrier));
            var answer := ReachResult(Arrived(m, run, barrier) + {node}, m.runs[run].participants);
            && run in n.runs && Arrived(n, run, barrier) == Arrived(m, run, barrier) + {node}
            && (n.runs[run].phase == WaitingBarrier(barrier) <==> answer.Waiting?)
            && (n.runs[run].phase == Running <==> answer == AllReached)
  {
  }

  /** A forced barrier is forgotten and its run goes on. */
  lemma ForceExactly(m: Manager, run: RunId, barrier: string)
    requires run in m.runs
    ensures var n := Apply(m, Force(run, barrier));
            run in n.runs && n.runs[run].phase == Running && Arrived(n, run, barrier) == {}
  {
  }

  /** A removed node takes part no longer, and no barrier all others have reached remains. */
  lemma RemoveExactly(m: Manager, run: RunId, node: NodeId, barrier: string)
    requires run in m.runs && barrier in Barriers(m, run)
    ensures var n, others := Apply(m, Remove(run, node)), m.runs[run].participants - {node};
            && run in n.runs && n.runs[run].participants == others && n.runs[run].progress.Keys == m.runs[run].progress.Keys - {node}
            && (barrier in Barriers(n, run) <==> !(others <= Arrived(m, run, barrier)))
            && (barrier in Barriers(n, run) ==> Arrived(n, run, barrier) == Arrived(m, run, barrier))
            && (!m.runs[run].phase.WaitingBarrier? ==> n.runs[run].phase == m.runs[run].phase)
            && (m.runs[run].phase == WaitingBarrier(barrier) ==>
                  n.runs[run].phase == if others <= Arrived(m, run, barrier) then Running else WaitingBarrier(barrier))
  {
  }

  /** A report sets the node's count and current task, keeps its total, and starts the run. */
  lemma ReportExactly(m: Manager, run: RunId, node: NodeId, completed: nat, task: Option<string>)
    requires run in m.runs && node in m.runs[run].progress
    ensures var n := Apply(m, Report(run, node, completed, task));
            && run in n.runs
            && n.runs[run].progress == m.runs[run].progress[node := NodeProgress(completed, m.runs[run].progress[node].tasksTotal, task)]
            && n.runs[run].phase == if m.runs[run].phase == Initializing then Running else m.runs[run].phase
  {
  }

  /** A checkpoint adds its name behind the earlier ones and starts the run. */
  lemma CheckpointExactly(m: Manager, run: RunId, name: string)
    requires run in m.runs
    ensures var n := Apply(m, Checkpoint(run, name));
            && run in n.runs && n.runs[run].checkpoints == m.runs[run].checkpoints + [name]
            && n.runs[run].phase == if m.runs[run].phase == Initializing then Running else m.runs[run].phase
  {
  }

  /** A finished run has the phase it was finished with. */
  lemma FinishExactly(m: Manager, run: RunId, phase: Phase)
    requires run in m.runs
    ensures var n := Apply(m, Finish(run, phase)); run in n.runs && n.runs[run].phase == phase
  {
  }

  /** A new run has its nodes, none of them with anything done, no checkpoint and nobody at any barrier. */
  lemma CreateExactly(m: Manager, id: RunId, nodes: set<NodeId>, tasksPerNode: nat, barrier: string)
    requires Consistent(m) && id !in m.runs
    ensures var n := Apply(m, Create(id, nodes, tasksPerNode));
            && id in n.runs && n.runs[id].participants == nodes == n.runs[id].progress.Keys
            && (forall k :: k in nodes ==> n.runs[id].progress[k] == NodeProgress(0, tasksPerNode, None))
            && n.runs[id].phase == Initializing && n.runs[id].checkpoints == [] && Arrived(n, id, barrier) == {}
  {
  }

  /** With a thousand runs or more, creating another drops exactly the completed, failed and cancelled ones. */
  lemma EvictionExactly(m: Manager, id: RunId, nodes: set<NodeId>, tasksPerNode: nat, run: RunId)
    requires run in m.runs && id !in m.runs
    ensures run !in Apply(m, Create(id, nodes, tasksPerNode)).runs
            <==> |m.runs| >= 1000
                 && (m.runs[run].phase == Completed || m.runs[run].phase.Failed? || m.runs[run].phase == Cancelled)
  {
  }

  ghost predicate SameRun(m: Manager, n: Manager, run: RunId) {
    run in m.runs && run in n.runs && n.runs[run] == m.runs[run] && Barriers(n, run) == Barriers(m, run)
  }

  lemma BarrierStepsKeepOthers(m: Manager, run: RunId, node: NodeId, barrier: string, other: RunId)
    requires run in m.runs && other in m.runs && run != other
    ensures SameRun(m, AfterReach(m, run, node, barrier), other) && SameRun(m, AfterForce(m, run, barrier), other)
  {
  }

  lemma RemoveKeepsOthers(m: Manager, run: RunId, node: NodeId, other: RunId)
    requires run in m.runs && other in m.runs && run != other
    ensures SameRun(m, AfterRemove(m, run, node), other)
  {
  }

  lemma CreateKeepsOthers(m: Manager, op: Op, other: RunId)
    requires op.Create? && Legal(m, op) && other in m.runs
    ensures other in Apply(m, op).runs ==> SameRun(m, Apply(m, op), other)
  {
  }

  /** No operation changes a run it does not name, unless it evicts it. */
  lemma OthersAreKept(m: Manager, op: Op, run: RunId)
    requires run in m.runs && Legal(m, op) && (op.Create? || op.run != run)
    ensures run in Apply(m, op).runs || !op.Create? ==> SameRun(m, Apply(m, op), run)
  {
    match op
    case Create(_, _, _) => CreateKeepsOthers(m, op, run);
    case Reach(at, node, barrier) => if at in m.runs { BarrierStepsKeepOthers(m, at, node, barrier, run); }
    case Force(at, barrier) => if at in m.runs { BarrierStepsKeepOthers(m, at, "", barrier, run); }
    case Remove(at, node) => if at in m.runs { RemoveKeepsOthers(m, at, node, run); }
    case _ =>
  }

  // ---------------------------------------------------------------- who waits, over runs

  ghost predicate WaitsAt(m: Manager, run: RunId, barrier: string) {
    run in m.runs && m.runs[run].phase == WaitingBarrier(barrier)
  }

  /** The operation is an arrival at the barrier that finds someone missing. */
  ghost predicate ArrivesEarly(m: Manager, op: Op, run: RunId, barrier: string) {
    && op.Reach? && op.run == run && op.barrier == barrier
    && run in m.runs && op.node in m.runs[run].participants
    && ReachResult(Arrived(m, run, barrier) + {op.node}, m.runs[run].participants).Waiting?
  }

  /** The operation ends the wait: another arrival, a forced barrier, a finish, or a removal all others allow. */
  ghost predicate EndsWait(m: Manager, op: Op, run: RunId, barrier: string) {
    || (op.Reach? && op.run == run && run in m.runs && op.node in m.runs[run].participants)
    || (op.Force? && op.run == run)
    || (op.Finish? && op.run == run)
    || (op.Remove? && op.run == run && run in m.runs && m.runs[run].participants - {op.node} <= Arrived(m, run, barrier))
  }

  lemma WaitStep(m: Manager, op: Op, run: RunId, barrier: string)
    requires Consistent(m) && Legal(m, op)
    ensures WaitsAt(Apply(m, op), run, barrier)
            <==> ArrivesEarly(m, op, run, barrier) || (WaitsAt(m, run, barrier) && !EndsWait(m, op, run, barrier))
  {
    if run !in m.runs || (!op.Create? && op.run != run) {
      OtherRunWaits(m, op, run, barrier);
    } else {
      assert CanWake(m, run);
      match op
      case Create(_, _, _) => assert run in Apply(m, op).runs ==> Apply(m, op).runs[run] == m.runs[run];
      case Reach(_, node, at) =>
        if node in m.runs[run].participants {
          PhaseAfterReach(m, run, node, at);
        }
      case Remove(_, node) => RemoveWaits(m, run, node, barrier);
      case Force(_, at) => ForceExactly(m, run, at);
      case Finish(_, phase) => FinishExactly(m, run, phase);
      case Report(_, _, _, _) =>
      case Checkpoint(_, _) =>
    }
  }

  lemma OtherRunWaits(m: Manager, op: Op, run: RunId, barrier: string)
    requires Legal(m, op) && (run !in m.runs || (!op.Create? && op.run != run))
    ensures WaitsAt(Apply(m, op), run, barrier) <==> WaitsAt(m, run, barrier)
    ensures !ArrivesEarly(m, op, run, barrier)
    ensures WaitsAt(m, run, barrier) ==> !EndsWait(m, op, run, barrier)
  {
    if run in m.runs { OthersAreKept(m, op, run); }
  }

  lemma RemoveWaits(m: Manager, run: RunId, node: NodeId, barrier: string)
    requires run in m.runs && CanWake(m, run)
    ensures WaitsAt(Apply(m, Remove(run, node)), run, barrier)
            <==> WaitsAt(m, run, barrier) && !(m.runs[run].participants - {node} <= Arrived(m, run, barrier))
  {
    if m.runs[run].phase.WaitingBarrier? {
      RemoveExactly(m, run, node, m.runs[run].phase.barrier);
    }
  }

  /** Operation `k` is such an arrival, and none since ends the wait. */
  ghost predicate WaitsSince(ops: seq<Op>, k: nat, run: RunId, barrier: string) {
    && k < |ops| && ArrivesEarly(After(EMPTY, ops[..k]), ops[k], run, barrier)
    && forall j :: k < j < |ops| ==> !EndsWait(After(EMPTY, ops[..j]), ops[j], run, barrier)
  }

  lemma WaitsSinceOneMore(ops: seq<Op>, op: Op, k: nat, run: RunId, barrier: string)
    ensures WaitsSince(ops + [op], k, run, barrier)
            <==> || (k == |ops| && ArrivesEarly(After(EMPTY, ops), op, run, barrier))
                 || (WaitsSince(ops, k, run, barrier) && !EndsWait(After(EMPTY, ops), op, run, barrier))
  {
    var all := ops + [op];
    assert all[..|ops|] == ops && all[|ops|] == op;
    forall j: nat | j < |ops| ensures all[..j] == ops[..j] && all[j] == ops[j] {
    }
  }

  /**
   In every run of the manager, a crew run waits at a barrier exactly if a participant arrived there
   while someone was missing and nothing has ended the wait since.
   */
  lemma {:induction false} WaitsExactly(ops: seq<Op>, run: RunId, barrier: string)
    requires AllLegal(EMPTY, ops)
    ensures WaitsAt(After(EMPTY, ops), run, barrier) <==> exists k: nat :: WaitsSince(ops, k, run, barrier)
  {
    if ops != [] {
      var earlier, op := ops[..|ops| - 1], ops[|ops| - 1];
      assert ops == earlier + [op];
      WaitsExactly(earlier, run, barrier);
      AlwaysConsistent(earlier);
      WaitStep(After(EMPTY, earlier), op, run, barrier);
      forall k: nat
        ensures WaitsSince(ops, k, run, barrier)
                <==> || (k == |earlier| && ArrivesEarly(After(EMPTY, earlier), op, run, barrier))
                     || (WaitsSince(earlier, k, run, barrier) && !EndsWait(After(EMPTY, earlier), op, run, barrier))
      {
        WaitsSinceOneMore(earlier, op, k, run, barrier);
      }
      if ArrivesEarly(After(EMPTY, earlier), op, run, barrier) {
        assert WaitsSince(ops, |earlier|, run, barrier);
      }
    }
  }

  /** Two nodes, one arrived: the run waits. */
  lemma WaitingIsReachable(run: RunId, a: NodeId, b: NodeId, barrier: string)
    requires a != b
    ensures WaitsAt(After(EMPTY, [] + [Create(run, {a, b}, 1)] + [Reach(run, a, barrier)]), run, barrier)
    ensures AllLegal(EMPTY, [] + [Create(run, {a, b}, 1)] + [Reach(run, a, barrier)])
  {
    var create, reach := Create(run, {a, b}, 1), Reach(run, a, barrier);
    AfterOneMore(EMPTY, [], create);
    AfterOneMore(EMPTY, [] + [create], reach);
    FirstUse(run, a, b, barrier);
    var m1 := Apply(EMPTY, create);
    assert m1.runs[run].participants == {a, b};
    PhaseAfterReach(m1, run, a, barrier);
    assert ([] + [create] + [reach])[..1] == [] + [create] && ([] + [create])[..0] == [];
  }

  // ---------------------------------------------------------------- the manager object

  lemma DropOneMore<K, V>(m: map<K, V>, gone: set<K>, k: K)
    ensures m - (gone + {k}) == (m - gone) - {k}
  {
  }

  /** Drop the given runs one by one, each with its barriers. */
  method DropAll<K, V, W>(runs0: map<K, V>, barriers0: map<K, W>, toRemove: set<K>)
    returns (runs: map<K, V>, barriers: map<K, W>)
    ensures runs == runs0 - toRemove && barriers == barriers0 - toRemove
  {
    runs, barriers := runs0, barriers0;
    ghost var gone := {};
    var rest := toRemove;
    while rest != {}
      invariant gone == toRemove - rest && rest <= toRemove
      invariant runs == runs0 - gone && barriers == barriers0 - gone
      decreases rest
    {
      var id := AnyOf(rest);
      DropOneMore(runs0, gone, id);
      DropOneMore(barriers0, gone, id);
      rest, gone := rest - {id}, gone + {id};
      runs, barriers := runs - {id}, barriers - {id};
    }
    assert gone == toRemove;
  }

  /** Complete the satisfied barriers one by one, resuming the run if it waits at one of them. */
  method CompleteAll(pending: map<string, set<NodeId>>, satisfied: set<string>, phase0: Phase)
    returns (left: map<string, set<NodeId>>, phase: Phase)
    ensures left == pending - satisfied
    ensures phase == if phase0.WaitingBarrier? && phase0.barrier in satisfied then Running else phase0
  {
    left, phase := pending, phase0;
    ghost var gone := {};
    var rest := satisfied;
    while rest != {}
      invariant gone == satisfied - rest && rest <= satisfied
      invariant left == pending - gone
      invariant phase == if phase0.WaitingBarrier? && phase0.barrier in gone then Running else phase0
      decreases rest
    {
      var name := AnyOf(rest);
      DropOneMore(pending, gone, name);
      rest, gone := rest - {name}, gone + {name};
      left := left - {name};
      if phase == WaitingBarrier(name) {
        phase := Running;
      }
    }
    assert gone == satisfied;
  }

  class CrewStateManager {
    var runs: map<RunId, CrewRun>
    var barriers: map<RunId, map<string, set<NodeId>>>

    ghost function View(): Manager
      reads this
    {
      Manager(runs, barriers)
    }

    constructor ()
      ensures View() == EMPTY
    {
      runs, barriers := map[], map[];
    }

    /** Drop terminal runs, with their barriers, when at capacity. */
    method EvictIfNeeded()
      modifies this
      ensures View() == Evicted(old(View()))
    {
      if |runs| >= MAX_RETAINED_RUNS {
        var toRemove := set r | r in runs && runs[r].phase.Terminal();
        runs, barriers := DropAll(runs, barriers, toRemove);
      }
    }

    method CreateRun(id: RunId, nodes: set<NodeId>, tasksPerNode: nat)
      requires id !in runs
      modifies this
      ensures View() == Apply(old(View()), Create(id, nodes, tasksPerNode))
    {
      EvictIfNeeded();
      var progress := map n | n in nodes :: NodeProgress(0, tasksPerNode, None);
      runs := runs[id := CrewRun(Initializing, nodes, progress, [])];
    }

    method ReportProgress(run: RunId, node: NodeId, completed: nat, task: Option<string>) returns (applied: bool)
      modifies this
      ensures View() == Apply(old(View()), Report(run, node, completed, task))
      ensures applied <==> run in old(runs) && node in old(runs)[run].progress
    {
      if run !in runs {
        return false;
      }
      var r := runs[run];
      if node !in r.progress {
        return false;
      }
      r := r.(progress := r.progress[node := r.progress[node].(tasksCompleted := completed, currentTask := task)]);
      if r.phase == Initializing {
        r := r.(phase := Running);
      }
      runs := runs[run := r];
      return true;
    }

    method ReachBarrier(run: RunId, node: NodeId, barrier: string) returns (result: BarrierResult)
      modifies this
      ensures View() == Apply(old(View()), Reach(run, node, barrier))
      ensures result == if run !in old(runs) then UnknownRun
                        else if node !in old(runs)[run].participants then UnknownNode
                        else ReachResult(Arrived(old(View()), run, barrier) + {node}, old(runs)[run].participants)
    {
      if run !in runs {
        return UnknownRun;
      }
      var r := runs[run];
      if node !in r.participants {
        return UnknownNode;
      }
      var runBarriers := if run in barriers then barriers[run] else map[];
      var arrived := if barrier in runBarriers then runBarriers[barrier] else {};
      arrived := arrived + {node};
      barriers := barriers[run := runBarriers[barrier := arrived]];
      var total, reached := |r.participants|, |arrived|;
      if reached >= total {
        runs := runs[run := r.(phase := Running)];
        return AllReached;
      } else {
        runs := runs[run := r.(phase := WaitingBarrier(barrier))];
        return Waiting(total - reached);
      }
    }

    method ForceBarrier(run: RunId, barrier: string) returns (known: bool)
      modifies this
      ensures View() == Apply(old(View()), Force(run, barrier))
      ensures known <==> run in old(runs)
    {
      if run !in runs {
        return false;
      }
      if run in barriers {
        barriers := barriers[run := barriers[run] - {barrier}];
      }
      runs := runs[run := runs[run].(phase := Running)];
      return true;
    }

    /** Remove a node, then complete every barrier its removal satisfies. */
    method RemoveNode(run: RunId, node: NodeId) returns (known: bool)
      modifies this
      ensures View() == Apply(old(View()), Remove(run, node))
      ensures known <==> run in old(runs)
    {
      if run !in runs {
        return false;
      }
      var r := runs[run];
      r := r.(participants := r.participants - {node}, progress := r.progress - {node});
      if run in barriers {
        var left, phase := CompleteAll(barriers[run], Satisfied(barriers[run], r.participants), r.phase);
        r := r.(phase := phase);
        barriers := barriers[run := left];
      }
      runs := runs[run := r];
      return true;
    }

    method AddCheckpoint(run: RunId, name: string) returns (known: bool)
      modifies this
      ensures View() == Apply(old(View()), Checkpoint(run, name))
      ensures known <==> run in old(runs)
    {
      if run !in runs {
        return false;
      }
      var r := runs[run];
      r := r.(checkpoints := r.checkpoints + [name]);
      if r.phase == Initializing {
        r := r.(phase := Running);
      }
      runs := runs[run := r];
      return true;
    }

    /** Complete, fail or cancel a run. */
    method FinishRun(run: RunId, phase: Phase) returns (known: bool)
      requires phase.Terminal()
      modifies this
      ensures View() == Apply(old(View()), Finish(run, phase))
      ensures known <==> run in old(runs)
    {
      if run !in runs {
        return false;
      }
      runs := runs[run := runs[run].(phase := phase)];
      return true;
    }
  }
}
