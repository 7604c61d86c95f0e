/**
 Federated clusters: heartbeats and liveness against a clock, terms, coordinator
 declarations, election by lowest id, and eviction of the silent.
 */
module Federation {
  import opened Graphs
  import Strings
  import opened Wrappers

  type ClusterId = string
  type Time = nat

  datatype Role = Coordinator | Follower | Candidate
  datatype Status = Online | Suspect | Offline
  datatype ClusterInfo = ClusterInfo(
    id: ClusterId, endpoint: string, status: Status, role: Role, nodeCount: nat, lastHeartbeat: Time)
  datatype Config = Config(clusterId: ClusterId, suspectTimeout: Time, offlineTimeout: Time)

  datatype State = State(role: Role, clusters: map<ClusterId, ClusterInfo>, term: nat, coordinator: Option<ClusterId>)

  const NEW: State := State(Follower, map[], 0, None)

  datatype Op =
    | Heartbeat(id: ClusterId, endpoint: string, nodeCount: nat)
    | CheckLiveness
    | StartElection
    | Declare(term: nat, coordinator: ClusterId)
    | Elect
    | Evict(ttl: Time)

  /** Time since an instant, zero if that lies ahead. */
  function Elapsed(now: Time, since: Time): Time {
    if since <= now then now - since else 0
  }

  // ---------------------------------------------------------------- the operations

  function AfterHeartbeat(s: State, now: Time, id: ClusterId, endpoint: string, nodeCount: nat): State {
    var entry := if id in s.clusters then s.clusters[id] else ClusterInfo(id, endpoint, Online, Follower, 0, now);
    s.(clusters := s.clusters[id := entry.(endpoint := endpoint, nodeCount := nodeCount, status := Online, lastHeartbeat := now)])
  }

  function Checked(cfg: Config, c: ClusterInfo, now: Time): ClusterInfo {
    var elapsed := Elapsed(now, c.lastHeartbeat);
    if elapsed > cfg.offlineTimeout && c.status != Offline then c.(status := Offline)
    else if elapsed > cfg.suspectTimeout && c.status == Online then c.(status := Suspect)
    else c
  }

  function AfterCheck(cfg: Config, s: State, now: Time): State {
    s.(clusters := map k | k in s.clusters :: Checked(cfg, s.clusters[k], now))
  }

  function AfterStart(s: State): State {
    s.(role := Candidate, term := s.term + 1, coordinator := None)
  }

  function Marked(clusters: map<ClusterId, ClusterInfo>, coordinator: ClusterId): map<ClusterId, ClusterInfo> {
    map k | k in clusters :: clusters[k].(role := if k == coordinator then Coordinator else Follower)
  }

  function AfterDeclare(cfg: Config, s: State, term: nat, coordinator: ClusterId): State {
    if term < s.term then s
    else
      State(if coordinator == cfg.clusterId then Coordinator else Follower,
            Marked(s.clusters, coordinator), term, Some(coordinator))
  }

  /** This cluster and the peers seen online. */
  function View(cfg: Config, s: State): set<ClusterId> {
    {cfg.clusterId} + set k | k in s.clusters && s.clusters[k].status == Online :: s.clusters[k].id
  }

  lemma LeastExists(ids: set<ClusterId>)
    requires ids != {}
    ensures exists x :: Strings.IsLeast(ids, x)
  {
    var x := Strings.HasLeast(ids);
  }

  ghost function LeastOf(ids: set<ClusterId>): (x: ClusterId)
    requires ids != {}
    ensures Strings.IsLeast(ids, x)
  {
    LeastExists(ids);
    var x :| Strings.IsLeast(ids, x);
    x
  }

  ghost function AfterElect(cfg: Config, s: State): State {
    AfterDeclare(cfg, AfterStart(s), s.term + 1, LeastOf(View(cfg, s)))
  }

  function Evictable(s: State, now: Time, ttl: Time): set<ClusterId> {
    set k | k in s.clusters && s.clusters[k].status == Offline && Elapsed(now, s.clusters[k].lastHeartbeat) > ttl
  }

  ghost function Apply(cfg: Config, s: State, now: Time, op: Op): State {
    match op
    case Heartbeat(id, endpoint, nodeCount) => AfterHeartbeat(s, now, id, endpoint, nodeCount)
    case CheckLiveness => AfterCheck(cfg, s, now)
    case StartElection => AfterStart(s)
    case Declare(term, coordinator) => AfterDeclare(cfg, s, term, coordinator)
    case Elect => AfterElect(cfg, s)
    case Evict(ttl) => s.(clusters := s.clusters - Evictable(s, now, ttl))
  }

  // ---------------------------------------------------------------- the manager object

  class FederationManager {
    const config: Config
    var role: Role
    var clusters: map<ClusterId, ClusterInfo>
    var term: nat
    var coordinator: Option<ClusterId>

    ghost function Contents(): State
      reads this
    {
      State(role, clusters, term, coordinator)
    }

    constructor (config: Config)
      ensures this.config == config && Contents() == NEW
    {
      this.config := config;
      role, clusters, term, coordinator := Follower, map[], 0, None;
    }

    method ReceiveHeartbeat(now: Time, id: ClusterId, endpoint: string, nodeCount: nat)
      modifies this
      ensures Contents() == Apply(config, old(Contents()), now, Heartbeat(id, endpoint, nodeCount))
    {
      if id !in clusters {
        clusters := clusters[id := ClusterInfo(id, endpoint, Online, Follower, 0, now)];
      }
      var entry := clusters[id];
      clusters := clusters[id := entry.(endpoint := endpoint, nodeCount := nodeCount, status := Online, lastHeartbeat := now)];
    }

    method CheckAll(now: Time)
      modifies this
      ensures Contents() == Apply(config, old(Contents()), now, CheckLiveness)
    {
      var rest := clusters.Keys;
      while rest != {}
        invariant rest <= clusters.Keys == old(clusters).Keys
        invariant Contents() == old(Contents()).(clusters := clusters)
        invariant forall k :: k in clusters ==>
          clusters[k] == if k in rest then old(clusters)[k] else Checked(config, old(clusters)[k], now)
        decreases rest
      {
        var k := AnyOf(rest);
        var c := clusters[k];
        var elapsed := Elapsed(now, c.lastHeartbeat);
        if elapsed > config.offlineTimeout && c.status != Offline {
          clusters := clusters[k := c.(status := Offline)];
        } else if elapsed > config.suspectTimeout && c.status == Online {
          clusters := clusters[k := c.(status := Suspect)];
        }
        rest := rest - {k};
      }
    }

    method BeginElection() returns (newTerm: nat)
      modifies this
      ensures Contents() == AfterStart(old(Contents()))
      ensures newTerm == old(term) + 1 == term
    {
      term := term + 1;
      coordinator := None;
      role := Candidate;
      return term;
    }

    method DeclareCoordinator(declaredTerm: nat, id: ClusterId) returns (accepted: bool)
      modifies this
      ensures Contents() == AfterDeclare(config, old(Contents()), declaredTerm, id)
      ensures accepted <==> old(term) <= declaredTerm
    {
      if declaredTerm < term {
        return false;
      }
      term := declaredTerm;
      coordinator := Some(id);
      if id == config.clusterId {
        role := Coordinator;
      } else {
        role := Follower;
      }
      clusters := ResetRoles(clusters);
      ResetThenMark(old(clusters), id);
      if id in clusters {
        clusters := clusters[id := clusters[id].(role := Coordinator)];
      }
      return true;
    }

    method ElectByLowestId() returns (winner: ClusterId)
      modifies this
      ensures Contents() == AfterElect(config, old(Contents()))
      ensures winner == LeastOf(View(config, old(Contents())))
    {
      var newTerm := BeginElection();
      var online := set k | k in clusters && clusters[k].status == Online :: clusters[k].id;
      assert {config.clusterId} + online == View(config, old(Contents()));
      var candidates := Strings.SortedKeys({config.clusterId} + online);
      FirstIsLeast(View(config, old(Contents())), candidates);
      winner := candidates[0];
      var _ := DeclareCoordinator(newTerm, winner);
    }

    method EvictOffline(now: Time, ttl: Time) returns (evicted: set<ClusterId>)
      modifies this
      ensures Contents() == Apply(config, old(Contents()), now, Evict(ttl))
      ensures evicted == Evictable(old(Contents()), now, ttl) && clusters.Keys == old(clusters).Keys - evicted
    {
      evicted := set k | k in clusters && clusters[k].status == Offline && Elapsed(now, clusters[k].lastHeartbeat) > ttl;
      var rest := evicted;
      while rest != {}
        invariant rest <= evicted
        invariant Contents() == old(Contents()).(clusters := old(clusters) - (evicted - rest))
        decreases rest
      {
        var k := AnyOf(rest);
        assert evicted - (rest - {k}) == (evicted - rest) + {k};
        clusters := clusters - {k};
        rest := rest - {k};
      }
      assert evicted - {} == evicted;
    }
  }

  function AllFollowers(clusters: map<ClusterId, ClusterInfo>): map<ClusterId, ClusterInfo> {
    map k | k in clusters :: clusters[k].(role := Follower)
  }

  lemma ResetThenMark(clusters: map<ClusterId, ClusterInfo>, id: ClusterId)
    ensures var reset := AllFollowers(clusters);
            Marked(clusters, id) == if id in reset then reset[id := reset[id].(role := Coordinator)] else reset
  {
  }

  method ResetRoles(clusters: map<ClusterId, ClusterInfo>) returns (reset: map<ClusterId, ClusterInfo>)
    ensures reset == AllFollowers(clusters)
  {
    reset := clusters;
    var rest := clusters.Keys;
    while rest != {}
      invariant rest <= reset.Keys == clusters.Keys
      invariant forall k :: k in clusters ==>
        reset[k] == if k in rest then clusters[k] else clusters[k].(role := Follower)
      decreases rest
    {
      var k := AnyOf(rest);
      reset := reset[k := reset[k].(role := Follower)];
      rest := rest - {k};
    }
  }

  lemma FirstIsLeast(ids: set<ClusterId>, sorted: seq<ClusterId>)
    requires ids != {} && Elems(sorted) == ids && Strings.Ascending(sorted)
    ensures sorted != [] && sorted[0] == LeastOf(ids)
  {
    var least := LeastOf(ids);
    assert least in sorted;
    var i :| 0 <= i < |sorted| && sorted[i] == least;
    if i > 0 {
      assert Strings.StrLess(sorted[0], least);
      assert sorted[0] in Elems(sorted);
      Strings.StrLeqAntisymmetric(sorted[0], least);
    }
  }

  // ---------------------------------------------------------------- every run

  datatype Event = Event(now: Time, op: Op)

  ghost function After(cfg: Config, run: seq<Event>): State {
    if run == [] then NEW
    else
      var e := run[|run| - 1];
      Apply(cfg, After(cfg, run[..|run| - 1]), e.now, e.op)
  }

  /** The clock never runs backwards. */
  ghost predicate Timely(run: seq<Event>) {
    forall i, j :: 0 <= i < j < |run| ==> run[i].now <= run[j].now
  }

  function Clock(run: seq<Event>): Time {
    if run == [] then 0 else run[|run| - 1].now
  }

  /** Entries are kept under their own id, and at most one is marked coordinator. */
  ghost predicate Entries(clusters: map<ClusterId, ClusterInfo>) {
    && (forall k :: k in clusters ==> clusters[k].id == k)
    && (forall j, k :: j in clusters && k in clusters && clusters[j].role == Coordinator && clusters[k].role == Coordinator
          ==> j == k)
  }

  ghost predicate Leads(cfg: Config, s: State) {
    s.role == Coordinator <==> s.coordinator == Some(cfg.clusterId)
  }

  /** While a coordinator is recorded, no other peer is marked. */
  ghost predicate MarkIsRecorded(s: State) {
    s.coordinator.Some? ==>
      forall k :: k in s.clusters && s.clusters[k].role == Coordinator ==> k == s.coordinator.value
  }

  /** A status says how long the cluster has been silent at least. */
  ghost predicate StatusIsTrue(cfg: Config, c: ClusterInfo, now: Time) {
    && c.lastHeartbeat <= now
    && (c.status == Suspect ==> now - c.lastHeartbeat > cfg.suspectTimeout)
    && (c.status == Offline ==> now - c.lastHeartbeat > cfg.offlineTimeout)
  }

  ghost predicate Statuses(cfg: Config, clusters: map<ClusterId, ClusterInfo>, now: Time) {
    forall k :: k in clusters ==> StatusIsTrue(cfg, clusters[k], now)
  }

  predicate Beats(run: seq<Event>, i: int, id: ClusterId) {
    0 <= i < |run| && run[i].op.Heartbeat? && run[i].op.id == id
  }

  /** The heartbeat on record is one of the run's, and none is later. */
  ghost predicate OnRecord(run: seq<Event>, clusters: map<ClusterId, ClusterInfo>) {
    forall k :: k in clusters ==> IsLatest(run, k, clusters[k].lastHeartbeat)
  }

  ghost predicate IsLatest(run: seq<Event>, id: ClusterId, at: Time) {
    && (exists i :: Beats(run, i, id) && run[i].now == at)
    && (forall i :: Beats(run, i, id) ==> run[i].now <= at)
  }

  lemma ApplyKeepsEntries(cfg: Config, s: State, now: Time, op: Op)
    requires Entries(s.clusters)
    ensures Entries(Apply(cfg, s, now, op).clusters)
  {
  }

  lemma ApplyKeepsStatuses(cfg: Config, s: State, before: Time, now: Time, op: Op)
    requires Statuses(cfg, s.clusters, before) && before <= now
    ensures Statuses(cfg, Apply(cfg, s, now, op).clusters, now)
  {
    var clusters := Apply(cfg, s, now, op).clusters;
    forall k | k in clusters ensures StatusIsTrue(cfg, clusters[k], now) {
      assert k in s.clusters ==> StatusIsTrue(cfg, s.clusters[k], before);
    }
  }

  lemma ApplyKeepsLead(cfg: Config, s: State, now: Time, op: Op)
    requires Leads(cfg, s)
    ensures Leads(cfg, Apply(cfg, s, now, op))
    ensures MarkIsRecorded(s) ==> MarkIsRecorded(Apply(cfg, s, now, op))
    ensures s.term <= Apply(cfg, s, now, op).term
  {
  }

  lemma LatestOneMore(run: seq<Event>, e: Event, id: ClusterId, at: Time)
    requires Timely(run + [e]) && IsLatest(run, id, at)
    ensures IsLatest(run + [e], id, if e.op.Heartbeat? && e.op.id == id then e.now else at)
  {
    var all := run + [e];
    var i :| Beats(run, i, id) && run[i].now == at;
    assert Beats(all, i, id) && all[i].now <= all[|run|].now;
    assert e.op.Heartbeat? && e.op.id == id ==> Beats(all, |run|, id);
    forall j | Beats(all, j, id) && j < |run| ensures all[j].now <= at {
      assert Beats(run, j, id);
    }
  }

  lemma FirstBeat(run: seq<Event>, e: Event, id: ClusterId)
    requires Timely(run + [e]) && e.op.Heartbeat? && e.op.id == id
    ensures IsLatest(run + [e], id, e.now)
  {
    var all := run + [e];
    assert Beats(all, |run|, id);
    forall j | Beats(all, j, id) ensures all[j].now <= e.now {
      assert j < |run| ==> all[j].now <= all[|run|].now;
    }
  }

  lemma ApplyKeepsRecord(cfg: Config, s: State, run: seq<Event>, e: Event)
    requires OnRecord(run, s.clusters) && Timely(run + [e])
    ensures OnRecord(run + [e], Apply(cfg, s, e.now, e.op).clusters)
  {
    var clusters := Apply(cfg, s, e.now, e.op).clusters;
    forall k | k in clusters ensures IsLatest(run + [e], k, clusters[k].lastHeartbeat) {
      if e.op.Heartbeat? && e.op.id == k {
        FirstBeat(run, e, k);
      } else {
        LatestOneMore(run, e, k, s.clusters[k].lastHeartbeat);
      }
    }
  }

  ghost predicate Sound(cfg: Config, run: seq<Event>) {
    var s := After(cfg, run);
    Leads(cfg, s) && MarkIsRecorded(s) && Entries(s.clusters) && Statuses(cfg, s.clusters, Clock(run)) && OnRecord(run, s.clusters)
  }

  /** In every run: the leader knows it leads, at most one peer is marked, statuses are true. */
  lemma {:induction false} AlwaysSound(cfg: Config, run: seq<Event>)
    requires Timely(run)
    ensures Sound(cfg, run)
  {
    if run != [] {
      var earlier, e := run[..|run| - 1], run[|run| - 1];
      AlwaysSound(cfg, earlier);
      assert run == earlier + [e];
      var s := After(cfg, earlier);
      ApplyKeepsLead(cfg, s, e.now, e.op);
      ApplyKeepsEntries(cfg, s, e.now, e.op);
      assert Clock(earlier) <= e.now;
      ApplyKeepsStatuses(cfg, s, Clock(earlier), e.now, e.op);
      ApplyKeepsRecord(cfg, s, earlier, e);
    }
  }

  function StatusAfter(cfg: Config, silent: Time): Status {
    if silent > cfg.offlineTimeout then Offline else if silent > cfg.suspectTimeout then Suspect else Online
  }

  /** After a liveness check each status is exactly what the silence since the last heartbeat calls for. */
  lemma LivenessIsExact(cfg: Config, run: seq<Event>, now: Time, id: ClusterId, last: Time)
    requires Timely(run) && Clock(run) <= now && id in After(cfg, run).clusters && IsLatest(run, id, last)
    ensures id in AfterCheck(cfg, After(cfg, run), now).clusters && last <= now
    ensures AfterCheck(cfg, After(cfg, run), now).clusters[id].status == StatusAfter(cfg, now - last)
  {
    AlwaysSound(cfg, run);
    var c := After(cfg, run).clusters[id];
    assert StatusIsTrue(cfg, c, Clock(run)) && IsLatest(run, id, c.lastHeartbeat);
    LatestIsUnique(run, id, last, c.lastHeartbeat);
  }

  lemma LatestIsUnique(run: seq<Event>, id: ClusterId, a: Time, b: Time)
    requires IsLatest(run, id, a) && IsLatest(run, id, b)
    ensures a == b
  {
    var i :| Beats(run, i, id) && run[i].now == a;
    var j :| Beats(run, j, id) && run[j].now == b;
  }

  /** Terms never decrease along a run. */
  lemma {:induction false} TermsNeverDecrease(cfg: Config, run: seq<Event>, n: nat)
    requires n <= |run|
    ensures After(cfg, run[..n]).term <= After(cfg, run).term
  {
    if n < |run| {
      var earlier, e := run[..|run| - 1], run[|run| - 1];
      TermsNeverDecrease(cfg, earlier, n);
      assert earlier[..n] == run[..n];
      var s := After(cfg, earlier);
      assert s.term <= Apply(cfg, s, e.now, e.op).term;
    } else {
      assert run[..n] == run;
    }
  }

  /** A cluster evicted at `now` sent no heartbeat within either the offline timeout or the ttl. */
  lemma EvictedWereSilent(cfg: Config, run: seq<Event>, now: Time, ttl: Time, id: ClusterId, i: nat)
    requires Timely(run) && Clock(run) <= now
    requires id in Evictable(After(cfg, run), now, ttl) && Beats(run, i, id)
    ensures run[i].now + cfg.offlineTimeout < now && run[i].now + ttl < now
  {
    AlwaysSound(cfg, run);
    var c := After(cfg, run).clusters[id];
    assert StatusIsTrue(cfg, c, Clock(run)) && IsLatest(run, id, c.lastHeartbeat);
  }

  // ---------------------------------------------------------------- what a manager knows, from its run alone

  /** The last heartbeat of a cluster in a run. */
  ghost predicate LastBeat(run: seq<Event>, id: ClusterId, b: nat) {
    Beats(run, b, id) && forall i :: b < i < |run| ==> !Beats(run, i, id)
  }

  /** What the last liveness check since event `b` called for, counting the silence from there. */
  ghost function Verdict(cfg: Config, run: seq<Event>, b: nat): Status
    requires b < |run|
  {
    var n := |run| - 1;
    if n == b then Online
    else if run[n].op.CheckLiveness? then StatusAfter(cfg, Elapsed(run[n].now, run[b].now))
    else Verdict(cfg, run[..n], b)
  }

  /** An eviction since event `b` took a cluster silent from there on. */
  ghost predicate EvictedSince(cfg: Config, run: seq<Event>, b: nat)
    requires b < |run|
  {
    var n := |run| - 1;
    n != b &&
    (|| EvictedSince(cfg, run[..n], b)
     || (run[n].op.Evict? && Verdict(cfg, run[..n], b) == Offline && Elapsed(run[n].now, run[b].now) > run[n].op.ttl))
  }

  /** The entry kept for a cluster is what its last heartbeat and the events since make of it. */
  ghost predicate EntryFits(cfg: Config, run: seq<Event>, id: ClusterId) {
    var clusters := After(cfg, run).clusters;
    && (forall b: nat :: LastBeat(run, id, b) ==>
          && (id in clusters <==> !EvictedSince(cfg, run, b))
          && (id in clusters ==> clusters[id].lastHeartbeat == run[b].now && clusters[id].status == Verdict(cfg, run, b)))
    && ((forall i :: !Beats(run, i, id)) ==> id !in clusters)
  }

  /** Another event than a heartbeat of the cluster leaves its last one in place. */
  lemma LastBeatStays(run: seq<Event>, e: Event, id: ClusterId, b: nat)
    requires !(e.op.Heartbeat? && e.op.id == id)
    ensures LastBeat(run + [e], id, b) <==> LastBeat(run, id, b)
  {
    var all := run + [e];
    assert !Beats(all, |run|, id);
    if LastBeat(run, id, b) {
      forall i | b < i < |all| ensures !Beats(all, i, id) {
        assert i < |run| ==> !Beats(run, i, id);
      }
      assert Beats(all, b, id);
    }
    if LastBeat(all, id, b) {
      assert b < |run|;
      forall i | b < i < |run| ensures !Beats(run, i, id) {
        assert !Beats(all, i, id);
      }
      assert Beats(run, b, id);
    }
  }

  lemma OneMoreVerdict(cfg: Config, run: seq<Event>, e: Event, b: nat)
    requires b < |run|
    ensures Verdict(cfg, run + [e], b)
            == if e.op.CheckLiveness? then StatusAfter(cfg, Elapsed(e.now, run[b].now)) else Verdict(cfg, run, b)
    ensures EvictedSince(cfg, run + [e], b)
            <==> EvictedSince(cfg, run, b)
                 || (e.op.Evict? && Verdict(cfg, run, b) == Offline && Elapsed(e.now, run[b].now) > e.op.ttl)
  {
    assert (run + [e])[..|run|] == run;
  }

  lemma AfterOneMore(cfg: Config, run: seq<Event>, e: Event)
    ensures After(cfg, run + [e]) == Apply(cfg, After(cfg, run), e.now, e.op)
  {
    assert (run + [e])[..|run|] == run;
  }

  /** What one event does to the entry of a cluster that did not send it. */
  lemma EntryAfter(cfg: Config, s: State, now: Time, op: Op, id: ClusterId)
    requires !(op.Heartbeat? && op.id == id)
    ensures var t := Apply(cfg, s, now, op).clusters;
            && (id in t <==> id in s.clusters && !(op.Evict? && id in Evictable(s, now, op.ttl)))
            && (id in t ==>
                  && t[id].lastHeartbeat == s.clusters[id].lastHeartbeat
                  && t[id].status == if op.CheckLiveness? then Checked(cfg, s.clusters[id], now).status else s.clusters[id].status)
  {
  }

  lemma FitsAfterHeartbeat(cfg: Config, run: seq<Event>, e: Event, id: ClusterId)
    requires e.op.Heartbeat? && e.op.id == id
    ensures EntryFits(cfg, run + [e], id)
  {
    var all := run + [e];
    AfterOneMore(cfg, run, e);
    assert Beats(all, |run|, id);
    forall b: nat | LastBeat(all, id, b) ensures b == |run| {
    }
  }

  lemma FitsAfterOther(cfg: Config, run: seq<Event>, e: Event, id: ClusterId, b: nat)
    requires Timely(run + [e]) && EntryFits(cfg, run, id) && Sound(cfg, run)
    requires !(e.op.Heartbeat? && e.op.id == id) && LastBeat(run, id, b)
    ensures var clusters := After(cfg, run + [e]).clusters;
            && (id in clusters <==> !EvictedSince(cfg, run + [e], b))
            && (id in clusters ==>
                  clusters[id].lastHeartbeat == run[b].now && clusters[id].status == Verdict(cfg, run + [e], b))
  {
    var s := After(cfg, run);
    AfterOneMore(cfg, run, e);
    OneMoreVerdict(cfg, run, e, b);
    EntryAfter(cfg, s, e.now, e.op, id);
    if id in s.clusters {
      assert StatusIsTrue(cfg, s.clusters[id], Clock(run)) && Clock(run) <= e.now;
    }
  }

  lemma FitsUnheard(cfg: Config, run: seq<Event>, e: Event, id: ClusterId)
    requires EntryFits(cfg, run, id) && forall i :: !Beats(run + [e], i, id)
    ensures id !in After(cfg, run + [e]).clusters
  {
    forall i ensures !Beats(run, i, id) {
      assert !Beats(run + [e], i, id);
    }
    AfterOneMore(cfg, run, e);
    assert !Beats(run + [e], |run|, id);
    EntryAfter(cfg, After(cfg, run), e.now, e.op, id);
  }

  /**
   At any point of a run a manager knows a cluster exactly if it has heard from it and not evicted it
   since; the status is then the one the last check since the last heartbeat called for.
   */
  lemma {:induction false} EntriesFit(cfg: Config, run: seq<Event>, id: ClusterId)
    requires Timely(run)
    ensures EntryFits(cfg, run, id)
  {
    if run != [] {
      var earlier, e := run[..|run| - 1], run[|run| - 1];
      assert run == earlier + [e];
      EntriesFit(cfg, earlier, id);
      AlwaysSound(cfg, earlier);
      if e.op.Heartbeat? && e.op.id == id {
        FitsAfterHeartbeat(cfg, earlier, e, id);
      } else {
        forall b: nat | LastBeat(earlier + [e], id, b)
          ensures LastBeat(earlier, id, b)
        {
          LastBeatStays(earlier, e, id, b);
        }
        forall b: nat | LastBeat(earlier, id, b)
          ensures var clusters := After(cfg, run).clusters;
                  && (id in clusters <==> !EvictedSince(cfg, run, b))
                  && (id in clusters ==>
                        clusters[id].lastHeartbeat == run[b].now && clusters[id].status == Verdict(cfg, run, b))
        {
          FitsAfterOther(cfg, earlier, e, id, b);
        }
        if forall i :: !Beats(run, i, id) {
          FitsUnheard(cfg, earlier, e, id);
        }
      }
    }
  }

  /** The last heartbeat of the cluster has outlived every check since. */
  ghost predicate Hears(cfg: Config, run: seq<Event>, id: ClusterId) {
    exists b: nat :: LastBeat(run, id, b) && Verdict(cfg, run, b) == Online
  }

  lemma {:induction false} OfflineMeansSilent(cfg: Config, run: seq<Event>, b: nat)
    requires Timely(run) && b < |run| && Verdict(cfg, run, b) == Offline
    ensures Elapsed(Clock(run), run[b].now) > cfg.offlineTimeout
  {
    var n := |run| - 1;
    if n != b && !run[n].op.CheckLiveness? {
      OfflineMeansSilent(cfg, run[..n], b);
    }
  }

  /** Once evicted, a cluster counts as offline until it is heard again. */
  lemma {:induction false} EvictedStaysOffline(cfg: Config, run: seq<Event>, b: nat)
    requires Timely(run) && b < |run| && EvictedSince(cfg, run, b)
    ensures Verdict(cfg, run, b) == Offline
  {
    var n := |run| - 1;
    if EvictedSince(cfg, run[..n], b) {
      EvictedStaysOffline(cfg, run[..n], b);
      OfflineMeansSilent(cfg, run[..n], b);
    }
  }

  lemma {:induction false} HasLastBeat(run: seq<Event>, id: ClusterId, i: nat) returns (b: nat)
    requires Beats(run, i, id)
    ensures LastBeat(run, id, b)
    decreases |run| - i
  {
    if j :| i < j < |run| && Beats(run, j, id) {
      b := HasLastBeat(run, id, j);
    } else {
      b := i;
    }
  }

  lemma LastBeatIsUnique(run: seq<Event>, id: ClusterId, b: nat, c: nat)
    requires LastBeat(run, id, b) && LastBeat(run, id, c)
    ensures b == c
  {
  }

  /** A peer is held online exactly if it is heard. */
  lemma OnlineExactly(cfg: Config, run: seq<Event>, id: ClusterId)
    requires Timely(run)
    ensures var clusters := After(cfg, run).clusters;
            id in clusters && clusters[id].status == Online <==> Hears(cfg, run, id)
  {
    EntriesFit(cfg, run, id);
    if i: nat :| Beats(run, i, id) {
      var b := HasLastBeat(run, id, i);
      if EvictedSince(cfg, run, b) {
        EvictedStaysOffline(cfg, run, b);
      }
      forall c: nat | LastBeat(run, id, c) ensures c == b {
        LastBeatIsUnique(run, id, b, c);
      }
    }
  }

  // ---------------------------------------------------------------- elections

  lemma LeastIsUnique(ids: set<ClusterId>, x: ClusterId, y: ClusterId)
    requires Strings.IsLeast(ids, x) && Strings.IsLeast(ids, y)
    ensures x == y
  {
    Strings.StrLeqAntisymmetric(x, y);
  }

  /** An election makes a cluster coordinator exactly when it is the least of those it sees. */
  lemma ElectsItselfExactly(cfg: Config, s: State)
    ensures AfterElect(cfg, s).role == Coordinator <==> Strings.IsLeast(View(cfg, s), cfg.clusterId)
    ensures AfterElect(cfg, s).term == s.term + 1
  {
    if Strings.IsLeast(View(cfg, s), cfg.clusterId) {
      LeastIsUnique(View(cfg, s), LeastOf(View(cfg, s)), cfg.clusterId);
    }
  }

  /** Managers by id, each configured with its own. */
  ghost predicate Members(cfgs: map<ClusterId, Config>, states: map<ClusterId, State>) {
    cfgs.Keys == states.Keys && forall k :: k in cfgs ==> cfgs[k].clusterId == k
  }

  /** Every manager sees exactly the members: itself and the peers it holds online. */
  ghost predicate AllSeeAll(cfgs: map<ClusterId, Config>, states: map<ClusterId, State>)
    requires Members(cfgs, states)
  {
    forall k :: k in states ==> View(cfgs[k], states[k]) == states.Keys
  }

  /** If all see all, every election names the least member, and it alone becomes coordinator. */
  lemma ElectionsAgree(cfgs: map<ClusterId, Config>, states: map<ClusterId, State>, least: ClusterId)
    requires Members(cfgs, states) && AllSeeAll(cfgs, states) && Strings.IsLeast(states.Keys, least)
    ensures forall k :: k in states ==>
      && AfterElect(cfgs[k], states[k]).coordinator == Some(least)
      && (AfterElect(cfgs[k], states[k]).role == Coordinator <==> k == least)
  {
    forall k | k in states
      ensures AfterElect(cfgs[k], states[k]).coordinator == Some(least)
      ensures AfterElect(cfgs[k], states[k]).role == Coordinator <==> k == least
    {
      LeastIsUnique(states.Keys, LeastOf(View(cfgs[k], states[k])), least);
    }
  }

  /** A manager sees itself and exactly the clusters it hears. */
  lemma SeesExactly(cfg: Config, run: seq<Event>, id: ClusterId)
    requires Timely(run)
    ensures id in View(cfg, After(cfg, run)) <==> id == cfg.clusterId || Hears(cfg, run, id)
  {
    AlwaysSound(cfg, run);
    OnlineExactly(cfg, run, id);
    var clusters := After(cfg, run).clusters;
    assert id in clusters ==> clusters[id].id == id;
  }

  /** The run of a member hears, besides itself, the members and nobody else. */
  ghost predicate HearsMembers(cfg: Config, run: seq<Event>, members: set<ClusterId>) {
    Timely(run) && cfg.clusterId in members && forall m :: m != cfg.clusterId ==> (Hears(cfg, run, m) <==> m in members)
  }

  lemma ViewIsMembers(cfg: Config, run: seq<Event>, members: set<ClusterId>)
    requires HearsMembers(cfg, run, members)
    ensures View(cfg, After(cfg, run)) == members
  {
    forall m ensures m in View(cfg, After(cfg, run)) <==> m in members {
      SeesExactly(cfg, run, m);
    }
  }

  /** An election after the run names the least member, and makes the manager coordinator exactly if it is that. */
  ghost predicate ElectsLeast(cfg: Config, run: seq<Event>, now: Time, least: ClusterId) {
    var s := After(cfg, run + [Event(now, Elect)]);
    s.coordinator == Some(least) && (s.role == Coordinator <==> cfg.clusterId == least)
  }

  lemma RunElectsLeast(cfg: Config, run: seq<Event>, members: set<ClusterId>, now: Time, least: ClusterId)
    requires HearsMembers(cfg, run, members) && Strings.IsLeast(members, least)
    ensures ElectsLeast(cfg, run, now, least)
  {
    ViewIsMembers(cfg, run, members);
    AfterOneMore(cfg, run, Event(now, Elect));
    LeastIsUnique(members, LeastOf(members), least);
  }

  /**
   Whatever the members' runs are, if in each the other members and nobody else are heard, then all
   their elections name the least member, and it alone becomes coordinator.
   */
  lemma RunsElectOne(cfgs: map<ClusterId, Config>, runs: map<ClusterId, seq<Event>>, least: ClusterId, now: Time)
    requires cfgs.Keys == runs.Keys && forall k :: k in cfgs ==> cfgs[k].clusterId == k
    requires forall k :: k in runs ==> HearsMembers(cfgs[k], runs[k], runs.Keys)
    requires Strings.IsLeast(runs.Keys, least)
    ensures forall k :: k in runs ==> ElectsLeast(cfgs[k], runs[k], now, least)
  {
    forall k | k in runs ensures ElectsLeast(cfgs[k], runs[k], now, least) {
      RunElectsLeast(cfgs[k], runs[k], runs.Keys, now, least);
    }
  }

  /** Each sees itself alone: then each names itself, and there are as many coordinators as members. */
  lemma SplitViewsElectEach(cfg: Config, s: State)
    requires View(cfg, s) == {cfg.clusterId}
    ensures AfterElect(cfg, s).coordinator == Some(cfg.clusterId) && AfterElect(cfg, s).role == Coordinator
  {
    var x := LeastOf(View(cfg, s));
    assert x in {cfg.clusterId};
  }

  /** A second declaration in the same term is accepted and replaces the first. */
  lemma SecondDeclarationWins(cfg: Config, s: State, term: nat, a: ClusterId, b: ClusterId)
    requires s.term <= term
    ensures AfterDeclare(cfg, AfterDeclare(cfg, s, term, a), term, b) == AfterDeclare(cfg, s, term, b)
  {
    assert Marked(Marked(s.clusters, a), b) == Marked(s.clusters, b);
  }

  // ---------------------------------------------------------------- the operations in plain terms

  /** An accepted declaration is adopted: its term, its coordinator, and the mark on that peer alone. */
  lemma DeclarationIsAdopted(cfg: Config, s: State, term: nat, id: ClusterId)
    requires s.term <= term
    ensures var n := AfterDeclare(cfg, s, term, id);
            && n.term == term && n.coordinator == Some(id)
            && n.role == (if id == cfg.clusterId then Coordinator else Follower)
            && n.clusters.Keys == s.clusters.Keys
            && (forall k :: k in s.clusters ==>
                  && (n.clusters[k].role == Coordinator <==> k == id) && (n.clusters[k].role == Follower <==> k != id)
                  && n.clusters[k].status == s.clusters[k].status && n.clusters[k].id == s.clusters[k].id
                  && n.clusters[k].lastHeartbeat == s.clusters[k].lastHeartbeat
                  && n.clusters[k].endpoint == s.clusters[k].endpoint && n.clusters[k].nodeCount == s.clusters[k].nodeCount)
  {
  }

  /** A declaration of an older term changes nothing, ever after one of a newer term was accepted. */
  lemma OlderTermsAreRefused(cfg: Config, run: seq<Event>, k: nat, term: nat, id: ClusterId, older: nat, other: ClusterId)
    requires k < |run| && run[k].op == Declare(term, id) && After(cfg, run[..k]).term <= term && older < term
    ensures AfterDeclare(cfg, After(cfg, run), older, other) == After(cfg, run)
  {
    assert run[..k + 1][..k] == run[..k];
    assert After(cfg, run[..k + 1]).term == term;
    TermsNeverDecrease(cfg, run, k + 1);
  }

  /** A new term has a candidate and no coordinator; peers are untouched. */
  lemma ElectionStarts(s: State)
    ensures AfterStart(s) == State(Candidate, s.clusters, s.term + 1, None)
  {
  }

  /** A heartbeat puts its sender online as of now with what it says; a new peer follows, nothing else changes. */
  lemma HeartbeatExactly(s: State, now: Time, id: ClusterId, endpoint: string, nodeCount: nat)
    ensures var n := AfterHeartbeat(s, now, id, endpoint, nodeCount);
            && id in n.clusters && n.clusters[id].endpoint == endpoint && n.clusters[id].nodeCount == nodeCount
            && n.clusters[id].status == Online && n.clusters[id].lastHeartbeat == now
            && n.clusters[id].role == (if id in s.clusters then s.clusters[id].role else Follower)
            && n.clusters[id].id == (if id in s.clusters then s.clusters[id].id else id)
            && (forall k :: k != id ==> (k in n.clusters <==> k in s.clusters))
            && (forall k :: k in s.clusters && k != id ==> n.clusters[k] == s.clusters[k])
            && n.role == s.role && n.term == s.term && n.coordinator == s.coordinator
  {
  }

  /** Offline after more than the offline timeout, else suspect after more than the suspect timeout, else online. */
  lemma LivenessInPlainTerms(cfg: Config, run: seq<Event>, now: Time, id: ClusterId, last: Time)
    requires Timely(run) && Clock(run) <= now && id in After(cfg, run).clusters && IsLatest(run, id, last)
    ensures var n := AfterCheck(cfg, After(cfg, run), now).clusters;
            && id in n && last <= now
            && (n[id].status == Offline <==> now - last > cfg.offlineTimeout)
            && (n[id].status == Suspect <==> cfg.suspectTimeout < now - last <= cfg.offlineTimeout)
            && (n[id].status == Online <==> now - last <= cfg.suspectTimeout && now - last <= cfg.offlineTimeout)
  {
    LivenessIsExact(cfg, run, now, id, last);
  }

  /** A check changes nothing but statuses, and an eviction removes exactly the offline silent for longer than the ttl. */
  lemma EvictionExactly(cfg: Config, s: State, now: Time, ttl: Time, id: ClusterId)
    requires id in s.clusters && s.clusters[id].lastHeartbeat <= now
    ensures id !in Apply(cfg, s, now, Evict(ttl)).clusters
            <==> s.clusters[id].status == Offline && now - s.clusters[id].lastHeartbeat > ttl
    ensures id in AfterCheck(cfg, s, now).clusters
    ensures AfterCheck(cfg, s, now).clusters[id].(status := Online) == s.clusters[id].(status := Online)
  {
  }

  /** The elected id is a candidate, and of every other candidate it is a prefix or smaller at the first difference. */
  lemma ElectedIsLowest(cfg: Config, s: State, id: ClusterId)
    requires id == cfg.clusterId || (id in s.clusters && s.clusters[id].id == id && s.clusters[id].status == Online)
    ensures var n := AfterElect(cfg, s);
            && n.coordinator.Some? && n.coordinator.value in View(cfg, s) && n.term == s.term + 1
            && (n.coordinator.value <= id || exists k: nat :: Strings.SmallerAt(n.coordinator.value, id, k))
  {
    assert id in View(cfg, s);
    Strings.StrLeqExactly(LeastOf(View(cfg, s)), id);
  }
}
