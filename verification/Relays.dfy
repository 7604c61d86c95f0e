/**
 Messages between fleet nodes: numbered by the sender, de-duplicated by the receiver with one
 watermark per sender, over a network that may drop, repeat and reorder.
 */
module Relays {
  import opened Wrappers

  type NodeId = string

  datatype Message = Message(number: nat, from: NodeId, to: string, topic: string, payload: string)

  datatype Incoming = Incoming(message: Message, isBroadcast: bool)

  /** What a relay keeps besides its own node id. */
  datatype State = State(nextSeq: nat, seen: map<NodeId, nat>, sent: nat, received: nat, duplicates: nat)

  const NEW: State := State(1, map[], 0, 0, 0)

  /** Not one's own message, and a broadcast or addressed to this node. */
  predicate ForMe(me: NodeId, m: Message) {
    m.from != me && (m.to == "" || m.to == me)
  }

  function LastSeen(seen: map<NodeId, nat>, from: NodeId): nat {
    if from in seen then seen[from] else 0
  }

  predicate Fresh(me: NodeId, seen: map<NodeId, nat>, m: Message) {
    ForMe(me, m) && LastSeen(seen, m.from) < m.number
  }

  function SeenStep(me: NodeId, seen: map<NodeId, nat>, m: Message): map<NodeId, nat> {
    if !ForMe(me, m) then seen
    else seen[m.from := if Fresh(me, seen, m) then m.number else LastSeen(seen, m.from)]
  }

  function AfterReceive(me: NodeId, s: State, m: Message): State {
    if !ForMe(me, m) then s
    else if Fresh(me, s.seen, m) then s.(seen := SeenStep(me, s.seen, m), received := s.received + 1)
    else s.(seen := SeenStep(me, s.seen, m), duplicates := s.duplicates + 1)
  }

  function AfterSend(s: State): State {
    s.(nextSeq := s.nextSeq + 1, sent := s.sent + 1)
  }

  /** The relay of one node. */
  class Relay {
    const nodeId: NodeId
    var nextSeq: nat
    var seen: map<NodeId, nat>
    var sent: nat
    var received: nat
    var duplicates: nat

    ghost function View(): State
      reads this
    {
      State(nextSeq, seen, sent, received, duplicates)
    }

    constructor (nodeId: NodeId)
      ensures this.nodeId == nodeId && View() == NEW
    {
      this.nodeId := nodeId;
      nextSeq, seen, sent, received, duplicates := 1, map[], 0, 0, 0;
    }

    method Send(to: string, topic: string, payload: string) returns (m: Message)
      modifies this
      ensures View() == AfterSend(old(View()))
      ensures m == Message(old(nextSeq), nodeId, to, topic, payload)
    {
      m := Message(nextSeq, nodeId, to, topic, payload);
      nextSeq := nextSeq + 1;
      sent := sent + 1;
    }

    method Receive(m: Message) returns (r: Option<Incoming>)
      modifies this
      ensures View() == AfterReceive(nodeId, old(View()), m)
      ensures r == if Fresh(nodeId, old(seen), m) then Some(Incoming(m, m.to == "")) else None
    {
      if m.from == nodeId {
        return None;
      }
      if m.to != "" && m.to != nodeId {
        return None;
      }
      if m.from !in seen {
        seen := seen[m.from := 0];
      }
      if m.number <= seen[m.from] {
        duplicates := duplicates + 1;
        return None;
      }
      seen := seen[m.from := m.number];
      received := received + 1;
      return Some(Incoming(m, m.to == ""));
    }
  }

  // ---------------------------------------------------------------- one receiver, any arrivals

  /** The watermarks after a list of arrivals. */
  function Seen(me: NodeId, arrivals: seq<Message>): map<NodeId, nat> {
    if arrivals == [] then map[]
    else SeenStep(me, Seen(me, arrivals[..|arrivals| - 1]), arrivals[|arrivals| - 1])
  }

  /** The arrivals handed on, in order. */
  function Accepted(me: NodeId, arrivals: seq<Message>): seq<Message> {
    if arrivals == [] then []
    else
      var earlier, m := arrivals[..|arrivals| - 1], arrivals[|arrivals| - 1];
      Accepted(me, earlier) + if Fresh(me, Seen(me, earlier), m) then [m] else []
  }

  function Addressed(me: NodeId, arrivals: seq<Message>): seq<Message> {
    if arrivals == [] then []
    else
      var m := arrivals[|arrivals| - 1];
      Addressed(me, arrivals[..|arrivals| - 1]) + if ForMe(me, m) then [m] else []
  }

  function From(ms: seq<Message>, sender: NodeId): seq<Message> {
    if ms == [] then []
    else
      var m := ms[|ms| - 1];
      From(ms[..|ms| - 1], sender) + if m.from == sender then [m] else []
  }

  /** Arrival `k` is addressed to `me` and comes from `sender`. */
  predicate Counts(me: NodeId, arrivals: seq<Message>, sender: NodeId, k: int) {
    0 <= k < |arrivals| && ForMe(me, arrivals[k]) && arrivals[k].from == sender
  }

  /** A watermark is the highest number that has arrived from the sender, zero if none has. */
  lemma {:induction false} SeenIsHighest(me: NodeId, arrivals: seq<Message>, sender: NodeId)
    ensures var w := LastSeen(Seen(me, arrivals), sender);
            && (forall k :: Counts(me, arrivals, sender, k) ==> arrivals[k].number <= w)
            && (w == 0 || exists k :: Counts(me, arrivals, sender, k) && arrivals[k].number == w)
  {
    if arrivals != [] {
      var n := |arrivals| - 1;
      var earlier := arrivals[..n];
      SeenIsHighest(me, earlier, sender);
      var w0, w := LastSeen(Seen(me, earlier), sender), LastSeen(Seen(me, arrivals), sender);
      assert w0 <= w;
      forall k | Counts(me, arrivals, sender, k) ensures arrivals[k].number <= w {
        assert k < n ==> Counts(me, earlier, sender, k);
      }
      if w != w0 {
        assert Counts(me, arrivals, sender, n);
      } else if w != 0 {
        var k :| Counts(me, earlier, sender, k) && earlier[k].number == w0;
        assert Counts(me, arrivals, sender, k);
      }
    }
  }

  /** An arrival is accepted exactly when its number exceeds those of all earlier ones from its sender. */
  lemma AcceptedExactly(me: NodeId, earlier: seq<Message>, m: Message)
    ensures Fresh(me, Seen(me, earlier), m)
            <==> ForMe(me, m) && m.number > 0
                 && forall k :: Counts(me, earlier, m.from, k) ==> earlier[k].number < m.number
  {
    SeenIsHighest(me, earlier, m.from);
  }

  ghost predicate Ascending(ms: seq<Message>) {
    forall i, j :: 0 <= i < j < |ms| ==> ms[i].number < ms[j].number
  }

  /** All are messages of `sender` for `me` that arrived, numbered from one up to the mark. */
  ghost predicate Within(me: NodeId, sender: NodeId, ms: seq<Message>, arrivals: seq<Message>, mark: nat) {
    forall m :: m in ms ==> ForMe(me, m) && m.from == sender && m in arrivals && 0 < m.number <= mark
  }

  lemma FromOneMore(ms: seq<Message>, m: Message, sender: NodeId)
    ensures From(ms + [m], sender) == From(ms, sender) + if m.from == sender then [m] else []
  {
    assert (ms + [m])[..|ms|] == ms;
  }

  lemma WithinOneMore(me: NodeId, sender: NodeId, ms: seq<Message>, earlier: seq<Message>, mark: nat, m: Message)
    requires Within(me, sender, ms, earlier, mark) && Ascending(ms)
    requires ForMe(me, m) && m.from == sender && mark < m.number
    ensures Within(me, sender, ms + [m], earlier + [m], m.number) && Ascending(ms + [m])
  {
    forall i | 0 <= i < |ms| ensures ms[i].number < m.number {
      assert ms[i] in ms;
    }
  }

  lemma WithinGrows(me: NodeId, sender: NodeId, ms: seq<Message>, earlier: seq<Message>, mark: nat, m: Message, higher: nat)
    requires Within(me, sender, ms, earlier, mark) && mark <= higher
    ensures Within(me, sender, ms, earlier + [m], higher)
  {
  }

  lemma OneMoreArrival(me: NodeId, earlier: seq<Message>, m: Message)
    ensures Seen(me, earlier + [m]) == SeenStep(me, Seen(me, earlier), m)
    ensures Accepted(me, earlier + [m]) == Accepted(me, earlier) + if Fresh(me, Seen(me, earlier), m) then [m] else []
  {
    assert (earlier + [m])[..|earlier|] == earlier;
  }

  /** What is accepted from one sender is addressed here, arrived, and strictly ascends: no repeats. */
  ghost predicate Delivered(me: NodeId, arrivals: seq<Message>, sender: NodeId) {
    var ms := From(Accepted(me, arrivals), sender);
    Ascending(ms) && Within(me, sender, ms, arrivals, LastSeen(Seen(me, arrivals), sender))
  }

  lemma DeliveredOneMore(me: NodeId, earlier: seq<Message>, m: Message, sender: NodeId)
    requires Delivered(me, earlier, sender)
    ensures Delivered(me, earlier + [m], sender)
  {
    var ms, mark := From(Accepted(me, earlier), sender), LastSeen(Seen(me, earlier), sender);
    OneMoreArrival(me, earlier, m);
    if Fresh(me, Seen(me, earlier), m) && m.from == sender {
      FromOneMore(Accepted(me, earlier), m, sender);
      WithinOneMore(me, sender, ms, earlier, mark, m);
    } else {
      FromOneMore(Accepted(me, earlier), m, sender);
      assert Accepted(me, earlier) + [] == Accepted(me, earlier);
      WithinGrows(me, sender, ms, earlier, mark, m, mark);
    }
  }

  lemma {:induction false} AcceptedAscends(me: NodeId, arrivals: seq<Message>, sender: NodeId)
    ensures Delivered(me, arrivals, sender)
  {
    if arrivals != [] {
      var earlier, m := arrivals[..|arrivals| - 1], arrivals[|arrivals| - 1];
      AcceptedAscends(me, earlier, sender);
      DeliveredOneMore(me, earlier, m, sender);
      assert arrivals == earlier + [m];
    }
  }

  // ---------------------------------------------------------------- against a full seen-set

  /** Arrival `k` is addressed to `me` and no earlier addressed one has its sender and number. */
  ghost predicate First(me: NodeId, arrivals: seq<Message>, k: int) {
    && 0 <= k < |arrivals| && ForMe(me, arrivals[k])
    && forall j :: Counts(me, arrivals, arrivals[k].from, j) && j < k ==> arrivals[j].number != arrivals[k].number
  }

  /** What a receiver accepts that remembers every sender and number it has been sent. */
  function SeenSet(me: NodeId, arrivals: seq<Message>): set<(NodeId, nat)> {
    set k | 0 <= k < |arrivals| && ForMe(me, arrivals[k]) :: (arrivals[k].from, arrivals[k].number)
  }

  function AcceptedBySet(me: NodeId, arrivals: seq<Message>): seq<Message> {
    if arrivals == [] then []
    else
      var earlier, m := arrivals[..|arrivals| - 1], arrivals[|arrivals| - 1];
      AcceptedBySet(me, earlier)
      + if ForMe(me, m) && (m.from, m.number) !in SeenSet(me, earlier) then [m] else []
  }

  /** First arrivals from a sender come in ascending order, from one up. */
  ghost predicate FirstsAscend(me: NodeId, arrivals: seq<Message>) {
    && (forall k :: First(me, arrivals, k) ==> arrivals[k].number > 0)
    && (forall j, k :: First(me, arrivals, j) && First(me, arrivals, k) && j < k && arrivals[j].from == arrivals[k].from
          ==> arrivals[j].number < arrivals[k].number)
  }

  lemma {:induction false} HasFirst(me: NodeId, arrivals: seq<Message>, k: nat) returns (f: nat)
    requires k < |arrivals| && ForMe(me, arrivals[k])
    ensures f <= k && First(me, arrivals, f)
    ensures arrivals[f].from == arrivals[k].from && arrivals[f].number == arrivals[k].number
    decreases k
  {
    if First(me, arrivals, k) {
      f := k;
    } else {
      var j :| Counts(me, arrivals, arrivals[k].from, j) && j < k && arrivals[j].number == arrivals[k].number;
      f := HasFirst(me, arrivals, j);
    }
  }

  lemma FirstInPrefix(me: NodeId, arrivals: seq<Message>, n: nat, k: nat)
    requires k < n <= |arrivals|
    ensures First(me, arrivals[..n], k) <==> First(me, arrivals, k)
  {
    var p := arrivals[..n];
    forall j | 0 <= j < n ensures Counts(me, p, arrivals[k].from, j) <==> Counts(me, arrivals, arrivals[k].from, j) {
    }
  }

  lemma LastIsFirst(me: NodeId, earlier: seq<Message>, m: Message)
    ensures First(me, earlier + [m], |earlier|) <==> ForMe(me, m) && (m.from, m.number) !in SeenSet(me, earlier)
  {
    var all := earlier + [m];
    if k :| 0 <= k < |earlier| && ForMe(me, earlier[k]) && (earlier[k].from, earlier[k].number) == (m.from, m.number) {
      assert Counts(me, all, all[|earlier|].from, k);
    } else if ForMe(me, m) {
      forall j | Counts(me, all, m.from, j) && j < |earlier| ensures all[j].number != m.number {
        assert all[j] == earlier[j];
      }
    }
  }

  /** The last arrival, if a first one, is above all earlier first ones of its sender. */
  ghost predicate LastAscends(me: NodeId, earlier: seq<Message>, m: Message) {
    ForMe(me, m) && (m.from, m.number) !in SeenSet(me, earlier) ==>
      && m.number > 0
      && forall j :: First(me, earlier, j) && earlier[j].from == m.from ==> earlier[j].number < m.number
  }

  lemma FirstsAscendStep(me: NodeId, earlier: seq<Message>, m: Message)
    ensures FirstsAscend(me, earlier + [m]) <==> FirstsAscend(me, earlier) && LastAscends(me, earlier, m)
  {
    var all := earlier + [m];
    assert all[..|earlier|] == earlier;
    LastIsFirst(me, earlier, m);
    forall k | 0 <= k < |earlier| ensures First(me, all, k) <==> First(me, earlier, k) {
      FirstInPrefix(me, all, |earlier|, k);
    }
  }

  /** The watermark never accepts what the set would not; both agree on the last arrival iff it ascends. */
  lemma LastFlagsAgree(me: NodeId, earlier: seq<Message>, m: Message)
    ensures var byMark := Fresh(me, Seen(me, earlier), m);
            var bySet := ForMe(me, m) && (m.from, m.number) !in SeenSet(me, earlier);
            (byMark ==> bySet) && ((byMark <==> bySet) <==> LastAscends(me, earlier, m))
  {
    AcceptedExactly(me, earlier, m);
    if ForMe(me, m) && (m.from, m.number) in SeenSet(me, earlier) {
      var k :| 0 <= k < |earlier| && ForMe(me, earlier[k])
               && (earlier[k].from, earlier[k].number) == (m.from, m.number);
      assert Counts(me, earlier, m.from, k);
    }
    if LastAscends(me, earlier, m) && ForMe(me, m) && (m.from, m.number) !in SeenSet(me, earlier) {
      forall k | Counts(me, earlier, m.from, k) ensures earlier[k].number < m.number {
        var f := HasFirst(me, earlier, k);
      }
    }
    if Fresh(me, Seen(me, earlier), m) {
      forall j | First(me, earlier, j) && earlier[j].from == m.from ensures earlier[j].number < m.number {
        assert Counts(me, earlier, m.from, j);
      }
    }
  }

  lemma {:induction false} SetAcceptsMore(me: NodeId, arrivals: seq<Message>)
    ensures |Accepted(me, arrivals)| <= |AcceptedBySet(me, arrivals)|
  {
    if arrivals != [] {
      SetAcceptsMore(me, arrivals[..|arrivals| - 1]);
      LastFlagsAgree(me, arrivals[..|arrivals| - 1], arrivals[|arrivals| - 1]);
    }
  }

  /** The watermark accepts exactly what a full seen-set would iff first arrivals come in ascending order. */
  lemma {:induction false} WatermarkIsSeenSetExactly(me: NodeId, arrivals: seq<Message>)
    ensures Accepted(me, arrivals) == AcceptedBySet(me, arrivals) <==> FirstsAscend(me, arrivals)
  {
    if arrivals != [] {
      var earlier, m := arrivals[..|arrivals| - 1], arrivals[|arrivals| - 1];
      assert arrivals == earlier + [m];
      WatermarkIsSeenSetExactly(me, earlier);
      FirstsAscendStep(me, earlier, m);
      LastFlagsAgree(me, earlier, m);
      SetAcceptsMore(me, earlier);
      EqualExactly(me, earlier, m);
    }
  }

  lemma EqualExactly(me: NodeId, earlier: seq<Message>, m: Message)
    ensures Accepted(me, earlier + [m]) == AcceptedBySet(me, earlier + [m])
            <==> Accepted(me, earlier) == AcceptedBySet(me, earlier) && LastAscends(me, earlier, m)
  {
    var all := earlier + [m];
    assert all[..|earlier|] == earlier;
    LastFlagsAgree(me, earlier, m);
    SetAcceptsMore(me, earlier);
    var a, b := Accepted(me, earlier), AcceptedBySet(me, earlier);
    if Accepted(me, all) == AcceptedBySet(me, all) {
      assert |Accepted(me, all)| == |AcceptedBySet(me, all)|;
      assert Accepted(me, all)[..|a|] == a && AcceptedBySet(me, all)[..|b|] == b;
    }
  }

  lemma OneMoreForSet(me: NodeId, earlier: seq<Message>, m: Message)
    ensures AcceptedBySet(me, earlier + [m])
            == AcceptedBySet(me, earlier)
               + if ForMe(me, m) && (m.from, m.number) !in SeenSet(me, earlier) then [m] else []
  {
    assert (earlier + [m])[..|earlier|] == earlier;
  }

  /** Message 2 overtakes message 1: the late one is dropped, though it is no duplicate. */
  lemma LateMessageIsLost(me: NodeId, first: Message, second: Message)
    requires ForMe(me, first) && ForMe(me, second) && first.from == second.from
    requires first.number == 1 && second.number == 2
    ensures Accepted(me, [] + [second] + [first]) == [second]
    ensures AcceptedBySet(me, [] + [second] + [first]) == [second] + [first]
  {
    OneMoreArrival(me, [], second);
    OneMoreArrival(me, [] + [second], first);
    assert Accepted(me, [] + [second]) == [second];
    OneMoreForSet(me, [], second);
    OneMoreForSet(me, [] + [second], first);
    assert AcceptedBySet(me, [] + [second]) == [second];
    assert (first.from, 1) !in SeenSet(me, [] + [second]) by {
      assert ([] + [second])[0] == second;
    }
  }

  // ---------------------------------------------------------------- a whole network

  /** Every node's relay, with all it has sent and all that has arrived at it. */
  datatype Network = Network(relays: map<NodeId, State>, logs: map<NodeId, seq<Message>>, arrivals: map<NodeId, seq<Message>>)

  /** A node sends, or the network delivers any message ever sent to any node, again or late. */
  datatype Action =
    | Sends(node: NodeId, to: string, topic: string, payload: string)
    | Delivers(node: NodeId, message: Message)

  predicate Enabled(net: Network, a: Action) {
    && a.node in net.relays && a.node in net.logs && a.node in net.arrivals
    && (a.Delivers? ==> a.message.from in net.logs && a.message in net.logs[a.message.from])
  }

  function Step(net: Network, a: Action): Network
    requires Enabled(net, a)
  {
    var s := net.relays[a.node];
    match a
    case Sends(node, to, topic, payload) =>
      var m := Message(s.nextSeq, node, to, topic, payload);
      net.(relays := net.relays[node := AfterSend(s)], logs := net.logs[node := net.logs[node] + [m]])
    case Delivers(node, m) =>
      net.(relays := net.relays[node := AfterReceive(node, s, m)],
           arrivals := net.arrivals[node := net.arrivals[node] + [m]])
  }

  function Initial(nodes: set<NodeId>): Network {
    Network(map n | n in nodes :: NEW, map n | n in nodes :: [], map n | n in nodes :: [])
  }

  /** `net` is reached from the initial network by enabled actions. */
  ghost predicate Reaches(nodes: set<NodeId>, actions: seq<Action>, net: Network)
    decreases |actions|
  {
    if actions == [] then net == Initial(nodes)
    else exists earlier :: LastStep(nodes, actions, earlier, net)
  }

  ghost predicate LastStep(nodes: set<NodeId>, actions: seq<Action>, earlier: Network, net: Network)
    requires actions != []
    decreases |actions|, 0
  {
    var n := |actions| - 1;
    Reaches(nodes, actions[..n], earlier) && Enabled(earlier, actions[n]) && net == Step(earlier, actions[n])
  }

  /** A log is its node's messages, numbered from one without gaps. */
  ghost predicate Genuine(node: NodeId, log: seq<Message>) {
    forall i :: 0 <= i < |log| ==> log[i].from == node && log[i].number == i + 1
  }

  ghost predicate Drawn(arrivals: seq<Message>, logs: map<NodeId, seq<Message>>) {
    forall m :: m in arrivals ==> m.from in logs && m in logs[m.from]
  }

  /** A relay's fields are those its log and arrivals determine; nothing addressed to it goes uncounted. */
  ghost predicate Books(node: NodeId, s: State, log: seq<Message>, arrivals: seq<Message>) {
    && s.nextSeq == |log| + 1 && s.sent == |log|
    && s.seen == Seen(node, arrivals)
    && s.received == |Accepted(node, arrivals)|
    && s.received + s.duplicates == |Addressed(node, arrivals)|
  }

  ghost predicate NodeSound(net: Network, n: NodeId)
    requires n in net.relays && n in net.logs && n in net.arrivals
  {
    && Genuine(n, net.logs[n])
    && Drawn(net.arrivals[n], net.logs)
    && Books(n, net.relays[n], net.logs[n], net.arrivals[n])
  }

  ghost predicate Sound(net: Network) {
    && net.relays.Keys == net.logs.Keys == net.arrivals.Keys
    && forall n :: n in net.relays ==> NodeSound(net, n)
  }

  lemma BooksAfterDelivery(node: NodeId, s: State, log: seq<Message>, arrivals: seq<Message>, m: Message)
    requires Books(node, s, log, arrivals)
    ensures Books(node, AfterReceive(node, s, m), log, arrivals + [m])
  {
    assert (arrivals + [m])[..|arrivals|] == arrivals;
  }

  lemma DrawnFromLonger(arrivals: seq<Message>, logs: map<NodeId, seq<Message>>, node: NodeId, m: Message)
    requires Drawn(arrivals, logs) && node in logs
    ensures Drawn(arrivals, logs[node := logs[node] + [m]])
  {
  }

  lemma GenuineOneMore(node: NodeId, log: seq<Message>, to: string, topic: string, payload: string)
    requires Genuine(node, log)
    ensures Genuine(node, log + [Message(|log| + 1, node, to, topic, payload)])
  {
  }

  lemma SendKeepsSound(net: Network, a: Action, n: NodeId)
    requires Sound(net) && Enabled(net, a) && a.Sends? && n in net.relays
    ensures NodeSound(Step(net, a), n)
  {
    var m := Message(net.relays[a.node].nextSeq, a.node, a.to, a.topic, a.payload);
    assert NodeSound(net, n);
    DrawnFromLonger(net.arrivals[n], net.logs, a.node, m);
    if n == a.node {
      GenuineOneMore(n, net.logs[n], a.to, a.topic, a.payload);
    }
  }

  lemma DeliveryKeepsSound(net: Network, a: Action, n: NodeId)
    requires Sound(net) && Enabled(net, a) && a.Delivers? && n in net.relays
    ensures NodeSound(Step(net, a), n)
  {
    assert NodeSound(net, n);
    if n == a.node {
      BooksAfterDelivery(n, net.relays[n], net.logs[n], net.arrivals[n], a.message);
    }
  }

  lemma StepKeepsSound(net: Network, a: Action)
    requires Sound(net) && Enabled(net, a)
    ensures Sound(Step(net, a))
  {
    var next := Step(net, a);
    assert next.relays.Keys == net.relays.Keys && next.logs.Keys == net.logs.Keys;
    assert next.arrivals.Keys == net.arrivals.Keys;
    forall n | n in next.relays ensures NodeSound(next, n) {
      if a.Sends? {
        SendKeepsSound(net, a, n);
      } else {
        DeliveryKeepsSound(net, a, n);
      }
    }
  }

  lemma {:induction false} AlwaysSound(nodes: set<NodeId>, actions: seq<Action>, net: Network)
    requires Reaches(nodes, actions, net)
    ensures Sound(net)
    decreases |actions|
  {
    if actions != [] {
      var earlier :| LastStep(nodes, actions, earlier, net);
      AlwaysSound(nodes, actions[..|actions| - 1], earlier);
      StepKeepsSound(earlier, actions[|actions| - 1]);
    }
  }

  /** `ms` are the log's messages at strictly ascending positions. */
  ghost predicate EmbedsAt(ms: seq<Message>, log: seq<Message>, positions: seq<nat>) {
    && |positions| == |ms|
    && (forall i :: 0 <= i < |ms| ==> positions[i] < |log| && log[positions[i]] == ms[i])
    && (forall i, j :: 0 <= i < j < |ms| ==> positions[i] < positions[j])
  }

  ghost predicate InOrder(ms: seq<Message>, log: seq<Message>) {
    exists positions :: EmbedsAt(ms, log, positions)
  }

  lemma EmbedsByNumber(ms: seq<Message>, log: seq<Message>, node: NodeId)
    requires Genuine(node, log) && Ascending(ms) && forall m :: m in ms ==> m in log
    ensures InOrder(ms, log)
  {
    forall i | 0 <= i < |ms| ensures 0 < ms[i].number <= |log| && log[ms[i].number - 1] == ms[i] {
      assert ms[i] in ms;
    }
    var positions := seq(|ms|, i requires 0 <= i < |ms| => ms[i].number - 1);
    assert EmbedsAt(ms, log, positions);
  }

  lemma DeliveredWasSent(me: NodeId, arrivals: seq<Message>, sender: NodeId, logs: map<NodeId, seq<Message>>)
    requires Delivered(me, arrivals, sender) && Drawn(arrivals, logs) && sender in logs
    ensures forall m :: m in From(Accepted(me, arrivals), sender) ==> ForMe(me, m) && m in logs[sender]
  {
  }

  /**
   In every run of the network, what a node accepts from another is an in-order, repeat-free
   subsequence of that node's messages, all of them addressed to it or broadcast.
   */
  lemma DeliveredInOrder(nodes: set<NodeId>, actions: seq<Action>, net: Network, me: NodeId, sender: NodeId)
    requires Reaches(nodes, actions, net) && me in net.arrivals && sender in net.logs
    ensures InOrder(From(Accepted(me, net.arrivals[me]), sender), net.logs[sender])
    ensures forall m :: m in From(Accepted(me, net.arrivals[me]), sender) ==> ForMe(me, m)
  {
    AlwaysSound(nodes, actions, net);
    assert NodeSound(net, me) && NodeSound(net, sender);
    AcceptedAscends(me, net.arrivals[me], sender);
    DeliveredWasSent(me, net.arrivals[me], sender, net.logs);
    EmbedsByNumber(From(Accepted(me, net.arrivals[me]), sender), net.logs[sender], sender);
  }

  /** The relay's own counters say how much it has accepted and how much of what reached it was dropped. */
  lemma CountersAreExact(nodes: set<NodeId>, actions: seq<Action>, net: Network, me: NodeId)
    requires Reaches(nodes, actions, net) && me in net.relays
    ensures me in net.arrivals && me in net.logs
    ensures net.relays[me].received == |Accepted(me, net.arrivals[me])|
    ensures net.relays[me].duplicates == |Addressed(me, net.arrivals[me])| - |Accepted(me, net.arrivals[me])|
    ensures net.relays[me].sent == |net.logs[me]|
  {
    AlwaysSound(nodes, actions, net);
    assert NodeSound(net, me);
  }

  // ---------------------------------------------------------------- addressing in plain terms

  /** A message from another node, to everyone or to this node, above all such ones before it is accepted. */
  lemma AcceptedIsHandedOn(me: NodeId, arrivals: seq<Message>, m: Message)
    requires m.from != me && (m.to == "" || m.to == me) && m.number > 0
    requires forall k :: 0 <= k < |arrivals| && arrivals[k].from == m.from && (arrivals[k].to == "" || arrivals[k].to == me)
                         ==> arrivals[k].number < m.number
    ensures Accepted(me, arrivals + [m]) == Accepted(me, arrivals) + [m]
  {
    OneMoreArrival(me, arrivals, m);
    forall k | Counts(me, arrivals, m.from, k) ensures arrivals[k].number < m.number {
    }
    AcceptedExactly(me, arrivals, m);
  }

  /**
   In every run of the network, a broadcast delivered to another node whose number is above all that
   have arrived there from its sender is accepted and counted.
   */
  lemma BroadcastIsAccepted(nodes: set<NodeId>, actions: seq<Action>, net: Network, a: Action)
    requires Reaches(nodes, actions, net) && Enabled(net, a) && a.Delivers?
    requires a.message.to == "" && a.message.from != a.node
    requires forall k :: 0 <= k < |net.arrivals[a.node]| && net.arrivals[a.node][k].from == a.message.from
                         ==> net.arrivals[a.node][k].number < a.message.number
    ensures var n := Step(net, a);
            && Accepted(a.node, n.arrivals[a.node]) == Accepted(a.node, net.arrivals[a.node]) + [a.message]
            && n.relays[a.node].received == net.relays[a.node].received + 1
            && n.relays[a.node].duplicates == net.relays[a.node].duplicates
  {
    AlwaysSound(nodes, actions, net);
    SentAreNumbered(net, a.message);
    AcceptedIsHandedOn(a.node, net.arrivals[a.node], a.message);
    StepKeepsSound(net, a);
    assert NodeSound(net, a.node) && NodeSound(Step(net, a), a.node);
    OneMoreAddressed(a.node, net.arrivals[a.node], a.message);
  }

  lemma SentAreNumbered(net: Network, m: Message)
    requires Sound(net) && m.from in net.logs && m in net.logs[m.from]
    ensures m.number > 0
  {
    assert NodeSound(net, m.from);
  }

  lemma OneMoreAddressed(me: NodeId, earlier: seq<Message>, m: Message)
    requires m.from != me && m.to == ""
    ensures Addressed(me, earlier + [m]) == Addressed(me, earlier) + [m]
  {
    assert (earlier + [m])[..|earlier|] == earlier;
  }

  /** A message to a third node, or one's own, is passed over: nothing is accepted, counted or remembered. */
  lemma ForeignIsPassedOver(me: NodeId, s: State, m: Message)
    requires m.from == me || (m.to != "" && m.to != me)
    ensures AfterReceive(me, s, m) == s
  {
  }
}
