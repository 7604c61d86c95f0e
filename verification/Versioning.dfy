/**
 Agent definitions under version control: a bounded history per agent against the unbounded
 log of its saves and rollbacks.
 */
module Versioning {
  import opened Histories
  import opened Wrappers

  type AgentKey = string

  datatype Definition = Definition(agentKey: AgentKey, content: string)
  datatype Note = Message(text: Option<string>) | RolledBackTo(version: nat)
  datatype Version = Version(number: nat, definition: Definition, note: Note)

  type Store = map<AgentKey, seq<Version>>

  const MAX_VERSIONS: nat := 500

  datatype Op =
    | Save(definition: Definition, note: Note)
    | Rollback(key: AgentKey, version: nat)

  // ---------------------------------------------------------------- the store

  function History(s: Store, key: AgentKey): seq<Version> {
    if key in s then s[key] else []
  }

  /** A history without its oldest entries, if it is full. */
  function Drained(h: seq<Version>): seq<Version> {
    if |h| >= MAX_VERSIONS then h[|h| - MAX_VERSIONS + 1..] else h
  }

  function NextNumber(h: seq<Version>): nat {
    if h == [] then 1 else h[|h| - 1].number + 1
  }

  function AfterSave(s: Store, d: Definition, note: Note): Store {
    var h := Drained(History(s, d.agentKey));
    s[d.agentKey := h + [Version(NextNumber(h), d, note)]]
  }

  /** The first entry with the given number. */
  function Find(h: seq<Version>, number: nat): Option<Version> {
    if h == [] then None
    else if h[0].number == number then Some(h[0])
    else Find(h[1..], number)
  }

  function AfterRollback(s: Store, key: AgentKey, version: nat): Store {
    match Find(History(s, key), version)
    case None => s
    case Some(v) => AfterSave(s, v.definition, RolledBackTo(version))
  }

  class VersionStore {
    var versions: Store

    constructor ()
      ensures versions == map[]
    {
      versions := map[];
    }

    method SaveVersion(d: Definition, note: Note) returns (number: nat)
      modifies this
      ensures versions == AfterSave(old(versions), d, note)
      ensures number == NextNumber(Drained(History(old(versions), d.agentKey)))
    {
      var history := if d.agentKey in versions then versions[d.agentKey] else [];
      if |history| >= MAX_VERSIONS {
        var drainCount := |history| - MAX_VERSIONS + 1;
        history := history[drainCount..];
      }
      number := if history == [] then 1 else history[|history| - 1].number + 1;
      history := history + [Version(number, d, note)];
      versions := versions[d.agentKey := history];
    }

    method Get(key: AgentKey, number: nat) returns (r: Option<Version>)
      ensures r == Find(History(versions, key), number)
    {
      var h := if key in versions then versions[key] else [];
      var i := 0;
      while i < |h|
        invariant i <= |h| && Find(h, number) == Find(h[i..], number)
      {
        if h[i].number == number {
          return Some(h[i]);
        }
        assert h[i..][1..] == h[i + 1..];
        i := i + 1;
      }
      return None;
    }

    method Latest(key: AgentKey) returns (r: Option<Version>)
      ensures var h := History(versions, key); r == if h == [] then None else Some(h[|h| - 1])
    {
      if key !in versions || versions[key] == [] {
        return None;
      }
      return Some(versions[key][|versions[key]| - 1]);
    }

    method RollbackTo(key: AgentKey, version: nat) returns (r: Option<Definition>)
      modifies this
      ensures versions == AfterRollback(old(versions), key, version)
      ensures var v := Find(History(old(versions), key), version);
              r == if v.Some? then Some(v.value.definition) else None
    {
      var v := Get(key, version);
      if v == None {
        return None;
      }
      var _ := SaveVersion(v.value.definition, RolledBackTo(version));
      return Some(v.value.definition);
    }
  }

  // ---------------------------------------------------------------- the unbounded log

  function Apply(s: Store, op: Op): Store {
    match op
    case Save(d, note) => AfterSave(s, d, note)
    case Rollback(key, version) => AfterRollback(s, key, version)
  }

  function After(ops: seq<Op>): Store {
    if ops == [] then map[] else Apply(After(ops[..|ops| - 1]), ops[|ops| - 1])
  }

  /** Version `v` is among the last ones a full history still holds. */
  predicate Retained(log: seq<Version>, v: nat) {
    1 <= v <= |log| && |log| < v + MAX_VERSIONS
  }

  /** One agent's log: every save, and every rollback to a version still retained, in order. */
  function Log(ops: seq<Op>, key: AgentKey): seq<Version> {
    if ops == [] then []
    else
      var log := Log(ops[..|ops| - 1], key);
      match ops[|ops| - 1]
      case Save(d, note) => if d.agentKey == key then log + [Version(|log| + 1, d, note)] else log
      case Rollback(k, v) =>
        if k == key && Retained(log, v) then log + [Version(|log| + 1, log[v - 1].definition, RolledBackTo(v))] else log
  }

  /** Numbered from one without gaps, every definition the agent's own. */
  ghost predicate Numbered(log: seq<Version>, key: AgentKey) {
    forall i :: 0 <= i < |log| ==> log[i].number == i + 1 && log[i].definition.agentKey == key
  }

  lemma {:induction false} LogIsNumbered(ops: seq<Op>, key: AgentKey)
    ensures Numbered(Log(ops, key), key)
  {
    if ops != [] {
      LogIsNumbered(ops[..|ops| - 1], key);
    }
  }

  /** A saved history is again the last entries of the log. */
  lemma SaveExtends(log: seq<Version>, key: AgentKey, d: Definition, note: Note)
    requires Numbered(log, key)
    ensures var h := Drained(Last(log, MAX_VERSIONS));
            h + [Version(NextNumber(h), d, note)] == Last(log + [Version(|log| + 1, d, note)], MAX_VERSIONS)
  {
    var h := Drained(Last(log, MAX_VERSIONS));
    assert h == Last(log, MAX_VERSIONS - 1);
    assert NextNumber(h) == |log| + 1;
    LastOfFewer(log, MAX_VERSIONS, Version(|log| + 1, d, note));
  }

  lemma {:induction false} FindAt(h: seq<Version>, first: nat, v: nat)
    requires forall i :: 0 <= i < |h| ==> h[i].number == first + i
    ensures Find(h, v) == if first <= v < first + |h| then Some(h[v - first]) else None
  {
    if h != [] {
      FindAt(h[1..], first + 1, v);
    }
  }

  /** A lookup in the last entries finds exactly the retained versions. */
  lemma FindRetained(log: seq<Version>, key: AgentKey, v: nat)
    requires Numbered(log, key)
    ensures Find(Last(log, MAX_VERSIONS), v) == if Retained(log, v) then Some(log[v - 1]) else None
  {
    var h := Last(log, MAX_VERSIONS);
    FindAt(h, |log| - |h| + 1, v);
  }

  /** The store holds the last 500 entries of every agent's log, and no agent without a log. */
  ghost predicate Refines(s: Store, ops: seq<Op>) {
    forall key :: History(s, key) == Last(Log(ops, key), MAX_VERSIONS)
  }

  lemma SaveRefines(s: Store, d: Definition, note: Note, key: AgentKey, log: seq<Version>)
    requires History(s, key) == Last(log, MAX_VERSIONS) && Numbered(log, key)
    ensures History(AfterSave(s, d, note), key)
            == Last(if key == d.agentKey then log + [Version(|log| + 1, d, note)] else log, MAX_VERSIONS)
  {
    if key == d.agentKey {
      SaveExtends(log, key, d, note);
    }
  }

  lemma RollbackRefines(s: Store, k: AgentKey, v: nat, key: AgentKey, klog: seq<Version>, log: seq<Version>)
    requires History(s, k) == Last(klog, MAX_VERSIONS) && Numbered(klog, k)
    requires History(s, key) == Last(log, MAX_VERSIONS) && Numbered(log, key) && (k == key ==> klog == log)
    ensures History(AfterRollback(s, k, v), key)
            == Last(if k == key && Retained(log, v)
                    then log + [Version(|log| + 1, log[v - 1].definition, RolledBackTo(v))] else log, MAX_VERSIONS)
  {
    FindRetained(klog, k, v);
    if Retained(klog, v) {
      SaveRefines(s, klog[v - 1].definition, RolledBackTo(v), key, log);
    }
  }

  lemma StepRefines(s: Store, ops: seq<Op>, op: Op, key: AgentKey)
    requires Refines(s, ops)
    ensures History(Apply(s, op), key) == Last(Log(ops + [op], key), MAX_VERSIONS)
  {
    assert (ops + [op])[..|ops|] == ops;
    LogIsNumbered(ops, key);
    assert History(s, key) == Last(Log(ops, key), MAX_VERSIONS);
    match op
    case Save(d, note) => SaveRefines(s, d, note, key, Log(ops, key));
    case Rollback(k, v) =>
      LogIsNumbered(ops, k);
      assert History(s, k) == Last(Log(ops, k), MAX_VERSIONS);
      RollbackRefines(s, k, v, key, Log(ops, k), Log(ops, key));
  }

  /** After every run each agent's history is the last 500 entries of its log. */
  lemma {:induction false} StoreRefinesLog(ops: seq<Op>)
    ensures Refines(After(ops), ops)
  {
    if ops != [] {
      var earlier, op := ops[..|ops| - 1], ops[|ops| - 1];
      StoreRefinesLog(earlier);
      assert ops == earlier + [op];
      forall key ensures History(After(ops), key) == Last(Log(ops, key), MAX_VERSIONS) {
        StepRefines(After(earlier), earlier, op, key);
      }
    }
  }

  /** A version can be read exactly while it is retained, and reads as it was logged. */
  lemma GetExactly(ops: seq<Op>, key: AgentKey, v: nat)
    ensures Find(History(After(ops), key), v)
            == if Retained(Log(ops, key), v) then Some(Log(ops, key)[v - 1]) else None
  {
    StoreRefinesLog(ops);
    LogIsNumbered(ops, key);
    FindRetained(Log(ops, key), key, v);
    assert History(After(ops), key) == Last(Log(ops, key), MAX_VERSIONS);
  }

  /**
   A rollback to a retained version makes its definition the latest again, under the next number,
   even when making room for it evicts that version.
   */
  lemma RollbackReinstates(ops: seq<Op>, key: AgentKey, v: nat)
    requires Retained(Log(ops, key), v)
    ensures var log, h := Log(ops, key), History(After(ops + [Rollback(key, v)]), key);
            && h != [] && h[|h| - 1] == Version(|log| + 1, log[v - 1].definition, RolledBackTo(v))
            && (Retained(Log(ops + [Rollback(key, v)], key), v) <==> |log| + 1 < v + MAX_VERSIONS)
  {
    StoreRefinesLog(ops + [Rollback(key, v)]);
    assert (ops + [Rollback(key, v)])[..|ops|] == ops;
    var log := Log(ops + [Rollback(key, v)], key);
    assert History(After(ops + [Rollback(key, v)]), key) == Last(log, MAX_VERSIONS);
  }

  /** A history is its log, or the last five hundred entries of it; versions are found exactly among those. */
  lemma FiveHundredAreKept(ops: seq<Op>, key: AgentKey, v: nat)
    ensures var log := Log(ops, key);
            && History(After(ops), key) == (if |log| <= 500 then log else log[|log| - 500..])
            && Find(History(After(ops), key), v) == if 1 <= v <= |log| && |log| - v < 500 then Some(log[v - 1]) else None
  {
    StoreRefinesLog(ops);
    GetExactly(ops, key, v);
    assert History(After(ops), key) == Last(Log(ops, key), MAX_VERSIONS);
  }

  /** A save is logged under the next number for its own agent only. */
  lemma SavesAreLogged(ops: seq<Op>, d: Definition, note: Note, key: AgentKey)
    ensures var log := Log(ops, key);
            Log(ops + [Save(d, note)], key) == if d.agentKey == key then log + [Version(|log| + 1, d, note)] else log
  {
    assert (ops + [Save(d, note)])[..|ops|] == ops;
  }
}
