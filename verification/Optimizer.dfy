/**
 Tabular Q-learning over interned strings: the id-keyed table against a plain one keyed by
 string pairs, and the range and convergence of its values.  Values are reals.
 */
module Optimizer {
  import opened Wrappers

  /** Learning rate and discount factor. */
  datatype Params = Params(rate: real, discount: real)

  datatype Learner = Learner(ids: map<string, nat>, nextId: nat, table: map<(nat, nat), real>)

  const NEW: Learner := Learner(map[], 0, map[])

  /** One learning step: the pair updated, the reward, and the state and actions that follow. */
  datatype Sample = Sample(state: string, action: string, reward: real, nextState: string, nextActions: seq<string>)

  // ---------------------------------------------------------------- the interned table

  function Interned(l: Learner, s: string): Learner {
    if s in l.ids then l else l.(ids := l.ids[s := l.nextId], nextId := l.nextId + 1)
  }

  function Value(l: Learner, state: string, action: string): real {
    if state in l.ids && action in l.ids then
      var key := (l.ids[state], l.ids[action]);
      if key in l.table then l.table[key] else 0.0
    else 0.0
  }

  function Max(a: real, b: real): real {
    if a < b then b else a
  }

  /** The highest value of the actions in a state, at least zero. */
  function MaxValue(l: Learner, state: string, actions: seq<string>): real {
    if actions == [] then 0.0
    else Max(MaxValue(l, state, actions[..|actions| - 1]), Value(l, state, actions[|actions| - 1]))
  }

  /** The reward plus the discounted value of what follows. */
  function Aim(p: Params, reward: real, next: real): real {
    reward + Times(p.discount, next)
  }

  function Times(a: real, b: real): real {
    a * b
  }

  function Toward(rate: real, value: real, aim: real): real {
    value + Times(rate, aim - value)
  }

  function Moved(p: Params, value: real, reward: real, next: real): real {
    Toward(p.rate, value, Aim(p, reward, next))
  }

  function Learned(p: Params, l: Learner, x: Sample): Learner {
    var q := Moved(p, Value(l, x.state, x.action), x.reward, MaxValue(l, x.nextState, x.nextActions));
    var i := Interned(Interned(l, x.state), x.action);
    i.(table := i.table[(i.ids[x.state], i.ids[x.action]) := q])
  }

  class QLearner {
    const params: Params
    var ids: map<string, nat>
    var nextId: nat
    var table: map<(nat, nat), real>

    ghost function View(): Learner
      reads this
    {
      Learner(ids, nextId, table)
    }

    constructor (params: Params)
      ensures this.params == params && View() == NEW
    {
      this.params := params;
      ids, nextId, table := map[], 0, map[];
    }

    method Intern(s: string) returns (id: nat)
      modifies this
      ensures View() == Interned(old(View()), s)
      ensures s in ids && id == ids[s]
    {
      if s in ids {
        return ids[s];
      }
      id := nextId;
      nextId := nextId + 1;
      ids := ids[s := id];
    }

    method GetValue(state: string, action: string) returns (v: real)
      ensures v == Value(View(), state, action)
    {
      if state in ids && action in ids {
        var key := (ids[state], ids[action]);
        v := if key in table then table[key] else 0.0;
      } else {
        v := 0.0;
      }
    }

    method Update(x: Sample)
      modifies this
      ensures View() == Learned(params, old(View()), x)
    {
      var q := GetValue(x.state, x.action);
      var max := 0.0;
      for i := 0 to |x.nextActions|
        invariant View() == old(View())
        invariant max == MaxValue(View(), x.nextState, x.nextActions[..i])
      {
        var v := GetValue(x.nextState, x.nextActions[i]);
        assert x.nextActions[..i + 1][..i] == x.nextActions[..i];
        max := Max(max, v);
      }
      assert x.nextActions[..|x.nextActions|] == x.nextActions;
      var target := Aim(params, x.reward, max);
      var newQ := Toward(params.rate, q, target);
      var s := Intern(x.state);
      var a := Intern(x.action);
      table := table[(s, a) := newQ];
    }

    /** The best action, the last of equally good ones; none if there is no choice. */
    method BestAction(state: string, actions: seq<string>) returns (best: Option<string>)
      ensures best == None <==> actions == []
      ensures best.Some? ==> exists i: nat :: IsBest(View(), state, actions, i) && best.value == actions[i]
    {
      if actions == [] {
        return None;
      }
      var i := 0;
      for k := 1 to |actions|
        invariant IsBest(View(), state, actions[..k], i)
      {
        var v := GetValue(state, actions[k]);
        var w := GetValue(state, actions[i]);
        if v >= w {
          i := k;
        }
      }
      assert actions[..|actions|] == actions;
      return Some(actions[i]);
    }
  }

  /** Action `i` is worth at least every other, and more than every later one. */
  ghost predicate IsBest(l: Learner, state: string, actions: seq<string>, i: nat) {
    && i < |actions|
    && (forall j :: 0 <= j < |actions| ==> Value(l, state, actions[j]) <= Value(l, state, actions[i]))
    && (forall j :: i < j < |actions| ==> Value(l, state, actions[j]) < Value(l, state, actions[i]))
  }

  // ---------------------------------------------------------------- against a plain table

  type Plain = map<(string, string), real>

  function PlainValue(t: Plain, state: string, action: string): real {
    if (state, action) in t then t[(state, action)] else 0.0
  }

  function PlainMax(t: Plain, state: string, actions: seq<string>): real {
    if actions == [] then 0.0
    else Max(PlainMax(t, state, actions[..|actions| - 1]), PlainValue(t, state, actions[|actions| - 1]))
  }

  function Target(p: Params, t: Plain, x: Sample): real {
    Aim(p, x.reward, PlainMax(t, x.nextState, x.nextActions))
  }

  function PlainLearned(p: Params, t: Plain, x: Sample): Plain {
    t[(x.state, x.action) :=
        Moved(p, PlainValue(t, x.state, x.action), x.reward, PlainMax(t, x.nextState, x.nextActions))]
  }

  /** Ids are handed out once each, and the table uses only ids handed out. */
  ghost predicate Injective(l: Learner) {
    && (forall s :: s in l.ids ==> l.ids[s] < l.nextId)
    && (forall s, t :: s in l.ids && t in l.ids && l.ids[s] == l.ids[t] ==> s == t)
    && (forall k :: k in l.table ==> k.0 < l.nextId && k.1 < l.nextId)
  }

  ghost predicate Agrees(l: Learner, t: Plain) {
    forall s, a :: Value(l, s, a) == PlainValue(t, s, a)
  }

  lemma InterningKeeps(l: Learner, s: string)
    requires Injective(l)
    ensures Injective(Interned(l, s)) && s in Interned(l, s).ids
    ensures forall t, a :: Value(Interned(l, s), t, a) == Value(l, t, a)
  {
  }

  lemma {:induction false} MaxAgrees(l: Learner, t: Plain, state: string, actions: seq<string>)
    requires Agrees(l, t)
    ensures MaxValue(l, state, actions) == PlainMax(t, state, actions)
  {
    if actions != [] {
      MaxAgrees(l, t, state, actions[..|actions| - 1]);
    }
  }

  lemma StoringAgrees(l: Learner, t: Plain, state: string, action: string, q: real)
    requires Injective(l) && Agrees(l, t) && state in l.ids && action in l.ids
    ensures var m := l.(table := l.table[(l.ids[state], l.ids[action]) := q]);
            Injective(m) && Agrees(m, t[(state, action) := q])
  {
    var m := l.(table := l.table[(l.ids[state], l.ids[action]) := q]);
    forall s, a ensures Value(m, s, a) == PlainValue(t[(state, action) := q], s, a) {
      assert Value(l, s, a) == PlainValue(t, s, a);
    }
  }

  lemma LearningAgrees(p: Params, l: Learner, t: Plain, x: Sample)
    requires Injective(l) && Agrees(l, t)
    ensures Injective(Learned(p, l, x)) && Agrees(Learned(p, l, x), PlainLearned(p, t, x))
  {
    MaxAgrees(l, t, x.nextState, x.nextActions);
    assert Value(l, x.state, x.action) == PlainValue(t, x.state, x.action);
    InterningKeeps(l, x.state);
    InterningKeeps(Interned(l, x.state), x.action);
    StoringAgrees(Interned(Interned(l, x.state), x.action), t, x.state, x.action,
                  Moved(p, Value(l, x.state, x.action), x.reward, MaxValue(l, x.nextState, x.nextActions)));
  }

  function After(p: Params, xs: seq<Sample>): Learner {
    if xs == [] then NEW else Learned(p, After(p, xs[..|xs| - 1]), xs[|xs| - 1])
  }

  function PlainAfter(p: Params, xs: seq<Sample>): Plain {
    if xs == [] then map[] else PlainLearned(p, PlainAfter(p, xs[..|xs| - 1]), xs[|xs| - 1])
  }

  /** After every run the interned table reads as the plain table would. */
  lemma {:induction false} InterningIsInvisible(p: Params, xs: seq<Sample>)
    ensures Injective(After(p, xs)) && Agrees(After(p, xs), PlainAfter(p, xs))
  {
    if xs != [] {
      InterningIsInvisible(p, xs[..|xs| - 1]);
      LearningAgrees(p, After(p, xs[..|xs| - 1]), PlainAfter(p, xs[..|xs| - 1]), xs[|xs| - 1]);
    }
  }

  // ---------------------------------------------------------------- the range of values

  predicate Sane(p: Params) {
    0.0 <= p.rate <= 1.0 && 0.0 <= p.discount < 1.0
  }

  /** The highest value rewards up to `r` can add up to. */
  function Ceiling(p: Params, r: real): real
    requires Sane(p)
  {
    r / (1.0 - p.discount)
  }

  predicate Between(lo: real, x: real, hi: real) {
    lo <= x <= hi
  }

  ghost predicate InRange(t: Plain, lo: real, hi: real) {
    forall k :: k in t ==> Between(lo, t[k], hi)
  }

  lemma NonNegative(a: real, b: real)
    requires a >= 0.0 && b >= 0.0
    ensures Times(a, b) >= 0.0
  {
  }

  lemma PortionIsBetween(rate: real, d: real)
    requires 0.0 <= rate <= 1.0
    ensures d >= 0.0 ==> 0.0 <= Times(rate, d) <= d
    ensures d <= 0.0 ==> d <= Times(rate, d) <= 0.0
  {
    var rest := 1.0 - rate;
    assert Times(rate, d) + Times(rest, d) == d;
    if d >= 0.0 {
      NonNegative(rate, d);
      NonNegative(rest, d);
    } else {
      NonNegative(rate, -d);
      NonNegative(rest, -d);
    }
  }

  /** A move at a rate in [0, 1] ends between the value and its aim. */
  lemma TowardStaysBetween(rate: real, value: real, aim: real, lo: real, hi: real)
    requires 0.0 <= rate <= 1.0 && Between(lo, value, hi) && Between(lo, aim, hi)
    ensures Between(lo, Toward(rate, value, aim), hi)
  {
    PortionIsBetween(rate, aim - value);
  }

  lemma QuotientTimes(r: real, x: real)
    requires r >= 0.0 && x > 0.0
    ensures Times(x, r / x) == r && r / x >= 0.0
  {
  }

  lemma CeilingIsFixed(p: Params, r: real)
    requires Sane(p) && r >= 0.0
    ensures Aim(p, r, Ceiling(p, r)) == Ceiling(p, r) && Ceiling(p, r) >= 0.0
  {
    var c := Ceiling(p, r);
    QuotientTimes(r, 1.0 - p.discount);
    assert Times(1.0 - p.discount, c) == c - Times(p.discount, c);
  }

  /** What a sample aims at is in range when what follows is. */
  lemma AimInRange(p: Params, r: real, reward: real, next: real)
    requires Sane(p) && r >= 0.0 && Between(-r, reward, r) && Between(0.0, next, Ceiling(p, r))
    ensures Between(-r, Aim(p, reward, next), Ceiling(p, r))
  {
    CeilingIsFixed(p, r);
    var c := Ceiling(p, r);
    NonNegative(p.discount, next);
    NonNegative(p.discount, c - next);
    assert Times(p.discount, c - next) == Times(p.discount, c) - Times(p.discount, next);
  }

  lemma MovedInRange(p: Params, r: real, value: real, reward: real, next: real)
    requires Sane(p) && r >= 0.0 && Between(-r, reward, r)
    requires Between(-r, value, Ceiling(p, r)) && Between(0.0, next, Ceiling(p, r))
    ensures Between(-r, Moved(p, value, reward, next), Ceiling(p, r))
  {
    AimInRange(p, r, reward, next);
    TowardStaysBetween(p.rate, value, Aim(p, reward, next), -r, Ceiling(p, r));
  }

  lemma {:induction false} MaxInRange(t: Plain, lo: real, hi: real, state: string, actions: seq<string>)
    requires InRange(t, lo, hi) && hi >= 0.0
    ensures Between(0.0, PlainMax(t, state, actions), hi)
  {
    if actions != [] {
      MaxInRange(t, lo, hi, state, actions[..|actions| - 1]);
      var last := (state, actions[|actions| - 1]);
      assert last in t ==> Between(lo, t[last], hi);
    }
  }

  /**
   With a rate in [0, 1], a discount in [0, 1) and rewards in [-r, r], every value of every run lies
   in [-r, r / (1 - discount)].
   */
  lemma {:induction false} ValuesStayInRange(p: Params, xs: seq<Sample>, r: real)
    requires Sane(p) && r >= 0.0 && forall i :: 0 <= i < |xs| ==> Between(-r, xs[i].reward, r)
    ensures InRange(PlainAfter(p, xs), -r, Ceiling(p, r))
  {
    if xs != [] {
      var earlier, x := xs[..|xs| - 1], xs[|xs| - 1];
      ValuesStayInRange(p, earlier, r);
      CeilingIsFixed(p, r);
      var t := PlainAfter(p, earlier);
      MaxInRange(t, -r, Ceiling(p, r), x.nextState, x.nextActions);
      assert Between(-r, PlainValue(t, x.state, x.action), Ceiling(p, r));
      MovedInRange(p, r, PlainValue(t, x.state, x.action), x.reward, PlainMax(t, x.nextState, x.nextActions));
    }
  }

  /** The same of the interned table's own lookups. */
  lemma LookupsStayInRange(p: Params, xs: seq<Sample>, r: real, state: string, action: string)
    requires Sane(p) && r >= 0.0 && forall i :: 0 <= i < |xs| ==> Between(-r, xs[i].reward, r)
    ensures Between(-r, Value(After(p, xs), state, action), Ceiling(p, r))
  {
    InterningIsInvisible(p, xs);
    ValuesStayInRange(p, xs, r);
    CeilingIsFixed(p, r);
    var t := PlainAfter(p, xs);
    assert Value(After(p, xs), state, action) == PlainValue(t, state, action);
    assert (state, action) in t ==> Between(-r, t[(state, action)], Ceiling(p, r));
  }

  // ---------------------------------------------------------------- convergence

  function Power(x: real, n: nat): real {
    if n == 0 then 1.0 else Times(x, Power(x, n - 1))
  }

  function Repeated(p: Params, t: Plain, x: Sample, n: nat): Plain {
    if n == 0 then t else PlainLearned(p, Repeated(p, t, x, n - 1), x)
  }

  /** The sample's target does not depend on the pair it updates. */
  predicate Settled(x: Sample) {
    x.nextState != x.state || x.action !in x.nextActions
  }

  lemma {:induction false} MaxUnchanged(t: Plain, key: (string, string), q: real, state: string, actions: seq<string>)
    requires state != key.0 || key.1 !in actions
    ensures PlainMax(t[key := q], state, actions) == PlainMax(t, state, actions)
  {
    if actions != [] {
      MaxUnchanged(t, key, q, state, actions[..|actions| - 1]);
    }
  }

  /** The distance of a value from its aim, as a fraction of a first distance. */
  ghost predicate AtGap(value: real, aim: real, factor: real, gap: real) {
    value - aim == Times(factor, gap)
  }

  lemma GapShrinks(rate: real, value: real, aim: real, factor: real, gap: real)
    requires AtGap(value, aim, factor, gap)
    ensures AtGap(Toward(rate, value, aim), aim, Times(1.0 - rate, factor), gap)
  {
    calc {
      Toward(rate, value, aim) - aim;
      (1.0 - rate) * (value - aim);
      (1.0 - rate) * (factor * gap);
      ((1.0 - rate) * factor) * gap;
    }
  }

  lemma {:induction false} TargetIsFixed(p: Params, t: Plain, x: Sample, n: nat)
    requires Settled(x)
    ensures Target(p, Repeated(p, t, x, n), x) == Target(p, t, x)
    decreases n
  {
    if n > 0 {
      TargetIsFixed(p, t, x, n - 1);
      var u := Repeated(p, t, x, n - 1);
      var q := PlainLearned(p, u, x)[(x.state, x.action)];
      MaxUnchanged(u, (x.state, x.action), q, x.nextState, x.nextActions);
    }
  }

  lemma RepeatStep(p: Params, t: Plain, x: Sample, n: nat)
    requires Settled(x) && n > 0
    ensures PlainValue(Repeated(p, t, x, n), x.state, x.action)
            == Toward(p.rate, PlainValue(Repeated(p, t, x, n - 1), x.state, x.action), Target(p, t, x))
  {
    TargetIsFixed(p, t, x, n - 1);
  }

  /** Repeating one sample closes its distance to the target geometrically. */
  lemma {:induction false} RepeatedUpdatesConverge(p: Params, t: Plain, x: Sample, n: nat)
    requires Settled(x)
    ensures AtGap(PlainValue(Repeated(p, t, x, n), x.state, x.action), Target(p, t, x),
                  Power(1.0 - p.rate, n), PlainValue(t, x.state, x.action) - Target(p, t, x))
    decreases n
  {
    if n > 0 {
      RepeatedUpdatesConverge(p, t, x, n - 1);
      RepeatStep(p, t, x, n);
      var v := PlainValue(Repeated(p, t, x, n - 1), x.state, x.action);
      GapShrinks(p.rate, v, Target(p, t, x), Power(1.0 - p.rate, n - 1), PlainValue(t, x.state, x.action) - Target(p, t, x));
    }
  }

  // ---------------------------------------------------------------- convergence, bootstrapping included

  function Abs(x: real): real {
    if x < 0.0 then -x else x
  }

  /** What remains of a distance after one update whose target may follow the value. */
  function Shrink(p: Params): real {
    1.0 - Times(p.rate, 1.0 - p.discount)
  }

  /** The tables agree on every pair but one. */
  ghost predicate AgreeElsewhere(t: Plain, u: Plain, key: (string, string)) {
    forall k: (string, string) :: k != key ==> PlainValue(t, k.0, k.1) == PlainValue(u, k.0, k.1)
  }

  /** A maximum moves no further than the one value that changed. */
  lemma {:induction false} MaxMovesNoFurther(t: Plain, u: Plain, key: (string, string), state: string, actions: seq<string>)
    requires AgreeElsewhere(t, u, key)
    ensures Abs(PlainMax(t, state, actions) - PlainMax(u, state, actions))
            <= Abs(PlainValue(t, key.0, key.1) - PlainValue(u, key.0, key.1))
  {
    if actions != [] {
      var last := (state, actions[|actions| - 1]);
      MaxMovesNoFurther(t, u, key, state, actions[..|actions| - 1]);
      assert last != key ==> PlainValue(t, last.0, last.1) == PlainValue(u, last.0, last.1);
    }
  }

  lemma MoveContracts(p: Params, d: real, e: real)
    requires Sane(p) && -d <= e <= d
    ensures Abs(d - Times(p.rate, d) + Times(Times(p.rate, p.discount), e)) <= Times(Shrink(p), d)
  {
    var g := Times(p.rate, p.discount);
    NonNegative(p.rate, p.discount);
    NonNegative(1.0 - p.rate, d);
    NonNegative(g, d - e);
    NonNegative(g, d + e);
    assert Times(1.0 - p.rate, d) == d - Times(p.rate, d);
    assert Times(g, d - e) == Times(g, d) - Times(g, e);
    assert Times(g, d + e) == Times(g, d) + Times(g, e);
    ShrinkTimes(p, d);
  }

  lemma ShrinkTimes(p: Params, d: real)
    ensures Times(Shrink(p), d) == d - Times(p.rate, d) + Times(Times(p.rate, p.discount), d)
  {
    var g := Times(p.rate, p.discount);
    assert Shrink(p) == 1.0 - p.rate + g;
    assert Times(1.0 - p.rate + g, d) == d - Times(p.rate, d) + Times(g, d);
  }

  lemma MovedDifference(p: Params, a: real, b: real, reward: real, x: real, y: real)
    ensures Moved(p, a, reward, x) - Moved(p, b, reward, y)
            == (a - b) - Times(p.rate, a - b) + Times(Times(p.rate, p.discount), x - y)
  {
    var rate, discount := p.rate, p.discount;
    assert Times(rate, Aim(p, reward, x) - a) - Times(rate, Aim(p, reward, y) - b)
           == Times(rate, Times(discount, x) - Times(discount, y)) - Times(rate, a - b);
    assert Times(discount, x) - Times(discount, y) == Times(discount, x - y);
    Regroup(rate, discount, x - y);
  }

  lemma Regroup(a: real, b: real, c: real)
    ensures Times(a, Times(b, c)) == Times(Times(a, b), c)
  {
  }

  /** Updates that start close end closer. */
  lemma MovesContract(p: Params, a: real, b: real, reward: real, x: real, y: real)
    requires Sane(p) && Abs(x - y) <= Abs(a - b)
    ensures Abs(Moved(p, a, reward, x) - Moved(p, b, reward, y)) <= Times(Shrink(p), Abs(a - b))
  {
    if a >= b {
      MovedDifference(p, a, b, reward, x, y);
      MoveContracts(p, a - b, x - y);
    } else {
      MovedDifference(p, b, a, reward, y, x);
      MoveContracts(p, b - a, y - x);
    }
  }

  /** The value a sample's pair has in a table. */
  function At(t: Plain, x: Sample): real {
    PlainValue(t, x.state, x.action)
  }

  /** One more update brings the tables, equal elsewhere, closer on the pair updated. */
  lemma UpdateContracts(p: Params, t: Plain, u: Plain, x: Sample)
    requires Sane(p) && AgreeElsewhere(t, u, (x.state, x.action))
    ensures Abs(At(PlainLearned(p, t, x), x) - At(PlainLearned(p, u, x), x)) <= Times(Shrink(p), Abs(At(t, x) - At(u, x)))
    ensures AgreeElsewhere(PlainLearned(p, t, x), PlainLearned(p, u, x), (x.state, x.action))
  {
    MaxMovesNoFurther(t, u, (x.state, x.action), x.nextState, x.nextActions);
    MovesContract(p, At(t, x), At(u, x), x.reward,
                  PlainMax(t, x.nextState, x.nextActions), PlainMax(u, x.nextState, x.nextActions));
  }

  lemma OneMoreFactor(rho: real, n: nat, a: real, b: real, gap: real)
    requires 0.0 <= rho && a <= Times(rho, b) && b <= Times(Power(rho, n), gap)
    ensures a <= Times(Power(rho, n + 1), gap)
  {
    var c := Times(Power(rho, n), gap);
    NonNegative(rho, c - b);
    assert Times(rho, c - b) == Times(rho, c) - Times(rho, b);
    Regroup(rho, Power(rho, n), gap);
  }

  lemma ShrinkIsNonNegative(p: Params)
    requires Sane(p)
    ensures Shrink(p) >= 0.0
  {
    PortionIsBetween(p.rate, 1.0 - p.discount);
  }

  /** From any two tables that agree elsewhere, repeating a sample closes the gap geometrically. */
  lemma {:induction false} RepeatsContract(p: Params, t: Plain, u: Plain, x: Sample, n: nat)
    requires Sane(p) && AgreeElsewhere(t, u, (x.state, x.action))
    ensures AgreeElsewhere(Repeated(p, t, x, n), Repeated(p, u, x, n), (x.state, x.action))
    ensures Abs(At(Repeated(p, t, x, n), x) - At(Repeated(p, u, x, n), x))
            <= Times(Power(Shrink(p), n), Abs(At(t, x) - At(u, x)))
    decreases n
  {
    if n > 0 {
      var a, b := Repeated(p, t, x, n - 1), Repeated(p, u, x, n - 1);
      RepeatsContract(p, t, u, x, n - 1);
      UpdateContracts(p, a, b, x);
      ShrinkIsNonNegative(p);
      OneMoreFactor(Shrink(p), n - 1, Abs(At(PlainLearned(p, a, x), x) - At(PlainLearned(p, b, x), x)),
                    Abs(At(a, x) - At(b, x)), Abs(At(t, x) - At(u, x)));
    }
  }

  lemma {:induction false} RepeatShifts(p: Params, t: Plain, x: Sample, n: nat)
    ensures Repeated(p, PlainLearned(p, t, x), x, n) == Repeated(p, t, x, n + 1)
    decreases n
  {
    if n > 0 {
      RepeatShifts(p, t, x, n - 1);
    }
  }

  /** For every sample, bootstrapping or not, successive changes of its value shrink geometrically. */
  lemma RepeatedChangesShrink(p: Params, t: Plain, x: Sample, n: nat)
    requires Sane(p)
    ensures Abs(At(Repeated(p, t, x, n + 1), x) - At(Repeated(p, t, x, n), x))
            <= Times(Power(Shrink(p), n), Abs(At(Repeated(p, t, x, 1), x) - At(t, x)))
  {
    var u := PlainLearned(p, t, x);
    RepeatShifts(p, t, x, n);
    RepeatsContract(p, u, t, x, n);
    assert Repeated(p, t, x, 1) == u by {
      assert Repeated(p, t, x, 0) == t;
    }
  }

  /** With this value in place, the sample's update changes nothing. */
  ghost predicate IsLimit(p: Params, t: Plain, x: Sample, f: real) {
    At(PlainLearned(p, t[(x.state, x.action) := f], x), x) == f
  }

  lemma {:induction false} LimitStays(p: Params, t: Plain, x: Sample, f: real, n: nat)
    requires IsLimit(p, t, x, f)
    ensures Repeated(p, t[(x.state, x.action) := f], x, n) == t[(x.state, x.action) := f]
    decreases n
  {
    if n > 0 {
      LimitStays(p, t, x, f, n - 1);
    }
  }

  /** With the pair among the next ones, the maximum is over its value and the others. */
  lemma {:induction false} MaxWithPair(t: Plain, key: (string, string), f: real, actions: seq<string>)
    requires key.1 in actions
    ensures PlainMax(t[key := f], key.0, actions) == Max(PlainMax(t[key := 0.0], key.0, actions), f)
    ensures PlainMax(t[key := 0.0], key.0, actions) >= 0.0
  {
    var n := |actions| - 1;
    var earlier := actions[..n];
    MaxInRangeZero(t[key := 0.0], key.0, earlier);
    if key.1 in earlier {
      MaxWithPair(t, key, f, earlier);
    } else {
      MaxUnchanged(t, key, f, key.0, earlier);
      MaxUnchanged(t, key, 0.0, key.0, earlier);
    }
  }

  lemma {:induction false} MaxInRangeZero(t: Plain, state: string, actions: seq<string>)
    ensures PlainMax(t, state, actions) >= 0.0
  {
    if actions != [] {
      MaxInRangeZero(t, state, actions[..|actions| - 1]);
    }
  }

  /** What the value tends to: its target, or all the reward still to come if it feeds on itself. */
  function Limit(p: Params, t: Plain, x: Sample): real
    requires Sane(p)
  {
    var others := PlainMax(t[(x.state, x.action) := 0.0], x.nextState, x.nextActions);
    var target := Aim(p, x.reward, others);
    if Settled(x) || target <= others then target else Ceiling(p, x.reward)
  }

  lemma MovedToAim(p: Params, f: real, reward: real, next: real)
    requires Aim(p, reward, next) == f
    ensures Moved(p, f, reward, next) == f
  {
  }

  lemma SelfFeedingLimit(p: Params, reward: real, others: real)
    requires Sane(p) && others >= 0.0 && Aim(p, reward, others) > others
    ensures Ceiling(p, reward) > others && Aim(p, reward, Ceiling(p, reward)) == Ceiling(p, reward)
  {
    var c, rest := Ceiling(p, reward), 1.0 - p.discount;
    assert Times(rest, others) == others - Times(p.discount, others);
    NonNegative(rest, others);
    QuotientTimes(reward, rest);
    assert Times(rest, c) == c - Times(p.discount, c);
    if c <= others {
      NonNegative(rest, others - c);
    }
  }

  /** Every sample has a limit. */
  lemma LimitIsLimit(p: Params, t: Plain, x: Sample)
    requires Sane(p)
    ensures IsLimit(p, t, x, Limit(p, t, x))
  {
    var key, f := (x.state, x.action), Limit(p, t, x);
    var others := PlainMax(t[key := 0.0], x.nextState, x.nextActions);
    if Settled(x) {
      MaxUnchanged(t, key, 0.0, x.nextState, x.nextActions);
      MaxUnchanged(t, key, f, x.nextState, x.nextActions);
    } else {
      MaxWithPair(t, key, f, x.nextActions);
      if Aim(p, x.reward, others) > others {
        SelfFeedingLimit(p, x.reward, others);
      }
    }
    MovedToAim(p, f, x.reward, PlainMax(t[key := f], x.nextState, x.nextActions));
  }

  /** For every sample, bootstrapping or not, its value approaches the limit geometrically. */
  lemma RepeatedUpdatesApproachLimit(p: Params, t: Plain, x: Sample, n: nat)
    requires Sane(p)
    ensures Abs(At(Repeated(p, t, x, n), x) - Limit(p, t, x))
            <= Times(Power(Shrink(p), n), Abs(At(t, x) - Limit(p, t, x)))
  {
    var f := Limit(p, t, x);
    LimitIsLimit(p, t, x);
    LimitStays(p, t, x, f, n);
    RepeatsContract(p, t, t[(x.state, x.action) := f], x, n);
  }

  // ---------------------------------------------------------------- one update in plain terms

  /** `m` is the highest of the values of the actions and zero. */
  ghost predicate Highest(t: Plain, state: string, actions: seq<string>, m: real) {
    && m >= 0.0 && (forall i :: 0 <= i < |actions| ==> PlainValue(t, state, actions[i]) <= m)
    && (m == 0.0 || exists i :: 0 <= i < |actions| && PlainValue(t, state, actions[i]) == m)
  }

  lemma {:induction false} MaxIsHighest(t: Plain, state: string, actions: seq<string>)
    ensures Highest(t, state, actions, PlainMax(t, state, actions))
  {
    if actions != [] {
      var n := |actions| - 1;
      MaxIsHighest(t, state, actions[..n]);
      var m := PlainMax(t, state, actions[..n]);
      if m != 0.0 && PlainMax(t, state, actions) == m {
        var i :| 0 <= i < n && PlainValue(t, state, actions[..n][i]) == m;
        assert PlainValue(t, state, actions[i]) == m;
      }
    }
  }

  /** An update moves the pair's value by the rate toward reward plus discounted highest next value; no other changes. */
  lemma UpdateExactly(p: Params, t: Plain, x: Sample, m: real, q: real, other: (string, string))
    requires Highest(t, x.nextState, x.nextActions, m)
    requires q == if (x.state, x.action) in t then t[(x.state, x.action)] else 0.0
    ensures (x.state, x.action) in PlainLearned(p, t, x)
    ensures PlainLearned(p, t, x)[(x.state, x.action)] == q + p.rate * (x.reward + p.discount * m - q)
    ensures other != (x.state, x.action) ==> (other in PlainLearned(p, t, x) <==> other in t)
    ensures other != (x.state, x.action) && other in t ==> PlainLearned(p, t, x)[other] == t[other]
  {
    MaxIsHighest(t, x.nextState, x.nextActions);
    HighestIsUnique(t, x.nextState, x.nextActions, m, PlainMax(t, x.nextState, x.nextActions));
  }

  lemma HighestIsUnique(t: Plain, state: string, actions: seq<string>, m: real, n: real)
    requires Highest(t, state, actions, m) && Highest(t, state, actions, n)
    ensures m == n
  {
    if m != 0.0 {
      var i :| 0 <= i < |actions| && PlainValue(t, state, actions[i]) == m;
    }
    if n != 0.0 {
      var i :| 0 <= i < |actions| && PlainValue(t, state, actions[i]) == n;
    }
  }
}
