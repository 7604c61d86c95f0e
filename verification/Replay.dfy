/**
 The replay buffer: a bounded store that keeps the highest priorities, and sampling from it
 without replacement, each draw weighted by priority.  Priorities are reals.
 */
module Replay {
  import opened Graphs

  datatype Experience = Experience(state: string, action: string, reward: real, nextState: string, priority: real)

  // ---------------------------------------------------------------- push

  /** Index `i` holds the first of the lowest priorities. */
  ghost predicate FirstLowest(exps: seq<Experience>, i: nat) {
    && i < |exps|
    && (forall j :: 0 <= j < |exps| ==> exps[i].priority <= exps[j].priority)
    && (forall j :: 0 <= j < i ==> exps[i].priority < exps[j].priority)
  }

  /** Remove an element, putting the last one in its place. */
  function SwapRemove<T>(s: seq<T>, i: nat): (r: seq<T>)
    requires i < |s|
    ensures |r| == |s| - 1
  {
    s[i := s[|s| - 1]][..|s| - 1]
  }

  lemma SwapRemoveContents<T>(s: seq<T>, i: nat)
    requires i < |s|
    ensures multiset(SwapRemove(s, i)) + multiset{s[i]} == multiset(s)
  {
    var last := |s| - 1;
    assert s == s[..last] + [s[last]];
    if i < last {
      assert SwapRemove(s, i) == s[..last][i := s[last]];
    } else {
      assert SwapRemove(s, i) == s[..last];
    }
  }

  /** One push: what the buffer holds after it, and which experience it discards. */
  ghost predicate Pushed(before: seq<Experience>, maxSize: nat, e: Experience, after: seq<Experience>, gone: seq<Experience>) {
    if |before| < maxSize then after == before + [e] && gone == []
    else if before == [] then after == [] && gone == [e]
    else exists i :: FirstLowest(before, i) && Replaced(before, e, i, after, gone)
  }

  ghost predicate Replaced(before: seq<Experience>, e: Experience, i: nat, after: seq<Experience>, gone: seq<Experience>)
    requires i < |before|
  {
    if e.priority > before[i].priority then after == SwapRemove(before, i) + [e] && gone == [before[i]]
    else after == before && gone == [e]
  }

  method IndexOfLowest(exps: seq<Experience>) returns (i: nat)
    requires exps != []
    ensures FirstLowest(exps, i)
  {
    i := 0;
    for k := 1 to |exps|
      invariant FirstLowest(exps[..k], i)
    {
      if exps[k].priority < exps[i].priority {
        i := k;
      }
    }
    assert exps[..|exps|] == exps;
  }

  class ReplayBuffer {
    var experiences: seq<Experience>
    const maxSize: nat

    constructor (maxSize: nat)
      ensures this.maxSize == maxSize && experiences == []
    {
      this.maxSize := maxSize;
      experiences := [];
    }

    method Push(e: Experience) returns (ghost gone: seq<Experience>)
      modifies this
      ensures Pushed(old(experiences), maxSize, e, experiences, gone)
    {
      gone := [e];
      if |experiences| >= maxSize {
        if experiences != [] {
          var i := IndexOfLowest(experiences);
          if e.priority > experiences[i].priority {
            gone := [experiences[i]];
            experiences := SwapRemove(experiences, i);
            experiences := experiences + [e];
          }
        }
      } else {
        gone := [];
        experiences := experiences + [e];
      }
    }

    method UpdatePriority(index: nat, priority: real)
      modifies this
      ensures experiences == Reprioritized(old(experiences), index, priority)
    {
      if index < |experiences| {
        experiences := experiences[index := experiences[index].(priority := priority)];
      }
    }
  }

  function Reprioritized(exps: seq<Experience>, index: nat, priority: real): seq<Experience> {
    if index < |exps| then exps[index := exps[index].(priority := priority)] else exps
  }

  /** `pushes`, made one by one on a new buffer, leave `kept` in it and `gone` discarded. */
  ghost predicate Leaves(maxSize: nat, pushes: seq<Experience>, kept: seq<Experience>, gone: seq<Experience>)
    decreases |pushes|
  {
    if pushes == [] then kept == [] && gone == []
    else exists k, g, d :: LastPush(maxSize, pushes, k, g, kept, d) && gone == g + d
  }

  ghost predicate LastPush(maxSize: nat, pushes: seq<Experience>, k: seq<Experience>, g: seq<Experience>,
                           kept: seq<Experience>, d: seq<Experience>)
    requires pushes != []
    decreases |pushes|, 0
  {
    Leaves(maxSize, pushes[..|pushes| - 1], k, g) && Pushed(k, maxSize, pushes[|pushes| - 1], kept, d)
  }

  /** No discarded priority exceeds a kept one. */
  ghost predicate KeepsHighest(kept: seq<Experience>, gone: seq<Experience>) {
    forall i, j :: 0 <= i < |kept| && 0 <= j < |gone| ==> gone[j].priority <= kept[i].priority
  }

  lemma PushContents(before: seq<Experience>, maxSize: nat, e: Experience, after: seq<Experience>, d: seq<Experience>)
    requires Pushed(before, maxSize, e, after, d)
    ensures multiset(after) + multiset(d) == multiset(before) + multiset{e}
    ensures |after| == if |before| < maxSize then |before| + 1 else |before|
  {
    if maxSize <= |before| && before != [] {
      var i: nat :| FirstLowest(before, i) && Replaced(before, e, i, after, d);
      if e.priority > before[i].priority {
        SwapRemoveContents(before, i);
      }
    }
  }

  lemma PushKeepsHighest(before: seq<Experience>, maxSize: nat, e: Experience, after: seq<Experience>,
                         g: seq<Experience>, d: seq<Experience>)
    requires KeepsHighest(before, g) && Pushed(before, maxSize, e, after, d) && (|before| < maxSize ==> g == [])
    ensures KeepsHighest(after, g + d)
  {
    if maxSize <= |before| && before != [] {
      var i: nat :| FirstLowest(before, i) && Replaced(before, e, i, after, d);
      var low := before[i].priority;
      assert forall j :: 0 <= j < |after| ==> low <= after[j].priority;
    }
  }

  lemma {:induction false} NothingIsLost(maxSize: nat, pushes: seq<Experience>, kept: seq<Experience>, gone: seq<Experience>)
    requires Leaves(maxSize, pushes, kept, gone)
    ensures multiset(kept) + multiset(gone) == multiset(pushes)
    ensures |kept| == if |pushes| < maxSize then |pushes| else maxSize
    decreases |pushes|
  {
    if pushes != [] {
      var n := |pushes| - 1;
      var k, g, d :| LastPush(maxSize, pushes, k, g, kept, d) && gone == g + d;
      NothingIsLost(maxSize, pushes[..n], k, g);
      assert pushes == pushes[..n] + [pushes[n]];
      PushContents(k, maxSize, pushes[n], kept, d);
    }
  }

  lemma NoneGone(p: seq<Experience>, k: seq<Experience>, g: seq<Experience>)
    requires multiset(k) + multiset(g) == multiset(p) && |k| == |p|
    ensures g == []
  {
    assert |multiset(k) + multiset(g)| == |k| + |g|;
  }

  /** Every discarded priority is at most every kept one, whatever is pushed. */
  lemma {:induction false} HighestAreKept(maxSize: nat, pushes: seq<Experience>, kept: seq<Experience>, gone: seq<Experience>)
    requires Leaves(maxSize, pushes, kept, gone)
    ensures KeepsHighest(kept, gone)
    decreases |pushes|
  {
    if pushes != [] {
      var n := |pushes| - 1;
      var k, g, d :| LastPush(maxSize, pushes, k, g, kept, d) && gone == g + d;
      HighestAreKept(maxSize, pushes[..n], k, g);
      NothingIsLost(maxSize, pushes[..n], k, g);
      if |k| < maxSize {
        NoneGone(pushes[..n], k, g);
      }
      PushKeepsHighest(k, maxSize, pushes[n], kept, g, d);
    }
  }

  /** A priority update keeps the order between kept and discarded exactly when it stays above the discarded. */
  lemma UpdateKeepsHighestExactly(kept: seq<Experience>, gone: seq<Experience>, index: nat, priority: real)
    requires KeepsHighest(kept, gone)
    ensures KeepsHighest(Reprioritized(kept, index, priority), gone)
            <==> (index < |kept| ==> forall j :: 0 <= j < |gone| ==> gone[j].priority <= priority)
  {
    if index < |kept| && KeepsHighest(Reprioritized(kept, index, priority), gone) {
      assert Reprioritized(kept, index, priority)[index].priority == priority;
    }
  }

  // ---------------------------------------------------------------- sample

  function Weight(e: Experience): (w: real)
    ensures w >= 0.0
  {
    if e.priority < 0.0 then -e.priority else e.priority
  }

  /** The weight of the first `k` experiences, those already taken left out. */
  function Cumulative(exps: seq<Experience>, taken: seq<nat>, k: nat): (w: real)
    requires k <= |exps|
    ensures w >= 0.0
  {
    if k == 0 then 0.0
    else Cumulative(exps, taken, k - 1) + if k - 1 in taken then 0.0 else Weight(exps[k - 1])
  }

  function Remaining(exps: seq<Experience>, taken: seq<nat>): real {
    Cumulative(exps, taken, |exps|)
  }

  ghost predicate FirstLeft(exps: seq<Experience>, taken: seq<nat>, c: nat) {
    c < |exps| && c !in taken && forall j :: 0 <= j < c ==> j in taken
  }

  /** The cumulative weight interval of `c` contains the point `x`; the point zero belongs to the first one left. */
  ghost predicate Contains(exps: seq<Experience>, taken: seq<nat>, c: nat, x: real) {
    && c < |exps| && c !in taken
    && (x > 0.0 ==> Cumulative(exps, taken, c) < x <= Cumulative(exps, taken, c + 1))
    && (x <= 0.0 ==> FirstLeft(exps, taken, c))
  }

  lemma {:induction false} CumulativeGrows(exps: seq<Experience>, taken: seq<nat>, j: nat, k: nat)
    requires j <= k <= |exps|
    ensures Cumulative(exps, taken, j) <= Cumulative(exps, taken, k)
    decreases k
  {
    if j < k {
      CumulativeGrows(exps, taken, j, k - 1);
    }
  }

  lemma {:induction false} NothingLeftWeighsNothing(exps: seq<Experience>, taken: seq<nat>, k: nat)
    requires k <= |exps| && forall j :: 0 <= j < k ==> j in taken
    ensures Cumulative(exps, taken, k) == 0.0
    decreases k
  {
    if k > 0 {
      NothingLeftWeighsNothing(exps, taken, k - 1);
    }
  }

  lemma {:induction false} TakingLowersWeight(exps: seq<Experience>, taken: seq<nat>, c: nat, k: nat)
    requires k <= |exps|
    ensures Cumulative(exps, taken + [c], k) <= Cumulative(exps, taken, k)
    decreases k
  {
    if k > 0 {
      TakingLowersWeight(exps, taken, c, k - 1);
    }
  }

  /** The intervals are disjoint: a point determines the index drawn. */
  lemma DrawIsDetermined(exps: seq<Experience>, taken: seq<nat>, c: nat, d: nat, x: real)
    requires Contains(exps, taken, c, x) && Contains(exps, taken, d, x)
    ensures c == d
  {
    if x > 0.0 {
      if c < d {
        CumulativeGrows(exps, taken, c + 1, d);
      } else if d < c {
        CumulativeGrows(exps, taken, d + 1, c);
      }
    }
  }

  /** A draw in [0, 1) scaled to a weight. */
  function Scaled(u: real, weight: real): (x: real)
    ensures 0.0 <= u < 1.0 && weight > 0.0 ==> 0.0 <= x < weight
  {
    u * weight
  }

  /** The index a round must pick: the one the draw selects, or the first left if no weight remains. */
  ghost predicate Picks(exps: seq<Experience>, taken: seq<nat>, u: real, c: nat) {
    if Remaining(exps, taken) <= 0.0 then FirstLeft(exps, taken, c)
    else Contains(exps, taken, c, Scaled(u, Remaining(exps, taken)))
  }

  /** `picked` are the indices of `n` rounds, each picking among those not yet taken. */
  ghost predicate Sampled(exps: seq<Experience>, n: nat, draws: seq<real>, picked: seq<nat>)
    requires n <= |draws|
  {
    |picked| == n && forall k :: 0 <= k < n ==> Picks(exps, picked[..k], draws[k], picked[k])
  }

  /** The flags say which indices have been picked. */
  ghost predicate Marks(selected: seq<bool>, picked: seq<nat>) {
    forall i :: 0 <= i < |selected| ==> (selected[i] <==> i in picked)
  }

  lemma MarksOneMore(selected: seq<bool>, picked: seq<nat>, c: nat)
    requires Marks(selected, picked) && c < |selected|
    ensures Marks(selected[c := true], picked + [c])
  {
  }

  lemma OneMorePick(exps: seq<Experience>, draws: seq<real>, picked: seq<nat>, c: nat)
    requires |picked| < |draws| && Sampled(exps, |picked|, draws, picked)
    requires Picks(exps, picked, draws[|picked|], c)
    ensures Sampled(exps, |picked| + 1, draws, picked + [c])
  {
    var more := picked + [c];
    forall k | 0 <= k <= |picked| ensures Picks(exps, more[..k], draws[k], more[k]) {
      if k < |picked| {
        assert more[..k] == picked[..k];
      } else {
        assert more[..k] == picked;
      }
    }
  }

  predicate InRange(picked: seq<nat>, n: nat) {
    forall k :: 0 <= k < |picked| ==> picked[k] < n
  }

  predicate UnitDraws(draws: seq<real>) {
    forall k :: 0 <= k < |draws| ==> 0.0 <= draws[k] < 1.0
  }

  /** Every pick is an index not taken before. */
  lemma {:induction false} PicksAreDistinct(exps: seq<Experience>, n: nat, draws: seq<real>, picked: seq<nat>)
    requires n <= |draws| && Sampled(exps, n, draws, picked)
    ensures Distinct(picked) && InRange(picked, |exps|)
  {
    forall j, k | 0 <= j < k < n ensures picked[j] != picked[k] {
      assert Picks(exps, picked[..k], draws[k], picked[k]);
      assert picked[..k][j] == picked[j];
    }
    forall k | 0 <= k < n ensures picked[k] < |exps| {
      assert Picks(exps, picked[..k], draws[k], picked[k]);
    }
  }

  lemma PickIsDetermined(exps: seq<Experience>, taken: seq<nat>, u: real, c: nat, d: nat)
    requires Picks(exps, taken, u, c) && Picks(exps, taken, u, d)
    ensures c == d
  {
    if Remaining(exps, taken) > 0.0 {
      DrawIsDetermined(exps, taken, c, d, Scaled(u, Remaining(exps, taken)));
    }
  }

  /** The draws determine the sample. */
  lemma {:induction false} SampleIsDetermined(exps: seq<Experience>, n: nat, draws: seq<real>, p: seq<nat>, q: seq<nat>, k: nat)
    requires n <= |draws| && Sampled(exps, n, draws, p) && Sampled(exps, n, draws, q) && k <= n
    ensures p[..k] == q[..k]
    decreases k
  {
    if k > 0 {
      var i := k - 1;
      SampleIsDetermined(exps, n, draws, p, q, i);
      PickIsDetermined(exps, p[..i], draws[i], p[i], q[i]);
      assert p[..k] == p[..i] + [p[i]] && q[..k] == q[..i] + [q[i]];
    }
  }

  method SumRemaining(exps: seq<Experience>, selected: seq<bool>, ghost taken: seq<nat>) returns (sum: real)
    requires |selected| == |exps| && Marks(selected, taken)
    ensures sum == Remaining(exps, taken)
  {
    sum := 0.0;
    for i := 0 to |exps|
      invariant sum == Cumulative(exps, taken, i)
    {
      if !selected[i] {
        sum := sum + Weight(exps[i]);
      }
    }
  }

  /** Walk the unselected weights until the draw is used up. */
  method Choose(exps: seq<Experience>, selected: seq<bool>, r0: real, ghost taken: seq<nat>) returns (chosen: nat)
    requires |selected| == |exps| && Marks(selected, taken)
    requires 0.0 <= r0 < Remaining(exps, taken)
    ensures Contains(exps, taken, chosen, r0)
  {
    var r := r0;
    chosen := 0;
    var i := 0;
    while i < |exps|
      invariant i <= |exps| && r == r0 - Cumulative(exps, taken, i)
      invariant r > 0.0 || forall j :: 0 <= j < i ==> j in taken
    {
      if !selected[i] {
        r := r - Weight(exps[i]);
        chosen := i;
        if r <= 0.0 {
          break;
        }
      }
      i := i + 1;
    }
    if forall j :: 0 <= j < i ==> j in taken {
      NothingLeftWeighsNothing(exps, taken, i);
    }
    assert i < |exps|;
  }

  lemma AllTaken(picked: seq<nat>, n: nat)
    requires forall j :: 0 <= j < n ==> j in picked
    ensures n <= |picked|
  {
    var all: seq<nat> := seq(n, i => i);
    assert Distinct(all);
    DistinctCardinality(all);
    DistinctCardinality(picked);
    SubsetSize(Elems(all), Elems(picked));
  }

  /** One weighted draw. */
  method Draw(exps: seq<Experience>, selected: seq<bool>, u: real, remaining: real, ghost taken: seq<nat>)
    returns (chosen: nat)
    requires |selected| == |exps| && Marks(selected, taken)
    requires 0.0 <= u < 1.0 && remaining == Remaining(exps, taken) > 0.0
    ensures Picks(exps, taken, u, chosen)
  {
    chosen := Choose(exps, selected, Scaled(u, remaining), taken);
  }

  /** Fill up from those left, in order. */
  method Fill(exps: seq<Experience>, n: nat, selected: array<bool>, draws: seq<real>, picked0: seq<nat>)
    returns (picked: seq<nat>)
    requires selected.Length == |exps| && n <= |exps| && n <= |draws| && |picked0| <= n
    requires Marks(selected[..], picked0) && Sampled(exps, |picked0|, draws, picked0)
    requires Remaining(exps, picked0) <= 0.0
    modifies selected
    ensures Sampled(exps, n, draws, picked)
  {
    picked := picked0;
    for i := 0 to |exps|
      invariant |picked0| <= |picked| <= n && Sampled(exps, |picked|, draws, picked)
      invariant Marks(selected[..], picked) && Remaining(exps, picked) <= 0.0
      invariant |picked| == n || forall j :: 0 <= j < i ==> j in picked
    {
      if |picked| >= n {
        break;
      }
      if !selected[i] {
        OneMorePick(exps, draws, picked, i);
        MarksOneMore(selected[..], picked, i);
        TakingLowersWeight(exps, picked, i, |exps|);
        selected[i] := true;
        picked := picked + [i];
      }
    }
    if |picked| < n {
      AllTaken(picked, |exps|);
    }
  }

  /** The experiences at the picked indices. */
  function At(exps: seq<Experience>, picked: seq<nat>): seq<Experience>
    requires InRange(picked, |exps|)
  {
    seq(|picked|, k requires 0 <= k < |picked| => exps[picked[k]])
  }

  /** Sample a batch: as many distinct experiences as asked for and held, each drawn by weight. */
  method Sample(exps: seq<Experience>, batchSize: nat, draws: seq<real>) returns (result: seq<Experience>, picked: seq<nat>)
    requires UnitDraws(draws) && (batchSize <= |draws| || |exps| <= |draws|)
    ensures |picked| == if batchSize < |exps| then batchSize else |exps|
    ensures Distinct(picked) && InRange(picked, |exps|) && result == At(exps, picked)
    ensures |picked| <= |draws| && Sampled(exps, |picked|, draws, picked)
  {
    picked := [];
    var n := if batchSize < |exps| then batchSize else |exps|;
    var selected := new bool[|exps|](_ => false);
    assert Marks(selected[..], picked);
    while |picked| < n
      invariant |picked| <= n && Marks(selected[..], picked)
      invariant Sampled(exps, |picked|, draws, picked)
      decreases n - |picked|
    {
      var remaining := SumRemaining(exps, selected[..], picked);
      if remaining <= 0.0 {
        picked := Fill(exps, n, selected, draws, picked);
        break;
      }
      var chosen := Draw(exps, selected[..], draws[|picked|], remaining, picked);
      OneMorePick(exps, draws, picked, chosen);
      MarksOneMore(selected[..], picked, chosen);
      selected[chosen] := true;
      picked := picked + [chosen];
    }
    PicksAreDistinct(exps, n, draws, picked);
    result := At(exps, picked);
  }

  // ---------------------------------------------------------------- the draw in plain terms

  function Sum(ws: seq<real>): real {
    if ws == [] then 0.0 else Sum(ws[..|ws| - 1]) + ws[|ws| - 1]
  }

  /** The absolute priorities of the first `k` experiences, zero for those taken. */
  ghost function PrioritiesLeft(exps: seq<Experience>, taken: seq<nat>, k: nat): seq<real>
    requires k <= |exps|
  {
    seq(k, i requires 0 <= i < k =>
      if i in taken then 0.0 else if exps[i].priority >= 0.0 then exps[i].priority else -exps[i].priority)
  }

  lemma {:induction false} CumulativeExactly(exps: seq<Experience>, taken: seq<nat>, k: nat)
    requires k <= |exps|
    ensures Cumulative(exps, taken, k) == Sum(PrioritiesLeft(exps, taken, k))
    decreases k
  {
    if k > 0 {
      CumulativeExactly(exps, taken, k - 1);
      assert PrioritiesLeft(exps, taken, k)[..k - 1] == PrioritiesLeft(exps, taken, k - 1);
    }
  }

  /** `x` is the draw times the sum of the absolute priorities left. */
  ghost predicate DrawnAt(exps: seq<Experience>, taken: seq<nat>, u: real, total: real, x: real) {
    total == Sum(PrioritiesLeft(exps, taken, |exps|)) && x == u * total
  }

  lemma DrawnIsScaled(exps: seq<Experience>, taken: seq<nat>, u: real, total: real, x: real)
    requires DrawnAt(exps, taken, u, total, x)
    ensures total == Remaining(exps, taken) && Scaled(u, total) == x
  {
    CumulativeExactly(exps, taken, |exps|);
  }

  /**
   A draw `u` picks the index `c` not yet taken at which the absolute priorities left, summed up from the
   front, first reach `u` times their total.
   */
  lemma PickedExactly(exps: seq<Experience>, taken: seq<nat>, u: real, total: real, x: real, c: nat)
    requires DrawnAt(exps, taken, u, total, x) && total > 0.0 && x > 0.0
    ensures Picks(exps, taken, u, c)
            <==> && c < |exps| && c !in taken
                 && Sum(PrioritiesLeft(exps, taken, c)) < x <= Sum(PrioritiesLeft(exps, taken, c + 1))
  {
    DrawnIsScaled(exps, taken, u, total, x);
    PicksByInterval(exps, taken, u, total, x, c);
    if c < |exps| {
      CumulativeExactly(exps, taken, c);
      CumulativeExactly(exps, taken, c + 1);
    }
  }

  lemma PicksByInterval(exps: seq<Experience>, taken: seq<nat>, u: real, total: real, x: real, c: nat)
    requires total == Remaining(exps, taken) > 0.0 && Scaled(u, total) == x
    ensures Picks(exps, taken, u, c) <==> Contains(exps, taken, c, x)
  {
  }

  /** With no priority left, or a draw of zero, the first one not taken is picked. */
  lemma PickedFirstExactly(exps: seq<Experience>, taken: seq<nat>, u: real, total: real, x: real, c: nat)
    requires DrawnAt(exps, taken, u, total, x) && (total <= 0.0 || x <= 0.0)
    ensures Picks(exps, taken, u, c) <==> c < |exps| && c !in taken && forall j :: 0 <= j < c ==> j in taken
  {
    DrawnIsScaled(exps, taken, u, total, x);
    if total > 0.0 {
      PicksByInterval(exps, taken, u, total, x, c);
    }
  }
}
