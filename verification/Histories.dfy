/** The tail of an ever-growing log. */
module Histories {
  function Last<T>(log: seq<T>, n: nat): (s: seq<T>)
    ensures |s| == if |log| < n then |log| else n
  {
    if |log| <= n then log else log[|log| - n..]
  }

  /** Keeping a tail up to date takes only the tail and the new entry. */
  lemma LastOneMore<T>(log: seq<T>, n: nat, x: T)
    ensures Last(log + [x], n) == Last(Last(log, n) + [x], n)
  {
  }

  lemma LastOfFewer<T>(log: seq<T>, n: nat, x: T)
    requires n > 0
    ensures Last(log + [x], n) == Last(log, n - 1) + [x]
  {
  }
}
