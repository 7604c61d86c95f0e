/**
 The conversation buffer: what its trimming keeps of all messages since the last clear.
 */
module ConversationMemory {
  import opened Histories

  datatype Strategy = Full | SlidingWindow | HeadTail

  datatype Op<T> = Push(message: T) | Clear

  /** What remains after the eviction strategy is applied to a buffer. */
  function Trimmed<T>(strategy: Strategy, max: nat, messages: seq<T>): seq<T> {
    if max == 0 || |messages| <= max then messages
    else match strategy
      case Full => messages
      case SlidingWindow => messages[|messages| - max..]
      case HeadTail =>
        if max == 1 then messages[|messages| - 1..]
        else messages[..1] + messages[|messages| - (max - 1)..]
  }

  class ConversationBuffer<T> {
    var messages: seq<T>
    const maxMessages: nat
    const strategy: Strategy

    constructor (strategy: Strategy, maxMessages: nat)
      ensures messages == [] && this.strategy == strategy && this.maxMessages == maxMessages
    {
      this.strategy := strategy;
      this.maxMessages := maxMessages;
      messages := [];
    }

    method Add(message: T)
      modifies this
      ensures messages == AfterOp(strategy, maxMessages, old(messages), Push(message))
    {
      messages := messages + [message];
      Trim();
    }

    method Reset()
      modifies this
      ensures messages == AfterOp(strategy, maxMessages, old(messages), Clear)
    {
      messages := [];
    }

    method Trim()
      modifies this
      ensures messages == Trimmed(strategy, maxMessages, old(messages))
    {
      if maxMessages == 0 || |messages| <= maxMessages {
        return;
      }
      match strategy
      case Full =>
      case SlidingWindow =>
        var excess := |messages| - maxMessages;
        messages := messages[excess..];
      case HeadTail =>
        if maxMessages == 1 {
          var last := |messages| - 1;
          messages := messages[last..];
        } else {
          var keepTail := maxMessages - 1;
          var removeStart, removeEnd := 1, |messages| - keepTail;
          if removeEnd > removeStart {
            messages := messages[..removeStart] + messages[removeEnd..];
          }
        }
    }
  }

  function AfterOp<T>(strategy: Strategy, max: nat, messages: seq<T>, op: Op<T>): seq<T> {
    match op
    case Push(m) => Trimmed(strategy, max, messages + [m])
    case Clear => []
  }

  function After<T>(strategy: Strategy, max: nat, ops: seq<Op<T>>): seq<T> {
    if ops == [] then []
    else AfterOp(strategy, max, After(strategy, max, ops[..|ops| - 1]), ops[|ops| - 1])
  }

  /** All messages since the last clear. */
  function SinceClear<T>(ops: seq<Op<T>>): seq<T> {
    if ops == [] then []
    else match ops[|ops| - 1]
      case Push(m) => SinceClear(ops[..|ops| - 1]) + [m]
      case Clear => []
  }

  /** All of them; or the last `max`; or the first and the last `max - 1`. */
  function Kept<T>(strategy: Strategy, max: nat, log: seq<T>): seq<T> {
    if max == 0 || strategy == Full then log
    else if strategy == SlidingWindow || max == 1 || |log| <= max then Last(log, max)
    else [log[0]] + Last(log, max - 1)
  }

  lemma TrimmedIsLast<T>(strategy: Strategy, max: nat, messages: seq<T>)
    requires (strategy == SlidingWindow && max > 0) || (strategy == HeadTail && max == 1)
    ensures Trimmed(strategy, max, messages) == Last(messages, max)
  {
  }

  lemma FirstOverflow<T>(max: nat, log: seq<T>, m: T)
    requires 1 < max == |log|
    ensures Trimmed(HeadTail, max, log + [m]) == [log[0]] + Last(log + [m], max - 1)
  {
    assert (log + [m])[..1] == [log[0]];
  }

  lemma KeptOneMore<T>(strategy: Strategy, max: nat, log: seq<T>, m: T)
    ensures Trimmed(strategy, max, Kept(strategy, max, log) + [m]) == Kept(strategy, max, log + [m])
  {
    if max == 0 || strategy == Full {
    } else if strategy == SlidingWindow || max == 1 {
      TrimmedIsLast(strategy, max, Kept(strategy, max, log) + [m]);
      LastOneMore(log, max, m);
    } else if |log| == max {
      FirstOverflow(max, log, m);
    } else if |log| > max {
      HeadTailOneMore(max, log, m);
    }
  }

  lemma HeadTailOneMore<T>(max: nat, log: seq<T>, m: T)
    requires 1 < max < |log|
    ensures Trimmed(HeadTail, max, [log[0]] + Last(log, max - 1) + [m]) == [log[0]] + Last(log + [m], max - 1)
  {
    var all := [log[0]] + Last(log, max - 1) + [m];
    assert all[..1] == [log[0]];
    assert all[|all| - (max - 1)..] == Last(log + [m], max - 1);
  }

  /** After every run the buffer holds exactly what its strategy keeps of the messages since the last clear. */
  lemma {:induction false} BufferRefinesLog<T>(strategy: Strategy, max: nat, ops: seq<Op<T>>)
    ensures After(strategy, max, ops) == Kept(strategy, max, SinceClear(ops))
  {
    if ops != [] {
      var earlier, op := ops[..|ops| - 1], ops[|ops| - 1];
      BufferRefinesLog(strategy, max, earlier);
      match op
      case Push(m) => KeptOneMore(strategy, max, SinceClear(earlier), m);
      case Clear =>
    }
  }

  /** Without a limit, or with the full strategy, everything since the last clear is kept. */
  lemma EverythingIsKept<T>(strategy: Strategy, max: nat, ops: seq<Op<T>>)
    requires strategy == Full || max == 0 || |SinceClear(ops)| <= max
    ensures After(strategy, max, ops) == SinceClear(ops)
  {
    BufferRefinesLog(strategy, max, ops);
  }

  /** Beyond the limit a window keeps the last messages, head and tail the first and the last but one fewer. */
  lemma OverflowExactly<T>(max: nat, ops: seq<Op<T>>)
    requires 0 < max < |SinceClear(ops)|
    ensures var log := SinceClear(ops);
            && After(SlidingWindow, max, ops) == log[|log| - max..]
            && After(HeadTail, max, ops) == if max == 1 then log[|log| - 1..] else log[..1] + log[|log| - (max - 1)..]
  {
    BufferRefinesLog(SlidingWindow, max, ops);
    BufferRefinesLog(HeadTail, max, ops);
    assert SinceClear(ops)[..1] == [SinceClear(ops)[0]];
  }

  /** A push adds its message to those since the last clear, a clear leaves none. */
  lemma SinceClearExactly<T>(ops: seq<Op<T>>, m: T)
    ensures SinceClear(ops + [Push(m)]) == SinceClear(ops) + [m]
    ensures SinceClear(ops + [Clear]) == []
  {
    assert (ops + [Push(m)])[..|ops|] == ops;
  }
}
