/**
 Conditional compilation as the symbol checker reads it: which lines of a file are live
 for a target.  Lines are first classified (string state is carried across lines), then
 a stack of open conditionals decides liveness.
 */
module Preprocessor {

  // ---------------------------------------------------------------- the stack machine

  datatype Keyword = IfDef | IfNDef | IfPlat | If | Elif | Else | EndIf | EndPlat | Define | Undef

  /** A line is a directive with its argument (possibly empty), or anything else. */
  datatype Line = Directive(d: Keyword, arg: string) | Plain

  /** An open conditional: was its surrounding live, was an arm taken, is its condition unknown. */
  datatype Frame = Frame(parent: bool, taken: bool, unknown: bool)

  datatype State = State(stack: seq<Frame>, active: bool, defs: set<string>)

  predicate Opens(d: Keyword) {
    d == IfDef || d == IfNDef || d == IfPlat || d == If
  }

  /** Whether an opening condition holds; an expression after `#if` is taken to hold. */
  predicate Holds(d: Keyword, arg: string, defs: set<string>, plats: set<string>) {
    match d
    case IfDef => arg in defs
    case IfNDef => arg !in defs
    case IfPlat => arg in plats
    case _ => true
  }

  function Step(s: State, line: Line, plats: set<string>): State {
    match line
    case Plain => s
    case Directive(d, arg) =>
      if Opens(d) then
        var arm := s.active && Holds(d, arg, s.defs, plats);
        State(s.stack + [Frame(s.active, arm, d == If)], arm, s.defs)
      else if (d == Elif || d == Else) && s.stack != [] then
        var n := |s.stack| - 1;
        var f := s.stack[n];
        var arm := if f.unknown then f.parent else f.parent && !f.taken && (d == Else || arg in s.defs);
        State(s.stack[n := f.(taken := f.taken || arm)], arm, s.defs)
      else if (d == EndIf || d == EndPlat) && s.stack != [] then
        var n := |s.stack| - 1;
        State(s.stack[..n], s.stack[n].parent, s.defs)
      else if d == Define && s.active && arg != "" then s.(defs := s.defs + {arg})
      else if d == Undef && s.active && arg != "" then s.(defs := s.defs - {arg})
      else s
  }

  function Run(s: State, lines: seq<Line>, plats: set<string>): State
    decreases |lines|
  {
    if lines == [] then s else Run(Step(s, lines[0], plats), lines[1..], plats)
  }

  /** For every line, whether it is kept: directives never are, others when the machine is active. */
  function Liveness(s: State, lines: seq<Line>, plats: set<string>): (live: seq<bool>)
    ensures |live| == |lines|
    decreases |lines|
  {
    if lines == [] then []
    else [lines[0].Plain? && s.active] + Liveness(Step(s, lines[0], plats), lines[1..], plats)
  }

  lemma {:induction false} RunSum(s: State, a: seq<Line>, b: seq<Line>, plats: set<string>)
    ensures Run(s, a + b, plats) == Run(Run(s, a, plats), b, plats)
    ensures Liveness(s, a + b, plats) == Liveness(s, a, plats) + Liveness(Run(s, a, plats), b, plats)
    decreases |a|
  {
    if a == [] {
      assert a + b == b;
    } else {
      assert (a + b)[1..] == a[1..] + b;
      RunSum(Step(s, a[0], plats), a[1..], b, plats);
    }
  }

  lemma RunTwo(s: State, a: seq<Line>, s1: State, b: seq<Line>, plats: set<string>)
    requires Run(s, a, plats) == s1
    ensures Run(s, a + b, plats) == Run(s1, b, plats)
    ensures Liveness(s, a + b, plats) == Liveness(s, a, plats) + Liveness(s1, b, plats)
  {
    RunSum(s, a, b, plats);
  }

  /** Four stretches run one after the other. */
  lemma RunFour(
    s: State, a: seq<Line>, s1: State, b: seq<Line>, s2: State, c: seq<Line>, s3: State, d: seq<Line>, plats: set<string>)
    requires Run(s, a, plats) == s1 && Run(s1, b, plats) == s2 && Run(s2, c, plats) == s3
    ensures Run(s, a + b + c + d, plats) == Run(s3, d, plats)
    ensures Liveness(s, a + b + c + d, plats)
            == Liveness(s, a, plats) + Liveness(s1, b, plats) + Liveness(s2, c, plats) + Liveness(s3, d, plats)
  {
    RunSum(s, a, b, plats);
    RunSum(s, a + b, c, plats);
    RunSum(s, a + b + c, d, plats);
  }

  // ---------------------------------------------------------------- structured files

  datatype Block = Nil | Cons(item: Item, rest: Block)

  /** A chain is opened by `head`, may have further arms, and is closed by `#endif` or `#endplat`. */
  datatype Item =
    | Text
    | Macro(define: bool, name: string)
    | Chain(head: Keyword, arg: string, body: Block, arms: Arms, closer: Keyword, closerArg: string)

  datatype Arms = NoArms | Arm(isElse: bool, cond: string, body: Block, rest: Arms)

  ghost predicate WellFormed(b: Block) {
    match b
    case Nil => true
    case Cons(item, rest) => WellFormedItem(item) && WellFormed(rest)
  }

  ghost predicate WellFormedItem(i: Item) {
    i.Chain? ==>
      && Opens(i.head) && (i.closer == EndIf || i.closer == EndPlat)
      && WellFormed(i.body) && WellFormedArms(i.arms)
  }

  ghost predicate WellFormedArms(a: Arms) {
    a.Arm? ==> WellFormed(a.body) && WellFormedArms(a.rest)
  }

  ghost function Lines(b: Block): seq<Line> {
    match b
    case Nil => []
    case Cons(item, rest) => ItemLines(item) + Lines(rest)
  }

  ghost function ItemLines(i: Item): seq<Line> {
    match i
    case Text => [Plain]
    case Macro(define, name) => [Directive(if define then Define else Undef, name)]
    case Chain(head, arg, body, arms, closer, closerArg) =>
      [Directive(head, arg)] + Lines(body) + ArmLines(arms) + [Directive(closer, closerArg)]
  }

  ghost function ArmLines(a: Arms): seq<Line> {
    match a
    case NoArms => []
    case Arm(isElse, cond, body, rest) => [ArmLine(a)] + Lines(body) + ArmLines(rest)
  }

  /** Which arms of a chain may be live: all of an unknown chain, else at most one (0 is the head's). */
  datatype Choice = All | Only(arm: int)

  ghost predicate Chosen(c: Choice, k: int) {
    c.All? || c.arm == k
  }

  /** The first arm from `k` on whose condition holds, or -1. */
  ghost function FirstArm(a: Arms, k: int, defs: set<string>): int {
    match a
    case NoArms => -1
    case Arm(isElse, cond, body, rest) => if isElse || cond in defs then k else FirstArm(rest, k + 1, defs)
  }

  /** The arm a chain selects, judged once, where the chain is entered. */
  ghost function Select(i: Item, defs: set<string>, plats: set<string>): Choice
    requires i.Chain?
  {
    if i.head == If then All
    else if Holds(i.head, i.arg, defs, plats) then Only(0)
    else Only(FirstArm(i.arms, 1, defs))
  }

  /** Meaning: for every line whether it is kept, and the definitions afterwards. */
  datatype Meaning = Meaning(live: seq<bool>, defs: set<string>)

  ghost function Eval(b: Block, active: bool, defs: set<string>, plats: set<string>): Meaning {
    match b
    case Nil => Meaning([], defs)
    case Cons(item, rest) =>
      var m := EvalItem(item, active, defs, plats);
      var n := Eval(rest, active, m.defs, plats);
      Meaning(m.live + n.live, n.defs)
  }

  ghost function EvalItem(i: Item, active: bool, defs: set<string>, plats: set<string>): Meaning {
    match i
    case Text => Meaning([active], defs)
    case Macro(define, name) =>
      Meaning([false], if !active || name == "" then defs else if define then defs + {name} else defs - {name})
    case Chain(head, arg, body, arms, closer, closerArg) =>
      var c := Select(i, defs, plats);
      var m := Eval(body, active && Chosen(c, 0), defs, plats);
      var n := EvalArms(arms, 1, c, active, m.defs, plats);
      Meaning([false] + m.live + n.live + [false], n.defs)
  }

  /** The arms from number `k` on, of which only the chosen are live. */
  ghost function EvalArms(a: Arms, k: int, c: Choice, active: bool, defs: set<string>, plats: set<string>): Meaning {
    match a
    case NoArms => Meaning([], defs)
    case Arm(isElse, cond, body, rest) =>
      var m := Eval(body, active && Chosen(c, k), defs, plats);
      var n := EvalArms(rest, k + 1, c, active, m.defs, plats);
      Meaning([false] + m.live + n.live, n.defs)
  }

  // ---------------------------------------------------------------- the machine computes the meaning

  lemma RunOne(s: State, line: Line, plats: set<string>)
    ensures Run(s, [line], plats) == Step(s, line, plats)
    ensures Liveness(s, [line], plats) == [line.Plain? && s.active]
  {
    assert [line][1..] == [];
  }

  /** In a dead surrounding nothing is live and nothing is defined. */
  lemma {:induction false} DeadBlock(b: Block, defs: set<string>, plats: set<string>)
    ensures Eval(b, false, defs, plats).defs == defs
    ensures forall k :: 0 <= k < |Eval(b, false, defs, plats).live| ==> !Eval(b, false, defs, plats).live[k]
  {
    match b
    case Nil =>
    case Cons(item, rest) =>
      if item.Chain? {
        DeadBlock(item.body, defs, plats);
        DeadArms(item.arms, 1, Select(item, defs, plats), defs, plats);
      }
      DeadBlock(rest, defs, plats);
  }

  lemma {:induction false} DeadArms(a: Arms, k: int, c: Choice, defs: set<string>, plats: set<string>)
    ensures EvalArms(a, k, c, false, defs, plats).defs == defs
    ensures forall j :: 0 <= j < |EvalArms(a, k, c, false, defs, plats).live| ==> !EvalArms(a, k, c, false, defs, plats).live[j]
  {
    match a
    case NoArms =>
    case Arm(isElse, cond, body, rest) =>
      DeadBlock(body, defs, plats);
      DeadArms(rest, k + 1, c, defs, plats);
  }

  lemma {:induction false} FirstArmRange(a: Arms, k: int, defs: set<string>)
    ensures FirstArm(a, k, defs) == -1 || FirstArm(a, k, defs) >= k
  {
    if a.Arm? {
      FirstArmRange(a.rest, k + 1, defs);
    }
  }

  /** What the frame of an open chain knows before arm `k`. */
  ghost predicate FrameFits(f: Frame, c: Choice, a: Arms, k: int, defs: set<string>) {
    && (f.unknown <==> c.All?)
    && (c.Only? && f.taken ==> c.arm < k)
    && (c.Only? && f.parent && !f.taken ==> c.arm == FirstArm(a, k, defs))
  }

  /**
   On the lines of a well-formed block, whatever is open around it, the machine keeps exactly
   the lines the block's meaning keeps, and returns to where it started.
   */
  lemma {:induction false} MachineOnBlock(b: Block, s: State, plats: set<string>)
    requires WellFormed(b)
    ensures Run(s, Lines(b), plats) == s.(defs := Eval(b, s.active, s.defs, plats).defs)
    ensures Liveness(s, Lines(b), plats) == Eval(b, s.active, s.defs, plats).live
    decreases b, 0
  {
    match b
    case Nil =>
    case Cons(item, rest) =>
      MachineOnItem(item, s, plats);
      var mid := s.(defs := EvalItem(item, s.active, s.defs, plats).defs);
      MachineOnBlock(rest, mid, plats);
      RunSum(s, ItemLines(item), Lines(rest), plats);
  }

  lemma {:induction false} MachineOnItem(i: Item, s: State, plats: set<string>)
    requires WellFormedItem(i)
    ensures Run(s, ItemLines(i), plats) == s.(defs := EvalItem(i, s.active, s.defs, plats).defs)
    ensures Liveness(s, ItemLines(i), plats) == EvalItem(i, s.active, s.defs, plats).live
    decreases i, 1
  {
    match i
    case Text => RunOne(s, Plain, plats);
    case Macro(define, name) => RunOne(s, Directive(if define then Define else Undef, name), plats);
    case Chain(head, arg, body, arms, closer, closerArg) =>
      MachineOnChain(i, s, plats);
  }

  /** The frame a chain opens with. */
  ghost function OpenFrame(i: Item, active: bool, defs: set<string>, plats: set<string>): Frame
    requires i.Chain?
  {
    Frame(active, active && Chosen(Select(i, defs, plats), 0), i.head == If)
  }

  lemma ChainIsOpened(i: Item, s: State, plats: set<string>)
    requires i.Chain? && Opens(i.head)
    ensures var f := OpenFrame(i, s.active, s.defs, plats);
            && Step(s, Directive(i.head, i.arg), plats) == State(s.stack + [f], f.taken, s.defs)
            && FrameFits(f, Select(i, s.defs, plats), i.arms, 1, Eval(i.body, f.taken, s.defs, plats).defs)
  {
    FirstArmRange(i.arms, 1, s.defs);
    DeadBlock(i.body, s.defs, plats);
  }

  lemma ChainIsClosed(s: State, g: Frame, last: bool, defs: set<string>, close: Line, plats: set<string>)
    requires close.Directive? && (close.d == EndIf || close.d == EndPlat) && g.parent == s.active
    ensures Step(State(s.stack + [g], last, defs), close, plats) == s.(defs := defs)
  {
    assert (s.stack + [g])[..|s.stack|] == s.stack;
  }

  lemma {:induction false} MachineOnChain(i: Item, s: State, plats: set<string>)
    requires i.Chain? && WellFormedItem(i)
    ensures Run(s, ItemLines(i), plats) == s.(defs := EvalItem(i, s.active, s.defs, plats).defs)
    ensures Liveness(s, ItemLines(i), plats) == EvalItem(i, s.active, s.defs, plats).live
    decreases i, 0
  {
    var c, f := Select(i, s.defs, plats), OpenFrame(i, s.active, s.defs, plats);
    var open, close := Directive(i.head, i.arg), Directive(i.closer, i.closerArg);
    ChainIsOpened(i, s, plats);
    RunOne(s, open, plats);
    var s1 := State(s.stack + [f], f.taken, s.defs);
    MachineOnBlock(i.body, s1, plats);
    var m := Eval(i.body, f.taken, s.defs, plats);
    var g, last := MachineOnArms(i.arms, 1, c, s.stack, f, f.taken, m.defs, plats);
    var s3 := State(s.stack + [g], last, EvalArms(i.arms, 1, c, s.active, m.defs, plats).defs);
    RunOne(s3, close, plats);
    ChainIsClosed(s, g, last, s3.defs, close, plats);
    RunFour(s, [open], s1, Lines(i.body), s1.(defs := m.defs), ArmLines(i.arms), s3, [close], plats);
  }

  function ArmLine(a: Arms): Line
    requires a.Arm?
  {
    Directive(if a.isElse then Else else Elif, a.cond)
  }

  /** The frame of an open chain after arm `k`. */
  ghost function NextFrame(f: Frame, c: Choice, k: int): Frame {
    f.(taken := f.taken || (f.parent && Chosen(c, k)))
  }

  /** The machine enters arm `k` exactly if it is the chosen one, and its frame then fits the arms left. */
  lemma ArmIsEntered(
    a: Arms, k: int, c: Choice, base: seq<Frame>, f: Frame, active: bool, defs: set<string>, plats: set<string>)
    requires a.Arm? && k >= 1 && FrameFits(f, c, a, k, defs)
    ensures var arm := f.parent && Chosen(c, k);
            && Step(State(base + [f], active, defs), ArmLine(a), plats) == State(base + [NextFrame(f, c, k)], arm, defs)
            && FrameFits(NextFrame(f, c, k), c, a.rest, k + 1, Eval(a.body, arm, defs, plats).defs)
  {
    FirstArmRange(a.rest, k + 1, defs);
    DeadBlock(a.body, defs, plats);
    assert (base + [f])[|base| := NextFrame(f, c, k)] == base + [NextFrame(f, c, k)];
  }

  lemma {:induction false} MachineOnArm(
    a: Arms, k: int, c: Choice, base: seq<Frame>, f: Frame, active: bool, defs: set<string>, plats: set<string>)
    requires WellFormedArms(a) && a.Arm? && k >= 1 && FrameFits(f, c, a, k, defs)
    ensures var arm := f.parent && Chosen(c, k);
            var m := Eval(a.body, arm, defs, plats);
            var s, lines := State(base + [f], active, defs), [ArmLine(a)] + Lines(a.body);
            && Run(s, lines, plats) == State(base + [NextFrame(f, c, k)], arm, m.defs)
            && Liveness(s, lines, plats) == [false] + m.live
    decreases a, 0
  {
    var s := State(base + [f], active, defs);
    ArmIsEntered(a, k, c, base, f, active, defs, plats);
    RunOne(s, ArmLine(a), plats);
    MachineOnBlock(a.body, Step(s, ArmLine(a), plats), plats);
    RunSum(s, [ArmLine(a)], Lines(a.body), plats);
  }

  /** From frame `f` on, the machine keeps of the arms what they mean, and ends with frame `g`. */
  ghost predicate ArmsRun(
    a: Arms, k: int, c: Choice, base: seq<Frame>, f: Frame, active: bool, defs: set<string>, plats: set<string>,
    g: Frame, last: bool)
  {
    var m, s := EvalArms(a, k, c, f.parent, defs, plats), State(base + [f], active, defs);
    && Run(s, ArmLines(a), plats) == State(base + [g], last, m.defs) && g.parent == f.parent
    && Liveness(s, ArmLines(a), plats) == m.live
  }

  lemma ArmThenArms(
    a: Arms, k: int, c: Choice, base: seq<Frame>, f: Frame, active: bool, defs: set<string>, plats: set<string>,
    g: Frame, last: bool)
    requires a.Arm?
    requires var arm := f.parent && Chosen(c, k);
             var m := Eval(a.body, arm, defs, plats);
             var s, lines := State(base + [f], active, defs), [ArmLine(a)] + Lines(a.body);
             && Run(s, lines, plats) == State(base + [NextFrame(f, c, k)], arm, m.defs)
             && Liveness(s, lines, plats) == [false] + m.live
             && ArmsRun(a.rest, k + 1, c, base, NextFrame(f, c, k), arm, m.defs, plats, g, last)
    ensures ArmsRun(a, k, c, base, f, active, defs, plats, g, last)
  {
    var arm := f.parent && Chosen(c, k);
    RunTwo(State(base + [f], active, defs), [ArmLine(a)] + Lines(a.body),
           State(base + [NextFrame(f, c, k)], arm, Eval(a.body, arm, defs, plats).defs), ArmLines(a.rest), plats);
  }

  lemma {:induction false} MachineOnArms(
    a: Arms, k: int, c: Choice, base: seq<Frame>, f: Frame, active: bool, defs: set<string>, plats: set<string>)
    returns (g: Frame, last: bool)
    requires WellFormedArms(a) && k >= 1 && FrameFits(f, c, a, k, defs)
    ensures ArmsRun(a, k, c, base, f, active, defs, plats, g, last)
    decreases a, 1
  {
    if a.NoArms? {
      g, last := f, active;
    } else {
      var arm := f.parent && Chosen(c, k);
      ArmIsEntered(a, k, c, base, f, active, defs, plats);
      MachineOnArm(a, k, c, base, f, active, defs, plats);
      g, last := MachineOnArms(a.rest, k + 1, c, base, NextFrame(f, c, k), arm, Eval(a.body, arm, defs, plats).defs, plats);
      ArmThenArms(a, k, c, base, f, active, defs, plats, g, last);
    }
  }

  // ---------------------------------------------------------------- the machine in plain terms

  lemma OneMoreLine(s: State, line: Line, rest: seq<Line>, plats: set<string>)
    ensures Liveness(s, [line] + rest, plats) == [line.Plain? && s.active] + Liveness(Step(s, line, plats), rest, plats)
    ensures Run(s, [line] + rest, plats) == Run(Step(s, line, plats), rest, plats)
  {
    assert ([line] + rest)[1..] == rest;
  }

  /** A directive and the line behind it. */
  lemma DirectiveAndText(s: State, d: Keyword, arg: string, rest: seq<Line>, plats: set<string>)
    ensures var t := Step(s, Directive(d, arg), plats);
            && Liveness(s, [Directive(d, arg)] + ([Plain] + rest), plats) == [false] + ([t.active] + Liveness(t, rest, plats))
            && Run(s, [Directive(d, arg)] + ([Plain] + rest), plats) == Run(t, rest, plats)
  {
    OneMoreLine(s, Directive(d, arg), [Plain] + rest, plats);
    OneMoreLine(Step(s, Directive(d, arg), plats), Plain, rest, plats);
  }

  /** The lines of a chain with three arms of one line each. */
  function ThreeArms(head: Keyword, arg: string, cond: string, closer: Keyword): seq<Line> {
    [Directive(head, arg)] + ([Plain] + ([Directive(Elif, cond)] + ([Plain] + ([Directive(Else, "")] + ([Plain]
    + ([Directive(closer, "")] + []))))))
  }

  lemma ThreeArmsRun(s: State, head: Keyword, arg: string, cond: string, closer: Keyword, plats: set<string>)
    requires closer == EndIf || closer == EndPlat
    ensures var t := Step(s, Directive(head, arg), plats);
            var u := Step(t, Directive(Elif, cond), plats);
            var v := Step(u, Directive(Else, ""), plats);
            && Liveness(s, ThreeArms(head, arg, cond, closer), plats)
               == [false] + ([t.active] + ([false] + ([u.active] + ([false] + ([v.active] + ([false] + []))))))
            && Run(s, ThreeArms(head, arg, cond, closer), plats) == Step(v, Directive(closer, ""), plats)
  {
    var t := Step(s, Directive(head, arg), plats);
    var u := Step(t, Directive(Elif, cond), plats);
    var v := Step(u, Directive(Else, ""), plats);
    var last := [Directive(closer, "")] + [];
    DirectiveAndText(s, head, arg, [Directive(Elif, cond)] + ([Plain] + ([Directive(Else, "")] + ([Plain] + last))), plats);
    DirectiveAndText(t, Elif, cond, [Directive(Else, "")] + ([Plain] + last), plats);
    DirectiveAndText(u, Else, "", last, plats);
    OneMoreLine(v, Directive(closer, ""), [], plats);
  }

  /**
   Of the arms of `#ifdef x`, `#ifndef x` or `#ifplat x`, `#elif y` and `#else`, exactly the first whose
   condition holds is kept, and none in a dead surrounding; of those of an `#if`, all.  Afterwards
   everything is as before.
   */
  lemma ThreeArmsExactly(s: State, x: string, y: string, closer: Keyword, plats: set<string>)
    requires closer == EndIf || closer == EndPlat
    ensures Liveness(s, ThreeArms(IfDef, x, y, closer), plats)
            == [false, s.active && x in s.defs, false, s.active && x !in s.defs && y in s.defs,
                false, s.active && x !in s.defs && y !in s.defs, false]
    ensures Liveness(s, ThreeArms(IfNDef, x, y, closer), plats)
            == [false, s.active && x !in s.defs, false, s.active && x in s.defs && y in s.defs,
                false, s.active && x in s.defs && y !in s.defs, false]
    ensures Liveness(s, ThreeArms(IfPlat, x, y, closer), plats)
            == [false, s.active && x in plats, false, s.active && x !in plats && y in s.defs,
                false, s.active && x !in plats && y !in s.defs, false]
    ensures Liveness(s, ThreeArms(If, x, y, closer), plats)
            == [false, s.active, false, s.active, false, s.active, false]
    ensures forall head :: Opens(head) ==> Run(s, ThreeArms(head, x, y, closer), plats) == s
  {
    KnownArms(s, IfDef, x, y, closer, plats, x in s.defs);
    KnownArms(s, IfNDef, x, y, closer, plats, x !in s.defs);
    KnownArms(s, IfPlat, x, y, closer, plats, x in plats);
    UnknownArms(s, x, y, closer, plats);
    forall head | Opens(head) ensures Run(s, ThreeArms(head, x, y, closer), plats) == s {
      ThreeArmsReturn(s, head, x, y, closer, plats);
    }
  }

  lemma SevenFlags(a: bool, b: bool, c: bool)
    ensures [false] + ([a] + ([false] + ([b] + ([false] + ([c] + ([false] + [])))))) == [false, a, false, b, false, c, false]
  {
  }

  lemma KnownArms(s: State, head: Keyword, x: string, y: string, closer: Keyword, plats: set<string>, holds: bool)
    requires Opens(head) && head != If && (closer == EndIf || closer == EndPlat) && holds == Holds(head, x, s.defs, plats)
    ensures Liveness(s, ThreeArms(head, x, y, closer), plats)
            == [false, s.active && holds, false, s.active && !holds && y in s.defs,
                false, s.active && !holds && y !in s.defs, false]
  {
    ThreeArmsRun(s, head, x, y, closer, plats);
    SevenFlags(s.active && holds, s.active && !holds && y in s.defs, s.active && !holds && y !in s.defs);
  }

  lemma UnknownArms(s: State, x: string, y: string, closer: Keyword, plats: set<string>)
    requires closer == EndIf || closer == EndPlat
    ensures Liveness(s, ThreeArms(If, x, y, closer), plats) == [false, s.active, false, s.active, false, s.active, false]
  {
    ThreeArmsRun(s, If, x, y, closer, plats);
    SevenFlags(s.active, s.active, s.active);
  }

  lemma ThreeArmsReturn(s: State, head: Keyword, x: string, y: string, closer: Keyword, plats: set<string>)
    requires Opens(head) && (closer == EndIf || closer == EndPlat)
    ensures Run(s, ThreeArms(head, x, y, closer), plats) == s
  {
    ThreeArmsRun(s, head, x, y, closer, plats);
    var v := Step(Step(Step(s, Directive(head, x), plats), Directive(Elif, y), plats), Directive(Else, ""), plats);
    assert |v.stack| == |s.stack| + 1 && v.stack[..|s.stack|] == s.stack;
  }

  /** Where lines are live a name is defined by `#define` and no longer after `#undef`; elsewhere neither counts. */
  lemma MacrosExactly(s: State, x: string, y: string, plats: set<string>)
    ensures y in Step(s, Directive(Define, x), plats).defs <==> y in s.defs || (s.active && x != "" && y == x)
    ensures y in Step(s, Directive(Undef, x), plats).defs <==> y in s.defs && !(s.active && x != "" && y == x)
    ensures Step(s, Directive(Define, x), plats).stack == s.stack == Step(s, Directive(Undef, x), plats).stack
    ensures Step(s, Directive(Define, x), plats).active == s.active == Step(s, Directive(Undef, x), plats).active
  {
  }

  // ---------------------------------------------------------------- unknown conditions

  /** No definition is changed anywhere in the block. */
  ghost predicate NoMacros(b: Block) {
    match b
    case Nil => true
    case Cons(item, rest) =>
      && !item.Macro? && NoMacros(rest)
      && (item.Chain? ==> NoMacros(item.body) && NoMacrosInArms(item.arms))
  }

  ghost predicate NoMacrosInArms(a: Arms) {
    a.Arm? ==> NoMacros(a.body) && NoMacrosInArms(a.rest)
  }

  /** No definition is changed under an `#if`. */
  ghost predicate NoMacrosUnderIf(b: Block) {
    match b
    case Nil => true
    case Cons(item, rest) =>
      && NoMacrosUnderIf(rest)
      && (item.Chain? ==>
            if item.head == If then NoMacros(item.body) && NoMacrosInArms(item.arms)
            else NoMacrosUnderIf(item.body) && NoMacrosUnderIfInArms(item.arms))
  }

  ghost predicate NoMacrosUnderIfInArms(a: Arms) {
    a.Arm? ==> NoMacrosUnderIf(a.body) && NoMacrosUnderIfInArms(a.rest)
  }

  ghost function ArmCount(a: Arms): nat {
    if a.NoArms? then 0 else 1 + ArmCount(a.rest)
  }

  /** The number of the first `#else` arm from `k` on, or -1. */
  ghost function FirstElse(a: Arms, k: int): int {
    if a.NoArms? then -1 else if a.isElse then k else FirstElse(a.rest, k + 1)
  }

  /**
   The arms the conditions of an `#if` chain, all of them unknown, can select: with an `#else`
   exactly one arm up to it, without one any arm or none.
   */
  ghost predicate Possible(c: Choice, a: Arms) {
    && c.Only? && -1 <= c.arm <= ArmCount(a)
    && (FirstElse(a, 1) != -1 ==> 0 <= c.arm <= FirstElse(a, 1))
  }

  /** The first arm from `k` on selected when the condition of arm `j` has the value `v(j)`, or -1. */
  ghost function FirstTrue(a: Arms, k: int, v: int -> bool): int {
    if a.NoArms? then -1 else if a.isElse || v(k) then k else FirstTrue(a.rest, k + 1, v)
  }

  /** The arm of a chain selected by values for its conditions. */
  ghost function Selected(a: Arms, v: int -> bool): int {
    if v(0) then 0 else FirstTrue(a, 1, v)
  }

  lemma {:induction false} FirstTrueRange(a: Arms, k: int, v: int -> bool)
    requires k >= 1
    ensures var r := FirstTrue(a, k, v);
            && (r == -1 || k <= r < k + ArmCount(a))
            && (FirstElse(a, k) != -1 ==> k <= r <= FirstElse(a, k))
    ensures FirstElse(a, k) == -1 || FirstElse(a, k) >= k
  {
    if a.Arm? {
      FirstTrueRange(a.rest, k + 1, v);
    }
  }

  lemma {:induction false} FirstTrueOfOne(a: Arms, k: int, j: int)
    requires k >= 1 && j < k + ArmCount(a)
    requires if FirstElse(a, k) != -1 then k <= j <= FirstElse(a, k) else j == -1 || k <= j
    ensures FirstTrue(a, k, x => x == j) == j
  {
    if a.Arm? && !a.isElse && j != k {
      FirstTrueRange(a.rest, k + 1, x => x == j);
      FirstTrueOfOne(a.rest, k + 1, j);
    }
  }

  /** The possible choices are exactly those some values of the conditions select. */
  lemma PossibleExactly(c: Choice, a: Arms)
    ensures Possible(c, a) <==> c.Only? && exists v: int -> bool :: Selected(a, v) == c.arm
  {
    if Possible(c, a) {
      var v := x => x == c.arm;
      FirstTrueRange(a, 1, v);
      if c.arm != 0 {
        FirstTrueOfOne(a, 1, c.arm);
      }
      assert Selected(a, v) == c.arm;
    } else if c.Only? {
      forall v: int -> bool ensures Selected(a, v) != c.arm {
        FirstTrueRange(a, 1, v);
      }
    }
  }

  /**
   `m` is a meaning of the block under some resolution of its unknown conditions: every `#if`
   chain has been given an arm its conditions can select, everything else is as before.
   */
  ghost predicate Resolves(b: Block, active: bool, defs: set<string>, plats: set<string>, m: Meaning)
    decreases b, 1
  {
    match b
    case Nil => m == Meaning([], defs)
    case Cons(item, rest) => exists p: Meaning, q: Meaning :: ResolvesCons(b, active, defs, plats, p, q, m)
  }

  /** The first item means `p`, the rest `q`, together `m`. */
  ghost predicate ResolvesCons(
    b: Block, active: bool, defs: set<string>, plats: set<string>, p: Meaning, q: Meaning, m: Meaning)
    requires b.Cons?
    decreases b, 0
  {
    && ResolvesItem(b.item, active, defs, plats, p) && Resolves(b.rest, active, p.defs, plats, q)
    && m == Meaning(p.live + q.live, q.defs)
  }

  ghost predicate ResolvesItem(i: Item, active: bool, defs: set<string>, plats: set<string>, m: Meaning)
    decreases i, 1
  {
    match i
    case Text => m == EvalItem(i, active, defs, plats)
    case Macro(define, name) => m == EvalItem(i, active, defs, plats)
    case Chain(head, arg, body, arms, closer, closerArg) =>
      exists c: Choice, p: Meaning, q: Meaning ::
        ResolvesChain(i, active, defs, plats, c, p, q) && m == Meaning([false] + p.live + q.live + [false], q.defs)
  }

  /** With choice `c`, the chain's head arm means `p` and its further arms `q`. */
  ghost predicate ResolvesChain(
    i: Item, active: bool, defs: set<string>, plats: set<string>, c: Choice, p: Meaning, q: Meaning)
    requires i.Chain?
    decreases i, 0
  {
    && (if i.head == If then Possible(c, i.arms) else c == Select(i, defs, plats))
    && Resolves(i.body, active && Chosen(c, 0), defs, plats, p)
    && ResolvesArms(i.arms, 1, c, active, p.defs, plats, q)
  }

  ghost predicate ResolvesArms(
    a: Arms, k: int, c: Choice, active: bool, defs: set<string>, plats: set<string>, m: Meaning)
    decreases a, 0
  {
    match a
    case NoArms => m == Meaning([], defs)
    case Arm(isElse, cond, body, rest) =>
      exists p: Meaning, q: Meaning ::
        && Resolves(body, active && Chosen(c, k), defs, plats, p)
        && ResolvesArms(rest, k + 1, c, active, p.defs, plats, q)
        && m == Meaning([false] + p.live + q.live, q.defs)
  }

  /** Line by line, whatever is live on the left is live on the right. */
  ghost predicate Covered(a: seq<bool>, b: seq<bool>) {
    |a| == |b| && forall k :: 0 <= k < |a| && a[k] ==> b[k]
  }

  lemma CoveredSum(a: seq<bool>, b: seq<bool>, c: seq<bool>, d: seq<bool>)
    requires Covered(a, b) && Covered(c, d)
    ensures Covered(a + c, b + d)
  {
  }

  lemma {:induction false} MacroFreeKeepsDefs(b: Block, active: bool, defs: set<string>, plats: set<string>)
    requires NoMacros(b)
    ensures Eval(b, active, defs, plats).defs == defs
  {
    match b
    case Nil =>
    case Cons(item, rest) =>
      if item.Chain? {
        var c := Select(item, defs, plats);
        MacroFreeKeepsDefs(item.body, active && Chosen(c, 0), defs, plats);
        MacroFreeArmsKeepDefs(item.arms, 1, c, active, defs, plats);
      }
      MacroFreeKeepsDefs(rest, active, defs, plats);
  }

  lemma {:induction false} MacroFreeArmsKeepDefs(
    a: Arms, k: int, c: Choice, active: bool, defs: set<string>, plats: set<string>)
    requires NoMacrosInArms(a)
    ensures EvalArms(a, k, c, active, defs, plats).defs == defs
  {
    match a
    case NoArms =>
    case Arm(isElse, cond, body, rest) =>
      MacroFreeKeepsDefs(body, active && Chosen(c, k), defs, plats);
      MacroFreeArmsKeepDefs(rest, k + 1, c, active, defs, plats);
  }

  /** In a macro-free block, any resolution under a surrounding that is no more live keeps no more lines. */
  lemma {:induction false} MacroFreeCovers(
    b: Block, active: bool, wider: bool, defs: set<string>, plats: set<string>, m: Meaning)
    requires NoMacros(b) && (active ==> wider) && Resolves(b, active, defs, plats, m)
    ensures m.defs == defs && Covered(m.live, Eval(b, wider, defs, plats).live)
    decreases b
  {
    match b
    case Nil =>
    case Cons(item, rest) =>
      var p: Meaning, q: Meaning :| ResolvesCons(b, active, defs, plats, p, q, m);
      MacroFreeItemCovers(item, active, wider, defs, plats, p);
      MacroFreeCovers(rest, active, wider, defs, plats, q);
      MacroFreeKeepsDefs(Cons(item, Nil), wider, defs, plats);
      CoveredSum(p.live, EvalItem(item, wider, defs, plats).live, q.live, Eval(rest, wider, defs, plats).live);
  }

  lemma {:induction false} MacroFreeItemCovers(
    i: Item, active: bool, wider: bool, defs: set<string>, plats: set<string>, m: Meaning)
    requires NoMacros(Cons(i, Nil)) && (active ==> wider) && ResolvesItem(i, active, defs, plats, m)
    ensures m.defs == defs && Covered(m.live, EvalItem(i, wider, defs, plats).live)
    decreases i, 1
  {
    if i.Chain? {
      var c: Choice, p: Meaning, q: Meaning :|
        ResolvesChain(i, active, defs, plats, c, p, q) && m == Meaning([false] + p.live + q.live + [false], q.defs);
      MacroFreeChainCovers(i, active, wider, defs, plats, c, p, q);
    }
  }

  lemma {:induction false} MacroFreeChainCovers(
    i: Item, active: bool, wider: bool, defs: set<string>, plats: set<string>, c: Choice, p: Meaning, q: Meaning)
    requires i.Chain? && NoMacros(i.body) && NoMacrosInArms(i.arms) && (active ==> wider)
    requires c == Select(i, defs, plats) || Select(i, defs, plats).All?
    requires Resolves(i.body, active && Chosen(c, 0), defs, plats, p)
    requires ResolvesArms(i.arms, 1, c, active, p.defs, plats, q)
    ensures q.defs == defs
    ensures Covered([false] + p.live + q.live + [false], EvalItem(i, wider, defs, plats).live)
    decreases i, 0
  {
    var w := Select(i, defs, plats);
    MacroFreeCovers(i.body, active && Chosen(c, 0), wider && Chosen(w, 0), defs, plats, p);
    MacroFreeKeepsDefs(i.body, wider && Chosen(w, 0), defs, plats);
    MacroFreeArmsCover(i.arms, 1, c, w, active, wider, defs, plats, q);
    ChainCovered(p.live, Eval(i.body, wider && Chosen(w, 0), defs, plats).live,
                 q.live, EvalArms(i.arms, 1, w, wider, defs, plats).live);
  }

  lemma ChainCovered(a: seq<bool>, b: seq<bool>, c: seq<bool>, d: seq<bool>)
    requires Covered(a, b) && Covered(c, d)
    ensures Covered([false] + a + c + [false], [false] + b + d + [false])
    ensures Covered([false] + a + c, [false] + b + d)
  {
    CoveredSum([false], [false], a, b);
    CoveredSum([false] + a, [false] + b, c, d);
    CoveredSum([false] + a + c, [false] + b + d, [false], [false]);
  }

  lemma {:induction false} MacroFreeArmsCover(
    a: Arms, k: int, c: Choice, w: Choice, active: bool, wider: bool, defs: set<string>, plats: set<string>, m: Meaning)
    requires NoMacrosInArms(a) && (active ==> wider) && (w == c || w.All?)
    requires ResolvesArms(a, k, c, active, defs, plats, m)
    ensures m.defs == defs && Covered(m.live, EvalArms(a, k, w, wider, defs, plats).live)
    decreases a, 1
  {
    match a
    case NoArms =>
    case Arm(isElse, cond, body, rest) =>
      var p: Meaning, q: Meaning :|
        && Resolves(body, active && Chosen(c, k), defs, plats, p)
        && ResolvesArms(rest, k + 1, c, active, p.defs, plats, q)
        && m == Meaning([false] + p.live + q.live, q.defs);
      MacroFreeArmCovers(a, k, c, w, active, wider, defs, plats, p, q);
  }

  lemma {:induction false} MacroFreeArmCovers(
    a: Arms, k: int, c: Choice, w: Choice, active: bool, wider: bool, defs: set<string>, plats: set<string>,
    p: Meaning, q: Meaning)
    requires a.Arm? && NoMacros(a.body) && NoMacrosInArms(a.rest) && (active ==> wider) && (w == c || w.All?)
    requires Resolves(a.body, active && Chosen(c, k), defs, plats, p)
    requires ResolvesArms(a.rest, k + 1, c, active, p.defs, plats, q)
    ensures q.defs == defs
    ensures Covered([false] + p.live + q.live, EvalArms(a, k, w, wider, defs, plats).live)
    decreases a, 0
  {
    MacroFreeCovers(a.body, active && Chosen(c, k), wider && Chosen(w, k), defs, plats, p);
    MacroFreeKeepsDefs(a.body, wider && Chosen(w, k), defs, plats);
    MacroFreeArmsCover(a.rest, k + 1, c, w, active, wider, defs, plats, q);
    ChainCovered(p.live, Eval(a.body, wider && Chosen(w, k), defs, plats).live,
                 q.live, EvalArms(a.rest, k + 1, w, wider, defs, plats).live);
  }

  /**
   If no definition is changed under an `#if`, the lines kept include those of every
   resolution of the unknown conditions.
   */
  lemma {:induction false} UnknownIsCovered(b: Block, active: bool, defs: set<string>, plats: set<string>, m: Meaning)
    requires NoMacrosUnderIf(b) && Resolves(b, active, defs, plats, m)
    ensures m.defs == Eval(b, active, defs, plats).defs
    ensures Covered(m.live, Eval(b, active, defs, plats).live)
    decreases b
  {
    match b
    case Nil =>
    case Cons(item, rest) =>
      var p: Meaning, q: Meaning :| ResolvesCons(b, active, defs, plats, p, q, m);
      UnknownItemIsCovered(item, active, defs, plats, p);
      UnknownIsCovered(rest, active, p.defs, plats, q);
      CoveredSum(p.live, EvalItem(item, active, defs, plats).live, q.live, Eval(rest, active, p.defs, plats).live);
  }

  lemma {:induction false} UnknownItemIsCovered(i: Item, active: bool, defs: set<string>, plats: set<string>, m: Meaning)
    requires NoMacrosUnderIf(Cons(i, Nil)) && ResolvesItem(i, active, defs, plats, m)
    ensures m.defs == EvalItem(i, active, defs, plats).defs
    ensures Covered(m.live, EvalItem(i, active, defs, plats).live)
    decreases i
  {
    if i.Chain? && i.head == If {
      MacroFreeItemCovers(i, active, active, defs, plats, m);
      MacroFreeKeepsDefs(Cons(i, Nil), active, defs, plats);
    } else if i.Chain? {
      var c: Choice, p: Meaning, q: Meaning :|
        ResolvesChain(i, active, defs, plats, c, p, q) && m == Meaning([false] + p.live + q.live + [false], q.defs);
      UnknownIsCovered(i.body, active && Chosen(c, 0), defs, plats, p);
      UnknownArmsAreCovered(i.arms, 1, c, active, p.defs, plats, q);
      ChainCovered(p.live, Eval(i.body, active && Chosen(c, 0), defs, plats).live,
                   q.live, EvalArms(i.arms, 1, c, active, p.defs, plats).live);
    }
  }

  lemma {:induction false} UnknownArmsAreCovered(
    a: Arms, k: int, c: Choice, active: bool, defs: set<string>, plats: set<string>, m: Meaning)
    requires NoMacrosUnderIfInArms(a) && ResolvesArms(a, k, c, active, defs, plats, m)
    ensures m.defs == EvalArms(a, k, c, active, defs, plats).defs
    ensures Covered(m.live, EvalArms(a, k, c, active, defs, plats).live)
    decreases a, 1
  {
    match a
    case NoArms =>
    case Arm(isElse, cond, body, rest) =>
      var p: Meaning, q: Meaning :|
        && Resolves(body, active && Chosen(c, k), defs, plats, p)
        && ResolvesArms(rest, k + 1, c, active, p.defs, plats, q)
        && m == Meaning([false] + p.live + q.live, q.defs);
      UnknownArmIsCovered(a, k, c, active, defs, plats, p, q);
  }

  lemma {:induction false} UnknownArmIsCovered(
    a: Arms, k: int, c: Choice, active: bool, defs: set<string>, plats: set<string>, p: Meaning, q: Meaning)
    requires a.Arm? && NoMacrosUnderIf(a.body) && NoMacrosUnderIfInArms(a.rest)
    requires Resolves(a.body, active && Chosen(c, k), defs, plats, p)
    requires ResolvesArms(a.rest, k + 1, c, active, p.defs, plats, q)
    ensures q.defs == EvalArms(a, k, c, active, defs, plats).defs
    ensures Covered([false] + p.live + q.live, EvalArms(a, k, c, active, defs, plats).live)
    decreases a, 0
  {
    UnknownIsCovered(a.body, active && Chosen(c, k), defs, plats, p);
    UnknownArmsAreCovered(a.rest, k + 1, c, active, p.defs, plats, q);
    ChainCovered(p.live, Eval(a.body, active && Chosen(c, k), defs, plats).live,
                 q.live, EvalArms(a.rest, k + 1, c, active, p.defs, plats).live);
  }

  // ---------------------------------------------------------------- exactly when nothing is missed

  /** The lines kept include those of every resolution. */
  ghost predicate NeverBlind(b: Block, defs: set<string>, plats: set<string>) {
    forall m :: Resolves(b, true, defs, plats, m) ==> Covered(m.live, Eval(b, true, defs, plats).live)
  }

  /** Every resolution ends with the definitions the checker ends with. */
  ghost predicate Settles(b: Block, defs: set<string>, plats: set<string>) {
    forall m :: Resolves(b, true, defs, plats, m) ==> m.defs == Eval(b, true, defs, plats).defs
  }

  /** Whatever follows, as long as it defines nothing under an `#if` itself, nothing is missed. */
  ghost predicate NeverBlindBefore(b: Block, defs: set<string>, plats: set<string>) {
    forall c :: NoMacrosUnderIf(c) ==> NeverBlind(Append(b, c), defs, plats)
  }

  ghost function Append(b: Block, c: Block): Block {
    match b
    case Nil => c
    case Cons(item, rest) => Cons(item, Append(rest, c))
  }

  lemma {:induction false} EvalAppend(b: Block, c: Block, active: bool, defs: set<string>, plats: set<string>)
    ensures var m := Eval(b, active, defs, plats);
            var n := Eval(c, active, m.defs, plats);
            Eval(Append(b, c), active, defs, plats) == Meaning(m.live + n.live, n.defs)
  {
    match b
    case Nil => assert [] + Eval(c, active, defs, plats).live == Eval(c, active, defs, plats).live;
    case Cons(item, rest) =>
      var p := EvalItem(item, active, defs, plats);
      EvalAppend(rest, c, active, p.defs, plats);
      var q := Eval(rest, active, p.defs, plats);
      var n := Eval(c, active, q.defs, plats);
      assert (p.live + q.live) + n.live == p.live + (q.live + n.live);
  }

  lemma {:induction false} JoinResolutions(
    b: Block, c: Block, active: bool, defs: set<string>, plats: set<string>, m: Meaning, n: Meaning)
    requires Resolves(b, active, defs, plats, m) && Resolves(c, active, m.defs, plats, n)
    ensures Resolves(Append(b, c), active, defs, plats, Meaning(m.live + n.live, n.defs))
  {
    match b
    case Nil => assert n == Meaning([] + n.live, n.defs);
    case Cons(item, rest) =>
      var p: Meaning, q: Meaning :| ResolvesCons(b, active, defs, plats, p, q, m);
      JoinResolutions(rest, c, active, p.defs, plats, q, n);
      var r, t := Meaning(m.live + n.live, n.defs), Meaning(q.live + n.live, n.defs);
      assert r.live == p.live + t.live;
      assert ResolvesCons(Append(b, c), active, defs, plats, p, t, r);
  }

  lemma {:induction false} SplitResolution(
    b: Block, c: Block, active: bool, defs: set<string>, plats: set<string>, r: Meaning)
    returns (m: Meaning, n: Meaning)
    requires Resolves(Append(b, c), active, defs, plats, r)
    ensures Resolves(b, active, defs, plats, m) && Resolves(c, active, m.defs, plats, n)
    ensures r == Meaning(m.live + n.live, n.defs)
  {
    match b
    case Nil =>
      m, n := Meaning([], defs), r;
      assert [] + r.live == r.live;
    case Cons(item, rest) =>
      var p: Meaning, q: Meaning :| ResolvesCons(Append(b, c), active, defs, plats, p, q, r);
      var k;
      k, n := SplitResolution(rest, c, active, p.defs, plats, q);
      m := Meaning(p.live + k.live, k.defs);
      assert p.live + (k.live + n.live) == (p.live + k.live) + n.live;
      assert ResolvesCons(b, active, defs, plats, p, k, m);
  }

  lemma BlockOfOne(i: Item, active: bool, defs: set<string>, plats: set<string>, m: Meaning)
    requires ResolvesItem(i, active, defs, plats, m)
    ensures Resolves(Cons(i, Nil), active, defs, plats, m)
  {
    assert m.live + [] == m.live;
    assert ResolvesCons(Cons(i, Nil), active, defs, plats, m, Meaning([], m.defs), m);
  }

  lemma SingleArmChain(
    i: Item, active: bool, defs: set<string>, plats: set<string>, c: Choice, p: Meaning)
    requires i.Chain? && i.arms == NoArms
    requires if i.head == If then Possible(c, NoArms) else c == Select(i, defs, plats)
    requires Resolves(i.body, active && Chosen(c, 0), defs, plats, p)
    ensures ResolvesItem(i, active, defs, plats, Meaning([false] + p.live + [] + [false], p.defs))
  {
    assert ResolvesChain(i, active, defs, plats, c, p, Meaning([], p.defs));
  }

  /** One line of text that asks whether a name is defined. */
  function Test(head: Keyword, x: string): Item {
    Chain(head, x, Cons(Text, Nil), NoArms, EndIf, "")
  }

  lemma TestMeaning(head: Keyword, x: string, defs: set<string>, plats: set<string>)
    requires head == IfDef || head == IfNDef
    ensures Eval(Cons(Test(head, x), Nil), true, defs, plats)
            == Meaning([false, Holds(head, x, defs, plats), false], defs)
  {
    var live := Holds(head, x, defs, plats);
    assert Eval(Cons(Text, Nil), live, defs, plats) == Meaning([live], defs);
    assert EvalItem(Test(head, x), true, defs, plats) == Meaning([false, live, false], defs);
  }

  lemma TestResolution(head: Keyword, x: string, defs: set<string>, plats: set<string>)
    requires head == IfDef || head == IfNDef
    ensures Resolves(Cons(Test(head, x), Nil), true, defs, plats, Meaning([false, Holds(head, x, defs, plats), false], defs))
  {
    var c := Select(Test(head, x), defs, plats);
    var line := Meaning([Holds(head, x, defs, plats)], defs);
    BlockOfOne(Text, Chosen(c, 0), defs, plats, line);
    SingleArmChain(Test(head, x), true, defs, plats, c, line);
    assert [false] + line.live + [] + [false] == [false, Holds(head, x, defs, plats), false];
    BlockOfOne(Test(head, x), true, defs, plats, Meaning([false, Holds(head, x, defs, plats), false], defs));
  }

  /** A name on which a resolution and the checker end up disagreeing makes a later line go missing. */
  lemma DisagreementShows(b: Block, defs: set<string>, plats: set<string>, m: Meaning, head: Keyword, x: string)
    requires head == IfDef || head == IfNDef
    requires Resolves(b, true, defs, plats, m)
    requires Holds(head, x, m.defs, plats) && !Holds(head, x, Eval(b, true, defs, plats).defs, plats)
    ensures NoMacrosUnderIf(Cons(Test(head, x), Nil)) && !NeverBlind(Append(b, Cons(Test(head, x), Nil)), defs, plats)
  {
    var test, e := Cons(Test(head, x), Nil), Eval(b, true, defs, plats);
    EvalAppend(b, test, true, defs, plats);
    TestMeaning(head, x, e.defs, plats);
    TestResolution(head, x, m.defs, plats);
    JoinResolutions(b, test, true, defs, plats, m, Meaning([false, true, false], m.defs));
    var blind := Meaning(m.live + [false, true, false], m.defs);
    assert Resolves(Append(b, test), true, defs, plats, blind);
    assert Eval(Append(b, test), true, defs, plats).live == e.live + [false, false, false];
    if |m.live| == |e.live| {
      assert blind.live[|m.live| + 1] && !(e.live + [false, false, false])[|m.live| + 1];
    }
    assert !Covered(blind.live, e.live + [false, false, false]);
  }

  lemma {:induction false} AppendNil(b: Block)
    ensures Append(b, Nil) == b
  {
    if b.Cons? {
      AppendNil(b.rest);
    }
  }

  lemma BlindSomewhere(b: Block, defs: set<string>, plats: set<string>)
    requires NeverBlindBefore(b, defs, plats)
    ensures NeverBlind(b, defs, plats) && Settles(b, defs, plats)
  {
    AppendNil(b);
    assert NeverBlind(Append(b, Nil), defs, plats);
    forall m | Resolves(b, true, defs, plats, m) ensures m.defs == Eval(b, true, defs, plats).defs {
      var kept := Eval(b, true, defs, plats).defs;
      if x :| x in kept && x !in m.defs {
        DisagreementShows(b, defs, plats, m, IfNDef, x);
      } else if x :| x in m.defs && x !in kept {
        DisagreementShows(b, defs, plats, m, IfDef, x);
      }
    }
  }

  /**
   The lines kept include those of every resolution, however the file goes on, exactly when they do
   so far and every resolution leaves the same definitions behind.
   */
  lemma NeverBlindExactly(b: Block, defs: set<string>, plats: set<string>)
    ensures NeverBlindBefore(b, defs, plats) <==> NeverBlind(b, defs, plats) && Settles(b, defs, plats)
  {
    if NeverBlindBefore(b, defs, plats) {
      BlindSomewhere(b, defs, plats);
    } else if NeverBlind(b, defs, plats) && Settles(b, defs, plats) {
      var c :| NoMacrosUnderIf(c) && !NeverBlind(Append(b, c), defs, plats);
      var r :| Resolves(Append(b, c), true, defs, plats, r) && !Covered(r.live, Eval(Append(b, c), true, defs, plats).live);
      SettledIsCovered(b, c, defs, plats, r);
      assert false;
    }
  }

  lemma SettledIsCovered(b: Block, c: Block, defs: set<string>, plats: set<string>, r: Meaning)
    requires NeverBlind(b, defs, plats) && Settles(b, defs, plats)
    requires NoMacrosUnderIf(c) && Resolves(Append(b, c), true, defs, plats, r)
    ensures Covered(r.live, Eval(Append(b, c), true, defs, plats).live)
  {
    var m, n := SplitResolution(b, c, true, defs, plats, r);
    UnknownIsCovered(c, true, m.defs, plats, n);
    EvalAppend(b, c, true, defs, plats);
    CoveredSum(m.live, Eval(b, true, defs, plats).live, n.live, Eval(c, true, m.defs, plats).live);
  }

  /** A definition under an `#if`. */
  function Guarded(x: string): Item {
    Chain(If, "", Cons(Macro(true, x), Nil), NoArms, EndIf, "")
  }

  lemma GuardedDefined(x: string, plats: set<string>)
    requires x != ""
    ensures Eval(Cons(Guarded(x), Nil), true, {}, plats).defs == {x}
  {
    assert EvalItem(Macro(true, x), true, {}, plats).defs == {x};
    assert Eval(Cons(Macro(true, x), Nil), true, {}, plats).defs == {x};
    assert EvalItem(Guarded(x), true, {}, plats).defs == {x};
  }

  lemma GuardedUndefined(x: string, plats: set<string>)
    ensures Resolves(Cons(Guarded(x), Nil), true, {}, plats, Meaning([false, false, false], {}))
  {
    var dead := Meaning([false], {});
    BlockOfOne(Macro(true, x), false, {}, plats, dead);
    SingleArmChain(Guarded(x), true, {}, plats, Only(-1), dead);
    assert [false] + dead.live + [] + [false] == [false, false, false];
    BlockOfOne(Guarded(x), true, {}, plats, Meaning([false, false, false], {}));
  }

  /**
   A definition under an `#if` leaves the resolutions apart, so the promise fails: followed by
   `#ifndef x` around a line, that line is dropped although the resolution without the definition keeps it.
   */
  lemma UnknownCanBeBlind(x: string, plats: set<string>)
    requires x != ""
    ensures !Settles(Cons(Guarded(x), Nil), {}, plats) && !NeverBlindBefore(Cons(Guarded(x), Nil), {}, plats)
    ensures !NeverBlind(Cons(Guarded(x), Cons(Test(IfNDef, x), Nil)), {}, plats)
  {
    var b := Cons(Guarded(x), Nil);
    var m := Meaning([false, false, false], {});
    GuardedUndefined(x, plats);
    GuardedDefined(x, plats);
    DisagreementShows(b, {}, plats, m, IfNDef, x);
    assert Append(b, Cons(Test(IfNDef, x), Nil)) == Cons(Guarded(x), Cons(Test(IfNDef, x), Nil));
    NeverBlindExactly(b, {}, plats);
  }

  /** `#if` and `#else` define the same name. */
  function DefinedEitherWay(x: string): Item {
    Chain(If, "", Cons(Macro(true, x), Nil), Arm(true, "", Cons(Macro(true, x), Nil), NoArms), EndIf, "")
  }

  lemma NoItems(b: Block, active: bool, defs: set<string>, plats: set<string>, m: Meaning)
    requires b.Nil? && Resolves(b, active, defs, plats, m)
    ensures m == Meaning([], defs) == Eval(b, active, defs, plats)
  {
  }

  lemma OneItem(b: Block, active: bool, defs: set<string>, plats: set<string>, m: Meaning)
    requires b.Cons? && b.rest.Nil? && Resolves(b, active, defs, plats, m)
    ensures ResolvesItem(b.item, active, defs, plats, m)
    ensures Eval(b, active, defs, plats) == EvalItem(b.item, active, defs, plats)
  {
    var p: Meaning, q: Meaning :| ResolvesCons(b, active, defs, plats, p, q, m);
    NoItems(b.rest, active, p.defs, plats, q);
    assert p.live + [] == p.live && m == p;
    var e := EvalItem(b.item, active, defs, plats);
    assert Eval(b.rest, active, e.defs, plats) == Meaning([], e.defs) && e.live + [] == e.live;
  }

  lemma OneArm(a: Arms, k: int, c: Choice, active: bool, defs: set<string>, plats: set<string>, q: Meaning)
    returns (r: Meaning)
    requires a.Arm? && a.rest.NoArms? && ResolvesArms(a, k, c, active, defs, plats, q)
    ensures Resolves(a.body, active && Chosen(c, k), defs, plats, r)
    ensures q == Meaning([false] + r.live + [], r.defs)
  {
    var t: Meaning;
    r, t :|
      && Resolves(a.body, active && Chosen(c, k), defs, plats, r)
      && ResolvesArms(a.rest, k + 1, c, active, r.defs, plats, t)
      && q == Meaning([false] + r.live + t.live, t.defs);
    NoFurtherArms(a.rest, k + 1, c, active, r.defs, plats, t);
  }

  lemma NoFurtherArms(a: Arms, k: int, c: Choice, active: bool, defs: set<string>, plats: set<string>, t: Meaning)
    requires a.NoArms? && ResolvesArms(a, k, c, active, defs, plats, t)
    ensures t == Meaning([], defs)
  {
  }

  /** A chain with one further arm: what a resolution says of its two bodies. */
  lemma TwoArms(i: Item, active: bool, defs: set<string>, plats: set<string>, m: Meaning)
    returns (c: Choice, p: Meaning, r: Meaning)
    requires i.Chain? && i.head == If && i.arms.Arm? && i.arms.rest.NoArms? && ResolvesItem(i, active, defs, plats, m)
    ensures Possible(c, i.arms)
    ensures Resolves(i.body, active && Chosen(c, 0), defs, plats, p)
    ensures Resolves(i.arms.body, active && Chosen(c, 1), p.defs, plats, r)
    ensures m == Meaning([false] + p.live + ([false] + r.live + []) + [false], r.defs)
  {
    var q: Meaning;
    c, p, q :|
      ResolvesChain(i, active, defs, plats, c, p, q) && m == Meaning([false] + p.live + q.live + [false], q.defs);
    r := OneArm(i.arms, 1, c, active, p.defs, plats, q);
  }

  /** Both bodies are one line that defines the name. */
  ghost predicate EitherWay(i: Item, x: string) {
    && i.Chain? && i.head == If && i.body == Cons(Macro(true, x), Nil)
    && i.arms.Arm? && i.arms.isElse && i.arms.body == i.body && i.arms.rest.NoArms?
  }

  lemma MacroBody(b: Block, x: string, active: bool, defs: set<string>, plats: set<string>)
    requires b == Cons(Macro(true, x), Nil)
    ensures Eval(b, active, defs, plats) == Meaning([false], if active && x != "" then defs + {x} else defs)
    ensures forall m :: Resolves(b, active, defs, plats, m) ==> m == Eval(b, active, defs, plats)
  {
    assert [false] + [] == [false];
    assert Eval(b.rest, active, EvalItem(b.item, active, defs, plats).defs, plats).live == [];
    forall m | Resolves(b, active, defs, plats, m) ensures m == Eval(b, active, defs, plats) {
      OneItem(b, active, defs, plats, m);
    }
  }

  lemma EitherWayMeans(i: Item, x: string, defs: set<string>, plats: set<string>)
    requires EitherWay(i, x)
    ensures EvalItem(i, true, defs, plats)
            == Meaning([false] + [false] + ([false] + [false] + []) + [false], if x == "" then defs else defs + {x})
  {
    var once := if x == "" then defs else defs + {x};
    MacroBody(i.body, x, true, defs, plats);
    MacroBody(i.body, x, true, once, plats);
    assert EvalArms(i.arms.rest, 2, All, true, once, plats) == Meaning([], once);
    assert EvalArms(i.arms, 1, All, true, once, plats) == Meaning([false] + [false] + [], once);
  }

  lemma EitherWayResolves(i: Item, x: string, defs: set<string>, plats: set<string>, m: Meaning)
    requires EitherWay(i, x) && ResolvesItem(i, true, defs, plats, m)
    ensures m == EvalItem(i, true, defs, plats)
  {
    var c, p, r := TwoArms(i, true, defs, plats, m);
    assert FirstElse(i.arms, 1) == 1;
    MacroBody(i.body, x, Chosen(c, 0), defs, plats);
    MacroBody(i.body, x, Chosen(c, 1), p.defs, plats);
    EitherWayMeans(i, x, defs, plats);
  }

  /** A name defined in both arms is defined by every resolution, as the checker has it: nothing is ever missed. */
  lemma DefinedEitherWayIsSafe(x: string, defs: set<string>, plats: set<string>)
    ensures var b := Cons(DefinedEitherWay(x), Nil);
            !NoMacrosUnderIf(b) && Settles(b, defs, plats) && NeverBlindBefore(b, defs, plats)
  {
    assert !NoMacros(DefinedEitherWay(x).body);
    EitherWayIsSafe(Cons(DefinedEitherWay(x), Nil), x, defs, plats);
  }

  lemma EitherWayIsSafe(b: Block, x: string, defs: set<string>, plats: set<string>)
    requires b.Cons? && b.rest.Nil? && EitherWay(b.item, x)
    ensures Settles(b, defs, plats) && NeverBlindBefore(b, defs, plats)
  {
    forall m | Resolves(b, true, defs, plats, m) ensures m == Eval(b, true, defs, plats) {
      OneItem(b, true, defs, plats, m);
      EitherWayResolves(b.item, x, defs, plats, m);
    }
    NeverBlindExactly(b, defs, plats);
  }

  // ---------------------------------------------------------------- balanced files

  ghost predicate Closes(line: Line) {
    line.Directive? && (line.d == EndIf || line.d == EndPlat)
  }

  ghost predicate StartsArm(line: Line) {
    line.Directive? && (line.d == Elif || line.d == Else)
  }

  /** With `depth` chains open, every arm and every closing belongs to an open chain, and all get closed. */
  ghost predicate Balanced(lines: seq<Line>, depth: nat)
    decreases |lines|
  {
    if lines == [] then depth == 0
    else if Closes(lines[0]) then depth > 0 && Balanced(lines[1..], depth - 1)
    else if StartsArm(lines[0]) then depth > 0 && Balanced(lines[1..], depth)
    else if lines[0].Directive? && Opens(lines[0].d) then Balanced(lines[1..], depth + 1)
    else Balanced(lines[1..], depth)
  }

  /** Read a block off balanced lines, up to the line that ends it. */
  lemma {:induction false} ReadBlock(lines: seq<Line>, depth: nat) returns (b: Block, rest: seq<Line>)
    requires Balanced(lines, depth)
    ensures WellFormed(b) && lines == Lines(b) + rest && Balanced(rest, depth)
    ensures if depth == 0 then rest == [] else rest != [] && (Closes(rest[0]) || StartsArm(rest[0]))
    decreases |lines|, 1
  {
    if lines == [] || Closes(lines[0]) || StartsArm(lines[0]) {
      b, rest := Nil, lines;
    } else if lines[0].Directive? && Opens(lines[0].d) {
      var body, r1 := ReadBlock(lines[1..], depth + 1);
      var arms, r2 := ReadArms(r1, depth + 1);
      var chain := Chain(lines[0].d, lines[0].arg, body, arms, r2[0].d, r2[0].arg);
      ChainLines(chain, lines, r1, r2);
      var tail, r3 := ReadBlock(r2[1..], depth);
      b, rest := Cons(chain, tail), r3;
      ConsLines(chain, tail, rest);
    } else {
      var tail, r := ReadBlock(lines[1..], depth);
      var item := if lines[0].Plain? then Text else Macro(lines[0].d == Define, lines[0].arg);
      b, rest := Cons(item, tail), r;
      assert lines == [lines[0]] + lines[1..] && ItemLines(item) == [lines[0]];
      ConsLines(item, tail, rest);
    }
  }

  lemma ConsLines(item: Item, tail: Block, rest: seq<Line>)
    ensures Lines(Cons(item, tail)) + rest == ItemLines(item) + (Lines(tail) + rest)
  {
  }

  lemma ChainLines(chain: Item, lines: seq<Line>, r1: seq<Line>, r2: seq<Line>)
    requires chain.Chain? && lines != [] && r2 != []
    requires lines[0] == Directive(chain.head, chain.arg) && r2[0] == Directive(chain.closer, chain.closerArg)
    requires lines[1..] == Lines(chain.body) + r1 && r1 == ArmLines(chain.arms) + r2
    ensures lines == ItemLines(chain) + r2[1..]
  {
    assert lines == [lines[0]] + lines[1..] && r2 == [r2[0]] + r2[1..];
    calc {
      lines;
      [lines[0]] + (Lines(chain.body) + (ArmLines(chain.arms) + ([r2[0]] + r2[1..])));
      [lines[0]] + Lines(chain.body) + ArmLines(chain.arms) + [r2[0]] + r2[1..];
    }
  }

  /** Read the further arms of a chain, up to its closing line. */
  lemma {:induction false} ReadArms(lines: seq<Line>, depth: nat) returns (a: Arms, rest: seq<Line>)
    requires depth > 0 && Balanced(lines, depth) && lines != [] && (Closes(lines[0]) || StartsArm(lines[0]))
    ensures WellFormedArms(a) && lines == ArmLines(a) + rest && Balanced(rest, depth)
    ensures rest != [] && Closes(rest[0])
    decreases |lines|, 0
  {
    if Closes(lines[0]) {
      a, rest := NoArms, lines;
    } else {
      var body, r1 := ReadBlock(lines[1..], depth);
      var more, r2 := ReadArms(r1, depth);
      a, rest := Arm(lines[0].d == Else, lines[0].arg, body, more), r2;
      ArmsLines(a, lines, r1, r2);
    }
  }

  lemma ArmsLines(a: Arms, lines: seq<Line>, r1: seq<Line>, r2: seq<Line>)
    requires a.Arm? && lines != [] && lines[0] == ArmLine(a)
    requires lines[1..] == Lines(a.body) + r1 && r1 == ArmLines(a.rest) + r2
    ensures lines == ArmLines(a) + r2
  {
    assert lines == [lines[0]] + lines[1..];
    calc {
      lines;
      [ArmLine(a)] + (Lines(a.body) + (ArmLines(a.rest) + r2));
      ArmLines(a) + r2;
    }
  }

  /** Every file with balanced directives has a structure, and the machine computes its meaning. */
  lemma BalancedFileMeaning(lines: seq<Line>, defs: set<string>, plats: set<string>) returns (b: Block)
    requires Balanced(lines, 0)
    ensures WellFormed(b) && Lines(b) == lines
    ensures Liveness(State([], true, defs), lines, plats) == Eval(b, true, defs, plats).live
  {
    var rest;
    b, rest := ReadBlock(lines, 0);
    assert Lines(b) + [] == Lines(b);
    MachineOnBlock(b, State([], true, defs), plats);
  }

  // ---------------------------------------------------------------- every file

  /** With `depth` chains open, an arm or closing line that belongs to none. */
  ghost predicate Stray(line: Line, depth: nat) {
    depth == 0 && (Closes(line) || StartsArm(line))
  }

  ghost function NextDepth(line: Line, depth: nat): nat {
    if Closes(line) then if depth > 0 then depth - 1 else 0
    else if line.Directive? && Opens(line.d) then depth + 1
    else depth
  }

  /** The file with its stray lines replaced by directives that do nothing, and its open chains closed at the end. */
  ghost function Repaired(lines: seq<Line>, depth: nat): seq<Line>
    decreases |lines|, depth
  {
    if lines != [] then
      [if Stray(lines[0], depth) then Directive(Undef, "") else lines[0]] + Repaired(lines[1..], NextDepth(lines[0], depth))
    else if depth > 0 then [Directive(EndIf, "")] + Repaired([], depth - 1)
    else []
  }

  lemma {:induction false} RepairedIsBalanced(lines: seq<Line>, depth: nat)
    ensures Balanced(Repaired(lines, depth), depth)
    ensures |lines| <= |Repaired(lines, depth)|
    ensures Balanced(lines, depth) ==> Repaired(lines, depth) == lines
    decreases |lines|, depth
  {
    if lines != [] {
      var rest := Repaired(lines[1..], NextDepth(lines[0], depth));
      RepairedIsBalanced(lines[1..], NextDepth(lines[0], depth));
      assert Repaired(lines, depth)[1..] == rest;
      assert lines == [lines[0]] + lines[1..];
    } else if depth > 0 {
      RepairedIsBalanced([], depth - 1);
      assert Repaired([], depth)[1..] == Repaired([], depth - 1);
    }
  }

  lemma RepairStep(s: State, line: Line, plats: set<string>)
    ensures Stray(line, |s.stack|) ==> Step(s, line, plats) == s == Step(s, Directive(Undef, ""), plats)
    ensures |Step(s, line, plats).stack| == NextDepth(line, |s.stack|)
  {
  }

  /** The machine cannot tell a file from its repaired form. */
  lemma {:induction false} RepairIsInvisible(s: State, lines: seq<Line>, plats: set<string>)
    ensures |lines| <= |Repaired(lines, |s.stack|)|
    ensures Liveness(s, lines, plats) == Liveness(s, Repaired(lines, |s.stack|), plats)[..|lines|]
    decreases |lines|
  {
    RepairedIsBalanced(lines, |s.stack|);
    if lines != [] {
      var next := Step(s, lines[0], plats);
      RepairStep(s, lines[0], plats);
      RepairIsInvisible(next, lines[1..], plats);
      var fixed, rest := Repaired(lines, |s.stack|), Repaired(lines[1..], |next.stack|);
      assert fixed[1..] == rest && Step(s, fixed[0], plats) == next;
      PrefixOfCons(lines[0].Plain? && s.active, Liveness(next, rest, plats), |lines| - 1);
    }
  }

  lemma PrefixOfCons(x: bool, s: seq<bool>, n: nat)
    requires n <= |s|
    ensures ([x] + s)[..n + 1] == [x] + s[..n]
  {
  }

  /**
   Every file, balanced or not, is kept line by line as the meaning of a block says: stray lines do
   nothing, chains left open end with the file, and a balanced file is that block itself.
   */
  lemma EveryFileMeaning(lines: seq<Line>, defs: set<string>, plats: set<string>) returns (b: Block)
    ensures WellFormed(b) && Lines(b) == Repaired(lines, 0)
    ensures Balanced(lines, 0) ==> Lines(b) == lines
    ensures |lines| <= |Eval(b, true, defs, plats).live|
    ensures Liveness(State([], true, defs), lines, plats) == Eval(b, true, defs, plats).live[..|lines|]
  {
    RepairedIsBalanced(lines, 0);
    RepairIsInvisible(State([], true, defs), lines, plats);
    b := BalancedFileMeaning(Repaired(lines, 0), defs, plats);
  }
}
