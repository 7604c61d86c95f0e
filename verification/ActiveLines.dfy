/**
 Reading a file for a target: classify every line, then blank the directives and the dead
 lines.  Text is ASCII.
 */
module ActiveLines {
  import opened Preprocessor
  import opened Wrappers

  predicate IsSpace(c: char) {
    c == ' ' || '\t' <= c <= '\r' || (28 as char) <= c <= (31 as char)
  }

  predicate IsWordChar(c: char) {
    'a' <= c <= 'z' || 'A' <= c <= 'Z' || '0' <= c <= '9' || c == '_'
  }

  function SkipSpaces(s: string, i: nat): (k: nat)
    requires i <= |s|
    ensures i <= k <= |s|
    decreases |s| - i
  {
    if i < |s| && IsSpace(s[i]) then SkipSpaces(s, i + 1) else i
  }

  function WordEnd(s: string, i: nat): (k: nat)
    requires i <= |s|
    ensures i <= k <= |s|
    decreases |s| - i
  {
    if i < |s| && IsWordChar(s[i]) then WordEnd(s, i + 1) else i
  }

  function KeywordOf(w: string): Option<Keyword> {
    if w == "ifdef" then Some(IfDef)
    else if w == "ifndef" then Some(IfNDef)
    else if w == "ifplat" then Some(IfPlat)
    else if w == "if" then Some(If)
    else if w == "elif" then Some(Elif)
    else if w == "else" then Some(Else)
    else if w == "endif" then Some(EndIf)
    else if w == "endplat" then Some(EndPlat)
    else if w == "define" then Some(Define)
    else if w == "undef" then Some(Undef)
    else None
  }

  /** A directive is a keyword, whole, after `#` at the start of the line; its argument is the next word. */
  function MatchDirective(s: string): (r: Option<Line>)
    ensures r.Some? ==> r.value.Directive?
  {
    var i := SkipSpaces(s, 0);
    if i == |s| || s[i] != '#' then None
    else
      var e := WordEnd(s, i + 1);
      match KeywordOf(s[i + 1..e])
      case None => None
      case Some(d) =>
        var a := SkipSpaces(s, e);
        Some(Directive(d, s[a..WordEnd(s, a)]))
  }

  /** The quote that closes a character literal, stepping over escapes; possibly past the end. */
  function CharLiteralEnd(s: string, j: nat): (k: nat)
    ensures j <= k
    decreases |s| - j
  {
    if j >= |s| || s[j] == '\'' then j
    else CharLiteralEnd(s, j + if s[j] == '\\' then 2 else 1)
  }

  /** Whether a string is open at the end of a line, from position `i` on. */
  function OpenString(s: string, i: nat, inString: bool): bool
    decreases |s| - i
  {
    if i >= |s| then inString
    else if inString then
      if s[i] == '\\' then OpenString(s, i + 2, true) else OpenString(s, i + 1, s[i] != '"')
    else if s[i] == '"' then OpenString(s, i + 1, true)
    else if s[i] == '\'' then OpenString(s, CharLiteralEnd(s, i + 1) + 1, false)
    else if s[i] == '#' then false
    else OpenString(s, i + 1, false)
  }

  /** The kinds of all lines: a line inside a string is data even if it looks like a directive. */
  function Classify(lines: seq<string>, inString: bool): (kinds: seq<Line>)
    ensures |kinds| == |lines|
  {
    if lines == [] then []
    else
      var m := if inString then None else MatchDirective(lines[0]);
      match m
      case Some(directive) => [directive] + Classify(lines[1..], false)
      case None => [Plain] + Classify(lines[1..], OpenString(lines[0], 0, inString))
  }

  /** Track the string state over a line. */
  method ScanLine(s: string, inString0: bool) returns (inString: bool)
    ensures inString == OpenString(s, 0, inString0)
  {
    inString := inString0;
    var i, n := 0, |s|;
    while i < n
      invariant OpenString(s, i, inString) == OpenString(s, 0, inString0)
      decreases n - i
    {
      var ch := s[i];
      if inString {
        if ch == '\\' {
          i := i + 2;
          continue;
        }
        if ch == '"' {
          inString := false;
        }
      } else if ch == '"' {
        inString := true;
      } else if ch == '\'' {
        var j := i + 1;
        while j < n && s[j] != '\''
          invariant i < j && CharLiteralEnd(s, j) == CharLiteralEnd(s, i + 1)
          decreases n - j
        {
          j := j + if s[j] == '\\' then 2 else 1;
        }
        i := j;
      } else if ch == '#' {
        break;
      }
      i := i + 1;
    }
  }

  /** Line `k` of the output is line `k` of the file, or blank. */
  ghost predicate Blanked(lines: seq<string>, live: seq<bool>, out: seq<string>) {
    |out| == |lines| == |live| && forall k :: 0 <= k < |lines| ==> out[k] == if live[k] then lines[k] else ""
  }

  lemma BlankedOneMore(lines: seq<string>, i: nat, live: seq<bool>, out: seq<string>, flag: bool)
    requires i < |lines| && Blanked(lines[..i], live, out)
    ensures Blanked(lines[..i + 1], live + [flag], out + [if flag then lines[i] else ""])
  {
  }

  /** The effect of a directive, branch by branch. */
  method Apply(d: Keyword, arg: string, plats: set<string>, stack0: seq<Frame>, active0: bool, defs0: set<string>)
    returns (stack: seq<Frame>, active: bool, defs: set<string>)
    ensures State(stack, active, defs) == Step(State(stack0, active0, defs0), Directive(d, arg), plats)
  {
    stack, active, defs := stack0, active0, defs0;
    if d == IfDef || d == IfNDef || d == IfPlat || d == If {
      var cond := match d
        case IfDef => arg in defs
        case IfNDef => arg !in defs
        case IfPlat => arg in plats
        case _ => true;
      var arm := active && cond;
      stack := stack + [Frame(active, arm, d == If)];
      active := arm;
    } else if (d == Elif || d == Else) && stack != [] {
      var top := stack[|stack| - 1];
      var arm;
      if top.unknown {
        arm := top.parent;
      } else {
        arm := top.parent && !top.taken && (d == Else || arg in defs);
      }
      stack := stack[|stack| - 1 := top.(taken := top.taken || arm)];
      active := arm;
    } else if (d == EndIf || d == EndPlat) && stack != [] {
      active := stack[|stack| - 1].parent;
      stack := stack[..|stack| - 1];
    } else if d == Define && active && arg != "" {
      defs := defs + {arg};
    } else if d == Undef && active && arg != "" {
      defs := defs - {arg};
    }
  }

  lemma ClassifyStep(lines: seq<string>, i: nat, inString: bool)
    requires i < |lines|
    ensures var m := if inString then None else MatchDirective(lines[i]);
            Classify(lines[i..], inString)
            == match m
               case Some(directive) => [directive] + Classify(lines[i + 1..], false)
               case None => [Plain] + Classify(lines[i + 1..], OpenString(lines[i], 0, inString))
  {
    assert lines[i..][1..] == lines[i + 1..];
  }

  lemma LivenessStep(flags: seq<bool>, s: State, line: Line, rest: seq<Line>, plats: set<string>)
    ensures flags + Liveness(s, [line] + rest, plats)
            == flags + [line.Plain? && s.active] + Liveness(Step(s, line, plats), rest, plats)
  {
    assert ([line] + rest)[1..] == rest;
  }

  /** The file's lines for a target, dead lines and directives blanked: line numbers stay true. */
  method ActiveLines(lines: seq<string>, targetDefs: set<string>, plats: set<string>) returns (out: seq<string>)
    ensures Blanked(lines, Liveness(State([], true, targetDefs), Classify(lines, false), plats), out)
  {
    ghost var all := Liveness(State([], true, targetDefs), Classify(lines, false), plats);
    ghost var flags: seq<bool> := [];
    var defs, stack, active, inString := targetDefs, [], true, false;
    out := [];
    assert lines[0..] == lines;
    for i := 0 to |lines|
      invariant Blanked(lines[..i], flags, out)
      invariant all == flags + Liveness(State(stack, active, defs), Classify(lines[i..], inString), plats)
    {
      var line := lines[i];
      ClassifyStep(lines, i, inString);
      var m := if inString then None else MatchDirective(line);
      if m.Some? {
        LivenessStep(flags, State(stack, active, defs), m.value, Classify(lines[i + 1..], false), plats);
        stack, active, defs := Apply(m.value.d, m.value.arg, plats, stack, active, defs);
        BlankedOneMore(lines, i, flags, out, false);
        out, flags := out + [""], flags + [false];
      } else {
        LivenessStep(flags, State(stack, active, defs), Plain,
                     Classify(lines[i + 1..], OpenString(line, 0, inString)), plats);
        BlankedOneMore(lines, i, flags, out, active);
        out, flags := out + [if active then line else ""], flags + [active];
        inString := ScanLine(line, inString);
      }
    }
    assert lines[..|lines|] == lines;
  }
}
