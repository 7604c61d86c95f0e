/**
 How a line is read, in plain terms: strings, character literals, escapes and comments as a
 grammar, and the shape of a directive.
 */
module LineLaws {
  import opened Preprocessor
  import opened Wrappers
  import opened ActiveLines

  // ---------------------------------------------------------------- a grammar of lines

  /** A character of a string or literal: itself, or behind a backslash. */
  datatype Unit = Raw(c: char) | Escaped(c: char)

  /** The pieces of a line from a point outside strings on. */
  datatype Reading =
    | End
    | Comment(text: string)
    | Code(c: char, rest: Reading)
    | CharLiteral(body: seq<Unit>, rest: Reading)
    | OpenLiteral(body: seq<Unit>, dangling: bool)
    | Quoted(body: seq<Unit>, rest: Reading)
    | OpenQuote(body: seq<Unit>, dangling: bool)

  /** A whole line; the last two start inside a string. */
  datatype LineReading =
    | FromCode(code: Reading)
    | Closing(body: seq<Unit>, rest: Reading)
    | StillOpen(body: seq<Unit>, dangling: bool)

  ghost function Spelled(u: Unit): string {
    match u
    case Raw(c) => [c]
    case Escaped(c) => ['\\', c]
  }

  ghost function Written(us: seq<Unit>): string {
    if us == [] then "" else Spelled(us[0]) + Written(us[1..])
  }

  /** A piece cut off by the end of the line may end in a backslash with nothing behind. */
  ghost function Dangle(dangling: bool): string {
    if dangling then ['\\'] else ""
  }

  ghost function Text(r: Reading): string {
    match r
    case End => ""
    case Comment(text) => ['#'] + text
    case Code(c, rest) => [c] + Text(rest)
    case CharLiteral(body, rest) => ['\''] + (Written(body) + (['\''] + Text(rest)))
    case OpenLiteral(body, dangling) => ['\''] + (Written(body) + Dangle(dangling))
    case Quoted(body, rest) => ['"'] + (Written(body) + (['"'] + Text(rest)))
    case OpenQuote(body, dangling) => ['"'] + (Written(body) + Dangle(dangling))
  }

  ghost function LineText(l: LineReading): string {
    match l
    case FromCode(code) => Text(code)
    case Closing(body, rest) => Written(body) + (['"'] + Text(rest))
    case StillOpen(body, dangling) => Written(body) + Dangle(dangling)
  }

  /** Unescaped, neither the quote that ends the piece nor a backslash. */
  ghost predicate Inside(us: seq<Unit>, quote: char) {
    forall k :: 0 <= k < |us| && us[k].Raw? ==> us[k].c != quote && us[k].c != '\\'
  }

  ghost predicate WellRead(r: Reading) {
    match r
    case End => true
    case Comment(text) => true
    case Code(c, rest) => c != '"' && c != '\'' && c != '#' && WellRead(rest)
    case CharLiteral(body, rest) => Inside(body, '\'') && WellRead(rest)
    case OpenLiteral(body, dangling) => Inside(body, '\'')
    case Quoted(body, rest) => Inside(body, '"') && WellRead(rest)
    case OpenQuote(body, dangling) => Inside(body, '"')
  }

  /** `l` is a reading of line `s` that starts inside a string or not. */
  ghost predicate Reads(l: LineReading, s: string, inString: bool) {
    && LineText(l) == s && (inString <==> !l.FromCode?)
    && match l
       case FromCode(code) => WellRead(code)
       case Closing(body, rest) => Inside(body, '"') && WellRead(rest)
       case StillOpen(body, dangling) => Inside(body, '"')
  }

  /** The last piece is a string without its closing quote. */
  ghost predicate EndsInString(r: Reading) {
    match r
    case End => false
    case Comment(text) => false
    case Code(c, rest) => EndsInString(rest)
    case CharLiteral(body, rest) => EndsInString(rest)
    case OpenLiteral(body, dangling) => false
    case Quoted(body, rest) => EndsInString(rest)
    case OpenQuote(body, dangling) => true
  }

  ghost predicate LineEndsInString(l: LineReading) {
    match l
    case FromCode(code) => EndsInString(code)
    case Closing(body, rest) => EndsInString(rest)
    case StillOpen(body, dangling) => true
  }

  // ---------------------------------------------------------------- the scanner follows the grammar

  lemma Ahead(s: string, i: nat, a: string, rest: string)
    requires i <= |s| && s[i..] == a + rest
    ensures i + |a| <= |s| && s[i + |a|..] == rest
    ensures forall k :: 0 <= k < |a| ==> s[i + k] == a[k]
  {
    assert |s[i..]| == |s| - i;
    forall k | 0 <= k < |a| ensures s[i + k] == a[k] {
      assert s[i..][k] == (a + rest)[k];
    }
    assert s[i + |a|..] == s[i..][|a|..] == (a + rest)[|a|..];
  }

  /** Neither the quote that ends the piece nor a backslash, unless escaped. */
  ghost predicate Fits(u: Unit, quote: char) {
    u.Raw? ==> u.c != quote && u.c != '\\'
  }

  lemma WrittenFirst(us: seq<Unit>, rest: string)
    requires us != []
    ensures Written(us) + rest == Spelled(us[0]) + (Written(us[1..]) + rest)
    ensures |Written(us)| == |Spelled(us[0])| + |Written(us[1..])|
  {
  }

  lemma StringUnit(s: string, i: nat, u: Unit, rest: string)
    requires i <= |s| && s[i..] == Spelled(u) + rest && Fits(u, '"')
    ensures var j := i + |Spelled(u)|;
            i < j <= |s| && s[j..] == rest && OpenString(s, i, true) == OpenString(s, j, true)
  {
    Ahead(s, i, Spelled(u), rest);
    assert s[i + 0] == Spelled(u)[0];
  }

  lemma LiteralUnit(s: string, i: nat, u: Unit, rest: string)
    requires i <= |s| && s[i..] == Spelled(u) + rest && Fits(u, '\'')
    ensures var j := i + |Spelled(u)|;
            i < j <= |s| && s[j..] == rest && CharLiteralEnd(s, i) == CharLiteralEnd(s, j)
  {
    Ahead(s, i, Spelled(u), rest);
    assert s[i + 0] == Spelled(u)[0];
  }

  lemma {:induction false} StringBody(s: string, i: nat, us: seq<Unit>, rest: string)
    requires i <= |s| && s[i..] == Written(us) + rest && Inside(us, '"')
    ensures var j := i + |Written(us)|;
            j <= |s| && s[j..] == rest && OpenString(s, i, true) == OpenString(s, j, true)
    decreases |us|
  {
    if us == [] {
      assert Written(us) + rest == rest;
    } else {
      WrittenFirst(us, rest);
      StringUnit(s, i, us[0], Written(us[1..]) + rest);
      StringBody(s, i + |Spelled(us[0])|, us[1..], rest);
    }
  }

  lemma {:induction false} LiteralBody(s: string, i: nat, us: seq<Unit>, j: nat, rest: string)
    requires i <= |s| && s[i..] == Written(us) + rest && Inside(us, '\'') && j == i + |Written(us)|
    ensures CharLiteralEnd(s, i) == CharLiteralEnd(s, j)
    decreases |us|
  {
    if us != [] {
      WrittenFirst(us, rest);
      LiteralUnit(s, i, us[0], Written(us[1..]) + rest);
      LiteralBody(s, i + |Spelled(us[0])|, us[1..], j, rest);
    }
  }

  lemma CutString(s: string, i: nat, us: seq<Unit>, dangling: bool)
    requires i <= |s| && s[i..] == Written(us) + Dangle(dangling) && Inside(us, '"')
    ensures OpenString(s, i, true)
  {
    StringBody(s, i, us, Dangle(dangling));
    var j := i + |Written(us)|;
    Ahead(s, j, Dangle(dangling), "");
  }

  lemma CutLiteral(s: string, i: nat, us: seq<Unit>, dangling: bool)
    requires i <= |s| && s[i..] == Written(us) + Dangle(dangling) && Inside(us, '\'')
    ensures CharLiteralEnd(s, i) >= |s|
  {
    var j := i + |Written(us)|;
    Ahead(s, i, Written(us), Dangle(dangling));
    NothingBehind(s, j, dangling);
    LiteralBody(s, i, us, j, Dangle(dangling));
  }

  lemma NothingBehind(s: string, j: nat, dangling: bool)
    requires j <= |s| && s[j..] == Dangle(dangling)
    ensures CharLiteralEnd(s, j) >= |s|
  {
    assert |s[j..]| == |s| - j;
    if dangling {
      assert s[j] == s[j..][0] == '\\';
      assert CharLiteralEnd(s, j + 2) == j + 2;
    }
  }

  lemma ClosedString(s: string, i: nat, us: seq<Unit>, rest: string)
    requires i <= |s| && s[i..] == Written(us) + (['"'] + rest) && Inside(us, '"')
    ensures var j := i + |Written(us)| + 1;
            j <= |s| && s[j..] == rest && OpenString(s, i, true) == OpenString(s, j, false)
  {
    StringBody(s, i, us, ['"'] + rest);
    var j := i + |Written(us)|;
    Ahead(s, j, ['"'], rest);
    assert s[j + 0] == '"';
  }

  lemma ClosedLiteral(s: string, i: nat, us: seq<Unit>, rest: string)
    requires i <= |s| && s[i..] == Written(us) + (['\''] + rest) && Inside(us, '\'')
    ensures var j := i + |Written(us)|;
            j < |s| && s[j + 1..] == rest && CharLiteralEnd(s, i) == j
  {
    var j := i + |Written(us)|;
    Ahead(s, i, Written(us), ['\''] + rest);
    Ahead(s, j, ['\''], rest);
    assert s[j + 0] == '\'';
    LiteralBody(s, i, us, j, ['\''] + rest);
  }

  /** The rest of a reading behind its first piece, and where it starts. */
  lemma OverFirst(s: string, i: nat, r: Reading) returns (rest: Reading, j: nat)
    requires i <= |s| && s[i..] == Text(r) && WellRead(r) && (r.Code? || r.CharLiteral? || r.Quoted?)
    ensures rest == r.rest && i < j <= |s| && s[j..] == Text(rest) && WellRead(rest)
    ensures OpenString(s, i, false) == OpenString(s, j, false)
  {
    rest := r.rest;
    match r
    case Code(c, _) =>
      OverCode(s, i, c, Text(rest));
      j := i + 1;
    case CharLiteral(body, _) =>
      OverLiteral(s, i, body, Text(rest));
      j := i + |Written(body)| + 2;
    case Quoted(body, _) =>
      OverString(s, i, body, Text(rest));
      j := i + |Written(body)| + 2;
  }

  lemma AtLast(s: string, i: nat, r: Reading)
    requires i <= |s| && s[i..] == Text(r) && WellRead(r) && !(r.Code? || r.CharLiteral? || r.Quoted?)
    ensures OpenString(s, i, false) == EndsInString(r)
  {
    match r
    case End =>
    case Comment(text) => AtComment(s, i, text);
    case OpenLiteral(body, dangling) => AtOpenLiteral(s, i, body, dangling);
    case OpenQuote(body, dangling) => AtOpenQuote(s, i, body, dangling);
  }

  lemma {:induction false} ScannerFollows(s: string, i: nat, r: Reading)
    requires i <= |s| && s[i..] == Text(r) && WellRead(r)
    ensures OpenString(s, i, false) == EndsInString(r)
    decreases r
  {
    if r.Code? || r.CharLiteral? || r.Quoted? {
      var rest, j := OverFirst(s, i, r);
      ScannerFollows(s, j, rest);
    } else {
      AtLast(s, i, r);
    }
  }

  lemma AtComment(s: string, i: nat, text: string)
    requires i <= |s| && s[i..] == ['#'] + text
    ensures !OpenString(s, i, false)
  {
    Ahead(s, i, ['#'], text);
    assert s[i + 0] == '#';
  }

  lemma OverCode(s: string, i: nat, c: char, rest: string)
    requires i <= |s| && s[i..] == [c] + rest && c != '"' && c != '\'' && c != '#'
    ensures i + 1 <= |s| && s[i + 1..] == rest && OpenString(s, i, false) == OpenString(s, i + 1, false)
  {
    Ahead(s, i, [c], rest);
    assert s[i + 0] == c;
  }

  lemma AtOpenLiteral(s: string, i: nat, body: seq<Unit>, dangling: bool)
    requires i <= |s| && s[i..] == ['\''] + (Written(body) + Dangle(dangling)) && Inside(body, '\'')
    ensures !OpenString(s, i, false)
  {
    Ahead(s, i, ['\''], Written(body) + Dangle(dangling));
    assert s[i + 0] == '\'';
    CutLiteral(s, i + 1, body, dangling);
  }

  lemma AtOpenQuote(s: string, i: nat, body: seq<Unit>, dangling: bool)
    requires i <= |s| && s[i..] == ['"'] + (Written(body) + Dangle(dangling)) && Inside(body, '"')
    ensures OpenString(s, i, false)
  {
    Ahead(s, i, ['"'], Written(body) + Dangle(dangling));
    assert s[i + 0] == '"';
    CutString(s, i + 1, body, dangling);
  }

  lemma OverLiteral(s: string, i: nat, body: seq<Unit>, rest: string)
    requires i <= |s| && s[i..] == ['\''] + (Written(body) + (['\''] + rest)) && Inside(body, '\'')
    ensures var j := i + |Written(body)| + 2;
            i < j <= |s| && s[j..] == rest && OpenString(s, i, false) == OpenString(s, j, false)
  {
    Ahead(s, i, ['\''], Written(body) + (['\''] + rest));
    assert s[i + 0] == '\'';
    ClosedLiteral(s, i + 1, body, rest);
  }

  lemma OverString(s: string, i: nat, body: seq<Unit>, rest: string)
    requires i <= |s| && s[i..] == ['"'] + (Written(body) + (['"'] + rest)) && Inside(body, '"')
    ensures var j := i + |Written(body)| + 2;
            i < j <= |s| && s[j..] == rest && OpenString(s, i, false) == OpenString(s, j, false)
  {
    Ahead(s, i, ['"'], Written(body) + (['"'] + rest));
    assert s[i + 0] == '"';
    ClosedString(s, i + 1, body, rest);
  }

  /** Every reading of a line gives its string state: open exactly if the last string piece is not closed. */
  lemma ReadingDecides(l: LineReading, s: string, inString: bool)
    requires Reads(l, s, inString)
    ensures OpenString(s, 0, inString) == LineEndsInString(l)
  {
    assert s[0..] == s;
    match l
    case FromCode(code) => ScannerFollows(s, 0, code);
    case Closing(body, rest) =>
      ClosedString(s, 0, body, Text(rest));
      ScannerFollows(s, |Written(body)| + 1, rest);
    case StillOpen(body, dangling) => CutString(s, 0, body, dangling);
  }

  // ---------------------------------------------------------------- every line has a reading

  lemma {:induction false} ReadUnits(s: string, i: nat, quote: char) returns (us: seq<Unit>, j: nat)
    requires i <= |s| && quote != '\\'
    ensures Inside(us, quote) && i <= j <= |s| && s[i..] == Written(us) + s[j..]
    ensures j == |s| || s[j] == quote || (j + 1 == |s| && s[j] == '\\')
    decreases |s| - i
  {
    if i == |s| || s[i] == quote || (i + 1 == |s| && s[i] == '\\') {
      us, j := [], i;
      assert s[i..] == "" + s[i..];
    } else {
      var u := ReadUnit(s, i, quote);
      var a := Spelled(u);
      var vs;
      vs, j := ReadUnits(s, i + |a|, quote);
      us := [u] + vs;
      assert us[1..] == vs;
      WrittenFirst(us, s[j..]);
    }
  }

  lemma ReadUnit(s: string, i: nat, quote: char) returns (u: Unit)
    requires i < |s| && s[i] != quote && (s[i] == '\\' ==> i + 1 < |s|)
    ensures Fits(u, quote) && i + |Spelled(u)| <= |s| && |Spelled(u)| > 0
    ensures s[i..] == Spelled(u) + s[i + |Spelled(u)|..]
  {
    if s[i] == '\\' {
      u := Escaped(s[i + 1]);
      assert s[i..] == ['\\', s[i + 1]] + s[i + 2..];
    } else {
      u := Raw(s[i]);
      assert s[i..] == [s[i]] + s[i + 1..];
    }
  }

  lemma FrontOf(s: string, i: nat)
    requires i < |s|
    ensures s[i..] == [s[i]] + s[i + 1..]
  {
  }

  lemma {:induction false} ReadCode(s: string, i: nat) returns (r: Reading)
    requires i <= |s|
    ensures WellRead(r) && Text(r) == s[i..]
    decreases |s| - i
  {
    if i == |s| {
      r := End;
    } else {
      FrontOf(s, i);
      if s[i] == '#' {
        r := Comment(s[i + 1..]);
      } else if s[i] == '"' {
        var us, j := ReadUnits(s, i + 1, '"');
        if j < |s| && s[j] == '"' {
          FrontOf(s, j);
          var rest := ReadCode(s, j + 1);
          r := Quoted(us, rest);
        } else {
          r := OpenQuote(us, j < |s|);
          assert s[j..] == Dangle(j < |s|);
        }
      } else if s[i] == '\'' {
        var us, j := ReadUnits(s, i + 1, '\'');
        if j < |s| && s[j] == '\'' {
          FrontOf(s, j);
          var rest := ReadCode(s, j + 1);
          r := CharLiteral(us, rest);
        } else {
          r := OpenLiteral(us, j < |s|);
          assert s[j..] == Dangle(j < |s|);
        }
      } else {
        var rest := ReadCode(s, i + 1);
        r := Code(s[i], rest);
      }
    }
  }

  lemma EveryLineReads(s: string, inString: bool) returns (l: LineReading)
    ensures Reads(l, s, inString)
  {
    assert s[0..] == s;
    if inString {
      var us, j := ReadUnits(s, 0, '"');
      if j < |s| && s[j] == '"' {
        FrontOf(s, j);
        var rest := ReadCode(s, j + 1);
        l := Closing(us, rest);
      } else {
        l := StillOpen(us, j < |s|);
        assert s[j..] == Dangle(j < |s|);
      }
    } else {
      var code := ReadCode(s, 0);
      l := FromCode(code);
    }
  }

  /** A line leaves a string open exactly if some reading of it, and then every one, ends in an unclosed string. */
  lemma OpenExactly(s: string, inString: bool)
    ensures OpenString(s, 0, inString) <==> exists l :: Reads(l, s, inString) && LineEndsInString(l)
    ensures OpenString(s, 0, inString) <==> forall l :: Reads(l, s, inString) ==> LineEndsInString(l)
  {
    var l := EveryLineReads(s, inString);
    forall k | Reads(k, s, inString) ensures OpenString(s, 0, inString) == LineEndsInString(k) {
      ReadingDecides(k, s, inString);
    }
  }

  // ---------------------------------------------------------------- directives

  ghost predicate Space(c: char) {
    || c == ' ' || c == '\t' || c == '\n' || c == (11 as char) || c == (12 as char) || c == '\r'
    || c == (28 as char) || c == (29 as char) || c == (30 as char) || c == (31 as char)
  }

  ghost predicate WordChar(c: char) {
    'a' <= c <= 'z' || 'A' <= c <= 'Z' || '0' <= c <= '9' || c == '_'
  }

  ghost predicate Spaces(t: string) {
    forall k :: 0 <= k < |t| ==> Space(t[k])
  }

  ghost predicate Word(t: string) {
    forall k :: 0 <= k < |t| ==> WordChar(t[k])
  }

  /** The ten keywords. */
  ghost predicate Named(d: Keyword, name: string) {
    match d
    case IfDef => name == "ifdef"
    case IfNDef => name == "ifndef"
    case IfPlat => name == "ifplat"
    case If => name == "if"
    case Elif => name == "elif"
    case Else => name == "else"
    case EndIf => name == "endif"
    case EndPlat => name == "endplat"
    case Define => name == "define"
    case Undef => name == "undef"
  }

  /** The line is blanks, `#`, a keyword, blanks, a word, and whatever follows behind a word boundary. */
  ghost predicate Shape(s: string, b: string, name: string, c: string, w: string, tail: string) {
    && s == b + (['#'] + (name + (c + (w + tail))))
    && Spaces(b) && Spaces(c) && Word(w) && (c == "" ==> w == "")
    && (tail != "" ==> !WordChar(tail[0]) && (w == "" ==> !Space(tail[0])))
  }

  lemma {:induction false} SkipExactly(s: string, i: nat, k: nat)
    requires i <= k <= |s|
    ensures SkipSpaces(s, i) == k
            <==> (forall j :: i <= j < k ==> Space(s[j])) && (k < |s| ==> !Space(s[k]))
    decreases |s| - i
  {
    if i < |s| && IsSpace(s[i]) && i < k {
      SkipExactly(s, i + 1, k);
    }
  }

  lemma {:induction false} WordEndExactly(s: string, i: nat, k: nat)
    requires i <= k <= |s|
    ensures WordEnd(s, i) == k
            <==> (forall j :: i <= j < k ==> WordChar(s[j])) && (k < |s| ==> !WordChar(s[k]))
    decreases |s| - i
  {
    if i < |s| && IsWordChar(s[i]) && i < k {
      WordEndExactly(s, i + 1, k);
    }
  }

  lemma KeywordExactly(d: Keyword, name: string)
    ensures KeywordOf(name) == Some(d) <==> Named(d, name)
  {
  }

  lemma NameIsWord(d: Keyword, name: string)
    requires Named(d, name)
    ensures name != "" && Word(name)
  {
  }

  lemma SpacesAt(s: string, i: nat, c: string, rest: string)
    requires i <= |s| && s[i..] == c + rest && Spaces(c) && (rest != "" ==> !Space(rest[0]))
    ensures SkipSpaces(s, i) == i + |c| <= |s| && s[i + |c|..] == rest
  {
    Ahead(s, i, c, rest);
    var k := i + |c|;
    forall j | i <= j < k ensures Space(s[j]) {
      assert s[i + (j - i)] == c[j - i];
    }
    assert rest != "" ==> s[k..][0] == rest[0];
    SkipExactly(s, i, k);
  }

  lemma WordAt(s: string, i: nat, w: string, rest: string)
    requires i <= |s| && s[i..] == w + rest && Word(w) && (rest != "" ==> !WordChar(rest[0]))
    ensures WordEnd(s, i) == i + |w| <= |s| && s[i + |w|..] == rest && s[i..i + |w|] == w
  {
    Ahead(s, i, w, rest);
    var k := i + |w|;
    forall j | i <= j < k ensures WordChar(s[j]) {
      assert s[i + (j - i)] == w[j - i];
    }
    assert rest != "" ==> s[k..][0] == rest[0];
    WordEndExactly(s, i, k);
    assert s[i..k] == (w + rest)[..|w|];
  }

  lemma HeadOfShape(s: string, b: string, name: string, behind: string)
    requires name != "" && Word(name) && s == b + (['#'] + (name + behind)) && Spaces(b)
    requires behind != "" ==> !WordChar(behind[0])
    ensures var i, e := |b|, |b| + 1 + |name|;
            && SkipSpaces(s, 0) == i < |s| && s[i] == '#'
            && WordEnd(s, i + 1) == e <= |s| && s[i + 1..e] == name && s[e..] == behind
  {
    HashAt(s, b, name + behind);
    WordAt(s, |b| + 1, name, behind);
  }

  lemma HashAt(s: string, b: string, rest: string)
    requires s == b + (['#'] + rest) && Spaces(b)
    ensures SkipSpaces(s, 0) == |b| < |s| && s[|b|] == '#' && s[|b| + 1..] == rest
  {
    assert s[0..] == s && (['#'] + rest)[0] == '#';
    SpacesAt(s, 0, b, ['#'] + rest);
    Ahead(s, |b|, ['#'], rest);
    assert s[|b| + 0] == '#';
  }

  lemma TailOfShape(s: string, e: nat, c: string, w: string, tail: string)
    requires e <= |s| && s[e..] == c + (w + tail) && Spaces(c) && Word(w)
    requires tail != "" ==> !WordChar(tail[0]) && (w == "" ==> !Space(tail[0]))
    ensures var a, z := e + |c|, e + |c| + |w|;
            SkipSpaces(s, e) == a <= |s| && WordEnd(s, a) == z <= |s| && s[a..z] == w
  {
    BehindBlanks(w, tail);
    SpacesAt(s, e, c, w + tail);
    WordAt(s, e + |c|, w, tail);
  }

  /** The four points at which a directive line is cut, with its name and argument. */
  ghost predicate CutAt(s: string, i: nat, name: string, e: nat, a: nat, w: string, z: nat) {
    && SkipSpaces(s, 0) == i < |s| && s[i] == '#' && WordEnd(s, i + 1) == e <= |s| && s[i + 1..e] == name
    && SkipSpaces(s, e) == a && WordEnd(s, a) == z && s[a..z] == w
  }

  lemma ShapeIsCut(s: string, b: string, name: string, c: string, w: string, tail: string)
    requires name != "" && Word(name) && Shape(s, b, name, c, w, tail)
    ensures var i, e := |b|, |b| + 1 + |name|;
            CutAt(s, i, name, e, e + |c|, w, e + |c| + |w|)
  {
    BehindName(c, w, tail);
    var e := |b| + 1 + |name|;
    HeadOfShape(s, b, name, c + (w + tail));
    TailOfShape(s, e, c, w, tail);
  }

  lemma CutMatches(s: string, i: nat, name: string, e: nat, a: nat, w: string, z: nat, d: Keyword)
    requires CutAt(s, i, name, e, a, w, z) && KeywordOf(name) == Some(d)
    ensures MatchDirective(s) == Some(Directive(d, w))
  {
  }

  /** A line of that shape is the directive it names, with the word as its argument. */
  lemma ShapeMatches(s: string, b: string, d: Keyword, name: string, c: string, w: string, tail: string)
    requires Named(d, name) && Shape(s, b, name, c, w, tail)
    ensures MatchDirective(s) == Some(Directive(d, w))
  {
    NameIsWord(d, name);
    ShapeIsCut(s, b, name, c, w, tail);
    KeywordExactly(d, name);
    var e := |b| + 1 + |name|;
    CutMatches(s, |b|, name, e, e + |c|, w, e + |c| + |w|, d);
  }

  lemma SliceSpaces(s: string, i: nat, k: nat)
    requires i <= |s| && SkipSpaces(s, i) == k
    ensures Spaces(s[i..k]) && (k < |s| ==> !Space(s[k]))
  {
    SkipExactly(s, i, k);
  }

  lemma SliceWord(s: string, i: nat, k: nat)
    requires i <= |s| && WordEnd(s, i) == k
    ensures Word(s[i..k]) && (k < |s| ==> !WordChar(s[k]))
  {
    WordEndExactly(s, i, k);
  }

  lemma BehindName(c: string, w: string, tail: string)
    requires Spaces(c) && (c == "" ==> w == "") && (tail != "" ==> !WordChar(tail[0]))
    ensures var rest := c + (w + tail); rest != "" ==> !WordChar(rest[0])
  {
    if c != "" {
      assert (c + (w + tail))[0] == c[0];
    } else {
      assert c + (w + tail) == tail;
    }
  }

  lemma BehindBlanks(w: string, tail: string)
    requires Word(w) && (tail != "" ==> !WordChar(tail[0]) && (w == "" ==> !Space(tail[0])))
    ensures var rest := w + tail; rest != "" ==> !Space(rest[0])
  {
    if w != "" {
      assert (w + tail)[0] == w[0] && WordChar(w[0]);
    } else {
      assert w + tail == tail;
    }
  }

  lemma MatchParts(s: string, d: Keyword, w: string) returns (i: nat, e: nat, a: nat, z: nat)
    requires MatchDirective(s) == Some(Directive(d, w))
    ensures SkipSpaces(s, 0) == i < |s| && s[i] == '#' && WordEnd(s, i + 1) == e && i < e <= |s|
    ensures KeywordOf(s[i + 1..e]) == Some(d) && SkipSpaces(s, e) == a && e <= a <= |s|
    ensures WordEnd(s, a) == z && a <= z <= |s| && s[a..z] == w
  {
    i := SkipSpaces(s, 0);
    e := WordEnd(s, i + 1);
    a := SkipSpaces(s, e);
    z := WordEnd(s, a);
  }

  /** Conversely, a directive has that shape. */
  lemma MatchHasShape(s: string, d: Keyword, w: string) returns (b: string, name: string, c: string, tail: string)
    requires MatchDirective(s) == Some(Directive(d, w))
    ensures Named(d, name) && Shape(s, b, name, c, w, tail)
  {
    var i, e, a, z := MatchParts(s, d, w);
    b, name, c, tail := s[..i], s[i + 1..e], s[e..a], s[z..];
    KeywordExactly(d, name);
    Pieces(s, i, e, a, z);
    PartsFit(s, i, e, a, z);
  }

  lemma PartsFit(s: string, i: nat, e: nat, a: nat, z: nat)
    requires SkipSpaces(s, 0) == i < |s| && WordEnd(s, i + 1) == e && SkipSpaces(s, e) == a && WordEnd(s, a) == z
    ensures i < e <= a <= z <= |s| && Spaces(s[..i]) && Spaces(s[e..a]) && Word(s[a..z]) && (e == a ==> a == z)
    ensures z < |s| ==> !WordChar(s[z]) && (a == z ==> !Space(s[z]))
  {
    SliceSpaces(s, 0, i);
    assert s[0..i] == s[..i];
    SliceWord(s, i + 1, e);
    SliceSpaces(s, e, a);
    SliceWord(s, a, z);
    if e == a {
      WordEndExactly(s, a, a);
    }
  }

  lemma Pieces(s: string, i: nat, e: nat, a: nat, z: nat)
    requires i < e <= a <= z <= |s| && s[i] == '#'
    ensures s == s[..i] + (['#'] + (s[i + 1..e] + (s[e..a] + (s[a..z] + s[z..]))))
  {
    assert s[a..z] + s[z..] == s[a..];
    assert s[e..a] + s[a..] == s[e..];
    assert s[i + 1..e] + s[e..] == s[i + 1..];
    assert ['#'] + s[i + 1..] == s[i..];
  }

  /** A line is a directive exactly if it has the shape of one. */
  lemma DirectiveExactly(s: string, d: Keyword, w: string)
    ensures MatchDirective(s) == Some(Directive(d, w))
            <==> exists b, name, c, tail :: Named(d, name) && Shape(s, b, name, c, w, tail)
  {
    if MatchDirective(s) == Some(Directive(d, w)) {
      var b, name, c, tail := MatchHasShape(s, d, w);
    }
    if b, name, c, tail :| Named(d, name) && Shape(s, b, name, c, w, tail) {
      ShapeMatches(s, b, d, name, c, w, tail);
    }
  }

  // ---------------------------------------------------------------- files

  /** Whether line `k` starts inside a string: directives are not scanned and leave none open. */
  ghost function StartsInString(lines: seq<string>, inString: bool, k: nat): bool
    requires k <= |lines|
  {
    if k == 0 then inString
    else
      var before := StartsInString(lines, inString, k - 1);
      (before || MatchDirective(lines[k - 1]).None?) && OpenString(lines[k - 1], 0, before)
  }

  lemma {:induction false} StartShifts(lines: seq<string>, inString: bool, k: nat)
    requires 0 < k <= |lines|
    ensures StartsInString(lines, inString, k) == StartsInString(lines[1..], StartsInString(lines, inString, 1), k - 1)
    decreases k
  {
    if k > 1 {
      StartShifts(lines, inString, k - 1);
      assert lines[1..][k - 2] == lines[k - 1];
    }
  }

  /** What line `k` is read as. */
  ghost function Kind(lines: seq<string>, inString: bool, k: nat): Line
    requires k < |lines|
  {
    var m := MatchDirective(lines[k]);
    if !StartsInString(lines, inString, k) && m.Some? then m.value else Plain
  }

  lemma ClassifyTail(lines: seq<string>, inString: bool, k: nat)
    requires 0 < k < |lines|
    ensures Classify(lines, inString)[k] == Classify(lines[1..], StartsInString(lines, inString, 1))[k - 1]
  {
    assert StartsInString(lines, inString, 0) == inString;
  }

  /** A line is read as a directive exactly if it starts outside strings and has the shape of one. */
  lemma {:induction false} ClassifiedExactly(lines: seq<string>, inString: bool, k: nat)
    requires k < |lines|
    ensures Classify(lines, inString)[k] == Kind(lines, inString, k)
    decreases k
  {
    if k > 0 {
      StartShifts(lines, inString, k);
      ClassifiedExactly(lines[1..], StartsInString(lines, inString, 1), k - 1);
      ClassifyTail(lines, inString, k);
    }
  }

  // ---------------------------------------------------------------- one file

  /** An escaped quote in a string. */
  const QUOTE_LINE := ['"', '\\', '"', '"']

  lemma EscapedQuoteIsClosed()
    ensures !OpenString(QUOTE_LINE, 0, false) && MatchDirective(QUOTE_LINE) == None
  {
    var r := Quoted([Escaped('"')], End);
    assert Written([Escaped('"')]) == ['\\', '"'] by {
      assert [Escaped('"')][1..] == [];
    }
    assert Text(r) == QUOTE_LINE;
    ReadingDecides(FromCode(r), QUOTE_LINE, false);
    SkipExactly(QUOTE_LINE, 0, 0);
  }

  lemma PlainDirectives(x: string)
    requires Word(x) && x != ""
    ensures MatchDirective(['#'] + ("ifdef" + ([' '] + x))) == Some(Directive(IfDef, x))
    ensures MatchDirective(['#'] + "endif") == Some(Directive(EndIf, ""))
  {
    ShapeMatches(['#'] + ("ifdef" + ([' '] + x)), "", IfDef, "ifdef", [' '], x, "");
    ShapeMatches(['#'] + "endif", "", EndIf, "endif", "", "", "");
  }

  /** Behind a line with an escaped quote, a conditional on a name not defined drops its line. */
  lemma EscapedQuoteDoesNotHide(x: string, line: string, defs: set<string>, plats: set<string>)
    requires Word(x) && x != "" && x !in defs && MatchDirective(line) == None && !OpenString(line, 0, false)
    ensures var file := [QUOTE_LINE, ['#'] + ("ifdef" + ([' '] + x)), line, ['#'] + "endif"];
            Classify(file, false) == [Plain] + ([Directive(IfDef, x)] + ([Plain] + ([Directive(EndIf, "")] + [])))
            && Liveness(State([], true, defs), Classify(file, false), plats) == [true] + ([false] + ([false] + ([false] + [])))
  {
    var file := [QUOTE_LINE, ['#'] + ("ifdef" + ([' '] + x)), line, ['#'] + "endif"];
    EscapedQuoteIsClosed();
    PlainDirectives(x);
    FileKinds(file, x);
    var s := State([], true, defs);
    OneMoreLine(s, Plain, [Directive(IfDef, x)] + ([Plain] + ([Directive(EndIf, "")] + [])), plats);
    DirectiveAndText(s, IfDef, x, [Directive(EndIf, "")] + [], plats);
    OneMoreLine(Step(s, Directive(IfDef, x), plats), Directive(EndIf, ""), [], plats);
  }

  lemma FileKinds(file: seq<string>, x: string)
    requires |file| == 4 && MatchDirective(file[0]) == None == MatchDirective(file[2])
    requires !OpenString(file[0], 0, false) && !OpenString(file[2], 0, false)
    requires MatchDirective(file[1]) == Some(Directive(IfDef, x)) && MatchDirective(file[3]) == Some(Directive(EndIf, ""))
    ensures Classify(file, false) == [Plain] + ([Directive(IfDef, x)] + ([Plain] + ([Directive(EndIf, "")] + [])))
  {
    NoneStartsInString(file, x);
    ClassifiedExactly(file, false, 0);
    ClassifiedExactly(file, false, 1);
    ClassifiedExactly(file, false, 2);
    ClassifiedExactly(file, false, 3);
    FourOf(Classify(file, false), Plain, Directive(IfDef, x), Plain, Directive(EndIf, ""));
  }

  lemma FourOf(s: seq<Line>, a: Line, b: Line, c: Line, d: Line)
    requires |s| == 4 && s[0] == a && s[1] == b && s[2] == c && s[3] == d
    ensures s == [a] + ([b] + ([c] + ([d] + [])))
  {
  }

  lemma NoneStartsInString(file: seq<string>, x: string)
    requires |file| == 4 && !OpenString(file[0], 0, false) && !OpenString(file[2], 0, false)
    requires MatchDirective(file[1]) == Some(Directive(IfDef, x))
    ensures !StartsInString(file, false, 0) && !StartsInString(file, false, 1)
    ensures !StartsInString(file, false, 2) && !StartsInString(file, false, 3)
  {
    assert !StartsInString(file, false, 0);
    assert !StartsInString(file, false, 1);
    assert !StartsInString(file, false, 2);
  }
}
