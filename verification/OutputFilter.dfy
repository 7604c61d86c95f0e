/**
 Redaction of API keys, social security numbers and e-mail addresses in a response.
 Text is ASCII: one character is one byte.
 */
module OutputFilter {

  const MARK := "[REDACTED]"

  const KEY_COUNT: nat := 10

  /** The key prefixes, in the order in which they are looked for. */
  function KeyPrefix(j: nat): string
    requires j < KEY_COUNT
  {
    match j
    case 0 => "AKIA"
    case 1 => "ASIA"
    case 2 => "ghp_"
    case 3 => "gho_"
    case 4 => "ghs_"
    case 5 => "ghr_"
    case 6 => "github_pat_"
    case 7 => "sk-"
    case 8 => "Bearer "
    case _ => "xox"
  }

  // ---------------------------------------------------------------- fixed-width patterns

  predicate IsDigit(c: char) {
    '0' <= c <= '9'
  }

  predicate IsWhitespace(c: char) {
    c == ' ' || '\t' <= c <= '\r'
  }

  /** A key prefix, or a social security number NNN-NN-NNNN. */
  datatype Pattern = Literal(text: string) | Ssn {
    function Width(): nat {
      match this
      case Literal(text) => |text|
      case Ssn => 11
    }

    predicate Hits(w: string)
      requires |w| == Width()
    {
      match this
      case Literal(text) => w == text
      case Ssn =>
        && IsDigit(w[0]) && IsDigit(w[1]) && IsDigit(w[2]) && w[3] == '-'
        && IsDigit(w[4]) && IsDigit(w[5]) && w[6] == '-'
        && IsDigit(w[7]) && IsDigit(w[8]) && IsDigit(w[9]) && IsDigit(w[10])
    }

    /** The pattern shares no bracket with the mark and has a character the mark lacks. */
    predicate Foreign() {
      match this
      case Literal(text) => '[' !in text && ']' !in text && exists i :: 0 <= i < |text| && text[i] !in MARK
      case Ssn => true
    }
  }

  predicate HitAt(p: Pattern, s: string, k: nat) {
    k + p.Width() <= |s| && p.Hits(s[k..k + p.Width()])
  }

  ghost predicate Free(p: Pattern, s: string) {
    forall k: nat :: !HitAt(p, s, k)
  }

  /** A hit of a foreign pattern has no bracket and some character that is not in the mark. */
  lemma ForeignHit(p: Pattern, w: string)
    requires p.Foreign() && |w| == p.Width() && p.Hits(w)
    ensures '[' !in w && ']' !in w && exists i :: 0 <= i < |w| && w[i] !in MARK
  {
    if p.Ssn? {
      assert w[0] !in MARK;
    }
  }

  lemma ForeignBy(text: string, i: nat)
    requires i < |text| && text[i] !in MARK
    requires forall j :: 0 <= j < |text| ==> text[j] != '[' && text[j] != ']'
    ensures Literal(text).Foreign()
  {
  }

  lemma KeyPrefixIsForeign(j: nat)
    requires j < KEY_COUNT
    ensures Literal(KeyPrefix(j)).Foreign() && KeyPrefix(j) != ""
  {
    match j
    case 0 => ForeignBy("AKIA", 1);
    case 1 => ForeignBy("ASIA", 1);
    case 2 => ForeignBy("ghp_", 0);
    case 3 => ForeignBy("gho_", 0);
    case 4 => ForeignBy("ghs_", 0);
    case 5 => ForeignBy("ghr_", 0);
    case 6 => ForeignBy("github_pat_", 0);
    case 7 => ForeignBy("sk-", 0);
    case 8 => ForeignBy("Bearer ", 1);
    case _ => ForeignBy("xox", 0);
  }

  /** A window that overlaps an inserted mark shows one of its brackets or lies inside it. */
  lemma WindowOverMark(a: string, c: string, k: nat, n: nat)
    requires |a| < k + n <= |a + MARK + c| && k < |a + MARK|
    ensures var w := (a + MARK + c)[k..k + n]; '[' in w || ']' in w || forall i :: 0 <= i < n ==> w[i] in MARK
  {
    var s := a + MARK + c;
    var w := s[k..k + n];
    if k <= |a| {
      assert w[|a| - k] == s[|a|] == '[';
    } else if |a| + 9 < k + n {
      assert w[|a| + 9 - k] == s[|a| + 9] == ']';
    } else {
      forall i | 0 <= i < n ensures w[i] in MARK {
        assert w[i] == s[k + i] == MARK[k + i - |a|];
      }
    }
  }

  /** A hit never straddles an inserted mark: it lies before it or after it. */
  lemma HitsAroundMark(p: Pattern, a: string, c: string, k: nat)
    requires p.Foreign() && HitAt(p, a + MARK + c, k)
    ensures (k + p.Width() <= |a| && HitAt(p, a, k)) || (k >= |a + MARK| && HitAt(p, c, k - |a + MARK|))
  {
    var s, n := a + MARK + c, p.Width();
    var w := s[k..k + n];
    if k + n <= |a| {
      assert w == a[k..k + n];
    } else if k >= |a + MARK| {
      assert w == c[k - |a + MARK|..k - |a + MARK| + n];
    } else {
      WindowOverMark(a, c, k, n);
      ForeignHit(p, w);
      assert false;
    }
  }

  lemma HitInPrefix(p: Pattern, a: string, c: string, k: nat)
    requires HitAt(p, a, k)
    ensures HitAt(p, a + c, k)
  {
    assert (a + c)[k..k + p.Width()] == a[k..k + p.Width()];
  }

  lemma HitInSuffix(p: Pattern, a: string, c: string, k: nat)
    ensures HitAt(p, a + c, |a| + k) <==> HitAt(p, c, k)
  {
    if k + p.Width() <= |c| {
      assert (a + c)[|a| + k..|a| + k + p.Width()] == c[k..k + p.Width()];
    }
  }

  /** Replacing a piece of text by the mark creates no new hit. */
  lemma MarkKeepsFree(p: Pattern, a: string, b: string, c: string)
    requires p.Foreign() && Free(p, a + b + c)
    ensures Free(p, a + MARK + c)
  {
    assert a + (b + c) == a + b + c;
    forall k: nat ensures !HitAt(p, a + MARK + c, k) {
      if HitAt(p, a + MARK + c, k) {
        HitsAroundMark(p, a, c, k);
        if k + p.Width() <= |a| && HitAt(p, a, k) {
          HitInPrefix(p, a, b + c, k);
        } else {
          HitInSuffix(p, a + b, c, k - |a + MARK|);
        }
        assert false;
      }
    }
  }

  // ---------------------------------------------------------------- key prefixes

  /** The first hit at or after `i`, or the length of the text if there is none. */
  function FirstHit(p: Pattern, s: string, i: nat): (k: nat)
    requires i <= |s| && p.Width() > 0
    ensures i <= k <= |s|
    ensures k < |s| ==> HitAt(p, s, k)
    ensures forall j :: i <= j < k ==> !HitAt(p, s, j)
    decreases |s| - i
  {
    if i == |s| || HitAt(p, s, i) then i else FirstHit(p, s, i + 1)
  }

  function FirstWhitespace(s: string, i: nat): (k: nat)
    requires i <= |s|
    ensures i <= k <= |s|
    decreases |s| - i
  {
    if i == |s| || IsWhitespace(s[i]) then i else FirstWhitespace(s, i + 1)
  }

  /** Where the token found at `pos` ends: at whitespace if any follows, else after twenty more characters. */
  function TokenEnd(prefix: string, s: string, pos: nat): (end: nat)
    requires pos + |prefix| <= |s|
    ensures pos + |prefix| <= end <= |s|
  {
    var ws := FirstWhitespace(s, pos);
    var limit := if pos + |prefix| + 20 <= |s| then pos + |prefix| + 20 else |s|;
    var end := if ws < |s| then ws else limit;
    if end < pos + |prefix| then pos + |prefix| else end
  }

  /** One left-to-right pass that marks every token starting with the prefix. */
  function KeyPass(prefix: string, s: string): string
    requires prefix != ""
    decreases |s|
  {
    var pos := FirstHit(Literal(prefix), s, 0);
    if pos == |s| then s
    else s[..pos] + MARK + KeyPass(prefix, s[TokenEnd(prefix, s, pos)..])
  }

  lemma {:induction false} WhitespaceInSuffix(a: string, c: string, i: nat)
    requires i <= |c|
    ensures FirstWhitespace(a + c, |a| + i) == |a| + FirstWhitespace(c, i)
    decreases |c| - i
  {
    if i < |c| && !IsWhitespace(c[i]) {
      WhitespaceInSuffix(a, c, i + 1);
    }
  }

  /** The end of a token depends only on the text from its start on. */
  lemma TokenEndInSuffix(prefix: string, a: string, c: string, pos: nat)
    requires pos + |prefix| <= |c|
    ensures TokenEnd(prefix, a + c, |a| + pos) == |a| + TokenEnd(prefix, c, pos)
  {
    WhitespaceInSuffix(a, c, pos);
  }

  /** With no hit starting in `a`, the first hit of the whole text is the first hit of the rest. */
  lemma FirstHitInSuffix(p: Pattern, a: string, c: string)
    requires p.Width() > 0 && forall k :: 0 <= k < |a| ==> !HitAt(p, a + c, k)
    ensures FirstHit(p, a + c, 0) == |a| + FirstHit(p, c, 0)
  {
    var k, m := FirstHit(p, a + c, 0), FirstHit(p, c, 0);
    HitInSuffix(p, a, c, m);
    if k >= |a| {
      HitInSuffix(p, a, c, k - |a|);
    }
  }

  /** After marking the token at `pos`, no hit starts before the end of the mark. */
  lemma MarkedPrefixIsClean(p: Pattern, s: string, pos: nat, c: string)
    requires p.Foreign() && pos <= |s| && forall k :: 0 <= k < pos ==> !HitAt(p, s, k)
    ensures forall k :: 0 <= k < pos + |MARK| ==> !HitAt(p, s[..pos] + MARK + c, k)
  {
    var a := s[..pos];
    assert s == a + s[pos..];
    forall k | 0 <= k < pos + |MARK| ensures !HitAt(p, a + MARK + c, k) {
      if HitAt(p, a + MARK + c, k) {
        HitsAroundMark(p, a, c, k);
        HitInPrefix(p, a, s[pos..], k);
      }
    }
  }

  /** Rewrite the text in place until the prefix is gone; this amounts to one left-to-right pass. */
  method RedactPrefix(prefix: string, text: string) returns (result: string)
    requires prefix != "" && Literal(prefix).Foreign()
    ensures result == KeyPass(prefix, text)
  {
    result := text;
    ghost var done, rest := "", text;
    var p := Literal(prefix);
    var pos := FirstHit(p, result, 0);
    while pos < |result|
      invariant result == done + rest && pos == FirstHit(p, result, 0)
      invariant forall k :: 0 <= k < |done| ==> !HitAt(p, result, k)
      invariant KeyPass(prefix, text) == done + KeyPass(prefix, rest)
      decreases |rest|
    {
      var tokenEnd := TokenEnd(prefix, result, pos);
      MarkedPrefixIsClean(p, result, pos, result[tokenEnd..]);
      KeyPassStep(prefix, done, rest, pos);
      done, rest := result[..pos] + MARK, result[tokenEnd..];
      result := result[..pos] + MARK + result[tokenEnd..];
      pos := FirstHit(p, result, 0);
    }
    FirstHitInSuffix(p, done, rest);
  }

  lemma KeyPassStep(prefix: string, done: string, rest: string, pos: nat)
    requires prefix != "" && forall k :: 0 <= k < |done| ==> !HitAt(Literal(prefix), done + rest, k)
    requires pos == FirstHit(Literal(prefix), done + rest, 0) < |done + rest|
    ensures var result := done + rest;
            var end := TokenEnd(prefix, result, pos);
            && done + KeyPass(prefix, rest) == result[..pos] + MARK + KeyPass(prefix, result[end..])
            && |result| - end < |rest|
  {
    FirstHitInSuffix(Literal(prefix), done, rest);
    var at := pos - |done|;
    TokenEndInSuffix(prefix, done, rest, at);
    var end := TokenEnd(prefix, rest, at);
    SliceSum(done, rest, at, end);
    var result, tail := done + rest, KeyPass(prefix, rest[end..]);
    assert result[TokenEnd(prefix, result, pos)..] == rest[end..];
    calc {
      done + KeyPass(prefix, rest);
      { KeyPassUnfolds(prefix, rest, at, tail); }
      done + (rest[..at] + MARK + tail);
      { Regroup(done, rest[..at], MARK, tail); }
      done + rest[..at] + MARK + tail;
      result[..pos] + MARK + tail;
    }
  }

  lemma KeyPassUnfolds(prefix: string, s: string, pos: nat, tail: string)
    requires prefix != "" && pos == FirstHit(Literal(prefix), s, 0) < |s|
    requires tail == KeyPass(prefix, s[TokenEnd(prefix, s, pos)..])
    ensures KeyPass(prefix, s) == s[..pos] + MARK + tail
  {
  }

  lemma SliceSum(a: string, c: string, i: nat, j: nat)
    requires i <= |c| && j <= |c|
    ensures (a + c)[..|a| + i] == a + c[..i] && (a + c)[|a| + j..] == c[j..]
  {
  }

  lemma Regroup(a: string, b: string, c: string, d: string)
    ensures a + (b + c + d) == a + b + c + d
  {
  }

  lemma FreeUnchangedByKeyPass(prefix: string, s: string)
    requires prefix != "" && Free(Literal(prefix), s)
    ensures KeyPass(prefix, s) == s
  {
  }

  /** A key pass leaves no hit of its prefix. */
  lemma {:induction false} KeyPassCleans(prefix: string, s: string)
    requires prefix != "" && Literal(prefix).Foreign()
    ensures Free(Literal(prefix), KeyPass(prefix, s))
    decreases |s|
  {
    var p := Literal(prefix);
    var pos := FirstHit(p, s, 0);
    if pos == |s| {
      forall k: nat ensures !HitAt(p, s, k) {
      }
    } else {
      var tail := s[TokenEnd(prefix, s, pos)..];
      KeyPassCleans(prefix, tail);
      MarkedPrefixIsClean(p, s, pos, KeyPass(prefix, tail));
      forall k: nat ensures !HitAt(p, s[..pos] + MARK + KeyPass(prefix, tail), k) {
        if HitAt(p, s[..pos] + MARK + KeyPass(prefix, tail), k) {
          HitsAroundMark(p, s[..pos], KeyPass(prefix, tail), k);
        }
      }
    }
  }

  lemma {:induction false} KeyPassKeepsFree(q: Pattern, prefix: string, s: string)
    requires prefix != "" && q.Foreign() && Free(q, s)
    ensures Free(q, KeyPass(prefix, s))
    decreases |s|
  {
    var pos := FirstHit(Literal(prefix), s, 0);
    if pos < |s| {
      var end := TokenEnd(prefix, s, pos);
      assert s == s[..end] + s[end..] && s == s[..pos] + s[pos..];
      forall k: nat ensures !HitAt(q, s[end..], k) {
        if HitAt(q, s[end..], k) {
          HitInSuffix(q, s[..end], s[end..], k);
        }
      }
      KeyPassKeepsFree(q, prefix, s[end..]);
      var tail := KeyPass(prefix, s[end..]);
      forall k: nat ensures !HitAt(q, s[..pos] + MARK + tail, k) {
        if HitAt(q, s[..pos] + MARK + tail, k) {
          HitsAroundMark(q, s[..pos], tail, k);
          if k + q.Width() <= pos && HitAt(q, s[..pos], k) {
            HitInPrefix(q, s[..pos], s[pos..], k);
          }
        }
      }
    }
  }

  // ---------------------------------------------------------------- social security numbers

  /** Mark every number met from left to right. */
  function SsnPass(s: string): string {
    if s == "" then ""
    else if HitAt(Ssn, s, 0) then MARK + SsnPass(s[11..])
    else [s[0]] + SsnPass(s[1..])
  }

  method RedactSsn(text: string) returns (result: string)
    ensures result == SsnPass(text)
  {
    if |text| < 11 {
      ShortTextHasNoSsn(text);
      return text;
    }
    result := "";
    var i := 0;
    while i < |text|
      invariant 0 <= i <= |text| && result + SsnPass(text[i..]) == SsnPass(text)
    {
      SsnPassFrom(text, i, result);
      if HitAt(Ssn, text, i) {
        result := result + MARK;
        i := i + 11;
      } else {
        result := result + [text[i]];
        i := i + 1;
      }
    }
  }

  lemma SsnPassFrom(text: string, i: nat, result: string)
    requires i < |text|
    ensures result + SsnPass(text[i..])
            == if HitAt(Ssn, text, i) then result + MARK + SsnPass(text[i + 11..])
               else result + [text[i]] + SsnPass(text[i + 1..])
  {
    assert text == text[..i] + text[i..];
    HitInSuffix(Ssn, text[..i], text[i..], 0);
    if HitAt(Ssn, text, i) {
      assert text[i..][11..] == text[i + 11..];
      assert result + (MARK + SsnPass(text[i + 11..])) == result + MARK + SsnPass(text[i + 11..]);
    } else {
      assert text[i..][1..] == text[i + 1..];
      assert result + ([text[i]] + SsnPass(text[i + 1..])) == result + [text[i]] + SsnPass(text[i + 1..]);
    }
  }

  lemma {:induction false} ShortTextHasNoSsn(s: string)
    requires |s| < 11
    ensures SsnPass(s) == s
  {
    if s != "" {
      ShortTextHasNoSsn(s[1..]);
    }
  }

  /** Up to its first opening bracket, the output is the input. */
  lemma {:induction false} SsnPassStart(s: string, n: nat)
    requires n <= |SsnPass(s)| && '[' !in SsnPass(s)[..n]
    ensures n <= |s| && SsnPass(s)[..n] == s[..n]
  {
    if n > 0 {
      assert SsnPass(s)[0] == SsnPass(s)[..n][0];
      if HitAt(Ssn, s, 0) {
        assert false;
      }
      var out := SsnPass(s[1..]);
      assert SsnPass(s)[..n] == [s[0]] + out[..n - 1];
      SsnPassStart(s[1..], n - 1);
      assert s[..n] == [s[0]] + s[1..][..n - 1];
    }
  }

  /** A hit at the front of the output was at the front of the input. */
  lemma HitAtFront(q: Pattern, s: string)
    requires q.Foreign() && HitAt(q, SsnPass(s), 0)
    ensures HitAt(q, s, 0)
  {
    var n := q.Width();
    assert SsnPass(s)[..n] == SsnPass(s)[0..n];
    ForeignHit(q, SsnPass(s)[..n]);
    SsnPassStart(s, n);
    assert s[0..n] == s[..n];
  }

  lemma MarkThenFree(q: Pattern, rest: string)
    requires q.Foreign() && Free(q, rest)
    ensures Free(q, MARK + rest)
  {
    assert "" + MARK + rest == MARK + rest;
    forall k: nat ensures !HitAt(q, MARK + rest, k) {
      if HitAt(q, MARK + rest, k) {
        HitsAroundMark(q, "", rest, k);
        assert false;
      }
    }
  }

  lemma CharThenFree(q: Pattern, c: char, rest: string)
    requires Free(q, rest) && !HitAt(q, [c] + rest, 0)
    ensures Free(q, [c] + rest)
  {
    forall k: nat ensures !HitAt(q, [c] + rest, k) {
      if k > 0 {
        HitInSuffix(q, [c], rest, k - 1);
      }
    }
  }

  lemma {:induction false} SsnPassCleans(s: string)
    ensures Free(Ssn, SsnPass(s))
  {
    if s != "" {
      if HitAt(Ssn, s, 0) {
        SsnPassCleans(s[11..]);
        MarkThenFree(Ssn, SsnPass(s[11..]));
      } else {
        SsnPassCleans(s[1..]);
        NoHitAtFront(Ssn, s);
        CharThenFree(Ssn, s[0], SsnPass(s[1..]));
      }
    }
  }

  lemma NoHitAtFront(q: Pattern, s: string)
    requires q.Foreign() && !HitAt(q, s, 0)
    ensures !HitAt(q, SsnPass(s), 0)
  {
    if HitAt(q, SsnPass(s), 0) {
      HitAtFront(q, s);
    }
  }

  lemma {:induction false} SsnPassKeepsFree(q: Pattern, s: string)
    requires q.Foreign() && Free(q, s)
    ensures Free(q, SsnPass(s))
  {
    if s == "" {
    } else if HitAt(Ssn, s, 0) {
      FreeSuffix(q, s, 11);
      SsnPassKeepsFree(q, s[11..]);
      MarkThenFree(q, SsnPass(s[11..]));
    } else {
      FreeSuffix(q, s, 1);
      SsnPassKeepsFree(q, s[1..]);
      NoHitAtFront(q, s);
      CharThenFree(q, s[0], SsnPass(s[1..]));
    }
  }

  lemma FreeSuffix(q: Pattern, s: string, n: nat)
    requires Free(q, s) && n <= |s|
    ensures Free(q, s[n..])
  {
    assert s == s[..n] + s[n..];
    forall k: nat ensures !HitAt(q, s[n..], k) {
      HitInSuffix(q, s[..n], s[n..], k);
    }
  }

  lemma {:induction false} FreeUnchangedBySsnPass(s: string)
    requires Free(Ssn, s)
    ensures SsnPass(s) == s
  {
    if s != "" {
      FreeSuffix(Ssn, s, 1);
      FreeUnchangedBySsnPass(s[1..]);
    }
  }
}
