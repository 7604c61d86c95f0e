/**
 Topic matching with wildcards: `*` stands for one segment, `#` for any number.
 The matcher gives up beyond a fixed recursion depth; its answer is characterised exactly.
 */
module PubSub {

  const MAX_MATCH_DEPTH: nat := 32
  const BUFFER_SLOTS: nat := 16

  // ---------------------------------------------------------------- meaning

  /** What a single pattern segment may stand for. */
  ghost predicate StandsFor(segment: string, part: seq<string>) {
    if segment == "#" then true
    else if segment == "*" then |part| == 1
    else part == [segment]
  }

  ghost function Flatten(parts: seq<seq<string>>): seq<string> {
    if parts == [] then [] else parts[0] + Flatten(parts[1..])
  }

  /** `parts` splits the topic into consecutive pieces, one for each pattern segment. */
  ghost predicate Aligns(pattern: seq<string>, topic: seq<string>, parts: seq<seq<string>>) {
    && |parts| == |pattern| && Flatten(parts) == topic
    && forall i :: 0 <= i < |pattern| ==> StandsFor(pattern[i], parts[i])
  }

  ghost predicate Denotes(pattern: seq<string>, topic: seq<string>) {
    exists parts :: Aligns(pattern, topic, parts)
  }

  /** The patterns the matcher can follow to their end, starting at a given depth. */
  predicate WithinDepth(pattern: seq<string>, depth: nat) {
    || depth + |pattern| <= MAX_MATCH_DEPTH
    || (depth + |pattern| == MAX_MATCH_DEPTH + 1 && pattern != [] && pattern[|pattern| - 1] == "#")
  }

  // ---------------------------------------------------------------- the matcher

  predicate MatchesInner(pattern: seq<string>, topic: seq<string>, depth: nat)
    decreases |pattern|
  {
    if depth > MAX_MATCH_DEPTH then false
    else if pattern == [] then topic == []
    else if pattern[0] == "#" then
      |pattern| == 1 || exists i :: 0 <= i <= |topic| && MatchesInner(pattern[1..], topic[i..], depth + 1)
    else if topic == [] then forall i :: 0 <= i < |pattern| ==> pattern[i] == "#"
    else if pattern[0] == "*" then MatchesInner(pattern[1..], topic[1..], depth + 1)
    else pattern[0] == topic[0] && MatchesInner(pattern[1..], topic[1..], depth + 1)
  }

  /** Reading the meaning off the first pattern segment. */
  lemma DenotesStep(pattern: seq<string>, topic: seq<string>)
    requires pattern != []
    ensures Denotes(pattern, topic)
            <==> exists k :: 0 <= k <= |topic| && StandsFor(pattern[0], topic[..k]) && Denotes(pattern[1..], topic[k..])
  {
    if Denotes(pattern, topic) {
      var parts :| Aligns(pattern, topic, parts);
      var k := |parts[0]|;
      assert topic[..k] == parts[0] && topic[k..] == Flatten(parts[1..]);
      assert Aligns(pattern[1..], topic[k..], parts[1..]);
    }
    if k :| 0 <= k <= |topic| && StandsFor(pattern[0], topic[..k]) && Denotes(pattern[1..], topic[k..]) {
      var rest :| Aligns(pattern[1..], topic[k..], rest);
      var parts := [topic[..k]] + rest;
      assert parts[1..] == rest;
      assert forall i :: 0 < i < |pattern| ==> pattern[i] == pattern[1..][i - 1] && parts[i] == rest[i - 1];
      assert Aligns(pattern, topic, parts);
    }
  }

  lemma DenotesEmpty(topic: seq<string>)
    ensures Denotes([], topic) <==> topic == []
  {
    if topic == [] {
      assert Aligns([], topic, []);
    }
  }

  lemma TrailingHash(topic: seq<string>)
    ensures Denotes(["#"], topic)
  {
    assert Flatten([topic]) == topic;
    assert Aligns(["#"], topic, [topic]);
  }

  /** A segment that is not `#` stands for exactly the first topic segment. */
  lemma SingleSegmentStep(pattern: seq<string>, topic: seq<string>)
    requires pattern != [] && pattern[0] != "#"
    ensures Denotes(pattern, topic)
            <==> topic != [] && (pattern[0] == "*" || pattern[0] == topic[0]) && Denotes(pattern[1..], topic[1..])
  {
    DenotesStep(pattern, topic);
    if topic != [] {
      assert topic[..1] == [topic[0]];
    }
    if k :| 0 <= k <= |topic| && StandsFor(pattern[0], topic[..k]) && Denotes(pattern[1..], topic[k..]) {
      assert k == |topic[..k]| == 1;
    }
  }

  /**
   The matcher answers yes exactly when the pattern denotes the topic and is short enough:
   sound for every input, complete up to 32 segments, and at 33 only for a trailing `#`.
   */
  lemma {:induction false} MatcherExactly(pattern: seq<string>, topic: seq<string>, depth: nat)
    ensures MatchesInner(pattern, topic, depth) <==> Denotes(pattern, topic) && WithinDepth(pattern, depth)
    decreases |pattern|
  {
    if depth > MAX_MATCH_DEPTH {
    } else if pattern == [] {
      DenotesEmpty(topic);
    } else if pattern == ["#"] {
      TrailingHash(topic);
    } else if pattern[0] == "#" {
      DenotesStep(pattern, topic);
      assert pattern[1..][|pattern| - 2] == pattern[|pattern| - 1];
      forall i | 0 <= i <= |topic|
        ensures MatchesInner(pattern[1..], topic[i..], depth + 1)
                <==> Denotes(pattern[1..], topic[i..]) && WithinDepth(pattern[1..], depth + 1)
      {
        MatcherExactly(pattern[1..], topic[i..], depth + 1);
      }
    } else {
      SingleSegmentStep(pattern, topic);
      if topic != [] {
        MatcherExactly(pattern[1..], topic[1..], depth + 1);
        assert |pattern| > 1 ==> pattern[1..][|pattern| - 2] == pattern[|pattern| - 1];
      }
    }
  }

  // ---------------------------------------------------------------- whole strings

  lemma {:induction false} LiteralDenotesItself(pattern: seq<string>)
    requires forall i :: 0 <= i < |pattern| ==> pattern[i] != "#"
    ensures Denotes(pattern, pattern)
  {
    if pattern == [] {
      DenotesEmpty([]);
    } else {
      SingleSegmentStep(pattern, pattern);
      LiteralDenotesItself(pattern[1..]);
    }
  }

  /** Thirty-three plain segments mean their own topic but do not match it. */
  lemma DeepTopicIsMissed(segment: string)
    requires segment != "#"
    ensures var deep := seq(33, _ => segment); Denotes(deep, deep) && !MatchesInner(deep, deep, 0)
  {
    var deep := seq(33, _ => segment);
    LiteralDenotesItself(deep);
    MatcherExactly(deep, deep, 0);
  }

  /** Split at every `'.'`; the empty string is one empty segment. */
  function Split(s: string): (segments: seq<string>)
    ensures segments != []
  {
    if s == "" then [""]
    else
      var rest := Split(s[1..]);
      if s[0] == '.' then [""] + rest else [[s[0]] + rest[0]] + rest[1..]
  }

  ghost function Join(segments: seq<string>): string
    requires segments != []
  {
    if |segments| == 1 then segments[0] else segments[0] + "." + Join(segments[1..])
  }

  /** Segments contain no dot and, joined by dots, give the string back. */
  lemma {:induction false} SplitExactly(s: string)
    ensures Join(Split(s)) == s
    ensures forall i :: 0 <= i < |Split(s)| ==> '.' !in Split(s)[i]
  {
    if s != "" {
      SplitExactly(s[1..]);
      var rest := Split(s[1..]);
      assert s == [s[0]] + s[1..];
      if s[0] != '.' {
        var all := [[s[0]] + rest[0]] + rest[1..];
        assert all[1..] == rest[1..];
        if |rest| > 1 {
          assert Join(all) == ([s[0]] + rest[0]) + "." + Join(rest[1..]);
        }
      } else {
        assert ([""] + rest)[1..] == rest;
      }
    }
  }

  /** Fill a fixed buffer with the segments. */
  method FillBuffer(segments: seq<string>, buffer: array<string>)
    requires |segments| <= buffer.Length
    modifies buffer
    ensures buffer[..|segments|] == segments
  {
    for i := 0 to |segments|
      invariant buffer[..i] == segments[..i]
    {
      buffer[i] := segments[i];
      assert segments[..i + 1] == segments[..i] + [segments[i]];
    }
    assert segments[..|segments|] == segments;
  }

  /** Short inputs go through fixed buffers, long ones through the heap; both give the same answer. */
  method MatchesPattern(pattern: string, topic: string) returns (matched: bool)
    ensures matched <==> Denotes(Split(pattern), Split(topic)) && WithinDepth(Split(pattern), 0)
  {
    var patternSegments, topicSegments := Split(pattern), Split(topic);
    if |patternSegments| <= BUFFER_SLOTS && |topicSegments| <= BUFFER_SLOTS {
      var patternBuffer := new string[BUFFER_SLOTS](_ => "");
      var topicBuffer := new string[BUFFER_SLOTS](_ => "");
      FillBuffer(patternSegments, patternBuffer);
      FillBuffer(topicSegments, topicBuffer);
      matched := MatchesInner(patternBuffer[..|patternSegments|], topicBuffer[..|topicSegments|], 0);
    } else {
      matched := MatchesInner(patternSegments, topicSegments, 0);
    }
    MatcherExactly(patternSegments, topicSegments, 0);
  }

  // ---------------------------------------------------------------- the matcher in plain terms

  /** Complete for patterns of up to 32 segments; at 33 with a trailing `#`; never beyond. */
  lemma MatchesUpTo32(pattern: seq<string>, topic: seq<string>)
    ensures |pattern| <= 32 ==> (MatchesInner(pattern, topic, 0) <==> Denotes(pattern, topic))
    ensures |pattern| == 33 ==>
              (MatchesInner(pattern, topic, 0) <==> pattern[32] == "#" && Denotes(pattern, topic))
    ensures |pattern| > 33 ==> !MatchesInner(pattern, topic, 0)
  {
    MatcherExactly(pattern, topic, 0);
  }

  /** A segment that is no wildcard stands for itself. */
  ghost predicate IsPlain(p: seq<string>) {
    forall k :: 0 <= k < |p| ==> p[k] != "#" && p[k] != "*"
  }

  lemma {:induction false} PlainThen(p: seq<string>, rest: seq<string>, topic: seq<string>)
    requires IsPlain(p)
    ensures Denotes(p + rest, topic) <==> p <= topic && Denotes(rest, topic[|p|..])
    decreases |p|
  {
    if p == [] {
      assert p + rest == rest && topic[0..] == topic;
    } else {
      var all := p + rest;
      assert all[0] == p[0] && all[1..] == p[1..] + rest;
      SingleSegmentStep(all, topic);
      if topic != [] && topic[0] == p[0] {
        PlainThen(p[1..], rest, topic[1..]);
        assert topic == [topic[0]] + topic[1..] && p == [p[0]] + p[1..];
        if p[1..] <= topic[1..] {
          assert p <= topic && topic[1..][|p| - 1..] == topic[|p|..];
        }
      }
    }
  }

  /** Plain segments match themselves only; with `*` behind, one more segment; with `#` behind, any continuation. */
  lemma WildcardsExactly(p: seq<string>, topic: seq<string>)
    requires IsPlain(p) && |p| < 32
    ensures MatchesInner(p, topic, 0) <==> topic == p
    ensures MatchesInner(p + ["*"], topic, 0) <==> p <= topic && |topic| == |p| + 1
    ensures MatchesInner(p + ["#"], topic, 0) <==> p <= topic
  {
    MatchesUpTo32(p, topic);
    MatchesUpTo32(p + ["*"], topic);
    MatchesUpTo32(p + ["#"], topic);
    assert p + [] == p;
    PlainThen(p, [], topic);
    PlainThen(p, ["*"], topic);
    PlainThen(p, ["#"], topic);
    if p <= topic {
      var rest := topic[|p|..];
      DenotesEmpty(rest);
      OneStar(rest);
      TrailingHash(rest);
      assert rest == [] ==> topic == p;
    }
  }

  lemma OneStar(topic: seq<string>)
    ensures Denotes(["*"], topic) <==> |topic| == 1
  {
    SingleSegmentStep(["*"], topic);
    assert ["*"][1..] == [];
    if topic != [] {
      DenotesEmpty(topic[1..]);
    }
  }

  /** A `#` between plain segments stands for any number of segments, none included. */
  lemma HashBetween(p: seq<string>, q: seq<string>, topic: seq<string>)
    requires IsPlain(p) && IsPlain(q) && |p| + |q| < 32
    ensures MatchesInner(p + (["#"] + q), topic, 0)
            <==> p <= topic && |p| + |q| <= |topic| && topic[|topic| - |q|..] == q
  {
    var pattern := p + (["#"] + q);
    MatchesUpTo32(pattern, topic);
    PlainThen(p, ["#"] + q, topic);
    if p <= topic {
      HashThen(q, topic[|p|..]);
      if |p| + |q| <= |topic| {
        assert topic[|p|..][|topic| - |p| - |q|..] == topic[|topic| - |q|..];
      }
    }
  }

  lemma HashThen(q: seq<string>, topic: seq<string>)
    requires IsPlain(q)
    ensures Denotes(["#"] + q, topic) <==> |q| <= |topic| && topic[|topic| - |q|..] == q
  {
    var all := ["#"] + q;
    assert all[1..] == q && q + [] == q;
    DenotesStep(all, topic);
    forall k | 0 <= k <= |topic| ensures Denotes(q, topic[k..]) <==> topic[k..] == q {
      PlainThen(q, [], topic[k..]);
      if q <= topic[k..] {
        DenotesEmpty(topic[k..][|q|..]);
      }
    }
    if |q| <= |topic| && topic[|topic| - |q|..] == q {
      assert StandsFor(all[0], topic[..|topic| - |q|]);
    }
  }
}
