/**
 How much of a key a key pass removes: all of the token that starts with the prefix, or only
 part of it.
 */
module KeyTokens {
  import opened OutputFilter

  /** Where the text directly after the prefix found at `pos` next has whitespace, or ends. */
  function RunEnd(prefix: string, s: string, pos: nat): (end: nat)
    requires pos + |prefix| <= |s|
    ensures pos + |prefix| <= end <= |s|
  {
    FirstWhitespace(s, pos + |prefix|)
  }

  /** The pass that marks every prefix together with all that follows it up to whitespace. */
  function WholePass(prefix: string, s: string): string
    requires prefix != ""
    decreases |s|
  {
    var pos := FirstHit(Literal(prefix), s, 0);
    if pos == |s| then s
    else s[..pos] + MARK + WholePass(prefix, s[RunEnd(prefix, s, pos)..])
  }

  predicate Blank(s: string, i: nat, j: nat)
    requires i <= j <= |s|
  {
    exists k :: i <= k < j && IsWhitespace(s[k])
  }

  /**
   Something of the key found at `h` is left over: the prefix has whitespace of its own and text
   follows it directly, or no whitespace follows at all and there are more than twenty characters.
   */
  predicate LeavesRest(prefix: string, s: string, h: nat)
    requires h + |prefix| <= |s|
  {
    if Blank(prefix, 0, |prefix|) then h + |prefix| < |s| && !IsWhitespace(s[h + |prefix|])
    else !Blank(s, h, |s|) && |s| - h > |prefix| + 20
  }

  lemma {:induction false} FirstWhitespaceExactly(s: string, i: nat)
    requires i <= |s|
    ensures var w := FirstWhitespace(s, i);
            !Blank(s, i, w) && (w < |s| ==> IsWhitespace(s[w]))
    decreases |s| - i
  {
    if i < |s| && !IsWhitespace(s[i]) {
      FirstWhitespaceExactly(s, i + 1);
    }
  }

  lemma WhitespaceIsFirst(s: string, i: nat, w: nat)
    requires i <= w <= |s| && !Blank(s, i, w) && (w < |s| ==> IsWhitespace(s[w]))
    ensures FirstWhitespace(s, i) == w
  {
    FirstWhitespaceExactly(s, i);
  }

  lemma PrefixInText(prefix: string, s: string, h: nat)
    requires HitAt(Literal(prefix), s, h)
    ensures forall k :: 0 <= k < |prefix| ==> s[h + k] == prefix[k]
  {
    assert s[h..h + |prefix|] == prefix;
  }

  /** Whitespace inside the prefix cuts the token off right behind the prefix. */
  lemma CutAtPrefix(prefix: string, s: string, h: nat)
    requires HitAt(Literal(prefix), s, h) && Blank(prefix, 0, |prefix|)
    ensures TokenEnd(prefix, s, h) == h + |prefix|
  {
    PrefixInText(prefix, s, h);
    FirstWhitespaceExactly(s, h);
    var k :| 0 <= k < |prefix| && IsWhitespace(prefix[k]);
    assert IsWhitespace(s[h + k]);
  }

  /** Without whitespace in the prefix the search for it may as well start behind. */
  lemma SearchBehind(prefix: string, s: string, h: nat)
    requires HitAt(Literal(prefix), s, h) && !Blank(prefix, 0, |prefix|)
    ensures FirstWhitespace(s, h) == RunEnd(prefix, s, h)
  {
    var w := RunEnd(prefix, s, h);
    PrefixInText(prefix, s, h);
    FirstWhitespaceExactly(s, h + |prefix|);
    forall k | h <= k < w ensures !IsWhitespace(s[k]) {
      if k < h + |prefix| {
        assert s[k] == prefix[k - h];
      }
    }
    WhitespaceIsFirst(s, h, w);
  }

  /** A token is cut short exactly in those two cases. */
  lemma TokenIsWholeExactly(prefix: string, s: string, h: nat)
    requires HitAt(Literal(prefix), s, h)
    ensures TokenEnd(prefix, s, h) <= RunEnd(prefix, s, h)
    ensures TokenEnd(prefix, s, h) == RunEnd(prefix, s, h) <==> !LeavesRest(prefix, s, h)
  {
    FirstWhitespaceExactly(s, h + |prefix|);
    if Blank(prefix, 0, |prefix|) {
      CutAtPrefix(prefix, s, h);
    } else {
      SearchBehind(prefix, s, h);
      FirstWhitespaceExactly(s, h);
    }
  }

  // ---------------------------------------------------------------- whole texts

  /** The prefix starts with text, and no second hit starts inside one that holds whitespace. */
  predicate Tidy(prefix: string) {
    && prefix != "" && !IsWhitespace(prefix[0])
    && (Blank(prefix, 0, |prefix|) ==> forall k :: 0 < k < |prefix| ==> prefix[k] != prefix[0])
  }

  lemma StartsWithText(prefix: string, s: string)
    requires prefix != "" && s != "" && !IsWhitespace(s[0])
    ensures KeyPass(prefix, s) != "" && !IsWhitespace(KeyPass(prefix, s)[0])
  {
  }

  lemma StartsBlank(prefix: string, s: string)
    requires Tidy(prefix) && (s == "" || IsWhitespace(s[0]))
    ensures WholePass(prefix, s) == "" || IsWhitespace(WholePass(prefix, s)[0])
  {
    var pos := FirstHit(Literal(prefix), s, 0);
    if pos < |s| {
      PrefixInText(prefix, s, pos);
    }
  }

  lemma SameFront(a: string, x: string, y: string)
    ensures a + x == a + y <==> x == y
  {
    if a + x == a + y {
      assert (a + x)[|a|..] == x && (a + y)[|a|..] == y;
    }
  }

  /** The text behind a token cut short starts with a character of the key. */
  lemma CutShort(prefix: string, s: string, pos: nat)
    requires HitAt(Literal(prefix), s, pos) && LeavesRest(prefix, s, pos)
    ensures var e, w := TokenEnd(prefix, s, pos), RunEnd(prefix, s, pos);
            && e < |s| && !IsWhitespace(s[e])
            && (w < |s| ==> IsWhitespace(s[w]))
  {
    TokenIsWholeExactly(prefix, s, pos);
    FirstWhitespaceExactly(s, pos + |prefix|);
  }

  lemma DifferentRests(prefix: string, front: string, t: string, u: string)
    requires Tidy(prefix) && t != "" && !IsWhitespace(t[0]) && (u == "" || IsWhitespace(u[0]))
    ensures front + KeyPass(prefix, t) != front + WholePass(prefix, u)
  {
    StartsWithText(prefix, t);
    StartsBlank(prefix, u);
    SameFront(front, KeyPass(prefix, t), WholePass(prefix, u));
  }

  /** What is left over of the first key shows. */
  lemma RestShows(prefix: string, s: string, pos: nat)
    requires Tidy(prefix) && pos == FirstHit(Literal(prefix), s, 0) < |s| && LeavesRest(prefix, s, pos)
    ensures KeyPass(prefix, s) != WholePass(prefix, s)
  {
    CutShort(prefix, s, pos);
    DifferentRests(prefix, s[..pos] + MARK, s[TokenEnd(prefix, s, pos)..], s[RunEnd(prefix, s, pos)..]);
  }

  /** No hit starts inside one that holds whitespace. */
  lemma NoInnerHit(prefix: string, s: string, pos: nat, h: nat)
    requires Tidy(prefix) && Blank(prefix, 0, |prefix|) && HitAt(Literal(prefix), s, pos) && pos < h < pos + |prefix|
    ensures !HitAt(Literal(prefix), s, h)
  {
    PrefixInText(prefix, s, pos);
    assert s[h] == prefix[h - pos];
    if h + |prefix| <= |s| {
      assert s[h..h + |prefix|][0] == s[h];
    }
  }

  /** A hit inside a token removed whole leaves nothing over either. */
  lemma InnerHitIsWhole(prefix: string, s: string, pos: nat, h: nat)
    requires !Blank(prefix, 0, |prefix|) && HitAt(Literal(prefix), s, pos) && !LeavesRest(prefix, s, pos)
    requires pos < h < TokenEnd(prefix, s, pos) && HitAt(Literal(prefix), s, h)
    ensures !LeavesRest(prefix, s, h)
  {
    TokenIsWholeExactly(prefix, s, pos);
    SearchBehind(prefix, s, pos);
    FirstWhitespaceExactly(s, pos);
    if Blank(s, pos, |s|) {
      var w := FirstWhitespace(s, pos);
      assert h < w < |s| && IsWhitespace(s[w]);
    }
  }

  lemma InnerHitsAreWhole(prefix: string, s: string, pos: nat, h: nat)
    requires Tidy(prefix) && HitAt(Literal(prefix), s, pos) && !LeavesRest(prefix, s, pos)
    requires pos < h < TokenEnd(prefix, s, pos)
    ensures HitAt(Literal(prefix), s, h) ==> !LeavesRest(prefix, s, h)
  {
    if Blank(prefix, 0, |prefix|) {
      CutAtPrefix(prefix, s, pos);
      NoInnerHit(prefix, s, pos, h);
    } else if HitAt(Literal(prefix), s, h) {
      InnerHitIsWhole(prefix, s, pos, h);
    }
  }

  lemma RestInSuffix(prefix: string, a: string, c: string, h: nat)
    requires h + |prefix| <= |c|
    ensures LeavesRest(prefix, a + c, |a| + h) <==> LeavesRest(prefix, c, h)
  {
    var s := a + c;
    if Blank(c, h, |c|) {
      var k :| h <= k < |c| && IsWhitespace(c[k]);
      assert IsWhitespace(s[|a| + k]);
    }
    if Blank(s, |a| + h, |s|) {
      var k :| |a| + h <= k < |s| && IsWhitespace(s[k]);
      assert IsWhitespace(c[k - |a|]);
    }
  }

  /** No key in the text leaves anything over. */
  ghost predicate AllWhole(prefix: string, s: string) {
    forall h: nat :: WholeAt(prefix, s, h)
  }

  /** The key at `h`, if there is one, leaves nothing over. */
  ghost predicate WholeAt(prefix: string, s: string, h: nat) {
    HitAt(Literal(prefix), s, h) ==> !LeavesRest(prefix, s, h)
  }

  lemma WholeInSuffix(prefix: string, s: string, e: nat, h: nat)
    requires e <= |s|
    ensures WholeAt(prefix, s, e + h) <==> WholeAt(prefix, s[e..], h)
  {
    assert s == s[..e] + s[e..];
    HitInSuffix(Literal(prefix), s[..e], s[e..], h);
    if HitAt(Literal(prefix), s[e..], h) {
      RestInSuffix(prefix, s[..e], s[e..], h);
    }
  }

  lemma WholeBehind(prefix: string, s: string, e: nat, h: nat)
    requires e <= |s| && AllWhole(prefix, s)
    ensures WholeAt(prefix, s[e..], h)
  {
    var k := e + h;
    assert WholeAt(prefix, s, k);
    WholeInSuffix(prefix, s, e, h);
  }

  lemma WholeUpTo(prefix: string, s: string, pos: nat, h: nat)
    requires Tidy(prefix) && pos == FirstHit(Literal(prefix), s, 0) < |s| && !LeavesRest(prefix, s, pos)
    requires h < TokenEnd(prefix, s, pos)
    ensures WholeAt(prefix, s, h)
  {
    if h < pos {
      assert !HitAt(Literal(prefix), s, h);
    } else if h == pos {
      assert WholeAt(prefix, s, pos);
    } else {
      InnerHitsAreWhole(prefix, s, pos, h);
    }
  }

  lemma WholeAhead(prefix: string, s: string, e: nat, h: nat)
    requires e <= |s| && e <= h && AllWhole(prefix, s[e..])
    ensures WholeAt(prefix, s, h)
  {
    var k := h - e;
    assert WholeAt(prefix, s[e..], k);
    WholeInSuffix(prefix, s, e, k);
  }

  lemma AllWholeBehind(prefix: string, s: string, pos: nat)
    requires Tidy(prefix) && pos == FirstHit(Literal(prefix), s, 0) < |s| && !LeavesRest(prefix, s, pos)
    ensures AllWhole(prefix, s) <==> AllWhole(prefix, s[TokenEnd(prefix, s, pos)..])
  {
    var e := TokenEnd(prefix, s, pos);
    if AllWhole(prefix, s) {
      forall h: nat ensures WholeAt(prefix, s[e..], h) {
        WholeBehind(prefix, s, e, h);
      }
    } else if AllWhole(prefix, s[e..]) {
      forall h: nat ensures WholeAt(prefix, s, h) {
        if h < e {
          WholeUpTo(prefix, s, pos, h);
        } else {
          WholeAhead(prefix, s, e, h);
        }
      }
    }
  }

  /** The pass removes every key up to the next whitespace exactly when no key leaves anything over. */
  lemma {:induction false} KeysGoWholeExactly(prefix: string, s: string)
    requires Tidy(prefix)
    ensures KeyPass(prefix, s) == WholePass(prefix, s) <==> AllWhole(prefix, s)
    decreases |s|
  {
    var pos := FirstHit(Literal(prefix), s, 0);
    if pos == |s| {
      forall h: nat ensures WholeAt(prefix, s, h) {
      }
    } else if LeavesRest(prefix, s, pos) {
      RestShows(prefix, s, pos);
      assert !WholeAt(prefix, s, pos);
    } else {
      var e := TokenEnd(prefix, s, pos);
      TokenIsWholeExactly(prefix, s, pos);
      KeysGoWholeExactly(prefix, s[e..]);
      AllWholeBehind(prefix, s, pos);
      SameFront(s[..pos] + MARK, KeyPass(prefix, s[e..]), WholePass(prefix, s[e..]));
    }
  }

  /** All listed prefixes are of that kind; only `"Bearer "` has whitespace of its own. */
  lemma ListedPrefixes(j: nat)
    requires j < KEY_COUNT
    ensures Tidy(KeyPrefix(j)) && (Blank(KeyPrefix(j), 0, |KeyPrefix(j)|) <==> j == 8)
  {
    var p := KeyPrefix(j);
    if j == 8 {
      assert IsWhitespace(p[6]);
    }
  }

  /** For every listed prefix and every text. */
  lemma ListedKeysGoWholeExactly(j: nat, s: string)
    requires j < KEY_COUNT
    ensures KeyPrefix(j) != ""
    ensures KeyPass(KeyPrefix(j), s) == WholePass(KeyPrefix(j), s) <==> AllWhole(KeyPrefix(j), s)
  {
    ListedPrefixes(j);
    KeysGoWholeExactly(KeyPrefix(j), s);
  }

  lemma HitAtStart(prefix: string, t: string)
    requires prefix != ""
    ensures FirstHit(Literal(prefix), prefix + t, 0) == 0 && HitAt(Literal(prefix), prefix + t, 0)
  {
    assert (prefix + t)[0..|prefix|] == prefix;
  }

  /** A bearer token survives: only the word before it is marked. */
  lemma BearerTokenSurvives(t: string)
    ensures KeyPass("Bearer ", "Bearer " + t) == MARK + KeyPass("Bearer ", t)
  {
    assert IsWhitespace("Bearer "[6]);
    PrefixOnly("Bearer ", t);
  }

  lemma PrefixOnly(prefix: string, t: string)
    requires Blank(prefix, 0, |prefix|)
    ensures KeyPass(prefix, prefix + t) == MARK + KeyPass(prefix, t)
  {
    var s := prefix + t;
    HitAtStart(prefix, t);
    CutAtPrefix(prefix, s, 0);
    assert s[|prefix|..] == t && s[..0] + MARK == MARK;
  }

  /** Of a key with no whitespace behind it, all but twenty characters survive. */
  lemma LongKeySurvives(prefix: string, t: string)
    requires prefix != "" && !Blank(prefix + t, 0, |prefix + t|) && |t| > 20
    ensures KeyPass(prefix, prefix + t) == MARK + KeyPass(prefix, t[20..])
  {
    var s := prefix + t;
    HitAtStart(prefix, t);
    WhitespaceIsFirst(s, 0, |s|);
    assert s[|prefix| + 20..] == t[20..] && s[..0] + MARK == MARK;
  }
}
