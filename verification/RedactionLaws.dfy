/** Redaction in plain terms: the characters written out, without the scanner's own vocabulary. */
module RedactionLaws {
  import opened OutputFilter
  import opened KeyTokens
  import opened Emails
  import opened Redaction

  // ---------------------------------------------------------------- what is looked for

  /** Numbers are runs of eleven characters NNN-NN-NNNN. */
  lemma NumberExactly(s: string, k: nat)
    ensures HitAt(Ssn, s, k)
            <==> && k + 11 <= |s|
                 && '0' <= s[k] <= '9' && '0' <= s[k + 1] <= '9' && '0' <= s[k + 2] <= '9' && s[k + 3] == '-'
                 && '0' <= s[k + 4] <= '9' && '0' <= s[k + 5] <= '9' && s[k + 6] == '-'
                 && '0' <= s[k + 7] <= '9' && '0' <= s[k + 8] <= '9' && '0' <= s[k + 9] <= '9' && '0' <= s[k + 10] <= '9'
  {
    if k + 11 <= |s| {
      var w := s[k..k + 11];
      assert w[0] == s[k] && w[1] == s[k + 1] && w[2] == s[k + 2] && w[3] == s[k + 3] && w[4] == s[k + 4];
      assert w[5] == s[k + 5] && w[6] == s[k + 6] && w[7] == s[k + 7] && w[8] == s[k + 8];
      assert w[9] == s[k + 9] && w[10] == s[k + 10];
    }
  }

  lemma LiteralExactly(p: string, s: string, k: nat)
    ensures HitAt(Literal(p), s, k) <==> k <= |s| && p <= s[k..]
  {
    if k + |p| <= |s| {
      assert s[k..k + |p|] == s[k..][..|p|];
    }
  }

  /** The ten prefixes, in order. */
  lemma KeyList()
    ensures |KeyPrefixes()| == 10
    ensures var p := KeyPrefixes();
            && p[0] == "AKIA" && p[1] == "ASIA" && p[2] == "ghp_" && p[3] == "gho_" && p[4] == "ghs_"
            && p[5] == "ghr_" && p[6] == "github_pat_" && p[7] == "sk-" && p[8] == "Bearer " && p[9] == "xox"
  {
  }

  /** Keys are what starts with one of ten prefixes. */
  lemma KeyExactly(s: string, k: nat)
    requires k <= |s|
    ensures KeyAt(s, k)
            <==> || "AKIA" <= s[k..] || "ASIA" <= s[k..] || "ghp_" <= s[k..] || "gho_" <= s[k..] || "ghs_" <= s[k..]
                 || "ghr_" <= s[k..] || "github_pat_" <= s[k..] || "sk-" <= s[k..] || "Bearer " <= s[k..] || "xox" <= s[k..]
  {
    KeyList();
    AnyOfTen(KeyPrefixes(), s, k);
  }

  /** A listed prefix stands at `k`. */
  ghost predicate KeyAt(s: string, k: nat) {
    exists j :: 0 <= j < |KeyPrefixes()| && HitAt(Literal(KeyPrefixes()[j]), s, k)
  }

  lemma AnyOfTen(p: seq<string>, s: string, k: nat)
    requires |p| == 10 && k <= |s|
    ensures (exists j :: 0 <= j < |p| && HitAt(Literal(p[j]), s, k))
            <==> || p[0] <= s[k..] || p[1] <= s[k..] || p[2] <= s[k..] || p[3] <= s[k..] || p[4] <= s[k..]
                 || p[5] <= s[k..] || p[6] <= s[k..] || p[7] <= s[k..] || p[8] <= s[k..] || p[9] <= s[k..]
  {
    forall j | 0 <= j < |p| ensures HitAt(Literal(p[j]), s, k) <==> p[j] <= s[k..] {
      LiteralExactly(p[j], s, k);
    }
  }

  /** Characters that may precede the `@` of an address. */
  lemma LocalCharExactly(c: char)
    ensures IsLocalChar(c)
            <==> '0' <= c <= '9' || 'a' <= c <= 'z' || 'A' <= c <= 'Z' || c == '.' || c == '_' || c == '-' || c == '+'
    ensures IsDomainChar(c) <==> '0' <= c <= '9' || 'a' <= c <= 'z' || 'A' <= c <= 'Z' || c == '.' || c == '-'
  {
  }

  lemma {:induction false} DomainEndExactly(s: string, i: nat, e: nat)
    requires i <= e <= |s|
    ensures DomainEnd(s, i) == e
            <==> && (forall k :: i <= k < e ==> IsDomainChar(s[k]))
                 && (e < |s| ==> !IsDomainChar(s[e]))
    decreases |s| - i
  {
    if i < e && IsDomainChar(s[i]) {
      DomainEndExactly(s, i + 1, e);
    }
  }

  /** `d` is a dot reached from the `@` at `i` over letters, digits, dots and dashes only. */
  ghost predicate DotAfter(s: string, i: nat, d: nat) {
    && i < d < |s| && s[d] == '.'
    && forall k :: i < k < d ==>
         '0' <= s[k] <= '9' || 'a' <= s[k] <= 'z' || 'A' <= s[k] <= 'Z' || s[k] == '.' || s[k] == '-'
  }

  lemma DotInDomain(s: string, i: nat)
    requires i < |s|
    ensures '.' in s[i + 1..DomainEnd(s, i + 1)] <==> exists d: nat :: DotAfter(s, i, d)
  {
    var e := DomainEnd(s, i + 1);
    DomainEndExactly(s, i + 1, e);
    if '.' in s[i + 1..e] {
      var x :| 0 <= x < |s[i + 1..e]| && s[i + 1..e][x] == '.';
      assert DotAfter(s, i, i + 1 + x);
    }
    if d: nat :| DotAfter(s, i, d) {
      assert d < e;
      assert s[i + 1..e][d - i - 1] == '.';
    }
  }

  /** Addresses are where a local-part character stands before an `@` and a dot can be reached behind it. */
  lemma AddressExactly(s: string, i: nat)
    ensures AddressAt(s, i)
            <==> && 0 < i < |s| && s[i] == '@'
                 && (var c := s[i - 1];
                     '0' <= c <= '9' || 'a' <= c <= 'z' || 'A' <= c <= 'Z' || c == '.' || c == '_' || c == '-' || c == '+')
                 && exists d: nat :: DotAfter(s, i, d)
  {
    if i < |s| {
      DotInDomain(s, i);
    }
  }

  // ---------------------------------------------------------------- what redaction leaves

  /** No redacted text has, anywhere, a number, a key or an address. */
  lemma RedactedInPlainTerms(text: string, k: nat, d: nat)
    ensures var r := Redacted(text);
            && !(&& k + 11 <= |r|
                 && '0' <= r[k] <= '9' && '0' <= r[k + 1] <= '9' && '0' <= r[k + 2] <= '9' && r[k + 3] == '-'
                 && '0' <= r[k + 4] <= '9' && '0' <= r[k + 5] <= '9' && r[k + 6] == '-'
                 && '0' <= r[k + 7] <= '9' && '0' <= r[k + 8] <= '9' && '0' <= r[k + 9] <= '9' && '0' <= r[k + 10] <= '9')
            && !(k <= |r| &&
                 (|| "AKIA" <= r[k..] || "ASIA" <= r[k..] || "ghp_" <= r[k..] || "gho_" <= r[k..] || "ghs_" <= r[k..]
                  || "ghr_" <= r[k..] || "github_pat_" <= r[k..] || "sk-" <= r[k..] || "Bearer " <= r[k..] || "xox" <= r[k..]))
            && !(&& 0 < k < |r| && r[k] == '@'
                 && (var c := r[k - 1];
                     '0' <= c <= '9' || 'a' <= c <= 'z' || 'A' <= c <= 'Z' || c == '.' || c == '_' || c == '-' || c == '+')
                 && DotAfter(r, k, d))
  {
    var r := Redacted(text);
    RedactedIsClean(text);
    CleanIsNotSensitive(r, k);
    NumberExactly(r, k);
    AddressExactly(r, k);
    if k <= |r| {
      KeyExactly(r, k);
    }
  }

  /** Something to redact stands at `k`. */
  ghost predicate Sensitive(s: string, k: nat) {
    HitAt(Ssn, s, k) || AddressAt(s, k) || KeyAt(s, k)
  }

  lemma CleanIsNotSensitive(text: string, k: nat)
    requires Clean(text)
    ensures !Sensitive(text, k)
  {
    forall j | 0 <= j < |KeyPrefixes()| ensures !HitAt(Literal(KeyPrefixes()[j]), text, k) {
      assert Free(Literal(KeyPrefixes()[j]), text);
    }
  }

  lemma NotSensitiveIsClean(text: string)
    requires forall k: nat :: !Sensitive(text, k)
    ensures Clean(text)
  {
    forall k: nat ensures !HitAt(Ssn, text, k) && !AddressAt(text, k) {
      assert !Sensitive(text, k);
    }
    forall j | 0 <= j < |KeyPrefixes()| ensures Free(Literal(KeyPrefixes()[j]), text) {
      forall k: nat ensures !HitAt(Literal(KeyPrefixes()[j]), text, k) {
        assert !Sensitive(text, k);
      }
    }
  }

  /** A text is changed exactly if somewhere in it stands what the laws above describe. */
  lemma ChangedExactly(text: string)
    ensures Redacted(text) != text <==> exists k: nat :: Sensitive(text, k)
  {
    UnchangedExactlyIfClean(text);
    if Clean(text) {
      forall k: nat ensures !Sensitive(text, k) {
        CleanIsNotSensitive(text, k);
      }
    } else if forall k: nat :: !Sensitive(text, k) {
      NotSensitiveIsClean(text);
    }
  }

  /** Keys go first, then numbers, then addresses: doing a stage beforehand changes nothing. */
  lemma StagesInOrder(text: string)
    ensures Redacted(KeyPasses(KeyPrefixes(), text)) == Redacted(text)
    ensures FreeOfAll(KeyPrefixes(), text) ==> Redacted(SsnPass(text)) == Redacted(text) == EmailPass(SsnPass(text))
  {
    var p := KeyPrefixes();
    var keyed := KeyPasses(p, text);
    forall j | 0 <= j < |p| ensures Free(Literal(p[j]), keyed) {
      KeyPassesClean(p, text, j);
    }
    KeyPassesOfClean(p, keyed);
    if FreeOfAll(p, text) {
      forall j | 0 <= j < |p| ensures Free(Literal(p[j]), SsnPass(text)) {
        SsnPassKeepsFree(Literal(p[j]), text);
      }
      KeyPassesOfClean(p, text);
      KeyPassesOfClean(p, SsnPass(text));
      SsnPassCleans(text);
      FreeUnchangedBySsnPass(SsnPass(text));
    }
  }

  /** The first prefix of a list is looked for first. */
  lemma {:induction false} FirstPrefixFirst(first: string, rest: seq<string>, text: string)
    requires AllForeign([first] + rest)
    ensures first != "" && AllForeign(rest)
    ensures KeyPasses([first] + rest, text) == KeyPasses(rest, KeyPass(first, text))
    decreases |rest|
  {
    var all, n := [first] + rest, |rest|;
    assert all[0] == first;
    forall j | 0 <= j < n ensures rest[j] == all[j + 1] {
    }
    if n == 0 {
      assert all[..0] == [];
    } else {
      assert all[..n] == [first] + rest[..n - 1] && all[n] == rest[n - 1];
      assert AllForeign(all[..n]);
      FirstPrefixFirst(first, rest[..n - 1], text);
    }
  }

  // ---------------------------------------------------------------- what is put in its place

  /** A number is replaced, and the rest read on behind it. */
  lemma NumberIsMarked(n: string, rest: string)
    requires |n| == 11
    requires '0' <= n[0] <= '9' && '0' <= n[1] <= '9' && '0' <= n[2] <= '9' && n[3] == '-'
    requires '0' <= n[4] <= '9' && '0' <= n[5] <= '9' && n[6] == '-'
    requires '0' <= n[7] <= '9' && '0' <= n[8] <= '9' && '0' <= n[9] <= '9' && '0' <= n[10] <= '9'
    ensures SsnPass(n + rest) == "[REDACTED]" + SsnPass(rest)
  {
    var s := n + rest;
    NumberExactly(s, 0);
    assert s[11..] == rest;
  }

  /** No blank, tab, line feed, vertical tab, form feed or carriage return. */
  ghost predicate Unbroken(t: string) {
    forall k :: 0 <= k < |t| ==>
      t[k] != ' ' && t[k] != '\t' && t[k] != '\n' && t[k] != (11 as char) && t[k] != (12 as char) && t[k] != '\r'
  }

  lemma WhitespaceExactly(c: char)
    ensures IsWhitespace(c)
            <==> c == ' ' || c == '\t' || c == '\n' || c == (11 as char) || c == (12 as char) || c == '\r'
  {
  }

  /** A key is replaced up to the whitespace behind it. */
  lemma KeyEndsAtWhitespace(prefix: string, t: string, w: char, rest: string)
    requires prefix != "" && Unbroken(prefix) && Unbroken(t)
    requires w == ' ' || w == '\t' || w == '\n' || w == (11 as char) || w == (12 as char) || w == '\r'
    ensures KeyPass(prefix, prefix + (t + ([w] + rest))) == "[REDACTED]" + KeyPass(prefix, [w] + rest)
  {
    var u := t + ([w] + rest);
    var s, e := prefix + u, |prefix| + |t|;
    HitAtStart(prefix, u);
    assert s[e] == w;
    forall k | 0 <= k < e ensures !IsWhitespace(s[k]) {
      WhitespaceExactly(s[k]);
      assert s[k] == if k < |prefix| then prefix[k] else t[k - |prefix|];
    }
    WhitespaceIsFirst(s, 0, e);
    assert s[e..] == [w] + rest && s[..0] + MARK == "[REDACTED]";
  }

  /** A key that ends the text is replaced whole if at most twenty characters follow the prefix. */
  lemma ShortKeyIsMarked(prefix: string, t: string)
    requires prefix != "" && Unbroken(prefix) && Unbroken(t) && |t| <= 20
    ensures KeyPass(prefix, prefix + t) == "[REDACTED]"
  {
    var s := prefix + t;
    HitAtStart(prefix, t);
    forall k | 0 <= k < |s| ensures !IsWhitespace(s[k]) {
      WhitespaceExactly(s[k]);
      assert s[k] == if k < |prefix| then prefix[k] else t[k - |prefix|];
    }
    WhitespaceIsFirst(s, 0, |s|);
    assert s[|s|..] == "" && s[..0] + MARK == "[REDACTED]";
    assert FirstHit(Literal(prefix), "", 0) == 0;
  }

  /** The text has one `@` only, with a local part from `p` to `i` and a domain up to `e`. */
  ghost predicate OneAddress(s: string, p: nat, i: nat, e: nat) {
    && p < i < e <= |s| && s[i] == '@' && (forall k :: 0 <= k < |s| && s[k] == '@' ==> k == i)
    && (forall k :: p <= k < i ==> IsLocalChar(s[k])) && (p > 0 ==> !IsLocalChar(s[p - 1]))
    && (forall k :: i < k < e ==> IsDomainChar(s[k])) && (e < |s| ==> !IsDomainChar(s[e]))
    && exists d :: i < d < e && s[d] == '.'
  }

  lemma OneAddressFound(s: string, p: nat, i: nat, e: nat)
    requires OneAddress(s, p, i, e)
    ensures AddressAt(s, i) && LocalStart(s, i) == p && LocalEnd(s, p) == i && DomainEnd(s, i + 1) == e
  {
    LocalStartOfRun(s, p, i);
    LocalEndOfRun(s, p, i);
    DomainEndExactly(s, i + 1, e);
    var d :| i < d < e && s[d] == '.';
    assert s[i + 1..e][d - i - 1] == '.';
  }

  lemma NoOtherAddress(s: string, p: nat, i: nat, e: nat, k: nat)
    requires OneAddress(s, p, i, e) && k < |s| && k != p
    ensures !AddressFrom(s, k)
  {
    OneAddressFound(s, p, i, e);
    assert AddressAt(s, LocalEnd(s, k)) ==> LocalEnd(s, k) == i;
  }

  lemma KeptBefore(s: string, p: nat, i: nat, e: nat)
    requires OneAddress(s, p, i, e)
    ensures InPlace(s, 0) == s[..p] + InPlace(s, p)
  {
    forall k | 0 <= k < p ensures !AddressFrom(s, k) {
      NoOtherAddress(s, p, i, e, k);
    }
    InPlaceKeeps(s, 0, p);
    assert s[0..p] == s[..p];
  }

  lemma KeptBehind(s: string, p: nat, i: nat, e: nat)
    requires OneAddress(s, p, i, e)
    ensures InPlace(s, e) == s[e..]
  {
    forall k | e <= k < |s| ensures !AddressFrom(s, k) {
      NoOtherAddress(s, p, i, e, k);
    }
    InPlaceKeeps(s, e, |s|);
    assert s[e..|s|] + "" == s[e..];
  }

  lemma MarkedBetween(s: string, p: nat, i: nat, e: nat)
    requires OneAddress(s, p, i, e)
    ensures InPlace(s, p) == MARK + InPlace(s, e)
  {
    OneAddressFound(s, p, i, e);
  }

  /** An address is replaced where it stands, local part and domain, and everything else is kept. */
  lemma AddressIsMarked(s: string, p: nat, i: nat, e: nat)
    requires OneAddress(s, p, i, e)
    ensures EmailPass(s) == s[..p] + "[REDACTED]" + s[e..]
  {
    OneAddressFound(s, p, i, e);
    assert !Chained(s);
    MarksInPlaceExactly(s);
    KeptBefore(s, p, i, e);
    MarkedBetween(s, p, i, e);
    KeptBehind(s, p, i, e);
    RegroupThree(s[..p], MARK, s[e..]);
  }
}
