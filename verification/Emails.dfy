/**
 The e-mail pass: a single scan that drops the local part already written when it
 meets an address.  It works on a growing output and the rest of the input.
 */
module Emails {
  import opened OutputFilter

  predicate IsAlphanumeric(c: char) {
    IsDigit(c) || 'a' <= c <= 'z' || 'A' <= c <= 'Z'
  }

  predicate IsDomainChar(c: char) {
    IsAlphanumeric(c) || c == '.' || c == '-'
  }

  predicate IsLocalChar(c: char) {
    IsDomainChar(c) || c == '_' || c == '+'
  }

  /** Start of the run of local-part characters ending before `i`. */
  function LocalStart(s: string, i: nat): (k: nat)
    requires i <= |s|
    ensures k <= i
  {
    if i > 0 && IsLocalChar(s[i - 1]) then LocalStart(s, i - 1) else i
  }

  /** End of the run of domain characters starting at `i`. */
  function DomainEnd(s: string, i: nat): (k: nat)
    requires i <= |s|
    ensures i <= k <= |s|
    decreases |s| - i
  {
    if i < |s| && IsDomainChar(s[i]) then DomainEnd(s, i + 1) else i
  }

  /** An `@` with a local part before it and a domain holding a dot after it. */
  predicate AddressAt(s: string, i: nat) {
    && i < |s| && s[i] == '@' && LocalStart(s, i) < i
    && '.' in s[i + 1..DomainEnd(s, i + 1)]
  }

  ghost predicate AddressFree(s: string) {
    forall i: nat :: !AddressAt(s, i)
  }

  /** Remove the last `n` characters, or everything if there are fewer. */
  function DropLast(s: string, n: nat): string {
    if n <= |s| then s[..|s| - n] else ""
  }

  /** The scan at position `i` with output `out` so far. */
  function EmailScan(text: string, i: nat, out: string): string
    requires i <= |text|
    decreases |text| - i
  {
    if i == |text| then out
    else if AddressAt(text, i) then
      EmailScan(text, DomainEnd(text, i + 1), DropLast(out, i - LocalStart(text, i)) + MARK)
    else EmailScan(text, i + 1, out + [text[i]])
  }

  function EmailPass(text: string): string {
    EmailScan(text, 0, "")
  }

  lemma ScanStep(text: string, i: nat, out: string, j: nat, more: string)
    requires i < |text|
    requires if AddressAt(text, i)
             then j == DomainEnd(text, i + 1) && more == DropLast(out, i - LocalStart(text, i)) + MARK
             else j == i + 1 && more == out + [text[i]]
    ensures EmailScan(text, i, out) == EmailScan(text, j, more)
  {
  }

  method WalkBack(text: string, i: nat) returns (start: nat)
    requires i <= |text|
    ensures start == LocalStart(text, i)
  {
    start := i;
    while start > 0 && IsLocalChar(text[start - 1])
      invariant start <= i && LocalStart(text, start) == LocalStart(text, i)
    {
      start := start - 1;
    }
  }

  method WalkForward(text: string, i: nat) returns (end: nat)
    requires i <= |text|
    ensures end == DomainEnd(text, i)
  {
    end := i;
    while end < |text| && IsDomainChar(text[end])
      invariant i <= end <= |text| && DomainEnd(text, end) == DomainEnd(text, i)
    {
      end := end + 1;
    }
  }

  method PopLast(s: string, n: nat) returns (r: string)
    ensures r == DropLast(s, n)
  {
    r := s;
    for k := 0 to n
      invariant r == DropLast(s, k)
    {
      r := DropLast(r, 1);
    }
  }

  method RedactEmails(text: string) returns (result: string)
    ensures result == EmailPass(text)
  {
    result := "";
    var i := 0;
    while i < |text|
      invariant 0 <= i <= |text| && EmailScan(text, i, result) == EmailPass(text)
    {
      if text[i] == '@' && i > 0 {
        var start := WalkBack(text, i);
        var end := WalkForward(text, i + 1);
        if start < i && '.' in text[i + 1..end] {
          result := PopLast(result, i - start);
          result := result + MARK;
          i := end;
          continue;
        }
      }
      result := result + [text[i]];
      i := i + 1;
    }
  }

  // ---------------------------------------------------------------- no address survives

  lemma {:induction false} DomainEndInSuffix(a: string, c: string, i: nat)
    requires i <= |c|
    ensures DomainEnd(a + c, |a| + i) == |a| + DomainEnd(c, i)
    decreases |c| - i
  {
    if i < |c| && IsDomainChar(c[i]) {
      DomainEndInSuffix(a, c, i + 1);
    }
  }

  /** Texts that agree up to the end of a domain run: the run cannot end sooner in the other. */
  lemma {:induction false} DomainEndInPrefix(a: string, x: string, y: string, i: nat)
    requires i <= |a| && DomainEnd(a + x, i) <= |a|
    ensures DomainEnd(a + x, i) <= DomainEnd(a + y, i)
    decreases |a| - i
  {
    if i < |a| && IsDomainChar(a[i]) {
      DomainEndInPrefix(a, x, y, i + 1);
    }
  }

  lemma {:induction false} DomainEndStopsAt(s: string, i: nat, n: nat)
    requires i <= n < |s| && !IsDomainChar(s[n])
    ensures DomainEnd(s, i) <= n
    decreases n - i
  {
    if i < n {
      DomainEndStopsAt(s, i + 1, n);
    }
  }

  /** What the scan keeps: nothing before the end of the output is an address in output plus rest. */
  ghost predicate ScanState(text: string, i: nat, out: string) {
    && i <= |text|
    && (out == "" ==> i == 0)
    && (out != "" ==> i > 0 && (out[|out| - 1] == text[i - 1] || out[|out| - 1] == ']'))
    && forall k: nat :: k < |out| ==> !AddressAt(out + text[i..], k)
  }

  /** Whether the next character is an address is the same seen from the input and from the output. */
  lemma NextAddress(text: string, i: nat, out: string)
    requires ScanState(text, i, out) && i < |text| && AddressAt(out + text[i..], |out|)
    ensures AddressAt(text, i)
  {
    var s, rest := out + text[i..], text[i..];
    assert LocalStart(s, |out|) < |out|;
    assert s[|out| - 1] == out[|out| - 1];
    DomainInSuffix(out, rest);
    DomainInSuffix(text[..i], rest);
    assert text == text[..i] + rest;
  }

  /** The domain after a character at the seam is read from the rest alone. */
  lemma DomainInSuffix(a: string, rest: string)
    requires rest != ""
    ensures (a + rest)[|a| + 1..DomainEnd(a + rest, |a| + 1)] == rest[1..DomainEnd(rest, 1)]
  {
    DomainEndInSuffix(a, rest, 1);
  }

  lemma PushKeepsState(text: string, i: nat, out: string)
    requires ScanState(text, i, out) && i < |text| && !AddressAt(text, i)
    ensures ScanState(text, i + 1, out + [text[i]])
  {
    assert out + [text[i]] + text[i + 1..] == out + text[i..];
    if AddressAt(out + text[i..], |out|) {
      NextAddress(text, i, out);
    }
  }

  /** An address before an inserted mark was an address before the insertion. */
  lemma AddressBeforeMark(a: string, b: string, c: string, k: nat)
    requires k < |a + MARK| && AddressAt(a + MARK + c, k)
    ensures k < |a| && AddressAt(a + b, k)
  {
    var s := a + MARK + c;
    if k >= |a| {
      assert false;
    }
    assert s[|a|] == '[';
    DomainEndStopsAt(s, k + 1, |a|);
    assert s == a + (MARK + c);
    DomainEndInPrefix(a, MARK + c, b, k + 1);
    var d, e := DomainEnd(s, k + 1), DomainEnd(a + b, k + 1);
    var j :| k + 1 <= j < d && s[j] == '.';
    assert (a + b)[k + 1..e][j - k - 1] == '.';
    assert k > 0 && s[k - 1] == (a + b)[k - 1];
  }

  lemma MarkKeepsState(text: string, i: nat, out: string)
    requires ScanState(text, i, out) && AddressAt(text, i)
    ensures ScanState(text, DomainEnd(text, i + 1), DropLast(out, i - LocalStart(text, i)) + MARK)
  {
    var e := DomainEnd(text, i + 1);
    var a := DropLast(out, i - LocalStart(text, i));
    var b := out[|a|..] + text[i..];
    assert a + b == out + text[i..];
    forall k: nat | k < |a + MARK| ensures !AddressAt(a + MARK + text[e..], k) {
      if AddressAt(a + MARK + text[e..], k) {
        AddressBeforeMark(a, b, text[e..], k);
      }
    }
  }

  lemma {:induction false} ScanCleans(text: string, i: nat, out: string)
    requires ScanState(text, i, out)
    ensures AddressFree(EmailScan(text, i, out))
    decreases |text| - i
  {
    if i == |text| {
      assert out + text[i..] == out;
    } else if AddressAt(text, i) {
      MarkKeepsState(text, i, out);
      ScanCleans(text, DomainEnd(text, i + 1), DropLast(out, i - LocalStart(text, i)) + MARK);
    } else {
      PushKeepsState(text, i, out);
      ScanCleans(text, i + 1, out + [text[i]]);
    }
  }

  /** The output of the pass holds no address. */
  lemma EmailPassCleans(text: string)
    ensures AddressFree(EmailPass(text))
  {
    ScanCleans(text, 0, "");
  }

  // ---------------------------------------------------------------- what the pass leaves alone

  lemma {:induction false} ScanKeepsFree(q: Pattern, text: string, i: nat, out: string)
    requires i <= |text| && q.Foreign() && Free(q, out + text[i..])
    ensures Free(q, EmailScan(text, i, out))
    decreases |text| - i
  {
    if i == |text| {
      assert out + text[i..] == out;
    } else if AddressAt(text, i) {
      var e := DomainEnd(text, i + 1);
      var a := DropLast(out, i - LocalStart(text, i));
      assert a + (out[|a|..] + text[i..e]) + text[e..] == out + text[i..];
      MarkKeepsFree(q, a, out[|a|..] + text[i..e], text[e..]);
      ScanKeepsFree(q, text, e, a + MARK);
    } else {
      assert out + [text[i]] + text[i + 1..] == out + text[i..];
      ScanKeepsFree(q, text, i + 1, out + [text[i]]);
    }
  }

  /** The pass brings in no hit of a fixed-width pattern. */
  lemma EmailPassKeepsFree(q: Pattern, text: string)
    requires q.Foreign() && Free(q, text)
    ensures Free(q, EmailPass(text))
  {
    assert "" + text[0..] == text;
    ScanKeepsFree(q, text, 0, "");
  }

  lemma {:induction false} ScanOfClean(text: string, i: nat, out: string)
    requires i <= |text| && AddressFree(text)
    ensures EmailScan(text, i, out) == out + text[i..]
    decreases |text| - i
  {
    if i < |text| {
      ScanOfClean(text, i + 1, out + [text[i]]);
      assert out + [text[i]] + text[i + 1..] == out + text[i..];
    }
  }

  lemma AddressFreeUnchanged(text: string)
    requires AddressFree(text)
    ensures EmailPass(text) == text
  {
    ScanOfClean(text, 0, "");
  }

  // ---------------------------------------------------------------- marking addresses in place

  /** End of the run of local-part characters starting at `i`. */
  function LocalEnd(s: string, i: nat): (k: nat)
    requires i <= |s|
    ensures i <= k <= |s|
    decreases |s| - i
  {
    if i < |s| && IsLocalChar(s[i]) then LocalEnd(s, i + 1) else i
  }

  /** An address, local part included, starts at `i`. */
  predicate AddressFrom(s: string, i: nat)
    requires i <= |s|
  {
    AddressAt(s, LocalEnd(s, i)) && LocalStart(s, LocalEnd(s, i)) == i
  }

  /** The text from `i` on with every address replaced by the mark and everything else kept. */
  ghost function InPlace(s: string, i: nat): string
    requires i <= |s|
    decreases |s| - i
  {
    if i == |s| then ""
    else if AddressFrom(s, i) then MARK + InPlace(s, DomainEnd(s, LocalEnd(s, i) + 1))
    else [s[i]] + InPlace(s, i + 1)
  }

  /** The local part of the second address reaches back into the domain of the first. */
  ghost predicate ChainedPair(s: string, i: nat, j: nat) {
    AddressAt(s, i) && AddressAt(s, j) && i < j && LocalStart(s, j) < DomainEnd(s, i + 1)
  }

  ghost predicate Chained(s: string) {
    exists i: nat, j: nat :: ChainedPair(s, i, j)
  }

  lemma {:induction false} LocalRun(s: string, i: nat, k: nat)
    requires i <= |s| && LocalStart(s, i) <= k < i
    ensures IsLocalChar(s[k])
  {
    if k < i - 1 {
      LocalRun(s, i - 1, k);
    }
  }

  lemma {:induction false} LocalEndOfRun(s: string, i: nat, j: nat)
    requires i <= j <= |s| && (forall k :: i <= k < j ==> IsLocalChar(s[k])) && (j == |s| || !IsLocalChar(s[j]))
    ensures LocalEnd(s, i) == j
    decreases j - i
  {
    if i < j {
      LocalEndOfRun(s, i + 1, j);
    }
  }

  lemma {:induction false} LocalStartOfRun(s: string, i: nat, j: nat)
    requires i <= j <= |s| && (forall k :: i <= k < j ==> IsLocalChar(s[k])) && (i == 0 || !IsLocalChar(s[i - 1]))
    ensures LocalStart(s, j) == i
    decreases j - i
  {
    if i < j {
      LocalStartOfRun(s, i, j - 1);
    }
  }

  lemma {:induction false} LocalStartMonotone(s: string, i: nat, j: nat)
    requires i <= j <= |s| && forall k :: i <= k < j ==> IsLocalChar(s[k])
    ensures LocalStart(s, j) == LocalStart(s, i)
    decreases j - i
  {
    if i < j {
      LocalStartMonotone(s, i, j - 1);
    }
  }

  lemma LocalStartStops(s: string, i: nat)
    requires i <= |s|
    ensures LocalStart(s, i) == 0 || !IsLocalChar(s[LocalStart(s, i) - 1])
  {
    if i > 0 && IsLocalChar(s[i - 1]) {
      LocalStartStops(s, i - 1);
    }
  }

  /** An address starts exactly where its local part does. */
  lemma AddressStart(s: string, j: nat)
    requires AddressAt(s, j)
    ensures AddressFrom(s, LocalStart(s, j)) && LocalEnd(s, LocalStart(s, j)) == j
  {
    forall k | LocalStart(s, j) <= k < j ensures IsLocalChar(s[k]) {
      LocalRun(s, j, k);
    }
    LocalEndOfRun(s, LocalStart(s, j), j);
  }

  /** Inside a run, away from its start, no address starts; and none at a character outside every run. */
  lemma NoAddressFrom(s: string, i: nat)
    requires i < |s| && ((i > 0 && IsLocalChar(s[i - 1])) || !IsLocalChar(s[i]))
    ensures !AddressFrom(s, i)
  {
    if i > 0 && IsLocalChar(s[i - 1]) {
      var j := LocalEnd(s, i);
      LocalRunForward(s, i);
      LocalStartMonotone(s, i, j);
    }
  }

  lemma {:induction false} LocalRunForward(s: string, i: nat)
    requires i <= |s|
    ensures forall k :: i <= k < LocalEnd(s, i) ==> IsLocalChar(s[k])
    decreases |s| - i
  {
    if i < |s| && IsLocalChar(s[i]) {
      LocalRunForward(s, i + 1);
    }
  }

  lemma FrontOfSlice(s: string, i: nat, j: nat, rest: string)
    requires i < j <= |s|
    ensures [s[i]] + (s[i + 1..j] + rest) == s[i..j] + rest
  {
    assert s[i..j] == [s[i]] + s[i + 1..j];
  }

  /** A stretch in which no address starts is kept as it is. */
  lemma {:induction false} InPlaceKeeps(s: string, i: nat, j: nat)
    requires i <= j <= |s| && forall k :: i <= k < j ==> !AddressFrom(s, k)
    ensures InPlace(s, i) == s[i..j] + InPlace(s, j)
    decreases j - i
  {
    if i < j {
      InPlaceKeeps(s, i + 1, j);
      FrontOfSlice(s, i, j, InPlace(s, j));
    }
  }

  /** In a run of local-part characters that does not end in an address, none starts either. */
  lemma RunWithoutAddress(s: string, i: nat, k: nat)
    requires i <= |s| && LocalStart(s, i) <= k < i && !AddressAt(s, i) && (i == |s| || !IsLocalChar(s[i]))
    ensures !AddressFrom(s, k)
  {
    forall x | k <= x < i ensures IsLocalChar(s[x]) {
      LocalRun(s, i, x);
    }
    LocalEndOfRun(s, k, i);
  }

  /** The written run reaches back as far as the walk does, if no addresses are chained. */
  lemma RunIsWhole(s: string, p: nat, i: nat, a: nat)
    requires !Chained(s) && AddressAt(s, i) && LocalStart(s, i) <= p <= i
    requires p == LocalStart(s, i) || (a < p && AddressAt(s, a) && p == DomainEnd(s, a + 1))
    ensures p == LocalStart(s, i)
  {
    assert !ChainedPair(s, a, i);
  }

  /**
   The scan with `base` settled and the local-part run `p..i` just written.  The run starts where
   the walk back from `i` would stop, or where the domain of address `a` ended.
   */
  lemma {:induction false} UnchainedScan(s: string, base: string, p: nat, i: nat, a: nat)
    requires !Chained(s) && RunFrom(s, p, i, a)
    ensures EmailScan(s, i, base + s[p..i]) == base + InPlace(s, p)
    decreases |s| - i, 1
  {
    if i == |s| {
      EndRun(s, base, p);
    } else if AddressAt(s, i) {
      ScanAtAddress(s, base, p, i, a);
    } else if IsLocalChar(s[i]) {
      ScanAtLocalChar(s, base, p, i, a);
    } else {
      ScanAtOtherChar(s, base, p, i, a);
    }
  }

  /** What is written from `p` on is a run of local-part characters, or starts at the end of address `a`. */
  ghost predicate RunFrom(s: string, p: nat, i: nat, a: nat) {
    && i <= |s| && LocalStart(s, i) <= p <= i
    && (p == LocalStart(s, i) || (a < p && AddressAt(s, a) && p == DomainEnd(s, a + 1)))
  }

  lemma {:induction false} ScanAtAddress(s: string, base: string, p: nat, i: nat, a: nat)
    requires !Chained(s) && RunFrom(s, p, i, a) && AddressAt(s, i)
    ensures EmailScan(s, i, base + s[p..i]) == base + InPlace(s, p)
    decreases |s| - i, 0
  {
    var e := DomainEnd(s, i + 1);
    RunIsWhole(s, p, i, a);
    SettleAddress(s, base, i);
    ScanStep(s, i, base + s[p..i], e, base + MARK + s[e..e]);
    UnchainedScan(s, base + MARK, e, e, i);
  }

  lemma {:induction false} ScanAtLocalChar(s: string, base: string, p: nat, i: nat, a: nat)
    requires !Chained(s) && RunFrom(s, p, i, a) && i < |s| && !AddressAt(s, i) && IsLocalChar(s[i])
    ensures EmailScan(s, i, base + s[p..i]) == base + InPlace(s, p)
    decreases |s| - i, 0
  {
    PushChar(s, base, p, i);
    ScanStep(s, i, base + s[p..i], i + 1, base + s[p..i + 1]);
    UnchainedScan(s, base, p, i + 1, a);
  }

  lemma {:induction false} ScanAtOtherChar(s: string, base: string, p: nat, i: nat, a: nat)
    requires !Chained(s) && RunFrom(s, p, i, a) && i < |s| && !AddressAt(s, i) && !IsLocalChar(s[i])
    ensures EmailScan(s, i, base + s[p..i]) == base + InPlace(s, p)
    decreases |s| - i, 0
  {
    var next := base + s[p..i + 1];
    StepOverRun(s, base, p, i);
    assert LocalStart(s, i + 1) == i + 1;
    UnchainedScan(s, next, i + 1, i + 1, a);
    SettleRun(s, base, p, i);
  }

  lemma StepOverRun(s: string, base: string, p: nat, i: nat)
    requires p <= i < |s| && !AddressAt(s, i)
    ensures EmailScan(s, i, base + s[p..i]) == EmailScan(s, i + 1, base + s[p..i + 1] + s[i + 1..i + 1])
  {
    PushChar(s, base, p, i);
    assert base + s[p..i + 1] + s[i + 1..i + 1] == base + s[p..i + 1];
    ScanStep(s, i, base + s[p..i], i + 1, base + s[p..i + 1]);
  }

  lemma PushChar(s: string, base: string, p: nat, i: nat)
    requires p <= i < |s|
    ensures base + s[p..i] + [s[i]] == base + s[p..i + 1]
  {
  }

  lemma EndRun(s: string, base: string, p: nat)
    requires LocalStart(s, |s|) <= p <= |s|
    ensures base + InPlace(s, p) == base + s[p..|s|]
  {
    forall k | p <= k < |s| ensures !AddressFrom(s, k) {
      RunWithoutAddress(s, |s|, k);
    }
    InPlaceKeeps(s, p, |s|);
  }

  lemma SettleAddress(s: string, base: string, i: nat)
    requires AddressAt(s, i)
    ensures var p, e := LocalStart(s, i), DomainEnd(s, i + 1);
            && DropLast(base + s[p..i], i - p) + MARK == base + MARK + s[e..e]
            && base + InPlace(s, p) == base + MARK + InPlace(s, e)
  {
    var p, e := LocalStart(s, i), DomainEnd(s, i + 1);
    AddressStart(s, i);
    assert DropLast(base + s[p..i], i - p) == base;
    RegroupThree(base, MARK, InPlace(s, e));
  }

  lemma SettleRun(s: string, base: string, p: nat, i: nat)
    requires i < |s| && !AddressAt(s, i) && !IsLocalChar(s[i]) && LocalStart(s, i) <= p <= i
    ensures base + InPlace(s, p) == base + s[p..i + 1] + InPlace(s, i + 1)
  {
    forall k | p <= k < i + 1 ensures !AddressFrom(s, k) {
      if k < i {
        RunWithoutAddress(s, i, k);
      } else {
        NoAddressFrom(s, i);
      }
    }
    InPlaceKeeps(s, p, i + 1);
    RegroupThree(base, s[p..i + 1], InPlace(s, i + 1));
  }

  lemma RegroupThree(a: string, b: string, c: string)
    ensures a + (b + c) == a + b + c
  {
  }

  // ---------------------------------------------------------------- and only then

  ghost function CountAts(s: string): nat {
    if s == "" then 0 else CountAts(s[..|s| - 1]) + if s[|s| - 1] == '@' then 1 else 0
  }

  /** The `@` characters from `i` on that belong to no address. */
  ghost function LooseAts(s: string, i: nat): nat
    requires i <= |s|
    decreases |s| - i
  {
    if i == |s| then 0 else LooseAts(s, i + 1) + if s[i] == '@' && !AddressAt(s, i) then 1 else 0
  }

  lemma {:induction false} CountAtsSum(a: string, b: string)
    ensures CountAts(a + b) == CountAts(a) + CountAts(b)
  {
    if b == "" {
      assert a + b == a;
    } else {
      CountAtsSum(a, b[..|b| - 1]);
      assert (a + b)[..|a + b| - 1] == a + b[..|b| - 1];
    }
  }

  lemma CountAtsMark()
    ensures CountAts(MARK) == 0
  {
    CountAtsNone(MARK);
  }

  lemma {:induction false} CountAtsNone(s: string)
    requires '@' !in s
    ensures CountAts(s) == 0
  {
    if s != "" {
      CountAtsNone(s[..|s| - 1]);
    }
  }

  lemma CountAtsOne(c: char)
    ensures CountAts([c]) == if c == '@' then 1 else 0
  {
    assert [c][..0] == "";
  }

  lemma {:induction false} LooseAtsSkip(s: string, i: nat, j: nat)
    requires i <= j <= |s|
    ensures LooseAts(s, j) <= LooseAts(s, i)
    ensures (forall k :: i <= k < j && s[k] == '@' ==> AddressAt(s, k)) ==> LooseAts(s, i) == LooseAts(s, j)
    decreases j - i
  {
    if i < j {
      LooseAtsSkip(s, i + 1, j);
    }
  }

  /** The scan writes at most the loose `@` characters. */
  lemma {:induction false} ScanCount(s: string, i: nat, out: string)
    requires i <= |s|
    ensures CountAts(EmailScan(s, i, out)) <= CountAts(out) + LooseAts(s, i)
    decreases |s| - i
  {
    if i == |s| {
    } else if AddressAt(s, i) {
      var e := DomainEnd(s, i + 1);
      var a := DropLast(out, i - LocalStart(s, i));
      ScanCount(s, e, a + MARK);
      CountAtsSum(a, MARK);
      CountAtsMark();
      assert out == a + out[|a|..];
      CountAtsSum(a, out[|a|..]);
      LooseAtsSkip(s, i, e);
    } else {
      ScanCount(s, i + 1, out + [s[i]]);
      CountAtsSum(out, [s[i]]);
      CountAtsOne(s[i]);
    }
  }

  lemma {:induction false} DomainRun(s: string, i: nat, k: nat)
    requires i <= |s| && i <= k < DomainEnd(s, i)
    ensures IsDomainChar(s[k])
    decreases |s| - i
  {
    if i < k {
      DomainRun(s, i + 1, k);
    }
  }

  /** Within an address only its own `@` occurs. */
  lemma OneAtPerAddress(s: string, i: nat)
    requires i <= |s| && AddressFrom(s, i)
    ensures var e := DomainEnd(s, LocalEnd(s, i) + 1); LooseAts(s, i) == LooseAts(s, e)
  {
    var j := LocalEnd(s, i);
    var e := DomainEnd(s, j + 1);
    LocalRunForward(s, i);
    forall k | i <= k < e && s[k] == '@' ensures AddressAt(s, k) {
      if k > j {
        DomainRun(s, j + 1, k);
      }
    }
    LooseAtsSkip(s, i, e);
  }

  /** The `@` characters left from `i` on when addresses are marked in place. */
  ghost function KeptAts(s: string, i: nat): nat
    requires i <= |s|
    decreases |s| - i
  {
    if i == |s| then 0
    else if AddressFrom(s, i) then KeptAts(s, DomainEnd(s, LocalEnd(s, i) + 1))
    else KeptAts(s, i + 1) + if s[i] == '@' then 1 else 0
  }

  lemma {:induction false} CountOfInPlace(s: string, i: nat)
    requires i <= |s|
    ensures CountAts(InPlace(s, i)) == KeptAts(s, i)
    decreases |s| - i
  {
    if i == |s| {
    } else if AddressFrom(s, i) {
      var e := DomainEnd(s, LocalEnd(s, i) + 1);
      CountOfInPlace(s, e);
      CountAtsSum(MARK, InPlace(s, e));
      CountAtsMark();
    } else {
      CountOfInPlace(s, i + 1);
      CountAtsSum([s[i]], InPlace(s, i + 1));
      CountAtsOne(s[i]);
    }
  }

  /** Marking in place keeps at least the loose `@` characters. */
  lemma {:induction false} InPlaceCount(s: string, i: nat)
    requires i <= |s|
    ensures KeptAts(s, i) >= LooseAts(s, i)
    decreases |s| - i
  {
    if i < |s| {
      if AddressFrom(s, i) {
        OneAtPerAddress(s, i);
        InPlaceCount(s, DomainEnd(s, LocalEnd(s, i) + 1));
      } else {
        InPlaceCount(s, i + 1);
      }
    }
  }

  /** Past the start of address `b` in its own local run, marking in place has missed it. */
  lemma {:induction false} MissedAddress(s: string, i: nat, b: nat)
    requires AddressAt(s, b) && LocalStart(s, b) < i <= b
    ensures KeptAts(s, i) > LooseAts(s, i)
    decreases b - i
  {
    LocalRun(s, b, i - 1);
    NoAddressFrom(s, i);
    if i < b {
      LocalRun(s, b, i);
      MissedAddress(s, i + 1, b);
      CountsPastChar(s, i);
    } else {
      InPlaceCount(s, i + 1);
    }
  }

  /** No chained pair has its first address before `a`. */
  ghost predicate Earliest(s: string, a: nat) {
    forall x: nat, y: nat :: ChainedPair(s, x, y) ==> a <= x
  }

  lemma NotChained(s: string, j: nat, k: nat, a: nat)
    requires Earliest(s, a) && AddressAt(s, j) && AddressAt(s, k) && j < k && j < a
    ensures DomainEnd(s, j + 1) <= LocalStart(s, k)
  {
    assert !ChainedPair(s, j, k);
  }

  /** Marking an address changes neither count: both continue where its domain ends. */
  lemma CountsPastAddress(s: string, i: nat, e: nat)
    requires i < |s| && AddressFrom(s, i) && e == DomainEnd(s, LocalEnd(s, i) + 1)
    ensures KeptAts(s, i) == KeptAts(s, e) && LooseAts(s, i) == LooseAts(s, e)
  {
    OneAtPerAddress(s, i);
  }

  /** Away from an address both counts grow by a loose `@`, so a surplus stays. */
  lemma CountsPastChar(s: string, i: nat)
    requires i < |s| && !AddressFrom(s, i) && KeptAts(s, i + 1) > LooseAts(s, i + 1)
    ensures KeptAts(s, i) > LooseAts(s, i)
  {
  }

  /** Marking in place from before a chained pair, the earliest one, misses its second address. */
  lemma {:induction false} ChainIsMissed(s: string, i: nat, a: nat, b: nat)
    requires ChainedPair(s, a, b) && i <= LocalStart(s, a) && Earliest(s, a)
    ensures KeptAts(s, i) > LooseAts(s, i)
    decreases |s| - i, 1
  {
    if AddressFrom(s, i) {
      ChainPastAddress(s, i, a, b);
    } else {
      AddressStart(s, a);
      ChainIsMissed(s, i + 1, a, b);
      CountsPastChar(s, i);
    }
  }

  lemma {:induction false} ChainPastAddress(s: string, i: nat, a: nat, b: nat)
    requires ChainedPair(s, a, b) && i <= LocalStart(s, a) && Earliest(s, a) && AddressFrom(s, i)
    ensures KeptAts(s, i) > LooseAts(s, i)
    decreases |s| - i, 0
  {
    var j := LocalEnd(s, i);
    var e := DomainEnd(s, j + 1);
    FirstAddressFrom(s, i, a);
    CountsPastAddress(s, i, e);
    if j == a {
      AddressesApart(s, a, b);
      MissedAddress(s, e, b);
    } else {
      NotChained(s, j, a, a);
      ChainIsMissed(s, e, a, b);
    }
  }

  /** The address starting at `i` is not after one whose local part starts at or after `i`. */
  lemma FirstAddressFrom(s: string, i: nat, a: nat)
    requires AddressAt(s, a) && i <= LocalStart(s, a) && AddressFrom(s, i)
    ensures LocalEnd(s, i) <= a
  {
    LocalRunForward(s, i);
  }

  /** The domain of an address ends before the next `@`. */
  lemma AddressesApart(s: string, a: nat, b: nat)
    requires AddressAt(s, a) && AddressAt(s, b) && a < b
    ensures DomainEnd(s, a + 1) <= b
  {
    DomainEndStopsAt(s, a + 1, b);
  }

  lemma {:induction false} EarliestChain(s: string, a: nat, b: nat) returns (x: nat, y: nat)
    requires ChainedPair(s, a, b)
    ensures ChainedPair(s, x, y) && Earliest(s, x)
  {
    if u: nat, v: nat :| ChainedPair(s, u, v) && u < a {
      x, y := EarliestChain(s, u, v);
    } else {
      x, y := a, b;
    }
  }

  /**
   The pass replaces each address by the mark and keeps all other text exactly on the texts in
   which no local part reaches back into the domain of an earlier address.
   */
  lemma MarksInPlaceExactly(s: string)
    ensures EmailPass(s) == InPlace(s, 0) <==> !Chained(s)
  {
    if Chained(s) {
      var a: nat, b: nat :| ChainedPair(s, a, b);
      var x, y := EarliestChain(s, a, b);
      ChainIsMissed(s, 0, x, y);
      CountOfInPlace(s, 0);
      ScanCount(s, 0, "");
    } else {
      UnchainedScan(s, "", 0, 0, 0);
      assert "" + s[0..0] == "" && "" + InPlace(s, 0) == InPlace(s, 0);
    }
  }
}
