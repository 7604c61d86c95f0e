/** The three stages of redaction together. */
module Redaction {
  import opened OutputFilter
  import opened Emails

  predicate AllForeign(prefixes: seq<string>) {
    forall j :: 0 <= j < |prefixes| ==> prefixes[j] != "" && Literal(prefixes[j]).Foreign()
  }

  /** The prefixes removed one after the other. */
  function KeyPasses(prefixes: seq<string>, text: string): string
    requires AllForeign(prefixes)
  {
    if prefixes == [] then text
    else
      var n := |prefixes| - 1;
      KeyPass(prefixes[n], KeyPasses(prefixes[..n], text))
  }

  function KeyPrefixes(): (prefixes: seq<string>)
    ensures AllForeign(prefixes) && |prefixes| == KEY_COUNT
    ensures forall j :: 0 <= j < KEY_COUNT ==> prefixes[j] == KeyPrefix(j)
  {
    var prefixes := seq(KEY_COUNT, j requires 0 <= j < KEY_COUNT => KeyPrefix(j));
    assert AllForeign(prefixes) by {
      forall j | 0 <= j < KEY_COUNT ensures prefixes[j] != "" && Literal(prefixes[j]).Foreign() {
        KeyPrefixIsForeign(j);
      }
    }
    prefixes
  }

  function Redacted(text: string): string {
    EmailPass(SsnPass(KeyPasses(KeyPrefixes(), text)))
  }

  method RedactKeys(prefixes: seq<string>, text: string) returns (output: string)
    requires AllForeign(prefixes)
    ensures output == KeyPasses(prefixes, text)
  {
    output := text;
    for j := 0 to |prefixes|
      invariant output == KeyPasses(prefixes[..j], text)
    {
      assert prefixes[..j + 1][..j] == prefixes[..j];
      output := RedactPrefix(prefixes[j], output);
    }
    assert prefixes[..|prefixes|] == prefixes;
  }

  method Redact(response: string) returns (output: string)
    ensures output == Redacted(response)
  {
    output := RedactKeys(KeyPrefixes(), response);
    output := RedactSsn(output);
    output := RedactEmails(output);
  }

  ghost predicate FreeOfAll(prefixes: seq<string>, text: string) {
    forall j :: 0 <= j < |prefixes| ==> Free(Literal(prefixes[j]), text)
  }

  /** No key prefix, no number NNN-NN-NNNN and no e-mail address. */
  ghost predicate Clean(text: string) {
    FreeOfAll(KeyPrefixes(), text) && Free(Ssn, text) && AddressFree(text)
  }

  /** After the passes none of the prefixes occurs: later passes do not bring one back. */
  lemma {:induction false} KeyPassesClean(prefixes: seq<string>, text: string, j: nat)
    requires AllForeign(prefixes) && j < |prefixes|
    ensures Free(Literal(prefixes[j]), KeyPasses(prefixes, text))
  {
    var n := |prefixes| - 1;
    var before := KeyPasses(prefixes[..n], text);
    if j == n {
      KeyPassCleans(prefixes[n], before);
    } else {
      KeyPassesClean(prefixes[..n], text, j);
      KeyPassKeepsFree(Literal(prefixes[j]), prefixes[n], before);
    }
  }

  lemma LaterStagesKeepFree(q: Pattern, text: string)
    requires q.Foreign() && Free(q, text)
    ensures Free(q, EmailPass(SsnPass(text)))
  {
    SsnPassKeepsFree(q, text);
    EmailPassKeepsFree(q, SsnPass(text));
  }

  /** Whatever the response, the redacted text is clean. */
  lemma RedactedIsClean(text: string)
    ensures Clean(Redacted(text))
  {
    var prefixes := KeyPrefixes();
    var keyed := KeyPasses(prefixes, text);
    forall j | 0 <= j < |prefixes| ensures Free(Literal(prefixes[j]), Redacted(text)) {
      KeyPassesClean(prefixes, text, j);
      LaterStagesKeepFree(Literal(prefixes[j]), keyed);
    }
    SsnPassCleans(keyed);
    EmailPassKeepsFree(Ssn, SsnPass(keyed));
    EmailPassCleans(SsnPass(keyed));
  }

  lemma {:induction false} KeyPassesOfClean(prefixes: seq<string>, text: string)
    requires AllForeign(prefixes) && FreeOfAll(prefixes, text)
    ensures KeyPasses(prefixes, text) == text
  {
    if prefixes != [] {
      var n := |prefixes| - 1;
      KeyPassesOfClean(prefixes[..n], text);
      FreeUnchangedByKeyPass(prefixes[n], text);
    }
  }

  /** A text is left as it is exactly when it is clean. */
  lemma UnchangedExactlyIfClean(text: string)
    ensures Redacted(text) == text <==> Clean(text)
  {
    if Clean(text) {
      KeyPassesOfClean(KeyPrefixes(), text);
      FreeUnchangedBySsnPass(text);
      AddressFreeUnchanged(text);
    }
    RedactedIsClean(text);
  }

  /** Redacting twice changes nothing more. */
  lemma RedactIsIdempotent(text: string)
    ensures Redacted(Redacted(text)) == Redacted(text)
  {
    RedactedIsClean(text);
    UnchangedExactlyIfClean(Redacted(text));
  }

  /** Chained addresses: the second one eats into the mark left for the first. */
  lemma ChainedAddressExample()
    ensures Chained("a@b.c@d.e") && EmailPass("a@b.c@d.e") == "[REDACT[REDACTED]"
  {
    ChainedAddresses();
    MarkLosesThree("a@b.c@d.e", 1, 5);
  }

  lemma MarkLosesThree(s: string, i: nat, j: nat)
    requires i == 1 && AddressAt(s, i) && LocalStart(s, i) == 0 && DomainEnd(s, i + 1) == j
    requires AddressAt(s, j) && DomainEnd(s, j + 1) == |s| && LocalStart(s, j) + 3 == j
    ensures EmailPass(s) == "[REDACT[REDACTED]"
  {
    ScanOfPair(s, i, j);
    assert DropLast(MARK, 3) == "[REDACT";
  }

  /** A one-letter address directly followed by another: the second eats into the mark of the first. */
  lemma ScanOfPair(s: string, i: nat, j: nat)
    requires i == 1 && AddressAt(s, i) && LocalStart(s, i) == 0 && DomainEnd(s, i + 1) == j
    requires AddressAt(s, j) && DomainEnd(s, j + 1) == |s|
    ensures EmailPass(s) == DropLast(MARK, j - LocalStart(s, j)) + MARK
  {
    assert "" + [s[0]] == [s[0]] && DropLast([s[0]], 1) + MARK == MARK;
    ScanStep(s, i - 1, "", i, [s[0]]);
    ScanStep(s, i, [s[0]], j, MARK);
    ScanOfLast(s, j, MARK);
  }

  lemma ScanOfLast(s: string, j: nat, out: string)
    requires AddressAt(s, j) && DomainEnd(s, j + 1) == |s|
    ensures EmailScan(s, j, out) == DropLast(out, j - LocalStart(s, j)) + MARK
  {
    ScanStep(s, j, out, |s|, DropLast(out, j - LocalStart(s, j)) + MARK);
  }

  /** The two addresses of the text, and that they are chained. */
  lemma ChainedAddresses()
    ensures var s := "a@b.c@d.e";
            && AddressAt(s, 1) && LocalStart(s, 1) == 0 && DomainEnd(s, 2) == 5
            && AddressAt(s, 5) && LocalStart(s, 5) == 2 && DomainEnd(s, 6) == 9
            && Chained(s)
  {
    var s := "a@b.c@d.e";
    assert LocalStart(s, 1) == 0 && LocalStart(s, 2) == 2;
    assert LocalStart(s, 4) == 2;
    assert LocalStart(s, 5) == 2;
    assert DomainEnd(s, 5) == 5;
    assert DomainEnd(s, 3) == 5;
    assert DomainEnd(s, 2) == 5;
    assert DomainEnd(s, 9) == 9;
    assert DomainEnd(s, 8) == 9;
    assert DomainEnd(s, 6) == 9;
    assert s[2..5][1] == '.' && s[6..9][1] == '.';
    assert ChainedPair(s, 1, 5);
  }
}
