/** The lexicographic order of strings, and collecting a set of strings in that order. */
module Strings {
  import opened Graphs

  predicate StrLeq(a: string, b: string) {
    a == [] || (b != [] && (a[0] < b[0] || (a[0] == b[0] && StrLeq(a[1..], b[1..]))))
  }

  predicate StrLess(a: string, b: string) {
    a != b && StrLeq(a, b)
  }

  lemma {:induction false} StrLeqTotal(a: string, b: string)
    ensures StrLeq(a, b) || StrLeq(b, a)
  {
    if a != [] && b != [] && a[0] == b[0] {
      StrLeqTotal(a[1..], b[1..]);
    }
  }

  lemma {:induction false} StrLeqAntisymmetric(a: string, b: string)
    requires StrLeq(a, b) && StrLeq(b, a)
    ensures a == b
  {
    if a != [] {
      StrLeqAntisymmetric(a[1..], b[1..]);
      assert a == [a[0]] + a[1..] && b == [b[0]] + b[1..];
    }
  }

  lemma {:induction false} StrLeqTransitive(a: string, b: string, c: string)
    requires StrLeq(a, b) && StrLeq(b, c)
    ensures StrLeq(a, c)
  {
    if a != [] && a[0] == b[0] == c[0] {
      StrLeqTransitive(a[1..], b[1..], c[1..]);
    }
  }

  /** At position `k` the strings first differ, and there `a` has the smaller character. */
  ghost predicate SmallerAt(a: string, b: string, k: nat) {
    k < |a| && k < |b| && a[..k] == b[..k] && a[k] < b[k]
  }

  /** The order in plain terms: a prefix comes first, else the smaller character at the first difference. */
  lemma {:induction false} StrLeqExactly(a: string, b: string)
    ensures StrLeq(a, b) <==> a <= b || exists k: nat :: SmallerAt(a, b, k)
  {
    if a != [] && b != [] && a[0] == b[0] {
      StrLeqExactly(a[1..], b[1..]);
      assert a == [a[0]] + a[1..] && b == [b[0]] + b[1..];
      if k: nat :| SmallerAt(a[1..], b[1..], k) {
        assert a[..k + 1] == [a[0]] + a[1..][..k] && b[..k + 1] == [b[0]] + b[1..][..k];
        assert SmallerAt(a, b, k + 1);
      }
      if k: nat :| SmallerAt(a, b, k) {
        assert a[1..][..k - 1] == a[..k][1..] && b[1..][..k - 1] == b[..k][1..];
        assert SmallerAt(a[1..], b[1..], k - 1);
      }
    } else if a != [] && b != [] && a[0] < b[0] {
      assert SmallerAt(a, b, 0);
    } else if a != [] && b != [] {
      forall k: nat ensures !SmallerAt(a, b, k) {
        if k > 0 && k < |a| && k < |b| {
          assert a[..k][0] != b[..k][0];
        }
      }
    }
  }

  ghost predicate Ascending(s: seq<string>) {
    forall i, j :: 0 <= i < j < |s| ==> StrLess(s[i], s[j])
  }

  predicate IsLeast(s: set<string>, x: string) {
    x in s && forall y | y in s :: StrLeq(x, y)
  }

  method Least(s: set<string>) returns (x: string)
    requires s != {}
    ensures IsLeast(s, x)
  {
    ghost var _ := HasLeast(s);
    x :| x in s && IsLeast(s, x);
  }

  lemma {:induction false} HasLeast(s: set<string>) returns (x: string)
    requires s != {}
    ensures IsLeast(s, x)
  {
    var e :| e in s;
    StrLeqTotal(e, e);
    if s == {e} {
      x := e;
    } else {
      var m := HasLeast(s - {e});
      StrLeqTotal(e, m);
      x := if StrLeq(e, m) then e else m;
      forall y | y in s ensures StrLeq(x, y) {
        assert y == e || y in s - {e};
        if x == e && y != e {
          StrLeqTransitive(e, m, y);
        }
      }
    }
  }

  /** Collect and sort. */
  method SortedKeys(s: set<string>) returns (r: seq<string>)
    ensures Elems(r) == s && Ascending(r)
  {
    r := [];
    var rest := s;
    while rest != {}
      invariant Elems(r) == s - rest && rest <= s && Ascending(r)
      invariant forall a, b :: a in Elems(r) && b in rest ==> StrLess(a, b)
    {
      var x := Least(rest);
      assert Elems(r + [x]) == Elems(r) + {x};
      forall a, b | a in Elems(r + [x]) && b in rest - {x} ensures StrLess(a, b) {
        if a == x {
          assert b in rest && IsLeast(rest, x);
        }
      }
      rest, r := rest - {x}, r + [x];
    }
  }
}
