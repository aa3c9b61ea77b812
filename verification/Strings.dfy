/** Go's string order and sort.Strings: lexicographic, a prefix first. */
module Strings {

  predicate LessEq(a: string, b: string) {
    a == [] || (b != [] && (a[0] < b[0] || (a[0] == b[0] && LessEq(a[1..], b[1..]))))
  }

  /** The strings agree before position `k`, and there `a` has the smaller character. */
  predicate SmallerAt(a: string, b: string, k: nat) {
    k < |a| && k < |b| && a[..k] == b[..k] && a[k] < b[k]
  }

  lemma SmallerInTail(a: string, b: string, k: nat)
    requires a != [] && b != [] && a[0] == b[0]
    ensures SmallerAt(a, b, k + 1) <==> SmallerAt(a[1..], b[1..], k)
  {
    if k + 1 < |a| && k + 1 < |b| {
      assert a[..k + 1] == [a[0]] + a[1..][..k] && b[..k + 1] == [b[0]] + b[1..][..k];
      assert a[1..][..k] == a[..k + 1][1..] && b[1..][..k] == b[..k + 1][1..];
    }
  }

  /** The order by the first difference: a prefix comes first, and otherwise the smaller character. */
  lemma {:induction false} LessEqByFirstDifference(a: string, b: string)
    ensures LessEq(a, b) <==> a <= b || exists k: nat :: SmallerAt(a, b, k)
    decreases |a|
  {
    if a != [] && b != [] && a[0] == b[0] {
      hide SmallerAt;
      var x, y := a[1..], b[1..];
      LessEqByFirstDifference(x, y);
      assert a == [a[0]] + x && b == [b[0]] + y;
      assert a <= b <==> x <= y;
      NotSmallerAtStart(a, b);
      if k: nat :| SmallerAt(x, y, k) { SmallerInTail(a, b, k); }
      if k: nat :| SmallerAt(a, b, k) { SmallerInTail(a, b, k - 1); }
    } else if a != [] && b != [] {
      assert a[0] < b[0] ==> SmallerAt(a, b, 0);
      forall k: nat | k > 0 ensures !SmallerAt(a, b, k) {
        if k < |a| && k < |b| { assert a[..k][0] != b[..k][0]; }
      }
    }
  }

  lemma NotSmallerAtStart(a: string, b: string)
    requires a != [] && b != [] && a[0] == b[0]
    ensures !SmallerAt(a, b, 0)
  {
  }

  predicate Less(a: string, b: string) {
    LessEq(a, b) && a != b
  }

  lemma {:induction false} LessEqTotal(a: string, b: string)
    ensures LessEq(a, b) || LessEq(b, a)
    decreases |a|
  {
    if a != [] && b != [] && a[0] == b[0] { LessEqTotal(a[1..], b[1..]); }
  }

  lemma {:induction false} LessEqTransitive(a: string, b: string, c: string)
    requires LessEq(a, b) && LessEq(b, c)
    ensures LessEq(a, c)
    decreases |a|
  {
    if a != [] && a[0] == b[0] == c[0] { LessEqTransitive(a[1..], b[1..], c[1..]); }
  }

  lemma {:induction false} LessEqAntisymmetric(a: string, b: string)
    requires LessEq(a, b) && LessEq(b, a)
    ensures a == b
    decreases |a|
  {
    if a != [] {
      LessEqAntisymmetric(a[1..], b[1..]);
      assert a == [a[0]] + a[1..] && b == [b[0]] + b[1..];
    }
  }

  ghost predicate Ascending(s: seq<string>) {
    forall i, j :: 0 <= i < j < |s| ==> Less(s[i], s[j])
  }

  /** Puts a new string into its place among ascending ones. */
  method InsertString(s: seq<string>, x: string) returns (r: seq<string>)
    requires Ascending(s) && x !in s
    ensures Ascending(r) && multiset(r) == multiset(s) + multiset{x}
  {
    hide LessEq;
    var k := 0;
    while k < |s| && LessEq(s[k], x)
      invariant k <= |s| && forall i :: 0 <= i < k ==> Less(s[i], x)
    {
      k := k + 1;
    }
    r := s[..k] + [x] + s[k..];
    forall i | k <= i < |s| ensures Less(x, s[i]) {
      LessEqTotal(x, s[k]);
      if k < i { LessEqTransitive(x, s[k], s[i]); }
    }
    InsertedAscending(s, x, k);
    assert s == s[..k] + s[k..];
  }

  lemma InsertedAscending(s: seq<string>, x: string, k: nat)
    requires Ascending(s) && k <= |s| && forall i :: 0 <= i < k ==> Less(s[i], x)
    requires forall i :: k <= i < |s| ==> Less(x, s[i])
    ensures Ascending(s[..k] + [x] + s[k..])
  {
    hide Less;
    var r := s[..k] + [x] + s[k..];
    assert forall i :: 0 <= i < |r| ==> r[i] == if i < k then s[i] else if i == k then x else s[i - 1];
  }

  /** sort.Strings on distinct strings. */
  method SortStrings(s: seq<string>) returns (r: seq<string>)
    requires forall i, j :: 0 <= i < j < |s| ==> s[i] != s[j]
    ensures Ascending(r) && multiset(r) == multiset(s)
  {
    r := [];
    for i := 0 to |s|
      invariant Ascending(r) && multiset(r) == multiset(s[..i])
    {
      assert s[i] !in s[..i];
      assert s[i] !in multiset(r);
      r := InsertString(r, s[i]);
      assert s[..i + 1] == s[..i] + [s[i]];
    }
    assert s[..|s|] == s;
  }
}
