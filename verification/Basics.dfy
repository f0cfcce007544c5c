/** What several of the modules need of optional values and sequences. */
module Basics {
  datatype Option<+T> = None | Some(value: T)

  ghost predicate Distinct<T>(s: seq<T>) {
    forall i, j :: 0 <= i < j < |s| ==> s[i] != s[j]
  }

  lemma {:induction false} NoMoreThan<T>(s: seq<T>, t: seq<T>)
    requires Distinct(s) && forall x <- s :: x in t
    ensures |s| <= |t|
  {
    if s != [] {
      assert s[0] in s;
      var k :| 0 <= k < |t| && t[k] == s[0];
      var rest := t[..k] + t[k + 1..];
      assert t == t[..k] + [t[k]] + t[k + 1..];
      forall x | x in s[1..] ensures x in rest {
        assert x in s && x != s[0];
      }
      NoMoreThan(s[1..], rest);
    }
  }

  lemma Inserted<T>(s: seq<T>, at: nat, x: T)
    requires at <= |s|
    ensures multiset(s[..at] + [x] + s[at..]) == multiset(s) + multiset{x}
    ensures forall y :: y in s[..at] + [x] + s[at..] <==> y in s || y == x
  {
    assert s == s[..at] + s[at..];
  }
}
