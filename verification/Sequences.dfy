/** Small facts about sequences. */
module Sequences {

  function Without<T>(s: seq<T>, k: nat): seq<T>
    requires k < |s|
  {
    s[..k] + s[k + 1..]
  }

  lemma WithoutMultiset<T>(s: seq<T>, k: nat)
    requires k < |s|
    ensures multiset(Without(s, k)) == multiset(s) - multiset{s[k]}
  {
    assert s == s[..k] + [s[k]] + s[k + 1..];
  }

  lemma TwoMultiset<T>(x: T, y: T, s: seq<T>)
    ensures multiset([x, y] + s) == multiset{x, y} + multiset(s)
  {
    assert multiset([x, y]) == multiset{x, y};
  }

  lemma PutBack<T>(m: multiset<T>, x: T, y: T)
    requires x in m && y in m - multiset{x}
    ensures multiset{x, y} + (m - multiset{x} - multiset{y}) == m
  {
  }

  lemma Removed<T>(s: seq<T>, x: T) returns (others: seq<T>)
    requires x in s
    ensures multiset(others) == multiset(s) - multiset{x}
  {
    var i :| 0 <= i < |s| && s[i] == x;
    WithoutMultiset(s, i);
    others := Without(s, i);
  }

  /** Two different elements moved to the front. */
  lemma MovedToFront<T>(s: seq<T>, x: T, y: T) returns (others: seq<T>)
    requires x in s && y in s && x != y
    ensures multiset([x, y] + others) == multiset(s) && multiset([y, x] + others) == multiset(s)
  {
    var t := Removed(s, x);
    assert y in multiset(s) && y in multiset(t);
    others := Removed(t, y);
    TwoMultiset(x, y, others);
    TwoMultiset(y, x, others);
    PutBack(multiset(s), x, y);
    assert multiset{x, y} == multiset{y, x};
  }
}
