/** Facts about sequences that several modules need. */
module Sequences {
  lemma Regroup<T>(a: seq<T>, b: seq<T>, c: seq<T>)
    ensures (a + b) + c == a + (b + c)
  {
  }

  lemma TakeOutOne<T>(s: seq<T>, k: nat)
    requires k < |s|
    ensures multiset(s[..k] + s[k + 1..]) == multiset(s) - multiset{s[k]}
  {
    assert s == s[..k] + [s[k]] + s[k + 1..];
  }

  /** Where the last element of p stands in a permutation of p. */
  lemma PlaceOf<T>(p: seq<T>, q: seq<T>) returns (k: nat)
    requires multiset(p) == multiset(q) && p != []
    ensures k < |q| && q[k] == p[|p| - 1] && multiset(p[..|p| - 1]) == multiset(q[..k] + q[k + 1..])
  {
    var n := |p| - 1;
    assert p[n] in multiset(p);
    k :| 0 <= k < |q| && q[k] == p[n];
    assert p == p[..n] + [p[n]];
    TakeOutOne(q, k);
    assert multiset(p[..n]) == multiset(p) - multiset{p[n]};
  }
}
