/**
 Sequences read as sets, and picking from a set.
 */
module Collections {

  predicate NoDuplicates(s: seq<int>) {
    forall i, j :: 0 <= i < j < |s| ==> s[i] != s[j]
  }

  /** The sequence lists the set, in some order. */
  ghost predicate Lists(s: seq<int>, elements: set<int>) {
    NoDuplicates(s) && forall x :: x in s <==> x in elements
  }

  /** The place of the first element that satisfies p; the length if there is none. */
  function FirstWhere<T>(s: seq<T>, p: T -> bool): (k: nat)
    ensures k <= |s|
    ensures k < |s| ==> p(s[k])
    ensures forall j :: 0 <= j < k ==> !p(s[j])
  {
    if s == [] || p(s[0]) then 0 else 1 + FirstWhere(s[1..], p)
  }

  lemma SomeKey<K, V>(m: map<K, V>) returns (k: K)
    requires m != map[]
    ensures k in m && |m - {k}| < |m|
  {
    assert m.Keys != {};
    k :| k in m.Keys;
    assert (m - {k}).Keys == m.Keys - {k};
    assert |(m - {k}).Keys| == |m.Keys| - 1;
  }

  /** Some element of a set, as an iteration in no fixed order would pick it. */
  method AnyOf<T>(s: set<T>) returns (x: T)
    requires s != {}
    ensures x in s
  {
    x :| x in s;
  }
}
