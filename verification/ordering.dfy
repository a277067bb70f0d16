/** Python's ordering of `str` values and the `sorted(...)` of a set of keys
    that the listing pages show. */
module Ordering {

  /** Python's `a < b` on strings: lexicographic by code point, with a proper
      prefix ordered before the longer string. */
  predicate Below(a: string, b: string) {
    if |a| == 0 then |b| > 0
    else |b| > 0 && (a[0] < b[0] || (a[0] == b[0] && Below(a[1..], b[1..])))
  }

  lemma {:induction false} BelowIrreflexive(a: string)
    ensures !Below(a, a)
  {
    if |a| > 0 {
      BelowIrreflexive(a[1..]);
    }
  }

  lemma {:induction false} BelowTransitive(a: string, b: string, c: string)
    requires Below(a, b) && Below(b, c)
    ensures Below(a, c)
  {
    if |a| > 0 && a[0] == b[0] && b[0] == c[0] {
      BelowTransitive(a[1..], b[1..], c[1..]);
    }
  }

  /** Any two different strings are ordered one way or the other. */
  lemma {:induction false} BelowTotal(a: string, b: string)
    ensures a == b || Below(a, b) || Below(b, a)
  {
    if |a| > 0 && |b| > 0 && a[0] == b[0] {
      BelowTotal(a[1..], b[1..]);
      if a[1..] == b[1..] {
        assert a == [a[0]] + a[1..] && b == [b[0]] + b[1..];
      }
    }
  }

  lemma BelowAsymmetric(a: string, b: string)
    requires Below(a, b)
    ensures !Below(b, a)
  {
    if Below(b, a) {
      BelowTransitive(a, b, a);
      BelowIrreflexive(a);
    }
  }

  /** Strictly increasing, hence also free of duplicates. */
  predicate StrictlySorted(xs: seq<string>) {
    forall i, j :: 0 <= i < j < |xs| ==> Below(xs[i], xs[j])
  }

  lemma SortedPrepend(k: string, xs: seq<string>)
    requires StrictlySorted(xs)
    requires |xs| > 0 ==> Below(k, xs[0])
    ensures StrictlySorted([k] + xs)
  {
    var r := [k] + xs;
    forall i, j | 0 <= i < j < |r|
      ensures Below(r[i], r[j])
    {
      if i == 0 && j > 1 {
        BelowTransitive(k, xs[0], xs[j - 1]);
      }
    }
  }

  /** Inserts a new key into a sorted sequence at its place. */
  function Insert(xs: seq<string>, k: string): (r: seq<string>)
    requires StrictlySorted(xs) && k !in xs
    ensures StrictlySorted(r)
    ensures |r| == |xs| + 1
    ensures forall y :: y in r <==> y in xs || y == k
  {
    if |xs| == 0 then [k]
    else if Below(k, xs[0]) then
      SortedPrepend(k, xs);
      [k] + xs
    else
      BelowTotal(k, xs[0]);
      var tail := Insert(xs[1..], k);
      assert xs == [xs[0]] + xs[1..];
      assert forall y :: y in tail ==> Below(xs[0], y);
      SortedPrepend(xs[0], tail);
      [xs[0]] + tail
  }

  /** Python's `sorted(keys)`: every key once, in increasing order. */
  method SortedKeys(keys: set<string>) returns (r: seq<string>)
    ensures StrictlySorted(r)
    ensures forall k :: k in r <==> k in keys
    ensures |r| == |keys|
  {
    r := [];
    var rest := keys;
    while rest != {}
      invariant rest <= keys
      invariant StrictlySorted(r)
      invariant forall k :: k in r <==> k in keys && k !in rest
      invariant |r| + |rest| == |keys|
      decreases rest
    {
      var k :| k in rest;
      r := Insert(r, k);
      rest := rest - {k};
    }
  }

  /** The first element of a sorted sequence is below every other element,
      and the rest of the sequence holds exactly those other elements. */
  lemma HeadLeast(xs: seq<string>)
    requires StrictlySorted(xs) && |xs| > 0
    ensures forall k :: k in xs && k != xs[0] ==> Below(xs[0], k)
    ensures forall k :: k in xs[1..] <==> k in xs && k != xs[0]
  {
    BelowIrreflexive(xs[0]);
    assert xs == [xs[0]] + xs[1..];
  }

  /** There is only one sorted arrangement of a set of keys, so the listing
      is fully determined by the key set. */
  lemma {:induction false} SortedUnique(xs: seq<string>, ys: seq<string>)
    requires StrictlySorted(xs) && StrictlySorted(ys)
    requires forall k :: k in xs <==> k in ys
    ensures xs == ys
  {
    assert |xs| > 0 ==> xs[0] in ys;
    assert |ys| > 0 ==> ys[0] in xs;
    if |xs| > 0 && |ys| > 0 {
      HeadLeast(xs);
      HeadLeast(ys);
      assert xs[0] in ys && ys[0] in xs;
      if xs[0] != ys[0] {
        BelowAsymmetric(xs[0], ys[0]);
      }
      SortedUnique(xs[1..], ys[1..]);
      assert xs == [xs[0]] + xs[1..] && ys == [ys[0]] + ys[1..];
    }
  }

}
