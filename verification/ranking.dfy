/** `sort_values(key, ascending=False).head(n)`: the records with the largest keys, a missing
    key (NaN) ranking below every present one. The order among equal keys is not specified
    by the source (the default sort is not stable), so nothing here promises one. */
module Ranking {
  import opened Basics

  /** `a` ranks at or above `b` in descending order, NaN last. */
  predicate AtLeast(a: Option<real>, b: Option<real>)
  {
    b.None? || (a.Some? && a.value >= b.value)
  }

  predicate SortedDesc<T>(s: seq<T>, key: T -> Option<real>)
  {
    forall i, j :: 0 <= i < j < |s| ==> AtLeast(key(s[i]), key(s[j]))
  }

  lemma AtLeastTotal(a: Option<real>, b: Option<real>)
    ensures AtLeast(a, b) || AtLeast(b, a)
  {
  }

  /** Places `x` in a descending sequence. */
  function Insert<T>(x: T, s: seq<T>, key: T -> Option<real>): (r: seq<T>)
    requires SortedDesc(s, key)
    ensures |r| == |s| + 1
    ensures SortedDesc(r, key)
    ensures multiset(r) == multiset(s) + multiset{x}
    ensures forall i :: 0 <= i < |r| ==> r[i] == x || r[i] in s
  {
    if |s| == 0 then [x]
    else if AtLeast(key(x), key(s[0])) then
      [x] + s
    else
      var rest := Insert(x, s[1..], key);
      assert s == [s[0]] + s[1..];
      forall k | 0 <= k < |rest| ensures AtLeast(key(s[0]), key(rest[k])) {
        if rest[k] != x {
          var q :| 0 <= q < |s[1..]| && s[1..][q] == rest[k];
          assert s[q + 1] == rest[k];
        }
      }
      ConsSorted(s[0], rest, key);
      [s[0]] + rest
  }

  /** A head ranking at or above every element of a descending tail keeps it descending. */
  lemma ConsSorted<T>(h: T, rest: seq<T>, key: T -> Option<real>)
    requires SortedDesc(rest, key)
    requires forall k :: 0 <= k < |rest| ==> AtLeast(key(h), key(rest[k]))
    ensures SortedDesc([h] + rest, key)
  {
    var r := [h] + rest;
    forall i, j | 0 <= i < j < |r| ensures AtLeast(key(r[i]), key(r[j])) {
      assert r[j] == rest[j - 1];
      if i > 0 {
        assert r[i] == rest[i - 1];
      }
    }
  }

  /** A descending arrangement of `xs`. */
  function SortDesc<T>(xs: seq<T>, key: T -> Option<real>): (r: seq<T>)
    ensures |r| == |xs|
    ensures SortedDesc(r, key)
    ensures multiset(r) == multiset(xs)
  {
    if |xs| == 0 then []
    else
      assert xs == [xs[0]] + xs[1..];
      Insert(xs[0], SortDesc(xs[1..], key), key)
  }

  function Min(a: nat, b: nat): nat
  {
    if a < b then a else b
  }

  /** The first `n` of a descending arrangement of `xs`. */
  function TopN<T(!new)>(xs: seq<T>, key: T -> Option<real>, n: nat): (top: seq<T>)
    ensures |top| == Min(n, |xs|)
    ensures SortedDesc(top, key)
    ensures multiset(top) <= multiset(xs)
    ensures forall y :: y in multiset(xs) - multiset(top) ==> forall i :: 0 <= i < |top| ==> AtLeast(key(top[i]), key(y))
  {
    var sorted := SortDesc(xs, key);
    PrefixFacts(xs, sorted, key, Min(n, |xs|));
    sorted[..Min(n, |xs|)]
  }

  /** The first `m` of a descending arrangement of `xs` are descending, come from `xs`, and
      rank at or above everything left out. */
  lemma PrefixFacts<T>(xs: seq<T>, sorted: seq<T>, key: T -> Option<real>, m: nat)
    requires SortedDesc(sorted, key) && multiset(sorted) == multiset(xs) && m <= |sorted|
    ensures SortedDesc(sorted[..m], key)
    ensures multiset(sorted[..m]) <= multiset(xs)
    ensures forall y :: y in multiset(xs) - multiset(sorted[..m]) ==> forall i :: 0 <= i < m ==> AtLeast(key(sorted[..m][i]), key(y))
  {
    var top := sorted[..m];
    var rest := sorted[m..];
    assert sorted == top + rest;
    assert multiset(xs) - multiset(top) == multiset(rest);
    forall y, i | y in multiset(rest) && 0 <= i < m
      ensures AtLeast(key(top[i]), key(y))
    {
      var j :| 0 <= j < |rest| && rest[j] == y;
      assert sorted[m + j] == y && top[i] == sorted[i];
    }
  }

  /** Every listed element comes from the input, and when fewer than `n` are listed nothing
      was left out. */
  lemma TopNMembers<T(!new)>(xs: seq<T>, key: T -> Option<real>, n: nat)
    ensures forall i :: 0 <= i < |TopN(xs, key, n)| ==> TopN(xs, key, n)[i] in xs
    ensures |xs| <= n ==> multiset(TopN(xs, key, n)) == multiset(xs)
  {
    var top := TopN(xs, key, n);
    forall i | 0 <= i < |top| ensures top[i] in xs {
      assert top[i] in multiset(top);
    }
    if |xs| <= n {
      var rest := multiset(xs) - multiset(top);
      assert multiset(xs) == multiset(top) + rest;
      assert |multiset(xs)| == |multiset(top)| + |rest|;
      assert |rest| == 0;
    }
  }
}
