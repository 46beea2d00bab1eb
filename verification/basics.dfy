/** Option and Result carriers shared by every stage of the pipeline.
    `None` stands for a pandas missing value (NaN / NaT), `Err` for a raised exception. */
module Basics {

  datatype Option<+T> = None | Some(value: T)

  datatype Result<+T, +E> = Ok(value: T) | Err(error: E)

  /** Number of elements of `s` that satisfy `p`; the model of summing a boolean column. */
  function CountIf<T>(s: seq<T>, p: T -> bool): (n: nat)
    ensures n <= |s|
    ensures n == 0 <==> forall i :: 0 <= i < |s| ==> !p(s[i])
    ensures n == |s| <==> forall i :: 0 <= i < |s| ==> p(s[i])
  {
    if |s| == 0 then 0
    else
      var rest := CountIf(s[1..], p);
      assert forall i :: 1 <= i < |s| ==> s[i] == s[1..][i - 1];
      (if p(s[0]) then 1 else 0) + rest
  }

  /** The elements of `s` that satisfy `p`, in their original order (a boolean mask). */
  function Filter<T>(s: seq<T>, p: T -> bool): (r: seq<T>)
    ensures |r| == CountIf(s, p)
    ensures forall i :: 0 <= i < |r| ==> r[i] in s && p(r[i])
    ensures forall i :: 0 <= i < |s| && p(s[i]) ==> s[i] in r
  {
    if |s| == 0 then []
    else
      var rest := Filter(s[1..], p);
      assert s == [s[0]] + s[1..];
      if p(s[0]) then [s[0]] + rest else rest
  }

  lemma {:induction false} FilterAppend<T>(a: seq<T>, b: seq<T>, p: T -> bool)
    ensures Filter(a + b, p) == Filter(a, p) + Filter(b, p)
  {
    if |a| == 0 {
      assert a + b == b;
    } else {
      assert (a + b)[1..] == a[1..] + b;
      FilterAppend(a[1..], b, p);
    }
  }

  lemma {:induction false} CountIfAppend<T>(a: seq<T>, b: seq<T>, p: T -> bool)
    ensures CountIf(a + b, p) == CountIf(a, p) + CountIf(b, p)
  {
    FilterAppend(a, b, p);
  }

  /** The set of elements of a sequence. */
  function Elems<T>(s: seq<T>): set<T>
  {
    set i | 0 <= i < |s| :: s[i]
  }

  /** A sequence without repeats has as many distinct elements as positions. */
  lemma {:induction false} DistinctCard<T>(s: seq<T>)
    requires forall p, q :: 0 <= p < q < |s| ==> s[p] != s[q]
    ensures |Elems(s)| == |s|
  {
    if |s| > 0 {
      var t := s[..|s| - 1];
      var last := s[|s| - 1];
      DistinctCard(t);
      assert last !in Elems(t) by {
        forall p | 0 <= p < |t| ensures t[p] != last {
          assert s[p] == t[p];
        }
      }
      assert Elems(s) == Elems(t) + {last} by {
        forall x ensures x in Elems(s) <==> x in Elems(t) + {last} {
          if x in Elems(s) {
            var i :| 0 <= i < |s| && s[i] == x;
            if i < |s| - 1 { assert t[i] == x; }
          }
          if x in Elems(t) {
            var i :| 0 <= i < |t| && t[i] == x;
            assert s[i] == x;
          }
        }
      }
    } else {
      assert Elems(s) == {};
    }
  }

  /** No element occurs twice. */
  predicate Distinct<T(==)>(s: seq<T>)
  {
    forall i, j :: 0 <= i < j < |s| ==> s[i] != s[j]
  }

  lemma {:induction false} FilterDistinct<T>(s: seq<T>, p: T -> bool)
    requires Distinct(s)
    ensures Distinct(Filter(s, p))
  {
    if |s| > 0 {
      FilterDistinct(s[1..], p);
      var rest := Filter(s[1..], p);
      if p(s[0]) {
        assert Filter(s, p) == [s[0]] + rest;
        forall i | 0 <= i < |rest| ensures rest[i] != s[0] {
          var k :| 0 <= k < |s[1..]| && s[1..][k] == rest[i];
        }
      }
    }
  }

  lemma {:induction false} FilterAll<T>(s: seq<T>, p: T -> bool)
    requires forall i :: 0 <= i < |s| ==> p(s[i])
    ensures Filter(s, p) == s
  {
    if |s| > 0 {
      FilterAll(s[1..], p);
      assert s == [s[0]] + s[1..];
    }
  }

  lemma {:induction false} FilterNone<T>(s: seq<T>, p: T -> bool)
    requires forall i :: 0 <= i < |s| ==> !p(s[i])
    ensures Filter(s, p) == []
  {
    if |s| > 0 {
      FilterNone(s[1..], p);
    }
  }

  /** Filtering depends only on the predicate's values on the elements. */
  lemma {:induction false} FilterSamePredicate<T>(s: seq<T>, p: T -> bool, q: T -> bool)
    requires forall i :: 0 <= i < |s| ==> p(s[i]) == q(s[i])
    ensures Filter(s, p) == Filter(s, q)
  {
    if |s| > 0 {
      FilterSamePredicate(s[1..], p, q);
    }
  }

  /** Filtering a sequence whose middle part alone satisfies `p` yields that part. */
  lemma FilterMiddle<T>(front: seq<T>, mid: seq<T>, back: seq<T>, p: T -> bool)
    requires forall i :: 0 <= i < |front| ==> !p(front[i])
    requires forall i :: 0 <= i < |mid| ==> p(mid[i])
    requires forall i :: 0 <= i < |back| ==> !p(back[i])
    ensures Filter(front + mid + back, p) == mid
  {
    FilterNone(front, p);
    FilterAll(mid, p);
    FilterNone(back, p);
    FilterAppend(front, mid, p);
    FilterAppend(front + mid, back, p);
  }

  lemma DistinctConcat<T>(a: seq<T>, b: seq<T>)
    requires Distinct(a) && Distinct(b)
    requires forall i, j :: 0 <= i < |a| && 0 <= j < |b| ==> a[i] != b[j]
    ensures Distinct(a + b)
  {
    forall i, j | 0 <= i < j < |a + b| ensures (a + b)[i] != (a + b)[j] {
      if j < |a| {
        assert (a + b)[i] == a[i] && (a + b)[j] == a[j];
      } else if i < |a| {
        assert (a + b)[i] == a[i] && (a + b)[j] == b[j - |a|];
      } else {
        assert (a + b)[i] == b[i - |a|] && (a + b)[j] == b[j - |a|];
      }
    }
  }

  /** Two different names placed before a repeat-free sequence that holds neither. */
  lemma DistinctPair<T>(a: T, b: T, s: seq<T>)
    requires a != b && a !in s && b !in s && Distinct(s)
    ensures Distinct([a, b] + s)
  {
    forall i, j | 0 <= i < |[a, b]| && 0 <= j < |s| ensures [a, b][i] != s[j] {
      assert s[j] in s;
    }
    DistinctConcat([a, b], s);
  }

  /** Counting depends only on the predicate's values on the elements. */
  lemma {:induction false} CountIfSamePredicate<T>(s: seq<T>, p: T -> bool, q: T -> bool)
    requires forall i :: 0 <= i < |s| ==> p(s[i]) == q(s[i])
    ensures CountIf(s, p) == CountIf(s, q)
  {
    FilterSamePredicate(s, p, q);
  }

  /** Keeping the elements that pass both `p` and `q`, where `q` implies `p`, keeps exactly
      those passing `q`. */
  lemma FilterImplied<T>(s: seq<T>, p: T -> bool, q: T -> bool, pq: T -> bool, r: seq<T>)
    requires forall i :: 0 <= i < |s| ==> pq(s[i]) == (p(s[i]) && q(s[i]))
    requires forall i :: 0 <= i < |s| && q(s[i]) ==> p(s[i])
    requires r == Filter(s, pq)
    ensures forall i :: 0 <= i < |r| ==> r[i] in s && p(r[i]) && q(r[i])
    ensures forall i :: 0 <= i < |s| && q(s[i]) ==> s[i] in r
    ensures |r| == 0 <==> forall i :: 0 <= i < |s| ==> !q(s[i])
  {
    forall i | 0 <= i < |r| ensures r[i] in s && p(r[i]) && q(r[i]) {
      var j :| 0 <= j < |s| && s[j] == r[i];
    }
    if |r| > 0 {
      var k :| 0 <= k < |s| && s[k] == r[0];
    }
  }

  /** Filtering twice keeps the elements that pass both tests. */
  lemma {:induction false} FilterFilter<T>(s: seq<T>, p: T -> bool, q: T -> bool, pq: T -> bool)
    requires forall i :: 0 <= i < |s| ==> pq(s[i]) == (p(s[i]) && q(s[i]))
    ensures Filter(Filter(s, p), q) == Filter(s, pq)
  {
    if |s| > 0 {
      FilterFilter(s[1..], p, q, pq);
      var rest := Filter(s[1..], p);
      if p(s[0]) {
        assert Filter(s, p) == [s[0]] + rest;
        assert ([s[0]] + rest)[1..] == rest;
      }
    }
  }

  /** Counting within a filtered sequence counts the elements satisfying both tests. */
  lemma {:induction false} CountIfFilter<T>(s: seq<T>, p: T -> bool, q: T -> bool, pq: T -> bool)
    requires forall i :: 0 <= i < |s| ==> pq(s[i]) == (p(s[i]) && q(s[i]))
    ensures CountIf(Filter(s, p), q) == CountIf(s, pq)
  {
    if |s| > 0 {
      CountIfFilter(s[1..], p, q, pq);
      var rest := Filter(s[1..], p);
      if p(s[0]) {
        assert Filter(s, p) == [s[0]] + rest;
        assert ([s[0]] + rest)[1..] == rest;
      }
    }
  }

  /** A test splits a count in two. */
  lemma {:induction false} CountIfSplit<T>(s: seq<T>, p: T -> bool, pq: T -> bool, pnq: T -> bool, q: T -> bool)
    requires forall i :: 0 <= i < |s| ==> pq(s[i]) == (p(s[i]) && q(s[i]))
    requires forall i :: 0 <= i < |s| ==> pnq(s[i]) == (p(s[i]) && !q(s[i]))
    ensures CountIf(s, pq) + CountIf(s, pnq) == CountIf(s, p)
  {
    if |s| > 0 {
      CountIfSplit(s[1..], p, pq, pnq, q);
    }
  }
}
