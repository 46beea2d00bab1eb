/** String helpers: ASCII case mapping, prefix/suffix tests, Python's `str.replace`,
    Python's string ordering (code-point lexicographic) and `sorted(set(...))`. */
module Text {

  function LowerChar(c: char): char
  {
    if 'A' <= c <= 'Z' then (c as int + 32) as char else c
  }

  function UpperChar(c: char): char
  {
    if 'a' <= c <= 'z' then (c as int - 32) as char else c
  }

  /** `str.lower()`, restricted to ASCII letters. */
  function Lower(s: string): (r: string)
    ensures |r| == |s|
    ensures forall i :: 0 <= i < |s| ==> r[i] == LowerChar(s[i])
  {
    if |s| == 0 then [] else [LowerChar(s[0])] + Lower(s[1..])
  }

  /** `str.upper()`, restricted to ASCII letters. */
  function Upper(s: string): (r: string)
    ensures |r| == |s|
    ensures forall i :: 0 <= i < |s| ==> r[i] == UpperChar(s[i])
  {
    if |s| == 0 then [] else [UpperChar(s[0])] + Upper(s[1..])
  }

  predicate NoUpperAscii(s: string)
  {
    forall i :: 0 <= i < |s| ==> !('A' <= s[i] <= 'Z')
  }

  predicate NoLowerAscii(s: string)
  {
    forall i :: 0 <= i < |s| ==> !('a' <= s[i] <= 'z')
  }

  lemma LowerFixesLowercase(s: string)
    requires NoUpperAscii(s)
    ensures Lower(s) == s
  {
  }

  lemma UpperFixesUppercase(s: string)
    requires NoLowerAscii(s)
    ensures Upper(s) == s
  {
  }

  predicate StartsWith(s: string, p: string)
  {
    |p| <= |s| && s[..|p|] == p
  }

  predicate EndsWith(s: string, p: string)
  {
    |p| <= |s| && s[|s| - |p|..] == p
  }

  /** Python's `s.replace(pat, rep)`: every non-overlapping occurrence, scanned left to right. */
  function ReplaceAll(s: string, pat: string, rep: string): string
    requires |pat| > 0
    decreases |s|
  {
    if StartsWith(s, pat) then rep + ReplaceAll(s[|pat|..], pat, rep)
    else if |s| == 0 then []
    else [s[0]] + ReplaceAll(s[1..], pat, rep)
  }

  /** `pat` occurs somewhere in `s`. */
  predicate Contains(s: string, pat: string)
  {
    exists q :: 0 <= q <= |s| - |pat| && StartsWith(s[q..], pat)
  }

  /** When no occurrence of `pat` in `a + pat` starts inside `a`, replacing `pat` replaces the
      trailing one alone. */
  lemma {:induction false} ReplaceOnlyTrailing(a: string, pat: string, rep: string)
    requires |pat| > 0
    requires forall q :: 0 <= q < |a| ==> !StartsWith((a + pat)[q..], pat)
    ensures ReplaceAll(a + pat, pat, rep) == a + rep
    decreases |a|
  {
    if |a| == 0 {
      assert a + pat == pat;
      assert StartsWith(pat, pat);
      assert pat[|pat|..] == [];
      assert ReplaceAll([], pat, rep) == [];
    } else {
      var s := a + pat;
      assert s[0..] == s;
      assert s[1..] == a[1..] + pat;
      forall q | 0 <= q < |a[1..]| ensures !StartsWith((a[1..] + pat)[q..], pat) {
        assert (a[1..] + pat)[q..] == s[q + 1..];
      }
      assert ReplaceAll(s, pat, rep) == [s[0]] + ReplaceAll(s[1..], pat, rep);
      ReplaceOnlyTrailing(a[1..], pat, rep);
      assert a == [a[0]] + a[1..];
    }
  }

  /** When the first character of `pat` never occurs in `a`, the only occurrence of `pat`
      in `a + pat` is the trailing one. */
  lemma {:induction false} ReplaceTrailing(a: string, pat: string, rep: string)
    requires |pat| > 0
    requires pat[0] !in a
    ensures ReplaceAll(a + pat, pat, rep) == a + rep
    decreases |a|
  {
    if |a| == 0 {
      assert a + pat == pat;
      assert StartsWith(pat, pat);
      assert pat[|pat|..] == [];
      assert ReplaceAll([], pat, rep) == [];
    } else {
      var s := a + pat;
      assert s[0] == a[0];
      assert !StartsWith(s, pat) by {
        assert s[..|pat|][0] == a[0];
      }
      assert s[1..] == a[1..] + pat;
      assert ReplaceAll(s, pat, rep) == [s[0]] + ReplaceAll(s[1..], pat, rep);
      ReplaceTrailing(a[1..], pat, rep);
      assert a == [a[0]] + a[1..];
    }
  }

  /** Python's `<` on `str`: lexicographic by code point, a proper prefix first. */
  predicate StrLt(a: string, b: string)
    decreases |a|
  {
    if |a| == 0 then |b| > 0
    else if |b| == 0 then false
    else if a[0] != b[0] then a[0] < b[0]
    else StrLt(a[1..], b[1..])
  }

  lemma {:induction false} StrLtIrreflexive(a: string)
    ensures !StrLt(a, a)
    decreases |a|
  {
    if |a| > 0 {
      StrLtIrreflexive(a[1..]);
    }
  }

  lemma {:induction false} StrLtTransitive(a: string, b: string, c: string)
    requires StrLt(a, b) && StrLt(b, c)
    ensures StrLt(a, c)
    decreases |a|
  {
    if |a| > 0 && |b| > 0 && |c| > 0 && a[0] == b[0] && b[0] == c[0] {
      StrLtTransitive(a[1..], b[1..], c[1..]);
    }
  }

  lemma {:induction false} StrLtTotal(a: string, b: string)
    ensures a == b || StrLt(a, b) || StrLt(b, a)
    decreases |a|
  {
    if |a| > 0 && |b| > 0 && a[0] == b[0] {
      StrLtTotal(a[1..], b[1..]);
      if a[1..] == b[1..] {
        assert a == [a[0]] + a[1..] && b == [b[0]] + b[1..];
      }
    }
  }

  lemma StrLtAsymmetric(a: string, b: string)
    requires StrLt(a, b)
    ensures !StrLt(b, a)
  {
    if StrLt(b, a) {
      StrLtTransitive(a, b, a);
      StrLtIrreflexive(a);
    }
  }

  predicate StrictlySorted(s: seq<string>)
  {
    forall i, j :: 0 <= i < j < |s| ==> StrLt(s[i], s[j])
  }

  /** Inserts `x` into a strictly ascending sequence, dropping it when already present. */
  function InsertSorted(x: string, s: seq<string>): (r: seq<string>)
    requires StrictlySorted(s)
    ensures StrictlySorted(r)
    ensures forall y :: y in r <==> y == x || y in s
  {
    if |s| == 0 then [x]
    else if x == s[0] then s
    else if StrLt(x, s[0]) then
      assert forall j :: 0 <= j < |s| ==> StrLt(x, s[j]) by {
        forall j | 0 <= j < |s| ensures StrLt(x, s[j]) {
          if j > 0 { StrLtTransitive(x, s[0], s[j]); }
        }
      }
      [x] + s
    else
      StrLtTotal(x, s[0]);
      var rest := InsertSorted(x, s[1..]);
      assert forall y :: y in rest ==> StrLt(s[0], y) by {
        forall y | y in rest ensures StrLt(s[0], y) {
          if y != x {
            var j :| 0 <= j < |s[1..]| && s[1..][j] == y;
            assert s[j + 1] == y;
          }
        }
      }
      [s[0]] + rest
  }

  /** `sorted(set(xs))`: the distinct elements of `xs` in ascending order. */
  function SortedDistinct(xs: seq<string>): (r: seq<string>)
    ensures StrictlySorted(r)
    ensures forall y :: y in r <==> y in xs
  {
    if |xs| == 0 then []
    else
      var rest := SortedDistinct(xs[..|xs| - 1]);
      assert xs == xs[..|xs| - 1] + [xs[|xs| - 1]];
      InsertSorted(xs[|xs| - 1], rest)
  }

  /** A strictly sorted sequence holds no element twice. */
  lemma StrictlySortedDistinct(s: seq<string>, i: int, j: int)
    requires StrictlySorted(s)
    requires 0 <= i < |s| && 0 <= j < |s| && i != j
    ensures s[i] != s[j]
  {
    if i < j {
      StrLtIrreflexive(s[i]);
    } else {
      StrLtIrreflexive(s[j]);
    }
  }

  /** `os.path.basename`: the text after the last '/'. */
  function Basename(path: string): (r: string)
    ensures '/' !in r
    ensures EndsWith(path, r)
    ensures '/' !in path ==> r == path
    decreases |path|
  {
    if |path| == 0 then []
    else if path[|path| - 1] == '/' then []
    else
      var r := Basename(path[..|path| - 1]) + [path[|path| - 1]];
      assert path[..|path| - 1][|path| - 1 - (|r| - 1)..] + [path[|path| - 1]] == path[|path| - |r|..];
      r
  }
}
