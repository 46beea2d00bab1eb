/** Decimal text: `str(n)` for integers, `int(digits)`, `str.zfill`, and the activity
    tokens `A01`, `A02`, ... built from them. */
module Decimal {
  import opened Text

  predicate IsDigit(c: char)
  {
    '0' <= c <= '9'
  }

  predicate AllDigits(s: string)
  {
    forall i :: 0 <= i < |s| ==> IsDigit(s[i])
  }

  function DigitChar(d: nat): (c: char)
    requires d < 10
    ensures IsDigit(c)
    ensures c as int - '0' as int == d
  {
    ('0' as int + d) as char
  }

  /** `str(n)` for a non-negative integer: shortest decimal form, no leading zero. */
  function NatToString(n: nat): (s: string)
    ensures |s| > 0 && AllDigits(s)
    ensures |s| > 1 ==> s[0] != '0'
    ensures n < 10 <==> |s| == 1
    decreases n
  {
    if n < 10 then [DigitChar(n)] else NatToString(n / 10) + [DigitChar(n % 10)]
  }

  /** `int(s)` for a string of decimal digits (leading zeros allowed). */
  function DigitsValue(s: string): nat
    requires AllDigits(s)
    decreases |s|
  {
    if |s| == 0 then 0
    else 10 * DigitsValue(s[..|s| - 1]) + (s[|s| - 1] as int - '0' as int)
  }

  lemma {:induction false} NatToStringRoundTrip(n: nat)
    ensures DigitsValue(NatToString(n)) == n
    decreases n
  {
    if n >= 10 {
      var s := NatToString(n);
      assert s[..|s| - 1] == NatToString(n / 10);
      NatToStringRoundTrip(n / 10);
    }
  }

  lemma NatToStringInjective(m: nat, n: nat)
    requires NatToString(m) == NatToString(n)
    ensures m == n
  {
    NatToStringRoundTrip(m);
    NatToStringRoundTrip(n);
  }

  /** `str(i)` for any integer. */
  function IntToString(i: int): (s: string)
    ensures |s| > 0
    ensures i >= 0 ==> AllDigits(s) && DigitsValue(s) == i
    ensures i < 0 ==> s[0] == '-' && AllDigits(s[1..]) && DigitsValue(s[1..]) == -i
  {
    if i < 0 then
      NatToStringRoundTrip(-i);
      assert ("-" + NatToString(-i))[1..] == NatToString(-i);
      "-" + NatToString(-i)
    else
      NatToStringRoundTrip(i);
      NatToString(i)
  }

  function Zeros(m: nat): (z: string)
    ensures |z| == m
    ensures forall i :: 0 <= i < m ==> z[i] == '0'
  {
    seq(m, _ => '0')
  }

  /** `s.zfill(width)` for an unsigned digit string. */
  function ZFill(s: string, width: nat): (r: string)
  {
    if |s| >= width then s else Zeros(width - |s|) + s
  }

  lemma {:induction false} ZerosValue(m: nat)
    ensures AllDigits(Zeros(m))
    ensures DigitsValue(Zeros(m)) == 0
    decreases m
  {
    if m > 0 {
      assert Zeros(m)[..m - 1] == Zeros(m - 1);
      ZerosValue(m - 1);
    }
  }

  lemma {:induction false} LeadingZerosValue(m: nat, s: string)
    requires AllDigits(s)
    ensures AllDigits(Zeros(m) + s)
    ensures DigitsValue(Zeros(m) + s) == DigitsValue(s)
    decreases |s|
  {
    if |s| == 0 {
      assert Zeros(m) + s == Zeros(m);
      ZerosValue(m);
    } else {
      var t := Zeros(m) + s;
      assert t[..|t| - 1] == Zeros(m) + s[..|s| - 1];
      LeadingZerosValue(m, s[..|s| - 1]);
    }
  }

  /** Zero padding keeps the digits (on the right), reaches the width, and keeps the value. */
  lemma ZFillFacts(s: string, width: nat)
    requires AllDigits(s)
    ensures var r := ZFill(s, width);
      && |r| == (if |s| >= width then |s| else width)
      && EndsWith(r, s)
      && AllDigits(r)
      && DigitsValue(r) == DigitsValue(s)
  {
    if |s| < width {
      LeadingZerosValue(width - |s|, s);
      var r := Zeros(width - |s|) + s;
      assert r[|r| - |s|..] == s;
    }
  }

  /** The activity token for the activity at 0-based position `i` of the sorted name list:
      `"A" + str(i + 1).zfill(2)`. */
  function Token(i: nat): string
  {
    "A" + ZFill(NatToString(i + 1), 2)
  }

  /** A token is `A` followed by at least two digits whose value is the 1-based position;
      below ten it is padded with exactly one zero, from ten on it is the plain number. */
  lemma TokenShape(i: nat)
    ensures var t := Token(i);
      && |t| >= 3 && t[0] == 'A'
      && AllDigits(t[1..])
      && DigitsValue(t[1..]) == i + 1
      && (i + 1 < 10 ==> t == ['A', '0', DigitChar(i + 1)])
      && (i + 1 >= 10 ==> t[1..] == NatToString(i + 1))
  {
    var d := NatToString(i + 1);
    ZFillFacts(d, 2);
    NatToStringRoundTrip(i + 1);
    var t := Token(i);
    assert t[1..] == ZFill(d, 2);
    if i + 1 < 10 {
      assert Zeros(1) == ['0'];
    }
  }

  /** Distinct positions get distinct tokens. */
  lemma TokenInjective(i: nat, j: nat)
    requires Token(i) == Token(j)
    ensures i == j
  {
    TokenShape(i);
    TokenShape(j);
  }
}
