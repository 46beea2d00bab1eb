/** The per-record classification of the summary (03_summarize_reports.py): the four-fifths
    violation flag, the severity tier, the harm direction and the small-support flag. A
    disparity is `None` when the cross-tab holds NaN. */
module Classify {
  import opened Basics
  import opened Text

  function Abs(x: real): real
  {
    if x < 0.0 then -x else x
  }

  /** `|x - 1|`, the deviation from parity; missing when the disparity is (`dev_from_1`,
      lines 157-161, and `(disparity - 1).abs()` of 03b_key_findings.py line 19). */
  function Deviation(x: Option<real>): (d: Option<real>)
    ensures d.Some? <==> x.Some?
    ensures d.Some? ==> d.value >= 0.0
    ensures d.Some? ==> (d.value == x.value - 1.0 || d.value == 1.0 - x.value)
  {
    match x
    case None => None
    case Some(v) => Some(Abs(v - 1.0))
  }

  // ---------------------------------------------------------------- violation_80pct

  /** Line 117: below 0.8 or above 1.25. Every comparison with NaN is false, so a missing
      disparity is never a violation. */
  function Violation(x: Option<real>): bool
  {
    x.Some? && (x.value < 0.8 || x.value > 1.25)
  }

  /** The flag is set exactly outside the closed band [0.8, 1.25]; the band's ends are not
      violations. */
  lemma ViolationIffOutsideBand(x: Option<real>)
    ensures Violation(x) <==> x.Some? && !(0.8 <= x.value <= 1.25)
    ensures !Violation(Some(0.8)) && !Violation(Some(1.25))
    ensures !Violation(None)
  {
  }

  /** The band is the four-fifths rule: a ratio is in it exactly when neither it nor its
      reciprocal is below four fifths. */
  lemma BandIsReciprocal(v: real)
    requires v > 0.0
    ensures Violation(Some(v)) <==> v < 0.8 || 1.0 / v < 0.8
  {
    if v > 1.25 {
      assert 1.0 / v < 0.8 by {
        assert (1.0 / v) * v == 1.0;
        assert 0.8 * v > 1.0;
      }
    }
    if 1.0 / v < 0.8 {
      assert v > 1.25 by {
        assert (1.0 / v) * v == 1.0;
        assert 0.8 * v > 1.0;
      }
    }
  }

  // ---------------------------------------------------------------- severity

  /** Lines 43-51: the tier of the deviation, thresholds 0.10, 0.25 and 0.50; the empty text
      for a missing disparity. */
  function Severity(x: Option<real>): (s: string)
    ensures s == "" <==> x.None?
    ensures x.Some? ==>
      var d := Abs(x.value - 1.0);
      && (s == "low" <==> d < 0.10)
      && (s == "moderate" <==> 0.10 <= d < 0.25)
      && (s == "high" <==> 0.25 <= d < 0.50)
      && (s == "severe" <==> 0.50 <= d)
  {
    if x.None? then ""
    else
      var d := Abs(x.value - 1.0);
      if d < 0.10 then "low"
      else if d < 0.25 then "moderate"
      else if d < 0.50 then "high"
      else "severe"
  }

  const Tiers: seq<string> := ["low", "moderate", "high", "severe"]

  function TierRank(s: string): nat
  {
    if s == "low" then 0 else if s == "moderate" then 1 else if s == "high" then 2 else 3
  }

  /** Every present disparity gets exactly one of the four tiers. */
  lemma SeverityPartition(x: Option<real>)
    requires x.Some?
    ensures Severity(x) in Tiers
    ensures forall i, j :: 0 <= i < j < |Tiers| ==> Tiers[i] != Tiers[j]
  {
  }

  /** A larger deviation never gets a milder tier. */
  lemma SeverityMonotone(x: real, y: real)
    requires Abs(x - 1.0) <= Abs(y - 1.0)
    ensures TierRank(Severity(Some(x))) <= TierRank(Severity(Some(y)))
  {
  }

  /** A violation is at least moderate (below 0.8) or at least high (above 1.25); a ratio
      inside the band is at most high, which it reaches only at exactly 1.25. */
  lemma SeverityOfViolation(x: real)
    ensures x < 0.8 ==> TierRank(Severity(Some(x))) >= 1
    ensures x > 1.25 ==> TierRank(Severity(Some(x))) >= 2
    ensures !Violation(Some(x)) ==> Severity(Some(x)) != "severe"
    ensures !Violation(Some(x)) && Severity(Some(x)) == "high" ==> x == 1.25
  {
  }

  /** The worked cases: 1.30 is a high violation, 0.80 a moderate non-violation. */
  lemma SeverityExamples()
    ensures Violation(Some(1.30)) && Severity(Some(1.30)) == "high"
    ensures !Violation(Some(0.80)) && Severity(Some(0.80)) == "moderate"
    ensures !Violation(Some(1.25)) && Severity(Some(1.25)) == "high"
  {
  }

  // ---------------------------------------------------------------- harm direction

  /** Metrics where a higher rate favours the group. */
  const GoodMetrics: seq<string> := ["PPR", "PPV", "TPR"]

  /** Error rates, where a higher rate harms the group. */
  const ErrorMetrics: seq<string> := ["FPR", "FNR", "FDR", "FOR"]

  /** Lines 53-61: the direction of the difference, read for the metric named `metric` in
      any letter case. */
  function Harm(metric: string, x: Option<real>): (h: string)
    ensures h == "" <==> x.None?
    ensures x.Some? && Upper(metric) in GoodMetrics ==> (h == "under" <==> x.value < 1.0) && (h == "over" <==> x.value >= 1.0)
    ensures x.Some? && Upper(metric) in ErrorMetrics ==> (h == "higher" <==> x.value > 1.0) && (h == "lower" <==> x.value <= 1.0)
    ensures x.Some? && Upper(metric) !in GoodMetrics && Upper(metric) !in ErrorMetrics ==> h == "diff"
  {
    if x.None? then ""
    else
      var m := Upper(metric);
      if m in GoodMetrics then (if x.value < 1.0 then "under" else "over")
      else if m in ErrorMetrics then (if x.value > 1.0 then "higher" else "lower")
      else "diff"
  }

  /** The direction does not depend on the metric name's letter case. */
  lemma HarmIgnoresCase(metric: string, x: Option<real>)
    ensures Harm(Upper(metric), x) == Harm(metric, x)
  {
    assert Upper(Upper(metric)) == Upper(metric) by {
      UpperIdempotent(metric);
    }
  }

  lemma UpperIdempotent(s: string)
    ensures Upper(Upper(s)) == Upper(s)
  {
    assert forall i :: 0 <= i < |s| ==> UpperChar(UpperChar(s[i])) == UpperChar(s[i]);
  }

  /** A violating good-metric ratio reads as under- or over-selection on the side it left
      the band; a violating error-rate ratio as a lower or higher error rate. Parity (1.0)
      reads as "over" and "lower". */
  lemma HarmOfViolation(metric: string, x: real)
    requires Upper(metric) in GoodMetrics || Upper(metric) in ErrorMetrics
    ensures Upper(metric) in GoodMetrics ==>
      (x < 0.8 ==> Harm(metric, Some(x)) == "under") && (x > 1.25 ==> Harm(metric, Some(x)) == "over")
    ensures Upper(metric) in ErrorMetrics ==>
      (x < 0.8 ==> Harm(metric, Some(x)) == "lower") && (x > 1.25 ==> Harm(metric, Some(x)) == "higher")
    ensures Upper(metric) in GoodMetrics ==> Harm(metric, Some(1.0)) == "over"
    ensures Upper(metric) in ErrorMetrics ==> Harm(metric, Some(1.0)) == "lower"
  {
    assert forall g, e :: g in GoodMetrics && e in ErrorMetrics ==> g != e;
  }

  // ---------------------------------------------------------------- small support

  /** The group sizes below this are small (line 32). */
  const MinN: real := 30.0

  /** Lines 124-127: with a size column, the size with a missing value taken as 0 is below
      30, so a missing size counts as small; without one, never. */
  function SmallSupport(hasSizeColumn: bool, n: Option<real>): (small: bool)
    ensures !hasSizeColumn ==> !small
    ensures hasSizeColumn && n.None? ==> small
    ensures hasSizeColumn && n.Some? ==> (small <==> n.value < MinN)
  {
    hasSizeColumn && (match n case None => 0.0 case Some(v) => v) < MinN
  }

  /** The flag is monotone in the size: if a larger group is flagged, so is every smaller one. */
  lemma SmallSupportMonotone(hasSizeColumn: bool, m: real, n: real)
    requires m <= n
    ensures SmallSupport(hasSizeColumn, Some(n)) ==> SmallSupport(hasSizeColumn, Some(m))
  {
  }
}
