/** The key findings read from the combined summary (03b_key_findings.py): the selection-rate
    (PPR) records, their violation counts per configuration, the split of those counts
    between the audit columns and the activity and resource slots, and the ten PPR records
    of large enough groups that lie farthest from parity. */
module KeyFindings {
  import opened Basics
  import opened Text
  import opened Classify
  import opened Ranking
  import opened Reports
  import PrefixTables
  import EventLog

  /** The audit columns (line 4). */
  const Sensitive: set<string> := {"gender_cat", "citizen_cat", "age_group", "german_speaking_cat", "religious_cat"}

  /** The set is the table builder's list of audit columns. */
  lemma SensitiveAreAuditColumns()
    ensures Sensitive == Elems(EventLog.AuditColumnNames)
  {
    var names := EventLog.AuditColumnNames;
    assert names[0] == "gender_cat" && names[1] == "citizen_cat" && names[2] == "age_group";
    assert names[3] == "german_speaking_cat" && names[4] == "religious_cat";
    assert forall n :: n in Elems(names) ==> n in Sensitive;
  }

  // ---------------------------------------------------------------- the PPR view

  predicate IsPpr(x: Record)
  {
    Upper(x.metric) == "PPR"
  }

  /** Line 7: the records whose metric, in upper case, is "PPR", in summary order. */
  function PprView(all: seq<Record>): (ppr: seq<Record>)
    ensures forall x :: x in ppr <==> x in all && IsPpr(x)
    ensures |ppr| == CountIf(all, IsPpr)
  {
    var ppr := Filter(all, IsPpr);
    assert forall x :: x in all && IsPpr(x) ==> x in ppr by {
      forall x | x in all && IsPpr(x) ensures x in ppr {
        var i :| 0 <= i < |all| && all[i] == x;
      }
    }
    ppr
  }

  /** A configuration with both keys present. */
  type Key = (nat, string)

  function KeyConfig(c: Key): (Option<nat>, Option<string>)
  {
    (Some(c.0), Some(c.1))
  }

  predicate PprViolationIn(c: Key, x: Record)
  {
    IsPpr(x) && Config(x) == KeyConfig(c) && x.violation
  }

  /** Lines 8-9 for one configuration: the flagged PPR records of configuration `c`. */
  function PprCount(all: seq<Record>, c: Key): (n: nat)
    ensures n == CountIf(all, x => PprViolationIn(c, x))
  {
    var ppr := PprView(all);
    var inCfg := (x: Record) => InConfig(KeyConfig(c), x);
    var inCfgV := (x: Record) => InConfig(KeyConfig(c), x) && IsViolation(x);
    CountIfFilter(ppr, inCfg, IsViolation, inCfgV);
    CountIfFilter(all, IsPpr, inCfgV, x => PprViolationIn(c, x));
    CountIf(Group(ppr, KeyConfig(c)), IsViolation)
  }

  /** The configurations of the PPR records. `groupby` drops missing keys, so a record whose
      report name did not parse belongs to none. */
  function PprKeys(all: seq<Record>): set<Key>
  {
    set x | x in all && IsPpr(x) && x.prefixLen.Some? && x.encoding.Some? :: (x.prefixLen.value, x.encoding.value)
  }

  /** Lines 8-9: the violation count of every configuration that has a PPR record. */
  function PprCounts(all: seq<Record>): (m: map<Key, nat>)
    ensures forall c :: c in m <==> exists x :: x in all && IsPpr(x) && Config(x) == KeyConfig(c)
    ensures forall c :: c in m ==> m[c] == CountIf(all, x => PprViolationIn(c, x))
  {
    map c | c in PprKeys(all) :: PprCount(all, c)
  }

  // ---------------------------------------------------------------- audit vs. dynamic

  /** Line 13: the attribute is one of the audit columns; a slot column (`Act*`, `Res*`),
      a number or NaN is not. */
  predicate IsSensitive(x: Record)
  {
    x.attribute.Str? && x.attribute.s in Sensitive
  }

  /** Lines 14-15 for one configuration and one value of `is_sensitive`. */
  function SplitCount(all: seq<Record>, c: Key, sensitive: bool): (n: nat)
    ensures n == CountIf(all, x => PprViolationIn(c, x) && IsSensitive(x) == sensitive)
  {
    var ppr := PprView(all);
    var key := (x: Record) => InConfig(KeyConfig(c), x) && IsSensitive(x) == sensitive;
    var keyV := (x: Record) => InConfig(KeyConfig(c), x) && IsSensitive(x) == sensitive && IsViolation(x);
    CountIfFilter(ppr, key, IsViolation, keyV);
    CountIfFilter(all, IsPpr, keyV, x => PprViolationIn(c, x) && IsSensitive(x) == sensitive);
    CountIf(Filter(ppr, key), IsViolation)
  }

  /** The audit-column and slot-column counts of a configuration add up to its count. */
  lemma SensitiveSplit(all: seq<Record>, c: Key)
    ensures SplitCount(all, c, true) + SplitCount(all, c, false) == PprCount(all, c)
  {
    CountIfSplit(all, x => PprViolationIn(c, x),
                 x => PprViolationIn(c, x) && IsSensitive(x) == true,
                 x => PprViolationIn(c, x) && IsSensitive(x) == false,
                 IsSensitive);
  }

  // ---------------------------------------------------------------- worst ten

  /** Lines 20-22: the size, a missing one taken as 0, is at least 30. The summary always
      has a `group_n` column (03_summarize_reports.py line 146), so the filter always
      applies. */
  predicate Stable(x: Record)
  {
    (match x.groupN case None => 0.0 case Some(v) => v) >= MinN
  }

  /** A stable record has a known size of at least 30; for a classified record with a known
      size, stable is exactly the absence of the small-support flag. */
  lemma StableIsSupported(x: Record)
    ensures Stable(x) <==> x.groupN.Some? && x.groupN.value >= 30.0
    ensures Classified(x) && x.groupN.Some? ==> (Stable(x) <==> !x.smallSupport)
  {
  }

  /** A stable PPR record. */
  predicate StablePpr(x: Record)
  {
    IsPpr(x) && Stable(x)
  }

  function Candidates(all: seq<Record>): (cands: seq<Record>)
    ensures forall x :: x in cands <==> x in all && IsPpr(x) && Stable(x)
    ensures |cands| == CountIf(all, StablePpr)
  {
    var ppr := PprView(all);
    var cands := Filter(ppr, Stable);
    CountIfFilter(all, IsPpr, Stable, StablePpr);
    StableOfView(all, ppr, cands);
    cands
  }

  /** The stable members of the PPR view are the stable PPR records of the summary. */
  lemma StableOfView(all: seq<Record>, ppr: seq<Record>, cands: seq<Record>)
    requires forall x :: x in ppr <==> x in all && IsPpr(x)
    requires cands == Filter(ppr, Stable)
    ensures forall x :: x in cands <==> x in all && IsPpr(x) && Stable(x)
  {
    forall x | x in ppr && Stable(x) ensures x in cands {
      var i :| 0 <= i < |ppr| && ppr[i] == x;
    }
  }

  /** Lines 19 and 23-24: at most ten stable PPR records, farthest from parity first; no
      stable PPR record left out lies farther from parity than a listed one. */
  function WorstTen(all: seq<Record>): (w: seq<Record>)
    ensures |w| == Min(10, |Candidates(all)|)
    ensures forall i :: 0 <= i < |w| ==> w[i] in all && IsPpr(w[i]) && w[i].groupN.Some? && w[i].groupN.value >= 30.0
    ensures SortedDesc(w, RecordDeviation)
    ensures forall y :: y in multiset(Candidates(all)) - multiset(w) ==>
      forall i :: 0 <= i < |w| ==> AtLeast(RecordDeviation(w[i]), RecordDeviation(y))
    ensures multiset(w) <= multiset(Candidates(all))
  {
    var cands := Candidates(all);
    var w := TopN(cands, RecordDeviation, 10);
    TopOfCandidates(all, cands, w);
    w
  }

  /** The listed records are stable PPR records, and none left out lies farther from parity. */
  lemma TopOfCandidates(all: seq<Record>, cands: seq<Record>, w: seq<Record>)
    requires forall x :: x in cands <==> x in all && IsPpr(x) && Stable(x)
    requires w == TopN(cands, RecordDeviation, 10)
    ensures forall i :: 0 <= i < |w| ==> w[i] in all && IsPpr(w[i]) && w[i].groupN.Some? && w[i].groupN.value >= 30.0
    ensures forall y :: y in multiset(cands) - multiset(w) ==>
      forall i :: 0 <= i < |w| ==> AtLeast(RecordDeviation(w[i]), RecordDeviation(y))
  {
    TopNMembers(cands, RecordDeviation, 10);
    forall i | 0 <= i < |w|
      ensures w[i] in all && IsPpr(w[i]) && w[i].groupN.Some? && w[i].groupN.value >= 30.0
    {
      StableIsSupported(w[i]);
    }
  }

  /** A flagged PPR record reads as under-selection below the band and over-selection above
      it. */
  lemma PprViolationHarm(x: Record)
    requires Classified(x) && IsPpr(x) && x.violation
    ensures x.disparity.Some?
    ensures x.harm == "under" <==> x.disparity.value < 0.8
    ensures x.harm == "over" <==> x.disparity.value > 1.25
  {
    assert Upper(x.metric) in GoodMetrics;
    HarmOfViolation(x.metric, x.disparity.value);
  }
}
