/** The summary of all audit reports (03_summarize_reports.py): finding the attribute, group
    and size columns, naming the metrics, reshaping each report to one record per group and
    metric with its classification, combining the reports, and the per-configuration
    violation count and worst three. */
module Reports {
  import opened Basics
  import opened Text
  import opened Frames
  import opened Classify
  import opened Ranking
  import FileNames

  /** A cell of a report as read from CSV: NaN, a number, or text. */
  datatype Value = NaN | Num(x: real) | Str(s: string)

  // ---------------------------------------------------------------- column detection

  /** Lines 11-16: the first candidate that is a column. */
  function FindFirst(dcols: set<string>, candidates: seq<string>): (c: Option<string>)
    ensures c.None? <==> forall i :: 0 <= i < |candidates| ==> candidates[i] !in dcols
    ensures c.Some? ==> c.value in dcols
    ensures c.Some? ==> exists i :: 0 <= i < |candidates| && candidates[i] == c.value
                                    && forall j :: 0 <= j < i ==> candidates[j] !in dcols
  {
    if |candidates| == 0 then None
    else if candidates[0] in dcols then Some(candidates[0])
    else
      var rest := FindFirst(dcols, candidates[1..]);
      assert forall i :: 1 <= i < |candidates| ==> candidates[i] == candidates[1..][i - 1];
      assert rest.Some? ==> exists i :: 0 <= i < |candidates| && candidates[i] == rest.value
                                        && forall j :: 0 <= j < i ==> candidates[j] !in dcols by {
        if rest.Some? {
          var i :| 0 <= i < |candidates[1..]| && candidates[1..][i] == rest.value
                   && forall j :: 0 <= j < i ==> candidates[1..][j] !in dcols;
          assert candidates[i + 1] == rest.value;
          assert forall j :: 1 <= j < i + 1 ==> candidates[j] == candidates[1..][j - 1];
        }
      }
      rest
  }

  /** Line 81. */
  const AttributeCandidates: seq<string> := ["attribute_name", "attribute", "attr"]

  /** Line 82. */
  const GroupCandidates: seq<string> := ["attribute_value", "group_value", "group", "value"]

  /** Line 90. */
  const SizeCandidates: seq<string> := ["group_size", "count", "n", "group_count", "group_total"]

  // ---------------------------------------------------------------- metric names

  /** `METRIC_NAME_MAP` (lines 19-29). */
  const MetricNameMap: map<string, string> := map[
    "ppr_disparity" := "PPR",
    "pprev_disparity" := "PPR",
    "precision_disparity" := "PPV",
    "fpr_disparity" := "FPR",
    "fnr_disparity" := "FNR",
    "tpr_disparity" := "TPR",
    "fdr_disparity" := "FDR",
    "for_disparity" := "FOR"]

  const DisparitySuffix := "_disparity"

  /** Line 110: the mapped name, or the raw name with every `_disparity` removed, in upper
      case. */
  function MetricName(raw: string): string
  {
    if raw in MetricNameMap then MetricNameMap[raw]
    else Upper(ReplaceAll(raw, DisparitySuffix, ""))
  }

  /** Both selection-rate names become "PPR", and every mapped name is a metric whose harm
      direction is known. */
  lemma KnownMetricNames(raw: string)
    requires raw in MetricNameMap
    ensures MetricName("ppr_disparity") == "PPR" && MetricName("pprev_disparity") == "PPR"
    ensures Upper(MetricName(raw)) in GoodMetrics || Upper(MetricName(raw)) in ErrorMetrics
  {
    var m := MetricName(raw);
    assert m in ["PPR", "PPV", "FPR", "FNR", "TPR", "FDR", "FOR"];
    assert NoLowerAscii(m);
    UpperFixesUppercase(m);
  }

  /** An unmapped column `<stem>_disparity` whose stem holds no `_disparity` is named by its
      stem in upper case. */
  lemma UnknownMetricName(stem: string)
    requires !Contains(stem, DisparitySuffix)
    requires stem + DisparitySuffix !in MetricNameMap
    ensures MetricName(stem + DisparitySuffix) == Upper(stem)
  {
    SuffixOnlyTrailing(stem);
    ReplaceOnlyTrailing(stem, DisparitySuffix, "");
    assert stem + "" == stem;
  }

  /** No occurrence of `_disparity` in `<stem>_disparity` starts inside a stem that holds
      none: one straddling the join would need the suffix's underscore to recur in it. */
  lemma SuffixOnlyTrailing(stem: string)
    requires !Contains(stem, DisparitySuffix)
    ensures forall q :: 0 <= q < |stem| ==> !StartsWith((stem + DisparitySuffix)[q..], DisparitySuffix)
  {
    var pat := DisparitySuffix;
    var s := stem + pat;
    forall q | 0 <= q < |stem| ensures !StartsWith(s[q..], pat) {
      if q + |pat| <= |stem| {
        assert s[q..][..|pat|] == stem[q..][..|pat|];
        assert !StartsWith(stem[q..], pat);
      } else {
        var d := |stem| - q;
        assert s[q..][d] == '_' != pat[d];
      }
    }
  }

  // ---------------------------------------------------------------- metric columns

  predicate IsDisparityColumn(c: string)
  {
    EndsWith(c, DisparitySuffix)
  }

  predicate IsKnownColumn(c: string)
  {
    c in MetricNameMap
  }

  /** Every mapped name is a disparity column. */
  lemma KnownColumnsAreDisparities(c: string)
    requires IsKnownColumn(c)
    ensures IsDisparityColumn(c)
  {
    var stem :=
      if c == "ppr_disparity" then "ppr"
      else if c == "pprev_disparity" then "pprev"
      else if c == "precision_disparity" then "precision"
      else if c == "fpr_disparity" then "fpr"
      else if c == "fnr_disparity" then "fnr"
      else if c == "tpr_disparity" then "tpr"
      else if c == "fdr_disparity" then "fdr"
      else "for";
    assert c == stem + DisparitySuffix;
    assert c[|stem|..] == DisparitySuffix;
  }

  predicate IsKnownDisparity(c: string)
  {
    IsDisparityColumn(c) && IsKnownColumn(c)
  }

  /** Lines 93-96: the mapped disparity columns when there is one, otherwise every disparity
      column, in column order. */
  function UseColumns(cols: seq<string>): (use: seq<string>)
    ensures forall i :: 0 <= i < |use| ==> use[i] in cols && IsDisparityColumn(use[i])
    ensures (exists i :: 0 <= i < |cols| && IsKnownColumn(cols[i])) ==>
      && (forall i :: 0 <= i < |use| ==> IsKnownColumn(use[i]))
      && (forall i :: 0 <= i < |cols| && IsKnownColumn(cols[i]) ==> cols[i] in use)
    ensures (forall i :: 0 <= i < |cols| ==> !IsKnownColumn(cols[i])) ==>
      forall i :: 0 <= i < |cols| && IsDisparityColumn(cols[i]) ==> cols[i] in use
    ensures |use| == 0 <==> forall i :: 0 <= i < |cols| ==> !IsDisparityColumn(cols[i])
    ensures Distinct(cols) ==> Distinct(use)
    ensures Distinct(cols) ==> forall a, b :: 0 <= a < b < |use| ==> IndexOf(cols, use[a]) < IndexOf(cols, use[b])
  {
    var disp := Filter(cols, IsDisparityColumn);
    var known := Filter(disp, IsKnownColumn);
    KnownAmongDisparities(cols);
    DisparityColumns(cols, disp);
    KnownAreDisparities(cols);
    FilterImplied(cols, IsDisparityColumn, IsKnownColumn, IsKnownDisparity, known);
    if Distinct(cols) then
      MetricColumnsOrdered(cols, disp, known);
      if |known| > 0 then known else disp
    else if |known| > 0 then known else disp
  }

  /** Keeping the mapped columns among the disparity columns keeps the columns that are both. */
  lemma KnownAmongDisparities(cols: seq<string>)
    ensures Filter(Filter(cols, IsDisparityColumn), IsKnownColumn) == Filter(cols, IsKnownDisparity)
  {
    FilterFilter(cols, IsDisparityColumn, IsKnownColumn, IsKnownDisparity);
  }

  /** The disparity list is empty exactly when the table has no disparity column. */
  lemma DisparityColumns(cols: seq<string>, disp: seq<string>)
    requires disp == Filter(cols, IsDisparityColumn)
    ensures |disp| == 0 <==> forall i :: 0 <= i < |cols| ==> !IsDisparityColumn(cols[i])
  {
    if |disp| > 0 {
      var k :| 0 <= k < |cols| && cols[k] == disp[0];
    }
  }

  /** Every mapped column of a table is a disparity column. */
  lemma KnownAreDisparities(cols: seq<string>)
    ensures forall i :: 0 <= i < |cols| && IsKnownColumn(cols[i]) ==> IsDisparityColumn(cols[i])
  {
    forall i | 0 <= i < |cols| && IsKnownColumn(cols[i]) ensures IsDisparityColumn(cols[i]) {
      KnownColumnsAreDisparities(cols[i]);
    }
  }

  /** Both candidate metric lists of a table without repeated columns keep column order. */
  lemma MetricColumnsOrdered(cols: seq<string>, disp: seq<string>, known: seq<string>)
    requires Distinct(cols)
    requires disp == Filter(cols, IsDisparityColumn) && known == Filter(cols, IsKnownDisparity)
    ensures Distinct(disp) && Distinct(known)
    ensures forall a, b :: 0 <= a < b < |disp| ==> IndexOf(cols, disp[a]) < IndexOf(cols, disp[b])
    ensures forall a, b :: 0 <= a < b < |known| ==> IndexOf(cols, known[a]) < IndexOf(cols, known[b])
  {
    FilterDistinct(cols, IsDisparityColumn);
    FilterDistinct(cols, IsKnownDisparity);
    FilterKeepsColumnOrder(cols, IsDisparityColumn);
    FilterKeepsColumnOrder(cols, IsKnownDisparity);
  }

  // ---------------------------------------------------------------- long records

  /** One row of `_summary_all_disparities.csv`. `prefixLen` and `encoding` are missing when
      the report's name does not parse; `groupN` is missing when the report has no size
      column or the size is NaN. */
  datatype Record = Record(
    prefixLen: Option<nat>,
    encoding: Option<string>,
    attribute: Value,
    group: Value,
    groupN: Option<real>,
    metric: string,
    disparity: Option<real>,
    violation: bool,
    severity: string,
    harm: string,
    smallSupport: bool)

  /** Lines 73 and 113-114: the configuration a report's records are stamped with. */
  function Stamp(path: string): (stamp: (Option<nat>, Option<string>))
    ensures stamp.0.Some? <==> FileNames.ParseFname(path).Some?
    ensures stamp.1.Some? <==> FileNames.ParseFname(path).Some?
    ensures FileNames.ParseFname(path).Some? ==>
      stamp == (Some(FileNames.ParseFname(path).value.0), Some(FileNames.ParseFname(path).value.1))
  {
    match FileNames.ParseFname(path)
    case Some((k, enc)) => (Some(k), Some(enc))
    case None => (None, None)
  }

  /** A numeric cell's value; NaN is missing. */
  function Number(v: Value): Option<real>
  {
    match v
    case Num(x) => Some(x)
    case _ => None
  }

  /** The derived columns agree with the classification of the record's own disparity,
      metric and size; without a size column the size is missing and the flag is off. */
  predicate Classified(rec: Record)
  {
    && rec.violation == Violation(rec.disparity)
    && rec.severity == Severity(rec.disparity)
    && rec.harm == Harm(rec.metric, rec.disparity)
    && (rec.smallSupport == SmallSupport(true, rec.groupN) || (!rec.smallSupport && rec.groupN.None?))
  }

  /** Lines 109-127: a record with its derived columns. */
  function MakeRecord(stamp: (Option<nat>, Option<string>), attribute: Value, group: Value,
                      hasSize: bool, size: Option<real>, raw: string, disparity: Option<real>): (rec: Record)
    requires !hasSize ==> size.None?
    ensures Classified(rec)
    ensures (rec.prefixLen, rec.encoding) == stamp
    ensures rec.attribute == attribute && rec.group == group && rec.groupN == size
    ensures rec.metric == MetricName(raw) && rec.disparity == disparity
    ensures rec.smallSupport == SmallSupport(hasSize, size)
  {
    var metric := MetricName(raw);
    Record(stamp.0, stamp.1, attribute, group, size, metric, disparity,
           Violation(disparity), Severity(disparity), Harm(metric, disparity), SmallSupport(hasSize, size))
  }

  /** Where a report's records are read from: the positions of the attribute, group and
      size columns and of the metric columns used. */
  datatype Layout = Layout(attr: nat, group: nat, size: Option<nat>, metrics: seq<nat>)

  predicate Fits<C>(f: Frame<C>, l: Layout)
  {
    && WellFormed(f)
    && l.attr < |f.columns| && l.group < |f.columns|
    && (l.size.Some? ==> l.size.value < |f.columns|)
    && forall m :: 0 <= m < |l.metrics| ==> l.metrics[m] < |f.columns|
  }

  /** The record of input row `r` and metric column `m`. */
  function RecordAt(stamp: (Option<nat>, Option<string>), f: Frame<Value>, l: Layout, m: nat, r: nat): (rec: Record)
    requires Fits(f, l) && m < |l.metrics| && r < |f.rows|
    ensures rec.attribute == f.rows[r][l.attr] && rec.group == f.rows[r][l.group]
    ensures l.size.Some? ==> rec.groupN == Number(f.rows[r][l.size.value])
    ensures l.size.None? ==> rec.groupN.None? && !rec.smallSupport
    ensures l.size.Some? ==> rec.smallSupport == SmallSupport(true, rec.groupN)
    ensures rec.metric == MetricName(f.columns[l.metrics[m]])
    ensures rec.disparity == Number(f.rows[r][l.metrics[m]])
  {
    var row := f.rows[r];
    var size := if l.size.Some? then Number(row[l.size.value]) else None;
    MakeRecord(stamp, row[l.attr], row[l.group], l.size.Some?, size, f.columns[l.metrics[m]], Number(row[l.metrics[m]]))
  }

  /** `a * n` by repeated addition, so that the solver reasons about the record positions
      linearly. */
  function Times(a: nat, n: nat): nat
  {
    if a == 0 then 0 else n + Times(a - 1, n)
  }

  /** `Times` is multiplication. */
  lemma {:induction false} TimesIsProduct(a: nat, n: nat)
    ensures Times(a, n) == a * n
  {
    if a > 0 {
      TimesIsProduct(a - 1, n);
    }
  }

  /** The records of metric column `m`, one per input row in order. */
  function Block(stamp: (Option<nat>, Option<string>), f: Frame<Value>, l: Layout, m: nat): (b: seq<Record>)
    requires Fits(f, l) && m < |l.metrics|
    ensures |b| == |f.rows|
    ensures forall r :: 0 <= r < |f.rows| ==> b[r] == RecordAt(stamp, f, l, m, r)
  {
    seq(|f.rows|, r requires 0 <= r < |f.rows| => RecordAt(stamp, f, l, m, r))
  }

  /** Lines 105-107: `melt` from metric column `m` on, metric by metric, each block holding
      every input row in order. */
  function Melt(stamp: (Option<nat>, Option<string>), f: Frame<Value>, l: Layout, m: nat): (recs: seq<Record>)
    requires Fits(f, l) && m <= |l.metrics|
    ensures |recs| == Times(|l.metrics| - m, |f.rows|)
    decreases |l.metrics| - m
  {
    if m == |l.metrics| then []
    else Block(stamp, f, l, m) + Melt(stamp, f, l, m + 1)
  }

  lemma {:induction false} TimesBound(t: nat, r: nat, n: nat, total: nat)
    requires t < total && r < n
    ensures Times(t, n) + r < Times(total, n)
    decreases total
  {
    if t + 1 < total {
      TimesBound(t, r, n, total - 1);
    }
  }

  /** The record for metric column `i` and row `r` sits at position `i * rows + r`. */
  lemma {:induction false} MeltAt(stamp: (Option<nat>, Option<string>), f: Frame<Value>, l: Layout, m: nat, i: nat, r: nat)
    requires Fits(f, l) && m <= i < |l.metrics| && r < |f.rows|
    ensures Times(i - m, |f.rows|) + r < |Melt(stamp, f, l, m)|
    ensures Melt(stamp, f, l, m)[Times(i - m, |f.rows|) + r] == RecordAt(stamp, f, l, i, r)
    decreases i - m
  {
    var n := |f.rows|;
    TimesBound(i - m, r, n, |l.metrics| - m);
    var block := Block(stamp, f, l, m);
    var rest := Melt(stamp, f, l, m + 1);
    assert Melt(stamp, f, l, m) == block + rest;
    if i == m {
      assert Times(i - m, n) == 0;
      ConcatAt(block, rest, r);
    } else {
      MeltAt(stamp, f, l, m + 1, i, r);
      var q := Times(i - (m + 1), n) + r;
      assert Times(i - m, n) == n + Times(i - (m + 1), n);
      ConcatAt(block, rest, n + q);
    }
  }

  /** Position `k` of `a + b` is read from `a` before its end and from `b` after it. */
  lemma ConcatAt<T>(a: seq<T>, b: seq<T>, k: nat)
    requires k < |a| + |b|
    ensures (a + b)[k] == if k < |a| then a[k] else b[k - |a|]
  {
  }

  // ---------------------------------------------------------------- one report

  /** Line 77: the column names in lower case. */
  function LowerNames(cols: seq<string>): (names: seq<string>)
    ensures |names| == |cols|
    ensures forall i :: 0 <= i < |cols| ==> names[i] == Lower(cols[i])
  {
    seq(|cols|, i requires 0 <= i < |cols| => Lower(cols[i]))
  }

  function Lowered(f: Frame<Value>): Frame<Value>
  {
    Frame(LowerNames(f.columns), f.rows)
  }

  /** A report as read: rows as wide as the header, and no two column names equal once in
      lower case. */
  predicate Readable(f: Frame<Value>)
  {
    WellFormed(Lowered(f))
  }

  predicate HasAny(cols: seq<string>, candidates: seq<string>)
  {
    exists i :: 0 <= i < |candidates| && candidates[i] in cols
  }

  /** `find_first(set(cols), candidates)`. */
  function Detect(cols: seq<string>, candidates: seq<string>): (c: Option<string>)
    ensures c.None? <==> !HasAny(cols, candidates)
    ensures c.Some? ==> c.value in cols && c == FindFirst((set x | x in cols), candidates)
  {
    FindFirst((set x | x in cols), candidates)
  }

  datatype SkipReason = NoAttributeOrGroupColumn | NoDisparityColumn

  /** Lines 81-102: where the records of a report come from, or why it is skipped. */
  function ReportLayout(cols: seq<string>): (l: Result<Layout, SkipReason>)
    ensures l == Err(NoAttributeOrGroupColumn) <==> !HasAny(cols, AttributeCandidates) || !HasAny(cols, GroupCandidates)
    ensures l == Err(NoDisparityColumn) <==>
      HasAny(cols, AttributeCandidates) && HasAny(cols, GroupCandidates)
      && forall i :: 0 <= i < |cols| ==> !IsDisparityColumn(cols[i])
    ensures l.Ok? ==>
      && l.value.attr < |cols| && l.value.group < |cols|
      && cols[l.value.attr] == Detect(cols, AttributeCandidates).value
      && cols[l.value.group] == Detect(cols, GroupCandidates).value
      && (l.value.size.Some? <==> HasAny(cols, SizeCandidates))
      && (l.value.size.Some? ==> l.value.size.value < |cols| && cols[l.value.size.value] == Detect(cols, SizeCandidates).value)
      && |l.value.metrics| == |UseColumns(cols)| > 0
      && forall m :: 0 <= m < |l.value.metrics| ==> l.value.metrics[m] < |cols| && cols[l.value.metrics[m]] == UseColumns(cols)[m]
  {
    if !HasAny(cols, AttributeCandidates) || !HasAny(cols, GroupCandidates) then Err(NoAttributeOrGroupColumn)
    else if |UseColumns(cols)| == 0 then Err(NoDisparityColumn)
    else Ok(FoundLayout(cols, AttributeCandidates, GroupCandidates, SizeCandidates))
  }

  /** The layout of a report that has the columns it needs, given the candidate names of
      its attribute, group and size columns. */
  function FoundLayout(cols: seq<string>, attrs: seq<string>, groups: seq<string>, sizes: seq<string>): (l: Layout)
    requires HasAny(cols, attrs) && HasAny(cols, groups) && |UseColumns(cols)| > 0
    ensures l.attr < |cols| && cols[l.attr] == Detect(cols, attrs).value
    ensures l.group < |cols| && cols[l.group] == Detect(cols, groups).value
    ensures l.size.Some? <==> HasAny(cols, sizes)
    ensures l.size.Some? ==> l.size.value < |cols| && cols[l.size.value] == Detect(cols, sizes).value
    ensures |l.metrics| == |UseColumns(cols)|
    ensures forall m :: 0 <= m < |l.metrics| ==> l.metrics[m] < |cols| && cols[l.metrics[m]] == UseColumns(cols)[m]
  {
    var a := Detect(cols, attrs);
    var g := Detect(cols, groups);
    var n := Detect(cols, sizes);
    var size := if n.Some? then Some(IndexOf(cols, n.value)) else None;
    Layout(IndexOf(cols, a.value), IndexOf(cols, g.value), size, IndicesOf(cols, UseColumns(cols)))
  }

  /** The cells the summary compares and converts to numbers hold no text. */
  predicate NumericCells(f: Frame<Value>, l: Layout)
    requires Fits(f, l)
  {
    forall r :: 0 <= r < |f.rows| ==>
      && (forall m :: 0 <= m < |l.metrics| ==> !f.rows[r][l.metrics[m]].Str?)
      && (l.size.Some? ==> !f.rows[r][l.size.value].Str?)
  }

  datatype Outcome = Skipped(reason: SkipReason) | Kept(records: seq<Record>)

  /** What ends the run: no report at all (line 68-70), nothing to combine because every
      report was skipped (`pd.concat` of an empty list, line 142), or text where a number is
      compared (line 117) or converted (line 125). */
  datatype SummaryError = NoReports | NothingToCombine | NotNumeric(path: string)

  /** Lines 73-139 for one report: skipped with a reason, or reshaped to its long records. */
  function ReadReport(path: string, f: Frame<Value>): (r: Result<Outcome, SummaryError>)
    requires Readable(f)
    ensures var l := ReportLayout(LowerNames(f.columns));
      && (r.Ok? && r.value.Skipped? <==> l.Err?)
      && (r.Ok? && r.value.Skipped? ==> r.value.reason == l.error)
      && (r.Err? <==> l.Ok? && Fits(Lowered(f), l.value) && !NumericCells(Lowered(f), l.value))
      && (r.Err? ==> r.error == NotNumeric(path))
  {
    var g := Lowered(f);
    var l := ReportLayout(g.columns);
    if l.Err? then Ok(Skipped(l.error))
    else if !NumericCells(g, l.value) then Err(NotNumeric(path))
    else Ok(Kept(Melt(Stamp(path), g, l.value, 0)))
  }

  /** Every melted record is stamped with the report's configuration and classified. */
  lemma {:induction false} MeltClassified(stamp: (Option<nat>, Option<string>), g: Frame<Value>, l: Layout, m: nat)
    requires Fits(g, l) && m <= |l.metrics|
    ensures forall j :: 0 <= j < |Melt(stamp, g, l, m)| ==>
      var rec := Melt(stamp, g, l, m)[j];
      Classified(rec) && (rec.prefixLen, rec.encoding) == stamp
    decreases |l.metrics| - m
  {
    if m < |l.metrics| {
      MeltClassified(stamp, g, l, m + 1);
      var block := Block(stamp, g, l, m);
      var rest := Melt(stamp, g, l, m + 1);
      assert Melt(stamp, g, l, m) == block + rest;
      forall j | 0 <= j < |block + rest|
        ensures Classified((block + rest)[j]) && ((block + rest)[j].prefixLen, (block + rest)[j].encoding) == stamp
      {
        if j < |block| {
          assert (block + rest)[j] == RecordAt(stamp, g, l, m, j);
        } else {
          assert (block + rest)[j] == rest[j - |block|];
        }
      }
    }
  }

  /** A kept report's records are the melt of its lower-cased table under its layout. */
  lemma KeptIsMelt(path: string, f: Frame<Value>, recs: seq<Record>)
    requires Readable(f) && ReadReport(path, f) == Ok(Kept(recs))
    ensures ReportLayout(LowerNames(f.columns)).Ok?
    ensures Fits(Lowered(f), ReportLayout(LowerNames(f.columns)).value)
    ensures recs == Melt(Stamp(path), Lowered(f), ReportLayout(LowerNames(f.columns)).value, 0)
  {
  }

  /** Each kept record carries the attribute, group and size cells of its input row, the
      metric's readable name and the metric cell, the record of metric `m` and row `r`
      standing at position `m * rows + r` (`Times(m, rows) + r`). */
  lemma ReportRecordAt(path: string, f: Frame<Value>, l: Layout, recs: seq<Record>, m: nat, r: nat)
    requires Readable(f) && ReadReport(path, f) == Ok(Kept(recs))
    requires ReportLayout(LowerNames(f.columns)) == Ok(l)
    requires m < |l.metrics| && r < |f.rows|
    ensures Times(m, |f.rows|) + r < |recs|
    ensures var row := f.rows[r];
      var rec := recs[Times(m, |f.rows|) + r];
      && rec.attribute == row[l.attr] && rec.group == row[l.group]
      && (l.size.Some? ==> rec.groupN == Number(row[l.size.value]))
      && (l.size.None? ==> rec.groupN.None? && !rec.smallSupport)
      && (l.size.Some? ==> rec.smallSupport == SmallSupport(true, rec.groupN))
      && rec.metric == MetricName(UseColumns(LowerNames(f.columns))[m])
      && rec.disparity == Number(row[l.metrics[m]])
  {
    KeptIsMelt(path, f, recs);
    var g := Lowered(f);
    var k := Times(m, |f.rows|) + r;
    assert k == Times(m, |g.rows|) + r;
    MeltIndex(Stamp(path), g, l, recs, m, r);
    var rec := RecordAt(Stamp(path), g, l, m, r);
    assert recs[k] == rec;
    assert g.columns[l.metrics[m]] == UseColumns(g.columns)[m];
  }

  /** The record of metric `m` and row `r` in a melt. */
  lemma MeltIndex(stamp: (Option<nat>, Option<string>), g: Frame<Value>, l: Layout, recs: seq<Record>, m: nat, r: nat)
    requires Fits(g, l) && recs == Melt(stamp, g, l, 0)
    requires m < |l.metrics| && r < |g.rows|
    ensures Times(m, |g.rows|) + r < |recs|
    ensures recs[Times(m, |g.rows|) + r] == RecordAt(stamp, g, l, m, r)
  {
    MeltAt(stamp, g, l, 0, m, r);
    assert m - 0 == m;
  }

  /** A kept report yields one record per row and metric column used. */
  lemma ReportLength(path: string, f: Frame<Value>, recs: seq<Record>)
    requires Readable(f) && ReadReport(path, f) == Ok(Kept(recs))
    ensures |recs| == |UseColumns(LowerNames(f.columns))| * |f.rows|
  {
    var g := Lowered(f);
    var l := ReportLayout(g.columns).value;
    assert recs == Melt(Stamp(path), g, l, 0);
    TimesIsProduct(|l.metrics|, |f.rows|);
  }

  /** Every record of a kept report is stamped with the configuration its name gives and
      classified from its own disparity, metric and size. */
  lemma ReportRecordsClassified(path: string, f: Frame<Value>, recs: seq<Record>)
    requires Readable(f) && ReadReport(path, f) == Ok(Kept(recs))
    ensures forall j :: 0 <= j < |recs| ==>
      Classified(recs[j]) && (recs[j].prefixLen, recs[j].encoding) == Stamp(path)
  {
    var g := Lowered(f);
    var l := ReportLayout(g.columns).value;
    MeltClassified(Stamp(path), g, l, 0);
  }

  // ---------------------------------------------------------------- all reports

  predicate KeptSome(outs: seq<Result<Outcome, SummaryError>>)
  {
    exists i :: 0 <= i < |outs| && outs[i].Ok? && outs[i].value.Kept?
  }

  /** A record comes from report `i`. */
  predicate RecordOf(outs: seq<Result<Outcome, SummaryError>>, i: int, x: Record)
  {
    0 <= i < |outs| && outs[i].Ok? && outs[i].value.Kept? && x in outs[i].value.records
  }

  /** Lines 72-142: the kept reports' records, report after report, unless some report
      fails, which ends the run at the first one that does. */
  function Combine(outs: seq<Result<Outcome, SummaryError>>): (r: Result<seq<Record>, SummaryError>)
    ensures r.Err? <==> exists i :: 0 <= i < |outs| && outs[i].Err?
    ensures r.Err? ==> exists i :: 0 <= i < |outs| && outs[i] == Err(r.error) && forall j :: 0 <= j < i ==> outs[j].Ok?
    ensures r.Ok? ==> forall x :: x in r.value <==> exists i :: RecordOf(outs, i, x)
    ensures r.Ok? && !KeptSome(outs) ==> r.value == []
  {
    if |outs| == 0 then Ok([])
    else
      var rest := Combine(outs[1..]);
      assert forall i :: 1 <= i < |outs| ==> outs[i] == outs[1..][i - 1];
      assert forall x, i :: RecordOf(outs[1..], i, x) ==> RecordOf(outs, i + 1, x);
      assert forall x, i :: 1 <= i && RecordOf(outs, i, x) ==> RecordOf(outs[1..], i - 1, x);
      if outs[0].Err? then Err(outs[0].error)
      else if rest.Err? then
        assert exists i :: 0 <= i < |outs| && outs[i] == Err(rest.error) && forall j :: 0 <= j < i ==> outs[j].Ok? by {
          var i :| 0 <= i < |outs[1..]| && outs[1..][i] == Err(rest.error) && forall j :: 0 <= j < i ==> outs[1..][j].Ok?;
          assert outs[i + 1] == Err(rest.error);
          assert forall j :: 1 <= j < i + 1 ==> outs[j] == outs[1..][j - 1];
        }
        rest
      else if outs[0].value.Skipped? then rest
      else
        assert forall x :: x in outs[0].value.records ==> RecordOf(outs, 0, x);
        Ok(outs[0].value.records + rest.value)
  }

  /** Concatenating two runs of reports that both go through concatenates their tables:
      `pd.concat` keeps each report's rows together and in file order. */
  lemma {:induction false} CombineAppend(a: seq<Result<Outcome, SummaryError>>, b: seq<Result<Outcome, SummaryError>>)
    requires Combine(a).Ok? && Combine(b).Ok?
    ensures Combine(a + b) == Ok(Combine(a).value + Combine(b).value)
  {
    if |a| == 0 {
      assert a + b == b;
      assert Combine(a).value == [];
      assert [] + Combine(b).value == Combine(b).value;
    } else {
      var ab := a + b;
      assert ab[0] == a[0];
      assert ab[1..] == a[1..] + b;
      assert a[0].Ok? && Combine(a[1..]).Ok?;
      CombineAppend(a[1..], b);
      var tail := Combine(a[1..]).value + Combine(b).value;
      assert Combine(ab[1..]) == Ok(tail);
      if a[0].value.Kept? {
        var head := a[0].value.records;
        assert Combine(ab) == Ok(head + tail);
        assert Combine(a).value == head + Combine(a[1..]).value;
        assert head + tail == (head + Combine(a[1..]).value) + Combine(b).value;
      } else {
        assert Combine(ab) == Ok(tail);
      }
    }
  }

  /** A single report: its records when kept, an empty table when skipped, its error when it
      fails. */
  lemma CombineOne(x: Result<Outcome, SummaryError>)
    ensures x.Ok? && x.value.Kept? ==> Combine([x]) == Ok(x.value.records)
    ensures x.Ok? && x.value.Skipped? ==> Combine([x]) == Ok([])
    ensures x.Err? ==> Combine([x]) == Err(x.error)
  {
    assert [x][1..] == [];
    if x.Ok? && x.value.Kept? {
      assert x.value.records + [] == x.value.records;
    }
  }

  /** The outcome of reading each report, in order. */
  function Outcomes(reports: seq<(string, Frame<Value>)>): (outs: seq<Result<Outcome, SummaryError>>)
    requires forall i :: 0 <= i < |reports| ==> Readable(reports[i].1)
    ensures |outs| == |reports|
    ensures forall i :: 0 <= i < |reports| ==> outs[i] == ReadReport(reports[i].0, reports[i].1)
  {
    seq(|reports|, i requires 0 <= i < |reports| => ReadReport(reports[i].0, reports[i].1))
  }

  /** Lines 67-146: the combined table of every report, in the order given (the sorted
      file names). */
  function Summarize(reports: seq<(string, Frame<Value>)>): (r: Result<seq<Record>, SummaryError>)
    requires forall i :: 0 <= i < |reports| ==> Readable(reports[i].1)
    ensures r == Err(NoReports) <==> |reports| == 0
    ensures var outs := Outcomes(reports);
      && (r == Err(NothingToCombine) <==> |reports| > 0 && forall i :: 0 <= i < |outs| ==> outs[i].Ok? && outs[i].value.Skipped?)
      && (r.Err? && r.error.NotNumeric? ==> exists i :: 0 <= i < |outs| && outs[i] == Err(r.error) && forall j :: 0 <= j < i ==> outs[j].Ok?)
      && (r.Ok? ==> forall x :: x in r.value <==> exists i :: RecordOf(outs, i, x))
      && (r.Ok? ==> r == Combine(outs))
  {
    var outs := Outcomes(reports);
    if |reports| == 0 then Err(NoReports)
    else
      var all := Combine(outs);
      if all.Err? then all
      else if !KeptSome(outs) then Err(NothingToCombine)
      else all
  }

  /** Every record of the combined table is stamped with the configuration its own report's
      name gives and classified from its own disparity, metric and size. */
  lemma SummaryClassified(reports: seq<(string, Frame<Value>)>, all: seq<Record>)
    requires forall i :: 0 <= i < |reports| ==> Readable(reports[i].1)
    requires Summarize(reports) == Ok(all)
    ensures forall x :: x in all ==> Classified(x)
    ensures forall x :: x in all ==> exists i :: 0 <= i < |reports| && Config(x) == Stamp(reports[i].0)
  {
    var outs := Outcomes(reports);
    forall x | x in all
      ensures Classified(x) && exists i :: 0 <= i < |reports| && Config(x) == Stamp(reports[i].0)
    {
      var i :| RecordOf(outs, i, x);
      var recs := outs[i].value.records;
      ReportRecordsClassified(reports[i].0, reports[i].1, recs);
      var j :| 0 <= j < |recs| && recs[j] == x;
    }
  }

  // ---------------------------------------------------------------- views of the summary

  predicate IsViolation(x: Record)
  {
    x.violation
  }

  /** Line 152: the records flagged as violations, in summary order. */
  function Violations(all: seq<Record>): (vios: seq<Record>)
    ensures forall x :: x in vios <==> x in all && x.violation
    ensures |vios| == CountIf(all, IsViolation)
  {
    var vios := Filter(all, IsViolation);
    assert forall x :: x in all && x.violation ==> x in vios by {
      forall x | x in all && x.violation ensures x in vios {
        var i :| 0 <= i < |all| && all[i] == x;
      }
    }
    vios
  }

  /** The configuration a record belongs to: its prefix length and encoding, either of which
      may be missing. */
  function Config(x: Record): (Option<nat>, Option<string>)
  {
    (x.prefixLen, x.encoding)
  }

  /** Membership of the group of `cfg`. Line 166 groups with `dropna=False`, so the records
      whose report name did not parse form a group of their own. */
  predicate InConfig(cfg: (Option<nat>, Option<string>), x: Record)
  {
    Config(x) == cfg
  }

  function Group(all: seq<Record>, cfg: (Option<nat>, Option<string>)): (g: seq<Record>)
    ensures forall x :: x in g <==> x in all && Config(x) == cfg
    ensures |g| == CountIf(all, x => InConfig(cfg, x))
  {
    var inCfg := (x: Record) => InConfig(cfg, x);
    var g := Filter(all, inCfg);
    CountIfSamePredicate(all, inCfg, x => InConfig(cfg, x));
    assert forall x :: x in all && Config(x) == cfg ==> x in g by {
      forall x | x in all && Config(x) == cfg ensures x in g {
        var i :| 0 <= i < |all| && all[i] == x;
      }
    }
    g
  }

  /** Line 170: the number of flagged records of one configuration, which is the size of that
      configuration's share of the violations table. */
  function ViolationCount(all: seq<Record>, cfg: (Option<nat>, Option<string>)): (c: nat)
    ensures c == |Filter(Violations(all), x => InConfig(cfg, x))|
    ensures c <= |Group(all, cfg)|
  {
    var inCfg := (x: Record) => InConfig(cfg, x);
    var both := (x: Record) => InConfig(cfg, x) && x.violation;
    CountIfFilter(all, inCfg, IsViolation, both);
    CountIfFilter(all, IsViolation, inCfg, (x: Record) => IsViolation(x) && InConfig(cfg, x));
    CountIfSamePredicate(all, (x: Record) => IsViolation(x) && InConfig(cfg, x), both);
    CountIf(Group(all, cfg), IsViolation)
  }

  /** `dev_from_1` of a record's disparity (lines 157-161, 168). */
  function RecordDeviation(x: Record): Option<real>
  {
    Deviation(x.disparity)
  }

  /** Line 169: the three records of a configuration that lie farthest from parity, farthest
      first, a missing deviation ranking last. All of the configuration's records are listed
      when it has at most three. */
  function WorstThree(all: seq<Record>, cfg: (Option<nat>, Option<string>)): (w: seq<Record>)
    ensures |w| == Min(3, |Group(all, cfg)|)
    ensures forall i :: 0 <= i < |w| ==> w[i] in all && Config(w[i]) == cfg
    ensures SortedDesc(w, RecordDeviation)
    ensures forall y :: y in multiset(Group(all, cfg)) - multiset(w) ==>
      forall i :: 0 <= i < |w| ==> AtLeast(RecordDeviation(w[i]), RecordDeviation(y))
    ensures |Group(all, cfg)| <= 3 ==> multiset(w) == multiset(Group(all, cfg))
    ensures multiset(w) <= multiset(Group(all, cfg))
  {
    var g := Group(all, cfg);
    TopNMembers(g, RecordDeviation, 3);
    TopN(g, RecordDeviation, 3)
  }
}
