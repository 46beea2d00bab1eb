/** Preparing a group-fairness audit of one audit input (02B_run_aequitas_audit.py): the
    attribute columns and the reference group chosen for each. */
module AequitasAudit {
  import opened Basics
  import opened Text
  import opened Frames
  import AequitasCsvs

  /** The number of times `v` occurs in `vals` (a `value_counts` entry). */
  function Occurrences<T(==)>(vals: seq<T>, v: T): nat
  {
    multiset(vals)[v]
  }

  /** Occurrences of `x` among all of `vals`, counted one position at a time. */
  method CountOccurrences<T(==)>(vals: seq<T>, x: T) returns (c: nat)
    ensures c == Occurrences(vals, x)
  {
    c := 0;
    var j := 0;
    while j < |vals|
      invariant 0 <= j <= |vals|
      invariant c == multiset(vals[..j])[x]
    {
      assert vals[..j + 1] == vals[..j] + [vals[j]];
      if vals[j] == x {
        c := c + 1;
      }
      j := j + 1;
    }
    assert vals[..j] == vals;
  }

  /** `value_counts().index[0]`: a value occurring at least as often as any other. Among
      equally frequent values the first one in column order is returned. */
  method MostFrequent<T(==)>(vals: seq<T>) returns (best: T)
    requires |vals| > 0
    ensures best in vals
    ensures forall v :: Occurrences(vals, v) <= Occurrences(vals, best)
  {
    best := vals[0];
    var bestCount := CountOccurrences(vals, best);
    var i := 1;
    while i < |vals|
      invariant 1 <= i <= |vals|
      invariant best in vals[..i]
      invariant bestCount == Occurrences(vals, best)
      invariant forall j :: 0 <= j < i ==> Occurrences(vals, vals[j]) <= bestCount
    {
      var c := CountOccurrences(vals, vals[i]);
      if c > bestCount {
        best, bestCount := vals[i], c;
      }
      i := i + 1;
    }
    assert vals[..i] == vals;
    forall v ensures Occurrences(vals, v) <= bestCount {
      if v in vals {
        var j :| 0 <= j < |vals| && vals[j] == v;
      }
    }
  }

  /** Lines 18-25: the reference group of attribute `colname` whose values, as text, are
      `vals`. A `_cat` column containing "T" takes "T"; `age_group` containing "45-64" takes
      "45-64"; any other column takes a most frequent value; an empty column has none
      (the index lookup raises). */
  ghost predicate IsReference(vals: seq<string>, colname: string, r: Option<string>)
  {
    if EndsWith(colname, "_cat") && "T" in vals then r == Some("T")
    else if colname == "age_group" && "45-64" in vals then r == Some("45-64")
    else if |vals| == 0 then r == None
    else r.Some? && r.value in vals && forall v :: Occurrences(vals, v) <= Occurrences(vals, r.value)
  }

  method ChooseReference(vals: seq<string>, colname: string) returns (r: Option<string>)
    ensures IsReference(vals, colname, r)
  {
    if EndsWith(colname, "_cat") && "T" in vals {
      r := Some("T");
    } else if colname == "age_group" && "45-64" in vals {
      r := Some("45-64");
    } else if |vals| == 0 {
      r := None;
    } else {
      var m := MostFrequent(vals);
      r := Some(m);
    }
  }

  /** The reference group is always one of the column's values. */
  lemma ReferenceIsObserved(vals: seq<string>, colname: string, r: Option<string>)
    requires IsReference(vals, colname, r)
    ensures r.Some? <==> |vals| > 0
    ensures r.Some? ==> r.value in vals
  {
  }

  /** `astype(str)` of one column. */
  function TextColumn(f: Frame<Cell>, name: string): (vals: seq<string>)
    requires WellFormed(f) && name in f.columns
    ensures |vals| == |f.rows|
  {
    var cells := ColumnValues(f, name);
    seq(|cells|, r requires 0 <= r < |cells| => CellText(cells[r]))
  }

  predicate IsAttribute(c: string)
  {
    c != "label_value" && c != "score"
  }

  /** Line 37: every column except `label_value` and `score`, in column order. */
  function AuditAttributes(cols: seq<string>): (attrs: seq<string>)
    ensures forall j :: 0 <= j < |attrs| ==> attrs[j] in cols && IsAttribute(attrs[j])
    ensures forall j :: 0 <= j < |cols| && IsAttribute(cols[j]) ==> cols[j] in attrs
    ensures Distinct(cols) ==> forall a, b :: 0 <= a < b < |attrs| ==> IndexOf(cols, attrs[a]) < IndexOf(cols, attrs[b])
  {
    if Distinct(cols) then
      FilterKeepsColumnOrder(cols, IsAttribute);
      Filter(cols, IsAttribute)
    else Filter(cols, IsAttribute)
  }

  datatype AuditError = LabelValueOrScoreMissing | NotInteger(column: string) | EmptyColumn(column: string)

  /** What the audit is run with: the attribute columns and the reference group of each,
      `refs[j]` belonging to `attrs[j]` (the `refs` dictionary of line 40, keyed by position;
      the attribute names are distinct). */
  datatype AuditPlan = AuditPlan(attrs: seq<string>, refs: seq<string>)

  /** Line 40: one reference per attribute, in attribute order; fails on the first attribute
      whose column is empty, which only happens when the table has no rows. */
  method ChooseReferences(f: Frame<Cell>, attrs: seq<string>) returns (r: Result<seq<string>, AuditError>)
    requires WellFormed(f)
    requires forall j :: 0 <= j < |attrs| ==> attrs[j] in f.columns
    ensures r.Err? ==> |f.rows| == 0 && |attrs| > 0 && r.error == EmptyColumn(attrs[0])
    ensures r.Ok? ==> |f.rows| > 0 || |attrs| == 0
    ensures r.Ok? ==> |r.value| == |attrs|
    ensures r.Ok? ==> forall j :: 0 <= j < |attrs| ==> IsReference(TextColumn(f, attrs[j]), attrs[j], Some(r.value[j]))
  {
    var refs: seq<string> := [];
    var i := 0;
    while i < |attrs|
      invariant 0 <= i <= |attrs|
      invariant |refs| == i
      invariant forall j :: 0 <= j < i ==> IsReference(TextColumn(f, attrs[j]), attrs[j], Some(refs[j]))
      invariant i > 0 ==> |f.rows| > 0
    {
      var a := attrs[i];
      var ref := ChooseReference(TextColumn(f, a), a);
      ReferenceIsObserved(TextColumn(f, a), a, ref);
      if ref.None? {
        return Err(EmptyColumn(a));
      }
      refs := refs + [ref.value];
      i := i + 1;
    }
    r := Ok(refs);
  }

  /** Lines 27-40. Fails, in this order, when `label_value` or `score` is missing, when
      either does not hold integers (label first), and when an attribute has no value to
      choose a reference from (the first attribute, as the table is then empty). */
  method PlanAudit(f: Frame<Cell>) returns (r: Result<AuditPlan, AuditError>)
    requires WellFormed(f)
    ensures r == Err(LabelValueOrScoreMissing) <==> "label_value" !in f.columns || "score" !in f.columns
    ensures r == Err(NotInteger("label_value")) <==>
      "label_value" in f.columns && "score" in f.columns
      && !IntegerColumn(f, IndexOf(f.columns, "label_value"))
    ensures r == Err(NotInteger("score")) <==>
      "label_value" in f.columns && "score" in f.columns
      && IntegerColumn(f, IndexOf(f.columns, "label_value"))
      && !IntegerColumn(f, IndexOf(f.columns, "score"))
    ensures r.Err? && r.error.EmptyColumn? ==>
      |f.rows| == 0 && |AuditAttributes(f.columns)| > 0 && r.error.column == AuditAttributes(f.columns)[0]
    ensures r.Ok? ==> |f.rows| > 0 || |AuditAttributes(f.columns)| == 0
    ensures r.Ok? ==>
      && r.value.attrs == AuditAttributes(f.columns)
      && |r.value.refs| == |r.value.attrs|
      && forall j :: 0 <= j < |r.value.attrs| ==>
           IsReference(TextColumn(f, r.value.attrs[j]), r.value.attrs[j], Some(r.value.refs[j]))
  {
    if "label_value" !in f.columns || "score" !in f.columns {
      return Err(LabelValueOrScoreMissing);
    }
    if !IntegerColumn(f, IndexOf(f.columns, "label_value")) {
      return Err(NotInteger("label_value"));
    }
    if !IntegerColumn(f, IndexOf(f.columns, "score")) {
      return Err(NotInteger("score"));
    }
    var attrs := AuditAttributes(f.columns);
    var refs := ChooseReferences(f, attrs);
    if refs.Err? {
      return Err(refs.error);
    }
    r := Ok(AuditPlan(attrs, refs.value));
  }

  /** No attribute column of an audit input is `label_value` or `score`. */
  lemma AttrColumnsAreAttributes(cols: seq<string>)
    ensures forall j :: 0 <= j < |AequitasCsvs.AttrColumns(cols)| ==> IsAttribute(AequitasCsvs.AttrColumns(cols)[j])
  {
    var attrs := AequitasCsvs.AttrColumns(cols);
    AequitasCsvs.AttrColumnsExclude(cols, "label_value");
    AequitasCsvs.AttrColumnsExclude(cols, "score");
    forall j | 0 <= j < |attrs| ensures IsAttribute(attrs[j]) {
      assert attrs[j] in attrs;
    }
  }

  /** On an audit input built from a prefix table, the audited attributes are exactly the
      attribute columns chosen when the input was built. */
  lemma AuditAttributesOfAequitasFrame(cols: seq<string>)
    ensures AuditAttributes(["label_value", "score"] + AequitasCsvs.AttrColumns(cols)) == AequitasCsvs.AttrColumns(cols)
  {
    var attrs := AequitasCsvs.AttrColumns(cols);
    var head := ["label_value", "score"];
    AttrColumnsAreAttributes(cols);
    assert !IsAttribute(head[0]) && !IsAttribute(head[1]);
    assert head + attrs == head + attrs + [];
    FilterMiddle(head, attrs, [], IsAttribute);
  }
}
