/** Turning a scored prefix table into an audit input (02A_make_aequitas_csvs.py). */
module AequitasCsvs {
  import opened Basics
  import opened Text
  import opened Frames
  import opened EventLog
  import opened PrefixTables
  import Decimal

  predicate IsActColumn(c: string)
  {
    StartsWith(c, "Act")
  }

  predicate IsResColumn(c: string)
  {
    StartsWith(c, "Res")
  }

  /** `SENS_ALL` (line 15): the same five audit columns, in the same order, as the table
      builder's `SENS_COLS`. */
  const SensAll: seq<string> := AuditColumnNames

  predicate PresentIn(cols: seq<string>, n: string)
  {
    n in cols
  }

  /** The names of `names` that are columns of `cols`, in the order of `names`. */
  function PresentNames(names: seq<string>, cols: seq<string>): (r: seq<string>)
    ensures forall j :: 0 <= j < |r| ==> r[j] in cols && r[j] in names
    ensures forall i :: 0 <= i < |names| ==> (names[i] in r <==> names[i] in cols)
    ensures Distinct(names) ==> Distinct(r)
    ensures Distinct(names) ==> forall a, b :: 0 <= a < b < |r| ==> IndexOf(names, r[a]) < IndexOf(names, r[b])
  {
    var present := (n: string) => PresentIn(cols, n);
    var r := Filter(names, present);
    if Distinct(names) then
      FilterDistinct(names, present);
      FilterKeepsColumnOrder(names, present);
      r
    else r
  }

  /** Lines 21-25: the `Act*` columns, then the `Res*` columns, each in table order, then the
      audit columns present, in the fixed order. */
  function AttrColumns(cols: seq<string>): (attrs: seq<string>)
    ensures forall j :: 0 <= j < |attrs| ==> attrs[j] in cols
  {
    var acts := Filter(cols, IsActColumn);
    var ress := Filter(cols, IsResColumn);
    var sens := PresentNames(SensAll, cols);
    assert forall j :: 0 <= j < |acts + ress| ==> (acts + ress)[j] in cols;
    acts + ress + sens
  }

  /** A column is an attribute exactly when it is an `Act*` or `Res*` column or one of the
      audit columns, whatever its place in the table. */
  lemma AttrColumnsMembers(cols: seq<string>, c: string)
    ensures c in AttrColumns(cols) <==> c in cols && (IsActColumn(c) || IsResColumn(c) || c in SensAll)
  {
    var acts := Filter(cols, IsActColumn);
    var ress := Filter(cols, IsResColumn);
    var sens := PresentNames(SensAll, cols);
    assert AttrColumns(cols) == acts + ress + sens;
    if c in cols && (IsActColumn(c) || IsResColumn(c) || c in SensAll) {
      var i :| 0 <= i < |cols| && cols[i] == c;
      if IsActColumn(c) {
        assert c in acts;
      } else if IsResColumn(c) {
        assert c in ress;
      } else {
        var j :| 0 <= j < |SensAll| && SensAll[j] == c;
        assert c in sens;
      }
    }
    if c in acts + ress + sens {
      if c in acts {
        var j :| 0 <= j < |acts| && acts[j] == c;
      } else if c in ress {
        var j :| 0 <= j < |ress| && ress[j] == c;
      } else {
        var j :| 0 <= j < |sens| && sens[j] == c;
      }
    }
  }

  datatype AeqError = LabelOrScoreMissing | NotInteger(column: string)

  function LabelIndex(f: Frame<Cell>): nat
    requires "label" in f.columns
  {
    IndexOf(f.columns, "label")
  }

  function ScoreIndex(f: Frame<Cell>): nat
    requires "score" in f.columns
  {
    IndexOf(f.columns, "score")
  }

  /** One output row: label and score as integers, then every attribute cell rendered as
      text. */
  function AeqRow(f: Frame<Cell>, r: nat, attrs: seq<string>): (cells: seq<Cell>)
    requires WellFormed(f) && r < |f.rows|
    requires "label" in f.columns && "score" in f.columns
    requires forall j :: 0 <= j < |attrs| ==> attrs[j] in f.columns
    ensures |cells| == 2 + |attrs|
  {
    var row := f.rows[r];
    [AsInt(row[LabelIndex(f)]), AsInt(row[ScoreIndex(f)])]
      + seq(|attrs|, j requires 0 <= j < |attrs| => Text(CellText(row[IndexOf(f.columns, attrs[j])])))
  }

  /** Lines 21-39. The label and score columns must exist (checked after the attribute
      columns are chosen, before anything else) and hold integers, the label being cast first. */
  function MakeAequitasFrame(f: Frame<Cell>): (r: Result<Frame<Cell>, AeqError>)
    requires WellFormed(f)
    ensures r == Err(LabelOrScoreMissing) <==> "label" !in f.columns || "score" !in f.columns
    ensures r == Err(NotInteger("label_value")) <==>
      "label" in f.columns && "score" in f.columns && !IntegerColumn(f, LabelIndex(f))
    ensures r == Err(NotInteger("score")) <==>
      "label" in f.columns && "score" in f.columns && IntegerColumn(f, LabelIndex(f))
      && !IntegerColumn(f, ScoreIndex(f))
    ensures r.Ok? ==> && r.value.columns == ["label_value", "score"] + AttrColumns(f.columns)
                      && |r.value.rows| == |f.rows|
  {
    if "label" !in f.columns || "score" !in f.columns then Err(LabelOrScoreMissing)
    else if !IntegerColumn(f, LabelIndex(f)) then Err(NotInteger("label_value"))
    else if !IntegerColumn(f, ScoreIndex(f)) then Err(NotInteger("score"))
    else
      var attrs := AttrColumns(f.columns);
      Ok(Frame(["label_value", "score"] + attrs, seq(|f.rows|, r requires 0 <= r < |f.rows| => AeqRow(f, r, attrs))))
  }

  // ---------------------------------------------------------------- properties

  /** The cells of one output row, position by position. */
  lemma AeqRowCells(f: Frame<Cell>, r: nat, attrs: seq<string>, j: nat)
    requires WellFormed(f) && r < |f.rows|
    requires "label" in f.columns && "score" in f.columns
    requires forall j :: 0 <= j < |attrs| ==> attrs[j] in f.columns
    requires j < |attrs|
    ensures |AeqRow(f, r, attrs)| == 2 + |attrs|
    ensures AeqRow(f, r, attrs)[0] == AsInt(f.rows[r][LabelIndex(f)])
    ensures AeqRow(f, r, attrs)[1] == AsInt(f.rows[r][ScoreIndex(f)])
    ensures AeqRow(f, r, attrs)[2 + j] == Text(CellText(f.rows[r][IndexOf(f.columns, attrs[j])]))
  {
  }

  /** The row built for input row `r`. */
  lemma AequitasFrameRow(f: Frame<Cell>, g: Frame<Cell>, r: nat)
    requires WellFormed(f) && MakeAequitasFrame(f) == Ok(g)
    requires r < |f.rows|
    ensures "label" in f.columns && "score" in f.columns
    ensures IntegerColumn(f, LabelIndex(f)) && IntegerColumn(f, ScoreIndex(f))
    ensures g.columns == ["label_value", "score"] + AttrColumns(f.columns)
    ensures g.rows[r] == AeqRow(f, r, AttrColumns(f.columns))
  {
  }

  /** Rows keep their order; in each, the label and score are the row's own numbers as
      integers, a float cut to its whole part, and every attribute cell is the text form of
      the input cell: a missing cell becomes "nan" (the `fillna("Unknown")` after
      `astype(str)` never fires) and a float keeps its ".0". */
  lemma AequitasFrameCells(f: Frame<Cell>, g: Frame<Cell>, r: nat, j: nat)
    requires WellFormed(f) && MakeAequitasFrame(f) == Ok(g)
    requires r < |f.rows| && j < |AttrColumns(f.columns)|
    ensures "label" in f.columns && "score" in f.columns
    ensures |g.rows[r]| == |g.columns|
    ensures CellInt(f.rows[r][LabelIndex(f)]).Some? && g.rows[r][0] == Int(CellInt(f.rows[r][LabelIndex(f)]).value)
    ensures CellInt(f.rows[r][ScoreIndex(f)]).Some? && g.rows[r][1] == Int(CellInt(f.rows[r][ScoreIndex(f)]).value)
    ensures var a := AttrColumns(f.columns)[j];
      && g.columns[2 + j] == a
      && g.rows[r][2 + j] == Text(CellText(f.rows[r][IndexOf(f.columns, a)]))
      && (f.rows[r][IndexOf(f.columns, a)] == Missing ==> g.rows[r][2 + j] == Text("nan"))
      && (f.rows[r][IndexOf(f.columns, a)].Float? ==>
            g.rows[r][2 + j] == Text(Decimal.IntToString(f.rows[r][IndexOf(f.columns, a)].whole) + ".0"))
  {
    AequitasFrameRow(f, g, r);
    BuiltRowCells(f, AttrColumns(f.columns), r, j);
  }

  /** The cells of a row built from input row `r` over the attribute list `attrs`. */
  lemma BuiltRowCells(f: Frame<Cell>, attrs: seq<string>, r: nat, j: nat)
    requires WellFormed(f) && r < |f.rows|
    requires "label" in f.columns && "score" in f.columns
    requires IntegerColumn(f, LabelIndex(f)) && IntegerColumn(f, ScoreIndex(f))
    requires forall k :: 0 <= k < |attrs| ==> attrs[k] in f.columns
    requires j < |attrs|
    ensures var row := AeqRow(f, r, attrs);
      && |row| == |["label_value", "score"] + attrs|
      && CellInt(f.rows[r][LabelIndex(f)]).Some? && row[0] == Int(CellInt(f.rows[r][LabelIndex(f)]).value)
      && CellInt(f.rows[r][ScoreIndex(f)]).Some? && row[1] == Int(CellInt(f.rows[r][ScoreIndex(f)]).value)
      && (["label_value", "score"] + attrs)[2 + j] == attrs[j]
      && row[2 + j] == Text(CellText(f.rows[r][IndexOf(f.columns, attrs[j])]))
      && (f.rows[r][IndexOf(f.columns, attrs[j])] == Missing ==> row[2 + j] == Text("nan"))
      && (f.rows[r][IndexOf(f.columns, attrs[j])].Float? ==>
            row[2 + j] == Text(Decimal.IntToString(f.rows[r][IndexOf(f.columns, attrs[j])].whole) + ".0"))
  {
    var row := AeqRow(f, r, attrs);
    var c := f.rows[r][IndexOf(f.columns, attrs[j])];
    AeqRowCells(f, r, attrs, j);
    assert row[2 + j] == Text(CellText(c));
    RowNumbers(f, r);
  }

  /** The label and score of a row of a table whose label and score columns convert. */
  lemma RowNumbers(f: Frame<Cell>, r: nat)
    requires WellFormed(f) && r < |f.rows|
    requires "label" in f.columns && "score" in f.columns
    requires IntegerColumn(f, LabelIndex(f)) && IntegerColumn(f, ScoreIndex(f))
    ensures CellInt(f.rows[r][LabelIndex(f)]).Some? && AsInt(f.rows[r][LabelIndex(f)]) == Int(CellInt(f.rows[r][LabelIndex(f)]).value)
    ensures CellInt(f.rows[r][ScoreIndex(f)]).Some? && AsInt(f.rows[r][ScoreIndex(f)]) == Int(CellInt(f.rows[r][ScoreIndex(f)]).value)
  {
  }

  /** What tells the audit column names apart from the others: first letter and length. */
  lemma SensAllShape(m: string)
    requires m in SensAll
    ensures |m| >= 9
    ensures m[0] == 'g' || m[0] == 'a' || m[0] == 'r' || (m[0] == 'c' && |m| == 11)
  {
    var i :| 0 <= i < |SensAll| && SensAll[i] == m;
    if i == 0 { assert m == "gender_cat"; }
    else if i == 1 { assert m == "citizen_cat"; }
    else if i == 2 { assert m == "age_group"; }
    else if i == 3 { assert m == "german_speaking_cat"; }
    else { assert m == "religious_cat"; }
  }

  /** No audit column name starts with `Act` or `Res`. */
  lemma AuditNamesAreNotSlots(n: string)
    requires n in SensAll
    ensures !IsActColumn(n) && !IsResColumn(n)
  {
    SensAllShape(n);
  }

  /** The identifier, label and score columns are neither slots nor audit columns. */
  lemma BookkeepingNames(n: string)
    requires n in ["case", "PrefixLen", "label", "score", "label_value"]
    ensures !IsActColumn(n) && !IsResColumn(n) && n !in SensAll
  {
    var names := ["case", "PrefixLen", "label", "score", "label_value"];
    var i :| 0 <= i < |names| && names[i] == n;
    if i == 0 { assert n == "case"; }
    else if i == 1 { assert n == "PrefixLen"; }
    else if i == 2 { assert n == "label"; }
    else if i == 3 { assert n == "score"; }
    else { assert n == "label_value"; }
    assert n[0] == 'c' || n[0] == 'P' || n[0] == 'l' || n[0] == 's';
    assert n[0] == 'c' ==> |n| == 4;
    if n in SensAll { SensAllShape(n); }
  }

  lemma SensAllDistinct()
    ensures Distinct(SensAll)
  {
  }

  /** The attribute columns of a table with distinct column names are distinct. */
  lemma AttrColumnsDistinct(cols: seq<string>)
    requires Distinct(cols)
    ensures Distinct(AttrColumns(cols))
  {
    var acts := Filter(cols, IsActColumn);
    var ress := Filter(cols, IsResColumn);
    SensAllDistinct();
    var sens := PresentNames(SensAll, cols);
    FilterDistinct(cols, IsActColumn);
    FilterDistinct(cols, IsResColumn);
    forall j | 0 <= j < |ress| ensures !IsActColumn(ress[j]) {
      assert ress[j][0] == ress[j][..3][0] == 'R';
    }
    forall j | 0 <= j < |sens| ensures !IsActColumn(sens[j]) && !IsResColumn(sens[j]) {
      AuditNamesAreNotSlots(sens[j]);
    }
    DistinctConcat(acts, ress);
    DistinctConcat(acts + ress, sens);
  }

  /** None of the attribute columns is `case`, `PrefixLen`, `label`, `score` or
      `label_value`. */
  lemma AttrColumnsExclude(cols: seq<string>, n: string)
    requires n in ["case", "PrefixLen", "label", "score", "label_value"]
    ensures n !in AttrColumns(cols)
  {
    var acts := Filter(cols, IsActColumn);
    var ress := Filter(cols, IsResColumn);
    var sens := PresentNames(SensAll, cols);
    var attrs := acts + ress + sens;
    BookkeepingNames(n);
    assert n !in acts && n !in ress && n !in sens;
  }

  /** The output's column names are distinct. */
  lemma OutputColumnsDistinct(cols: seq<string>)
    requires Distinct(cols)
    ensures Distinct(["label_value", "score"] + AttrColumns(cols))
  {
    AttrColumnsDistinct(cols);
    AttrColumnsExclude(cols, "label_value");
    AttrColumnsExclude(cols, "score");
    DistinctPair("label_value", "score", AttrColumns(cols));
  }

  /** A successful conversion yields a well-formed frame. */
  lemma AequitasFrameWellFormed(f: Frame<Cell>, g: Frame<Cell>)
    requires WellFormed(f) && MakeAequitasFrame(f) == Ok(g)
    ensures WellFormed(g)
  {
    OutputColumnsDistinct(f.columns);
    forall r | 0 <= r < |g.rows| ensures |g.rows[r]| == |g.columns| {
      AequitasFrameRow(f, g, r);
    }
  }

  /** On the table the builder writes, the attribute columns are exactly the slot columns
      followed by the log's audit columns: `case` and `PrefixLen` are dropped and the audit
      columns keep their order. */
  lemma AttrColumnsOfBuiltTable(log: Log, k: nat, complex: bool, t: PrefixTable)
    requires BuildPrefixTable(log, k, complex) == Ok(t)
    ensures AttrColumns(ScoredColumns(t)) == Slots(t) + SensColumns(log)
  {
    BuiltScoredColumns(log, k, complex, t);
    AttrColumnsOfLayout(log, t, ScoredColumns(t));
  }

  lemma AttrColumnsOfLayout(log: Log, t: PrefixTable, cols: seq<string>)
    requires cols == ["case", "PrefixLen"] + Slots(t) + SensColumns(log) + ["label", "score"]
    ensures AttrColumns(cols) == Slots(t) + SensColumns(log)
  {
    var sens := SensColumns(log);
    var front := ["case", "PrefixLen"];
    var back := ["label", "score"];
    var acts, ress := SlotParts(t);
    OtherColumnKinds(front, sens, back);
    assert cols == front + acts + ress + (sens + back);
    ActFilter(front, acts, ress, sens + back);
    ResFilter(front, acts, ress, sens + back);
    SlotsAreFeatures(t);
    PresentAuditColumns(log, cols, front, Slots(t), back);
  }

  /** The slot columns split into the activity slots and the resource slots. */
  lemma SlotParts(t: PrefixTable) returns (acts: seq<string>, ress: seq<string>)
    ensures Slots(t) == acts + ress
    ensures forall i :: 0 <= i < |acts| ==> IsActColumn(acts[i]) && !IsResColumn(acts[i])
    ensures forall i :: 0 <= i < |ress| ==> IsResColumn(ress[i]) && !IsActColumn(ress[i])
  {
    acts := if |t.rows| == 0 then [] else SlotNames("Act", t.k);
    ress := if |t.rows| == 0 || !t.complex then [] else SlotNames("Res", t.k);
    SlotKinds(t.k);
  }

  lemma ActFilter(front: seq<string>, acts: seq<string>, ress: seq<string>, rest: seq<string>)
    requires forall i :: 0 <= i < |front| ==> !IsActColumn(front[i])
    requires forall i :: 0 <= i < |acts| ==> IsActColumn(acts[i])
    requires forall i :: 0 <= i < |ress| ==> !IsActColumn(ress[i])
    requires forall i :: 0 <= i < |rest| ==> !IsActColumn(rest[i])
    ensures Filter(front + acts + ress + rest, IsActColumn) == acts
  {
    assert front + acts + ress + rest == front + acts + (ress + rest);
    FilterMiddle(front, acts, ress + rest, IsActColumn);
  }

  lemma ResFilter(front: seq<string>, acts: seq<string>, ress: seq<string>, rest: seq<string>)
    requires forall i :: 0 <= i < |front| ==> !IsResColumn(front[i])
    requires forall i :: 0 <= i < |acts| ==> !IsResColumn(acts[i])
    requires forall i :: 0 <= i < |ress| ==> IsResColumn(ress[i])
    requires forall i :: 0 <= i < |rest| ==> !IsResColumn(rest[i])
    ensures Filter(front + acts + ress + rest, IsResColumn) == ress
  {
    FilterMiddle(front + acts, ress, rest, IsResColumn);
  }

  lemma SlotKinds(k: nat)
    ensures forall i :: 0 <= i < k ==> IsActColumn(SlotNames("Act", k)[i]) && !IsResColumn(SlotNames("Act", k)[i])
    ensures forall i :: 0 <= i < k ==> IsResColumn(SlotNames("Res", k)[i]) && !IsActColumn(SlotNames("Res", k)[i])
  {
    forall i | 0 <= i < k
      ensures IsActColumn(SlotNames("Act", k)[i]) && !IsResColumn(SlotNames("Act", k)[i])
      ensures IsResColumn(SlotNames("Res", k)[i]) && !IsActColumn(SlotNames("Res", k)[i])
    {
      assert SlotNames("Act", k)[i][..3] == "Act";
      assert SlotNames("Res", k)[i][..3] == "Res";
    }
  }

  lemma OtherColumnKinds(front: seq<string>, sens: seq<string>, back: seq<string>)
    requires front == ["case", "PrefixLen"] && back == ["label", "score"]
    requires forall n :: n in sens ==> n in AuditColumnNames
    ensures forall i :: 0 <= i < |front| ==> !IsActColumn(front[i]) && !IsResColumn(front[i])
    ensures forall i :: 0 <= i < |back| ==> !IsActColumn(back[i]) && !IsResColumn(back[i])
    ensures forall i :: 0 <= i < |sens| ==> !IsActColumn(sens[i]) && !IsResColumn(sens[i])
    ensures forall i :: 0 <= i < |sens| + |back| ==> !IsActColumn((sens + back)[i]) && !IsResColumn((sens + back)[i])
  {
    forall i | 0 <= i < |sens| ensures !IsFeature(sens[i]) {
      assert sens[i] in sens;
      NonFeatureNames(sens[i]);
    }
    NonFeatureNames("case");
    NonFeatureNames("label");
    NonFeatureNames("PrefixLen");
    assert !IsFeature("score") by { assert "score"[0] == 's'; }
  }

  lemma FeaturesExclude(n: string, names: seq<string>)
    requires !IsFeature(n) && forall i :: 0 <= i < |names| ==> IsFeature(names[i])
    ensures n !in names
  {
  }

  /** The audit columns found among `front + mid + sens + back` are `sens` itself when the
      other parts hold no audit column. */
  lemma PresentAuditColumns(log: Log, cols: seq<string>, front: seq<string>, mid: seq<string>, back: seq<string>)
    requires cols == front + mid + SensColumns(log) + back
    requires front == ["case", "PrefixLen"] && back == ["label", "score"]
    requires forall i :: 0 <= i < |mid| ==> IsFeature(mid[i])
    ensures PresentNames(SensAll, cols) == SensColumns(log)
  {
    var sens := SensColumns(log);
    forall i | 0 <= i < |SensAll| ensures PresentIn(cols, SensAll[i]) == (SensAll[i] in sens) {
      var n := SensAll[i];
      NonFeatureNames(n);
      FeaturesExclude(n, mid);
    }
    FilterSamePredicate(SensAll, n => PresentIn(cols, n), n => n in sens);
    SensSpecNames(log);
    SensFromIsFilter(log, SensSpec, SensAll, sens);
  }

  /** The fixed audit list names the audit columns in the order of `SensSpec`, and each is
      selected exactly when its raw column exists. */
  lemma SensSpecNames(log: Log)
    ensures |SensSpec| == |SensAll|
    ensures forall i :: 0 <= i < |SensSpec| ==>
      SensSpec[i].0 == SensAll[i] && (SensAll[i] in SensColumns(log) <==> SensSpec[i].1 in log.statics)
  {
    var sens := SensColumns(log);
    forall i | 0 <= i < |SensSpec|
      ensures SensSpec[i].0 == SensAll[i] && (SensAll[i] in sens <==> SensSpec[i].1 in log.statics)
    {
      if i == 0 { assert SensAll[i] == "gender_cat"; }
      else if i == 1 { assert SensAll[i] == "citizen_cat"; }
      else if i == 2 { assert SensAll[i] == "age_group"; }
      else if i == 3 { assert SensAll[i] == "german_speaking_cat"; }
      else { assert SensAll[i] == "religious_cat"; }
    }
  }

  /** Selecting audit columns by the raw columns present agrees with selecting them by name
      from the selection's own result. */
  lemma {:induction false} SensFromIsFilter(log: Log, spec: seq<(string, StaticColumn)>, names: seq<string>, sens: seq<string>)
    requires |spec| == |names|
    requires forall i :: 0 <= i < |spec| ==> spec[i].0 == names[i] && (names[i] in sens <==> spec[i].1 in log.statics)
    ensures SensFrom(log, spec) == Filter(names, n => n in sens)
  {
    if |spec| > 0 {
      SensFromIsFilter(log, spec[1..], names[1..], sens);
    }
  }
}
