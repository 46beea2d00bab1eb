/** The activity-token map and the k-prefix table builder
    (01_build_aequitas_inputs.py, lines 61-92 and the column list of lines 94-125). */
module PrefixTables {
  import opened Basics
  import opened Text
  import opened Decimal
  import opened EventLog

  // ---------------------------------------------------------------- activity tokens

  predicate InLog(log: Log, a: string)
  {
    exists j :: 0 <= j < |log.events| && log.events[j].activity == Some(a)
  }

  /** `df["Activity"].dropna()` over the first `n` rows, in row order. */
  function ActivityValues(log: Log, n: nat): (r: seq<string>)
    requires n <= |log.events|
    ensures forall a :: a in r <==> exists j :: 0 <= j < n && log.events[j].activity == Some(a)
  {
    if n == 0 then []
    else
      var rest := ActivityValues(log, n - 1);
      match log.events[n - 1].activity
      case None => rest
      case Some(a) => rest + [a]
  }

  /** `acts_sorted`: the distinct non-missing activity names in ascending order. */
  function ActivityNames(log: Log): (names: seq<string>)
    ensures StrictlySorted(names)
    ensures forall a :: a in names <==> InLog(log, a)
  {
    SortedDistinct(ActivityValues(log, |log.events|))
  }

  /** `act2tok`: the name at sorted position `i` gets token `Token(i)`. Built once per log. */
  function Act2Tok(log: Log): (m: map<string, string>)
    ensures forall a :: a in m <==> InLog(log, a)
    ensures forall i :: 0 <= i < |ActivityNames(log)| ==>
      ActivityNames(log)[i] in m && m[ActivityNames(log)[i]] == Token(i)
  {
    var names := ActivityNames(log);
    assert forall i, j :: 0 <= i < |names| && 0 <= j < |names| && i != j ==> names[i] != names[j] by {
      forall i, j | 0 <= i < |names| && 0 <= j < |names| && i != j ensures names[i] != names[j] {
        StrictlySortedDistinct(names, i, j);
      }
    }
    var m := map i | 0 <= i < |names| :: names[i] := Token(i);
    assert forall a :: a in m <==> a in names;
    m
  }

  /** The 0-based position of a token: its digits minus one. */
  function TokenPosition(t: string): int
  {
    if |t| >= 1 && AllDigits(t[1..]) then DigitsValue(t[1..]) - 1 else -1
  }

  /** Different activities never share a token, and token positions follow name order. */
  lemma Act2TokInjectiveOrdered(log: Log, a: string, b: string)
    requires InLog(log, a) && InLog(log, b)
    ensures var m := Act2Tok(log);
      && (a != b ==> m[a] != m[b])
      && (StrLt(a, b) ==> TokenPosition(m[a]) < TokenPosition(m[b]))
      && 0 <= TokenPosition(m[a])
  {
    var names := ActivityNames(log);
    var m := Act2Tok(log);
    var i :| 0 <= i < |names| && names[i] == a;
    var j :| 0 <= j < |names| && names[j] == b;
    TokenShape(i);
    TokenShape(j);
    if a != b && m[a] == m[b] {
      TokenInjective(i, j);
    }
    if StrLt(a, b) {
      if j < i {
        StrLtAsymmetric(b, a);
      } else if i == j {
        StrLtIrreflexive(a);
      }
    }
  }

  // ---------------------------------------------------------------- prefix rows

  /** One row of the k-prefix table: `Act1..Actk`, `Res1..Resk` (complex encoding only,
      otherwise empty), `label`, the audit columns and `PrefixLen`. `None` is a missing cell. */
  datatype PrefixRow = PrefixRow(
    caseId: int,
    acts: seq<Option<string>>,
    ress: seq<Option<string>>,
    caseLabel: nat,
    sens: seq<string>,
    prefixLen: nat)

  datatype PrefixTable = PrefixTable(k: nat, complex: bool, sensColumns: seq<string>, rows: seq<PrefixRow>)

  datatype BuildError = ResourceColumnMissing

  /** `Activity.map(act2tok)`: an activity absent from the map, or a missing one, gives a missing cell. */
  function TokenOf(m: map<string, string>, a: Option<string>): Option<string>
  {
    match a
    case None => None
    case Some(x) => if x in m then Some(m[x]) else None
  }

  /** Lines 68-71: after `head(k)` a case keeps exactly k rows only when it has at least k. */
  predicate Qualifies(log: Log, c: int, k: nat)
  {
    k >= 1 && |Trace(log, c)| >= k
  }

  function MakeRow(log: Log, m: map<string, string>, c: int, k: nat, complex: bool): PrefixRow
    requires |Trace(log, c)| >= k
  {
    var t := Trace(log, c);
    PrefixRow(
      c,
      seq(k, i requires 0 <= i < k => TokenOf(m, log.events[t[i]].activity)),
      if complex then seq(k, i requires 0 <= i < k => log.events[t[i]].resource) else [],
      Label(log, c),
      SensValues(log, c),
      k)
  }

  /** The cases of `cases` that keep a row for k, in the order of `cases`. */
  function QualifyingIds(log: Log, cases: seq<int>, k: nat): (ids: seq<int>)
    ensures forall c :: c in ids <==> c in cases && Qualifies(log, c, k)
    ensures (forall p, q :: 0 <= p < q < |cases| ==> cases[p] < cases[q]) ==>
      forall p, q :: 0 <= p < q < |ids| ==> ids[p] < ids[q]
  {
    if |cases| == 0 then []
    else
      var rest := QualifyingIds(log, cases[1..], k);
      assert forall c :: c in cases <==> c == cases[0] || c in cases[1..];
      if Qualifies(log, cases[0], k) then
        assert (forall p, q :: 0 <= p < q < |cases| ==> cases[p] < cases[q]) ==>
          forall q :: 0 <= q < |rest| ==> cases[0] < rest[q] by {
          if forall p, q :: 0 <= p < q < |cases| ==> cases[p] < cases[q] {
            forall q | 0 <= q < |rest| ensures cases[0] < rest[q] {
              assert rest[q] in rest;
              var p :| 0 <= p < |cases[1..]| && cases[1..][p] == rest[q];
              assert cases[p + 1] == rest[q];
            }
          }
        }
        [cases[0]] + rest
      else rest
  }

  function RowsFor(log: Log, m: map<string, string>, ids: seq<int>, k: nat, complex: bool): (rows: seq<PrefixRow>)
    requires forall p :: 0 <= p < |ids| ==> Qualifies(log, ids[p], k)
  {
    seq(|ids|, p requires 0 <= p < |ids| => assert Qualifies(log, ids[p], k); MakeRow(log, m, ids[p], k, complex))
  }

  /** `build_prefix_table(k, complex_enc)`. */
  function BuildPrefixTable(log: Log, k: nat, complex: bool): Result<PrefixTable, BuildError>
  {
    if complex && !log.hasResource then Err(ResourceColumnMissing)
    else
      var ids := QualifyingIds(log, CaseIds(log), k);
      assert forall p :: 0 <= p < |ids| ==> ids[p] in ids;
      Ok(PrefixTable(k, complex, SensColumns(log), RowsFor(log, Act2Tok(log), ids, k, complex)))
  }

  /** The cases that have at least k events. */
  function QualifyingCases(log: Log, k: nat): set<int>
  {
    set j | 0 <= j < |log.events| && Qualifies(log, log.events[j].caseId, k) :: log.events[j].caseId
  }

  /** The row at position p belongs to the p-th qualifying case id and is built from its trace. */
  lemma BuildUnfold(log: Log, k: nat, complex: bool, t: PrefixTable)
    requires BuildPrefixTable(log, k, complex) == Ok(t)
    ensures var ids := QualifyingIds(log, CaseIds(log), k);
      && |t.rows| == |ids|
      && t.k == k && t.complex == complex && t.sensColumns == SensColumns(log)
      && (forall p :: 0 <= p < |ids| ==> Qualifies(log, ids[p], k))
      && (forall p :: 0 <= p < |ids| ==> t.rows[p] == MakeRow(log, Act2Tok(log), ids[p], k, complex))
  {
    var ids := QualifyingIds(log, CaseIds(log), k);
    assert forall p :: 0 <= p < |ids| ==> ids[p] in ids;
    assert t.rows == RowsFor(log, Act2Tok(log), ids, k, complex);
  }

  /** The builder fails exactly for the complex encoding of a log without resources. */
  lemma BuildPrefixTableFails(log: Log, k: nat, complex: bool)
    ensures BuildPrefixTable(log, k, complex).Err? <==> complex && !log.hasResource
  {
  }

  /** A case has a row exactly when it has at least k events (and k is positive). */
  lemma {:induction false} BuildPrefixTableMembership(log: Log, k: nat, complex: bool, t: PrefixTable, c: int)
    requires BuildPrefixTable(log, k, complex) == Ok(t)
    ensures (exists p :: 0 <= p < |t.rows| && t.rows[p].caseId == c)
            <==> HasCase(log, c) && k >= 1 && CaseSize(log, c) >= k
  {
    BuildUnfold(log, k, complex, t);
    var ids := QualifyingIds(log, CaseIds(log), k);
    TraceLength(log, c);
    if HasCase(log, c) && k >= 1 && CaseSize(log, c) >= k {
      assert c in ids;
      var p :| 0 <= p < |ids| && ids[p] == c;
      assert t.rows[p].caseId == c;
    }
    if exists p :: 0 <= p < |t.rows| && t.rows[p].caseId == c {
      var p :| 0 <= p < |t.rows| && t.rows[p].caseId == c;
      assert t.rows[p].caseId == ids[p];
      assert ids[p] in ids;
    }
  }

  /** Rows come in strictly ascending case order, hence at most one per case. */
  lemma BuildPrefixTableOrder(log: Log, k: nat, complex: bool, t: PrefixTable)
    requires BuildPrefixTable(log, k, complex) == Ok(t)
    ensures forall p, q :: 0 <= p < q < |t.rows| ==> t.rows[p].caseId < t.rows[q].caseId
  {
    BuildUnfold(log, k, complex, t);
    var ids := QualifyingIds(log, CaseIds(log), k);
    assert forall p :: 0 <= p < |ids| ==> t.rows[p].caseId == ids[p];
  }

  /** The table has exactly as many rows as there are cases with at least k events. */
  lemma {:induction false} BuildPrefixTableRowCount(log: Log, k: nat, complex: bool, t: PrefixTable)
    requires BuildPrefixTable(log, k, complex) == Ok(t)
    ensures |t.rows| == |QualifyingCases(log, k)|
  {
    BuildUnfold(log, k, complex, t);
    var ids := QualifyingIds(log, CaseIds(log), k);
    assert forall p, q :: 0 <= p < q < |ids| ==> ids[p] < ids[q];
    DistinctCard(ids);
    QualifyingIdsSet(log, k);
  }

  /** The qualifying ids are the qualifying cases of the log. */
  lemma QualifyingIdsSet(log: Log, k: nat)
    ensures Elems(QualifyingIds(log, CaseIds(log), k)) == QualifyingCases(log, k)
  {
    var ids := QualifyingIds(log, CaseIds(log), k);
    forall c | c in Elems(ids) ensures c in QualifyingCases(log, k) {
      var p :| 0 <= p < |ids| && ids[p] == c;
      assert ids[p] in ids;
      var j :| 0 <= j < |log.events| && log.events[j].caseId == c;
    }
    forall c | c in QualifyingCases(log, k) ensures c in Elems(ids) {
      var j :| 0 <= j < |log.events| && Qualifies(log, log.events[j].caseId, k) && log.events[j].caseId == c;
      assert HasCase(log, c);
      assert c in ids;
    }
  }

  /** Every row is stamped with k and carries, slot by slot, the token and (complex encoding)
      the resource of the i-th event of its case's trace, plus the whole-case label and the
      case's audit values. */
  lemma BuildPrefixTableSlots(log: Log, k: nat, complex: bool, t: PrefixTable, p: nat, i: nat)
    requires BuildPrefixTable(log, k, complex) == Ok(t)
    requires p < |t.rows|
    ensures var r := t.rows[p];
      var tr := Trace(log, r.caseId);
      && r.prefixLen == k && |r.acts| == k && k <= |tr|
      && (complex ==> |r.ress| == k) && (!complex ==> r.ress == [])
      && r.caseLabel == Label(log, r.caseId)
      && r.sens == SensValues(log, r.caseId) && |r.sens| == |t.sensColumns|
      && (i < k ==>
           && r.acts[i] == TokenOf(Act2Tok(log), log.events[tr[i]].activity)
           && (log.events[tr[i]].activity.Some? <==> r.acts[i].Some?)
           && (complex ==> r.ress[i] == log.events[tr[i]].resource))
  {
    BuildUnfold(log, k, complex, t);
    var ids := QualifyingIds(log, CaseIds(log), k);
    var r := t.rows[p];
    assert r == MakeRow(log, Act2Tok(log), ids[p], k, complex);
    var tr := Trace(log, r.caseId);
    if i < k {
      assert tr[i] in tr;
    }
  }

  /** The same case gets the same label and the same token in a shared slot, whatever k is:
      the label is computed over the whole case and the token map once per log. */
  lemma PrefixRowsAgreeAcrossK(log: Log, complex: bool, k1: nat, t1: PrefixTable, p1: nat,
                               k2: nat, t2: PrefixTable, p2: nat, i: nat)
    requires BuildPrefixTable(log, k1, complex) == Ok(t1) && BuildPrefixTable(log, k2, complex) == Ok(t2)
    requires p1 < |t1.rows| && p2 < |t2.rows| && t1.rows[p1].caseId == t2.rows[p2].caseId
    requires i < k1 && i < k2
    ensures t1.rows[p1].caseLabel == t2.rows[p2].caseLabel
    ensures t1.rows[p1].acts[i] == t2.rows[p2].acts[i]
    ensures t1.rows[p1].sens == t2.rows[p2].sens
  {
    BuildPrefixTableSlots(log, k1, complex, t1, p1, i);
    BuildPrefixTableSlots(log, k2, complex, t2, p2, i);
  }

  /** Rows are one per case, so any split of row positions into two disjoint parts splits
      the cases too: no case reaches both training and held-out data. */
  lemma CaseLevelSplit(log: Log, k: nat, complex: bool, t: PrefixTable, train: set<nat>, test: set<nat>)
    requires BuildPrefixTable(log, k, complex) == Ok(t)
    requires train !! test
    requires forall p :: p in train ==> p < |t.rows|
    requires forall p :: p in test ==> p < |t.rows|
    ensures (set p | p in train :: t.rows[p].caseId) !! (set p | p in test :: t.rows[p].caseId)
  {
    BuildPrefixTableOrder(log, k, complex, t);
    forall p, q | p in train && q in test ensures t.rows[p].caseId != t.rows[q].caseId {
      assert p != q;
    }
  }

  // ---------------------------------------------------------------- columns

  function SlotNames(prefix: string, k: nat): seq<string>
  {
    seq(k, i requires 0 <= i < k => prefix + NatToString(i + 1))
  }

  /** The pivoted slot columns: none when no case qualifies (pivoting an empty frame yields
      no columns), else `Act1..Actk` and, for the complex encoding, `Res1..Resk`. */
  function Slots(t: PrefixTable): seq<string>
  {
    if |t.rows| == 0 then [] else SlotNames("Act", t.k) + (if t.complex then SlotNames("Res", t.k) else [])
  }

  /** Column order of the built table: `case`, the slots, `label`, the audit columns, `PrefixLen`. */
  function Columns(t: PrefixTable): seq<string>
  {
    ["case"] + Slots(t) + ["label"] + t.sensColumns + ["PrefixLen"]
  }

  predicate IsFeature(c: string)
  {
    StartsWith(c, "Act") || StartsWith(c, "Res")
  }

  /** `cols_output` of line 122 followed by `label` and `score` (lines 124-125): the feature
      columns are picked from the built table by their `Act`/`Res` prefix. */
  function ScoredColumns(t: PrefixTable): seq<string>
  {
    ["case", "PrefixLen"] + Filter(Columns(t), IsFeature) + t.sensColumns + ["label", "score"]
  }

  lemma {:induction false} FilterKeepsAll(s: seq<string>)
    requires forall i :: 0 <= i < |s| ==> IsFeature(s[i])
    ensures Filter(s, IsFeature) == s
  {
    if |s| > 0 {
      FilterKeepsAll(s[1..]);
      assert s == [s[0]] + s[1..];
    }
  }

  lemma {:induction false} FilterDropsAll(s: seq<string>)
    requires forall i :: 0 <= i < |s| ==> !IsFeature(s[i])
    ensures Filter(s, IsFeature) == []
  {
    if |s| > 0 {
      FilterDropsAll(s[1..]);
    }
  }

  lemma SlotsAreFeatures(t: PrefixTable)
    ensures forall i :: 0 <= i < |Slots(t)| ==> IsFeature(Slots(t)[i])
  {
    var sl := Slots(t);
    forall i | 0 <= i < |sl| ensures IsFeature(sl[i]) {
      if |t.rows| > 0 {
        if i < t.k {
          assert sl[i] == "Act" + NatToString(i + 1);
          assert sl[i][..3] == "Act";
        } else {
          assert sl[i] == "Res" + NatToString(i - t.k + 1);
          assert sl[i][..3] == "Res";
        }
      }
    }
  }

  lemma NonFeatureNames(n: string)
    requires n in AuditColumnNames + ["case", "label", "PrefixLen"]
    ensures !IsFeature(n)
  {
    assert n[0] in "gcagrclP";
  }

  /** The written table's columns: `case`, `PrefixLen`, the activity slots, the resource slots
      (complex only), the audit columns, `label`, `score`. Identifiers, the label and the audit
      columns never become classifier features. */
  lemma ScoredColumnsLayout(t: PrefixTable)
    requires forall n :: n in t.sensColumns ==> n in AuditColumnNames
    ensures ScoredColumns(t) == ["case", "PrefixLen"] + Slots(t) + t.sensColumns + ["label", "score"]
  {
    var slots := Slots(t);
    var sens := t.sensColumns;
    SlotsAreFeatures(t);
    FilterKeepsAll(slots);
    forall i | 0 <= i < |sens| ensures !IsFeature(sens[i]) {
      assert sens[i] in sens;
      NonFeatureNames(sens[i]);
    }
    FilterDropsAll(sens);
    NonFeatureNames("case");
    NonFeatureNames("label");
    NonFeatureNames("PrefixLen");
    FilterDropsAll(["case"]);
    FilterDropsAll(["label"]);
    FilterDropsAll(["PrefixLen"]);
    var c1 := ["case"] + slots;
    var c2 := c1 + ["label"];
    var c3 := c2 + sens;
    assert Columns(t) == c3 + ["PrefixLen"];
    FilterAppend(["case"], slots, IsFeature);
    assert Filter(c1, IsFeature) == slots;
    FilterAppend(c1, ["label"], IsFeature);
    assert Filter(c2, IsFeature) == slots;
    FilterAppend(c2, sens, IsFeature);
    assert Filter(c3, IsFeature) == slots;
    FilterAppend(c3, ["PrefixLen"], IsFeature);
    assert Filter(Columns(t), IsFeature) == slots;
  }

  /** For a built table the audit columns are those of the log, so the layout above applies. */
  lemma BuiltScoredColumns(log: Log, k: nat, complex: bool, t: PrefixTable)
    requires BuildPrefixTable(log, k, complex) == Ok(t)
    ensures ScoredColumns(t) == ["case", "PrefixLen"] + Slots(t) + SensColumns(log) + ["label", "score"]
  {
    BuildUnfold(log, k, complex, t);
    ScoredColumnsLayout(t);
  }
}
