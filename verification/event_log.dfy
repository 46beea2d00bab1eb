/** The raw hiring event log and its case-level views (01_build_aequitas_inputs.py, lines 10-59):
    the (case, timestamp, row) sort, per-case traces, the outcome label, the first-non-null
    demographic values and their binning into audit categories. */
module EventLog {
  import opened Basics
  import opened Text
  import Frames

  /** The activity whose presence anywhere in a case makes its label 1. */
  const OfferActivity: string := "Make Job Offer"

  /** An `age` cell as `float()` sees it: a number, or text that does not parse.
      A missing cell (NaN) is `None` in the enclosing `Option`. */
  datatype AgeCell = Number(years: real) | Unparseable

  /** The optional demographic columns of the raw log. */
  datatype StaticColumn = Gender | Citizen | GermanSpeaking | Religious | Age

  /** One row of the raw log. Its original row number is its position in `Log.events`.
      `ts` is the parsed timestamp, `None` when it did not parse (NaT). A demographic cell is
      the text `str` gives for the value as read, so a 0/1 column with a gap reads "1.0". */
  datatype Event = Event(
    caseId: int,
    activity: Option<string>,
    ts: Option<int>,
    resource: Option<string>,
    gender: Option<string>,
    citizen: Option<string>,
    german: Option<string>,
    religious: Option<string>,
    age: Option<AgeCell>)

  /** The log: its rows, whether a `resource` column exists, and which demographic columns exist.
      Cells of a column the log does not have are never read. */
  datatype Log = Log(events: seq<Event>, hasResource: bool, statics: set<StaticColumn>)

  predicate HasCase(log: Log, c: int)
  {
    exists j :: 0 <= j < |log.events| && log.events[j].caseId == c
  }

  /** The number of rows of case `c`. */
  function CaseSize(log: Log, c: int): nat
  {
    |set j | 0 <= j < |log.events| && log.events[j].caseId == c|
  }

  // ---------------------------------------------------------------- ordering

  /** Timestamp order of `sort_values`: parseable timestamps ascending, NaT after all of them. */
  predicate TsBefore(a: Option<int>, b: Option<int>)
  {
    match (a, b)
    case (Some(x), Some(y)) => x < y
    case (Some(_), None) => true
    case (None, _) => false
  }

  /** Order of two rows of the same case: by timestamp, then by original row number. */
  predicate TraceBefore(log: Log, i: nat, j: nat)
    requires i < |log.events| && j < |log.events|
  {
    TsBefore(log.events[i].ts, log.events[j].ts)
    || (log.events[i].ts == log.events[j].ts && i < j)
  }

  /** The sort key of line 33: (case, timestamp, original row). */
  predicate RowBefore(log: Log, i: nat, j: nat)
    requires i < |log.events| && j < |log.events|
  {
    log.events[i].caseId < log.events[j].caseId
    || (log.events[i].caseId == log.events[j].caseId && TraceBefore(log, i, j))
  }

  lemma RowBeforeStrictTotal(log: Log, i: nat, j: nat, k: nat)
    requires i < |log.events| && j < |log.events| && k < |log.events|
    ensures !RowBefore(log, i, i)
    ensures i != j ==> RowBefore(log, i, j) || RowBefore(log, j, i)
    ensures RowBefore(log, i, j) && RowBefore(log, j, k) ==> RowBefore(log, i, k)
  {
  }

  predicate ValidRows(log: Log, s: seq<nat>)
  {
    forall p :: 0 <= p < |s| ==> s[p] < |log.events|
  }

  predicate SortedRows(log: Log, s: seq<nat>)
    requires ValidRows(log, s)
  {
    forall p, q :: 0 <= p < q < |s| ==> RowBefore(log, s[p], s[q])
  }

  function InsertRow(log: Log, i: nat, s: seq<nat>): (r: seq<nat>)
    requires i < |log.events| && i !in s
    requires ValidRows(log, s) && SortedRows(log, s)
    ensures ValidRows(log, r) && SortedRows(log, r)
    ensures |r| == |s| + 1
    ensures forall j :: j in r <==> j == i || j in s
  {
    if |s| == 0 then [i]
    else if RowBefore(log, i, s[0]) then
      assert forall q :: 0 <= q < |s| ==> RowBefore(log, i, s[q]) by {
        forall q | 0 <= q < |s| ensures RowBefore(log, i, s[q]) {
          RowBeforeStrictTotal(log, i, s[0], s[q]);
        }
      }
      [i] + s
    else
      RowBeforeStrictTotal(log, i, s[0], i);
      var rest := InsertRow(log, i, s[1..]);
      assert forall q :: 0 <= q < |rest| ==> RowBefore(log, s[0], rest[q]) by {
        forall q | 0 <= q < |rest| ensures RowBefore(log, s[0], rest[q]) {
          assert rest[q] in rest;
          if rest[q] != i {
            var p :| 0 <= p < |s[1..]| && s[1..][p] == rest[q];
            assert s[p + 1] == rest[q];
          }
        }
      }
      [s[0]] + rest
  }

  /** Row numbers `0 .. n-1` sorted by (case, timestamp, row). */
  function SortRows(log: Log, n: nat): (r: seq<nat>)
    requires n <= |log.events|
    ensures ValidRows(log, r) && SortedRows(log, r)
    ensures |r| == n
    ensures forall j :: j in r <==> 0 <= j < n
  {
    if n == 0 then []
    else
      var s := SortRows(log, n - 1);
      var r := InsertRow(log, n - 1, s);
      assert forall j :: j in r <==> 0 <= j < n by {
        forall j ensures j in r <==> 0 <= j < n {
          assert j in r <==> j == n - 1 || j in s;
        }
      }
      r
  }

  /** The sorted log of line 33, as row numbers. */
  function SortedLog(log: Log): (r: seq<nat>)
    ensures ValidRows(log, r) && SortedRows(log, r)
    ensures |r| == |log.events|
    ensures forall j :: j in r <==> 0 <= j < |log.events|
  {
    SortRows(log, |log.events|)
  }

  /** The rows of case `c` among `s`, in the order of `s`. */
  function RowsOfCase(log: Log, s: seq<nat>, c: int): (r: seq<nat>)
    requires ValidRows(log, s)
    ensures ValidRows(log, r)
    ensures forall j :: j in r <==> j in s && j < |log.events| && log.events[j].caseId == c
    ensures SortedRows(log, s) ==> SortedRows(log, r)
  {
    if |s| == 0 then []
    else
      var rest := RowsOfCase(log, s[1..], c);
      assert forall j :: j in s <==> j == s[0] || j in s[1..];
      if log.events[s[0]].caseId == c then
        assert SortedRows(log, s) ==> SortedRows(log, [s[0]] + rest) by {
          if SortedRows(log, s) {
            HeadBeforeTail(log, s, rest);
            ConsRows(log, s[0], rest);
          }
        }
        [s[0]] + rest
      else rest
  }

  /** The head of a sorted row list comes before every row drawn from its tail. */
  lemma HeadBeforeTail(log: Log, s: seq<nat>, rest: seq<nat>)
    requires ValidRows(log, s) && SortedRows(log, s) && |s| > 0
    requires forall j :: j in rest ==> j in s[1..]
    ensures forall q :: 0 <= q < |rest| ==> rest[q] < |log.events| && RowBefore(log, s[0], rest[q])
  {
    forall q | 0 <= q < |rest| ensures rest[q] < |log.events| && RowBefore(log, s[0], rest[q]) {
      assert rest[q] in rest;
      var p :| 0 <= p < |s[1..]| && s[1..][p] == rest[q];
      assert s[p + 1] == rest[q];
    }
  }

  /** A row placed before a sorted list of rows it precedes keeps the list sorted. */
  lemma ConsRows(log: Log, h: nat, rest: seq<nat>)
    requires h < |log.events| && ValidRows(log, rest) && SortedRows(log, rest)
    requires forall q :: 0 <= q < |rest| ==> RowBefore(log, h, rest[q])
    ensures ValidRows(log, [h] + rest) && SortedRows(log, [h] + rest)
  {
    var r := [h] + rest;
    forall p, q | 0 <= p < q < |r| ensures RowBefore(log, r[p], r[q]) {
      assert r[q] == rest[q - 1];
      if p > 0 {
        assert r[p] == rest[p - 1];
      }
    }
  }

  /** The trace of case `c`: its rows ordered by timestamp (NaT last), then by row number. */
  function Trace(log: Log, c: int): (t: seq<nat>)
    ensures ValidRows(log, t)
    ensures forall j :: j in t <==> 0 <= j < |log.events| && log.events[j].caseId == c
    ensures forall p, q :: 0 <= p < q < |t| ==> TraceBefore(log, t[p], t[q])
    ensures forall p :: 0 <= p < |t| ==> log.events[t[p]].caseId == c
  {
    var t := RowsOfCase(log, SortedLog(log), c);
    assert forall p :: 0 <= p < |t| ==> t[p] in t;
    t
  }

  /** A trace holds every row of its case exactly once, so its length is the case size. */
  lemma TraceLength(log: Log, c: int)
    ensures |Trace(log, c)| == CaseSize(log, c)
    ensures |Trace(log, c)| > 0 <==> HasCase(log, c)
  {
    var t := Trace(log, c);
    forall p, q | 0 <= p < q < |t| ensures t[p] != t[q] {
      assert TraceBefore(log, t[p], t[q]);
    }
    DistinctCard(t);
    var rows := set j | 0 <= j < |log.events| && log.events[j].caseId == c;
    assert Elems(t) == rows;
    if HasCase(log, c) {
      var j :| 0 <= j < |log.events| && log.events[j].caseId == c;
      assert j in t;
    }
  }

  // ---------------------------------------------------------------- case ids

  /** Case ids of a sorted row list, ascending and without repeats (the `groupby` keys). */
  function CaseIdsOf(log: Log, s: seq<nat>): (r: seq<int>)
    requires ValidRows(log, s) && SortedRows(log, s)
    ensures forall p, q :: 0 <= p < q < |r| ==> r[p] < r[q]
    ensures forall c :: c in r <==> exists j :: j in s && j < |log.events| && log.events[j].caseId == c
    ensures |s| > 0 ==> |r| > 0 && r[0] == log.events[s[0]].caseId
  {
    if |s| == 0 then []
    else
      var c := log.events[s[0]].caseId;
      SortedHead(log, s);
      var rest := CaseIdsOf(log, s[1..]);
      assert forall j :: j in s <==> j == s[0] || j in s[1..];
      if |rest| > 0 && rest[0] == c then rest else [c] + rest
  }

  /** The tail of a sorted row list is sorted, and its case ids are at least the head's. */
  lemma SortedHead(log: Log, s: seq<nat>)
    requires ValidRows(log, s) && SortedRows(log, s) && |s| > 0
    ensures ValidRows(log, s[1..]) && SortedRows(log, s[1..])
    ensures forall j :: j in s[1..] ==> j < |log.events| && log.events[s[0]].caseId <= log.events[j].caseId
  {
    forall j | j in s[1..] ensures j < |log.events| && log.events[s[0]].caseId <= log.events[j].caseId {
      var p :| 0 <= p < |s[1..]| && s[1..][p] == j;
      assert RowBefore(log, s[0], s[p + 1]);
    }
  }

  /** The distinct case ids of the log in ascending order. */
  function CaseIds(log: Log): (r: seq<int>)
    ensures forall p, q :: 0 <= p < q < |r| ==> r[p] < r[q]
    ensures forall c :: c in r <==> HasCase(log, c)
  {
    var r := CaseIdsOf(log, SortedLog(log));
    assert forall c :: HasCase(log, c) ==> c in r by {
      forall c | HasCase(log, c) ensures c in r {
        var j :| 0 <= j < |log.events| && log.events[j].caseId == c;
        assert j in SortedLog(log);
      }
    }
    r
  }

  // ---------------------------------------------------------------- label

  predicate IsOffer(e: Event)
  {
    e.activity == Some(OfferActivity)
  }

  /** `(s == "Make Job Offer").any()` over some rows. */
  function AnyOffer(log: Log, t: seq<nat>): (b: bool)
    requires ValidRows(log, t)
    ensures b <==> exists p :: 0 <= p < |t| && IsOffer(log.events[t[p]])
  {
    if |t| == 0 then false
    else if IsOffer(log.events[t[0]]) then true
    else
      var b := AnyOffer(log, t[1..]);
      assert forall p :: 1 <= p < |t| ==> t[p] == t[1..][p - 1];
      b
  }

  /** `label_by_case`: computed over the whole case, before any prefix truncation. */
  function Label(log: Log, c: int): nat
  {
    if AnyOffer(log, Trace(log, c)) then 1 else 0
  }

  /** The label is 1 exactly when some row of the case, at any position, is the offer activity. */
  lemma LabelIff(log: Log, c: int)
    ensures Label(log, c) == 0 || Label(log, c) == 1
    ensures Label(log, c) == 1 <==>
      exists j :: 0 <= j < |log.events| && log.events[j].caseId == c && IsOffer(log.events[j])
  {
    var t := Trace(log, c);
    if exists j :: 0 <= j < |log.events| && log.events[j].caseId == c && IsOffer(log.events[j]) {
      var j :| 0 <= j < |log.events| && log.events[j].caseId == c && IsOffer(log.events[j]);
      assert j in t;
      var p :| 0 <= p < |t| && t[p] == j;
    }
  }

  /** Once the offer is within the first `k` events the label is 1: no prefix length can reset it. */
  lemma LabelFromPrefix(log: Log, c: int, k: nat)
    requires k <= |Trace(log, c)|
    requires AnyOffer(log, Trace(log, c)[..k])
    ensures Label(log, c) == 1
  {
    var t := Trace(log, c);
    var p :| 0 <= p < k && IsOffer(log.events[t[..k][p]]);
    assert t[..k][p] == t[p];
  }

  // ---------------------------------------------------------------- demographics

  /** `groupby().first()` for one column: the first non-missing value, missing if all are. */
  function FirstNonNull<T>(s: seq<Option<T>>): (r: Option<T>)
    ensures r.None? <==> forall i :: 0 <= i < |s| ==> s[i].None?
    ensures r.Some? ==> exists i :: 0 <= i < |s| && s[i] == r && forall j :: 0 <= j < i ==> s[j].None?
  {
    if |s| == 0 then None
    else if s[0].Some? then s[0]
    else
      var r := FirstNonNull(s[1..]);
      assert forall i :: 1 <= i < |s| ==> s[i] == s[1..][i - 1];
      assert r.Some? ==> exists i :: 0 <= i < |s| && s[i] == r && forall j :: 0 <= j < i ==> s[j].None? by {
        if r.Some? {
          var i :| 0 <= i < |s[1..]| && s[1..][i] == r && forall j :: 0 <= j < i ==> s[1..][j].None?;
          assert s[i + 1] == r;
          assert forall j :: 0 <= j < i + 1 ==> s[j].None? by {
            forall j | 0 <= j < i + 1 ensures s[j].None? {
              if j > 0 { assert s[j] == s[1..][j - 1]; }
            }
          }
        }
      }
      r
  }

  /** The text-valued demographic cell of an event (as `str()` renders it). */
  function TextCell(e: Event, col: StaticColumn): Option<string>
    requires col != Age
  {
    match col
    case Gender => e.gender
    case Citizen => e.citizen
    case GermanSpeaking => e.german
    case Religious => e.religious
  }

  function TextCells(log: Log, t: seq<nat>, col: StaticColumn): (cells: seq<Option<string>>)
    requires ValidRows(log, t) && col != Age
    ensures |cells| == |t|
    ensures forall p :: 0 <= p < |t| ==> cells[p] == TextCell(log.events[t[p]], col)
  {
    seq(|t|, p requires 0 <= p < |t| => TextCell(log.events[t[p]], col))
  }

  function AgeCells(log: Log, t: seq<nat>): (cells: seq<Option<AgeCell>>)
    requires ValidRows(log, t)
    ensures |cells| == |t|
    ensures forall p :: 0 <= p < |t| ==> cells[p] == log.events[t[p]].age
  {
    seq(|t|, p requires 0 <= p < |t| => log.events[t[p]].age)
  }

  const TrueWords: seq<string> := ["true", "t", "1", "yes", "y"]
  const FalseWords: seq<string> := ["false", "f", "0", "no", "n"]

  /** `to_cat`: boolean-like text (any ASCII case) becomes "T" or "F"; anything else is kept. */
  function ToCat(s: string): (r: string)
    ensures r == "T" <==> Lower(s) in TrueWords
    ensures r == "F" <==> Lower(s) in FalseWords
    ensures Lower(s) !in TrueWords && Lower(s) !in FalseWords ==> r == s
  {
    if Lower(s) in TrueWords then "T"
    else if Lower(s) in FalseWords then "F"
    else
      assert s == "T" ==> Lower(s) == "t";
      assert s == "F" ==> Lower(s) == "f";
      s
  }

  /** Normalising twice changes nothing. */
  lemma ToCatIdempotent(s: string)
    ensures ToCat(ToCat(s)) == ToCat(s)
  {
    var r := ToCat(s);
    if r == "T" {
      assert Lower(r) == "t";
    } else if r == "F" {
      assert Lower(r) == "f";
    }
  }

  const AgeGroups: seq<string> := ["18-29", "30-44", "45-64", "65+"]

  /** `bin_age`. A missing age (NaN) parses as a float and fails every comparison, so it lands
      in "65+"; only text that does not parse gives "unk". */
  function BinAge(a: Option<AgeCell>): (g: string)
    ensures g == "unk" <==> a == Some(Unparseable)
    ensures a.None? ==> g == "65+"
    ensures a.Some? && a.value.Number? ==>
      var x := a.value.years;
      && g in AgeGroups
      && (g == "18-29" <==> x < 30.0)
      && (g == "30-44" <==> 30.0 <= x < 45.0)
      && (g == "45-64" <==> 45.0 <= x < 65.0)
      && (g == "65+" <==> 65.0 <= x)
  {
    match a
    case None => "65+"
    case Some(Unparseable) => "unk"
    case Some(Number(x)) =>
      if x < 30.0 then "18-29"
      else if x < 45.0 then "30-44"
      else if x < 65.0 then "45-64"
      else "65+"
  }

  function AgeRank(g: string): nat
  {
    if g == "18-29" then 0 else if g == "30-44" then 1 else if g == "45-64" then 2 else 3
  }

  /** Older never lands in a younger bucket. */
  lemma BinAgeMonotone(x: real, y: real)
    requires x <= y
    ensures AgeRank(BinAge(Some(Number(x)))) <= AgeRank(BinAge(Some(Number(y))))
  {
  }

  /** The rendered first non-missing text of a demographic column; `str(nan)` when there is none. */
  function FirstText(log: Log, c: int, col: StaticColumn): string
    requires col != Age
  {
    match FirstNonNull(TextCells(log, Trace(log, c), col))
    case None => "nan"
    case Some(v) => v
  }

  /** The audit columns, in the order of line 59. */
  const AuditColumnNames: seq<string> := ["gender_cat", "citizen_cat", "age_group", "german_speaking_cat", "religious_cat"]

  /** Audit columns in the order of line 59, each with the raw column it is derived from. */
  const SensSpec: seq<(string, StaticColumn)> := [
    ("gender_cat", Gender), ("citizen_cat", Citizen), ("age_group", Age),
    ("german_speaking_cat", GermanSpeaking), ("religious_cat", Religious)]

  /** The case-level value of one audit column. */
  function SensValue(log: Log, c: int, col: StaticColumn): string
  {
    if col == Age then BinAge(FirstNonNull(AgeCells(log, Trace(log, c))))
    else ToCat(FirstText(log, c, col))
  }

  function SensFrom(log: Log, spec: seq<(string, StaticColumn)>): (names: seq<string>)
    ensures |names| <= |spec|
    ensures forall n :: n in names <==> exists i :: 0 <= i < |spec| && spec[i].0 == n && spec[i].1 in log.statics
  {
    if |spec| == 0 then []
    else
      var rest := SensFrom(log, spec[1..]);
      assert forall i :: 1 <= i < |spec| ==> spec[i] == spec[1..][i - 1];
      if spec[0].1 in log.statics then [spec[0].0] + rest else rest
  }

  function SensValuesFrom(log: Log, c: int, spec: seq<(string, StaticColumn)>): (vals: seq<string>)
    ensures |vals| == |SensFrom(log, spec)|
  {
    if |spec| == 0 then []
    else if spec[0].1 in log.statics then [SensValue(log, c, spec[0].1)] + SensValuesFrom(log, c, spec[1..])
    else SensValuesFrom(log, c, spec[1..])
  }

  /** The names of a list of audit columns. */
  function SpecNames(spec: seq<(string, StaticColumn)>): (names: seq<string>)
    ensures |names| == |spec|
    ensures forall i :: 0 <= i < |spec| ==> names[i] == spec[i].0
  {
    seq(|spec|, i requires 0 <= i < |spec| => spec[i].0)
  }

  /** The names picked from a list whose names do not repeat keep the list's order. */
  lemma {:induction false} SensFromOrdered(log: Log, spec: seq<(string, StaticColumn)>)
    requires Distinct(SpecNames(spec))
    ensures forall q :: 0 <= q < |SensFrom(log, spec)| ==> SensFrom(log, spec)[q] in SpecNames(spec)
    ensures forall a, b :: 0 <= a < b < |SensFrom(log, spec)| ==>
      Frames.IndexOf(SpecNames(spec), SensFrom(log, spec)[a]) < Frames.IndexOf(SpecNames(spec), SensFrom(log, spec)[b])
  {
    if |spec| > 0 {
      var names := SpecNames(spec);
      var rest := SensFrom(log, spec[1..]);
      assert SpecNames(spec[1..]) == names[1..];
      Frames.DistinctTail(names);
      SensFromOrdered(log, spec[1..]);
      Frames.TailPositions(names, rest);
      forall q | 0 <= q < |rest| ensures rest[q] in names {
        assert rest[q] in names[1..];
      }
      if spec[0].1 in log.statics {
        assert SensFrom(log, spec) == [names[0]] + rest;
        Frames.OrderWithHead(names, rest);
        assert forall q :: 0 <= q < |[names[0]] + rest| ==> ([names[0]] + rest)[q] in names;
      } else {
        assert SensFrom(log, spec) == rest;
        forall a, b | 0 <= a < b < |rest|
          ensures Frames.IndexOf(names, rest[a]) < Frames.IndexOf(names, rest[b])
        {
          Frames.IndexPastHead(names, rest[a]);
          Frames.IndexPastHead(names, rest[b]);
        }
      }
    }
  }

  /** `SENS_COLS`: the audit columns whose raw column exists, in the fixed order. */
  function SensColumns(log: Log): (names: seq<string>)
    ensures "gender_cat" in names <==> Gender in log.statics
    ensures "citizen_cat" in names <==> Citizen in log.statics
    ensures "age_group" in names <==> Age in log.statics
    ensures "german_speaking_cat" in names <==> GermanSpeaking in log.statics
    ensures "religious_cat" in names <==> Religious in log.statics
    ensures forall n :: n in names ==> n in AuditColumnNames
    ensures Distinct(names)
    ensures forall a, b :: 0 <= a < b < |names| ==>
      Frames.IndexOf(AuditColumnNames, names[a]) < Frames.IndexOf(AuditColumnNames, names[b])
  {
    var names := SensFrom(log, SensSpec);
    assert SpecNames(SensSpec) == AuditColumnNames;
    SensFromOrdered(log, SensSpec);
    assert SensSpec[0].0 == "gender_cat" && SensSpec[1].0 == "citizen_cat" && SensSpec[2].0 == "age_group";
    assert SensSpec[3].0 == "german_speaking_cat" && SensSpec[4].0 == "religious_cat";
    names
  }

  /** The audit values of case `c`, aligned with `SensColumns(log)`. */
  function SensValues(log: Log, c: int): (vals: seq<string>)
    ensures |vals| == |SensColumns(log)|
  {
    SensValuesFrom(log, c, SensSpec)
  }

  /** The `i`-th value comes from the raw column behind the `i`-th name. */
  lemma {:induction false} SensValuesFromAligned(log: Log, c: int, spec: seq<(string, StaticColumn)>, i: nat)
    requires i < |SensFrom(log, spec)|
    ensures exists j :: (0 <= j < |spec| && spec[j].0 == SensFrom(log, spec)[i] && spec[j].1 in log.statics
                         && SensValuesFrom(log, c, spec)[i] == SensValue(log, c, spec[j].1))
  {
    var rest := spec[1..];
    if spec[0].1 in log.statics && i == 0 {
      assert spec[0].0 == SensFrom(log, spec)[0];
    } else {
      var i' := if spec[0].1 in log.statics then i - 1 else i;
      assert SensFrom(log, spec)[i] == SensFrom(log, rest)[i'];
      assert SensValuesFrom(log, c, spec)[i] == SensValuesFrom(log, c, rest)[i'];
      SensValuesFromAligned(log, c, rest, i');
      var j :| 0 <= j < |rest| && rest[j].0 == SensFrom(log, rest)[i'] && rest[j].1 in log.statics
        && SensValuesFrom(log, c, rest)[i'] == SensValue(log, c, rest[j].1);
      assert spec[j + 1] == rest[j];
    }
  }

  /** Each audit value of a case is its first recorded age, binned, for `age_group`, and its
      first recorded text, mapped to "T"/"F" where it reads as a boolean, for the others. */
  lemma SensValuesAligned(log: Log, c: int, i: nat)
    requires i < |SensColumns(log)|
    ensures exists j :: (0 <= j < |SensSpec| && SensSpec[j].0 == SensColumns(log)[i] && SensSpec[j].1 in log.statics
                         && SensValues(log, c)[i] == (if SensSpec[j].1 == Age then BinAge(FirstNonNull(AgeCells(log, Trace(log, c))))
                                                      else ToCat(FirstText(log, c, SensSpec[j].1))))
  {
    SensValuesFromAligned(log, c, SensSpec, i);
  }
}
