/** Column-named tables as read from and written to CSV. */
module Frames {
  import opened Basics
  import opened Text
  import Decimal

  /** A cell of the prefix and audit-input tables: missing (NaN), an integer, a float, or
      text. A float cell holds a whole number: pandas reads a column of whole numbers that
      has a gap (a resource id, a 0/1 code) as floats. */
  datatype Cell = Missing | Int(i: int) | Float(whole: int) | Text(s: string)

  /** A table: column names and rows of cells aligned with them. */
  datatype Frame<C> = Frame(columns: seq<string>, rows: seq<seq<C>>)

  /** Column names are unique and every row has one cell per column. */
  predicate WellFormed<C>(f: Frame<C>)
  {
    && Distinct(f.columns)
    && forall r :: 0 <= r < |f.rows| ==> |f.rows[r]| == |f.columns|
  }

  /** Position of a column name. */
  function IndexOf(cols: seq<string>, name: string): (i: nat)
    requires name in cols
    ensures i < |cols| && cols[i] == name
    ensures forall j :: 0 <= j < i ==> cols[j] != name
  {
    if cols[0] == name then 0 else 1 + IndexOf(cols[1..], name)
  }

  /** A filtered list of a table's names keeps table order. */
  lemma {:induction false} FilterKeepsColumnOrder(cols: seq<string>, p: string -> bool)
    requires Distinct(cols)
    ensures forall a, b :: 0 <= a < b < |Filter(cols, p)| ==>
      IndexOf(cols, Filter(cols, p)[a]) < IndexOf(cols, Filter(cols, p)[b])
  {
    if |cols| > 0 {
      var tail := cols[1..];
      var rest := Filter(tail, p);
      DistinctTail(cols);
      FilterKeepsColumnOrder(tail, p);
      TailPositions(cols, rest);
      if p(cols[0]) {
        assert Filter(cols, p) == [cols[0]] + rest;
        OrderWithHead(cols, rest);
      } else {
        assert Filter(cols, p) == rest;
      }
    }
  }

  lemma DistinctTail<T>(s: seq<T>)
    requires Distinct(s) && |s| > 0
    ensures Distinct(s[1..])
  {
    forall i, j | 0 <= i < j < |s[1..]| ensures s[1..][i] != s[1..][j] {
      assert s[1..][i] == s[i + 1] && s[1..][j] == s[j + 1];
    }
  }

  /** Names drawn from the tail of a repeat-free table differ from its head. */
  lemma TailPositions(cols: seq<string>, rest: seq<string>)
    requires Distinct(cols) && |cols| > 0
    requires forall q :: 0 <= q < |rest| ==> rest[q] in cols[1..]
    ensures forall q :: 0 <= q < |rest| ==> rest[q] != cols[0]
  {
    forall q | 0 <= q < |rest| ensures rest[q] != cols[0] {
      var k :| 0 <= k < |cols[1..]| && cols[1..][k] == rest[q];
      assert cols[k + 1] == rest[q];
    }
  }

  /** A name of the tail other than the head sits one place further on in the whole table. */
  lemma IndexPastHead(cols: seq<string>, y: string)
    requires |cols| > 0 && y in cols[1..] && y != cols[0]
    ensures IndexOf(cols, y) == 1 + IndexOf(cols[1..], y)
  {
  }

  lemma OrderWithHead(cols: seq<string>, rest: seq<string>)
    requires |cols| > 0
    requires forall q :: 0 <= q < |rest| ==> rest[q] in cols[1..] && rest[q] != cols[0]
    requires forall a, b :: 0 <= a < b < |rest| ==> IndexOf(cols[1..], rest[a]) < IndexOf(cols[1..], rest[b])
    ensures forall a, b :: 0 <= a < b < |[cols[0]] + rest| ==>
      IndexOf(cols, ([cols[0]] + rest)[a]) < IndexOf(cols, ([cols[0]] + rest)[b])
  {
    var r := [cols[0]] + rest;
    forall a, b | 0 <= a < b < |r| ensures IndexOf(cols, r[a]) < IndexOf(cols, r[b]) {
      var y := rest[b - 1];
      assert r[b] == y;
      IndexPastHead(cols, y);
      if a > 0 {
        var x := rest[a - 1];
        assert r[a] == x;
        IndexPastHead(cols, x);
      }
    }
  }

  /** The positions of several present names. */
  function IndicesOf(cols: seq<string>, names: seq<string>): (ix: seq<nat>)
    requires forall m :: 0 <= m < |names| ==> names[m] in cols
    ensures |ix| == |names|
    ensures forall m :: 0 <= m < |ix| ==> ix[m] < |cols| && cols[ix[m]] == names[m]
  {
    seq(|names|, m requires 0 <= m < |names| => IndexOf(cols, names[m]))
  }

  /** The cells of one column, top to bottom (`df[name]`). */
  function ColumnValues<C>(f: Frame<C>, name: string): (vals: seq<C>)
    requires WellFormed(f) && name in f.columns
    ensures |vals| == |f.rows|
    ensures forall r :: 0 <= r < |f.rows| ==> vals[r] == f.rows[r][IndexOf(f.columns, name)]
  {
    seq(|f.rows|, r requires 0 <= r < |f.rows| => f.rows[r][IndexOf(f.columns, name)])
  }

  /** `astype(str)`: a missing cell becomes the text "nan", an integer its decimal form, and
      a whole float its decimal form followed by ".0". */
  function CellText(c: Cell): string
  {
    match c
    case Missing => "nan"
    case Int(i) => Decimal.IntToString(i)
    case Float(w) => Decimal.IntToString(w) + ".0"
    case Text(s) => s
  }

  /** `astype(int)`: an integer as it is, a float cut to its whole part; fails on a missing
      cell and on text. */
  function CellInt(c: Cell): Option<int>
  {
    match c
    case Int(i) => Some(i)
    case Float(w) => Some(w)
    case _ => None
  }

  /** `astype(int)` of a cell that converts. */
  function AsInt(c: Cell): Cell
  {
    match CellInt(c)
    case Some(i) => Int(i)
    case None => c
  }

  /** Every row holds a number in column `i` (`astype(int)` succeeds). */
  predicate IntegerColumn(f: Frame<Cell>, i: nat)
    requires WellFormed(f) && i < |f.columns|
  {
    forall r :: 0 <= r < |f.rows| ==> CellInt(f.rows[r][i]).Some?
  }

  /** A whole float and the integer of the same value convert to the same integer but are
      written differently, so no integer cell is written like a float cell. */
  lemma FloatAndIntCells(w: int, v: int)
    ensures CellInt(Float(w)) == CellInt(Int(w)) == Some(w)
    ensures AsInt(Float(w)) == Int(w)
    ensures CellText(Float(w)) != CellText(Int(v))
    ensures CellText(Float(w))[..|CellText(Float(w))| - 2] == CellText(Int(w))
  {
    var t := CellText(Float(w));
    var u := CellText(Int(v));
    assert t[|t| - 2] == '.';
    NoPointInIntText(v);
  }

  /** The decimal form of an integer holds no point. */
  lemma NoPointInIntText(v: int)
    ensures forall k :: 0 <= k < |Decimal.IntToString(v)| ==> Decimal.IntToString(v)[k] != '.'
  {
    var u := Decimal.IntToString(v);
    forall k | 0 <= k < |u| ensures u[k] != '.' {
      if v < 0 && k > 0 {
        assert u[k] == u[1..][k - 1];
      }
    }
  }
}
