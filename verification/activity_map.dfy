/** The activity-token legend written once per log (01b_export_activity_map.py). */
module ActivityMap {
  import opened Basics
  import opened Text
  import opened Decimal
  import opened EventLog
  import opened PrefixTables

  /** One legend row: `ActTok`, `Activity`. */
  datatype LegendRow = LegendRow(token: string, activity: string)

  /** Lines 5-6: one row per distinct non-missing activity, in ascending name order,
      numbered from `A01`. */
  function Legend(log: Log): (rows: seq<LegendRow>)
    ensures |rows| == |ActivityNames(log)|
    ensures forall a :: (exists i :: 0 <= i < |rows| && rows[i].activity == a) <==> InLog(log, a)
  {
    var acts := ActivityNames(log);
    var rows := seq(|acts|, i requires 0 <= i < |acts| => LegendRow(Token(i), acts[i]));
    assert forall a :: a in acts ==> exists i :: 0 <= i < |rows| && rows[i].activity == a by {
      forall a | a in acts ensures exists i :: 0 <= i < |rows| && rows[i].activity == a {
        var i :| 0 <= i < |acts| && acts[i] == a;
        assert rows[i].activity == a;
      }
    }
    rows
  }

  /** The number of distinct non-missing activities. */
  function DistinctActivityCount(log: Log): nat
  {
    |set j | 0 <= j < |log.events| && log.events[j].activity.Some? :: log.events[j].activity.value|
  }

  /** The legend has exactly one row per distinct activity. */
  lemma LegendRowCount(log: Log)
    ensures |Legend(log)| == DistinctActivityCount(log)
  {
    var acts := ActivityNames(log);
    forall p, q | 0 <= p < q < |acts| ensures acts[p] != acts[q] {
      StrictlySortedDistinct(acts, p, q);
    }
    DistinctCard(acts);
    var s := set j | 0 <= j < |log.events| && log.events[j].activity.Some? :: log.events[j].activity.value;
    assert Elems(acts) == s by {
      forall a ensures a in Elems(acts) <==> a in s {
        if a in Elems(acts) {
          var i :| 0 <= i < |acts| && acts[i] == a;
          assert acts[i] in acts;
          var j :| 0 <= j < |log.events| && log.events[j].activity == Some(a);
        }
        if a in s {
          var j :| 0 <= j < |log.events| && log.events[j].activity.Some? && log.events[j].activity.value == a;
          assert InLog(log, a);
          var i :| 0 <= i < |acts| && acts[i] == a;
        }
      }
    }
  }

  /** Rows are in strictly ascending activity order and tokens are pairwise distinct, each
      token's number being the row's 1-based position. */
  lemma LegendOrderAndTokens(log: Log, i: nat, j: nat)
    requires i < j < |Legend(log)|
    ensures var rows := Legend(log);
      && StrLt(rows[i].activity, rows[j].activity)
      && rows[i].token != rows[j].token
      && TokenPosition(rows[i].token) == i
      && TokenPosition(rows[j].token) == j
  {
    var rows := Legend(log);
    TokenShape(i);
    TokenShape(j);
    if rows[i].token == rows[j].token {
      TokenInjective(i, j);
    }
  }

  /** The exported legend and the in-memory `act2tok` of the table builder agree on every
      activity: decoding a token through the legend gives back the activity it was made from. */
  lemma LegendAgreesWithAct2Tok(log: Log, i: nat)
    requires i < |Legend(log)|
    ensures var row := Legend(log)[i];
      && InLog(log, row.activity)
      && row.activity in Act2Tok(log)
      && Act2Tok(log)[row.activity] == row.token
  {
    var acts := ActivityNames(log);
    assert acts[i] in acts;
  }
}
