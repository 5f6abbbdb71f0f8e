/**
 * `get_data_accuracy_report`: the number of rows, per column the filled and
 * missing counts with the completeness percentage, and a quality score that
 * weighs the completeness of six standard columns.
 */
module Report {
  import opened Tables

  /** The completeness entry of one column. */
  datatype ColumnStats = ColumnStats(completenessPercent: real, filled: nat, missing: nat)

  datatype AccuracyReport = AccuracyReport(totalRows: nat, completenessByColumn: map<string, ColumnStats>, dataQualityScore: real)

  /** `df[name].notna()` counted over the rows before `n`. */
  function FilledIn(t: Table, name: string, n: nat): (c: nat)
    requires WellFormed(t) && name in t.columns && n <= |t.rows|
    ensures c <= n
  {
    if n == 0 then 0 else FilledIn(t, name, n - 1) + (if At(t, n - 1, name) != Missing then 1 else 0)
  }

  /** `df[name].notna().sum()` */
  function Filled(t: Table, name: string): nat
    requires WellFormed(t) && name in t.columns
  {
    FilledIn(t, name, |t.rows|)
  }

  /** Every row before `n` is filled exactly when the count reaches `n`. */
  lemma {:induction false} FilledInAllIff(t: Table, name: string, n: nat)
    requires WellFormed(t) && name in t.columns && n <= |t.rows|
    ensures FilledIn(t, name, n) == n <==> forall i :: 0 <= i < n ==> At(t, i, name) != Missing
  {
    if n > 0 {
      FilledInAllIff(t, name, n - 1);
    }
  }

  /** No row before `n` is filled exactly when the count is zero. */
  lemma {:induction false} FilledInNoneIff(t: Table, name: string, n: nat)
    requires WellFormed(t) && name in t.columns && n <= |t.rows|
    ensures FilledIn(t, name, n) == 0 <==> forall i :: 0 <= i < n ==> At(t, i, name) == Missing
  {
    if n > 0 {
      FilledInNoneIff(t, name, n - 1);
    }
  }

  /** The entry `get_data_accuracy_report` writes for column `name`. */
  function Stats(t: Table, name: string): (s: ColumnStats)
    requires WellFormed(t) && name in t.columns
    ensures s.filled + s.missing == |t.rows|
    ensures 0.0 <= s.completenessPercent <= 100.0
    ensures |t.rows| > 0 ==> (s.completenessPercent == 100.0 <==> forall i :: 0 <= i < |t.rows| ==> At(t, i, name) != Missing)
    ensures s.completenessPercent == 0.0 <==> forall i :: 0 <= i < |t.rows| ==> At(t, i, name) == Missing
  {
    var total := |t.rows|;
    var filled := Filled(t, name);
    FilledInAllIff(t, name, total);
    FilledInNoneIff(t, name, total);
    if total > 0 then
      PercentOf(filled, total);
      ColumnStats(filled as real / total as real * 100.0, filled, total - filled)
    else ColumnStats(0.0, filled, total - filled)
  }

  /** A product with a positive factor has the sign of the other factor. */
  lemma MulSign(a: real, b: real)
    requires 0.0 < b
    ensures 0.0 < a * b <==> 0.0 < a
    ensures a * b == 0.0 <==> a == 0.0
  {
  }

  /** `x / n * 100` for `x <= n` lies in [0, 100], is 100 exactly for `x == n` and 0 exactly for `x == 0`. */
  lemma PercentOf(x: nat, n: nat)
    requires 0 < n && x <= n
    ensures 0.0 <= x as real / n as real * 100.0 <= 100.0
    ensures x as real / n as real * 100.0 == 100.0 <==> x == n
    ensures x as real / n as real * 100.0 == 0.0 <==> x == 0
  {
    var d := x as real / n as real;
    assert d * n as real == x as real;
    assert (1.0 - d) * n as real == (n - x) as real;
    MulSign(d, n as real);
    MulSign(1.0 - d, n as real);
  }

  lemma StatsUnfold(t: Table, name: string)
    requires WellFormed(t) && name in t.columns
    ensures Stats(t, name) == ColumnStats(
      if |t.rows| > 0 then Filled(t, name) as real / |t.rows| as real * 100.0 else 0.0,
      Filled(t, name), |t.rows| - Filled(t, name))
  {
  }

  /** The weights of the quality score, in the order the source lists them. */
  function Weights(): seq<(string, real)> {
    [("nama", 0.20), ("provinsi", 0.20), ("kategori", 0.15), ("rating", 0.15), ("latitude", 0.15), ("longitude", 0.15)]
  }

  /** `completeness * weight` */
  function Weighted(s: ColumnStats, weight: real): real {
    s.completenessPercent * weight
  }

  /** `quality_scores`: weight times completeness for each weighted column present, in weight order. */
  function QualityScores(byColumn: map<string, ColumnStats>, ws: seq<(string, real)>): (scores: seq<real>)
    ensures |scores| <= |ws|
  {
    if ws == [] then []
    else
      var last := ws[|ws| - 1];
      QualityScores(byColumn, ws[..|ws| - 1]) + (if last.0 in byColumn then [Weighted(byColumn[last.0], last.1)] else [])
  }

  lemma QualityScoresLast(byColumn: map<string, ColumnStats>, ws: seq<(string, real)>)
    requires ws != []
    ensures QualityScores(byColumn, ws) == QualityScores(byColumn, ws[..|ws| - 1])
      + (if ws[|ws| - 1].0 in byColumn then [Weighted(byColumn[ws[|ws| - 1].0], ws[|ws| - 1].1)] else [])
  {
  }

  function Sum(xs: seq<real>): real {
    if xs == [] then 0.0 else Sum(xs[..|xs| - 1]) + xs[|xs| - 1]
  }

  lemma SumAppend(xs: seq<real>, x: real)
    ensures Sum(xs + [x]) == Sum(xs) + x
  {
    assert (xs + [x])[..|xs|] == xs;
  }

  function WeightTotal(ws: seq<(string, real)>): real {
    if ws == [] then 0.0 else WeightTotal(ws[..|ws| - 1]) + ws[|ws| - 1].1
  }

  /** The report of a non-empty table; an empty table gives none (the source's `{}`). */
  function ReportOf(t: Table): Option<AccuracyReport>
    requires WellFormed(t)
  {
    if |t.rows| == 0 then None
    else
      var byColumn := map c | c in t.columns :: Stats(t, c);
      Some(AccuracyReport(|t.rows|, byColumn, Sum(QualityScores(byColumn, Weights()))))
  }

  /** The loop `for col in df.columns` filling `completeness_by_column`. */
  method CompletenessByColumn(t: Table) returns (byColumn: map<string, ColumnStats>)
    requires WellFormed(t)
    ensures forall c :: c in byColumn <==> c in t.columns
    ensures forall c :: c in byColumn ==> byColumn[c] == Stats(t, c)
  {
    byColumn := map[];
    for j := 0 to |t.columns|
      invariant forall c :: c in byColumn <==> c in t.columns[..j]
      invariant forall c :: c in byColumn ==> c in t.columns && byColumn[c] == Stats(t, c)
    {
      var col := t.columns[j];
      var total := |t.rows|;
      var filled := Filled(t, col);
      var completeness := if total > 0 then filled as real / total as real * 100.0 else 0.0;
      var stats := ColumnStats(completeness, filled, total - filled);
      assert stats == Stats(t, col) by { StatsUnfold(t, col); }
      byColumn := byColumn[col := stats];
      assert t.columns[..j + 1] == t.columns[..j] + [col];
    }
    assert t.columns[..|t.columns|] == t.columns;
  }

  /** The loop over `weights.items()` filling `quality_scores`. */
  method WeightedScores(byColumn: map<string, ColumnStats>, weights: seq<(string, real)>) returns (scores: seq<real>)
    ensures scores == QualityScores(byColumn, weights)
  {
    scores := [];
    for k := 0 to |weights|
      invariant scores == QualityScores(byColumn, weights[..k])
    {
      var col, weight := weights[k].0, weights[k].1;
      assert weights[..k + 1][..k] == weights[..k] && weights[..k + 1][k] == weights[k];
      QualityScoresLast(byColumn, weights[..k + 1]);
      if col in byColumn {
        scores := scores + [Weighted(byColumn[col], weight)];
      }
    }
    assert weights[..|weights|] == weights;
  }

  /** `get_data_accuracy_report` */
  method GetDataAccuracyReport(t: Table) returns (report: Option<AccuracyReport>)
    requires WellFormed(t)
    ensures report == ReportOf(t)
  {
    if |t.rows| == 0 {
      return None;
    }
    var byColumn := CompletenessByColumn(t);
    assert byColumn == map c | c in t.columns :: Stats(t, c);
    var scores := WeightedScores(byColumn, Weights());
    report := Some(AccuracyReport(|t.rows|, byColumn, Sum(scores)));
  }

  /** Every column has an entry, whose counts add up to the number of rows. */
  lemma ReportCounts(t: Table, name: string)
    requires WellFormed(t) && |t.rows| > 0
    ensures var r := ReportOf(t).value;
      (r.totalRows == |t.rows|
       && (name in r.completenessByColumn <==> name in t.columns)
       && (name in t.columns ==>
             r.completenessByColumn[name].filled + r.completenessByColumn[name].missing == r.totalRows
             && r.completenessByColumn[name].filled == Filled(t, name)))
  {
  }

  /** One weighted term lies between 0 and 100 times its weight. */
  lemma WeightedBounded(s: ColumnStats, weight: real)
    requires 0.0 <= s.completenessPercent <= 100.0 && weight >= 0.0
    ensures 0.0 <= Weighted(s, weight) <= 100.0 * weight
  {
    var p := s.completenessPercent;
    MulNonNegative(p, weight);
    MulNonNegative(100.0 - p, weight);
    assert (100.0 - p) * weight == 100.0 * weight - p * weight;
  }

  lemma MulNonNegative(a: real, b: real)
    requires 0.0 <= a && 0.0 <= b
    ensures 0.0 <= a * b
  {
  }

  /** Each weighted term lies between 0 and 100 times its weight. */
  lemma {:induction false} QualityScoresBounded(byColumn: map<string, ColumnStats>, ws: seq<(string, real)>)
    requires forall k :: 0 <= k < |ws| ==> ws[k].1 >= 0.0
    requires forall c :: c in byColumn ==> 0.0 <= byColumn[c].completenessPercent <= 100.0
    ensures 0.0 <= Sum(QualityScores(byColumn, ws)) <= 100.0 * WeightTotal(ws)
  {
    if ws != [] {
      var col, weight := ws[|ws| - 1].0, ws[|ws| - 1].1;
      var init := ws[..|ws| - 1];
      QualityScoresBounded(byColumn, init);
      QualityScoresLast(byColumn, ws);
      if col in byColumn {
        SumAppend(QualityScores(byColumn, init), Weighted(byColumn[col], weight));
        WeightedBounded(byColumn[col], weight);
      } else {
        assert QualityScores(byColumn, init) + [] == QualityScores(byColumn, init);
      }
      assert WeightTotal(ws) == WeightTotal(init) + weight;
    }
  }

  /** The weights add up to one. */
  lemma WeightsTotalOne()
    ensures WeightTotal(Weights()) == 1.0
  {
    var ws := Weights();
    assert WeightTotal(ws[..1]) == 0.20 by { assert ws[..1][..0] == []; }
    assert WeightTotal(ws[..2]) == 0.40 by { assert ws[..2][..1] == ws[..1]; }
    assert WeightTotal(ws[..3]) == 0.55 by { assert ws[..3][..2] == ws[..2]; }
    assert WeightTotal(ws[..4]) == 0.70 by { assert ws[..4][..3] == ws[..3]; }
    assert WeightTotal(ws[..5]) == 0.85 by { assert ws[..5][..4] == ws[..4]; }
    assert ws[..6][..5] == ws[..5] && ws[..6] == ws;
  }

  /** The quality score lies in [0, 100]. */
  lemma ScoreBounded(t: Table)
    requires WellFormed(t) && |t.rows| > 0
    ensures 0.0 <= ReportOf(t).value.dataQualityScore <= 100.0
  {
    var byColumn := ReportOf(t).value.completenessByColumn;
    QualityScoresBounded(byColumn, Weights());
    WeightsTotalOne();
  }

  /** Columns that are not present add nothing: without any weighted column the score is 0. */
  lemma {:induction false} QualityScoresAbsent(byColumn: map<string, ColumnStats>, ws: seq<(string, real)>)
    requires forall k :: 0 <= k < |ws| ==> ws[k].0 !in byColumn
    ensures QualityScores(byColumn, ws) == []
  {
    if ws != [] {
      QualityScoresAbsent(byColumn, ws[..|ws| - 1]);
    }
  }

  /** A weighted column that is not present adds no term: leaving it out of the weights changes nothing. */
  lemma {:induction false} QualityScoresSkipAbsent(byColumn: map<string, ColumnStats>, ws: seq<(string, real)>, k: nat)
    requires k < |ws| && ws[k].0 !in byColumn
    ensures QualityScores(byColumn, ws) == QualityScores(byColumn, ws[..k] + ws[k + 1..])
  {
    var init := ws[..|ws| - 1];
    if k == |ws| - 1 {
      assert ws[..k] + ws[k + 1..] == init;
    } else {
      QualityScoresSkipAbsent(byColumn, init, k);
      var skipped := ws[..k] + ws[k + 1..];
      assert skipped[..|skipped| - 1] == init[..k] + init[k + 1..];
      assert skipped[|skipped| - 1] == ws[|ws| - 1];
    }
  }

  lemma ScoreWithoutWeightedColumns(t: Table)
    requires WellFormed(t) && |t.rows| > 0
    requires forall k :: 0 <= k < |Weights()| ==> Weights()[k].0 !in t.columns
    ensures ReportOf(t).value.dataQualityScore == 0.0
  {
    QualityScoresAbsent(ReportOf(t).value.completenessByColumn, Weights());
  }

  /** With every weighted column present and complete, the score is 100 times the total weight. */
  lemma {:induction false} QualityScoresComplete(byColumn: map<string, ColumnStats>, ws: seq<(string, real)>)
    requires forall k :: 0 <= k < |ws| ==> ws[k].0 in byColumn && byColumn[ws[k].0].completenessPercent == 100.0
    ensures Sum(QualityScores(byColumn, ws)) == 100.0 * WeightTotal(ws)
  {
    if ws != [] {
      var col, weight := ws[|ws| - 1].0, ws[|ws| - 1].1;
      var init := ws[..|ws| - 1];
      QualityScoresComplete(byColumn, init);
      SumAppend(QualityScores(byColumn, init), 100.0 * weight);
    }
  }

  /** With all six weighted columns present and fully filled the score is 100. */
  lemma ScoreWhenComplete(t: Table)
    requires WellFormed(t) && |t.rows| > 0
    requires forall k :: 0 <= k < |Weights()| ==> Weights()[k].0 in t.columns
    requires forall k, i :: 0 <= k < |Weights()| && 0 <= i < |t.rows| ==> At(t, i, Weights()[k].0) != Missing
    ensures ReportOf(t).value.dataQualityScore == 100.0
  {
    var byColumn := ReportOf(t).value.completenessByColumn;
    var ws := Weights();
    forall k | 0 <= k < |ws|
      ensures ws[k].0 in byColumn && byColumn[ws[k].0].completenessPercent == 100.0
    {
      var s := Stats(t, ws[k].0);
    }
    QualityScoresComplete(byColumn, ws);
    WeightsTotalOne();
  }
}
