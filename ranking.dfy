/** The ranking half of fetch_and_process_data (app.py): the Total_Score
    column built in place, the table sorted by it in descending order, the
    top-100 universe, and the top-20 tickers handed to the metrics. */
module Ranking {
  import opened Numbers
  import opened Factors

  /** A row of the scored table: the stock and its Total_Score. */
  datatype Scored = Scored(stock: Stock, score: Num)

  /** What fetch_and_process_data returns: the top rows and the whole
      sorted table. */
  datatype Ranked = Ranked(top: seq<Scored>, sorted: seq<Scored>)

  const UniverseSize: nat := 100
  const MetricsSize: nat := 20

  /** Whether score a may stand before score b in a descending sort that
      puts NaN last. */
  predicate RanksAbove(a: Num, b: Num) {
    b.NaN? || (a.Real? && a.r >= b.r)
  }

  predicate Descending(t: seq<Scored>) {
    forall i, j | 0 <= i < j < |t| :: RanksAbove(t[i].score, t[j].score)
  }

  /** The input rows, each with its Total_Score under the weights ws. */
  function ScoredRows(rows: seq<Stock>, ws: Weights): (t: seq<Scored>)
    ensures |t| == |rows|
    ensures forall i | 0 <= i < |rows| :: t[i] == Scored(rows[i], Score(rows[i], ws))
  {
    seq(|rows|, i requires 0 <= i < |rows| => Scored(rows[i], Score(rows[i], ws)))
  }

  /** The first min(n, |t|) rows, as `DataFrame.head(n)`. */
  function Head<T>(t: seq<T>, n: nat): (h: seq<T>)
    ensures |h| == Min(n, |t|)
    ensures forall i | 0 <= i < |h| :: h[i] == t[i]
  {
    t[..Min(n, |t|)]
  }

  /** Builds the Total_Score column in place: every cell set to 0, then, one
      weight at a time, the whole column moved by that factor's
      contribution (subtracted for Debt_to_Equity_Ratio, bucketed for RSI,
      added otherwise). */
  method ApplyWeights(rows: seq<Stock>, ws: Weights, totalScore: array<Num>)
    requires totalScore.Length == |rows|
    modifies totalScore
    ensures forall i | 0 <= i < |rows| :: totalScore[i] == Score(rows[i], ws)
  {
    for i := 0 to |rows|
      invariant forall j | 0 <= j < i :: totalScore[j] == Real(0.0)
    {
      totalScore[i] := Real(0.0);
    }
    for k := 0 to |ws|
      invariant forall j | 0 <= j < |rows| :: totalScore[j] == Score(rows[j], ws[..k])
    {
      var (f, w) := ws[k];
      assert ws[..k + 1][..k] == ws[..k] && ws[..k + 1][k] == (f, w);
      for i := 0 to |rows|
        invariant forall j | 0 <= j < i :: totalScore[j] == Score(rows[j], ws[..k + 1])
        invariant forall j | i <= j < |rows| :: totalScore[j] == Score(rows[j], ws[..k])
      {
        totalScore[i] := Add(totalScore[i], Contribution(f, rows[i].Value(f), w));
      }
    }
    assert ws[..|ws|] == ws;
  }

  /** Sorts the table by Total_Score, highest first, NaN scores last. The
      order among equal scores is left open, as pandas' default sort is not
      stable. */
  method SortByScore(a: array<Scored>)
    modifies a
    ensures Descending(a[..])
    ensures multiset(a[..]) == multiset(old(a[..]))
  {
    for i := 0 to a.Length
      invariant forall k, l | 0 <= k < l < i :: RanksAbove(a[k].score, a[l].score)
      invariant multiset(a[..]) == multiset(old(a[..]))
    {
      var j := i;
      while j > 0 && !RanksAbove(a[j - 1].score, a[j].score)
        invariant 0 <= j <= i
        invariant forall k, l | 0 <= k < l <= i && k != j && l != j :: RanksAbove(a[k].score, a[l].score)
        invariant forall l | j < l <= i :: RanksAbove(a[j].score, a[l].score)
        invariant multiset(a[..]) == multiset(old(a[..]))
      {
        RanksAboveTotal(a[j - 1].score, a[j].score);
        a[j - 1], a[j] := a[j], a[j - 1];
        j := j - 1;
      }
      forall k | 0 <= k < j ensures RanksAbove(a[k].score, a[j].score) {
        RanksAboveTransitive(a[k].score, a[j - 1].score, a[j].score);
      }
    }
  }

  lemma RanksAboveTotal(x: Num, y: Num)
    ensures RanksAbove(x, y) || RanksAbove(y, x)
  {
  }

  lemma RanksAboveTransitive(x: Num, y: Num, z: Num)
    requires RanksAbove(x, y) && RanksAbove(y, z)
    ensures RanksAbove(x, z)
  {
  }

  /** The scorer and ranker: validates the weights, scores every row, sorts
      the table and keeps the first 100 rows. A non-numeric weight stops the
      run before any score is computed. */
  method FetchAndProcess(rows: seq<Stock>, table: WeightTable) returns (r: Result<Ranked, ScoreError>)
    ensures r.Err? <==> !AllNumeric(table)
    ensures r.Err? ==> exists k | 0 <= k < |table| ::
      && !IsNumeric(table[k].1)
      && r.error == NonNumericWeight(table[k].0)
      && forall j | 0 <= j < k :: IsNumeric(table[j].1)
    ensures r.Ok? ==>
      && multiset(r.value.sorted) == multiset(ScoredRows(rows, Validated(table)))
      && Descending(r.value.sorted)
      && r.value.top == Head(r.value.sorted, UniverseSize)
  {
    var checked := ValidateWeights(table);
    if checked.Err? {
      return Err(checked.error);
    }
    var ws := checked.value;
    var totalScore := new Num[|rows|];
    ApplyWeights(rows, ws, totalScore);
    var scored := new Scored[|rows|](i requires 0 <= i < |rows| reads totalScore =>
      Scored(rows[i], totalScore[i]));
    assert scored[..] == ScoredRows(rows, ws);
    SortByScore(scored);
    var sorted := scored[..];
    return Ok(Ranked(Head(sorted, UniverseSize), sorted));
  }

  /** The tickers the metrics are computed for: the symbols of the first
      20 rows of the top selection, in order. */
  function MetricsTickers(top: seq<Scored>): (tickers: seq<string>)
    ensures |tickers| == Min(MetricsSize, |top|)
    ensures forall i | 0 <= i < |tickers| :: tickers[i] == top[i].stock.symbol
  {
    var head := Head(top, MetricsSize);
    seq(|head|, i requires 0 <= i < |head| => head[i].stock.symbol)
  }

  /** Every row of the top selection ranks at or above every row left out
      of it: a selected score is at least every unselected defined score,
      and an unselected row with a defined score means every selected
      score is defined. */
  lemma TopOutranksRest(sorted: seq<Scored>, n: nat)
    requires Descending(sorted)
    ensures var top := Head(sorted, n);
      && top == sorted[..|top|]
      && |top| == Min(n, |sorted|)
      && forall i, j | 0 <= i < |top| <= j < |sorted| ::
           && RanksAbove(top[i].score, sorted[j].score)
           && (sorted[j].score.Real? ==> top[i].score.Real? && top[i].score.r >= sorted[j].score.r)
  {
  }

  /** In a descending table the rows with an undefined score come last. */
  lemma UndefinedScoresLast(t: seq<Scored>)
    requires Descending(t)
    ensures forall i, j | 0 <= i < j < |t| :: t[i].score.NaN? ==> t[j].score.NaN?
  {
  }

  /** The table without its k-th row. */
  function RemoveAt(t: seq<Scored>, k: nat): (r: seq<Scored>)
    requires k < |t|
    ensures |r| == |t| - 1
    ensures forall i | 0 <= i < |r| :: r[i] == if i < k then t[i] else t[i + 1]
    ensures multiset(r) == multiset(t) - multiset{t[k]}
  {
    assert t == t[..k] + [t[k]] + t[k + 1..];
    t[..k] + t[k + 1..]
  }

  lemma DescendingRemoveAt(t: seq<Scored>, k: nat)
    requires k < |t| && Descending(t)
    ensures Descending(RemoveAt(t, k))
  {
    var r := RemoveAt(t, k);
    forall i, j | 0 <= i < j < |r| ensures RanksAbove(r[i].score, r[j].score) {
      var i' := if i < k then i else i + 1;
      var j' := if j < k then j else j + 1;
      assert r[i] == t[i'] && r[j] == t[j'];
    }
  }

  lemma MutuallyRanked(x: Num, y: Num)
    requires RanksAbove(x, y) && RanksAbove(y, x)
    ensures x == y
  {
  }

  /** In a descending table, the rows between two rows of equal score share
      that score. */
  lemma TiedBetween(t: seq<Scored>, k: nat)
    requires Descending(t) && 0 < k < |t| && t[0].score == t[k].score
    ensures forall i | 0 <= i <= k :: t[i].score == t[0].score
  {
    forall i | 0 < i < k ensures t[i].score == t[0].score {
      assert RanksAbove(t[0].score, t[i].score);
      assert RanksAbove(t[i].score, t[k].score);
      MutuallyRanked(t[0].score, t[i].score);
    }
  }

  /** The first row of one descending arrangement sits at some position k
      of another, and every row of the other up to k has its score. */
  lemma FirstRowTied(a: seq<Scored>, b: seq<Scored>) returns (k: nat)
    requires Descending(a) && Descending(b) && multiset(a) == multiset(b) && a != []
    ensures k < |b| && b[k] == a[0]
    ensures forall i | 0 <= i <= k :: b[i].score == a[0].score
  {
    var x := a[0];
    assert x in multiset(b);
    k :| 0 <= k < |b| && b[k] == x;
    assert b[0] in multiset(a);
    var m :| 0 <= m < |a| && a[m] == b[0];
    assert RanksAbove(x.score, b[0].score) by {
      if m > 0 { assert RanksAbove(a[0].score, a[m].score); }
    }
    assert RanksAbove(b[0].score, x.score) by {
      if k > 0 { assert RanksAbove(b[0].score, b[k].score); }
    }
    MutuallyRanked(x.score, b[0].score);
    if k > 0 {
      TiedBetween(b, k);
    }
  }

  lemma DescendingTail(t: seq<Scored>)
    requires Descending(t) && t != []
    ensures Descending(t[1..])
  {
    forall i, j | 0 <= i < j < |t| - 1 ensures RanksAbove(t[1..][i].score, t[1..][j].score) {
      assert RanksAbove(t[i + 1].score, t[j + 1].score);
    }
  }

  /** The score column of the sorted table does not depend on how the sort
      breaks ties: any two descending arrangements of the same rows have
      the same score at every position. */
  lemma {:induction false} SortedScoresDetermined(a: seq<Scored>, b: seq<Scored>)
    requires Descending(a) && Descending(b) && multiset(a) == multiset(b)
    ensures |a| == |b| && forall i | 0 <= i < |a| :: a[i].score == b[i].score
    decreases |a|
  {
    if a != [] {
      var k := FirstRowTied(a, b);
      var rest := RemoveAt(b, k);
      assert multiset(a[1..]) == multiset(rest) by {
        assert a == [a[0]] + a[1..];
      }
      DescendingTail(a);
      DescendingRemoveAt(b, k);
      SortedScoresDetermined(a[1..], rest);
      forall i | 1 <= i < |b| ensures a[i].score == b[i].score {
        assert a[i] == a[1..][i - 1];
        assert a[i].score == rest[i - 1].score;
      }
    }
  }

  /** When no two rows share a score, the sorted table is unique. */
  lemma SortedUniqueWhenScoresDistinct(a: seq<Scored>, b: seq<Scored>)
    requires Descending(a) && Descending(b) && multiset(a) == multiset(b)
    requires forall i, j | 0 <= i < j < |a| :: a[i].score != a[j].score
    ensures a == b
  {
    SortedScoresDetermined(a, b);
    assert |a| == |b|;
    forall i | 0 <= i < |b| ensures b[i] == a[i] {
      assert b[i] in multiset(a);
      var j :| 0 <= j < |a| && a[j] == b[i];
      assert a[j].score == a[i].score;
    }
  }
}

module RankingScenario {
  import opened Numbers
  import opened Factors
  import opened Ranking

  /** Weights 0.1 on CAGR and 0.8 on Percentage_Difference, 0 elsewhere. */
  const ScenarioTable: WeightTable := [
    (Volatility, Number(0.0)), (Beta, Number(0.0)), (CAGR, Number(0.1)),
    (DebtToEquityRatio, Number(0.0)), (EPS, Number(0.0)), (DividendYield, Number(0.0)),
    (RSI, Number(0.0)), (MACD, Number(0.0)), (PercentageDifference, Number(0.8)),
    (CorrelationWithEvent, Number(0.0))]

  /** A row whose factors are all 0 (RSI neutral at 50) except its
      Percentage_Difference. */
  function Row(symbol: string, pd: real): Stock {
    Stock(symbol, Real(0.0), Real(0.0), Real(0.0), Real(0.0), Real(0.0),
          Real(0.0), Real(50.0), Real(0.0), Real(pd), Real(0.0))
  }

  lemma RowScore(symbol: string, pd: real)
    ensures Score(Row(symbol, pd), Validated(ScenarioTable)) == Real(0.8 * pd)
  {
    var s := Row(symbol, pd);
    var ws := Validated(ScenarioTable);
    assert ws == [(Volatility, 0.0), (Beta, 0.0), (CAGR, 0.1), (DebtToEquityRatio, 0.0),
      (EPS, 0.0), (DividendYield, 0.0), (RSI, 0.0), (MACD, 0.0), (PercentageDifference, 0.8),
      (CorrelationWithEvent, 0.0)];
    assert Score(s, ws[..1]) == Real(0.0);
    assert ws[..2][..1] == ws[..1];
    assert Score(s, ws[..2]) == Real(0.0);
    assert ws[..3][..2] == ws[..2];
    assert Score(s, ws[..3]) == Real(0.0);
    assert ws[..4][..3] == ws[..3];
    assert Score(s, ws[..4]) == Real(0.0);
    assert ws[..5][..4] == ws[..4];
    assert Score(s, ws[..5]) == Real(0.0);
    assert ws[..6][..5] == ws[..5];
    assert Score(s, ws[..6]) == Real(0.0);
    assert ws[..7][..6] == ws[..6];
    assert Score(s, ws[..7]) == Real(0.0);
    assert ws[..8][..7] == ws[..7];
    assert Score(s, ws[..8]) == Real(0.0);
    assert ws[..9][..8] == ws[..8];
    assert Score(s, ws[..9]) == Real(0.8 * pd);
    assert ws[..10] == ws && ws[..10][..9] == ws[..9];
  }

  const ScenarioRows: seq<Stock> := [Row("A", 5.0), Row("B", 1.0), Row("C", 9.0)]

  /** The scenario's rows in the order the ranking must give them. */
  const ScenarioRanking: seq<Scored> := [
    Scored(Row("C", 9.0), Real(7.2)), Scored(Row("A", 5.0), Real(4.0)),
    Scored(Row("B", 1.0), Real(0.8))]

  lemma ScenarioScores()
    ensures ScoredRows(ScenarioRows, Validated(ScenarioTable))
      == [ScenarioRanking[1], ScenarioRanking[2], ScenarioRanking[0]]
  {
    RowScore("A", 5.0);
    RowScore("B", 1.0);
    RowScore("C", 9.0);
  }

  lemma RotationSameRows(x: Scored, y: Scored, z: Scored)
    ensures multiset([x, y, z]) == multiset([y, z, x])
  {
  }

  /** Three rows with Percentage_Difference 5, 1 and 9: whatever order the
      sort leaves equal scores in, the table comes out as the third row, the
      first, then the second. */
  lemma ThreeRowScenario(sorted: seq<Scored>)
    requires multiset(sorted) == multiset(ScoredRows(ScenarioRows, Validated(ScenarioTable)))
    requires Descending(sorted)
    ensures sorted == ScenarioRanking
  {
    var e := ScenarioRanking;
    ScenarioScores();
    RotationSameRows(e[0], e[1], e[2]);
    assert [e[0], e[1], e[2]] == e;
    assert Descending(e);
    SortedUniqueWhenScoresDistinct(e, sorted);
  }
}
