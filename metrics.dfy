/** The arithmetic-only metrics computed for each of the top tickers
    (app.py:142-175): simple returns, the latest price, the annualised alpha
    against the benchmark's mean return, the range-based maximum drawdown,
    and the x100 scaling of the alpha for the report. Prices are the
    adjusted closes of one aligned download, all positive. */
module Metrics {
  import opened Numbers

  type Price = x: real | x > 0.0 witness 1.0

  /** Trading days per year used to annualise a mean daily return. */
  const TradingDays: real := 252.0

  // ---------------------------------------------------------------- returns

  /** `pct_change()` on a price column followed by `dropna()`: the first
      observation has no predecessor and is dropped. */
  function Returns(p: seq<Price>): (r: seq<real>)
    ensures |r| == if p == [] then 0 else |p| - 1
    ensures forall i | 0 <= i < |r| :: r[i] == Change(p[i], p[i + 1])
  {
    if |p| < 2 then [] else seq(|p| - 1, i requires 0 <= i < |p| - 1 => Change(p[i], p[i + 1]))
  }

  /** The simple return from one price to the next. */
  function Change(prev: Price, next: Price): (c: real)
    ensures c > -1.0
  {
    next as real / prev as real - 1.0
  }

  /** A price moved by a rate of return. */
  function Grow(price: real, rate: real): real {
    price * (1.0 + rate)
  }

  /** Moving a price by its return gives the next price. */
  lemma ChangeCompounds(prev: Price, next: Price)
    ensures Grow(prev, Change(prev, next)) == next
  {
    var q: real := next as real / prev as real;
    assert q * prev == next;
  }

  lemma GrowCancel(a: Price, x: real, y: real)
    requires Grow(a, x) == Grow(a, y)
    ensures x == y
  {
  }

  /** The returns are exactly the rates that carry each price to the next:
      one entry per pair of neighbouring prices, and no other sequence of
      rates moves every price onto its successor. */
  lemma ReturnsCharacterised(p: seq<Price>, r: seq<real>)
    requires p != []
    ensures r == Returns(p) <==>
      |r| == |p| - 1 && forall i | 0 <= i < |r| :: Grow(p[i], r[i]) == p[i + 1]
  {
    var ret := Returns(p);
    forall i | 0 <= i < |ret| ensures Grow(p[i], ret[i]) == p[i + 1] {
      ChangeCompounds(p[i], p[i + 1]);
    }
    if |r| == |p| - 1 && forall i | 0 <= i < |r| :: Grow(p[i], r[i]) == p[i + 1] {
      forall i | 0 <= i < |r| ensures r[i] == ret[i] {
        GrowCancel(p[i], r[i], ret[i]);
      }
    }
  }

  // ------------------------------------------------------------------ means

  function Sum(s: seq<real>): real
    decreases |s|
  {
    if s == [] then 0.0 else s[0] + Sum(s[1..])
  }

  /** `Series.mean()`: NaN for an empty series. */
  function Mean(s: seq<real>): (m: Num)
    ensures m.NaN? <==> s == []
    ensures m.Real? ==> m.r == Average(s)
  {
    if s == [] then NaN else Real(Average(s))
  }

  /** The arithmetic mean of a non-empty series. */
  function Average(s: seq<real>): real
    requires s != []
  {
    Sum(s) / |s| as real
  }

  /** Every element moved down by the scalar c (a series minus a number). */
  function Minus(s: seq<real>, c: real): (d: seq<real>)
    ensures |d| == |s| && forall i | 0 <= i < |s| :: d[i] == s[i] - c
  {
    seq(|s|, i requires 0 <= i < |s| => s[i] - c)
  }

  lemma {:induction false} SumMinus(s: seq<real>, c: real)
    ensures Sum(Minus(s, c)) == Sum(s) - |s| as real * c
    decreases |s|
  {
    if s != [] {
      assert Minus(s, c)[1..] == Minus(s[1..], c);
      SumMinus(s[1..], c);
    }
  }

  /** Scales a mean daily return to a year. */
  function Annualize(m: Num): Num {
    Scale(m, TradingDays)
  }

  /** How a fraction is reported as a percentage. */
  function Percent(x: Num): (y: Num)
    ensures y.NaN? <==> x.NaN?
    ensures y.Real? ==> y.r == 100.0 * x.r
  {
    Scale(x, 100.0)
  }

  /** The annualised alpha of returns r against benchmark returns b: the
      mean of r minus the benchmark's mean return (a single number), times
      252. An empty benchmark makes every excess return NaN. */
  function AnnualizedAlpha(r: seq<real>, b: seq<real>): Num {
    match Mean(b)
    case NaN => NaN
    case Real(mb) => Annualize(Mean(Minus(r, mb)))
  }

  lemma MeanShift(total: real, n: real, c: real)
    requires n > 0.0
    ensures (total - n * c) / n == total / n - c
  {
  }

  /** Shifting every element shifts the mean by the same amount. */
  lemma AverageShift(s: seq<real>, c: real)
    requires s != []
    ensures Average(Minus(s, c)) == Average(s) - c
  {
    SumMinus(s, c);
    MeanShift(Sum(s), |s| as real, c);
  }

  /** Subtracting the benchmark's mean before averaging is the same as
      subtracting the two means: the alpha is 252 times the difference of
      the mean returns, and undefined exactly when either series is empty. */
  lemma AlphaIsMeanDifference(r: seq<real>, b: seq<real>)
    ensures AnnualizedAlpha(r, b).NaN? <==> r == [] || b == []
    ensures r != [] && b != [] ==>
      AnnualizedAlpha(r, b) == Real(TradingDays * (Average(r) - Average(b)))
  {
    if r != [] && b != [] {
      AverageShift(r, Average(b));
    }
  }

  /** A ticker that moves exactly with the benchmark has alpha 0. */
  lemma AlphaAgainstItself(r: seq<real>)
    requires r != []
    ensures AnnualizedAlpha(r, r) == Real(0.0)
  {
    AlphaIsMeanDifference(r, r);
  }

  // --------------------------------------------------------------- drawdown

  function Max(p: seq<Price>): (m: Price)
    requires p != []
    ensures m in p && forall i | 0 <= i < |p| :: p[i] <= m
    decreases |p|
  {
    if |p| == 1 then p[0]
    else
      var rest := Max(p[1..]);
      assert forall i | 1 <= i < |p| :: p[i] == p[1..][i - 1];
      if p[0] >= rest then p[0] else rest
  }

  function Min(p: seq<Price>): (m: Price)
    requires p != []
    ensures m in p && forall i | 0 <= i < |p| :: m <= p[i]
    decreases |p|
  {
    if |p| == 1 then p[0]
    else
      var rest := Min(p[1..]);
      assert forall i | 1 <= i < |p| :: p[i] == p[1..][i - 1];
      if p[0] <= rest then p[0] else rest
  }

  /** The range-based maximum drawdown, `(max - min) / max`; NaN for an
      empty column. */
  function MaximumDrawdown(p: seq<Price>): Num {
    if p == [] then NaN else Real(RangeRatio(Max(p), Min(p)))
  }

  /** How far lo lies below hi, as a fraction of hi. */
  function RangeRatio(hi: Price, lo: real): real {
    (hi - lo) / hi
  }

  lemma RatioBounds(hi: Price, lo: Price)
    requires lo <= hi
    ensures 0.0 <= RangeRatio(hi, lo) < 1.0
    ensures RangeRatio(hi, lo) == 0.0 <==> lo == hi
  {
    var q := lo / hi;
    assert q * hi == lo;
    assert 0.0 < q <= 1.0;
    assert hi / hi == 1.0;
    assert (hi - lo) / hi == hi / hi - lo / hi;
  }

  /** The drawdown lies in [0, 1) and is 0 exactly when the series is flat. */
  lemma DrawdownBounds(p: seq<Price>)
    requires p != []
    ensures var d := MaximumDrawdown(p);
      && d.Real?
      && 0.0 <= d.r < 1.0
      && (d.r == 0.0 <==> forall i, j | 0 <= i < |p| && 0 <= j < |p| :: p[i] == p[j])
  {
    var hi, lo := Max(p), Min(p);
    RatioBounds(hi, lo);
    if lo == hi {
      forall i, j | 0 <= i < |p| && 0 <= j < |p| ensures p[i] == p[j] {
        assert lo <= p[i] <= hi && lo <= p[j] <= hi;
      }
    } else {
      var i :| 0 <= i < |p| && p[i] == hi;
      var j :| 0 <= j < |p| && p[j] == lo;
      assert p[i] != p[j];
    }
  }

  lemma SameExtremes(p: seq<Price>, q: seq<Price>)
    requires p != [] && multiset(p) == multiset(q)
    ensures q != [] && Max(p) == Max(q) && Min(p) == Min(q)
  {
    assert p[0] in multiset(q);
    assert Max(p) in multiset(q) && Max(q) in multiset(p);
    assert Min(p) in multiset(q) && Min(q) in multiset(p);
  }

  /** The measure only sees which prices occur, not when: any reordering of
      the series has the same drawdown, so a fall that comes before the
      peak counts as much as one after it. */
  lemma DrawdownIgnoresOrder(p: seq<Price>, q: seq<Price>)
    requires multiset(p) == multiset(q)
    ensures MaximumDrawdown(p) == MaximumDrawdown(q)
  {
    if p != [] {
      SameExtremes(p, q);
    } else {
      assert |q| == |multiset(q)| == 0;
    }
  }

  /** Every price multiplied by k, as a change of currency would. */
  function Rescaled(p: seq<Price>, k: Price): (q: seq<Price>)
    ensures |q| == |p| && forall i | 0 <= i < |p| :: q[i] == Times(p[i], k)
  {
    seq(|p|, i requires 0 <= i < |p| => Times(p[i], k))
  }

  function Times(x: Price, k: Price): Price {
    x * k
  }

  lemma TimesMonotone(x: Price, y: Price, k: Price)
    ensures x <= y <==> Times(x, k) <= Times(y, k)
  {
  }

  lemma MaxRescale(p: seq<Price>, k: Price)
    requires p != []
    ensures Max(Rescaled(p, k)) == Times(Max(p), k)
  {
    var q := Rescaled(p, k);
    var a :| 0 <= a < |q| && q[a] == Max(q);
    var b :| 0 <= b < |p| && p[b] == Max(p);
    assert q[b] <= Max(q) && p[a] <= Max(p);
    TimesMonotone(p[a], p[b], k);
  }

  lemma MinRescale(p: seq<Price>, k: Price)
    requires p != []
    ensures Min(Rescaled(p, k)) == Times(Min(p), k)
  {
    var q := Rescaled(p, k);
    var c :| 0 <= c < |q| && q[c] == Min(q);
    var e :| 0 <= e < |p| && p[e] == Min(p);
    assert Min(q) <= q[e] && Min(p) <= p[c];
    TimesMonotone(p[e], p[c], k);
  }

  lemma RangeRatioRescale(hi: Price, lo: Price, k: Price)
    ensures RangeRatio(Times(hi, k), Times(lo, k)) == RangeRatio(hi, lo)
  {
    assert Times(hi, k) - Times(lo, k) == (hi - lo) * k;
  }

  /** Drawdown depends on the series only up to scale. */
  lemma DrawdownScaleFree(p: seq<Price>, k: Price)
    ensures MaximumDrawdown(Rescaled(p, k)) == MaximumDrawdown(p)
  {
    if p != [] {
      MaxRescale(p, k);
      MinRescale(p, k);
      RangeRatioRescale(Max(p), Min(p), k);
    }
  }

  // ----------------------------------------------------- per-ticker records

  /** The arithmetic part of one row of the metrics table. The drawdown is
      stored as a fraction; only the alpha is scaled to a percentage. */
  datatype MetricRecord = MetricRecord(
    symbol: string,
    totalValue: Price,
    annualizedAlphaPercent: Num,
    maximumDrawdown: Num)

  /** The record for one ticker with a non-empty aligned price column: its
      symbol and latest price, the alpha of its returns against the
      benchmark's as a percentage, and its drawdown as a fraction. */
  function MetricsFor(ticker: string, p: seq<Price>, benchmark: seq<Price>): (m: MetricRecord)
    requires p != []
    ensures m.symbol == ticker && m.totalValue == p[|p| - 1]
  {
    MetricRecord(ticker, p[|p| - 1],
      Percent(AnnualizedAlpha(Returns(p), Returns(benchmark))),
      MaximumDrawdown(p))
  }

  /** What the record's figures mean: the alpha is undefined exactly when
      the ticker or the benchmark has fewer than two prices, and is
      otherwise 100 * 252 times the difference of the mean returns; the
      drawdown is a fraction in [0, 1). */
  lemma MetricRecordMeaning(ticker: string, p: seq<Price>, benchmark: seq<Price>)
    requires p != []
    ensures var m := MetricsFor(ticker, p, benchmark);
      && (m.annualizedAlphaPercent.NaN? <==> |p| < 2 || |benchmark| < 2)
      && (m.annualizedAlphaPercent.Real? ==>
           m.annualizedAlphaPercent.r ==
             100.0 * (TradingDays * (Average(Returns(p)) - Average(Returns(benchmark)))))
      && m.maximumDrawdown.Real? && 0.0 <= m.maximumDrawdown.r < 1.0
  {
    AlphaIsMeanDifference(Returns(p), Returns(benchmark));
    DrawdownBounds(p);
  }

  /** `iloc[-1]` on a column with no rows. */
  datatype MetricsError = NoPriceRows(ticker: string)

  /** The metrics loop: one record per ticker, in ticker order, appended to
      the list as it goes. The download is aligned, so every column has as
      many rows as the benchmark; when it has none, the first ticker's
      latest-price lookup fails and the run stops. */
  method ComputeMetrics(tickers: seq<string>, history: map<string, seq<Price>>, benchmark: seq<Price>)
    returns (r: Result<seq<MetricRecord>, MetricsError>)
    requires forall t | t in tickers :: t in history && |history[t]| == |benchmark|
    ensures r.Err? <==> tickers != [] && benchmark == []
    ensures r.Err? ==> r.error == NoPriceRows(tickers[0])
    ensures r.Ok? ==> |r.value| == |tickers| && forall i | 0 <= i < |tickers| ::
      history[tickers[i]] != [] && r.value[i] == MetricsFor(tickers[i], history[tickers[i]], benchmark)
  {
    var metrics: seq<MetricRecord> := [];
    for i := 0 to |tickers|
      invariant |metrics| == i
      invariant i > 0 ==> benchmark != []
      invariant forall j | 0 <= j < i ::
        history[tickers[j]] != [] && metrics[j] == MetricsFor(tickers[j], history[tickers[j]], benchmark)
    {
      var prices := history[tickers[i]];
      if prices == [] {
        return Err(NoPriceRows(tickers[i]));
      }
      metrics := metrics + [MetricsFor(tickers[i], prices, benchmark)];
    }
    return Ok(metrics);
  }

  // --------------------------------------------------------------- examples

  /** The series 100, 50, 200 has drawdown (200 - 50) / 200. */
  lemma DrawdownOfDipThenPeak()
    ensures MaximumDrawdown([100.0, 50.0, 200.0]) == Real(0.75)
  {
    var p: seq<Price> := [100.0, 50.0, 200.0];
    assert p[1..] == [50.0, 200.0] && p[1..][1..] == [200.0];
  }

  /** A rising series still has a non-zero range-based drawdown. */
  lemma DrawdownOfRisingSeries()
    ensures MaximumDrawdown([100.0, 200.0]) == Real(0.5)
  {
    var p: seq<Price> := [100.0, 200.0];
    assert p[1..] == [200.0];
  }

  /** A ticker going 100 to 110 against a flat benchmark: return 10%, alpha
      0.1 * 252, reported as 2520 (percent). */
  lemma SyntheticAlpha()
    ensures var m := MetricsFor("T", [100.0, 110.0], [100.0, 100.0]);
      m.totalValue == 110.0 && m.annualizedAlphaPercent == Real(2520.0)
  {
    var p: seq<Price> := [100.0, 110.0];
    var b: seq<Price> := [100.0, 100.0];
    assert Returns(p) == [0.1];
    assert Returns(b) == [0.0];
    assert Sum([0.1]) == 0.1 && Sum([0.0]) == 0.0;
  }
}
