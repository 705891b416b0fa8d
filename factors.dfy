/** The weighting model of the stock scorer: the ten factors, the weight
    table and its validation, the per-factor contribution rules and the
    total score of one stock (app.py, fetch_and_process_data). */
module Factors {
  import opened Numbers

  /** The ten columns of the stock-parameter sheet that carry a weight. */
  datatype Factor =
    | Volatility | Beta | CAGR | DebtToEquityRatio | EPS
    | DividendYield | RSI | MACD | PercentageDifference | CorrelationWithEvent

  /** How a factor's value turns into a change of the score. */
  datatype Strategy =
    | Linear    // score += value * weight
    | Inverted  // score -= value * weight
    | Bucketed  // score += bucket(value) * weight

  /** The contribution rule of each factor: Debt_to_Equity_Ratio is
      subtracted, RSI is bucketed, every other factor is added. */
  function StrategyOf(f: Factor): (st: Strategy)
    ensures st == Inverted <==> f == DebtToEquityRatio
    ensures st == Bucketed <==> f == RSI
    ensures st == Linear <==> f != DebtToEquityRatio && f != RSI
  {
    match f
    case DebtToEquityRatio => Inverted
    case RSI => Bucketed
    case _ => Linear
  }

  /** One row of the sheet, after the linear columns have been coerced to
      numbers (a cell that does not parse is NaN). */
  datatype Stock = Stock(
    symbol: string,
    volatility: Num, beta: Num, cagr: Num, debtToEquityRatio: Num, eps: Num,
    dividendYield: Num, rsi: Num, macd: Num, percentageDifference: Num,
    correlationWithEvent: Num)
  {
    function Value(f: Factor): Num {
      match f
      case Volatility => volatility
      case Beta => beta
      case CAGR => cagr
      case DebtToEquityRatio => debtToEquityRatio
      case EPS => eps
      case DividendYield => dividendYield
      case RSI => rsi
      case MACD => macd
      case PercentageDifference => percentageDifference
      case CorrelationWithEvent => correlationWithEvent
    }

    /** The same row with one factor's cell replaced. */
    function With(f: Factor, v: Num): (s: Stock)
      ensures s.Value(f) == v && s.symbol == symbol
      ensures forall g :: g != f ==> s.Value(g) == Value(g)
    {
      match f
      case Volatility => this.(volatility := v)
      case Beta => this.(beta := v)
      case CAGR => this.(cagr := v)
      case DebtToEquityRatio => this.(debtToEquityRatio := v)
      case EPS => this.(eps := v)
      case DividendYield => this.(dividendYield := v)
      case RSI => this.(rsi := v)
      case MACD => this.(macd := v)
      case PercentageDifference => this.(percentageDifference := v)
      case CorrelationWithEvent => this.(correlationWithEvent := v)
    }
  }

  /** A weight as written in the weight dictionary. Python's `bool` is a
      subclass of `int`, so a boolean passes the numeric check and weighs
      1 or 0. */
  datatype RawWeight = Number(x: real) | Flag(b: bool) | NonNumeric

  predicate IsNumeric(w: RawWeight) {
    !w.NonNumeric?
  }

  function AsReal(w: RawWeight): real
    requires IsNumeric(w)
  {
    match w
    case Number(x) => x
    case Flag(b) => if b then 1.0 else 0.0
  }

  /** The weight dictionary in its iteration order. */
  type WeightTable = seq<(Factor, RawWeight)>

  /** A weight dictionary whose every weight is numeric. */
  type Weights = seq<(Factor, real)>

  predicate AllNumeric(table: WeightTable) {
    forall k | 0 <= k < |table| :: IsNumeric(table[k].1)
  }

  function Validated(table: WeightTable): (ws: Weights)
    requires AllNumeric(table)
    ensures |ws| == |table|
    ensures forall k | 0 <= k < |ws| :: ws[k].0 == table[k].0 && ws[k].1 == AsReal(table[k].1)
  {
    seq(|table|, k requires 0 <= k < |table| => (table[k].0, AsReal(table[k].1)))
  }

  /** The one way the scorer stops: a weight that is not a number. */
  datatype ScoreError = NonNumericWeight(factor: Factor)

  /** The pre-flight check of the weight dictionary: the run stops at the
      first weight that is not numeric, before any score is computed. */
  method ValidateWeights(table: WeightTable) returns (r: Result<Weights, ScoreError>)
    ensures r.Ok? <==> AllNumeric(table)
    ensures r.Ok? ==> r.value == Validated(table)
    ensures r.Err? ==> exists k | 0 <= k < |table| ::
      && !IsNumeric(table[k].1)
      && r.error == NonNumericWeight(table[k].0)
      && forall j | 0 <= j < k :: IsNumeric(table[j].1)
  {
    for k := 0 to |table|
      invariant forall j | 0 <= j < k :: IsNumeric(table[j].1)
    {
      if !IsNumeric(table[k].1) {
        return Err(NonNumericWeight(table[k].0));
      }
    }
    return Ok(Validated(table));
  }

  /** The RSI signal: 1 when oversold (below 30), -1 when overbought
      (above 70), 0 otherwise. Every comparison with NaN is false, so a
      NaN RSI falls in the neutral bucket. */
  function Bucket(v: Num): (b: int)
    ensures b == 1 <==> v.Real? && v.r < 30.0
    ensures b == -1 <==> v.Real? && v.r > 70.0
    ensures b == 0 <==> v.NaN? || 30.0 <= v.r <= 70.0
  {
    if v.Real? && v.r < 30.0 then 1
    else if v.Real? && v.r > 70.0 then -1
    else 0
  }

  /** The contribution of one unit of weight, when it is defined. */
  function Unit(f: Factor, v: Num): real {
    match StrategyOf(f)
    case Linear => if v.Real? then v.r else 0.0
    case Inverted => if v.Real? then -v.r else 0.0
    case Bucketed => Bucket(v) as real
  }

  /** Whether a cell makes the contribution of its factor NaN: a NaN in a
      linear or inverted column does, whatever the weight (NaN * 0 is NaN);
      a NaN RSI does not, since it is bucketed first. */
  predicate Poisons(f: Factor, v: Num) {
    v.NaN? && StrategyOf(f) != Bucketed
  }

  /** The change one factor makes to Total_Score. */
  function Contribution(f: Factor, v: Num, w: real): (c: Num)
    ensures c.NaN? <==> Poisons(f, v)
    ensures c.Real? ==> c.r == Unit(f, v) * w
  {
    match StrategyOf(f)
    case Inverted => if v.NaN? then NaN else Real(-(v.r * w))
    case Bucketed => Real(Bucket(v) as real * w)
    case Linear => Scale(v, w)
  }

  /** Total_Score of one stock: 0, then each entry of the weight table in
      turn adds its contribution. */
  function Score(s: Stock, ws: Weights): Num
    decreases |ws|
  {
    if ws == [] then Real(0.0)
    else
      var (f, w) := ws[|ws| - 1];
      Add(Score(s, ws[..|ws| - 1]), Contribution(f, s.Value(f), w))
  }

  /** The weight a factor carries in the table (0 when it has no entry). */
  function WeightOf(ws: Weights, f: Factor): real
    decreases |ws|
  {
    if ws == [] then 0.0
    else
      var (g, w) := ws[|ws| - 1];
      WeightOf(ws[..|ws| - 1], f) + (if g == f then w else 0.0)
  }

  /** A dictionary has no key twice. */
  predicate DistinctKeys(ws: Weights) {
    forall i, j | 0 <= i < j < |ws| :: ws[i].0 != ws[j].0
  }

  lemma {:induction false} WeightOfAbsent(ws: Weights, f: Factor)
    requires forall k | 0 <= k < |ws| :: ws[k].0 != f
    ensures WeightOf(ws, f) == 0.0
    decreases |ws|
  {
    if ws != [] {
      WeightOfAbsent(ws[..|ws| - 1], f);
    }
  }

  /** In a dictionary, the weight of a factor is the one of its entry. */
  lemma {:induction false} WeightOfEntry(ws: Weights, k: nat)
    requires DistinctKeys(ws) && k < |ws|
    ensures WeightOf(ws, ws[k].0) == ws[k].1
    decreases |ws|
  {
    var init := ws[..|ws| - 1];
    if k == |ws| - 1 {
      WeightOfAbsent(init, ws[k].0);
    } else {
      WeightOfEntry(init, k);
    }
  }

  function Term(s: Stock, ws: Weights, f: Factor): real {
    Unit(f, s.Value(f)) * WeightOf(ws, f)
  }

  /** Every factor, once each, in the order of the shipped dictionary. */
  const AllFactors: seq<Factor> := [
    Volatility, Beta, CAGR, DebtToEquityRatio, EPS,
    DividendYield, RSI, MACD, PercentageDifference, CorrelationWithEvent]

  predicate Distinct<T(==)>(xs: seq<T>) {
    forall i, j | 0 <= i < j < |xs| :: xs[i] != xs[j]
  }

  /** The sum of the terms of the factors fs. */
  function TermsOver(s: Stock, ws: Weights, fs: seq<Factor>): real
    decreases |fs|
  {
    if fs == [] then 0.0 else Term(s, ws, fs[0]) + TermsOver(s, ws, fs[1..])
  }

  /** The score as the sum over the ten factors of unit contribution times
      weight. */
  function FactorSum(s: Stock, ws: Weights): real {
    TermsOver(s, ws, AllFactors)
  }

  /** Total_Score is NaN exactly when some weighted linear or inverted
      column of the row is NaN. */
  lemma {:induction false} ScoreUndefinedIff(s: Stock, ws: Weights)
    ensures Score(s, ws).NaN? <==>
      exists k | 0 <= k < |ws| :: Poisons(ws[k].0, s.Value(ws[k].0))
    decreases |ws|
  {
    if ws != [] {
      var init := ws[..|ws| - 1];
      ScoreUndefinedIff(s, init);
      var last := |ws| - 1;
      assert forall k | 0 <= k < |init| :: init[k] == ws[k];
      if Score(s, ws).NaN? && !Score(s, init).NaN? {
        assert Poisons(ws[last].0, s.Value(ws[last].0));
      }
    }
  }

  lemma TermStep(s: Stock, ws: Weights, g: Factor)
    requires ws != []
    ensures Term(s, ws, g) == Term(s, ws[..|ws| - 1], g)
      + (if ws[|ws| - 1].0 == g then Unit(g, s.Value(g)) * ws[|ws| - 1].1 else 0.0)
  {
    var init := ws[..|ws| - 1];
    var u := Unit(g, s.Value(g));
    var d := if ws[|ws| - 1].0 == g then ws[|ws| - 1].1 else 0.0;
    assert WeightOf(ws, g) == WeightOf(init, g) + d;
    Distribute(u, WeightOf(init, g), d);
  }

  lemma Distribute(u: real, a: real, d: real)
    ensures u * (a + d) == u * a + u * d
  {
  }

  lemma {:induction false} TermsOverStep(s: Stock, ws: Weights, fs: seq<Factor>)
    requires ws != [] && Distinct(fs)
    ensures var (f, w) := ws[|ws| - 1];
      TermsOver(s, ws, fs) == TermsOver(s, ws[..|ws| - 1], fs)
        + (if f in fs then Unit(f, s.Value(f)) * w else 0.0)
    decreases |fs|
  {
    if fs != [] {
      assert Distinct(fs[1..]) by {
        forall i, j | 0 <= i < j < |fs[1..]| ensures fs[1..][i] != fs[1..][j] {
          assert fs[1..][i] == fs[i + 1] && fs[1..][j] == fs[j + 1];
        }
      }
      TermsOverStep(s, ws, fs[1..]);
      TermStep(s, ws, fs[0]);
      var f := ws[|ws| - 1].0;
      assert f in fs <==> f == fs[0] || f in fs[1..];
      assert f == fs[0] ==> f !in fs[1..];
    }
  }

  lemma {:induction false} NoWeightsNoTerms(s: Stock, fs: seq<Factor>)
    ensures TermsOver(s, [], fs) == 0.0
    decreases |fs|
  {
    if fs != [] {
      NoWeightsNoTerms(s, fs[1..]);
    }
  }

  lemma AllFactorsDistinct()
    ensures Distinct(AllFactors) && forall f: Factor :: f in AllFactors
  {
    forall f: Factor ensures f in AllFactors {
      var i := match f
        case Volatility => 0 case Beta => 1 case CAGR => 2 case DebtToEquityRatio => 3
        case EPS => 4 case DividendYield => 5 case RSI => 6 case MACD => 7
        case PercentageDifference => 8 case CorrelationWithEvent => 9;
      assert AllFactors[i] == f;
    }
  }

  /** When it is defined, Total_Score is exactly the sum over the ten
      factors of (value, negated value or RSI bucket) times the factor's
      weight. */
  lemma {:induction false} ScoreIsFactorSum(s: Stock, ws: Weights)
    requires Score(s, ws).Real?
    ensures Score(s, ws).r == FactorSum(s, ws)
    decreases |ws|
  {
    if ws == [] {
      NoWeightsNoTerms(s, AllFactors);
    } else {
      var init := ws[..|ws| - 1];
      var (f, w) := ws[|ws| - 1];
      var c := Contribution(f, s.Value(f), w);
      assert Score(s, ws) == Add(Score(s, init), c);
      ScoreIsFactorSum(s, init);
      AllFactorsDistinct();
      TermsOverStep(s, ws, AllFactors);
      assert c.r == Unit(f, s.Value(f)) * w;
    }
  }

  /** A row with another cell changed has the same term for g. */
  lemma TermUnchanged(s: Stock, f: Factor, v: Num, ws: Weights, g: Factor)
    requires g != f
    ensures Term(s.With(f, v), ws, g) == Term(s, ws, g)
  {
    assert s.With(f, v).Value(g) == s.Value(g);
  }

  /** Terms of two rows that differ only in the cell of f differ only in
      the term of f. */
  lemma {:induction false} TermsOverChange(s: Stock, f: Factor, v: Num, ws: Weights, fs: seq<Factor>)
    requires Distinct(fs)
    ensures TermsOver(s.With(f, v), ws, fs) - TermsOver(s, ws, fs)
      == if f in fs then Term(s.With(f, v), ws, f) - Term(s, ws, f) else 0.0
    decreases |fs|
  {
    if fs != [] {
      var t, g, rest := s.With(f, v), fs[0], fs[1..];
      assert Distinct(rest) by {
        forall i, j | 0 <= i < j < |rest| ensures rest[i] != rest[j] {
          assert rest[i] == fs[i + 1] && rest[j] == fs[j + 1];
        }
      }
      TermsOverChange(s, f, v, ws, rest);
      assert f in fs <==> f == g || f in rest;
      if g == f {
        assert f !in rest;
      } else {
        TermUnchanged(s, f, v, ws, g);
      }
    }
  }

  /** Changing one cell of a row, with both scores defined, moves the score
      by the change of that factor's term, and by nothing else. */
  lemma ScoreChange(s: Stock, f: Factor, v: Num, ws: Weights)
    requires Score(s, ws).Real? && Score(s.With(f, v), ws).Real?
    ensures Score(s.With(f, v), ws).r - Score(s, ws).r == Term(s.With(f, v), ws, f) - Term(s, ws, f)
  {
    ScoreIsFactorSum(s, ws);
    ScoreIsFactorSum(s.With(f, v), ws);
    AllFactorsDistinct();
    TermsOverChange(s, f, v, ws, AllFactors);
  }

  /** The term of a linear factor is its value times its weight. */
  lemma LinearTerm(s: Stock, ws: Weights, f: Factor, y: real)
    requires StrategyOf(f) == Linear && s.Value(f) == Real(y)
    ensures Term(s, ws, f) == y * WeightOf(ws, f)
  {
  }

  lemma LinearTermShift(s: Stock, ws: Weights, f: Factor, d: real)
    requires StrategyOf(f) == Linear && s.Value(f).Real?
    ensures Term(s.With(f, Real(s.Value(f).r + d)), ws, f) - Term(s, ws, f) == d * WeightOf(ws, f)
  {
    var x := s.Value(f).r;
    LinearTerm(s.With(f, Real(x + d)), ws, f, x + d);
    LinearTerm(s, ws, f, x);
    ShiftedProduct(x, d, WeightOf(ws, f));
  }

  /** The term of Debt_to_Equity_Ratio is minus its value times its weight. */
  lemma InvertedTerm(s: Stock, ws: Weights, y: real)
    requires s.debtToEquityRatio == Real(y)
    ensures Term(s, ws, DebtToEquityRatio) == -(y * WeightOf(ws, DebtToEquityRatio))
  {
  }

  /** The term of RSI is its bucket times its weight. */
  lemma BucketedTerm(s: Stock, ws: Weights)
    ensures Term(s, ws, RSI) == Bucket(s.rsi) as real * WeightOf(ws, RSI)
  {
  }

  /** Replacing a cell by another one that is NaN exactly when it is, leaves
      the score defined exactly when it was. */
  lemma {:induction false} SameDefinedness(s: Stock, f: Factor, v: Num, ws: Weights)
    requires v.NaN? == s.Value(f).NaN?
    ensures Score(s.With(f, v), ws).NaN? == Score(s, ws).NaN?
  {
    var t := s.With(f, v);
    ScoreUndefinedIff(s, ws);
    ScoreUndefinedIff(t, ws);
    assert forall k | 0 <= k < |ws| :: Poisons(ws[k].0, t.Value(ws[k].0)) == Poisons(ws[k].0, s.Value(ws[k].0));
  }

  /** Debt_to_Equity_Ratio is subtracted: raising it by d moves a defined
      score by -(d * weight); so with a positive weight it strictly lowers
      the score. */
  lemma DebtToEquityShift(s: Stock, ws: Weights, d: real)
    requires s.debtToEquityRatio.Real? && Score(s, ws).Real?
    ensures var t := s.With(DebtToEquityRatio, Real(s.debtToEquityRatio.r + d));
      && Score(t, ws).Real?
      && Score(t, ws).r == Score(s, ws).r - d * WeightOf(ws, DebtToEquityRatio)
      && (d > 0.0 && WeightOf(ws, DebtToEquityRatio) > 0.0 ==> Score(t, ws).r < Score(s, ws).r)
  {
    var x := s.debtToEquityRatio.r;
    var v := Real(x + d);
    var W := WeightOf(ws, DebtToEquityRatio);
    var t := s.With(DebtToEquityRatio, v);
    SameDefinedness(s, DebtToEquityRatio, v, ws);
    var before, after := Term(s, ws, DebtToEquityRatio), Term(t, ws, DebtToEquityRatio);
    assert Score(t, ws).r - Score(s, ws).r == after - before by {
      ScoreChange(s, DebtToEquityRatio, v, ws);
    }
    assert after - before == -(d * W) by {
      InvertedTermShift(s, ws, d);
    }
    ProductSigns(d, W);
  }

  lemma InvertedTermShift(s: Stock, ws: Weights, d: real)
    requires s.debtToEquityRatio.Real?
    ensures var x := s.debtToEquityRatio.r;
      Term(s.With(DebtToEquityRatio, Real(x + d)), ws, DebtToEquityRatio) - Term(s, ws, DebtToEquityRatio)
        == -(d * WeightOf(ws, DebtToEquityRatio))
  {
    var x := s.debtToEquityRatio.r;
    var W := WeightOf(ws, DebtToEquityRatio);
    var t := s.With(DebtToEquityRatio, Real(x + d));
    InvertedTerm(t, ws, x + d);
    InvertedTerm(s, ws, x);
    NegatedShift(Term(t, ws, DebtToEquityRatio), Term(s, ws, DebtToEquityRatio), x, d, W);
  }

  lemma NegatedShift(after: real, before: real, x: real, d: real, w: real)
    requires after == -((x + d) * w) && before == -(x * w)
    ensures after - before == -(d * w)
  {
    ShiftedProduct(x, d, w);
  }

  lemma ShiftedProduct(x: real, d: real, w: real)
    ensures (x + d) * w - x * w == d * w
  {
  }

  lemma ProductSigns(d: real, w: real)
    ensures d > 0.0 && w > 0.0 ==> d * w > 0.0
  {
  }

  /** A linear factor is added: raising it by d moves a defined score by
      d * weight. */
  lemma LinearShift(s: Stock, f: Factor, ws: Weights, d: real)
    requires StrategyOf(f) == Linear
    requires s.Value(f).Real? && Score(s, ws).Real?
    ensures var t := s.With(f, Real(s.Value(f).r + d));
      && Score(t, ws).Real?
      && Score(t, ws).r == Score(s, ws).r + d * WeightOf(ws, f)
  {
    var x := s.Value(f).r;
    var v := Real(x + d);
    var W := WeightOf(ws, f);
    var t := s.With(f, v);
    SameDefinedness(s, f, v, ws);
    var before, after := Term(s, ws, f), Term(t, ws, f);
    assert Score(t, ws).r - Score(s, ws).r == after - before by {
      ScoreChange(s, f, v, ws);
    }
    LinearTermShift(s, ws, f, d);
  }

  /** RSI matters only through its bucket: two RSI values in the same
      bucket (both below 30, both above 70, or both in [30, 70] or NaN)
      give the same score, whatever the weights. */
  lemma {:induction false} RsiOnlyBucketMatters(s: Stock, v: Num, ws: Weights)
    requires Bucket(v) == Bucket(s.rsi)
    ensures Score(s.With(RSI, v), ws) == Score(s, ws)
  {
    var t := s.With(RSI, v);
    ScoreUndefinedIff(s, ws);
    ScoreUndefinedIff(t, ws);
    assert forall k | 0 <= k < |ws| :: Poisons(ws[k].0, t.Value(ws[k].0)) == Poisons(ws[k].0, s.Value(ws[k].0));
    if Score(s, ws).Real? {
      ScoreChange(s, RSI, v, ws);
      BucketedTerm(t, ws);
      BucketedTerm(s, ws);
    }
  }

  /** The RSI contribution is the weight when RSI is below 30, minus the
      weight above 70, and exactly 0 in between, at the boundaries 30 and
      70 themselves and for a NaN cell, whatever the weight. */
  lemma RsiContribution(v: Num, w: real)
    ensures v.Real? && v.r < 30.0 ==> Contribution(RSI, v, w) == Real(w)
    ensures v.Real? && v.r > 70.0 ==> Contribution(RSI, v, w) == Real(-w)
    ensures (v.NaN? || 30.0 <= v.r <= 70.0) ==> Contribution(RSI, v, w) == Real(0.0)
  {
  }

  /** Moving RSI from oversold (below 30) to overbought (above 70) lowers
      a defined score by twice the RSI weight. */
  lemma {:induction false} RsiOversoldToOverbought(s: Stock, v: real, ws: Weights)
    requires s.rsi.Real? && s.rsi.r < 30.0 && v > 70.0
    requires Score(s, ws).Real?
    ensures Score(s.With(RSI, Real(v)), ws).Real?
    ensures Score(s.With(RSI, Real(v)), ws).r == Score(s, ws).r - 2.0 * WeightOf(ws, RSI)
  {
    SameDefinedness(s, RSI, Real(v), ws);
    ScoreChange(s, RSI, Real(v), ws);
    BucketedTerm(s.With(RSI, Real(v)), ws);
    BucketedTerm(s, ws);
  }

  /** The weight dictionary the application ships with. */
  const ShippedTable: WeightTable := [
    (Volatility, Number(0.1)), (Beta, Number(0.0)), (CAGR, Number(0.1)),
    (DebtToEquityRatio, Number(-0.1)), (EPS, Number(0.0)), (DividendYield, Number(0.1)),
    (RSI, Number(0.0)), (MACD, Number(0.0)), (PercentageDifference, Number(0.8)),
    (CorrelationWithEvent, Number(0.0))]

  /** The shipped dictionary passes validation, and its Debt_to_Equity_Ratio
      weight is -0.1: under the subtraction each unit of the ratio RAISES a
      defined score by 0.1, although the comment beside it says "Deduct". */
  lemma ShippedDebtToEquityRaisesScore(s: Stock, d: real)
    requires s.debtToEquityRatio.Real?
    requires Score(s, Validated(ShippedTable)).Real?
    ensures var ws := Validated(ShippedTable);
      var t := s.With(DebtToEquityRatio, Real(s.debtToEquityRatio.r + d));
      Score(t, ws).Real? && Score(t, ws).r == Score(s, ws).r + d / 10.0
  {
    var ws := Validated(ShippedTable);
    ShippedDebtToEquityWeight();
    DebtToEquityShift(s, ws, d);
  }

  lemma ShippedDebtToEquityWeight()
    ensures AllNumeric(ShippedTable)
    ensures WeightOf(Validated(ShippedTable), DebtToEquityRatio) == -0.1
  {
    var ws := Validated(ShippedTable);
    assert ws[3] == (DebtToEquityRatio, -0.1);
    assert DistinctKeys(ws);
    WeightOfEntry(ws, 3);
  }
}
