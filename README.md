# Stock scorer, ranker and arithmetic metrics — a Dafny model

This project models the core of the equity research report generator in
`app.py`:

- **The scorer and ranker** (`fetch_and_process_data`). It checks the weight
  dictionary, builds a `Total_Score` column and sorts the table by that
  column, highest first. It then keeps the first 100 rows.
  - A non-numeric weight stops the run.
  - The column starts at 0 and moves once per weight, using one of three
    contribution rules:
    - `Debt_to_Equity_Ratio` is *subtracted*;
    - `RSI` is bucketed to 1 / 0 / -1;
    - every other factor is added.
- **The metrics tickers**: the symbols of the first 20 selected rows.
- **The arithmetic-only metrics**, computed per ticker:
  - simple returns (`pct_change().dropna()`);
  - the latest price;
  - the annualised alpha against the benchmark's mean return;
  - the range-based maximum drawdown;
  - the ×100 scaling of the alpha for the report.

How the model represents the source:

- **Numbers.** Float cells are exact reals or NaN (`Numbers.Num`). A blank or
  unparsable cell is NaN, and NaN propagates through addition and
  multiplication, as in pandas.
  - A NaN RSI falls in the neutral bucket, because every comparison with NaN
    is false.
  - A NaN in any other weighted column makes the row's score NaN, even under
    a weight of 0.
- **Weights.** A weight is a number, a Python `bool` (which passes the
  `isinstance(..., (int, float))` check and weighs 1 or 0), or something
  non-numeric. The dictionary is a sequence of (factor, weight) pairs in
  iteration order.
- **Imperative parts.** `Ranking.ApplyWeights` updates a score array in place,
  one weight at a time, and `Ranking.SortByScore` sorts an array in place.
  `Metrics.ComputeMetrics` appends one record per ticker.
- **Specifications.** Every method is proved against specification functions:
  - `Factors.Score`, the fold of contributions over the dictionary;
  - `Ranking.Descending` plus a permutation (multiset equality);
  - `Metrics.MetricsFor`.

  Lemmas prove what those functions mean.

Where the code and a plain reading of the system's intent differ, the model
follows `app.py`:

- **Order among ties.** The sort is pandas' default, which is not stable.
  Nothing is promised about the order of equal scores.
  `Ranking.SortedScoresDetermined` proves that the score column is the same
  whatever order ties end up in.
- **A factor with no weight.** A factor missing from the weight dictionary is
  not an error. It is simply not scored.
- **An empty table.** An empty input table is not an error. It yields an
  empty ranking.
- **Missing values.** A missing value is not a neutral zero. It makes the
  score NaN, and such rows sort last.
- **Short price history.** A ticker with a short price history is not
  skipped.
  - With one price, its alpha is NaN and its drawdown is 0.
  - With no price rows at all, the latest-price lookup (`iloc[-1]`) fails and
    the whole loop stops.
- **Drawdown is a range, not peak-to-trough.** The drawdown is the range
  `(max - min) / max`, so a rising series does not have drawdown 0:
  100 then 200 gives 0.5 (`Metrics.DrawdownOfRisingSeries`). It ignores the
  order of prices altogether (`Metrics.DrawdownIgnoresOrder`).
- **Drawdown is not scaled.** The drawdown is stored as a fraction. The code
  does not multiply it by 100, although the report prints a `%` after it.
- **The shipped Debt-to-Equity weight.** That weight is -0.1. Under the
  subtraction, a higher ratio therefore raises the score
  (`Factors.ShippedDebtToEquityRaisesScore`), despite the "Deduct" comment.

## Model

| member | source | states |
|---|---|---|
| Factors.StrategyOf | app.py:36-44 | Debt_to_Equity_Ratio and only it is subtracted, RSI and only it is bucketed, every other factor is added |
| Factors.Bucket | app.py:41 | the RSI signal is 1 exactly for a defined value below 30, -1 exactly for one above 70, and 0 exactly for NaN or a value in 30..70 |
| Factors.Score | app.py:33-44 | Total_Score: 0, then each dictionary entry in turn adds its contribution; its meaning is stated by ScoreIsFactorSum (a defined score is the per-factor sum) and ScoreUndefinedIff (when it is NaN) |
| Factors.ValidateWeights | app.py:27-31 | succeeds exactly when every weight is numeric (numbers and bools), returning the weights as reals in dictionary order; otherwise fails naming the first non-numeric factor, before any score exists |
| Factors.Contribution | app.py:35-44 | the change one factor makes to Total_Score is NaN exactly when its cell is NaN and it is not RSI; otherwise it is the unit value (value, minus value, or RSI bucket) times the weight |
| Factors.RsiContribution | app.py:39-41 | RSI below 30 contributes +w, above 70 contributes -w, and exactly 0 for 30..70 (boundaries included) or NaN, whatever w |
| Factors.ScoreUndefinedIff | app.py:33-44 | Total_Score is NaN exactly when some weighted non-RSI column of the row is NaN (weight 0 included) |
| Factors.ScoreIsFactorSum | app.py:33-44 | a defined Total_Score equals the sum over the ten factors of unit value times that factor's weight, starting from 0 |
| Factors.WeightOfEntry | app.py:14-25 | in a dictionary, a factor's weight is the one stored under its key |
| Factors.SameDefinedness | app.py:33-44 | replacing a cell by one that is NaN exactly when it was leaves the score defined exactly when it was |
| Factors.ScoreChange | app.py:34-44 | changing one cell moves a defined score by the change in that factor's term only; no other factor's contribution moves |
| Factors.DebtToEquityShift | app.py:36-38 | raising Debt_to_Equity_Ratio by d moves a defined score by -(d*weight); with d > 0 and a positive weight the score strictly falls |
| Factors.LinearShift | app.py:42-44 | raising a linear factor by d moves a defined score by d*weight |
| Factors.RsiOnlyBucketMatters | app.py:39-41 | two RSI values in the same bucket give the same score, defined or not |
| Factors.RsiOversoldToOverbought | app.py:39-41 | moving RSI from below 30 to above 70 lowers a defined score by twice the RSI weight |
| Factors.ShippedDebtToEquityWeight | app.py:14-31 | the shipped dictionary passes the check and gives Debt_to_Equity_Ratio the weight -0.1 |
| Factors.ShippedDebtToEquityRaisesScore | app.py:14-38 | under the shipped weights each unit of Debt_to_Equity_Ratio raises a defined score by 0.1 |
| Ranking.ApplyWeights | app.py:33-44 | after the in-place loop every cell of the score column holds that row's Total_Score under the weights |
| Ranking.SortByScore | app.py:46-47 | the array ends up descending by score with NaN scores last, and is a permutation of its old contents |
| Ranking.FetchAndProcess | app.py:9-52 | fails exactly when a weight is non-numeric (naming the first); otherwise the sorted table is a descending permutation of the scored input rows and the top selection is its first min(100, n) rows |
| Ranking.Head | app.py:50 | `head(n)`: the first min(n, size) rows of the table, in order (also used for `head(20)` at app.py:136) |
| Ranking.TopOutranksRest | app.py:49-50 | the top selection is the first min(n, size) rows of the sorted table, and each selected row ranks at or above each row left out |
| Ranking.UndefinedScoresLast | app.py:46-47 | in the sorted table no defined score follows a NaN score |
| Ranking.SortedScoresDetermined | app.py:46-47 | any two descending arrangements of the same rows have the same score at every position, so tie order never changes the score column |
| Ranking.SortedUniqueWhenScoresDistinct | app.py:46-47 | when no two rows share a score, the sorted table is unique |
| Ranking.MetricsTickers | app.py:135-136 | the metrics tickers are the first min(20, size) symbols of the top selection, in order |
| RankingScenario.RowScore | app.py:33-44 | under weights CAGR 0.1 and Percentage_Difference 0.8 (others 0), a row that is 0 everywhere except a neutral RSI of 50 and its Percentage_Difference scores 0.8 times its Percentage_Difference |
| RankingScenario.ThreeRowScenario | app.py:33-50 | rows with Percentage_Difference 5, 1 and 9 always sort as the third, the first, then the second row |
| Metrics.Returns | app.py:142 | returns have one entry fewer than the prices (none for an empty column), entry i being the change from price i to price i+1 |
| Metrics.Change | app.py:142 | a simple return between positive prices is greater than -1 |
| Metrics.ReturnsCharacterised | app.py:141-142 | the returns are exactly the rates that carry each price to the next: moving price i by return i gives price i+1, and no other sequence of rates does |
| Metrics.AverageShift | app.py:151 | subtracting a constant from every return lowers their mean by that constant |
| Metrics.AnnualizedAlpha | app.py:151-152 | the mean of the returns minus the benchmark's mean return, times 252; its meaning is stated by AlphaIsMeanDifference |
| Metrics.AlphaIsMeanDifference | app.py:151-152 | the annualised alpha is NaN exactly when the ticker's or the benchmark's returns are empty, and otherwise equals 252 * (mean of returns - mean of benchmark returns) |
| Metrics.AlphaAgainstItself | app.py:151-152 | a ticker whose returns equal the benchmark's has alpha 0 |
| Metrics.Percent | app.py:166 | the report value is 100 times the fraction, NaN when it is NaN |
| Metrics.Max | app.py:159 | the column maximum is one of the prices and no price exceeds it |
| Metrics.Min | app.py:159 | the column minimum is one of the prices and no price is below it |
| Metrics.MaximumDrawdown | app.py:159 | `(max - min) / max` of the price column, NaN for an empty column; its meaning is stated by DrawdownBounds, DrawdownIgnoresOrder and DrawdownScaleFree |
| Metrics.DrawdownBounds | app.py:159 | for a non-empty positive series the drawdown lies in [0, 1) and is 0 exactly when all prices are equal |
| Metrics.DrawdownIgnoresOrder | app.py:159 | any reordering of the prices has the same drawdown: it is not a peak-to-trough-after-peak measure |
| Metrics.DrawdownScaleFree | app.py:159 | multiplying every price by the same positive factor leaves the drawdown unchanged |
| Metrics.DrawdownOfDipThenPeak | app.py:159 | the series 100, 50, 200 has drawdown 0.75 |
| Metrics.DrawdownOfRisingSeries | app.py:159 | the rising series 100, 200 has drawdown 0.5, not 0 |
| Metrics.MetricsFor | app.py:147-175 | the record carries the ticker's symbol and its latest price |
| Metrics.MetricRecordMeaning | app.py:147-175 | the record's alpha percentage is NaN exactly when the ticker or the benchmark has fewer than two prices, else 100 * 252 * (difference of mean returns); its drawdown is a fraction in [0, 1) |
| Metrics.SyntheticAlpha | app.py:142-166 | a ticker going 100 to 110 against a flat benchmark has latest price 110 and alpha 2520 (percent) |
| Metrics.ComputeMetrics | app.py:145-175 | fails exactly when there are tickers and the aligned download has no rows, naming the first ticker; otherwise yields one record per ticker, in order, each the ticker's MetricsFor record |

## Left out

- The Streamlit front-end and its input check (app.py:123-131, 181-183): interactive UI.
- The PDF report (app.py:56-119): layout and file output through an external library.
- The Excel read (app.py:11) and the price download (app.py:141): I/O and a network client. Their results are the inputs `rows`, `history` and `benchmark`.
- The date window (app.py:139-140): it depends on the wall clock.
- Volatility, Sharpe, tracking error, downside deviation, Sortino, Treynor, correlation and R² (app.py:150, 153-158, 160): they need square roots, standard deviations or covariances with floating-point behaviour.
- Floating point itself: reals are exact, so rounding, overflow and infinities are not modelled. NaN or infinite weights are not modelled either.
- `exit()` after the error message (app.py:30-31): it is modelled as an `Err` result, not as process termination. The printed message is not modelled.
- Text in the uncoerced `RSI` and `Debt_to_Equity_Ratio` columns (app.py:38, 41): those columns are taken to be numeric or NaN. In pandas, text there would raise instead.
- A weight dictionary naming a column the table lacks (a `KeyError` in pandas): every factor is a field of the row.
- Gaps in the downloaded prices: the series are aligned, have equal length and are positive. `dropna()` therefore only drops the first row. Non-positive prices are not modelled.
- The shape of the download when the ticker list is empty: `ComputeMetrics` then simply returns no records.
- `Ranking.SortByScore`: it is an insertion sort, not pandas' quicksort. Its contract fixes only what both guarantee (descending, NaN last, a permutation). The order of equal scores may differ from pandas'.
