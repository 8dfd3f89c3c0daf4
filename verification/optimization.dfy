/** The modelled parts of `src/optimization.py`: the objective function of the
    genetic algorithm, the final weight normalisation, and the preparation of
    its inputs from the preprocessed table. */
module Optimization {
  import opened Wrappers
  import opened Ordering
  import opened Records
  import opened Grouping
  import opened Vectors
  import opened Analysis

  // ---------------------------------------------------------------------
  // Weights and objectives

  /** `weights /= np.sum(weights)`: each weight's share of the total. `evaluate`
      divides without a check, so a zero total is the caller's
      obligation here. */
  function Normalize(raw: seq<real>): (w: seq<real>)
    requires Sum(raw) != 0.0
    ensures SharesOf(w, raw, Sum(raw))
    ensures Sum(w) == 1.0
  {
    var s := Sum(raw);
    SumScale(1.0 / s, raw);
    Scale(1.0 / s, raw)
  }

  /** `w` holds each part of `raw` as a share of the total `s`. */
  predicate SharesOf(w: seq<real>, raw: seq<real>, s: real) {
    |w| == |raw| && forall i :: 0 <= i < |raw| ==> w[i] * s == raw[i]
  }

  lemma {:induction false} SumNonnegative(v: seq<real>)
    requires AllAtLeast(v, 0.0)
    ensures Sum(v) >= 0.0
  {
    if |v| > 0 {
      TailBounds(v, 0.0, 0.0);
      SumNonnegative(v[1..]);
    }
  }

  lemma {:induction false} ElementAtMostSum(v: seq<real>, i: nat)
    requires AllAtLeast(v, 0.0) && i < |v|
    ensures v[i] <= Sum(v)
  {
    TailBounds(v, 0.0, 0.0);
    if i == 0 {
      SumNonnegative(v[1..]);
    } else {
      ElementAtMostSum(v[1..], i - 1);
    }
  }

  /** Normalising nonnegative raw weights gives an allocation: every weight
      is a fraction between 0 and 1. */
  lemma NormalizeIsAllocation(raw: seq<real>)
    requires AllAtLeast(raw, 0.0) && Sum(raw) != 0.0
    ensures AllAtLeast(Normalize(raw), 0.0) && AllAtMost(Normalize(raw), 1.0)
  {
    var s := Sum(raw);
    SumNonnegative(raw);
    forall k | 0 <= k < |raw| ensures raw[k] <= s {
      ElementAtMostSum(raw, k);
    }
    SharesAreFractions(Normalize(raw), raw, s);
  }

  /** Shares of a positive total of nonnegative parts lie in [0, 1]. */
  lemma SharesAreFractions(w: seq<real>, raw: seq<real>, s: real)
    requires SharesOf(w, raw, s) && s > 0.0 && AllAtLeast(raw, 0.0) && AllAtMost(raw, s)
    ensures AllAtLeast(w, 0.0) && AllAtMost(w, 1.0)
  {
    forall k | 0 <= k < |w| ensures 0.0 <= w[k] <= 1.0 {
      FractionBounds(raw[k], s, w[k]);
    }
  }

  lemma FractionBounds(x: real, s: real, f: real)
    requires 0.0 <= x <= s && s > 0.0 && f * s == x
    ensures 0.0 <= f <= 1.0
  {
    if f < 0.0 {
      MulMonotone(s, f, 0.0);
    } else if f > 1.0 {
      MulMonotone(s, 1.0, f);
    }
  }

  /** Normalisation only depends on the proportions of the raw weights. */
  lemma NormalizeScale(c: real, raw: seq<real>)
    requires c != 0.0 && Sum(raw) != 0.0
    ensures Sum(Scale(c, raw)) != 0.0
    ensures Normalize(Scale(c, raw)) == Normalize(raw)
  {
    SumScale(c, raw);
    NonzeroProduct(c, Sum(raw), Sum(Scale(c, raw)));
    SharesUnique(Normalize(raw), Normalize(Scale(c, raw)), raw, c, Sum(raw), Sum(Scale(c, raw)));
  }

  /** Shares of a rescaled vector of a rescaled total are the same shares. */
  lemma SharesUnique(w: seq<real>, w': seq<real>, raw: seq<real>, c: real, s: real, t: real)
    requires c != 0.0 && s != 0.0 && t == c * s
    requires SharesOf(w, raw, s) && SharesOf(w', Scale(c, raw), t)
    ensures w' == w
  {
    forall i | 0 <= i < |raw| ensures w'[i] == w[i] {
      CancelFactor(w'[i], w[i], c, s, raw[i], t, Scale(c, raw)[i]);
    }
  }

  lemma NonzeroProduct(c: real, s: real, t: real)
    requires c != 0.0 && s != 0.0 && t == c * s
    ensures t != 0.0
  {
  }

  lemma CancelFactor(x: real, y: real, c: real, s: real, r: real, t: real, u: real)
    requires c != 0.0 && s != 0.0
    requires t == c * s && x * t == u && u == c * r && y * s == r
    ensures x == y
  {
    assert x * (c * s) == c * r;
    assert (x * s) * c == r * c;
    assert x * s == r;
    assert (x - y) * s == 0.0;
  }

  /** The three objectives: the portfolio's expected return, its variance
      (the square of the volatility `evaluate` reports) and its weighted
      health score. */
  datatype Objectives = Objectives(portReturn: real, variance: real, health: real)

  /** `evaluate`: normalises the individual's raw weights and scores them.
      With nonnegative raw weights the return and health objectives are
      convex combinations, so they stay within the assets' extremes. */
  function Evaluate(raw: seq<real>, er: seq<real>, cov: seq<seq<real>>, health: seq<real>): (o: Objectives)
    requires |er| == |raw| && |health| == |raw| && IsSquare(cov, |raw|)
    requires Sum(raw) != 0.0
    ensures |raw| > 0
    ensures AllAtLeast(raw, 0.0) ==> Min(er) <= o.portReturn <= Max(er)
    ensures AllAtLeast(raw, 0.0) ==> Min(health) <= o.health <= Max(health)
  {
    var w := Normalize(raw);
    var o := Objectives(Dot(w, er), QuadForm(w, cov), Dot(w, health));
    if AllAtLeast(raw, 0.0) then
      NormalizeIsAllocation(raw);
      DotLowerBound(w, er, Min(er));
      DotUpperBound(w, er, Max(er));
      DotLowerBound(w, health, Min(health));
      DotUpperBound(w, health, Max(health));
      o
    else
      o
  }

  /** Scaling an individual by any nonzero factor does not change its score. */
  lemma EvaluateScaleInvariant(c: real, raw: seq<real>, er: seq<real>, cov: seq<seq<real>>, health: seq<real>)
    requires |er| == |raw| && |health| == |raw| && IsSquare(cov, |raw|)
    requires Sum(raw) != 0.0 && c != 0.0
    ensures Sum(Scale(c, raw)) != 0.0
    ensures Evaluate(Scale(c, raw), er, cov, health) == Evaluate(raw, er, cov, health)
  {
    NormalizeScale(c, raw);
  }

  /** An individual holding a single asset scores that asset's expected
      return, variance and health score. */
  lemma EvaluateOneHot(i: nat, er: seq<real>, cov: seq<seq<real>>, health: seq<real>)
    requires i < |er| && |health| == |er| && IsSquare(cov, |er|)
    ensures Sum(OneHot(|er|, i)) == 1.0
    ensures Evaluate(OneHot(|er|, i), er, cov, health) == Objectives(er[i], cov[i][i], health[i])
  {
    var e := OneHot(|er|, i);
    SumOneHot(e, i);
    assert Normalize(e) == e;
    DotOneHot(e, er, i);
    DotOneHot(e, health, i);
    QuadFormOneHot(cov, e, i);
  }

  /** The weights the genetic algorithm returns: its best individual,
      normalised. */
  function FinalWeights(best: seq<real>): (w: seq<real>)
    requires Sum(best) != 0.0
    ensures |w| == |best| && Sum(w) == 1.0
    ensures SharesOf(w, best, Sum(best))
    ensures AllAtLeast(best, 0.0) ==> AllAtLeast(w, 0.0) && AllAtMost(w, 1.0)
  {
    if AllAtLeast(best, 0.0) then NormalizeIsAllocation(best); Normalize(best)
    else Normalize(best)
  }

  /** The final weights are the only weights holding each raw weight's share
      of the raw total. */
  lemma FinalWeightsUnique(best: seq<real>, w: seq<real>)
    requires Sum(best) != 0.0 && SharesOf(w, best, Sum(best))
    ensures w == FinalWeights(best)
  {
    SharesDetermined(w, FinalWeights(best), best, Sum(best));
  }

  /** The shares of the parts of a nonzero total are determined by them. */
  lemma SharesDetermined(w: seq<real>, v: seq<real>, raw: seq<real>, s: real)
    requires s != 0.0 && SharesOf(w, raw, s) && SharesOf(v, raw, s)
    ensures w == v
  {
    forall i | 0 <= i < |w| ensures w[i] == v[i] {
      SameShare(w[i], v[i], s, raw[i]);
    }
  }

  /** Two shares of the same part of a nonzero total are equal. */
  lemma SameShare(x: real, y: real, s: real, r: real)
    requires s != 0.0 && x * s == r && y * s == r
    ensures x == y
  {
    assert (x - y) * s == 0.0;
  }

  // ---------------------------------------------------------------------
  // Expected return

  /** The relative gain from the current price to the predicted one. */
  function ExpectedReturn(predicted: real, price: real): (r: real)
    requires price != 0.0
    ensures r * price == predicted - price
  {
    (predicted - price) / price
  }

  /** For a positive price the expected return is positive exactly when the
      prediction is above the price, and zero exactly when they agree. */
  lemma ExpectedReturnSign(predicted: real, price: real)
    requires price > 0.0
    ensures ExpectedReturn(predicted, price) > 0.0 <==> predicted > price
    ensures ExpectedReturn(predicted, price) == 0.0 <==> predicted == price
  {
    var r := ExpectedReturn(predicted, price);
    if r > 0.0 {
      MulMonotone(price, 0.0, r);
    } else {
      MulMonotone(price, r, 0.0);
    }
  }

  // ---------------------------------------------------------------------
  // Latest table

  /** A row of the latest table: the bank's last preprocessed row, its health
      score, the model's prediction and the expected return (None where the
      price is zero and the division has no finite value). */
  datatype LatestRow = LatestRow(
    bank: string,
    period: string,
    features: Features,
    health: nat,
    predicted: real,
    expectedReturn: Option<real>)

  function LatestBanks(rows: seq<LatestRow>): (banks: seq<string>)
    ensures |banks| == |rows|
    ensures forall i :: 0 <= i < |rows| ==> banks[i] == rows[i].bank
  {
    seq(|rows|, i requires 0 <= i < |rows| => rows[i].bank)
  }

  /** Row `k` is the last row of its bank. */
  predicate IsLastOfBank(recs: seq<Record>, k: nat) {
    k < |recs| && forall m :: k < m < |recs| ==> recs[m].bank != recs[k].bank
  }

  /** A latest-table row built from one preprocessed row: the row's own
      bank, period and ratios, its health score, the model's prediction on
      its ratios, and the relative gain of that prediction over its price. */
  function LatestRowOf(rec: Record, predict: Features -> real, t: Thresholds): (row: LatestRow)
    requires HasThresholds(t)
    ensures row.bank == rec.bank && row.period == rec.period && row.features == rec.features
    ensures row.predicted == predict(rec.features)
    ensures row.health <= 2
    ensures row.health == 2 <==> PassesRoa(rec.features, t) && PassesNpl(rec.features, t)
    ensures row.health == 0 <==> !PassesRoa(rec.features, t) && !PassesNpl(rec.features, t)
    ensures row.expectedReturn.Some? <==> rec.features.price != 0.0
    ensures row.expectedReturn.Some? ==>
      row.expectedReturn.value * rec.features.price == row.predicted - rec.features.price
  {
    var predicted := predict(rec.features);
    var price := rec.features.price;
    LatestRow(rec.bank, rec.period, rec.features, HealthScore(rec.features, t), predicted,
      if price == 0.0 then None else Some(ExpectedReturn(predicted, price)))
  }

  function LatestFor(recs: seq<Record>, b: string, predict: Features -> real, t: Thresholds): (row: LatestRow)
    requires HasThresholds(t) && b in BankColumn(recs)
    ensures exists k: nat :: IsLastOfBank(recs, k) && recs[k].bank == b && row == LatestRowOf(recs[k], predict, t)
  {
    var k := LastIndex(BankColumn(recs), b).value;
    assert IsLastOfBank(recs, k);
    LatestRowOf(recs[k], predict, t)
  }

  /** `groupby('Nama_Bank').last()` with the health score, prediction and
      expected return columns: one row per bank in ascending bank order, each
      taken from that bank's last row. */
  function LatestTable(recs: seq<Record>, predict: Features -> real, t: Thresholds): (rows: seq<LatestRow>)
    requires HasThresholds(t)
    ensures StrictlyIncreasing(LatestBanks(rows))
    ensures forall b :: b in LatestBanks(rows) <==> b in BankColumn(recs)
    ensures forall i :: 0 <= i < |rows| ==>
      rows[i].bank in BankColumn(recs) && rows[i] == LatestFor(recs, rows[i].bank, predict, t)
  {
    var banks := SortedLabels(BankColumn(recs));
    var rows := seq(|banks|, i requires 0 <= i < |banks| => LatestFor(recs, banks[i], predict, t));
    assert LatestBanks(rows) == banks;
    rows
  }

  /** `groupby(...).last()` gives each bank one row: two rows of the latest
      table with the same bank are the same row. */
  lemma LatestTableOneRowPerBank(recs: seq<Record>, predict: Features -> real, t: Thresholds, i: nat, j: nat)
    requires HasThresholds(t)
    requires var rows := LatestTable(recs, predict, t);
      i < |rows| && j < |rows| && rows[i].bank == rows[j].bank
    ensures i == j
  {
    var rows := LatestTable(recs, predict, t);
    StrictlyIncreasingDistinct(LatestBanks(rows), i, j);
  }

  /** The prediction of a latest-table row is its price grown by the
      expected return, whenever the price is nonzero. */
  lemma LatestRowColumns(rec: Record, predict: Features -> real, t: Thresholds)
    requires HasThresholds(t)
    ensures var row := LatestRowOf(rec, predict, t);
      && row.health <= 2
      && (row.health == 2 <==> PassesRoa(rec.features, t) && PassesNpl(rec.features, t))
      && (row.expectedReturn.Some? <==> rec.features.price != 0.0)
      && (row.expectedReturn.Some? ==>
            row.predicted == rec.features.price * (1.0 + row.expectedReturn.value))
  {
    var row := LatestRowOf(rec, predict, t);
    if row.expectedReturn.Some? {
      assert row.expectedReturn.value * rec.features.price == row.predicted - rec.features.price;
    }
  }

  // ---------------------------------------------------------------------
  // Historical returns pivot

  /** Row `k` has a historical return. */
  predicate HasReturn(recs: seq<Record>, k: nat) {
    k < |recs| && recs[k].histReturn.Some?
  }

  /** The periods of the rows that have a historical return. */
  function ReturnPeriods(recs: seq<Record>): (ps: seq<string>)
    ensures forall p :: p in ps <==> exists k: nat :: HasReturn(recs, k) && recs[k].period == p
  {
    if |recs| == 0 then []
    else
      var rest := ReturnPeriods(recs[1..]);
      ShiftReturnRows(recs);
      if recs[0].histReturn.Some? then [recs[0].period] + rest else rest
  }

  /** The banks of the rows that have a historical return. */
  function ReturnBanks(recs: seq<Record>): (bs: seq<string>)
    ensures forall b :: b in bs <==> exists k: nat :: HasReturn(recs, k) && recs[k].bank == b
  {
    if |recs| == 0 then []
    else
      var rest := ReturnBanks(recs[1..]);
      ShiftReturnRows(recs);
      if recs[0].histReturn.Some? then [recs[0].bank] + rest else rest
  }

  lemma ShiftReturnRows(recs: seq<Record>)
    requires |recs| > 0
    ensures forall k: nat :: HasReturn(recs[1..], k) ==> HasReturn(recs, k + 1) && recs[1..][k] == recs[k + 1]
    ensures forall k: nat :: 0 < k && HasReturn(recs, k) ==> HasReturn(recs[1..], k - 1) && recs[1..][k - 1] == recs[k]
  {
  }

  /** The historical returns of one bank in one period. */
  function Observed(recs: seq<Record>, period: string, bank: string): (xs: seq<real>)
    ensures |xs| > 0 <==> exists k: nat :: HasReturn(recs, k) && recs[k].period == period && recs[k].bank == bank
  {
    if |recs| == 0 then []
    else
      var rest := Observed(recs[1..], period, bank);
      ShiftReturnRows(recs);
      if recs[0].histReturn.Some? && recs[0].period == period && recs[0].bank == bank
      then [recs[0].histReturn.value] + rest
      else rest
  }

  /** Reading the table row by row: a row appended at the end adds its
      return to the cell of its period and bank, and nothing elsewhere. */
  lemma {:induction false} ObservedSnoc(recs: seq<Record>, r: Record, period: string, bank: string)
    ensures Observed(recs + [r], period, bank) ==
      Observed(recs, period, bank)
      + (if r.histReturn.Some? && r.period == period && r.bank == bank then [r.histReturn.value] else [])
    decreases |recs|
  {
    if |recs| == 0 {
      assert [] + [r] == [r];
      assert [r][1..] == [];
    } else {
      assert (recs + [r])[1..] == recs[1..] + [r];
      assert (recs + [r])[0] == recs[0];
      ObservedSnoc(recs[1..], r, period, bank);
    }
  }

  lemma {:induction false} SumLowerBound(v: seq<real>, lo: real)
    requires AllAtLeast(v, lo)
    ensures Sum(v) >= |v| as real * lo
  {
    if |v| > 0 {
      TailBounds(v, lo, lo);
      SumLowerBound(v[1..], lo);
      CountStep((|v| - 1) as real, lo, |v| as real);
    }
  }

  lemma {:induction false} SumUpperBound(v: seq<real>, hi: real)
    requires AllAtMost(v, hi)
    ensures Sum(v) <= |v| as real * hi
  {
    if |v| > 0 {
      TailBounds(v, hi, hi);
      SumUpperBound(v[1..], hi);
      CountStep((|v| - 1) as real, hi, |v| as real);
    }
  }

  lemma CountStep(n: real, x: real, t: real)
    requires t == n + 1.0
    ensures t * x == x + n * x
  {
  }

  /** `m` is the average of `xs`, or 0 where there are no values. */
  predicate IsMeanOrZero(m: real, xs: seq<real>) {
    (|xs| == 0 ==> m == 0.0) && (|xs| > 0 ==> m * |xs| as real == Sum(xs))
  }

  /** `aggfunc='mean'` followed by `fillna(0)`: the average of the values, or
      0 where there are none; an average lies between the extremes. */
  function Mean(xs: seq<real>): (m: real)
    ensures IsMeanOrZero(m, xs)
    ensures |xs| > 0 ==> Min(xs) <= m <= Max(xs)
  {
    if |xs| == 0 then 0.0
    else
      AverageIdentity(xs);
      AverageBounds(xs, Sum(xs) / |xs| as real);
      Sum(xs) / |xs| as real
  }

  lemma AverageIdentity(xs: seq<real>)
    requires |xs| > 0
    ensures IsMeanOrZero(Sum(xs) / |xs| as real, xs)
  {
    MeanTimesCount(Sum(xs), |xs| as real, Sum(xs) / |xs| as real);
  }

  lemma AverageBounds(xs: seq<real>, m: real)
    requires |xs| > 0 && IsMeanOrZero(m, xs)
    ensures Min(xs) <= m <= Max(xs)
  {
    MeanWithin(xs, m, Min(xs), Max(xs));
  }

  lemma MeanTimesCount(s: real, n: real, m: real)
    requires n > 0.0 && m == s / n
    ensures m * n == s
  {
  }

  /** An average lies between any lower and upper bound of the values. */
  lemma MeanWithin(xs: seq<real>, m: real, lo: real, hi: real)
    requires |xs| > 0 && m * |xs| as real == Sum(xs)
    requires AllAtLeast(xs, lo) && AllAtMost(xs, hi)
    ensures lo <= m <= hi
  {
    SumLowerBound(xs, lo);
    SumUpperBound(xs, hi);
    MeanBounds(Sum(xs), |xs| as real, m, lo, hi);
  }

  lemma MeanBounds(s: real, n: real, m: real, lo: real, hi: real)
    requires n > 0.0 && m * n == s && n * lo <= s <= n * hi
    ensures lo <= m <= hi
  {
    if m < lo {
      MulStrict(n, m, lo);
    }
    if m > hi {
      MulStrict(n, hi, m);
    }
  }

  lemma MulStrict(n: real, x: real, y: real)
    requires n > 0.0 && x < y
    ensures n * x < n * y && x * n < y * n
  {
    assert n * y - n * x == n * (y - x);
  }

  /** Mean returns by period (rows) and bank (columns). */
  datatype ReturnsTable = ReturnsTable(periods: seq<string>, banks: seq<string>, cells: seq<seq<real>>)

  /** `pivot_table(index='Periode', columns='Nama_Bank', values='Return_Historis',
      aggfunc='mean').fillna(0)`. Labels are sorted; a period or bank with no
      return at all gets no row or column; a cell is the mean of that bank's
      returns in that period, or 0 where it has none. */
  function ReturnsPivot(recs: seq<Record>): (tbl: ReturnsTable)
    ensures StrictlyIncreasing(tbl.periods) && StrictlyIncreasing(tbl.banks)
    ensures forall p :: p in tbl.periods <==> exists k: nat :: HasReturn(recs, k) && recs[k].period == p
    ensures forall b :: b in tbl.banks <==> exists k: nat :: HasReturn(recs, k) && recs[k].bank == b
    ensures |tbl.cells| == |tbl.periods|
    ensures forall i :: 0 <= i < |tbl.cells| ==> |tbl.cells[i]| == |tbl.banks|
    ensures forall i, j :: 0 <= i < |tbl.periods| && 0 <= j < |tbl.banks| ==>
      IsMeanOrZero(tbl.cells[i][j], Observed(recs, tbl.periods[i], tbl.banks[j]))
  {
    PivotOver(recs, SortedLabels(ReturnPeriods(recs)), SortedLabels(ReturnBanks(recs)))
  }

  /** The mean returns of the given periods and banks, 0 where there are none. */
  function PivotOver(recs: seq<Record>, periods: seq<string>, banks: seq<string>): (tbl: ReturnsTable)
    ensures tbl.periods == periods && tbl.banks == banks
    ensures |tbl.cells| == |periods|
    ensures forall i :: 0 <= i < |tbl.cells| ==> |tbl.cells[i]| == |banks|
    ensures forall i, j :: 0 <= i < |periods| && 0 <= j < |banks| ==>
      IsMeanOrZero(tbl.cells[i][j], Observed(recs, periods[i], banks[j]))
  {
    var cells := seq(|periods|, i requires 0 <= i < |periods| => PivotRow(recs, periods[i], banks));
    ReturnsTable(periods, banks, cells)
  }

  /** One period's row of the pivot. */
  function PivotRow(recs: seq<Record>, period: string, banks: seq<string>): (row: seq<real>)
    ensures |row| == |banks|
    ensures forall j :: 0 <= j < |banks| ==> IsMeanOrZero(row[j], Observed(recs, period, banks[j]))
  {
    seq(|banks|, j requires 0 <= j < |banks| => Mean(Observed(recs, period, banks[j])))
  }

  /** Both inputs of the optimisers. */
  datatype OptimizationData = OptimizationData(latest: seq<LatestRow>, pivot: ReturnsTable)

  /** `prepare_optimization_data`. Every bank with a return column in the pivot
      also has a row in the latest table. */
  function PrepareOptimizationData(recs: seq<Record>, predict: Features -> real, t: Thresholds): (d: OptimizationData)
    requires HasThresholds(t)
    ensures forall b :: b in d.pivot.banks ==> b in LatestBanks(d.latest)
    ensures forall b :: b in LatestBanks(d.latest) <==> b in BankColumn(recs)
    ensures d.latest == LatestTable(recs, predict, t) && d.pivot == ReturnsPivot(recs)
  {
    var d := OptimizationData(LatestTable(recs, predict, t), ReturnsPivot(recs));
    forall b | b in d.pivot.banks ensures b in BankColumn(recs) {
      var k: nat :| HasReturn(recs, k) && recs[k].bank == b;
      assert BankColumn(recs)[k] == b;
    }
    d
  }

  /** A bank none of whose rows has a historical return, such as a bank
      with a single preprocessed row, has a row in the latest table but no
      column in the returns pivot, so the expected returns and the
      covariance handed to the optimisers cover different banks. */
  lemma BankWithoutReturnsLacksColumn(recs: seq<Record>, predict: Features -> real, t: Thresholds, b: string)
    requires HasThresholds(t) && b in BankColumn(recs)
    requires forall k :: 0 <= k < |recs| && recs[k].bank == b ==> recs[k].histReturn.None?
    ensures var d := PrepareOptimizationData(recs, predict, t);
            b in LatestBanks(d.latest) && b !in d.pivot.banks
  {
    forall k: nat ensures !(HasReturn(recs, k) && recs[k].bank == b) {
    }
  }

  /** The smallest instance: one bank with one preprocessed row, whose
      return is missing as for every bank's first row. The latest table has
      a row and the pivot no column. */
  lemma OneRowBankExample(predict: Features -> real, t: Thresholds)
    requires HasThresholds(t)
    ensures var recs := [Record("A", "2020", Features(1.0, 1.0, 1.0, 1.0, 1.0), 1.0, None)];
            var d := PrepareOptimizationData(recs, predict, t);
            |d.latest| >= 1 && |d.pivot.banks| == 0
  {
    var recs := [Record("A", "2020", Features(1.0, 1.0, 1.0, 1.0, 1.0), 1.0, None)];
    var d := PrepareOptimizationData(recs, predict, t);
    assert BankColumn(recs)[0] == "A";
    BankWithoutReturnsLacksColumn(recs, predict, t, "A");
    assert forall k: nat :: !HasReturn(recs, k);
    assert forall b :: b !in d.pivot.banks;
  }

  /** `prepare_optimization_data` with the pivot's columns aligned to the
      latest table, as `reindex(columns=latest_data['Nama_Bank'],
      fill_value=0)` would give: both optimisers then see the same banks in
      the same order. A column of a bank with returns is its column in the
      unaligned pivot; a bank without returns gets a column of zeros. */
  function AlignedOptimizationData(recs: seq<Record>, predict: Features -> real, t: Thresholds): (d: OptimizationData)
    requires HasThresholds(t)
    ensures d.latest == LatestTable(recs, predict, t)
    ensures d.pivot.banks == LatestBanks(d.latest)
    ensures d.pivot.periods == ReturnsPivot(recs).periods
    ensures |d.pivot.cells| == |d.pivot.periods|
    ensures forall i :: 0 <= i < |d.pivot.cells| ==> |d.pivot.cells[i]| == |d.pivot.banks|
    ensures forall i, j :: 0 <= i < |d.pivot.periods| && 0 <= j < |d.pivot.banks| ==>
      IsMeanOrZero(d.pivot.cells[i][j], Observed(recs, d.pivot.periods[i], d.pivot.banks[j]))
    ensures forall i, j ::
      0 <= i < |d.pivot.periods| && 0 <= j < |d.pivot.banks| && d.pivot.banks[j] !in ReturnsPivot(recs).banks
      ==> d.pivot.cells[i][j] == 0.0
  {
    var latest := LatestTable(recs, predict, t);
    var pivot := PivotOver(recs, ReturnsPivot(recs).periods, LatestBanks(latest));
    forall i, j | 0 <= i < |pivot.periods| && 0 <= j < |pivot.banks| && pivot.banks[j] !in ReturnsPivot(recs).banks
      ensures pivot.cells[i][j] == 0.0
    {
      NoReturnsNoObservations(recs, pivot.periods[i], pivot.banks[j]);
    }
    OptimizationData(latest, pivot)
  }

  /** A bank without any return has no observations in any period. */
  lemma NoReturnsNoObservations(recs: seq<Record>, period: string, b: string)
    requires b !in ReturnsPivot(recs).banks
    ensures |Observed(recs, period, b)| == 0
  {
  }
}
