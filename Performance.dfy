/**
 * `calculate_performance`: the metrics report computed from the per-trade
 * fractional returns and, optionally, the per-trade currency profits.
 */
module Performance {
  import opened Wrappers
  import opened SeriesOps

  /** A ratio metric: a finite value, or the `float('inf')` sentinel. */
  datatype Ratio = Finite(value: real) | PosInf

  /** `252 / len(returns)` raises ZeroDivisionError on an empty list. */
  datatype PerfError = EmptyReturns

  /** The returned dictionary, without annualized return, volatility and Sharpe ratio. */
  datatype Report = Report(
    cumulativeReturn: real,
    winRate: real,
    expectedValue: real,
    expectedValueAmt: Option<real>,
    avgWin: real,
    avgLoss: real,
    avgWinAmt: Option<real>,
    avgLossAmt: Option<real>,
    numTrades: nat,
    maxDrawdown: Option<real>,
    profitFactor: Ratio,
    payoffRatio: Ratio,
    riskRewardRatio: Ratio,
    maxWinStreak: nat,
    maxLossStreak: nat)

  function Abs(x: real): real
  {
    if x < 0.0 then -x else x
  }

  // ---------------------------------------------------------------------------
  // Return-based figures
  // ---------------------------------------------------------------------------

  /** `(1 + returns).prod() - 1`: the compounded return of all trades. */
  function CumulativeReturn(rets: seq<real>): (c: real)
    ensures (forall k :: 0 <= k < |rets| ==> rets[k] > -1.0) ==> c > -1.0
    ensures (forall k :: 0 <= k < |rets| ==> rets[k] >= 0.0) ==> c >= 0.0
  {
    GrowthProduct(rets) - 1.0
  }

  /** The cumulative return is where the equity curve ends, less the starting 1. */
  lemma CumulativeReturnIsFinalEquity(rets: seq<real>)
    requires |rets| > 0
    ensures CumulativeReturn(rets) == Last(Equity(rets)) - 1.0
  {
    assert rets[..|rets|] == rets;
  }

  /** Compounding: the cumulative return of two stretches of trades combines multiplicatively. */
  lemma CumulativeReturnCompounds(a: seq<real>, b: seq<real>)
    ensures 1.0 + CumulativeReturn(a + b) == (1.0 + CumulativeReturn(a)) * (1.0 + CumulativeReturn(b))
  {
    GrowthProductAppend(a, b);
  }

  /** `len(wins) / num_trades if num_trades > 0 else 0`. */
  function WinRate(rets: seq<real>): (w: real)
    ensures 0.0 <= w <= 1.0
    ensures |rets| > 0 ==> w * |rets| as real == |Select(rets, Win)| as real
    ensures w == 0.0 <==> forall k :: 0 <= k < |rets| ==> rets[k] <= 0.0
    ensures |rets| > 0 ==> (w == 1.0 <==> forall k :: 0 <= k < |rets| ==> rets[k] > 0.0)
  {
    var n := |rets|;
    var wins := |Select(rets, Win)|;
    SelectEmpty(rets, Win);
    SelectAll(rets, Win);
    if n > 0 then
      assert 0 <= wins <= n;
      DivBounds(wins, n);
      wins as real / n as real
    else 0.0
  }

  lemma DivBounds(a: nat, b: nat)
    requires 0 < b && a <= b
    ensures 0.0 <= a as real / b as real <= 1.0
    ensures a as real / b as real == 0.0 <==> a == 0
    ensures a as real / b as real == 1.0 <==> a == b
    ensures (a as real / b as real) * b as real == a as real
  {
  }

  /**
   * `s[s > 0].mean()` or `s[s < 0].mean()`, with 0 for an empty mask: the
   * average win (side Win) or average loss (side Loss) of a series.
   */
  function AverageOf(s: seq<real>, side: Side): (m: real)
    ensures m == 0.0 <==> forall k :: 0 <= k < |s| ==> !Counts(side, s[k])
    ensures m != 0.0 ==> Counts(side, m)
  {
    var picked := Select(s, side);
    MeanOfSide(picked, side);
    SelectEmpty(s, side);
    MeanOrZero(picked)
  }

  /** A nonzero average lies within any bounds that hold of every on-side element. */
  lemma AverageWithin(s: seq<real>, side: Side, lo: real, hi: real)
    requires forall k :: 0 <= k < |s| && Counts(side, s[k]) ==> lo <= s[k] <= hi
    requires AverageOf(s, side) != 0.0
    ensures lo <= AverageOf(s, side) <= hi
  {
    var picked := Select(s, side);
    SelectMultiset(s, side);
    forall j | 0 <= j < |picked|
      ensures lo <= picked[j] <= hi
    {
      assert picked[j] in multiset(picked);
      assert picked[j] in multiset(s);
      var k :| 0 <= k < |s| && s[k] == picked[j];
    }
    MeanBounds(picked, lo, hi);
  }

  /** `win_rate * avg_win + (1 - win_rate) * avg_loss`. */
  function ExpectedValue(winRate: real, avgWin: real, avgLoss: real): (e: real)
    ensures winRate == 1.0 ==> e == avgWin
    ensures winRate == 0.0 ==> e == avgLoss
  {
    winRate * avgWin + (1.0 - winRate) * avgLoss
  }

  /** With a win rate in [0, 1], the expected value is a weighted mean of the two averages. */
  lemma ExpectedValueBetween(winRate: real, avgWin: real, avgLoss: real)
    requires 0.0 <= winRate <= 1.0 && avgLoss <= avgWin
    ensures avgLoss <= ExpectedValue(winRate, avgWin, avgLoss) <= avgWin
  {
    var d := avgWin - avgLoss;
    assert ExpectedValue(winRate, avgWin, avgLoss) == avgLoss + winRate * d;
    MulNonneg(winRate, d);
    MulNonneg(1.0 - winRate, d);
    assert winRate * d + (1.0 - winRate) * d == d;
  }

  lemma MulNonneg(a: real, b: real)
    requires a >= 0.0 && b >= 0.0
    ensures a * b >= 0.0
  {
  }

  // ---------------------------------------------------------------------------
  // Maximum drawdown
  // ---------------------------------------------------------------------------

  /**
   * `(cumulative - peak) / peak`: the fractional distance of the equity curve
   * from its running peak after each trade; 0/0 (NaN) where the peak is 0.
   */
  function Drawdowns(rets: seq<real>): (d: seq<Option<real>>)
    ensures |d| == |rets|
    ensures forall i :: 0 <= i < |rets| ==> d[i] == DrawdownPoint(Equity(rets)[i], RunningPeak(Equity(rets))[i])
    ensures forall i :: 0 <= i < |rets| ==> d[i].None? ==> Equity(rets)[i] == 0.0
    ensures |rets| > 0 ==> d[0] == if Equity(rets)[0] == 0.0 then None else Some(0.0)
  {
    var cum := Equity(rets);
    var peak := RunningPeak(cum);
    ZeroPeaksMeanZeroEquity(rets);
    seq(|rets|, i requires 0 <= i < |rets| => DrawdownPoint(cum[i], peak[i]))
  }

  /**
   * One entry of `(cumulative - peak) / peak`: undefined exactly at a zero peak,
   * and within (-1, 0] for a positive equity at or below its peak.
   */
  function DrawdownPoint(cum: real, peak: real): (d: Option<real>)
    ensures d.None? <==> peak == 0.0
    ensures d.Some? ==> d.value * peak == cum - peak
    ensures 0.0 < cum <= peak ==> d.Some? && -1.0 < d.value <= 0.0
  {
    FractionBelowPeak(cum, peak);
    if peak == 0.0 then None else Some((cum - peak) / peak)
  }

  /** The fractional change of the equity curve from point `j` to point `i`. */
  function Change(cum: seq<real>, j: int, i: int): real
    requires 0 <= j < |cum| && 0 <= i < |cum|
  {
    if cum[j] == 0.0 then 0.0 else (cum[i] - cum[j]) / cum[j]
  }

  /**
   * `drawdown.min() if len(drawdown) > 0 else 0`. The first point is 0 unless
   * the first trade lost everything, so the result is never positive, and it is
   * NaN exactly when the equity is 0 from the first trade on.
   */
  function MaxDrawdown(rets: seq<real>): (m: Option<real>)
    ensures |rets| > 0 ==> m == MinPresent(Drawdowns(rets))
    ensures m.Some? ==> m.value <= 0.0
    ensures |rets| > 0 ==> (m.None? <==> Equity(rets)[0] == 0.0)
  {
    var d := Drawdowns(rets);
    ZeroStartUndefined(rets);
    if |d| > 0 then MinPresent(d) else Some(0.0)
  }

  /** A running peak of 0 forces the equity itself to 0 there, so the only undefined drawdown is 0/0. */
  lemma ZeroPeakMeansZeroEquity(rets: seq<real>, i: int)
    requires 0 <= i < |rets|
    requires RunningPeak(Equity(rets))[i] == 0.0
    ensures Equity(rets)[i] == 0.0
  {
    var j := ArgPeak(Equity(rets), i);
    assert Equity(rets)[j] == 0.0;
    EquityStaysAtZero(rets, j, i);
  }

  lemma ZeroPeaksMeanZeroEquity(rets: seq<real>)
    ensures forall i :: 0 <= i < |rets| && RunningPeak(Equity(rets))[i] == 0.0 ==> Equity(rets)[i] == 0.0
  {
    forall i | 0 <= i < |rets| && RunningPeak(Equity(rets))[i] == 0.0
      ensures Equity(rets)[i] == 0.0
    {
      ZeroPeakMeansZeroEquity(rets, i);
    }
  }

  /** When the first trade takes the equity to 0, every drawdown point is 0/0, and so is their minimum. */
  lemma ZeroStartUndefined(rets: seq<real>)
    ensures |rets| > 0 && Equity(rets)[0] == 0.0 ==> MinPresent(Drawdowns(rets)).None?
  {
    if |rets| > 0 && Equity(rets)[0] == 0.0 {
      forall i | 0 <= i < |rets|
        ensures Drawdowns(rets)[i].None?
      {
        var cum := Equity(rets);
        var j := ArgPeak(cum, i);
        EquityStaysAtZero(rets, 0, j);
        assert RunningPeak(cum)[i] == cum[j] == 0.0;
      }
    }
  }

  lemma EquityStaysAtZero(rets: seq<real>, j: int, i: int)
    requires 0 <= j <= i < |rets|
    requires Equity(rets)[j] == 0.0
    ensures Equity(rets)[i] == 0.0
  {
    ZeroGrowthSticks(rets, j, i);
  }

  /** Once the equity has hit 0 it stays there. */
  lemma ZeroGrowthSticks(s: seq<real>, j: int, i: int)
    requires 0 <= j <= i < |s|
    requires GrowthProduct(s[..j + 1]) == 0.0
    ensures GrowthProduct(s[..i + 1]) == 0.0
  {
    var head, tail := s[..j + 1], s[j + 1..i + 1];
    assert s[..i + 1] == head + tail;
    GrowthProductAppend(head, tail);
  }

  /** With every return above -100 %, the equity curve stays positive. */
  lemma EquityPositive(rets: seq<real>)
    requires forall k :: 0 <= k < |rets| ==> rets[k] > -1.0
    ensures forall i :: 0 <= i < |rets| ==> Equity(rets)[i] > 0.0
  {
    forall i | 0 <= i < |rets|
      ensures Equity(rets)[i] > 0.0
    {
      var prefix := rets[..i + 1];
      assert forall k :: 0 <= k < |prefix| ==> prefix[k] > -1.0;
    }
  }

  /** With every return above -100 %, each drawdown is defined and lies in (-1, 0]. */
  lemma DrawdownsBounded(rets: seq<real>)
    requires forall k :: 0 <= k < |rets| ==> rets[k] > -1.0
    ensures forall i :: 0 <= i < |rets| ==>
      Drawdowns(rets)[i].Some? && -1.0 < Drawdowns(rets)[i].value <= 0.0
  {
    EquityPositive(rets);
    PointsBounded(Equity(rets), RunningPeak(Equity(rets)));
  }

  lemma PointsBounded(cum: seq<real>, peak: seq<real>)
    requires |cum| == |peak|
    requires forall i :: 0 <= i < |cum| ==> 0.0 < cum[i]
    requires forall i {:trigger peak[i]} :: 0 <= i < |cum| ==> peak[i] == cum[ArgPeak(cum, i)]
    ensures forall i :: 0 <= i < |cum| ==>
      DrawdownPoint(cum[i], peak[i]).Some? && -1.0 < DrawdownPoint(cum[i], peak[i]).value <= 0.0
  {
    forall i | 0 <= i < |cum|
      ensures DrawdownPoint(cum[i], peak[i]).Some? && -1.0 < DrawdownPoint(cum[i], peak[i]).value <= 0.0
    {
      assert cum[i] <= cum[ArgPeak(cum, i)] == peak[i];
      FractionBelowPeak(cum[i], peak[i]);
    }
  }

  lemma FractionBelowPeak(c: real, p: real)
    ensures 0.0 < c <= p ==> -1.0 < (c - p) / p <= 0.0
  {
    if 0.0 < c <= p {
      var x := (c - p) / p;
      assert x * p == c - p;
    }
  }

  /** The bound the drawdown promises: with every return above -100 %, it lies in (-1, 0]. */
  lemma MaxDrawdownBounded(rets: seq<real>)
    requires |rets| > 0
    requires forall k :: 0 <= k < |rets| ==> rets[k] > -1.0
    ensures MaxDrawdown(rets).Some?
    ensures -1.0 < MaxDrawdown(rets).value <= 0.0
  {
    DrawdownsBounded(rets);
    var d := Drawdowns(rets);
    assert d[0].Some?;
  }

  /**
   * The maximum drawdown is the deepest peak-to-trough decline of the equity
   * curve: no later point is further below an earlier one, and some pair of
   * points attains it.
   */
  lemma MaxDrawdownIsDeepestDecline(rets: seq<real>)
    requires |rets| > 0
    requires forall k :: 0 <= k < |rets| ==> rets[k] > -1.0
    ensures MaxDrawdown(rets).Some?
    ensures forall j, i :: 0 <= j <= i < |rets| ==> MaxDrawdown(rets).value <= Change(Equity(rets), j, i)
    ensures exists j, i :: 0 <= j <= i < |rets| && MaxDrawdown(rets).value == Change(Equity(rets), j, i)
  {
    MaxDrawdownBelowAll(rets);
    MaxDrawdownAttained(rets);
  }

  lemma MaxDrawdownBelowAll(rets: seq<real>)
    requires |rets| > 0
    requires forall k :: 0 <= k < |rets| ==> rets[k] > -1.0
    ensures MaxDrawdown(rets).Some?
    ensures forall j, i :: 0 <= j <= i < |rets| ==> MaxDrawdown(rets).value <= Change(Equity(rets), j, i)
  {
    var cum, d := Equity(rets), Drawdowns(rets);
    EquityPositive(rets);
    DeepestBelowAll(cum, RunningPeak(cum), d);
    assert MaxDrawdown(rets) == MinPresent(d);
  }

  lemma MaxDrawdownAttained(rets: seq<real>)
    requires |rets| > 0
    requires forall k :: 0 <= k < |rets| ==> rets[k] > -1.0
    ensures MaxDrawdown(rets).Some?
    ensures exists j, i :: 0 <= j <= i < |rets| && MaxDrawdown(rets).value == Change(Equity(rets), j, i)
  {
    MaxDrawdownBounded(rets);
    EquityPositive(rets);
    var cum := Equity(rets);
    DeepestAttained(cum, RunningPeak(cum), Drawdowns(rets));
  }

  lemma DeepestBelowAll(cum: seq<real>, peak: seq<real>, d: seq<Option<real>>)
    requires |cum| == |peak| == |d| > 0
    requires forall i :: 0 <= i < |cum| ==> cum[i] > 0.0
    requires forall i {:trigger peak[i]} :: 0 <= i < |cum| ==> peak[i] == cum[ArgPeak(cum, i)]
    requires forall i :: 0 <= i < |d| ==> d[i] == DrawdownPoint(cum[i], peak[i])
    ensures MinPresent(d).Some?
    ensures forall j, i :: 0 <= j <= i < |cum| ==> MinPresent(d).value <= Change(cum, j, i)
  {
    assert d[0].Some?;
    var m := MinPresent(d).value;
    forall j, i | 0 <= j <= i < |cum|
      ensures m <= Change(cum, j, i)
    {
      BelowAt(cum, peak[i], d[i], m, j, i);
    }
  }

  lemma BelowAt(cum: seq<real>, peak: real, d: Option<real>, m: real, j: nat, i: nat)
    requires j <= i < |cum|
    requires cum[j] > 0.0 && cum[i] > 0.0 && cum[ArgPeak(cum, i)] > 0.0
    requires peak == cum[ArgPeak(cum, i)]
    requires d == DrawdownPoint(cum[i], peak)
    requires d.Some? ==> m <= d.value
    ensures m <= Change(cum, j, i)
  {
    DeeperFromHigherPeak(cum[i], cum[j], peak);
  }

  lemma DeepestAttained(cum: seq<real>, peak: seq<real>, d: seq<Option<real>>)
    requires |cum| == |peak| == |d|
    requires forall i :: 0 <= i < |cum| ==> cum[i] > 0.0
    requires forall i {:trigger peak[i]} :: 0 <= i < |cum| ==> peak[i] == cum[ArgPeak(cum, i)]
    requires forall i :: 0 <= i < |d| ==> d[i] == DrawdownPoint(cum[i], peak[i])
    requires MinPresent(d).Some?
    ensures exists j, i :: 0 <= j <= i < |cum| && MinPresent(d).value == Change(cum, j, i)
  {
    var i := MinPresentWitness(d);
    AttainedAt(cum, peak, d, i);
  }

  lemma MinPresentWitness(s: seq<Option<real>>) returns (i: nat)
    requires MinPresent(s).Some?
    ensures i < |s| && s[i] == MinPresent(s)
  {
    i :| 0 <= i < |s| && s[i] == MinPresent(s);
  }

  lemma AttainedAt(cum: seq<real>, peak: seq<real>, d: seq<Option<real>>, i: nat)
    requires |cum| == |peak| == |d|
    requires forall i :: 0 <= i < |cum| ==> cum[i] > 0.0
    requires forall i {:trigger peak[i]} :: 0 <= i < |cum| ==> peak[i] == cum[ArgPeak(cum, i)]
    requires forall i :: 0 <= i < |d| ==> d[i] == DrawdownPoint(cum[i], peak[i])
    requires i < |d| && d[i].Some?
    ensures exists j :: 0 <= j <= i && d[i].value == Change(cum, j, i)
  {
    var j := ArgPeak(cum, i);
    assert d[i].value == Change(cum, j, i);
  }

  lemma DeeperFromHigherPeak(c: real, q: real, p: real)
    requires 0.0 < q <= p && 0.0 < c
    ensures (c - p) / p <= (c - q) / q
  {
    var x, y := (c - p) / p, (c - q) / q;
    assert (x + 1.0) * p == c;
    assert (y + 1.0) * q == c;
    assert (y + 1.0) * (p - q) >= 0.0;
  }

  /** With no losing trade the equity only rises, so the maximum drawdown is 0. */
  lemma NoLossNoDrawdown(rets: seq<real>)
    requires |rets| > 0
    requires forall k :: 0 <= k < |rets| ==> rets[k] >= 0.0
    ensures MaxDrawdown(rets) == Some(0.0)
  {
    DrawdownsVanish(rets);
    ZerosMin(Drawdowns(rets));
  }

  /** With no negative return every point of the equity curve is at its running peak. */
  lemma DrawdownsVanish(rets: seq<real>)
    requires forall k :: 0 <= k < |rets| ==> rets[k] >= 0.0
    ensures forall i :: 0 <= i < |rets| ==> Drawdowns(rets)[i] == Some(0.0)
  {
    forall i | 0 <= i < |rets|
      ensures Drawdowns(rets)[i] == Some(0.0)
    {
      VanishesAt(rets, i);
    }
  }

  lemma VanishesAt(rets: seq<real>, i: nat)
    requires forall k :: 0 <= k < |rets| ==> rets[k] >= 0.0
    requires i < |rets|
    ensures Drawdowns(rets)[i] == Some(0.0)
  {
    var cum := Equity(rets);
    var peak := RunningPeak(cum);
    var j := ArgPeak(cum, i);
    GrowthRises(rets, j, i);
    AtOwnPeak(cum[i], cum[j], peak[i]);
  }

  lemma AtOwnPeak(c: real, q: real, p: real)
    requires 0.0 < q <= c && p == q && c <= p
    ensures DrawdownPoint(c, p) == Some(0.0)
  {
  }

  lemma ZerosMin(d: seq<Option<real>>)
    requires |d| > 0
    requires forall i :: 0 <= i < |d| ==> d[i] == Some(0.0)
    ensures MinPresent(d) == Some(0.0)
  {
    var i :| 0 <= i < |d| && d[i] == MinPresent(d);
  }

  /** With no negative return, the equity curve is positive and never falls. */
  lemma EquityRises(rets: seq<real>)
    requires forall k :: 0 <= k < |rets| ==> rets[k] >= 0.0
    ensures forall j, i :: 0 <= j <= i < |rets| ==> 0.0 < Equity(rets)[j] <= Equity(rets)[i]
  {
    forall j, i | 0 <= j <= i < |rets|
      ensures 0.0 < Equity(rets)[j] <= Equity(rets)[i]
    {
      GrowthRises(rets, j, i);
    }
  }

  lemma GrowthRises(s: seq<real>, j: int, i: int)
    requires 0 <= j <= i < |s|
    requires forall k :: 0 <= k < |s| ==> s[k] >= 0.0
    ensures 0.0 < GrowthProduct(s[..j + 1]) <= GrowthProduct(s[..i + 1])
  {
    var head, tail := s[..j + 1], s[j + 1..i + 1];
    assert GrowthProduct(head) >= 1.0 && GrowthProduct(tail) >= 1.0;
    assert s[..i + 1] == head + tail;
    GrowthProductAppend(head, tail);
    AtLeastOneScales(GrowthProduct(head), GrowthProduct(tail));
  }


  lemma AtLeastOneScales(a: real, g: real)
    requires a > 0.0 && g >= 1.0
    ensures a <= a * g
  {
    assert a * g - a == a * (g - 1.0);
  }

  // ---------------------------------------------------------------------------
  // Ratios with the +inf sentinel
  // ---------------------------------------------------------------------------

  /** `gross_profit / gross_loss if gross_loss != 0 else inf`. */
  function ProfitFactor(rets: seq<real>): (f: Ratio)
    ensures f.PosInf? <==> forall k :: 0 <= k < |rets| ==> rets[k] >= 0.0
    ensures f.Finite? ==> f.value >= 0.0
    ensures f.Finite? ==> f.value * -Sum(Select(rets, Loss)) == Sum(Select(rets, Win))
  {
    var wins := Select(rets, Win);
    var losses := Select(rets, Loss);
    var grossProfit := if |wins| > 0 then Sum(wins) else 0.0;
    var grossLoss := if |losses| > 0 then Abs(Sum(losses)) else 0.0;
    SumSign(wins, Win);
    SumSign(losses, Loss);
    SelectEmpty(rets, Loss);
    if grossLoss != 0.0 then
      assert grossProfit == Sum(wins) >= 0.0 && grossLoss == -Sum(losses) > 0.0;
      Finite(grossProfit / grossLoss)
    else PosInf
  }

  /** `avg_win / abs(avg_loss) if avg_loss != 0 else inf`. */
  function PayoffRatio(avgWin: real, avgLoss: real): (p: Ratio)
    ensures p.PosInf? <==> avgLoss == 0.0
    ensures p.Finite? ==> p.value * Abs(avgLoss) == avgWin
    ensures avgWin >= 0.0 && p.Finite? ==> p.value >= 0.0
  {
    if avgLoss != 0.0 then Finite(avgWin / Abs(avgLoss)) else PosInf
  }

  /** `expected_value / abs(avg_loss) if avg_loss != 0 else inf`. */
  function RiskRewardRatio(expectedValue: real, avgLoss: real): (q: Ratio)
    ensures q.PosInf? <==> avgLoss == 0.0
    ensures q.Finite? ==> q.value * Abs(avgLoss) == expectedValue
    ensures q.Finite? ==> (q.value > 0.0 <==> expectedValue > 0.0)
  {
    if avgLoss != 0.0 then Finite(expectedValue / Abs(avgLoss)) else PosInf
  }

  /** `annualized_return / volatility if volatility != 0 else 0`, for given annualized return and volatility. */
  function SharpeRatio(annualizedReturn: real, volatility: real): (s: real)
    ensures volatility == 0.0 ==> s == 0.0
    ensures volatility != 0.0 ==> s * volatility == annualizedReturn
  {
    if volatility != 0.0 then annualizedReturn / volatility else 0.0
  }

  // ---------------------------------------------------------------------------
  // Streaks
  // ---------------------------------------------------------------------------

  /** The length of the run of same-side returns that ends the series. */
  function TrailingRun(s: seq<real>, side: Side): (n: nat)
    ensures n <= |s|
  {
    if s == [] || !Counts(side, Last(s)) then 0 else TrailingRun(Init(s), side) + 1
  }

  /** The longest run of consecutive returns on one side. */
  function LongestRun(s: seq<real>, side: Side): (r: nat)
    ensures TrailingRun(s, side) <= r <= |s|
  {
    if s == [] then 0
    else
      var before := LongestRun(Init(s), side);
      var now := TrailingRun(s, side);
      if before >= now then before else now
  }

  /** `s[a..b]` is a run of returns all on one side. */
  ghost predicate IsRun(s: seq<real>, side: Side, a: int, b: int)
  {
    0 <= a <= b <= |s| && forall k :: a <= k < b ==> Counts(side, s[k])
  }

  lemma {:induction false} TrailingRunIsRun(s: seq<real>, side: Side)
    ensures IsRun(s, side, |s| - TrailingRun(s, side), |s|)
  {
    if s != [] && Counts(side, Last(s)) {
      TrailingRunIsRun(Init(s), side);
    }
  }

  lemma {:induction false} TrailingRunCovers(s: seq<real>, side: Side, a: int)
    requires IsRun(s, side, a, |s|)
    ensures |s| - a <= TrailingRun(s, side)
  {
    if a < |s| {
      TrailingRunCovers(Init(s), side, a);
    }
  }

  /** The return just before the trailing run, when there is one, is not on the run's side. */
  lemma {:induction false} TrailingRunStops(s: seq<real>, side: Side)
    ensures TrailingRun(s, side) < |s| ==> !Counts(side, s[|s| - 1 - TrailingRun(s, side)])
  {
    if s != [] && Counts(side, Last(s)) {
      TrailingRunStops(Init(s), side);
      if TrailingRun(s, side) < |s| {
        assert s[|s| - 1 - TrailingRun(s, side)] == Init(s)[|Init(s)| - 1 - TrailingRun(Init(s), side)];
      }
    }
  }

  /** Some run of the reported length exists. */
  lemma {:induction false} LongestRunAttained(s: seq<real>, side: Side)
    ensures exists a, b :: IsRun(s, side, a, b) && b - a == LongestRun(s, side)
  {
    if s == [] {
      assert IsRun(s, side, 0, 0);
    } else if LongestRun(Init(s), side) >= TrailingRun(s, side) {
      LongestRunAttained(Init(s), side);
      var a, b :| IsRun(Init(s), side, a, b) && b - a == LongestRun(Init(s), side);
      assert IsRun(s, side, a, b);
    } else {
      TrailingRunIsRun(s, side);
      assert IsRun(s, side, |s| - LongestRun(s, side), |s|);
    }
  }

  /** No run is longer than the reported length. */
  lemma {:induction false} LongestRunMaximal(s: seq<real>, side: Side, a: int, b: int)
    requires IsRun(s, side, a, b)
    ensures b - a <= LongestRun(s, side)
  {
    if b == |s| {
      if s != [] {
        TrailingRunCovers(s, side, a);
      }
    } else {
      assert IsRun(Init(s), side, a, b);
      LongestRunMaximal(Init(s), side, a, b);
    }
  }

  lemma {:induction false} TrailingRunAtMostCount(s: seq<real>, side: Side)
    ensures TrailingRun(s, side) <= |Select(s, side)|
  {
    if s != [] && Counts(side, Last(s)) {
      TrailingRunAtMostCount(Init(s), side);
    }
  }

  /** The longest streak is at most the number of wins (losses), and positive exactly when there is one. */
  lemma {:induction false} LongestRunAtMostCount(s: seq<real>, side: Side)
    ensures LongestRun(s, side) <= |Select(s, side)| <= |s|
    ensures LongestRun(s, side) >= 1 <==> exists k :: 0 <= k < |s| && Counts(side, s[k])
  {
    if s != [] {
      LongestRunAtMostCount(Init(s), side);
      TrailingRunAtMostCount(s, side);
      assert |Select(Init(s), side)| <= |Select(s, side)|;
    }
    if k :| 0 <= k < |s| && Counts(side, s[k]) {
      assert IsRun(s, side, k, k + 1);
      LongestRunMaximal(s, side, k, k + 1);
    }
    if LongestRun(s, side) >= 1 {
      LongestRunAttained(s, side);
      var a, b :| IsRun(s, side, a, b) && b - a == LongestRun(s, side);
      assert Counts(side, s[a]);
    }
  }

  lemma {:induction false} TrailingRunAfterBreak(x: seq<real>, z: real, w: seq<real>, side: Side)
    requires !Counts(side, z)
    ensures TrailingRun(x + [z] + w, side) == TrailingRun(w, side)
    decreases |w|
  {
    if w == [] {
      assert x + [z] + w == x + [z];
    } else {
      assert Init(x + [z] + w) == x + [z] + Init(w);
      assert Last(x + [z] + w) == Last(w);
      TrailingRunAfterBreak(x, z, Init(w), side);
    }
  }

  /**
   * A return off the chosen side (a zero return, for either side) splits the
   * series: the longest streak is the longer of the streaks on both sides of it.
   */
  lemma {:induction false} BreakSplitsStreaks(x: seq<real>, z: real, y: seq<real>, side: Side)
    requires !Counts(side, z)
    ensures LongestRun(x + [z] + y, side) == if LongestRun(x, side) >= LongestRun(y, side)
                                              then LongestRun(x, side) else LongestRun(y, side)
    decreases |y|
  {
    if y == [] {
      assert x + [z] + y == x + [z];
      assert Init(x + [z]) == x;
    } else {
      assert Init(x + [z] + y) == x + [z] + Init(y);
      BreakSplitsStreaks(x, z, Init(y), side);
      TrailingRunAfterBreak(x, z, y, side);
    }
  }

  /** A zero return resets both the win streak and the loss streak. */
  lemma ZeroResetsStreaks(x: seq<real>, y: seq<real>)
    ensures LongestRun(x + [0.0] + y, Win) == if LongestRun(x, Win) >= LongestRun(y, Win)
                                              then LongestRun(x, Win) else LongestRun(y, Win)
    ensures LongestRun(x + [0.0] + y, Loss) == if LongestRun(x, Loss) >= LongestRun(y, Loss)
                                               then LongestRun(x, Loss) else LongestRun(y, Loss)
  {
    BreakSplitsStreaks(x, 0.0, y, Win);
    BreakSplitsStreaks(x, 0.0, y, Loss);
  }

  /**
   * One more return extends the win streak when positive and the loss streak
   * when negative, resets the other ones, and the longest streaks keep up.
   */
  lemma StreakStep(s: seq<real>, r: real)
    ensures TrailingRun(s + [r], Win) == if r > 0.0 then TrailingRun(s, Win) + 1 else 0
    ensures TrailingRun(s + [r], Loss) == if r < 0.0 then TrailingRun(s, Loss) + 1 else 0
    ensures LongestRun(s + [r], Win) == if LongestRun(s, Win) >= TrailingRun(s + [r], Win)
                                        then LongestRun(s, Win) else TrailingRun(s + [r], Win)
    ensures LongestRun(s + [r], Loss) == if LongestRun(s, Loss) >= TrailingRun(s + [r], Loss)
                                         then LongestRun(s, Loss) else TrailingRun(s + [r], Loss)
  {
    assert Init(s + [r]) == s;
  }

  /** The streak counter loop. */
  method ScanStreaks(rets: seq<real>) returns (maxWinStreak: nat, maxLossStreak: nat)
    ensures maxWinStreak == LongestRun(rets, Win)
    ensures maxLossStreak == LongestRun(rets, Loss)
  {
    var winStreak: nat := 0;
    var lossStreak: nat := 0;
    maxWinStreak, maxLossStreak := 0, 0;
    for i := 0 to |rets|
      invariant winStreak == TrailingRun(rets[..i], Win)
      invariant lossStreak == TrailingRun(rets[..i], Loss)
      invariant maxWinStreak == LongestRun(rets[..i], Win)
      invariant maxLossStreak == LongestRun(rets[..i], Loss)
    {
      var r := rets[i];
      if r > 0.0 {
        winStreak := winStreak + 1;
        lossStreak := 0;
      } else if r < 0.0 {
        lossStreak := lossStreak + 1;
        winStreak := 0;
      } else {
        winStreak := 0;
        lossStreak := 0;
      }
      maxWinStreak := if maxWinStreak >= winStreak then maxWinStreak else winStreak;
      maxLossStreak := if maxLossStreak >= lossStreak then maxLossStreak else lossStreak;
      assert rets[..i + 1] == rets[..i] + [r];
      StreakStep(rets[..i], r);
    }
    assert rets[..|rets|] == rets;
  }

  // ---------------------------------------------------------------------------
  // The report
  // ---------------------------------------------------------------------------

  /** The whole report as a function of its inputs. */
  function PerformanceOf(rets: seq<real>, profits: Option<seq<real>>): (res: Result<Report, PerfError>)
    ensures res.Failure? <==> |rets| == 0
    ensures res.Success? ==> res.value.numTrades == |rets|
  {
    if |rets| == 0 then Failure(EmptyReturns)
    else
      var winRate := WinRate(rets);
      var avgWin := AverageOf(rets, Win);
      var avgLoss := AverageOf(rets, Loss);
      var expectedValue := ExpectedValue(winRate, avgWin, avgLoss);
      var avgWinAmt := if profits.Some? then Some(AverageOf(profits.value, Win)) else None;
      var avgLossAmt := if profits.Some? then Some(AverageOf(profits.value, Loss)) else None;
      var expectedValueAmt :=
        if profits.Some? then Some(ExpectedValue(winRate, avgWinAmt.value, avgLossAmt.value)) else None;
      Success(Report(
        CumulativeReturn(rets),
        winRate,
        expectedValue,
        expectedValueAmt,
        avgWin,
        avgLoss,
        avgWinAmt,
        avgLossAmt,
        |rets|,
        MaxDrawdown(rets),
        ProfitFactor(rets),
        PayoffRatio(avgWin, avgLoss),
        RiskRewardRatio(expectedValue, avgLoss),
        LongestRun(rets, Win),
        LongestRun(rets, Loss)))
  }

  /** `calculate_performance`, with the streaks counted by the loop. */
  method CalculatePerformance(rets: seq<real>, profits: Option<seq<real>>) returns (res: Result<Report, PerfError>)
    ensures res == PerformanceOf(rets, profits)
  {
    if |rets| == 0 {
      return Failure(EmptyReturns);
    }
    var winRate := WinRate(rets);
    var avgWin := AverageOf(rets, Win);
    var avgLoss := AverageOf(rets, Loss);
    var expectedValue := ExpectedValue(winRate, avgWin, avgLoss);
    var avgWinAmt: Option<real> := None;
    var avgLossAmt: Option<real> := None;
    var expectedValueAmt: Option<real> := None;
    if profits.Some? {
      var w := AverageOf(profits.value, Win);
      var l := AverageOf(profits.value, Loss);
      avgWinAmt, avgLossAmt := Some(w), Some(l);
      expectedValueAmt := Some(ExpectedValue(winRate, w, l));
    }
    var maxWinStreak, maxLossStreak := ScanStreaks(rets);
    res := Success(Report(
      CumulativeReturn(rets),
      winRate,
      expectedValue,
      expectedValueAmt,
      avgWin,
      avgLoss,
      avgWinAmt,
      avgLossAmt,
      |rets|,
      MaxDrawdown(rets),
      ProfitFactor(rets),
      PayoffRatio(avgWin, avgLoss),
      RiskRewardRatio(expectedValue, avgLoss),
      maxWinStreak,
      maxLossStreak));
  }

  /** The rates of a report: a win rate in [0, 1] and an expected value between the two averages. */
  lemma ReportRates(rets: seq<real>, profits: Option<seq<real>>)
    requires |rets| > 0
    ensures PerformanceOf(rets, profits).Success?
    ensures var r := PerformanceOf(rets, profits).value;
      && 0.0 <= r.winRate <= 1.0
      && r.avgWin >= 0.0 && r.avgLoss <= 0.0
      && r.avgLoss <= r.expectedValue <= r.avgWin
  {
    var w, aw, al := WinRate(rets), AverageOf(rets, Win), AverageOf(rets, Loss);
    assert aw >= 0.0 && al <= 0.0;
    ExpectedValueBetween(w, aw, al);
  }

  /**
   * The currency figures of a report are present exactly when the profits are
   * given, and then the expected profit lies between the average loss and the
   * average win.
   */
  lemma ReportAmounts(rets: seq<real>, profits: Option<seq<real>>)
    requires |rets| > 0
    ensures PerformanceOf(rets, profits).Success?
    ensures var r := PerformanceOf(rets, profits).value;
      && (r.avgWinAmt.None? <==> profits.None?)
      && (r.avgLossAmt.None? <==> profits.None?)
      && (r.expectedValueAmt.None? <==> profits.None?)
    ensures profits.Some? ==> var r := PerformanceOf(rets, profits).value;
      && r.avgWinAmt.value >= 0.0 && r.avgLossAmt.value <= 0.0
      && r.avgLossAmt.value <= r.expectedValueAmt.value <= r.avgWinAmt.value
      && r.expectedValueAmt.value == ExpectedValue(r.winRate, r.avgWinAmt.value, r.avgLossAmt.value)
  {
    if profits.Some? {
      var w, aw, al := WinRate(rets), AverageOf(profits.value, Win), AverageOf(profits.value, Loss);
      AmountsOf(rets, profits);
      assert aw >= 0.0 && al <= 0.0;
      ExpectedValueBetween(w, aw, al);
    }
  }

  lemma AmountsOf(rets: seq<real>, profits: Option<seq<real>>)
    requires |rets| > 0 && profits.Some?
    ensures var r := PerformanceOf(rets, profits).value;
      && r.avgWinAmt == Some(AverageOf(profits.value, Win))
      && r.avgLossAmt == Some(AverageOf(profits.value, Loss))
      && r.expectedValueAmt == Some(ExpectedValue(WinRate(rets), AverageOf(profits.value, Win), AverageOf(profits.value, Loss)))
  {
  }

  /** The three ratios of a report are infinite exactly when no trade lost. */
  lemma ReportRatios(rets: seq<real>, profits: Option<seq<real>>)
    requires |rets| > 0
    ensures PerformanceOf(rets, profits).Success?
    ensures var r := PerformanceOf(rets, profits).value;
      && (r.profitFactor.PosInf? <==> forall k :: 0 <= k < |rets| ==> rets[k] >= 0.0)
      && (r.payoffRatio.PosInf? <==> forall k :: 0 <= k < |rets| ==> rets[k] >= 0.0)
      && (r.riskRewardRatio.PosInf? <==> forall k :: 0 <= k < |rets| ==> rets[k] >= 0.0)
  {
    var al := AverageOf(rets, Loss);
    assert al == 0.0 <==> forall k :: 0 <= k < |rets| ==> rets[k] >= 0.0;
  }

  /** The streaks of a report: bounded by the counts and positive exactly when such a trade exists. */
  lemma ReportStreaks(rets: seq<real>, profits: Option<seq<real>>)
    requires |rets| > 0
    ensures PerformanceOf(rets, profits).Success?
    ensures var r := PerformanceOf(rets, profits).value;
      && r.maxWinStreak <= |Select(rets, Win)| && r.maxLossStreak <= |Select(rets, Loss)|
      && r.maxWinStreak + r.maxLossStreak <= |rets|
      && (r.maxWinStreak >= 1 <==> r.winRate > 0.0)
      && (r.maxLossStreak >= 1 <==> r.avgLoss < 0.0)
  {
    LongestRunAtMostCount(rets, Win);
    LongestRunAtMostCount(rets, Loss);
    SelectDisjointSides(rets);
    var w, al := WinRate(rets), AverageOf(rets, Loss);
    assert w > 0.0 <==> exists k :: 0 <= k < |rets| && Counts(Win, rets[k]);
    assert al < 0.0 <==> exists k :: 0 <= k < |rets| && Counts(Loss, rets[k]);
  }

  /** Wins and losses are disjoint masks. */
  lemma {:induction false} SelectDisjointSides(s: seq<real>)
    ensures |Select(s, Win)| + |Select(s, Loss)| <= |s|
  {
    if s != [] {
      SelectDisjointSides(Init(s));
    }
  }

  /** The worked example: returns 10 %, -5 %, 20 % with profits 1000, -500, 2000. */
  lemma WorkedExample()
    ensures PerformanceOf([0.1, -0.05, 0.2], Some([1000.0, -500.0, 2000.0])) == Success(Report(
      0.254, 2.0 / 3.0, 1.0 / 12.0, Some(2500.0 / 3.0), 0.15, -0.05, Some(1500.0), Some(-500.0), 3,
      Some(-0.05), Finite(6.0), Finite(3.0), Finite(5.0 / 3.0), 1, 1))
  {
    ExampleCumulative();
    ExampleAverages();
    ExampleDrawdown();
    ExampleStreaks();
    ExampleProfitFactor();
  }

  lemma ExampleSelections()
    ensures Select([0.1, -0.05, 0.2], Win) == [0.1, 0.2]
    ensures Select([0.1, -0.05, 0.2], Loss) == [-0.05]
    ensures Select([1000.0, -500.0, 2000.0], Win) == [1000.0, 2000.0]
    ensures Select([1000.0, -500.0, 2000.0], Loss) == [-500.0]
  {
    var rs := [0.1, -0.05, 0.2];
    assert Init(rs) == [0.1, -0.05];
    assert Init(Init(rs)) == [0.1];
    assert Init([0.1]) == [];
    var ps := [1000.0, -500.0, 2000.0];
    assert Init(ps) == [1000.0, -500.0];
    assert Init(Init(ps)) == [1000.0];
    assert Init([1000.0]) == [];
  }

  lemma ExampleAverages()
    ensures WinRate([0.1, -0.05, 0.2]) == 2.0 / 3.0
    ensures AverageOf([0.1, -0.05, 0.2], Win) == 0.15
    ensures AverageOf([0.1, -0.05, 0.2], Loss) == -0.05
    ensures AverageOf([1000.0, -500.0, 2000.0], Win) == 1500.0
    ensures AverageOf([1000.0, -500.0, 2000.0], Loss) == -500.0
  {
    ExampleSelections();
    ExampleSums();
    assert Mean([0.1, 0.2]) == 0.15;
    assert Mean([1000.0, 2000.0]) == 1500.0;
  }

  lemma ExampleSums()
    ensures Sum([0.1, 0.2]) == 0.3 && Sum([1000.0, 2000.0]) == 3000.0
    ensures Sum([-0.05]) == -0.05 && Sum([-500.0]) == -500.0
  {
    assert Init([0.1, 0.2]) == [0.1];
    assert Init([1000.0, 2000.0]) == [1000.0];
    assert Init([0.1]) == [] && Init([1000.0]) == [] && Init([-0.05]) == [] && Init([-500.0]) == [];
  }

  lemma ExampleProfitFactor()
    ensures ProfitFactor([0.1, -0.05, 0.2]) == Finite(6.0)
  {
    ExampleSelections();
    ExampleSums();
  }

  lemma ExampleCumulative()
    ensures CumulativeReturn([0.1, -0.05, 0.2]) == 0.254
  {
    var rs := [0.1, -0.05, 0.2];
    assert Init(rs) == [0.1, -0.05];
    assert Init(Init(rs)) == [0.1];
    assert Init([0.1]) == [];
  }

  lemma ExampleEquity()
    ensures Equity([0.1, -0.05, 0.2]) == [1.1, 1.045, 1.254]
  {
    var rs := [0.1, -0.05, 0.2];
    assert Init(rs) == [0.1, -0.05];
    assert Init(Init(rs)) == [0.1];
    assert Init([0.1]) == [];
    assert rs[..1] == [0.1];
    assert rs[..2] == [0.1, -0.05];
    assert rs[..3] == rs;
  }

  lemma ExamplePeak()
    ensures RunningPeak([1.1, 1.045, 1.254]) == [1.1, 1.1, 1.254]
  {
  }

  lemma ExampleDrawdown()
    ensures MaxDrawdown([0.1, -0.05, 0.2]) == Some(-0.05)
  {
    ExampleEquity();
    ExamplePeak();
    ExamplePoints();
  }

  lemma ExamplePoints()
    ensures Drawdowns([0.1, -0.05, 0.2]) == [Some(0.0), Some(-0.05), Some(0.0)]
    ensures MinPresent([Some(0.0), Some(-0.05), Some(0.0)]) == Some(-0.05)
  {
    var d := Drawdowns([0.1, -0.05, 0.2]);
    ExampleEquity();
    ExamplePeak();
    assert d[0] == DrawdownPoint(1.1, 1.1) == Some(0.0);
    assert d[1] == DrawdownPoint(1.045, 1.1) == Some(-0.05);
    assert d[2] == DrawdownPoint(1.254, 1.254) == Some(0.0);
    ThreeEntries(d, Some(0.0), Some(-0.05), Some(0.0));
    ExampleMin();
  }

  lemma ThreeEntries(d: seq<Option<real>>, a: Option<real>, b: Option<real>, c: Option<real>)
    requires |d| == 3 && d[0] == a && d[1] == b && d[2] == c
    ensures d == [a, b, c]
  {
  }

  lemma ExampleMin()
    ensures MinPresent([Some(0.0), Some(-0.05), Some(0.0)]) == Some(-0.05)
  {
    var d := [Some(0.0), Some(-0.05), Some(0.0)];
    assert Init(d) == [Some(0.0), Some(-0.05)];
    assert Init(Init(d)) == [Some(0.0)];
    assert Init([Some(0.0)]) == [];
  }

  lemma ExampleStreaks()
    ensures LongestRun([0.1, -0.05, 0.2], Win) == 1
    ensures LongestRun([0.1, -0.05, 0.2], Loss) == 1
  {
    var rs := [0.1, -0.05, 0.2];
    assert Init(rs) == [0.1, -0.05];
    assert Init(Init(rs)) == [0.1];
    assert Init([0.1]) == [];
  }
}
