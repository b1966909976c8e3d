/** `metrics/metrics.py`: performance figures of an equity curve and of its per-period returns. */
module Metrics {
  import opened Wrappers
  import opened Frames
  import opened Stats

  /** `TRADING_DAYS`: periods per year when a series has no calendar index. */
  const TradingDays: real := 252.0

  /** One entry of a pandas Series: its index label (a day number when the index holds
      timestamps, the position otherwise) and its value. */
  datatype Point = Point(day: int, value: Cell)

  /** A Series; `dated` when its index is a DatetimeIndex. */
  datatype Series = Series(dated: bool, points: seq<Point>)

  function Values(ps: seq<Point>): (v: seq<Cell>)
    ensures |v| == |ps| && forall k :: 0 <= k < |ps| ==> v[k] == ps[k].value
  {
    seq(|ps|, k requires 0 <= k < |ps| => ps[k].value)
  }

  /** `dropna()`: the entries holding a value, in order, each with its own index label. */
  function DropNa(ps: seq<Point>): (d: seq<Point>)
    ensures |d| == |Present(Values(ps))|
    ensures forall k :: 0 <= k < |d| ==> d[k].value == Some(Present(Values(ps))[k])
    decreases |ps|
  {
    if ps == [] then []
    else
      var rest := DropNa(ps[1..]);
      assert Values(ps)[1..] == Values(ps[1..]);
      assert Values(ps) == [ps[0].value] + Values(ps[1..]);
      if ps[0].value.Some? then [ps[0]] + rest else rest
  }

  /** Every entry kept is an entry of the series, index label included. */
  lemma {:induction false} DropNaKeeps(ps: seq<Point>)
    ensures forall k :: 0 <= k < |DropNa(ps)| ==> DropNa(ps)[k] in ps
    decreases |ps|
  {
    if ps != [] {
      DropNaKeeps(ps[1..]);
      assert forall p :: p in ps[1..] ==> p in ps;
    }
  }

  /** The positions of the entries holding a value, ascending: every such position once. */
  function PresentIndices(ps: seq<Point>): (idx: seq<nat>)
    ensures forall k :: 0 <= k < |idx| ==> idx[k] < |ps| && ps[idx[k]].value.Some?
    ensures forall k, l :: 0 <= k < l < |idx| ==> idx[k] < idx[l]
    ensures forall i :: 0 <= i < |ps| && ps[i].value.Some? ==> i in idx
    decreases |ps|
  {
    if ps == [] then []
    else
      var n := |ps| - 1;
      assert forall i :: 0 <= i < n ==> ps[..n][i] == ps[i];
      var rest := PresentIndices(ps[..n]);
      if ps[n].value.Some? then rest + [n] else rest
  }

  /** One more entry at the end is kept exactly when it holds a value. */
  lemma {:induction false} DropNaSnoc(ps: seq<Point>, p: Point)
    ensures DropNa(ps + [p]) == DropNa(ps) + (if p.value.Some? then [p] else [])
    decreases |ps|
  {
    if ps == [] {
      assert ([] + [p])[1..] == [];
    } else {
      assert (ps + [p])[1..] == ps[1..] + [p];
      DropNaSnoc(ps[1..], p);
    }
  }

  /** `dropna()` is the subsequence of the entries holding a value: the `k`-th kept entry is the
      entry at the `k`-th such position, so the kept labels keep their order. */
  lemma {:induction false} DropNaInOrder(ps: seq<Point>)
    ensures |DropNa(ps)| == |PresentIndices(ps)|
    ensures forall k :: 0 <= k < |DropNa(ps)| ==> DropNa(ps)[k] == ps[PresentIndices(ps)[k]]
    decreases |ps|
  {
    if ps != [] {
      var n := |ps| - 1;
      DropNaInOrder(ps[..n]);
      assert ps == ps[..n] + [ps[n]];
      DropNaSnoc(ps[..n], ps[n]);
    }
  }

  /** `total_return`: last over first present value, less one; 0 for no value or a zero start. */
  function TotalReturn(equity: Series): (r: real)
    ensures var p := Present(Values(equity.points));
            && (p == [] ==> r == 0.0)
            && (p != [] && p[0] == 0.0 ==> r == 0.0)
            && (p != [] && p[0] != 0.0 ==> r == p[|p| - 1] / p[0] - 1.0)
  {
    var d := DropNa(equity.points);
    if d == [] then 0.0
    else
      var start, end := d[0].value.value, d[|d| - 1].value.value;
      if start == 0.0 then 0.0 else end / start - 1.0
  }

  /** Growing the start by the total return gives the end. */
  lemma TotalReturnGrowth(equity: Series)
    requires var p := Present(Values(equity.points)); p != [] && p[0] != 0.0
    ensures var p := Present(Values(equity.points));
            p[|p| - 1] == p[0] * (1.0 + TotalReturn(equity))
  {
  }

  /** The values of a series, each multiplied by `k`. */
  function Rescale(ps: seq<Point>, k: real): (q: seq<Point>)
    ensures |q| == |ps|
    ensures forall i :: 0 <= i < |ps| ==> q[i].day == ps[i].day && q[i].value == ScaleCell(ps[i].value, k)
  {
    seq(|ps|, i requires 0 <= i < |ps| => Point(ps[i].day, ScaleCell(ps[i].value, k)))
  }

  lemma PresentRescale(ps: seq<Point>, k: real)
    ensures |Present(Values(Rescale(ps, k)))| == |Present(Values(ps))|
    ensures forall i :: 0 <= i < |Present(Values(ps))| ==>
              Present(Values(Rescale(ps, k)))[i] == Present(Values(ps))[i] * k
  {
    assert Values(Rescale(ps, k)) == Scale(Values(ps), k);
    PresentScale(Values(ps), k);
  }

  lemma RatioScale(a: real, b: real, k: real)
    requires b != 0.0 && k != 0.0
    ensures b * k != 0.0
    ensures (a * k) / (b * k) == a / b
  {
  }

  /** The total return does not depend on the unit of the equity: scaling the starting capital
      scales the whole curve and changes nothing. */
  lemma TotalReturnScale(equity: Series, k: real)
    requires k != 0.0
    ensures TotalReturn(Series(equity.dated, Rescale(equity.points, k))) == TotalReturn(equity)
  {
    var scaled := Series(equity.dated, Rescale(equity.points, k));
    var p, q := Present(Values(equity.points)), Present(Values(scaled.points));
    PresentRescale(equity.points, k);
    if p != [] {
      var p0, pl, q0, ql := p[0], p[|p| - 1], q[0], q[|q| - 1];
      assert q0 == p0 * k && ql == pl * k;
      if p0 == 0.0 {
        assert q0 == 0.0;
      } else {
        RatioScale(pl, p0, k);
        assert TotalReturn(scaled) == ql / q0 - 1.0;
      }
    }
  }

  /** `annual_return`: the total growth compounded to one year. With a timestamp index and two or
      more present values the year count is the elapsed days over 365.25 (0 when no time
      elapses); otherwise it is the number of present values over 252 (0 below two). `pow` is
      the `**` of two floats. */
  function AnnualReturn(equity: Series, pow: (real, real) -> real): (r: real)
    ensures |Present(Values(equity.points))| < 2 ==> r == 0.0
    ensures var p := Present(Values(equity.points)); p != [] && p[0] == 0.0 ==> r == 0.0
    ensures var p := Present(Values(equity.points));
            |p| >= 2 && p[0] != 0.0 && equity.dated && Elapsed(DropNa(equity.points)) <= 0 ==> r == 0.0
    ensures var p := Present(Values(equity.points));
            |p| >= 2 && p[0] != 0.0 && equity.dated && Elapsed(DropNa(equity.points)) > 0 ==>
              r == pow(p[|p| - 1] / p[0], 365.25 / (Elapsed(DropNa(equity.points)) as real)) - 1.0
    ensures var p := Present(Values(equity.points));
            |p| >= 2 && p[0] != 0.0 && !equity.dated ==> r == pow(p[|p| - 1] / p[0], TradingDays / (|p| as real)) - 1.0
  {
    var d := DropNa(equity.points);
    if d == [] then 0.0
    else
      var start, end := d[0].value.value, d[|d| - 1].value.value;
      if start == 0.0 then 0.0
      else if equity.dated && |d| >= 2 then
        var days := d[|d| - 1].day - d[0].day;
        var years := (days as real) / 365.25;
        if years <= 0.0 then 0.0
        else
          YearsInverse(days);
          pow(end / start, 1.0 / years) - 1.0
      else
        var n := |d|;
        if n < 2 then 0.0 else pow(end / start, TradingDays / (n as real)) - 1.0
  }

  /** Days from the first to the last entry: `(index[-1] - index[0]).days`. */
  function Elapsed(d: seq<Point>): int
    requires d != []
  {
    d[|d| - 1].day - d[0].day
  }

  lemma YearsInverse(days: int)
    requires days > 0
    ensures 1.0 / ((days as real) / 365.25) == 365.25 / (days as real)
  {
  }

  /** Without a calendar, 252 present values make one year: the annual return is the total
      return whenever `x ** 1` is `x`. */
  lemma OneTradingYear(equity: Series, pow: (real, real) -> real)
    requires !equity.dated && |Present(Values(equity.points))| == 252
    requires forall x :: pow(x, 1.0) == x
    ensures AnnualReturn(equity, pow) == TotalReturn(equity)
  {
  }

  /** Over a calendar span of four years (1461 days), the exponent is one quarter. */
  lemma FourCalendarYears(equity: Series, pow: (real, real) -> real)
    requires equity.dated
    requires var p := Present(Values(equity.points));
             |p| >= 2 && p[0] != 0.0 && Elapsed(DropNa(equity.points)) == 1461
    ensures var p := Present(Values(equity.points));
            AnnualReturn(equity, pow) == pow(p[|p| - 1] / p[0], 0.25) - 1.0
  {
    var p := Present(Values(equity.points));
    var base := p[|p| - 1] / p[0];
    QuarterExponent();
    assert AnnualReturn(equity, pow) == pow(base, 365.25 / (1461 as real)) - 1.0;
  }

  lemma QuarterExponent()
    ensures 365.25 / (1461 as real) == 0.25
  {
  }

  /** `std() * sqrt(252)`: missing (NaN) with fewer than two present returns. */
  function AnnualVolatility(daily: Series, sqrt: real -> real): (v: Option<real>)
    ensures var p := Present(Values(daily.points));
            && (v.None? <==> |p| < 2)
            && (v.Some? ==> v.value == sqrt(Variance(p)) * sqrt(TradingDays))
  {
    var p := Present(Values(daily.points));
    if |p| < 2 then None else Some(sqrt(Variance(p)) * sqrt(TradingDays))
  }

  /** With a square root that is never negative, neither is the volatility. */
  lemma VolatilityNonnegative(daily: Series, sqrt: real -> real)
    requires forall x :: x >= 0.0 ==> sqrt(x) >= 0.0
    requires AnnualVolatility(daily, sqrt).Some?
    ensures AnnualVolatility(daily, sqrt).value >= 0.0
  {
    var p := Present(Values(daily.points));
    MulNonneg(sqrt(Variance(p)), sqrt(TradingDays));
  }

  /** The excess returns `portfolio_return - risk_free_rate / 252` that are present. */
  function Excess(daily: Series, riskFree: real): (e: seq<real>)
    ensures |e| == |Present(Values(daily.points))|
  {
    Shift(Present(Values(daily.points)), -(riskFree / TradingDays))
  }

  /** `sharpe_ratio`: the mean excess return over its sample deviation, times sqrt(252); exactly 0
      when the deviation is 0, and missing (NaN) with fewer than two present returns. */
  function Sharpe(daily: Series, riskFree: real, sqrt: real -> real): (s: Option<real>)
    ensures var e := Excess(daily, riskFree);
            && (s.None? <==> |e| < 2)
            && (|e| >= 2 && sqrt(Variance(e)) == 0.0 ==> s == Some(0.0))
            && (|e| >= 2 && sqrt(Variance(e)) != 0.0 ==> s.value == Mean(e) / sqrt(Variance(e)) * sqrt(TradingDays))
  {
    var e := Excess(daily, riskFree);
    if |e| < 2 then None
    else
      var sd := sqrt(Variance(e));
      if sd != 0.0 then Some(Mean(e) / sd * sqrt(TradingDays)) else Some(0.0)
  }

  /** The risk-free rate moves the mean but not the deviation: the Sharpe guard fires exactly
      when the volatility is 0. */
  lemma SharpeGuardIsVolatility(daily: Series, riskFree: real, sqrt: real -> real)
    requires sqrt(TradingDays) != 0.0
    requires AnnualVolatility(daily, sqrt) == Some(0.0)
    ensures Sharpe(daily, riskFree, sqrt) == Some(0.0)
  {
    var p := Present(Values(daily.points));
    ShiftStats(p, -(riskFree / TradingDays));
    assert sqrt(Variance(p)) * sqrt(TradingDays) == 0.0;
  }

  /** A constant return series has Sharpe ratio 0, not a division error. */
  lemma SharpeConstant(daily: Series, riskFree: real, sqrt: real -> real, c: real)
    requires sqrt(0.0) == 0.0
    requires var p := Present(Values(daily.points));
             |p| >= 2 && forall i :: 0 <= i < |p| ==> p[i] == c
    ensures Sharpe(daily, riskFree, sqrt) == Some(0.0)
  {
    var e := Excess(daily, riskFree);
    ConstantStats(e, c - riskFree / TradingDays);
  }

  lemma MulPositive(a: real, k: real)
    requires k > 0.0
    ensures a * k > 0.0 <==> a > 0.0
    ensures a * k < 0.0 <==> a < 0.0
  {
    if a > 0.0 {
      assert a * k > 0.0 * k;
    } else if a < 0.0 {
      assert (-a) * k > 0.0;
    }
  }

  /** With a square root that is positive on positive numbers, a defined, non-zero Sharpe ratio
      is positive exactly when the mean return beats the per-period risk-free rate. */
  lemma SharpeSign(daily: Series, riskFree: real, sqrt: real -> real)
    requires forall x :: x > 0.0 ==> sqrt(x) > 0.0
    requires forall x :: x >= 0.0 ==> sqrt(x) >= 0.0
    requires var s := Sharpe(daily, riskFree, sqrt); s.Some? && s.value != 0.0
    ensures var p := Present(Values(daily.points));
            |p| >= 2 && (Sharpe(daily, riskFree, sqrt).value > 0.0 <==> Mean(p) > riskFree / TradingDays)
  {
    var p, e := Present(Values(daily.points)), Excess(daily, riskFree);
    ShiftStats(p, -(riskFree / TradingDays));
    var sd := sqrt(Variance(e));
    assert sd != 0.0;
    assert sd > 0.0;
    DivSign(Mean(e), sd);
    MulPositive(Mean(e) / sd, sqrt(TradingDays));
  }

  /** The largest present value, or nothing when no value is present: the running peak that
      `cummax` carries forward. */
  function Peak(x: seq<Cell>): (m: Cell)
    ensures m.None? <==> forall i :: 0 <= i < |x| ==> x[i].None?
    ensures m.Some? ==> forall i :: 0 <= i < |x| && x[i].Some? ==> x[i].value <= m.value
    ensures m.Some? ==> exists i :: 0 <= i < |x| && x[i] == m
    decreases |x|
  {
    if x == [] then None
    else
      var rest, v := Peak(x[..|x| - 1]), x[|x| - 1];
      assert forall i :: 0 <= i < |x| - 1 ==> x[..|x| - 1][i] == x[i];
      if v.None? then rest
      else if rest.Some? && rest.value >= v.value then rest
      else v
  }

  /** The smallest present value, or nothing: `min()` skipping NaN. */
  function Trough(x: seq<Cell>): (m: Cell)
    ensures m.None? <==> forall i :: 0 <= i < |x| ==> x[i].None?
    ensures m.Some? ==> forall i :: 0 <= i < |x| && x[i].Some? ==> m.value <= x[i].value
    ensures m.Some? ==> exists i :: 0 <= i < |x| && x[i] == m
    decreases |x|
  {
    if x == [] then None
    else
      var rest, v := Trough(x[..|x| - 1]), x[|x| - 1];
      assert forall i :: 0 <= i < |x| - 1 ==> x[..|x| - 1][i] == x[i];
      if v.None? then rest
      else if rest.Some? && rest.value <= v.value then rest
      else v
  }

  /** `equity.cummax()` at `t`: the peak of everything up to `t`, missing where the value is. */
  function CumMaxAt(x: seq<Cell>, t: nat): (m: Cell)
    requires t < |x|
    ensures m.Some? <==> x[t].Some?
    ensures m.Some? ==> x[t].value <= m.value && exists j :: 0 <= j <= t && x[j] == m
  {
    assert x[..t + 1][t] == x[t];
    assert forall j :: 0 <= j <= t ==> x[..t + 1][j] == x[j];
    if x[t].None? then None else Peak(x[..t + 1])
  }

  /** `equity / cum_max - 1` at `t`; a zero peak (an infinite or undefined ratio) counts as
      missing. */
  function DrawdownAt(x: seq<Cell>, t: nat): (d: Cell)
    requires t < |x|
    ensures d.Some? <==> x[t].Some? && CumMaxAt(x, t) != Some(0.0)
    ensures d.Some? ==> (d.value + 1.0) * CumMaxAt(x, t).value == x[t].value
  {
    var m := CumMaxAt(x, t);
    if m.None? || m.value == 0.0 then None else Some(x[t].value / m.value - 1.0)
  }

  function Drawdowns(x: seq<Cell>): (d: seq<Cell>)
    ensures |d| == |x| && forall t :: 0 <= t < |x| ==> d[t] == DrawdownAt(x, t)
  {
    seq(|x|, t requires 0 <= t < |x| => DrawdownAt(x, t))
  }

  /** `max_drawdown`: the smallest drawdown; missing when there is none. */
  function MaxDrawdown(equity: Series): (r: Option<real>)
    ensures r.Some? <==> exists t :: 0 <= t < |equity.points| && DrawdownAt(Values(equity.points), t).Some?
    ensures r.Some? ==> exists t :: 0 <= t < |equity.points| && r == DrawdownAt(Values(equity.points), t)
    ensures r.Some? ==> forall t :: 0 <= t < |equity.points| && DrawdownAt(Values(equity.points), t).Some? ==>
              r.value <= DrawdownAt(Values(equity.points), t).value
  {
    Trough(Drawdowns(Values(equity.points)))
  }

  /** Curves whose values are all present and positive. */
  predicate PositiveCurve(x: seq<Cell>) {
    forall i :: 0 <= i < |x| ==> x[i].Some? && x[i].value > 0.0
  }

  lemma RatioBounds(a: real, m: real)
    requires 0.0 < a <= m
    ensures 0.0 < a / m <= 1.0
  {
    assert a / m * m == a;
    MulMono(a / m, 1.0, m);
  }

  /** On a positive curve every drawdown lies in (-1, 0]. */
  lemma DrawdownBounds(x: seq<Cell>, t: nat)
    requires PositiveCurve(x) && t < |x|
    ensures DrawdownAt(x, t).Some?
    ensures -1.0 < DrawdownAt(x, t).value <= 0.0
  {
    var m := CumMaxAt(x, t);
    var j :| 0 <= j <= t && x[j] == m;
    RatioBounds(x[t].value, m.value);
  }

  /** For a positive equity curve the maximum drawdown exists and lies in (-1, 0]. */
  lemma MaxDrawdownRange(equity: Series)
    requires |equity.points| > 0 && PositiveCurve(Values(equity.points))
    ensures MaxDrawdown(equity).Some?
    ensures -1.0 < MaxDrawdown(equity).value <= 0.0
  {
    var x := Values(equity.points);
    DrawdownBounds(x, 0);
    assert Drawdowns(x)[0].Some?;
    var t :| 0 <= t < |x| && MaxDrawdown(equity) == DrawdownAt(x, t);
    DrawdownBounds(x, t);
  }

  /** On a positive curve that never falls, each value is its own running peak. */
  lemma AtPeak(x: seq<Cell>, t: nat)
    requires PositiveCurve(x) && t < |x|
    requires forall i, j :: 0 <= i < j < |x| ==> x[i].value <= x[j].value
    ensures DrawdownAt(x, t) == Some(0.0)
  {
    var m := CumMaxAt(x, t);
    var j :| 0 <= j <= t && x[j] == m;
    assert m.value == x[t].value;
    SelfRatio(x[t].value);
  }

  lemma SelfRatio(a: real)
    requires a != 0.0
    ensures a / a == 1.0
  {
  }

  /** A positive curve that never falls has no drawdown. */
  lemma NeverFalls(equity: Series)
    requires |equity.points| > 0 && PositiveCurve(Values(equity.points))
    requires var x := Values(equity.points);
             forall i, j :: 0 <= i < j < |x| ==> x[i].value <= x[j].value
    ensures MaxDrawdown(equity) == Some(0.0)
  {
    var x := Values(equity.points);
    MaxDrawdownRange(equity);
    var t :| 0 <= t < |x| && MaxDrawdown(equity) == DrawdownAt(x, t);
    AtPeak(x, t);
  }

  /** The curve 1.0, 1.2, 0.9, 1.1: its running peak is 1.2 from the second value on. */
  lemma ExamplePeaks(x: seq<Cell>)
    requires x == [Some(1.0), Some(1.2), Some(0.9), Some(1.1)]
    ensures CumMaxAt(x, 0) == Some(1.0) && CumMaxAt(x, 1) == Some(1.2)
    ensures CumMaxAt(x, 2) == Some(1.2) && CumMaxAt(x, 3) == Some(1.2)
  {
    assert x[..1] == [Some(1.0)] && x[..2] == [Some(1.0), Some(1.2)];
    assert x[..3] == [Some(1.0), Some(1.2), Some(0.9)] && x[..4] == x;
    assert x[..3][..2] == x[..2] && x[..4][..3] == x[..3] && x[..2][..1] == x[..1];
    assert x[..1][..0] == [];
  }

  lemma ExampleRatios()
    ensures 1.0 / 1.0 - 1.0 == 0.0 && 1.2 / 1.2 - 1.0 == 0.0 && 0.9 / 1.2 - 1.0 == -0.25
    ensures -0.25 < 1.1 / 1.2 - 1.0 < 0.0
  {
  }

  /** Its drawdowns are 0, 0, -0.25 and 1.1 / 1.2 - 1. */
  lemma ExampleDrawdowns(x: seq<Cell>)
    requires x == [Some(1.0), Some(1.2), Some(0.9), Some(1.1)]
    ensures Drawdowns(x) == [Some(0.0), Some(0.0), Some(-0.25), Some(1.1 / 1.2 - 1.0)]
  {
    ExamplePeaks(x);
    ExampleRatios();
  }

  /** Its largest fall is from 1.2 to 0.9: a maximum drawdown of -0.25. */
  lemma MaxDrawdownExample(equity: Series)
    requires Values(equity.points) == [Some(1.0), Some(1.2), Some(0.9), Some(1.1)]
    ensures MaxDrawdown(equity) == Some(-0.25)
  {
    ExampleDrawdowns(Values(equity.points));
    ExampleTrough([Some(0.0), Some(0.0), Some(-0.25), Some(1.1 / 1.2 - 1.0)]);
  }

  lemma ExampleTrough(d: seq<Cell>)
    requires d == [Some(0.0), Some(0.0), Some(-0.25), Some(1.1 / 1.2 - 1.0)]
    ensures Trough(d) == Some(-0.25)
  {
    ExampleRatios();
    var r := Trough(d);
    assert d[2].Some?;
    var t :| 0 <= t < 4 && r == d[t];
    assert r.value <= -0.25;
  }

  /** Total return and the guards of the annual return on a series with no present value. */
  lemma EmptyEquity(equity: Series, pow: (real, real) -> real)
    requires forall k :: 0 <= k < |equity.points| ==> equity.points[k].value.None?
    ensures TotalReturn(equity) == 0.0 && AnnualReturn(equity, pow) == 0.0
  {
    NothingPresent(equity.points);
  }

  lemma {:induction false} NothingPresent(ps: seq<Point>)
    requires forall k :: 0 <= k < |ps| ==> ps[k].value.None?
    ensures Present(Values(ps)) == []
    decreases |ps|
  {
    if ps != [] {
      assert Values(ps)[1..] == Values(ps[1..]);
      NothingPresent(ps[1..]);
    }
  }

  /** The one-row table `calculate_metrics` returns: its index, its column labels and the one
      row of figures, `row[i]` under `columns[i]`. */
  datatype Report = Report(index: seq<string>, columns: seq<string>, row: seq<Option<real>>)

  const Labels: seq<string> := ["Total Return", "Annual Return", "Annual Volatility", "Sharpe Ratio", "Max Drawdown"]

  /** Five distinct labels. */
  lemma LabelsDistinct()
    ensures |Labels| == 5 && forall i, j :: 0 <= i < j < |Labels| ==> Labels[i] != Labels[j]
  {
  }

  /** `calculate_metrics(portfolio_return, equity, risk_free_rate)`: one record labelled
      "Strategy" holding the five figures, each under its own label; the total and annual returns
      are always defined. */
  function CalculateMetrics(daily: Series, equity: Series, riskFree: real, sqrt: real -> real, pow: (real, real) -> real)
    : (r: Report)
    ensures r.index == ["Strategy"] && r.columns == Labels && |r.row| == |r.columns|
    ensures r.row[0] == Some(TotalReturn(equity)) && r.row[1] == Some(AnnualReturn(equity, pow))
    ensures r.row[2] == AnnualVolatility(daily, sqrt) && r.row[3] == Sharpe(daily, riskFree, sqrt)
    ensures r.row[4] == MaxDrawdown(equity)
  {
    Report(["Strategy"], Labels,
      [Some(TotalReturn(equity)), Some(AnnualReturn(equity, pow)), AnnualVolatility(daily, sqrt),
       Sharpe(daily, riskFree, sqrt), MaxDrawdown(equity)])
  }
}
