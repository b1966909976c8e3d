/** `factors/moving_average.py`: the per-code simple moving average `SMA_<window>`, and the
    rolling mean it is built from. */
module MovingAverage {
  import opened Wrappers
  import opened Frames
  import opened GroupBy
  import opened Stats
  import opened FactorBase

  /** `x.rolling(w).mean()` at position `i`: the mean of the `w` values ending at `i`, missing
      until a full window exists or when any value in the window is missing (pandas' default
      `min_periods` is the window itself); a zero-width window never holds a value. */
  function WindowMean(x: seq<Cell>, w: nat, i: nat): (m: Cell)
    requires i < |x|
    ensures m.Some? ==> 0 < w <= i + 1 && AllPresent(x[i + 1 - w..i + 1])
  {
    if w == 0 || i + 1 < w then None
    else
      var win := x[i + 1 - w..i + 1];
      if AllPresent(win) then
        PresentAll(win);
        Some(Mean(Present(win)))
      else None
  }

  /** A full window has the mean of its values when none is missing, and no value otherwise. */
  lemma WindowMeanFull(x: seq<Cell>, w: nat, i: nat)
    requires i < |x| && 0 < w <= i + 1
    ensures AllPresent(x[i + 1 - w..i + 1]) ==> |Present(x[i + 1 - w..i + 1])| == w
    ensures WindowMean(x, w, i)
            == if AllPresent(x[i + 1 - w..i + 1]) then Some(Sum(Present(x[i + 1 - w..i + 1])) / (w as real)) else None
  {
    if AllPresent(x[i + 1 - w..i + 1]) {
      PresentAll(x[i + 1 - w..i + 1]);
    }
  }

  /** The window at `i` looks at nothing after `i`. */
  lemma WindowMeanCausal(x: seq<Cell>, w: nat, i: nat, n: nat)
    requires i < n <= |x|
    ensures WindowMean(x, w, i) == WindowMean(x[..n], w, i)
  {
    if 0 < w <= i + 1 {
      assert x[..n][i + 1 - w..i + 1] == x[i + 1 - w..i + 1];
    }
  }

  /** The rolling mean of a whole series. */
  function Rolling(w: nat): seq<Cell> -> seq<Cell> {
    x => seq(|x|, i requires 0 <= i < |x| => WindowMean(x, w, i))
  }

  lemma RollingLength(w: nat)
    ensures LengthPreserving(Rolling(w))
  {
    forall s: seq<Cell>
      ensures |Rolling(w)(s)| == |s|
    {
    }
  }

  /** Decimal digits of `n`, most significant first. */
  function NatToString(n: nat): (s: string)
    ensures |s| > 0 && forall k :: 0 <= k < |s| ==> '0' <= s[k] <= '9'
    decreases n
  {
    var d := [(('0' as int) + n % 10) as char];
    if n < 10 then d else NatToString(n / 10) + d
  }

  /** Python's `str` of an integer. */
  function IntToString(n: int): string {
    if n < 0 then "-" + NatToString(-n) else NatToString(n)
  }

  /** `f"SMA_{window}"` */
  function SmaName(window: int): string {
    "SMA_" + IntToString(window)
  }

  lemma SmaNames()
    ensures SmaName(5) == "SMA_5" && SmaName(20) == "SMA_20"
  {
    assert NatToString(2) == "2";
  }

  /** The table `calculate_sma` leaves behind. A negative window is refused by `rolling` with a
      ValueError once there is a group to roll over, after both columns have been looked up. */
  function Sma(f: Frame, priceCol: string, window: int): (r: Result<Frame, Error>)
    ensures r.Failure? ==> (r.error.KeyError? <==> "code" !in f.columns || priceCol !in f.columns)
    ensures r.Failure? && r.error.ValueError? ==> window < 0 && |f.rows| > 0
    ensures window >= 0 ==> r == (RollingLength(window); AddGrouped(f, priceCol, SmaName(window), Rolling(window)))
  {
    RollingLength(if window < 0 then 0 else window);
    if window < 0 && "code" in f.columns && priceCol in f.columns && |f.rows| > 0 then
      Failure(ValueError("window must be an integer 0 or greater"))
    else AddGrouped(f, priceCol, SmaName(window), Rolling(if window < 0 then 0 else window))
  }

  /** Row `i` holds the rolling mean of its own code's closes, at its place in that code. */
  lemma SmaRow(f: Frame, priceCol: string, window: nat, i: nat)
    requires Sma(f, priceCol, window).Success? && i < |f.rows|
    ensures GroupPos(f.rows, i) < |GroupValues(f.rows, f.rows[i].code, priceCol)|
    ensures Get(Sma(f, priceCol, window).value.rows[i], SmaName(window))
            == WindowMean(GroupValues(f.rows, f.rows[i].code, priceCol), window, GroupPos(f.rows, i))
  {
    RollingLength(window);
    AddGroupedAt(f, priceCol, SmaName(window), Rolling(window), i);
  }

  /** Rows before the `window`-th of their own code carry no average. */
  lemma SmaHead(f: Frame, priceCol: string, window: nat, i: nat)
    requires Sma(f, priceCol, window).Success? && i < |f.rows| && GroupPos(f.rows, i) + 1 < window
    ensures Get(Sma(f, priceCol, window).value.rows[i], SmaName(window)) == None
  {
    SmaRow(f, priceCol, window, i);
  }

  /** No lookahead and nothing across codes: row `i`'s average is fixed by the closes of its own
      code at or before row `i`. */
  lemma SmaNoLookahead(f: Frame, priceCol: string, window: nat, i: nat)
    requires Sma(f, priceCol, window).Success? && i < |f.rows|
    ensures var h := GroupValues(f.rows[..i + 1], f.rows[i].code, priceCol);
            && GroupPos(f.rows, i) < |h|
            && Get(Sma(f, priceCol, window).value.rows[i], SmaName(window)) == WindowMean(h, window, GroupPos(f.rows, i))
  {
    SmaRow(f, priceCol, window, i);
    HistoryMean(f.rows, priceCol, window, i);
  }

  /** The rolling mean at a row's place in its group only reads the group up to that row. */
  lemma HistoryMean(rows: seq<Row>, priceCol: string, window: nat, i: nat)
    requires i < |rows|
    ensures var g, h := GroupValues(rows, rows[i].code, priceCol), GroupValues(rows[..i + 1], rows[i].code, priceCol);
            && GroupPos(rows, i) < |h| && GroupPos(rows, i) < |g|
            && WindowMean(g, window, GroupPos(rows, i)) == WindowMean(h, window, GroupPos(rows, i))
  {
    var g, k := GroupValues(rows, rows[i].code, priceCol), GroupPos(rows, i);
    GroupHistory(rows, priceCol, i);
    WindowMeanCausal(g, window, k, k + 1);
  }

  /** `calculate_sma(df, "code", priceCol, window)` with the source's defaults: writes into `df`
      and returns it. */
  method CalculateSma(df: DataFrame, priceCol: string := "close", window: int := 5) returns (r: Result<DataFrame, Error>)
    modifies df
    ensures r.Success? <==> Sma(old(df.Value()), priceCol, window).Success?
    ensures r.Success? ==> r.value == df && df.Value() == Sma(old(df.Value()), priceCol, window).value
    ensures r.Failure? ==> r.error == Sma(old(df.Value()), priceCol, window).error && df.Value() == old(df.Value())
  {
    var w: nat := if window < 0 then 0 else window;
    RollingLength(w);
    if window < 0 && "code" in df.columns && priceCol in df.columns && |df.rows| > 0 {
      return Failure(ValueError("window must be an integer 0 or greater"));
    }
    r := AddGroupedColumn(df, priceCol, SmaName(window), Rolling(w));
  }
}
