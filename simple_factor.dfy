/** `factors/simple_factor.py`: the per-code rolling mean of `close`, written as `moving_average`. */
module SimpleFactor {
  import opened Wrappers
  import opened Frames
  import opened GroupBy
  import opened Stats
  import opened FactorBase
  import opened MovingAverage

  /** The table `calculate_moving_average(df, window)` leaves behind: the same grouped rolling
      mean as `calculate_sma`, over `close`, into `moving_average`. */
  function MovingAverageFrame(f: Frame, window: int): (r: Result<Frame, Error>)
    ensures r.Failure? ==> (r.error.KeyError? <==> "code" !in f.columns || "close" !in f.columns)
    ensures r.Failure? && r.error.ValueError? ==> window < 0 && |f.rows| > 0
    ensures window >= 0 ==> r == (RollingLength(window); AddGrouped(f, "close", "moving_average", Rolling(window)))
  {
    RollingLength(if window < 0 then 0 else window);
    if window < 0 && "code" in f.columns && "close" in f.columns && |f.rows| > 0 then
      Failure(ValueError("window must be an integer 0 or greater"))
    else AddGrouped(f, "close", "moving_average", Rolling(if window < 0 then 0 else window))
  }

  /** With a window of two, the mean at `i` is the mean of the values at `i - 1` and `i`. */
  lemma PairMean(x: seq<Cell>, i: nat)
    requires 0 < i < |x|
    ensures WindowMean(x, 2, i).Some? <==> x[i - 1].Some? && x[i].Some?
    ensures WindowMean(x, 2, i).Some? ==> WindowMean(x, 2, i).value == (x[i - 1].value + x[i].value) / 2.0
  {
    var win := x[i - 1..i + 1];
    assert win == [x[i - 1], x[i]];
    WindowMeanFull(x, 2, i);
    if AllPresent(win) {
      var a, b := x[i - 1].value, x[i].value;
      assert win[1..] == [x[i]] && win[1..][1..] == [];
      assert Present(win) == [a, b];
      assert [a, b][1..] == [b] && [b][1..] == [];
      assert Sum([b]) == b + Sum([]);
      assert Sum([a, b]) == a + Sum([b]);
      assert Sum(Present(win)) == a + b;
    } else {
      assert !(x[i - 1].Some? && x[i].Some?);
    }
  }

  /** With the default window, the first row of every code has no average. */
  lemma FirstRowMissing(f: Frame, i: nat)
    requires MovingAverageFrame(f, 2).Success? && i < |f.rows|
    requires forall j :: 0 <= j < i ==> f.rows[j].code != f.rows[i].code
    ensures Get(MovingAverageFrame(f, 2).value.rows[i], "moving_average") == None
  {
    PairRow(f, i);
    FirstInGroup(f.rows, i);
  }

  /** Each row holds the two-value rolling mean of its own code's closes at its place in that code. */
  lemma PairRow(f: Frame, i: nat)
    requires MovingAverageFrame(f, 2).Success? && i < |f.rows|
    ensures GroupPos(f.rows, i) < |GroupValues(f.rows, f.rows[i].code, "close")|
    ensures Get(MovingAverageFrame(f, 2).value.rows[i], "moving_average")
            == WindowMean(GroupValues(f.rows, f.rows[i].code, "close"), 2, GroupPos(f.rows, i))
  {
    RollingLength(2);
    AddGroupedAt(f, "close", "moving_average", Rolling(2), i);
  }

  /** With the default window, a row that follows a row of its own code gets the mean of the two
      closes, or nothing when either close is missing. */
  lemma NextRowPair(rows: seq<Row>, i: nat)
    requires 0 < i < |rows| && rows[i - 1].code == rows[i].code
    ensures GroupPos(rows, i) < |GroupValues(rows, rows[i].code, "close")|
    ensures var a, b, m := Get(rows[i - 1], "close"), Get(rows[i], "close"),
                           WindowMean(GroupValues(rows, rows[i].code, "close"), 2, GroupPos(rows, i));
            && (m.Some? <==> a.Some? && b.Some?)
            && (m.Some? ==> m.value == (a.value + b.value) / 2.0)
  {
    var g, p := GroupValues(rows, rows[i].code, "close"), GroupPos(rows, i);
    PreviousInGroup(rows, "close", i);
    OwnValue(rows, "close", i);
    PairMean(g, p);
  }

  /** `calculate_moving_average(df, window=2)`: writes into `df` and returns it. */
  method CalculateMovingAverage(df: DataFrame, window: int := 2) returns (r: Result<DataFrame, Error>)
    modifies df
    ensures r.Success? <==> MovingAverageFrame(old(df.Value()), window).Success?
    ensures r.Success? ==> r.value == df && df.Value() == MovingAverageFrame(old(df.Value()), window).value
    ensures r.Failure? ==> r.error == MovingAverageFrame(old(df.Value()), window).error && df.Value() == old(df.Value())
  {
    var w: nat := if window < 0 then 0 else window;
    RollingLength(w);
    if window < 0 && "code" in df.columns && "close" in df.columns && |df.rows| > 0 {
      return Failure(ValueError("window must be an integer 0 or greater"));
    }
    r := AddGroupedColumn(df, "close", "moving_average", Rolling(w));
  }
}
