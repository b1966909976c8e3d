/** `backtest/engine.py`: from a signalled price table to per-stock returns and lagged positions,
    the equal-weight daily portfolio return, and the equity curve. */
module Engine {
  import opened Wrappers
  import opened Frames
  import opened Ordering
  import opened GroupBy
  import opened Stats
  import opened DataUtils

  // ---------------------------------------------------------------- prepare_backtest_data

  /** `cur / prev - 1`; no value without both closes, or when the previous close is 0. */
  function Change(prev: Cell, cur: Cell): Cell {
    if prev.Some? && cur.Some? && prev.value != 0.0 then Some(cur.value / prev.value - 1.0) else None
  }

  /** `pct_change()` at position `i` of one group: the first position has no predecessor. */
  function PctChangeAt(x: seq<Cell>, i: nat): Cell
    requires i < |x|
  {
    if i == 0 then None else Change(x[i - 1], x[i])
  }

  /** `groupby(...)["close"].pct_change()` on one group: nothing at the first position, then each
      price against the one before it. */
  function PctChange(): (fn: seq<Cell> -> seq<Cell>)
    ensures LengthPreserving(fn)
  {
    var fn := x => seq(|x|, i requires 0 <= i < |x| => PctChangeAt(x, i));
    assert forall x :: |fn(x)| == |x|;
    fn
  }

  /** `fillna(0)` of one value. */
  function Fill(v: Cell): Cell {
    if v.None? then Some(0.0) else v
  }

  /** `shift(1).fillna(0)` at position `i` of one group: the previous signal, or 0 at the start
      of the group and where the previous signal is missing. */
  function LagFillAt(x: seq<Cell>, i: nat): Cell
    requires i < |x|
  {
    if i == 0 then Some(0.0) else Fill(x[i - 1])
  }

  /** `groupby(...)["signal"].shift(1).fillna(0)` on one group: 0 at the first position, then the
      signal before, with a missing one read as 0. */
  function LagFill(): (fn: seq<Cell> -> seq<Cell>)
    ensures LengthPreserving(fn)
  {
    var fn := x => seq(|x|, i requires 0 <= i < |x| => LagFillAt(x, i));
    assert forall x :: |fn(x)| == |x|;
    fn
  }
  /** A group's returns: none at its first row, then each close against the close before. */
  lemma PctChangeSteps(x: seq<Cell>, i: nat)
    requires i < |x|
    ensures |PctChange()(x)| == |x|
    ensures i == 0 ==> PctChange()(x)[i] == None
    ensures i > 0 ==> PctChange()(x)[i] == Change(x[i - 1], x[i])
  {
  }

  /** A group's positions: 0 at its first row, then the signal before, with a missing one read
      as 0. */
  lemma LagFillSteps(x: seq<Cell>, i: nat)
    requires i < |x|
    ensures |LagFill()(x)| == |x|
    ensures i == 0 ==> LagFill()(x)[i] == Some(0.0)
    ensures i > 0 ==> LagFill()(x)[i] == Fill(x[i - 1])
  {
  }


  /** The table `prepare_backtest_data` returns. The timestamps are made a column first; sorting
      by (code, datetime) needs `code`, the returns need `close` and the positions `signal`, each
      a KeyError when absent, in that order. */
  function Prepare(f: Frame): (r: Result<Frame, Error>)
    ensures EnsureDatetime(f, "datetime").Failure? ==> r == Failure(EnsureDatetime(f, "datetime").error)
    ensures EnsureDatetime(f, "datetime").Success? ==>
              var cols := EnsureDatetime(f, "datetime").value.columns;
              && (r.Failure? <==> "code" !in cols || "close" !in cols || "signal" !in cols)
              && (r.Failure? ==> r.error == KeyError([if "code" !in cols then "code" else if "close" !in cols then "close" else "signal"]))
              && (r.Success? ==> r.value.columns == WithName(WithName(cols, "return"), "position"))
    ensures r.Success? ==> r.value.index == RangeIndex && |r.value.rows| == |f.rows|
  {
    var g :- EnsureDatetime(f, "datetime");
    if "code" !in g.columns then Failure(KeyError(["code"]))
    else
      var s := g.(rows := SortRows(g.rows));
      if "close" !in s.columns then Failure(KeyError(["close"]))
      else
        var h := Assign(s, "return", GroupTransform(s.rows, "close", PctChange()));
        if "signal" !in h.columns then Failure(KeyError(["signal"]))
        else Success(Assign(h, "position", GroupTransform(h.rows, "signal", LagFill())))
  }

  /** A group transform reads nothing but the codes and the one column. */
  lemma TransformCongruent(r1: seq<Row>, r2: seq<Row>, c: string, fn: seq<Cell> -> seq<Cell>)
    requires LengthPreserving(fn) && Codes(r1) == Codes(r2) && Column(r1, c) == Column(r2, c)
    ensures GroupTransform(r1, c, fn) == GroupTransform(r2, c, fn)
  {
  }

  /** Row by row, the prepared table is the input sorted by (code, datetime) with the group-wise
      `return` of `close` and `position` of `signal` added; nothing else changes. */
  lemma PrepareRows(f: Frame)
    requires Prepare(f).Success?
    ensures var s, out := SortRows(f.rows), Prepare(f).value.rows;
            && multiset(s) == multiset(f.rows) && |out| == |s|
            && (forall i :: 0 <= i < |s| ==> out[i].code == s[i].code && out[i].datetime == s[i].datetime)
            && (forall i, d :: 0 <= i < |s| && d != "return" && d != "position" ==> Get(out[i], d) == Get(s[i], d))
            && (forall i :: 0 <= i < |s| ==> Get(out[i], "return") == GroupTransform(s, "close", PctChange())[i])
            && (forall i :: 0 <= i < |s| ==> Get(out[i], "position") == GroupTransform(s, "signal", LagFill())[i])
  {
    var g := EnsureDatetime(f, "datetime").value;
    var s := g.(rows := SortRows(g.rows));
    var h := Assign(s, "return", GroupTransform(s.rows, "close", PctChange()));
    assert Column(h.rows, "signal") == Column(s.rows, "signal");
    TransformCongruent(h.rows, s.rows, "signal", LagFill());
  }

  /** The prepared rows are sorted ascending by (code, datetime). */
  lemma PrepareSorted(f: Frame)
    requires Prepare(f).Success?
    ensures var out := Prepare(f).value.rows;
            forall i, j :: 0 <= i < j < |out| ==> RowLe(out[i], out[j])
  {
    PrepareRows(f);
    var s, out := SortRows(f.rows), Prepare(f).value.rows;
    forall i, j | 0 <= i < j < |out|
      ensures RowLe(out[i], out[j])
    {
      assert RowLe(s[i], s[j]);
    }
  }

  /** In rows sorted by code, a row whose predecessor has another code opens its group. */
  lemma SortedGroupStart(rows: seq<Row>, i: nat)
    requires forall a, b :: 0 <= a < b < |rows| ==> RowLe(rows[a], rows[b])
    requires 0 < i < |rows| && rows[i - 1].code != rows[i].code
    ensures forall j :: 0 <= j < i ==> rows[j].code != rows[i].code
  {
    forall j | 0 <= j < i
      ensures rows[j].code != rows[i].code
    {
      assert StrLess(rows[i - 1].code, rows[i].code);
      if j < i - 1 && rows[j].code == rows[i].code {
        assert RowLe(rows[j], rows[i - 1]);
        StrLessAsymmetric(rows[i - 1].code, rows[i].code);
        assert false;
      }
    }
  }

  /** `return` of row `i`: missing on the first row of a code, and `close[i] / close[i - 1] - 1`
      when row `i - 1` is the previous row of the same code. */
  lemma ReturnRows(rows: seq<Row>, i: nat)
    requires i < |rows|
    ensures (forall j :: 0 <= j < i ==> rows[j].code != rows[i].code) ==>
              GroupTransform(rows, "close", PctChange())[i] == None
    ensures i > 0 && rows[i - 1].code == rows[i].code ==>
              GroupTransform(rows, "close", PctChange())[i] == Change(Get(rows[i - 1], "close"), Get(rows[i], "close"))
  {
    GroupTransformAt(rows, "close", PctChange(), i);
    FirstInGroup(rows, i);
    if i > 0 && rows[i - 1].code == rows[i].code {
      PreviousInGroup(rows, "close", i);
      OwnValue(rows, "close", i);
    }
  }

  /** `position` of row `i`: 0 on the first row of a code, and otherwise the previous signal of
      the same code (0 where that signal is missing). */
  lemma PositionRows(rows: seq<Row>, i: nat)
    requires i < |rows|
    ensures (forall j :: 0 <= j < i ==> rows[j].code != rows[i].code) ==>
              GroupTransform(rows, "signal", LagFill())[i] == Some(0.0)
    ensures i > 0 && rows[i - 1].code == rows[i].code ==>
              GroupTransform(rows, "signal", LagFill())[i] == Fill(Get(rows[i - 1], "signal"))
  {
    GroupTransformAt(rows, "signal", LagFill(), i);
    FirstInGroup(rows, i);
    if i > 0 && rows[i - 1].code == rows[i].code {
      PreviousInGroup(rows, "signal", i);
    }
  }

  /** The position a group's history implies: its last signal, filled; 0 for no history. */
  function LastSignal(h: seq<Cell>): Cell {
    if h == [] then Some(0.0) else Fill(h[|h| - 1])
  }

  /** No lookahead: row `i`'s position is fixed by the signals of the earlier rows of its code;
      its own signal and every later row play no part. */
  lemma PositionHistory(rows: seq<Row>, i: nat)
    requires i < |rows|
    ensures GroupTransform(rows, "signal", LagFill())[i] == LastSignal(GroupValues(rows[..i], rows[i].code, "signal"))
  {
    GroupTransformAt(rows, "signal", LagFill(), i);
    GroupHistory(rows, "signal", i);
  }

  /** In the prepared table, row `i`'s return and position follow the rows around it. */
  lemma PrepareReturnPosition(f: Frame, i: nat)
    requires Prepare(f).Success? && i < |f.rows|
    ensures var out := Prepare(f).value.rows;
            && (i == 0 || out[i - 1].code != out[i].code ==>
                  Get(out[i], "return") == None && Get(out[i], "position") == Some(0.0))
            && (i > 0 && out[i - 1].code == out[i].code ==>
                  && Get(out[i], "return") == Change(Get(out[i - 1], "close"), Get(out[i], "close"))
                  && Get(out[i], "position") == Fill(Get(out[i - 1], "signal")))
  {
    PrepareRows(f);
    var s := SortRows(f.rows);
    ReturnRows(s, i);
    PositionRows(s, i);
    if i > 0 && s[i - 1].code != s[i].code {
      SortedGroupStart(s, i);
    }
  }

  /** Without a `datetime` column or a timestamp index that becomes one, the preparation fails
      before anything is computed, with a KeyError for the column when no index name clashes. */
  lemma PrepareNeedsDatetime(f: Frame)
    requires "datetime" !in f.columns
    requires f.index.RangeIndex? || f.index.name != Some("datetime")
    ensures Prepare(f).Failure?
    ensures f.index.RangeIndex? || ResetName(f) !in f.columns ==> Prepare(f).error == KeyError(["datetime"])
  {
    NoDatetimeFails(f);
  }

  /** `prepare_backtest_data(df)`: works on a copy; `df` itself is not modified. */
  method PrepareBacktestData(df: DataFrame) returns (r: Result<DataFrame, Error>)
    ensures r.Success? <==> Prepare(df.Value()).Success?
    ensures r.Success? ==> fresh(r.value) && r.value.Value() == Prepare(df.Value()).value
    ensures r.Failure? ==> r.error == Prepare(df.Value()).error
  {
    var e := EnsureDatetimeColumn(df);
    if e.Failure? {
      return Failure(e.error);
    }
    var c := e.value;
    if "code" !in c.columns {
      return Failure(KeyError(["code"]));
    }
    c.SortValues();
    if "close" !in c.columns {
      return Failure(KeyError(["close"]));
    }
    c.SetColumn("return", GroupTransform(c.rows, "close", PctChange()));
    if "signal" !in c.columns {
      return Failure(KeyError(["signal"]));
    }
    c.SetColumn("position", GroupTransform(c.rows, "signal", LagFill()));
    r := Success(c);
  }

  // ---------------------------------------------------------------- calculate_strategy_return

  /** `position * return` of one row; missing when either is. */
  function Mul(a: Cell, b: Cell): Cell {
    if a.Some? && b.Some? then Some(a.value * b.value) else None
  }

  /** `df["position"] * df["return"]` */
  function StrategyColumn(rows: seq<Row>): (c: seq<Cell>)
    ensures |c| == |rows|
  {
    seq(|rows|, i requires 0 <= i < |rows| => Mul(Get(rows[i], "position"), Get(rows[i], "return")))
  }

  /** The timestamp of every row, in table order. */
  function DatesOf(rows: seq<Row>): (d: seq<int>)
    ensures |d| == |rows| && forall i :: 0 <= i < |rows| ==> d[i] == rows[i].datetime
  {
    seq(|rows|, i requires 0 <= i < |rows| => rows[i].datetime)
  }

  /** The values of the rows dated `d`, in table order. */
  function OnDate(dates: seq<int>, vals: seq<Cell>, d: int): seq<Cell>
    requires |vals| == |dates|
    decreases |dates|
  {
    if dates == [] then []
    else (if dates[0] == d then [vals[0]] else []) + OnDate(dates[1..], vals[1..], d)
  }

  /** The positions of the rows dated `d`, ascending: every such position once. */
  function DateIndices(dates: seq<int>, d: int): (idx: seq<nat>)
    ensures forall k :: 0 <= k < |idx| ==> idx[k] < |dates| && dates[idx[k]] == d
    ensures forall k, l :: 0 <= k < l < |idx| ==> idx[k] < idx[l]
    ensures forall i :: 0 <= i < |dates| && dates[i] == d ==> i in idx
    decreases |dates|
  {
    if dates == [] then []
    else
      var n := |dates| - 1;
      assert forall i :: 0 <= i < n ==> dates[..n][i] == dates[i];
      var rest := DateIndices(dates[..n], d);
      if dates[n] == d then rest + [n] else rest
  }

  /** A row added at the end joins its date's group at the end. */
  lemma {:induction false} OnDateSnoc(dates: seq<int>, vals: seq<Cell>, e: int, v: Cell, d: int)
    requires |vals| == |dates|
    ensures OnDate(dates + [e], vals + [v], d) == OnDate(dates, vals, d) + (if e == d then [v] else [])
    decreases |dates|
  {
    if dates == [] {
      assert ([] + [e])[1..] == [] && ([] + [v])[1..] == [];
    } else {
      assert (dates + [e])[1..] == dates[1..] + [e];
      assert (vals + [v])[1..] == vals[1..] + [v];
      OnDateSnoc(dates[1..], vals[1..], e, v, d);
    }
  }

  /** A date's group is the subsequence of the rows with that date: its `k`-th value is the
      value of the `k`-th row so dated, in table order. */
  lemma {:induction false} OnDateMembers(dates: seq<int>, vals: seq<Cell>, d: int)
    requires |vals| == |dates|
    ensures |OnDate(dates, vals, d)| == |DateIndices(dates, d)|
    ensures forall k :: 0 <= k < |OnDate(dates, vals, d)| ==> OnDate(dates, vals, d)[k] == vals[DateIndices(dates, d)[k]]
    decreases |dates|
  {
    if dates != [] {
      var n := |dates| - 1;
      OnDateMembers(dates[..n], vals[..n], d);
      assert dates == dates[..n] + [dates[n]] && vals == vals[..n] + [vals[n]];
      OnDateSnoc(dates[..n], vals[..n], dates[n], vals[n], d);
    }
  }

  /** A date's group has a present value exactly when some row of that date has one. */
  lemma OnDateDefined(dates: seq<int>, vals: seq<Cell>, d: int)
    requires |vals| == |dates|
    ensures |Present(OnDate(dates, vals, d))| > 0 <==> exists i :: 0 <= i < |dates| && dates[i] == d && vals[i].Some?
  {
    var s, idx := OnDate(dates, vals, d), DateIndices(dates, d);
    OnDateMembers(dates, vals, d);
    PresentNone(s);
    if exists i :: 0 <= i < |dates| && dates[i] == d && vals[i].Some? {
      var i :| 0 <= i < |dates| && dates[i] == d && vals[i].Some?;
      assert i in idx;
      var k :| 0 <= k < |idx| && idx[k] == i;
      assert s[k].Some?;
    }
    if |Present(s)| > 0 {
      var k :| 0 <= k < |s| && s[k].Some?;
      assert dates[idx[k]] == d && vals[idx[k]].Some?;
    }
  }

  /** `groupby("datetime")[c].mean()` for one date: the mean of that date's present values; no
      value when none is present. */
  function DailyMean(dates: seq<int>, vals: seq<Cell>, d: int): (m: Cell)
    requires |vals| == |dates|
    ensures m.Some? <==> exists i :: 0 <= i < |dates| && dates[i] == d && vals[i].Some?
  {
    OnDateDefined(dates, vals, d);
    var p := Present(OnDate(dates, vals, d));
    if |p| == 0 then None else Some(Mean(p))
  }

  /** Two stocks on one day with strategy returns 2% and -1%: the portfolio makes 0.5%. */
  lemma DailyMeanExample(d: int)
    ensures DailyMean([d, d], [Some(0.02), Some(-0.01)], d) == Some(0.005)
  {
    var dates, vals := [d, d], [Some(0.02), Some(-0.01)];
    assert dates[1..] == [d] && vals[1..] == [Some(-0.01)] && dates[1..][1..] == [];
    assert OnDate(dates[1..], vals[1..], d) == [Some(-0.01)];
    assert OnDate(dates, vals, d) == [Some(0.02), Some(-0.01)];
    PresentAll(OnDate(dates, vals, d));
    var p := Present(OnDate(dates, vals, d));
    assert p == [0.02, -0.01];
    assert p[1..] == [-0.01] && p[1..][1..] == [];
    assert Sum([-0.01]) == -0.01 + Sum([]);
    assert Sum(p) == 0.02 + Sum([-0.01]);
  }

  predicate IntLe(a: int, b: int) {
    a <= b
  }

  lemma IntLeTotalPreorder()
    ensures TotalPreorder(IntLe)
  {
  }

  /** Adjacent repeats dropped. */
  function Dedup(s: seq<int>): (r: seq<int>)
    ensures |r| <= |s|
    decreases |s|
  {
    if |s| <= 1 then s
    else if s[0] == s[1] then Dedup(s[1..])
    else [s[0]] + Dedup(s[1..])
  }

  /** Of ascending values, the repeats dropped: strictly ascending, holding the same values. */
  lemma {:induction false} DedupSorted(s: seq<int>)
    requires forall i, j :: 0 <= i < j < |s| ==> s[i] <= s[j]
    ensures forall i, j :: 0 <= i < j < |Dedup(s)| ==> Dedup(s)[i] < Dedup(s)[j]
    ensures forall x :: x in Dedup(s) <==> x in s
    decreases |s|
  {
    if |s| > 1 {
      var t := Dedup(s[1..]);
      DedupSorted(s[1..]);
      assert forall x :: x in s <==> x == s[0] || x in s[1..];
      if s[0] != s[1] {
        forall j | 0 <= j < |t|
          ensures s[0] < t[j]
        {
          assert t[j] in t;
          assert t[j] in s[1..];
          var k :| 0 <= k < |s[1..]| && s[1..][k] == t[j];
          assert s[0] <= s[1] <= s[k + 1];
        }
        var r := [s[0]] + t;
        forall i, j | 0 <= i < j < |r|
          ensures r[i] < r[j]
        {
          if i > 0 {
            assert r[i] == t[i - 1] && r[j] == t[j - 1];
          } else {
            assert r[j] == t[j - 1];
          }
        }
      }
    }
  }

  /** The distinct dates of the rows, ascending (`groupby` sorts its keys, `sort_index` keeps them
      so). */
  function Dates(rows: seq<Row>): seq<int> {
    IntLeTotalPreorder();
    Dedup(SortBy(DatesOf(rows), IntLe))
  }

  lemma DatesOrdered(rows: seq<Row>)
    ensures var ds := Dates(rows);
            && (forall i, j :: 0 <= i < j < |ds| ==> ds[i] < ds[j])
            && (forall d :: d in ds <==> exists i :: 0 <= i < |rows| && rows[i].datetime == d)
  {
    IntLeTotalPreorder();
    var s := SortBy(DatesOf(rows), IntLe);
    forall i, j | 0 <= i < j < |s|
      ensures s[i] <= s[j]
    {
      assert IntLe(s[i], s[j]);
    }
    DedupSorted(s);
    forall d
      ensures d in s <==> exists i :: 0 <= i < |rows| && rows[i].datetime == d
    {
      assert d in s <==> d in multiset(s);
      assert d in DatesOf(rows) <==> d in multiset(DatesOf(rows));
      if d in DatesOf(rows) {
        var i :| 0 <= i < |rows| && DatesOf(rows)[i] == d;
        assert rows[i].datetime == d;
      }
      if exists i :: 0 <= i < |rows| && rows[i].datetime == d {
        var i :| 0 <= i < |rows| && rows[i].datetime == d;
        assert DatesOf(rows)[i] == d;
      }
    }
  }

  /** The portfolio table: one row per date, ascending, under a timestamp index named
      "datetime"; its one column holds the mean strategy return of the date. Its rows carry no
      code. */
  function Portfolio(rows: seq<Row>): (out: Frame)
    ensures out.columns == ["portfolio_return"] && out.index == DatetimeIndex(Some("datetime"))
    ensures forall i, j :: 0 <= i < j < |out.rows| ==> out.rows[i].datetime < out.rows[j].datetime
    ensures forall d :: d in DatesOf(out.rows) <==> d in DatesOf(rows)
    ensures forall k :: 0 <= k < |out.rows| ==>
              Get(out.rows[k], "portfolio_return")
              == DailyMean(DatesOf(rows), Column(rows, "strategy_return"), out.rows[k].datetime)
  {
    var ds := Dates(rows);
    var rets := Column(rows, "strategy_return");
    var out := Frame(["portfolio_return"], DatetimeIndex(Some("datetime")),
                     seq(|ds|, k requires 0 <= k < |ds| =>
                           Row("", ds[k], map["portfolio_return" := DailyMean(DatesOf(rows), rets, ds[k])])));
    PortfolioDates(rows, out.rows);
    out
  }

  lemma PortfolioDates(rows: seq<Row>, out: seq<Row>)
    requires var ds := Dates(rows); |out| == |ds| && forall k :: 0 <= k < |ds| ==> out[k].datetime == ds[k]
    ensures forall i, j :: 0 <= i < j < |out| ==> out[i].datetime < out[j].datetime
    ensures forall d :: d in DatesOf(out) <==> d in DatesOf(rows)
  {
    DatesOrdered(rows);
    assert DatesOf(out) == Dates(rows);
    forall d
      ensures d in DatesOf(rows) <==> exists i :: 0 <= i < |rows| && rows[i].datetime == d
    {
      if d in DatesOf(rows) {
        var i :| 0 <= i < |rows| && DatesOf(rows)[i] == d;
      }
      if exists i :: 0 <= i < |rows| && rows[i].datetime == d {
        var i :| 0 <= i < |rows| && rows[i].datetime == d;
        assert DatesOf(rows)[i] == d;
      }
    }
  }

  /** What `calculate_strategy_return(df, rule)` returns. `position` is read before `return`, both
      before the rule is looked at; only "equal_weight" is known. */
  function StrategyReturn(f: Frame, rule: string): (r: Result<Frame, Error>)
    ensures EnsureDatetime(f, "datetime").Failure? ==> r == Failure(EnsureDatetime(f, "datetime").error)
    ensures EnsureDatetime(f, "datetime").Success? ==>
              var cols := EnsureDatetime(f, "datetime").value.columns;
              && (r.Failure? <==> "position" !in cols || "return" !in cols || rule != "equal_weight")
              && (r.Failure? ==> r.error == if "position" !in cols then KeyError(["position"])
                                              else if "return" !in cols then KeyError(["return"])
                                              else ValueError("Unknown method: " + rule))
  {
    var g :- EnsureDatetime(f, "datetime");
    if "position" !in g.columns then Failure(KeyError(["position"]))
    else if "return" !in g.columns then Failure(KeyError(["return"]))
    else
      var h := Assign(g, "strategy_return", StrategyColumn(g.rows));
      if rule == "equal_weight" then Success(Portfolio(h.rows))
      else Failure(ValueError("Unknown method: " + rule))
  }

  /** The portfolio has one row per distinct date of the input, in the order of `Dates` (strictly
      ascending, by `DatesOrdered`), and each row holds the mean of that date's present
      `position * return` values. */
  lemma PortfolioRows(f: Frame)
    requires StrategyReturn(f, "equal_weight").Success?
    ensures var out, ds := StrategyReturn(f, "equal_weight").value, Dates(f.rows);
            && out.columns == ["portfolio_return"] && out.index == DatetimeIndex(Some("datetime"))
            && |out.rows| == |ds|
            && forall k :: 0 <= k < |ds| ==>
                 && out.rows[k].datetime == ds[k]
                 && Get(out.rows[k], "portfolio_return") == DailyMean(DatesOf(f.rows), StrategyColumn(f.rows), ds[k])
  {
    var g := EnsureDatetime(f, "datetime").value;
    var h := Assign(g, "strategy_return", StrategyColumn(g.rows));
    assert DatesOf(h.rows) == DatesOf(f.rows);
    assert Column(h.rows, "strategy_return") == StrategyColumn(f.rows);
  }

  /** A rule other than "equal_weight" is refused once the columns are there. */
  lemma UnknownRuleRefused(f: Frame, rule: string)
    requires rule != "equal_weight" && "position" in f.columns && "return" in f.columns && f.index.RangeIndex?
    requires "datetime" in f.columns
    ensures StrategyReturn(f, rule) == Failure(ValueError("Unknown method: " + rule))
  {
  }

  /** `calculate_strategy_return(df, rule)`: works on a copy of `df` and returns a new table. */
  method CalculateStrategyReturn(df: DataFrame, rule: string := "equal_weight") returns (r: Result<DataFrame, Error>)
    ensures r.Success? <==> StrategyReturn(df.Value(), rule).Success?
    ensures r.Success? ==> fresh(r.value) && r.value.Value() == StrategyReturn(df.Value(), rule).value
    ensures r.Failure? ==> r.error == StrategyReturn(df.Value(), rule).error
  {
    var e := EnsureDatetimeColumn(df);
    if e.Failure? {
      return Failure(e.error);
    }
    var c := e.value;
    if "position" !in c.columns {
      return Failure(KeyError(["position"]));
    }
    if "return" !in c.columns {
      return Failure(KeyError(["return"]));
    }
    c.SetColumn("strategy_return", StrategyColumn(c.rows));
    if rule != "equal_weight" {
      return Failure(ValueError("Unknown method: " + rule));
    }
    var p := new DataFrame(Portfolio(c.rows));
    r := Success(p);
  }

  // ---------------------------------------------------------------- calculate_equity_curve

  /** The header without column `c` (what `set_index(c)` leaves). */
  function Without(columns: seq<string>, c: string): (r: seq<string>)
    ensures forall d :: d in r <==> d in columns && d != c
    decreases |columns|
  {
    if columns == [] then []
    else (if columns[0] == c then [] else [columns[0]]) + Without(columns[1..], c)
  }

  /** Row `i` stamped with timestamp `i`: `pd.to_datetime` of a positional index. */
  function Positions(rows: seq<Row>): (r: seq<Row>)
    ensures |r| == |rows|
  {
    seq(|rows|, i requires 0 <= i < |rows| => rows[i].(datetime := i))
  }

  /** The table indexed by its timestamps: `set_index("datetime")` when there is such a column,
      and otherwise a positional index converted to timestamps. */
  function Indexed(f: Frame): (g: Frame)
    ensures g.index.DatetimeIndex? && |g.rows| == |f.rows|
    ensures "datetime" in f.columns ==> g == Frame(Without(f.columns, "datetime"), DatetimeIndex(Some("datetime")), f.rows)
    ensures "datetime" !in f.columns && f.index.RangeIndex? ==>
              g.columns == f.columns && forall i :: 0 <= i < |f.rows| ==> g.rows[i].datetime == i && g.rows[i].cells == f.rows[i].cells
    ensures "datetime" !in f.columns && f.index.DatetimeIndex? ==> g == f
  {
    if "datetime" in f.columns then Frame(Without(f.columns, "datetime"), DatetimeIndex(Some("datetime")), f.rows)
    else if f.index.RangeIndex? then Frame(f.columns, DatetimeIndex(None), Positions(f.rows))
    else f
  }

  /** The order `sort_index()` establishes on a timestamp index. */
  predicate DateLe(x: Row, y: Row) {
    x.datetime <= y.datetime
  }

  lemma DateLeTotalPreorder()
    ensures TotalPreorder(DateLe)
  {
  }

  function SortByDate(rows: seq<Row>): (r: seq<Row>)
    ensures |r| == |rows| && multiset(r) == multiset(rows)
    ensures forall i, j :: 0 <= i < j < |r| ==> r[i].datetime <= r[j].datetime
  {
    DateLeTotalPreorder();
    SortByLength(rows, DateLe);
    var r := SortBy(rows, DateLe);
    assert forall i, j :: 0 <= i < j < |r| ==> DateLe(r[i], r[j]);
    r
  }

  /** `1 + r` of one return; a missing return contributes nothing to the running product. */
  function Factor(v: Cell): real {
    if v.Some? then 1.0 + v.value else 1.0
  }

  /** The running product of `1 + r` up to the end of `x`, as `cumprod` accumulates it. */
  function Compound(x: seq<Cell>): real
    decreases |x|
  {
    if x == [] then 1.0 else Compound(x[..|x| - 1]) * Factor(x[|x| - 1])
  }

  /** `(1 + r).cumprod()`: the running product at each present return; missing where the return
      is missing. */
  function Growth(x: seq<Cell>): (g: seq<Cell>)
    ensures |g| == |x|
  {
    seq(|x|, t requires 0 <= t < |x| => if x[t].None? then None else Some(Compound(x[..t + 1])))
  }

  /** The running product at `t` is present exactly when the return at `t` is, and is then the
      product of `1 + r` over the present returns up to `t`. */
  lemma GrowthAt(x: seq<Cell>, t: nat)
    requires t < |x|
    ensures Growth(x)[t].Some? <==> x[t].Some?
    ensures x[t].Some? ==> Growth(x)[t].value == Product(x[..t + 1])
  {
    CompoundProduct(x[..t + 1]);
  }

  /** The product written out from the front: Π (1 + r_i) over the present returns. */
  function Product(x: seq<Cell>): real
    decreases |x|
  {
    if x == [] then 1.0 else Factor(x[0]) * Product(x[1..])
  }

  lemma {:induction false} ProductSnoc(a: seq<Cell>, v: Cell)
    ensures Product(a + [v]) == Product(a) * Factor(v)
    decreases |a|
  {
    if a == [] {
      assert [v][1..] == [];
    } else {
      assert (a + [v])[1..] == a[1..] + [v];
      ProductSnoc(a[1..], v);
    }
  }

  /** The running product is the product of all factors so far. */
  lemma {:induction false} CompoundProduct(x: seq<Cell>)
    ensures Compound(x) == Product(x)
    decreases |x|
  {
    if x != [] {
      var n := |x| - 1;
      CompoundProduct(x[..n]);
      ProductSnoc(x[..n], x[n]);
      assert x[..n] + [x[n]] == x;
    }
  }

  /** The equity recurrence: each present return multiplies the previous equity by `1 + r`. */
  lemma EquityStep(x: seq<Cell>, t: nat)
    requires 0 < t < |x| && x[t - 1].Some? && x[t].Some?
    ensures Growth(x)[t] == Some(Growth(x)[t - 1].value * (1.0 + x[t].value))
  {
    var p := x[..t + 1];
    assert p[..t] == x[..t] && p[t] == x[t] && |p| - 1 == t;
    assert Compound(p) == Compound(x[..t]) * Factor(x[t]);
    assert Growth(x)[t] == Some(Compound(p));
    assert x[..(t - 1) + 1] == x[..t];
    assert Growth(x)[t - 1] == Some(Compound(x[..t]));
    assert Factor(x[t]) == 1.0 + x[t].value;
    assert Growth(x)[t - 1].value == Compound(x[..t]);
    assert Growth(x)[t].value == Growth(x)[t - 1].value * (1.0 + x[t].value);
  }

  /** Returns of 1%, -2% and 3% compound to 1.01, 0.9898 and 1.019494. */
  lemma GrowthExample()
    ensures Growth([Some(0.01), Some(-0.02), Some(0.03)]) == [Some(1.01), Some(0.9898), Some(1.019494)]
  {
    var x: seq<Cell> := [Some(0.01), Some(-0.02), Some(0.03)];
    assert x[..1] == [Some(0.01)] && |x[..1][..0]| == 0;
    assert Compound(x[..1]) == 1.01;
    EquityStep(x, 1);
    EquityStep(x, 2);
  }

  /** The table `calculate_equity_curve(df, capital)` returns: indexed and sorted by timestamp,
      with `equity` added; a KeyError when there is no `portfolio_return` column. */
  function EquityFrame(f: Frame, capital: real): (r: Result<Frame, Error>)
    ensures r.Failure? <==> "portfolio_return" !in Indexed(f).columns
    ensures r.Failure? ==> r.error == KeyError(["portfolio_return"])
    ensures r.Success? ==> r.value.index.DatetimeIndex? && r.value.columns == WithName(Indexed(f).columns, "equity")
  {
    var g := Indexed(f);
    var s := g.(rows := SortByDate(g.rows));
    if "portfolio_return" !in s.columns then Failure(KeyError(["portfolio_return"]))
    else Success(Assign(s, "equity", Scale(Growth(Column(s.rows, "portfolio_return")), capital)))
  }

  /** The equity table holds the indexed rows sorted by timestamp, each passed through unchanged
      but for `equity`. */
  lemma EquityRows(f: Frame, capital: real)
    requires EquityFrame(f, capital).Success?
    ensures var s, out := SortByDate(Indexed(f).rows), EquityFrame(f, capital).value.rows;
            && multiset(s) == multiset(Indexed(f).rows) && |out| == |s|
            && (forall i, j :: 0 <= i < j < |out| ==> out[i].datetime <= out[j].datetime)
            && (forall i :: 0 <= i < |s| ==> out[i].code == s[i].code && out[i].datetime == s[i].datetime)
            && (forall i, d :: 0 <= i < |s| && d != "equity" ==> Get(out[i], d) == Get(s[i], d))
  {
  }

  /** `capital` times the running product: missing where the return is missing. */
  lemma ScaledGrowthAt(x: seq<Cell>, capital: real, t: nat)
    requires t < |x|
    ensures Scale(Growth(x), capital)[t].Some? <==> x[t].Some?
    ensures x[t].Some? ==> Scale(Growth(x), capital)[t].value == Product(x[..t + 1]) * capital
  {
    CompoundProduct(x[..t + 1]);
    var g := Growth(x);
    assert g[t] == if x[t].None? then None else Some(Compound(x[..t + 1]));
    assert Scale(g, capital)[t] == ScaleCell(g[t], capital);
  }

  /** The `equity` column is the scaled running product of the sorted returns. */
  lemma EquityColumn(f: Frame, capital: real)
    requires EquityFrame(f, capital).Success?
    ensures var x := Column(SortByDate(Indexed(f).rows), "portfolio_return");
            && |x| == |f.rows|
            && Column(EquityFrame(f, capital).value.rows, "equity") == Scale(Growth(x), capital)
  {
    var g := Indexed(f);
    var s := g.(rows := SortByDate(g.rows));
    assert EquityFrame(f, capital).value == Assign(s, "equity", Scale(Growth(Column(s.rows, "portfolio_return")), capital));
  }

  /** Read row by row: an `equity` column built that way holds the scaled product at each
      present return and nothing elsewhere. */
  lemma ScaledColumnAt(rows: seq<Row>, x: seq<Cell>, capital: real, t: nat)
    requires t < |x| && Column(rows, "equity") == Scale(Growth(x), capital)
    ensures t < |rows|
    ensures Get(rows[t], "equity").Some? <==> x[t].Some?
    ensures x[t].Some? ==> Get(rows[t], "equity").value == Product(x[..t + 1]) * capital
  {
    ScaledGrowthAt(x, capital, t);
    assert Get(rows[t], "equity") == Scale(Growth(x), capital)[t];
  }

  /** `calculate_equity_curve(df, capital)`: works on copies; `df` itself is not modified. */
  method CalculateEquityCurve(df: DataFrame, capital: real := 1.0) returns (r: Result<DataFrame, Error>)
    ensures r.Success? <==> EquityFrame(df.Value(), capital).Success?
    ensures r.Success? ==> fresh(r.value) && r.value.Value() == EquityFrame(df.Value(), capital).value
    ensures r.Failure? ==> r.error == EquityFrame(df.Value(), capital).error
  {
    var c := df.Copy();
    if "datetime" in c.columns {
      c := new DataFrame(Frame(Without(c.columns, "datetime"), DatetimeIndex(Some("datetime")), c.rows));
    }
    if !c.index.DatetimeIndex? {
      c := new DataFrame(Frame(c.columns, DatetimeIndex(None), Positions(c.rows)));
    }
    c := new DataFrame(Frame(c.columns, c.index, SortByDate(c.rows)));
    var equity := c.Copy();
    if "portfolio_return" !in equity.columns {
      return Failure(KeyError(["portfolio_return"]));
    }
    ghost var s := equity.Value();
    var growth := Growth(Column(equity.rows, "portfolio_return"));
    equity.SetColumn("equity", growth);
    equity.SetColumn("equity", Scale(Column(equity.rows, "equity"), capital));
    AssignTwice(s, "equity", growth, Scale(growth, capital));
    r := Success(equity);
  }
}
