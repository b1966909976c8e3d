/** `signals/signal_generation.py`: the per-row `all_positive` trading rule written as `signal`. */
module SignalGeneration {
  import opened Wrappers
  import opened Frames

  /** `row[col] > 0` (or `< 0`): a missing value compares false either way. */
  predicate Signed(v: Cell, positive: bool) {
    v.Some? && (if positive then v.value > 0.0 else v.value < 0.0)
  }

  /** `all(row[col] > 0 for col in cols)` (or `< 0`), evaluated left to right and stopping at the
      first false comparison; reading a column the table does not have is a KeyError. */
  function AllSigned(r: Row, columns: seq<string>, cols: seq<string>, positive: bool): (res: Result<bool, Error>)
    ensures res == Success(true) ==> forall c :: c in cols ==> c in columns && Signed(Get(r, c), positive)
    ensures (forall c :: c in cols ==> c in columns) ==>
              res.Success? && (res.value <==> forall c :: c in cols ==> Signed(Get(r, c), positive))
    ensures res.Failure? ==> exists c :: c in cols && c !in columns && res.error == KeyError([c])
    decreases |cols|
  {
    if cols == [] then Success(true)
    else if cols[0] !in columns then Failure(KeyError([cols[0]]))
    else if !Signed(Get(r, cols[0]), positive) then Success(false)
    else
      var rest := AllSigned(r, columns, cols[1..], positive);
      assert forall c :: c in cols ==> c == cols[0] || c in cols[1..];
      rest
  }

  /** `signal_row`: 1 when every listed value is positive, else -1 when every one is negative,
      else 0; any other rule name gives 0 without reading the row. */
  function SignalRow(r: Row, columns: seq<string>, cols: seq<string>, rule: string): (s: Result<int, Error>)
    ensures s.Success? ==> s.value == -1 || s.value == 0 || s.value == 1
    ensures rule != "all_positive" ==> s == Success(0)
    ensures s.Failure? ==> exists c :: c in cols && c !in columns && s.error == KeyError([c])
  {
    if rule == "all_positive" then
      var up :- AllSigned(r, columns, cols, true);
      if up then Success(1)
      else
        var down :- AllSigned(r, columns, cols, false);
        if down then Success(-1) else Success(0)
    else Success(0)
  }

  /** When every listed column exists, the rule is total and follows the signs of the row. */
  lemma SignalCases(r: Row, columns: seq<string>, cols: seq<string>)
    requires forall c :: c in cols ==> c in columns
    ensures SignalRow(r, columns, cols, "all_positive").Success?
    ensures var s := SignalRow(r, columns, cols, "all_positive").value;
            && (s == 1 <==> forall c :: c in cols ==> Signed(Get(r, c), true))
            && (s == -1 <==> cols != [] && forall c :: c in cols ==> Signed(Get(r, c), false))
            && (s == 0 <==> (exists c :: c in cols && !Signed(Get(r, c), true))
                            && (exists c :: c in cols && !Signed(Get(r, c), false)))
  {
    if cols != [] && forall c :: c in cols ==> Signed(Get(r, c), false) {
      assert !Signed(Get(r, cols[0]), true);
    }
  }

  /** A missing value in a listed column fails both tests: the signal is 0. */
  lemma MissingGivesZero(r: Row, columns: seq<string>, cols: seq<string>, c: string)
    requires forall d :: d in cols ==> d in columns
    requires c in cols && Get(r, c) == None
    ensures SignalRow(r, columns, cols, "all_positive") == Success(0)
  {
    SignalCases(r, columns, cols);
  }

  /** With no listed column the first `all` is vacuously true: the signal is 1. */
  lemma NoColumnsGivesOne(r: Row, columns: seq<string>)
    ensures SignalRow(r, columns, [], "all_positive") == Success(1)
  {
  }

  /** One negative value among positive ones gives 0; two positive values give 1. */
  lemma SignalExamples(r1: Row, r2: Row)
    requires Get(r1, "a_z") == Some(0.5) && Get(r1, "b_z") == Some(-0.1)
    requires Get(r2, "a_z") == Some(0.5) && Get(r2, "b_z") == Some(0.2)
    ensures SignalRow(r1, ["a_z", "b_z"], ["a_z", "b_z"], "all_positive") == Success(0)
    ensures SignalRow(r2, ["a_z", "b_z"], ["a_z", "b_z"], "all_positive") == Success(1)
  {
    SignalCases(r1, ["a_z", "b_z"], ["a_z", "b_z"]);
    SignalCases(r2, ["a_z", "b_z"], ["a_z", "b_z"]);
    assert !Signed(Get(r1, "a_z"), false) && !Signed(Get(r1, "b_z"), true);
  }

  /** The rule sees nothing but the listed cells of its own row. */
  lemma {:induction false} AllSignedLocal(r1: Row, r2: Row, columns: seq<string>, cols: seq<string>, positive: bool)
    requires forall c :: c in cols ==> Get(r1, c) == Get(r2, c)
    ensures AllSigned(r1, columns, cols, positive) == AllSigned(r2, columns, cols, positive)
    decreases |cols|
  {
    if cols != [] {
      AllSignedLocal(r1, r2, columns, cols[1..], positive);
    }
  }

  lemma SignalRowLocal(r1: Row, r2: Row, columns: seq<string>, cols: seq<string>, rule: string)
    requires forall c :: c in cols ==> Get(r1, c) == Get(r2, c)
    ensures SignalRow(r1, columns, cols, rule) == SignalRow(r2, columns, cols, rule)
  {
    AllSignedLocal(r1, r2, columns, cols, true);
    AllSignedLocal(r1, r2, columns, cols, false);
  }

  /** `df.apply(signal_row, axis=1)`: the rule on each row in order; the first row that raises
      decides the error. */
  function Signals(rows: seq<Row>, columns: seq<string>, cols: seq<string>, rule: string): (s: Result<seq<int>, Error>)
    ensures s.Success? ==> |s.value| == |rows|
    decreases |rows|
  {
    if rows == [] then Success([])
    else
      var first :- SignalRow(rows[0], columns, cols, rule);
      var rest :- Signals(rows[1..], columns, cols, rule);
      Success([first] + rest)
  }

  /** Each entry is the rule applied to its own row, and the column exists exactly when no row
      raises. */
  lemma {:induction false} SignalsAt(rows: seq<Row>, columns: seq<string>, cols: seq<string>, rule: string)
    ensures Signals(rows, columns, cols, rule).Success?
            <==> forall i :: 0 <= i < |rows| ==> SignalRow(rows[i], columns, cols, rule).Success?
    ensures Signals(rows, columns, cols, rule).Success? ==>
              forall i :: 0 <= i < |rows| ==>
                Signals(rows, columns, cols, rule).value[i] == SignalRow(rows[i], columns, cols, rule).value
    decreases |rows|
  {
    if rows != [] {
      SignalsAt(rows[1..], columns, cols, rule);
      assert forall i :: 1 <= i < |rows| ==> rows[i] == rows[1..][i - 1];
    }
  }

  /** A failure names a listed column the table does not have. */
  lemma {:induction false} SignalsFail(rows: seq<Row>, columns: seq<string>, cols: seq<string>, rule: string)
    ensures Signals(rows, columns, cols, rule).Failure? ==>
              exists c :: c in cols && c !in columns && Signals(rows, columns, cols, rule).error == KeyError([c])
    decreases |rows|
  {
    if rows != [] {
      SignalsFail(rows[1..], columns, cols, rule);
    }
  }

  /** When every listed column exists no row raises. */
  lemma SignalsDefined(rows: seq<Row>, columns: seq<string>, cols: seq<string>, rule: string)
    requires forall c :: c in cols ==> c in columns
    ensures Signals(rows, columns, cols, rule).Success?
  {
    SignalsAt(rows, columns, cols, rule);
    forall i | 0 <= i < |rows|
      ensures SignalRow(rows[i], columns, cols, rule).Success?
    {
      if rule == "all_positive" {
        SignalCases(rows[i], columns, cols);
      }
    }
  }

  /** The integer signals as cells of the table. */
  function AsCells(s: seq<int>): (c: seq<Cell>)
    ensures |c| == |s|
    ensures forall i :: 0 <= i < |s| ==> c[i] == Some(s[i] as real)
  {
    seq(|s|, i requires 0 <= i < |s| => Some(s[i] as real))
  }

  /** The table `generate_simple_signal(df, cols, rule)` returns: `signal` added, nothing else
      changed. */
  function SignalFrame(f: Frame, cols: seq<string>, rule: string): (r: Result<Frame, Error>)
    ensures r.Failure? ==> exists c :: c in cols && c !in f.columns && r.error == KeyError([c])
  {
    SignalsFail(f.rows, f.columns, cols, rule);
    var s :- Signals(f.rows, f.columns, cols, rule);
    Success(Assign(f, "signal", AsCells(s)))
  }

  /** One signal per row, each -1, 0 or 1, each the rule on its own row; every other column is
      unchanged. */
  lemma SignalColumn(f: Frame, cols: seq<string>, rule: string, i: nat)
    requires SignalFrame(f, cols, rule).Success? && i < |f.rows|
    ensures SignalRow(f.rows[i], f.columns, cols, rule).Success?
    ensures var g := SignalFrame(f, cols, rule).value;
            && g.columns == WithName(f.columns, "signal") && |g.rows| == |f.rows|
            && Get(g.rows[i], "signal") == Some(SignalRow(f.rows[i], f.columns, cols, rule).value as real)
            && Get(g.rows[i], "signal") in {Some(-1.0), Some(0.0), Some(1.0)}
            && forall d :: d != "signal" ==> Get(g.rows[i], d) == Get(f.rows[i], d)
  {
    SignalsAt(f.rows, f.columns, cols, rule);
  }

  /** Any rule other than `all_positive` marks every row 0 and never raises. */
  lemma UnknownRuleZero(f: Frame, cols: seq<string>, rule: string, i: nat)
    requires rule != "all_positive" && i < |f.rows|
    ensures SignalFrame(f, cols, rule).Success?
    ensures Get(SignalFrame(f, cols, rule).value.rows[i], "signal") == Some(0.0)
  {
    SignalsAt(f.rows, f.columns, cols, rule);
    SignalColumn(f, cols, rule, i);
  }

  /** `generate_simple_signal(df, cols, rule)`: works on a copy; `df` itself is not modified. */
  method GenerateSimpleSignal(df: DataFrame, cols: seq<string>, rule: string := "all_positive")
    returns (r: Result<DataFrame, Error>)
    ensures r.Success? <==> SignalFrame(df.Value(), cols, rule).Success?
    ensures r.Success? ==> fresh(r.value) && r.value.Value() == SignalFrame(df.Value(), cols, rule).value
    ensures r.Failure? ==> r.error == SignalFrame(df.Value(), cols, rule).error
  {
    var c := df.Copy();
    var s := Signals(c.rows, c.columns, cols, rule);
    if s.Failure? {
      return Failure(s.error);
    }
    c.SetColumn("signal", AsCells(s.value));
    r := Success(c);
  }
}
