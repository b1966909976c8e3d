/** `utils/data_utils.py`: the column checks every stage runs first. */
module DataUtils {
  import opened Wrappers
  import opened Frames

  /** `[c for c in cols if c not in columns]`: the requested columns that are absent, in request order. */
  function Missing(columns: seq<string>, cols: seq<string>): (m: seq<string>)
    ensures |m| <= |cols|
    decreases |cols|
  {
    if cols == [] then []
    else
      var n := |cols| - 1;
      Missing(columns, cols[..n]) + (if cols[n] in columns then [] else [cols[n]])
  }

  /** A column is reported exactly when it was requested and is absent. */
  lemma {:induction false} MissingMembers(columns: seq<string>, cols: seq<string>)
    ensures forall c :: c in Missing(columns, cols) <==> c in cols && c !in columns
    decreases |cols|
  {
    if cols != [] {
      var n := |cols| - 1;
      assert cols == cols[..n] + [cols[n]];
      MissingMembers(columns, cols[..n]);
    }
  }

  /** The missing list is built request by request: asking for `a` and then `b` reports
      `a`'s absentees ahead of `b`'s. */
  lemma {:induction false} MissingConcat(columns: seq<string>, a: seq<string>, b: seq<string>)
    ensures Missing(columns, a + b) == Missing(columns, a) + Missing(columns, b)
    decreases |b|
  {
    if b == [] {
      assert a + b == a;
    } else {
      var n := |b| - 1;
      var ab := a + b;
      var last := if b[n] in columns then [] else [b[n]];
      assert ab[..|ab| - 1] == a + b[..n] && ab[|ab| - 1] == b[n];
      assert Missing(columns, ab) == Missing(columns, a + b[..n]) + last;
      assert Missing(columns, b) == Missing(columns, b[..n]) + last;
      MissingConcat(columns, a, b[..n]);
      assert Missing(columns, a) + Missing(columns, b[..n]) + last
          == Missing(columns, a) + (Missing(columns, b[..n]) + last);
    }
  }

  /** `ensure_required_columns`: the table itself when every column is there, else a KeyError
      naming exactly the absent ones. */
  function EnsureRequiredColumns(f: Frame, cols: seq<string>): (r: Result<Frame, Error>)
    ensures r.Failure? <==> exists c :: c in cols && c !in f.columns
    ensures r.Failure? ==> r.error == KeyError(Missing(f.columns, cols))
    ensures r.Success? ==> r.value == f
  {
    var missing := Missing(f.columns, cols);
    MissingMembers(f.columns, cols);
    if missing != [] then
      assert missing[0] in cols;
      Failure(KeyError(missing))
    else Success(f)
  }

  /** The column name `reset_index` gives an index: its own name, else "index", else "level_0". */
  function ResetName(f: Frame): string
    requires f.index.DatetimeIndex?
  {
    match f.index.name
    case Some(n) => n
    case None => if "index" in f.columns then "level_0" else "index"
  }

  /** `df.reset_index()` on a timestamp index: the timestamps become the first column and the
      index becomes positional; a name already taken by a column is a ValueError. */
  function ResetIndex(f: Frame): (r: Result<Frame, Error>)
    requires f.index.DatetimeIndex?
    ensures r.Failure? <==> ResetName(f) in f.columns
    ensures r.Success? ==> r.value == Frame([ResetName(f)] + f.columns, RangeIndex, f.rows)
  {
    var name := ResetName(f);
    if name in f.columns then Failure(ValueError("cannot insert " + name + ", already exists"))
    else Success(Frame([name] + f.columns, RangeIndex, f.rows))
  }

  /** What `ensure_datetime_column` returns: the table with its timestamp index moved into a
      column, provided column `col` is then present. */
  function EnsureDatetime(f: Frame, col: string): (r: Result<Frame, Error>)
    ensures r.Success? ==> col in r.value.columns && r.value.rows == f.rows && r.value.index == RangeIndex
    ensures r.Success? && f.index.RangeIndex? ==> r.value == f
    ensures f.index.RangeIndex? ==> (r.Failure? <==> col !in f.columns)
    ensures f.index.DatetimeIndex? && ResetName(f) !in f.columns ==>
              (r.Failure? <==> col != ResetName(f) && col !in f.columns)
    ensures r.Failure? ==> r.error == KeyError([col]) || r.error.ValueError?
  {
    var g :- if f.index.DatetimeIndex? then ResetIndex(f) else Success(f);
    if col !in g.columns then Failure(KeyError([col]))
    else Success(g)
  }

  /** Without a `datetime` column or a timestamp index named "datetime", nothing else can
      supply the column: the call fails. */
  lemma NoDatetimeFails(f: Frame)
    requires "datetime" !in f.columns
    requires f.index.RangeIndex? || f.index.name != Some("datetime")
    ensures EnsureDatetime(f, "datetime").Failure?
  {
    if f.index.DatetimeIndex? && f.index.name.None? {
      assert ResetName(f) != "datetime";
    }
  }

  /** An unnamed timestamp index becomes a column called "index", so it does not satisfy a
      request for "datetime". */
  lemma UnnamedIndexFails(f: Frame)
    requires f.index == DatetimeIndex(None) && "datetime" !in f.columns
    ensures EnsureDatetime(f, "datetime").Failure?
  {
    NoDatetimeFails(f);
  }

  /** `ensure_datetime_column(df, col)`: works on a copy, so `df` is left as it was. The
      conversion `pd.to_datetime` is the identity here, timestamps being day numbers already. */
  method EnsureDatetimeColumn(df: DataFrame, col: string := "datetime") returns (r: Result<DataFrame, Error>)
    ensures r.Success? <==> EnsureDatetime(df.Value(), col).Success?
    ensures r.Success? ==> fresh(r.value) && r.value.Value() == EnsureDatetime(df.Value(), col).value
    ensures r.Failure? ==> r.error == EnsureDatetime(df.Value(), col).error
  {
    var c := df.Copy();
    if c.index.DatetimeIndex? {
      var reset := ResetIndex(c.Value());
      if reset.Failure? {
        return Failure(reset.error);
      }
      c := new DataFrame(reset.value);
    }
    if col !in c.columns {
      return Failure(KeyError([col]));
    }
    r := Success(c);
  }
}
