/** `factors/base.py`: one grouped transform written into one new column of the caller's table. */
module FactorBase {
  import opened Wrappers
  import opened Frames
  import opened GroupBy

  /** The table `add_grouped_column` leaves behind: `groupby("code")` needs a `code` column and
      `[target]` a `target` column (a KeyError otherwise); then `newCol` holds, at each row, `fn`
      of that row's own group taken at the row's place in the group. */
  function AddGrouped(f: Frame, target: string, newCol: string, fn: seq<Cell> -> seq<Cell>): (r: Result<Frame, Error>)
    requires LengthPreserving(fn)
    ensures r.Failure? <==> "code" !in f.columns || target !in f.columns
    ensures r.Failure? ==> r.error == KeyError(if "code" !in f.columns then ["code"] else [target])
    ensures r.Success? ==>
              && r.value.index == f.index
              && r.value.columns == WithName(f.columns, newCol)
              && |r.value.rows| == |f.rows|
              && (forall i :: 0 <= i < |f.rows| ==>
                    r.value.rows[i].code == f.rows[i].code && r.value.rows[i].datetime == f.rows[i].datetime)
              && (forall i, d :: 0 <= i < |f.rows| && d != newCol ==> Get(r.value.rows[i], d) == Get(f.rows[i], d))
  {
    if "code" !in f.columns then Failure(KeyError(["code"]))
    else if target !in f.columns then Failure(KeyError([target]))
    else
      Success(Assign(f, newCol, GroupTransform(f.rows, target, fn)))
  }

  /** Each row of the new column is `fn` of that row's own group, taken at the row's place in
      the group. */
  lemma AddGroupedAt(f: Frame, target: string, newCol: string, fn: seq<Cell> -> seq<Cell>, i: nat)
    requires LengthPreserving(fn) && AddGrouped(f, target, newCol, fn).Success? && i < |f.rows|
    ensures GroupPos(f.rows, i) < |GroupValues(f.rows, f.rows[i].code, target)|
    ensures Get(AddGrouped(f, target, newCol, fn).value.rows[i], newCol)
            == fn(GroupValues(f.rows, f.rows[i].code, target))[GroupPos(f.rows, i)]
  {
    GroupTransformAt(f.rows, target, fn, i);
  }

  /** Read back group by group, the new column is `fn` of the same group of the target column. */
  lemma AddGroupedGroup(f: Frame, target: string, newCol: string, fn: seq<Cell> -> seq<Cell>, key: string)
    requires LengthPreserving(fn) && AddGrouped(f, target, newCol, fn).Success?
    ensures GroupValues(AddGrouped(f, target, newCol, fn).value.rows, key, newCol)
            == fn(GroupValues(f.rows, key, target))
  {
    GroupTransformGroup(f, target, newCol, fn, key);
  }

  /** Groups are independent: tables that agree on group `key` of the target column agree on
      group `key` of the new column, whatever the other groups hold. */
  lemma AddGroupedIndependent(f1: Frame, f2: Frame, target: string, newCol: string,
                              fn: seq<Cell> -> seq<Cell>, key: string)
    requires LengthPreserving(fn)
    requires AddGrouped(f1, target, newCol, fn).Success? && AddGrouped(f2, target, newCol, fn).Success?
    requires GroupValues(f1.rows, key, target) == GroupValues(f2.rows, key, target)
    ensures GroupValues(AddGrouped(f1, target, newCol, fn).value.rows, key, newCol)
            == GroupValues(AddGrouped(f2, target, newCol, fn).value.rows, key, newCol)
  {
    AddGroupedGroup(f1, target, newCol, fn, key);
    AddGroupedGroup(f2, target, newCol, fn, key);
  }

  /** `add_grouped_column(df, "code", target, newCol, fn)`: assigns the column into `df` itself
      and hands back that same object. */
  method AddGroupedColumn(df: DataFrame, target: string, newCol: string, fn: seq<Cell> -> seq<Cell>)
    returns (r: Result<DataFrame, Error>)
    requires LengthPreserving(fn)
    modifies df
    ensures r.Success? <==> AddGrouped(old(df.Value()), target, newCol, fn).Success?
    ensures r.Success? ==> r.value == df && df.Value() == AddGrouped(old(df.Value()), target, newCol, fn).value
    ensures r.Failure? ==> r.error == AddGrouped(old(df.Value()), target, newCol, fn).error && df.Value() == old(df.Value())
  {
    if "code" !in df.columns {
      return Failure(KeyError(["code"]));
    }
    if target !in df.columns {
      return Failure(KeyError([target]));
    }
    df.SetColumn(newCol, GroupTransform(df.rows, target, fn));
    r := Success(df);
  }
}
