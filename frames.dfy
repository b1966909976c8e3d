/** The table the pipeline passes from stage to stage (a pandas DataFrame), as a value and as a mutable object. */
module Frames {
  import opened Wrappers
  import opened Ordering

  /** A numeric cell; `None` stands for a missing value (NaN). */
  type Cell = Option<real>

  /** One observation. `code` and `datetime` (a day number) are its identity; every numeric
      column is a key of `cells`. `datetime` holds the value of the `datetime` column, or of the
      timestamp index while the timestamps sit in the index. */
  datatype Row = Row(code: string, datetime: int, cells: map<string, Cell>)

  /** The row index: positional, or timestamps with the index's name (if it has one). */
  datatype Index = RangeIndex | DatetimeIndex(name: Option<string>)

  /** The exceptions the stages raise. */
  datatype Error = KeyError(keys: seq<string>) | ValueError(reason: string)

  /** A table: its column names in order, its index and its rows. */
  datatype Frame = Frame(columns: seq<string>, index: Index, rows: seq<Row>)

  /** `row[c]`; a column the row does not carry reads as missing. */
  function Get(r: Row, c: string): Cell {
    if c in r.cells then r.cells[c] else None
  }

  function Column(rows: seq<Row>, c: string): (col: seq<Cell>)
    ensures |col| == |rows|
    ensures forall i :: 0 <= i < |rows| ==> col[i] == Get(rows[i], c)
  {
    seq(|rows|, i requires 0 <= i < |rows| => Get(rows[i], c))
  }

  function Codes(rows: seq<Row>): (codes: seq<string>)
    ensures |codes| == |rows|
    ensures forall i :: 0 <= i < |rows| ==> codes[i] == rows[i].code
  {
    seq(|rows|, i requires 0 <= i < |rows| => rows[i].code)
  }

  /** The header after assigning column `c`: a new name goes to the end. */
  function WithName(columns: seq<string>, c: string): (r: seq<string>)
    ensures c in r
    ensures forall d :: d in r <==> d == c || d in columns
  {
    if c in columns then columns else columns + [c]
  }

  /** `df[c] = vals`: writes column `c` and touches nothing else. */
  function Assign(f: Frame, c: string, vals: seq<Cell>): (g: Frame)
    requires |vals| == |f.rows|
    ensures g.index == f.index && g.columns == WithName(f.columns, c)
    ensures |g.rows| == |f.rows| && Codes(g.rows) == Codes(f.rows)
    ensures forall i :: 0 <= i < |f.rows| ==>
              g.rows[i].code == f.rows[i].code && g.rows[i].datetime == f.rows[i].datetime
    ensures forall i :: 0 <= i < |f.rows| ==> Get(g.rows[i], c) == vals[i]
    ensures forall i, d :: 0 <= i < |f.rows| && d != c ==> Get(g.rows[i], d) == Get(f.rows[i], d)
    ensures Column(g.rows, c) == vals
  {
    var rows := seq(|f.rows|, i requires 0 <= i < |f.rows| => f.rows[i].(cells := f.rows[i].cells[c := vals[i]]));
    assert Codes(rows) == Codes(f.rows);
    Frame(WithName(f.columns, c), f.index, rows)
  }

  /** Writing a column twice leaves the second write. */
  lemma AssignTwice(f: Frame, c: string, a: seq<Cell>, b: seq<Cell>)
    requires |a| == |f.rows| && |b| == |f.rows|
    ensures Assign(Assign(f, c, a), c, b) == Assign(f, c, b)
  {
    var g, h := Assign(Assign(f, c, a), c, b), Assign(f, c, b);
    forall i | 0 <= i < |f.rows|
      ensures g.rows[i] == h.rows[i]
    {
      assert g.rows[i].cells == f.rows[i].cells[c := a[i]][c := b[i]];
      assert g.rows[i].cells == h.rows[i].cells;
    }
  }

  /** The order `sort_values(["code", "datetime"])` establishes. */
  predicate RowLe(x: Row, y: Row) {
    StrLess(x.code, y.code) || (x.code == y.code && x.datetime <= y.datetime)
  }

  lemma RowLeTotalPreorder()
    ensures TotalPreorder(RowLe)
  {
    forall x: Row, y: Row
      ensures RowLe(x, y) || RowLe(y, x)
    {
      StrLessTrichotomy(x.code, y.code);
    }
    forall x: Row, y: Row, z: Row | RowLe(x, y) && RowLe(y, z)
      ensures RowLe(x, z)
    {
      if StrLess(x.code, y.code) && StrLess(y.code, z.code) {
        StrLessTransitive(x.code, y.code, z.code);
      }
    }
  }

  /** The rows sorted ascending by (code, datetime). */
  function SortRows(rows: seq<Row>): (r: seq<Row>)
    ensures |r| == |rows| && multiset(r) == multiset(rows)
    ensures forall i, j :: 0 <= i < j < |r| ==> RowLe(r[i], r[j])
  {
    RowLeTotalPreorder();
    SortByLength(rows, RowLe);
    SortBy(rows, RowLe)
  }

  /** `for col in cols: df = step(df, col)`, stopping at the first exception. */
  function FoldColumns(f: Frame, cols: seq<string>, step: (Frame, string) -> Result<Frame, Error>): Result<Frame, Error>
    decreases |cols|
  {
    if cols == [] then Success(f)
    else
      var g :- FoldColumns(f, cols[..|cols| - 1], step);
      step(g, cols[|cols| - 1])
  }

  /** Listing one more column runs one more pass over the table the earlier passes produced. */
  lemma FoldSnoc(f: Frame, cols: seq<string>, c: string, step: (Frame, string) -> Result<Frame, Error>)
    ensures FoldColumns(f, cols, step).Failure? ==> FoldColumns(f, cols + [c], step) == FoldColumns(f, cols, step)
    ensures FoldColumns(f, cols, step).Success? ==>
              FoldColumns(f, cols + [c], step) == step(FoldColumns(f, cols, step).value, c)
  {
    assert (cols + [c])[..|cols|] == cols;
  }

  /** A single listed column is a single pass. */
  lemma FoldSingle(f: Frame, col: string, step: (Frame, string) -> Result<Frame, Error>)
    ensures FoldColumns(f, [col], step) == step(f, col)
  {
    assert [col][..0] == [];
  }

  /** One more pass of the loop. */
  lemma FoldNext(f: Frame, cols: seq<string>, step: (Frame, string) -> Result<Frame, Error>, k: nat)
    requires k < |cols| && FoldColumns(f, cols[..k], step).Success?
    ensures FoldColumns(f, cols[..k + 1], step) == step(FoldColumns(f, cols[..k], step).value, cols[k])
  {
    assert cols[..k + 1][..k] == cols[..k];
  }

  /** An exception in some pass is the exception of the whole loop. */
  lemma {:induction false} FoldFails(f: Frame, cols: seq<string>, step: (Frame, string) -> Result<Frame, Error>, k: nat)
    requires k <= |cols| && FoldColumns(f, cols[..k], step).Failure?
    ensures FoldColumns(f, cols, step) == FoldColumns(f, cols[..k], step)
    decreases |cols|
  {
    if k == |cols| {
      assert cols[..k] == cols;
    } else {
      var n := |cols| - 1;
      assert cols[..n][..k] == cols[..k];
      FoldFails(f, cols[..n], step, k);
    }
  }

  /** A pandas DataFrame object: the stages that work in place update its fields. */
  class DataFrame {
    var columns: seq<string>
    var index: Index
    var rows: seq<Row>

    function Value(): Frame
      reads this
    {
      Frame(columns, index, rows)
    }

    constructor (f: Frame)
      ensures Value() == f
    {
      columns, index, rows := f.columns, f.index, f.rows;
    }

    /** `df.copy()` */
    method Copy() returns (c: DataFrame)
      ensures fresh(c) && c.Value() == Value()
    {
      c := new DataFrame(Value());
    }

    /** `df[c] = vals` */
    method SetColumn(c: string, vals: seq<Cell>)
      requires |vals| == |rows|
      modifies this
      ensures Value() == Assign(old(Value()), c, vals)
    {
      var g := Assign(Value(), c, vals);
      columns, rows := g.columns, g.rows;
    }

    /** `df.sort_values(["code", "datetime"], inplace=True)` */
    method SortValues()
      modifies this
      ensures Value() == old(Value()).(rows := SortRows(old(rows)))
    {
      rows := SortRows(rows);
    }
  }
}
