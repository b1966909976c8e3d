/** `df.groupby("code")[c].transform(fn)`: grouping rows by code, keeping table order inside a group. */
module GroupBy {
  import opened Wrappers
  import opened Frames

  /** How many of `codes` equal `key`. */
  function Count(codes: seq<string>, key: string): nat
    decreases |codes|
  {
    if |codes| == 0 then 0
    else Count(codes[..|codes| - 1], key) + (if codes[|codes| - 1] == key then 1 else 0)
  }

  /** The entries of `vals` whose code is `key`, in order. */
  function Select(codes: seq<string>, key: string, vals: seq<Cell>): (g: seq<Cell>)
    requires |vals| == |codes|
    ensures |g| == Count(codes, key)
    decreases |codes|
  {
    if |codes| == 0 then []
    else
      var n := |codes| - 1;
      Select(codes[..n], key, vals[..n]) + (if codes[n] == key then [vals[n]] else [])
  }

  /** Selecting from a prefix of the table gives a prefix of the group. */
  lemma {:induction false} SelectPrefix(codes: seq<string>, key: string, vals: seq<Cell>, n: nat)
    requires |vals| == |codes| && n <= |codes|
    ensures Count(codes[..n], key) <= Count(codes, key)
    ensures Select(codes[..n], key, vals[..n]) == Select(codes, key, vals)[..Count(codes[..n], key)]
    decreases |codes|
  {
    if n < |codes| {
      var m := |codes| - 1;
      assert codes[..m][..n] == codes[..n] && vals[..m][..n] == vals[..n];
      SelectPrefix(codes[..m], key, vals[..m], n);
    } else {
      assert codes[..n] == codes && vals[..n] == vals;
    }
  }

  /** Row `i` sits at position `Count(codes[..i], key)` of its group. */
  lemma SelectAt(codes: seq<string>, key: string, vals: seq<Cell>, i: nat)
    requires |vals| == |codes| && i < |codes| && codes[i] == key
    ensures Count(codes[..i], key) < Count(codes, key)
    ensures Select(codes, key, vals)[Count(codes[..i], key)] == vals[i]
  {
    assert codes[..i + 1][..i] == codes[..i] && vals[..i + 1][..i] == vals[..i];
    SelectPrefix(codes, key, vals, i + 1);
  }

  /** A row is the first of its group exactly when no earlier row has its code. */
  lemma {:induction false} CountZero(codes: seq<string>, key: string)
    ensures Count(codes, key) == 0 <==> key !in codes
    decreases |codes|
  {
    if |codes| > 0 {
      var n := |codes| - 1;
      CountZero(codes[..n], key);
      assert codes == codes[..n] + [codes[n]];
    }
  }

  /** The values of column `c` in the group of code `key`, in table order. */
  function GroupValues(rows: seq<Row>, key: string, c: string): seq<Cell> {
    Select(Codes(rows), key, Column(rows, c))
  }

  /** Two tables with the same codes, row by row, whose columns `c1` and `c2` agree row by row,
      have the same groups of those columns. */
  lemma SameGroupValues(r1: seq<Row>, r2: seq<Row>, c1: string, c2: string, key: string)
    requires |r1| == |r2|
    requires forall i :: 0 <= i < |r1| ==> r1[i].code == r2[i].code && Get(r1[i], c1) == Get(r2[i], c2)
    ensures GroupValues(r1, key, c1) == GroupValues(r2, key, c2)
  {
    assert Codes(r1) == Codes(r2);
    assert Column(r1, c1) == Column(r2, c2);
  }

  /** The position of row `i` inside its own group. */
  function GroupPos(rows: seq<Row>, i: nat): (p: nat)
    requires i < |rows|
    ensures p == Count(Codes(rows)[..i], rows[i].code)
    ensures p < Count(Codes(rows), rows[i].code)
  {
    SelectAt(Codes(rows), rows[i].code, Column(rows, ""), i);
    Count(Codes(rows)[..i], rows[i].code)
  }

  /** A group-wise function the way pandas' transform needs one: as many outputs as inputs. */
  ghost predicate LengthPreserving(fn: seq<Cell> -> seq<Cell>) {
    forall s :: |fn(s)| == |s|
  }

  function TransformAt(codes: seq<string>, src: seq<Cell>, fn: seq<Cell> -> seq<Cell>, i: nat): Cell
    requires |src| == |codes| && i < |codes| && LengthPreserving(fn)
  {
    SelectAt(codes, codes[i], src, i);
    fn(Select(codes, codes[i], src))[Count(codes[..i], codes[i])]
  }

  /** `groupby(codes)[src].transform(fn)` on the columns themselves. */
  function Transform(codes: seq<string>, src: seq<Cell>, fn: seq<Cell> -> seq<Cell>): (out: seq<Cell>)
    requires |src| == |codes| && LengthPreserving(fn)
    ensures |out| == |codes|
  {
    seq(|codes|, i requires 0 <= i < |codes| => TransformAt(codes, src, fn, i))
  }

  lemma {:induction false} TransformSelectPrefix(codes: seq<string>, src: seq<Cell>, fn: seq<Cell> -> seq<Cell>,
                                                 key: string, n: nat)
    requires |src| == |codes| && LengthPreserving(fn) && n <= |codes|
    ensures Count(codes[..n], key) <= Count(codes, key)
    ensures Select(codes[..n], key, Transform(codes, src, fn)[..n])
            == fn(Select(codes, key, src))[..Count(codes[..n], key)]
  {
    SelectPrefix(codes, key, src, n);
    if n > 0 {
      TransformSelectPrefix(codes, src, fn, key, n - 1);
      var out := Transform(codes, src, fn);
      assert codes[..n][..n - 1] == codes[..n - 1];
      assert out[..n][..n - 1] == out[..n - 1];
    }
  }

  /** The heart of transform: restricted to one group, the output is `fn` of that group's input. */
  lemma TransformSelect(codes: seq<string>, src: seq<Cell>, fn: seq<Cell> -> seq<Cell>, key: string)
    requires |src| == |codes| && LengthPreserving(fn)
    ensures Select(codes, key, Transform(codes, src, fn)) == fn(Select(codes, key, src))
  {
    TransformSelectPrefix(codes, src, fn, key, |codes|);
    assert codes[..|codes|] == codes;
    assert Transform(codes, src, fn)[..|codes|] == Transform(codes, src, fn);
  }

  /** The new column of `df.groupby("code")[c].transform(fn)`. */
  function GroupTransform(rows: seq<Row>, c: string, fn: seq<Cell> -> seq<Cell>): (vals: seq<Cell>)
    requires LengthPreserving(fn)
    ensures |vals| == |rows|
  {
    Transform(Codes(rows), Column(rows, c), fn)
  }

  /** Each row's value is `fn` of its own group, taken at the row's position in the group. */
  lemma GroupTransformAt(rows: seq<Row>, c: string, fn: seq<Cell> -> seq<Cell>, i: nat)
    requires LengthPreserving(fn) && i < |rows|
    ensures GroupPos(rows, i) < |GroupValues(rows, rows[i].code, c)|
    ensures GroupTransform(rows, c, fn)[i] == fn(GroupValues(rows, rows[i].code, c))[GroupPos(rows, i)]
  {
  }

  /** Writing the transform into column `nc` and reading group `key` of it back gives `fn`
      of group `key` of column `c`: each group is transformed as a whole and on its own. */
  lemma {:induction false} GroupTransformGroup(f: Frame, c: string, nc: string, fn: seq<Cell> -> seq<Cell>, key: string)
    requires LengthPreserving(fn)
    ensures GroupValues(Assign(f, nc, GroupTransform(f.rows, c, fn)).rows, key, nc)
            == fn(GroupValues(f.rows, key, c))
  {
    TransformSelect(Codes(f.rows), Column(f.rows, c), fn, key);
  }

  /** Rows of other groups never influence a row: two tables whose group `key` holds the same
      values produce the same output for that group. */
  lemma GroupIndependence(f1: Frame, f2: Frame, c: string, nc: string, fn: seq<Cell> -> seq<Cell>, key: string)
    requires LengthPreserving(fn)
    requires GroupValues(f1.rows, key, c) == GroupValues(f2.rows, key, c)
    ensures GroupValues(Assign(f1, nc, GroupTransform(f1.rows, c, fn)).rows, key, nc)
            == GroupValues(Assign(f2, nc, GroupTransform(f2.rows, c, fn)).rows, key, nc)
  {
    GroupTransformGroup(f1, c, nc, fn, key);
    GroupTransformGroup(f2, c, nc, fn, key);
  }

  /** What row `i`'s group looked like up to row `i`: its earlier members, and then row `i` itself. */
  lemma GroupHistory(rows: seq<Row>, c: string, i: nat)
    requires i < |rows|
    ensures GroupPos(rows, i) < |GroupValues(rows, rows[i].code, c)|
    ensures GroupValues(rows, rows[i].code, c)[..GroupPos(rows, i)] == GroupValues(rows[..i], rows[i].code, c)
    ensures GroupValues(rows, rows[i].code, c)[..GroupPos(rows, i) + 1] == GroupValues(rows[..i + 1], rows[i].code, c)
  {
    var codes, vals, key := Codes(rows), Column(rows, c), rows[i].code;
    SelectPrefix(codes, key, vals, i);
    SelectPrefix(codes, key, vals, i + 1);
    assert codes[..i + 1][..i] == codes[..i];
    assert Codes(rows[..i]) == codes[..i] && Column(rows[..i], c) == vals[..i];
    assert Codes(rows[..i + 1]) == codes[..i + 1] && Column(rows[..i + 1], c) == vals[..i + 1];
  }

  /** The previous member of row `i`'s group, when row `i - 1` has the same code. */
  lemma PreviousInGroup(rows: seq<Row>, c: string, i: nat)
    requires 0 < i < |rows| && rows[i - 1].code == rows[i].code
    ensures GroupPos(rows, i) == GroupPos(rows, i - 1) + 1
    ensures GroupValues(rows, rows[i].code, c)[GroupPos(rows, i - 1)] == Get(rows[i - 1], c)
  {
    var codes := Codes(rows);
    assert codes[..i][..i - 1] == codes[..i - 1];
    SelectAt(codes, rows[i].code, Column(rows, c), i - 1);
  }

  /** Row `i` opens its group exactly when no earlier row has its code. */
  lemma FirstInGroup(rows: seq<Row>, i: nat)
    requires i < |rows|
    ensures GroupPos(rows, i) == 0 <==> forall j :: 0 <= j < i ==> rows[j].code != rows[i].code
  {
    var codes := Codes(rows);
    CountZero(codes[..i], rows[i].code);
    if GroupPos(rows, i) != 0 {
      var j :| 0 <= j < i && codes[..i][j] == rows[i].code;
      assert rows[j].code == rows[i].code;
    }
  }

  /** Row `i` holds its own value of column `c` at its place in its code's group. */
  lemma OwnValue(rows: seq<Row>, c: string, i: nat)
    requires i < |rows|
    ensures GroupPos(rows, i) < |GroupValues(rows, rows[i].code, c)|
    ensures GroupValues(rows, rows[i].code, c)[GroupPos(rows, i)] == Get(rows[i], c)
  {
    SelectAt(Codes(rows), rows[i].code, Column(rows, c), i);
  }
}
