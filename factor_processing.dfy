/** `signals/factor_processing.py`: per-code z-scores and winsorizing of factor columns. */
module FactorProcessing {
  import opened Wrappers
  import opened Frames
  import opened Ordering
  import opened GroupBy
  import opened Stats
  import opened FactorBase
  import opened Interpolation

  // ---------------------------------------------------------------- z-score

  /** `(x - x.mean()) / x.std()` at position `i` of one group. The mean and the sample standard
      deviation skip missing values; with fewer than two values the deviation is undefined, and
      with deviation zero every value equals the mean, so the quotient is 0/0: missing in both
      cases, as is a missing `x[i]`. */
  function ZValue(x: seq<Cell>, sqrt: real -> real, i: nat): (z: Cell)
    requires i < |x|
    ensures z.Some? <==> x[i].Some? && |Present(x)| >= 2 && sqrt(Variance(Present(x))) != 0.0
    ensures z.Some? ==> z.value * sqrt(Variance(Present(x))) == x[i].value - Mean(Present(x))
  {
    var p := Present(x);
    if |p| < 2 || x[i].None? then None
    else
      var sd := sqrt(Variance(p));
      if sd == 0.0 then None else Some((x[i].value - Mean(p)) / sd)
  }

  /** The z-score transform of one group. */
  function ZGroup(sqrt: real -> real): seq<Cell> -> seq<Cell> {
    x => seq(|x|, i requires 0 <= i < |x| => ZValue(x, sqrt, i))
  }

  lemma ZGroupLength(sqrt: real -> real)
    ensures LengthPreserving(ZGroup(sqrt))
  {
    forall s: seq<Cell>
      ensures |ZGroup(sqrt)(s)| == |s|
    {
    }
  }

  /** With a positive deviation, a z value is positive, negative or zero exactly as `x` lies
      above, below or at the group mean. */
  lemma ZSign(x: seq<Cell>, sqrt: real -> real, i: nat)
    requires i < |x| && x[i].Some? && |Present(x)| >= 2 && sqrt(Variance(Present(x))) > 0.0
    ensures ZValue(x, sqrt, i).Some?
    ensures ZValue(x, sqrt, i).value > 0.0 <==> x[i].value > Mean(Present(x))
    ensures ZValue(x, sqrt, i).value < 0.0 <==> x[i].value < Mean(Present(x))
    ensures ZValue(x, sqrt, i).value == 0.0 <==> x[i].value == Mean(Present(x))
  {
    DivSign(x[i].value - Mean(Present(x)), sqrt(Variance(Present(x))));
  }

  /** Each present value of `xs`, shifted by `m` and scaled by `sd`. */
  function Standardize(xs: seq<Cell>, m: real, sd: real): (z: seq<Cell>)
    requires sd != 0.0
    ensures |z| == |xs|
  {
    seq(|xs|, i requires 0 <= i < |xs| => if xs[i].None? then None else Some((xs[i].value - m) / sd))
  }

  /** Each of `p` shifted by `m` and scaled by `sd`. */
  function Deviations(p: seq<real>, m: real, sd: real): (d: seq<real>)
    requires sd != 0.0
    ensures |d| == |p|
  {
    if p == [] then [] else [(p[0] - m) / sd] + Deviations(p[1..], m, sd)
  }

  lemma ShiftScaleStep(a: real, b: real, n: real, m: real, sd: real)
    requires sd != 0.0
    ensures (a - m) / sd + (b - n * m) / sd == (a + b - (n + 1.0) * m) / sd
  {
  }

  lemma {:induction false} DeviationsSum(p: seq<real>, m: real, sd: real)
    requires sd != 0.0
    ensures Sum(Deviations(p, m, sd)) == (Sum(p) - (|p| as real) * m) / sd
    decreases |p|
  {
    if p != [] {
      var d := Deviations(p, m, sd);
      assert d[1..] == Deviations(p[1..], m, sd);
      DeviationsSum(p[1..], m, sd);
      ShiftScaleStep(p[0], Sum(p[1..]), (|p| - 1) as real, m, sd);
    }
  }

  lemma {:induction false} PresentStandardize(xs: seq<Cell>, m: real, sd: real)
    requires sd != 0.0
    ensures Present(Standardize(xs, m, sd)) == Deviations(Present(xs), m, sd)
    decreases |xs|
  {
    if xs != [] {
      var z := Standardize(xs, m, sd);
      assert z[1..] == Standardize(xs[1..], m, sd);
      PresentStandardize(xs[1..], m, sd);
      if xs[0].Some? {
        assert Present(xs) == [xs[0].value] + Present(xs[1..]);
        assert z[0] == Some((xs[0].value - m) / sd);
        assert Present(z) == [(xs[0].value - m) / sd] + Present(z[1..]);
        assert Present(xs)[1..] == Present(xs[1..]);
      } else {
        assert Present(xs) == Present(xs[1..]);
        assert z[0] == None;
        assert Present(z) == Present(z[1..]);
      }
    }
  }

  /** Where it is defined, a group's z-scores sum to zero: they are centred on the group mean. */
  lemma ZScoreCentred(x: seq<Cell>, sqrt: real -> real)
    requires |Present(x)| >= 2 && sqrt(Variance(Present(x))) != 0.0
    ensures |Present(ZGroup(sqrt)(x))| == |Present(x)|
    ensures Sum(Present(ZGroup(sqrt)(x))) == 0.0
  {
    var p := Present(x);
    var m, sd := Mean(p), sqrt(Variance(p));
    ZGroupStandardize(x, sqrt);
    PresentStandardize(x, m, sd);
    CentredDeviations(p, sd);
  }

  /** Where it is defined, the z transform is the shift by the mean and the scaling by the
      deviation. */
  lemma ZGroupStandardize(x: seq<Cell>, sqrt: real -> real)
    requires |Present(x)| >= 2 && sqrt(Variance(Present(x))) != 0.0
    ensures ZGroup(sqrt)(x) == Standardize(x, Mean(Present(x)), sqrt(Variance(Present(x))))
  {
    var z, s := ZGroup(sqrt)(x), Standardize(x, Mean(Present(x)), sqrt(Variance(Present(x))));
    forall i | 0 <= i < |x|
      ensures z[i] == s[i]
    {
    }
  }

  /** Deviations from the mean sum to zero. */
  lemma CentredDeviations(p: seq<real>, sd: real)
    requires |p| > 0 && sd != 0.0
    ensures Sum(Deviations(p, Mean(p), sd)) == 0.0
  {
    DeviationsSum(p, Mean(p), sd);
    MeanCancel(Sum(p), |p| as real, sd);
  }

  lemma MeanCancel(s: real, n: real, sd: real)
    requires n > 0.0 && sd != 0.0
    ensures (s - n * (s / n)) / sd == 0.0
  {
    assert n * (s / n) == s;
  }

  /** Where the variance is positive and the square root exact, a group's z-scores have sample
      variance one: they are scaled to unit deviation. */
  lemma ZScoreUnitVariance(x: seq<Cell>, sqrt: real -> real)
    requires |Present(x)| >= 2 && Variance(Present(x)) > 0.0
    requires sqrt(Variance(Present(x))) * sqrt(Variance(Present(x))) == Variance(Present(x))
    ensures |Present(ZGroup(sqrt)(x))| >= 2
    ensures Variance(Present(ZGroup(sqrt)(x))) == 1.0
  {
    var p := Present(x);
    var m, v := Mean(p), Variance(p);
    var sd := sqrt(v);
    NonzeroRoot(sd, v);
    ZGroupStandardize(x, sqrt);
    PresentStandardize(x, m, sd);
    var z := Deviations(p, m, sd);
    assert Present(ZGroup(sqrt)(x)) == z;
    CentredDeviations(p, sd);
    DeviationsSumSq(p, m, sd, v);
    UnitRatio(SumSq(p, m), (|p| - 1) as real, v);
  }

  lemma NonzeroRoot(sd: real, v: real)
    requires v > 0.0 && sd * sd == v
    ensures sd != 0.0
  {
  }

  /** Scaling by `sd` divides the sum of squared deviations by `v == sd * sd`. */
  lemma {:induction false} DeviationsSumSq(p: seq<real>, m: real, sd: real, v: real)
    requires sd != 0.0 && v > 0.0 && v == sd * sd
    ensures SumSq(Deviations(p, m, sd), 0.0) == SumSq(p, m) / v
    decreases |p|
  {
    if p != [] {
      var d := Deviations(p, m, sd);
      assert d[1..] == Deviations(p[1..], m, sd);
      DeviationsSumSq(p[1..], m, sd, v);
      assert d[0] == (p[0] - m) / sd;
      SumSqStep(p[0] - m, sd, v, SumSq(p[1..], m), SumSq(d[1..], 0.0));
    }
  }

  lemma SumSqStep(a: real, sd: real, v: real, rest: real, scaled: real)
    requires sd != 0.0 && v > 0.0 && v == sd * sd && scaled == rest / v
    ensures (a / sd - 0.0) * (a / sd - 0.0) + scaled == (a * a + rest) / v
  {
    var q := a / sd;
    assert q * sd == a;
    assert a * a == (q * q) * v;
  }

  lemma UnitRatio(s: real, k: real, v: real)
    requires k > 0.0 && v > 0.0 && v == s / k
    ensures (s / v) / k == 1.0
  {
    assert s == v * k;
  }

  /** One pass of the `zscore` loop: `df[col + "_z"] = df.groupby("code")[col].transform(...)`. */
  function ZStep(sqrt: real -> real): (Frame, string) -> Result<Frame, Error> {
    ZGroupLength(sqrt);
    (f: Frame, col: string) => AddGrouped(f, col, col + "_z", ZGroup(sqrt))
  }

  /** The table `zscore(df, cols)` returns: the columns processed in order, each pass reading the
      table the previous one produced; the first failing pass decides the error. It fails only
      for a missing `code` column or a listed column the table lacks, and always succeeds when
      every one of them is there. */
  function ZScoreFrame(f: Frame, cols: seq<string>, sqrt: real -> real): (r: Result<Frame, Error>)
    ensures "code" in f.columns && (forall c :: c in cols ==> c in f.columns) ==> r.Success?
    ensures r.Failure? ==>
              r.error == KeyError(["code"]) || exists c :: c in cols && c !in f.columns && r.error == KeyError([c])
  {
    ZScoreOutcome(f, cols, sqrt);
    FoldColumns(f, cols, ZStep(sqrt))
  }

  /** `zscore` changes nothing but the `_z` columns: the rows keep their order and identity,
      and every column that is not some `c + "_z"` for a listed `c` (the listed columns among
      them) keeps its values. */
  lemma {:induction false} ZScoreKeeps(f: Frame, cols: seq<string>, sqrt: real -> real)
    requires FoldColumns(f, cols, ZStep(sqrt)).Success?
    ensures var g := FoldColumns(f, cols, ZStep(sqrt)).value;
            && g.index == f.index && |g.rows| == |f.rows|
            && (forall i :: 0 <= i < |f.rows| ==> g.rows[i].code == f.rows[i].code && g.rows[i].datetime == f.rows[i].datetime)
            && (forall i, d :: 0 <= i < |f.rows| && (forall c :: c in cols ==> d != c + "_z") ==> Get(g.rows[i], d) == Get(f.rows[i], d))
    decreases |cols|
  {
    if cols != [] {
      var n := |cols| - 1;
      ZScoreKeeps(f, cols[..n], sqrt);
      ZGroupLength(sqrt);
      forall c | c in cols[..n] ensures c in cols {}
    }
  }

  /** The header `zscore` returns: the columns it was given, and `c + "_z"` for each listed `c`. */
  lemma {:induction false} ZScoreHeader(f: Frame, cols: seq<string>, sqrt: real -> real)
    requires FoldColumns(f, cols, ZStep(sqrt)).Success?
    ensures forall d :: d in FoldColumns(f, cols, ZStep(sqrt)).value.columns <==>
                          d in f.columns || exists c :: c in cols && d == c + "_z"
    decreases |cols|
  {
    if cols != [] {
      var n := |cols| - 1;
      ZScoreHeader(f, cols[..n], sqrt);
      ZGroupLength(sqrt);
      var g := FoldColumns(f, cols[..n], ZStep(sqrt)).value;
      var out := FoldColumns(f, cols, ZStep(sqrt)).value;
      assert out.columns == WithName(g.columns, cols[n] + "_z");
      forall d
        ensures d in out.columns <==> d in f.columns || exists c :: c in cols && d == c + "_z"
      {
        SuffixedSnoc(cols, d);
      }
    }
  }

  /** A name is a suffixed listed column when it is the last one suffixed or an earlier one. */
  lemma SuffixedSnoc(cols: seq<string>, d: string)
    requires cols != []
    ensures (exists c :: c in cols && d == c + "_z")
            <==> d == cols[|cols| - 1] + "_z" || exists c :: c in cols[..|cols| - 1] && d == c + "_z"
  {
    var n := |cols| - 1;
    assert cols == cols[..n] + [cols[n]];
    if exists c :: c in cols && d == c + "_z" {
      var c :| c in cols && d == c + "_z";
      assert c == cols[n] || c in cols[..n];
    }
    if d == cols[n] + "_z" {
      assert cols[n] in cols;
    }
  }

  /** The outcome of the column loop: a KeyError for `code` or for a listed column the table
      lacks, and no failure when all of them are there. */
  lemma {:induction false} ZScoreOutcome(f: Frame, cols: seq<string>, sqrt: real -> real)
    ensures var r := FoldColumns(f, cols, ZStep(sqrt));
            && ("code" in f.columns && (forall c :: c in cols ==> c in f.columns) ==> r.Success?)
            && (r.Failure? ==>
                  r.error == KeyError(["code"]) || exists c :: c in cols && c !in f.columns && r.error == KeyError([c]))
    decreases |cols|
  {
    if cols != [] {
      var n := |cols| - 1;
      ZScoreOutcome(f, cols[..n], sqrt);
      ZGroupLength(sqrt);
      forall c | c in cols[..n] ensures c in cols {}
      var pre := FoldColumns(f, cols[..n], ZStep(sqrt));
      var r := FoldColumns(f, cols, ZStep(sqrt));
      if pre.Failure? {
        assert r == pre;
      } else {
        var g := pre.value;
        ZScoreHeader(f, cols[..n], sqrt);
        assert r == AddGrouped(g, cols[n], cols[n] + "_z", ZGroup(sqrt));
        if r.Failure? && r.error != KeyError(["code"]) {
          assert r.error == KeyError([cols[n]]) && cols[n] !in g.columns;
          assert cols[n] in cols && cols[n] !in f.columns;
        }
      }
    }
  }

  lemma SuffixInjective(a: string, b: string, s: string)
    requires a + s == b + s
    ensures a == b
  {
    assert |a| == |b|;
    assert a == (a + s)[..|a|] && b == (b + s)[..|b|];
  }

  /** Each listed column's `_z` column holds, group by group, the z-scores of that group of the
      column as the caller passed it in, provided no earlier pass wrote over the column and no
      later pass writes the same `_z` column again. */
  lemma {:induction false} ZScoreGroup(f: Frame, cols: seq<string>, sqrt: real -> real, k: nat, key: string)
    requires ZScoreFrame(f, cols, sqrt).Success? && k < |cols|
    requires forall j :: 0 <= j < k ==> cols[j] + "_z" != cols[k]
    requires forall j :: k < j < |cols| ==> cols[j] != cols[k]
    ensures GroupValues(ZScoreFrame(f, cols, sqrt).value.rows, key, cols[k] + "_z")
            == ZGroup(sqrt)(GroupValues(f.rows, key, cols[k]))
    decreases |cols|
  {
    ZGroupLength(sqrt);
    var n := |cols| - 1;
    var pre := FoldColumns(f, cols[..n], ZStep(sqrt));
    assert pre.Success?;
    var g := pre.value;
    var out := ZScoreFrame(f, cols, sqrt).value;
    assert ZScoreFrame(f, cols, sqrt) == AddGrouped(g, cols[n], cols[n] + "_z", ZGroup(sqrt));
    if k == n {
      ZScoreKeeps(f, cols[..n], sqrt);
      forall c | c in cols[..n]
        ensures cols[n] != c + "_z"
      {
        var j :| 0 <= j < n && cols[..n][j] == c;
      }
      SameGroupValues(g.rows, f.rows, cols[n], cols[n], key);
      AddGroupedGroup(g, cols[n], cols[n] + "_z", ZGroup(sqrt), key);
    } else {
      ZScoreGroup(f, cols[..n], sqrt, k, key);
      if cols[k] + "_z" == cols[n] + "_z" {
        SuffixInjective(cols[k], cols[n], "_z");
      }
      SameGroupValues(out.rows, g.rows, cols[k] + "_z", cols[k] + "_z", key);
    }
  }

  /** `zscore(df, cols)`: works on a copy; `df` itself is not modified. */
  method ZScore(df: DataFrame, cols: seq<string>, sqrt: real -> real) returns (r: Result<DataFrame, Error>)
    ensures r.Success? <==> ZScoreFrame(df.Value(), cols, sqrt).Success?
    ensures r.Success? ==> fresh(r.value) && r.value.Value() == ZScoreFrame(df.Value(), cols, sqrt).value
    ensures r.Failure? ==> r.error == ZScoreFrame(df.Value(), cols, sqrt).error
  {
    var c := df.Copy();
    ghost var f := df.Value();
    ZGroupLength(sqrt);
    for k := 0 to |cols|
      invariant fresh(c)
      invariant FoldColumns(f, cols[..k], ZStep(sqrt)) == Success(c.Value())
    {
      FoldNext(f, cols, ZStep(sqrt), k);
      var step := AddGroupedColumn(c, cols[k], cols[k] + "_z", ZGroup(sqrt));
      if step.Failure? {
        FoldFails(f, cols, ZStep(sqrt), k + 1);
        return Failure(step.error);
      }
    }
    assert cols[..|cols|] == cols;
    r := Success(c);
  }

  // ---------------------------------------------------------------- winsorize

  predicate RealLe(a: real, b: real) {
    a <= b
  }

  lemma RealLeTotalPreorder()
    ensures TotalPreorder(RealLe)
  {
  }

  /** The values sorted ascending. */
  function SortReals(s: seq<real>): (r: seq<real>)
    ensures |r| == |s| && multiset(r) == multiset(s)
    ensures forall i, j :: 0 <= i < j < |r| ==> r[i] <= r[j]
  {
    RealLeTotalPreorder();
    SortByLength(s, RealLe);
    SortBy(s, RealLe)
  }

  /** `x.quantile(q)`: missing values skipped; a group with no value has no quantile. */
  function Quantile(x: seq<Cell>, q: real): (r: Cell)
    requires 0.0 <= q <= 1.0
    ensures r.Some? <==> |Present(x)| > 0
    ensures r.Some? ==> (exists a :: a in Present(x) && a <= r.value) && (exists b :: b in Present(x) && r.value <= b)
  {
    var s := SortReals(Present(x));
    if s == [] then None
    else
      var v := Lerp(s, QuantilePos(|s|, q));
      LerpRange(s, QuantilePos(|s|, q));
      Bracketed(Present(x), s, v);
      Some(v)
  }

  /** A value between the first and the last of a rearrangement of `p` has a value of `p` on
      either side. */
  lemma Bracketed(p: seq<real>, s: seq<real>, v: real)
    requires multiset(s) == multiset(p) && |s| > 0 && s[0] <= v <= s[|s| - 1]
    ensures exists a :: a in p && a <= v
    ensures exists b :: b in p && v <= b
  {
    assert s[0] in multiset(s) && s[|s| - 1] in multiset(s);
    assert s[0] in p && s[|s| - 1] in p;
  }

  /** At level 0 the quantile is the smallest present value, at level 1 the largest. */
  lemma QuantileExtremes(x: seq<Cell>)
    requires |Present(x)| > 0
    ensures forall a :: a in Present(x) ==> Quantile(x, 0.0).value <= a <= Quantile(x, 1.0).value
  {
    var s := SortReals(Present(x));
    var n := |s|;
    assert QuantilePos(n, 0.0) == 0.0;
    assert QuantilePos(n, 1.0) == (n - 1) as real;
    LerpEnds(s);
    assert Quantile(x, 0.0).value == s[0] && Quantile(x, 1.0).value == s[n - 1];
    forall a | a in Present(x)
      ensures s[0] <= a <= s[n - 1]
    {
      SortedMember(Present(x), s, a);
    }
  }

  lemma SortedMember(p: seq<real>, s: seq<real>, a: real)
    requires multiset(s) == multiset(p) && a in p
    requires forall i, j :: 0 <= i < j < |s| ==> s[i] <= s[j]
    ensures |s| > 0 && s[0] <= a <= s[|s| - 1]
  {
    assert a in multiset(p);
    assert a in s;
    var j :| 0 <= j < |s| && s[j] == a;
  }

  /** With `lower <= upper`, the lower quantile of a group is at most its upper quantile. */
  lemma QuantileMonotone(x: seq<Cell>, lower: real, upper: real)
    requires 0.0 <= lower <= upper <= 1.0
    ensures Quantile(x, lower).Some? <==> Quantile(x, upper).Some?
    ensures Quantile(x, lower).Some? ==> Quantile(x, lower).value <= Quantile(x, upper).value
  {
    var s := SortReals(Present(x));
    if s != [] {
      QuantilePosMonotone(|s|, lower, upper);
      LerpMonotone(s, QuantilePos(|s|, lower), QuantilePos(|s|, upper));
    }
  }

  /** `Series.clip(lo, hi)` on one value: a missing bound is no bound, scalar bounds given in the
      wrong order are swapped, and a missing value stays missing. */
  function Clip(v: Cell, lo: Cell, hi: Cell): (c: Cell)
    ensures c.Some? <==> v.Some?
  {
    match v
    case None => None
    case Some(x) =>
      var (l, h) := if lo.Some? && hi.Some? && lo.value > hi.value then (hi, lo) else (lo, hi);
      var y := if l.Some? && x < l.value then l.value else x;
      Some(if h.Some? && y > h.value then h.value else y)
  }

  /** A clipped value lies inside the bounds. */
  lemma ClipInBounds(v: Cell, lo: Cell, hi: Cell)
    requires v.Some?
    ensures lo.Some? && hi.Some? && lo.value <= hi.value ==> lo.value <= Clip(v, lo, hi).value <= hi.value
    ensures lo.Some? && hi.None? ==> lo.value <= Clip(v, lo, hi).value
    ensures lo.None? && hi.Some? ==> Clip(v, lo, hi).value <= hi.value
    ensures lo.None? && hi.None? ==> Clip(v, lo, hi) == v
  {
  }

  /** A value already inside the bounds is left alone. */
  lemma ClipUnchanged(v: Cell, lo: Cell, hi: Cell)
    requires lo.Some? && hi.Some? && v.Some? && lo.value <= v.value <= hi.value
    ensures Clip(v, lo, hi) == v
  {
  }

  /** Clipping keeps the order of values. */
  lemma ClipMonotone(v: Cell, w: Cell, lo: Cell, hi: Cell)
    requires v.Some? && w.Some? && v.value <= w.value
    ensures Clip(v, lo, hi).value <= Clip(w, lo, hi).value
  {
  }

  /** For fixed bounds, clipping twice is clipping once. */
  lemma ClipIdempotent(v: Cell, lo: Cell, hi: Cell)
    ensures Clip(Clip(v, lo, hi), lo, hi) == Clip(v, lo, hi)
  {
  }

  /** `clip_group`: each value clipped to the group's own `lower` and `upper` quantiles. */
  function ClipGroup(lower: real, upper: real): seq<Cell> -> seq<Cell>
    requires 0.0 <= lower <= 1.0 && 0.0 <= upper <= 1.0
  {
    x => seq(|x|, i requires 0 <= i < |x| => Clip(x[i], Quantile(x, lower), Quantile(x, upper)))
  }

  lemma ClipGroupLength(lower: real, upper: real)
    requires 0.0 <= lower <= 1.0 && 0.0 <= upper <= 1.0
    ensures LengthPreserving(ClipGroup(lower, upper))
  {
    forall s: seq<Cell>
      ensures |ClipGroup(lower, upper)(s)| == |s|
    {
    }
  }

  /** After `clip_group` every present value lies between the group's quantiles, values already
      between them are kept, and missing values stay missing. */
  lemma ClipGroupBounds(x: seq<Cell>, lower: real, upper: real, i: nat)
    requires 0.0 <= lower <= upper <= 1.0 && i < |x|
    ensures ClipGroup(lower, upper)(x)[i].Some? <==> x[i].Some?
    ensures x[i].Some? ==> Quantile(x, lower).Some? && Quantile(x, upper).Some?
    ensures x[i].Some? ==>
              Quantile(x, lower).value <= ClipGroup(lower, upper)(x)[i].value <= Quantile(x, upper).value
    ensures x[i].Some? && Quantile(x, lower).value <= x[i].value <= Quantile(x, upper).value ==>
              ClipGroup(lower, upper)(x)[i] == x[i]
  {
    var lo, hi := Quantile(x, lower), Quantile(x, upper);
    assert ClipGroup(lower, upper)(x)[i] == Clip(x[i], lo, hi);
    QuantileMonotone(x, lower, upper);
    if x[i].Some? {
      PresentNonEmpty(x, i);
      ClipInBounds(x[i], lo, hi);
      if lo.value <= x[i].value <= hi.value {
        ClipUnchanged(x[i], lo, hi);
      }
    }
  }

  lemma {:induction false} PresentNonEmpty(x: seq<Cell>, i: nat)
    requires i < |x| && x[i].Some?
    ensures |Present(x)| > 0
    decreases |x|
  {
    if i > 0 {
      PresentNonEmpty(x[1..], i - 1);
    }
  }

  /** Clipping a group keeps its order: a value at most another stays at most it. */
  lemma ClipGroupMonotone(x: seq<Cell>, lower: real, upper: real, i: nat, j: nat)
    requires 0.0 <= lower <= 1.0 && 0.0 <= upper <= 1.0 && i < |x| && j < |x|
    requires x[i].Some? && x[j].Some? && x[i].value <= x[j].value
    ensures ClipGroup(lower, upper)(x)[i].value <= ClipGroup(lower, upper)(x)[j].value
  {
    ClipMonotone(x[i], x[j], Quantile(x, lower), Quantile(x, upper));
  }

  lemma PresentThree(a: real, b: real, c: real)
    ensures Present([Some(a), Some(b), Some(c)]) == [a, b, c]
  {
    var x := [Some(a), Some(b), Some(c)];
    PresentAll(x);
    assert Present(x)[0] == a && Present(x)[1] == b && Present(x)[2] == c;
  }

  /** The quantile of three ascending values. */
  lemma QuantileThree(a: real, b: real, c: real, q: real)
    requires a <= b <= c && 0.0 <= q <= 1.0
    ensures Quantile([Some(a), Some(b), Some(c)], q) == Some(Lerp([a, b, c], QuantilePos(3, q)))
  {
    PresentThree(a, b, c);
    SortedIdentity([a, b, c]);
  }

  /** Interpolation among three values below position 1, and from position 1 on. */
  lemma LerpLow(a: real, b: real, c: real, pos: real)
    requires 0.0 <= pos < 1.0
    ensures Lerp([a, b, c], pos) == a + pos * (b - a)
  {
    assert pos.Floor == 0;
  }

  lemma LerpHigh(a: real, b: real, c: real, pos: real)
    requires 1.0 <= pos < 2.0
    ensures Lerp([a, b, c], pos) == b + (pos - 1.0) * (c - b)
  {
    assert pos.Floor == 1;
  }

  /** The default levels over [0, 1, 2]: quantiles 0.02 and 1.98. */
  lemma FirstPassQuantiles()
    ensures Quantile([Some(0.0), Some(1.0), Some(2.0)], 0.01) == Some(0.02)
    ensures Quantile([Some(0.0), Some(1.0), Some(2.0)], 0.99) == Some(1.98)
  {
    QuantileThree(0.0, 1.0, 2.0, 0.01);
    QuantileThree(0.0, 1.0, 2.0, 0.99);
    assert QuantilePos(3, 0.01) == 0.02;
    assert QuantilePos(3, 0.99) == 1.98;
    LerpLow(0.0, 1.0, 2.0, 0.02);
    LerpHigh(0.0, 1.0, 2.0, 1.98);
  }

  /** The 1% and 99% quantiles of [0.02, 1, 1.98] are 0.0396 and 1.9604. */
  lemma SecondPassQuantile()
    ensures Quantile([Some(0.02), Some(1.0), Some(1.98)], 0.01) == Some(0.0396)
    ensures Quantile([Some(0.02), Some(1.0), Some(1.98)], 0.99) == Some(1.9604)
  {
    QuantileThree(0.02, 1.0, 1.98, 0.01);
    assert QuantilePos(3, 0.01) == 0.02;
    LerpLow(0.02, 1.0, 1.98, 0.02);
    QuantileThree(0.02, 1.0, 1.98, 0.99);
    assert QuantilePos(3, 0.99) == 1.98;
    LerpHigh(0.02, 1.0, 1.98, 1.98);
  }

  /** Winsorizing twice is not winsorizing once: the quantiles are recomputed from the clipped
      values. With the default 1% and 99%, [0, 1, 2] becomes [0.02, 1, 1.98], whose own 1%
      quantile is 0.0396, so a second pass moves 0.02 to 0.0396. */
  lemma WinsorizeNotIdempotent()
    ensures var x: seq<Cell> := [Some(0.0), Some(1.0), Some(2.0)];
            && ClipGroup(0.01, 0.99)(x) == [Some(0.02), Some(1.0), Some(1.98)]
            && ClipGroup(0.01, 0.99)(ClipGroup(0.01, 0.99)(x))[0] == Some(0.0396)
  {
    FirstPass();
    SecondPass();
  }

  lemma FirstPass()
    ensures ClipGroup(0.01, 0.99)([Some(0.0), Some(1.0), Some(2.0)]) == [Some(0.02), Some(1.0), Some(1.98)]
  {
    var x: seq<Cell> := [Some(0.0), Some(1.0), Some(2.0)];
    FirstPassQuantiles();
    ClipThree(x, 0.02, 1.98);
    ClipValues();
    assert x[0] == Some(0.0) && x[1] == Some(1.0) && x[2] == Some(2.0);
  }

  lemma ClipValues()
    ensures Clip(Some(0.0), Some(0.02), Some(1.98)) == Some(0.02)
    ensures Clip(Some(1.0), Some(0.02), Some(1.98)) == Some(1.0)
    ensures Clip(Some(2.0), Some(0.02), Some(1.98)) == Some(1.98)
  {
  }

  /** A three-value group clipped to known quantiles. */
  lemma ClipThree(x: seq<Cell>, lo: real, hi: real)
    requires |x| == 3 && Quantile(x, 0.01) == Some(lo) && Quantile(x, 0.99) == Some(hi)
    ensures ClipGroup(0.01, 0.99)(x)
            == [Clip(x[0], Some(lo), Some(hi)), Clip(x[1], Some(lo), Some(hi)), Clip(x[2], Some(lo), Some(hi))]
  {
  }

  lemma SecondPass()
    ensures ClipGroup(0.01, 0.99)([Some(0.02), Some(1.0), Some(1.98)])[0] == Some(0.0396)
  {
    var z: seq<Cell> := [Some(0.02), Some(1.0), Some(1.98)];
    SecondPassQuantile();
    ClipThree(z, 0.0396, 1.9604);
    assert z[0] == Some(0.02);
    ClipLow();
  }

  lemma ClipLow()
    ensures Clip(Some(0.02), Some(0.0396), Some(1.9604)) == Some(0.0396)
  {
  }

  /** Sorting values that are already ascending changes nothing. */
  lemma SortedIdentity(s: seq<real>)
    requires forall i, j :: 0 <= i < j < |s| ==> s[i] <= s[j]
    ensures SortReals(s) == s
  {
    RealLeTotalPreorder();
    SortBySorted(s, RealLe);
  }

  /** One pass of the `winsorize` loop: `df[col] = df.groupby("code")[col].transform(clip_group)`.
      `quantile` refuses a level outside [0, 1] with a ValueError, the first time a group is
      clipped. */
  function WStep(lower: real, upper: real): (Frame, string) -> Result<Frame, Error> {
    (f: Frame, col: string) =>
      if "code" in f.columns && col in f.columns && !(0.0 <= lower <= 1.0 && 0.0 <= upper <= 1.0) then
        if |f.rows| > 0 then Failure(ValueError("percentiles should all be in the interval [0, 1]"))
        else Success(Assign(f, col, []))
      else AddGrouped(f, col, col, ClipGroupFor(lower, upper))
  }

  /** The function handed to `transform`; with a level outside [0, 1] it is never called on a
      value, as `quantile` raises first. */
  function ClipGroupFor(lower: real, upper: real): (fn: seq<Cell> -> seq<Cell>)
    ensures LengthPreserving(fn)
  {
    if 0.0 <= lower <= 1.0 && 0.0 <= upper <= 1.0 then
      ClipGroupLength(lower, upper);
      ClipGroup(lower, upper)
    else
      x => x
  }

  /** The table `winsorize(df, cols, lower, upper)` returns, column by column in order. It fails
      with a KeyError for a missing `code` column or a listed column the table lacks, or with a
      ValueError for a level outside [0, 1] on a table with rows; with levels in [0, 1] and every
      column there it succeeds. */
  function WinsorizeFrame(f: Frame, cols: seq<string>, lower: real, upper: real): (r: Result<Frame, Error>)
    ensures 0.0 <= lower <= 1.0 && 0.0 <= upper <= 1.0 && "code" in f.columns && (forall c :: c in cols ==> c in f.columns)
            ==> r.Success?
    ensures r.Failure? ==>
              || r.error == KeyError(["code"])
              || (exists c :: c in cols && c !in f.columns && r.error == KeyError([c]))
              || (r.error == ValueError("percentiles should all be in the interval [0, 1]")
                  && !(0.0 <= lower <= 1.0 && 0.0 <= upper <= 1.0) && |f.rows| > 0)
  {
    WinsorizeOutcome(f, cols, lower, upper);
    FoldColumns(f, cols, WStep(lower, upper))
  }

  /** `winsorize` rewrites the listed columns in place and nothing else: the header, the index,
      the rows' order, codes and dates, and every column not listed stay as they were. */
  lemma {:induction false} WinsorizeKeeps(f: Frame, cols: seq<string>, lower: real, upper: real)
    requires FoldColumns(f, cols, WStep(lower, upper)).Success?
    ensures var g := FoldColumns(f, cols, WStep(lower, upper)).value;
            && g.index == f.index && g.columns == f.columns && |g.rows| == |f.rows|
            && (forall i :: 0 <= i < |f.rows| ==> g.rows[i].code == f.rows[i].code && g.rows[i].datetime == f.rows[i].datetime)
            && (forall i, d :: 0 <= i < |f.rows| && d !in cols ==> Get(g.rows[i], d) == Get(f.rows[i], d))
    decreases |cols|
  {
    if cols != [] {
      var n := |cols| - 1;
      WinsorizeKeeps(f, cols[..n], lower, upper);
      var g := FoldColumns(f, cols[..n], WStep(lower, upper)).value;
      assert FoldColumns(f, cols, WStep(lower, upper)) == WStep(lower, upper)(g, cols[n]);
      assert cols[n] in cols;
      forall d | d !in cols ensures d !in cols[..n] {}
    }
  }

  /** The outcome of the column loop, as `WinsorizeFrame` states it. */
  lemma {:induction false} WinsorizeOutcome(f: Frame, cols: seq<string>, lower: real, upper: real)
    ensures var r := FoldColumns(f, cols, WStep(lower, upper));
            && (0.0 <= lower <= 1.0 && 0.0 <= upper <= 1.0 && "code" in f.columns && (forall c :: c in cols ==> c in f.columns)
                ==> r.Success?)
            && (r.Failure? ==>
                  || r.error == KeyError(["code"])
                  || (exists c :: c in cols && c !in f.columns && r.error == KeyError([c]))
                  || (r.error == ValueError("percentiles should all be in the interval [0, 1]")
                      && !(0.0 <= lower <= 1.0 && 0.0 <= upper <= 1.0) && |f.rows| > 0))
    decreases |cols|
  {
    if cols != [] {
      var n := |cols| - 1;
      WinsorizeOutcome(f, cols[..n], lower, upper);
      assert cols == cols[..n] + [cols[n]];
      var pre := FoldColumns(f, cols[..n], WStep(lower, upper));
      if pre.Success? {
        WinsorizeKeeps(f, cols[..n], lower, upper);
        assert FoldColumns(f, cols, WStep(lower, upper)) == WStep(lower, upper)(pre.value, cols[n]);
        assert cols[n] in cols;
      }
    }
  }

  /** With levels in [0, 1], each listed column is clipped group by group to that group's own
      quantiles, taken over the column as the caller passed it in, provided the column is listed
      once. */
  lemma {:induction false} WinsorizeGroup(f: Frame, cols: seq<string>, lower: real, upper: real, k: nat, key: string)
    requires 0.0 <= lower <= 1.0 && 0.0 <= upper <= 1.0
    requires WinsorizeFrame(f, cols, lower, upper).Success? && k < |cols|
    requires forall j :: 0 <= j < |cols| && j != k ==> cols[j] != cols[k]
    ensures GroupValues(WinsorizeFrame(f, cols, lower, upper).value.rows, key, cols[k])
            == ClipGroup(lower, upper)(GroupValues(f.rows, key, cols[k]))
    decreases |cols|
  {
    var n := |cols| - 1;
    var pre := FoldColumns(f, cols[..n], WStep(lower, upper));
    assert pre.Success?;
    var g := pre.value;
    var out := WinsorizeFrame(f, cols, lower, upper).value;
    assert ClipGroupFor(lower, upper) == ClipGroup(lower, upper);
    assert WinsorizeFrame(f, cols, lower, upper) == AddGrouped(g, cols[n], cols[n], ClipGroupFor(lower, upper));
    if k == n {
      WinsorizeKeeps(f, cols[..n], lower, upper);
      assert cols[n] !in cols[..n];
      SameGroupValues(g.rows, f.rows, cols[n], cols[n], key);
      AddGroupedGroup(g, cols[n], cols[n], ClipGroupFor(lower, upper), key);
    } else {
      WinsorizeGroup(f, cols[..n], lower, upper, k, key);
      SameGroupValues(out.rows, g.rows, cols[k], cols[k], key);
    }
  }

  /** `winsorize(df, cols, lower=0.01, upper=0.99)`: works on a copy; `df` itself is not modified. */
  method Winsorize(df: DataFrame, cols: seq<string>, lower: real := 0.01, upper: real := 0.99)
    returns (r: Result<DataFrame, Error>)
    ensures r.Success? <==> WinsorizeFrame(df.Value(), cols, lower, upper).Success?
    ensures r.Success? ==> fresh(r.value) && r.value.Value() == WinsorizeFrame(df.Value(), cols, lower, upper).value
    ensures r.Failure? ==> r.error == WinsorizeFrame(df.Value(), cols, lower, upper).error
  {
    var c := df.Copy();
    ghost var f := df.Value();
    for k := 0 to |cols|
      invariant fresh(c)
      invariant FoldColumns(f, cols[..k], WStep(lower, upper)) == Success(c.Value())
    {
      FoldNext(f, cols, WStep(lower, upper), k);
      var col := cols[k];
      if "code" in c.columns && col in c.columns && !(0.0 <= lower <= 1.0 && 0.0 <= upper <= 1.0) {
        if |c.rows| > 0 {
          FoldFails(f, cols, WStep(lower, upper), k + 1);
          return Failure(ValueError("percentiles should all be in the interval [0, 1]"));
        }
        c.SetColumn(col, []);
      } else {
        var clip := ClipGroupFor(lower, upper);
        var step := AddGroupedColumn(c, col, col, clip);
        if step.Failure? {
          FoldFails(f, cols, WStep(lower, upper), k + 1);
          return Failure(step.error);
        }
      }
    }
    assert cols[..|cols|] == cols;
    r := Success(c);
  }
}
