/** Exact arithmetic behind pandas' `mean`, `std` and `dropna` (missing values skipped). */
module Stats {
  import opened Wrappers

  /** `dropna()`: the present values, in order. */
  function Present(xs: seq<Option<real>>): (p: seq<real>)
    ensures |p| <= |xs|
    decreases |xs|
  {
    if xs == [] then []
    else
      assert xs == [xs[0]] + xs[1..];
      (if xs[0].Some? then [xs[0].value] else []) + Present(xs[1..])
  }

  lemma {:induction false} PresentConcat(a: seq<Option<real>>, b: seq<Option<real>>)
    ensures Present(a + b) == Present(a) + Present(b)
    decreases |a|
  {
    if a != [] {
      assert (a + b)[1..] == a[1..] + b;
      PresentConcat(a[1..], b);
    } else {
      assert a + b == b;
    }
  }

  /** Nothing is left exactly when every value is missing. */
  lemma {:induction false} PresentNone(xs: seq<Option<real>>)
    ensures |Present(xs)| == 0 <==> forall i :: 0 <= i < |xs| ==> xs[i].None?
    decreases |xs|
  {
    if xs != [] {
      PresentNone(xs[1..]);
      assert forall i :: 1 <= i < |xs| ==> xs[i] == xs[1..][i - 1];
    }
  }

  /** A value multiplied by `k`; a missing value stays missing. */
  function ScaleCell(v: Option<real>, k: real): Option<real> {
    if v.None? then None else Some(v.value * k)
  }

  /** `*= k` on a column: every value multiplied by `k`. */
  function Scale(v: seq<Option<real>>, k: real): (w: seq<Option<real>>)
    ensures |w| == |v|
  {
    seq(|v|, t requires 0 <= t < |v| => ScaleCell(v[t], k))
  }

  /** Scaling a column scales its present values and keeps which ones are present. */
  lemma {:induction false} PresentScale(xs: seq<Option<real>>, k: real)
    ensures |Present(Scale(xs, k))| == |Present(xs)|
    ensures forall i :: 0 <= i < |Present(xs)| ==> Present(Scale(xs, k))[i] == Present(xs)[i] * k
    decreases |xs|
  {
    if xs != [] {
      var ys := Scale(xs, k);
      assert ys[1..] == Scale(xs[1..], k);
      PresentScale(xs[1..], k);
      var a, b := Present(xs), Present(ys);
      var a', b' := Present(xs[1..]), Present(ys[1..]);
      if xs[0].Some? {
        assert a == [xs[0].value] + a' && b == [xs[0].value * k] + b';
        forall i | 0 <= i < |a|
          ensures b[i] == a[i] * k
        {
          if i > 0 {
            assert a[i] == a'[i - 1] && b[i] == b'[i - 1];
          }
        }
      } else {
        assert a == a' && b == b';
      }
    }
  }

  /** No value is missing. */
  predicate AllPresent(xs: seq<Option<real>>) {
    forall i :: 0 <= i < |xs| ==> xs[i].Some?
  }

  lemma {:induction false} PresentAll(xs: seq<Option<real>>)
    requires AllPresent(xs)
    ensures |Present(xs)| == |xs|
    ensures forall i :: 0 <= i < |xs| ==> Present(xs)[i] == xs[i].value
    decreases |xs|
  {
    if xs != [] {
      PresentAll(xs[1..]);
    }
  }

  function Sum(s: seq<real>): real
    decreases |s|
  {
    if s == [] then 0.0 else s[0] + Sum(s[1..])
  }

  lemma {:induction false} SumConcat(a: seq<real>, b: seq<real>)
    ensures Sum(a + b) == Sum(a) + Sum(b)
    decreases |a|
  {
    if a != [] {
      assert (a + b)[1..] == a[1..] + b;
      SumConcat(a[1..], b);
    } else {
      assert a + b == b;
    }
  }

  /** `mean()` of values that are all present. */
  function Mean(s: seq<real>): real
    requires |s| > 0
  {
    Sum(s) / (|s| as real)
  }

  lemma Square(x: real)
    ensures x * x >= 0.0
    ensures x != 0.0 ==> x * x > 0.0
  {
    if x < 0.0 {
      assert x * x == (-x) * (-x);
    }
  }

  /** The sum of squared deviations from `m`. */
  function SumSq(s: seq<real>, m: real): (r: real)
    ensures r >= 0.0
    decreases |s|
  {
    if s == [] then 0.0 else Square(s[0] - m); (s[0] - m) * (s[0] - m) + SumSq(s[1..], m)
  }

  /** The sample variance (`ddof=1`, pandas' default), defined for two or more values. */
  function Variance(s: seq<real>): (v: real)
    requires |s| >= 2
    ensures v >= 0.0
  {
    SumSq(s, Mean(s)) / ((|s| - 1) as real)
  }

  /** Deviations from a value every entry equals sum to nothing. */
  lemma {:induction false} SumSqConstant(s: seq<real>, m: real)
    requires forall i :: 0 <= i < |s| ==> s[i] == m
    ensures SumSq(s, m) == 0.0
    decreases |s|
  {
    if s != [] {
      SumSqConstant(s[1..], m);
    }
  }

  lemma {:induction false} SumConstant(s: seq<real>, c: real)
    requires forall i :: 0 <= i < |s| ==> s[i] == c
    ensures Sum(s) == (|s| as real) * c
    decreases |s|
  {
    if s != [] {
      SumConstant(s[1..], c);
    }
  }

  /** A series of one repeated value has that value as its mean and no variance. */
  lemma ConstantStats(s: seq<real>, c: real)
    requires |s| >= 2 && forall i :: 0 <= i < |s| ==> s[i] == c
    ensures Mean(s) == c && Variance(s) == 0.0
  {
    SumConstant(s, c);
    SumSqConstant(s, c);
  }

  /** Every value moved by `c`, as `series - c` does with `c` negated. */
  function Shift(s: seq<real>, c: real): (t: seq<real>)
    ensures |t| == |s| && forall i :: 0 <= i < |s| ==> t[i] == s[i] + c
  {
    seq(|s|, i requires 0 <= i < |s| => s[i] + c)
  }

  lemma {:induction false} SumShift(s: seq<real>, c: real)
    ensures Sum(Shift(s, c)) == Sum(s) + (|s| as real) * c
    decreases |s|
  {
    if s != [] {
      assert Shift(s, c)[1..] == Shift(s[1..], c);
      SumShift(s[1..], c);
    }
  }

  lemma {:induction false} SumSqShift(s: seq<real>, m: real, c: real)
    ensures SumSq(Shift(s, c), m + c) == SumSq(s, m)
    decreases |s|
  {
    if s != [] {
      assert Shift(s, c)[1..] == Shift(s[1..], c);
      assert Shift(s, c)[0] - (m + c) == s[0] - m;
      SumSqShift(s[1..], m, c);
    }
  }

  /** Moving every value moves the mean with it and leaves the variance as it was. */
  lemma ShiftStats(s: seq<real>, c: real)
    requires |s| >= 2
    ensures Mean(Shift(s, c)) == Mean(s) + c
    ensures Variance(Shift(s, c)) == Variance(s)
  {
    var n := |s| as real;
    SumShift(s, c);
    assert (Sum(s) + n * c) / n == Sum(s) / n + c;
    SumSqShift(s, Mean(s), c);
  }

  lemma MulNonneg(a: real, b: real)
    requires a >= 0.0 && b >= 0.0
    ensures a * b >= 0.0
  {
  }

  lemma MulMono(a: real, b: real, k: real)
    requires a <= b && k >= 0.0
    ensures a * k <= b * k
  {
    MulNonneg(b - a, k);
    assert (b - a) * k == b * k - a * k;
  }

  /** Dividing by a positive number keeps the sign. */
  lemma DivSign(d: real, sd: real)
    requires sd > 0.0
    ensures d / sd > 0.0 <==> d > 0.0
    ensures d / sd < 0.0 <==> d < 0.0
    ensures d / sd == 0.0 <==> d == 0.0
  {
  }
}
