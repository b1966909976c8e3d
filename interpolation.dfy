/** Linear-interpolation quantiles of sorted values, as numpy and pandas compute them by default. */
module Interpolation {
  import opened Stats

  /** Where quantile `q` sits among `n` sorted values: `q * (n - 1)`. */
  function QuantilePos(n: nat, q: real): (pos: real)
    requires n > 0 && 0.0 <= q <= 1.0
    ensures 0.0 <= pos <= (n - 1) as real
  {
    MulNonneg(q, (n - 1) as real);
    MulMono(q, 1.0, (n - 1) as real);
    q * ((n - 1) as real)
  }

  /** A higher quantile sits at a later position. */
  lemma QuantilePosMonotone(n: nat, q1: real, q2: real)
    requires n > 0 && 0.0 <= q1 <= q2 <= 1.0
    ensures QuantilePos(n, q1) <= QuantilePos(n, q2)
  {
    MulMono(q1, q2, (n - 1) as real);
  }

  /** Linear interpolation at a fractional position (numpy's and pandas' default
      `interpolation="linear"`): between the values at the whole part and the next one. */
  function Lerp(s: seq<real>, pos: real): real
    requires 0.0 <= pos <= (|s| - 1) as real
  {
    var k := pos.Floor;
    var t := pos - k as real;
    if k + 1 < |s| then s[k] + t * (s[k + 1] - s[k]) else s[k]
  }

  /** A point of the segment from `a` to `b`. */
  lemma Between(a: real, b: real, t: real)
    requires a <= b && 0.0 <= t <= 1.0
    ensures a <= a + t * (b - a) <= b
  {
    MulNonneg(t, b - a);
    MulMono(t, 1.0, b - a);
  }

  lemma BetweenMono(a: real, b: real, t1: real, t2: real)
    requires a <= b && t1 <= t2
    ensures a + t1 * (b - a) <= a + t2 * (b - a)
  {
    MulMono(t1, t2, b - a);
  }

  /** An interpolated value lies between the two sorted values it interpolates. */
  lemma LerpBetween(s: seq<real>, pos: real)
    requires 0.0 <= pos <= (|s| - 1) as real && forall i, j :: 0 <= i < j < |s| ==> s[i] <= s[j]
    ensures s[pos.Floor] <= Lerp(s, pos)
    ensures pos.Floor + 1 < |s| ==> Lerp(s, pos) <= s[pos.Floor + 1]
    ensures pos.Floor + 1 == |s| ==> Lerp(s, pos) == s[pos.Floor]
  {
    var k := pos.Floor;
    if k + 1 < |s| {
      assert s[k] <= s[k + 1];
      Between(s[k], s[k + 1], pos - k as real);
    }
  }

  /** At the first position interpolation gives the first value, at the last the last. */
  lemma LerpEnds(s: seq<real>)
    requires |s| > 0
    ensures Lerp(s, 0.0) == s[0]
    ensures Lerp(s, (|s| - 1) as real) == s[|s| - 1]
  {
    assert (0.0).Floor == 0;
    assert ((|s| - 1) as real).Floor == |s| - 1;
  }

  /** On sorted values an interpolated value lies between the first and the last. */
  lemma LerpRange(s: seq<real>, pos: real)
    requires 0.0 <= pos <= (|s| - 1) as real && forall i, j :: 0 <= i < j < |s| ==> s[i] <= s[j]
    ensures s[0] <= Lerp(s, pos) <= s[|s| - 1]
  {
    LerpEnds(s);
    LerpMonotone(s, 0.0, pos);
    LerpMonotone(s, pos, (|s| - 1) as real);
  }

  /** Interpolation on sorted values is monotone in the position. */
  lemma LerpMonotone(s: seq<real>, p1: real, p2: real)
    requires 0.0 <= p1 <= p2 <= (|s| - 1) as real && forall i, j :: 0 <= i < j < |s| ==> s[i] <= s[j]
    ensures Lerp(s, p1) <= Lerp(s, p2)
  {
    var k1, k2 := p1.Floor, p2.Floor;
    LerpBetween(s, p1);
    LerpBetween(s, p2);
    if k1 == k2 {
      if k1 + 1 < |s| {
        assert s[k1] <= s[k1 + 1];
        BetweenMono(s[k1], s[k1 + 1], p1 - k1 as real, p2 - k2 as real);
      }
    } else {
      assert k1 < k2;
      assert k1 + 1 < |s|;
      assert s[k1 + 1] <= s[k2];
    }
  }
}
