/** Facts of real arithmetic used by the blending in the transition loop. */
module RealFacts {

  /** The linear blend from `a` (weight 0) to `b` (weight 1). */
  function Lerp(t: real, a: real, b: real): real {
    a + t * (b - a)
  }

  /** `Lerp` is the blend as the program writes it: `t * b + (1 - t) * a`. */
  lemma LerpAsWritten(t: real, a: real, b: real)
    ensures Lerp(t, a, b) == t * b + (1.0 - t) * a
  {
  }

  lemma MulBetweenNegative(t: real, x: real)
    requires 0.0 <= t <= 1.0 && x <= 0.0
    ensures x <= t * x <= 0.0
  {
  }

  lemma LerpUp(t: real, a: real, b: real)
    requires 0.0 <= t <= 1.0 && a <= b
    ensures a <= Lerp(t, a, b) <= b
  {
    var m := t * (b - a);
    MulBetween(t, b - a);
    assert Lerp(t, a, b) == a + m;
  }

  lemma LerpDown(t: real, a: real, b: real)
    requires 0.0 <= t <= 1.0 && b <= a
    ensures b <= Lerp(t, a, b) <= a
  {
    var m := t * (b - a);
    MulBetweenNegative(t, b - a);
    assert Lerp(t, a, b) == a + m;
  }

  /** A blend with weight in [0, 1] lies between its two ends. */
  lemma LerpBetween(t: real, a: real, b: real)
    requires 0.0 <= t <= 1.0
    ensures a <= b ==> a <= Lerp(t, a, b) <= b
    ensures b <= a ==> b <= Lerp(t, a, b) <= a
  {
    if a <= b {
      LerpUp(t, a, b);
    }
    if b <= a {
      LerpDown(t, a, b);
    }
  }

  /** A blend with weight `1 + k` extrapolates past `b` by `k` times the distance. */
  lemma LerpExtrapolate(k: real, a: real, b: real)
    ensures Lerp(k + 1.0, a, b) == b + k * (b - a)
  {
  }

  lemma MulCancel(a: real, b: real, d: real)
    requires 0.0 < d && a * d == b * d
    ensures a == b
  {
  }

  lemma DivShift(x: real, d: real)
    requires 0.0 < d
    ensures (x + d) / d == x / d + 1.0
    ensures (x / d) * d == x
  {
    var q := x / d;
    var z := (x + d) / d;
    assert z * d == x + d;
    assert (q + 1.0) * d == x + d;
    MulCancel(z, q + 1.0, d);
  }

  lemma MulBetween(t: real, x: real)
    requires 0.0 <= t <= 1.0 && 0.0 <= x
    ensures 0.0 <= t * x <= x
  {
  }

  lemma MulPositive(x: real, y: real)
    requires 0.0 < x && 0.0 < y
    ensures 0.0 < x * y
  {
  }

  lemma DivBetween(x: real, d: real)
    requires 0.0 <= x <= d && 0.0 < d
    ensures 0.0 <= x / d <= 1.0
  {
  }

  lemma DivPositive(x: real, d: real)
    requires 0.0 < x && 0.0 < d
    ensures 0.0 < x / d
  {
  }

  lemma Factor(k: real, G: real, B: real, E: real)
    ensures k * G + k * (E - B) == k * (G - (B - E))
  {
  }

}
