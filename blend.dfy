/// The generic `lerp` and `bilerp` templates of main.cpp, over exact reals.
/// They state the blend the SSE kernel `bilerp_bgra` approximates per channel.
module Blend {

  function Min(a: real, b: real): (r: real) { if a <= b then a else b }
  function Max(a: real, b: real): (r: real) { if a <= b then b else a }

  /// Linear interpolation from `a` (at t = 0) to `b` (at t = 1).
  function Lerp(a: real, b: real, t: real): (r: real)
    ensures t == 0.0 ==> r == a
    ensures t == 1.0 ==> r == b
  {
    a + (b - a) * t
  }

  /// For a weight in [0, 1] the interpolant lies between its endpoints.
  lemma LerpBetween(a: real, b: real, t: real)
    requires 0.0 <= t <= 1.0
    ensures Min(a, b) <= Lerp(a, b, t) <= Max(a, b)
  {
    var d := if a <= b then b - a else a - b;
    ProductNonNegative(d, t);
    ProductNonNegative(d, 1.0 - t);
    assert d * t + d * (1.0 - t) == d;
  }

  lemma ProductNonNegative(x: real, y: real)
    requires x >= 0.0 && y >= 0.0
    ensures x * y >= 0.0
  {
  }

  /// Bilinear interpolation: `t12` blends a1 -> a2 and b1 -> b2, and `tab` blends
  /// between those two results.
  function Bilerp(a1: real, a2: real, b1: real, b2: real, tab: real, t12: real): (r: real)
    ensures tab == 0.0 && t12 == 0.0 ==> r == a1
    ensures tab == 0.0 && t12 == 1.0 ==> r == a2
    ensures tab == 1.0 && t12 == 0.0 ==> r == b1
    ensures tab == 1.0 && t12 == 1.0 ==> r == b2
    ensures tab == 0.0 ==> r == Lerp(a1, a2, t12)
    ensures tab == 1.0 ==> r == Lerp(b1, b2, t12)
  {
    var a := Lerp(a1, a2, t12);
    var b := Lerp(b1, b2, t12);
    Lerp(a, b, tab)
  }

  /// For weights in [0, 1] the blend never overshoots its four corners.
  lemma BilerpBetween(a1: real, a2: real, b1: real, b2: real, tab: real, t12: real)
    requires 0.0 <= tab <= 1.0 && 0.0 <= t12 <= 1.0
    ensures Min(Min(a1, a2), Min(b1, b2)) <= Bilerp(a1, a2, b1, b2, tab, t12)
    ensures Bilerp(a1, a2, b1, b2, tab, t12) <= Max(Max(a1, a2), Max(b1, b2))
  {
    LerpBetween(a1, a2, t12);
    LerpBetween(b1, b2, t12);
    LerpBetween(Lerp(a1, a2, t12), Lerp(b1, b2, t12), tab);
  }

  /// Blending along the rows first gives the same value as blending along the
  /// columns first.
  lemma BilerpSymmetric(a1: real, a2: real, b1: real, b2: real, tab: real, t12: real)
    ensures Bilerp(a1, a2, b1, b2, tab, t12) == Lerp(Lerp(a1, b1, tab), Lerp(a2, b2, tab), t12)
  {
  }
}
