/// The coordinate stepper of `copy_resize_image` (main.cpp): a position along one
/// axis is kept as an integral index plus a fractional part in [0, 1).  The
/// floating-point arithmetic of main.cpp is idealised here as `real`.
module Stepper {

  /// Row-major flattened index of column `x` in row `y` of an image `w` pixels wide
  /// (the `index` lambda).
  function Index(x: nat, y: nat, w: nat): (r: nat)
    ensures x < w ==> y * w <= r < y * w + w
  {
    y * w + x
  }

  /// A positive multiple of `w` is at least `w`.
  lemma {:induction false} MultipleAtLeast(d: int, w: int)
    requires d >= 1 && w > 0
    ensures d * w >= w
  {
    if d > 1 {
      MultipleAtLeast(d - 1, w);
      assert d * w == (d - 1) * w + w;
    }
  }

  /// Division with remainder has a unique answer.
  lemma DivModUnique(k: int, w: int, q: int, r: int)
    requires w > 0 && 0 <= r < w && k == q * w + r
    ensures k / w == q && k % w == r
  {
    var q', r' := k / w, k % w;
    assert (q - q') * w == r' - r;
    if q > q' {
      MultipleAtLeast(q - q', w);
    } else if q < q' {
      MultipleAtLeast(q' - q, w);
    }
  }

  /// For a column inside the row, `%` and `/` by the width recover the column and
  /// the row from the flattened index: the decomposition `x = offset % w2`,
  /// `y = offset / w2` that seeds a tile inverts `Index`.
  lemma IndexInverse(x: nat, y: nat, w: nat)
    requires x < w
    ensures Index(x, y, w) % w == x && Index(x, y, w) / w == y
  {
    DivModUnique(Index(x, y, w), w, y, x);
  }

  /// Every flattened index is the index of its own column and row.
  lemma IndexDecompose(offset: nat, w: nat)
    requires w > 0
    ensures offset % w < w && Index(offset % w, offset / w, w) == offset
  {
  }

  /// A stepper position: `integral` plus `fractional`.
  datatype Split = Split(integral: nat, fractional: real)

  /// The fractional part is renormalised into [0, 1).
  predicate Normal(s: Split)
  {
    0.0 <= s.fractional < 1.0
  }

  /// The position a split stands for.
  function Value(s: Split): (v: real)
  {
    s.integral as real + s.fractional
  }

  /// A normalised split is determined by the position it stands for.
  lemma {:induction false} NormalUnique(a: Split, b: Split)
    requires Normal(a) && Normal(b) && Value(a) == Value(b)
    ensures a == b
  {
    var d := a.integral - b.integral;
    assert d as real == b.fractional - a.fractional;
  }

  /// The closed form of step `w` (the `translate` lambda): the integral and
  /// fractional parts of `w * ratio`, as `std::modf` splits them.
  function Translate(w: nat, ratio: real): (s: Split)
    requires ratio >= 0.0
    ensures Normal(s) && Value(s) == w as real * ratio
  {
    var v := w as real * ratio;
    Split(v.Floor, v - v.Floor as real)
  }

  /// The incremental step (`inc_split`, and its inline copy in `worker`): add `dx`
  /// to the fractional part, then carry whole units into the integral part.
  method IncSplit(s: Split, dx: real) returns (t: Split)
    ensures Value(t) == Value(s) + dx
    ensures t.integral >= s.integral
    ensures t.fractional < 1.0
    ensures s.fractional + dx >= 0.0 ==> Normal(t)
    ensures s.fractional + dx < 1.0 ==> t == Split(s.integral, s.fractional + dx)
  {
    var fractional, integral := s.fractional + dx, s.integral;
    while fractional >= 1.0
      invariant integral as real + fractional == Value(s) + dx
      invariant integral >= s.integral
      invariant s.fractional + dx >= 0.0 ==> fractional >= 0.0
      invariant s.fractional + dx < 1.0 ==> integral == s.integral && fractional == s.fractional + dx
      decreases fractional.Floor
    {
      fractional := fractional - 1.0;
      integral := integral + 1;
    }
    t := Split(integral, fractional);
  }

  /// The incremental and the closed-form realisations agree: a normalised split
  /// one `ratio` past the closed form of step `n` is the closed form of step `n + 1`.
  /// With `IncSplit`'s contract this shows that stepping from a seed computed by
  /// `Translate` never drifts from `Translate`.
  lemma SteppingMatchesTranslate(n: nat, ratio: real, t: Split)
    requires ratio >= 0.0
    requires Normal(t) && Value(t) == Value(Translate(n, ratio)) + ratio
    ensures t == Translate(n + 1, ratio)
  {
    assert (n + 1) as real * ratio == n as real * ratio + ratio;
    NormalUnique(t, Translate(n + 1, ratio));
  }
}
