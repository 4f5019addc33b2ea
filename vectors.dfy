/**
 * Dot products and magnitudes, with `Math.sqrt` as a parameter.
 *
 * Numbers are reals, so floating-point rounding is not modelled; `Math.sqrt`
 * is any function that satisfies `IsSqrt`.
 */
module Vectors {
  import opened Records

  /** The laws assumed of `Math.sqrt` on non-negative arguments: the root is
    * non-negative, squares back to its argument, and is zero only at zero. */
  ghost predicate IsSqrt(sqrt: real -> real) {
    forall x :: 0.0 <= x ==> 0.0 <= sqrt(x) && sqrt(x) * sqrt(x) == x && (sqrt(x) == 0.0 <==> x == 0.0)
  }

  /** `sum of a[i] * b[i]`, accumulated from index 0 upwards. */
  function Dot(a: Vector, b: Vector): real
    requires |a| == |b|
    decreases |a|
  {
    if |a| == 0 then 0.0 else Dot(a[..|a| - 1], b[..|b| - 1]) + a[|a| - 1] * b[|b| - 1]
  }

  /** One more index adds its product to the accumulated sum. */
  lemma DotStep(a: Vector, b: Vector, i: nat)
    requires |a| == |b| && i < |a|
    ensures Dot(a[..i + 1], b[..i + 1]) == Dot(a[..i], b[..i]) + a[i] * b[i]
  {
    assert a[..i + 1][..i] == a[..i] && b[..i + 1][..i] == b[..i];
  }

  lemma {:induction false} DotSymmetric(a: Vector, b: Vector)
    requires |a| == |b|
    ensures Dot(a, b) == Dot(b, a)
    decreases |a|
  {
    if |a| > 0 {
      DotSymmetric(a[..|a| - 1], b[..|b| - 1]);
    }
  }

  lemma {:induction false} SumSquaresNonNegative(a: Vector)
    ensures Dot(a, a) >= 0.0
    decreases |a|
  {
    if |a| > 0 {
      SumSquaresNonNegative(a[..|a| - 1]);
      assert a[|a| - 1] * a[|a| - 1] >= 0.0;
    }
  }

  /** The all-zero vector has zero squared magnitude. */
  lemma {:induction false} ZeroVector(a: Vector)
    requires forall i :: 0 <= i < |a| ==> a[i] == 0.0
    ensures Dot(a, a) == 0.0
    decreases |a|
  {
    if |a| > 0 {
      ZeroVector(a[..|a| - 1]);
    }
  }

  /** `Math.sqrt` of the sum of squares. */
  function Magnitude(a: Vector, sqrt: real -> real): real
  {
    sqrt(Dot(a, a))
  }

  /** Each entry divided by `m`. */
  function Scale(a: Vector, m: real): (r: Vector)
    requires m != 0.0
    ensures |r| == |a|
    ensures forall i :: 0 <= i < |a| ==> r[i] == a[i] / m
  {
    seq(|a|, i requires 0 <= i < |a| => a[i] / m)
  }

  lemma Square(x: real, m: real)
    requires m != 0.0
    ensures (x / m) * (x / m) == (x * x) * ((1.0 / m) * (1.0 / m))
  {
    assert x / m == x * (1.0 / m);
  }

  lemma Distribute(x: real, y: real, total: real, p: real, q: real, k: real)
    requires total == x + y && x == p * k && y == q * k
    ensures total == (p + q) * k
  {
  }

  /** Squares scaled entry by entry by `k` scale the sum of squares by `k`. */
  lemma {:induction false} DotPointwiseScaled(s: Vector, a: Vector, k: real)
    requires |s| == |a|
    requires forall i :: 0 <= i < |s| ==> s[i] * s[i] == (a[i] * a[i]) * k
    ensures Dot(s, s) == Dot(a, a) * k
    decreases |s|
  {
    if |s| > 0 {
      var n := |s| - 1;
      DotPointwiseScaled(s[..n], a[..n], k);
      Distribute(Dot(s[..n], s[..n]), s[n] * s[n], Dot(s, s), Dot(a[..n], a[..n]), a[n] * a[n], k);
    }
  }

  lemma DotScale(a: Vector, m: real)
    requires m != 0.0
    ensures Dot(Scale(a, m), Scale(a, m)) == Dot(a, a) * ((1.0 / m) * (1.0 / m))
  {
    var s := Scale(a, m);
    forall i | 0 <= i < |s| ensures s[i] * s[i] == (a[i] * a[i]) * ((1.0 / m) * (1.0 / m)) {
      Square(a[i], m);
    }
    DotPointwiseScaled(s, a, (1.0 / m) * (1.0 / m));
  }

  /** Dividing a vector of positive magnitude by that magnitude gives a unit vector. */
  lemma ScaleToUnit(a: Vector, sqrt: real -> real)
    requires IsSqrt(sqrt)
    requires Magnitude(a, sqrt) != 0.0
    ensures Dot(Scale(a, Magnitude(a, sqrt)), Scale(a, Magnitude(a, sqrt))) == 1.0
  {
    var m := Magnitude(a, sqrt);
    SumSquaresNonNegative(a);
    assert m * m == Dot(a, a);
    DotScale(a, m);
    assert m * (1.0 / m) == 1.0;
    assert (m * m) * ((1.0 / m) * (1.0 / m)) == (m * (1.0 / m)) * (m * (1.0 / m));
  }
}
