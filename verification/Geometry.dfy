/**
 Real arithmetic behind the pointer statistics. The length of a sum of two displacements is at most the sum of their
 lengths, and the square of the dot product of two vectors is at most the product of their squared lengths, with equality
 exactly for multiples. Products are handled one fact at a time, since the verifier's own reasoning about them is slow.
 Floating-point rounding is not modelled.
 */
module Geometry {

  function Sq(a: real): real {
    a * a
  }

  function Mul(a: real, b: real): real {
    a * b
  }

  /** `Math.hypot`, known by its square. */
  ghost predicate IsHypot(h: (real, real) -> real) {
    forall x, y :: h(x, y) >= 0.0 && Sq(h(x, y)) == Sq(x) + Sq(y)
  }

  lemma SqNonNegative(a: real)
    ensures Sq(a) >= 0.0
  {
  }

  lemma SqZero(a: real)
    ensures Sq(a) == 0.0 <==> a == 0.0
  {
    if a > 0.0 {
      MulPositive(a, a);
    } else if a < 0.0 {
      MulPositive(-a, -a);
      assert Mul(-a, -a) == Sq(a);
    }
  }

  lemma MulPositive(a: real, b: real)
    requires a > 0.0 && b > 0.0
    ensures Mul(a, b) > 0.0
  {
  }

  lemma MulNonNegative(a: real, b: real)
    requires a >= 0.0 && b >= 0.0
    ensures Mul(a, b) >= 0.0
  {
  }

  lemma SqStrictlyMonotone(a: real, b: real)
    requires 0.0 <= a < b
    ensures Sq(a) < Sq(b)
  {
    MulPositive(b, b - a);
    assert Sq(b) - Mul(b, a) == Mul(b, b - a);
  }

  /** Square roots are monotone. */
  lemma RootMonotone(a: real, b: real)
    requires Sq(a) <= Sq(b) && b >= 0.0
    ensures a <= b
  {
    if a > b {
      SqStrictlyMonotone(b, a);
    }
  }

  lemma SqOfProduct(a: real, b: real)
    ensures Sq(Mul(a, b)) == Mul(Sq(a), Sq(b))
  {
    assert a * b * (a * b) == (a * a) * (b * b);
  }

  lemma Lagrange(ax: real, ay: real, bx: real, by_: real)
    ensures Sq(Mul(ax, bx) + Mul(ay, by_)) <= Mul(Sq(ax) + Sq(ay), Sq(bx) + Sq(by_))
  {
    SqNonNegative(ax * by_ - ay * bx);
    assert Mul(Sq(ax) + Sq(ay), Sq(bx) + Sq(by_)) - Sq(Mul(ax, bx) + Mul(ay, by_)) == Sq(ax * by_ - ay * bx);
  }

  lemma SqOfSum(a: real, b: real)
    ensures Sq(a + b) == Sq(a) + 2.0 * Mul(a, b) + Sq(b)
  {
  }

  lemma TriangleInequality(h: (real, real) -> real, ax: real, ay: real, bx: real, by_: real)
    requires IsHypot(h)
    ensures h(ax + bx, ay + by_) <= h(ax, ay) + h(bx, by_)
  {
    hide Sq, Mul;
    var a, b := h(ax, ay), h(bx, by_);
    var dot := Mul(ax, bx) + Mul(ay, by_);
    Lagrange(ax, ay, bx, by_);
    SqOfProduct(a, b);
    MulNonNegative(a, b);
    RootMonotone(dot, Mul(a, b));
    SqOfSum(ax, bx);
    SqOfSum(ay, by_);
    SqOfSum(a, b);
    RootMonotone(h(ax + bx, ay + by_), a + b);
  }

  // -- Sums of products ----------------------------------------------------------------------------

  function Dot(a: seq<real>, b: seq<real>): real
    requires |a| == |b|
  {
    if a == [] then 0.0 else Dot(a[..|a| - 1], b[..|b| - 1]) + Mul(a[|a| - 1], b[|b| - 1])
  }

  /** The entries t * a[i] + b[i]. */
  function Combine(t: real, a: seq<real>, b: seq<real>): (c: seq<real>)
    requires |a| == |b|
    ensures |c| == |a|
  {
    seq(|a|, i requires 0 <= i < |a| => Mul(t, a[i]) + b[i])
  }

  lemma {:induction false} DotSelf(a: seq<real>)
    ensures Dot(a, a) >= 0.0
    ensures Dot(a, a) == 0.0 <==> forall i | 0 <= i < |a| :: a[i] == 0.0
  {
    hide Mul;
    if a != [] {
      var front, last := a[..|a| - 1], a[|a| - 1];
      DotSelf(front);
      SelfProduct(last);
      assert forall i | 0 <= i < |front| :: front[i] == a[i];
      assert Dot(a, a) == Dot(front, front) + Mul(last, last);
    }
  }

  lemma SelfProduct(a: real)
    ensures Mul(a, a) == Sq(a) && Mul(a, a) >= 0.0 && (Mul(a, a) == 0.0 <==> a == 0.0)
  {
    SqNonNegative(a);
    SqZero(a);
  }

  lemma SquareOfCombination(t: real, a: real, b: real)
    ensures Mul(Mul(t, a) + b, Mul(t, a) + b) == Mul(Sq(t), Mul(a, a)) + 2.0 * Mul(t, Mul(a, b)) + Mul(b, b)
  {
    var u := t * a;
    assert (u + b) * (u + b) == u * u + 2.0 * (u * b) + b * b;
    assert u * u == (t * t) * (a * a);
    assert u * b == t * (a * b);
  }

  lemma MulDistributes(t: real, a: real, b: real)
    ensures Mul(t, a + b) == Mul(t, a) + Mul(t, b)
  {
  }

  /** The squared length of t * a + b as a polynomial in t. */
  lemma {:induction false} DotOfCombination(t: real, a: seq<real>, b: seq<real>)
    requires |a| == |b|
    ensures Dot(Combine(t, a, b), Combine(t, a, b))
         == Mul(Sq(t), Dot(a, a)) + 2.0 * Mul(t, Dot(a, b)) + Dot(b, b)
  {
    hide Mul, Sq;
    if a == [] {
      MulDistributes(t, 0.0, 0.0);
      MulDistributes(Sq(t), 0.0, 0.0);
    } else {
      var n := |a| - 1;
      var c := Combine(t, a, b);
      DotOfCombination(t, a[..n], b[..n]);
      assert c[..n] == Combine(t, a[..n], b[..n]);
      assert Dot(c, c) == Dot(c[..n], c[..n]) + Mul(c[n], c[n]);
      SquareOfCombination(t, a[n], b[n]);
      MulDistributes(Sq(t), Dot(a[..n], a[..n]), Mul(a[n], a[n]));
      MulDistributes(t, Dot(a[..n], b[..n]), Mul(a[n], b[n]));
    }
  }

  lemma AtMinimum(p: real, q: real, r: real)
    requires p > 0.0
    ensures Mul(p, Mul(Sq(-q / p), p) + 2.0 * Mul(-q / p, q) + r) == Mul(p, r) - Sq(q)
  {
    var t := -q / p;
    assert t * p == -q;
    assert Mul(Sq(t), p) == t * (t * p);
    assert p * (t * (t * p)) == (t * p) * (t * p);
    assert p * (t * q) == (t * p) * q;
  }

  lemma PositiveTimes(p: real, s: real)
    requires p > 0.0
    ensures s >= 0.0 ==> Mul(p, s) >= 0.0
    ensures Mul(p, s) == 0.0 <==> s == 0.0
  {
  }

  /** The Cauchy-Schwarz inequality; the two sides are equal exactly if b is a multiple of a. */
  lemma CauchySchwarz(a: seq<real>, b: seq<real>)
    requires |a| == |b| && Dot(a, a) > 0.0
    ensures Sq(Dot(a, b)) <= Mul(Dot(a, a), Dot(b, b))
    ensures Sq(Dot(a, b)) == Mul(Dot(a, a), Dot(b, b)) <==> exists k :: IsMultiple(k, a, b)
  {
    hide Mul, Sq;
    var p, q, r := Dot(a, a), Dot(a, b), Dot(b, b);
    var t := -q / p;
    var c := Combine(t, a, b);
    DotOfCombination(t, a, b);
    DotSelf(c);
    AtMinimum(p, q, r);
    PositiveTimes(p, Dot(c, c));
    if Dot(c, c) == 0.0 {
      CombinationVanishes(t, a, b);
    }
    forall k | IsMultiple(k, a, b) ensures Sq(q) == Mul(p, r) {
      DotOfMultiple(k, a, b);
    }
  }

  ghost predicate IsMultiple(k: real, a: seq<real>, b: seq<real>)
    requires |a| == |b|
  {
    forall i | 0 <= i < |a| :: b[i] == Mul(k, a[i])
  }

  lemma CombinationVanishes(t: real, a: seq<real>, b: seq<real>)
    requires |a| == |b| && forall i | 0 <= i < |a| :: Combine(t, a, b)[i] == 0.0
    ensures IsMultiple(-t, a, b)
  {
    forall i | 0 <= i < |a| ensures b[i] == Mul(-t, a[i]) {
      assert Combine(t, a, b)[i] == Mul(t, a[i]) + b[i];
    }
  }

  lemma MultipleStep(k: real, x: real, s: real)
    ensures Mul(x, Mul(k, x)) == Mul(k, Mul(x, x))
    ensures Mul(Mul(k, x), Mul(k, x)) == Mul(Sq(k), Mul(x, x))
    ensures Mul(k, s) + Mul(k, Mul(x, x)) == Mul(k, s + Mul(x, x))
    ensures Mul(Sq(k), s) + Mul(Sq(k), Mul(x, x)) == Mul(Sq(k), s + Mul(x, x))
  {
    MulDistributes(k, s, Mul(x, x));
    MulDistributes(Sq(k), s, Mul(x, x));
    SqOfProduct(k, x);
  }

  lemma {:induction false} DotsOfMultiple(k: real, a: seq<real>, b: seq<real>)
    requires |a| == |b| && IsMultiple(k, a, b)
    ensures Dot(a, b) == Mul(k, Dot(a, a)) && Dot(b, b) == Mul(Sq(k), Dot(a, a))
  {
    hide Mul, Sq;
    if a == [] {
      MulDistributes(k, 0.0, 0.0);
      MulDistributes(Sq(k), 0.0, 0.0);
    } else {
      var n := |a| - 1;
      DotsOfMultiple(k, a[..n], b[..n]);
      MultipleStep(k, a[n], Dot(a[..n], a[..n]));
    }
  }

  lemma DotOfMultiple(k: real, a: seq<real>, b: seq<real>)
    requires |a| == |b| && IsMultiple(k, a, b)
    ensures Sq(Dot(a, b)) == Mul(Dot(a, a), Dot(b, b))
  {
    hide Mul, Sq;
    DotsOfMultiple(k, a, b);
    var p := Dot(a, a);
    SqOfProduct(k, p);
    assert Mul(Sq(k), Sq(p)) == Mul(p, Mul(Sq(k), p)) by {
      Regroup(Sq(k), p);
    }
  }

  lemma Regroup(k: real, p: real)
    ensures Mul(k, Sq(p)) == Mul(p, Mul(k, p))
  {
  }

  /** A quotient of non-negative numbers, the smaller over the larger. */
  lemma QuotientInUnit(a: real, b: real)
    requires 0.0 <= a <= b && b > 0.0
    ensures 0.0 <= a / b <= 1.0
    ensures a / b == 1.0 <==> a == b
  {
  }

  // -- Least squares -------------------------------------------------------------------------------

  /** Of all combinations t * a + b the one with t = -(a, b) / (a, a) is the shortest; this is its squared length. */
  lemma ShortestCombination(a: seq<real>, b: seq<real>, t: real)
    requires |a| == |b| && Dot(a, a) > 0.0
    ensures
      var best := Combine(-Dot(a, b) / Dot(a, a), a, b);
      && Mul(Dot(a, a), Dot(best, best)) == Mul(Dot(a, a), Dot(b, b)) - Sq(Dot(a, b))
      && Dot(best, best) <= Dot(Combine(t, a, b), Combine(t, a, b))
  {
    hide Mul, Sq, Combine, Dot;
    var p, q, r := Dot(a, a), Dot(a, b), Dot(b, b);
    DotOfCombination(-q / p, a, b);
    AtMinimum(p, q, r);
    DotOfCombination(t, a, b);
    CompleteSquare(p, q, r, t);
    var best, other := Combine(-q / p, a, b), Combine(t, a, b);
    CancelFactor(p, Dot(best, best), Dot(other, other));
  }

  lemma CompleteSquare(p: real, q: real, r: real, t: real)
    ensures Mul(p, Mul(Sq(t), p) + 2.0 * Mul(t, q) + r) >= Mul(p, r) - Sq(q)
  {
    assert p * (t * t * p + 2.0 * (t * q) + r) == (p * t + q) * (p * t + q) - q * q + p * r;
    SqNonNegative(p * t + q);
  }

  lemma CancelFactor(p: real, a: real, b: real)
    requires p > 0.0 && Mul(p, a) <= Mul(p, b)
    ensures a <= b
  {
    if a > b {
      MulPositive(p, a - b);
    }
  }

  // -- When the triangle inequality is an equality ---------------------------------------------------

  lemma HypotOfZero(h: (real, real) -> real, x: real, y: real)
    requires IsHypot(h)
    ensures h(x, y) == 0.0 <==> x == 0.0 && y == 0.0
  {
    hide Sq;
    SqZero(h(x, y));
    SqZero(x);
    SqZero(y);
    SqNonNegative(x);
    SqNonNegative(y);
    assert Sq(h(x, y)) == Sq(x) + Sq(y);
  }

  /** Lengths scale with non-negative factors. */
  lemma HypotScales(h: (real, real) -> real, w: real, x: real, y: real)
    requires IsHypot(h) && w >= 0.0
    ensures h(Mul(w, x), Mul(w, y)) == Mul(w, h(x, y))
  {
    hide Sq, Mul;
    SqOfProduct(w, x);
    SqOfProduct(w, y);
    SqOfProduct(w, h(x, y));
    MulDistributes(Sq(w), Sq(x), Sq(y));
    MulNonNegative(w, h(x, y));
    assert Sq(h(x, y)) == Sq(x) + Sq(y);
    var u, v := h(Mul(w, x), Mul(w, y)), Mul(w, h(x, y));
    RootMonotone(u, v);
    RootMonotone(v, u);
  }

  lemma SquareOfDifference(b: real, x: real, a: real, y: real)
    ensures Sq(Mul(b, x) - Mul(a, y)) == Mul(Sq(b), Sq(x)) - 2.0 * Mul(Mul(a, b), Mul(x, y)) + Mul(Sq(a), Sq(y))
  {
    var u, v := b * x, a * y;
    assert (u - v) * (u - v) == u * u - 2.0 * (u * v) + v * v;
    assert u * u == (b * b) * (x * x);
    assert v * v == (a * a) * (y * y);
    assert u * v == (a * b) * (x * y);
  }

  lemma SumsCancel(a: real, b: real, p: real, q: real)
    ensures Mul(Sq(b), p) + Mul(Sq(b), q) == Mul(Sq(b), p + q) && Mul(Mul(a, b), p) + Mul(Mul(a, b), q) == Mul(Mul(a, b), p + q)
    ensures Mul(Sq(b), Sq(a)) - 2.0 * Mul(Mul(a, b), Mul(a, b)) + Mul(Sq(a), Sq(b)) == 0.0
  {
    assert (a * b) * (a * b) == (a * a) * (b * b);
  }

  lemma SquaresVanish(x: real, y: real)
    requires Sq(x) + Sq(y) == 0.0
    ensures x == 0.0 && y == 0.0
  {
    SqNonNegative(x);
    SqNonNegative(y);
    SqZero(x);
    SqZero(y);
  }

  /** Two displacements whose lengths add up point the same way. */
  lemma SameDirection(h: (real, real) -> real, ux: real, uy: real, vx: real, vy: real)
    requires IsHypot(h) && h(ux + vx, uy + vy) == h(ux, uy) + h(vx, vy)
    ensures Mul(h(vx, vy), ux) == Mul(h(ux, uy), vx) && Mul(h(vx, vy), uy) == Mul(h(ux, uy), vy)
  {
    hide Sq, Mul;
    var a, b := h(ux, uy), h(vx, vy);
    assert Sq(a) == Sq(ux) + Sq(uy) && Sq(b) == Sq(vx) + Sq(vy);
    assert Sq(h(ux + vx, uy + vy)) == Sq(ux + vx) + Sq(uy + vy);
    SqOfSum(ux, vx);
    SqOfSum(uy, vy);
    SqOfSum(a, b);
    assert Mul(a, b) == Mul(ux, vx) + Mul(uy, vy);
    SquareOfDifference(b, ux, a, vx);
    SquareOfDifference(b, uy, a, vy);
    SumsCancel(a, b, Sq(ux), Sq(uy));
    SumsCancel(b, a, Sq(vx), Sq(vy));
    SumsCancel(a, b, Mul(ux, vx), Mul(uy, vy));
    SquaresVanish(Mul(b, ux) - Mul(a, vx), Mul(b, uy) - Mul(a, vy));
  }
}
