/**
  The piecewise-linear "tent" profile that shapes the type-dependent force.
 */
module Kernel {
  import opened Vec2s

  function Abs(x: real): (r: real)
    ensures r >= 0.0 && (r == x || r == -x)
  {
    if x < 0.0 then -x else x
  }

  /** The unit tent: 1 at the origin, falling linearly to 0 at distance 1. */
  function UnitTriangle(x: real): (r: real)
    ensures 0.0 <= r <= 1.0
    ensures r == 1.0 <==> x == 0.0
    ensures r == 0.0 <==> x <= -1.0 || x >= 1.0
  {
    var v := 1.0 - Abs(x);
    if v > 0.0 then v else 0.0
  }

  /** A tent of height `magnitude`, centred on `middle`, of half-width `width`. */
  function TriangularKernel(magnitude: real, middle: real, width: real, x: real): real
    requires width != 0.0
  {
    Mul(magnitude, UnitTriangle((x - middle) / width))
  }

  /** Scaling by a factor in `[0, 1]` never increases the absolute value. */
  lemma ScaleDown(m: real, u: real)
    requires 0.0 <= u <= 1.0
    ensures Abs(Mul(m, u)) <= Abs(m)
  {
    assert Mul(m, u) == m - Mul(m, 1.0 - u);
  }

  /** Dividing by a positive number keeps the order. */
  lemma QuotientOrder(a: real, b: real, w: real)
    requires w > 0.0 && a <= b
    ensures a / w <= b / w
  {
    var s, t := a / w, b / w;
    assert a == s * w && b == t * w;
  }

  /** A quotient is the number that gives the dividend when multiplied by the divisor. */
  lemma QuotientOf(a: real, q: real, w: real)
    requires w != 0.0 && q * w == a
    ensures a / w == q
  {
  }

  /** The kernel reaches its full magnitude at the centre. */
  lemma KernelPeak(magnitude: real, middle: real, width: real)
    requires width != 0.0
    ensures TriangularKernel(magnitude, middle, width, middle) == magnitude
  {
    assert (middle - middle) / width == 0.0;
  }

  /** The kernel vanishes at both feet of the tent and everywhere beyond them. */
  lemma {:induction false} KernelVanishesOutside(magnitude: real, middle: real, width: real, x: real)
    requires width > 0.0
    requires x <= middle - width || x >= middle + width
    ensures TriangularKernel(magnitude, middle, width, x) == 0.0
  {
    assert width / width == 1.0 && -width / width == -1.0;
    if x >= middle + width {
      QuotientOrder(width, x - middle, width);
    } else {
      QuotientOrder(x - middle, -width, width);
    }
  }

  /** The kernel takes the same value at equal distances on either side of the centre. */
  lemma {:induction false} KernelSymmetric(magnitude: real, middle: real, width: real, t: real)
    requires width != 0.0
    ensures TriangularKernel(magnitude, middle, width, middle + t)
         == TriangularKernel(magnitude, middle, width, middle - t)
  {
    assert (middle + t - middle) / width == -((middle - t - middle) / width);
  }

  /** The kernel never exceeds its magnitude in absolute value. */
  lemma {:induction false} KernelBounded(magnitude: real, middle: real, width: real, x: real)
    requires width != 0.0
    ensures Abs(TriangularKernel(magnitude, middle, width, x)) <= Abs(magnitude)
  {
    ScaleDown(magnitude, UnitTriangle((x - middle) / width));
  }

  /**
    Between the left foot and the centre a non-negative kernel rises
    monotonically (by symmetry it falls between the centre and the right foot).
   */
  lemma {:induction false} KernelRisesToPeak(magnitude: real, middle: real, width: real, x: real, y: real)
    requires width > 0.0 && magnitude >= 0.0
    requires middle - width <= x <= y <= middle
    ensures TriangularKernel(magnitude, middle, width, x) <= TriangularKernel(magnitude, middle, width, y)
  {
    var s := (x - middle) / width;
    var t := (y - middle) / width;
    assert -width / width == -1.0;
    assert 0.0 / width == 0.0;
    QuotientOrder(-width, x - middle, width);
    QuotientOrder(x - middle, y - middle, width);
    QuotientOrder(y - middle, 0.0, width);
    assert Mul(magnitude, UnitTriangle(t)) - Mul(magnitude, UnitTriangle(s))
        == Mul(magnitude, UnitTriangle(t) - UnitTriangle(s));
  }

  /**
    Between each foot and the centre the kernel is the straight line from 0
    to its magnitude: on the left flank it grows with the distance from the
    left foot, on the right flank with the distance to the right foot.
   */
  lemma {:induction false} KernelLinearFlanks(magnitude: real, middle: real, width: real, x: real)
    requires width > 0.0
    ensures middle - width <= x <= middle ==>
              TriangularKernel(magnitude, middle, width, x) == Mul(magnitude, (x - (middle - width)) / width)
    ensures middle <= x <= middle + width ==>
              TriangularKernel(magnitude, middle, width, x) == Mul(magnitude, (middle + width - x) / width)
  {
    var s := (x - middle) / width;
    assert s * width == x - middle;
    QuotientOf(x - (middle - width), 1.0 + s, width);
    QuotientOf(middle + width - x, 1.0 - s, width);
    if middle - width <= x <= middle {
      QuotientOf(-width, -1.0, width);
      QuotientOrder(-width, x - middle, width);
      QuotientOrder(x - middle, 0.0, width);
      assert UnitTriangle(s) == 1.0 + s;
    }
    if middle <= x <= middle + width {
      QuotientOf(width, 1.0, width);
      QuotientOrder(0.0, x - middle, width);
      QuotientOrder(x - middle, width, width);
      assert UnitTriangle(s) == 1.0 - s;
    }
  }
}
