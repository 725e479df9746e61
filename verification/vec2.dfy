/**
  Two-dimensional real vectors, standing in for the 32-bit float `Vec2` of the
  simulator. Rounding is not modelled: every operation is exact.
 */
module Vec2s {

  datatype Vec2 = Vec2(x: real, y: real)

  const Zero: Vec2 := Vec2(0.0, 0.0)

  /**
    Product of two reals, with its sign rules stated once so that the
    solver never has to rediscover them for a particular product.
   */
  function Mul(a: real, b: real): (r: real)
    ensures (a > 0.0 && b > 0.0) || (a < 0.0 && b < 0.0) ==> r > 0.0
    ensures (a > 0.0 && b < 0.0) || (a < 0.0 && b > 0.0) ==> r < 0.0
    ensures a == 0.0 || b == 0.0 ==> r == 0.0
  {
    a * b
  }

  function Sq(v: real): (r: real)
    ensures r >= 0.0
    ensures r == 0.0 <==> v == 0.0
  {
    Mul(v, v)
  }

  function Add(a: Vec2, b: Vec2): Vec2 {
    Vec2(a.x + b.x, a.y + b.y)
  }

  function Sub(a: Vec2, b: Vec2): Vec2 {
    Vec2(a.x - b.x, a.y - b.y)
  }

  function Neg(a: Vec2): Vec2 {
    Vec2(-a.x, -a.y)
  }

  function Scale(k: real, a: Vec2): Vec2 {
    Vec2(Mul(k, a.x), Mul(k, a.y))
  }

  function Dot(a: Vec2, b: Vec2): real {
    Mul(a.x, b.x) + Mul(a.y, b.y)
  }

  /** `length_squared` of the source: zero exactly for the zero vector. */
  function LengthSq(a: Vec2): (r: real)
    ensures r >= 0.0
    ensures r == 0.0 <==> a == Zero
  {
    Sq(a.x) + Sq(a.y)
  }

  /**
    The square root is not computed: it is supplied by the caller as a
    function that returns, for every non-negative input, a non-negative
    number whose square is that input.
   */
  ghost predicate IsSqrt(sqrt: real -> real) {
    forall v: real {:trigger sqrt(v)} :: 0.0 <= v ==> 0.0 <= sqrt(v) && Sq(sqrt(v)) == v
  }

  /** Two non-negative numbers with the same square are equal. */
  lemma SquareInjective(r: real, s: real)
    requires 0.0 <= r && 0.0 <= s && Sq(r) == Sq(s)
    ensures r == s
  {
  }

  /** On non-negative numbers, squaring preserves and reflects the order. */
  lemma SquareOrder(a: real, b: real)
    requires 0.0 <= a && 0.0 <= b
    ensures Sq(a) <= Sq(b) <==> a <= b
    ensures Sq(a) < Sq(b) <==> a < b
  {
    assert Mul(b - a, b + a) == Sq(b) - Sq(a);
  }

  /** The square root of a positive number is positive. */
  lemma SqrtPositive(sqrt: real -> real, v: real)
    requires IsSqrt(sqrt)
    requires 0.0 < v
    ensures 0.0 < sqrt(v)
  {
    assert 0.0 <= sqrt(v) && Sq(sqrt(v)) == v;
  }

  lemma SqrtZero(sqrt: real -> real)
    requires IsSqrt(sqrt)
    ensures sqrt(0.0) == 0.0
  {
    assert 0.0 <= sqrt(0.0) && Sq(sqrt(0.0)) == 0.0;
  }

  /** The square root of a perfect square `Sq(s)`, `s >= 0`, is `s`. */
  lemma SqrtOfSquare(sqrt: real -> real, s: real)
    requires IsSqrt(sqrt)
    requires 0.0 <= s
    ensures sqrt(Sq(s)) == s
  {
    SquareInjective(sqrt(Sq(s)), s);
  }

  /** Scaling pulls out of a dot product. */
  lemma DotScale(k: real, a: Vec2, b: Vec2)
    ensures Dot(Scale(k, a), b) == Mul(k, Dot(a, b))
  {
    assert Mul(Mul(k, a.x), b.x) == Mul(k, Mul(a.x, b.x));
    assert Mul(Mul(k, a.y), b.y) == Mul(k, Mul(a.y, b.y));
  }

  /** Scaling a vector scales its squared length by the square of the factor. */
  lemma LengthSqScale(k: real, a: Vec2)
    ensures LengthSq(Scale(k, a)) == Mul(Sq(k), LengthSq(a))
  {
    assert Sq(Mul(k, a.x)) == Mul(Sq(k), Sq(a.x));
    assert Sq(Mul(k, a.y)) == Mul(Sq(k), Sq(a.y));
  }

  /**
    Dividing a vector of length `d > 0` by `d` gives a unit vector that
    points the same way: its dot product with the original is `d`.
   */
  lemma UnitVector(a: Vec2, d: real)
    requires d > 0.0 && Sq(d) == LengthSq(a)
    ensures LengthSq(Scale(1.0 / d, a)) == 1.0
    ensures Dot(Scale(1.0 / d, a), a) == d
  {
    LengthSqScale(1.0 / d, a);
    DotScale(1.0 / d, a, a);
    assert Dot(a, a) == LengthSq(a);
    assert Mul(Sq(1.0 / d), Sq(d)) == 1.0;
    assert Mul(1.0 / d, Sq(d)) == d;
  }
}
