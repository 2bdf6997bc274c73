/** Points of the plane and rotations by a cosine c and a sine s with c * c + s * s == 1.

    The products are kept inside small functions, so that the proofs above them compare function
    applications and not products. */
module Plane {

  datatype Point = Point(x: real, y: real)

  function Times(a: real, b: real): real { a * b }

  function Sq(a: real): real { Times(a, a) }

  lemma TimesUnit(a: real)
    ensures Times(a, 1.0) == a && Times(1.0, a) == a
    ensures Times(a, 0.0) == 0.0 && Times(0.0, a) == 0.0
  {
  }

  // The vector (x, y) turned by the rotation (c, s), and turned back.
  function TurnX(x: real, y: real, c: real, s: real): real { x * c - y * s }
  function TurnY(x: real, y: real, c: real, s: real): real { x * s + y * c }
  function BackX(x: real, y: real, c: real, s: real): real { x * c + y * s }
  function BackY(x: real, y: real, c: real, s: real): real { -x * s + y * c }

  function LengthSq(x: real, y: real): real { x * x + y * y }

  lemma TurnKeepsLength(x: real, y: real, c: real, s: real)
    requires c * c + s * s == 1.0
    ensures LengthSq(TurnX(x, y, c, s), TurnY(x, y, c, s)) == LengthSq(x, y)
    ensures LengthSq(BackX(x, y, c, s), BackY(x, y, c, s)) == LengthSq(x, y)
  {
    assert (x * c - y * s) * (x * c - y * s) + (x * s + y * c) * (x * s + y * c)
        == (x * x + y * y) * (c * c + s * s);
    assert (x * c + y * s) * (x * c + y * s) + (-x * s + y * c) * (-x * s + y * c)
        == (x * x + y * y) * (c * c + s * s);
  }

  lemma TurnUndone(x: real, y: real, c: real, s: real)
    requires c * c + s * s == 1.0
    ensures TurnX(BackX(x, y, c, s), BackY(x, y, c, s), c, s) == x
    ensures TurnY(BackX(x, y, c, s), BackY(x, y, c, s), c, s) == y
    ensures BackX(TurnX(x, y, c, s), TurnY(x, y, c, s), c, s) == x
    ensures BackY(TurnX(x, y, c, s), TurnY(x, y, c, s), c, s) == y
  {
    assert (x * c + y * s) * c - (-x * s + y * c) * s == x * (c * c + s * s);
    assert (x * c + y * s) * s + (-x * s + y * c) * c == y * (c * c + s * s);
    assert (x * c - y * s) * c + (x * s + y * c) * s == x * (c * c + s * s);
    assert -(x * c - y * s) * s + (x * s + y * c) * c == y * (c * c + s * s);
  }

  lemma TurnTurn(x: real, y: real, c: real, s: real, d: real, t: real)
    ensures TurnX(TurnX(x, y, c, s), TurnY(x, y, c, s), d, t) == TurnX(x, y, TurnX(c, s, d, t), TurnY(c, s, d, t))
    ensures TurnY(TurnX(x, y, c, s), TurnY(x, y, c, s), d, t) == TurnY(x, y, TurnX(c, s, d, t), TurnY(c, s, d, t))
  {
  }

  lemma TurnSum(x: real, y: real, u: real, v: real, c: real, s: real)
    ensures TurnX(x + u, y + v, c, s) == TurnX(x, y, c, s) + TurnX(u, v, c, s)
    ensures TurnY(x + u, y + v, c, s) == TurnY(x, y, c, s) + TurnY(u, v, c, s)
  {
  }

  lemma TurnByUnit(x: real, y: real)
    ensures TurnX(x, y, 1.0, 0.0) == x && TurnY(x, y, 1.0, 0.0) == y
    ensures TurnX(1.0, 0.0, x, y) == x && TurnY(1.0, 0.0, x, y) == y
    ensures TurnX(0.0, 0.0, x, y) == 0.0 && TurnY(0.0, 0.0, x, y) == 0.0
  {
  }

  lemma SignOfProduct(u: real, d: real)
    requires d > 0.0
    ensures u > 0.0 <==> u * d > 0.0
    ensures u < 0.0 <==> u * d < 0.0
  {
  }

  // The same facts about Times, for proofs that hide the product itself.

  lemma SignOfTimes(u: real, d: real)
    requires d > 0.0
    ensures u > 0.0 <==> Times(u, d) > 0.0
    ensures u < 0.0 <==> Times(u, d) < 0.0
    ensures u == 0.0 <==> Times(u, d) == 0.0
  {
    SignOfProduct(u, d);
  }

  lemma TimesNegated(a: real, b: real)
    ensures Times(-a, -b) == Times(a, b)
  {
  }

  lemma TimesDifference(a: real, b: real, n: real)
    ensures Times(b - a, n) == Times(b, n) - Times(a, n)
  {
  }

  lemma SquareSign(a: real)
    ensures Sq(a) >= 0.0
    ensures a != 0.0 ==> Sq(a) > 0.0
  {
    TimesNegated(a, a);
    TimesUnit(0.0);
    hide Times;
    if a > 0.0 {
      SignOfTimes(a, a);
    } else if a < 0.0 {
      SignOfTimes(-a, -a);
    }
  }

  lemma TimesSum(n: real, a: real, b: real)
    ensures Times(n, a + b) == Times(n, a) + Times(n, b)
  {
  }

  lemma SquareOfTimes(a: real, r: real)
    ensures Sq(Times(a, r)) == Times(Sq(r), Sq(a))
  {
    assert (a * r) * (a * r) == (r * r) * (a * a);
  }

  lemma SquareDifference(a: real, b: real)
    ensures Sq(b) - Sq(a) == Times(b - a, b + a)
  {
  }

  lemma SquareOrder(a: real, b: real)
    requires 0.0 <= a <= b
    ensures Sq(a) <= Sq(b)
    ensures a < b ==> Sq(a) < Sq(b)
  {
    SquareDifference(a, b);
    hide Times;
    if a < b {
      SignOfTimes(b - a, b + a);
    }
  }

  lemma TimesOrder(a: real, b: real, n: real)
    requires n >= 0.0 && a <= b
    ensures Times(a, n) <= Times(b, n)
    ensures a < b && n > 0.0 ==> Times(a, n) < Times(b, n)
  {
    TimesDifference(a, b, n);
    TimesUnit(a);
    TimesUnit(b);
    hide Times;
    if n > 0.0 {
      SignOfTimes(b - a, n);
    }
  }

  lemma NonNegativeProduct(a: real, b: real)
    requires a >= 0.0 && b >= 0.0
    ensures a * b >= 0.0
  {
  }

  lemma ScaleBound(a: real, b: real, m: real)
    requires a <= b && m >= 0.0
    ensures a * m <= b * m
  {
  }

  lemma SquareBound(d: real, m: real)
    requires m >= 0.0 && d * d <= m * m
    ensures d <= m
  {
    assert Sq(d) <= Sq(m);
    if d > m {
      SquareOrder(m, d);
    }
  }

  lemma CauchySchwarz(x: real, y: real, u: real, v: real)
    ensures (x * u + y * v) * (x * u + y * v) <= (x * x + y * y) * (u * u + v * v)
  {
    var e := x * v - y * u;
    assert (x * u + y * v) * (x * u + y * v) + e * e == (x * x + y * y) * (u * u + v * v);
    assert e * e >= 0.0;
  }

  /** The triangle inequality without square roots: a step of length l after a displacement within r. */
  lemma Triangle(x: real, y: real, u: real, v: real, r: real, l: real)
    requires r >= 0.0 && l >= 0.0
    requires LengthSq(x, y) <= r * r && LengthSq(u, v) == l * l
    ensures LengthSq(x + u, y + v) <= (r + l) * (r + l)
  {
    var d := x * u + y * v;
    CauchySchwarz(x, y, u, v);
    ScaleBound(x * x + y * y, r * r, l * l);
    assert (r * r) * (l * l) == (r * l) * (r * l);
    NonNegativeProduct(r, l);
    SquareBound(d, r * l);
    assert (x + u) * (x + u) + (y + v) * (y + v) == (x * x + y * y) + 2.0 * d + (u * u + v * v);
    assert (r + l) * (r + l) == r * r + 2.0 * (r * l) + l * l;
  }
}
