/** Point arithmetic on the curve y^2 = x^3 + 7 modulo a prime p (kips/kip-0005/reference.py). */
module Curve {
  import opened Congruence
  import opened Powers
  import opened Primes

  /** The source fixes the prime of secp256k1; everything here holds for any
      modulus p with the properties a lemma asks for. */
  type Modulus = m: nat | m > 2 witness 3

  /** Python's Optional[Point]: None is the point at infinity. */
  datatype Point = Infinity | Affine(x: int, y: int)

  function PointAdd(a: Point, b: Point, p: Modulus): Point {
    if a.Infinity? then b
    else if b.Infinity? then a
    else if a.x == b.x && a.y != b.y then Infinity
    else
      var lam := if a == b then (3 * a.x * a.x * ModPow(2 * a.y, p - 2, p)) % p
                 else ((b.y - a.y) * ModPow(b.x - a.x, p - 2, p)) % p;
      var x3 := (lam * lam - a.x - b.x) % p;
      Affine(x3, (lam * (a.x - x3) - a.y) % p)
  }

  // --- the curve equation over the integers modulo a prime p ---

  predicate Solves(x: int, y: int, p: nat)
    requires p > 0
  {
    Cong(y * y, x * x * x + 7, p)
  }

  lemma {:induction false} SolvesCong(x: int, y: int, x': int, y': int, p: nat)
    requires p > 0
    requires Solves(x, y, p) && Cong(x', x, p) && Cong(y', y, p)
    ensures Solves(x', y', p)
  {
    CongMul(y', y, y', y, p);
    CongMul(x', x, x', x, p);
    CongMul(x' * x', x * x, x', x, p);
    CongAdd(x' * x' * x', x * x * x, 7, 7, p);
    CongSym(x' * x' * x' + 7, x * x * x + 7, p);
    CongTrans(y' * y', y * y, x * x * x + 7, p);
    CongTrans(y' * y', x * x * x + 7, x' * x' * x' + 7, p);
  }

  // X^3 + 7 minus the square of the line through (x1, y1) with slope l is
  // (X - x1)(X - x2)(X - x3) + U X + V, where x3 = l^2 - x1 - x2.

  function U(x1: int, y1: int, x2: int, l: int): int {
    -2 * l * (y1 - l * x1) - (x1 * x2 + (x1 + x2) * (l * l - x1 - x2))
  }

  function V(x1: int, y1: int, x2: int, l: int): int {
    7 - (y1 - l * x1) * (y1 - l * x1) + x1 * x2 * (l * l - x1 - x2)
  }

  function Line(x1: int, y1: int, l: int, t: int): int {
    l * (t - x1) + y1
  }

  lemma {:induction false} LineIdentity(x1: int, y1: int, x2: int, l: int, t: int)
    ensures t * t * t + 7 - Line(x1, y1, l, t) * Line(x1, y1, l, t)
         == (t - x1) * (t - x2) * (t - (l * l - x1 - x2)) + U(x1, y1, x2, l) * t + V(x1, y1, x2, l)
  {
  }

  lemma {:induction false} ThirdPoint(x1: int, y1: int, x2: int, l: int, p: nat)
    requires p > 0
    requires U(x1, y1, x2, l) % p == 0 && V(x1, y1, x2, l) % p == 0
    ensures var x3 := l * l - x1 - x2; Solves(x3, l * (x1 - x3) - y1, p)
  {
    var x3 := l * l - x1 - x2;
    var u, v, y3 := U(x1, y1, x2, l), V(x1, y1, x2, l), l * (x1 - x3) - y1;
    LineIdentity(x1, y1, x2, l, x3);
    assert (x3 - x1) * (x3 - x2) * (x3 - x3) == 0;
    var w := Line(x1, y1, l, x3);
    assert y3 == -w;
    assert y3 * y3 == w * w;
    ZeroMul(u, x3, p);
    ZeroAdd(u * x3, v, p);
    ZeroMul(u * x3 + v, -1, p);
    assert y3 * y3 - (x3 * x3 * x3 + 7) == (u * x3 + v) * -1;
  }

  lemma {:induction false} FirstPoint(x1: int, y1: int, x2: int, l: int, p: nat)
    requires p > 0 && Solves(x1, y1, p)
    ensures (U(x1, y1, x2, l) * x1 + V(x1, y1, x2, l)) % p == 0
    ensures U(x1, y1, x2, l) % p == 0 ==> V(x1, y1, x2, l) % p == 0
  {
    var u, v := U(x1, y1, x2, l), V(x1, y1, x2, l);
    LineIdentity(x1, y1, x2, l, x1);
    assert Line(x1, y1, l, x1) == y1;
    assert (x1 - x1) * (x1 - x2) * (x1 - (l * l - x1 - x2)) == 0;
    ZeroMul(y1 * y1 - (x1 * x1 * x1 + 7), -1, p);
    assert u * x1 + v == (y1 * y1 - (x1 * x1 * x1 + 7)) * -1;
    if u % p == 0 {
      ZeroMul(u, x1, p);
      ZeroAdd(u * x1 + v, u * x1, p);
    }
  }

  lemma {:induction false} Chord(x1: int, y1: int, x2: int, y2: int, l: int, p: nat)
    requires IsPrime(p) && Solves(x1, y1, p) && Solves(x2, y2, p)
    requires (x2 - x1) % p != 0 && Cong(l * (x2 - x1), y2 - y1, p)
    ensures var x3 := l * l - x1 - x2; Solves(x3, l * (x1 - x3) - y1, p)
  {
    var u, v, w := U(x1, y1, x2, l), V(x1, y1, x2, l), Line(x1, y1, l, x2);
    FirstPoint(x1, y1, x2, l, p);
    assert w - y2 == l * (x2 - x1) - (y2 - y1);
    SolvesCong(x2, y2, x2, w, p);
    LineIdentity(x1, y1, x2, l, x2);
    assert (x2 - x1) * (x2 - x2) * (x2 - (l * l - x1 - x2)) == 0;
    ZeroMul(w * w - (x2 * x2 * x2 + 7), -1, p);
    ZeroAdd((w * w - (x2 * x2 * x2 + 7)) * -1, u * x1 + v, p);
    assert u * (x2 - x1) == (w * w - (x2 * x2 * x2 + 7)) * -1 - (u * x1 + v);
    Euclid(p, u, x2 - x1);
    ThirdPoint(x1, y1, x2, l, p);
  }

  lemma {:induction false} Tangent(x1: int, y1: int, l: int, p: nat)
    requires IsPrime(p) && Solves(x1, y1, p)
    requires Cong(l * (2 * y1), 3 * x1 * x1, p)
    ensures var x3 := l * l - x1 - x1; Solves(x3, l * (x1 - x3) - y1, p)
  {
    var u := U(x1, y1, x1, l);
    ZeroMul(l * (2 * y1) - 3 * x1 * x1, -1, p);
    assert u == (l * (2 * y1) - 3 * x1 * x1) * -1;
    FirstPoint(x1, y1, x1, l, p);
    ThirdPoint(x1, y1, x1, l, p);
  }

  // --- points ---

  predicate OnCurve(a: Point, p: Modulus) {
    a.Infinity? || (0 <= a.x < p && 0 <= a.y < p && Solves(a.x, a.y, p))
  }

  /** The one case the formulas of point_add do not cover: doubling (x, 0). */
  ghost predicate HalfPoint(a: Point) {
    a.Affine? && a.y == 0
  }

  lemma {:induction false} ReducedPoint(l: int, x1: int, y1: int, x3: int, p: Modulus)
    requires Solves(x3, l * (x1 - x3) - y1, p)
    ensures OnCurve(Affine(x3 % p, (l * (x1 - x3 % p) - y1) % p), p)
  {
    var x, y := x3 % p, l * (x1 - x3 % p) - y1;
    CongMod(x3, p);
    CongAdd(x1, x1, x, x3, p);
    CongMul(l, l, x1 - x, x1 - x3, p);
    CongAdd(l * (x1 - x), l * (x1 - x3), y1, y1, p);
    CongMod(y, p);
    CongTrans(y % p, y, l * (x1 - x3) - y1, p);
    SolvesCong(x3, l * (x1 - x3) - y1, x, y % p, p);
  }

  /** The slope point_add uses really is the quotient it stands for. */
  lemma {:induction false} Quotient(num: int, den: int, p: Modulus)
    requires IsPrime(p) && den % p != 0
    ensures Cong((num * ModPow(den, p - 2, p)) % p * den, num, p)
  {
    var i := ModPow(den, p - 2, p);
    Inverse(den, p);
    CongMod(num * i, p);
    CongMul((num * i) % p, num * i, den, den, p);
    CongMul(num, num, i * den, 1, p);
    MulAssoc(num, i, den);
    CongTrans((num * i) % p * den, num * i * den, num, p);
  }

  lemma {:induction false} SmallResidue(d: int, p: Modulus)
    requires 0 - p < d < p && d != 0
    ensures d % p != 0
  {
    if d % p == 0 {
      var k := Witness(d, p);
      ProductFarFromZero(p, k);
    }
  }

  lemma {:induction false} TwiceNonZero(y: int, p: Modulus)
    requires IsPrime(p) && 0 < y < p
    ensures (2 * y) % p != 0
  {
    SmallResidue(2, p);
    SmallResidue(y, p);
    ProductNonZero(p, 2, y);
  }

  lemma {:induction false} DoubleClosed(a: Point, p: Modulus)
    requires IsPrime(p) && OnCurve(a, p) && a.Affine? && a.y != 0
    ensures OnCurve(PointAdd(a, a, p), p)
  {
    TwiceNonZero(a.y, p);
    var num := 3 * a.x * a.x;
    Quotient(num, 2 * a.y, p);
    var l := (num * ModPow(2 * a.y, p - 2, p)) % p;
    Tangent(a.x, a.y, l, p);
    ReducedPoint(l, a.x, a.y, l * l - a.x - a.x, p);
  }

  lemma {:induction false} ChordClosed(a: Point, b: Point, p: Modulus)
    requires IsPrime(p) && OnCurve(a, p) && OnCurve(b, p) && a.Affine? && b.Affine? && a.x != b.x
    ensures OnCurve(PointAdd(a, b, p), p)
  {
    SmallResidue(b.x - a.x, p);
    Quotient(b.y - a.y, b.x - a.x, p);
    var l := ((b.y - a.y) * ModPow(b.x - a.x, p - 2, p)) % p;
    Chord(a.x, a.y, b.x, b.y, l, p);
    ReducedPoint(l, a.x, a.y, l * l - a.x - b.x, p);
  }

  lemma {:induction false} HalfPointValue(a: Point, p: Modulus)
    requires HalfPoint(a)
    ensures PointAdd(a, a, p) == Affine((-2 * a.x) % p, 0)
  {
    assert Pow(0, p - 2) == 0 * Pow(0, p - 3);
    var lam := (3 * a.x * a.x * ModPow(2 * a.y, p - 2, p)) % p;
    assert lam == 0 by { assert 3 * a.x * a.x * 0 == 0; }
    assert lam * lam - a.x - a.x == -2 * a.x;
  }

  lemma {:induction false} HalfPointDouble(a: Point, p: Modulus)
    requires IsPrime(p) && 63 % p != 0 && OnCurve(a, p) && HalfPoint(a)
    ensures !OnCurve(PointAdd(a, a, p), p)
  {
    var x3 := -2 * a.x;
    HalfPointValue(a, p);
    CongMod(x3, p);
    if Solves(x3 % p, 0, p) {
      SolvesCong(x3 % p, 0, x3, 0, p);
      TwoHalfPoints(a.x, p);
    }
  }

  lemma {:induction false} TwoHalfPoints(x: int, p: nat)
    requires p > 0 && Solves(x, 0, p) && Solves(-2 * x, 0, p)
    ensures 63 % p == 0
  {
    var c := x * x * x;
    assert (-2 * x) * (-2 * x) * (-2 * x) == -8 * c;
    ZeroMul(0 - (c + 7), 8, p);
    ZeroAdd(0 - (-8 * c + 7), (0 - (c + 7)) * 8, p);
    ZeroMul((0 - (-8 * c + 7)) + (0 - (c + 7)) * 8, -1, p);
    assert ((0 - (-8 * c + 7)) + (0 - (c + 7)) * 8) * -1 == 63;
  }

  /** point_add keeps points on the curve, except for exactly one call: doubling
      a point with y = 0, which yields a pair that is not on the curve. */
  lemma {:induction false} AddClosed(a: Point, b: Point, p: Modulus)
    requires IsPrime(p) && 63 % p != 0 && OnCurve(a, p) && OnCurve(b, p)
    ensures OnCurve(PointAdd(a, b, p), p) <==> !(a == b && HalfPoint(a))
  {
    if a.Affine? && b.Affine? {
      if a.x != b.x {
        ChordClosed(a, b, p);
      } else if a == b && a.y != 0 {
        DoubleClosed(a, p);
      } else if a == b {
        HalfPointDouble(a, p);
      }
    }
  }

  // --- the chord and tangent law ---

  predicate Reduced(r: Point, p: Modulus) {
    r.Affine? && 0 <= r.x < p && 0 <= r.y < p
  }

  /** r is the reflected third point of the line with slope num / den through (x1, y1) and
      a second point at x2. */
  predicate ReflectedThird(num: int, den: int, x1: int, y1: int, x2: int, r: Point, p: Modulus) {
    && Reduced(r, p)
    && Cong((r.x + x1 + x2) * (den * den), num * num, p)
    && Cong((r.y + y1) * den, num * (x1 - r.x), p)
  }

  lemma {:induction false} SquareOfQuotient(l: int, num: int, den: int, p: Modulus)
    requires Cong(l * den, num, p)
    ensures Cong((l * l) * (den * den), num * num, p)
  {
    CongMul(l * den, num, l * den, num, p);
    assert (l * den) * (l * den) == (l * l) * (den * den);
  }

  lemma {:induction false} SlopeX(l: int, num: int, den: int, x1: int, x2: int, x3: int, p: Modulus)
    requires Cong(l * den, num, p) && Cong(x3, l * l - x1 - x2, p)
    ensures Cong((x3 + x1 + x2) * (den * den), num * num, p)
  {
    var d := den * den;
    SquareOfQuotient(l, num, den, p);
    assert x3 - (l * l - x1 - x2) == (x3 + x1 + x2) - l * l;
    CongMod(d, p);
    CongMul(x3 + x1 + x2, l * l, d, d, p);
    CongTrans((x3 + x1 + x2) * d, (l * l) * d, num * num, p);
  }

  lemma {:induction false} SlopeY(l: int, num: int, den: int, t: int, y1: int, y3: int, p: Modulus)
    requires Cong(l * den, num, p) && Cong(y3, l * t - y1, p)
    ensures Cong((y3 + y1) * den, num * t, p)
  {
    assert y3 - (l * t - y1) == (y3 + y1) - l * t;
    CongMod(den, p);
    CongMul(y3 + y1, l * t, den, den, p);
    CongMod(t, p);
    CongMul(l * den, num, t, t, p);
    MulAssoc(l, den, t);
    MulAssoc(l, t, den);
    CongTrans((y3 + y1) * den, (l * t) * den, num * t, p);
  }

  /** The formulas of point_add, for any slope. */
  lemma {:induction false} SlopeLaw(num: int, den: int, x1: int, y1: int, x2: int, p: Modulus)
    requires IsPrime(p) && den % p != 0
    ensures
      var l := (num * ModPow(den, p - 2, p)) % p;
      var x3 := (l * l - x1 - x2) % p;
      ReflectedThird(num, den, x1, y1, x2, Affine(x3, (l * (x1 - x3) - y1) % p), p)
  {
    var l := (num * ModPow(den, p - 2, p)) % p;
    var x3 := (l * l - x1 - x2) % p;
    var y3 := (l * (x1 - x3) - y1) % p;
    Quotient(num, den, p);
    CongMod(l * l - x1 - x2, p);
    CongMod(l * (x1 - x3) - y1, p);
    SlopeX(l, num, den, x1, x2, x3, p);
    SlopeY(l, num, den, x1 - x3, y1, y3, p);
  }

  lemma {:induction false} SameFactor(a: int, b: int, den: int, m: int, p: Modulus)
    requires IsPrime(p) && den % p != 0 && Cong(a * den, m, p) && Cong(b * den, m, p)
    ensures Cong(a, b, p)
  {
    CongSym(b * den, m, p);
    CongTrans(a * den, m, b * den, p);
    assert a * den == den * a && b * den == den * b;
    Cancel(p, den, a, b);
  }

  /** There is only one such point. */
  lemma {:induction false} ReflectedThirdUnique(num: int, den: int, x1: int, y1: int, x2: int, r: Point, r': Point,
                                                p: Modulus)
    requires IsPrime(p) && den % p != 0
    requires ReflectedThird(num, den, x1, y1, x2, r, p) && ReflectedThird(num, den, x1, y1, x2, r', p)
    ensures r == r'
  {
    ProductNonZero(p, den, den);
    SameFactor(r.x + x1 + x2, r'.x + x1 + x2, den * den, num * num, p);
    assert r.x - r'.x == (r.x + x1 + x2) - (r'.x + x1 + x2);
    CongEq(r.x, r'.x, p);
    SameFactor(r.y + y1, r'.y + y1, den, num * (x1 - r.x), p);
    assert r.y - r'.y == (r.y + y1) - (r'.y + y1);
    CongEq(r.y, r'.y, p);
  }

  /** point_add for two points with different x: exactly the one point in range, third on the
      line through them and reflected. */
  lemma {:induction false} ChordLaw(a: Point, b: Point, r: Point, p: Modulus)
    requires IsPrime(p) && OnCurve(a, p) && OnCurve(b, p) && a.Affine? && b.Affine? && a.x != b.x
    ensures r == PointAdd(a, b, p) <==>
      && r.Affine? && 0 <= r.x < p && 0 <= r.y < p
      && Cong((r.x + a.x + b.x) * ((b.x - a.x) * (b.x - a.x)), (b.y - a.y) * (b.y - a.y), p)
      && Cong((r.y + a.y) * (b.x - a.x), (b.y - a.y) * (a.x - r.x), p)
  {
    var num, den := b.y - a.y, b.x - a.x;
    SmallResidue(den, p);
    SlopeLaw(num, den, a.x, a.y, b.x, p);
    if ReflectedThird(num, den, a.x, a.y, b.x, r, p) {
      ReflectedThirdUnique(num, den, a.x, a.y, b.x, r, PointAdd(a, b, p), p);
    }
  }

  /** point_add for a point and itself: the same with the tangent for the line. */
  lemma {:induction false} TangentLaw(a: Point, r: Point, p: Modulus)
    requires IsPrime(p) && OnCurve(a, p) && a.Affine? && a.y != 0
    ensures r == PointAdd(a, a, p) <==>
      && r.Affine? && 0 <= r.x < p && 0 <= r.y < p
      && Cong((r.x + a.x + a.x) * ((2 * a.y) * (2 * a.y)), (3 * a.x * a.x) * (3 * a.x * a.x), p)
      && Cong((r.y + a.y) * (2 * a.y), (3 * a.x * a.x) * (a.x - r.x), p)
  {
    var num, den := 3 * a.x * a.x, 2 * a.y;
    TwiceNonZero(a.y, p);
    SlopeLaw(num, den, a.x, a.y, a.x, p);
    if ReflectedThird(num, den, a.x, a.y, a.x, r, p) {
      ReflectedThirdUnique(num, den, a.x, a.y, a.x, r, PointAdd(a, a, p), p);
    }
  }

  /** point_add where neither line is drawn: infinity is neutral, it is the sum of exactly the
      points that are opposite and of itself, and doubling (x, 0) gives (-2x, 0). */
  lemma {:induction false} DegenerateSums(a: Point, b: Point, p: Modulus)
    requires IsPrime(p) && OnCurve(a, p) && OnCurve(b, p)
    ensures a.Infinity? ==> PointAdd(a, b, p) == b && PointAdd(b, a, p) == b
    ensures PointAdd(a, b, p).Infinity? <==>
      || (a.Infinity? && b.Infinity?)
      || (a.Affine? && b.Affine? && a.x == b.x && a.y + b.y == p)
    ensures a == b && HalfPoint(a) ==> PointAdd(a, b, p) == Affine((-2 * a.x) % p, 0)
  {
    if a.Affine? && b.Affine? && a.x == b.x {
      SameX(a, b, p);
      assert p % 2 != 0;
      if a == b && a.y == 0 {
        HalfPointValue(a, p);
      }
    }
  }

  lemma {:induction false} ChordSlopesAgree(x1: int, y1: int, x2: int, y2: int, l: int, m: int, p: Modulus)
    requires IsPrime(p) && (x2 - x1) % p != 0
    requires Cong(l * (x2 - x1), y2 - y1, p) && Cong(m * (x1 - x2), y1 - y2, p)
    requires 0 <= l < p && 0 <= m < p
    ensures l == m
  {
    var d := x2 - x1;
    assert l * d - (y2 - y1) + (m * (x1 - x2) - (y1 - y2)) == d * l - d * m;
    ZeroAdd(l * d - (y2 - y1), m * (x1 - x2) - (y1 - y2), p);
    Cancel(p, d, l, m);
    CongEq(l, m, p);
  }

  lemma {:induction false} AddCommutes(a: Point, b: Point, p: Modulus)
    requires IsPrime(p) && OnCurve(a, p) && OnCurve(b, p)
    ensures PointAdd(a, b, p) == PointAdd(b, a, p)
  {
    if a.Affine? && b.Affine? && a.x != b.x {
      var dx, dy := b.x - a.x, b.y - a.y;
      SmallResidue(dx, p);
      SmallResidue(-dx, p);
      Quotient(dy, dx, p);
      Quotient(-dy, -dx, p);
      assert -dx == a.x - b.x && -dy == a.y - b.y;
      var l := (dy * ModPow(dx, p - 2, p)) % p;
      ChordSlopesAgree(a.x, a.y, b.x, b.y, l, (-dy * ModPow(-dx, p - 2, p)) % p, p);
      var x3 := (l * l - a.x - b.x) % p;
      assert (l * (a.x - x3) - a.y) - (l * (b.x - x3) - b.y) == (l * dx - dy) * -1;
      ZeroMul(l * dx - dy, -1, p);
      CongEq(l * (a.x - x3) - a.y, l * (b.x - x3) - b.y, p);
    }
  }

  lemma {:induction false} EqualSquares(x: int, y: int, z: int, p: Modulus)
    requires IsPrime(p) && Solves(x, y, p) && Solves(x, z, p)
    requires 0 <= y < p && 0 <= z < p && y != z
    ensures y + z == p
  {
    var c := x * x * x + 7;
    ZeroAdd(y * y - c, z * z - c, p);
    assert (y * y - c) - (z * z - c) == (y - z) * (y + z);
    SmallResidue(y - z, p);
    Euclid(p, y - z, y + z);
    MultipleMod(1, p);
    ZeroAdd(y + z, p, p);
    if y + z != p {
      SmallResidue(y + z - p, p);
    }
  }

  /** p is odd, so of two opposite y exactly one is even. */
  lemma {:induction false} OneIsEven(y: int, z: int, p: Modulus)
    requires IsPrime(p) && y + z == p
    ensures y % 2 == 0 <==> z % 2 != 0
  {
    assert p % 2 != 0;
  }

  /** Two points with the same x are equal or opposite: their y add up to p. */
  lemma {:induction false} SameX(a: Point, b: Point, p: Modulus)
    requires IsPrime(p) && OnCurve(a, p) && OnCurve(b, p)
    requires a.Affine? && b.Affine? && a.x == b.x
    ensures a.y == b.y || (a.y + b.y == p && (a.y % 2 == 0 <==> b.y % 2 != 0))
  {
    if a.y != b.y {
      EqualSquares(a.x, a.y, b.y, p);
      OneIsEven(a.y, b.y, p);
    }
  }

  // --- lifting an x coordinate ---

  function LiftX(x: nat, p: Modulus): Point {
    if x >= p then Infinity
    else
      var ySq := (ModPow(x, 3, p) + 7) % p;
      var y := ModPow(ySq, (p + 1) / 4, p);
      if ModPow(y, 2, p) != ySq then Infinity
      else Affine(x, if y % 2 == 0 then y else p - y)
  }

  lemma {:induction false} SmallPowers(x: int)
    ensures Pow(x, 2) == x * x
    ensures Pow(x, 3) == x * x * x
  {
    assert Pow(x, 1) == x * Pow(x, 0);
    assert Pow(x, 2) == x * Pow(x, 1);
    assert Pow(x, 3) == x * Pow(x, 2);
  }

  lemma {:induction false} CubePlusSeven(x: int, p: Modulus)
    ensures Cong((ModPow(x, 3, p) + 7) % p, x * x * x + 7, p)
  {
    SmallPowers(x);
    var c, r := x * x * x, ModPow(x, 3, p);
    CongMod(c, p);
    CongAdd(r, c, 7, 7, p);
    CongMod(r + 7, p);
    CongTrans((r + 7) % p, r + 7, c + 7, p);
  }

  lemma {:induction false} OppositeSolves(x: int, y: int, p: nat)
    requires p > 0 && Solves(x, y, p)
    ensures Solves(x, p - y, p)
  {
    var c := x * x * x + 7;
    MultipleMod(p - 2 * y, p);
    ZeroAdd(y * y - c, p * (p - 2 * y), p);
    assert (p - y) * (p - y) - c == (y * y - c) + p * (p - 2 * y);
  }

  /** The candidate root of lift_x passes its check exactly when there is a root. */
  lemma {:induction false} CandidateRoot(x: int, p: Modulus)
    requires IsPrime(p) && p % 4 == 3
    ensures
      var ySq := (ModPow(x, 3, p) + 7) % p;
      var y := ModPow(ySq, (p + 1) / 4, p);
      && (ModPow(y, 2, p) == ySq <==> Solves(x, y, p))
      && ((exists z :: Solves(x, z, p)) ==> Solves(x, y, p))
  {
    var c := x * x * x + 7;
    var ySq := (ModPow(x, 3, p) + 7) % p;
    var y := ModPow(ySq, (p + 1) / 4, p);
    CubePlusSeven(x, p);
    SmallPowers(y);
    CongSym(ySq, c, p);
    if (y * y) % p == ySq {
      CongMod(y * y, p);
      CongTrans(y * y, ySq, c, p);
    }
    if Solves(x, y, p) {
      CongTrans(y * y, c, ySq, p);
      CongEq(y * y, ySq, p);
      CongEq(ySq, ySq % p, p) by { CongMod(ySq, p); }
    }
    if z :| Solves(x, z, p) {
      CongTrans(z * z, c, ySq, p);
      SquareRoot(ySq, z, p);
      CongTrans(y * y, ySq, c, p);
    }
  }

  /** lift_x succeeds exactly on the x of curve points, and then returns the one
      point with that x whose y is even. */
  lemma {:induction false} LiftXExact(x: nat, p: Modulus)
    requires IsPrime(p) && p % 4 == 3
    ensures LiftX(x, p).Affine? <==> x < p && exists y :: Solves(x, y, p)
    ensures LiftX(x, p).Affine? ==> LiftX(x, p).x == x && LiftX(x, p).y % 2 == 0 && OnCurve(LiftX(x, p), p)
  {
    CandidateRoot(x, p);
    var y := ModPow((ModPow(x, 3, p) + 7) % p, (p + 1) / 4, p);
    if Solves(x, y, p) {
      OppositeSolves(x, y, p);
      OneIsEven(y, p - y, p);
    }
  }

  /** Lifting the x of a curve point gives back that point if its y is even. */
  lemma {:induction false} LiftXOfPoint(a: Point, p: Modulus)
    requires IsPrime(p) && p % 4 == 3 && OnCurve(a, p) && a.Affine? && a.y % 2 == 0
    ensures LiftX(a.x, p) == a
  {
    LiftXExact(a.x, p);
    SameX(a, LiftX(a.x, p), p);
  }
}
