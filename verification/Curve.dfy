/** Points of a short Weierstrass curve y^2 = x^3 + ax + b over the integers modulo a
    prime, added the way `_add` adds them and multiplied the way `_multiply` does. */
module Curve {
  import opened Common
  import opened ModArith

  datatype Point = Infinity | Affine(x: int, y: int)

  datatype Curve = Curve(p: int, a: int, b: int)

  /** x^3 + ax + b. */
  function Cubic(c: Curve, x: int): int {
    x * x * x + c.a * x + c.b
  }

  /** `_on_curve`, with the identity counted as a point of the curve. */
  predicate OnCurve(c: Curve, q: Point)
    requires c.p > 1
  {
    q.Affine? ==> 0 <= q.x < c.p && 0 <= q.y < c.p && (q.y * q.y - Cubic(c, q.x)) % c.p == 0
  }

  /** The point a line of the given slope through (x1, y1) leads to. */
  function Third(c: Curve, slope: int, x1: int, y1: int, x2: int): Point
    requires c.p > 1
  {
    var x3 := (slope * slope - x1 - x2) % c.p;
    Affine(x3, (slope * (x1 - x3) - y1) % c.p)
  }

  /** `_add`; None is the ValueError `pow` raises when there is no inverse. */
  function Add(c: Curve, q1: Point, q2: Point): Option<Point>
    requires c.p > 1
  {
    if q1.Infinity? then Some(q2)
    else if q2.Infinity? then Some(q1)
    else if q1.x == q2.x && (q1.y + q2.y) % c.p == 0 then Some(Infinity)
    else if q1 == q2 then
      match Inverse(2 * q1.y, c.p)
      case None => None
      case Some(v) => Some(Third(c, ((3 * q1.x * q1.x + c.a) * v) % c.p, q1.x, q1.y, q2.x))
    else
      match Inverse(q2.x - q1.x, c.p)
      case None => None
      case Some(v) => Some(Third(c, ((q2.y - q1.y) * v) % c.p, q1.x, q1.y, q2.x))
  }

  // ----- addition stays on the curve ----------------------------------------------------

  /** The cubic minus the square of the line of slope s through (x1, y1). */
  function OffLine(c: Curve, s: int, x1: int, y1: int, x: int): int {
    Cubic(c, x) - (s * (x - x1) + y1) * (s * (x - x1) + y1)
  }

  /** OffLine(x) - OffLine(x1), divided by x - x1. */
  function Quotient(c: Curve, s: int, x1: int, y1: int, x: int): int {
    x * x + x * x1 + x1 * x1 + c.a - s * s * (x - x1) - 2 * s * y1
  }

  lemma {:induction false} Factors(c: Curve, s: int, x1: int, y1: int, x: int)
    ensures OffLine(c, s, x1, y1, x) == Cubic(c, x1) - y1 * y1 + (x - x1) * Quotient(c, s, x1, y1, x)
  {
    var d := x - x1;
    CubeDifference(x, x1);
    assert (s * d + y1) * (s * d + y1) == d * (s * s * d) + d * (2 * s * y1) + y1 * y1;
    var u, w, z := x * x + x * x1 + x1 * x1, s * s * d, 2 * s * y1;
    assert d * (u + c.a - w - z) == d * u + d * c.a - d * w - d * z;
  }

  /** The third root's quotient is the second's, because the three roots add up to s^2. */
  lemma {:induction false} RootsAddUp(c: Curve, s: int, x1: int, y1: int, x2: int)
    ensures Quotient(c, s, x1, y1, s * s - x1 - x2) == Quotient(c, s, x1, y1, x2)
  {
    var q := s * s;
    var x := q - x1 - x2;
    assert x * x + x * x1 - q * (x - x1) == x2 * x2 + x2 * x1 - q * (x2 - x1);
  }

  lemma {:induction false} CubeDifference(x: int, z: int)
    ensures x * x * x - z * z * z == (x * x + x * z + z * z) * (x - z)
  {
  }

  lemma {:induction false} CubicDifference(c: Curve, x: int, z: int)
    ensures Cubic(c, x) - Cubic(c, z) == (x * x + x * z + z * z + c.a) * (x - z)
  {
    CubeDifference(x, z);
    var h := x * x + x * z + z * z;
    assert (h + c.a) * (x - z) == h * (x - z) + (c.a * x - c.a * z);
  }

  lemma {:induction false} CubicModulo(c: Curve, x: int, z: int)
    requires c.p > 1 && Divides(c.p, x - z)
    ensures Divides(c.p, Cubic(c, x) - Cubic(c, z))
  {
    CubicDifference(c, x, z);
    Times(c.p, x - z, x * x + x * z + z * z + c.a);
  }

  lemma {:induction false} SquareModulo(p: int, x: int, y: int)
    requires p > 0 && Divides(p, x - y)
    ensures Divides(p, x * x - y * y)
  {
    Times(p, x - y, x + y);
    assert (x - y) * (x + y) == x * x - y * y;
  }

  /** OffLine is a polynomial: equal residues give equal residues. */
  lemma {:induction false} OffLineModulo(c: Curve, s: int, x1: int, y1: int, x: int, z: int)
    requires c.p > 1 && Divides(c.p, x - z)
    ensures Divides(c.p, OffLine(c, s, x1, y1, x) - OffLine(c, s, x1, y1, z))
  {
    CubicModulo(c, x, z);
    var l, m := s * (x - x1) + y1, s * (z - x1) + y1;
    Times(c.p, x - z, s);
    assert l - m == s * (x - z);
    SquareModulo(c.p, l, m);
    Plus(c.p, Cubic(c, x) - Cubic(c, z), l * l - m * m);
  }

  /** If the line meets the cubic at x1 with a quotient that vanishes at x2, the third
      point is on the curve. */
  lemma {:induction false} ThirdOnCurve(c: Curve, s: int, x1: int, y1: int, x2: int)
    requires c.p > 1
    requires Divides(c.p, y1 * y1 - Cubic(c, x1))
    requires Divides(c.p, Quotient(c, s, x1, y1, x2))
    ensures OnCurve(c, Third(c, s, x1, y1, x2))
  {
    var p := c.p;
    var x := s * s - x1 - x2;
    var x3 := x % p;
    var y := s * (x1 - x3) - y1;
    RootsAddUp(c, s, x1, y1, x2);
    Factors(c, s, x1, y1, x);
    Combine(p, y1 * y1 - Cubic(c, x1), Quotient(c, s, x1, y1, x), -1, x - x1);
    assert Divides(p, OffLine(c, s, x1, y1, x));
    ModDiff(p, x);
    OffLineModulo(c, s, x1, y1, x3, x);
    Plus(p, OffLine(c, s, x1, y1, x3) - OffLine(c, s, x1, y1, x), OffLine(c, s, x1, y1, x));
    ModDiff(p, y);
    SquareModulo(p, y % p, y);
    SquareIsLine(s, x1, x3, y1);
    Plus(p, (y % p) * (y % p) - y * y, OffLine(c, s, x1, y1, x3));
  }

  lemma {:induction false} SquareIsLine(s: int, x1: int, x3: int, y1: int)
    ensures (s * (x1 - x3) - y1) * (s * (x1 - x3) - y1) == (s * (x3 - x1) + y1) * (s * (x3 - x1) + y1)
  {
    var u, v := s * (x1 - x3) - y1, s * (x3 - x1) + y1;
    assert u == -v;
  }

  /** The slope `_add` computes really is num / den. */
  lemma {:induction false} SlopeDivides(p: int, num: int, den: int, v: int)
    requires p > 1 && Divides(p, den * v - 1)
    ensures Divides(p, (num * v) % p * den - num)
  {
    ModDiff(p, num * v);
    Combine(p, (num * v) % p - num * v, den * v - 1, den, num);
    assert den * ((num * v) % p - num * v) + num * (den * v - 1) == (num * v) % p * den - num by {
      assert den * ((num * v) % p - num * v) == den * ((num * v) % p) - den * (num * v);
      assert den * (num * v) == num * (den * v);
      assert num * (den * v - 1) == num * (den * v) - num;
    }
  }

  /** On a chord the quotient at x2 vanishes, because the line passes through both points. */
  lemma {:induction false} ChordQuotient(c: Curve, s: int, x1: int, y1: int, x2: int, y2: int)
    requires IsPrime(c.p) && !Divides(c.p, x2 - x1)
    requires Divides(c.p, y1 * y1 - Cubic(c, x1)) && Divides(c.p, y2 * y2 - Cubic(c, x2))
    requires Divides(c.p, s * (x2 - x1) - (y2 - y1))
    ensures Divides(c.p, Quotient(c, s, x1, y1, x2))
  {
    var p := c.p;
    var l := s * (x2 - x1) + y1;
    assert l - y2 == s * (x2 - x1) - (y2 - y1);
    SquareModulo(p, l, y2);
    Plus(p, l * l - y2 * y2, y2 * y2 - Cubic(c, x2));
    Factors(c, s, x1, y1, x2);
    var k := Quotient(c, s, x1, y1, x2);
    Plus(p, y1 * y1 - Cubic(c, x1), l * l - Cubic(c, x2));
    assert (x2 - x1) * k == (y1 * y1 - Cubic(c, x1)) - (l * l - Cubic(c, x2));
    EuclidLemma(p, x2 - x1, k);
  }

  /** Two points over one x are equal or opposite, so the chord branch always has two xs. */
  lemma {:induction false} SameXIsOpposite(c: Curve, q1: Point, q2: Point)
    requires IsPrime(c.p) && q1.Affine? && q2.Affine? && OnCurve(c, q1) && OnCurve(c, q2)
    requires q1.x == q2.x
    ensures q1 == q2 || (q1.y + q2.y) % c.p == 0
  {
    var p := c.p;
    Plus(p, q1.y * q1.y - Cubic(c, q1.x), q2.y * q2.y - Cubic(c, q2.x));
    assert (q1.y - q2.y) * (q1.y + q2.y) == q1.y * q1.y - q2.y * q2.y;
    EuclidLemma(p, q1.y - q2.y, q1.y + q2.y);
    SameResidue(p, q1.y, q2.y);
    ModIsUnique(p, q1.y, 0, q1.y);
    ModIsUnique(p, q2.y, 0, q2.y);
  }

  /** For every prime modulus: `_add` inverts only invertible elements, and the sum of two
      points of the curve is a point of the curve. */
  lemma {:induction false} AddStaysOnCurve(c: Curve, q1: Point, q2: Point)
    requires IsPrime(c.p) && OnCurve(c, q1) && OnCurve(c, q2)
    ensures Add(c, q1, q2).Some? && OnCurve(c, Add(c, q1, q2).value)
  {
    if q1.Infinity? || q2.Infinity? || (q1.x == q2.x && (q1.y + q2.y) % c.p == 0) {
    } else if q1 == q2 {
      DoubleStaysOnCurve(c, q1);
    } else {
      ChordStaysOnCurve(c, q1, q2);
    }
  }

  lemma {:induction false} DoubleStaysOnCurve(c: Curve, q: Point)
    requires IsPrime(c.p) && q.Affine? && OnCurve(c, q) && (q.y + q.y) % c.p != 0
    ensures Add(c, q, q).Some? && OnCurve(c, Add(c, q, q).value)
  {
    PrimeInverse(2 * q.y, c.p);
    var v := Inverse(2 * q.y, c.p).value;
    var num := 3 * q.x * q.x + c.a;
    var s := (num * v) % c.p;
    SlopeDivides(c.p, num, 2 * q.y, v);
    Times(c.p, s * (2 * q.y) - num, -1);
    assert Quotient(c, s, q.x, q.y, q.x) == -1 * (s * (2 * q.y) - num);
    ThirdOnCurve(c, s, q.x, q.y, q.x);
  }

  lemma {:induction false} ChordStaysOnCurve(c: Curve, q1: Point, q2: Point)
    requires IsPrime(c.p) && q1.Affine? && q2.Affine? && OnCurve(c, q1) && OnCurve(c, q2)
    requires q1 != q2 && !(q1.x == q2.x && (q1.y + q2.y) % c.p == 0)
    ensures Add(c, q1, q2).Some? && OnCurve(c, Add(c, q1, q2).value)
  {
    if q1.x == q2.x {
      SameXIsOpposite(c, q1, q2);
    }
    SameResidue(c.p, q2.x, q1.x);
    ModIsUnique(c.p, q1.x, 0, q1.x);
    ModIsUnique(c.p, q2.x, 0, q2.x);
    var d := q2.x - q1.x;
    PrimeInverse(d, c.p);
    var v := Inverse(d, c.p).value;
    var s := ((q2.y - q1.y) * v) % c.p;
    SlopeDivides(c.p, q2.y - q1.y, d, v);
    ChordQuotient(c, s, q1.x, q1.y, q2.x, q2.y);
    ThirdOnCurve(c, s, q1.x, q1.y, q2.x);
  }

  // ----- addition is the chord-and-tangent law ------------------------------------------

  /** r is the mirror image of where the line of slope num / den through q meets the curve a
      third time, its first two meetings being over q.x and x2: as equations modulo p. */
  ghost predicate Through(c: Curve, num: int, den: int, q: Point, x2: int, r: Point)
    requires c.p > 1 && q.Affine?
  {
    r.Affine? && 0 <= r.x < c.p && 0 <= r.y < c.p
    && Divides(c.p, num * (r.x - q.x) - den * (-r.y - q.y))
    && Divides(c.p, (r.x + q.x + x2) * (den * den) - num * num)
  }

  /** The group operation of section 2.2.1 of SEC 1: chord through two points, tangent through one. */
  ghost predicate IsSum(c: Curve, q1: Point, q2: Point, r: Point)
    requires c.p > 1
  {
    if q1.Infinity? then r == q2
    else if q2.Infinity? then r == q1
    else if q1.x != q2.x then Through(c, q2.y - q1.y, q2.x - q1.x, q1, q2.x, r)
    else if Divides(c.p, q1.y + q2.y) then r == Infinity
    else Through(c, 3 * q1.x * q1.x + c.a, 2 * q1.y, q1, q1.x, r)
  }

  lemma {:induction false} ReducedPoint(c: Curve, s: int, q: Point, x2: int)
    requires c.p > 1 && q.Affine?
    ensures var r := Third(c, s, q.x, q.y, x2);
            Divides(c.p, r.x + q.x + x2 - s * s) && Divides(c.p, s * (r.x - q.x) + r.y + q.y)
  {
    var p := c.p;
    var r := Third(c, s, q.x, q.y, x2);
    ModDiff(p, s * s - q.x - x2);
    ModDiff(p, s * (q.x - r.x) - q.y);
    assert s * (q.x - r.x) == -(s * (r.x - q.x));
  }

  /** The line's equations, the slope's denominator multiplied out. */
  lemma {:induction false} ThirdIsThrough(c: Curve, num: int, den: int, s: int, q: Point, x2: int)
    requires c.p > 1 && q.Affine? && Divides(c.p, s * den - num)
    ensures Through(c, num, den, q, x2, Third(c, s, q.x, q.y, x2))
  {
    var p := c.p;
    var r := Third(c, s, q.x, q.y, x2);
    ReducedPoint(c, s, q, x2);
    var d, u, v := s * den - num, r.x - q.x, r.y + q.y;
    Combine(p, s * u + r.y + q.y, d, den, -u);
    OnTheLine(num, den, s, u, v);
    assert den * (-r.y - q.y) == -(den * v);
    assert num * u - den * (-r.y - q.y) == den * (s * u + r.y + q.y) + -u * d;
    var w := r.x + q.x + x2;
    Combine(p, w - s * s, d, den * den, s * den + num);
    OverTheLine(num, den, s, w);
  }

  lemma {:induction false} OnTheLine(num: int, den: int, s: int, u: int, v: int)
    ensures num * u + den * v == den * (s * u + v) + -u * (s * den - num)
  {
    assert den * (s * u + v) == den * (s * u) + den * v;
    assert u * (s * den - num) == u * (s * den) - u * num;
    assert den * (s * u) == u * (s * den);
  }

  lemma {:induction false} OverTheLine(num: int, den: int, s: int, w: int)
    ensures w * (den * den) - num * num == den * den * (w - s * s) + (s * den + num) * (s * den - num)
  {
    assert (s * den + num) * (s * den - num) == (s * den) * (s * den) - num * num;
    assert (s * den) * (s * den) == den * den * (s * s);
    assert den * den * (w - s * s) == w * (den * den) - den * den * (s * s);
  }

  lemma {:induction false} NotDividingSquare(p: int, den: int, u: int)
    requires IsPrime(p) && !Divides(p, den) && Divides(p, u * (den * den))
    ensures Divides(p, u)
  {
    EuclidLemma(p, u, den * den);
    if Divides(p, den * den) {
      EuclidLemma(p, den, den);
    }
  }

  lemma {:induction false} SameBelow(p: int, x: int, y: int)
    requires p > 1 && 0 <= x < p && 0 <= y < p && Divides(p, x - y)
    ensures x == y
  {
    SameResidue(p, x, y);
    ModIsUnique(p, x, 0, x);
    ModIsUnique(p, y, 0, y);
  }

  /** The equations have one solution. */
  lemma {:induction false} OneThrough(c: Curve, num: int, den: int, q: Point, x2: int, r: Point, t: Point)
    requires IsPrime(c.p) && q.Affine? && !Divides(c.p, den)
    requires Through(c, num, den, q, x2, r) && Through(c, num, den, q, x2, t)
    ensures r == t
  {
    var p := c.p;
    Plus(p, (r.x + q.x + x2) * (den * den) - num * num, (t.x + q.x + x2) * (den * den) - num * num);
    SameOver(den * den, num * num, q.x + x2, r.x, t.x);
    NotDividingSquare(p, den, r.x - t.x);
    SameBelow(p, r.x, t.x);
    Plus(p, num * (r.x - q.x) - den * (-r.y - q.y), num * (t.x - q.x) - den * (-t.y - q.y));
    SameOn(den, q.y, r.y, t.y);
    EuclidLemma(p, den, r.y - t.y);
    SameBelow(p, r.y, t.y);
  }

  lemma {:induction false} SameOver(d: int, n: int, z: int, x: int, y: int)
    ensures ((x + z) * d - n) - ((y + z) * d - n) == (x - y) * d
  {
  }

  lemma {:induction false} SameOn(den: int, z: int, x: int, y: int)
    ensures den * (-y - z) - den * (-x - z) == den * (x - y)
  {
  }

  lemma {:induction false} ThirdExactly(c: Curve, num: int, den: int, v: int, q: Point, x2: int, r: Point)
    requires IsPrime(c.p) && q.Affine? && Divides(c.p, den * v - 1)
    ensures Third(c, (num * v) % c.p, q.x, q.y, x2) == r <==> Through(c, num, den, q, x2, r)
  {
    SlopeDivides(c.p, num, den, v);
    ThirdIsThrough(c, num, den, (num * v) % c.p, q, x2);
    if Divides(c.p, den) {
      Times(c.p, den, v);
      Plus(c.p, den * v, den * v - 1);
    }
    if Through(c, num, den, q, x2, r) {
      OneThrough(c, num, den, q, x2, r, Third(c, (num * v) % c.p, q.x, q.y, x2));
    }
  }

  /** `_add` is the chord-and-tangent law, and nothing else satisfies its equations. */
  lemma {:induction false} AddIsChordAndTangent(c: Curve, q1: Point, q2: Point, r: Point)
    requires IsPrime(c.p) && OnCurve(c, q1) && OnCurve(c, q2)
    ensures Add(c, q1, q2) == Some(r) <==> IsSum(c, q1, q2, r)
  {
    AddStaysOnCurve(c, q1, q2);
    if q1.Affine? && q2.Affine? {
      if q1.x == q2.x {
        SameXIsOpposite(c, q1, q2);
        if !Divides(c.p, q1.y + q2.y) {
          ThirdExactly(c, 3 * q1.x * q1.x + c.a, 2 * q1.y, Inverse(2 * q1.y, c.p).value, q1, q1.x, r);
        }
      } else {
        ThirdExactly(c, q2.y - q1.y, q2.x - q1.x, Inverse(q2.x - q1.x, c.p).value, q1, q2.x, r);
      }
    }
  }

  // ----- multiplication -----------------------------------------------------------------

  /** The sum of two points of the curve, which always exists. */
  function Sum(c: Curve, q1: Point, q2: Point): (r: Point)
    requires IsPrime(c.p) && OnCurve(c, q1) && OnCurve(c, q2)
    ensures OnCurve(c, r)
  {
    AddStaysOnCurve(c, q1, q2);
    Add(c, q1, q2).value
  }

  /** k-fold addition. */
  function Multiple(c: Curve, k: nat, q: Point): (r: Point)
    requires IsPrime(c.p) && OnCurve(c, q)
    ensures OnCurve(c, r)
  {
    if k == 0 then Infinity else Sum(c, q, Multiple(c, k - 1, q))
  }

  ghost predicate AssociativeAt(c: Curve, q1: Point, q2: Point, q3: Point)
    requires IsPrime(c.p) && OnCurve(c, q1) && OnCurve(c, q2) && OnCurve(c, q3)
  {
    Sum(c, Sum(c, q1, q2), q3) == Sum(c, q1, Sum(c, q2, q3))
  }

  /** The group law: the one hypothesis about the curve that is not proved here. */
  ghost predicate GroupLaw(c: Curve)
    requires IsPrime(c.p)
  {
    forall q1: Point, q2: Point, q3: Point {:trigger AssociativeAt(c, q1, q2, q3)} ::
      OnCurve(c, q1) && OnCurve(c, q2) && OnCurve(c, q3) ==> AssociativeAt(c, q1, q2, q3)
  }

  lemma {:induction false} MultiplesAddUp(c: Curve, i: nat, j: nat, q: Point)
    requires IsPrime(c.p) && OnCurve(c, q) && GroupLaw(c)
    ensures Sum(c, Multiple(c, i, q), Multiple(c, j, q)) == Multiple(c, i + j, q)
  {
    if i > 0 {
      MultiplesAddUp(c, i - 1, j, q);
      assert AssociativeAt(c, q, Multiple(c, i - 1, q), Multiple(c, j, q));
    }
  }

  lemma {:induction false} MultipleOfMultiple(c: Curve, i: nat, j: nat, q: Point)
    requires IsPrime(c.p) && OnCurve(c, q) && GroupLaw(c)
    ensures i * j >= 0 && Multiple(c, i, Multiple(c, j, q)) == Multiple(c, i * j, q)
  {
    if i > 0 {
      MultipleOfMultiple(c, i - 1, j, q);
      assert i * j == j + (i - 1) * j;
      MultiplesAddUp(c, j, (i - 1) * j, q);
    }
  }

  lemma {:induction false} MultipleOfIdentity(c: Curve, i: nat)
    requires IsPrime(c.p)
    ensures Multiple(c, i, Infinity) == Infinity
  {
    if i > 0 {
      MultipleOfIdentity(c, i - 1);
    }
  }

  /** With n-fold addition giving the identity, only k modulo n matters. */
  lemma {:induction false} MultipleModulo(c: Curve, n: nat, k: nat, q: Point)
    requires IsPrime(c.p) && OnCurve(c, q) && GroupLaw(c)
    requires n > 0 && Multiple(c, n, q) == Infinity
    ensures Multiple(c, k, q) == Multiple(c, k % n, q)
  {
    DivMod(n, k);
    assert k / n * n == n * (k / n);
    WholeOrdersVanish(c, n, k / n, k % n, q);
  }

  lemma {:induction false} WholeOrdersVanish(c: Curve, n: nat, j: nat, k: nat, q: Point)
    requires IsPrime(c.p) && OnCurve(c, q) && GroupLaw(c) && Multiple(c, n, q) == Infinity
    ensures j * n >= 0 && Multiple(c, j * n + k, q) == Multiple(c, k, q)
  {
    MultipleOfMultiple(c, j, n, q);
    MultipleOfIdentity(c, j);
    MultiplesAddUp(c, j * n, k, q);
  }

  /** A point of prime order has no smaller order. */
  lemma {:induction false} NoSmallerOrder(c: Curve, n: nat, k: nat, q: Point)
    requires IsPrime(c.p) && OnCurve(c, q) && GroupLaw(c)
    requires IsPrime(n) && Multiple(c, n, q) == Infinity && q.Affine?
    requires k % n != 0
    ensures Multiple(c, k, q).Affine?
  {
    PrimeInverse(k, n);
    var w := Inverse(k, n).value;
    MultipleOfMultiple(c, w, k, q);
    MultipleOfIdentity(c, w);
    SameResidue(n, k * w, 1);
    ModIsUnique(n, 1, 0, 1);
    assert k * w == w * k;
    MultipleModulo(c, n, w * k, q);
    assert Multiple(c, 1, q) == Sum(c, q, Multiple(c, 0, q)) == q;
  }

  /** `_multiply`: double and add. Every point on the way is on the curve, so no `pow` in it
      ever raises; given the group law the result is k-fold addition. */
  method Multiply(c: Curve, scalar: nat, q: Point) returns (result: Point)
    requires IsPrime(c.p) && OnCurve(c, q)
    ensures OnCurve(c, result)
    ensures GroupLaw(c) ==> result == Multiple(c, scalar, q)
  {
    result := Infinity;
    var addend := q;
    var k := scalar;
    while k > 0
      invariant OnCurve(c, result) && OnCurve(c, addend)
      invariant GroupLaw(c) ==> Sum(c, result, Multiple(c, k, addend)) == Multiple(c, scalar, q)
    {
      if GroupLaw(c) {
        HalfStep(c, k, result, addend);
      }
      AddStaysOnCurve(c, result, addend);
      AddStaysOnCurve(c, addend, addend);
      if k % 2 == 1 {
        result := Add(c, result, addend).value;
      }
      addend := Add(c, addend, addend).value;
      k := k / 2;
    }
  }

  /** One turn of the loop: halving k, doubling the addend. */
  lemma {:induction false} HalfStep(c: Curve, k: nat, result: Point, addend: Point)
    requires IsPrime(c.p) && OnCurve(c, result) && OnCurve(c, addend) && GroupLaw(c) && k > 0
    ensures Sum(c, result, Multiple(c, k, addend))
         == Sum(c, if k % 2 == 1 then Sum(c, result, addend) else result,
                   Multiple(c, k / 2, Sum(c, addend, addend)))
  {
    var h := k / 2;
    DoublesAddUp(c, h, addend);
    if k % 2 == 1 {
      assert k == 2 * h + 1;
      assert AssociativeAt(c, result, addend, Multiple(c, 2 * h, addend));
    } else {
      assert k == 2 * h;
    }
  }

  lemma {:induction false} DoublesAddUp(c: Curve, h: nat, q: Point)
    requires IsPrime(c.p) && OnCurve(c, q) && GroupLaw(c)
    ensures Multiple(c, h, Sum(c, q, q)) == Multiple(c, 2 * h, q)
  {
    if h > 0 {
      DoublesAddUp(c, h - 1, q);
      assert AssociativeAt(c, q, q, Multiple(c, 2 * (h - 1), q));
      assert Multiple(c, 2 * h, q) == Sum(c, q, Multiple(c, 2 * h - 1, q));
      assert Multiple(c, 2 * h - 1, q) == Sum(c, q, Multiple(c, 2 * h - 2, q));
    }
  }
}
