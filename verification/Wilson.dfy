/** The Wilson interval of scripts/benchstat.py, over the reals. The square root is any
    number whose square is what it should be. */
module Wilson {
  import opened Common

  const Z: real := 1.959964

  /** The interval before it is clamped: centre and half width. */
  datatype Parts = Parts(p: real, u: real, centre: real, half: real)

  /** `root` is the square root `wilson` takes. */
  ghost predicate IsRoot(k: int, n: int, root: real)
    requires n > 0
  {
    var p, z2, m := k as real / n as real, Z * Z, n as real;
    root >= 0.0 && root * root == p * (1.0 - p) / m + z2 / (4.0 * m * m)
  }

  function PartsOf(k: int, n: int, root: real): Parts
    requires n > 0
  {
    var p, z2, m := k as real / n as real, Z * Z, n as real;
    var denom := 1.0 + z2 / m;
    assert z2 / m >= 0.0;
    Parts(p, z2 / m, (p + z2 / (2.0 * m)) / denom, Z * root / denom)
  }

  datatype Interval = Interval(p: real, lo: real, hi: real)

  /** `wilson`: None when n is not positive; `round` is the rounding to four places. */
  function Interval95(k: int, n: int, root: real, round: real -> real): Option<Interval> {
    if n <= 0 then None
    else
      var w := PartsOf(k, n, root);
      var lo, hi := w.centre - w.half, w.centre + w.half;
      Some(Interval(round(w.p), round(if lo > 0.0 then lo else 0.0), round(if hi < 1.0 then hi else 1.0)))
  }

  // ----- the quadratic ------------------------------------------------------------------

  /** What centre and half width are, without divisions. */
  ghost predicate Solves(w: Parts) {
    w.u > 0.0 && w.half >= 0.0
    && w.centre * (1.0 + w.u) == w.p + w.u / 2.0
    && w.half * w.half * ((1.0 + w.u) * (1.0 + w.u)) == w.u * w.p * (1.0 - w.p) + w.u * w.u / 4.0
  }

  lemma {:induction false} DivideBack(a: real, b: real)
    requires b != 0.0
    ensures a / b * b == a
  {
  }

  lemma {:induction false} SquareOfProduct(a: real, b: real)
    ensures (a * b) * (a * b) == (a * a) * (b * b)
  {
  }

  lemma {:induction false} CentreSolves(p: real, z2: real, m: real)
    requires m > 0.0 && z2 > 0.0
    ensures z2 / m > 0.0 && (p + z2 / (2.0 * m)) / (1.0 + z2 / m) * (1.0 + z2 / m) == p + z2 / m / 2.0
  {
    Quarters(z2, m);
    DivideBack(p + z2 / (2.0 * m), 1.0 + z2 / m);
  }

  lemma {:induction false} HalfSolves(p: real, m: real, root: real)
    requires m > 0.0 && root >= 0.0 && root * root == p * (1.0 - p) / m + Z * Z / (4.0 * m * m)
    ensures var u := Z * Z / m;
            u > 0.0 && Z * root / (1.0 + u) >= 0.0
            && Z * root / (1.0 + u) * (Z * root / (1.0 + u)) * ((1.0 + u) * (1.0 + u)) == u * p * (1.0 - p) + u * u / 4.0
  {
    var u := Z * Z / m;
    Quarters(Z * Z, m);
    HalfIsNotNegative(root, 1.0 + u);
    DivideBack(Z * root, 1.0 + u);
    HalfSquared(Z * root / (1.0 + u), 1.0 + u, root, p * (1.0 - p), m);
    assert u * (p * (1.0 - p)) == u * p * (1.0 - p);
  }

  lemma {:induction false} PartsSolve(k: int, n: int, root: real)
    requires n > 0 && IsRoot(k, n, root)
    ensures Solves(PartsOf(k, n, root))
  {
    CentreSolves(k as real / n as real, Z * Z, n as real);
    HalfSolves(k as real / n as real, n as real, root);
  }

  lemma {:induction false} HalfSquared(half: real, d: real, root: real, v: real, m: real)
    requires m > 0.0 && half * d == Z * root && root * root == v / m + Z * Z / (4.0 * m * m)
    ensures half * half * (d * d) == Z * Z / m * v + Z * Z / m * (Z * Z / m) / 4.0
  {
    SquareOfProduct(half, d);
    SquareOfProduct(Z, root);
    Distribute(Z * Z, v, m);
  }

  lemma {:induction false} HalfIsNotNegative(root: real, d: real)
    requires root >= 0.0 && d > 0.0
    ensures Z * root / d >= 0.0
  {
  }

  lemma {:induction false} Quarters(z2: real, m: real)
    requires m > 0.0 && z2 > 0.0
    ensures z2 / m > 0.0 && z2 / (2.0 * m) == z2 / m / 2.0
    ensures z2 * (z2 / (4.0 * m * m)) == z2 / m * (z2 / m) / 4.0
  {
    var u := z2 / m;
    assert u * m == z2;
    assert z2 / (2.0 * m) == u / 2.0 by {
      assert u / 2.0 * (2.0 * m) == z2;
    }
    assert z2 / (4.0 * m * m) == u / (4.0 * m) by {
      assert u / (4.0 * m) * (4.0 * m) == u;
      assert u / (4.0 * m) * (4.0 * m * m) == u * m;
    }
    assert z2 * (u / (4.0 * m)) == u * u / 4.0 by {
      assert u / (4.0 * m) * m == u / 4.0 by {
        assert u / (4.0 * m) * m * 4.0 == u;
      }
      assert z2 * (u / (4.0 * m)) == u * (u / (4.0 * m) * m);
    }
  }

  lemma {:induction false} Distribute(z2: real, v: real, m: real)
    requires m > 0.0 && z2 > 0.0
    ensures z2 * (v / m + z2 / (4.0 * m * m)) == z2 / m * v + z2 / m * (z2 / m) / 4.0
  {
    Quarters(z2, m);
    assert z2 * (v / m) == z2 / m * v by {
      var u := z2 / m;
      assert u * m == z2;
      assert v / m * m == v;
      assert z2 * (v / m) == u * (v / m * m);
    }
    assert z2 * (v / m + z2 / (4.0 * m * m)) == z2 * (v / m) + z2 * (z2 / (4.0 * m * m));
  }

  /** x is within the score test's reach: (x - p)^2 <= z^2 x (1 - x) / n. */
  predicate Accepted(w: Parts, x: real) {
    (x - w.p) * (x - w.p) <= w.u * x * (1.0 - x)
  }

  /** The interval is the score interval: exactly the proportions the score test accepts. */
  lemma {:induction false} ScoreInterval(w: Parts, x: real)
    requires Solves(w)
    ensures w.centre - w.half <= x <= w.centre + w.half <==> Accepted(w, x)
  {
    var d, e := 1.0 + w.u, x - w.centre;
    CompleteSquare(w, x);
    // (x - p)^2 - u x (1 - x) == d (e^2 - half^2)
    SquaresOrder(e, w.half);
    SignOfProduct(d, e * e - w.half * w.half);
  }

  lemma {:induction false} SignOfProduct(d: real, v: real)
    requires d > 0.0
    ensures d * v <= 0.0 <==> v <= 0.0
  {
  }

  lemma {:induction false} SquaresOrder(e: real, h: real)
    requires h >= 0.0
    ensures -h <= e <= h <==> e * e - h * h <= 0.0
  {
    assert e * e - h * h == (e - h) * (e + h);
    if e > h {
      Positive(e - h, e + h);
    } else if e < -h {
      Positive(h - e, -h - e);
      assert (h - e) * (-h - e) == (e - h) * (e + h);
    } else {
      assert (h - e) * (e + h) >= 0.0;
    }
  }

  lemma {:induction false} Positive(a: real, b: real)
    requires a > 0.0 && b > 0.0
    ensures a * b > 0.0
  {
  }

  lemma {:induction false} CompleteSquare(w: Parts, x: real)
    requires Solves(w)
    ensures var e := x - w.centre;
            (x - w.p) * (x - w.p) - w.u * x * (1.0 - x) == (1.0 + w.u) * (e * e - w.half * w.half)
  {
    var d, c, h, p, u := 1.0 + w.u, w.centre, w.half, w.p, w.u;
    // d^2 c^2 - d^2 h^2 == d p^2
    assert (d * c) * (d * c) == (p + u / 2.0) * (p + u / 2.0);
    assert (p + u / 2.0) * (p + u / 2.0) - (u * p * (1.0 - p) + u * u / 4.0) == d * (p * p);
    SquareOfProduct(d, c);
    assert d * (d * (c * c - h * h)) == d * (p * p) by {
      assert d * (d * (c * c - h * h)) == (d * d) * (c * c) - h * h * (d * d);
    }
    CancelLeft(d, d * (c * c - h * h), p * p);
    Expand(d, c, h, p, u, x);
  }

  lemma {:induction false} CancelLeft(d: real, a: real, b: real)
    requires d > 0.0 && d * a == d * b
    ensures a == b
  {
  }

  lemma {:induction false} Expand(d: real, c: real, h: real, p: real, u: real, x: real)
    requires d == 1.0 + u && d * c == p + u / 2.0 && d * (c * c - h * h) == p * p
    ensures (x - p) * (x - p) - u * x * (1.0 - x) == d * ((x - c) * (x - c) - h * h)
  {
    assert d * ((x - c) * (x - c) - h * h) == d * (x * x) - 2.0 * x * (d * c) + d * (c * c - h * h);
    assert (x - p) * (x - p) - u * x * (1.0 - x) == x * x - 2.0 * x * p + p * p - u * x + u * (x * x);
    assert d * (x * x) == x * x + u * (x * x);
    assert 2.0 * x * (d * c) == 2.0 * x * p + x * u;
  }

  // ----- what is promised ---------------------------------------------------------------

  lemma {:induction false} AcceptedIsProportion(w: Parts, x: real)
    requires w.u > 0.0 && Accepted(w, x)
    ensures 0.0 <= x <= 1.0
  {
    assert (x - w.p) * (x - w.p) >= 0.0;
    if x < 0.0 || x > 1.0 {
      OutsideIsNegative(w.u, x);
    }
  }

  lemma {:induction false} OutsideIsNegative(u: real, x: real)
    requires u > 0.0 && (x < 0.0 || x > 1.0)
    ensures u * x * (1.0 - x) < 0.0
  {
    if x < 0.0 {
      Positive(-x, 1.0 - x);
    } else {
      Positive(x, x - 1.0);
      assert x * (x - 1.0) == -(x * (1.0 - x));
    }
    Positive(u, -(x * (1.0 - x)));
    assert u * -(x * (1.0 - x)) == -(u * x * (1.0 - x));
  }

  /** 0 <= lo <= k/n <= hi <= 1, and the clamps never bite: both ends are accepted
      proportions themselves. */
  lemma {:induction false} IntervalHoldsRate(k: int, n: int, root: real)
    requires 0 <= k <= n && n > 0 && IsRoot(k, n, root)
    ensures var w := PartsOf(k, n, root);
            0.0 <= w.centre - w.half <= w.p <= w.centre + w.half <= 1.0
  {
    var w := PartsOf(k, n, root);
    PartsSolve(k, n, root);
    RateIsProportion(k, n);
    assert Accepted(w, w.p) by {
      assert w.u * w.p * (1.0 - w.p) == w.u * (w.p * (1.0 - w.p)) >= 0.0;
    }
    ScoreInterval(w, w.p);
    ScoreInterval(w, w.centre - w.half);
    ScoreInterval(w, w.centre + w.half);
    AcceptedIsProportion(w, w.centre - w.half);
    AcceptedIsProportion(w, w.centre + w.half);
  }

  lemma {:induction false} ScoreOf(w: Parts, p: real, u: real, x: real)
    requires Solves(w) && w.p == p && w.u == u
    ensures w.centre - w.half <= x <= w.centre + w.half <==> (x - p) * (x - p) <= u * x * (1.0 - x)
  {
    ScoreInterval(w, x);
  }

  lemma {:induction false} RateAndSpread(k: int, n: int, root: real)
    requires n > 0
    ensures PartsOf(k, n, root).p == k as real / n as real && PartsOf(k, n, root).u == 1.959964 * 1.959964 / n as real
  {
  }

  /** For k of n, p of them and u = 1.959964^2 / n: the ends are those of what the score test
      accepts at 1.959964 standard errors. */
  lemma {:induction false} IntervalExactly(k: int, n: int, root: real, x: real, w: Parts, p: real, u: real)
    requires n > 0 && IsRoot(k, n, root) && w == PartsOf(k, n, root)
    requires p == k as real / n as real && u == 1.959964 * 1.959964 / n as real
    ensures w.centre - w.half <= x <= w.centre + w.half <==> (x - p) * (x - p) <= u * x * (1.0 - x)
  {
    PartsSolve(k, n, root);
    RateAndSpread(k, n, root);
    ScoreOf(w, p, u, x);
  }

  /** What is reported is that interval, rounded. */
  lemma {:induction false} ReportedExactly(k: int, n: int, root: real, round: real -> real, w: Parts)
    requires 0 <= k <= n && n > 0 && IsRoot(k, n, root) && w == PartsOf(k, n, root)
    ensures Interval95(k, n, root, round)
         == Some(Interval(round(k as real / n as real), round(w.centre - w.half), round(w.centre + w.half)))
  {
    IntervalHoldsRate(k, n, root);
    RateAndSpread(k, n, root);
  }

  /** Nothing is reported of nothing. */
  lemma {:induction false} NothingOfNothing(k: int, n: int, root: real, round: real -> real)
    ensures Interval95(k, n, root, round).None? <==> n <= 0
  {
  }

  lemma {:induction false} RateIsProportion(k: int, n: int)
    requires 0 <= k <= n && n > 0
    ensures 0.0 <= k as real / n as real <= 1.0
  {
    var p, m := k as real / n as real, n as real;
    assert p * m == k as real;
    if p < 0.0 {
      Positive(-p, m);
    } else if p > 1.0 {
      Positive(p - 1.0, m);
    }
  }

  /** The reported, rounded interval keeps the order, for every rounding that keeps order. */
  lemma {:induction false} RoundedIntervalHoldsRate(k: int, n: int, root: real, round: real -> real)
    requires 0 <= k <= n && n > 0 && IsRoot(k, n, root)
    requires round(0.0) == 0.0 && round(1.0) == 1.0 && forall a, b :: a <= b ==> round(a) <= round(b)
    ensures var r := Interval95(k, n, root, round);
            r.Some? && 0.0 <= r.value.lo <= r.value.p <= r.value.hi <= 1.0
  {
    IntervalHoldsRate(k, n, root);
  }
}
