/** Arithmetic modulo m: Python's `%` on a positive modulus, `pow(x, -1, m)`, and the
    facts about a prime modulus that elliptic-curve addition rests on. */
module ModArith {
  import opened Common

  /** m divides x. */
  ghost predicate Divides(m: int, x: int)
    requires m > 0
  {
    x % m == 0
  }

  ghost predicate IsPrime(p: int) {
    p > 1 && forall d :: 1 < d < p ==> p % d != 0
  }

  lemma {:induction false} DivMod(m: int, x: int)
    requires m > 0
    ensures x == m * (x / m) + x % m && 0 <= x % m < m
  {
  }

  lemma {:induction false} SmallMultiple(m: int, d: int)
    requires m > 0
    ensures -m < m * d < m <==> d == 0
  {
    assert d >= 1 ==> m * d >= m * 1;
    assert d <= -1 ==> m * d <= m * -1;
  }

  lemma {:induction false} ModIsUnique(m: int, x: int, q: int, r: int)
    requires m > 0 && x == m * q + r && 0 <= r < m
    ensures x % m == r && x / m == q
  {
    DivMod(m, x);
    var d := x / m - q;
    assert m * d == r - x % m by {
      assert m * (x / m - q) == m * (x / m) - m * q;
    }
    SmallMultiple(m, d);
  }

  lemma {:induction false} MultipleDivides(m: int, q: int)
    requires m > 0
    ensures Divides(m, m * q)
  {
    ModIsUnique(m, m * q, q, 0);
  }

  lemma {:induction false} Combine(m: int, x: int, y: int, u: int, v: int)
    requires m > 0 && Divides(m, x) && Divides(m, y)
    ensures Divides(m, u * x + v * y)
  {
    DivMod(m, x);
    DivMod(m, y);
    var i, j := x / m, y / m;
    assert u * x + v * y == m * (u * i + v * j) by {
      assert u * (m * i) == m * (u * i) && v * (m * j) == m * (v * j);
      assert m * (u * i + v * j) == m * (u * i) + m * (v * j);
    }
    MultipleDivides(m, u * i + v * j);
  }

  lemma {:induction false} Plus(m: int, x: int, y: int)
    requires m > 0 && Divides(m, x) && Divides(m, y)
    ensures Divides(m, x + y) && Divides(m, x - y)
  {
    Combine(m, x, y, 1, 1);
    Combine(m, x, y, 1, -1);
  }

  lemma {:induction false} Times(m: int, x: int, u: int)
    requires m > 0 && Divides(m, x)
    ensures Divides(m, u * x) && Divides(m, x * u)
  {
    Combine(m, x, 0, u, 0);
  }

  lemma {:induction false} ModDiff(m: int, x: int)
    requires m > 0
    ensures Divides(m, x % m - x) && Divides(m, x - x % m)
  {
    DivMod(m, x);
    MultipleDivides(m, x / m);
    MultipleDivides(m, -(x / m));
    assert m * -(x / m) == -(m * (x / m));
  }

  /** Two residues are equal exactly when m divides the difference. */
  lemma {:induction false} SameResidue(m: int, x: int, y: int)
    requires m > 0
    ensures x % m == y % m <==> Divides(m, x - y)
  {
    DivMod(m, x);
    DivMod(m, y);
    var q := x / m - y / m;
    assert m * q == m * (x / m) - m * (y / m);
    if x % m == y % m {
      MultipleDivides(m, q);
    }
    if Divides(m, x - y) {
      DivMod(m, x - y);
      ModIsUnique(m, x, (x - y) / m + y / m, y % m);
    }
  }

  // ----- inverses ---------------------------------------------------------------------

  datatype Bezout = Bezout(gcd: int, u: int, v: int)

  /** The extended Euclidean algorithm. */
  function Egcd(a: nat, b: nat): (r: Bezout)
    requires a + b > 0
    ensures r.gcd > 0 && a * r.u + b * r.v == r.gcd
    ensures a % r.gcd == 0 && b % r.gcd == 0
    decreases b
  {
    if b == 0 then Bezout(a, 1, 0)
    else
      var r := Egcd(b, a % b);
      EgcdStep(a, b, r.gcd, r.u, r.v);
      Bezout(r.gcd, r.v, r.u - (a / b) * r.v)
  }

  lemma {:induction false} EgcdStep(a: int, b: int, g: int, u: int, v: int)
    requires b > 0 && g > 0 && b * u + (a % b) * v == g && b % g == 0 && (a % b) % g == 0
    ensures a * v + b * (u - (a / b) * v) == g
    ensures a % g == 0
  {
    var q := a / b;
    DivMod(b, a);
    assert b * (u - q * v) == b * u - (b * q) * v;
    assert (b * q + a % b) * v == (b * q) * v + (a % b) * v;
    Combine(g, b, a % b, q, 1);
    assert q * b + 1 * (a % b) == a;
  }

  /** `pow(x, -1, m)`: the inverse in 0 .. m-1, or None where Python raises. */
  function Inverse(x: int, m: int): (r: Option<int>)
    requires m > 1
    ensures r.Some? ==> 0 <= r.value < m && Divides(m, x * r.value - 1)
  {
    var e := Egcd(x % m, m);
    if e.gcd != 1 then None
    else
      InverseIsOne(x, m, e.u, e.v);
      Some(e.u % m)
  }

  lemma {:induction false} InverseIsOne(x: int, m: int, u: int, v: int)
    requires m > 1 && (x % m) * u + m * v == 1
    ensures 0 <= u % m < m && Divides(m, x * (u % m) - 1)
  {
    ModDiff(m, x);
    ModDiff(m, u);
    // x * (u % m) - 1 == x * (u % m - u) + (x - x % m) * u - m * v
    MultipleDivides(m, v);
    Combine(m, u % m - u, x - x % m, x, u);
    Plus(m, x * (u % m - u) + u * (x - x % m), m * v);
    assert x * (u % m) - 1 == x * (u % m - u) + u * (x - x % m) - m * v by {
      assert x * (u % m - u) == x * (u % m) - x * u;
      assert u * (x - x % m) == x * u - (x % m) * u;
    }
  }

  /** A prime has an inverse for every number it does not divide. */
  lemma {:induction false} PrimeInverse(x: int, p: int)
    requires IsPrime(p) && !Divides(p, x)
    ensures Inverse(x, p).Some?
  {
    var g := Egcd(x % p, p).gcd;
    DivMod(p, x);
    DivMod(g, x % p);
    SmallMultiple(g, (x % p) / g);
    assert g < p;
  }

  /** A prime that divides a product divides a factor. */
  lemma {:induction false} EuclidLemma(p: int, a: int, b: int)
    requires IsPrime(p) && Divides(p, a * b)
    ensures Divides(p, a) || Divides(p, b)
  {
    if !Divides(p, a) {
      PrimeInverse(a, p);
      var v := Inverse(a, p).value;
      Combine(p, a * b, a * v - 1, v, -b);
      assert v * (a * b) + -b * (a * v - 1) == b by {
        assert v * (a * b) == b * (a * v);
        assert b * (a * v - 1) == b * (a * v) - b;
      }
    }
  }

  /** What behaves like the inverse is the inverse given. */
  lemma {:induction false} InverseIs(x: int, p: int, v: int)
    requires IsPrime(p) && 0 <= v < p && Divides(p, x * v - 1)
    ensures Inverse(x, p) == Some(v)
  {
    NotDivided(x, p, v);
    PrimeInverse(x, p);
    var w := Inverse(x, p).value;
    Combine(p, x * w - 1, x * v - 1, v, -w);
    CrossInverses(x, v, w);
    DivMod(p, w - v);
    SmallMultiple(p, (w - v) / p);
  }

  lemma {:induction false} CrossInverses(x: int, v: int, w: int)
    ensures v * (x * w - 1) + -w * (x * v - 1) == w - v
  {
    assert v * (x * w) == w * (x * v);
    assert v * (x * w - 1) == v * (x * w) - v;
    assert w * (x * v - 1) == w * (x * v) - w;
  }

  lemma {:induction false} NotDivided(x: int, p: int, v: int)
    requires p > 1 && Divides(p, x * v - 1)
    ensures !Divides(p, x)
  {
    assert v * x == x * v;
    if Divides(p, x) {
      Times(p, x, v);
      Plus(p, v * x, x * v - 1);
    }
  }
}
