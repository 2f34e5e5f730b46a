/** A domain small enough to check by hand: what the theorems of `Ecdsa` ask can be met. */
module TinyDomain {
  import opened Common
  import opened ModArith
  import opened Curve
  import opened Ecdsa

  /** y^2 = x^3 + 3x + 2 over the integers modulo 5 has five points. */
  const TINY := Domain(Curve(5, 3, 2), Affine(1, 1), 5)

  /** The generator's multiples. */
  function At(i: nat): (q: Point)
    requires i < 5
  {
    [Infinity, Affine(1, 1), Affine(2, 1), Affine(2, 4), Affine(1, 4)][i]
  }

  function Squares(): seq<int> {
    [0, 1, 4, 9, 16]
  }

  function Cubics(): seq<int> {
    [2, 6, 16, 38, 78]
  }

  lemma {:induction false} SquareAt(y: int)
    requires 0 <= y < 5
    ensures y * y == Squares()[y]
  {
    if y == 0 {
    } else if y == 1 {
    } else if y == 2 {
    } else if y == 3 {
    } else {
      assert y == 4;
    }
  }

  lemma {:induction false} CubicAt(x: int)
    requires 0 <= x < 5
    ensures Cubic(TINY.curve, x) == Cubics()[x]
  {
    SquareAt(x);
    var s := Squares()[x];
    assert x * x * x == s * x;
    if x == 0 {
    } else if x == 1 {
    } else if x == 2 {
    } else if x == 3 {
    } else {
      assert x == 4;
    }
  }

  lemma {:induction false} OnlyFour(x: int, y: int)
    requires 0 <= x < 5 && 0 <= y < 5 && (Squares()[y] - Cubics()[x]) % 5 == 0
    ensures (x == 1 || x == 2) && (y == 1 || y == 4)
  {
  }

  lemma {:induction false} Fives(p: int, v: int)
    requires p == 5 && v % p == 0
    ensures v % 5 == 0
  {
  }

  lemma {:induction false} CurveFives(c: Curve, x: int, y: int) returns (v: int)
    requires c.p == 5 && OnCurve(c, Affine(x, y))
    ensures 0 <= x < 5 && 0 <= y < 5 && v == y * y - Cubic(c, x) && v % 5 == 0
  {
    v := y * y - Cubic(c, x);
    Fives(c.p, v);
  }

  lemma {:induction false} FourSolutions(c: Curve, x: int, y: int, v: int)
    requires c == TINY.curve && 0 <= x < 5 && 0 <= y < 5 && v == y * y - Cubic(c, x) && v % 5 == 0
    ensures (x == 1 || x == 2) && (y == 1 || y == 4)
  {
    SquareAt(y);
    CubicAt(x);
    SameRemainder(v, y * y, Cubic(c, x), x, y);
  }

  lemma {:induction false} SameRemainder(v: int, square: int, cubic: int, x: int, y: int)
    requires 0 <= x < 5 && 0 <= y < 5 && square == Squares()[y] && cubic == Cubics()[x]
    requires v == square - cubic && v % 5 == 0
    ensures (x == 1 || x == 2) && (y == 1 || y == 4)
  {
    OnlyFour(x, y);
  }

  lemma {:induction false} TinyPoints(c: Curve, q: Point) returns (i: nat)
    requires c == TINY.curve && OnCurve(c, q)
    ensures i < 5 && q == At(i)
  {
    if q.Infinity? {
      return 0;
    }
    var v := CurveFives(c, q.x, q.y);
    FourSolutions(c, q.x, q.y, v);
    return if q.x == 1 then (if q.y == 1 then 1 else 4) else if q.y == 1 then 2 else 3;
  }

  lemma {:induction false} TinyPrime()
    ensures IsPrime(5)
  {
  }

  lemma {:induction false} TinyOnCurve(i: nat)
    requires i < 5
    ensures OnCurve(TINY.curve, At(i))
  {
    CubicAt(1);
    CubicAt(2);
  }

  /** A point over the line of slope num / den, from the multiples of 5 left out. */
  lemma {:induction false} OnLine(c: Curve, num: int, den: int, q: Point, x2: int, r: Point, k: int, l: int)
    requires c.p > 1 && q.Affine? && r.Affine? && 0 <= r.x < c.p && 0 <= r.y < c.p
    requires num * (r.x - q.x) - den * (-r.y - q.y) == c.p * k && (r.x + q.x + x2) * (den * den) - num * num == c.p * l
    ensures Through(c, num, den, q, x2, r)
  {
    MultipleDivides(c.p, k);
    MultipleDivides(c.p, l);
  }

  lemma {:induction false} AddTo1(c: Curve, j: nat)
    requires c == TINY.curve && j < 5
    ensures IsSum(c, At(1), At(j), At((j + 1) % 5))
  {
    if j == 1 {
      OnLine(c, 6, 2, At(1), 1, At(2), 2, -4);
    } else if j == 2 {
      OnLine(c, 0, 1, At(1), 2, At(3), 1, 1);
    } else if j == 3 {
      OnLine(c, 3, 1, At(1), 2, At(4), 1, -1);
    }
  }

  lemma {:induction false} AddTo2(c: Curve, j: nat)
    requires c == TINY.curve && j < 5
    ensures IsSum(c, At(2), At(j), At((j + 2) % 5))
  {
    if j == 1 {
      OnLine(c, 0, -1, At(2), 1, At(3), -1, 1);
    } else if j == 2 {
      OnLine(c, 15, 2, At(2), 2, At(4), -1, -41);
    } else if j == 4 {
      OnLine(c, 3, -1, At(2), 1, At(1), -1, -1);
    }
  }

  lemma {:induction false} AddTo3(c: Curve, j: nat)
    requires c == TINY.curve && j < 5
    ensures IsSum(c, At(3), At(j), At((j + 3) % 5))
  {
    if j == 1 {
      OnLine(c, -3, -1, At(3), 1, At(4), -1, -1);
    } else if j == 3 {
      OnLine(c, 15, 8, At(3), 2, At(1), 5, 19);
    } else if j == 4 {
      OnLine(c, 0, -1, At(3), 1, At(2), -1, 1);
    }
  }

  lemma {:induction false} AddTo4(c: Curve, j: nat)
    requires c == TINY.curve && j < 5
    ensures IsSum(c, At(4), At(j), At((j + 4) % 5))
  {
    if j == 2 {
      OnLine(c, -3, 1, At(4), 2, At(1), 1, -1);
    } else if j == 3 {
      OnLine(c, 0, 1, At(4), 2, At(2), 1, 1);
    } else if j == 4 {
      OnLine(c, 6, 8, At(4), 1, At(3), 14, 44);
    }
  }

  /** Adding multiples of the generator adds their numbers modulo 5: chords, tangents and all. */
  lemma {:induction false} AddsIndices(c: Curve, i: nat, j: nat)
    requires c == TINY.curve && i < 5 && j < 5
    ensures IsPrime(c.p) && OnCurve(c, At(i)) && OnCurve(c, At(j))
    ensures Sum(c, At(i), At(j)) == At((i + j) % 5)
  {
    TinyPrime();
    TinyOnCurve(i);
    TinyOnCurve(j);
    if i == 1 {
      AddTo1(c, j);
    } else if i == 2 {
      AddTo2(c, j);
    } else if i == 3 {
      AddTo3(c, j);
    } else if i == 4 {
      AddTo4(c, j);
    }
    AddIsChordAndTangent(c, At(i), At(j), At((i + j) % 5));
  }

  ghost predicate AddsAt(c: Curve, at: nat -> Point, i: nat, j: nat)
    requires IsPrime(c.p)
  {
    i < 5 && j < 5 ==> OnCurve(c, at(i)) && OnCurve(c, at(j)) && Sum(c, at(i), at(j)) == at((i + j) % 5)
  }

  /** The curve's points are five, and adding them is adding their numbers modulo 5. */
  ghost predicate Cyclic(c: Curve, at: nat -> Point)
    requires IsPrime(c.p)
  {
    (forall i, j {:trigger AddsAt(c, at, i, j)} :: AddsAt(c, at, i, j))
    && at(0) == Infinity
  }

  lemma {:induction false} CyclicIsAssociative(c: Curve, at: nat -> Point, i: nat, j: nat, k: nat)
    requires IsPrime(c.p) && Cyclic(c, at) && i < 5 && j < 5 && k < 5
    ensures OnCurve(c, at(i)) && OnCurve(c, at(j)) && OnCurve(c, at(k)) && AssociativeAt(c, at(i), at(j), at(k))
  {
    var ij, jk := (i + j) % 5, (j + k) % 5;
    assert AddsAt(c, at, i, j) && AddsAt(c, at, j, k) && AddsAt(c, at, ij, k) && AddsAt(c, at, i, jk);
    SumsRegroup(i, j, k);
    Regrouped(c, at(i), at(j), at(k), at(ij), at(jk));
  }

  lemma {:induction false} SumsRegroup(i: nat, j: nat, k: nat)
    ensures ((i + j) % 5 + k) % 5 == (i + (j + k) % 5) % 5
  {
  }

  lemma {:induction false} Regrouped(c: Curve, q1: Point, q2: Point, q3: Point, q12: Point, q23: Point)
    requires IsPrime(c.p) && OnCurve(c, q1) && OnCurve(c, q2) && OnCurve(c, q3) && OnCurve(c, q12) && OnCurve(c, q23)
    requires Sum(c, q1, q2) == q12 && Sum(c, q2, q3) == q23 && Sum(c, q12, q3) == Sum(c, q1, q23)
    ensures AssociativeAt(c, q1, q2, q3)
  {
  }

  lemma {:induction false} CyclicMultiple(c: Curve, at: nat -> Point, k: nat)
    requires IsPrime(c.p) && Cyclic(c, at) && k <= 5
    ensures OnCurve(c, at(1)) && Multiple(c, k, at(1)) == at(k % 5)
  {
    assert AddsAt(c, at, 1, 1);
    if k > 0 {
      CyclicMultiple(c, at, k - 1);
      assert AddsAt(c, at, 1, (k - 1) % 5);
    }
  }

  lemma {:induction false} TinyIsCyclic(c: Curve, at: nat -> Point)
    requires c == TINY.curve && IsPrime(c.p) && forall i :: i < 5 ==> at(i) == At(i)
    ensures Cyclic(c, at)
  {
    forall i: nat, j: nat
      ensures AddsAt(c, at, i, j)
    {
      if i < 5 && j < 5 {
        AddsIndices(c, i, j);
      }
    }
  }

  lemma {:induction false} TinyIsGroup(c: Curve, at: nat -> Point)
    requires c == TINY.curve && IsPrime(c.p) && Cyclic(c, at) && forall i :: i < 5 ==> at(i) == At(i)
    ensures GroupLaw(c)
  {
    forall q1: Point, q2: Point, q3: Point | OnCurve(c, q1) && OnCurve(c, q2) && OnCurve(c, q3)
      ensures AssociativeAt(c, q1, q2, q3)
    {
      var i := TinyPoints(c, q1);
      var j := TinyPoints(c, q2);
      var k := TinyPoints(c, q3);
      CyclicIsAssociative(c, at, i, j, k);
    }
  }

  /** A prime field, a prime order, a group and a generator of that order. */
  lemma {:induction false} TinyIsGood()
    ensures Good(TINY)
  {
    TinyPrime();
    var at := (i: nat) => if i < 5 then At(i) else Infinity;
    TinyIsCyclic(TINY.curve, at);
    TinyIsGroup(TINY.curve, at);
    CyclicMultiple(TINY.curve, at, 5);
  }
}
