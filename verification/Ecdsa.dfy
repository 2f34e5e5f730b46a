/** ECDSA verification as the approval check does it, against signing as section 6.4 of
    FIPS 186-4 prescribes it. */
module Ecdsa {
  import opened Common
  import opened ModArith
  import opened Curve
  import opened Der

  datatype Domain = Domain(curve: Curve, g: Point, n: nat)

  /** A generator of prime order n on a curve over a prime field, where addition is a group. */
  ghost predicate Good(d: Domain) {
    IsPrime(d.curve.p) && IsPrime(d.n) && GroupLaw(d.curve)
    && d.g.Affine? && OnCurve(d.curve, d.g) && Multiple(d.curve, d.n, d.g) == Infinity
  }

  /** The point the verifier compares r with. */
  function Recovered(d: Domain, key: Point, e: nat, r: nat, s: nat): (q: Point)
    requires Good(d) && OnCurve(d.curve, key) && 0 < s < d.n
    ensures OnCurve(d.curve, q)
  {
    var w := InverseBelow(s, d.n);
    Sum(d.curve, Multiple(d.curve, e * w % d.n, d.g), Multiple(d.curve, r * w % d.n, key))
  }

  /** `pow(x, -1, n)` for a residue that has an inverse. */
  function InverseBelow(x: nat, n: nat): (w: nat)
    requires IsPrime(n) && 0 < x < n
    ensures w < n && Divides(n, x * w - 1)
  {
    ModIsUnique(n, x, 0, x);
    PrimeInverse(x, n);
    Inverse(x, n).value
  }

  predicate Matches(d: Domain, key: Point, e: nat, r: nat, s: nat)
    requires Good(d) && OnCurve(d.curve, key) && 0 < s < d.n
  {
    var q := Recovered(d, key, e, r, s);
    q.Affine? && q.x % d.n == r
  }

  /** What `p256_verify` decides. */
  predicate Accepts(d: Domain, key: Point, digest: seq<byte>, signature: seq<byte>)
    requires Good(d)
  {
    |digest| == 32 && key.Affine? && OnCurve(d.curve, key)
    && var pair := ReadSignature(signature);
    pair.Some? && 0 < pair.value.0 < d.n && 0 < pair.value.1 < d.n
    && Matches(d, key, FromBytes(digest), pair.value.0, pair.value.1)
  }

  /** `p256_verify`. */
  method P256Verify(d: Domain, key: Point, digest: seq<byte>, signature: seq<byte>) returns (ok: bool)
    requires Good(d)
    ensures ok == Accepts(d, key, digest, signature)
  {
    if |digest| != 32 || !(key.Affine? && OnCurve(d.curve, key)) {
      return false;
    }
    var pair := ReadSignature(signature);
    if pair.None? {
      return false;
    }
    var (r, s) := pair.value;
    if !(0 < r < d.n && 0 < s < d.n) {
      return false;
    }
    var w := InverseBelow(s, d.n);
    var e := FromBytes(digest);
    var left := Multiply(d.curve, e * w % d.n, d.g);
    var right := Multiply(d.curve, r * w % d.n, key);
    AddStaysOnCurve(d.curve, left, right);
    var point := Add(d.curve, left, right).value;
    return point.Affine? && point.x % d.n == r;
  }

  // ----- signing ------------------------------------------------------------------------

  /** (r, s) is what signing e with the private key and the per-message number k gives. */
  ghost predicate SignedWith(d: Domain, private: nat, k: nat, e: nat, r: nat, s: nat)
    requires Good(d)
  {
    0 < k < d.n && r != 0 && s != 0
    && Multiple(d.curve, k, d.g).Affine?
    && r == Multiple(d.curve, k, d.g).x % d.n
    && s == InverseBelow(k, d.n) * (e + r * private) % d.n
  }

  /** Some per-message number signs e to (r, s). */
  ghost predicate Signs(d: Domain, private: nat, e: nat, r: nat, s: nat)
    requires Good(d)
  {
    exists k :: SignedWith(d, private, k, e, r, s)
  }

  /** Every per-message number gives a point: the signer's r always exists. */
  lemma {:induction false} NonceGivesPoint(d: Domain, k: nat)
    requires Good(d) && 0 < k < d.n
    ensures Multiple(d.curve, k, d.g).Affine?
  {
    ModIsUnique(d.n, k, 0, k);
    NoSmallerOrder(d.curve, d.n, k, d.g);
  }

  /** x is the residue of y. */
  lemma {:induction false} IsResidue(n: nat, x: int, y: int)
    requires n > 0 && 0 <= x < n && Divides(n, x - y)
    ensures x == y % n
  {
    SameResidue(n, x, y);
    ModIsUnique(n, x, 0, x);
  }

  /** s is k's inverse times m exactly when k is s's inverse times m. */
  lemma {:induction false} Exchange(n: nat, k: nat, s: nat, m: nat)
    requires IsPrime(n) && 0 < k < n && 0 < s < n
    requires s == InverseBelow(k, n) * m % n
    ensures k == InverseBelow(s, n) * m % n
  {
    var v, w := InverseBelow(k, n), InverseBelow(s, n);
    ModDiff(n, v * m);
    // k - w*m == w*k*(s - v*m) + w*m*(k*v - 1) - k*(s*w - 1)
    Combine(n, s - v * m, k * v - 1, w * k, w * m);
    Times(n, s * w - 1, k);
    Plus(n, w * k * (s - v * m) + w * m * (k * v - 1), k * (s * w - 1));
    ExchangeIdentity(k, s, m, v, w);
    IsResidue(n, k, w * m);
  }

  lemma {:induction false} ExchangeIdentity(k: int, s: int, m: int, v: int, w: int)
    ensures w * k * (s - v * m) + w * m * (k * v - 1) - k * (s * w - 1) == k - w * m
  {
    assert w * k * (s - v * m) == w * k * s - w * k * (v * m);
    assert w * m * (k * v - 1) == w * m * (k * v) - w * m;
    assert w * k * (v * m) == w * m * (k * v);
    assert k * (s * w - 1) == w * k * s - k;
  }

  lemma {:induction false} ResidueOfSum(n: nat, e: nat, r: nat, w: nat, private: nat)
    requires n > 0
    ensures r * private >= 0 && w * (e + r * private) >= 0
    ensures (e * w % n + r * w % n * private) % n == w * (e + r * private) % n
  {
    var u1, u2 := e * w % n, r * w % n;
    ModDiff(n, e * w);
    ModDiff(n, r * w);
    Combine(n, u1 - e * w, u2 - r * w, 1, private);
    assert 1 * (u1 - e * w) + private * (u2 - r * w) == u1 + u2 * private - w * (e + r * private) by {
      assert private * (u2 - r * w) == u2 * private - private * (r * w);
      assert private * (r * w) == w * (r * private);
      assert w * (e + r * private) == e * w + w * (r * private);
    }
    SameResidue(n, u1 + u2 * private, w * (e + r * private));
  }

  /** The verifier's point is the generator times s's inverse times (e + r * private). */
  lemma {:induction false} RecoveredIsMultiple(d: Domain, private: nat, e: nat, r: nat, s: nat)
    requires Good(d) && 0 < s < d.n
    ensures InverseBelow(s, d.n) * (e + r * private) >= 0
    ensures Recovered(d, Multiple(d.curve, private, d.g), e, r, s)
         == Multiple(d.curve, InverseBelow(s, d.n) * (e + r * private) % d.n, d.g)
  {
    var n, w, m := d.n, InverseBelow(s, d.n), e + r * private;
    var u1, u2 := e * w % n, r * w % n;
    MultipleOfMultiple(d.curve, u2, private, d.g);
    MultiplesAddUp(d.curve, u1, u2 * private, d.g);
    MultipleModulo(d.curve, n, u1 + u2 * private, d.g);
    ResidueOfSum(n, e, r, w, private);
  }

  /** A well-read pair passes the verifier exactly when some per-message number signs to it. */
  lemma {:induction false} PairAcceptedExactly(d: Domain, private: nat, e: nat, r: nat, s: nat)
    requires Good(d) && 0 < r < d.n && 0 < s < d.n
    ensures Matches(d, Multiple(d.curve, private, d.g), e, r, s) <==> Signs(d, private, e, r, s)
  {
    RecoveredIsMultiple(d, private, e, r, s);
    if Matches(d, Multiple(d.curve, private, d.g), e, r, s) {
      var k := InverseBelow(s, d.n) * (e + r * private) % d.n;
      Exchange(d.n, s, k, e + r * private);
      assert SignedWith(d, private, k, e, r, s);
    }
    if k :| SignedWith(d, private, k, e, r, s) {
      Exchange(d.n, k, s, e + r * private);
    }
  }

  /** The verifier accepts exactly the encodings of signatures the private key can make. */
  lemma {:induction false} AcceptedExactly(d: Domain, private: nat, digest: seq<byte>, signature: seq<byte>)
    requires Good(d) && 0 < private < d.n
    ensures Accepts(d, Multiple(d.curve, private, d.g), digest, signature)
       <==> |digest| == 32 && ReadSignature(signature).Some?
            && var (r, s) := ReadSignature(signature).value;
               Signs(d, private, FromBytes(digest), r, s)
  {
    NonceGivesPoint(d, private);
    var pair := ReadSignature(signature);
    if pair.Some? {
      var (r, s) := pair.value;
      if 0 < r < d.n && 0 < s < d.n {
        PairAcceptedExactly(d, private, FromBytes(digest), r, s);
      } else if k :| SignedWith(d, private, k, FromBytes(digest), r, s) {
        assert false;
      }
    }
  }

  /** A signature made and encoded by the book is accepted. */
  lemma {:induction false} SignedIsAccepted(d: Domain, private: nat, k: nat, digest: seq<byte>, r: nat, s: nat)
    requires Good(d) && d.n <= Pow256(32) && 0 < private < d.n && |digest| == 32
    requires SignedWith(d, private, k, FromBytes(digest), r, s)
    ensures |IntBytes(r)| <= 33 && |IntBytes(s)| <= 33
    ensures Accepts(d, Multiple(d.curve, private, d.g), digest, WriteSignature(r, s))
  {
    SignatureRoundTrip(r, s);
    AcceptedExactly(d, private, digest, WriteSignature(r, s));
  }

  /** P-256 itself (section D.1.2.3 of FIPS 186-4). That its p and n are prime and n the
      generator's order is what `Good(P256)` says of it. */
  const P: int := 0xFFFFFFFF00000001000000000000000000000000FFFFFFFFFFFFFFFFFFFFFFFF

  const P256: Domain := Domain(
    Curve(P, P - 3, 0x5AC635D8AA3A93E7B3EBBD55769886BC651D06B0CC53B0F63BCE3C3E27D2604B),
    Affine(0x6B17D1F2E12C4247F8BCE6E563A440F277037D812DEB33A0F4A13945D898C296,
           0x4FE342E2FE1A7F9B8EE7EB4A7C0F9E162BCE33576B315ECECBB6406837BF51F5),
    0xFFFFFFFF00000000FFFFFFFFFFFFFFFFBCE6FAADA7179E84F3B9CAC2FC632551)

  lemma {:induction false} P256Constants()
    ensures OnCurve(P256.curve, P256.g) && 1 < P256.n < P256.curve.p
    ensures P256.curve.p <= Pow256(32)
  {
    Pow256Value();
  }

  lemma {:induction false} Pow256Value()
    ensures Pow256(32) == 0x1_0000000000000000_0000000000000000_0000000000000000_0000000000000000
  {
    assert Pow256(8) == 0x1_0000000000000000;
    assert Pow256(16) == 0x1_0000000000000000_0000000000000000;
    assert Pow256(24) == 0x1_0000000000000000_0000000000000000_0000000000000000;
  }

  // ----- the public key -----------------------------------------------------------------

  const ALGORITHM: seq<byte> :=
    [0x06, 0x07, 0x2a, 0x86, 0x48, 0xce, 0x3d, 0x02, 0x01]
    + [0x06, 0x08, 0x2a, 0x86, 0x48, 0xce, 0x3d, 0x03, 0x01, 0x07]

  /** `p256_public_key` after the PEM armour: the point, or None for its ValueError. */
  function PublicKey(c: Curve, der: seq<byte>): (r: Option<Point>)
    requires c.p > 1
    ensures r.Some? ==> r.value.Affine? && OnCurve(c, r.value)
  {
    match DerRead(der, 0, 0x30)
    case None => None
    case Some(info) =>
      if info.end != |der| then None else
      match DerRead(info.contents, 0, 0x30)
      case None => None
      case Some(algorithm) =>
        if algorithm.contents != ALGORITHM then None else
        match DerRead(info.contents, algorithm.end, 0x03)
        case None => None
        case Some(bits) =>
          if bits.end != |info.contents| then None else PointOf(c, bits.contents)
  }

  function PointOf(c: Curve, bits: seq<byte>): (r: Option<Point>)
    requires c.p > 1
    ensures r.Some? ==> r.value.Affine? && OnCurve(c, r.value)
  {
    if |bits| != 66 || bits[0] != 0 || bits[1] != 0x04 then None
    else
      var q := Affine(FromBytes(bits[2..34]), FromBytes(bits[34..66]));
      if OnCurve(c, q) then Some(q) else None
  }

  function PointBits(q: Point): seq<byte>
    requires q.Affine? && q.x >= 0 && q.y >= 0
  {
    [0, 0x04] + FixedBytes(q.x, 32) + FixedBytes(q.y, 32)
  }

  /** The SubjectPublicKeyInfo of an uncompressed point (RFC 5480). */
  function WriteKey(q: Point): seq<byte>
    requires q.Affine? && q.x >= 0 && q.y >= 0
  {
    DerWrite(0x30, DerWrite(0x30, ALGORITHM) + DerWrite(0x03, PointBits(q)))
  }

  lemma {:induction false} PointReadsBack(c: Curve, q: Point)
    requires 1 < c.p <= Pow256(32) && q.Affine? && OnCurve(c, q)
    ensures PointOf(c, PointBits(q)) == Some(q)
  {
    var bits := PointBits(q);
    FixedReadsBack(q.x, 32);
    FixedReadsBack(q.y, 32);
    assert bits[2..34] == FixedBytes(q.x, 32);
    assert bits[34..66] == FixedBytes(q.y, 32);
  }

  /** A written key reads back as its point. */
  lemma {:induction false} KeyReadsBack(c: Curve, q: Point)
    requires 1 < c.p <= Pow256(32) && q.Affine? && OnCurve(c, q)
    ensures PublicKey(c, WriteKey(q)) == Some(q)
  {
    PointReadsBack(c, q);
    var first, second := DerWrite(0x30, ALGORITHM), DerWrite(0x03, PointBits(q));
    var info := first + second;
    ReadUndoesWrite([], 0x30, info, []);
    assert [] + WriteKey(q) + [] == WriteKey(q);
    ReadUndoesWrite([], 0x30, ALGORITHM, second);
    assert [] + first + second == info;
    ReadUndoesWrite(first, 0x03, PointBits(q), []);
    assert first + second + [] == info;
  }

  /** The contents of the bit string: no unused bits, no compression, both coordinates. */
  ghost predicate BitsOfPoint(bits: seq<byte>, q: Point, x: seq<byte>, y: seq<byte>) {
    bits == [0x00, 0x04] + x + y && |x| == 32 && |y| == 32 && q == Affine(FromBytes(x), FromBytes(y))
  }

  lemma {:induction false} BitsRead(c: Curve, bits: seq<byte>, q: Point, x: seq<byte>, y: seq<byte>)
    requires c.p > 1 && OnCurve(c, q) && BitsOfPoint(bits, q, x, y)
    ensures PointOf(c, bits) == Some(q)
  {
    assert bits[2..34] == x && bits[34..66] == y;
  }

  lemma {:induction false} BitsAre(c: Curve, bits: seq<byte>, q: Point) returns (x: seq<byte>, y: seq<byte>)
    requires c.p > 1 && PointOf(c, bits) == Some(q)
    ensures OnCurve(c, q) && BitsOfPoint(bits, q, x, y)
  {
    x, y := bits[2..34], bits[34..66];
    assert bits == [bits[0], bits[1]] + x + y;
  }

  /** The bytes of a key: a sequence of the two object identifiers -- id-ecPublicKey and
      prime256v1 -- and of such a bit string. */
  ghost predicate KeyOfPoint(der: seq<byte>, q: Point, bits: seq<byte>, first: seq<byte>, second: seq<byte>,
                             x: seq<byte>, y: seq<byte>)
  {
    Encodes(0x30, first + second, der)
    && Encodes(0x30, [0x06, 0x07, 0x2a, 0x86, 0x48, 0xce, 0x3d, 0x02, 0x01, 0x06, 0x08, 0x2a, 0x86, 0x48, 0xce, 0x3d, 0x03, 0x01, 0x07],
               first)
    && Encodes(0x03, bits, second) && BitsOfPoint(bits, q, x, y)
  }

  lemma {:induction false} PartsRead(der: seq<byte>, names: seq<byte>, bits: seq<byte>, first: seq<byte>, second: seq<byte>)
    requires Encodes(0x30, first + second, der) && Encodes(0x30, names, first) && Encodes(0x03, bits, second)
    ensures DerRead(der, 0, 0x30) == Some(Element(first + second, |der|))
    ensures DerRead(first + second, 0, 0x30) == Some(Element(names, |first|))
    ensures DerRead(first + second, |first|, 0x03) == Some(Element(bits, |first + second|))
  {
    var info := first + second;
    assert der[0..|der|] == der && info[0..|first|] == first && info[|first|..|info|] == second;
    EncodedIsRead(der, 0, 0x30, info, |der|);
    EncodedIsRead(info, 0, 0x30, names, |first|);
    EncodedIsRead(info, |first|, 0x03, bits, |info|);
  }

  lemma {:induction false} PartsAre(der: seq<byte>, info: Element, names: Element, bits: Element)
    returns (first: seq<byte>, second: seq<byte>)
    requires DerRead(der, 0, 0x30) == Some(info) && info.end == |der|
    requires DerRead(info.contents, 0, 0x30) == Some(names) && DerRead(info.contents, names.end, 0x03) == Some(bits)
    requires bits.end == |info.contents|
    ensures Encodes(0x30, first + second, der) && Encodes(0x30, names.contents, first) && Encodes(0x03, bits.contents, second)
  {
    ReadIsEncoded(der, 0, 0x30, info);
    ReadIsEncoded(info.contents, 0, 0x30, names);
    ReadIsEncoded(info.contents, names.end, 0x03, bits);
    first, second := info.contents[0..names.end], info.contents[names.end..bits.end];
    assert first + second == info.contents && der[0..|der|] == der;
  }

  lemma {:induction false} TheAlgorithm()
    ensures ALGORITHM
         == [0x06, 0x07, 0x2a, 0x86, 0x48, 0xce, 0x3d, 0x02, 0x01, 0x06, 0x08, 0x2a, 0x86, 0x48, 0xce, 0x3d, 0x03, 0x01, 0x07]
  {
  }

  lemma {:induction false} KeyOfPointIsRead(c: Curve, der: seq<byte>, q: Point, bits: seq<byte>, first: seq<byte>, second: seq<byte>,
                                            x: seq<byte>, y: seq<byte>)
    requires c.p > 1 && OnCurve(c, q) && KeyOfPoint(der, q, bits, first, second, x, y)
    ensures PublicKey(c, der) == Some(q)
  {
    TheAlgorithm();
    PartsRead(der, ALGORITHM, bits, first, second);
    BitsRead(c, bits, q, x, y);
  }

  lemma {:induction false} KeyIsOfPoint(c: Curve, der: seq<byte>, q: Point)
    returns (bits: seq<byte>, first: seq<byte>, second: seq<byte>, x: seq<byte>, y: seq<byte>)
    requires c.p > 1 && PublicKey(c, der) == Some(q)
    ensures OnCurve(c, q) && KeyOfPoint(der, q, bits, first, second, x, y)
  {
    var info := DerRead(der, 0, 0x30).value;
    var names := DerRead(info.contents, 0, 0x30).value;
    var last := DerRead(info.contents, names.end, 0x03).value;
    bits := last.contents;
    TheAlgorithm();
    first, second := PartsAre(der, info, names, last);
    x, y := BitsAre(c, bits, q);
  }

  /** A key reads as a point exactly when it is such a key of a point of the curve. */
  lemma {:induction false} KeyReadExactly(c: Curve, der: seq<byte>, q: Point)
    requires c.p > 1
    ensures PublicKey(c, der) == Some(q)
       <==> OnCurve(c, q) && exists bits, first, second, x, y :: KeyOfPoint(der, q, bits, first, second, x, y)
  {
    if PublicKey(c, der) == Some(q) {
      var bits, first, second, x, y := KeyIsOfPoint(c, der, q);
    }
    if OnCurve(c, q) {
      if bits, first, second, x, y :| KeyOfPoint(der, q, bits, first, second, x, y) {
        KeyOfPointIsRead(c, der, q, bits, first, second, x, y);
      }
    }
  }
}
