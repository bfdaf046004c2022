/** The curve of src/crypto/crypto-ops.h as an abstract group: only its laws are used. */
module Curve {
  import opened Words

  /**
    Points, their canonical encoding, the hash and the map of a key to the curve.  The whole group has
    exponent dividing eight times the prime order of the base point, as the curve behind these operations has.
   */
  datatype Curve<!P(!new)> = Curve(
    zero: P,
    add: (P, P) -> P,
    neg: P -> P,
    base: P,
    order: nat,
    encode: P -> seq<byte>,
    decode: seq<byte> -> Option<P>,
    hash: seq<byte> -> nat,
    toPoint: seq<byte> -> P
  )

  /** sizeof(ec_point) */
  const POINT_SIZE: nat := 32

  ghost predicate Prime(q: nat)
  {
    q > 1 && forall d: nat :: 1 < d < q ==> q % d != 0
  }

  ghost predicate Associative<P(!new)>(cv: Curve<P>)
  {
    forall x, y, z :: cv.add(cv.add(x, y), z) == cv.add(x, cv.add(y, z))
  }

  ghost predicate Commutative<P(!new)>(cv: Curve<P>)
  {
    forall x, y :: cv.add(x, y) == cv.add(y, x)
  }

  ghost predicate GroupLaws<P(!new)>(cv: Curve<P>)
  {
    Associative(cv) && Commutative(cv) &&
    (forall x :: cv.add(x, cv.zero) == x) &&
    (forall x :: cv.add(x, cv.neg(x)) == cv.zero)
  }

  ghost predicate OrderLaws<P(!new)>(cv: Curve<P>)
  {
    Prime(cv.order) && cv.base != cv.zero &&
    Mul(cv, cv.order, cv.base) == cv.zero &&
    (forall x :: Mul(cv, 8 * cv.order, x) == cv.zero)
  }

  ghost predicate EncodingLaws<P(!new)>(cv: Curve<P>)
  {
    (forall x :: |cv.encode(x)| == POINT_SIZE && cv.decode(cv.encode(x)) == Some(x)) &&
    (forall s :: cv.decode(s).Some? ==> cv.encode(cv.decode(s).value) == s)
  }

  ghost predicate Valid<P(!new)>(cv: Curve<P>)
  {
    GroupLaws(cv) && OrderLaws(cv) && EncodingLaws(cv)
  }

  /** ge_scalarmult */
  function Mul<P(!new)>(cv: Curve<P>, n: nat, x: P): P
  {
    if n == 0 then cv.zero else cv.add(x, Mul(cv, n - 1, x))
  }

  // ----- the laws, one instance at a time -----

  lemma Assoc<P(!new)>(cv: Curve<P>, x: P, y: P, z: P)
    requires GroupLaws(cv)
    ensures cv.add(cv.add(x, y), z) == cv.add(x, cv.add(y, z))
  {
  }

  lemma Comm<P(!new)>(cv: Curve<P>, x: P, y: P)
    requires GroupLaws(cv)
    ensures cv.add(x, y) == cv.add(y, x)
  {
  }

  lemma Zero<P(!new)>(cv: Curve<P>, x: P)
    requires GroupLaws(cv)
    ensures cv.add(x, cv.zero) == x && cv.add(cv.zero, x) == x
  {
    Comm(cv, x, cv.zero);
  }

  lemma Cancel<P(!new)>(cv: Curve<P>, x: P, y: P, z: P)
    requires GroupLaws(cv) && cv.add(x, y) == cv.add(x, z)
    ensures y == z
  {
    hide GroupLaws;
    var n := cv.neg(x);
    Inverse(cv, x);
    Assoc(cv, n, x, y);
    Assoc(cv, n, x, z);
    Zero(cv, y);
    Zero(cv, z);
  }

  lemma Inverse<P(!new)>(cv: Curve<P>, x: P)
    requires GroupLaws(cv)
    ensures cv.add(x, cv.neg(x)) == cv.zero && cv.add(cv.neg(x), x) == cv.zero
  {
    Comm(cv, x, cv.neg(x));
  }

  lemma Exchange<P(!new)>(cv: Curve<P>, a: P, b: P, c: P, d: P)
    requires GroupLaws(cv)
    ensures cv.add(cv.add(a, b), cv.add(c, d)) == cv.add(cv.add(a, c), cv.add(b, d))
  {
    hide GroupLaws;
    Assoc(cv, a, b, cv.add(c, d));
    Assoc(cv, b, c, d);
    Comm(cv, b, c);
    Assoc(cv, c, b, d);
    Assoc(cv, a, c, cv.add(b, d));
  }

  // ----- multiples -----

  lemma {:induction false} MulAdd<P(!new)>(cv: Curve<P>, m: nat, n: nat, x: P)
    requires GroupLaws(cv)
    ensures Mul(cv, m + n, x) == cv.add(Mul(cv, m, x), Mul(cv, n, x))
  {
    hide GroupLaws;
    if m == 0 {
      Zero(cv, Mul(cv, n, x));
    } else {
      MulAdd(cv, m - 1, n, x);
      Assoc(cv, x, Mul(cv, m - 1, x), Mul(cv, n, x));
    }
  }

  lemma {:induction false} MulMul<P(!new)>(cv: Curve<P>, m: nat, n: nat, x: P)
    requires GroupLaws(cv)
    ensures Mul(cv, m * n, x) == Mul(cv, m, Mul(cv, n, x))
  {
    hide GroupLaws;
    if m == 0 {
    } else {
      MulMul(cv, m - 1, n, x);
      assert m * n == n + (m - 1) * n;
      MulMonotone(0, m - 1, n);
      MulAdd(cv, n, (m - 1) * n, x);
    }
  }

  lemma MulCommute<P(!new)>(cv: Curve<P>, m: nat, n: nat, x: P)
    requires GroupLaws(cv)
    ensures Mul(cv, m, Mul(cv, n, x)) == Mul(cv, n, Mul(cv, m, x))
  {
    hide GroupLaws, Mul;
    MulMul(cv, m, n, x);
    MulMul(cv, n, m, x);
    assert m * n == n * m;
  }

  lemma {:induction false} MulZero<P(!new)>(cv: Curve<P>, n: nat)
    requires GroupLaws(cv)
    ensures Mul(cv, n, cv.zero) == cv.zero
  {
    hide GroupLaws;
    if n == 0 {
    } else {
      MulZero(cv, n - 1);
      Zero(cv, cv.zero);
    }
  }

  lemma {:induction false} MulSum<P(!new)>(cv: Curve<P>, n: nat, x: P, y: P)
    requires GroupLaws(cv)
    ensures Mul(cv, n, cv.add(x, y)) == cv.add(Mul(cv, n, x), Mul(cv, n, y))
  {
    hide GroupLaws;
    if n == 0 {
      Zero(cv, cv.zero);
    } else {
      MulSum(cv, n - 1, x, y);
      Exchange(cv, x, y, Mul(cv, n - 1, x), Mul(cv, n - 1, y));
    }
  }

  lemma MulOne<P(!new)>(cv: Curve<P>, x: P)
    requires GroupLaws(cv)
    ensures Mul(cv, 1, x) == x
  {
    Zero(cv, x);
  }

  /** Multiples of a point of order q depend on the scalar modulo q. */
  lemma MulMod<P(!new)>(cv: Curve<P>, n: nat, q: nat, x: P)
    requires GroupLaws(cv) && q > 0 && Mul(cv, q, x) == cv.zero
    ensures Mul(cv, n % q, x) == Mul(cv, n, x)
  {
    hide GroupLaws, Mul;
    var k := n / q;
    assert n == k * q + n % q;
    MulMonotone(0, k, q);
    MulAdd(cv, k * q, n % q, x);
    MulMul(cv, k, q, x);
    MulZero(cv, k);
    Zero(cv, Mul(cv, n % q, x));
  }

  lemma MulCongruent<P(!new)>(cv: Curve<P>, m: nat, n: nat, q: nat, x: P)
    requires GroupLaws(cv) && q > 0 && Mul(cv, q, x) == cv.zero && m % q == n % q
    ensures Mul(cv, m, x) == Mul(cv, n, x)
  {
    hide GroupLaws, Mul;
    MulMod(cv, m, q, x);
    MulMod(cv, n, q, x);
  }

  // ----- inverses modulo a prime -----

  /** The inverse of d modulo q, by the remainders of q. */
  ghost function InverseMod(d: nat, q: nat): (u: nat)
    requires Prime(q) && 0 < d < q
    decreases d
  {
    if d == 1 then 1
    else
      QuotientSmaller(q, d);
      Times(q - q / d, InverseMod(q % d, q))
  }

  function Times(m: nat, n: nat): nat
  {
    m * n
  }

  lemma QuotientSmaller(q: nat, d: nat)
    requires 1 < d < q
    ensures 0 <= q / d < q && q == (q / d) * d + q % d
  {
    var k := q / d;
    if q <= k { MulMonotone(q, k, d); MulMonotone(2, d, q); }
  }

  lemma {:induction false} InverseModCorrect(d: nat, q: nat)
    requires Prime(q) && 0 < d < q
    ensures (InverseMod(d, q) * d) % q == 1
    decreases d
  {
    if d == 1 {
      DivModUnique(0, q, 1);
    } else {
      QuotientSmaller(q, d);
      InverseModCorrect(q % d, q);
      InverseStep(d, q, q / d, q % d, InverseMod(q % d, q));
    }
  }

  lemma InverseStep(d: nat, q: nat, k: nat, r: nat, v: nat)
    requires 1 < d < q && q == k * d + r && (v * r) % q == 1 && k < q
    ensures ((q - k) * v * d) % q == 1
  {
    InverseAlgebra(d, q, k, r, v);
    MulMonotone(0, v, r);
    ModShift(v * d - v, q, v * r);
  }

  lemma InverseAlgebra(d: int, q: int, k: int, r: int, v: int)
    requires q == k * d + r
    ensures (q - k) * v * d == q * (v * d - v) + v * r
  {
    var w := v * d;
    assert (q - k) * v * d == (q - k) * w == q * w - k * w;
    assert k * w == v * (k * d) == v * (q - r) == v * q - v * r;
  }

  // ----- the order of the base point -----

  /** No smaller multiple of the base point than the q-th is zero. */
  lemma BaseOrder<P(!new)>(cv: Curve<P>, d: nat)
    requires Valid(cv) && 0 < d < cv.order
    ensures Mul(cv, d, cv.base) != cv.zero
  {
    hide Mul, GroupLaws, InverseMod;
    if Mul(cv, d, cv.base) == cv.zero {
      var u := InverseMod(d, cv.order);
      InverseModCorrect(d, cv.order);
      MulZero(cv, u);
      MulOne(cv, cv.base);
      MulMul(cv, u, d, cv.base);
      MulMod(cv, u * d, cv.order, cv.base);
    }
  }

  /** Equal multiples of the base point have equal scalars modulo q. */
  lemma ScalarUnique<P(!new)>(cv: Curve<P>, m: nat, n: nat)
    requires Valid(cv) && Mul(cv, m, cv.base) == Mul(cv, n, cv.base)
    ensures m % cv.order == n % cv.order
  {
    hide Mul, GroupLaws;
    var q := cv.order;
    MulMod(cv, m, q, cv.base);
    MulMod(cv, n, q, cv.base);
    if m % q < n % q {
      ScalarsOrdered(cv, m % q, n % q);
    } else if n % q < m % q {
      ScalarsOrdered(cv, n % q, m % q);
    }
  }

  lemma ScalarsOrdered<P(!new)>(cv: Curve<P>, m: nat, n: nat)
    requires Valid(cv) && m < n < cv.order
    ensures Mul(cv, m, cv.base) != Mul(cv, n, cv.base)
  {
    hide Mul, GroupLaws;
    BaseOrder(cv, n - m);
    MulAdd(cv, m, n - m, cv.base);
    Zero(cv, Mul(cv, m, cv.base));
    if Mul(cv, m, cv.base) == Mul(cv, n, cv.base) {
      Cancel(cv, Mul(cv, m, cv.base), Mul(cv, n - m, cv.base), cv.zero);
    }
  }

  // ----- the part of order eight -----

  /** Eight has an inverse modulo an odd prime. */
  lemma EightInverts(q: nat) returns (u: nat, m: nat)
    requires Prime(q) && q > 2
    ensures u * 8 == m * q + 1
  {
    hide InverseMod;
    var r := 8 % q;
    EightIsNot(q);
    u := InverseMod(r, q);
    InverseModCorrect(r, q);
    var n, k := 8 / q, (u * r) / q;
    assert 8 == n * q + r && u * r == k * q + 1;
    assert u * 8 == u * (n * q) + u * r == (u * n) * q + u * r;
    m := u * n + k;
    assert m * q == (u * n) * q + k * q;
  }

  lemma EightIsNot(q: nat)
    requires Prime(q) && q > 2
    ensures 0 < 8 % q
  {
    if q <= 8 {
      assert q > 2 ==> q % 2 != 0;
      assert q == 3 || q == 5 || q == 7;
    }
  }

  /** A point is determined by its multiples by eight and by q. */
  lemma SamePoint<P(!new)>(cv: Curve<P>, x: P, y: P)
    requires Valid(cv) && cv.order > 2
    ensures x == y <==> Mul(cv, 8, x) == Mul(cv, 8, y) && Mul(cv, cv.order, x) == Mul(cv, cv.order, y)
  {
    hide Mul, GroupLaws;
    if Mul(cv, 8, x) == Mul(cv, 8, y) && Mul(cv, cv.order, x) == Mul(cv, cv.order, y) {
      var u, m := EightInverts(cv.order);
      Recombined(cv, x, u, m);
      Recombined(cv, y, u, m);
      Cancel(cv, Mul(cv, m, Mul(cv, cv.order, x)), x, y);
    }
  }

  lemma Recombined<P(!new)>(cv: Curve<P>, x: P, u: nat, m: nat)
    requires GroupLaws(cv) && u * 8 == m * cv.order + 1
    ensures Mul(cv, u, Mul(cv, 8, x)) == cv.add(Mul(cv, m, Mul(cv, cv.order, x)), x)
  {
    hide Mul, GroupLaws;
    MulMul(cv, u, 8, x);
    MulMul(cv, m, cv.order, x);
    MulAdd(cv, m * cv.order, 1, x);
    MulOne(cv, x);
  }

  // ----- the laws have a model -----

  type Six = x: int | 0 <= x < 6

  function AddSix(x: Six, y: Six): Six
  {
    if x + y < 6 then x + y else x + y - 6
  }

  function NegSix(x: Six): Six
  {
    if x == 0 then 0 else 6 - x
  }

  function EncodeSix(x: Six): seq<byte>
  {
    [x] + Zeros(31)
  }

  function DecodeSix(s: seq<byte>): Option<Six>
  {
    if |s| == POINT_SIZE && s[1..] == Zeros(31) && s[0] < 6 then Some(s[0]) else None
  }

  /** Six points under addition: the base 2 has order three, and 3 is a point outside its multiples. */
  ghost function SixPoints(): Curve<Six>
  {
    Curve(0, AddSix, NegSix, 2, 3, EncodeSix, DecodeSix,
          (s: seq<byte>) => if s == [] then 0 else s[0], (s: seq<byte>) => 1)
  }

  lemma SixAssociates(x: Six, y: Six, z: Six)
    ensures AddSix(AddSix(x, y), z) == AddSix(x, AddSix(y, z))
  {
  }

  lemma SixAssociative()
    ensures Associative(SixPoints())
  {
    hide AddSix;
    forall x: Six, y: Six, z: Six ensures AddSix(AddSix(x, y), z) == AddSix(x, AddSix(y, z)) {
      SixAssociates(x, y, z);
    }
  }

  lemma SixCommutative()
    ensures Commutative(SixPoints())
  {
  }

  lemma SixGroup()
    ensures GroupLaws(SixPoints())
  {
    hide Associative, Commutative;
    SixAssociative();
    SixCommutative();
  }

  lemma {:induction false} SixMul(n: nat, x: Six)
    ensures Mul(SixPoints(), n, x) == (n * x) % 6
  {
    if n == 0 {
    } else {
      SixMul(n - 1, x);
      assert n * x == x + (n - 1) * x;
      SixSum(x, (n - 1) * x);
    }
  }

  lemma SixSum(x: Six, y: nat)
    ensures AddSix(x, y % 6) == (x + y) % 6
  {
  }

  lemma SixEncoding()
    ensures EncodingLaws(SixPoints())
  {
    var cv := SixPoints();
    forall x: Six ensures DecodeSix(EncodeSix(x)) == Some(x) {
      assert EncodeSix(x)[1..] == Zeros(31);
    }
    forall s | cv.decode(s).Some? ensures cv.encode(cv.decode(s).value) == s {
      assert s == [s[0]] + s[1..];
    }
  }

  lemma LawsHaveAModel()
    ensures Valid(SixPoints())
  {
    hide GroupLaws, Mul, EncodingLaws;
    SixGroup();
    SixEncoding();
    var cv := SixPoints();
    SixMul(3, 2);
    forall x: Six ensures Mul(cv, 8 * cv.order, x) == cv.zero {
      SixMul(24, x);
      SixSum(0, 24 * x);
    }
  }

  /** No multiple of the base is odd. */
  lemma BaseIsEven(e: nat)
    ensures var p := Mul(SixPoints(), e, 2); p == 0 || p == 2 || p == 4
  {
    SixMul(e, 2);
  }
}
