/** What the signature checks of src/crypto/crypto.cpp let through, as they do not clear the cofactor. */
module Cofactor {
  import opened Words
  import opened Curve
  import opened RingSignature

  /** A key of order two signs: two accepted signatures on one commitment, and no secret key behind them. */
  lemma TorsionKey()
    ensures
      var cv, pub, s, t := SixPoints(), EncodeSix(3), Signature(2, 0), Signature(0, 0);
      Valid(cv) && cv.decode(pub) == Some(3) &&
      SignatureVerdict(cv, [2], pub, s) == SignatureVerdict(cv, [0], pub, t) == Accept &&
      Combine(cv, s.c, 3, s.r, cv.base) == Combine(cv, t.c, 3, t.r, cv.base) == 0 &&
      Challenge(cv, [2], pub, 0) != Challenge(cv, [0], pub, 0) &&
      forall e: nat :: Mul(cv, e, cv.base) != 3
  {
    hide Valid, Mul;
    LawsHaveAModel();
    SixMul(2, 3);
    SixMul(0, 3);
    SixMul(0, 2);
    forall e: nat ensures Mul(SixPoints(), e, 2) != 3 { BaseIsEven(e); }
  }

  /** One member with key 2 signs for two messages, under a given image. */
  function ForkOf(image: Six): Fork
  {
    Fork([2], [0], EncodeSix(image), [EncodeSix(2)], [Signature(2, 0)], [Signature(0, 2)])
  }

  lemma KeyHash()
    ensures HashToPoint(SixPoints(), EncodeSix(2)) == 2
  {
    hide Mul;
    SixMul(8, 1);
  }

  lemma OpenedFork(image: Six)
    requires image == 2 || image == 5
    ensures var cv, f := SixPoints(), ForkOf(image);
      Decodable(cv, f.pubs) &&
      OpenedAll(cv, f.pubs, image, f.a) == OpenedAll(cv, f.pubs, image, f.b) == [Commitment(4, 4)]
  {
    hide Mul, HashToPoint;
    KeyHash();
    SixMul(2, 2);
    SixMul(0, 2);
    SixMul(2, image);
    SixMul(0, image);
  }

  lemma ForkAccepted(image: Six)
    requires image == 2 || image == 5
    ensures Forked(SixPoints(), ForkOf(image))
  {
    hide OpenedAll, Bytes, RingVerdict;
    var cv, f := SixPoints(), ForkOf(image);
    OpenedFork(image);
    assert f.a[..0] == [] && f.b[..0] == [] && SumC(f.a) == 2 && SumC(f.b) == 0;
    RingAccepts(cv, f.prefix, f.image, f.pubs, f.a);
    RingAccepts(cv, f.prefix', f.image, f.pubs, f.b);
  }

  /**
    One prime-order key signs under two images: the honest one, and one that is off by a point of order two and is
    no multiple of the hashed key at all.  Their parts of order eight differ.
   */
  lemma TwoImages()
    ensures
      var cv, honest, other := SixPoints(), ForkOf(2), ForkOf(5);
      Valid(cv) && Forked(cv, honest) && Forked(cv, other) &&
      honest.pubs == other.pubs && honest.a == other.a && honest.b == other.b && honest.image != other.image &&
      PrimeOrder(cv, 2) && Mul(cv, cv.order, 5) == 3 &&
      forall x: nat :: Mul(cv, x, HashToPoint(cv, EncodeSix(2))) != 5
  {
    hide Valid, Mul, Forked, HashToPoint;
    LawsHaveAModel();
    ForkAccepted(2);
    ForkAccepted(5);
    KeyHash();
    assert EncodeSix(2)[0] == 2 && EncodeSix(5)[0] == 5;
    SixMul(3, 2);
    SixMul(3, 5);
    forall x: nat ensures Mul(SixPoints(), x, 2) != 5 { BaseIsEven(x); }
  }
}
