/** One-time output keys of src/crypto/crypto.cpp: what sender and receiver derive from each other's keys. */
module OneTimeKeys {
  import opened Words
  import opened Curve
  import RingSignature
  import Varint

  /** sizeof(size_t) * 8 bits in groups of seven: the room left for the output index. */
  const INDEX_ROOM: nat := 10
  const DERIVATION_SIZE: nat := 32

  /** The bytes hashed for an output: the derivation followed by the output index. */
  function HashInput(derivation: seq<byte>, index: nat): seq<byte>
  {
    derivation + Varint.Encode(index)
  }

  function DerivationToScalar<P(!new)>(cv: Curve<P>, derivation: seq<byte>, index: nat): nat
    requires cv.order > 0
  {
    RingSignature.HashToScalar(cv, HashInput(derivation, index))
  }

  function PublicKey<P(!new)>(cv: Curve<P>, sec: nat): seq<byte>
  {
    cv.encode(Mul(cv, sec, cv.base))
  }

  /** generate_key_derivation; None where the key is not a point */
  function KeyDerivation<P(!new)>(cv: Curve<P>, pub: seq<byte>, sec: nat): Option<seq<byte>>
  {
    match cv.decode(pub)
    case None => None
    case Some(x) => Some(cv.encode(Mul(cv, 8, Mul(cv, sec, x))))
  }

  function DerivePublicKey<P(!new)>(cv: Curve<P>, derivation: seq<byte>, index: nat, base: seq<byte>): Option<seq<byte>>
    requires cv.order > 0
  {
    match cv.decode(base)
    case None => None
    case Some(x) =>
      Some(cv.encode(cv.add(x, Mul(cv, DerivationToScalar(cv, derivation, index), cv.base))))
  }

  function DeriveSecretKey<P(!new)>(cv: Curve<P>, derivation: seq<byte>, index: nat, base: nat): nat
    requires cv.order > 0
  {
    (base + DerivationToScalar(cv, derivation, index)) % cv.order
  }

  function UnderivePublicKey<P(!new)>(cv: Curve<P>, derivation: seq<byte>, index: nat, derived: seq<byte>)
    : Option<seq<byte>>
    requires cv.order > 0
  {
    match cv.decode(derived)
    case None => None
    case Some(x) =>
      Some(cv.encode(cv.add(x, cv.neg(Mul(cv, DerivationToScalar(cv, derivation, index), cv.base)))))
  }

  /** Sender (r, A = aG) and receiver (a, R = rG) compute the same derivation, 8 a r G. */
  lemma SameDerivation<P(!new)>(cv: Curve<P>, a: nat, r: nat)
    requires Valid(cv)
    ensures KeyDerivation(cv, PublicKey(cv, a), r) == KeyDerivation(cv, PublicKey(cv, r), a)
    ensures KeyDerivation(cv, PublicKey(cv, a), r) == Some(cv.encode(Mul(cv, 8, Mul(cv, a, Mul(cv, r, cv.base)))))
  {
    hide Mul, GroupLaws;
    MulCommute(cv, a, r, cv.base);
  }

  /** The derived secret key belongs to the derived public key. */
  lemma DerivedKeysMatch<P(!new)>(cv: Curve<P>, derivation: seq<byte>, index: nat, b: nat)
    requires Valid(cv)
    ensures DerivePublicKey(cv, derivation, index, PublicKey(cv, b))
            == Some(PublicKey(cv, DeriveSecretKey(cv, derivation, index, b)))
  {
    hide Mul, GroupLaws, DerivationToScalar;
    var s := DerivationToScalar(cv, derivation, index);
    MulAdd(cv, b, s, cv.base);
    MulMod(cv, b + s, cv.order, cv.base);
  }

  lemma UnderiveDerive<P(!new)>(cv: Curve<P>, derivation: seq<byte>, index: nat, base: seq<byte>)
    requires Valid(cv) && cv.decode(base).Some?
    ensures var derived := DerivePublicKey(cv, derivation, index, base).value;
      UnderivePublicKey(cv, derivation, index, derived) == Some(base)
  {
    hide Mul, GroupLaws, DerivationToScalar;
    var x, t := cv.decode(base).value, Mul(cv, DerivationToScalar(cv, derivation, index), cv.base);
    Assoc(cv, x, t, cv.neg(t));
    Inverse(cv, t);
    Zero(cv, x);
  }

  lemma DeriveUnderive<P(!new)>(cv: Curve<P>, derivation: seq<byte>, index: nat, derived: seq<byte>)
    requires Valid(cv) && cv.decode(derived).Some?
    ensures var base := UnderivePublicKey(cv, derivation, index, derived).value;
      DerivePublicKey(cv, derivation, index, base) == Some(derived)
  {
    hide Mul, GroupLaws, DerivationToScalar;
    var x, t := cv.decode(derived).value, Mul(cv, DerivationToScalar(cv, derivation, index), cv.base);
    Assoc(cv, x, cv.neg(t), t);
    Inverse(cv, t);
    Zero(cv, x);
  }

  /**
    An output key made for spend key B = bG recovers exactly B on the receiver's side, and any other
    canonical key the receiver might compare with is told apart.
   */
  lemma ReceiverRecognises<P(!new)>(cv: Curve<P>, a: nat, r: nat, index: nat, b: nat, other: P)
    requires Valid(cv)
    ensures
      var sent := KeyDerivation(cv, PublicKey(cv, a), r).value;
      var received := KeyDerivation(cv, PublicKey(cv, r), a).value;
      var output := DerivePublicKey(cv, sent, index, PublicKey(cv, b)).value;
      (UnderivePublicKey(cv, received, index, output) == Some(cv.encode(other)) <==> other == Mul(cv, b, cv.base)) &&
      output == PublicKey(cv, DeriveSecretKey(cv, received, index, b))
  {
    hide Mul, GroupLaws, DerivationToScalar, DerivePublicKey, UnderivePublicKey, DeriveSecretKey;
    SameDerivation(cv, a, r);
    var d := KeyDerivation(cv, PublicKey(cv, a), r).value;
    DerivedKeysMatch(cv, d, index, b);
    UnderiveDerive(cv, d, index, PublicKey(cv, b));
    assert cv.decode(cv.encode(other)) == Some(other);
  }

  /** The index always fits the fixed buffer. */
  lemma IndexFits(index: nat)
    requires index < Shl(1, 64)
    ensures |Varint.Encode(index)| <= INDEX_ROOM
  {
    Varint.EncodeLength(64, index);
  }

  /** Distinct outputs are hashed from distinct bytes. */
  lemma HashInputsDistinct(d: seq<byte>, i: nat, d': seq<byte>, i': nat)
    requires |d| == |d'| == DERIVATION_SIZE && HashInput(d, i) == HashInput(d', i')
    ensures d == d' && i == i'
  {
    hide Varint.Encode;
    var x, y := HashInput(d, i), HashInput(d', i');
    assert x[..DERIVATION_SIZE] == d && y[..DERIVATION_SIZE] == d';
    assert x[DERIVATION_SIZE..] == Varint.Encode(i) && y[DERIVATION_SIZE..] == Varint.Encode(i');
    assert Varint.Encode(i) + [] == Varint.Encode(i') + [];
    Varint.PrefixFree(i, i', [], []);
  }

  // ----- what is hashed for an output -----

  /** The bytes name the derivation and, as a complete varint behind it, the output index. */
  predicate Names(d: seq<byte>, index: nat, t: seq<byte>)
  {
    |d| < |t| && t[..|d|] == d && t[|t| - 1] < 128 &&
    Varint.Decode(64, t[|d|..], true) == Varint.Read(|t| - |d|, index)
  }

  /** There are such bytes for every 64-bit index, and only these. */
  lemma NamesOnce(d: seq<byte>, index: nat, t: seq<byte>)
    requires index < Shl(1, 64)
    ensures Names(d, index, t) <==> t == d + Varint.Encode(index)
  {
    hide Varint.Encode, Varint.Decode, Shl;
    var code := Varint.Encode(index);
    if t == d + code {
      Varint.DecodeEncode(64, index, [], true);
      assert code + [] == code && t[|d|..] == code;
    }
    if Names(d, index, t) {
      var s := t[|d|..];
      Varint.EncodeDecode(64, s, true, |s|, index);
      assert s[..|s|] == s && t == t[..|d|] + s;
    }
  }

  /** The scalar of an output is the hash of the bytes that name its derivation and its index. */
  lemma ScalarHashed<P(!new)>(cv: Curve<P>, d: seq<byte>, index: nat, t: seq<byte>)
    requires cv.order > 0 && index < Shl(1, 64) && Names(d, index, t)
    ensures DerivationToScalar(cv, d, index) == cv.hash(t) % cv.order
  {
    hide Names, Varint.Encode, Shl;
    NamesOnce(d, index, t);
  }

  /** The same bytes shift the public and the secret key of an output. */
  lemma KeysHashed<P(!new)>(cv: Curve<P>, d: seq<byte>, index: nat, t: seq<byte>, pub: seq<byte>, sec: nat)
    requires cv.order > 0 && index < Shl(1, 64) && Names(d, index, t)
    ensures var shift := cv.hash(t) % cv.order;
      DeriveSecretKey(cv, d, index, sec) == (sec + shift) % cv.order &&
      match cv.decode(pub)
      case None => DerivePublicKey(cv, d, index, pub) == UnderivePublicKey(cv, d, index, pub) == None
      case Some(x) =>
        DerivePublicKey(cv, d, index, pub) == Some(cv.encode(cv.add(x, Mul(cv, shift, cv.base)))) &&
        UnderivePublicKey(cv, d, index, pub) == Some(cv.encode(cv.add(x, cv.neg(Mul(cv, shift, cv.base)))))
  {
    hide DerivationToScalar, Mul, Names, Shl;
    ScalarHashed(cv, d, index, t);
  }

  /** Different outputs are hashed from different bytes. */
  lemma OutputsDistinct(d: seq<byte>, i: nat, d': seq<byte>, i': nat, t: seq<byte>)
    requires |d| == |d'| == DERIVATION_SIZE && i < Shl(1, 64) && i' < Shl(1, 64)
    requires Names(d, i, t) && Names(d', i', t)
    ensures d == d' && i == i'
  {
    hide Varint.Decode, Shl;
  }
}
