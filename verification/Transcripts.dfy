/** What src/crypto/crypto.cpp hashes for a signature, byte by byte, and which signatures that admits. */
module Transcripts {
  import opened Words
  import opened Curve
  import opened RingSignature

  // ----- one signer -----

  /** s_comm: the message, the key and the commitment, one behind the other. */
  predicate LaysOne<P(!new)>(cv: Curve<P>, prefix: seq<byte>, pub: seq<byte>, commitment: P, t: seq<byte>)
  {
    |t| == |prefix| + |pub| + |cv.encode(commitment)| &&
    t[..|prefix|] == prefix &&
    t[|prefix|..|prefix| + |pub|] == pub &&
    t[|prefix| + |pub|..] == cv.encode(commitment)
  }

  /** The challenge is the hash of exactly those bytes. */
  lemma ChallengeHashed<P(!new)>(cv: Curve<P>, prefix: seq<byte>, pub: seq<byte>, commitment: P, t: seq<byte>)
    requires cv.order > 0 && LaysOne(cv, prefix, pub, commitment, t)
    ensures Challenge(cv, prefix, pub, commitment) == cv.hash(t) % cv.order
  {
    assert t == prefix + pub + cv.encode(commitment);
  }

  lemma OneLaid<P(!new)>(cv: Curve<P>, prefix: seq<byte>, pub: seq<byte>, commitment: P)
    ensures LaysOne(cv, prefix, pub, commitment, prefix + pub + cv.encode(commitment))
  {
  }

  /** Messages, keys and commitments of one length are told apart by their bytes. */
  lemma OneInjective<P(!new)>(cv: Curve<P>, prefix: seq<byte>, pub: seq<byte>, x: P,
                              prefix': seq<byte>, pub': seq<byte>, x': P, t: seq<byte>)
    requires Valid(cv) && |prefix| == |prefix'| && |pub| == |pub'|
    requires LaysOne(cv, prefix, pub, x, t) && LaysOne(cv, prefix', pub', x', t)
    ensures prefix == prefix' && pub == pub' && x == x'
  {
    hide GroupLaws, OrderLaws;
    assert cv.decode(cv.encode(x)) == Some(x) && cv.decode(cv.encode(x')) == Some(x');
  }

  /** A signature is accepted if and only if its challenge is the hash of what it opens to. */
  lemma SignatureAccepts<P(!new)>(cv: Curve<P>, prefix: seq<byte>, pub: seq<byte>, sig: Signature)
    requires cv.order > 0
    ensures SignatureVerdict(cv, prefix, pub, sig) == Abort <==> cv.decode(pub).None?
    ensures SignatureVerdict(cv, prefix, pub, sig) == Accept <==>
            cv.decode(pub).Some? && Canonical(cv, sig) &&
            var comm := Combine(cv, sig.c, cv.decode(pub).value, sig.r, cv.base);
            exists t :: LaysOne(cv, prefix, pub, comm, t) && cv.hash(t) % cv.order == sig.c
  {
    hide Combine, Challenge, LaysOne;
    if cv.decode(pub).Some? && Canonical(cv, sig) {
      var comm := Combine(cv, sig.c, cv.decode(pub).value, sig.r, cv.base);
      var t := prefix + pub + cv.encode(comm);
      OneLaid(cv, prefix, pub, comm);
      ChallengeHashed(cv, prefix, pub, comm, t);
      CanonicalResidue(Challenge(cv, prefix, pub, comm), sig.c, cv.order);
      forall u | LaysOne(cv, prefix, pub, comm, u) ensures cv.hash(u) % cv.order == Challenge(cv, prefix, pub, comm) {
        ChallengeHashed(cv, prefix, pub, comm, u);
      }
    }
  }

  lemma CanonicalResidue(h: nat, c: nat, q: nat)
    requires q > 0 && h < q && c < q
    ensures (h - c) % q == 0 <==> h == c
  {
    DivModUnique(0, q, c);
    SameResidue(h, c, q);
  }

  /** The signatures accepted under a key are exactly those that its owner can make. */
  lemma SignatureRange<P(!new)>(cv: Curve<P>, prefix: seq<byte>, sec: nat, sig: Signature)
    requires Valid(cv)
    ensures var pub := cv.encode(Mul(cv, sec, cv.base));
      SignatureVerdict(cv, prefix, pub, sig) == Accept <==> exists k :: sig == Signed(cv, prefix, pub, sec, k)
  {
    hide GroupLaws, Mul, Signed, SignatureVerdict;
    var pub := cv.encode(Mul(cv, sec, cv.base));
    if SignatureVerdict(cv, prefix, pub, sig) == Accept {
      SignatureExplained(cv, prefix, sec, sig);
    }
    forall k | sig == Signed(cv, prefix, pub, sec, k) ensures SignatureVerdict(cv, prefix, pub, sig) == Accept {
      SignatureComplete(cv, prefix, sec, k);
    }
  }

  /** The random scalar that leads to a given signature. */
  function NonceOf(sig: Signature, sec: nat): nat
  {
    sig.c * sec + sig.r
  }

  lemma NonceExplains(sig: Signature, sec: nat, q: nat)
    requires q > 0 && sig.r < q
    ensures MulSub(sig.c, sec, NonceOf(sig, sec) % q, q) == sig.r
  {
    hide MulSub;
    SignerExplained(sig.c, sig.r, sec, q);
  }

  lemma SignatureExplained<P(!new)>(cv: Curve<P>, prefix: seq<byte>, sec: nat, sig: Signature)
    requires Valid(cv)
    requires SignatureVerdict(cv, prefix, cv.encode(Mul(cv, sec, cv.base)), sig) == Accept
    ensures sig == Signed(cv, prefix, cv.encode(Mul(cv, sec, cv.base)), sec, NonceOf(sig, sec))
  {
    hide GroupLaws, Mul, MulSub, Combine, Challenge, NonceOf;
    var q, pub := cv.order, cv.encode(Mul(cv, sec, cv.base));
    assert cv.decode(pub) == Some(Mul(cv, sec, cv.base));
    var x := Mul(cv, NonceOf(sig, sec) % q, cv.base);
    NonceExplains(sig, sec, q);
    Opens(cv, sig.c, sec, NonceOf(sig, sec) % q, cv.base);
    ChallengeBelow(cv, prefix, pub, x);
    CanonicalResidue(Challenge(cv, prefix, pub, x), sig.c, q);
  }

  lemma ChallengeBelow<P(!new)>(cv: Curve<P>, prefix: seq<byte>, pub: seq<byte>, x: P)
    requires cv.order > 0
    ensures Challenge(cv, prefix, pub, x) < cv.order
  {
  }

  // ----- a ring of signers -----

  predicate PairAt<P(!new)>(cv: Curve<P>, t: seq<byte>, at: nat, c: Commitment<P>)
  {
    at + 2 * POINT_SIZE <= |t| &&
    t[at..at + POINT_SIZE] == cv.encode(c.a) && t[at + POINT_SIZE..at + 2 * POINT_SIZE] == cv.encode(c.b)
  }

  /** rs_comm: the message and the pairs of commitments, in the order of the ring. */
  predicate Lays<P(!new)>(cv: Curve<P>, prefix: seq<byte>, comms: seq<Commitment<P>>, t: seq<byte>)
  {
    |t| == |prefix| + 2 * POINT_SIZE * |comms| && t[..|prefix|] == prefix &&
    forall i :: 0 <= i < |comms| ==> PairAt(cv, t, |prefix| + 2 * POINT_SIZE * i, comms[i])
  }

  lemma LaysMore<P(!new)>(cv: Curve<P>, prefix: seq<byte>, comms: seq<Commitment<P>>, c: Commitment<P>, s: seq<byte>)
    requires EncodingLaws(cv) && Lays(cv, prefix, comms, s)
    ensures Lays(cv, prefix, comms + [c], s + (cv.encode(c.a) + cv.encode(c.b)))
  {
    hide PairAt;
    var more := cv.encode(c.a) + cv.encode(c.b);
    forall i | 0 <= i < |comms| ensures PairAt(cv, s + more, |prefix| + 2 * POINT_SIZE * i, (comms + [c])[i]) {
      PairStays(cv, s, |prefix| + 2 * POINT_SIZE * i, comms[i], more);
    }
    PairBehind(cv, s, c);
    assert (s + more)[..|prefix|] == prefix;
  }

  lemma PairBehind<P(!new)>(cv: Curve<P>, s: seq<byte>, c: Commitment<P>)
    requires EncodingLaws(cv)
    ensures PairAt(cv, s + (cv.encode(c.a) + cv.encode(c.b)), |s|, c)
  {
  }

  lemma {:induction false} RingLaid<P(!new)>(cv: Curve<P>, prefix: seq<byte>, comms: seq<Commitment<P>>)
    requires Valid(cv)
    ensures Lays(cv, prefix, comms, prefix + Bytes(cv, comms))
  {
    hide GroupLaws, OrderLaws, EncodingLaws;
    if comms == [] {
      assert prefix + [] == prefix;
    } else {
      var n := |comms| - 1;
      RingLaid(cv, prefix, comms[..n]);
      hide Lays;
      LaysMore(cv, prefix, comms[..n], comms[n], prefix + Bytes(cv, comms[..n]));
      assert comms[..n] + [comms[n]] == comms;
      AppendCommitment(cv, prefix, comms[..n], comms[n]);
      var a, b := cv.encode(comms[n].a), cv.encode(comms[n].b);
      assert prefix + Bytes(cv, comms[..n]) + (a + b) == prefix + Bytes(cv, comms[..n]) + a + b;
    }
  }

  lemma PairStays<P(!new)>(cv: Curve<P>, s: seq<byte>, at: nat, c: Commitment<P>, more: seq<byte>)
    requires PairAt(cv, s, at, c)
    ensures PairAt(cv, s + more, at, c)
  {
    assert (s + more)[at..at + POINT_SIZE] == s[at..at + POINT_SIZE];
    assert (s + more)[at + POINT_SIZE..at + 2 * POINT_SIZE] == s[at + POINT_SIZE..at + 2 * POINT_SIZE];
  }

  lemma LaysLess<P(!new)>(cv: Curve<P>, prefix: seq<byte>, comms: seq<Commitment<P>>, t: seq<byte>)
    requires Lays(cv, prefix, comms, t) && comms != []
    ensures var n := |comms| - 1;
      var at := |prefix| + 2 * POINT_SIZE * n;
      at <= |t| && Lays(cv, prefix, comms[..n], t[..at]) &&
      t[at..] == cv.encode(comms[n].a) + cv.encode(comms[n].b)
  {
    var n := |comms| - 1;
    var at := |prefix| + 2 * POINT_SIZE * n;
    PairEnds(cv, t, at, comms[n]);
    hide PairAt;
    forall i | 0 <= i < n ensures PairAt(cv, t[..at], |prefix| + 2 * POINT_SIZE * i, comms[..n][i]) {
      PairCut(cv, t, |prefix| + 2 * POINT_SIZE * i, comms[i], at);
    }
    assert t[..at][..|prefix|] == t[..|prefix|];
  }

  lemma PairEnds<P(!new)>(cv: Curve<P>, t: seq<byte>, at: nat, c: Commitment<P>)
    requires PairAt(cv, t, at, c) && |t| == at + 2 * POINT_SIZE
    ensures t[at..] == cv.encode(c.a) + cv.encode(c.b)
  {
    assert t[at..] == t[at..at + POINT_SIZE] + t[at + POINT_SIZE..at + 2 * POINT_SIZE];
  }

  lemma LaysNone<P(!new)>(cv: Curve<P>, prefix: seq<byte>, t: seq<byte>)
    requires Lays(cv, prefix, [], t)
    ensures t == prefix
  {
    assert t == t[..|prefix|];
  }

  /** The bytes are determined by the message and the commitments. */
  lemma {:induction false} RingUnique<P(!new)>(cv: Curve<P>, prefix: seq<byte>, comms: seq<Commitment<P>>, t: seq<byte>)
    requires Lays(cv, prefix, comms, t)
    ensures t == prefix + Bytes(cv, comms)
    decreases |comms|
  {
    hide Lays, Bytes;
    if comms == [] {
      LaysNone(cv, prefix, t);
      BytesUnfold(cv, comms);
      assert prefix + [] == prefix;
    } else {
      var n := |comms| - 1;
      var at := |prefix| + 2 * POINT_SIZE * n;
      LaysLess(cv, prefix, comms, t);
      RingUnique(cv, prefix, comms[..n], t[..at]);
      AppendCommitment(cv, prefix, comms[..n], comms[n]);
      assert comms[..n] + [comms[n]] == comms;
      var s, a, b := t[..at], cv.encode(comms[n].a), cv.encode(comms[n].b);
      assert t == s + t[at..] == s + (a + b) == s + a + b;
    }
  }

  lemma PairCut<P(!new)>(cv: Curve<P>, t: seq<byte>, at: nat, c: Commitment<P>, end: nat)
    requires PairAt(cv, t, at, c) && at + 2 * POINT_SIZE <= end <= |t|
    ensures PairAt(cv, t[..end], at, c)
  {
    assert t[..end][at..at + POINT_SIZE] == t[at..at + POINT_SIZE];
    assert t[..end][at + POINT_SIZE..at + 2 * POINT_SIZE] == t[at + POINT_SIZE..at + 2 * POINT_SIZE];
  }

  /** The scalar of a transcript is the hash of exactly its bytes. */
  lemma RingHashed<P(!new)>(cv: Curve<P>, prefix: seq<byte>, comms: seq<Commitment<P>>, t: seq<byte>)
    requires cv.order > 0 && Lays(cv, prefix, comms, t)
    ensures RingHash(cv, prefix, comms) == cv.hash(t) % cv.order
  {
    hide Lays, Bytes;
    RingUnique(cv, prefix, comms, t);
  }

  /** Messages of one length and transcripts are told apart by their bytes. */
  lemma RingInjective<P(!new)>(cv: Curve<P>, prefix: seq<byte>, comms: seq<Commitment<P>>,
                               prefix': seq<byte>, comms': seq<Commitment<P>>, t: seq<byte>)
    requires Valid(cv) && |prefix| == |prefix'| && Lays(cv, prefix, comms, t) && Lays(cv, prefix', comms', t)
    ensures prefix == prefix' && comms == comms'
  {
    hide GroupLaws, OrderLaws;
    forall i | 0 <= i < |comms| ensures comms[i] == comms'[i] {
      assert PairAt(cv, t, |prefix| + 2 * POINT_SIZE * i, comms[i]);
      assert PairAt(cv, t, |prefix'| + 2 * POINT_SIZE * i, comms'[i]);
      SameEncoding(cv, comms[i].a, comms'[i].a);
      SameEncoding(cv, comms[i].b, comms'[i].b);
    }
  }

  lemma SameEncoding<P(!new)>(cv: Curve<P>, x: P, y: P)
    requires EncodingLaws(cv) && cv.encode(x) == cv.encode(y)
    ensures x == y
  {
    assert cv.decode(cv.encode(x)) == Some(x) && cv.decode(cv.encode(y)) == Some(y);
  }

  /**
    A ring signature is accepted if and only if everything decodes, its scalars are reduced and its challenges sum to
    the hash of the message and of the commitments that it opens to.
   */
  lemma RingAcceptsHashed<P(!new)>(cv: Curve<P>, prefix: seq<byte>, image: seq<byte>,
                                   pubs: seq<seq<byte>>, sigs: seq<Signature>)
    requires Valid(cv) && |sigs| == |pubs|
    ensures RingVerdict(cv, prefix, image, pubs, sigs) == Accept <==>
            cv.decode(image).Some? && Decodable(cv, pubs) &&
            (forall j :: 0 <= j < |pubs| ==> Canonical(cv, sigs[j])) &&
            exists t :: Lays(cv, prefix, OpenedAll(cv, pubs, cv.decode(image).value, sigs), t) &&
                        cv.hash(t) % cv.order == SumC(sigs) % cv.order
  {
    hide GroupLaws, RingVerdict, OpenedAll, SumC, Canonical, Lays, RingHash, Bytes;
    RingAccepts(cv, prefix, image, pubs, sigs);
    if cv.decode(image).Some? && Decodable(cv, pubs) {
      var comms := OpenedAll(cv, pubs, cv.decode(image).value, sigs);
      RingLaid(cv, prefix, comms);
      forall t | Lays(cv, prefix, comms, t) ensures RingHash(cv, prefix, comms) == cv.hash(t) % cv.order {
        RingHashed(cv, prefix, comms, t);
      }
    }
  }

  /** Member i stops the verifier: nothing before it does, its scalars are in range and its key is no point. */
  predicate AbortsAt<P(!new)>(cv: Curve<P>, pubs: seq<seq<byte>>, sigs: seq<Signature>, i: nat)
    requires |sigs| == |pubs|
  {
    i < |pubs| && Canonical(cv, sigs[i]) && cv.decode(pubs[i]).None? &&
    forall j :: 0 <= j < i ==> Canonical(cv, sigs[j]) && cv.decode(pubs[j]).Some?
  }

  lemma {:induction false} ScanAborts<P(!new)>(cv: Curve<P>, pubs: seq<seq<byte>>, sigs: seq<Signature>, i: nat)
    requires i <= |pubs| == |sigs| && forall j :: 0 <= j < i ==> Canonical(cv, sigs[j]) && cv.decode(pubs[j]).Some?
    ensures Scan(cv, pubs, sigs, i) == Abort <==> exists k: nat :: AbortsAt(cv, pubs, sigs, k)
    decreases |pubs| - i
  {
    hide Canonical;
    if i == |pubs| {
    } else if Canonical(cv, sigs[i]) && cv.decode(pubs[i]).Some? {
      ScanAborts(cv, pubs, sigs, i + 1);
    } else if Canonical(cv, sigs[i]) {
      assert AbortsAt(cv, pubs, sigs, i);
    }
  }

  /** The verifier aborts, instead of rejecting, exactly at a member with scalars in range and no point for a key. */
  lemma RingAborts<P(!new)>(cv: Curve<P>, prefix: seq<byte>, image: seq<byte>, pubs: seq<seq<byte>>, sigs: seq<Signature>)
    requires cv.order > 0 && |sigs| == |pubs|
    ensures RingVerdict(cv, prefix, image, pubs, sigs) == Abort <==>
            cv.decode(image).Some? && exists k: nat :: AbortsAt(cv, pubs, sigs, k)
  {
    hide AbortsAt, RingHash, OpenedAll, SumC;
    ScanAborts(cv, pubs, sigs, 0);
  }

  /** A key is hashed to a point of the curve and that is doubled three times. */
  lemma KeyHashed<P(!new)>(cv: Curve<P>, key: seq<byte>)
    requires GroupLaws(cv)
    ensures var p := cv.toPoint(key);
      var p2 := cv.add(p, p);
      var p4 := cv.add(p2, p2);
      HashToPoint(cv, key) == cv.add(p4, p4)
  {
    hide GroupLaws, Mul;
    var p := cv.toPoint(key);
    MulAdd(cv, 4, 4, p);
    MulAdd(cv, 2, 2, p);
    MulAdd(cv, 1, 1, p);
    MulOne(cv, p);
  }
}
