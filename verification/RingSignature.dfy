/** Schnorr and ring signatures of src/crypto/crypto.cpp over an abstract curve. */
module RingSignature {
  import opened Words
  import opened Curve

  /** Scalars as the numbers their 32 bytes spell; sc_check accepts those below the group order. */
  datatype Signature = Signature(c: nat, r: nat)

  datatype Verdict = Accept | Reject | Abort

  predicate Canonical<P(!new)>(cv: Curve<P>, s: Signature)
  {
    s.c < cv.order && s.r < cv.order
  }

  function HashToScalar<P(!new)>(cv: Curve<P>, data: seq<byte>): nat
    requires cv.order > 0
  {
    cv.hash(data) % cv.order
  }

  /** hash_to_ec: the cofactor is cleared, so the result has prime order. */
  function HashToPoint<P(!new)>(cv: Curve<P>, key: seq<byte>): P
  {
    Mul(cv, 8, cv.toPoint(key))
  }

  /** sc_mulsub(a, b, c) is c - a b. */
  function MulSub(a: nat, b: nat, c: nat, q: nat): (r: nat)
    requires q > 0
    ensures r < q
  {
    (c - a * b) % q
  }

  /** c X + r Y, the two double scalar multiplications. */
  function Combine<P(!new)>(cv: Curve<P>, c: nat, x: P, r: nat, y: P): P
  {
    cv.add(Mul(cv, c, x), Mul(cv, r, y))
  }

  // ----- the algebra behind both schemes -----

  lemma MulSubBalances(c: nat, x: nat, k: nat, q: nat)
    requires q > 0
    ensures (c * x + MulSub(c, x, k, q)) % q == k % q
  {
    var d := k - c * x;
    var m := d / q;
    assert d == m * q + d % q;
    assert c * x + d % q == q * (-m) + k;
    ModShift(-m, q, k);
  }

  /** The response r = k - c x opens the commitment k Y, for a key X = x Y of order q. */
  lemma Opens<P(!new)>(cv: Curve<P>, c: nat, x: nat, k: nat, y: P)
    requires GroupLaws(cv) && cv.order > 0 && Mul(cv, cv.order, y) == cv.zero
    ensures Combine(cv, c, Mul(cv, x, y), MulSub(c, x, k, cv.order), y) == Mul(cv, k, y)
  {
    hide GroupLaws, Mul, MulSub;
    var r := MulSub(c, x, k, cv.order);
    MulMul(cv, c, x, y);
    MulMonotone(0, c, x);
    MulAdd(cv, c * x, r, y);
    MulSubBalances(c, x, k, cv.order);
    MulCongruent(cv, c * x + r, k, cv.order, y);
  }

  lemma HashPointOrder<P(!new)>(cv: Curve<P>, key: seq<byte>)
    requires Valid(cv)
    ensures Mul(cv, cv.order, HashToPoint(cv, key)) == cv.zero
  {
    hide GroupLaws, Mul;
    MulCommute(cv, cv.order, 8, cv.toPoint(key));
    MulMul(cv, 8, cv.order, cv.toPoint(key));
  }

  /** (r' - r) / (c - c') modulo q, the exponent two openings of one commitment give away. */
  ghost function Exponent(s: Signature, t: Signature, q: nat): (x: nat)
    requires Prime(q) && s.c < q && t.c < q && s.r < q && t.r < q && s.c != t.c
  {
    if s.c > t.c then Times(InverseMod(s.c - t.c, q), t.r + q - s.r) % q
    else Times(InverseMod(t.c - s.c, q), s.r + q - t.r) % q
  }

  /** Two openings of one commitment determine the key up to its part of order eight, and exactly when q X = 0. */
  lemma Extract<P(!new)>(cv: Curve<P>, x: P, y: P, s: Signature, t: Signature)
    requires Valid(cv) && Mul(cv, cv.order, y) == cv.zero
    requires Canonical(cv, s) && Canonical(cv, t) && s.c != t.c
    requires Combine(cv, s.c, x, s.r, y) == Combine(cv, t.c, x, t.r, y)
    ensures var e := Exponent(s, t, cv.order);
      Mul(cv, 8, x) == Mul(cv, 8, Mul(cv, e, y)) &&
      (x == Mul(cv, e, y) <==> Mul(cv, cv.order, x) == cv.zero)
  {
    hide GroupLaws, Mul, Combine, InverseMod;
    if s.c > t.c {
      ExtractOrdered(cv, x, y, s, t);
    } else {
      ExtractOrdered(cv, x, y, t, s);
    }
  }

  lemma ExtractOrdered<P(!new)>(cv: Curve<P>, x: P, y: P, s: Signature, t: Signature)
    requires Valid(cv) && Mul(cv, cv.order, y) == cv.zero
    requires Canonical(cv, s) && Canonical(cv, t) && s.c > t.c
    requires Combine(cv, s.c, x, s.r, y) == Combine(cv, t.c, x, t.r, y)
    ensures var e := Times(InverseMod(s.c - t.c, cv.order), t.r + cv.order - s.r) % cv.order;
      Mul(cv, 8, x) == Mul(cv, 8, Mul(cv, e, y)) &&
      (x == Mul(cv, e, y) <==> Mul(cv, cv.order, x) == cv.zero)
  {
    hide GroupLaws, Mul, InverseMod;
    var q := cv.order;
    var d, m := s.c - t.c, t.r + q - s.r;
    var u := InverseMod(d, q);
    DifferenceOfOpenings(cv, x, y, s, t);
    InverseModCorrect(d, q);
    var k := (u * d) / q;
    assert u * d == k * q + 1;
    MulMul(cv, u, d, x);
    MulMul(cv, u, m, y);
    MulMod(cv, Times(u, m), q, y);
    var xe := Mul(cv, Times(u, m) % q, y);
    assert xe == Mul(cv, u * d, x);
    MulMonotone(0, k, q);
    MulAdd(cv, k * q, 1, x);
    MulOne(cv, x);
    var torsion := Mul(cv, k * q, x);
    assert xe == cv.add(torsion, x);
    TorsionVanishes(cv, x, k);
    MulSum(cv, 8, torsion, x);
    Zero(cv, Mul(cv, 8, x));
    if Mul(cv, q, x) == cv.zero {
      MulMul(cv, k, q, x);
      MulZero(cv, k);
      Zero(cv, x);
    }
    if x == xe {
      MulCommute(cv, q, Times(u, m) % q, y);
      MulZero(cv, Times(u, m) % q);
    }
  }

  /** From c X + r Y = c' X + r' Y follows (c - c') X = (r' - r) Y. */
  lemma DifferenceOfOpenings<P(!new)>(cv: Curve<P>, x: P, y: P, s: Signature, t: Signature)
    requires Valid(cv) && Mul(cv, cv.order, y) == cv.zero
    requires Canonical(cv, s) && Canonical(cv, t) && s.c > t.c
    requires Combine(cv, s.c, x, s.r, y) == Combine(cv, t.c, x, t.r, y)
    ensures Mul(cv, s.c - t.c, x) == Mul(cv, t.r + cv.order - s.r, y)
  {
    hide GroupLaws, Mul;
    var q, d := cv.order, s.c - t.c;
    MulAdd(cv, t.c, d, x);
    Assoc(cv, Mul(cv, t.c, x), Mul(cv, d, x), Mul(cv, s.r, y));
    Cancel(cv, Mul(cv, t.c, x), cv.add(Mul(cv, d, x), Mul(cv, s.r, y)), Mul(cv, t.r, y));
    Assoc(cv, Mul(cv, d, x), Mul(cv, s.r, y), Mul(cv, q - s.r, y));
    MulAdd(cv, s.r, q - s.r, y);
    Zero(cv, Mul(cv, d, x));
    MulAdd(cv, t.r, q - s.r, y);
  }

  lemma TorsionVanishes<P(!new)>(cv: Curve<P>, x: P, k: nat)
    requires Valid(cv)
    ensures k * cv.order >= 0 && Mul(cv, 8, Mul(cv, k * cv.order, x)) == cv.zero
  {
    hide GroupLaws, Mul;
    var q := cv.order;
    MulMonotone(0, k, q);
    MulMul(cv, k, q, x);
    MulCommute(cv, 8, k, Mul(cv, q, x));
    MulMul(cv, 8, q, x);
    MulZero(cv, k);
  }

  // ----- one signer -----

  function Challenge<P(!new)>(cv: Curve<P>, prefix: seq<byte>, pub: seq<byte>, commitment: P): nat
    requires cv.order > 0
  {
    HashToScalar(cv, prefix + pub + cv.encode(commitment))
  }

  /** generate_signature, with its random scalar k as a parameter */
  function Signed<P(!new)>(cv: Curve<P>, prefix: seq<byte>, pub: seq<byte>, sec: nat, k: nat): Signature
    requires cv.order > 0
  {
    var c := Challenge(cv, prefix, pub, Mul(cv, k % cv.order, cv.base));
    Signature(c, MulSub(c, sec, k % cv.order, cv.order))
  }

  /** check_signature */
  function SignatureVerdict<P(!new)>(cv: Curve<P>, prefix: seq<byte>, pub: seq<byte>, sig: Signature): Verdict
    requires cv.order > 0
  {
    match cv.decode(pub)
    case None => Abort
    case Some(x) =>
      if !Canonical(cv, sig) then Reject
      else
        var c := Challenge(cv, prefix, pub, Combine(cv, sig.c, x, sig.r, cv.base));
        if (c - sig.c) % cv.order == 0 then Accept else Reject
  }

  lemma SignatureComplete<P(!new)>(cv: Curve<P>, prefix: seq<byte>, sec: nat, k: nat)
    requires Valid(cv)
    ensures var pub := cv.encode(Mul(cv, sec, cv.base));
      SignatureVerdict(cv, prefix, pub, Signed(cv, prefix, pub, sec, k)) == Accept
  {
    hide GroupLaws, Mul, MulSub;
    var q := cv.order;
    var pub := cv.encode(Mul(cv, sec, cv.base));
    var sig := Signed(cv, prefix, pub, sec, k);
    Opens(cv, sig.c, sec, k % q, cv.base);
    DivModUnique(0, q, 0);
  }

  lemma DifferenceZero(h: int, c: int, q: nat)
    requires q > 0 && 0 <= h < q && 0 <= c < q && (h - c) % q == 0
    ensures h == c
  {
    var m := (h - c) / q;
    assert h - c == m * q;
    if m >= 1 { MulMonotone(1, m, q); } else if m <= -1 { MulMonotone(m, -1, q); }
  }

  /** Two accepted signatures on one commitment with different challenges give the secret key. */
  lemma SignatureSound<P(!new)>(cv: Curve<P>, prefix: seq<byte>, prefix': seq<byte>, pub: seq<byte>,
                                s: Signature, t: Signature, key: P)
    requires Valid(cv) && cv.decode(pub) == Some(key)
    requires SignatureVerdict(cv, prefix, pub, s) == Accept
    requires SignatureVerdict(cv, prefix', pub, t) == Accept
    requires Combine(cv, s.c, key, s.r, cv.base) == Combine(cv, t.c, key, t.r, cv.base)
    requires var comm := Combine(cv, s.c, key, s.r, cv.base);
      Challenge(cv, prefix, pub, comm) != Challenge(cv, prefix', pub, comm)
    ensures s.c != t.c
    ensures key == Mul(cv, Exponent(s, t, cv.order), cv.base) <==> Mul(cv, cv.order, key) == cv.zero
  {
    hide GroupLaws, Mul, Combine, Exponent;
    var comm := Combine(cv, s.c, key, s.r, cv.base);
    DifferenceZero(Challenge(cv, prefix, pub, comm), s.c, cv.order);
    DifferenceZero(Challenge(cv, prefix', pub, comm), t.c, cv.order);
    Extract(cv, key, cv.base, s, t);
  }

  // ----- a ring of signers -----

  /** The pair (a_i, b_i) committed to by ring member i. */
  datatype Commitment<P> = Commitment(a: P, b: P)

  function Bytes<P(!new)>(cv: Curve<P>, comms: seq<Commitment<P>>): seq<byte>
  {
    if comms == [] then []
    else
      var last := comms[|comms| - 1];
      Bytes(cv, comms[..|comms| - 1]) + cv.encode(last.a) + cv.encode(last.b)
  }

  /** What a verifier computes for one member from its key, the key image and its part of the signature. */
  function Opened<P(!new)>(cv: Curve<P>, key: P, pub: seq<byte>, image: P, s: Signature): Commitment<P>
  {
    Commitment(Combine(cv, s.c, key, s.r, cv.base), Combine(cv, s.r, HashToPoint(cv, pub), s.c, image))
  }

  predicate Decodable<P(!new)>(cv: Curve<P>, pubs: seq<seq<byte>>)
  {
    forall i :: 0 <= i < |pubs| ==> cv.decode(pubs[i]).Some?
  }

  function OpenedAll<P(!new)>(cv: Curve<P>, pubs: seq<seq<byte>>, image: P, sigs: seq<Signature>): seq<Commitment<P>>
    requires Decodable(cv, pubs) && |sigs| == |pubs|
  {
    seq(|pubs|, i requires 0 <= i < |pubs| => Opened(cv, cv.decode(pubs[i]).value, pubs[i], image, sigs[i]))
  }

  function SumC(sigs: seq<Signature>): nat
  {
    if sigs == [] then 0 else SumC(sigs[..|sigs| - 1]) + sigs[|sigs| - 1].c
  }

  function RingHash<P(!new)>(cv: Curve<P>, prefix: seq<byte>, comms: seq<Commitment<P>>): nat
    requires cv.order > 0
  {
    HashToScalar(cv, prefix + Bytes(cv, comms))
  }

  /** The first member that stops the verifier: a scalar out of range rejects, a bad key aborts. */
  function Scan<P(!new)>(cv: Curve<P>, pubs: seq<seq<byte>>, sigs: seq<Signature>, i: nat): Verdict
    requires i <= |pubs| == |sigs|
    decreases |pubs| - i
  {
    if i == |pubs| then Accept
    else if !Canonical(cv, sigs[i]) then Reject
    else if cv.decode(pubs[i]).None? then Abort
    else Scan(cv, pubs, sigs, i + 1)
  }

  lemma {:induction false} ScanAccepts<P(!new)>(cv: Curve<P>, pubs: seq<seq<byte>>, sigs: seq<Signature>, i: nat)
    requires i <= |pubs| == |sigs|
    ensures Scan(cv, pubs, sigs, i) == Accept <==>
            forall j :: i <= j < |pubs| ==> Canonical(cv, sigs[j]) && cv.decode(pubs[j]).Some?
    decreases |pubs| - i
  {
    if i == |pubs| {
    } else {
      ScanAccepts(cv, pubs, sigs, i + 1);
    }
  }

  function RingVerdict<P(!new)>(cv: Curve<P>, prefix: seq<byte>, image: seq<byte>,
                                pubs: seq<seq<byte>>, sigs: seq<Signature>): Verdict
    requires cv.order > 0 && |sigs| == |pubs|
  {
    if cv.decode(image).None? then Reject
    else match Scan(cv, pubs, sigs, 0)
      case Accept =>
        ScanAccepts(cv, pubs, sigs, 0);
        var h := RingHash(cv, prefix, OpenedAll(cv, pubs, cv.decode(image).value, sigs));
        if (h - SumC(sigs) % cv.order) % cv.order == 0 then Accept else Reject
      case other => other
  }

  /** A signature is accepted iff everything decodes, every scalar is reduced and the challenges sum to the hash. */
  lemma RingAccepts<P(!new)>(cv: Curve<P>, prefix: seq<byte>, image: seq<byte>,
                             pubs: seq<seq<byte>>, sigs: seq<Signature>)
    requires cv.order > 0 && |sigs| == |pubs|
    ensures RingVerdict(cv, prefix, image, pubs, sigs) == Accept <==>
            cv.decode(image).Some? && Decodable(cv, pubs) &&
            (forall j :: 0 <= j < |pubs| ==> Canonical(cv, sigs[j])) &&
            RingHash(cv, prefix, OpenedAll(cv, pubs, cv.decode(image).value, sigs)) == SumC(sigs) % cv.order
  {
    hide SumC, RingHash, OpenedAll, Canonical, Scan;
    ScanAccepts(cv, pubs, sigs, 0);
    if cv.decode(image).Some? && Scan(cv, pubs, sigs, 0) == Accept {
      var comms := OpenedAll(cv, pubs, cv.decode(image).value, sigs);
      RingHashBelow(cv, prefix, comms);
      SameResidue(RingHash(cv, prefix, comms), SumC(sigs), cv.order);
    }
  }

  lemma SameResidue(h: nat, sum: nat, q: nat)
    requires q > 0 && h < q
    ensures (h - sum % q) % q == 0 <==> h == sum % q
  {
    if (h - sum % q) % q == 0 { DifferenceZero(h, sum % q, q); } else { DivModUnique(0, q, 0); }
  }

  /** The loop of check_ring_signature: transcript and challenge sum grow together. */
  method CheckRingSignature<P(!new)>(cv: Curve<P>, prefix: seq<byte>, image: seq<byte>,
                                     pubs: seq<seq<byte>>, sigs: seq<Signature>) returns (v: Verdict)
    requires cv.order > 0 && |sigs| == |pubs|
    ensures v == RingVerdict(cv, prefix, image, pubs, sigs)
  {
    hide Mul, Opened, Bytes, SumC, Canonical, HashToPoint, Combine;
    if cv.decode(image).None? {
      return Reject;
    }
    var imagePoint := cv.decode(image).value;
    var sum: nat, buf := 0, prefix;
    ghost var comms: seq<Commitment<P>> := [];
    BytesUnfold(cv, comms);
    SumUnfold(sigs[..0]);
    SumStart(cv.order);
    for i := 0 to |pubs|
      invariant |comms| == i
      invariant Decodable(cv, pubs[..i])
      invariant forall j :: 0 <= j < i ==>
                  comms[j] == Opened(cv, cv.decode(pubs[j]).value, pubs[j], imagePoint, sigs[j])
      invariant buf == prefix + Bytes(cv, comms)
      invariant sum == SumC(sigs[..i]) % cv.order
      invariant Scan(cv, pubs, sigs, 0) == Scan(cv, pubs, sigs, i)
    {
      if !Canonical(cv, sigs[i]) {
        return Reject;
      }
      if cv.decode(pubs[i]).None? {
        return Abort;
      }
      var o := Opened(cv, cv.decode(pubs[i]).value, pubs[i], imagePoint, sigs[i]);
      buf := buf + cv.encode(o.a) + cv.encode(o.b);
      AppendCommitment(cv, prefix, comms, o);
      comms := comms + [o];
      AddChallenge(sigs, i, cv.order);
      sum := (sum + sigs[i].c) % cv.order;
    }
    assert sigs[..|pubs|] == sigs;
    assert comms == OpenedAll(cv, pubs, imagePoint, sigs);
    var h := HashToScalar(cv, buf);
    v := if (h - sum) % cv.order == 0 then Accept else Reject;
  }

  lemma BytesUnfold<P(!new)>(cv: Curve<P>, comms: seq<Commitment<P>>)
    ensures comms == [] ==> Bytes(cv, comms) == []
  {
  }

  lemma AppendCommitment<P(!new)>(cv: Curve<P>, prefix: seq<byte>, comms: seq<Commitment<P>>, o: Commitment<P>)
    ensures prefix + Bytes(cv, comms + [o]) == prefix + Bytes(cv, comms) + cv.encode(o.a) + cv.encode(o.b)
  {
    assert (comms + [o])[..|comms|] == comms;
  }

  lemma SumUnfold(sigs: seq<Signature>)
    ensures SumC(sigs) == if sigs == [] then 0 else SumC(sigs[..|sigs| - 1]) + sigs[|sigs| - 1].c
  {
  }

  lemma SumStart(q: nat)
    requires q > 0
    ensures 0 % q == 0
  {
    DivModUnique(0, q, 0);
  }

  lemma AddMod(a: nat, b: nat, q: nat)
    requires q > 0
    ensures (a % q + b) % q == (a + b) % q
  {
    var m := a / q;
    assert a + b == q * m + (a % q + b);
    ModShift(m, q, a % q + b);
  }

  lemma AddChallenge(sigs: seq<Signature>, i: nat, q: nat)
    requires i < |sigs| && q > 0
    ensures (SumC(sigs[..i]) % q + sigs[i].c) % q == SumC(sigs[..i + 1]) % q
  {
    assert sigs[..i + 1][..i] == sigs[..i];
    AddMod(SumC(sigs[..i]), sigs[i].c, q);
  }

  // ----- the signer -----

  function Reduced(s: Signature, q: nat): Signature
    requires q > 0
  {
    Signature(s.c % q, s.r % q)
  }

  /** Everything the signer draws at random: k, and a challenge and response for every other member. */
  datatype Randomness = Randomness(k: nat, others: seq<Signature>)

  predicate OthersDecodable<P(!new)>(cv: Curve<P>, pubs: seq<seq<byte>>, s: nat)
  {
    forall i :: 0 <= i < |pubs| && i != s ==> cv.decode(pubs[i]).Some?
  }

  /** The commitment the signer makes for member i: its own is k G and k Hp, the others' are simulated. */
  function Committed<P(!new)>(cv: Curve<P>, pubs: seq<seq<byte>>, image: P, s: nat, rnd: Randomness, i: nat)
    : Commitment<P>
    requires cv.order > 0 && i < |pubs| == |rnd.others| && (i != s ==> cv.decode(pubs[i]).Some?)
  {
    if i == s then
      Commitment(Mul(cv, rnd.k % cv.order, cv.base), Mul(cv, rnd.k % cv.order, HashToPoint(cv, pubs[i])))
    else
      Opened(cv, cv.decode(pubs[i]).value, pubs[i], image, Reduced(rnd.others[i], cv.order))
  }

  function CommittedAll<P(!new)>(cv: Curve<P>, pubs: seq<seq<byte>>, image: P, s: nat, rnd: Randomness)
    : seq<Commitment<P>>
    requires cv.order > 0 && |pubs| == |rnd.others| && OthersDecodable(cv, pubs, s)
  {
    seq(|pubs|, i requires 0 <= i < |pubs| => Committed(cv, pubs, image, s, rnd, i))
  }

  /** The simulated parts, with a zero challenge left for the signer. */
  function Simulated(rnd: Randomness, s: nat, q: nat): (sigs: seq<Signature>)
    requires q > 0
    ensures |sigs| == |rnd.others|
  {
    seq(|rnd.others|, i requires 0 <= i < |rnd.others| =>
      if i == s then Signature(0, 0) else Reduced(rnd.others[i], q))
  }

  function RingSigned<P(!new)>(cv: Curve<P>, prefix: seq<byte>, image: P, pubs: seq<seq<byte>>,
                               sec: nat, s: nat, rnd: Randomness): (sigs: seq<Signature>)
    requires cv.order > 0 && s < |pubs| == |rnd.others| && OthersDecodable(cv, pubs, s)
    ensures |sigs| == |pubs|
  {
    var sim := Simulated(rnd, s, cv.order);
    var h := RingHash(cv, prefix, CommittedAll(cv, pubs, image, s, rnd));
    var c := (h - SumC(sim) % cv.order) % cv.order;
    sim[s := Signature(c, MulSub(c, sec, rnd.k % cv.order, cv.order))]
  }

  /** generate_ring_signature; false stands for abort(), which leaves the buffer half written. */
  method GenerateRingSignature<P(!new)>(cv: Curve<P>, prefix: seq<byte>, image: seq<byte>, pubs: seq<seq<byte>>,
                                        sec: nat, s: nat, rnd: Randomness, sig: array<Signature>) returns (ok: bool)
    requires cv.order > 0 && s < |pubs| == |rnd.others| == sig.Length
    modifies sig
    ensures ok <==> cv.decode(image).Some? && OthersDecodable(cv, pubs, s)
    ensures ok ==> sig[..] == RingSigned(cv, prefix, cv.decode(image).value, pubs, sec, s, rnd)
  {
    hide Mul, Bytes, SumC, MulSub, Combine, Opened, HashToPoint;
    if cv.decode(image).None? {
      return false;
    }
    var imagePoint := cv.decode(image).value;
    var sum: nat, buf := 0, prefix;
    var k := rnd.k % cv.order;
    ghost var comms: seq<Commitment<P>> := [];
    ghost var sim := Simulated(rnd, s, cv.order);
    BytesUnfold(cv, comms);
    SumUnfold(sim[..0]);
    SumStart(cv.order);
    for i := 0 to |pubs|
      invariant |comms| == i
      invariant OthersDecodable(cv, pubs[..i], s)
      invariant forall j :: 0 <= j < i ==> comms[j] == Committed(cv, pubs, imagePoint, s, rnd, j)
      invariant forall j :: 0 <= j < i && j != s ==> sig[j] == sim[j]
      invariant buf == prefix + Bytes(cv, comms)
      invariant sum == SumC(sim[..i]) % cv.order
    {
      var a, b;
      AddChallenge(sim, i, cv.order);
      if i == s {
        a, b := Mul(cv, k, cv.base), Mul(cv, k, HashToPoint(cv, pubs[i]));
        SumMod(SumC(sim[..i]), cv.order);
      } else {
        sig[i] := Reduced(rnd.others[i], cv.order);
        if cv.decode(pubs[i]).None? {
          return false;
        }
        var o := Opened(cv, cv.decode(pubs[i]).value, pubs[i], imagePoint, sig[i]);
        a, b := o.a, o.b;
        sum := (sum + sig[i].c) % cv.order;
      }
      buf := buf + cv.encode(a) + cv.encode(b);
      AppendCommitment(cv, prefix, comms, Commitment(a, b));
      comms := comms + [Commitment(a, b)];
    }
    assert sim[..|pubs|] == sim;
    assert pubs[..|pubs|] == pubs;
    assert comms == CommittedAll(cv, pubs, imagePoint, s, rnd);
    var h := HashToScalar(cv, buf);
    var c := (h - sum) % cv.order;
    sig[s] := Signature(c, MulSub(c, sec, k, cv.order));
    ok := true;
  }

  lemma SumMod(a: nat, q: nat)
    requires q > 0
    ensures (a % q + 0) % q == a % q
  {
    AddMod(a, 0, q);
  }

  lemma {:induction false} SumUpdate(sigs: seq<Signature>, s: nat, t: Signature)
    requires s < |sigs|
    ensures SumC(sigs[s := t]) == SumC(sigs) - sigs[s].c + t.c
  {
    var n := |sigs| - 1;
    if s < n {
      assert sigs[s := t][..n] == sigs[..n][s := t];
      SumUpdate(sigs[..n], s, t);
    } else {
      assert sigs[s := t][..n] == sigs[..n];
    }
  }

  lemma SumToHash(h: nat, sum: nat, q: nat)
    requires q > 0 && h < q
    ensures (sum + (h - sum % q) % q) % q == h
  {
    var d := h - sum % q;
    var m, n := d / q, sum / q;
    assert d == m * q + d % q && sum == n * q + sum % q;
    assert q * (n - m) == n * q - m * q;
    ModShift(n - m, q, h);
    DivModUnique(0, q, h);
  }

  /** Both loops build the same transcript. */
  lemma SameTranscript<P(!new)>(cv: Curve<P>, prefix: seq<byte>, pubs: seq<seq<byte>>, sec: nat, s: nat, rnd: Randomness)
    requires Valid(cv) && s < |pubs| == |rnd.others| && Decodable(cv, pubs)
    requires pubs[s] == cv.encode(Mul(cv, sec, cv.base))
    ensures var image := Mul(cv, sec, HashToPoint(cv, pubs[s]));
      OpenedAll(cv, pubs, image, RingSigned(cv, prefix, image, pubs, sec, s, rnd))
      == CommittedAll(cv, pubs, image, s, rnd)
  {
    hide Mul, MulSub, SumC, GroupLaws, Combine, HashToPoint, RingHash;
    var image := Mul(cv, sec, HashToPoint(cv, pubs[s]));
    var sigs := RingSigned(cv, prefix, image, pubs, sec, s, rnd);
    SignerOpens(cv, pubs[s], sec, sigs[s].c, rnd.k % cv.order);
    forall i | 0 <= i < |pubs|
      ensures Opened(cv, cv.decode(pubs[i]).value, pubs[i], image, sigs[i]) == Committed(cv, pubs, image, s, rnd, i)
    {
    }
  }

  lemma SignerOpens<P(!new)>(cv: Curve<P>, pub: seq<byte>, sec: nat, c: nat, k: nat)
    requires Valid(cv) && pub == cv.encode(Mul(cv, sec, cv.base))
    ensures cv.decode(pub).Some?
    ensures var hp := HashToPoint(cv, pub);
      Opened(cv, cv.decode(pub).value, pub, Mul(cv, sec, hp), Signature(c, MulSub(c, sec, k, cv.order)))
      == Commitment(Mul(cv, k, cv.base), Mul(cv, k, hp))
  {
    hide Mul, MulSub, GroupLaws, HashToPoint;
    var hp, r := HashToPoint(cv, pub), MulSub(c, sec, k, cv.order);
    Opens(cv, c, sec, k, cv.base);
    HashPointOrder(cv, pub);
    Opens(cv, c, sec, k, hp);
    Comm(cv, Mul(cv, c, Mul(cv, sec, hp)), Mul(cv, r, hp));
  }

  /** Ring signatures are complete: for every ring, position, message and randomness the signer is accepted. */
  lemma RingComplete<P(!new)>(cv: Curve<P>, prefix: seq<byte>, image: seq<byte>, pubs: seq<seq<byte>>,
                              sec: nat, s: nat, rnd: Randomness)
    requires Valid(cv) && s < |pubs| == |rnd.others| && Decodable(cv, pubs)
    requires pubs[s] == cv.encode(Mul(cv, sec, cv.base))
    requires image == cv.encode(Mul(cv, sec, HashToPoint(cv, pubs[s])))
    ensures cv.decode(image).Some?
    ensures RingVerdict(cv, prefix, image, pubs,
                        RingSigned(cv, prefix, cv.decode(image).value, pubs, sec, s, rnd)) == Accept
  {
    hide Mul, MulSub, SumC, GroupLaws, Combine, HashToPoint, RingHash, OpenedAll, CommittedAll;
    var q, point := cv.order, Mul(cv, sec, HashToPoint(cv, pubs[s]));
    var sigs := RingSigned(cv, prefix, point, pubs, sec, s, rnd);
    SameTranscript(cv, prefix, pubs, sec, s, rnd);
    var h, sim := RingHash(cv, prefix, CommittedAll(cv, pubs, point, s, rnd)), Simulated(rnd, s, q);
    SumUpdate(sim, s, sigs[s]);
    RingHashBelow(cv, prefix, CommittedAll(cv, pubs, point, s, rnd));
    SumToHash(h, SumC(sim), q);
    assert SumC(sigs) % q == h;
    forall j | 0 <= j < |pubs| ensures Canonical(cv, sigs[j]) {
    }
    RingAccepts(cv, prefix, image, pubs, sigs);
  }

  lemma RingHashBelow<P(!new)>(cv: Curve<P>, prefix: seq<byte>, comms: seq<Commitment<P>>)
    requires cv.order > 0
    ensures RingHash(cv, prefix, comms) < cv.order
  {
  }

  // ----- special soundness -----

  lemma {:induction false} DifferentSums(a: seq<Signature>, b: seq<Signature>) returns (j: nat)
    requires |a| == |b| && SumC(a) != SumC(b)
    ensures j < |a| && a[j].c != b[j].c
  {
    var n := |a| - 1;
    if a[n].c != b[n].c { j := n; } else { j := DifferentSums(a[..n], b[..n]); }
  }

  /** Two signatures over one ring and image, for two messages. */
  datatype Fork = Fork(prefix: seq<byte>, prefix': seq<byte>, image: seq<byte>, pubs: seq<seq<byte>>,
                       a: seq<Signature>, b: seq<Signature>)

  /** Both are accepted, they open to one transcript, and the messages hash to different scalars with it. */
  ghost predicate Forked<P(!new)>(cv: Curve<P>, f: Fork)
  {
    cv.order > 0 && |f.a| == |f.b| == |f.pubs| && Decodable(cv, f.pubs) && cv.decode(f.image).Some? &&
    RingVerdict(cv, f.prefix, f.image, f.pubs, f.a) == Accept &&
    RingVerdict(cv, f.prefix', f.image, f.pubs, f.b) == Accept &&
    var comms := OpenedAll(cv, f.pubs, cv.decode(f.image).value, f.a);
    comms == OpenedAll(cv, f.pubs, cv.decode(f.image).value, f.b) &&
    RingHash(cv, f.prefix, comms) != RingHash(cv, f.prefix', comms)
  }

  ghost predicate PrimeOrder<P(!new)>(cv: Curve<P>, x: P)
  {
    Mul(cv, cv.order, x) == cv.zero
  }

  /** Some member's challenges differ. */
  lemma ForkDiffers<P(!new)>(cv: Curve<P>, f: Fork) returns (j: nat)
    requires Valid(cv) && Forked(cv, f)
    ensures j < |f.pubs| && f.a[j].c != f.b[j].c
  {
    hide Mul, GroupLaws, RingHash, RingVerdict, OpenedAll;
    RingAccepts(cv, f.prefix, f.image, f.pubs, f.a);
    RingAccepts(cv, f.prefix', f.image, f.pubs, f.b);
    j := DifferentSums(f.a, f.b);
  }

  /**
    Two accepted signatures over one ring, image and transcript give the exponent x of every member whose challenges
    differ, and one does when the hashes differ: the key and the image agree with x G and x Hp up to points of order
    eight, and exactly when they have order q.
   */
  lemma RingSound<P(!new)>(cv: Curve<P>, f: Fork, j: nat)
    requires Valid(cv) && Forked(cv, f) && j < |f.pubs| && f.a[j].c != f.b[j].c
    ensures Canonical(cv, f.a[j]) && Canonical(cv, f.b[j])
    ensures
      var x := Exponent(f.a[j], f.b[j], cv.order);
      var key, i, hp := cv.decode(f.pubs[j]).value, cv.decode(f.image).value, HashToPoint(cv, f.pubs[j]);
      Mul(cv, 8, key) == Mul(cv, 8, Mul(cv, x, cv.base)) &&
      Mul(cv, 8, i) == Mul(cv, 8, Mul(cv, x, hp)) &&
      (key == Mul(cv, x, cv.base) <==> PrimeOrder(cv, key)) &&
      (i == Mul(cv, x, hp) <==> PrimeOrder(cv, i))
  {
    hide Mul, GroupLaws, RingHash, HashToPoint, Exponent, RingVerdict;
    RingAccepts(cv, f.prefix, f.image, f.pubs, f.a);
    RingAccepts(cv, f.prefix', f.image, f.pubs, f.b);
    var key, i, hp := cv.decode(f.pubs[j]).value, cv.decode(f.image).value, HashToPoint(cv, f.pubs[j]);
    SameOpening(cv, f.pubs, i, f.a, f.b, j);
    Extract(cv, key, cv.base, f.a[j], f.b[j]);
    HashPointOrder(cv, f.pubs[j]);
    Comm(cv, Mul(cv, f.a[j].c, i), Mul(cv, f.a[j].r, hp));
    Comm(cv, Mul(cv, f.b[j].c, i), Mul(cv, f.b[j].r, hp));
    Extract(cv, i, hp, f.a[j], f.b[j]);
  }

  lemma SameOpening<P(!new)>(cv: Curve<P>, pubs: seq<seq<byte>>, image: P, a: seq<Signature>, b: seq<Signature>, j: nat)
    requires |a| == |b| == |pubs| && Decodable(cv, pubs) && j < |pubs|
    requires OpenedAll(cv, pubs, image, a) == OpenedAll(cv, pubs, image, b)
    ensures var key := cv.decode(pubs[j]).value;
      Opened(cv, key, pubs[j], image, a[j]) == Opened(cv, key, pubs[j], image, b[j])
  {
    hide Opened;
    var key := cv.decode(pubs[j]).value;
    assert OpenedAll(cv, pubs, image, a)[j] == Opened(cv, key, pubs[j], image, a[j]);
    assert OpenedAll(cv, pubs, image, b)[j] == Opened(cv, key, pubs[j], image, b[j]);
  }

  // ----- linkability -----

  /** Exponents that agree on a key up to its part of order eight agree on its image up to that part. */
  lemma ImageDetermined<P(!new)>(cv: Curve<P>, pub: seq<byte>, x: nat, y: nat)
    requires Valid(cv) && Mul(cv, 8, Mul(cv, x, cv.base)) == Mul(cv, 8, Mul(cv, y, cv.base))
    ensures var hp := HashToPoint(cv, pub); Mul(cv, 8, Mul(cv, x, hp)) == Mul(cv, 8, Mul(cv, y, hp))
  {
    hide Mul, GroupLaws, HashToPoint;
    var hp := HashToPoint(cv, pub);
    MulMul(cv, 8, x, cv.base);
    MulMul(cv, 8, y, cv.base);
    ScalarUnique(cv, 8 * x, 8 * y);
    HashPointOrder(cv, pub);
    MulCongruent(cv, 8 * x, 8 * y, cv.order, hp);
    MulMul(cv, 8, x, hp);
    MulMul(cv, 8, y, hp);
  }

  /**
    Signatures link: two forks, over any rings, in which the challenges of one key differ have the same image up to a
    point of order eight, and byte for byte if and only if the order-eight parts of the two images are the same.
   */
  lemma Linkable<P(!new)>(cv: Curve<P>, f: Fork, j: nat, g: Fork, k: nat)
    requires Valid(cv) && Forked(cv, f) && Forked(cv, g)
    requires j < |f.pubs| && f.a[j].c != f.b[j].c && k < |g.pubs| && g.a[k].c != g.b[k].c
    requires f.pubs[j] == g.pubs[k]
    ensures cv.decode(f.image).Some? && cv.decode(g.image).Some?
    ensures
      var i, i' := cv.decode(f.image).value, cv.decode(g.image).value;
      Mul(cv, 8, i) == Mul(cv, 8, i') &&
      (cv.order > 2 ==> (f.image == g.image <==> Mul(cv, cv.order, i) == Mul(cv, cv.order, i')))
  {
    hide Mul, GroupLaws, HashToPoint, Exponent, Forked, PrimeOrder;
    ForkShape(cv, f);
    ForkShape(cv, g);
    RingSound(cv, f, j);
    RingSound(cv, g, k);
    var x, y := Exponent(f.a[j], f.b[j], cv.order), Exponent(g.a[k], g.b[k], cv.order);
    ImageDetermined(cv, f.pubs[j], x, y);
    var i, i' := cv.decode(f.image).value, cv.decode(g.image).value;
    if cv.order > 2 { SamePoint(cv, i, i'); }
    assert cv.encode(i) == f.image && cv.encode(i') == g.image;
  }

  lemma ForkShape<P(!new)>(cv: Curve<P>, f: Fork)
    requires Forked(cv, f)
    ensures |f.a| == |f.b| == |f.pubs| && Decodable(cv, f.pubs) && cv.decode(f.image).Some?
  {
  }

  // ----- the signer's range -----

  /** The randomness that leads to given signatures. */
  function Explained(sigs: seq<Signature>, sec: nat, s: nat): Randomness
    requires s < |sigs|
  {
    Randomness(sigs[s].c * sec + sigs[s].r, sigs)
  }

  /** For the signer's own part: its response to the commitment it opens is the one it has. */
  lemma SignerExplained(c: nat, r: nat, sec: nat, q: nat)
    requires q > 0 && r < q
    ensures MulSub(c, sec, (c * sec + r) % q, q) == r
  {
    MulSubReduced(c, sec, c * sec + r, q);
    DivModUnique(0, q, r);
  }

  lemma MulSubReduced(c: nat, sec: nat, k: nat, q: nat)
    requires q > 0 && k >= c * sec
    ensures MulSub(c, sec, k % q, q) == (k - c * sec) % q
  {
    var p := c * sec;
    var d, n := k % q - p, k / q;
    assert k == n * q + k % q;
    assert k - p == q * n + d;
    IntModShift(n, q, d);
  }

  lemma IntModShift(n: nat, q: nat, d: int)
    requires q > 0
    ensures (q * n + d) % q == d % q
  {
    var m, r := d / q, d % q;
    assert d == m * q + r;
    assert q * n + d == q * (n + m) + r;
    ModShift(n + m, q, r);
    DivModUnique(0, q, r);
  }

  /** The signer who draws that randomness commits to what the signatures open to. */
  lemma ExplainedCommits<P(!new)>(cv: Curve<P>, pubs: seq<seq<byte>>, sec: nat, s: nat, sigs: seq<Signature>)
    requires Valid(cv) && s < |pubs| == |sigs| && Decodable(cv, pubs)
    requires pubs[s] == cv.encode(Mul(cv, sec, cv.base))
    requires forall j :: 0 <= j < |sigs| ==> Canonical(cv, sigs[j])
    ensures var image := Mul(cv, sec, HashToPoint(cv, pubs[s]));
      CommittedAll(cv, pubs, image, s, Explained(sigs, sec, s)) == OpenedAll(cv, pubs, image, sigs)
  {
    hide Mul, MulSub, GroupLaws, Combine, HashToPoint, Explained, Opened;
    var q, image, rnd := cv.order, Mul(cv, sec, HashToPoint(cv, pubs[s])), Explained(sigs, sec, s);
    ExplainedShape(sigs, sec, s, q);
    forall i | 0 <= i < |pubs|
      ensures Committed(cv, pubs, image, s, rnd, i) == Opened(cv, cv.decode(pubs[i]).value, pubs[i], image, sigs[i])
    {
      if i == s {
        SignerOpens(cv, pubs[s], sec, sigs[s].c, rnd.k % q);
      } else {
        ReducedCanonical(cv, sigs[i]);
      }
    }
  }

  lemma ExplainedShape(sigs: seq<Signature>, sec: nat, s: nat, q: nat)
    requires s < |sigs| && q > 0 && sigs[s].r < q
    ensures var rnd := Explained(sigs, sec, s);
      rnd.others == sigs && MulSub(sigs[s].c, sec, rnd.k % q, q) == sigs[s].r
  {
    hide MulSub;
    SignerExplained(sigs[s].c, sigs[s].r, sec, q);
  }

  lemma ReducedCanonical<P(!new)>(cv: Curve<P>, s: Signature)
    requires cv.order > 0 && Canonical(cv, s)
    ensures Reduced(s, cv.order) == s
  {
    DivModUnique(0, cv.order, s.c);
    DivModUnique(0, cv.order, s.r);
  }

  /** Every vector accepted under the honest image is one that the signer makes, from some randomness. */
  lemma RingExplained<P(!new)>(cv: Curve<P>, prefix: seq<byte>, image: seq<byte>, pubs: seq<seq<byte>>,
                               sec: nat, s: nat, sigs: seq<Signature>)
    requires Valid(cv) && s < |pubs| == |sigs| && Decodable(cv, pubs)
    requires pubs[s] == cv.encode(Mul(cv, sec, cv.base))
    requires image == cv.encode(Mul(cv, sec, HashToPoint(cv, pubs[s])))
    requires RingVerdict(cv, prefix, image, pubs, sigs) == Accept
    ensures Explained(sigs, sec, s).others == sigs && cv.decode(image).Some?
    ensures sigs == RingSigned(cv, prefix, cv.decode(image).value, pubs, sec, s, Explained(sigs, sec, s))
  {
    hide Mul, MulSub, SumC, GroupLaws, Combine, HashToPoint, RingHash, OpenedAll, CommittedAll, RingVerdict, Explained;
    hide Simulated;
    var q, rnd := cv.order, Explained(sigs, sec, s);
    RingAccepts(cv, prefix, image, pubs, sigs);
    ExplainedShape(sigs, sec, s, q);
    ExplainedCommits(cv, pubs, sec, s, sigs);
    SimulatedSame(cv, rnd, s);
    ChallengeExplained(sigs, s, q);
    assert sigs[s := Signature(0, 0)][s := sigs[s]] == sigs;
  }

  lemma ChallengeExplained(sigs: seq<Signature>, s: nat, q: nat)
    requires s < |sigs| && q > 0 && sigs[s].c < q
    ensures (SumC(sigs) % q - SumC(sigs[s := Signature(0, 0)]) % q) % q == sigs[s].c
  {
    hide SumC;
    SumUpdate(sigs, s, Signature(0, 0));
    SumFromHash(SumC(sigs[s := Signature(0, 0)]), sigs[s].c, q);
  }

  lemma SimulatedSame<P(!new)>(cv: Curve<P>, rnd: Randomness, s: nat)
    requires cv.order > 0 && s < |rnd.others|
    requires forall j :: 0 <= j < |rnd.others| ==> Canonical(cv, rnd.others[j])
    ensures Simulated(rnd, s, cv.order) == rnd.others[s := Signature(0, 0)]
  {
    hide Reduced;
    forall i | 0 <= i < |rnd.others| ensures Reduced(rnd.others[i], cv.order) == rnd.others[i] {
      ReducedCanonical(cv, rnd.others[i]);
    }
  }

  lemma SumFromHash(sum: nat, c: nat, q: nat)
    requires q > 0 && c < q
    ensures ((sum + c) % q - sum % q) % q == c
  {
    var r := sum % q;
    AddMod(sum, c, q);
    DivModUnique(0, q, c);
    if r + c < q {
      DivModUnique(0, q, r + c);
    } else {
      DivModUnique(1, q, r + c - q);
      ModShift(-1, q, c);
    }
  }

  /** The accepted vectors under the honest image are exactly those that the signer can make. */
  lemma RingRange<P(!new)>(cv: Curve<P>, prefix: seq<byte>, image: seq<byte>, pubs: seq<seq<byte>>,
                           sec: nat, s: nat, sigs: seq<Signature>)
    requires Valid(cv) && s < |pubs| == |sigs| && Decodable(cv, pubs)
    requires pubs[s] == cv.encode(Mul(cv, sec, cv.base))
    requires image == cv.encode(Mul(cv, sec, HashToPoint(cv, pubs[s])))
    ensures cv.decode(image).Some?
    ensures RingVerdict(cv, prefix, image, pubs, sigs) == Accept <==>
            exists rnd :: Makes(cv, prefix, cv.decode(image).value, pubs, sec, s, rnd, sigs)
  {
    hide Mul, GroupLaws, HashToPoint, RingVerdict, RingSigned, Explained;
    if RingVerdict(cv, prefix, image, pubs, sigs) == Accept {
      RingExplained(cv, prefix, image, pubs, sec, s, sigs);
      assert Makes(cv, prefix, cv.decode(image).value, pubs, sec, s, Explained(sigs, sec, s), sigs);
    }
    forall rnd | Makes(cv, prefix, cv.decode(image).value, pubs, sec, s, rnd, sigs)
      ensures RingVerdict(cv, prefix, image, pubs, sigs) == Accept
    {
      RingComplete(cv, prefix, image, pubs, sec, s, rnd);
    }
  }

  ghost predicate Makes<P(!new)>(cv: Curve<P>, prefix: seq<byte>, image: P, pubs: seq<seq<byte>>, sec: nat, s: nat,
                                 rnd: Randomness, sigs: seq<Signature>)
    requires cv.order > 0 && s < |pubs| && OthersDecodable(cv, pubs, s)
  {
    |rnd.others| == |pubs| && sigs == RingSigned(cv, prefix, image, pubs, sec, s, rnd)
  }
}
