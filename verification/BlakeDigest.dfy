/** The digest and the keyed digest of src/crypto/blake256.c, spelled out bit by bit and step by step. */
module BlakeDigest {
  import opened Words
  import opened Positional
  import opened Blake256

  /**
    The padding of section 2.1.3 of the BLAKE proposal: a one bit, zeros, a one bit and the 64-bit length in bits, up
    to a whole number of blocks and no further.
   */
  ghost predicate IsPadded(msg: seq<byte>, p: seq<byte>)
  {
    |p| % 64 == 0 && |msg| + 9 <= |p| < |msg| + 73 && p[..|msg|] == msg &&
    (if |msg| == |p| - 9 then p[|msg|] == 0x81 else p[|msg|] == 0x80 && p[|p| - 9] == 0x01) &&
    (forall i :: |msg| < i < |p| - 9 ==> p[i] == 0) &&
    Value(256, p[|p| - 8..]) == 8 * |msg|
  }

  /** One compression a block, each counting the message bits up to its end, or none if it has no message bit. */
  ghost predicate Runs<H(!new)>(core: Core<H>, p: seq<byte>, n: nat, hs: seq<H>)
  {
    |hs| == |p| / 64 + 1 && hs[0] == core.iv &&
    forall i :: 0 <= i < |p| / 64 ==> hs[i + 1] == core.compress(hs[i], BlockCall(p, n, i))
  }

  function BlockCall(p: seq<byte>, n: nat, i: nat): Call
    requires i < |p| / 64
  {
    var bytes := if 64 * i + 64 <= n then 64 * i + 64 else n;
    Call(p[64 * i..64 * i + 64], if 64 * i < n then Some(8 * bytes) else None)
  }

  lemma PaddedIs(msg: seq<byte>)
    requires 8 * |msg| < TWO64
    ensures IsPadded(msg, Padded(msg, 0x81, 0x01))
  {
    hide Value, BigEndian;
    var k := PadLength(|msg|);
    var pad, tail := Pad(k, 0x81, 0x01), BigEndian(8 * |msg|, 8);
    var p := Padded(msg, 0x81, 0x01);
    EightByteValue(8 * |msg|);
    assert p[|p| - 8..] == tail && p[..|msg|] == msg;
    forall i | 0 <= i < k ensures p[|msg| + i] == pad[i] { }
    forall i | |msg| < i < |p| - 9 ensures p[i] == 0 { assert p[i] == pad[i - |msg|]; }
    assert p[|p| - 9] == pad[k - 1] && p[|msg|] == pad[0];
  }

  /** The chaining values along the calls. */
  function Along<H(!new)>(core: Core<H>, calls: seq<Call>): (hs: seq<H>)
    ensures |hs| == |calls| + 1
  {
    if calls == [] then [core.iv]
    else
      var before := Along(core, calls[..|calls| - 1]);
      before + [core.compress(before[|calls| - 1], calls[|calls| - 1])]
  }

  lemma {:induction false} AlongIs<H(!new)>(core: Core<H>, calls: seq<Call>)
    ensures var hs := Along(core, calls);
      hs[0] == core.iv && hs[|calls|] == Chain(core, calls) &&
      forall i :: 0 <= i < |calls| ==> hs[i + 1] == core.compress(hs[i], calls[i])
  {
    if calls == [] {
    } else {
      AlongIs(core, calls[..|calls| - 1]);
    }
  }

  /** The digest is the last chaining value of a run over the padded message. */
  lemma DigestRuns<H(!new)>(core: Core<H>, msg: seq<byte>) returns (p: seq<byte>, hs: seq<H>)
    requires 8 * |msg| < TWO64
    ensures IsPadded(msg, p) && Runs(core, p, |msg|, hs) && Digest(core, msg) == core.bytes(hs[|hs| - 1])
  {
    hide IsPadded, Along, Chain, BlockCalls;
    p := Padded(msg, 0x81, 0x01);
    PaddedIs(msg);
    var calls := HashCalls(msg, 0x81, 0x01);
    hs := Along(core, calls);
    AlongIs(core, calls);
    forall i | 0 <= i < |p| / 64 ensures calls[i] == BlockCall(p, |msg|, i) {
      CallAt(p, |p| / 64, |msg|, i);
    }
  }

  // ----- the keyed digest -----

  /** The key with zeros behind it. */
  function Filled(key: seq<byte>, i: nat): byte
  {
    if i < |key| then key[i] else 0
  }

  /** Section 2 of RFC 2104: the inner pad is the filled key with 0x36, the outer pad the one with 0x5c. */
  lemma HmacIs<H(!new)>(core: Core<H>, key: seq<byte>, msg: seq<byte>) returns (inner: seq<byte>, outer: seq<byte>)
    requires |key| <= 64 && forall h :: |core.bytes(h)| == 32
    ensures |inner| == |outer| == 64
    ensures forall i :: 0 <= i < 64 ==> Xor(inner[i], 0x36) == Filled(key, i) && Xor(outer[i], 0x5c) == Filled(key, i)
    ensures Hmac(core, key, msg) == Digest(core, outer + Digest(core, inner + msg))
  {
    hide Xor, Digest;
    inner, outer := KeyPad(key, 0x36), KeyPad(key, 0x5c);
    forall i | 0 <= i < 64 ensures Xor(inner[i], 0x36) == Filled(key, i) && Xor(outer[i], 0x5c) == Filled(key, i) {
      XorBack(Filled(key, i), 0x36);
      XorBack(Filled(key, i), 0x5c);
    }
  }

  /** A key longer than a block stands for its digest. */
  lemma HmacLongKey<H(!new)>(core: Core<H>, key: seq<byte>, msg: seq<byte>)
    requires |key| > 64 && forall h :: |core.bytes(h)| == 32
    ensures Hmac(core, key, msg) == Hmac(core, Digest(core, key), msg)
  {
    hide Digest, KeyPad;
    DigestSize(core, key);
  }
}
