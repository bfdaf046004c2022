/** The digest of src/crypto/groestl.c, spelled out byte by byte and step by step. */
module GroestlDigest {
  import opened Words
  import opened Positional
  import opened Groestl

  /** The message, a one bit, zeros and the 64-bit number of blocks, up to a whole number of blocks and no further. */
  ghost predicate IsPadded(msg: seq<byte>, p: seq<byte>)
  {
    |p| % 64 == 0 && |msg| + 9 <= |p| < |msg| + 73 && p[..|msg|] == msg && p[|msg|] == 0x80 &&
    (forall i :: |msg| < i < |p| - 8 ==> p[i] == 0) &&
    Value(256, p[|p| - 8..]) == |p| / 64
  }

  ghost predicate Runs<H(!new)>(core: Core<H>, p: seq<byte>, hs: seq<H>)
  {
    |hs| == |p| / 64 + 1 && hs[0] == core.iv &&
    forall i :: 0 <= i < |p| / 64 ==> hs[i + 1] == core.f512(hs[i], p[64 * i..64 * i + 64])
  }

  lemma PaddedIs(msg: seq<byte>)
    requires |msg| < TWO64
    ensures IsPadded(msg, Padded(msg))
  {
    hide Value, BigEndian;
    var blocks := BlockCount(|msg|);
    var z := SIZE * blocks - |msg| - 1 - LENGTH_FIELD;
    var tail := BigEndian(blocks % TWO64, LENGTH_FIELD);
    var p := Padded(msg);
    DivModUnique(0, TWO64, blocks);
    EightByteValue(blocks);
    assert p[|p| - 8..] == tail && p[..|msg|] == msg && p[|msg|] == 0x80;
    forall i | |msg| < i < |p| - 8 ensures p[i] == 0 { assert p[i] == Zeros(z)[i - |msg| - 1]; }
    DivModUnique(blocks, SIZE, 0);
  }

  lemma {:induction false} DigestedRuns<H(!new)>(core: Core<H>, p: seq<byte>) returns (hs: seq<H>)
    requires |p| % 64 == 0
    ensures Runs(core, p, hs) && hs[|hs| - 1] == Digested(core, core.iv, p)
    decreases |p|
  {
    if p == [] {
      hs := [core.iv];
    } else {
      var q, b := p[..|p| - 64], p[|p| - 64..];
      var before := DigestedRuns(core, q);
      hs := before + [core.f512(before[|before| - 1], b)];
      assert q + b == p;
      DigestedBlock(core, core.iv, q, b);
      forall i | 0 <= i < |p| / 64 ensures hs[i + 1] == core.f512(hs[i], p[64 * i..64 * i + 64]) {
        if i < |q| / 64 {
          assert p[64 * i..64 * i + 64] == q[64 * i..64 * i + 64];
        } else {
          assert p[64 * i..64 * i + 64] == b;
        }
      }
    }
  }

  /** The digest is the output of a run over the padded message. */
  lemma HashRuns<H(!new)>(core: Core<H>, msg: seq<byte>) returns (p: seq<byte>, hs: seq<H>)
    requires |msg| < TWO64
    ensures IsPadded(msg, p) && Runs(core, p, hs) && Hash(core, msg) == core.output(hs[|hs| - 1])
  {
    hide Digested, Padded, Runs;
    p := Padded(msg);
    PaddedIs(msg);
    hs := DigestedRuns(core, p);
    RunsSome(core, p, hs);
  }

  lemma RunsSome<H(!new)>(core: Core<H>, p: seq<byte>, hs: seq<H>)
    requires Runs(core, p, hs)
    ensures |hs| > 0
  {
  }
}
