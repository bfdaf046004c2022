/** Variable-length integers: seven bits a byte, low group first (src/Common/varint.h, src/Common/StreamTools.cpp). */
module Varint {
  import opened Words

  /** The encoding as a value: every group but the last carries the continuation bit. */
  function Encode(v: nat): (s: seq<byte>)
    ensures |s| > 0 && s[|s| - 1] < 128
  {
    if v < 128 then [v] else [v % 128 + 128] + Encode(v / 128)
  }

  /** What a read reports: the bytes consumed and the value so far, or one of the two error codes. */
  datatype ReadResult = Overflow | NonCanonical | Read(count: nat, value: nat)

  /** The reader without shifts: a value of `bits` bits is a low group and a value of `bits - 7` bits. */
  function Decode(bits: nat, s: seq<byte>, first: bool): (r: ReadResult)
    ensures r.Read? ==> r.count <= |s|
    decreases |s|
  {
    if s == [] then Read(0, 0)
    else if bits <= 7 && s[0] >= Shl(1, bits) then Overflow
    else if s[0] == 0 && !first then NonCanonical
    else if s[0] < 128 then Read(1, s[0])
    else match Decode(if bits < 7 then 0 else bits - 7, s[1..], false)
      case Read(n, v) => Read(n + 1, s[0] % 128 + 128 * v)
      case error => error
  }

  predicate Terminated(r: ReadResult, s: seq<byte>)
  {
    r.Read? && 0 < r.count <= |s| && s[r.count - 1] < 128
  }

  // ----- the loops of varint.h -----

  method WriteVarint(v: nat) returns (dest: seq<byte>)
    ensures dest == Encode(v)
  {
    hide Encode;
    dest := [];
    var i: nat := v;
    while i >= 0x80
      invariant dest + Encode(i) == Encode(v)
    {
      var group: byte := i % 0x80 + 0x80;
      EncodeUnfold(i);
      assert dest + ([group] + Encode(i / 0x80)) == dest + [group] + Encode(i / 0x80);
      dest := dest + [group];
      i := i / 0x80;
    }
    EncodeUnfold(i);
    dest := dest + [i];
  }

  lemma EncodeUnfold(v: nat)
    ensures Encode(v) == if v < 128 then [v] else [v % 128 + 128] + Encode(v / 128)
  {
  }

  /** `prefix` bytes holding `low` have been read; put the result for the rest after them. */
  function Resume(low: nat, shift: nat, prefix: nat, r: ReadResult): ReadResult
  {
    match r
    case Read(n, v) => Read(prefix + n, low + Shl(v, shift))
    case error => error
  }

  /** The loop of read_varint<bits>: `i` stays below 2^shift, so the or-ed group is added. */
  method ReadVarint(bits: nat, s: seq<byte>) returns (r: ReadResult)
    ensures r == Decode(bits, s, true)
  {
    hide Decode;
    var read: nat, i: nat, shift: nat := 0, 0, 0;
    ghost var rest := s;
    while read < |s|
      invariant read <= |s| && shift == 7 * read && i < Shl(1, shift)
      invariant shift == 0 || shift < bits
      invariant rest == s[read..]
      invariant Decode(bits, s, true) == Resume(i, shift, read, Decode(bits - shift, rest, shift == 0))
    {
      var b := s[read];
      RefusedByte(bits - shift, rest, shift == 0);
      if shift + 7 >= bits && b >= Shl(1, bits - shift) {
        return Overflow;
      }
      if b == 0 && shift != 0 {
        return NonCanonical;
      }
      if b < 128 {
        LastGroup(i, shift, read, bits - shift, rest, shift == 0);
        return Read(read + 1, i + Shl(b % 128, shift));
      }
      NextGroup(i, shift, read, bits - shift, rest, shift == 0);
      GroupFits(i, b % 128, shift);
      i := i + Shl(b % 128, shift);
      read := read + 1;
      shift := shift + 7;
      rest := rest[1..];
    }
    EndOfInput(i, shift, read, bits - shift, shift == 0);
    return Read(read, i);  // end of input
  }

  lemma Shl7(v: nat)
    ensures Shl(v, 7) == 128 * v
  {
    assert Shl(v, 1) == 2 * v;
    assert Shl(v, 2) == 4 * v;
    assert Shl(v, 3) == 8 * v;
    assert Shl(v, 4) == 16 * v;
    assert Shl(v, 5) == 32 * v;
    assert Shl(v, 6) == 64 * v;
  }

  lemma GroupFits(i: nat, g: nat, shift: nat)
    requires i < Shl(1, shift) && g < 128
    ensures i + Shl(g, shift) < Shl(1, shift + 7)
  {
    ShlMonotone(g, 127, shift);
    ShlSum(127, 1, shift);
    Shl7(1);
    ShlShl(1, 7, shift);
  }

  lemma EndOfInput(low: nat, shift: nat, prefix: nat, bits: nat, first: bool)
    ensures Resume(low, shift, prefix, Decode(bits, [], first)) == Read(prefix, low)
  {
    ShlZero(shift);
  }

  /** The two error codes, in the order the source tests for them. */
  lemma RefusedByte(bits: nat, s: seq<byte>, first: bool)
    requires s != []
    ensures bits <= 7 && s[0] >= Shl(1, bits) ==> Decode(bits, s, first) == Overflow
    ensures !(bits <= 7 && s[0] >= Shl(1, bits)) && s[0] == 0 && !first ==> Decode(bits, s, first) == NonCanonical
  {
  }

  /** The group without a continuation bit ends the number. */
  lemma LastGroup(low: nat, shift: nat, prefix: nat, bits: nat, s: seq<byte>, first: bool)
    requires s != [] && s[0] < 128
    requires !(bits <= 7 && s[0] >= Shl(1, bits)) && !(s[0] == 0 && !first)
    ensures Resume(low, shift, prefix, Decode(bits, s, first)) == Read(prefix + 1, low + Shl(s[0] % 128, shift))
  {
    assert s[0] % 128 == s[0];
  }

  /** A continuation byte moves seven bits from the rest to the part already read. */
  lemma NextGroup(low: nat, shift: nat, prefix: nat, bits: nat, s: seq<byte>, first: bool)
    requires s != [] && s[0] >= 128
    requires !(bits <= 7 && s[0] >= Shl(1, bits))
    ensures bits > 7
    ensures Resume(low, shift, prefix, Decode(bits, s, first)) ==
            Resume(low + Shl(s[0] % 128, shift), shift + 7, prefix + 1, Decode(bits - 7, s[1..], false))
  {
    ContinuationNeedsRoom(bits, s[0]);
    var t := Decode(bits - 7, s[1..], false);
    if t.Read? {
      ShiftedTail(s[0] % 128, shift, t.value);
    }
  }

  lemma ShiftedTail(g: nat, shift: nat, v: nat)
    ensures Shl(g + 128 * v, shift) == Shl(g, shift) + Shl(v, shift + 7)
  {
    Shl7(v);
    ShlSum(g, Shl(v, 7), shift);
    ShlShl(v, 7, shift);
  }

  // ----- canonical codes, both directions -----

  lemma HighGroups(bits: nat, v: nat)
    requires 128 <= v < Shl(1, bits)
    ensures bits > 7 && v / 128 < Shl(1, bits - 7)
  {
    hide Shl;
    Shl7(1);
    if bits <= 7 { ShlGrows(1, bits, 7); }
    Shl7(Shl(1, bits - 7));
    ShlShl(1, bits - 7, 7);
  }

  /** Reading what was written gives the value and the exact length, whatever follows. */
  lemma {:induction false} DecodeEncode(bits: nat, v: nat, rest: seq<byte>, first: bool)
    requires v < Shl(1, bits)
    requires first || v > 0
    ensures Decode(bits, Encode(v) + rest, first) == Read(|Encode(v)|, v)
    decreases v
  {
    hide Shl, Encode, Decode;
    EncodeUnfold(v);
    if v < 128 {
      DecodeLast(bits, v, rest, first);
    } else {
      HighGroups(bits, v);
      DecodeEncode(bits - 7, v / 128, rest, false);
      var tail := Encode(v / 128) + rest;
      assert Encode(v) + rest == [v % 128 + 128] + tail;
      DecodeGroup(bits, v % 128, tail, first);
    }
  }

  lemma DecodeLast(bits: nat, v: nat, rest: seq<byte>, first: bool)
    requires v < 128 && v < Shl(1, bits) && (first || v > 0)
    ensures Decode(bits, [v] + rest, first) == Read(1, v)
  {
    hide Shl;
  }

  lemma DecodeGroup(bits: nat, g: nat, tail: seq<byte>, first: bool)
    requires bits > 7 && g < 128
    ensures Decode(bits, [g + 128] + tail, first) ==
            match Decode(bits - 7, tail, false) case Read(n, v) => Read(n + 1, g + 128 * v) case error => error
  {
    hide Shl;
    assert ([g + 128] + tail)[1..] == tail;
    assert (g + 128) % 128 == g;
  }

  /** Whatever is accepted and terminated is the encoding of the value read, and the value fits. */
  lemma {:induction false} EncodeDecode(bits: nat, s: seq<byte>, first: bool, n: nat, v: nat)
    requires Decode(bits, s, first) == Read(n, v)
    requires 0 < n <= |s| && s[n - 1] < 128
    ensures s[..n] == Encode(v) && v < Shl(1, bits) && (first || v > 0)
    decreases |s|
  {
    hide Shl;
    if s[0] < 128 {
      LowGroup(bits, s[0]);
      EncodeUnfold(s[0]);
    } else {
      ContinuationNeedsRoom(bits, s[0]);
      var t := Decode(bits - 7, s[1..], false);
      EncodeDecode(bits - 7, s[1..], false, n - 1, t.value);
      EncodeStep(s[0], t.value);
      PrefixStep(s, n - 1);
      JoinedGroups(bits, s[0] % 128, t.value);
    }
  }

  lemma LowGroup(bits: nat, b: nat)
    requires b < 128 && !(bits <= 7 && b >= Shl(1, bits))
    ensures b < Shl(1, bits)
  {
    hide Shl;
    Shl7(1);
    if bits > 7 { ShlGrows(1, 7, bits); }
  }

  lemma JoinedGroups(bits: nat, g: nat, v: nat)
    requires bits > 7 && g < 128 && v < Shl(1, bits - 7)
    ensures g + 128 * v < Shl(1, bits)
  {
    hide Shl;
    Shl7(Shl(1, bits - 7));
    ShlShl(1, bits - 7, 7);
  }

  lemma PrefixStep(s: seq<byte>, n: nat)
    requires n < |s|
    ensures s[..n + 1] == [s[0]] + s[1..][..n]
  {
  }

  lemma EncodeStep(b: byte, v: nat)
    requires b >= 128 && v > 0
    ensures Encode(b % 128 + 128 * v) == [b] + Encode(v)
  {
    DivModUnique(v, 128, b % 128);
  }

  /** A continuation byte that passes the overflow test leaves at least one more bit to fill. */
  lemma ContinuationNeedsRoom(bits: nat, b: byte)
    requires b >= 128 && !(bits <= 7 && b >= Shl(1, bits))
    ensures bits > 7
  {
    Shl7(1);
    if bits <= 7 { ShlGrows(1, bits, 7); }
  }

  /** At most ceil(bits / 7) bytes are consumed, and one when bits is zero. */
  lemma {:induction false} DecodeLength(bits: nat, s: seq<byte>, first: bool)
    requires Decode(bits, s, first).Read?
    ensures Decode(bits, s, first).count <= if bits <= 7 then 1 else (bits + 6) / 7
    decreases |s|
  {
    if s != [] && s[0] >= 128 {
      ContinuationNeedsRoom(bits, s[0]);
      DecodeLength(bits - 7, s[1..], false);
    }
  }

  /** A read that stops for lack of input has eaten only continuation bytes. */
  lemma {:induction false} CutOff(bits: nat, s: seq<byte>, first: bool)
    requires Decode(bits, s, first).Read? && !Terminated(Decode(bits, s, first), s)
    ensures Decode(bits, s, first).count == |s| && forall k :: 0 <= k < |s| ==> s[k] >= 128
    decreases |s|
  {
    if s == [] {
    } else {
      var t := Decode(if bits < 7 then 0 else bits - 7, s[1..], false);
      assert t.count > 0 ==> s[1..][t.count - 1] == s[t.count];
      CutOff(if bits < 7 then 0 else bits - 7, s[1..], false);
      assert forall k :: 1 <= k < |s| ==> s[k] == s[1..][k - 1];
    }
  }

  /** No encoding is a proper prefix of another, so distinct values start differently. */
  lemma PrefixFree(v: nat, w: nat, x: seq<byte>, y: seq<byte>)
    requires Encode(v) + x == Encode(w) + y
    ensures v == w && x == y
  {
    var bits := v + w + 1;
    BelowPow(v, bits);
    BelowPow(w, bits);
    DecodeEncode(bits, v, x, true);
    DecodeEncode(bits, w, y, true);
    assert x == (Encode(v) + x)[|Encode(v)|..];
    assert y == (Encode(w) + y)[|Encode(w)|..];
  }

  lemma {:induction false} BelowPow(v: nat, bits: nat)
    requires v < bits
    ensures v < Shl(1, bits)
  {
    if v == 0 { ShlGrows(1, 0, bits); } else { BelowPow(v - 1, bits - 1); }
  }

  /** A value of `bits` bits is written in at most ceil(bits / 7) bytes, and one byte when bits is zero. */
  lemma EncodeLength(bits: nat, v: nat)
    requires v < Shl(1, bits)
    ensures |Encode(v)| <= if bits <= 7 then 1 else (bits + 6) / 7
  {
    DecodeEncode(bits, v, [], true);
    DecodeLength(bits, Encode(v) + [], true);
  }

  // ----- what a read means, in its bytes -----

  /** Seven bits a byte, the i-th with the weight 128 to the i. */
  function Groups(s: seq<byte>): nat
  {
    if s == [] then 0 else s[|s| - 1] % 128 * Pow(128, |s| - 1) + Groups(s[..|s| - 1])
  }

  lemma {:induction false} GroupsFirst(b: byte, s: seq<byte>)
    ensures Groups([b] + s) == b % 128 + 128 * Groups(s)
  {
    var t := [b] + s;
    if s == [] {
      assert t == [b] && t[..0] == [] && Pow(128, 0) == 1;
    } else {
      var n := |s| - 1;
      GroupsFirst(b, s[..n]);
      assert t[..n + 1] == [b] + s[..n];
      assert Pow(128, n + 1) == 128 * Pow(128, n);
      MulAssoc(s[n] % 128, 128, Pow(128, n));
    }
  }

  lemma MulAssoc(a: nat, b: nat, c: nat)
    ensures a * (b * c) == b * (a * c)
  {
  }

  /** Terminated or cut off, the value is that of the groups consumed. */
  lemma {:induction false} ReadMeans(bits: nat, s: seq<byte>, first: bool, n: nat, v: nat)
    requires Decode(bits, s, first) == Read(n, v)
    ensures n <= |s| && v == Groups(s[..n])
    decreases |s|
  {
    hide Shl, Groups;
    if s == [] {
      assert s[..0] == [];
      assert Groups([]) == 0 by { NoGroups(); }
    } else if s[0] < 128 {
      assert s[..1] == [s[0]] + [];
      GroupsFirst(s[0], []);
      NoGroups();
    } else {
      var t := Decode(if bits < 7 then 0 else bits - 7, s[1..], false);
      ReadMeans(if bits < 7 then 0 else bits - 7, s[1..], false, t.count, t.value);
      PrefixStep(s, t.count);
      GroupsFirst(s[0], s[1..][..t.count]);
    }
  }

  lemma NoGroups()
    ensures Groups([]) == 0
  {
  }

  predicate Continues(s: seq<byte>, k: nat)
  {
    k <= |s| && forall j :: 0 <= j < k ==> s[j] >= 128
  }

  /** Byte k is reached, few bits are left and it is too large for them. */
  predicate TooLarge(bits: nat, s: seq<byte>, k: nat)
  {
    k < |s| && Continues(s, k) && bits <= 7 * k + 7 && s[k] >= Shl(1, if bits < 7 * k then 0 else bits - 7 * k)
  }

  /** Byte k is reached, is not the first, is zero, and there was room for it. */
  predicate EmptyGroup(bits: nat, s: seq<byte>, k: nat, first: bool)
  {
    k < |s| && Continues(s, k) && s[k] == 0 && (k > 0 || !first) && (k > 0 ==> bits > 7 * k)
  }

  lemma ContinuesNext(s: seq<byte>, k: nat)
    requires s != [] && s[0] >= 128
    ensures Continues(s, k + 1) <==> Continues(s[1..], k)
  {
    if Continues(s[1..], k) {
      assert forall j :: 1 <= j < k + 1 ==> s[j] == s[1..][j - 1];
    }
    if Continues(s, k + 1) {
      assert forall j :: 0 <= j < k ==> s[1..][j] == s[j + 1];
    }
  }

  /** The two error codes, each exactly where it is given. */
  lemma {:induction false} OverflowExact(bits: nat, s: seq<byte>, first: bool)
    ensures Decode(bits, s, first).Overflow? <==> exists k: nat :: TooLarge(bits, s, k)
    decreases |s|
  {
    hide Shl;
    if s == [] {
    } else if bits <= 7 && s[0] >= Shl(1, bits) {
      assert TooLarge(bits, s, 0);
    } else if s[0] < 128 {
      assert !TooLarge(bits, s, 0);
      assert forall k: nat :: k > 0 ==> !TooLarge(bits, s, k);
    } else {
      ContinuationNeedsRoom(bits, s[0]);
      OverflowExact(bits - 7, s[1..], false);
      TooLargeLater(bits, s, bits - 7, s[1..]);
    }
  }

  lemma TooLargeLater(bits: nat, s: seq<byte>, less: nat, t: seq<byte>)
    requires s != [] && s[0] >= 128 && bits > 7 && less == bits - 7 && t == s[1..]
    ensures (exists k: nat :: TooLarge(bits, s, k)) <==> exists k: nat :: TooLarge(less, t, k)
  {
    hide Shl, Continues;
    if k: nat :| TooLarge(bits, s, k) {
      ContinuesNext(s, k - 1);
      assert TooLarge(less, t, k - 1);
    }
    if k: nat :| TooLarge(less, t, k) {
      ContinuesNext(s, k);
      assert TooLarge(bits, s, k + 1);
    }
  }

  lemma {:induction false} NonCanonicalExact(bits: nat, s: seq<byte>, first: bool)
    ensures Decode(bits, s, first).NonCanonical? <==> exists k: nat :: EmptyGroup(bits, s, k, first)
    decreases |s|
  {
    hide Shl;
    if s == [] {
    } else if bits <= 7 && s[0] >= Shl(1, bits) {
      ShlPositive(bits);
      assert !EmptyGroup(bits, s, 0, first);
    } else if s[0] == 0 && !first {
      assert EmptyGroup(bits, s, 0, first);
    } else if s[0] < 128 {
      assert !EmptyGroup(bits, s, 0, first);
    } else {
      ContinuationNeedsRoom(bits, s[0]);
      NonCanonicalExact(bits - 7, s[1..], false);
      EmptyLater(bits, s, first, bits - 7, s[1..]);
    }
  }

  lemma EmptyLater(bits: nat, s: seq<byte>, first: bool, less: nat, t: seq<byte>)
    requires s != [] && s[0] >= 128 && bits > 7 && less == bits - 7 && t == s[1..]
    ensures (exists k: nat :: EmptyGroup(bits, s, k, first)) <==> exists k: nat :: EmptyGroup(less, t, k, false)
  {
    hide Continues;
    if k: nat :| EmptyGroup(bits, s, k, first) {
      ContinuesNext(s, k - 1);
      assert EmptyGroup(less, t, k - 1, false);
    }
    if k: nat :| EmptyGroup(less, t, k, false) {
      ContinuesNext(s, k);
      assert EmptyGroup(bits, s, k + 1, first);
    }
  }

  lemma ShlPositive(bits: nat)
    ensures Shl(1, bits) > 0
  {
    ShlGrows(1, 0, bits);
  }

  // ----- StreamTools.cpp: the same code over a stream, where running dry is an error -----

  /** What a stream read keeps of a read: only a terminated value counts. */
  function StreamResult(r: ReadResult, s: seq<byte>): Option<ReadResult>
  {
    if Terminated(r, s) then Some(r) else None
  }

  /** readVarint for an unsigned type of `width` bits; None stands for each of the thrown errors. */
  method StreamReadVarint(width: nat, s: seq<byte>) returns (r: Option<ReadResult>)
    requires width >= 8
    ensures r == StreamResult(Decode(width, s, true), s)
  {
    hide Decode;
    var pos: nat, temp: nat, shift: nat := 0, 0, 0;
    ghost var whole, rest := Decode(width, s, true), s;
    while pos < |s|
      invariant pos <= |s| && shift == 7 * pos && shift < width
      invariant rest == s[pos..]
      invariant whole == Resume(temp, shift, pos, Decode(width - shift, rest, shift == 0))
      invariant pos > 0 ==> s[pos - 1] >= 128
    {
      var piece := s[pos];
      RefusedByte(width - shift, rest, shift == 0);
      if shift >= width - 7 && piece >= Shl(1, width - shift) {
        return None;
      }
      if piece < 128 {
        if piece == 0 && shift != 0 {
          return None;
        }
        LastGroup(temp, shift, pos, width - shift, rest, shift == 0);
        return Some(Read(pos + 1, temp + Shl(piece % 128, shift)));
      }
      NextGroup(temp, shift, pos, width - shift, rest, shift == 0);
      temp := temp + Shl(piece % 128, shift);
      pos := pos + 1;
      shift := shift + 7;
      rest := rest[1..];
    }
    EndOfInput(temp, shift, pos, width - shift, shift == 0);
    return None;  // the stream ended inside the value
  }
}
