/** Machine words, powers and the option type shared by the other modules. */
module Words {
  datatype Option<+T> = None | Some(value: T)

  type byte = x: int | 0 <= x < 256

  const TWO31: int := 0x8000_0000
  const TWO32: int := 0x1_0000_0000
  const TWO64: int := 0x1_0000_0000_0000_0000

  type u32 = x: int | 0 <= x < TWO32
  type u64 = x: int | 0 <= x < TWO64

  /** Bytes in front of what follows, if anything does. */
  function Prepend(head: seq<byte>, rest: Option<seq<byte>>): Option<seq<byte>>
  {
    if rest.Some? then Some(head + rest.value) else None
  }

  function Concat(pieces: seq<seq<byte>>): seq<byte>
  {
    if pieces == [] then [] else Concat(pieces[..|pieces| - 1]) + pieces[|pieces| - 1]
  }

  lemma ConcatLast(pieces: seq<seq<byte>>)
    requires pieces != []
    ensures Concat(pieces) == Concat(pieces[..|pieces| - 1]) + pieces[|pieces| - 1]
  {
  }

  lemma {:induction false} ConcatFirst(pieces: seq<seq<byte>>)
    requires pieces != []
    ensures Concat(pieces) == pieces[0] + Concat(pieces[1..])
    decreases |pieces|
  {
    var n := |pieces| - 1;
    if n == 0 {
      assert Concat(pieces[..0]) == [] && pieces[1..] == [];
    } else {
      hide Concat;
      ConcatFirst(pieces[..n]);
      ConcatLast(pieces);
      ConcatLast(pieces[1..]);
      assert pieces[..n][1..] == pieces[1..][..n - 1] && pieces[1..][n - 1] == pieces[n];
    }
  }

  function Zeros(n: nat): (s: seq<byte>)
    ensures |s| == n
  {
    seq(n, _ => 0)
  }

  /** The left shift, without a word size. */
  function Shl(v: nat, n: nat): nat
  {
    if n == 0 then v else 2 * Shl(v, n - 1)
  }

  lemma {:induction false} ShlSum(v: nat, w: nat, n: nat)
    ensures Shl(v + w, n) == Shl(v, n) + Shl(w, n)
  {
    if n == 0 {
    } else {
      ShlSum(v, w, n - 1);
    }
  }

  lemma {:induction false} ShlShl(v: nat, m: nat, n: nat)
    ensures Shl(Shl(v, m), n) == Shl(v, m + n)
  {
    if n == 0 {
    } else {
      ShlShl(v, m, n - 1);
    }
  }

  lemma {:induction false} ShlZero(n: nat)
    ensures Shl(0, n) == 0
  {
    if n == 0 {
    } else {
      ShlZero(n - 1);
    }
  }

  lemma {:induction false} ShlMonotone(v: nat, w: nat, n: nat)
    requires v <= w
    ensures Shl(v, n) <= Shl(w, n)
  {
    if n == 0 {
    } else {
      ShlMonotone(v, w, n - 1);
    }
  }

  lemma {:induction false} ShlGrows(v: nat, m: nat, n: nat)
    requires m <= n
    ensures Shl(v, m) <= Shl(v, n)
  {
    if m == n {
    } else {
      ShlGrows(v, m, n - 1);
    }
  }

  function Pow(b: nat, e: nat): nat
  {
    if e == 0 then 1 else b * Pow(b, e - 1)
  }

  lemma {:induction false} PowPositive(b: nat, e: nat)
    requires b > 0
    ensures Pow(b, e) > 0
  {
    if e == 0 {
    } else {
      PowPositive(b, e - 1);
    }
  }

  lemma {:induction false} PowAdd(b: nat, d: nat, e: nat)
    ensures Pow(b, d + e) == Pow(b, d) * Pow(b, e)
  {
    if d == 0 {
    } else {
      PowAdd(b, d - 1, e);
      assert b * (Pow(b, d - 1) * Pow(b, e)) == (b * Pow(b, d - 1)) * Pow(b, e);
    }
  }

  lemma {:induction false} PowMonotone(b: nat, d: nat, e: nat)
    requires b > 0 && d <= e
    ensures Pow(b, d) <= Pow(b, e)
  {
    if d == e {
    } else {
      PowMonotone(b, d, e - 1);
      MulMonotone(1, b, Pow(b, e - 1));
    }
  }

  lemma MulMonotone(a: int, b: int, c: int)
    requires a <= b && 0 <= c
    ensures a * c <= b * c
  {
    assert (b - a) * c >= 0;
  }

  /** Quotient and remainder of a sum that is already split. */
  lemma DivModUnique(q: nat, d: nat, r: nat)
    requires r < d
    ensures (q * d + r) / d == q && (q * d + r) % d == r
  {
    var n := q * d + r;
    SameQuotient(q, r, n / d, n % d, d);
  }

  lemma SameQuotient(q: int, r: int, q': int, r': int, d: int)
    requires 0 <= r < d && 0 <= r' < d && q * d + r == q' * d + r'
    ensures q == q' && r == r'
  {
    assert (q + 1) * d == q * d + d && (q' + 1) * d == q' * d + d;
    if q < q' {
      MulMonotone(q + 1, q', d);
    } else if q' < q {
      MulMonotone(q' + 1, q, d);
    }
  }

  /** Multiples of the modulus do not matter. */
  lemma ModShift(a: int, q: nat, w: nat)
    requires q > 0
    ensures (q * a + w) % q == w % q
  {
    var k, r := w / q, w % q;
    assert w == k * q + r;
    assert q * a + w == (a + k) * q + r;
    var n := q * a + w;
    SameQuotient(n / q, n % q, a + k, r, q);
  }

  lemma SameRemainder(n: nat, q: nat)
    requires 0 < q <= n
    ensures (n - q) % q == n % q
  {
    ModShift(1, q, n - q);
  }
}
