/** 128-bit products and quotients built from 64-bit and 32-bit words (src/Common/int-util.h). */
module WideArith {
  import opened Words

  /** Schoolbook product of 32-bit halves; every intermediate sum wraps at 64 bits as in the source. */
  method Mul128(multiplier: u64, multiplicand: u64) returns (lo: u64, hi: u64)
    ensures hi * TWO64 + lo == multiplier * multiplicand
  {
    var a, b := multiplier / TWO32, multiplier % TWO32;
    var c, d := multiplicand / TWO32, multiplicand % TWO32;
    HalfProductBound(a, c);
    HalfProductBound(a, d);
    HalfProductBound(b, c);
    HalfProductBound(b, d);
    SplitProduct(a, b, c, d);
    WordProductBound(multiplier, multiplicand);
    lo, hi := AddPartialProducts(a * c, a * d, b * c, b * d);
  }

  /** The carries of the four partial products; ac <= hi is the assertion the source makes. */
  method AddPartialProducts(ac: u64, ad: u64, bc: u64, bd: u64) returns (lo: u64, hi: u64)
    requires ac * TWO64 + (ad + bc) * TWO32 + bd < TWO64 * TWO64
    ensures hi * TWO64 + lo == ac * TWO64 + (ad + bc) * TWO32 + bd
    ensures ac <= hi
  {
    WrappedSum(ad, bc);
    var adbc := (ad + bc) % TWO64;
    var adbcCarry := if adbc < ad then 1 else 0;
    ShiftedHalf(adbc);
    var shifted := (adbc * TWO32) % TWO64;
    WrappedSum(bd, shifted);
    lo := (bd + shifted) % TWO64;
    var loCarry := if lo < bd then 1 else 0;
    var exact := ac + adbc / TWO32 + adbcCarry * TWO32 + loCarry;
    assert exact * TWO64 + lo == ac * TWO64 + (ad + bc) * TWO32 + bd;
    hi := exact % TWO64;
  }

  /** A wrapped sum is smaller than a summand exactly when it lost 2^64. */
  lemma WrappedSum(x: u64, y: u64)
    ensures x + y == (if (x + y) % TWO64 < x then TWO64 else 0) + (x + y) % TWO64
  {
    if x + y < TWO64 {
      DivModUnique(0, TWO64, x + y);
    } else {
      DivModUnique(1, TWO64, x + y - TWO64);
    }
  }

  lemma ShiftedHalf(x: u64)
    ensures (x * TWO32) % TWO64 == (x % TWO32) * TWO32
  {
    DivModUnique(x / TWO32, TWO64, (x % TWO32) * TWO32);
    assert x == (x / TWO32) * TWO32 + x % TWO32;
  }

  lemma HalfProductBound(x: int, y: int)
    requires 0 <= x < TWO32 && 0 <= y < TWO32
    ensures 0 <= x * y < TWO64
  {
    MulMonotone(0, x, y);
    MulMonotone(x, TWO32, y);
  }

  lemma WordProductBound(x: u64, y: u64)
    ensures x * y < TWO64 * TWO64
  {
    MulMonotone(x, TWO64, y);
  }

  lemma SplitProduct(a: int, b: int, c: int, d: int)
    ensures (a * TWO32 + b) * (c * TWO32 + d) == a * c * TWO64 + (a * d + b * c) * TWO32 + b * d
  {
    var x := c * TWO32 + d;
    assert (a * TWO32 + b) * x == (a * TWO32) * x + b * x;
    assert (a * TWO32) * x == (a * x) * TWO32;
    assert a * x == (a * c) * TWO32 + a * d;
    assert b * x == (b * c) * TWO32 + b * d;
  }

  /** The bitwise or of the n low bits. */
  function OrBits(n: nat, x: nat, y: nat): (r: nat)
    ensures r < Shl(1, n)
  {
    if n == 0 then 0 else 2 * OrBits(n - 1, x / 2, y / 2) + if x % 2 == 1 || y % 2 == 1 then 1 else 0
  }

  lemma {:induction false} OrBitsZero(n: nat, y: nat)
    requires y < Shl(1, n)
    ensures OrBits(n, 0, y) == y
  {
    if n == 0 {
    } else {
      OrBitsZero(n - 1, y / 2);
    }
  }

  lemma ThirtyTwo()
    ensures Shl(1, 32) == TWO32
  {
    assert Shl(1, 8) == 0x100;
    ShlShl(1, 8, 8);
    assert Shl(0x100, 8) == 0x1_0000;
    ShlShl(1, 16, 8);
    assert Shl(0x1_0000, 8) == 0x100_0000;
    ShlShl(1, 24, 8);
    assert Shl(0x100_0000, 8) == TWO32;
  }

  function Or(x: u32, y: u32): u32
  {
    ThirtyTwo();
    OrBits(32, x, y)
  }

  lemma OrZero(y: u32)
    ensures Or(0, y) == y
  {
    hide Shl, OrBits;
    ThirtyTwo();
    OrBitsZero(32, y);
  }

  /** The dividend with the remainder or-ed into its high half. */
  function Joined(dividend: u64, remainder: u32): (n: u64)
    ensures n % TWO32 == dividend % TWO32
  {
    DivModUnique(Or(dividend / TWO32, remainder), TWO32, dividend % TWO32);
    Or(dividend / TWO32, remainder) * TWO32 + dividend % TWO32
  }

  /** One digit of a long division in base 2^32: exact, and a digit when the halves do not overlap. */
  method DivWithRemainder(dividend: u64, divisor: u32, remainder: u32) returns (quotient: u64, rest: u32)
    requires divisor != 0
    ensures Joined(dividend, remainder) == quotient * divisor + rest && rest < divisor
    ensures dividend < TWO32 ==> Joined(dividend, remainder) == remainder * TWO32 + dividend
    ensures dividend < TWO32 && remainder < divisor ==> quotient < TWO32
  {
    hide Or;
    OrZero(remainder);
    if dividend < TWO32 { DivModUnique(0, TWO32, dividend); }
    var n := Joined(dividend, remainder);
    rest := n % divisor;
    quotient := n / divisor;
    assert n == quotient * divisor + rest;
    if dividend < TWO32 && remainder < divisor { QuotientFits(quotient, divisor, rest); }
  }

  lemma DistributeTwo(x: int, y: int, base: int, d: int)
    ensures (x * base + y) * d == (x * d) * base + y * d
  {
  }

  lemma QuotientFits(q: nat, d: nat, r: nat)
    requires q * d + r < d * TWO32
    ensures q < TWO32
  {
    if TWO32 <= q { MulMonotone(TWO32, q, d); }
  }

  /** Long division of a 128-bit number by a 32-bit divisor. */
  method Div128By32(dividendHi: u64, dividendLo: u64, divisor: u32)
    returns (quotientHi: u64, quotientLo: u64, remainder: u32)
    requires divisor != 0
    ensures dividendHi * TWO64 + dividendLo == (quotientHi * TWO64 + quotientLo) * divisor + remainder
    ensures remainder < divisor
  {
    hide Joined;
    var q3, r3 := DivWithRemainder(dividendHi / TWO32, divisor, 0);
    var q2, r2 := DivWithRemainder(dividendHi % TWO32, divisor, r3);
    var q1, r1 := DivWithRemainder(dividendLo / TWO32, divisor, r2);
    var q0, r0 := DivWithRemainder(dividendLo % TWO32, divisor, r1);
    quotientHi := q3 * TWO32 + q2;
    quotientLo := q1 * TWO32 + q0;
    remainder := r0;
    DistributeTwo(q3, q2, TWO32, divisor);
    DistributeTwo(q1, q0, TWO32, divisor);
    DistributeTwo(quotientHi, quotientLo, TWO64, divisor);
  }
}
