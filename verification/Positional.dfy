/** Fixed-width big-endian numerals in any base, the common ground of base58 blocks and byte strings. */
module Positional {
  import opened Words

  predicate AreDigits(base: nat, ds: seq<nat>)
  {
    forall k :: 0 <= k < |ds| ==> ds[k] < base
  }

  function Value(base: nat, ds: seq<nat>): nat
  {
    if ds == [] then 0 else Value(base, ds[..|ds| - 1]) * base + ds[|ds| - 1]
  }

  /** The part of `v` above its low digit, and that digit. */
  function High(v: nat, base: nat): (h: nat)
    requires base > 0
    ensures h * base + Low(v, base) == v
  {
    v / base
  }

  function Low(v: nat, base: nat): (d: nat)
    requires base > 0
    ensures d < base
  {
    v % base
  }

  /** The `n` low digits of `v`, most significant first. */
  function Digits(base: nat, v: nat, n: nat): (ds: seq<nat>)
    requires base > 0
    ensures |ds| == n && AreDigits(base, ds)
  {
    hide High, Low;
    if n == 0 then [] else Digits(base, High(v, base), n - 1) + [Low(v, base)]
  }

  lemma {:induction false} ValueBound(base: nat, ds: seq<nat>)
    requires base > 0 && AreDigits(base, ds)
    ensures Value(base, ds) < Pow(base, |ds|)
  {
    if ds == [] {
    } else {
      var init := ds[..|ds| - 1];
      ValueBound(base, init);
      BelowProduct(Value(base, init), Pow(base, |init|), base, ds[|ds| - 1]);
    }
  }

  lemma BelowProduct(v: nat, p: nat, base: nat, d: nat)
    requires v < p && d < base
    ensures v * base + d < base * p
  {
    MulMonotone(v + 1, p, base);
  }

  lemma DivBelow(v: nat, p: nat, base: nat)
    requires base > 0 && v < base * p
    ensures High(v, base) < p
  {
    hide High, Low;
    if p <= High(v, base) {
      MulMonotone(p, High(v, base), base);
    }
  }

  lemma {:induction false} ValueOfDigits(base: nat, v: nat, n: nat)
    requires base > 0 && v < Pow(base, n)
    ensures Value(base, Digits(base, v, n)) == v
  {
    hide High, Low;
    if n == 0 {
    } else {
      DivBelow(v, Pow(base, n - 1), base);
      ValueOfDigits(base, High(v, base), n - 1);
      var ds := Digits(base, v, n);
      assert ds[..|ds| - 1] == Digits(base, High(v, base), n - 1);
    }
  }

  lemma {:induction false} DigitsOfValue(base: nat, ds: seq<nat>)
    requires base > 0 && AreDigits(base, ds)
    ensures Digits(base, Value(base, ds), |ds|) == ds
  {
    if ds == [] {
    } else {
      var init, d := ds[..|ds| - 1], ds[|ds| - 1];
      DigitsOfValue(base, init);
      DivModUnique(Value(base, init), base, d);
      assert ds == init + [d];
    }
  }

  lemma {:induction false} ValueConcat(base: nat, xs: seq<nat>, ys: seq<nat>)
    ensures Value(base, xs + ys) == Value(base, xs) * Pow(base, |ys|) + Value(base, ys)
  {
    if ys == [] {
      assert xs + ys == xs;
    } else {
      var init, d := ys[..|ys| - 1], ys[|ys| - 1];
      ValueConcat(base, xs, init);
      assert (xs + ys)[..|xs + ys| - 1] == xs + init;
      Regroup(Value(base, xs), Pow(base, |init|), Value(base, init), base);
    }
  }

  lemma Regroup(v: int, p: int, w: int, base: int)
    ensures (v * p + w) * base == v * (base * p) + w * base
  {
    assert (v * p) * base == v * (base * p);
  }

  /** Putting a digit in front adds it at its own weight. */
  lemma ValueCons(base: nat, d: nat, ys: seq<nat>)
    ensures Value(base, [d] + ys) == d * Pow(base, |ys|) + Value(base, ys)
  {
    ValueConcat(base, [d], ys);
    assert [d][..0] == [];
    assert Value(base, [d]) == d;
  }

  /** Splitting off the low digit, the step of an encoding loop. */
  lemma DigitsUnfold(base: nat, v: nat, n: nat)
    requires base > 0 && n > 0
    ensures Digits(base, v, n) == Digits(base, High(v, base), n - 1) + [Low(v, base)]
  {
  }

  lemma {:induction false} DigitsOfZero(base: nat, n: nat)
    requires base > 0
    ensures Digits(base, 0, n) == seq(n, _ => 0)
  {
    if n == 0 {
    } else {
      DigitsOfZero(base, n - 1);
      DivModUnique(0, base, 0);
    }
  }

  /** Asking for fewer digits keeps the low ones. */
  lemma {:induction false} DigitsSuffix(base: nat, v: nat, n: nat, m: nat)
    requires base > 0 && m <= n
    ensures Digits(base, v, n)[n - m..] == Digits(base, v, m)
  {
    hide High, Low;
    if m == 0 {
    } else {
      DigitsSuffix(base, High(v, base), n - 1, m - 1);
      DigitsUnfold(base, v, n);
      DigitsUnfold(base, v, m);
    }
  }

  /** A number given by its high and low part is written part by part. */
  lemma DigitsConcat(base: nat, h: nat, n: nat, l: nat, m: nat)
    requires base > 0 && h < Pow(base, n) && l < Pow(base, m)
    ensures h * Pow(base, m) + l >= 0
    ensures Digits(base, h * Pow(base, m) + l, n + m) == Digits(base, h, n) + Digits(base, l, m)
  {
    hide Pow, Digits, Value;
    var ds := Digits(base, h, n) + Digits(base, l, m);
    ValueConcat(base, Digits(base, h, n), Digits(base, l, m));
    ValueOfDigits(base, h, n);
    ValueOfDigits(base, l, m);
    DigitsOfValue(base, ds);
  }

  /** The last n bytes of a number, most significant first. */
  function BigEndian(v: nat, n: nat): (s: seq<byte>)
    ensures |s| == n
  {
    Digits(256, v, n)
  }

  lemma FourBytes()
    ensures Pow(256, 4) == TWO32
  {
  }

  /** Eight bytes hold every 64-bit word. */
  lemma EightByteValue(v: nat)
    requires v < TWO64
    ensures Value(256, BigEndian(v, 8)) == v
  {
    assert Pow(256, 8) == TWO64 by {
      FourBytes();
      PowAdd(256, 4, 4);
    }
    ValueOfDigits(256, v, 8);
  }
}
