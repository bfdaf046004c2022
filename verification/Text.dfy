/** Text shared by the JSON and the HTTP parsers: digits, spaces, the order of strings, and what a parse gives. */
module Text {
  import opened Words

  /** What was read and the input after it, or why nothing was. */
  datatype Outcome<+T, +E> = Ok(value: T, rest: string) | Failed(reason: E)

  predicate IsDigit(c: char)
  {
    '0' <= c <= '9'
  }

  predicate AllDigits(t: string)
  {
    forall k :: 0 <= k < |t| ==> IsDigit(t[k])
  }

  function DigitChar(d: nat): (c: char)
    requires d < 10
    ensures IsDigit(c) && c as int == '0' as int + d
  {
    '0' + d as char
  }

  function NatText(n: nat): (t: string)
    ensures |t| > 0 && AllDigits(t)
    ensures t[0] == '0' ==> n == 0 && |t| == 1
  {
    if n < 10 then [DigitChar(n)] else NatText(n / 10) + [DigitChar(n % 10)]
  }

  function NatValue(t: string): nat
    requires AllDigits(t)
  {
    if t == "" then 0 else 10 * NatValue(t[..|t| - 1]) + (t[|t| - 1] as int - '0' as int)
  }

  lemma {:induction false} NatRoundTrip(n: nat)
    ensures NatValue(NatText(n)) == n
    decreases n
  {
    var t := NatText(n);
    if n >= 10 {
      NatRoundTrip(n / 10);
      assert t[..|t| - 1] == NatText(n / 10);
    } else {
      assert t[..|t| - 1] == "";
    }
  }

  /** Decimal: a digit stands for its place in "0123456789", and each place to the left for ten times more. */
  lemma {:induction false} NatValueMeans(x: string, y: string, i: nat)
    requires AllDigits(x) && AllDigits(y) && i < 10
    ensures NatValue(x + y) == NatValue(x) * Pow(10, |y|) + NatValue(y)
    ensures var c := "0123456789"[i]; IsDigit(c) && NatValue([c]) == i && c == DigitChar(i)
    decreases |y|
  {
    var c := "0123456789"[i];
    assert [c][..0] == "";
    if y == "" {
      assert x + y == x;
    } else {
      var n := |y| - 1;
      NatValueMeans(x, y[..n], i);
      assert (x + y)[..|x| + n] == x + y[..n];
      TenTimes(NatValue(x), Pow(10, n));
    }
  }

  lemma TenTimes(a: nat, b: nat)
    ensures 10 * (a * b) == a * (10 * b)
  {
  }

  /** Tab, line feed, vertical tab, form feed, carriage return and blank. */
  lemma SpacesAre(c: char)
    ensures IsSpace(c) <==> c as int in {9, 10, 11, 12, 13, 32}
  {
  }

  predicate IsSpace(c: char)
  {
    c == ' ' || '\t' <= c <= '\r'
  }

  /** The order in which a map keeps its keys. */
  predicate Less(a: string, b: string)
  {
    b != "" && (a == "" || a[0] < b[0] || (a[0] == b[0] && Less(a[1..], b[1..])))
  }

  /** Equal up to k, where a ends or has the smaller character. */
  predicate DiffersAt(a: string, b: string, k: nat)
  {
    k <= |a| && k < |b| && a[..k] == b[..k] && (k == |a| || a[k] < b[k])
  }

  lemma {:induction false} LessMeans(a: string, b: string)
    ensures Less(a, b) <==> exists k: nat :: DiffersAt(a, b, k)
  {
    if a == "" {
      if b != "" { assert DiffersAt(a, b, 0); }
    } else if b == "" {
    } else if a[0] != b[0] {
      if a[0] < b[0] { assert DiffersAt(a, b, 0); }
      forall k: nat | k > 0 ensures !DiffersAt(a, b, k) {
        if k <= |a| && k < |b| { assert a[..k][0] == a[0] && b[..k][0] == b[0]; }
      }
    } else {
      LessMeans(a[1..], b[1..]);
      if k: nat :| DiffersAt(a[1..], b[1..], k) {
        assert a[..k + 1] == [a[0]] + a[1..][..k] && b[..k + 1] == [b[0]] + b[1..][..k];
        assert DiffersAt(a, b, k + 1);
      }
      if k: nat :| DiffersAt(a, b, k) {
        assert a[1..][..k - 1] == a[..k][1..] && b[1..][..k - 1] == b[..k][1..];
        assert DiffersAt(a[1..], b[1..], k - 1);
      }
    }
  }

  lemma {:induction false} LessIrreflexive(a: string)
    ensures !Less(a, a)
  {
    if a == "" {
    } else {
      LessIrreflexive(a[1..]);
    }
  }

  lemma {:induction false} LessTransitive(a: string, b: string, c: string)
    requires Less(a, b) && Less(b, c)
    ensures Less(a, c)
  {
    if a != "" && a[0] == b[0] && b[0] == c[0] { LessTransitive(a[1..], b[1..], c[1..]); }
  }

  lemma {:induction false} LessTotal(a: string, b: string)
    ensures Less(a, b) || a == b || Less(b, a)
  {
    if a != "" && b != "" && a[0] == b[0] {
      LessTotal(a[1..], b[1..]);
      assert a == [a[0]] + a[1..] && b == [b[0]] + b[1..];
    }
  }
}
