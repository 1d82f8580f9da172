/** Byte strings of the tar format: zero padding, sums, and numbers written as octal or decimal digits. */
module TarBytes {
  import opened Prelude
  import opened Utf8Names

  type Bytes = seq<Byte>

  const SPACE: Byte := 0x20
  const MINUS: Byte := 0x2D
  const ZERO: Byte := 0x30

  function Zeros(n: nat): (z: Bytes)
    ensures |z| == n && forall i :: 0 <= i < n ==> z[i] == 0
  {
    seq(n, _ => 0)
  }

  function Sum(s: Bytes): nat {
    if s == [] then 0 else s[0] + Sum(s[1..])
  }

  lemma {:induction false} SumConcat(a: Bytes, b: Bytes)
    ensures Sum(a + b) == Sum(a) + Sum(b)
  {
    if a == [] {
      assert a + b == b;
    } else {
      SumConcat(a[1..], b);
      assert (a + b)[1..] == a[1..] + b;
    }
  }

  lemma {:induction false} SumBound(s: Bytes)
    ensures Sum(s) <= 255 * |s|
  {
    if s != [] { SumBound(s[1..]); }
  }

  /** The position of the first byte of `s` equal to `b`, or |s|. */
  function IndexOf(s: Bytes, b: Byte): (i: nat)
    ensures i <= |s| && (i < |s| ==> s[i] == b) && b !in s[..i]
  {
    if s == [] || s[0] == b then 0 else
      assert s == [s[0]] + s[1..];
      1 + IndexOf(s[1..], b)
  }

  lemma {:induction false} IndexOfAppend(a: Bytes, b: Byte, rest: Bytes)
    requires b !in a
    ensures IndexOf(a + [b] + rest, b) == |a|
  {
    var s := a + [b] + rest;
    if a != [] {
      IndexOfAppend(a[1..], b, rest);
      assert s[1..] == a[1..] + [b] + rest;
    }
  }

  function Power(base: nat, e: nat): (p: nat)
    ensures base > 0 ==> p > 0
  {
    if e == 0 then 1 else base * Power(base, e - 1)
  }

  /** The digits of `n` in the given base, most significant first, without leading zeros. */
  function Digits(n: nat, base: nat): (d: Bytes)
    requires 2 <= base <= 10
    ensures |d| > 0 && (n > 0 ==> d[0] != ZERO)
    ensures forall i :: 0 <= i < |d| ==> ZERO <= d[i] < ZERO + base
  {
    if n < base then [ZERO + n] else Digits(n / base, base) + [ZERO + n % base]
  }

  function Shifted(high: nat, base: nat, digit: nat): nat { base * high + digit }

  /** The number a run of digits stands for; None when a byte is not a digit of the base. */
  function ParseDigits(d: Bytes, base: nat): Option<nat>
    requires 2 <= base <= 10
  {
    if d == [] then Some(0) else
      var last := d[|d| - 1];
      match ParseDigits(d[..|d| - 1], base)
      case Some(high) => if ZERO <= last < ZERO + base then Some(Shifted(high, base, last - ZERO)) else None
      case None => None
  }

  lemma ParseAppend(d: Bytes, digit: nat, base: nat, high: nat)
    requires 2 <= base <= 10 && digit < base
    requires ParseDigits(d, base) == Some(high)
    ensures ParseDigits(d + [ZERO + digit], base) == Some(Shifted(high, base, digit))
  {
    hide Shifted;
    var e := d + [ZERO + digit];
    assert e[..|e| - 1] == d;
  }

  lemma {:induction false} DigitsParseBack(n: nat, base: nat)
    requires 2 <= base <= 10
    ensures ParseDigits(Digits(n, base), base) == Some(n)
  {
    if n < base {
      ParseAppend([], n, base, 0);
      assert [] + [ZERO + n] == Digits(n, base);
    } else {
      DigitsParseBack(n / base, base);
      DigitsParseBackStep(n, base);
    }
  }

  lemma DigitsParseBackStep(n: nat, base: nat)
    requires 2 <= base <= 10 && n >= base
    requires ParseDigits(Digits(n / base, base), base) == Some(n / base)
    ensures ParseDigits(Digits(n, base), base) == Some(n)
  {
    hide ParseDigits, Shifted;
    QuotientAndRemainder(n, base);
    ParseAppend(Digits(n / base, base), n % base, base, n / base);
  }

  lemma QuotientAndRemainder(n: nat, base: nat)
    requires base > 0
    ensures n == Shifted(n / base, base, n % base) && 0 <= n % base < base
  {
  }

  lemma {:induction false} LeadingZerosDoNotCount(k: nat, d: Bytes, base: nat)
    requires 2 <= base <= 10
    ensures ParseDigits(seq(k, _ => ZERO) + d, base) == ParseDigits(d, base)
  {
    var z: Bytes := seq(k, _ => ZERO);
    if d == [] {
      assert z + d == z;
      if k > 0 {
        LeadingZerosDoNotCount(k - 1, d, base);
        assert z[..k - 1] == seq(k - 1, _ => ZERO) + d;
      }
    } else {
      LeadingZerosDoNotCount(k, d[..|d| - 1], base);
      assert (z + d)[..k + |d| - 1] == z + d[..|d| - 1];
    }
  }

  lemma PowerStep(base: nat, k: nat)
    requires k > 0
    ensures Power(base, k) == base * Power(base, k - 1)
  {
  }

  lemma PowerOfNone(base: nat)
    ensures Power(base, 0) == 1
  {
  }

  /** A number has at most k digits exactly when it is below base^k. */
  lemma {:induction false} DigitCount(n: nat, base: nat, k: nat)
    requires 2 <= base <= 10 && k > 0
    ensures |Digits(n, base)| <= k <==> n < Power(base, k)
  {
    hide Power;
    PowerStep(base, k);
    var p := Power(base, k - 1);
    if n < base {
      assert base <= base * p;
    } else if k == 1 {
      assert p == 1 by { PowerOfNone(base); }
    } else {
      DigitCount(n / base, base, k - 1);
      DivisionCompares(n, base, p);
    }
  }

  lemma DivisionCompares(n: nat, base: nat, p: nat)
    requires base > 0
    ensures n / base < p <==> n < base * p
  {
    var q, r := n / base, n % base;
    assert n == base * q + r;
    if q < p {
      assert base * (q + 1) <= base * p;
    } else {
      assert base * p <= base * q;
    }
  }
}
