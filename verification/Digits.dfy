/** Numbers written in digits: the characters, and the value by place. */
module Digits {
  import opened Basics

  const LOWER := "0123456789abcdef"
  const UPPER := "0123456789ABCDEF"

  function Power(base: nat, n: nat): nat {
    if n == 0 then 1 else base * Power(base, n - 1)
  }

  /** The number that digits stand for: each counts by its place. */
  function ValueOf(d: seq<nat>, base: nat): nat {
    if d == [] then 0 else d[0] * Power(base, |d| - 1) + ValueOf(d[1..], base)
  }

  lemma {:induction false} ValueAppend(d: seq<nat>, v: nat, base: nat)
    ensures ValueOf(d + [v], base) == ValueOf(d, base) * base + v
  {
    if d == [] {
      assert [v][1..] == [] && [] + [v] == [v];
      assert Power(base, 0) == 1;
    } else {
      ValueAppend(d[1..], v, base);
      assert (d + [v])[1..] == d[1..] + [v];
      Moved(d[0], Power(base, |d| - 1), ValueOf(d[1..], base), base);
    }
  }

  lemma Moved(d: int, p: int, v: int, base: int)
    ensures (d * p + v) * base == d * (base * p) + v * base
  {
  }

  lemma QuotientLess(n: nat, base: nat)
    requires 2 <= base <= n
    ensures 0 <= n / base < n && 0 <= n % base < base && n / base * base + n % base == n
  {
    var q, r := n / base, n % base;
    assert n == base * q + r;
    MulMonotone(q, 2, base);
  }

  function DigitsOf(n: nat, base: nat): seq<nat>
    requires base >= 2
    decreases n
  {
    if n < base then [n]
    else
      QuotientLess(n, base);
      DigitsOf(n / base, base) + [n % base]
  }

  lemma {:induction false} DigitsValue(n: nat, base: nat)
    requires base >= 2
    ensures ValueOf(DigitsOf(n, base), base) == n && DigitsOf(n, base) != []
    ensures forall k | 0 <= k < |DigitsOf(n, base)| :: DigitsOf(n, base)[k] < base
    decreases n
  {
    if n < base {
      ValueAppend([], n, base);
      assert [] + [n] == [n];
    } else {
      QuotientLess(n, base);
      DigitsValue(n / base, base);
      ValueAppend(DigitsOf(n / base, base), n % base, base);
    }
  }

  lemma QuotientParts(v: nat, base: nat)
    requires base > 0
    ensures v / base >= 0 && 0 <= v % base < base && v / base * base + v % base == v
  {
    if v / base < 0 {
      MulMonotone(base, v / base, -1);
    }
  }

  /** A number in a given number of digits. */
  function Padded(v: nat, base: nat, n: nat): (d: seq<nat>)
    requires base > 0
    decreases n
  {
    if n == 0 then []
    else
      QuotientParts(v, base);
      Padded(v / base, base, n - 1) + [v % base]
  }

  lemma {:induction false} PaddedDigits(v: nat, base: nat, n: nat)
    requires base > 0
    ensures |Padded(v, base, n)| == n && forall k | 0 <= k < n :: Padded(v, base, n)[k] < base
    decreases n
  {
    if n > 0 {
      QuotientParts(v, base);
      var q, r := v / base, v % base;
      PaddedDigits(q, base, n - 1);
    }
  }

  lemma {:induction false} PaddedValue(v: nat, base: nat, n: nat)
    requires base > 0 && v < Power(base, n)
    ensures ValueOf(Padded(v, base, n), base) == v
    decreases n
  {
    if n == 0 {
      assert Power(base, 0) == 1;
    } else {
      QuotientParts(v, base);
      QuotientPart(v, base, Power(base, n - 1));
      var q, r := v / base, v % base;
      assert Padded(v, base, n) == Padded(q, base, n - 1) + [r];
      hide ValueOf;
      hide Padded;
      hide Power;
      PaddedValue(q, base, n - 1);
      ValueAppend(Padded(q, base, n - 1), r, base);
    }
  }

  lemma QuotientPart(v: nat, base: nat, p: nat)
    requires base > 0 && v < base * p
    ensures v / base < p
  {
    QuotientParts(v, base);
    if v / base >= p {
      MulMonotone(base, p, v / base);
    }
  }
}
