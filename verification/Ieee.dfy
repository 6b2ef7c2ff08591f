/** Binary interchange formats and rounding to nearest, after IEEE 754-2008,
    sections 3.4 and 4.3.1. A number is d * 2^s for integers d >= 0 and s. */
module Ieee {
  import opened Basics
  import opened Limbs
  import opened Rounding

  /** A format: `mantissa` fraction bits, and an integer bit of its own if `explicit` is 1. */
  datatype Format = Format(bytes: nat, mantissa: nat, explicit: nat, exponent: nat)
  {
    predicate Valid() {
      && 8 * bytes == 1 + exponent + explicit + mantissa && explicit <= 1
      && 2 <= exponent && exponent + explicit <= 31 && 1 <= mantissa && 8 * bytes <= 160
    }

    /** Twice the bias, less two: the exponent one past the largest finite one. */
    function ExpMax(): int
      requires Valid()
    {
      P(exponent - 1)
    }

    function MinQuantum(): int
      requires Valid()
    {
      2 - ExpMax() - mantissa
    }
  }

  const FORMATS := [
    Format(1, 3, 0, 4), Format(2, 10, 0, 5), Format(2, 7, 0, 8), Format(4, 23, 0, 8), Format(8, 52, 0, 11),
    Format(10, 63, 1, 15), Format(16, 112, 0, 15)]

  lemma FormatsValid()
    ensures forall k | 0 <= k < |FORMATS| :: FORMATS[k].Valid()
  {
  }

  /** Exponent field and significand (with its integer bit) of a datum. */
  datatype Datum = Datum(biased: nat, sig: nat)

  function Infinity(f: Format): Datum
    requires f.Valid()
  {
    Datum(2 * f.ExpMax() - 1, P(f.mantissa))
  }

  function QuietNan(f: Format): Datum
    requires f.Valid()
  {
    Datum(2 * f.ExpMax() - 1, P(f.mantissa) + P(f.mantissa - 1))
  }

  function SignalingNan(f: Format): Datum
    requires f.Valid()
  {
    Datum(2 * f.ExpMax() - 1, P(f.mantissa) + 1)
  }

  /** The bit pattern of a datum, as an integer. */
  function Pattern(f: Format, d: Datum, minus: bool): int
    requires f.Valid()
  {
    (if minus then P(8 * f.bytes - 1) else 0) + Shl(d.biased, f.mantissa + f.explicit)
    + (if f.explicit == 1 || d.sig < P(f.mantissa) then d.sig else d.sig - P(f.mantissa))
  }

  // ---- Rounding to nearest ----

  /** The integer nearest to num/den, the even one of two. */
  function RoundEven(num: nat, den: nat): nat
    requires den > 0
  {
    if num >= 2 * den then 2 + RoundEven(num - 2 * den, den)
    else if 2 * num <= den then 0
    else if 2 * num < 3 * den then 1
    else 2
  }

  /** The nearest integer by quotient and remainder. */
  function Closest(q: int, r: int, den: int): int {
    if 2 * r < den then q else if 2 * r > den then q + 1 else q + q % 2
  }

  /** Quotient and remainder. */
  lemma Divide(num: nat, den: nat) returns (q: int, r: int)
    requires den > 0
    ensures num == den * q + r && 0 <= r < den && q >= 0 && q == num / den && r == num % den
  {
    QuotientRange(num, den);
    q, r := num / den, num % den;
  }

  lemma {:induction false} RoundEvenParts(num: nat, den: nat, q: nat, r: int)
    requires den > 0 && num == den * q + r && 0 <= r < den
    ensures RoundEven(num, den) == Closest(q, r, den)
    decreases q
  {
    if q >= 2 {
      LessTwo(den, q);
      RoundEvenParts(num - 2 * den, den, q - 2, r);
    } else if q == 1 {
      assert num == den + r;
    } else {
      assert num == r;
    }
  }

  lemma LessTwo(den: int, q: int)
    requires den > 0 && q >= 2
    ensures den * (q - 2) == den * q - 2 * den && den * q >= 2 * den
  {
    MulMonotone(den, 2, q);
  }

  /** The same by division. */
  lemma RoundEvenDivision(num: nat, den: nat)
    requires den > 0
    ensures num / den >= 0 && RoundEven(num, den) == Closest(num / den, num % den, den)
  {
    var q, r := Divide(num, den);
    RoundEvenParts(num, den, q, r);
  }

  /** No integer is nearer than the one chosen. */
  lemma RoundEvenNearest(num: nat, den: nat, k: int)
    requires den > 0
    ensures Abs(RoundEven(num, den) * den - num) <= Abs(k * den - num)
    ensures k != RoundEven(num, den) && Abs(RoundEven(num, den) * den - num) == Abs(k * den - num)
            ==> RoundEven(num, den) % 2 == 0
  {
    var q, r := Divide(num, den);
    RoundEvenParts(num, den, q, r);
    ClosestNearest(num, den, q, r, RoundEven(num, den), k);
  }

  lemma ClosestNearest(num: nat, den: nat, q: int, r: int, c: int, k: int)
    requires den > 0 && num == den * q + r && 0 <= r < den && c == Closest(q, r, den)
    ensures Abs(c * den - num) <= Abs(k * den - num)
    ensures k != c && Abs(c * den - num) == Abs(k * den - num) ==> c % 2 == 0
  {
    assert q * den - num == -r && (q + 1) * den - num == den - r;
    if k <= q - 1 {
      MulMonotone(den, k, q - 1);
      assert k * den <= (q - 1) * den == q * den - den;
    } else if k >= q + 2 {
      MulMonotone(den, q + 2, k);
      assert k * den >= (q + 2) * den == q * den + 2 * den;
    }
  }

  function Abs(x: int): nat {
    if x < 0 then -x else x
  }

  /** Cancelling a common factor changes nothing. */
  lemma {:induction false} RoundEvenRatio(num: nat, den: nat, k: nat, num2: nat, den2: nat)
    requires den > 0 && k > 0 && num2 == num * k && den2 == den * k && den2 > 0
    ensures RoundEven(num, den) == RoundEven(num2, den2)
    decreases num
  {
    CompareScaled(num, 2 * den, k);
    CompareScaled(2 * num, den, k);
    CompareScaled(2 * num, 3 * den, k);
    ScaledMultiples(num, den, k);
    if num >= 2 * den {
      RoundEvenRatio(num - 2 * den, den, k, num2 - 2 * den2, den2);
    }
  }

  lemma ScaledMultiples(num: int, den: int, k: int)
    ensures 2 * den * k == 2 * (den * k) && 2 * num * k == 2 * (num * k) && 3 * den * k == 3 * (den * k)
    ensures (num - 2 * den) * k == num * k - 2 * (den * k)
  {
  }

  lemma CompareScaled(a: int, b: int, k: int)
    requires k > 0
    ensures a < b <==> a * k < b * k
    ensures a == b <==> a * k == b * k
  {
    if a < b {
      MulMonotone(k, a, b - 1);
      assert k * (b - 1) == b * k - k;
    } else if a > b {
      MulMonotone(k, b, a - 1);
      assert k * (a - 1) == a * k - k;
    }
  }

  function BitLen(d: nat): nat {
    if d == 0 then 0 else 1 + BitLen(d / 2)
  }

  lemma {:induction false} BitLenRange(d: nat)
    requires d > 0
    ensures BitLen(d) > 0 && P(BitLen(d) - 1) <= d < P(BitLen(d))
  {
    if d > 1 {
      BitLenRange(d / 2);
    }
  }

  /** d * 2^e as a fraction. */
  function Num(d: nat, e: int): nat {
    if e >= 0 then Shl(d, e) else d
  }

  function Den(e: int): (p: nat)
    ensures p > 0
  {
    if e >= 0 then 1 else P(-e)
  }

  function MulNat(a: nat, b: nat): (r: nat)
    ensures r == a * b
  {
    MulMonotone(b, 0, a);
    a * b
  }

  function Max(a: int, b: int): int {
    if a < b then b else a
  }

  /** The exponent of the unit in the last place, for the format at hand. */
  function Quantum(d: nat, s: int, f: Format): int
    requires f.Valid()
  {
    Max(BitLen(d) - 1 + s - f.mantissa, f.MinQuantum())
  }

  /** roundTiesToEven of d * 2^s: the significand is rounded to an integer in units of
      the quantum; one that needs another bit moves up one exponent; what is then too
      large for a finite datum is infinite. */
  function Nearest(d: nat, s: int, f: Format): Datum
    requires f.Valid()
  {
    if d == 0 then Datum(0, 0)
    else
      var q := Quantum(d, s, f);
      var r := RoundEven(Num(d, s - q), Den(s - q));
      if r < P(f.mantissa) then Datum(0, r)
      else
        var carried := r >= P(f.mantissa + 1);
        var biased := q - f.MinQuantum() + 1 + (if carried then 1 else 0);
        if biased >= 2 * f.ExpMax() - 1 then Infinity(f)
        else Datum(biased, if carried then P(f.mantissa) else r)
  }

  // ---- What `Nearest` means ----

  predicate Finite(x: Datum, f: Format)
    requires f.Valid()
  {
    && x.biased <= 2 * f.ExpMax() - 2
    && if x.biased == 0 then x.sig < P(f.mantissa) else P(f.mantissa) <= x.sig < P(f.mantissa + 1)
  }

  /** The value of a finite datum, in units of the smallest subnormal number. */
  function Units(x: Datum): nat {
    if x.biased == 0 then x.sig else Shl(x.sig, x.biased - 1)
  }

  /** d * 2^s in the same units, as a fraction. */
  function UnitNum(d: nat, s: int, f: Format): nat
    requires f.Valid()
  {
    Num(d, s - f.MinQuantum())
  }

  function UnitDen(s: int, f: Format): (p: nat)
    requires f.Valid()
    ensures p > 0
  {
    Den(s - f.MinQuantum())
  }

  /** Changing the exponent scales the fraction. */
  lemma FractionScale(d: nat, e: int, j: nat)
    ensures Num(d, e) * Den(e - j) == Num(d, e - j) * P(j) * Den(e)
  {
    if e - j >= 0 {
      ShlIs(d, e);
      ShlIs(d, e - j);
      PAdd(e - j, j);
      ScaleUp(d, P(e - j), P(j));
    } else if e >= 0 {
      ShlIs(d, e);
      PAdd(e, j - e);
      ScaleUp(d, P(e), P(j - e));
    } else {
      PAdd(j, -e);
      ScaleUp(d, P(j), P(-e));
    }
  }

  lemma ScaleUp(d: int, a: int, b: int)
    ensures d * (a * b) == d * a * b
  {
  }

  /** The significand before rounding lies in [2^m, 2^(m+1)), or below for subnormals. */
  lemma ScaledRange(d: nat, s: int, f: Format)
    requires f.Valid() && d > 0
    ensures var q := Quantum(d, s, f);
      && Num(d, s - q) < P(f.mantissa + 1) * Den(s - q)
      && (q > f.MinQuantum() ==> P(f.mantissa) * Den(s - q) <= Num(d, s - q))
  {
    BitLenRange(d);
    ScaledUpper(d, BitLen(d), s - Quantum(d, s, f), f.mantissa);
    if Quantum(d, s, f) > f.MinQuantum() {
      ScaledLower(d, BitLen(d), s - Quantum(d, s, f), f.mantissa);
    }
  }

  lemma ScaledUpper(d: nat, l: nat, x: int, m: nat)
    requires d < P(l) && l + x <= m + 1
    ensures Num(d, x) < P(m + 1) * Den(x)
  {
    if x >= 0 {
      ShlIs(d, x);
      PAdd(l, x);
      PMonotone(l + x, m + 1);
      ScaledBelow(d, P(l), P(x));
    } else {
      PAdd(m + 1, -x);
      PMonotone(l, m + 1 - x);
    }
  }

  lemma ScaledLower(d: nat, l: nat, x: int, m: nat)
    requires l > 0 && P(l - 1) <= d && l - 1 + x == m
    ensures P(m) * Den(x) <= Num(d, x)
  {
    if x >= 0 {
      ShlIs(d, x);
      PAdd(l - 1, x);
      MulMonotone(P(x), P(l - 1), d);
    } else {
      PAdd(m, -x);
    }
  }

  /** At the smallest normal exponent the same lower bound holds. */
  lemma NormalRange(d: nat, s: int, f: Format)
    requires f.Valid() && d > 0 && Quantum(d, s, f) == BitLen(d) - 1 + s - f.mantissa
    ensures var q := Quantum(d, s, f); P(f.mantissa) * Den(s - q) <= Num(d, s - q)
  {
    BitLenRange(d);
    ScaledLower(d, BitLen(d), s - Quantum(d, s, f), f.mantissa);
  }

  lemma ScaledBelow(d: int, a: int, b: int)
    requires b > 0 && d < a
    ensures d * b < a * b
  {
    CompareScaled(d, a, b);
  }

  lemma RoundEvenRange(num: nat, den: nat, lo: nat, hi: nat)
    requires den > 0 && lo * den <= num < hi * den
    ensures lo <= RoundEven(num, den) <= hi
  {
    var q, r := Divide(num, den);
    RoundEvenParts(num, den, q, r);
    QuotientBelow(num, den, hi);
    QuotientAtLeast(num, den, lo);
  }

  /** A finite result is the rounded significand times the quantum. */
  lemma FiniteUnits(d: nat, s: int, f: Format)
    requires f.Valid() && d > 0 && Nearest(d, s, f) != Infinity(f)
    ensures var q := Quantum(d, s, f);
      && Finite(Nearest(d, s, f), f)
      && Units(Nearest(d, s, f)) == RoundEven(Num(d, s - q), Den(s - q)) * P(q - f.MinQuantum())
  {
    var q, m := Quantum(d, s, f), f.mantissa;
    var j := q - f.MinQuantum();
    var r := RoundEven(Num(d, s - q), Den(s - q));
    ScaledRange(d, s, f);
    RoundEvenRange(Num(d, s - q), Den(s - q), if j > 0 then P(m) else 0, P(m + 1));
    if r >= P(m + 1) {
      ShlIs(P(m), j + 1);
      assert P(j + 1) == 2 * P(j) && r == 2 * P(m);
      ScaleUp(P(m), 2, P(j));
    } else {
      ShlIs(r, j);
    }
  }

  /** Any other finite datum is at least as far away. */
  lemma NearestIsNearest(d: nat, s: int, f: Format, c: Datum)
    requires f.Valid() && d > 0 && Nearest(d, s, f) != Infinity(f) && Finite(c, f)
    ensures var num, den := UnitNum(d, s, f), UnitDen(s, f);
      Abs(Units(Nearest(d, s, f)) * den - num) <= Abs(Units(c) * den - num)
  {
    var q, m := Quantum(d, s, f), f.mantissa;
    var j := q - f.MinQuantum();
    FiniteUnits(d, s, f);
    FractionScale(d, s - f.MinQuantum(), j);
    if c.biased == 0 || c.biased - 1 < j {
      if j == 0 {
        QuantumNearest(d, s, f, c.sig);
      } else {
        BelowQuantum(c, f, j);
        QuantumNearest(d, s, f, P(m));
        ScaledRange(d, s, f);
        FloorOfRange(UnitNum(d, s, f), UnitDen(s, f), Num(d, s - q), Den(s - q), P(j), P(m));
        FartherBelow(Units(c), P(m) * P(j), UnitNum(d, s, f), UnitDen(s, f));
      }
    } else {
      ShlIs(c.sig, c.biased - 1);
      PAdd(c.biased - 1 - j, j);
      ScaleUp(c.sig, P(c.biased - 1 - j), P(j));
      QuantumNearest(d, s, f, c.sig * P(c.biased - 1 - j));
    }
  }

  /** Among the multiples of the quantum the rounded one is nearest. */
  lemma QuantumNearest(d: nat, s: int, f: Format, k: int)
    requires f.Valid() && d > 0
    ensures var q := Quantum(d, s, f); var j := q - f.MinQuantum();
      var num, den := UnitNum(d, s, f), UnitDen(s, f);
      Abs(RoundEven(Num(d, s - q), Den(s - q)) * P(j) * den - num) <= Abs(k * P(j) * den - num)
  {
    var q := Quantum(d, s, f);
    var j := q - f.MinQuantum();
    var r := RoundEven(Num(d, s - q), Den(s - q));
    RoundEvenNearest(Num(d, s - q), Den(s - q), k);
    FractionScale(d, s - f.MinQuantum(), j);
    var num, den, num2, den2 := UnitNum(d, s, f), UnitDen(s, f), Num(d, s - q), Den(s - q);
    ScaledDistance(r, P(j), den, num, den2, num2);
    ScaledDistance(k, P(j), den, num, den2, num2);
    CompareDistances(Abs(r * P(j) * den - num), Abs(k * P(j) * den - num), Abs(r * den2 - num2), Abs(k * den2 - num2),
                     den2, P(j) * den);
  }

  lemma ScaledDistance(k: int, p: int, den: int, num: int, den2: int, num2: int)
    requires p > 0 && den > 0 && den2 > 0 && num * den2 == num2 * p * den
    ensures Abs(k * p * den - num) * den2 == Abs(k * den2 - num2) * (p * den)
  {
    var x, y, w := k * p * den - num, k * den2 - num2, p * den;
    assert x * den2 == k * p * den * den2 - num2 * p * den;
    assert y * w == k * den2 * (p * den) - num2 * (p * den);
    assert k * p * den * den2 == k * den2 * (p * den) by {
      assert k * p * den == k * (p * den);
      assert k * w * den2 == k * den2 * w;
    }
    assert num2 * p * den == num2 * (p * den);
    assert x * den2 == y * w;
    MulMonotone(p, 1, den);
    SameSign(x, y, den2, w);
  }

  lemma SameSign(x: int, y: int, a: int, b: int)
    requires a > 0 && b > 0 && x * a == y * b
    ensures Abs(x) * a == Abs(y) * b
  {
    if x >= 0 {
      MulMonotone(a, 0, x);
      if y < 0 { MulMonotone(b, y, -1); }
    } else {
      MulMonotone(a, x, -1);
      if y > 0 { MulMonotone(b, 1, y); }
      assert (-x) * a == -(x * a) && (-y) * b == -(y * b);
    }
  }

  lemma CompareDistances(a: int, b: int, a2: int, b2: int, den2: int, w: int)
    requires den2 > 0 && w > 0 && a * den2 == a2 * w && b * den2 == b2 * w && a2 <= b2
    ensures a <= b
  {
    MulMonotone(w, a2, b2);
    CompareScaled(b, a, den2);
  }

  /** A datum with a smaller exponent lies below every number with this quantum. */
  lemma BelowQuantum(c: Datum, f: Format, j: nat)
    requires f.Valid() && Finite(c, f) && j > 0 && (c.biased == 0 || c.biased - 1 < j)
    ensures Units(c) <= P(f.mantissa) * P(j)
  {
    var m := f.mantissa;
    if c.biased == 0 {
      MulMonotone(P(m), 1, P(j));
    } else {
      ShlIs(c.sig, c.biased - 1);
      PMonotone(c.biased, j);
      HalfProduct(c.sig, P(c.biased - 1), P(m), P(j));
    }
  }

  lemma HalfProduct(x: int, a: int, y: int, b: int)
    requires x <= 2 * y && 0 < a && 2 * a <= b && 0 <= y
    ensures x * a <= y * b
  {
    MulMonotone(a, x, 2 * y);
    MulMonotone(y, 2 * a, b);
    assert 2 * y * a == y * (2 * a);
  }

  lemma FloorOfRange(num: int, den: int, num2: int, den2: int, p: int, lo: int)
    requires den > 0 && den2 > 0 && p > 0 && num * den2 == num2 * p * den && lo * den2 <= num2
    ensures lo * p * den <= num
  {
    var w := p * den;
    MulMonotone(p, 1, den);
    MulMonotone(w, lo * den2, num2);
    assert num2 * p * den == num2 * w && lo * den2 * w == lo * w * den2 && lo * w == lo * p * den;
    CompareScaled(num, lo * p * den, den2);
  }

  lemma FartherBelow(u: int, lo: int, num: int, den: int)
    requires den > 0 && u <= lo && lo * den <= num
    ensures Abs(lo * den - num) <= Abs(u * den - num)
  {
    MulMonotone(den, u, lo);
  }

  /** The overflow threshold: half a unit in the last place above the largest finite number. */
  lemma InfiniteIff(d: nat, s: int, f: Format)
    requires f.Valid() && d > 0
    ensures Nearest(d, s, f) == Infinity(f)
            <==> 2 * UnitNum(d, s, f) >= (2 * P(f.mantissa + 1) - 1) * P(2 * f.ExpMax() - 3) * UnitDen(s, f)
  {
    var q, m := Quantum(d, s, f), f.mantissa;
    var j, top := q - f.MinQuantum(), 2 * f.ExpMax() - 3;
    var num, den, num2, den2 := UnitNum(d, s, f), UnitDen(s, f), Num(d, s - q), Den(s - q);
    ScaledRange(d, s, f);
    FractionScale(d, s - f.MinQuantum(), j);
    RoundEvenRange(num2, den2, if j > 0 then P(m) else 0, P(m + 1));
    var limit := 2 * P(m + 1) - 1;
    if j > top {
      PMonotone(top + 1, j);
      FloorOfRange(num, den, num2, den2, P(j), P(m));
      AboveLimit(P(m), P(top), P(j), den, num, limit);
    } else if j == top {
      LastCarry(num2, den2, P(m));
      ScaledLimit(num, den, num2, den2, P(j), limit);
    } else {
      PMonotone(j + 1, top);
      assert !(Nearest(d, s, f) == Infinity(f)) by {
        assert q - f.MinQuantum() + 1 + 1 < 2 * f.ExpMax() - 1;
      }
      CeilingOfRange(num, den, num2, den2, P(j), P(m + 1));
      BelowLimit(P(m), P(j), P(top), den, num, limit);
    }
  }

  lemma AboveLimit(pm: int, pt: int, pj: int, den: int, num: int, limit: int)
    requires pm > 0 && pt > 0 && den > 0 && pj >= 2 * pt && num >= pm * pj * den && limit == 4 * pm - 1
    ensures 2 * num >= limit * pt * den
  {
    MulMonotone(pm, 2 * pt, pj);
    MulMonotone(den, pm * (2 * pt), pm * pj);
    MulMonotone(pt, 1, den);
    assert 2 * (pm * (2 * pt) * den) == 4 * pm * pt * den;
    assert limit * pt * den == 4 * pm * pt * den - pt * den;
  }

  lemma BelowLimit(pm: int, pj: int, pt: int, den: int, num: int, limit: int)
    requires pm > 0 && pj > 0 && den > 0 && 2 * pj <= pt && num < 2 * pm * pj * den && limit == 4 * pm - 1
    ensures 2 * num < limit * pt * den
  {
    MulMonotone(pm, 2 * pj, pt);
    MulMonotone(den, pm * (2 * pj), pm * pt);
    assert 2 * pm * pj * den == pm * (2 * pj) * den;
    MulMonotone(pt, 1, den);
    MulMonotone(pt * den, 2 * pm, limit);
    assert limit * pt * den == pt * den * limit && pt * den * (2 * pm) == 2 * (pm * pt * den);
  }

  /** Rounding reaches the next power of two from half a unit below it. */
  lemma LastCarry(num: nat, den: nat, pm: nat)
    requires den > 0 && num < 2 * pm * den && pm > 0
    ensures RoundEven(num, den) >= 2 * pm <==> 2 * num >= (4 * pm - 1) * den
  {
    var q, r := Divide(num, den);
    RoundEvenParts(num, den, q, r);
    QuotientBelow(num, den, 2 * pm);
    LastCarryCases(num, den, pm, q, r);
  }

  lemma LastCarryCases(num: int, den: int, pm: int, q: int, r: int)
    requires den > 0 && num == den * q + r && 0 <= r < den && q < 2 * pm
    ensures q < 2 * pm - 1 ==> 2 * num < (4 * pm - 1) * den - den
    ensures q == 2 * pm - 1 ==> 2 * num - (4 * pm - 1) * den == 2 * r - den
  {
    assert (4 * pm - 1) * den == 4 * (pm * den) - den;
    if q < 2 * pm - 1 {
      MulMonotone(den, q, 2 * pm - 2);
      assert den * (2 * pm - 2) == 2 * (pm * den) - 2 * den;
    } else {
      assert den * (2 * pm - 1) == 2 * (pm * den) - den;
    }
  }

  lemma ScaledLimit(num: int, den: int, num2: int, den2: int, p: int, limit: int)
    requires den > 0 && den2 > 0 && p > 0 && num * den2 == num2 * p * den
    ensures 2 * num >= limit * p * den <==> 2 * num2 >= limit * den2
  {
    var w := p * den;
    MulMonotone(p, 1, den);
    assert num2 * p * den == num2 * w && limit * p * den == limit * w;
    assert 2 * num * den2 == 2 * num2 * w;
    assert limit * w * den2 == limit * den2 * w;
    CompareScaled(2 * num, limit * w, den2);
    CompareScaled(2 * num2, limit * den2, w);
  }

  lemma CeilingOfRange(num: int, den: int, num2: int, den2: int, p: int, hi: int)
    requires den > 0 && den2 > 0 && p > 0 && num * den2 == num2 * p * den && num2 < hi * den2
    ensures num < hi * p * den
  {
    var w := p * den;
    MulMonotone(p, 1, den);
    assert num2 * p * den == num2 * w && hi * p * den == hi * w;
    CompareScaled(num2, hi * den2, w);
    assert hi * den2 * w == hi * w * den2;
    CompareScaled(num, hi * w, den2);
  }
}
