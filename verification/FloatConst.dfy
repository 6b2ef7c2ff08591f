/** float_const for hexadecimal, octal and binary constants, and when its result is
    the nearest number of the format. */
module FloatConst {
  import opened Basics
  import opened Limbs
  import opened Rounding
  import opened Ieee
  import opened FloatPacking
  import opened Floats
  import opened FloatText
  import opened Bcd

  // ---- Correct rounding ----

  /** Bits of d that neither the 192-bit fraction nor the shifted one holds. */
  predicate Lost(d: nat, shift: nat) {
    LowBits(Leading(d), shift) || (BitLen(d) > 192 && LowBits(d, BitLen(d) - 192))
  }

  /** A number whose last bit to keep is bit `g + 1` lies halfway between two that need
      no more bits, and the lower one is even. */
  predicate EvenTie(v: nat, g: nat) {
    if g == 0 then v % 4 == 1 else v % 2 == 0 && EvenTie(v / 2, g - 1)
  }

  lemma {:induction false} EvenTieShifted(v: nat, g: nat)
    ensures EvenTie(v, g) <==> Shr(v, g) % 4 == 1 && !LowBits(v, g)
  {
    if g > 0 {
      EvenTieShifted(v / 2, g - 1);
    }
  }

  /** What is left of d looks like a tie, goes to the even neighbour below, and is no tie. */
  predicate LostTie(d: nat, shift: nat, f: Format)
    requires f.Valid()
  {
    EvenTie(Shr(Leading(d), shift), 191 - 8 * f.bytes) && Lost(d, shift)
  }

  /** The shifted fraction is d * 2^x, cut off at the binary point. */
  lemma LeadingShifted(d: nat, shift: nat)
    requires d > 0
    ensures var x := 192 - BitLen(d) - shift;
      && (x >= 0 ==> Shr(Leading(d), shift) == Shl(d, x) && !Lost(d, shift))
      && (x < 0 ==> Shr(Leading(d), shift) == Shr(d, -x) && (Lost(d, shift) <==> LowBits(d, -x)))
  {
    var l := BitLen(d);
    var x := 192 - l - shift;
    if l <= 192 {
      ShiftedBack(d, 192 - l, shift);
    } else {
      ShiftedTwice(d, l - 192, shift);
    }
  }

  /** Left, then right again. */
  lemma {:induction false} ShiftedBack(d: nat, a: nat, b: nat)
    ensures b <= a ==> Shr(Shl(d, a), b) == Shl(d, a - b) && !LowBits(Shl(d, a), b)
    ensures b > a ==> Shr(Shl(d, a), b) == Shr(d, b - a) && (LowBits(Shl(d, a), b) <==> LowBits(d, b - a))
  {
    if a > 0 && b > 0 {
      ShiftedBack(d, a - 1, b - 1);
      assert Shl(d, a) / 2 == Shl(d, a - 1);
    }
  }

  /** Right, and right again. */
  lemma {:induction false} ShiftedTwice(d: nat, a: nat, b: nat)
    ensures Shr(Shr(d, a), b) == Shr(d, a + b)
    ensures LowBits(d, a + b) <==> LowBits(d, a) || LowBits(Shr(d, a), b)
  {
    if a > 0 {
      ShiftedTwice(d / 2, a - 1, b);
    }
  }

  /** Rounding a truncated number: only a tie can come out differently. */
  lemma RoundEvenTruncated(d: nat, half: int, w: int)
    requires half > 0 && w > 0
    ensures 2 * half * w > 0 && d / w >= 0
    ensures var v := d / w;
      RoundEven(d, 2 * half * w)
      == RoundEven(v, 2 * half) + (if v % (2 * half) == half && v / (2 * half) % 2 == 0 && d % w != 0 then 1 else 0)
  {
    QuotientRange(d, w);
    RoundEvenDivision(d, 2 * half * w);
    RoundEvenDivision(d / w, 2 * half);
    TruncatedParts(d, 2 * half, w);
    CompareHalf(d / w % (2 * half), half, w, d % w);
  }

  lemma TruncatedParts(d: nat, u: int, w: int)
    requires u > 0 && w > 0
    ensures u * w > 0 && d / (u * w) == d / w / u && d % (u * w) == d / w % u * w + d % w
  {
    var v, z := d / w, d % w;
    var q, r := v / u, v % u;
    assert d == w * v + z && v == u * q + r;
    assert d == u * w * q + (r * w + z) by { assert w * (u * q + r) == u * w * q + r * w; }
    FieldBound(z, r, w, u);
    ModUnique(d, u * w, q, r * w + z);
  }

  lemma CompareHalf(r: int, half: int, w: int, z: int)
    requires w > 0 && half > 0 && 0 <= z < w
    ensures r < half ==> 2 * (r * w + z) < 2 * half * w
    ensures r > half ==> 2 * (r * w + z) > 2 * half * w
    ensures r == half ==> 2 * (r * w + z) == 2 * half * w + 2 * z
  {
    if r < half {
      MulMonotone(w, r + 1, half);
      assert w * (r + 1) == r * w + w;
    } else if r > half {
      MulMonotone(w, half + 1, r);
      assert w * (half + 1) == half * w + w;
    }
    assert 2 * half * w == 2 * (half * w);
  }

  /** Rounding in the limbs, near mode, is rounding to even. */
  lemma KeptIsRoundEven(v: nat, half: int)
    requires half > 0
    ensures Rounded(Near, false, v, half) / (2 * half) == RoundEven(v, 2 * half)
  {
    RoundEvenDivision(v, 2 * half);
    RoundedHalves(Near, false, v, half);
    RemainderByTwo(v, half);
    DivDiv(v, half, 2);
  }

  lemma KeptSign(minus: bool, m: nat, shift: nat, f: Format)
    requires f.Valid()
    ensures Kept(Near, minus, m, shift, f) == Kept(Near, false, m, shift, f)
  {
    NearIgnoresSign(minus, Shr(m, shift), 191 - 8 * f.bytes, false);
  }

  lemma {:induction false} NearIgnoresSign(minus: bool, v: nat, g: nat, sticky: bool)
    ensures RoundedBits(Near, minus, v, g, sticky) == RoundedBits(Near, false, v, g, sticky)
  {
    if g > 0 {
      NearIgnoresSign(minus, v / 2, g - 1, sticky || v % 2 == 1);
    }
  }

  lemma EvenTieIs(v: nat, f: Format)
    requires f.Valid()
    ensures v / Unit(f) >= 0
    ensures EvenTie(v, 191 - 8 * f.bytes) <==> v % Unit(f) == Half(f) && v / Unit(f) % 2 == 0
  {
    var g := 191 - 8 * f.bytes;
    EvenTieShifted(v, g);
    ShrIs(v, g);
    LowBitsIs(v, g);
    RemainderByTwo(v, P(g));
    DivDiv(v, P(g), 2);
    QuotientRange(v, Unit(f));
    QuarterParity(v / P(g));
  }

  lemma QuarterParity(c: int)
    ensures c % 4 == 1 <==> c % 2 == 1 && c / 2 % 2 == 0
  {
  }

  /** The significand that the code keeps is the nearest one, or the tie was lost. */
  lemma KeptIsNearest(d: nat, shift: nat, minus: bool, f: Format)
    requires f.Valid() && d > 0
    ensures var e := 8 * f.bytes - BitLen(d) - shift;
      RoundEven(Num(d, e), Den(e)) == Kept(Near, minus, Leading(d), shift, f) + (if LostTie(d, shift, f) then 1 else 0)
  {
    LeadingNormalised(d);
    KeptEven(minus, Leading(d), shift, f);
    if 192 - BitLen(d) - shift < 0 {
      CutIsNearest(d, shift, f);
    } else {
      ExactIsNearest(d, shift, f);
    }
  }

  lemma ExactIsNearest(d: nat, shift: nat, f: Format)
    requires f.Valid() && d > 0 && 192 - BitLen(d) - shift >= 0
    ensures var e := 8 * f.bytes - BitLen(d) - shift;
      RoundEven(Num(d, e), Den(e)) == RoundEven(Shr(Leading(d), shift), Unit(f)) && !LostTie(d, shift, f)
  {
    LeadingShifted(d, shift);
    ScaleToUnits(d, 192 - BitLen(d) - shift, 192 - 8 * f.bytes);
  }

  lemma KeptEven(minus: bool, m: nat, shift: nat, f: Format)
    requires f.Valid()
    ensures Kept(Near, minus, m, shift, f) == RoundEven(Shr(m, shift), Unit(f))
  {
    KeptSign(minus, m, shift, f);
    RoundedBitsIs(Near, false, Shr(m, shift), 191 - 8 * f.bytes);
    KeptIsRoundEven(Shr(m, shift), Half(f));
  }

  lemma CutIsNearest(d: nat, shift: nat, f: Format)
    requires f.Valid() && d > 0 && 192 - BitLen(d) - shift < 0
    ensures var e := 8 * f.bytes - BitLen(d) - shift;
      RoundEven(Num(d, e), Den(e)) == RoundEven(Shr(Leading(d), shift), Unit(f)) + (if LostTie(d, shift, f) then 1 else 0)
  {
    var n := BitLen(d) + shift - 192;
    LeadingShifted(d, shift);
    CutFraction(d, n, f);
  }

  /** Rounding after `n` bits are dropped. */
  lemma CutFraction(d: nat, n: nat, f: Format)
    requires f.Valid()
    ensures RoundEven(d, P(192 - 8 * f.bytes + n))
            == RoundEven(Shr(d, n), Unit(f)) + (if EvenTie(Shr(d, n), 191 - 8 * f.bytes) && LowBits(d, n) then 1 else 0)
  {
    PAdd(192 - 8 * f.bytes, n);
    ShrIs(d, n);
    LowBitsIs(d, n);
    EvenTieIs(Shr(d, n), f);
    CutRounding(d, Half(f), P(n), P(192 - 8 * f.bytes + n), Shr(d, n));
  }

  lemma CutRounding(d: nat, half: int, w: int, den: nat, v: nat)
    requires half > 0 && w > 0 && den == 2 * half * w && den > 0 && v == d / w
    ensures RoundEven(d, den)
            == RoundEven(v, 2 * half) + (if v % (2 * half) == half && v / (2 * half) % 2 == 0 && d % w != 0 then 1 else 0)
  {
    RoundEvenTruncated(d, half, w);
  }

  /** The same fraction over a power of two that makes the numerator whole. */
  lemma ScaleToUnits(d: nat, x: nat, g: nat)
    ensures RoundEven(Num(d, x - g), Den(x - g)) == RoundEven(Shl(d, x), P(g))
  {
    UnitFactor(d, x, g);
    RoundEvenRatio(Num(d, x - g), Den(x - g), P(if x < g then x else g), Shl(d, x), P(g));
  }

  lemma UnitFactor(d: nat, x: nat, g: nat)
    ensures var k := P(if x < g then x else g);
      Shl(d, x) == Num(d, x - g) * k && P(g) == Den(x - g) * k
  {
    ShlIs(d, x);
    if x < g {
      PAdd(g - x, x);
    } else {
      ShlIs(d, x - g);
      PAdd(x - g, g);
      ScaleUp(d, P(x - g), P(g));
    }
  }

  /** d * 2^s is close to a power of two: above the one below by no more than half a unit
      in the last place, or by less than the fraction can tell from that; or below the one
      above by no more than half a unit. As in the fraction, the leading bit counts 2^191. */
  predicate NearPower(d: nat, f: Format)
    requires f.Valid()
  {
    var x, half := FRACTION - BitLen(d), P(190 - f.mantissa);
    || Num(d, x) < (P(FRACTION - 1) + half + P(OnePlace(f))) * Den(x)
    || Num(d, x) >= (P(FRACTION) - half) * Den(x)
  }

  /** When the code produces the nearest number: with the exponent past the largest one
      only close to a power of two, and otherwise unless a tie was lost. */
  predicate RoundsCorrectly(d: nat, s: int, f: Format)
    requires f.Valid() && d > 0
  {
    var e := BitLen(d) - 1 + s;
    LeadingNormalised(d);
    match Classify(e, f)
    case NormalKind => if e == f.ExpMax() then NearPower(d, f) else !LostTie(d, OnePlace(f), f)
    case DenormalKind => !LostTie(d, DenormalShift(e, f), f)
    case _ => true
  }

  /** For every number, format and sign: near mode without flushing gives the nearest
      datum of the format exactly under that condition. */
  lemma ProducedIsNearestIff(d: nat, s: int, minus: bool, f: Format)
    requires f.Valid() && d > 0
    ensures P(FRACTION - 1) <= Leading(d) < P(FRACTION)
    ensures Produced(Near, minus, false, Leading(d), BitLen(d) - 1 + s, f) == Nearest(d, s, f)
            <==> RoundsCorrectly(d, s, f)
  {
    var e := BitLen(d) - 1 + s;
    LeadingNormalised(d);
    match Classify(e, f) {
      case NormalKind => NormalIsNearestIff(d, s, minus, f);
      case DenormalKind => DenormalIsNearestIff(d, s, minus, f);
      case _ => HugeIsInfinite(d, s, f);
    }
  }

  lemma NormalIsNearestIff(d: nat, s: int, minus: bool, f: Format)
    requires f.Valid() && d > 0 && Classify(BitLen(d) - 1 + s, f) == NormalKind
    ensures P(FRACTION - 1) <= Leading(d) < P(FRACTION)
    ensures Produced(Near, minus, false, Leading(d), BitLen(d) - 1 + s, f) == Nearest(d, s, f)
            <==> RoundsCorrectly(d, s, f)
  {
    hide Produced;
    hide Nearest;
    hide RoundsCorrectly;
    hide Kept;
    hide LostTie;
    hide Leading;
    hide BitLen;
    hide P;
    hide CarryChecked;
    hide FullyChecked;
    LeadingNormalised(d);
    ProducedNormal(minus, Leading(d), BitLen(d) - 1 + s, f);
    NearestFromKept(d, s, BitLen(d) - 1 + s, minus, f);
    NormalTies(d, s, BitLen(d) - 1 + s, minus, f);
  }

  /** The two ways to check for overflow agree when the condition holds. */
  lemma NormalTies(d: nat, s: int, e: int, minus: bool, f: Format)
    requires f.Valid() && d > 0 && e == BitLen(d) - 1 + s && Classify(e, f) == NormalKind
    ensures var k := Kept(Near, minus, Leading(d), OnePlace(f), f);
      var r := k + (if LostTie(d, OnePlace(f), f) then 1 else 0);
      CarryChecked(e + f.ExpMax() - 1, k, f) == FullyChecked(e + f.ExpMax() - 1, r, f) <==> RoundsCorrectly(d, s, f)
  {
    var k, tie := Kept(Near, minus, Leading(d), OnePlace(f), f), LostTie(d, OnePlace(f), f);
    LeadingNormalised(d);
    KeptSign(minus, Leading(d), OnePlace(f), f);
    KeptRange(Near, minus, Leading(d), OnePlace(f), f);
    RoundedRangeTie(d, s, minus, f);
    if tie {
      TieKeepsEven(d, OnePlace(f), minus, f);
    }
    SameNormalIff(e + f.ExpMax() - 1, k, tie, f);
    NearPowerIff(d, minus, f);
  }

  /** The leading bits compare with a whole number as d does. */
  lemma LeadingCompares(d: nat, w: nat)
    requires d > 0
    ensures var x := FRACTION - BitLen(d); Leading(d) < w <==> Num(d, x) < w * Den(x)
  {
    var x := FRACTION - BitLen(d);
    LeadingIs(d);
    if x >= 0 {
      ShlIs(d, x);
    } else {
      FloorBelow(d, P(-x), w);
    }
  }

  lemma FloorBelow(v: nat, p: nat, w: nat)
    requires p > 0
    ensures v / p < w <==> v < w * p
  {
    var q, r := v / p, v % p;
    assert v == p * q + r;
    if q < w {
      MulMonotone(p, q + 1, w);
    } else {
      MulMonotone(p, w, q);
    }
  }

  /** Rounding at the ends of a range of numbers with the same leading bit. */
  lemma RoundEvenEnds(v: nat, u: nat, h: nat, c: nat, cu: int)
    requires u == 2 * h > 0 && c % 2 == 0 && c > 0 && cu == u * c && cu <= v < 2 * cu
    ensures RoundEven(v, u) == c <==> v < cu + h + 1
    ensures RoundEven(v, u) == 2 * c <==> !(v < 2 * cu - h)
  {
    hide RoundEven;
    hide Closest;
    var q, r := Divide(v, u);
    RoundEvenParts(v, u, q, r);
    QuotientBetween(v, u, q, r, c, cu);
    QuotientCases(u, q, c, cu, u * q);
    ClosestEnds(v, u, h, c, cu, q, r, u * q);
  }

  lemma QuotientCases(u: nat, q: int, c: nat, cu: int, uq: int)
    requires u > 0 && c >= 2 && c <= q <= 2 * c - 1 && cu == u * c && uq == u * q
    ensures q == c ==> uq == cu
    ensures q == 2 * c - 1 ==> uq == 2 * cu - u
    ensures c < q < 2 * c - 1 ==> cu + u <= uq <= 2 * cu - 2 * u
    ensures cu >= 2 * u
  {
    MulMonotone(u, 2, c);
    if q == 2 * c - 1 {
      assert u * (2 * c - 1) == 2 * (u * c) - u;
    } else if q > c {
      MulMonotone(u, c + 1, q);
      MulMonotone(u, q, 2 * c - 2);
      assert u * (2 * c - 2) == 2 * (u * c) - 2 * u;
    }
  }

  lemma ClosestEnds(v: nat, u: nat, h: nat, c: nat, cu: int, q: int, r: int, uq: int)
    requires u == 2 * h > 0 && c % 2 == 0 && c > 0 && v == uq + r && 0 <= r < u && c <= q <= 2 * c - 1
    requires q == c ==> uq == cu
    requires q == 2 * c - 1 ==> uq == 2 * cu - u
    requires c < q < 2 * c - 1 ==> cu + u <= uq <= 2 * cu - 2 * u
    requires cu >= 2 * u
    ensures Closest(q, r, u) == c <==> v < cu + h + 1
    ensures Closest(q, r, u) == 2 * c <==> !(v < 2 * cu - h)
  {
  }

  lemma QuotientBetween(v: nat, u: nat, q: int, r: int, c: nat, cu: int)
    requires u > 0 && v == u * q + r && 0 <= r < u && cu == u * c && cu <= v < 2 * cu
    ensures c <= q <= 2 * c - 1
  {
    if q < c {
      MulMonotone(u, q + 1, c);
    } else if q >= 2 * c {
      MulMonotone(u, 2 * c, q);
    }
  }

  /** The places of a fraction: a last bit, its half, and what is shifted out. */
  lemma PlaceProducts(f: Format)
    requires f.Valid()
    ensures var p := P(OnePlace(f));
      && Unit(f) * P(f.mantissa) * p == P(FRACTION - 1) && P(FRACTION) == 2 * P(FRACTION - 1)
      && Half(f) * p == P(190 - f.mantissa)
  {
    PAdd(191 - 8 * f.bytes, OnePlace(f));
    PAdd(192 - 8 * f.bytes, f.mantissa);
    PAdd(192 - 8 * f.bytes + f.mantissa, OnePlace(f));
  }

  /** The significand that the code settles on is at an end of its range exactly close to
      a power of two. */
  lemma NearPowerIff(d: nat, minus: bool, f: Format)
    requires f.Valid() && d > 0
    ensures var k := Kept(Near, minus, Leading(d), OnePlace(f), f);
      NearPower(d, f) <==> k == P(f.mantissa) || k == P(f.mantissa + 1)
  {
    hide Kept;
    hide RoundEven;
    hide Leading;
    hide Shr;
    hide P;
    var p, half, l := P(OnePlace(f)), P(190 - f.mantissa), Leading(d);
    LeadingNormalised(d);
    KeptEven(minus, l, OnePlace(f), f);
    PlaceProducts(f);
    ShrIs(l, OnePlace(f));
    EvenMantissa(f);
    EndsInFraction(l, Unit(f), Half(f), p, P(f.mantissa), P(FRACTION - 1));
    LeadingCompares(d, P(FRACTION - 1) + half + p);
    HalfBelow(f);
    LeadingCompares(d, P(FRACTION) - half);
  }

  lemma EvenMantissa(f: Format)
    requires f.Valid()
    ensures P(f.mantissa) % 2 == 0 && P(f.mantissa + 1) == 2 * P(f.mantissa)
  {
  }

  lemma HalfBelow(f: Format)
    requires f.Valid()
    ensures P(FRACTION) >= P(190 - f.mantissa)
  {
    PMonotone(190 - f.mantissa, FRACTION);
  }

  lemma EndsInFraction(l: nat, u: nat, h: nat, p: nat, c: nat, low: int)
    requires u == 2 * h > 0 && p > 0 && c > 0 && c % 2 == 0 && low == u * c * p && low <= l < 2 * low
    ensures l / p >= 0
    ensures RoundEven(l / p, u) == c <==> l < low + h * p + p
    ensures RoundEven(l / p, u) == 2 * c <==> !(l < 2 * low - h * p)
  {
    hide RoundEven;
    var v, cu := l / p, u * c;
    MulMonotone(u, 1, c);
    QuotientRange(l, p);
    FloorBelow(l, p, cu);
    FloorBelow(l, p, 2 * cu);
    FloorBelow(l, p, cu + h + 1);
    FloorBelow(l, p, 2 * cu - h);
    assert (cu + h + 1) * p == low + h * p + p;
    assert (2 * cu - h) * p == 2 * low - h * p;
    assert 2 * cu * p == 2 * low;
    RoundEvenEnds(v, u, h, c, cu);
  }

  lemma RoundedRangeTie(d: nat, s: int, minus: bool, f: Format)
    requires f.Valid() && d > 0 && Classify(BitLen(d) - 1 + s, f) == NormalKind
    ensures Kept(Near, minus, Leading(d), OnePlace(f), f) + (if LostTie(d, OnePlace(f), f) then 1 else 0) <= P(f.mantissa + 1)
  {
    KeptIsNearest(d, OnePlace(f), minus, f);
    NormalSignificand(d, s, f);
  }

  lemma ProducedNormal(minus: bool, m: nat, e: int, f: Format)
    requires f.Valid() && P(FRACTION - 1) <= m < P(FRACTION) && Classify(e, f) == NormalKind
    ensures Produced(Near, minus, false, m, e, f)
            == CarryChecked(e + f.ExpMax() - 1, Kept(Near, minus, m, OnePlace(f), f), f)
  {
  }

  lemma NearestFromKept(d: nat, s: int, e: int, minus: bool, f: Format)
    requires f.Valid() && d > 0 && e == BitLen(d) - 1 + s && Classify(e, f) == NormalKind
    ensures var r := Kept(Near, minus, Leading(d), OnePlace(f), f) + (if LostTie(d, OnePlace(f), f) then 1 else 0);
      Nearest(d, s, f) == FullyChecked(e + f.ExpMax() - 1, r, f)
  {
    KeptIsNearest(d, OnePlace(f), minus, f);
    NearestNormal(d, s, e, f);
  }

  lemma TieKeepsEven(d: nat, shift: nat, minus: bool, f: Format)
    requires f.Valid() && d > 0 && LostTie(d, shift, f)
    ensures Kept(Near, minus, Leading(d), shift, f) % 2 == 0
  {
    LeadingNormalised(d);
    KeptEven(minus, Leading(d), shift, f);
    EvenTieIs(Shr(Leading(d), shift), f);
    RoundEvenDivision(Shr(Leading(d), shift), Unit(f));
  }

  /** A number with a tie in its first 192 bits and one more bit after those. */
  function BarelyAboveTie(f: Format): nat
    requires f.Valid()
  {
    2 * Shl(P(f.mantissa + 1) + 1, 190 - f.mantissa) + 1
  }

  /** Its tie is lost, and it is rounded down. */
  lemma TieIsLost(f: Format)
    requires f.Valid()
    ensures var d := BarelyAboveTie(f);
      d > 0 && BitLen(d) == 193 && LostTie(d, OnePlace(f), f) && !RoundsCorrectly(d, -192, f)
  {
    AboveTieLength(f);
    AboveTieLost(f, P(f.mantissa + 1) + 1, BarelyAboveTie(f));
    assert P(f.exponent - 1) > 1 by {
      assert P(f.exponent - 1) == 2 * P(f.exponent - 2);
    }
    hide LostTie;
    hide BitLen;
    hide BarelyAboveTie;
    hide P;
  }

  lemma AboveTieLost(f: Format, a: nat, d: nat)
    requires f.Valid() && a == P(f.mantissa + 1) + 1 && d == 2 * Shl(a, 190 - f.mantissa) + 1 && BitLen(d) == 193
    ensures LostTie(d, OnePlace(f), f)
  {
    var g := 190 - f.mantissa - OnePlace(f);
    assert a % 4 == 1 by {
      assert P(f.mantissa + 1) == 4 * P(f.mantissa - 1);
    }
    assert Leading(d) == Shl(a, 190 - f.mantissa) by {
      assert Leading(d) == Shr(d, 1) == Shr(d / 2, 0);
    }
    assert LowBits(d, 1);
    hide BitLen;
    hide Leading;
    hide P;
    hide LowBits;
    ShiftedBack(a, 190 - f.mantissa, OnePlace(f));
    ShiftedBack(a, g, g);
    hide Shl;
    hide Shr;
    EvenTieShifted(Shl(a, g), g);
    hide EvenTie;
  }

  lemma AboveTieLength(f: Format)
    requires f.Valid()
    ensures BitLen(BarelyAboveTie(f)) == 193
  {
    var a, n, m, d := P(f.mantissa + 1) + 1, 190 - f.mantissa, f.mantissa, BarelyAboveTie(f);
    ShlIs(a, n);
    PAdd(m + 1, n);
    PMonotone(1, m + 1);
    PMonotone(n, n + m);
    assert a * P(n) == P(m + 1) * P(n) + P(n);
    var l := FRACTION + 1;
    assert P(l) == 4 * P(l - 2) && P(l - 1) == 2 * P(l - 2) && m + 1 + n == l - 2;
    BitLenUnique(d, l);
  }

  /** A normal datum, when a carry into the next exponent is checked for overflow but the
      exponent itself is not. */
  function CarryChecked(biased: nat, k: nat, f: Format): Datum
    requires f.Valid()
  {
    if k < P(f.mantissa + 1) then Datum(biased, k)
    else if biased + 1 >= 2 * f.ExpMax() - 1 then Infinity(f)
    else Datum(biased + 1, P(f.mantissa))
  }

  /** A normal datum or an infinity. */
  function FullyChecked(biased: nat, r: nat, f: Format): Datum
    requires f.Valid()
  {
    if biased >= 2 * f.ExpMax() - 1 then Infinity(f) else CarryChecked(biased, r, f)
  }

  lemma EvenPower(m: nat)
    ensures P(m + 1) % 2 == 0
  {
  }

  lemma SameNormalIff(biased: nat, k: nat, tie: bool, f: Format)
    requires f.Valid() && biased <= 2 * f.ExpMax() - 1
    requires P(f.mantissa) <= k && k + (if tie then 1 else 0) <= P(f.mantissa + 1) && (tie ==> k % 2 == 0)
    ensures CarryChecked(biased, k, f) == FullyChecked(biased, k + (if tie then 1 else 0), f)
            <==> if biased == 2 * f.ExpMax() - 1 then k == P(f.mantissa) || k == P(f.mantissa + 1) else !tie
  {
    EvenPower(f.mantissa);
  }

  /** A number with a normal exponent has `mantissa + 1` significant bits, or one more
      after a carry. */
  lemma NormalSignificand(d: nat, s: int, f: Format)
    requires f.Valid() && d > 0 && Classify(BitLen(d) - 1 + s, f) == NormalKind
    ensures Quantum(d, s, f) == BitLen(d) - 1 + s - f.mantissa
    ensures var x := 8 * f.bytes - BitLen(d) - OnePlace(f);
      P(f.mantissa) <= RoundEven(Num(d, x), Den(x)) <= P(f.mantissa + 1)
  {
    var q := Quantum(d, s, f);
    assert q == BitLen(d) - 1 + s - f.mantissa && s - q == 8 * f.bytes - BitLen(d) - OnePlace(f);
    ScaledRange(d, s, f);
    NormalRange(d, s, f);
    RoundEvenRange(Num(d, s - q), Den(s - q), P(f.mantissa), P(f.mantissa + 1));
  }

  /** The nearest datum for a number with a normal exponent. */
  lemma NearestNormal(d: nat, s: int, e: int, f: Format)
    requires f.Valid() && d > 0 && e == BitLen(d) - 1 + s && Classify(e, f) == NormalKind
    ensures var x := 8 * f.bytes - BitLen(d) - OnePlace(f);
      Nearest(d, s, f) == FullyChecked(e + f.ExpMax() - 1, RoundEven(Num(d, x), Den(x)), f)
  {
    hide RoundEven;
    hide P;
    hide BitLen;
    NormalSignificand(d, s, f);
    assert s - Quantum(d, s, f) == 8 * f.bytes - BitLen(d) - OnePlace(f);
  }

  lemma DenormalIsNearestIff(d: nat, s: int, minus: bool, f: Format)
    requires f.Valid() && d > 0 && Classify(BitLen(d) - 1 + s, f) == DenormalKind
    ensures P(FRACTION - 1) <= Leading(d) < P(FRACTION)
    ensures Produced(Near, minus, false, Leading(d), BitLen(d) - 1 + s, f) == Nearest(d, s, f)
            <==> RoundsCorrectly(d, s, f)
  {
    hide Produced;
    hide Kept;
    hide Nearest;
    hide LostTie;
    hide Leading;
    hide BitLen;
    hide P;
    hide NearPower;
    LeadingNormalised(d);
    ProducedDenormal(minus, Leading(d), BitLen(d) - 1 + s, f);
    SubnormalFromKept(d, s, DenormalShift(BitLen(d) - 1 + s, f), minus, f);
  }

  /** A datum at the smallest exponent, which may have become normal. */
  function Subnormal(r: nat, f: Format): Datum
    requires f.Valid()
  {
    if r < P(f.mantissa) then Datum(0, r) else Datum(1, r)
  }

  lemma ProducedDenormal(minus: bool, m: nat, e: int, f: Format)
    requires f.Valid() && P(FRACTION - 1) <= m < P(FRACTION) && Classify(e, f) == DenormalKind
    ensures Produced(Near, minus, false, m, e, f) == Subnormal(Kept(Near, minus, m, DenormalShift(e, f), f), f)
  {
  }

  lemma SubnormalFromKept(d: nat, s: int, shift: nat, minus: bool, f: Format)
    requires f.Valid() && d > 0 && Classify(BitLen(d) - 1 + s, f) == DenormalKind
    requires shift == DenormalShift(BitLen(d) - 1 + s, f)
    ensures var r := Kept(Near, minus, Leading(d), shift, f) + (if LostTie(d, shift, f) then 1 else 0);
      Nearest(d, s, f) == Subnormal(r, f)
  {
    hide RoundEven;
    hide P;
    hide BitLen;
    KeptIsNearest(d, shift, minus, f);
    NearestSubnormal(d, s, 8 * f.bytes - BitLen(d) - shift, f);
  }

  /** The nearest datum for a number below the smallest normal one. */
  lemma NearestSubnormal(d: nat, s: int, x: int, f: Format)
    requires f.Valid() && d > 0 && Classify(BitLen(d) - 1 + s, f) == DenormalKind
    requires x == 8 * f.bytes - BitLen(d) - DenormalShift(BitLen(d) - 1 + s, f)
    ensures Nearest(d, s, f) == Subnormal(RoundEven(Num(d, x), Den(x)), f)
  {
    SubnormalSignificand(d, s, x, f);
  }

  lemma SubnormalSignificand(d: nat, s: int, x: int, f: Format)
    requires f.Valid() && d > 0 && Classify(BitLen(d) - 1 + s, f) == DenormalKind
    requires x == 8 * f.bytes - BitLen(d) - DenormalShift(BitLen(d) - 1 + s, f)
    ensures Quantum(d, s, f) == f.MinQuantum() == s - x
    ensures RoundEven(Num(d, x), Den(x)) <= P(f.mantissa)
  {
    BitLenRange(d);
    ScaledUpper(d, BitLen(d), x, f.mantissa - 1);
    RoundEvenRange(Num(d, x), Den(x), 0, P(f.mantissa));
  }

  lemma HugeIsInfinite(d: nat, s: int, f: Format)
    requires f.Valid() && d > 0 && Classify(BitLen(d) - 1 + s, f) == InfinityKind
    ensures Nearest(d, s, f) == Infinity(f)
  {
    HugeSignificand(d, s, s - Quantum(d, s, f), f);
  }

  lemma HugeSignificand(d: nat, s: int, x: int, f: Format)
    requires f.Valid() && d > 0 && Classify(BitLen(d) - 1 + s, f) == InfinityKind && x == s - Quantum(d, s, f)
    ensures Quantum(d, s, f) == BitLen(d) - 1 + s - f.mantissa && RoundEven(Num(d, x), Den(x)) >= P(f.mantissa)
  {
    ScaledRange(d, s, f);
    RoundEvenRange(Num(d, x), Den(x), P(f.mantissa), P(f.mantissa + 1));
  }

  /** Where the largest exponent is let through as normal, a constant halfway up to the
      next power of two becomes a quiet NaN instead of an infinity. */
  lemma OverflowBecomesNan(three: nat, minus: bool, f: Format)
    requires f.Valid() && three == 3
    ensures BitLen(three) == 2 && P(FRACTION - 1) <= Leading(three) < P(FRACTION)
    ensures Produced(Near, minus, false, Leading(three), f.ExpMax(), f) == QuietNan(f)
    ensures Nearest(three, f.ExpMax() - 1, f) == Infinity(f)
  {
    NanProduced(three, minus, f);
    InfinityExpected(three, f);
  }

  lemma NanProduced(three: nat, minus: bool, f: Format)
    requires f.Valid() && three == 3
    ensures BitLen(three) == 2 && P(FRACTION - 1) <= Leading(three) < P(FRACTION)
    ensures Produced(Near, minus, false, Leading(three), f.ExpMax(), f) == QuietNan(f)
  {
    LeadingNormalised(three);
    ThreeHalves(three, minus, f);
    ProducedNormal(minus, Leading(three), f.ExpMax(), f);
  }

  lemma InfinityExpected(three: nat, f: Format)
    requires f.Valid() && three == 3
    ensures Nearest(three, f.ExpMax() - 1, f) == Infinity(f)
  {
    assert BitLen(three) == 2;
    NearestNormal(three, f.ExpMax() - 1, f.ExpMax(), f);
  }

  lemma ThreeHalves(three: nat, minus: bool, f: Format)
    requires f.Valid() && three == 3
    ensures Kept(Near, minus, Leading(three), OnePlace(f), f) == P(f.mantissa) + P(f.mantissa - 1)
  {
    assert BitLen(three) == 2;
    var k := P(f.mantissa) + P(f.mantissa - 1);
    LeadingShifted(three, OnePlace(f));
    ShlIs(three, 190 - OnePlace(f));
    Places(f, OnePlace(f) + 2);
    ThreeUnits(P(f.mantissa - 1), Unit(f));
    RoundedBitsIs(Near, minus, Shr(Leading(three), OnePlace(f)), 191 - 8 * f.bytes);
    RoundedExact(minus, k, Half(f));
  }

  lemma ThreeUnits(p: int, u: int)
    ensures 3 * (p * u) == (2 * p + p) * u
  {
  }

  lemma RoundedExact(minus: bool, k: nat, half: int)
    requires half > 0
    ensures Rounded(Near, minus, k * (2 * half), half) / (2 * half) == k
  {
    assert k * (2 * half) == half * (2 * k);
    ModUnique(k * (2 * half), half, 2 * k, 0);
    ModUnique(k * (2 * half), 2 * half, k, 0);
  }

  // ---- The entry point ----

  /** A constant by the way it is written: the text of its digits, and for the binary
      radixes the bits of a digit; the others are decimal. */
  datatype Constant = PackedBcd(t: string) | Token(kind: Kind) | Binary(t: string, bits: nat) | Other(t: string)

  /** The special tokens differ in their fourth character; any other token counts as a
      quiet NaN. */
  function TokenKind(str: string): Kind {
    if |str| > 3 && (str[3] == 's' || str[3] == 'S') then SNanKind
    else if |str| > 3 && (str[3] == 'i' || str[3] == 'I') then InfinityKind
    else QNanKind
  }

  function ReadConstant(str: string): (c: Constant)
    requires str != ""
    ensures c.Binary? ==> 0 < c.bits <= 4
    ensures c.Token? ==> c.kind.InfinityKind? || c.kind.QNanKind? || c.kind.SNanKind?
  {
    var last := str[|str| - 1];
    if last == 'P' || last == 'p' then PackedBcd(str[..|str| - 1])
    else if str[0] == '_' then Token(TokenKind(str))
    else if str[0] == '0' && |str| >= 2 then
      var c, t := str[1], str[2..];
      if c == 'x' || c == 'X' || c == 'h' || c == 'H' then Binary(t, 4)
      else if c == 'o' || c == 'O' || c == 'q' || c == 'Q' then Binary(t, 3)
      else if c == 'b' || c == 'B' || c == 'y' || c == 'Y' then Binary(t, 1)
      else if c == 'd' || c == 'D' || c == 't' || c == 'T' then Other(t)
      else if c == 'p' || c == 'P' then PackedBcd(t)
      else Other(str)
    else if str[0] == '$' then Binary(str[1..], 4)
    else Other(str)
  }

  /** The datum for the text after the prefix: the nearest one in near mode, as far as
      `RoundsCorrectly` goes. A text that is not a number gives a quiet NaN. */
  function ConstDatum(mode: Mode, daz: bool, minus: bool, t: string, bits: nat, f: Format): Datum
    requires f.Valid()
  {
    match Parse(t, bits)
    case None => QuietNan(f)
    case Some(n) =>
      if n.d == 0 then Datum(0, 0)
      else
        LeadingNormalised(n.d);
        Produced(mode, minus, daz, Leading(n.d), BitLen(n.d) - 1 + n.s, f)
  }

  /** For every text of a number and every format: near mode without flushing gives the
      nearest datum exactly where `RoundsCorrectly` holds of the number. */
  lemma TextIsNearestIff(t: string, bits: nat, minus: bool, f: Format)
    requires f.Valid() && Parse(t, bits).Some?
    ensures var n := Parse(t, bits).value;
      ConstDatum(Near, false, minus, t, bits, f) == Nearest(n.d, n.s, f) <==> n.d == 0 || RoundsCorrectly(n.d, n.s, f)
  {
    hide Produced;
    hide RoundsCorrectly;
    hide Leading;
    hide P;
    hide Parse;
    var n := Parse(t, bits).value;
    if n.d > 0 {
      LeadingNormalised(n.d);
      ProducedIsNearestIff(n.d, n.s, minus, f);
    }
  }

  /** The data that have a pattern of their own. */
  predicate Encodable(x: Datum, f: Format)
    requires f.Valid()
  {
    if x.biased == 0 then x.sig < P(f.mantissa) else P(f.mantissa) <= x.sig < P(f.mantissa + 1)
  }

  /** Their patterns are different. */
  lemma PatternsDiffer(x: Datum, y: Datum, minus: bool, f: Format)
    requires f.Valid() && Encodable(x, f) && Encodable(y, f) && Pattern(f, x, minus) == Pattern(f, y, minus)
    ensures x == y
  {
    var w := f.mantissa + f.explicit;
    var low := (z: Datum) => if f.explicit == 1 || z.sig < P(f.mantissa) then z.sig else z.sig - P(f.mantissa);
    ShlIs(x.biased, w);
    ShlIs(y.biased, w);
    assert P(f.mantissa + 1) == 2 * P(f.mantissa);
    assert low(x) < P(w) && low(y) < P(w);
    FieldsUnique(x.biased, low(x), y.biased, low(y), P(w));
  }

  lemma FieldsUnique(a: nat, b: nat, c: nat, d: nat, p: int)
    requires p > 0 && b < p && d < p && a * p + b == c * p + d
    ensures a == c && b == d
  {
    ModUnique(a * p + b, p, a, b);
    ModUnique(c * p + d, p, c, d);
  }

  lemma ProducedEncodable(minus: bool, m: nat, e: int, f: Format)
    requires f.Valid() && P(FRACTION - 1) <= m < P(FRACTION)
    ensures Encodable(Produced(Near, minus, false, m, e, f), f)
  {
    EvenMantissa(f);
    if Classify(e, f).NormalKind? {
      KeptRange(Near, minus, m, OnePlace(f), f);
    } else if Classify(e, f).DenormalKind? {
      KeptRange(Near, minus, m, DenormalShift(e, f), f);
    }
  }

  lemma NearestEncodable(d: nat, s: int, f: Format)
    requires f.Valid()
    ensures Encodable(Nearest(d, s, f), f)
  {
    EvenMantissa(f);
  }

  /** The same of the bytes. */
  lemma BytesAreNearestIff(t: string, bits: nat, minus: bool, f: Format)
    requires f.Valid() && Parse(t, bits).Some?
    ensures var n := Parse(t, bits).value;
      Pattern(f, ConstDatum(Near, false, minus, t, bits, f), minus) == Pattern(f, Nearest(n.d, n.s, f), minus)
      <==> n.d == 0 || RoundsCorrectly(n.d, n.s, f)
  {
    var n := Parse(t, bits).value;
    TextIsNearestIff(t, bits, minus, f);
    NearestEncodable(n.d, n.s, f);
    if n.d > 0 {
      LeadingNormalised(n.d);
      ProducedEncodable(minus, Leading(n.d), BitLen(n.d) - 1 + n.s, f);
    }
    if Pattern(f, ConstDatum(Near, false, minus, t, bits, f), minus) == Pattern(f, Nearest(n.d, n.s, f), minus) {
      PatternsDiffer(ConstDatum(Near, false, minus, t, bits, f), Nearest(n.d, n.s, f), minus, f);
    }
  }

  /** The sign goes over the rest of the pattern. */
  lemma SignPattern(v: int, x: Datum, f: Format)
    requires f.Valid() && Shows(v, x, f)
    ensures (v + P(FRACTION - 1)) / Unit(f) == Pattern(f, x, true)
  {
    Places(f, 1);
    AddMultiple(v, Unit(f), 1, P(8 * f.bytes - 1));
  }

  /** The top bit tells whether there is a number at all. */
  lemma TopBitOf(s: seq<int>, d: nat)
    requires |s| == LIMBS && AllLimbs(s) && Val(s) == (if d == 0 then 0 else Leading(d))
    ensures s[0] >= TOP <==> d > 0
    ensures d > 0 ==> Normalised(Val(s))
  {
    TopBit(s);
    if d > 0 {
      LeadingNormalised(d);
    }
  }

  lemma ZeroShows(s: seq<int>, f: Format)
    requires f.Valid() && forall k | 0 <= k < |s| :: s[k] == 0
    ensures Shows(Val(s), Datum(0, 0), f)
  {
    ZeroValue(s);
    MulMonotone(Unit(f), 1, P(f.mantissa));
    SmallShows(0, f);
  }

  class Converter {
    const fl: Floats

    constructor (fl: Floats)
      ensures this.fl == fl
    {
      this.fl := fl;
    }

    /** The mantissa with its exponent, or the special value for a malformed text. */
    method Pack(t: string, bits: nat, minus: bool, f: Format) returns (mant: array<Limb>)
      requires f.Valid() && 0 < bits <= 4
      ensures fresh(mant) && mant.Length == LIMBS
      ensures Shows(Val(mant[..]), ConstDatum(fl.rc, fl.daz, minus, t, bits, f), f)
    {
      var ok, exponent;
      ok, mant, exponent := FlconvertBin(t, bits);
      if !ok {
        fl.PackSpecial(mant, QNanKind, f);
      } else {
        TopBitOf(mant[..], Parse(t, bits).value.d);
        if mant[0] >= TOP {
          fl.PackNumber(mant, exponent - 1, minus, f);
        } else {
          Clear(mant, LIMBS);
          ZeroShows(mant[..], f);
        }
      }
    }

    /** The bytes of a constant that is not decimal: a special token, a number in one of the
        binary radixes, or packed decimal digits, for which there must be ten bytes. */
    method FloatConst(str: string, minus: bool, f: Format) returns (result: Option<seq<byte>>)
      requires f.Valid() && str != "" && !ReadConstant(str).Other?
      ensures match ReadConstant(str)
        case Token(kind) =>
          result.Some? && |result.value| == f.bytes && LeValue(result.value) == Pattern(f, Special(kind, f), minus)
        case Binary(t, bits) =>
          && result.Some? && |result.value| == f.bytes
          && LeValue(result.value) == Pattern(f, ConstDatum(fl.rc, fl.daz, minus, t, bits, f), minus)
        case PackedBcd(t) =>
          && (result.Some? <==> f.bytes == 10 && DecimalText(t))
          && (result.Some? ==> |result.value| == 10 && BcdValue(result.value[..9]) == Decimal(t) % Ten(PLACES)
                               && result.value[9] == if minus then 0x80 else 0)
        case Other(_) => true
    {
      var c := ReadConstant(str);
      if c.PackedBcd? {
        if f.bytes != 10 {
          return None;
        }
        var ok, r := ToPackedBcd(c.t, minus);
        return if ok then Some(r) else None;
      }
      var mant;
      ghost var x := if c.Token? then Special(c.kind, f) else ConstDatum(fl.rc, fl.daz, minus, c.t, c.bits, f);
      if c.Token? {
        mant := new Limb[LIMBS](_ => 0);
        fl.PackSpecial(mant, c.kind, f);
      } else {
        mant := Pack(c.t, c.bits, minus, f);
      }
      var bytes := Finish(mant, x, minus, f);
      result := Some(bytes);
    }

    /** The bytes of a finished number, with its sign. */
    method Finish(mant: array<Limb>, ghost x: Datum, minus: bool, f: Format) returns (result: seq<byte>)
      requires mant.Length == LIMBS && f.Valid() && Shows(Val(mant[..]), x, f)
      modifies mant
      ensures |result| == f.bytes && LeValue(result) == Pattern(f, x, minus)
    {
      if minus {
        SetSign(mant, x, f);
      }
      result := Output(mant, f.bytes);
    }

    method SetSign(mant: array<Limb>, ghost x: Datum, f: Format)
      requires mant.Length == LIMBS && f.Valid() && Shows(Val(mant[..]), x, f)
      modifies mant
      ensures Val(mant[..]) / Unit(f) == Pattern(f, x, true)
    {
      SignPattern(Val(mant[..]), x, f);
      SetField(mant, 1, 0);
    }
  }
}
