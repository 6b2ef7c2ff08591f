/** From a normalised 192-bit fraction and an exponent to the bytes of a constant. */
module FloatPacking {
  import opened Basics
  import opened Limbs
  import opened Rounding
  import opened Ieee

  /** What kind of value is to be produced. */
  datatype Kind = ZeroKind | DenormalKind | NormalKind | InfinityKind | QNanKind | SNanKind

  /** The weight of the last bit that a format keeps of a six-limb fraction. */
  function Unit(f: Format): (u: int)
    requires f.Valid()
    ensures u > 0
  {
    P(192 - 8 * f.bytes)
  }

  function Half(f: Format): (h: int)
    requires f.Valid()
    ensures h > 0 && Unit(f) == 2 * h
  {
    P(191 - 8 * f.bytes)
  }

  /** Where the leading one of a normal number ends up, counted from the top bit. */
  function OnePlace(f: Format): nat {
    f.exponent + f.explicit
  }

  /** The significand that the code settles on: shifted, rounded, cut off. */
  function Kept(mode: Mode, minus: bool, m: nat, shift: nat, f: Format): nat
    requires f.Valid()
  {
    RoundedBits(mode, minus, Shr(m, shift), 191 - 8 * f.bytes, false)
  }

  /** `v` rounded at bit `g`, the guard bit, and cut off above it: the bits below are
      dropped one by one, and `sticky` remembers whether any of them was set. */
  function RoundedBits(mode: Mode, minus: bool, v: nat, g: nat, sticky: bool): nat {
    if g == 0 then (v + if Increments(mode, minus, v, sticky) then 1 else 0) / 2
    else RoundedBits(mode, minus, v / 2, g - 1, sticky || v % 2 == 1)
  }

  lemma {:induction false} RoundedBitsShifted(mode: Mode, minus: bool, v: nat, g: nat, sticky: bool)
    ensures var c := Shr(v, g);
      RoundedBits(mode, minus, v, g, sticky)
      == (c + if Increments(mode, minus, c, sticky || LowBits(v, g)) then 1 else 0) / 2
  {
    if g > 0 {
      RoundedBitsShifted(mode, minus, v / 2, g - 1, sticky || v % 2 == 1);
    }
  }

  lemma RoundedBitsIs(mode: Mode, minus: bool, v: nat, g: nat)
    ensures RoundedBits(mode, minus, v, g, false) == Rounded(mode, minus, v, P(g)) / (2 * P(g))
  {
    ShrIs(v, g);
    LowBitsIs(v, g);
    RoundedBitsShifted(mode, minus, v, g, false);
    RoundedHalves(mode, minus, v, P(g));
  }

  lemma KeptIs(mode: Mode, minus: bool, m: nat, shift: nat, f: Format)
    requires f.Valid()
    ensures Kept(mode, minus, m, shift, f) == Rounded(mode, minus, m / P(shift), Half(f)) / Unit(f)
  {
    ShrIs(m, shift);
    RoundedBitsIs(mode, minus, Shr(m, shift), 191 - 8 * f.bytes);
  }

  /** How far a subnormal number is shifted. */
  function DenormalShift(e: int, f: Format): int
    requires f.Valid()
  {
    -(e + f.ExpMax() - 2 - f.exponent) + f.explicit
  }

  function Classify(e: int, f: Format): Kind
    requires f.Valid()
  {
    if 2 - f.ExpMax() <= e <= f.ExpMax() then NormalKind else if e > 0 then InfinityKind else DenormalKind
  }

  /** The datum produced for a mantissa `m` in [2^191, 2^192) that stands for
      m * 2^(e - 191). */
  function Produced(mode: Mode, minus: bool, daz: bool, m: nat, e: int, f: Format): Datum
    requires f.Valid() && P(FRACTION - 1) <= m < P(FRACTION)
  {
    match Classify(e, f)
    case NormalKind =>
      KeptRange(mode, minus, m, OnePlace(f), f);
      var k := Kept(mode, minus, m, OnePlace(f), f);
      var biased := e + f.ExpMax() - 1;
      if k < P(f.mantissa + 1) then Datum(biased, k)
      else if biased + 1 >= 2 * f.ExpMax() - 1 then Infinity(f)
      else Datum(biased + 1, P(f.mantissa))
    case DenormalKind =>
      KeptRange(mode, minus, m, DenormalShift(e, f), f);
      var k := Kept(mode, minus, m, DenormalShift(e, f), f);
      if k >= P(f.mantissa) then Datum(1, k) else if daz then Datum(0, 0) else Datum(0, k)
    case _ => Infinity(f)
  }

  /** Rounding yields a whole number of half units. */
  lemma RoundedHalves(mode: Mode, minus: bool, v: int, half: int)
    requires half > 0
    ensures var c := v / half + (if RoundsUp(mode, minus, v, half) then 1 else 0);
      Rounded(mode, minus, v, half) == c * half && Rounded(mode, minus, v, half) / (2 * half) == c / 2
  {
    var q := v / half;
    var c := q + (if RoundsUp(mode, minus, v, half) then 1 else 0);
    assert v == half * q + v % half;
    assert (q + 1) * half == half * q + half;
    HalfUnits(c, half);
  }

  lemma HalfUnits(c: int, half: int)
    requires half > 0
    ensures c * half / (2 * half) == c / 2
  {
    assert c == 2 * (c / 2) + c % 2;
    assert c * half == 2 * half * (c / 2) + c % 2 * half;
    ModUnique(c * half, 2 * half, c / 2, c % 2 * half);
  }

  /** Rounding stays between the multiples of the unit that enclose a number. */
  lemma RoundedRange(mode: Mode, minus: bool, v: int, half: int, lo: int, hi: int)
    requires half > 0 && lo * (2 * half) <= v < hi * (2 * half)
    ensures var r := Rounded(mode, minus, v, half);
      && lo * (2 * half) <= r <= hi * (2 * half) && lo <= r / (2 * half) <= hi
      && (r / (2 * half) == hi <==> r == hi * (2 * half))
  {
    assert lo * (2 * half) == 2 * lo * half && hi * (2 * half) == half * (2 * hi);
    QuotientBelow(v, half, 2 * hi);
    QuotientAtLeast(v, half, 2 * lo);
    RoundedHalves(mode, minus, v, half);
    var c := v / half + (if RoundsUp(mode, minus, v, half) then 1 else 0);
    MulMonotone(half, 2 * lo, c);
    MulMonotone(half, c, 2 * hi);
    CompareScaled(c, 2 * hi, half);
  }

  /** Powers of two at the places of a format. */
  lemma Places(f: Format, k: nat)
    requires f.Valid() && k <= 8 * f.bytes
    ensures P(192 - k) == P(8 * f.bytes - k) * Unit(f)
  {
    PAdd(8 * f.bytes - k, 192 - 8 * f.bytes);
  }

  /** A normal number keeps `mantissa + 1` bits, a subnormal one fewer. */
  lemma KeptRange(mode: Mode, minus: bool, m: nat, shift: nat, f: Format)
    requires f.Valid() && P(FRACTION - 1) <= m < P(FRACTION) && shift >= OnePlace(f)
    ensures 0 <= Kept(mode, minus, m, shift, f) <= P(f.mantissa + 1)
    ensures shift > OnePlace(f) ==> Kept(mode, minus, m, shift, f) <= P(f.mantissa)
    ensures shift == OnePlace(f) ==> P(f.mantissa) <= Kept(mode, minus, m, shift, f)
  {
    ShiftedBounds(m, shift, f);
    var v := m / P(shift);
    var lo := if shift == OnePlace(f) then P(f.mantissa) else 0;
    var hi := if shift == OnePlace(f) then P(f.mantissa + 1) else P(f.mantissa);
    KeptIs(mode, minus, m, shift, f);
    RoundedRange(mode, minus, v, Half(f), lo, hi);
  }

  /** The shifted fraction lies below the place where the exponent field ends. */
  lemma ShiftedBounds(m: nat, shift: nat, f: Format)
    requires f.Valid() && P(FRACTION - 1) <= m < P(FRACTION) && shift >= OnePlace(f)
    ensures 0 <= m / P(shift)
    ensures shift == OnePlace(f) ==> P(f.mantissa) * Unit(f) <= m / P(shift) < P(f.mantissa + 1) * Unit(f)
    ensures shift > OnePlace(f) ==> m / P(shift) < P(f.mantissa) * Unit(f)
  {
    var n := OnePlace(f);
    QuotientRange(m, P(shift));
    Places(f, n);
    Places(f, n + 1);
    PowerBelow(m, FRACTION, if shift == n then n else n + 1, shift);
    if shift == n {
      PowerAbove(m, FRACTION - 1, n);
    }
  }

  lemma PowerBelow(m: int, top: nat, n: nat, shift: nat)
    requires 0 <= m < P(top) && n <= top && n <= shift
    ensures m / P(shift) < P(top - n)
  {
    PAdd(top - n, n);
    PMonotone(n, shift);
    MulMonotone(P(top - n), P(n), P(shift));
    QuotientBelow(m, P(shift), P(top - n));
  }

  lemma PowerAbove(m: int, top: nat, n: nat)
    requires m >= P(top) && n <= top
    ensures m / P(n) >= P(top - n)
  {
    PAdd(top - n, n);
    QuotientAtLeast(m, P(n), P(top - n));
  }

  // ---- Bits of the limb array ----

  /** `mant[0] |= value << (31 - place)`. */
  method SetField(mant: array<Limb>, value: nat, place: nat)
    requires mant.Length == LIMBS && place <= 31 && value < P(place + 1)
    requires Val(mant[..]) < P(191 - place)
    modifies mant
    ensures Val(mant[..]) == old(Val(mant[..])) + value * P(191 - place)
  {
    ghost var was: seq<int> := mant[..];
    FirstLimbBelow(was, place);
    FieldFits(mant[0], value, place);
    mant[0] := Or(MulNat(value, P(31 - place)), mant[0]);
    ghost var k := 0;
    assert mant[..] == was[k := mant[0]];
    ValUpdate(was, k, mant[0]);
    PAdd(31 - place, 32 * (|was| - 1));
    ScaleUp(value, P(31 - place), P(32 * (|was| - 1)));
  }

  lemma FirstLimbBelow(s: seq<int>, place: nat)
    requires |s| == LIMBS && AllLimbs(s) && place <= 31 && Val(s) < P(191 - place)
    ensures s[0] < P(31 - place)
  {
    ValSplit(s, 1);
    assert Val(s[..1]) == s[0];
    PAdd(32 * (|s| - 1), 31 - place);
    QuotientBelow(Val(s), P(32 * (|s| - 1)), P(31 - place));
  }

  lemma FieldFits(x: nat, value: nat, place: nat)
    requires place <= 31 && x < P(31 - place) && value < P(place + 1)
    ensures var v := MulNat(value, P(31 - place)); Or(v, x) == v + x < TWO32
  {
    var w := P(31 - place);
    WordSplit(place + 1);
    FieldBound(x, value, w, P(place + 1));
    MultipleModZero(value, w);
    OrDisjoint(MulNat(value, w), x, 31 - place);
  }

  /** Clears one bit, counted from the top. */
  method ClearPlace(mant: array<Limb>, place: nat)
    requires mant.Length == LIMBS && place < FRACTION
    modifies mant
    ensures Val(mant[..]) == old(Val(mant[..]) - (if TestBit(mant[..], place) then P(191 - place) else 0))
  {
    ghost var was: seq<int> := mant[..];
    var i, bit := place / 32, P(31 - place % 32);
    if mant[i] / bit % 2 == 1 {
      GuardAlone(mant[i], bit);
      mant[i] := mant[i] - bit;
      assert mant[..] == was[i := mant[i]];
      PlaceWeight(was, place, -1);
    } else {
      assert mant[..] == was;
    }
  }

  /** Sets one bit, counted from the top. */
  method SetPlace(mant: array<Limb>, place: nat)
    requires mant.Length == LIMBS && place < FRACTION
    modifies mant
    ensures Val(mant[..]) == old(Val(mant[..]) + (if TestBit(mant[..], place) then 0 else P(191 - place)))
  {
    ghost var was: seq<int> := mant[..];
    var i, bit := place / 32, P(31 - place % 32);
    if mant[i] / bit % 2 != 1 {
      BitFits(mant[i], place % 32);
      mant[i] := mant[i] + bit;
      assert mant[..] == was[i := mant[i]];
      PlaceWeight(was, place, 1);
    } else {
      assert mant[..] == was;
    }
  }

  lemma PlaceWeight(s: seq<int>, place: nat, sign: int)
    requires |s| == LIMBS && place < FRACTION && (sign == 1 || sign == -1)
    ensures var i, bit := place / 32, P(31 - place % 32);
      Val(s[i := s[i] + sign * bit]) == Val(s) + sign * P(191 - place)
  {
    var i, p := place / 32, place % 32;
    ValUpdate(s, i, s[i] + sign * P(31 - p));
    PAdd(31 - p, 32 * (LIMBS - 1 - i));
    ScaleUp(sign, P(31 - p), P(32 * (LIMBS - 1 - i)));
  }

  lemma BitFits(x: nat, p: nat)
    requires x < TWO32 && p < 32 && x / P(31 - p) % 2 != 1
    ensures x + P(31 - p) < TWO32
  {
    LimbHalves(p);
    EvenQuotientFits(x, P(31 - p), P(p));
  }

  lemma EvenQuotientFits(x: nat, bit: int, c: int)
    requires bit > 0 && x < bit * (2 * c) && x / bit % 2 != 1
    ensures x + bit < bit * (2 * c)
  {
    QuotientBelow(x, bit, 2 * c);
    FieldBound(x % bit, x / bit + 1, bit, 2 * c);
  }

  /** A bit read off the value. */
  lemma BitOfMultiple(s: seq<int>, place: nat, k: int)
    requires |s| == LIMBS && AllLimbs(s) && place < FRACTION
    requires k * P(191 - place) <= Val(s) < (k + 1) * P(191 - place)
    ensures TestBit(s, place) <==> k % 2 == 1
  {
    TestBitValue(s, place);
    QuotientBelow(Val(s), P(191 - place), k + 1);
    QuotientAtLeast(Val(s), P(191 - place), k);
  }

  // ---- The cases of float_const ----

  /** The field weights of a format, in units of its last bit. */
  lemma FormatPlaces(f: Format)
    requires f.Valid()
    ensures P(191 - f.exponent) == P(f.mantissa + f.explicit) * Unit(f)
    ensures P(192 - OnePlace(f)) == P(f.mantissa + 1) * Unit(f)
    ensures P(191 - OnePlace(f)) == P(f.mantissa) * Unit(f)
    ensures P(190 - OnePlace(f)) == P(f.mantissa - 1) * Unit(f)
  {
    Places(f, f.exponent + 1);
    Places(f, OnePlace(f));
    Places(f, OnePlace(f) + 1);
    Places(f, OnePlace(f) + 2);
  }

  /** Adding the exponent field adds it to the pattern. */
  lemma FieldPattern(v: int, biased: int, f: Format)
    requires f.Valid()
    ensures (v + biased * P(191 - f.exponent)) / Unit(f) == v / Unit(f) + biased * P(f.mantissa + f.explicit)
  {
    FormatPlaces(f);
    AddMultiple(v, Unit(f), biased, P(f.mantissa + f.explicit));
  }

  lemma AddMultiple(v: int, u: int, k: int, p: int)
    requires u > 0
    ensures (v + k * (p * u)) / u == v / u + k * p
  {
    assert v == u * (v / u) + v % u;
    assert k * (p * u) == u * (k * p);
    assert v + k * (p * u) == u * (v / u + k * p) + v % u;
    ModUnique(v + k * (p * u), u, v / u + k * p, v % u);
  }

  /** The number in `mant` shows the datum, sign apart. */
  ghost predicate Shows(v: int, x: Datum, f: Format)
    requires f.Valid()
  {
    0 <= v < P(FRACTION - 1) && v / Unit(f) == Pattern(f, x, false)
  }

  /** Puts the exponent field over a significand whose integer bit may have to go. */
  method PackFields(mant: array<Limb>, biased: nat, f: Format, ghost sig: nat)
    requires mant.Length == LIMBS && f.Valid() && biased < P(f.exponent)
    requires P(f.mantissa) * Unit(f) <= Val(mant[..]) < P(f.mantissa + 1) * Unit(f) && Val(mant[..]) / Unit(f) == sig
    modifies mant
    ensures Shows(Val(mant[..]), Datum(biased, sig), f)
  {
    HideOne(mant, f, sig);
    ghost var body := Val(mant[..]);
    ValRange(mant[..]);
    PMonotone(f.exponent, f.exponent + 1);
    SetField(mant, biased, f.exponent);
    FieldPattern(body, biased, f);
    PatternFits(body, biased, f);
    ShlIs(biased, f.mantissa + f.explicit);
  }

  /** Removes the integer bit if the format has none. */
  method HideOne(mant: array<Limb>, f: Format, ghost sig: nat)
    requires mant.Length == LIMBS && f.Valid()
    requires P(f.mantissa) * Unit(f) <= Val(mant[..]) < P(f.mantissa + 1) * Unit(f) && Val(mant[..]) / Unit(f) == sig
    modifies mant
    ensures Val(mant[..]) < P(191 - f.exponent)
    ensures P(f.mantissa) <= sig
    ensures Val(mant[..]) / Unit(f) == if f.explicit == 1 then sig else sig - P(f.mantissa)
  {
    FormatPlaces(f);
    BitOfMultiple(mant[..], OnePlace(f), 1);
    ghost var v := Val(mant[..]);
    QuotientAtLeast(v, Unit(f), P(f.mantissa));
    if f.explicit == 0 {
      ClearPlace(mant, OnePlace(f));
      AddMultiple(v, Unit(f), -1, P(f.mantissa));
    }
  }

  lemma PatternFits(body: int, biased: int, f: Format)
    requires f.Valid() && 0 <= body < P(191 - f.exponent) && 0 <= biased < P(f.exponent)
    ensures 0 <= body + biased * P(191 - f.exponent) < P(FRACTION - 1)
  {
    PAdd(f.exponent, 191 - f.exponent);
    FieldBound(body, biased, P(191 - f.exponent), P(f.exponent));
  }

  /** Rounding away from zero works exactly when nothing is dropped or the guard bit is
      set: with a clear guard bit the increment stays in the guard bit. */
  lemma AwayIsCeilingIff(v: int, half: int)
    requires half > 0
    ensures Rounded(Up, false, v, half) / (2 * half) == -(-v / (2 * half)) <==> v / half % 2 == 1 || v % half == 0
  {
    var q, r := v / (2 * half), v % (2 * half);
    assert v == 2 * half * q + r;
    RoundedHalves(Up, false, v, half);
    RemainderByTwo(v, half);
    DivDiv(v, half, 2);
    if r == 0 {
      ModUnique(-v, 2 * half, -q, 0);
    } else {
      assert -v == 2 * half * (-q - 1) + (2 * half - r);
      ModUnique(-v, 2 * half, -q - 1, 2 * half - r);
    }
  }

  /** A quarter of a unit is rounded up to nothing. */
  lemma AwayStaysBelow()
    ensures Rounded(Up, false, 1, 2) / 4 == 0 && -(-1 / 4) == 1
  {
  }
}
