/** Floating-point constants in hexadecimal, octal and binary: text to bytes. */
module Floats {
  import opened Basics
  import opened Limbs
  import opened Rounding
  import opened Ieee
  import opened FloatPacking

  /** The mantissa array holds a normalised fraction. */
  predicate Normalised(m: int) {
    P(FRACTION - 1) <= m < P(FRACTION)
  }

  /** The significand after rounding, and where it stands before the fields are packed. */
  lemma NormalPlaces(mode: Mode, minus: bool, m: nat, f: Format)
    requires f.Valid() && Normalised(m)
    ensures var v, k := Rounded(mode, minus, m / P(OnePlace(f)), Half(f)), Kept(mode, minus, m, OnePlace(f), f);
      && k == v / Unit(f) && P(f.mantissa) <= k <= P(f.mantissa + 1)
      && P(f.mantissa) * Unit(f) <= v <= P(f.mantissa + 1) * Unit(f)
      && (k == P(f.mantissa + 1) <==> v == P(f.mantissa + 1) * Unit(f))
  {
    KeptIs(mode, minus, m, OnePlace(f), f);
    ShiftedBounds(m, OnePlace(f), f);
    RoundedRange(mode, minus, m / P(OnePlace(f)), Half(f), P(f.mantissa), P(f.mantissa + 1));
  }

  lemma DenormalPlaces(mode: Mode, minus: bool, m: nat, shift: nat, f: Format)
    requires f.Valid() && Normalised(m) && shift > OnePlace(f)
    ensures var v, k := Rounded(mode, minus, m / P(shift), Half(f)), Kept(mode, minus, m, shift, f);
      && k == v / Unit(f) && 0 <= k <= P(f.mantissa) && 0 <= v <= P(f.mantissa) * Unit(f)
      && (k == P(f.mantissa) <==> v == P(f.mantissa) * Unit(f))
  {
    KeptIs(mode, minus, m, shift, f);
    ShiftedBounds(m, shift, f);
    RoundedRange(mode, minus, m / P(shift), Half(f), 0, P(f.mantissa));
  }

  /** Six limbs hold every rounded significand. */
  lemma NoOverflow(v: int, f: Format)
    requires f.Valid() && v <= P(f.mantissa + 1) * Unit(f)
    ensures v < P(FRACTION)
  {
    FormatPlaces(f);
    PMonotone(193 - OnePlace(f), FRACTION);
  }

  class Floats {
    var daz: bool
    var rc: Mode

    /** Shift and round; the place of the leading one is `OnePlace`. */
    method ShiftAndRound(mant: array<Limb>, shift: nat, minus: bool, f: Format)
      requires mant.Length == LIMBS && f.Valid() && Normalised(Val(mant[..])) && shift >= OnePlace(f)
      modifies mant
      ensures Val(mant[..]) == Rounded(rc, minus, old(Val(mant[..])) / P(shift), Half(f))
    {
      ghost var m := Val(mant[..]);
      IeeeShr(mant, shift);
      var overflow := IeeeRound(rc, minus, mant, 8 * f.bytes);
      if shift == OnePlace(f) {
        NormalPlaces(rc, minus, m, f);
      } else {
        DenormalPlaces(rc, minus, m, shift, f);
        MulMonotone(Unit(f), P(f.mantissa), P(f.mantissa + 1));
      }
      NoOverflow(Rounded(rc, minus, m / P(shift), Half(f)), f);
      ValRange(mant[..]);
    }

    /** A carry out of the significand moves it one place down. */
    method Renormalise(mant: array<Limb>, exponent: int, f: Format, ghost k: nat) returns (exponent2: int)
      requires mant.Length == LIMBS && f.Valid() && Val(mant[..]) / Unit(f) == k
      requires P(f.mantissa) * Unit(f) <= Val(mant[..]) <= P(f.mantissa + 1) * Unit(f)
      requires k == P(f.mantissa + 1) <==> Val(mant[..]) == P(f.mantissa + 1) * Unit(f)
      modifies mant
      ensures exponent2 == exponent + (if k == P(f.mantissa + 1) then 1 else 0)
      ensures P(f.mantissa) * Unit(f) <= Val(mant[..]) < P(f.mantissa + 1) * Unit(f)
      ensures Val(mant[..]) / Unit(f) == if k == P(f.mantissa + 1) then P(f.mantissa) else k
    {
      exponent2 := exponent;
      CarryPlace(mant[..], f);
      if TestBit(mant[..], OnePlace(f) - 1) {
        IeeeShr(mant, 1);
        HalvedCarry(f);
        exponent2 := exponent + 1;
      }
    }

    /** A number with a normal exponent, unless rounding pushes it past the largest one. */
    method PackNormal(mant: array<Limb>, e: int, minus: bool, f: Format) returns (overflow: bool)
      requires mant.Length == LIMBS && f.Valid() && Normalised(Val(mant[..])) && Classify(e, f) == NormalKind
      modifies mant
      ensures !overflow ==> Shows(Val(mant[..]), Produced(rc, minus, daz, old(Val(mant[..])), e, f), f)
      ensures overflow ==> Produced(rc, minus, daz, old(Val(mant[..])), e, f) == Infinity(f)
    {
      hide Kept;
      hide Pattern;
      hide Infinity;
      ghost var m := Val(mant[..]);
      ghost var k := Kept(rc, minus, m, OnePlace(f), f);
      ShiftAndRound(mant, OnePlace(f), minus, f);
      NormalPlaces(rc, minus, m, f);
      var biased := e + f.ExpMax() - 1;
      var exponent := Renormalise(mant, biased, f, k);
      overflow := exponent > biased && exponent >= 2 * f.ExpMax() - 1;
      if !overflow {
        PackFields(mant, exponent, f, if exponent > biased then P(f.mantissa) else k);
      }
    }

    /** A number below the smallest normal one. */
    method PackDenormal(mant: array<Limb>, e: int, minus: bool, f: Format)
      requires mant.Length == LIMBS && f.Valid() && Normalised(Val(mant[..])) && Classify(e, f) == DenormalKind
      modifies mant
      ensures Shows(Val(mant[..]), Produced(rc, minus, daz, old(Val(mant[..])), e, f), f)
    {
      ghost var m := Val(mant[..]);
      var shift := DenormalShift(e, f);
      ShiftAndRound(mant, shift, minus, f);
      DenormalPlaces(rc, minus, m, shift, f);
      ghost var k := Kept(rc, minus, m, shift, f);
      OnePlaceSet(mant[..], f);
      if TestBit(mant[..], OnePlace(f)) {
        CompareScaled(P(f.mantissa), P(f.mantissa + 1), Unit(f));
        PackFields(mant, 1, f, k);
      } else {
        var zero := IsZero(mant);
        if daz || zero {
          Clear(mant, LIMBS);
          ZeroValue(mant[..]);
        }
        SmallShows(Val(mant[..]), f);
      }
    }

    /** All exponent bits, and the integer bit if there is one. */
    method PackField(mant: array<Limb>, f: Format)
      requires mant.Length == LIMBS && f.Valid()
      modifies mant
      ensures Val(mant[..]) == FieldValue(f)
    {
      Clear(mant, LIMBS);
      ZeroValue(mant[..]);
      PMonotone(f.exponent, f.exponent + 1);
      SetField(mant, P(f.exponent) - 1, f.exponent);
      if f.explicit == 1 {
        BitClear(mant[..], OnePlace(f), P(f.exponent) - 1);
        SetPlace(mant, OnePlace(f));
      }
    }

    /** Infinities and NaNs. */
    method PackSpecial(mant: array<Limb>, kind: Kind, f: Format)
      requires mant.Length == LIMBS && f.Valid() && (kind.InfinityKind? || kind.QNanKind? || kind.SNanKind?)
      modifies mant
      ensures Shows(Val(mant[..]), Special(kind, f), f)
    {
      PackField(mant, f);
      FieldMultiple(f);
      if kind.QNanKind? {
        BitClear(mant[..], OnePlace(f) + 1, FieldCount(f));
        SetPlace(mant, OnePlace(f) + 1);
      } else if kind.SNanKind? {
        BitClear(mant[..], OnePlace(f) + f.mantissa, FieldCount(f) * P(f.mantissa - 1));
        SetPlace(mant, OnePlace(f) + f.mantissa);
      }
      SpecialShows(Val(mant[..]), kind, f);
    }

    /** Packs a normalised mantissa with its exponent. */
    method PackNumber(mant: array<Limb>, e: int, minus: bool, f: Format)
      requires mant.Length == LIMBS && f.Valid() && Normalised(Val(mant[..]))
      modifies mant
      ensures Shows(Val(mant[..]), Produced(rc, minus, daz, old(Val(mant[..])), e, f), f)
    {
      if e >= 2 - f.ExpMax() && e <= f.ExpMax() {
        var overflow := PackNormal(mant, e, minus, f);
        if overflow {
          PackSpecial(mant, InfinityKind, f);
        }
      } else if e > 0 {
        PackSpecial(mant, InfinityKind, f);
      } else {
        PackDenormal(mant, e, minus, f);
      }
    }
  }

  /** The carry of rounding shows in the place above the leading one. */
  lemma CarryPlace(s: seq<int>, f: Format)
    requires |s| == LIMBS && AllLimbs(s) && f.Valid()
    requires P(f.mantissa) * Unit(f) <= Val(s) <= P(f.mantissa + 1) * Unit(f)
    ensures TestBit(s, OnePlace(f) - 1) <==> Val(s) == P(f.mantissa + 1) * Unit(f)
  {
    FormatPlaces(f);
    BitOfMultiple(s, OnePlace(f) - 1, if Val(s) == P(f.mantissa + 1) * Unit(f) then 1 else 0);
  }

  lemma OnePlaceSet(s: seq<int>, f: Format)
    requires |s| == LIMBS && AllLimbs(s) && f.Valid() && Val(s) <= P(f.mantissa) * Unit(f)
    ensures TestBit(s, OnePlace(f)) <==> Val(s) == P(f.mantissa) * Unit(f)
  {
    FormatPlaces(f);
    ValRange(s);
    BitOfMultiple(s, OnePlace(f), if Val(s) == P(f.mantissa) * Unit(f) then 1 else 0);
  }

  lemma HalvedCarry(f: Format)
    requires f.Valid()
    ensures var v := P(f.mantissa + 1) * Unit(f);
      && v / P(1) == P(f.mantissa) * Unit(f) && v / P(1) / Unit(f) == P(f.mantissa)
      && v / P(1) < P(f.mantissa + 1) * Unit(f)
  {
    var p, u := P(f.mantissa), Unit(f);
    assert 2 * p * u == 2 * (p * u);
    ModUnique(2 * p * u, 2, p * u, 0);
    ModUnique(p * u, u, p, 0);
    MulMonotone(p, 1, u);
  }

  lemma SmallShows(v: int, f: Format)
    requires f.Valid() && 0 <= v < P(f.mantissa) * Unit(f)
    ensures v / Unit(f) >= 0 && Shows(v, Datum(0, v / Unit(f)), f)
  {
    SmallRange(v, f);
    SmallPattern(v / Unit(f), f);
  }

  lemma SmallRange(v: int, f: Format)
    requires f.Valid() && 0 <= v < P(f.mantissa) * Unit(f)
    ensures v < P(FRACTION - 1) && 0 <= v / Unit(f) < P(f.mantissa)
  {
    Places(f, OnePlace(f) + 1);
    PMonotone(191 - OnePlace(f), FRACTION - 1);
    SmallQuotient(v, P(f.mantissa), Unit(f));
  }

  lemma SmallQuotient(v: int, p: int, u: int)
    requires u > 0 && 0 <= v < p * u
    ensures 0 <= v / u < p
  {
    QuotientRange(v, u);
    QuotientBelow(v, u, p);
  }

  lemma SmallPattern(k: nat, f: Format)
    requires f.Valid() && k < P(f.mantissa)
    ensures Pattern(f, Datum(0, k), false) == k
  {
    ShlIs(0, f.mantissa + f.explicit);
  }

  method IsZero(mant: array<Limb>) returns (zero: bool)
    requires mant.Length == LIMBS
    ensures zero <==> Val(mant[..]) == 0
  {
    ValZeroIff(mant[..]);
    for i := 0 to LIMBS
      invariant forall k | 0 <= k < i :: mant[k] == 0
    {
      if mant[i] != 0 {
        return false;
      }
    }
    zero := true;
  }

  function Special(kind: Kind, f: Format): Datum
    requires f.Valid()
  {
    match kind
    case QNanKind => QuietNan(f)
    case SNanKind => SignalingNan(f)
    case _ => Infinity(f)
  }

  /** All exponent bits and the integer bit, in units of the place of the integer bit. */
  function FieldCount(f: Format): (k: nat)
    requires f.Valid()
  {
    if f.explicit == 1 then 2 * P(f.exponent) - 1 else P(f.exponent) - 1
  }

  function FieldValue(f: Format): int
    requires f.Valid()
  {
    (P(f.exponent) - 1) * P(191 - f.exponent) + (if f.explicit == 1 then P(191 - OnePlace(f)) else 0)
  }

  lemma FieldMultiple(f: Format)
    requires f.Valid()
    ensures FieldValue(f) == FieldCount(f) * (2 * P(190 - OnePlace(f)))
    ensures FieldCount(f) * (2 * P(190 - OnePlace(f)))
            == FieldCount(f) * P(f.mantissa - 1) * (2 * P(191 - (OnePlace(f) + f.mantissa)))
  {
    FieldArithmetic(P(f.exponent) - 1, P(190 - OnePlace(f)), P(191 - OnePlace(f)), P(192 - OnePlace(f)));
    Places(f, OnePlace(f) + 2);
    DoubledProduct(FieldCount(f), P(f.mantissa - 1), Unit(f));
  }

  lemma FieldArithmetic(c: int, x: int, y: int, z: int)
    requires y == 2 * x && z == 2 * y
    ensures c * y == c * (2 * x) && c * z + y == (2 * (c + 1) - 1) * (2 * x)
  {
  }

  lemma DoubledProduct(k: int, p: int, u: int)
    ensures k * (2 * (p * u)) == k * p * (2 * u)
  {
  }

  lemma BitClear(s: seq<int>, place: nat, k: int)
    requires |s| == LIMBS && AllLimbs(s) && place < FRACTION && Val(s) == k * (2 * P(191 - place))
    ensures !TestBit(s, place)
  {
    ScaleUp(k, 2, P(191 - place));
    assert (2 * k + 1) * P(191 - place) == 2 * k * P(191 - place) + P(191 - place);
    BitOfMultiple(s, place, 2 * k);
  }

  /** What special values have below the exponent field, in units of the last bit. */
  function SpecialUnits(kind: Kind, f: Format): nat
    requires f.Valid()
  {
    (if f.explicit == 1 then P(f.mantissa) else 0)
    + (if kind.QNanKind? then P(f.mantissa - 1) else if kind.SNanKind? then 1 else 0)
  }

  lemma SpecialShows(v: int, kind: Kind, f: Format)
    requires f.Valid() && (kind.InfinityKind? || kind.QNanKind? || kind.SNanKind?)
    requires v == FieldValue(f) + (if kind.QNanKind? then P(190 - OnePlace(f)) else
                                   if kind.SNanKind? then P(191 - (OnePlace(f) + f.mantissa)) else 0)
    ensures Shows(v, Special(kind, f), f)
  {
    SpecialBody(kind, f);
    SpecialBound(kind, f);
    FieldShows(SpecialUnits(kind, f), SpecialUnits(kind, f) * Unit(f), P(f.exponent) - 1, f);
    SpecialPattern(kind, f);
  }

  /** An exponent field over a whole number of units. */
  lemma FieldShows(units: nat, body: int, biased: int, f: Format)
    requires f.Valid() && body == units * Unit(f) && 0 <= body < P(191 - f.exponent) && 0 <= biased < P(f.exponent)
    ensures var v := body + biased * P(191 - f.exponent);
      0 <= v < P(FRACTION - 1) && v / Unit(f) == units + biased * P(f.mantissa + f.explicit)
  {
    FieldPattern(body, biased, f);
    PatternFits(body, biased, f);
    ModUnique(body, Unit(f), units, 0);
  }

  lemma SpecialBody(kind: Kind, f: Format)
    requires f.Valid()
    ensures SpecialUnits(kind, f) * Unit(f)
            == (if f.explicit == 1 then P(191 - OnePlace(f)) else 0)
               + (if kind.QNanKind? then P(190 - OnePlace(f)) else
                  if kind.SNanKind? then P(191 - (OnePlace(f) + f.mantissa)) else 0)
  {
    Places(f, OnePlace(f) + 2);
    SpecialSum(f.explicit == 1, kind.QNanKind?, kind.SNanKind?, P(f.mantissa - 1), Unit(f));
  }

  lemma SpecialSum(explicit: bool, quiet: bool, signaling: bool, p: int, u: int)
    ensures ((if explicit then 2 * p else 0) + (if quiet then p else if signaling then 1 else 0)) * u
            == (if explicit then 2 * (p * u) else 0) + (if quiet then p * u else if signaling then u else 0)
  {
    assert 2 * p * u == 2 * (p * u);
  }

  lemma SpecialBound(kind: Kind, f: Format)
    requires f.Valid()
    ensures 0 <= SpecialUnits(kind, f) * Unit(f) < P(191 - f.exponent)
  {
    Places(f, f.exponent + 1);
    SpecialUnitsFit(kind, f);
    CompareScaled(SpecialUnits(kind, f), P(f.mantissa + f.explicit), Unit(f));
    MulMonotone(Unit(f), 0, SpecialUnits(kind, f));
  }

  lemma SpecialUnitsFit(kind: Kind, f: Format)
    requires f.Valid()
    ensures SpecialUnits(kind, f) < P(f.mantissa + f.explicit)
  {
  }

  lemma SpecialPattern(kind: Kind, f: Format)
    requires f.Valid() && (kind.InfinityKind? || kind.QNanKind? || kind.SNanKind?)
    ensures Pattern(f, Special(kind, f), false)
            == (P(f.exponent) - 1) * P(f.mantissa + f.explicit) + SpecialUnits(kind, f)
  {
    ShlIs(2 * f.ExpMax() - 1, f.mantissa + f.explicit);
    assert 2 * f.ExpMax() == P(f.exponent);
  }

  // ---- Output ----

  /** The number that little-endian bytes stand for. */
  function LeValue(s: seq<byte>): int {
    if s == [] then 0 else s[0] as int + 256 * LeValue(s[1..])
  }

  lemma {:induction false} LeAppend(s: seq<byte>, b: byte)
    ensures LeValue(s + [b]) == LeValue(s) + b as int * P(8 * |s|)
  {
    if s == [] {
      assert s + [b] == [b];
      assert LeValue([b][1..]) == 0;
    } else {
      assert (s + [b])[1..] == s[1..] + [b];
      LeAppend(s[1..], b);
      Eight(|s| - 1);
      ScaleUp(b as int, P(8 * (|s| - 1)), 256);
    }
  }

  lemma Eight(n: nat)
    ensures P(8 * (n + 1)) == P(8 * n) * 256
  {
    assert P(8 * n + 8) == 2 * P(8 * n + 7) == 4 * P(8 * n + 6) == 8 * P(8 * n + 5) == 16 * P(8 * n + 4);
    assert P(8 * n + 4) == 2 * P(8 * n + 3) == 4 * P(8 * n + 2) == 8 * P(8 * n + 1) == 16 * P(8 * n);
  }

  /** Byte `i` of the number, read from its limb. */
  lemma LimbByte(s: seq<int>, i: nat)
    requires |s| == LIMBS && AllLimbs(s) && i < 24
    ensures s[i / 4] / P(8 * (3 - i % 4)) % 256 == Val(s) / P(184 - 8 * i) % 256
  {
    var p := 7 + 8 * (i % 4);
    RoundPlace(s, i / 4, p);
    Eight(i % 4);
    ByteTerm(Val(s[..i / 4]), P(8 * (i % 4)), s[i / 4] / P(31 - p));
  }

  lemma ByteTerm(head: int, c: int, x: int)
    ensures (head * (c * 256) + x) % 256 == x % 256
  {
    assert head * (c * 256) == 256 * (head * c);
    ModUnique(head * (c * 256) + x, 256, head * c + x / 256, x % 256);
  }

  lemma NextByte(v: int, i: nat, n: nat)
    requires i < 24
    ensures v / P(184 - 8 * i) * P(8 * n)
            == v / P(184 - 8 * i) % 256 * P(8 * n) + v / P(192 - 8 * i) * P(8 * (n + 1))
  {
    Eight(23 - i);
    Eight(n);
    DivDiv(v, P(184 - 8 * i), 256);
    var q, w := v / P(184 - 8 * i), P(8 * n);
    assert q == 256 * (q / 256) + q % 256;
    assert q * w == 256 * (q / 256) * w + q % 256 * w;
    assert 256 * (q / 256) * w == q / 256 * (w * 256);
  }

  /** Writes the first `bytes` bytes of the mantissa, the last one first. */
  method Output(mant: array<Limb>, bytes: nat) returns (result: seq<byte>)
    requires mant.Length == LIMBS && bytes <= 20
    ensures |result| == bytes && LeValue(result) == Val(mant[..]) / P(192 - 8 * bytes)
  {
    result := [];
    ghost var v := Val(mant[..]);
    var i := bytes;
    while i > 0
      invariant 0 <= i <= bytes && |result| == bytes - i
      invariant v / P(192 - 8 * bytes) == LeValue(result) + v / P(192 - 8 * i) * P(8 * |result|)
    {
      i := i - 1;
      LimbByte(mant[..], i);
      var b: byte := mant[i / 4] / P(8 * (3 - i % 4)) % 256;
      LeAppend(result, b);
      NextByte(v, i, |result|);
      result := result + [b];
    }
    ValRange(mant[..]);
    ModUnique(v, P(192 - 8 * i), 0, v);
  }
}
