/** Numbers as they are written, and that they are read as themselves: digits in either case,
    underscores, a point, and a decimal exponent of two. */
module FloatPrint {
  import opened Basics
  import opened Digits
  import opened Limbs
  import opened Rounding
  import opened Ieee
  import opened FloatPacking
  import opened Floats
  import opened FloatText
  import opened FloatConst

  /** A digit in one of the two cases, or an underscore, which counts for nothing. */
  datatype Glyph = Digit(v: nat, upper: bool) | Underscore

  predicate InBase(g: seq<Glyph>, base: nat) {
    forall k | 0 <= k < |g| :: g[k].Digit? ==> g[k].v < base
  }

  function CharOf(g: Glyph): char
    requires g.Digit? ==> g.v < 16
  {
    match g
    case Digit(v, upper) => if upper then UPPER[v] else LOWER[v]
    case Underscore => '_'
  }

  function Text(g: seq<Glyph>): (t: string)
    requires InBase(g, 16)
    ensures |t| == |g|
  {
    seq(|g|, k requires 0 <= k < |g| => CharOf(g[k]))
  }

  /** The digits alone. */
  function Values(g: seq<Glyph>): seq<nat> {
    if g == [] then [] else (if g[0].Digit? then [g[0].v] else []) + Values(g[1..])
  }

  // ---- One more digit ----

  lemma {:induction false} ValuesAppend(a: seq<Glyph>, g: Glyph)
    ensures Values(a + [g]) == Values(a) + (if g.Digit? then [g.v] else [])
  {
    if a == [] {
      assert [] + [g] == [g] && [g][1..] == [];
    } else {
      ValuesAppend(a[1..], g);
      assert (a + [g])[1..] == a[1..] + [g];
    }
  }

  /** Every digit is read as itself. */
  lemma DigitRead(g: Glyph)
    requires g.Digit? ==> g.v < 16
    ensures g.Digit? ==> HexVal(CharOf(g)) == g.v
    ensures !g.Digit? ==> HexVal('_') == 255
    ensures CharOf(g) != '.' && CharOf(g) != 'p' && CharOf(g) != 'P' && (CharOf(g) == '_' <==> !g.Digit?)
  {
  }

  // ---- Digits and point ----

  lemma BasePower(bits: nat)
    requires 0 < bits <= 4
    ensures P(bits) <= 16 && (P(bits) == if bits == 1 then 2 else if bits == 2 then 4 else if bits == 3 then 8 else 16)
  {
    assert P(0) == 1 && P(1) == 2 && P(2) == 4 && P(3) == 8 && P(4) == 16;
  }

  /** One more glyph is one more digit, or nothing. */
  lemma GlyphStep(t: string, st: Scanned, g: Glyph, bits: nat)
    requires P(bits) <= 16 && (g.Digit? ==> g.v < P(bits)) && Scan(t, bits) == Some(st)
    ensures Scan(t + [CharOf(g)], bits) == Some(if g.Digit? then WithDigit(st, g.v, bits) else st)
  {
    hide CharOf;
    hide HexVal;
    hide P;
    DigitRead(g);
    var u := t + [CharOf(g)];
    assert u[..|u| - 1] == t;
  }

  lemma TextAppend(g: seq<Glyph>, last: Glyph)
    requires InBase(g, 16) && (last.Digit? ==> last.v < 16)
    ensures InBase(g + [last], 16) && Text(g + [last]) == Text(g) + [CharOf(last)]
  {
    hide CharOf;
  }

  /** What the reader holds after more glyphs. */
  function After(st: Scanned, g: seq<Glyph>, d: nat): Scanned {
    Scanned(d, st.frac + (if st.dot then |Values(g)| else 0), st.dot)
  }

  /** Glyphs after what was read already. */
  lemma {:induction false} GlyphsScan(before: string, st: Scanned, a: seq<Glyph>, g: seq<Glyph>, bits: nat)
    requires P(bits) <= 16 && InBase(g, P(bits))
    requires Scan(before, bits) == Some(st) && st.d == ValueOf(Values(a), P(bits))
    ensures Scan(before + Text(g), bits) == Some(After(st, g, ValueOf(Values(a + g), P(bits))))
    decreases |g|
  {
    hide ValueOf;
    hide CharOf;
    hide Scan;
    hide P;
    hide Text;
    if g == [] {
      assert Text(g) == [];
      assert before + Text(g) == before && a + g == a;
    } else {
      var n := |g| - 1;
      var rest, last := g[..n], g[n];
      assert rest + [last] == g;
      GlyphsScan(before, st, a, rest, bits);
      TextAppend(rest, last);
      assert (before + Text(rest)) + [CharOf(last)] == before + Text(g);
      GlyphStep(before + Text(rest), After(st, rest, ValueOf(Values(a + rest), P(bits))), last, bits);
      assert (a + rest) + [last] == a + g;
      ValuesAppend(rest, last);
      ValuesAppend(a + rest, last);
      if last.Digit? {
        ValueAppend(Values(a + rest), last.v, P(bits));
      } else {
        assert Values(a + rest) + [] == Values(a + rest);
      }
    }
  }

  /** A significand: digits, and a point among them if there are digits after it. */
  function Significand(a: seq<Glyph>, b: seq<Glyph>, point: bool): string
    requires InBase(a, 16) && InBase(b, 16)
  {
    Text(a) + (if point then "." + Text(b) else "")
  }

  lemma PointScan(before: string, st: Scanned, bits: nat)
    requires Scan(before, bits) == Some(st) && !st.dot
    ensures Scan(before + ".", bits) == Some(st.(dot := true))
  {
    var t := before + ".";
    assert t[..|t| - 1] == before && t[|t| - 1] == '.';
  }

  lemma NothingScanned(bits: nat)
    ensures Scan("", bits) == Some(Scanned(0, 0, false))
  {
  }

  lemma SignificandScan(a: seq<Glyph>, b: seq<Glyph>, point: bool, bits: nat)
    requires 0 < bits <= 4 && P(bits) <= 16 && InBase(a, P(bits)) && InBase(b, P(bits)) && (!point ==> b == [])
    ensures Scan(Significand(a, b, point), bits) == Some(Scanned(ValueOf(Values(a + b), P(bits)), |Values(b)|, point))
  {
    hide Scan;
    hide Values;
    hide ValueOf;
    hide Text;
    hide P;
    NothingIsZero(P(bits));
    NothingScanned(bits);
    GlyphsScan("", Scanned(0, 0, false), [], a, bits);
    assert "" + Text(a) == Text(a) && [] + a == a;
    if point {
      var st := Scanned(ValueOf(Values(a), P(bits)), 0, false);
      PointScan(Text(a), st, bits);
      GlyphsScan(Text(a) + ".", st.(dot := true), a, b, bits);
      assert Significand(a, b, point) == Text(a) + "." + Text(b);
    } else {
      assert Significand(a, b, point) == Text(a) && a + b == a;
    }
  }

  /** No letter in it starts an exponent. */
  lemma SignificandPlain(a: seq<Glyph>, b: seq<Glyph>, point: bool)
    requires InBase(a, 16) && InBase(b, 16)
    ensures var t := Significand(a, b, point); forall k | 0 <= k < |t| :: t[k] != 'p' && t[k] != 'P'
  {
    forall g: Glyph | g.Digit? ==> g.v < 16 ensures CharOf(g) != 'p' && CharOf(g) != 'P' {
      DigitRead(g);
    }
    hide CharOf;
  }

  // ---- Exponents ----

  datatype Sign = NoSign | PlusSign | MinusSign

  function SignText(s: Sign): string {
    match s
    case NoSign => ""
    case PlusSign => "+"
    case MinusSign => "-"
  }

  lemma {:induction false} DecimalRead(g: seq<Glyph>)
    requires InBase(g, 10)
    ensures InBase(g, 16) && DecimalText(Text(g)) && Decimal(Text(g)) == ValueOf(Values(g), 10)
  {
    hide ValueOf;
    hide CharOf;
    hide Text;
    if g == [] {
      assert Text(g) == "";
      NothingIsZero(10);
    } else {
      var n := |g| - 1;
      var rest, last := g[..n], g[n];
      assert rest + [last] == g;
      DecimalRead(rest);
      TextAppend(rest, last);
      DecimalDigit(last);
      DecimalStep(Text(rest), CharOf(last));
      ValuesAppend(rest, last);
      if last.Digit? {
        ValueAppend(Values(rest), last.v, 10);
      } else {
        assert Values(rest) + [] == Values(rest);
      }
    }
  }

  lemma NothingIsZero(base: nat)
    ensures Values([]) == [] && ValueOf([], base) == 0 && Decimal("") == 0
  {
  }

  lemma DecimalStep(t: string, c: char)
    requires DecimalText(t) && ('0' <= c <= '9' || c == '_')
    ensures DecimalText(t + [c])
    ensures Decimal(t + [c]) == if c == '_' then Decimal(t) else Decimal(t) * 10 + (c as int - '0' as int)
  {
    var u := t + [c];
    assert u[..|u| - 1] == t && u[|u| - 1] == c;
  }

  lemma DecimalDigit(g: Glyph)
    requires g.Digit? ==> g.v < 10
    ensures g.Digit? ==> '0' <= CharOf(g) <= '9' && CharOf(g) as int - '0' as int == g.v
    ensures CharOf(g) == '_' <==> !g.Digit?
  {
  }

  /** A written exponent is read with its sign, up to the cap. */
  lemma ExponentRead(s: Sign, g: seq<Glyph>, max: nat)
    requires InBase(g, 10) && ValueOf(Values(g), 10) <= max
    ensures Exponent(SignText(s) + Text(g), max)
            == Some(if s.MinusSign? then -(ValueOf(Values(g), 10) as int) else ValueOf(Values(g), 10))
  {
    hide Decimal;
    hide DecimalText;
    hide Text;
    hide ValueOf;
    hide Values;
    DecimalRead(g);
    FirstDigit(g);
    var t := SignText(s) + Text(g);
    if s.NoSign? {
      assert t == Text(g);
    } else {
      assert t[1..] == Text(g);
    }
  }

  lemma FirstDigit(g: seq<Glyph>)
    requires InBase(g, 10)
    ensures var t := Text(g); t != "" ==> t[0] != '+' && t[0] != '-'
  {
    if g != [] {
      DecimalDigit(g[0]);
    }
  }

  // ---- Whole numbers ----

  /** A number with its exponent, if it has one. */
  datatype Written = Written(a: seq<Glyph>, b: seq<Glyph>, point: bool, exp: Option<(char, Sign, seq<Glyph>)>)
  {
    predicate Valid(base: nat) {
      && base <= 16 && InBase(a, base) && InBase(b, base) && (!point ==> b == [])
      && (exp.Some? ==> (exp.value.0 == 'p' || exp.value.0 == 'P') && InBase(exp.value.2, 10)
                        && ValueOf(Values(exp.value.2), 10) <= MAXEXP)
    }

    /** There are digits, and digits in the exponent. */
    predicate Printable() {
      |a| + |b| > 0 && (exp.Some? ==> exp.value.2 != [])
    }

    function Exp(): int {
      if exp.None? then 0
      else
        var e: int := ValueOf(Values(exp.value.2), 10);
        if exp.value.1.MinusSign? then -e else e
    }
  }

  function Print(w: Written): string
    requires w.Valid(16)
  {
    Significand(w.a, w.b, w.point) + ExponentText(w)
  }

  /** The number that is written: the value of all digits, with the point and the exponent of
      two. */
  function Meant(w: Written, bits: nat): Number {
    Number(ValueOf(Values(w.a + w.b), P(bits)), w.Exp() - bits * |Values(w.b)|)
  }

  lemma {:induction false} PowerFound(t: string, rest: string)
    requires forall k | 0 <= k < |t| :: t[k] != 'p' && t[k] != 'P'
    requires rest == "" || rest[0] == 'p' || rest[0] == 'P'
    ensures PowerPos(t + rest) == |t|
  {
    if t == "" {
      assert t + rest == rest;
    } else {
      PowerFound(t[1..], rest);
      assert (t + rest)[1..] == t[1..] + rest;
    }
  }

  lemma WiderBase(g: seq<Glyph>, base: nat)
    requires InBase(g, base) && base <= 16
    ensures InBase(g, 16)
  {
  }

  function ExponentText(w: Written): (t: string)
    requires w.Valid(16)
    ensures t == "" || t[0] == 'p' || t[0] == 'P'
  {
    if w.exp.None? then "" else [w.exp.value.0] + (SignText(w.exp.value.1) + Text(w.exp.value.2))
  }

  /** What is written is read. */
  lemma PrintedIsRead(w: Written, bits: nat)
    requires 0 < bits <= 4 && w.Valid(P(bits))
    ensures w.Valid(16) && Parse(Print(w), bits) == Some(Meant(w, bits))
  {
    hide Scan;
    hide Significand;
    hide Exponent;
    hide PowerPos;
    hide Text;
    hide Values;
    hide ValueOf;
    hide P;
    BasePower(bits);
    WiderBase(w.a, P(bits));
    WiderBase(w.b, P(bits));
    var t, rest := Significand(w.a, w.b, w.point), ExponentText(w);
    SignificandPlain(w.a, w.b, w.point);
    SignificandScan(w.a, w.b, w.point, bits);
    PowerFound(t, rest);
    assert (t + rest)[..|t|] == t;
    if w.exp.Some? {
      ExponentRead(w.exp.value.1, w.exp.value.2, MAXEXP);
      assert (t + rest)[|t| + 1..] == SignText(w.exp.value.1) + Text(w.exp.value.2);
    }
  }

  // ---- Every number has a text ----

  function Glyphs(d: seq<nat>, upper: bool): (g: seq<Glyph>)
    ensures |g| == |d|
  {
    seq(|d|, k requires 0 <= k < |d| => Digit(d[k], upper))
  }

  lemma {:induction false} GlyphValues(d: seq<nat>, upper: bool)
    ensures Values(Glyphs(d, upper)) == d
  {
    if d != [] {
      GlyphValues(d[1..], upper);
      assert Glyphs(d, upper)[1..] == Glyphs(d[1..], upper);
    }
  }

  /** d * 2^s in whole digits and an exponent of two. */
  function Plain(d: nat, s: int, base: nat, upper: bool): Written
    requires base >= 2
  {
    Written(Glyphs(DigitsOf(d, base), upper), [], false, Some(PlainExponent(s)))
  }

  function PlainExponent(s: int): (char, Sign, seq<Glyph>) {
    ('p', if s < 0 then MinusSign else NoSign, Glyphs(DigitsOf(if s < 0 then -s else s, 10), false))
  }

  lemma DigitGlyphs(n: nat, base: nat, upper: bool)
    requires 2 <= base <= 16
    ensures var g := Glyphs(DigitsOf(n, base), upper);
      g != [] && InBase(g, base) && ValueOf(Values(g), base) == n && Values(g) == DigitsOf(n, base)
  {
    DigitsValue(n, base);
    GlyphValues(DigitsOf(n, base), upper);
    hide DigitsOf;
    hide ValueOf;
    hide Values;
  }

  lemma PlainMeant(d: nat, s: int, base: nat, upper: bool)
    requires 2 <= base <= 16 && -MAXEXP <= s <= MAXEXP
    ensures var w := Plain(d, s, base, upper);
      && w.Valid(base) && w.Printable() && w.Exp() == s
      && ValueOf(Values(w.a + w.b), base) == d && |Values(w.b)| == 0
  {
    hide ValueOf;
    hide DigitsOf;
    hide Glyphs;
    DigitGlyphs(d, base, upper);
    DigitGlyphs(if s < 0 then -s else s, 10, false);
    var w := Plain(d, s, base, upper);
    assert w.a + w.b == w.a && Values(w.b) == [];
  }

  lemma EveryNumber(d: nat, s: int, bits: nat, upper: bool)
    requires 0 < bits <= 4 && -MAXEXP <= s <= MAXEXP
    ensures P(bits) >= 2
    ensures var w := Plain(d, s, P(bits), upper);
      w.Valid(P(bits)) && w.Printable() && w.Valid(16) && Parse(Print(w), bits) == Some(Number(d, s))
  {
    BasePower(bits);
    hide P;
    hide Plain;
    hide Values;
    hide ValueOf;
    hide Print;
    hide Parse;
    hide Written.Exp;
    PlainMeant(d, s, P(bits), upper);
    PrintedIsRead(Plain(d, s, P(bits), upper), bits);
  }

  // ---- Prefixes and tokens ----

  /** The prefixes of the radixes, with the bits of a digit. */
  const PREFIXES: seq<(string, nat)> :=
    [("0x", 4), ("0X", 4), ("0h", 4), ("0H", 4), ("$", 4), ("0o", 3), ("0O", 3), ("0q", 3), ("0Q", 3),
     ("0b", 1), ("0B", 1), ("0y", 1), ("0Y", 1)]

  lemma PrefixRead(k: nat, t: string)
    requires k < |PREFIXES| && t != "" && t[|t| - 1] != 'p' && t[|t| - 1] != 'P'
    ensures PREFIXES[k].0 + t != "" && ReadConstant(PREFIXES[k].0 + t) == Binary(t, PREFIXES[k].1)
  {
    var s := PREFIXES[k].0 + t;
    assert s[|s| - 1] == t[|t| - 1];
    if k == 4 {
      assert s[1..] == t;
    } else {
      assert s[2..] == t && s[0] == '0' && s[1] == PREFIXES[k].0[1];
    }
  }

  /** The names of the special values. */
  const TOKENS: seq<(string, Kind)> :=
    [("__?nan?__", QNanKind), ("__?NaN?__", QNanKind), ("__?qnan?__", QNanKind), ("__?QNaN?__", QNanKind),
     ("__?snan?__", SNanKind), ("__?SNaN?__", SNanKind), ("__?infinity?__", InfinityKind), ("__?Infinity?__", InfinityKind)]

  lemma TokenRead(k: nat)
    requires k < |TOKENS|
    ensures TOKENS[k].0 != "" && ReadConstant(TOKENS[k].0) == Token(TOKENS[k].1)
  {
    var s := TOKENS[k].0;
    assert s[|s| - 1] == '_' && s[0] == '_' && |s| > 3;
  }

  // ---- To the bytes ----

  /** The last character decides between this and packed decimal digits. */
  lemma PrintedEnd(w: Written)
    requires w.Valid(16) && w.Printable()
    ensures var t := Print(w); t != "" && t[|t| - 1] != 'p' && t[|t| - 1] != 'P'
  {
    hide CharOf;
    var t := Print(w);
    if w.exp.Some? {
      var g := w.exp.value.2;
      DecimalDigit(g[|g| - 1]);
      assert t[|t| - 1] == CharOf(g[|g| - 1]);
    } else {
      SignificandPlain(w.a, w.b, w.point);
      assert t == Significand(w.a, w.b, w.point);
    }
  }

  /** What a bit pattern stands for, after IEEE 754-2008, section 3.4. */
  datatype Meaning = Value(minus: bool, number: Number) | Infinite(minus: bool) | Quiet | Signaling

  /** The integer bit is one of the fields or follows from the exponent. */
  function FromFields(minus: bool, biased: nat, low: nat, f: Format): Meaning
    requires f.Valid()
  {
    var fraction := low % P(f.mantissa);
    var lead := if f.explicit == 1 then low / P(f.mantissa) else if biased > 0 then 1 else 0;
    if biased == P(f.exponent) - 1 then
      if fraction == 0 then Infinite(minus) else if fraction >= P(f.mantissa - 1) then Quiet else Signaling
    else Value(minus, Number(MulNat(lead, P(f.mantissa)) + fraction,
                             (if biased > 0 then biased as int else 1) - (P(f.exponent - 1) - 1) - f.mantissa))
  }

  function Read(v: nat, f: Format): Meaning
    requires f.Valid()
  {
    FromFields(v / P(8 * f.bytes - 1) == 1, v / P(f.mantissa + f.explicit) % P(f.exponent),
               v % P(f.mantissa + f.explicit), f)
  }

  lemma FieldsCut(sign: nat, biased: nat, low: nat, pw: int, pe: int, v: int)
    requires pw > 0 && pe > 0 && pe * pw > 0 && low < pw && biased < pe && sign <= 1
    requires v == sign * (pe * pw) + biased * pw + low
    ensures v >= 0 && v / (pe * pw) == sign && v / pw % pe == biased && v % pw == low
  {
    assert v == (sign * pe + biased) * pw + low by {
      assert (sign * pe + biased) * pw == sign * pe * pw + biased * pw;
      assert sign * pe * pw == sign * (pe * pw);
    }
    ModUnique(v, pw, sign * pe + biased, low);
    ModUnique(sign * pe + biased, pe, sign, biased);
    FieldRange(biased, pe, pw);
    FieldBound(low, biased, pw, pe);
    ModUnique(v, pe * pw, sign, biased * pw + low);
  }

  /** The exponent of a finite datum's last bit. */
  function Scale(x: Datum, f: Format): int
    requires f.Valid()
  {
    f.MinQuantum() + (if x.biased == 0 then 0 else x.biased - 1)
  }

  /** The value of a datum by its exponent field and significand. */
  function Stands(x: Datum, minus: bool, f: Format): Meaning
    requires f.Valid()
  {
    if x.biased == 2 * f.ExpMax() - 1 then
      if x.sig == P(f.mantissa) then Infinite(minus)
      else if x.sig >= P(f.mantissa) + P(f.mantissa - 1) then Quiet
      else Signaling
    else Value(minus, Number(x.sig, Scale(x, f)))
  }

  /** The bits below the exponent. */
  function LowField(x: Datum, f: Format): (low: nat)
    requires f.Valid() && Encodable(x, f)
    ensures low < P(f.mantissa + f.explicit)
  {
    if f.explicit == 1 || x.sig < P(f.mantissa) then x.sig else x.sig - P(f.mantissa)
  }

  lemma PatternFields(x: Datum, minus: bool, f: Format)
    requires f.Valid() && Encodable(x, f) && x.biased < 2 * f.ExpMax()
    ensures Pattern(f, x, minus) >= 0
    ensures Read(Pattern(f, x, minus), f) == FromFields(minus, x.biased, LowField(x, f), f)
  {
    var w := f.mantissa + f.explicit;
    ShlIs(x.biased, w);
    assert P(f.exponent) == 2 * P(f.exponent - 1);
    PAdd(f.exponent, w);
    hide P;
    hide FromFields;
    FieldsCut(if minus then 1 else 0, x.biased, LowField(x, f), P(w), P(f.exponent), Pattern(f, x, minus));
  }

  lemma FieldsStand(x: Datum, minus: bool, f: Format)
    requires f.Valid() && Encodable(x, f) && x.biased < 2 * f.ExpMax()
    ensures FromFields(minus, x.biased, LowField(x, f), f) == Stands(x, minus, f)
  {
    assert P(f.mantissa + 1) == 2 * P(f.mantissa) && P(f.exponent) == 2 * P(f.exponent - 1);
    hide P;
    LeadCut(LowField(x, f), P(f.mantissa));
  }

  /** The pattern of every datum, of both signs, is read as what the datum stands for. */
  lemma PatternRead(x: Datum, minus: bool, f: Format)
    requires f.Valid() && Encodable(x, f) && x.biased < 2 * f.ExpMax()
    ensures Pattern(f, x, minus) >= 0 && Read(Pattern(f, x, minus), f) == Stands(x, minus, f)
  {
    PatternFields(x, minus, f);
    FieldsStand(x, minus, f);
  }

  lemma LeadCut(sig: nat, p: nat)
    requires sig < 2 * p
    ensures sig % p == if sig < p then sig else sig - p
    ensures sig / p == if sig < p then 0 else 1
  {
    ModUnique(sig, p, if sig < p then 0 else 1, if sig < p then sig else sig - p);
  }

  /** A special token gives what its name says, in every format of two fraction bits or more. */
  lemma SpecialRead(kind: Kind, minus: bool, f: Format)
    requires f.Valid() && f.mantissa >= 2
    ensures Pattern(f, Special(kind, f), minus) >= 0
    ensures Read(Pattern(f, Special(kind, f), minus), f)
            == match kind
               case QNanKind => Quiet
               case SNanKind => Signaling
               case _ => Infinite(minus)
  {
    assert P(f.mantissa + 1) == 2 * P(f.mantissa) && P(f.mantissa) == 2 * P(f.mantissa - 1)
           && P(f.mantissa - 1) == 2 * P(f.mantissa - 2);
    PatternRead(Special(kind, f), minus, f);
  }

  // ---- The bytes of what is written ----

  /** The bytes of a written number are read back as the nearest datum's value, exactly where
      the code rounds correctly. */
  method ConvertPrinted(c: Converter, k: nat, w: Written, minus: bool, f: Format) returns (result: Option<seq<byte>>)
    requires f.Valid() && k < |PREFIXES| && w.Valid(P(PREFIXES[k].1)) && w.Printable()
    requires c.fl.rc == Near && !c.fl.daz
    ensures result.Some? && |result.value| == f.bytes
    ensures var n := Meant(w, PREFIXES[k].1);
      LeValue(result.value) == Pattern(f, Nearest(n.d, n.s, f), minus) <==> n.d == 0 || RoundsCorrectly(n.d, n.s, f)
  {
    ghost var bits := PREFIXES[k].1;
    PrintedIsRead(w, bits);
    PrintedEnd(w);
    PrefixRead(k, Print(w));
    BytesAreNearestIff(Print(w), bits, minus, f);
    result := c.FloatConst(PREFIXES[k].0 + Print(w), minus, f);
  }

  /** Numbers that fit are not cut off. */
  lemma FittingIsKept(d: nat, shift: nat, f: Format)
    requires f.Valid() && d > 0 && BitLen(d) + shift <= FRACTION
    ensures !LostTie(d, shift, f)
  {
    LeadingShifted(d, shift);
  }

  lemma RoundEvenWhole(n: nat)
    ensures RoundEven(n, 1) == n
  {
    RoundEvenDivision(n, 1);
  }

  lemma DatumLength(x: Datum, f: Format)
    requires f.Valid() && Finite(x, f) && x.sig > 0
    ensures BitLen(x.sig) > 0
    ensures if x.biased == 0 then BitLen(x.sig) <= f.mantissa else BitLen(x.sig) == f.mantissa + 1
  {
    BitLenRange(x.sig);
    if x.biased > 0 {
      BitLenUnique(x.sig, f.mantissa + 1);
    } else if BitLen(x.sig) > f.mantissa {
      PMonotone(f.mantissa, BitLen(x.sig) - 1);
    }
  }

  /** A finite datum is the nearest one to its own value, and the code gets it right. */
  lemma DatumIsNearest(x: Datum, f: Format)
    requires f.Valid() && Finite(x, f)
    ensures Nearest(x.sig, Scale(x, f), f) == x
  {
    if x.sig > 0 {
      DatumLength(x, f);
      RoundEvenWhole(x.sig);
      assert Quantum(x.sig, Scale(x, f), f) == Scale(x, f);
    }
  }

  lemma DatumIsRight(x: Datum, f: Format)
    requires f.Valid() && Finite(x, f) && x.sig > 0
    ensures RoundsCorrectly(x.sig, Scale(x, f), f)
  {
    hide Leading;
    hide LostTie;
    hide P;
    var e := BitLen(x.sig) - 1 + Scale(x, f);
    DatumLength(x, f);
    LeadingNormalised(x.sig);
    if x.biased == 0 {
      FittingIsKept(x.sig, DenormalShift(e, f), f);
    } else {
      FittingIsKept(x.sig, OnePlace(f), f);
    }
  }

  lemma ScaleRange(x: Datum, f: Format)
    requires f.Valid() && f.exponent <= 15 && Finite(x, f)
    ensures -MAXEXP <= Scale(x, f) <= MAXEXP
  {
    assert P(14) == 0x4000;
    PMonotone(f.exponent - 1, 14);
  }

  /** Every finite datum can be written in every binary radix, and its text gives back its own
      bytes, bit for bit. */
  method ConvertDatum(c: Converter, k: nat, x: Datum, upper: bool, minus: bool, f: Format)
    returns (result: Option<seq<byte>>)
    requires f.Valid() && f.exponent <= 15 && Finite(x, f) && k < |PREFIXES| && c.fl.rc == Near && !c.fl.daz
    ensures result.Some? && |result.value| == f.bytes && LeValue(result.value) == Pattern(f, x, minus)
    ensures LeValue(result.value) >= 0
    ensures Read(LeValue(result.value), f) == Value(minus, Number(x.sig, Scale(x, f)))
  {
    var bits := PREFIXES[k].1;
    PatternRead(x, minus, f);
    ScaleRange(x, f);
    DatumIsNearest(x, f);
    if x.sig > 0 {
      DatumIsRight(x, f);
    }
    EveryNumber(x.sig, Scale(x, f), bits, upper);
    var w := Plain(x.sig, Scale(x, f), P(bits), upper);
    PrintedIsRead(w, bits);
    result := ConvertPrinted(c, k, w, minus, f);
  }

  /** A special token, in either spelling, gives the pattern that its name says. */
  method ConvertToken(c: Converter, k: nat, minus: bool, f: Format) returns (result: Option<seq<byte>>)
    requires f.Valid() && f.mantissa >= 2 && k < |TOKENS|
    ensures result.Some? && |result.value| == f.bytes && LeValue(result.value) >= 0
    ensures Read(LeValue(result.value), f)
            == match TOKENS[k].1
               case QNanKind => Quiet
               case SNanKind => Signaling
               case _ => Infinite(minus)
  {
    TokenRead(k);
    SpecialRead(TOKENS[k].1, minus, f);
    result := c.FloatConst(TOKENS[k].0, minus, f);
  }

  /** Besides the digits, the code takes two more characters for the digit nine. */
  lemma HexValIff(c: char, v: nat)
    requires v < 16
    ensures HexVal(c) == v <==> c == LOWER[v] || c == UPPER[v] || (v == 9 && (c == '@' || c == '`'))
  {
  }

  /** Two texts that are no hexadecimal numbers are read as one: a 1 and a 9. */
  lemma AtIsNine()
    ensures Parse("1@", 4) == Some(Number(25, 0)) && Parse("1`", 4) == Some(Number(25, 0))
  {
    HexValIff('@', 9);
    HexValIff('`', 9);
    HexValIff('1', 1);
    assert ['1', '@'] == "1@" && ['1', '`'] == "1`";
    hide HexVal;
    hide Parse;
    OneAndNine('@');
    OneAndNine('`');
  }

  lemma OneAndNine(c: char)
    requires HexVal(c) == 9 && HexVal('1') == 1 && c != '.' && c != 'p' && c != 'P'
    ensures Parse(['1', c], 4) == Some(Number(25, 0))
  {
    hide HexVal;
    hide Scan;
    hide Exponent;
    NothingScanned(4);
    assert [] + ['1'] == ['1'] && ['1'] + [c] == ['1', c];
    DigitScanned([], '1', Scanned(0, 0, false));
    DigitScanned(['1'], c, Scanned(1, 0, false));
    PlainEnds(['1', c]);
    assert ['1', c][..2] == ['1', c];
    hide PowerPos;
  }

  lemma TimesSixteen(d: nat, p: nat)
    requires p == 16
    ensures MulNat(d, p) == d * 16
  {
  }

  lemma DigitScanned(t: string, c: char, st: Scanned)
    requires HexVal(c) < 16 && c != '.' && Scan(t, 4) == Some(st)
    ensures Scan(t + [c], 4) == Some(Scanned(st.d * 16 + HexVal(c), st.frac + (if st.dot then 1 else 0), st.dot))
  {
    hide HexVal;
    hide P;
    hide MulNat;
    BasePower(4);
    var u := t + [c];
    assert u[..|u| - 1] == t && u[|u| - 1] == c;
    TimesSixteen(st.d, P(4));
  }

  lemma PlainEnds(t: string)
    requires |t| == 2 && forall k | 0 <= k < 2 :: t[k] != 'p' && t[k] != 'P'
    ensures PowerPos(t) == 2
  {
  }
}
