/** Reading hexadecimal, octal and binary significands: the leading 192 bits and
    the power of two. */
module FloatText {
  import opened Basics
  import opened Limbs
  import opened Rounding
  import opened Ieee

  // ---- What the text means ----

  /** d * 2^s. */
  datatype Number = Number(d: nat, s: int)

  /** Digits read so far: their value, how many follow the point, and whether there was one. */
  datatype Scanned = Scanned(d: nat, frac: nat, dot: bool)

  /** The value of a hexadecimal digit; 255 for any other character, but for the two before
      the letters, which the digit test takes for nine. */
  function HexVal(c: char): nat {
    if '0' <= c <= '9' then c as int - '0' as int
    else if c == '@' || c == '`' then 9
    else if 'a' <= c <= 'f' then c as int - 'a' as int + 10
    else if 'A' <= c <= 'F' then c as int - 'A' as int + 10
    else 255
  }

  function Step(st: Scanned, c: char, bits: nat): Option<Scanned> {
    if c == '.' then if st.dot then None else Some(st.(dot := true))
    else if HexVal(c) < P(bits) then
      Some(WithDigit(st, HexVal(c), bits))
    else if c == '_' then Some(st)
    else None
  }

  function Scan(t: string, bits: nat): Option<Scanned> {
    if t == "" then Some(Scanned(0, 0, false))
    else match Scan(t[..|t| - 1], bits)
      case None => None
      case Some(st) => Step(st, t[|t| - 1], bits)
  }

  /** Where the exponent starts, or the end of the text. */
  function PowerPos(t: string): (k: nat)
    ensures k <= |t| && (k < |t| ==> t[k] == 'p' || t[k] == 'P')
    ensures forall j | 0 <= j < k :: t[j] != 'p' && t[j] != 'P'
  {
    if t == "" || t[0] == 'p' || t[0] == 'P' then 0 else 1 + PowerPos(t[1..])
  }

  predicate DecimalText(t: string) {
    forall k | 0 <= k < |t| :: '0' <= t[k] <= '9' || t[k] == '_'
  }

  function Decimal(t: string): nat
    requires DecimalText(t)
  {
    if t == "" then 0
    else
      var n, c := |t| - 1, t[|t| - 1];
      if c == '_' then Decimal(t[..n]) else Decimal(t[..n]) * 10 + (c as int - '0' as int)
  }

  /** A signed decimal exponent, capped at `max` in size. */
  function Exponent(t: string, max: nat): Option<int> {
    var signed := t != "" && (t[0] == '+' || t[0] == '-');
    var digits := if signed then t[1..] else t;
    if !DecimalText(digits) then None
    else
      var e := if Decimal(digits) > max then max else Decimal(digits);
      Some(if signed && t[0] == '-' then -e else e)
  }

  const MAXEXP := 20000

  /** The number that the text stands for, with `bits` bits a digit. */
  function Parse(t: string, bits: nat): Option<Number> {
    var k := PowerPos(t);
    match Scan(t[..k], bits)
    case None => None
    case Some(st) =>
      if k == |t| then Some(Number(st.d, -(bits * st.frac)))
      else match Exponent(t[k + 1..], MAXEXP)
        case None => None
        case Some(e) => Some(Number(st.d, e - bits * st.frac))
  }

  lemma {:induction false} ScanFails(t: string, j: nat, n: nat, bits: nat)
    requires j <= n <= |t| && Scan(t[..j], bits) == None
    ensures Scan(t[..n], bits) == None
  {
    if j < n {
      ScanFails(t, j, n - 1, bits);
      assert t[..n][..n - 1] == t[..n - 1];
    }
  }

  // ---- The leading bits ----

  /** The leading 192 bits of d as a normalised fraction. */
  function Leading(d: nat): nat {
    if BitLen(d) <= 192 then Shl(d, 192 - BitLen(d)) else Shr(d, BitLen(d) - 192)
  }

  lemma LeadingIs(d: nat)
    ensures Leading(d) == if BitLen(d) <= 192 then d * P(192 - BitLen(d)) else d / P(BitLen(d) - 192)
  {
    if BitLen(d) <= 192 {
      ShlIs(d, 192 - BitLen(d));
    } else {
      ShrIs(d, BitLen(d) - 192);
    }
  }

  lemma LeadingNormalised(d: nat)
    requires d > 0
    ensures P(FRACTION - 1) <= Leading(d) < P(FRACTION)
  {
    var l := BitLen(d);
    LeadingIs(d);
    BitLenRange(d);
    if l <= 192 {
      PaddedRange(d, l, FRACTION);
    } else {
      CutRange(d, l, FRACTION);
    }
  }

  lemma PaddedRange(d: nat, l: nat, top: nat)
    requires 0 < l <= top && P(l - 1) <= d < P(l)
    ensures P(top - 1) <= d * P(top - l) < P(top)
  {
    PAdd(l - 1, top - l);
    PAdd(l, top - l);
    MulMonotone(P(top - l), P(l - 1), d);
    CompareScaled(d, P(l), P(top - l));
  }

  lemma CutRange(d: nat, l: nat, top: nat)
    requires 0 < top < l && P(l - 1) <= d < P(l)
    ensures P(top - 1) <= d / P(l - top) < P(top)
  {
    PAdd(l - top, top);
    PAdd(l - top, top - 1);
    QuotientBelow(d, P(l - top), P(top));
    QuotientAtLeast(d, P(l - top), P(top - 1));
  }

  /** What a digit that ends at bit `end` adds to the leading bits. */
  function Contribution(v: nat, end: nat): nat {
    if end <= 192 then Shl(v, 192 - end) else Shr(v, end - 192)
  }

  lemma ContributionIs(v: nat, end: nat)
    ensures Contribution(v, end) == if end <= 192 then v * P(192 - end) else v / P(end - 192)
  {
    if end <= 192 {
      ShlIs(v, 192 - end);
    } else {
      ShrIs(v, end - 192);
    }
  }

  lemma BitLenUnique(d: nat, l: nat)
    requires l > 0 && P(l - 1) <= d < P(l)
    ensures BitLen(d) == l
  {
    BitLenRange(d);
    if BitLen(d) < l {
      PMonotone(BitLen(d), l - 1);
    } else if BitLen(d) > l {
      PMonotone(l, BitLen(d) - 1);
    }
  }

  lemma BitLenGrows(d: nat, v: nat, b: nat)
    requires d > 0 && v < P(b)
    ensures BitLen(d * P(b) + v) == BitLen(d) + b
  {
    var l := BitLen(d);
    BitLenRange(d);
    PAdd(l, b);
    PAdd(l - 1, b);
    MulMonotone(P(b), P(l - 1), d);
    MulMonotone(P(b), d + 1, P(l));
    assert P(b) * (d + 1) == d * P(b) + P(b);
    BitLenUnique(d * P(b) + v, l + b);
  }

  lemma LeadingGrows(d: nat, v: nat, b: nat)
    requires d > 0 && v < P(b)
    ensures Leading(d * P(b) + v) == Leading(d) + Contribution(v, BitLen(d) + b)
  {
    hide BitLen;
    hide Leading;
    hide Contribution;
    hide P;
    var l := BitLen(d);
    BitLenGrows(d, v, b);
    LeadingIs(d);
    LeadingIs(d * P(b) + v);
    ContributionIs(v, l + b);
    if l + b <= 192 {
      PAdd(b, 192 - (l + b));
      ShiftSum(d, P(b), v, P(192 - (l + b)));
    } else if l <= 192 {
      PAdd(192 - l, l + b - 192);
      DroppedTail(d, P(192 - l), P(l + b - 192), v);
    } else {
      PAdd(l - 192, b);
      DroppedAll(d, P(b), P(l - 192), v);
      DivDiv(v, P(b), P(l - 192));
      QuotientBelow(v, P(b), 1);
      QuotientRange(v, P(b));
      PAdd(b, l - 192);
      ModUnique(0, P(l - 192), 0, 0);
    }
  }

  lemma ShiftSum(d: int, p: int, v: int, w: int)
    ensures (d * p + v) * w == d * (p * w) + v * w
  {
    assert d * p * w == d * (p * w);
  }

  lemma DroppedTail(d: int, a: int, w: int, v: int)
    requires w > 0
    ensures (d * (a * w) + v) / w == d * a + v / w
  {
    AddMultipleOf(v, w, d * a);
    assert d * (a * w) == d * a * w;
  }

  lemma AddMultipleOf(v: int, w: int, k: int)
    requires w > 0
    ensures (k * w + v) / w == k + v / w
  {
    assert v == w * (v / w) + v % w;
    assert k * w + v == w * (k + v / w) + v % w;
    ModUnique(k * w + v, w, k + v / w, v % w);
  }

  lemma DroppedAll(d: int, p: int, w: int, v: int)
    requires p > 0 && w > 0 && 0 <= v < p
    ensures w * p > 0 && (d * p + v) / (w * p) == d / w
  {
    ModUnique(d * p + v, p, d, v);
    DivDiv(d * p + v, p, w);
    assert w * p == p * w;
  }

  // ---- Storing digits ----

  /** The leading bits of `d` are stored. The next digit, `bits` wide, is to go `ms` bits
      above the end of limb `v`, or over that end if `ms` is negative; a seventh limb
      takes what does not fit. */
  ghost predicate Filled(s: seq<int>, v: nat, ms: int, d: nat, bits: nat) {
    && |s| == LIMBS + 1 && AllLimbs(s) && d > 0 && 0 < bits <= 4
    && 0 <= ms + bits <= 31 && 32 * (v + 1) == BitLen(d) + bits + ms
    && Val(s[..LIMBS]) == Leading(d)
    && (v < LIMBS ==> !LowBits(s[v], ms + bits) && forall k | v < k <= LIMBS :: s[k] == 0)
  }

  /** A digit joins the free low bits of a limb. */
  lemma JoinsLimb(x: int, part: int, free: nat, ms: nat, digit: int)
    requires 0 <= x < TWO32 && ms <= free <= 32 && x % P(free) == 0
    requires part == digit * P(ms) && 0 <= part < P(free)
    ensures Or(x, part) == x + part < TWO32 && (x + part) % P(ms) == 0
  {
    OrDisjoint(x, part, free);
    OrInLimb(x, part, free);
    PAdd(ms, free - ms);
    MultiplesAdd(x, P(ms), P(free - ms), digit);
  }

  lemma OrInLimb(x: nat, part: nat, free: nat)
    requires x < TWO32 && free <= 32 && part < P(free)
    ensures Or(x, part) < TWO32
  {
    P32();
    PMonotone(free, LIMB_BITS);
    OrLess(x, part, LIMB_BITS);
  }

  lemma MultiplesAdd(x: int, a: int, b: int, k: int)
    requires a > 0 && b > 0 && a * b > 0 && x % (a * b) == 0
    ensures (x + k * a) % a == 0
  {
    var q := x / (a * b);
    assert x == a * b * q;
    assert a * b * q == a * (b * q);
    assert x + k * a == a * (b * q + k);
    ModUnique(x + k * a, a, b * q + k, 0);
  }

  /** A digit that fits into the current limb. */
  lemma FitsLimb(x: nat, digit: nat, ms: nat, bits: nat)
    requires x < TWO32 && ms + bits <= 31 && digit < P(bits) && !LowBits(x, ms + bits)
    ensures var part := Shl(digit, ms);
      part < TWO32 && Or(x, part) == x + part < TWO32 && !LowBits(x + part, ms)
  {
    LowBitsIs(x, ms + bits);
    ShlIs(digit, ms);
    PAdd(bits, ms);
    CompareScaled(digit, P(bits), P(ms));
    JoinsLimb(x, Shl(digit, ms), ms + bits, ms, digit);
    LowBitsIs(x + Shl(digit, ms), ms);
    P32();
    PMonotone(ms + bits, LIMB_BITS);
  }

  /** The two parts of a digit that straddles the end of a limb. */
  lemma Straddles(x: nat, digit: nat, over: nat, bits: nat)
    requires x < TWO32 && 0 < over <= bits <= 4 && digit < P(bits) && !LowBits(x, bits - over)
    ensures Or(x, Shr(digit, over)) == x + Shr(digit, over) < TWO32
    ensures var low := Shl(digit, 32 - over) % TWO32;
      Shr(digit, over) * TWO32 + low == digit * P(32 - over) && !LowBits(low, 32 - over)
  {
    LowBitsIs(x, bits - over);
    ShrIs(digit, over);
    ShlIs(digit, 32 - over);
    PAdd(over, bits - over);
    QuotientBelow(digit, P(over), P(bits - over));
    JoinsLimb(x, Shr(digit, over), bits - over, 0, Shr(digit, over));
    WordSplit(over);
    SplitDigit(digit, P(over), P(32 - over));
    LowBitsIs(Shl(digit, 32 - over) % TWO32, 32 - over);
  }

  lemma SplitDigit(digit: nat, a: int, b: int)
    requires a > 0 && b > 0 && a * b == TWO32
    ensures digit * b % TWO32 == digit % a * b && digit / a * TWO32 + digit * b % TWO32 == digit * b
    ensures digit * b % TWO32 % b == 0
  {
    var q, r := digit / a, digit % a;
    assert digit == a * q + r;
    assert digit * b == TWO32 * q + r * b by { assert a * q * b == a * b * q; }
    FieldRange(r, a, b);
    ModUnique(digit * b, TWO32, q, r * b);
    MultipleModZero(r, b);
  }

  lemma FieldRange(r: int, a: int, b: int)
    requires 0 <= r < a && b > 0
    ensures 0 <= r * b < a * b
  {
    MulMonotone(b, 0, r);
    CompareScaled(r, a, b);
  }

  /** A digit stored in one limb adds its contribution. */
  lemma StoredInOne(s: seq<int>, v: nat, digit: nat, ms: nat, end: nat)
    requires |s| == LIMBS + 1 && v < LIMBS && 32 * (v + 1) == end + ms
    ensures Val(s[v := s[v] + Shl(digit, ms)][..LIMBS]) == Val(s[..LIMBS]) + Contribution(digit, end)
  {
    var part := Shl(digit, ms);
    assert s[v := s[v] + part][..LIMBS] == s[..LIMBS][v := s[v] + part];
    ValUpdate(s[..LIMBS], v, s[v] + part);
    ShlIs(digit, ms);
    ContributionIs(digit, end);
    PAdd(ms, 32 * (LIMBS - 1 - v));
    ScaleUp(digit, P(ms), P(32 * (LIMBS - 1 - v)));
  }

  /** A digit stored over the end of a limb. */
  lemma StoredInTwo(s: seq<int>, v: nat, digit: nat, over: nat, low: int, end: nat)
    requires |s| == LIMBS + 1 && v < LIMBS && 0 < over < 32 && 32 * (v + 1) + over == end && s[v + 1] == 0
    requires Shr(digit, over) * TWO32 + low == digit * P(32 - over)
    ensures Val(s[v := s[v] + Shr(digit, over)][v + 1 := low][..LIMBS]) == Val(s[..LIMBS]) + Contribution(digit, end)
  {
    var high := Shr(digit, over);
    var t := s[..LIMBS][v := s[v] + high];
    ValUpdate(s[..LIMBS], v, s[v] + high);
    ContributionIs(digit, end);
    if v + 1 < LIMBS {
      assert s[v := s[v] + high][v + 1 := low][..LIMBS] == t[v + 1 := low];
      ValUpdate(t, v + 1, low);
      PStep32(LIMBS - 2 - v);
      PAdd(32 - over, 32 * (LIMBS - 2 - v));
      SplitWeight(high, low, digit, P(32 - over), P(32 * (LIMBS - 2 - v)));
    } else {
      assert s[v := s[v] + high][v + 1 := low][..LIMBS] == t;
      ShrIs(digit, over);
    }
  }

  lemma SplitWeight(high: int, low: int, digit: int, e: int, w: int)
    requires high * TWO32 + low == digit * e
    ensures high * (w * TWO32) + low * w == digit * (e * w)
  {
    assert high * (w * TWO32) == high * TWO32 * w;
    assert (high * TWO32 + low) * w == high * TWO32 * w + low * w;
    assert digit * e * w == digit * (e * w);
  }

  /** `n` is `d` with one more digit. */
  predicate Extends(d: nat, digit: nat, bits: nat, n: nat) {
    n > 0 && BitLen(n) == BitLen(d) + bits && Leading(n) == Leading(d) + Contribution(digit, BitLen(d) + bits)
  }

  lemma DigitGrows(d: nat, digit: nat, bits: nat, n: nat)
    requires d > 0 && digit < P(bits) && n == d * P(bits) + digit
    ensures Extends(d, digit, bits, n)
  {
    LeadingGrows(d, digit, bits);
    BitLenGrows(d, digit, bits);
    MulMonotone(P(bits), 1, d);
  }

  /** The digit goes into the current limb. */
  lemma PutInOne(s: seq<int>, v: nat, ms: int, d: nat, bits: nat, digit: nat, n: nat)
    requires Filled(s, v, ms, d, bits) && ms >= 0 && v < LIMBS && digit < P(bits) && Extends(d, digit, bits, n)
    ensures Filled(s[v := s[v] + Shl(digit, ms)], v, ms - bits, n, bits)
  {
    var y := s[v] + Shl(digit, ms);
    assert 0 <= y < TWO32 && !LowBits(y, ms) by {
      FitsLimb(s[v], digit, ms, bits);
    }
    assert Val(s[v := y][..LIMBS]) == Leading(n) by {
      StoredInOne(s, v, digit, ms, BitLen(d) + bits);
    }
    StillFilled(s, v, y, ms, d, bits, n);
  }

  lemma StillFilled(s: seq<int>, v: nat, y: nat, ms: nat, d: nat, bits: nat, n: nat)
    requires Filled(s, v, ms, d, bits) && v < LIMBS && y < TWO32 && !LowBits(y, ms)
    requires n > 0 && BitLen(n) == BitLen(d) + bits && Val(s[v := y][..LIMBS]) == Leading(n)
    ensures Filled(s[v := y], v, ms - bits, n, bits)
  {
    assert ms - bits + bits == ms;
  }

  /** The digit goes over the end of the current limb. */
  lemma PutInTwo(s: seq<int>, v: nat, ms: int, d: nat, bits: nat, digit: nat, n: nat)
    requires Filled(s, v, ms, d, bits) && ms < 0 && v < LIMBS && digit < P(bits) && Extends(d, digit, bits, n)
    ensures var high, low := Shr(digit, -ms), Shl(digit, ms + 32) % TWO32;
      && 0 <= high && Or(s[v], high) == s[v] + high < TWO32
      && Filled(s[v := s[v] + high][v + 1 := low], v + 1, ms + 32 - bits, n, bits)
  {
    hide BitLen;
    hide Leading;
    hide Shl;
    hide Shr;
    Straddles(s[v], digit, -ms, bits);
    StoredInTwo(s, v, digit, -ms, Shl(digit, ms + 32) % TWO32, BitLen(d) + bits);
  }

  /** Past the sixth limb nothing counts any more. */
  lemma PutInGuard(s: seq<int>, t: seq<int>, v: nat, ms: int, d: nat, bits: nat, digit: nat, n: nat)
    requires Filled(s, v, ms, d, bits) && v >= LIMBS && digit < P(bits) && Extends(d, digit, bits, n)
    requires |t| == LIMBS + 1 && AllLimbs(t) && t[..LIMBS] == s[..LIMBS]
    ensures ms < 0 ==> Filled(t, v + 1, ms + 32 - bits, n, bits)
    ensures ms >= 0 ==> Filled(t, v, ms - bits, n, bits)
  {
    NothingLeft(digit, bits, BitLen(d) + bits);
  }

  lemma NothingLeft(digit: nat, bits: nat, end: nat)
    requires digit < P(bits) && end > 192 + bits
    ensures Contribution(digit, end) == 0
  {
    ContributionIs(digit, end);
    PMonotone(bits, end - 192);
    QuotientRange(digit, P(end - 192));
    QuotientBelow(digit, P(end - 192), 1);
  }

  // ---- The reader ----

  const LOG2 := [-1, 0, 1, 1, 2, 2, 2, 2, 3, 3, 3, 3, 3, 3, 3, 3]

  lemma Log2Len(v: nat)
    requires 0 < v < 16
    ensures LOG2[v] + 1 == BitLen(v)
  {
  }

  /** Reads a decimal exponent of which only the first `max` values matter. */
  method ReadExponent(t: string, max: nat) returns (r: Option<int>)
    ensures r == Exponent(t, max)
  {
    var neg, start := false, 0;
    if t != "" && t[0] == '+' {
      start := 1;
    } else if t != "" && t[0] == '-' {
      neg, start := true, 1;
    }
    ghost var digits := t[start..];
    var k, i := start, 0;
    while k < |t|
      invariant start <= k <= |t| && DecimalText(digits[..k - start])
      invariant i == if Decimal(digits[..k - start]) > max then max else Decimal(digits[..k - start])
    {
      ghost var done := digits[..k - start];
      assert digits[k - start] == t[k];
      assert digits[..k + 1 - start][..k - start] == done && digits[..k + 1 - start] == done + [t[k]];
      if '0' <= t[k] <= '9' {
        i := i * 10 + (t[k] as int - '0' as int);
        if i > max {
          i := max;
        }
      } else if t[k] != '_' {
        assert digits[k - start] == t[k];
        return None;
      }
      k := k + 1;
    }
    assert digits[..k - start] == digits;
    r := Some(if neg then -i else i);
  }

  /** The reader's view of the digits so far. */
  ghost predicate Reading(st: Scanned, mult: seq<int>, v: nat, mp: nat, ms: int, twopwr: int, seendigit: bool, bits: nat) {
    && |mult| == LIMBS + 1 && 0 < bits <= 4 && mp == (if v < LIMBS then v else LIMBS)
    && (seendigit <==> st.d > 0) && (!st.dot ==> st.frac == 0)
    && twopwr == BitLen(st.d) - bits * st.frac
    && (seendigit ==> Filled(mult, v, ms, st.d, bits))
    && (!seendigit ==> forall k | 0 <= k <= LIMBS :: mult[k] == 0)
  }

  /** The limbs after a digit is stored at limb `mp`. */
  function PutLimbs(s: seq<nat>, mp: nat, ms: int, digit: nat): seq<nat>
    requires |s| == LIMBS + 1 && mp <= LIMBS && -4 <= ms
  {
    if ms < 0 then
      var t, mp2 := s[mp := Or(s[mp], Shr(digit, -ms))], if mp < LIMBS then mp + 1 else LIMBS;
      t[mp2 := Or(t[mp2], Shl(digit, ms + 32) % TWO32)]
    else s[mp := Or(s[mp], Shl(digit, ms) % TWO32)]
  }

  lemma PutLimbsInRange(s: seq<nat>, mp: nat, ms: int, digit: nat, bits: nat)
    requires |s| == LIMBS + 1 && mp <= LIMBS && -4 <= ms && AllLimbs(s) && digit < P(bits) && bits <= 4
    ensures AllLimbs(PutLimbs(s, mp, ms, digit))
  {
    if ms < 0 {
      OrInLimbs(s[mp], digit, -ms, bits);
      var t, mp2 := s[mp := Or(s[mp], Shr(digit, -ms))], if mp < LIMBS then mp + 1 else LIMBS;
      OrWord(t[mp2], Shl(digit, ms + 32));
    } else {
      OrWord(s[mp], Shl(digit, ms));
    }
  }

  lemma PutLimbsFilled(s: seq<nat>, v: nat, ms: int, d: nat, bits: nat, digit: nat, n: nat)
    requires Filled(s, v, ms, d, bits) && digit < P(bits) && Extends(d, digit, bits, n)
    ensures var t := PutLimbs(s, if v < LIMBS then v else LIMBS, ms, digit);
      && (ms < 0 ==> Filled(t, v + 1, ms + 32 - bits, n, bits))
      && (ms >= 0 ==> Filled(t, v, ms - bits, n, bits))
  {
    if v >= LIMBS {
      PutLimbsInRange(s, LIMBS, ms, digit, bits);
      PutLimbsGuard(s, ms, digit);
      PutInGuard(s, PutLimbs(s, LIMBS, ms, digit), v, ms, d, bits, digit, n);
    } else if ms >= 0 {
      PutInOne(s, v, ms, d, bits, digit, n);
      FitsLimb(s[v], digit, ms, bits);
      PutLimbsOne(s, v, ms, digit);
    } else {
      PutInTwo(s, v, ms, d, bits, digit, n);
      PutLimbsTwo(s, v, ms, digit);
    }
  }

  lemma PutLimbsGuard(s: seq<nat>, ms: int, digit: nat)
    requires |s| == LIMBS + 1 && -4 <= ms
    ensures PutLimbs(s, LIMBS, ms, digit)[..LIMBS] == s[..LIMBS] && |PutLimbs(s, LIMBS, ms, digit)| == |s|
  {
  }

  lemma PutLimbsOne(s: seq<nat>, mp: nat, ms: nat, digit: nat)
    requires |s| == LIMBS + 1 && mp < LIMBS
    requires var part := Shl(digit, ms); part < TWO32 && Or(s[mp], part) == s[mp] + part
    ensures PutLimbs(s, mp, ms, digit) == s[mp := s[mp] + Shl(digit, ms)]
  {
    ModUnique(Shl(digit, ms), TWO32, 0, Shl(digit, ms));
  }

  lemma PutLimbsTwo(s: seq<nat>, mp: nat, ms: int, digit: nat)
    requires |s| == LIMBS + 1 && mp < LIMBS && -4 <= ms < 0 && s[mp + 1] == 0
    requires var high := Shr(digit, -ms); 0 <= high && Or(s[mp], high) == s[mp] + high
    ensures PutLimbs(s, mp, ms, digit) == s[mp := s[mp] + Shr(digit, -ms)][mp + 1 := Shl(digit, ms + 32) % TWO32]
  {
  }

  /** Stores a digit after the first one. */
  method PutDigit(mult: array<Limb>, mp: nat, ms: int, digit: nat, bits: nat, ghost v: nat, ghost d: nat)
    returns (mp2: nat, ms2: int, ghost v2: nat)
    requires mult.Length == LIMBS + 1 && mp == (if v < LIMBS then v else LIMBS)
    requires Filled(mult[..], v, ms, d, bits) && digit < P(bits)
    modifies mult
    ensures mp2 == (if v2 < LIMBS then v2 else LIMBS) && Filled(mult[..], v2, ms2, MulNat(d, P(bits)) + digit, bits)
  {
    DigitGrows(d, digit, bits, MulNat(d, P(bits)) + digit);
    PutLimbsFilled(mult[..], v, ms, d, bits, digit, MulNat(d, P(bits)) + digit);
    mp2, ms2, v2 := StoreDigit(mult, mp, ms, digit, bits, v);
  }

  method StoreDigit(mult: array<Limb>, mp: nat, ms: int, digit: nat, bits: nat, ghost v: nat)
    returns (mp2: nat, ms2: int, ghost v2: nat)
    requires mult.Length == LIMBS + 1 && mp == (if v < LIMBS then v else LIMBS) && -4 <= ms && digit < P(bits) && bits <= 4
    modifies mult
    ensures mult[..] == PutLimbs(old(mult[..]), mp, ms, digit)
    ensures mp2 == (if v2 < LIMBS then v2 else LIMBS)
    ensures if ms < 0 then v2 == v + 1 && ms2 == ms + 32 - bits else v2 == v && ms2 == ms - bits
  {
    ghost var was: seq<nat> := mult[..];
    mp2, ms2, v2 := mp, ms, v;
    if ms2 < 0 {
      OrInLimbs(mult[mp2], digit, -ms2, bits);
      mult[mp2] := Or(mult[mp2], Shr(digit, -ms2));
      mp2, v2 := mp2 + 1, v2 + 1;
      if mp2 > LIMBS {
        mp2 := LIMBS;
      }
      ms2 := ms2 + 32;
    }
    OrWord(mult[mp2], Shl(digit, ms2));
    mult[mp2] := Or(mult[mp2], Shl(digit, ms2) % TWO32);
    ms2 := ms2 - bits;
    assert mult[..] == PutLimbs(was, mp, ms, digit);
  }

  lemma OrInLimbs(x: nat, digit: nat, over: nat, bits: nat)
    requires x < TWO32 && digit < P(bits) && bits <= 4
    ensures 0 <= Shr(digit, over) && Or(x, Shr(digit, over)) < TWO32
  {
    ShrIs(digit, over);
    QuotientRange(digit, P(over));
    OrInLimb(x, Shr(digit, over), bits);
  }

  lemma OrWord(x: nat, y: nat)
    requires x < TWO32
    ensures Or(x, y % TWO32) < TWO32
  {
    P32();
    OrInLimb(x, y % TWO32, LIMB_BITS);
  }

  /** Stores the first digit that is not zero. */
  method PutFirst(mult: array<Limb>, digit: nat, bits: nat) returns (ms: int)
    requires mult.Length == LIMBS + 1 && 0 < digit < P(bits) && 0 < bits <= 4
    requires forall k | 0 <= k <= LIMBS :: mult[k] == 0
    modifies mult
    ensures Filled(mult[..], 0, ms, digit, bits)
  {
    FirstLen(digit, bits);
    BitLenShort(digit, bits);
    ms := 31 - LOG2[digit];
    ghost var was: seq<int> := mult[..];
    FirstFits(digit, ms);
    mult[0] := Or(mult[0], Shl(digit, ms) % TWO32);
    assert mult[..] == was[0 := was[0] + Shl(digit, ms)];
    StoredInOne(was, 0, digit, ms, BitLen(digit));
    ZeroValue(was[..LIMBS]);
    ms := ms - bits;
  }

  lemma BitLenShort(digit: nat, bits: nat)
    requires 0 < digit < P(bits)
    ensures 0 < BitLen(digit) <= bits
  {
    BitLenRange(digit);
    if BitLen(digit) > bits {
      PMonotone(bits, BitLen(digit) - 1);
    }
  }

  lemma FirstFits(digit: nat, ms: nat)
    requires 0 < digit && BitLen(digit) + ms == 32
    ensures Shl(digit, ms) % TWO32 == Shl(digit, ms) && !LowBits(Shl(digit, ms), ms)
  {
    ShlIs(digit, ms);
    LowBitsIs(Shl(digit, ms), ms);
    MultipleModZero(digit, P(ms));
    BitLenRange(digit);
    WordSplit(ms);
    ProductInWord(digit, P(ms), P(BitLen(digit)));
  }

  lemma ProductInWord(x: int, a: int, b: int)
    requires 0 <= x < b && 0 < a && a * b == TWO32
    ensures x * a % TWO32 == x * a
  {
    FieldRange(x, b, a);
    assert b * a == a * b;
    ModUnique(x * a, TWO32, 0, x * a);
  }

  /** The text with one more digit. */
  function WithDigit(st: Scanned, digit: nat, bits: nat): Scanned {
    Scanned(MulNat(st.d, P(bits)) + digit, st.frac + (if st.dot then 1 else 0), st.dot)
  }

  /** Stores a digit, if there is anything to store yet. */
  method TakeDigit(mult: array<Limb>, d: nat, mp: nat, ms: int, digit: nat, bits: nat, ghost v: nat)
    returns (mp2: nat, ms2: int, ghost v2: nat)
    requires mult.Length == LIMBS + 1 && digit < P(bits) && 0 < bits <= 4 && (d > 0 || digit > 0)
    requires mp == (if v < LIMBS then v else LIMBS)
    requires d > 0 ==> Filled(mult[..], v, ms, d, bits)
    requires d == 0 ==> forall k | 0 <= k <= LIMBS :: mult[k] == 0
    modifies mult
    ensures mp2 == (if v2 < LIMBS then v2 else LIMBS)
    ensures Filled(mult[..], v2, ms2, MulNat(d, P(bits)) + digit, bits)
  {
    if d == 0 {
      ms2 := PutFirst(mult, digit, bits);
      mp2, v2 := 0, 0;
    } else {
      mp2, ms2, v2 := PutDigit(mult, mp, ms, digit, bits, v, d);
    }
  }

  /** The length grows by a digit, or to that of the first digit. */
  lemma LengthGrows(d: nat, digit: nat, bits: nat)
    requires digit < P(bits)
    ensures var n := MulNat(d, P(bits)) + digit;
      && (n > 0 <==> d > 0 || digit > 0)
      && BitLen(n) == (if d > 0 then BitLen(d) + bits else BitLen(digit))
  {
    if d > 0 {
      DigitGrows(d, digit, bits, MulNat(d, P(bits)) + digit);
    }
  }

  lemma WeightGrows(bits: nat, frac: nat)
    ensures bits * (frac + 1) == bits * frac + bits
  {
  }

  /** Takes one digit into account. */
  method AddDigit(mult: array<Limb>, st: Scanned, mp: nat, ms: int, twopwr: int, seendigit: bool, digit: nat,
                  bits: nat, ghost v: nat)
    returns (mp2: nat, ms2: int, twopwr2: int, seendigit2: bool, ghost v2: nat)
    requires mult.Length == LIMBS + 1 && digit < P(bits) && Reading(st, mult[..], v, mp, ms, twopwr, seendigit, bits)
    modifies mult
    ensures Reading(WithDigit(st, digit, bits), mult[..], v2, mp2, ms2, twopwr2, seendigit2, bits)
  {
    mp2, ms2, twopwr2, seendigit2, v2 := mp, ms, twopwr, seendigit, v;
    LengthGrows(st.d, digit, bits);
    WeightGrows(bits, st.frac);
    if !seendigit && digit != 0 {
      FirstLen(digit, bits);
      seendigit2 := true;
      twopwr2 := twopwr + LOG2[digit] + 1 - bits;
    }
    if seendigit2 {
      mp2, ms2, v2 := TakeDigit(mult, st.d, mp, ms, digit, bits, v);
      if !st.dot {
        twopwr2 := twopwr2 + bits;
      }
    } else if st.dot {
      twopwr2 := twopwr2 - bits;
    }
  }

  lemma FirstLen(digit: nat, bits: nat)
    requires 0 < digit < P(bits) && bits <= 4
    ensures digit < 16 && LOG2[digit] + 1 == BitLen(digit)
  {
    PMonotone(bits, 4);
    Log2Len(digit);
  }

  /** One character of the significand. */
  method TakeChar(mult: array<Limb>, c: char, st: Scanned, mp: nat, ms: int, twopwr: int, seendigit: bool, bits: nat,
                  ghost v: nat)
    returns (ok: bool, st2: Scanned, mp2: nat, ms2: int, twopwr2: int, seendigit2: bool, ghost v2: nat)
    requires mult.Length == LIMBS + 1 && Reading(st, mult[..], v, mp, ms, twopwr, seendigit, bits)
    modifies mult
    ensures Step(st, c, bits) == if ok then Some(st2) else None
    ensures ok ==> Reading(st2, mult[..], v2, mp2, ms2, twopwr2, seendigit2, bits)
  {
    ok, st2, mp2, ms2, twopwr2, seendigit2, v2 := true, st, mp, ms, twopwr, seendigit, v;
    if c == '.' {
      ok := !st.dot;
      st2 := st.(dot := true);
    } else if HexVal(c) < P(bits) {
      mp2, ms2, twopwr2, seendigit2, v2 := AddDigit(mult, st, mp, ms, twopwr, seendigit, HexVal(c), bits, v);
      st2 := WithDigit(st, HexVal(c), bits);
    } else {
      ok := c == '_';
    }
  }

  /** Reads the significand, up to the exponent or the end. */
  method ReadDigits(t: string, bits: nat)
    returns (ok: bool, k: nat, mult: array<Limb>, twopwr: int, seendigit: bool, ghost st: Scanned)
    requires 0 < bits <= 4
    ensures fresh(mult) && mult.Length == LIMBS + 1 && k <= |t|
    ensures Scan(t[..PowerPos(t)], bits) == if ok then Some(st) else None
    ensures ok ==> k == PowerPos(t) && (seendigit <==> st.d > 0) && twopwr == BitLen(st.d) - bits * st.frac
                   && (seendigit ==> Val(mult[..LIMBS]) == Leading(st.d))
  {
    ok, k, twopwr, seendigit := true, 0, 0, false;
    mult := new Limb[LIMBS + 1](_ => 0);
    var mp: nat, ms, now := 0, 0, Scanned(0, 0, false);
    st := now;
    ghost var v: nat := 0;
    while k < |t| && t[k] != 'p' && t[k] != 'P'
      invariant k <= PowerPos(t) && fresh(mult)
      invariant Scan(t[..k], bits) == Some(now) && Reading(now, mult[..], v, mp, ms, twopwr, seendigit, bits)
    {
      assert t[..k + 1][..k] == t[..k];
      PowerPosAbove(t, k);
      ok, now, mp, ms, twopwr, seendigit, v := TakeChar(mult, t[k], now, mp, ms, twopwr, seendigit, bits, v);
      if !ok {
        ScanFails(t, k + 1, PowerPos(t), bits);
        return;
      }
      k := k + 1;
    }
    st := now;
    assert mult[..][..LIMBS] == mult[..LIMBS];
  }

  /** The significand with the exponent applied. */
  method ReadNumber(t: string, bits: nat) returns (ok: bool, mult: array<Limb>, twopwr: int, seendigit: bool)
    requires 0 < bits <= 4
    ensures fresh(mult) && mult.Length == LIMBS + 1
    ensures ok <==> Parse(t, bits).Some?
    ensures ok ==> var n := Parse(t, bits).value;
      && (seendigit <==> n.d > 0) && twopwr == BitLen(n.d) + n.s
      && (seendigit ==> Val(mult[..LIMBS]) == Leading(n.d))
  {
    var k;
    ghost var st;
    ok, k, mult, twopwr, seendigit, st := ReadDigits(t, bits);
    if ok && k < |t| {
      var e := ReadExponent(t[k + 1..], MAXEXP);
      if e == None {
        ok := false;
      } else {
        twopwr := twopwr + e.value;
      }
    }
  }

  /** Reads a significand with `bits` bits a digit and an optional exponent: the leading
      192 bits as a normalised fraction, and the power of two that goes with it. */
  method FlconvertBin(t: string, bits: nat) returns (ok: bool, mant: array<Limb>, exponent: int)
    requires 0 < bits <= 4
    ensures fresh(mant) && mant.Length == LIMBS
    ensures ok <==> Parse(t, bits).Some?
    ensures ok ==> var n := Parse(t, bits).value;
      Val(mant[..]) == (if n.d == 0 then 0 else Leading(n.d))
      && exponent == (if n.d == 0 then 0 else BitLen(n.d) + n.s)
  {
    mant := new Limb[LIMBS](_ => 0);
    var mult, twopwr, seendigit;
    ok, mult, twopwr, seendigit := ReadNumber(t, bits);
    ZeroValue(mant[..]);
    exponent := 0;
    if ok && seendigit {
      ghost var leading := mult[..LIMBS];
      forall i | 0 <= i < LIMBS {
        mant[i] := mult[i];
      }
      assert mant[..] == leading;
      exponent := twopwr;
    }
  }

  lemma PowerPosAbove(t: string, k: nat)
    requires k < |t| && k <= PowerPos(t) && t[k] != 'p' && t[k] != 'P'
    ensures k + 1 <= PowerPos(t)
  {
  }
}
