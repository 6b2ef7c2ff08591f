/** Right shifts and rounding of six-limb fractions. */
module Rounding {
  import opened Basics
  import opened Limbs

  /** Bitwise or. */
  function Or(a: nat, b: nat): (r: nat)
    ensures r == 0 <==> a == 0 && b == 0
  {
    if a == 0 then b
    else if b == 0 then a
    else 2 * Or(a / 2, b / 2) + (if a % 2 == 1 || b % 2 == 1 then 1 else 0)
  }

  /** Fields that do not overlap add up. */
  lemma {:induction false} OrDisjoint(a: nat, b: nat, n: nat)
    requires a % P(n) == 0 && b < P(n)
    ensures Or(a, b) == a + b
  {
    if n > 0 && a != 0 && b != 0 {
      var q := a / P(n);
      assert a == P(n) * q;
      assert a == 2 * (P(n - 1) * q);
      ModUnique(a / 2, P(n - 1), q, 0);
      OrDisjoint(a / 2, b / 2, n - 1);
    }
  }

  lemma {:induction false} OrLess(a: nat, b: nat, n: nat)
    requires a < P(n) && b < P(n)
    ensures Or(a, b) < P(n)
  {
    if n > 0 && a != 0 && b != 0 {
      OrLess(a / 2, b / 2, n - 1);
    }
  }

  // ---- Shifts ----

  lemma {:induction false} ShlIs(v: nat, n: nat)
    ensures Shl(v, n) == v * P(n)
  {
    if n > 0 {
      ShlIs(v, n - 1);
      assert 2 * (v * P(n - 1)) == v * (2 * P(n - 1));
    }
  }

  lemma {:induction false} ShrIs(v: nat, n: nat)
    ensures Shr(v, n) == v / P(n)
  {
    if n > 0 {
      ShrIs(v / 2, n - 1);
      DivDiv(v, 2, P(n - 1));
    }
  }

  /** Some of the low `n` bits are set. */
  predicate LowBits(v: nat, n: nat) {
    n > 0 && (v % 2 == 1 || LowBits(v / 2, n - 1))
  }

  lemma {:induction false} LowBitsIs(v: nat, n: nat)
    ensures LowBits(v, n) <==> v % P(n) != 0
  {
    if n == 0 {
      ModUnique(v, 1, v, 0);
    } else {
      LowBitsIs(v / 2, n - 1);
      HalvedRemainder(v, v / 2, P(n - 1));
    }
  }

  lemma HalvedRemainder(v: int, half: int, p: int)
    requires p > 0 && half == v / 2
    ensures v % (2 * p) == 2 * (half % p) + v % 2
  {
    var q, r := half / p, half % p;
    assert half == p * q + r;
    assert v == 2 * p * q + (2 * r + v % 2);
    ModUnique(v, 2 * p, q, 2 * r + v % 2);
  }

  /** Limb `k` after a shift by `sr` bits: what comes down from its left neighbour,
      and what is left of itself. */
  function BitShifted(s: seq<int>, sr: nat): (r: seq<int>)
    requires sr < LIMB_BITS
    ensures |r| == |s|
  {
    seq(|s|, k requires 0 <= k < |s| => ShiftedLimb(if k == 0 then 0 else s[k - 1], s[k], sr))
  }

  /** What comes down from the left neighbour `m`, and what is left of `x`. */
  function ShiftedLimb(m: int, x: int, sr: nat): int
    requires sr < LIMB_BITS
  {
    m * P(32 - sr) % TWO32 + x / P(sr)
  }

  lemma {:induction false} BitShiftedValue(s: seq<int>, sr: nat)
    requires AllLimbs(s) && 0 < sr < 32
    ensures Val(BitShifted(s, sr)) == Val(s) / P(sr)
  {
    if s == [] {
      ModUnique(0, P(sr), 0, 0);
    } else {
      var n := |s| - 1;
      BitShiftedValue(s[..n], sr);
      BitShiftedLast(s, sr);
      if n == 0 {
        ShiftOne(Val(s), 0, 0, 0, s[0], sr);
      } else {
        ValLast(s, n - 1);
        ShiftOne(Val(s), Val(s[..n]), Val(s[..n - 1]), s[n - 1], s[n], sr);
      }
    }
  }

  lemma BitShiftedLast(s: seq<int>, sr: nat)
    requires sr < LIMB_BITS && s != []
    ensures var n := |s| - 1;
      Val(BitShifted(s, sr)) == Val(BitShifted(s[..n], sr)) * TWO32 + ShiftedLimb(if n == 0 then 0 else s[n - 1], s[n], sr)
  {
    var n := |s| - 1;
    assert BitShifted(s, sr)[..n] == BitShifted(s[..n], sr);
  }

  /** A number `v` with limb `m` at its end, and with one more limb `x`. */
  lemma ShiftOne(total: int, v: int, k: int, m: int, x: int, sr: nat)
    requires 0 < sr < LIMB_BITS && 0 <= x && v == k * TWO32 + m && total == v * TWO32 + x
    ensures total / P(sr) == v / P(sr) * TWO32 + ShiftedLimb(m, x, sr)
  {
    WordSplit(sr);
    ShiftLast(v, k, m, x, P(sr), P(32 - sr));
  }

  /** The last limb of a shift: `k` and `m` are what is above the limb `m`, and the limb itself. */
  lemma ShiftLast(v: int, k: int, m: int, x: int, d: int, e: int)
    requires d > 0 && e > 0 && d * e == TWO32 && 0 <= x && v == k * TWO32 + m
    ensures (v * TWO32 + x) / d == v / d * TWO32 + m * e % TWO32 + x / d
  {
    var q, r := v / d, v % d;
    assert v == d * q + r;
    // The low bits of v are those of m.
    assert m * e == r * e + TWO32 * (q - k * e) by {
      assert m == d * q + r - TWO32 * k;
      assert m * e == d * q * e + r * e - TWO32 * k * e;
      assert d * q * e == TWO32 * q;
    }
    MulMonotone(e, r, d - 1);
    MulMonotone(e, 0, r);
    assert e * (d - 1) == TWO32 - e;
    ModUnique(m * e, TWO32, q - k * e, r * e);
    var a, b := x / d, x % d;
    assert x == d * a + b;
    assert v * TWO32 + x == d * (q * TWO32 + r * e + a) + b by {
      assert v * TWO32 == d * q * TWO32 + r * (d * e);
      assert r * (d * e) == d * (r * e);
    }
    ModUnique(v * TWO32 + x, d, q * TWO32 + r * e + a, b);
  }

  /** The limbs of a number shifted by `offs` limbs and `sr` bits. */
  function Shifted(s: seq<int>, offs: nat, sr: nat): (r: seq<int>)
    requires offs <= |s| && sr < 32
    ensures |r| == |s|
  {
    seq(offs, _ => 0) + (if sr == 0 then s[..|s| - offs] else BitShifted(s[..|s| - offs], sr))
  }

  lemma ShiftedValue(s: seq<int>, offs: nat, sr: nat)
    requires AllLimbs(s) && offs <= |s| && sr < LIMB_BITS
    ensures Val(Shifted(s, offs, sr)) == Val(s) / P(32 * offs + sr)
  {
    var n := |s| - offs;
    ValSplit(s, n);
    PAdd(32 * offs, sr);
    if sr == 0 {
      ZeroPadded(offs, s[..n]);
    } else {
      ZeroPadded(offs, BitShifted(s[..n], sr));
      BitShiftedValue(s[..n], sr);
      DivDiv(Val(s), P(32 * offs), P(sr));
    }
  }

  lemma ZeroPadded(n: nat, s: seq<int>)
    ensures Val(seq(n, _ => 0) + s) == Val(s)
  {
    var zeros: seq<int> := seq(n, _ => 0);
    ValAppend(zeros, s);
    ZeroValue(zeros);
  }

  lemma DivDiv(v: int, a: int, b: int)
    requires a > 0 && b > 0
    ensures a * b > 0 && v / a / b == v / (a * b)
  {
    var q, r := v / a, v % a;
    var q2, r2 := q / b, q % b;
    assert v == a * q + r && q == b * q2 + r2;
    FieldBound(r, r2, a, b);
    Nested(a, b, q2, r2);
    ModUnique(v, a * b, q2, r2 * a + r);
  }

  lemma Nested(a: int, b: int, q: int, r: int)
    ensures a * (b * q + r) == a * b * q + r * a && a * b == b * a
  {
  }

  /** A field of `c` values of weight `w` over a rest below `w`. */
  lemma FieldBound(x: int, k: int, w: int, c: int)
    requires 0 <= x < w && 0 <= k < c
    ensures 0 <= k * w && 0 <= x + k * w < c * w
  {
    MulMonotone(w, k, c - 1);
    MulMonotone(w, 0, k);
    assert w * (c - 1) == w * c - w;
  }

  /** Shifts a mantissa right by `i` bits. A count of zero clears the first limb. */
  method IeeeShr(mant: array<Limb>, i: nat)
    requires mant.Length == LIMBS
    modifies mant
    ensures Val(mant[..]) == if i == 0 then old(Val(mant[..])) % P(32 * (LIMBS - 1)) else old(Val(mant[..])) / P(i)
  {
    var sr, offs := i % 32, i / 32;
    ghost var was: seq<int> := mant[..];
    if offs >= LIMBS {
      FarShift(was, i);
      Clear(mant, LIMBS);
      ZeroValue(mant[..]);
    } else if sr == 0 {
      WholeLimbs(mant, offs);
      if offs == 0 {
        Clear(mant, 1);
        FirstCleared(was, mant[..]);
      } else {
        Clear(mant, offs);
        assert mant[..] == Shifted(was, offs, 0);
        ShiftedValue(was, offs, 0);
      }
    } else {
      PartialLimbs(mant, offs, sr);
      Clear(mant, offs);
      assert mant[..] == Shifted(was, offs, sr);
      ShiftedValue(was, offs, sr);
    }
  }

  lemma FarShift(s: seq<int>, i: nat)
    requires |s| == LIMBS && AllLimbs(s) && i >= 32 * LIMBS
    ensures Val(s) / P(i) == 0
  {
    ValRange(s);
    PMonotone(32 * LIMBS, i);
    ModUnique(Val(s), P(i), 0, Val(s));
  }

  lemma FirstCleared(s: seq<int>, t: seq<int>)
    requires |s| == |t| == LIMBS && AllLimbs(s) && t == s[0 := 0]
    ensures Val(t) == Val(s) % P(32 * (LIMBS - 1))
  {
    ValSplit(s, 1);
    ValAppend([0], s[1..]);
    assert t == [0] + s[1..];
    assert Val([0]) == 0;
  }

  /** Clears the leading limbs. */
  method Clear(mant: array<Limb>, n: nat)
    requires mant.Length == LIMBS && n <= LIMBS
    modifies mant
    ensures forall k | 0 <= k < n :: mant[k] == 0
    ensures forall k | n <= k < LIMBS :: mant[k] == old(mant[k])
  {
    var j := n - 1;
    while j >= 0
      invariant -1 <= j < n
      invariant forall k | 0 <= k < LIMBS :: mant[k] == if j < k < n then 0 else old(mant[k])
    {
      mant[j] := 0;
      j := j - 1;
    }
  }

  /** Moves whole limbs; those that come in from the left are cleared later. */
  method WholeLimbs(mant: array<Limb>, offs: nat)
    requires mant.Length == LIMBS && offs < LIMBS
    modifies mant
    ensures forall k | offs <= k < LIMBS :: mant[k] == old(mant[k - offs])
  {
    if offs != 0 {
      var j := LIMBS - 1;
      while j >= offs
        invariant offs - 1 <= j < LIMBS
        invariant forall k | j < k < LIMBS :: mant[k] == old(mant[k - offs])
        invariant forall k | 0 <= k <= j :: mant[k] == old(mant[k])
      {
        mant[j] := mant[j - offs];
        j := j - 1;
      }
    }
  }

  /** Moves limbs and splits each of them over two places. */
  method PartialLimbs(mant: array<Limb>, offs: nat, sr: nat)
    requires mant.Length == LIMBS && offs < LIMBS && 0 < sr < 32
    modifies mant
    ensures mant[offs..] == BitShifted(old(mant[..])[..LIMBS - offs], sr)
  {
    hide ShrLimb;
    hide JoinLimb;
    hide ShiftedLimb;
    ghost var was: seq<int> := mant[..];
    var n := ShrLimb(mant[LIMBS - 1 - offs], sr);
    var j := LIMBS - 1;
    while j > offs
      invariant offs <= j < LIMBS && n == ShrLimb(was[j - offs], sr)
      invariant forall k | j < k < LIMBS :: mant[k] == ShiftedLimb(was[k - offs - 1], was[k - offs], sr)
      invariant forall k | 0 <= k <= j :: mant[k] == was[k]
    {
      var m := mant[j - offs - 1];
      JoinIsShifted(m, was[j - offs], sr);
      mant[j] := JoinLimb(m, n, sr);
      n := ShrLimb(m, sr);
      j := j - 1;
    }
    mant[j] := n;
    FirstShifted(was[0], sr);
    MovedLimbs(was, mant[..], offs, sr);
  }

  lemma MovedLimbs(was: seq<int>, now: seq<int>, offs: nat, sr: nat)
    requires |was| == |now| == LIMBS && AllLimbs(was) && offs < LIMBS && sr < LIMB_BITS
    requires now[offs] == ShiftedLimb(0, was[0], sr)
    requires forall k | offs < k < LIMBS :: now[k] == ShiftedLimb(was[k - offs - 1], was[k - offs], sr)
    ensures now[offs..] == BitShifted(was[..LIMBS - offs], sr)
  {
    hide ShiftedLimb;
    var moved := was[..LIMBS - offs];
    forall k | offs <= k < LIMBS ensures now[k] == BitShifted(moved, sr)[k - offs] {
      assert k > offs ==> moved[k - offs - 1] == was[k - offs - 1];
    }
  }

  lemma JoinIsShifted(m: Limb, x: Limb, sr: nat)
    requires 0 < sr < LIMB_BITS
    ensures JoinLimb(m, ShrLimb(x, sr), sr) == ShiftedLimb(m, x, sr)
  {
  }

  lemma FirstShifted(x: Limb, sr: nat)
    requires sr < LIMB_BITS
    ensures ShrLimb(x, sr) == ShiftedLimb(0, x, sr)
  {
  }

  function ShrLimb(m: Limb, sr: nat): (n: Limb)
    requires sr < LIMB_BITS
    ensures n == m / P(sr) && n < P(32 - sr)
  {
    QuotientRange(m, P(sr));
    WordSplit(sr);
    QuotientBelow(m, P(sr), P(32 - sr));
    m / P(sr)
  }

  lemma QuotientBelow(v: int, d: int, e: int)
    requires d > 0 && v < d * e
    ensures v / d < e
  {
    assert v == d * (v / d) + v % d;
    if v / d >= e {
      MulMonotone(d, e, v / d);
    }
  }

  lemma QuotientRange(v: int, m: int)
    requires v >= 0 && m > 0
    ensures 0 <= v / m <= v
  {
    QuotientBounds(v, m, v / m, v % m);
  }

  lemma QuotientBounds(v: int, m: int, q: int, r: int)
    requires v >= 0 && m > 0 && v == m * q + r && 0 <= r < m
    ensures 0 <= q <= v
  {
    if q < 0 {
      MulMonotone(m, q, -1);
    } else {
      MulMonotone(q, 1, m);
    }
  }

  /** `(m << sl) | n`, truncated to a limb. */
  function JoinLimb(m: Limb, n: Limb, sr: nat): (r: Limb)
    requires 0 < sr < 32 && n < P(32 - sr)
    ensures r == m * P(32 - sr) % TWO32 + n
  {
    JoinFits(m, n, sr);
    Or(m * P(32 - sr) % TWO32, n)
  }

  lemma JoinFits(m: nat, n: nat, sr: nat)
    requires 0 < sr < 32 && n < P(32 - sr)
    ensures m * P(32 - sr) >= 0
    ensures Or(m * P(32 - sr) % TWO32, n) == m * P(32 - sr) % TWO32 + n < TWO32
  {
    WordSplit(sr);
    var e := P(32 - sr);
    var high := m * e % TWO32;
    MultipleInWord(m, e, P(sr));
    MulMonotone(m, 0, e);
    OrDisjoint(high, n, 32 - sr);
    P32();
    PMonotone(32 - sr, LIMB_BITS);
    OrLess(high, n, LIMB_BITS);
  }

  lemma MultipleInWord(m: int, e: int, d: int)
    requires e > 0 && d > 0 && e * d == TWO32
    ensures m * e % TWO32 % e == 0
  {
    var q := m * e / TWO32;
    assert m * e == TWO32 * q + m * e % TWO32;
    assert m * e % TWO32 == e * (m - d * q);
    ModUnique(m * e % TWO32, e, m - d * q, 0);
  }

  // ---- Rounding ----

  datatype Mode = Near | Down | Up | Zero

  /** The four parts of a number at the rounding position: limbs above, the limb that
      holds the guard bit `bit`, and limbs below. */
  lemma RoundPlace(s: seq<int>, i: nat, p: nat)
    requires |s| == LIMBS && AllLimbs(s) && i < LIMBS && p < 32
    ensures var bit, w, tail := P(31 - p), P(32 * (LIMBS - 1 - i)), Val(s[i + 1..]);
      && P(191 - (32 * i + p)) == bit * w
      && Val(s) == Val(s[..i + 1]) * w + tail && 0 <= tail < w
      && Val(s) % (bit * w) == s[i] % bit * w + tail
      && Val(s) / (bit * w) == Val(s[..i]) * (2 * P(p)) + s[i] / bit
  {
    PAdd(31 - p, 32 * (LIMBS - 1 - i));
    LimbParts(s, i);
    LimbHalves(p);
    ValLast(s, i);
    GuardDivision(Val(s), Val(s[..i + 1]), Val(s[..i]), s[i], Val(s[i + 1..]),
                  P(31 - p), P(32 * (LIMBS - 1 - i)), 2 * P(p));
  }

  lemma LimbHalves(p: nat)
    requires p < 32
    ensures TWO32 == P(31 - p) * (2 * P(p))
  {
    WordSplit(p);
  }

  lemma LimbParts(s: seq<int>, i: nat)
    requires AllLimbs(s) && i < |s|
    ensures Val(s) == Val(s[..i + 1]) * P(32 * (|s| - 1 - i)) + Val(s[i + 1..])
    ensures 0 <= Val(s[i + 1..]) < P(32 * (|s| - 1 - i))
  {
    assert s == s[..i + 1] + s[i + 1..];
    ValAppend(s[..i + 1], s[i + 1..]);
    ValRange(s[i + 1..]);
  }

  lemma GuardDivision(v: int, h: int, head: int, x: int, tail: int, bit: int, w: int, c: int)
    requires bit > 0 && w > 0 && 0 <= tail < w && TWO32 == bit * c && v == h * w + tail && h == head * TWO32 + x
    ensures bit * w > 0 && v % (bit * w) == x % bit * w + tail && v / (bit * w) == head * c + x / bit
  {
    var q, r := x / bit, x % bit;
    assert x == bit * q + r;
    assert head * TWO32 + x == bit * (head * c + q) + r by {
      assert head * TWO32 == bit * (head * c);
    }
    assert (bit * (head * c + q) + r) * w == bit * w * (head * c + q) + r * w;
    MulMonotone(w, r, bit - 1);
    MulMonotone(w, 0, r);
    assert w * (bit - 1) == bit * w - w;
    ModUnique(v, bit * w, head * c + q, r * w + tail);
  }

  /** Bit `b` of a number, counted from the most significant one. */
  function TestBit(s: seq<int>, b: nat): bool
    requires b / 32 < |s|
  {
    s[b / 32] / P(31 - b % 32) % 2 == 1
  }

  lemma TestBitValue(s: seq<int>, b: nat)
    requires |s| == LIMBS && AllLimbs(s) && b < 192
    ensures TestBit(s, b) <==> Val(s) / P(191 - b) % 2 == 1
  {
    RoundPlace(s, b / 32, b % 32);
    EvenTerm(Val(s[..b / 32]), P(b % 32), s[b / 32] / P(31 - b % 32));
  }

  lemma EvenTerm(head: int, c: int, x: int)
    ensures (head * (2 * c) + x) % 2 == x % 2
  {
    assert head * (2 * c) == 2 * (head * c);
    ModUnique(head * (2 * c) + x, 2, head * c + x / 2, x % 2);
  }

  /** Whether rounding adds one at the guard bit: `c` is the number down to that bit,
      and `inexact` says that there is something below it. */
  predicate Increments(mode: Mode, minus: bool, c: int, inexact: bool) {
    var guard, odd := c % 2 == 1, c / 2 % 2 == 1;
    match mode
    case Near => guard && (inexact || odd)
    case Zero => false
    case Up => !minus && (guard || inexact)
    case Down => minus && (guard || inexact)
  }

  /** The same for a number `v` whose guard bit has the weight `half`. */
  predicate RoundsUp(mode: Mode, minus: bool, v: int, half: int)
    requires half > 0
  {
    Increments(mode, minus, v / half, v % half != 0)
  }

  /** The number after rounding: dropped bits below the guard bit are cleared, and an
      increment is added at the guard bit, as far as six limbs hold it. */
  function Rounded(mode: Mode, minus: bool, v: int, half: int): int
    requires half > 0
  {
    v - v % half + (if RoundsUp(mode, minus, v, half) then half else 0)
  }

  lemma {:induction false} ValZeroIff(s: seq<int>)
    requires AllLimbs(s)
    ensures Val(s) == 0 <==> forall k | 0 <= k < |s| :: s[k] == 0
  {
    if s != [] {
      ValRange(s[..|s| - 1]);
      ValZeroIff(s[..|s| - 1]);
      assert s == s[..|s| - 1] + [s[|s| - 1]];
    }
  }

  /** Whether anything is dropped below the guard bit. */
  lemma NothingBelow(s: seq<int>, i: nat, p: nat)
    requires |s| == LIMBS && AllLimbs(s) && i < LIMBS && p < 32
    ensures Val(s) % P(191 - (32 * i + p)) == 0
            <==> s[i] % P(31 - p) == 0 && forall j | i < j < LIMBS :: s[j] == 0
    ensures Val(s) / P(191 - (32 * i + p)) % 2 == s[i] / P(31 - p) % 2
  {
    RoundPlace(s, i, p);
    ValZeroIff(s[i + 1..]);
    var tail := s[i + 1..];
    assert forall j | i < j < LIMBS :: s[j] == tail[j - i - 1];
    assert forall j | 0 <= j < |tail| :: tail[j] == s[i + 1 + j];
    ZeroSum(s[i] % P(31 - p), P(32 * (LIMBS - 1 - i)), Val(s[i + 1..]));
    EvenTerm(Val(s[..i]), P(p), s[i] / P(31 - p));
  }

  lemma ZeroSum(r: int, w: int, tail: int)
    requires r >= 0 && w > 0 && tail >= 0
    ensures r * w + tail == 0 <==> r == 0 && tail == 0
  {
    if r > 0 {
      MulMonotone(w, 1, r);
    }
  }

  /** All bits from `bit` down, combined. */
  method CollectBits(mant: array<Limb>, i: nat, bit: nat) returns (m: nat)
    requires mant.Length == LIMBS && i < LIMBS && bit > 0
    ensures m == 0 <==> mant[i] % (2 * bit) == 0 && forall j | i < j < LIMBS :: mant[j] == 0
  {
    m := mant[i] % (2 * bit);
    for j := i + 1 to LIMBS
      invariant m == 0 <==> mant[i] % (2 * bit) == 0 && forall k | i < k < j :: mant[k] == 0
    {
      m := Or(m, mant[j]);
    }
  }

  method ClearBelow(mant: array<Limb>, i: nat)
    requires mant.Length == LIMBS && i < LIMBS
    modifies mant
    ensures mant[..] == old(mant[..i + 1]) + seq(LIMBS - 1 - i, _ => 0)
  {
    for j := i + 1 to LIMBS
      invariant forall k | 0 <= k < LIMBS :: mant[k] == if i < k < j then 0 else old(mant[k])
    {
      mant[j] := 0;
    }
  }

  /** The value after the limbs below `i` are cleared and limb `i` becomes `y`. */
  lemma TruncatedValue(s: seq<int>, i: nat, p: nat, y: int, t: seq<int>)
    requires |s| == LIMBS && AllLimbs(s) && i < LIMBS && p < 32
    requires t == s[..i] + [y] + seq(LIMBS - 1 - i, _ => 0)
    ensures var half := P(191 - (32 * i + p));
      Val(t) == Val(s) - Val(s) % half + (y - (s[i] - s[i] % P(31 - p))) * P(32 * (LIMBS - 1 - i))
  {
    var zeros: seq<int> := seq(LIMBS - 1 - i, _ => 0);
    ValAppend(s[..i] + [y], zeros);
    ZeroValue(zeros);
    assert (s[..i] + [y])[..i] == s[..i];
    RoundPlace(s, i, p);
    ValLast(s, i);
    Truncate(Val(s[..i]) * TWO32, y, s[i], s[i] % P(31 - p), P(32 * (LIMBS - 1 - i)));
  }

  lemma Truncate(head: int, y: int, x: int, r: int, w: int)
    ensures (head + y) * w == (head + x) * w - r * w + (y - (x - r)) * w
  {
  }

  /** Drops everything below the guard bit. */
  method RoundAbsDown(mant: array<Limb>, i: nat, p: nat)
    requires mant.Length == LIMBS && i < LIMBS && p < 32
    modifies mant
    ensures var half := P(191 - (32 * i + p)); Val(mant[..]) == old(Val(mant[..]) - Val(mant[..]) % half)
  {
    ghost var was: seq<int> := mant[..];
    var bit := P(31 - p);
    RemainderRange(mant[i], bit);
    mant[i] := mant[i] - mant[i] % bit;
    ClearBelow(mant, i);
    TruncatedValue(was, i, p, mant[i], mant[..]);
    assert (was[i] - was[i] % bit - (was[i] - was[i] % bit)) * P(32 * (LIMBS - 1 - i)) == 0;
  }

  lemma RemainderRange(v: int, m: int)
    requires v >= 0 && m > 0
    ensures v % m <= v
  {
    QuotientRange(v, m);
    assert v == m * (v / m) + v % m;
    MulMonotone(m, 0, v / m);
  }

  /** Adds at the guard bit; a limb that becomes zero carries into the one above. */
  method RoundAbsUp(mant: array<Limb>, i: nat, p: nat) returns (overflow: bool)
    requires mant.Length == LIMBS && i < LIMBS && p < 32
    modifies mant
    ensures var half := P(191 - (32 * i + p));
      Val(mant[..]) == old(Val(mant[..]) - Val(mant[..]) % half) + half - (if overflow then P(32 * mant.Length) else 0)
  {
    ghost var was: seq<int> := mant[..];
    var bit := P(31 - p);
    RemainderRange(mant[i], bit);
    StepFits(mant[i], p);
    ghost var y := mant[i] - mant[i] % bit + bit;
    mant[i] := (mant[i] - mant[i] % bit + bit) % TWO32;
    ClearBelow(mant, i);
    ghost var goal := Val(was) - Val(was) % P(191 - (32 * i + p)) + P(191 - (32 * i + p));
    RaisedValue(was, i, p, y, mant[..]);
    overflow := CarryUp(mant, i, goal);
  }

  /** A limb stays within its range up to the next multiple of `bit`. */
  lemma StepFits(x: int, p: nat)
    requires 0 <= x < TWO32 && p < 32
    ensures var bit := P(31 - p); bit <= x - x % bit + bit <= TWO32
  {
    hide P;
    var bit := P(31 - p);
    LimbHalves(p);
    var q, c := x / bit, 2 * P(p);
    assert x == bit * q + x % bit;
    if q < 0 {
      MulMonotone(bit, q, -1);
    }
    if q + 1 > c {
      MulMonotone(bit, c, q);
    }
    MulMonotone(bit, q + 1, c);
    MulMonotone(bit, 0, q);
    assert bit * (q + 1) == bit * q + bit;
  }

  lemma RaisedValue(s: seq<int>, i: nat, p: nat, y: int, t: seq<int>)
    requires |s| == LIMBS && AllLimbs(s) && i < LIMBS && p < 32
    requires y == s[i] - s[i] % P(31 - p) + P(31 - p) && 0 < y <= TWO32
    requires t == s[..i] + [y % TWO32] + seq(LIMBS - 1 - i, _ => 0)
    ensures var half := P(191 - (32 * i + p));
      Val(t) + (if t[i] == 0 then P(32 * (LIMBS - i)) else 0) == Val(s) - Val(s) % half + half
  {
    TruncatedValue(s, i, p, y % TWO32, t);
    PAdd(31 - p, 32 * (LIMBS - 1 - i));
    PStep32(LIMBS - 1 - i);
    RaisedTerm(y % TWO32, y, s[i] - s[i] % P(31 - p), P(31 - p), P(32 * (LIMBS - 1 - i)));
  }

  lemma RaisedTerm(z: int, y: int, x: int, bit: int, w: int)
    requires y == x + bit && 0 < y <= TWO32 && z == y % TWO32
    ensures (z - x) * w + (if z == 0 then w * TWO32 else 0) == bit * w
  {
    if y == TWO32 {
      assert z == 0 && x == TWO32 - bit;
    } else {
      assert z - x == bit;
    }
  }

  /** Carries a one from limb `i` upward while the limbs wrap around to zero. */
  method CarryUp(mant: array<Limb>, start: nat, ghost goal: int) returns (overflow: bool)
    requires mant.Length == LIMBS && start < LIMBS
    requires Val(mant[..]) + (if mant[start] == 0 then P(32 * (LIMBS - start)) else 0) == goal
    modifies mant
    ensures Val(mant[..]) == goal - (if overflow then P(32 * mant.Length) else 0)
  {
    hide P;
    hide Val;
    var i := start;
    while i > 0 && mant[i] == 0
      invariant 0 <= i < LIMBS
      invariant Val(mant[..]) + (if mant[i] == 0 then P(32 * (LIMBS - i)) else 0) == goal
    {
      i := i - 1;
      ghost var was: seq<int> := mant[..];
      mant[i] := (mant[i] + 1) % TWO32;
      assert mant[..] == was[i := mant[i]];
      ValUpdate(was, i, mant[i]);
      PStep32(LIMBS - 1 - i);
      RaisedTerm(mant[i], was[i] + 1, was[i], 1, P(32 * (LIMBS - 1 - i)));
    }
    overflow := mant[0] == 0 && i == 0;
  }

  /** Rounds a mantissa to its first `bits` bits. */
  method IeeeRound(mode: Mode, minus: bool, mant: array<Limb>, bits: nat) returns (overflow: bool)
    requires mant.Length == LIMBS && 0 < bits < 32 * LIMBS
    modifies mant
    ensures Val(mant[..]) == Rounded(mode, minus, old(Val(mant[..])), P(191 - bits))
                             - (if overflow then P(32 * mant.Length) else 0)
  {
    overflow := false;
    ghost var was: seq<int> := mant[..];
    var i, p := bits / 32, bits % 32;
    var bit := P(31 - p);
    var up;
    NothingBelow(was, i, p);
    RemainderByTwo(mant[i], bit);
    match mode {
      case Near =>
        up := mant[i] / bit % 2 == 1;
        if up {
          GuardAlone(was[i], bit);
          mant[i] := mant[i] - bit;
          var m := CollectBits(mant, i, bit);
          mant[i] := mant[i] + bit;
          assert mant[..] == was;
          OddPlace(was, bits);
          up := m != 0 || TestBit(mant[..], bits - 1);
        }
      case Zero =>
        up := false;
      case Up =>
        var m := CollectBits(mant, i, bit);
        up := !minus && m != 0;
      case Down =>
        var m := CollectBits(mant, i, bit);
        up := minus && m != 0;
    }
    assert up <==> RoundsUp(mode, minus, Val(was), P(191 - bits));
    if up {
      overflow := RoundAbsUp(mant, i, p);
    } else {
      RoundAbsDown(mant, i, p);
    }
  }

  lemma RemainderByTwo(x: int, bit: int)
    requires bit > 0
    ensures x % (2 * bit) == x % bit + (if x / bit % 2 == 1 then bit else 0)
  {
    var q, r := x / bit, x % bit;
    assert x == bit * q + r && q == 2 * (q / 2) + q % 2;
    assert bit * (2 * (q / 2)) == 2 * bit * (q / 2);
    if q % 2 == 1 {
      assert bit * q == 2 * bit * (q / 2) + bit;
      ModUnique(x, 2 * bit, q / 2, bit + r);
    } else {
      ModUnique(x, 2 * bit, q / 2, r);
    }
  }

  /** Without its guard bit a limb is a smaller limb with the same bits below. */
  lemma GuardAlone(x: int, bit: int)
    requires bit > 0 && x >= 0 && x / bit % 2 == 1
    ensures x >= bit && (x - bit) % (2 * bit) == x % bit
  {
    RemainderByTwo(x, bit);
    RemainderRange(x, 2 * bit);
    var q, r := x / (2 * bit), x % (2 * bit);
    assert x == 2 * bit * q + r;
    ModUnique(x - bit, 2 * bit, q, r - bit);
  }

  lemma OddPlace(s: seq<int>, bits: nat)
    requires |s| == LIMBS && AllLimbs(s) && 0 < bits < 32 * LIMBS
    ensures TestBit(s, bits - 1) <==> Val(s) / P(191 - bits) / 2 % 2 == 1
  {
    TestBitValue(s, bits - 1);
    DivDiv(Val(s), P(191 - bits), 2);
  }
}
