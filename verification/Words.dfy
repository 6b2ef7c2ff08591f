/** What the operators mean on 64-bit words, bit by bit and by the laws of division, without
    saying how it is computed. */
module Words {
  import opened Basics
  import opened Grammar
  import opened Vectors
  import opened Evaluate

  /** Bit `k` of a number in two's complement. */
  predicate Bit(v: int, k: nat) {
    v / Pow2(k) % 2 == 1
  }

  function Abs(v: int): nat {
    if v < 0 then -v else v
  }

  /** `r` is what is left of `a` after whole multiples of `b`, on the side of `a`. */
  predicate IsRemainder(a: int, b: int, r: int) {
    Abs(r) < Abs(b) && (r != 0 ==> (r < 0 <==> a < 0))
  }

  /** `r` is 1 or 0, as a condition holds or not. */
  predicate Says(r: int, holds: bool) {
    (r == 1 && holds) || (r == 0 && !holds)
  }

  predicate Congruent(r: int, x: int) {
    (r - x) % TWO64 == 0
  }

  /** What is asked of a result, for each operator. */
  ghost predicate IsResult(op: BinOp, a: int, b: int, r: int) {
    match op
    case BitOr => forall k | 0 <= k < 64 :: Bit(r, k) <==> Bit(a, k) || Bit(b, k)
    case BitXor => forall k | 0 <= k < 64 :: Bit(r, k) <==> Bit(a, k) != Bit(b, k)
    case BitAnd => forall k | 0 <= k < 64 :: Bit(r, k) <==> Bit(a, k) && Bit(b, k)
    case ShiftL => forall k | 0 <= k < 64 :: Bit(r, k) <==> 0 <= b <= k && Bit(a, k - b)
    case ShiftR => forall k | 0 <= k < 64 :: Bit(r, k) <==> 0 <= k + b < 64 && Bit(a, k + b)
    case ShiftA => forall k | 0 <= k < 64 :: Bit(r, k) <==> if 0 <= k + b < 64 then Bit(a, k + b) else a < 0
    case DivU => U64(r) * U64(b) <= U64(a) < (U64(r) + 1) * U64(b)
    case ModU => U64(r) < U64(b) && exists q: nat :: U64(a) == q * U64(b) + U64(r)
    case DivS => IsRemainder(a, b, a - r * b)
    case ModS => IsRemainder(a, b, r) && exists q: int :: a == q * b + r
    case Plus => Congruent(r, a + b)
    case Minus => Congruent(r + b, a)
    case Mul => Congruent(r, a * b)
    case LogOr => Says(r, !(a == 0 && b == 0))
    case LogXor => Says(r, a == 0 <==> b != 0)
    case LogAnd => Says(r, !(a == 0 || b == 0))
    case Eq => Says(r, a - b == 0)
    case Ne => Says(r, a < b || b < a)
    case Lt => Says(r, b - a > 0)
    case Gt => Says(r, a - b > 0)
    case Le => Says(r, !(a > b))
    case Ge => Says(r, !(b > a))
    case Leg => (r == -1 && a < b) || (r == 0 && a == b) || (r == 1 && a > b)
  }

  // ---- Powers ----

  lemma {:induction false} PowAdd(a: nat, b: nat)
    ensures Pow2(a + b) == Pow2(a) * Pow2(b)
  {
    if a > 0 {
      PowAdd(a - 1, b);
      assert Pow2(a + b) == 2 * (Pow2(a - 1) * Pow2(b));
    }
  }

  lemma Pow64()
    ensures Pow2(64) == TWO64 && Pow2(63) == 0x8000_0000_0000_0000
  {
    assert Pow2(64) == 2 * Pow2(63) && Pow2(4) == 2 * Pow2(3) && Pow2(3) == 8;
    hide Pow2;
    PowAdd(4, 4);
    PowAdd(8, 8);
    PowAdd(16, 16);
    PowAdd(32, 32);
  }

  lemma TwoRemainders(v: int, a: int, b: int, q: int, r2: int, r: int)
    requires 0 <= r < a && 0 <= r2 < b && v == a * (b * q + r2) + r
    ensures a * b > 0 && v == q * (a * b) + (a * r2 + r) && 0 <= a * r2 + r < a * b
  {
    MulMonotone(a, 1, b);
    MulMonotone(a, 0, r2);
    MulMonotone(a, r2 + 1, b);
    assert a * (r2 + 1) == a * r2 + a;
    assert a * (b * q + r2) == a * (b * q) + a * r2;
    assert a * (b * q) == q * (a * b);
  }

  /** Dividing twice. */
  lemma DivTwice(v: int, a: int, b: int)
    requires a > 0 && b > 0
    ensures a * b > 0 && v / a / b == v / (a * b)
  {
    var q, r := v / a, v % a;
    var q2, r2 := q / b, q % b;
    assert v == a * q + r && q == b * q2 + r2;
    TwoRemainders(v, a, b, q2, r2, r);
    ModUnique(v, a * b, q2, a * r2 + r);
  }

  lemma BitShifted(v: int, n: nat, k: nat)
    ensures Bit(v / Pow2(n), k) <==> Bit(v, k + n)
  {
    PowAdd(n, k);
    DivTwice(v, Pow2(n), Pow2(k));
  }

  lemma BitHalf(v: int, k: nat)
    requires k > 0
    ensures Bit(v / 2, k - 1) <==> Bit(v, k)
  {
    BitShifted(v, 1, k - 1);
  }

  lemma EvenMultiple(m: int, h: int, p: int)
    ensures m * (2 * h * p) == 2 * (m * h) * p
  {
  }

  /** Multiples of a higher power leave a bit alone. */
  lemma BitPlus(v: int, m: int, n: nat, k: nat)
    requires k < n
    ensures Bit(v + m * Pow2(n), k) <==> Bit(v, k)
  {
    PowAdd(n - k, k);
    var p, h := Pow2(k), Pow2(n - k - 1);
    assert Pow2(n - k) == 2 * h;
    hide Pow2;
    EvenMultiple(m, h, p);
    QuotientPlus(v, 2 * (m * h), p);
    Parity(v / p, m * h);
  }

  lemma Parity(q: int, t: int)
    ensures (q + 2 * t) % 2 == q % 2
  {
  }

  lemma QuotientPlus(v: int, m: int, p: int)
    requires p > 0
    ensures (v + m * p) / p == v / p + m
  {
    var q, r := v / p, v % p;
    assert v == p * q + r;
    assert v + m * p == (q + m) * p + r by {
      assert (q + m) * p == q * p + m * p;
    }
    ModUnique(v + m * p, p, q + m, r);
  }

  /** Wrapping to 64 bits leaves the 64 bits alone. */
  lemma BitWrapped(v: int, k: nat)
    requires k < 64
    ensures Bit(S64(v), k) <==> Bit(v, k)
    ensures Bit(U64(v), k) <==> Bit(v, k)
  {
    Pow64();
    var q := v / TWO64;
    assert v == U64(v) + q * TWO64;
    BitPlus(U64(v), q, 64, k);
    var w := if S64(v) < 0 then -1 else 0;
    assert S64(v) == U64(v) + w * TWO64;
    BitPlus(U64(v), w, 64, k);
  }

  /** The sign bit goes on for ever. */
  lemma SignBit(a: int, k: nat)
    requires Is64(a) && k >= 63
    ensures Bit(a, k) <==> a < 0
  {
    Pow64();
    PowAdd(63, k - 63);
    var p := Pow2(k);
    MulMonotone(Pow2(63), 1, Pow2(k - 63));
    if a < 0 {
      ModUnique(a, p, -1, a + p);
    } else {
      ModUnique(a, p, 0, a);
    }
  }

  // ---- Bits determine the word ----

  lemma {:induction false} SameBits(x: nat, y: nat, n: nat)
    requires x < Pow2(n) && y < Pow2(n) && forall k | 0 <= k < n :: Bit(x, k) <==> Bit(y, k)
    ensures x == y
  {
    if n > 0 {
      forall k | 0 <= k < n - 1 ensures Bit(x / 2, k) <==> Bit(y / 2, k) {
        BitHalf(x, k + 1);
        BitHalf(y, k + 1);
      }
      SameBits(x / 2, y / 2, n - 1);
      assert Bit(x, 0) <==> Bit(y, 0);
      assert Pow2(0) == 1;
    }
  }

  lemma SameWords(r: int, s: int)
    requires Is64(r) && Is64(s) && forall k | 0 <= k < 64 :: Bit(r, k) <==> Bit(s, k)
    ensures r == s
  {
    Pow64();
    forall k | 0 <= k < 64 ensures Bit(U64(r), k) <==> Bit(U64(s), k) {
      BitWrapped(r, k);
      BitWrapped(s, k);
    }
    SameBits(U64(r), U64(s), 64);
  }

  // ---- The bitwise operators ----

  predicate BitOf(x: bool, y: bool, and: bool, xor: bool) {
    if and then x && y else if xor then x != y else x || y
  }

  lemma LowBit(v: int)
    ensures Bit(v, 0) <==> v % 2 == 1
  {
    assert Pow2(0) == 1;
  }

  lemma NoBit(k: nat)
    ensures !Bit(0, k)
  {
    ModUnique(0, Pow2(k), 0, 0);
  }

  lemma BitwiseStep(a: nat, b: nat, and: bool, xor: bool)
    requires a > 0 || b > 0
    ensures var c := Bitwise(a, b, and, xor);
      c / 2 == Bitwise(a / 2, b / 2, and, xor) && (c % 2 == 1 <==> BitOf(a % 2 == 1, b % 2 == 1, and, xor))
  {
  }

  lemma {:induction false} BitwiseBit(a: nat, b: nat, and: bool, xor: bool, k: nat)
    ensures Bit(Bitwise(a, b, and, xor), k) <==> BitOf(Bit(a, k), Bit(b, k), and, xor)
    decreases k
  {
    if a == 0 && b == 0 {
      NoBit(k);
    } else {
      BitwiseStep(a, b, and, xor);
      hide Bit;
      hide Bitwise;
      var c := Bitwise(a, b, and, xor);
      if k > 0 {
        BitwiseBit(a / 2, b / 2, and, xor, k - 1);
        BitHalf(a, k);
        BitHalf(b, k);
        BitHalf(c, k);
      } else {
        LowBit(a);
        LowBit(b);
        LowBit(c);
      }
    }
  }

  lemma WordBit(a: int, b: int, and: bool, xor: bool, k: nat)
    requires k < 64
    ensures Bit(S64(Bitwise(U64(a), U64(b), and, xor)), k) <==> BitOf(Bit(a, k), Bit(b, k), and, xor)
  {
    BitWrapped(Bitwise(U64(a), U64(b), and, xor), k);
    BitwiseBit(U64(a), U64(b), and, xor, k);
    BitWrapped(a, k);
    BitWrapped(b, k);
  }

  // ---- The shifts ----

  lemma LeftBit(a: int, n: nat, k: nat)
    requires k < 64
    ensures Bit(S64(a * Pow2(n)), k) <==> n <= k && Bit(a, k - n)
  {
    hide Bit;
    hide S64;
    var v := a * Pow2(n);
    BitWrapped(v, k);
    if n <= k {
      BitShifted(v, n, k - n);
      ModUnique(v, Pow2(n), a, 0);
    } else {
      BitPlus(0, a, n, k);
      NoBit(k);
    }
  }

  lemma RightBit(a: int, n: nat, k: nat)
    requires k < 64 && n < 64
    ensures Bit(S64(U64(a) / Pow2(n)), k) <==> k + n < 64 && Bit(a, k + n)
  {
    BitWrapped(U64(a) / Pow2(n), k);
    BitShifted(U64(a), n, k);
    if k + n < 64 {
      BitWrapped(a, k + n);
    } else {
      Pow64();
      PowAdd(64, k + n - 64);
      MulMonotone(TWO64, 1, Pow2(k + n - 64));
      ModUnique(U64(a), Pow2(k + n), 0, U64(a));
    }
  }

  lemma ArithmeticBit(a: int, n: nat, k: nat)
    requires Is64(a)
    ensures Bit(a / Pow2(n), k) <==> if k + n < 64 then Bit(a, k + n) else a < 0
  {
    BitShifted(a, n, k);
    if k + n >= 64 {
      SignBit(a, k + n);
    }
  }

  // ---- The divisions ----

  lemma UnsignedDivision(x: nat, y: nat, q: nat)
    requires y > 0
    ensures q * y <= x < (q + 1) * y <==> q == x / y
  {
    var d, r := x / y, x % y;
    assert x == y * d + r && (q + 1) * y == q * y + y;
    if q < d {
      MulMonotone(y, q + 1, d);
    } else if q > d {
      MulMonotone(y, d + 1, q);
      assert (d + 1) * y == d * y + y;
    }
  }

  lemma UnsignedRemainder(x: nat, y: nat, r: nat)
    requires y > 0
    ensures (r < y && exists q: nat :: x == q * y + r) <==> r == x % y
  {
    var d, m := x / y, x % y;
    assert x == d * y + m;
    if r < y && exists q: nat :: x == q * y + r {
      var q: nat :| x == q * y + r;
      ModUnique(x, y, q, r);
    }
  }

  /** A multiple of `b` that is smaller than it is zero. */
  lemma SmallMultiple(b: int, d: int)
    requires b != 0 && Abs(d * b) < Abs(b)
    ensures d == 0
  {
    if d > 0 {
      MulMonotone(Abs(b), 1, d);
    } else if d < 0 {
      MulMonotone(Abs(b), 1, -d);
    }
    assert Abs(d * b) == Abs(d) * Abs(b);
  }

  /** There is one remainder. */
  lemma OneRemainder(a: int, b: int, q: int, q2: int)
    requires b != 0 && IsRemainder(a, b, a - q * b) && IsRemainder(a, b, a - q2 * b)
    ensures q == q2
  {
    assert (a - q * b) - (a - q2 * b) == (q2 - q) * b;
    SmallMultiple(b, q2 - q);
  }

  lemma SignedMultiple(a: int, b: int, q: int, t: int, y: int)
    requires t == (if (a < 0) == (b < 0) then q else -q) && y == Abs(b)
    ensures t * b == if a < 0 then -(q * y) else q * y
  {
  }

  lemma TruncatedIs(a: int, b: int)
    requires b != 0
    ensures IsRemainder(a, b, a - Truncated(a, b) * b)
  {
    var x: int, y: int := Abs(a), Abs(b);
    var q, r := x / y, x % y;
    var t := if (a < 0) == (b < 0) then q else -q;
    assert Truncated(a, b) == t;
    hide Truncated;
    assert x == y * q + r;
    SignedMultiple(a, b, q, t, y);
  }

  lemma SignedDivision(a: int, b: int, q: int)
    requires b != 0
    ensures IsRemainder(a, b, a - q * b) <==> q == Truncated(a, b)
  {
    TruncatedIs(a, b);
    if IsRemainder(a, b, a - q * b) {
      OneRemainder(a, b, q, Truncated(a, b));
    }
  }

  lemma SignedRemainder(a: int, b: int, r: int)
    requires b != 0
    ensures (IsRemainder(a, b, r) && exists q: int :: a == q * b + r) <==> r == a - Truncated(a, b) * b
  {
    TruncatedIs(a, b);
    var t := Truncated(a, b);
    assert a == t * b + (a - t * b);
    if IsRemainder(a, b, r) && exists q: int :: a == q * b + r {
      var q: int :| a == q * b + r;
      OneRemainder(a, b, q, t);
    }
  }

  // ---- All operators ----

  /** One result is right, and it is the one that is computed. */
  lemma BitsIff(op: BinOp, a: int, b: int, r: int)
    requires op.BitOr? || op.BitXor? || op.BitAnd? || op.ShiftL? || op.ShiftR? || op.ShiftA?
    requires op.ShiftL? || op.ShiftR? || op.ShiftA? ==> 0 <= b < 64
    requires Is64(a) && Is64(r) && Is64(Combine(op, a, b))
    ensures IsResult(op, a, b, Combine(op, a, b))
    ensures IsResult(op, a, b, r) <==> r == Combine(op, a, b)
  {
    var c := Combine(op, a, b);
    forall k | 0 <= k < 64 ensures Bit(c, k) <==> BitResult(op, a, b, k) {
      if op.BitOr? {
        WordBit(a, b, false, false, k);
      } else if op.BitXor? {
        WordBit(a, b, false, true, k);
      } else if op.BitAnd? {
        WordBit(a, b, true, false, k);
      } else if op.ShiftL? {
        LeftBit(a, b, k);
      } else if op.ShiftR? {
        RightBit(a, b, k);
      } else {
        ArithmeticBit(a, b, k);
      }
    }
    hide Bit;
    BitResults(op, a, b, c);
    BitResults(op, a, b, r);
    if IsResult(op, a, b, r) {
      SameWords(r, c);
    }
  }

  /** Bit `k` of a result. */
  predicate BitResult(op: BinOp, a: int, b: int, k: nat) {
    match op
    case BitOr => Bit(a, k) || Bit(b, k)
    case BitXor => Bit(a, k) != Bit(b, k)
    case BitAnd => Bit(a, k) && Bit(b, k)
    case ShiftL => 0 <= b <= k && Bit(a, k - b)
    case ShiftR => 0 <= k + b < 64 && Bit(a, k + b)
    case _ => if 0 <= k + b < 64 then Bit(a, k + b) else a < 0
  }

  lemma BitResults(op: BinOp, a: int, b: int, r: int)
    requires op.BitOr? || op.BitXor? || op.BitAnd? || op.ShiftL? || op.ShiftR? || op.ShiftA?
    ensures IsResult(op, a, b, r) <==> forall k | 0 <= k < 64 :: Bit(r, k) <==> BitResult(op, a, b, k)
  {
  }
}
