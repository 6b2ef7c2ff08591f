/** Types and arithmetic shared by the models: machine bytes, options, and the
    wrap-around and sign extension of C's fixed-width integers. */
module Basics {

  datatype Option<+T> = None | Some(value: T)

  type byte = x: int | 0 <= x < 256

  const TWO8: int := 0x100
  const TWO16: int := 0x1_0000
  const TWO32: int := 0x1_0000_0000
  const TWO64: int := 0x1_0000_0000_0000_0000

  /** The signed value of `v` truncated to a word with `modulus` values. */
  function Sext(v: int, modulus: int): (r: int)
    requires modulus > 0 && modulus % 2 == 0
    ensures -modulus / 2 <= r < modulus / 2
    ensures (r - v) % modulus == 0
  {
    var u := v % modulus;
    SextCongruent(v, modulus);
    if u >= modulus / 2 then u - modulus else u
  }

  lemma SextCongruent(v: int, m: int)
    requires m > 0
    ensures (v % m - v) % m == 0
    ensures (v % m - m - v) % m == 0
  {
    var q := v / m;
    assert v == m * q + v % m;
    MultipleModZero(-q, m);
    MultipleModZero(-q - 1, m);
    assert v % m - v == (-q) * m;
    assert v % m - m - v == (-q - 1) * m;
  }

  lemma MultipleModZero(k: int, m: int)
    requires m > 0
    ensures (k * m) % m == 0
  {
    ModUnique(k * m, m, k, 0);
  }

  /** A remainder is determined by any quotient that leaves it in range. */
  lemma ModUnique(v: int, m: int, q: int, r: int)
    requires m > 0 && v == m * q + r && 0 <= r < m
    ensures v % m == r && v / m == q
  {
    var q2, r2 := v / m, v % m;
    assert v == m * q2 + r2;
    assert m * (q - q2) == r2 - r;
    if q - q2 >= 1 {
      MulMonotone(m, 1, q - q2);
    } else if q - q2 <= -1 {
      MulMonotone(m, q - q2, -1);
    }
  }

  lemma MulMonotone(a: int, x: int, y: int)
    requires 0 <= a && x <= y
    ensures a * x <= a * y
  {
  }

  /** Congruent values have equal remainders, and the other way round. */
  lemma ModEqual(a: int, b: int, m: int)
    requires m > 0
    ensures (a - b) % m == 0 <==> a % m == b % m
  {
    var qa, ra, qb, rb := a / m, a % m, b / m, b % m;
    assert a == m * qa + ra && b == m * qb + rb;
    if ra == rb {
      assert a - b == (qa - qb) * m;
      MultipleModZero(qa - qb, m);
    } else if ra > rb {
      assert a - b == m * (qa - qb) + (ra - rb);
      ModUnique(a - b, m, qa - qb, ra - rb);
    } else {
      assert a - b == m * (qa - qb - 1) + (ra - rb + m);
      ModUnique(a - b, m, qa - qb - 1, ra - rb + m);
    }
  }

  /** Adding the same term on both sides does not change a congruence. */
  lemma ModAdd(a: int, b: int, c: int, m: int)
    requires m > 0
    ensures (c + a) % m == (c + b) % m <==> a % m == b % m
  {
    ModEqual(c + a, c + b, m);
    ModEqual(a, b, m);
    assert (c + a) - (c + b) == a - b;
  }

  /** Two congruent values in one half-open window of the modulus are equal. */
  lemma CongruentInWindow(a: int, b: int, m: int)
    requires m > 0 && a % m == b % m && -m < a - b < m
    ensures a == b
  {
    ModEqual(a, b, m);
    if a - b > 0 {
      ModUnique(a - b, m, 0, a - b);
    } else if a - b < 0 {
      ModUnique(a - b, m, -1, a - b + m);
    }
  }

  /** Little-endian bytes of the low 16 or 32 bits of `v`. */
  function Le16(v: int): (s: seq<byte>)
    ensures |s| == 2
  {
    [v % 256, v / 256 % 256]
  }

  function Le32(v: int): (s: seq<byte>)
    ensures |s| == 4
  {
    [v % 256, v / 256 % 256, v / 0x1_0000 % 256, v / 0x100_0000 % 256]
  }

  function GetS8(s: seq<byte>): int
    requires |s| >= 1
  {
    Sext(s[0], TWO8)
  }

  function GetS16(s: seq<byte>): int
    requires |s| >= 2
  {
    Sext(s[0] as int + 256 * (s[1] as int), TWO16)
  }

  function GetS32(s: seq<byte>): int
    requires |s| >= 4
  {
    Sext(s[0] as int + 256 * (s[1] as int) + 0x1_0000 * (s[2] as int) + 0x100_0000 * (s[3] as int), TWO32)
  }

  lemma Le8RoundTrip(v: int, tail: seq<byte>)
    requires -128 <= v < 128
    ensures GetS8([v % 256] + tail) == v
  {
  }

  lemma Le16RoundTrip(v: int, tail: seq<byte>)
    ensures GetS16(Le16(v) + tail) == Sext(v, TWO16)
  {
    var s := Le16(v) + tail;
    assert s[0] as int + 256 * (s[1] as int) == v % TWO16;
  }

  lemma Le32RoundTrip(v: int, tail: seq<byte>)
    ensures GetS32(Le32(v) + tail) == Sext(v, TWO32)
  {
    Le32Digits(v);
    var s := Le32(v) + tail;
    assert s[0] == Le32(v)[0] && s[1] == Le32(v)[1] && s[2] == Le32(v)[2] && s[3] == Le32(v)[3];
  }

  lemma Le32Digits(v: int)
    ensures var s := Le32(v);
      s[0] as int + 256 * (s[1] as int) + 0x1_0000 * (s[2] as int) + 0x100_0000 * (s[3] as int) == v % TWO32
  {
    var q1 := v / 256;
    var q2 := q1 / 256;
    var q3 := q2 / 256;
    var q4 := q3 / 256;
    ModUnique(v, 0x1_0000, q2, 256 * (q1 % 256) + v % 256);
    ModUnique(v, 0x100_0000, q3, 0x1_0000 * (q2 % 256) + 256 * (q1 % 256) + v % 256);
    ModUnique(v, TWO32, q4, 0x100_0000 * (q3 % 256) + 0x1_0000 * (q2 % 256) + 256 * (q1 % 256) + v % 256);
  }
}
