/** Numbers held in big-endian arrays of 32-bit limbs, as the floating-point
    constants are: products, right shifts and rounding. */
module Limbs {
  import opened Basics

  /** A limb, and the double-width type in which products are accumulated. */
  type Limb = x: int | 0 <= x < TWO32
  type DLimb = x: int | 0 <= x < TWO64

  const LIMBS := 6
  const LIMB_BITS := 32
  const FRACTION := 192 // bits in six limbs
  const TOP: int := 0x8000_0000

  function P(n: nat): (p: int)
    ensures p > 0
  {
    if n == 0 then 1 else 2 * P(n - 1)
  }

  /** Shifts by `n` bits. */
  function Shl(v: nat, n: nat): nat {
    if n == 0 then v else 2 * Shl(v, n - 1)
  }

  function Shr(v: nat, n: nat): nat {
    if n == 0 then v else Shr(v / 2, n - 1)
  }

  /** The number that a sequence of limbs stands for. */
  function Val(s: seq<int>): int {
    if s == [] then 0 else Val(s[..|s| - 1]) * TWO32 + s[|s| - 1]
  }

  // ---- Powers of two ----

  lemma {:induction false} PAdd(a: nat, b: nat)
    ensures P(a + b) == P(a) * P(b)
  {
    if b > 0 {
      PAdd(a, b - 1);
      assert P(a) * (2 * P(b - 1)) == 2 * (P(a) * P(b - 1));
    }
  }

  lemma P32()
    ensures P(LIMB_BITS) == TWO32 && P(LIMB_BITS - 1) == TOP
  {
    assert P(4) == 16;
    PAdd(4, 4);
    PAdd(8, 8);
    PAdd(16, 15);
    PAdd(8, 7);
  }

  lemma WordSplit(k: nat)
    requires k <= LIMB_BITS
    ensures P(k) * P(32 - k) == TWO32
  {
    PAdd(k, LIMB_BITS - k);
    P32();
  }

  lemma PStep32(n: nat)
    ensures P(32 * (n + 1)) == P(32 * n) * TWO32
  {
    PAdd(32 * n, LIMB_BITS);
    P32();
  }

  lemma {:induction false} PMonotone(a: nat, b: nat)
    requires a <= b
    ensures P(a) <= P(b)
  {
    if a < b {
      PMonotone(a, b - 1);
    }
  }

  // ---- Values of limb sequences ----

  lemma ValLast(s: seq<int>, k: nat)
    requires k < |s|
    ensures Val(s[..k + 1]) == Val(s[..k]) * TWO32 + s[k]
  {
    assert s[..k + 1][..k] == s[..k];
  }

  /** Changing one limb changes the value by the weight of its place. */
  lemma {:induction false} ValUpdate(s: seq<int>, k: nat, x: int)
    requires k < |s|
    ensures Val(s[k := x]) == Val(s) + (x - s[k]) * P(32 * (|s| - 1 - k))
  {
    var n := |s| - 1;
    if k < n {
      assert s[k := x][..n] == s[..n][k := x];
      ValUpdate(s[..n], k, x);
      PStep32(n - 1 - k);
      Reassociate(Val(s[..n]), x - s[k], P(32 * (n - 1 - k)));
    } else {
      assert s[k := x][..n] == s[..n];
    }
  }

  lemma Reassociate(v: int, d: int, w: int)
    ensures (v + d * w) * TWO32 == v * TWO32 + d * (w * TWO32)
  {
  }

  lemma {:induction false} ValAppend(a: seq<int>, b: seq<int>)
    ensures Val(a + b) == Val(a) * P(32 * |b|) + Val(b)
  {
    if b == [] {
      assert a + b == a;
    } else {
      var n := |b| - 1;
      assert (a + b)[..|a| + n] == a + b[..n];
      ValAppend(a, b[..n]);
      PStep32(n);
      Reassociate(Val(b[..n]), Val(a), P(32 * n));
    }
  }

  predicate AllLimbs(s: seq<int>) {
    forall k | 0 <= k < |s| :: 0 <= s[k] < TWO32
  }

  lemma {:induction false} ValRange(s: seq<int>)
    requires AllLimbs(s)
    ensures 0 <= Val(s) < P(32 * |s|)
  {
    if s != [] {
      ValRange(s[..|s| - 1]);
      PStep32(|s| - 1);
    }
  }

  /** The leading limbs are the quotient, the others the remainder. */
  lemma ValSplit(s: seq<int>, k: nat)
    requires k <= |s| && AllLimbs(s)
    ensures Val(s) / P(32 * (|s| - k)) == Val(s[..k])
    ensures Val(s) % P(32 * (|s| - k)) == Val(s[k..])
  {
    assert s == s[..k] + s[k..];
    ValAppend(s[..k], s[k..]);
    ValRange(s[k..]);
    ModUnique(Val(s), P(32 * (|s| - k)), Val(s[..k]), Val(s[k..]));
  }

  // ---- Multiplication ----

  /** One partial product, split over two neighbouring places. */
  lemma PartialProduct(t: seq<int>, i: nat, j: nat, n: int)
    requires |t| == 2 * LIMBS && i < LIMBS && j < LIMBS
    ensures var u := t[i + j := t[i + j] + n / TWO32];
      Val(u[i + j + 1 := u[i + j + 1] + n % TWO32]) == Val(t) + n * P(32 * (10 - i - j))
  {
    hide P;
    hide Val;
    var u := t[i + j := t[i + j] + n / TWO32];
    ValUpdate(t, i + j, t[i + j] + n / TWO32);
    ValUpdate(u, i + j + 1, u[i + j + 1] + n % TWO32);
    PStep32(10 - i - j);
    var w := P(32 * (10 - i - j));
    assert n == n / TWO32 * TWO32 + n % TWO32;
    assert n * w == n / TWO32 * (w * TWO32) + n % TWO32 * w;
  }

  /** What the partial products of the limbs before `i`, and of limb `i` with the
      limbs before `j`, add up to. */
  function Partial(a: seq<int>, b: seq<int>, i: nat, j: nat): int
    requires |a| == |b| == LIMBS && i <= LIMBS && j <= LIMBS
  {
    Val(a[..i]) * Val(b) * P(32 * (6 - i))
    + if i < LIMBS then a[i] * Val(b[..j]) * (P(32 * (5 - i)) * P(32 * (6 - j))) else 0
  }

  lemma PartialColumn(a: seq<int>, b: seq<int>, i: nat, j: nat)
    requires |a| == |b| == LIMBS && i < LIMBS && j < LIMBS
    ensures Partial(a, b, i, j + 1) == Partial(a, b, i, j) + a[i] * b[j] * P(32 * (10 - i - j))
  {
    ValLast(b, j);
    PStep32(5 - j);
    PAdd(32 * (5 - i), 32 * (5 - j));
    Distribute(a[i], Val(b[..j]), b[j], P(32 * (5 - i)), P(32 * (5 - j)));
  }

  lemma Distribute(x: int, v: int, y: int, p: int, q: int)
    ensures x * (v * TWO32 + y) * (p * q) == x * v * (p * (q * TWO32)) + x * y * (p * q)
  {
    var w := p * q;
    assert x * (v * TWO32 + y) == x * v * TWO32 + x * y;
    assert (x * v * TWO32 + x * y) * w == x * v * TWO32 * w + x * y * w;
    assert TWO32 * w == p * (q * TWO32);
    assert x * v * TWO32 * w == x * v * (TWO32 * w);
  }

  lemma PartialRow(a: seq<int>, b: seq<int>, i: nat)
    requires |a| == |b| == LIMBS && i < LIMBS
    ensures Partial(a, b, i, LIMBS) == Partial(a, b, i + 1, 0)
  {
    ValLast(a, i);
    PStep32(5 - i);
    assert b[..LIMBS] == b;
    var v, x, y, w := Val(a[..i]), a[i], Val(b), P(32 * (5 - i));
    assert v * y * (w * TWO32) + x * y * (w * 1) == (v * TWO32 + x) * y * w by {
      assert (v * TWO32 + x) * y == v * y * TWO32 + x * y;
      assert (v * y * TWO32 + x * y) * w == v * y * TWO32 * w + x * y * w;
      assert v * y * TWO32 * w == v * y * (w * TWO32);
    }
  }

  lemma PartialEnd(a: seq<int>, b: seq<int>)
    requires |a| == |b| == LIMBS
    ensures Partial(a, b, 0, 0) == 0 && Partial(a, b, LIMBS, 0) == Val(a) * Val(b)
  {
    assert a[..LIMBS] == a;
  }

  lemma CarryStep(t: seq<int>, i: nat)
    requires 0 < i < |t|
    ensures var u := t[i - 1 := t[i - 1] + t[i] / TWO32]; Val(u[i := u[i] % TWO32]) == Val(t)
  {
    var u := t[i - 1 := t[i - 1] + t[i] / TWO32];
    ValUpdate(t, i - 1, t[i - 1] + t[i] / TWO32);
    ValUpdate(u, i, u[i] % TWO32);
    PStep32(|t| - 1 - i);
    CarryWeight(t[i], P(32 * (|t| - 1 - i)));
  }

  lemma CarryWeight(x: int, w: int)
    ensures x / TWO32 * (w * TWO32) + (x % TWO32 - x) * w == 0
  {
    var q, r := x / TWO32, x % TWO32;
    assert x == q * TWO32 + r;
    assert q * (w * TWO32) == q * TWO32 * w;
    assert (r - x) * w == -(q * TWO32) * w;
  }

  /** The top bit of the first limb is the top bit of the number. */
  lemma TopBit(s: seq<int>)
    requires s != [] && AllLimbs(s)
    ensures s[0] >= TOP <==> Val(s) >= P(32 * |s| - 1)
  {
    var n := |s| - 1;
    ValSplit(s, 1);
    assert Val(s[..1]) == s[0];
    PAdd(32 * n, LIMB_BITS - 1);
    P32();
    TopBitWeight(Val(s), s[0], P(32 * n));
  }

  lemma TopBitWeight(v: int, x: int, w: int)
    requires w > 0 && v / w == x
    ensures x >= TOP <==> v >= w * TOP
  {
    assert v == w * x + v % w;
    if x >= TOP {
      MulMonotone(w, TOP, x);
    } else {
      MulMonotone(w, x, TOP - 1);
    }
  }

  /** A carry-free number is bounded by the value it stands for. */
  lemma FirstLimbFits(s: seq<int>)
    requires s != [] && AllLimbs(s[1..]) && 0 <= Val(s) < P(32 * |s|)
    ensures 0 <= s[0] < TWO32
  {
    var n := |s| - 1;
    assert s == s[..1] + s[1..];
    ValAppend(s[..1], s[1..]);
    assert Val(s[..1]) == s[0];
    ValRange(s[1..]);
    PStep32(n);
    LeadingFits(s[0], P(32 * n), Val(s[1..]));
  }

  lemma LeadingFits(x: int, w: int, rest: int)
    requires w > 0 && 0 <= rest < w && 0 <= x * w + rest < w * TWO32
    ensures 0 <= x < TWO32
  {
    if x >= TWO32 {
      MulMonotone(w, TWO32, x);
    } else if x < 0 {
      MulMonotone(w, x, -1);
    }
  }

  /** One bit to the left: the limbs of twice the number, without the last limb. */
  function Doubled(s: seq<int>): (r: seq<int>)
    requires s != []
    ensures |r| == |s| - 1
  {
    seq(|s| - 1, k requires 0 <= k < |s| - 1 => 2 * s[k] % TWO32 + s[k + 1] / TOP)
  }

  lemma {:induction false} DoubledValue(s: seq<int>)
    requires s != [] && AllLimbs(s) && s[0] < TOP
    ensures Val(Doubled(s)) == 2 * Val(s[..|s| - 1]) + s[|s| - 1] / TOP
  {
    if |s| > 1 {
      var n := |s| - 1;
      DoubledValue(s[..n]);
      assert Doubled(s)[..n - 1] == Doubled(s[..n]);
      assert s[..n][..n - 1] == s[..n - 1];
      assert s[..n][..n - 1] + [s[n - 1]] == s[..n];
    }
  }

  /** `Doubled` drops what lies below the last limb it keeps. */
  lemma DoubledQuotient(s: seq<int>, k: nat)
    requires k < |s| && AllLimbs(s) && s[0] < TOP
    ensures Val(Doubled(s[..k + 1])) == 2 * Val(s) / P(32 * (|s| - k))
  {
    var n := |s| - k;
    DoubledValue(s[..k + 1]);
    assert s[..k + 1][..k] == s[..k];
    ValSplit(s, k);
    TopBit(s[k..]);
    ValRange(s[k..]);
    DoubleDivision(Val(s), P(32 * n - 1));
  }

  lemma DoubleDivision(v: int, half: int)
    requires half > 0
    ensures 2 * v / (2 * half) == 2 * (v / (2 * half)) + (if v % (2 * half) >= half then 1 else 0)
  {
    var w := 2 * half;
    var q, rest := v / w, v % w;
    assert v == w * q + rest;
    assert 2 * v == w * (2 * q) + 2 * rest;
    if rest >= half {
      assert 2 * v == w * (2 * q + 1) + (2 * rest - w);
      ModUnique(2 * v, w, 2 * q + 1, 2 * rest - w);
    } else {
      ModUnique(2 * v, w, 2 * q, 2 * rest);
    }
  }

  /** How far the places of the product can have grown after rows before `i` and
      columns before `j`. */
  predicate PlacesBounded(t: seq<int>, i: nat, j: nat) {
    forall k | 0 <= k < |t| :: 0 <= t[k] <= (2 * i + if k < i + j then 2 else if k == i + j then 1 else 0) * TWO32
  }

  /** Adds one partial product, which does not overflow. */
  method AddProduct(temp: array<DLimb>, i: nat, j: nat, n: DLimb)
    requires temp.Length == 2 * LIMBS && i < LIMBS && j < LIMBS && PlacesBounded(temp[..], i, j)
    modifies temp
    ensures PlacesBounded(temp[..], i, j + 1)
    ensures Val(temp[..]) == old(Val(temp[..])) + n * P(32 * (10 - i - j))
  {
    ghost var was: seq<int> := temp[..];
    PartialProduct(was, i, j, n);
    temp[i + j] := temp[i + j] + n / TWO32;
    temp[i + j + 1] := temp[i + j + 1] + n % TWO32;
    assert temp[..] == was[i + j := was[i + j] + n / TWO32][i + j + 1 := was[i + j + 1] + n % TWO32];
  }

  /** All partial products, without carries between the places. */
  method AddProducts(to: array<Limb>, from: array<Limb>) returns (temp: array<DLimb>)
    requires to.Length == from.Length == LIMBS
    ensures fresh(temp) && temp.Length == 2 * LIMBS
    ensures Val(temp[..]) == Val(to[..]) * Val(from[..])
    ensures forall k | 0 <= k < 2 * LIMBS :: temp[k] <= 14 * TWO32
  {
    temp := new DLimb[2 * LIMBS](_ => 0);
    ghost var a: seq<int>, b: seq<int> := to[..], from[..];
    ZeroValue(temp[..]);
    PartialEnd(a, b);
    for i := 0 to LIMBS
      invariant Val(temp[..]) == Partial(a, b, i, 0) && PlacesBounded(temp[..], i, 0)
      invariant to[..] == a && from[..] == b
    {
      for j := 0 to LIMBS
        invariant Val(temp[..]) == Partial(a, b, i, j) && PlacesBounded(temp[..], i, j)
        invariant to[..] == a && from[..] == b
      {
        AddProduct(temp, i, j, Product(to[i], from[j]));
        PartialColumn(a, b, i, j);
      }
      PartialRow(a, b, i);
    }
    assert PlacesBounded(temp[..], LIMBS, 0);
    forall k | 0 <= k < 2 * LIMBS ensures temp[k] <= 14 * TWO32 {
      assert temp[k] == temp[..][k];
    }
  }

  function Product(x: Limb, y: Limb): (n: DLimb)
    ensures n == x * y
  {
    MulMonotone(x, y, TWO32 - 1);
    MulMonotone(TWO32 - 1, x, TWO32 - 1);
    x * y
  }

  lemma {:induction false} ZeroValue(s: seq<int>)
    requires forall k | 0 <= k < |s| :: s[k] == 0
    ensures Val(s) == 0
  {
    if s != [] {
      ZeroValue(s[..|s| - 1]);
    }
  }

  /** Propagates the carries; the number stays the same. */
  method PropagateCarries(temp: array<DLimb>)
    requires temp.Length == 2 * LIMBS && 0 <= Val(temp[..]) < P(32 * temp.Length)
    requires forall k | 0 <= k < 2 * LIMBS :: temp[k] <= 14 * TWO32
    modifies temp
    ensures Val(temp[..]) == old(Val(temp[..])) && AllLimbs(temp[..])
  {
    var i := 2 * LIMBS - 1;
    while i != 0
      invariant 0 <= i < 2 * LIMBS
      invariant Val(temp[..]) == old(Val(temp[..]))
      invariant forall k | 0 <= k < 2 * LIMBS :: temp[k] <= (if k == i then 15 else 14) * TWO32
      invariant forall k | i < k < 2 * LIMBS :: temp[k] < TWO32
    {
      ghost var was: seq<int> := temp[..];
      CarryStep(was, i);
      temp[i - 1] := temp[i - 1] + temp[i] / TWO32;
      temp[i] := temp[i] % TWO32;
      assert temp[..] == was[i - 1 := was[i - 1] + was[i] / TWO32][i := was[i] % TWO32];
      i := i - 1;
    }
    FirstLimbFits(temp[..]);
  }

  /** Multiplies the fraction in `to` by the one in `from`, which may be the same
      array, and keeps the leading bits. */
  method FloatMultiply(to: array<Limb>, from: array<Limb>) returns (shift: int)
    requires to.Length == from.Length == LIMBS
    modifies to
    ensures var product, n := old(Val(to[..])) * old(Val(from[..])), 32 * to.Length;
      && shift == (if product >= P(2 * n - 1) then 0 else -1)
      && Val(to[..]) == (if shift == 0 then product else 2 * product) / P(n)
      && (old(Val(to[..])) >= P(n - 1) && old(Val(from[..])) >= P(n - 1) ==> Val(to[..]) >= P(n - 1))
  {
    ghost var a, b, n := Val(to[..]), Val(from[..]), 32 * to.Length;
    ProductRange(to[..], from[..]);
    var temp := AddProducts(to, from);
    PropagateCarries(temp);
    ghost var t: seq<int> := temp[..];
    TopBit(t);
    if temp[0] >= TOP {
      StoreHigh(to, temp);
      shift := 0;
    } else {
      StoreDoubled(to, temp);
      shift := -1;
    }
    NormalProduct(a, b, a * b, n);
  }

  method StoreHigh(to: array<Limb>, temp: array<DLimb>)
    requires to.Length == LIMBS && temp.Length == 2 * LIMBS && AllLimbs(temp[..]) && temp as object != to
    modifies to
    ensures Val(to[..]) == Val(temp[..]) / P(32 * to.Length)
  {
    ghost var t: seq<int> := temp[..];
    for i := 0 to LIMBS
      invariant forall k | 0 <= k < i :: to[k] == t[k]
      invariant temp[..] == t
    {
      to[i] := temp[i] % TWO32;
    }
    assert to[..] == t[..LIMBS];
    ValSplit(t, LIMBS);
  }

  method StoreDoubled(to: array<Limb>, temp: array<DLimb>)
    requires to.Length == LIMBS && temp.Length == 2 * LIMBS && AllLimbs(temp[..]) && temp as object != to
    requires temp[0] < TOP
    modifies to
    ensures Val(to[..]) == 2 * Val(temp[..]) / P(32 * to.Length)
  {
    ghost var t: seq<int> := temp[..];
    for i := 0 to LIMBS
      invariant forall k | 0 <= k < i :: to[k] == Doubled(t[..LIMBS + 1])[k]
      invariant temp[..] == t
    {
      to[i] := 2 * temp[i] % TWO32 + temp[i + 1] / TOP;
    }
    assert to[..] == Doubled(t[..LIMBS + 1]);
    DoubledQuotient(t, LIMBS);
  }

  lemma ProductRange(a: seq<int>, b: seq<int>)
    requires |a| == |b| && AllLimbs(a) && AllLimbs(b)
    ensures 0 <= Val(a) * Val(b) < P(32 * |a| + 32 * |b|)
  {
    ValRange(a);
    ValRange(b);
    PAdd(32 * |a|, 32 * |b|);
    SquareBound(Val(a), Val(b), P(32 * |a|));
  }

  lemma SquareBound(x: int, y: int, w: int)
    requires 0 <= x < w && 0 <= y < w
    ensures 0 <= x * y < w * w
  {
    MulMonotone(x, 0, y);
    MulMonotone(x, y, w);
    MulMonotone(w, x, w - 1);
    assert w * (w - 1) == w * w - w;
  }

  /** The product of two fractions in [1/2, 1) needs at most one shift. */
  lemma NormalProduct(a: int, b: int, product: int, n: nat)
    requires product == a * b && n > 0
    ensures product >= P(2 * n - 1) ==> product / P(n) >= P(n - 1)
    ensures a >= P(n - 1) && b >= P(n - 1) ==> 2 * product / P(n) >= P(n - 1)
  {
    var w := P(n - 1);
    PAdd(n - 1, n - 1);
    PAdd(n - 1, n);
    if product >= P(2 * n - 1) {
      QuotientAtLeast(product, P(n), w);
    }
    if a >= w && b >= w {
      MulMonotone(w, w, b);
      MulMonotone(b, w, a);
      assert 2 * (w * w) == w * (2 * w);
      QuotientAtLeast(2 * product, P(n), w);
    }
  }

  lemma QuotientAtLeast(v: int, m: int, q: int)
    requires m > 0 && v >= q * m
    ensures v / m >= q
  {
    assert v == m * (v / m) + v % m;
    if v / m < q {
      MulMonotone(m, v / m, q - 1);
    }
  }
}
