/** Expression values: sparse linear forms, kept as vectors of typed terms in order of
    their types. */
module Vectors {
  import opened Basics

  /** A coefficient and what it belongs to: a register, the number one, a segment base. */
  datatype Term = Term(ty: int, value: int)

  const REG_END := 300 // any number of registers will do
  const UNKNOWN := REG_END + 1
  const SIMPLE := REG_END + 2
  const SEGBASE := REG_END + 5
  const FAR := SEGBASE + 0x4000_0000 // far-absolute segments from here on

  function S64(v: int): int {
    Sext(v, TWO64)
  }

  function U64(v: int): nat {
    v % TWO64
  }

  predicate Is64(v: int) {
    -0x8000_0000_0000_0000 <= v < 0x8000_0000_0000_0000
  }

  /** Real types are positive; zero ends a vector in memory. */
  predicate ValidVec(v: seq<Term>) {
    forall k | 0 <= k < |v| :: v[k].ty > 0 && Is64(v[k].value)
  }

  // ---- Predicates ----

  function NonZero(v: seq<Term>): seq<Term> {
    if v == [] then [] else (if v[0].value == 0 then [] else [v[0]]) + NonZero(v[1..])
  }

  /** A scalar, or a far-absolute reference. */
  predicate IsSimple(v: seq<Term>) {
    var nz := NonZero(v);
    nz == [] || (nz[0].ty == SIMPLE && (|nz| == 1 || nz[1].ty >= FAR))
  }

  predicate IsReallySimple(v: seq<Term>) {
    var nz := NonZero(v);
    nz == [] || (nz[0].ty == SIMPLE && |nz| == 1)
  }

  function RelocValue(v: seq<Term>): int {
    var nz := NonZero(v);
    if nz != [] && nz[0].ty == SIMPLE then nz[0].value else 0
  }

  predicate IsUnknown(v: seq<Term>) {
    v != [] && ((v[0].ty == UNKNOWN && v[0].value != 0) || IsUnknown(v[1..]))
  }

  predicate OnlyUnknown(v: seq<Term>) {
    v == [] || ((v[0].value == 0 || v[0].ty == UNKNOWN) && OnlyUnknown(v[1..]))
  }

  predicate IsJustUnknown(v: seq<Term>) {
    IsUnknown(v) && OnlyUnknown(v)
  }

  /** The position after leading terms with coefficient zero. */
  method SkipZeros(v: seq<Term>, start: nat) returns (k: nat)
    requires start <= |v|
    ensures start <= k <= |v| && NonZero(v[start..]) == NonZero(v[k..]) && (k < |v| ==> v[k].value != 0)
  {
    k := start;
    while k < |v| && v[k].value == 0
      invariant start <= k <= |v| && NonZero(v[start..]) == NonZero(v[k..])
    {
      assert v[k..][1..] == v[k + 1..];
      k := k + 1;
    }
  }

  lemma NonZeroHead(v: seq<Term>, k: nat)
    requires k < |v| && v[k].value != 0
    ensures NonZero(v[k..]) == [v[k]] + NonZero(v[k + 1..])
  {
    assert v[k..][1..] == v[k + 1..];
  }

  /** The scan of is_simple, and of is_really_simple if far-absolutes do not count. */
  method ScanSimple(v: seq<Term>, really: bool) returns (simple: bool)
    ensures simple == if really then IsReallySimple(v) else IsSimple(v)
  {
    assert v[0..] == v;
    var k := SkipZeros(v, 0);
    if k == |v| {
      return true;
    }
    NonZeroHead(v, k);
    if v[k].ty != SIMPLE {
      return false;
    }
    var j := SkipZeros(v, k + 1);
    if j < |v| {
      NonZeroHead(v, j);
    }
    simple := j == |v| || (!really && v[j].ty >= FAR);
  }

  method ScanValue(v: seq<Term>) returns (r: int)
    ensures r == RelocValue(v)
  {
    assert v[0..] == v;
    var k := SkipZeros(v, 0);
    if k < |v| {
      NonZeroHead(v, k);
    }
    r := if k < |v| && v[k].ty == SIMPLE then v[k].value else 0;
  }

  // ---- Sums ----

  /** What remains of a vector after the merge: far-absolutes only with `preserve`. */
  function Tail(p: seq<Term>, preserve: bool): seq<Term> {
    if p == [] || (!preserve && p[0].ty >= FAR) then [] else [p[0]] + Tail(p[1..], preserve)
  }

  /** The merge of two vectors; an unknown part ends it. */
  function Merge(p: seq<Term>, q: seq<Term>, preserve: bool): seq<Term>
    decreases |p| + |q|
  {
    if p == [] || q == [] || p[0].ty >= FAR || q[0].ty >= FAR then Tail(p, preserve) + Tail(q, preserve)
    else if p[0].ty > q[0].ty then [q[0]] + (if q[0].ty == UNKNOWN then [] else Merge(p, q[1..], preserve))
    else if p[0].ty < q[0].ty then [p[0]] + (if p[0].ty == UNKNOWN then [] else Merge(p[1..], q, preserve))
    else
      var sum := S64(p[0].value + q[0].value);
      (if sum != 0 then [Term(p[0].ty, sum)] else [])
      + (if p[0].ty == UNKNOWN then [] else Merge(p[1..], q[1..], preserve))
  }

  function Add(p: seq<Term>, q: seq<Term>): seq<Term> {
    Merge(p, q, IsReallySimple(p) || IsReallySimple(q))
  }

  /** Copies the rest of one vector. */
  method AppendTail(out: seq<Term>, p: seq<Term>, start: nat, preserve: bool) returns (r: seq<Term>)
    requires start <= |p|
    ensures r == out + Tail(p[start..], preserve)
  {
    r := out;
    var i := start;
    while i < |p| && (preserve || p[i].ty < FAR)
      invariant start <= i <= |p| && out + Tail(p[start..], preserve) == r + Tail(p[i..], preserve)
    {
      assert p[i..][1..] == p[i + 1..];
      assert r + ([p[i]] + Tail(p[i + 1..], preserve)) == (r + [p[i]]) + Tail(p[i + 1..], preserve);
      r := r + [p[i]];
      i := i + 1;
    }
    assert Tail(p[i..], preserve) == [];
  }

  /** One step of the merge. */
  lemma MergeStep(p: seq<Term>, q: seq<Term>, i: nat, j: nat, preserve: bool)
    requires i < |p| && j < |q| && p[i].ty < FAR && q[j].ty < FAR
    ensures var rest := Merge(p[i..], q[j..], preserve); var sum := S64(p[i].value + q[j].value);
      && (p[i].ty > q[j].ty ==>
            rest == [q[j]] + (if q[j].ty == UNKNOWN then [] else Merge(p[i..], q[j + 1..], preserve)))
      && (p[i].ty < q[j].ty ==>
            rest == [p[i]] + (if p[i].ty == UNKNOWN then [] else Merge(p[i + 1..], q[j..], preserve)))
      && (p[i].ty == q[j].ty ==>
            rest == (if sum != 0 then [Term(p[i].ty, sum)] else [])
                    + (if p[i].ty == UNKNOWN then [] else Merge(p[i + 1..], q[j + 1..], preserve)))
  {
    assert p[i..][1..] == p[i + 1..] && q[j..][1..] == q[j + 1..];
  }

  /** Takes one term, or one of each vector; an unknown one ends the merge. */
  method MergeOne(p: seq<Term>, q: seq<Term>, i: nat, j: nat, r: seq<Term>, ghost preserve: bool)
    returns (r2: seq<Term>, i2: nat, j2: nat, stop: bool)
    requires i < |p| && j < |q| && p[i].ty < FAR && q[j].ty < FAR
    ensures i <= i2 <= |p| && j <= j2 <= |q| && i2 + j2 > i + j
    ensures r + Merge(p[i..], q[j..], preserve) == if stop then r2 else r2 + Merge(p[i2..], q[j2..], preserve)
  {
    MergeStep(p, q, i, j, preserve);
    i2, j2 := i, j;
    ghost var front;
    if p[i].ty > q[j].ty {
      r2, front, stop, j2 := r + [q[j]], [q[j]], q[j].ty == UNKNOWN, j + 1;
    } else if p[i].ty < q[j].ty {
      r2, front, stop, i2 := r + [p[i]], [p[i]], p[i].ty == UNKNOWN, i + 1;
    } else {
      var sum := S64(p[i].value + q[j].value);
      r2, front := r, [];
      if sum != 0 {
        r2, front := r + [Term(p[i].ty, sum)], [Term(p[i].ty, sum)];
      }
      stop, i2, j2 := p[i].ty == UNKNOWN, i + 1, j + 1;
    }
    Associate(r, front, if stop then [] else Merge(p[i2..], q[j2..], preserve));
  }

  lemma Associate(a: seq<Term>, b: seq<Term>, c: seq<Term>)
    ensures a + (b + c) == (a + b) + c && a + [] == a
  {
  }

  /** Adds two vectors. */
  method AddVectors(p: seq<Term>, q: seq<Term>) returns (r: seq<Term>)
    ensures r == Add(p, q)
  {
    var preserve := ScanSimple(p, true);
    if !preserve {
      preserve := ScanSimple(q, true);
    }
    r := [];
    var i, j := 0, 0;
    assert p[0..] == p && q[0..] == q;
    while i < |p| && j < |q| && p[i].ty < FAR && q[j].ty < FAR
      invariant i <= |p| && j <= |q|
      invariant Add(p, q) == r + Merge(p[i..], q[j..], preserve)
      decreases |p| + |q| - i - j
    {
      var stop;
      r, i, j, stop := MergeOne(p, q, i, j, r, preserve);
      if stop {
        return;
      }
    }
    MergeEnd(p[i..], q[j..], preserve);
    Associate(r, Tail(p[i..], preserve), Tail(q[j..], preserve));
    r := AppendTail(r, p, i, preserve);
    r := AppendTail(r, q, j, preserve);
  }

  lemma MergeEnd(p: seq<Term>, q: seq<Term>, preserve: bool)
    requires p == [] || q == [] || p[0].ty >= FAR || q[0].ty >= FAR
    ensures Merge(p, q, preserve) == Tail(p, preserve) + Tail(q, preserve)
  {
  }

  // ---- What sums mean ----

  /** The coefficient at a type. */
  function Coeff(v: seq<Term>, ty: int): int {
    if v == [] then 0 else (if v[0].ty == ty then v[0].value else 0) + Coeff(v[1..], ty)
  }

  /** Strictly sorted, and neither unknown nor far-absolute. */
  predicate Plain(v: seq<Term>) {
    && ValidVec(v)
    && (forall k | 0 <= k < |v| :: v[k].ty != UNKNOWN && v[k].ty < FAR)
    && forall j, k | 0 <= j < k < |v| :: v[j].ty < v[k].ty
  }

  /** All types are above `ty`. */
  predicate Above(v: seq<Term>, ty: int) {
    forall k | 0 <= k < |v| :: ty < v[k].ty
  }

  lemma PlainCons(t: Term, v: seq<Term>)
    requires Plain(v) && Above(v, t.ty) && 0 < t.ty < FAR && t.ty != UNKNOWN && Is64(t.value)
    ensures Plain([t] + v)
  {
  }

  lemma PlainRest(v: seq<Term>)
    requires Plain(v) && v != []
    ensures Plain(v[1..]) && Above(v[1..], v[0].ty)
  {
  }

  lemma PlainHead(v: seq<Term>, ty: int)
    requires Plain(v) && v != []
    ensures v[0].ty != UNKNOWN && v[0].ty < FAR && (ty < v[0].ty ==> Above(v, ty))
  {
  }

  lemma {:induction false} CoeffAbove(v: seq<Term>, ty: int)
    requires forall k | 0 <= k < |v| :: v[k].ty != ty
    ensures Coeff(v, ty) == 0
  {
    if v != [] {
      CoeffAbove(v[1..], ty);
    }
  }

  lemma {:induction false} TailAll(p: seq<Term>, preserve: bool)
    requires Plain(p)
    ensures Tail(p, preserve) == p
  {
    if p != [] {
      PlainRest(p);
      TailAll(p[1..], preserve);
    }
  }

  lemma CoeffCons(t: Term, v: seq<Term>, ty: int)
    ensures Coeff([t] + v, ty) == (if t.ty == ty then t.value else 0) + Coeff(v, ty)
  {
    assert ([t] + v)[1..] == v;
  }

  lemma {:induction false} CoeffRange(v: seq<Term>, ty: int)
    requires Plain(v)
    ensures Is64(Coeff(v, ty))
  {
    if v != [] {
      PlainRest(v);
      if v[0].ty == ty {
        CoeffAbove(v[1..], ty);
      } else {
        CoeffRange(v[1..], ty);
      }
    }
  }

  lemma S64Small(v: int)
    requires Is64(v)
    ensures S64(v) == v
  {
  }

  /** The coefficients of `r` are the sums, modulo 2^64. */
  ghost predicate SumOf(r: seq<Term>, p: seq<Term>, q: seq<Term>) {
    forall ty :: Coeff(r, ty) == S64(Coeff(p, ty) + Coeff(q, ty))
  }

  /** On plain vectors the merge is plain, stays above what both were above, and adds the
      coefficients. */
  lemma {:induction false} MergeAdds(p: seq<Term>, q: seq<Term>, preserve: bool, low: int)
    requires Plain(p) && Plain(q) && Above(p, low) && Above(q, low)
    ensures Plain(Merge(p, q, preserve)) && Above(Merge(p, q, preserve), low) && SumOf(Merge(p, q, preserve), p, q)
    decreases |p| + |q|
  {
    if p == [] || q == [] {
      OneAlone(p, q, preserve);
    } else {
      hide Plain;
      hide Above;
      hide SumOf;
      PlainHead(p, q[0].ty);
      PlainHead(q, p[0].ty);
      PlainRest(p);
      PlainRest(q);
      if p[0].ty > q[0].ty {
        MergeAdds(p, q[1..], preserve, q[0].ty);
        SumCommutes(Merge(p, q[1..], preserve), p, q[1..]);
        FirstOfOne(q, p, Merge(p, q[1..], preserve), low);
        SumCommutes([q[0]] + Merge(p, q[1..], preserve), q, p);
      } else if p[0].ty < q[0].ty {
        MergeAdds(p[1..], q, preserve, p[0].ty);
        FirstOfOne(p, q, Merge(p[1..], q, preserve), low);
      } else {
        MergeAdds(p[1..], q[1..], preserve, p[0].ty);
        FirstOfBoth(p, q, Merge(p[1..], q[1..], preserve), low);
      }
    }
  }

  lemma SumCommutes(r: seq<Term>, p: seq<Term>, q: seq<Term>)
    requires SumOf(r, p, q)
    ensures SumOf(r, q, p)
  {
    forall ty ensures Coeff(r, ty) == S64(Coeff(q, ty) + Coeff(p, ty)) {
      assert Coeff(r, ty) == S64(Coeff(p, ty) + Coeff(q, ty));
    }
  }

  lemma OneAlone(p: seq<Term>, q: seq<Term>, preserve: bool)
    requires Plain(p) && Plain(q) && (p == [] || q == [])
    ensures Merge(p, q, preserve) == p + q && SumOf(p + q, p, q)
  {
    TailAll(p, preserve);
    TailAll(q, preserve);
    if p == [] {
      assert p + q == q;
      WithZero(q, p);
      SumCommutes(q, q, p);
    } else {
      assert p + q == p;
      WithZero(p, q);
    }
  }

  lemma WithZero(p: seq<Term>, zero: seq<Term>)
    requires Plain(p) && zero == []
    ensures SumOf(p, p, zero)
  {
    forall ty ensures Coeff(p, ty) == S64(Coeff(p, ty) + Coeff(zero, ty)) {
      CoeffRange(p, ty);
      S64Small(Coeff(p, ty));
    }
  }

  /** A term of one vector only comes first. */
  lemma FirstOfOne(p: seq<Term>, q: seq<Term>, rest: seq<Term>, low: int)
    requires Plain(p) && Plain(q) && p != [] && Above(p, low) && Above(q, p[0].ty)
    requires Plain(rest) && Above(rest, p[0].ty)
    requires SumOf(rest, p[1..], q)
    ensures Plain([p[0]] + rest) && Above([p[0]] + rest, low) && SumOf([p[0]] + rest, p, q)
  {
    PlainCons(p[0], rest);
    PlainRest(p);
    forall ty ensures Coeff([p[0]] + rest, ty) == S64(Coeff(p, ty) + Coeff(q, ty)) {
      CoeffCons(p[0], rest, ty);
      if ty == p[0].ty {
        CoeffAbove(p[1..], ty);
        CoeffAbove(q, ty);
        CoeffAbove(rest, ty);
        S64Small(p[0].value);
      }
    }
  }

  /** Terms of the same type are added, and left out if they cancel. */
  lemma FirstOfBoth(p: seq<Term>, q: seq<Term>, rest: seq<Term>, low: int)
    requires Plain(p) && Plain(q) && p != [] && q != [] && Above(p, low) && p[0].ty == q[0].ty
    requires Plain(rest) && Above(rest, p[0].ty)
    requires SumOf(rest, p[1..], q[1..])
    ensures var sum := S64(p[0].value + q[0].value); var r := (if sum != 0 then [Term(p[0].ty, sum)] else []) + rest;
      Plain(r) && Above(r, low) && SumOf(r, p, q)
  {
    var t := Term(p[0].ty, S64(p[0].value + q[0].value));
    PlainRest(p);
    PlainRest(q);
    PlainCons(t, rest);
    assert [] + rest == rest;
    BothSum(p, q, rest, t, (if t.value != 0 then [t] else []) + rest);
  }

  lemma BothSum(p: seq<Term>, q: seq<Term>, rest: seq<Term>, t: Term, r: seq<Term>)
    requires Plain(p) && Plain(q) && p != [] && q != [] && p[0].ty == q[0].ty
    requires Plain(rest) && Above(rest, p[0].ty) && SumOf(rest, p[1..], q[1..])
    requires t == Term(p[0].ty, S64(p[0].value + q[0].value)) && r == (if t.value != 0 then [t] else []) + rest
    ensures SumOf(r, p, q)
  {
    forall ty ensures Coeff(r, ty) == S64(Coeff(p, ty) + Coeff(q, ty)) {
      assert Coeff(rest, ty) == S64(Coeff(p[1..], ty) + Coeff(q[1..], ty));
      CoeffHead(p, ty);
      CoeffHead(q, ty);
      CoeffMaybe(t, rest, ty);
    }
  }

  /** A coefficient of zero makes no difference. */
  lemma CoeffMaybe(t: Term, rest: seq<Term>, ty: int)
    requires Plain(rest) && Above(rest, t.ty)
    ensures Coeff((if t.value != 0 then [t] else []) + rest, ty) == if ty == t.ty then t.value else Coeff(rest, ty)
  {
    assert [] + rest == rest;
    CoeffCons(t, rest, ty);
    if ty == t.ty {
      CoeffAbove(rest, ty);
    }
  }

  lemma CoeffHead(p: seq<Term>, ty: int)
    requires Plain(p) && p != []
    ensures Coeff(p, ty) == if ty == p[0].ty then p[0].value else Coeff(p[1..], ty)
  {
    if ty == p[0].ty {
      CoeffAbove(p[1..], ty);
    }
  }

  /** Addition of expression values, on vectors without unknown or far-absolute parts. */
  lemma AddCoefficients(p: seq<Term>, q: seq<Term>)
    requires Plain(p) && Plain(q)
    ensures Plain(Add(p, q)) && SumOf(Add(p, q), p, q)
  {
    MergeAdds(p, q, IsReallySimple(p) || IsReallySimple(q), 0);
  }

  // ---- Products ----

  /** Multiplication by a scalar; far-absolutes are stripped. */
  function Scaled(v: seq<Term>, scalar: int): seq<Term> {
    if v == [] || v[0].ty >= FAR then []
    else [Term(v[0].ty, S64(scalar * v[0].value))] + Scaled(v[1..], scalar)
  }

  /** The vector in an array, up to the term of type zero. */
  function Stored(a: seq<Term>): seq<Term> {
    if a == [] || a[0].ty == 0 then [] else [a[0]] + Stored(a[1..])
  }

  predicate Ended(a: seq<Term>, k: nat) {
    k < |a| && a[k].ty == 0 && forall j | 0 <= j < k :: a[j].ty > 0
  }

  lemma {:induction false} StoredIs(a: seq<Term>, k: nat)
    requires Ended(a, k)
    ensures Stored(a) == a[..k]
    decreases k
  {
    if k > 0 {
      StoredIs(a[1..], k - 1);
      assert a[..k] == [a[0]] + a[1..][..k - 1];
    }
  }

  lemma {:induction false} ScaledPrefix(v: seq<Term>, scalar: int, k: nat, w: seq<Term>)
    requires k <= |v| && |w| == k && (k < |v| ==> v[k].ty >= FAR)
    requires forall j | 0 <= j < k :: v[j].ty < FAR && w[j] == Term(v[j].ty, S64(scalar * v[j].value))
    ensures Scaled(v, scalar) == w
    decreases k
  {
    if k > 0 {
      ScaledPrefix(v[1..], scalar, k - 1, w[1..]);
      assert w == [w[0]] + w[1..];
    }
  }

  /** Multiplies a vector where it stands; `end` is its terminator. */
  method ScalarMult(vect: array<Term>, scalar: int, ghost end: nat)
    requires Ended(vect[..], end)
    modifies vect
    ensures Stored(vect[..]) == Scaled(old(Stored(vect[..])), scalar)
  {
    ghost var was := vect[..];
    StoredIs(was, end);
    var p := 0;
    while vect[p].ty != 0 && vect[p].ty < FAR
      invariant p <= end
      invariant forall j | 0 <= j < p :: was[j].ty < FAR && vect[j] == Term(was[j].ty, S64(scalar * was[j].value))
      invariant forall j | p <= j < vect.Length :: vect[j] == was[j]
      decreases end - p
    {
      vect[p] := Term(vect[p].ty, S64(scalar * vect[p].value));
      p := p + 1;
    }
    vect[p] := Term(0, vect[p].value);
    StoredIs(vect[..], p);
    ScaledPrefix(was[..end], scalar, p, vect[..p]);
    assert vect[..][..p] == vect[..p];
  }

  /** Multiplication keeps a plain vector plain, and multiplies its coefficients. */
  lemma {:induction false} ScaledCoefficients(v: seq<Term>, scalar: int, low: int)
    requires Plain(v) && Above(v, low)
    ensures Plain(Scaled(v, scalar)) && Above(Scaled(v, scalar), low)
    ensures forall ty :: Coeff(Scaled(v, scalar), ty) == S64(scalar * Coeff(v, ty))
  {
    if v == [] {
      assert forall ty :: Coeff(v, ty) == 0;
      S64Small(0);
    } else {
      PlainRest(v);
      ScaledCoefficients(v[1..], scalar, v[0].ty);
      var t, rest := Term(v[0].ty, S64(scalar * v[0].value)), Scaled(v[1..], scalar);
      PlainCons(t, rest);
      forall ty ensures Coeff([t] + rest, ty) == S64(scalar * Coeff(v, ty)) {
        CoeffCons(t, rest, ty);
        if ty == v[0].ty {
          CoeffAbove(v[1..], ty);
          CoeffAbove(rest, ty);
        }
      }
    }
  }
}
