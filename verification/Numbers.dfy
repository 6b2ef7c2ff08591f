/** What expressions over numbers mean in 64-bit arithmetic, and where the evaluator says
    something else. */
module Numbers {
  import opened Basics
  import opened Grammar
  import opened Vectors
  import opened Evaluate
  import opened Words

  /** The 64-bit number that a vector stands for, if it is one. */
  function NumberOf(v: Vec): Option<int> {
    if v == [] then Some(0)
    else if |v| == 1 && v[0].ty == SIMPLE && Is64(v[0].value) then Some(v[0].value)
    else None
  }

  /** Where C gives an operator a meaning. */
  predicate Defined(op: BinOp, a: int, b: int) {
    && (op.DivU? || op.ModU? || op.DivS? || op.ModS? ==> U64(b) != 0)
    && (op.DivS? || op.ModS? ==> Is64(Truncated(a, b)))
    && (op.ShiftL? || op.ShiftR? || op.ShiftA? ==> 0 <= b < 64)
  }

  /** Where a comparison, which looks at the sign of a wrapped difference and uses -1 for an
      unknown result, comes out right. */
  predicate Faithful(op: BinOp, a: int, b: int) {
    && (op.Lt? || op.Gt? || op.Le? || op.Ge? || op.Leg? ==> Is64(a - b))
    && (op.Leg? ==> a >= b)
  }

  function UnaryOn(op: UnOp, n: int): int {
    match op
    case Neg => S64(-n)
    case Pos => n
    case Not => -1 - n
    case LogNot => Bool(n == 0)
  }

  /** The value of a tree over numbers: none if an operator has no meaning, or is a
      comparison that is not faithful. */
  function Meaning(t: Tree<Vec>): Option<int> {
    match t
    case Leaf(v) => NumberOf(v)
    case Paren(u) => Meaning(u)
    case Unary(op, u) =>
      var n := Meaning(u);
      if n == None then None else Some(UnaryOn(op, n.value))
    case Binary(op, a, b) =>
      var m, n := Meaning(a), Meaning(b);
      if m == None || n == None || !Defined(op, m.value, n.value) || !Faithful(op, m.value, n.value) then None
      else Some(Combine(op, m.value, n.value))
    case Cond(c, a, b) =>
      var l, m, n := Meaning(c), Meaning(a), Meaning(b);
      if l == None || m == None || n == None then None else if l.value != 0 then m else n
  }

  lemma NumberFacts(v: Vec)
    requires NumberOf(v).Some?
    ensures IsSimple(v) && IsReallySimple(v) && !IsUnknown(v) && !IsJustUnknown(v)
    ensures RelocValue(v) == NumberOf(v).value && Is64(NumberOf(v).value)
  {
    if v != [] {
      assert v[1..] == [];
    }
  }

  /** Sums and differences of numbers. */
  lemma SumOfNumbers(e: Vec, f: Vec)
    requires NumberOf(e).Some? && NumberOf(f).Some?
    ensures NumberOf(Add(e, f)) == Some(S64(NumberOf(e).value + NumberOf(f).value))
  {
    S64Small(NumberOf(e).value);
    S64Small(NumberOf(f).value);
    if e == [] || f == [] {
      if e != [] {
        assert e[1..] == [];
      }
      if f != [] {
        assert f[1..] == [];
      }
    } else {
      assert e[1..] == [] && f[1..] == [];
      NumberFacts(e);
      NumberFacts(f);
      assert Merge(e[1..], f[1..], true) == [];
    }
  }

  lemma ProductOfNumber(e: Vec, k: int)
    requires NumberOf(e).Some?
    ensures NumberOf(Scaled(e, k)) == Some(S64(k * NumberOf(e).value))
  {
    S64Small(0);
    if e != [] {
      assert e[1..] == [];
    }
  }

  lemma NumberOfScalar(n: int)
    requires Is64(n)
    ensures NumberOf(Scalar(n)) == Some(n)
  {
  }

  lemma ShiftedRange(a: int, n: nat)
    requires Is64(a)
    ensures Is64(a / Pow2(n))
  {
    hide Pow2;
    var p, q, r := Pow2(n), a / Pow2(n), a % Pow2(n);
    assert a == p * q + r;
    if q > 0 {
      MulMonotone(q, 1, p);
    } else {
      MulMonotone(-q, 1, p);
    }
  }

  predicate IsComparison(op: BinOp) {
    Level(op) == 4
  }

  lemma CombineRange(op: BinOp, a: int, b: int)
    requires Defined(op, a, b) && Is64(a)
    ensures Is64(Combine(op, a, b))
  {
    if op.ShiftA? {
      ShiftedRange(a, b);
    }
  }

  /** The sign of the wrapped difference is that of the difference unless it overflows;
      then it is the opposite. */
  lemma WrappedSign(a: int, b: int)
    requires Is64(a) && Is64(b)
    ensures var d := S64(a - b);
      if Is64(a - b) then d == a - b else d != 0 && (d < 0 <==> a > b)
  {
    if Is64(a - b) {
      S64Small(a - b);
    } else if a > b {
      assert (a - b) % TWO64 == a - b;
    } else {
      assert (a - b) % TWO64 == a - b + TWO64;
    }
  }

  lemma DifferenceOfNumbers(e: Vec, f: Vec)
    requires NumberOf(e).Some? && NumberOf(f).Some?
    ensures NumberOf(Difference(e, f)) == Some(S64(NumberOf(e).value - NumberOf(f).value))
  {
    ProductOfNumber(f, -1);
    SumOfNumbers(e, Scaled(f, -1));
    WrappedNegative(NumberOf(e).value, NumberOf(f).value);
  }

  /** What a comparison makes of a difference. */
  function FromSign(op: BinOp, d: int): int
    requires IsComparison(op)
  {
    match op
    case Eq => Bool(d == 0)
    case Ne => Bool(d != 0)
    case Lt => Bool(d < 0)
    case Gt => Bool(d > 0)
    case Le => Bool(d <= 0)
    case Ge => Bool(d >= 0)
    case _ => if d < 0 then -1 else Bool(d > 0)
  }

  lemma CompareIsSign(op: BinOp, d: Vec)
    requires IsComparison(op) && NumberOf(d).Some?
    ensures Compare(op, d) == (FromSign(op, NumberOf(d).value), false)
  {
    NumberFacts(d);
  }

  lemma FromSignIff(op: BinOp, a: int, b: int)
    requires IsComparison(op) && Is64(a) && Is64(b)
    ensures FromSign(op, S64(a - b)) == Combine(op, a, b) != -1 <==> Faithful(op, a, b)
    ensures FromSign(op, S64(a - b)) == -1 ==> !Faithful(op, a, b)
  {
    WrappedSign(a, b);
  }

  lemma ComparisonIff(op: BinOp, e: Vec, f: Vec)
    requires IsComparison(op) && NumberOf(e).Some? && NumberOf(f).Some?
    ensures var a, b, r := NumberOf(e).value, NumberOf(f).value, Apply(op, e, f);
      && r.v.Some? && !r.err
      && (NumberOf(r.v.value) == Some(Combine(op, a, b)) <==> Faithful(op, a, b))
  {
    hide Apply;
    hide Combine;
    hide Compare;
    hide Difference;
    var a, b, d := NumberOf(e).value, NumberOf(f).value, Difference(e, f);
    NumberFacts(e);
    NumberFacts(f);
    DifferenceOfNumbers(e, f);
    CompareIsSign(op, d);
    FromSignIff(op, a, b);
    ApplyCompares(op, e, f, FromSign(op, S64(a - b)));
  }

  lemma ApplyCompares(op: BinOp, e: Vec, f: Vec, v: int)
    requires IsComparison(op) && Compare(op, Difference(e, f)) == (v, false) && Is64(v)
    ensures var r := Apply(op, e, f); r.v.Some? && !r.err && NumberOf(r.v.value) == if v == -1 then None else Some(v)
  {
  }

  lemma WrappedNegative(a: int, b: int)
    ensures S64(a + S64(-1 * b)) == S64(a - b)
  {
    var n := S64(-1 * b);
    assert (n - (-1 * b)) % TWO64 == 0;
    ModEqual(a + n, a - b, TWO64);
    assert (a + n) - (a - b) == n - (-1 * b);
  }

  // ---- Results, by what is asked of them ----

  lemma WordUnique(r: int, x: int)
    requires Is64(r) && 0 <= x < TWO64
    ensures U64(r) == x <==> r == S64(x)
  {
  }

  lemma UnsignedIff(op: BinOp, a: int, b: int, r: int)
    requires (op.DivU? || op.ModU?) && U64(b) > 0 && Is64(r)
    ensures IsResult(op, a, b, r) <==> r == Combine(op, a, b)
  {
    var x, y := U64(a), U64(b);
    UnsignedDivision(x, y, U64(r));
    UnsignedRemainder(x, y, U64(r));
    QuotientInWord(x, y);
    WordUnique(r, x / y);
    WordUnique(r, x % y);
  }

  lemma QuotientInWord(x: nat, y: nat)
    requires y > 0
    ensures 0 <= x / y <= x && 0 <= x % y <= x
  {
    assert x == y * (x / y) + x % y;
    MulMonotone(x / y, 1, y);
  }

  lemma SignedIff(op: BinOp, a: int, b: int, r: int)
    requires (op.DivS? || op.ModS?) && Is64(a) && Is64(b) && b != 0 && Is64(Truncated(a, b)) && Is64(r)
    ensures IsResult(op, a, b, r) <==> r == Combine(op, a, b)
  {
    SignedDivision(a, b, r);
    SignedRemainder(a, b, r);
    TruncatedIs(a, b);
    S64Small(Truncated(a, b));
    S64Small(a - Truncated(a, b) * b);
  }

  /** A word is told by its remainder. */
  lemma CongruentIff(r: int, x: int)
    requires Is64(r)
    ensures Congruent(r, x) <==> r == S64(x)
  {
    S64Small(r);
    ModEqual(r, x, TWO64);
  }

  lemma SumIff(op: BinOp, a: int, b: int, r: int)
    requires (op.Plus? || op.Minus? || op.Mul?) && Is64(r)
    ensures IsResult(op, a, b, r) <==> r == Combine(op, a, b)
  {
    match op {
      case Plus => CongruentIff(r, a + b);
      case Minus => CongruentIff(r, a - b);
      case _ => CongruentIff(r, a * b);
    }
  }

  lemma ConditionIff(op: BinOp, a: int, b: int, r: int)
    requires IsComparison(op) || op.LogOr? || op.LogXor? || op.LogAnd?
    ensures IsResult(op, a, b, r) <==> r == Combine(op, a, b)
  {
  }

  /** Of all 64-bit numbers, the result alone is what is asked for. */
  lemma CombineIff(op: BinOp, a: int, b: int, r: int)
    requires Defined(op, a, b) && Is64(a) && Is64(b) && Is64(r)
    ensures IsResult(op, a, b, r) <==> r == Combine(op, a, b)
  {
    if op.DivU? || op.ModU? {
      UnsignedIff(op, a, b, r);
    } else if op.DivS? || op.ModS? {
      SignedIff(op, a, b, r);
    } else if op.BitOr? || op.BitXor? || op.BitAnd? || op.ShiftL? || op.ShiftR? || op.ShiftA? {
      CombineRange(op, a, b);
      BitsIff(op, a, b, r);
    } else if op.Plus? || op.Minus? || op.Mul? {
      SumIff(op, a, b, r);
    } else {
      ConditionIff(op, a, b, r);
    }
  }

  /** What the evaluator computes is what is combined, but for these comparisons. */
  lemma AppliedIsCombined(op: BinOp, e: Vec, f: Vec)
    requires NumberOf(e).Some? && NumberOf(f).Some? && Defined(op, NumberOf(e).value, NumberOf(f).value)
    ensures var a, b, r := NumberOf(e).value, NumberOf(f).value, Apply(op, e, f);
      && r.v.Some? && !r.err
      && (NumberOf(r.v.value) == Some(Combine(op, a, b)) <==> Faithful(op, a, b))
  {
    var a, b := NumberOf(e).value, NumberOf(f).value;
    if IsComparison(op) {
      ComparisonIff(op, e, f);
    } else {
      NumberFacts(e);
      NumberFacts(f);
      if op.Plus? {
        SumOfNumbers(e, f);
      } else if op.Minus? {
        DifferenceOfNumbers(e, f);
      } else if op.Mul? {
        ProductOfNumber(f, a);
      } else {
        CombineRange(op, a, b);
        NumberOfScalar(Combine(op, a, b));
      }
    }
  }

  /** On numbers an operator gives what it means exactly if it is not a comparison whose
      difference overflows, or a three-way comparison of a smaller number. */
  lemma AppliedIff(op: BinOp, e: Vec, f: Vec)
    requires NumberOf(e).Some? && NumberOf(f).Some? && Defined(op, NumberOf(e).value, NumberOf(f).value)
    ensures var a, b, r := NumberOf(e).value, NumberOf(f).value, Apply(op, e, f);
      && r.v.Some? && !r.err
      && (NumberOf(r.v.value).Some? && IsResult(op, a, b, NumberOf(r.v.value).value) <==> Faithful(op, a, b))
      && (NumberOf(r.v.value) == Some(Combine(op, a, b)) <==> Faithful(op, a, b))
  {
    var a, b, r := NumberOf(e).value, NumberOf(f).value, Apply(op, e, f);
    AppliedIsCombined(op, e, f);
    NumberFacts(e);
    NumberFacts(f);
    if NumberOf(r.v.value).Some? {
      NumberFacts(r.v.value);
      CombineIff(op, a, b, NumberOf(r.v.value).value);
    }
    hide IsResult;
    hide Combine;
    hide Faithful;
  }

  /** A tree over numbers is evaluated to its meaning, without any error. */
  lemma {:induction false} EvalIsMeaning(g: Input<Vec>, t: Tree<Vec>)
    requires g == Expression(g.toks, g.limit) && Meaning(t).Some?
    ensures var e := Eval(g, t); e.v.Some? && !e.err && NumberOf(e.v.value) == Meaning(t)
  {
    match t
    case Leaf(_) =>
    case Paren(u) => EvalIsMeaning(g, u);
    case Unary(op, u) =>
      EvalIsMeaning(g, u);
      UnaryMeaning(op, Eval(g, u).v.value);
    case Binary(op, a, b) =>
      EvalIsMeaning(g, a);
      EvalIsMeaning(g, b);
      AppliedIff(op, Eval(g, a).v.value, Eval(g, b).v.value);
    case Cond(c, a, b) =>
      EvalIsMeaning(g, c);
      EvalIsMeaning(g, a);
      EvalIsMeaning(g, b);
      NumberFacts(Eval(g, c).v.value);
  }

  lemma UnaryMeaning(op: UnOp, e: Vec)
    requires NumberOf(e).Some?
    ensures var r := ApplyUnary(op, e); r.v.Some? && !r.err && NumberOf(r.v.value) == Some(UnaryOn(op, NumberOf(e).value))
  {
    NumberFacts(e);
    ProductOfNumber(e, -1);
  }

  /** The evaluator on the printed form of a tree over numbers, within the limit. */
  lemma PrintedMeaning(t: Tree<Vec>, g: Input<Vec>)
    requires g == Expression(g.toks, g.limit) && Fits(g, t, 0) && Meaning(t).Some? && Cost(t) <= g.limit
    requires At(g.toks, 0, Print(t)) && Stops(g, g.Tok(|Print(t)|), 0)
    ensures var p := Parse(0, g, St(0, 0, false));
      && p.Parsed? && p.st == St(|Print(t)|, Cost(t), false)
      && NumberOf(p.v) == Meaning(t) == NumberOf(Scaled(p.v, 1))
  {
    PrintedParses(g, t, 0, St(0, 0, false));
    EvalIsMeaning(g, t);
    var v := Eval(g, t).v.value;
    ProductOfNumber(v, 1);
    NumberFacts(v);
    S64Small(NumberOf(v).value);
  }

  /** The three-way comparison of one and two is unknown, not minus one. */
  lemma WrongThreeWay()
    ensures Apply(Leg, Scalar(1), Scalar(2)).v == Some(UNKNOWN_VEC)
  {
  }

  /** The comparison of the least and the greatest number comes out the wrong way round. */
  lemma WrongLess()
    ensures Apply(Lt, Scalar(-0x8000_0000_0000_0000), Scalar(0x7FFF_FFFF_FFFF_FFFF)).v == Some(Scalar(0))
  {
    hide Combine;
  }
}
