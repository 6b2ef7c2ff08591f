/** The expression evaluator: a recursive-descent parser that computes as it reads,
    and the syntax trees whose printed form it reads back. */
module Evaluate {
  import opened Basics
  import opened Grammar
  import opened Vectors

  // ---- Operators ----

  type Vec = seq<Term>

  /** The level of an operator, loosest first; level 0 is the conditional. */
  function Level(op: BinOp): (l: nat)
    ensures 1 <= l < TOP
  {
    match op
    case LogOr => 1
    case LogXor => 2
    case LogAnd => 3
    case Eq | Ne | Lt | Gt | Le | Ge | Leg => 4
    case BitOr => 5
    case BitXor => 6
    case BitAnd => 7
    case ShiftL | ShiftR | ShiftA => 8
    case Plus | Minus => 9
    case Mul | DivU | ModU | DivS | ModS => 10
  }

  // ---- What operators compute ----

  function Scalar(n: int): Vec {
    [Term(SIMPLE, n)]
  }

  const UNKNOWN_VEC := [Term(UNKNOWN, 1)]

  function Bool(b: bool): int {
    if b then 1 else 0
  }

  function Pow2(n: nat): (p: nat)
    ensures p > 0
  {
    if n == 0 then 1 else 2 * Pow2(n - 1)
  }

  /** Bitwise operators on naturals; `f` says which bits of the table are set. */
  function Bitwise(a: nat, b: nat, and: bool, xor: bool): nat
    decreases a + b
  {
    if a == 0 && b == 0 then 0
    else
      var x, y := a % 2 == 1, b % 2 == 1;
      2 * Bitwise(a / 2, b / 2, and, xor) + Bool(if and then x && y else if xor then x != y else x || y)
  }

  /** Division that truncates toward zero, and its remainder. */
  function Truncated(a: int, b: int): int
    requires b != 0
  {
    if (a < 0) == (b < 0) then (if a < 0 then -a else a) / (if b < 0 then -b else b)
    else -((if a < 0 then -a else a) / (if b < 0 then -b else b))
  }

  /** What an operator means on two 64-bit numbers. */
  function Combine(op: BinOp, a: int, b: int): int
    requires op == DivU || op == ModU || op == DivS || op == ModS ==> U64(b) != 0
    requires op == ShiftL || op == ShiftR || op == ShiftA ==> b >= 0
  {
    match op
    case LogOr => Bool(a != 0 || b != 0)
    case LogXor => Bool((a != 0) != (b != 0))
    case LogAnd => Bool(a != 0 && b != 0)
    case Eq => Bool(a == b)
    case Ne => Bool(a != b)
    case Lt => Bool(a < b)
    case Gt => Bool(a > b)
    case Le => Bool(a <= b)
    case Ge => Bool(a >= b)
    case Leg => if a < b then -1 else Bool(a > b)
    case BitOr => S64(Bitwise(U64(a), U64(b), false, false))
    case BitXor => S64(Bitwise(U64(a), U64(b), false, true))
    case BitAnd => S64(Bitwise(U64(a), U64(b), true, false))
    case ShiftL => S64(a * Pow2(b))
    case ShiftR => S64(U64(a) / Pow2(b))
    case ShiftA => a / Pow2(b)
    case DivU => S64(U64(a) / U64(b))
    case ModU => S64(U64(a) % U64(b))
    case DivS => S64(Truncated(a, b))
    case ModS => S64(a - Truncated(a, b) * b)
    case Plus => S64(a + b)
    case Minus => S64(a - b)
    case Mul => S64(a * b)
  }

  predicate Scalarish(v: Vec) {
    IsSimple(v) || IsJustUnknown(v)
  }

  function Difference(e: Vec, f: Vec): Vec {
    Add(e, Scaled(f, -1))
  }

  /** A comparison, from the sign of the difference; -1 stands for an unknown result. */
  function Compare(op: BinOp, d: Vec): (int, bool) {
    if IsUnknown(d) then (-1, false)
    else if op == Eq || op == Ne then
      (Bool((op == Ne) == (!IsReallySimple(d) || RelocValue(d) != 0)), false)
    else if !IsReallySimple(d) then (0, true)
    else
      var vv := RelocValue(d);
      (if op == Leg then if vv < 0 then -1 else if vv > 0 then 1 else 0
       else if vv == 0 then Bool(op == Le || op == Ge)
       else if vv > 0 then Bool(op == Ge || op == Gt)
       else Bool(op == Le || op == Lt), false)
  }

  function Multiply(e: Vec, f: Vec): Option<Vec> {
    if IsSimple(e) then Some(Scaled(f, RelocValue(e)))
    else if IsSimple(f) then Some(Scaled(e, RelocValue(f)))
    else if IsJustUnknown(e) && IsJustUnknown(f) then Some(UNKNOWN_VEC)
    else None
  }

  /** The operators on scalars that may be unknown. */
  function ApplyScalars(op: BinOp, e: Vec, f: Vec): Vec
    requires op == DivU || op == ModU || op == DivS || op == ModS ==> IsJustUnknown(f) || U64(RelocValue(f)) != 0
  {
    if IsJustUnknown(e) || IsJustUnknown(f) then UNKNOWN_VEC
    else
      var a, b := RelocValue(e), RelocValue(f);
      if (op == ShiftL || op == ShiftR || op == ShiftA) && b < 0 then UNKNOWN_VEC // no meaning in C
      else Scalar(Combine(op, a, b))
  }

  function Apply(op: BinOp, e: Vec, f: Vec): Applied<Vec> {
    match op
    case Plus => Applied(Some(Add(e, f)), false)
    case Minus => Applied(Some(Difference(e, f)), false)
    case Mul => Applied(Multiply(e, f), false)
    case DivU | ModU | DivS | ModS =>
      if !Scalarish(e) || !Scalarish(f) || (!IsJustUnknown(f) && U64(RelocValue(f)) == 0) then Applied(None, true)
      else Applied(Some(ApplyScalars(op, e, f)), false)
    case Eq | Ne | Lt | Gt | Le | Ge | Leg =>
      var (v, err) := Compare(op, Difference(e, f));
      Applied(Some(if v == -1 then UNKNOWN_VEC else Scalar(v)), err)
    case ShiftL | ShiftR | ShiftA =>
      if !Scalarish(e) || !Scalarish(f) then Applied(Some(e), true) else Applied(Some(ApplyScalars(op, e, f)), false)
    case _ => Applied(Some(ApplyScalars(op, e, f)), !Scalarish(e) || !Scalarish(f))
  }

  function ApplyUnary(op: UnOp, e: Vec): Applied<Vec> {
    match op
    case Neg => Applied(Some(Scaled(e, -1)), false)
    case Pos => Applied(Some(e), false)
    case _ =>
      if IsJustUnknown(e) then Applied(Some(UNKNOWN_VEC), false)
      else if !IsSimple(e) then Applied(None, true)
      else Applied(Some(Scalar(if op == Not then -1 - RelocValue(e) else Bool(RelocValue(e) == 0))), false)
  }

  function Choose(c: Vec, a: Vec, b: Vec): Applied<Vec> {
    if IsSimple(c) then Applied(Some(if RelocValue(c) != 0 then a else b), false)
    else if IsJustUnknown(c) then Applied(Some(UNKNOWN_VEC), false)
    else Applied(Some(c), true)
  }

  function Expression(toks: seq<Token<Vec>>, limit: nat): Input<Vec> {
    Input(toks, limit, Level, Apply, ApplyUnary, Choose)
  }

  // ---- The parser ----

  class Evaluator {
    const g: Input<Vec> // the expression, with the operators
    var pos: nat // of the current token
    var deadman: nat // the operands so far
    var erred: bool // whether an error was reported that did not end the evaluation

    constructor (toks: seq<Token<Vec>>, limit: nat)
      ensures g == Expression(toks, limit) && pos == 0 && !erred
    {
      g, pos, deadman, erred := Expression(toks, limit), 0, 0, false;
    }

    ghost function Now(): St
      reads this
    {
      St(pos, deadman, erred)
    }

    /** The outcome of a parse; where a failed one stops does not matter. */
    ghost predicate Is(r: Option<Vec>, p: Parsed<Vec>)
      reads this
    {
      match p
      case Failed => r.None?
      case Parsed(v, st) => r == Some(v) && Now() == st
    }

    function Current(): Token<Vec>
      reads this
    {
      g.Tok(pos)
    }

    method Scan()
      requires pos < |g.toks|
      modifies this
      ensures Now() == old(Now()).Next()
    {
      pos := pos + 1;
    }

    /** Takes the result of an operator. */
    method Take(a: Applied<Vec>) returns (r: Option<Vec>)
      modifies this
      ensures Is(r, Carried(a, old(Now())))
    {
      r, erred := a.v, erred || a.err;
    }

    method Cexpr() returns (r: Option<Vec>)
      requires pos <= |g.toks|
      modifies this
      ensures Is(r, Parse(0, g, old(Now())))
      decreases |g.toks| - pos, TOP, 1
    {
      CondDescends(g, Now());
      r := Chain(1);
      if r.None? || !Current().Query? {
        return;
      }
      Scan();
      var e := Cexpr();
      if e.None? || !Current().Colon? {
        return None;
      }
      Scan();
      var f := Cexpr();
      if f.None? {
        return None;
      }
      r := Take(g.choose(r.value, e.value, f.value));
    }

    /** The functions for the levels of binary operators: rexp0 to rexp3, expr0 to expr5. */
    method Chain(level: nat) returns (r: Option<Vec>)
      requires pos <= |g.toks| && 1 <= level < TOP
      modifies this
      ensures Is(r, Parse(level, g, old(Now())))
      decreases |g.toks| - pos, TOP - level, 1
    {
      ghost var start := Now();
      r := Tighter(level);
      while r.Some? && g.IsOp(Current(), level)
        invariant r.Some? ==> start.pos <= pos <= |g.toks|
        invariant r.None? ==> Parse(level, g, start) == Failed
        invariant r.Some? ==> Parse(level, g, start) == Loop(level, g, r.value, Now())
        decreases r.Some?, |g.toks| - pos
      {
        var op := Current().op;
        Scan();
        var f := Tighter(level);
        if f.None? {
          return None;
        }
        r := Take(g.binary(op, r.value, f.value));
      }
    }

    /** The next level down: another chain, or an operand. */
    method Tighter(level: nat) returns (r: Option<Vec>)
      requires pos <= |g.toks| && 1 <= level < TOP
      modifies this
      ensures Is(r, Parse(level + 1, g, old(Now())))
      decreases |g.toks| - pos, TOP - level, 0
    {
      if level + 1 == TOP {
        r := Expr6();
      } else {
        r := Chain(level + 1);
      }
    }

    method Expr6() returns (r: Option<Vec>)
      requires pos <= |g.toks|
      modifies this
      ensures Is(r, Parse(TOP, g, old(Now())))
      decreases |g.toks| - pos, 0, 1
    {
      assert Parse(TOP, g, Now()) == Operand(g, Now());
      deadman := deadman + 1;
      if deadman > g.limit {
        return None;
      }
      var t := Current();
      if t.Atom? {
        Scan();
        r := Some(t.v);
      } else if t.LPar? {
        Scan();
        r := Cexpr();
        if r.None? || !Current().RPar? {
          return None;
        }
        Scan();
      } else if UnaryOf(t).Some? {
        Scan();
        r := Expr6();
        if r.Some? {
          r := Take(g.unary(UnaryOf(t).value, r.value));
        }
      } else {
        r := None;
      }
    }

    /** The whole evaluation, without WRT; far-absolute parts are stripped at the end. */
    method Evaluate() returns (r: Option<Vec>)
      requires pos <= |g.toks|
      modifies this
      ensures var p := Parse(0, g, St(old(pos), 0, old(erred)));
        if p.Failed? then r.None? else r == Some(Scaled(p.v, 1)) && Now() == p.st
    {
      deadman := 0;
      r := Cexpr();
      if r.Some? {
        r := Some(Scaled(r.value, 1));
      }
    }
  }
}
