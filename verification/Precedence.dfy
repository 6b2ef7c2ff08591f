/** How operators group, by the rows of the grammar: a later row binds tighter, operators of
    one row group from the left, the conditional is loosest, and unary operators are tightest. */
module Precedence {
  import opened Basics
  import opened Grammar
  import opened Vectors
  import opened Evaluate
  import opened Numbers

  /** The binary operators as the documentation lists them, loosest first. */
  const ROWS: seq<set<BinOp>> :=
    [{LogOr}, {LogXor}, {LogAnd}, {Eq, Ne, Lt, Gt, Le, Ge, Leg}, {BitOr}, {BitXor}, {BitAnd},
     {ShiftL, ShiftR, ShiftA}, {Plus, Minus}, {Mul, DivU, ModU, DivS, ModS}]

  predicate InRow(op: BinOp, k: nat) {
    k < |ROWS| && op in ROWS[k]
  }

  /** `op2` stands in a later row than `op1`. */
  ghost predicate BindsTighter(op2: BinOp, op1: BinOp) {
    exists i: nat, j: nat | i < j :: InRow(op1, i) && InRow(op2, j)
  }

  lemma RowOf(op: BinOp)
    ensures forall k: nat :: InRow(op, k) <==> k == Level(op) - 1
  {
  }

  lemma TighterIff(op1: BinOp, op2: BinOp)
    ensures BindsTighter(op2, op1) <==> Level(op1) < Level(op2)
  {
    hide InRow;
    hide Level;
    RowOf(op1);
    RowOf(op2);
    if Level(op1) < Level(op2) {
      assert InRow(op1, Level(op1) - 1) && InRow(op2, Level(op2) - 1);
    }
  }

  /** An operand: an atom, anything in parentheses, or a unary operator on one; with a value. */
  predicate Operand(g: Input<Vec>, t: Tree<Vec>, v: Vec) {
    Fits(g, t, TOP) && Eval(g, t) == Applied(Some(v), false)
  }

  /** One operator after another, with the errors of both. */
  function Then(op: BinOp, e: Applied<Vec>, f: Applied<Vec>): Applied<Vec> {
    if e.v.None? || f.v.None? then Applied(None, true) else WithErr(Apply(op, e.v.value, f.v.value), e.err || f.err)
  }

  function Just(v: Vec): Applied<Vec> {
    Applied(Some(v), false)
  }

  function Chain(a: Tree<Vec>, op1: BinOp, b: Tree<Vec>, op2: BinOp, c: Tree<Vec>): seq<Token<Vec>> {
    Print(a) + [Bin(op1)] + Print(b) + [Bin(op2)] + Print(c)
  }

  lemma WholeInput(g: Input<Vec>, t: Tree<Vec>)
    requires Fits(g, t, 0) && g.toks == Print(t) && Cost(t) <= g.limit
    ensures Parse(0, g, St(0, 0, false)) == Carried(Eval(g, t), St(|g.toks|, Cost(t), false))
  {
    PrintedParses(g, t, 0, St(0, 0, false));
  }

  ghost predicate OfNasm(g: Input<Vec>) {
    g == Expression(g.toks, g.limit)
  }

  lemma BinaryIs(g: Input<Vec>, op: BinOp, a: Tree<Vec>, b: Tree<Vec>, l: nat)
    requires OfNasm(g) && Fits(g, a, Level(op)) && Fits(g, b, Level(op) + 1) && l <= Level(op)
    ensures var t := Binary(op, a, b); Fits(g, t, l) && Eval(g, t) == Then(op, Eval(g, a), Eval(g, b))
  {
    hide Apply;
    hide Level;
  }

  lemma Regroup<T>(a: seq<T>, b: seq<T>, c: seq<T>)
    ensures a + (b + c) == a + b + c
  {
  }

  lemma RightPrints(a: Tree<Vec>, op1: BinOp, b: Tree<Vec>, op2: BinOp, c: Tree<Vec>)
    ensures var t := Binary(op1, a, Binary(op2, b, c)); Print(t) == Chain(a, op1, b, op2, c) && Cost(t) == Cost(a) + Cost(b) + Cost(c)
  {
    Regroup(Print(a) + [Bin(op1)], Print(b) + [Bin(op2)], Print(c));
    Regroup(Print(a) + [Bin(op1)], Print(b), [Bin(op2)]);
  }

  lemma LeftPrints(a: Tree<Vec>, op1: BinOp, b: Tree<Vec>, op2: BinOp, c: Tree<Vec>)
    ensures var t := Binary(op2, Binary(op1, a, b), c); Print(t) == Chain(a, op1, b, op2, c) && Cost(t) == Cost(a) + Cost(b) + Cost(c)
  {
  }

  lemma RightFits(g: Input<Vec>, a: Tree<Vec>, op1: BinOp, b: Tree<Vec>, op2: BinOp, c: Tree<Vec>)
    requires OfNasm(g) && Fits(g, a, TOP) && Fits(g, b, TOP) && Fits(g, c, TOP) && Level(op1) < Level(op2)
    ensures var t := Binary(op1, a, Binary(op2, b, c)); Fits(g, t, 0) && Eval(g, t) == Then(op1, Eval(g, a), Then(op2, Eval(g, b), Eval(g, c)))
  {
    hide Level;
    hide Fits;
    hide Eval;
    hide OfNasm;
    hide Then;
    FitsLower(g, a, TOP, Level(op1));
    FitsLower(g, b, TOP, Level(op2));
    FitsLower(g, c, TOP, Level(op2) + 1);
    BinaryIs(g, op2, b, c, Level(op1) + 1);
    BinaryIs(g, op1, a, Binary(op2, b, c), 0);
  }

  lemma RightFirst(g: Input<Vec>, a: Tree<Vec>, op1: BinOp, b: Tree<Vec>, op2: BinOp, c: Tree<Vec>)
    requires OfNasm(g) && g.toks == Chain(a, op1, b, op2, c) && Cost(a) + Cost(b) + Cost(c) <= g.limit
    requires Fits(g, a, TOP) && Fits(g, b, TOP) && Fits(g, c, TOP) && Level(op1) < Level(op2)
    ensures Parse(0, g, St(0, 0, false))
            == Carried(Then(op1, Eval(g, a), Then(op2, Eval(g, b), Eval(g, c))), St(|g.toks|, Cost(a) + Cost(b) + Cost(c), false))
  {
    hide Level;
    hide Fits;
    hide Eval;
    hide OfNasm;
    hide Then;
    hide Carried;
    hide Parse;
    hide Chain;
    hide Print;
    hide Cost;
    RightFits(g, a, op1, b, op2, c);
    RightPrints(a, op1, b, op2, c);
    WholeInput(g, Binary(op1, a, Binary(op2, b, c)));
  }

  lemma LeftFits(g: Input<Vec>, a: Tree<Vec>, op1: BinOp, b: Tree<Vec>, op2: BinOp, c: Tree<Vec>)
    requires OfNasm(g) && Fits(g, a, TOP) && Fits(g, b, TOP) && Fits(g, c, TOP) && Level(op1) >= Level(op2)
    ensures var t := Binary(op2, Binary(op1, a, b), c); Fits(g, t, 0) && Eval(g, t) == Then(op2, Then(op1, Eval(g, a), Eval(g, b)), Eval(g, c))
  {
    hide Level;
    hide Fits;
    hide Eval;
    hide OfNasm;
    hide Then;
    FitsLower(g, a, TOP, Level(op1));
    FitsLower(g, b, TOP, Level(op1) + 1);
    FitsLower(g, c, TOP, Level(op2) + 1);
    BinaryIs(g, op1, a, b, Level(op2));
    BinaryIs(g, op2, Binary(op1, a, b), c, 0);
  }

  lemma LeftFirst(g: Input<Vec>, a: Tree<Vec>, op1: BinOp, b: Tree<Vec>, op2: BinOp, c: Tree<Vec>)
    requires OfNasm(g) && g.toks == Chain(a, op1, b, op2, c) && Cost(a) + Cost(b) + Cost(c) <= g.limit
    requires Fits(g, a, TOP) && Fits(g, b, TOP) && Fits(g, c, TOP) && Level(op1) >= Level(op2)
    ensures Parse(0, g, St(0, 0, false))
            == Carried(Then(op2, Then(op1, Eval(g, a), Eval(g, b)), Eval(g, c)), St(|g.toks|, Cost(a) + Cost(b) + Cost(c), false))
  {
    hide Level;
    hide Fits;
    hide Eval;
    hide OfNasm;
    hide Then;
    hide Carried;
    hide Parse;
    hide Chain;
    hide Print;
    hide Cost;
    LeftFits(g, a, op1, b, op2, c);
    LeftPrints(a, op1, b, op2, c);
    WholeInput(g, Binary(op2, Binary(op1, a, b), c));
  }

  /** Two operators between any three operands: the one of the later row is applied first, and
      the first one if both are of one row. */
  lemma Groups(g: Input<Vec>, a: Tree<Vec>, u: Vec, op1: BinOp, b: Tree<Vec>, v: Vec, op2: BinOp, c: Tree<Vec>, w: Vec)
    requires OfNasm(g) && g.toks == Chain(a, op1, b, op2, c) && Cost(a) + Cost(b) + Cost(c) <= g.limit
    requires Operand(g, a, u) && Operand(g, b, v) && Operand(g, c, w)
    ensures Parse(0, g, St(0, 0, false))
            == Carried(if BindsTighter(op2, op1) then Then(op1, Just(u), Then(op2, Just(v), Just(w)))
                       else Then(op2, Then(op1, Just(u), Just(v)), Just(w)),
                       St(|g.toks|, Cost(a) + Cost(b) + Cost(c), false))
  {
    TighterIff(op1, op2);
    hide BindsTighter;
    hide Level;
    hide Then;
    hide Carried;
    hide OfNasm;
    hide Eval;
    hide Fits;
    if BindsTighter(op2, op1) {
      RightFirst(g, a, op1, b, op2, c);
    } else {
      LeftFirst(g, a, op1, b, op2, c);
    }
  }

  // ---- The conditional ----

  /** The choice between two values, with the errors of all three. */
  function Choice(d: Applied<Vec>, e: Applied<Vec>, f: Applied<Vec>): Applied<Vec> {
    if d.v.None? || e.v.None? || f.v.None? then Applied(None, true)
    else WithErr(Choose(d.v.value, e.v.value, f.v.value), d.err || e.err || f.err)
  }

  function Branches(c: seq<Token<Vec>>, yes: seq<Token<Vec>>, no: seq<Token<Vec>>): seq<Token<Vec>> {
    c + [Query] + (yes + [Colon] + no)
  }

  lemma CondIs(g: Input<Vec>, c: Tree<Vec>, yes: Tree<Vec>, no: Tree<Vec>)
    requires OfNasm(g) && Fits(g, c, 1) && Fits(g, yes, 0) && Fits(g, no, 0)
    ensures var t := Cond(c, yes, no); Fits(g, t, 0) && Eval(g, t) == Choice(Eval(g, c), Eval(g, yes), Eval(g, no))
  {
    hide Choose;
  }

  /** One operator between operands. */
  predicate Flat(g: Input<Vec>, t: Tree<Vec>) {
    t.Binary? && Fits(g, t.left, TOP) && Fits(g, t.right, TOP)
  }

  function FlatValue(g: Input<Vec>, t: Tree<Vec>): Applied<Vec>
    requires t.Binary?
  {
    Then(t.op, Eval(g, t.left), Eval(g, t.right))
  }

  lemma FlatFits(g: Input<Vec>, t: Tree<Vec>)
    requires OfNasm(g) && Flat(g, t)
    ensures Fits(g, t, 1) && Fits(g, t, 0) && Eval(g, t) == FlatValue(g, t)
  {
    hide Level;
    hide Eval;
    hide Then;
    FitsLower(g, t.left, TOP, Level(t.op));
    FitsLower(g, t.right, TOP, Level(t.op) + 1);
    BinaryIs(g, t.op, t.left, t.right, 1);
    BinaryIs(g, t.op, t.left, t.right, 0);
  }

  /** One operator, or a conditional with one operator in each place. */
  predicate Branch(g: Input<Vec>, t: Tree<Vec>) {
    Flat(g, t) || (t.Cond? && Flat(g, t.c) && Flat(g, t.yes) && Flat(g, t.no))
  }

  function BranchValue(g: Input<Vec>, t: Tree<Vec>): Applied<Vec>
    requires Branch(g, t)
  {
    if t.Binary? then FlatValue(g, t) else Choice(FlatValue(g, t.c), FlatValue(g, t.yes), FlatValue(g, t.no))
  }

  lemma BranchFits(g: Input<Vec>, t: Tree<Vec>)
    requires OfNasm(g) && Branch(g, t)
    ensures Fits(g, t, 0) && Eval(g, t) == BranchValue(g, t)
  {
    hide Fits;
    hide Eval;
    hide OfNasm;
    hide Choice;
    hide FlatValue;
    hide Flat;
    if Flat(g, t) {
      FlatFits(g, t);
      assert t.Binary? by {
        FlatIsBinary(g, t);
      }
    } else {
      FlatFits(g, t.c);
      FlatFits(g, t.yes);
      FlatFits(g, t.no);
      CondIs(g, t.c, t.yes, t.no);
    }
  }

  lemma FlatIsBinary(g: Input<Vec>, t: Tree<Vec>)
    requires Flat(g, t)
    ensures t.Binary?
  {
  }

  /** Every operator binds tighter than the conditional, on each of its sides, and conditionals
      in its branches need no parentheses: the one at its end belongs to its last branch. */
  lemma CondGroups(g: Input<Vec>, c: Tree<Vec>, yes: Tree<Vec>, no: Tree<Vec>)
    requires OfNasm(g) && Flat(g, c) && Branch(g, yes) && Branch(g, no)
    requires g.toks == Branches(Print(c), Print(yes), Print(no)) && Cost(c) + Cost(yes) + Cost(no) <= g.limit
    ensures Parse(0, g, St(0, 0, false))
            == Carried(Choice(FlatValue(g, c), BranchValue(g, yes), BranchValue(g, no)),
                       St(|g.toks|, Cost(c) + Cost(yes) + Cost(no), false))
  {
    CondParts(c, yes, no);
    hide Fits;
    hide Eval;
    hide OfNasm;
    hide Choice;
    hide FlatValue;
    hide BranchValue;
    hide Branch;
    hide Print;
    hide Cost;
    hide Parse;
    FlatFits(g, c);
    BranchFits(g, yes);
    BranchFits(g, no);
    CondIs(g, c, yes, no);
    WholeInput(g, Cond(c, yes, no));
  }

  lemma CondParts(c: Tree<Vec>, yes: Tree<Vec>, no: Tree<Vec>)
    ensures var t := Cond(c, yes, no);
      Print(t) == Branches(Print(c), Print(yes), Print(no)) && Cost(t) == Cost(c) + Cost(yes) + Cost(no)
  {
  }

  // ---- Unary operators ----

  /** The sign changes the number, `~` complements it, `!` asks whether it is zero. */
  lemma UnaryRead(g: Input<Vec>, t: Token<Vec>, v: Vec)
    requires OfNasm(g) && g.limit >= 2 && NumberOf(v).Some? && g.toks == [t, Atom(v)]
    requires t == Bin(Minus) || t == Bin(Plus) || t == Tilde || t == Bang
    ensures var n, p := NumberOf(v).value, Parse(0, g, St(0, 0, false));
      && p.Parsed? && p.st == St(2, 2, false)
      && NumberOf(p.v) == Some(if t == Bin(Minus) then S64(-n) else if t == Bin(Plus) then n
                               else if t == Tilde then -1 - n else if n == 0 then 1 else 0)
  {
    var op := UnaryOf(t).value;
    UnaryTokenOf(t);
    UnaryMeaning(op, v);
    hide Parse;
    hide ApplyUnary;
    var u := Unary(op, Leaf(v));
    assert Print(u) == g.toks && Cost(u) == 2 && Eval(g, u) == WithErr(ApplyUnary(op, v), false);
    WholeInput(g, u);
  }

  // ---- The evaluator itself ----

  /** The evaluator on two operators between numbers, symbols or other values. */
  method EvaluateChain(u: Vec, op1: BinOp, v: Vec, op2: BinOp, w: Vec, limit: nat) returns (r: Option<Vec>)
    requires limit >= 3
    ensures r == (var e := if BindsTighter(op2, op1) then Then(op1, Just(u), Then(op2, Just(v), Just(w)))
                           else Then(op2, Then(op1, Just(u), Just(v)), Just(w));
                  if e.v.None? then None else Some(Scaled(e.v.value, 1)))
  {
    var toks := [Atom(u), Bin(op1), Atom(v), Bin(op2), Atom(w)];
    var ev := new Evaluator(toks, limit);
    ghost var g := Expression(toks, limit);
    assert Chain(Leaf(u), op1, Leaf(v), op2, Leaf(w)) == toks;
    Groups(g, Leaf(u), u, op1, Leaf(v), v, op2, Leaf(w), w);
    hide BindsTighter;
    hide Then;
    hide Parse;
    r := ev.Evaluate();
  }
}
