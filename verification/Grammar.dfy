/** The grammar of expressions: a recursive-descent parser that computes as it reads, and
    the syntax trees whose printed forms are exactly what it accepts. */
module Grammar {
  import opened Basics

  datatype BinOp =
    | LogOr | LogXor | LogAnd | Eq | Ne | Lt | Gt | Le | Ge | Leg | BitOr | BitXor | BitAnd
    | ShiftL | ShiftR | ShiftA | Plus | Minus | Mul | DivU | ModU | DivS | ModS

  datatype UnOp = Neg | Pos | Not | LogNot

  datatype Token<V> = Atom(v: V) | Bin(op: BinOp) | Tilde | Bang | LPar | RPar | Query | Colon | Other

  /** A new value, or none after a fatal error; `err` for errors that only set a flag. */
  datatype Applied<V> = Applied(v: Option<V>, err: bool)

  const TOP := 11 // the level of operands; level 0 is the conditional

  /** What an expression is made of: the tokens, the limit on operands, how tightly the
      operators bind, loosest first, and what they compute. */
  datatype Input<!V> = Input(
    toks: seq<Token<V>>,
    limit: nat,
    level: BinOp -> nat,
    binary: (BinOp, V, V) -> Applied<V>,
    unary: (UnOp, V) -> Applied<V>,
    choose: (V, V, V) -> Applied<V>)
  {
    function Tok(pos: nat): Token<V> {
      if pos < |toks| then toks[pos] else Other
    }

    predicate IsOp(t: Token<V>, l: nat) {
      t.Bin? && level(t.op) == l
    }
  }

  // ---- The parser as a function of the tokens ----

  datatype St = St(pos: nat, calls: nat, err: bool)
  {
    function Next(): St {
      this.(pos := pos + 1)
    }

    /** The state after one more operand token. */
    function Counted(): St {
      this.(pos := pos + 1, calls := calls + 1)
    }
  }

  datatype Parsed<V> = Failed | Parsed(v: V, st: St)

  predicate Within<V>(r: Parsed<V>, g: Input<V>, st: St) {
    r.Parsed? ==> st.pos <= r.st.pos <= |g.toks|
  }

  function Carried<V>(r: Applied<V>, st: St): Parsed<V> {
    if r.v.None? then Failed else Parsed(r.v.value, st.(err := st.err || r.err))
  }

  // A parse that goes on: with an operator's right operand, a conditional's second
  // branch, a unary operator's operand.

  function Joined<V>(g: Input<V>, op: BinOp, e: V, f: Parsed<V>): Parsed<V> {
    if f.Failed? then Failed else Carried(g.binary(op, e, f.v), f.st)
  }

  function Chosen<V>(g: Input<V>, c: V, e: V, f: Parsed<V>): Parsed<V> {
    if f.Failed? then Failed else Carried(g.choose(c, e, f.v), f.st)
  }

  function Changed<V>(g: Input<V>, op: UnOp, e: Parsed<V>): Parsed<V> {
    if e.Failed? then Failed else Carried(g.unary(op, e.v), e.st)
  }

  function Parse<V>(level: nat, g: Input<V>, st: St): (r: Parsed<V>)
    requires level <= TOP && st.pos <= |g.toks|
    ensures Within(r, g, st)
    decreases |g.toks| - st.pos, TOP - level, 1
  {
    if level == TOP then Operand(g, st)
    else
      var p := Parse(level + 1, g, st);
      if p.Failed? then Failed
      else if level == 0 then Conditional(g, p.v, p.st)
      else Loop(level, g, p.v, p.st)
  }

  /** The operators of one level, from the left, after a first operand. */
  function Loop<V>(level: nat, g: Input<V>, v: V, st: St): (r: Parsed<V>)
    requires 1 <= level < TOP && st.pos <= |g.toks|
    ensures Within(r, g, st)
    decreases |g.toks| - st.pos, TOP - level, 0
  {
    if !g.IsOp(g.Tok(st.pos), level) then Parsed(v, st)
    else
      var r := Joined(g, g.Tok(st.pos).op, v, Parse(level + 1, g, st.Next()));
      if r.Failed? then Failed else Loop(level, g, r.v, r.st)
  }

  /** The rest of a conditional, after its condition. */
  function Conditional<V>(g: Input<V>, v: V, st: St): (r: Parsed<V>)
    requires st.pos <= |g.toks|
    ensures Within(r, g, st)
    decreases |g.toks| - st.pos, TOP, 0
  {
    if !g.Tok(st.pos).Query? then Parsed(v, st)
    else
      var e := Parse(0, g, st.Next());
      if e.Failed? || !g.Tok(e.st.pos).Colon? then Failed else Chosen(g, v, e.v, Parse(0, g, e.st.Next()))
  }

  function UnaryOf<V>(t: Token<V>): Option<UnOp> {
    match t
    case Bin(op) => if op.Minus? then Some(Neg) else if op.Plus? then Some(Pos) else None
    case Tilde => Some(Not)
    case Bang => Some(LogNot)
    case _ => None
  }

  function Operand<V>(g: Input<V>, st: St): (r: Parsed<V>)
    requires st.pos <= |g.toks|
    ensures Within(r, g, st)
    decreases |g.toks| - st.pos, 0, 0
  {
    var t := g.Tok(st.pos);
    if st.calls + 1 > g.limit then Failed
    else if t.Atom? then Parsed(t.v, st.Counted())
    else if t.LPar? then
      var e := Parse(0, g, st.Counted());
      if e.Failed? || !g.Tok(e.st.pos).RPar? then Failed else Parsed(e.v, e.st.Next())
    else if UnaryOf(t).Some? then Changed(g, UnaryOf(t).value, Parse(TOP, g, st.Counted()))
    else Failed
  }

  // ---- Syntax trees ----

  datatype Tree<V> =
    | Leaf(v: V)
    | Paren(inner: Tree)
    | Unary(uop: UnOp, arg: Tree)
    | Binary(op: BinOp, left: Tree, right: Tree)
    | Cond(c: Tree, yes: Tree, no: Tree)

  /** Whether a tree can stand where the grammar asks for `l`: the operators of one level
      group from the left, a conditional from the right. */
  predicate Fits<V>(g: Input<V>, t: Tree<V>, l: nat) {
    match t
    case Leaf(_) => l <= TOP
    case Paren(u) => l <= TOP && Fits(g, u, 0)
    case Unary(_, u) => l <= TOP && Fits(g, u, TOP)
    case Binary(op, a, b) => 1 <= g.level(op) < TOP && l <= g.level(op) && Fits(g, a, g.level(op)) && Fits(g, b, g.level(op) + 1)
    case Cond(c, a, b) => l == 0 && Fits(g, c, 1) && Fits(g, a, 0) && Fits(g, b, 0)
  }

  function UnaryToken<V>(op: UnOp): (t: Token<V>)
    ensures UnaryOf(t) == Some(op) && !t.Atom? && !t.LPar?
  {
    match op
    case Neg => Bin(Minus)
    case Pos => Bin(Plus)
    case Not => Tilde
    case LogNot => Bang
  }

  lemma UnaryTokenOf<V>(t: Token<V>)
    requires UnaryOf(t).Some?
    ensures UnaryToken(UnaryOf(t).value) == t && !t.Atom? && !t.LPar?
  {
  }

  function Print<V>(t: Tree<V>): seq<Token<V>> {
    match t
    case Leaf(v) => [Atom(v)]
    case Paren(u) => [LPar] + Print(u) + [RPar]
    case Unary(op, u) => [UnaryToken(op)] + Print(u)
    case Binary(op, a, b) => Print(a) + [Bin(op)] + Print(b)
    case Cond(c, a, b) => Print(c) + [Query] + (Print(a) + [Colon] + Print(b))
  }

  /** The number of operands, as the limit counts them. */
  function Cost<V>(t: Tree<V>): nat {
    match t
    case Leaf(_) => 1
    case Paren(u) => 1 + Cost(u)
    case Unary(_, u) => 1 + Cost(u)
    case Binary(_, a, b) => Cost(a) + Cost(b)
    case Cond(c, a, b) => Cost(c) + Cost(a) + Cost(b)
  }

  function WithErr<V>(r: Applied<V>, err: bool): Applied<V> {
    Applied(r.v, err || r.err)
  }

  /** The value of a tree, none after a fatal error, and whether there was another error. */
  function Eval<V>(g: Input<V>, t: Tree<V>): Applied<V> {
    match t
    case Leaf(v) => Applied(Some(v), false)
    case Paren(u) => Eval(g, u)
    case Unary(op, u) =>
      var e := Eval(g, u);
      if e.v.None? then e else WithErr(g.unary(op, e.v.value), e.err)
    case Binary(op, a, b) =>
      var e, f := Eval(g, a), Eval(g, b);
      if e.v.None? || f.v.None? then Applied(None, true)
      else WithErr(g.binary(op, e.v.value, f.v.value), e.err || f.err)
    case Cond(c, a, b) =>
      var d, e, f := Eval(g, c), Eval(g, a), Eval(g, b);
      if d.v.None? || e.v.None? || f.v.None? then Applied(None, true)
      else WithErr(g.choose(d.v.value, e.v.value, f.v.value), d.err || e.err || f.err)
  }

  // ---- Trees in place ----

  function Size<V>(t: Tree<V>): (n: nat)
    ensures n == |Print(t)|
  {
    match t
    case Leaf(v) => 1
    case Paren(u) => Size(u) + 2
    case Unary(op, u) => Size(u) + 1
    case Binary(op, a, b) => Size(a) + 1 + Size(b)
    case Cond(c, a, b) => Size(c) + 1 + Size(a) + 1 + Size(b)
  }

  /** The tokens from `pos` on are the printed tree. */
  predicate Stands<V(==)>(g: Input<V>, t: Tree<V>, pos: nat) {
    && pos + Size(t) <= |g.toks|
    && match t
       case Leaf(v) => g.Tok(pos) == Atom(v)
       case Paren(u) => g.Tok(pos).LPar? && Stands(g, u, pos + 1) && g.Tok(pos + 1 + Size(u)).RPar?
       case Unary(op, u) => g.Tok(pos) == UnaryToken(op) && Stands(g, u, pos + 1)
       case Binary(op, a, b) => Stands(g, a, pos) && g.Tok(pos + Size(a)) == Bin(op) && Stands(g, b, pos + Size(a) + 1)
       case Cond(c, a, b) =>
         && Stands(g, c, pos) && g.Tok(pos + Size(c)).Query?
         && Stands(g, a, pos + Size(c) + 1) && g.Tok(pos + Size(c) + 1 + Size(a)).Colon?
         && Stands(g, b, pos + Size(c) + 1 + Size(a) + 1)
  }

  predicate At<V(==)>(toks: seq<Token<V>>, pos: nat, p: seq<Token<V>>) {
    pos + |p| <= |toks| && forall k | 0 <= k < |p| :: toks[pos + k] == p[k]
  }

  /** A token between two parts. */
  lemma Joint<V>(toks: seq<Token<V>>, pos: nat, a: seq<Token<V>>, t: Token<V>, b: seq<Token<V>>, p: seq<Token<V>>)
    requires p == a + [t] + b
    ensures At(toks, pos, p) <==>
      At(toks, pos, a) && pos + |a| < |toks| && toks[pos + |a|] == t && At(toks, pos + |a| + 1, b)
  {
    if At(toks, pos, p) {
      forall k | 0 <= k < |a| ensures toks[pos + k] == a[k] {
        assert p[k] == a[k];
      }
      assert p[|a|] == t;
      forall k | 0 <= k < |b| ensures toks[pos + |a| + 1 + k] == b[k] {
        assert p[|a| + 1 + k] == b[k];
      }
    }
    if At(toks, pos, a) && pos + |a| < |toks| && toks[pos + |a|] == t && At(toks, pos + |a| + 1, b) {
      forall k | 0 <= k < |p| ensures toks[pos + k] == p[k] {
        if k > |a| {
          assert b[k - |a| - 1] == toks[pos + |a| + 1 + (k - |a| - 1)];
        }
      }
    }
  }

  lemma {:induction false} StandsIsAt<V>(g: Input<V>, t: Tree<V>, pos: nat)
    ensures Stands(g, t, pos) <==> At(g.toks, pos, Print(t))
    decreases t, 1
  {
    if t.Leaf? {
      LeafStands(g, t, pos);
    } else if t.Paren? {
      ParenStands(g, t, pos);
    } else if t.Unary? {
      UnaryStands(g, t, pos);
    } else if t.Binary? {
      BinaryStands(g, t, pos);
    } else {
      CondStands(g, t, pos, pos + Size(t.c) + 1);
    }
  }

  lemma LeafStands<V>(g: Input<V>, t: Tree<V>, pos: nat)
    requires t.Leaf?
    ensures Stands(g, t, pos) <==> At(g.toks, pos, Print(t))
  {
    assert Print(t)[0] == Atom(t.v);
    if pos < |g.toks| {
      assert At(g.toks, pos, Print(t)) <==> g.toks[pos + 0] == Print(t)[0];
    }
  }

  lemma {:induction false} UnaryStands<V>(g: Input<V>, t: Tree<V>, pos: nat)
    requires t.Unary?
    ensures Stands(g, t, pos) <==> At(g.toks, pos, Print(t))
    decreases t, 0
  {
    Joint(g.toks, pos, [], UnaryToken(t.uop), Print(t.arg), Print(t));
    StandsIsAt(g, t.arg, pos + 1);
  }

  lemma {:induction false} BinaryStands<V>(g: Input<V>, t: Tree<V>, pos: nat)
    requires t.Binary?
    ensures Stands(g, t, pos) <==> At(g.toks, pos, Print(t))
    decreases t, 0
  {
    hide At;
    Joint(g.toks, pos, Print(t.left), Bin(t.op), Print(t.right), Print(t));
    StandsIsAt(g, t.left, pos);
    StandsIsAt(g, t.right, pos + Size(t.left) + 1);
  }

  lemma {:induction false} ParenStands<V>(g: Input<V>, t: Tree<V>, pos: nat)
    requires t.Paren?
    ensures Stands(g, t, pos) <==> At(g.toks, pos, Print(t))
    decreases t, 0
  {
    var p := Print(t.inner);
    Joint(g.toks, pos, [], LPar, p + [RPar], Print(t));
    Joint(g.toks, pos + 1, p, RPar, [], p + [RPar]);
    StandsIsAt(g, t.inner, pos + 1);
  }

  lemma {:induction false} CondStands<V>(g: Input<V>, t: Tree<V>, pos: nat, mid: nat)
    requires t.Cond? && mid == pos + Size(t.c) + 1
    ensures Stands(g, t, pos) <==> At(g.toks, pos, Print(t))
    decreases t, 0
  {
    hide At;
    var a, b := Print(t.yes), Print(t.no);
    Joint(g.toks, pos, Print(t.c), Query, a + [Colon] + b, Print(t));
    Joint(g.toks, mid, a, Colon, b, a + [Colon] + b);
    StandsIsAt(g, t.c, pos);
    StandsIsAt(g, t.yes, mid);
    StandsIsAt(g, t.no, mid + Size(t.yes) + 1);
  }

  // ---- Printed trees are parsed ----

  /** The token after an expression of level `l` does not continue it. */
  predicate Stops<V>(g: Input<V>, t: Token<V>, l: nat) {
    (t.Bin? ==> g.level(t.op) < l || g.level(t.op) >= TOP) && (l == 0 ==> !t.Query?)
  }

  /** The outcome that the tree calls for, with its operands counted from the left. */
  function Expect<V>(g: Input<V>, t: Tree<V>, st: St): (r: Parsed<V>)
    ensures r.Parsed? ==> r.st.pos == st.pos + Size(t)
  {
    match t
    case Leaf(v) => if st.calls + 1 > g.limit then Failed else Parsed(v, st.Counted())
    case Paren(u) =>
      if st.calls + 1 > g.limit then Failed
      else
        var e := Expect(g, u, st.Counted());
        if e.Failed? then Failed else Parsed(e.v, e.st.Next())
    case Unary(op, u) => if st.calls + 1 > g.limit then Failed else Changed(g, op, Expect(g, u, st.Counted()))
    case Binary(op, a, b) =>
      var e := Expect(g, a, st);
      if e.Failed? then Failed else Joined(g, op, e.v, Expect(g, b, e.st.Next()))
    case Cond(c, a, b) =>
      var d := Expect(g, c, st);
      if d.Failed? then Failed
      else
        var e := Expect(g, a, d.st.Next());
        if e.Failed? then Failed else Chosen(g, d.v, e.v, Expect(g, b, e.st.Next()))
  }

  /** The outcome from the value of a tree, unless the limit is passed. */
  function Outcome<V>(g: Input<V>, t: Tree<V>, st: St): Parsed<V> {
    if st.calls + Cost(t) > g.limit then Failed
    else Carried(Eval(g, t), St(st.pos + Size(t), st.calls + Cost(t), st.err))
  }

  lemma {:induction false} ExpectIsOutcome<V>(g: Input<V>, t: Tree<V>, st: St)
    ensures Expect(g, t, st) == Outcome(g, t, st)
  {
    if t.Paren? {
      ExpectIsOutcome(g, t.inner, st.Counted());
    } else if t.Unary? {
      ExpectIsOutcome(g, t.arg, st.Counted());
    } else if t.Binary? {
      ExpectIsOutcome(g, t.left, st);
      var e := Expect(g, t.left, st);
      if e.Parsed? {
        ExpectIsOutcome(g, t.right, e.st.Next());
      }
    } else if t.Cond? {
      ExpectIsOutcome(g, t.c, st);
      var d := Expect(g, t.c, st);
      if d.Parsed? {
        ExpectIsOutcome(g, t.yes, d.st.Next());
        var e := Expect(g, t.yes, d.st.Next());
        if e.Parsed? {
          ExpectIsOutcome(g, t.no, e.st.Next());
        }
      }
    }
  }

  lemma {:induction false} TreeParses<V>(g: Input<V>, t: Tree<V>, level: nat, st: St)
    requires Fits(g, t, level) && level <= TOP && Stands(g, t, st.pos)
    requires Stops(g, g.Tok(st.pos + Size(t)), level)
    ensures Parse(level, g, st) == Expect(g, t, st)
    decreases t, TOP - level, 1
  {
    hide Expect;
    hide Print;
    if level == TOP {
      OperandParses(g, t, st);
    } else if level > 0 {
      HeadParses(g, t, level, st);
      ChainEnds(level, g, Expect(g, t, st));
    } else if t.Cond? {
      CondParses(g, t, st);
    } else {
      TreeParses(g, t, 1, st);
      CondDescends(g, st);
    }
  }

  lemma {:induction false} OperandParses<V>(g: Input<V>, t: Tree<V>, st: St)
    requires Fits(g, t, TOP) && Stands(g, t, st.pos)
    ensures Operand(g, st) == Expect(g, t, st)
    decreases t, 0, 0
  {
    if t.Paren? {
      TreeParses(g, t.inner, 0, st.Counted());
    } else if t.Unary? {
      TreeParses(g, t.arg, TOP, st.Counted());
    }
  }

  function Continue<V>(level: nat, g: Input<V>, p: Parsed<V>): Parsed<V>
    requires 1 <= level < TOP && (p.Parsed? ==> p.st.pos <= |g.toks|)
  {
    if p.Failed? then Failed else Loop(level, g, p.v, p.st)
  }

  lemma ChainEnds<V>(level: nat, g: Input<V>, p: Parsed<V>)
    requires 1 <= level < TOP && (p.Parsed? ==> p.st.pos <= |g.toks| && !g.IsOp(g.Tok(p.st.pos), level))
    ensures Continue(level, g, p) == p
  {
  }

  /** The parse with one more operator, from those of its operands. */
  lemma HeadJoins<V>(op: BinOp, level: nat, g: Input<V>, e: Parsed<V>)
    requires 1 <= level < TOP && e.Parsed? && e.st.pos < |g.toks|
    requires g.Tok(e.st.pos) == Bin(op) && g.level(op) == level
    ensures Continue(level, g, e) == Continue(level, g, Joined(g, op, e.v, Parse(level + 1, g, e.st.Next())))
  {
  }

  lemma HeadDescends<V>(level: nat, g: Input<V>, st: St)
    requires 1 <= level < TOP && st.pos <= |g.toks|
    ensures Parse(level, g, st) == Continue(level, g, Parse(level + 1, g, st))
  {
  }

  /** A tree is the start of a chain: the parser arrives with its value in the loop over
      the operators of its level. */
  lemma {:induction false} HeadParses<V>(g: Input<V>, t: Tree<V>, level: nat, st: St)
    requires Fits(g, t, level) && 1 <= level < TOP && Stands(g, t, st.pos)
    requires Stops(g, g.Tok(st.pos + Size(t)), level + 1)
    ensures Parse(level, g, st) == Continue(level, g, Expect(g, t, st))
    decreases t, TOP - level, 0
  {
    hide Parse;
    hide Loop;
    hide Operand;
    hide Conditional;
    hide Chosen;
    hide Joined;
    hide Changed;
    hide Carried;
    hide Print;
    if t.Binary? && g.level(t.op) == level {
      HeadParses(g, t.left, level, st);
      var e := Expect(g, t.left, st);
      if e.Parsed? {
        TreeParses(g, t.right, level + 1, e.st.Next());
        HeadJoins(t.op, level, g, e);
      }
    } else {
      TreeParses(g, t, level + 1, st);
      HeadDescends(level, g, st);
    }
  }

  lemma {:induction false} CondParses<V>(g: Input<V>, t: Tree<V>, st: St)
    requires t.Cond? && Fits(g, t, 0) && Stands(g, t, st.pos) && Stops(g, g.Tok(st.pos + Size(t)), 0)
    ensures Parse(0, g, st) == Expect(g, t, st)
    decreases t, TOP, 0
  {
    hide Parse;
    hide Conditional;
    hide Chosen;
    hide Print;
    hide Within;
    hide Loop;
    hide Operand;
    hide Joined;
    hide Changed;
    hide Carried;
    TreeParses(g, t.c, 1, st);
    CondDescends(g, st);
    var d := Expect(g, t.c, st);
    if d.Parsed? {
      BranchesParse(g, t, d.st);
      var e := Expect(g, t.yes, d.st.Next());
      if e.Parsed? {
        CondChooses(g, d, e);
      } else {
        CondFails(g, d);
      }
    }
  }

  lemma CondFails<V>(g: Input<V>, d: Parsed<V>)
    requires d.Parsed? && d.st.pos < |g.toks| && g.Tok(d.st.pos).Query? && Parse(0, g, d.st.Next()).Failed?
    ensures Conditional(g, d.v, d.st).Failed?
  {
  }

  /** The branches of a conditional, from the question mark. */
  lemma {:induction false} BranchesParse<V>(g: Input<V>, t: Tree<V>, st: St)
    requires t.Cond? && Fits(g, t.yes, 0) && Fits(g, t.no, 0)
    requires Stands(g, t.yes, st.pos + 1) && g.Tok(st.pos + 1 + Size(t.yes)).Colon?
    requires Stands(g, t.no, st.pos + 2 + Size(t.yes))
    requires Stops(g, g.Tok(st.pos + 2 + Size(t.yes) + Size(t.no)), 0)
    ensures var e := Expect(g, t.yes, st.Next());
      Parse(0, g, st.Next()) == e && (e.Parsed? ==> Parse(0, g, e.st.Next()) == Expect(g, t.no, e.st.Next()))
    decreases t, 0, 0
  {
    hide Parse;
    hide Loop;
    hide Operand;
    hide Conditional;
    hide Stands;
    hide Fits;
    hide Expect;
    TreeParses(g, t.yes, 0, st.Next());
    var e := Expect(g, t.yes, st.Next());
    if e.Parsed? {
      TreeParses(g, t.no, 0, e.st.Next());
    }
  }

  lemma CondDescends<V>(g: Input<V>, st: St)
    requires st.pos <= |g.toks|
    ensures var d := Parse(1, g, st); Parse(0, g, st) == if d.Failed? then Failed else Conditional(g, d.v, d.st)
  {
  }

  lemma CondChooses<V>(g: Input<V>, d: Parsed<V>, e: Parsed<V>)
    requires d.Parsed? && d.st.pos < |g.toks| && g.Tok(d.st.pos).Query?
    requires e.Parsed? && e.st.pos < |g.toks| && g.Tok(e.st.pos).Colon? && e == Parse(0, g, d.st.Next())
    ensures Conditional(g, d.v, d.st) == Chosen(g, d.v, e.v, Parse(0, g, e.st.Next()))
  {
  }

  /** A printed tree in its place is read to its end. It gives the value of the tree, and
      fails only beyond the limit or where the tree has no value. */
  lemma PrintedParses<V>(g: Input<V>, t: Tree<V>, level: nat, st: St)
    requires Fits(g, t, level) && level <= TOP && At(g.toks, st.pos, Print(t))
    requires Stops(g, g.Tok(st.pos + |Print(t)|), level)
    ensures Parse(level, g, st) == Outcome(g, t, st)
  {
    StandsIsAt(g, t, st.pos);
    TreeParses(g, t, level, st);
    ExpectIsOutcome(g, t, st);
  }

  // ---- What is parsed is a printed tree ----

  lemma {:induction false} ParsedHasTree<V>(level: nat, g: Input<V>, st: St) returns (t: Tree<V>)
    requires level <= TOP && st.pos <= |g.toks| && Parse(level, g, st).Parsed?
    ensures Fits(g, t, level) && Stands(g, t, st.pos) && Expect(g, t, st) == Parse(level, g, st)
    decreases |g.toks| - st.pos, TOP - level, 1
  {
    if level == TOP {
      t := OperandHasTree(g, st);
    } else {
      t := ParsedHasTree(level + 1, g, st);
      var e := Parse(level + 1, g, st);
      if level > 0 {
        t := LoopHasTree(level, g, t, st, e.v, e.st);
      } else {
        t := CondHasTree(g, t, st, e.v, e.st);
      }
    }
  }

  lemma {:induction false} OperandHasTree<V>(g: Input<V>, st: St) returns (t: Tree<V>)
    requires st.pos <= |g.toks| && Operand(g, st).Parsed?
    ensures Fits(g, t, TOP) && Stands(g, t, st.pos) && Expect(g, t, st) == Operand(g, st)
    decreases |g.toks| - st.pos, 0, 0
  {
    var token := g.Tok(st.pos);
    if token.Atom? {
      t := Leaf(token.v);
    } else if token.LPar? {
      var u := ParsedHasTree(0, g, st.Counted());
      t := Paren(u);
      ParenOf(g, u, st);
    } else {
      UnaryTokenOf(token);
      var u := ParsedHasTree(TOP, g, st.Counted());
      t := Unary(UnaryOf(token).value, u);
      UnaryTree(g, UnaryOf(token).value, u, st);
    }
  }

  lemma ParenOf<V>(g: Input<V>, u: Tree<V>, st: St)
    requires g.Tok(st.pos).LPar? && st.pos < |g.toks| && Operand(g, st).Parsed?
    requires Fits(g, u, 0) && Stands(g, u, st.pos + 1) && Expect(g, u, st.Counted()) == Parse(0, g, st.Counted())
    ensures Fits(g, Paren(u), TOP) && Stands(g, Paren(u), st.pos) && Expect(g, Paren(u), st) == Operand(g, st)
  {
  }

  lemma UnaryTree<V>(g: Input<V>, op: UnOp, u: Tree<V>, st: St)
    requires g.Tok(st.pos) == UnaryToken(op) && st.pos < |g.toks| && Operand(g, st).Parsed?
    requires Fits(g, u, TOP) && Stands(g, u, st.pos + 1) && Expect(g, u, st.Counted()) == Parse(TOP, g, st.Counted())
    ensures var t := Unary(op, u);
      Fits(g, t, TOP) && Stands(g, t, st.pos) && Expect(g, t, st) == Operand(g, st)
  {
  }

  lemma {:induction false} LoopHasTree<V>(level: nat, g: Input<V>, a: Tree<V>, start: St, v: V, st: St)
    returns (t: Tree<V>)
    requires 1 <= level < TOP && st.pos <= |g.toks| && Fits(g, a, level) && Stands(g, a, start.pos)
    requires Expect(g, a, start) == Parsed(v, st) && Loop(level, g, v, st).Parsed?
    ensures Fits(g, t, level) && Stands(g, t, start.pos)
    ensures Expect(g, t, start) == Loop(level, g, v, st)
    decreases |g.toks| - st.pos, TOP - level, 0
  {
    if g.IsOp(g.Tok(st.pos), level) {
      var op := g.toks[st.pos].op;
      var b := ParsedHasTree(level + 1, g, st.Next());
      var r := Joined(g, op, v, Parse(level + 1, g, st.Next()));
      t := LoopHasTree(level, g, Binary(op, a, b), start, r.v, r.st);
    } else {
      t := a;
    }
  }

  lemma {:induction false} CondHasTree<V>(g: Input<V>, a: Tree<V>, start: St, v: V, st: St)
    returns (t: Tree<V>)
    requires st.pos <= |g.toks| && Fits(g, a, 1) && Stands(g, a, start.pos)
    requires Expect(g, a, start) == Parsed(v, st) && Conditional(g, v, st).Parsed?
    ensures Fits(g, t, 0) && Stands(g, t, start.pos)
    ensures Expect(g, t, start) == Conditional(g, v, st)
    decreases |g.toks| - st.pos, TOP, 0
  {
    hide Parse;
    hide Loop;
    hide Operand;
    hide Stands;
    hide Fits;
    hide Expect;
    if g.Tok(st.pos).Query? {
      var yes := ParsedHasTree(0, g, st.Next());
      var e := Parse(0, g, st.Next());
      var no := ParsedHasTree(0, g, e.st.Next());
      CondChooses(g, Parsed(v, st), e);
      t := CondTree(g, a, yes, no, start, Parsed(v, st), e, Parse(0, g, e.st.Next()));
    } else {
      t := a;
      FitsLower(g, a, 1, 0);
    }
  }

  lemma FitsLower<V>(g: Input<V>, t: Tree<V>, l: nat, l2: nat)
    requires Fits(g, t, l) && l2 <= l
    ensures Fits(g, t, l2)
  {
  }

  lemma CondTree<V>(g: Input<V>, c: Tree<V>, yes: Tree<V>, no: Tree<V>, st: St, d: Parsed<V>, e: Parsed<V>, f: Parsed<V>)
    returns (t: Tree<V>)
    requires Fits(g, c, 1) && Fits(g, yes, 0) && Fits(g, no, 0)
    requires d.Parsed? && Expect(g, c, st) == d && Stands(g, c, st.pos) && g.Tok(d.st.pos).Query?
    requires e.Parsed? && Expect(g, yes, d.st.Next()) == e && Stands(g, yes, d.st.pos + 1) && g.Tok(e.st.pos).Colon?
    requires Expect(g, no, e.st.Next()) == f && Stands(g, no, e.st.pos + 1)
    ensures Fits(g, t, 0) && Stands(g, t, st.pos) && Expect(g, t, st) == Chosen(g, d.v, e.v, f)
  {
    hide Expect;
    hide Chosen;
    hide Print;
    hide Stands;
    hide Size;
    t := Cond(c, yes, no);
    CondTreeExpects(g, t, st);
    CondTreeStands(g, t, st.pos, d.st.pos, e.st.pos);
  }

  lemma CondTreeStands<V>(g: Input<V>, t: Tree<V>, pos: nat, n: nat, m: nat)
    requires t.Cond? && n == pos + Size(t.c) && m == n + 1 + Size(t.yes)
    requires Stands(g, t.c, pos) && g.Tok(n).Query? && Stands(g, t.yes, n + 1) && g.Tok(m).Colon? && Stands(g, t.no, m + 1)
    ensures Stands(g, t, pos)
  {
    hide Print;
  }

  lemma CondTreeExpects<V>(g: Input<V>, t: Tree<V>, st: St)
    requires t.Cond?
    ensures var d := Expect(g, t.c, st);
      d.Parsed? ==>
        var e := Expect(g, t.yes, d.st.Next());
        e.Parsed? ==> Expect(g, t, st) == Chosen(g, d.v, e.v, Expect(g, t.no, e.st.Next()))
  {
  }

  /** Whatever the parser accepts is the printed form of a tree of the grammar, and the
      result is the tree's value. */
  lemma ParsedIsPrinted<V>(level: nat, g: Input<V>, st: St) returns (t: Tree<V>)
    requires level <= TOP && st.pos <= |g.toks| && Parse(level, g, st).Parsed?
    ensures Fits(g, t, level) && At(g.toks, st.pos, Print(t))
    ensures Parse(level, g, st) == Outcome(g, t, st)
  {
    t := ParsedHasTree(level, g, st);
    StandsIsAt(g, t, st.pos);
    ExpectIsOutcome(g, t, st);
  }
}
