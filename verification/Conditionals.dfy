/** Conditional assembly: the stack of conditions of one source, line by line, and the
    nested blocks that it implements. */
module Conditionals {
  import opened Basics

  datatype State = IfTrue | IfFalse | ElseTrue | ElseFalse | Done | Never

  predicate Emitting(s: State) {
    s.IfTrue? || s.ElseTrue?
  }

  /** The outcome of a condition, if it were evaluated; `Bad` if it has an error. */
  datatype Truth = Yes | No | Bad

  function StateOf(t: Truth): State {
    match t
    case Yes => IfTrue
    case No => IfFalse
    case Bad => Never
  }

  /** Conditions have numbers, so that it can be said which were evaluated. `Exit` leaves a
      macro or, without a name, a repeated block; `Finish` marks its end. */
  datatype Kind =
    | Text(id: nat) | If(id: nat, truth: Truth) | Elif(id: nat, truth: Truth) | Else | Endif
    | Exit(named: bool) | Finish(named: bool)

  datatype Line = Line(kind: Kind, suppressed: bool)

  // ---- The stack as a function of the lines ----

  /** `conds` has the innermost condition first; `evals` are the conditions evaluated. */
  datatype St = St(conds: seq<State>, out: seq<nat>, evals: seq<nat>, errors: nat)

  predicate Dark(conds: seq<State>) {
    conds != [] && !Emitting(conds[0])
  }

  function WithTop(s: St, top: State): St
    requires s.conds != []
  {
    s.(conds := [top] + s.conds[1..])
  }

  function AfterElif(s: St, id: nat, truth: Truth): St {
    if s.conds == [] then s.(errors := s.errors + 1)
    else
      match s.conds[0]
      case IfTrue => WithTop(s, Done)
      case Done | Never => s
      case ElseTrue | ElseFalse => WithTop(s, Never)
      case IfFalse => WithTop(s, StateOf(truth)).(evals := s.evals + [id])
  }

  function AfterElse(s: St): St {
    if s.conds == [] then s.(errors := s.errors + 1)
    else
      match s.conds[0]
      case IfTrue | Done => WithTop(s, ElseFalse)
      case Never => s
      case IfFalse => WithTop(s, ElseTrue)
      case ElseTrue | ElseFalse => WithTop(s, Never)
  }

  /** What a line does to the stack and the output; `dark` if it is not to be emitted. */
  function After(s: St, k: Kind, dark: bool): St {
    match k
    case Text(id) => if dark then s else s.(out := s.out + [id])
    case If(id, truth) =>
      if dark then s.(conds := [Never] + s.conds)
      else s.(conds := [StateOf(truth)] + s.conds, evals := s.evals + [id])
    case Elif(id, truth) => AfterElif(s, id, truth)
    case Else => AfterElse(s)
    case Endif => if s.conds == [] then s.(errors := s.errors + 1) else s.(conds := s.conds[1..])
    case Exit(_) => s
    case Finish(_) => s
  }

  /** The lines up to the end that an exit looks for. */
  function Length(lines: seq<Line>, named: bool): (n: nat)
    ensures n <= |lines|
    ensures n < |lines| ==> lines[n].kind == Finish(named)
    ensures forall k | 0 <= k < n :: lines[k].kind != Finish(named)
  {
    if lines == [] || lines[0].kind == Finish(named) then 0 else 1 + Length(lines[1..], named)
  }

  /** Marks the lines up to that end, if there is one. */
  function Exited(lines: seq<Line>, named: bool): (r: seq<Line>)
    ensures |r| == |lines|
  {
    var n := Length(lines, named);
    if n == |lines| then lines
    else seq(|lines|, k requires 0 <= k < |lines| => if k < n then lines[k].(suppressed := true) else lines[k])
  }

  predicate IsDark(s: St, l: Line) {
    l.suppressed || Dark(s.conds)
  }

  function Run(s: St, lines: seq<Line>): St
    decreases |lines|
  {
    if lines == [] then s
    else
      var l, rest, dark := lines[0], lines[1..], IsDark(s, lines[0]);
      if l.kind.Exit? && !dark then
        var e := if Length(rest, l.kind.named) == |rest| then s.(errors := s.errors + 1) else s;
        Run(e, Exited(rest, l.kind.named))
      else Run(After(s, l.kind, dark), rest)
  }

  // ---- One source ----

  /** A source being read: its lines, with the expansions of macros in their places. */
  class Source {
    var expansion: seq<Line>
    var conds: seq<State>
    var out: seq<nat>
    ghost var evals: seq<nat>
    var errors: nat

    constructor (lines: seq<Line>)
      ensures expansion == lines && Now() == St([], [], [], 0)
    {
      expansion, conds, out, evals, errors := lines, [], [], [], 0;
    }

    ghost function Now(): St
      reads this
    {
      St(conds, out, evals, errors)
    }

    /** do_exit_macro: marks the lines up to the end of the macro or block. */
    method ExitMacro(named: bool)
      modifies this
      ensures expansion == Exited(old(expansion), named)
      ensures Now() == old(Now()).(errors := if Length(old(expansion), named) == |old(expansion)| then old(errors) + 1 else old(errors))
    {
      var n := 0;
      assert expansion[0..] == expansion;
      while n < |expansion| && expansion[n].kind != Finish(named)
        invariant n <= |expansion| && Length(expansion, named) == n + Length(expansion[n..], named)
      {
        assert expansion[n..][1..] == expansion[n + 1..];
        n := n + 1;
      }
      assert Length(expansion[n..], named) == 0;
      if n == |expansion| {
        errors := errors + 1;
      } else {
        ghost var was := expansion;
        for k := 0 to n
          modifies `expansion
          invariant |expansion| == |was|
          invariant forall j | 0 <= j < |was| :: expansion[j] == if j < k then was[j].(suppressed := true) else was[j]
        {
          expansion := expansion[k := expansion[k].(suppressed := true)];
        }
        assert expansion == Exited(was, named) by {
          assert Length(was, named) == n;
        }
      }
    }

    /** The directives that look at the stack. */
    method Directive(k: Kind, suppressed: bool)
      requires !k.Text? && !k.Finish? && (k.Exit? ==> suppressed)
      modifies `conds, `evals, `errors
      ensures Now() == After(old(Now()), k, suppressed || Dark(old(conds)))
    {
      if k.If? {
        var j := Never;
        if !suppressed && (conds == [] || Emitting(conds[0])) {
          j := StateOf(k.truth);
          evals := evals + [k.id];
        }
        conds := [j] + conds;
      } else if k.Elif? {
        if conds == [] {
          errors := errors + 1;
        } else if conds[0].IfTrue? {
          conds := conds[0 := Done];
        } else if conds[0].ElseTrue? || conds[0].ElseFalse? {
          conds := conds[0 := Never];
        } else if conds[0].IfFalse? {
          evals := evals + [k.id];
          conds := conds[0 := StateOf(k.truth)];
        }
      } else if k.Else? {
        if conds == [] {
          errors := errors + 1;
        } else if conds[0].IfTrue? || conds[0].Done? {
          conds := conds[0 := ElseFalse];
        } else if conds[0].IfFalse? {
          conds := conds[0 := ElseTrue];
        } else if conds[0].ElseTrue? || conds[0].ElseFalse? {
          conds := conds[0 := Never];
        }
      } else if k.Endif? {
        if conds == [] {
          errors := errors + 1;
        } else {
          conds := conds[1..];
        }
      }
      if old(conds) != [] {
        assert forall t :: old(conds)[0 := t] == [t] + old(conds)[1..];
      }
    }

    /** Reads all the lines. */
    method ReadAll()
      modifies this
      ensures Now() == Run(old(Now()), old(expansion))
      ensures expansion == []
    {
      while expansion != []
        invariant Run(Now(), expansion) == Run(old(Now()), old(expansion))
        decreases |expansion|
      {
        var l := expansion[0];
        expansion := expansion[1..];
        var suppressed := l.suppressed;
        if conds != [] && !Emitting(conds[0]) {
          suppressed := true;
        }
        if l.kind.Text? {
          if !suppressed {
            out := out + [l.kind.id];
          }
        } else if l.kind.Exit? && !suppressed {
          ExitMacro(l.kind.named);
        } else if !l.kind.Finish? {
          Directive(l.kind, suppressed);
        }
      }
    }
  }

  // ---- Every run ----

  /** Only inside of live branches are there conditions that were evaluated. */
  ghost predicate Nested(conds: seq<State>) {
    forall i, j | 0 <= i < j < |conds| :: !conds[i].Never? ==> Emitting(conds[j])
  }

  /** Nothing here can turn live by itself. */
  ghost predicate Settled(conds: seq<State>) {
    forall i | 0 <= i < |conds| :: !conds[i].IfFalse?
  }

  /** The first `n` lines are the marked ones, and while there are any no condition waits
      for an else. */
  ghost predicate Marked(lines: seq<Line>, conds: seq<State>, n: nat) {
    && n <= |lines|
    && (forall k | 0 <= k < |lines| :: lines[k].suppressed <==> k < n)
    && (n > 0 ==> Settled(conds))
  }

  /** An emitting innermost condition means that all are emitting. */
  lemma EmittingAbove(conds: seq<State>)
    requires Nested(conds) && conds != [] && Emitting(conds[0])
    ensures forall i | 0 <= i < |conds| :: Emitting(conds[i])
  {
  }

  lemma AfterNested(s: St, k: Kind, dark: bool)
    requires Nested(s.conds) && (Dark(s.conds) ==> dark)
    ensures Nested(After(s, k, dark).conds)
  {
    var c, d := s.conds, After(s, k, dark).conds;
    if k.If? {
      forall i, j | 0 <= i < j < |d| && !d[i].Never? ensures Emitting(d[j]) {
        if i == 0 {
          EmittingAbove(c);
        } else {
          assert !c[i - 1].Never? ==> Emitting(c[j - 1]);
        }
      }
    } else if k.Endif? && c != [] {
      forall i, j | 0 <= i < j < |d| && !d[i].Never? ensures Emitting(d[j]) {
        assert !c[i + 1].Never? ==> Emitting(c[j + 1]);
      }
    }
  }

  lemma AfterSettled(s: St, k: Kind)
    requires Settled(s.conds)
    ensures Settled(After(s, k, true).conds) && After(s, k, true).evals == s.evals
  {
  }

  /** What is evaluated is on a line that is not marked, inside live branches only. */
  ghost predicate EvaluatesLive(s: St, l: Line) {
    After(s, l.kind, IsDark(s, l)).evals != s.evals ==>
      !l.suppressed && forall i | (if l.kind.If? then 0 else 1) <= i < |s.conds| :: Emitting(s.conds[i])
  }

  lemma StepEvaluatesLive(s: St, l: Line)
    requires Nested(s.conds) && (l.suppressed ==> Settled(s.conds))
    ensures EvaluatesLive(s, l)
  {
    if l.suppressed {
      AfterSettled(s, l.kind);
    } else if l.kind.If? && s.conds != [] && Emitting(s.conds[0]) {
      EmittingAbove(s.conds);
    }
  }

  /** Every line on the way obeys what is said of `EvaluatesLive`. */
  ghost predicate RunsLive(s: St, lines: seq<Line>)
    decreases |lines|
  {
    lines == [] ||
    var l, rest := lines[0], lines[1..];
    && Nested(s.conds) && EvaluatesLive(s, l)
    && if l.kind.Exit? && !IsDark(s, l) then
         var e := if Length(rest, l.kind.named) == |rest| then s.(errors := s.errors + 1) else s;
         RunsLive(e, Exited(rest, l.kind.named))
       else RunsLive(After(s, l.kind, IsDark(s, l)), rest)
  }

  /** In every run, over any lines: an emitting innermost condition means that all are
      emitting, and no condition is evaluated in dead code. */
  lemma {:induction false} AlwaysLive(s: St, lines: seq<Line>, n: nat)
    requires Nested(s.conds) && Marked(lines, s.conds, n)
    ensures RunsLive(s, lines)
    decreases |lines|
  {
    if lines != [] {
      var l, rest := lines[0], lines[1..];
      StepEvaluatesLive(s, l);
      if l.kind.Exit? && !IsDark(s, l) {
        var named := l.kind.named;
        var m := Length(rest, named);
        var marked := if m == |rest| then 0 else m;
        if s.conds != [] {
          EmittingAbove(s.conds);
        }
        var e := if m == |rest| then s.(errors := s.errors + 1) else s;
        AlwaysLive(e, Exited(rest, named), marked);
      } else {
        var dark := IsDark(s, l);
        AfterNested(s, l.kind, dark);
        if n > 0 {
          AfterSettled(s, l.kind);
        }
        AlwaysLive(After(s, l.kind, dark), rest, if n > 0 then n - 1 else 0);
      }
    }
  }

  /** A source as it is first read has no marked lines. */
  lemma SourceLive(lines: seq<Line>)
    requires forall k | 0 <= k < |lines| :: !lines[k].suppressed
    ensures RunsLive(St([], [], [], 0), lines)
  {
    AlwaysLive(St([], [], [], 0), lines, 0);
  }

  // ---- Nested blocks ----

  /** A program: lines of text and blocks, one after the other. A block may, against the
      rules, have more arms after an else. */
  datatype Prog = Nil | Plain(id: nat, rest: Prog) | Block(id: nat, truth: Truth, body: Prog, arms: Arms, rest: Prog)
  datatype Arms = End | ElifArm(id: nat, truth: Truth, body: Prog, more: Arms) | ElseArm(body: Prog, more: Arms)

  function Size(p: Prog): (n: nat)
    ensures n > 0
  {
    match p
    case Nil => 1
    case Plain(_, rest) => 1 + Size(rest)
    case Block(_, _, body, arms, rest) => Size(body) + ArmSize(arms) + Size(rest)
  }

  function ArmSize(a: Arms): (n: nat)
    ensures n > 0
  {
    match a
    case End => 1
    case ElifArm(_, _, body, more) => 1 + Size(body) + ArmSize(more)
    case ElseArm(body, more) => 1 + Size(body) + ArmSize(more)
  }

  function L(k: Kind): seq<Line> {
    [Line(k, false)]
  }

  function Lines(p: Prog): seq<Line> {
    match p
    case Nil => []
    case Plain(id, rest) => L(Text(id)) + Lines(rest)
    case Block(id, t, body, arms, rest) => L(If(id, t)) + (Lines(body) + (ArmLines(arms) + Lines(rest)))
  }

  function ArmLines(a: Arms): seq<Line> {
    match a
    case End => L(Endif)
    case ElifArm(id, t, body, more) => L(Elif(id, t)) + (Lines(body) + ArmLines(more))
    case ElseArm(body, more) => L(Else) + (Lines(body) + ArmLines(more))
  }

  /** What a live program puts out, and what it evaluates. */
  datatype Result = Result(out: seq<nat>, evals: seq<nat>)

  function Both(a: Result, b: Result): Result {
    Result(a.out + b.out, a.evals + b.evals)
  }

  const NOTHING := Result([], [])

  function Meaning(p: Prog): Result {
    match p
    case Nil => NOTHING
    case Plain(id, rest) => Both(Result([id], []), Meaning(rest))
    case Block(id, t, body, arms, rest) => Both(Result([], [id]), Both(Choice(t, Meaning(body), Pending(arms)), Meaning(rest)))
  }

  /** The first branch whose condition holds; after an error in a condition, none. */
  function Choice(t: Truth, yes: Result, no: Result): Result {
    match t
    case Yes => yes
    case No => no
    case Bad => NOTHING
  }

  function Pending(a: Arms): Result {
    match a
    case End => NOTHING
    case ElifArm(id, t, body, more) => Both(Result([], [id]), Choice(t, Meaning(body), Pending(more)))
    case ElseArm(body, _) => Meaning(body)
  }

  function Plus(s: St, r: Result): St {
    s.(out := s.out + r.out, evals := s.evals + r.evals)
  }

  lemma PlusBoth(s: St, a: Result, b: Result)
    ensures Plus(Plus(s, a), b) == Plus(s, Both(a, b)) && Plus(s, NOTHING) == s
  {
    assert (s.out + a.out) + b.out == s.out + (a.out + b.out);
    assert (s.evals + a.evals) + b.evals == s.evals + (a.evals + b.evals);
    assert s.out + [] == s.out && s.evals + [] == s.evals;
  }

  function Live(s: St, r: Result): Result {
    if Dark(s.conds) then NOTHING else r
  }

  lemma RunFirst(s: St, k: Kind, rest: seq<Line>)
    requires !k.Exit?
    ensures Run(s, L(k) + rest) == Run(After(s, k, Dark(s.conds)), rest)
  {
    assert (L(k) + rest)[1..] == rest;
  }

  lemma Regroup(a: seq<Line>, b: seq<Line>, c: seq<Line>)
    ensures (a + b) + c == a + (b + c)
  {
  }

  /** The stack machine on the lines of a program: what the program means is put out and
      evaluated, nothing if it stands in dead code, and the stack is as before. */
  lemma {:induction false} RunProg(s: St, p: Prog, rest: seq<Line>)
    ensures Run(s, Lines(p) + rest) == Run(Plus(s, Live(s, Meaning(p))), rest)
    decreases Size(p), 0
  {
    match p
    case Nil =>
      assert [] + rest == rest;
      PlusBoth(s, NOTHING, NOTHING);
    case Plain(id, more) =>
      Regroup(L(Text(id)), Lines(more), rest);
      RunFirst(s, Text(id), Lines(more) + rest);
      RunProg(Plus(s, Live(s, Result([id], []))), more, rest);
      PlusBoth(s, Result([id], []), Meaning(more));
      PlusBoth(s, NOTHING, NOTHING);
    case Block(id, t, body, arms, more) =>
      var blockRest := Lines(more) + rest;
      Regroup(L(If(id, t)), Lines(body) + (ArmLines(arms) + Lines(more)), rest);
      Regroup(Lines(body), ArmLines(arms) + Lines(more), rest);
      Regroup(ArmLines(arms), Lines(more), rest);
      RunBlock(s, id, t, body, arms, blockRest);
      var r := Both(Result([], [id]), Choice(t, Meaning(body), Pending(arms)));
      RunProg(Plus(s, Live(s, r)), more, rest);
      PlusBoth(s, r, Meaning(more));
      PlusBoth(s, NOTHING, NOTHING);
      BothAssociate(Result([], [id]), Choice(t, Meaning(body), Pending(arms)), Meaning(more));
  }

  lemma BothAssociate(a: Result, b: Result, c: Result)
    ensures Both(Both(a, b), c) == Both(a, Both(b, c))
  {
  }

  function Push(s: St, t: State): St {
    s.(conds := [t] + s.conds)
  }

  lemma {:induction false} RunBlock(s: St, id: nat, t: Truth, body: Prog, arms: Arms, rest: seq<Line>)
    ensures Run(s, L(If(id, t)) + (Lines(body) + (ArmLines(arms) + rest)))
      == Run(Plus(s, Live(s, Both(Result([], [id]), Choice(t, Meaning(body), Pending(arms))))), rest)
    decreases Size(body) + ArmSize(arms), 2
  {
    RunFirst(s, If(id, t), Lines(body) + (ArmLines(arms) + rest));
    if Dark(s.conds) {
      RunArm(s, Never, body, arms, rest);
    } else {
      var s2 := Plus(s, Result([], [id]));
      PlusBoth(s, Result([], [id]), Choice(t, Meaning(body), Pending(arms)));
      assert s2 == s.(evals := s.evals + [id]);
      RunArm(s2, StateOf(t), body, arms, rest);
    }
  }

  /** What an arm and those after it mean, in a state after its directive. */
  function ArmMeaning(t: State, body: Prog, more: Arms): Result {
    if Emitting(t) then Meaning(body) else if t.IfFalse? then Pending(more) else NOTHING
  }

  lemma {:induction false} RunArm(s: St, t: State, body: Prog, more: Arms, rest: seq<Line>)
    ensures Run(Push(s, t), Lines(body) + (ArmLines(more) + rest)) == Run(Plus(s, ArmMeaning(t, body, more)), rest)
    decreases Size(body) + ArmSize(more), 1
  {
    RunProg(Push(s, t), body, ArmLines(more) + rest);
    var r := Live(Push(s, t), Meaning(body));
    assert r == if Emitting(t) then Meaning(body) else NOTHING;
    assert Plus(Push(s, t), r) == Push(Plus(s, r), t);
    RunArms(Plus(s, r), t, more, rest);
    PlusBoth(s, r, NOTHING);
    PlusBoth(Plus(s, r), NOTHING, NOTHING);
    PlusBoth(s, NOTHING, NOTHING);
  }

  function ElifState(t: State, truth: Truth): State {
    match t
    case IfTrue => Done
    case Done | Never => t
    case ElseTrue | ElseFalse => Never
    case IfFalse => StateOf(truth)
  }

  function ElseState(t: State): State {
    match t
    case IfTrue | Done => ElseFalse
    case Never => Never
    case IfFalse => ElseTrue
    case ElseTrue | ElseFalse => Never
  }

  lemma PushedTop(s: St, t: State, u: State)
    ensures WithTop(Push(s, t), u) == Push(s, u) && Push(s, t).conds[1..] == s.conds
  {
  }

  /** Arms in a state of their block: only one that waits for an arm takes any. */
  lemma {:induction false} RunArms(s: St, t: State, a: Arms, rest: seq<Line>)
    ensures Run(Push(s, t), ArmLines(a) + rest) == Run(Plus(s, if t.IfFalse? then Pending(a) else NOTHING), rest)
    decreases ArmSize(a), 0
  {
    match a
    case End =>
      RunFirst(Push(s, t), Endif, rest);
      PushedTop(s, t, t);
      PlusBoth(s, NOTHING, NOTHING);
    case ElifArm(id, truth, body, more) =>
      Regroup(L(Elif(id, truth)), Lines(body) + ArmLines(more), rest);
      Regroup(Lines(body), ArmLines(more), rest);
      RunFirst(Push(s, t), Elif(id, truth), Lines(body) + (ArmLines(more) + rest));
      var u := ElifState(t, truth);
      var r := if t.IfFalse? then Result([], [id]) else NOTHING;
      PushedTop(s, t, u);
      PlusBoth(s, NOTHING, NOTHING);
      assert AfterElif(Push(s, t), id, truth) == Push(Plus(s, r), u);
      RunArm(Plus(s, r), u, body, more, rest);
      PlusBoth(s, r, ArmMeaning(u, body, more));
    case ElseArm(body, more) =>
      Regroup(L(Else), Lines(body) + ArmLines(more), rest);
      Regroup(Lines(body), ArmLines(more), rest);
      RunFirst(Push(s, t), Else, Lines(body) + (ArmLines(more) + rest));
      var u := ElseState(t);
      PushedTop(s, t, u);
      PlusBoth(s, NOTHING, NOTHING);
      assert AfterElse(Push(s, t)) == Push(s, u);
      RunArm(s, u, body, more, rest);
  }

  /** A whole source of nested blocks. */
  lemma ProgramMeaning(p: Prog)
    ensures var s := Run(St([], [], [], 0), Lines(p));
      s == St([], Meaning(p).out, Meaning(p).evals, 0)
  {
    assert Lines(p) + [] == Lines(p);
    RunProg(St([], [], [], 0), p, []);
    assert [] + Meaning(p).out == Meaning(p).out && [] + Meaning(p).evals == Meaning(p).evals;
  }
}
