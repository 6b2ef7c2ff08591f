/** What the sizing pass decides, as a function of the codes, the operands and the prefixes:
    the operand size, and whether a REX part will be pending. */
module Sizing {
  import opened Basics
  import opened Registers
  import opened EaDecoding
  import opened EaEncoding
  import opened Bytecode

  /** Operand sizes that need no prefix of their own any more. */
  datatype Opts = NoOpt | Opt64 | OptAll

  /** `Extended`: bits that only a prefix can carry; `Forced`: a REX prefix for its own sake,
      which `NoHigh` takes back; `NoW`: no REX.W is needed for 64-bit operands. */
  datatype Mark = Extended | Forced | NoHigh | NoW

  /** What scales a displacement of one byte: the tuple type and the fields of EVEX. */
  datatype Scaling = Scaling(tuple: Tuple, b: bool, w: nat, ll: nat)
  {
    function Shift(): (n: nat)
      ensures n <= 7
    {
      if w <= 1 && ll <= 3 then Disp8Shift(tuple, b, w, ll) else 0
    }
  }

  datatype Sizing = Sizing(osize: int, opfx: Pfx, mibIndex: Option<Register>, opts: Opts, oprs: seq<Opnd>,
                           marks: set<Mark>, map_: nat, asize: int, scaling: Scaling, vreg: int, vimm: int)
  {
    function Marked(on: bool, m: Mark): Sizing {
      if on then this.(marks := marks + {m}) else this
    }
  }

  /** What does not change: the mode, the flags of the template, the option on operand
      sizes, the encoding prefix of the source line, and its rounding decorator, if any. */
  datatype Setting = Setting(bits: int, mib: bool, sib: bool, lig: bool, strictOsize: bool, rexPfx: Pfx,
                             brer: Option<bool>, rounding: nat)

  /** What does: the size prefix, the operands, the address size, and what is left over from
      an earlier instruction. */
  datatype Given = Given(opfx: Pfx, oprs: seq<Opnd>, asize: int, tuple: Tuple, vimm: int)

  /** Where sizing starts. */
  function Start(set_: Setting, g: Given): Sizing {
    Sizing(if set_.bits != 16 then 32 else 16, g.opfx, None, NoOpt, g.oprs, {}, 0, g.asize,
           Scaling(g.tuple, false, 0, 0), 0, g.vimm)
  }

  // ---- Operand sizes ----

  function After16(s: Sizing): Sizing {
    s.(osize := 16, opfx := if s.opfx.PNone? && !s.opts.OptAll? then PO16 else s.opfx)
  }

  function After32(s: Sizing): Sizing {
    s.(osize := 32, opfx := if s.opfx.PNone? && !s.opts.OptAll? then PO32 else s.opfx)
  }

  function After64(s: Sizing): Sizing {
    s.(osize := 64, opfx := if s.opfx.PNone? && s.opts.NoOpt? then PO64 else s.opfx)
      .Marked(s.opfx.POsp? && NoW !in s.marks, Extended)
  }

  function AfterSize(size: int, s: Sizing): Sizing {
    if size == 16 then After16(s) else if size == 32 then After32(s) else After64(s)
  }

  /** The size that a code asks for; \330 leaves it to the prefix. */
  function CodeSize(code: Code, opfx: Pfx, osize: int, bits: int): int {
    match code
    case O16 => 16
    case O32 => 32
    case O64 => 64
    case Osz =>
      if opfx.PNone? then osize
      else if opfx.POsp? then (if bits == 16 then 32 else 16)
      else if opfx.PO16? then 16
      else if opfx.PO32? then 32
      else 64
    case _ => bits
  }

  function AfterOsize(code: Code, s: Sizing, bits: int): Sizing {
    if code.Nw? then
      if bits == 64 then s.Marked(true, NoW).(osize := if s.osize == 32 then 64 else s.osize) else s
    else if code.O64nw? then After64(s.Marked(true, NoW))
    else AfterSize(CodeSize(code, s.opfx, s.osize, bits), s)
  }

  // ---- Registers and operands ----

  function RegAt(oprs: seq<Opnd>, i: nat): Option<Register> {
    if i < |oprs| then oprs[i].reg else None
  }

  function AfterRegister(s: Sizing, reg: Option<Register>): Sizing {
    s.Marked(IsHigh(reg), Extended).Marked(IsLowByte(reg), Forced)
  }

  /** The memory operand with the requirements of the template merged in. */
  function Prepared(e: Operand, mibIndex: Option<Register>, set_: Setting): Operand {
    match e
    case RegOperand(_, _) => e
    case MemOperand(r, rounding) =>
      var f := r.flags.(mib := r.flags.mib || set_.mib, sib := r.flags.sib || set_.sib);
      if set_.mib && mibIndex.Some? then
        MemOperand(r.(flags := f, index := mibIndex, scale := 1, hintBase := mibIndex, hint := NotBase), rounding)
      else MemOperand(r.(flags := f), rounding)
  }

  /** The EVEX fields after the decorators of the operands. */
  function Decorated(c: Scaling, broadcast: bool, set_: Setting): Scaling {
    if set_.brer.Some? then c.(b := !c.b, ll := if set_.brer.value then set_.rounding else 0)
    else if broadcast then c.(b := !c.b)
    else c
  }

  function AfterEa(op: Op, s: Sizing, set_: Setting): Sizing {
    if op.op2 >= |s.oprs| then s
    else
      var o := s.oprs[op.op2];
      var e := Prepared(o.ea, s.mibIndex, set_);
      var s2 := s.(oprs := s.oprs[op.op2 := o.(ea := e)], scaling := Decorated(s.scaling, o.broadcast, set_))
                 .Marked(HasHigh(e), Extended).Marked(HasLowByte(e), Forced);
      if op.code.EaReg? then AfterRegister(s2, RegAt(s.oprs, op.op1)) else s2
  }

  /** The flags of an effective address go with the marks. */
  lemma EaMarks(op: Op, s: Sizing, set_: Setting, ea: Rex, e: Operand, rreg: Option<Register>)
    requires op.op2 < |s.oprs| && e == Prepared(s.oprs[op.op2].ea, s.mibIndex, set_) && Gathered(ea, e, rreg)
    requires rreg == if op.code.EaReg? then RegAt(s.oprs, op.op1) else None
    ensures var t := AfterEa(op, s, set_);
      && t == s.(oprs := s.oprs[op.op2 := s.oprs[op.op2].(ea := e)], marks := t.marks, scaling := t.scaling)
      && (Extended in t.marks <==> Extended in s.marks || HasRegisterBit(ea)) && (Forced in t.marks <==> Forced in s.marks || ea.forced)
      && (NoHigh in t.marks <==> NoHigh in s.marks) && (NoW in t.marks <==> NoW in s.marks)
      && !ea.w && !ea.rex2 && !ea.noHigh && !ea.noW && !ea.vex && !ea.evex
  {
  }

  // ---- One code, and all of them ----

  /** The V field, from a register or an immediate operand. */
  function AfterV(op: Op, s: Sizing): Sizing {
    if op.code.Vex? || op.code.Evex? then
      if op.op1 >= |s.oprs| then s
      else if s.oprs[op.op1].immediate then s.(vimm := s.oprs[op.op1].offset)
      else s.(vreg := if s.oprs[op.op1].reg.Some? then s.oprs[op.op1].reg.value.num else 0)
    else s.(vreg := 0)
  }

  function AfterVex(op: Op, s: Sizing): Sizing {
    if |op.args| == 2 then AfterV(op, s).(map_ := op.args[0])
    else if |op.args| == 4 then
      AfterV(op, s).(map_ := op.args[0] as int % 8 + 128,
                     scaling := Scaling(TupleOf(op.args[3]), op.args[2] as int / 16 % 2 == 1, op.args[1] as int / 128,
                                        op.args[2] as int / 32 % 4))
    else s
  }

  /** The tuple type byte of an EVEX template. */
  function TupleOf(b: byte): Tuple {
    match b
    case 0xc1 => FV case 0xc2 => HV case 0xc3 => FVM case 0xc4 => T1S8 case 0xc5 => T1S16 case 0xc6 => T1S
    case 0xc7 => T1F32 case 0xc8 => T1F64 case 0xc9 => T2 case 0xca => T4 case 0xcb => T8 case 0xcc => HVM
    case 0xcd => QVM case 0xce => OVM case 0xcf => M128 case 0xd0 => DUP
    case _ => NoTuple
  }

  function AfterAsize(code: Code, s: Sizing): Sizing {
    s.(asize := if code.A16? then 16 else if code.A32? then 32 else 64)
  }

  function AfterFlags(code: Code, s: Sizing): (t: Sizing)
    ensures t == s.(marks := t.marks)
  {
    match code
    case NoHi => s.Marked(true, NoHigh)
    case RexB | RexX | RexR | RexW | Rex2 | Rex2W => s.Marked(true, Extended).Marked(true, Forced)
    case _ => s
  }

  function AfterCode(op: Op, s: Sizing, set_: Setting): Sizing {
    if SetsOsize(op) then AfterOsize(op.code, s, set_.bits)
    else if SetsAsize(op) then AfterAsize(op.code, s)
    else if IsEa(op) then AfterEa(op, s, set_)
    else if IsVex(op) then AfterVex(op, s)
    else if op.code.RegAdd? then AfterRegister(s, RegAt(s.oprs, op.op1))
    else if op.code.Mrb? then (if |op.args| == 1 then AfterRegister(s, RegAt(s.oprs, MrbOperand(op))) else s)
    else if op.code.MibIndex? then s.(mibIndex := RegAt(s.oprs, op.op1))
    else if op.code.OptW? || op.code.OptD? then (if set_.strictOsize then s else s.(opts := if op.code.OptW? then OptAll else Opt64))
    else if op.code.Map? then s.(map_ := op.c as int % 4)
    else AfterFlags(op.code, s)
  }

  lemma AfterVexIs(op: Op, s: Sizing, set_: Setting)
    requires IsVex(op)
    ensures AfterCode(op, s, set_) == AfterVex(op, s)
  {
  }

  lemma AfterAsizeIs(op: Op, s: Sizing, set_: Setting)
    requires SetsAsize(op)
    ensures AfterCode(op, s, set_) == AfterAsize(op.code, s)
  {
  }

  lemma AfterEaIs(op: Op, s: Sizing, set_: Setting)
    requires IsEa(op) && op.op2 < |s.oprs|
    ensures var e, t := Prepared(s.oprs[op.op2].ea, s.mibIndex, set_), AfterEa(op, s, set_);
      AfterCode(op, s, set_) == t
      == s.(oprs := s.oprs[op.op2 := s.oprs[op.op2].(ea := e)], marks := t.marks,
            scaling := Decorated(s.scaling, s.oprs[op.op2].broadcast, set_))
  {
  }

  function SizingAfter(ops: seq<Op>, set_: Setting, s: Sizing): Sizing {
    if ops == [] then s
    else AfterCode(ops[|ops| - 1], SizingAfter(ops[..|ops| - 1], set_, s), set_)
  }

  /** Sizing leaves the operands alone, but for the flags of effective addresses. */
  lemma {:induction false} RegistersStay(ops: seq<Op>, set_: Setting, s: Sizing)
    ensures var t := SizingAfter(ops, set_, s);
      |t.oprs| == |s.oprs| && forall i | 0 <= i < |s.oprs| :: t.oprs[i] == s.oprs[i].(ea := t.oprs[i].ea)
    decreases |ops|
  {
    if ops != [] {
      RegistersStay(ops[..|ops| - 1], set_, s);
      OperandsKept(ops[|ops| - 1], SizingAfter(ops[..|ops| - 1], set_, s), set_);
      hide AfterCode;
    }
  }

  lemma OthersKept(op: Op, s: Sizing, set_: Setting)
    requires !IsEa(op)
    ensures AfterCode(op, s, set_).oprs == s.oprs
  {
    hide AfterEa;
    hide AfterFlags;
    hide TupleOf;
  }

  lemma EaKept(op: Op, s: Sizing, set_: Setting)
    requires IsEa(op)
    ensures var t := AfterCode(op, s, set_);
      |t.oprs| == |s.oprs| && forall i | 0 <= i < |s.oprs| :: t.oprs[i] == s.oprs[i].(ea := t.oprs[i].ea)
  {
    if op.op2 < |s.oprs| {
      AfterEaIs(op, s, set_);
      hide AfterCode;
      hide Prepared;
    } else {
      assert AfterCode(op, s, set_) == s;
      hide AfterCode;
    }
  }

  lemma OperandsKept(op: Op, s: Sizing, set_: Setting)
    ensures var t := AfterCode(op, s, set_);
      |t.oprs| == |s.oprs| && forall i | 0 <= i < |s.oprs| :: t.oprs[i] == s.oprs[i].(ea := t.oprs[i].ea)
  {
    hide AfterCode;
    if IsEa(op) {
      EaKept(op, s, set_);
    } else {
      OthersKept(op, s, set_);
    }
  }

  lemma VKept(op: Op, s: Sizing, set_: Setting)
    requires !IsVex(op)
    ensures AfterCode(op, s, set_).vreg == s.vreg
  {
    hide Prepared;
    hide Decorated;
  }

  /** The register operand that a VEX or EVEX code names for the V field, or none. */
  function VRegister(op: Op, oprs: seq<Opnd>): nat {
    if (op.code.Vex? || op.code.Evex?) && op.op1 < |oprs| && !oprs[op.op1].immediate && oprs[op.op1].reg.Some? then
      oprs[op.op1].reg.value.num
    else 0
  }

  lemma VexSetsV(op: Op, s: Sizing, set_: Setting)
    requires IsVex(op) && (|op.args| == 2 || |op.args| == 4)
    ensures var t := AfterCode(op, s, set_);
      t.vreg == (if (op.code.Vex? || op.code.Evex?) && (op.op1 >= |s.oprs| || s.oprs[op.op1].immediate) then s.vreg
                 else VRegister(op, s.oprs))
  {
    AfterVexIs(op, s, set_);
  }

  lemma {:induction false} NoVexNoV(ops: seq<Op>, set_: Setting, g: Given)
    requires forall j | 0 <= j < |ops| :: !IsVex(ops[j])
    ensures SizingAfter(ops, set_, Start(set_, g)).vreg == 0
    decreases |ops|
  {
    if ops != [] {
      NoVexNoV(ops[..|ops| - 1], set_, g);
      VKept(ops[|ops| - 1], SizingAfter(ops[..|ops| - 1], set_, Start(set_, g)), set_);
      hide AfterCode;
    }
  }

  /** The V field is the number of that operand's register. */
  lemma {:induction false} VRegisterIs(ops: seq<Op>, k: nat, set_: Setting, g: Given)
    requires k < |ops| && IsVex(ops[k]) && (|ops[k].args| == 2 || |ops[k].args| == 4)
    requires forall j | 0 <= j < |ops| && j != k :: !IsVex(ops[j])
    ensures SizingAfter(ops, set_, Start(set_, g)).vreg == VRegister(ops[k], g.oprs)
    decreases |ops|
  {
    var n := |ops| - 1;
    var s := SizingAfter(ops[..n], set_, Start(set_, g));
    RegistersStay(ops[..n], set_, Start(set_, g));
    if k < n {
      VKept(ops[n], s, set_);
      VRegisterIs(ops[..n], k, set_, g);
    } else {
      NoVexNoV(ops[..n], set_, g);
      VexSetsV(ops[n], s, set_);
    }
    hide AfterCode;
  }

  /** Opcode maps are bytes, and below four without VEX and EVEX. */
  lemma {:induction false} MapRange(ops: seq<Op>, set_: Setting, s: Sizing)
    requires s.map_ < 4
    ensures var m := SizingAfter(ops, set_, s).map_; m < 256 && (!HasVex(ops) && !HasEvex(ops) ==> m < 4)
  {
    if ops != [] {
      var n := |ops| - 1;
      MapRange(ops[..n], set_, s);
      HasLast(ops);
      MapStep(ops[n], SizingAfter(ops[..n], set_, s), set_);
    }
  }

  lemma MapStep(op: Op, s: Sizing, set_: Setting)
    ensures var m := AfterCode(op, s, set_).map_; m == s.map_ || m < 4 || (IsVex(op) && m < 256)
  {
  }

  // ---- When the passes will agree ----

  /** A REX part, or an opcode map, is to be written before the first opcode byte. */
  predicate Pending(s: Sizing, set_: Setting) {
    || s.map_ != 0 || Extended in s.marks
    || (s.opfx.PO64? && NoW !in s.marks)
    || (Forced in s.marks && NoHigh !in s.marks)
    || set_.rexPfx.PRex? || set_.rexPfx.PRex2?
  }

  /** An operand of 64 bits and no other size. */
  predicate OnlyWide(oprs: seq<Opnd>, i: nat) {
    i < |oprs| && oprs[i].b64 && !oprs[i].b32 && !oprs[i].b16
  }

  /** Whether both passes will count the same, told from the codes, the operands and the
      prefixes: a pending REX part is written by some code, and no \34 immediate is typed
      wider than a 16-bit instruction. */
  predicate WillAgree(ops: seq<Op>, set_: Setting, g: Given) {
    var s := SizingAfter(ops, set_, Start(set_, g));
    && (Triggered(ops) || HasVex(ops) || HasEvex(ops) || !Pending(s, set_))
    && (s.osize == 16 ==> forall k | 0 <= k < |ops| :: !(ops[k].code.Iwd? && OnlyWide(g.oprs, ops[k].op1)))
  }

  /** Codes that set no operand size leave that of the mode. */
  lemma {:induction false} DefaultOsize(ops: seq<Op>, set_: Setting, s: Sizing)
    requires forall k | 0 <= k < |ops| :: !SetsOsize(ops[k])
    ensures SizingAfter(ops, set_, s).osize == s.osize && SizingAfter(ops, set_, s).opfx == s.opfx
  {
    if ops != [] {
      DefaultOsize(ops[..|ops| - 1], set_, s);
    }
  }

  /** An opcode byte, and no \34 immediate typed as 64 bits only: the passes will agree,
      whatever the sizes and prefixes. */
  lemma TypedWillAgree(ops: seq<Op>, set_: Setting, g: Given)
    requires Triggered(ops) || HasVex(ops) || HasEvex(ops)
    requires forall k | 0 <= k < |ops| && ops[k].code.Iwd? :: !OnlyWide(g.oprs, ops[k].op1)
    ensures WillAgree(ops, set_, g)
  {
  }

  /** A far CALL or JMP with 16-bit operands: the size, the opcode, the offset and the segment. */
  predicate IsFarJump(ops: seq<Op>) {
    && |ops| == 4 && ops[0].code.O16? && ops[1].code.Literal? && ops[2].code.Iwd? && ops[2].op1 == 0
    && ops[3].code.SegWord?
  }

  lemma SizingNext(ops: seq<Op>, k: nat, set_: Setting, s: Sizing)
    requires k < |ops|
    ensures SizingAfter(ops[..k + 1], set_, s) == AfterCode(ops[k], SizingAfter(ops[..k], set_, s), set_)
  {
    assert ops[..k + 1][..k] == ops[..k];
  }

  lemma FarJumpStep(op: Op, s: Sizing, set_: Setting)
    ensures op.code.O16? ==> AfterCode(op, s, set_).osize == 16
    ensures op.code.Literal? || op.code.Iwd? || op.code.SegWord? ==> AfterCode(op, s, set_) == s
  {
  }

  lemma FarJumpSized(ops: seq<Op>, set_: Setting, s: Sizing)
    requires IsFarJump(ops)
    ensures SizingAfter(ops, set_, s).osize == 16
  {
    hide AfterCode;
    hide SizingAfter;
    for k := 0 to 4
      invariant k > 0 ==> SizingAfter(ops[..k], set_, s).osize == 16
    {
      SizingNext(ops, k, set_, s);
      FarJumpStep(ops[k], SizingAfter(ops[..k], set_, s), set_);
    }
    assert ops[..4] == ops;
  }

  /** The passes over it agree unless the target is typed as 64 bits only. */
  lemma FarJumpAgreesIff(ops: seq<Op>, set_: Setting, g: Given)
    requires IsFarJump(ops)
    ensures WillAgree(ops, set_, g) <==> !OnlyWide(g.oprs, 0)
  {
    hide SizingAfter;
    hide Pending;
    hide OnlyWide;
    hide Start;
    FarJumpSized(ops, set_, Start(set_, g));
    assert Triggers(ops[1]) && ops[2].code.Iwd?;
  }

  /** CALL in bytes. */
  lemma FarCallSpelt() returns (ops: seq<Op>)
    ensures IsFarJump(ops) && Spells([208, 1, 0x9a, 28, 60, 0], ops)
  {
    var a, b := Op(208, O16, [], 0, 2), Op(1, Literal, [0x9a], 1, 0);
    var c, d := Op(28, Iwd, [], 0, 3), Op(60, SegWord, [], 0, 3);
    FlattenFirst(d, []);
    FlattenFirst(c, [d]);
    FlattenFirst(b, [c, d]);
    FlattenFirst(a, [b, c, d]);
    ops := [a, b, c, d];
    assert [d] + [] == [d] && [c] + [d] == [c, d] && [b] + [c, d] == [b, c, d] && [a] + [b, c, d] == ops;
    hide Flatten;
  }

  lemma FlattenFirst(op: Op, rest: seq<Op>)
    ensures Flatten([op] + rest) == [op.c] + op.args + Flatten(rest)
  {
    assert ([op] + rest)[1..] == rest;
  }
}
