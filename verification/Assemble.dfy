/** The two passes over the bytecode of one instruction: `CalcSize` decides all
    encoding questions and counts bytes, `GenCode` writes them. */
module Assemble {
  import opened Basics
  import opened Registers
  import opened EaDecoding
  import opened EaEncoding
  import opened Prefixes
  import opened Bytecode
  import opened PrefixSlots
  import opened Sizing

  /** Template flags and processor features that the sizing pass consults. */
  datatype Template = Template(ww: bool, lig: bool, mib: bool, sib: bool, noApx: bool, bnd: bool, jccHint: bool)

  datatype Cpu = Cpu(x86_64: bool, apx: bool, defaultBnd: bool, strictOsize: bool)

  /** The variables of the sizing loop. */
  datatype Locals = Locals(expected: EaType, mibIndex: Option<Register>, opt16: bool, opt32: bool, opt64: bool)

  const START := Locals(Scalar, None, false, false, false)

  /** The operands differ at most in how their memory form is to be encoded. */
  predicate SameOperands(a: seq<Opnd>, b: seq<Opnd>) {
    |a| == |b| && forall i | 0 <= i < |a| :: b[i] == a[i].(ea := b[i].ea)
  }

  predicate IsEvex(op: Op) {
    op.code.Evex? || op.code.EvexNoV?
  }

  /** The first word of an EVEX prefix, from the arguments of its code. */
  function TemplateWord(args: seq<byte>): bv32
    requires |args| == 4
  {
    0x62 | (ByteBits(args[0]) << 8) | (ByteBits(args[1]) << 16) | (ByteBits(args[2]) << 24)
  }

  lemma SameOperandsStill(a: seq<Opnd>, b: seq<Opnd>, c: seq<Opnd>)
    requires SameOperands(a, b) && SameOperands(b, c)
    ensures SameOperands(a, c)
  {
    forall i | 0 <= i < |a| ensures c[i] == a[i].(ea := c[i].ea) {
      assert b[i] == a[i].(ea := b[i].ea) && c[i] == b[i].(ea := c[i].ea);
    }
  }

  function AddressBits(r: Rex): set<RexBit> {
    r.bits * ADDRESS_BITS
  }

  /** The codes that put register bits into the flag word, other than effective addresses. */
  predicate AddsRegister(op: Op) {
    var c := op.code;
    c.RegAdd? || c.Mrb? || c.RexB? || c.RexX? || c.RexR?
  }

  /** The register bits that a code puts into the flag word: those of the register in the
      opcode, in a ModRM byte of its own, or in an effective address, or the bits it names. */
  function CodeBits(op: Op, oprs: seq<Opnd>, ea: EaData): set<RexBit> {
    if IsEa(op) then AddressBits(ea.rex)
    else if op.code.RegAdd? then AddressBits(RexFlags(RegAt(oprs, op.op1), SlotB))
    else if op.code.Mrb? then (if |op.args| == 1 then AddressBits(RexFlags(RegAt(oprs, MrbOperand(op)), SlotR)) else {})
    else if op.code.RexB? then {B}
    else if op.code.RexX? then {X}
    else if op.code.RexR? then {R}
    else {}
  }

  /** The register bits of all codes. */
  function AllBits(ops: seq<Op>, oprs: seq<Opnd>, ea: EaData): set<RexBit> {
    if ops == [] then {} else AllBits(ops[..|ops| - 1], oprs, ea) + CodeBits(ops[|ops| - 1], oprs, ea)
  }

  lemma {:induction false} AllBitsStill(ops: seq<Op>, oprs: seq<Opnd>, ea: EaData, oprs2: seq<Opnd>, ea2: EaData)
    requires |oprs| == |oprs2| && (forall i | 0 <= i < |oprs| :: oprs2[i].reg == oprs[i].reg)
    requires ea2 == ea || !HasEa(ops)
    ensures AllBits(ops, oprs2, ea2) == AllBits(ops, oprs, ea)
    decreases |ops|
  {
    if ops != [] {
      var n := |ops| - 1;
      assert ops[..n] + [ops[n]] == ops;
      AllBitsStill(ops[..n], oprs, ea, oprs2, ea2);
    }
  }

  /** An effective address alone. */
  lemma {:induction false} AllBitsAlone(ops: seq<Op>, oprs: seq<Opnd>, ea: EaData)
    requires forall k | 0 <= k < |ops| :: !AddsRegister(ops[k])
    ensures AllBits(ops, oprs, ea) == if HasEa(ops) then AddressBits(ea.rex) else {}
    decreases |ops|
  {
    if ops != [] {
      var n := |ops| - 1;
      assert ops[..n] + [ops[n]] == ops;
      AllBitsAlone(ops[..n], oprs, ea);
    }
  }

  /** More flags, none of them about registers, VEX or EVEX. */
  predicate OtherFlags(r: Rex, t: Rex) {
    r.bits <= t.bits && AddressBits(t) == AddressBits(r) && t.vex == r.vex && t.evex == r.evex
  }

  /** What sizing one code leaves alone. */
  predicate Keeps(op: Op, s: State, t: State) {
    && s.bits == t.bits && s.resBytes == t.resBytes && s.forceVex3 == t.forceVex3 && SameOperands(s.oprs, t.oprs)
    && (!SetsOsize(op) ==> s.osize == t.osize)
    && (!SetsAsize(op) ==> s.asize == t.asize)
    && (!IsEa(op) ==> s.ea == t.ea && s.oprs == t.oprs)
    && (!IsEa(op) && !IsVex(op) ==> s.shift == t.shift)
    && (!IsVex(op) ==> s.evex == t.evex && s.wlp == t.wlp)
    && (IsEvex(op) ==> |op.args| == 4 && t.evex == TemplateWord(op.args))
    && (IsVex(op) && !IsEvex(op) ==> |op.args| == 2 && t.wlp == op.args[1])
    && AddressBits(t.rex) == AddressBits(s.rex) + CodeBits(op, t.oprs, t.ea)
    && (t.rex.vex <==> s.rex.vex || op.code.Vex? || op.code.VexNoV?)
    && (t.rex.evex <==> s.rex.evex || op.code.Evex? || op.code.EvexNoV?)
  }

  /** Codes that leave the operands and the effective address alone. */
  lemma KeepsRest(op: Op, s: State, t: State)
    requires t == s.(rex := t.rex, map_ := t.map_, osize := t.osize, asize := t.asize, shift := t.shift, evex := t.evex, wlp := t.wlp)
    requires if IsEvex(op) then |op.args| == 4 && t.evex == TemplateWord(op.args) else t.evex == s.evex
    requires if IsVex(op) && !IsEvex(op) then |op.args| == 2 && t.wlp == op.args[1] else t.wlp == s.wlp
    requires !IsEa(op) && (!IsVex(op) ==> s.shift == t.shift)
    requires s.rex.bits <= t.rex.bits && AddressBits(t.rex) == AddressBits(s.rex) + CodeBits(op, s.oprs, s.ea)
    requires (!SetsOsize(op) ==> s.osize == t.osize) && (!SetsAsize(op) ==> s.asize == t.asize)
    requires t.rex.vex <==> s.rex.vex || op.code.Vex? || op.code.VexNoV?
    requires t.rex.evex <==> s.rex.evex || op.code.Evex? || op.code.EvexNoV?
    ensures Keeps(op, s, t)
  {
  }

  /** An effective address. */
  lemma KeepsEa(op: Op, s: State, t: State, e: Operand)
    requires IsEa(op) && op.op2 < |s.oprs|
    requires t == s.(oprs := s.oprs[op.op2 := s.oprs[op.op2].(ea := e)], ea := t.ea, shift := t.shift, rex := t.rex)
    requires t.rex == s.rex.Or(t.ea.rex)
    requires t.rex.vex == s.rex.vex && t.rex.evex == s.rex.evex
    ensures Keeps(op, s, t)
  {
  }

  lemma KeptOperandOk(op: Op, a: seq<Opnd>, b: seq<Opnd>)
    requires SameOperands(a, b) && OperandOk(op, a)
    ensures OperandOk(op, b)
  {
    assert forall i | 0 <= i < |a| :: b[i].reg == a[i].reg;
  }

  // ---- The operand that is read back ----

  /** The reg field of ModRM holds the register of the other operand, or the digit of the code. */
  predicate FieldSet(op: Op, oprs: seq<Opnd>, ea: EaData) {
    if op.code.EaReg? then
      op.op1 < |oprs| && oprs[op.op1].reg.Some? && Framed(ea, oprs[op.op1].reg.value.num, oprs[op.op1].reg)
    else Framed(ea, op.c as int % 8, None)
  }

  /** Reading back the effective address of a code gives its operand: a register, or an
      address that is exact under the same condition as on its own. */
  ghost predicate EaRead(op: Op, st: State, ctx: Context) {
    var m := Mode(st.bits, st.asize);
    && op.op2 < |st.oprs| && st.shift <= 7 && m.Valid() && st.ea.kind != Invalid
    && (st.ea.bytes == 0 || st.ea.bytes == 1 || st.ea.bytes == 2 || st.ea.bytes == 4)
    && FieldSet(op, st.oprs, st.ea)
    && match st.oprs[op.op2].ea
       case RegOperand(reg, _) => RepresentsDirect(reg, st.ea) && !st.ea.rex.x && !st.ea.rex.x1 && !st.ea.rex.xv
       case MemOperand(r, _) =>
         && st.ea.kind == ClassOf(r) && !st.ea.rex.bv && (st.ea.rex.xv <==> st.ea.kind != Scalar)
         && forall ip :: Faithful(r, st.ea, ip, m, st.shift) <==> Exact(r, ip, m, ctx, st.shift)
  }

  predicate HasEa(ops: seq<Op>) {
    exists k | 0 <= k < |ops| :: IsEa(ops[k])
  }

  /** The operand of an effective address among the codes can be read back, and the flag word
      asks for the registers that the codes name, and no others. */
  ghost predicate OperandRead(ops: seq<Op>, st: State, ctx: Context) {
    && (forall k | 0 <= k < |ops| && IsEa(ops[k]) :: EaRead(ops[k], st, ctx))
    && (forall k | 0 <= k < |ops| && IsEvex(ops[k]) :: |ops[k].args| == 4 && st.evex == TemplateWord(ops[k].args))
    && (forall k | 0 <= k < |ops| && IsVex(ops[k]) && !IsEvex(ops[k]) :: |ops[k].args| == 2 && st.wlp == ops[k].args[1])
    && AddressBits(st.rex) == AllBits(ops, st.oprs, st.ea)
  }

  /** What is said of the operand depends on little of the state. */
  lemma EaStillRead(op: Op, s: State, t: State, ctx: Context)
    requires EaRead(op, s, ctx) && |t.oprs| == |s.oprs| && t.oprs[op.op2].ea == s.oprs[op.op2].ea
    requires forall i | 0 <= i < |s.oprs| :: t.oprs[i].reg == s.oprs[i].reg
    requires t.bits == s.bits && t.asize == s.asize && t.ea == s.ea && t.shift == s.shift
    ensures EaRead(op, t, ctx)
  {
  }

  lemma OperandReadNext(ops: seq<Op>, k: nat, s: State, t: State, ctx: Context)
    requires Ordered(ops) && k < |ops| && Keeps(ops[k], s, t)
    requires OperandRead(ops[..k], s, ctx) && (IsEa(ops[k]) ==> EaRead(ops[k], t, ctx))
    ensures OperandRead(ops[..k + 1], t, ctx)
  {
    var before, now, op := ops[..k], ops[..k + 1], ops[k];
    assert now == before + [op];
    hide EaRead;
    forall j | 0 <= j < k && IsEa(now[j]) ensures EaRead(now[j], t, ctx) {
      assert now[j] == before[j] == ops[j];
      KeptRead(now[j], op, s, t, ctx);
    }
    forall j | 0 <= j < k && IsEvex(now[j]) ensures |now[j].args| == 4 && t.evex == TemplateWord(now[j].args) {
      assert now[j] == before[j] == ops[j];
    }
    forall j | 0 <= j < k && IsVex(now[j]) && !IsEvex(now[j]) ensures |now[j].args| == 2 && t.wlp == now[j].args[1] {
      assert now[j] == before[j] == ops[j];
    }
    assert now[..k] == before;
    if IsEa(op) {
      assert !HasEa(before) by {
        assert forall j | 0 <= j < k :: before[j] == ops[j];
      }
    }
    AllBitsStill(before, s.oprs, s.ea, t.oprs, t.ea);
  }

  /** The encoding prefixes change no register bits, and merging no address. */
  lemma OperandStillRead(ops: seq<Op>, s: State, t: State, ctx: Context)
    requires OperandRead(ops, s, ctx) && AddressBits(t.rex) == AddressBits(s.rex)
    requires |t.oprs| == |s.oprs| && forall i | 0 <= i < |s.oprs| :: t.oprs[i].ea == s.oprs[i].ea && t.oprs[i].reg == s.oprs[i].reg
    requires t.bits == s.bits && t.asize == s.asize && t.ea == s.ea && t.shift == s.shift && t.evex == s.evex && t.wlp == s.wlp
    ensures OperandRead(ops, t, ctx)
  {
    AllBitsStill(ops, s.oprs, s.ea, t.oprs, t.ea);
    forall k | 0 <= k < |ops| && IsEa(ops[k]) ensures EaRead(ops[k], t, ctx) {
      EaStillRead(ops[k], s, t, ctx);
    }
  }

  lemma KeptRead(e: Op, op: Op, s: State, t: State, ctx: Context)
    requires EaRead(e, s, ctx) && Keeps(op, s, t) && !IsEa(op) && !IsVex(op) && !SetsAsize(op)
    ensures EaRead(e, t, ctx)
  {
    hide Faithful;
    hide Exact;
  }

  /** A vector register with the second bit of its number set. */
  predicate HighVector(r: Rex) {
    (r.bv && r.b1) || (r.xv && r.x1) || (r.rv && r.r1)
  }

  /** Sizing a later code does not change the size of an earlier one. */
  lemma KeepsLength(ops: seq<Op>, i: nat, k: nat, s: State, t: State)
    requires Ordered(ops) && i < k < |ops| && Keeps(ops[k], s, t)
    requires OperandOk(ops[i], s.oprs) && OperandOk(ops[i], t.oprs)
    ensures SizeLength(ops[i], s) == SizeLength(ops[i], t)
  {
    assert ReadsOsize(ops[i]) ==> !SetsOsize(ops[k]);
    assert ops[i].code.Iwdq? ==> !SetsAsize(ops[k]);
    assert IsEa(ops[i]) ==> !IsEa(ops[k]);
    assert forall j | 0 <= j < |s.oprs| :: t.oprs[j] == s.oprs[j].(ea := t.oprs[j].ea);
  }

  lemma KeptOperandsOk(ops: seq<Op>, a: seq<Opnd>, b: seq<Opnd>)
    requires SameOperands(a, b) && OperandsOk(ops, a)
    ensures OperandsOk(ops, b)
  {
    forall k | 0 <= k < |ops| ensures OperandOk(ops[k], b) {
      KeptOperandOk(ops[k], a, b);
    }
  }

  /** One more code: the bytes counted so far still stand. */
  lemma SizeTotalGrows(ops: seq<Op>, k: nat, s: State, t: State)
    requires Ordered(ops) && k < |ops| && Keeps(ops[k], s, t)
    requires OperandsOk(ops, s.oprs) && OperandsOk(ops, t.oprs)
    ensures SizeTotal(ops[..k + 1], t) == SizeTotal(ops[..k], s) + SizeLength(ops[k], t)
  {
    assert ops[..k + 1][..k] == ops[..k];
    forall i | 0 <= i < k ensures SizeLength(ops[..k][i], s) == SizeLength(ops[..k][i], t) {
      KeepsLength(ops, i, k, s, t);
    }
    SizeTotalStable(ops[..k], s, t);
  }

  /** The encoding prefixes, which sizing counts last, do not enter the sum of the codes. */
  lemma SizeTotalIgnoresRex(ops: seq<Op>, s: State, t: State)
    requires OperandsOk(ops, s.oprs) && t == s.(rex := t.rex)
    ensures SizeTotal(ops, s) == SizeTotal(ops, t)
  {
    SizeTotalStable(ops, s, t);
  }

  /** Registers from 16 on. */
  predicate HasSecondBit(r: Rex) {
    r.b1 || r.x1 || r.r1
  }

  /** After sizing, the encoding has room for all register bits. */
  predicate PrefixFits(r: Rex, vexreg: int) {
    && (!r.evex && (r.vex || !r.rex2) ==> !HasSecondBit(r))
    && (r.vex && !r.evex ==> vexreg < 16)
  }

  /** After sizing, payload bits are never left without a prefix to carry them. */
  predicate RexSettled(r: Rex) {
    r.vex || r.evex || r.rex2 || r.forced || LockAsRex(r) || !(r.w || r.r || r.x || r.b)
  }

  /** Bits that a prefix will have to carry, or a prefix for its own sake. */
  predicate IsPending(r: Rex, osizePfx: Pfx, rexPfx: Pfx) {
    || HasRegisterBit(r) || r.w || r.rex2 || (osizePfx.PO64? && !r.noW) || (r.forced && !r.noHigh)
    || rexPfx.PRex? || rexPfx.PRex2?
  }

  /** The flag word agrees with the marks. */
  predicate RexFollows(r: Rex, marks: set<Mark>) {
    && (HasRegisterBit(r) || r.w || r.rex2 <==> Extended in marks) && (r.forced <==> Forced in marks)
    && (r.noHigh <==> NoHigh in marks) && (r.noW <==> NoW in marks)
  }

  /** The marks know nothing of VEX and EVEX. */
  lemma VexFollows(r: Rex, marks: set<Mark>)
    requires RexFollows(r, marks)
    ensures AddressBits(r.With(V)) == AddressBits(r) && AddressBits(r.With(EV)) == AddressBits(r)
    ensures RexFollows(r.With(V), marks) && r.With(V).vex && r.With(V).evex == r.evex
    ensures RexFollows(r.With(EV), marks) && r.With(EV).evex && r.With(EV).vex == r.vex
  {
  }

  /** The flags that a code stands for. */
  function FlagBits(code: Code): set<RexBit> {
    match code
    case NoHi => {NH}
    case RexL => {L}
    case RexB => {P, B}
    case RexX => {P, X}
    case RexR => {P, R}
    case RexW => {P, W}
    case Rex2 => {P, Two}
    case Rex2W => {P, Two, W}
    case _ => {}
  }

  lemma FlagMarks(op: Op, r: Rex, s: Sizing)
    requires RexFollows(r, s.marks)
    ensures RexFollows(r.Or(Rex(FlagBits(op.code))), AfterFlags(op.code, s).marks)
  {
  }

  lemma OtherFlagBits(op: Op, r: Rex)
    ensures var t := r.Or(Rex(FlagBits(op.code)));
      && t.vex == r.vex && t.evex == r.evex
      && (!IsEa(op) && !op.code.RegAdd? && !op.code.Mrb? ==>
            forall oprs: seq<Opnd>, ea: EaData :: AddressBits(t) == AddressBits(r) + CodeBits(op, oprs, ea))
  {
  }

  predicate LocalsFollow(loc: Locals, mibIndex: Option<Register>, opts: Opts) {
    && loc.mibIndex == mibIndex
    && loc.expected != Invalid
    && (loc.opt16 <==> opts.OptAll?) && (loc.opt32 <==> opts.OptAll?) && (loc.opt64 <==> !opts.NoOpt?)
  }

  /** Whether the passes agree is told by the inputs. */
  lemma AgreeableForeseen(ops: seq<Op>, st: State, set_: Setting, g: Given)
    requires OperandsOk(ops, st.oprs) && SameOperands(g.oprs, st.oprs)
    requires var s := SizingAfter(ops, set_, Start(set_, g));
      st.osize == s.osize && (RexLength(st) != 0 <==> !HasVex(ops) && !HasEvex(ops) && Pending(s, set_))
    ensures Agreeable(ops, st) <==> WillAgree(ops, set_, g)
  {
    forall k | 0 <= k < |ops|
      ensures WideImmediate(ops[k], st) <==> st.osize == 16 && ops[k].code.Iwd? && OnlyWide(g.oprs, ops[k].op1)
    {
      assert OperandOk(ops[k], st.oprs);
    }
  }

  lemma AgreeableTriggered(ops: seq<Op>, st: State)
    requires OperandsOk(ops, st.oprs) && Agreeable(ops, st)
    ensures Triggered(ops) || RexLength(st) == 0
  {
  }

  /** Before the first code. */
  lemma NothingWritten(st: State, p: Prefix, first: seq<Part>)
    ensures EmitTotal([], st) == 0 && first + CodeParts([], st, p) == first && !Triggered([])
  {
  }

  class Instruction {
    const core: Insn
    const temp: Template
    const cpu: Cpu
    const ctx: Context
    const resBytes: nat
    const brer: Option<bool> // the operand with rounding (true) or SAE (false), if any
    const rounding: nat
    var osize: int
    var oprs: seq<Opnd>
    var prefixes: seq<Pfx>
    var needPfx: seq<int>
    var rex: Rex
    var vexreg: int
    var veximm: int
    var map_: nat
    var vexWlp: byte
    var evex: bv32 // the template bytes of an EVEX prefix, as one word
    var rexDone: bool

    /** A matched instruction, before its size is known. */
    constructor (core: Insn, temp: Template, cpu: Cpu, ctx: Context, resBytes: nat, brer: Option<bool>, rounding: nat,
                 oprs: seq<Opnd>, prefixes: seq<Pfx>)
      requires core.Valid() && |prefixes| == SLOTS && rounding <= 3
      requires IsOsizePrefix(prefixes[OSIZE])
      ensures Valid() && this.core == core && this.oprs == oprs && this.prefixes == prefixes
    {
      this.core, this.temp, this.cpu, this.ctx := core, temp, cpu, ctx;
      this.resBytes, this.brer, this.rounding := resBytes, brer, rounding;
      this.oprs, this.prefixes, this.needPfx := oprs, prefixes, [0, 0, 0, 0, 0, 0, 0, 0, 0];
      osize, rex, vexreg, veximm, map_, vexWlp, evex, rexDone := 32, NO_REX, 0, 0, 0, 0, 0, false;
    }

    predicate Shaped()
      reads this`prefixes, this`needPfx, this`vexreg, this`osize
    {
      && |prefixes| == |needPfx| == SLOTS && rounding <= 3 && 0 <= vexreg < 32
      && (osize == 16 || osize == 32 || osize == 64)
      && IsOsizePrefix(prefixes[OSIZE])
    }

    predicate Valid()
      reads this, core
    {
      Shaped() && core.Valid()
    }

    function Snap(): State
      reads this, core
    {
      State(core.mode.bits, core.mode.asize, osize, oprs, core.ea, if core.Valid() then core.Shift() else 0, evex, vexWlp,
            rex, map_,
            |prefixes| == SLOTS && prefixes[REX].PVex3?, resBytes)
    }

    function SettingOf(): Setting
      reads this`prefixes, core`mode
      requires |prefixes| == SLOTS
    {
      Setting(core.mode.bits, temp.mib, temp.sib, temp.lig, cpu.strictOsize, prefixes[REX], brer, rounding)
    }

    function SlotsNow(): Slots
      reads this`prefixes, this`needPfx
    {
      Slots(prefixes, needPfx)
    }

    /** The slots, but for that of the operand size, are as the codes so far leave them. */
    predicate InSlots(t: Slots)
      reads this`prefixes, this`needPfx
    {
      |prefixes| == |t.pfx| == SLOTS && needPfx == t.need && prefixes == t.pfx[OSIZE := prefixes[OSIZE]]
    }

    /** The slots at the end are those that the codes leave, settled. */
    predicate SlotsSettled(t: Slots)
      reads this`prefixes, this`needPfx
    {
      && |prefixes| == |needPfx| == |t.pfx| == SLOTS && needPfx == t.need
      && prefixes == SettledSlots(t.pfx[OSIZE := prefixes[OSIZE]], cpu.defaultBnd && temp.bnd, temp.jccHint)
    }

    function GivenNow(): Given
      reads this`prefixes, this`oprs, this`veximm, core`mode, core`tuple
      requires |prefixes| == SLOTS
    {
      Given(prefixes[OSIZE], oprs, core.mode.asize, core.tuple, veximm)
    }

    /** The state of the loop is the one that the codes so far call for. */
    predicate Follows(s: Sizing, set_: Setting, loc: Locals)
      reads this`prefixes, this`osize, this`oprs, this`map_, this`rex, this`vexreg, this`veximm
      reads core`mode, core`tuple, core`evexB, core`evexW, core`evexLL
    {
      && |prefixes| == SLOTS && set_ == SettingOf()
      && osize == s.osize && prefixes[OSIZE] == s.opfx && oprs == s.oprs && map_ == s.map_
      && core.mode.asize == s.asize && vexreg == s.vreg && veximm == s.vimm
      && Scaling(core.tuple, core.evexB, core.evexW, core.evexLL) == s.scaling
      && RexFollows(rex, s.marks) && LocalsFollow(loc, s.mibIndex, s.opts)
    }

    // ---- Operand and address size codes ----

    method IsO16(loc: Locals, ghost s: Sizing, ghost set_: Setting)
      requires Shaped() && Follows(s, set_, loc)
      modifies this`osize, this`prefixes
      ensures Shaped() && prefixes == old(prefixes)[OSIZE := prefixes[OSIZE]]
      ensures Follows(After16(s), set_, loc)
    {
      hide RexFollows;
      var pfx := prefixes[OSIZE];
      osize := 16;
      if core.mode.bits != 16 && pfx.POsp? {
      } else if !pfx.PNone? && !pfx.PO16? {
        // a warning only
      } else if !loc.opt16 {
        prefixes := prefixes[OSIZE := PO16];
      }
    }

    method IsO32(loc: Locals, ghost s: Sizing, ghost set_: Setting) returns (ok: bool)
      requires Shaped() && Follows(s, set_, loc)
      modifies this`osize, this`prefixes
      ensures Shaped() && prefixes == old(prefixes)[OSIZE := prefixes[OSIZE]]
      ensures ok <==> !rex.noW
      ensures ok ==> Follows(After32(s), set_, loc)
    {
      hide RexFollows;
      var pfx := prefixes[OSIZE];
      osize := 32;
      if rex.noW {
        return false;
      } else if core.mode.bits == 16 && pfx.POsp? {
      } else if !pfx.PNone? && !pfx.PO32? {
        // a warning only
      } else if !loc.opt32 {
        prefixes := prefixes[OSIZE := PO32];
      }
      ok := true;
    }

    method IsO64(loc: Locals, ghost s: Sizing, ghost set_: Setting)
      requires Shaped() && Follows(s, set_, loc)
      modifies this`osize, this`prefixes, this`rex
      ensures Shaped() && prefixes == old(prefixes)[OSIZE := prefixes[OSIZE]]
      ensures rex == old(rex) || rex == old(rex).With(W)
      ensures Follows(After64(s), set_, loc)
    {
      hide HasRegisterBit;
      var pfx := prefixes[OSIZE];
      osize := 64;
      if pfx.POsp? {
        if !rex.noW {
          rex := rex.With(W);
        }
      } else if !pfx.PNone? && !pfx.PO64? {
        // a warning only
      } else if !loc.opt64 {
        prefixes := prefixes[OSIZE := PO64];
      }
    }

    /** One of the three sizes. */
    method SetSize(size: int, loc: Locals, ghost s: Sizing, ghost set_: Setting) returns (ok: bool)
      requires Shaped() && Follows(s, set_, loc) && (size == 16 || size == 32 || size == 64)
      modifies this`osize, this`prefixes, this`rex
      ensures Shaped() && prefixes == old(prefixes)[OSIZE := prefixes[OSIZE]]
      ensures OtherFlags(old(rex), rex)
      ensures ok ==> Follows(AfterSize(size, s), set_, loc)
    {
      hide Follows;
      ok := true;
      if size == 16 {
        IsO16(loc, s, set_);
      } else if size == 32 {
        ok := IsO32(loc, s, set_);
      } else {
        IsO64(loc, s, set_);
      }
    }

    /** The size that a code asks for. */
    method AskedSize(code: Code) returns (size: int)
      requires Valid() && (code.O16? || code.O32? || code.O64? || code.Osz? || code.Osm?)
      ensures size == 16 || size == 32 || size == 64
      ensures size == CodeSize(code, prefixes[OSIZE], osize, core.mode.bits)
    {
      if code.O16? {
        return 16;
      }
      if code.O32? {
        return 32;
      }
      if code.O64? {
        return 64;
      }
      size := core.mode.bits;
      if code.Osz? {
        var pfx := prefixes[OSIZE];
        size := if pfx.PNone? then osize
                else if pfx.POsp? then (if core.mode.bits == 16 then 32 else 16)
                else if pfx.PO16? then 16
                else if pfx.PO32? then 32
                else 64;
      }
    }

    /** The flag that makes REX.W needless. */
    method SetNoW(loc: Locals, ghost s: Sizing, ghost set_: Setting)
      requires Shaped() && Follows(s, set_, loc)
      modifies this`rex
      ensures Shaped() && OtherFlags(old(rex), rex)
      ensures Follows(s.Marked(true, NoW), set_, loc)
    {
      rex := rex.With(NW);
    }

    /** What a code does to the operand size. */
    method SetOsize(code: Code, loc: Locals, ghost s: Sizing, ghost set_: Setting) returns (ok: bool)
      requires Valid() && Follows(s, set_, loc)
      requires code.O16? || code.O32? || code.O64nw? || code.O64? || code.Nw? || code.Osz? || code.Osm?
      modifies this`osize, this`prefixes, this`rex
      ensures Valid() && OtherFlags(old(rex), rex) && prefixes == old(prefixes)[OSIZE := prefixes[OSIZE]]
      ensures ok ==> Follows(AfterOsize(code, s, set_.bits), set_, loc)
    {
      hide IsOsizePrefix;
      hide LocalsFollow;
      hide RexFollows;
      ok := true;
      if code.Nw? {
        if core.mode.bits == 64 {
          SetNoW(loc, s, set_);
          if osize == 32 {
            osize := 64;
          }
        }
      } else if code.O64nw? {
        SetNoW(loc, s, set_);
        ok := SetSize(64, loc, s.Marked(true, NoW), set_);
      } else {
        var size := AskedSize(code);
        ok := SetSize(size, loc, s, set_);
      }
    }

    method SizeOsize(op: Op, loc: Locals, ghost s: Sizing, ghost set_: Setting, ghost t: Slots) returns (ok: bool)
      requires Valid() && SetsOsize(op) && Follows(s, set_, loc) && InSlots(t)
      modifies this`osize, this`prefixes, this`rex
      ensures InSlots(AfterSlots(op, t))
      ensures ok ==> Valid() && Keeps(op, old(Snap()), Snap()) && Follows(AfterCode(op, s, set_), set_, loc)
    {
      hide Keeps;
      hide IsOsizePrefix;
      hide Follows;
      hide AfterOsize;
      hide AfterEa;
      hide AfterVex;
      hide AfterFlags;
      ghost var before := Snap();
      ok := SetOsize(op.code, loc, s, set_);
      KeepsRest(op, before, Snap());
    }

    /** The address size of a code, if it fits the mode and the prefix. */
    method SetAsize(code: Code) returns (ok: bool)
      requires Valid() && (code.A16? || code.A32? || code.A64?)
      modifies this`prefixes, core`mode
      ensures core.mode == old(core.mode).(asize := if code.A16? then 16 else if code.A32? then 32 else 64)
      ensures |prefixes| == SLOTS && prefixes == old(prefixes)[ASIZE := prefixes[ASIZE]]
      ensures ok ==> Valid() && prefixes[ASIZE] == AsizeSlot(code, old(prefixes[ASIZE]))
      ensures ok <==> AsizeSettled(code, old(prefixes[ASIZE]), core.mode.bits)
    {
      var pfx := prefixes[ASIZE];
      var bits := core.mode.bits;
      if code.A16? {
        core.mode := core.mode.(asize := 16);
        if bits == 64 || !(pfx.PNone? || pfx.PA16? || (bits == 32 && pfx.PAsp?)) {
          return false;
        }
        if pfx.PNone? {
          prefixes := prefixes[ASIZE := PA16];
        }
      } else if code.A32? {
        core.mode := core.mode.(asize := 32);
        if !(pfx.PNone? || pfx.PA32? || (bits != 32 && pfx.PAsp?)) {
          return false;
        }
        if pfx.PNone? {
          prefixes := prefixes[ASIZE := PA32];
        }
      } else {
        core.mode := core.mode.(asize := 64);
        if bits != 64 || (!pfx.PNone? && !pfx.PA64?) {
          return false;
        }
        prefixes := prefixes[ASIZE := PA64];
      }
      ok := true;
    }

    method SizeAsize(op: Op, ghost s: Sizing, ghost set_: Setting, ghost loc: Locals, ghost t: Slots) returns (ok: bool)
      requires Valid() && SetsAsize(op) && Follows(s, set_, loc) && InSlots(t)
      modifies this`prefixes, core`mode
      ensures ok ==> InSlots(AfterSlots(op, t))
      ensures ok ==> AsizeSettled(op.code, old(prefixes[ASIZE]), core.mode.bits)
      ensures ok ==> Valid() && Keeps(op, old(Snap()), Snap()) && Follows(AfterCode(op, s, set_), set_, loc)
    {
      hide AfterNeed;
      hide AsizeSettled;
      hide AsizeSlot;
      AfterAsizeIs(op, s, set_);
      hide AfterCode;
      hide RexFollows;
      hide LocalsFollow;
      hide Keeps;
      hide IsOsizePrefix;
      ghost var before := Snap();
      ok := SetAsize(op.code);
      if ok {
        KeepsRest(op, before, Snap());
      }
    }

    // ---- Codes that set REX, VEX or prefix requirements ----

    /** A register in the opcode or in ModRM puts its high bits into the flag word. */
    method SizeRegister(reg: Register, slot: Slot, ghost s: Sizing)
      requires RexFollows(rex, s.marks)
      modifies this`rex
      ensures rex.vex == old(rex.vex) && rex.evex == old(rex.evex) && old(rex.bits) <= rex.bits
      ensures RexFollows(rex, AfterRegister(s, Some(reg)).marks)
      ensures AddressBits(rex) == AddressBits(old(rex)) + AddressBits(RexFlags(Some(reg), slot))
    {
      OneCollected(Some(reg), slot);
      rex := rex.Or(RexFlags(Some(reg), slot));
    }

    /** The register that goes into the opcode byte, or is written as a ModRM byte. */
    method OpcodeRegister(op: Op) returns (reg: Register)
      requires (op.code.RegAdd? || op.code.Mrb?) && OperandOk(op, oprs)
      ensures op.code.RegAdd? ==> Some(reg) == RegAt(oprs, op.op1)
      ensures op.code.Mrb? ==> |op.args| == 1 && Some(reg) == RegAt(oprs, MrbOperand(op))
    {
      reg := if op.code.RegAdd? then oprs[op.op1].reg.value else oprs[MrbOperand(op)].reg.value;
    }

    /** Codes that set flags outright. */
    method SizeFlags(op: Op, ghost s: Sizing)
      requires RexFollows(rex, s.marks)
      modifies this`rex
      ensures rex.vex == old(rex.vex) && rex.evex == old(rex.evex) && old(rex.bits) <= rex.bits
      ensures !IsEa(op) && !op.code.RegAdd? && !op.code.Mrb? ==>
                AddressBits(rex) == AddressBits(old(rex)) + CodeBits(op, oprs, core.ea)
      ensures RexFollows(rex, AfterFlags(op.code, s).marks)
    {
      FlagMarks(op, rex, s);
      OtherFlagBits(op, rex);
      hide RexFollows;
      hide AddressBits;
      var flags := FlagBits(op.code);
      rex := rex.Or(Rex(flags));
    }

    /** The flags and the opcode map of a code. */
    method SetRex(op: Op, ghost s: Sizing, ghost set_: Setting)
      requires OperandOk(op, oprs) && !IsEa(op) && oprs == s.oprs && RexFollows(rex, s.marks) && map_ == s.map_
      modifies this`rex, this`map_
      ensures rex.vex == old(rex.vex) && rex.evex == old(rex.evex) && old(rex.bits) <= rex.bits
      ensures AddressBits(rex) == AddressBits(old(rex)) + CodeBits(op, oprs, core.ea)
      ensures op.code.RegAdd? ==> RexFollows(rex, AfterRegister(s, RegAt(s.oprs, op.op1)).marks)
      ensures op.code.Mrb? ==> |op.args| == 1 && RexFollows(rex, AfterRegister(s, RegAt(s.oprs, MrbOperand(op))).marks)
      ensures op.code.Map? ==> rex == old(rex)
      ensures !op.code.RegAdd? && !op.code.Mrb? && !op.code.Map? ==> RexFollows(rex, AfterFlags(op.code, s).marks)
      ensures map_ == if op.code.Map? then op.c as int % 4 else old(map_)
    {
      hide OperandOk;
      hide RexFollows;
      hide AfterFlags;
      if op.code.RegAdd? || op.code.Mrb? {
        var reg := OpcodeRegister(op);
        SizeRegister(reg, if op.code.RegAdd? then SlotB else SlotR, s);
      } else if op.code.Map? {
        map_ := op.c as int % 4;
      } else {
        SizeFlags(op, s);
      }
    }

    method SizeRex(op: Op, ghost s: Sizing, ghost set_: Setting, ghost loc: Locals)
      requires Valid() && OperandOk(op, oprs) && !IsVex(op) && !SetsOsize(op) && !SetsAsize(op) && !IsEa(op)
      requires !op.code.MibIndex? && !op.code.OptW? && !op.code.OptD? && Follows(s, set_, loc)
      modifies this`rex, this`map_
      ensures Valid() && Keeps(op, old(Snap()), Snap()) && Follows(AfterCode(op, s, set_), set_, loc)
    {
      hide Keeps;
      hide AfterEa;
      hide AfterVex;
      hide AfterOsize;
      hide IsOsizePrefix;
      hide AfterFlags;
      hide RexFollows;
      hide LocalsFollow;
      ghost var before := Snap();
      SetRex(op, s, set_);
      KeepsRest(op, before, Snap());
    }

    method SizeNeed(op: Op, ghost t: Slots)
      requires Valid() && InSlots(t)
      modifies this`needPfx, this`prefixes
      ensures InSlots(AfterNeed(op.code, t))
      ensures Valid() && prefixes[REX] == old(prefixes)[REX] && prefixes[OSIZE] == old(prefixes)[OSIZE]
    {
      hide IsOsizePrefix;
      if op.code.Wait? {
        if prefixes[WAIT].PNone? {
          prefixes := prefixes[WAIT := PWait];
        }
      } else if op.code.Jmp8? {
        if prefixes[REP].PBnd? {
          prefixes := prefixes[REP := PNone];
        }
      } else {
        needPfx := SetNeed(op.code, needPfx, t);
      }
    }

    /** The bytes that an instruction needs, or must not have, in its prefix slots. */
    static method SetNeed(code: Code, need: seq<int>, ghost t: Slots) returns (n: seq<int>)
      requires |t.pfx| == |need| == SLOTS && need == t.need && !code.Wait? && !code.Jmp8?
      ensures |n| == SLOTS && AfterNeed(code, t) == t.(need := n)
    {
      n := need;
      if code.NoRep? {
        n := n[REP := PFE_NULL];
      } else if code.F2? {
        n := n[REP := 0xf2];
      } else if code.F3? {
        n := n[REP := 0xf3];
      } else if code.Np? {
        n := n[REP := PFE_NULL][OSIZE := PFE_NULL];
      } else if code.P66? {
        n := n[REP := PFE_NULL][OSIZE := 0x66];
      } else if code.Osp? {
        n := n[OSIZE := 0x66];
      } else if code.NoOsp? {
        n := n[OSIZE := PFE_NULL];
      } else if code.NoAsp? {
        n := n[ASIZE := PFE_NULL];
      } else if code.P67? {
        n := n[ASIZE := 0x67];
      }
    }

    /** The V field, from a register or an immediate operand. */
    method SizeV(op: Op, ghost s: Sizing)
      requires OperandOk(op, oprs) && 0 <= vexreg < 32 && oprs == s.oprs && vexreg == s.vreg && veximm == s.vimm
      modifies this`vexreg, this`veximm
      ensures 0 <= vexreg < 32 && AfterV(op, s) == s.(vreg := vexreg, vimm := veximm)
    {
      if op.code.Vex? || op.code.Evex? {
        var o := oprs[op.op1];
        if o.immediate {
          veximm := o.offset;
        } else {
          vexreg := if o.reg.Some? then o.reg.value.num else 0;
        }
      } else {
        vexreg := 0;
      }
    }

    /** The fields of a VEX prefix. */
    method SetVex(op: Op, ghost s: Sizing)
      requires (op.code.Vex? || op.code.VexNoV?) && OperandOk(op, oprs) && |op.args| == 2 && 0 <= vexreg < 32
      requires oprs == s.oprs && vexreg == s.vreg && veximm == s.vimm
      modifies this`rex, this`map_, this`vexreg, this`veximm, this`vexWlp
      ensures rex == old(rex).With(V) && 0 <= vexreg < 32 && vexWlp == op.args[1]
      ensures AfterVex(op, s) == s.(map_ := map_, vreg := vexreg, vimm := veximm)
    {
      SizeV(op, s);
      rex := rex.With(V);
      map_, vexWlp := op.args[0], op.args[1];
    }

    /** The fields of an EVEX prefix. */
    method SetEvex(op: Op, ghost s: Sizing)
      requires Valid() && (op.code.Evex? || op.code.EvexNoV?) && OperandOk(op, oprs) && |op.args| == 4
      requires oprs == s.oprs && vexreg == s.vreg && veximm == s.vimm
      modifies this`rex, this`map_, this`vexreg, this`veximm, this`evex, core`evexB, core`evexW, core`evexLL, core`tuple
      ensures Valid() && rex == old(rex).With(EV) && evex == TemplateWord(op.args)
      ensures AfterVex(op, s) == s.(map_ := map_, vreg := vexreg, vimm := veximm,
                                    scaling := Scaling(core.tuple, core.evexB, core.evexW, core.evexLL))
    {
      hide IsOsizePrefix;
      SizeV(op, s);
      rex := rex.With(EV);
      evex := TemplateWord(op.args);
      map_ := op.args[0] as int % 8 + 128;
      core.SetEvex(op.args[1] as int / 128, op.args[2] as int / 16 % 2 == 1, op.args[2] as int / 32 % 4,
                   TupleOf(op.args[3]));
    }

    /** The fields of either. */
    method SetPrefix(op: Op, ghost s: Sizing)
      requires Valid() && IsVex(op) && OperandOk(op, oprs) && |op.args| == Payload(op.code, op.c)
      requires oprs == s.oprs && vexreg == s.vreg && veximm == s.vimm
      requires Scaling(core.tuple, core.evexB, core.evexW, core.evexLL) == s.scaling
      modifies this`rex, this`map_, this`vexreg, this`veximm, this`vexWlp, this`evex
      modifies core`evexB, core`evexW, core`evexLL, core`tuple
      ensures Valid() && rex == old(rex).With(if IsEvex(op) then EV else V)
      ensures if IsEvex(op) then |op.args| == 4 && evex == TemplateWord(op.args) && vexWlp == old(vexWlp)
              else |op.args| == 2 && evex == old(evex) && vexWlp == op.args[1]
      ensures AfterVex(op, s) == s.(map_ := map_, vreg := vexreg, vimm := veximm,
                                    scaling := Scaling(core.tuple, core.evexB, core.evexW, core.evexLL))
    {
      hide AfterVex;
      hide IsOsizePrefix;
      hide OperandOk;
      hide TemplateWord;
      if op.code.Vex? || op.code.VexNoV? {
        SetVex(op, s);
      } else {
        SetEvex(op, s);
      }
    }

    /** A VEX or EVEX code. */
    method SizeVex(op: Op, ghost s: Sizing, ghost set_: Setting, ghost loc: Locals)
      requires Valid() && IsVex(op) && OperandOk(op, oprs) && Follows(s, set_, loc) && |op.args| == Payload(op.code, op.c)
      modifies this`rex, this`map_, this`vexreg, this`veximm, this`vexWlp, this`evex
      modifies core`evexB, core`evexW, core`evexLL, core`tuple
      ensures Valid() && Keeps(op, old(Snap()), Snap()) && Follows(AfterCode(op, s, set_), set_, loc)
    {
      hide Keeps;
      hide AfterCode;
      hide RexFollows;
      hide LocalsFollow;
      hide IsOsizePrefix;
      hide TemplateWord;
      hide AddressBits;
      hide OperandOk;
      hide AfterVex;
      VexFollows(rex, s.marks);
      AfterVexIs(op, s, set_);
      ghost var before := Snap();
      SetPrefix(op, s);
      KeepsRest(op, before, Snap());
    }

    // ---- Effective addresses ----

    /** The EVEX b bit and rounding field, from the decorators of the operands. */
    method EaEvexFlags(opy: Opnd, ghost c: Scaling) returns (ok: bool)
      requires Valid() && Scaling(core.tuple, core.evexB, core.evexW, core.evexLL) == c
      modifies core`evexB, core`evexLL
      ensures Valid()
      ensures ok ==> forall set_: Setting | set_.brer == brer && set_.rounding == rounding ::
                Scaling(core.tuple, core.evexB, core.evexW, core.evexLL) == Decorated(c, opy.broadcast, set_)
    {
      if brer.Some? {
        if !temp.lig && core.evexLL != 2 {
          return false;
        }
        core.evexB, core.evexLL := !core.evexB, 0;
        if brer.value {
          core.evexLL := rounding;
        }
      } else if opy.broadcast {
        core.evexB := !core.evexB;
      }
      ok := true;
    }

    /** Encodes the effective address; what matters to the size of the instruction
        is that the size field counts ModRM, SIB and displacement. */
    method EncodeEa(e: Operand, rfield: RField, expected: EaType) returns (ok: bool)
      requires core.Valid() && (rfield.Digit? ==> rfield.n < 8)
      modifies core`ea
      ensures ok ==> core.ea.size == 1 + (if core.ea.sibPresent then 1 else 0) + core.ea.bytes
      ensures ok ==> Gathered(core.ea.rex, e, if rfield.RegField? then Some(rfield.reg) else None)
      ensures ok ==> match rfield
                     case Digit(n) => Framed(core.ea, n, None)
                     case RegField(reg) => Framed(core.ea, reg.num, Some(reg))
      ensures ok ==> core.ea.kind == expected
                     && (core.ea.bytes == 0 || core.ea.bytes == 1 || core.ea.bytes == 2 || core.ea.bytes == 4)
      ensures ok ==> match e
                     case RegOperand(reg, _) =>
                       RepresentsDirect(reg, core.ea) && !core.ea.rex.x && !core.ea.rex.x1 && !core.ea.rex.xv
                     case MemOperand(r, _) =>
                       && core.ea.kind == ClassOf(r) && !core.ea.rex.bv && (core.ea.rex.xv <==> core.ea.kind != Scalar)
                       && forall ip :: Faithful(r, core.ea, ip, core.mode, core.Shift()) <==> Exact(r, ip, core.mode, ctx, core.Shift())
    {
      hide Faithful;
      hide Exact;
      hide RepresentsDirect;
      ok := core.ProcessEa(e, rfield, ctx, expected);
    }

    /** The flags of the effective address, added to the flag word, go with the marks. */
    method AddEaFlags(op: Op, ghost e: Operand, ghost rreg: Option<Register>, ghost s: Sizing, ghost set_: Setting)
      requires op.op2 < |s.oprs| && e == Prepared(s.oprs[op.op2].ea, s.mibIndex, set_) && Gathered(core.ea.rex, e, rreg)
      requires rreg == if op.code.EaReg? then RegAt(s.oprs, op.op1) else None
      requires RexFollows(rex, s.marks)
      modifies this`rex
      ensures RexFollows(rex, AfterEa(op, s, set_).marks) && rex.vex == old(rex.vex) && rex.evex == old(rex.evex)
      ensures rex == old(rex).Or(core.ea.rex)
    {
      hide AfterEa;
      hide Collected;
      EaMarks(op, s, set_, core.ea.rex, e, rreg);
      rex := rex.Or(core.ea.rex);
    }

    /** The operand with its template flags, encoded. */
    method EncodeOperand(op: Op, loc: Locals) returns (ok: bool)
      requires Valid() && IsEa(op) && OperandOk(op, oprs)
      modifies this`oprs, core`evexB, core`evexLL, core`ea
      ensures Valid()
      ensures oprs == old(oprs)[op.op2 := old(oprs[op.op2]).(ea := Prepared(old(oprs[op.op2].ea), loc.mibIndex, SettingOf()))]
      ensures ok ==> core.ea.size == 1 + (if core.ea.sibPresent then 1 else 0) + core.ea.bytes
      ensures ok ==> Gathered(core.ea.rex, oprs[op.op2].ea, if op.code.EaReg? then RegAt(old(oprs), op.op1) else None)
      ensures ok && loc.expected != Invalid ==> EaRead(op, Snap(), ctx)
      ensures ok ==> Scaling(core.tuple, core.evexB, core.evexW, core.evexLL)
                     == Decorated(old(Scaling(core.tuple, core.evexB, core.evexW, core.evexLL)), old(oprs[op.op2].broadcast), SettingOf())
    {
      hide Faithful;
      hide Exact;
      hide RepresentsDirect;
      hide Prepared;
      hide Gathered;
      hide IsOsizePrefix;
      var opy := oprs[op.op2];
      var rfield := if op.code.EaReg? then RegField(oprs[op.op1].reg.value) else Digit(op.c as int % 8);
      opy := opy.(ea := Prepared(opy.ea, loc.mibIndex, SettingOf()));
      oprs := oprs[op.op2 := opy];
      ok := EaEvexFlags(opy, Scaling(core.tuple, core.evexB, core.evexW, core.evexLL));
      if ok {
        ok := EncodeEa(opy.ea, rfield, loc.expected);
      }
    }

    /** The flags of the effective address that was encoded; the operand is still read back. */
    method KeepEa(op: Op, ghost before: State, ghost rreg: Option<Register>, ghost s: Sizing, ghost set_: Setting)
      requires Valid() && IsEa(op) && op.op2 < |oprs| && |before.oprs| == |oprs| && op.op2 < |s.oprs|
      requires oprs[op.op2].ea == Prepared(s.oprs[op.op2].ea, s.mibIndex, set_) && Gathered(core.ea.rex, oprs[op.op2].ea, rreg)
      requires Snap() == before.(oprs := before.oprs[op.op2 := before.oprs[op.op2].(ea := oprs[op.op2].ea)], ea := core.ea,
                                 shift := core.Shift())
      requires rreg == (if op.code.EaReg? then RegAt(s.oprs, op.op1) else None) && RexFollows(rex, s.marks) && EaRead(op, Snap(), ctx)
      modifies this`rex
      ensures rex == old(rex).Or(core.ea.rex) && RexFollows(rex, AfterEa(op, s, set_).marks)
      ensures Keeps(op, before, Snap()) && EaRead(op, Snap(), ctx)
    {
      hide EaRead;
      hide AfterEa;
      hide Keeps;
      hide Prepared;
      hide Gathered;
      hide RexFollows;
      hide IsOsizePrefix;
      hide AddressBits;
      hide FieldSet;
      hide CodeBits;
      ghost var encoded := Snap();
      AddEaFlags(op, oprs[op.op2].ea, rreg, s, set_);
      KeepsEa(op, before, Snap(), oprs[op.op2].ea);
      EaStillRead(op, encoded, Snap(), ctx);
    }

    method SizeEa(op: Op, loc: Locals, ghost s: Sizing, ghost set_: Setting) returns (ok: bool)
      requires Valid() && IsEa(op) && OperandOk(op, oprs) && Follows(s, set_, loc)
      modifies this`oprs, this`rex, core`evexB, core`evexLL, core`ea
      ensures Valid()
      ensures ok ==> Keeps(op, old(Snap()), Snap()) && Follows(AfterCode(op, s, set_), set_, loc)
      ensures ok ==> core.ea.size == 1 + (if core.ea.sibPresent then 1 else 0) + core.ea.bytes
      ensures ok ==> EaRead(op, Snap(), ctx)
    {
      hide EaRead;
      hide AfterCode;
      hide AfterEa;
      hide Keeps;
      hide Prepared;
      hide Gathered;
      hide RexFollows;
      hide IsOsizePrefix;
      hide AddressBits;
      hide FieldSet;
      hide CodeBits;
      assert loc.expected != Invalid;
      AfterEaIs(op, s, set_);
      ghost var before, rreg := Snap(), if op.code.EaReg? then RegAt(oprs, op.op1) else None;
      ok := EncodeOperand(op, loc);
      if ok {
        KeepEa(op, before, rreg, s, set_);
      }
    }

    // ---- Sizing ----

    /** The bytes that the sizing pass adds for one code, in its current state. */
    method SizeCode(op: Op) returns (n: int)
      requires Valid() && OperandOk(op, oprs) && |op.args| == Payload(op.code, op.c)
      requires IsEa(op) ==> core.ea.size == 1 + (if core.ea.sibPresent then 1 else 0) + core.ea.bytes
      ensures n == SizeLength(op, Snap())
    {
      var code := op.code;
      if code.Literal? {
        n := op.c;
      } else if code.RegAdd? || code.Ib? || code.IbU? || code.Rel8? || code.Mrb? || code.Is4Imm?
                || code.Is4Const? || code.Is4? || code.IbS? || code.HintNop? || code.IbXor? || code.Jlen? {
        n := 1;
      } else if code.Iw? || code.Rel16? || code.SegWord? {
        n := 2;
      } else if code.Id? || code.Rel32? || code.IdS? || code.IdU? {
        n := 4;
      } else if code.Iq? {
        n := 8;
      } else if code.Iwd? || code.Rel? {
        var o := oprs[op.op1];
        if o.b16 || o.b32 || o.b64 {
          n := if o.b16 then 2 else 4;
        } else {
          n := if osize == 16 then 2 else 4;
        }
      } else if code.Iwdq? {
        n := core.mode.asize / 8;
      } else if code.Resb? {
        n := oprs[op.op1].offset * resBytes;
      } else if IsEa(op) {
        n := core.ea.size;
      } else {
        n := 0;
      }
    }

    /** Codes that are noted for later ones, and reservations. */
    predicate IsNoted(code: Code) {
      code.Resb? || code.MibIndex? || code.OptW? || code.OptD? || code.VsibX? || code.VsibY? || code.VsibZ?
    }

    method SizeNoted(op: Op, loc: Locals, ghost s: Sizing, ghost set_: Setting) returns (ok: bool, loc2: Locals)
      requires Valid() && OperandOk(op, oprs) && IsNoted(op.code) && Follows(s, set_, loc)
      ensures Follows(AfterCode(op, s, set_), set_, loc2)
      ensures ok <==> op.code.Resb? ==> oprs[op.op1].absolute
    {
      hide AfterEa;
      hide AfterVex;
      hide AfterOsize;
      hide IsOsizePrefix;
      hide RexFollows;
      ok, loc2 := true, loc;
      var code := op.code;
      if code.Resb? {
        ok := oprs[op.op1].absolute;
      } else if code.MibIndex? {
        loc2 := loc.(mibIndex := oprs[op.op1].reg);
      } else if code.OptW? || code.OptD? {
        if !cpu.strictOsize {
          loc2 := loc.(opt16 := code.OptW?, opt32 := code.OptW?, opt64 := true);
        }
      } else {
        loc2 := loc.(expected := if code.VsibX? then XmmVsib else if code.VsibY? then YmmVsib else ZmmVsib);
      }
    }

    /** The effect of one code that sets no sizes and is no effective address or VEX prefix. */
    method SizeOther(op: Op, loc: Locals, ghost s: Sizing, ghost set_: Setting, ghost t: Slots) returns (ok: bool, loc2: Locals)
      requires Valid() && OperandOk(op, oprs) && !SetsOsize(op) && !SetsAsize(op) && !IsVex(op) && !IsEa(op)
      requires Follows(s, set_, loc) && InSlots(t)
      modifies this`prefixes, this`needPfx, this`rex, this`map_
      ensures InSlots(AfterSlots(op, t))
      ensures Valid() && Keeps(op, old(Snap()), Snap()) && Follows(AfterCode(op, s, set_), set_, loc2)
      ensures ok <==> op.code.Resb? ==> oprs[op.op1].absolute
    {
      hide AfterCode;
      hide Keeps;
      hide IsOsizePrefix;
      hide RexFollows;
      hide LocalsFollow;
      ok, loc2 := true, loc;
      ghost var before := Snap();
      if IsNoted(op.code) {
        ok, loc2 := SizeNoted(op, loc, s, set_);
        KeepsRest(op, before, Snap());
      } else {
        SizeRex(op, s, set_, loc);
        SizeNeed(op, t);
      }
    }

    /** The effect of one code on the instruction. */
    method SizeState(op: Op, loc: Locals, ghost s: Sizing, ghost set_: Setting, ghost t: Slots) returns (ok: bool, loc2: Locals)
      requires Valid() && OperandOk(op, oprs) && |op.args| == Payload(op.code, op.c) && Follows(s, set_, loc) && InSlots(t)
      modifies this`osize, this`prefixes, this`needPfx, this`rex, this`map_, this`vexreg, this`veximm, this`vexWlp, this`evex, this`oprs
      modifies core`mode, core`evexB, core`evexW, core`evexLL, core`tuple, core`ea
      ensures ok ==> Valid() && Keeps(op, old(Snap()), Snap()) && Follows(AfterCode(op, s, set_), set_, loc2)
      ensures ok && IsEa(op) ==> core.ea.size == 1 + (if core.ea.sibPresent then 1 else 0) + core.ea.bytes
      ensures ok && IsEa(op) ==> EaRead(op, Snap(), ctx)
      ensures ok ==> InSlots(AfterSlots(op, t))
      ensures ok && SetsAsize(op) ==> AsizeSettled(op.code, old(prefixes[ASIZE]), core.mode.bits)
    {
      hide EaRead;
      ok, loc2 := true, loc;
      if SetsOsize(op) {
        ok := SizeOsize(op, loc, s, set_, t);
      } else if SetsAsize(op) {
        ok := SizeAsize(op, s, set_, loc, t);
      } else if IsVex(op) {
        SizeVex(op, s, set_, loc);
      } else if IsEa(op) {
        ok := SizeEa(op, loc, s, set_);
      } else {
        ok, loc2 := SizeOther(op, loc, s, set_, t);
      }
    }

    /** Sizes one code: first its effect on the instruction, then its bytes. */
    method SizeStep(op: Op, loc: Locals, ghost s: Sizing, ghost set_: Setting, ghost t: Slots) returns (ok: bool, n: int, loc2: Locals)
      requires Valid() && OperandOk(op, oprs) && |op.args| == Payload(op.code, op.c) && Follows(s, set_, loc) && InSlots(t)
      modifies this`osize, this`prefixes, this`needPfx, this`rex, this`map_, this`vexreg, this`veximm, this`vexWlp, this`evex, this`oprs
      modifies core`mode, core`evexB, core`evexW, core`evexLL, core`tuple, core`ea
      ensures ok ==> Valid() && Keeps(op, old(Snap()), Snap()) && Follows(AfterCode(op, s, set_), set_, loc2)
      ensures ok ==> OperandOk(op, oprs) && n == SizeLength(op, Snap())
      ensures ok && IsEa(op) ==> EaRead(op, Snap(), ctx)
      ensures ok ==> InSlots(AfterSlots(op, t))
      ensures ok && SetsAsize(op) ==> AsizeSettled(op.code, old(prefixes[ASIZE]), core.mode.bits)
    {
      hide EaRead;
      n := 0;
      ghost var before := oprs;
      ok, loc2 := SizeState(op, loc, s, set_, t);
      if ok {
        KeptOperandOk(op, before, oprs);
        n := SizeCode(op);
      }
    }

    // ---- The end of sizing ----

    /** An explicit encoding prefix in the source line. */
    static method CheckRexPrefix(p: Pfx, bits: int, r: Rex) returns (ok: bool, r2: Rex)
      ensures AddressBits(r2) == AddressBits(r) && r2.w == r.w && r2.noW == r.noW
      ensures r2.vex == r.vex && r2.evex == r.evex
      ensures ok && !r.vex && !r.evex && !p.PRex? && !p.PRex2? ==> r2 == r
      ensures p.PRex? || p.PRex2? ==> r2.forced
    {
      ok, r2 := true, r;
      if p.PEvex? {
        ok := r.evex;
      } else if p.PVex? || p.PVex3? || p.PVex2? {
        ok := r.vex;
      } else if p.PRex? {
        ok := !(bits != 64 || r.vex || r.evex || r.rex2);
        r2 := r.With(P);
      } else if p.PRex2? {
        ok := !(bits != 64 || r.vex || r.evex || HighVector(r));
        r2 := r.With(P).With(Two);
      }
    }

    /** The flags that codes have set about high byte registers and REX.W. */
    static method SettleCodes(osizePfx: Pfx, r: Rex) returns (ok: bool, r2: Rex)
      ensures AddressBits(r2) == AddressBits(r)
      ensures r2.vex == r.vex && r2.evex == r.evex && r2.rex2 == r.rex2 && HasRegisterBit(r2) == HasRegisterBit(r)
      ensures ok ==> r2.w == (r.w || (osizePfx.PO64? && !r.noW)) && r2.forced == (r.forced && !r.noHigh)
      ensures r2.noW == r.noW
    {
      ok, r2 := true, r;
      if r2.noHigh {
        ok := !r2.high;
        r2 := r2.Without(P);
      }
      if osizePfx.PO64? && !r2.noW {
        r2 := r2.With(W);
      }
    }

    /** What the codes and prefixes have left to be settled in the flag word. */
    static method PrepareRex(osizePfx: Pfx, rexPfx: Pfx, bits: int, r: Rex) returns (ok: bool, r2: Rex)
      ensures r2.noW == r.noW && (ok && osizePfx.PO64? && !r.noW ==> r2.w)
      ensures AddressBits(r2) == AddressBits(r)
      ensures r2.vex == r.vex && r2.evex == r.evex
      ensures ok && !r.vex && !r.evex ==> (HasRegisterBit(r2) || r2.w || r2.rex2 || r2.forced <==> IsPending(r, osizePfx, rexPfx))
    {
      ok, r2 := SettleCodes(osizePfx, r);
      if ok {
        ok, r2 := CheckRexPrefix(rexPfx, bits, r2);
      }
    }

    /** Counts a VEX or EVEX prefix. */
    static method SizeVexPrefix(r: Rex, ww: bool, wlp: byte, map_: nat, vexreg: int, forceVex3: bool, bits: int)
      returns (ok: bool, n: int, r2: Rex)
      requires r.vex || r.evex
      ensures r2 == if ww then r else if wlp >= 128 then r.With(W) else r.Without(W)
      ensures ok ==> n == if r.evex then 4 else VexLen(r2, map_, forceVex3)
      ensures AddressBits(r2) == AddressBits(r) && (ok && !r.evex ==> !HasSecondBit(r2) && vexreg < 16)
    {
      ok, n, r2 := false, 0, r;
      var bad32 := r.b || r.x || r.r || r.b1 || r.x1 || r.r1;
      if ww {
        bad32 := bad32 || r.w;
      } else if wlp >= 128 {
        r2 := r.With(W);
      } else {
        r2 := r.Without(W);
      }
      if r.high {
        return;
      }
      if bits != 64 && (bad32 || vexreg > 7) {
        return;
      }
      if r.evex {
        n := 4;
      } else {
        if vexreg > 15 || r.b1 || r.x1 || r.r1 {
          return;
        }
        n := if map_ != 1 || r.b || r.x || r2.w || forceVex3 then 3 else 2;
      }
      ok := true;
    }

    /** Counts a REX2 prefix, a REX prefix, or a LOCK prefix in place of REX.R. */
    static method SizeRexPrefix(r: Rex, map_: nat, bits: int, noApx: bool, lock: Pfx, cpu: Cpu)
      returns (ok: bool, n: int, r2: Rex)
      requires !r.vex && !r.evex
      ensures !r2.vex && !r2.evex && AddressBits(r2) == AddressBits(r) && r2.w == r.w && r2.noW == r.noW
      ensures ok && !r2.rex2 ==> !HasSecondBit(r2)
      ensures ok ==> n == RexLen(r2, map_) && RexSettled(r2)
      ensures ok ==> (RexLen(r2, map_) != 0 <==> map_ != 0 || HasRegisterBit(r) || r.w || r.rex2 || r.forced)
    {
      ok, n, r2 := false, 0, r;
      if r.b1 || r.x1 || r.r1 || r.rex2 {
        if bits != 64 || !cpu.apx || noApx || HighVector(r) || r.high {
          return;
        }
        r2 := r.With(P).With(Two);
        n := 2;
      } else if r.w || r.r || r.x || r.b || r.forced {
        if r.high {
          return;
        } else if bits == 64 {
          r2 := r.Without(L).With(P);
        } else if r.lockR && r.r && !r.w && !r.b && !r.x && cpu.x86_64 {
          if !lock.PNone? {
            return;
          }
          r2 := r.Without(P);
        } else {
          return;
        }
        n := 1;
      }
      if !r2.rex2 {
        n := n + (if map_ > 0 then 1 else 0) + (if map_ > 1 then 1 else 0);
      }
      ok := true;
    }

    /** 64-bit operands have REX.W where they need it; the W of VEX is that of the template,
        unless the operand size is to set it. */
    predicate WideRex()
      reads this`rex, this`prefixes, this`vexWlp
    {
      && (|prefixes| == SLOTS && !rex.vex && !rex.evex && prefixes[OSIZE].PO64? && !rex.noW ==> rex.w)
      && (rex.vex && !temp.ww ==> (rex.w <==> vexWlp >= 128))
    }

    /** What is pending before the encoding prefixes are settled. */
    predicate HasPending()
      reads this`rex, this`map_, this`prefixes
      requires |prefixes| == SLOTS
    {
      map_ != 0 || IsPending(rex, prefixes[OSIZE], prefixes[REX])
    }

    /** All encoding-prefix decisions after the last code, and their bytes. */
    method FinishRex() returns (ok: bool, n: int)
      requires Shaped()
      modifies this`rex
      ensures rex.vex == old(rex.vex) && rex.evex == old(rex.evex) && AddressBits(rex) == AddressBits(old(rex))
      ensures ok ==> RexSettled(rex) && PrefixFits(rex, vexreg)
      ensures rex.noW == old(rex.noW) && (ok ==> WideRex())
      ensures ok && !rex.vex && !rex.evex ==> (RexLen(rex, map_) != 0 <==> old(HasPending()))
      ensures ok ==> n == RexLen(rex, map_)
                          + (if rex.evex then 4 else if rex.vex then VexLen(rex, map_, prefixes[REX].PVex3?) else 0)
    {
      var bits, r := core.mode.bits, rex;
      n := 0;
      ok, r := PrepareRex(prefixes[OSIZE], prefixes[REX], bits, r);
      if ok {
        if r.vex || r.evex {
          ok, n, r := SizeVexPrefix(r, temp.ww, vexWlp, map_, vexreg, prefixes[REX].PVex3?, bits);
        } else {
          ok, n, r := SizeRexPrefix(r, map_, bits, temp.noApx, prefixes[LOCK], cpu);
        }
      }
      rex := r;
    }

    /** The byte that one prefix slot writes, or a negative value. */
    static method PrefixSlot(pfx: Pfx, r: int, bits: int, vexed: bool) returns (c: int)
      ensures c == SlotByte(pfx, r, bits, vexed)
    {
      c := PrefixByte(pfx, bits);
      if r != 0 && r != c && !(r <= 0 && c <= 0) {
        if pfx.PNone? || pfx.PO16? || pfx.PO32? || pfx.PO64? || pfx.PA16? || pfx.PA32? || pfx.PA64? {
          c := r;
        }
      }
      if !(pfx.RCs? || pfx.RDs? || pfx.REs? || pfx.RSs? || pfx.PA16? || pfx.PA64? || pfx.PO64?) {
        if (c == 0x66 || c == 0xf2 || c == 0xf3) && vexed {
          c := PFE_NULL;
        }
      }
    }

    /** Writes the legacy prefixes, or only counts them when there is no sink. */
    method EmitPrefixes(data: Sink?) returns (bytes: nat)
      requires |prefixes| == |needPfx| == SLOTS
      modifies data
      ensures bytes == old(PrefixCount(prefixes, needPfx, core.mode.bits, rex.vex || rex.evex))
      ensures data != null ==> data.insoffs == old(data.insoffs) + bytes
      ensures data != null ==>
                data.parts == old(data.parts + LegacyParts(prefixes, needPfx, core.mode.bits, rex.vex || rex.evex))
    {
      hide SlotByte;
      bytes := 0;
      var pfxs, need, bits, vexed := prefixes, needPfx, core.mode.bits, rex.vex || rex.evex;
      for j := 0 to SLOTS
        invariant bytes == PrefixCount(pfxs[..j], need[..j], bits, vexed)
        invariant data != null ==> data.insoffs == old(data.insoffs) + bytes
        invariant data != null ==> data.parts == old(data.parts) + LegacyParts(pfxs[..j], need[..j], bits, vexed)
      {
        var c := PrefixSlot(pfxs[j], need[j], bits, vexed);
        if c >= 0 {
          bytes := bytes + 1;
          if data != null {
            data.Out([Legacy(c)], 1);
          }
        }
        assert pfxs[..j + 1][..j] == pfxs[..j] && need[..j + 1][..j] == need[..j];
      }
      assert pfxs[..SLOTS] == pfxs && need[..SLOTS] == need;
    }

    // ---- The sizing pass ----

    /** BND by default, and branch hints where there is no branch to hint. */
    method SettlePrefixes()
      requires Shaped()
      modifies this`prefixes
      ensures Shaped() && prefixes[REX] == old(prefixes)[REX] && prefixes[OSIZE] == old(prefixes)[OSIZE]
      ensures prefixes == SettledSlots(old(prefixes), cpu.defaultBnd && temp.bnd, temp.jccHint)
    {
      if cpu.defaultBnd && temp.bnd && !prefixes[REP].PNobnd? {
        prefixes := prefixes[REP := PBnd];
      }
      if (prefixes[SEG].PPt? || prefixes[SEG].PPn?) && !temp.jccHint {
        prefixes := prefixes[SEG := PNone];
      }
    }

    /** The first `k` codes are sized, and amount to `length` bytes without the prefixes. */
    ghost predicate SizedUpTo(ops: seq<Op>, k: nat, length: int)
      requires k <= |ops|
      reads this, core
    {
      && Valid() && OperandsOk(ops, oprs)
      && length == SizeTotal(ops[..k], Snap()) && OperandRead(ops[..k], Snap(), ctx)
      && (rex.vex <==> HasVex(ops[..k])) && (rex.evex <==> HasEvex(ops[..k]))
    }

    /** Sizes code `k`. */
    method SizeNext(op: Op, loc: Locals, length: int, ghost ops: seq<Op>, ghost k: nat, ghost s: Sizing, ghost set_: Setting,
                    ghost t: Slots)
      returns (ok: bool, length2: int, loc2: Locals)
      requires k < |ops| && op == ops[k] && |op.args| == Payload(op.code, op.c)
      requires Ordered(ops) && SizedUpTo(ops, k, length) && Follows(SizingAfter(ops[..k], set_, s), set_, loc)
      requires |t.pfx| == |t.need| == SLOTS && InSlots(SlotsAfter(ops[..k], t))
      requires AsizesSettled(ops[..k], t, core.mode.bits)
      modifies this`osize, this`prefixes, this`needPfx, this`rex, this`map_, this`vexreg, this`veximm, this`vexWlp, this`evex, this`oprs
      modifies core`mode, core`evexB, core`evexW, core`evexLL, core`tuple, core`ea
      ensures ok ==> SizedUpTo(ops, k + 1, length2) && SameOperands(old(oprs), oprs)
      ensures ok ==> Follows(SizingAfter(ops[..k + 1], set_, s), set_, loc2)
      ensures ok ==> InSlots(SlotsAfter(ops[..k + 1], t)) && AsizesSettled(ops[..k + 1], t, core.mode.bits)
    {
      hide AsizeSettled;
      hide AfterSlots;
      hide Follows;
      hide EaRead;
      hide OperandRead;
      hide IsOsizePrefix;
      hide Ordered;
      hide SlotsAfter;
      hide SizingAfter;
      hide AsizesSettled;
      ghost var before, operands := Snap(), oprs;
      var n;
      ok, n, loc2 := SizeStep(op, loc, SizingAfter(ops[..k], set_, s), set_, SlotsAfter(ops[..k], t));
      length2 := length + n;
      if ok {
        KeptOperandsOk(ops, operands, oprs);
        SizeTotalGrows(ops, k, before, Snap());
        OperandReadNext(ops, k, before, Snap(), ctx);
        SlotsNext(ops, k, t, core.mode.bits);
        SizingNext(ops, k, set_, s);
        assert ops[..k + 1][..k] == ops[..k];
        HasLast(ops[..k + 1]);
      }
    }

    /** Before the first code. */
    lemma NothingSized(ops: seq<Op>)
      requires Valid() && OperandsOk(ops, oprs) && !rex.vex && !rex.evex && AddressBits(rex) == {}
      ensures SizedUpTo(ops, 0, 0)
    {
    }

    /** Runs over all codes; the encoding and legacy prefixes are not counted yet. */
    method SizeCodes(codes: seq<byte>, ghost ops: seq<Op>, ghost s: Sizing, ghost set_: Setting, ghost t: Slots)
      returns (ok: bool, length: int, ghost loc: Locals)
      requires Valid() && Spells(codes, ops) && Ordered(ops) && OperandsOk(ops, oprs)
      requires !rex.vex && !rex.evex && AddressBits(rex) == {} && Follows(s, set_, START)
      requires |t.pfx| == |t.need| == SLOTS && InSlots(t)
      modifies this`osize, this`prefixes, this`needPfx, this`rex, this`map_, this`vexreg, this`veximm, this`vexWlp, this`evex, this`oprs
      modifies core`mode, core`evexB, core`evexW, core`evexLL, core`tuple, core`ea
      ensures ok ==> SizedUpTo(ops, |ops|, length) && SameOperands(old(oprs), oprs)
      ensures ok ==> Follows(SizingAfter(ops, set_, s), set_, loc)
      ensures ok ==> InSlots(SlotsAfter(ops, t)) && AsizesSettled(ops, t, core.mode.bits)
    {
      hide AsizeSettled;
      hide InSlots;
      hide Follows;
      hide SizedUpTo;
      hide OperandsOk;
      hide Ordered;
      NothingSized(ops);
      ok, length := true, 0;
      var pos: nat, opex: byte, locals := 0, 0, START;
      loc := START;
      ghost var k: nat := 0;
      assert ops[0..] == ops && codes[0..] == codes;
      while true
        invariant k <= |ops| && AtOp(codes, pos, ops, k) && opex == Opex(ops, k)
        invariant SizedUpTo(ops, k, length) && SameOperands(old(oprs), oprs)
        invariant loc == locals && Follows(SizingAfter(ops[..k], set_, s), set_, loc)
        invariant InSlots(SlotsAfter(ops[..k], t)) && AsizesSettled(ops[..k], t, core.mode.bits)
        decreases |ops| - k
      {
        AtCode(codes, pos, ops, k);
        if codes[pos] == 0 {
          break;
        }
        var op;
        op, pos := Fetch(codes, pos, opex, ops, k);
        ghost var operands := oprs;
        ok, length, locals := SizeNext(op, locals, length, ops, k, s, set_, t);
        loc := locals;
        if !ok {
          return;
        }
        SameOperandsStill(old(oprs), operands, oprs);
        opex := if op.code.Extend? then op.c else 0;
        k := k + 1;
      }
      assert ops[..k] == ops;
    }

    /** After the last code: the encoding prefixes, then the legacy prefixes. */
    method SizePrefixes(ghost ops: seq<Op>, ghost coded: int) returns (ok: bool, n: int)
      requires SizedUpTo(ops, |ops|, coded) && Ordered(ops)
      modifies this`rex, this`prefixes
      ensures ok ==> Valid() && RexSettled(rex) && coded + n == CountedBytes(ops, Snap(), PrefixBytes())
      ensures ok ==> PrefixFits(rex, vexreg) && OperandRead(ops, Snap(), ctx)
      ensures ok ==> VexKnown(ops)
      ensures ok ==> (RexLength(Snap()) != 0 <==> !HasVex(ops) && !HasEvex(ops) && old(HasPending()))
      ensures ok ==> prefixes == SettledSlots(old(prefixes), cpu.defaultBnd && temp.bnd, temp.jccHint)
      ensures ok ==> prefixes[OSIZE] == old(prefixes[OSIZE]) && prefixes[REX] == old(prefixes[REX])
      ensures rex.noW == old(rex.noW) && (ok ==> WideRex())
    {
      assert ops[..|ops|] == ops;
      ghost var before := Snap();
      ok, n := FinishRex();
      if ok {
        SettlePrefixes();
        SizeTotalIgnoresRex(ops, before, Snap());
        OperandStillRead(ops, before, Snap(), ctx);
        SumsDiffer(ops, Snap());
        var bytes := EmitPrefixes(null);
        n := n + bytes;
      }
    }

    /** What the codes, the operands and the prefixes call for. */
    function SizingOf(ops: seq<Op>): Sizing
      reads this`prefixes, this`oprs, this`veximm, core`mode, core`tuple
      requires |prefixes| == SLOTS
    {
      SizingAfter(ops, SettingOf(), Start(SettingOf(), GivenNow()))
    }

    /** The same after merging, of what reading back depends on. */
    ghost predicate Foretold(s: Sizing, set_: Setting)
      reads this, core
    {
      && Valid() && core.mode == Mode(set_.bits, s.asize) && core.Shift() == s.scaling.Shift()
      && vexreg == s.vreg && veximm == s.vimm && map_ == s.map_ && rex.noW == (NoW in s.marks) && prefixes[OSIZE] == s.opfx
      && Scaling(core.tuple, core.evexB, core.evexW, core.evexLL) == s.scaling
      && |oprs| == |s.oprs| && forall i | 0 <= i < |oprs| :: oprs[i].ea == s.oprs[i].ea && oprs[i].reg == s.oprs[i].reg
    }

    /** The decisions of the sizing pass are those that were called for. */
    ghost predicate Decided(ops: seq<Op>, s: Sizing, set_: Setting)
      reads this, core
    {
      && |prefixes| == SLOTS && osize == s.osize && oprs == s.oprs && map_ == s.map_ && core.mode == Mode(set_.bits, s.asize)
      && vexreg == s.vreg && veximm == s.vimm && rex.noW == (NoW in s.marks) && prefixes[OSIZE] == s.opfx
      && Scaling(core.tuple, core.evexB, core.evexW, core.evexLL) == s.scaling && (core.Valid() ==> core.Shift() == s.scaling.Shift())
      && prefixes[REX] == set_.rexPfx
      && (RexLength(Snap()) != 0 <==> !HasVex(ops) && !HasEvex(ops) && Pending(s, set_))
    }

    /** Clears what an earlier sizing has left. */
    method Reset()
      requires Valid()
      modifies this`rex, this`vexreg, this`map_, this`osize, core`evexB, core`evexW, core`evexLL
      ensures Valid() && rex == NO_REX && Follows(Start(SettingOf(), GivenNow()), SettingOf(), START)
    {
      rex, vexreg, map_ := NO_REX, 0, 0;
      core.evexB, core.evexW, core.evexLL := false, 0, 0;
      osize := if core.mode.bits != 16 then 32 else 16;
    }

    /** What is pending is what was called for. */
    lemma PendingFollows(s: Sizing, set_: Setting, loc: Locals)
      requires Follows(s, set_, loc)
      ensures (HasPending() <==> Pending(s, set_)) && rex.noW == (NoW in s.marks)
    {
    }

    /** The end of the sizing pass, after all codes. */
    method FinishSize(ghost ops: seq<Op>, coded: int, ghost s: Sizing, ghost set_: Setting, ghost loc: Locals, ghost t: Slots)
      returns (ok: bool, n: int)
      requires SizedUpTo(ops, |ops|, coded) && Ordered(ops) && Follows(s, set_, loc) && InSlots(t)
      modifies this`rex, this`prefixes
      ensures ok ==> Valid() && OperandsOk(ops, oprs)
      ensures ok ==> coded + n == CountedBytes(ops, Snap(), PrefixBytes()) && RexSettled(rex)
      ensures ok ==> PrefixFits(rex, vexreg) && OperandRead(ops, Snap(), ctx)
      ensures ok ==> VexKnown(ops)
      ensures ok ==> Decided(ops, s, set_)
      ensures ok ==> SlotsSettled(t) && WideRex()
    {
      hide WideRex;
      hide RexFollows;
      hide LocalsFollow;
      hide Pending;
      hide IsPending;
      hide CountedBytes;
      hide PrefixCount;
      hide OperandRead;
      hide PrefixFits;
      hide RexLen;
      hide IsOsizePrefix;
      hide Ordered;
      hide SettledSlots;
      PendingFollows(s, set_, loc);
      ok, n := SizePrefixes(ops, coded);
    }

    /** The whole sizing pass. */
    method CalcSize(codes: seq<byte>, ghost ops: seq<Op>) returns (ok: bool, length: int)
      requires Valid() && Spells(codes, ops) && Ordered(ops) && OperandsOk(ops, oprs)
      modifies this, core
      ensures ok ==> Valid() && SameOperands(old(oprs), oprs) && OperandsOk(ops, oprs)
      ensures ok ==> length == CountedBytes(ops, Snap(), PrefixBytes()) && RexSettled(rex)
      ensures ok ==> PrefixFits(rex, vexreg) && OperandRead(ops, Snap(), ctx)
      ensures ok ==> VexKnown(ops)
      ensures ok ==> Decided(ops, old(SizingOf(ops)), old(SettingOf()))
      ensures ok ==> SlotsSettled(old(SlotsAfter(ops, SlotsNow()))) && WideRex()
                     && AsizesSettled(ops, old(SlotsNow()), core.mode.bits)
    {
      hide WideRex;
      hide SameOperands;
      hide Decided;
      hide SlotsSettled;
      hide SizedUpTo;
      hide Follows;
      hide CountedBytes;
      hide PrefixCount;
      hide OperandRead;
      hide PrefixFits;
      hide VexKnown;
      hide RexSettled;
      hide AsizesSettled;
      hide SlotsAfter;
      hide IsOsizePrefix;
      hide Ordered;
      hide Spells;
      ghost var s, set_, t := Start(SettingOf(), GivenNow()), SettingOf(), SlotsNow();
      ghost var loc;
      Reset();
      ok, length, loc := SizeCodes(codes, ops, s, set_, t);
      if ok {
        var n;
        ok, n := FinishSize(ops, length, SizingAfter(ops, set_, s), set_, loc, SlotsAfter(ops, t));
        length := length + n;
      }
    }

    /** The legacy prefix bytes of the instruction as it stands. */
    function PrefixBytes(): nat
      requires |prefixes| == |needPfx| == SLOTS
      reads this, core
    {
      PrefixCount(prefixes, needPfx, core.mode.bits, rex.vex || rex.evex)
    }

    // ---- The emitting pass ----

    /** The prefix that carries the register bits. */
    function ChosenPrefix(): Prefix
      requires Shaped()
      reads this`prefixes, this`needPfx, this`vexreg, this`osize, this`rex, this`evex, this`map_, this`veximm, this`vexWlp
      reads core`evexB, core`evexLL
    {
      if rex.evex then EvexPrefix(Decorate(evex, core.evexB, Bits5(core.evexLL)), Bits5(vexreg) | Bits5(veximm % 32))
      else if rex.vex then
        if VexLen(rex, map_, prefixes[REX].PVex3?) == 3 then Vex3Prefix(ByteBits(map_), ByteBits(vexWlp), Bits5(vexreg))
        else Vex2Prefix(ByteBits(map_), ByteBits(vexWlp), Bits5(vexreg))
      else if rex.rex2 then Rex2Prefix(ByteBits(map_))
      else if LockAsRex(rex) then LockPrefix
      else if rex.forced then RexPrefix
      else Bare
    }

    /** The flag word tells of VEX and EVEX codes. */
    predicate VexKnown(ops: seq<Op>)
      reads this`rex
    {
      (rex.vex <==> HasVex(ops)) && (rex.evex <==> HasEvex(ops)) && !(HasVex(ops) && HasEvex(ops))
    }

    /** The VEX and EVEX codes are those that the flag word stands for. */
    predicate VexMatches(op: Op)
      reads this`rex
    {
      && (IsEvex(op) ==> rex.evex)
      && (IsVex(op) && !IsEvex(op) ==> rex.vex && !rex.evex)
    }

    /** The chosen prefix has room for all register bits. */
    lemma ChosenHolds()
      requires Shaped() && RexSettled(rex) && PrefixFits(rex, vexreg)
      requires map_ < 256 && (!rex.vex && !rex.evex ==> map_ < 4) && (rex.vex ==> MapOk(ByteBits(map_)))
      requires rex.evex ==> TemplateOk(evex) && (rex.xv ==> vexreg < 16 && veximm % 32 < 16) && (rex.bv ==> !rex.x && !rex.x1)
      ensures Holds(ChosenPrefix(), rex)
    {
      hide Bits5;
      hide ByteBits;
      hide TemplateOk;
      hide MapOk;
      hide IsOsizePrefix;
      var imm: nat := veximm % 32;
      DecorateKeeps(evex, core.evexB, Bits5(core.evexLL));
      hide Decorate;
      Bits5Number(vexreg);
      Bits5Number(imm);
      OrFits(Bits5(vexreg), Bits5(imm));
      ByteBitsMap(map_);
    }

    lemma KnownMatches(ops: seq<Op>)
      requires VexKnown(ops)
      ensures forall k | 0 <= k < |ops| :: VexMatches(ops[k])
    {
    }

    /** The size of an immediate or displacement that follows the operand size. */
    method EmitSized(op: Op, data: Sink)
      requires op.code.Iwd? || op.code.Rel?
      requires OperandOk(op, oprs) && Shaped()
      modifies data
      ensures data.insoffs == old(data.insoffs) + EmitLength(op, Snap())
      ensures data.parts == old(data.parts) + PartsOf(op, Snap(), ChosenPrefix())
    {
      var o, size := oprs[op.op1], 0;
      if o.b16 || o.b32 || (op.code.Rel? && o.b64) {
        size := if o.b16 then 2 else 4;
      } else {
        size := if osize == 16 then 2 else 4;
      }
      data.OutAddress([Data(size)], size, o.absolute);
    }

    /** ModRM, SIB and displacement. */
    method EmitEa(op: Op, data: Sink)
      requires IsEa(op) && OperandOk(op, oprs) && Shaped()
      modifies data
      ensures data.insoffs == old(data.insoffs) + EmitLength(op, Snap())
      ensures data.parts == old(data.parts) + PartsOf(op, Snap(), ChosenPrefix())
    {
      var n, sib := 1, [];
      if core.ea.sibPresent {
        n, sib := n + 1, [core.ea.sib];
      }
      data.Out([Modrm(core.ea.modrm, sib)], n);
      if core.ea.bytes == 1 {
        data.Out([Disp(Short(core.ea.disp8 % 256))], 1);
      } else if core.ea.bytes != 0 {
        data.OutAddress([Disp(Long(core.ea.bytes, OffsetOf(oprs[op.op2].ea), core.ea.rip))], core.ea.bytes,
                        oprs[op.op2].absolute);
      }
    }

    /** The VEX or EVEX prefix. */
    method EmitVex(op: Op, data: Sink)
      requires IsVex(op) && OperandOk(op, oprs) && VexMatches(op) && Shaped()
      modifies data
      ensures data.insoffs == old(data.insoffs) + EmitLength(op, Snap())
      ensures data.parts == old(data.parts) + PartsOf(op, Snap(), ChosenPrefix())
    {
      hide IsOsizePrefix;
      hide Bits5;
      hide ByteBits;
      hide OperandOk;
      hide PrefixWord;
      if op.code.Evex? || op.code.EvexNoV? {
        data.Out([Encoded(PrefixWord(EvexPrefix(Decorate(evex, core.evexB, Bits5(core.evexLL)), Bits5(vexreg) | Bits5(veximm % 32)), rex))], 4);
      } else if map_ != 1 || rex.w || rex.x || rex.b || prefixes[REX].PVex3? {
        data.Out([Encoded(PrefixWord(Vex3Prefix(ByteBits(map_), ByteBits(vexWlp), Bits5(vexreg)), rex))], 3);
      } else {
        data.Out([Encoded(PrefixWord(Vex2Prefix(ByteBits(map_), ByteBits(vexWlp), Bits5(vexreg)), rex))], 2);
      }
    }

    /** A register number in a byte of its own, or the length of a jump. */
    method EmitRaw(op: Op) returns (b: byte)
      requires (op.code.Mrb? || op.code.Is4Const? || op.code.Is4? || op.code.Jlen?) && OperandOk(op, oprs) && Shaped()
      ensures Some(b) == RawByte(op, Snap())
    {
      if op.code.Jlen? {
        return if core.mode.bits == 16 then 3 else 5;
      }
      if op.code.Mrb? {
        var c := op.args[0] as int;
        var r := oprs[MrbOperand(op)].reg.value.num;
        return c / 64 * 64 + c % 8 + r % 8 * 8;
      }
      var r, c := 0, 0;
      if op.code.Is4Const? {
        r, c := oprs[op.args[0] as int / 16].reg.value.num, op.args[0] as int % 16;
      } else {
        r := oprs[op.op1].reg.value.num;
      }
      b := RegisterByte(r, c);
    }

    /** A register number in the high half, its fifth bit below. */
    static method RegisterByte(r: nat, c: nat) returns (b: byte)
      requires r < 32 && c < 16
      ensures b == Is4Byte(r, c)
    {
      b := r % 16 * 16 + (if r >= 16 then c % 8 + 8 else c);
    }

    /** Immediates and relative addresses of fixed size. */
    method EmitImmediate(op: Op, data: Sink)
      requires Valid() && !op.code.Iwd? && !op.code.Rel? && !IsEa(op) && !IsVex(op) && !Triggers(op) && OperandOk(op, oprs)
      modifies data
      ensures data.insoffs == old(data.insoffs) + EmitLength(op, Snap())
      ensures data.parts == old(data.parts) + PartsOf(op, Snap(), ChosenPrefix())
    {
      var code := op.code;
      var known := op.op1 < |oprs| && oprs[op.op1].absolute;
      if code.Ib? || code.IbU? || code.Rel8? || (code.IbS? && !known) {
        data.OutAddress([Data(1)], 1, known);
      } else if code.Mrb? || code.Is4Const? || code.Is4? || code.Jlen? {
        var b := EmitRaw(op);
        data.Out([Raw(b)], 1);
      } else if code.Is4Imm? || code.IbS? || code.IbXor? {
        data.Out([Data(1)], 1);
      } else if code.Iw? || code.Rel16? || code.SegWord? {
        data.OutAddress([Data(2)], 2, known);
      } else if code.Id? || code.Rel32? || code.IdS? || code.IdU? {
        data.OutAddress([Data(4)], 4, known);
      } else if code.Iq? {
        data.OutAddress([Data(8)], 8, known);
      } else if code.Iwdq? {
        var size: nat := core.mode.asize / 8;
        data.OutAddress(DataPart(size), size, known);
      } else if code.Resb? {
        var size := oprs[0].offset * resBytes;
        data.Out(DataPart(size), size);
      }
    }

    /** The REX or REX2 prefix and the legacy opcode map, once an instruction. */
    method EmitRex(data: Sink)
      requires RexSettled(rex) && Shaped()
      modifies this`rexDone, data
      ensures rexDone && data.insoffs == old(data.insoffs) + (if old(rexDone) then 0 else RexLength(Snap()))
      ensures data.parts == old(data.parts) + (if old(rexDone) then [] else RexParts(Snap(), ChosenPrefix()))
    {
      if rexDone {
        return;
      }
      rexDone := true;
      if rex.vex || rex.evex {
        return;
      }
      var n, parts := 0, [];
      if rex.rex2 {
        n, parts := 2, [Encoded(PrefixWord(Rex2Prefix(ByteBits(map_)), rex))];
      } else {
        if rex.lockR && rex.r && !rex.b && !rex.x && !rex.w && !rex.forced {
          n, parts := n + 1, [Encoded(0xf0)];
        } else if rex.forced {
          n, parts := n + 1, [Encoded(PrefixWord(RexPrefix, rex))];
        } else {
          assert !(rex.b || rex.x || rex.r || rex.w);
        }
        if map_ != 0 {
          n := n + 1;
          if map_ > 1 {
            n := n + 1;
          }
          parts := parts + MapParts(map_);
        }
      }
      data.Out(parts, n);
    }

    /** Opcode bytes, or one with a register in it, or one from an operand. */
    method EmitBytes(op: Op, data: Sink)
      requires Triggers(op) && OperandOk(op, oprs) && Shaped()
      modifies data
      ensures data.insoffs == old(data.insoffs) + EmitLength(op, Snap())
      ensures data.parts == old(data.parts) + PartsOf(op, Snap(), ChosenPrefix())
    {
      if op.code.Literal? {
        data.Out([Opcode(op.args)], op.c);
      } else if op.code.RegAdd? {
        data.Out([Raw((op.args[0] as int + oprs[op.op1].reg.value.num % 8) % 256)], 1);
      } else if op.op1 < |oprs| && oprs[op.op1].absolute {
        data.Out([Data(1)], 1);
      } else {
        data.OutAddress([Data(1)], 1, false);
      }
    }

    /** Opcode bytes, with the pending REX prefix before them. */
    method EmitOpcode(op: Op, data: Sink)
      requires RexSettled(rex) && Triggers(op) && OperandOk(op, oprs) && Shaped()
      modifies this`rexDone, data
      ensures rexDone
      ensures data.insoffs == old(data.insoffs) + EmitLength(op, Snap()) + (if old(rexDone) then 0 else RexLength(Snap()))
      ensures data.parts == old(data.parts) + (if old(rexDone) then [] else RexParts(Snap(), ChosenPrefix()))
                            + PartsOf(op, Snap(), ChosenPrefix())
    {
      hide PartsOf;
      hide EmitLength;
      hide RexParts;
      hide RexLength;
      hide OperandOk;
      EmitRex(data);
      EmitBytes(op, data);
    }

    /** Writes the bytes of one code. */
    method EmitCode(op: Op, data: Sink)
      requires Valid() && RexSettled(rex) && OperandOk(op, oprs) && VexMatches(op)
      modifies this`rexDone, data
      ensures rexDone <==> old(rexDone) || Triggers(op)
      ensures data.insoffs == old(data.insoffs) + EmitLength(op, Snap())
                              + (if Triggers(op) && !old(rexDone) then RexLength(Snap()) else 0)
      ensures data.parts == old(data.parts) + (if Triggers(op) && !old(rexDone) then RexParts(Snap(), ChosenPrefix()) else [])
                            + PartsOf(op, Snap(), ChosenPrefix())
    {
      hide PartsOf;
      hide RexParts;
      hide EmitLength;
      if Triggers(op) {
        EmitOpcode(op, data);
      } else if IsEa(op) {
        EmitEa(op, data);
      } else if IsVex(op) {
        EmitVex(op, data);
      } else if op.code.Iwd? || op.code.Rel? {
        EmitSized(op, data);
      } else {
        EmitImmediate(op, data);
      }
    }

    /** The first `k` codes are written, after `base` bytes and the parts `first`. */
    ghost predicate EmittedUpTo(ops: seq<Op>, k: nat, base: int, first: seq<Part>, data: Sink)
      requires k <= |ops|
      reads this, core, data
    {
      && Valid() && RexSettled(rex) && OperandsOk(ops, oprs)
      && (forall j | 0 <= j < |ops| :: VexMatches(ops[j]))
      && data.insoffs == base + EmitTotal(ops[..k], Snap()) + (if rexDone then RexLength(Snap()) else 0)
      && data.parts == first + CodeParts(ops[..k], Snap(), ChosenPrefix())
      && (rexDone <==> Triggered(ops[..k]))
    }

    method EmitNext(op: Op, data: Sink, ghost ops: seq<Op>, ghost k: nat, ghost base: int, ghost first: seq<Part>)
      requires k < |ops| && op == ops[k] && EmittedUpTo(ops, k, base, first, data)
      modifies this`rexDone, data
      ensures EmittedUpTo(ops, k + 1, base, first, data)
    {
      hide PartsOf;
      hide RexParts;
      hide ChosenPrefix;
      hide CodeParts;
      CodePartsNext(first, ops, k, Snap(), ChosenPrefix());
      EmitCode(op, data);
      assert ops[..k + 1][..k] == ops[..k];
      HasLast(ops[..k + 1]);
    }

    /** The legacy prefixes of the instruction as it stands. */
    function PrefixParts(): seq<Part>
      requires |prefixes| == |needPfx| == SLOTS
      reads this, core
    {
      LegacyParts(prefixes, needPfx, core.mode.bits, rex.vex || rex.evex)
    }

    /** Writes all codes. */
    method EmitCodes(codes: seq<byte>, data: Sink, ghost ops: seq<Op>)
      requires Valid() && Spells(codes, ops) && RexSettled(rex) && OperandsOk(ops, oprs) && !rexDone
      requires forall k | 0 <= k < |ops| :: VexMatches(ops[k])
      modifies this`rexDone, data
      ensures EmittedUpTo(ops, |ops|, old(data.insoffs), old(data.parts), data)
    {
      hide CodeParts;
      hide ChosenPrefix;
      hide VexMatches;
      hide RexLen;
      hide IsOsizePrefix;
      ghost var base, first := data.insoffs, data.parts;
      var pos: nat, opex: byte := 0, 0;
      ghost var k: nat := 0;
      assert ops[0..] == ops && codes[0..] == codes && ops[..0] == [];
      NothingWritten(Snap(), ChosenPrefix(), first);
      while true
        invariant k <= |ops| && AtOp(codes, pos, ops, k) && opex == Opex(ops, k)
        invariant EmittedUpTo(ops, k, base, first, data)
        decreases |ops| - k
      {
        AtCode(codes, pos, ops, k);
        if codes[pos] == 0 {
          break;
        }
        var op;
        op, pos := Fetch(codes, pos, opex, ops, k);
        EmitNext(op, data, ops, k, base, first);
        opex := if op.code.Extend? then op.c else 0;
        k := k + 1;
      }
    }

    /** The whole emitting pass. */
    method GenCode(codes: seq<byte>, data: Sink, ghost ops: seq<Op>)
      requires Valid() && Spells(codes, ops) && RexSettled(rex) && OperandsOk(ops, oprs)
      requires VexKnown(ops)
      modifies this`rexDone, data
      ensures data.insoffs == old(data.insoffs) + EmittedBytes(ops, Snap(), PrefixBytes())
      ensures data.parts == old(data.parts) + PrefixParts() + CodeParts(ops, Snap(), ChosenPrefix())
    {
      hide CodeParts;
      hide ChosenPrefix;
      hide VexMatches;
      hide RexLen;
      hide Spells;
      hide IsOsizePrefix;
      hide PrefixCount;
      hide LegacyParts;
      KnownMatches(ops);
      rexDone := false;
      var n := EmitPrefixes(data);
      EmitCodes(codes, data, ops);
      assert ops[..|ops|] == ops;
    }

    // ---- One instruction ----

    /** Repeated reservations without prefixes become one reservation. */
    method MergeResb(length: int, times: nat) returns (merged: int, times2: nat)
      requires resBytes != 0 ==> |oprs| > 0
      modifies this`oprs
      ensures resBytes == 0 || length != resBytes * old(oprs[0].offset) ==>
                oprs == old(oprs) && merged == length && times2 == times
      ensures resBytes != 0 && length == resBytes * old(oprs[0].offset) ==>
                oprs == Repeated(old(oprs), times) && merged == length * times && times2 == 1
    {
      merged, times2 := length, times;
      if resBytes != 0 && length == resBytes * oprs[0].offset {
        oprs := oprs[0 := oprs[0].(offset := oprs[0].offset * times)];
        merged, times2 := length * times, 1;
      }
    }

    /** What sizing leaves for the emitting pass. */
    ghost predicate Ready(ops: seq<Op>, length: int)
      reads this, core
    {
      && Valid() && OperandsOk(ops, oprs) && RexSettled(rex) && length == CountedBytes(ops, Snap(), PrefixBytes())
      && PrefixFits(rex, vexreg) && OperandRead(ops, Snap(), ctx) && VexKnown(ops)
    }

    /** Merges repetitions and emits. `agreed` is the check on the length. */
    method MergeAndEmit(codes: seq<byte>, data: Sink, times: nat, size: int, ghost ops: seq<Op>,
                        ghost s: Sizing, ghost set_: Setting)
      returns (agreed: bool, length: int, times2: nat)
      requires Ready(ops, size) && Foretold(s, set_) && Spells(codes, ops) && (resBytes != 0 ==> ResbCount(ops) == 1)
      modifies this`oprs, this`rexDone, data
      ensures Valid() && OperandsOk(ops, oprs) && data.insoffs == EmittedBytes(ops, Snap(), PrefixBytes())
      ensures agreed <==> Agreeable(ops, old(Snap()))
      ensures agreed <==> length == data.insoffs
      ensures data.parts == PrefixParts() + CodeParts(ops, Snap(), ChosenPrefix()) && OperandRead(ops, Snap(), ctx)
      ensures agreed ==> Triggered(ops) || RexLength(Snap()) == 0
      ensures Foretold(s, set_)
    {
      hide Agreeable;
      hide EmittedBytes;
      hide CountedBytes;
      hide Spells;
      hide PrefixFits;
      hide CodeParts;
      hide ChosenPrefix;
      hide VexMatches;
      hide OperandRead;
      hide IsOsizePrefix;
      hide RexLen;
      hide RexSettled;
      hide LegacyParts;
      hide PrefixCount;
      hide VexKnown;
      if resBytes != 0 {
        ResbHasOperand(ops, oprs);
      }
      ghost var before := Snap();
      length, times2 := MergeResb(size, times);
      MergedAgreeIff(ops, before, Snap(), PrefixBytes(), times);
      OperandStillRead(ops, before, Snap(), ctx);
      data.insoffs, data.parts := 0, [];
      GenCode(codes, data, ops);
      agreed := data.insoffs == length;
      if agreed {
        AgreeableTriggered(ops, before);
      }
    }

    /** Sizes an instruction and emits it. */
    method Assemble(codes: seq<byte>, data: Sink, times: nat, ghost ops: seq<Op>)
      returns (ok: bool, agreed: bool, length: int, times2: nat)
      requires Valid() && Spells(codes, ops) && Ordered(ops) && OperandsOk(ops, oprs)
      requires resBytes != 0 ==> ResbCount(ops) == 1
      modifies this, core, data
      ensures ok ==> Valid() && OperandsOk(ops, oprs) && data.insoffs == EmittedBytes(ops, Snap(), PrefixBytes())
      ensures ok ==> (agreed <==> old(WillAgree(ops, SettingOf(), GivenNow())))
      ensures ok ==> (agreed <==> length == data.insoffs)
      ensures ok ==> data.parts == PrefixParts() + CodeParts(ops, Snap(), ChosenPrefix())
      ensures ok ==> RexSettled(rex) && PrefixFits(rex, vexreg) && OperandRead(ops, Snap(), ctx) && VexKnown(ops)
      ensures ok ==> Foretold(old(SizingOf(ops)), old(SettingOf()))
      ensures ok && agreed ==> Triggered(ops) || RexLength(Snap()) == 0
      ensures ok ==> SlotsSettled(old(SlotsAfter(ops, SlotsNow()))) && WideRex()
                     && AsizesSettled(ops, old(SlotsNow()), core.mode.bits)
    {
      hide WideRex;
      hide AsizesSettled;
      hide SlotsSettled;
      hide WillAgree;
      hide Agreeable;
      hide EmittedBytes;
      hide CountedBytes;
      hide Ordered;
      hide Spells;
      hide Pending;
      hide OperandRead;
      hide PrefixFits;
      hide CodeParts;
      hide ChosenPrefix;
      hide VexMatches;
      hide IsOsizePrefix;
      ghost var set_, g, s := SettingOf(), GivenNow(), SizingOf(ops);
      agreed, times2 := false, times;
      ok, length := CalcSize(codes, ops);
      if !ok || length <= 0 {
        return false, false, 0, times;
      }
      AgreeableForeseen(ops, Snap(), set_, g);
      agreed, length, times2 := MergeAndEmit(codes, data, times, length, ops, s, set_);
    }
  }

  /** The output side: what the current instruction has written, and how many bytes. */
  class Sink {
    const widest: nat // bytes in the widest relocation of the format
    var insoffs: int
    var parts: seq<Part>

    constructor (widest: nat)
      ensures insoffs == 0 && parts == []
    {
      this.widest, insoffs, parts := widest, 0, [];
    }

    /** Hands pieces of `size` bytes to the output format. */
    method Out(what: seq<Part>, size: int)
      modifies this
      ensures insoffs == old(insoffs) + size && parts == old(parts) + what
    {
      insoffs, parts := insoffs + size, parts + what;
    }

    /** Hands over an address field. Where the format has no relocation that wide, the
        field is written at the format's width and filled up with zeros. */
    method OutAddress(what: seq<Part>, size: nat, known: bool)
      modifies this
      ensures insoffs == old(insoffs) + size && parts == old(parts) + what
    {
      parts := parts + what;
      if size == 0 {
        return;
      }
      var zeropad, field := 0, size;
      if !known && size > widest {
        zeropad, field := size - widest, widest;
      }
      insoffs := insoffs + field;
      if zeropad != 0 {
        insoffs := insoffs + zeropad;
      }
    }
  }
}
