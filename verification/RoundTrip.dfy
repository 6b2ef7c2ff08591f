/** An operand all the way: encoded, its register bits written into a prefix, the prefix
    read back, and the operand read by the disassembler. */
module RoundTrip {
  import opened Basics
  import opened Registers
  import opened EaDecoding
  import opened EaEncoding
  import opened Prefixes
  import opened Bytecode
  import opened PrefixSlots
  import opened PrefixReading
  import opened Sizing
  import opened Assemble

  // ---- A memory operand on its own ----

  /** Encodes a memory operand and reads it back, through a prefix for the operand's flags
      and the others of the instruction. If the prefix has room for them and the operand is
      exact, the disassembler finds the written address, in the bytes of the operand. */
  method WriteAndRead(insn: Insn, r: MemRef, rfield: RField, c: Context, expected: EaType,
                      extra: set<RexBit>, p: Prefix, ip: int, tail: seq<byte>)
    returns (ok: bool, op: DisOperand, len: Option<nat>)
    requires insn.Valid() && (rfield.Digit? ==> rfield.n < 8) && extra !! ADDRESS_BITS && expected != Invalid
    modifies insn`ea
    ensures ok <==> Accepted(MemOperand(r, false), insn.mode, c, expected) && Holds(p, Rex(insn.ea.rex.bits + extra))
    ensures ok && Exact(r, ip, insn.mode, c, insn.Shift()) ==>
      && len.Some? && len.value + 1 == insn.ea.size && op.Contents(len.value).Memory?
      && forall env: Env :: Address(op.Contents(len.value), env, ip, insn.mode.asize) == Denoted(r, env, insn.mode.asize)
  {
    op := new DisOperand();
    len := None;
    ok := insn.ProcessEa(MemOperand(r, false), rfield, c, expected);
    var ea, m, shift := insn.ea, insn.mode, insn.Shift();
    var rex := Rex(ea.rex.bits + extra);
    ok := ok && Holds(p, rex);
    if ok {
      PrefixCarries(p, rex);
      var ext := ReadBack(p, rex).value.ext;
      CarriesStill(ext, ea.rex, extra);
      var data := SibBytes(ea) + DispBytes(ea, r.offset, ip) + tail;
      len := op.DoEa(data, ea.modrm, m, ea.kind, ext, shift);
      if Exact(r, ip, m, c, shift) {
        assert Faithful(r, ea, ip, m, shift);
        assert DecodeEmitted(ea, r.offset, ip, tail, m, ext, shift) == DecodeEa(ea.modrm, data, m, ea.kind, ext, shift);
      }
    }
  }

  // ---- What a reader finds in an instruction ----

  datatype Seen = Seen(word: Option<bv32>, modrm: Option<(byte, seq<byte>)>, disp: Field)

  const NOTHING := Seen(None, None, NoField)

  function Look(s: Seen, part: Part): Seen {
    match part
    case Encoded(word) => s.(word := Some(word))
    case Modrm(modrm, sib) => s.(modrm := Some((modrm, sib)), disp := NoField)
    case Disp(disp) => s.(disp := disp)
    case _ => s
  }

  function LookAll(s: Seen, parts: seq<Part>): Seen {
    if parts == [] then s else Look(LookAll(s, parts[..|parts| - 1]), parts[|parts| - 1])
  }

  lemma {:induction false} LookAppend(s: Seen, a: seq<Part>, b: seq<Part>)
    ensures LookAll(s, a + b) == LookAll(LookAll(s, a), b)
    decreases |b|
  {
    if b == [] {
      assert a + b == a;
    } else {
      var n := |b| - 1;
      LookAppend(s, a, b[..n]);
      assert (a + b)[..|a + b| - 1] == a + b[..n];
    }
  }

  lemma LookOne(s: Seen, part: Part)
    ensures LookAll(s, [part]) == Look(s, part)
  {
    assert [part][..0] == [];
  }

  lemma {:induction false} LookLegacy(s: Seen, prefixes: seq<Pfx>, need: seq<int>, bits: int, vexed: bool)
    requires |prefixes| == |need|
    ensures LookAll(s, LegacyParts(prefixes, need, bits, vexed)) == s
  {
    if prefixes != [] {
      var n := |prefixes| - 1;
      var c := SlotByte(prefixes[n], need[n], bits, vexed);
      hide SlotByte;
      LookLegacy(s, prefixes[..n], need[..n], bits, vexed);
      LookAppend(s, LegacyParts(prefixes[..n], need[..n], bits, vexed), if c >= 0 then [Legacy(c)] else []);
      LookOne(s, Legacy(c));
    }
  }

  /** A pending REX part shows as its prefix. */
  lemma LookRex(s: Seen, st: State, p: Prefix)
    ensures LookAll(s, RexParts(st, p))
            == if st.rex.vex || st.rex.evex || p.Bare? then s else s.(word := Some(PrefixWord(p, st.rex)))
  {
    if !st.rex.vex && !st.rex.evex {
      var first, rest := if p.Bare? then [] else [Encoded(PrefixWord(p, st.rex))],
                         if st.rex.rex2 then [] else MapParts(st.map_);
      hide PrefixWord;
      LookAppend(s, first, rest);
      LookOne(s, Encoded(PrefixWord(p, st.rex)));
      var t := LookAll(s, first);
      LookOne(t, Opcode([0x0f]));
      LookOne(t, Opcode([0x0f, (0x34 + 2 * st.map_) % 256]));
    }
  }

  /** A code shows as its prefix or its operand, if it is one of these. */
  lemma LookCode(s: Seen, op: Op, st: State, p: Prefix)
    requires OperandOk(op, st.oprs)
    ensures LookAll(s, PartsOf(op, st, p))
            == if IsVex(op) then s.(word := Some(PrefixWord(p, st.rex)))
               else if IsEa(op) then OperandSeen(s.word, op, st)
               else s
  {
    hide PrefixWord;
    hide EmitLength;
    if op.code.Literal? {
      LookOne(s, Opcode(op.args));
    } else if IsEa(op) {
      var field := FieldOf(st.ea, OffsetOf(st.oprs[op.op2].ea));
      var modrm := Modrm(st.ea.modrm, SibBytes(st.ea));
      LookAppend(s, [modrm], if st.ea.bytes == 0 then [] else [Disp(field)]);
      LookOne(s, modrm);
      LookOne(Look(s, modrm), Disp(field));
    } else if IsVex(op) {
      LookOne(s, Encoded(PrefixWord(p, st.rex)));
    } else if RawByte(op, st).Some? {
      LookOne(s, Raw(RawByte(op, st).value));
    } else {
      LookOne(s, Data(EmitLength(op, st)));
    }
  }

  function OperandSeen(word: Option<bv32>, op: Op, st: State): Seen
    requires op.op2 < |st.oprs|
  {
    Seen(word, Some((st.ea.modrm, SibBytes(st.ea))), FieldOf(st.ea, OffsetOf(st.oprs[op.op2].ea)))
  }

  /** Whether the prefix gets written. */
  predicate Writes(ops: seq<Op>, st: State, p: Prefix) {
    HasVex(ops) || HasEvex(ops) || (Triggered(ops) && !st.rex.vex && !st.rex.evex && !p.Bare?)
  }

  function WordSeen(ops: seq<Op>, st: State, p: Prefix): Option<bv32> {
    if Writes(ops, st, p) then Some(PrefixWord(p, st.rex)) else None
  }

  /** What one code adds to the view. */
  function LookStep(s: Seen, op: Op, first: bool, st: State, p: Prefix): Seen
    requires OperandOk(op, st.oprs)
  {
    var written := IsVex(op) || (first && !st.rex.vex && !st.rex.evex && !p.Bare?);
    var t := if written then s.(word := Some(PrefixWord(p, st.rex))) else s;
    if IsEa(op) then OperandSeen(t.word, op, st) else t
  }

  lemma LookNothing(s: Seen)
    ensures LookAll(s, []) == s
  {
  }

  lemma LookLast(ops: seq<Op>, st: State, p: Prefix)
    requires ops != [] && OperandsOk(ops, st.oprs)
    ensures var n := |ops| - 1;
      && OperandOk(ops[n], st.oprs) && OperandsOk(ops[..n], st.oprs)
      && LookAll(NOTHING, CodeParts(ops, st, p))
         == LookStep(LookAll(NOTHING, CodeParts(ops[..n], st, p)), ops[n], Triggers(ops[n]) && !Triggered(ops[..n]), st, p)
  {
    hide PrefixWord;
    hide PartsOf;
    hide RexParts;
    hide LookAll;
    var n := |ops| - 1;
    var before, op := ops[..n], ops[n];
    var first, rex := CodeParts(before, st, p), if Triggers(op) && !Triggered(before) then RexParts(st, p) else [];
    var s := LookAll(NOTHING, first);
    LookAppend(NOTHING, first + rex, PartsOf(op, st, p));
    LookAppend(NOTHING, first, rex);
    LookRex(s, st, p);
    LookNothing(s);
    LookCode(LookAll(NOTHING, first + rex), op, st, p);
  }

  lemma NothingSeen(st: State, p: Prefix)
    ensures LookAll(NOTHING, CodeParts([], st, p)) == NOTHING && WordSeen([], st, p) == None
  {
  }

  lemma WordNext(ops: seq<Op>, st: State, p: Prefix, s: Seen)
    requires ops != [] && OperandsOk(ops, st.oprs) && OperandOk(ops[|ops| - 1], st.oprs)
    requires s.word == WordSeen(ops[..|ops| - 1], st, p)
    ensures var op := ops[|ops| - 1];
      LookStep(s, op, Triggers(op) && !Triggered(ops[..|ops| - 1]), st, p).word == WordSeen(ops, st, p)
  {
    HasLast(ops);
    hide PrefixWord;
    hide HasVex;
    hide HasEvex;
    hide Triggered;
    hide OperandsOk;
  }

  /** In all codes, that prefix, */
  lemma {:induction false} LookWord(ops: seq<Op>, st: State, p: Prefix)
    requires OperandsOk(ops, st.oprs)
    ensures LookAll(NOTHING, CodeParts(ops, st, p)).word == WordSeen(ops, st, p)
  {
    hide PrefixWord;
    hide CodeParts;
    hide LookAll;
    hide WordSeen;
    hide LookStep;
    if ops == [] {
      NothingSeen(st, p);
    } else {
      var before := ops[..|ops| - 1];
      LookLast(ops, st, p);
      LookWord(before, st, p);
      WordNext(ops, st, p, LookAll(NOTHING, CodeParts(before, st, p)));
    }
  }

  /** and the one operand. */
  lemma {:induction false} LookOperand(ops: seq<Op>, k: nat, st: State, p: Prefix)
    requires Ordered(ops) && OperandsOk(ops, st.oprs) && k < |ops| && IsEa(ops[k])
    ensures ops[k].op2 < |st.oprs|
    ensures var s := LookAll(NOTHING, CodeParts(ops, st, p)); s == OperandSeen(s.word, ops[k], st)
  {
    hide PrefixWord;
    hide CodeParts;
    hide LookAll;
    var n := |ops| - 1;
    LookLast(ops, st, p);
    OneOperand(ops, st);
    if k < n {
      OrderedPrefix(ops, n);
      LookOperand(ops[..n], k, st, p);
    }
  }

  lemma LookCodes(ops: seq<Op>, k: nat, st: State, p: Prefix)
    requires Ordered(ops) && OperandsOk(ops, st.oprs) && k < |ops| && IsEa(ops[k])
    ensures ops[k].op2 < |st.oprs|
    ensures LookAll(NOTHING, CodeParts(ops, st, p)) == OperandSeen(WordSeen(ops, st, p), ops[k], st)
  {
    hide CodeParts;
    hide LookAll;
    hide WordSeen;
    hide PrefixWord;
    LookWord(ops, st, p);
    LookOperand(ops, k, st, p);
  }

  /** An effective address before the last code is the only one. */
  lemma OneOperand(ops: seq<Op>, st: State)
    requires ops != [] && Ordered(ops) && OperandsOk(ops, st.oprs)
    ensures forall k | 0 <= k < |ops| - 1 && IsEa(ops[k]) :: !IsEa(ops[|ops| - 1]) && !IsVex(ops[|ops| - 1])
    ensures forall k | 0 <= k < |ops| && IsEa(ops[k]) :: ops[k].op2 < |st.oprs|
    ensures OperandOk(ops[|ops| - 1], st.oprs)
  {
    forall k | 0 <= k < |ops| && IsEa(ops[k]) ensures ops[k].op2 < |st.oprs| {
      assert OperandOk(ops[k], st.oprs);
    }
  }

  // ---- A whole instruction ----

  /** Templates of EVEX prefixes have their inverted bits set. */
  predicate TemplatesOk(ops: seq<Op>) {
    forall k | 0 <= k < |ops| && IsEvex(ops[k]) :: |ops[k].args| == 4 && Inverted(TemplateWord(ops[k].args))
  }

  /** The encoding can be read: XOP prefixes have a map of theirs, and a vector index
      leaves the fifth bit of the V field to the index. */
  predicate Readable(ops: seq<Op>, s: Sizing, e: Operand) {
    && (HasVex(ops) ==> 0 <= s.map_ < 256 && MapOk(ByteBits(s.map_)))
    && (HasEvex(ops) && e.MemOperand? && ClassOf(e.ref) != Scalar ==> s.vreg < 16 && s.vimm % 32 < 16)
  }

  /** What reading back an operand comes to: the register, or the address that was written. */
  ghost predicate Restored(e: Operand, d: Decoded, ext: RegExt, ip: int, asize: int) {
    match e
    case RegOperand(reg, _) => d.Direct? && d.rm + (if IsVectorClass(reg.kind) then ext.bregbv else ext.breg) == reg.num
    case MemOperand(r, _) => d.Memory? && forall env: Env :: Address(d, env, ip, asize) == Denoted(r, env, asize)
  }

  predicate ExactOperand(e: Operand, ip: int, m: Mode, c: Context, shift: nat)
    requires shift <= 7
  {
    e.MemOperand? ==> Exact(e.ref, ip, m, c, shift)
  }

  /** The bytes of a displacement are those that the encoder meant. */
  lemma FieldIsDisp(ea: EaData, offset: int, ip: int)
    requires ea.bytes == 0 || ea.bytes == 1 || ea.bytes == 2 || ea.bytes == 4
    ensures FieldBytes(FieldOf(ea, offset), ip) == DispBytes(ea, offset, ip)
  {
  }

  /** The bits of an instruction's flag word are those of its operand. */
  lemma CarriesOperand(ext: RegExt, rex: Rex, ea: Rex)
    requires AddressBits(rex) == AddressBits(ea)
    ensures CarriesDirect(ext, rex) ==> CarriesDirect(ext, ea) && (Carries(ext, rex) ==> Carries(ext, ea))
    ensures rex.bv == ea.bv && rex.xv == ea.xv && rex.x == ea.x && rex.x1 == ea.x1
  {
    assert forall bit :: bit in ADDRESS_BITS ==> (bit in rex.bits <==> bit in AddressBits(rex));
    assert forall bit :: bit in ADDRESS_BITS ==> (bit in ea.bits <==> bit in AddressBits(ea));
  }

  /** An operand that the sizing pass has encoded, read through a prefix that carries the
      flags of the instruction. */
  method ReadOperand(st: State, ghost e: Op, c: Context, ext: RegExt, ip: int, tail: seq<byte>, modrm: byte, sib: seq<byte>, disp: Field)
    returns (op: DisOperand, len: Option<nat>)
    requires EaRead(e, st, c) && CarriesDirect(ext, st.ea.rex)
    requires st.oprs[e.op2].ea.MemOperand? ==> Carries(ext, st.ea.rex)
    requires modrm == st.ea.modrm && sib == SibBytes(st.ea) && disp == FieldOf(st.ea, OffsetOf(st.oprs[e.op2].ea))
    ensures fresh(op)
    ensures ExactOperand(st.oprs[e.op2].ea, ip, Mode(st.bits, st.asize), c, st.shift) ==>
              len.Some? && Restored(st.oprs[e.op2].ea, op.Contents(len.value), ext, ip, st.asize)
  {
    op := new DisOperand();
    var m := Mode(st.bits, st.asize);
    FieldIsDisp(st.ea, OffsetOf(st.oprs[e.op2].ea), ip);
    var data := sib + FieldBytes(disp, ip) + tail;
    len := op.DoEa(data, modrm, m, st.ea.kind, ext, st.shift);
    match st.oprs[e.op2].ea
    case RegOperand(reg, _) =>
    case MemOperand(r, _) =>
      if Exact(r, ip, m, c, st.shift) {
        assert Faithful(r, st.ea, ip, m, st.shift);
        assert DecodeEmitted(st.ea, r.offset, ip, tail, m, ext, st.shift) == DecodeEa(modrm, data, m, st.ea.kind, ext, st.shift);
      }
  }

  /** The fields of the prefix, but for the register bits of the operand: of VEX, the V register,
      the map, the W bit unless it goes with the operand size (`ww`), the vector length and the
      embedded prefix; of EVEX, the same but for W, and the fields that scale displacements;
      of REX, the W of 64-bit operands. */
  predicate FieldsTold(ops: seq<Op>, s: Sizing, e: Operand, f: Fields, ww: bool) {
    && (forall k | 0 <= k < |ops| && IsVex(ops[k]) && !IsEvex(ops[k]) ::
          && f.vreg == s.vreg && 0 <= s.map_ && f.map_ == ByteBits(s.map_) & 31
          && (!ww ==> |ops[k].args| == 2 && (f.w <==> ops[k].args[1] >= 128))
          && |ops[k].args| == 2 && f.l == (ByteBits(ops[k].args[1]) >> 2) & 1 && f.pp == ByteBits(ops[k].args[1]) & 3)
    && (forall k | 0 <= k < |ops| && IsEvex(ops[k]) ::
          && f.b == s.scaling.b && VNumber(f.l) == s.scaling.ll
          && |ops[k].args| == 4 && f.pp == (TemplateWord(ops[k].args) >> 16) & 3
          && f.map_ == (TemplateWord(ops[k].args) >> 8) & 7
          && (s.vimm % 32 == 0 ==> (if HasVectorIndex(e) then f.vregxv else f.vreg) == s.vreg))
    && (!HasVex(ops) && !HasEvex(ops) && s.opfx.PO64? && NoW !in s.marks ==> f.w)
  }

  predicate HasVectorIndex(e: Operand) {
    e.MemOperand? && ClassOf(e.ref) != Scalar
  }

  /** The operand of an effective address, with what the template adds. */
  function OperandOf(s: Sizing, op: Op): Operand {
    if op.op2 < |s.oprs| then s.oprs[op.op2].ea else RegOperand(Reg(Gpr32, 0), false)
  }

  /** What is written has the operand of the code, and the prefix if it is needed. */
  lemma InstructionSeen(insn: Instruction, ops: seq<Op>, k: nat)
    requires insn.Valid() && Ordered(ops) && OperandsOk(ops, insn.oprs) && k < |ops| && IsEa(ops[k])
    requires insn.VexKnown(ops) && (Triggered(ops) || RexLength(insn.Snap()) == 0)
    ensures ops[k].op2 < |insn.oprs|
    ensures var st, p := insn.Snap(), insn.ChosenPrefix();
      LookAll(NOTHING, insn.PrefixParts() + CodeParts(ops, st, p))
      == OperandSeen(if p.Bare? then None else Some(PrefixWord(p, st.rex)), ops[k], st)
  {
    var st, p := insn.Snap(), insn.ChosenPrefix();
    LookLegacy(NOTHING, insn.prefixes, insn.needPfx, insn.core.mode.bits, insn.rex.vex || insn.rex.evex);
    LookAppend(NOTHING, insn.PrefixParts(), CodeParts(ops, st, p));
    LookCodes(ops, k, st, p);
    PrefixNeeded(insn, ops);
  }

  /** The prefix gets written unless there is none. */
  lemma PrefixNeeded(insn: Instruction, ops: seq<Op>)
    requires insn.Valid() && insn.VexKnown(ops) && (Triggered(ops) || RexLength(insn.Snap()) == 0)
    ensures Writes(ops, insn.Snap(), insn.ChosenPrefix()) <==> !insn.ChosenPrefix().Bare?
  {
  }

  /** The flag word asks for the registers of the operand. */
  lemma OperandAlone(ops: seq<Op>, k: nat, st: State, c: Context)
    requires OperandRead(ops, st, c) && k < |ops| && IsEa(ops[k]) && (forall j | 0 <= j < |ops| :: !AddsRegister(ops[j]))
    ensures AddressBits(st.rex) == AddressBits(st.ea.rex) && EaRead(ops[k], st, c)
    ensures TemplatesOk(ops) && HasEvex(ops) ==> TemplateOk(st.evex)
  {
    hide EaRead;
    hide Inverted;
    assert HasEa(ops);
    AllBitsAlone(ops, st.oprs, st.ea);
    if TemplatesOk(ops) && HasEvex(ops) {
      var j :| 0 <= j < |ops| && IsEvex(ops[j]);
      var args := ops[j].args;
      TemplateFirst(ByteBits(args[0]), ByteBits(args[1]), ByteBits(args[2]));
    }
    hide TemplateWord;
  }

  /** A vector index is one of the operand, and a vector register beside it is not. */
  lemma OperandSlots(op: Op, st: State, c: Context, rex: Rex)
    requires EaRead(op, st, c) && AddressBits(rex) == AddressBits(st.ea.rex)
    ensures rex.xv <==> HasVectorIndex(st.oprs[op.op2].ea)
    ensures rex.bv ==> !rex.x && !rex.x1
  {
    hide Faithful;
    hide Exact;
    CarriesOperand(NO_BITS, rex, st.ea.rex);
  }

  /** The state after sizing is the one that was foretold, so the prefix has room. */
  lemma PrefixRoom(insn: Instruction, ops: seq<Op>, k: nat, set_: Setting, g: Given)
    requires var s := SizingAfter(ops, set_, Start(set_, g));
      insn.Foretold(s, set_) && TemplatesOk(ops) && k < |ops| && IsEa(ops[k]) && Readable(ops, s, OperandOf(s, ops[k]))
    requires insn.VexKnown(ops) && RexSettled(insn.rex) && PrefixFits(insn.rex, insn.vexreg)
    requires OperandRead(ops, insn.Snap(), insn.ctx) && (forall j | 0 <= j < |ops| :: !AddsRegister(ops[j]))
    ensures Holds(insn.ChosenPrefix(), insn.rex)
    ensures AddressBits(insn.rex) == AddressBits(insn.core.ea.rex) && EaRead(ops[k], insn.Snap(), insn.ctx)
  {
    hide OperandRead;
    hide EaRead;
    hide TemplatesOk;
    hide TemplateOk;
    hide MapOk;
    hide ByteBits;
    hide Holds;
    hide RexSettled;
    hide PrefixFits;
    hide SizingAfter;
    hide AddressBits;
    MapRange(ops, set_, Start(set_, g));
    OperandAlone(ops, k, insn.Snap(), insn.ctx);
    EaHasOperand(ops[k], insn.Snap(), insn.ctx);
    OperandSlots(ops[k], insn.Snap(), insn.ctx, insn.rex);
    insn.ChosenHolds();
  }

  /** What the chosen prefix keeps is what was foretold. */
  lemma FieldsAreTold(insn: Instruction, ops: seq<Op>, s: Sizing, set_: Setting, e: Operand, f: Fields)
    requires insn.Foretold(s, set_) && insn.VexKnown(ops) && RexSettled(insn.rex) && PrefixFits(insn.rex, insn.vexreg)
    requires insn.WideRex() && OperandRead(ops, insn.Snap(), insn.ctx) && 0 <= s.map_
    requires FieldsKept(insn.ChosenPrefix(), insn.rex, f) && (insn.rex.xv <==> HasVectorIndex(e))
    ensures FieldsTold(ops, s, e, f, insn.temp.ww)
  {
    insn.KnownMatches(ops);
    if insn.rex.evex {
      EvexIsTold(insn, ops, s, set_, e, f);
    } else if insn.rex.vex {
      VexIsTold(insn, ops, s, set_, f);
    }
  }

  lemma VexIsTold(insn: Instruction, ops: seq<Op>, s: Sizing, set_: Setting, f: Fields)
    requires insn.Foretold(s, set_) && insn.VexKnown(ops) && PrefixFits(insn.rex, insn.vexreg) && 0 <= s.map_
    requires OperandRead(ops, insn.Snap(), insn.ctx) && insn.WideRex()
    requires insn.rex.vex && !insn.rex.evex && FieldsKept(insn.ChosenPrefix(), insn.rex, f)
    ensures forall k | 0 <= k < |ops| && IsVex(ops[k]) && !IsEvex(ops[k]) ::
              && f.vreg == s.vreg && f.map_ == ByteBits(s.map_) & 31
              && (!insn.temp.ww ==> |ops[k].args| == 2 && (f.w <==> ops[k].args[1] >= 128))
              && |ops[k].args| == 2 && f.l == (ByteBits(ops[k].args[1]) >> 2) & 1 && f.pp == ByteBits(ops[k].args[1]) & 3
  {
    hide Bits5;
    hide ByteBits;
    hide EaRead;
    Bits5Number(insn.vexreg);
  }

  lemma EvexIsTold(insn: Instruction, ops: seq<Op>, s: Sizing, set_: Setting, e: Operand, f: Fields)
    requires insn.Foretold(s, set_) && insn.VexKnown(ops) && OperandRead(ops, insn.Snap(), insn.ctx)
    requires insn.rex.evex && FieldsKept(insn.ChosenPrefix(), insn.rex, f) && (insn.rex.xv <==> HasVectorIndex(e))
    ensures forall k | 0 <= k < |ops| && IsEvex(ops[k]) ::
              && f.b == s.scaling.b && VNumber(f.l) == s.scaling.ll
              && |ops[k].args| == 4 && f.pp == (TemplateWord(ops[k].args) >> 16) & 3
              && f.map_ == (TemplateWord(ops[k].args) >> 8) & 7
              && (s.vimm % 32 == 0 ==> (if HasVectorIndex(e) then f.vregxv else f.vreg) == s.vreg)
  {
    hide EaRead;
    hide TemplateWord;
    var ll, reg, imm: nat := insn.core.evexLL, insn.vexreg, insn.veximm % 32;
    DecorateKeeps(insn.evex, insn.core.evexB, Bits5(ll));
    Bits5Length(ll);
    Bits5Number(ll);
    Bits5Number(reg);
    if imm == 0 {
      OrZero(Bits5(reg));
      assert Bits5(0) == 0;
    }
    hide Decorate;
    hide Bits5;
  }

  lemma OrZero(b: bv32)
    ensures b | 0 == b
  {
  }

  lemma EaHasOperand(op: Op, st: State, c: Context)
    requires EaRead(op, st, c)
    ensures op.op2 < |st.oprs|
  {
  }

  /** The reg field with its high bits: the register of the other operand, or the digit. */
  predicate FieldTold(op: Op, oprs: seq<Opnd>, field: nat) {
    if op.code.EaReg? then RegAt(oprs, op.op1).Some? && field == RegAt(oprs, op.op1).value.num
    else field == op.c as int % 8
  }

  lemma FieldIsTold(insn: Instruction, op: Op, ops: seq<Op>, set_: Setting, g: Given, ext: RegExt)
    requires insn.Foretold(SizingAfter(ops, set_, Start(set_, g)), set_)
    requires EaRead(op, insn.Snap(), insn.ctx) && CarriesDirect(ext, insn.core.ea.rex)
    ensures FieldTold(op, g.oprs, insn.core.ea.modrm as nat / 8 % 8 + ext.rreg)
  {
    RegistersStay(ops, set_, Start(set_, g));
    hide SizingAfter;
    hide Faithful;
    hide Exact;
    hide RepresentsDirect;
    if op.code.EaReg? {
      FieldNumber(insn.core.ea, insn.oprs[op.op1].reg, ext);
    } else {
      FieldNumber(insn.core.ea, None, ext);
    }
  }

  /** Three bits of a register number, and two from the prefix. */
  lemma FieldNumber(ea: EaData, reg: Option<Register>, ext: RegExt)
    requires CarriesDirect(ext, ea.rex)
    ensures reg.Some? && Framed(ea, reg.value.num, reg) ==> ea.modrm as nat / 8 % 8 + ext.rreg == reg.value.num
    ensures reg.None? ==> forall n: nat | n < 8 && Framed(ea, n, None) :: ea.modrm as nat / 8 % 8 + ext.rreg == n
  {
  }

  /** What the reader makes of the prefix is what was foretold. */
  lemma PrefixIsTold(insn: Instruction, ops: seq<Op>, k: nat, set_: Setting, g: Given)
    requires var s := SizingAfter(ops, set_, Start(set_, g));
      insn.Foretold(s, set_) && TemplatesOk(ops) && k < |ops| && IsEa(ops[k]) && Readable(ops, s, OperandOf(s, ops[k]))
    requires insn.VexKnown(ops) && RexSettled(insn.rex) && PrefixFits(insn.rex, insn.vexreg) && insn.WideRex()
    requires OperandRead(ops, insn.Snap(), insn.ctx) && (forall j | 0 <= j < |ops| :: !AddsRegister(ops[j]))
    ensures EaRead(ops[k], insn.Snap(), insn.ctx) && ReadBack(insn.ChosenPrefix(), insn.rex).Some?
    ensures var s, st, f := SizingAfter(ops, set_, Start(set_, g)), insn.Snap(), ReadBack(insn.ChosenPrefix(), insn.rex).value;
      && CarriesDirect(f.ext, st.ea.rex) && ops[k].op2 < |st.oprs| && st.oprs[ops[k].op2].ea == OperandOf(s, ops[k])
      && (st.oprs[ops[k].op2].ea.MemOperand? ==> Carries(f.ext, st.ea.rex))
      && FieldsTold(ops, s, OperandOf(s, ops[k]), f, insn.temp.ww)
      && FieldTold(ops[k], g.oprs, st.ea.modrm as nat / 8 % 8 + f.ext.rreg)
  {
    hide FieldsTold;
    hide FieldTold;
    hide OperandRead;
    hide TemplatesOk;
    hide Readable;
    hide Exact;
    hide Faithful;
    hide AddressBits;
    hide RexSettled;
    hide PrefixFits;
    hide SizingAfter;
    hide FieldsKept;
    hide ReadBack;
    hide Holds;
    hide FieldSet;
    hide RepresentsDirect;
    var s, st := SizingAfter(ops, set_, Start(set_, g)), insn.Snap();
    PrefixRoom(insn, ops, k, set_, g);
    PrefixCarries(insn.ChosenPrefix(), insn.rex);
    var f := ReadBack(insn.ChosenPrefix(), insn.rex).value;
    CarriesOperand(f.ext, insn.rex, st.ea.rex);
    OperandSlots(ops[k], st, insn.ctx, insn.rex);
    MapRange(ops, set_, Start(set_, g));
    FieldsAreTold(insn, ops, s, set_, OperandOf(s, ops[k]), f);
    FieldIsTold(insn, ops[k], ops, set_, g, f.ext);
  }

  /** The prefix that was found, if there was one. */
  function ReadFound(word: Option<bv32>): Option<Fields> {
    if word.Some? then ReadWord(word.value) else Some(NO_FIELDS)
  }

  /** All that a reader makes of the output, by what was foretold: the prefix carries the
      registers and has the fields, and ModRM, SIB and displacement are those of the operand. */
  ghost predicate ReadAs(ops: seq<Op>, e: Op, s: Sizing, st: State, c: Context, seen: Seen, oprs: seq<Opnd>, ww: bool) {
    && EaRead(e, st, c) && st.asize == s.asize && st.shift == s.scaling.Shift()
    && ReadFound(seen.word).Some? && seen.modrm == Some((st.ea.modrm, SibBytes(st.ea)))
    && e.op2 < |st.oprs| && st.oprs[e.op2].ea == OperandOf(s, e)
    && seen.disp == FieldOf(st.ea, OffsetOf(st.oprs[e.op2].ea))
    && var f := ReadFound(seen.word).value;
    && CarriesDirect(f.ext, st.ea.rex) && (st.oprs[e.op2].ea.MemOperand? ==> Carries(f.ext, st.ea.rex))
    && FieldsTold(ops, s, OperandOf(s, e), f, ww)
    && FieldTold(e, oprs, st.ea.modrm as nat / 8 % 8 + f.ext.rreg)
  }

  lemma OutputIsTold(insn: Instruction, ops: seq<Op>, k: nat, set_: Setting, g: Given)
    requires insn.Valid() && Ordered(ops) && OperandsOk(ops, insn.oprs) && (Triggered(ops) || RexLength(insn.Snap()) == 0)
    requires var s := SizingAfter(ops, set_, Start(set_, g));
      insn.Foretold(s, set_) && TemplatesOk(ops) && k < |ops| && IsEa(ops[k]) && Readable(ops, s, OperandOf(s, ops[k]))
    requires insn.VexKnown(ops) && RexSettled(insn.rex) && PrefixFits(insn.rex, insn.vexreg) && insn.WideRex()
    requires OperandRead(ops, insn.Snap(), insn.ctx) && (forall j | 0 <= j < |ops| :: !AddsRegister(ops[j]))
    ensures ReadAs(ops, ops[k], SizingAfter(ops, set_, Start(set_, g)), insn.Snap(), insn.ctx,
                   LookAll(NOTHING, insn.PrefixParts() + CodeParts(ops, insn.Snap(), insn.ChosenPrefix())), g.oprs, insn.temp.ww)
  {
    hide SizingAfter;
    hide FieldsTold;
    hide FieldTold;
    hide EaRead;
    hide OperandRead;
    hide TemplatesOk;
    hide Readable;
    hide RexSettled;
    hide PrefixFits;
    hide CodeParts;
    hide LookAll;
    hide PrefixWord;
    hide ReadWord;
    hide Ordered;
    InstructionSeen(insn, ops, k);
    PrefixIsTold(insn, ops, k, set_, g);
  }

  /** Reads the prefix, the reg field and the operand. */
  method ReadSeen(seen: Seen, st: State, c: Context, ip: int, tail: seq<byte>, ghost ops: seq<Op>, ghost e: Op, ghost s: Sizing,
                  ghost oprs: seq<Opnd>, ghost ww: bool)
    returns (f: Fields, field: nat, op: DisOperand, len: Option<nat>)
    requires ReadAs(ops, e, s, st, c, seen, oprs, ww)
    ensures fresh(op)
    ensures ExactOperand(OperandOf(s, e), ip, Mode(st.bits, s.asize), c, s.scaling.Shift()) ==>
              len.Some? && Restored(OperandOf(s, e), op.Contents(len.value), f.ext, ip, s.asize)
    ensures FieldsTold(ops, s, OperandOf(s, e), f, ww) && FieldTold(e, oprs, field)
  {
    hide FieldsTold;
    hide FieldTold;
    hide EaRead;
    hide Exact;
    hide Faithful;
    hide Restored;
    hide ReadFound;
    f := ReadFound(seen.word).value;
    field := seen.modrm.value.0 as nat / 8 % 8 + f.ext.rreg;
    op, len := ReadOperand(st, e, c, f.ext, ip, tail, seen.modrm.value.0, seen.modrm.value.1, seen.disp);
  }

  /** Assembles an instruction and reads its operand back from what was written. The
      instruction table is to have proper templates, and no register bits from other codes
      beside an effective address. If the check on the length passes and the operand is
      exact, in the mode and with the scaling that the codes call for, the disassembler finds
      the register, or the written address. */
  method AssembleAndRead(insn: Instruction, codes: seq<byte>, data: Sink, times: nat, ghost ops: seq<Op>, ghost k: nat,
                         ip: int, tail: seq<byte>)
    returns (ok: bool, agreed: bool, f: Fields, field: nat, op: DisOperand, len: Option<nat>)
    requires insn.Valid() && Spells(codes, ops) && Ordered(ops) && OperandsOk(ops, insn.oprs)
    requires insn.resBytes != 0 ==> ResbCount(ops) == 1
    requires k < |ops| && IsEa(ops[k]) && TemplatesOk(ops) && (forall j | 0 <= j < |ops| :: !AddsRegister(ops[j]))
    requires Readable(ops, insn.SizingOf(ops), OperandOf(insn.SizingOf(ops), ops[k]))
    modifies insn, insn.core, data
    ensures var s, bits := old(insn.SizingOf(ops)), old(insn.core.mode.bits);
      var e := OperandOf(s, ops[k]);
      ok && agreed && ExactOperand(e, ip, Mode(bits, s.asize), insn.ctx, s.scaling.Shift()) ==>
        len.Some? && Restored(e, op.Contents(len.value), f.ext, ip, s.asize)
    ensures ok && agreed ==>
              FieldsTold(ops, old(insn.SizingOf(ops)), OperandOf(old(insn.SizingOf(ops)), ops[k]), f, insn.temp.ww)
    ensures ok && agreed ==> FieldTold(ops[k], old(insn.oprs), field)
  {
    ghost var s, set_, g := insn.SizingOf(ops), insn.SettingOf(), insn.GivenNow();
    hide SizingAfter;
    hide FieldsTold;
    hide FieldTold;
    hide ReadAs;
    hide OperandRead;
    hide TemplatesOk;
    hide Readable;
    hide ExactOperand;
    hide Restored;
    hide CodeParts;
    hide LookAll;
    hide PrefixFits;
    hide RexSettled;
    op := new DisOperand();
    len, f, field := None, NO_FIELDS, 0;
    var length, times2;
    ok, agreed, length, times2 := insn.Assemble(codes, data, times, ops);
    if ok && agreed {
      OutputIsTold(insn, ops, k, set_, g);
      f, field, op, len := ReadSeen(LookAll(NOTHING, data.parts), insn.Snap(), insn.ctx, ip, tail, ops, ops[k], s, g.oprs, insn.temp.ww);
    }
  }

  // ---- A register in the opcode ----

  /** The bytes that hold register numbers or lengths of jumps. */
  function Raws(parts: seq<Part>): seq<byte> {
    if parts == [] then []
    else
      var n := |parts| - 1;
      Raws(parts[..n]) + (if parts[n].Raw? then [parts[n].b] else [])
  }

  lemma {:induction false} RawsAppend(a: seq<Part>, b: seq<Part>)
    ensures Raws(a + b) == Raws(a) + Raws(b)
    decreases |b|
  {
    if b == [] {
      assert a + b == a;
    } else {
      var n := |b| - 1;
      RawsAppend(a, b[..n]);
      assert (a + b)[..|a + b| - 1] == a + b[..n];
    }
  }

  lemma {:induction false} NoRaws(parts: seq<Part>)
    requires forall k | 0 <= k < |parts| :: !parts[k].Raw?
    ensures Raws(parts) == []
  {
    if parts != [] {
      NoRaws(parts[..|parts| - 1]);
    }
  }

  lemma {:induction false} LegacyRaws(prefixes: seq<Pfx>, need: seq<int>, bits: int, vexed: bool)
    requires |prefixes| == |need|
    ensures forall k | 0 <= k < |LegacyParts(prefixes, need, bits, vexed)| :: !LegacyParts(prefixes, need, bits, vexed)[k].Raw?
  {
    if prefixes != [] {
      var n := |prefixes| - 1;
      LegacyRaws(prefixes[..n], need[..n], bits, vexed);
      hide SlotByte;
    }
  }

  lemma OpRaws(op: Op, st: State, p: Prefix)
    requires OperandOk(op, st.oprs)
    ensures Raws(PartsOf(op, st, p)) == if RawByte(op, st).Some? then [RawByte(op, st).value] else []
    ensures Raws(RexParts(st, p)) == []
  {
    assert op.code.Literal? ==> RawByte(op, st).None?;
    hide PrefixWord;
    hide EmitLength;
    hide RawByte;
    NoRaws(RexParts(st, p));
    if RawByte(op, st).Some? && !op.code.Literal? {
      assert Raws([]) == [] && [Raw(RawByte(op, st).value)][..0] == [];
    } else {
      NoRaws(PartsOf(op, st, p));
    }
  }

  /** If one code alone writes such a byte, it is the only one. */
  lemma {:induction false} OneRaw(ops: seq<Op>, k: nat, st: State, p: Prefix)
    requires OperandsOk(ops, st.oprs) && k < |ops|
    requires forall j | 0 <= j < |ops| && j != k :: RawByte(ops[j], st).None?
    requires RawByte(ops[k], st).Some?
    ensures Raws(CodeParts(ops, st, p)) == [RawByte(ops[k], st).value]
  {
    hide RawByte;
    hide CodeParts;
    hide Raws;
    hide OperandOk;
    var n := |ops| - 1;
    RawsLast(ops, st, p);
    if k < n {
      OneRaw(ops[..n], k, st, p);
    } else {
      NothingRaw(ops[..n], st, p);
    }
  }

  lemma {:induction false} NothingRaw(ops: seq<Op>, st: State, p: Prefix)
    requires OperandsOk(ops, st.oprs) && forall j | 0 <= j < |ops| :: RawByte(ops[j], st).None?
    ensures Raws(CodeParts(ops, st, p)) == []
  {
    if ops != [] {
      RawsLast(ops, st, p);
      hide RawByte;
      NothingRaw(ops[..|ops| - 1], st, p);
    }
  }

  lemma RawsLast(ops: seq<Op>, st: State, p: Prefix)
    requires ops != [] && OperandsOk(ops, st.oprs)
    ensures var n := |ops| - 1;
      && OperandOk(ops[n], st.oprs) && OperandsOk(ops[..n], st.oprs)
      && Raws(CodeParts(ops, st, p))
         == Raws(CodeParts(ops[..n], st, p)) + (if RawByte(ops[n], st).Some? then [RawByte(ops[n], st).value] else [])
  {
    var n := |ops| - 1;
    var before, op := ops[..n], ops[n];
    var first, rex := CodeParts(before, st, p), if Triggers(op) && !Triggered(before) then RexParts(st, p) else [];
    RawsAppend(first + rex, PartsOf(op, st, p));
    RawsAppend(first, rex);
    OpRaws(op, st, p);
    hide RawByte;
    hide PartsOf;
    hide RexParts;
  }

  /** One code of a template puts a register into its opcode, and no other names registers. */
  predicate OpcodeRegisterOnly(ops: seq<Op>, k: nat) {
    && k < |ops| && ops[k].code.RegAdd? && |ops[k].args| == 1 && ops[k].args[0] as int % 8 == 0
    && forall j | 0 <= j < |ops| && j != k :: !AddsRegister(ops[j]) && !IsEa(ops[j]) && !IsVex(ops[j]) && !ops[j].code.Jlen?
                                             && !ops[j].code.Is4? && !ops[j].code.Is4Const?
  }

  lemma {:induction false} OpcodeBits(ops: seq<Op>, k: nat, oprs: seq<Opnd>, ea: EaData)
    requires OpcodeRegisterOnly(ops, k)
    ensures AllBits(ops, oprs, ea) == AddressBits(RexFlags(RegAt(oprs, ops[k].op1), SlotB))
    decreases |ops|
  {
    var n := |ops| - 1;
    if k < n {
      OpcodeBits(ops[..n], k, oprs, ea);
    } else {
      AllBitsAlone(ops[..n], oprs, ea);
      assert !HasEa(ops[..n]);
    }
  }

  lemma SlotBBits(reg: Register, rex: Rex)
    requires AddressBits(rex) == AddressBits(RexFlags(Some(reg), SlotB))
    ensures !rex.x && !rex.x1 && !rex.xv && !rex.r && !rex.r1 && !rex.rv
    ensures rex.bv == IsVectorClass(reg.kind) && HighBits(rex.b, rex.b1) + reg.num % 8 == reg.num
  {
    var f := RexFlags(Some(reg), SlotB);
    OwnSlotOnly(Some(reg), SlotB);
    assert forall bit :: bit in ADDRESS_BITS ==> (bit in rex.bits <==> bit in AddressBits(rex));
    assert forall bit :: bit in ADDRESS_BITS ==> (bit in f.bits <==> bit in AddressBits(f));
  }

  /** The prefix carries the high bits of the register. */
  lemma RegisterPrefix(insn: Instruction, ops: seq<Op>, k: nat, set_: Setting, g: Given)
    requires insn.Valid() && OperandsOk(ops, insn.oprs) && OpcodeRegisterOnly(ops, k) && insn.VexKnown(ops)
    requires RexSettled(insn.rex) && PrefixFits(insn.rex, insn.vexreg) && OperandRead(ops, insn.Snap(), insn.ctx)
    requires insn.Foretold(SizingAfter(ops, set_, Start(set_, g)), set_)
    ensures RegAt(insn.oprs, ops[k].op1) == RegAt(g.oprs, ops[k].op1) && RegAt(insn.oprs, ops[k].op1).Some?
    ensures ReadBack(insn.ChosenPrefix(), insn.rex).Some?
    ensures var reg, ext := RegAt(insn.oprs, ops[k].op1).value, ReadBack(insn.ChosenPrefix(), insn.rex).value.ext;
      reg.num == reg.num % 8 + (if IsVectorClass(reg.kind) then ext.bregbv else ext.breg)
  {
    hide SizingAfter;
    hide EaRead;
    hide AddressBits;
    hide RexSettled;
    hide PrefixFits;
    hide ReadBack;
    hide Holds;
    hide AllBits;
    assert OperandOk(ops[k], insn.oprs);
    RegistersStay(ops, set_, Start(set_, g));
    MapRange(ops, set_, Start(set_, g));
    OpcodeBits(ops, k, insn.oprs, insn.core.ea);
    SlotBBits(insn.oprs[ops[k].op1].reg.value, insn.rex);
    assert !HasVex(ops) && !HasEvex(ops);
    insn.ChosenHolds();
    PrefixCarries(insn.ChosenPrefix(), insn.rex);
  }

  /** The prefix is the one that was written, and the byte the only one of its kind. */
  lemma RegisterSeen(insn: Instruction, ops: seq<Op>, k: nat)
    requires insn.Valid() && OperandsOk(ops, insn.oprs) && OpcodeRegisterOnly(ops, k) && insn.VexKnown(ops)
    ensures OperandOk(ops[k], insn.oprs)
    ensures var st, p := insn.Snap(), insn.ChosenPrefix(); var parts := insn.PrefixParts() + CodeParts(ops, st, p);
      && LookAll(NOTHING, parts).word == (if p.Bare? then None else Some(PrefixWord(p, st.rex)))
      && Raws(parts) == [RawByte(ops[k], st).value]
  {
    var st, p := insn.Snap(), insn.ChosenPrefix();
    assert Triggers(ops[k]) && OperandOk(ops[k], insn.oprs);
    assert forall j | 0 <= j < |ops| && j != k :: OperandOk(ops[j], insn.oprs);
    LegacyRaws(insn.prefixes, insn.needPfx, insn.core.mode.bits, insn.rex.vex || insn.rex.evex);
    NoRaws(insn.PrefixParts());
    RawsAppend(insn.PrefixParts(), CodeParts(ops, st, p));
    OneRaw(ops, k, st, p);
    LookLegacy(NOTHING, insn.prefixes, insn.needPfx, insn.core.mode.bits, insn.rex.vex || insn.rex.evex);
    LookAppend(NOTHING, insn.PrefixParts(), CodeParts(ops, st, p));
    LookWord(ops, st, p);
    PrefixNeeded(insn, ops);
  }

  lemma OpcodeNumber(op: Op, st: State)
    requires op.code.RegAdd? && OperandOk(op, st.oprs) && op.args[0] as int % 8 == 0
    ensures RawByte(op, st).Some? && op.op1 < |st.oprs|
    ensures var b, reg := RawByte(op, st).value as int, st.oprs[op.op1].reg.value;
      b / 8 * 8 == op.args[0] as int && b % 8 == reg.num % 8
  {
  }

  /** Reading finds the register. */
  lemma RegisterTold(insn: Instruction, ops: seq<Op>, k: nat, set_: Setting, g: Given)
    requires insn.Valid() && OperandsOk(ops, insn.oprs) && OpcodeRegisterOnly(ops, k) && insn.VexKnown(ops)
    requires RexSettled(insn.rex) && PrefixFits(insn.rex, insn.vexreg) && OperandRead(ops, insn.Snap(), insn.ctx)
    requires insn.Foretold(SizingAfter(ops, set_, Start(set_, g)), set_)
    ensures var parts, p := insn.PrefixParts() + CodeParts(ops, insn.Snap(), insn.ChosenPrefix()), insn.ChosenPrefix();
      && LookAll(NOTHING, parts).word == (if p.Bare? then None else Some(PrefixWord(p, insn.rex)))
      && ReadBack(p, insn.rex).Some? && |Raws(parts)| == 1 && RegAt(g.oprs, ops[k].op1).Some?
      && var reg, ext, b := RegAt(g.oprs, ops[k].op1).value, ReadBack(p, insn.rex).value.ext, Raws(parts)[0] as int;
      && b / 8 * 8 == ops[k].args[0] as int
      && reg.num == b % 8 + (if IsVectorClass(reg.kind) then ext.bregbv else ext.breg)
  {
    hide SizingAfter;
    hide OperandRead;
    hide RexSettled;
    hide PrefixFits;
    hide ReadBack;
    hide PrefixWord;
    hide CodeParts;
    hide RawByte;
    hide Raws;
    hide LookAll;
    RegisterSeen(insn, ops, k);
    RegisterPrefix(insn, ops, k, set_, g);
    OpcodeNumber(ops[k], insn.Snap());
  }

  /** Assembles an instruction whose opcode byte holds a register, and reads its number back:
      three bits from the byte, the others from the prefix. */
  method AssembleAndReadRegister(insn: Instruction, codes: seq<byte>, data: Sink, times: nat, ghost ops: seq<Op>, ghost k: nat)
    returns (ok: bool, agreed: bool, f: Fields, opcode: byte)
    requires insn.Valid() && Spells(codes, ops) && Ordered(ops) && OperandsOk(ops, insn.oprs)
    requires insn.resBytes != 0 ==> ResbCount(ops) == 1
    requires OpcodeRegisterOnly(ops, k)
    modifies insn, insn.core, data
    ensures ok && agreed ==> RegAt(old(insn.oprs), ops[k].op1).Some?
    ensures ok && agreed ==> var reg := RegAt(old(insn.oprs), ops[k].op1).value;
      && opcode as int / 8 * 8 == ops[k].args[0] as int
      && reg.num == opcode as int % 8 + (if IsVectorClass(reg.kind) then f.ext.bregbv else f.ext.breg)
  {
    ghost var set_, g := insn.SettingOf(), insn.GivenNow();
    hide SizingAfter;
    hide OperandRead;
    hide CodeParts;
    hide RawByte;
    hide Raws;
    hide LookAll;
    hide RegAt;
    f, opcode := NO_FIELDS, 0;
    var length, times2;
    ok, agreed, length, times2 := insn.Assemble(codes, data, times, ops);
    if ok && agreed {
      RegisterTold(insn, ops, k, set_, g);
      var word := LookAll(NOTHING, data.parts).word;
      f := ReadFound(word).value;
      opcode := Raws(data.parts)[0];
    }
  }

  // ---- The legacy prefixes of a whole instruction ----

  /** There are no legacy prefixes after the first ones. */
  lemma {:induction false} NoLegacy(i: Info, parts: seq<Part>)
    requires forall k | 0 <= k < |parts| :: !parts[k].Legacy?
    ensures ReadParts(i, parts) == i
  {
    if parts != [] {
      NoLegacy(i, parts[..|parts| - 1]);
    }
  }

  lemma PartsNoLegacy(op: Op, st: State, p: Prefix)
    requires OperandOk(op, st.oprs)
    ensures forall k | 0 <= k < |PartsOf(op, st, p)| :: !PartsOf(op, st, p)[k].Legacy?
    ensures forall k | 0 <= k < |RexParts(st, p)| :: !RexParts(st, p)[k].Legacy?
  {
    hide PrefixWord;
    hide EmitLength;
  }

  lemma {:induction false} CodesNoLegacy(ops: seq<Op>, st: State, p: Prefix)
    requires OperandsOk(ops, st.oprs)
    ensures forall k | 0 <= k < |CodeParts(ops, st, p)| :: !CodeParts(ops, st, p)[k].Legacy?
  {
    if ops != [] {
      CodesNoLegacy(ops[..|ops| - 1], st, p);
      PartsNoLegacy(ops[|ops| - 1], st, p);
      hide PartsOf;
      hide RexParts;
    }
  }

  lemma SpelledCoded(codes: seq<byte>, ops: seq<Op>)
    requires Spells(codes, ops)
    ensures Coded(ops)
  {
  }

  /** What the slots at the end come to in the reader's view. */
  ghost predicate SlotsTold(ops: seq<Op>, t: Slots, set_: Setting, g: Given, f: Slots, vexed: bool, i: Info)
    requires |t.pfx| == |t.need| == |f.pfx| == SLOTS
  {
    var s := SizingAfter(ops, set_, Start(set_, g));
    && i.wait == f.pfx[WAIT].PWait? && i.lock == f.pfx[LOCK].PLock? && i.seg == SegOf(f.pfx[SEG])
    && (!vexed ==> RepTold(ops, f.pfx[REP], i) && OspTold(ops, s.opfx, i))
    && (!vexed && t.need[OSIZE] == 0 ==> OsizeTold(ops, g.opfx, set_.bits, s.osize, i))
    && (vexed ==> i.rep == 0 && (i.osp ==> s.opfx.PO64?))
    && (IsSilent(ops, AspCode) && t.need[ASIZE] == 0 && AsizeOf(t.pfx[ASIZE], set_.bits) == g.asize ==>
          i.Asize(set_.bits) == s.asize)
  }

  lemma SlotsAreTold(ops: seq<Op>, t: Slots, set_: Setting, g: Given, f: Slots, bnd: bool, hint: bool, vexed: bool)
    requires Coded(ops) && t.Valid() && |t.pfx| == |t.need| == SLOTS && IsMode(set_.bits) && IsOsizePrefix(g.opfx)
    requires AsizesSettled(ops, t, set_.bits) && IsOsizePrefix(SizingAfter(ops, set_, Start(set_, g)).opfx)
    requires f == FinalSlots(ops, t, SizingAfter(ops, set_, Start(set_, g)).opfx, bnd, hint)
    ensures |f.pfx| == |f.need| == SLOTS
    ensures SlotsTold(ops, t, set_, g, f, vexed, ReadParts(NO_PREFIX, LegacyParts(f.pfx, f.need, set_.bits, vexed)))
  {
    var s0 := Start(set_, g);
    var s := SizingAfter(ops, set_, s0);
    var i := ReadParts(NO_PREFIX, LegacyParts(f.pfx, f.need, set_.bits, vexed));
    FinalValid(ops, t, s.opfx, bnd, hint);
    SlotsRead(f.pfx, f.need, set_.bits, vexed);
    hide LegacyParts;
    hide ReadParts;
    hide SlotsAfter;
    hide SizingAfter;
    hide SettledSlots;
    hide AsizesSettled;
    hide Coded;
    hide RepTold;
    hide OspTold;
    hide OsizeTold;
    hide Typed;
    hide NeedTyped;
    if !vexed {
      RepIsTold(ops, t, f.pfx[REP], i);
      OspIsTold(ops, t, s.opfx, set_.bits, i);
      if t.need[OSIZE] == 0 {
        OsizeIsTold(ops, t, set_, s0, i);
      }
    }
    if IsSilent(ops, AspCode) && t.need[ASIZE] == 0 && AsizeOf(t.pfx[ASIZE], set_.bits) == g.asize {
      NothingNeeded(ops, t);
      AsizesTold(ops, set_, s0, t);
    }
  }

  /** Assembles an instruction and reads its legacy prefixes back. Without a prefix of the
      programmer's, the reader finds the F2, F3 or 66 that the codes ask for, and none that
      they forbid; it finds the operand size that they ask for, and the address size. */
  method AssembleAndReadPrefixes(insn: Instruction, codes: seq<byte>, data: Sink, times: nat, ghost ops: seq<Op>)
    returns (ok: bool, info: Info)
    requires insn.Valid() && Spells(codes, ops) && Ordered(ops) && OperandsOk(ops, insn.oprs)
    requires insn.resBytes != 0 ==> ResbCount(ops) == 1
    requires insn.SlotsNow().Valid()
    modifies insn, insn.core, data
    ensures |old(insn.SlotsNow()).pfx| == |old(insn.SlotsNow()).need| == SLOTS
    ensures ok ==>
      var t, set_, g := old(insn.SlotsNow()), old(insn.SettingOf()), old(insn.GivenNow());
      var f := FinalSlots(ops, t, old(insn.SizingOf(ops)).opfx, insn.cpu.defaultBnd && insn.temp.bnd, insn.temp.jccHint);
      |f.pfx| == SLOTS && SlotsTold(ops, t, set_, g, f, HasVex(ops) || HasEvex(ops), info)
  {
    ghost var t, set_, g := insn.SlotsNow(), insn.SettingOf(), insn.GivenNow();
    NeedShape(t);
    var agreed, length, times2;
    ok, agreed, length, times2 := insn.Assemble(codes, data, times, ops);
    info := NO_PREFIX;
    if ok {
      info := ReadParts(NO_PREFIX, data.parts);
      PrefixesFound(insn, codes, ops, t, set_, g);
    }
  }

  /** The parts that were written tell of the slots. */
  lemma PrefixesFound(insn: Instruction, codes: seq<byte>, ops: seq<Op>, t: Slots, set_: Setting, g: Given)
    requires insn.Valid() && Spells(codes, ops) && OperandsOk(ops, insn.oprs) && insn.VexKnown(ops)
    requires t.Valid() && |t.pfx| == |t.need| == SLOTS && IsOsizePrefix(g.opfx)
    requires insn.Foretold(SizingAfter(ops, set_, Start(set_, g)), set_)
    requires insn.SlotsSettled(SlotsAfter(ops, t)) && AsizesSettled(ops, t, insn.core.mode.bits)
    ensures var f := FinalSlots(ops, t, SizingAfter(ops, set_, Start(set_, g)).opfx, insn.cpu.defaultBnd && insn.temp.bnd,
                                insn.temp.jccHint);
      && |f.pfx| == SLOTS
      && SlotsTold(ops, t, set_, g, f, HasVex(ops) || HasEvex(ops),
                   ReadParts(NO_PREFIX, insn.PrefixParts() + CodeParts(ops, insn.Snap(), insn.ChosenPrefix())))
  {
    var st, p := insn.Snap(), insn.ChosenPrefix();
    SpelledCoded(codes, ops);
    CodesNoLegacy(ops, st, p);
    hide Spells;
    hide CodeParts;
    hide SlotsTold;
    hide SizingAfter;
    hide SlotsAfter;
    hide AsizesSettled;
    hide SettledSlots;
    hide Typed;
    hide NeedTyped;
    NoLegacy(ReadParts(NO_PREFIX, insn.PrefixParts()), CodeParts(ops, st, p));
    ReadAppend(NO_PREFIX, insn.PrefixParts(), CodeParts(ops, st, p));
    var f := Slots(insn.prefixes, insn.needPfx);
    SlotsAreTold(ops, t, set_, g, f, insn.cpu.defaultBnd && insn.temp.bnd, insn.temp.jccHint, insn.rex.vex || insn.rex.evex);
  }
}
