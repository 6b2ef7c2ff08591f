/** The instruction bytecode (x86/bytecode.txt): its shape, what each code
    emits, and when the sizing pass and the emitting pass must agree. */
module Bytecode {
  import opened Basics
  import opened Registers
  import opened EaDecoding
  import opened EaEncoding
  import opened Prefixes

  /** The codes, by mnemonic; `Extend` is the prefix for operands 4 and up. */
  datatype Code =
    | End | Literal | Extend | RegAdd | MibIndex | Ib | IbU | Iw | Iwd | Id | Iwdq | Rel8 | Iq | Rel16 | Rel
    | Rel32 | SegWord | EaReg | Mrb | Is4Imm | Is4Const | Is4 | EaDigit | Evex | EvexNoV | IdS | Vex | IdU
    | VexNoV | Hle | IbS | HintNop | IbXor | A16 | A32 | Adf | A64 | NoRex | O16 | O32 | Odf | O64nw | O64
    | NoHi | NoF3 | Nw | Osz | NoRep | F2 | F3 | RexL | Repe | OptW | OptD | Resb | Wait | Osm | RexB | RexX
    | RexR | RexW | Rex2 | Rex2W | Map | Np | P66 | NoOsp | NoAsp | Osp | P67 | Jcc8 | Jmp8 | Jlen | VsibX
    | VsibY | VsibZ | Bad

  function Decode(c: byte): Code {
    if c < 64 then Decode0(c)
    else if c < 128 then Decode1(c)
    else if c < 192 then Decode2(c)
    else if c < 224 then Decode3(c)
    else Decode4(c)
  }

  function Decode0(c: byte): Code {
    if c == 0 then End
    else if c <= 4 then Literal
    else if c <= 7 then Extend
    else if 8 <= c < 12 then RegAdd // \10..\13
    else if 12 <= c < 16 then MibIndex // \14..\17
    else if 16 <= c < 20 then Ib // \20..\23
    else if 20 <= c < 24 then IbU // \24..\27
    else if 24 <= c < 28 then Iw // \30..\33
    else if 28 <= c < 32 then Iwd // \34..\37
    else if 32 <= c < 36 then Id // \40..\43
    else if 36 <= c < 40 then Iwdq // \44..\47
    else if 40 <= c < 44 then Rel8 // \50..\53
    else if 44 <= c < 48 then Iq // \54..\57
    else if 48 <= c < 52 then Rel16 // \60..\63
    else if 52 <= c < 56 then Rel // \64..\67
    else if 56 <= c < 60 then Rel32 // \70..\73
    else if 60 <= c < 64 then SegWord // \74..\77
    else Bad
  }

  function Decode1(c: byte): Code {
    if 64 <= c < 68 then EaReg // \100..\103
    else if 72 <= c < 76 then EaReg // \110..\113
    else if 80 <= c < 84 then EaReg // \120..\123
    else if 88 <= c < 92 then EaReg // \130..\133
    else if c == 121 then Mrb // \171
    else if c == 122 then Is4Imm // \172
    else if c == 123 then Is4Const // \173
    else if 124 <= c < 128 then Is4 // \174..\177
    else Bad
  }

  function Decode2(c: byte): Code {
    if 128 <= c < 160 then EaDigit // \200..\237
    else if 160 <= c < 164 then Evex // \240..\243
    else if c == 168 then EvexNoV // \250
    else if 172 <= c < 176 then IdS // \254..\257
    else if 176 <= c < 180 then Vex // \260..\263
    else if 180 <= c < 184 then IdU // \264..\267
    else if c == 184 then VexNoV // \270
    else if 185 <= c < 188 then Hle // \271..\273
    else if 188 <= c < 192 then IbS // \274..\277
    else Bad
  }

  function Decode3(c: byte): Code {
    if 192 <= c < 196 then HintNop // \300..\303
    else if 196 <= c < 200 then IbXor // \304..\307
    else if c == 200 then A16 // \310
    else if c == 201 then A32 // \311
    else if c == 202 then Adf // \312
    else if c == 203 then A64 // \313
    else if 204 <= c < 208 then NoRex // \314..\317
    else if c == 208 then O16 // \320
    else if c == 209 then O32 // \321
    else if c == 210 then Odf // \322
    else if c == 211 then O64nw // \323
    else if c == 212 then O64 // \324
    else if c == 213 then NoHi // \325
    else if c == 214 then NoF3 // \326
    else if c == 215 then Nw // \327
    else if c == 216 then Osz // \330
    else if c == 217 then NoRep // \331
    else if c == 218 then F2 // \332
    else if c == 219 then F3 // \333
    else if c == 220 then RexL // \334
    else if c == 221 then Repe // \335
    else if c == 222 then OptW // \336
    else if c == 223 then OptD // \337
    else Bad
  }

  function Decode4(c: byte): Code {
    if c == 224 then Resb // \340
    else if c == 225 then Wait // \341
    else if c == 226 then Osm // \342
    else if c == 228 then RexB // \344
    else if c == 229 then RexX // \345
    else if c == 230 then RexR // \346
    else if c == 231 then RexW // \347
    else if c == 232 then Rex2 // \350
    else if c == 233 then Rex2W // \351
    else if 237 <= c < 240 then Map // \355..\357
    else if c == 240 then Np // \360
    else if c == 241 then P66 // \361
    else if c == 244 then NoOsp // \364
    else if c == 245 then NoAsp // \365
    else if c == 246 then Osp // \366
    else if c == 247 then P67 // \367
    else if c == 248 then Jcc8 // \370
    else if c == 249 then Jmp8 // \371
    else if c == 251 then Jlen // \373
    else if c == 252 then VsibX // \374
    else if c == 253 then VsibY // \375
    else if c == 254 then VsibZ // \376
    else Bad
  }

  /** How many argument bytes follow a code. */
  function Payload(code: Code, c: byte): nat {
    match code
    case Literal => c
    case RegAdd | Mrb | Is4Imm | Is4Const => 1
    case IbXor | Vex | VexNoV => 2
    case Evex | EvexNoV => 4
    case _ => 0
  }

  /** One code with its arguments, and the operand numbers it selects. */
  datatype Op = Op(c: byte, code: Code, args: seq<byte>, op1: nat, op2: nat)

  /** The operand numbers of a code after the extension code `opex` (0 for none). */
  function Operand1(c: byte, opex: byte): nat {
    c as int % 4 + (if opex == 5 || opex == 7 then 4 else 0)
  }

  function Operand2(c: byte, opex: byte): nat {
    c as int / 8 % 4 + (if opex == 6 || opex == 7 then 4 else 0)
  }

  /** The extension in force at code `k`. */
  function Opex(ops: seq<Op>, k: nat): byte
    requires k <= |ops|
  {
    if k > 0 && ops[k - 1].code.Extend? then ops[k - 1].c else 0
  }

  function Flatten(ops: seq<Op>): seq<byte> {
    if ops == [] then [] else [ops[0].c] + ops[0].args + Flatten(ops[1..])
  }

  /** `codes` is the byte form of `ops`, ended by a zero byte. */
  ghost predicate Spells(codes: seq<byte>, ops: seq<Op>) {
    && Flatten(ops) + [0] <= codes
    && forall k | 0 <= k < |ops| ::
         var op := ops[k];
         && op.code == Decode(op.c) && !op.code.End? && !op.code.Bad? && |op.args| == Payload(op.code, op.c)
         && op.op1 == Operand1(op.c, Opex(ops, k)) && op.op2 == Operand2(op.c, Opex(ops, k))
  }

  // ---- Operands and instruction state, as far as sizes depend on them ----

  /** Explicit operand sizes (the BITS16, BITS32 and BITS64 type bits), the register
      or value of the operand, and its form as an effective address. */
  datatype Opnd = Opnd(b16: bool, b32: bool, b64: bool, reg: Option<Register>, immediate: bool,
                       offset: int, absolute: bool, broadcast: bool, ea: Operand)

  /** What the emitting pass reads to know how many bytes a code takes; `shift` scales the
      displacements of one byte, `evex` is the template of an EVEX prefix, and `wlp` the last
      byte of a VEX prefix. */
  datatype State = State(bits: int, asize: int, osize: int, oprs: seq<Opnd>, ea: EaData, shift: nat, evex: bv32, wlp: byte,
                         rex: Rex, map_: nat, forceVex3: bool, resBytes: nat)

  function WordOrDword(osize: int): nat {
    if osize == 16 then 2 else 4
  }

  function Sized(o: Opnd): nat {
    if o.b16 then 2 else 4
  }

  /** The length of the VEX prefix. */
  function VexLen(rex: Rex, map_: nat, forceVex3: bool): nat {
    if map_ != 1 || rex.b || rex.x || rex.w || forceVex3 then 3 else 2
  }

  function VexLength(st: State): nat {
    VexLen(st.rex, st.map_, st.forceVex3)
  }

  /** The opcode-map bytes 0F, 0F 38 or 0F 3A of the legacy encoding. */
  function MapLength(map_: nat): nat {
    if map_ == 0 then 0 else if map_ == 1 then 1 else 2
  }

  /** What is written once, before the first opcode byte: REX or REX2, and the opcode map. */
  function RexLen(rex: Rex, map_: nat): nat {
    if rex.vex || rex.evex then 0
    else if rex.rex2 then 2
    else (if rex.forced || LockAsRex(rex) then 1 else 0) + MapLength(map_)
  }

  function RexLength(st: State): nat {
    RexLen(st.rex, st.map_)
  }

  /** LOCK stands in for REX.R: only the L and R payload bits are set. */
  predicate LockAsRex(rex: Rex) {
    rex.lockR && rex.r && !rex.b && !rex.x && !rex.w && !rex.forced
  }

  /** The bytes that the emitting pass writes for one code. */
  function EmitLength(op: Op, st: State): int
    requires OperandOk(op, st.oprs)
  {
    match op.code
    case Literal => op.c
    case RegAdd | Ib | IbU | Rel8 | Mrb | Is4Imm | Is4Const | Is4 | IbS | HintNop | IbXor | Jlen => 1
    case Iw | Rel16 | SegWord => 2
    case Id | Rel32 | IdS | IdU | Evex | EvexNoV => 4
    case Iq => 8
    case Iwd => if st.oprs[op.op1].b16 || st.oprs[op.op1].b32 then Sized(st.oprs[op.op1]) else WordOrDword(st.osize)
    case Rel =>
      if st.oprs[op.op1].b16 || st.oprs[op.op1].b32 || st.oprs[op.op1].b64 then Sized(st.oprs[op.op1])
      else WordOrDword(st.osize)
    case Iwdq => st.asize / 8
    case Vex | VexNoV => VexLength(st)
    case Resb => st.oprs[0].offset * st.resBytes
    case EaReg | EaDigit => 1 + (if st.ea.sibPresent then 1 else 0) + st.ea.bytes
    case _ => 0
  }

  /** The operands that a code refers to exist and have the right kind. */
  predicate OperandOk(op: Op, oprs: seq<Opnd>) {
    match op.code
    case RegAdd => |op.args| == 1 && op.op1 < |oprs| && oprs[op.op1].reg.Some?
    case EaReg => op.op1 < |oprs| && oprs[op.op1].reg.Some? && op.op2 < |oprs|
    case EaDigit => op.op2 < |oprs|
    case MibIndex | Iwd | Rel | Evex | Vex => op.op1 < |oprs|
    case Mrb => |op.args| == 1 && MrbOperand(op) < |oprs| && oprs[MrbOperand(op)].reg.Some?
    case Is4 => op.op1 < |oprs| && oprs[op.op1].reg.Some?
    case Is4Const => |op.args| == 1 && op.args[0] as int / 16 < |oprs| && oprs[op.args[0] as int / 16].reg.Some?
    case Resb => op.op1 == 0 < |oprs|
    case _ => true
  }

  /** The operand of an \171 code, from its argument and the extension. */
  function MrbOperand(op: Op): nat
    requires |op.args| == 1
  {
    op.op2 / 4 * 4 + op.args[0] as int / 8 % 4
  }

  /** The codes before which a pending REX prefix is written. */
  predicate Triggers(op: Op) {
    var c := op.code;
    c.Literal? || c.RegAdd? || c.HintNop?
  }

  predicate Triggered(ops: seq<Op>) {
    exists k | 0 <= k < |ops| :: Triggers(ops[k])
  }

  predicate ReadsOsize(op: Op) {
    op.code.Iwd? || op.code.Rel?
  }

  predicate SetsOsize(op: Op) {
    var c := op.code;
    c.O16? || c.O32? || c.O64nw? || c.O64? || c.Nw? || c.Osz? || c.Osm?
  }

  predicate SetsAsize(op: Op) {
    var c := op.code;
    c.A16? || c.A32? || c.A64?
  }

  predicate IsEa(op: Op) {
    op.code.EaReg? || op.code.EaDigit?
  }

  predicate IsVex(op: Op) {
    var c := op.code;
    c.Vex? || c.VexNoV? || c.Evex? || c.EvexNoV?
  }

  /** The order that instruction templates keep: sizes, and a VEX or EVEX prefix, are settled
      before they are used, and there is at most one such prefix and one effective address. */
  ghost predicate Ordered(ops: seq<Op>) {
    forall i, j | 0 <= i < j < |ops| ::
      && (ReadsOsize(ops[i]) ==> !SetsOsize(ops[j]))
      && (ops[i].code.Iwdq? ==> !SetsAsize(ops[j]))
      && (IsEa(ops[i]) ==> !IsEa(ops[j]) && !IsVex(ops[j]) && !SetsAsize(ops[j]))
      && (IsVex(ops[i]) ==> !IsVex(ops[j]))
  }

  predicate OperandsOk(ops: seq<Op>, oprs: seq<Opnd>) {
    forall k | 0 <= k < |ops| :: OperandOk(ops[k], oprs)
  }

  /** The bytes that the emitting pass writes for all codes, prefixes apart. */
  function EmitTotal(ops: seq<Op>, st: State): int
    requires OperandsOk(ops, st.oprs)
  {
    if ops == [] then 0
    else EmitTotal(ops[..|ops| - 1], st) + EmitLength(ops[|ops| - 1], st)
  }

  /** The bytes that the sizing pass adds for one code: the VEX and EVEX prefixes are
      counted later, and a 64-bit operand type settles the size of an \34 immediate. */
  function SizeLength(op: Op, st: State): int
    requires OperandOk(op, st.oprs)
  {
    if IsVex(op) then 0
    else if op.code.Iwd? then
      var o := st.oprs[op.op1];
      if o.b16 || o.b32 || o.b64 then Sized(o) else WordOrDword(st.osize)
    else EmitLength(op, st)
  }

  function SizeTotal(ops: seq<Op>, st: State): int
    requires OperandsOk(ops, st.oprs)
  {
    if ops == [] then 0
    else SizeTotal(ops[..|ops| - 1], st) + SizeLength(ops[|ops| - 1], st)
  }

  /** An \34 immediate typed as 64 bits only, in an instruction with 16-bit operands:
      sizing counts four bytes for it, emission writes two. */
  predicate WideImmediate(op: Op, st: State)
    requires OperandOk(op, st.oprs)
  {
    op.code.Iwd? && st.osize == 16
    && (var o := st.oprs[op.op1]; o.b64 && !o.b16 && !o.b32)
  }

  function WideCount(ops: seq<Op>, st: State): nat
    requires OperandsOk(ops, st.oprs)
  {
    if ops == [] then 0
    else WideCount(ops[..|ops| - 1], st) + (if WideImmediate(ops[|ops| - 1], st) then 1 else 0)
  }

  // ---- Legacy prefixes ----

  datatype Pfx =
    | PNone | PWait | PLock | PRepne | PRepnz | PXacquire | PBnd | PRepe | PRepz | PRep | PXrelease
    | RCs | PPn | RDs | PPt | REs | RFs | RGs | RSs
    | PA16 | PA32 | PA64 | PAsp | PO16 | PO32 | PO64 | POsp
    | PRex | PVex | PEvex | PVex3 | PVex2 | PRex2 | PNf | PNobnd | PZu

  const PFE_NULL := -1
  const PFE_MULTI := -2
  const PFE_ERR := -3
  const PFE_WHAT := -4

  /** The byte of a prefix in the given mode, or one of the `PFE` values. */
  function PrefixByte(p: Pfx, bits: int): int {
    match p
    case PWait => 0x9b
    case PLock => 0xf0
    case PRepne | PRepnz | PXacquire | PBnd => 0xf2
    case PRepe | PRepz | PRep | PXrelease => 0xf3
    case RCs | PPn => 0x2e
    case RDs | PPt => 0x3e
    case REs => 0x26
    case RFs => 0x64
    case RGs => 0x65
    case RSs => 0x36
    case PA16 => if bits == 64 then PFE_ERR else if bits == 32 then 0x67 else PFE_NULL
    case PA32 => if bits != 32 then 0x67 else PFE_NULL
    case PAsp => 0x67
    case PO16 => if bits != 16 then 0x66 else PFE_NULL
    case PO32 => if bits == 16 then 0x66 else PFE_NULL
    case PO64 => if bits == 64 then PFE_NULL else PFE_ERR
    case POsp => 0x66
    case PRex | PVex | PEvex | PVex3 | PVex2 | PRex2 => PFE_MULTI
    case PNf | PNobnd | PZu | PNone => PFE_NULL
    case PA64 => PFE_WHAT
  }

  /** What one prefix slot writes: the programmer's prefix `p`, unless the
      instruction needs another byte `need` there; nothing that VEX or EVEX embeds. */
  function SlotByte(p: Pfx, need: int, bits: int, vexed: bool): int {
    var c := PrefixByte(p, bits);
    var overridable := p.PNone? || p.PO16? || p.PO32? || p.PO64? || p.PA16? || p.PA32? || p.PA64?;
    var d := if need != 0 && need != c && !(need <= 0 && c <= 0) && overridable then need else c;
    if p.RCs? || p.RDs? || p.REs? || p.RSs? || p.PA16? || p.PA64? || p.PO64? then d
    else if (d == 0x66 || d == 0xf2 || d == 0xf3) && vexed then PFE_NULL
    else d
  }

  /** How many of the prefix slots write a byte. */
  function PrefixCount(prefixes: seq<Pfx>, need: seq<int>, bits: int, vexed: bool): nat
    requires |prefixes| == |need|
  {
    if prefixes == [] then 0
    else
      var n := |prefixes| - 1;
      PrefixCount(prefixes[..n], need[..n], bits, vexed)
      + (if SlotByte(prefixes[n], need[n], bits, vexed) >= 0 then 1 else 0)
  }

  // ---- What the emitting pass writes ----

  /** A displacement: its byte, or a field for an offset, that may be relative to the end
      of the instruction. */
  datatype Field = NoField | Short(b: byte) | Long(size: nat, offset: int, relative: bool)

  /** What is written, piece by piece. Of immediates and relocations there is the size. */
  datatype Part =
    | Legacy(c: int)
    | Encoded(word: bv32)
    | Opcode(bytes: seq<byte>)
    | Raw(b: byte)
    | Modrm(modrm: byte, sib: seq<byte>)
    | Disp(disp: Field)
    | Data(size: int)

  /** The bytes of a displacement in an instruction that ends at `ip`. */
  function FieldBytes(f: Field, ip: int): seq<byte> {
    match f
    case NoField => []
    case Short(b) => [b]
    case Long(size, offset, relative) =>
      var v := if relative then offset - ip else offset;
      if size == 2 then Le16(v) else Le32(v)
  }

  /** The offset of a memory operand. */
  function OffsetOf(e: Operand): int {
    if e.MemOperand? then e.ref.offset else 0
  }

  function FieldOf(ea: EaData, offset: int): Field {
    if ea.bytes == 0 then NoField
    else if ea.bytes == 1 then Short(ea.disp8 % 256)
    else Long(ea.bytes, offset, ea.rip)
  }

  /** ModRM, SIB and displacement. */
  function EaParts(ea: EaData, offset: int): seq<Part> {
    [Modrm(ea.modrm, SibBytes(ea))] + (if ea.bytes == 0 then [] else [Disp(FieldOf(ea, offset))])
  }

  function DataPart(n: int): seq<Part> {
    if n == 0 then [] else [Data(n)]
  }

  /** A register number in the four high bits, its fifth bit below them, and a constant. */
  function Is4Byte(r: nat, c: nat): byte {
    r % 16 * 16 + (if r / 16 % 2 == 1 || c / 8 % 2 == 1 then 8 else 0) + c % 8
  }

  /** The codes that write one byte with a register number in it, or a fixed one. */
  function RawByte(op: Op, st: State): Option<byte>
    requires OperandOk(op, st.oprs)
  {
    match op.code
    case RegAdd => Some((op.args[0] as int + st.oprs[op.op1].reg.value.num % 8) % 256)
    case Mrb =>
      var c := op.args[0] as int;
      Some(c / 64 * 64 + st.oprs[MrbOperand(op)].reg.value.num % 8 * 8 + c % 8)
    case Is4 => Some(Is4Byte(st.oprs[op.op1].reg.value.num, 0))
    case Is4Const => Some(Is4Byte(st.oprs[op.args[0] as int / 16].reg.value.num, op.args[0] as nat % 16))
    case Jlen => Some(if st.bits == 16 then 3 else 5)
    case _ => None
  }

  /** What is written for one code, apart from a pending REX part. */
  function PartsOf(op: Op, st: State, p: Prefix): seq<Part>
    requires OperandOk(op, st.oprs)
  {
    if op.code.Literal? then [Opcode(op.args)]
    else if RawByte(op, st).Some? then [Raw(RawByte(op, st).value)]
    else if IsEa(op) then EaParts(st.ea, OffsetOf(st.oprs[op.op2].ea))
    else if IsVex(op) then [Encoded(PrefixWord(p, st.rex))]
    else DataPart(EmitLength(op, st))
  }

  /** The opcode map of the legacy encoding. */
  function MapParts(map_: nat): seq<Part> {
    if map_ == 0 then []
    else if map_ == 1 then [Opcode([0x0f])]
    else [Opcode([0x0f, (0x34 + 2 * map_) % 256])]
  }

  /** What is written once, before the first opcode byte. */
  function RexParts(st: State, p: Prefix): seq<Part> {
    if st.rex.vex || st.rex.evex then []
    else (if p.Bare? then [] else [Encoded(PrefixWord(p, st.rex))]) + (if st.rex.rex2 then [] else MapParts(st.map_))
  }

  /** What is written for all codes. */
  function CodeParts(ops: seq<Op>, st: State, p: Prefix): seq<Part>
    requires OperandsOk(ops, st.oprs)
  {
    if ops == [] then []
    else
      var n := |ops| - 1;
      CodeParts(ops[..n], st, p)
      + (if Triggers(ops[n]) && !Triggered(ops[..n]) then RexParts(st, p) else [])
      + PartsOf(ops[n], st, p)
  }

  lemma CodePartsNext(first: seq<Part>, ops: seq<Op>, k: nat, st: State, p: Prefix)
    requires k < |ops| && OperandsOk(ops, st.oprs)
    ensures OperandsOk(ops[..k], st.oprs) && OperandsOk(ops[..k + 1], st.oprs)
    ensures first + CodeParts(ops[..k + 1], st, p)
            == first + CodeParts(ops[..k], st, p)
               + (if Triggers(ops[k]) && !Triggered(ops[..k]) then RexParts(st, p) else []) + PartsOf(ops[k], st, p)
  {
    assert ops[..k + 1][..k] == ops[..k];
  }

  /** The legacy prefixes. */
  function LegacyParts(prefixes: seq<Pfx>, need: seq<int>, bits: int, vexed: bool): seq<Part>
    requires |prefixes| == |need|
  {
    if prefixes == [] then []
    else
      var n := |prefixes| - 1;
      var c := SlotByte(prefixes[n], need[n], bits, vexed);
      LegacyParts(prefixes[..n], need[..n], bits, vexed) + (if c >= 0 then [Legacy(c)] else [])
  }

  // ---- What the two passes count ----

  /** All bytes that the emitting pass writes: legacy prefixes, codes, and the REX
      part if any code asks for it. */
  function EmittedBytes(ops: seq<Op>, st: State, prefixBytes: nat): int
    requires OperandsOk(ops, st.oprs)
  {
    prefixBytes + EmitTotal(ops, st) + (if Triggered(ops) then RexLength(st) else 0)
  }

  /** All bytes that the sizing pass counts. */
  function CountedBytes(ops: seq<Op>, st: State, prefixBytes: nat): int
    requires OperandsOk(ops, st.oprs)
  {
    prefixBytes + EmitTotal(ops, st) + RexLength(st) + 2 * WideCount(ops, st)
  }

  /** When the passes agree: a pending REX or opcode map is written by some code, and
      no immediate is typed wider than its 16-bit instruction. */
  predicate Agreeable(ops: seq<Op>, st: State)
    requires OperandsOk(ops, st.oprs)
  {
    && (Triggered(ops) || RexLength(st) == 0)
    && forall k | 0 <= k < |ops| :: !WideImmediate(ops[k], st)
  }

  lemma {:induction false} NoWideCount(ops: seq<Op>, st: State)
    requires OperandsOk(ops, st.oprs)
    ensures WideCount(ops, st) == 0 <==> forall k | 0 <= k < |ops| :: !WideImmediate(ops[k], st)
  {
    if ops != [] {
      NoWideCount(ops[..|ops| - 1], st);
      assert ops[..|ops| - 1] + [ops[|ops| - 1]] == ops;
    }
  }

  /** The sizing pass counts what the emitting pass writes exactly when the template
      and the operands are agreeable. */
  lemma PassesAgreeIff(ops: seq<Op>, st: State, prefixBytes: nat)
    requires OperandsOk(ops, st.oprs)
    ensures CountedBytes(ops, st, prefixBytes) == EmittedBytes(ops, st, prefixBytes) <==> Agreeable(ops, st)
    ensures CountedBytes(ops, st, prefixBytes) >= EmittedBytes(ops, st, prefixBytes)
  {
    NoWideCount(ops, st);
  }

  /** The smallest instruction that the check on the length rejects: one \34 code with a
      64-bit typed operand under a 16-bit operand size. */
  lemma WideImmediateDisagrees(st: State, prefixBytes: nat)
    requires |st.oprs| == 1 && st.osize == 16 && RexLength(st) == 0
    requires st.oprs[0].b64 && !st.oprs[0].b32 && !st.oprs[0].b16
    ensures var ops := [Op(28, Iwd, [], 0, 3)];
      && OperandsOk(ops, st.oprs) && Ordered(ops) && Spells([28, 0], ops)
      && CountedBytes(ops, st, prefixBytes) == EmittedBytes(ops, st, prefixBytes) + 2
  {
    var op := Op(28, Iwd, [], 0, 3);
    var ops := [op];
    assert ops[..0] == [] && ops[1..] == [];
    assert EmitTotal(ops, st) == EmitLength(op, st);
    assert WideCount(ops, st) == 1;
    assert Flatten(ops) + [0] == [28, 0];
  }

  predicate HasEvex(ops: seq<Op>) {
    exists k | 0 <= k < |ops| :: ops[k].code.Evex? || ops[k].code.EvexNoV?
  }

  predicate HasVex(ops: seq<Op>) {
    exists k | 0 <= k < |ops| :: ops[k].code.Vex? || ops[k].code.VexNoV?
  }

  lemma HasLast(ops: seq<Op>)
    requires ops != []
    ensures var n := |ops| - 1; var last := ops[n];
      && (HasEvex(ops) <==> HasEvex(ops[..n]) || last.code.Evex? || last.code.EvexNoV?)
      && (HasVex(ops) <==> HasVex(ops[..n]) || last.code.Vex? || last.code.VexNoV?)
      && (Triggered(ops) <==> Triggered(ops[..n]) || Triggers(last))
  {
    assert ops[..|ops| - 1] + [ops[|ops| - 1]] == ops;
  }

  lemma OrderedPrefix(ops: seq<Op>, n: nat)
    requires Ordered(ops) && n <= |ops|
    ensures Ordered(ops[..n])
  {
  }

  function VexPart(op: Op, st: State): nat {
    if op.code.Evex? || op.code.EvexNoV? then 4
    else if op.code.Vex? || op.code.VexNoV? then VexLength(st)
    else 0
  }

  lemma LengthsDiffer(op: Op, st: State)
    requires OperandOk(op, st.oprs)
    ensures EmitLength(op, st) + 2 * (if WideImmediate(op, st) then 1 else 0) == SizeLength(op, st) + VexPart(op, st)
  {
  }

  /** The two sums differ by the one VEX or EVEX prefix, and by the wide immediates. */
  lemma {:induction false} SumsDiffer(ops: seq<Op>, st: State)
    requires OperandsOk(ops, st.oprs) && Ordered(ops)
    ensures EmitTotal(ops, st) + 2 * WideCount(ops, st) == SizeTotal(ops, st) + VexBytes(ops, st)
    ensures !(HasEvex(ops) && HasVex(ops))
  {
    if ops != [] {
      var n := |ops| - 1;
      OrderedPrefix(ops, n);
      SumsDiffer(ops[..n], st);
      LengthsDiffer(ops[n], st);
      OneVex(ops, st);
    }
  }

  /** The bytes of the VEX or EVEX prefix, if there is one. */
  function VexBytes(ops: seq<Op>, st: State): nat {
    if HasEvex(ops) then 4 else if HasVex(ops) then VexLength(st) else 0
  }

  lemma OneVex(ops: seq<Op>, st: State)
    requires ops != [] && Ordered(ops) && !(HasEvex(ops[..|ops| - 1]) && HasVex(ops[..|ops| - 1]))
    ensures VexBytes(ops, st) == VexBytes(ops[..|ops| - 1], st) + VexPart(ops[|ops| - 1], st)
    ensures !(HasEvex(ops) && HasVex(ops))
  {
    HasLast(ops);
    if IsVex(ops[|ops| - 1]) {
      NoVexBefore(ops);
    }
  }

  lemma NoVexBefore(ops: seq<Op>)
    requires ops != [] && Ordered(ops) && IsVex(ops[|ops| - 1])
    ensures !HasEvex(ops[..|ops| - 1]) && !HasVex(ops[..|ops| - 1])
  {
    assert forall i | 0 <= i < |ops| - 1 :: !IsVex(ops[i]);
  }

  lemma {:induction false} SizeTotalStable(ops: seq<Op>, s: State, t: State)
    requires OperandsOk(ops, s.oprs) && OperandsOk(ops, t.oprs)
    requires forall k | 0 <= k < |ops| :: SizeLength(ops[k], s) == SizeLength(ops[k], t)
    ensures SizeTotal(ops, s) == SizeTotal(ops, t)
  {
    if ops != [] {
      SizeTotalStable(ops[..|ops| - 1], s, t);
    }
  }

  // ---- Merged reservations ----

  function ResbCount(ops: seq<Op>): nat {
    if ops == [] then 0 else ResbCount(ops[..|ops| - 1]) + (if ops[|ops| - 1].code.Resb? then 1 else 0)
  }

  /** The operands with the first one's count multiplied. */
  function Repeated(oprs: seq<Opnd>, times: nat): seq<Opnd>
    requires |oprs| > 0
  {
    oprs[0 := oprs[0].(offset := oprs[0].offset * times)]
  }

  lemma {:induction false} ResbHasOperand(ops: seq<Op>, oprs: seq<Opnd>)
    requires OperandsOk(ops, oprs) && ResbCount(ops) > 0
    ensures |oprs| > 0
  {
    if ops[|ops| - 1].code.Resb? {
      assert OperandOk(ops[|ops| - 1], oprs);
    } else {
      ResbHasOperand(ops[..|ops| - 1], oprs);
    }
  }

  lemma RepeatedOk(ops: seq<Op>, oprs: seq<Opnd>, times: nat)
    requires |oprs| > 0 && OperandsOk(ops, oprs)
    ensures OperandsOk(ops, Repeated(oprs, times))
  {
    forall k | 0 <= k < |ops| ensures OperandOk(ops[k], Repeated(oprs, times)) {
      assert OperandOk(ops[k], oprs);
    }
  }

  /** Only the reservation grows. */
  lemma RepeatedLength(op: Op, s: State, times: nat)
    requires |s.oprs| > 0 && OperandOk(op, s.oprs) && OperandOk(op, Repeated(s.oprs, times))
    ensures var t := s.(oprs := Repeated(s.oprs, times));
      && EmitLength(op, t) == (if op.code.Resb? then times * EmitLength(op, s) else EmitLength(op, s))
      && (WideImmediate(op, t) <==> WideImmediate(op, s))
  {
    if op.code.Resb? {
      var o, n := s.oprs[0].offset, s.resBytes;
      assert (o * times) * n == times * (o * n);
    }
  }

  lemma {:induction false} RepeatedTotals(ops: seq<Op>, s: State, times: nat)
    requires |s.oprs| > 0 && OperandsOk(ops, s.oprs) && OperandsOk(ops, Repeated(s.oprs, times))
    ensures var t, one := s.(oprs := Repeated(s.oprs, times)), s.oprs[0].offset * s.resBytes;
      EmitTotal(ops, t) == EmitTotal(ops, s) + ResbCount(ops) * (times * one - one)
  {
    if ops != [] {
      var n := |ops| - 1;
      RepeatedTotals(ops[..n], s, times);
      RepeatedLength(ops[n], s, times);
      OneMore(ResbCount(ops[..n]), times * (s.oprs[0].offset * s.resBytes) - s.oprs[0].offset * s.resBytes);
    }
  }

  lemma OneMore(c: int, d: int)
    ensures (c + 1) * d == c * d + d
  {
  }

  lemma RepeatedAgreeable(ops: seq<Op>, s: State, times: nat)
    requires |s.oprs| > 0 && OperandsOk(ops, s.oprs) && OperandsOk(ops, Repeated(s.oprs, times))
    ensures Agreeable(ops, s.(oprs := Repeated(s.oprs, times))) <==> Agreeable(ops, s)
  {
    forall k | 0 <= k < |ops|
      ensures WideImmediate(ops[k], s.(oprs := Repeated(s.oprs, times))) <==> WideImmediate(ops[k], s)
    {
      RepeatedLength(ops[k], s, times);
    }
  }

  /** Merging leaves the passes in agreement exactly when they were before. */
  lemma MergedAgreeIff(ops: seq<Op>, s: State, t: State, prefixBytes: nat, times: nat)
    requires OperandsOk(ops, s.oprs)
    requires s.resBytes != 0 ==> |s.oprs| > 0 && ResbCount(ops) == 1
    requires t == if Mergeable(s, CountedBytes(ops, s, prefixBytes)) then s.(oprs := Repeated(s.oprs, times)) else s
    ensures OperandsOk(ops, t.oprs) && (Agreeable(ops, t) <==> Agreeable(ops, s))
    ensures var counted := CountedBytes(ops, s, prefixBytes);
      EmittedBytes(ops, t, prefixBytes) == (if Mergeable(s, counted) then counted * times else counted)
      <==> Agreeable(ops, t)
  {
    PassesAgreeIff(ops, s, prefixBytes);
    var counted := CountedBytes(ops, s, prefixBytes);
    if Mergeable(s, counted) {
      RepeatedOk(ops, s.oprs, times);
      MergedGrows(ops, s, prefixBytes, counted, times);
      RepeatedAgreeable(ops, s, times);
    }
  }

  /** The instruction is nothing but a reservation. */
  predicate Mergeable(s: State, counted: int)
    requires s.resBytes != 0 ==> |s.oprs| > 0
  {
    s.resBytes != 0 && counted == s.resBytes * s.oprs[0].offset
  }

  lemma MergedGrows(ops: seq<Op>, s: State, prefixBytes: nat, counted: int, times: nat)
    requires |s.oprs| > 0 && ResbCount(ops) == 1 && counted == s.resBytes * s.oprs[0].offset
    requires OperandsOk(ops, s.oprs) && OperandsOk(ops, Repeated(s.oprs, times))
    ensures EmittedBytes(ops, s.(oprs := Repeated(s.oprs, times)), prefixBytes)
            == EmittedBytes(ops, s, prefixBytes) + counted * times - counted
  {
    RepeatedTotals(ops, s, times);
    var one := s.oprs[0].offset * s.resBytes;
    assert counted == one && times * one == counted * times;
  }

  // ---- Reading the byte form ----

  /** `pos` is where code `k` starts. */
  ghost predicate AtOp(codes: seq<byte>, pos: nat, ops: seq<Op>, k: nat) {
    k <= |ops| && pos <= |codes| && Flatten(ops[k..]) + [0] <= codes[pos..]
  }

  lemma AtOpBytes(codes: seq<byte>, pos: nat, ops: seq<Op>, k: nat)
    requires AtOp(codes, pos, ops, k) && k < |ops|
    ensures pos + 1 + |ops[k].args| < |codes| && codes[pos] == ops[k].c
    ensures codes[pos + 1..pos + 1 + |ops[k].args|] == ops[k].args
    ensures AtOp(codes, pos + 1 + |ops[k].args|, ops, k + 1)
  {
    var rest := ops[k..];
    var n := |ops[k].args|;
    assert rest[0] == ops[k] && rest[1..] == ops[k + 1..];
    var all := [ops[k].c] + ops[k].args + (Flatten(ops[k + 1..]) + [0]);
    assert Flatten(rest) + [0] == all;
    assert all <= codes[pos..];
    assert codes[pos] == codes[pos..][0] == all[0];
    assert codes[pos..][1..1 + n] == all[1..1 + n] == ops[k].args;
    assert codes[pos..][1 + n..] == codes[pos + 1 + n..];
    assert all[1 + n..] == Flatten(ops[k + 1..]) + [0];
    assert codes[pos..][..|all|] == all;
    assert codes[pos..][1 + n..|all|] == all[1 + n..];
  }

  lemma AtEnd(codes: seq<byte>, pos: nat, ops: seq<Op>, k: nat)
    requires AtOp(codes, pos, ops, k) && k == |ops|
    ensures pos < |codes| && codes[pos] == 0
  {
    assert ops[k..] == [];
    assert Flatten(ops[k..]) + [0] == [0];
    assert codes[pos..][0] == 0;
  }

  /** The list ends where the bytes do. */
  lemma AtCode(codes: seq<byte>, pos: nat, ops: seq<Op>, k: nat)
    requires Spells(codes, ops) && AtOp(codes, pos, ops, k)
    ensures pos < |codes| && (codes[pos] == 0 <==> k == |ops|)
  {
    if k < |ops| {
      AtOpBytes(codes, pos, ops, k);
    } else {
      AtEnd(codes, pos, ops, k);
    }
  }

  /** The code at `pos` with its arguments and operand numbers, and where the next one starts. */
  method Fetch(codes: seq<byte>, pos: nat, opex: byte, ghost ops: seq<Op>, ghost k: nat)
    returns (op: Op, next: nat)
    requires Spells(codes, ops) && AtOp(codes, pos, ops, k) && k < |ops| && opex == Opex(ops, k)
    ensures op == ops[k] && AtOp(codes, next, ops, k + 1)
  {
    AtOpBytes(codes, pos, ops, k);
    var c := codes[pos];
    var code := Decode(c);
    var n := Payload(code, c);
    op := Op(c, code, codes[pos + 1..pos + 1 + n], Operand1(c, opex), Operand2(c, opex));
    next := pos + 1 + n;
  }
}
