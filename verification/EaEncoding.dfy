/** The assembler's choice of ModRM, SIB and displacement for an operand. */
module EaEncoding {
  import opened Basics
  import opened Registers
  import opened EaDecoding
  import opened OperandWidth

  datatype EaFlags = EaFlags(byteOffs: bool, wordOffs: bool, timesTwo: bool,
                             rel: bool, abs: bool, mib: bool, sib: bool)

  datatype Hint = NoHint | MakeBase | NotBase | Summed

  /** A memory operand as the parser leaves it; `scale` 0 means that there is no index. */
  datatype MemRef = MemRef(base: Option<Register>, index: Option<Register>, scale: int,
                           hintBase: Option<Register>, hint: Hint,
                           offset: int, dispSize: int, flags: EaFlags, known: bool,
                           immediate: bool, ipRel: bool, absolute: bool)

  datatype Operand =
    | RegOperand(reg: Register, broadcast: bool)
    | MemOperand(ref: MemRef, rounding: bool)

  datatype EaData = EaData(kind: EaType, rex: Rex, sibPresent: bool, bytes: nat, modrm: byte, sib: byte,
                           rip: bool, disp8: int, disp8Ok: bool, size: nat)

  const CLEAR := EaData(Scalar, NO_REX, false, 0, 0, 0, false, 0, false, 0)

  function GenModrm(mod: nat, reg: nat, rm: nat): byte
    requires mod < 4
  {
    mod * 64 + reg % 8 * 8 + rm % 8
  }

  function GenSib(scale: nat, index: nat, base: nat): byte
    requires scale < 4
  {
    scale * 64 + index % 8 * 8 + base % 8
  }

  /** A SIB byte for final registers: index code 4 means none, base code 5 no base. */
  function SibFor(scale: nat, index: Option<Register>, base: Option<Register>): byte
    requires scale < 4
  {
    GenSib(scale, if index.Some? then index.value.num else 4, if base.Some? then base.value.num else 5)
  }

  // ---- What an operand means ----

  /** The register part of an operand: an index with scale 0 counts for nothing. */
  function Index(r: MemRef): Option<Register> {
    if r.scale == 0 then None else r.index
  }

  predicate IsPure(r: MemRef) {
    r.base == None && (r.index == None || r.scale == 0)
  }

  /** The address that the operand names, as the programmer wrote it. */
  function Denoted(r: MemRef, env: Env, asize: int): int {
    (Linear(env, r.base, Index(r), r.scale) + r.offset) % AddressSpace(asize)
  }

  /** The bytes that follow the ModRM byte, as code generation emits them. */
  function SibBytes(ea: EaData): seq<byte> {
    if ea.sibPresent then [ea.sib] else []
  }

  function DispBytes(ea: EaData, offset: int, ip: int): (s: seq<byte>)
    ensures ea.bytes == 0 || ea.bytes == 1 || ea.bytes == 2 || ea.bytes == 4 ==> |s| == ea.bytes
  {
    var v := if ea.rip then offset - ip else offset;
    match ea.bytes
    case 0 => []
    case 1 => [ea.disp8 % 256]
    case 2 => Le16(v)
    case _ => Le32(v)
  }

  /** The prefix bytes supply the r/m and reg bits that the flags ask for. */
  predicate CarriesDirect(ext: RegExt, rex: Rex) {
    && ext.breg <= 24 && ext.bregbv <= 24 && ext.xreg <= 24 && ext.xregxv <= 24
    && (if rex.bv then ext.bregbv else ext.breg) == HighBits(rex.b, rex.b1)
    && ext.rreg == HighBits(rex.r, rex.r1)
  }

  /** The prefix bytes supply all the register bits that the flags ask for. */
  predicate Carries(ext: RegExt, rex: Rex) {
    CarriesDirect(ext, rex) && (if rex.xv then ext.xregxv else ext.xreg) == HighBits(rex.x, rex.x1)
  }

  function DecodeEmitted(ea: EaData, offset: int, ip: int, tail: seq<byte>, m: Mode, ext: RegExt, shift: nat)
    : Option<Decoded>
    requires shift <= 7 && Carries(ext, ea.rex)
  {
    DecodeEa(ea.modrm, SibBytes(ea) + DispBytes(ea, offset, ip) + tail, m, ea.kind, ext, shift)
  }

  /** Reading back the emitted bytes gives an operand that takes exactly those
      bytes and has the intended address under every register assignment. */
  ghost predicate Faithful(r: MemRef, ea: EaData, ip: int, m: Mode, shift: nat)
    requires shift <= 7
  {
    forall ext: RegExt, tail: seq<byte> | Carries(ext, ea.rex) ::
      var d := DecodeEmitted(ea, r.offset, ip, tail, m, ext, shift);
      && d.Some? && d.value.Memory? && d.value.len + 1 == ea.size
      && forall env: Env :: Address(d.value, env, ip, m.asize) == Denoted(r, env, m.asize)
  }

  // ---- The intermediate form of a scalar encoding ----

  /** Some choice of base, index and scale that sums to the same as another. */
  ghost predicate SameSum(b: Option<Register>, i: Option<Register>, s: int,
                          b2: Option<Register>, i2: Option<Register>, s2: int) {
    forall env: Env :: Linear(env, b, i, s) == Linear(env, b2, i2, s2)
  }

  lemma SwapKeepsSum(b: Option<Register>, i: Option<Register>)
    ensures SameSum(b, i, 1, i, b, 1)
  {
  }

  lemma SplitKeepsSum(i: Register, s: int)
    ensures SameSum(None, Some(i), s, Some(i), Some(i), s - 1)
  {
    forall env: Env
      ensures Linear(env, None, Some(i), s) == Linear(env, Some(i), Some(i), s - 1)
    {
      assert s * env(i) == 1 * env(i) + (s - 1) * env(i);
    }
  }

  lemma ScaleOfNoIndex(b: Option<Register>, s: int, s2: int)
    ensures SameSum(b, None, s, b, None, s2)
  {
  }

  // ---- Layouts and what they decode to ----

  /** `mod` and the displacement bytes agree with the register fields. */
  predicate DispLayout(ea: EaData, mod: nat, hasBase: bool, wide: nat) {
    && mod <= 2 && (mod != 1 || -128 <= ea.disp8 < 128)
    && ea.bytes == (if !hasBase || mod == 2 then wide else mod)
    && (!hasBase ==> mod == 0)
  }

  /** The displacement that the emitted field stands for. */
  function EmittedDisp(ea: EaData, offset: int, ip: int, shift: nat): int
    requires shift <= 7
  {
    var v := if ea.rip then offset - ip else offset;
    match ea.bytes
    case 0 => 0
    case 1 => ea.disp8 * Unit(shift)
    case 2 => Sext(v, TWO16)
    case _ => Sext(v, TWO32)
  }

  lemma DispDecodes(ea: EaData, offset: int, ip: int, tail: seq<byte>, shift: nat)
    requires shift <= 7 && (ea.bytes == 1 ==> -128 <= ea.disp8 < 128)
    requires ea.bytes == 0 || ea.bytes == 1 || ea.bytes == 2 || ea.bytes == 4
    ensures DispOf(DispBytes(ea, offset, ip) + tail, ea.bytes, Unit(shift)) == EmittedDisp(ea, offset, ip, shift)
  {
    var v := if ea.rip then offset - ip else offset;
    match ea.bytes {
      case 0 =>
      case 1 => Le8RoundTrip(ea.disp8, tail);
      case 2 => Le16RoundTrip(v, tail);
      case _ => Le32RoundTrip(v, tail);
    }
  }

  lemma ModrmFields(mod: nat, reg: nat, rm: nat)
    requires mod < 4
    ensures var b: int := GenModrm(mod, reg, rm); b / 64 == mod && b / 8 % 8 == reg % 8 && b % 8 == rm % 8
  {
    var x, y := reg % 8, rm % 8;
    var b: int := GenModrm(mod, reg, rm);
    ModUnique(b, 64, mod, x * 8 + y);
    ModUnique(b, 8, mod * 8 + x, y);
    ModUnique(mod * 8 + x, 8, mod, x);
  }

  lemma NoSibDecodes(ea: EaData, mod: nat, rfield: nat, base: Register, offset: int, ip: int,
                     tail: seq<byte>, m: Mode, ext: RegExt, shift: nat)
    requires shift <= 7 && ext.breg <= 24 && ext.xreg <= 24 && ext.xregxv <= 24 && m.Valid() && m.asize != 16
    requires ea.kind == Scalar && !ea.sibPresent && base.num % 8 != 4 && base.kind == GprOf(m.asize)
    requires DispLayout(ea, mod, true, 4) && (mod == 0 ==> base.num % 8 != 5)
    requires ea.modrm == GenModrm(mod, rfield, base.num)
    requires base.num == base.num % 8 + ext.breg
    ensures DecodeEa(ea.modrm, SibBytes(ea) + DispBytes(ea, offset, ip) + tail, m, ea.kind, ext, shift)
            == Some(Memory(Some(base), None, 1, EmittedDisp(ea, offset, ip, shift), false, ea.bytes))
  {
    ModrmFields(mod, rfield, base.num);
    var s := SibBytes(ea) + DispBytes(ea, offset, ip) + tail;
    assert s == DispBytes(ea, offset, ip) + tail;
    DispDecodes(ea, offset, ip, tail, shift);
  }

  lemma SibDecodes(ea: EaData, mod: nat, rfield: nat, scale: nat, index: Option<Register>, base: Option<Register>,
                   offset: int, ip: int, tail: seq<byte>, m: Mode, ext: RegExt, shift: nat)
    requires shift <= 7 && ext.breg <= 24 && ext.xreg <= 24 && ext.xregxv <= 24
    requires m.Valid() && m.asize != 16 && scale < 4
    requires ea.kind != Invalid && ea.sibPresent
    requires DispLayout(ea, mod, base.Some?, 4)
    requires base.Some? ==> base.value.kind == GprOf(m.asize) && (mod == 0 ==> base.value.num % 8 != 5)
                            && base.value.num == base.value.num % 8 + ext.breg
    requires ea.kind == Scalar && index.Some? ==> index.value.kind == GprOf(m.asize) && index.value.num != 4
                                                  && index.value.num == index.value.num % 8 + ext.xreg
    requires ea.kind == Scalar && index == None ==> ext.xreg == 0
    requires ea.kind != Scalar ==> index.Some? && index.value.kind == VsibKind(ea.kind)
                                   && index.value.num == index.value.num % 8 + ext.xregxv
    requires ea.modrm == GenModrm(mod, rfield, 4)
    requires ea.sib == SibFor(scale, index, base)
    ensures DecodeEa(ea.modrm, SibBytes(ea) + DispBytes(ea, offset, ip) + tail, m, ea.kind, ext, shift)
            == Some(Memory(base, index, if index.Some? then Unit(scale) else 1,
                           EmittedDisp(ea, offset, ip, shift), false, 1 + ea.bytes))
  {
    ModrmFields(mod, rfield, 4);
    var s := SibBytes(ea) + DispBytes(ea, offset, ip) + tail;
    var rest := DispBytes(ea, offset, ip) + tail;
    assert s == [ea.sib] + rest;
    DispDecodes(ea, offset, ip, tail, shift);
    SibByteDecodes(ea.sib, rest, mod, scale, index, base, m, ea.kind, ext, shift);
    assert DecodeEa(ea.modrm, s, m, ea.kind, ext, shift) == DecodeSib(s, mod, m, ea.kind, ext, shift);
  }

  /** A SIB byte alone: the registers and scale that went into it are read back. */
  lemma SibByteDecodes(sib: byte, rest: seq<byte>, mod: nat, scale: nat, index: Option<Register>, base: Option<Register>,
                       m: Mode, kind: EaType, ext: RegExt, shift: nat)
    requires shift <= 7 && ext.breg <= 24 && ext.xreg <= 24 && ext.xregxv <= 24 && mod < 3 && scale < 4
    requires sib == SibFor(scale, index, base)
    requires base == None ==> mod == 0
    requires base.Some? ==> base.value.kind == GprOf(m.asize) && (mod == 0 ==> base.value.num % 8 != 5)
                            && base.value.num == base.value.num % 8 + ext.breg
    requires kind == Scalar && index.Some? ==> index.value.kind == GprOf(m.asize) && index.value.num != 4
                                               && index.value.num == index.value.num % 8 + ext.xreg
    requires kind == Scalar && index == None ==> ext.xreg == 0
    requires kind != Scalar ==> index.Some? && index.value.kind == VsibKind(kind)
                                && index.value.num == index.value.num % 8 + ext.xregxv
    ensures DecodeSib([sib] + rest, mod, m, kind, ext, shift)
            == WithDisp(base, index, Unit(scale), false, rest, if base == None || mod == 2 then 4 else mod, Unit(shift), 1)
  {
    var idx, b := if index.Some? then index.value.num else 4, if base.Some? then base.value.num else 5;
    ModrmFields(scale, idx, b);
    assert ([sib] + rest)[1..] == rest;
    assert sib as int % 8 == b % 8 && sib as int / 8 % 8 == idx % 8 && sib as int / 64 == scale;
  }

  /** The flags of three slots, combined as the encoder combines them, ask for
      exactly the high bits of the three registers. */
  lemma CarriesNumbers(r: Option<Register>, x: Option<Register>, b: Option<Register>, ext: RegExt)
    requires Carries(ext, RexFlags(r, SlotR).Or(RexFlags(x, SlotX)).Or(RexFlags(b, SlotB)))
    ensures b.Some? && !IsVectorClass(b.value.kind) ==> b.value.num == b.value.num % 8 + ext.breg
    ensures b.Some? && IsVectorClass(b.value.kind) ==> b.value.num == b.value.num % 8 + ext.bregbv
    ensures x.Some? && !IsVectorClass(x.value.kind) ==> x.value.num == x.value.num % 8 + ext.xreg
    ensures x.Some? && IsVectorClass(x.value.kind) ==> x.value.num == x.value.num % 8 + ext.xregxv
    ensures x == None ==> ext.xreg == 0
    ensures r.Some? ==> r.value.num == r.value.num % 8 + ext.rreg
  {
    SlotKeepsNumber(r, x, b);
  }

  /** Every flag word can be carried. */
  lemma SomeExtCarries(rex: Rex) returns (ext: RegExt)
    ensures Carries(ext, rex)
  {
    var b, x, r := HighBits(rex.b, rex.b1), HighBits(rex.x, rex.x1), HighBits(rex.r, rex.r1);
    ext := RegExt(b, b, x, x, r);
  }

  /** Whatever prefix carries the flags, and whatever follows, the emitted bytes
      read back as the operand's registers with the emitted displacement. */
  ghost predicate Represents(r: MemRef, ea: EaData, m: Mode, shift: nat)
    requires shift <= 7
  {
    forall ext: RegExt, tail: seq<byte>, ip: int | Carries(ext, ea.rex) ::
      var d := DecodeEmitted(ea, r.offset, ip, tail, m, ext, shift);
      && d.Some? && d.value.Memory? && d.value.len + 1 == ea.size && d.value.rip == ea.rip
      && d.value.disp == EmittedDisp(ea, r.offset, ip, shift)
      && SameSum(r.base, Index(r), r.scale, d.value.base, d.value.index, d.value.scale)
  }

  lemma NoSibRepresents(r: MemRef, ea: EaData, m: Mode, shift: nat, mod: nat, rnum: nat,
                        rreg: Option<Register>, base: Register, s: int)
    requires shift <= 7 && m.Valid() && m.asize != 16 && !ea.rip
    requires ea.kind == Scalar && !ea.sibPresent && base.num % 8 != 4 && base.kind == GprOf(m.asize)
    requires DispLayout(ea, mod, true, 4) && (mod == 0 ==> base.num % 8 != 5) && ea.size == 1 + ea.bytes
    requires ea.modrm == GenModrm(mod, rnum, base.num)
    requires ea.rex == RexFlags(rreg, SlotR).Or(RexFlags(None, SlotX)).Or(RexFlags(Some(base), SlotB))
    requires SameSum(r.base, Index(r), r.scale, Some(base), None, s)
    ensures Represents(r, ea, m, shift)
  {
    forall ext: RegExt, tail: seq<byte>, ip: int | Carries(ext, ea.rex)
      ensures DecodeEmitted(ea, r.offset, ip, tail, m, ext, shift)
              == Some(Memory(Some(base), None, 1, EmittedDisp(ea, r.offset, ip, shift), false, ea.bytes))
    {
      CarriesNumbers(rreg, None, Some(base), ext);
      NoSibDecodes(ea, mod, rnum, base, r.offset, ip, tail, m, ext, shift);
    }
    forall env: Env
      ensures Linear(env, r.base, Index(r), r.scale) == Linear(env, Some(base), None, 1)
    {
      assert Linear(env, Some(base), None, 1) == Linear(env, Some(base), None, s);
    }
  }

  lemma SibRepresents(r: MemRef, ea: EaData, m: Mode, shift: nat, mod: nat, rnum: nat, rreg: Option<Register>,
                      scale: nat, index: Option<Register>, base: Option<Register>, s: int)
    requires shift <= 7 && m.Valid() && m.asize != 16 && scale < 4 && !ea.rip
    requires ea.kind != Invalid && ea.sibPresent && ea.size == 2 + ea.bytes
    requires DispLayout(ea, mod, base.Some?, 4)
    requires base.Some? ==> base.value.kind == GprOf(m.asize) && (mod == 0 ==> base.value.num % 8 != 5)
    requires ea.kind == Scalar && index.Some? ==> index.value.kind == GprOf(m.asize) && index.value.num != 4
    requires ea.kind != Scalar ==> index.Some? && index.value.kind == VsibKind(ea.kind)
    requires ea.modrm == GenModrm(mod, rnum, 4)
    requires ea.sib == SibFor(scale, index, base)
    requires ea.rex == RexFlags(rreg, SlotR).Or(RexFlags(index, SlotX)).Or(RexFlags(base, SlotB))
    requires index.Some? ==> s == Unit(scale)
    requires SameSum(r.base, Index(r), r.scale, base, index, s)
    ensures Represents(r, ea, m, shift)
  {
    var s2 := if index.Some? then Unit(scale) else 1;
    forall ext: RegExt, tail: seq<byte>, ip: int | Carries(ext, ea.rex)
      ensures DecodeEmitted(ea, r.offset, ip, tail, m, ext, shift)
              == Some(Memory(base, index, s2, EmittedDisp(ea, r.offset, ip, shift), false, 1 + ea.bytes))
    {
      CarriesNumbers(rreg, index, base, ext);
      SibDecodes(ea, mod, rnum, scale, index, base, r.offset, ip, tail, m, ext, shift);
    }
    forall env: Env
      ensures Linear(env, r.base, Index(r), r.scale) == Linear(env, base, index, s2)
    {
      assert Linear(env, base, index, s2) == Linear(env, base, index, s);
    }
  }

  // ---- Acceptance ----

  /** Which base, index and scale a scalar 32- or 64-bit address can use: ESP and
      RSP (number 4) cannot be an index, but may trade places with a base, and
      a lone register times 3, 5 or 9 is split. */
  predicate Arrangeable(r: MemRef) {
    match (r.base, Index(r))
    case (Some(b), Some(i)) =>
      && (r.scale == 1 || r.scale == 2 || r.scale == 4 || r.scale == 8)
      && (i.num != 4 || (r.scale == 1 && b.num != 4))
    case (None, Some(i)) =>
      r.scale == 1 || (
        && i.num != 4
        && (if r.flags.mib && r.hint == Summed then r.scale == 2 || r.scale == 3 || r.scale == 5 || r.scale == 9
            else if r.flags.mib then r.scale == 2 || r.scale == 4 || r.scale == 8
            else r.scale == 2 || r.scale == 3 || r.scale == 4 || r.scale == 5 || r.scale == 8 || r.scale == 9))
    case _ => true
  }

  /** Every register present is a general register of the address size. */
  predicate RegistersFit(r: MemRef, kind: RegKind) {
    && (r.base.Some? ==> r.base.value.kind == kind)
    && (Index(r).Some? ==> Index(r).value.kind == kind)
  }

  predicate ScalarAccepted(r: MemRef, m: Mode) {
    && m.asize != 16 && RegistersFit(r, GprOf(m.asize))
    && r.dispSize != 16 && r.dispSize != 64
    && Arrangeable(r)
  }

  predicate IsVsibReg(o: Option<Register>) {
    o.Some? && IsVsibClass(o.value.kind)
  }

  predicate IsWideReg(o: Option<Register>) {
    o.Some? && (o.value.kind == Gpr32 || o.value.kind == Gpr64)
  }

  /** A vector SIB: one vector, and at most one general register besides. The
      vector may stand first only if nothing is scaled. */
  predicate VsibAccepted(r: MemRef, m: Mode) {
    && m.asize != 16 && r.dispSize != 16 && r.dispSize != 64
    && (r.base.Some? && !IsVsibReg(r.base) ==> r.base.value.kind == GprOf(m.asize))
    && (Index(r).Some? && !IsVsibReg(Index(r)) ==> Index(r).value.kind == GprOf(m.asize))
    && (IsVsibReg(r.base) ==> (r.scale == 0 || r.scale == 1) && !IsVsibReg(Index(r)))
    && (r.scale == 0 || r.scale == 1 || r.scale == 2 || r.scale == 4 || r.scale == 8)
  }

  function VsibType(r: MemRef): EaType {
    var v := if IsVsibReg(Index(r)) then Index(r) else r.base;
    if v.Some? && v.value.kind == Zmm then ZmmVsib
    else if v.Some? && v.value.kind == Ymm then YmmVsib
    else XmmVsib
  }

  /** What the displacement choice has achieved for the truncated offset `o`. */
  predicate DispChosen(r: MemRef, bytes: nat, disp8: int, disp8Ok: bool, o: int, wide: nat, shift: nat)
    requires shift <= 7
  {
    && (bytes == 0 || bytes == 1 || bytes == wide)
    && (bytes == 0 ==> o == 0)
    && (bytes == 1 ==> && -128 <= disp8 < 128
                       && (Disp8Fits(o, shift) <==> disp8 * Unit(shift) == o)
                       && (!r.flags.byteOffs ==> Disp8Fits(o, shift))
                       && (disp8Ok <==> r.known && Disp8Fits(o, shift)))
  }

  /** Which size was forced, if the displacement follows a base. */
  predicate SizeChosen(r: MemRef, bytes: nat, hasBase: bool) {
    && (r.flags.byteOffs && !r.flags.wordOffs && hasBase ==> bytes == 1)
    && (bytes == 1 ==> !r.flags.wordOffs && hasBase)
  }

  /** The code of a scale factor in a SIB byte. */
  function ScaleCode(s: int): (c: nat)
    requires s == 1 || s == 2 || s == 4 || s == 8
    ensures c < 4 && Unit(c) == s
  {
    if s == 1 then 0 else if s == 2 then 1 else if s == 4 then 2 else 3
  }

  predicate IsAddr16Reg(o: Option<Register>) {
    o.Some? && o.value.kind == Gpr16
    && (o.value.num == 3 || o.value.num == 5 || o.value.num == 6 || o.value.num == 7)
  }

  predicate IsBxBp(o: Option<Register>) {
    o.Some? && (o.value.num == 3 || o.value.num == 5)
  }

  /** BX, BP, SI or DI alone, or one of the first two with one of the last two. */
  predicate Addr16Accepted(r: MemRef, m: Mode) {
    && m.asize != 64 && r.dispSize != 32 && r.dispSize != 64
    && (r.base.Some? ==> IsAddr16Reg(r.base))
    && (Index(r).Some? ==> IsAddr16Reg(Index(r)) && r.scale == 1)
    && (r.base.Some? && Index(r).Some? ==> IsBxBp(r.base) != IsBxBp(Index(r)))
  }

  /** What `DEFAULT REL` and the pass number contribute to a pure offset. */
  datatype Context = Context(defaultRel: bool, passFirst: bool)

  /** Whether a pure offset ends up relative to the instruction pointer. */
  predicate IpRelative(r: MemRef, m: Mode, c: Context) {
    if m.bits == 64 then
      && (r.ipRel || (r.immediate && !r.flags.abs && (r.flags.rel || c.defaultRel)))
      && !(!c.passFirst && r.absolute)
    else r.ipRel
  }

  predicate PureAccepted(r: MemRef, m: Mode, c: Context) {
    !(m.bits == 64 && IpRelative(r, m, c) && r.flags.sib)
  }

  /** The kind of address that the registers of an operand ask for. */
  function ClassOf(r: MemRef): EaType {
    if !IsPure(r) && (IsVsibReg(r.base) || IsVsibReg(Index(r))) then VsibType(r) else Scalar
  }

  predicate MemAccepted(r: MemRef, m: Mode, c: Context) {
    if IsPure(r) then PureAccepted(r, m, c)
    else if IsVsibReg(r.base) || IsVsibReg(Index(r)) then VsibAccepted(r, m)
    else if IsWideReg(r.base) || IsWideReg(Index(r)) then ScalarAccepted(r, m)
    else Addr16Accepted(r, m)
  }

  /** The operands the encoder accepts. */
  predicate Accepted(input: Operand, m: Mode, c: Context, expected: EaType) {
    match input
    case RegOperand(reg, broadcast) => IsEaClass(reg.kind) && !broadcast && expected == Scalar
    case MemOperand(r, rounding) => !rounding && MemAccepted(r, m, c) && expected == ClassOf(r)
  }

  // ---- When the encoding is exact ----

  /** The two families that the encoder accepts and gets wrong: a pure 16-bit
      offset that is forced into a SIB byte, and 16-bit registers under a 32-bit
      address size. The second comes only after an error was reported, or where a byte
      code overrides the address size; see `AddressSize.NarrowNeedsError`. */
  predicate Misfit(r: MemRef, m: Mode) {
    if IsPure(r) then m.asize == 16 && r.flags.sib
    else m.asize == 32 && (r.base.Some? ==> r.base.value.kind == Gpr16)
         && (Index(r).Some? ==> Index(r).value.kind == Gpr16)
  }

  /** `v` survives truncation to 32 bits and sign extension to the address size. */
  predicate FitsDisp32(v: int, asize: int) {
    asize == 64 ==> -0x8000_0000 <= Sext(v, TWO64) < 0x8000_0000
  }

  function ShortOffset(r: MemRef, asize: int): int {
    if asize == 16 then Sext(r.offset, TWO16) else Sext(r.offset, TWO32)
  }

  /** Whether a pure offset is written as a displacement from the instruction pointer. */
  predicate IsRip(r: MemRef, m: Mode, c: Context) {
    IsPure(r) && m.bits == 64 && IpRelative(r, m, c)
  }

  /** Whether a scalar address keeps a base register. Two registers always do. A base
      alone does not if it is hinted to be the index, by NOSPLIT or in a split SIB; a
      register with a scale does if the scale is split, or is one. */
  predicate KeepsBase(r: MemRef) {
    match (r.base, Index(r))
    case (Some(_), Some(_)) => true
    case (Some(b), None) => !(r.hintBase == r.base && r.hint == NotBase && Demotable(r, b))
    case (None, Some(i)) =>
      if r.scale == 1 then
        if r.hintBase == Some(i) && r.hint == NotBase then i.num == 4
        else !(r.hintBase == None && r.hint == NotBase && Demotable(r, i))
      else if r.flags.mib then r.hint == Summed
      else (r.scale == 2 && i.num != 4 && (!r.flags.timesTwo || r.hint == Summed)) || r.scale == 3 || r.scale == 5 || r.scale == 9
    case _ => false
  }

  /** A base that can be the index instead. */
  predicate Demotable(r: MemRef, b: Register) {
    if r.flags.mib then b.num != 4 else r.flags.timesTwo && b.num % 8 != 4
  }

  /** Whether there is a base register for a displacement of one byte. */
  predicate HasBase(r: MemRef) {
    if IsPure(r) then false
    else if IsVsibReg(r.base) then Index(r).Some?
    else if IsVsibReg(Index(r)) then r.base.Some?
    else if IsWideReg(r.base) || IsWideReg(Index(r)) then KeepsBase(r)
    else true
  }

  /** Whether the programmer has the displacement written in one byte. */
  predicate ForcedShort(r: MemRef) {
    r.flags.byteOffs && !r.flags.wordOffs && HasBase(r)
  }

  /** The exact condition for the encoded address to be the written one: the operand is
      no misfit, its displacement fits 32 bits, and fits the byte that it is forced into. */
  predicate Exact(r: MemRef, ip: int, m: Mode, c: Context, shift: nat)
    requires shift <= 7
  {
    && !Misfit(r, m)
    && FitsDisp32(if IsRip(r, m, c) then r.offset - ip else r.offset, m.asize)
    && (ForcedShort(r) ==> Disp8Fits(ShortOffset(r, m.asize), shift))
  }

  /** The same, of an encoding that was made. */
  predicate NothingLost(r: MemRef, ea: EaData, ip: int, m: Mode, shift: nat)
    requires shift <= 7
  {
    && !Misfit(r, m)
    && FitsDisp32(if ea.rip then r.offset - ip else r.offset, m.asize)
    && (ea.bytes == 1 ==> Disp8Fits(ShortOffset(r, m.asize), shift))
  }

  /** What can be told of an encoding beforehand. */
  predicate Foreseen(r: MemRef, ea: EaData, m: Mode, c: Context, shift: nat)
    requires shift <= 7
  {
    && (ea.rip <==> IsRip(r, m, c))
    && (ForcedShort(r) ==> ea.bytes == 1)
    && (ea.bytes == 1 ==> ForcedShort(r) || Disp8Fits(ShortOffset(r, m.asize), shift))
  }

  lemma ForeseenIsExact(r: MemRef, ea: EaData, ip: int, m: Mode, c: Context, shift: nat)
    requires shift <= 7 && (!Misfit(r, m) ==> Foreseen(r, ea, m, c, shift))
    ensures NothingLost(r, ea, ip, m, shift) <==> Exact(r, ip, m, c, shift)
  {
  }

  lemma SextNarrow(v: int)
    ensures Sext(v, TWO64) == Sext(v, TWO32) <==> FitsDisp32(v, 64)
  {
    var a, b := Sext(v, TWO64), Sext(v, TWO32);
    assert a % TWO32 == v % TWO32;
    if FitsDisp32(v, 64) {
      ModEqual(a, b, TWO32);
      ModEqual(b, v, TWO32);
      CongruentInWindow(a, b, TWO32);
    }
  }

  /** A small displacement is congruent to `v` just when it is the signed value of `v`. */
  lemma SmallCongruence(d: int, v: int, m: int)
    requires m > 0 && m % 2 == 0 && -m / 2 <= d < m / 2
    ensures d % m == v % m <==> Sext(v, m) == d
  {
    ModEqual(Sext(v, m), v, m);
    if d % m == v % m {
      CongruentInWindow(d, Sext(v, m), m);
    }
  }

  lemma CompressedRange(d: int, shift: nat)
    requires shift <= 7 && -128 <= d < 128
    ensures -0x4000 <= d * Unit(shift) < 0x4000
  {
  }

  /** The displacement fields of an accepted operand. */
  predicate DispSettled(r: MemRef, ea: EaData, m: Mode, shift: nat)
    requires shift <= 7
  {
    && DispChosen(r, ea.bytes, ea.disp8, ea.disp8Ok, ShortOffset(r, m.asize), if m.asize == 16 then 2 else 4, shift)
    && (ea.rip ==> ea.bytes == 4 && m.asize != 16)
  }

  /** The emitted displacement agrees with `offset` modulo the address space
      just when nothing was lost on the way. */
  lemma DispExact(r: MemRef, ea: EaData, ip: int, m: Mode, shift: nat)
    requires shift <= 7 && m.Valid() && DispSettled(r, ea, m, shift)
    ensures var v := if ea.rip then r.offset - ip else r.offset;
      EmittedDisp(ea, r.offset, ip, shift) % AddressSpace(m.asize) == v % AddressSpace(m.asize)
      <==> FitsDisp32(v, m.asize) && (ea.bytes == 1 ==> Disp8Fits(ShortOffset(r, m.asize), shift))
  {
    var v := if ea.rip then r.offset - ip else r.offset;
    if ea.bytes == 1 {
      CompressedRange(ea.disp8, shift);
    }
    SmallCongruence(EmittedDisp(ea, r.offset, ip, shift), v, AddressSpace(m.asize));
    SextNarrow(v);
  }

  predicate OverflowGeneral(v: int, modulus: int) {
    !(0 <= v < modulus) && !(0 <= -v < modulus)
  }

  /** Code generation's test for reporting a displacement that does not fit. */
  predicate OverflowReported(r: MemRef, ea: EaData, m: Mode) {
    if ea.bytes == 0 then false
    else if ea.bytes == 1 then !ea.disp8Ok
    else if ea.rip then false
    else
      var field := if ea.bytes == 2 then TWO16 else TWO32;
      || (m.asize != 64 && OverflowGeneral(r.offset, AddressSpace(m.asize)))
      || Sext(r.offset, AddressSpace(m.asize)) != Sext(r.offset, field)
  }

  /** A 64-bit offset whose high half is lost goes unreported when its low half takes no or
      one byte. */
  predicate LostUnreported(r: MemRef, ea: EaData, m: Mode) {
    m.asize == 64 && ea.bytes <= 1 && !(-0x8000_0000 <= r.offset < 0x8000_0000)
  }

  /** An unreported memory operand is exact but for that. */
  lemma UnreportedMeansNothingLost(r: MemRef, ea: EaData, ip: int, m: Mode, shift: nat)
    requires shift <= 7 && m.Valid() && !Misfit(r, m) && !ea.rip && DispSettled(r, ea, m, shift)
    requires -TWO64 / 2 <= r.offset < TWO64 / 2
    ensures !OverflowReported(r, ea, m) ==> (NothingLost(r, ea, ip, m, shift) <==> !LostUnreported(r, ea, m))
  {
    SextSmall(r.offset);
    SextNarrow(r.offset);
  }

  /** The same of all positions of an instruction. */
  lemma UnreportedExact(r: MemRef, ea: EaData, m: Mode, c: Context, shift: nat)
    requires shift <= 7 && m.Valid() && !Misfit(r, m) && !ea.rip && DispSettled(r, ea, m, shift) && Foreseen(r, ea, m, c, shift)
    requires -TWO64 / 2 <= r.offset < TWO64 / 2 && !OverflowReported(r, ea, m)
    ensures forall ip :: Exact(r, ip, m, c, shift) <==> !LostUnreported(r, ea, m)
  {
    hide OverflowReported;
    hide DispSettled;
    hide LostUnreported;
    hide Misfit;
    forall ip: int ensures Exact(r, ip, m, c, shift) <==> !LostUnreported(r, ea, m) {
      UnreportedMeansNothingLost(r, ea, ip, m, shift);
      ForeseenIsExact(r, ea, ip, m, c, shift);
    }
  }

  lemma FaithfulMeansCongruent(r: MemRef, ea: EaData, ip: int, m: Mode, shift: nat)
    requires shift <= 7 && Represents(r, ea, m, shift)
    ensures Faithful(r, ea, ip, m, shift) <==>
      var e := EmittedDisp(ea, r.offset, ip, shift);
      (if ea.rip then ip + e else e) % AddressSpace(m.asize) == r.offset % AddressSpace(m.asize)
  {
    var e := EmittedDisp(ea, r.offset, ip, shift);
    var f := if ea.rip then ip + e else e;
    var space := AddressSpace(m.asize);
    forall ext: RegExt, tail: seq<byte>, env: Env | Carries(ext, ea.rex)
      ensures var d := DecodeEmitted(ea, r.offset, ip, tail, m, ext, shift);
        && d.Some? && d.value.Memory? && d.value.len + 1 == ea.size
        && (Address(d.value, env, ip, m.asize) == Denoted(r, env, m.asize) <==> f % space == r.offset % space)
    {
      var d := DecodeEmitted(ea, r.offset, ip, tail, m, ext, shift);
      var sum := Linear(env, r.base, Index(r), r.scale);
      assert sum == Linear(env, d.value.base, d.value.index, d.value.scale);
      ModAdd(f, r.offset, sum, space);
    }
    var ext := SomeExtCarries(ea.rex);
    var env: Env := reg => 0;
    assert Faithful(r, ea, ip, m, shift) ==>
      Address(DecodeEmitted(ea, r.offset, ip, [], m, ext, shift).value, env, ip, m.asize) == Denoted(r, env, m.asize);
  }

  /** A represented operand is faithful exactly when no displacement bits were lost. */
  lemma RepresentedIsExact(r: MemRef, ea: EaData, ip: int, m: Mode, shift: nat)
    requires shift <= 7 && m.Valid() && Represents(r, ea, m, shift) && !Misfit(r, m)
    requires DispSettled(r, ea, m, shift)
    ensures Faithful(r, ea, ip, m, shift) <==> NothingLost(r, ea, ip, m, shift)
  {
    FaithfulMeansCongruent(r, ea, ip, m, shift);
    DispExact(r, ea, ip, m, shift);
    if ea.rip {
      ModAdd(EmittedDisp(ea, r.offset, ip, shift), r.offset - ip, ip, AddressSpace(m.asize));
    }
  }

  lemma FaithfulAt(r: MemRef, ea: EaData, ip: int, m: Mode, shift: nat, ext: RegExt, env: Env)
    requires shift <= 7 && Carries(ext, ea.rex) && Faithful(r, ea, ip, m, shift)
    ensures var d := DecodeEmitted(ea, r.offset, ip, [], m, ext, shift);
      d.Some? && d.value.Memory? && Address(d.value, env, ip, m.asize) == Denoted(r, env, m.asize)
  {
  }

  lemma DecodedWidth(modrm: byte, s: seq<byte>, m: Mode, ext: RegExt, shift: nat)
    requires shift <= 7 && ext.breg <= 24 && ext.xreg <= 24 && ext.xregxv <= 24 && m.asize == 32
    ensures var d := DecodeEa(modrm, s, m, Scalar, ext, shift);
      d.Some? && d.value.Memory? ==>
        && (d.value.base.Some? ==> d.value.base.value.kind == Gpr32)
        && (d.value.index.Some? ==> d.value.index.value.kind == Gpr32)
  {
  }

  /** The register assignment that gives one register the value 1 and all others 0. */
  function OneHot(reg: Register): Env {
    x => if x == reg then 1 else 0
  }

  const ZERO_ENV: Env := x => 0

  lemma BlindTo(base: Option<Register>, index: Option<Register>, scale: int, reg: Register)
    requires base != Some(reg) && index != Some(reg)
    ensures Linear(OneHot(reg), base, index, scale) == Linear(ZERO_ENV, base, index, scale) == 0
  {
  }

  /** If two operands agree at two register assignments, raising one register
      by 1 moves both addresses alike. */
  lemma AgreeingMoves(d: Decoded, r: MemRef, ip: int, asize: int, reg: Register)
    requires d.Memory?
    requires Address(d, ZERO_ENV, ip, asize) == Denoted(r, ZERO_ENV, asize)
    requires Address(d, OneHot(reg), ip, asize) == Denoted(r, OneHot(reg), asize)
    ensures (Linear(OneHot(reg), r.base, Index(r), r.scale) - Linear(OneHot(reg), d.base, d.index, d.scale))
            % AddressSpace(asize) == 0
  {
    LinearAtZero(d.base, d.index, d.scale);
    LinearAtZero(r.base, Index(r), r.scale);
    MovesAlike(Linear(ZERO_ENV, d.base, d.index, d.scale), Linear(ZERO_ENV, r.base, Index(r), r.scale),
               Linear(OneHot(reg), d.base, d.index, d.scale), Linear(OneHot(reg), r.base, Index(r), r.scale),
               if d.rip then ip + d.disp else d.disp, r.offset, AddressSpace(asize));
  }

  lemma FaithfulMoves(r: MemRef, ea: EaData, ip: int, m: Mode, shift: nat, ext: RegExt, reg: Register)
    requires shift <= 7 && Carries(ext, ea.rex) && Faithful(r, ea, ip, m, shift)
    ensures var d := DecodeEmitted(ea, r.offset, ip, [], m, ext, shift);
      && d.Some? && d.value.Memory?
      && (Linear(OneHot(reg), r.base, Index(r), r.scale) - Linear(OneHot(reg), d.value.base, d.value.index, d.value.scale))
         % AddressSpace(m.asize) == 0
  {
    FaithfulAt(r, ea, ip, m, shift, ext, ZERO_ENV);
    FaithfulAt(r, ea, ip, m, shift, ext, OneHot(reg));
    AgreeingMoves(DecodeEmitted(ea, r.offset, ip, [], m, ext, shift).value, r, ip, m.asize, reg);
  }

  lemma LinearAtZero(base: Option<Register>, index: Option<Register>, scale: int)
    ensures Linear(ZERO_ENV, base, index, scale) == 0
  {
  }

  lemma MovesAlike(l0: int, k0: int, l: int, k: int, x: int, o: int, m: int)
    requires m > 0 && l0 == k0 == 0 && (l0 + x) % m == (k0 + o) % m && (l + x) % m == (k + o) % m
    ensures (k - l) % m == 0
  {
    ModAdd(x, o, l, m);
    ModEqual(k + o, l + o, m);
    assert (k + o) - (l + o) == k - l;
  }

  /** With a 32-bit address size the decoder never looks at a 16-bit register. */
  lemma NarrowRegistersMisfit(r: MemRef, ea: EaData, ip: int, m: Mode, shift: nat)
    requires shift <= 7 && m.asize == 32 && Addr16Accepted(r, m) && !IsPure(r) && ea.kind == Scalar
    ensures !Faithful(r, ea, ip, m, shift)
  {
    if Faithful(r, ea, ip, m, shift) {
      var reg := if r.base.Some? then r.base.value else Index(r).value;
      var ext := SomeExtCarries(ea.rex);
      FaithfulMoves(r, ea, ip, m, shift, ext, reg);
      var s := SibBytes(ea) + DispBytes(ea, r.offset, ip) + [];
      DecodedWidth(ea.modrm, s, m, ext, shift);
      var d := DecodeEa(ea.modrm, s, m, Scalar, ext, shift).value;
      BlindTo(d.base, d.index, d.scale, reg);
    }
  }

  /** Without a displacement, r/m 4 is SI. */
  lemma DecodedSi(modrm: byte, s: seq<byte>, m: Mode, ext: RegExt, shift: nat)
    requires m.asize == 16 && modrm as int / 64 == 0 && modrm as int % 8 == 4
    requires shift <= 7 && ext.breg <= 24 && ext.xreg <= 24 && ext.xregxv <= 24
    ensures DecodeEa(modrm, s, m, Scalar, ext, shift) == Some(Memory(Some(Reg(Gpr16, 6)), None, 1, 0, false, 0))
  {
  }

  lemma SiMoves(r: MemRef)
    requires IsPure(r)
    ensures Linear(OneHot(Reg(Gpr16, 6)), Some(Reg(Gpr16, 6)), None, 1) == 1
    ensures Linear(OneHot(Reg(Gpr16, 6)), r.base, Index(r), r.scale) == 0
  {
  }

  /** A SIB byte means nothing in 16-bit addressing: the processor reads [SI]. */
  lemma SibIn16Misfit(r: MemRef, ea: EaData, ip: int, m: Mode, shift: nat, rnum: nat)
    requires shift <= 7 && m.asize == 16 && IsPure(r) && ea.kind == Scalar
    requires ea.modrm == GenModrm(0, rnum, 4)
    ensures !Faithful(r, ea, ip, m, shift)
  {
    hide Faithful;
    hide DecodeEa;
    hide Linear;
    hide GenModrm;
    if Faithful(r, ea, ip, m, shift) {
      ModrmFields(0, rnum, 4);
      var ext := SomeExtCarries(ea.rex);
      FaithfulMoves(r, ea, ip, m, shift, ext, Reg(Gpr16, 6));
      DecodedSi(ea.modrm, SibBytes(ea) + DispBytes(ea, r.offset, ip) + [], m, ext, shift);
      SiMoves(r);
    }
  }

  lemma Rm16Represents(r: MemRef, ea: EaData, m: Mode, shift: nat, mod: nat, rnum: nat, rm: nat)
    requires shift <= 7 && m.asize == 16 && rm < 8 && !ea.rip
    requires ea.kind == Scalar && !ea.sibPresent && ea.size == 1 + ea.bytes
    requires DispLayout(ea, mod, true, 2) && (mod == 0 ==> rm != 6)
    requires ea.modrm == GenModrm(mod, rnum, rm)
    requires SameSum(r.base, Index(r), r.scale, Some(Base16(rm)), Index16(rm), 1)
    ensures Represents(r, ea, m, shift)
  {
    ModrmFields(mod, rnum, rm);
    forall ext: RegExt, tail: seq<byte>, ip: int | Carries(ext, ea.rex)
      ensures DecodeEmitted(ea, r.offset, ip, tail, m, ext, shift)
              == Some(Memory(Some(Base16(rm)), Index16(rm), 1, EmittedDisp(ea, r.offset, ip, shift), false, ea.bytes))
    {
      assert SibBytes(ea) + DispBytes(ea, r.offset, ip) + tail == DispBytes(ea, r.offset, ip) + tail;
      DispDecodes(ea, r.offset, ip, tail, shift);
    }
  }

  lemma PureRepresents(r: MemRef, ea: EaData, m: Mode, shift: nat, rnum: nat)
    requires shift <= 7 && m.Valid() && IsPure(r) && ea.kind == Scalar && !ea.sibPresent
    requires ea.rip == (m.bits == 64) && ea.bytes == (if m.asize == 16 then 2 else 4) && ea.size == 1 + ea.bytes
    requires ea.modrm == GenModrm(0, rnum, if m.asize == 16 then 6 else 5)
    ensures Represents(r, ea, m, shift)
  {
    ModrmFields(0, rnum, if m.asize == 16 then 6 else 5);
    forall ext: RegExt, tail: seq<byte>, ip: int | Carries(ext, ea.rex)
      ensures DecodeEmitted(ea, r.offset, ip, tail, m, ext, shift)
              == Some(Memory(None, None, 1, EmittedDisp(ea, r.offset, ip, shift), ea.rip, ea.bytes))
    {
      assert SibBytes(ea) + DispBytes(ea, r.offset, ip) + tail == DispBytes(ea, r.offset, ip) + tail;
      DispDecodes(ea, r.offset, ip, tail, shift);
    }
  }

  lemma OrNothing(rex: Rex)
    ensures rex.Or(NO_REX) == rex
  {
  }

  lemma AbsoluteRepresents(r: MemRef, ea: EaData, m: Mode, shift: nat, rnum: nat, rreg: Option<Register>)
    requires shift <= 7 && m.Valid() && m.asize != 16 && IsPure(r)
    requires ea.kind == Scalar && ea.sibPresent && ea.bytes == 4 && ea.size == 6 && !ea.rip
    requires ea.rex == RexFlags(rreg, SlotR) && ea.sib == GenSib(0, 4, 5) && ea.modrm == GenModrm(0, rnum, 4)
    ensures Represents(r, ea, m, shift)
  {
    OrNothing(ea.rex);
    SibRepresents(r, ea, m, shift, 0, rnum, rreg, 0, None, None, r.scale);
  }

  /** The register in the r/m slot, and its number once the prefix bits are added. */
  ghost predicate RepresentsDirect(reg: Register, ea: EaData) {
    ea.modrm as int / 64 == 3 && ea.size == 1 && ea.bytes == 0 && !ea.sibPresent
    && forall ext: RegExt | CarriesDirect(ext, ea.rex) ::
         ea.modrm as int % 8 + (if IsVectorClass(reg.kind) then ext.bregbv else ext.breg) == reg.num
  }

  lemma DirectRepresents(reg: Register, ea: EaData, rnum: nat, rreg: Option<Register>)
    requires ea.size == 1 && ea.bytes == 0 && !ea.sibPresent && ea.modrm == GenModrm(3, rnum, reg.num)
    requires ea.rex == RexFlags(rreg, SlotR).Or(RexFlags(Some(reg), SlotB))
    ensures RepresentsDirect(reg, ea)
  {
    ModrmFields(3, rnum, reg.num);
    OrNothing(RexFlags(rreg, SlotR));
    SlotKeepsNumber(rreg, None, Some(reg));
  }

  /** What each encoder establishes about the operand it accepts. */
  ghost predicate Settled(r: MemRef, ea: EaData, m: Mode, shift: nat, rnum: nat)
    requires shift <= 7
  {
    && ea.kind == ClassOf(r)
    && (!Misfit(r, m) ==> Represents(r, ea, m, shift) && DispSettled(r, ea, m, shift))
    && (Misfit(r, m) ==> ea.kind == Scalar)
    && (Misfit(r, m) && IsPure(r) ==> ea.modrm == GenModrm(0, rnum, 4))
    && (Misfit(r, m) && !IsPure(r) ==> Addr16Accepted(r, m))
  }

  /** The two misfit families are never faithful, every other operand exactly
      when no displacement bits were lost. */
  lemma AcceptedIsExact(r: MemRef, ea: EaData, m: Mode, shift: nat, rnum: nat)
    requires shift <= 7 && m.Valid()
    requires Settled(r, ea, m, shift, rnum)
    ensures forall ip :: Faithful(r, ea, ip, m, shift) <==> NothingLost(r, ea, ip, m, shift)
  {
    forall ip: int
      ensures Faithful(r, ea, ip, m, shift) <==> NothingLost(r, ea, ip, m, shift)
    {
      if !Misfit(r, m) {
        RepresentedIsExact(r, ea, ip, m, shift);
      } else if IsPure(r) {
        SibIn16Misfit(r, ea, ip, m, shift, rnum);
      } else {
        NarrowRegistersMisfit(r, ea, ip, m, shift);
      }
    }
  }

  // ---- Operands that are accepted and encoded wrong ----

  const NO_FLAGS := EaFlags(false, false, false, false, false, false, false)
  const NO_CONTEXT := Context(false, false)

  function RefTo(base: Register, offset: int, flags: EaFlags): MemRef {
    MemRef(Some(base), None, 0, None, NoHint, offset, 0, flags, true, false, false, false)
  }

  /** [rax+2^32]: the high half of the displacement is lost. */
  lemma LostHighHalf(ip: int)
    ensures var r, m := RefTo(Reg(Gpr64, 0), 0x1_0000_0000, NO_FLAGS), Mode(64, 64);
      MemAccepted(r, m, NO_CONTEXT) && !Exact(r, ip, m, NO_CONTEXT, 0)
  {
    assert Sext(0x1_0000_0000, TWO64) == 0x1_0000_0000;
  }

  /** [byte eax+128]: the displacement does not fit the byte that is asked for. */
  lemma LostInByte(ip: int)
    ensures var r, m := RefTo(Reg(Gpr32, 0), 128, NO_FLAGS.(byteOffs := true)), Mode(32, 32);
      MemAccepted(r, m, NO_CONTEXT) && !Exact(r, ip, m, NO_CONTEXT, 0)
  {
    assert Sext(128, TWO32) == 128;
  }

  /** [1234h] under a 16-bit address size, with a SIB byte asked for. */
  lemma SibMisfit(ip: int)
    ensures var r := RefTo(Reg(Gpr16, 0), 0x1234, NO_FLAGS.(sib := true)).(base := None); var m := Mode(16, 16);
      MemAccepted(r, m, NO_CONTEXT) && !Exact(r, ip, m, NO_CONTEXT, 0)
  {
  }

  /** [bx] under a 32-bit address size. */
  lemma NarrowMisfit(ip: int)
    ensures var r, m := RefTo(Reg(Gpr16, 3), 0, NO_FLAGS), Mode(32, 32);
      MemAccepted(r, m, NO_CONTEXT) && !Exact(r, ip, m, NO_CONTEXT, 0)
  {
  }

  /** The size bookkeeping and the reg field, common to every accepted operand. */
  predicate Framed(ea: EaData, rnum: nat, rreg: Option<Register>) {
    var want := RexFlags(rreg, SlotR);
    && ea.size == 1 + (if ea.sibPresent then 1 else 0) + ea.bytes
    && (ea.bytes == 0 || ea.bytes == 1 || ea.bytes == 2 || ea.bytes == 4)
    && ea.modrm as int / 8 % 8 == rnum % 8
    && ea.rex.r == want.r && ea.rex.r1 == want.r1 && ea.rex.rv == want.rv
    && !ea.rex.w && !ea.rex.vex && !ea.rex.evex && !ea.rex.rex2
  }

  lemma FramedBy(ea: EaData, mod: nat, rnum: nat, rm: nat,
                 rreg: Option<Register>, it: Option<Register>, bt: Option<Register>)
    requires mod < 4 && ea.modrm == GenModrm(mod, rnum, rm)
    requires ea.size == 1 + (if ea.sibPresent then 1 else 0) + ea.bytes
    requires ea.bytes == 0 || ea.bytes == 1 || ea.bytes == 2 || ea.bytes == 4
    requires ea.rex == RexFlags(rreg, SlotR).Or(RexFlags(it, SlotX)).Or(RexFlags(bt, SlotB))
    ensures Framed(ea, rnum, rreg)
  {
    ModrmFields(mod, rnum, rm);
    CombinedSlots(rreg, it, bt);
  }

  lemma FramedPlain(ea: EaData, mod: nat, rnum: nat, rm: nat, rreg: Option<Register>)
    requires mod < 4 && ea.modrm == GenModrm(mod, rnum, rm)
    requires ea.size == 1 + (if ea.sibPresent then 1 else 0) + ea.bytes
    requires ea.bytes == 0 || ea.bytes == 1 || ea.bytes == 2 || ea.bytes == 4
    requires ea.rex == RexFlags(rreg, SlotR)
    ensures Framed(ea, rnum, rreg)
  {
    ModrmFields(mod, rnum, rm);
    OwnSlotOnly(rreg, SlotR);
  }

  lemma NoSibDone(r: MemRef, ea: EaData, m: Mode, shift: nat, mod: nat, rnum: nat,
                  rreg: Option<Register>, base: Register, s: int)
    requires shift <= 7 && m.Valid() && m.asize != 16 && !ea.rip
    requires ea.kind == Scalar && !ea.sibPresent && base.num % 8 != 4 && base.kind == GprOf(m.asize)
    requires DispLayout(ea, mod, true, 4) && (mod == 0 ==> base.num % 8 != 5) && ea.size == 1 + ea.bytes
    requires ea.modrm == GenModrm(mod, rnum, base.num)
    requires ea.rex == RexFlags(rreg, SlotR).Or(RexFlags(None, SlotX)).Or(RexFlags(Some(base), SlotB))
    requires SameSum(r.base, Index(r), r.scale, Some(base), None, s)
    ensures Represents(r, ea, m, shift) && Framed(ea, rnum, rreg)
  {
    FramedBy(ea, mod, rnum, base.num, rreg, None, Some(base));
    NoSibRepresents(r, ea, m, shift, mod, rnum, rreg, base, s);
  }

  lemma SibDone(r: MemRef, ea: EaData, m: Mode, shift: nat, mod: nat, rnum: nat, rreg: Option<Register>,
                scale: nat, index: Option<Register>, base: Option<Register>, s: int)
    requires shift <= 7 && m.Valid() && m.asize != 16 && scale < 4 && !ea.rip
    requires ea.kind != Invalid && ea.sibPresent && ea.size == 2 + ea.bytes
    requires DispLayout(ea, mod, base.Some?, 4)
    requires base.Some? ==> base.value.kind == GprOf(m.asize) && (mod == 0 ==> base.value.num % 8 != 5)
    requires ea.kind == Scalar && index.Some? ==> index.value.kind == GprOf(m.asize) && index.value.num != 4
    requires ea.kind != Scalar ==> index.Some? && index.value.kind == VsibKind(ea.kind)
    requires ea.modrm == GenModrm(mod, rnum, 4)
    requires ea.sib == SibFor(scale, index, base)
    requires ea.rex == RexFlags(rreg, SlotR).Or(RexFlags(index, SlotX)).Or(RexFlags(base, SlotB))
    requires index.Some? ==> s == Unit(scale)
    requires SameSum(r.base, Index(r), r.scale, base, index, s)
    ensures Represents(r, ea, m, shift) && Framed(ea, rnum, rreg)
  {
    FramedBy(ea, mod, rnum, 4, rreg, index, base);
    SibRepresents(r, ea, m, shift, mod, rnum, rreg, scale, index, base, s);
  }

  /** Registers whose number takes more than three bits. */
  predicate IsHigh(o: Option<Register>) {
    o.Some? && o.value.num >= 8
  }

  /** The byte registers that only a REX prefix selects. */
  predicate IsLowByte(o: Option<Register>) {
    o.Some? && o.value.kind == Gpr8 && o.value.num >= 4
  }

  /** Some payload bit of a register. */
  predicate HasRegisterBit(rex: Rex) {
    rex.b || rex.x || rex.r || rex.b1 || rex.x1 || rex.r1
  }

  /** The flags that registers have left, some of them high, some of them byte registers. */
  predicate Collected(rex: Rex, high: bool, lowByte: bool) {
    && (HasRegisterBit(rex) <==> high) && (rex.forced <==> lowByte)
    && !rex.w && !rex.lockR && !rex.noHigh && !rex.vex && !rex.evex && !rex.rex2 && !rex.noW
  }

  lemma OneCollected(o: Option<Register>, slot: Slot)
    ensures Collected(RexFlags(o, slot), IsHigh(o), IsLowByte(o))
  {
    if o.Some? {
      match slot {
        case SlotB =>
        case SlotX =>
        case SlotR =>
      }
    }
  }

  lemma BothCollected(p: Rex, q: Rex, high: bool, lowByte: bool, high2: bool, lowByte2: bool)
    requires Collected(p, high, lowByte) && Collected(q, high2, lowByte2)
    ensures Collected(p.Or(q), high || high2, lowByte || lowByte2)
  {
  }

  /** The flags of all registers of an operand, and of the register field. */
  predicate Gathered(rex: Rex, input: Operand, rreg: Option<Register>) {
    Collected(rex, IsHigh(rreg) || HasHigh(input), IsLowByte(rreg) || HasLowByte(input))
  }

  predicate HasHigh(input: Operand) {
    match input
    case RegOperand(reg, _) => reg.num >= 8
    case MemOperand(r, _) => IsHigh(r.base) || IsHigh(Index(r))
  }

  predicate HasLowByte(input: Operand) {
    match input
    case RegOperand(reg, _) => IsLowByte(Some(reg))
    case MemOperand(r, _) => IsLowByte(r.base) || IsLowByte(Index(r))
  }

  /** A memory operand has a vector register as its index only. */
  lemma SlotsGathered(r: MemRef, rounding: bool, rreg: Option<Register>, it: Option<Register>, bt: Option<Register>, rex: Rex)
    requires rex == RexFlags(rreg, SlotR).Or(RexFlags(it, SlotX)).Or(RexFlags(bt, SlotB))
    requires (it == r.base || it == Index(r) || it == None) && (bt == r.base || bt == Index(r) || bt == None)
    requires r.base.Some? ==> r.base == it || r.base == bt
    requires Index(r).Some? ==> Index(r) == it || Index(r) == bt
    ensures Gathered(rex, MemOperand(r, rounding), rreg)
    ensures rex.bv <==> bt.Some? && IsVectorClass(bt.value.kind)
    ensures rex.xv <==> it.Some? && IsVectorClass(it.value.kind)
  {
    CombinedSlots(rreg, it, bt);
    OneCollected(rreg, SlotR);
    OneCollected(it, SlotX);
    OneCollected(bt, SlotB);
    hide Collected;
    hide RexFlags;
    BothCollected(RexFlags(rreg, SlotR), RexFlags(it, SlotX), IsHigh(rreg), IsLowByte(rreg), IsHigh(it), IsLowByte(it));
    BothCollected(RexFlags(rreg, SlotR).Or(RexFlags(it, SlotX)), RexFlags(bt, SlotB), IsHigh(rreg) || IsHigh(it),
                  IsLowByte(rreg) || IsLowByte(it), IsHigh(bt), IsLowByte(bt));
    SlotKeepsNumber(rreg, it, bt);
  }

  /** The flags of a memory operand: its index alone may be a vector register. */
  predicate MemGathered(ea: EaData, r: MemRef, rreg: Option<Register>) {
    Gathered(ea.rex, MemOperand(r, false), rreg) && !ea.rex.bv && (ea.rex.xv <==> ea.kind != Scalar)
  }

  /** Without flags from the operand: it has 16-bit registers, or none. */
  lemma PlainGathered(ea: EaData, r: MemRef, rreg: Option<Register>)
    requires ea.kind == Scalar && ea.rex == RexFlags(rreg, SlotR)
    requires (r.base.Some? ==> IsAddr16Reg(r.base)) && (Index(r).Some? ==> IsAddr16Reg(Index(r)))
    ensures MemGathered(ea, r, rreg)
  {
    OneCollected(rreg, SlotR);
    OwnSlotOnly(rreg, SlotR);
  }

  /** A displacement of one byte counts operands: a multiple of their width. */
  lemma CountsOperands(r: MemRef, ea: EaData, m: Mode, t: Tuple, b: bool, w: nat, ll: nat)
    requires w <= 1 && ll <= 3 && ea.bytes == 1 && DispSettled(r, ea, m, Disp8Shift(t, b, w, ll))
    requires Disp8Fits(ShortOffset(r, m.asize), Disp8Shift(t, b, w, ll))
    ensures forall n: int | Measures(ExtentOf(t, b, ll), w, ll, n) :: ea.disp8 * n == ShortOffset(r, m.asize)
  {
    var shift := Disp8Shift(t, b, w, ll);
    hide Disp8Shift;
    hide Unit;
    forall n: int | Measures(ExtentOf(t, b, ll), w, ll, n) ensures ea.disp8 * n == ShortOffset(r, m.asize) {
      UnitMeasures(t, b, w, ll);
      OneMeasure(ExtentOf(t, b, ll), w, ll, n, Unit(shift));
    }
  }

  /** What goes into the reg field of the ModRM byte. */
  datatype RField = RegField(reg: Register) | Digit(n: nat)

  class Insn {
    var mode: Mode
    var tuple: Tuple
    var evexB: bool
    var evexW: nat
    var evexLL: nat
    var ea: EaData

    predicate Valid()
      reads `mode, `evexW, `evexLL
    {
      mode.Valid() && evexW <= 1 && evexLL <= 3
    }

    function Shift(): (n: nat)
      requires Valid()
      reads `mode, `tuple, `evexB, `evexW, `evexLL
      ensures n <= 7
    {
      Disp8Shift(tuple, evexB, evexW, evexLL)
    }

    /** Records the fields of an EVEX prefix that scale displacements. */
    method SetEvex(w: nat, b: bool, ll: nat, t: Tuple)
      requires mode.Valid() && w <= 1 && ll <= 3
      modifies this`evexW, this`evexB, this`evexLL, this`tuple
      ensures Valid() && evexW == w && evexB == b && evexLL == ll && tuple == t
    {
      evexW, evexB, evexLL, tuple := w, b, ll, t;
    }

    /** Selects the mod field for a base register and the displacement `o`. Unless
        the programmer forces a size, the choice is the shortest that holds `o`. */
    method MemoryMod(flags: EaFlags, o: int, known: bool, zeroOk: bool) returns (mod: nat)
      requires Valid()
      requires if mode.asize == 16 then -0x8000 <= o < 0x8000 else -0x8000_0000 <= o < 0x8000_0000
      modifies this`ea
      ensures mod <= 2 && ea == old(ea).(disp8 := ea.disp8, disp8Ok := ea.disp8Ok)
      ensures mod == 0 ==> o == 0 && zeroOk
      ensures mod == 1 ==> -128 <= ea.disp8 < 128
                           && (Disp8Fits(o, Shift()) <==> ea.disp8 * Unit(Shift()) == o)
      ensures mod == 1 ==> (ea.disp8Ok <==> known && Disp8Fits(o, Shift()))
      ensures mod == 1 && !flags.byteOffs ==> Disp8Fits(o, Shift())
      ensures flags.wordOffs ==> mod == 2
      ensures flags.byteOffs && !flags.wordOffs ==> mod == 1
      ensures !flags.byteOffs && !flags.wordOffs ==>
                mod == if known && o == 0 && zeroOk then 0 else if known && Disp8Fits(o, Shift()) then 1 else 2
    {
      if flags.wordOffs {
        return 2;
      }
      var unit := Unit(Shift());
      var d := Sext(o / unit, TWO8);
      SextSmall(o);
      Disp8Quotient(o, Shift());
      ea := ea.(disp8 := d, disp8Ok := known && d * unit == Sext(o, AddressSpace(mode.asize)));
      if flags.byteOffs {
        return 1;
      }
      if !known {
        return 2;
      }
      if o == 0 && zeroOk {
        return 0;
      }
      mod := if ea.disp8Ok then 1 else 2;
    }

    /** Rewrites base, index and scale of a scalar address into an encodable form. */
    static method Arrange(r: MemRef) returns (ok: bool, bt: Option<Register>, it: Option<Register>, s: int)
      requires !IsPure(r)
      requires r.base.Some? && Index(r).Some? ==> r.base.value.kind == Index(r).value.kind
      ensures ok <==> Arrangeable(r)
      ensures SameSum(r.base, Index(r), r.scale, bt, it, s)
      ensures bt.Some? || it.Some?
      ensures bt.Some? ==> bt == r.base || bt == Index(r)
      ensures it.Some? ==> it == r.base || it == Index(r)
      ensures r.base.Some? ==> r.base == bt || r.base == it
      ensures Index(r).Some? ==> Index(r) == bt || Index(r) == it
      ensures ok && it.Some? ==> it.value.num != 4 && (s == 1 || s == 2 || s == 4 || s == 8)
      ensures bt.Some? <==> KeepsBase(r)
    {
      var i, b := Index(r), r.base;
      bt, it, s := b, i, r.scale;
      if s == 1 && bt.Some? && it.Some? && bt != it
         && ((r.hintBase == b && r.hint == NotBase) || (r.hintBase == i && r.hint == MakeBase)) {
        SwapKeepsSum(bt, it);
        bt, it := it, bt;
      }
      if bt == None && s == 1 && !(r.hintBase == i && r.hint == NotBase) {
        SwapKeepsSum(bt, it);
        bt, it := it, None;
      }
      if r.flags.mib {
        if it == None && r.hintBase == b && r.hint == NotBase {
          ScaleOfNoIndex(bt, s, 1);
          SwapKeepsSum(bt, it);
          it, bt, s := bt, None, 1;
        }
        if r.hint == Summed && bt == None {
          SplitKeepsSum(it.value, s);
          bt, s := it, s - 1;
        }
      } else {
        if ((s == 2 && it.Some? && it.value.num != 4 && (!r.flags.timesTwo || r.hint == Summed))
            || s == 3 || s == 5 || s == 9) && bt == None {
          SplitKeepsSum(it.value, s);
          bt, s := it, s - 1;
        }
        if it == None && bt.value.num % 8 != 4 && r.flags.timesTwo && r.hintBase == b && r.hint == NotBase {
          ScaleOfNoIndex(bt, s, 1);
          SwapKeepsSum(bt, it);
          it, bt, s := bt, None, 1;
        }
      }
      if s == 1 && it.Some? && it.value.num == 4 {
        SwapKeepsSum(bt, it);
        bt, it := it, bt;
      }
      ok := !((it.Some? && it.value.num == 4) || (s != 1 && s != 2 && s != 4 && s != 8 && it.Some?));
    }

    /** The common checks on registers and sizes of 32- and 64-bit addresses:
        every general register present has the width of the address. */
    method CheckSizes(r: MemRef, g1: Option<Register>, g2: Option<Register>) returns (ok: bool)
      requires Valid()
      ensures ok <==> && mode.asize != 16 && r.dispSize != 16 && r.dispSize != 64
                      && (g1.Some? ==> g1.value.kind == GprOf(mode.asize))
                      && (g2.Some? ==> g2.value.kind == GprOf(mode.asize))
    {
      var ok32, ok64 := true, true;
      if g1.Some? {
        var k := g1.value.kind;
        if k != Gpr64 && k != Gpr32 {
          return false;
        }
        ok32, ok64 := k == Gpr32, k == Gpr64;
      }
      if g2.Some? {
        var k := g2.value.kind;
        if !IsGpr(k) || !((k == Gpr32 && ok32) || (k == Gpr64 && ok64)) {
          return false;
        }
        ok32, ok64 := k == Gpr32, k == Gpr64;
      }
      if r.dispSize == 16 || r.dispSize == 64 {
        return false;
      }
      ok := !(mode.asize == 16 || (mode.asize == 32 && !ok32) || (mode.asize == 64 && !ok64));
    }

    /** The mod field, and with it the displacement size, for a final base. */
    method ChooseDisp(r: MemRef, bt: Option<Register>) returns (mod: nat)
      requires Valid() && mode.asize != 16 && ea.bytes == 0
      modifies this`ea
      ensures ea == old(ea).(disp8 := ea.disp8, disp8Ok := ea.disp8Ok, bytes := ea.bytes)
      ensures DispLayout(ea, mod, bt.Some?, 4)
      ensures DispChosen(r, ea.bytes, ea.disp8, ea.disp8Ok, Sext(r.offset, TWO32), 4, Shift())
      ensures SizeChosen(r, ea.bytes, bt.Some?)
      ensures bt.Some? && mod == 0 ==> bt.value.num % 8 != 5
    {
      mod := 0;
      if bt.Some? {
        mod := MemoryMod(r.flags, Sext(r.offset, TWO32), r.known, bt.value.num % 8 != 5);
      }
      ea := ea.(bytes := if bt == None || mod == 2 then 4 else mod);
    }

    /** Writes a ModRM byte that needs no SIB byte: one base register. */
    method EmitNoSib(r: MemRef, rnum: nat, rreg: Option<Register>, bt: Register, s: int)
      requires Valid() && mode.asize != 16 && bt.kind == GprOf(mode.asize) && bt.num % 8 != 4
      requires SameSum(r.base, Index(r), r.scale, Some(bt), None, s)
      requires ea == CLEAR.(rex := ea.rex)
      requires ea.rex == RexFlags(rreg, SlotR).Or(RexFlags(None, SlotX)).Or(RexFlags(Some(bt), SlotB))
      modifies this`ea
      ensures Represents(r, ea, mode, Shift()) && ea.kind == Scalar && !ea.rip && Framed(ea, rnum, rreg)
      ensures ea.rex == old(ea.rex)
      ensures DispChosen(r, ea.bytes, ea.disp8, ea.disp8Ok, Sext(r.offset, TWO32), 4, Shift())
      ensures SizeChosen(r, ea.bytes, true)
    {
      var mod := ChooseDisp(r, Some(bt));
      var final := ea.(sibPresent := false, modrm := GenModrm(mod, rnum, bt.num), size := 1 + ea.bytes);
      NoSibDone(r, final, mode, Shift(), mod, rnum, rreg, bt, s);
      ea := final;
    }

    /** Writes a ModRM byte and a SIB byte. */
    method EmitSib(r: MemRef, kind: EaType, rnum: nat, rreg: Option<Register>,
                   bt: Option<Register>, it: Option<Register>, s: int)
      requires Valid() && mode.asize != 16
      requires SameSum(r.base, Index(r), r.scale, bt, it, s)
      requires bt.Some? ==> bt.value.kind == GprOf(mode.asize)
      requires kind == Scalar && it.Some? ==> it.value.kind == GprOf(mode.asize) && it.value.num != 4
      requires kind != Scalar ==> kind != Invalid && it.Some? && it.value.kind == VsibKind(kind)
      requires it.Some? ==> s == 1 || s == 2 || s == 4 || s == 8
      requires ea == CLEAR.(kind := kind, rex := ea.rex)
      requires ea.rex == RexFlags(rreg, SlotR).Or(RexFlags(it, SlotX)).Or(RexFlags(bt, SlotB))
      modifies this`ea
      ensures Represents(r, ea, mode, Shift()) && ea.kind == kind && !ea.rip && Framed(ea, rnum, rreg)
      ensures ea.rex == old(ea.rex)
      ensures DispChosen(r, ea.bytes, ea.disp8, ea.disp8Ok, Sext(r.offset, TWO32), 4, Shift())
      ensures SizeChosen(r, ea.bytes, bt.Some?)
    {
      var mod := ChooseDisp(r, bt);
      var scale := if it == None then 0 else ScaleCode(s);
      var final := ea.(sibPresent := true, modrm := GenModrm(mod, rnum, 4),
                       sib := SibFor(scale, it, bt), size := 2 + ea.bytes);
      SibDone(r, final, mode, Shift(), mod, rnum, rreg, scale, it, bt, s);
      ea := final;
    }

    /** Writes ModRM, and SIB if there must be one, for registers in final form. */
    method EmitLayout(r: MemRef, kind: EaType, rnum: nat, rreg: Option<Register>,
                      bt: Option<Register>, it: Option<Register>, s: int)
      requires Valid() && mode.asize != 16 && (bt.Some? || it.Some?)
      requires SameSum(r.base, Index(r), r.scale, bt, it, s)
      requires bt.Some? ==> bt.value.kind == GprOf(mode.asize)
      requires kind == Scalar && it.Some? ==> it.value.kind == GprOf(mode.asize) && it.value.num != 4
      requires kind != Scalar ==> kind != Invalid && it.Some? && it.value.kind == VsibKind(kind)
      requires it.Some? ==> s == 1 || s == 2 || s == 4 || s == 8
      requires ea == CLEAR.(kind := kind, rex := ea.rex)
      requires ea.rex == RexFlags(rreg, SlotR).Or(RexFlags(it, SlotX)).Or(RexFlags(bt, SlotB))
      modifies this`ea
      ensures Represents(r, ea, mode, Shift()) && ea.kind == kind && !ea.rip && Framed(ea, rnum, rreg)
      ensures ea.rex == old(ea.rex)
      ensures DispChosen(r, ea.bytes, ea.disp8, ea.disp8Ok, Sext(r.offset, TWO32), 4, Shift())
      ensures SizeChosen(r, ea.bytes, bt.Some?)
    {
      if it == None && bt.value.num % 8 != 4 && !r.flags.sib {
        EmitNoSib(r, rnum, rreg, bt.value, s);
      } else {
        EmitSib(r, kind, rnum, rreg, bt, it, s);
      }
    }

    /** A 32- or 64-bit address without vector registers. */
    method EncodeScalar(r: MemRef, rnum: nat, rreg: Option<Register>, ghost c: Context) returns (ok: bool)
      requires Valid() && !IsPure(r) && !IsVsibReg(r.base) && !IsVsibReg(Index(r))
      requires ea == CLEAR.(rex := RexFlags(rreg, SlotR))
      modifies this`ea
      ensures ok <==> ScalarAccepted(r, mode)
      ensures ok ==> Settled(r, ea, mode, Shift(), rnum) && Framed(ea, rnum, rreg) && MemGathered(ea, r, rreg)
      ensures ok && !Misfit(r, mode) ==> Foreseen(r, ea, mode, c, Shift())
    {
      var fits := CheckSizes(r, Index(r), r.base);
      if !fits {
        return false;
      }
      var arranged, bt, it, s := Arrange(r);
      if !arranged {
        return false;
      }
      ea := ea.(rex := ea.rex.Or(RexFlags(it, SlotX)));
      ea := ea.(rex := ea.rex.Or(RexFlags(bt, SlotB)));
      SlotsGathered(r, false, rreg, it, bt, ea.rex);
      EmitLayout(r, Scalar, rnum, rreg, bt, it, s);
      ok := true;
    }

    /** Puts the vector register of a vector SIB into the index slot. */
    static method ArrangeVsib(r: MemRef) returns (ok: bool, bt: Option<Register>, it: Option<Register>, s: int)
      requires IsVsibReg(r.base) || IsVsibReg(Index(r))
      ensures ok <==> (IsVsibReg(Index(r)) && !IsVsibReg(r.base)) || r.scale == 0 || r.scale == 1
      ensures ok ==> SameSum(r.base, Index(r), r.scale, bt, it, s) && IsVsibReg(it)
      ensures ok ==> if IsVsibReg(r.base) then it == r.base && bt == Index(r) && s == 1
                     else it == Index(r) && bt == r.base && s == r.scale
    {
      bt, it, s := r.base, Index(r), r.scale;
      ok := true;
      if it == None || IsVsibReg(bt) {
        if s == 0 {
          ScaleOfNoIndex(bt, s, 1);
          s := 1;
        } else if s != 1 {
          return false, bt, it, s;
        }
        SwapKeepsSum(bt, it);
        bt, it := it, bt;
      }
    }

    /** The register roles of a vector address, if it is encodable at all. */
    method PlanVsib(r: MemRef) returns (ok: bool, bt: Option<Register>, it: Option<Register>, s: int)
      requires Valid() && (IsVsibReg(r.base) || IsVsibReg(Index(r)))
      ensures ok <==> VsibAccepted(r, mode)
      ensures ok ==> && mode.asize != 16 && SameSum(r.base, Index(r), r.scale, bt, it, s)
                     && IsVsibReg(it) && it.value.kind == VsibKind(VsibType(r))
                     && (bt.Some? ==> bt.value.kind == GprOf(mode.asize))
                     && (s == 1 || s == 2 || s == 4 || s == 8)
                     && bt == (if IsVsibReg(r.base) then Index(r) else r.base)
                     && it == (if IsVsibReg(r.base) then r.base else Index(r))
    {
      ok, bt, it, s := ArrangeVsib(r);
      if ok {
        ok := CheckSizes(r, bt, None);
      }
      ok := ok && (s == 1 || s == 2 || s == 4 || s == 8);
    }

    /** An address with a vector register. */
    method EncodeVsib(r: MemRef, rnum: nat, rreg: Option<Register>, ghost c: Context) returns (ok: bool)
      requires Valid() && !IsPure(r) && (IsVsibReg(r.base) || IsVsibReg(Index(r)))
      requires ea == CLEAR.(rex := RexFlags(rreg, SlotR))
      modifies this`ea
      ensures ok <==> VsibAccepted(r, mode)
      ensures ok ==> Settled(r, ea, mode, Shift(), rnum) && Framed(ea, rnum, rreg) && MemGathered(ea, r, rreg)
      ensures ok && !Misfit(r, mode) ==> Foreseen(r, ea, mode, c, Shift())
    {
      var bt, it, s;
      ok, bt, it, s := PlanVsib(r);
      if ok {
        ea := ea.(kind := VsibType(r), rex := ea.rex.Or(RexFlags(it, SlotX)));
        ea := ea.(rex := ea.rex.Or(RexFlags(bt, SlotB)));
        SlotsGathered(r, false, rreg, it, bt, ea.rex);
        EmitLayout(r, ea.kind, rnum, rreg, bt, it, s);
      }
    }

    /** Puts BX or BP first and SI or DI second. */
    method Arrange16(r: MemRef) returns (ok: bool, b: Option<Register>, i: Option<Register>)
      requires Valid() && !IsPure(r)
      ensures ok <==> Addr16Accepted(r, mode)
      ensures ok ==> (r.base.Some? ==> IsAddr16Reg(r.base)) && (Index(r).Some? ==> IsAddr16Reg(Index(r)))
      ensures ok ==> && IsAddr16Reg(b) && (i.Some? ==> IsAddr16Reg(i) && IsBxBp(b) && !IsBxBp(i))
                     && SameSum(r.base, Index(r), r.scale, b, i, 1)
    {
      b, i := r.base, Index(r);
      ok := false;
      if mode.asize == 64 {
        return;
      }
      if (b.Some? && !IsAddr16Reg(b)) || (i.Some? && !IsAddr16Reg(i)) {
        return;
      }
      if r.dispSize == 32 || r.dispSize == 64 {
        return;
      }
      if r.scale != 1 && i.Some? {
        return;
      }
      ScaleOfNoIndex(b, r.scale, 1);
      SwapKeepsSum(b, i);
      if b == None && i.Some? {
        b, i := i, b;
      }
      if !IsBxBp(b) && i.Some? {
        b, i := i, b;
      }
      ok := !(b == i || (i.Some? && (IsBxBp(i) || !IsBxBp(b))));
    }

    /** A 16-bit address: BX, BP, SI and DI in their fixed combinations. */
    method Encode16(r: MemRef, rnum: nat, rreg: Option<Register>, ghost c: Context) returns (ok: bool)
      requires Valid() && !IsPure(r) && !IsVsibReg(r.base) && !IsVsibReg(Index(r))
      requires ea == CLEAR.(rex := RexFlags(rreg, SlotR))
      modifies this`ea
      ensures ok <==> Addr16Accepted(r, mode)
      ensures ok ==> Settled(r, ea, mode, Shift(), rnum) && Framed(ea, rnum, rreg) && MemGathered(ea, r, rreg)
      ensures ok && !Misfit(r, mode) ==> Foreseen(r, ea, mode, c, Shift())
    {
      hide MemGathered;
      hide Framed;
      var b, i;
      ok, b, i := Arrange16(r);
      if ok {
        var rm := Rm16(b, i);
        var mod := MemoryMod(r.flags, Sext(r.offset, TWO16), r.known, rm != 6);
        ea := ea.(sibPresent := false, bytes := mod, modrm := GenModrm(mod, rnum, rm), size := 1 + mod);
        FramedPlain(ea, mod, rnum, rm, rreg);
        PlainGathered(ea, r, rreg);
        if mode.asize == 16 {
          Rm16Represents(r, ea, mode, Shift(), mod, rnum, rm);
        }
      }
    }

    /** The r/m code of a 16-bit register combination. */
    static method Rm16(b: Option<Register>, i: Option<Register>) returns (rm: nat)
      requires IsAddr16Reg(b) && (i.Some? ==> IsAddr16Reg(i) && IsBxBp(b) && !IsBxBp(i))
      ensures rm < 8 && Some(Base16(rm)) == b && Index16(rm) == i
    {
      if i.Some? {
        if i.value.num == 6 {
          rm := if b.value.num == 3 then 0 else 2;
        } else {
          rm := if b.value.num == 3 then 1 else 3;
        }
      } else {
        match b.value.num {
          case 6 => rm := 4;
          case 7 => rm := 5;
          case 5 => rm := 6;
          case _ => rm := 7;
        }
      }
    }

    /** Decides between an absolute and an IP-relative encoding of a pure offset. */
    method DecideIpRel(r: MemRef, c: Context) returns (ok: bool, ipRel: bool)
      ensures ok <==> PureAccepted(r, mode, c)
      ensures ipRel == IpRelative(r, mode, c)
    {
      ipRel := r.ipRel;
      ok := true;
      if mode.bits == 64 {
        if r.immediate && !r.flags.abs && (r.flags.rel || c.defaultRel) {
          ipRel := true;
        }
        if ipRel && !c.passFirst && r.absolute {
          ipRel := false;
        }
        if ipRel && r.flags.sib {
          ok := false;
        }
      }
    }

    /** A pure offset. */
    method EncodePure(r: MemRef, rnum: nat, rreg: Option<Register>, c: Context) returns (ok: bool)
      requires Valid() && IsPure(r)
      requires ea == CLEAR.(rex := RexFlags(rreg, SlotR))
      modifies this`ea
      ensures ok <==> PureAccepted(r, mode, c)
      ensures ok ==> Settled(r, ea, mode, Shift(), rnum) && Framed(ea, rnum, rreg) && MemGathered(ea, r, rreg)
      ensures ok && !Misfit(r, mode) ==> Foreseen(r, ea, mode, c, Shift())
    {
      var ipRel;
      ok, ipRel := DecideIpRel(r, c);
      if !ok {
        return;
      }
      if r.flags.sib || (mode.bits == 64 && !ipRel) {
        ea := ea.(sibPresent := true, sib := GenSib(0, 4, 5), bytes := 4, modrm := GenModrm(0, rnum, 4),
                  rip := false, size := 6);
        FramedPlain(ea, 0, rnum, 4, rreg);
        PlainGathered(ea, r, rreg);
        if mode.asize != 16 {
          AbsoluteRepresents(r, ea, mode, Shift(), rnum, rreg);
        }
      } else {
        var bytes := if mode.asize != 16 then 4 else 2;
        ea := ea.(sibPresent := false, bytes := bytes, rip := mode.bits == 64, size := 1 + bytes,
                  modrm := GenModrm(0, rnum, if mode.asize != 16 then 5 else 6));
        FramedPlain(ea, 0, rnum, if mode.asize != 16 then 5 else 6, rreg);
        PlainGathered(ea, r, rreg);
        PureRepresents(r, ea, mode, Shift(), rnum);
      }
    }

    /** A register in the r/m slot. */
    method EncodeDirect(reg: Register, broadcast: bool, rnum: nat, rreg: Option<Register>) returns (ok: bool)
      requires ea == CLEAR.(rex := RexFlags(rreg, SlotR))
      modifies this`ea
      ensures ok <==> IsEaClass(reg.kind) && !broadcast
      ensures ok ==> ea.kind == Scalar && !ea.rip && RepresentsDirect(reg, ea) && Framed(ea, rnum, rreg)
      ensures ok ==> Gathered(ea.rex, RegOperand(reg, broadcast), rreg) && !ea.rex.x && !ea.rex.x1 && !ea.rex.xv
    {
      if !IsEaClass(reg.kind) || broadcast {
        return false;
      }
      ea := ea.(rex := ea.rex.Or(RexFlags(Some(reg), SlotB)));
      ea := ea.(sibPresent := false, bytes := 0, modrm := GenModrm(3, rnum, reg.num), size := 1);
      OrNothing(RexFlags(rreg, SlotR));
      FramedBy(ea, 3, rnum, reg.num, rreg, None, Some(reg));
      DirectRepresents(reg, ea, rnum, rreg);
      OneCollected(rreg, SlotR);
      OneCollected(Some(reg), SlotB);
      BothCollected(RexFlags(rreg, SlotR), RexFlags(Some(reg), SlotB), IsHigh(rreg), IsLowByte(rreg),
                    IsHigh(Some(reg)), IsLowByte(Some(reg)));
      OwnSlotOnly(rreg, SlotR);
      OwnSlotOnly(Some(reg), SlotB);
      ok := true;
    }

    /** Encodes a memory operand of any kind. */
    method EncodeMemory(r: MemRef, rnum: nat, rreg: Option<Register>, c: Context) returns (ok: bool)
      requires Valid()
      requires ea == CLEAR.(rex := RexFlags(rreg, SlotR))
      modifies this`ea
      ensures ok <==> MemAccepted(r, mode, c)
      ensures ok ==> ea.kind == ClassOf(r) && Framed(ea, rnum, rreg) && MemGathered(ea, r, rreg)
      ensures ok ==> forall ip :: Faithful(r, ea, ip, mode, Shift()) <==> Exact(r, ip, mode, c, Shift())
      ensures ok && !Misfit(r, mode) ==> Foreseen(r, ea, mode, c, Shift())
      ensures ok && !Misfit(r, mode) ==> DispSettled(r, ea, mode, Shift())
    {
      hide Faithful;
      hide NothingLost;
      hide Exact;
      hide Foreseen;
      hide Represents;
      hide DispSettled;
      hide Framed;
      hide MemGathered;
      if IsPure(r) {
        ok := EncodePure(r, rnum, rreg, c);
      } else if IsVsibReg(r.base) || IsVsibReg(Index(r)) {
        ok := EncodeVsib(r, rnum, rreg, c);
      } else if IsWideReg(r.base) || IsWideReg(Index(r)) {
        ok := EncodeScalar(r, rnum, rreg, c);
      } else {
        ok := Encode16(r, rnum, rreg, c);
      }
      if ok {
        AcceptedIsExact(r, ea, mode, Shift(), rnum);
        forall ip: int ensures Faithful(r, ea, ip, mode, Shift()) <==> Exact(r, ip, mode, c, Shift()) {
          ForeseenIsExact(r, ea, ip, mode, c, Shift());
        }
      }
    }

    /** Encodes `input` into `ea`, or fails. For a memory operand the result is
        exact precisely when `Exact` holds, which can be told beforehand; for a register the number in the r/m
        slot is recovered with the prefix bits. */
    method ProcessEa(input: Operand, rfield: RField, c: Context, expected: EaType) returns (ok: bool)
      requires Valid() && (rfield.Digit? ==> rfield.n < 8)
      modifies this`ea
      ensures ok <==> Accepted(input, mode, c, expected)
      ensures ok ==> ea.kind == expected
      ensures ok ==> match rfield
                     case Digit(n) => Framed(ea, n, None)
                     case RegField(reg) => Framed(ea, reg.num, Some(reg))
      ensures ok ==> Gathered(ea.rex, input, if rfield.RegField? then Some(rfield.reg) else None)
      ensures ok && input.MemOperand? ==> !ea.rex.bv && (ea.rex.xv <==> ea.kind != Scalar)
      ensures ok && input.RegOperand? ==> RepresentsDirect(input.reg, ea) && !ea.rex.x && !ea.rex.x1 && !ea.rex.xv
      ensures ok && input.MemOperand? ==>
                forall ip :: Faithful(input.ref, ea, ip, mode, Shift()) <==> Exact(input.ref, ip, mode, c, Shift())
      ensures ok && input.MemOperand? && !Misfit(input.ref, mode) ==>
                DispSettled(input.ref, ea, mode, Shift()) && Foreseen(input.ref, ea, mode, c, Shift())
      ensures ok && input.MemOperand? && !Misfit(input.ref, mode) && ea.bytes == 1
              && Disp8Fits(ShortOffset(input.ref, mode.asize), Shift()) ==>
                forall n: int | Measures(ExtentOf(tuple, evexB, evexLL), evexW, evexLL, n) ::
                  ea.disp8 * n == ShortOffset(input.ref, mode.asize)
      ensures ok && input.MemOperand? && !Misfit(input.ref, mode) && !ea.rip && !OverflowReported(input.ref, ea, mode)
              && -TWO64 / 2 <= input.ref.offset < TWO64 / 2 ==>
                forall ip :: Exact(input.ref, ip, mode, c, Shift()) <==> !LostUnreported(input.ref, ea, mode)
    {
      var rreg: Option<Register>, rnum := None, 0;
      match rfield {
        case Digit(n) => rnum := n;
        case RegField(reg) => rnum, rreg := reg.num, Some(reg);
      }
      ea := CLEAR.(rex := RexFlags(rreg, SlotR));
      match input {
        case RegOperand(reg, broadcast) => ok := EncodeDirect(reg, broadcast, rnum, rreg);
        case MemOperand(r, rounding) =>
          if rounding {
            return false;
          }
          ok := EncodeMemory(r, rnum, rreg, c);
      }
      if ok && ea.kind != expected {
        return false;
      }
      if ok && input.MemOperand? {
        ghost var r := input.ref;
        if !Misfit(r, mode) && ea.bytes == 1 && Disp8Fits(ShortOffset(r, mode.asize), Shift()) {
          CountsOperands(r, ea, mode, tuple, evexB, evexW, evexLL);
        }
        if !Misfit(r, mode) && !ea.rip && !OverflowReported(r, ea, mode) && -TWO64 / 2 <= r.offset < TWO64 / 2 {
          UnreportedExact(r, ea, mode, c, Shift());
        }
      }
    }
  }

  /** An 8-bit displacement, compressed by `shift`, can hold `o`. */
  predicate Disp8Fits(o: int, shift: nat)
    requires shift <= 7
  {
    exists n | -128 <= n < 128 :: o == n * Unit(shift)
  }

  lemma SextSmall(o: int)
    ensures -0x8000 <= o < 0x8000 ==> Sext(o, TWO16) == o
    ensures -0x8000_0000 <= o < 0x8000_0000 ==> Sext(o, TWO32) == o
    ensures -0x8000_0000_0000_0000 <= o < 0x8000_0000_0000_0000 ==> Sext(o, TWO64) == o
  {
  }

  lemma Disp8Quotient(o: int, shift: nat)
    requires shift <= 7
    ensures Disp8Fits(o, shift) <==> Sext(o / Unit(shift), TWO8) * Unit(shift) == o
  {
    var u := Unit(shift);
    var d := Sext(o / u, TWO8);
    if Disp8Fits(o, shift) {
      var n :| -128 <= n < 128 && o == n * u;
      ModUnique(o, u, n, 0);
      assert d == n;
    }
  }
}
