/** What a ModRM byte with its SIB and displacement bytes means to the processor
    (Intel SDM volume 2, section 2.1.5, and section 2.2.1 for the extension
    bits), and the disassembler's reader of those bytes. */
module EaDecoding {
  import opened Basics
  import opened Registers

  datatype EaType = Invalid | Scalar | XmmVsib | YmmVsib | ZmmVsib

  /** The register-number bits that a prefix supplies: multiples of 8 below 32. */
  datatype RegExt = RegExt(breg: nat, bregbv: nat, xreg: nat, xregxv: nat, rreg: nat)

  /** Execution mode and address size. */
  datatype Mode = Mode(bits: int, asize: int) {
    predicate Valid() {
      && (bits == 16 || bits == 32 || bits == 64)
      && (if bits == 64 then asize == 32 || asize == 64 else asize == 16 || asize == 32)
    }
  }

  function AddressSpace(asize: int): (m: int)
    ensures m == TWO16 || m == TWO32 || m == TWO64
    ensures m % 2 == 0
  {
    if asize == 16 then TWO16 else if asize == 32 then TWO32 else TWO64
  }

  function GprOf(asize: int): RegKind {
    if asize == 16 then Gpr16 else if asize == 32 then Gpr32 else Gpr64
  }

  /** The shift that compresses an 8-bit displacement in an EVEX instruction,
      for a tuple type, the b and W bits and the vector length field. */
  datatype Tuple = NoTuple | FV | HV | FVM | T1S8 | T1S16 | T1S | T1F32 | T1F64
                 | T2 | T4 | T8 | HVM | QVM | OVM | M128 | DUP

  function Disp8Shift(t: Tuple, b: bool, w: nat, vectlen: nat): (shift: nat)
    requires w <= 1 && vectlen <= 3
    ensures shift <= 7
  {
    match t
    case NoTuple => 0
    case FV => if b then 2 + w else vectlen + 4
    case HV => if b then 2 + w else vectlen + 3
    case FVM => vectlen + 4
    case T1S8 => 0
    case T1S16 => 1
    case T1F32 => 2
    case T1F64 => 3
    case M128 => 4
    case T1S => 2 + w
    case T2 => 3 + w
    case T4 => 4 + w
    case T8 => 5 + w
    case HVM => vectlen + 3
    case QVM => vectlen + 2
    case OVM => vectlen + 1
    case DUP => if vectlen == 0 then 3 else vectlen + 4
  }

  /** Two to the power of a displacement shift. */
  function Unit(shift: nat): (p: int)
    requires shift <= 7
    ensures 1 <= p <= 128
  {
    match shift
    case 0 => 1
    case 1 => 2
    case 2 => 4
    case 3 => 8
    case 4 => 16
    case 5 => 32
    case 6 => 64
    case _ => 128
  }

  /** A decoded operand, and how many bytes after the ModRM byte it took. */
  datatype Decoded =
    | Direct(rm: nat)
    | Memory(base: Option<Register>, index: Option<Register>, scale: int, disp: int, rip: bool, len: nat)

  /** An assignment of integers to registers; a vector register stands for one lane. */
  type Env = Register -> int

  function Term(env: Env, r: Option<Register>, scale: int): int {
    match r
    case None => 0
    case Some(reg) => scale * env(reg)
  }

  function Linear(env: Env, base: Option<Register>, index: Option<Register>, scale: int): int {
    Term(env, base, 1) + Term(env, index, scale)
  }

  /** The address a decoded memory operand refers to, `ip` being the address
      of the next instruction. */
  function Address(d: Decoded, env: Env, ip: int, asize: int): int
    requires d.Memory?
  {
    (Linear(env, d.base, d.index, d.scale) + (if d.rip then ip + d.disp else d.disp)) % AddressSpace(asize)
  }

  function Base16(rm: nat): Register
    requires rm < 8
  {
    Reg(Gpr16, if rm == 0 || rm == 1 || rm == 7 then 3 else if rm == 4 then 6 else if rm == 5 then 7 else 5)
  }

  function Index16(rm: nat): Option<Register>
    requires rm < 8
  {
    if rm == 0 || rm == 2 then Some(Reg(Gpr16, 6))
    else if rm == 1 || rm == 3 then Some(Reg(Gpr16, 7))
    else None
  }

  function VsibKind(kind: EaType): RegKind {
    if kind == XmmVsib then Xmm else if kind == YmmVsib then Ymm else Zmm
  }

  /** A displacement field of `size` bytes at the start of `s`. */
  function DispOf(s: seq<byte>, size: nat, unit: int): int
    requires (size == 0 || size == 1 || size == 2 || size == 4) && |s| >= size
  {
    if size == 0 then 0 else if size == 1 then GetS8(s) * unit
    else if size == 2 then GetS16(s) else GetS32(s)
  }

  function WithDisp(base: Option<Register>, index: Option<Register>, scale: int, rip: bool,
                    s: seq<byte>, size: nat, unit: int, before: nat): Option<Decoded>
    requires size == 0 || size == 1 || size == 2 || size == 4
  {
    if |s| < size then None
    else Some(Memory(base, index, if index == None then 1 else scale, DispOf(s, size, unit), rip, before + size))
  }

  /** The operand whose SIB byte starts `s`. */
  function DecodeSib(s: seq<byte>, mod: nat, m: Mode, kind: EaType, ext: RegExt, shift: nat): Option<Decoded>
    requires |s| >= 1 && mod < 3
    requires shift <= 7 && ext.breg <= 24 && ext.xreg <= 24 && ext.xregxv <= 24
  {
    var gpr := GprOf(m.asize);
    var scale, idx, base := Unit(s[0] as int / 64), s[0] as int / 8 % 8, s[0] as int % 8;
    var index: Option<Register> :=
      if kind != Scalar then Some(Reg(VsibKind(kind), idx + ext.xregxv))
      else if idx + ext.xreg == 4 then None
      else Some(Reg(gpr, idx + ext.xreg));
    if base == 5 && mod == 0 then WithDisp(None, index, scale, false, s[1..], 4, Unit(shift), 1)
    else WithDisp(Some(Reg(gpr, base + ext.breg)), index, scale, false, s[1..],
                  if mod == 2 then 4 else mod, Unit(shift), 1)
  }

  /** The operand that `modrm` and the bytes `s` after it denote. */
  function DecodeEa(modrm: byte, s: seq<byte>, m: Mode, kind: EaType, ext: RegExt, shift: nat): Option<Decoded>
    requires shift <= 7 && ext.breg <= 24 && ext.xreg <= 24 && ext.xregxv <= 24
  {
    var mod, rm := modrm as int / 64, modrm as int % 8;
    var unit := Unit(shift);
    if mod == 3 then Some(Direct(rm))
    else if m.asize == 16 then
      if kind != Scalar then None
      else if mod == 0 && rm == 6 then WithDisp(None, None, 1, false, s, 2, unit, 0)
      else WithDisp(Some(Base16(rm)), Index16(rm), 1, false, s, mod, unit, 0)
    else if rm == 4 then
      if |s| < 1 then None else DecodeSib(s, mod, m, kind, ext, shift)
    else if kind != Scalar then None
    else if rm == 5 && mod == 0 then WithDisp(None, None, 1, m.bits == 64, s, 4, unit, 0)
    else WithDisp(Some(Reg(GprOf(m.asize), rm + ext.breg)), None, 1, false, s,
                  if mod == 2 then 4 else mod, unit, 0)
  }

  /** The disassembler's operand record, as far as the address reader sets it. */
  class DisOperand {
    var basereg: Option<Register>
    var indexreg: Option<Register>
    var scale: int
    var offset: int
    var dispSize: int
    var relative: bool
    var direct: Option<nat>

    predicate Cleared()
      reads this
    {
      basereg == None && indexreg == None && offset == 0 && dispSize == 0 && !relative && direct == None
    }

    constructor ()
      ensures Cleared()
    {
      basereg, indexreg, scale, offset, dispSize, relative, direct := None, None, 0, 0, 0, false, None;
    }

    /** The record, read as a decoded operand that took `len` bytes. */
    function Contents(len: nat): Decoded
      reads this
    {
      if direct.Some? then Direct(direct.value)
      else Memory(basereg, indexreg, if indexreg == None then 1 else scale, offset, relative, len)
    }

    /** Reads one operand from `data`, returning how far it got, or None when the
        bytes are no operand of this kind or run out. */
    method DoEa(data: seq<byte>, modrm: byte, m: Mode, kind: EaType, ext: RegExt, shift: nat)
      returns (pos: Option<nat>)
      requires m.Valid() && kind != Invalid && Cleared()
      requires shift <= 7 && ext.breg <= 24 && ext.xreg <= 24 && ext.xregxv <= 24
      modifies this
      ensures match DecodeEa(modrm, data, m, kind, ext, shift)
              case None => pos == None
              case Some(d) => pos.Some? && Contents(pos.value) == d && pos.value <= |data|
    {
      var mod, rm := modrm as int / 64, modrm as int % 8;
      if mod == 3 {
        direct := Some(rm);
        pos := Some(0);
      } else if m.asize == 16 {
        if kind != Scalar {
          return None;
        }
        Registers16(rm);
        if mod == 0 && rm == 6 {
          basereg := None;
          mod := 2;
        }
        pos := ReadDisp(data, 0, if mod == 2 then 2 else mod, shift);
      } else if rm == 4 {
        if |data| < 1 {
          return None;
        }
        pos := DoSib(data, mod, m, kind, ext, shift);
      } else if kind != Scalar {
        pos := None;
      } else {
        if rm == 5 && mod == 0 {
          relative := m.bits == 64;
          mod := 2;
        } else {
          basereg := Some(Reg(GprOf(m.asize), rm + ext.breg));
        }
        pos := ReadDisp(data, 0, if mod == 2 then 4 else mod, shift);
      }
    }

    /** The register combination that `rm` selects in 16-bit addressing. */
    method Registers16(rm: nat)
      requires rm < 8 && indexreg == None
      modifies this`basereg, this`indexreg, this`scale
      ensures basereg == Some(Base16(rm)) && indexreg == Index16(rm) && scale == 1
    {
      scale := 1;
      match rm {
        case 0 => basereg, indexreg := Some(Reg(Gpr16, 3)), Some(Reg(Gpr16, 6));
        case 1 => basereg, indexreg := Some(Reg(Gpr16, 3)), Some(Reg(Gpr16, 7));
        case 2 => basereg, indexreg := Some(Reg(Gpr16, 5)), Some(Reg(Gpr16, 6));
        case 3 => basereg, indexreg := Some(Reg(Gpr16, 5)), Some(Reg(Gpr16, 7));
        case 4 => basereg := Some(Reg(Gpr16, 6));
        case 5 => basereg := Some(Reg(Gpr16, 7));
        case 6 => basereg := Some(Reg(Gpr16, 5));
        case _ => basereg := Some(Reg(Gpr16, 3));
      }
    }

    /** The part of `DoEa` for a ModRM byte that announces a SIB byte. */
    method DoSib(data: seq<byte>, mod: nat, m: Mode, kind: EaType, ext: RegExt, shift: nat)
      returns (pos: Option<nat>)
      requires |data| >= 1 && mod < 3 && kind != Invalid && Cleared()
      requires shift <= 7 && ext.breg <= 24 && ext.xreg <= 24 && ext.xregxv <= 24
      modifies this
      ensures !relative && direct == None
      ensures match DecodeSib(data, mod, m, kind, ext, shift)
              case None => pos == None
              case Some(d) => pos.Some? && Contents(pos.value) == d && pos.value <= |data|
    {
      var index := data[0] as int / 8 % 8;
      var base := data[0] as int % 8;
      var size := mod;
      scale := Unit(data[0] as int / 64);
      if kind != Scalar {
        index := index + ext.xregxv;
        if kind == XmmVsib {
          indexreg := Some(Reg(Xmm, index));
        } else if kind == YmmVsib {
          indexreg := Some(Reg(Ymm, index));
        } else {
          indexreg := Some(Reg(Zmm, index));
        }
      } else {
        index := index + ext.xreg;
        if index != 4 {
          indexreg := Some(Reg(GprOf(m.asize), index));
        }
      }
      if base == 5 && mod == 0 {
        size := 2;
      } else {
        basereg := Some(Reg(GprOf(m.asize), base + ext.breg));
      }
      pos := ReadDisp(data, 1, if size == 2 then 4 else size, shift);
    }

    /** Reads a displacement of `size` bytes at `start`. */
    method ReadDisp(data: seq<byte>, start: nat, size: nat, shift: nat) returns (pos: Option<nat>)
      requires start <= |data| && shift <= 7 && offset == 0
      requires size == 0 || size == 1 || size == 2 || size == 4
      modifies this`offset, this`dispSize
      ensures if |data| - start < size then pos == None
              else pos == Some(start + size) && dispSize == 8 * size
                   && offset == DispOf(data[start..], size, Unit(shift))
    {
      if |data| < start + size {
        return None;
      }
      dispSize := 8 * size;
      match size {
        case 0 =>
        case 1 => offset := GetS8(data[start..]) * Unit(shift);
        case 2 => offset := GetS16(data[start..]);
        case _ => offset := GetS32(data[start..]);
      }
      pos := Some(start + size);
    }
  }
}
