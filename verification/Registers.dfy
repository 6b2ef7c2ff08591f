/** Registers, and the REX bookkeeping flags that the encoder collects for them. */
module Registers {
  import opened Basics

  datatype RegKind =
    | Gpr8 | High8 | Gpr16 | Gpr32 | Gpr64
    | Seg | Ctl | Fpu | Mmx | Xmm | Ymm | Zmm | Tmm | Opmask | Bnd

  datatype RegRaw = Reg(kind: RegKind, num: nat)

  /** A register of the register table: every class has at most 32 of them. */
  type Register = r: RegRaw | r.num < 32 witness Reg(Gpr32, 0)

  /** Registers that fit the r/m slot of a ModRM byte. */
  predicate IsEaClass(k: RegKind) {
    k != Seg && k != Ctl && k != Fpu
  }

  predicate IsGpr(k: RegKind) {
    k == Gpr8 || k == High8 || k == Gpr16 || k == Gpr32 || k == Gpr64
  }

  /** The classes that EVEX and REX2 treat as vectors. */
  predicate IsVectorClass(k: RegKind) {
    k == Xmm || k == Ymm || k == Zmm || k == Tmm
  }

  /** The vector classes that may be the index of a vector SIB. */
  predicate IsVsibClass(k: RegKind) {
    k == Xmm || k == Ymm || k == Zmm
  }

  /** The bits of the REX flag word. `B`, `X`, `R` and `W` are the payload bits of a
      REX prefix, `B1`, `X1` and `R1` their second bits in REX2 and EVEX; `BV`, `XV`
      and `RV` say that the register in the slot is a vector. */
  datatype RexBit =
    | B | X | R | W | B1 | X1 | R1 | BV | XV | RV
    | L     // use a LOCK prefix in place of REX.R
    | P     // REX prefix present or required
    | H     // a high byte register is present, REX forbidden
    | NH    // the instruction does not use high byte registers
    | V     // VEX prefix
    | EV    // EVEX prefix
    | Two   // REX2 prefix
    | NW    // REX.W not required for 64-bit operand size

  /** The REX flag word, as the set of its bits. */
  datatype Rex = Rex(bits: set<RexBit>)
  {
    const b := B in bits
    const x := X in bits
    const r := R in bits
    const w := W in bits
    const b1 := B1 in bits
    const x1 := X1 in bits
    const r1 := R1 in bits
    const bv := BV in bits
    const xv := XV in bits
    const rv := RV in bits
    const lockR := L in bits
    const forced := P in bits
    const high := H in bits
    const noHigh := NH in bits
    const vex := V in bits
    const evex := EV in bits
    const rex2 := Two in bits
    const noW := NW in bits

    function Or(o: Rex): Rex {
      Rex(bits + o.bits)
    }

    function With(bit: RexBit): Rex {
      Rex(bits + {bit})
    }

    function Without(bit: RexBit): Rex {
      Rex(bits - {bit})
    }
  }

  const NO_REX := Rex({})

  /** The position of a register in an instruction: ModRM r/m or SIB base, SIB
      index, ModRM reg. */
  datatype Slot = SlotB | SlotX | SlotR

  function Flag(on: bool, bit: RexBit): set<RexBit> {
    if on then {bit} else {}
  }

  /** The flags one register contributes through its slot. */
  function RexFlags(o: Option<Register>, slot: Slot): Rex {
    match o
    case None => NO_REX
    case Some(reg) =>
      var low, second := 8 <= reg.num < 16 || 24 <= reg.num, 16 <= reg.num;
      var vector := IsVectorClass(reg.kind);
      Rex((match slot
           case SlotB => Flag(low, B) + Flag(second, B1) + Flag(vector, BV)
           case SlotX => Flag(low, X) + Flag(second, X1) + Flag(vector, XV)
           case SlotR => Flag(low, R) + Flag(second, R1) + Flag(vector, RV))
          + Flag(reg.kind == High8, H) + Flag(reg.kind == Gpr8 && reg.num >= 4, P))
  }

  /** A register sets bits of its own slot only, and never those of the instruction. */
  lemma OwnSlotOnly(o: Option<Register>, slot: Slot)
    ensures var f := RexFlags(o, slot);
      && (slot != SlotB ==> !f.b && !f.b1 && !f.bv)
      && (slot != SlotX ==> !f.x && !f.x1 && !f.xv)
      && (slot != SlotR ==> !f.r && !f.r1 && !f.rv)
      && !f.w && !f.vex && !f.evex && !f.rex2
  {
    if o.Some? {
      match slot {
        case SlotB =>
        case SlotX =>
        case SlotR =>
      }
    }
  }

  /** The register number bits above bit 2 that a pair of flags stands for. */
  function HighBits(low: bool, second: bool): nat {
    (if low then 8 else 0) + (if second then 16 else 0)
  }

  /** Register numbers survive the split into three code bits and two flags,
      whatever the other two slots add to the same flag word. */
  lemma SlotKeepsNumber(r: Option<Register>, x: Option<Register>, b: Option<Register>)
    ensures var rex := RexFlags(r, SlotR).Or(RexFlags(x, SlotX)).Or(RexFlags(b, SlotB));
      && (b.Some? ==> b.value.num == b.value.num % 8 + HighBits(rex.b, rex.b1))
      && (x.Some? ==> x.value.num == x.value.num % 8 + HighBits(rex.x, rex.x1))
      && (r.Some? ==> r.value.num == r.value.num % 8 + HighBits(rex.r, rex.r1))
      && (rex.bv <==> b.Some? && IsVectorClass(b.value.kind))
      && (rex.xv <==> x.Some? && IsVectorClass(x.value.kind))
      && (rex.rv <==> r.Some? && IsVectorClass(r.value.kind))
  {
    BSlotKeepsNumber(r, x, b);
    XSlotKeepsNumber(r, x, b);
    RSlotKeepsNumber(r, x, b);
  }

  /** Each slot's flags can be read off the combined word. */
  lemma ProjectSlots(r: Rex, x: Rex, b: Rex)
    requires !b.x && !b.x1 && !b.xv && !b.r && !b.r1 && !b.rv
    requires !x.b && !x.b1 && !x.bv && !x.r && !x.r1 && !x.rv
    requires !r.b && !r.b1 && !r.bv && !r.x && !r.x1 && !r.xv
    requires !(r.w || r.vex || r.evex || r.rex2 || x.w || x.vex || x.evex || x.rex2 || b.w || b.vex || b.evex || b.rex2)
    ensures var rex := r.Or(x).Or(b);
      && rex.b == b.b && rex.b1 == b.b1 && rex.bv == b.bv
      && rex.x == x.x && rex.x1 == x.x1 && rex.xv == x.xv
      && rex.r == r.r && rex.r1 == r.r1 && rex.rv == r.rv
      && !rex.w && !rex.vex && !rex.evex && !rex.rex2
  {
  }

  lemma CombinedSlots(r: Option<Register>, x: Option<Register>, b: Option<Register>)
    ensures var rr, xx, bb := RexFlags(r, SlotR), RexFlags(x, SlotX), RexFlags(b, SlotB);
      var rex := rr.Or(xx).Or(bb);
      && rex.b == bb.b && rex.b1 == bb.b1 && rex.bv == bb.bv
      && rex.x == xx.x && rex.x1 == xx.x1 && rex.xv == xx.xv
      && rex.r == rr.r && rex.r1 == rr.r1 && rex.rv == rr.rv
      && !rex.w && !rex.vex && !rex.evex && !rex.rex2
  {
    OwnSlotOnly(r, SlotR);
    OwnSlotOnly(x, SlotX);
    OwnSlotOnly(b, SlotB);
    ProjectSlots(RexFlags(r, SlotR), RexFlags(x, SlotX), RexFlags(b, SlotB));
  }

  lemma BSlotKeepsNumber(r: Option<Register>, x: Option<Register>, b: Option<Register>)
    ensures var rex := RexFlags(r, SlotR).Or(RexFlags(x, SlotX)).Or(RexFlags(b, SlotB));
      && (b.Some? ==> b.value.num == b.value.num % 8 + HighBits(rex.b, rex.b1))
      && (rex.bv <==> b.Some? && IsVectorClass(b.value.kind))
  {
    CombinedSlots(r, x, b);
    if b.Some? { SlotBits(b); }
  }

  lemma XSlotKeepsNumber(r: Option<Register>, x: Option<Register>, b: Option<Register>)
    ensures var rex := RexFlags(r, SlotR).Or(RexFlags(x, SlotX)).Or(RexFlags(b, SlotB));
      && (x.Some? ==> x.value.num == x.value.num % 8 + HighBits(rex.x, rex.x1))
      && (rex.xv <==> x.Some? && IsVectorClass(x.value.kind))
  {
    CombinedSlots(r, x, b);
    if x.Some? { SlotBits(x); }
  }

  lemma RSlotKeepsNumber(r: Option<Register>, x: Option<Register>, b: Option<Register>)
    ensures var rex := RexFlags(r, SlotR).Or(RexFlags(x, SlotX)).Or(RexFlags(b, SlotB));
      && (r.Some? ==> r.value.num == r.value.num % 8 + HighBits(rex.r, rex.r1))
      && (rex.rv <==> r.Some? && IsVectorClass(r.value.kind))
  {
    CombinedSlots(r, x, b);
    if r.Some? { SlotBits(r); }
  }

  lemma SlotBits(o: Option<Register>)
    requires o.Some?
    ensures var n, v := o.value.num, IsVectorClass(o.value.kind);
      && RexFlags(o, SlotB).bv == v && RexFlags(o, SlotX).xv == v && RexFlags(o, SlotR).rv == v
      && n == n % 8 + HighBits(RexFlags(o, SlotB).b, RexFlags(o, SlotB).b1)
      && n == n % 8 + HighBits(RexFlags(o, SlotX).x, RexFlags(o, SlotX).x1)
      && n == n % 8 + HighBits(RexFlags(o, SlotR).r, RexFlags(o, SlotR).r1)
  {
  }
}
