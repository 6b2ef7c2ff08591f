/** The slots of the legacy prefixes: what the codes of an instruction leave in them, and
    what a reader makes of the bytes that are written for them. */
module PrefixSlots {
  import opened Basics
  import opened Bytecode

  // The slots, in the order in which they are written.
  const WAIT := 0
  const SEG := 1
  const ASIZE := 2
  const LOCK := 3
  const OSIZE := 4
  const REP := 5
  const REX := 6
  const SLOTS := 9

  /** What can stand in the slot of the operand size. */
  predicate IsOsizePrefix(p: Pfx) {
    p.PNone? || p.POsp? || p.PO16? || p.PO32? || p.PO64?
  }

  predicate IsAsizePrefix(p: Pfx) {
    p.PNone? || p.PAsp? || p.PA16? || p.PA32? || p.PA64?
  }

  predicate IsSegPrefix(p: Pfx) {
    p.PNone? || p.RCs? || p.RDs? || p.REs? || p.RFs? || p.RGs? || p.RSs? || p.PPn? || p.PPt?
  }

  /** The prefixes that are written as F2, and those that are written as F3. */
  predicate IsRepne(p: Pfx) {
    p.PRepne? || p.PRepnz? || p.PXacquire? || p.PBnd?
  }

  predicate IsRepe(p: Pfx) {
    p.PRepe? || p.PRepz? || p.PRep? || p.PXrelease?
  }

  predicate IsEncodingPrefix(p: Pfx) {
    p.PNone? || p.PRex? || p.PVex? || p.PEvex? || p.PVex3? || p.PVex2? || p.PRex2?
  }

  /** Every prefix stands in its slot. */
  predicate Typed(p: seq<Pfx>) {
    && |p| == SLOTS
    && (p[WAIT].PNone? || p[WAIT].PWait?) && IsSegPrefix(p[SEG]) && IsAsizePrefix(p[ASIZE])
    && (p[LOCK].PNone? || p[LOCK].PLock?) && IsOsizePrefix(p[OSIZE])
    && (p[REP].PNone? || p[REP].PNobnd? || IsRepne(p[REP]) || IsRepe(p[REP])) && IsEncodingPrefix(p[REX])
    && (p[7].PNone? || p[7].PNf?) && (p[8].PNone? || p[8].PZu?)
  }

  /** What an instruction may need in its slots: nothing in particular (0), a byte, or none. */
  predicate NeedTyped(need: seq<int>) {
    && |need| == SLOTS
    && need[WAIT] == 0 && need[SEG] == 0 && need[LOCK] == 0 && need[REX] == 0 && need[7] == 0 && need[8] == 0
    && (need[REP] == 0 || need[REP] == PFE_NULL || need[REP] == 0xf2 || need[REP] == 0xf3)
    && (need[OSIZE] == 0 || need[OSIZE] == PFE_NULL || need[OSIZE] == 0x66)
    && (need[ASIZE] == 0 || need[ASIZE] == PFE_NULL || need[ASIZE] == 0x67)
  }

  // ---- What the codes leave in the slots ----

  datatype Slots = Slots(pfx: seq<Pfx>, need: seq<int>)
  {
    predicate Valid() {
      Typed(pfx) && NeedTyped(need)
    }
  }

  function AsizeSlot(code: Code, p: Pfx): Pfx {
    if code.A64? then PA64
    else if !p.PNone? then p
    else if code.A16? then PA16
    else PA32
  }

  /** The mode and the slot let the code have its address size. */
  predicate AsizeSettled(code: Code, p: Pfx, bits: int) {
    if code.A16? then bits != 64 && (p.PNone? || p.PA16? || (bits == 32 && p.PAsp?))
    else if code.A32? then p.PNone? || p.PA32? || (bits != 32 && p.PAsp?)
    else bits == 64 && (p.PNone? || p.PA64?)
  }

  function AfterNeed(code: Code, t: Slots): Slots
    requires |t.pfx| == |t.need| == SLOTS
  {
    var n := t.need;
    match code
    case NoRep => t.(need := n[REP := PFE_NULL])
    case F2 => t.(need := n[REP := 0xf2])
    case F3 => t.(need := n[REP := 0xf3])
    case Np => t.(need := n[REP := PFE_NULL][OSIZE := PFE_NULL])
    case P66 => t.(need := n[REP := PFE_NULL][OSIZE := 0x66])
    case Osp => t.(need := n[OSIZE := 0x66])
    case NoOsp => t.(need := n[OSIZE := PFE_NULL])
    case NoAsp => t.(need := n[ASIZE := PFE_NULL])
    case P67 => t.(need := n[ASIZE := 0x67])
    case Wait => if t.pfx[WAIT].PNone? then t.(pfx := t.pfx[WAIT := PWait]) else t
    case Jmp8 => if t.pfx[REP].PBnd? then t.(pfx := t.pfx[REP := PNone]) else t
    case _ => t
  }

  /** One code. The slot of the operand size is left to the codes for it. */
  function AfterSlots(op: Op, t: Slots): Slots
    requires |t.pfx| == |t.need| == SLOTS
  {
    if SetsAsize(op) then t.(pfx := t.pfx[ASIZE := AsizeSlot(op.code, t.pfx[ASIZE])]) else AfterNeed(op.code, t)
  }

  lemma AfterNeedShaped(code: Code, t: Slots)
    requires |t.pfx| == |t.need| == SLOTS
    ensures var u := AfterNeed(code, t); |u.pfx| == |u.need| == SLOTS && u.pfx[OSIZE] == t.pfx[OSIZE]
  {
  }

  function SlotsAfter(ops: seq<Op>, t: Slots): (u: Slots)
    requires |t.pfx| == |t.need| == SLOTS
    ensures |u.pfx| == |u.need| == SLOTS
  {
    if ops == [] then t
    else
      var v := SlotsAfter(ops[..|ops| - 1], t);
      AfterNeedShaped(ops[|ops| - 1].code, v);
      AfterSlots(ops[|ops| - 1], v)
  }

  /** All codes for address sizes are let have theirs. */
  predicate AsizesSettled(ops: seq<Op>, t: Slots, bits: int)
    requires |t.pfx| == |t.need| == SLOTS
  {
    ops == [] ||
    var n := |ops| - 1;
    && AsizesSettled(ops[..n], t, bits)
    && (SetsAsize(ops[n]) ==> AsizeSettled(ops[n].code, SlotsAfter(ops[..n], t).pfx[ASIZE], bits))
  }

  /** One more code. */
  lemma SlotsNext(ops: seq<Op>, k: nat, t: Slots, bits: int)
    requires k < |ops| && |t.pfx| == |t.need| == SLOTS
    ensures SlotsAfter(ops[..k + 1], t) == AfterSlots(ops[k], SlotsAfter(ops[..k], t))
    ensures AsizesSettled(ops[..k + 1], t, bits)
            <==> AsizesSettled(ops[..k], t, bits)
                 && (SetsAsize(ops[k]) ==> AsizeSettled(ops[k].code, SlotsAfter(ops[..k], t).pfx[ASIZE], bits))
  {
    assert ops[..k + 1][..k] == ops[..k];
  }

  /** BND by default, and branch hints where there is no branch to hint. */
  function SettledSlots(p: seq<Pfx>, bnd: bool, hint: bool): seq<Pfx>
    requires |p| == SLOTS
  {
    var q := if bnd && !p[REP].PNobnd? then p[REP := PBnd] else p;
    if (q[SEG].PPt? || q[SEG].PPn?) && !hint then q[SEG := PNone] else q
  }
}
