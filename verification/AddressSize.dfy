/** The address size of an instruction, chosen from its memory operands and prefixes. */
module AddressSize {
  import opened Basics
  import opened Registers
  import opened EaDecoding
  import opened EaEncoding
  import opened Bytecode
  import opened PrefixSlots
  import opened PrefixReading

  /** The address sizes that the prefix leaves. */
  function Leaves(p: Pfx, bits: int): set<int> {
    match p
    case PA16 => {16}
    case PA32 => {32}
    case PA64 => {64}
    case PAsp => {if bits == 32 then 16 else 32}
    case _ => {16, 32, 64}
  }

  /** The sizes that a register can be part of an address of. */
  function SizesOf(reg: Option<Register>): set<int> {
    if reg.Some? && reg.value.kind.Gpr16? then {16}
    else if reg.Some? && reg.value.kind.Gpr32? then {32}
    else if reg.Some? && reg.value.kind.Gpr64? then {64}
    else {16, 32, 64}
  }

  /** The sizes that a memory operand allows; without registers, a displacement size may
      decide. */
  function Allowed(r: MemRef, bits: int): set<int> {
    if r.base.None? && Index(r).None? then
      if (bits != 64 && r.dispSize > 8) || (bits == 64 && r.dispSize == 16) then {r.dispSize} else {16, 32, 64}
    else SizesOf(r.base) * SizesOf(Index(r))
  }

  /** The sizes of an execution mode. */
  function SizesIn(bits: int): set<int> {
    if bits == 64 then {32, 64} else {16, 32}
  }

  predicate Possible(size: int, bits: int, p: Pfx, ops: seq<MemRef>) {
    size in SizesIn(bits) && size in Leaves(p, bits) && forall k | 0 <= k < |ops| :: size in Allowed(ops[k], bits)
  }

  /** add_asp: the size of the mode if it is possible, then the other one, with its prefix; if
      neither is, an error is reported, and the size of the mode is used all the same. */
  method AddAsp(bits: int, p: Pfx, ops: seq<MemRef>) returns (asize: int, slot: Pfx, ok: bool)
    requires (bits == 16 || bits == 32 || bits == 64) && IsAsizePrefix(p)
    ensures ok <==> exists size :: Possible(size, bits, p, ops)
    ensures ok ==> Possible(asize, bits, p, ops) && (Possible(bits, bits, p, ops) ==> asize == bits)
    ensures !ok ==> asize == bits
    ensures IsAsizePrefix(slot) && (ok ==> AsizeOf(slot, bits) == asize) && (asize == bits ==> slot == p)
  {
    var valid := SizesIn(bits) * Leaves(p, bits);
    for j := 0 to |ops|
      invariant forall size :: size in valid <==> Possible(size, bits, p, ops[..j])
    {
      assert ops[..j + 1] == ops[..j] + [ops[j]];
      valid := valid * Allowed(ops[j], bits);
    }
    assert ops[..|ops|] == ops;
    var other := if bits == 32 then 16 else 32;
    if bits in valid {
      asize, slot, ok := bits, p, true;
    } else if other in valid {
      asize, slot, ok := other, if bits == 32 then PA16 else PA32, true;
    } else {
      asize, slot, ok := bits, p, false;
    }
  }

  predicate IsAddressReg(reg: Register) {
    reg.kind.Gpr16? || reg.kind.Gpr32? || reg.kind.Gpr64?
  }

  /** Under an address size that was chosen without error, all registers of an operand
      have that size. */
  lemma RegistersFitSize(asize: int, bits: int, p: Pfx, ops: seq<MemRef>, k: nat)
    requires Possible(asize, bits, p, ops) && k < |ops|
    ensures Mode(bits, asize).Valid() || (bits != 16 && bits != 32 && bits != 64)
    ensures forall reg | (Some(reg) == ops[k].base || Some(reg) == Index(ops[k])) && IsAddressReg(reg) :: reg.kind == GprOf(asize)
  {
    assert asize in Allowed(ops[k], bits);
  }

  /** So 16-bit registers do not meet a 32-bit address size without one. */
  lemma NarrowNeedsError(bits: int, asize: int, p: Pfx, ops: seq<MemRef>, k: nat)
    requires Possible(asize, bits, p, ops) && k < |ops| && !IsPure(ops[k])
    ensures !Misfit(ops[k], Mode(bits, asize))
  {
    RegistersFitSize(asize, bits, p, ops, k);
  }
}
