/** Tables that the encoder and the decoder share, against the lists they come from. */
module Tables {
  import opened Basics
  import opened Registers
  import opened EaDecoding
  import opened EaEncoding
  import opened Sizing
  import opened Bytecode
  import opened Prefixes
  import opened Assemble

  // ---- 16-bit addressing ----

  /** The 16-bit registers by number. */
  const NAMES := ["ax", "cx", "dx", "bx", "sp", "bp", "si", "di"]

  /** Base and index of each r/m field, after Intel SDM volume 2, table 2-1. */
  const PAIRS := [("bx", "si"), ("bx", "di"), ("bp", "si"), ("bp", "di"), ("si", ""), ("di", ""), ("bp", ""), ("bx", "")]

  function NameOf(r: Option<Register>): string {
    match r
    case None => ""
    case Some(reg) => if reg.kind == Gpr16 && reg.num < 8 then NAMES[reg.num] else "other"
  }

  lemma PairsRead(rm: nat)
    requires rm < 8
    ensures (NameOf(Some(Base16(rm))), NameOf(Index16(rm))) == PAIRS[rm]
  {
  }

  /** Scales and displacement units double with each step. */
  lemma UnitDoubles(k: nat)
    requires k < 7
    ensures Unit(0) == 1 && Unit(k + 1) == 2 * Unit(k)
  {
  }

  // ---- Tuple types ----

  const TUPLES := [FV, HV, FVM, T1S8, T1S16, T1S, T1F32, T1F64, T2, T4, T8, HVM, QVM, OVM, M128, DUP]

  /** The tuple types are numbered from one, over 0xc0. */
  lemma TupleRead(b: byte)
    ensures TupleOf(b) == if 0xc1 <= b <= 0xd0 then TUPLES[b - 0xc1] else NoTuple
  {
  }

  // ---- EVEX templates ----

  lemma ByteFields(b: byte)
    ensures var v := ByteBits(b);
      && v < 256 && (v & 0x80 != 0 <==> b as int / 128 == 1) && (v & 0x10 != 0 <==> b as int / 16 % 2 == 1)
      && (v >> 5) & 3 == Bits5(b as int / 32 % 4)
  {
    var n, m := b as nat / 16, b as nat / 32 % 4;
    NibbleBits(b);
    NibbleBits(n);
    NibbleBits(m);
    assert n / 8 % 2 == b as nat / 128 && n / 2 % 2 == m % 2 && n / 4 % 2 == m / 2 % 2;
    assert m / 4 % 2 == 0 && m / 8 % 2 == 0 && m / 16 % 2 == 0;
    hide LowNibble;
    NibbleFields(LowNibble(b), LowNibble(n), LowNibble(m));
  }

  lemma NibbleFields(l: bv32, h: bv32, m: bv32)
    requires l < 16 && h < 16 && m < 16 && m & 4 == 0 && m & 8 == 0
    requires (h & 2 != 0) == (m & 1 != 0) && (h & 4 != 0) == (m & 2 != 0)
    ensures var v := l | (h << 4);
      v < 256 && (v & 0x80 != 0) == (h & 8 != 0) && (v & 0x10 != 0) == (h & 1 != 0) && (v >> 5) & 3 == m | 0
  {
  }

  lemma WordFields(x: bv32, y: bv32, z: bv32)
    requires x < 256 && y < 256 && z < 256
    ensures var w := 0x62 | (x << 8) | (y << 16) | (z << 24);
      && w & 0x80_0000 == (y & 0x80) << 16 && w & 0x1000_0000 == (z & 0x10) << 24 && (w >> 29) & 3 == (z >> 5) & 3
  {
  }

  /** Displacements are compressed by the W bit, the broadcast bit and the vector length that
      the prefix of the instruction itself shows. */
  lemma ScalingInWord(op: Op, s: Sizing)
    requires |op.args| == 4
    ensures var w, c := TemplateWord(op.args), AfterVex(op, s).scaling;
      && (w & 0x80_0000 != 0 <==> c.w == 1) && (w & 0x1000_0000 != 0 <==> c.b) && (w >> 29) & 3 == Bits5(c.ll)
      && c.w <= 1 && c.ll <= 3
  {
    var x, y, z := ByteBits(op.args[0]), ByteBits(op.args[1]), ByteBits(op.args[2]);
    ByteFields(op.args[0]);
    ByteFields(op.args[1]);
    ByteFields(op.args[2]);
    WordFields(x, y, z);
    hide ByteBits;
    hide Bits5;
    Moved(y & 0x80, z & 0x10);
  }

  lemma Moved(a: bv32, b: bv32)
    requires a == 0 || a == 0x80
    requires b == 0 || b == 0x10
    ensures ((a << 16) != 0 <==> a != 0) && ((b << 24) != 0 <==> b != 0)
  {
  }

  // ---- Codes that name a bit ----

  /** The codes \344 to \347 stand for the B, X, R and W of a prefix that there must be, \334 for
      LOCK in place of R, and \350 and \351 for REX2 without and with W. */
  lemma BitsNamed(op: Op, oprs: seq<Opnd>, ea: EaData)
    requires op.code == Decode(op.c)
    ensures op.c == 0xe4 ==> CodeBits(op, oprs, ea) == {B} && FlagBits(op.code) == {P, B}
    ensures op.c == 0xe5 ==> CodeBits(op, oprs, ea) == {X} && FlagBits(op.code) == {P, X}
    ensures op.c == 0xe6 ==> CodeBits(op, oprs, ea) == {R} && FlagBits(op.code) == {P, R}
    ensures op.c == 0xe7 ==> CodeBits(op, oprs, ea) == {} && FlagBits(op.code) == {P, W}
    ensures op.c == 0xdc ==> FlagBits(op.code) == {L}
    ensures op.c == 0xe8 ==> FlagBits(op.code) == {P, Two}
    ensures op.c == 0xe9 ==> FlagBits(op.code) == {P, Two, W}
  {
  }
}
