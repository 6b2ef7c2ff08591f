/** The byte codes as x86/bytecode.txt lists them, in octal, and that the interpreters decode
    and count them so. */
module CodeTable {
  import opened Basics
  import opened Registers
  import opened EaDecoding
  import opened EaEncoding
  import opened Prefixes
  import opened Bytecode

  /** A row: the first and the last code in octal digits, the argument bytes that follow, and
      the bytes put out, if their number is fixed. */
  datatype Row = Row(first: (nat, nat, nat), last: (nat, nat, nat), code: Code, args: nat, size: Option<nat>)

  function Octal(d: (nat, nat, nat)): nat {
    64 * d.0 + 8 * d.1 + d.2
  }

  const PAGE0: seq<Row> := [
    Row((0, 0, 5), (0, 0, 7), Extend, 0, Some(0)), Row((0, 1, 0), (0, 1, 3), RegAdd, 1, Some(1)),
    Row((0, 1, 4), (0, 1, 7), MibIndex, 0, Some(0)), Row((0, 2, 0), (0, 2, 3), Ib, 0, Some(1)),
    Row((0, 2, 4), (0, 2, 7), IbU, 0, Some(1)), Row((0, 3, 0), (0, 3, 3), Iw, 0, Some(2)),
    Row((0, 3, 4), (0, 3, 7), Iwd, 0, None)]

  const PAGE1: seq<Row> := [
    Row((0, 4, 0), (0, 4, 3), Id, 0, Some(4)), Row((0, 4, 4), (0, 4, 7), Iwdq, 0, None),
    Row((0, 5, 0), (0, 5, 3), Rel8, 0, Some(1)), Row((0, 5, 4), (0, 5, 7), Iq, 0, Some(8)),
    Row((0, 6, 0), (0, 6, 3), Rel16, 0, Some(2)), Row((0, 6, 4), (0, 6, 7), Rel, 0, None),
    Row((0, 7, 0), (0, 7, 3), Rel32, 0, Some(4)), Row((0, 7, 4), (0, 7, 7), SegWord, 0, Some(2))]

  const PAGE2: seq<Row> := [
    Row((1, 0, 0), (1, 0, 3), EaReg, 0, None), Row((1, 1, 0), (1, 1, 3), EaReg, 0, None),
    Row((1, 2, 0), (1, 2, 3), EaReg, 0, None), Row((1, 3, 0), (1, 3, 3), EaReg, 0, None)]

  const PAGE3: seq<Row> := [
    Row((1, 7, 1), (1, 7, 1), Mrb, 1, Some(1)), Row((1, 7, 2), (1, 7, 2), Is4Imm, 1, Some(1)),
    Row((1, 7, 3), (1, 7, 3), Is4Const, 1, Some(1)), Row((1, 7, 4), (1, 7, 7), Is4, 0, Some(1))]

  const PAGE4: seq<Row> := [
    Row((2, 0, 0), (2, 3, 7), EaDigit, 0, None)]

  const PAGE5: seq<Row> := [
    Row((2, 4, 0), (2, 4, 3), Evex, 4, Some(4)), Row((2, 5, 0), (2, 5, 0), EvexNoV, 4, Some(4)),
    Row((2, 5, 4), (2, 5, 7), IdS, 0, Some(4)), Row((2, 6, 0), (2, 6, 3), Vex, 2, None),
    Row((2, 6, 4), (2, 6, 7), IdU, 0, Some(4)), Row((2, 7, 0), (2, 7, 0), VexNoV, 2, None),
    Row((2, 7, 1), (2, 7, 3), Hle, 0, Some(0)), Row((2, 7, 4), (2, 7, 7), IbS, 0, Some(1))]

  const PAGE6: seq<Row> := [
    Row((3, 0, 0), (3, 0, 3), HintNop, 0, Some(1)), Row((3, 0, 4), (3, 0, 7), IbXor, 2, Some(1)),
    Row((3, 1, 0), (3, 1, 0), A16, 0, Some(0)), Row((3, 1, 1), (3, 1, 1), A32, 0, Some(0)),
    Row((3, 1, 2), (3, 1, 2), Adf, 0, Some(0)), Row((3, 1, 3), (3, 1, 3), A64, 0, Some(0)),
    Row((3, 1, 4), (3, 1, 7), NoRex, 0, Some(0))]

  const PAGE7: seq<Row> := [
    Row((3, 2, 0), (3, 2, 0), O16, 0, Some(0)), Row((3, 2, 1), (3, 2, 1), O32, 0, Some(0)),
    Row((3, 2, 2), (3, 2, 2), Odf, 0, Some(0)), Row((3, 2, 3), (3, 2, 3), O64nw, 0, Some(0))]

  const PAGE8: seq<Row> := [
    Row((3, 2, 4), (3, 2, 4), O64, 0, Some(0)), Row((3, 2, 5), (3, 2, 5), NoHi, 0, Some(0)),
    Row((3, 2, 6), (3, 2, 6), NoF3, 0, Some(0)), Row((3, 2, 7), (3, 2, 7), Nw, 0, Some(0))]

  const PAGE9: seq<Row> := [
    Row((3, 3, 0), (3, 3, 0), Osz, 0, Some(0)), Row((3, 3, 1), (3, 3, 1), NoRep, 0, Some(0)),
    Row((3, 3, 2), (3, 3, 2), F2, 0, Some(0)), Row((3, 3, 3), (3, 3, 3), F3, 0, Some(0))]

  const PAGE10: seq<Row> := [
    Row((3, 3, 4), (3, 3, 4), RexL, 0, Some(0)), Row((3, 3, 5), (3, 3, 5), Repe, 0, Some(0)),
    Row((3, 3, 6), (3, 3, 6), OptW, 0, Some(0)), Row((3, 3, 7), (3, 3, 7), OptD, 0, Some(0))]

  const PAGE11: seq<Row> := [
    Row((3, 4, 0), (3, 4, 0), Resb, 0, None), Row((3, 4, 1), (3, 4, 1), Wait, 0, Some(0)),
    Row((3, 4, 2), (3, 4, 2), Osm, 0, Some(0))]

  const PAGE12: seq<Row> := [
    Row((3, 4, 4), (3, 4, 4), RexB, 0, Some(0)), Row((3, 4, 5), (3, 4, 5), RexX, 0, Some(0)),
    Row((3, 4, 6), (3, 4, 6), RexR, 0, Some(0)), Row((3, 4, 7), (3, 4, 7), RexW, 0, Some(0))]

  const PAGE13: seq<Row> := [
    Row((3, 5, 0), (3, 5, 0), Rex2, 0, Some(0)), Row((3, 5, 1), (3, 5, 1), Rex2W, 0, Some(0)),
    Row((3, 5, 5), (3, 5, 7), Map, 0, Some(0))]

  const PAGE14: seq<Row> := [
    Row((3, 6, 0), (3, 6, 0), Np, 0, Some(0)), Row((3, 6, 1), (3, 6, 1), P66, 0, Some(0)),
    Row((3, 6, 4), (3, 6, 4), NoOsp, 0, Some(0)), Row((3, 6, 5), (3, 6, 5), NoAsp, 0, Some(0)),
    Row((3, 6, 6), (3, 6, 6), Osp, 0, Some(0)), Row((3, 6, 7), (3, 6, 7), P67, 0, Some(0))]

  const PAGE15: seq<Row> := [
    Row((3, 7, 0), (3, 7, 0), Jcc8, 0, Some(0)), Row((3, 7, 1), (3, 7, 1), Jmp8, 0, Some(0)),
    Row((3, 7, 3), (3, 7, 3), Jlen, 0, Some(1))]

  const PAGE16: seq<Row> := [
    Row((3, 7, 4), (3, 7, 4), VsibX, 0, Some(0)), Row((3, 7, 5), (3, 7, 5), VsibY, 0, Some(0)),
    Row((3, 7, 6), (3, 7, 6), VsibZ, 0, Some(0))]

  const PAGES := [
    PAGE0, PAGE1, PAGE2, PAGE3, PAGE4, PAGE5, PAGE6, PAGE7, PAGE8,
    PAGE9, PAGE10, PAGE11, PAGE12, PAGE13, PAGE14, PAGE15, PAGE16]

  predicate InRow(c: byte, r: Row) {
    Octal(r.first) <= c as int <= Octal(r.last)
  }

  /** Every row is decoded as its code, with its arguments. */
  predicate Decoded(r: Row) {
    forall c: byte | InRow(c, r) :: Decode(c) == r.code && Payload(Decode(c), c) == r.args
  }

  /** The number of bytes, where it is fixed. */
  ghost predicate Counted(r: Row) {
    r.size.Some? ==>
      forall op: Op, st: State | op.code == r.code && OperandOk(op, st.oprs) :: EmitLength(op, st) == r.size.value
  }

  lemma Page0Decoded(k: nat)
    requires k < |PAGE0|
    ensures Decoded(PAGE0[k])
  {
    hide Decode1;
    hide Decode2;
    hide Decode3;
    hide Decode4;
  }

  lemma Page1Decoded(k: nat)
    requires k < |PAGE1|
    ensures Decoded(PAGE1[k])
  {
    hide Decode1;
    hide Decode2;
    hide Decode3;
    hide Decode4;
  }

  lemma Page2Decoded(k: nat)
    requires k < |PAGE2|
    ensures Decoded(PAGE2[k])
  {
    hide Decode0;
    hide Decode2;
    hide Decode3;
    hide Decode4;
  }

  lemma Page3Decoded(k: nat)
    requires k < |PAGE3|
    ensures Decoded(PAGE3[k])
  {
    hide Decode0;
    hide Decode2;
    hide Decode3;
    hide Decode4;
  }

  lemma Page4Decoded(k: nat)
    requires k < |PAGE4|
    ensures Decoded(PAGE4[k])
  {
    hide Decode0;
    hide Decode1;
    hide Decode3;
    hide Decode4;
  }

  lemma Page5Decoded(k: nat)
    requires k < |PAGE5|
    ensures Decoded(PAGE5[k])
  {
    hide Decode0;
    hide Decode1;
    hide Decode3;
    hide Decode4;
  }

  lemma Page6Decoded(k: nat)
    requires k < |PAGE6|
    ensures Decoded(PAGE6[k])
  {
    hide Decode0;
    hide Decode1;
    hide Decode2;
    hide Decode4;
  }

  lemma Page7Decoded(k: nat)
    requires k < |PAGE7|
    ensures Decoded(PAGE7[k])
  {
    hide Decode0;
    hide Decode1;
    hide Decode2;
    hide Decode4;
  }

  lemma Page8Decoded(k: nat)
    requires k < |PAGE8|
    ensures Decoded(PAGE8[k])
  {
    hide Decode0;
    hide Decode1;
    hide Decode2;
    hide Decode4;
  }

  lemma Page9Decoded(k: nat)
    requires k < |PAGE9|
    ensures Decoded(PAGE9[k])
  {
    hide Decode0;
    hide Decode1;
    hide Decode2;
    hide Decode4;
  }

  lemma Page10Decoded(k: nat)
    requires k < |PAGE10|
    ensures Decoded(PAGE10[k])
  {
    hide Decode0;
    hide Decode1;
    hide Decode2;
    hide Decode4;
  }

  lemma Page11Decoded(k: nat)
    requires k < |PAGE11|
    ensures Decoded(PAGE11[k])
  {
    hide Decode0;
    hide Decode1;
    hide Decode2;
    hide Decode3;
  }

  lemma Page12Decoded(k: nat)
    requires k < |PAGE12|
    ensures Decoded(PAGE12[k])
  {
    hide Decode0;
    hide Decode1;
    hide Decode2;
    hide Decode3;
  }

  lemma Page13Decoded(k: nat)
    requires k < |PAGE13|
    ensures Decoded(PAGE13[k])
  {
    hide Decode0;
    hide Decode1;
    hide Decode2;
    hide Decode3;
  }

  lemma Page14Decoded(k: nat)
    requires k < |PAGE14|
    ensures Decoded(PAGE14[k])
  {
    hide Decode0;
    hide Decode1;
    hide Decode2;
    hide Decode3;
  }

  lemma Page15Decoded(k: nat)
    requires k < |PAGE15|
    ensures Decoded(PAGE15[k])
  {
    hide Decode0;
    hide Decode1;
    hide Decode2;
    hide Decode3;
  }

  lemma Page16Decoded(k: nat)
    requires k < |PAGE16|
    ensures Decoded(PAGE16[k])
  {
    hide Decode0;
    hide Decode1;
    hide Decode2;
    hide Decode3;
  }

  lemma Page0Counted(k: nat)
    requires k < |PAGE0|
    ensures Counted(PAGE0[k])
  {
  }

  lemma Page1Counted(k: nat)
    requires k < |PAGE1|
    ensures Counted(PAGE1[k])
  {
  }

  lemma Page2Counted(k: nat)
    requires k < |PAGE2|
    ensures Counted(PAGE2[k])
  {
  }

  lemma Page3Counted(k: nat)
    requires k < |PAGE3|
    ensures Counted(PAGE3[k])
  {
  }

  lemma Page4Counted(k: nat)
    requires k < |PAGE4|
    ensures Counted(PAGE4[k])
  {
  }

  lemma Page5Counted(k: nat)
    requires k < |PAGE5|
    ensures Counted(PAGE5[k])
  {
  }

  lemma Page6Counted(k: nat)
    requires k < |PAGE6|
    ensures Counted(PAGE6[k])
  {
  }

  lemma Page7Counted(k: nat)
    requires k < |PAGE7|
    ensures Counted(PAGE7[k])
  {
  }

  lemma Page8Counted(k: nat)
    requires k < |PAGE8|
    ensures Counted(PAGE8[k])
  {
  }

  lemma Page9Counted(k: nat)
    requires k < |PAGE9|
    ensures Counted(PAGE9[k])
  {
  }

  lemma Page10Counted(k: nat)
    requires k < |PAGE10|
    ensures Counted(PAGE10[k])
  {
  }

  lemma Page11Counted(k: nat)
    requires k < |PAGE11|
    ensures Counted(PAGE11[k])
  {
  }

  lemma Page12Counted(k: nat)
    requires k < |PAGE12|
    ensures Counted(PAGE12[k])
  {
  }

  lemma Page13Counted(k: nat)
    requires k < |PAGE13|
    ensures Counted(PAGE13[k])
  {
  }

  lemma Page14Counted(k: nat)
    requires k < |PAGE14|
    ensures Counted(PAGE14[k])
  {
  }

  lemma Page15Counted(k: nat)
    requires k < |PAGE15|
    ensures Counted(PAGE15[k])
  {
  }

  lemma Page16Counted(k: nat)
    requires k < |PAGE16|
    ensures Counted(PAGE16[k])
  {
  }

  /** Every row is decoded as its code, followed by its arguments, and its bytes are counted. */
  lemma RowRead(p: nat, k: nat)
    requires p < |PAGES| && k < |PAGES[p]|
    ensures Decoded(PAGES[p][k]) && Counted(PAGES[p][k])
  {
    hide Decoded;
    hide Counted;
    match p {
      case 0 =>
        Page0Decoded(k);
        Page0Counted(k);
      case 1 =>
        Page1Decoded(k);
        Page1Counted(k);
      case 2 =>
        Page2Decoded(k);
        Page2Counted(k);
      case 3 =>
        Page3Decoded(k);
        Page3Counted(k);
      case 4 =>
        Page4Decoded(k);
        Page4Counted(k);
      case 5 =>
        Page5Decoded(k);
        Page5Counted(k);
      case 6 =>
        Page6Decoded(k);
        Page6Counted(k);
      case 7 =>
        Page7Decoded(k);
        Page7Counted(k);
      case 8 =>
        Page8Decoded(k);
        Page8Counted(k);
      case 9 =>
        Page9Decoded(k);
        Page9Counted(k);
      case 10 =>
        Page10Decoded(k);
        Page10Counted(k);
      case 11 =>
        Page11Decoded(k);
        Page11Counted(k);
      case 12 =>
        Page12Decoded(k);
        Page12Counted(k);
      case 13 =>
        Page13Decoded(k);
        Page13Counted(k);
      case 14 =>
        Page14Decoded(k);
        Page14Counted(k);
      case 15 =>
        Page15Decoded(k);
        Page15Counted(k);
      case _ =>
        Page16Decoded(k);
        Page16Counted(k);
    }
  }

  /** A code of one to four is followed by that many bytes, which are put out as they are. */
  lemma LiteralRead(op: Op, st: State, p: Prefix)
    requires 1 <= op.c <= 4 && op.code == Decode(op.c) && |op.args| == Payload(op.code, op.c)
    ensures PartsOf(op, st, p) == [Opcode(op.args)] && |op.args| == op.c as int == EmitLength(op, st)
  {
  }

  /** The sizes that follow the operand, the instruction or the address size: two bytes or four
      by the operand's own size, or else by the instruction's; an address in its own size. */
  lemma SizesRead(op: Op, st: State)
    requires OperandOk(op, st.oprs) && (op.code.Iwd? || op.code.Rel? || op.code.Iwdq?)
    ensures var n := EmitLength(op, st);
      if op.code.Iwdq? then st.asize % 8 == 0 ==> 8 * n == st.asize
      else
        var o := st.oprs[op.op1];
        var typed := o.b16 || o.b32 || (op.code.Rel? && o.b64);
        (n == 2 || n == 4) && (n == 2 <==> if typed then o.b16 else st.osize == 16)
  {
  }

  // ---- Register numbers in bytes of their own ----

  /** Eight registers share a place in a byte; two flags of the prefix tell them apart. */
  lemma NumberSplit(r: Register)
    ensures var b, x, n := RexFlags(Some(r), SlotB), RexFlags(Some(r), SlotX), RexFlags(Some(r), SlotR);
      && r.num == r.num % 8 + (if b.b then 8 else 0) + (if b.b1 then 16 else 0)
      && r.num == r.num % 8 + (if x.x then 8 else 0) + (if x.x1 then 16 else 0)
      && r.num == r.num % 8 + (if n.r then 8 else 0) + (if n.r1 then 16 else 0)
  {
  }

  lemma AddedFields(c: nat, m: nat)
    requires c < 256 && c % 8 == 0 && m < 8
    ensures c + m < 256 && (c + m) / 8 * 8 == c && (c + m) % 8 == m
  {
  }

  /** A register that is added to the opcode. */
  lemma AddedRead(op: Op, st: State, p: Prefix)
    requires op.code.RegAdd? && OperandOk(op, st.oprs) && op.args[0] as int % 8 == 0
    ensures var r := st.oprs[op.op1].reg.value; var f := RexFlags(Some(r), SlotB);
      exists b: byte :: PartsOf(op, st, p) == [Raw(b)]
        && b as int / 8 * 8 == op.args[0] as int
        && r.num == b as int % 8 + (if f.b then 8 else 0) + (if f.b1 then 16 else 0)
  {
    var r := st.oprs[op.op1].reg.value;
    NumberSplit(r);
    AddedFields(op.args[0], r.num % 8);
    hide RexFlags;
    var b: byte := op.args[0] + r.num % 8;
    assert PartsOf(op, st, p) == [Raw(b)];
  }

  lemma MrbFields(c: nat, m: nat)
    requires c < 256 && m < 8
    ensures var b := c / 64 * 64 + m * 8 + c % 8; b < 256 && b / 64 == c / 64 && b % 8 == c % 8 && b / 8 % 8 == m
  {
  }

  /** A register in the reg field of a ModRM byte with the other fields fixed. */
  lemma MrbRead(op: Op, st: State, p: Prefix)
    requires op.code.Mrb? && OperandOk(op, st.oprs)
    ensures var r, c := st.oprs[MrbOperand(op)].reg.value, op.args[0] as int; var f := RexFlags(Some(r), SlotR);
      exists b: byte :: PartsOf(op, st, p) == [Raw(b)]
        && b as int / 64 == c / 64 && b as int % 8 == c % 8
        && r.num == b as int / 8 % 8 + (if f.r then 8 else 0) + (if f.r1 then 16 else 0)
  {
    var r, c := st.oprs[MrbOperand(op)].reg.value, op.args[0] as int;
    var b: byte := c / 64 * 64 + r.num % 8 * 8 + c % 8;
    assert PartsOf(op, st, p) == [Raw(b)];
    NumberSplit(r);
    MrbFields(c, r.num % 8);
    hide RexFlags;
    hide MrbOperand;
    hide PartsOf;
    hide OperandOk;
  }

  /** A register in the high half of a byte, all five bits of it if the constant leaves the
      place of the fifth. */
  lemma Is4Read(r: Register, c: nat)
    requires c < 16
    ensures var b := Is4Byte(r.num, c) as int;
      && b / 16 == r.num % 16 && b % 8 == c % 8
      && (c < 8 ==> r.num == b / 16 + (if b / 8 % 2 == 1 then 16 else 0))
      && (r.num < 16 ==> b % 16 == c)
  {
  }
}
