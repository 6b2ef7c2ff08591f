/** REX, REX2, VEX and EVEX prefixes: what the assembler writes and what the
    disassembler reads back. A prefix of several bytes is handled as one word;
    both sides store it in little-endian order. */
module Prefixes {
  import opened Basics
  import opened Registers
  import opened EaDecoding
  import opened EaEncoding

  /** What the disassembler keeps of a prefix: the register bits, the V register, W, the
      opcode map, the vector length, the embedded legacy prefix, and the EVEX b bit. */
  datatype Fields = Fields(ext: RegExt, vreg: nat, vregxv: nat, w: bool, map_: bv32, l: bv32, pp: bv32, b: bool)

  // ---- Writing ----

  /** The flags B, X and R as they stand in the low bits of the flag word. */
  function Low3(rex: Rex): bv32 {
    (if rex.b then 1 else 0) | (if rex.x then 2 else 0) | (if rex.r then 4 else 0)
  }

  function WBit(rex: Rex, mask: bv32): bv32 {
    if rex.w then mask else 0
  }

  function RexByte(low3: bv32, w: bv32): bv32 {
    0x40 | w | low3
  }

  /** The second bits of B, X and R, as they stand in the flag word, shifted down by 8. */
  function Second3(rex: Rex): bv32 {
    (if rex.b1 then 0x10 else 0) | (if rex.x1 then 0x20 else 0) | (if rex.r1 then 0x40 else 0)
  }

  function Rex2Word(low3: bv32, second3: bv32, w: bv32, map_: bv32): bv32 {
    0xd5 | ((low3 | w | second3 | ((map_ << 7) & 0xff)) << 8)
  }

  predicate NeedsVex3(rex: Rex, cm: bv32, forceVex3: bool) {
    cm != 1 || rex.b || rex.x || rex.w || forceVex3
  }

  function Vex3Word(low3: bv32, w: bv32, cm: bv32, wlp: bv32, vreg: bv32): bv32 {
    (if cm >> 6 != 0 then 0x8f else 0xc4)
    | (((cm & 31) | ((!low3 & 7) << 5)) << 8)
    | ((w | ((!vreg & 15) << 3) | (wlp & 7)) << 16)
  }

  function Vex2Word(low3: bv32, wlp: bv32, vreg: bv32): bv32 {
    0xc5 | ((((!low3 & 4) << 5) | ((!vreg & 15) << 3) | (wlp & 7)) << 8)
  }

  /** The bit that carries the second B bit: X3 when r/m is a vector, else B4. */
  function SecondB(rex: Rex): bv32 {
    if !rex.b1 then 0 else if rex.bv then 0x4000 else 0x0800
  }

  /** The bit that carries the second X bit: V4 when the index is a vector, else X4. */
  function SecondX(rex: Rex): bv32 {
    if !rex.x1 then 0 else if rex.xv then 0x0800_0000 else 0x0004_0000
  }

  /** The EVEX word, from the template with the operand decorators put in. */
  function EvexWord(template: bv32, low3: bv32, b1: bv32, x1: bv32, r1: bool, w: bv32, vreg: bv32): bv32 {
    ((template ^ (low3 << 13) ^ b1 ^ x1 ^ (if r1 then 0x1000 else 0)) | w)
    ^ ((vreg & 15) << 19) ^ ((vreg & 16) << 23)
  }

  // ---- Reading ----

  /** The single bits of a prefix that select registers, true for 1. */
  datatype PrefixBits = PrefixBits(b: bool, x: bool, r: bool, w: bool, v3: bool, v2: bool, v1: bool, v0: bool)

  function RexBits(b: bv32): PrefixBits {
    PrefixBits(b & 1 != 0, b & 2 != 0, b & 4 != 0, b & 8 != 0, false, false, false, false)
  }

  function ParseRex(b: bv32): Fields {
    var p := RexBits(b);
    var breg, xreg := HighBits(p.b, false), HighBits(p.x, false);
    Fields(RegExt(breg, breg, xreg, xreg, HighBits(p.r, false)), 0, 0, p.w, 0, 0, 0, false)
  }

  function ParseRex2(word: bv32): Fields {
    var breg := HighBits(word & 0x0100 != 0, word & 0x1000 != 0);
    var xreg := HighBits(word & 0x0200 != 0, word & 0x2000 != 0);
    var rreg := HighBits(word & 0x0400 != 0, word & 0x4000 != 0);
    Fields(RegExt(breg, breg, xreg, xreg, rreg), 0, 0, word & 0x0800 != 0, (word >> 15) & 1, 0, 0, false)
  }

  function Vex2To3(word: bv32): bv32 {
    (word & 0x80fe) + ((word & 0x7f00) << 8) + 0x6100
  }

  function Nibble(b3: bool, b2: bool, b1: bool, b0: bool): nat {
    (if b3 then 8 else 0) + (if b2 then 4 else 0) + (if b1 then 2 else 0) + (if b0 then 1 else 0)
  }

  function VexBits(word: bv32): PrefixBits {
    PrefixBits(word & 0x2000 == 0, word & 0x4000 == 0, word & 0x8000 == 0, word & 0x80_0000 != 0,
               word & 0x40_0000 == 0, word & 0x20_0000 == 0, word & 0x10_0000 == 0, word & 0x08_0000 == 0)
  }

  function ParseVex3(word: bv32): Fields {
    var p := VexBits(word);
    var breg, xreg, vreg := HighBits(p.b, false), HighBits(p.x, false), Nibble(p.v3, p.v2, p.v1, p.v0);
    Fields(RegExt(breg, breg, xreg, xreg, HighBits(p.r, false)), vreg, vreg, p.w, (word >> 8) & 31, (word >> 18) & 1,
           (word >> 16) & 3, false)
  }

  /** The bits of an EVEX payload; register bits are stored inverted, except B4. */
  datatype EvexBits = EvexBits(low: PrefixBits, b4: bool, r4: bool, x4: bool, v4: bool)

  function EvexBitsOf(raw: bv32): EvexBits {
    var e := raw ^ 0x087c_f000;
    EvexBits(PrefixBits(e & 0x2000 != 0, e & 0x4000 != 0, e & 0x8000 != 0, e & 0x80_0000 != 0,
                        e & 0x40_0000 != 0, e & 0x20_0000 != 0, e & 0x10_0000 != 0, e & 0x08_0000 != 0),
             e & 0x0800 != 0, e & 0x1000 != 0, e & 0x4_0000 != 0, e & 0x0800_0000 != 0)
  }

  function ParseEvex(raw: bv32): Fields {
    var e := EvexBitsOf(raw);
    var p := e.low;
    var v := Nibble(p.v3, p.v2, p.v1, p.v0);
    Fields(RegExt(HighBits(p.b, e.b4), HighBits(p.b, p.x), HighBits(p.x, e.x4), HighBits(p.x, e.v4),
                  HighBits(p.r, e.r4)),
           v + (if e.v4 then 16 else 0), v, p.w, (raw >> 8) & 7, (raw >> 29) & 3, (raw >> 16) & 3, raw & 0x1000_0000 != 0)
  }

  /** A register number in the VEX.V or EVEX.V field, from its five bits. */
  function VNumber(vreg: bv32): nat {
    Nibble(vreg & 8 != 0, vreg & 4 != 0, vreg & 2 != 0, vreg & 1 != 0) + (if vreg & 16 != 0 then 16 else 0)
  }

  // ---- Agreement ----

  lemma Low3Bits(rex: Rex)
    ensures var l := Low3(rex);
      l < 8 && (l & 1 != 0) == rex.b && (l & 2 != 0) == rex.x && (l & 4 != 0) == rex.r
  {
  }

  lemma Second3Bits(rex: Rex)
    ensures var s := Second3(rex);
      s & 0x8f == 0 && s < 256 && (s & 0x10 != 0) == rex.b1 && (s & 0x20 != 0) == rex.x1 && (s & 0x40 != 0) == rex.r1
  {
  }

  /** A REX byte carries every flag word that has no second bits. */
  lemma RexCarries(rex: Rex)
    requires !rex.b1 && !rex.x1 && !rex.r1
    ensures var f := ParseRex(RexByte(Low3(rex), WBit(rex, 8)));
      Carries(f.ext, rex) && f.w == rex.w
  {
    Low3Bits(rex);
    var l, w := Low3(rex), WBit(rex, 8);
    assert RexBits(RexByte(l, w)) == PrefixBits(l & 1 != 0, l & 2 != 0, l & 4 != 0, w != 0, false, false, false, false);
  }

  lemma Rex2Bits(l: bv32, s: bv32, w: bv32, map_: bv32)
    requires l < 8 && s & 0x8f == 0 && s < 256 && (w == 0 || w == 8) && map_ < 4
    ensures var b := 0xd5 | ((l | w | s | ((map_ << 7) & 0xff)) << 8);
      && (b & 0x0100 != 0) == (l & 1 != 0) && (b & 0x0200 != 0) == (l & 2 != 0) && (b & 0x0400 != 0) == (l & 4 != 0)
      && (b & 0x1000 != 0) == (s & 0x10 != 0) && (b & 0x2000 != 0) == (s & 0x20 != 0)
      && (b & 0x4000 != 0) == (s & 0x40 != 0) && (b & 0x0800 != 0) == (w != 0) && ((b >> 15) & 1 == map_) == (map_ <= 1)
  {
  }

  /** A REX2 prefix carries every flag word, and of the four legacy opcode maps the first
      two; instructions in the others must not use it. */
  lemma Rex2Carries(rex: Rex, map_: bv32)
    requires map_ < 4
    ensures var f := ParseRex2(Rex2Word(Low3(rex), Second3(rex), WBit(rex, 8), map_));
      Carries(f.ext, rex) && f.w == rex.w && (f.map_ == map_ <==> map_ <= 1)
  {
    Low3Bits(rex);
    Second3Bits(rex);
    Rex2Bits(Low3(rex), Second3(rex), WBit(rex, 8), map_);
  }

  lemma Vex3Bits(cm: bv32, l: bv32, w: bv32, wlp: bv32, vreg: bv32, op: bv32)
    requires op < 256 && l < 8 && vreg < 16 && (w == 0 || w == 0x80)
    ensures var b := op | (((cm & 31) | ((!l & 7) << 5)) << 8) | ((w | ((!vreg & 15) << 3) | (wlp & 7)) << 16);
      && (b & 0x2000 == 0) == (l & 1 != 0) && (b & 0x4000 == 0) == (l & 2 != 0) && (b & 0x8000 == 0) == (l & 4 != 0)
      && (b & 0x80_0000 != 0) == (w != 0) && (b >> 8) & 31 == cm & 31
      && (b & 0x40_0000 == 0) == (vreg & 8 != 0) && (b & 0x20_0000 == 0) == (vreg & 4 != 0)
      && (b & 0x10_0000 == 0) == (vreg & 2 != 0) && (b & 0x08_0000 == 0) == (vreg & 1 != 0) && vreg & 16 == 0
      && (b >> 18) & 1 == (wlp >> 2) & 1 && (b >> 16) & 3 == wlp & 3
  {
  }

  /** A three-byte VEX or XOP prefix carries the flags, the V register, the map, the vector
      length and the embedded prefix. */
  lemma Vex3Carries(rex: Rex, cm: bv32, wlp: bv32, vreg: bv32)
    requires !rex.b1 && !rex.x1 && !rex.r1 && vreg < 16
    ensures var f := ParseVex3(Vex3Word(Low3(rex), WBit(rex, 0x80), cm, wlp, vreg));
      Carries(f.ext, rex) && f.w == rex.w && f.vreg == VNumber(vreg) && f.map_ == cm & 31
      && f.l == (wlp >> 2) & 1 && f.pp == wlp & 3 && f.vregxv == f.vreg
  {
    Low3Bits(rex);
    Vex3Bits(cm, Low3(rex), WBit(rex, 0x80), wlp, vreg, if cm >> 6 != 0 then 0x8f else 0xc4);
  }

  /** Where the short form is allowed, it reads back like the long form. */
  lemma Vex2Carries(rex: Rex, cm: bv32, wlp: bv32, vreg: bv32)
    requires vreg < 16 && !NeedsVex3(rex, cm, false)
    ensures ParseVex3(Vex2To3(Vex2Word(Low3(rex), wlp, vreg)))
            == ParseVex3(Vex3Word(Low3(rex), WBit(rex, 0x80), cm, wlp, vreg))
  {
    Low3Bits(rex);
    var l := Low3(rex);
    assert Vex2To3(Vex2Word(l, wlp, vreg)) == Vex3Word(l, 0, 1, wlp, vreg);
  }

  /** The register bits of an EVEX word, undone from their inversion. */
  lemma EvexWordBits(template: bv32, l: bv32, b1: bv32, x1: bv32, r1: bv32, w: bv32, vreg: bv32)
    requires template & 0x087c_f800 == 0x087c_f000 && l < 8 && vreg < 32
    requires b1 & !0x4800 == 0 && x1 & !0x0804_0000 == 0 && r1 & !0x1000 == 0 && w & !0x0080_0000 == 0
    ensures var e := (((template ^ (l << 13) ^ b1 ^ x1 ^ r1) | w) ^ ((vreg & 15) << 19) ^ ((vreg & 16) << 23))
                     ^ 0x087c_f000;
      && e & 0x2000 == (l & 1) << 13 && e & 0x8000 == (l & 4) << 13
      && e & 0x4000 == ((l & 2) << 13) ^ (b1 & 0x4000) && e & 0x0800 == b1 & 0x0800
      && e & 0x4_0000 == x1 & 0x0004_0000
      && e & 0x0800_0000 == ((vreg & 16) << 23) ^ (x1 & 0x0800_0000)
      && e & 0x1000 == r1 && e & 0x80_0000 == (template & 0x80_0000) | w
      && e & 0x40_0000 == (vreg & 8) << 19 && e & 0x20_0000 == (vreg & 4) << 19
      && e & 0x10_0000 == (vreg & 2) << 19 && e & 0x08_0000 == (vreg & 1) << 19
  {
  }

  /** Moving a bit keeps whether it is set; flipping the moved bit inverts that. */
  lemma MovedBits(l: bv32, vreg: bv32)
    requires l < 8 && vreg < 32
    ensures ((l & 1) << 13 != 0) == (l & 1 != 0) && ((l & 4) << 13 != 0) == (l & 4 != 0)
    ensures ((l & 2) << 13 != 0) == (l & 2 != 0) && (((l & 2) << 13) ^ 0x4000 != 0) == (l & 2 == 0)
    ensures ((vreg & 16) << 23 != 0) == (vreg & 16 != 0) && (((vreg & 16) << 23) ^ 0x0800_0000 != 0) == (vreg & 16 == 0)
    ensures ((vreg & 8) << 19 != 0) == (vreg & 8 != 0) && ((vreg & 4) << 19 != 0) == (vreg & 4 != 0)
    ensures ((vreg & 2) << 19 != 0) == (vreg & 2 != 0) && ((vreg & 1) << 19 != 0) == (vreg & 1 != 0)
    ensures vreg < 16 ==> vreg & 16 == 0
  {
  }

  /** The register bits of the word for `rex`, as flags. */
  lemma EvexFlagBits(template: bv32, rex: Rex, vreg: bv32)
    requires template & 0x087c_f800 == 0x087c_f000 && vreg < 32
    ensures var e := EvexWord(template, Low3(rex), SecondB(rex), SecondX(rex), rex.r1, WBit(rex, 0x0080_0000), vreg)
                     ^ 0x087c_f000;
      && (e & 0x2000 != 0) == rex.b && (e & 0x4000 != 0) == (rex.x != (rex.b1 && rex.bv))
      && (e & 0x8000 != 0) == rex.r && (e & 0x80_0000 != 0) == (rex.w || template & 0x80_0000 != 0)
      && (e & 0x0800 != 0) == (rex.b1 && !rex.bv) && (e & 0x1000 != 0) == rex.r1
  {
    Low3Bits(rex);
    MovedBits(Low3(rex), vreg);
    EvexWordBits(template, Low3(rex), SecondB(rex), SecondX(rex), if rex.r1 then 0x1000 else 0,
                 WBit(rex, 0x0080_0000), vreg);
  }

  /** The index and V bits of the word for `rex`. */
  lemma EvexIndexBits(template: bv32, rex: Rex, vreg: bv32)
    requires template & 0x087c_f800 == 0x087c_f000 && vreg < 32
    ensures var e := EvexWord(template, Low3(rex), SecondB(rex), SecondX(rex), rex.r1, WBit(rex, 0x0080_0000), vreg)
                     ^ 0x087c_f000;
      && (e & 0x4_0000 != 0) == (rex.x1 && !rex.xv)
      && (e & 0x0800_0000 != 0) == ((vreg & 16 != 0) != (rex.x1 && rex.xv))
      && (e & 0x40_0000 != 0) == (vreg & 8 != 0) && (e & 0x20_0000 != 0) == (vreg & 4 != 0)
      && (e & 0x10_0000 != 0) == (vreg & 2 != 0) && (e & 0x08_0000 != 0) == (vreg & 1 != 0)
  {
    Low3Bits(rex);
    MovedBits(Low3(rex), vreg);
    EvexWordBits(template, Low3(rex), SecondB(rex), SecondX(rex), if rex.r1 then 0x1000 else 0,
                 WBit(rex, 0x0080_0000), vreg);
  }

  /** The payload of the word for `rex`. */
  lemma EvexPayload(template: bv32, rex: Rex, vreg: bv32)
    requires template & 0x087c_f800 == 0x087c_f000 && vreg < 32
    ensures EvexBitsOf(EvexWord(template, Low3(rex), SecondB(rex), SecondX(rex), rex.r1, WBit(rex, 0x0080_0000), vreg))
            == EvexBits(PrefixBits(rex.b, rex.x != (rex.b1 && rex.bv), rex.r, rex.w || template & 0x80_0000 != 0,
                                   vreg & 8 != 0, vreg & 4 != 0, vreg & 2 != 0, vreg & 1 != 0),
                        rex.b1 && !rex.bv, rex.r1, rex.x1 && !rex.xv, (vreg & 16 != 0) != (rex.x1 && rex.xv))
  {
    EvexFlagBits(template, rex, vreg);
    EvexIndexBits(template, rex, vreg);
  }

  /** The bits of the template that hold no register stay as they are. */
  lemma EvexOtherBits(template: bv32, l: bv32, b1: bv32, x1: bv32, r1: bv32, w: bv32, vreg: bv32)
    requires l < 8 && vreg < 32
    requires b1 & !0x4800 == 0 && x1 & !0x0804_0000 == 0 && r1 & !0x1000 == 0 && w & !0x0080_0000 == 0
    ensures var e := ((template ^ (l << 13) ^ b1 ^ x1 ^ r1) | w) ^ ((vreg & 15) << 19) ^ ((vreg & 16) << 23);
      && (e >> 8) & 7 == (template >> 8) & 7 && (e >> 29) & 3 == (template >> 29) & 3
      && (e >> 16) & 3 == (template >> 16) & 3 && e & 0x1000_0000 == template & 0x1000_0000
  {
  }

  lemma SecondBits(rex: Rex)
    ensures SecondB(rex) & !0x4800 == 0 && SecondX(rex) & !0x0804_0000 == 0 && WBit(rex, 0x0080_0000) & !0x0080_0000 == 0
    ensures (if rex.r1 then 0x1000 else 0) & !0x1000 == 0 as bv32
  {
  }

  lemma EvexOtherFields(template: bv32, rex: Rex, vreg: bv32)
    requires vreg < 32
    ensures var e := EvexWord(template, Low3(rex), SecondB(rex), SecondX(rex), rex.r1, WBit(rex, 0x0080_0000), vreg);
      && (e >> 8) & 7 == (template >> 8) & 7 && (e >> 29) & 3 == (template >> 29) & 3
      && (e >> 16) & 3 == (template >> 16) & 3 && e & 0x1000_0000 == template & 0x1000_0000
  {
    Low3Bits(rex);
    SecondBits(rex);
    hide Low3;
    hide SecondB;
    hide SecondX;
    hide WBit;
    EvexOtherBits(template, Low3(rex), SecondB(rex), SecondX(rex), if rex.r1 then 0x1000 else 0,
                  WBit(rex, 0x0080_0000), vreg);
  }

  lemma EvexRegisters(template: bv32, rex: Rex, vreg: bv32)
    requires template & 0x087c_f800 == 0x087c_f000 && vreg < 32
    requires rex.bv ==> !rex.x && !rex.x1
    requires rex.xv ==> vreg < 16
    ensures var f := ParseEvex(EvexWord(template, Low3(rex), SecondB(rex), SecondX(rex), rex.r1,
                                        WBit(rex, 0x0080_0000), vreg));
      && CarriesDirect(f.ext, rex) && (!rex.bv ==> Carries(f.ext, rex))
      && (f.w <==> rex.w || template & 0x80_0000 != 0)
      && (if rex.xv then f.vregxv else f.vreg) == VNumber(vreg)
  {
    hide ParseEvex;
    hide EvexWord;
    hide EvexBitsOf;
    hide Low3;
    hide SecondB;
    hide SecondX;
    hide WBit;
    EvexPayload(template, rex, vreg);
    ParsedRegisters(EvexWord(template, Low3(rex), SecondB(rex), SecondX(rex), rex.r1, WBit(rex, 0x0080_0000), vreg));
    MovedBits(0, vreg);
  }

  lemma ParsedRegisters(raw: bv32)
    ensures var f, e := ParseEvex(raw), EvexBitsOf(raw);
      var p := e.low;
      && f.ext == RegExt(HighBits(p.b, e.b4), HighBits(p.b, p.x), HighBits(p.x, e.x4), HighBits(p.x, e.v4), HighBits(p.r, e.r4))
      && f.vregxv == Nibble(p.v3, p.v2, p.v1, p.v0) && f.vreg == f.vregxv + (if e.v4 then 16 else 0) && f.w == p.w
  {
  }

  lemma ParsedOther(raw: bv32)
    ensures var f := ParseEvex(raw);
      && f.map_ == (raw >> 8) & 7 && f.l == (raw >> 29) & 3 && f.pp == (raw >> 16) & 3 && (f.b <==> raw & 0x1000_0000 != 0)
  {
  }

  /** An EVEX prefix over a template with its inverted bits set carries the flags and the
      V register, and W if the flags or the template have it. B and X share a bit when the r/m operand is a vector
      register, and V and X share one when the index is a vector: then one of
      the two must be free. */
  lemma EvexCarries(template: bv32, rex: Rex, vreg: bv32)
    requires template & 0x087c_f800 == 0x087c_f000 && vreg < 32
    requires rex.bv ==> !rex.x && !rex.x1
    requires rex.xv ==> vreg < 16
    ensures var f := ParseEvex(EvexWord(template, Low3(rex), SecondB(rex), SecondX(rex), rex.r1,
                                        WBit(rex, 0x0080_0000), vreg));
      && CarriesDirect(f.ext, rex) && (!rex.bv ==> Carries(f.ext, rex))
      && (f.w <==> rex.w || template & 0x80_0000 != 0)
      && (if rex.xv then f.vregxv else f.vreg) == VNumber(vreg)
      && f.map_ == (template >> 8) & 7 && f.l == (template >> 29) & 3 && f.pp == (template >> 16) & 3
      && (f.b <==> template & 0x1000_0000 != 0)
  {
    hide ParseEvex;
    hide EvexWord;
    hide Low3;
    hide SecondB;
    hide SecondX;
    hide WBit;
    EvexRegisters(template, rex, vreg);
    EvexOtherFields(template, rex, vreg);
    ParsedOther(EvexWord(template, Low3(rex), SecondB(rex), SecondX(rex), rex.r1, WBit(rex, 0x0080_0000), vreg));
  }

  // ---- The prefix of an instruction ----

  /** The prefix that carries register bits; LOCK stands in for REX.R. The template
      of an EVEX prefix and the fields of a VEX prefix come from the instruction. */
  datatype Prefix =
    | Bare
    | LockPrefix
    | RexPrefix
    | Rex2Prefix(map_: bv32)
    | Vex3Prefix(cm: bv32, wlp: bv32, vreg: bv32)
    | Vex2Prefix(cm: bv32, wlp: bv32, vreg: bv32)
    | EvexPrefix(template: bv32, vreg: bv32)

  /** The register bits that are stored inverted are set in a template, and the others clear. */
  predicate Inverted(template: bv32) {
    template & 0x087c_f800 == 0x087c_f000
  }

  predicate TemplateOk(template: bv32) {
    Inverted(template) && template & 0xff == 0x62
  }

  /** A template with the b bit and the vector length that the operands call for. */
  function Decorate(template: bv32, b: bool, ll: bv32): bv32 {
    (template & 0x8fff_ffff) | (if b then 0x1000_0000 else 0) | ((ll & 3) << 29)
  }

  lemma DecorateBits(t: bv32, c: bv32, ll: bv32)
    requires c == 0 || c == 0x1000_0000
    ensures var d := (t & 0x8fff_ffff) | c | ((ll & 3) << 29);
      && d & 0x087c_f800 == t & 0x087c_f800 && d & 0xff == t & 0xff && d & 0x80_0000 == t & 0x80_0000
      && (d >> 8) & 7 == (t >> 8) & 7 && (d >> 16) & 3 == (t >> 16) & 3 && (d >> 29) & 3 == ll & 3
      && d & 0x1000_0000 == c
  {
  }

  lemma DecorateKeeps(t: bv32, b: bool, ll: bv32)
    ensures var d := Decorate(t, b, ll);
      && (Inverted(d) <==> Inverted(t)) && (TemplateOk(d) <==> TemplateOk(t)) && d & 0x80_0000 == t & 0x80_0000
      && (d >> 8) & 7 == (t >> 8) & 7 && (d >> 16) & 3 == (t >> 16) & 3 && (d >> 29) & 3 == ll & 3
      && (d & 0x1000_0000 != 0 <==> b)
  {
    DecorateBits(t, if b then 0x1000_0000 else 0, ll);
  }

  /** The maps of XOP prefixes start at eight. */
  predicate MapOk(cm: bv32) {
    cm >> 6 == 0 || cm & 31 >= 8
  }

  /** Whether a prefix has room for the flags. */
  predicate Holds(p: Prefix, rex: Rex) {
    match p
    case Bare => !rex.b && !rex.x && !rex.r && !rex.b1 && !rex.x1 && !rex.r1
    case LockPrefix => !rex.b && !rex.x && rex.r && !rex.b1 && !rex.x1 && !rex.r1
    case RexPrefix => !rex.b1 && !rex.x1 && !rex.r1
    case Rex2Prefix(map_) => map_ < 4
    case Vex3Prefix(cm, _, vreg) => vreg < 16 && MapOk(cm) && !rex.b1 && !rex.x1 && !rex.r1
    case Vex2Prefix(cm, _, vreg) => vreg < 16 && !NeedsVex3(rex, cm, false) && !rex.b1 && !rex.x1 && !rex.r1
    case EvexPrefix(template, vreg) =>
      TemplateOk(template) && vreg < (if rex.xv then 16 else 32) && (rex.bv ==> !rex.x && !rex.x1)
  }

  /** The prefix as it is written, if there is one. */
  function PrefixWord(p: Prefix, rex: Rex): bv32 {
    match p
    case Bare => 0
    case LockPrefix => 0xf0
    case RexPrefix => RexByte(Low3(rex), WBit(rex, 8))
    case Rex2Prefix(map_) => Rex2Word(Low3(rex), Second3(rex), WBit(rex, 8), map_)
    case Vex3Prefix(cm, wlp, vreg) => Vex3Word(Low3(rex), WBit(rex, 0x80), cm, wlp, vreg)
    case Vex2Prefix(_, wlp, vreg) => Vex2Word(Low3(rex), wlp, vreg)
    case EvexPrefix(template, vreg) =>
      EvexWord(template, Low3(rex), SecondB(rex), SecondX(rex), rex.r1, WBit(rex, 0x0080_0000), vreg)
  }

  const NO_BITS := RegExt(0, 0, 0, 0, 0)
  const NO_FIELDS := Fields(NO_BITS, 0, 0, false, 0, 0, 0, false)

  /** The fields of a prefix, by its first byte. */
  function ReadWord(word: bv32): Option<Fields> {
    var b := word & 0xff;
    if b & 0xf0 == 0x40 then Some(ParseRex(word))
    else if b == 0xd5 then Some(ParseRex2(word))
    else if b == 0xc5 then Some(ParseVex3(Vex2To3(word)))
    else if b == 0x8f && (word >> 8) & 31 < 8 then None
    else if b == 0x8f || b == 0xc4 then Some(ParseVex3(word))
    else if b == 0x62 then Some(ParseEvex(word))
    else if b == 0xf0 then Some(NO_FIELDS.(ext := NO_BITS.(rreg := 8)))
    else None
  }

  /** What the disassembler reads from the prefix as it is written. */
  function ReadBack(p: Prefix, rex: Rex): Option<Fields> {
    if p.Bare? then Some(NO_FIELDS) else ReadWord(PrefixWord(p, rex))
  }

  /** The fields that a prefix has beside the register bits. */
  predicate FieldsKept(p: Prefix, rex: Rex, f: Fields) {
    match p
    case RexPrefix => f.w == rex.w
    case Rex2Prefix(map_) => f.w == rex.w && (f.map_ == map_ <==> map_ <= 1)
    case Vex3Prefix(cm, wlp, vreg) =>
      && f.w == rex.w && f.vreg == VNumber(vreg) && f.map_ == cm & 31 && f.l == (wlp >> 2) & 1 && f.pp == wlp & 3
    case Vex2Prefix(cm, wlp, vreg) =>
      && f.w == rex.w && f.vreg == VNumber(vreg) && f.map_ == cm & 31 && f.l == (wlp >> 2) & 1 && f.pp == wlp & 3
    case EvexPrefix(template, vreg) =>
      && (f.w <==> rex.w || template & 0x80_0000 != 0) && (if rex.xv then f.vregxv else f.vreg) == VNumber(vreg)
      && f.map_ == (template >> 8) & 7 && f.l == (template >> 29) & 3 && f.pp == (template >> 16) & 3
      && (f.b <==> template & 0x1000_0000 != 0)
    case _ => f == NO_FIELDS.(ext := f.ext)
  }

  /** The first bytes of the prefixes. */
  lemma FirstBytes(l: bv32, s: bv32, w: bv32, cm: bv32, wlp: bv32, vreg: bv32)
    requires l < 8 && s < 256
    ensures w == 0 || w == 8 ==> (0x40 | w | l) & 0xff & 0xf0 == 0x40
    ensures (0xd5 | ((l | w | s | ((cm << 7) & 0xff)) << 8)) & 0xff == 0xd5
    ensures (0xc5 | ((((!l & 4) << 5) | ((!vreg & 15) << 3) | (wlp & 7)) << 8)) & 0xff == 0xc5
    ensures (0x8f | (((cm & 31) | ((!l & 7) << 5)) << 8) | ((w | ((!vreg & 15) << 3) | (wlp & 7)) << 16)) & 0xff == 0x8f
    ensures (0xc4 | (((cm & 31) | ((!l & 7) << 5)) << 8) | ((w | ((!vreg & 15) << 3) | (wlp & 7)) << 16)) & 0xff == 0xc4
  {
  }

  /** The first byte of an EVEX prefix, and the map of a VEX or XOP prefix. */
  lemma FirstFields(t: bv32, l: bv32, b1: bv32, x1: bv32, r1: bv32, w: bv32, cm: bv32, wlp: bv32, vreg: bv32, op: bv32)
    requires l < 8 && op < 256
    requires b1 & 0xff == 0 && x1 & 0xff == 0 && r1 & 0xff == 0
    ensures w & 0xff == 0 ==>
              (((t ^ (l << 13) ^ b1 ^ x1 ^ r1) | w) ^ ((vreg & 15) << 19) ^ ((vreg & 16) << 23)) & 0xff == t & 0xff
    ensures ((op | (((cm & 31) | ((!l & 7) << 5)) << 8) | ((w | ((!vreg & 15) << 3) | (wlp & 7)) << 16)) >> 8) & 31 == cm & 31
  {
  }

  /** Reading starts at the right kind of prefix. */
  lemma KindRead(p: Prefix, rex: Rex)
    requires Holds(p, rex) && (p.RexPrefix? || p.Rex2Prefix? || p.Vex2Prefix?)
    ensures var word := PrefixWord(p, rex);
      ReadWord(word) == match p
                        case RexPrefix => Some(ParseRex(word))
                        case Rex2Prefix(_) => Some(ParseRex2(word))
                        case _ => Some(ParseVex3(Vex2To3(word)))
  {
    hide ParseRex;
    hide ParseRex2;
    hide ParseVex3;
    hide ParseEvex;
    hide Vex2To3;
    hide Low3;
    hide Second3;
    Low3Bits(rex);
    Second3Bits(rex);
    var l := Low3(rex);
    match p
    case RexPrefix => FirstBytes(l, 0, WBit(rex, 8), 0, 0, 0);
    case Rex2Prefix(map_) => FirstBytes(l, Second3(rex), WBit(rex, 8), map_, 0, 0);
    case Vex2Prefix(cm, wlp, vreg) => FirstBytes(l, 0, 0, cm, wlp, vreg);
  }

  lemma LockRead()
    ensures ReadWord(0xf0) == Some(NO_FIELDS.(ext := NO_BITS.(rreg := 8)))
  {
    assert 0xf0 & 0xff == 0xf0 as bv32 && 0xf0 & 0xf0 == 0xf0 as bv32;
  }

  lemma Vex3Read(cm: bv32, wlp: bv32, vreg: bv32, rex: Rex)
    requires MapOk(cm)
    ensures var word := PrefixWord(Vex3Prefix(cm, wlp, vreg), rex); ReadWord(word) == Some(ParseVex3(word))
  {
    hide ParseRex;
    hide ParseRex2;
    hide ParseVex3;
    hide ParseEvex;
    hide Vex2To3;
    Low3Bits(rex);
    var l, w := Low3(rex), WBit(rex, 0x80);
    FirstBytes(l, 0, w, cm, wlp, vreg);
    FirstFields(0, l, 0, 0, 0, w, cm, wlp, vreg, if cm >> 6 != 0 then 0x8f else 0xc4);
  }

  lemma EvexRead(template: bv32, vreg: bv32, rex: Rex)
    requires TemplateOk(template)
    ensures var word := PrefixWord(EvexPrefix(template, vreg), rex); ReadWord(word) == Some(ParseEvex(word))
  {
    hide ParseRex;
    hide ParseRex2;
    hide ParseVex3;
    hide ParseEvex;
    hide Vex2To3;
    Low3Bits(rex);
    FirstFields(template, Low3(rex), SecondB(rex), SecondX(rex), if rex.r1 then 0x1000 else 0, WBit(rex, 0x0080_0000),
                0, 0, vreg, 0);
  }

  /** Every prefix with room for the flags carries them, and its other fields; EVEX has no
      index beside a vector register in the r/m slot. */
  lemma PrefixCarries(p: Prefix, rex: Rex)
    requires Holds(p, rex)
    ensures ReadBack(p, rex).Some?
    ensures var f := ReadBack(p, rex).value;
      && CarriesDirect(f.ext, rex) && (!(p.EvexPrefix? && rex.bv) ==> Carries(f.ext, rex)) && FieldsKept(p, rex, f)
  {
    hide ReadWord;
    hide ParseRex;
    hide ParseRex2;
    hide ParseVex3;
    hide ParseEvex;
    hide Vex2To3;
    hide Low3;
    hide Second3;
    hide WBit;
    if p.EvexPrefix? {
      EvexRead(p.template, p.vreg, rex);
    } else if p.Vex3Prefix? {
      Vex3Read(p.cm, p.wlp, p.vreg, rex);
    } else if !p.Bare? && !p.LockPrefix? {
      KindRead(p, rex);
    }
    match p
    case Bare =>
    case LockPrefix => LockRead();
    case RexPrefix => RexCarries(rex);
    case Rex2Prefix(map_) => Rex2Carries(rex, map_);
    case Vex3Prefix(cm, wlp, vreg) => Vex3Carries(rex, cm, wlp, vreg);
    case Vex2Prefix(cm, wlp, vreg) =>
      Vex2Carries(rex, cm, wlp, vreg);
      Vex3Carries(rex, cm, wlp, vreg);
    case EvexPrefix(template, vreg) => EvexCarries(template, rex, vreg);
  }

  /** The flags that say which registers an address has. */
  const ADDRESS_BITS: set<RexBit> := {B, X, R, B1, X1, R1, BV, XV, RV}

  /** More flags of the instruction change nothing in the address. */
  lemma CarriesStill(ext: RegExt, rex: Rex, extra: set<RexBit>)
    requires extra !! ADDRESS_BITS && Carries(ext, Rex(rex.bits + extra))
    ensures Carries(ext, rex)
  {
  }

  // ---- Numbers as bits ----

  lemma OrFits(a: bv32, b: bv32)
    requires a < 32 && b < 32
    ensures a | b < 32 && (a < 16 && b < 16 ==> a | b < 16)
  {
  }

  lemma TemplateFirst(a: bv32, b: bv32, c: bv32)
    ensures (0x62 | (a << 8) | (b << 16) | (c << 24)) & 0xff == 0x62
  {
  }

  /** The low eight bits of a number. */
  function ByteBits(n: nat): bv32 {
    LowNibble(n) | (LowNibble(n / 16) << 4)
  }

  function LowNibble(n: nat): bv32 {
    (if n % 2 == 1 then 1 else 0) | (if n / 2 % 2 == 1 then 2 else 0)
    | (if n / 4 % 2 == 1 then 4 else 0) | (if n / 8 % 2 == 1 then 8 else 0)
  }

  /** A register number as five bits. */
  function Bits5(n: nat): bv32 {
    LowNibble(n) | (if n / 16 % 2 == 1 then 16 else 0)
  }

  lemma NibbleBits(n: nat)
    ensures var b := LowNibble(n);
      b < 16 && (b & 1 != 0) == (n % 2 == 1) && (b & 2 != 0) == (n / 2 % 2 == 1)
      && (b & 4 != 0) == (n / 4 % 2 == 1) && (b & 8 != 0) == (n / 8 % 2 == 1)
  {
  }

  /** Where the number of the opcode map makes a difference. */
  lemma ByteBitsMap(n: nat)
    requires n < 256
    ensures (ByteBits(n) == 1 <==> n == 1) && (n < 4 ==> ByteBits(n) < 4)
  {
    NibbleBits(n);
    NibbleBits(n / 16);
    TwoNibbles(LowNibble(n), LowNibble(n / 16));
    NibbleDigits(n);
  }

  lemma TwoNibbles(l: bv32, h: bv32)
    requires l < 16 && h < 16
    ensures (l | (h << 4) == 1) == (l == 1 && h == 0) && (h == 0 ==> l | (h << 4) == l)
    ensures (l == 1) == (l & 1 != 0 && l & 2 == 0 && l & 4 == 0 && l & 8 == 0)
    ensures (l < 4) == (l & 4 == 0 && l & 8 == 0)
    ensures (h == 0) == (h & 1 == 0 && h & 2 == 0 && h & 4 == 0 && h & 8 == 0)
  {
  }

  lemma NibbleDigits(n: nat)
    requires n < 256
    ensures n == 1 <==> (n % 2 == 1 && n / 2 % 2 == 0 && n / 4 % 2 == 0 && n / 8 % 2 == 0
                         && n / 16 % 2 == 0 && n / 16 / 2 % 2 == 0 && n / 16 / 4 % 2 == 0 && n / 16 / 8 % 2 == 0)
    ensures n < 4 ==> n / 4 % 2 == 0 && n / 8 % 2 == 0 && n / 16 == 0
  {
  }

  lemma Bits5Low(l: bv32)
    requires l < 16
    ensures (l | 16) < 32 && (l | 16) & 16 != 0 && l & 16 == 0
    ensures (l | 16) & 8 == l & 8 && (l | 16) & 4 == l & 4 && (l | 16) & 2 == l & 2 && (l | 16) & 1 == l & 1
    ensures l | 0 == l
  {
  }

  /** Two bits of them. */
  lemma Bits5Length(n: nat)
    requires n < 4
    ensures Bits5(n) & 3 == Bits5(n)
  {
    NibbleBits(n);
    assert n / 4 % 2 == 0 && n / 8 % 2 == 0 && n / 16 % 2 == 0;
    hide LowNibble;
    SmallNibble(LowNibble(n));
  }

  lemma SmallNibble(l: bv32)
    requires l < 16 && l & 4 == 0 && l & 8 == 0
    ensures (l | 0) & 3 == l | 0
  {
  }

  lemma Bits5Number(n: nat)
    requires n < 32
    ensures Bits5(n) < 32 && (n < 16 ==> Bits5(n) < 16) && VNumber(Bits5(n)) == n
  {
    NibbleBits(n);
    Bits5Low(LowNibble(n));
  }
}
