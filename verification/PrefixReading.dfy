/** The disassembler's view of legacy prefixes, and what the assembler's prefixes, needs and
    sizes come to in it. */
module PrefixReading {
  import opened Basics
  import opened Bytecode
  import opened PrefixSlots
  import opened Sizing

  // ---- The reader ----

  /** What the reader keeps: WAIT, the repeat prefix (0xf2, 0xf3 or none), LOCK, the segment
      register, and whether there are size prefixes. */
  datatype Info = Info(any: bool, wait: bool, rep: int, lock: bool, seg: Pfx, osp: bool, asp: bool)
  {
    function Osize(bits: int): int {
      if osp then (if bits == 16 then 32 else 16) else if bits == 64 then 32 else bits
    }

    function Asize(bits: int): int {
      if asp then (if bits == 32 then 16 else 32) else bits
    }
  }

  const NO_PREFIX := Info(false, false, 0, false, PNone, false, false)

  /** One byte; WAIT is recognised before all others. */
  function ReadByte(i: Info, c: int): Info {
    var j := i.(any := true);
    match c
    case 0x9b => if i.any then j else j.(wait := true)
    case 0xf2 => j.(rep := 0xf2)
    case 0xf3 => j.(rep := 0xf3)
    case 0xf0 => j.(lock := true)
    case 0x26 => j.(seg := REs)
    case 0x2e => j.(seg := RCs)
    case 0x36 => j.(seg := RSs)
    case 0x3e => j.(seg := RDs)
    case 0x64 => j.(seg := RFs)
    case 0x65 => j.(seg := RGs)
    case 0x66 => j.(osp := true)
    case 0x67 => j.(asp := true)
    case _ => j
  }

  function ReadParts(i: Info, parts: seq<Part>): Info {
    if parts == [] then i
    else
      var j := ReadParts(i, parts[..|parts| - 1]);
      match parts[|parts| - 1]
      case Legacy(c) => ReadByte(j, c)
      case _ => j
  }

  lemma {:induction false} ReadAppend(i: Info, a: seq<Part>, b: seq<Part>)
    ensures ReadParts(i, a + b) == ReadParts(ReadParts(i, a), b)
    decreases |b|
  {
    if b == [] {
      assert a + b == a;
    } else {
      var n := |b| - 1;
      ReadAppend(i, a, b[..n]);
      assert (a + b)[..|a + b| - 1] == a + b[..n];
    }
  }

  // ---- What each slot comes to ----

  /** The repeat byte: the programmer's prefix, or else the one that the instruction needs;
      none beside VEX and EVEX. */
  function RepOf(p: Pfx, need: int, vexed: bool): int {
    if vexed then 0
    else if IsRepne(p) then 0xf2
    else if IsRepe(p) then 0xf3
    else if p.PNone? && need > 0 then need
    else 0
  }

  /** The operand size prefix: OSP always writes it; the other prefixes give way to what the
      instruction needs, and O16 and O32 write it where they are not the default. */
  predicate OspOf(p: Pfx, need: int, bits: int, vexed: bool) {
    && (vexed ==> p.PO64? && need == 0x66)
    && (p.POsp? || need == 0x66 || (need == 0 && ((p.PO16? && bits != 16) || (p.PO32? && bits == 16))))
  }

  predicate AspOf(p: Pfx, need: int, bits: int) {
    p.PAsp? || need == 0x67 || (need == 0 && ((p.PA16? && bits == 32) || (p.PA32? && bits != 32)))
  }

  /** The segment register; the branch hints are segment prefixes. */
  function SegOf(p: Pfx): Pfx {
    if p.PPn? then RCs else if p.PPt? then RDs else p
  }

  predicate IsSlots(p: seq<Pfx>, need: seq<int>) {
    Typed(p) && NeedTyped(need)
  }

  /** One slot: its byte, if it has one, is read. */
  function ReadSlot(i: Info, p: Pfx, need: int, bits: int, vexed: bool): Info {
    var c := SlotByte(p, need, bits, vexed);
    if c >= 0 then ReadByte(i, c) else i
  }

  lemma SlotRead(prefixes: seq<Pfx>, need: seq<int>, n: nat, bits: int, vexed: bool)
    requires |prefixes| == |need| && n < |prefixes|
    ensures ReadParts(NO_PREFIX, LegacyParts(prefixes[..n + 1], need[..n + 1], bits, vexed))
            == ReadSlot(ReadParts(NO_PREFIX, LegacyParts(prefixes[..n], need[..n], bits, vexed)), prefixes[n], need[n], bits, vexed)
  {
    var c := SlotByte(prefixes[n], need[n], bits, vexed);
    assert prefixes[..n + 1][..n] == prefixes[..n] && need[..n + 1][..n] == need[..n];
    var before := LegacyParts(prefixes[..n], need[..n], bits, vexed);
    hide SlotByte;
    assert LegacyParts(prefixes[..n + 1], need[..n + 1], bits, vexed) == before + (if c >= 0 then [Legacy(c)] else []);
    hide LegacyParts;
    ReadAppend(NO_PREFIX, before, if c >= 0 then [Legacy(c)] else []);
    ReadOne(ReadParts(NO_PREFIX, before), c);
  }

  lemma ReadOne(i: Info, c: int)
    ensures ReadParts(i, [Legacy(c)]) == ReadByte(i, c)
  {
    assert [Legacy(c)][..0] == [];
  }

  // The slots one by one.

  lemma WaitRead(i: Info, p: Pfx, bits: int, vexed: bool)
    requires (p.PNone? || p.PWait?) && i == NO_PREFIX
    ensures var j := ReadSlot(i, p, 0, bits, vexed); j == i.(any := j.any, wait := p.PWait?)
  {
  }

  lemma SegRead(i: Info, p: Pfx, bits: int, vexed: bool)
    requires IsSegPrefix(p) && i.seg.PNone?
    ensures var j := ReadSlot(i, p, 0, bits, vexed); j == i.(any := j.any, seg := SegOf(p))
  {
  }

  lemma AsizeRead(i: Info, p: Pfx, need: int, bits: int, vexed: bool)
    requires IsAsizePrefix(p) && (need == 0 || need == PFE_NULL || need == 0x67) && !i.asp
    ensures var j := ReadSlot(i, p, need, bits, vexed); j == i.(any := j.any, asp := AspOf(p, need, bits))
  {
  }

  lemma LockRead(i: Info, p: Pfx, bits: int, vexed: bool)
    requires (p.PNone? || p.PLock?) && !i.lock
    ensures var j := ReadSlot(i, p, 0, bits, vexed); j == i.(any := j.any, lock := p.PLock?)
  {
  }

  lemma OsizeRead(i: Info, p: Pfx, need: int, bits: int, vexed: bool)
    requires IsOsizePrefix(p) && (need == 0 || need == PFE_NULL || need == 0x66) && !i.osp
    ensures var j := ReadSlot(i, p, need, bits, vexed); j == i.(any := j.any, osp := OspOf(p, need, bits, vexed))
  {
  }

  lemma RepRead(i: Info, p: Pfx, need: int, bits: int, vexed: bool)
    requires p.PNone? || p.PNobnd? || IsRepne(p) || IsRepe(p)
    requires (need == 0 || need == PFE_NULL || need == 0xf2 || need == 0xf3) && i.rep == 0
    ensures var j := ReadSlot(i, p, need, bits, vexed); j == i.(any := j.any, rep := RepOf(p, need, vexed))
  {
  }

  lemma SilentRead(i: Info, p: Pfx, bits: int, vexed: bool)
    requires IsEncodingPrefix(p) || p.PNf? || p.PZu?
    ensures ReadSlot(i, p, 0, bits, vexed) == i
  {
  }

  /** All slots in a row: the reader finds what each of them comes to. */
  lemma SlotsRead(p: seq<Pfx>, need: seq<int>, bits: int, vexed: bool)
    requires IsSlots(p, need)
    ensures var i := ReadParts(NO_PREFIX, LegacyParts(p, need, bits, vexed));
      i == Info(i.any, p[WAIT].PWait?, RepOf(p[REP], need[REP], vexed), p[LOCK].PLock?, SegOf(p[SEG]),
                OspOf(p[OSIZE], need[OSIZE], bits, vexed), AspOf(p[ASIZE], need[ASIZE], bits))
  {
    hide LegacyParts;
    hide ReadParts;
    hide ReadSlot;
    hide RepOf;
    hide OspOf;
    hide AspOf;
    hide SegOf;
    var i := NO_PREFIX;
    NothingRead(p, need, bits, vexed);
    SlotRead(p, need, 0, bits, vexed);
    WaitRead(i, p[0], bits, vexed);
    i := ReadSlot(i, p[0], need[0], bits, vexed);
    SlotRead(p, need, 1, bits, vexed);
    SegRead(i, p[1], bits, vexed);
    i := ReadSlot(i, p[1], need[1], bits, vexed);
    SlotRead(p, need, 2, bits, vexed);
    AsizeRead(i, p[2], need[2], bits, vexed);
    i := ReadSlot(i, p[2], need[2], bits, vexed);
    SlotRead(p, need, 3, bits, vexed);
    LockRead(i, p[3], bits, vexed);
    i := ReadSlot(i, p[3], need[3], bits, vexed);
    SlotRead(p, need, 4, bits, vexed);
    OsizeRead(i, p[4], need[4], bits, vexed);
    i := ReadSlot(i, p[4], need[4], bits, vexed);
    SlotRead(p, need, 5, bits, vexed);
    RepRead(i, p[5], need[5], bits, vexed);
    i := ReadSlot(i, p[5], need[5], bits, vexed);
    SlotRead(p, need, 6, bits, vexed);
    SilentRead(i, p[6], bits, vexed);
    SlotRead(p, need, 7, bits, vexed);
    SilentRead(i, p[7], bits, vexed);
    SlotRead(p, need, 8, bits, vexed);
    SilentRead(i, p[8], bits, vexed);
    assert p[..9] == p && need[..9] == need;
  }

  lemma NothingRead(p: seq<Pfx>, need: seq<int>, bits: int, vexed: bool)
    requires |p| == |need|
    ensures ReadParts(NO_PREFIX, LegacyParts(p[..0], need[..0], bits, vexed)) == NO_PREFIX
  {
  }

  // ---- The codes and what they come to ----

  /** The codes are those of their bytes. */
  predicate Coded(ops: seq<Op>) {
    forall k | 0 <= k < |ops| :: ops[k].code == Decode(ops[k].c)
  }

  /** The repeat prefix that a byte code stands for: \332 for F2, \333 for F3, and none for
      \331, \360 and \361. */
  function RepCode(c: byte): Option<int> {
    if c == 0xda then Some(0xf2)
    else if c == 0xdb then Some(0xf3)
    else if c == 0xd9 || c == 0xf0 || c == 0xf1 then Some(0)
    else None
  }

  /** Whether a byte code asks for 66 (\361, \366) or forbids it (\360, \364). */
  function OspCode(c: byte): Option<bool> {
    if c == 0xf1 || c == 0xf6 then Some(true)
    else if c == 0xf0 || c == 0xf4 then Some(false)
    else None
  }

  /** Whether a byte code asks for 67 (\367) or forbids it (\365). */
  function AspCode(c: byte): Option<bool> {
    if c == 0xf7 then Some(true) else if c == 0xf5 then Some(false) else None
  }

  lemma DecodedNeeds(c: byte)
    ensures var d := Decode(c);
      && (d.NoRep? <==> c == 0xd9) && (d.F2? <==> c == 0xda) && (d.F3? <==> c == 0xdb) && (d.Np? <==> c == 0xf0)
      && (d.P66? <==> c == 0xf1) && (d.NoOsp? <==> c == 0xf4) && (d.NoAsp? <==> c == 0xf5) && (d.Osp? <==> c == 0xf6)
      && (d.P67? <==> c == 0xf7) && (d.A16? <==> c == 0xc8) && (d.A32? <==> c == 0xc9) && (d.A64? <==> c == 0xcb)
  {
  }

  /** What one code does to the needs of its instruction. */
  lemma NeedStep(op: Op, t: Slots)
    requires op.code == Decode(op.c) && t.Valid()
    ensures |AfterSlots(op, t).need| == SLOTS
    ensures var n := AfterSlots(op, t).need;
      && n[REP] == (match RepCode(op.c) case None => t.need[REP] case Some(b) => if b == 0 then PFE_NULL else b)
      && n[OSIZE] == (match OspCode(op.c) case None => t.need[OSIZE] case Some(b) => if b then 0x66 else PFE_NULL)
      && n[ASIZE] == (match AspCode(op.c) case None => t.need[ASIZE] case Some(b) => if b then 0x67 else PFE_NULL)
  {
    DecodedNeeds(op.c);
    hide Decode;
    hide Typed;
    hide NeedTyped;
    hide AsizeSlot;
    NeedShape(t);
  }

  lemma NeedShape(t: Slots)
    requires t.Valid()
    ensures |t.pfx| == |t.need| == SLOTS
  {
  }

  lemma ValidStep(op: Op, t: Slots)
    requires t.Valid()
    ensures AfterSlots(op, t).Valid()
  {
  }

  lemma {:induction false} SlotsValid(ops: seq<Op>, t: Slots)
    requires t.Valid()
    ensures SlotsAfter(ops, t).Valid()
  {
    if ops != [] {
      SlotsValid(ops[..|ops| - 1], t);
      ValidStep(ops[|ops| - 1], SlotsAfter(ops[..|ops| - 1], t));
    }
  }

  /** Code `k` is the last one for which `f` says something. */
  predicate IsLast<T>(ops: seq<Op>, k: nat, f: byte -> Option<T>) {
    k < |ops| && f(ops[k].c).Some? && forall j | k < j < |ops| :: f(ops[j].c) == None
  }

  predicate IsSilent<T>(ops: seq<Op>, f: byte -> Option<T>) {
    forall j | 0 <= j < |ops| :: f(ops[j].c) == None
  }

  lemma LastStep<T>(ops: seq<Op>, k: nat, f: byte -> Option<T>)
    requires IsLast(ops, k, f)
    ensures ops != [] && k < |ops| && f(ops[k].c).Some?
    ensures var n := |ops| - 1; k < n ==> IsLast(ops[..n], k, f) && ops[..n][k] == ops[k] && f(ops[n].c) == None
  {
  }

  lemma CodedStep(ops: seq<Op>)
    requires Coded(ops) && ops != []
    ensures Coded(ops[..|ops| - 1]) && ops[|ops| - 1].code == Decode(ops[|ops| - 1].c)
  {
  }

  /** The needs at the end are those of the last codes that have a say. */
  lemma {:induction false} RepNeeded(ops: seq<Op>, k: nat, t: Slots)
    requires Coded(ops) && t.Valid() && IsLast(ops, k, RepCode)
    ensures |t.pfx| == |t.need| == SLOTS && k < |ops| && RepCode(ops[k].c).Some?
    ensures SlotsAfter(ops, t).need[REP] == if RepCode(ops[k].c).value == 0 then PFE_NULL else RepCode(ops[k].c).value
  {
    hide IsLast;
    hide Coded;
    hide Typed;
    hide NeedTyped;
    hide Decode;
    hide RepCode;
    hide AfterSlots;
    NeedShape(t);
    LastStep(ops, k, RepCode);
    CodedStep(ops);
    var n := |ops| - 1;
    SlotsValid(ops[..n], t);
    NeedStep(ops[n], SlotsAfter(ops[..n], t));
    if k < n {
      RepNeeded(ops[..n], k, t);
    }
  }

  lemma {:induction false} OspNeeded(ops: seq<Op>, k: nat, t: Slots)
    requires Coded(ops) && t.Valid() && IsLast(ops, k, OspCode)
    ensures |t.pfx| == |t.need| == SLOTS && k < |ops| && OspCode(ops[k].c).Some?
    ensures SlotsAfter(ops, t).need[OSIZE] == if OspCode(ops[k].c).value then 0x66 else PFE_NULL
  {
    hide IsLast;
    hide Coded;
    hide Typed;
    hide NeedTyped;
    hide Decode;
    hide OspCode;
    hide AfterSlots;
    NeedShape(t);
    LastStep(ops, k, OspCode);
    CodedStep(ops);
    var n := |ops| - 1;
    SlotsValid(ops[..n], t);
    NeedStep(ops[n], SlotsAfter(ops[..n], t));
    if k < n {
      OspNeeded(ops[..n], k, t);
    }
  }

  lemma {:induction false} NothingNeeded(ops: seq<Op>, t: Slots)
    requires Coded(ops) && t.Valid()
    ensures var n := SlotsAfter(ops, t).need;
      && (IsSilent(ops, RepCode) ==> n[REP] == t.need[REP])
      && (IsSilent(ops, OspCode) ==> n[OSIZE] == t.need[OSIZE])
      && (IsSilent(ops, AspCode) ==> n[ASIZE] == t.need[ASIZE])
  {
    if ops != [] {
      var n := |ops| - 1;
      SlotsValid(ops[..n], t);
      NeedStep(ops[n], SlotsAfter(ops[..n], t));
      hide AfterSlots;
      NothingNeeded(ops[..n], t);
    }
  }

  // ---- Address sizes ----

  /** The address size that a reader finds for a prefix. */
  function AsizeOf(p: Pfx, bits: int): int {
    NO_PREFIX.(asp := AspOf(p, 0, bits)).Asize(bits)
  }

  /** The prefix of an address size code tells the reader of that size. */
  lemma AsizeStep(code: Code, p: Pfx, bits: int, s: Sizing)
    requires (code.A16? || code.A32? || code.A64?) && AsizeSettled(code, p, bits) && (bits == 16 || bits == 32 || bits == 64)
    ensures AsizeOf(AsizeSlot(code, p), bits) == AfterAsize(code, s).asize
  {
  }

  lemma OtherAsize(op: Op, s: Sizing, set_: Setting, t: Slots)
    requires !SetsAsize(op) && t.Valid()
    ensures AfterCode(op, s, set_).asize == s.asize && AfterSlots(op, t).pfx[ASIZE] == t.pfx[ASIZE]
  {
    OtherAsizeSlot(op.code, t);
    hide AfterNeed;
    hide Typed;
    hide NeedTyped;
  }

  lemma OtherAsizeSlot(code: Code, t: Slots)
    requires |t.pfx| == |t.need| == SLOTS
    ensures |AfterNeed(code, t).pfx| == SLOTS && AfterNeed(code, t).pfx[ASIZE] == t.pfx[ASIZE]
  {
  }

  /** So the reader finds the address size that was used, if it did so before the codes. */
  lemma {:induction false} AsizesTold(ops: seq<Op>, set_: Setting, s: Sizing, t: Slots)
    requires t.Valid() && AsizesSettled(ops, t, set_.bits) && (set_.bits == 16 || set_.bits == 32 || set_.bits == 64)
    requires AsizeOf(t.pfx[ASIZE], set_.bits) == s.asize
    ensures AsizeOf(SlotsAfter(ops, t).pfx[ASIZE], set_.bits) == SizingAfter(ops, set_, s).asize
  {
    if ops != [] {
      var op, before := ops[|ops| - 1], ops[..|ops| - 1];
      AsizesTold(before, set_, s, t);
      SlotsValid(before, t);
      var u, v := SlotsAfter(before, t), SizingAfter(before, set_, s);
      if SetsAsize(op) {
        AsizeStep(op.code, u.pfx[ASIZE], set_.bits, v);
        AfterAsizeIs(op, v, set_);
      } else {
        OtherAsize(op, v, set_, u);
      }
    }
  }

  // ---- Operand sizes ----

  /** The operand size that a reader finds for a prefix. */
  function OsizeOf(p: Pfx, bits: int): int {
    NO_PREFIX.(osp := OspOf(p, 0, bits, false)).Osize(bits)
  }

  function DefaultSize(bits: int): int {
    if bits == 16 then 16 else 32
  }

  function OtherSize(bits: int): int {
    if bits == 16 then 32 else 16
  }

  /** The size that the programmer's prefix asks for. */
  function NamedSize(p: Pfx, bits: int): int {
    match p
    case POsp => OtherSize(bits)
    case PO16 => 16
    case PO32 => 32
    case PO64 => 64
    case _ => DefaultSize(bits)
  }

  /** The size that a byte code asks for: \320, \321 and \324 their own, \330 that of the
      prefix, and \342 that of the mode. */
  function SizeCode(c: byte, p: Pfx, bits: int): Option<int> {
    if c == 0xd0 then Some(16)
    else if c == 0xd1 then Some(32)
    else if c == 0xd3 || c == 0xd4 then Some(64)
    else if c == 0xd8 then Some(NamedSize(p, bits))
    else if c == 0xe2 then Some(bits)
    else None
  }

  /** Codes that have to do with operand sizes: these, \327, and \336 and \337, which make
      prefixes needless. */
  predicate IsSizeByte(c: byte) {
    0xd0 <= c <= 0xd1 || 0xd3 <= c <= 0xd4 || c == 0xd7 || c == 0xd8 || 0xde <= c <= 0xdf || c == 0xe2
  }

  lemma DecodedSizes(c: byte)
    ensures var d := Decode(c);
      && (d.O16? <==> c == 0xd0) && (d.O32? <==> c == 0xd1) && (d.O64nw? <==> c == 0xd3) && (d.O64? <==> c == 0xd4)
      && (d.Nw? <==> c == 0xd7) && (d.Osz? <==> c == 0xd8) && (d.OptW? <==> c == 0xde) && (d.OptD? <==> c == 0xdf)
      && (d.Osm? <==> c == 0xe2)
  {
  }

  predicate IsMode(bits: int) {
    bits == 16 || bits == 32 || bits == 64
  }

  /** What the sizes are about. */
  predicate SameSizes(s: Sizing, u: Sizing) {
    s.osize == u.osize && s.opfx == u.opfx && s.opts == u.opts && (NoW in s.marks <==> NoW in u.marks)
  }

  lemma QuietStep(op: Op, s: Sizing, set_: Setting)
    requires op.code == Decode(op.c) && !IsSizeByte(op.c)
    ensures SameSizes(AfterCode(op, s, set_), s)
  {
    DecodedSizes(op.c);
    hide Decode;
  }

  lemma {:induction false} Quiet(ops: seq<Op>, set_: Setting, s: Sizing)
    requires Coded(ops) && forall j | 0 <= j < |ops| :: !IsSizeByte(ops[j].c)
    ensures SameSizes(SizingAfter(ops, set_, s), s)
  {
    if ops != [] {
      CodedStep(ops);
      Quiet(ops[..|ops| - 1], set_, s);
      QuietStep(ops[|ops| - 1], SizingAfter(ops[..|ops| - 1], set_, s), set_);
    }
  }

  /** The prefix that is there at the end, if there was none, tells of the size. */
  function SizePfx(size: int, p: Pfx): Pfx {
    if !p.PNone? then p else if size == 16 then PO16 else if size == 32 then PO32 else PO64
  }

  lemma SizeStep(op: Op, s: Sizing, set_: Setting)
    requires op.code == Decode(op.c) && IsMode(set_.bits) && IsOsizePrefix(s.opfx) && s.opts == NoOpt
    requires s.osize == DefaultSize(set_.bits) && SizeCode(op.c, s.opfx, set_.bits).Some?
    ensures var u, size := AfterCode(op, s, set_), SizeCode(op.c, s.opfx, set_.bits).value;
      u.osize == size && u.opfx == SizePfx(size, s.opfx) && (NoW in u.marks <==> NoW in s.marks || op.c == 0xd3)
  {
    DecodedSizes(op.c);
    hide Decode;
  }

  /** An instruction with one code for its operand size, and none that makes prefixes needless:
      it has the size that the code asks for, and the prefix that tells of it, unless the
      programmer has given one. */
  lemma {:induction false} SizeSettled(ops: seq<Op>, k: nat, set_: Setting, s: Sizing)
    requires Coded(ops) && IsMode(set_.bits) && IsOsizePrefix(s.opfx) && s.opts == NoOpt && s.osize == DefaultSize(set_.bits)
    requires k < |ops| && SizeCode(ops[k].c, s.opfx, set_.bits).Some?
    requires forall j | 0 <= j < |ops| && j != k :: !IsSizeByte(ops[j].c)
    ensures var u, size := SizingAfter(ops, set_, s), SizeCode(ops[k].c, s.opfx, set_.bits).value;
      u.osize == size && u.opfx == SizePfx(size, s.opfx) && (NoW in u.marks <==> NoW in s.marks || ops[k].c == 0xd3)
  {
    hide AfterCode;
    hide Decode;
    hide SizeCode;
    var n := |ops| - 1;
    CodedStep(ops);
    if k < n {
      assert forall j | 0 <= j < n :: ops[..n][j] == ops[j];
      SizeSettled(ops[..n], k, set_, s);
      QuietStep(ops[n], SizingAfter(ops[..n], set_, s), set_);
    } else {
      Quiet(ops[..n], set_, s);
      SizeStep(ops[n], SizingAfter(ops[..n], set_, s), set_);
    }
  }

  /** The reader finds a size of 16 or 32 bits exactly if the programmer's prefix, if there is
      one, stands for it too. */
  lemma SizeToldIff(size: int, p: Pfx, bits: int)
    requires IsMode(bits) && IsOsizePrefix(p) && (size == 16 || size == 32)
    ensures OsizeOf(SizePfx(size, p), bits) == size
            <==> p.PNone? || NamedSize(p, bits) == size || (p.PO64? && size == DefaultSize(bits))
  {
  }

  // ---- A whole instruction ----

  /** The slots of an instruction at the end: after all codes, and settled. */
  function FinalSlots(ops: seq<Op>, t: Slots, opfx: Pfx, bnd: bool, hint: bool): Slots
    requires |t.pfx| == |t.need| == SLOTS
  {
    var u := SlotsAfter(ops, t);
    Slots(SettledSlots(u.pfx[OSIZE := opfx], bnd, hint), u.need)
  }

  /** What the reader finds of the repeat prefix: the programmer's, if there is one, and
      otherwise the one that the last code with a say asks for. */
  ghost predicate RepTold(ops: seq<Op>, p: Pfx, i: Info) {
    && (IsRepne(p) ==> i.rep == 0xf2) && (IsRepe(p) ==> i.rep == 0xf3)
    && (p.PNone? ==> forall k: nat | IsLast(ops, k, RepCode) :: i.rep == RepCode(ops[k].c).value)
  }

  /** Of the operand size prefix, if codes have a say. */
  ghost predicate OspTold(ops: seq<Op>, p: Pfx, i: Info) {
    && (p.POsp? ==> i.osp)
    && (!p.POsp? ==> forall k: nat | IsLast(ops, k, OspCode) :: i.osp == OspCode(ops[k].c).value)
  }

  /** Code `k` alone has to do with the operand size, and it asks for one. */
  predicate IsSizing(ops: seq<Op>, k: nat, p: Pfx, bits: int) {
    && k < |ops| && SizeCode(ops[k].c, p, bits).Some? && IsSilent(ops, OspCode)
    && forall j | 0 <= j < |ops| && j != k :: !IsSizeByte(ops[j].c)
  }

  /** Whether a prefix lets a size be told. */
  predicate Lets(p: Pfx, size: int, bits: int) {
    p.PNone? || NamedSize(p, bits) == size || (p.PO64? && size == DefaultSize(bits))
  }

  /** Of the operand size: the one that the code asks for, unless the programmer's prefix
      stands for another. */
  ghost predicate OsizeTold(ops: seq<Op>, p: Pfx, bits: int, osize: int, i: Info) {
    forall k: nat | IsSizing(ops, k, p, bits) ::
      var size := SizeCode(ops[k].c, p, bits).value;
      osize == size && (size != 64 ==> (i.Osize(bits) == size <==> Lets(p, size, bits)))
  }

  lemma FinalValid(ops: seq<Op>, t: Slots, opfx: Pfx, bnd: bool, hint: bool)
    requires t.Valid() && IsOsizePrefix(opfx)
    ensures |t.pfx| == |t.need| == SLOTS
    ensures var f := FinalSlots(ops, t, opfx, bnd, hint); var u := SlotsAfter(ops, t);
      && IsSlots(f.pfx, f.need) && f.need == u.need && f.pfx[OSIZE] == opfx && f.pfx[ASIZE] == u.pfx[ASIZE]
  {
    SlotsValid(ops, t);
    hide SlotsAfter;
    var u := SlotsAfter(ops, t);
    WithOsize(u.pfx, opfx);
    SettledTyped(u.pfx[OSIZE := opfx], bnd, hint);
    hide Typed;
    hide SettledSlots;
  }

  lemma WithOsize(p: seq<Pfx>, opfx: Pfx)
    requires Typed(p) && IsOsizePrefix(opfx)
    ensures Typed(p[OSIZE := opfx])
  {
  }

  lemma SettledTyped(p: seq<Pfx>, bnd: bool, hint: bool)
    requires Typed(p)
    ensures var q := SettledSlots(p, bnd, hint); Typed(q) && q[OSIZE] == p[OSIZE] && q[ASIZE] == p[ASIZE]
  {
  }

  lemma RepIsTold(ops: seq<Op>, t: Slots, p: Pfx, i: Info)
    requires Coded(ops) && t.Valid() && |t.pfx| == |t.need| == SLOTS && i.rep == RepOf(p, SlotsAfter(ops, t).need[REP], false)
    ensures RepTold(ops, p, i)
  {
    hide SlotsAfter;
    hide AfterSlots;
    hide Typed;
    hide NeedTyped;
    hide Decode;
    hide Coded;
    forall k: nat | p.PNone? && IsLast(ops, k, RepCode) ensures i.rep == RepCode(ops[k].c).value {
      RepNeeded(ops, k, t);
    }
  }

  lemma OspIsTold(ops: seq<Op>, t: Slots, p: Pfx, bits: int, i: Info)
    requires Coded(ops) && t.Valid() && |t.pfx| == |t.need| == SLOTS
    requires i.osp == OspOf(p, SlotsAfter(ops, t).need[OSIZE], bits, false)
    ensures OspTold(ops, p, i)
  {
    hide SlotsAfter;
    hide AfterSlots;
    hide Typed;
    hide NeedTyped;
    hide Decode;
    hide Coded;
    forall k: nat | !p.POsp? && IsLast(ops, k, OspCode) ensures i.osp == OspCode(ops[k].c).value {
      OspNeeded(ops, k, t);
    }
  }

  lemma OsizeIsTold(ops: seq<Op>, t: Slots, set_: Setting, s: Sizing, i: Info)
    requires Coded(ops) && t.Valid() && |t.pfx| == |t.need| == SLOTS && t.need[OSIZE] == 0
    requires IsMode(set_.bits) && IsOsizePrefix(s.opfx) && s.opts == NoOpt && s.osize == DefaultSize(set_.bits)
    requires i.osp == OspOf(SizingAfter(ops, set_, s).opfx, SlotsAfter(ops, t).need[OSIZE], set_.bits, false)
    ensures OsizeTold(ops, s.opfx, set_.bits, SizingAfter(ops, set_, s).osize, i)
  {
    hide SlotsAfter;
    hide AfterSlots;
    hide SizingAfter;
    hide AfterCode;
    hide Typed;
    hide NeedTyped;
    hide Decode;
    hide Coded;
    hide IsSilent;
    forall k: nat | IsSizing(ops, k, s.opfx, set_.bits)
      ensures var size := SizeCode(ops[k].c, s.opfx, set_.bits).value;
        && SizingAfter(ops, set_, s).osize == size
        && (size != 64 ==> (i.Osize(set_.bits) == size <==> Lets(s.opfx, size, set_.bits)))
    {
      SizeSettled(ops, k, set_, s);
      NothingNeeded(ops, t);
      var size := SizeCode(ops[k].c, s.opfx, set_.bits).value;
      SizeRange(ops[k].c, s.opfx, set_.bits);
      if size != 64 {
        SizeToldIff(size, s.opfx, set_.bits);
      }
    }
  }

  lemma SizeRange(c: byte, p: Pfx, bits: int)
    requires IsMode(bits) && IsOsizePrefix(p) && SizeCode(c, p, bits).Some?
    ensures var size := SizeCode(c, p, bits).value; size == 16 || size == 32 || size == 64
  {
  }

  // ---- Opcode maps and the sizes of codes ----

  /** The opcode map that the bytes begin with, and how many bytes say so. */
  function ReadMap(bytes: seq<byte>): (int, int) {
    if bytes == [] || bytes[0] != 0x0f then (0, 0)
    else if |bytes| > 1 && bytes[1] == 0x38 then (2, 2)
    else if |bytes| > 1 && bytes[1] == 0x3a then (3, 2)
    else (1, 1)
  }

  function OpcodeBytes(parts: seq<Part>): seq<byte> {
    if parts == [] then []
    else (if parts[0].Opcode? then parts[0].bytes else []) + OpcodeBytes(parts[1..])
  }

  /** The legacy map is read back, unless the opcode itself is mistaken for one. */
  lemma MapRead(map_: nat, opcode: seq<byte>)
    requires map_ < 4 && opcode != []
    requires (map_ == 0 ==> opcode[0] != 0x0f) && (map_ == 1 ==> opcode[0] != 0x38 && opcode[0] != 0x3a)
    ensures var bytes := OpcodeBytes(MapParts(map_)); ReadMap(bytes + opcode) == (map_, |bytes|)
  {
    var parts := MapParts(map_);
    if map_ > 0 {
      assert parts[1..] == [];
      assert OpcodeBytes(parts) == parts[0].bytes + [];
    }
  }

  /** The last of the codes \355 to \357 says which map it is, 1 to 3. */
  function MapCode(c: byte): Option<nat> {
    if 0xed <= c <= 0xef then Some(c - 0xec) else None
  }

  lemma MapStepped(op: Op, s: Sizing, set_: Setting)
    requires op.code == Decode(op.c) && !IsVex(op)
    ensures AfterCode(op, s, set_).map_ == match MapCode(op.c) case None => s.map_ case Some(m) => m
  {
    MapDecoded(op.c);
    hide Decode;
  }

  lemma MapDecoded(c: byte)
    ensures Decode(c).Map? <==> 0xed <= c <= 0xef
  {
  }

  lemma {:induction false} MapTold(ops: seq<Op>, k: nat, set_: Setting, s: Sizing)
    requires Coded(ops) && IsLast(ops, k, MapCode) && !HasVex(ops) && !HasEvex(ops)
    ensures k < |ops| && MapCode(ops[k].c).Some? && SizingAfter(ops, set_, s).map_ == MapCode(ops[k].c).value
  {
    var n := |ops| - 1;
    LastStep(ops, k, MapCode);
    CodedStep(ops);
    HasLast(ops);
    MapStepped(ops[n], SizingAfter(ops[..n], set_, s), set_);
    hide AfterCode;
    hide Coded;
    hide IsLast;
    hide MapCode;
    hide HasVex;
    hide HasEvex;
    if k < n {
      MapTold(ops[..n], k, set_, s);
    }
  }
}
