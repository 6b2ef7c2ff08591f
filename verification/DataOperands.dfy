/** The operands of db and its like: how they are parsed into lists, how long those are,
    and what they put out. */
module DataOperands {
  import opened Basics

  type size = x: nat | x > 0 witness 1

  /** What an operand puts out: a byte of text, one of the bytes of a number or address,
      or reserved space. */
  datatype Cell = Byte(b: byte) | NumberByte(id: nat, elem: size, index: nat) | Reserved

  // ---- Operands as they are written ----

  datatype Body = NumberBody(id: nat) | TextBody(text: seq<byte>) | ReserveBody | BadBody | ListBody(items: seq<Item>)

  /** An operand with its repeat count, all counts multiplied, and its element size, if it
      has its own. */
  datatype Item = Item(dup: nat, own: Option<size>, body: Body)

  function ElemOf(i: Item, elem: size): size {
    if i.own.Some? then i.own.value else elem
  }

  function Repeat<T>(n: nat, s: seq<T>): (r: seq<T>)
    ensures |r| == n * |s|
  {
    if n == 0 then [] else s + Repeat(n - 1, s)
  }

  function Padding(len: nat, align: size): (n: nat)
    ensures (len + n) % align == 0 && n < align
  {
    var partial := len % align;
    PaddingFits(len, align);
    if partial > 0 then align - partial else 0
  }

  lemma PaddingFits(len: nat, align: size)
    ensures len % align > 0 ==> (len + (align - len % align)) % align == 0
  {
    var q := len / align;
    assert len == align * q + len % align;
    if len % align > 0 {
      assert len + (align - len % align) == (q + 1) * align;
      MultipleModZero(q + 1, align);
    }
  }

  function TextCells(s: seq<byte>, elem: size): (r: seq<Cell>)
    ensures |r| == |s| + Padding(|s|, elem)
  {
    seq(|s|, k requires 0 <= k < |s| => Byte(s[k])) + seq(Padding(|s|, elem), _ => Byte(0))
  }

  /** Numbers of more than eight bytes are an error, and nothing is put out for them. */
  function NumberCells(id: nat, elem: size): (r: seq<Cell>)
    ensures |r| == if elem > 8 then 0 else elem
  {
    if elem > 8 then [] else seq(elem, k requires 0 <= k < elem => NumberByte(id, elem, k))
  }

  function ReservedCells(n: nat): (r: seq<Cell>)
    ensures |r| == n
  {
    seq(n, _ => Reserved)
  }

  /** What operands mean. */
  function Meaning(items: seq<Item>, elem: size): seq<Cell> {
    if items == [] then [] else ItemMeaning(items[0], elem) + Meaning(items[1..], elem)
  }

  function ItemMeaning(i: Item, elem: size): seq<Cell> {
    var e := ElemOf(i, elem);
    Repeat(i.dup,
      match i.body
      case NumberBody(id) => NumberCells(id, e)
      case TextBody(s) => TextCells(s, e)
      case ReserveBody => ReservedCells(e)
      case BadBody => []
      case ListBody(items) => Meaning(items, e))
  }

  // ---- Lists of operands ----

  datatype Kind = Number(id: nat) | Text(text: seq<byte>) | Reserve | Nothing | Sub(list: seq<Extop>)

  datatype Extop = Extop(kind: Kind, dup: nat, elem: size)

  /** What a list puts out. */
  function Cells(list: seq<Extop>): seq<Cell>
    decreases list, 2
  {
    if list == [] then [] else OpCells(list[0]) + Cells(list[1..])
  }

  function OnceCells(e: Extop): seq<Cell>
    decreases e, 0
  {
    match e.kind
    case Number(id) => NumberCells(id, e.elem)
    case Text(s) => TextCells(s, e.elem)
    case Reserve => ReservedCells(e.elem)
    case Nothing => []
    case Sub(list) => Cells(list)
  }

  function OpCells(e: Extop): seq<Cell>
    decreases e, 1
  {
    Repeat(e.dup, OnceCells(e))
  }

  // ---- The length of a list ----

  function Length(list: seq<Extop>): nat {
    if list == [] then 0 else OpLength(list[0]) + Length(list[1..])
  }

  function OpLength(e: Extop): nat {
    match e.kind
    case Number(_) => e.dup * e.elem
    case Text(s) => e.dup * (|s| + Padding(|s|, e.elem))
    case Reserve => e.dup * e.elem
    case Nothing => 0
    case Sub(list) => e.dup * Length(list)
  }

  lemma LengthSplit(list: seq<Extop>, k: nat)
    requires k < |list|
    ensures Length(list[k..]) == OpLength(list[k]) + Length(list[k + 1..])
  {
    assert list[k..][1..] == list[k + 1..];
  }

  /** len_extops. */
  method LenExtops(list: seq<Extop>) returns (isize: nat)
    ensures isize == Length(list)
    decreases list
  {
    isize := 0;
    var k := 0;
    assert list[0..] == list;
    while k < |list|
      invariant k <= |list| && isize + Length(list[k..]) == Length(list)
    {
      LengthSplit(list, k);
      var n := LenOne(list[k]);
      isize := isize + n;
      k := k + 1;
    }
  }

  method LenOne(e: Extop) returns (n: nat)
    ensures n == OpLength(e)
    decreases e
  {
    match e.kind
    case Nothing => n := 0;
    case Sub(list) =>
      n := LenExtops(list);
      n := e.dup * n;
    case Text(s) => n := e.dup * (|s| + Padding(|s|, e.elem));
    case _ => n := e.dup * e.elem;
  }

  // ---- Output ----

  class Output {
    var cells: seq<Cell>

    constructor ()
      ensures cells == []
    {
      cells := [];
    }

    /** out_eops. */
    method OutEops(list: seq<Extop>)
      modifies this
      ensures cells == old(cells) + Cells(list)
      decreases list, 1
    {
      var k := 0;
      assert list[0..] == list;
      while k < |list|
        invariant k <= |list| && cells + Cells(list[k..]) == old(cells) + Cells(list)
      {
        var e := list[k];
        CellsSplit(list, k);
        Associate(cells, OpCells(e), Cells(list[k + 1..]));
        if e.kind.Reserve? {
          RepeatReserved(e.dup, e.elem);
          cells := cells + ReservedCells(e.dup * e.elem);
        } else {
          OutRepeated(e);
        }
        k := k + 1;
      }
      assert list[k..] == [];
    }

    /** One operand, as often as it says. */
    method OutRepeated(e: Extop)
      modifies this
      ensures cells == old(cells) + OpCells(e)
      decreases e, 0
    {
      var dup := e.dup;
      while dup > 0
        invariant cells + Repeat(dup, OnceCells(e)) == old(cells) + OpCells(e)
      {
        Associate(cells, OnceCells(e), Repeat(dup - 1, OnceCells(e)));
        if e.kind.Sub? {
          OutEops(e.kind.list);
        } else {
          cells := cells + OnceCells(e);
        }
        dup := dup - 1;
      }
    }
  }

  lemma CellsSplit(list: seq<Extop>, k: nat)
    requires k < |list|
    ensures Cells(list[k..]) == OpCells(list[k]) + Cells(list[k + 1..])
  {
    assert list[k..][1..] == list[k + 1..];
  }

  lemma Associate(a: seq<Cell>, b: seq<Cell>, c: seq<Cell>)
    ensures a + (b + c) == (a + b) + c
  {
  }

  lemma {:induction false} RepeatReserved(n: nat, elem: nat)
    ensures Repeat(n, ReservedCells(elem)) == ReservedCells(n * elem)
  {
    if n > 0 {
      RepeatReserved(n - 1, elem);
      assert n * elem == elem + (n - 1) * elem;
    }
  }

  // ---- Sizes agree ----

  /** The bytes that are counted for numbers that are too big. */
  function Oversize(list: seq<Extop>): nat {
    if list == [] then 0 else OpOversize(list[0]) + Oversize(list[1..])
  }

  function OpOversize(e: Extop): nat {
    match e.kind
    case Number(_) => if e.elem > 8 then e.dup * e.elem else 0
    case Sub(list) => e.dup * Oversize(list)
    case _ => 0
  }

  lemma {:induction false} LengthExceeds(list: seq<Extop>)
    ensures Length(list) == |Cells(list)| + Oversize(list)
    decreases list, 1
  {
    if list != [] {
      OpLengthExceeds(list[0]);
      LengthExceeds(list[1..]);
    }
  }

  lemma Distribute(n: nat, a: nat, b: nat, c: nat)
    requires a == b + c
    ensures n * a == n * b + n * c
  {
  }

  lemma {:induction false} OpLengthExceeds(e: Extop)
    ensures OpLength(e) == |OpCells(e)| + OpOversize(e)
    decreases e, 0
  {
    if e.kind.Sub? {
      LengthExceeds(e.kind.list);
      Distribute(e.dup, Length(e.kind.list), |Cells(e.kind.list)|, Oversize(e.kind.list));
      hide Length;
      hide Cells;
      hide Oversize;
    }
  }

  /** No operand is there in vain, as in all lists that are parsed. */
  predicate Trim(list: seq<Extop>) {
    forall k | 0 <= k < |list| :: TrimOp(list[k])
  }

  predicate TrimOp(e: Extop) {
    e.dup > 0 && !e.kind.Nothing? && (e.kind.Sub? ==> Trim(e.kind.list))
  }

  predicate AllSmall(list: seq<Extop>) {
    forall k | 0 <= k < |list| :: SmallOp(list[k])
  }

  predicate SmallOp(e: Extop) {
    (e.kind.Number? ==> e.elem <= 8) && (e.kind.Sub? ==> AllSmall(e.kind.list))
  }

  lemma {:induction false} NoOversizeIff(list: seq<Extop>)
    requires Trim(list)
    ensures Oversize(list) == 0 <==> AllSmall(list)
    decreases list
  {
    if list != [] {
      var e, rest := list[0], list[1..];
      assert list == [e] + rest;
      NoOversizeIff(rest);
      OpOversizeIff(e);
      assert AllSmall(list) <==> SmallOp(e) && AllSmall(rest);
    }
  }

  lemma {:induction false} OpOversizeIff(e: Extop)
    requires TrimOp(e)
    ensures OpOversize(e) == 0 <==> SmallOp(e)
    decreases e
  {
    if e.kind.Sub? {
      NoOversizeIff(e.kind.list);
      PositiveProduct(e.dup, Oversize(e.kind.list));
    } else {
      PositiveProduct(e.dup, e.elem);
    }
  }

  lemma PositiveProduct(a: nat, b: nat)
    requires a > 0
    ensures a * b == 0 <==> b == 0
  {
    if b > 0 {
      MulMonotone(b, 1, a);
    }
  }

  /** The length is the number of bytes put out exactly if no number is too big. */
  lemma LengthIff(list: seq<Extop>)
    requires Trim(list)
    ensures Length(list) == |Cells(list)| <==> AllSmall(list)
  {
    LengthExceeds(list);
    NoOversizeIff(list);
  }

  /** A number of ten bytes is counted, and nothing is put out for it. */
  lemma OversizedNumber()
    ensures var list := [Extop(Number(0), 1, 10)];
      Trim(list) && Length(list) == 10 && Cells(list) == []
  {
    var e := Extop(Number(0), 1, 10);
    assert [e][1..] == [] && Repeat(0, OnceCells(e)) == [];
    assert OpCells(e) == OnceCells(e) + Repeat(0, OnceCells(e));
  }

  // ---- Parsing ----

  lemma {:induction false} CellsAppend(a: seq<Extop>, b: seq<Extop>)
    ensures Cells(a + b) == Cells(a) + Cells(b)
  {
    if a == [] {
      assert a + b == b;
    } else {
      CellsAppend(a[1..], b);
      assert (a + b)[1..] == a[1..] + b;
      Associate(OpCells(a[0]), Cells(a[1..]), Cells(b));
    }
  }

  lemma CellsOne(e: Extop)
    ensures Cells([e]) == OpCells(e)
  {
    assert [e][1..] == [] && OpCells(e) + [] == OpCells(e);
  }

  lemma {:induction false} MeaningAppend(a: seq<Item>, b: Item, elem: size)
    ensures Meaning(a + [b], elem) == Meaning(a, elem) + ItemMeaning(b, elem)
  {
    if a == [] {
      assert a + [b] == [b] && [b][1..] == [];
      assert ItemMeaning(b, elem) + [] == ItemMeaning(b, elem);
    } else {
      MeaningAppend(a[1..], b, elem);
      assert (a + [b])[1..] == a[1..] + [b];
      Associate(ItemMeaning(a[0], elem), Meaning(a[1..], elem), ItemMeaning(b, elem));
    }
  }

  lemma {:induction false} RepeatSum<T>(m: nat, n: nat, s: seq<T>)
    ensures Repeat(m + n, s) == Repeat(m, s) + Repeat(n, s)
  {
    if m > 0 {
      RepeatSum(m - 1, n, s);
      assert Repeat(m, s) == s + Repeat(m - 1, s) && Repeat(m + n, s) == s + Repeat(m + n - 1, s);
      hide Repeat;
      Concatenate(s, Repeat(m - 1, s), Repeat(n, s));
    }
  }

  lemma Concatenate<T>(a: seq<T>, b: seq<T>, c: seq<T>)
    ensures a + (b + c) == (a + b) + c
  {
  }

  lemma {:induction false} RepeatProduct<T>(m: nat, n: nat, s: seq<T>)
    ensures Repeat(m * n, s) == Repeat(m, Repeat(n, s))
  {
    if m > 0 {
      RepeatProduct(m - 1, n, s);
      assert m * n == n + (m - 1) * n;
      RepeatSum(n, (m - 1) * n, s);
    }
  }

  lemma {:induction false} RepeatNothing(n: nat)
    ensures Repeat<Cell>(n, []) == []
  {
    if n > 0 {
      RepeatNothing(n - 1);
    }
  }

  /** An operand of a list: a subexpression with one element is that element, repeated. */
  method ParseOne(i: Item, elem: size) returns (e: Extop)
    ensures OpCells(e) == ItemMeaning(i, elem)
    ensures e.dup > 0 && !e.kind.Nothing? ==> TrimOp(e)
    decreases i, 0
  {
    var own := ElemOf(i, elem);
    if i.body.NumberBody? {
      e := Extop(Number(i.body.id), i.dup, own);
    } else if i.body.TextBody? {
      e := Extop(Text(i.body.text), i.dup, own);
    } else if i.body.ReserveBody? {
      e := Extop(Reserve, i.dup, own);
    } else if i.body.BadBody? {
      e := Extop(Nothing, i.dup, own);
    } else {
      var list := ParseEops(i.body.items, own);
      if list == [] {
        e := Extop(Nothing, i.dup, own);
      } else if |list| == 1 {
        e := list[0].(dup := i.dup * list[0].dup);
        CellsOne(list[0]);
        RepeatProduct(i.dup, list[0].dup, OnceCells(list[0]));
        assert list == [list[0]];
      } else {
        e := Extop(Sub(list), i.dup, own);
      }
    }
  }

  /** parse_eops: a list in which empty operands are left out, and reserved space is put
      together. What it puts out is what the operands mean. */
  method ParseEops(items: seq<Item>, elem: size) returns (result: seq<Extop>)
    ensures Cells(result) == Meaning(items, elem) && Trim(result)
    decreases items, 1
  {
    result := [];
    for k := 0 to |items|
      invariant Cells(result) == Meaning(items[..k], elem) && Trim(result)
    {
      assert items[..k + 1] == items[..k] + [items[k]];
      MeaningAppend(items[..k], items[k], elem);
      var e := ParseOne(items[k], elem);
      result := AddOperand(result, e);
    }
    assert items[..|items|] == items;
  }

  /** Puts an operand at the end of a list. */
  method AddOperand(list: seq<Extop>, e: Extop) returns (r: seq<Extop>)
    requires Trim(list) && (e.dup > 0 && !e.kind.Nothing? ==> TrimOp(e))
    ensures Cells(r) == Cells(list) + OpCells(e) && Trim(r)
  {
    if e.dup == 0 || e.kind.Nothing? {
      RepeatNothing(e.dup);
      return list;
    }
    var n := |list| - 1;
    if n >= 0 && e.kind.Reserve? && list[n].kind.Reserve? && list[n].elem == e.elem {
      var prev := list[n].(dup := list[n].dup + e.dup);
      r := list[n := prev];
      assert list == list[..n] + [list[n]] && r == list[..n] + [prev];
      CellsAppend(list[..n], [list[n]]);
      CellsAppend(list[..n], [prev]);
      CellsOne(list[n]);
      CellsOne(prev);
      RepeatSum(list[n].dup, e.dup, ReservedCells(e.elem));
      Associate(Cells(list[..n]), OpCells(list[n]), OpCells(e));
    } else {
      r := list + [e];
      CellsAppend(list, [e]);
      CellsOne(e);
    }
  }

  // ---- The bytes ----

  /** A text comes first, whole; zeros fill it up to the next multiple of the element size. */
  lemma TextThenZeros(s: seq<byte>, elem: size)
    ensures var r := TextCells(s, elem);
      && |r| % elem == 0 && |s| <= |r| < |s| + elem
      && (forall k | 0 <= k < |s| :: r[k] == Byte(s[k])) && (forall k | |s| <= k < |r| :: r[k] == Byte(0))
  {
  }

  /** The lowest `n` bytes of a number, from the lowest on. */
  function LowBytes(v: nat, n: nat): (s: seq<byte>)
    ensures |s| == n
  {
    if n == 0 then [] else [v % 256] + LowBytes(v / 256, n - 1)
  }

  /** The number in bytes that stand from the lowest on. */
  function LeNumber(s: seq<byte>): nat {
    if s == [] then 0 else s[0] as nat + 256 * LeNumber(s[1..])
  }

  /** A cell with its number filled in; reserved space holds zeros. */
  function CellByte(c: Cell, value: nat -> nat): byte {
    match c
    case Byte(b) => b
    case NumberByte(id, _, index) => LowBytes(value(id), index + 1)[index]
    case Reserved => 0
  }

  function Filled(cells: seq<Cell>, value: nat -> nat): (s: seq<byte>)
    ensures |s| == |cells|
  {
    seq(|cells|, k requires 0 <= k < |cells| => CellByte(cells[k], value))
  }

  lemma {:induction false} LowBytesAt(v: nat, n: nat, k: nat)
    requires k < n
    ensures LowBytes(v, n)[k] == LowBytes(v, k + 1)[k]
  {
    if k > 0 {
      LowBytesAt(v / 256, n - 1, k - 1);
    }
  }

  /** A number of up to eight bytes is put out lowest byte first, and fills its element; one
      that is larger is left out. */
  lemma NumberFilled(id: nat, elem: size, value: nat -> nat)
    ensures Filled(NumberCells(id, elem), value) == if elem > 8 then [] else LowBytes(value(id), elem)
  {
    if elem <= 8 {
      forall k | 0 <= k < elem ensures Filled(NumberCells(id, elem), value)[k] == LowBytes(value(id), elem)[k] {
        LowBytesAt(value(id), elem, k);
      }
    }
  }

  function Bytes256(n: nat): nat {
    if n == 0 then 1 else 256 * Bytes256(n - 1)
  }

  /** A number is what is read from its bytes, up to its size. */
  lemma {:induction false} LowBytesRead(v: nat, n: nat)
    requires v < Bytes256(n)
    ensures LeNumber(LowBytes(v, n)) == v
  {
    if n > 0 {
      LowBytesRead(v / 256, n - 1);
      assert LowBytes(v, n)[1..] == LowBytes(v / 256, n - 1);
    }
  }

  /** An operand with a repeat count puts out the same again and again. */
  lemma {:induction false} RepeatAt<T>(n: nat, s: seq<T>, j: nat, k: nat)
    requires j < n && k < |s|
    ensures 0 <= j * |s| + k < |Repeat(n, s)| && Repeat(n, s)[j * |s| + k] == s[k]
  {
    if j > 0 {
      RepeatAt(n - 1, s, j - 1, k);
      assert (j - 1) * |s| + |s| == j * |s|;
    } else {
      assert Repeat(n, s) == s + Repeat(n - 1, s);
    }
  }
}
