/** Quoted strings: what the escapes mean, the in-place reader, and the search for
    the closing quote. */
module Unquote {
  import opened Basics
  import opened Utf8

  const NUL: byte := 0
  const SQ: byte := 39
  const DQ: byte := 34
  const BQ: byte := 96
  const BS: byte := 92
  const CARET: byte := 94
  const LBRACE: byte := 123
  const RBRACE: byte := 125

  function Ch(c: char): byte
    requires c < 256 as char
  {
    c as int
  }

  // ---- The meaning of a quoted string ----

  /** One emitted character: its bytes, and its code for the check on control characters. */
  datatype Item = Item(bytes: seq<byte>, code: nat)

  function ByteItem(v: nat): Item {
    Item([v % 256], v % 256)
  }

  function UcsItem(v: nat): Item {
    Item(Encode(v % TWO32), v % TWO32)
  }

  /** The value of an alphanumeric digit; 255 for any other character. */
  function NumValue(c: byte): nat {
    if 48 <= c <= 57 then c as int - 48
    else if 97 <= c <= 122 then c as int - 97 + 10
    else if 65 <= c <= 90 then c as int - 65 + 10
    else 255
  }

  /** A numeric escape: its radix, at most how many digits, whether it names a code
      point, and where its digits or the opening brace are to be. */
  datatype Numeric = Numeric(base: nat, maxdig: nat, ucs: bool, start: nat)

  /** The escape after a backslash at `i`, if it is numeric. */
  function NumericEscape(s: seq<byte>, i: nat): Option<Numeric>
    requires i + 1 < |s|
  {
    var c := s[i + 1];
    if c == Ch('u') then Some(Numeric(16, 4, true, i + 2))
    else if c == Ch('U') then Some(Numeric(16, 8, true, i + 2))
    else if c == Ch('x') || c == Ch('X') then Some(Numeric(16, 2, false, i + 2))
    else if c == Ch('d') then Some(Numeric(10, 3, false, i + 2))
    else if c == Ch('o') then Some(Numeric(8, 3, false, i + 2))
    else if 48 <= c <= 55 then Some(Numeric(8, 3, false, i + 1))
    else None
  }

  /** The character that a letter escape stands for; other characters stand for themselves. */
  function Simple(c: byte): byte {
    if c == Ch('a') then 7
    else if c == Ch('b') then 8
    else if c == Ch('e') then 27
    else if c == Ch('f') then 12
    else if c == Ch('n') then 10
    else if c == Ch('r') then 13
    else if c == Ch('t') then 9
    else if c == Ch('v') then 11
    else c
  }

  /** The control character of a \\^ sequence. */
  function Control(c: byte): byte {
    if c == Ch('?') then 127 else c as int % 32 + c as int / 128 * 128
  }

  /** `n` counted `base` times. */
  function Times(n: nat, base: nat): nat {
    if base == 0 then 0 else n + Times(n, base - 1)
  }

  lemma {:induction false} TimesIs(n: nat, base: nat)
    ensures Times(n, base) == n * base
  {
    if base > 0 {
      TimesIs(n, base - 1);
    }
  }

  /** A value with one more digit, as far as 64 bits hold it. */
  function Accumulate(nval: nat, base: nat, v: nat): nat {
    (Times(nval, base) + v) % TWO64
  }

  /** A number that was read, and where its digits end. */
  datatype Number = Number(value: nat, end: nat)

  /** The digits from `j` on, at most `limit` of them, after a value `nval`. */
  function ReadDigits(s: seq<byte>, j: nat, base: nat, limit: nat, nval: nat): (n: Number)
    ensures j <= n.end <= j + limit && (j <= |s| ==> n.end <= |s|)
    ensures forall k | j <= k < n.end :: k < |s| && NumValue(s[k]) < base
    decreases limit
  {
    if limit == 0 || j >= |s| || NumValue(s[j]) >= base then Number(nval, j)
    else ReadDigits(s, j + 1, base, limit - 1, Accumulate(nval, base, NumValue(s[j])))
  }

  /** What an escape yields, and where reading goes on. */
  datatype Escape = Escape(item: Option<Item>, next: nat)

  /** Where the digits are to start, after the brace if there is one. */
  function FirstDigit(s: seq<byte>, num: Numeric): nat
    requires num.start < |s|
  {
    if s[num.start] == LBRACE then num.start + 1 else num.start
  }

  /** How many digits there may be; between braces, any number. */
  function Limit(s: seq<byte>, num: Numeric): nat
    requires num.start < |s|
  {
    if s[num.start] == LBRACE then |s| else num.maxdig
  }

  /** The numeric escape `num` after the backslash at `i`, once its digits are read. An
      invalid one yields nothing, and reading goes on at the character after the backslash. */
  function CloseNumeric(s: seq<byte>, i: nat, num: Numeric, n: Number): Escape
    requires num.start < |s|
  {
    var item := Some(if num.ucs then UcsItem(n.value) else ByteItem(n.value));
    if s[num.start] == LBRACE then
      if n.end < |s| && s[n.end] == RBRACE then Escape(item, n.end + 1) else Escape(None, i + 1)
    else if n.end == num.start then Escape(None, i + 1)
    else Escape(item, n.end)
  }

  function ReadNumeric(s: seq<byte>, i: nat, num: Numeric): Escape
    requires num.start < |s|
  {
    CloseNumeric(s, i, num, ReadDigits(s, FirstDigit(s, num), num.base, Limit(s, num), 0))
  }

  /** The escape whose backslash is at `i`. */
  function ReadEscape(s: seq<byte>, i: nat): Escape
    requires i + 1 < |s| && s[|s| - 1] == NUL
  {
    var c := s[i + 1];
    if NumericEscape(s, i).Some? then ReadNumeric(s, i, NumericEscape(s, i).value)
    else if c == NUL then Escape(Some(ByteItem(BS)), i + 1)
    else if c == CARET then
      if s[i + 2] == NUL then Escape(None, i + 1) else Escape(Some(ByteItem(Control(s[i + 2]))), i + 3)
    else Escape(Some(ByteItem(Simple(c))), i + 2)
  }

  lemma EscapeAdvances(s: seq<byte>, i: nat)
    requires i + 1 < |s| && s[|s| - 1] == NUL
    ensures i < ReadEscape(s, i).next < |s|
    ensures ReadEscape(s, i).item == None ==> ReadEscape(s, i).next == i + 1
  {
    if NumericEscape(s, i).Some? {
      var num := NumericEscape(s, i).value;
      var n := ReadDigits(s, FirstDigit(s, num), num.base, Limit(s, num), 0);
      assert n.end > FirstDigit(s, num) ==> NumValue(s[n.end - 1]) < num.base;
    }
  }

  /** A string in the reader's hands: a NUL ends it at the latest. */
  predicate Terminated(s: seq<byte>) {
    s != [] && s[|s| - 1] == NUL
  }

  /** The characters from `i` on, up to the quote `bq` or the end of the string. */
  function Items(s: seq<byte>, i: nat, bq: byte): seq<Item>
    requires Terminated(s) && i < |s|
    decreases |s| - i
  {
    if s[i] == BS then
      EscapeAdvances(s, i);
      var e := ReadEscape(s, i);
      (if e.item.Some? then [e.item.value] else []) + Items(s, e.next, bq)
    else if s[i] == NUL || s[i] == bq then []
    else [ByteItem(s[i])] + Items(s, i + 1, bq)
  }

  /** Where the string ends: at the closing quote, or at the NUL. */
  function End(s: seq<byte>, i: nat, bq: byte): (e: nat)
    requires Terminated(s) && i < |s|
    ensures i <= e < |s| && (s[e] == NUL || s[e] == bq)
    decreases |s| - i
  {
    if s[i] == BS then
      EscapeAdvances(s, i);
      End(s, ReadEscape(s, i).next, bq)
    else if s[i] == NUL || s[i] == bq then i
    else End(s, i + 1, bq)
  }

  /** Without escapes: up to `bq`, or to the NUL only. */
  function PlainEnd(s: seq<byte>, i: nat, bq: byte): (e: nat)
    requires Terminated(s) && i < |s|
    ensures i <= e < |s| && (s[e] == NUL || s[e] == bq)
    ensures forall k | i <= k < e :: s[k] != NUL && s[k] != bq
    decreases |s| - i
  {
    if s[i] == NUL || s[i] == bq then i else PlainEnd(s, i + 1, bq)
  }

  function Plain(t: seq<byte>): (r: seq<Item>)
    ensures |r| == |t|
  {
    seq(|t|, k requires 0 <= k < |t| => ByteItem(t[k]))
  }

  // ---- Forbidden control characters ----

  function Codes(items: seq<Item>): set<nat> {
    set k | 0 <= k < |items| && items[k].code < 32 :: items[k].code
  }

  /** The bytes of the items before the first forbidden one. */
  function Output(items: seq<Item>, badctl: set<nat>): seq<byte> {
    if items == [] then []
    else
      var front := Output(items[..|items| - 1], badctl);
      if badctl * Codes(items) != {} then front else front + items[|items| - 1].bytes
  }

  function TotalLength(items: seq<Item>): nat {
    if items == [] then 0 else TotalLength(items[..|items| - 1]) + |items[|items| - 1].bytes|
  }

  lemma OutputStep(items: seq<Item>, item: Item, badctl: set<nat>)
    ensures Codes(items + [item]) == Codes(items) + (if item.code < 32 then {item.code} else {})
    ensures Output(items + [item], badctl)
            == if badctl * Codes(items + [item]) != {} then Output(items, badctl) else Output(items, badctl) + item.bytes
  {
    var all := items + [item];
    assert all[..|all| - 1] == items;
    forall c | c in Codes(items) ensures c in Codes(all) {
      var k :| 0 <= k < |items| && items[k].code < 32 && items[k].code == c;
      assert all[k] == items[k];
    }
    if item.code < 32 {
      assert all[|items|].code == item.code;
    }
  }

  // ---- Output never overtakes input ----

  /** The values below which `n` hexadecimal digits stay, for few digits. */
  function HexLimit(n: nat): nat {
    if n == 0 then 1 else if n == 1 then 16 else if n == 2 then 256 else 4096
  }

  lemma {:induction false} FewDigits(s: seq<byte>, j: nat, limit: nat, nval: nat, k: nat)
    requires k <= 3 && nval < HexLimit(k)
    ensures var n := ReadDigits(s, j, 16, limit, nval);
      n.end - j + k <= 3 ==> n.value < HexLimit(n.end - j + k)
    decreases limit
  {
    if limit != 0 && j < |s| && NumValue(s[j]) < 16 && k < 3 {
      TimesIs(nval, 16);
      FewDigits(s, j + 1, limit - 1, Accumulate(nval, 16, NumValue(s[j])), k + 1);
    }
  }

  /** A code point of few digits takes few bytes. */
  lemma UcsFits(v: nat, n: nat)
    requires n <= 3 ==> v < HexLimit(n)
    ensures |UcsItem(v).bytes| <= (if n == 0 then 1 else if n <= 3 then n else 6)
  {
  }

  /** A numeric escape is at least as long as the bytes it stands for. */
  lemma NumericFits(s: seq<byte>, i: nat, num: Numeric)
    requires i + 1 < |s| && NumericEscape(s, i) == Some(num) && num.start < |s|
    requires ReadNumeric(s, i, num).item.Some?
    ensures i + |ReadNumeric(s, i, num).item.value.bytes| <= ReadNumeric(s, i, num).next
  {
    if num.ucs {
      var n := ReadDigits(s, FirstDigit(s, num), num.base, Limit(s, num), 0);
      FewDigits(s, FirstDigit(s, num), Limit(s, num), 0, 0);
      UcsFits(n.value, n.end - FirstDigit(s, num));
    }
  }

  lemma ItemFits(s: seq<byte>, i: nat)
    requires i + 1 < |s| && s[|s| - 1] == NUL && ReadEscape(s, i).item.Some?
    ensures i + |ReadEscape(s, i).item.value.bytes| <= ReadEscape(s, i).next
  {
    if NumericEscape(s, i).Some? {
      NumericFits(s, i, NumericEscape(s, i).value);
    }
  }

  // ---- The reader ----

  datatype State = Start | Backslash | ByteDigits | UcsDigits | Ctrl | Done

  datatype Machine = Machine(p: nat, q: nat, state: State, base: nat, nval: nat, ndig: int, escp: nat,
                             ctlmask: set<nat>)

  /** Emits one character into the buffer, unless a forbidden one has come by. */
  method Emit(str: array<byte>, m: Machine, v: nat, ucs: bool, badctl: set<nat>) returns (m2: Machine)
    requires m.q + |(if ucs then UcsItem(v) else ByteItem(v)).bytes| <= str.Length
    modifies str
    ensures m2 == m.(q := m2.q, ctlmask := m2.ctlmask)
    ensures var item := if ucs then UcsItem(v) else ByteItem(v);
      && m2.ctlmask == m.ctlmask + (if item.code < 32 then {item.code} else {})
      && m2.q == (if badctl * m2.ctlmask != {} then m.q else m.q + |item.bytes|)
      && str[..] == (if badctl * m2.ctlmask != {} then old(str[..]) else Written(old(str[..]), m.q, item.bytes))
  {
    var ec := if ucs then v % TWO32 else v % 256;
    var mask := m.ctlmask + (if ec < 32 then {ec} else {});
    var q := m.q;
    if badctl * mask == {} {
      if ucs {
        q := EmitUtf8(str, q, ec);
      } else {
        str[q] := ec;
        q := q + 1;
      }
    }
    m2 := m.(q := q, ctlmask := mask);
  }

  /** The digits of a numeric escape read so far: reading on from here gives the whole. */
  ghost predicate InDigits(m: Machine, s: seq<byte>, anchor: nat) {
    && anchor + 1 < |s| && NumericEscape(s, anchor).Some?
    && var num := NumericEscape(s, anchor).value;
      && num.start < |s| && m.base == num.base && m.escp + 1 == num.start && (m.state == UcsDigits <==> num.ucs)
      && var first, limit := FirstDigit(s, num), Limit(s, num);
        && first <= m.p < |s| && m.p - first < limit
        && ReadDigits(s, first, num.base, limit, 0) == ReadDigits(s, m.p, num.base, limit - (m.p - first), m.nval)
        && m.ndig == (if s[num.start] == LBRACE then -1 else num.maxdig) - (m.p - first)
  }

  /** What each state says about the text since `anchor`, where the current item starts. */
  ghost predicate AtState(m: Machine, s: seq<byte>, anchor: nat, bq: byte)
    requires anchor < |s|
  {
    match m.state
    case Start => m.p == anchor
    case Done => m.p == anchor + 1 && s[anchor] != BS && (s[anchor] == NUL || s[anchor] == bq)
    case Backslash => s[anchor] == BS && m.p == anchor + 1 < |s|
    case Ctrl => s[anchor] == BS && m.p == anchor + 2 < |s| && s[anchor + 1] == CARET && m.escp == anchor + 1
    case _ => s[anchor] == BS && InDigits(m, s, anchor)
  }

  /** Everything before `anchor` is dealt with, and yielded `done`; the output does not
      reach what may still be read. */
  ghost predicate Progress(q: nat, ctlmask: set<nat>, buf: seq<byte>, s: seq<byte>, bq: byte, badctl: set<nat>,
                           anchor: nat, done: seq<Item>)
  {
    && Terminated(s) && |buf| == |s| && 1 <= anchor < |s| && q < anchor
    && buf[anchor..] == s[anchor..]
    && buf[..q] == Output(done, badctl) && ctlmask == Codes(done)
    && Items(s, 1, bq) == done + Items(s, anchor, bq) && End(s, 1, bq) == End(s, anchor, bq)
  }

  ghost predicate Running(m: Machine, buf: seq<byte>, s: seq<byte>, bq: byte, badctl: set<nat>,
                          anchor: nat, done: seq<Item>)
  {
    Progress(m.q, m.ctlmask, buf, s, bq, badctl, anchor, done) && AtState(m, s, anchor, bq)
  }

  /** Emitting an item whose text ends before `next`; the output stays `slack` behind. */
  method EmitItem(str: array<byte>, m: Machine, v: nat, ucs: bool, badctl: set<nat>, ghost slack: nat,
                  ghost s: seq<byte>, ghost anchor: nat, ghost next: nat, ghost done: seq<Item>) returns (m2: Machine)
    requires |s| == str.Length && anchor <= next <= |s| && m.q + slack <= anchor && str[anchor..] == s[anchor..]
    requires str[..m.q] == Output(done, badctl) && m.ctlmask == Codes(done)
    requires anchor + |(if ucs then UcsItem(v) else ByteItem(v)).bytes| <= next
    modifies str
    ensures m2 == m.(q := m2.q, ctlmask := m2.ctlmask) && m2.q + slack <= next && str[next..] == s[next..]
    ensures var all := done + [if ucs then UcsItem(v) else ByteItem(v)];
      str[..m2.q] == Output(all, badctl) && m2.ctlmask == Codes(all)
  {
    ghost var item := if ucs then UcsItem(v) else ByteItem(v);
    ghost var was := str[..];
    OutputStep(done, item, badctl);
    m2 := Emit(str, m, v, ucs, badctl);
    if badctl * m2.ctlmask == {} {
      WrittenParts(was, m.q, item.bytes, next);
    }
    TailKept(was, s, anchor, next);
  }

  lemma WrittenParts(buf: seq<byte>, q: nat, t: seq<byte>, next: nat)
    requires q + |t| <= next <= |buf|
    ensures Written(buf, q, t)[..q + |t|] == buf[..q] + t && Written(buf, q, t)[next..] == buf[next..]
  {
  }

  lemma TailKept(buf: seq<byte>, s: seq<byte>, anchor: nat, next: nat)
    requires |buf| == |s| && anchor <= next <= |s| && buf[anchor..] == s[anchor..]
    ensures buf[next..] == s[next..]
  {
    assert buf[next..] == buf[anchor..][next - anchor..];
  }

  method StepStart(str: array<byte>, m: Machine, bq: byte, badctl: set<nat>, ghost s: seq<byte>,
                   ghost anchor: nat, ghost done: seq<Item>)
    returns (m2: Machine, ghost anchor2: nat, ghost done2: seq<Item>)
    requires Running(m, str[..], s, bq, badctl, anchor, done) && m.state == Start && bq != BS
    modifies str
    ensures Running(m2, str[..], s, bq, badctl, anchor2, done2)
    ensures anchor2 > anchor || (anchor2 == anchor && (m2.state == Backslash || m2.state == Done))
  {
    anchor2, done2 := anchor, done;
    assert str[m.p] == str[anchor..][0] == s[anchor];
    var c := str[m.p];
    if c == BS {
      m2 := m.(p := m.p + 1, state := Backslash);
    } else if c == NUL || c == bq {
      m2 := m.(p := m.p + 1, state := Done);
    } else {
      m2, anchor2, done2 := PlainChar(str, m, c, bq, badctl, s, anchor, done);
    }
  }

  /** A character that stands for itself. */
  method PlainChar(str: array<byte>, m: Machine, c: byte, bq: byte, badctl: set<nat>, ghost s: seq<byte>,
                   ghost anchor: nat, ghost done: seq<Item>)
    returns (m2: Machine, ghost anchor2: nat, ghost done2: seq<Item>)
    requires Progress(m.q, m.ctlmask, str[..], s, bq, badctl, anchor, done) && m.state == Start && m.p == anchor
    requires c == s[anchor] && c != BS && c != NUL && c != bq
    modifies str
    ensures Running(m2, str[..], s, bq, badctl, anchor2, done2) && anchor2 > anchor
  {
    m2 := EmitItem(str, m, c, false, badctl, 1, s, anchor, anchor + 1, done);
    anchor2, done2 := anchor + 1, done + [ByteItem(c)];
    m2 := m2.(p := m.p + 1);
    CharDone(s, anchor, bq, done);
  }

  lemma CharDone(s: seq<byte>, anchor: nat, bq: byte, done: seq<Item>)
    requires Terminated(s) && anchor < |s| && s[anchor] != BS && s[anchor] != NUL && s[anchor] != bq
    ensures done + Items(s, anchor, bq) == done + [ByteItem(s[anchor])] + Items(s, anchor + 1, bq)
    ensures End(s, anchor, bq) == End(s, anchor + 1, bq)
  {
    hide ReadEscape;
    hide NumericEscape;
    hide ReadNumeric;
    var item := ByteItem(s[anchor]);
    assert done + [item] + Items(s, anchor + 1, bq) == done + ([item] + Items(s, anchor + 1, bq));
  }

  /** An escape is complete: its item goes out, and the next one starts. */
  method FinishEscape(str: array<byte>, m: Machine, v: nat, p: nat, bq: byte, badctl: set<nat>, ghost s: seq<byte>,
                      ghost anchor: nat, ghost done: seq<Item>)
    returns (m2: Machine, ghost anchor2: nat, ghost done2: seq<Item>)
    requires Progress(m.q, m.ctlmask, str[..], s, bq, badctl, anchor, done) && s[anchor] == BS && anchor + 1 < |s|
    requires ReadEscape(s, anchor) == Escape(Some(if m.state == UcsDigits then UcsItem(v) else ByteItem(v)), p)
    modifies str
    ensures Running(m2, str[..], s, bq, badctl, anchor2, done2) && anchor2 > anchor
  {
    ItemFits(s, anchor);
    EscapeAdvances(s, anchor);
    ghost var item := if m.state == UcsDigits then UcsItem(v) else ByteItem(v);
    m2 := EmitItem(str, m, v, m.state == UcsDigits, badctl, 1, s, anchor, p, done);
    m2 := m2.(p := p, state := Start);
    anchor2, done2 := p, done + [item];
    ItemDone(s, anchor, p, bq, done, item);
  }

  lemma ItemDone(s: seq<byte>, anchor: nat, p: nat, bq: byte, done: seq<Item>, item: Item)
    requires Terminated(s) && anchor + 1 < |s| && s[anchor] == BS && ReadEscape(s, anchor) == Escape(Some(item), p)
    ensures p < |s| && done + Items(s, anchor, bq) == done + [item] + Items(s, p, bq) && End(s, anchor, bq) == End(s, p, bq)
  {
    EscapeAdvances(s, anchor);
    assert done + [item] + Items(s, p, bq) == done + ([item] + Items(s, p, bq));
  }

  /** An escape is invalid: the text after the backslash is read as ordinary characters. */
  lemma Rewound(q: nat, ctlmask: set<nat>, buf: seq<byte>, s: seq<byte>, bq: byte, badctl: set<nat>, anchor: nat,
                done: seq<Item>)
    requires Progress(q, ctlmask, buf, s, bq, badctl, anchor, done) && s[anchor] == BS && anchor + 1 < |s|
    requires ReadEscape(s, anchor) == Escape(None, anchor + 1)
    ensures Progress(q, ctlmask, buf, s, bq, badctl, anchor + 1, done)
  {
    TailKept(buf, s, anchor, anchor + 1);
    NoItem(s, anchor, bq);
  }

  lemma NoItem(s: seq<byte>, anchor: nat, bq: byte)
    requires Terminated(s) && anchor + 1 < |s| && s[anchor] == BS && ReadEscape(s, anchor) == Escape(None, anchor + 1)
    ensures Items(s, anchor, bq) == Items(s, anchor + 1, bq) && End(s, anchor, bq) == End(s, anchor + 1, bq)
  {
    assert [] + Items(s, anchor + 1, bq) == Items(s, anchor + 1, bq);
  }

  method StepBackslash(str: array<byte>, m: Machine, bq: byte, badctl: set<nat>, ghost s: seq<byte>,
                       ghost anchor: nat, ghost done: seq<Item>)
    returns (m2: Machine, ghost anchor2: nat, ghost done2: seq<Item>)
    requires Running(m, str[..], s, bq, badctl, anchor, done) && m.state == Backslash
    modifies str
    ensures Running(m2, str[..], s, bq, badctl, anchor2, done2)
    ensures anchor2 > anchor || (anchor2 == anchor && (m2.state == Ctrl || m2.state == ByteDigits || m2.state == UcsDigits))
  {
    anchor2, done2 := anchor, done;
    assert str[m.p] == str[anchor..][1] == s[anchor + 1];
    var c := str[m.p];
    var p := m.p + 1;
    m2 := m.(p := p, escp := m.p, nval := 0);
    if c == CARET {
      m2 := m2.(state := Ctrl);
    } else if c == NUL {
      m2, anchor2, done2 := FinishEscape(str, m, BS, p - 1, bq, badctl, s, anchor, done);
    } else if IsNumeric(c) {
      m2 := StartNumeric(str, m, c, s, anchor);
      assert Running(m2, str[..], s, bq, badctl, anchor, done);
    } else {
      m2, anchor2, done2 := FinishEscape(str, m, Simple(c), p, bq, badctl, s, anchor, done);
    }
  }

  predicate IsNumeric(c: byte) {
    c == Ch('u') || c == Ch('U') || c == Ch('x') || c == Ch('X') || c == Ch('d') || c == Ch('o') || 48 <= c <= 55
  }

  /** The start of a numeric escape; octal digits back up, as if an o had come before them. */
  method StartNumeric(str: array<byte>, m: Machine, c: byte, ghost s: seq<byte>, ghost anchor: nat) returns (m2: Machine)
    requires Terminated(s) && |s| == str.Length && anchor + 1 < |s| && str[anchor..] == s[anchor..]
    requires s[anchor] == BS && m.p == anchor + 1 && m.state == Backslash && c == s[anchor + 1] && IsNumeric(c)
    ensures InDigits(m2, s, anchor) && (m2.state == ByteDigits || m2.state == UcsDigits)
    ensures m2.q == m.q && m2.ctlmask == m.ctlmask
  {
    hide Items;
    hide End;
    hide ReadEscape;
    hide ReadDigits;
    var p, escp, state, base, ndig := m.p + 1, m.p, ByteDigits, 16, 2;
    if c == Ch('u') {
      state, ndig := UcsDigits, 4;
    } else if c == Ch('U') {
      state, ndig := UcsDigits, 8;
    } else if c == Ch('d') {
      base, ndig := 10, 3;
    } else if c == Ch('o') {
      base, ndig := 8, 3;
    } else if 48 <= c <= 55 {
      p, escp, base, ndig := escp, escp - 1, 8, 3;
    }
    ghost var num := NumericEscape(s, anchor).value;
    assert p == num.start < |s|;
    assert str[p] == str[anchor..][p - anchor] == s[p];
    if str[p] == LBRACE {
      p, ndig := p + 1, -1;
    }
    m2 := Machine(p, m.q, state, base, 0, ndig, escp, m.ctlmask);
  }

  method StepCtrl(str: array<byte>, m: Machine, bq: byte, badctl: set<nat>, ghost s: seq<byte>,
                  ghost anchor: nat, ghost done: seq<Item>)
    returns (m2: Machine, ghost anchor2: nat, ghost done2: seq<Item>)
    requires Running(m, str[..], s, bq, badctl, anchor, done) && m.state == Ctrl
    modifies str
    ensures Running(m2, str[..], s, bq, badctl, anchor2, done2) && anchor2 > anchor
  {
    assert str[m.p] == str[anchor..][2] == s[anchor + 2];
    var c := str[m.p];
    if c == NUL {
      Rewound(m.q, m.ctlmask, str[..], s, bq, badctl, anchor, done);
      m2, anchor2, done2 := m.(p := m.escp, state := Start), anchor + 1, done;
    } else {
      m2, anchor2, done2 := FinishEscape(str, m, Control(c), m.p + 1, bq, badctl, s, anchor, done);
    }
  }

  // ---- Digits ----

  /** Another digit, with room for more. */
  lemma MoreDigits(m: Machine, s: seq<byte>, anchor: nat)
    requires Terminated(s) && InDigits(m, s, anchor) && NumValue(s[m.p]) < m.base && m.ndig != 1
    ensures InDigits(m.(p := m.p + 1, nval := Accumulate(m.nval, m.base, NumValue(s[m.p])), ndig := m.ndig - 1), s, anchor)
  {
    hide Items;
    hide End;
    hide ReadEscape;
    hide Accumulate;
  }

  /** The digits end at `end`, with the value `nval`. */
  ghost predicate DigitsEnd(s: seq<byte>, anchor: nat, end: nat, nval: nat) {
    && anchor + 1 < |s| && NumericEscape(s, anchor).Some?
    && var num := NumericEscape(s, anchor).value;
      && num.start < |s| && ReadDigits(s, FirstDigit(s, num), num.base, Limit(s, num), 0) == Number(nval, end)
  }

  /** The last digit that there is room for. */
  lemma LastDigit(m: Machine, s: seq<byte>, anchor: nat)
    requires Terminated(s) && InDigits(m, s, anchor) && NumValue(s[m.p]) < m.base && m.ndig == 1
    ensures s[NumericEscape(s, anchor).value.start] != LBRACE
    ensures DigitsEnd(s, anchor, m.p + 1, Accumulate(m.nval, m.base, NumValue(s[m.p])))
  {
  }

  lemma NoMoreDigits(m: Machine, s: seq<byte>, anchor: nat)
    requires InDigits(m, s, anchor) && NumValue(s[m.p]) >= m.base
    ensures DigitsEnd(s, anchor, m.p, m.nval)
  {
  }

  /** An invalid escape has no octal digits, which need no brace and are never missing. */
  lemma InvalidIsNotOctal(s: seq<byte>, anchor: nat, end: nat, nval: nat)
    requires Terminated(s) && DigitsEnd(s, anchor, end, nval) && ReadEscape(s, anchor).item == None
    ensures NumericEscape(s, anchor).value.start == anchor + 2
  {
  }

  method StepDigits(str: array<byte>, m: Machine, bq: byte, badctl: set<nat>, ghost s: seq<byte>,
                    ghost anchor: nat, ghost done: seq<Item>)
    returns (m2: Machine, ghost anchor2: nat, ghost done2: seq<Item>)
    requires Running(m, str[..], s, bq, badctl, anchor, done) && (m.state == ByteDigits || m.state == UcsDigits)
    modifies str
    ensures Running(m2, str[..], s, bq, badctl, anchor2, done2)
    ensures anchor2 > anchor || (anchor2 == anchor && m2.state == m.state && m2.p == m.p + 1)
  {
    hide Items;
    hide End;
    hide ReadEscape;
    anchor2, done2 := anchor, done;
    assert str[m.p] == str[anchor..][m.p - anchor] == s[m.p];
    var c := str[m.p];
    var v := NumValue(c);
    if v < m.base {
      if m.ndig - 1 != 0 {
        m2 := ContinueDigits(m, v, s, anchor);
      } else {
        var nval := EndDigits(m, v, s, anchor);
        m2, anchor2, done2 := FinishEscape(str, m, nval, m.p + 1, bq, badctl, s, anchor, done);
      }
    } else {
      m2, anchor2, done2 := StepNoDigit(str, m, c, bq, badctl, s, anchor, done);
    }
  }

  /** One more digit, and room for others. */
  method ContinueDigits(m: Machine, v: nat, ghost s: seq<byte>, ghost anchor: nat) returns (m2: Machine)
    requires Terminated(s) && InDigits(m, s, anchor) && v == NumValue(s[m.p]) < m.base && m.ndig != 1
    ensures m2.q == m.q && m2.ctlmask == m.ctlmask && m2.state == m.state && m2.p == m.p + 1
    ensures InDigits(m2, s, anchor)
  {
    MoreDigits(m, s, anchor);
    m2 := m.(p := m.p + 1, nval := Accumulate(m.nval, m.base, v), ndig := m.ndig - 1);
  }

  /** The last digit that there is room for. */
  method EndDigits(m: Machine, v: nat, ghost s: seq<byte>, ghost anchor: nat) returns (nval: nat)
    requires Terminated(s) && InDigits(m, s, anchor) && v == NumValue(s[m.p]) < m.base && m.ndig == 1
    ensures ReadEscape(s, anchor) == Escape(Some(if m.state == UcsDigits then UcsItem(nval) else ByteItem(nval)), m.p + 1)
  {
    LastDigit(m, s, anchor);
    nval := Accumulate(m.nval, m.base, v);
  }

  /** The character after the digits: the brace of a braced number, or just the next one. */
  method StepNoDigit(str: array<byte>, m: Machine, c: byte, bq: byte, badctl: set<nat>, ghost s: seq<byte>,
                     ghost anchor: nat, ghost done: seq<Item>)
    returns (m2: Machine, ghost anchor2: nat, ghost done2: seq<Item>)
    requires Running(m, str[..], s, bq, badctl, anchor, done) && (m.state == ByteDigits || m.state == UcsDigits)
    requires c == s[m.p] && NumValue(c) >= m.base
    modifies str
    ensures Running(m2, str[..], s, bq, badctl, anchor2, done2) && anchor2 > anchor
  {
    NoMoreDigits(m, s, anchor);
    if m.ndig < 0 {
      if c != RBRACE {
        InvalidIsNotOctal(s, anchor, m.p, m.nval);
        m2, anchor2, done2 := Rewind(m, str[..], s, bq, badctl, anchor, done);
      } else {
        m2, anchor2, done2 := FinishEscape(str, m, m.nval, m.p + 1, bq, badctl, s, anchor, done);
      }
    } else {
      if m.p == m.escp + 1 {
        InvalidIsNotOctal(s, anchor, m.p, m.nval);
        m2, anchor2, done2 := Rewind(m, str[..], s, bq, badctl, anchor, done);
      } else {
        m2, anchor2, done2 := FinishEscape(str, m, m.nval, m.p, bq, badctl, s, anchor, done);
      }
    }
  }

  method Rewind(m: Machine, ghost buf: seq<byte>, ghost s: seq<byte>, ghost bq: byte, ghost badctl: set<nat>,
                ghost anchor: nat, ghost done: seq<Item>)
    returns (m2: Machine, ghost anchor2: nat, ghost done2: seq<Item>)
    requires Progress(m.q, m.ctlmask, buf, s, bq, badctl, anchor, done) && s[anchor] == BS && anchor + 1 < |s|
    requires ReadEscape(s, anchor) == Escape(None, anchor + 1) && m.escp == anchor + 1
    ensures Running(m2, buf, s, bq, badctl, anchor2, done2) && anchor2 > anchor
  {
    Rewound(m.q, m.ctlmask, buf, s, bq, badctl, anchor, done);
    m2, anchor2, done2 := m.(p := m.escp, state := Start), anchor + 1, done;
  }

  function Stage(state: State): nat {
    match state
    case Start => 3
    case Backslash => 2
    case Done => 0
    case _ => 1
  }

  /** One character. */
  method Advance(str: array<byte>, m: Machine, bq: byte, badctl: set<nat>, ghost s: seq<byte>,
                 ghost anchor: nat, ghost done: seq<Item>)
    returns (m2: Machine, ghost anchor2: nat, ghost done2: seq<Item>)
    requires Running(m, str[..], s, bq, badctl, anchor, done) && m.state != Done && bq != BS
    modifies str
    ensures Running(m2, str[..], s, bq, badctl, anchor2, done2)
    ensures anchor2 > anchor
            || (anchor2 == anchor && (Stage(m2.state) < Stage(m.state) || (m2.state == m.state && m2.p == m.p + 1)))
  {
    if m.state == Start {
      m2, anchor2, done2 := StepStart(str, m, bq, badctl, s, anchor, done);
    } else if m.state == Backslash {
      m2, anchor2, done2 := StepBackslash(str, m, bq, badctl, s, anchor, done);
    } else if m.state == Ctrl {
      m2, anchor2, done2 := StepCtrl(str, m, bq, badctl, s, anchor, done);
    } else {
      m2, anchor2, done2 := StepDigits(str, m, bq, badctl, s, anchor, done);
    }
  }

  /** A string with escapes: the state machine, up to the closing quote. */
  method UnquoteEscaped(str: array<byte>, badctl: set<nat>) returns (q: nat, ep: nat, bad: bool)
    requires str.Length > 1 && Terminated(str[..]) && str[0] != BS && str[0] != NUL
    modifies str
    ensures var s, bq := old(str[..]), old(str[0]);
      && ep == End(s, 1, bq) && q < ep && str[..q] == Output(Items(s, 1, bq), badctl)
      && str[ep..] == s[ep..] && (bad <==> badctl * Codes(Items(s, 1, bq)) != {})
  {
    ghost var s := str[..];
    var bq := str[0];
    var m := Machine(1, 0, Start, 0, 0, 0, 0, {});
    ghost var anchor: nat, done: seq<Item> := 1, [];
    while m.state != Done
      invariant Running(m, str[..], s, bq, badctl, anchor, done)
      decreases |s| - anchor, Stage(m.state), |s| - m.p
    {
      m, anchor, done := Advance(str, m, bq, badctl, s, anchor, done);
    }
    q, ep := m.q, m.p - 1;
    bad := badctl * m.ctlmask != {};
    assert done + Items(s, anchor, bq) == done;
  }

  /** The text from `start` up to the machine's position is copied. */
  ghost predicate Copied(m: Machine, buf: seq<byte>, s: seq<byte>, start: nat, bq: byte, badctl: set<nat>) {
    && Terminated(s) && |buf| == |s| && start <= m.p < |s| && m.q + start <= m.p && buf[m.p..] == s[m.p..]
    && PlainEnd(s, start, bq) == PlainEnd(s, m.p, bq)
    && buf[..m.q] == Output(Plain(s[start..m.p]), badctl) && m.ctlmask == Codes(Plain(s[start..m.p]))
  }

  method CopyByte(str: array<byte>, m: Machine, bq: byte, badctl: set<nat>, ghost s: seq<byte>, ghost start: nat)
    returns (m2: Machine)
    requires Copied(m, str[..], s, start, bq, badctl) && str[m.p] != NUL && str[m.p] != bq
    modifies str
    ensures Copied(m2, str[..], s, start, bq, badctl) && m2.p == m.p + 1
  {
    hide Items;
    hide End;
    hide ReadEscape;
    hide Output;
    ghost var done := Plain(s[start..m.p]);
    assert str[m.p] == str[m.p..][0] == s[m.p];
    var c := str[m.p];
    assert Plain(s[start..m.p + 1]) == done + [ByteItem(c)];
    m2 := EmitItem(str, m, c, false, badctl, start, s, m.p, m.p + 1, done);
    m2 := m2.(p := m.p + 1);
  }

  /** A string without escapes, copied down over its quote. */
  method UnquotePlain(str: array<byte>, start: nat, bq: byte, badctl: set<nat>) returns (q: nat, ep: nat, bad: bool)
    requires Terminated(str[..]) && start < str.Length
    modifies str
    ensures ep == PlainEnd(old(str[..]), start, bq) && q + start <= ep
    ensures var s := old(str[..]); var items := Plain(s[start..ep]);
      && str[..q] == Output(items, badctl) && str[ep..] == s[ep..] && (bad <==> badctl * Codes(items) != {})
  {
    ghost var s := str[..];
    var m := Machine(start, 0, Start, 0, 0, 0, 0, {});
    assert s[start..start] == [];
    while str[m.p] != NUL && str[m.p] != bq
      invariant Copied(m, str[..], s, start, bq, badctl)
      decreases |s| - m.p
    {
      m := CopyByte(str, m, bq, badctl, s, start);
    }
    assert str[m.p] == str[m.p..][0] == s[m.p];
    q, ep, bad := m.q, m.p, badctl * m.ctlmask != {};
  }

  /** What a string means, whatever its quotes: its characters, and where it ends. With
      `qstart` the lead quote of strings with escapes. */
  function Meaning(s: seq<byte>, qstart: byte): (seq<Item>, nat)
    requires Terminated(s)
  {
    if s[0] == qstart && |s| > 1 then (Items(s, 1, s[0]), End(s, 1, s[0]))
    else if (s[0] == SQ || s[0] == DQ) && |s| > 1 then (Plain(s[1..PlainEnd(s, 1, s[0])]), PlainEnd(s, 1, s[0]))
    else (Plain(s[..PlainEnd(s, 0, NUL)]), PlainEnd(s, 0, NUL))
  }

  predicate Quoted(s: seq<byte>, qstart: byte)
    requires s != []
  {
    s[0] == qstart || s[0] == SQ || s[0] == DQ
  }

  /** Unquotes a string in its own buffer. The output is what the original bytes mean,
      cut off at the first forbidden control character; `ep` is where the string ended,
      and a closing quote and all that follows it stay as they were. */
  method UnquoteAnystr(str: array<byte>, badctl: set<nat>, qstart: byte) returns (len: nat, ep: nat, bad: bool)
    requires Terminated(str[..]) && (qstart == BQ || qstart == DQ)
    modifies str
    ensures var (items, end) := Meaning(old(str[..]), qstart);
      && ep == end && len <= ep < str.Length && str[..len] == Output(items, badctl) && str[len] == NUL
      && (bad <==> badctl * Codes(items) != {})
      && (Quoted(old(str[..]), qstart) ==> len < ep && str[ep..] == old(str[ep..]))
  {
    ghost var s := str[..];
    if str[0] == qstart {
      len, ep, bad := UnquoteEscaped(str, badctl);
    } else if str[0] == SQ || str[0] == DQ {
      len, ep, bad := UnquotePlain(str, 1, str[0], badctl);
    } else {
      len, ep, bad := UnquotePlain(str, 0, NUL, badctl);
    }
    ghost var was := str[..];
    str[len] := NUL;
    assert str[..len] == was[..len];
    assert len < ep ==> str[ep..] == was[ep..];
  }

  // ---- The search for the closing quote ----

  /** Where the search ends in a string with escapes: only backslash pairs and \\^ matter. */
  function SkipEnd(s: seq<byte>, i: nat): (e: nat)
    requires Terminated(s) && i < |s|
    ensures i <= e < |s|
    decreases |s| - i
  {
    if s[i] == BS then
      if s[i + 1] == NUL then i + 1
      else if s[i + 1] == CARET then if s[i + 2] == NUL then i + 2 else SkipEnd(s, i + 3)
      else SkipEnd(s, i + 2)
    else if s[i] == NUL || s[i] == BQ then i
    else SkipEnd(s, i + 1)
  }

  predicate Ordinary(c: byte) {
    c != BS && c != NUL && c != BQ
  }

  /** Reading goes through ordinary characters one by one. */
  lemma {:induction false} OrdinaryRun(s: seq<byte>, i: nat, j: nat)
    requires Terminated(s) && i <= j < |s| && forall k | i <= k < j :: Ordinary(s[k])
    ensures End(s, i, BQ) == End(s, j, BQ)
    decreases j - i
  {
    if i < j {
      assert Ordinary(s[i]) && End(s, i, BQ) == End(s, i + 1, BQ);
      OrdinaryRun(s, i + 1, j);
    }
  }

  /** Whatever an escape consumes after its first two characters is ordinary text. */
  lemma EscapeOrdinary(s: seq<byte>, i: nat)
    requires Terminated(s) && i + 1 < |s| && s[i] == BS && s[i + 1] != NUL && s[i + 1] != CARET
    ensures i + 2 < |s| && End(s, i, BQ) == End(s, i + 2, BQ)
  {
    EscapeAdvances(s, i);
    var next := ReadEscape(s, i).next;
    if NumericEscape(s, i).Some? {
      NumericOrdinary(s, i, NumericEscape(s, i).value);
      if next >= i + 2 {
        OrdinaryRun(s, i + 2, next);
      } else {
        OrdinaryRun(s, i + 1, i + 2);
      }
    }
  }

  lemma NumericOrdinary(s: seq<byte>, i: nat, num: Numeric)
    requires Terminated(s) && i + 1 < |s| && NumericEscape(s, i) == Some(num)
    ensures Ordinary(s[i + 1]) && num.start < |s|
    ensures var next := ReadNumeric(s, i, num).next;
      next <= |s| && (next == i + 1 || next >= i + 2) && forall k | i + 2 <= k < next :: Ordinary(s[k])
  {
    var n := ReadDigits(s, FirstDigit(s, num), num.base, Limit(s, num), 0);
    forall k | FirstDigit(s, num) <= k < n.end ensures Ordinary(s[k]) {
      assert NumValue(s[k]) < num.base;
    }
  }

  /** The search finds the end that unquoting reports. */
  lemma {:induction false} SkipFindsEnd(s: seq<byte>, i: nat)
    requires Terminated(s) && i < |s|
    ensures SkipEnd(s, i) == End(s, i, BQ)
    decreases |s| - i
  {
    hide ReadNumeric;
    hide ReadDigits;
    hide CloseNumeric;
    hide FirstDigit;
    hide Limit;
    if s[i] == BS {
      if s[i + 1] == CARET {
        if s[i + 2] == NUL {
          assert End(s, i + 1, BQ) == i + 2;
        } else {
          SkipFindsEnd(s, i + 3);
        }
      } else if s[i + 1] != NUL {
        EscapeOrdinary(s, i);
        SkipFindsEnd(s, i + 2);
      }
    } else if s[i] != NUL && s[i] != BQ {
      SkipFindsEnd(s, i + 1);
    }
  }

  /** Finds the end of a quoted string, or says that it is none. */
  method SkipString(str: seq<byte>) returns (end: Option<nat>)
    requires Terminated(str)
    ensures end == if Quoted(str, BQ) then Some(Meaning(str, BQ).1) else None
  {
    var bq := str[0];
    if bq == SQ || bq == DQ {
      var p := 1;
      while str[p] != NUL && str[p] != bq
        invariant 1 <= p < |str| && PlainEnd(str, 1, bq) == PlainEnd(str, p, bq)
        decreases |str| - p
      {
        p := p + 1;
      }
      end := Some(p);
    } else if bq == BQ {
      var p, backslash, done := 1, false, false;
      SkipFindsEnd(str, 1);
      while !done
        invariant 1 <= p <= |str| && (backslash ==> p < |str|)
        invariant done ==> p >= 1 && SkipEnd(str, 1) == p - 1
        invariant !done ==> p - (if backslash then 1 else 0) < |str|
        invariant !done && !backslash ==> SkipEnd(str, 1) == SkipEnd(str, p)
        invariant !done && backslash ==> str[p - 1] == BS && SkipEnd(str, 1) == SkipEnd(str, p - 1)
        decreases !done, |str| - p
      {
        var c := str[p];
        p := p + 1;
        if !backslash {
          if c == BS {
            backslash := true;
          } else if c == BQ || c == NUL {
            done := true;
          }
        } else {
          if c == CARET {
            c := str[p];
            p := p + 1;
          }
          backslash := false;
          done := c == NUL;
        }
      }
      end := Some(p - 1);
    } else {
      end := None;
    }
  }
}
