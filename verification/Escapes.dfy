/** Escapes as they are written, and that they are read as what they name, whatever stands
    beside them. */
module Escapes {
  import opened Basics
  import opened Digits
  import opened Utf8
  import opened Unquote

  // ---- Digits ----

  /** A digit in one of the two cases. */
  datatype Digit = Digit(v: nat, upper: bool)

  predicate InBase(d: seq<Digit>, base: nat) {
    base <= 16 && forall k | 0 <= k < |d| :: d[k].v < base
  }

  function CharOf(d: Digit): (c: byte)
    requires d.v < 16
  {
    (if d.upper then UPPER[d.v] else LOWER[d.v]) as int
  }

  function Text(d: seq<Digit>): (t: seq<byte>)
    requires InBase(d, 16)
    ensures |t| == |d|
  {
    seq(|d|, k requires 0 <= k < |d| => CharOf(d[k]))
  }

  function Values(d: seq<Digit>): (v: seq<nat>)
    ensures |v| == |d|
  {
    seq(|d|, k requires 0 <= k < |d| => d[k].v)
  }

  lemma DigitRead(d: Digit)
    requires d.v < 16
    ensures NumValue(CharOf(d)) == d.v && CharOf(d) != LBRACE && CharOf(d) != RBRACE
    ensures d.v < 8 ==> 48 <= CharOf(d) <= 55
  {
  }

  predicate StandsAt(t: seq<byte>, s: seq<byte>, j: nat) {
    j + |t| <= |s| && s[j..j + |t|] == t
  }

  /** The last of 64 bits do not depend on when the higher ones are dropped. */
  lemma Reduced(a: nat, p: nat, r: nat)
    ensures a % TWO64 * p + r >= 0 && a * p + r >= 0
    ensures (a % TWO64 * p + r) % TWO64 == (a * p + r) % TWO64
  {
    MulMonotone(p, 0, a);
    MulMonotone(p, 0, a % TWO64);
    assert a == TWO64 * (a / TWO64) + a % TWO64;
    assert a * p + r - (a % TWO64 * p + r) == a / TWO64 * p * TWO64 by {
      assert a * p == (TWO64 * (a / TWO64) + a % TWO64) * p == TWO64 * (a / TWO64) * p + a % TWO64 * p;
    }
    MultipleModZero(a / TWO64 * p, TWO64);
    ModEqual(a * p + r, a % TWO64 * p + r, TWO64);
  }

  lemma Distribute(n: int, b: int, p: int, v: int, r: int)
    ensures n * (b * p) + (v * p + r) == (n * b + v) * p + r
  {
  }

  lemma DigitStands(s: seq<byte>, j: nat, d: seq<Digit>, base: nat)
    requires InBase(d, base) && d != [] && StandsAt(Text(d), s, j)
    ensures NumValue(s[j]) == d[0].v < base && Text(d)[0] == CharOf(d[0])
    ensures s[j] != LBRACE && (base == 8 ==> 48 <= s[j] <= 55)
    ensures InBase(d[1..], base) && StandsAt(Text(d[1..]), s, j + 1) && Values(d[1..]) == Values(d)[1..]
  {
    DigitRead(d[0]);
    hide CharOf;
    assert s[j] == s[j..j + |d|][0] == Text(d)[0];
    assert Text(d[1..]) == Text(d)[1..];
    assert s[j + 1..j + 1 + |d[1..]|] == s[j..j + |d|][1..];
  }

  /** The value of the digits `d` after the value `n`. */
  function Continued(n: nat, d: seq<Digit>, base: nat): nat {
    MulMonotone(Power(base, |d|), 0, n);
    n * Power(base, |d|) + ValueOf(Values(d), base)
  }

  lemma OneDigit(n: nat, d: seq<Digit>, base: nat)
    requires d != [] && Values(d[1..]) == Values(d)[1..]
    ensures Continued(Accumulate(n, base, d[0].v), d[1..], base) % TWO64 == Continued(n, d, base) % TWO64
  {
    hide Times;
    var v, rest := d[0].v, d[1..];
    var p, r := Power(base, |rest|), ValueOf(Values(rest), base);
    TimesIs(n, base);
    Distribute(n, base, p, v, r);
    Reduced(Times(n, base) + v, p, r);
  }

  lemma NothingContinued(n: nat, base: nat)
    ensures Continued(n, [], base) == n
  {
    assert Power(base, 0) == 1 && Values([]) == [] && ValueOf([], base) == 0;
  }

  lemma FromZero(d: seq<Digit>, base: nat)
    ensures Continued(0, d, base) == ValueOf(Values(d), base)
  {
  }

  /** Digits are read up to the limit, or up to what is no digit. */
  lemma {:induction false} DigitsRead(s: seq<byte>, j: nat, d: seq<Digit>, base: nat, limit: nat, n: nat)
    requires InBase(d, base) && n < TWO64 && |d| <= limit && StandsAt(Text(d), s, j)
    requires |d| < limit && j + |d| < |s| ==> NumValue(s[j + |d|]) >= base
    ensures ReadDigits(s, j, base, limit, n) == Number(Continued(n, d, base) % TWO64, j + |d|)
    decreases |d|
  {
    hide Text;
    hide Values;
    hide NumValue;
    hide Continued;
    hide Accumulate;
    if d == [] {
      NothingContinued(n, base);
    } else {
      DigitStands(s, j, d, base);
      OneDigit(n, d, base);
      AccumulateRange(n, base, d[0].v);
      DigitsRead(s, j + 1, d[1..], base, limit - 1, Accumulate(n, base, d[0].v));
    }
  }

  lemma AccumulateRange(n: nat, base: nat, v: nat)
    ensures Accumulate(n, base, v) < TWO64
  {
  }

  // ---- Escapes ----

  /** The letters of the numeric escapes, the radix, the number of digits, and whether a code
      point is meant; three octal digits need no letter. */
  const KINDS: seq<(string, nat, nat, bool)> :=
    [("u", 16, 4, true), ("U", 16, 8, true), ("x", 16, 2, false), ("X", 16, 2, false), ("d", 10, 3, false),
     ("o", 8, 3, false), ("", 8, 3, false)]

  /** The letters of the control characters. */
  const LETTERS: seq<(char, byte)> :=
    [('a', 7), ('b', 8), ('t', 9), ('n', 10), ('v', 11), ('f', 12), ('r', 13), ('e', 27)]

  /** A part of a string: a numeric escape with all its digits, or with any number of digits
      between braces; a letter; a sequence for a control character; a character behind a
      backslash or alone. */
  datatype Piece =
    | Fixed(kind: nat, d: seq<Digit>)
    | Braced(kind: nat, d: seq<Digit>)
    | Letter(k: nat)
    | CtrlSeq(c: byte)
    | Itself(c: byte)
    | Alone(c: byte)
  {
    predicate Valid(quote: byte) {
      match this
      case Fixed(kind, d) => kind < |KINDS| && InBase(d, KINDS[kind].1) && |d| == KINDS[kind].2
      case Braced(kind, d) => kind < |KINDS| - 1 && InBase(d, KINDS[kind].1)
      case Letter(k) => k < |LETTERS|
      case CtrlSeq(c) => c != NUL
      case Itself(c) => NumValue(c) == 255 && c != NUL && c != CARET
      case Alone(c) => c != BS && c != NUL && c != quote
    }
  }

  function Intro(t: string): seq<byte>
    requires t == "" || t[0] < 256 as char
  {
    if t == "" then [] else [Ch(t[0])]
  }

  function Show(p: Piece, quote: byte): seq<byte>
    requires p.Valid(quote)
  {
    match p
    case Fixed(kind, d) => [BS] + Intro(KINDS[kind].0) + Text(d)
    case Braced(kind, d) => [BS] + Intro(KINDS[kind].0) + [LBRACE] + Text(d) + [RBRACE]
    case Letter(k) => [BS, Ch(LETTERS[k].0)]
    case CtrlSeq(c) => [BS, CARET, c]
    case Itself(c) => [BS, c]
    case Alone(c) => [c]
  }

  /** A code point in its UTF-8 form, or a byte; longer numbers count modulo the size. */
  function Named(v: nat, ucs: bool): Item {
    if ucs then Item(Encode(v % TWO32), v % TWO32) else Item([v % 256], v % 256)
  }

  function Byte(c: byte): Item {
    Item([c], c as nat)
  }

  /** DEL for the question mark, and otherwise the five low bits, with the eighth. */
  function ControlOf(c: byte): byte {
    if c == 63 then 127
    else if c < 32 then c
    else if c < 64 then c - 32
    else if c < 96 then c - 64
    else if c < 128 then c - 96
    else if c < 160 then c
    else if c < 192 then c - 32
    else if c < 224 then c - 64
    else c - 96
  }

  function Names(p: Piece, quote: byte): Item
    requires p.Valid(quote)
  {
    match p
    case Fixed(kind, d) => Named(ValueOf(Values(d), KINDS[kind].1), KINDS[kind].3)
    case Braced(kind, d) => Named(ValueOf(Values(d), KINDS[kind].1), KINDS[kind].3)
    case Letter(k) => Byte(LETTERS[k].1)
    case CtrlSeq(c) => Byte(ControlOf(c))
    case Itself(c) => Byte(c)
    case Alone(c) => Byte(c)
  }

  // ---- One escape ----

  lemma WordOfDigits(v: nat, ucs: bool)
    ensures (if ucs then UcsItem(v % TWO64) else ByteItem(v % TWO64)) == Named(v, ucs)
  {
    hide Encode;
    assert v % TWO64 % TWO32 == v % TWO32 && v % TWO64 % 256 == v % 256;
  }

  /** The table of the escapes is the reader's. */
  lemma KindRead(s: seq<byte>, i: nat, kind: nat)
    requires kind < |KINDS| && i + 1 < |s| && StandsAt([BS] + Intro(KINDS[kind].0), s, i)
    requires kind == 6 ==> 48 <= s[i + 1] <= 55
    ensures NumericEscape(s, i)
            == Some(Numeric(KINDS[kind].1, KINDS[kind].2, KINDS[kind].3, i + 1 + |KINDS[kind].0|))
  {
    var t := [BS] + Intro(KINDS[kind].0);
    if kind < 6 {
      assert s[i + 1] == s[i..i + |t|][1] == Ch(KINDS[kind].0[0]);
    }
  }

  /** The digits of a numeric escape, as many as there may be, or fewer before what is no
      digit. */
  lemma UnbracedNumber(s: seq<byte>, i: nat, num: Numeric, d: seq<Digit>)
    requires Terminated(s) && i + 1 < |s| && NumericEscape(s, i) == Some(num)
    requires InBase(d, num.base) && 0 < |d| <= num.maxdig && StandsAt(Text(d), s, num.start)
    requires |d| < num.maxdig && num.start + |d| < |s| ==> NumValue(s[num.start + |d|]) >= num.base
    ensures ReadEscape(s, i) == Escape(Some(Named(ValueOf(Values(d), num.base), num.ucs)), num.start + |d|)
  {
    hide NumericEscape;
    hide ReadDigits;
    hide Text;
    hide Values;
    hide ValueOf;
    hide NumValue;
    hide UcsItem;
    hide ByteItem;
    hide Named;
    DigitStands(s, num.start, d, num.base);
    DigitsRead(s, num.start, d, num.base, num.maxdig, 0);
    FromZero(d, num.base);
    WordOfDigits(ValueOf(Values(d), num.base), num.ucs);
  }

  /** Digits between braces. */
  lemma BracedNumber(s: seq<byte>, i: nat, num: Numeric, d: seq<Digit>)
    requires Terminated(s) && i + 1 < |s| && NumericEscape(s, i) == Some(num) && num.start + |d| + 1 < |s|
    requires InBase(d, num.base) && s[num.start] == LBRACE && StandsAt(Text(d), s, num.start + 1)
    requires s[num.start + 1 + |d|] == RBRACE
    ensures ReadEscape(s, i) == Escape(Some(Named(ValueOf(Values(d), num.base), num.ucs)), num.start + |d| + 2)
  {
    BraceEnds(num.base);
    hide NumericEscape;
    hide ReadDigits;
    hide Text;
    hide Values;
    hide ValueOf;
    hide NumValue;
    hide UcsItem;
    hide ByteItem;
    hide Named;
    DigitsRead(s, num.start + 1, d, num.base, |s|, 0);
    FromZero(d, num.base);
    WordOfDigits(ValueOf(Values(d), num.base), num.ucs);
  }

  lemma BraceEnds(base: nat)
    ensures base <= 16 ==> NumValue(RBRACE) >= base
  {
  }

  /** Where the parts of an escape without braces stand. */
  lemma UnbracedParts(s: seq<byte>, i: nat, kind: nat, d: seq<Digit>)
    requires kind < |KINDS| && InBase(d, KINDS[kind].1) && 0 < |d|
    requires StandsAt([BS] + Intro(KINDS[kind].0) + Text(d), s, i)
    ensures i + 1 < |s| && s[i] == BS && StandsAt(Text(d), s, i + 1 + |KINDS[kind].0|)
    ensures NumericEscape(s, i)
            == Some(Numeric(KINDS[kind].1, KINDS[kind].2, KINDS[kind].3, i + 1 + |KINDS[kind].0|))
  {
    var (t, base, digits, ucs) := KINDS[kind];
    hide NumericEscape;
    hide Text;
    hide Values;
    hide NumValue;
    SplitAt(s, i, [BS] + Intro(t), Text(d));
    DigitStands(s, i + 1 + |t|, d, base);
    assert s[i] == s[i..i + |[BS] + Intro(t)|][0];
    KindRead(s, i, kind);
  }

  /** The same by the way it is written. */
  lemma UnbracedRead(s: seq<byte>, i: nat, kind: nat, d: seq<Digit>)
    requires Terminated(s) && kind < |KINDS| && InBase(d, KINDS[kind].1) && 0 < |d| <= KINDS[kind].2
    requires StandsAt([BS] + Intro(KINDS[kind].0) + Text(d), s, i)
    requires var next := i + 1 + |KINDS[kind].0| + |d|;
      next < |s| ==> |d| < KINDS[kind].2 ==> NumValue(s[next]) >= KINDS[kind].1
    ensures i + 1 < |s| && s[i] == BS
    ensures ReadEscape(s, i)
            == Escape(Some(Named(ValueOf(Values(d), KINDS[kind].1), KINDS[kind].3)), i + 1 + |KINDS[kind].0| + |d|)
  {
    UnbracedParts(s, i, kind, d);
    hide ReadEscape;
    hide NumericEscape;
    hide StandsAt;
    hide Text;
    hide Values;
    hide ValueOf;
    hide NumValue;
    hide Named;
    hide Intro;
    var (t, base, digits, ucs) := KINDS[kind];
    UnbracedNumber(s, i, Numeric(base, digits, ucs, i + 1 + |t|), d);
  }

  lemma SplitAt(s: seq<byte>, i: nat, a: seq<byte>, b: seq<byte>)
    requires StandsAt(a + b, s, i)
    ensures StandsAt(a, s, i) && StandsAt(b, s, i + |a|)
  {
    assert s[i..i + |a|] == s[i..i + |a + b|][..|a|];
    assert s[i + |a|..i + |a + b|] == s[i..i + |a + b|][|a|..];
  }

  /** Any number of digits between braces. */
  lemma BracedRead(s: seq<byte>, i: nat, kind: nat, d: seq<Digit>)
    requires Terminated(s) && kind < |KINDS| - 1 && InBase(d, KINDS[kind].1)
    requires StandsAt([BS] + Intro(KINDS[kind].0) + [LBRACE] + Text(d) + [RBRACE], s, i)
    ensures i + 1 < |s| && s[i] == BS
    ensures ReadEscape(s, i) == Escape(Some(Named(ValueOf(Values(d), KINDS[kind].1), KINDS[kind].3)), i + 4 + |d|)
  {
    var (t, base, digits, ucs) := KINDS[kind];
    hide ReadEscape;
    hide NumericEscape;
    hide Text;
    hide Values;
    hide ValueOf;
    hide NumValue;
    hide Named;
    SplitAt(s, i, [BS] + Intro(t) + [LBRACE] + Text(d), [RBRACE]);
    SplitAt(s, i, [BS] + Intro(t) + [LBRACE], Text(d));
    SplitAt(s, i, [BS] + Intro(t), [LBRACE]);
    assert s[i] == s[i..i + 2][0];
    assert s[i + 2] == s[i + 2..i + 3][0] && s[i + 3 + |d|] == s[i + 3 + |d|..i + 4 + |d|][0];
    KindRead(s, i, kind);
    BracedNumber(s, i, Numeric(base, digits, ucs, i + 2), d);
  }

  // ---- A string of pieces ----

  lemma LetterRead(s: seq<byte>, i: nat, k: nat)
    requires Terminated(s) && i + 2 < |s| && k < |LETTERS| && s[i + 1] == Ch(LETTERS[k].0)
    ensures ReadEscape(s, i) == Escape(Some(Byte(LETTERS[k].1)), i + 2)
  {
  }

  lemma ControlRead(s: seq<byte>, i: nat)
    requires Terminated(s) && i + 3 < |s| && s[i + 1] == CARET && s[i + 2] != NUL
    ensures ReadEscape(s, i) == Escape(Some(Byte(ControlOf(s[i + 2]))), i + 3)
  {
  }

  lemma ItselfRead(s: seq<byte>, i: nat)
    requires Terminated(s) && i + 2 < |s| && NumValue(s[i + 1]) == 255 && s[i + 1] != NUL && s[i + 1] != CARET
    ensures ReadEscape(s, i) == Escape(Some(Byte(s[i + 1])), i + 2)
  {
  }

  /** After an escape, the reading goes on behind it. */
  lemma EscapeStep(s: seq<byte>, i: nat, bq: byte, item: Item, next: nat)
    requires Terminated(s) && i + 1 < |s| && next < |s| && s[i] == BS && ReadEscape(s, i) == Escape(Some(item), next)
    ensures Items(s, i, bq) == [item] + Items(s, next, bq) && End(s, i, bq) == End(s, next, bq)
  {
    hide ReadEscape;
  }

  lemma AloneStep(s: seq<byte>, i: nat, bq: byte)
    requires Terminated(s) && i + 1 < |s| && s[i] != BS && s[i] != NUL && s[i] != bq
    ensures Items(s, i, bq) == [Byte(s[i])] + Items(s, i + 1, bq) && End(s, i, bq) == End(s, i + 1, bq)
  {
    hide ReadEscape;
  }

  ghost predicate EscapeAt(p: Piece, s: seq<byte>, i: nat, bq: byte)
    requires p.Valid(bq) && Terminated(s)
  {
    i + 1 < |s| && s[i] == BS && ReadEscape(s, i) == Escape(Some(Names(p, bq)), i + |Show(p, bq)|)
  }

  lemma NumericPiece(p: Piece, s: seq<byte>, i: nat, bq: byte)
    requires p.Valid(bq) && (p.Fixed? || p.Braced?)
    requires Terminated(s) && StandsAt(Show(p, bq), s, i) && i + |Show(p, bq)| < |s|
    ensures EscapeAt(p, s, i, bq)
  {
    hide ReadEscape;
    hide Named;
    hide InBase;
    hide Text;
    hide Values;
    hide ValueOf;
    hide StandsAt;
    match p {
      case Fixed(kind, d) => UnbracedRead(s, i, kind, d);
      case Braced(kind, d) => BracedRead(s, i, kind, d);
    }
  }

  lemma ShortPiece(p: Piece, s: seq<byte>, i: nat, bq: byte)
    requires p.Valid(bq) && (p.Letter? || p.CtrlSeq? || p.Itself?)
    requires Terminated(s) && StandsAt(Show(p, bq), s, i) && i + |Show(p, bq)| < |s|
    ensures EscapeAt(p, s, i, bq)
  {
    var t := Show(p, bq);
    hide ReadEscape;
    hide ControlOf;
    hide NumValue;
    assert s[i] == s[i..i + |t|][0] && s[i + 1] == s[i..i + |t|][1];
    match p {
      case Letter(k) => LetterRead(s, i, k);
      case CtrlSeq(_) =>
        assert s[i + 2] == s[i..i + |t|][2];
        ControlRead(s, i);
      case Itself(_) => ItselfRead(s, i);
    }
  }

  lemma AlonePiece(p: Piece, s: seq<byte>, i: nat, bq: byte)
    requires p.Valid(bq) && p.Alone?
    requires Terminated(s) && StandsAt(Show(p, bq), s, i) && i + |Show(p, bq)| < |s|
    ensures Items(s, i, bq) == [Names(p, bq)] + Items(s, i + |Show(p, bq)|, bq)
    ensures End(s, i, bq) == End(s, i + |Show(p, bq)|, bq)
  {
    hide Items;
    hide End;
    assert s[i] == s[i..i + 1][0];
    AloneStep(s, i, bq);
  }

  /** Every piece is read as what it names, whatever follows it. */
  lemma PieceRead(p: Piece, s: seq<byte>, i: nat, bq: byte)
    requires p.Valid(bq) && Terminated(s) && StandsAt(Show(p, bq), s, i) && i + |Show(p, bq)| < |s|
    ensures Items(s, i, bq) == [Names(p, bq)] + Items(s, i + |Show(p, bq)|, bq)
    ensures End(s, i, bq) == End(s, i + |Show(p, bq)|, bq)
  {
    hide Items;
    hide End;
    hide ReadEscape;
    hide Show;
    hide Names;
    hide StandsAt;
    hide Piece.Valid;
    if p.Alone? {
      AlonePiece(p, s, i, bq);
    } else {
      if p.Fixed? || p.Braced? {
        NumericPiece(p, s, i, bq);
      } else {
        ShortPiece(p, s, i, bq);
      }
      EscapeStep(s, i, bq, Names(p, bq), i + |Show(p, bq)|);
    }
  }

  predicate AllValid(ps: seq<Piece>, quote: byte) {
    forall k | 0 <= k < |ps| :: ps[k].Valid(quote)
  }

  function ShowAll(ps: seq<Piece>, quote: byte): seq<byte>
    requires AllValid(ps, quote)
  {
    if ps == [] then [] else Show(ps[0], quote) + ShowAll(ps[1..], quote)
  }

  function NamesAll(ps: seq<Piece>, quote: byte): seq<Item>
    requires AllValid(ps, quote)
  {
    if ps == [] then [] else [Names(ps[0], quote)] + NamesAll(ps[1..], quote)
  }

  lemma {:induction false} PiecesRead(ps: seq<Piece>, s: seq<byte>, i: nat, bq: byte)
    requires AllValid(ps, bq) && Terminated(s) && StandsAt(ShowAll(ps, bq), s, i)
    requires var e := i + |ShowAll(ps, bq)|; e < |s| && s[e] == bq != BS
    ensures Items(s, i, bq) == NamesAll(ps, bq) && End(s, i, bq) == i + |ShowAll(ps, bq)|
    decreases |ps|
  {
    hide Items;
    hide End;
    hide Show;
    hide Names;
    hide StandsAt;
    hide Piece.Valid;
    if ps == [] {
      AtQuote(s, i, bq);
    } else {
      SplitAt(s, i, Show(ps[0], bq), ShowAll(ps[1..], bq));
      PieceRead(ps[0], s, i, bq);
      PiecesRead(ps[1..], s, i + |Show(ps[0], bq)|, bq);
    }
  }

  lemma AtQuote(s: seq<byte>, i: nat, bq: byte)
    requires Terminated(s) && i < |s| && s[i] == bq != BS
    ensures Items(s, i, bq) == [] && End(s, i, bq) == i
  {
  }

  /** A string of pieces, with anything behind the closing quote, means what they name. */
  lemma WrittenMeans(ps: seq<Piece>, quote: byte, rest: seq<byte>)
    requires AllValid(ps, quote) && (quote == BQ || quote == DQ)
    ensures Meaning([quote] + ShowAll(ps, quote) + [quote] + rest + [NUL], quote)
            == (NamesAll(ps, quote), 1 + |ShowAll(ps, quote)|)
  {
    hide Items;
    hide End;
    hide ShowAll;
    hide NamesAll;
    var t := ShowAll(ps, quote);
    var s := [quote] + t + [quote] + rest + [NUL];
    assert s[1..1 + |t|] == t && s[1 + |t|] == quote;
    PiecesRead(ps, s, 1, quote);
  }

  // ---- Every number has its escapes ----

  /** Digits in the case that `upper` says of each. */
  function Cased(d: seq<nat>, upper: nat -> bool): (r: seq<Digit>)
    ensures |r| == |d|
  {
    seq(|d|, k requires 0 <= k < |d| => Digit(d[k], upper(k)))
  }

  /** A number in exactly the digits of the escape, or in as few as it takes between braces;
      both name it. */
  lemma NumberWritten(v: nat, kind: nat, upper: nat -> bool, quote: byte)
    requires kind < |KINDS|
    ensures v < Power(KINDS[kind].1, KINDS[kind].2)
            ==> var p := Fixed(kind, Cased(Padded(v, KINDS[kind].1, KINDS[kind].2), upper));
                p.Valid(quote) && Names(p, quote) == Named(v, KINDS[kind].3)
    ensures kind < |KINDS| - 1
            ==> var p := Braced(kind, Cased(DigitsOf(v, KINDS[kind].1), upper));
                p.Valid(quote) && Names(p, quote) == Named(v, KINDS[kind].3)
  {
    hide Padded;
    hide DigitsOf;
    hide ValueOf;
    hide Power;
    hide Named;
    var (_, base, n, _) := KINDS[kind];
    if v < Power(base, n) {
      PaddedDigits(v, base, n);
      PaddedValue(v, base, n);
      assert Values(Cased(Padded(v, base, n), upper)) == Padded(v, base, n);
    }
    DigitsValue(v, base);
    assert Values(Cased(DigitsOf(v, base), upper)) == DigitsOf(v, base);
  }

  // ---- Invalid escapes ----

  /** A letter without digits is read as if there were no backslash. */
  lemma NoDigitsRead(s: seq<byte>, i: nat, kind: nat, bq: byte)
    requires Terminated(s) && kind < |KINDS| - 1 && StandsAt([BS] + Intro(KINDS[kind].0), s, i) && i + 2 < |s|
    requires NumValue(s[i + 2]) >= KINDS[kind].1 && s[i + 2] != LBRACE
    ensures Items(s, i, bq) == Items(s, i + 1, bq) && End(s, i, bq) == End(s, i + 1, bq)
  {
    assert s[i] == s[i..i + 2][0];
    KindRead(s, i, kind);
    hide NumericEscape;
    hide NumValue;
    assert ReadEscape(s, i) == Escape(None, i + 1);
  }

  /** So is one whose brace is not closed behind the digits. */
  lemma UnclosedRead(s: seq<byte>, i: nat, kind: nat, d: seq<Digit>, bq: byte)
    requires Terminated(s) && kind < |KINDS| - 1 && InBase(d, KINDS[kind].1)
    requires StandsAt([BS] + Intro(KINDS[kind].0) + [LBRACE] + Text(d), s, i) && i + 3 + |d| < |s|
    requires var c := s[i + 3 + |d|]; NumValue(c) >= KINDS[kind].1 && c != RBRACE
    ensures Items(s, i, bq) == Items(s, i + 1, bq) && End(s, i, bq) == End(s, i + 1, bq)
  {
    var (t, base, digits, ucs) := KINDS[kind];
    hide NumericEscape;
    hide NumValue;
    hide Text;
    hide ReadDigits;
    hide Continued;
    SplitAt(s, i, [BS] + Intro(t) + [LBRACE], Text(d));
    SplitAt(s, i, [BS] + Intro(t), [LBRACE]);
    assert s[i] == s[i..i + 2][0] && s[i + 2] == s[i + 2..i + 3][0];
    KindRead(s, i, kind);
    DigitsRead(s, i + 3, d, base, |s|, 0);
    assert ReadEscape(s, i) == Escape(None, i + 1);
  }

  // ---- The bytes ----

  function Bytes(items: seq<Item>): seq<byte> {
    if items == [] then [] else Bytes(items[..|items| - 1]) + items[|items| - 1].bytes
  }

  lemma {:induction false} AllOutput(items: seq<Item>)
    ensures Output(items, {}) == Bytes(items)
  {
    if items != [] {
      AllOutput(items[..|items| - 1]);
      assert {} * Codes(items) == {};
    }
  }

  /** The reader leaves the bytes of the pieces in the buffer. */
  method UnquoteWritten(str: array<byte>, ghost ps: seq<Piece>, quote: byte, ghost rest: seq<byte>)
    returns (len: nat, ep: nat)
    requires AllValid(ps, quote) && (quote == BQ || quote == DQ)
    requires str[..] == [quote] + ShowAll(ps, quote) + [quote] + rest + [NUL]
    modifies str
    ensures ep == 1 + |ShowAll(ps, quote)| && len < ep < str.Length
    ensures str[..len] == Bytes(NamesAll(ps, quote)) && str[len] == NUL
  {
    WrittenMeans(ps, quote, rest);
    AllOutput(NamesAll(ps, quote));
    var bad;
    len, ep, bad := UnquoteAnystr(str, {}, quote);
  }
}
