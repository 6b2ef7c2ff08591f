/** Quoting a byte string, and the way back. */
module Quote {
  import opened Basics
  import opened Unquote

  predicate Printable(c: byte) {
    32 <= c <= 126
  }

  predicate OctalDigit(c: byte) {
    48 <= c <= 55
  }

  /** The letter of a two-character escape, if there is one. */
  function Letter(c: byte): Option<byte> {
    if c == BQ || c == BS then Some(c)
    else if c == 7 then Some(Ch('a'))
    else if c == 8 then Some(Ch('b'))
    else if c == 9 then Some(Ch('t'))
    else if c == 10 then Some(Ch('n'))
    else if c == 11 then Some(Ch('v'))
    else if c == 12 then Some(Ch('f'))
    else if c == 13 then Some(Ch('r'))
    else if c == 27 then Some(Ch('e'))
    else None
  }

  /** Octal digits of a byte: as few as possible, or all three before another digit. */
  function Octal(c: byte, full: bool): (s: seq<byte>)
    ensures 1 <= |s| <= 3
  {
    var last: byte := 48 + c as int % 8;
    if full || c > 63 then [48 + c as int / 64, 48 + c as int / 8 % 8, last]
    else if c > 7 then [48 + c as int / 8, last]
    else [last]
  }

  /** One byte between backquotes; `full` says that an octal digit follows. */
  function Escaped(c: byte, full: bool): (s: seq<byte>)
    ensures 1 <= |s| <= 4
  {
    if Letter(c).Some? then [BS, Letter(c).value]
    else if Printable(c) then [c]
    else [BS] + Octal(c, full)
  }

  predicate OctalNext(str: seq<byte>, i: nat) {
    i + 1 < |str| && OctalDigit(str[i + 1])
  }

  /** The bytes before `i`, escaped. */
  function Body(str: seq<byte>, i: nat): seq<byte>
    requires i <= |str|
  {
    if i == 0 then [] else Body(str, i - 1) + Escaped(str[i - 1], OctalNext(str, i - 1))
  }

  /** Whether quotes `q` will do without escapes. */
  predicate PlainOk(str: seq<byte>, q: byte) {
    forall k | 0 <= k < |str| :: Printable(str[k]) && str[k] != q
  }

  function QuoteOf(str: seq<byte>): seq<byte> {
    if PlainOk(str, SQ) then [SQ] + str + [SQ]
    else if PlainOk(str, DQ) then [DQ] + str + [DQ]
    else [BQ] + Body(str, |str|) + [BQ]
  }

  // ---- The writer ----

  /** Whether a byte can stand between single or double quotes, and how many bytes it takes
      between backquotes. */
  method MeasureByte(c: byte, full: bool) returns (sqOk: bool, dqOk: bool, n: nat)
    ensures (sqOk <==> Printable(c) && c != SQ) && (dqOk <==> Printable(c) && c != DQ) && n == |Escaped(c, full)|
  {
    sqOk, dqOk, n := true, true, 1;
    if c == SQ {
      sqOk := false;
    } else if c == DQ {
      dqOk := false;
    } else if c == BQ || c == BS {
      n := 2;
    } else if c < 32 || c > 126 {
      sqOk, dqOk, n := false, false, 2;
      if !(7 <= c <= 13 || c == 27) {
        var uc := if full then 255 else c;
        if uc > 63 {
          n := n + 1;
        }
        if uc > 7 {
          n := n + 1;
        }
      }
    }
  }

  /** Decides on the quotes, and counts the bytes that backquotes would take. */
  method Measure(str: seq<byte>) returns (sqOk: bool, dqOk: bool, qlen: nat)
    ensures (sqOk <==> PlainOk(str, SQ)) && (dqOk <==> PlainOk(str, DQ))
    ensures qlen == |Body(str, |str|)|
  {
    hide Escaped;
    hide Printable;
    sqOk, dqOk, qlen := true, true, 0;
    for p := 0 to |str|
      invariant (sqOk <==> PlainOk(str[..p], SQ)) && (dqOk <==> PlainOk(str[..p], DQ))
      invariant qlen == |Body(str, p)|
    {
      assert str[..p + 1] == str[..p] + [str[p]];
      var sq, dq, n := MeasureByte(str[p], OctalNext(str, p));
      sqOk, dqOk, qlen := sqOk && sq, dqOk && dq, qlen + n;
    }
    assert str[..|str|] == str;
  }

  /** Writes one byte, escaped. */
  method PutEscaped(nstr: array<byte>, q: nat, c: byte, full: bool) returns (q2: nat)
    requires q + |Escaped(c, full)| <= nstr.Length
    modifies nstr
    ensures q2 == q + |Escaped(c, full)| && nstr[..q2] == old(nstr[..q]) + Escaped(c, full)
  {
    q2 := q;
    if Letter(c).Some? {
      nstr[q2], nstr[q2 + 1] := BS, Letter(c).value;
      q2 := q2 + 2;
    } else if c < 32 || c > 126 {
      var uc := if full then 255 else c;
      nstr[q2] := BS;
      q2 := q2 + 1;
      if uc > 63 {
        nstr[q2] := 48 + c as int / 64;
        q2 := q2 + 1;
      }
      if uc > 7 {
        nstr[q2] := 48 + c as int / 8 % 8;
        q2 := q2 + 1;
      }
      nstr[q2] := 48 + c as int % 8;
      q2 := q2 + 1;
    } else {
      nstr[q2] := c;
      q2 := q2 + 1;
    }
  }

  /** The bodies grow with the text. */
  lemma {:induction false} BodyGrows(str: seq<byte>, i: nat, j: nat)
    requires i <= j <= |str|
    ensures |Body(str, i)| <= |Body(str, j)|
  {
    hide Escaped;
    hide OctalNext;
    if i < j {
      BodyGrows(str, i, j - 1);
    }
  }

  lemma BodyStep(str: seq<byte>, p: nat)
    requires p < |str|
    ensures [BQ] + Body(str, p + 1) == [BQ] + Body(str, p) + Escaped(str[p], OctalNext(str, p))
  {
  }

  /** Between backquotes; the length counted beforehand is the one written. */
  method QuoteEscaped(str: seq<byte>, qlen: nat) returns (nstr: array<byte>, q: nat)
    requires qlen == |Body(str, |str|)|
    ensures fresh(nstr) && q == qlen + 2 < nstr.Length && nstr[..q] == [BQ] + Body(str, |str|) + [BQ]
  {
    nstr := new byte[qlen + 3](_ => 0);
    nstr[0] := BQ;
    q := 1;
    for p := 0 to |str|
      invariant q == 1 + |Body(str, p)| <= 1 + qlen && nstr[..q] == [BQ] + Body(str, p)
    {
      BodyGrows(str, p + 1, |str|);
      BodyStep(str, p);
      q := PutEscaped(nstr, q, str[p], OctalNext(str, p));
    }
    ghost var written := nstr[..q];
    nstr[q] := BQ;
    q := q + 1;
    assert nstr[..q] == written + [BQ];
  }

  /** Quotes a byte string in memory of its own, with a NUL after it. */
  method NasmQuote(str: seq<byte>) returns (nstr: array<byte>, len: nat)
    ensures fresh(nstr) && len < nstr.Length && nstr[..len] == QuoteOf(str) && nstr[len] == NUL
  {
    var sqOk, dqOk, qlen := Measure(str);
    if sqOk || dqOk {
      var q := if sqOk then SQ else DQ;
      nstr := new byte[|str| + 3](_ => 0);
      nstr[0], nstr[|str| + 1] := q, q;
      forall k | 0 <= k < |str| {
        nstr[k + 1] := str[k];
      }
      len := |str| + 2;
      assert nstr[..len] == [q] + str + [q];
    } else {
      nstr, len := QuoteEscaped(str, qlen);
    }
    ghost var written := nstr[..len];
    nstr[len] := NUL;
    assert nstr[..len] == written;
  }

  // ---- And back ----

  /** The text `e` stands at `j`, with something after it. */
  predicate StandsAt(e: seq<byte>, s: seq<byte>, j: nat) {
    j + |e| < |s| && forall k | 0 <= k < |e| :: s[j + k] == e[k]
  }

  /** What a reader at `j` finds: one byte, and then what it finds at `k`. */
  predicate ReadsByte(s: seq<byte>, j: nat, c: byte, k: nat) {
    Terminated(s) && j < |s| && k < |s| && Items(s, j, BQ) == [ByteItem(c)] + Items(s, k, BQ) && End(s, j, BQ) == End(s, k, BQ)
  }

  /** One octal digit is read. */
  lemma DigitStep(s: seq<byte>, j: nat, limit: nat, nval: nat, d: nat)
    requires j < |s| && s[j] as int == 48 + d && d < 8 && limit > 0 && nval < 256
    ensures ReadDigits(s, j, 8, limit, nval) == ReadDigits(s, j + 1, 8, limit - 1, 8 * nval + d)
  {
    TimesIs(nval, 8);
    assert NumValue(s[j]) == d && Accumulate(nval, 8, d) == 8 * nval + d;
  }

  lemma DigitsStop(s: seq<byte>, j: nat, limit: nat, nval: nat)
    requires limit > 0 ==> j < |s| && NumValue(s[j]) >= 8
    ensures ReadDigits(s, j, 8, limit, nval) == Number(nval, j)
  {
  }

  /** Up to three octal digits are read; fewer than three must not be followed by another. */
  lemma DigitsReadBack(s: seq<byte>, j: nat, t: seq<byte>, a: nat, b: nat, d: nat)
    requires a < 4 && b < 8 && d < 8 && StandsAt(t, s, j)
    requires t == [48 + a, 48 + b, 48 + d] || (t == [48 + b, 48 + d] && a == 0) || (t == [48 + d] && a == b == 0)
    requires |t| < 3 ==> NumValue(s[j + |t|]) >= 8
    ensures ReadDigits(s, j, 8, 3, 0) == Number(64 * a + 8 * b + d, j + |t|)
  {
    assert s[j + 0] == t[0] && (|t| > 1 ==> s[j + 1] == t[1]) && (|t| > 2 ==> s[j + 2] == t[2]);
    DigitsStop(s, j + |t|, 3 - |t|, 64 * a + 8 * b + d);
    hide ReadDigits;
    hide NumValue;
    if |t| == 3 {
      ThreeDigits(s, j, a, b, d);
    } else if |t| == 2 {
      TwoDigits(s, j, b, d);
    } else {
      DigitStep(s, j, 3, 0, d);
    }
  }

  lemma TwoDigits(s: seq<byte>, j: nat, b: nat, d: nat)
    requires j + 1 < |s| && b < 8 && d < 8 && s[j] as int == 48 + b && s[j + 1] as int == 48 + d
    ensures ReadDigits(s, j, 8, 3, 0) == ReadDigits(s, j + 2, 8, 1, 8 * b + d)
  {
    hide ReadDigits;
    hide NumValue;
    DigitStep(s, j, 3, 0, b);
    DigitStep(s, j + 1, 2, b, d);
  }

  lemma ThreeDigits(s: seq<byte>, j: nat, a: nat, b: nat, d: nat)
    requires j + 2 < |s| && a < 4 && b < 8 && d < 8
    requires s[j] as int == 48 + a && s[j + 1] as int == 48 + b && s[j + 2] as int == 48 + d
    ensures ReadDigits(s, j, 8, 3, 0) == ReadDigits(s, j + 3, 8, 0, 64 * a + 8 * b + d)
  {
    hide ReadDigits;
    hide NumValue;
    TwoDigits(s, j, a, b);
    DigitStep(s, j + 2, 1, 8 * a + b, d);
  }

  /** The digits of an octal escape. */
  lemma OctalDigits(c: byte, full: bool) returns (a: nat, b: nat, d: nat)
    ensures a < 4 && b < 8 && d < 8 && c as int == 64 * a + 8 * b + d
    ensures var t := Octal(c, full);
      || t == [48 + a, 48 + b, 48 + d]
      || (t == [48 + b, 48 + d] && a == 0 && !full)
      || (t == [48 + d] && a == b == 0 && !full)
  {
    a, b, d := c as int / 64, c as int / 8 % 8, c as int % 8;
  }

  /** An octal escape is read whole. */
  lemma OctalEscape(s: seq<byte>, j: nat, t: seq<byte>, c: byte)
    requires Terminated(s) && StandsAt([BS] + t, s, j) && 1 <= |t| <= 3 && OctalDigit(t[0])
    requires ReadDigits(s, j + 1, 8, 3, 0) == Number(c, j + 1 + |t|)
    ensures ReadEscape(s, j) == Escape(Some(ByteItem(c)), j + 1 + |t|)
  {
    assert s[j + 1] == ([BS] + t)[1] == t[0];
  }

  lemma OctalReadBack(s: seq<byte>, j: nat, c: byte, full: bool, t: seq<byte>)
    requires Terminated(s) && t == Octal(c, full) && StandsAt([BS] + t, s, j)
    requires !full ==> NumValue(s[j + 1 + |t|]) >= 8
    ensures ReadsByte(s, j, c, j + 1 + |t|)
  {
    hide Items;
    hide End;
    hide ReadEscape;
    var a, b, d := OctalDigits(c, full);
    hide Octal;
    forall k | 0 <= k < |t| ensures s[j + 1 + k] == t[k] {
      assert s[j + (k + 1)] == ([BS] + t)[k + 1];
    }
    DigitsReadBack(s, j + 1, t, a, b, d);
    OctalEscape(s, j, t, c);
    assert s[j + 0] == ([BS] + t)[0];
    EscapeStep(s, j, c, j + 1 + |t|);
  }

  /** One step of the reader over an escape. */
  lemma EscapeStep(s: seq<byte>, j: nat, c: byte, k: nat)
    requires Terminated(s) && j + 1 < |s| && s[j] == BS && ReadEscape(s, j) == Escape(Some(ByteItem(c)), k)
    ensures ReadsByte(s, j, c, k)
  {
    EscapeAdvances(s, j);
  }

  lemma LetterReadBack(s: seq<byte>, j: nat, c: byte, l: byte)
    requires Terminated(s) && Letter(c) == Some(l) && StandsAt([BS, l], s, j)
    ensures ReadsByte(s, j, c, j + 2)
  {
    assert s[j + 0] == [BS, l][0] && s[j + 1] == [BS, l][1];
    assert Simple(l) == c && NumericEscape(s, j) == None;
    EscapeStep(s, j, c, j + 2);
  }

  /** An unescaped byte is read as itself. */
  lemma PrintableReadBack(s: seq<byte>, j: nat, c: byte)
    requires Terminated(s) && j + 1 < |s| && s[j] == c && Printable(c) && Letter(c).None?
    ensures ReadsByte(s, j, c, j + 1)
  {
  }

  /** An escaped byte is read back. */
  lemma EscapedReadBack(s: seq<byte>, j: nat, c: byte, full: bool, e: seq<byte>)
    requires Terminated(s) && e == Escaped(c, full) && StandsAt(e, s, j)
    requires !full ==> NumValue(s[j + |e|]) >= 8
    ensures ReadsByte(s, j, c, j + |e|)
  {
    hide Items;
    hide End;
    if Letter(c).Some? {
      LetterReadBack(s, j, c, Letter(c).value);
    } else if Printable(c) {
      assert s[j + 0] == e[0];
      PrintableReadBack(s, j, c);
    } else {
      OctalReadBack(s, j, c, full, Octal(c, full));
    }
  }

  // ---- The pieces of what was written ----

  /** Where the text of a byte starts, after the opening quote. */
  function Start(str: seq<byte>, i: nat): nat
    requires i <= |str|
  {
    1 + |Body(str, i)|
  }

  /** The text before the byte at `i` starts the whole text. */
  lemma {:induction false} BodyPrefix(str: seq<byte>, i: nat, n: nat)
    requires i <= n <= |str|
    ensures Body(str, i) <= Body(str, n)
    decreases n - i
  {
    hide Escaped;
    hide OctalNext;
    if i < n {
      BodyPrefix(str, i, n - 1);
    }
  }

  lemma Inside<T>(a: seq<T>, e: seq<T>, body: seq<T>, front: T, back: seq<T>, s: seq<T>)
    requires a + e <= body && s == [front] + body + back && back != []
    ensures 1 + |a| + |e| < |s| && forall k | 0 <= k < |e| :: s[1 + |a| + k] == e[k]
  {
    forall k | 0 <= k < |e| ensures s[1 + |a| + k] == e[k] {
      assert s[1 + |a| + k] == body[|a| + k] == (a + e)[|a| + k];
    }
  }

  predicate Quoted(str: seq<byte>, s: seq<byte>) {
    s == [BQ] + Body(str, |str|) + [BQ, NUL]
  }

  /** A piece where it was written. */
  lemma PieceStands(str: seq<byte>, i: nat, s: seq<byte>)
    requires i < |str| && Quoted(str, s)
    ensures var e := Escaped(str[i], OctalNext(str, i));
      StandsAt(e, s, Start(str, i)) && Start(str, i + 1) == Start(str, i) + |e|
  {
    BodyPrefix(str, i + 1, |str|);
    Inside(Body(str, i), Escaped(str[i], OctalNext(str, i)), Body(str, |str|), BQ, [BQ, NUL], s);
  }

  lemma QuotedEnd(str: seq<byte>, s: seq<byte>)
    requires Quoted(str, s)
    ensures Terminated(s) && Start(str, |str|) == |s| - 2 && s[|s| - 2] == BQ
  {
  }

  /** The byte after a piece: a quote, or the start of the next one. */
  lemma AfterPiece(str: seq<byte>, i: nat, s: seq<byte>)
    requires i < |str| && !OctalNext(str, i) && Quoted(str, s)
    ensures Start(str, i + 1) < |s| && NumValue(s[Start(str, i + 1)]) >= 8
  {
    QuotedEnd(str, s);
    if i + 1 < |str| {
      PieceStands(str, i + 1, s);
      var e := Escaped(str[i + 1], OctalNext(str, i + 1));
      assert s[Start(str, i + 1) + 0] == e[0];
      FirstByte(str[i + 1], OctalNext(str, i + 1));
    }
  }

  lemma PieceReadBack(str: seq<byte>, i: nat, s: seq<byte>)
    requires i < |str| && Quoted(str, s)
    ensures ReadsByte(s, Start(str, i), str[i], Start(str, i + 1))
  {
    hide Items;
    hide End;
    hide Quoted;
    hide ReadsByte;
    hide Escaped;
    QuotedEnd(str, s);
    PieceStands(str, i, s);
    if !OctalNext(str, i) {
      AfterPiece(str, i, s);
    }
    EscapedReadBack(s, Start(str, i), str[i], OctalNext(str, i), Escaped(str[i], OctalNext(str, i)));
  }

  /** Readings `rs` that end at `es`: each is one byte, and then the next reading. */
  predicate Chained(rs: seq<seq<Item>>, es: seq<nat>, str: seq<byte>) {
    && |rs| == |es| == |str| + 1
    && forall k | 0 <= k < |str| :: rs[k] == [ByteItem(str[k])] + rs[k + 1] && es[k] == es[k + 1]
  }

  lemma {:induction false} ChainReads(rs: seq<seq<Item>>, es: seq<nat>, str: seq<byte>, i: nat)
    requires i <= |str| && Chained(rs, es, str) && rs[|str|] == []
    ensures rs[i] == Plain(str[i..]) && es[i] == es[|str|]
    decreases |str| - i
  {
    if i < |str| {
      ChainReads(rs, es, str, i + 1);
      assert Plain(str[i..]) == [ByteItem(str[i])] + Plain(str[i + 1..]);
    }
  }

  lemma StartInside(str: seq<byte>, i: nat, s: seq<byte>)
    requires i <= |str| && Quoted(str, s)
    ensures 1 <= Start(str, i) < |s| && Terminated(s) && Start(str, 0) == 1
  {
    QuotedEnd(str, s);
    BodyGrows(str, i, |str|);
  }

  /** The readings from the starts of all the pieces. */
  function Readings(str: seq<byte>, s: seq<byte>): (rs: seq<seq<Item>>)
    requires Quoted(str, s)
    ensures |rs| == |str| + 1
  {
    seq(|str| + 1, i requires 0 <= i <= |str| => StartInside(str, i, s); Items(s, Start(str, i), BQ))
  }

  function Ends(str: seq<byte>, s: seq<byte>): (es: seq<nat>)
    requires Quoted(str, s)
    ensures |es| == |str| + 1
  {
    seq(|str| + 1, i requires 0 <= i <= |str| => StartInside(str, i, s); End(s, Start(str, i), BQ))
  }

  lemma ReadingAt(str: seq<byte>, s: seq<byte>, i: nat)
    requires i <= |str| && Quoted(str, s)
    ensures Terminated(s) && Start(str, i) < |s|
    ensures Readings(str, s)[i] == Items(s, Start(str, i), BQ) && Ends(str, s)[i] == End(s, Start(str, i), BQ)
  {
    hide Items;
    hide End;
    StartInside(str, i, s);
  }

  lemma PieceChained(str: seq<byte>, s: seq<byte>, k: nat)
    requires k < |str| && Quoted(str, s)
    ensures Readings(str, s)[k] == [ByteItem(str[k])] + Readings(str, s)[k + 1] && Ends(str, s)[k] == Ends(str, s)[k + 1]
  {
    ReadingAt(str, s, k);
    ReadingAt(str, s, k + 1);
    hide Items;
    hide End;
    hide Start;
    hide Quoted;
    hide Readings;
    hide Ends;
    PieceReadBack(str, k, s);
  }

  /** Reading between the backquotes gives the bytes, up to the closing quote. */
  lemma BodyReadsBack(str: seq<byte>, s: seq<byte>)
    requires Quoted(str, s)
    ensures Terminated(s) && |s| > 1 && Items(s, 1, BQ) == Plain(str) && End(s, 1, BQ) == |s| - 2
  {
    QuotedEnd(str, s);
    EndReadBack(s, |s| - 2);
    ReadingAt(str, s, 0);
    ReadingAt(str, s, |str|);
    hide Items;
    hide End;
    hide Quoted;
    hide Readings;
    hide Ends;
    forall k | 0 <= k < |str|
      ensures Readings(str, s)[k] == [ByteItem(str[k])] + Readings(str, s)[k + 1] && Ends(str, s)[k] == Ends(str, s)[k + 1]
    {
      PieceChained(str, s, k);
    }
    ChainReads(Readings(str, s), Ends(str, s), str, 0);
    assert str[0..] == str;
  }

  lemma EndReadBack(s: seq<byte>, j: nat)
    requires Terminated(s) && j + 2 == |s| && s[j] == BQ
    ensures Items(s, j, BQ) == [] && End(s, j, BQ) == j
  {
  }

  /** A byte that is no octal digit starts with none when it is escaped. */
  lemma FirstByte(c: byte, full: bool)
    requires !OctalDigit(c)
    ensures NumValue(Escaped(c, full)[0]) >= 8
  {
    assert NumValue(BS) == 255;
    var first := Escaped(c, full)[0];
    assert first == if Printable(c) && Letter(c) == None then c else BS;
  }

  /** Plain quotes are read back without change. */
  lemma PlainReadBack(str: seq<byte>, q: byte)
    requires PlainOk(str, q) && q != NUL
    ensures PlainEnd([q] + str + [q, NUL], 1, q) == |str| + 1
  {
    PlainRun([q] + str + [q, NUL], 1, q, |str| + 1);
  }

  lemma {:induction false} PlainRun(s: seq<byte>, i: nat, q: byte, e: nat)
    requires Terminated(s) && i <= e < |s| && s[e] == q && forall k | i <= k < e :: s[k] != NUL && s[k] != q
    ensures PlainEnd(s, i, q) == e
    decreases e - i
  {
    if i < e {
      PlainRun(s, i + 1, q, e);
    }
  }

  lemma {:induction false} PlainOutput(t: seq<byte>)
    ensures Output(Plain(t), {}) == t
  {
    if t != [] {
      var n := |t| - 1;
      PlainOutput(t[..n]);
      assert Plain(t)[..n] == Plain(t[..n]);
      assert t == t[..n] + [t[n]];
    }
  }

  /** For every byte string: unquoting what was quoted gives the string back, and ends at
      the closing quote. */
  lemma QuoteRoundTrip(str: seq<byte>)
    ensures var s := QuoteOf(str) + [NUL]; var (items, end) := Meaning(s, BQ);
      Output(items, {}) == str && end == |QuoteOf(str)| - 1
  {
    var s := QuoteOf(str) + [NUL];
    PlainOutput(str);
    if PlainOk(str, SQ) || PlainOk(str, DQ) {
      var q := if PlainOk(str, SQ) then SQ else DQ;
      assert s == [q] + str + [q, NUL];
      PlainReadBack(str, q);
      assert s[1..|str| + 1] == str;
    } else {
      assert Quoted(str, s);
      BodyReadsBack(str, s);
    }
  }

  lemma {:induction false} BodyPrints(str: seq<byte>, i: nat)
    requires i <= |str|
    ensures forall k | 0 <= k < |Body(str, i)| :: 32 <= Body(str, i)[k] <= 126
  {
    if i > 0 {
      BodyPrints(str, i - 1);
      EscapedPrints(str[i - 1], OctalNext(str, i - 1));
    }
  }

  lemma EscapedPrints(c: byte, full: bool)
    ensures forall k | 0 <= k < |Escaped(c, full)| :: 32 <= Escaped(c, full)[k] <= 126
  {
  }

  /** A quoted string is printable, whatever it quotes; a printable string without single, or
      without double, quotes only gets two characters longer. */
  lemma QuotedPrints(str: seq<byte>)
    ensures forall k | 0 <= k < |QuoteOf(str)| :: 32 <= QuoteOf(str)[k] <= 126
    ensures (forall k | 0 <= k < |str| :: 32 <= str[k] <= 126) && (SQ !in str || DQ !in str)
            ==> |QuoteOf(str)| == |str| + 2
  {
    BodyPrints(str, |str|);
    hide Body;
  }
}
