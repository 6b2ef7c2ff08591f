/** Packed decimal constants. */
module Bcd {
  import opened Basics
  import opened FloatText

  const PLACES := 18

  function Ten(n: nat): (p: nat)
    ensures p > 0
  {
    if n == 0 then 1 else 10 * Ten(n - 1)
  }

  /** The number of digits in a text with underscores. */
  function DigitCount(t: string): nat {
    if t == "" then 0 else (if t[0] == '_' then 0 else 1) + DigitCount(t[1..])
  }

  /** The value of bytes with two decimal digits each, the low ones first. */
  function BcdValue(s: seq<byte>): int {
    if s == [] then 0
    else BcdValue(s[..|s| - 1]) + Pair(s[|s| - 1]) * Ten(2 * (|s| - 1))
  }

  /** The two digits of a byte, the low one in the low half. */
  function Pair(b: byte): int {
    b as int % 16 + 10 * (b as int / 16)
  }

  lemma PairOf(low: nat, high: nat)
    requires low <= 9 && high <= 9
    ensures Pair(low + 16 * high) == low + 10 * high
  {
    ModUnique(low + 16 * high, 16, high, low);
  }

  /** A digit in front counts for its place. */
  lemma {:induction false} DecimalFront(c: char, t: string)
    requires DecimalText([c] + t)
    ensures DecimalText(t)
    ensures DigitCount([c] + t) == DigitCount(t) + (if c == '_' then 0 else 1)
    ensures Decimal([c] + t) == Decimal(t) + (if c == '_' then 0 else (c as int - '0' as int) * Ten(DigitCount(t)))
  {
    assert ([c] + t)[1..] == t && ([c] + t)[0] == c;
    assert forall k | 0 <= k < |t| :: t[k] == ([c] + t)[k + 1];
    if t == "" {
      assert ([c] + t)[..0] == "";
    } else {
      var n := |t| - 1;
      assert ([c] + t)[..n + 1] == [c] + t[..n];
      DecimalFront(c, t[..n]);
      CountLast(t);
      if c != '_' && t[n] != '_' {
        Shift(Decimal(t[..n]), c as int - '0' as int, Ten(DigitCount(t[..n])));
      }
    }
  }

  lemma Shift(v: int, c: int, p: int)
    ensures (v + c * p) * 10 == v * 10 + c * (10 * p)
  {
  }

  lemma {:induction false} CountLast(t: string)
    requires t != ""
    ensures DigitCount(t) == DigitCount(t[..|t| - 1]) + (if t[|t| - 1] == '_' then 0 else 1)
  {
    if |t| > 1 {
      CountLast(t[1..]);
      assert t[1..][..|t| - 2] == t[..|t| - 1][1..];
    } else {
      assert t[1..] == "" && t[..0] == "";
    }
  }

  /** What the bytes and a pending digit say about the digits `u` read so far. */
  ghost predicate Written(u: string, result: seq<byte>, n: nat, tv: int) {
    && DecimalText(u) && |result| == (if n < 9 then n else 9) && -1 <= tv <= 9
    && DigitCount(u) == 2 * n + (if tv >= 0 then 1 else 0)
    && 0 <= BcdValue(result) < Ten(2 * |result|)
    && if n < 9 then Decimal(u) == BcdValue(result) + (if tv >= 0 then tv * Ten(2 * n) else 0)
       else Decimal(u) % Ten(PLACES) == BcdValue(result)
  }

  /** A byte with two more digits on top. */
  lemma Append(result: seq<byte>, b: byte, low: nat, high: nat)
    requires b as int == low + 16 * high && low <= 9 && high <= 9 && 0 <= BcdValue(result) < Ten(2 * |result|)
    ensures BcdValue(result + [b]) == BcdValue(result) + (low + 10 * high) * Ten(2 * |result|)
    ensures 0 <= BcdValue(result + [b]) < Ten(2 * (|result| + 1))
  {
    PairOf(low, high);
    assert (result + [b])[..|result|] == result;
    PairBound(BcdValue(result), Pair(b), Ten(2 * |result|));
    assert Ten(2 * |result| + 2) == 10 * Ten(2 * |result| + 1);
  }

  lemma PairBound(v: int, d: int, p: int)
    requires 0 <= v < p && 0 <= d <= 99
    ensures 0 <= v + d * p < 100 * p
  {
    MulMonotone(p, 0, d);
    MulMonotone(p, d, 99);
  }

  /** Places from the nineteenth on do not count. */
  lemma {:induction false} HighPlaces(v: int, c: int, k: nat)
    requires k >= PLACES
    ensures (v + c * Ten(k)) % Ten(PLACES) == v % Ten(PLACES)
  {
    TenSplit(k);
    ModMultiple(v, c, Ten(PLACES), Ten(k - PLACES));
  }

  lemma ModMultiple(v: int, c: int, w: int, q: int)
    requires w > 0
    ensures (v + c * (w * q)) % w == v % w
  {
    assert v == w * (v / w) + v % w;
    assert c * (w * q) == w * (c * q);
    ModUnique(v + c * (w * q), w, v / w + c * q, v % w);
  }

  lemma {:induction false} TenSplit(k: nat)
    requires k >= PLACES
    ensures Ten(k) == Ten(PLACES) * Ten(k - PLACES)
  {
    if k > PLACES {
      TenSplit(k - 1);
      Tenfold(Ten(PLACES), Ten(k - 1 - PLACES));
    }
  }

  lemma Tenfold(w: int, q: int)
    ensures 10 * (w * q) == w * (10 * q)
  {
  }

  /** The next digit to the left, waiting for its partner. */
  lemma Pending(u: string, c: char, result: seq<byte>, n: nat)
    requires Written(u, result, n, -1) && '0' <= c <= '9'
    ensures Written([c] + u, result, n, c as int - '0' as int)
  {
    hide DecimalText;
    hide BcdValue;
    hide Decimal;
    hide Ten;
    hide DigitCount;
    FrontText(u, c);
    DecimalFront(c, u);
    if n >= 9 {
      HighPlaces(Decimal(u), c as int - '0' as int, DigitCount(u));
    }
  }

  lemma FrontText(u: string, c: char)
    requires DecimalText(u) && ('0' <= c <= '9' || c == '_')
    ensures DecimalText([c] + u)
  {
  }

  /** The partner of a waiting digit. */
  lemma Paired(u: string, c: char, result: seq<byte>, n: nat, tv: int)
    requires Written(u, result, n, tv) && tv >= 0 && '0' <= c <= '9'
    ensures var b := tv + 16 * (c as int - '0' as int);
      Written([c] + u, if n < 9 then result + [b] else result, n + 1, -1)
  {
    hide DecimalText;
    hide BcdValue;
    hide Decimal;
    hide Ten;
    hide DigitCount;
    FrontText(u, c);
    DecimalFront(c, u);
    if n < 9 {
      PairedLow(u, c, result, n, tv);
    } else {
      HighPlaces(Decimal(u), c as int - '0' as int, DigitCount(u));
    }
  }

  lemma PairedLow(u: string, c: char, result: seq<byte>, n: nat, tv: int)
    requires Written(u, result, n, tv) && tv >= 0 && '0' <= c <= '9' && n < 9
    requires DecimalText([c] + u) && Decimal([c] + u) == Decimal(u) + (c as int - '0' as int) * Ten(DigitCount(u))
    ensures var b := tv + 16 * (c as int - '0' as int);
      && |result + [b]| == n + 1 && 0 <= BcdValue(result + [b]) < Ten(2 * (n + 1))
      && Decimal([c] + u) == BcdValue(result + [b]) && Decimal([c] + u) % Ten(PLACES) == BcdValue(result + [b])
  {
    hide DecimalText;
    hide BcdValue;
    hide Decimal;
    var d := c as int - '0' as int;
    Append(result, tv + 16 * d, tv, d);
    PairSum(Decimal(u), BcdValue(result), tv, d, Ten(2 * n), Ten(2 * n + 1), Decimal([c] + u));
    Fits(BcdValue(result + [tv + 16 * d]), n + 1);
  }

  lemma PairSum(v: int, low: int, t: int, d: int, p: int, p10: int, total: int)
    requires v == low + t * p && p10 == 10 * p && total == v + d * p10
    ensures total == low + (t + 10 * d) * p
  {
    assert d * p10 == 10 * d * p;
  }

  /** Reads one character to the left of the digits `u`. */
  method TakeChar(c: char, result: seq<byte>, n: nat, tv: int, ghost u: string)
    returns (ok: bool, result2: seq<byte>, n2: nat, tv2: int)
    requires Written(u, result, n, tv)
    ensures ok <==> '0' <= c <= '9' || c == '_'
    ensures ok ==> Written([c] + u, result2, n2, tv2)
  {
    ok, result2, n2, tv2 := true, result, n, tv;
    if '0' <= c <= '9' {
      if tv < 0 {
        Pending(u, c, result, n);
        tv2 := c as int - '0' as int;
      } else {
        Paired(u, c, result, n, tv);
        if n < 9 {
          result2 := result + [tv + 16 * (c as int - '0' as int)];
        }
        n2, tv2 := n + 1, -1;
      }
    } else if c == '_' {
      FrontText(u, c);
      DecimalFront(c, u);
    } else {
      ok := false;
    }
  }

  /** Nine bytes hold the digits that count. */
  ghost predicate Settled(result: seq<byte>, n: nat, v: int) {
    |result| == (if n < 9 then n else 9) && 0 <= BcdValue(result) < Ten(2 * |result|)
    && BcdValue(result) == v % Ten(PLACES)
  }

  lemma SettledPending(u: string, result: seq<byte>, n: nat, tv: int)
    requires Written(u, result, n, tv)
    ensures tv < 0 ==> Settled(result, n, Decimal(u))
    ensures tv >= 0 ==> Settled(if n < 9 then result + [tv] else result, n + 1, Decimal(u))
  {
    if n < 9 {
      if tv >= 0 {
        LastDigit(result, tv);
      } else {
        Fits(BcdValue(result), |result|);
      }
    }
  }

  lemma LastDigit(result: seq<byte>, tv: int)
    requires |result| < 9 && 0 <= tv <= 9 && 0 <= BcdValue(result) < Ten(2 * |result|)
    ensures BcdValue(result + [tv]) == BcdValue(result) + tv * Ten(2 * |result|)
    ensures Settled(result + [tv], |result| + 1, BcdValue(result + [tv]))
  {
    Append(result, tv, tv, 0);
    Fits(BcdValue(result + [tv]), |result| + 1);
  }

  /** Fills up with zeros, and adds the sign byte. */
  method Finish(pairs: seq<byte>, n: nat, minus: bool, ghost v: int) returns (result: seq<byte>)
    requires Settled(pairs, n, v)
    ensures |result| == 10 && BcdValue(result[..9]) == v % Ten(PLACES) && result[9] == if minus then 0x80 else 0
  {
    result := pairs;
    var k := n;
    while k < 9
      invariant Settled(result, k, v)
    {
      LastDigit(result, 0);
      result := result + [0];
      k := k + 1;
    }
    ghost var digits := result;
    result := result + [if minus then 0x80 else 0];
    assert result[..9] == digits;
  }

  /** Packs the digits of the text from the right, eighteen of them, and the sign. */
  method ToPackedBcd(t: string, minus: bool) returns (ok: bool, result: seq<byte>)
    ensures ok <==> DecimalText(t)
    ensures ok ==> |result| == 10 && BcdValue(result[..9]) == Decimal(t) % Ten(PLACES)
    ensures ok ==> result[9] == if minus then 0x80 else 0
  {
    result := [];
    var n: nat, tv, p := 0, -1, |t|;
    while p > 0
      invariant 0 <= p <= |t| && Written(t[p..], result, n, tv)
    {
      p := p - 1;
      assert t[p..] == [t[p]] + t[p + 1..];
      ok, result, n, tv := TakeChar(t[p], result, n, tv, t[p + 1..]);
      if !ok {
        return;
      }
    }
    assert t[p..] == t;
    SettledPending(t, result, n, tv);
    if tv >= 0 {
      if n < 9 {
        result := result + [tv];
      }
      n := n + 1;
    }
    result := Finish(result, n, minus, Decimal(t));
    ok := true;
  }

  lemma Fits(w: int, n: nat)
    requires n <= 9 && 0 <= w < Ten(2 * n)
    ensures w % Ten(PLACES) == w
  {
    TenMonotone(2 * n, PLACES);
    ModUnique(w, Ten(PLACES), 0, w);
  }

  lemma {:induction false} TenMonotone(a: nat, b: nat)
    requires a <= b
    ensures Ten(a) <= Ten(b)
  {
    if a < b {
      TenMonotone(a, b - 1);
    }
  }
}
