/** The UTF-8 form of 31-bit code points, and its writer. */
module Utf8 {
  import opened Basics

  function Tail(v: nat): byte {
    0x80 + v % 64
  }

  /** The bytes of a code point, after the table in section 2 of RFC 2279; a value of
      2^31 or more gets the lead bytes FE or FF. */
  function Encode(v: nat): (s: seq<byte>)
    requires v < TWO32
    ensures 1 <= |s| <= 6
  {
    if v <= 0x7f then [v]
    else if v <= 0x7ff then [0xc0 + v / 0x40, Tail(v)]
    else if v <= 0xffff then [0xe0 + v / 0x1000, Tail(v / 0x40), Tail(v)]
    else if v <= 0x1f_ffff then [0xf0 + v / 0x4_0000, Tail(v / 0x1000), Tail(v / 0x40), Tail(v)]
    else if v <= 0x3ff_ffff then
      [0xf8 + v / 0x100_0000, Tail(v / 0x4_0000), Tail(v / 0x1000), Tail(v / 0x40), Tail(v)]
    else
      [0xfc + v / 0x4000_0000, Tail(v / 0x100_0000), Tail(v / 0x4_0000), Tail(v / 0x1000), Tail(v / 0x40), Tail(v)]
  }

  /** The buffer with `s` written at `q`. */
  function Written(buf: seq<byte>, q: nat, s: seq<byte>): seq<byte>
    requires q + |s| <= |buf|
  {
    buf[..q] + s + buf[q + |s|..]
  }

  /** Writes the low six bits of each of `vb`, the values shifted right six bits at a
      time, in continuation bytes. */
  method EmitTails(buf: array<byte>, q: nat, vb: seq<nat>) returns (q2: nat)
    requires q + |vb| <= buf.Length
    modifies buf
    ensures q2 == q + |vb|
    ensures buf[..] == Written(old(buf[..]), q, Tails(vb))
  {
    q2 := q;
    for i := 0 to |vb|
      invariant q2 == q + i
      invariant forall k | 0 <= k < buf.Length :: buf[k] == if q <= k < q2 then Tail(vb[k - q]) else old(buf[k])
    {
      buf[q2] := Tail(vb[i]);
      q2 := q2 + 1;
    }
  }

  function Tails(vb: seq<nat>): (s: seq<byte>)
    ensures |s| == |vb|
  {
    seq(|vb|, i requires 0 <= i < |vb| => Tail(vb[i]))
  }

  lemma Quotients(v: nat, a: nat, b: nat, c: nat, d: nat)
    requires a == v / 64 && b == a / 64 && c == b / 64 && d == c / 64
    ensures b == v / 0x1000 && c == v / 0x4_0000 && d == v / 0x100_0000 && d / 64 == v / 0x4000_0000
    ensures (a <= 0x1f <==> v <= 0x7ff) && (b <= 0x0f <==> v <= 0xffff)
    ensures (c <= 0x07 <==> v <= 0x1f_ffff) && (d <= 0x03 <==> v <= 0x3ff_ffff)
  {
  }

  /** What a continuation byte is does not matter here. */
  lemma LongForms(v: nat, a: nat, b: nat, c: nat, d: nat)
    requires 0x7f < v < TWO32 && a == v / 64 && b == a / 64 && c == b / 64 && d == c / 64
    ensures Encode(v) ==
            if a <= 0x1f then [0xc0 + a] + Tails([v])
            else if b <= 0x0f then [0xe0 + b] + Tails([a, v])
            else if c <= 0x07 then [0xf0 + c] + Tails([b, a, v])
            else if d <= 0x03 then [0xf8 + d] + Tails([c, b, a, v])
            else [0xfc + d / 64] + Tails([d, c, b, a, v])
  {
    hide Tail;
    Quotients(v, a, b, c, d);
  }

  /** The lead byte and the values for the continuation bytes, by what is left of `v`
      after each shift. */
  method Split(v: nat) returns (lead: byte, vb: seq<nat>)
    requires v < TWO32
    ensures [lead] + Tails(vb) == Encode(v)
  {
    if v <= 0x7f {
      return v, [];
    }
    var vb1 := v / 64;
    var vb2 := vb1 / 64;
    var vb3 := vb2 / 64;
    var vb4 := vb3 / 64;
    LongForms(v, vb1, vb2, vb3, vb4);
    hide Tails;
    if vb1 <= 0x1f {
      lead, vb := 0xc0 + vb1, [v];
    } else if vb2 <= 0x0f {
      lead, vb := 0xe0 + vb2, [vb1, v];
    } else if vb3 <= 0x07 {
      lead, vb := 0xf0 + vb3, [vb2, vb1, v];
    } else if vb4 <= 0x03 {
      lead, vb := 0xf8 + vb4, [vb3, vb2, vb1, v];
    } else {
      lead, vb := 0xfc + vb4 / 64, [vb4, vb3, vb2, vb1, v];
    }
  }

  /** Writes the UTF-8 form of `v` at `q`. */
  method EmitUtf8(buf: array<byte>, q: nat, v: nat) returns (q2: nat)
    requires v < TWO32 && q + |Encode(v)| <= buf.Length
    modifies buf
    ensures q2 == q + |Encode(v)|
    ensures buf[..] == Written(old(buf[..]), q, Encode(v))
  {
    var lead, vb := Split(v);
    assert |Encode(v)| == 1 + |vb|;
    buf[q] := lead;
    q2 := EmitTails(buf, q + 1, vb);
    assert Encode(v) == [lead] + Tails(vb);
  }

  // ---- Reading it back ----

  /** The lead bytes of each length, the bits they carry, and the least value that needs the
      length: the table in section 2 of RFC 2279. */
  const ROWS: seq<(nat, nat, nat)> :=
    [(0x00, 0x7f, 0), (0xc0, 0xdf, 0x80), (0xe0, 0xef, 0x800), (0xf0, 0xf7, 0x1_0000), (0xf8, 0xfb, 0x20_0000),
     (0xfc, 0xfd, 0x400_0000)]

  /** The value of the lead's payload and the six bits of each byte after it. */
  function Payload(lead: nat, tails: seq<byte>): nat {
    if tails == [] then lead
    else 64 * Payload(lead, tails[..|tails| - 1]) + (tails[|tails| - 1] as int) % 64
  }

  lemma TailRead(lead: nat, tails: seq<byte>, x: nat)
    requires Payload(lead, tails) == x / 64
    ensures Payload(lead, tails + [Tail(x)]) == x
  {
    assert (tails + [Tail(x)])[..|tails|] == tails;
  }

  lemma TailRange(x: nat)
    ensures 0x80 <= Tail(x) <= 0xbf
  {
  }

  /** One byte more after the bytes that read as the rest of the code point. */
  lemma TailsRead(lead: nat, vb: seq<nat>)
    requires vb != [] && lead == vb[0] / 64
    requires forall k | 0 < k < |vb| :: vb[k - 1] == vb[k] / 64
    ensures Payload(lead, Tails(vb)) == vb[|vb| - 1] && forall k | 0 <= k < |vb| :: 0x80 <= Tails(vb)[k] <= 0xbf
    decreases |vb|
  {
    var n := |vb| - 1;
    forall k | 0 <= k < |vb| ensures 0x80 <= Tails(vb)[k] <= 0xbf {
      TailRange(vb[k]);
    }
    hide Tail;
    if n > 0 {
      TailsRead(lead, vb[..n]);
    }
    assert Tails(vb) == Tails(vb[..n]) + [Tail(vb[n])];
    TailRead(lead, Tails(vb[..n]), vb[n]);
  }

  /** The row with the lead byte tells the length; the bits put together are the code point,
      which is too large for the row before. */
  predicate ReadsAs(s: seq<byte>, v: nat) {
    && 1 <= |s| <= 6 && var row := ROWS[|s| - 1];
    && row.0 <= s[0] as int <= row.1 && Payload(s[0] as int - row.0, s[1..]) == v >= row.2
    && forall k | 1 <= k < |s| :: 0x80 <= s[k] <= 0xbf
  }

  lemma RowRead(v: nat, lead: nat, vb: seq<nat>)
    requires 1 <= |vb| <= 5 && var row := ROWS[|vb|]; lead + row.0 <= row.1 && v >= row.2
    requires vb[|vb| - 1] == v && lead == vb[0] / 64 && forall k | 0 < k < |vb| :: vb[k - 1] == vb[k] / 64
    ensures ReadsAs([(ROWS[|vb|].0 + lead) as byte] + Tails(vb), v)
  {
    TailsRead(lead, vb);
    hide Tails;
    hide Payload;
    var s := [(ROWS[|vb|].0 + lead) as byte] + Tails(vb);
    assert s[1..] == Tails(vb);
  }

  /** Every code point of 31 bits is read back from its bytes. */
  lemma EncodeRead(v: nat)
    requires v < 0x8000_0000
    ensures ReadsAs(Encode(v), v)
  {
    hide Tails;
    hide Encode;
    hide ReadsAs;
    if v <= 0x7f {
      AsciiRead(v);
    } else {
      var a := v / 64;
      var b := a / 64;
      var c := b / 64;
      var d := c / 64;
      LongForms(v, a, b, c, d);
      Quotients(v, a, b, c, d);
      if a <= 0x1f {
        RowRead(v, a, [v]);
      } else if b <= 0x0f {
        RowRead(v, b, [a, v]);
      } else if c <= 0x07 {
        RowRead(v, c, [b, a, v]);
      } else if d <= 0x03 {
        RowRead(v, d, [c, b, a, v]);
      } else {
        RowRead(v, d / 64, [d, c, b, a, v]);
      }
    }
  }

  lemma AsciiRead(v: nat)
    requires v <= 0x7f
    ensures ReadsAs(Encode(v), v)
  {
    assert Encode(v)[1..] == [];
  }
}
