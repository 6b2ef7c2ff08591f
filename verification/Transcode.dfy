/** The string functions that turn UTF-8 into UTF-16 and UTF-32. */
module Transcode {
  import opened Basics
  import opened Utf8

  /** The four functions; they differ in the units they emit and in the values they take. */
  datatype Form = Utf16Le | Utf16Be | Utf32Le | Utf32Be

  predicate Surrogate(v: nat) {
    0xd800 <= v <= 0xdfff
  }

  predicate Wide(form: Form) {
    form.Utf32Le? || form.Utf32Be?
  }

  /** The code points that a form takes: Unicode scalar values, or for UTF-32 all 31-bit
      values but surrogates. */
  predicate Admitted(form: Form, v: nat) {
    !Surrogate(v) && v < if Wide(form) then 0x8000_0000 else 0x11_0000
  }

  predicate AllAdmitted(form: Form, points: seq<nat>) {
    forall k | 0 <= k < |points| :: Admitted(form, points[k])
  }

  /** The UTF-8 form of a sequence of code points. */
  function Encoded(points: seq<nat>): seq<byte>
    requires forall k | 0 <= k < |points| :: points[k] < TWO32
  {
    if points == [] then [] else Encode(points[0]) + Encoded(points[1..])
  }

  // ---- Units ----

  function Be16(v: nat): seq<byte> {
    [v / 256 % 256, v % 256]
  }

  function Be32(v: nat): seq<byte> {
    [v / 0x100_0000 % 256, v / 0x1_0000 % 256, v / 256 % 256, v % 256]
  }

  function High(v: nat): nat
    requires v > 0xffff
  {
    0xd800 + (v - 0x1_0000) / 0x400
  }

  function Low(v: nat): nat
    requires v > 0xffff
  {
    0xdc00 + (v - 0x1_0000) % 0x400
  }

  /** The two halves are surrogates of their kinds, and give the value back. */
  lemma SurrogatesReadBack(v: nat)
    requires 0xffff < v < 0x11_0000
    ensures 0xd800 <= High(v) < 0xdc00 <= Low(v) < 0xe000
    ensures v == 0x1_0000 + (High(v) - 0xd800) * 0x400 + (Low(v) - 0xdc00)
  {
  }

  /** The bytes of a code point, after section 2 of RFC 2781. */
  function Units(form: Form, v: nat): seq<byte> {
    match form
    case Utf16Le => if v > 0xffff then Le16(High(v)) + Le16(Low(v)) else Le16(v)
    case Utf16Be => if v > 0xffff then Be16(High(v)) + Be16(Low(v)) else Be16(v)
    case Utf32Le => Le32(v)
    case Utf32Be => Be32(v)
  }

  function Word16(form: Form, a: byte, b: byte): nat {
    if form.Utf16Be? then 256 * (a as nat) + b as nat else a as nat + 256 * (b as nat)
  }

  /** What a standard reader makes of the units of one code point. */
  function ReadUnits(form: Form, s: seq<byte>): Option<nat> {
    match form
    case Utf32Le =>
      if |s| == 4 then Some(s[0] as nat + 256 * (s[1] as nat + 256 * (s[2] as nat + 256 * (s[3] as nat)))) else None
    case Utf32Be =>
      if |s| == 4 then Some(s[3] as nat + 256 * (s[2] as nat + 256 * (s[1] as nat + 256 * (s[0] as nat)))) else None
    case _ =>
      if |s| == 2 then
        var w := Word16(form, s[0], s[1]);
        if Surrogate(w) then None else Some(w)
      else if |s| == 4 then
        var h, l := Word16(form, s[0], s[1]), Word16(form, s[2], s[3]);
        if 0xd800 <= h < 0xdc00 <= l < 0xe000 then Some(0x1_0000 + (h - 0xd800) * 0x400 + (l - 0xdc00)) else None
      else None
  }

  /** The bytes that are emitted: for UTF-16BE the surrogates are in the wrong order. */
  function Emitted(form: Form, v: nat): seq<byte> {
    if form.Utf16Be? && v > 0xffff then Be16(Low(v)) + Be16(High(v)) else Units(form, v)
  }

  function AllUnits(form: Form, points: seq<nat>): seq<byte> {
    if points == [] then [] else Units(form, points[0]) + AllUnits(form, points[1..])
  }

  function AllEmitted(form: Form, points: seq<nat>): seq<byte> {
    if points == [] then [] else Emitted(form, points[0]) + AllEmitted(form, points[1..])
  }

  // ---- The scan ----

  predicate Rejected(form: Form, v: nat, vmin: nat) {
    v < vmin || Surrogate(v) || (!Wide(form) && v > 0x10_ffff)
  }

  function Prepend(v: nat, rest: Option<seq<nat>>): Option<seq<nat>> {
    if rest.None? then None else Some([v] + rest.value)
  }

  /** The code points from a state in which `due` more bytes must come; none if
      the string is rejected. */
  function Scan(form: Form, s: seq<byte>, due: nat, v: nat, vmin: nat): Option<seq<nat>> {
    if s == [] then if due == 0 then Some([]) else None
    else
      var c: nat, rest := s[0], s[1..];
      if due > 0 then
        if c / 64 != 2 then None
        else
          var w := v * 64 % TWO32 + c % 64;
          if due > 1 then Scan(form, rest, due - 1, w, vmin)
          else if Rejected(form, w, vmin) then None
          else Prepend(w, Scan(form, rest, 0, w, vmin))
      else if c < 0x80 then Prepend(c, Scan(form, rest, 0, v, vmin))
      else if c < 0xc0 || c >= 0xfe then None
      else Scan(form, rest, Due(c), c % LeadRange(Due(c)), Least(Due(c)))
  }

  /** The continuation bytes after a lead byte. */
  function Due(c: nat): (k: nat)
    ensures 1 <= k <= 5
  {
    if c < 0xe0 then 1 else if c < 0xf0 then 2 else if c < 0xf8 then 3 else if c < 0xfc then 4 else 5
  }

  function LeadRange(k: nat): (n: nat)
    ensures n > 0
  {
    if k == 1 then 32 else if k == 2 then 16 else if k == 3 then 8 else if k == 4 then 4 else 2
  }

  function Least(k: nat): nat {
    if k == 1 then 0x80 else if k == 2 then 0x800 else if k == 3 then 0x1_0000 else if k == 4 then 0x20_0000
    else 0x400_0000
  }

  function Decode(form: Form, s: seq<byte>): Option<seq<nat>> {
    Scan(form, s, 0, 0, 0)
  }

  // ---- The scan inverts the encoding ----

  function Shifted(v: nat, k: nat): nat {
    if k == 0 then v else Shifted(v, k - 1) / 64
  }

  /** The last `k` continuation bytes of a code point. */
  function LastTails(v: nat, k: nat): (s: seq<byte>)
    ensures |s| == k
  {
    if k == 0 then [] else [Tail(Shifted(v, k - 1))] + LastTails(v, k - 1)
  }

  function Lead(k: nat): nat {
    if k == 1 then 0xc0 else if k == 2 then 0xe0 else if k == 3 then 0xf0 else if k == 4 then 0xf8 else 0xfc
  }

  /** The number of continuation bytes of a code point. */
  function TailsOf(v: nat): (k: nat)
    ensures k <= 5
  {
    if v < 0x80 then 0 else if v < 0x800 then 1 else if v < 0x1_0000 then 2 else if v < 0x20_0000 then 3
    else if v < 0x400_0000 then 4 else 5
  }

  lemma EncodeParts(v: nat)
    requires 0x80 <= v < 0x8000_0000
    ensures var k := TailsOf(v);
      && k >= 1 && v >= Least(k) && Shifted(v, k) < LeadRange(k)
      && Encode(v) == [Lead(k) + Shifted(v, k)] + LastTails(v, k)
  {
    var a := v / 64;
    var b := a / 64;
    var c := b / 64;
    var d := c / 64;
    assert b == v / 0x1000 && c == v / 0x4_0000 && d == v / 0x100_0000 && d / 64 == v / 0x4000_0000;
    assert Shifted(v, 0) == v && Shifted(v, 1) == a && Shifted(v, 2) == b && Shifted(v, 3) == c;
    assert Shifted(v, 4) == d && Shifted(v, 5) == d / 64;
    assert LastTails(v, 1) == [Tail(v)] && LastTails(v, 2) == [Tail(a)] + LastTails(v, 1);
    assert LastTails(v, 3) == [Tail(b)] + LastTails(v, 2) && LastTails(v, 4) == [Tail(c)] + LastTails(v, 3);
    assert LastTails(v, 5) == [Tail(d)] + LastTails(v, 4);
  }

  /** Values below this stay 31-bit numbers when `k` more bytes are shifted in. */
  function Cap(k: nat): nat
    requires k <= 5
  {
    if k == 0 then 0x8000_0000 else if k == 1 then 0x200_0000 else if k == 2 then 0x8_0000
    else if k == 3 then 0x2000 else if k == 4 then 0x80 else 2
  }

  lemma {:induction false} ShiftedCap(v: nat, k: nat)
    requires v < 0x8000_0000 && k <= 5
    ensures Shifted(v, k) < Cap(k)
  {
    if k > 0 {
      ShiftedCap(v, k - 1);
    }
  }

  /** One continuation byte. */
  lemma TailScans(form: Form, c: byte, rest: seq<byte>, k: nat, v: nat, vmin: nat)
    requires k > 0 && c / 64 == 2
    ensures var w := v * 64 % TWO32 + c as int % 64;
      Scan(form, [c] + rest, k, v, vmin)
      == if k > 1 then Scan(form, rest, k - 1, w, vmin)
         else if Rejected(form, w, vmin) then None
         else Prepend(w, Scan(form, rest, 0, w, vmin))
  {
    assert ([c] + rest)[1..] == rest;
  }

  /** The continuation bytes of a code point complete it. */
  lemma {:induction false} TailsComplete(form: Form, v: nat, k: nat, vmin: nat, rest: seq<byte>)
    requires v < 0x8000_0000 && 1 <= k <= 5 && !Rejected(form, v, vmin)
    ensures Scan(form, LastTails(v, k) + rest, k, Shifted(v, k), vmin) == Prepend(v, Scan(form, rest, 0, v, vmin))
  {
    hide Rejected;
    hide Scan;
    var u := Shifted(v, k - 1);
    assert LastTails(v, k) + rest == [Tail(u)] + (LastTails(v, k - 1) + rest);
    ShiftedCap(v, k);
    assert Shifted(v, k) * 64 % TWO32 + Tail(u) % 64 == u;
    TailScans(form, Tail(u), LastTails(v, k - 1) + rest, k, Shifted(v, k), vmin);
    if k > 1 {
      TailsComplete(form, v, k - 1, vmin, rest);
    } else {
      assert LastTails(v, 0) + rest == rest;
    }
  }

  /** With no bytes due the rest of the state does not matter. */
  lemma IdleState(form: Form, s: seq<byte>, v: nat, vmin: nat)
    ensures Scan(form, s, 0, v, vmin) == Decode(form, s)
    decreases |s|
  {
    if s != [] && s[0] < 0x80 {
      IdleState(form, s[1..], v, vmin);
    }
  }

  lemma FirstDecodes(form: Form, v: nat, rest: seq<byte>)
    requires Admitted(form, v)
    ensures Decode(form, Encode(v) + rest) == Prepend(v, Decode(form, rest))
  {
    if v < 0x80 {
      var s := Encode(v) + rest;
      assert s[0] == v && s[1..] == rest;
    } else {
      EncodeParts(v);
      LongDecodes(form, v, TailsOf(v), Encode(v), rest);
    }
  }

  lemma LongDecodes(form: Form, v: nat, k: nat, e: seq<byte>, rest: seq<byte>)
    requires Admitted(form, v) && 1 <= k <= 5 && Least(k) <= v && Shifted(v, k) < LeadRange(k)
    requires e == [Lead(k) + Shifted(v, k)] + LastTails(v, k)
    ensures Decode(form, e + rest) == Prepend(v, Decode(form, rest))
  {
    var s := e + rest;
    assert s[1..] == LastTails(v, k) + rest;
    LeadReads(form, s, k, Shifted(v, k));
    TailsComplete(form, v, k, Least(k), rest);
    IdleState(form, rest, v, Least(k));
  }

  lemma LeadReads(form: Form, s: seq<byte>, k: nat, u: nat)
    requires 1 <= k <= 5 && u < LeadRange(k) && s != [] && s[0] == Lead(k) + u
    ensures Decode(form, s) == Scan(form, s[1..], k, u, Least(k))
  {
    assert Due(Lead(k) + u) == k && (Lead(k) + u) % LeadRange(k) == u;
  }

  /** Every sequence of admitted code points is read back from its UTF-8 form. */
  lemma {:induction false} EncodedDecodes(form: Form, points: seq<nat>)
    requires AllAdmitted(form, points)
    ensures Decode(form, Encoded(points)) == Some(points)
  {
    if points != [] {
      EncodedDecodes(form, points[1..]);
      FirstDecodes(form, points[0], Encoded(points[1..]));
      assert [points[0]] + points[1..] == points;
    }
  }

  /** A completed code point was made of the bytes that were read. */
  lemma {:induction false} TailsSound(form: Form, s: seq<byte>, k: nat, v: nat, vmin: nat, points: seq<nat>)
    requires 1 <= k <= 5 && v < Cap(k) && Scan(form, s, k, v, vmin) == Some(points)
    ensures |s| >= k && points != [] && points[0] < 0x8000_0000 && Shifted(points[0], k) == v
    ensures s[..k] == LastTails(points[0], k) && !Rejected(form, points[0], vmin)
    ensures Decode(form, s[k..]) == Some(points[1..])
  {
    var w := v * 64 % TWO32 + s[0] % 64;
    assert w / 64 == v && w % 64 == s[0] % 64 && w < Cap(k - 1);
    if k > 1 {
      TailsSound(form, s[1..], k - 1, w, vmin, points);
      assert s[..k] == [s[0]] + s[1..][..k - 1];
      assert s[1..][k - 1..] == s[k..];
    } else {
      IdleState(form, s[1..], w, vmin);
      assert s[..1] == [s[0]];
      assert Shifted(w, 0) == w && LastTails(w, 0) == [];
    }
  }

  lemma FirstSound(form: Form, s: seq<byte>, points: seq<nat>)
    requires Decode(form, s) == Some(points) && s != []
    ensures points != [] && Admitted(form, points[0])
    ensures var n := |Encode(points[0])|; n <= |s| && s == Encode(points[0]) + s[n..] && Decode(form, s[n..]) == Some(points[1..])
  {
    hide LastTails;
    hide Tail;
    var c: nat := s[0];
    if c < 0x80 {
      assert s == [c] + s[1..];
    } else {
      var k := Due(c);
      TailsSound(form, s[1..], k, c % LeadRange(k), Least(k), points);
      var p := points[0];
      assert TailsOf(p) == k && c == Lead(k) + Shifted(p, k) by {
        LeadSplits(c);
        WhichTails(p, k);
      }
      EncodeParts(p);
      assert s[1..][..k] == s[1..k + 1] && s[1..][k..] == s[k + 1..];
      assert s == [c] + s[1..k + 1] + s[k + 1..];
    }
  }

  lemma LeadSplits(c: nat)
    requires 0xc0 <= c < 0xfe
    ensures c == Lead(Due(c)) + c % LeadRange(Due(c))
  {
  }

  lemma WhichTails(v: nat, k: nat)
    requires 1 <= k <= 5 && Least(k) <= v < 0x8000_0000 && Shifted(v, k) < LeadRange(k)
    ensures TailsOf(v) == k
  {
    var a := v / 64;
    var b := a / 64;
    var c := b / 64;
    var d := c / 64;
    assert b == v / 0x1000 && c == v / 0x4_0000 && d == v / 0x100_0000 && d / 64 == v / 0x4000_0000;
    assert Shifted(v, 0) == v && Shifted(v, 1) == a && Shifted(v, 2) == b && Shifted(v, 3) == c;
    assert Shifted(v, 4) == d && Shifted(v, 5) == d / 64;
  }

  lemma {:induction false} DecodedIsEncoded(form: Form, s: seq<byte>, points: seq<nat>)
    requires Decode(form, s) == Some(points)
    ensures AllAdmitted(form, points) && s == Encoded(points)
    decreases |s|
  {
    if s != [] {
      FirstSound(form, s, points);
      DecodedIsEncoded(form, s[|Encode(points[0])|..], points[1..]);
      assert points == [points[0]] + points[1..];
    }
  }

  /** A string is taken exactly if it is the UTF-8 form of admitted code points, and those
      are the ones that are read. */
  lemma DecodeIff(form: Form, s: seq<byte>, points: seq<nat>)
    ensures Decode(form, s) == Some(points) <==> AllAdmitted(form, points) && s == Encoded(points)
  {
    if Decode(form, s) == Some(points) {
      DecodedIsEncoded(form, s, points);
    }
    if AllAdmitted(form, points) {
      EncodedDecodes(form, points);
    }
  }

  // ---- The functions ----

  function Width(form: Form): (w: nat)
    ensures w > 0
  {
    if Wide(form) then 4 else 2
  }

  function UnitBytes(form: Form, x: nat): (s: seq<byte>)
    ensures |s| == Width(form)
  {
    match form
    case Utf16Le => Le16(x)
    case Utf16Be => Be16(x)
    case Utf32Le => Le32(x)
    case Utf32Be => Be32(x)
  }

  /** The buffer after `s` was put out into what was `was`. */
  predicate Holds(op: array<byte>, was: seq<byte>, s: seq<byte>, write: bool)
    reads op
  {
    |was| == op.Length && if write then |s| <= |was| && op[..] == s + was[|s|..] else op[..] == was
  }

  /** Puts out one unit, or only counts it. */
  method Emit(form: Form, x: nat, op: array<byte>, outlen: nat, write: bool, ghost was: seq<byte>, ghost s: seq<byte>)
    returns (outlen2: nat)
    requires Holds(op, was, s, write) && |s| == outlen * Width(form)
    requires write ==> |s| + Width(form) <= op.Length
    modifies op
    ensures Holds(op, was, s + UnitBytes(form, x), write) && outlen2 == outlen + 1
  {
    if write {
      var u := UnitBytes(form, x);
      var q := outlen * Width(form);
      for i := 0 to Width(form)
        invariant forall k | 0 <= k < op.Length :: op[k] == if q <= k < q + i then u[k - q] else (s + was[|s|..])[k]
      {
        op[q + i] := u[i];
      }
    }
    outlen2 := outlen + 1;
  }

  lemma EmittedUnits(form: Form, v: nat)
    ensures Emitted(form, v) ==
      if Wide(form) || v <= 0xffff then UnitBytes(form, v)
      else if form.Utf16Be? then UnitBytes(form, Low(v)) + UnitBytes(form, High(v))
      else UnitBytes(form, High(v)) + UnitBytes(form, Low(v))
  {
  }

  /** Puts out a code point. */
  method EmitPoint(form: Form, v: nat, op: array<byte>, outlen: nat, write: bool, ghost was: seq<byte>, ghost s: seq<byte>)
    returns (outlen2: nat)
    requires Holds(op, was, s, write) && |s| == outlen * Width(form)
    requires write ==> |s + Emitted(form, v)| <= op.Length
    modifies op
    ensures Holds(op, was, s + Emitted(form, v), write) && |s + Emitted(form, v)| == outlen2 * Width(form)
  {
    EmittedUnits(form, v);
    if Wide(form) || v <= 0xffff {
      outlen2 := Emit(form, v, op, outlen, write, was, s);
    } else {
      var first, second := High(v), Low(v);
      if form.Utf16Be? {
        first, second := second, first;
      }
      outlen2 := Emit(form, first, op, outlen, write, was, s);
      ghost var s2 := s + UnitBytes(form, first);
      outlen2 := Emit(form, second, op, outlen2, write, was, s2);
      assert s2 + UnitBytes(form, second) == s + Emitted(form, v);
    }
  }

  lemma {:induction false} EmittedAppend(form: Form, points: seq<nat>, more: seq<nat>)
    ensures AllEmitted(form, points + more) == AllEmitted(form, points) + AllEmitted(form, more)
  {
    if points == [] {
      assert points + more == more;
    } else {
      EmittedAppend(form, points[1..], more);
      assert (points + more)[1..] == points[1..] + more;
      Associate(Emitted(form, points[0]), AllEmitted(form, points[1..]), AllEmitted(form, more));
    }
  }

  lemma Associate(a: seq<byte>, b: seq<byte>, c: seq<byte>)
    ensures a + (b + c) == (a + b) + c
  {
  }

  function After(done: seq<nat>, rest: Option<seq<nat>>): Option<seq<nat>> {
    if rest.None? then None else Some(done + rest.value)
  }

  function Total(form: Form, str: seq<byte>): Option<nat> {
    var d := Decode(form, str);
    if d.None? then None else Some(|AllEmitted(form, d.value)|)
  }

  lemma EmittedNext(form: Form, str: seq<byte>, done: seq<nat>, v: nat, rest: Option<seq<nat>>)
    requires Decode(form, str) == After(done, Prepend(v, rest))
    ensures Decode(form, str) == After(done + [v], rest)
    ensures AllEmitted(form, done + [v]) == AllEmitted(form, done) + Emitted(form, v)
    ensures Total(form, str).Some? ==> |AllEmitted(form, done + [v])| <= Total(form, str).value
  {
    EmittedAppend(form, done, [v]);
    assert [v][1..] == [];
    if rest.Some? {
      assert done + ([v] + rest.value) == (done + [v]) + rest.value;
      EmittedAppend(form, done + [v], rest.value);
    }
  }

  /** One pass over a string. A pass that only counts returns the length of what a writing
      pass puts out; that one must follow a successful count. */
  method Transform(form: Form, str: seq<byte>, op: array<byte>, write: bool) returns (len: Option<nat>)
    requires write ==> Total(form, str).Some? && Total(form, str).value <= op.Length
    modifies op
    ensures len == Total(form, str)
    ensures !write ==> op[..] == old(op[..])
    ensures write ==> var all := AllEmitted(form, Decode(form, str).value); op[..] == all + old(op[..])[|all|..]
  {
    hide Emitted;
    hide Rejected;
    ghost var was, done: seq<nat> := op[..], [];
    var outlen, due: nat, v: nat, vmin: nat := 0, 0, 0, 0;
    assert str[0..] == str;
    assert Decode(form, str).Some? ==> [] + Decode(form, str).value == Decode(form, str).value;
    for i := 0 to |str|
      invariant Decode(form, str) == After(done, Scan(form, str[i..], due, v, vmin))
      invariant Holds(op, was, AllEmitted(form, done), write) && |AllEmitted(form, done)| == outlen * Width(form)
    {
      var c: nat := str[i];
      ghost var rest := str[i..][1..];
      assert rest == str[i + 1..];
      if due > 0 {
        if c / 64 != 2 {
          return None;
        }
        v := v * 64 % TWO32 + c % 64;
        due := due - 1;
        if due == 0 {
          if Rejected(form, v, vmin) {
            return None;
          }
          EmittedNext(form, str, done, v, Scan(form, rest, 0, v, vmin));
          outlen := EmitPoint(form, v, op, outlen, write, was, AllEmitted(form, done));
          done := done + [v];
        }
      } else if c < 0x80 {
        EmittedNext(form, str, done, c, Scan(form, rest, 0, v, vmin));
        outlen := EmitPoint(form, c, op, outlen, write, was, AllEmitted(form, done));
        done := done + [c];
      } else if c < 0xc0 || c >= 0xfe {
        return None;
      } else {
        due := Due(c);
        v, vmin := c % LeadRange(due), Least(due);
      }
    }
    assert str[|str|..] == [];
    if due > 0 {
      return None;
    }
    assert done + [] == done;
    len := Some(outlen * Width(form));
  }

  /** Counts, allocates and writes; the buffer has a zero at its end. */
  method StringTransform(form: Form, str: seq<byte>) returns (out: Option<array<byte>>)
    ensures out.None? <==> Decode(form, str).None?
    ensures out.Some? ==> fresh(out.value) && out.value[..] == AllEmitted(form, Decode(form, str).value) + [0]
  {
    var none := new byte[0];
    var outlen := Transform(form, str, none, false);
    if outlen.None? {
      return None;
    }
    var buf := new byte[outlen.value + 1];
    buf[outlen.value] := 0;
    var written := Transform(form, str, buf, true);
    out := Some(buf);
  }

  // ---- What comes out ----

  lemma WordRead(form: Form, v: nat)
    requires v < 0x1_0000
    ensures form.Utf16Be? ==> |Be16(v)| == 2 && Word16(form, Be16(v)[0], Be16(v)[1]) == v
    ensures form.Utf16Le? ==> |Le16(v)| == 2 && Word16(form, Le16(v)[0], Le16(v)[1]) == v
  {
  }

  /** Units in the standard form are read back, and so are those that are emitted, but for
      UTF-16BE beyond the basic plane, where no reader accepts them. */
  lemma EmittedReadBack(form: Form, v: nat)
    requires Admitted(form, v)
    ensures ReadUnits(form, Units(form, v)) == Some(v)
    ensures ReadUnits(form, Emitted(form, v)) == if form.Utf16Be? && v > 0xffff then None else Some(v)
  {
    if !Wide(form) {
      if v > 0xffff {
        SurrogatesReadBack(v);
        WordRead(form, High(v));
        WordRead(form, Low(v));
      } else {
        WordRead(form, v);
      }
    } else {
      WideRead(v);
    }
  }

  lemma WideRead(v: nat)
    requires v < TWO32
    ensures ReadUnits(Utf32Le, Le32(v)) == Some(v) && ReadUnits(Utf32Be, Be32(v)) == Some(v)
  {
    Le32Digits(v);
  }

  /** The units are those of the standard form, except for UTF-16BE beyond the basic plane. */
  predicate Standard(form: Form, points: seq<nat>) {
    form.Utf16Be? ==> forall k | 0 <= k < |points| :: points[k] <= 0xffff
  }

  lemma {:induction false} StandardIff(form: Form, points: seq<nat>)
    requires AllAdmitted(form, points)
    ensures AllEmitted(form, points) == AllUnits(form, points) <==> Standard(form, points)
  {
    if points != [] {
      var v, rest := points[0], points[1..];
      StandardIff(form, rest);
      EmittedLengths(form, rest);
      var a, b, c, d := Emitted(form, v), AllEmitted(form, rest), Units(form, v), AllUnits(form, rest);
      assert |a| == |c|;
      if a + b == c + d {
        assert a == (a + b)[..|a|] == (c + d)[..|c|] == c;
        assert b == (a + b)[|a|..] == (c + d)[|c|..] == d;
      }
      SurrogatesDiffer(form, v);
      assert Standard(form, points) <==> (form.Utf16Be? ==> v <= 0xffff) && Standard(form, rest) by {
        assert points == [v] + rest;
      }
    }
  }

  lemma EmittedLengths(form: Form, points: seq<nat>)
    ensures |AllEmitted(form, points)| == |AllUnits(form, points)|
  {
    if points != [] {
      EmittedLengths(form, points[1..]);
    }
  }

  lemma SurrogatesDiffer(form: Form, v: nat)
    requires Admitted(form, v)
    ensures Emitted(form, v) == Units(form, v) <==> (form.Utf16Be? ==> v <= 0xffff)
  {
    if form.Utf16Be? && v > 0xffff {
      assert Be16(Low(v))[0] == Low(v) / 256 && Be16(High(v))[0] == High(v) / 256;
      assert Emitted(form, v)[0] == Be16(Low(v))[0] && Units(form, v)[0] == Be16(High(v))[0];
    }
  }

  /** The whole transform: exactly the UTF-8 forms of admitted code points are taken, and
      what comes out is the standard form of the code points, but for UTF-16BE. */
  lemma TransformMeaning(form: Form, points: seq<nat>)
    requires AllAdmitted(form, points)
    ensures Decode(form, Encoded(points)) == Some(points)
    ensures AllEmitted(form, points) == AllUnits(form, points) <==> Standard(form, points)
  {
    EncodedDecodes(form, points);
    StandardIff(form, points);
  }

  /** The first code point beyond the basic plane comes out with its surrogates swapped. */
  lemma SwappedSurrogates()
    ensures Units(Utf16Be, 0x1_0000) == [0xd8, 0, 0xdc, 0] && Emitted(Utf16Be, 0x1_0000) == [0xdc, 0, 0xd8, 0]
  {
  }
}
