/** The synchronisation points of the disassembler: a heap in an array, counted from 1. */
module SyncHeap {
  import opened Basics

  type u64 = x: int | 0 <= x < TWO64

  datatype Sync = Sync(pos: u64, length: u64)

  /** What the code takes for expired: the sum wraps around. */
  predicate Expired(e: Sync, position: u64) {
    (e.pos + e.length) % TWO64 <= position
  }

  /** The sum is right exactly if it does not wrap around to a position passed already. */
  lemma ExpiredIff(e: Sync, position: u64)
    ensures (Expired(e, position) <==> e.pos + e.length <= position)
      <==> !(TWO64 <= e.pos + e.length <= TWO64 + position)
  {
    if e.pos + e.length >= TWO64 {
      assert (e.pos + e.length) % TWO64 == e.pos + e.length - TWO64;
    }
  }

  /** An entry of two bytes at the top of the address space is dropped at position 1, which
      it has not passed. */
  lemma WrappedEntry()
    ensures var e := Sync(TWO64 - 1, 2); Expired(e, 1) && !(e.pos + e.length <= 1)
  {
  }

  // ---- Heaps as sequences ----

  /** Ordered below `n`, but for the entry `hole` and its parent. */
  ghost predicate OrderedUp(s: seq<Sync>, n: nat, hole: nat) {
    && n < |s|
    && (forall k | 2 <= k <= n && k != hole :: s[k / 2].pos <= s[k].pos)
    && (forall k | 2 <= k <= n && k / 2 == hole && hole >= 2 :: s[hole / 2].pos <= s[k].pos)
  }

  /** Ordered below `n`, but for the entry `hole` and its children. */
  ghost predicate OrderedDown(s: seq<Sync>, n: nat, hole: nat) {
    && n < |s|
    && (forall k | 2 <= k <= n && k / 2 != hole :: s[k / 2].pos <= s[k].pos)
    && (forall k | 2 <= k <= n && k / 2 == hole && hole >= 2 :: s[hole / 2].pos <= s[k].pos)
  }

  ghost predicate Ordered(s: seq<Sync>, n: nat) {
    n < |s| && forall k | 2 <= k <= n :: s[k / 2].pos <= s[k].pos
  }

  function Swapped(s: seq<Sync>, i: nat, j: nat): seq<Sync>
    requires i < |s| && j < |s|
  {
    s[i := s[j]][j := s[i]]
  }

  function Entries(s: seq<Sync>, n: nat): multiset<Sync>
    requires n < |s|
  {
    multiset(s[1..n + 1])
  }

  lemma EntriesSwapped(s: seq<Sync>, n: nat, i: nat, j: nat)
    requires n < |s| && 1 <= i <= n && 1 <= j <= n
    ensures Entries(Swapped(s, i, j), n) == Entries(s, n)
  {
    var a, b := s[1..n + 1], Swapped(s, i, j)[1..n + 1];
    assert b == a[i - 1 := a[j - 1]][j - 1 := a[i - 1]];
  }

  lemma EntriesNext(s: seq<Sync>, n: nat)
    requires n + 1 < |s|
    ensures Entries(s, n + 1) == Entries(s, n) + multiset{s[n + 1]}
  {
    assert s[1..n + 2] == s[1..n + 1] + [s[n + 1]];
  }

  lemma EntriesSame(s: seq<Sync>, t: seq<Sync>, n: nat)
    requires n < |s| == |t| && forall k | 1 <= k <= n :: s[k] == t[k]
    ensures Entries(s, n) == Entries(t, n)
  {
    assert s[1..n + 1] == t[1..n + 1];
  }

  /** The first entry is a least one. */
  lemma {:induction false} RootLeast(s: seq<Sync>, n: nat, k: nat)
    requires Ordered(s, n) && 1 <= k <= n
    ensures s[1].pos <= s[k].pos
  {
    if k > 1 {
      RootLeast(s, n, k / 2);
    }
  }

  lemma LeastOfAll(s: seq<Sync>, n: nat)
    requires Ordered(s, n) && n >= 1
    ensures s[1] in Entries(s, n) && forall e | e in Entries(s, n) :: s[1].pos <= e.pos
  {
    assert s[1..n + 1][0] == s[1];
    forall e | e in Entries(s, n) ensures s[1].pos <= e.pos {
      var k :| 0 <= k < n && s[1..n + 1][k] == e;
      RootLeast(s, n, k + 1);
    }
  }

  lemma UpStep(s: seq<Sync>, n: nat, i: nat)
    requires OrderedUp(s, n, i) && 2 <= i <= n
    ensures OrderedUp(if s[i / 2].pos > s[i].pos then Swapped(s, i / 2, i) else s, n, i / 2)
  {
    var p := i / 2;
    var t := if s[p].pos > s[i].pos then Swapped(s, p, i) else s;
    forall k | 2 <= k <= n && k != p ensures t[k / 2].pos <= t[k].pos {
      assert k != i ==> s[k / 2].pos <= s[k].pos;
    }
    forall k | 2 <= k <= n && k / 2 == p && p >= 2 ensures t[p / 2].pos <= t[k].pos {
      assert s[p / 2].pos <= s[p].pos;
      assert k != i ==> s[p].pos <= s[k].pos;
    }
  }

  /** The child that the code swaps with, or 0. */
  function Child(s: seq<Sync>, n: nat, i: nat): (j: nat)
    requires n < |s| && 1 <= i && i * 2 <= n
    ensures j == 0 || (j / 2 == i && i < j <= n)
  {
    var j := i * 2;
    if s[j].pos < s[i].pos && (j + 1 > n || s[j + 1].pos > s[j].pos) then j
    else if j + 1 <= n && s[j + 1].pos < s[i].pos then j + 1
    else 0
  }

  lemma DownStep(s: seq<Sync>, n: nat, i: nat)
    requires OrderedDown(s, n, i) && 1 <= i && i * 2 <= n
    ensures var j := Child(s, n, i); if j == 0 then Ordered(s, n) else OrderedDown(Swapped(s, j, i), n, j)
  {
    var j := Child(s, n, i);
    if j == 0 {
      forall k | 2 <= k <= n ensures s[k / 2].pos <= s[k].pos {
        assert k / 2 == i ==> k == i * 2 || k == i * 2 + 1;
      }
    } else {
      var t := Swapped(s, j, i);
      forall k | 2 <= k <= n && k / 2 != j ensures t[k / 2].pos <= t[k].pos {
        assert k / 2 == i ==> k == i * 2 || k == i * 2 + 1;
        assert k == i ==> s[i / 2].pos <= s[j].pos;
        assert k / 2 != i ==> s[k / 2].pos <= s[k].pos;
      }
      forall k | 2 <= k <= n && k / 2 == j ensures t[j / 2].pos <= t[k].pos {
        assert s[j].pos <= s[k].pos;
      }
    }
  }

  /** The last entry takes the place of the first. */
  lemma CutFirst(s: seq<Sync>, n: nat)
    requires Ordered(s, n) && n >= 1
    ensures var t := Swapped(s, n, 1);
      OrderedDown(t, n - 1, 1) && Entries(s, n) == Entries(t, n - 1) + multiset{s[1]}
  {
    var t := Swapped(s, n, 1);
    EntriesSwapped(s, n, n, 1);
    EntriesNext(t, n - 1);
    forall k | 2 <= k <= n - 1 && k / 2 != 1 ensures t[k / 2].pos <= t[k].pos {
      assert s[k / 2].pos <= s[k].pos;
    }
  }

  ghost predicate NotAbove(a: multiset<Sync>, b: multiset<Sync>) {
    forall e, f | e in a && f in b :: e.pos <= f.pos
  }

  ghost predicate AllExpired(m: multiset<Sync>, position: u64) {
    forall e | e in m :: Expired(e, position)
  }

  /** The least entry goes from one multiset to the other. */
  lemma Transfer(all: multiset<Sync>, from: multiset<Sync>, rest: multiset<Sync>, to: multiset<Sync>, first: Sync,
                 position: u64)
    requires all == from + to && AllExpired(to, position) && Expired(first, position)
    requires from == rest + multiset{first} && NotAbove(to, from) && NotAbove(multiset{first}, from)
    ensures var more := to + multiset{first};
      all == rest + more && NotAbove(more, rest) && AllExpired(more, position)
  {
    forall e, f | e in to + multiset{first} && f in rest ensures e.pos <= f.pos {
      assert f in from && (e in to || e in multiset{first});
    }
  }

  lemma NoChildren(s: seq<Sync>, n: nat, i: nat)
    requires OrderedDown(s, n, i) && i * 2 > n
    ensures Ordered(s, n)
  {
  }

  // ---- The heap ----

  class Heap {
    var synx: array<Sync>
    var maxSynx: nat
    var nsynx: nat
    var oom: bool

    constructor (chunk: nat)
      ensures Valid() && Contents() == multiset{} && maxSynx == chunk && fresh(synx)
    {
      synx := new Sync[chunk + 1](_ => Sync(0, 0));
      maxSynx, nsynx, oom := chunk, 0, false;
    }

    ghost predicate Valid()
      reads this, synx
    {
      synx.Length == maxSynx + 1 && nsynx <= maxSynx && Ordered(synx[..], nsynx)
    }

    ghost function Contents(): multiset<Sync>
      reads this, synx
      requires Valid()
    {
      Entries(synx[..], nsynx)
    }

    method Swap(dst: nat, src: nat)
      requires dst < synx.Length && src < synx.Length
      modifies synx
      ensures synx[..] == Swapped(old(synx[..]), dst, src)
    {
      synx[dst], synx[src] := synx[src], synx[dst];
    }

    /** Adds an entry. At capacity the code allocates a bigger array, but never uses it:
        it must be below capacity, or the allocation must fail, when the entry is lost. */
    method AddSync(pos: u64, length: u64, granted: bool)
      requires Valid() && (nsynx < maxSynx || oom || !granted)
      modifies this, synx
      ensures Valid() && synx == old(synx) && maxSynx == old(maxSynx)
      ensures Contents() == old(Contents()) + if old(nsynx) < maxSynx then multiset{Sync(pos, length)} else multiset{}
    {
      hide Entries;
      if nsynx >= maxSynx {
        oom := true;
        return;
      }
      ghost var was := synx[..];
      nsynx := nsynx + 1;
      synx[nsynx] := Sync(pos, length);
      EntriesSame(was, synx[..], nsynx - 1);
      EntriesNext(synx[..], nsynx - 1);
      SiftUp(nsynx);
    }

    /** Moves an entry up while its parent is greater; every level is looked at. */
    method SiftUp(start: nat)
      requires 1 <= start <= nsynx && OrderedUp(synx[..], nsynx, start)
      modifies synx
      ensures Ordered(synx[..], nsynx) && Entries(synx[..], nsynx) == old(Entries(synx[..], nsynx))
    {
      ghost var all := Entries(synx[..], nsynx);
      var i: nat := start;
      while i > 1
        invariant 1 <= i <= nsynx && OrderedUp(synx[..], nsynx, i) && Entries(synx[..], nsynx) == all
      {
        ghost var s := synx[..];
        UpStep(s, nsynx, i);
        EntriesSwapped(s, nsynx, i / 2, i);
        if synx[i / 2].pos > synx[i].pos {
          Swap(i / 2, i);
        }
        i := i / 2;
      }
    }

    /** Takes out the first entry. */
    method RemoveFirst() returns (ghost first: Sync)
      requires Valid() && nsynx > 0
      modifies this`nsynx, synx
      ensures Valid() && nsynx == old(nsynx) - 1 && first == old(synx[1])
      ensures old(Contents()) == Contents() + multiset{first}
      ensures NotAbove(multiset{first}, old(Contents()))
    {
      LeastOfAll(synx[..], nsynx);
      first := synx[1];
      CutFirst(synx[..], nsynx);
      Swap(nsynx, 1);
      nsynx := nsynx - 1;
      SiftDown();
    }

    /** Moves the first entry down while it has a lesser child. */
    method SiftDown()
      requires OrderedDown(synx[..], nsynx, 1)
      modifies synx
      ensures Ordered(synx[..], nsynx) && Entries(synx[..], nsynx) == old(Entries(synx[..], nsynx))
    {
      ghost var all := Entries(synx[..], nsynx);
      var i: nat := 1;
      while i * 2 <= nsynx
        invariant 1 <= i && OrderedDown(synx[..], nsynx, i) && Entries(synx[..], nsynx) == all
        decreases nsynx - i
      {
        ghost var s := synx[..];
        DownStep(s, nsynx, i);
        var j := LesserChild(i);
        if j == 0 {
          return;
        }
        EntriesSwapped(s, nsynx, j, i);
        Swap(j, i);
        i := j;
      }
      NoChildren(synx[..], nsynx, i);
    }

    method LesserChild(i: nat) returns (j: nat)
      requires nsynx < synx.Length && 1 <= i && i * 2 <= nsynx
      ensures j == Child(synx[..], nsynx, i)
    {
      j := i * 2;
      if synx[j].pos < synx[i].pos && (j + 1 > nsynx || synx[j + 1].pos > synx[j].pos) {
        return j;
      } else if j + 1 <= nsynx && synx[j + 1].pos < synx[i].pos {
        return j + 1;
      }
      j := 0;
    }

    /** Drops expired entries until the first one is not. */
    method DropExpired(position: u64) returns (ghost removed: multiset<Sync>)
      requires Valid()
      modifies this`nsynx, synx
      ensures Valid() && old(Contents()) == Contents() + removed && NotAbove(removed, Contents())
      ensures AllExpired(removed, position)
      ensures nsynx > 0 ==> !Expired(synx[1], position)
    {
      removed := multiset{};
      ghost var all := Contents();
      while nsynx > 0 && Expired(synx[1], position)
        invariant Valid() && all == Contents() + removed && NotAbove(removed, Contents())
        invariant AllExpired(removed, position)
        decreases nsynx
      {
        ghost var before := Contents();
        var first := RemoveFirst();
        Transfer(all, before, Contents(), removed, first, position);
        removed := removed + multiset{first};
      }
    }

    /** The least position of all entries that are left after expired ones were dropped;
        zeros if none is. */
    method NextSync(position: u64) returns (pos: u64, length: u64, ghost removed: multiset<Sync>)
      requires Valid()
      modifies this`nsynx, synx
      ensures Valid() && old(Contents()) == Contents() + removed
      ensures forall e | e in removed :: Expired(e, position) && (nsynx > 0 ==> e.pos <= pos)
      ensures nsynx == 0 ==> pos == 0 && length == 0 && Contents() == multiset{}
      ensures nsynx > 0 ==> Sync(pos, length) in Contents() && !Expired(Sync(pos, length), position)
      ensures nsynx > 0 ==> forall e | e in Contents() :: pos <= e.pos
    {
      removed := DropExpired(position);
      if nsynx > 0 {
        LeastOfAll(synx[..], nsynx);
        pos, length := synx[1].pos, synx[1].length;
      } else {
        pos, length := 0, 0;
      }
    }
  }
}
