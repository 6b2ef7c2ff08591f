/** The passes over a source: first, optimising, stabilising, final. */
module PassDriver {
  import opened Basics

  datatype Pass = Init | Preproc | First | Opt | Stab | Final

  const INT64_MAX := 0x7FFF_FFFF_FFFF_FFFF

  function Next(p: Pass): Pass {
    match p
    case Init => Preproc
    case Preproc => First
    case First => Opt
    case Opt => Stab
    case Stab | Final => Final
  }

  /** What the passes of a run find, by their numbers: how many labels change, and whether
      there are errors; and the limits. The source could be anything, so these are too. */
  datatype Source = Source(changes: nat -> nat, errors: nat -> bool, stalled: nat, passes: nat)
  {
    /** The least number of changes after the optimising passes up to `n`. */
    function Best(n: nat): nat {
      if n < 2 then INT64_MAX
      else if 0 < changes(n) < Best(n - 1) then changes(n)
      else Best(n - 1)
    }

    /** The passes since then that found changes, but no fewer. */
    function Stalls(n: nat): nat {
      if n < 2 || 0 < changes(n) < Best(n - 1) then 0
      else if changes(n) == 0 then Stalls(n - 1)
      else Stalls(n - 1) + 1
    }

    predicate GivesUp(n: nat) {
      changes(n) > 0 && (Stalls(n) > stalled || n >= passes)
    }

    /** A pass after which the run stops with an error. */
    predicate Fails(p: Pass, n: nat) {
      errors(n) || (p.Opt? && GivesUp(n)) || (p.Final? && changes(n) > 0)
    }
  }

  /** The passes of a full run with `k` optimising ones, counted from zero. */
  function PassAt(k: nat, i: nat): Pass {
    if i == 0 then First else if i <= k then Opt else if i == k + 1 then Stab else Final
  }

  function Schedule(k: nat): seq<Pass> {
    seq(k + 3, i requires 0 <= i < k + 3 => PassAt(k, i))
  }

  /** Every optimising pass but the last of `k` finds changes. */
  predicate Needed(src: Source, k: nat) {
    forall n | 2 <= n <= k :: src.changes(n) > 0
  }

  /** No pass before the last one of a history fails. */
  predicate Fine(src: Source, history: seq<Pass>, upTo: nat) {
    forall i | 0 <= i < upTo && i < |history| :: !src.Fails(history[i], i + 1)
  }

  /** A driver after some passes. */
  datatype View = View(history: seq<Pass>, changed: nat, prevChanged: nat, stallCount: nat, worst: bool)

  /** What every pass leaves, in its place of the schedule with `k` optimising passes. */
  ghost predicate After(src: Source, v: View, k: nat) {
    var n := |v.history|;
    && k >= 1 && n <= k + 3 && (n < 2 ==> k == 1) && (2 <= n <= k + 1 ==> k == n - 1)
    && (forall i | 0 <= i < n :: v.history[i] == PassAt(k, i))
    && Needed(src, k) && (n > k + 1 ==> src.changes(k + 1) == 0)
    && (n > 0 ==> v.changed == src.changes(n))
    && (n <= k + 1 ==> v.prevChanged == src.Best(n) && v.stallCount == src.Stalls(n))
    && Fine(src, v.history, if n == 0 then 0 else n - 1)
    && (v.worst <==> n > 0 && src.Fails(v.history[n - 1], n))
  }

  /** The place in the schedule of the pass after `n`. */
  function Planned(src: Source, n: nat, k: nat): nat {
    if 2 <= n == k + 1 && src.changes(n) > 0 then k + 1 else k
  }

  lemma AfterNext(src: Source, v: View, w: View, k: nat)
    requires After(src, v, k) && !v.worst && |v.history| < k + 3
    requires var n := |v.history|; var k2 := Planned(src, n, k);
      && w.history == v.history + [PassAt(k2, n)] && w.changed == src.changes(n + 1)
      && (w.worst <==> src.Fails(PassAt(k2, n), n + 1))
      && (1 <= n <= k2 ==> w.prevChanged == src.Best(n + 1) && w.stallCount == src.Stalls(n + 1))
      && (n == 0 ==> w.prevChanged == v.prevChanged && w.stallCount == v.stallCount)
    ensures After(src, w, Planned(src, |v.history|, k))
  {
    var n := |v.history|;
    var k2 := Planned(src, n, k);
    forall i | 0 <= i < n + 1 ensures w.history[i] == PassAt(k2, i) {
    }
    forall i | 0 <= i < n && i < |w.history| ensures !src.Fails(w.history[i], i + 1) {
      assert w.history[i] == v.history[i];
    }
  }

  class Driver {
    const src: Source
    var passType: Pass
    var passn: nat
    var changed: nat // global_offset_changed
    var prevChanged: nat
    var stallCount: nat
    var worst: bool // whether there was an error in this pass
    ghost var history: seq<Pass>

    constructor (src: Source)
      ensures this.src == src && passType == Init && passn == 0 && stallCount == 0 && !worst && history == []
    {
      this.src, passType, passn, changed, prevChanged, stallCount, worst := src, Init, 0, 0, INT64_MAX, 0, false;
      history := [];
    }

    ghost function Now(): View
      reads this
    {
      View(history, changed, prevChanged, stallCount, worst)
    }

    ghost predicate Valid()
      reads this
    {
      passn == |history| && passType == if history == [] then Init else history[|history| - 1]
    }

    /** The kind of the next pass: there is another optimising pass as long as the last one
        found changes. */
    method Advance()
      modifies this`passType, this`passn
      ensures passn == old(passn) + 1
      ensures passType == if old(passType).Init? then First else if old(passType).Opt? && changed > 0 then Opt else Next(old(passType))
    {
      passn := passn + 1;
      if passType.Init? {
        passType := First;
      } else if !(passType.Opt? && changed > 0) {
        passType := Next(passType);
      }
    }

    /** After an optimising pass: whether it is time to give up. */
    method CheckStall()
      modifies this`prevChanged, this`stallCount, this`worst
      ensures prevChanged == if 0 < changed < old(prevChanged) then changed else old(prevChanged)
      ensures stallCount == if changed == 0 then old(stallCount) else if changed < old(prevChanged) then 0 else old(stallCount) + 1
      ensures worst == (old(worst) || (changed > 0 && (stallCount > src.stalled || passn >= src.passes)))
    {
      if changed > 0 {
        if changed < prevChanged {
          prevChanged := changed;
          stallCount := 0;
        } else {
          stallCount := stallCount + 1;
        }
        if stallCount > src.stalled || passn >= src.passes {
          worst := true;
        }
      }
    }

    /** One pass over the source. */
    method OnePass(ghost k: nat) returns (ghost k2: nat)
      requires Valid() && After(src, Now(), k) && !worst && !passType.Final?
      modifies this
      ensures Valid() && After(src, Now(), k2) && |history| == |old(history)| + 1
      ensures Rank(passType) < Rank(old(passType)) || (passType.Opt? && old(passType).Opt? && old(changed) > 0)
      ensures passType.Opt? ==>
        && (changed > 0 && !worst ==> stallCount <= src.stalled)
        && (changed == 0 || prevChanged < old(prevChanged) || (prevChanged == old(prevChanged) && stallCount > old(stallCount)))
    {
      hide Needed;
      hide Fine;
      ghost var v, n := Now(), |history|;
      k2 := Planned(src, n, k);
      Advance();
      assert passType == PassAt(k2, n);
      history := history + [passType];
      worst := src.errors(passn);
      changed := src.changes(passn);
      if passType.Opt? {
        CheckStall();
      } else if passType.Final? && changed > 0 {
        worst := true;
      }
      AfterNext(src, v, Now(), k);
      hide After;
    }

    /** All the passes: the measure is the kind of pass, and for optimising passes whether
        there is another, the least number of changes so far, and the stalls that are left. */
    method AssembleFile() returns (ghost k: nat)
      requires passType == Init && passn == 0 && history == [] && changed == 0 && !worst
      requires prevChanged == INT64_MAX && stallCount == 0
      modifies this
      ensures k >= 1 && history != [] && history <= Schedule(k)
      ensures Needed(src, k) && Fine(src, history, |history| - 1)
      ensures worst <==> src.Fails(history[|history| - 1], |history|)
      ensures !worst ==> history == Schedule(k) && src.changes(k + 1) == 0 && src.changes(k + 3) == 0
      ensures src.changes(2) < INT64_MAX ==> |history| <= src.changes(2) * (src.stalled + 1) + 4
    {
      k := 1;
      while !worst && !passType.Final?
        invariant Valid() && After(src, Now(), k)
        invariant passType.Opt? && changed > 0 && !worst ==> stallCount <= src.stalled
        decreases !worst, Rank(passType), passType.Opt? && changed > 0, prevChanged, src.stalled + 1 - stallCount
      {
        k := OnePass(k);
      }
      assert history <= Schedule(k);
      if src.changes(2) < INT64_MAX {
        HistoryBounded(src, Now(), k);
      }
    }
  }

  function Rank(p: Pass): nat {
    match p
    case Init => 5
    case Preproc => 4
    case First => 3
    case Opt => 2
    case Stab => 1
    case Final => 0
  }

  // ---- The number of passes ----

  /** As long as optimising passes find changes and the run goes on. */
  predicate Going(src: Source, n: nat) {
    forall m | 2 <= m <= n :: src.changes(m) > 0 && !src.GivesUp(m)
  }

  /** Each decrease of the best count pays for as many stalled passes as are allowed. */
  lemma {:induction false} PassesPaid(src: Source, n: nat)
    requires n >= 2 && src.changes(2) < INT64_MAX && Going(src, n)
    ensures 1 <= src.Best(n) <= src.changes(2)
    ensures n - 2 <= (src.changes(2) - src.Best(n)) * (src.stalled + 1) + src.Stalls(n)
  {
    assert src.changes(n) > 0 && !src.GivesUp(n);
    if n > 2 {
      PassesPaid(src, n - 1);
      assert !src.GivesUp(n - 1);
      var l, gap, gap2 := src.stalled + 1, src.changes(2) - src.Best(n - 1), src.changes(2) - src.Best(n);
      if src.changes(n) < src.Best(n - 1) {
        MulMonotone(l, gap + 1, gap2);
        assert l * (gap + 1) == gap * l + l;
      }
    } else {
      assert src.Best(1) == INT64_MAX;
    }
  }

  /** A bound on the optimising passes: the changes of the first of them times one more
      than the stall limit, and one. */
  lemma PassesBounded(src: Source, n: nat)
    requires n >= 2 && src.changes(2) < INT64_MAX && Going(src, n)
    ensures n <= src.changes(2) * (src.stalled + 1) + 1
  {
    PassesPaid(src, n);
    assert !src.GivesUp(n) && src.changes(n) > 0;
    BoundedBy(n, src.stalled + 1, src.changes(2), src.Best(n), src.Stalls(n));
  }

  lemma BoundedBy(n: nat, l: nat, most: nat, best: nat, stalls: nat)
    requires n - 2 <= (most - best) * l + stalls && 1 <= best <= most && stalls < l
    ensures n <= most * l + 1
  {
    assert most * l == (most - best) * l + best * l;
    MulMonotone(l, 1, best);
  }

  lemma HistoryBounded(src: Source, v: View, k: nat)
    requires After(src, v, k) && src.changes(2) < INT64_MAX
    ensures |v.history| <= src.changes(2) * (src.stalled + 1) + 4
  {
    MulMonotone(src.stalled + 1, 0, src.changes(2));
    if k >= 2 {
      forall m | 2 <= m <= k ensures src.changes(m) > 0 && !src.GivesUp(m) {
        assert v.history[m - 1] == PassAt(k, m - 1) == Opt;
        assert !src.Fails(v.history[m - 1], m - 1 + 1);
      }
      PassesBounded(src, k);
    }
  }
}
