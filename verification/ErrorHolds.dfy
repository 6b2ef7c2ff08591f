/** Tentative errors: nested holds with linked lists of messages, that are kept or dropped
    when the hold is popped. */
module ErrorHolds {

  datatype Msg = Msg(id: int, severity: nat)

  // ---- Holds as values ----

  /** The messages issued, and those of each hold, innermost first. */
  datatype Holds = Holds(issued: seq<Msg>, held: seq<seq<Msg>>)

  function Pushed(s: Holds): Holds {
    s.(held := [[]] + s.held)
  }

  /** New messages for the innermost hold, or to be issued. */
  function Added(s: Holds, m: seq<Msg>): Holds {
    if s.held == [] then s.(issued := s.issued + m) else s.(held := s.held[0 := s.held[0] + m])
  }

  function Popped(s: Holds, issue: bool): Holds
    requires s.held != []
  {
    var rest := s.(held := s.held[1..]);
    if issue then Added(rest, s.held[0]) else rest
  }

  lemma AddedNothing(s: Holds)
    ensures Added(s, []) == s
  {
    assert s.issued + [] == s.issued;
    if s.held != [] {
      assert s.held[0] + [] == s.held[0];
    }
  }

  /** The highest severity. */
  function Worst(m: seq<Msg>): nat {
    if m == [] then 0
    else
      var n := Worst(m[..|m| - 1]);
      if m[|m| - 1].severity > n then m[|m| - 1].severity else n
  }

  // ---- Linked lists ----

  class ErrText {
    var next: ErrText?
    const msg: Msg

    constructor (msg: Msg)
      ensures this.msg == msg && next == null
    {
      this.msg, next := msg, null;
    }
  }

  /** The texts are linked in this order, and the last one ends the list. */
  ghost predicate Linked(texts: seq<ErrText>)
    reads texts
  {
    && (forall j, k | 0 <= j < k < |texts| :: texts[j] != texts[k])
    && (forall k | 0 <= k < |texts| - 1 :: texts[k].next == texts[k + 1])
    && (texts != [] ==> texts[|texts| - 1].next == null)
  }

  function Messages(texts: seq<ErrText>): (m: seq<Msg>)
    ensures |m| == |texts|
  {
    seq(|texts|, k requires 0 <= k < |texts| => texts[k].msg)
  }

  class ErrHold {
    var up: ErrHold?
    var head: ErrText?
    var tail: ErrText? // whose `next` is the end of the list, or null for `head` itself

    constructor (up: ErrHold?)
      ensures this.up == up && List([])
    {
      this.up, head, tail := up, null, null;
    }

    /** The list has these texts, and the tail addresses its end. */
    ghost predicate List(texts: seq<ErrText>)
      reads this, texts
    {
      && Linked(texts)
      && head == (if texts == [] then null else texts[0])
      && tail == if texts == [] then null else texts[|texts| - 1]
    }

    /** Puts a list with its own end at the end of this one. */
    method Append(first: ErrText, last: ErrText, ghost texts: seq<ErrText>, ghost more: seq<ErrText>)
      requires List(texts) && Linked(more) && more != [] && first == more[0] && last == more[|more| - 1]
      requires forall t | t in more :: t !in texts
      modifies this`head, this`tail, (if texts == [] then {} else {texts[|texts| - 1]})`next
      ensures List(texts + more)
    {
      forall j, k | 0 <= j < |texts| && 0 <= k < |more| ensures texts[j] != more[k] {
        assert more[k] in more;
      }
      if tail == null {
        head := first;
      } else {
        tail.next := first;
      }
      tail := last;
    }
  }

  // ---- The stack of holds ----

  class Errors {
    var top: ErrHold?
    var issued: seq<Msg>
    ghost var stack: seq<ErrHold>
    ghost var lists: seq<seq<ErrText>>
    ghost var texts: set<ErrText> // with all of the lists' texts

    constructor ()
      ensures Valid() && Now() == Holds([], [])
    {
      top, issued, stack, lists, texts := null, [], [], [], {};
    }

    /** The hold at a level of the stack: linked to the one above, with its own list. */
    ghost predicate Level(i: nat)
      requires i < |stack| && i < |lists| && forall t | t in lists[i] :: t in texts
      reads this, stack, texts
    {
      stack[i].up == (if i + 1 < |stack| then stack[i + 1] else null) && stack[i].List(lists[i])
    }

    ghost predicate Valid()
      reads this, stack, texts
    {
      && |lists| == |stack|
      && (forall i, t | 0 <= i < |lists| && t in lists[i] :: t in texts)
      && top == (if stack == [] then null else stack[0])
      && (forall i, j | 0 <= i < j < |stack| :: stack[i] != stack[j])
      && (forall i | 0 <= i < |stack| :: Level(i))
      && (forall i, j, t | 0 <= i < j < |lists| && t in lists[i] :: t !in lists[j])
    }

    ghost function Now(): Holds
      reads this
    {
      Holds(issued, seq(|lists|, i requires 0 <= i < |lists| reads this => Messages(lists[i])))
    }

    method Push() returns (eh: ErrHold)
      requires Valid()
      modifies this
      ensures Valid() && Now() == Pushed(old(Now()))
      ensures fresh(eh) && stack == [eh] + old(stack) && texts == old(texts)
    {
      eh := new ErrHold(top);
      top := eh;
      stack, lists := [eh] + stack, [[]] + lists;
      forall i | 0 <= i < |stack| ensures Level(i) {
        if i > 0 {
          assert stack[i] == old(stack)[i - 1] && lists[i] == old(lists)[i - 1] && old(Level(i - 1));
          assert i + 1 < |stack| ==> stack[i + 1] == old(stack)[i];
        }
      }
      assert Now().held == [[]] + old(Now().held);
    }

    /** Puts linked texts at the end of the innermost hold. */
    method AppendTop(first: ErrText, last: ErrText, ghost more: seq<ErrText>)
      requires Valid() && top != null && Linked(more) && more != [] && first == more[0] && last == more[|more| - 1]
      requires forall i, t | 0 <= i < |lists| && t in lists[i] :: t !in more
      modifies this`lists, this`texts, stack, texts
      ensures Valid() && stack == old(stack) && texts == old(texts) + set t | t in more
      ensures Now() == Added(old(Now()), Messages(more))
    {
      hide ErrHold.List;
      ghost var was := lists;
      assert Level(0);
      forall t | t in more ensures t !in lists[0] {
      }
      top.Append(first, last, lists[0], more);
      lists, texts := lists[0 := lists[0] + more], texts + set t | t in more;
      assert was[0] != [] ==> was[0][|was[0]| - 1] in was[0];
      forall i | 0 < i < |stack| ensures Level(i) {
        assert old(Level(i)) && stack[i] != stack[0] && lists[i] == was[i];
        assert forall k | 0 <= k < |was[i]| :: was[i][k] in was[i];
      }
      NowAppended(was, more);
    }

    lemma NowAppended(was: seq<seq<ErrText>>, more: seq<ErrText>)
      requires was != [] && lists == was[0 := was[0] + more]
      ensures Now().held == seq(|was|, i requires 0 <= i < |was| => Messages(was[i]))[0 := Messages(was[0]) + Messages(more)]
    {
      assert Messages(was[0] + more) == Messages(was[0]) + Messages(more);
    }

    /** An error that is not fatal. */
    method Error(m: Msg)
      requires Valid()
      modifies this, stack, texts
      ensures Valid() && Now() == Added(old(Now()), [m])
      ensures stack == old(stack) && fresh(texts - old(texts))
    {
      var et := new ErrText(m);
      if top != null {
        AppendTop(et, et, [et]);
        assert Messages([et]) == [m];
      } else {
        issued := issued + [m];
      }
    }

    /** A fatal error is issued at once. */
    method Fatal(m: Msg)
      requires Valid()
      modifies this`issued
      ensures Valid() && Now() == old(Now()).(issued := old(issued) + [m])
    {
      issued := issued + [m];
      LevelsKept();
    }

    /** The stack is valid as long as nothing that it depends on changes. */
    twostate lemma LevelsKept()
      requires old(Valid()) && stack == old(stack) && lists == old(lists) && texts == old(texts) && top == old(top)
      requires unchanged(stack) && unchanged(texts)
      ensures Valid()
    {
      forall i | 0 <= i < |stack| ensures Level(i) {
        assert old(Level(i));
      }
    }

    /** Issues the texts of a list, or frees them; returns the highest severity. */
    method Walk(head: ErrText?, ghost list: seq<ErrText>, issue: bool) returns (worst: nat)
      requires Linked(list) && head == if list == [] then null else list[0]
      modifies this`issued
      ensures worst == Worst(Messages(list))
      ensures issued == old(issued) + if issue then Messages(list) else []
    {
      worst := 0;
      var et := head;
      ghost var n := 0;
      while et != null
        invariant n <= |list| && et == if n < |list| then list[n] else null
        invariant worst == Worst(Messages(list[..n]))
        invariant issued == old(issued) + if issue then Messages(list[..n]) else []
        decreases |list| - n
      {
        var etmp := et.next;
        if et.msg.severity > worst {
          worst := et.msg.severity;
        }
        if issue {
          issued := issued + [et.msg];
        }
        assert Messages(list[..n + 1]) == Messages(list[..n]) + [et.msg];
        et, n := etmp, n + 1;
      }
      assert list[..n] == list;
    }

    /** Pops the innermost hold, and commits its messages or drops them. */
    method Pop(eh: ErrHold?, issue: bool) returns (worst: nat)
      requires Valid() && (eh != null ==> eh == top)
      modifies this, stack, texts
      ensures Valid() && texts == old(texts)
      ensures eh == null ==> worst == 0 && stack == old(stack) && Now() == old(Now())
      ensures eh != null ==> stack == old(stack)[1..] && Now() == Popped(old(Now()), issue)
      ensures eh != null ==> worst == if issue && stack != [] then 0 else Worst(old(Now().held[0]))
    {
      if eh == null {
        return 0;
      }
      worst := 0;
      assert Level(0);
      ghost var list := lists[0];
      var head, tail, up := eh.head, eh.tail, eh.up;
      DropTop();
      label Dropped:
      assert Messages(list) == old(Now()).held[0];
      AddedNothing(Now());
      if head != null {
        if issue && up != null {
          AppendTop(head, tail, list);
        } else {
          worst := Walk(head, list, issue);
          LevelsKept@Dropped();
        }
      }
    }

    /** Takes the innermost hold off the stack. */
    method DropTop()
      requires Valid() && top != null
      modifies this`top, this`stack, this`lists
      ensures Valid() && stack == old(stack)[1..] && lists == old(lists)[1..] && top == old(top.up)
      ensures Now() == old(Now()).(held := old(Now().held)[1..])
      ensures forall i, t | 0 <= i < |lists| && t in lists[i] :: t !in old(lists[0])
    {
      assert Level(0);
      top := top.up;
      stack, lists := stack[1..], lists[1..];
      forall i | 0 <= i < |stack| ensures Level(i) {
        assert old(Level(i + 1));
      }
    }
  }

  // ---- Well-nested runs ----

  datatype Event = PushEv | ErrorEv(m: Msg) | PopEv(issue: bool)

  function Step(s: Holds, e: Event): Holds
    requires e.PopEv? ==> s.held != []
  {
    match e
    case PushEv => Pushed(s)
    case ErrorEv(m) => Added(s, [m])
    case PopEv(issue) => Popped(s, issue)
  }

  /** No pop is without its push. */
  predicate Balanced(depth: nat, events: seq<Event>)
    decreases |events|
  {
    events == [] ||
    var e := events[0];
    && (e.PopEv? ==> depth > 0)
    && Balanced(if e.PushEv? then depth + 1 else if e.PopEv? then depth - 1 else depth, events[1..])
  }

  function Run(s: Holds, events: seq<Event>): Holds
    requires Balanced(|s.held|, events)
    decreases |events|
  {
    if events == [] then s else Run(Step(s, events[0]), events[1..])
  }

  /** A run of errors and of holds with their runs. */
  datatype Nest = Nil | Then(m: Msg, rest: Nest) | Hold(body: Nest, issue: bool, after: Nest)

  function Events(n: Nest): seq<Event> {
    match n
    case Nil => []
    case Then(m, rest) => [ErrorEv(m)] + Events(rest)
    case Hold(body, issue, after) => [PushEv] + (Events(body) + ([PopEv(issue)] + Events(after)))
  }

  /** The messages not inside any dropped hold, in order. */
  function Kept(n: Nest): seq<Msg> {
    match n
    case Nil => []
    case Then(m, rest) => [m] + Kept(rest)
    case Hold(body, issue, after) => (if issue then Kept(body) else []) + Kept(after)
  }

  lemma RunFirst(s: Holds, e: Event, rest: seq<Event>)
    requires e.PopEv? ==> s.held != []
    requires Balanced(|Step(s, e).held|, rest)
    ensures Balanced(|s.held|, [e] + rest) && Run(s, [e] + rest) == Run(Step(s, e), rest)
  {
    assert ([e] + rest)[1..] == rest;
  }

  lemma AddedTwice(s: Holds, a: seq<Msg>, b: seq<Msg>)
    ensures Added(Added(s, a), b) == Added(s, a + b)
  {
    assert (s.issued + a) + b == s.issued + (a + b);
    if s.held != [] {
      assert (s.held[0] + a) + b == s.held[0] + (a + b);
    }
  }

  /** A well-nested run adds to the hold it is in, or issues, exactly the messages that are
      not inside a hold that it drops, each once and in order. */
  lemma {:induction false} NestKeeps(s: Holds, n: Nest, rest: seq<Event>)
    requires Balanced(|s.held|, rest)
    ensures Balanced(|s.held|, Events(n) + rest)
    ensures Run(s, Events(n) + rest) == Run(Added(s, Kept(n)), rest)
    decreases n, 1
  {
    match n
    case Nil =>
      assert [] + rest == rest;
      AddedNothing(s);
    case Then(m, more) =>
      var s2 := Added(s, [m]);
      NestKeeps(s2, more, rest);
      RunFirst(s, ErrorEv(m), Events(more) + rest);
      assert [ErrorEv(m)] + (Events(more) + rest) == Events(n) + rest;
      AddedTwice(s, [m], Kept(more));
    case Hold(body, issue, after) =>
      var kept := if issue then Kept(body) else [];
      NestKeeps(Added(s, kept), after, rest);
      HoldKeeps(s, n, Events(after) + rest);
      assert Events(n) + rest == [PushEv] + (Events(body) + ([PopEv(issue)] + (Events(after) + rest)));
      AddedTwice(s, kept, Kept(after));
  }

  lemma {:induction false} HoldKeeps(s: Holds, n: Nest, tail: seq<Event>)
    requires n.Hold? && Balanced(|s.held|, tail)
    ensures var events := [PushEv] + (Events(n.body) + ([PopEv(n.issue)] + tail));
      && Balanced(|s.held|, events)
      && Run(s, events) == Run(Added(s, if n.issue then Kept(n.body) else []), tail)
    decreases n, 0
  {
    var pop := [PopEv(n.issue)] + tail;
    var inside := Added(Pushed(s), Kept(n.body));
    PoppedHold(s, Kept(n.body), n.issue);
    RunFirst(inside, PopEv(n.issue), tail);
    NestKeeps(Pushed(s), n.body, pop);
    RunFirst(s, PushEv, Events(n.body) + pop);
  }

  lemma PoppedHold(s: Holds, m: seq<Msg>, issue: bool)
    ensures Popped(Added(Pushed(s), m), issue) == Added(s, if issue then m else [])
  {
    assert [] + m == m;
    var h := Added(Pushed(s), m);
    assert h.held == [m] + s.held && h.held[1..] == s.held;
    AddedNothing(s);
  }

  /** With no hold open at the start, what is issued in the end is what is kept. */
  lemma FinallyIssued(n: Nest)
    ensures Balanced(0, Events(n)) && Run(Holds([], []), Events(n)) == Holds(Kept(n), [])
  {
    NestKeeps(Holds([], []), n, []);
    assert Events(n) + [] == Events(n) && [] + Kept(n) == Kept(n);
  }

  /** The severity that a pop returns is the highest of the messages that it issued or
      dropped, as documented; one that commits them to an outer hold returns zero. */
  lemma PopSeverityIff(s: Holds, issue: bool)
    requires s.held != []
    ensures (if issue && |s.held| > 1 then 0 else Worst(s.held[0])) == Worst(s.held[0])
      <==> !(issue && |s.held| > 1 && exists m :: m in s.held[0] && m.severity > 0)
  {
    WorstPositive(s.held[0]);
  }

  /** One severe message in a nested hold, which is kept. */
  lemma SeverityLost(m: Msg)
    requires m.severity > 0
    ensures var s := Holds([], [[m], []]);
      Popped(s, true) == Holds([], [[m]]) && Worst(s.held[0]) == m.severity > 0
  {
    assert [m][..0] == [] && [] + [m] == [m];
    assert [[]][0 := [m]] == [[m]];
  }

  lemma {:induction false} WorstPositive(m: seq<Msg>)
    ensures Worst(m) > 0 <==> exists x :: x in m && x.severity > 0
    decreases |m|
  {
    if m != [] {
      var init, last := m[..|m| - 1], m[|m| - 1];
      WorstPositive(init);
      assert m == init + [last];
    }
  }

  /** No message is worse, and one is as bad unless there is none. */
  lemma {:induction false} WorstIsGreatest(m: seq<Msg>)
    ensures forall k | 0 <= k < |m| :: m[k].severity <= Worst(m)
    ensures Worst(m) == 0 || exists k | 0 <= k < |m| :: m[k].severity == Worst(m)
  {
    if m != [] {
      var init := m[..|m| - 1];
      WorstIsGreatest(init);
      if m[|m| - 1].severity <= Worst(init) && Worst(init) != 0 {
        var k :| 0 <= k < |init| && init[k].severity == Worst(init);
        assert m[k].severity == Worst(m);
      }
    }
  }
}
