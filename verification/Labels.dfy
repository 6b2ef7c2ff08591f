/** The label table, and what it means that a pass over the source changed nothing in it. */
module Labels {
  import opened Basics
  import PassDriver

  datatype LabelType = Local | Static | Global | Extern | Required | Common | Special | Backend

  predicate IsExtern(t: LabelType) {
    t.Extern? || t.Required?
  }

  predicate IsGlobal(t: LabelType) {
    t.Global? || t.Common?
  }

  /** `defined` and `lastref` are pass numbers plus one, or zero. */
  datatype Label = Label(segment: int, offset: int, size: int, defined: nat, lastref: nat, ty: LabelType)

  /** An entry of the symbol table, or the value of a label that was looked up. */
  datatype Symbol = Symbol(name: string, segment: int, value: int)

  /** The mode of the assembler and the pass. */
  datatype Env = Env(tasm: bool, pass: PassDriver.Pass, passn: nat)
  {
    predicate Stable() {
      pass.Stab? || pass.Final?
    }
  }

  // ---- Names ----

  predicate IsAtAt(env: Env, l: string) {
    env.tasm && |l| >= 2 && l[0] == '@' && l[1] == '@'
  }

  predicate IsLocal(env: Env, l: string) {
    IsAtAt(env, l) || (|l| >= 1 && l[0] == '.' && (|l| == 1 || l[1] != '.'))
  }

  predicate IsMagic(l: string) {
    |l| >= 2 && l[0] == '.' && l[1] == '.' && (|l| == 2 || l[2] != '@')
  }

  /** Whether the label is the base of the local labels after it. */
  predicate SetsBase(env: Env, l: string) {
    !IsAtAt(env, l) && (l == "" || l[0] != '.')
  }

  // ---- The table as a value ----

  datatype Table = Table(
    labels: map<string, Label>,
    prev: string, // the base of local labels
    changed: nat, // global_offset_changed
    nextSeg: int,
    symdefs: seq<Symbol>,
    looked: seq<Symbol>,
    errors: nat)

  function Name(env: Env, t: Table, id: string): string {
    if IsLocal(env, id) then t.prev + id else id
  }

  function Entry(t: Table, name: string): Label {
    if name in t.labels then t.labels[name] else Label(0, 0, 0, 0, 0, Local)
  }

  function With(t: Table, name: string, l: Label): Table {
    t.(labels := t.labels[name := l])
  }

  function Looked(env: Env, t: Table, id: string): Table {
    var name := Name(env, t, id);
    if name in t.labels && t.labels[name].defined != 0 then
      var l := t.labels[name];
      With(t, name, l.(lastref := env.passn + 1)).(looked := t.looked + [Symbol(name, l.segment, l.offset)])
    else t
  }

  /** The type that a declaration meets: local labels take any before the passes that
      should be stable. */
  function Met(env: Env, l: Label, ty: LabelType): LabelType {
    if !env.Stable() && l.ty.Local? then (if IsExtern(ty) && l.defined != 0 then Global else ty) else l.ty
  }

  function Declared(env: Env, t: Table, id: string, ty: LabelType): Table {
    var name := Name(env, t, id);
    var l := Entry(t, name);
    var met := Met(env, l, ty);
    if met == ty || (met.Extern? && ty.Required?) then With(t, name, l.(ty := ty))
    else if IsExtern(met) && IsGlobal(ty) then With(t, name, l.(ty := ty, defined := 0))
    else
      With(t, name, l.(ty := met)).(errors := if IsExtern(ty) && (IsGlobal(met) || IsExtern(met)) then t.errors else t.errors + 1)
  }

  /** What a definition makes of a label; types that were only promised become global. */
  function Redefined(env: Env, nextSeg: int, id: string, l: Label, segment: int, offset: int): Label {
    var ty := if segment != 0 && IsExtern(l.ty) then Global else if IsMagic(id) && l.ty.Local? then Special else l.ty;
    var seg := if segment != 0 then segment else if l.segment != 0 then l.segment else nextSeg;
    Label(seg, if ty.Common? then 0 else offset, if ty.Common? then offset else 0, env.passn + 1, l.lastref, ty)
  }

  /** The pass that the label was last defined in, as far as it counts. */
  function LastDefined(l: Label, segment: int): nat {
    if segment != 0 && IsExtern(l.ty) then 0 else l.defined
  }

  predicate Differs(l: Label, was: Label, lastdef: nat) {
    lastdef == 0 || was.segment != l.segment || was.size != l.size || was.offset != l.offset
  }

  /** The symbols for the output, in the stabilisation pass or for the backend. */
  function Emitted(env: Env, name: string, l: Label): (Label, seq<Symbol>) {
    if env.pass.Final? || (!env.pass.Stab? && !l.ty.Backend?) then (l, [])
    else if l.ty.Extern? && l.lastref < env.passn then (l, [])
    else
      var ty := if l.ty.Extern? then Required else l.ty;
      (l.(ty := ty), [Symbol(name, l.segment, if ty.Common? then l.size else l.offset)])
  }

  function Define(env: Env, t: Table, id: string, segment: int, offset: int, normal: bool): Table {
    var name := Name(env, t, id);
    var was := Entry(t, name);
    var l, lastdef := Redefined(env, t.nextSeg, id, was, segment, offset), LastDefined(was, segment);
    var differs := Differs(l, was, lastdef);
    var (out, symbols) := if lastdef == env.passn + 1 then (l, []) else Emitted(env, name, l);
    Table(
      t.labels[name := out],
      if SetsBase(env, id) && normal then name else t.prev,
      if differs then t.changed + 1 else t.changed,
      if segment == 0 && was.segment == 0 then t.nextSeg + 2 else t.nextSeg,
      t.symdefs + symbols,
      t.looked,
      if lastdef == env.passn + 1 && differs then t.errors + 1 else t.errors)
  }

  lemma UpdateTwice(m: map<string, Label>, name: string, a: Label, b: Label)
    ensures m[name := a][name := b] == m[name := b]
  {
  }

  // ---- The table ----

  class LabelTable {
    var env: Env
    var labels: map<string, Label>
    var prevlabel: string
    var changed: nat
    var nextSeg: int
    var symdefs: seq<Symbol>
    ghost var looked: seq<Symbol>
    var errors: nat

    constructor (env: Env, firstSeg: int)
      ensures this.env == env && Now() == Table(map[], "", 0, firstSeg, [], [], 0)
    {
      this.env, labels, prevlabel, changed, nextSeg := env, map[], "", 0, firstSeg;
      symdefs, looked, errors := [], [], 0;
    }

    ghost function Now(): Table
      reads this
    {
      Table(labels, prevlabel, changed, nextSeg, symdefs, looked, errors)
    }

    /** Finds a label by its full name, and creates it if it is not there. */
    method FindLabel(id: string) returns (name: string, created: bool)
      modifies this`labels
      ensures name == Name(env, old(Now()), id) && created == (name !in old(labels))
      ensures name in labels && labels == old(labels)[name := Entry(old(Now()), name)]
    {
      name := if IsLocal(env, id) then prevlabel + id else id;
      created := name !in labels;
      if created {
        labels := labels[name := Label(0, 0, 0, 0, 0, Local)];
      } else {
        assert labels == labels[name := labels[name]];
      }
    }

    method LookupLabel(id: string) returns (r: Option<(LabelType, int, int)>)
      modifies this`labels, this`looked
      ensures Now() == Looked(env, old(Now()), id)
      ensures var name := Name(env, old(Now()), id);
        r == if name in labels && labels[name].defined != 0
             then Some((labels[name].ty, labels[name].segment, labels[name].offset)) else None
    {
      var name := if IsLocal(env, id) then prevlabel + id else id;
      if name in labels && labels[name].defined != 0 {
        var l := labels[name];
        labels := labels[name := l.(lastref := env.passn + 1)];
        looked := looked + [Symbol(name, l.segment, l.offset)];
        r := Some((l.ty, l.segment, l.offset));
      } else {
        r := None;
      }
    }

    method DeclareLabel(id: string, ty: LabelType) returns (ok: bool)
      modifies this`labels, this`errors
      ensures Now() == Declared(env, old(Now()), id, ty)
    {
      var name, created := FindLabel(id);
      var l := labels[name];
      var oldtype := l.ty;
      if !env.Stable() && oldtype.Local? {
        oldtype := if IsExtern(ty) && l.defined != 0 then Global else ty;
        l := l.(ty := oldtype);
      }
      ok := true;
      if oldtype == ty || (oldtype.Extern? && ty.Required?) {
        l := l.(ty := ty);
      } else if IsExtern(oldtype) && IsGlobal(ty) {
        l := l.(ty := ty, defined := 0);
      } else {
        ok := false;
        if !(IsExtern(ty) && (IsGlobal(oldtype) || IsExtern(oldtype))) {
          errors := errors + 1;
        }
      }
      labels := labels[name := l];
    }

    method DefineLabel(id: string, segment: int, offset: int, normal: bool)
      modifies this
      ensures env == old(env) && Now() == Define(env, old(Now()), id, segment, offset, normal)
    {
      hide Emitted;
      hide Redefined;
      hide SetsBase;
      hide IsLocal;
      var lpass := env.passn + 1;
      var name, created := FindLabel(id);
      var was := labels[name];
      var l, lastdef := NewValues(id, was, segment, offset);
      if SetsBase(env, id) && normal {
        prevlabel := name;
      }
      var differs := created || lastdef == 0 || was.segment != l.segment || was.size != l.size || was.offset != l.offset;
      if differs {
        changed := changed + 1;
      }
      if lastdef == lpass && differs {
        errors := errors + 1;
      }
      UpdateTwice(old(labels), name, was, l);
      labels := labels[name := l];
      if lastdef != lpass {
        UpdateTwice(old(labels), name, l, Emitted(env, name, l).0);
        OutSymdef(name);
      }
    }

    /** The new values of a label, and when it was last defined. */
    method NewValues(id: string, was: Label, segment: int, offset: int) returns (l: Label, lastdef: nat)
      modifies this`nextSeg
      ensures l == Redefined(env, old(nextSeg), id, was, segment, offset) && lastdef == LastDefined(was, segment)
      ensures nextSeg == if segment == 0 && was.segment == 0 then old(nextSeg) + 2 else old(nextSeg)
    {
      l, lastdef := was, was.defined;
      var seg, off, size := segment, offset, 0;
      if segment != 0 {
        if IsExtern(l.ty) {
          l := l.(ty := Global);
          lastdef := 0;
        }
      } else if l.segment != 0 {
        seg := l.segment;
      } else {
        seg := nextSeg;
        nextSeg := nextSeg + 2;
      }
      if IsMagic(id) && l.ty.Local? {
        l := l.(ty := Special);
      }
      if l.ty.Common? {
        size, off := off, 0;
      }
      l := l.(segment := seg, offset := off, size := size, defined := env.passn + 1);
    }

    /** Passes a label on to the output. */
    method OutSymdef(name: string)
      requires name in labels
      modifies this`labels, this`symdefs
      ensures var (l, symbols) := Emitted(env, name, old(labels[name]));
        labels == old(labels)[name := l] && symdefs == old(symdefs) + symbols
    {
      var l := labels[name];
      assert labels == labels[name := l];
      if env.pass.Final? || (!env.pass.Stab? && !l.ty.Backend?) {
        return;
      }
      var value := l.offset;
      if l.ty.Extern? {
        if l.lastref < env.passn {
          return;
        }
        labels := labels[name := l.(ty := Required)];
      } else if l.ty.Common? {
        value := l.size;
      }
      symdefs := symdefs + [Symbol(name, l.segment, value)];
    }
  }

  // ---- A pass ----

  datatype Call =
    | LookupCall(id: string)
    | DeclareCall(id: string, ty: LabelType)
    | DefineCall(id: string, segment: int, offset: int, normal: bool)

  function Step(env: Env, t: Table, c: Call): Table {
    match c
    case LookupCall(id) => Looked(env, t, id)
    case DeclareCall(id, ty) => Declared(env, t, id, ty)
    case DefineCall(id, segment, offset, normal) => Define(env, t, id, segment, offset, normal)
  }

  function Run(env: Env, t: Table, calls: seq<Call>): Table
    decreases |calls|
  {
    if calls == [] then t else Run(env, Step(env, t, calls[0]), calls[1..])
  }

  /** Every label has the value it had, and none was newly defined. */
  ghost predicate SameValues(t: Table, u: Table) {
    && (forall n | n in t.labels :: n in u.labels)
    && (forall n | n in u.labels ::
          && u.labels[n].segment == Entry(t, n).segment && u.labels[n].offset == Entry(t, n).offset
          && u.labels[n].size == Entry(t, n).size && (u.labels[n].defined != 0 ==> Entry(t, n).defined != 0))
  }

  /** A symbol that has the value of its label in the table. */
  predicate Agrees(t: Table, s: Symbol) {
    s.name in t.labels && s.segment == t.labels[s.name].segment
    && (s.value == t.labels[s.name].offset || s.value == t.labels[s.name].size)
  }

  /** What was looked up and what was put out, but for the first ones, has the values in
      the table. */
  ghost predicate AllAgree(t: Table, l: nat, s: nat) {
    && l <= |t.looked| && s <= |t.symdefs|
    && (forall k | l <= k < |t.looked| :: Agrees(t, t.looked[k]))
    && (forall k | s <= k < |t.symdefs| :: Agrees(t, t.symdefs[k]))
  }

  lemma SameTransitive(t: Table, u: Table, v: Table)
    requires SameValues(t, u) && SameValues(u, v)
    ensures SameValues(t, v)
  {
    forall n | n in v.labels
      ensures v.labels[n].segment == Entry(t, n).segment && v.labels[n].offset == Entry(t, n).offset
      ensures v.labels[n].size == Entry(t, n).size && (v.labels[n].defined != 0 ==> Entry(t, n).defined != 0) {
      if n !in u.labels {
        assert n !in t.labels;
      }
    }
  }

  lemma AgreesStill(t: Table, u: Table, s: Symbol)
    requires SameValues(t, u) && Agrees(t, s)
    ensures Agrees(u, s)
  {
  }

  /** The count goes up exactly if the label was not defined, or has another value now. */
  lemma DefineCounts(env: Env, t: Table, id: string, segment: int, offset: int, normal: bool)
    ensures var u, name := Define(env, t, id, segment, offset, normal), Name(env, t, id);
      && name in u.labels && u.labels[name].defined == env.passn + 1
      && (u.changed == t.changed || u.changed == t.changed + 1)
      && (u.changed == t.changed <==>
            && LastDefined(Entry(t, name), segment) != 0
            && Entry(t, name).segment == u.labels[name].segment && Entry(t, name).offset == u.labels[name].offset
            && Entry(t, name).size == u.labels[name].size)
  {
  }

  lemma StepSame(env: Env, t: Table, c: Call)
    ensures var u := Step(env, t, c);
      && u.changed >= t.changed
      && (u.changed == t.changed ==> SameValues(t, u))
      && t.looked <= u.looked && t.symdefs <= u.symdefs
      && AllAgree(u, |t.looked|, |t.symdefs|)
  {
    if c.DefineCall? {
      DefineCounts(env, t, c.id, c.segment, c.offset, c.normal);
    }
  }

  /** A pass that leaves the count at zero: all values are as they were, no label was newly
      defined, and all that was looked up or put out on the way has the final values. */
  lemma {:induction false} PassSame(env: Env, t: Table, calls: seq<Call>)
    ensures Run(env, t, calls).changed >= t.changed
    ensures Run(env, t, calls).changed == t.changed ==>
      var u := Run(env, t, calls);
      SameValues(t, u) && t.looked <= u.looked && t.symdefs <= u.symdefs && AllAgree(u, |t.looked|, |t.symdefs|)
    decreases |calls|
  {
    if calls != [] {
      var m := Step(env, t, calls[0]);
      var u := Run(env, t, calls);
      StepSame(env, t, calls[0]);
      PassSame(env, m, calls[1..]);
      if u.changed == t.changed {
        SameTransitive(t, m, u);
        forall k | |t.looked| <= k < |u.looked| ensures Agrees(u, u.looked[k]) {
          if k < |m.looked| {
            AgreesStill(m, u, m.looked[k]);
          }
        }
        forall k | |t.symdefs| <= k < |u.symdefs| ensures Agrees(u, u.symdefs[k]) {
          if k < |m.symdefs| {
            AgreesStill(m, u, m.symdefs[k]);
          }
        }
      }
    }
  }

  // ---- What stays defined ----

  predicate IsDefined(t: Table, n: string) {
    n in t.labels && t.labels[n].defined != 0
  }

  predicate Defines(env: Env, t: Table, c: Call, n: string) {
    c.DefineCall? && Name(env, t, c.id) == n
  }

  /** A declaration as global or common of what was declared external or required. */
  predicate Undeclares(env: Env, t: Table, c: Call, n: string) {
    c.DeclareCall? && IsGlobal(c.ty) && Name(env, t, c.id) == n && n in t.labels && IsExtern(t.labels[n].ty)
  }

  lemma StepDefinedIff(env: Env, t: Table, c: Call, n: string)
    ensures IsDefined(Step(env, t, c), n) <==> Defines(env, t, c, n) || (IsDefined(t, n) && !Undeclares(env, t, c, n))
  {
    if c.DefineCall? {
      DefineCounts(env, t, c.id, c.segment, c.offset, c.normal);
    }
  }

  /** The table when call `k` comes. */
  function TableAt(env: Env, t: Table, calls: seq<Call>, k: nat): Table
    requires k <= |calls|
  {
    Run(env, t, calls[..k])
  }

  /** The calls from `k` on undefine `n`: one of them declares it, and none defines it
      after that. */
  ghost predicate LeftUndefined(env: Env, t: Table, calls: seq<Call>, k: nat, n: string) {
    exists j | k <= j < |calls| ::
      && Undeclares(env, TableAt(env, t, calls, j), calls[j], n)
      && forall i | j < i < |calls| :: !Defines(env, TableAt(env, t, calls, i), calls[i], n)
  }

  lemma {:induction false} RunLast(env: Env, t: Table, calls: seq<Call>, c: Call)
    ensures Run(env, t, calls + [c]) == Step(env, Run(env, t, calls), c)
    decreases |calls|
  {
    if calls == [] {
      assert (calls + [c])[1..] == [];
    } else {
      RunLast(env, Step(env, t, calls[0]), calls[1..], c);
      assert (calls + [c])[1..] == calls[1..] + [c];
    }
  }

  /** The last call may define the label, or be the one that undefines it. */
  lemma LeftByLast(env: Env, t: Table, calls: seq<Call>, c: Call, k: nat, n: string)
    requires k <= |calls|
    ensures var u := Run(env, t, calls);
      LeftUndefined(env, t, calls + [c], k, n)
      <==> Undeclares(env, u, c, n) || (LeftUndefined(env, t, calls, k, n) && !Defines(env, u, c, n))
  {
    var m, all := |calls|, calls + [c];
    assert all[..m] == calls && all[m] == c;
    forall i | 0 <= i < m ensures TableAt(env, t, all, i) == TableAt(env, t, calls, i) && all[i] == calls[i] {
      assert all[..i] == calls[..i];
    }
  }

  /** A label that is defined at some point is undefined in the end exactly if such a
      declaration follows its last definition. */
  lemma {:induction false} UndefinedIff(env: Env, t: Table, calls: seq<Call>, k: nat, n: string)
    requires k <= |calls| && IsDefined(TableAt(env, t, calls, k), n)
    ensures !IsDefined(Run(env, t, calls), n) <==> LeftUndefined(env, t, calls, k, n)
    decreases |calls|
  {
    if k == |calls| {
      assert calls[..k] == calls;
    } else {
      var m := |calls| - 1;
      var init, c := calls[..m], calls[m];
      assert calls == init + [c] && init[..k] == calls[..k];
      UndefinedIff(env, t, init, k, n);
      RunLast(env, t, init, c);
      StepDefinedIff(env, Run(env, t, init), c, n);
      LeftByLast(env, t, init, c, k, n);
    }
  }

  /** A definition after such a declaration counts as a change, so in a pass without any a
      label stays defined exactly if there is no such declaration at all. */
  lemma {:induction false} PassKeepsDefinedIff(env: Env, t: Table, calls: seq<Call>, n: string)
    requires Run(env, t, calls).changed == t.changed && IsDefined(t, n)
    ensures IsDefined(Run(env, t, calls), n)
            <==> forall j | 0 <= j < |calls| :: !Undeclares(env, TableAt(env, t, calls, j), calls[j], n)
    decreases |calls|
  {
    if calls != [] {
      var m := |calls| - 1;
      var init, c := calls[..m], calls[m];
      assert calls == init + [c];
      RunLast(env, t, init, c);
      PassSame(env, t, init);
      StepSame(env, Run(env, t, init), c);
      StepDefinedIff(env, Run(env, t, init), c, n);
      PassKeepsDefinedIff(env, t, init, n);
      assert forall j | 0 <= j < m :: init[..j] == calls[..j];
    }
  }

  /** A label can come out undefined even so: an external label that is declared global,
      and not defined after that. */
  lemma Undefines(env: Env)
    requires !env.tasm
    ensures var t := Table(map["a" := Label(2, 0, 0, 1, 0, Extern)], "", 0, 4, [], [], 0);
      var u := Run(env, t, [DeclareCall("a", Global)]);
      u.changed == 0 && t.labels["a"].defined != 0 && "a" in u.labels && u.labels["a"].defined == 0
  {
    var t := Table(map["a" := Label(2, 0, 0, 1, 0, Extern)], "", 0, 4, [], [], 0);
    var calls := [DeclareCall("a", Global)];
    assert calls[1..] == [];
    assert Run(env, t, calls) == Run(env, Step(env, t, calls[0]), []);
  }

  // ---- What a definition is worth ----

  /** A label that is defined in a segment is found there, at its offset; a common one has its
      size instead, and lies at zero. Every other label is as it was. */
  lemma DefinedIsFound(env: Env, t: Table, id: string, segment: int, offset: int, normal: bool, again: string)
    requires segment != 0
    requires var u := Define(env, t, id, segment, offset, normal); Name(env, u, again) == Name(env, t, id)
    ensures var u, name := Define(env, t, id, segment, offset, normal), Name(env, t, id);
      && (Entry(t, name).ty.Common? <==> Entry(u, name).ty.Common?)
      && Looked(env, u, again).looked
         == u.looked + [Symbol(name, segment, if Entry(t, name).ty.Common? then 0 else offset)]
      && Entry(u, name).size == (if Entry(t, name).ty.Common? then offset else 0)
      && forall n | n != name :: (n in u.labels <==> n in t.labels) && Entry(u, n) == Entry(t, n)
  {
  }

  /** A label without a segment gets one of its own when it is first defined, and keeps it: the
      first from the next free one on, the second two further. */
  lemma OwnSegments(env: Env, t: Table, a: string, b: string, x: int, y: int, normal: bool)
    requires Entry(t, Name(env, t, a)).segment == 0 && t.nextSeg > 0
    ensures var u := Define(env, t, a, 0, x, normal); var name := Name(env, t, a);
      && Entry(u, name).segment == t.nextSeg
      && Entry(Define(env, u, b, 0, y, normal), name).segment == t.nextSeg
      && (Entry(u, Name(env, u, b)).segment == 0
          ==> Entry(Define(env, u, b, 0, y, normal), Name(env, u, b)).segment == t.nextSeg + 2)
  {
    hide IsLocal;
    hide IsMagic;
    hide SetsBase;
  }

  /** A definition of a label that was defined in the same pass is an error exactly if its
      value is another one. */
  lemma RedefinedIff(env: Env, t: Table, id: string, segment: int, x: int, y: int, normal: bool, again: string)
    requires segment != 0
    requires var u := Define(env, t, id, segment, x, normal); Name(env, u, again) == Name(env, t, id)
    ensures var u := Define(env, t, id, segment, x, normal);
      Define(env, u, again, segment, y, normal).errors == u.errors + (if x == y then 0 else 1)
  {
  }

  /** Local names belong to the last label that is none. */
  lemma LocalsFollow(env: Env, t: Table, id: string, segment: int, offset: int, rest: string)
    requires !env.tasm && id != "" && id[0] != '.' && (rest == "" || rest[0] != '.')
    ensures Name(env, Define(env, t, id, segment, offset, true), "." + rest) == id + "." + rest
    ensures Name(env, Define(env, t, id, segment, offset, false), "." + rest) == t.prev + "." + rest
  {
  }

  /** What is declared external is found in a segment of its own, and is global once it is
      defined in a segment. */
  lemma ExternThenDefined(env: Env, t: Table, id: string, segment: int, offset: int, normal: bool)
    requires segment != 0 && !env.Stable() && Name(env, t, id) !in t.labels
    ensures var u := Declared(env, t, id, Extern);
      && Entry(u, Name(env, t, id)).ty.Extern? && u.errors == t.errors
      && Entry(Define(env, u, id, segment, offset, normal), Name(env, t, id)).ty.Global?
  {
  }
}
