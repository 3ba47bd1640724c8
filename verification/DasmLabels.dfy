/** The label chains of dasm_put: which definition each reference ends up with. A label slot
    holds 0, the position of the last pending reference, or minus the position of the
    definition; a pending reference holds the position of the one before it, or 0. */
module DasmLabels {

  /** A local or global label, or a PC label. */
  datatype Label = Lg(n: nat) | Pc(k: nat)

  /** How a reference names its label: the latest local before, the next local, or the only
      one of that name. */
  datatype Kind = Back | Fwd | Any

  datatype Event = Def(name: Label, pos: int) | Ref(name: Label, kind: Kind, pos: int)

  type Log = seq<Event>

  predicate IsLocal(l: Label) { l.Lg? && l.n < 10 }

  /** Local labels are used with a direction, the others without. */
  ghost predicate Kinds(log: Log) {
    forall i | 0 <= i < |log| && log[i].Ref? :: log[i].kind == Any <==> !IsLocal(log[i].name)
  }

  // ---------------------------------------------------------------- what a reference means

  datatype Option = None | Some(pos: int)

  ghost function LastDef(log: Log, l: Label): Option {
    if log == [] then None
    else if log[|log| - 1].Def? && log[|log| - 1].name == l then Some(log[|log| - 1].pos)
    else LastDef(log[..|log| - 1], l)
  }

  ghost function FirstDef(log: Log, l: Label): Option {
    if log == [] then None
    else if log[0].Def? && log[0].name == l then Some(log[0].pos)
    else FirstDef(log[1..], l)
  }

  /** The definition that reference number `i` names, if there is one yet. */
  ghost function Goal(log: Log, i: nat): Option
    requires i < |log| && log[i].Ref?
  {
    var before, after := LastDef(log[..i], log[i].name), FirstDef(log[i + 1..], log[i].name);
    match log[i].kind
    case Back => before
    case Fwd => after
    case Any => if before.Some? then before else after
  }

  /** The references to `l` that wait for its next definition, the latest first. */
  ghost function Pending(log: Log, l: Label): seq<int> {
    if log == [] then []
    else
      var e, rest := log[|log| - 1], log[..|log| - 1];
      if e.name != l then Pending(rest, l)
      else if e.Def? then []
      else if e.kind == Fwd || (e.kind == Any && LastDef(rest, l).None?) then [e.pos] + Pending(rest, l)
      else Pending(rest, l)
  }

  // ---------------------------------------------------------------- chains

  /** Following the links from `n` gives exactly the positions `s`. */
  ghost predicate Chain(cells: map<int, int>, n: int, s: seq<int>)
    decreases |s|
  {
    if s == [] then n == 0 else n == s[0] && n > 0 && n in cells && Chain(cells, cells[n], s[1..])
  }

  ghost predicate NoDuplicates(s: seq<int>) { forall i, j | 0 <= i < j < |s| :: s[i] != s[j] }

  lemma {:induction false} ChainKept(cells: map<int, int>, cells': map<int, int>, n: int, s: seq<int>)
    requires Chain(cells, n, s) && forall q <- s :: q in cells ==> q in cells' && cells'[q] == cells[q]
    ensures Chain(cells', n, s)
    decreases |s|
  {
    if s != [] { ChainKept(cells, cells', cells[n], s[1..]); }
  }

  /** The slot of a label. */
  ghost predicate SlotOk(log: Log, cells: map<int, int>, v: int, l: Label) {
    if v < 0 then LastDef(log, l) == Some(-v) && Pending(log, l) == []
    else Chain(cells, v, Pending(log, l)) && (v == 0 || !IsLocal(l) ==> LastDef(log, l).None?)
  }

  /** The slot of a label is negative exactly if the label was defined and nothing waits for
      its next definition. */
  lemma SlotSign(log: Log, cells: map<int, int>, v: int, l: Label)
    requires SlotOk(log, cells, v, l)
    ensures v < 0 <==> Ready(log, l)
  {}

  ghost predicate Ready(log: Log, l: Label) { LastDef(log, l).Some? && Pending(log, l) == [] }

  /** A reference holds its goal, or waits in the chain of its label. */
  ghost predicate RefOk(log: Log, cells: map<int, int>, i: nat)
    requires i < |log|
  {
    log[i].Ref? ==>
      if Goal(log, i).Some? then log[i].pos in cells && cells[log[i].pos] == Goal(log, i).pos
      else log[i].pos in Pending(log, log[i].name)
  }

  ghost predicate RefsOk(log: Log, cells: map<int, int>) {
    forall i: nat {:trigger RefOk(log, cells, i)} | i < |log| :: RefOk(log, cells, i)
  }

  /** Every event has a place of its own, after the first cell. */
  ghost predicate Places(log: Log) {
    && (forall i | 0 <= i < |log| :: log[i].pos > 0)
    && (forall i, j | 0 <= i < j < |log| :: log[i].pos != log[j].pos)
  }

  // ---------------------------------------------------------------- one more event

  lemma {:induction false} FirstDefSnoc(log: Log, e: Event, l: Label)
    ensures FirstDef(log + [e], l) == if FirstDef(log, l).Some? then FirstDef(log, l) else if e.Def? && e.name == l then Some(e.pos) else None
    decreases |log|
  {
    if log == [] {
      assert FirstDef((log + [e])[1..], l) == None;
    } else {
      assert (log + [e])[1..] == log[1..] + [e];
      FirstDefSnoc(log[1..], e, l);
    }
  }

  lemma SnocParts(log: Log, e: Event, i: nat)
    requires i < |log|
    ensures (log + [e])[..i] == log[..i] && (log + [e])[i + 1..] == log[i + 1..] + [e] && (log + [e])[i] == log[i]
    ensures (log + [e])[..|log|] == log
  {}

  /** The goal of an old reference can only change from none to a new definition. */
  lemma GoalSnoc(log: Log, e: Event, i: nat)
    requires i < |log| && log[i].Ref?
    ensures Goal(log, i).Some? ==> Goal(log + [e], i) == Goal(log, i)
    ensures Goal(log, i).None? ==> Goal(log + [e], i) == if e.Def? && e.name == log[i].name && log[i].kind != Back then Some(e.pos) else None
  {
    SnocParts(log, e, i);
    FirstDefSnoc(log[i + 1..], e, log[i].name);
  }

  lemma {:induction false} PendingAre(log: Log, l: Label, q: int)
    requires q in Pending(log, l)
    ensures exists i :: 0 <= i < |log| && log[i].Ref? && log[i].name == l && log[i].pos == q && log[i].kind != Back
    decreases |log|
  {
    var rest := log[..|log| - 1];
    var e := log[|log| - 1];
    if e.name == l && e.Ref? && e.pos == q && (e.kind == Fwd || (e.kind == Any && LastDef(rest, l).None?)) {
      assert log[|log| - 1].pos == q;
    } else {
      PendingAre(rest, l, q);
      var i :| 0 <= i < |rest| && rest[i].Ref? && rest[i].name == l && rest[i].pos == q && rest[i].kind != Back;
      assert log[i] == rest[i];
    }
  }

  lemma {:induction false} PendingDistinct(log: Log, l: Label)
    requires Places(log)
    ensures NoDuplicates(Pending(log, l)) && forall q <- Pending(log, l) :: q > 0
    decreases |log|
  {
    if log != [] {
      var rest, e := log[..|log| - 1], log[|log| - 1];
      PendingDistinct(rest, l);
      forall q | q in Pending(rest, l)
        ensures q != e.pos
      {
        PendingAre(rest, l, q);
        var i :| 0 <= i < |rest| && rest[i].pos == q;
        assert log[i].pos == q;
      }
      ConsDistinct(e.pos, Pending(rest, l));
    }
  }

  lemma ConsDistinct(x: int, s: seq<int>)
    requires NoDuplicates(s) && x !in s
    ensures NoDuplicates([x] + s)
  {
    var r := [x] + s;
    forall i, j | 0 <= i < j < |r|
      ensures r[i] != r[j]
    {
      assert r[j] == s[j - 1];
    }
  }

  // ---------------------------------------------------------------- references

  lemma PendingSnoc(log: Log, e: Event, l: Label)
    ensures Pending(log + [e], l) ==
      if e.name != l then Pending(log, l)
      else if e.Def? then []
      else if e.kind == Fwd || (e.kind == Any && LastDef(log, l).None?) then [e.pos] + Pending(log, l)
      else Pending(log, l)
    ensures LastDef(log + [e], l) == if e.Def? && e.name == l then Some(e.pos) else LastDef(log, l)
  {
    assert (log + [e])[..|log|] == log;
  }

  /** A new place is in no chain. */
  lemma FreshPlace(log: Log, e: Event, l: Label)
    requires Places(log + [e])
    ensures Places(log) && e.pos !in Pending(log, l) && e.pos > 0
  {
    forall i, j | 0 <= i < j < |log|
      ensures log[i].pos != log[j].pos
    {
      assert (log + [e])[i].pos != (log + [e])[j].pos;
    }
    forall i | 0 <= i < |log|
      ensures log[i].pos > 0
    {
      assert (log + [e])[i].pos > 0;
    }
    assert (log + [e])[|log|] == e;
    forall q | q in Pending(log, l)
      ensures q != e.pos
    {
      PendingAre(log, l, q);
      var i :| 0 <= i < |log| && log[i].pos == q;
      assert (log + [e])[i].pos != (log + [e])[|log|].pos;
    }
  }

  /** The cell of a new reference, and the slot of its label, after dasm_put. */
  function RefSlot(v: int, e: Event): int
    requires e.Ref?
  {
    if e.kind == Fwd || v >= 0 then e.pos else v
  }

  function RefCell(v: int, e: Event): int
    requires e.Ref?
  {
    if e.kind == Fwd then (if v < 0 then 0 else v) else if v < 0 then -v else v
  }

  /** The new reference itself. A local label used backwards must exist: that is the check
      dasm_put makes. */
  lemma RefNew(log: Log, e: Event, cells: map<int, int>, v: int)
    requires e.Ref? && SlotOk(log, cells, v, e.name) && Places(log + [e]) && Kinds(log + [e]) && (e.kind == Back ==> v < 0)
    ensures var cells' := cells[e.pos := RefCell(v, e)];
      RefOk(log + [e], cells', |log|) && SlotOk(log + [e], cells', RefSlot(v, e), e.name)
  {
    var log', cells' := log + [e], cells[e.pos := RefCell(v, e)];
    FreshPlace(log, e, e.name);
    PendingSnoc(log, e, e.name);
    assert log'[|log|] == e && log'[..|log|] == log && log'[|log| + 1..] == [];
    var s := Pending(log, e.name);
    if v >= 0 { ChainKept(cells, cells', v, s); }
    assert ([e.pos] + s)[1..] == s;
  }

  /** Slots of other labels do not notice. */
  lemma SlotKept(log: Log, e: Event, cells: map<int, int>, cells': map<int, int>, v: int, l: Label)
    requires SlotOk(log, cells, v, l) && l != e.name && Places(log + [e])
    requires forall a <- Pending(log, l) :: a in cells ==> a in cells' && cells'[a] == cells[a]
    ensures SlotOk(log + [e], cells', v, l)
  {
    PendingSnoc(log, e, l);
    if v >= 0 { ChainKept(cells, cells', v, Pending(log, l)); }
  }

  // ---------------------------------------------------------------- definitions

  /** All cells of a chain set to one value. */
  ghost function SetAll(cells: map<int, int>, s: seq<int>, v: int): map<int, int> {
    map a | a in cells :: if a in s then v else cells[a]
  }

  /** One step of the loop that collapses a chain. */
  lemma CollapseStep(cells: map<int, int>, n: int, s: seq<int>, v: int)
    requires Chain(cells, n, s) && s != [] && NoDuplicates(s)
    ensures n == s[0] && n > 0 && n in cells && Chain(cells[n := v], cells[n], s[1..]) && NoDuplicates(s[1..])
    ensures SetAll(cells[n := v], s[1..], v) == SetAll(cells, s, v)
  {
    forall q | q in s[1..]
      ensures q != n
    {
      var j :| 0 <= j < |s| - 1 && s[1..][j] == q;
      assert s[j + 1] == q;
    }
    ChainKept(cells, cells[n := v], cells[n], s[1..]);
    forall a | a in s && a != n
      ensures a in s[1..]
    {
      var j :| 0 <= j < |s| && s[j] == a;
      assert s[1..][j - 1] == a;
    }
  }

  /** After the definition its label has no pending reference, and all that waited have it as
      their goal. */
  lemma DefRef(log: Log, e: Event, cells: map<int, int>, i: nat)
    requires e.Def? && i < |log| && log[i].Ref? && log[i].name == e.name && RefOk(log, cells, i) && Places(log + [e]) && Kinds(log + [e])
    requires forall q <- Pending(log, e.name) :: q in cells
    ensures RefOk(log + [e], SetAll(cells, Pending(log, e.name), e.pos), i)
  {
    SnocParts(log, e, i);
    GoalSnoc(log, e, i);
    PendingSnoc(log, e, e.name);
    if Goal(log, i).Some? {
      if log[i].pos in Pending(log, e.name) { PendingGoal(log, e.name, i); }
    } else {
      PendingAre(log, e.name, log[i].pos);
      var j :| 0 <= j < |log| && log[j].Ref? && log[j].pos == log[i].pos && log[j].kind != Back;
      assert (log + [e])[j].pos == (log + [e])[i].pos;
    }
  }

  /** What waits has no goal yet. */
  lemma {:induction false} PendingGoal(log: Log, l: Label, i: nat)
    requires i < |log| && log[i].Ref? && log[i].name == l && log[i].pos in Pending(log, l) && Places(log)
    ensures Goal(log, i).None?
    decreases |log|
  {
    var rest, e := log[..|log| - 1], log[|log| - 1];
    assert log == rest + [e];
    if i == |log| - 1 {
      assert log[i + 1..] == [];
      if e.pos in Pending(rest, l) { FreshPlace(rest, e, l); }
      assert log[..i] == rest;
    } else {
      SnocParts(rest, e, i);
      PlacesRest(log);
      PendingGoal(rest, l, i);
      GoalSnoc(rest, e, i);
      PendingSnoc(rest, e, l);
    }
  }

  lemma PlacesRest(log: Log)
    requires Places(log) && log != []
    ensures Places(log[..|log| - 1])
  {
    var rest := log[..|log| - 1];
    forall i, j | 0 <= i < j < |rest|
      ensures rest[i].pos != rest[j].pos
    {
      assert log[i].pos != log[j].pos;
    }
  }
}
