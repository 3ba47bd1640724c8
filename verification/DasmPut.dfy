/** Pass 1 of DynASM: dasm_put stores actions, links branches and labels, and assumes the
    largest offsets. */
module DasmPut {
  import opened DasmLabels
  import opened DasmLayout
  import opened DasmStore

  /** The state of pass 1, with the record of what was put. */
  datatype Pass1 = Pass1(cells: Store, labels: map<Label, int>, prog: Program, log: Log, index: map<int, nat>, home: map<int, Place>)

  ghost predicate Good(m: Pass1) {
    && Small(m.prog) && Opcodes(m.prog) && AllStored(m.cells, m.prog) && Recorded(m.prog, m.log, m.index, m.home)
    && Places(m.log) && Kinds(m.log) && RefsOk(m.log, m.cells) && SlotsOk(m.log, m.cells, m.labels)
  }

  /** The first free cell of a section. */
  ghost function Top(m: Pass1, s: nat): int
    requires s < |m.prog|
  {
    s * SECTION + CellAt(m.prog[s], |m.prog[s]|)
  }

  /** An action may be appended: its opcode is in front of it, and its cells fit. */
  ghost predicate MayAppend(m: Pass1, s: nat, a: Action) {
    && Good(m) && s < |m.prog| && CellAt(m.prog[s], |m.prog[s]|) + Cells(a) <= SECTION && OpcodeOk(m.prog[s] + [a], |m.prog[s]|)
  }

  // ---------------------------------------------------------------- cells of events

  /** The position of an event is the first cell of its action, which is stored. */
  lemma EventCell(m: Pass1, i: nat)
    requires Good(m) && i < |m.log|
    ensures var q := m.log[i].pos; q in m.home && IsPlace(m.prog, m.home[q]) && PosIn(m.prog, m.home[q]) == q && q in m.cells
    ensures var q := m.log[i].pos; var a := m.prog[m.home[q].s][m.home[q].k];
      (a.Rel? || a.Lab?) && m.log[i] == EventOf(a, q) && Cells(a) > 0
  {
    assert m.log[i] == m.log[i];
    assert Stored(m.cells, m.prog, m.home[m.log[i].pos]);
  }

  lemma PendingCell(m: Pass1, l: Label, q: int)
    requires Good(m) && q in Pending(m.log, l)
    ensures q in m.cells && q in m.home && IsPlace(m.prog, m.home[q]) && PosIn(m.prog, m.home[q]) == q
    ensures m.prog[m.home[q].s][m.home[q].k].Rel?
  {
    PendingAre(m.log, l, q);
    var i :| 0 <= i < |m.log| && m.log[i].Ref? && m.log[i].pos == q;
    EventCell(m, i);
  }

  lemma SmallAppend(m: Pass1, s: nat, a: Action)
    requires MayAppend(m, s, a)
    ensures Small(Appended(m.prog, s, a)) && Opcodes(Appended(m.prog, s, a))
  {
    var prog' := Appended(m.prog, s, a);
    AppendNew(m.prog, s, a);
    forall r | 0 <= r < |prog'|
      ensures CellAt(prog'[r], |prog'[r]|) <= SECTION
    {}
    forall r, k | 0 <= r < |prog'| && 0 <= k < |prog'[r]|
      ensures OpcodeOk(prog'[r], k)
    {
      if r == s && k < |m.prog[s]| { assert OpcodeOk(m.prog[s], k); }
      if r != s { assert OpcodeOk(m.prog[r], k); }
    }
  }

  /** Events are not in the new cells. */
  lemma EventElsewhere(m: Pass1, s: nat, a: Action, i: nat)
    requires MayAppend(m, s, a) && i < |m.log|
    ensures !(Top(m, s) <= m.log[i].pos < Top(m, s) + Cells(a))
  {
    EventCell(m, i);
    SmallAppend(m, s, a);
    NewCellsApart(m.prog, s, a, m.home[m.log[i].pos], 0);
  }

  // ---------------------------------------------------------------- the parts of the invariant

  /** The stored cells, when only new cells and cells of references have been written. */
  lemma AppendStored(m: Pass1, s: nat, a: Action, cells': Store, refs: set<int>)
    requires MayAppend(m, s, a) && Stored(cells', Appended(m.prog, s, a), Place(s, |m.prog[s]|))
    requires forall c :: c !in refs && !(Top(m, s) <= c < Top(m, s) + Cells(a)) ==> CellKept(m.cells, cells', c)
    requires forall c <- refs :: (c in m.cells ==> c in cells') && exists r :: IsPlace(m.prog, r) && m.prog[r.s][r.k].Rel? && PosIn(m.prog, r) == c
    ensures AllStored(cells', Appended(m.prog, s, a))
  {
    var prog' := Appended(m.prog, s, a);
    SmallAppend(m, s, a);
    forall p | IsPlace(prog', p)
      ensures Stored(cells', prog', p)
    {
      AppendPlaces(m.prog, s, a, p);
      if p != Place(s, |m.prog[s]|) {
        assert Stored(m.cells, m.prog, p);
        WritesElsewhere(m.cells, cells', m.prog, s, a, refs, p);
        StoredKept(m.cells, cells', m.prog, s, a, p);
      }
    }
  }

  lemma OldRecord(m: Pass1, s: nat, a: Action, p: Place)
    requires Good(m) && s < |m.prog| && IsPlace(Appended(m.prog, s, a), p) && p != Place(s, |m.prog[s]|)
    ensures IsPlace(m.prog, p) && PosIn(Appended(m.prog, s, a), p) == PosIn(m.prog, p) && Appended(m.prog, s, a)[p.s][p.k] == m.prog[p.s][p.k]
    ensures var b := m.prog[p.s][p.k]; b.Rel? || b.Lab? ==>
      var q := PosIn(m.prog, p); q in m.index && m.index[q] < |m.log| && m.log[m.index[q]] == EventOf(b, q)
  {
    AppendPlaces(m.prog, s, a, p);
    AppendFacts(m.prog, s, a, p);
  }

  lemma RecordedPlain(m: Pass1, s: nat, a: Action)
    requires MayAppend(m, s, a) && !a.Rel? && !a.Lab?
    ensures Recorded(Appended(m.prog, s, a), m.log, m.index, m.home)
  {
    var prog' := Appended(m.prog, s, a);
    AppendNew(m.prog, s, a);
    forall p | IsPlace(prog', p) && (prog'[p.s][p.k].Rel? || prog'[p.s][p.k].Lab?)
      ensures var q := PosIn(prog', p); q in m.index && m.index[q] < |m.log| && m.log[m.index[q]] == EventOf(prog'[p.s][p.k], q)
    {
      OldRecord(m, s, a, p);
    }
    forall i | 0 <= i < |m.log|
      ensures var q := m.log[i].pos; q in m.home && IsPlace(prog', m.home[q]) && PosIn(prog', m.home[q]) == q
      ensures var p := m.home[m.log[i].pos]; prog'[p.s][p.k] == m.prog[p.s][p.k]
    {
      EventCell(m, i);
      AppendFacts(m.prog, s, a, m.home[m.log[i].pos]);
    }
  }

  lemma RecordedEvent(m: Pass1, s: nat, a: Action)
    requires MayAppend(m, s, a) && (a.Rel? || a.Lab?)
    ensures var q := Top(m, s); var log' := m.log + [EventOf(a, q)];
      Recorded(Appended(m.prog, s, a), log', m.index[q := |m.log|], m.home[q := Place(s, |m.prog[s]|)])
  {
    var prog', q, n := Appended(m.prog, s, a), Top(m, s), Place(s, |m.prog[s]|);
    var log', index', home' := m.log + [EventOf(a, q)], m.index[q := |m.log|], m.home[q := n];
    AppendNew(m.prog, s, a);
    SmallAppend(m, s, a);
    forall p | IsPlace(prog', p) && (prog'[p.s][p.k].Rel? || prog'[p.s][p.k].Lab?)
      ensures var c := PosIn(prog', p); c in index' && index'[c] < |log'| && log'[index'[c]] == EventOf(prog'[p.s][p.k], c)
    {
      if p != n {
        OldRecord(m, s, a, p);
        NewCellsApart(m.prog, s, a, p, 0);
      }
    }
    forall i | 0 <= i < |log'|
      ensures var c := log'[i].pos; c in home' && IsPlace(prog', home'[c]) && PosIn(prog', home'[c]) == c
      ensures var c := log'[i].pos; prog'[home'[c].s][home'[c].k].Rel? || prog'[home'[c].s][home'[c].k].Lab?
      ensures var c := log'[i].pos; log'[i] == EventOf(prog'[home'[c].s][home'[c].k], c)
    {
      if i < |m.log| {
        EventCell(m, i);
        EventElsewhere(m, s, a, i);
        AppendFacts(m.prog, s, a, m.home[m.log[i].pos]);
      }
    }
  }

  lemma NewPlace(m: Pass1, s: nat, a: Action)
    requires MayAppend(m, s, a) && (a.Rel? || a.Lab?) && Top(m, s) > 0
    ensures var log' := m.log + [EventOf(a, Top(m, s))]; Places(log') && Kinds(log')
  {
    var log' := m.log + [EventOf(a, Top(m, s))];
    forall i, j | 0 <= i < j < |log'|
      ensures log'[i].pos != log'[j].pos
    {
      if j == |m.log| { EventElsewhere(m, s, a, i); }
    }
    assert (m.prog[s] + [a])[|m.prog[s]|] == a;
  }

  // ---------------------------------------------------------------- one more action

  /** An action without a label. */
  lemma AppendPlain(m: Pass1, s: nat, a: Action, v: int)
    requires MayAppend(m, s, a) && !a.Rel? && !a.Lab?
    requires match a
      case Imm(n, _) => v == n
      case Align(bits) => v == Est(m.prog[s], |m.prog[s]|) + Mask(bits)
      case Space(n, _) => v == n
      case _ => true
    ensures var cells' := if a.Byte? then m.cells else m.cells[Top(m, s) := v];
      Good(m.(cells := cells', prog := Appended(m.prog, s, a)))
  {
    var cells' := if a.Byte? then m.cells else m.cells[Top(m, s) := v];
    AppendNew(m.prog, s, a);
    AppendStored(m, s, a, cells', {});
    RecordedPlain(m, s, a);
    SmallAppend(m, s, a);
    forall i: nat | i < |m.log|
      ensures RefOk(m.log, cells', i) && CellKept(m.cells, cells', m.log[i].pos)
    {
      assert RefOk(m.log, m.cells, i);
      EventElsewhere(m, s, a, i);
    }
    forall l
      ensures SlotOk(m.log, cells', Slot(m.labels, l), l)
    {
      SlotUnwritten(m, cells', l);
    }
  }

  lemma SlotUnwritten(m: Pass1, cells': Store, l: Label)
    requires Good(m) && forall i: nat | i < |m.log| :: CellKept(m.cells, cells', m.log[i].pos)
    ensures SlotOk(m.log, cells', Slot(m.labels, l), l)
  {
    var v := Slot(m.labels, l);
    assert SlotOk(m.log, m.cells, v, l);
    if v >= 0 {
      forall q | q in Pending(m.log, l)
        ensures CellKept(m.cells, cells', q)
      {
        PendingAre(m.log, l, q);
        var i: nat :| i < |m.log| && m.log[i].pos == q;
        assert CellKept(m.cells, cells', m.log[i].pos);
      }
      ChainKept(m.cells, cells', v, Pending(m.log, l));
    }
  }

  /** A branch. */
  lemma AppendRel(m: Pass1, s: nat, a: Action)
    requires MayAppend(m, s, a) && a.Rel? && Top(m, s) > 0 && (a.kind == Back ==> Slot(m.labels, a.name) < 0)
    ensures var q, v := Top(m, s), Slot(m.labels, a.name); var e := EventOf(a, q);
      Good(Pass1(RelCells(m, s, a), m.labels[a.name := RefSlot(v, e)],
                 Appended(m.prog, s, a), m.log + [e], m.index[q := |m.log|], m.home[q := Place(s, |m.prog[s]|)]))
  {
    AppendNew(m.prog, s, a);
    AppendStored(m, s, a, RelCells(m, s, a), {});
    RecordedEvent(m, s, a);
    SmallAppend(m, s, a);
    NewPlace(m, s, a);
    hide RefOk, SlotOk;
    AppendRelLog(m, s, a);
  }

  /** The cells after a branch has been stored. */
  ghost function RelCells(m: Pass1, s: nat, a: Action): Store
    requires s < |m.prog| && a.Rel?
  {
    m.cells[Top(m, s) := RefCell(Slot(m.labels, a.name), EventOf(a, Top(m, s)))][Top(m, s) + 1 := Est(m.prog[s], |m.prog[s]|) + 4]
  }

  ghost predicate MayAppendRel(m: Pass1, s: nat, a: Action) {
    && MayAppend(m, s, a) && a.Rel? && (a.kind == Back ==> Slot(m.labels, a.name) < 0)
    && Places(m.log + [EventOf(a, Top(m, s))]) && Kinds(m.log + [EventOf(a, Top(m, s))])
  }

  lemma AppendRelLog(m: Pass1, s: nat, a: Action)
    requires MayAppendRel(m, s, a)
    ensures var e := EventOf(a, Top(m, s));
      RefsOk(m.log + [e], RelCells(m, s, a)) && SlotsOk(m.log + [e], RelCells(m, s, a), m.labels[a.name := RefSlot(Slot(m.labels, a.name), e)])
  {
    var e, cells' := EventOf(a, Top(m, s)), RelCells(m, s, a);
    var log', labels' := m.log + [e], m.labels[a.name := RefSlot(Slot(m.labels, a.name), e)];
    forall i: nat | i < |log'|
      ensures RefOk(log', cells', i)
    {
      RelRef(m, s, a, i);
    }
    forall l
      ensures SlotOk(log', cells', Slot(labels', l), l)
    {
      RelSlot(m, s, a, l);
    }
  }

  lemma EventsKept(m: Pass1, s: nat, a: Action)
    requires MayAppendRel(m, s, a)
    ensures forall i: nat | i < |m.log| :: CellKept(m.cells, RelCells(m, s, a), m.log[i].pos) && m.log[i].pos != Top(m, s) + 1
  {
    forall i: nat | i < |m.log|
      ensures CellKept(m.cells, RelCells(m, s, a), m.log[i].pos) && m.log[i].pos != Top(m, s) + 1
    {
      EventElsewhere(m, s, a, i);
    }
  }

  lemma RelRef(m: Pass1, s: nat, a: Action, i: nat)
    requires MayAppendRel(m, s, a) && i < |m.log| + 1
    ensures RefOk(m.log + [EventOf(a, Top(m, s))], RelCells(m, s, a), i)
  {
    var e := EventOf(a, Top(m, s));
    if i < |m.log| {
      EventsKept(m, s, a);
      OldRef(m, e, RelCells(m, s, a), i);
    } else {
      assert SlotOk(m.log, m.cells, Slot(m.labels, a.name), a.name);
      RefNew(m.log, e, m.cells, Slot(m.labels, a.name));
    }
  }

  lemma RelSlot(m: Pass1, s: nat, a: Action, l: Label)
    requires MayAppendRel(m, s, a)
    ensures var e := EventOf(a, Top(m, s)); var labels' := m.labels[a.name := RefSlot(Slot(m.labels, a.name), e)];
      SlotOk(m.log + [e], RelCells(m, s, a), Slot(labels', l), l)
  {
    var e, v := EventOf(a, Top(m, s)), Slot(m.labels, a.name);
    EventsKept(m, s, a);
    if l == a.name {
      assert SlotOk(m.log, m.cells, v, a.name);
      RefNew(m.log, e, m.cells, v);
      SlotSecond(m.log + [e], m.cells[e.pos := RefCell(v, e)], RelCells(m, s, a), RefSlot(v, e), l, e.pos + 1, m.log, e);
    } else {
      SlotOther(m, e, RelCells(m, s, a), l);
    }
  }

  lemma OldRef(m: Pass1, e: Event, cells': Store, i: nat)
    requires Good(m) && i < |m.log| && Places(m.log + [e]) && CellKept(m.cells, cells', m.log[i].pos) && !(e.Def? && e.name == m.log[i].name)
    ensures RefOk(m.log + [e], cells', i)
  {
    assert RefOk(m.log, m.cells, i);
    if m.log[i].Ref? { RefStill(m.log, e, m.cells, cells', i); }
  }

  /** As RefKept, for cells that hold events only. */
  lemma RefStill(log: Log, e: Event, cells: Store, cells': Store, i: nat)
    requires i < |log| && log[i].Ref? && RefOk(log, cells, i) && Places(log + [e]) && !(e.Def? && e.name == log[i].name)
    requires CellKept(cells, cells', log[i].pos)
    ensures RefOk(log + [e], cells', i)
  {
    SnocParts(log, e, i);
    GoalSnoc(log, e, i);
    PendingSnoc(log, e, log[i].name);
  }

  lemma SlotOther(m: Pass1, e: Event, cells': Store, l: Label)
    requires Good(m) && Places(m.log + [e]) && l != e.name && forall i: nat | i < |m.log| :: CellKept(m.cells, cells', m.log[i].pos)
    ensures SlotOk(m.log + [e], cells', Slot(m.labels, l), l)
  {
    SlotUnwritten(m, cells', l);
    SlotKept(m.log, e, cells', cells', Slot(m.labels, l), l);
  }

  /** The estimate next to a reference is in no chain. */
  lemma SlotSecond(log': Log, cells1: Store, cells': Store, v: int, l: Label, c: int, log: Log, e: Event)
    requires SlotOk(log', cells1, v, l) && log' == log + [e] && e.pos != c && (forall i: nat | i < |log| :: log'[i].pos != c)
    requires c in cells' && cells' == cells1[c := cells'[c]]
    ensures SlotOk(log', cells', v, l)
  {
    if v >= 0 {
      forall q | q in Pending(log', l)
        ensures q != c
      {
        PendingAre(log', l, q);
        var i: nat :| i < |log'| && log'[i].pos == q;
        assert i < |log| ==> log'[i].pos != c;
      }
      ChainKept(cells1, cells', v, Pending(log', l));
    }
  }

  /** A label: what waits for it gets its position. */
  lemma AppendLab(m: Pass1, s: nat, a: Action)
    requires MayAppend(m, s, a) && a.Lab? && Top(m, s) > 0
    ensures var q := Top(m, s); var e := EventOf(a, q);
      Good(Pass1(SetAll(m.cells, Pending(m.log, a.name), q)[q := Est(m.prog[s], |m.prog[s]|)], m.labels[a.name := -q],
                 Appended(m.prog, s, a), m.log + [e], m.index[q := |m.log|], m.home[q := Place(s, |m.prog[s]|)]))
  {
    var q := Top(m, s);
    var e, s0 := EventOf(a, q), Pending(m.log, a.name);
    var cells1 := SetAll(m.cells, s0, q);
    var cells' := cells1[q := Est(m.prog[s], |m.prog[s]|)];
    AppendNew(m.prog, s, a);
    var refs := set c | c in s0;
    forall c | c in refs
      ensures (c in m.cells ==> c in cells') && exists r :: IsPlace(m.prog, r) && m.prog[r.s][r.k].Rel? && PosIn(m.prog, r) == c
    {
      PendingCell(m, a.name, c);
    }
    AppendStored(m, s, a, cells', refs);
    RecordedEvent(m, s, a);
    SmallAppend(m, s, a);
    NewPlace(m, s, a);
    AppendLabLog(m, s, a, cells');
  }

  lemma AppendLabLog(m: Pass1, s: nat, a: Action, cells': Store)
    requires MayAppend(m, s, a) && a.Lab?
    requires cells' == SetAll(m.cells, Pending(m.log, a.name), Top(m, s))[Top(m, s) := Est(m.prog[s], |m.prog[s]|)]
    requires var log' := m.log + [EventOf(a, Top(m, s))]; Places(log') && Kinds(log')
    ensures var e := EventOf(a, Top(m, s)); RefsOk(m.log + [e], cells') && SlotsOk(m.log + [e], cells', m.labels[a.name := -Top(m, s)])
  {
    hide Good, SlotOk, RefOk, Places, Kinds, Opcodes, Small, OpcodeOk;
    var log', labels' := m.log + [EventOf(a, Top(m, s))], m.labels[a.name := -Top(m, s)];
    forall i: nat | i < |log'|
      ensures RefOk(log', cells', i)
    {
      LabRef(m, s, a, cells', i);
    }
    forall l
      ensures SlotOk(log', cells', Slot(labels', l), l)
    {
      LabSlot(m, s, a, cells', l);
    }
  }

  lemma LabSlot(m: Pass1, s: nat, a: Action, cells': Store, l: Label)
    requires MayAppend(m, s, a) && a.Lab? && Places(m.log + [EventOf(a, Top(m, s))])
    requires cells' == SetAll(m.cells, Pending(m.log, a.name), Top(m, s))[Top(m, s) := Est(m.prog[s], |m.prog[s]|)]
    ensures SlotOk(m.log + [EventOf(a, Top(m, s))], cells', Slot(m.labels[a.name := -Top(m, s)], l), l)
  {
    if l == a.name {
      PendingSnoc(m.log, EventOf(a, Top(m, s)), l);
      FreshPlace(m.log, EventOf(a, Top(m, s)), l);
    } else {
      LabSlotOther(m, s, a, cells', l);
    }
  }

  lemma LabRef(m: Pass1, s: nat, a: Action, cells': Store, i: nat)
    requires MayAppend(m, s, a) && a.Lab? && i < |m.log| + 1
    requires cells' == SetAll(m.cells, Pending(m.log, a.name), Top(m, s))[Top(m, s) := Est(m.prog[s], |m.prog[s]|)]
    requires var log' := m.log + [EventOf(a, Top(m, s))]; Places(log') && Kinds(log')
    ensures RefOk(m.log + [EventOf(a, Top(m, s))], cells', i)
  {
    if i < |m.log| { LabOldRef(m, s, a, cells', i); }
  }

  lemma LabOldRef(m: Pass1, s: nat, a: Action, cells': Store, i: nat)
    requires MayAppend(m, s, a) && a.Lab? && i < |m.log|
    requires cells' == SetAll(m.cells, Pending(m.log, a.name), Top(m, s))[Top(m, s) := Est(m.prog[s], |m.prog[s]|)]
    requires var log' := m.log + [EventOf(a, Top(m, s))]; Places(log') && Kinds(log')
    ensures RefOk(m.log + [EventOf(a, Top(m, s))], cells', i)
  {
    var q := Top(m, s);
    var e, s0 := EventOf(a, q), Pending(m.log, a.name);
    forall c | c in s0
      ensures c in m.cells
    {
      PendingCell(m, a.name, c);
    }
    assert RefOk(m.log, m.cells, i);
    EventElsewhere(m, s, a, i);
    EventCell(m, i);
    if m.log[i].Ref? && m.log[i].name == a.name {
      DefRef(m.log, e, m.cells, i);
      PendingSnoc(m.log, e, a.name);
    } else {
      if m.log[i].Ref? && m.log[i].pos in s0 { NotOthers(m.log, a.name, i); }
      if m.log[i].Ref? { RefStill(m.log, e, m.cells, cells', i); }
    }
  }

  lemma SamePlace(log: Log, i: nat, j: nat)
    requires Places(log) && i < |log| && j < |log| && log[i].pos == log[j].pos
    ensures i == j
  {}

  /** A reference that waits for a label carries its name. */
  lemma NotOthers(log: Log, l: Label, i: nat)
    requires Places(log) && i < |log| && log[i].Ref? && log[i].pos in Pending(log, l)
    ensures log[i].name == l
  {
    PendingAre(log, l, log[i].pos);
    var j :| 0 <= j < |log| && log[j].Ref? && log[j].name == l && log[j].pos == log[i].pos;
    SamePlace(log, i, j);
  }

  lemma LabSlotOther(m: Pass1, s: nat, a: Action, cells': Store, l: Label)
    requires MayAppend(m, s, a) && a.Lab? && l != a.name && Places(m.log + [EventOf(a, Top(m, s))])
    requires cells' == SetAll(m.cells, Pending(m.log, a.name), Top(m, s))[Top(m, s) := Est(m.prog[s], |m.prog[s]|)]
    ensures SlotOk(m.log + [EventOf(a, Top(m, s))], cells', Slot(m.labels, l), l)
  {
    var v, e := Slot(m.labels, l), EventOf(a, Top(m, s));
    assert SlotOk(m.log, m.cells, v, l);
    forall c | c in Pending(m.log, l)
      ensures CellKept(m.cells, cells', c)
    {
      PendingAre(m.log, l, c);
      var i: nat :| i < |m.log| && m.log[i].Ref? && m.log[i].name == l && m.log[i].pos == c;
      EventElsewhere(m, s, a, i);
      if c in Pending(m.log, a.name) { NotOthers(m.log, a.name, i); }
    }
    SlotKept(m.log, e, m.cells, cells', v, l);
  }
}
