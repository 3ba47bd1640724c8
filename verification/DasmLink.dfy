/** Pass 2 of DynASM: dasm_link chooses the short branches and fixes the offsets of labels. */
module DasmLink {
  import opened DasmLabels
  import opened DasmLayout
  import opened DasmStore
  import opened DasmPut

  // ---------------------------------------------------------------- where branches go

  /** Every branch has found its label. */
  ghost predicate Resolved(m: Pass1) {
    Good(m) && forall i: nat {:trigger m.log[i]} | i < |m.log| && m.log[i].Ref? :: Goal(m.log, i).Some?
  }

  /** The check of dasm_link: no label slot is positive. */
  lemma AllResolved(m: Pass1)
    requires Good(m) && forall l :: Slot(m.labels, l) <= 0
    ensures Resolved(m)
  {
    forall i: nat | i < |m.log| && m.log[i].Ref?
      ensures Goal(m.log, i).Some?
    {
      var l := m.log[i].name;
      assert RefOk(m.log, m.cells, i);
      assert SlotOk(m.log, m.cells, Slot(m.labels, l), l);
    }
  }

  ghost predicate IsRel(prog: Program, p: Place) { IsPlace(prog, p) && prog[p.s][p.k].Rel? }

  ghost predicate IsLab(prog: Program, p: Place, l: Label) { IsPlace(prog, p) && prog[p.s][p.k] == Lab(l) }

  lemma {:induction false} LastDefIs(log: Log, l: Label)
    requires LastDef(log, l).Some?
    ensures Def(l, LastDef(log, l).pos) in log
    decreases |log|
  {
    var e := log[|log| - 1];
    if !(e.Def? && e.name == l) { LastDefIs(log[..|log| - 1], l); }
  }

  lemma {:induction false} FirstDefIs(log: Log, l: Label)
    requires FirstDef(log, l).Some?
    ensures Def(l, FirstDef(log, l).pos) in log
    decreases |log|
  {
    if !(log[0].Def? && log[0].name == l) { FirstDefIs(log[1..], l); }
  }

  lemma GoalIs(log: Log, i: nat)
    requires i < |log| && log[i].Ref? && Goal(log, i).Some?
    ensures Def(log[i].name, Goal(log, i).pos) in log
  {
    if LastDef(log[..i], log[i].name).Some? { LastDefIs(log[..i], log[i].name); }
    if FirstDef(log[i + 1..], log[i].name).Some? { FirstDefIs(log[i + 1..], log[i].name); }
  }

  /** The cell of a branch holds the position of the definition it names. */
  lemma RelGoal(m: Pass1, p: Place)
    requires Resolved(m) && IsRel(m.prog, p)
    ensures var q := PosIn(m.prog, p);
      q in m.index && m.index[q] < |m.log| && m.log[m.index[q]] == EventOf(m.prog[p.s][p.k], q)
      && Goal(m.log, m.index[q]).Some? && q in m.cells && m.cells[q] == Goal(m.log, m.index[q]).pos
    ensures var g := Goal(m.log, m.index[PosIn(m.prog, p)]).pos;
      g in m.home && IsLab(m.prog, m.home[g], m.prog[p.s][p.k].name) && PosIn(m.prog, m.home[g]) == g
  {
    var q := PosIn(m.prog, p);
    assert IsPlace(m.prog, p);
    var i := m.index[q];
    assert m.log[i] == EventOf(m.prog[p.s][p.k], q);
    assert RefOk(m.log, m.cells, i);
    GoalIs(m.log, i);
    var j: nat :| j < |m.log| && m.log[j] == Def(m.log[i].name, Goal(m.log, i).pos);
    EventCell(m, j);
  }

  /** The place of the label a branch names. */
  ghost function Target(m: Pass1, p: Place): (t: Place)
    requires Resolved(m) && IsRel(m.prog, p)
    ensures IsLab(m.prog, t, m.prog[p.s][p.k].name)
    ensures PosIn(m.prog, p) in m.cells && m.cells[PosIn(m.prog, p)] == PosIn(m.prog, t)
  {
    RelGoal(m, p);
    m.home[Goal(m.log, m.index[PosIn(m.prog, p)]).pos]
  }

  // ---------------------------------------------------------------- the state of pass 2

  ghost predicate Done(p: Place, s: nat, k: nat) { p.s < s || (p.s == s && p.k < k) }

  ghost predicate SameCells(cells: Store, cells': Store, prog: Program, p: Place)
    requires IsPlace(prog, p)
  {
    var q, n := PosIn(prog, p), Cells(prog[p.s][p.k]);
    (n > 0 ==> CellKept(cells, cells', q)) && (n > 1 ==> CellKept(cells, cells', q + 1))
  }

  /** The cells of one action after pass 2. */
  ghost predicate LinkedAt(m: Pass1, cells: Store, shr: Shrinks, p: Place)
    requires IsPlace(m.prog, p)
  {
    var q := PosIn(m.prog, p);
    match m.prog[p.s][p.k]
    case Rel(_, _, _) => CellKept(m.cells, cells, q) && q + 1 in cells && cells[q + 1] == ShrinkAt(shr, q)
    case Lab(_) => q in cells && cells[q] == AddrOf(m.prog, shr, p.s, p.k)
    case _ => SameCells(m.cells, cells, m.prog, p)
  }

  /** How many bytes a branch with this opcode can save. */
  function Savings(op: nat): nat {
    if op == 0xe9 then 3 else if op / 16 == 8 then 4 else 0
  }

  /** The distance pass 2 assumes for a label further on. */
  ghost function Ahead(prog: Program, p: Place, t: Place): int
    requires IsPlace(prog, p) && IsPlace(prog, t) && p.s <= t.s
  {
    Est(prog[t.s], t.k) + MaxBetween(prog, p.s, t.s) - Est(prog[p.s], p.k + 1)
  }

  ghost predicate Before(p: Place, t: Place) { p.s < t.s || (p.s == t.s && p.k < t.k) }

  /** Why a short branch reaches its label. */
  ghost predicate ShortAt(m: Pass1, shr: Shrinks, p: Place)
    requires Resolved(m) && IsPlace(m.prog, p)
  {
    IsRel(m.prog, p) ==>
      var n, t := ShrinkAt(shr, PosIn(m.prog, p)), Target(m, p);
      && (n == 0 || n == Savings(m.prog[p.s][p.k].op))
      && (n > 0 && Before(p, t) ==> Ahead(m.prog, p, t) <= 127)
      && (n > 0 && !Before(p, t) ==> AddrOf(m.prog, shr, p.s, p.k + 1) - AddrOf(m.prog, shr, t.s, t.k) <= 128)
  }

  /** What pass 2 has done when it gets to action `k` of section `s`. */
  ghost predicate Linking(m: Pass1, cells: Store, shr: Shrinks, s: nat, k: nat) {
    && Resolved(m)
    && forall p {:trigger IsPlace(m.prog, p)} | IsPlace(m.prog, p) ::
         if Done(p, s, k) then LinkedAt(m, cells, shr, p) && ShortAt(m, shr, p) else SameCells(m.cells, cells, m.prog, p)
  }

  // ---------------------------------------------------------------- earlier addresses stay

  /** The bytes a branch saves do not move what is in front of it. */
  lemma {:induction false} AddrExtend(prog: Program, shr: Shrinks, q: Place, n: nat, s: nat, base: nat, k: nat)
    requires Small(prog) && IsRel(prog, q) && s < |prog| && k <= |prog[s]| && (s < q.s || (s == q.s && k <= q.k))
    ensures Addr(prog[s], shr[PosIn(prog, q) := n], s, base, k) == Addr(prog[s], shr, s, base, k)
    decreases k
  {
    if k > 0 {
      AddrExtend(prog, shr, q, n, s, base, k - 1);
      if prog[s][k - 1].Rel? && PosOf(s, prog[s], k - 1) == PosIn(prog, q) {
        CellsApart(prog, Place(s, k - 1), 0, q, 0);
      }
    }
  }

  lemma {:induction false} BaseExtend(prog: Program, shr: Shrinks, q: Place, n: nat, s: nat)
    requires Small(prog) && IsRel(prog, q) && s <= q.s
    ensures Base(prog, shr[PosIn(prog, q) := n], s) == Base(prog, shr, s)
  {
    if s > 0 {
      BaseExtend(prog, shr, q, n, s - 1);
      AddrExtend(prog, shr, q, n, s - 1, Base(prog, shr, s - 1), |prog[s - 1]|);
    }
  }

  lemma AddrOfExtend(prog: Program, shr: Shrinks, q: Place, n: nat, s: nat, k: nat)
    requires Small(prog) && IsRel(prog, q) && s < |prog| && k <= |prog[s]| && (s < q.s || (s == q.s && k <= q.k))
    ensures AddrOf(prog, shr[PosIn(prog, q) := n], s, k) == AddrOf(prog, shr, s, k)
  {
    BaseExtend(prog, shr, q, n, s);
    AddrExtend(prog, shr, q, n, s, Base(prog, shr, s), k);
  }

  // ---------------------------------------------------------------- one action

  /** Where `t` is a label and `p` a branch, pass 2 compares positions. */
  lemma Compared(m: Pass1, p: Place)
    requires Resolved(m) && IsRel(m.prog, p)
    ensures PosIn(m.prog, p) < PosIn(m.prog, Target(m, p)) <==> Before(p, Target(m, p))
    ensures PosIn(m.prog, Target(m, p)) / SECTION == Target(m, p).s
  {
    PosOrder(m.prog, p, Target(m, p));
    PosOrder(m.prog, Target(m, p), p);
  }

  /** What has been linked stays so when a later branch is linked. */
  lemma LinkedStays(m: Pass1, cells: Store, shr: Shrinks, q: Place, n: nat, p: Place)
    requires Resolved(m) && IsRel(m.prog, q) && IsPlace(m.prog, p) && Before(p, q) && LinkedAt(m, cells, shr, p)
    ensures LinkedAt(m, cells[PosIn(m.prog, q) + 1 := n], shr[PosIn(m.prog, q) := n], p)
  {
    AddrOfExtend(m.prog, shr, q, n, p.s, p.k);
    hide Good, AddrOf;
    var b := m.prog[p.s][p.k];
    if b.Rel? { CellsApartAll(m.prog, p, q, 0, 0); }
    if Cells(b) > 0 { CellsApartAll(m.prog, p, q, 0, 1); }
    if Cells(b) > 1 { CellsApartAll(m.prog, p, q, 1, 1); }
  }

  lemma CellsApartAll(prog: Program, p: Place, q: Place, x: nat, y: nat)
    requires Small(prog) && IsPlace(prog, p) && IsPlace(prog, q) && p != q && x < Cells(prog[p.s][p.k]) && y < Cells(prog[q.s][q.k])
    ensures PosIn(prog, p) + x != PosIn(prog, q) + y
  {
    if PosIn(prog, p) + x == PosIn(prog, q) + y { CellsApart(prog, p, x, q, y); }
  }

  lemma SameStays(m: Pass1, cells: Store, q: Place, y: nat, v: int, p: Place)
    requires Resolved(m) && IsPlace(m.prog, q) && IsPlace(m.prog, p) && p != q && y < Cells(m.prog[q.s][q.k])
    requires SameCells(m.cells, cells, m.prog, p)
    ensures SameCells(m.cells, cells[PosIn(m.prog, q) + y := v], m.prog, p)
  {
    var b := m.prog[p.s][p.k];
    if Cells(b) > 0 { CellsApartAll(m.prog, p, q, 0, y); }
    if Cells(b) > 1 { CellsApartAll(m.prog, p, q, 1, y); }
  }

  lemma ShortStays(m: Pass1, shr: Shrinks, q: Place, n: nat, p: Place)
    requires Resolved(m) && IsRel(m.prog, q) && IsPlace(m.prog, p) && Before(p, q) && ShortAt(m, shr, p)
    ensures ShortAt(m, shr[PosIn(m.prog, q) := n], p)
  {
    hide Recorded;
    if IsRel(m.prog, p) {
      CellsApartAll(m.prog, p, q, 0, 0);
      var t := Target(m, p);
      hide Resolved, Addr, Base, Est, MaxBetween, CellAt;
      AddrOfExtend(m.prog, shr, q, n, p.s, p.k + 1);
      if !Before(p, t) { AddrOfExtend(m.prog, shr, q, n, t.s, t.k); }
    }
  }

  /** The decision of pass 2 about one branch, with the estimate it uses. */
  ghost predicate Fits(m: Pass1, shr: Shrinks, p: Place, n: nat)
    requires Resolved(m) && IsRel(m.prog, p)
  {
    var t := Target(m, p);
    && n <= 4 && (n == 0 || n == Savings(m.prog[p.s][p.k].op))
    && (n > 0 && Before(p, t) ==> Ahead(m.prog, p, t) <= 127)
    && (n > 0 && !Before(p, t) ==> AddrOf(m.prog, shr, p.s, p.k) + 4 - n - AddrOf(m.prog, shr, t.s, t.k) <= 128)
  }

  lemma ShortNew(m: Pass1, shr: Shrinks, p: Place, n: nat)
    requires Resolved(m) && IsRel(m.prog, p) && Fits(m, shr, p, n)
    ensures ShortAt(m, shr[PosIn(m.prog, p) := n], p) && ShrinkAt(shr[PosIn(m.prog, p) := n], PosIn(m.prog, p)) == n
    ensures var shr' := shr[PosIn(m.prog, p) := n]; AddrOf(m.prog, shr', p.s, p.k + 1) == AddrOf(m.prog, shr, p.s, p.k) + 4 - n
  {
    var t := Target(m, p);
    AddrOfExtend(m.prog, shr, p, n, p.s, p.k);
    if !Before(p, t) { AddrOfExtend(m.prog, shr, p, n, t.s, t.k); }
  }

  lemma LinkRel(m: Pass1, cells: Store, shr: Shrinks, p: Place, n: nat)
    requires Linking(m, cells, shr, p.s, p.k) && IsRel(m.prog, p) && Fits(m, shr, p, n)
    ensures var q := PosIn(m.prog, p); Linking(m, cells[q + 1 := n], shr[q := n], p.s, p.k + 1)
  {
    hide ShortAt, Good, AddrOf, Fits;
    var q := PosIn(m.prog, p);
    ShortNew(m, shr, p, n);
    forall r | IsPlace(m.prog, r)
      ensures if Done(r, p.s, p.k + 1) then LinkedAt(m, cells[q + 1 := n], shr[q := n], r) && ShortAt(m, shr[q := n], r)
              else SameCells(m.cells, cells[q + 1 := n], m.prog, r)
    {
      if r == p {
        assert SameCells(m.cells, cells, m.prog, p);
      } else if Done(r, p.s, p.k) {
        LinkedStays(m, cells, shr, p, n, r);
        ShortStays(m, shr, p, n, r);
      } else {
        SameStays(m, cells, p, 1, n, r);
      }
    }
  }

  lemma LinkLab(m: Pass1, cells: Store, shr: Shrinks, p: Place, l: Label)
    requires Linking(m, cells, shr, p.s, p.k) && IsLab(m.prog, p, l)
    ensures Linking(m, cells[PosIn(m.prog, p) := AddrOf(m.prog, shr, p.s, p.k)], shr, p.s, p.k + 1)
  {
    var q, v := PosIn(m.prog, p), AddrOf(m.prog, shr, p.s, p.k);
    forall r | IsPlace(m.prog, r)
      ensures if Done(r, p.s, p.k + 1) then LinkedAt(m, cells[q := v], shr, r) && ShortAt(m, shr, r)
              else SameCells(m.cells, cells[q := v], m.prog, r)
    {
      if r != p {
        if Done(r, p.s, p.k) {
          LabelStays(m, cells, shr, p, v, r);
        } else {
          SameStays(m, cells, p, 0, v, r);
        }
      }
    }
  }

  lemma LabelStays(m: Pass1, cells: Store, shr: Shrinks, q: Place, v: int, p: Place)
    requires Resolved(m) && IsPlace(m.prog, q) && m.prog[q.s][q.k].Lab? && IsPlace(m.prog, p) && p != q && LinkedAt(m, cells, shr, p)
    ensures LinkedAt(m, cells[PosIn(m.prog, q) := v], shr, p)
  {
    var b := m.prog[p.s][p.k];
    if Cells(b) > 0 { CellsApartAll(m.prog, p, q, 0, 0); }
    if Cells(b) > 1 { CellsApartAll(m.prog, p, q, 1, 0); }
  }

  lemma LinkOther(m: Pass1, cells: Store, shr: Shrinks, p: Place)
    requires Linking(m, cells, shr, p.s, p.k) && IsPlace(m.prog, p) && !m.prog[p.s][p.k].Rel? && !m.prog[p.s][p.k].Lab?
    ensures Linking(m, cells, shr, p.s, p.k + 1)
  {
    forall r | IsPlace(m.prog, r)
      ensures if Done(r, p.s, p.k + 1) then LinkedAt(m, cells, shr, r) && ShortAt(m, shr, r) else SameCells(m.cells, cells, m.prog, r)
    {
      assert r != p ==> (Done(r, p.s, p.k + 1) <==> Done(r, p.s, p.k));
    }
  }

  lemma LinkSection(m: Pass1, cells: Store, shr: Shrinks, s: nat)
    requires s < |m.prog| && Linking(m, cells, shr, s, |m.prog[s]|)
    ensures Linking(m, cells, shr, s + 1, 0)
  {
    forall r | IsPlace(m.prog, r)
      ensures Done(r, s + 1, 0) <==> Done(r, s, |m.prog[s]|)
    {}
  }

  // ---------------------------------------------------------------- the result of pass 2

  ghost predicate Linked(m: Pass1, cells: Store, shr: Shrinks) { Linking(m, cells, shr, |m.prog|, 0) }

  /** A short branch reaches its label, wherever that is. */
  lemma ShortReaches(m: Pass1, cells: Store, shr: Shrinks, p: Place)
    requires Linked(m, cells, shr) && IsRel(m.prog, p) && ShrinkAt(shr, PosIn(m.prog, p)) > 0
    ensures var t := Target(m, p);
      -128 <= AddrOf(m.prog, shr, t.s, t.k) - AddrOf(m.prog, shr, p.s, p.k + 1) <= 127
  {
    assert Done(p, |m.prog|, 0) && IsPlace(m.prog, p);
    ShortDistance(m, shr, p);
  }

  lemma ShortDistance(m: Pass1, shr: Shrinks, p: Place)
    requires Resolved(m) && IsRel(m.prog, p) && ShortAt(m, shr, p) && ShrinkAt(shr, PosIn(m.prog, p)) > 0
    ensures var t := Target(m, p);
      -128 <= AddrOf(m.prog, shr, t.s, t.k) - AddrOf(m.prog, shr, p.s, p.k + 1) <= 127
  {
    var t := Target(m, p);
    assert t != p;
    hide Good, AddrOf, Est, MaxBetween;
    if Before(p, t) {
      Distance(m.prog, shr, p.s, p.k + 1, t.s, t.k);
    } else {
      Distance(m.prog, shr, t.s, t.k, p.s, p.k + 1);
    }
  }

  // ---------------------------------------------------------------- what the passes read

  lemma LabCell(m: Pass1, cells: Store, shr: Shrinks, p: Place)
    requires Linking(m, cells, shr, p.s, p.k) && IsPlace(m.prog, p) && m.prog[p.s][p.k].Lab?
    ensures PosIn(m.prog, p) in cells && cells[PosIn(m.prog, p)] == Est(m.prog[p.s], p.k)
  {
    assert Stored(m.cells, m.prog, p);
  }

  lemma AlignCell(m: Pass1, cells: Store, shr: Shrinks, p: Place)
    requires Linking(m, cells, shr, p.s, p.k) && IsPlace(m.prog, p) && m.prog[p.s][p.k].Align?
    ensures PosIn(m.prog, p) in cells && cells[PosIn(m.prog, p)] == Est(m.prog[p.s], p.k + 1)
  {
    assert Stored(m.cells, m.prog, p);
  }

  /** What pass 2 finds in the cells of a branch and of its label. */
  lemma BranchCells(m: Pass1, cells: Store, shr: Shrinks, p: Place)
    requires Linking(m, cells, shr, p.s, p.k) && IsRel(m.prog, p)
    ensures var q, t := PosIn(m.prog, p), Target(m, p);
      q in cells && cells[q] == PosIn(m.prog, t) && q + 1 in cells && cells[q + 1] == Est(m.prog[p.s], p.k + 1)
    ensures var t := Target(m, p);
      PosIn(m.prog, t) in cells && cells[PosIn(m.prog, t)] == if Before(p, t) then Est(m.prog[t.s], t.k) else AddrOf(m.prog, shr, t.s, t.k)
  {
    hide Est, Addr, Base, CellAt, FirstDef;
    var t := Target(m, p);
    assert Stored(m.cells, m.prog, p) && Stored(m.cells, m.prog, t);
  }

  /** What pass 3 finds there. */
  lemma FinalCells(m: Pass1, cells: Store, shr: Shrinks, p: Place)
    requires Linked(m, cells, shr) && IsRel(m.prog, p)
    ensures var q, t := PosIn(m.prog, p), Target(m, p);
      q in cells && cells[q] == PosIn(m.prog, t) && q + 1 in cells && cells[q + 1] == ShrinkAt(shr, q)
    ensures var t := Target(m, p); PosIn(m.prog, t) in cells && cells[PosIn(m.prog, t)] == AddrOf(m.prog, shr, t.s, t.k)
    ensures var n := ShrinkAt(shr, PosIn(m.prog, p)); n == 0 || n == Savings(m.prog[p.s][p.k].op)
  {
    var t := Target(m, p);
    assert Done(t, |m.prog|, 0) && Done(p, |m.prog|, 0);
    assert IsPlace(m.prog, t) && IsPlace(m.prog, p);
  }

  lemma PlainCells(m: Pass1, cells: Store, shr: Shrinks, p: Place)
    requires Linked(m, cells, shr) && IsPlace(m.prog, p)
    ensures var a, q := m.prog[p.s][p.k], PosIn(m.prog, p);
      match a
      case Imm(n, _) => q in cells && cells[q] == n
      case Space(n, _) => q in cells && cells[q] == n
      case _ => true
  {
    assert Done(p, |m.prog|, 0) && Stored(m.cells, m.prog, p);
  }

  /** The opcode bytes in front of a branch. */
  lemma BehindOpcode(m: Pass1, shr: Shrinks, p: Place)
    requires Resolved(m) && IsRel(m.prog, p)
    ensures var a, op := AddrOf(m.prog, shr, p.s, p.k), m.prog[p.s][p.k].op;
      && p.k > 0 && m.prog[p.s][p.k - 1] == Byte(op) && AddrOf(m.prog, shr, p.s, p.k - 1) + 1 == a
      && (op / 16 == 8 ==> p.k > 1 && m.prog[p.s][p.k - 2].Byte? && AddrOf(m.prog, shr, p.s, p.k - 2) + 2 == a)
  {
    assert OpcodeOk(m.prog[p.s], p.k);
  }

  /** Where the latest definition of a label is. */
  lemma DefPlace(m: Pass1, l: Label)
    requires Good(m) && LastDef(m.log, l).Some?
    ensures var q := LastDef(m.log, l).pos; q in m.home && IsLab(m.prog, m.home[q], l) && PosIn(m.prog, m.home[q]) == q
  {
    LastDefIs(m.log, l);
    var j: nat :| j < |m.log| && m.log[j] == Def(l, LastDef(m.log, l).pos);
    EventCell(m, j);
  }

  lemma FinalLabel(m: Pass1, cells: Store, shr: Shrinks, t: Place, l: Label)
    requires Linked(m, cells, shr) && IsLab(m.prog, t, l)
    ensures PosIn(m.prog, t) in cells && cells[PosIn(m.prog, t)] == AddrOf(m.prog, shr, t.s, t.k)
  {
    assert Done(t, |m.prog|, 0);
  }

  /** From one action to the next. */
  lemma StepTo(prog: Program, shr: Shrinks, s: nat, k: nat)
    requires s < |prog| && k < |prog[s]|
    ensures AddrOf(prog, shr, s, k + 1) == Step(prog[s][k], AddrOf(prog, shr, s, k), ShrinkAt(shr, PosIn(prog, Place(s, k))))
    ensures Est(prog[s], k + 1) == Est(prog[s], k) + MaxSize(prog[s][k])
    ensures PosOf(s, prog[s], k + 1) == PosOf(s, prog[s], k) + Cells(prog[s][k])
  {}
}
