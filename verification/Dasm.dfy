/** The DynASM encoder state and its three passes. */
module Dasm {
  import opened Shifts
  import opened DasmLabels
  import opened DasmLayout
  import opened DasmStore
  import opened DasmPut
  import opened DasmLink
  import opened DasmEncode

  /** Buffer position and byte offset of a section. */
  datatype Section = Section(pos: int, ofs: nat)

  class DasmState {
    var cells: Store
    var labels: map<Label, int>
    var prog: Program
    var sections: seq<Section>
    var active: nat
    var failed: bool
    var codesize: nat
    ghost var log: Log
    ghost var index: map<int, nat>
    ghost var home: map<int, Place>
    /** What pass 2 starts from, and the bytes it saves. */
    ghost var first: Pass1
    ghost var shr: Shrinks

    ghost function M(): Pass1
      reads this
    {
      Pass1(cells, labels, prog, log, index, home)
    }

    /** Between two calls of dasm_put. */
    ghost predicate Putting()
      reads this
    {
      && Good(M()) && active < |prog| == |sections| && !failed
      && forall s | 0 <= s < |prog| :: sections[s] == Section(Top(M(), s), Est(prog[s], |prog[s]|))
    }

    /** dasm_init and dasm_setup */
    constructor (maxsection: nat)
      requires maxsection > 0
      ensures Putting() && prog == seq(maxsection, _ => []) && active == 0
    {
      cells, labels, log, index, home := map[], map[], [], map[], map[];
      prog := seq(maxsection, _ => []);
      sections := seq(maxsection, s => Section(s * SECTION, 0));
      active, failed, codesize := 0, false, 0;
      first, shr := Pass1(map[], map[], [], [], map[], map[]), map[];
    }

    /** The DASM_SECTION action. */
    method SetSection(n: nat)
      requires Putting() && n < |prog|
      modifies `active
      ensures Putting() && active == n
    {
      active := n;
    }

    // ---------------------------------------------------------------- pass 1

    /** The loop that collapses the chain of a label. */
    method Collapse(n0: int, pos: int, ghost s0: seq<int>)
      requires Chain(cells, n0, s0) && NoDuplicates(s0)
      modifies `cells
      ensures cells == SetAll(old(cells), s0, pos)
    {
      var n := n0;
      ghost var s := s0;
      while n > 0
        invariant Chain(cells, n, s) && NoDuplicates(s) && SetAll(cells, s, pos) == SetAll(old(cells), s0, pos)
        decreases |s|
      {
        CollapseStep(cells, n, s, pos);
        var next := cells[n];
        cells := cells[n := pos];
        n := next;
        s := s[1..];
      }
      SetNothing(cells, pos);
    }

    ghost predicate At(s: nat, pos: int, ofs: nat)
      reads this
    {
      Good(M()) && s < |prog| && pos == Top(M(), s) && ofs == Est(prog[s], |prog[s]|) && pos > 0
    }

    /** The writes for a label: the chain is collapsed, the slot and the cell are set. */
    method StoreLabel(l: Label, pos: int, ofs: nat, ghost s0: seq<int>)
      requires NoDuplicates(s0) && if Slot(labels, l) < 0 then s0 == [] else Chain(cells, Slot(labels, l), s0)
      modifies `cells, `labels
      ensures cells == SetAll(old(cells), s0, pos)[pos := ofs] && labels == old(labels)[l := -pos]
    {
      hide Chain;
      var n := Slot(labels, l);
      if n >= 0 {
        Collapse(n, pos, s0);
      } else {
        SetNothing(cells, pos);
      }
      labels := labels[l := -pos];
      cells := cells[pos := ofs];
    }

    /** DASM_LABEL_LG and DASM_LABEL_PC */
    method PutLabel(s: nat, l: Label, pos: int, ofs: nat)
      requires At(s, pos, ofs) && DasmPut.MayAppend(M(), s, Lab(l))
      modifies `cells, `labels, `prog, `log, `index, `home
      ensures prog == Appended(old(prog), s, Lab(l)) && At(s, pos + 1, ofs) && log == old(log) + [Def(l, pos)]
    {
      hide Good, SlotOk, Pending, SetAll, Opcodes, OpcodeOk, MayAppend, Chain, CellAt, Est, PosOf;
      ghost var m' := AfterLab(M(), s, l);
      SlotChain(M(), l);
      StoreLabel(l, pos, ofs, Pending(log, l));
      log, index, home := log + [Def(l, pos)], index[pos := |log|], home[pos := Place(s, |prog[s]|)];
      prog := prog[s := prog[s] + [Lab(l)]];
      assert M() == m';
    }

    /** The writes for a branch: its cell, the slot of its label, and the estimate. */
    method StoreRel(l: Label, kind: Kind, pos: int, est: nat)
      modifies `cells, `labels
      ensures var v, e := old(Slot(labels, l)), Ref(l, kind, pos);
        cells == old(cells)[pos := RefCell(v, e)][pos + 1 := est] && labels == old(labels)[l := RefSlot(v, e)]
    {
      SameSlot(labels, l);
      var n := Slot(labels, l);
      if kind == Fwd && n < 0 {
        n := 0;
      }
      if n < 0 {
        cells := cells[pos := -n];
      } else {
        cells := cells[pos := n];
        labels := labels[l := pos];
      }
      cells := cells[pos + 1 := est];
    }

    /** DASM_REL_LG and DASM_REL_PC; false if a local label used backwards does not exist. */
    method PutRel(s: nat, a: Action, pos: int, ofs: nat) returns (ok: bool)
      requires At(s, pos, ofs) && DasmPut.MayAppend(M(), s, a) && a.Rel?
      modifies `cells, `labels, `prog, `log, `index, `home
      ensures ok <==> a.kind == Back ==> Ready(old(log), a.name)
      ensures ok ==> prog == Appended(old(prog), s, a) && At(s, pos + 2, ofs + 4) && log == old(log) + [EventOf(a, pos)]
    {
      hide Opcodes, Small, MayAppend;
      Signs(M(), a.name);
      hide Ready;
      if a.kind == Back && Slot(labels, a.name) >= 0 {
        return false;
      }
      hide Good, SlotOk, Pending, Opcodes, OpcodeOk, MayAppend, RefCell, RefSlot, CellAt, Est, PosOf, RelCells;
      ghost var m' := AfterRel(M(), s, a);
      StoreRel(a.name, a.kind, pos, ofs + 4);
      log, index, home := log + [EventOf(a, pos)], index[pos := |log|], home[pos := Place(s, |prog[s]|)];
      prog := prog[s := prog[s] + [a]];
      assert M() == m';
      ok := true;
    }

    /** The other actions. */
    method PutPlain(s: nat, a: Action, pos: int, ofs: nat)
      requires At(s, pos, ofs) && DasmPut.MayAppend(M(), s, a) && !a.Rel? && !a.Lab?
      modifies `cells, `prog
      ensures prog == Appended(old(prog), s, a) && At(s, pos + Cells(a), ofs + MaxSize(a))
    {
      var v := match a case Imm(n, _) => n case Align(bits) => ofs + Mask(bits) case Space(n, _) => n case _ => 0;
      AppendPlain(M(), s, a, v);
      AppendNew(prog, s, a);
      hide Good, Opcodes, OpcodeOk, MayAppend;
      if !a.Byte? {
        cells := cells[pos := v];
      }
      prog := prog[s := prog[s] + [a]];
    }

    method PutAction(s: nat, a: Action, pos: int, ofs: nat) returns (ok: bool)
      requires At(s, pos, ofs) && DasmPut.MayAppend(M(), s, a)
      modifies `cells, `labels, `prog, `log, `index, `home
      ensures ok <==> a.Rel? && a.kind == Back ==> Ready(old(log), a.name)
      ensures ok ==> prog == Appended(old(prog), s, a) && At(s, pos + Cells(a), ofs + MaxSize(a)) && log == old(log) + EventsOf(a, pos)
    {
      ok := true;
      if a.Rel? {
        ok := PutRel(s, a, pos, ofs);
      } else if a.Lab? {
        PutLabel(s, a.name, pos, ofs);
      } else {
        PutPlain(s, a, pos, ofs);
      }
    }

    /** Whether a list of actions can be put: its branches have their opcodes in front of them,
        and the section buffer has room. */
    ghost predicate MayPut(acts: Acts)
      reads this
    {
      && (forall k | 0 <= k < |acts| :: OpcodeOk(acts, k)) && active < |prog|
      && CellAt(prog[active], |prog[active]|) + 1 + CellAt(acts, |acts|) <= SECTION
    }

    /** dasm_put. It fails only for a local label that is used backwards and either does not
        exist yet or has a forward branch waiting for its next definition. */
    method Put(acts: Acts) returns (ok: bool)
      requires Putting() && MayPut(acts)
      modifies this
      ensures ok <==> BacksOk(old(log), acts, old(Top(M(), active)) + 1, |acts|)
      ensures ok ==> log == old(log) + Events(acts, old(Top(M(), active)) + 1, |acts|)
      ensures ok ==> Putting() && active == old(active) && prog == old(prog)[active := old(prog)[active] + [Start] + acts]
      ensures !ok ==> failed
    {
      hide Good, OpcodeOk, CellAt, Est, BacksOk, Events;
      var s := active;
      var pos: int, ofs: nat := sections[s].pos, sections[s].ofs;
      ghost var p := Progress(prog, log, pos + 1, s, acts);
      PutStart(p, s, pos, ofs);
      ok, pos, ofs := PutList(p, s, acts, pos + 1, ofs);
      if !ok {
        failed := true;
        return;
      }
      assert acts[..|acts|] == acts;
      sections := sections[s := Section(pos, ofs)];
    }

    method PutList(ghost p: Progress, s: nat, acts: Acts, pos0: int, ofs0: nat) returns (ok: bool, pos: int, ofs: nat)
      requires At(s, pos0, ofs0) && Reached(p, 0, pos0) && s == p.s && acts == p.acts
      modifies `cells, `labels, `prog, `log, `index, `home
      ensures ok <==> BacksOk(p.were, acts, p.q, |acts|)
      ensures ok ==> At(s, pos, ofs) && Reached(p, |acts|, pos)
    {
      hide At, Reached, BackOk;
      pos, ofs, ok := pos0, ofs0, true;
      for i := 0 to |acts|
        invariant At(s, pos, ofs) && Reached(p, i, pos) && ok && BacksOk(p.were, acts, p.q, i)
      {
        ok := PutNext(p, i, pos, ofs, s, acts[i]);
        if !ok {
          return;
        }
        pos, ofs := pos + Cells(acts[i]), ofs + MaxSize(acts[i]);
      }
    }

    /** The offset of the action list comes first. */
    method PutStart(ghost p: Progress, s: nat, pos: int, ofs: nat)
      requires Putting() && MayPut(p.acts) && s == active && sections[s] == Section(pos, ofs) && p == Progress(prog, log, pos + 1, s, p.acts)
      modifies `cells, `prog
      ensures At(s, pos + 1, ofs) && Reached(p, 0, pos + 1)
    {
      StartFirst(M(), s);
      hide Good, OpcodeOk, CellAt, Est, Events;
      cells := cells[pos := 0];
      prog := prog[s := prog[s] + [Start]];
      EventsNone(p.acts, pos + 1);
      assert p.before[s] + [Start] + p.acts[..0] == p.before[s] + [Start];
    }

    /** `i` actions of a put have been stored. */
    ghost predicate Reached(p: Progress, i: nat, pos: int)
      reads this
    {
      && p.s < |p.before| && i <= |p.acts| && prog == p.before[p.s := p.before[p.s] + [Start] + p.acts[..i]]
      && pos == p.q + CellAt(p.acts, i) && log == p.were + Events(p.acts, p.q, i)
      && (forall k | 0 <= k < |p.acts| :: OpcodeOk(p.acts, k))
      && CellAt(p.before[p.s], |p.before[p.s]|) + 1 + CellAt(p.acts, |p.acts|) <= SECTION
    }

    method PutNext(ghost p: Progress, ghost i: nat, pos: int, ofs: nat, s: nat, a: Action) returns (ok: bool)
      requires At(s, pos, ofs) && s == p.s && Reached(p, i, pos) && i < |p.acts| && a == p.acts[i]
      modifies `cells, `labels, `prog, `log, `index, `home
      ensures ok <==> BackOk(p.were, p.acts, p.q, i)
      ensures ok ==> At(s, pos + Cells(a), ofs + MaxSize(a)) && Reached(p, i + 1, pos + Cells(a))
    {
      NextAction(M(), p.before, p.s, p.acts, i);
      hide Good, OpcodeOk, Est, Ready;
      ok := PutAction(s, a, pos, ofs);
    }

    // ---------------------------------------------------------------- pass 2

    /** Pass 2 is at action `k` of section `s`; `ofs` is what it adds to an estimate. */
    ghost predicate LinkAt(s: nat, k: nat, pos: int, ofs: int)
      reads this
    {
      && Linking(first, cells, shr, s, k) && prog == first.prog && s < |prog| && k <= |prog[s]|
      && pos == PosOf(s, prog[s], k) && ofs + Est(prog[s], k) == AddrOf(prog, shr, s, k) && Sized()
    }

    ghost predicate Sized()
      reads `sections, `prog
    {
      |sections| == |prog| && forall r | 0 <= r < |prog| :: sections[r] == Section(PosOf(r, prog[r], |prog[r]|), Est(prog[r], |prog[r]|))
    }

    /** After dasm_link. */
    ghost predicate LinkDone()
      reads this
    {
      && Resolved(first) && prog == first.prog && log == first.log && labels == first.labels && Sized() && Linked(first, cells, shr)
      && codesize == Base(prog, shr, |prog|) && forall l :: Slot(labels, l) <= 0
    }

    /** dasm_link, when the local labels have passed dasm_checkstep and all global labels are
        defined. It fails only for an undefined PC label. */
    method Link() returns (ok: bool)
      requires Putting() && forall n {:trigger Lg(n)} :: Slot(labels, Lg(n)) <= 0
      modifies this
      ensures ok <==> forall l {:trigger Slot(labels, l)} :: old(Slot(labels, l)) <= 0
      ensures ok ==> LinkDone() && first == old(M())
    {
      if l :| l in labels && l.Pc? && labels[l] > 0 {
        assert Slot(labels, l) > 0;
        return false;
      }
      AllResolved(M());
      first, shr := M(), map[];
      hide Good, Resolved;
      codesize := LinkSections();
      ok := true;
    }

    method LinkSections() returns (ofs: int)
      requires Linking(first, cells, shr, 0, 0) && prog == first.prog && Sized()
      modifies `cells, `shr
      ensures Linked(first, cells, shr) && ofs == Base(prog, shr, |prog|)
    {
      ofs := 0;
      for s := 0 to |prog|
        invariant Linking(first, cells, shr, s, 0) && ofs == Base(prog, shr, s)
      {
        var pos: int := s * SECTION;
        for k := 0 to |prog[s]|
          invariant LinkAt(s, k, pos, ofs)
        {
          ofs := LinkAction(s, k, pos, ofs);
          pos := pos + Cells(prog[s][k]);
        }
        LinkSection(first, cells, shr, s);
        ofs := ofs + sections[s].ofs;
      }
    }

    method LinkAction(s: nat, k: nat, pos: int, ofs: int) returns (ofs': int)
      requires LinkAt(s, k, pos, ofs) && k < |prog[s]|
      modifies `cells, `shr
      ensures LinkAt(s, k + 1, pos + Cells(prog[s][k]), ofs')
    {
      ghost var p := Place(s, k);
      ofs' := ofs;
      match prog[s][k]
      case Rel(_, _, _) => ofs' := LinkBranch(s, k, pos, ofs);
      case Lab(_) => LinkLabel(s, k, pos, ofs);
      case Align(bits) =>
        AlignCell(first, cells, shr, p);
        LinkOther(first, cells, shr, p);
        LowBound(cells[pos] + ofs, bits);
        hide Linking, Target;
        ofs' := ofs' - Low(cells[pos] + ofs, bits);
      case _ => LinkOther(first, cells, shr, p);
    }

    method LinkLabel(s: nat, k: nat, pos: int, ofs: int)
      requires LinkAt(s, k, pos, ofs) && k < |prog[s]| && prog[s][k].Lab?
      modifies `cells
      ensures LinkAt(s, k + 1, pos + 1, ofs)
    {
      hide Linking, AddrOf, Est, Base, Sized, Target;
      LabCell(first, cells, shr, Place(s, k));
      LinkLab(first, cells, shr, Place(s, k), prog[s][k].name);
      StepTo(prog, shr, s, k);
      cells := cells[pos := cells[pos] + ofs];
    }

    /** The distance of a branch to its label, as pass 2 knows it. */
    method Reach(s: nat, k: nat, pos: int, ofs: int) returns (lofs: int)
      requires LinkAt(s, k, pos, ofs) && IsRel(prog, Place(s, k))
      ensures var p := Place(s, k); var t := Target(first, p);
        lofs == if Before(p, t) then Ahead(prog, p, t) else AddrOf(prog, shr, t.s, t.k) - (AddrOf(prog, shr, s, k) + 4)
    {
      hide Recorded;
      ghost var p := Place(s, k);
      ghost var t := Target(first, p);
      BranchCells(first, cells, shr, p);
      Compared(first, p);
      hide Linking, Resolved, AddrOf, Target;
      var lpos := cells[pos];
      lofs := cells[lpos];
      if lpos > pos {
        for i := s to lpos / SECTION
          invariant lofs == Est(prog[t.s], t.k) + MaxBetween(prog, s, i)
        {
          lofs := lofs + sections[i].ofs;
        }
      } else {
        lofs := lofs - ofs;
      }
      lofs := lofs - cells[pos + 1];
    }

    method LinkBranch(s: nat, k: nat, pos: int, ofs: int) returns (ofs': int)
      requires LinkAt(s, k, pos, ofs) && IsRel(prog, Place(s, k))
      modifies `cells, `shr
      ensures LinkAt(s, k + 1, pos + 2, ofs')
    {
      hide Linking, Resolved, AddrOf, PosOf, Est, Target;
      ghost var p := Place(s, k);
      var shrink := Savings(prog[s][k].op);
      ofs' := ofs;
      if shrink > 0 {
        var lofs := Reach(s, k, pos, ofs);
        if -128 - shrink <= lofs <= 127 {
          ofs' := ofs' - shrink;
        } else {
          shrink := 0;
        }
      }
      SetShrink(s, k, pos, ofs, shrink);
    }

    method SetShrink(s: nat, k: nat, pos: int, ofs: int, shrink: nat)
      requires LinkAt(s, k, pos, ofs) && IsRel(prog, Place(s, k)) && Fits(first, shr, Place(s, k), shrink)
      modifies `cells, `shr
      ensures LinkAt(s, k + 1, pos + 2, ofs - shrink)
    {
      hide Linking, Resolved, AddrOf, Fits, Est, Base, Sized, Target, CellAt;
      AfterShrink(first, cells, shr, Place(s, k), shrink);
      cells := cells[pos + 1 := shrink];
      shr := shr[pos := shrink];
    }

    // ---------------------------------------------------------------- pass 3

    /** The encoder is at action `k` of section `s`. */
    ghost predicate EncodeAt(out: Bytes, s: nat, k: nat, pos: int)
      reads this
    {
      && LinkDone() && s < |prog| && k <= |prog[s]| && pos == PosOf(s, prog[s], k)
      && Encoding(first, shr, out, s, k) && |out| == AddrOf(prog, shr, s, k) && LastByte(out, s, k)
    }

    ghost predicate LastByte(out: Bytes, s: nat, k: nat)
      requires s < |prog| && k <= |prog[s]|
      reads this
    {
      k > 0 && prog[s][k - 1].Byte? ==> |out| > 0 && out[|out| - 1] == prog[s][k - 1].v
    }

    /** dasm_encode: no phase error is possible. */
    method Encode() returns (ok: bool, out: Bytes)
      requires LinkDone()
      ensures ok && |out| == codesize && Complete(first, shr, out)
    {
      out := [];
      for s := 0 to |prog|
        invariant Encoding(first, shr, out, s, 0) && |out| == Base(prog, shr, s)
      {
        var pos: int := s * SECTION;
        for k := 0 to |prog[s]|
          invariant EncodeAt(out, s, k, pos)
        {
          out := EncodeAction(out, s, k, pos);
          pos := pos + Cells(prog[s][k]);
        }
        EncodeSection(first, shr, out, s);
      }
      ok := |out| == codesize;
    }

    method EncodeAction(out: Bytes, s: nat, k: nat, pos: int) returns (out': Bytes)
      requires EncodeAt(out, s, k, pos) && k < |prog[s]|
      ensures EncodeAt(out', s, k + 1, pos + Cells(prog[s][k]))
    {
      if prog[s][k].Rel? {
        out' := EncodeBranch(out, s, k, pos);
      } else {
        ghost var p := Place(s, k);
        PlainCells(first, cells, shr, p);
        var more: Bytes := [];
        match prog[s][k] {
          case Byte(v) => more := [v];
          case Imm(_, w) =>
            more := Le(cells[pos], w);
            LeLength(cells[pos], w);
          case Space(_, fill) => more := seq(cells[pos], _ => fill);
          case Align(bits) => more := Nops(|out|, bits);
          case _ =>
        }
        out' := out + more;
        assert out'[|out|..] == more;
        EncodeAppend(first, shr, out, more, p);
      }
    }

    /** The loop that pads with nops. */
    method Nops(at: nat, bits: nat) returns (more: Bytes)
      ensures |more| == RoundUp(at, bits) - at && forall i | 0 <= i < |more| :: more[i] == 0x90
    {
      more := [];
      RoundUpFacts(at, bits);
      while Low(at + |more|, bits) != 0
        invariant RoundUp(at + |more|, bits) == RoundUp(at, bits) && forall i | 0 <= i < |more| :: more[i] == 0x90
        decreases RoundUp(at, bits) - |more|
      {
        RoundUpFacts(at + |more|, bits);
        more := more + [0x90];
        RoundUpFacts(at + |more|, bits);
      }
      RoundUpFacts(at + |more|, bits);
    }

    method EncodeBranch(out: Bytes, s: nat, k: nat, pos: int) returns (out': Bytes)
      requires EncodeAt(out, s, k, pos) && IsRel(prog, Place(s, k))
      ensures EncodeAt(out', s, k + 1, pos + 2)
    {
      ghost var p := Place(s, k);
      hide Linking, Encoding, Resolved, AddrOf, PosOf, Est, Base, Le, CellAt, Sized, Target;
      FinalCells(first, cells, shr, p);
      BehindOpcode(first, shr, p);
      var n, shrink := cells[pos], cells[pos + 1];
      n := cells[n] - (|out| + 4 - shrink);
      if shrink == 0 {
        out' := out + Le(n, 4);
        LongBranch(first, shr, out, p, Le(n, 4));
      } else {
        out' := Shorten(out, n, shrink, prog[s][k].op);
        ShortBranch(first, shr, out, p, if shrink == 4 then 2 else 1, out');
      }
      NextCell(prog, s, k);
    }

    /** A short branch: its opcode replaces what is in front. */
    static method Shorten(out: Bytes, n: int, shrink: nat, ghost op: nat) returns (out': Bytes)
      requires shrink == (if op / 16 == 8 then 4 else 3) && |out| >= (if shrink == 4 then 2 else 1) && out[|out| - 1] == op
      ensures out' == out[..|out| - if shrink == 4 then 2 else 1] + [ShortOpcode(op)] + Le(n, 1)
    {
      hide Le;
      out' := out;
      if shrink == 4 {
        var last := out'[|out'| - 1];
        out' := out'[..|out'| - 1];
        out' := out'[|out'| - 1 := last - 0x10];
      } else {
        out' := out'[|out'| - 1 := 0xeb];
      }
      out' := out' + Le(n, 1);
    }

    /** dasm_getpclabel: the offset of the latest definition. */
    method GetPcLabel(k: nat) returns (ofs: int, ghost t: Place)
      requires LinkDone()
      ensures ofs == -2 <==> LastDef(log, Pc(k)).None?
      ensures LastDef(log, Pc(k)).Some? ==>
        IsLab(prog, t, Pc(k)) && PosIn(prog, t) == LastDef(log, Pc(k)).pos && ofs == AddrOf(prog, shr, t.s, t.k)
    {
      hide Linking, Recorded;
      var l := Pc(k);
      ofs, t := -2, Place(0, 0);
      PcSlot(first, l);
      if LastDef(log, l).Some? {
        DefPlace(first, l);
        t := first.home[LastDef(log, l).pos];
        FinalLabel(first, cells, shr, t, l);
      }
      hide Linking, Resolved, Good, AddrOf, PosOf, LastDef, Base, Target;
      if l in labels && labels[l] < 0 {
        ofs := cells[-labels[l]];
      } else if l in labels && labels[l] > 0 {
        ofs := -1;
      }
    }
  }

  /** A put at work: the program and the log before it, and its first cell. */
  datatype Progress = Progress(before: Program, were: Log, q: int, s: nat, acts: Acts)

  /** A local label used backwards has been defined, and nothing waits for the next one. */
  ghost predicate BackOk(were: Log, acts: Acts, q: int, k: nat)
    requires k < |acts|
  {
    acts[k].Rel? && acts[k].kind == Back ==> Ready(were + Events(acts, q, k), acts[k].name)
  }

  ghost predicate BacksOk(were: Log, acts: Acts, q: int, n: nat) {
    n <= |acts| && forall k | 0 <= k < n :: BackOk(were, acts, q, k)
  }

  /** Label 1, a jump forward to label 1 and a jump back to it. */
  function Waiting(): Acts { [Lab(Lg(1)), Byte(0xe9), Rel(0xe9, Lg(1), Fwd), Byte(0xe9), Rel(0xe9, Lg(1), Back)] }

  function Short(): Acts { [Lab(Lg(1)), Byte(0xe9), Rel(0xe9, Lg(1), Back)] }

  lemma WaitingEvents(q: int)
    ensures Events(Waiting(), q, 4) == [Def(Lg(1), q), Ref(Lg(1), Fwd, q + 1)] && Events(Short(), q, 2) == [Def(Lg(1), q)]
  {
    EventsNone(Waiting(), q);
    EventsNone(Short(), q);
    var d, r := Def(Lg(1), q), Ref(Lg(1), Fwd, q + 1);
    assert Events(Waiting(), q, 1) == [d] && Events(Waiting(), q, 2) == [d] + [];
    assert CellAt(Waiting(), 1) == 1 && CellAt(Waiting(), 2) == 1;
    assert Events(Waiting(), q, 3) == [d] + [] + [r];
    assert Events(Short(), q, 1) == [d];
  }

  lemma WaitingLog(were: Log, q: int)
    ensures var l := were + [Def(Lg(1), q), Ref(Lg(1), Fwd, q + 1)]; LastDef(l, Lg(1)) == Some(q) && !Ready(l, Lg(1))
    ensures Ready(were + [Def(Lg(1), q)], Lg(1))
  {
    var d, r := Def(Lg(1), q), Ref(Lg(1), Fwd, q + 1);
    assert were + [d, r] == (were + [d]) + [r];
    assert (were + [d])[..|were|] == were && ((were + [d]) + [r])[..|were| + 1] == were + [d];
  }

  /** The branch back is refused, although its label has been defined just before: the forward
      branch in between waits for the next definition. Without it the branch back is accepted. */
  lemma RefusedBranch(were: Log, q: int)
    ensures LastDef(were + Events(Waiting(), q, 4), Lg(1)) == Some(q) && !BacksOk(were, Waiting(), q, 5)
    ensures BacksOk(were, Short(), q, 3)
    ensures (forall k | 0 <= k < 5 :: OpcodeOk(Waiting(), k)) && forall k | 0 <= k < 3 :: OpcodeOk(Short(), k)
  {
    hide Events, LastDef, Ready, CellAt;
    WaitingEvents(q);
    WaitingLog(were, q);
    assert !BackOk(were, Waiting(), q, 4);
    assert BackOk(were, Short(), q, 2);
  }

  lemma EventsNone(acts: Acts, q: int)
    ensures Events(acts, q, 0) == [] && CellAt(acts, 0) == 0
  {}

  /** The state after a label. */
  lemma AfterLab(m: Pass1, s: nat, l: Label) returns (m': Pass1)
    requires MayAppend(m, s, Lab(l)) && Top(m, s) > 0
    ensures var q, est := Top(m, s), Est(m.prog[s], |m.prog[s]|);
      m' == Pass1(SetAll(m.cells, Pending(m.log, l), q)[q := est], m.labels[l := -q], Appended(m.prog, s, Lab(l)),
                  m.log + [Def(l, q)], m.index[q := |m.log|], m.home[q := Place(s, |m.prog[s]|)])
    ensures Good(m') && Top(m', s) == Top(m, s) + 1 && Est(m'.prog[s], |m'.prog[s]|) == Est(m.prog[s], |m.prog[s]|)
  {
    AppendLab(m, s, Lab(l));
    AppendNew(m.prog, s, Lab(l));
    hide Good;
    var q, est := Top(m, s), Est(m.prog[s], |m.prog[s]|);
    m' := Pass1(SetAll(m.cells, Pending(m.log, l), q)[q := est], m.labels[l := -q], Appended(m.prog, s, Lab(l)),
      m.log + [Def(l, q)], m.index[q := |m.log|], m.home[q := Place(s, |m.prog[s]|)]);
  }

  /** The state after a branch. */
  lemma AfterRel(m: Pass1, s: nat, a: Action) returns (m': Pass1)
    requires MayAppend(m, s, a) && a.Rel? && Top(m, s) > 0 && (a.kind == Back ==> Slot(m.labels, a.name) < 0)
    ensures var q, v, est := Top(m, s), Slot(m.labels, a.name), Est(m.prog[s], |m.prog[s]|); var e := Ref(a.name, a.kind, q);
      m' == Pass1(m.cells[q := RefCell(v, e)][q + 1 := est + 4], m.labels[a.name := RefSlot(v, e)], Appended(m.prog, s, a),
                  m.log + [EventOf(a, q)], m.index[q := |m.log|], m.home[q := Place(s, |m.prog[s]|)])
    ensures Good(m') && Top(m', s) == Top(m, s) + 2 && Est(m'.prog[s], |m'.prog[s]|) == Est(m.prog[s], |m.prog[s]|) + 4
  {
    AppendRel(m, s, a);
    AppendNew(m.prog, s, a);
    hide Good, RefCell, RefSlot;
    var q, v := Top(m, s), Slot(m.labels, a.name);
    var e := EventOf(a, q);
    m' := Pass1(RelCells(m, s, a), m.labels[a.name := RefSlot(v, e)], Appended(m.prog, s, a), m.log + [e],
      m.index[q := |m.log|], m.home[q := Place(s, |m.prog[s]|)]);
  }

  ghost function EventsOf(a: Action, q: int): Log { if a.Rel? || a.Lab? then [EventOf(a, q)] else [] }

  /** What the first `k` actions of a put do to labels, in their order. */
  ghost function Events(acts: Acts, q: int, k: nat): Log
    requires k <= |acts|
  {
    if k == 0 then [] else Events(acts, q, k - 1) + EventsOf(acts[k - 1], q + CellAt(acts, k - 1))
  }

  lemma Signs(m: Pass1, l: Label)
    requires Good(m)
    ensures Slot(m.labels, l) < 0 <==> Ready(m.log, l)
  {
    SlotSign(m.log, m.cells, Slot(m.labels, l), l);
  }

  lemma StartFirst(m: Pass1, s: nat)
    requires Good(m) && s < |m.prog| && CellAt(m.prog[s], |m.prog[s]|) + 1 <= SECTION
    ensures Good(m.(cells := m.cells[Top(m, s) := 0], prog := Appended(m.prog, s, Start)))
    ensures var prog' := Appended(m.prog, s, Start);
      CellAt(prog'[s], |prog'[s]|) == CellAt(m.prog[s], |m.prog[s]|) + 1 && Est(prog'[s], |prog'[s]|) == Est(m.prog[s], |m.prog[s]|)
  {
    AppendPlain(m, s, Start, 0);
    AppendNew(m.prog, s, Start);
  }

  lemma {:induction false} CellAtConcat(a: Acts, b: Acts, k: nat)
    requires k <= |b|
    ensures CellAt(a + b, |a| + k) == CellAt(a, |a|) + CellAt(b, k)
    decreases k
  {
    if k > 0 {
      CellAtConcat(a, b, k - 1);
    } else {
      CellAtPrefix(a, b, |a|);
    }
  }

  lemma {:induction false} CellAtPrefix(a: Acts, b: Acts, k: nat)
    requires k <= |a|
    ensures CellAt(a + b, k) == CellAt(a, k)
    decreases k
  {
    if k > 0 { CellAtPrefix(a, b, k - 1); }
  }

  /** One more action of a list that is being put behind `front`. */
  lemma NextPut(front: Acts, acts: Acts, i: nat)
    requires i < |acts| && OpcodeOk(acts, i)
    ensures front + acts[..i + 1] == front + acts[..i] + [acts[i]]
    ensures OpcodeOk(front + acts[..i] + [acts[i]], |front| + i)
  {
    assert acts[..i + 1] == acts[..i] + [acts[i]];
    assert front + acts[..i + 1] == front + acts[..i] + [acts[i]];
  }

  lemma NextCells(front: Acts, acts: Acts, i: nat)
    requires i < |acts|
    ensures CellAt(front + acts[..i], |front| + i) + Cells(acts[i]) <= CellAt(front, |front|) + CellAt(acts, |acts|)
  {
    CellAtConcat(front, acts[..i], i);
    assert acts == acts[..i] + acts[i..];
    CellAtPrefix(acts[..i], acts[i..], i);
    CellOrder(acts, i, |acts|);
  }

  /** The next action of a put may be appended. */
  lemma NextAction(m: Pass1, before: Program, s: nat, acts: Acts, i: nat)
    requires Good(m) && s < |before| && i < |acts| && m.prog == before[s := before[s] + [Start] + acts[..i]]
    requires (forall k | 0 <= k < |acts| :: OpcodeOk(acts, k)) && CellAt(before[s], |before[s]|) + 1 + CellAt(acts, |acts|) <= SECTION
    ensures DasmPut.MayAppend(m, s, acts[i])
    ensures Appended(m.prog, s, acts[i]) == before[s := before[s] + [Start] + acts[..i + 1]]
  {
    hide Good, OpcodeOk, Est, Cells, CellAt;
    var front := before[s] + [Start];
    assert OpcodeOk(acts, i);
    StartCell(before[s]);
    NextCells(front, acts, i);
    NextPut(front, acts, i);
  }

  lemma StartCell(a: Acts)
    ensures CellAt(a + [Start], |a| + 1) == CellAt(a, |a|) + 1
  {
    CellAtPrefix(a, [Start], |a|);
  }

  lemma SetNothing(cells: Store, pos: int)
    ensures SetAll(cells, [], pos) == cells
  {}

  /** The slot of a label, read for a definition. */
  lemma SlotChain(m: Pass1, l: Label)
    requires Good(m)
    ensures NoDuplicates(Pending(m.log, l))
    ensures if Slot(m.labels, l) < 0 then Pending(m.log, l) == [] else Chain(m.cells, Slot(m.labels, l), Pending(m.log, l))
  {
    assert SlotOk(m.log, m.cells, Slot(m.labels, l), l);
    PendingDistinct(m.log, l);
  }

  lemma SameSlot(labels: map<Label, int>, l: Label)
    ensures l in labels ==> labels[l := Slot(labels, l)] == labels
  {}

  /** The slot of a PC label when nothing is pending. */
  lemma PcSlot(m: Pass1, l: Label)
    requires Good(m) && l.Pc? && Slot(m.labels, l) <= 0
    ensures LastDef(m.log, l) == if Slot(m.labels, l) < 0 then Some(-Slot(m.labels, l)) else None
  {
    assert SlotOk(m.log, m.cells, Slot(m.labels, l), l);
  }

  lemma NextCell(prog: Program, s: nat, k: nat)
    requires s < |prog| && k < |prog[s]|
    ensures PosOf(s, prog[s], k + 1) == PosOf(s, prog[s], k) + Cells(prog[s][k])
  {}

  /** The state of pass 2 behind a branch. */
  lemma AfterShrink(m: Pass1, cells: Store, shr: Shrinks, p: Place, n: nat)
    requires Linking(m, cells, shr, p.s, p.k) && IsRel(m.prog, p) && Fits(m, shr, p, n)
    ensures var q := PosIn(m.prog, p);
      Linking(m, cells[q + 1 := n], shr[q := n], p.s, p.k + 1) && PosOf(p.s, m.prog[p.s], p.k + 1) == q + 2
    ensures AddrOf(m.prog, shr[PosIn(m.prog, p) := n], p.s, p.k + 1) - Est(m.prog[p.s], p.k + 1)
      == AddrOf(m.prog, shr, p.s, p.k) - Est(m.prog[p.s], p.k) - n
  {
    LinkRel(m, cells, shr, p, n);
    ShortNew(m, shr, p, n);
    StepTo(m.prog, shr, p.s, p.k);
  }
}
