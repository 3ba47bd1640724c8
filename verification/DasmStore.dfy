/** The section buffers after pass 1: what the cells hold for each action. */
module DasmStore {
  import opened DasmLabels
  import opened DasmLayout

  type Store = map<int, int>

  /** A place in the program: section and action number. */
  datatype Place = Place(s: nat, k: nat)

  ghost predicate IsPlace(prog: Program, p: Place) { p.s < |prog| && p.k < |prog[p.s]| }

  ghost function PosIn(prog: Program, p: Place): int
    requires IsPlace(prog, p)
  {
    PosOf(p.s, prog[p.s], p.k)
  }

  /** Section indices fit the 24 bits of a position. */
  ghost predicate Small(prog: Program) { forall s | 0 <= s < |prog| :: CellAt(prog[s], |prog[s]|) <= SECTION }

  lemma {:induction false} CellOrder(acts: Acts, j: nat, k: nat)
    requires j <= k <= |acts|
    ensures CellAt(acts, j) <= CellAt(acts, k)
    ensures j < k ==> CellAt(acts, j) + Cells(acts[j]) <= CellAt(acts, k)
    decreases k
  {
    if j < k { CellOrder(acts, j, k - 1); }
  }

  /** The cells of an action are its own. */
  lemma CellsApart(prog: Program, p: Place, x: nat, q: Place, y: nat)
    requires Small(prog) && IsPlace(prog, p) && IsPlace(prog, q) && x < Cells(prog[p.s][p.k]) && y < Cells(prog[q.s][q.k])
    requires PosIn(prog, p) + x == PosIn(prog, q) + y
    ensures p == q && x == y
  {
    CellOrder(prog[p.s], p.k, |prog[p.s]|);
    CellOrder(prog[q.s], q.k, |prog[q.s]|);
    assert p.s == q.s;
    if p.k < q.k { CellOrder(prog[p.s], p.k, q.k); }
    if q.k < p.k { CellOrder(prog[p.s], q.k, p.k); }
  }

  /** Positions are ordered like places. */
  lemma PosOrder(prog: Program, p: Place, q: Place)
    requires Small(prog) && IsPlace(prog, p) && IsPlace(prog, q) && Cells(prog[p.s][p.k]) > 0 && Cells(prog[q.s][q.k]) > 0
    ensures PosIn(prog, p) < PosIn(prog, q) <==> p.s < q.s || (p.s == q.s && p.k < q.k)
    ensures PosIn(prog, p) / SECTION == p.s
  {
    CellOrder(prog[p.s], p.k, |prog[p.s]|);
    CellOrder(prog[q.s], q.k, |prog[q.s]|);
    if p.s == q.s {
      if p.k < q.k { CellOrder(prog[p.s], p.k, q.k); }
      if q.k < p.k { CellOrder(prog[p.s], q.k, p.k); }
    }
  }

  // ---------------------------------------------------------------- what the cells hold

  /** The cells of one action after pass 1, apart from where a branch goes. */
  ghost predicate Stored(cells: Store, prog: Program, p: Place)
    requires IsPlace(prog, p)
  {
    var q, acts := PosIn(prog, p), prog[p.s];
    match acts[p.k]
    case Start => true
    case Byte(_) => true
    case Imm(n, _) => q in cells && cells[q] == n
    case Rel(_, _, _) => q in cells && q + 1 in cells && cells[q + 1] == Est(acts, p.k + 1)
    case Lab(_) => q in cells && cells[q] == Est(acts, p.k)
    case Align(_) => q in cells && cells[q] == Est(acts, p.k + 1)
    case Space(n, _) => q in cells && cells[q] == n
  }

  ghost predicate AllStored(cells: Store, prog: Program) {
    forall p {:trigger Stored(cells, prog, p)} | IsPlace(prog, p) :: Stored(cells, prog, p)
  }

  /** The event an action is recorded as. */
  ghost function EventOf(a: Action, q: int): Event
    requires a.Rel? || a.Lab?
  {
    if a.Rel? then Ref(a.name, a.kind, q) else Def(a.name, q)
  }

  /** Events and labelled actions correspond. */
  ghost predicate Recorded(prog: Program, log: Log, index: map<int, nat>, home: map<int, Place>) {
    && (forall p {:trigger IsPlace(prog, p)} | IsPlace(prog, p) && (prog[p.s][p.k].Rel? || prog[p.s][p.k].Lab?) ::
          var q := PosIn(prog, p); q in index && index[q] < |log| && log[index[q]] == EventOf(prog[p.s][p.k], q))
    && (forall i {:trigger log[i]} | 0 <= i < |log| ::
          log[i].pos in home && IsPlace(prog, home[log[i].pos]) && PosIn(prog, home[log[i].pos]) == log[i].pos
          && (prog[home[log[i].pos].s][home[log[i].pos].k].Rel? || prog[home[log[i].pos].s][home[log[i].pos].k].Lab?)
          && log[i] == EventOf(prog[home[log[i].pos].s][home[log[i].pos].k], log[i].pos))
  }

  function Slot(labels: map<Label, int>, l: Label): int { if l in labels then labels[l] else 0 }

  ghost predicate SlotsOk(log: Log, cells: Store, labels: map<Label, int>) {
    forall l {:trigger Slot(labels, l)} :: SlotOk(log, cells, Slot(labels, l), l)
  }

  /** A branch follows its opcode, and a conditional one the byte 0x0f before that. */
  ghost predicate OpcodeOk(acts: Acts, k: nat)
    requires k < |acts|
  {
    acts[k].Rel? ==>
      && k > 0 && acts[k - 1] == Byte(acts[k].op)
      && (acts[k].op / 16 == 8 ==> k > 1 && acts[k - 2] == Byte(0x0f))
      && (acts[k].kind == Any <==> !IsLocal(acts[k].name))
  }

  ghost predicate Opcodes(prog: Program) {
    forall s, k {:trigger OpcodeOk(prog[s], k)} | 0 <= s < |prog| && 0 <= k < |prog[s]| :: OpcodeOk(prog[s], k)
  }

  // ---------------------------------------------------------------- one more action

  ghost function Appended(prog: Program, s: nat, a: Action): Program
    requires s < |prog|
  {
    prog[s := prog[s] + [a]]
  }

  lemma {:induction false} PrefixKept(acts: Acts, a: Action, k: nat)
    requires k <= |acts|
    ensures CellAt(acts + [a], k) == CellAt(acts, k) && Est(acts + [a], k) == Est(acts, k)
    decreases k
  {
    if k > 0 { PrefixKept(acts, a, k - 1); }
  }

  /** Where the new action goes, and how old places look afterwards. */
  lemma AppendFacts(prog: Program, s: nat, a: Action, p: Place)
    requires s < |prog| && IsPlace(prog, p)
    ensures var prog' := Appended(prog, s, a);
      IsPlace(prog', p) && PosIn(prog', p) == PosIn(prog, p) && prog'[p.s][p.k] == prog[p.s][p.k]
      && Est(prog'[p.s], p.k) == Est(prog[p.s], p.k) && Est(prog'[p.s], p.k + 1) == Est(prog[p.s], p.k + 1)
  {
    if p.s == s {
      PrefixKept(prog[s], a, p.k);
      PrefixKept(prog[s], a, p.k + 1);
    }
  }

  lemma AppendNew(prog: Program, s: nat, a: Action)
    requires s < |prog|
    ensures var prog', p := Appended(prog, s, a), Place(s, |prog[s]|);
      IsPlace(prog', p) && prog'[s][p.k] == a && PosIn(prog', p) == s * SECTION + CellAt(prog[s], |prog[s]|)
      && Est(prog'[s], p.k) == Est(prog[s], |prog[s]|) && Est(prog'[s], p.k + 1) == Est(prog[s], |prog[s]|) + MaxSize(a)
      && CellAt(prog'[s], |prog'[s]|) == CellAt(prog[s], |prog[s]|) + Cells(a)
  {
    PrefixKept(prog[s], a, |prog[s]|);
  }

  lemma AppendPlaces(prog: Program, s: nat, a: Action, p: Place)
    requires s < |prog| && IsPlace(Appended(prog, s, a), p)
    ensures IsPlace(prog, p) || p == Place(s, |prog[s]|)
  {}

  ghost predicate CellKept(cells: Store, cells': Store, q: int) { q in cells ==> q in cells' && cells'[q] == cells[q] }

  /** The cells of an action are still there, and the same, but for where a branch goes. */
  ghost predicate Untouched(cells: Store, cells': Store, prog: Program, p: Place)
    requires IsPlace(prog, p)
  {
    var a, q := prog[p.s][p.k], PosIn(prog, p);
    if a.Rel? then (q in cells ==> q in cells') && CellKept(cells, cells', q + 1)
    else Cells(a) > 0 ==> CellKept(cells, cells', q)
  }

  lemma StoredKept(cells: Store, cells': Store, prog: Program, s: nat, a: Action, p: Place)
    requires s < |prog| && IsPlace(prog, p) && Stored(cells, prog, p) && Untouched(cells, cells', prog, p)
    ensures Stored(cells', Appended(prog, s, a), p)
  {
    AppendFacts(prog, s, a, p);
  }

  /** Writing the cells of the new action, and cells that hold references, leaves the others
      alone. */
  lemma WritesElsewhere(cells: Store, cells': Store, prog: Program, s: nat, a: Action, refs: set<int>, p: Place)
    requires s < |prog| && IsPlace(prog, p) && Small(Appended(prog, s, a))
    requires var q := s * SECTION + CellAt(prog[s], |prog[s]|);
      forall c :: c !in refs && !(q <= c < q + Cells(a)) ==> CellKept(cells, cells', c)
    requires forall c <- refs :: (c in cells ==> c in cells') && exists r :: IsPlace(prog, r) && prog[r.s][r.k].Rel? && PosIn(prog, r) == c
    ensures Untouched(cells, cells', prog, p)
  {
    var prog', n := Appended(prog, s, a), Place(s, |prog[s]|);
    AppendFacts(prog, s, a, p);
    AppendNew(prog, s, a);
    var b, q := prog[p.s][p.k], PosIn(prog, p);
    if Cells(b) > 0 {
      NewCellsApart(prog, s, a, p, 0);
      if q in refs {
        RefIsRel(prog, s, a, refs, p, 0);
      }
      if b.Rel? {
        NewCellsApart(prog, s, a, p, 1);
        if q + 1 in refs { RefIsRel(prog, s, a, refs, p, 1); }
      }
    }
  }

  lemma NewCellsApart(prog: Program, s: nat, a: Action, p: Place, x: nat)
    requires s < |prog| && IsPlace(prog, p) && Small(Appended(prog, s, a)) && x < Cells(prog[p.s][p.k])
    ensures var q := s * SECTION + CellAt(prog[s], |prog[s]|); !(q <= PosIn(prog, p) + x < q + Cells(a))
  {
    var prog', n, q := Appended(prog, s, a), Place(s, |prog[s]|), s * SECTION + CellAt(prog[s], |prog[s]|);
    AppendFacts(prog, s, a, p);
    AppendNew(prog, s, a);
    if q <= PosIn(prog, p) + x < q + Cells(a) { CellsApart(prog', p, x, n, PosIn(prog, p) + x - q); }
  }

  /** A cell of an action that holds a reference is the first one of a branch. */
  lemma RefIsRel(prog: Program, s: nat, a: Action, refs: set<int>, p: Place, x: nat)
    requires s < |prog| && IsPlace(prog, p) && Small(Appended(prog, s, a)) && x < Cells(prog[p.s][p.k])
    requires forall c <- refs :: exists r :: IsPlace(prog, r) && prog[r.s][r.k].Rel? && PosIn(prog, r) == c
    requires PosIn(prog, p) + x in refs
    ensures prog[p.s][p.k].Rel? && x == 0
  {
    var r :| IsPlace(prog, r) && prog[r.s][r.k].Rel? && PosIn(prog, r) == PosIn(prog, p) + x;
    var prog' := Appended(prog, s, a);
    AppendFacts(prog, s, a, p);
    AppendFacts(prog, s, a, r);
    CellsApart(prog', p, x, r, 0);
  }
}
