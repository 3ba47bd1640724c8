/** What a processor makes of an encoded branch. */
module DasmJump {
  import opened DasmLayout
  import opened DasmStore
  import opened DasmPut
  import opened DasmLink
  import opened DasmEncode

  /** An unconditional jump, or one on condition number `c`. */
  datatype Jump = Always | OnCondition(c: nat)

  datatype Instruction = Goes(jump: Jump, target: int, next: nat) | Other

  /** The jumps of the instruction set: EB and E9 are unconditional, 7x and 0F 8x jump on condition x;
      the first of each pair has a displacement of one byte, the second one of four. */
  function Fetch(out: Bytes, at: nat): Instruction {
    if at + 2 <= |out| && out[at] == 0xeb then Goes(Always, at + 2 + SignedLe(out[at + 1..at + 2]), at + 2)
    else if at + 2 <= |out| && out[at] / 16 == 7 then Goes(OnCondition(out[at] % 16), at + 2 + SignedLe(out[at + 1..at + 2]), at + 2)
    else if at + 5 <= |out| && out[at] == 0xe9 then Goes(Always, at + 5 + SignedLe(out[at + 1..at + 5]), at + 5)
    else if at + 6 <= |out| && out[at] == 0x0f && out[at + 1] / 16 == 8
      then Goes(OnCondition(out[at + 1] % 16), at + 6 + SignedLe(out[at + 2..at + 6]), at + 6)
    else Other
  }

  /** The bytes in front of a branch that make it a jump. */
  ghost predicate PutAs(acts: Acts, k: nat, n: nat, jump: Jump)
    requires k < |acts|
  {
    match jump
    case Always => n == 1 && k >= 1 && acts[k - 1] == Byte(0xe9)
    case OnCondition(c) => n == 2 && k >= 2 && c < 16 && acts[k - 2] == Byte(0x0f) && acts[k - 1] == Byte(0x80 + c)
  }

  /** A jump that has been put is the same jump in the code, shortened or not, with the same condition
      and with the label as its target. */
  lemma JumpKept(m: Pass1, cells: Store, shr: Shrinks, out: Bytes, p: Place, n: nat, jump: Jump)
    requires Linked(m, cells, shr) && Complete(m, shr, out) && IsRel(m.prog, p) && |out| < 0x8000_0000
    requires PutAs(m.prog[p.s], p.k, n, jump)
    ensures n <= p.k
    ensures var t := Target(m, p);
      Fetch(out, AddrOf(m.prog, shr, p.s, p.k - n)) == Goes(jump, AddrOf(m.prog, shr, t.s, t.k), AddrOf(m.prog, shr, p.s, p.k + 1))
  {
    BranchLands(m, cells, shr, out, p);
    JumpBytes(m, cells, shr, out, p, n, jump);
  }

  /** The opcode of a branch in the code. */
  ghost predicate OpcodeIs(out: Bytes, a: nat, b: nat, jump: Jump, short: bool) {
    match jump
    case Always => if short then a + 2 == b <= |out| && out[a] == 0xeb else a + 5 == b <= |out| && out[a] == 0xe9
    case OnCondition(c) =>
      if short then a + 2 == b <= |out| && out[a] == 0x70 + c else a + 6 == b <= |out| && out[a] == 0x0f && out[a + 1] == 0x80 + c
  }

  lemma JumpBytes(m: Pass1, cells: Store, shr: Shrinks, out: Bytes, p: Place, n: nat, jump: Jump)
    requires Linked(m, cells, shr) && Complete(m, shr, out) && IsRel(m.prog, p) && Lands(m, shr, out, p)
    requires PutAs(m.prog[p.s], p.k, n, jump)
    ensures n <= p.k
    ensures var t := Target(m, p);
      Fetch(out, AddrOf(m.prog, shr, p.s, p.k - n)) == Goes(jump, AddrOf(m.prog, shr, t.s, t.k), AddrOf(m.prog, shr, p.s, p.k + 1))
  {
    hide Resolved, Complete, AddrOf, PosIn, Base, Target, Fetch, OpcodeIs, SignedLe, Linking;
    var a, b := AddrOf(m.prog, shr, p.s, p.k - n), AddrOf(m.prog, shr, p.s, p.k + 1);
    var short := ShrinkAt(shr, PosIn(m.prog, p)) > 0;
    OpcodeBytes(m, cells, shr, out, p, n, jump);
    FetchIs(out, a, b, jump, short);
  }

  lemma FetchIs(out: Bytes, a: nat, b: nat, jump: Jump, short: bool)
    requires OpcodeIs(out, a, b, jump, short) && (jump.OnCondition? ==> jump.c < 16)
    ensures var w := if short then 1 else 4; Fetch(out, a) == Goes(jump, b + SignedLe(out[b - w..b]), b)
  {
    hide SignedLe;
    if jump.OnCondition? {
      var c := jump.c;
      assert (0x70 + c) / 16 == 7 && (0x70 + c) % 16 == c && (0x80 + c) / 16 == 8 && (0x80 + c) % 16 == c;
    }
  }

  lemma OpcodeBytes(m: Pass1, cells: Store, shr: Shrinks, out: Bytes, p: Place, n: nat, jump: Jump)
    requires Linked(m, cells, shr) && Complete(m, shr, out) && IsRel(m.prog, p) && PutAs(m.prog[p.s], p.k, n, jump)
    ensures n <= p.k
    ensures OpcodeIs(out, AddrOf(m.prog, shr, p.s, p.k - n), AddrOf(m.prog, shr, p.s, p.k + 1), jump, ShrinkAt(shr, PosIn(m.prog, p)) > 0)
  {
    FinalCells(m, cells, shr, p);
    Afterwards(m, shr, out, p);
    if ShrinkAt(shr, PosIn(m.prog, p)) > 0 {
      ShortOpcodeIs(m, shr, out, p, n, jump);
    } else {
      LongOpcodeIs(m, shr, out, p, n, jump);
    }
  }

  lemma Afterwards(m: Pass1, shr: Shrinks, out: Bytes, p: Place)
    requires Resolved(m) && Complete(m, shr, out) && IsPlace(m.prog, p)
    ensures Encoded(m, shr, out, p, |m.prog|, 0)
  {
    hide Resolved, Encoded;
    assert Done(p, |m.prog|, 0);
  }

  lemma ShortOpcodeIs(m: Pass1, shr: Shrinks, out: Bytes, p: Place, n: nat, jump: Jump)
    requires Resolved(m) && IsRel(m.prog, p) && PutAs(m.prog[p.s], p.k, n, jump) && BranchAt(m, shr, out, p)
    requires 0 < ShrinkAt(shr, PosIn(m.prog, p)) == Savings(m.prog[p.s][p.k].op)
    ensures n <= p.k && OpcodeIs(out, AddrOf(m.prog, shr, p.s, p.k - n), AddrOf(m.prog, shr, p.s, p.k + 1), jump, true)
  {
    hide Resolved, AddrOf, PosIn, Target, Le, PosOf, Est;
    BehindOpcode(m, shr, p);
    StepTo(m.prog, shr, p.s, p.k);
  }

  lemma LongOpcodeIs(m: Pass1, shr: Shrinks, out: Bytes, p: Place, n: nat, jump: Jump)
    requires Resolved(m) && Complete(m, shr, out) && IsRel(m.prog, p) && PutAs(m.prog[p.s], p.k, n, jump) && BranchAt(m, shr, out, p)
    requires ShrinkAt(shr, PosIn(m.prog, p)) == 0
    ensures n <= p.k && OpcodeIs(out, AddrOf(m.prog, shr, p.s, p.k - n), AddrOf(m.prog, shr, p.s, p.k + 1), jump, false)
  {
    hide Resolved, Complete, AddrOf, PosIn, Target, Le, PosOf, Est;
    BehindOpcode(m, shr, p);
    StepTo(m.prog, shr, p.s, p.k);
    OpcodeByte(m, shr, out, p, 1);
    if n == 2 { OpcodeByte(m, shr, out, p, 2); }
  }

  /** An opcode byte of a branch that keeps its displacement of four bytes. */
  lemma OpcodeByte(m: Pass1, shr: Shrinks, out: Bytes, p: Place, j: nat)
    requires Resolved(m) && Complete(m, shr, out) && IsRel(m.prog, p) && ShrinkAt(shr, PosIn(m.prog, p)) == 0
    requires 1 <= j <= 2 && j <= p.k && m.prog[p.s][p.k - 1].Byte? && m.prog[p.s][p.k - j].Byte?
    ensures var a := AddrOf(m.prog, shr, p.s, p.k - j); a < |out| && out[a] == m.prog[p.s][p.k - j].v
  {
    hide Resolved, Complete, AddrOf, PosIn, Target, Covered, Est, PosOf;
    var q := Place(p.s, p.k - j);
    Afterwards(m, shr, out, q);
    NotCovered(m, shr, p, j, |m.prog|, 0);
    StepTo(m.prog, shr, q.s, q.k);
  }

  lemma NotCovered(m: Pass1, shr: Shrinks, p: Place, j: nat, s: nat, k: nat)
    requires Resolved(m) && IsRel(m.prog, p) && ShrinkAt(shr, PosIn(m.prog, p)) == 0
    requires 1 <= j <= 2 && j <= p.k && m.prog[p.s][p.k - 1].Byte?
    ensures !Covered(m.prog, shr, Place(p.s, p.k - j), s, k)
  {
    hide Resolved, PosIn, Done, ShrinkAt;
    NoRelBehind(m, p);
  }

  /** Two branches never follow each other: each has its opcode in front. */
  lemma NoRelBehind(m: Pass1, p: Place)
    requires Resolved(m) && IsRel(m.prog, p)
    ensures !IsRel(m.prog, Next(p))
  {
    var q := Next(p);
    assert IsPlace(m.prog, q) ==> OpcodeOk(m.prog[q.s], q.k);
  }
}
