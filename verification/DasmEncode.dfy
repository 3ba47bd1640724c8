/** Pass 3 of DynASM: what the encoded bytes are, and where branches land. */
module DasmEncode {
  import opened DasmLayout
  import opened DasmStore
  import opened DasmPut
  import opened DasmLink

  type Bytes = seq<nat>

  /** The low bytes of a number in two's complement, least significant first. */
  function Le(n: int, k: nat): Bytes
    decreases k
  {
    if k == 0 then [] else [n % 256] + Le(n / 256, k - 1)
  }

  /** How a processor reads them back. */
  function SignedLe(b: Bytes): int
    requires b != []
  {
    if |b| == 1 then (if b[0] >= 128 then b[0] - 256 else b[0]) else b[0] + 256 * SignedLe(b[1..])
  }

  /** 2^(8k-1) */
  function Half(k: nat): int
    requires k > 0
  {
    if k == 1 then 128 else 256 * Half(k - 1)
  }

  lemma {:induction false} LeLength(n: int, k: nat)
    ensures |Le(n, k)| == k
    decreases k
  {
    if k > 0 { LeLength(n / 256, k - 1); }
  }

  lemma {:induction false} SignedRound(n: int, k: nat)
    requires k > 0 && -Half(k) <= n < Half(k)
    ensures |Le(n, k)| == k && SignedLe(Le(n, k)) == n
    decreases k
  {
    LeLength(n, k);
    if k > 1 {
      SignedRound(n / 256, k - 1);
      assert Le(n, k)[1..] == Le(n / 256, k - 1);
    } else {
      assert Le(n, 1) == [n % 256];
    }
  }

  // ---------------------------------------------------------------- what the output holds

  ghost function Next(p: Place): Place { Place(p.s, p.k + 1) }

  /** A short branch has taken the place of this opcode byte. */
  ghost predicate Covered(prog: Program, shr: Shrinks, p: Place, s: nat, k: nat) {
    || (IsRel(prog, Next(p)) && Done(Next(p), s, k) && ShrinkAt(shr, PosIn(prog, Next(p))) > 0)
    || (IsRel(prog, Next(Next(p))) && Done(Next(Next(p)), s, k) && ShrinkAt(shr, PosIn(prog, Next(Next(p)))) == 4)
  }

  ghost predicate AllAre(out: Bytes, a: nat, b: nat, v: nat) { a <= b <= |out| && forall i | a <= i < b :: out[i] == v }

  ghost predicate Reads(out: Bytes, a: nat, b: nat, s: Bytes) { a <= b <= |out| && out[a..b] == s }

  /** The short form of a jump, and of a conditional branch. */
  function ShortOpcode(op: nat): nat { if op / 16 == 8 then op - 0x10 else 0xeb }

  /** The displacement of a branch is to its label from the byte behind it; a short branch has
      an opcode of its own. */
  ghost predicate BranchAt(m: Pass1, shr: Shrinks, out: Bytes, p: Place)
    requires Resolved(m) && IsRel(m.prog, p)
  {
    var t, n, b := Target(m, p), ShrinkAt(shr, PosIn(m.prog, p)), AddrOf(m.prog, shr, p.s, p.k + 1);
    var d := AddrOf(m.prog, shr, t.s, t.k) - b;
    if n == 0 then b >= 4 && Reads(out, b - 4, b, Le(d, 4))
    else b >= 2 && Reads(out, b - 1, b, Le(d, 1)) && out[b - 2] == ShortOpcode(m.prog[p.s][p.k].op)
  }

  /** The bytes of one action, when the encoder is at action `k` of section `s`. */
  ghost predicate Encoded(m: Pass1, shr: Shrinks, out: Bytes, p: Place, s: nat, k: nat)
    requires Resolved(m) && IsPlace(m.prog, p)
  {
    var a, b := AddrOf(m.prog, shr, p.s, p.k), AddrOf(m.prog, shr, p.s, p.k + 1);
    match m.prog[p.s][p.k]
    case Byte(v) => Covered(m.prog, shr, p, s, k) || AllAre(out, a, b, v)
    case Imm(n, w) => Reads(out, a, b, Le(n, w))
    case Rel(_, _, _) => BranchAt(m, shr, out, p)
    case Space(_, fill) => AllAre(out, a, b, fill)
    case Align(_) => AllAre(out, a, b, 0x90)
    case _ => a == b
  }

  ghost predicate Encoding(m: Pass1, shr: Shrinks, out: Bytes, s: nat, k: nat)
    requires Resolved(m)
  {
    forall p {:trigger IsPlace(m.prog, p)} | IsPlace(m.prog, p) && Done(p, s, k) :: Encoded(m, shr, out, p, s, k)
  }

  /** Everything has been encoded. */
  ghost predicate Complete(m: Pass1, shr: Shrinks, out: Bytes)
    requires Resolved(m)
  {
    |out| == Base(m.prog, shr, |m.prog|) && Encoding(m, shr, out, |m.prog|, 0)
  }

  // ---------------------------------------------------------------- one more action

  /** An earlier action ends before a later one. */
  lemma EndsBefore(prog: Program, shr: Shrinks, p: Place, s: nat, k: nat)
    requires IsPlace(prog, p) && s < |prog| && k <= |prog[s]| && Done(p, s, k)
    ensures AddrOf(prog, shr, p.s, p.k) <= AddrOf(prog, shr, p.s, p.k + 1) <= AddrOf(prog, shr, s, k)
  {
    Distance(prog, shr, p.s, p.k, p.s, p.k + 1);
    Distance(prog, shr, p.s, p.k + 1, s, k);
  }

  /** Bytes that are not touched stay encoded. */
  lemma EncodedKept(m: Pass1, shr: Shrinks, out: Bytes, out': Bytes, p: Place, s: nat, k: nat, c: nat)
    requires Resolved(m) && IsPlace(m.prog, p) && Encoded(m, shr, out, p, s, k) && AddrOf(m.prog, shr, p.s, p.k + 1) <= c
    requires c <= |out| && c <= |out'| && out'[..c] == out[..c]
    ensures Encoded(m, shr, out', p, s, k + 1)
  {
    var b := AddrOf(m.prog, shr, p.s, p.k + 1);
    assert forall i | 0 <= i < c :: out'[i] == out'[..c][i] && out[i] == out[..c][i];
    forall a | 0 <= a <= b
      ensures out'[a..b] == out[a..b]
    {
      assert out[a..b] == out[..c][a..b];
      assert out'[a..b] == out'[..c][a..b];
    }
  }

  /** An action that only appends its bytes. */
  lemma EncodeAppend(m: Pass1, shr: Shrinks, out: Bytes, more: Bytes, p: Place)
    requires Resolved(m) && IsPlace(m.prog, p) && Encoding(m, shr, out, p.s, p.k) && |out| == AddrOf(m.prog, shr, p.s, p.k)
    requires Encoded(m, shr, out + more, p, p.s, p.k + 1)
    ensures Encoding(m, shr, out + more, p.s, p.k + 1)
  {
    hide Resolved, Encoded, Target;
    forall r | IsPlace(m.prog, r) && Done(r, p.s, p.k + 1)
      ensures Encoded(m, shr, out + more, r, p.s, p.k + 1)
    {
      if r != p {
        EndsBefore(m.prog, shr, r, p.s, p.k);
        assert (out + more)[..|out|] == out[..|out|];
        EncodedKept(m, shr, out, out + more, r, p.s, p.k, |out|);
      }
    }
  }

  /** A short branch also replaces the opcode in front of it. */
  lemma EncodeShort(m: Pass1, shr: Shrinks, out: Bytes, out': Bytes, p: Place, back: nat)
    requires Resolved(m) && IsRel(m.prog, p) && Encoding(m, shr, out, p.s, p.k) && |out| == AddrOf(m.prog, shr, p.s, p.k)
    requires back == (if ShrinkAt(shr, PosIn(m.prog, p)) == 4 then 2 else 1) && ShrinkAt(shr, PosIn(m.prog, p)) > 0
    requires back <= p.k && back <= |out| && AddrOf(m.prog, shr, p.s, p.k - back) == |out| - back
    requires m.prog[p.s][p.k - 1].Byte? && (back == 2 ==> m.prog[p.s][p.k - 2].Byte?)
    requires |out| - back <= |out'| && out'[..|out| - back] == out[..|out| - back] && BranchAt(m, shr, out', p)
    ensures Encoding(m, shr, out', p.s, p.k + 1)
  {
    hide Resolved, BranchAt, AddrOf, PosIn, Target;
    forall r | IsPlace(m.prog, r) && Done(r, p.s, p.k + 1)
      ensures Encoded(m, shr, out', r, p.s, p.k + 1)
    {
      if Done(r, p.s, p.k - back) {
        EndsBefore(m.prog, shr, r, p.s, p.k - back);
        EncodedKept(m, shr, out, out', r, p.s, p.k, |out| - back);
      } else if r != p {
        assert r == Place(p.s, p.k - 1) || (back == 2 && r == Place(p.s, p.k - 2));
      }
    }
  }

  /** The bytes of a branch that keeps its displacement of four bytes. */
  lemma LongBranch(m: Pass1, shr: Shrinks, out: Bytes, p: Place, more: Bytes)
    requires Resolved(m) && IsRel(m.prog, p) && Encoding(m, shr, out, p.s, p.k) && |out| == AddrOf(m.prog, shr, p.s, p.k)
    requires ShrinkAt(shr, PosIn(m.prog, p)) == 0 && more == Displacement(m, shr, p, |out| + 4, 4)
    ensures |out + more| == AddrOf(m.prog, shr, p.s, p.k + 1) && Encoding(m, shr, out + more, p.s, p.k + 1)
  {
    LongBytes(m, shr, out, p, more);
    hide Resolved, AddrOf, PosIn, PosOf, Le, Encoding, Displacement, BranchAt, Target;
    EncodeAppend(m, shr, out, more, p);
  }

  lemma LongBytes(m: Pass1, shr: Shrinks, out: Bytes, p: Place, more: Bytes)
    requires Resolved(m) && IsRel(m.prog, p) && |out| == AddrOf(m.prog, shr, p.s, p.k)
    requires ShrinkAt(shr, PosIn(m.prog, p)) == 0 && more == Displacement(m, shr, p, |out| + 4, 4)
    ensures |out + more| == AddrOf(m.prog, shr, p.s, p.k + 1) && BranchAt(m, shr, out + more, p)
  {
    hide Resolved, AddrOf, PosIn, PosOf, Le, Target, Reads;
    StepTo(m.prog, shr, p.s, p.k);
    ReadsEnd(out, more);
  }

  lemma ReadsEnd(out: Bytes, more: Bytes)
    ensures Reads(out + more, |out|, |out| + |more|, more)
  {
    assert (out + more)[|out|..] == more;
  }

  /** The distance from `at` to the label of a branch. */
  ghost function Displacement(m: Pass1, shr: Shrinks, p: Place, at: int, w: nat): (r: Bytes)
    requires Resolved(m) && IsRel(m.prog, p)
    ensures |r| == w
  {
    var n := AddrOf(m.prog, shr, Target(m, p).s, Target(m, p).k) - at;
    LeLength(n, w);
    Le(n, w)
  }

  /** The bytes of a short branch, `back` of them written before. */
  lemma ShortBranch(m: Pass1, shr: Shrinks, out: Bytes, p: Place, back: nat, out': Bytes)
    requires Resolved(m) && IsRel(m.prog, p) && Encoding(m, shr, out, p.s, p.k) && |out| == AddrOf(m.prog, shr, p.s, p.k)
    requires 0 < ShrinkAt(shr, PosIn(m.prog, p)) == Savings(m.prog[p.s][p.k].op)
    requires back == (if ShrinkAt(shr, PosIn(m.prog, p)) == 4 then 2 else 1) && back <= |out|
    requires out' == out[..|out| - back] + [ShortOpcode(m.prog[p.s][p.k].op)] + Displacement(m, shr, p, |out| + 2 - back, 1)
    ensures |out'| == AddrOf(m.prog, shr, p.s, p.k + 1) && Encoding(m, shr, out', p.s, p.k + 1)
  {
    BehindOpcode(m, shr, p);
    StepTo(m.prog, shr, p.s, p.k);
    hide Resolved, AddrOf, PosIn, PosOf, Le, Encoding, Addr, Base, CellAt, Target;
    ShortBytes(m, shr, out, p, back, out');
    EncodeShort(m, shr, out, out', p, back);
  }

  lemma ShortBytes(m: Pass1, shr: Shrinks, out: Bytes, p: Place, back: nat, out': Bytes)
    requires Resolved(m) && IsRel(m.prog, p) && |out| == AddrOf(m.prog, shr, p.s, p.k)
    requires 0 < ShrinkAt(shr, PosIn(m.prog, p)) == Savings(m.prog[p.s][p.k].op)
    requires back == (if ShrinkAt(shr, PosIn(m.prog, p)) == 4 then 2 else 1) && back <= |out|
    requires out' == out[..|out| - back] + [ShortOpcode(m.prog[p.s][p.k].op)] + Displacement(m, shr, p, |out| + 2 - back, 1)
    ensures |out'| == AddrOf(m.prog, shr, p.s, p.k + 1) && BranchAt(m, shr, out', p) && out'[..|out| - back] == out[..|out| - back]
  {
    hide Resolved, AddrOf, PosIn, PosOf, Le, Target;
    StepTo(m.prog, shr, p.s, p.k);
    assert out'[|out'| - 1..] == Displacement(m, shr, p, |out| + 2 - back, 1);
  }

  lemma EncodeSection(m: Pass1, shr: Shrinks, out: Bytes, s: nat)
    requires Resolved(m) && s < |m.prog| && Encoding(m, shr, out, s, |m.prog[s]|)
    ensures Encoding(m, shr, out, s + 1, 0)
  {
    forall r | IsPlace(m.prog, r) && Done(r, s + 1, 0)
      ensures Encoded(m, shr, out, r, s + 1, 0)
    {
      assert Done(r, s, |m.prog[s]|);
    }
  }

  // ---------------------------------------------------------------- where branches land

  /** A processor that has read the branch, with its displacement, goes on at its label. */
  ghost predicate Lands(m: Pass1, shr: Shrinks, out: Bytes, p: Place)
    requires Resolved(m) && IsRel(m.prog, p)
  {
    var t, b := Target(m, p), AddrOf(m.prog, shr, p.s, p.k + 1);
    var w := if ShrinkAt(shr, PosIn(m.prog, p)) > 0 then 1 else 4;
    w <= b <= |out| && b + SignedLe(out[b - w..b]) == AddrOf(m.prog, shr, t.s, t.k) <= |out|
  }

  lemma BranchLands(m: Pass1, cells: Store, shr: Shrinks, out: Bytes, p: Place)
    requires Linked(m, cells, shr) && Complete(m, shr, out) && IsRel(m.prog, p) && |out| < 0x8000_0000
    ensures Lands(m, shr, out, p)
  {
    assert Done(p, |m.prog|, 0) && IsPlace(m.prog, p);
    assert BranchAt(m, shr, out, p);
    AtMost(m.prog, shr, Target(m, p).s, Target(m, p).k);
    if ShrinkAt(shr, PosIn(m.prog, p)) > 0 { ShortReaches(m, cells, shr, p); }
    hide Linking, Encoding, Resolved, AddrOf, Base, Target;
    LandsIf(m, shr, out, p);
  }

  lemma LandsIf(m: Pass1, shr: Shrinks, out: Bytes, p: Place)
    requires Resolved(m) && IsRel(m.prog, p) && |out| < 0x8000_0000 && BranchAt(m, shr, out, p)
    requires var t, b := Target(m, p), AddrOf(m.prog, shr, p.s, p.k + 1);
      && AddrOf(m.prog, shr, t.s, t.k) <= |out|
      && (ShrinkAt(shr, PosIn(m.prog, p)) > 0 ==> -128 <= AddrOf(m.prog, shr, t.s, t.k) - b <= 127)
    ensures Lands(m, shr, out, p)
  {
    hide Resolved, AddrOf, PosIn, SignedLe, Le, Target;
    var t, b := Target(m, p), AddrOf(m.prog, shr, p.s, p.k + 1);
    BranchReads(out, AddrOf(m.prog, shr, t.s, t.k), b, if ShrinkAt(shr, PosIn(m.prog, p)) > 0 then 1 else 4);
  }

  lemma BranchReads(out: Bytes, t: nat, b: nat, w: nat)
    requires w <= b && Reads(out, b - w, b, Le(t - b, w)) && t <= |out| < 0x8000_0000
    requires w == 4 || (w == 1 && -128 <= t - b <= 127)
    ensures b + SignedLe(out[b - w..b]) == t
  {
    Halves();
    SignedRound(t - b, w);
  }

  lemma Halves()
    ensures Half(1) == 0x80 && Half(4) == 0x8000_0000
  {}

  lemma AtMost(prog: Program, shr: Shrinks, s: nat, k: nat)
    requires s < |prog| && k <= |prog[s]|
    ensures AddrOf(prog, shr, s, k) <= Base(prog, shr, |prog|)
  {
    AddrBounds(prog[s], shr, s, Base(prog, shr, s), k, |prog[s]|);
    BaseBounds(prog, shr, s + 1, |prog|);
  }
}
