/** Where the code of dasm_put ends up: the offsets pass 1 assumes, the final addresses, and
    how far apart they can be. */
module DasmLayout {
  import opened Shifts
  import opened DasmLabels

  /** 2^n - 1 */
  function Mask(n: nat): nat { if n == 0 then 0 else 2 * Mask(n - 1) + 1 }

  /** What one put stores in a section. Start stands for the action list offset each put
      begins with; a branch knows the opcode byte in front of it. */
  datatype Action =
    | Start
    | Byte(v: nat)
    | Imm(n: int, bytes: nat)
    | Rel(op: nat, name: Label, kind: Kind)
    | Lab(name: Label)
    | Align(bits: nat)
    | Space(count: nat, fill: nat)

  type Acts = seq<Action>

  /** How many buffer cells an action takes. */
  function Cells(a: Action): nat {
    match a
    case Byte(_) => 0
    case Rel(_, _, _) => 2
    case _ => 1
  }

  /** The most bytes an action can give; a shrunk branch also saves one byte before it. */
  function MaxSize(a: Action): nat {
    match a
    case Byte(_) => 1
    case Imm(_, k) => k
    case Rel(_, _, _) => 4
    case Align(bits) => Mask(bits)
    case Space(n, _) => n
    case _ => 0
  }

  /** Cells and bytes before action number `k`. */
  function CellAt(acts: Acts, k: nat): nat
    requires k <= |acts|
  {
    if k == 0 then 0 else CellAt(acts, k - 1) + Cells(acts[k - 1])
  }

  function Est(acts: Acts, k: nat): nat
    requires k <= |acts|
  {
    if k == 0 then 0 else Est(acts, k - 1) + MaxSize(acts[k - 1])
  }

  /** The next multiple of 2^bits, as pass 2 computes it. */
  function RoundUp(a: nat, bits: nat): (r: nat)
  {
    var x := a + Mask(bits);
    if Low(x, bits) <= x then x - Low(x, bits) else 0
  }

  lemma {:induction false} LowBound(x: nat, n: nat)
    ensures Low(x, n) <= x && Low(x, n) <= Mask(n)
    decreases n
  {
    if n > 0 { LowBound(x / 2, n - 1); }
  }

  /** Adding 2^n does not change the low bits. */
  lemma {:induction false} LowPeriod(a: nat, n: nat)
    ensures Low(a + Mask(n) + 1, n) == Low(a, n)
    decreases n
  {
    if n > 0 {
      LowPeriod(a / 2, n - 1);
      assert (a + 2 * (Mask(n - 1) + 1)) / 2 == a / 2 + Mask(n - 1) + 1;
    }
  }

  /** Adding the mask: the low bits wrap to one less, unless there are none. */
  lemma {:induction false} LowMask(a: nat, n: nat)
    ensures Low(a + Mask(n), n) == if Low(a, n) == 0 then Mask(n) else Low(a, n) - 1
    decreases n
  {
    if n > 0 {
      var h, m := a / 2, Mask(n - 1);
      LowMask(h, n - 1);
      LowPeriod(h, n - 1);
      if a % 2 == 1 {
        assert a + Mask(n) == 2 * (h + m + 1);
      } else {
        assert a + Mask(n) == 2 * (h + m) + 1;
      }
    }
  }

  lemma {:induction false} LowSucc(a: nat, n: nat)
    ensures Low(a + 1, n) == if Low(a, n) == Mask(n) then 0 else Low(a, n) + 1
    decreases n
  {
    LowBound(a, n);
    if n > 0 {
      LowSucc(a / 2, n - 1);
      LowBound(a / 2, n - 1);
    }
  }

  /** What rounding up gives: an aligned address, no further than the mask. */
  lemma RoundUpFacts(a: nat, bits: nat)
    ensures a <= RoundUp(a, bits) <= a + Mask(bits)
    ensures Low(a, bits) == 0 ==> RoundUp(a, bits) == a
    ensures Low(a, bits) != 0 ==> RoundUp(a, bits) == a + Mask(bits) + 1 - Low(a, bits) && RoundUp(a + 1, bits) == RoundUp(a, bits)
  {
    LowBound(a, bits);
    LowBound(a + Mask(bits), bits);
    LowMask(a, bits);
    LowSucc(a, bits);
    LowBound(a + 1 + Mask(bits), bits);
    LowMask(a + 1, bits);
  }

  // ---------------------------------------------------------------- final addresses

  /** How many bytes each branch saves, by its position. */
  type Shrinks = map<int, nat>

  function ShrinkAt(shr: Shrinks, q: int): (n: nat)
    ensures n <= 4
  {
    if q in shr && shr[q] <= 4 then shr[q] else 0
  }

  function Step(a: Action, addr: nat, shrink: nat): nat
    requires shrink <= 4
  {
    match a
    case Rel(_, _, _) => addr + 4 - shrink
    case Align(bits) => RoundUp(addr, bits)
    case _ => addr + MaxSize(a)
  }

  const SECTION := 0x100_0000

  /** DASM_SEC2POS and the index of a cell. */
  function PosOf(s: nat, acts: Acts, k: nat): int
    requires k <= |acts|
  {
    s * SECTION + CellAt(acts, k)
  }

  /** The address of action `k` of section `s`, which starts at `base`. */
  function Addr(acts: Acts, shr: Shrinks, s: nat, base: nat, k: nat): nat
    requires k <= |acts|
  {
    if k == 0 then base
    else Step(acts[k - 1], Addr(acts, shr, s, base, k - 1), ShrinkAt(shr, PosOf(s, acts, k - 1)))
  }

  lemma StepBounds(a: Action, addr: nat, shrink: nat)
    requires shrink <= 4
    ensures addr <= Step(a, addr, shrink) <= addr + MaxSize(a)
  {
    if a.Align? { RoundUpFacts(addr, a.bits); }
  }

  /** The final distance between two places of a section is at most the one pass 1 assumes. */
  lemma {:induction false} AddrBounds(acts: Acts, shr: Shrinks, s: nat, base: nat, j: nat, k: nat)
    requires j <= k <= |acts|
    ensures Est(acts, j) <= Est(acts, k)
    ensures 0 <= Addr(acts, shr, s, base, k) - Addr(acts, shr, s, base, j) <= Est(acts, k) - Est(acts, j)
    decreases k
  {
    if j < k {
      AddrBounds(acts, shr, s, base, j, k - 1);
      StepBounds(acts[k - 1], Addr(acts, shr, s, base, k - 1), ShrinkAt(shr, PosOf(s, acts, k - 1)));
    }
  }

  type Program = seq<Acts>

  /** Where section `s` starts: right behind the one before. */
  function Base(prog: Program, shr: Shrinks, s: nat): nat
    requires s <= |prog|
  {
    if s == 0 then 0 else Addr(prog[s - 1], shr, s - 1, Base(prog, shr, s - 1), |prog[s - 1]|)
  }

  function AddrOf(prog: Program, shr: Shrinks, s: nat, k: nat): nat
    requires s < |prog| && k <= |prog[s]|
  {
    Addr(prog[s], shr, s, Base(prog, shr, s), k)
  }

  /** The full sizes of the sections from `s` up to `r`. */
  function MaxBetween(prog: Program, s: nat, r: nat): nat
    requires s <= r <= |prog|
  {
    if s == r then 0 else MaxBetween(prog, s, r - 1) + Est(prog[r - 1], |prog[r - 1]|)
  }

  lemma {:induction false} BaseBounds(prog: Program, shr: Shrinks, s: nat, r: nat)
    requires s <= r <= |prog|
    ensures 0 <= Base(prog, shr, r) - Base(prog, shr, s) <= MaxBetween(prog, s, r)
    decreases r
  {
    if s < r {
      BaseBounds(prog, shr, s, r - 1);
      AddrBounds(prog[r - 1], shr, r - 1, Base(prog, shr, r - 1), 0, |prog[r - 1]|);
    }
  }

  /** Also across sections: a place further on is at most as far away as pass 2 estimates for
      a forward branch. */
  lemma Distance(prog: Program, shr: Shrinks, s: nat, j: nat, r: nat, k: nat)
    requires s <= r < |prog| && j <= |prog[s]| && k <= |prog[r]| && (s == r ==> j <= k)
    ensures 0 <= AddrOf(prog, shr, r, k) - AddrOf(prog, shr, s, j) <= Est(prog[r], k) + MaxBetween(prog, s, r) - Est(prog[s], j)
  {
    if s == r {
      AddrBounds(prog[s], shr, s, Base(prog, shr, s), j, k);
    } else {
      AddrBounds(prog[r], shr, r, Base(prog, shr, r), 0, k);
      AddrBounds(prog[s], shr, s, Base(prog, shr, s), j, |prog[s]|);
      AddrBounds(prog[s], shr, s, Base(prog, shr, s), 0, j);
      BaseBounds(prog, shr, s + 1, r);
      MaxBetweenFirst(prog, s, r);
    }
  }

  lemma {:induction false} MaxBetweenFirst(prog: Program, s: nat, r: nat)
    requires s < r <= |prog|
    ensures MaxBetween(prog, s, r) == Est(prog[s], |prog[s]|) + MaxBetween(prog, s + 1, r)
    decreases r
  {
    if s + 1 < r { MaxBetweenFirst(prog, s, r - 1); }
  }
}
