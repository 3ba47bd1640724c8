/** The bytecode dump format: prototypes and the bytes they are dumped as. */
module BcFormat {
  import opened Shifts

  type byte = x: int | 0 <= x < 0x100

  type Bytes = seq<byte>

  const U32 := 0x1_0000_0000

  predicate IsU32(x: int) { 0 <= x < U32 }

  predicate IsI32(x: int) { -0x8000_0000 <= x < 0x8000_0000 }

  /** (uint32_t)i and back. */
  function ToU32(i: int): (u: nat)
    requires IsI32(i)
    ensures IsU32(u) && FromU32(u) == i
  {
    if i < 0 then i + U32 else i
  }

  function FromU32(u: nat): int { if u < 0x8000_0000 then u else u - U32 }

  // ---------------------------------------------------------------- values

  /** A constant in a template table; a number is its two words. */
  datatype Tv = Nil | False | True | Int(i: int) | Num(lo: nat, hi: nat) | Str(s: Bytes)

  datatype Node = Node(key: Tv, val: Tv)

  /** A table: array slots and hash nodes, unused where the value is nil. */
  datatype Tab = Tab(arr: seq<Tv>, nodes: seq<Node>)

  /** A constant that is an object. */
  datatype Kgc =
    | KStr(s: Bytes)
    | KChild(pt: Proto)
    | KTab(t: Tab)
    | KI64(lo: nat, hi: nat)
    | KU64(lo: nat, hi: nat)
    | KComplex(rlo: nat, rhi: nat, ilo: nat, ihi: nat)

  datatype Knum = KInt(i: int) | KNum(lo: nat, hi: nat)

  datatype Debug = NoDebug | Debug(firstline: nat, numline: nat, info: Bytes)

  /** A prototype. `kgc` is in memory order; `bc` is without the function header, in bytes. */
  datatype Proto = Proto(
    flags: byte, numparams: byte, framesize: byte,
    bc: Bytes, uv: Bytes, kgc: seq<Kgc>, kn: seq<Knum>, dbg: Debug)

  ghost predicate OkTv(o: Tv) {
    match o
    case Int(i) => IsI32(i)
    case Num(lo, hi) => IsU32(lo) && IsU32(hi)
    case Str(s) => |s| + 5 < U32
    case _ => true
  }

  predicate Used(d: Node) { d.val != Nil }

  /** A real hash part has at least two nodes; keys in use are distinct and not array slots. */
  ghost predicate OkTab(t: Tab) {
    && |t.arr| < U32 && |t.nodes| < U32 && (|t.nodes| == 1 ==> !Used(t.nodes[0]))
    && (forall o <- t.arr :: OkTv(o)) && (forall d <- t.nodes :: OkTv(d.key) && OkTv(d.val))
    && (forall i, j | 0 <= i < j < |t.nodes| && Used(t.nodes[i]) && Used(t.nodes[j]) :: t.nodes[i].key != t.nodes[j].key)
    && (forall d <- t.nodes :: d.key.Int? && Used(d) ==> !(0 <= d.key.i < |t.arr|))
  }

  ghost predicate OkKnum(k: Knum) {
    match k
    case KInt(i) => IsI32(i)
    case KNum(lo, hi) => IsU32(lo) && IsU32(hi)
  }

  /** Sizes fit their fields, and only a prototype with the child flag has children. */
  ghost predicate OkProto(pt: Proto)
    decreases pt, 1
  {
    && |pt.bc| % 4 == 0 && |pt.bc| / 4 + 1 < U32 && |pt.uv| % 2 == 0 && |pt.uv| / 2 < 0x100
    && |pt.kgc| < U32 && |pt.kn| < U32
    && (forall k <- pt.kn :: OkKnum(k))
    && (pt.dbg.Debug? ==> IsU32(pt.dbg.firstline) && IsU32(pt.dbg.numline) && 0 < |pt.dbg.info| < U32)
    && (forall i | 0 <= i < |pt.kgc| :: OkKgc(pt, i))
  }

  ghost predicate OkKgc(pt: Proto, i: nat)
    requires i < |pt.kgc|
    decreases pt, 0
  {
    match pt.kgc[i]
    case KStr(s) => |s| + 5 < U32
    case KChild(c) => pt.flags % 2 == 1 && OkProto(c)
    case KTab(t) => OkTab(t)
    case KI64(lo, hi) => IsU32(lo) && IsU32(hi)
    case KU64(lo, hi) => IsU32(lo) && IsU32(hi)
    case KComplex(rlo, rhi, ilo, ihi) => IsU32(rlo) && IsU32(rhi) && IsU32(ilo) && IsU32(ihi)
  }

  // ---------------------------------------------------------------- numbers

  /** ULEB128 */
  function Uleb(v: nat): (r: Bytes)
    ensures |r| >= 1
  {
    if v >= 0x80 then [v % 0x80 + 0x80] + Uleb(v / 0x80) else [v]
  }

  /** The number of the highest bit. */
  function Fls(n: nat): nat
    requires n > 0
  {
    if n == 1 then 0 else Fls(n / 2) + 1
  }

  lemma {:induction false} FlsShift(n: nat, k: nat)
    requires Shr(n, k) > 0
    ensures n > 0 && Fls(n) == Fls(Shr(n, k)) + k
    decreases k
  {
    if k > 0 {
      FlsShift(n / 2, k - 1);
    }
  }

  lemma {:induction false} FlsBelow(n: nat, k: nat)
    requires n > 0 && Shr(n, k + 1) == 0
    ensures Fls(n) <= k
    decreases k
  {
    if k > 0 && n > 1 { FlsBelow(n / 2, k - 1); }
  }

  /** How long a number is in ULEB128. */
  lemma {:induction false} UlebBits(n: nat)
    requires n > 0
    ensures |Uleb(n)| == Fls(n) / 7 + 1
  {
    ShrEight(n);
    if n >= 0x80 {
      FlsShift(n, 7);
      UlebBits(n / 0x80);
    } else {
      FlsBelow(n, 6);
    }
  }

  /** Five bytes are enough for 33 bits, and one for small numbers. */
  lemma UlebShort(n: nat)
    requires n < 2 * U32
    ensures 1 <= |Uleb(n)| <= 5 && (n < 0x80 ==> Uleb(n) == [n])
  {
    UlebAtMost(n / 0x80 / 0x80 / 0x80 / 0x80, 1);
    UlebAtMost(n / 0x80 / 0x80 / 0x80, 2);
    UlebAtMost(n / 0x80 / 0x80, 3);
    UlebAtMost(n / 0x80, 4);
  }

  lemma UlebAtMost(n: nat, k: nat)
    requires n < 0x80 || |Uleb(n / 0x80)| < k
    ensures |Uleb(n)| <= if n < 0x80 then 1 else k
  {}

  /** The formula of bcwrite_proto gives the length of every size, without a loop. */
  lemma UlebFormula(n: nat)
    requires 0 < n < U32
    ensures |Uleb(n)| == (Fls(n) + 8) * 9 / 64 && 1 <= |Uleb(n)| <= 5
  {
    UlebBits(n);
    UlebShort(n);
  }

  // ---------------------------------------------------------------- the grammar, as a printer

  function TvBytes(o: Tv): Bytes
    requires OkTv(o)
  {
    match o
    case Nil => [0]
    case False => [1]
    case True => [2]
    case Int(i) => [3] + Uleb(ToU32(i))
    case Num(lo, hi) => [4] + (Uleb(lo) + Uleb(hi))
    case Str(s) => Uleb(5 + |s|) + s
  }

  ghost function ArrBytes(a: seq<Tv>): Bytes
    requires forall o <- a :: OkTv(o)
  {
    if a == [] then [] else TvBytes(a[0]) + ArrBytes(a[1..])
  }

  ghost function NodesBytes(a: seq<Node>): Bytes
    requires forall d <- a :: OkTv(d.key) && OkTv(d.val)
  {
    if a == [] then [] else TvBytes(a[0].key) + (TvBytes(a[0].val) + NodesBytes(a[1..]))
  }

  /** The array without nils at the end. */
  function Trim(a: seq<Tv>): (r: seq<Tv>)
    ensures |r| <= |a| && r == a[..|r|]
  {
    if a != [] && a[|a| - 1] == Nil then Trim(a[..|a| - 1]) else a
  }

  /** The nodes in use, the last one first. */
  function UsedNodes(a: seq<Node>): (r: seq<Node>)
    ensures |r| <= |a| && forall d <- r :: d in a && Used(d)
  {
    if a == [] then [] else UsedNodes(a[1..]) + (if Used(a[0]) then [a[0]] else [])
  }

  /** What is dumped of a table. */
  ghost function CanonTab(t: Tab): Tab { Tab(Trim(t.arr), UsedNodes(t.nodes)) }

  ghost function TabBytes(t: Tab): Bytes
    requires OkTab(t)
  {
    var c := CanonTab(t);
    Uleb(|c.arr|) + (Uleb(|c.nodes|) + (ArrBytes(c.arr) + NodesBytes(c.nodes)))
  }

  ghost function KgcBytes(pt: Proto, i: nat): Bytes
    requires i < |pt.kgc| && OkKgc(pt, i)
  {
    match pt.kgc[i]
    case KChild(_) => [0]
    case KTab(t) => [1] + TabBytes(t)
    case KI64(lo, hi) => [2] + (Uleb(lo) + Uleb(hi))
    case KU64(lo, hi) => [3] + (Uleb(lo) + Uleb(hi))
    case KComplex(rlo, rhi, ilo, ihi) => [4] + (Uleb(rlo) + (Uleb(rhi) + (Uleb(ilo) + Uleb(ihi))))
    case KStr(s) => Uleb(5 + |s|) + s
  }

  /** The constants from number `i` on. */
  ghost function KgcsBytes(pt: Proto, i: nat): Bytes
    requires i <= |pt.kgc| && OkProto(pt)
    decreases |pt.kgc| - i
  {
    if i == |pt.kgc| then [] else KgcBytes(pt, i) + KgcsBytes(pt, i + 1)
  }

  /** 33 bits: the number, and below it whether it is only the low word of one. */
  ghost function KnumBytes(k: Knum): Bytes
    requires OkKnum(k)
  {
    match k
    case KInt(i) => Uleb(2 * ToU32(i))
    case KNum(lo, hi) => Uleb(2 * lo + 1) + Uleb(hi)
  }

  ghost function KnumsBytes(kn: seq<Knum>): Bytes
    requires forall k <- kn :: OkKnum(k)
  {
    if kn == [] then [] else KnumBytes(kn[0]) + KnumsBytes(kn[1..])
  }

  ghost function DebugHead(d: Debug, strip: bool): Bytes
    requires d.Debug? ==> IsU32(d.firstline) && IsU32(d.numline)
  {
    if strip then [] else if d.NoDebug? then [0] else Uleb(|d.info|) + (Uleb(d.firstline) + Uleb(d.numline))
  }

  ghost function DebugInfo(d: Debug, strip: bool): Bytes { if strip || d.NoDebug? then [] else d.info }

  ghost function Body(pt: Proto, strip: bool): Bytes
    requires OkProto(pt)
  {
    [pt.flags % 8, pt.numparams, pt.framesize, |pt.uv| / 2]
    + (Uleb(|pt.kgc|) + (Uleb(|pt.kn|) + (Uleb(|pt.bc| / 4) + (DebugHead(pt.dbg, strip)
    + (pt.bc + (pt.uv + (KgcsBytes(pt, 0) + (KnumsBytes(pt.kn) + DebugInfo(pt.dbg, strip)))))))))
  }

  /** The sizes of dumped prototypes fit 32 bits. */
  ghost predicate Fits(pt: Proto, strip: bool)
    requires OkProto(pt)
    decreases pt, 1
  {
    |Body(pt, strip)| < U32 && forall i | 0 <= i < |pt.kgc| :: FitsChild(pt, strip, i)
  }

  ghost predicate FitsChild(pt: Proto, strip: bool, i: nat)
    requires OkProto(pt) && i < |pt.kgc|
    decreases pt, 0
  {
    assert OkKgc(pt, i);
    pt.kgc[i].KChild? ==> Fits(pt.kgc[i].pt, strip)
  }

  /** The children come first, those of later constants before those of earlier ones. */
  ghost function ProtoBytes(pt: Proto, strip: bool): Bytes
    requires OkProto(pt)
    decreases pt, |pt.kgc| + 1
  {
    ChildrenBytes(pt, strip, 0) + (Uleb(|Body(pt, strip)|) + Body(pt, strip))
  }

  ghost function ChildrenBytes(pt: Proto, strip: bool, i: nat): Bytes
    requires OkProto(pt) && i <= |pt.kgc|
    decreases pt, |pt.kgc| - i
  {
    if i == |pt.kgc| then []
    else
      assert OkKgc(pt, i);
      ChildrenBytes(pt, strip, i + 1) + (if pt.kgc[i].KChild? then ProtoBytes(pt.kgc[i].pt, strip) else [])
  }

  ghost function HeaderBytes(pt: Proto, name: Bytes, strip: bool): Bytes {
    [0x1b, 0x4c, 0x4a, 1, (if strip then 2 else 0) + (if pt.flags / 4 % 2 == 1 then 4 else 0)]
    + (if strip then [] else Uleb(|name|) + name)
  }

  ghost function DumpBytes(pt: Proto, name: Bytes, strip: bool): Bytes
    requires OkProto(pt)
  {
    HeaderBytes(pt, name, strip) + (ProtoBytes(pt, strip) + [0])
  }
}
