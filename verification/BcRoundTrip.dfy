/** Reading what was written gives the same prototypes back. */
module BcRoundTrip {
  import opened BcFormat
  import opened BcReader

  // ---------------------------------------------------------------- numbers

  lemma {:induction false} ReadsUleb(v: nat, tail: Bytes)
    ensures ReadUleb(Uleb(v) + tail) == Got(v, tail)
    decreases v
  {
    if v >= 0x80 {
      ReadsUleb(v / 0x80, tail);
      assert (Uleb(v) + tail)[1..] == Uleb(v / 0x80) + tail;
    } else {
      assert (Uleb(v) + tail)[1..] == tail;
    }
  }

  /** Lengths and end marks cannot be confused. */
  lemma ReadsU(v: nat, tail: Bytes)
    requires v < U32
    ensures ReadU(Uleb(v) + tail) == Got(v, tail)
  {
    ReadsUleb(v, tail);
  }

  lemma ReadsTag(v: byte, tail: Bytes)
    requires v < 0x80
    ensures ReadU([v] + tail) == Got(v, tail)
  {
    assert ([v] + tail)[1..] == tail;
  }

  lemma ReadsPair(lo: nat, hi: nat, tail: Bytes)
    requires lo < U32 && hi < U32
    ensures ReadPair(Uleb(lo) + (Uleb(hi) + tail)) == Got(Pair(lo, hi), tail)
  {
    ReadsU(lo, Uleb(hi) + tail);
    ReadsU(hi, tail);
  }

  lemma ReadsBlock(s: Bytes, tail: Bytes)
    ensures ReadBlock(s + tail, |s|) == Got(s, tail)
  {
    assert (s + tail)[..|s|] == s && (s + tail)[|s|..] == tail;
  }

  lemma Assoc(a: Bytes, b: Bytes, c: Bytes)
    ensures (a + b) + c == a + (b + c)
  {}

  // ---------------------------------------------------------------- tables

  lemma ReadsTv(o: Tv, tail: Bytes)
    requires OkTv(o)
    ensures ReadTv(TvBytes(o) + tail) == Got(o, tail)
  {
    hide Uleb, ReadU, ReadPair, ReadBlock;
    match o
    case Int(i) =>
      Assoc([3], Uleb(ToU32(i)), tail);
      ReadsTag(3, Uleb(ToU32(i)) + tail);
      ReadsU(ToU32(i), tail);
    case Num(lo, hi) =>
      Assoc([4], Uleb(lo) + Uleb(hi), tail);
      Assoc(Uleb(lo), Uleb(hi), tail);
      ReadsTag(4, Uleb(lo) + (Uleb(hi) + tail));
      ReadsPair(lo, hi, tail);
    case Str(s) =>
      Assoc(Uleb(5 + |s|), s, tail);
      ReadsU(5 + |s|, s + tail);
      ReadsBlock(s, tail);
    case Nil => ReadsTag(0, tail);
    case False => ReadsTag(1, tail);
    case True => ReadsTag(2, tail);
  }

  lemma {:induction false} ReadsArr(a: seq<Tv>, tail: Bytes)
    requires forall o <- a :: OkTv(o)
    ensures ReadArr(ArrBytes(a) + tail, |a|) == Got(a, tail)
    decreases |a|
  {
    hide TvBytes, ReadTv;
    if a != [] {
      Assoc(TvBytes(a[0]), ArrBytes(a[1..]), tail);
      ReadsTv(a[0], ArrBytes(a[1..]) + tail);
      ReadsArr(a[1..], tail);
      assert [a[0]] + a[1..] == a;
    }
  }

  lemma {:induction false} ReadsNodes(a: seq<Node>, tail: Bytes)
    requires forall d <- a :: OkTv(d.key) && OkTv(d.val)
    ensures ReadNodes(NodesBytes(a) + tail, |a|) == Got(a, tail)
    decreases |a|
  {
    hide TvBytes, ReadTv;
    if a != [] {
      var more := NodesBytes(a[1..]);
      Assoc(TvBytes(a[0].key), TvBytes(a[0].val) + more, tail);
      Assoc(TvBytes(a[0].val), more, tail);
      ReadsTv(a[0].key, TvBytes(a[0].val) + (more + tail));
      ReadsTv(a[0].val, more + tail);
      ReadsNodes(a[1..], tail);
      assert [a[0]] + a[1..] == a;
    }
  }

  lemma ReadsTab(t: Tab, tail: Bytes)
    requires OkTab(t)
    ensures ReadTab(TabBytes(t) + tail) == Got(CanonTab(t), tail)
  {
    hide Uleb, ReadU, ReadArr, ReadNodes, ArrBytes, NodesBytes, Trim, UsedNodes;
    var c := CanonTab(t);
    var s3, s4 := ArrBytes(c.arr), NodesBytes(c.nodes);
    Assoc(Uleb(|c.arr|), Uleb(|c.nodes|) + (s3 + s4), tail);
    Assoc(Uleb(|c.nodes|), s3 + s4, tail);
    Assoc(s3, s4, tail);
    ReadsU(|c.arr|, Uleb(|c.nodes|) + (s3 + (s4 + tail)));
    ReadsU(|c.nodes|, s3 + (s4 + tail));
    ReadsArr(c.arr, s4 + tail);
    ReadsNodes(c.nodes, tail);
  }

  // ---------------------------------------------------------------- a table keeps its meaning

  /** What a table holds for a key. */
  function Get(t: Tab, key: Tv): Tv {
    if key.Int? && 0 <= key.i < |t.arr| then t.arr[key.i] else Find(t.nodes, key)
  }

  function Find(a: seq<Node>, key: Tv): Tv {
    if a == [] then Nil else if a[0].key == key && Used(a[0]) then a[0].val else Find(a[1..], key)
  }

  lemma {:induction false} TrimIsNil(a: seq<Tv>, i: nat)
    requires |Trim(a)| <= i < |a|
    ensures a[i] == Nil
    decreases |a|
  {
    if i < |a| - 1 { TrimIsNil(a[..|a| - 1], i); }
  }

  lemma {:induction false} FindIs(a: seq<Node>, key: Tv, d: Node)
    requires d in a && Used(d) && d.key == key && forall e <- a | Used(e) && e.key == key :: e == d
    ensures Find(a, key) == d.val
    decreases |a|
  {
    if !(a[0].key == key && Used(a[0])) { FindIs(a[1..], key, d); }
  }

  lemma {:induction false} FindNot(a: seq<Node>, key: Tv)
    requires forall e <- a | Used(e) :: e.key != key
    ensures Find(a, key) == Nil
    decreases |a|
  {
    if a != [] { FindNot(a[1..], key); }
  }

  lemma {:induction false} UsedAre(a: seq<Node>, d: Node)
    ensures d in UsedNodes(a) <==> d in a && Used(d)
    decreases |a|
  {
    if a != [] {
      UsedAre(a[1..], d);
      assert d in a <==> d == a[0] || d in a[1..];
    }
  }

  lemma OneNode(t: Tab, d: Node, e: Node)
    requires OkTab(t) && d in t.nodes && e in t.nodes && Used(d) && Used(e) && d.key == e.key
    ensures d == e
  {
    var i :| 0 <= i < |t.nodes| && t.nodes[i] == d;
    var j :| 0 <= j < |t.nodes| && t.nodes[j] == e;
  }

  /** Trailing nils and unused nodes say nothing, and the order of the nodes does not matter. */
  lemma CanonKeeps(t: Tab, key: Tv)
    requires OkTab(t)
    ensures Get(CanonTab(t), key) == Get(t, key)
  {
    var c := CanonTab(t);
    if key.Int? && 0 <= key.i < |t.arr| {
      if key.i >= |c.arr| {
        TrimIsNil(t.arr, key.i);
        FindNot(c.nodes, key);
      }
    } else if d :| d in t.nodes && Used(d) && d.key == key {
      UsedAre(t.nodes, d);
      forall e | (e in t.nodes || e in c.nodes) && Used(e) && e.key == key
        ensures e == d
      {
        OneNode(t, d, e);
      }
      FindIs(t.nodes, key, d);
      FindIs(c.nodes, key, d);
    } else {
      FindNot(t.nodes, key);
      FindNot(c.nodes, key);
    }
  }

  // ---------------------------------------------------------------- constants

  /** What is kept of a prototype: not its other flags, nor, if stripped, its debug information. */
  ghost function Canon(pt: Proto, strip: bool): Proto
    requires OkProto(pt)
    decreases pt, |pt.kgc| + 1
  {
    Proto(pt.flags % 8, pt.numparams, pt.framesize, pt.bc, pt.uv, CanonKgcs(pt, strip, 0), pt.kn, if strip then NoDebug else pt.dbg)
  }

  ghost function CanonKgcs(pt: Proto, strip: bool, i: nat): (r: seq<Kgc>)
    requires OkProto(pt) && i <= |pt.kgc|
    ensures |r| == |pt.kgc| - i
    decreases pt, |pt.kgc| - i
  {
    if i == |pt.kgc| then []
    else
      assert OkKgc(pt, i);
      var k := match pt.kgc[i]
        case KChild(c) => KChild(Canon(c, strip))
        case KTab(t) => KTab(CanonTab(t))
        case k => k;
      [k] + CanonKgcs(pt, strip, i + 1)
  }

  /** What the children of a prototype leave on the stack. */
  ghost function Pushed(pt: Proto, strip: bool, i: nat): seq<Proto>
    requires OkProto(pt) && i <= |pt.kgc|
    decreases |pt.kgc| - i
  {
    if i == |pt.kgc| then []
    else
      assert OkKgc(pt, i);
      Pushed(pt, strip, i + 1) + (if pt.kgc[i].KChild? then [Canon(pt.kgc[i].pt, strip)] else [])
  }

  ghost predicate GoodItem(pt: Proto, strip: bool, i: nat, stack: seq<Proto>, r: Parse<Item>, tail: Bytes)
    requires OkProto(pt) && i < |pt.kgc|
  {
    r == Got(Item(CanonKgcs(pt, strip, i)[0], stack), tail)
  }

  lemma ReadsKgc(pt: Proto, strip: bool, i: nat, stack: seq<Proto>, stack': seq<Proto>, tail: Bytes)
    requires OkProto(pt) && i < |pt.kgc| && OkKgc(pt, i)
    requires stack' == if pt.kgc[i].KChild? then stack + [Canon(pt.kgc[i].pt, strip)] else stack
    ensures GoodItem(pt, strip, i, stack, ReadKgc(KgcBytes(pt, i) + tail, stack'), tail)
  {
    hide Uleb, ReadU, ReadPair, ReadBlock, ReadTab, TabBytes, Canon, CanonTab;
    match pt.kgc[i]
    case KStr(s) =>
      Assoc(Uleb(5 + |s|), s, tail);
      ReadsU(5 + |s|, s + tail);
      ReadsBlock(s, tail);
    case KChild(_) => ReadsTag(0, tail);
    case KTab(t) =>
      Assoc([1], TabBytes(t), tail);
      ReadsTag(1, TabBytes(t) + tail);
      ReadsTab(t, tail);
    case KI64(lo, hi) => ReadsTwo(2, lo, hi, tail);
    case KU64(lo, hi) => ReadsTwo(3, lo, hi, tail);
    case KComplex(rlo, rhi, ilo, ihi) => ReadsFour(rlo, rhi, ilo, ihi, tail);
  }

  lemma ReadsTwo(tp: byte, lo: nat, hi: nat, tail: Bytes)
    requires tp < 0x80 && IsU32(lo) && IsU32(hi)
    ensures var s := [tp] + (Uleb(lo) + Uleb(hi)) + tail;
      ReadU(s).Got? && ReadU(s).value == tp && ReadPair(ReadU(s).rest) == Got(Pair(lo, hi), tail)
  {
    hide Uleb, ReadU, ReadPair;
    Assoc([tp], Uleb(lo) + Uleb(hi), tail);
    Assoc(Uleb(lo), Uleb(hi), tail);
    ReadsTag(tp, Uleb(lo) + (Uleb(hi) + tail));
    ReadsPair(lo, hi, tail);
  }

  lemma ReadsFour(rlo: nat, rhi: nat, ilo: nat, ihi: nat, tail: Bytes)
    requires IsU32(rlo) && IsU32(rhi) && IsU32(ilo) && IsU32(ihi)
    ensures var s := [4] + (Uleb(rlo) + (Uleb(rhi) + (Uleb(ilo) + Uleb(ihi)))) + tail;
      ReadU(s).Got? && ReadU(s).value == 4 && ReadPair(ReadU(s).rest).Got? && ReadPair(ReadU(s).rest).value == Pair(rlo, rhi)
      && ReadPair(ReadPair(ReadU(s).rest).rest) == Got(Pair(ilo, ihi), tail)
  {
    hide Uleb, ReadU, ReadPair;
    var last := Uleb(ilo) + (Uleb(ihi) + tail);
    var s := [4] + (Uleb(rlo) + (Uleb(rhi) + (Uleb(ilo) + Uleb(ihi)))) + tail;
    assert s == [4] + (Uleb(rlo) + (Uleb(rhi) + last));
    ReadsTag(4, Uleb(rlo) + (Uleb(rhi) + last));
    ReadsPair(rlo, rhi, last);
    ReadsPair(ilo, ihi, tail);
  }

  /** Each child constant finds its prototype on top of the stack. */
  lemma {:induction false} ReadsKgcs(pt: Proto, strip: bool, i: nat, stack: seq<Proto>, tail: Bytes)
    requires OkProto(pt) && i <= |pt.kgc|
    ensures ReadKgcs(KgcsBytes(pt, i) + tail, |pt.kgc| - i, stack + Pushed(pt, strip, i)) == Got(Items(CanonKgcs(pt, strip, i), stack), tail)
    decreases |pt.kgc| - i
  {
    hide ReadKgc, KgcBytes, OkProto, OkKgc, Canon, CanonKgcs, Pushed;
    CanonFirst(pt, strip, i);
    if i < |pt.kgc| {
      var stack1 := stack + Pushed(pt, strip, i + 1);
      PushedFirst(pt, strip, i, stack);
      Assoc(KgcBytes(pt, i), KgcsBytes(pt, i + 1), tail);
      ReadsKgc(pt, strip, i, stack1, stack + Pushed(pt, strip, i), KgcsBytes(pt, i + 1) + tail);
      ReadsKgcs(pt, strip, i + 1, stack, tail);
    } else {
      assert Pushed(pt, strip, i) == [] by { PushedFirst(pt, strip, i, stack); }
      assert stack + [] == stack;
    }
  }

  lemma CanonFirst(pt: Proto, strip: bool, i: nat)
    requires OkProto(pt) && i <= |pt.kgc|
    ensures i < |pt.kgc| ==> CanonKgcs(pt, strip, i) == [CanonKgcs(pt, strip, i)[0]] + CanonKgcs(pt, strip, i + 1)
    ensures i == |pt.kgc| ==> CanonKgcs(pt, strip, i) == []
  {}

  lemma PushedFirst(pt: Proto, strip: bool, i: nat, stack: seq<Proto>)
    requires OkProto(pt) && i <= |pt.kgc|
    ensures i == |pt.kgc| ==> Pushed(pt, strip, i) == []
    ensures i < |pt.kgc| ==> OkKgc(pt, i)
    ensures i < |pt.kgc| ==> stack + Pushed(pt, strip, i) == var more := stack + Pushed(pt, strip, i + 1);
      if pt.kgc[i].KChild? then more + [Canon(pt.kgc[i].pt, strip)] else more
  {
    hide Canon;
    assert i < |pt.kgc| ==> OkKgc(pt, i);
  }

  /** The 33 bits of a number constant. */
  lemma ReadsKnum(k: Knum, tail: Bytes)
    requires OkKnum(k)
    ensures ReadKnum(KnumBytes(k) + tail) == Got(k, tail)
  {
    hide Uleb, ReadUleb;
    match k
    case KInt(i) => ReadsUleb(2 * ToU32(i), tail);
    case KNum(lo, hi) =>
      Assoc(Uleb(2 * lo + 1), Uleb(hi), tail);
      ReadsUleb(2 * lo + 1, Uleb(hi) + tail);
      ReadsUleb(hi, tail);
  }

  lemma {:induction false} ReadsKnums(kn: seq<Knum>, tail: Bytes)
    requires forall k <- kn :: OkKnum(k)
    ensures ReadKnums(KnumsBytes(kn) + tail, |kn|) == Got(kn, tail)
    decreases |kn|
  {
    hide ReadKnum, KnumBytes;
    if kn != [] {
      Assoc(KnumBytes(kn[0]), KnumsBytes(kn[1..]), tail);
      ReadsKnum(kn[0], KnumsBytes(kn[1..]) + tail);
      ReadsKnums(kn[1..], tail);
      assert [kn[0]] + kn[1..] == kn;
    }
  }

  // ---------------------------------------------------------------- prototypes

  ghost function HeadOf(pt: Proto, strip: bool): Head
    requires OkProto(pt)
  {
    var d := if strip then NoDebug else pt.dbg;
    Head(pt.flags % 8, pt.numparams, pt.framesize, |pt.uv| / 2, |pt.kgc|, |pt.kn|, |pt.bc| / 4,
      if d.Debug? then |d.info| else 0, if d.Debug? then d.firstline else 0, if d.Debug? then d.numline else 0)
  }

  ghost function HeadBytes(pt: Proto, strip: bool): Bytes
    requires OkProto(pt)
  {
    [pt.flags % 8, pt.numparams, pt.framesize, |pt.uv| / 2] + (Uleb(|pt.kgc|) + (Uleb(|pt.kn|) + (Uleb(|pt.bc| / 4) + DebugHead(pt.dbg, strip))))
  }

  ghost function RestBytes(pt: Proto, strip: bool): Bytes
    requires OkProto(pt)
  {
    pt.bc + (pt.uv + (KgcsBytes(pt, 0) + (KnumsBytes(pt.kn) + DebugInfo(pt.dbg, strip))))
  }

  lemma BodyParts(pt: Proto, strip: bool)
    requires OkProto(pt)
    ensures Body(pt, strip) == HeadBytes(pt, strip) + RestBytes(pt, strip)
  {
    hide KgcsBytes, KnumsBytes, DebugHead, DebugInfo, Uleb, OkKgc;
    var h: Bytes, r := [pt.flags % 8, pt.numparams, pt.framesize, |pt.uv| / 2], RestBytes(pt, strip);
    var a, b, c, d := Uleb(|pt.kgc|), Uleb(|pt.kn|), Uleb(|pt.bc| / 4), DebugHead(pt.dbg, strip);
    Assoc(h, a + (b + (c + d)), r);
    Assoc(a, b + (c + d), r);
    Assoc(b, c + d, r);
    Assoc(c, d, r);
  }

  lemma ReadsDebugHead(pt: Proto, tail: Bytes)
    requires OkProto(pt)
    ensures pt.dbg.NoDebug? ==> ReadU(DebugHead(pt.dbg, false) + tail) == Got(0, tail)
    ensures pt.dbg.Debug? ==>
      var r := ReadU(DebugHead(pt.dbg, false) + tail);
      r.Got? && r.value == |pt.dbg.info| && ReadPair(r.rest) == Got(Pair(pt.dbg.firstline, pt.dbg.numline), tail)
  {
    hide Uleb, ReadU, ReadPair;
    if pt.dbg.NoDebug? {
      ReadsTag(0, tail);
    } else {
      var a, b, c := Uleb(|pt.dbg.info|), Uleb(pt.dbg.firstline), Uleb(pt.dbg.numline);
      Assoc(a, b + c, tail);
      Assoc(b, c, tail);
      ReadsU(|pt.dbg.info|, b + (c + tail));
      ReadsPair(pt.dbg.firstline, pt.dbg.numline, tail);
    }
  }

  lemma NoDebugHead(pt: Proto, tail: Bytes)
    requires OkProto(pt)
    ensures DebugHead(pt.dbg, true) + tail == tail
  {}

  lemma ReadsHead(pt: Proto, strip: bool, tail: Bytes)
    requires OkProto(pt)
    ensures ReadHead(HeadBytes(pt, strip) + tail, strip) == Got(HeadOf(pt, strip), tail)
  {
    hide OkKgc, OkKnum, Uleb, ReadU, ReadPair, ReadBlock, DebugHead;
    var h: Bytes := [pt.flags % 8, pt.numparams, pt.framesize, |pt.uv| / 2];
    var a, b, c, d := Uleb(|pt.kgc|), Uleb(|pt.kn|), Uleb(|pt.bc| / 4), DebugHead(pt.dbg, strip);
    ReadsDebugHead(pt, tail);
    NoDebugHead(pt, tail);
    Assoc(h, a + (b + (c + d)), tail);
    Assoc(a, b + (c + d), tail);
    Assoc(b, c + d, tail);
    Assoc(c, d, tail);
    ReadsBlock(h, a + (b + (c + (d + tail))));
    ReadsPair(|pt.kgc|, |pt.kn|, c + (d + tail));
    ReadsU(|pt.bc| / 4, d + tail);
  }

  lemma ReadsRest(pt: Proto, strip: bool, stack: seq<Proto>, tail: Bytes)
    requires OkProto(pt)
    ensures ReadRest(HeadOf(pt, strip), RestBytes(pt, strip) + tail, stack + Pushed(pt, strip, 0)) == Got(stack + [Canon(pt, strip)], tail)
  {
    hide OkProto, ReadKgcs, ReadKnums, ReadBlock, KgcsBytes, KnumsBytes, Pushed, CanonKgcs;
    RestSizes(pt, strip);
    var a, b, c, d, e := pt.bc, pt.uv, KgcsBytes(pt, 0), KnumsBytes(pt.kn), DebugInfo(pt.dbg, strip);
    Assoc(a, b + (c + (d + e)), tail);
    Assoc(b, c + (d + e), tail);
    Assoc(c, d + e, tail);
    Assoc(d, e, tail);
    ReadsBlock(a, b + (c + (d + (e + tail))));
    ReadsBlock(b, c + (d + (e + tail)));
    ReadsKgcs(pt, strip, 0, stack, d + (e + tail));
    ReadsKnumsOf(pt, e + tail);
    ReadsBlock(e, tail);
  }

  lemma RestSizes(pt: Proto, strip: bool)
    requires OkProto(pt)
    ensures var h := HeadOf(pt, strip);
      |pt.bc| == 4 * h.numbc && |pt.uv| == 2 * h.sizeuv && |DebugInfo(pt.dbg, strip)| == h.sizedbg
    ensures pt.dbg.Debug? ==> |pt.dbg.info| > 0
    ensures forall k <- pt.kn :: OkKnum(k)
  {}

  lemma ReadsKnumsOf(pt: Proto, tail: Bytes)
    requires OkProto(pt)
    ensures ReadKnums(KnumsBytes(pt.kn) + tail, |pt.kn|) == Got(pt.kn, tail)
  {
    ReadsKnums(pt.kn, tail);
  }

  /** A prototype behind its children replaces them on the stack. */
  lemma ReadsBody(pt: Proto, strip: bool, stack: seq<Proto>, tail: Bytes)
    requires OkProto(pt) && Fits(pt, strip)
    ensures ReadProtos(Uleb(|Body(pt, strip)|) + Body(pt, strip) + tail, strip, stack + Pushed(pt, strip, 0))
      == ReadProtos(tail, strip, stack + [Canon(pt, strip)])
  {
    hide OkProto, ReadHead, ReadRest, HeadBytes, RestBytes, HeadOf, Pushed, Canon, Uleb;
    var n, h, r := |Body(pt, strip)|, HeadBytes(pt, strip), RestBytes(pt, strip);
    BodyParts(pt, strip);
    HeadLong(pt, strip);
    hide Body;
    Assoc(Uleb(n), Body(pt, strip), tail);
    Assoc(h, r, tail);
    ReadsU(n, h + (r + tail));
    ReadsHead(pt, strip, r + tail);
    ReadsRest(pt, strip, stack, tail);
  }

  lemma HeadLong(pt: Proto, strip: bool)
    requires OkProto(pt)
    ensures |HeadBytes(pt, strip)| > 0
  {}

  lemma {:induction false} ReadsProto(pt: Proto, strip: bool, stack: seq<Proto>, tail: Bytes)
    requires OkProto(pt) && Fits(pt, strip)
    ensures ReadProtos(ProtoBytes(pt, strip) + tail, strip, stack) == ReadProtos(tail, strip, stack + [Canon(pt, strip)])
    decreases pt, |pt.kgc| + 1
  {
    var a, b := ChildrenBytes(pt, strip, 0), Uleb(|Body(pt, strip)|) + Body(pt, strip);
    ReadsChildren(pt, strip, 0, stack, b + tail);
    ReadsBody(pt, strip, stack, tail);
    Assoc(a, b, tail);
  }

  lemma {:induction false} ReadsChildren(pt: Proto, strip: bool, i: nat, stack: seq<Proto>, tail: Bytes)
    requires OkProto(pt) && Fits(pt, strip) && i <= |pt.kgc|
    ensures ReadProtos(ChildrenBytes(pt, strip, i) + tail, strip, stack) == ReadProtos(tail, strip, stack + Pushed(pt, strip, i))
    decreases pt, |pt.kgc| - i
  {
    hide ReadProtos, Canon, ProtoBytes, Body, OkProto, Fits, FitsChild, Pushed, ChildrenBytes;
    PushedFirst(pt, strip, i, stack);
    ChildrenFirst(pt, strip, i);
    if i == |pt.kgc| {
      assert [] + tail == tail && stack + [] == stack;
    } else {
      var b := if pt.kgc[i].KChild? then ProtoBytes(pt.kgc[i].pt, strip) else [];
      Assoc(ChildrenBytes(pt, strip, i + 1), b, tail);
      ReadsChildren(pt, strip, i + 1, stack, b + tail);
      if pt.kgc[i].KChild? {
        ReadsProto(pt.kgc[i].pt, strip, stack + Pushed(pt, strip, i + 1), tail);
      } else {
        assert b + tail == tail;
      }
    }
  }

  lemma ChildrenFirst(pt: Proto, strip: bool, i: nat)
    requires OkProto(pt) && Fits(pt, strip) && i <= |pt.kgc|
    ensures i == |pt.kgc| ==> ChildrenBytes(pt, strip, i) == []
    ensures i < |pt.kgc| && pt.kgc[i].KChild? ==> OkProto(pt.kgc[i].pt) && Fits(pt.kgc[i].pt, strip)
    ensures i < |pt.kgc| ==>
      ChildrenBytes(pt, strip, i) == ChildrenBytes(pt, strip, i + 1) + (if pt.kgc[i].KChild? then ProtoBytes(pt.kgc[i].pt, strip) else [])
  {
    hide Body, ProtoBytes;
    assert i < |pt.kgc| ==> OkKgc(pt, i) && FitsChild(pt, strip, i);
  }

  /** Reading a dump gives back its prototypes, its chunk name and whether it was stripped. */
  lemma ReadsDump(pt: Proto, name: Bytes, strip: bool)
    requires OkProto(pt) && Fits(pt, strip) && |name| < U32
    ensures ReadDump(DumpBytes(pt, name, strip)) == Got(Dump(Canon(pt, strip), if strip then [] else name, strip), [])
  {
    hide OkProto, Fits, ProtoBytes, Uleb, ReadU, ReadProtos, Canon, DumpBytes, HeaderBytes;
    var names: Bytes := if strip then [] else Uleb(|name|) + name;
    var rest := ProtoBytes(pt, strip) + [0];
    DumpParts(pt, name, strip, names);
    ReadsTag(FlagByte(pt, strip), names + rest);
    ReadsName(name, strip, rest);
    ReadsProto(pt, strip, [], [0]);
    ReadsEnd(strip, [] + [Canon(pt, strip)]);
  }

  ghost function FlagByte(pt: Proto, strip: bool): byte { (if strip then 2 else 0) + (if pt.flags / 4 % 2 == 1 then 4 else 0) }

  lemma DumpParts(pt: Proto, name: Bytes, strip: bool, names: Bytes)
    requires OkProto(pt) && names == if strip then [] else Uleb(|name|) + name
    ensures var s := DumpBytes(pt, name, strip);
      |s| >= 5 && s[..4] == [0x1b, 0x4c, 0x4a, 1] && s[4..] == [FlagByte(pt, strip)] + (names + (ProtoBytes(pt, strip) + [0]))
  {
    hide OkProto, Fits, ProtoBytes, Uleb;
    var rest := ProtoBytes(pt, strip) + [0];
    var h: Bytes := [0x1b, 0x4c, 0x4a, 1, FlagByte(pt, strip)];
    Assoc(h, names, rest);
    assert (h + (names + rest))[4..] == [FlagByte(pt, strip)] + (names + rest);
  }

  lemma ReadsName(name: Bytes, strip: bool, rest: Bytes)
    requires |name| < U32
    ensures ReadName((if strip then [] else Uleb(|name|) + name) + rest, strip) == Got(if strip then [] else name, rest)
  {
    if strip {
      assert [] + rest == rest;
    } else {
      Assoc(Uleb(|name|), name, rest);
      ReadsU(|name|, name + rest);
      ReadsBlock(name, rest);
    }
  }

  lemma ReadsEnd(strip: bool, stack: seq<Proto>)
    ensures ReadProtos([0], strip, stack) == Got(stack, [])
  {
    ReadsTag(0, []);
  }
}
