/** The bytecode writer: prototypes to the bytes of a dump, through a buffer and a callback. */
module BcWriter {
  import opened BcFormat
  import opened BcBuffer
  import opened BcReader
  import opened BcRoundTrip

  lemma {:induction false} UsedLast(a: seq<Node>)
    requires a != []
    ensures var d := a[|a| - 1]; UsedNodes(a) == (if Used(d) then [d] else []) + UsedNodes(a[..|a| - 1])
    decreases |a|
  {
    var d := a[|a| - 1];
    if |a| > 1 {
      UsedLast(a[1..]);
      assert a[1..][..|a| - 2] == a[..|a| - 1][1..];
    }
  }

  lemma Join(t: Bytes, a: Bytes, b: Bytes)
    ensures t + a + b == t + (a + b)
  {}

  lemma TvLength(o: Tv)
    requires OkTv(o)
    ensures |TvBytes(o)| <= (if o.Str? then 5 + |o.s| else 11)
  {
    match o
    case Int(i) => UlebShort(ToU32(i));
    case Num(lo, hi) =>
      UlebShort(lo);
      UlebShort(hi);
    case Str(s) => UlebShort(5 + |s|);
    case _ =>
  }

  class Writer {
    const sb: Buffer
    const strip: bool
    /** What the callback has been given, and what it answered. */
    var out: Bytes
    var status: int

    ghost predicate Valid()
      reads this, sb
    {
      sb.Valid()
    }

    constructor (strip: bool)
      ensures Valid() && fresh(sb) && fresh(sb.buf) && out == [] && status == 0 && this.strip == strip
    {
      this.strip := strip;
      sb := new Buffer();
      out, status := [], 0;
    }

    // ---------------------------------------------------------------- constants

    /** bcwrite_ktabk */
    method Ktabk(o: Tv)
      requires Valid() && OkTv(o)
      modifies sb, sb.buf
      ensures Valid() && (sb.buf == old(sb.buf) || fresh(sb.buf)) && sb.Text() == old(sb.Text()) + TvBytes(o)
    {
      hide Uleb, Buffer.Text;
      TvLength(o);
      ghost var text := sb.Text();
      sb.Need(1 + 10);
      match o
      case Str(s) =>
        sb.Need(5 + |s|);
        sb.Uleb128(5 + |s|);
        sb.Block(s);
        Join(text, Uleb(5 + |s|), s);
      case Int(i) =>
        sb.Byte(3);
        sb.Uleb128(ToU32(i));
        Join(text, [3], Uleb(ToU32(i)));
      case Num(lo, hi) =>
        sb.Byte(4);
        Words(lo, hi);
        Join(text, [4], Uleb(lo) + Uleb(hi));
      case Nil => sb.Byte(0);
      case False => sb.Byte(1);
      case True => sb.Byte(2);
    }

    /** The length of the array part, and the number of hash nodes in use. */
    static method TabSizes(t: Tab) returns (narray: nat, nhash: nat)
      requires OkTab(t)
      ensures narray == |Trim(t.arr)| && nhash == |UsedNodes(t.nodes)|
    {
      hide Trim, UsedNodes;
      narray := ArraySize(t.arr);
      nhash := 0;
      if |t.nodes| > 1 {
        nhash := HashSize(t.nodes);
      } else {
        OneNode(t);
      }
    }

    static lemma OneNode(t: Tab)
      requires OkTab(t) && |t.nodes| <= 1
      ensures |UsedNodes(t.nodes)| == 0
    {}

    static method ArraySize(arr: seq<Tv>) returns (n: nat)
      ensures n == |Trim(arr)|
    {
      n := |arr|;
      assert arr[..n] == arr;
      while n > 0 && arr[n - 1] == Nil
        invariant n <= |arr| && Trim(arr[..n]) == Trim(arr)
      {
        assert arr[..n][..n - 1] == arr[..n - 1];
        n := n - 1;
      }
    }

    static method HashSize(nodes: seq<Node>) returns (n: nat)
      ensures n == |UsedNodes(nodes)|
    {
      n := 0;
      for i := 0 to |nodes|
        invariant n == |UsedNodes(nodes[..i])|
      {
        UsedLast(nodes[..i + 1]);
        assert nodes[..i + 1][..i] == nodes[..i];
        n := n + (if Used(nodes[i]) then 1 else 0);
      }
      assert nodes[..|nodes|] == nodes;
    }

    /** bcwrite_ktab */
    method Ktab(t: Tab)
      requires Valid() && OkTab(t) && sb.Room(10)
      modifies sb, sb.buf
      ensures Valid() && (sb.buf == old(sb.buf) || fresh(sb.buf)) && sb.Text() == old(sb.Text()) + TabBytes(t)
    {
      hide Uleb, Buffer.Text, ArrBytes, NodesBytes, OkTv, UsedNodes, Trim;
      var narray, nhash := TabSizes(t);
      UlebShort(narray);
      UlebShort(nhash);
      ghost var text, c := sb.Text(), CanonTab(t);
      sb.Uleb128(narray);
      sb.Uleb128(nhash);
      KtabArray(t.arr, narray);
      KtabNodes(t.nodes, nhash);
      Join(text, Uleb(narray), Uleb(nhash));
      Join(text, Uleb(narray) + Uleb(nhash), ArrBytes(c.arr));
      Join(text, Uleb(narray) + Uleb(nhash) + ArrBytes(c.arr), NodesBytes(c.nodes));
      Join(Uleb(narray) + Uleb(nhash), ArrBytes(c.arr), NodesBytes(c.nodes));
      Join(Uleb(narray), Uleb(nhash), ArrBytes(c.arr) + NodesBytes(c.nodes));
    }

    method KtabArray(a: seq<Tv>, n: nat)
      requires Valid() && n <= |a| && forall o <- a :: OkTv(o)
      modifies sb, sb.buf
      ensures Valid() && (sb.buf == old(sb.buf) || fresh(sb.buf)) && sb.Text() == old(sb.Text()) + ArrBytes(a[..n])
    {
      hide TvBytes, OkTv, Buffer.Text;
      for i := 0 to n
        invariant Valid() && (sb.buf == old(sb.buf) || fresh(sb.buf))
        invariant sb.Text() + ArrBytes(a[..n][i..]) == old(sb.Text()) + ArrBytes(a[..n])
      {
        ghost var text := sb.Text();
        Ktabk(a[i]);
        assert a[..n][i..][1..] == a[..n][i + 1..];
        Join(text, TvBytes(a[i]), ArrBytes(a[..n][i + 1..]));
      }
      assert a[..n][n..] == [];
    }

    /** The hash part, from its last node to the first one in use. */
    method KtabNodes(a: seq<Node>, nhash: nat)
      requires Valid() && (forall d <- a :: OkTv(d.key) && OkTv(d.val)) && nhash == |UsedNodes(a)|
      modifies sb, sb.buf
      ensures Valid() && (sb.buf == old(sb.buf) || fresh(sb.buf)) && sb.Text() == old(sb.Text()) + NodesBytes(UsedNodes(a))
    {
      hide TvBytes, OkTv, Buffer.Text, UsedNodes;
      var i, j := nhash, |a|;
      assert a[..j] == a;
      while i > 0
        invariant Valid() && (sb.buf == old(sb.buf) || fresh(sb.buf))
        invariant 0 <= j <= |a| && i == |UsedNodes(a[..j])|
        invariant sb.Text() + NodesBytes(UsedNodes(a[..j])) == old(sb.Text()) + NodesBytes(UsedNodes(a))
        decreases j
      {
        NoneUsed(a[..j]);
        j := j - 1;
        ghost var text, d, rest := sb.Text(), a[j], UsedNodes(a[..j]);
        UsedLast(a[..j + 1]);
        assert a[..j + 1][..j] == a[..j] && a[..j + 1][j] == d;
        if Used(a[j]) {
          KtabNode(a[j]);
          NodesFirst(d, rest);
          Join(text, TvBytes(d.key) + TvBytes(d.val), NodesBytes(rest));
          i := i - 1;
        } else {
          assert [] + rest == rest;
        }
      }
      assert NodesBytes([]) == [];
    }

    static lemma NoneUsed(a: seq<Node>)
      requires UsedNodes(a) != []
      ensures a != []
    {}

    static lemma NodesFirst(d: Node, rest: seq<Node>)
      requires OkTv(d.key) && OkTv(d.val) && forall e <- rest :: OkTv(e.key) && OkTv(e.val)
      ensures NodesBytes([d] + rest) == TvBytes(d.key) + TvBytes(d.val) + NodesBytes(rest)
    {
      hide TvBytes;
      assert ([d] + rest)[1..] == rest;
      Join(TvBytes(d.key), TvBytes(d.val), NodesBytes(rest));
    }

    method KtabNode(d: Node)
      requires Valid() && OkTv(d.key) && OkTv(d.val)
      modifies sb, sb.buf
      ensures Valid() && (sb.buf == old(sb.buf) || fresh(sb.buf)) && sb.Text() == old(sb.Text()) + (TvBytes(d.key) + TvBytes(d.val))
    {
      hide TvBytes, OkTv, Buffer.Text;
      ghost var text := sb.Text();
      Ktabk(d.key);
      Ktabk(d.val);
      Join(text, TvBytes(d.key), TvBytes(d.val));
    }

    /** One turn of bcwrite_kgc. */
    method Kgc(ghost pt: Proto, ghost i: nat, k: Kgc)
      requires Valid() && i < |pt.kgc| && OkKgc(pt, i) && k == pt.kgc[i]
      modifies sb, sb.buf
      ensures Valid() && (sb.buf == old(sb.buf) || fresh(sb.buf)) && sb.Text() == old(sb.Text()) + KgcBytes(pt, i)
    {
      hide Uleb, Buffer.Text, TabBytes, OkTab;
      var tp, need := 0, 1;
      match k {
        case KStr(s) => tp, need := 5 + |s|, 5 + |s|;
        case KChild(_) =>
        case KTab(_) => tp, need := 1, 1 + 2 * 5;
        case KI64(_, _) => tp, need := 2, 1 + 4 * 5;
        case KU64(_, _) => tp, need := 3, 1 + 4 * 5;
        case KComplex(_, _, _, _) => tp, need := 4, 1 + 4 * 5;
      }
      ghost var text := sb.Text();
      UlebShort(tp);
      sb.Need(need);
      sb.Uleb128(tp);
      KgcData(k);
      Join(text, Uleb(tp), Data(k));
      assert text + Uleb(0) + [] == text + Uleb(0);
    }

    /** What follows the type of a constant. */
    static ghost function Data(k: Kgc): Bytes
      requires k.KTab? ==> OkTab(k.t)
    {
      match k
      case KStr(s) => s
      case KChild(_) => []
      case KTab(t) => TabBytes(t)
      case KI64(lo, hi) => Uleb(lo) + Uleb(hi)
      case KU64(lo, hi) => Uleb(lo) + Uleb(hi)
      case KComplex(rlo, rhi, ilo, ihi) => Uleb(rlo) + (Uleb(rhi) + (Uleb(ilo) + Uleb(ihi)))
    }

    method KgcData(k: Kgc)
      requires Valid() && sb.Room(if k.KStr? then |k.s| else if k.KChild? then 0 else if k.KTab? then 10 else 20)
      requires match k
        case KTab(t) => OkTab(t)
        case KI64(lo, hi) => IsU32(lo) && IsU32(hi)
        case KU64(lo, hi) => IsU32(lo) && IsU32(hi)
        case KComplex(rlo, rhi, ilo, ihi) => IsU32(rlo) && IsU32(rhi) && IsU32(ilo) && IsU32(ihi)
        case _ => true
      modifies sb, sb.buf
      ensures Valid() && (sb.buf == old(sb.buf) || fresh(sb.buf)) && sb.Text() == old(sb.Text()) + Data(k)
    {
      hide Uleb, Buffer.Text, TabBytes, OkTab;
      ghost var text := sb.Text();
      match k
      case KStr(s) => sb.Block(s);
      case KChild(_) => assert text + [] == text;
      case KTab(t) => Ktab(t);
      case KI64(lo, hi) => Words(lo, hi);
      case KU64(lo, hi) => Words(lo, hi);
      case KComplex(rlo, rhi, ilo, ihi) =>
        Words(rlo, rhi);
        Words(ilo, ihi);
        Join(text, Uleb(rlo) + Uleb(rhi), Uleb(ilo) + Uleb(ihi));
        Join(Uleb(rlo), Uleb(rhi), Uleb(ilo) + Uleb(ihi));
    }

    method Words(lo: nat, hi: nat)
      requires IsU32(lo) && IsU32(hi) && sb.Room(10)
      modifies sb`n, sb.buf
      ensures Valid() && sb.n <= old(sb.n) + 10 && sb.Text() == old(sb.Text()) + (Uleb(lo) + Uleb(hi))
    {
      hide Uleb, Buffer.Text;
      ghost var text := sb.Text();
      UlebShort(lo);
      UlebShort(hi);
      sb.Uleb128(lo);
      sb.Uleb128(hi);
      Join(text, Uleb(lo), Uleb(hi));
    }

    /** bcwrite_kgc */
    method Kgcs(pt: Proto)
      requires Valid() && OkProto(pt)
      modifies sb, sb.buf
      ensures Valid() && (sb.buf == old(sb.buf) || fresh(sb.buf)) && sb.Text() == old(sb.Text()) + KgcsBytes(pt, 0)
    {
      hide KgcBytes, OkKgc, Buffer.Text;
      for i := 0 to |pt.kgc|
        invariant Valid() && (sb.buf == old(sb.buf) || fresh(sb.buf))
        invariant sb.Text() + KgcsBytes(pt, i) == old(sb.Text()) + KgcsBytes(pt, 0)
      {
        assert OkKgc(pt, i);
        ghost var text := sb.Text();
        Kgc(pt, i, pt.kgc[i]);
        Join(text, KgcBytes(pt, i), KgcsBytes(pt, i + 1));
      }
    }

    /** bcwrite_knum */
    method Knums(kn: seq<Knum>)
      requires Valid() && forall k <- kn :: OkKnum(k)
      modifies sb, sb.buf
      ensures Valid() && (sb.buf == old(sb.buf) || fresh(sb.buf)) && sb.Text() == old(sb.Text()) + KnumsBytes(kn)
    {
      hide KnumBytes, OkKnum, Buffer.Text;
      sb.Need(10 * |kn|);
      for i := 0 to |kn|
        invariant Valid() && sb.Room(10 * (|kn| - i)) && (sb.buf == old(sb.buf) || fresh(sb.buf))
        invariant sb.Text() + KnumsBytes(kn[i..]) == old(sb.Text()) + KnumsBytes(kn)
      {
        ghost var text := sb.Text();
        Knum(kn[i]);
        assert kn[i..][1..] == kn[i + 1..];
        Join(text, KnumBytes(kn[i]), KnumsBytes(kn[i + 1..]));
      }
    }

    method Knum(k: Knum)
      requires Valid() && OkKnum(k) && sb.Room(10)
      modifies sb`n, sb.buf
      ensures Valid() && sb.n <= old(sb.n) + 10 && sb.Text() == old(sb.Text()) + KnumBytes(k)
    {
      hide Uleb;
      match k
      case KInt(i) => sb.Uleb33(ToU32(i), 0);
      case KNum(lo, hi) =>
        UlebShort(hi);
        sb.Uleb33(lo, 1);
        sb.Uleb128(hi);
    }

    // ---------------------------------------------------------------- prototypes

    /** Any answer of the writer function. */
    method Callback(chunk: Bytes)
      modifies this
      ensures out == old(out) + chunk
    {
      out := out + chunk;
      status := *;
    }

    /** The header of a prototype, up to its debug sizes. */
    method Head(pt: Proto)
      requires Valid() && OkProto(pt) && sb.Room(4 + 6 * 5)
      modifies sb`n, sb.buf
      ensures Valid() && sb.n <= old(sb.n) + 34 && sb.Text() == old(sb.Text()) + HeadOnly(pt, strip)
    {
      hide Uleb, OkKgc, OkKnum, Buffer.Text;
      ghost var text := sb.Text();
      FourBytes(pt.flags % 8, pt.numparams, pt.framesize, |pt.uv| / 2);
      ghost var four: Bytes := [pt.flags % 8, pt.numparams, pt.framesize, |pt.uv| / 2];
      ThreeSizes(|pt.kgc|, |pt.kn|, |pt.bc| / 4);
      ghost var sizes := Uleb(|pt.kgc|) + (Uleb(|pt.kn|) + Uleb(|pt.bc| / 4));
      DebugSizes(pt.dbg);
      Join(text, four, sizes);
      Join(text, four + sizes, DebugHead(pt.dbg, strip));
    }

    method FourBytes(a: byte, b: byte, c: byte, d: byte)
      requires Valid() && sb.Room(4)
      modifies sb`n, sb.buf
      ensures Valid() && sb.n == old(sb.n) + 4 && sb.Text() == old(sb.Text()) + [a, b, c, d]
    {
      hide Buffer.Text;
      ghost var text := sb.Text();
      sb.Byte(a);
      sb.Byte(b);
      sb.Byte(c);
      sb.Byte(d);
      assert text + [a] + [b] + [c] + [d] == text + [a, b, c, d];
    }

    method ThreeSizes(a: nat, b: nat, c: nat)
      requires Valid() && sb.Room(15) && IsU32(a) && IsU32(b) && IsU32(c)
      modifies sb`n, sb.buf
      ensures Valid() && sb.n <= old(sb.n) + 15 && sb.Text() == old(sb.Text()) + (Uleb(a) + (Uleb(b) + Uleb(c)))
    {
      hide Uleb, Buffer.Text;
      ghost var text := sb.Text();
      UlebShort(a);
      sb.Uleb128(a);
      Words(b, c);
      Join(text, Uleb(a), Uleb(b) + Uleb(c));
    }

    method DebugSizes(d: Debug)
      requires Valid() && sb.Room(15) && (d.Debug? ==> IsU32(d.firstline) && IsU32(d.numline) && 0 < |d.info| < U32)
      modifies sb`n, sb.buf
      ensures Valid() && sb.n <= old(sb.n) + 15 && sb.Text() == old(sb.Text()) + DebugHead(d, strip)
    {
      hide Uleb, Buffer.Text;
      ghost var text := sb.Text();
      assert text + [] == text;
      if !strip {
        var sizedbg := if d.Debug? then |d.info| else 0;
        UlebShort(sizedbg);
        sb.Uleb128(sizedbg);
        if sizedbg > 0 {
          Words(d.firstline, d.numline);
          Join(text, Uleb(sizedbg), Uleb(d.firstline) + Uleb(d.numline));
        }
      }
    }

    static ghost function HeadOnly(pt: Proto, strip: bool): Bytes
      requires OkProto(pt)
    {
      ([pt.flags % 8, pt.numparams, pt.framesize, |pt.uv| / 2] + (Uleb(|pt.kgc|) + (Uleb(|pt.kn|) + Uleb(|pt.bc| / 4)))) + DebugHead(pt.dbg, strip)
    }

    static lemma BodyIs(pt: Proto, strip: bool)
      requires OkProto(pt)
      ensures Body(pt, strip) == HeadOnly(pt, strip) + pt.bc + pt.uv + KgcsBytes(pt, 0) + KnumsBytes(pt.kn) + DebugInfo(pt.dbg, strip)
    {
      hide Uleb, OkKgc, OkKnum, KgcsBytes, KnumsBytes, DebugInfo, DebugHead;
      var h: Bytes, a, b, c, d := [pt.flags % 8, pt.numparams, pt.framesize, |pt.uv| / 2], Uleb(|pt.kgc|), Uleb(|pt.kn|), Uleb(|pt.bc| / 4), DebugHead(pt.dbg, strip);
      var r := pt.bc + (pt.uv + (KgcsBytes(pt, 0) + (KnumsBytes(pt.kn) + DebugInfo(pt.dbg, strip))));
      Regroup(h, a, b, c, d, r);
      Regroup(HeadOnly(pt, strip), pt.bc, pt.uv, KgcsBytes(pt, 0), KnumsBytes(pt.kn), DebugInfo(pt.dbg, strip));
    }

    static lemma Regroup(h: Bytes, a: Bytes, b: Bytes, c: Bytes, d: Bytes, r: Bytes)
      ensures h + (a + (b + (c + (d + r)))) == (h + (a + (b + c)) + d) + r
      ensures h + (a + (b + (c + (d + r)))) == h + a + b + c + d + r
    {}

    /** The body of a prototype, behind five bytes for its size. */
    method WriteBody(pt: Proto)
      requires Valid() && OkProto(pt)
      modifies sb, sb.buf
      ensures Valid() && (sb.buf == old(sb.buf) || fresh(sb.buf)) && sb.n >= 5 && sb.Text()[5..] == Body(pt, strip)
    {
      hide Uleb, KgcsBytes, KnumsBytes, Body, HeadOnly, OkKgc, OkKnum, Buffer.Text;
      sb.n := 5;
      ghost var five := sb.Text();
      sb.Need(4 + 6 * 5 + |pt.bc| + |pt.uv|);
      Head(pt);
      sb.Block(pt.bc);
      sb.Block(pt.uv);
      Kgcs(pt);
      Knums(pt.kn);
      DebugData(pt.dbg);
      BodyIs(pt, strip);
      Behind(five, HeadOnly(pt, strip), pt.bc, pt.uv, KgcsBytes(pt, 0), KnumsBytes(pt.kn), DebugInfo(pt.dbg, strip));
    }

    static lemma Behind(five: Bytes, h: Bytes, a: Bytes, b: Bytes, c: Bytes, d: Bytes, r: Bytes)
      requires |five| == 5
      ensures var s := five + h + a + b + c + d + r; |s| >= 5 && s[5..] == h + a + b + c + d + r
    {
      assert five + h + a + b + c + d + r == five + (h + a + b + c + d + r);
    }

    method DebugData(d: Debug)
      requires Valid()
      modifies sb, sb.buf
      ensures Valid() && (sb.buf == old(sb.buf) || fresh(sb.buf)) && sb.Text() == old(sb.Text()) + DebugInfo(d, strip)
    {
      hide Buffer.Text;
      ghost var text := sb.Text();
      assert text + [] == text;
      if !strip && d.Debug? {
        sb.Need(|d.info|);
        sb.Block(d.info);
      }
    }

    /** The size goes right in front of the body, which is then passed on. */
    method Finish(ghost body: Bytes)
      requires Valid() && sb.n > 5 && sb.Text()[5..] == body && |body| < U32 && status == 0
      modifies this, sb`n, sb.buf
      ensures Valid() && out == old(out) + (Uleb(|body|) + body)
    {
      hide Uleb;
      var size := sb.n - 5;
      UlebFormula(size);
      var nn := (Fls(size) + 8) * 9 / 64;
      assert sb.buf[5..5 + size] == sb.Text()[5..];
      sb.n := 5 - nn;
      ghost var were, front := sb.buf[..], sb.Text();
      sb.Uleb128(size);
      SizeInFront(were, sb.buf[..], front, Uleb(size), body);
      Callback(sb.buf[5 - nn..5 + size]);
    }

    /** The bytes from the size on are the size and the body. */
    static lemma SizeInFront(were: Bytes, now: Bytes, front: Bytes, size: Bytes, body: Bytes)
      requires |front| + |size| == 5 && |were| == |now| >= 5 + |body| && were[5..5 + |body|] == body
      requires now[..5] == front + size && now[5..] == were[5..]
      ensures now[5 - |size|..5 + |body|] == size + body
    {
      assert now == front + size + were[5..];
    }

    /** bcwrite_proto. Whatever the callback answers, it gets a prefix of the dump. */
    method WriteProto(pt: Proto)
      requires Valid() && OkProto(pt) && Fits(pt, strip)
      modifies this, sb, sb.buf
      ensures Valid() && (sb.buf == old(sb.buf) || fresh(sb.buf))
      ensures old(out) <= out <= old(out) + ProtoBytes(pt, strip)
      ensures status == 0 ==> old(status) == 0 && out == old(out) + ProtoBytes(pt, strip)
      ensures old(status) != 0 ==> out == old(out)
      decreases pt
    {
      hide OkKgc, OkKnum, Uleb, Body;
      if pt.flags % 2 == 1 {
        WriteChildren(pt);
      } else {
        NoChildren(pt, strip, 0);
      }
      ghost var out1 := out;
      WriteBody(pt);
      BodyNotEmpty(pt, strip);
      if status == 0 {
        Finish(Body(pt, strip));
      }
      assert old(out) + ChildrenBytes(pt, strip, 0) + (Uleb(|Body(pt, strip)|) + Body(pt, strip)) == old(out) + ProtoBytes(pt, strip);
    }

    static lemma BodyNotEmpty(pt: Proto, strip: bool)
      requires OkProto(pt)
      ensures |Body(pt, strip)| > 0
    {
      hide Uleb;
    }

    static lemma {:induction false} NoChildren(pt: Proto, strip: bool, i: nat)
      requires OkProto(pt) && pt.flags % 2 == 0 && i <= |pt.kgc|
      ensures ChildrenBytes(pt, strip, i) == []
      decreases |pt.kgc| - i
    {
      if i < |pt.kgc| {
        assert OkKgc(pt, i);
        NoChildren(pt, strip, i + 1);
      }
    }

    /** The loop over the children, which starts at the last constant. */
    method WriteChildren(pt: Proto)
      requires Valid() && OkProto(pt) && Fits(pt, strip)
      modifies this, sb, sb.buf
      ensures Valid() && (sb.buf == old(sb.buf) || fresh(sb.buf))
      ensures old(out) <= out <= old(out) + ChildrenBytes(pt, strip, 0)
      ensures status == 0 ==> old(status) == 0 && out == old(out) + ChildrenBytes(pt, strip, 0)
      ensures old(status) != 0 ==> out == old(out)
      decreases pt, 0
    {
      hide ProtoBytes, Body;
      var i := |pt.kgc|;
      while i > 0
        invariant 0 <= i <= |pt.kgc| && Valid() && (sb.buf == old(sb.buf) || fresh(sb.buf))
        invariant old(out) <= out <= old(out) + ChildrenBytes(pt, strip, i)
        invariant status == 0 ==> old(status) == 0 && out == old(out) + ChildrenBytes(pt, strip, i)
        invariant old(status) != 0 ==> out == old(out)
      {
        i := i - 1;
        assert OkKgc(pt, i) && FitsChild(pt, strip, i);
        if pt.kgc[i].KChild? {
          WriteProto(pt.kgc[i].pt);
        }
      }
    }

    // ---------------------------------------------------------------- the dump

    /** bcwrite_header */
    method Header(pt: Proto, name: Bytes)
      requires Valid() && |name| < U32 && out == []
      modifies this, sb, sb.buf
      ensures Valid() && (sb.buf == old(sb.buf) || fresh(sb.buf)) && out == HeaderBytes(pt, name, strip)
    {
      hide Uleb, Buffer.Text;
      sb.n := 0;
      sb.Need(5 + 5 + |name|);
      ghost var text := sb.Text();
      assert text == [];
      var flags: byte := (if strip then 2 else 0) + (if pt.flags / 4 % 2 == 1 then 4 else 0);
      FourBytes(0x1b, 0x4c, 0x4a, 1);
      sb.Byte(flags);
      assert sb.Text() == [0x1b, 0x4c, 0x4a, 1, flags];
      if !strip {
        UlebShort(|name|);
        sb.Uleb128(|name|);
        sb.Block(name);
        Join([0x1b, 0x4c, 0x4a, 1, flags], Uleb(|name|), name);
      }
      PassOn();
    }

    /** The whole buffer goes to the callback. */
    method PassOn()
      requires Valid() && out == []
      modifies this
      ensures out == old(sb.Text())
    {
      Callback(sb.buf[..sb.n]);
    }

    /** lj_bcwrite, without the protected call: if every answer was 0, the callback has been
        given the dump, and a prefix of it otherwise. */
    method Write(pt: Proto, name: Bytes)
      requires Valid() && OkProto(pt) && Fits(pt, strip) && |name| < U32 && out == []
      modifies this, sb, sb.buf
      ensures Valid() && out <= DumpBytes(pt, name, strip)
      ensures status == 0 ==> out == DumpBytes(pt, name, strip)
      ensures status == 0 ==> ReadDump(out) == Got(Dump(Canon(pt, strip), if strip then [] else name, strip), [])
    {
      hide OkProto, Fits, Canon, ReadDump, ProtoBytes, HeaderBytes, Uleb;
      Header(pt, name);
      WriteProto(pt);
      Join(HeaderBytes(pt, name, strip), ProtoBytes(pt, strip), [0]);
      if status == 0 {
        Callback([0]);
      }
      ReadsDump(pt, name, strip);
    }
  }
}
