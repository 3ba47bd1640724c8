/** Reading a dump along its grammar, with a stack of the prototypes read so far. */
module BcReader {
  import opened BcFormat

  datatype Parse<T> = Fail | Got(value: T, rest: Bytes)

  /** bcread_mem */
  function ReadBlock(s: Bytes, n: nat): (r: Parse<Bytes>)
    ensures r.Got? ==> |r.rest| == |s| - n
  {
    if |s| < n then Fail else Got(s[..n], s[n..])
  }

  /** bcread_uleb128, unbounded */
  function ReadUleb(s: Bytes): (r: Parse<nat>)
    ensures r.Got? ==> |r.rest| < |s|
    decreases |s|
  {
    if s == [] then Fail
    else if s[0] < 0x80 then Got(s[0], s[1..])
    else
      match ReadUleb(s[1..])
      case Fail => Fail
      case Got(v, rest) => Got(s[0] - 0x80 + 0x80 * v, rest)
  }

  function ReadU(s: Bytes): (r: Parse<nat>)
    ensures r.Got? ==> |r.rest| < |s| && r.value < U32
  {
    match ReadUleb(s)
    case Fail => Fail
    case Got(v, rest) => if v < U32 then Got(v, rest) else Fail
  }

  datatype Pair = Pair(lo: nat, hi: nat)

  function ReadPair(s: Bytes): (r: Parse<Pair>)
    ensures r.Got? ==> |r.rest| < |s|
  {
    match ReadU(s)
    case Fail => Fail
    case Got(lo, s1) =>
      match ReadU(s1)
      case Fail => Fail
      case Got(hi, s2) => Got(Pair(lo, hi), s2)
  }

  // ---------------------------------------------------------------- constants

  /** bcread_ktabk */
  function ReadTv(s: Bytes): (r: Parse<Tv>)
    ensures r.Got? ==> |r.rest| < |s|
  {
    match ReadU(s)
    case Fail => Fail
    case Got(tp, s1) =>
      if tp >= 5 then
        match ReadBlock(s1, tp - 5)
        case Fail => Fail
        case Got(b, s2) => Got(Str(b), s2)
      else if tp == 3 then
        match ReadU(s1)
        case Fail => Fail
        case Got(u, s2) => Got(Int(FromU32(u)), s2)
      else if tp == 4 then
        match ReadPair(s1)
        case Fail => Fail
        case Got(p, s2) => Got(Num(p.lo, p.hi), s2)
      else Got(if tp == 0 then Nil else if tp == 1 then False else True, s1)
  }

  function ReadArr(s: Bytes, n: nat): Parse<seq<Tv>>
    decreases n
  {
    if n == 0 then Got([], s)
    else
      match ReadTv(s)
      case Fail => Fail
      case Got(o, s1) =>
        match ReadArr(s1, n - 1)
        case Fail => Fail
        case Got(a, s2) => Got([o] + a, s2)
  }

  function ReadNodes(s: Bytes, n: nat): Parse<seq<Node>>
    decreases n
  {
    if n == 0 then Got([], s)
    else
      match ReadTv(s)
      case Fail => Fail
      case Got(key, s1) =>
        match ReadTv(s1)
        case Fail => Fail
        case Got(val, s2) =>
          match ReadNodes(s2, n - 1)
          case Fail => Fail
          case Got(a, s3) => Got([Node(key, val)] + a, s3)
  }

  /** bcread_ktab: the entries in the order in which they are set. */
  function ReadTab(s: Bytes): Parse<Tab> {
    match ReadU(s)
    case Fail => Fail
    case Got(narray, s1) =>
      match ReadU(s1)
      case Fail => Fail
      case Got(nhash, s2) =>
        match ReadArr(s2, narray)
        case Fail => Fail
        case Got(arr, s3) =>
          match ReadNodes(s3, nhash)
          case Fail => Fail
          case Got(nodes, s4) => Got(Tab(arr, nodes), s4)
  }

  /** A constant, and the prototypes that are left. */
  datatype Item = Item(k: Kgc, stack: seq<Proto>)

  function ReadKgc(s: Bytes, stack: seq<Proto>): Parse<Item> {
    match ReadU(s)
    case Fail => Fail
    case Got(tp, s1) =>
      if tp >= 5 then
        match ReadBlock(s1, tp - 5)
        case Fail => Fail
        case Got(b, s2) => Got(Item(KStr(b), stack), s2)
      else if tp == 1 then
        match ReadTab(s1)
        case Fail => Fail
        case Got(t, s2) => Got(Item(KTab(t), stack), s2)
      else if tp == 0 then
        if stack == [] then Fail else Got(Item(KChild(stack[|stack| - 1]), stack[..|stack| - 1]), s1)
      else
        match ReadPair(s1)
        case Fail => Fail
        case Got(p, s2) =>
          if tp == 2 then Got(Item(KI64(p.lo, p.hi), stack), s2)
          else if tp == 3 then Got(Item(KU64(p.lo, p.hi), stack), s2)
          else
            match ReadPair(s2)
            case Fail => Fail
            case Got(q, s3) => Got(Item(KComplex(p.lo, p.hi, q.lo, q.hi), stack), s3)
  }

  datatype Items = Items(ks: seq<Kgc>, stack: seq<Proto>)

  /** bcread_kgc */
  function ReadKgcs(s: Bytes, n: nat, stack: seq<Proto>): Parse<Items>
    decreases n
  {
    if n == 0 then Got(Items([], stack), s)
    else
      match ReadKgc(s, stack)
      case Fail => Fail
      case Got(i, s1) =>
        match ReadKgcs(s1, n - 1, i.stack)
        case Fail => Fail
        case Got(more, s2) => Got(Items([i.k] + more.ks, more.stack), s2)
  }

  /** One number constant: 33 bits, the lowest saying whether a high word follows. */
  function ReadKnum(s: Bytes): Parse<Knum> {
    match ReadUleb(s)
    case Fail => Fail
    case Got(v, s1) =>
      if v >= 2 * U32 then Fail
      else if v % 2 == 0 then Got(KInt(FromU32(v / 2)), s1)
      else
        match ReadU(s1)
        case Fail => Fail
        case Got(hi, s2) => Got(KNum(v / 2, hi), s2)
  }

  /** bcread_knum */
  function ReadKnums(s: Bytes, n: nat): Parse<seq<Knum>>
    decreases n
  {
    if n == 0 then Got([], s)
    else
      match ReadKnum(s)
      case Fail => Fail
      case Got(k, s1) =>
        match ReadKnums(s1, n - 1)
        case Fail => Fail
        case Got(a, s2) => Got([k] + a, s2)
  }

  // ---------------------------------------------------------------- prototypes

  /** The sizes in a prototype's header. */
  datatype Head = Head(flags: byte, numparams: byte, framesize: byte, sizeuv: nat, numkgc: nat, numkn: nat, numbc: nat, sizedbg: nat, firstline: nat, numline: nat)

  function ReadHead(s: Bytes, strip: bool): Parse<Head> {
    match ReadBlock(s, 4)
    case Fail => Fail
    case Got(h, s1) =>
      match ReadPair(s1)
      case Fail => Fail
      case Got(p, s2) =>
        match ReadU(s2)
        case Fail => Fail
        case Got(numbc, s3) =>
          if strip then Got(Head(h[0], h[1], h[2], h[3], p.lo, p.hi, numbc, 0, 0, 0), s3)
          else
            match ReadU(s3)
            case Fail => Fail
            case Got(sizedbg, s4) =>
              if sizedbg == 0 then Got(Head(h[0], h[1], h[2], h[3], p.lo, p.hi, numbc, 0, 0, 0), s4)
              else
                match ReadPair(s4)
                case Fail => Fail
                case Got(q, s5) => Got(Head(h[0], h[1], h[2], h[3], p.lo, p.hi, numbc, sizedbg, q.lo, q.hi), s5)
  }

  /** What follows the header. */
  function ReadRest(h: Head, s: Bytes, stack: seq<Proto>): Parse<seq<Proto>> {
    match ReadBlock(s, 4 * h.numbc)
    case Fail => Fail
    case Got(bc, s1) =>
      match ReadBlock(s1, 2 * h.sizeuv)
      case Fail => Fail
      case Got(uv, s2) =>
        match ReadKgcs(s2, h.numkgc, stack)
        case Fail => Fail
        case Got(items, s3) =>
          match ReadKnums(s3, h.numkn)
          case Fail => Fail
          case Got(kn, s4) =>
            match ReadBlock(s4, h.sizedbg)
            case Fail => Fail
            case Got(info, s5) =>
              var dbg := if h.sizedbg == 0 then NoDebug else Debug(h.firstline, h.numline, info);
              Got(items.stack + [Proto(h.flags, h.numparams, h.framesize, bc, uv, items.ks, kn, dbg)], s5)
  }

  /** bcread_proto and the loop around it: prototypes up to the end mark. */
  function ReadProtos(s: Bytes, strip: bool, stack: seq<Proto>): Parse<seq<Proto>>
    decreases |s|
  {
    match ReadU(s)
    case Fail => Fail
    case Got(len, s1) =>
      if len == 0 then Got(stack, s1)
      else
        match ReadHead(s1, strip)
        case Fail => Fail
        case Got(h, s2) =>
          match ReadRest(h, s2, stack)
          case Fail => Fail
          case Got(stack', s3) => if |s1| - |s3| == len then ReadProtos(s3, strip, stack') else Fail
  }

  datatype Dump = Dump(pt: Proto, name: Bytes, strip: bool)

  /** lj_bcread: the header, the prototypes, and exactly one of them left. */
  function ReadDump(s: Bytes): Parse<Dump> {
    if |s| < 5 || s[..4] != [0x1b, 0x4c, 0x4a, 1] then Fail
    else
      match ReadU(s[4..])
      case Fail => Fail
      case Got(flags, s1) =>
        if flags >= 8 || flags % 2 == 1 then Fail
        else
          var strip := flags / 2 % 2 == 1;
          match ReadName(s1, strip)
          case Fail => Fail
          case Got(name, s2) =>
            match ReadProtos(s2, strip, [])
            case Fail => Fail
            case Got(stack, s3) => if s3 == [] && |stack| == 1 then Got(Dump(stack[0], name, strip), []) else Fail
  }

  function ReadName(s: Bytes, strip: bool): Parse<Bytes> {
    if strip then Got([], s)
    else
      match ReadU(s)
      case Fail => Fail
      case Got(n, s1) => ReadBlock(s1, n)
  }
}
