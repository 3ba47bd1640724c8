/** What the allocator promises about any sequence of calls, with whatever the client does with
    its blocks in between. */
module AllocRun {
  import opened AllocIndex
  import opened AllocTiles
  import opened AllocBooks
  import opened AllocState
  import opened AllocSystem
  import opened AllocStore
  import opened AllocRealloc

  /** A call of lj_alloc_f, or an access of the client to a word of a block. */
  datatype Step = Call(ptr: int, size: nat) | Write(ptr: int, index: nat, word: nat) | Read(ptr: int, index: nat)

  /** What the client has stored, by block and index. */
  type View = map<(int, nat), nat>

  /** The client's view: its blocks, how many bytes it has asked for, and what it has stored. */
  ghost predicate Owns(m: MState, owned: map<int, nat>, view: View)
    reads m
  {
    && m.Heap().Keys == owned.Keys && (forall p <- owned :: owned[p] <= m.Heap()[p])
    && forall k <- view :: Seen(m.content, owned, view, k)
  }

  ghost predicate Seen(content: map<int, nat>, owned: map<int, nat>, view: View, k: (int, nat))
    requires k in view
  {
    k.0 in owned && 8 * k.1 + 8 <= owned[k.0] && Address(k.0, k.1) in content && content[Address(k.0, k.1)] == view[k]
  }

  /** The block at `p` is gone. */
  ghost function Gone(view: View, p: int): View { map k | k in view && k.0 != p :: view[k] }

  /** The block at `p` is at `q` now, with `n` bytes. */
  ghost function Went(view: View, p: int, q: int, n: nat): View {
    Gone(view, p) + map t | t in Targets(view, p, q, n) :: view[(p, t.1)]
  }

  ghost function Targets(view: View, p: int, q: int, n: nat): (ts: set<(int, nat)>)
    ensures forall t <- ts :: t.0 == q && (p, t.1) in view && 8 * t.1 + 8 <= n
  {
    set k | k in view && k.0 == p && 8 * k.1 + 8 <= n :: (q, k.1)
  }

  /** What a step does to it. The result of a call is the address of a block or zero, that of a
      read a word, and -1 stands for an access or a call that is not the client's to make. */
  ghost function NextView(view: View, s: Step, result: int): View {
    if result == -1 then view
    else
      match s
      case Call(ptr, n) =>
        if ptr == 0 then view
        else if n == 0 then Gone(view, ptr - 16)
        else if result == 0 then view
        else Went(view, ptr - 16, result - 16, n)
      case Write(ptr, i, word) => view[(ptr - 16, i) := word]
      case Read(_, _) => view
  }

  /** What the client has stored after the first `i` steps. */
  ghost function ViewAfter(steps: seq<Step>, results: seq<int>, i: nat): View
    requires i <= |steps| && i <= |results|
  {
    if i == 0 then map[] else NextView(ViewAfter(steps, results, i - 1), steps[i - 1], results[i - 1])
  }

  lemma {:induction false} ViewSame(steps: seq<Step>, results: seq<int>, r: int, i: nat)
    requires i <= |results| <= |steps|
    ensures ViewAfter(steps, results + [r], i) == ViewAfter(steps, results, i)
  {
    if i > 0 { ViewSame(steps, results, r, i - 1); }
  }

  // ---------------------------------------------------------------- one step

  predicate Accessible(owned: map<int, nat>, ptr: int, i: nat) { ptr - 16 in owned && 8 * i + 8 <= owned[ptr - 16] }

  lemma GoneSeen(c: map<int, nat>, c': map<int, nat>, owned: map<int, nat>, view: View, h: map<int, int>, p: int)
    requires (forall k <- view :: Seen(c, owned, view, k)) && p in h && owned.Keys == h.Keys && c' == Forgotten(c, p, h[p])
    requires forall q <- owned :: owned[q] <= h[q]
    requires forall q, r | q in h && r in h && q != r :: Disjoint(q + 16, h[q], r + 16, h[r])
    ensures forall k <- Gone(view, p) :: Seen(c', owned - {p}, Gone(view, p), k)
  {
    forall k | k in Gone(view, p)
      ensures Seen(c', owned - {p}, Gone(view, p), k)
    {
      assert Seen(c, owned, view, k);
      assert Disjoint(k.0 + 16, h[k.0], p + 16, h[p]);
    }
  }

  lemma WentSeen(c: map<int, nat>, c': map<int, nat>, owned: map<int, nat>, view: View, h: map<int, int>, p: int, q: int, n: nat)
    requires (forall k <- view :: Seen(c, owned, view, k)) && p in h && owned.Keys == h.Keys && Carried(c, c', p, h[p], q, n)
    requires (forall r <- owned :: owned[r] <= h[r]) && (q == p || q !in h) && p % 8 == 0
    requires forall q, r | q in h && r in h && q != r :: Disjoint(q + 16, h[q], r + 16, h[r])
    ensures forall k <- Went(view, p, q, n) :: Seen(c', (owned - {p})[q := n], Went(view, p, q, n), k)
  {
    hide Seen, Went, Carried;
    forall k | k in Went(view, p, q, n)
      ensures Seen(c', (owned - {p})[q := n], Went(view, p, q, n), k)
    {
      WentCases(view, p, q, n, k);
      if k in Targets(view, p, q, n) {
        assert Seen(c, owned, view, (p, k.1));
        MovedSeen(c, c', owned, view, h, p, q, n, k);
      } else {
        assert Seen(c, owned, view, k);
        OtherSeen(c, c', owned, view, h, p, q, n, k);
      }
    }
  }

  lemma WentCases(view: View, p: int, q: int, n: nat, k: (int, nat))
    requires k in Went(view, p, q, n)
    ensures if k in Targets(view, p, q, n) then (p, k.1) in view && Went(view, p, q, n)[k] == view[(p, k.1)]
            else k in view && k.0 != p && Went(view, p, q, n)[k] == view[k]
  {}

  lemma MovedSeen(c: map<int, nat>, c': map<int, nat>, owned: map<int, nat>, view: View, h: map<int, int>, p: int, q: int, n: nat, k: (int, nat))
    requires (p, k.1) in view && Seen(c, owned, view, (p, k.1)) && p in h && (p in owned ==> owned[p] <= h[p]) && Carried(c, c', p, h[p], q, n)
    requires k in Went(view, p, q, n) && k in Targets(view, p, q, n) && Went(view, p, q, n)[k] == view[(p, k.1)] && p % 8 == 0
    ensures Seen(c', (owned - {p})[q := n], Went(view, p, q, n), k)
  {
    hide Went, Targets;
    assert k.0 == q && 8 * k.1 + 8 <= n by { TargetIs(view, p, q, n, k); }
    var a := Address(p, k.1);
    assert InBlock(p, h[p], a);
    assert a - p + q == Address(q, k.1);
  }

  lemma TargetIs(view: View, p: int, q: int, n: nat, k: (int, nat))
    requires k in Targets(view, p, q, n)
    ensures k.0 == q && 8 * k.1 + 8 <= n
  {}

  lemma OtherSeen(c: map<int, nat>, c': map<int, nat>, owned: map<int, nat>, view: View, h: map<int, int>, p: int, q: int, n: nat, k: (int, nat))
    requires k in view && k.0 != p && Seen(c, owned, view, k) && p in h && owned.Keys == h.Keys && Carried(c, c', p, h[p], q, n)
    requires (k.0 in owned ==> owned[k.0] <= h[k.0] && Disjoint(k.0 + 16, h[k.0], p + 16, h[p])) && (q == p || q !in h)
    requires k in Went(view, p, q, n) && Went(view, p, q, n)[k] == view[k]
    ensures Seen(c', (owned - {p})[q := n], Went(view, p, q, n), k)
  {
    hide Went;
  }

  lemma AllApart(m: MState)
    requires m.Valid()
    ensures forall p, q | p in m.Heap() && q in m.Heap() && p != q :: Disjoint(p + 16, m.Heap()[p], q + 16, m.Heap()[q])
  {
    hide HeapOf, MState.ValidBut;
    forall p, q | p in m.Heap() && q in m.Heap() && p != q
      ensures Disjoint(p + 16, m.Heap()[p], q + 16, m.Heap()[q])
    {
      BlocksApart(m, p, q);
    }
  }

  /** A call, and what it means for the client. */
  method PerformCall(m: MState, ptr: int, n: nat, owned: map<int, nat>, ghost view: View) returns (owned': map<int, nat>, mem: int)
    requires m.Valid() && Owns(m, owned, view) && n < SIZE_T_LIMIT && (ptr == 0 || ptr - 16 in owned)
    modifies m, m.small, m.tree
    ensures m.Valid() && mem >= 0 && Owns(m, owned', NextView(view, Call(ptr, n), mem))
    ensures n != 0 && mem == 0 ==> Refusal(old(m.Bk()), old(m.Heap()), old(m.direct), old(m.refused), m.refused, ptr, n)
  {
    hide Good, DirectsOk, Mapped, HeapOf, MState.ValidBut, Carried, Seen, NextView, Forgotten, Moved, Served, Refusal, DirectOk, Geometry, UsedOk, Live;
    ghost var h, c := m.Heap(), m.content;
    AllApart(m);
    if ptr != 0 { BlockBytes(m, ptr - 16); }
    mem := AllocF(m, ptr, n);
    HeapAfter(h, m.Heap(), ptr, n, mem);
    if mem != 0 { BlockBytes(m, mem - 16); }
    CallSeen(c, m.content, h, m.Heap(), owned, view, ptr, n, mem);
    owned' := owned;
    if ptr != 0 && (n == 0 || mem != 0) { owned' := owned' - {ptr - 16}; }
    if mem != 0 { owned' := owned'[mem - 16 := n]; }
  }

  /** The blocks the client owns after a call, each with the bytes asked for. */
  ghost function OwnedAfter(owned: map<int, nat>, ptr: int, n: nat, mem: int): map<int, nat> {
    var kept := if ptr != 0 && (n == 0 || mem != 0) then owned - {ptr - 16} else owned;
    if mem != 0 then kept[mem - 16 := n] else kept
  }

  /** What the client owns and what it has stored there, after a call. */
  lemma CallSeen(c: map<int, nat>, c': map<int, nat>, h: map<int, int>, h': map<int, int>, owned: map<int, nat>, view: View,
                 ptr: int, n: nat, mem: int)
    requires h.Keys == owned.Keys && (forall p <- owned :: owned[p] <= h[p]) && (forall k <- view :: Seen(c, owned, view, k))
    requires forall p, q | p in h && q in h && p != q :: Disjoint(p + 16, h[p], q + 16, h[q])
    requires (ptr != 0 ==> ptr - 16 in owned && (ptr - 16) % 8 == 0) && mem >= 0 && (n == 0 ==> mem == 0)
    requires HeapIs(h, h', ptr, n, mem)
    requires c' == c || (ptr != 0 && (n == 0 || mem != 0))
    requires ptr != 0 && n == 0 ==> c' == Forgotten(c, ptr - 16, h[ptr - 16])
    requires ptr != 0 && mem != 0 ==> Carried(c, c', ptr - 16, h[ptr - 16], mem - 16, n)
    ensures var owned', view' := OwnedAfter(owned, ptr, n, mem), NextView(view, Call(ptr, n), mem);
      && h'.Keys == owned'.Keys && (forall p <- owned' :: owned'[p] <= h'[p])
      && forall k <- view' :: Seen(c', owned', view', k)
  {
    hide Carried, Seen, Went, Gone, Forgotten, HeapIs;
    OwnedIs(h, h', owned, ptr, n, mem);
    if ptr != 0 && n == 0 {
      GoneSeen(c, c', owned, view, h, ptr - 16);
    } else if ptr != 0 && mem != 0 {
      MovedApart(h, h', ptr, n, mem);
      WentSeen(c, c', owned, view, h, ptr - 16, mem - 16, n);
    } else {
      StaySeen(c, owned, OwnedAfter(owned, ptr, n, mem), view);
    }
  }

  lemma OwnedIs(h: map<int, int>, h': map<int, int>, owned: map<int, nat>, ptr: int, n: nat, mem: int)
    requires h.Keys == owned.Keys && (forall p <- owned :: owned[p] <= h[p]) && HeapIs(h, h', ptr, n, mem)
    ensures var owned' := OwnedAfter(owned, ptr, n, mem);
      h'.Keys == owned'.Keys && (forall p <- owned' :: owned'[p] <= h'[p])
    ensures ptr == 0 && mem != 0 ==> mem - 16 !in owned
  {}

  lemma MovedApart(h: map<int, int>, h': map<int, int>, ptr: int, n: nat, mem: int)
    requires HeapIs(h, h', ptr, n, mem) && mem != 0
    ensures mem == ptr || mem - 16 !in h
  {}

  /** The blocks after a call. */
  ghost predicate HeapIs(h: map<int, int>, h': map<int, int>, ptr: int, n: nat, mem: int) {
    var gone := if ptr != 0 && (n == 0 || mem != 0) then h - {ptr - 16} else h;
    && (mem != 0 ==> mem - 16 in h' && h'[mem - 16] >= n && (mem == ptr || mem - 16 !in h))
    && h' == if mem == 0 then gone else gone[mem - 16 := if mem - 16 in h' then h'[mem - 16] else 0]
  }

  lemma HeapAfter(h: map<int, int>, h': map<int, int>, ptr: int, n: nat, mem: int)
    requires n == 0 ==> mem == 0 && h' == if ptr == 0 then h else h - {ptr - 16}
    requires n != 0 && ptr == 0 ==> Served(h, h', mem, n)
    requires n != 0 && ptr != 0 ==> Moved(h, h', ptr - 16, mem, n)
    ensures HeapIs(h, h', ptr, n, mem)
  {}

  lemma StaySeen(c: map<int, nat>, owned: map<int, nat>, owned': map<int, nat>, view: View)
    requires (forall k <- view :: Seen(c, owned, view, k)) && forall p <- owned :: p in owned' && owned'[p] == owned[p]
    ensures forall k <- view :: Seen(c, owned', view, k)
  {
    forall k | k in view
      ensures Seen(c, owned', view, k)
    {
      assert Seen(c, owned, view, k);
    }
  }

  /** A word is stored, and no other one changes. */
  method PerformWrite(m: MState, ptr: int, i: nat, word: nat, ghost owned: map<int, nat>, ghost view: View)
    requires m.Valid() && Owns(m, owned, view) && Accessible(owned, ptr, i)
    modifies m`mem, m`content
    ensures m.Valid() && m.Heap() == old(m.Heap()) && Owns(m, owned, view[(ptr - 16, i) := word])
  {
    hide Good, DirectsOk, Mapped, HeapOf, MState.ValidBut;
    var p := ptr - 16;
    ghost var c, view' := m.content, view[(ptr - 16, i) := word];
    AllApart(m);
    Store(m, p, i, word);
    forall k | k in view'
      ensures Seen(m.content, owned, view', k)
    {
      if k != (p, i) {
        assert Seen(c, owned, view, k);
        if k.0 != p { assert Disjoint(k.0 + 16, m.Heap()[k.0], p + 16, m.Heap()[p]); }
      }
    }
  }

  /** One step. It is left out only if the block, or the word, is not the client's. */
  method Perform(m: MState, s: Step, owned: map<int, nat>, ghost view: View) returns (owned': map<int, nat>, result: int)
    requires m.Valid() && Owns(m, owned, view) && (s.Call? ==> s.size < SIZE_T_LIMIT)
    modifies m, m.small, m.tree
    ensures m.Valid() && Owns(m, owned', NextView(view, s, result))
    ensures s.Read? && result != -1 && (s.ptr - 16, s.index) in view ==> result == view[(s.ptr - 16, s.index)]
    ensures s.Call? && s.size != 0 && result == 0 ==> Refusal(old(m.Bk()), old(m.Heap()), old(m.direct), old(m.refused), m.refused, s.ptr, s.size)
    ensures result == -1 <==> if s.Call? then s.ptr != 0 && s.ptr - 16 !in owned else !Accessible(owned, s.ptr, s.index)
  {
    hide Good, DirectsOk, Mapped, HeapOf, MState.ValidBut, Refusal;
    owned', result := owned, -1;
    match s
    case Call(ptr, n) =>
      if ptr == 0 || ptr - 16 in owned {
        owned', result := PerformCall(m, ptr, n, owned, view);
      }
    case Write(ptr, i, word) =>
      if Accessible(owned, ptr, i) {
        PerformWrite(m, ptr, i, word, owned, view);
        result := 0;
      }
    case Read(ptr, i) =>
      if Accessible(owned, ptr, i) {
        assert (ptr - 16, i) in view ==> Seen(m.content, owned, view, (ptr - 16, i));
        result := Load(m, ptr - 16, i);
      }
  }

  // ---------------------------------------------------------------- runs

  /** A run: calls of lj_alloc_f with any sizes and with any pointers that are the client's, and
      in between any reads and writes of its blocks. After each step the allocator is in order and
      holds exactly the client's blocks, each with the bytes that were asked for and apart from all
      others, and every read gives what was last written there, also after blocks have moved. */
  method Run(m: MState, steps: seq<Step>) returns (owned: map<int, nat>, results: seq<int>)
    requires m.Valid() && m.Heap() == map[] && forall s <- steps :: s.Call? ==> s.size < SIZE_T_LIMIT
    modifies m, m.small, m.tree
    ensures m.Valid() && |results| == |steps| && Owns(m, owned, ViewAfter(steps, results, |steps|))
    ensures forall p, q | p in owned && q in owned && p != q :: Disjoint(p + 16, owned[p], q + 16, owned[q])
    ensures forall i | 0 <= i < |steps| :: ReadsBack(steps, results, i)
  {
    hide Good, DirectsOk, Mapped, HeapOf, MState.ValidBut, Seen;
    owned, results := map[], [];
    for i := 0 to |steps|
      invariant m.Valid() && |results| == i && Owns(m, owned, ViewAfter(steps, results, i))
      invariant forall j | 0 <= j < i :: ReadsBack(steps, results, j)
    {
      ghost var were := results;
      var result;
      owned, result := Perform(m, steps[i], owned, ViewAfter(steps, results, i));
      results := results + [result];
      ViewSame(steps, were, result, i);
      forall j | 0 <= j < i
        ensures ReadsBack(steps, results, j)
      {
        assert ReadsBack(steps, were, j);
        ViewSame(steps, were, result, j);
      }
    }
    AllApart(m);
  }

  /** If step `i` reads a word that has been stored, that is what it gets. */
  ghost predicate ReadsBack(steps: seq<Step>, results: seq<int>, i: nat)
    requires i < |results| && i < |steps|
  {
    steps[i].Read? && results[i] != -1 ==>
      var view, k := ViewAfter(steps, results, i), (steps[i].ptr - 16, steps[i].index);
      k in view ==> results[i] == view[k]
  }
}
