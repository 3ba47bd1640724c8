/** table.sort: a quicksort that has to survive any comparison function. */
module LuaSort {
  import opened Shifts

  /** What a comparison gives; it may also raise an error of its own. */
  datatype Answer = Yes | No | Raise

  datatype Result = Done | InvalidOrder | Raised

  ghost predicate StrictWeak<T(!new)>(lt: (T, T) -> bool) {
    && (forall x, y :: lt(x, y) ==> !lt(y, x))
    && (forall x, y, z :: !lt(y, x) && !lt(z, y) ==> !lt(z, x))
  }

  // ---------------------------------------------------------------- rearranging a part

  /** `t` is `s` with the elements from `l` to `u` in another order. */
  ghost predicate Shuffled<T>(s: seq<T>, t: seq<T>, l: int, u: int) {
    |s| == |t| && multiset(s) == multiset(t) && forall k | 0 <= k < |s| && !(l <= k <= u) :: t[k] == s[k]
  }

  lemma ShuffledMore<T>(s: seq<T>, t: seq<T>, v: seq<T>, l: int, u: int)
    requires Shuffled(s, t, l, u) && Shuffled(t, v, l, u)
    ensures Shuffled(s, v, l, u)
  {}

  /** Each element of the part was in the part before. */
  lemma WasInPart<T>(s: seq<T>, t: seq<T>, l: nat, u: int, k: nat)
    requires Shuffled(s, t, l, u) && l <= k <= u < |s|
    ensures t[k] in s[l..u + 1]
  {
    SamePart(s, t, l, u);
    assert t[k] == t[l..u + 1][k - l];
    assert t[k] in multiset(t[l..u + 1]);
  }

  lemma SamePart<T>(s: seq<T>, t: seq<T>, l: nat, u: int)
    requires Shuffled(s, t, l, u) && l <= u + 1 <= |s|
    ensures multiset(s[l..u + 1]) == multiset(t[l..u + 1])
  {
    assert t[..l] == s[..l] && t[u + 1..] == s[u + 1..];
    Parts(s, l, u + 1);
    Parts(t, l, u + 1);
    Cancel(multiset(s[..l]), multiset(s[l..u + 1]), multiset(t[l..u + 1]), multiset(s[u + 1..]));
  }

  lemma Cancel<T>(a: multiset<T>, b: multiset<T>, b': multiset<T>, c: multiset<T>)
    requires a + b + c == a + b' + c
    ensures b == b'
  {
    forall x
      ensures b[x] == b'[x]
    {
      assert (a + b + c)[x] == a[x] + b[x] + c[x] && (a + b' + c)[x] == a[x] + b'[x] + c[x];
    }
  }

  lemma Parts<T>(s: seq<T>, l: nat, u: nat)
    requires l <= u <= |s|
    ensures multiset(s) == multiset(s[..l]) + multiset(s[l..u]) + multiset(s[u..])
  {
    assert s == s[..l] + s[l..u] + s[u..];
  }

  // ---------------------------------------------------------------- order

  /** In order, but for pairs that are both between `l` and `u`. */
  ghost predicate OrderedAround<T>(lt: (T, T) -> bool, s: seq<T>, l0: int, u0: int, l: int, u: int) {
    forall i, j | 0 <= l0 <= i < j <= u0 < |s| && !(l <= i && j <= u) :: !lt(s[j], s[i])
  }

  ghost predicate Sorted<T>(lt: (T, T) -> bool, s: seq<T>, l: int, u: int) {
    forall i, j | 0 <= l <= i < j <= u < |s| :: !lt(s[j], s[i])
  }

  /** Rearranging what is between `l` and `u` does not matter to the rest. */
  lemma AroundKept<T>(lt: (T, T) -> bool, s: seq<T>, t: seq<T>, l0: nat, u0: int, l: nat, u: int)
    requires l0 <= l && u <= u0 < |s| && Shuffled(s, t, l, u) && OrderedAround(lt, s, l0, u0, l, u)
    ensures OrderedAround(lt, t, l0, u0, l, u)
  {
    forall i, j | l0 <= i < j <= u0 && !(l <= i && j <= u)
      ensures !lt(t[j], t[i])
    {
      var i', j' := i, j;
      if l <= i <= u { i' := Origin(s, t, l, u, i); }
      if l <= j <= u { j' := Origin(s, t, l, u, j); }
      assert s[i'] == t[i] && s[j'] == t[j] && i' < j';
    }
  }

  lemma Origin<T>(s: seq<T>, t: seq<T>, l: nat, u: int, k: nat) returns (m: nat)
    requires Shuffled(s, t, l, u) && l <= k <= u < |s|
    ensures l <= m <= u && s[m] == t[k]
  {
    WasInPart(s, t, l, u, k);
    var x :| 0 <= x < |s[l..u + 1]| && s[l..u + 1][x] == t[k];
    m := l + x;
  }

  /** What is in place around the pivot at `i`. */
  ghost predicate Parted<T>(lt: (T, T) -> bool, s: seq<T>, l: int, u: int, i: int) {
    0 <= l <= i <= u < |s| && (forall k | l <= k < i :: !lt(s[i], s[k])) && (forall k | i < k <= u :: !lt(s[k], s[i]))
  }

  /** With one side of the pivot sorted only the other side is left to do. */
  lemma LeftDone<T(!new)>(lt: (T, T) -> bool, s: seq<T>, t: seq<T>, l0: nat, u0: int, l: nat, u: int, i: int)
    requires StrictWeak(lt) && l0 <= l && u <= u0 < |s| && Parted(lt, s, l, u, i) && Shuffled(s, t, l, i - 1)
    requires OrderedAround(lt, s, l0, u0, l, u) && Sorted(lt, t, l, i - 1)
    ensures OrderedAround(lt, t, l0, u0, i + 1, u)
  {
    AroundKeptMore(lt, s, t, l0, u0, l, u, l, i - 1);
    forall x, y | l <= x < y <= u && !(i + 1 <= x)
      ensures !lt(t[y], t[x])
    {
      if x < i {
        var x' := Origin(s, t, l, i - 1, x);
        assert !lt(s[i], s[x']);
        assert y > i ==> !lt(s[y], s[i]);
      }
    }
  }

  lemma RightDone<T(!new)>(lt: (T, T) -> bool, s: seq<T>, t: seq<T>, l0: nat, u0: int, l: nat, u: int, i: int)
    requires StrictWeak(lt) && l0 <= l && u <= u0 < |s| && Parted(lt, s, l, u, i) && Shuffled(s, t, i + 1, u)
    requires OrderedAround(lt, s, l0, u0, l, u) && Sorted(lt, t, i + 1, u)
    ensures OrderedAround(lt, t, l0, u0, l, i - 1)
  {
    AroundKeptMore(lt, s, t, l0, u0, l, u, i + 1, u);
    forall x, y | l <= x < y <= u && !(y <= i - 1)
      ensures !lt(t[y], t[x])
    {
      if y > i {
        var y' := Origin(s, t, i + 1, u, y);
        assert !lt(s[y'], s[i]);
        assert x < i ==> !lt(s[i], s[x]);
      }
    }
  }

  lemma AroundKeptMore<T>(lt: (T, T) -> bool, s: seq<T>, t: seq<T>, l0: nat, u0: int, l: nat, u: int, a: nat, b: int)
    requires l0 <= l <= a && b <= u <= u0 < |s| && Shuffled(s, t, a, b) && OrderedAround(lt, s, l0, u0, l, u)
    ensures OrderedAround(lt, t, l0, u0, l, u)
  {
    assert Shuffled(s, t, l, u);
    AroundKept(lt, s, t, l0, u0, l, u);
  }

  lemma TwoSorted<T(!new)>(lt: (T, T) -> bool, s: seq<T>, l: nat)
    requires StrictWeak(lt) && l + 1 < |s| && !lt(s[l + 1], s[l])
    ensures Sorted(lt, s, l, l + 1)
  {}

  lemma ThreeSorted<T(!new)>(lt: (T, T) -> bool, s: seq<T>, l: nat)
    requires StrictWeak(lt) && l + 2 < |s| && !lt(s[l + 1], s[l]) && !lt(s[l + 2], s[l + 1])
    ensures Sorted(lt, s, l, l + 2)
  {}

  lemma Irreflexive<T(!new)>(lt: (T, T) -> bool, x: T)
    requires StrictWeak(lt)
    ensures !lt(x, x)
  {}

  /** The pivot goes between the halves. */
  lemma PivotPlaced<T(!new)>(lt: (T, T) -> bool, s: seq<T>, t: seq<T>, l: nat, u: int, i: int)
    requires l < i < u < |s| == |t| && t[i] == s[u - 1] && t[u - 1] == s[i]
    requires forall k | 0 <= k < |s| && k != i && k != u - 1 :: t[k] == s[k]
    requires forall k | l <= k <= i - 1 :: !lt(s[u - 1], s[k])
    requires forall k | i <= k <= u :: !lt(s[k], s[u - 1])
    ensures Parted(lt, t, l, u, i)
  {}

  class Sorter<T(==,!new)> {
    const a: array<T>
    const lt: (T, T) -> bool
    /** Whether comparisons are made with `lt`; otherwise their answers are arbitrary. */
    const honest: bool

    constructor (a: array<T>, lt: (T, T) -> bool, honest: bool)
      ensures this.a == a && this.lt == lt && this.honest == honest
    {
      this.a, this.lt, this.honest := a, lt, honest;
    }

    ghost predicate Proper() { honest && StrictWeak(lt) }

    /** sort_comp */
    method Compare(x: T, y: T) returns (r: Answer)
      ensures honest ==> r == if lt(x, y) then Yes else No
    {
      if honest {
        r := if lt(x, y) then Yes else No;
      } else {
        r := *;
      }
    }

    /** An element of the part that is being sorted: nothing else is ever read. */
    method Read(k: int, ghost l: int, ghost u: int) returns (x: T)
      requires 0 <= l <= k <= u < a.Length
      ensures x == a[k]
    {
      x := a[k];
    }

    /** set2, for two values that have just been read. */
    method Swap(i: int, j: int, ghost l: int, ghost u: int)
      requires 0 <= l <= i <= u < a.Length && l <= j <= u
      modifies a
      ensures Shuffled(old(a[..]), a[..], l, u)
      ensures a[i] == old(a[j]) && a[j] == old(a[i]) && forall k | 0 <= k < a.Length && k != i && k != j :: a[k] == old(a[k])
    {
      a[i], a[j] := a[j], a[i];
    }

    /** a[l], a[(l+u)/2] and a[u] are put in order. `short` says that this was all. */
    method Median(l: int, u: int) returns (r: Result, short: bool, m: int)
      requires 0 <= l < u < a.Length
      modifies a
      ensures Shuffled(old(a[..]), a[..], l, u) && m == (l + u) / 2
      ensures Proper() ==> r == Done
      ensures r == Done ==> (short <==> u - l <= 2)
      ensures r == Done && Proper() ==> if short then Sorted(lt, a[..], l, u) else !lt(a[m], a[l]) && !lt(a[u], a[m])
    {
      hide Sorted;
      m, short, r := (l + u) / 2, true, Done;
      var x := Read(l, l, u);
      var y := Read(u, l, u);
      var c := Compare(y, x);
      if c == Raise { return Raised, short, m; }
      if c == Yes { Swap(l, u, l, u); }
      if u - l == 1 {
        if Proper() { TwoSorted(lt, a[..], l); }
        return;
      }
      ghost var s := a[..];
      x := Read(m, l, u);
      y := Read(l, l, u);
      c := Compare(x, y);
      if c == Raise { return Raised, short, m; }
      if c == Yes {
        Swap(m, l, l, u);
      } else {
        y := Read(u, l, u);
        c := Compare(y, x);
        if c == Raise { return Raised, short, m; }
        if c == Yes { Swap(m, u, l, u); }
      }
      ShuffledMore(old(a[..]), s, a[..], l, u);
      short := u - l == 2;
      if short && Proper() { ThreeSorted(lt, a[..], l); }
    }

    /** ++i until a[i] is not below the pivot */
    method Forward(p: T, i0: int, l: int, u: int) returns (r: Result, i: int)
      requires 0 <= l <= i0 < u < a.Length
      ensures r == Done ==> i0 < i <= u && (honest ==> !lt(a[i], p)) && forall k | i0 < k < i :: honest ==> lt(a[k], p)
      ensures Proper() && i0 < u - 1 && a[u - 1] == p ==> r == Done && i <= u - 1
    {
      i := i0 + 1;
      var x := Read(i, l, u);
      var c := Compare(x, p);
      while c == Yes
        invariant i0 < i <= u && forall k | i0 < k < i :: honest ==> lt(a[k], p)
        invariant honest ==> c == if lt(a[i], p) then Yes else No
        invariant Proper() && i0 < u - 1 && a[u - 1] == p ==> i <= u - 1
        decreases u - i, c == Yes
      {
        if i >= u { return InvalidOrder, i; }
        i := i + 1;
        x := Read(i, l, u);
        c := Compare(x, p);
      }
      r := if c == Raise then Raised else Done;
    }

    /** --j until the pivot is not below a[j] */
    method Backward(p: T, j0: int, l: int, u: int) returns (r: Result, j: int)
      requires 0 <= l < j0 <= u < a.Length
      ensures r == Done ==> l <= j < j0 && (honest ==> !lt(p, a[j])) && forall k | j < k < j0 :: honest ==> lt(p, a[k])
      ensures Proper() && !lt(p, a[l]) ==> r == Done
    {
      j := j0 - 1;
      var x := Read(j, l, u);
      var c := Compare(p, x);
      while c == Yes
        invariant l <= j < j0 && forall k | j < k < j0 :: honest ==> lt(p, a[k])
        invariant honest ==> c == if lt(p, a[j]) then Yes else No
        decreases j, c == Yes
      {
        if j <= l { return InvalidOrder, j; }
        j := j - 1;
        x := Read(j, l, u);
        c := Compare(p, x);
      }
      r := if c == Raise then Raised else Done;
    }

    /** The elements up to `i` are not above the pivot, those from `j` on not below. */
    ghost predicate Halves(p: T, l: int, u: int, i: int, j: int)
      reads a
    {
      && 0 <= l <= i < u < a.Length && l < j <= u && i <= j && a[u - 1] == p
      && (forall k | l <= k <= i :: !lt(p, a[k])) && (forall k | j <= k <= u :: !lt(a[k], p))
    }

    /** Partition around the pivot in a[u-1]; the halves meet at `i`. */
    method Partition(p: T, l: int, u: int) returns (r: Result, i: int)
      requires 0 <= l && l + 2 < u < a.Length && (Proper() ==> Halves(p, l, u, l, u - 1))
      modifies a
      ensures Shuffled(old(a[..]), a[..], l, u)
      ensures Proper() ==> r == Done
      ensures r == Done ==> l < i <= u && (Proper() ==> i < u && Halves(p, l, u, i - 1, i))
    {
      hide StrictWeak, Shuffled;
      i := l;
      var j := u - 1;
      Unchanged(a[..], l, u);
      while true
        invariant l <= i < u && l < j <= u - 1 && Shuffled(old(a[..]), a[..], l, u) && i <= j
        invariant Proper() ==> Halves(p, l, u, i, j) && i < u - 1
        decreases j - i
      {
        r, i := Forward(p, i, l, u);
        if r != Done { return; }
        r, j := Backward(p, j, l, u);
        if r != Done { return; }
        if Proper() { Asymmetric(); }
        if j < i { break; }
        ghost var s := a[..];
        Swap(i, j, l, u);
        ShuffledMore(old(a[..]), s, a[..], l, u);
      }
    }

    lemma Asymmetric()
      requires StrictWeak(lt)
      ensures forall x, y :: lt(x, y) ==> !lt(y, x)
    {}

    /** One round: the part is sorted if it is short, or has its pivot in place at `i`. */
    method Round(l: int, u: int) returns (r: Result, short: bool, i: int)
      requires 0 <= l < u < a.Length
      modifies a
      ensures Shuffled(old(a[..]), a[..], l, u)
      ensures Proper() ==> r == Done
      ensures r == Done && short && Proper() ==> Sorted(lt, a[..], l, u)
      ensures r == Done && !short ==> l + 2 < u && l < i <= u && (Proper() ==> Parted(lt, a[..], l, u, i))
    {
      hide Shuffled, Sorted, Parted, StrictWeak;
      r, short, i := Median(l, u);
      if r != Done || short { return; }
      var p := Read(i, l, u);
      ghost var s := a[..];
      Swap(i, u - 1, l, u);
      ShuffledMore(old(a[..]), s, a[..], l, u);
      s := a[..];
      if Proper() { Irreflexive(lt, p); }
      r, i := Partition(p, l, u);
      ShuffledMore(old(a[..]), s, a[..], l, u);
      if r != Done { return; }
      s := a[..];
      Swap(u - 1, i, l, u);
      ShuffledMore(old(a[..]), s, a[..], l, u);
      if Proper() { PivotPlaced(lt, s, a[..], l, u, i); }
    }

    /** auxsort. `d` bounds how deep it recurses: the logarithm of the number of elements. */
    method AuxSort(l0: int, u0: int, ghost d: nat) returns (r: Result)
      requires 0 <= l0 && u0 < a.Length && u0 - l0 + 1 < Shl(1, d + 1)
      modifies a
      ensures Shuffled(old(a[..]), a[..], l0, u0)
      ensures Proper() ==> r == Done && Sorted(lt, a[..], l0, u0)
      decreases d
    {
      hide StrictWeak, Shuffled, Sorted, OrderedAround, Parted;
      var l, u := l0, u0;
      r := Done;
      Unchanged(a[..], l0, u0);
      AllToDo(lt, a[..], l0, u0);
      while l < u
        invariant l0 <= l && u <= u0 && r == Done && Shuffled(old(a[..]), a[..], l0, u0)
        invariant Proper() ==> OrderedAround(lt, a[..], l0, u0, l, u)
        decreases u - l
      {
        ghost var s, l1, u1 := a[..], l, u;
        var short, i;
        r, short, i := Round(l, u);
        ShuffledInside(old(a[..]), s, a[..], l0, u0, l, u);
        if Proper() { AroundKept(lt, s, a[..], l0, u0, l, u); }
        if r != Done { return; }
        if short {
          if Proper() { SortedAll(lt, a[..], l0, u0, l, u); }
          return;
        }
        s := a[..];
        ghost var m := i;
        var j;
        if i - l < u - i {
          j, i, l := l, i - 1, i + 1;
        } else {
          j, i, u := i + 1, u, i - 1;
        }
        HalfPower(l1, u1, i - j + 1, d);
        r := AuxSort(j, i, d - 1);
        ShuffledInside(old(a[..]), s, a[..], l0, u0, j, i);
        if r != Done { return; }
        if Proper() {
          if j == l1 {
            LeftDone(lt, s, a[..], l0, u0, l1, u1, m);
          } else {
            RightDone(lt, s, a[..], l0, u0, l1, u1, m);
          }
        }
      }
      if Proper() { SortedAll(lt, a[..], l0, u0, l, u); }
    }

    /** table.sort */
    method Sort(ghost d: nat) returns (r: Result)
      requires a.Length < Shl(1, d + 1)
      modifies a
      ensures multiset(a[..]) == multiset(old(a[..]))
      ensures Proper() ==> r == Done && forall i, j | 0 <= i < j < a.Length :: !lt(a[j], a[i])
    {
      r := AuxSort(0, a.Length - 1, d);
    }
  }

  lemma Unchanged<T>(s: seq<T>, l: int, u: int)
    ensures Shuffled(s, s, l, u)
  {}

  lemma AllToDo<T>(lt: (T, T) -> bool, s: seq<T>, l: int, u: int)
    ensures OrderedAround(lt, s, l, u, l, u)
  {}

  lemma ShuffledInside<T>(s: seq<T>, t: seq<T>, v: seq<T>, l0: int, u0: int, l: int, u: int)
    requires Shuffled(s, t, l0, u0) && Shuffled(t, v, l, u) && l0 <= l && u <= u0
    ensures Shuffled(s, v, l0, u0)
  {}

  lemma SortedAll<T>(lt: (T, T) -> bool, s: seq<T>, l0: nat, u0: int, l: int, u: int)
    requires OrderedAround(lt, s, l0, u0, l, u) && (l >= u || Sorted(lt, s, l, u)) && l0 <= l && u <= u0
    ensures Sorted(lt, s, l0, u0)
  {
    forall i, j | l0 <= i < j <= u0 < |s|
      ensures !lt(s[j], s[i])
    {}
  }

  /** The smaller side of a pivot is at most half of the part. */
  lemma HalfPower(l: int, u: int, n: int, d: nat)
    requires u - l + 1 < Shl(1, d + 1) && l + 2 < u && 2 * n <= u - l
    ensures d > 0 && n < Shl(1, d)
  {}
}
