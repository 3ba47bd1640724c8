/** The output buffer of the bytecode writer. */
module BcBuffer {
  import opened BcFormat

  /** A 32 bit number shifted left by one, with its top bit kept where it was. */
  function Twice(k: nat): (v: nat)
    requires IsU32(k)
    ensures IsU32(v) && v % 2 == 0
  {
    if k < 0x8000_0000 then 2 * k else if k < 0xc000_0000 then 2 * k - 0x8000_0000 else 2 * k - U32
  }

  /** The last of five bytes, with bits 31 and 32 of the number put right. */
  function Patched(last: byte, k: nat): byte
    requires IsU32(k)
  {
    last % 8 + k / 0x800_0000 / 8 % 4 * 8
  }

  lemma LastByte(v: nat)
    requires v >= 0x80
    ensures Uleb(v)[|Uleb(v)| - 1] == Uleb(v / 0x80)[|Uleb(v / 0x80)| - 1]
    ensures Uleb(v)[..|Uleb(v)| - 1] == [v % 0x80 + 0x80] + Uleb(v / 0x80)[..|Uleb(v / 0x80)| - 1]
  {}

  /** Numbers that differ in their high bits only differ in the last byte only. */
  lemma TopByte(v: nat, w: nat)
    requires v < 0x80 && w < 0x80
    ensures Uleb(v) == [v] && Uleb(w) == [w]
  {}

  ghost predicate Differ(a: Bytes, b: Bytes, x: nat, y: nat) {
    |a| == |b| > 0 && a[..|a| - 1] == b[..|b| - 1] && a[|a| - 1] == x && b[|b| - 1] == y
  }

  lemma DifferMore(v: nat, w: nat, x: nat, y: nat)
    requires v >= 0x80 && w >= 0x80 && v % 0x80 == w % 0x80 && Differ(Uleb(v / 0x80), Uleb(w / 0x80), x, y)
    ensures Differ(Uleb(v), Uleb(w), x, y)
  {
    LastByte(v);
    LastByte(w);
  }

  lemma Div80(v: nat, d: nat)
    ensures (v + 0x80 * d) / 0x80 == v / 0x80 + d && (v + 0x80 * d) % 0x80 == v % 0x80
  {}

  lemma DifferStep(v: nat, d: nat, x: nat, y: nat)
    requires v >= 0x80 && Differ(Uleb(v / 0x80), Uleb(v / 0x80 + d), x, y)
    ensures Differ(Uleb(v), Uleb(v + 0x80 * d), x, y)
  {
    Div80(v, d);
    DifferMore(v, v + 0x80 * d, x, y);
  }

  /** Adding to bit 31 and above shows in the fifth byte only. */
  lemma DifferTop(v: nat, c: nat, x: nat)
    requires x == v / 0x80 / 0x80 / 0x80 / 0x80 && 0 < x && x + 8 * c < 0x80
    ensures Differ(Uleb(v), Uleb(v + 0x8000_0000 * c), x, x + 8 * c)
  {
    TopByte(x, x + 8 * c);
    assert Differ(Uleb(x), Uleb(x + 8 * c), x, x + 8 * c);
    hide Uleb, Differ;
    DifferStep(v / 0x80 / 0x80 / 0x80, 8 * c, x, x + 8 * c);
    DifferStep(v / 0x80 / 0x80, 0x400 * c, x, x + 8 * c);
    DifferStep(v / 0x80, 0x2_0000 * c, x, x + 8 * c);
    DifferStep(v, 0x100_0000 * c, x, x + 8 * c);
  }

  lemma FifthByte(v: nat)
    ensures v / 0x80 / 0x80 / 0x80 / 0x80 == v / 0x1000_0000
  {}

  /** Writing a number of 33 bits through 32: only the last byte has to be patched. */
  lemma PatchIsExact(k: nat, tag: nat)
    requires 0x8000_0000 <= k < U32 && tag < 2
    ensures var a, b := Uleb(Twice(k) + tag), Uleb(2 * k + tag);
      |a| == |b| > 0 && b == a[|a| - 1 := Patched(a[|a| - 1], k)]
  {
    hide Uleb;
    var v, c := Twice(k) + tag, if k < 0xc000_0000 then 1 else 2;
    assert 2 * k + tag == v + 0x8000_0000 * c;
    var x := v / 0x1000_0000;
    FifthByte(v);
    DifferTop(v, c, x);
    PatchedTop(k, tag, c);
    var a, b := Uleb(v), Uleb(2 * k + tag);
    assert a == a[..|a| - 1] + [a[|a| - 1]] && b == b[..|b| - 1] + [b[|b| - 1]];
  }

  lemma PatchedTop(k: nat, tag: nat, c: nat)
    requires 0x8000_0000 <= k < U32 && tag < 2 && c == if k < 0xc000_0000 then 1 else 2
    ensures var x := (Twice(k) + tag) / 0x1000_0000; 8 <= x < 16 && Patched(x, k) == x + 8 * c
  {
    var x, h := (Twice(k) + tag) / 0x1000_0000, k / 0x800_0000;
    assert (2 * k + tag) / 0x1000_0000 == h;
    assert x + 8 * c == h;
  }

  class Buffer {
    var buf: array<byte>
    var n: nat

    ghost predicate Valid()
      reads this
    {
      n <= buf.Length && buf.Length >= 1024
    }

    /** What has been written. */
    ghost function Text(): (s: Bytes)
      reads this, buf
      requires Valid()
      ensures |s| == n
    {
      buf[..n]
    }

    ghost predicate Room(len: nat)
      reads this
    {
      Valid() && n + len <= buf.Length
    }

    /** lj_str_initbuf and the first lj_str_resizebuf */
    constructor ()
      ensures Valid() && fresh(buf) && n == 0
    {
      buf := new byte[1024](_ => 0);
      n := 0;
    }

    /** bcwrite_need and bcwrite_resize: the size doubles until there is room. */
    method Need(len: nat)
      requires Valid()
      modifies this
      ensures Room(len) && n == old(n) && Text() == old(Text()) && (buf == old(buf) || fresh(buf)) && buf.Length >= old(buf.Length)
    {
      if n + len > buf.Length {
        var sz := buf.Length * 2;
        while n + len > sz
          invariant sz >= buf.Length > 0
          decreases n + len - sz
        {
          sz := sz * 2;
        }
        var more := new byte[sz](_ => 0);
        forall i | 0 <= i < n {
          more[i] := buf[i];
        }
        buf := more;
      }
    }

    /** bcwrite_byte */
    method Byte(b: byte)
      requires Room(1)
      modifies this`n, buf
      ensures Valid() && n == old(n) + 1 && Text() == old(Text()) + [b]
    {
      buf[n] := b;
      n := n + 1;
    }

    /** bcwrite_block */
    method Block(s: Bytes)
      requires Room(|s|)
      modifies this`n, buf
      ensures Valid() && n == old(n) + |s| && Text() == old(Text()) + s && buf[n..] == old(buf[n + |s|..])
    {
      forall i | 0 <= i < |s| {
        buf[n + i] := s[i];
      }
      n := n + |s|;
      assert buf[..n] == old(buf[..n]) + s;
    }

    /** bcwrite_uleb128 */
    method Uleb128(v0: nat)
      requires Room(|Uleb(v0)|)
      modifies this`n, buf
      ensures Valid() && n == old(n) + |Uleb(v0)| && Text() == old(Text()) + Uleb(v0)
      ensures buf[n..] == old(buf[n + |Uleb(v0)|..])
    {
      var v, m := v0, n;
      while v >= 0x80
        invariant n == old(n) && buf == old(buf)
        invariant m + |Uleb(v)| == n + |Uleb(v0)| && n <= m && buf[..m] + Uleb(v) == old(buf[..n]) + Uleb(v0)
        invariant buf[n + |Uleb(v0)|..] == old(buf[n + |Uleb(v0)|..])
      {
        ghost var was := buf[..m];
        buf[m] := v % 0x80 + 0x80;
        assert buf[..m] == was && buf[..m + 1] == was + [v % 0x80 + 0x80];
        assert was + ([v % 0x80 + 0x80] + Uleb(v / 0x80)) == was + [v % 0x80 + 0x80] + Uleb(v / 0x80);
        v, m := v / 0x80, m + 1;
      }
      buf[m] := v;
      n := m + 1;
      assert buf[..n] == buf[..m] + [v];
    }

    /** A number of 33 bits: 32 of them, and `tag` below. */
    method Uleb33(k: nat, tag: nat)
      requires IsU32(k) && tag < 2 && Room(5)
      modifies this`n, buf
      ensures Valid() && n <= old(n) + 5 && Text() == old(Text()) + Uleb(2 * k + tag)
    {
      hide Uleb;
      UlebShort(Twice(k) + tag);
      hide Uleb;
      Uleb128(Twice(k) + tag);
      if k >= 0x8000_0000 {
        PatchIsExact(k, tag);
        ghost var were := Text();
        buf[n - 1] := Patched(buf[n - 1], k);
        assert Text() == were[|were| - 1 := Patched(were[|were| - 1], k)];
      }
    }
  }
}
