/** The order in which the rows of a GIF image are drawn. */
module GifRows {
  /** A row, the distance to the next one in this pass, and how many passes follow. */
  datatype Cursor = Cursor(y: nat, step: nat, parse: nat)

  /** 1 << parse, for the passes there are. */
  function Spacing(parse: nat): nat { if parse == 0 then 1 else if parse == 1 then 2 else if parse == 2 then 4 else 8 }

  /** The start of the next pass. */
  function NextPass(c: Cursor): Cursor
    requires c.parse > 0
  {
    Cursor(Spacing(c.parse) / 2, Spacing(c.parse), c.parse - 1)
  }

  /** The inner loop of stbi__out_gif_code: passes without rows are skipped. */
  function Settle(h: nat, c: Cursor): Cursor
    decreases c.parse
  {
    if c.y >= h && c.parse > 0 then Settle(h, NextPass(c)) else c
  }

  /** The rows that are still to come. */
  function Rows(h: nat, c: Cursor): seq<nat>
    requires c.step > 0
    decreases c.parse, if c.y < h then h - c.y else 0
  {
    if c.y < h then [c.y] + Rows(h, Cursor(c.y + c.step, c.step, c.parse))
    else if c.parse > 0 then Rows(h, NextPass(c))
    else []
  }

  lemma {:induction false} SettledRows(h: nat, c: Cursor)
    requires c.step > 0
    ensures Settle(h, c).step > 0 && Rows(h, Settle(h, c)) == Rows(h, c)
    ensures Settle(h, c).y >= h ==> Rows(h, c) == []
    decreases c.parse
  {
    if c.y >= h && c.parse > 0 { SettledRows(h, NextPass(c)); }
  }

  /** Either every row, or every eighth one with three passes to follow. */
  function Start(interlaced: bool): Cursor { if interlaced then Cursor(0, 8, 3) else Cursor(0, 1, 0) }

  /** The passes of Appendix E of the GIF89a specification: their rows, */
  ghost predicate Class(parse: nat, z: nat) {
    match parse
    case 3 => z % 8 == 0
    case 2 => z % 8 == 4
    case 1 => z % 4 == 2
    case _ => z % 2 == 1
  }

  /** how far apart these are, */
  function StepOf(parse: nat): nat { if parse >= 2 then 8 else if parse == 1 then 4 else 2 }

  /** and the rows of all later passes. */
  ghost predicate Later(parse: nat, z: nat) {
    match parse
    case 3 => z % 8 != 0
    case 2 => z % 4 != 0
    case 1 => z % 2 != 0
    case _ => false
  }

  ghost predicate InPass(c: Cursor) { c.parse <= 3 && c.step == StepOf(c.parse) && Class(c.parse, c.y) }

  /** The rows that come in this pass or in a later one. */
  ghost predicate ToCome(c: Cursor, z: nat) { (z >= c.y && Class(c.parse, z)) || Later(c.parse, z) }

  lemma ClassStep(parse: nat, y: nat, z: nat)
    requires parse <= 3 && Class(parse, y)
    ensures Class(parse, y + StepOf(parse)) && !Later(parse, y)
    ensures Class(parse, z) && z > y ==> z >= y + StepOf(parse)
  {
    hide Class, Later, StepOf;
    ClassNext(parse, y);
    if Class(parse, z) && z > y { ClassGap(parse, y, z); }
  }

  lemma ClassNext(parse: nat, y: nat)
    requires parse <= 3 && Class(parse, y)
    ensures Class(parse, y + StepOf(parse)) && !Later(parse, y)
  {
    if parse >= 2 { Gap8(y, y); } else if parse == 1 { Gap4(y, y); } else { Gap2(y, y); }
  }

  lemma ClassGap(parse: nat, y: nat, z: nat)
    requires parse <= 3 && Class(parse, y) && Class(parse, z) && z > y
    ensures z >= y + StepOf(parse)
  {
    if parse >= 2 { Gap8(y, z); } else if parse == 1 { Gap4(y, z); } else { Gap2(y, z); }
  }

  lemma Gap8(y: nat, z: nat)
    ensures z % 8 == y % 8 && z > y ==> z >= y + 8
    ensures (y + 8) % 8 == y % 8
    ensures y % 8 == 4 ==> y % 4 == 0
  {}

  lemma Gap4(y: nat, z: nat)
    ensures z % 4 == y % 4 && z > y ==> z >= y + 4
    ensures (y + 4) % 4 == y % 4
    ensures y % 4 == 2 ==> y % 2 == 0
  {}

  lemma Gap2(y: nat, z: nat)
    ensures z % 2 == y % 2 && z > y ==> z >= y + 2
    ensures (y + 2) % 2 == y % 2
  {}

  ghost predicate NoDuplicates(s: seq<nat>) { forall i, j | 0 <= i < j < |s| :: s[i] != s[j] }

  lemma {:induction false} PassRows(h: nat, c: Cursor, z: nat)
    requires InPass(c)
    ensures z in Rows(h, c) <==> z < h && ToCome(c, z)
    decreases c.parse, if c.y < h then h - c.y else 0
  {
    hide InPass, ToCome, NextPass;
    if c.y < h {
      var next := Cursor(c.y + c.step, c.step, c.parse);
      SamePass(c, z);
      PassRows(h, next, z);
    } else {
      PassEnds(h, c, z);
      if c.parse > 0 { PassRows(h, NextPass(c), z); }
    }
  }

  lemma PassEnds(h: nat, c: Cursor, z: nat)
    requires InPass(c) && c.y >= h
    ensures c.parse > 0 ==> InPass(NextPass(c)) && NextPass(c).parse < c.parse && (z < h ==> (ToCome(c, z) <==> ToCome(NextPass(c), z)))
    ensures c.parse == 0 && z < h ==> !ToCome(c, z)
  {
    Split8(z);
    Split4(z);
  }

  lemma {:induction false} Split8(z: nat)
    ensures z % 8 != 0 <==> (z >= 4 && z % 8 == 4) || z % 4 != 0
  {
    if z >= 8 { Split8(z - 8); }
  }

  lemma {:induction false} Split4(z: nat)
    ensures z % 4 != 0 <==> (z >= 2 && z % 4 == 2) || z % 2 != 0
  {
    if z >= 4 { Split4(z - 4); }
  }

  lemma SamePass(c: Cursor, z: nat)
    requires InPass(c)
    ensures c.step > 0 && InPass(Cursor(c.y + c.step, c.step, c.parse))
    ensures ToCome(c, z) <==> z == c.y || ToCome(Cursor(c.y + c.step, c.step, c.parse), z)
    ensures !ToCome(Cursor(c.y + c.step, c.step, c.parse), c.y)
  {
    hide Class, Later, StepOf;
    StepPositive(c.parse);
    ClassStep(c.parse, c.y, z);
    ClassStep(c.parse, c.y, c.y);
  }

  lemma StepPositive(parse: nat)
    ensures StepOf(parse) > 0
  {}

  lemma {:induction false} PassOnce(h: nat, c: Cursor)
    requires InPass(c)
    ensures NoDuplicates(Rows(h, c))
    decreases c.parse, if c.y < h then h - c.y else 0
  {
    if c.y < h {
      var next := Cursor(c.y + c.step, c.step, c.parse);
      SamePass(c, c.y);
      PassOnce(h, next);
      PassRows(h, next, c.y);
    } else if c.parse > 0 {
      PassOnce(h, NextPass(c));
    }
  }

  lemma {:induction false} PlainRows(h: nat, y: nat)
    requires y <= h
    ensures var r := Rows(h, Cursor(y, 1, 0)); |r| == h - y && forall i | 0 <= i < |r| :: r[i] == y + i
    decreases h - y
  {
    if y < h { PlainRows(h, y + 1); }
  }

  lemma FirstIn(s: seq<nat>)
    requires s != []
    ensures s[0] in s
  {}

  lemma {:induction false} AsMany(s: seq<nat>, h: nat)
    requires NoDuplicates(s) && forall z: nat :: z in s <==> z < h
    ensures |s| == h
    decreases h
  {
    if h > 0 {
      assert h - 1 in s;
      var i :| 0 <= i < |s| && s[i] == h - 1;
      var t := s[..i] + s[i + 1..];
      forall z: nat
        ensures z in t <==> z < h - 1
      {
        if z in s {
          var j :| 0 <= j < |s| && s[j] == z;
          if j != i { assert t[if j < i then j else j - 1] == z; }
        }
      }
      assert NoDuplicates(t) by {
        forall a, b | 0 <= a < b < |t|
          ensures t[a] != t[b]
        {
          assert t[a] == s[if a < i then a else a + 1] && t[b] == s[if b < i then b else b + 1];
        }
      }
      AsMany(t, h - 1);
    } else if s != [] {
      FirstIn(s);
    }
  }

  /** Interlaced or not, every row is drawn exactly once. */
  lemma EachRowOnce(h: nat, interlaced: bool)
    ensures var r := Rows(h, Start(interlaced)); |r| == h && NoDuplicates(r) && forall z: nat :: z in r <==> z < h
    ensures forall i | 0 <= i < h :: Rows(h, Start(interlaced))[i] < h
  {
    var r := Rows(h, Start(interlaced));
    if interlaced {
      PassOnce(h, Start(true));
      forall z: nat
        ensures z in r <==> z < h
      {
        PassRows(h, Start(true), z);
      }
      AsMany(r, h);
    } else {
      PlainRows(h, 0);
      forall z: nat | z < h
        ensures z in r
      {
        assert r[z] == z;
      }
    }
    forall i | 0 <= i < |r|
      ensures r[i] < h
    {
      assert r[i] in r;
    }
  }

  /** The pass of Appendix E in which a row comes: every eighth row, every eighth one from the fourth on,
      every fourth one from the second on, and the others. */
  function PassOf(z: nat): nat { if z % 8 == 0 then 0 else if z % 8 == 4 then 1 else if z % 4 == 2 then 2 else 3 }

  predicate Sooner(z: nat, z': nat) { PassOf(z) < PassOf(z') || (PassOf(z) == PassOf(z') && z < z') }

  predicate Ordered(s: seq<nat>) { forall i, j | 0 <= i < j < |s| :: Sooner(s[i], s[j]) }

  lemma PassIs(parse: nat, z: nat)
    requires parse <= 3
    ensures Class(parse, z) ==> PassOf(z) == 3 - parse
    ensures Later(parse, z) ==> PassOf(z) > 3 - parse
  {
    Split8(z);
    Split4(z);
    Gap8(z, z);
    Gap4(z, z);
  }

  lemma {:induction false} PassesInOrder(h: nat, c: Cursor)
    requires InPass(c)
    ensures Ordered(Rows(h, c))
    decreases c.parse, if c.y < h then h - c.y else 0
  {
    hide Class, Later, Sooner;
    if c.y < h {
      var next := Cursor(c.y + c.step, c.step, c.parse);
      SamePass(c, c.y);
      PassesInOrder(h, next);
      forall j | 0 <= j < |Rows(h, next)|
        ensures Sooner(c.y, Rows(h, next)[j])
      {
        PassRows(h, next, Rows(h, next)[j]);
        ComesLater(c, Rows(h, next)[j]);
      }
    } else {
      PassEnds(h, c, 0);
      if c.parse > 0 { PassesInOrder(h, NextPass(c)); }
    }
  }

  lemma ComesLater(c: Cursor, z: nat)
    requires InPass(c) && ToCome(Cursor(c.y + c.step, c.step, c.parse), z)
    ensures Sooner(c.y, z)
  {
    PassIs(c.parse, c.y);
    PassIs(c.parse, z);
    StepPositive(c.parse);
  }

  /** An interlaced image is drawn pass by pass, each pass from top to bottom; any other one from top to
      bottom. */
  lemma RowOrder(h: nat, interlaced: bool)
    ensures var r := Rows(h, Start(interlaced));
      if interlaced then Ordered(r) else |r| == h && forall i | 0 <= i < h :: r[i] == i
  {
    if interlaced { PassesInOrder(h, Start(true)); } else { PlainRows(h, 0); }
  }
}
